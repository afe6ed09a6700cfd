/** `DropLayout.remove(_:)`: delete every item carrying an identity, then heal
    the tree bottom-up so that no container below the root is left empty or
    with a single child, and re-graft a layout left wrapping one container. */
module Removal {
  import opened Layout

  /** Every item of `items`, and everything inside them, is free of `id`. */
  predicate Absent(items: seq<Item>, id: Id)
  {
    forall i | 0 <= i < |items| :: !ItemHasId(items[i], id)
  }

  /** The final step of `remove`: a layout left with fewer than two items
      whose first item is a container takes over that container's direction
      and items. */
  function Regraft(d: DropLayout): (r: DropLayout)
    ensures Leaves(r) == Leaves(d)
    ensures SettledItems(d.items) ==> Settled(r) && RootSettled(r)
    ensures forall x :: ContainsId(r, x) ==> ContainsId(d, x)
  {
    if |d.items| < 2 && d.items != [] && d.items[0].itemType.Container? then
      var sub := d.items[0].itemType.layout;
      assert LeavesOf(d.items) == ItemLeaves(d.items[0]) + LeavesOf(d.items[1..]);
      assert forall x :: ContainsId(sub, x) ==> ItemHasId(d.items[0], x);
      assert SettledItems(d.items) ==> SettledItem(d.items[0]);
      DropLayout(sub.direction, sub.items)
    else d
  }

  /** `remove(_:)`. `newId` stands for the UUID the source generates for every
      container that keeps two or more items; one value serves the whole call.
      The source first filters the direct children (`removeAll`) and then heals
      each remaining container child in place; both steps are done here in one
      left-to-right pass, which is the same because a filtered-out item is never
      healed. */
  function Remove(l: DropLayout, id: Id, newId: Id): (r: DropLayout)
    ensures Settled(r) && RootSettled(r)
    ensures Leaves(r) == KeptLeaves(l, id)
    ensures newId != id ==> !ContainsId(r, id)
  {
    Regraft(DropLayout(l.direction, RemoveItems(l.items, id, newId)))
  }

  /** The surviving, healed children of a layout, in their original order. */
  function RemoveItems(items: seq<Item>, id: Id, newId: Id): (r: seq<Item>)
    ensures SettledItems(r)
    ensures LeavesOf(r) == KeptOf(items, id)
    ensures newId != id ==> Absent(r, id)
  {
    if items == [] then []
    else
      var head := RemoveItem(items[0], id, newId);
      var tail := RemoveItems(items[1..], id, newId);
      LeavesOfConcat(head, tail);
      head + tail
  }

  /** What one child becomes: nothing if it carries `id`; a content child
      stays; a container child is cleaned recursively and then dropped when
      empty, replaced by its only item when it has one, and otherwise kept as
      a container with a newId identity. */
  function RemoveItem(it: Item, id: Id, newId: Id): (r: seq<Item>)
    ensures |r| <= 1
    ensures SettledItems(r)
    ensures LeavesOf(r) == ItemKept(it, id)
    ensures newId != id ==> Absent(r, id)
  {
    if it.id == id then []
    else match it.itemType
      case Content(_) => [it]
      case Container(d) =>
        var cleaned := Remove(d, id, newId);
        if |cleaned.items| < 2 then
          if cleaned.items != [] then
            var only := cleaned.items[0];
            assert cleaned.items == [only];
            assert LeavesOf([only]) == ItemLeaves(only) + LeavesOf([]);
            assert newId != id ==> !ItemHasId(only, id);
            [only]
          else []
        else
          var kept := Item(newId, Container(cleaned), false);
          assert LeavesOf([kept]) == ItemLeaves(kept) + LeavesOf([]);
          [kept]
  }

  // ---------------------------------------------------------------------------
  // Properties of remove
  // ---------------------------------------------------------------------------

  /** Removing an identity no item carries from a settled tree keeps every
      leaf and the whole shape; only container identities are regenerated. */
  lemma {:induction false} RemoveAbsentKeepsShape(l: DropLayout, id: Id, newId: Id)
    requires Settled(l) && RootSettled(l) && !ContainsId(l, id)
    ensures Erase(Remove(l, id, newId)) == Erase(l)
    decreases l, 2
  {
    var healed := RemoveItems(l.items, id, newId);
    RemoveItemsAbsentKeepsShape(l.items, id, newId);
    assert |healed| == |l.items|;
    if |healed| == 1 {
      assert EraseItems(healed)[0] == EraseItem(healed[0]);
      assert EraseItems(l.items)[0] == EraseItem(l.items[0]);
    }
  }

  lemma {:induction false} RemoveItemsAbsentKeepsShape(items: seq<Item>, id: Id, newId: Id)
    requires SettledItems(items) && Absent(items, id)
    ensures EraseItems(RemoveItems(items, id, newId)) == EraseItems(items)
    decreases items, 1
  {
    if items != [] {
      RemoveItemAbsentKeepsShape(items[0], id, newId);
      RemoveItemsAbsentKeepsShape(items[1..], id, newId);
      EraseItemsConcat(RemoveItem(items[0], id, newId), RemoveItems(items[1..], id, newId));
    }
  }

  lemma {:induction false} RemoveItemAbsentKeepsShape(it: Item, id: Id, newId: Id)
    requires SettledItem(it) && !ItemHasId(it, id)
    ensures EraseItems(RemoveItem(it, id, newId)) == [EraseItem(it)]
    decreases it, 0
  {
    match it.itemType
    case Content(_) =>
    case Container(d) =>
      RemoveAbsentKeepsShape(d, id, newId);
      var cleaned := Remove(d, id, newId);
      assert |cleaned.items| == |d.items|;
  }

  /** Removal is idempotent up to container identities. */
  lemma RemoveIsIdempotent(l: DropLayout, id: Id, newId: Id, newId': Id)
    requires newId != id
    ensures Erase(Remove(Remove(l, id, newId), id, newId')) == Erase(Remove(l, id, newId))
  {
    RemoveAbsentKeepsShape(Remove(l, id, newId), id, newId');
  }

  /** When no container carries the identity, the surviving leaves are the old
      leaves with that identity filtered out, in their old order. */
  lemma RemoveFiltersLeaves(l: DropLayout, id: Id, newId: Id)
    requires id !in ContainerIds(l)
    ensures Leaves(Remove(l, id, newId)) == Without(Leaves(l), id)
  {
    KeptIsWithout(l, id);
  }

  /** Removal keeps leaf identities unique. */
  lemma RemoveKeepsLeafIdsUnique(l: DropLayout, id: Id, newId: Id)
    requires UniqueIds(Leaves(l))
    ensures UniqueIds(Leaves(Remove(l, id, newId)))
    ensures IdSet(Leaves(Remove(l, id, newId))) <= IdSet(Leaves(l)) - {id}
  {
    KeptKeepsUniqueIds(l, id);
    var kept := KeptLeaves(l, id);
    assert id !in IdSet(kept);
  }

  /** The collapse example: removing B from [A, (column: B, C)] flattens the
      column to its remaining child, and the root keeps two children. */
  lemma RemoveCollapseExample()
    ensures var a := Item(1, Content(0), false);
            var b := Item(2, Content(0), false);
            var c := Item(3, Content(0), false);
            var root := DropLayout(Horizontal, [a, Item(4, Container(DropLayout(Vertical, [b, c])), false)]);
            Remove(root, 2, 9) == DropLayout(Horizontal, [a, c])
  {
    var a := Item(1, Content(0), false);
    var b := Item(2, Content(0), false);
    var c := Item(3, Content(0), false);
    var column := DropLayout(Vertical, [b, c]);
    assert RemoveItems([b, c], 2, 9) == [c] by {
      assert [b, c][1..] == [c];
      assert RemoveItems([c], 2, 9) == [c];
    }
    assert Remove(column, 2, 9) == DropLayout(Vertical, [c]);
    var root := DropLayout(Horizontal, [a, Item(4, Container(column), false)]);
    assert root.items[1..] == [Item(4, Container(column), false)];
    assert RemoveItem(Item(4, Container(column), false), 2, 9) == [c];
    assert RemoveItems([Item(4, Container(column), false)], 2, 9) == [c];
    assert RemoveItems(root.items, 2, 9) == [a, c];
  }

  /** Removing an absent identity is not a no-op under the source's `==`: a
      surviving container comes back with a fresh identity. */
  lemma RemoveAbsentChangesContainerIds()
    ensures var group := Item(5, Container(DropLayout(Vertical, [Item(2, Content(0), false), Item(3, Content(0), false)])), false);
            var l := DropLayout(Horizontal, [Item(1, Content(0), false), group]);
            !LayoutEq(Remove(l, 8, 7), l) && Erase(Remove(l, 8, 7)) == Erase(l)
  {
    var inner := DropLayout(Vertical, [Item(2, Content(0), false), Item(3, Content(0), false)]);
    var group := Item(5, Container(inner), false);
    var l := DropLayout(Horizontal, [Item(1, Content(0), false), group]);
    assert inner.items[1..] == [Item(3, Content(0), false)];
    assert RemoveItems(inner.items, 8, 7) == inner.items;
    assert Remove(inner, 8, 7) == inner;
    assert RemoveItem(group, 8, 7) == [Item(7, Container(inner), false)];
    assert RemoveItems([group], 8, 7) == [Item(7, Container(inner), false)];
    assert l.items[1..] == [group];
    assert RemoveItems(l.items, 8, 7) == [Item(1, Content(0), false), Item(7, Container(inner), false)];
    RemoveAbsentKeepsShape(l, 8, 7);
  }
}
