/** What a drop does to a layout as a whole: dropping a new tile and then
    removing it gives back the layout's shape, and moving an existing tile
    neither loses nor duplicates any tile. */
module Moves {
  import opened Geometry
  import opened Layout
  import opened Removal
  import opened Drop
  import opened Edits
  import opened Insertion

  /** The deep search finds no item with `id` exactly when every child is free of it. */
  lemma AbsentIffNotContained(l: DropLayout, id: Id)
    ensures Absent(l.items, id) <==> !ContainsId(l, id)
  {
  }

  /** A layout left with at least two children after removal is not re-grafted. */
  lemma WideRemove(d: Direction, items: seq<Item>, id: Id, newId: Id)
    requires |RemoveItems(items, id, newId)| >= 2
    ensures Remove(DropLayout(d, items), id, newId) == DropLayout(d, RemoveItems(items, id, newId))
  {
  }

  lemma RemoveItemsPair(a: Item, b: Item, id: Id, newId: Id)
    ensures RemoveItems([a, b], id, newId) == RemoveItem(a, id, newId) + RemoveItem(b, id, newId)
  {
    assert [a, b][1..] == [b];
    RemoveItemsSingleton(b, id, newId);
  }

  /** Removing the dragged tile from the container that a split created gives
      back the split tile. */
  lemma SplitThenRemove(rule: SideRule, r: Rect, p: Point, d: Direction, tile: Item, item: Item, newId: Id, newId': Id)
    requires tile.itemType.Content? && tile.id != item.id && newId != item.id
    ensures RemoveItem(Item(newId, Container(DropLayout(d, PlaceBeside(rule, r, p, d, tile, item))), false), item.id, newId')
            == [tile]
  {
    var pair := PlaceBeside(rule, r, p, d, tile, item);
    RemoveItemsPair(pair[0], pair[1], item.id, newId');
    assert RemoveItem(tile, item.id, newId') == [tile];
    assert RemoveItems(pair, item.id, newId') == [tile];
    assert Remove(DropLayout(d, pair), item.id, newId') == DropLayout(d, [tile]);
  }

  /** Removing the dragged tile from a container child that received it gives
      back a container child of the same shape, given that removing it from
      the child's own layout does. */
  lemma EnteredThenRemove(hit: Item, sub': DropLayout, id: Id, newId': Id)
    requires hit.itemType.Container? && hit.id != id
    requires |hit.itemType.layout.items| >= 2
    requires Erase(Remove(sub', id, newId')) == Erase(hit.itemType.layout)
    ensures EraseItems(RemoveItem(Item(hit.id, Container(sub'), hit.isSelected), id, newId')) == [EraseItem(hit)]
  {
    var cleaned := Remove(sub', id, newId');
    assert |cleaned.items| >= 2;
    var kept := Item(newId', Container(cleaned), false);
    assert RemoveItem(Item(hit.id, Container(sub'), hit.isSelected), id, newId') == [kept];
    assert EraseItems([kept]) == [EraseItem(kept)] by {
      assert [kept][1..] == [];
    }
  }

  /** `add` on a settled layout of two or more items free of the tile,
      followed by removing the tile, gives back the layout's shape. */
  lemma AddThenRemove(rule: SideRule, item: Item, l: DropLayout, p: Point, container: Rect, newId: Id, newId': Id)
    requires Contains(container, p)
    requires Settled(l) && |l.items| >= 2 && !ContainsId(l, item.id) && newId != item.id
    ensures Erase(Remove(Add(rule, item, l, p, container, newId), item.id, newId')) == Erase(l)
  {
    var preferred := GetPreferredDirection(container, p);
    if l.direction != preferred {
      WrapThenRemove(rule, item, l, p, container, newId, newId');
    } else {
      var k := FindIndexForInsertion(DropLayout(preferred, l.items), p, container);
      SlotThenRemove(item, l, preferred, k, newId');
    }
  }

  /** The wrapping branch of AddThenRemove. */
  lemma WrapThenRemove(rule: SideRule, item: Item, l: DropLayout, p: Point, container: Rect, newId: Id, newId': Id)
    requires Settled(l) && |l.items| >= 2 && !ContainsId(l, item.id) && newId != item.id
    ensures var preferred := GetPreferredDirection(container, p);
            var pair := PlaceBeside(rule, container, p, preferred, Item(newId, Container(l), false), item);
            Erase(Remove(DropLayout(preferred, pair), item.id, newId')) == Erase(l)
  {
    var id := item.id;
    var preferred := GetPreferredDirection(container, p);
    var wrapper := Item(newId, Container(l), false);
    var pair := PlaceBeside(rule, container, p, preferred, wrapper, item);
    var r := DropLayout(preferred, pair);
    RemoveAbsentKeepsShape(l, id, newId');
    var cleaned := Remove(l, id, newId');
    assert |cleaned.items| >= 2;
    var kept := Item(newId', Container(cleaned), false);
    assert RemoveItem(wrapper, id, newId') == [kept];
    assert RemoveItem(item, id, newId') == [];
    RemoveItemsPair(pair[0], pair[1], id, newId');
    assert RemoveItems(r.items, id, newId') == [kept];
    assert Remove(r, id, newId') == DropLayout(cleaned.direction, cleaned.items);
  }

  /** The inserting branch of AddThenRemove. */
  lemma SlotThenRemove(item: Item, l: DropLayout, d: Direction, k: nat, newId': Id)
    requires Settled(l) && |l.items| >= 2 && !ContainsId(l, item.id) && k <= |l.items| && d == l.direction
    ensures Erase(Remove(DropLayout(d, l.items[..k] + [item] + l.items[k..]), item.id, newId')) == Erase(l)
  {
    var id := item.id;
    var r := DropLayout(d, l.items[..k] + [item] + l.items[k..]);
    AbsentIffNotContained(l, id);
    RemoveAfterInsert(l.items, k, item, id, newId');
    WideRemove(d, r.items, id, newId');
  }

  /** Dropping a tile that is not yet in a settled layout of two or more
      items, then removing it, gives back the layout up to container
      identities. */
  lemma {:induction false} InsertThenRemove(rule: SideRule, item: Item, p: Point, l: DropLayout, container: Rect, newId: Id, newId': Id)
    requires Contains(container, p)
    requires Settled(l) && |l.items| >= 2 && !ContainsId(l, item.id) && newId != item.id
    ensures Erase(Remove(InsertItem(rule, item, p, l, container, newId), item.id, newId')) == Erase(l)
    decreases l
  {
    var id := item.id;
    var r := InsertItem(rule, item, p, l, container, newId);
    AbsentIffNotContained(l, id);
    if ShouldEnter(container, p, l) {
      AddThenRemove(rule, item, l, p, container, newId, newId');
    } else {
      var hit := FindItem(p, l, container);
      var i := hit.index;
      assert !ItemHasId(l.items[i], id);
      match hit.item.itemType
      case Content(_) =>
        var d := GetPreferredDirection(hit.rect, p);
        var split := Item(newId, Container(DropLayout(d, PlaceBeside(rule, hit.rect, p, d, hit.item, item))), false);
        assert r.items == l.items[i := split];
        SplitThenRemove(rule, hit.rect, p, d, hit.item, item, newId, newId');
        assert EraseItems([hit.item]) == [EraseItem(hit.item)] by {
          assert [hit.item][1..] == [];
        }
        RemoveAfterReplace(l.items, i, split, id, newId');
        WideRemove(l.direction, r.items, id, newId');
      case Container(sub) =>
        var sub' := InsertItem(rule, item, p, sub, hit.rect, newId);
        var entered := Item(hit.item.id, Container(sub'), hit.item.isSelected);
        assert r.items == l.items[i := entered];
        assert SettledItem(l.items[i]);
        InsertThenRemove(rule, item, p, sub, hit.rect, newId, newId');
        EnteredThenRemove(hit.item, sub', id, newId');
        RemoveAfterReplace(l.items, i, entered, id, newId');
        WideRemove(l.direction, r.items, id, newId');
    }
  }

  /** A drop of a tile that is not yet in a settled layout of two or more
      items, followed by removing it, gives back the layout up to container
      identities: `updateLayout` adds exactly one tile and nothing else. */
  lemma UpdateThenRemove(rule: SideRule, item: Item, p: Point, l: DropLayout, container: Rect, newId: Id, newId': Id)
    requires Contains(container, p)
    requires Settled(l) && |l.items| >= 2 && !ContainsId(l, item.id) && newId != item.id
    ensures Erase(Remove(UpdateLayout(rule, item, p, l, container, newId), item.id, newId')) == Erase(l)
  {
    var removed := Remove(l, item.id, newId);
    RemoveAbsentKeepsShape(l, item.id, newId);
    assert |removed.items| >= 2;
    InsertThenRemove(rule, item, p, removed, container, newId, newId');
  }

  // ---------------------------------------------------------------------------
  // Moving a tile that is already on the board
  // ---------------------------------------------------------------------------

  /** Filtering out an identity no item of `s` carries changes nothing. */
  lemma {:induction false} WithoutAbsent(s: seq<Item>, id: Id)
    requires forall i | 0 <= i < |s| :: s[i].id != id
    ensures Without(s, id) == s
  {
    if s != [] {
      WithoutAbsent(s[1..], id);
    }
  }

  /** In a sequence of distinct identities, filtering out a member's identity
      removes exactly that member. */
  lemma {:induction false} WithoutUniqueMember(s: seq<Item>, item: Item)
    requires UniqueIds(s) && item in s
    ensures multiset(Without(s, item.id)) + multiset{item} == multiset(s)
  {
    assert s == [s[0]] + s[1..];
    if s[0] == item {
      WithoutAbsent(s[1..], item.id);
    } else {
      var j :| 0 <= j < |s| && s[j] == item;
      assert s[0].id != item.id;
      assert item in s[1..] by {
        assert s[1..][j - 1] == item;
      }
      WithoutUniqueMember(s[1..], item);
    }
  }

  /** Dragging a tile of the board to a point inside the root only moves it:
      the board's copy `x` of the tile is replaced by the dragged copy (which
      may differ in its selection flag), and every other tile stays, each
      exactly once. */
  lemma UpdateLayoutMovesTile(rule: SideRule, item: Item, x: Item, p: Point, l: DropLayout, container: Rect, newId: Id)
    requires Contains(container, p) && item.itemType.Content?
    requires UniqueIds(Leaves(l)) && x in Leaves(l) && x.id == item.id && item.id !in ContainerIds(l)
    ensures multiset(Leaves(UpdateLayout(rule, item, p, l, container, newId))) + multiset{x}
            == multiset(Leaves(l)) + multiset{item}
  {
    var r := UpdateLayout(rule, item, p, l, container, newId);
    KeptIsWithout(l, item.id);
    assert ItemLeaves(item) == [item];
    InsertedOnceMultiset(Without(Leaves(l), item.id), Leaves(r), item);
    WithoutUniqueMember(Leaves(l), x);
  }

  /** Putting an element into a slot adds exactly that element. */
  lemma InsertedOnceMultiset(w: seq<Item>, s: seq<Item>, item: Item)
    requires InsertedOnce(w, s, [item])
    ensures multiset(s) == multiset(w) + multiset{item}
  {
    var k :| 0 <= k <= |w| && s == w[..k] + [item] + w[k..];
    assert w == w[..k] + w[k..];
  }

  /** Dragging a tile off the root deletes the board's copy of it and nothing
      else. */
  lemma UpdateLayoutOutsideDeletes(rule: SideRule, item: Item, x: Item, p: Point, l: DropLayout, container: Rect, newId: Id)
    requires !Contains(container, p)
    requires UniqueIds(Leaves(l)) && x in Leaves(l) && x.id == item.id && item.id !in ContainerIds(l)
    ensures multiset(Leaves(UpdateLayout(rule, item, p, l, container, newId))) + multiset{x} == multiset(Leaves(l))
  {
    KeptIsWithout(l, item.id);
    WithoutUniqueMember(Leaves(l), x);
  }

  /** A drop keeps tile identities distinct: the dropped tile's identity
      appears once, exactly when the point is inside the root, beside the
      surviving tiles. */
  lemma UpdateLayoutKeepsLeafIdsUnique(rule: SideRule, item: Item, p: Point, l: DropLayout, container: Rect, newId: Id)
    requires UniqueIds(Leaves(l)) && item.itemType.Content?
    ensures var r := UpdateLayout(rule, item, p, l, container, newId);
            UniqueIds(Leaves(r))
            && IdSet(Leaves(r)) <= IdSet(Leaves(l)) + {item.id}
            && (item.id in IdSet(Leaves(r)) <==> Contains(container, p))
  {
    var r := UpdateLayout(rule, item, p, l, container, newId);
    var kept := KeptLeaves(l, item.id);
    KeptKeepsUniqueIds(l, item.id);
    assert item.id !in IdSet(kept);
    if Contains(container, p) {
      assert ItemLeaves(item) == [item];
      var k :| 0 <= k <= |kept| && Leaves(r) == kept[..k] + [item] + kept[k..];
      var a, b := kept[..k], kept[k..];
      assert kept == a + b;
      UniqueIdsConcat(a, b);
      IdSetConcat(a, b);
      IdSetConcat(a, [item]);
      assert IdSet([item]) == {item.id};
      UniqueIdsConcat(a, [item]);
      IdSetConcat(a + [item], b);
      UniqueIdsConcat(a + [item], b);
    }
  }
}
