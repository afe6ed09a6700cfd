/** The drop operations of DragAndDropView: `add` inserts the dragged tile at
    the current level, `insertItem` decides between joining the level and
    descending into the child under the point, and `updateLayout` first
    removes the tile from wherever it was. */
module Insertion {
  import opened Geometry
  import opened Layout
  import opened Removal
  import opened Drop
  import opened Edits

  /** `add` wraps the whole layout in a new container when the preferred
      direction differs from the layout's and there is more than one item. */
  predicate Wraps(l: DropLayout, container: Rect, p: Point)
  {
    l.direction != GetPreferredDirection(container, p) && |l.items| > 1
  }

  /** Both sequences `x + l` and `l + x` have `x` spliced into `l`. */
  lemma InsertedOnceAtEnds(l: seq<Item>, x: seq<Item>)
    ensures InsertedOnce(l, l + x, x)
    ensures InsertedOnce(l, x + l, x)
  {
    assert l + x == l[..|l|] + x + l[|l|..];
    assert x + l == l[..0] + x + l[0..];
  }

  /** The leaves, container identities and settledness of a two-item sequence. */
  lemma PairFacts(a: Item, b: Item)
    ensures LeavesOf([a, b]) == ItemLeaves(a) + ItemLeaves(b)
    ensures ContainerIdsOf([a, b]) == ItemContainerIds(a) + ItemContainerIds(b)
    ensures SettledItems([a, b]) <==> SettledItem(a) && SettledItem(b)
  {
    assert [a, b][1..] == [b];
    LeavesOfSingleton(b);
    ContainerIdsOfSingleton(b);
  }

  /** What placing `item` beside `other` does to leaves, container identities
      and settledness, whichever side it goes. */
  lemma PlaceBesideFacts(rule: SideRule, r: Rect, p: Point, d: Direction, other: Item, item: Item)
    ensures var s := PlaceBeside(rule, r, p, d, other, item);
            InsertedOnce(ItemLeaves(other), LeavesOf(s), ItemLeaves(item))
            && ContainerIdsOf(s) == ItemContainerIds(other) + ItemContainerIds(item)
            && (SettledItems(s) <==> SettledItem(other) && SettledItem(item))
  {
    PairFacts(other, item);
    PairFacts(item, other);
    InsertedOnceAtEnds(ItemLeaves(other), ItemLeaves(item));
  }

  /** `add`. The preferred direction is that of the container at the point.
      When the layout must turn and has more than one item, it is wrapped
      whole in a new container (identity `newId`) and the tile goes beside
      it; otherwise the layout takes the preferred direction and the tile is
      inserted at the slot nearest the point. */
  function Add(rule: SideRule, item: Item, l: DropLayout, p: Point, container: Rect, newId: Id): (r: DropLayout)
    requires Contains(container, p)
    ensures r.direction == GetPreferredDirection(container, p)
    ensures item in r.items
    ensures InsertedOnce(Leaves(l), Leaves(r), ItemLeaves(item))
    ensures ContainerIds(l) + ItemContainerIds(item) <= ContainerIds(r)
    ensures ContainerIds(r) <= ContainerIds(l) + ItemContainerIds(item) + {newId}
    ensures SettledItems(l.items) && SettledItem(item) ==> Settled(r)
    ensures |l.items| == 0 ==> r.items == [item]
    ensures |l.items| > 0 ==> |r.items| >= 2
    ensures Wraps(l, container, p) ==>
              |r.items| == 2 && Item(newId, Container(l), false) in r.items
              && (r.items[1] == item <==>
                    GoesSecond(rule, container, p, r.direction) || item == Item(newId, Container(l), false))
    ensures !Wraps(l, container, p) ==>
              |r.items| == |l.items| + 1
              && r.items[FindIndexForInsertion(DropLayout(r.direction, l.items), p, container)] == item
    ensures !Wraps(l, container, p) ==>
              var k := FindIndexForInsertion(DropLayout(r.direction, l.items), p, container);
              (forall j | 0 <= j < k :: r.items[j] == l.items[j])
              && (forall j | k <= j < |l.items| :: r.items[j + 1] == l.items[j])
  {
    var preferred := GetPreferredDirection(container, p);
    if l.direction != preferred && |l.items| > 1 then
      var wrapper := Item(newId, Container(l), false);
      var r := DropLayout(preferred, PlaceBeside(rule, container, p, preferred, wrapper, item));
      WrapFacts(rule, item, l, p, container, newId, r);
      r
    else
      var k := FindIndexForInsertion(DropLayout(preferred, l.items), p, container);
      var r := DropLayout(preferred, l.items[..k] + [item] + l.items[k..]);
      SlotFacts(item, l, k, newId, r);
      r
  }

  /** The wrapping branch of `add`. */
  lemma WrapFacts(rule: SideRule, item: Item, l: DropLayout, p: Point, container: Rect, newId: Id, r: DropLayout)
    requires |l.items| > 1
    requires r.items == PlaceBeside(rule, container, p, r.direction, Item(newId, Container(l), false), item)
    ensures item in r.items && |r.items| == 2
    ensures Item(newId, Container(l), false) in r.items
    ensures r.items[1] == item <==>
              GoesSecond(rule, container, p, r.direction) || item == Item(newId, Container(l), false)
    ensures InsertedOnce(Leaves(l), Leaves(r), ItemLeaves(item))
    ensures ContainerIds(l) + ItemContainerIds(item) <= ContainerIds(r)
    ensures ContainerIds(r) <= ContainerIds(l) + ItemContainerIds(item) + {newId}
    ensures SettledItems(l.items) && SettledItem(item) ==> Settled(r)
  {
    var wrapper := Item(newId, Container(l), false);
    PlaceBesideFacts(rule, container, p, r.direction, wrapper, item);
    assert r.items[0] == item || r.items[1] == item;
    assert r.items[0] == wrapper || r.items[1] == wrapper;
  }

  /** The inserting branch of `add`. */
  lemma SlotFacts(item: Item, l: DropLayout, k: int, newId: Id, r: DropLayout)
    requires 0 <= k <= |l.items|
    requires r.items == l.items[..k] + [item] + l.items[k..]
    ensures r.items[k] == item && item in r.items && |r.items| == |l.items| + 1
    ensures forall j | 0 <= j < k :: r.items[j] == l.items[j]
    ensures forall j | k <= j < |l.items| :: r.items[j + 1] == l.items[j]
    ensures |l.items| == 0 ==> r.items == [item]
    ensures InsertedOnce(Leaves(l), Leaves(r), ItemLeaves(item))
    ensures ContainerIds(l) + ItemContainerIds(item) <= ContainerIds(r)
    ensures ContainerIds(r) <= ContainerIds(l) + ItemContainerIds(item) + {newId}
    ensures SettledItems(l.items) && SettledItem(item) ==> Settled(r)
  {
    InsertLeaves(l.items, k, item);
    InsertContainerIds(l.items, k, item);
    InsertSettled(l.items, k, item);
  }

  /** `insertItem`. Near a cell boundary, near the container's border, or
      with fewer than two items, the tile joins this level (`add`). Otherwise
      the child under the point is found: a content tile is replaced by a new
      container (identity `newId`) holding it and the dragged tile side by
      side along the direction preferred inside its cell; a container child
      receives the tile recursively within its cell and keeps its identity
      and selection. */
  function InsertItem(rule: SideRule, item: Item, p: Point, l: DropLayout, container: Rect, newId: Id): (r: DropLayout)
    requires Contains(container, p)
    ensures InsertedOnce(Leaves(l), Leaves(r), ItemLeaves(item))
    ensures ContainerIds(l) + ItemContainerIds(item) <= ContainerIds(r)
    ensures ContainerIds(r) <= ContainerIds(l) + ItemContainerIds(item) + {newId}
    ensures SettledItems(l.items) && SettledItem(item) ==> Settled(r)
    ensures |l.items| == 0 ==> r.items == [item]
    ensures |l.items| > 0 ==> |r.items| >= 2
    ensures ShouldEnter(container, p, l) || |l.items| < 2 ==> r == Add(rule, item, l, p, container, newId)
    ensures !ShouldEnter(container, p, l) && |l.items| >= 2 ==> Descended(rule, item, p, l, container, newId, r)
    ensures !ShouldEnter(container, p, l) && |l.items| >= 2 && FindItem(p, l, container).item.itemType.Container? ==>
              var h := FindItem(p, l, container);
              h.index < |r.items|
              && r.items[h.index].itemType == Container(InsertItem(rule, item, p, h.item.itemType.layout, h.rect, newId))
    decreases l
  {
    if ShouldEnter(container, p, l) || |l.items| < 2 then
      Add(rule, item, l, p, container, newId)
    else
      var hit := FindItem(p, l, container);
      match hit.item.itemType
      case Content(_) =>
        var split := SplitTile(rule, hit.rect, p, hit.item, item, newId);
        SplitFacts(rule, item, hit.rect, p, GetPreferredDirection(hit.rect, p), hit.item, newId);
        ReplaceFacts(l, hit.index, split, item, newId);
        SplitDescended(rule, item, p, l, container, newId, split);
        DropLayout(l.direction, l.items[hit.index := split])
      case Container(sub) =>
        var sub' := InsertItem(rule, item, p, sub, hit.rect, newId);
        var entered := Item(hit.item.id, Container(sub'), hit.item.isSelected);
        EnterFacts(l, hit.index, sub', item, newId);
        EnterDescended(rule, item, p, l, container, newId, sub');
        DropLayout(l.direction, l.items[hit.index := entered])
  }

  lemma SplitDescended(rule: SideRule, item: Item, p: Point, l: DropLayout, container: Rect, newId: Id, split: Item)
    requires Contains(container, p) && |l.items| > 0
    requires var h := FindItem(p, l, container);
             h.item.itemType.Content? && split == SplitTile(rule, h.rect, p, h.item, item, newId)
             && InsertedOnce(ItemLeaves(h.item), ItemLeaves(split), ItemLeaves(item))
    ensures Descended(rule, item, p, l, container, newId,
                      DropLayout(l.direction, l.items[FindItem(p, l, container).index := split]))
  {
  }

  lemma EnterDescended(rule: SideRule, item: Item, p: Point, l: DropLayout, container: Rect, newId: Id, sub': DropLayout)
    requires Contains(container, p) && |l.items| > 0
    requires var h := FindItem(p, l, container);
             h.item.itemType.Container?
             && InsertedOnce(Leaves(h.item.itemType.layout), Leaves(sub'), ItemLeaves(item))
    ensures var h := FindItem(p, l, container);
            Descended(rule, item, p, l, container, newId,
                      DropLayout(l.direction, l.items[h.index := Item(h.item.id, Container(sub'), h.item.isSelected)]))
  {
  }

  /** The container that replaces a hit content tile: identity `newId`,
      direction preferred inside the tile's cell, holding the tile and the
      dragged tile side by side. */
  function SplitTile(rule: SideRule, cell: Rect, p: Point, tile: Item, item: Item, newId: Id): Item
  {
    var d := GetPreferredDirection(cell, p);
    Item(newId, Container(DropLayout(d, PlaceBeside(rule, cell, p, d, tile, item))), false)
  }

  /** Where `insertItem` puts the tile when it descends: only the child
      `findItem` hits changes, and it receives the tile among its leaves. A
      hit content tile is replaced in place by SplitTile; a hit container
      keeps its identity and selection and stays a container. */
  predicate Descended(rule: SideRule, item: Item, p: Point, l: DropLayout, container: Rect, newId: Id, r: DropLayout)
    requires Contains(container, p) && |l.items| > 0
  {
    var h := FindItem(p, l, container);
    r.direction == l.direction && |r.items| == |l.items|
    && (forall j | 0 <= j < |l.items| && j != h.index :: r.items[j] == l.items[j])
    && InsertedOnce(ItemLeaves(h.item), ItemLeaves(r.items[h.index]), ItemLeaves(item))
    && (h.item.itemType.Content? ==> r.items[h.index] == SplitTile(rule, h.rect, p, h.item, item, newId))
    && (h.item.itemType.Container? ==>
          r.items[h.index].id == h.item.id && r.items[h.index].isSelected == h.item.isSelected
          && r.items[h.index].itemType.Container?)
  }

  /** A content tile split into a two-item container with the dragged tile. */
  lemma SplitFacts(rule: SideRule, item: Item, r: Rect, p: Point, d: Direction, tile: Item, newId: Id)
    requires tile.itemType.Content?
    ensures var split := Item(newId, Container(DropLayout(d, PlaceBeside(rule, r, p, d, tile, item))), false);
            InsertedOnce(ItemLeaves(tile), ItemLeaves(split), ItemLeaves(item))
            && ItemContainerIds(split) == ItemContainerIds(tile) + ItemContainerIds(item) + {newId}
            && (SettledItem(item) ==> SettledItem(split))
  {
    var s := PlaceBeside(rule, r, p, d, tile, item);
    PlaceBesideFacts(rule, r, p, d, tile, item);
    assert ItemLeaves(Item(newId, Container(DropLayout(d, s)), false)) == LeavesOf(s);
  }

  /** A container child that received the dragged tile, keeping its identity
      and selection, in place of the old child. */
  lemma EnterFacts(l: DropLayout, i: int, sub': DropLayout, item: Item, newId: Id)
    requires 0 <= i < |l.items| && l.items[i].itemType.Container?
    requires var sub := l.items[i].itemType.layout;
             InsertedOnce(Leaves(sub), Leaves(sub'), ItemLeaves(item))
             && ContainerIds(sub) + ItemContainerIds(item) <= ContainerIds(sub')
             && ContainerIds(sub') <= ContainerIds(sub) + ItemContainerIds(item) + {newId}
             && (SettledItems(sub.items) && SettledItem(item) ==> Settled(sub'))
             && (|sub.items| > 0 ==> |sub'.items| >= 2)
    ensures var r := DropLayout(l.direction, l.items[i := Item(l.items[i].id, Container(sub'), l.items[i].isSelected)]);
            InsertedOnce(Leaves(l), Leaves(r), ItemLeaves(item))
            && ContainerIds(l) + ItemContainerIds(item) <= ContainerIds(r)
            && ContainerIds(r) <= ContainerIds(l) + ItemContainerIds(item) + {newId}
            && (SettledItems(l.items) && SettledItem(item) ==> Settled(r))
            && |r.items| == |l.items|
  {
    var entered := Item(l.items[i].id, Container(sub'), l.items[i].isSelected);
    assert SettledItems(l.items) ==> SettledItem(l.items[i]);
    ReplaceFacts(l, i, entered, item, newId);
  }

  /** Replacing child i by an item that splices the dragged tile into child
      i's leaves does the same to the whole layout. */
  lemma ReplaceFacts(l: DropLayout, i: int, y: Item, item: Item, newId: Id)
    requires 0 <= i < |l.items|
    requires InsertedOnce(ItemLeaves(l.items[i]), ItemLeaves(y), ItemLeaves(item))
    requires ItemContainerIds(l.items[i]) + ItemContainerIds(item) <= ItemContainerIds(y)
    requires ItemContainerIds(y) <= ItemContainerIds(l.items[i]) + ItemContainerIds(item) + {newId}
    ensures var r := DropLayout(l.direction, l.items[i := y]);
            InsertedOnce(Leaves(l), Leaves(r), ItemLeaves(item))
            && ContainerIds(l) + ItemContainerIds(item) <= ContainerIds(r)
            && ContainerIds(r) <= ContainerIds(l) + ItemContainerIds(item) + {newId}
            && (SettledItems(l.items) && SettledItem(y) ==> Settled(r))
            && |r.items| == |l.items|
  {
    ReplaceLeaves(l.items, i, y, ItemLeaves(item));
    ReplaceContainerIds(l.items, i, y, ItemContainerIds(item), ItemContainerIds(item) + {newId});
    ReplaceSettled(l.items, i, y);
  }

  /** `updateLayout`: remove the dragged tile from wherever it is; if the
      point lies in the container, put it back where the point says. When the
      removal leaves nothing, the tile becomes the only item and the
      direction is kept. */
  function UpdateLayout(rule: SideRule, item: Item, p: Point, l: DropLayout, container: Rect, newId: Id): (r: DropLayout)
    ensures !Contains(container, p) ==> Leaves(r) == KeptLeaves(l, item.id)
    ensures Contains(container, p) ==> InsertedOnce(KeptLeaves(l, item.id), Leaves(r), ItemLeaves(item))
    ensures newId != item.id ==> (ContainsId(r, item.id) <==> Contains(container, p))
    ensures Contains(container, p) && Remove(l, item.id, newId).items == [] ==>
              r.direction == Remove(l, item.id, newId).direction && r.items == [item]
    ensures SettledItem(item) ==> Settled(r)
    ensures item.itemType.Content? ==> RootSettled(r)
    ensures !Contains(container, p) ==> r == Remove(l, item.id, newId)
    ensures Contains(container, p) && Remove(l, item.id, newId).items != [] ==>
              r == InsertItem(rule, item, p, Remove(l, item.id, newId), container, newId)
  {
    var removed := Remove(l, item.id, newId);
    if !Contains(container, p) then removed
    else if removed.items == [] then
      AloneFacts(removed, item);
      DropLayout(removed.direction, [item])
    else
      var r := InsertItem(rule, item, p, removed, container, newId);
      PresentAfterInsert(removed, r, item);
      r
  }

  /** The tile alone in a layout emptied by the removal. */
  lemma AloneFacts(removed: DropLayout, item: Item)
    requires removed.items == []
    ensures var r := DropLayout(removed.direction, [item]);
            InsertedOnce(Leaves(removed), Leaves(r), ItemLeaves(item))
            && ContainsId(r, item.id)
            && (SettledItem(item) ==> Settled(r))
  {
    var r := DropLayout(removed.direction, [item]);
    LeavesOfSingleton(item);
    InsertedOnceAtEnds([], ItemLeaves(item));
    assert [] + ItemLeaves(item) == ItemLeaves(item);
    assert ItemHasId(r.items[0], item.id);
  }

  /** A tile spliced into the leaves (or, for a container tile, whose
      container identities all appear) is present in the result. */
  lemma PresentAfterInsert(l: DropLayout, r: DropLayout, item: Item)
    requires InsertedOnce(Leaves(l), Leaves(r), ItemLeaves(item))
    requires ItemContainerIds(item) <= ContainerIds(r)
    ensures ContainsId(r, item.id)
  {
    ContainsIdIffPresent(r, item.id);
    if item.itemType.Content? {
      var before := Leaves(l);
      var k :| 0 <= k <= |before| && Leaves(r) == before[..k] + [item] + before[k..];
      assert Leaves(r)[k] == item;
    }
  }
}
