/** The tiling tree of DropLayoutModel.swift: an Item is a content tile or a
    container wrapping a nested DropLayout, and a DropLayout is a split
    direction plus an ordered sequence of items. Besides the source's own
    members (item equality, isItemContains, cellWidth, cellHeight, position)
    this module defines the vocabulary the properties are stated in: the
    left-to-right leaves of a tree, settledness, and the tree with container
    identities erased. */
module Layout {
  import opened Geometry

  /** A tile's identity (a UUID in the source). */
  type Id = nat

  /** The colour payload of a content tile; the layout never inspects it. */
  type Color = nat

  datatype Direction = Horizontal | Vertical

  datatype ItemType = Content(color: Color) | Container(layout: DropLayout)

  datatype Item = Item(id: Id, itemType: ItemType, isSelected: bool)

  datatype DropLayout = DropLayout(direction: Direction, items: seq<Item>)

  // ---------------------------------------------------------------------------
  // Equality as the source defines it
  // ---------------------------------------------------------------------------

  /** Item's custom `==`: identity and selection only, never the item type. */
  predicate ItemEq(a: Item, b: Item)
  {
    a.id == b.id && a.isSelected == b.isSelected
  }

  /** DropLayout's synthesised `==`: same direction and item-wise ItemEq. */
  predicate LayoutEq(a: DropLayout, b: DropLayout)
  {
    a.direction == b.direction && |a.items| == |b.items|
    && forall i | 0 <= i < |a.items| :: ItemEq(a.items[i], b.items[i])
  }

  /** LayoutEq is an equivalence relation. */
  lemma LayoutEqIsEquivalence(a: DropLayout, b: DropLayout, c: DropLayout)
    ensures LayoutEq(a, a)
    ensures LayoutEq(a, b) ==> LayoutEq(b, a)
    ensures LayoutEq(a, b) && LayoutEq(b, c) ==> LayoutEq(a, c)
  {
  }

  /** Equal items need not be the same item: a content tile and a container
      carrying the same id and selection compare equal, so layout equality
      never looks inside containers. */
  lemma ItemEqIgnoresItemType()
    ensures var leaf := Item(1, Content(0), false);
            var group := Item(1, Container(DropLayout(Vertical, [Item(2, Content(3), false)])), false);
            ItemEq(leaf, group) && leaf != group
            && LayoutEq(DropLayout(Horizontal, [leaf]), DropLayout(Horizontal, [group]))
  {
  }

  // ---------------------------------------------------------------------------
  // isItemContains
  // ---------------------------------------------------------------------------

  /** `isItemContains(_:)` as written. The branch meant to search nested
      containers tests the ARGUMENT's item type, not the child's: for a content
      argument it never descends, and for a container argument it re-enters
      the argument's own layout with the same argument. With a non-empty own
      layout that does not terminate unless the layout searched is empty, or
      its first item, or the first item of the argument's own layout, carries
      the argument's identity; such container arguments are excluded. */
  predicate IsItemContains(l: DropLayout, item: Item)
    requires item.itemType.Content? || item.itemType.layout.items == []
    ensures IsItemContains(l, item) <==> exists i | 0 <= i < |l.items| :: l.items[i].id == item.id
    decreases |l.items|
  {
    if l.items == [] then false
    else
      // the nested search does not depend on the child being visited
      var nested := item.itemType.Container? && IsItemContains(item.itemType.layout, item);
      exists i | 0 <= i < |l.items| :: item.id == l.items[i].id || nested
  }

  /** Whether an item carrying `id` occurs anywhere in the tree: the search
      `isItemContains` evidently intends, descending into every container
      child. */
  predicate ContainsId(l: DropLayout, id: Id)
  {
    exists i | 0 <= i < |l.items| :: ItemHasId(l.items[i], id)
  }

  /** The item itself, or something inside it, carries `id`. */
  predicate ItemHasId(it: Item, id: Id)
  {
    it.id == id || (it.itemType.Container? && ContainsId(it.itemType.layout, id))
  }

  // ---------------------------------------------------------------------------
  // Leaves, container identities and the leaves that survive a removal
  // ---------------------------------------------------------------------------

  /** The content tiles of a tree, left to right (top to bottom). */
  function Leaves(l: DropLayout): (r: seq<Item>)
    ensures forall i | 0 <= i < |r| :: r[i].itemType.Content?
  {
    LeavesOf(l.items)
  }

  function LeavesOf(items: seq<Item>): (r: seq<Item>)
    ensures forall i | 0 <= i < |r| :: r[i].itemType.Content?
  {
    if items == [] then [] else ItemLeaves(items[0]) + LeavesOf(items[1..])
  }

  function ItemLeaves(it: Item): (r: seq<Item>)
    ensures forall i | 0 <= i < |r| :: r[i].itemType.Content?
  {
    match it.itemType
    case Content(_) => [it]
    case Container(d) => Leaves(d)
  }

  /** Identities carried by containers anywhere in the tree. */
  function ContainerIds(l: DropLayout): set<Id>
  {
    ContainerIdsOf(l.items)
  }

  function ContainerIdsOf(items: seq<Item>): set<Id>
  {
    if items == [] then {} else ItemContainerIds(items[0]) + ContainerIdsOf(items[1..])
  }

  function ItemContainerIds(it: Item): set<Id>
  {
    match it.itemType
    case Content(_) => {}
    case Container(d) => {it.id} + ContainerIds(d)
  }

  /** The leaves that lie under no item carrying `id`: a reference for what a
      removal of `id` must leave behind. */
  function KeptLeaves(l: DropLayout, id: Id): (r: seq<Item>)
    ensures forall i | 0 <= i < |r| :: r[i].id != id && r[i].itemType.Content?
  {
    KeptOf(l.items, id)
  }

  function KeptOf(items: seq<Item>, id: Id): (r: seq<Item>)
    ensures forall i | 0 <= i < |r| :: r[i].id != id && r[i].itemType.Content?
  {
    if items == [] then [] else ItemKept(items[0], id) + KeptOf(items[1..], id)
  }

  function ItemKept(it: Item, id: Id): (r: seq<Item>)
    ensures forall i | 0 <= i < |r| :: r[i].id != id && r[i].itemType.Content?
  {
    if it.id == id then []
    else match it.itemType
      case Content(_) => [it]
      case Container(d) => KeptLeaves(d, id)
  }

  /** The items of `s` whose id is not `id`, in order. */
  function Without(s: seq<Item>, id: Id): (r: seq<Item>)
    ensures |r| <= |s|
    ensures forall i | 0 <= i < |r| :: r[i].id != id
  {
    if s == [] then []
    else (if s[0].id == id then [] else [s[0]]) + Without(s[1..], id)
  }

  /** The set of identities occurring in a sequence of items. */
  function IdSet(s: seq<Item>): set<Id>
  {
    set i | 0 <= i < |s| :: s[i].id
  }

  /** No two items of `s` share an identity. */
  predicate UniqueIds(s: seq<Item>)
  {
    forall i, j | 0 <= i < j < |s| :: s[i].id != s[j].id
  }

  /** `after` is `before` with the sequence `x` spliced in at one position. */
  predicate InsertedOnce(before: seq<Item>, after: seq<Item>, x: seq<Item>)
  {
    exists k | 0 <= k <= |before| :: after == before[..k] + x + before[k..]
  }

  // ---------------------------------------------------------------------------
  // Settledness and erasure of container identities
  // ---------------------------------------------------------------------------

  /** Every container below the root has at least two items (no empty and no
      single-child groups). */
  predicate Settled(l: DropLayout)
  {
    SettledItems(l.items)
  }

  predicate SettledItems(items: seq<Item>)
  {
    forall i | 0 <= i < |items| :: SettledItem(items[i])
  }

  predicate SettledItem(it: Item)
  {
    it.itemType.Container? ==>
      |it.itemType.layout.items| >= 2 && SettledItems(it.itemType.layout.items)
  }

  /** The root is not a wrapper around a single container. */
  predicate RootSettled(l: DropLayout)
  {
    !(|l.items| == 1 && l.items[0].itemType.Container?)
  }

  /** The tree with every container's id and selection flag erased: the shape
      of a tree, whose container identities are regenerated by each edit. */
  function Erase(l: DropLayout): (r: DropLayout)
    ensures r.direction == l.direction && |r.items| == |l.items|
    ensures Leaves(r) == Leaves(l)
  {
    DropLayout(l.direction, EraseItems(l.items))
  }

  function EraseItems(items: seq<Item>): (r: seq<Item>)
    ensures |r| == |items|
    ensures LeavesOf(r) == LeavesOf(items)
  {
    if items == [] then []
    else
      assert ([EraseItem(items[0])] + EraseItems(items[1..]))[1..] == EraseItems(items[1..]);
      [EraseItem(items[0])] + EraseItems(items[1..])
  }

  function EraseItem(it: Item): (r: Item)
    ensures r.itemType.Content? <==> it.itemType.Content?
    ensures ItemLeaves(r) == ItemLeaves(it)
  {
    match it.itemType
    case Content(_) => it
    case Container(d) => Item(0, Container(Erase(d)), false)
  }

  // ---------------------------------------------------------------------------
  // Concatenation
  // ---------------------------------------------------------------------------

  lemma {:induction false} LeavesOfConcat(a: seq<Item>, b: seq<Item>)
    ensures LeavesOf(a + b) == LeavesOf(a) + LeavesOf(b)
  {
    if a == [] {
      assert a + b == b;
    } else {
      assert (a + b)[0] == a[0];
      assert (a + b)[1..] == a[1..] + b;
      LeavesOfConcat(a[1..], b);
    }
  }

  lemma {:induction false} KeptOfConcat(a: seq<Item>, b: seq<Item>, id: Id)
    ensures KeptOf(a + b, id) == KeptOf(a, id) + KeptOf(b, id)
  {
    if a == [] {
      assert a + b == b;
    } else {
      assert (a + b)[0] == a[0];
      assert (a + b)[1..] == a[1..] + b;
      KeptOfConcat(a[1..], b, id);
    }
  }

  lemma {:induction false} EraseItemsConcat(a: seq<Item>, b: seq<Item>)
    ensures EraseItems(a + b) == EraseItems(a) + EraseItems(b)
  {
    if a == [] {
      assert a + b == b;
    } else {
      assert (a + b)[0] == a[0];
      assert (a + b)[1..] == a[1..] + b;
      EraseItemsConcat(a[1..], b);
    }
  }

  lemma {:induction false} ContainerIdsOfConcat(a: seq<Item>, b: seq<Item>)
    ensures ContainerIdsOf(a + b) == ContainerIdsOf(a) + ContainerIdsOf(b)
  {
    if a == [] {
      assert a + b == b;
    } else {
      assert (a + b)[0] == a[0];
      assert (a + b)[1..] == a[1..] + b;
      ContainerIdsOfConcat(a[1..], b);
    }
  }

  lemma {:induction false} WithoutConcat(a: seq<Item>, b: seq<Item>, id: Id)
    ensures Without(a + b, id) == Without(a, id) + Without(b, id)
  {
    if a == [] {
      assert a + b == b;
    } else {
      assert (a + b)[0] == a[0];
      assert (a + b)[1..] == a[1..] + b;
      WithoutConcat(a[1..], b, id);
    }
  }

  lemma UniqueIdsConcat(a: seq<Item>, b: seq<Item>)
    ensures UniqueIds(a + b) <==> UniqueIds(a) && UniqueIds(b) && IdSet(a) !! IdSet(b)
  {
    var s := a + b;
    if UniqueIds(a) && UniqueIds(b) && IdSet(a) !! IdSet(b) {
      forall i, j | 0 <= i < j < |s| ensures s[i].id != s[j].id {
        if j < |a| {
        } else if i >= |a| {
          assert s[i] == b[i - |a|] && s[j] == b[j - |a|];
        } else {
          assert s[i].id in IdSet(a);
          assert s[j] == b[j - |a|];
          assert s[j].id in IdSet(b);
        }
      }
    }
    if UniqueIds(s) {
      forall i, j | 0 <= i < j < |a| ensures a[i].id != a[j].id {
        assert s[i] == a[i] && s[j] == a[j];
      }
      forall i, j | 0 <= i < j < |b| ensures b[i].id != b[j].id {
        assert s[|a| + i] == b[i] && s[|a| + j] == b[j];
      }
      forall x | x in IdSet(a) ensures x !in IdSet(b) {
        var i :| 0 <= i < |a| && a[i].id == x;
        forall j | 0 <= j < |b| ensures b[j].id != x {
          assert s[i] == a[i] && s[|a| + j] == b[j];
        }
      }
    }
  }

  lemma IdSetConcat(a: seq<Item>, b: seq<Item>)
    ensures IdSet(a + b) == IdSet(a) + IdSet(b)
  {
    var s := a + b;
    forall x | x in IdSet(s) ensures x in IdSet(a) + IdSet(b) {
      var i :| 0 <= i < |s| && s[i].id == x;
      if i >= |a| {
        assert b[i - |a|] == s[i];
      }
    }
    forall x | x in IdSet(a) + IdSet(b) ensures x in IdSet(s) {
      if x in IdSet(a) {
        var i :| 0 <= i < |a| && a[i].id == x;
        assert s[i] == a[i];
      } else {
        var j :| 0 <= j < |b| && b[j].id == x;
        assert s[|a| + j] == b[j];
      }
    }
  }

  // ---------------------------------------------------------------------------
  // Facts relating the reference definitions
  // ---------------------------------------------------------------------------

  /** The deep search finds exactly the identities carried by leaves and by
      containers anywhere in the tree. */
  lemma {:induction false} ContainsIdIffPresent(l: DropLayout, id: Id)
    ensures ContainsId(l, id) <==> id in IdSet(Leaves(l)) || id in ContainerIds(l)
    decreases l, 1
  {
    AnyItemHasIdIffPresent(l.items, id);
  }

  lemma {:induction false} AnyItemHasIdIffPresent(items: seq<Item>, id: Id)
    ensures (exists i | 0 <= i < |items| :: ItemHasId(items[i], id))
            <==> id in IdSet(LeavesOf(items)) || id in ContainerIdsOf(items)
    decreases items, 0
  {
    if items != [] {
      ItemHasIdIffPresent(items[0], id);
      AnyItemHasIdIffPresent(items[1..], id);
      IdSetConcat(ItemLeaves(items[0]), LeavesOf(items[1..]));
      if ItemHasId(items[0], id) {
        assert ItemHasId(items[0], id);
      }
      if exists i | 0 <= i < |items[1..]| :: ItemHasId(items[1..][i], id) {
        var i :| 0 <= i < |items[1..]| && ItemHasId(items[1..][i], id);
        assert ItemHasId(items[1 + i], id);
      }
      if exists i | 0 <= i < |items| :: ItemHasId(items[i], id) {
        var i :| 0 <= i < |items| && ItemHasId(items[i], id);
        if i > 0 {
          assert items[1..][i - 1] == items[i];
        }
      }
    }
  }

  lemma {:induction false} ItemHasIdIffPresent(it: Item, id: Id)
    ensures ItemHasId(it, id) <==> id in IdSet(ItemLeaves(it)) || id in ItemContainerIds(it)
    decreases it
  {
    match it.itemType
    case Content(_) =>
      assert [it][0] == it;
      assert it.id in IdSet([it]);
      assert IdSet([it]) == {it.id};
    case Container(d) =>
      ContainsIdIffPresent(d, id);
  }

  /** A content item that sits only inside a nested container is not found
      by `isItemContains`, although the deep search finds it. */
  lemma IsItemContainsMissesNestedItems()
    ensures var target := Item(3, Content(0), false);
            var nested := DropLayout(Vertical, [target, Item(4, Content(0), false)]);
            var l := DropLayout(Horizontal, [Item(1, Content(0), false), Item(2, Container(nested), false)]);
            !IsItemContains(l, target) && ContainsId(l, target.id)
  {
    var target := Item(3, Content(0), false);
    var nested := DropLayout(Vertical, [target, Item(4, Content(0), false)]);
    var l := DropLayout(Horizontal, [Item(1, Content(0), false), Item(2, Container(nested), false)]);
    assert ItemHasId(nested.items[0], 3);
    assert ItemHasId(l.items[1], 3);
  }

  /** On a layout without containers the source's search and the deep search
      agree: the defect only shows once tiles are nested. */
  lemma IsItemContainsAgreesOnFlatLayouts(l: DropLayout, item: Item)
    requires item.itemType.Content?
    requires forall i | 0 <= i < |l.items| :: l.items[i].itemType.Content?
    ensures IsItemContains(l, item) <==> ContainsId(l, item.id)
  {
  }

  /** When no container carries `id`, the leaves under no item carrying `id`
      are exactly the leaves with another id, in the same order. */
  lemma {:induction false} KeptIsWithout(l: DropLayout, id: Id)
    requires id !in ContainerIds(l)
    ensures KeptLeaves(l, id) == Without(Leaves(l), id)
    decreases l, 1
  {
    KeptOfIsWithout(l.items, id);
  }

  lemma {:induction false} KeptOfIsWithout(items: seq<Item>, id: Id)
    requires id !in ContainerIdsOf(items)
    ensures KeptOf(items, id) == Without(LeavesOf(items), id)
    decreases items, 0
  {
    if items != [] {
      ItemKeptIsWithout(items[0], id);
      KeptOfIsWithout(items[1..], id);
      WithoutConcat(ItemLeaves(items[0]), LeavesOf(items[1..]), id);
    }
  }

  lemma {:induction false} ItemKeptIsWithout(it: Item, id: Id)
    requires id !in ItemContainerIds(it)
    ensures ItemKept(it, id) == Without(ItemLeaves(it), id)
    decreases it
  {
    match it.itemType
    case Content(_) =>
      assert Without([it], id) == (if it.id == id then [] else [it]) + Without([], id);
    case Container(d) =>
      KeptIsWithout(d, id);
  }

  /** The kept leaves are drawn from the leaves, so they inherit uniqueness. */
  lemma {:induction false} KeptKeepsUniqueIds(l: DropLayout, id: Id)
    ensures IdSet(KeptLeaves(l, id)) <= IdSet(Leaves(l))
    ensures UniqueIds(Leaves(l)) ==> UniqueIds(KeptLeaves(l, id))
    decreases l, 1
  {
    KeptOfKeepsUniqueIds(l.items, id);
  }

  lemma {:induction false} KeptOfKeepsUniqueIds(items: seq<Item>, id: Id)
    ensures IdSet(KeptOf(items, id)) <= IdSet(LeavesOf(items))
    ensures UniqueIds(LeavesOf(items)) ==> UniqueIds(KeptOf(items, id))
    decreases items, 0
  {
    if items != [] {
      var a, b := ItemLeaves(items[0]), LeavesOf(items[1..]);
      var a', b' := ItemKept(items[0], id), KeptOf(items[1..], id);
      ItemKeptKeepsUniqueIds(items[0], id);
      KeptOfKeepsUniqueIds(items[1..], id);
      IdSetConcat(a, b);
      IdSetConcat(a', b');
      UniqueIdsConcat(a, b);
      UniqueIdsConcat(a', b');
    }
  }

  lemma {:induction false} ItemKeptKeepsUniqueIds(it: Item, id: Id)
    ensures IdSet(ItemKept(it, id)) <= IdSet(ItemLeaves(it))
    ensures UniqueIds(ItemLeaves(it)) ==> UniqueIds(ItemKept(it, id))
    decreases it
  {
    if it.id != id {
      match it.itemType
      case Content(_) =>
      case Container(d) =>
        KeptKeepsUniqueIds(d, id);
    }
  }

  // ---------------------------------------------------------------------------
  // Strip geometry
  // ---------------------------------------------------------------------------

  /** The i-th of n equal strips of r along d: the cell a layout with n items
      gives to its i-th item. */
  function Strip(d: Direction, n: nat, i: int, r: Rect): Rect
    requires n > 0
  {
    match d
    case Horizontal =>
      Rect(Point(r.origin.x + i as real * (r.size.width / n as real), r.origin.y),
           Size(r.size.width / n as real, r.size.height))
    case Vertical =>
      Rect(Point(r.origin.x, r.origin.y + i as real * (r.size.height / n as real)),
           Size(r.size.width, r.size.height / n as real))
  }

  function Centre(r: Rect): Point
  {
    Point(r.origin.x + r.size.width / 2.0, r.origin.y + r.size.height / 2.0)
  }

  /** `cellWidth(for:)`: the width of one cell. Side by side (horizontal) the
      cells share the width equally; stacked they each take all of it. */
  function CellWidth(l: DropLayout, size: Size): (w: real)
    requires l.direction == Horizontal ==> |l.items| > 0
    ensures l.direction == Horizontal ==> w * |l.items| as real == size.width
    ensures l.direction == Vertical ==> w == size.width
    ensures |l.items| > 0 ==> w == Strip(l.direction, |l.items|, 0, Rect(Point(0.0, 0.0), size)).size.width
  {
    if l.direction == Horizontal then size.width / |l.items| as real else size.width
  }

  /** `cellHeight(for:)`: the height of one cell, symmetric to CellWidth. */
  function CellHeight(l: DropLayout, size: Size): (h: real)
    requires l.direction == Vertical ==> |l.items| > 0
    ensures l.direction == Vertical ==> h * |l.items| as real == size.height
    ensures l.direction == Horizontal ==> h == size.height
    ensures |l.items| > 0 ==> h == Strip(l.direction, |l.items|, 0, Rect(Point(0.0, 0.0), size)).size.height
  {
    if l.direction == Horizontal then size.height else size.height / |l.items| as real
  }

  /** `position(for:for:)`: where the item at `index` is drawn, the centre of
      its cell in a frame of the given size. */
  function Position(l: DropLayout, index: int, size: Size): (p: Point)
    requires |l.items| > 0
    ensures p == Centre(Strip(l.direction, |l.items|, index, Rect(Point(0.0, 0.0), size)))
  {
    var n := |l.items| as real;
    match l.direction
    case Horizontal =>
      var x := CellWidth(l, size) * index as real + size.width / (n * 2.0);
      Point(x, size.height / 2.0)
    case Vertical =>
      var y := CellHeight(l, size) * index as real + size.height / (n * 2.0);
      Point(size.width / 2.0, y)
  }
}
