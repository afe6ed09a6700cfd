/** Facts about editing one position of a sequence of children: what an
    insertion or a replacement does to the leaves, to the container
    identities and to a later removal. The drop operations are built from
    these two edits. */
module Edits {
  import opened Layout
  import opened Removal

  // ---------------------------------------------------------------------------
  // Splitting a sequence of children at a position
  // ---------------------------------------------------------------------------

  lemma {:induction false} LeavesOfSingleton(x: Item)
    ensures LeavesOf([x]) == ItemLeaves(x)
  {
    assert [x][1..] == [];
  }

  lemma {:induction false} ContainerIdsOfSingleton(x: Item)
    ensures ContainerIdsOf([x]) == ItemContainerIds(x)
  {
    assert [x][1..] == [];
  }

  /** The leaves of a sequence are those before position i, those of item i
      and those after it. */
  lemma {:induction false} LeavesOfSplit(s: seq<Item>, i: int)
    requires 0 <= i < |s|
    ensures LeavesOf(s) == LeavesOf(s[..i]) + ItemLeaves(s[i]) + LeavesOf(s[i + 1..])
  {
    assert s == s[..i] + [s[i]] + s[i + 1..];
    LeavesOfConcat(s[..i] + [s[i]], s[i + 1..]);
    LeavesOfConcat(s[..i], [s[i]]);
    LeavesOfSingleton(s[i]);
  }

  lemma {:induction false} ContainerIdsOfSplit(s: seq<Item>, i: int)
    requires 0 <= i < |s|
    ensures ContainerIdsOf(s) == ContainerIdsOf(s[..i]) + ItemContainerIds(s[i]) + ContainerIdsOf(s[i + 1..])
  {
    assert s == s[..i] + [s[i]] + s[i + 1..];
    ContainerIdsOfConcat(s[..i] + [s[i]], s[i + 1..]);
    ContainerIdsOfConcat(s[..i], [s[i]]);
    ContainerIdsOfSingleton(s[i]);
  }

  /** Splicing into the middle of a sequence is splicing into the whole. */
  lemma {:induction false} InsertedOnceInContext(a: seq<Item>, l: seq<Item>, l': seq<Item>, b: seq<Item>, x: seq<Item>)
    requires InsertedOnce(l, l', x)
    ensures InsertedOnce(a + l + b, a + l' + b, x)
  {
    var k :| 0 <= k <= |l| && l' == l[..k] + x + l[k..];
    var whole := a + l + b;
    var at := |a| + k;
    assert whole[..at] == a + l[..k];
    assert whole[at..] == l[k..] + b;
    assert a + l' + b == whole[..at] + x + whole[at..];
  }

  // ---------------------------------------------------------------------------
  // Inserting an item
  // ---------------------------------------------------------------------------

  /** Inserting an item among the children splices its leaves into the
      leaves of the sequence. */
  lemma {:induction false} InsertLeaves(s: seq<Item>, k: int, x: Item)
    requires 0 <= k <= |s|
    ensures InsertedOnce(LeavesOf(s), LeavesOf(s[..k] + [x] + s[k..]), ItemLeaves(x))
  {
    assert s == s[..k] + s[k..];
    LeavesOfConcat(s[..k], s[k..]);
    LeavesOfConcat(s[..k] + [x], s[k..]);
    LeavesOfConcat(s[..k], [x]);
    LeavesOfSingleton(x);
    var before := LeavesOf(s);
    var at := |LeavesOf(s[..k])|;
    assert before[..at] == LeavesOf(s[..k]);
    assert before[at..] == LeavesOf(s[k..]);
  }

  /** Inserting an item adds exactly its container identities. */
  lemma {:induction false} InsertContainerIds(s: seq<Item>, k: int, x: Item)
    requires 0 <= k <= |s|
    ensures ContainerIdsOf(s[..k] + [x] + s[k..]) == ContainerIdsOf(s) + ItemContainerIds(x)
  {
    assert s == s[..k] + s[k..];
    ContainerIdsOfConcat(s[..k], s[k..]);
    ContainerIdsOfConcat(s[..k] + [x], s[k..]);
    ContainerIdsOfConcat(s[..k], [x]);
    ContainerIdsOfSingleton(x);
  }

  /** Inserting an item keeps every child settled if the item is. */
  lemma {:induction false} InsertSettled(s: seq<Item>, k: int, x: Item)
    requires 0 <= k <= |s|
    ensures SettledItems(s) && SettledItem(x) ==> SettledItems(s[..k] + [x] + s[k..])
  {
    var t := s[..k] + [x] + s[k..];
    if SettledItems(s) && SettledItem(x) {
      forall i | 0 <= i < |t| ensures SettledItem(t[i]) {
        if i < k {
          assert t[i] == s[i];
        } else if i > k {
          assert t[i] == s[i - 1];
        }
      }
    }
  }

  // ---------------------------------------------------------------------------
  // Replacing an item
  // ---------------------------------------------------------------------------

  /** Replacing child i by an item whose leaves are child i's leaves with `x`
      spliced in splices `x` into the leaves of the whole sequence. */
  lemma {:induction false} ReplaceLeaves(s: seq<Item>, i: int, y: Item, x: seq<Item>)
    requires 0 <= i < |s|
    requires InsertedOnce(ItemLeaves(s[i]), ItemLeaves(y), x)
    ensures InsertedOnce(LeavesOf(s), LeavesOf(s[i := y]), x)
  {
    LeavesOfSplit(s, i);
    var t := s[i := y];
    assert t[..i] == s[..i] && t[i + 1..] == s[i + 1..] && t[i] == y;
    LeavesOfSplit(t, i);
    InsertedOnceInContext(LeavesOf(s[..i]), ItemLeaves(s[i]), ItemLeaves(y), LeavesOf(s[i + 1..]), x);
  }

  /** Container identities: bounds on what the replacement item adds carry
      over to the whole sequence. */
  lemma {:induction false} ReplaceContainerIds(s: seq<Item>, i: int, y: Item, lo: set<Id>, hi: set<Id>)
    requires 0 <= i < |s|
    requires ItemContainerIds(s[i]) + lo <= ItemContainerIds(y) <= ItemContainerIds(s[i]) + hi
    ensures ContainerIdsOf(s) + lo <= ContainerIdsOf(s[i := y]) <= ContainerIdsOf(s) + hi
  {
    ContainerIdsOfSplit(s, i);
    var t := s[i := y];
    assert t[..i] == s[..i] && t[i + 1..] == s[i + 1..] && t[i] == y;
    ContainerIdsOfSplit(t, i);
  }

  lemma {:induction false} ReplaceSettled(s: seq<Item>, i: int, y: Item)
    requires 0 <= i < |s|
    ensures SettledItems(s) && SettledItem(y) ==> SettledItems(s[i := y])
  {
  }

  // ---------------------------------------------------------------------------
  // Removal after an edit
  // ---------------------------------------------------------------------------

  /** Removal works child by child, so it distributes over concatenation. */
  lemma {:induction false} RemoveItemsConcat(a: seq<Item>, b: seq<Item>, id: Id, newId: Id)
    ensures RemoveItems(a + b, id, newId) == RemoveItems(a, id, newId) + RemoveItems(b, id, newId)
  {
    if a == [] {
      assert a + b == b;
    } else {
      var x, rest := a[0], a[1..];
      SplitHead(a, b);
      RemoveItemsCons(x, rest + b, id, newId);
      RemoveItemsCons(x, rest, id, newId);
      RemoveItemsConcat(rest, b, id, newId);
      ConcatAssoc(RemoveItem(x, id, newId), RemoveItems(rest, id, newId), RemoveItems(b, id, newId));
    }
  }

  /** A non-empty sequence, alone and in front of another, split at its head. */
  lemma SplitHead(a: seq<Item>, b: seq<Item>)
    requires a != []
    ensures a == [a[0]] + a[1..] && a + b == [a[0]] + (a[1..] + b)
  {
  }

  lemma ConcatAssoc(a: seq<Item>, b: seq<Item>, c: seq<Item>)
    ensures a + (b + c) == (a + b) + c
  {
  }

  /** Removal of a sequence is removal of its head followed by its tail. */
  lemma RemoveItemsCons(x: Item, rest: seq<Item>, id: Id, newId: Id)
    ensures RemoveItems([x] + rest, id, newId) == RemoveItem(x, id, newId) + RemoveItems(rest, id, newId)
  {
    assert ([x] + rest)[0] == x && ([x] + rest)[1..] == rest;
  }


  lemma {:induction false} RemoveItemsSingleton(x: Item, id: Id, newId: Id)
    ensures RemoveItems([x], id, newId) == RemoveItem(x, id, newId)
  {
    assert [x][1..] == [];
  }

  /** Removal of a sequence with one child singled out. */
  lemma {:induction false} RemoveItemsAround(pre: seq<Item>, x: Item, post: seq<Item>, id: Id, newId: Id)
    ensures RemoveItems(pre + [x] + post, id, newId)
            == RemoveItems(pre, id, newId) + RemoveItem(x, id, newId) + RemoveItems(post, id, newId)
  {
    RemoveItemsConcat(pre + [x], post, id, newId);
    RemoveItemsConcat(pre, [x], id, newId);
    RemoveItemsSingleton(x, id, newId);
  }

  /** An inserted item whose removal vanishes leaves no trace in the removal. */
  lemma RemoveItemsSkipsInserted(pre: seq<Item>, x: Item, post: seq<Item>, id: Id, newId: Id)
    requires RemoveItem(x, id, newId) == []
    ensures RemoveItems(pre + [x] + post, id, newId) == RemoveItems(pre, id, newId) + RemoveItems(post, id, newId)
  {
    RemoveItemsAround(pre, x, post, id, newId);
    assert RemoveItems(pre, id, newId) + [] == RemoveItems(pre, id, newId);
  }

  /** Erasure of three consecutive parts. */
  lemma EraseThree(a: seq<Item>, b: seq<Item>, c: seq<Item>)
    ensures EraseItems(a + b + c) == EraseItems(a) + EraseItems(b) + EraseItems(c)
  {
    EraseItemsConcat(a + b, c);
    EraseItemsConcat(a, b);
  }

  /** Removing `id` from a settled sequence free of it, into which one item
      whose removal vanishes was inserted, gives back the sequence's shape. */
  lemma {:induction false} RemoveAfterInsert(s: seq<Item>, k: int, x: Item, id: Id, newId: Id)
    requires 0 <= k <= |s| && SettledItems(s) && Absent(s, id) && RemoveItem(x, id, newId) == []
    ensures EraseItems(RemoveItems(s[..k] + [x] + s[k..], id, newId)) == EraseItems(s)
  {
    RemoveItemsSkipsInserted(s[..k], x, s[k..], id, newId);
    EraseItemsConcat(RemoveItems(s[..k], id, newId), RemoveItems(s[k..], id, newId));
    SplitKeepsShape(s, k, id, newId);
  }

  /** A slice of a settled sequence free of `id` is settled and free of it. */
  lemma SliceSettledAbsent(s: seq<Item>, lo: int, hi: int, id: Id)
    requires 0 <= lo <= hi <= |s| && SettledItems(s) && Absent(s, id)
    ensures SettledItems(s[lo..hi]) && Absent(s[lo..hi], id)
  {
    assert forall i | 0 <= i < hi - lo :: s[lo..hi][i] == s[lo + i];
  }

  /** Removing an absent `id` from the two parts of a settled sequence keeps
      the shape of both parts. */
  lemma {:induction false} SplitKeepsShape(s: seq<Item>, k: int, id: Id, newId: Id)
    requires 0 <= k <= |s| && SettledItems(s) && Absent(s, id)
    ensures EraseItems(RemoveItems(s[..k], id, newId)) + EraseItems(RemoveItems(s[k..], id, newId)) == EraseItems(s)
  {
    var pre, post := s[..k], s[k..];
    assert s == pre + post;
    EraseItemsConcat(pre, post);
    SliceSettledAbsent(s, 0, k, id);
    SliceSettledAbsent(s, k, |s|, id);
    assert pre == s[0..k] && post == s[k..|s|];
    RemoveItemsAbsentKeepsShape(pre, id, newId);
    RemoveItemsAbsentKeepsShape(post, id, newId);
  }


  /** Removing `id` from a settled sequence free of it, in which child i was
      replaced by an item whose removal erases back to child i, gives back the
      sequence's shape. */
  lemma {:induction false} RemoveAfterReplace(s: seq<Item>, i: int, y: Item, id: Id, newId: Id)
    requires 0 <= i < |s| && SettledItems(s) && Absent(s, id)
    requires EraseItems(RemoveItem(y, id, newId)) == [EraseItem(s[i])]
    ensures EraseItems(RemoveItems(s[i := y], id, newId)) == EraseItems(s)
  {
    assert s[i := y] == s[..i] + [y] + s[i + 1..];
    RemoveAroundErased(s[..i], y, s[i + 1..], id, newId);
    OthersKeepShape(s, i, id, newId);
  }

  /** The erased removal of a sequence with one child singled out. */
  lemma RemoveAroundErased(pre: seq<Item>, x: Item, post: seq<Item>, id: Id, newId: Id)
    ensures EraseItems(RemoveItems(pre + [x] + post, id, newId))
            == EraseItems(RemoveItems(pre, id, newId)) + EraseItems(RemoveItem(x, id, newId))
               + EraseItems(RemoveItems(post, id, newId))
  {
    RemoveItemsAround(pre, x, post, id, newId);
    EraseThree(RemoveItems(pre, id, newId), RemoveItem(x, id, newId), RemoveItems(post, id, newId));
  }

  /** Removing an absent `id` from the children before and after child i of a
      settled sequence keeps their shape. */
  lemma OthersKeepShape(s: seq<Item>, i: int, id: Id, newId: Id)
    requires 0 <= i < |s| && SettledItems(s) && Absent(s, id)
    ensures EraseItems(RemoveItems(s[..i], id, newId)) + [EraseItem(s[i])]
            + EraseItems(RemoveItems(s[i + 1..], id, newId)) == EraseItems(s)
  {
    var pre, post := s[..i], s[i + 1..];
    assert s == pre + [s[i]] + post;
    EraseThree(pre, [s[i]], post);
    SliceSettledAbsent(s, 0, i, id);
    SliceSettledAbsent(s, i + 1, |s|, id);
    assert pre == s[0..i] && post == s[i + 1..|s|];
    RemoveItemsAbsentKeepsShape(pre, id, newId);
    RemoveItemsAbsentKeepsShape(post, id, newId);
    assert EraseItems([s[i]]) == [EraseItem(s[i])] by {
      assert [s[i]][1..] == [];
    }
  }


}
