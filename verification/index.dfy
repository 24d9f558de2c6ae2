/** An LMDB `dupsort` table as a sorted sequence of items, and the cursor
    walks the row store makes over one.

    A `dupsort` table holds (key, value) items, several per key, ordered by
    key and then by value, both in byte order; an identical item is stored
    once. The store's three index tables map a key to the packed primary
    keys of the rows it indexes. */
module SortedIndex {
  import opened Wrappers
  import opened Bytes

  datatype Entry = Entry(key: bytes, val: bytes)

  /** The order of items in a `dupsort` table. */
  predicate EntryLess(a: Entry, b: Entry)
  {
    Less(a.key, b.key) || (a.key == b.key && Less(a.val, b.val))
  }

  /** Each item is below the next. */
  predicate Sorted(s: seq<Entry>)
    decreases |s|
  {
    |s| < 2 || (EntryLess(s[0], s[1]) && Sorted(s[1..]))
  }

  type Index = s: seq<Entry> | Sorted(s) witness []

  /** Each item is below every later one. */
  ghost predicate Ordered(s: seq<Entry>)
  {
    forall i, j :: 0 <= i < j < |s| ==> EntryLess(s[i], s[j])
  }

  /** Comparing neighbours is enough: a table in order pairwise is in order
      throughout, and conversely. */
  lemma {:induction false} SortedOrdered(s: seq<Entry>)
    ensures Sorted(s) <==> Ordered(s)
    decreases |s|
  {
    if |s| >= 2 {
      SortedOrdered(s[1..]);
      if Sorted(s) {
        forall i, j | 0 <= i < j < |s|
          ensures EntryLess(s[i], s[j])
        {
          if i > 0 {
            assert s[i] == s[1..][i - 1] && s[j] == s[1..][j - 1];
          } else if j > 1 {
            assert s[1] == s[1..][0] && s[j] == s[1..][j - 1];
            EntryLessTransitive(s[0], s[1], s[j]);
          }
        }
      }
      if Ordered(s) {
        assert EntryLess(s[0], s[1]);
        forall i, j | 0 <= i < j < |s| - 1
          ensures EntryLess(s[1..][i], s[1..][j])
        {
          assert s[1..][i] == s[i + 1] && s[1..][j] == s[j + 1];
        }
      }
    }
  }

  /** Dropping the first item keeps a run in order. */
  lemma OrderedTail(s: seq<Entry>)
    requires Ordered(s) && |s| > 0
    ensures Ordered(s[1..])
  {
    forall i, j | 0 <= i < j < |s| - 1
      ensures EntryLess(s[1..][i], s[1..][j])
    {
      assert s[1..][i] == s[i + 1] && s[1..][j] == s[j + 1];
    }
  }

  /** A run in order holds as many different items as it is long. */
  lemma {:induction false} OrderedCount(s: seq<Entry>)
    requires Ordered(s)
    ensures |set x | x in s| == |s|
    decreases |s|
  {
    if |s| > 0 {
      var t := s[1..];
      OrderedTail(s);
      OrderedCount(t);
      forall k | 0 <= k < |t|
        ensures t[k] != s[0]
      {
        assert t[k] == s[k + 1];
        EntryLessIrreflexive(s[0]);
      }
      assert (set x | x in s) == {s[0]} + (set x | x in t);
    }
  }

  lemma EntryLessIrreflexive(a: Entry)
    ensures !EntryLess(a, a)
  {
    LessIrreflexive(a.key);
    LessIrreflexive(a.val);
  }

  lemma EntryLessTransitive(a: Entry, b: Entry, c: Entry)
    requires EntryLess(a, b) && EntryLess(b, c)
    ensures EntryLess(a, c)
  {
    if Less(a.key, b.key) && Less(b.key, c.key) {
      LessTransitive(a.key, b.key, c.key);
    } else if a.key == b.key && b.key == c.key {
      LessTransitive(a.val, b.val, c.val);
    }
  }

  lemma EntryLessTotal(a: Entry, b: Entry)
    ensures a == b || EntryLess(a, b) || EntryLess(b, a)
  {
    LessTotal(a.key, b.key);
    LessTotal(a.val, b.val);
  }

  /** Items later in a sorted table never have smaller keys. */
  lemma SortedKeys(s: Index, i: int, j: int)
    requires 0 <= i <= j < |s|
    ensures LessEq(s[i].key, s[j].key)
  {
    SortedOrdered(s);
  }

  /** Any stretch of a table is in order. */
  lemma SortedSlice(s: Index, lo: nat, hi: nat)
    requires lo <= hi <= |s|
    ensures Sorted(s[lo..hi])
  {
    SortedOrdered(s);
    var t := s[lo..hi];
    forall i, j | 0 <= i < j < |t|
      ensures EntryLess(t[i], t[j])
    {
      assert t[i] == s[lo + i] && t[j] == s[lo + j];
    }
    SortedOrdered(t);
  }

  /** The position an item has, or would have, in a table: after every
      smaller item and before every other. */
  function Position(s: Index, e: Entry): (k: nat)
    ensures k <= |s|
    ensures forall i :: 0 <= i < k ==> EntryLess(s[i], e)
    ensures forall i :: k <= i < |s| ==> !EntryLess(s[i], e)
    decreases |s|
  {
    if |s| == 0 then 0
    else if !EntryLess(s[0], e) then
      PositionAbove(s, e);
      0
    else
      var k := Position(s[1..], e);
      assert forall i :: 1 <= i < |s| ==> s[i] == s[1..][i - 1];
      1 + k
  }

  lemma PositionAbove(s: Index, e: Entry)
    requires |s| > 0 && !EntryLess(s[0], e)
    ensures forall i :: 0 <= i < |s| ==> !EntryLess(s[i], e)
  {
    SortedOrdered(s);
    forall i | 0 < i < |s|
      ensures !EntryLess(s[i], e)
    {
      if EntryLess(s[i], e) {
        EntryLessTransitive(s[0], s[i], e);
      }
    }
  }

  /** An item of a table sits at its position. */
  lemma PositionFinds(s: Index, e: Entry)
    ensures e in s <==> Position(s, e) < |s| && s[Position(s, e)] == e
  {
    var k := Position(s, e);
    if e in s {
      EntryLessIrreflexive(e);
    }
  }

  /** No item occurs twice in a table. */
  lemma SortedDistinct(s: Index, i: int, j: int)
    requires 0 <= i < |s| && 0 <= j < |s| && i != j
    ensures s[i] != s[j]
  {
    SortedOrdered(s);
    EntryLessIrreflexive(s[i]);
  }

  /** Putting an item into a `dupsort` table: the table gains exactly that
      item (an identical item already present is left alone) and stays in
      order. */
  function Insert(s: Index, e: Entry): (r: Index)
    ensures forall x :: x in r <==> x in s || x == e
    ensures |r| == if e in s then |s| else |s| + 1
  {
    var k := Position(s, e);
    PositionFinds(s, e);
    if k < |s| && s[k] == e then s
    else
      InsertAtSorted(s, e, k);
      assert s == s[..k] + s[k..];
      s[..k] + [e] + s[k..]
  }

  lemma InsertAtSorted(s: Index, e: Entry, k: nat)
    requires k == Position(s, e) && !(k < |s| && s[k] == e)
    ensures Sorted(s[..k] + [e] + s[k..])
  {
    SortedOrdered(s);
    var r := s[..k] + [e] + s[k..];
    forall j | k <= j < |s|
      ensures EntryLess(e, s[j])
    {
      EntryLessTotal(e, s[k]);
      if j > k {
        EntryLessTransitive(e, s[k], s[j]);
      }
    }
    forall i, j | 0 <= i < j < |r|
      ensures EntryLess(r[i], r[j])
    {
      if j < k || i > k {
      } else if i == k {
        assert r[j] == s[j - 1];
      } else if j == k {
        assert r[i] == s[i];
      } else {
        assert r[i] == s[i] && r[j] == s[j - 1];
      }
    }
    SortedOrdered(r);
  }

  /** Deleting one item (`txn.delete(key, value)`): the table loses exactly
      that item and stays in order. */
  function Remove(s: Index, e: Entry): (r: Index)
    ensures forall x :: x in r <==> x in s && x != e
    ensures |r| == if e in s then |s| - 1 else |s|
  {
    var k := Position(s, e);
    PositionFinds(s, e);
    if k < |s| && s[k] == e then
      RemoveAtSorted(s, k);
      s[..k] + s[k + 1..]
    else s
  }

  lemma RemoveAtSorted(s: Index, k: nat)
    requires k < |s|
    ensures Sorted(s[..k] + s[k + 1..])
    ensures forall x :: x in s[..k] + s[k + 1..] <==> x in s && x != s[k]
  {
    RemoveAtOrder(s, k);
    RemoveAtItems(s, k);
  }

  lemma RemoveAtOrder(s: Index, k: nat)
    requires k < |s|
    ensures Sorted(s[..k] + s[k + 1..])
  {
    SortedOrdered(s);
    var r := s[..k] + s[k + 1..];
    forall i, j | 0 <= i < j < |r|
      ensures EntryLess(r[i], r[j])
    {
      if j < k {
        assert r[i] == s[i] && r[j] == s[j];
      } else if i >= k {
        assert r[i] == s[i + 1] && r[j] == s[j + 1];
      } else {
        assert r[i] == s[i] && r[j] == s[j + 1];
      }
    }
    SortedOrdered(r);
  }

  lemma RemoveAtItems(s: Index, k: nat)
    requires k < |s|
    ensures forall x :: x in s[..k] + s[k + 1..] <==> x in s && x != s[k]
  {
    var r := s[..k] + s[k + 1..];
    forall x
      ensures x in r <==> x in s && x != s[k]
    {
      if x in s && x != s[k] {
        var i :| 0 <= i < |s| && s[i] == x;
        if i < k {
          assert r[i] == x;
        } else {
          assert r[i - 1] == x;
        }
      }
      if x in r {
        var i :| 0 <= i < |r| && r[i] == x;
        if i < k {
          assert s[i] == x;
          SortedDistinct(s, i, k);
        } else {
          assert s[i + 1] == x;
          SortedDistinct(s, i + 1, k);
        }
      }
    }
  }

  /** Deleting the item at a known position closes the gap: the cursor is
      left on the item that followed it. */
  lemma RemoveAt(s: Index, j: nat)
    requires j < |s|
    ensures Remove(s, s[j]) == s[..j] + s[j + 1..]
  {
    PositionFinds(s, s[j]);
    var k := Position(s, s[j]);
    if k != j {
      SortedDistinct(s, k, j);
    }
  }

  lemma NotInAbove(s: Index, e: Entry)
    requires |s| > 0 && EntryLess(e, s[0])
    ensures e !in s
  {
    SortedOrdered(s);
    if e in s {
      var j :| 0 <= j < |s| && s[j] == e;
      if j > 0 {
        EntryLessTransitive(e, s[0], s[j]);
      }
      EntryLessIrreflexive(e);
    }
  }

  /** Two sorted tables with the same items are the same table. */
  lemma {:induction false} SortedUnique(a: Index, b: Index)
    requires forall x :: x in a <==> x in b
    ensures a == b
    decreases |a|
  {
    assert |a| > 0 ==> a[0] in b;
    assert |b| > 0 ==> b[0] in a;
    if |a| > 0 && |b| > 0 {
      if a[0] != b[0] {
        assert a[0] in b && b[0] in a;
        EntryLessTotal(a[0], b[0]);
        if EntryLess(a[0], b[0]) {
          NotInAbove(b, a[0]);
        } else {
          NotInAbove(a, b[0]);
        }
      } else {
        forall x
          ensures x in a[1..] <==> x in b[1..]
        {
          if x in a[1..] && x != a[0] {
            assert x in b;
          }
          if x in b[1..] {
            assert x in a;
          }
          if x == a[0] {
            NotInSortedTail(a);
            NotInSortedTail(b);
          }
        }
        SortedUnique(a[1..], b[1..]);
      }
    }
  }

  lemma NotInSortedTail(s: Index)
    requires |s| > 0
    ensures s[0] !in s[1..]
  {
    SortedOrdered(s);
    if s[0] in s[1..] {
      var j :| 0 <= j < |s| - 1 && s[1..][j] == s[0];
      assert EntryLess(s[0], s[j + 1]);
      EntryLessIrreflexive(s[0]);
    }
  }

  // ------------------------------------------------------------- cursors

  /** `cursor.set_range(k)`: the position of the first item whose key is at
      least `k` (the end when there is none). */
  function SetRange(s: Index, k: bytes): (j: nat)
    ensures j <= |s|
    ensures forall i :: 0 <= i < j ==> Less(s[i].key, k)
    ensures j < |s| ==> LessEq(k, s[j].key)
    decreases |s|
  {
    if |s| == 0 || LessEq(k, s[0].key) then 0
    else
      var j := SetRange(s[1..], k);
      LessTotal(k, s[0].key);
      1 + j
  }

  /** Every item from the `set_range` position on has a key at least `k`. */
  lemma SetRangeSuffix(s: Index, k: bytes, i: int)
    requires SetRange(s, k) <= i < |s|
    ensures LessEq(k, s[i].key)
  {
    var j := SetRange(s, k);
    SortedKeys(s, j, i);
    LessEqTransitive(k, s[j].key, s[i].key);
  }

  /** `cursor.delete()` leaves the cursor on the item that followed the
      deleted one. When that item was reached by `set_range(first)`, seeking
      `first` again in the shrunken table lands on the same position, and so
      on the same item. */
  lemma ReseekAfterRemove(s: Index, first: bytes)
    requires SetRange(s, first) < |s|
    ensures var j := SetRange(s, first);
      SetRange(Remove(s, s[j]), first) == j &&
      (j + 1 < |s| ==> Remove(s, s[j])[j] == s[j + 1])
  {
    var j := SetRange(s, first);
    RemoveAt(s, j);
    var r := Remove(s, s[j]);
    var k := SetRange(r, first);
    if k < j {
      assert r[k] == s[k];
      assert Less(s[k].key, first) && LessEq(first, s[k].key);
      LessAsymmetric(s[k].key, first);
      LessIrreflexive(first);
      assert false;
    } else if k > j {
      assert r[j] == s[j + 1];
      SortedKeys(s, j, j + 1);
      LessEqTransitive(first, s[j].key, s[j + 1].key);
      assert Less(s[j + 1].key, first);
      LessAsymmetric(s[j + 1].key, first);
      LessIrreflexive(first);
      assert false;
    }
  }

  /** The end of a walk: an upper bound for a forward walk (the key cut to
      the bound's length passes it, or the whole key reaches it) or a lower
      bound for a backward walk (the cut key falls below it). `closed` says
      whether a key equal to the bound is still inside. */
  datatype Bound =
    | UpTo(last: bytes, closed: bool)
    | Below(last: bytes)
    | DownTo(last: bytes, closed: bool)

  predicate Stops(b: Bound, k: bytes)
  {
    match b
    case UpTo(last, closed) =>
      if closed then Less(last, Take(k, |last|)) else LessEq(last, Take(k, |last|))
    case Below(last) => LessEq(last, k)
    case DownTo(last, closed) =>
      if closed then Less(Take(k, |last|), last) else LessEq(Take(k, |last|), last)
  }

  /** Once a forward walk is past its bound, every larger key is too. */
  lemma StopsUpward(b: Bound, k1: bytes, k2: bytes)
    requires !b.DownTo? && LessEq(k1, k2) && Stops(b, k1)
    ensures Stops(b, k2)
  {
    match b
    case UpTo(last, closed) =>
      TakeMonotone(k1, k2, |last|);
      var t1, t2 := Take(k1, |last|), Take(k2, |last|);
      if closed {
        if t1 != t2 {
          LessTransitive(last, t1, t2);
        }
      } else {
        LessEqTransitive(last, t1, t2);
      }
    case Below(last) =>
      LessEqTransitive(last, k1, k2);
  }

  /** Once a backward walk is below its bound, every smaller key is too. */
  lemma StopsDownward(b: Bound, k1: bytes, k2: bytes)
    requires b.DownTo? && LessEq(k1, k2) && Stops(b, k2)
    ensures Stops(b, k1)
  {
    var last := b.last;
    TakeMonotone(k1, k2, |last|);
    var t1, t2 := Take(k1, |last|), Take(k2, |last|);
    if b.closed {
      if t1 != t2 {
        LessTransitive(t1, t2, last);
      }
    } else {
      LessEqTransitive(t1, t2, last);
    }
  }

  /** `limit is not None and count >= limit`. */
  predicate Reached(limit: Option<int>, count: int)
  {
    limit.Some? && count >= limit.value
  }

  /** A forward cursor walk: yield items until one is past the bound, and
      stop right after the item that brings the count to the limit (the
      count is compared only after an item has been taken). */
  function WalkForward(s: seq<Entry>, b: Bound, limit: Option<int>, count: nat): seq<Entry>
    decreases |s|
  {
    if |s| == 0 || Stops(b, s[0].key) then []
    else if Reached(limit, count + 1) then [s[0]]
    else [s[0]] + WalkForward(s[1..], b, limit, count + 1)
  }

  /** A backward cursor walk (`iterprev`) over the items before a position. */
  function WalkBackward(s: seq<Entry>, b: Bound, limit: Option<int>, count: nat): seq<Entry>
    decreases |s|
  {
    if |s| == 0 || Stops(b, s[|s| - 1].key) then []
    else if Reached(limit, count + 1) then [s[|s| - 1]]
    else [s[|s| - 1]] + WalkBackward(s[..|s| - 1], b, limit, count + 1)
  }

  /** How many items a walk that has already counted `count` may still
      yield: at least one, because the limit is compared after taking. */
  function Room(limit: Option<int>, count: nat, whole: nat): nat
  {
    if limit.None? then whole
    else if limit.value - count >= 1 then limit.value - count
    else 1
  }

  /** A walk under a limit yields the first items the unlimited walk would,
      as many as the limit leaves room for. */
  lemma {:induction false} WalkForwardLimit(s: seq<Entry>, b: Bound, limit: Option<int>, count: nat)
    ensures var r, all := WalkForward(s, b, limit, count), WalkForward(s, b, None, count);
      r <= all && |r| == Min(|all|, Room(limit, count, |all|))
    decreases |s|
  {
    if |s| > 0 && !Stops(b, s[0].key) && !Reached(limit, count + 1) {
      WalkForwardLimit(s[1..], b, limit, count + 1);
      WalkForwardSize(s[1..], b, count + 1, count);
    }
  }

  /** The count an unlimited walk starts from does not change what it yields. */
  lemma {:induction false} WalkForwardSize(s: seq<Entry>, b: Bound, c1: nat, c2: nat)
    ensures WalkForward(s, b, None, c1) == WalkForward(s, b, None, c2)
    decreases |s|
  {
    if |s| > 0 && !Stops(b, s[0].key) {
      WalkForwardSize(s[1..], b, c1 + 1, c2 + 1);
    }
  }

  lemma {:induction false} WalkBackwardLimit(s: seq<Entry>, b: Bound, limit: Option<int>, count: nat)
    ensures var r, all := WalkBackward(s, b, limit, count), WalkBackward(s, b, None, count);
      r <= all && |r| == Min(|all|, Room(limit, count, |all|))
    decreases |s|
  {
    var n := |s|;
    if n > 0 && !Stops(b, s[n - 1].key) && !Reached(limit, count + 1) {
      WalkBackwardLimit(s[..n - 1], b, limit, count + 1);
      WalkBackwardSize(s[..n - 1], b, count + 1, count);
    }
  }

  lemma {:induction false} WalkBackwardSize(s: seq<Entry>, b: Bound, c1: nat, c2: nat)
    ensures WalkBackward(s, b, None, c1) == WalkBackward(s, b, None, c2)
    decreases |s|
  {
    var n := |s|;
    if n > 0 && !Stops(b, s[n - 1].key) {
      WalkBackwardSize(s[..n - 1], b, c1 + 1, c2 + 1);
    }
  }

  function Min(a: nat, b: nat): nat
  {
    if a < b then a else b
  }

  // ------------------------------------------------------------- windows

  /** The items of a forward range: key at least `first`, not past `b`. */
  predicate InForward(first: bytes, b: Bound, k: bytes)
  {
    LessEq(first, k) && !Stops(b, k)
  }

  /** The items of a backward range: key cut to `|first|` at most `first`,
      not below `b`. */
  predicate InBackward(first: bytes, b: Bound, k: bytes)
  {
    LessEq(Take(k, |first|), first) && !Stops(b, k)
  }

  /** The items of `s` in the forward range, in table order. */
  function ForwardWindow(s: seq<Entry>, first: bytes, b: Bound): (w: seq<Entry>)
    ensures forall x :: x in w <==> x in s && InForward(first, b, x.key)
    decreases |s|
  {
    if |s| == 0 then []
    else (if InForward(first, b, s[0].key) then [s[0]] else []) + ForwardWindow(s[1..], first, b)
  }

  /** The items of `s` in the backward range, in reverse table order. */
  function BackwardWindow(s: seq<Entry>, first: bytes, b: Bound): (w: seq<Entry>)
    ensures forall x :: x in w <==> x in s && InBackward(first, b, x.key)
    decreases |s|
  {
    if |s| == 0 then []
    else
      var n := |s| - 1;
      assert forall x :: x in s <==> x in s[..n] || x == s[n];
      (if InBackward(first, b, s[n].key) then [s[n]] else []) + BackwardWindow(s[..n], first, b)
  }

  /** The forward range of a run in order is in order. */
  lemma {:induction false} ForwardWindowOrdered(s: seq<Entry>, first: bytes, b: Bound)
    requires Ordered(s)
    ensures Ordered(ForwardWindow(s, first, b))
    decreases |s|
  {
    if |s| > 0 {
      var rest := ForwardWindow(s[1..], first, b);
      OrderedTail(s);
      ForwardWindowOrdered(s[1..], first, b);
      if InForward(first, b, s[0].key) {
        forall y | y in rest
          ensures EntryLess(s[0], y)
        {
          assert y in s[1..];
          var k :| 0 <= k < |s| - 1 && s[1..][k] == y;
          assert y == s[k + 1];
        }
        OrderedPrepend(s[0], rest);
      }
    }
  }

  /** An item below every item of a run in order can go in front of it. */
  lemma OrderedPrepend(x: Entry, rest: seq<Entry>)
    requires Ordered(rest)
    requires forall y :: y in rest ==> EntryLess(x, y)
    ensures Ordered([x] + rest)
  {
    var w := [x] + rest;
    forall i, j | 0 <= i < j < |w|
      ensures EntryLess(w[i], w[j])
    {
      assert w[j] == rest[j - 1];
      if i > 0 {
        assert w[i] == rest[i - 1];
      }
    }
  }

  lemma {:induction false} ForwardWindowEmpty(s: seq<Entry>, first: bytes, b: Bound)
    requires forall i :: 0 <= i < |s| ==> !InForward(first, b, s[i].key)
    ensures ForwardWindow(s, first, b) == []
    decreases |s|
  {
    if |s| > 0 {
      ForwardWindowEmpty(s[1..], first, b);
    }
  }

  lemma {:induction false} ForwardWindowDrop(s: seq<Entry>, first: bytes, b: Bound, j: nat)
    requires j <= |s|
    requires forall i :: 0 <= i < j ==> Less(s[i].key, first)
    ensures ForwardWindow(s, first, b) == ForwardWindow(s[j..], first, b)
    decreases j
  {
    if j > 0 {
      LessAsymmetric(s[0].key, first);
      LessIrreflexive(first);
      ForwardWindowDrop(s[1..], first, b, j - 1);
      assert s[1..][j - 1..] == s[j..];
    }
  }

  /** Walking forward from a position where every key is at least `first`
      yields exactly the range, in order. */
  lemma {:induction false} WalkForwardIsWindow(s: Index, first: bytes, b: Bound, count: nat)
    requires !b.DownTo?
    requires forall i :: 0 <= i < |s| ==> LessEq(first, s[i].key)
    ensures WalkForward(s, b, None, count) == ForwardWindow(s, first, b)
    decreases |s|
  {
    if |s| > 0 {
      if Stops(b, s[0].key) {
        forall i | 0 <= i < |s|
          ensures !InForward(first, b, s[i].key)
        {
          SortedKeys(s, 0, i);
          StopsUpward(b, s[0].key, s[i].key);
        }
        ForwardWindowEmpty(s, first, b);
      } else {
        WalkForwardIsWindow(s[1..], first, b, count + 1);
      }
    }
  }

  /** A forward range scan (`set_range(first)` then `iternext`) yields the
      items of the range in table order, cut at the limit. */
  lemma ForwardScanIsWindow(s: Index, first: bytes, b: Bound, limit: Option<int>)
    requires !b.DownTo?
    ensures var j := SetRange(s, first);
      var r, w := WalkForward(s[j..], b, limit, 0), ForwardWindow(s, first, b);
      r <= w && |r| == Min(|w|, Room(limit, 0, |w|))
  {
    var j := SetRange(s, first);
    forall i | 0 <= i < |s[j..]|
      ensures LessEq(first, s[j..][i].key)
    {
      SetRangeSuffix(s, first, j + i);
    }
    SortedSlice(s, j, |s|);
    assert s[j..|s|] == s[j..];
    WalkForwardIsWindow(s[j..], first, b, 0);
    ForwardWindowDrop(s, first, b, j);
    WalkForwardLimit(s[j..], b, limit, 0);
  }

  // ------------------------------------------------------ backward starts

  /** Where `_subrangeRows` starts a backward walk, as written: at the
      `set_range(first)` item, or the one before it when that item's key cut
      to `|first|` is above `first` (past the last item counts as above:
      the table's trailing sentinel key is larger than any cut key). The
      result is the number of items the walk may visit. */
  function BackwardStartAsWritten(s: Index, first: bytes): (m: nat)
    ensures m <= |s|
  {
    var j := SetRange(s, first);
    if j == |s| || Less(first, Take(s[j].key, |first|)) then j else j + 1
  }

  /** Where a backward walk has to start to see every item of the range:
      after the last item whose key cut to `|first|` is at most `first`. */
  function BackwardStart(s: Index, first: bytes): (m: nat)
    ensures m <= |s|
    ensures forall i :: 0 <= i < m ==> LessEq(Take(s[i].key, |first|), first)
    ensures m < |s| ==> Less(first, Take(s[m].key, |first|))
    decreases |s|
  {
    if |s| == 0 then 0
    else if Less(first, Take(s[0].key, |first|)) then 0
    else
      var m := BackwardStart(s[1..], first);
      LessTotal(first, Take(s[0].key, |first|));
      1 + m
  }

  lemma BackwardStartSuffix(s: Index, first: bytes, i: int)
    requires BackwardStart(s, first) <= i < |s|
    ensures Less(first, Take(s[i].key, |first|))
  {
    var m := BackwardStart(s, first);
    SortedKeys(s, m, i);
    TakeMonotone(s[m].key, s[i].key, |first|);
    var tm, ti := Take(s[m].key, |first|), Take(s[i].key, |first|);
    if tm != ti {
      LessTransitive(first, tm, ti);
    }
  }

  lemma {:induction false} BackwardWindowEmpty(s: seq<Entry>, first: bytes, b: Bound)
    requires forall i :: 0 <= i < |s| ==> !InBackward(first, b, s[i].key)
    ensures BackwardWindow(s, first, b) == []
    decreases |s|
  {
    if |s| > 0 {
      BackwardWindowEmpty(s[..|s| - 1], first, b);
    }
  }

  /** The key `k`, cut to the length of `first`, sorts after `first`. */
  predicate Above(first: bytes, k: bytes)
  {
    Less(first, Take(k, |first|))
  }

  /** An item whose cut key is beyond `first` is outside the backward window. */
  lemma BackwardWindowDropLast(s: seq<Entry>, first: bytes, b: Bound)
    requires |s| > 0 && Above(first, s[|s| - 1].key)
    ensures BackwardWindow(s, first, b) == BackwardWindow(s[..|s| - 1], first, b)
  {
    var t := Take(s[|s| - 1].key, |first|);
    LessAsymmetric(first, t);
    LessIrreflexive(first);
    assert !InBackward(first, b, s[|s| - 1].key);
  }

  lemma {:induction false} BackwardWindowDrop(s: seq<Entry>, first: bytes, b: Bound, m: nat)
    requires m <= |s|
    requires forall i :: m <= i < |s| ==> Above(first, s[i].key)
    ensures BackwardWindow(s, first, b) == BackwardWindow(s[..m], first, b)
    decreases |s| - m
  {
    if m < |s| {
      var n := |s| - 1;
      BackwardWindowDropLast(s, first, b);
      var p := s[..n];
      assert forall i :: m <= i < |p| ==> p[i] == s[i];
      BackwardWindowDrop(p, first, b, m);
      assert p[..m] == s[..m];
    } else {
      assert s[..m] == s;
    }
  }

  /** Walking backward over items whose cut keys are all at most `first`
      yields exactly the range, in reverse order. */
  lemma {:induction false} WalkBackwardIsWindow(s: Index, first: bytes, b: Bound, count: nat)
    requires b.DownTo?
    requires forall i :: 0 <= i < |s| ==> LessEq(Take(s[i].key, |first|), first)
    ensures WalkBackward(s, b, None, count) == BackwardWindow(s, first, b)
    decreases |s|
  {
    var n := |s|;
    if n > 0 {
      if Stops(b, s[n - 1].key) {
        forall i | 0 <= i < n
          ensures !InBackward(first, b, s[i].key)
        {
          SortedKeys(s, i, n - 1);
          StopsDownward(b, s[i].key, s[n - 1].key);
        }
        BackwardWindowEmpty(s, first, b);
      } else {
        SortedSlice(s, 0, n - 1);
        assert s[0..n - 1] == s[..n - 1];
        WalkBackwardIsWindow(s[..n - 1], first, b, count + 1);
      }
    }
  }

  /** A backward range scan started where it has to be yields the items of
      the range in reverse table order, cut at the limit. */
  lemma BackwardScanIsWindow(s: Index, first: bytes, b: Bound, limit: Option<int>)
    requires b.DownTo?
    ensures var m := BackwardStart(s, first);
      var r, w := WalkBackward(s[..m], b, limit, 0), BackwardWindow(s, first, b);
      r <= w && |r| == Min(|w|, Room(limit, 0, |w|))
  {
    var m := BackwardStart(s, first);
    forall i | m <= i < |s|
      ensures Above(first, s[i].key)
    {
      BackwardStartSuffix(s, first, i);
    }
    SortedSlice(s, 0, m);
    assert s[0..m] == s[..m];
    WalkBackwardIsWindow(s[..m], first, b, 0);
    BackwardWindowDrop(s, first, b, m);
    WalkBackwardLimit(s[..m], b, limit, 0);
  }

  /** The start `_subrangeRows` uses is never past the one the range needs,
      and every item between the two has `first` itself as its cut key: the
      walk as written misses exactly such ties. */
  lemma BackwardStartAsWrittenTies(s: Index, first: bytes, i: int)
    ensures BackwardStartAsWritten(s, first) <= BackwardStart(s, first)
    ensures BackwardStartAsWritten(s, first) <= i < BackwardStart(s, first) ==> Take(s[i].key, |first|) == first
  {
    var j := SetRange(s, first);
    SetRangeBeforeStart(s, first);
    if j < |s| && !Above(first, s[j].key) && BackwardStart(s, first) <= j {
      BackwardStartSuffix(s, first, j);
    }
    if BackwardStartAsWritten(s, first) <= i < BackwardStart(s, first) {
      SetRangeSuffix(s, first, i);
      CutBetween(first, s[i].key);
    }
  }

  /** Every item below `first` is before the start a backward range needs. */
  lemma SetRangeBeforeStart(s: Index, first: bytes)
    ensures SetRange(s, first) <= BackwardStart(s, first)
  {
    var j, m := SetRange(s, first), BackwardStart(s, first);
    if m < j {
      BoundTakeIff(first, s[m].key);
      LessAsymmetric(s[m].key, first);
      LessIrreflexive(first);
    }
  }

  /** A key at least `first` whose cut is at most `first` is cut to `first`. */
  lemma CutBetween(first: bytes, k: bytes)
    requires LessEq(first, k) && LessEq(Take(k, |first|), first)
    ensures Take(k, |first|) == first
  {
    BoundTakeIff(first, k);
    if Take(k, |first|) != first {
      LessAsymmetric(first, Take(k, |first|));
    }
  }

  /** The backward scan as written yields, cut at the limit, the items of
      the range among those before its start, in reverse table order. */
  lemma BackwardScanAsWritten(s: Index, first: bytes, b: Bound, limit: Option<int>)
    requires b.DownTo?
    ensures var m := BackwardStartAsWritten(s, first);
      var r, w := WalkBackward(s[..m], b, limit, 0), BackwardWindow(s[..m], first, b);
      r <= w && |r| == Min(|w|, Room(limit, 0, |w|))
  {
    var m := BackwardStartAsWritten(s, first);
    BackwardStartAsWrittenTies(s, first, 0);
    SortedSlice(s, 0, m);
    assert s[0..m] == s[..m];
    WalkBackwardIsWindow(s[..m], first, b, 0);
    WalkBackwardLimit(s[..m], b, limit, 0);
  }

  /** Without a limit, the backward scan as written yields only items of the
      range, and the items of the range it misses all have `first` as their
      cut key. */
  lemma BackwardScanAsWrittenMisses(s: Index, first: bytes, b: Bound, x: Entry)
    requires b.DownTo?
    ensures var r := WalkBackward(s[..BackwardStartAsWritten(s, first)], b, None, 0);
      && (x in r ==> x in BackwardWindow(s, first, b))
      && (x in BackwardWindow(s, first, b) && x !in r ==> Take(x.key, |first|) == first)
  {
    var m, m2 := BackwardStartAsWritten(s, first), BackwardStart(s, first);
    BackwardScanAsWritten(s, first, b, None);
    BackwardStartAsWrittenTies(s, first, 0);
    assert forall k :: 0 <= k < m ==> s[..m][k] == s[k];
    if x in BackwardWindow(s, first, b) && x !in WalkBackward(s[..m], b, None, 0) {
      var i :| 0 <= i < |s| && s[i] == x;
      if i >= m {
        if m2 <= i {
          BackwardStartSuffix(s, first, i);
          LessAsymmetric(first, Take(x.key, |first|));
          LessIrreflexive(first);
        }
        BackwardStartAsWrittenTies(s, first, i);
      }
    }
  }
}
