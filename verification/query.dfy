/** The integer range queries of synapse/cores/lmdb.py: `_subrangeRows`,
    which walks the P-V-T index over the values of one prop between two
    integers of the same sign, and `_rowsByMinmax`, which splits a range at
    zero into such walks (negative integers are keyed in reverse order,
    after every other kind of value). */
module RangeQueries {
  import opened Wrappers
  import opened Bytes
  import opened MsgPack
  import opened LmdbCodec
  import opened SortedIndex
  import opened RowStore
  import opened RowRemoval
  import opened KeyWindows

  // --------------------------------------------------------------- answers

  /** What a query returns: the number of items it counted, or their rows. */
  datatype Answer = Count(n: nat) | Rows(rows: seq<Row>)
  {
    function Size(): nat
    {
      if Count? then n else |rows|
    }
  }

  /** The empty answer of either kind. */
  function NoAnswer(countOnly: bool): (a: Answer)
  {
    if countOnly then Count(0) else Rows([])
  }

  /** `ret += more`: counts add up, row lists are concatenated. */
  function Plus(a: Answer, b: Answer): (r: Answer)
    requires a.Count? == b.Count?
  {
    if a.Count? then Count(a.n + b.n) else Rows(a.rows + b.rows)
  }

  /** Reading the row behind every item, in order; the first item whose row
      cannot be read fails the whole call. */
  function ReadRows(s: Store, items: seq<Entry>): (r: Result<seq<Row>, Error>)
    ensures r.Success? ==> |r.value| == |items|
    decreases |items|
  {
    if |items| == 0 then Success([])
    else
      var head := GetRow(s, items[0].val);
      var rest := ReadRows(s, items[1..]);
      if head.Failure? then Failure(head.error)
      else if rest.Failure? then Failure(rest.error)
      else Success([head.value] + rest.value)
  }

  /** The rows read are the rows of the items, one for one, and a failure is
      the failure of some item's row. */
  lemma {:induction false} ReadRowsMeaning(s: Store, items: seq<Entry>)
    ensures var r := ReadRows(s, items);
      && (r.Success? <==> forall i :: 0 <= i < |items| ==> GetRow(s, items[i].val).Success?)
      && (r.Success? ==> forall i :: 0 <= i < |items| ==> GetRow(s, items[i].val) == Success(r.value[i]))
      && (r.Failure? ==> exists i :: 0 <= i < |items| && GetRow(s, items[i].val) == Failure(r.error))
    decreases |items|
  {
    if |items| > 0 {
      var tail := items[1..];
      ReadRowsMeaning(s, tail);
      assert forall i :: 0 < i < |items| ==> tail[i - 1] == items[i];
      var head, rest := GetRow(s, items[0].val), ReadRows(s, tail);
      if head.Failure? {
        assert GetRow(s, items[0].val) == Failure(ReadRows(s, items).error);
      } else if rest.Failure? {
        var i :| 0 <= i < |tail| && GetRow(s, tail[i].val) == Failure(rest.error);
        assert GetRow(s, items[i + 1].val) == Failure(ReadRows(s, items).error);
      } else {
        assert forall i :: 0 < i < |items| ==> ([head.value] + rest.value)[i] == rest.value[i - 1];
      }
    }
  }

  /** Reading the rows of two runs of items one after the other is reading
      the rows of both, failing on the first run's failure first. */
  lemma {:induction false} ReadRowsAppend(s: Store, a: seq<Entry>, b: seq<Entry>)
    ensures var ra, rb := ReadRows(s, a), ReadRows(s, b);
      ReadRows(s, a + b) == if ra.Failure? then ra else if rb.Failure? then rb else Success(ra.value + rb.value)
    decreases |a|
  {
    if |a| > 0 {
      ReadRowsAppend(s, a[1..], b);
      assert (a + b)[1..] == a[1..] + b;
      assert (a + b)[0] == a[0];
      var head, tail, rb := GetRow(s, a[0].val), ReadRows(s, a[1..]), ReadRows(s, b);
      if head.Success? && tail.Success? && rb.Success? {
        assert [head.value] + (tail.value + rb.value) == ([head.value] + tail.value) + rb.value;
      }
    } else {
      assert a + b == b;
      assert ReadRows(s, a) == Success([]);
      var rb := ReadRows(s, b);
      if rb.Success? {
        assert [] + rb.value == rb.value;
      }
    }
  }

  /** The answer for the items a walk yielded: their number when only
      counting (no row is read then), else their rows. */
  function Finish(s: Store, items: seq<Entry>, countOnly: bool): (r: Result<Answer, Error>)
    ensures r.Success? ==> r.value.Size() == |items| && r.value.Count? == countOnly
    ensures r.Failure? ==> !countOnly
  {
    if countOnly then Success(Count(|items|))
    else
      var rows := ReadRows(s, items);
      if rows.Failure? then Failure(rows.error) else Success(Rows(rows.value))
  }

  // -------------------------------------------------------- _subrangeRows

  /** Where a backward walk starts: where `_subrangeRows` starts it
      (`set_range(first)`, stepping back once unless that item's cut key is
      the first key), or where it has to start to see every item of the
      range (after the last item whose cut key is at most the first key). */
  datatype Start = AsWritten | Corrected

  /** The items `_subrangeRows` walks over in the P-V-T index for the values
      `firstVal` to `lastVal` of the prop packed as `pEnc`: for a
      non-negative `firstVal`, forward from `set_range(first)` until the key
      cut to the last key's length is above it (or reaches it, unless
      right-closed); for a negative one, backward down the table from
      `start` until the cut key is below the last key (or reaches it, unless
      right-closed). A limit below one still lets one item through. */
  function SubrangeItems(c: Codec, s: Store, pEnc: bytes, firstVal: int, lastVal: int, limit: Option<int>, rightClosed: bool,
                         start: Start): (r: seq<Entry>)
    requires KeyEncodable(IntVal(firstVal)) && KeyEncodable(IntVal(lastVal))
    ensures limit.Some? ==> |r| <= if limit.value >= 1 then limit.value else 1
  {
    var first, last := pEnc + EncValKey(c, IntVal(firstVal)), pEnc + EncValKey(c, IntVal(lastVal));
    if firstVal < 0 then
      var s' := s.pvt[..if start == Corrected then BackwardStart(s.pvt, first) else BackwardStartAsWritten(s.pvt, first)];
      WalkBackwardLimit(s', DownTo(last, rightClosed), limit, 0);
      WalkBackward(s', DownTo(last, rightClosed), limit, 0)
    else
      WalkForwardLimit(s.pvt[SetRange(s.pvt, first)..], UpTo(last, rightClosed), limit, 0);
      WalkForward(s.pvt[SetRange(s.pvt, first)..], UpTo(last, rightClosed), limit, 0)
  }

  /** What the walk yields: the range in table order for a non-negative
      first value; for a negative one, the range in reverse table order
      with the corrected start, and with the start as written only the part
      of the range before that start. Either way cut at the limit. */
  lemma SubrangeWindow(c: Codec, s: Store, pEnc: bytes, firstVal: int, lastVal: int, limit: Option<int>, rightClosed: bool,
                       start: Start)
    requires KeyEncodable(IntVal(firstVal)) && KeyEncodable(IntVal(lastVal))
    ensures var first, last := pEnc + EncValKey(c, IntVal(firstVal)), pEnc + EncValKey(c, IntVal(lastVal));
      var r := SubrangeItems(c, s, pEnc, firstVal, lastVal, limit, rightClosed, start);
      var w := if firstVal >= 0 then ForwardWindow(s.pvt, first, UpTo(last, rightClosed))
               else if start == Corrected then BackwardWindow(s.pvt, first, DownTo(last, rightClosed))
               else BackwardWindow(s.pvt[..BackwardStartAsWritten(s.pvt, first)], first, DownTo(last, rightClosed));
      r <= w && |r| == Min(|w|, Room(limit, 0, |w|))
  {
    var first, last := pEnc + EncValKey(c, IntVal(firstVal)), pEnc + EncValKey(c, IntVal(lastVal));
    if firstVal >= 0 {
      ForwardScanIsWindow(s.pvt, first, UpTo(last, rightClosed), limit);
    } else if start == Corrected {
      BackwardScanIsWindow(s.pvt, first, DownTo(last, rightClosed), limit);
    } else {
      BackwardScanAsWritten(s.pvt, first, DownTo(last, rightClosed), limit);
    }
  }

  /** `_subrangeRows`: the count of the items of the range, or their rows.
      An integer the packer cannot take fails the call. */
  function SubrangeRows(c: Codec, s: Store, pEnc: bytes, firstVal: int, lastVal: int, limit: Option<int>, rightClosed: bool,
                        countOnly: bool, start: Start): (r: Result<Answer, Error>)
    ensures r == Failure(IntTooLarge) <==> !KeyEncodable(IntVal(firstVal)) || !KeyEncodable(IntVal(lastVal))
    ensures r.Success? ==> r.value.Count? == countOnly
    ensures r.Success? && limit.Some? && limit.value >= 1 ==> r.value.Size() <= limit.value
  {
    if !KeyEncodable(IntVal(firstVal)) || !KeyEncodable(IntVal(lastVal)) then Failure(IntTooLarge)
    else
      var items := SubrangeItems(c, s, pEnc, firstVal, lastVal, limit, rightClosed, start);
      var r := Finish(s, items, countOnly);
      assert r != Failure(IntTooLarge) by {
        if r.Failure? {
          ReadRowsMeaning(s, items);
          var i :| 0 <= i < |items| && GetRow(s, items[i].val) == Failure(r.error);
        }
      }
      r
  }

  /** The P-V-T items of rows with prop `p` and an integer value in the
      range from `a` to `b` (`b` only when `closed`). */
  ghost predicate ValueItem(c: Codec, s: Store, x: Entry, p: string, a: int, b: int, closed: bool)
  {
    exists pk :: pk in s.rows && x == IndexEntry(c, PvtTable, pk, s.rows[pk])
      && s.rows[pk].prop == p && InRange(s.rows[pk].valu, a, b, closed)
  }

  /** Without a limit, on a consistent store, the corrected walk goes over
      exactly the items of the rows with the prop whose value is in the
      range, when both ends have the same sign. */
  lemma SubrangeFinds(c: Codec, s: Store, p: string, a: int, b: int, closed: bool, x: Entry)
    requires SelfDelimiting(c) && Consistent(c, s)
    requires -UINT64_LIMIT < a < UINT64_LIMIT && -UINT64_LIMIT < b < UINT64_LIMIT
    requires (a < 0) == (b < 0)
    ensures x in SubrangeItems(c, s, c.packStr(p), a, b, None, closed, Corrected) <==> x in s.pvt && ValueItem(c, s, x, p, a, b, closed)
  {
    var r := SubrangeItems(c, s, c.packStr(p), a, b, None, closed, Corrected);
    var pp := c.packStr(p);
    var first, last := pp + EncValKey(c, IntVal(a)), pp + EncValKey(c, IntVal(b));
    var w := if a < 0 then BackwardWindow(s.pvt, first, DownTo(last, closed)) else ForwardWindow(s.pvt, first, UpTo(last, closed));
    SubrangeWindow(c, s, pp, a, b, None, closed, Corrected);
    assert r == w;
    if x in s.pvt {
      var rec := ItemRow(c, s, x);
      if a < 0 {
        BackwardKeyWindow(c, rec.prop, rec.valu, PackInt(rec.time), p, a, b, closed);
      } else {
        ForwardKeyWindow(c, rec.prop, rec.valu, PackInt(rec.time), p, a, b, closed);
      }
      ValueItemRow(c, s, x, p, a, b, closed);
    }
  }

  /** The row a P-V-T item of a consistent store indexes, with the key the
      item has. */
  lemma ItemRow(c: Codec, s: Store, x: Entry) returns (rec: StoredRow)
    requires Consistent(c, s) && x in s.pvt
    ensures PkOf(x.val).Some? && PkOf(x.val).value in s.rows && rec == s.rows[PkOf(x.val).value]
    ensures KeyEncodable(rec.valu) && x.key == c.packStr(rec.prop) + EncValKey(c, rec.valu) + PackInt(rec.time)
  {
    assert PointsAt(c, s, PvtTable, x);
    rec := s.rows[PkOf(x.val).value];
  }

  /** On a consistent store, an item is a value item of a range exactly when
      the row it indexes has the prop and a value in the range. */
  lemma ValueItemRow(c: Codec, s: Store, x: Entry, p: string, a: int, b: int, closed: bool)
    requires Consistent(c, s) && x in s.pvt
    ensures PkOf(x.val).Some? && PkOf(x.val).value in s.rows
    ensures var rec := s.rows[PkOf(x.val).value];
      ValueItem(c, s, x, p, a, b, closed) <==> rec.prop == p && InRange(rec.valu, a, b, closed)
  {
    assert PointsAt(c, s, PvtTable, x);
    if ValueItem(c, s, x, p, a, b, closed) {
      var q :| q in s.rows && x == IndexEntry(c, PvtTable, q, s.rows[q])
        && s.rows[q].prop == p && InRange(s.rows[q].valu, a, b, closed);
      PkOfPacked(q);
    }
  }

  /** Without a limit, on a consistent store, the walk as written goes over
      items of the range only, and the items of the range it misses all
      carry the first value itself (the ties of the first key). */
  lemma SubrangeAsWrittenFinds(c: Codec, s: Store, p: string, a: int, b: int, closed: bool, x: Entry)
    requires SelfDelimiting(c) && Consistent(c, s)
    requires -UINT64_LIMIT < a < UINT64_LIMIT && -UINT64_LIMIT < b < UINT64_LIMIT
    requires (a < 0) == (b < 0)
    ensures x in SubrangeItems(c, s, c.packStr(p), a, b, None, closed, AsWritten) ==> x in s.pvt && ValueItem(c, s, x, p, a, b, closed)
    ensures x in s.pvt && ValueItem(c, s, x, p, a, b, closed) && x !in SubrangeItems(c, s, c.packStr(p), a, b, None, closed, AsWritten)
            ==> a < 0 && ValueItem(c, s, x, p, a, a, true)
  {
    SubrangeFinds(c, s, p, a, b, closed, x);
    var pp := c.packStr(p);
    AsWrittenWithinCorrected(c, s, pp, a, b, closed, x);
    if a < 0 && x in s.pvt && ValueItem(c, s, x, p, a, b, closed) && x !in SubrangeItems(c, s, pp, a, b, None, closed, AsWritten) {
      TieHasFirstValue(c, s, x, p, a, b, closed);
    }
  }

  /** Without a limit, the walk as written yields only what the corrected
      walk yields, and what it leaves out has the first key as its cut key
      (and there is nothing left out going forward). */
  lemma AsWrittenWithinCorrected(c: Codec, s: Store, pEnc: bytes, a: int, b: int, closed: bool, x: Entry)
    requires KeyEncodable(IntVal(a)) && KeyEncodable(IntVal(b))
    ensures var aw, co := SubrangeItems(c, s, pEnc, a, b, None, closed, AsWritten), SubrangeItems(c, s, pEnc, a, b, None, closed, Corrected);
      && (x in aw ==> x in co)
      && (x in co && x !in aw ==> a < 0 && CutAt(x.key, pEnc + EncValKey(c, IntVal(a))))
  {
    var first, last := pEnc + EncValKey(c, IntVal(a)), pEnc + EncValKey(c, IntVal(b));
    var aw, co := SubrangeItems(c, s, pEnc, a, b, None, closed, AsWritten), SubrangeItems(c, s, pEnc, a, b, None, closed, Corrected);
    if a < 0 {
      var bd := DownTo(last, closed);
      var m := BackwardStartAsWritten(s.pvt, first);
      assert aw == WalkBackward(s.pvt[..m], bd, None, 0);
      SubrangeWindow(c, s, pEnc, a, b, None, closed, Corrected);
      var w := BackwardWindow(s.pvt, first, bd);
      assert co <= w && |co| == |w|;
      assert co == w;
      BackwardScanAsWrittenMisses(s.pvt, first, bd, x);
    } else {
      assert aw == co;
    }
  }

  /** An item of the range whose key, cut to the first key's length, is the
      first key carries the first value itself. */
  lemma TieHasFirstValue(c: Codec, s: Store, x: Entry, p: string, a: int, b: int, closed: bool)
    requires Consistent(c, s) && x in s.pvt && -UINT64_LIMIT < a < UINT64_LIMIT
    requires ValueItem(c, s, x, p, a, b, closed)
    requires CutAt(x.key, c.packStr(p) + EncValKey(c, IntVal(a)))
    ensures ValueItem(c, s, x, p, a, a, true)
  {
    var rec := ItemRow(c, s, x);
    ValueItemRow(c, s, x, p, a, b, closed);
    ValueItemRow(c, s, x, p, a, a, true);
    KeySide(c, rec.prop, rec.valu, PackInt(rec.time), p, a);
    CutTrichotomy(x.key, c.packStr(p) + EncValKey(c, IntVal(a)));
  }

  /** The backward start as written loses ties: with two items of the value
      -5 (times 10 and 20) under the prop packed as `a1 61`, the walk for
      exactly -5 yields only the earlier one, where the corrected walk
      yields both, latest first. */
  lemma SubrangeMissesTies(c: Codec, s: Store)
    requires s.pvt == [Entry([0xa1, 0x61, 0xff, 5, 10], [1]), Entry([0xa1, 0x61, 0xff, 5, 20], [2])]
    ensures SubrangeItems(c, s, [0xa1, 0x61], -5, -5, None, true, AsWritten) == [s.pvt[0]]
    ensures SubrangeItems(c, s, [0xa1, 0x61], -5, -5, None, true, Corrected) == [s.pvt[1], s.pvt[0]]
  {
    var first: bytes := [0xa1, 0x61, 0xff, 5];
    assert EncValKey(c, IntVal(-5)) == [0xff, 5];
    assert [0xa1, 0x61] + EncValKey(c, IntVal(-5)) == first;
    assert Take(s.pvt[0].key, 4) == first && Take(s.pvt[1].key, 4) == first;
    assert SetRange(s.pvt, first) == 0;
    assert BackwardStartAsWritten(s.pvt, first) == 1;
    assert s.pvt[1..][0] == s.pvt[1];
    assert BackwardStart(s.pvt[1..], first) == 1;
    assert BackwardStart(s.pvt, first) == 2;
    assert s.pvt[..2] == s.pvt;
    assert s.pvt[..1] == [s.pvt[0]];
    var b := DownTo(first, true);
    LessIrreflexive(first);
    assert !Stops(b, s.pvt[0].key) && !Stops(b, s.pvt[1].key);
    assert s.pvt[..1][..0] == [];
    assert WalkBackward(s.pvt[..1], b, None, 0) == [s.pvt[0]];
    assert WalkBackward(s.pvt[..1], b, None, 1) == [s.pvt[0]];
    assert WalkBackward(s.pvt, b, None, 0) == [s.pvt[1]] + WalkBackward(s.pvt[..1], b, None, 1);
  }

  // -------------------------------------------------------- _rowsByMinmax

  /** The upper end of the negative half of a split range: `min(-1, maxval)`. */
  function NegativeTop(maxval: int): (b: int)
    ensures b < 0 && b <= maxval && (maxval < 0 ==> b == maxval)
  {
    if maxval < -1 then maxval else -1
  }

  /** The lower end of the non-negative half: `max(0, minval)`. */
  function PositiveBottom(minval: int): (a: int)
    ensures a >= 0 && a >= minval && (minval >= 0 ==> a == minval)
  {
    if minval > 0 then minval else 0
  }

  /** The limit left for the non-negative half once the negative half
      yielded `taken` items; only a negative half uses it up. */
  function LimitLeft(limit: Option<int>, minval: int, taken: nat): Option<int>
  {
    if minval < 0 && limit.Some? then Some(limit.value - taken) else limit
  }

  /** The items `_rowsByMinmax` walks over for `minval` to `maxval`: the
      negative values backward (closed at -1 when the range goes on into the
      non-negative ones), then, unless that used up the limit exactly, the
      non-negative values forward with what is left of the limit. A limit of
      at least one caps the items at the limit; any other limit lets
      through at most one item per half. */
  function MinmaxItems(c: Codec, s: Store, prop: string, minval: int, maxval: int, limit: Option<int>, rightClosed: bool,
                       start: Start): (r: seq<Entry>)
    requires minval <= maxval && KeyEncodable(IntVal(minval)) && KeyEncodable(IntVal(maxval))
    ensures limit.Some? ==> |r| <= if limit.value >= 1 then limit.value else 2
  {
    var pEnc := c.packStr(prop);
    var neg := if minval < 0 then SubrangeItems(c, s, pEnc, minval, NegativeTop(maxval), limit, maxval >= 0 || rightClosed, start) else [];
    var rest := LimitLeft(limit, minval, |neg|);
    if minval < 0 && rest == Some(0) then neg
    else if maxval < 0 then neg
    else neg + SubrangeItems(c, s, pEnc, PositiveBottom(minval), maxval, rest, rightClosed, start)
  }

  /** `_rowsByMinmax` (with the start `AsWritten`): an empty range answers
      the count 0 whatever was asked for; otherwise the answer of the
      negative half, plus that of the non-negative half unless the negative
      half used up the limit exactly (then the upper end is never keyed, so
      an upper end too large to pack fails the call only when the second
      half runs). Each half reads its rows as it walks, so the first failure
      wins. */
  function RowsByMinmax(c: Codec, s: Store, prop: string, minval: int, maxval: int, limit: Option<int>, rightClosed: bool,
                        countOnly: bool, start: Start): (r: Result<Answer, Error>)
    ensures minval > maxval ==> r == Success(Count(0))
    ensures minval <= maxval && r.Success? ==> r.value.Count? == countOnly
    ensures minval <= maxval && !KeyEncodable(IntVal(minval)) ==> r.Failure?
    ensures minval <= maxval && limit.None? && !KeyEncodable(IntVal(maxval)) ==> r.Failure?
    ensures r == Failure(IntTooLarge) ==> !KeyEncodable(IntVal(minval)) || !KeyEncodable(IntVal(maxval))
  {
    if minval > maxval then Success(Count(0))
    else
      var pEnc := c.packStr(prop);
      var neg := if minval < 0 then SubrangeRows(c, s, pEnc, minval, NegativeTop(maxval), limit, maxval >= 0 || rightClosed, countOnly, start)
                 else Success(NoAnswer(countOnly));
      if neg.Failure? then neg
      else
        var rest := LimitLeft(limit, minval, neg.value.Size());
        if minval < 0 && rest == Some(0) then neg
        else if maxval < 0 then neg
        else
          var pos := SubrangeRows(c, s, pEnc, PositiveBottom(minval), maxval, rest, rightClosed, countOnly, start);
          if pos.Failure? then pos else Success(Plus(neg.value, pos.value))
  }

  /** The answer for two runs of items walked one after the other is the
      answer for the first run plus the answer for the second, failing on
      the first run's failure first. */
  lemma FinishAppend(s: Store, a: seq<Entry>, b: seq<Entry>, countOnly: bool)
    ensures var fa, fb := Finish(s, a, countOnly), Finish(s, b, countOnly);
      Finish(s, a + b, countOnly) == if fa.Failure? then fa else if fb.Failure? then fb else Success(Plus(fa.value, fb.value))
  {
    if !countOnly {
      ReadRowsAppend(s, a, b);
    }
  }

  /** The answer of `_rowsByMinmax` on a range both of whose ends can be
      keyed is the answer for the items it walks over. */
  lemma MinmaxAnswer(c: Codec, s: Store, prop: string, minval: int, maxval: int, limit: Option<int>, rightClosed: bool,
                     countOnly: bool, start: Start)
    requires minval <= maxval && KeyEncodable(IntVal(minval)) && KeyEncodable(IntVal(maxval))
    ensures RowsByMinmax(c, s, prop, minval, maxval, limit, rightClosed, countOnly, start)
         == Finish(s, MinmaxItems(c, s, prop, minval, maxval, limit, rightClosed, start), countOnly)
  {
    var pEnc := c.packStr(prop);
    var neg := if minval < 0 then SubrangeItems(c, s, pEnc, minval, NegativeTop(maxval), limit, maxval >= 0 || rightClosed, start) else [];
    if minval < 0 {
      SubrangeRowsAnswer(c, s, pEnc, minval, NegativeTop(maxval), limit, maxval >= 0 || rightClosed, countOnly, start);
    }
    var rest := LimitLeft(limit, minval, |neg|);
    if !(minval < 0 && rest == Some(0)) && maxval >= 0 {
      var pos := SubrangeItems(c, s, pEnc, PositiveBottom(minval), maxval, rest, rightClosed, start);
      SubrangeRowsAnswer(c, s, pEnc, PositiveBottom(minval), maxval, rest, rightClosed, countOnly, start);
      assert MinmaxItems(c, s, prop, minval, maxval, limit, rightClosed, start) == neg + pos;
      FinishAppend(s, neg, pos, countOnly);
    } else {
      assert MinmaxItems(c, s, prop, minval, maxval, limit, rightClosed, start) == neg;
    }
  }

  /** A walk both of whose ends can be keyed answers for the items it yields. */
  lemma SubrangeRowsAnswer(c: Codec, s: Store, pEnc: bytes, firstVal: int, lastVal: int, limit: Option<int>, rightClosed: bool,
                           countOnly: bool, start: Start)
    requires KeyEncodable(IntVal(firstVal)) && KeyEncodable(IntVal(lastVal))
    ensures SubrangeRows(c, s, pEnc, firstVal, lastVal, limit, rightClosed, countOnly, start)
         == Finish(s, SubrangeItems(c, s, pEnc, firstVal, lastVal, limit, rightClosed, start), countOnly)
  {
  }

  /** Without a limit, on a consistent store, the corrected walks of
      `_rowsByMinmax` go over exactly the items of the rows with the prop
      whose value lies in the range, whatever the signs of its ends. */
  lemma MinmaxFinds(c: Codec, s: Store, prop: string, minval: int, maxval: int, rightClosed: bool, x: Entry)
    requires SelfDelimiting(c) && Consistent(c, s)
    requires minval <= maxval && KeyEncodable(IntVal(minval)) && KeyEncodable(IntVal(maxval))
    ensures x in MinmaxItems(c, s, prop, minval, maxval, None, rightClosed, Corrected)
        <==> x in s.pvt && ValueItem(c, s, x, prop, minval, maxval, rightClosed)
  {
    if minval < 0 {
      SubrangeFinds(c, s, prop, minval, NegativeTop(maxval), maxval >= 0 || rightClosed, x);
    }
    if maxval >= 0 {
      SubrangeFinds(c, s, prop, PositiveBottom(minval), maxval, rightClosed, x);
    }
    if minval < 0 <= maxval {
      ValueItemSplit(c, s, x, prop, minval, maxval, rightClosed);
    }
  }

  /** Without a limit, on a consistent store, `_rowsByMinmax` as written
      goes over items of the range only, and the items of the range it
      misses all carry the lower end itself, which must be negative. */
  lemma MinmaxAsWrittenFinds(c: Codec, s: Store, prop: string, minval: int, maxval: int, rightClosed: bool, x: Entry)
    requires SelfDelimiting(c) && Consistent(c, s)
    requires minval <= maxval && KeyEncodable(IntVal(minval)) && KeyEncodable(IntVal(maxval))
    ensures x in MinmaxItems(c, s, prop, minval, maxval, None, rightClosed, AsWritten)
        ==> x in s.pvt && ValueItem(c, s, x, prop, minval, maxval, rightClosed)
    ensures x in s.pvt && ValueItem(c, s, x, prop, minval, maxval, rightClosed)
            && x !in MinmaxItems(c, s, prop, minval, maxval, None, rightClosed, AsWritten)
        ==> minval < 0 && ValueItem(c, s, x, prop, minval, minval, true)
  {
    if minval < 0 {
      SubrangeAsWrittenFinds(c, s, prop, minval, NegativeTop(maxval), maxval >= 0 || rightClosed, x);
    }
    if maxval >= 0 {
      SubrangeAsWrittenFinds(c, s, prop, PositiveBottom(minval), maxval, rightClosed, x);
    }
    if minval < 0 <= maxval {
      ValueItemSplit(c, s, x, prop, minval, maxval, rightClosed);
    }
  }

  /** `_rowsByMinmax` as written counts one row too few: with the items of
      `SubrangeMissesTies` under the prop `a`, counting the rows of exactly
      -5 answers 1, where the corrected walk answers 2. */
  lemma MinmaxMissesTies(c: Codec, s: Store)
    requires c.packStr("a") == [0xa1, 0x61]
    requires s.pvt == [Entry([0xa1, 0x61, 0xff, 5, 10], [1]), Entry([0xa1, 0x61, 0xff, 5, 20], [2])]
    ensures RowsByMinmax(c, s, "a", -5, -5, None, true, true, AsWritten) == Success(Count(1))
    ensures RowsByMinmax(c, s, "a", -5, -5, None, true, true, Corrected) == Success(Count(2))
  {
    SubrangeMissesTies(c, s);
  }

  /** A range across zero holds a value exactly when one of its halves does. */
  lemma ValueItemSplit(c: Codec, s: Store, x: Entry, p: string, a: int, b: int, closed: bool)
    requires a < 0 <= b
    ensures ValueItem(c, s, x, p, a, b, closed) <==> ValueItem(c, s, x, p, a, -1, true) || ValueItem(c, s, x, p, 0, b, closed)
  {
    if ValueItem(c, s, x, p, a, b, closed) {
      var pk :| pk in s.rows && x == IndexEntry(c, PvtTable, pk, s.rows[pk])
        && s.rows[pk].prop == p && InRange(s.rows[pk].valu, a, b, closed);
      if s.rows[pk].valu.i < 0 {
        assert InRange(s.rows[pk].valu, a, -1, true);
      } else {
        assert InRange(s.rows[pk].valu, 0, b, closed);
      }
    }
    if ValueItem(c, s, x, p, a, -1, true) {
      var pk :| pk in s.rows && x == IndexEntry(c, PvtTable, pk, s.rows[pk])
        && s.rows[pk].prop == p && InRange(s.rows[pk].valu, a, -1, true);
      assert InRange(s.rows[pk].valu, a, b, closed);
    }
    if ValueItem(c, s, x, p, 0, b, closed) {
      var pk :| pk in s.rows && x == IndexEntry(c, PvtTable, pk, s.rows[pk])
        && s.rows[pk].prop == p && InRange(s.rows[pk].valu, 0, b, closed);
      assert InRange(s.rows[pk].valu, a, b, closed);
    }
  }
}
