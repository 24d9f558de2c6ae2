/** `_getRowsByProp` of synapse/cores/lmdb.py: the rows of one prop,
    optionally of one value, in a time window, listed, counted or deleted.
    Without a value it scans the P-T index, with one the P-V-T index, from
    `set_range` of the window's first key up to (not including) its last
    key. */
module PropQueries {
  import opened Wrappers
  import opened Bytes
  import opened MsgPack
  import opened LmdbCodec
  import opened SortedIndex
  import opened RowStore
  import opened RowRemoval
  import opened KeyWindows
  import opened RangeQueries

  // ----------------------------------------------------------- the window

  /** The index scanned: P-T without a value, P-V-T with one. */
  function ScanTable(valu: Option<Value>): (t: Table)
  {
    if valu.None? then PtTable else PvtTable
  }

  /** The arguments the call can pack: a value `_enc_val_key` takes and
      time bounds `msgenpack` takes. */
  predicate Encodable(valu: Option<Value>, mintime: Option<int>, maxtime: Option<int>)
  {
    && (valu.None? || KeyEncodable(valu.value))
    && (mintime.None? || Packable(mintime.value))
    && (maxtime.None? || Packable(maxtime.value))
  }

  /** The start of every key in the window: the packed prop, then the value
      key when a value is given. */
  function ScanPrefix(c: Codec, prop: string, valu: Option<Value>): (x: bytes)
    requires valu.None? || KeyEncodable(valu.value)
  {
    c.packStr(prop) + if valu.None? then [] else EncValKey(c, valu.value)
  }

  /** The first key of the window: the prefix and the packed lower time
      bound (nothing without one). */
  function FirstKey(c: Codec, prop: string, valu: Option<Value>, mintime: Option<int>, maxtime: Option<int>): bytes
    requires Encodable(valu, mintime, maxtime)
  {
    ScanPrefix(c, prop, valu) + MinTimeEnc(mintime)
  }

  /** The last key of the window, itself outside it: the prefix and the
      packed upper time bound (`MAX_TIME_ENC` without one). */
  function LastKey(c: Codec, prop: string, valu: Option<Value>, mintime: Option<int>, maxtime: Option<int>): bytes
    requires Encodable(valu, mintime, maxtime)
  {
    ScanPrefix(c, prop, valu) + PackInt(MaxTime(maxtime))
  }

  /** The items the scan visits when listing or counting: forward from
      `set_range(first)` while the key is below the last key, the count
      compared with the limit after each item. */
  function ScanItems(c: Codec, s: Store, prop: string, valu: Option<Value>, limit: Option<int>, mintime: Option<int>,
                     maxtime: Option<int>): (r: seq<Entry>)
    requires Encodable(valu, mintime, maxtime)
    ensures var w := ForwardWindow(TableOf(s, ScanTable(valu)), FirstKey(c, prop, valu, mintime, maxtime),
                                   Below(LastKey(c, prop, valu, mintime, maxtime)));
      r <= w && |r| == Min(|w|, Room(limit, 0, |w|))
  {
    var idx, first, last := TableOf(s, ScanTable(valu)), FirstKey(c, prop, valu, mintime, maxtime), LastKey(c, prop, valu, mintime, maxtime);
    ForwardScanIsWindow(idx, first, Below(last), limit);
    WalkForward(idx[SetRange(idx, first)..], Below(last), limit, 0)
  }

  /** A row the window admits: the prop, a value with the given value's
      key (when one is given) and a time from the lower bound up to, not
      including, the upper one. */
  predicate Admits(c: Codec, rec: StoredRow, prop: string, valu: Option<Value>, mintime: Option<int>, maxtime: Option<int>)
    requires valu.None? || KeyEncodable(valu.value)
  {
    && rec.prop == prop
    && (valu.None? || EncValKey(c, rec.valu) == EncValKey(c, valu.value))
    && TimeIn(rec.time, mintime, MaxTime(maxtime))
  }

  /** Time bounds the window lemmas cover: non-negative machine words. */
  predicate NonNegativeTimes(mintime: Option<int>, maxtime: Option<int>)
  {
    && (mintime.None? || 0 <= mintime.value < UINT64_LIMIT)
    && (maxtime.None? || 0 <= maxtime.value < UINT64_LIMIT)
  }

  /** A row's item in the scanned index lies in the window exactly when the
      window admits the row. */
  lemma ItemInWindow(c: Codec, rec: StoredRow, prop: string, valu: Option<Value>, mintime: Option<int>, maxtime: Option<int>)
    requires SelfDelimiting(c) && Encodable(valu, mintime, maxtime) && NonNegativeTimes(mintime, maxtime)
    ensures InForward(FirstKey(c, prop, valu, mintime, maxtime), Below(LastKey(c, prop, valu, mintime, maxtime)),
                      IndexKey(c, ScanTable(valu), rec))
        <==> Admits(c, rec, prop, valu, mintime, maxtime)
  {
    if valu.None? {
      assert ScanPrefix(c, prop, valu) == c.packStr(prop);
      PtWindow(c, rec.prop, rec.time, prop, mintime, MaxTime(maxtime));
    } else {
      PvtWindow(c, rec.prop, rec.valu, rec.time, prop, valu.value, mintime, MaxTime(maxtime));
      assert IndexKey(c, PvtTable, rec) == c.packStr(rec.prop) + EncValKey(c, rec.valu) + PackInt(rec.time);
    }
  }

  /** The items of the scanned index that belong to rows the window admits. */
  ghost predicate AdmittedItem(c: Codec, s: Store, x: Entry, prop: string, valu: Option<Value>, mintime: Option<int>,
                               maxtime: Option<int>)
    requires valu.None? || KeyEncodable(valu.value)
  {
    exists pk :: pk in s.rows && x == IndexEntry(c, ScanTable(valu), pk, s.rows[pk]) && Admits(c, s.rows[pk], prop, valu, mintime, maxtime)
  }

  /** Without a limit, on a consistent store, the scan visits exactly the
      items of the rows the window admits. */
  lemma ScanFinds(c: Codec, s: Store, prop: string, valu: Option<Value>, mintime: Option<int>, maxtime: Option<int>, x: Entry)
    requires SelfDelimiting(c) && Consistent(c, s)
    requires Encodable(valu, mintime, maxtime) && NonNegativeTimes(mintime, maxtime)
    ensures x in ScanItems(c, s, prop, valu, None, mintime, maxtime)
        <==> x in TableOf(s, ScanTable(valu)) && AdmittedItem(c, s, x, prop, valu, mintime, maxtime)
  {
    var t := ScanTable(valu);
    var first, last := FirstKey(c, prop, valu, mintime, maxtime), LastKey(c, prop, valu, mintime, maxtime);
    var w := ForwardWindow(TableOf(s, t), first, Below(last));
    assert ScanItems(c, s, prop, valu, None, mintime, maxtime) == w;
    if x in TableOf(s, t) {
      assert PointsAt(c, s, t, x);
      var pk := PkOf(x.val).value;
      assert x == IndexEntry(c, t, pk, s.rows[pk]);
      ItemInWindow(c, s.rows[pk], prop, valu, mintime, maxtime);
      assert x in w <==> Admits(c, s.rows[pk], prop, valu, mintime, maxtime);
      if AdmittedItem(c, s, x, prop, valu, mintime, maxtime) {
        var q :| q in s.rows && x == IndexEntry(c, t, q, s.rows[q]) && Admits(c, s.rows[q], prop, valu, mintime, maxtime);
        PackedPkInjective(q, pk);
      }
    }
  }

  // --------------------------------------------------- listing and counting

  /** `_getRowsByProp` listing or counting, as written, on Python 3: every
      item of the window up to the limit is taken; the re-check of a hashed
      value against the row never happens, because indexing the value key
      gives an integer there, and an integer never equals the one-byte
      marker string. */
  function GetRowsByProp(c: Codec, s: Store, prop: string, valu: Option<Value>, limit: Option<int>, mintime: Option<int>,
                         maxtime: Option<int>, countOnly: bool): (r: Result<Answer, Error>)
    ensures r == Failure(IntTooLarge) <==> !Encodable(valu, mintime, maxtime)
    ensures r.Success? ==> r.value.Count? == countOnly
    ensures r.Success? && limit.Some? && limit.value >= 1 ==> r.value.Size() <= limit.value
  {
    if !Encodable(valu, mintime, maxtime) then Failure(IntTooLarge)
    else
      var items := ScanItems(c, s, prop, valu, limit, mintime, maxtime);
      var r := Finish(s, items, countOnly);
      assert r != Failure(IntTooLarge) by {
        if r.Failure? {
          ReadRowsMeaning(s, items);
        }
      }
      r
  }

  /** The items of the scanned index whose rows the window admits. */
  ghost function AdmittedItems(c: Codec, s: Store, prop: string, valu: Option<Value>, mintime: Option<int>, maxtime: Option<int>)
    : set<Entry>
    requires valu.None? || KeyEncodable(valu.value)
  {
    set x | x in TableOf(s, ScanTable(valu)) && AdmittedItem(c, s, x, prop, valu, mintime, maxtime)
  }

  /** Without a limit, on a consistent store whose rows can all be read,
      `_getRowsByProp` visits each admitted item once, in the order of the
      scanned index, and answers their number when counting, or else the
      rows they index, one per item, in that order. */
  lemma GetRowsByPropAnswer(c: Codec, s: Store, prop: string, valu: Option<Value>, mintime: Option<int>, maxtime: Option<int>,
                            countOnly: bool)
    requires SelfDelimiting(c) && Consistent(c, s) && Readable(s)
    requires Encodable(valu, mintime, maxtime) && NonNegativeTimes(mintime, maxtime)
    ensures var items, r := ScanItems(c, s, prop, valu, None, mintime, maxtime), GetRowsByProp(c, s, prop, valu, None, mintime, maxtime, countOnly);
      && Ordered(items)
      && (set x | x in items) == AdmittedItems(c, s, prop, valu, mintime, maxtime)
      && (countOnly ==> r == Success(Count(|AdmittedItems(c, s, prop, valu, mintime, maxtime)|)))
      && (!countOnly ==> r.Success? && r.value.Rows? && |r.value.rows| == |AdmittedItems(c, s, prop, valu, mintime, maxtime)|
                         && forall i :: 0 <= i < |items| ==> GetRow(s, items[i].val) == Success(r.value.rows[i]))
  {
    var items := ScanItems(c, s, prop, valu, None, mintime, maxtime);
    ScanAdmitsEach(c, s, prop, valu, mintime, maxtime);
    forall i | 0 <= i < |items|
      ensures GetRow(s, items[i].val).Success?
    {
      ScanFinds(c, s, prop, valu, mintime, maxtime, items[i]);
      assert PointsAt(c, s, ScanTable(valu), items[i]);
    }
    ReadRowsMeaning(s, items);
  }

  /** Without a limit, on a consistent store, the scan visits the admitted
      items in the order of the scanned index, each once. */
  lemma ScanAdmitsEach(c: Codec, s: Store, prop: string, valu: Option<Value>, mintime: Option<int>, maxtime: Option<int>)
    requires SelfDelimiting(c) && Consistent(c, s)
    requires Encodable(valu, mintime, maxtime) && NonNegativeTimes(mintime, maxtime)
    ensures var items := ScanItems(c, s, prop, valu, None, mintime, maxtime);
      && Ordered(items)
      && (set x | x in items) == AdmittedItems(c, s, prop, valu, mintime, maxtime)
      && |items| == |AdmittedItems(c, s, prop, valu, mintime, maxtime)|
  {
    var idx, first, last := TableOf(s, ScanTable(valu)), FirstKey(c, prop, valu, mintime, maxtime), LastKey(c, prop, valu, mintime, maxtime);
    var items := ScanItems(c, s, prop, valu, None, mintime, maxtime);
    assert items == ForwardWindow(idx, first, Below(last));
    SortedOrdered(idx);
    ForwardWindowOrdered(idx, first, Below(last));
    forall x | x in items || x in AdmittedItems(c, s, prop, valu, mintime, maxtime)
      ensures x in items <==> x in AdmittedItems(c, s, prop, valu, mintime, maxtime)
    {
      ScanFinds(c, s, prop, valu, mintime, maxtime, x);
    }
    OrderedCount(items);
  }

  /** A long string is keyed by its hash alone. */
  predicate Hashed(v: Value)
  {
    v.StrVal? && |v.s| >= LARGE_STRING_SIZE
  }

  /** The consequence: given a long string, a row holding a different long
      string with the same hash is listed (and counted) along with the rows
      that hold the string asked for. */
  lemma CollisionListed(c: Codec, s: Store, prop: string, valu: Value, mintime: Option<int>, maxtime: Option<int>, pk: uint64)
    requires SelfDelimiting(c) && Consistent(c, s) && NonNegativeTimes(mintime, maxtime)
    requires Hashed(valu) && pk in s.rows
    requires Admits(c, s.rows[pk], prop, Some(valu), mintime, maxtime)
    ensures Encodable(Some(valu), mintime, maxtime)
    ensures IndexEntry(c, PvtTable, pk, s.rows[pk]) in ScanItems(c, s, prop, Some(valu), None, mintime, maxtime)
    ensures s.rows[pk].valu != valu ==>
      s.rows[pk].valu.StrVal? && c.xxh64(s.rows[pk].valu.s) == c.xxh64(valu.s)
  {
    var x := IndexEntry(c, PvtTable, pk, s.rows[pk]);
    assert x in TableOf(s, PvtTable);
    ScanFinds(c, s, prop, Some(valu), mintime, maxtime, x);
    if s.rows[pk].valu != valu {
      ValKeyCollision(c, s.rows[pk].valu, valu);
    }
  }

  /** The scan with the intended re-check: for a hashed value each row is
      read and compared with the value; a row holding another value is
      skipped without being counted, and the cursor moves on. */
  function CheckedWalk(s: Store, items: seq<Entry>, valu: Value, limit: Option<int>, count: nat): (r: Result<seq<Entry>, Error>)
    ensures r.Success? ==> forall x :: x in r.value ==> x in items && GetRow(s, x.val).Success? && GetRow(s, x.val).value.valu == valu
    ensures r.Success? && limit.None? ==>
      forall x :: x in items && GetRow(s, x.val).Success? && GetRow(s, x.val).value.valu == valu ==> x in r.value
    ensures r.Success? && limit.Some? && limit.value >= count + 1 ==> |r.value| <= limit.value - count
    decreases |items|
  {
    if |items| == 0 then Success([])
    else
      var row := GetRow(s, items[0].val);
      assert forall x :: x in items <==> x == items[0] || x in items[1..];
      if row.Failure? then Failure(row.error)
      else if row.value.valu != valu then CheckedWalk(s, items[1..], valu, limit, count)
      else if Reached(limit, count + 1) then Success([items[0]])
      else
        var rest := CheckedWalk(s, items[1..], valu, limit, count + 1);
        if rest.Failure? then rest else Success([items[0]] + rest.value)
  }

  /** `_getRowsByProp` listing or counting with the re-check in place: the
      rows of a hashed value are read and compared whether listing or
      counting; other values are taken as the key finds them. */
  function GetRowsByPropChecked(c: Codec, s: Store, prop: string, valu: Option<Value>, limit: Option<int>, mintime: Option<int>,
                                maxtime: Option<int>, countOnly: bool): (r: Result<Answer, Error>)
    ensures r == Failure(IntTooLarge) <==> !Encodable(valu, mintime, maxtime)
    ensures r.Success? ==> r.value.Count? == countOnly
    ensures !(valu.Some? && Hashed(valu.value)) ==> r == GetRowsByProp(c, s, prop, valu, limit, mintime, maxtime, countOnly)
  {
    if !Encodable(valu, mintime, maxtime) then Failure(IntTooLarge)
    else if valu.Some? && Hashed(valu.value) then
      var items := ScanItems(c, s, prop, valu, None, mintime, maxtime);
      var checked := CheckedWalk(s, items, valu.value, limit, 0);
      if checked.Failure? then
        assert checked.error != IntTooLarge by {
          CheckedWalkFails(s, items, valu.value, limit, 0);
        }
        Failure(checked.error)
      else
        var r := Finish(s, checked.value, countOnly);
        assert r != Failure(IntTooLarge) by {
          if r.Failure? {
            ReadRowsMeaning(s, checked.value);
          }
        }
        r
    else GetRowsByProp(c, s, prop, valu, limit, mintime, maxtime, countOnly)
  }

  /** The re-checking walk fails only on an item whose row cannot be read. */
  lemma {:induction false} CheckedWalkFails(s: Store, items: seq<Entry>, valu: Value, limit: Option<int>, count: nat)
    ensures var r := CheckedWalk(s, items, valu, limit, count);
      r.Failure? ==> exists x :: x in items && GetRow(s, x.val) == Failure(r.error)
    decreases |items|
  {
    if |items| > 0 {
      CheckedWalkFails(s, items[1..], valu, limit, count);
      CheckedWalkFails(s, items[1..], valu, limit, count + 1);
      assert forall x :: x in items[1..] ==> x in items;
    }
  }

  /** The stored rows can all be read back (their idens are UUID_SIZE bytes). */
  ghost predicate Readable(s: Store)
  {
    forall pk :: pk in s.rows ==> |s.rows[pk].iden| == UUID_SIZE
  }

  /** With the re-check, on a consistent store and without a limit, the items
      taken are exactly those of the rows with the prop, the very value given
      and a time in the window. */
  lemma CheckedFinds(c: Codec, s: Store, prop: string, valu: Value, mintime: Option<int>, maxtime: Option<int>, x: Entry)
    requires SelfDelimiting(c) && Consistent(c, s) && Readable(s)
    requires Encodable(Some(valu), mintime, maxtime) && NonNegativeTimes(mintime, maxtime) && Hashed(valu)
    ensures var r := CheckedWalk(s, ScanItems(c, s, prop, Some(valu), None, mintime, maxtime), valu, None, 0);
      r.Success? && (x in r.value <==>
        x in s.pvt && AdmittedItem(c, s, x, prop, Some(valu), mintime, maxtime) && GetRow(s, x.val).value.valu == valu)
  {
    var items := ScanItems(c, s, prop, Some(valu), None, mintime, maxtime);
    var r := CheckedWalk(s, items, valu, None, 0);
    forall y | y in items
      ensures GetRow(s, y.val).Success?
    {
      ScanFinds(c, s, prop, Some(valu), mintime, maxtime, y);
      assert PointsAt(c, s, PvtTable, y);
    }
    CheckedWalkSucceeds(s, items, valu, None, 0);
    ScanFinds(c, s, prop, Some(valu), mintime, maxtime, x);
  }

  /** The re-checking walk goes through when every item's row can be read. */
  lemma {:induction false} CheckedWalkSucceeds(s: Store, items: seq<Entry>, valu: Value, limit: Option<int>, count: nat)
    requires forall x :: x in items ==> GetRow(s, x.val).Success?
    ensures CheckedWalk(s, items, valu, limit, count).Success?
    decreases |items|
  {
    if |items| > 0 {
      assert items[0] in items;
      assert forall x :: x in items[1..] ==> x in items;
      CheckedWalkSucceeds(s, items[1..], valu, limit, count);
      CheckedWalkSucceeds(s, items[1..], valu, limit, count + 1);
    }
  }

  // --------------------------------------------------------------- deleting

  /** What `_getRowsByProp` hands `_delRowAndIndices` when deleting: the
      packed prop, and the two indices other than the scanned one (whose
      item the cursor has already deleted). */
  function DelGiven(pEnc: bytes): Given
  {
    Given(None, Some(pEnc), None, None)
  }

  function DelTargets(valu: Option<Value>): (del: Targets)
    ensures !Targeted(del, ScanTable(valu))
  {
    Targets(true, valu.None?, valu.Some?)
  }

  /** The delete loop of `_getRowsByProp`: while the item under the cursor
      is below the last key, delete it through the cursor, then delete its
      row (only if its value is the one given) and the row's items in the
      other indices. The cursor then rests on the next item; since nothing
      else touches the scanned index, that is the `set_range(first)` item of
      the shrunken index. Any failure aborts the write transaction. */
  function DeleteScan(c: Codec, s: Store, first: bytes, last: bytes, pEnc: bytes, valu: Option<Value>, limit: Option<int>,
                      count: nat): (r: Result<Store, Error>)
    ensures r.Success? ==> r.value.nextPk == s.nextPk && r.value.rows.Keys <= s.rows.Keys
    decreases |TableOf(s, ScanTable(valu))|
  {
    var t := ScanTable(valu);
    var idx := TableOf(s, t);
    var j := SetRange(idx, first);
    if j == |idx| || LessEq(last, idx[j].key) then Success(s)
    else
      var x := idx[j];
      var cut := WithTable(s, t, Remove(idx, x));
      var d := DelRowAndIndices(c, cut, x.val, DelGiven(pEnc), DelTargets(valu), valu);
      if d.Failure? then Failure(d.error)
      else
        assert TableOf(d.value.0, t) == TableOf(cut, t) by {
          if valu.None? { assert t == PtTable; } else { assert t == PvtTable; }
        }
        if Reached(limit, count + 1) then Success(d.value.0)
        else DeleteScan(c, d.value.0, first, last, pEnc, valu, limit, count + 1)
  }

  /** `_delRowsByProp` (`_getRowsByProp` in delete mode): the store after
      the rows of the window are deleted. */
  function DelRowsByProp(c: Codec, s: Store, prop: string, valu: Option<Value>, mintime: Option<int>, maxtime: Option<int>,
                         limit: Option<int>): (r: Result<Store, Error>)
    ensures !Encodable(valu, mintime, maxtime) ==> r == Failure(IntTooLarge)
    ensures r.Success? ==> r.value.nextPk == s.nextPk && r.value.rows.Keys <= s.rows.Keys
  {
    if !Encodable(valu, mintime, maxtime) then Failure(IntTooLarge)
    else DeleteScan(c, s, FirstKey(c, prop, valu, mintime, maxtime), LastKey(c, prop, valu, mintime, maxtime), c.packStr(prop),
                    valu, limit, 0)
  }

  /** `_delRowsByProp`, which passes no limit, on a consistent store whose
      rows can all be read, for no value or a value that is not hashed: the
      call succeeds, the rows left are exactly those the window does not
      admit, and the store stays consistent. */
  lemma DelRowsByPropRemovesAdmitted(c: Codec, s: Store, prop: string, valu: Option<Value>, mintime: Option<int>,
                                     maxtime: Option<int>)
    requires SelfDelimiting(c) && Consistent(c, s) && Readable(s)
    requires Encodable(valu, mintime, maxtime) && NonNegativeTimes(mintime, maxtime)
    requires valu.None? || !Hashed(valu.value)
    ensures var r := DelRowsByProp(c, s, prop, valu, mintime, maxtime, None);
      r.Success? && r.value.rows == Survivors(c, s.rows, prop, valu, mintime, maxtime) && Consistent(c, r.value)
  {
    DeleteScanSurvivors(c, s, prop, valu, mintime, maxtime, 0);
  }

  /** The rows that survive deleting a window: those it does not admit. */
  ghost function Survivors(c: Codec, m: map<uint64, StoredRow>, prop: string, valu: Option<Value>, mintime: Option<int>,
                           maxtime: Option<int>): (r: map<uint64, StoredRow>)
    requires valu.None? || KeyEncodable(valu.value)
  {
    map pk | pk in m && !Admits(c, m[pk], prop, valu, mintime, maxtime) :: m[pk]
  }

  /** Deleting one admitted row the cursor has reached: with its item gone
      from the scanned index, `_delRowAndIndices` finds the row, its value
      matches, its other two items are there, and the store is consistent
      again without the row. */
  lemma CursorDeleteStep(c: Codec, s: Store, prop: string, valu: Option<Value>, x: Entry)
    requires Consistent(c, s) && Readable(s)
    requires x in TableOf(s, ScanTable(valu)) && PkOf(x.val).Some?
    requires PkOf(x.val).value in s.rows && s.rows[PkOf(x.val).value].prop == prop
    requires valu.None? || valu.value == s.rows[PkOf(x.val).value].valu
    ensures var t := ScanTable(valu);
      var d := DelRowAndIndices(c, WithTable(s, t, Remove(TableOf(s, t), x)), x.val, DelGiven(c.packStr(prop)), DelTargets(valu), valu);
      d.Success? && d.value.0.rows == s.rows - {PkOf(x.val).value} && Consistent(c, d.value.0)
  {
    var t := ScanTable(valu);
    var pk := PkOf(x.val).value;
    var rec := s.rows[pk];
    assert PointsAt(c, s, t, x);
    assert x == IndexEntry(c, t, pk, rec);
    var cut := WithTable(s, t, Remove(TableOf(s, t), x));
    var given, del := DelGiven(c.packStr(prop)), DelTargets(valu);
    PkOfPacked(pk);
    DelRowMatching(c, cut, pk, given, del, valu);
    var items := DelItems(c, given, rec, PackInt(pk));
    DelItemsOfRecord(c, rec, pk);
    assert items == DelItems(c, NothingGiven, rec, PackInt(pk));
    assert IndexEntry(c, IpTable, pk, rec) in TableOf(s, IpTable);
    assert IndexEntry(c, PvtTable, pk, rec) in TableOf(s, PvtTable);
    assert IndexEntry(c, PtTable, pk, rec) in TableOf(s, PtTable);
    assert items.At(IpTable) == items.ip && items.At(PvtTable) == items.pvt && items.At(PtTable) == items.pt;
    var popped := cut.(rows := cut.rows - {pk});
    var d := DelIndices(popped, del, items);
    assert d.Success?;
    forall u
      ensures forall y :: y in TableOf(d.value, u) <==> y in TableOf(s, u) && y != IndexEntry(c, u, pk, rec)
    {
      match u
      case IpTable => assert TableOf(d.value, u) == d.value.ip;
      case PvtTable => assert TableOf(d.value, u) == d.value.pvt;
      case PtTable => assert TableOf(d.value, u) == d.value.pt;
    }
    RemoveRowKeepsConsistent(c, s, pk, d.value);
  }

  /** Where the delete loop stops, no item of the index is in the window. */
  lemma StopLeavesNothing(idx: Index, first: bytes, last: bytes)
    requires var j := SetRange(idx, first); j == |idx| || LessEq(last, idx[j].key)
    ensures forall y :: y in idx ==> !InForward(first, Below(last), y.key)
  {
    var j := SetRange(idx, first);
    forall i | 0 <= i < |idx|
      ensures !InForward(first, Below(last), idx[i].key)
    {
      if i < j {
        LessAsymmetric(idx[i].key, first);
        LessIrreflexive(first);
      } else {
        SortedKeys(idx, j, i);
        LessEqTransitive(last, idx[j].key, idx[i].key);
      }
    }
  }

  /** A value that is not hashed is the only value with its key. */
  lemma UnhashedKeyUnique(c: Codec, v: Value, w: Value)
    requires SelfDelimiting(c) && KeyEncodable(v) && KeyEncodable(w) && !Hashed(w)
    requires EncValKey(c, v) == EncValKey(c, w)
    ensures v == w
  {
    ValKeyCollision(c, v, w);
  }

  /** `_delRowsByProp` on a consistent store whose rows can all be read,
      without a limit and with no value or a value that is not hashed:
      the rows the window admits are deleted, every other row stays, and
      the store is left consistent. */
  lemma {:induction false} DeleteScanSurvivors(c: Codec, s: Store, prop: string, valu: Option<Value>, mintime: Option<int>,
                                               maxtime: Option<int>, count: nat)
    requires SelfDelimiting(c) && Consistent(c, s) && Readable(s)
    requires Encodable(valu, mintime, maxtime) && NonNegativeTimes(mintime, maxtime)
    requires valu.None? || !Hashed(valu.value)
    ensures var r := DeleteScan(c, s, FirstKey(c, prop, valu, mintime, maxtime), LastKey(c, prop, valu, mintime, maxtime),
                                c.packStr(prop), valu, None, count);
      r.Success? && r.value.rows == Survivors(c, s.rows, prop, valu, mintime, maxtime) && Consistent(c, r.value)
    decreases |TableOf(s, ScanTable(valu))|
  {
    var t, first, last := ScanTable(valu), FirstKey(c, prop, valu, mintime, maxtime), LastKey(c, prop, valu, mintime, maxtime);
    var idx := TableOf(s, t);
    var j := SetRange(idx, first);
    if j == |idx| || LessEq(last, idx[j].key) {
      NothingAdmitted(c, s, prop, valu, mintime, maxtime);
    } else {
      var x := idx[j];
      AdmittedAtCursor(c, s, prop, valu, mintime, maxtime);
      var pk := PkOf(x.val).value;
      CursorDeleteStep(c, s, prop, valu, x);
      var d := DelRowAndIndices(c, WithTable(s, t, Remove(idx, x)), x.val, DelGiven(c.packStr(prop)), DelTargets(valu), valu);
      var s2 := d.value.0;
      assert DeleteScan(c, s, first, last, c.packStr(prop), valu, None, count)
          == DeleteScan(c, s2, first, last, c.packStr(prop), valu, None, count + 1);
      DeleteScanSurvivors(c, s2, prop, valu, mintime, maxtime, count + 1);
      SurvivorsWithout(c, s.rows, pk, prop, valu, mintime, maxtime);
    }
  }

  /** When the loop stops at once, the window admits no row of a consistent
      store. */
  lemma NothingAdmitted(c: Codec, s: Store, prop: string, valu: Option<Value>, mintime: Option<int>, maxtime: Option<int>)
    requires SelfDelimiting(c) && Consistent(c, s)
    requires Encodable(valu, mintime, maxtime) && NonNegativeTimes(mintime, maxtime)
    requires var idx, j := TableOf(s, ScanTable(valu)), SetRange(TableOf(s, ScanTable(valu)), FirstKey(c, prop, valu, mintime, maxtime));
      j == |idx| || LessEq(LastKey(c, prop, valu, mintime, maxtime), idx[j].key)
    ensures Survivors(c, s.rows, prop, valu, mintime, maxtime) == s.rows
  {
    var t, first, last := ScanTable(valu), FirstKey(c, prop, valu, mintime, maxtime), LastKey(c, prop, valu, mintime, maxtime);
    StopLeavesNothing(TableOf(s, t), first, last);
    forall pk | pk in s.rows
      ensures !Admits(c, s.rows[pk], prop, valu, mintime, maxtime)
    {
      assert IndexEntry(c, t, pk, s.rows[pk]) in TableOf(s, t);
      ItemInWindow(c, s.rows[pk], prop, valu, mintime, maxtime);
    }
  }

  /** The item the loop reaches, when it is inside the window, is the item
      of a row the window admits, and (for a value that is not hashed) the
      row holds the very value given. */
  lemma AdmittedAtCursor(c: Codec, s: Store, prop: string, valu: Option<Value>, mintime: Option<int>, maxtime: Option<int>)
    requires SelfDelimiting(c) && Consistent(c, s)
    requires Encodable(valu, mintime, maxtime) && NonNegativeTimes(mintime, maxtime)
    requires valu.None? || !Hashed(valu.value)
    requires var idx, j := TableOf(s, ScanTable(valu)), SetRange(TableOf(s, ScanTable(valu)), FirstKey(c, prop, valu, mintime, maxtime));
      j < |idx| && !LessEq(LastKey(c, prop, valu, mintime, maxtime), idx[j].key)
    ensures var idx := TableOf(s, ScanTable(valu));
      var x := idx[SetRange(idx, FirstKey(c, prop, valu, mintime, maxtime))];
      && PkOf(x.val).Some? && PkOf(x.val).value in s.rows
      && Admits(c, s.rows[PkOf(x.val).value], prop, valu, mintime, maxtime)
      && (valu.None? || valu.value == s.rows[PkOf(x.val).value].valu)
  {
    var t, first := ScanTable(valu), FirstKey(c, prop, valu, mintime, maxtime);
    var idx := TableOf(s, t);
    var x := idx[SetRange(idx, first)];
    assert PointsAt(c, s, t, x);
    var rec := s.rows[PkOf(x.val).value];
    ItemInWindow(c, rec, prop, valu, mintime, maxtime);
    if valu.Some? {
      UnhashedKeyUnique(c, rec.valu, valu.value);
    }
  }

  /** Deleting an admitted row does not change which rows survive. */
  lemma SurvivorsWithout(c: Codec, m: map<uint64, StoredRow>, pk: uint64, prop: string, valu: Option<Value>,
                         mintime: Option<int>, maxtime: Option<int>)
    requires valu.None? || KeyEncodable(valu.value)
    requires pk in m && Admits(c, m[pk], prop, valu, mintime, maxtime)
    ensures Survivors(c, m - {pk}, prop, valu, mintime, maxtime) == Survivors(c, m, prop, valu, mintime, maxtime)
  {
  }
}
