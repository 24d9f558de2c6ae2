/** Reading a row back through an index item, and `_delRowAndIndices`
    (synapse/cores/lmdb.py), which pops a row and the index items that
    point at it. */
module RowRemoval {
  import opened Wrappers
  import opened Bytes
  import opened MsgPack
  import opened LmdbCodec
  import opened SortedIndex
  import opened RowStore

  // --------------------------------------------------------------- reading

  /** Decoding a record: the first UUID_SIZE bytes are hexlified back into
      the iden, the rest unpacks into prop, value and time. */
  function ReadRow(rec: StoredRow): (r: Result<Row, Error>)
    ensures r.Success? <==> |rec.iden| == UUID_SIZE
    ensures r.Success? ==> EncIden(r.value.iden) == Some(rec.iden)
    ensures r.Success? ==> r.value.prop == rec.prop && r.value.valu == rec.valu && r.value.time == rec.time
  {
    if |rec.iden| != UUID_SIZE then Failure(UnreadableRow)
    else
      IdenBytesRoundTrip(rec.iden);
      Success(Row(DecIden(rec.iden), rec.prop, rec.valu, rec.time))
  }

  /** `_getRowByPkValEnc` without deleting: unpack the primary key an index
      item holds and read its row. */
  function GetRow(s: Store, pkVal: bytes): (r: Result<Row, Error>)
    ensures r == Failure(BadPkVal) <==> PkOf(pkVal).None?
    ensures r == Failure(MissingRow) <==> PkOf(pkVal).Some? && PkOf(pkVal).value !in s.rows
    ensures r.Success? <==>
      PkOf(pkVal).Some? && PkOf(pkVal).value in s.rows && |s.rows[PkOf(pkVal).value].iden| == UUID_SIZE
  {
    match PkOf(pkVal)
    case None => Failure(BadPkVal)
    case Some(pk) =>
      if pk !in s.rows then Failure(MissingRow)
      else ReadRow(s.rows[pk])
  }

  /** A row added with a 32-digit lower-case hex iden reads back, through
      the packed primary key its index items hold, as the row that was
      added. */
  lemma AddRowsThenGetRow(c: Codec, s: Store, rows: seq<Row>, i: nat, added: Store)
    requires AddRows(c, s, rows) == Success(added) && i < |rows|
    requires |rows[i].iden| == 2 * UUID_SIZE && IsLowerHex(rows[i].iden)
    ensures s.nextPk + i < UINT64_LIMIT
    ensures GetRow(added, PackInt(s.nextPk + i)) == Success(rows[i])
  {
    AddedRowWritten(c, s, rows, i, added);
    WrittenRowReads(added, s.nextPk, rows, i);
  }

  /** A row written from a 32-digit lower-case hex iden reads back as itself. */
  lemma WrittenRowReads(s: Store, pk: nat, rows: seq<Row>, i: nat)
    requires WrittenAt(s.rows, pk, rows, i)
    requires |rows[i].iden| == 2 * UUID_SIZE && IsLowerHex(rows[i].iden)
    ensures pk + i < UINT64_LIMIT
    ensures GetRow(s, PackInt(pk + i)) == Success(rows[i])
  {
    PkOfPacked((pk + i) as uint64);
    IdenRoundTrip(rows[i].iden);
  }

  // -------------------------------------------------------------- deleting

  /** The encodings a caller of `_delRowAndIndices` already has: the iden
      bytes, the packed prop, the value key and the packed time. */
  datatype Given = Given(iden: Option<bytes>, prop: Option<bytes>, valKey: Option<bytes>, time: Option<bytes>)

  /** Which of the three indices to delete the row's item from. */
  datatype Targets = Targets(ip: bool, pvt: bool, pt: bool)

  const NothingGiven: Given := Given(None, None, None, None)
  const AllIndices: Targets := Targets(true, true, true)

  predicate Targeted(del: Targets, t: Table)
  {
    match t
    case IpTable => del.ip
    case PvtTable => del.pvt
    case PtTable => del.pt
  }

  function OrElse(x: Option<bytes>, y: bytes): bytes
  {
    if x.Some? then x.value else y
  }

  /** The key `_delRowAndIndices` deletes in index `t`, built from the given
      encodings where there are any and from the row read back otherwise. */
  function DelKey(c: Codec, t: Table, given: Given, row: Row): bytes
    requires ValuePackable(row.valu) && Packable(row.time)
  {
    var iEnc := OrElse(given.iden, if EncIden(row.iden).Some? then EncIden(row.iden).value else []);
    var pEnc := OrElse(given.prop, c.packStr(row.prop));
    var vKey := OrElse(given.valKey, EncValKey(c, row.valu));
    var tEnc := OrElse(given.time, PackInt(row.time));
    match t
    case IpTable => iEnc + pEnc
    case PvtTable => pEnc + vKey + tEnc
    case PtTable => pEnc + tEnc
  }

  /** With nothing given, the key deleted is the key the row was indexed
      under. */
  lemma DelKeyOfRecord(c: Codec, t: Table, rec: StoredRow)
    requires ReadRow(rec).Success?
    ensures DelKey(c, t, NothingGiven, ReadRow(rec).value) == IndexKey(c, t, rec)
  {
  }

  /** `txn.delete(key, value=pk_val_enc, db=index)`, which has to find the
      item or the store is inconsistent. */
  function DeleteItem(s: Store, t: Table, e: Entry): (r: Result<Store, Error>)
    ensures r.Failure? <==> e !in TableOf(s, t)
    ensures r.Failure? ==> r.error == MissingIndex(t)
    ensures r.Success? ==> forall x :: x in TableOf(r.value, t) <==> x in TableOf(s, t) && x != e
    ensures r.Success? ==> |TableOf(r.value, t)| == |TableOf(s, t)| - 1
    ensures r.Success? ==> r.value.rows == s.rows && r.value.nextPk == s.nextPk
    ensures r.Success? ==> forall u :: u != t ==> TableOf(r.value, u) == TableOf(s, u)
  {
    if e in TableOf(s, t) then Success(WithTable(s, t, Remove(TableOf(s, t), e)))
    else Failure(MissingIndex(t))
  }

  /** One item for each index. */
  datatype PerTable = PerTable(ip: Entry, pvt: Entry, pt: Entry) {
    function At(t: Table): Entry
    {
      match t
      case IpTable => ip
      case PvtTable => pvt
      case PtTable => pt
    }
  }

  /** The order in which `_delRowAndIndices` visits the indices. */
  function TableRank(t: Table): nat
  {
    match t
    case IpTable => 0
    case PvtTable => 1
    case PtTable => 2
  }

  /** Delete the item from index `t` when it is targeted. */
  function DeleteIf(s: Store, del: Targets, t: Table, e: Entry): (r: Result<Store, Error>)
    ensures r.Failure? <==> Targeted(del, t) && e !in TableOf(s, t)
    ensures r.Failure? ==> r.error == MissingIndex(t)
    ensures r.Success? ==> forall x :: x in TableOf(r.value, t) <==> x in TableOf(s, t) && !(Targeted(del, t) && x == e)
    ensures r.Success? ==> r.value.rows == s.rows && r.value.nextPk == s.nextPk
    ensures r.Success? ==> forall u :: u != t ==> TableOf(r.value, u) == TableOf(s, u)
    ensures r.Success? && !Targeted(del, t) ==> r.value == s
  {
    if Targeted(del, t) then DeleteItem(s, t, e) else Success(s)
  }

  /** The three index deletions of `_delRowAndIndices`, in the order ip,
      pvt, pt: they all go through exactly when every targeted index holds
      its item, and otherwise the first targeted index lacking its item is
      reported. */
  function DelIndices(s: Store, del: Targets, items: PerTable): (r: Result<Store, Error>)
    ensures r.Success? <==>
      (del.ip ==> items.ip in s.ip) && (del.pvt ==> items.pvt in s.pvt) && (del.pt ==> items.pt in s.pt)
    ensures r == Failure(MissingIndex(IpTable)) <==> del.ip && items.ip !in s.ip
    ensures r == Failure(MissingIndex(PvtTable)) <==>
      (del.ip ==> items.ip in s.ip) && del.pvt && items.pvt !in s.pvt
    ensures r == Failure(MissingIndex(PtTable)) <==>
      (del.ip ==> items.ip in s.ip) && (del.pvt ==> items.pvt in s.pvt) && del.pt && items.pt !in s.pt
    ensures r.Success? ==> forall x :: x in r.value.ip <==> x in s.ip && !(del.ip && x == items.ip)
    ensures r.Success? ==> forall x :: x in r.value.pvt <==> x in s.pvt && !(del.pvt && x == items.pvt)
    ensures r.Success? ==> forall x :: x in r.value.pt <==> x in s.pt && !(del.pt && x == items.pt)
    ensures r.Success? ==> r.value.rows == s.rows && r.value.nextPk == s.nextPk
    ensures r.Success? ==>
      (!del.ip ==> r.value.ip == s.ip) && (!del.pvt ==> r.value.pvt == s.pvt) && (!del.pt ==> r.value.pt == s.pt)
  {
    var r1 := DeleteIf(s, del, IpTable, items.ip);
    if r1.Failure? then Failure(r1.error)
    else
      var r2 := DeleteIf(r1.value, del, PvtTable, items.pvt);
      if r2.Failure? then Failure(r2.error)
      else DeleteIf(r2.value, del, PtTable, items.pt)
  }

  /** `_delRowAndIndices`: pop the row the item value `pkVal` points at,
      then (unless `onlyIfVal` names a different value, in which case it
      answers false with the row already gone) delete its item from each
      targeted index in the order ip, pvt, pt, answering true. Any failure
      aborts the write transaction, so the store is left as it was. */
  function DelRowAndIndices(c: Codec, s: Store, pkVal: bytes, given: Given, del: Targets, onlyIfVal: Option<Value>)
    : (r: Result<(Store, bool), Error>)
    ensures r == Failure(BadPkVal) <==> PkOf(pkVal).None?
    ensures r == Failure(MissingRow) <==> PkOf(pkVal).Some? && PkOf(pkVal).value !in s.rows
    ensures r.Success? ==>
      PkOf(pkVal).Some? && r.value.0.rows == s.rows - {PkOf(pkVal).value} && r.value.0.nextPk == s.nextPk
    ensures r.Success? ==>
      (r.value.1 <==> onlyIfVal.None? || onlyIfVal.value == s.rows[PkOf(pkVal).value].valu)
    ensures r.Success? && !r.value.1 ==>
      r.value.0.ip == s.ip && r.value.0.pvt == s.pvt && r.value.0.pt == s.pt
    ensures r.Success? ==>
      && (!del.ip ==> r.value.0.ip == s.ip)
      && (!del.pvt ==> r.value.0.pvt == s.pvt)
      && (!del.pt ==> r.value.0.pt == s.pt)
  {
    match PkOf(pkVal)
    case None => Failure(BadPkVal)
    case Some(pk) =>
      if pk !in s.rows then Failure(MissingRow)
      else
        var popped := s.(rows := s.rows - {pk});
        var row :- ReadRow(s.rows[pk]);
        if onlyIfVal.Some? && onlyIfVal.value != row.valu then Success((popped, false))
        else
          var items := DelItems(c, given, s.rows[pk], pkVal);
          var s3 :- DelIndices(popped, del, items);
          Success((s3, true))
  }

  /** The items `_delRowAndIndices` deletes for the record `rec`. */
  function DelItems(c: Codec, given: Given, rec: StoredRow, pkVal: bytes): PerTable
    requires |rec.iden| == UUID_SIZE
  {
    var row := ReadRow(rec).value;
    PerTable(Entry(DelKey(c, IpTable, given, row), pkVal),
             Entry(DelKey(c, PvtTable, given, row), pkVal),
             Entry(DelKey(c, PtTable, given, row), pkVal))
  }

  /** With nothing given, the items deleted are the row's own index items. */
  lemma DelItemsOfRecord(c: Codec, rec: StoredRow, pk: uint64)
    requires |rec.iden| == UUID_SIZE
    ensures forall t :: DelItems(c, NothingGiven, rec, PackInt(pk)).At(t) == IndexEntry(c, t, pk, rec)
  {
    forall t
      ensures DelItems(c, NothingGiven, rec, PackInt(pk)).At(t) == IndexEntry(c, t, pk, rec)
    {
      DelKeyOfRecord(c, t, rec);
    }
  }

  /** When the row is there and readable and its value matches, the answer
      is exactly the outcome of the index deletions on the popped store. */
  lemma DelRowMatching(c: Codec, s: Store, pk: uint64, given: Given, del: Targets, onlyIfVal: Option<Value>)
    requires pk in s.rows && |s.rows[pk].iden| == UUID_SIZE
    requires onlyIfVal.None? || onlyIfVal.value == s.rows[pk].valu
    ensures var d := DelIndices(s.(rows := s.rows - {pk}), del, DelItems(c, given, s.rows[pk], PackInt(pk)));
      DelRowAndIndices(c, s, PackInt(pk), given, del, onlyIfVal) == if d.Success? then Success((d.value, true)) else Failure(d.error)
  {
    PkOfPacked(pk);
  }

  /** Deleting a row of a consistent store together with its item in every
      index (nothing given, every index targeted, the value matching)
      succeeds, answers true and leaves the store consistent. */
  lemma DelRowConsistent(c: Codec, s: Store, pk: uint64, onlyIfVal: Option<Value>)
    requires Consistent(c, s) && pk in s.rows && |s.rows[pk].iden| == UUID_SIZE
    requires onlyIfVal.None? || onlyIfVal.value == s.rows[pk].valu
    ensures var r := DelRowAndIndices(c, s, PackInt(pk), NothingGiven, AllIndices, onlyIfVal);
      r.Success? && r.value.1 && r.value.0.rows == s.rows - {pk} && Consistent(c, r.value.0)
  {
    DelRowMatching(c, s, pk, NothingGiven, AllIndices, onlyIfVal);
    DelOwnItemsConsistent(c, s, pk);
  }

  /** Deleting a row's own items from every index of a consistent store with
      the row already popped goes through and gives a consistent store. */
  lemma DelOwnItemsConsistent(c: Codec, s: Store, pk: uint64)
    requires Consistent(c, s) && pk in s.rows && |s.rows[pk].iden| == UUID_SIZE
    ensures var d := DelIndices(s.(rows := s.rows - {pk}), AllIndices, DelItems(c, NothingGiven, s.rows[pk], PackInt(pk)));
      d.Success? && Consistent(c, d.value)
  {
    var rec := s.rows[pk];
    var popped := s.(rows := s.rows - {pk});
    var items := DelItems(c, NothingGiven, rec, PackInt(pk));
    DelItemsOfRecord(c, rec, pk);
    assert IndexEntry(c, IpTable, pk, rec) in TableOf(s, IpTable);
    assert IndexEntry(c, PvtTable, pk, rec) in TableOf(s, PvtTable);
    assert IndexEntry(c, PtTable, pk, rec) in TableOf(s, PtTable);
    assert items.At(IpTable) == items.ip && items.At(PvtTable) == items.pvt && items.At(PtTable) == items.pt;
    var d := DelIndices(popped, AllIndices, items);
    assert d.Success?;
    forall t
      ensures forall x :: x in TableOf(d.value, t) <==> x in TableOf(s, t) && x != IndexEntry(c, t, pk, rec)
    {
      match t
      case IpTable => assert TableOf(d.value, t) == d.value.ip;
      case PvtTable => assert TableOf(d.value, t) == d.value.pvt;
      case PtTable => assert TableOf(d.value, t) == d.value.pt;
    }
    RemoveRowKeepsConsistent(c, s, pk, d.value);
  }

  /** Taking one row and exactly its item in each index out of a consistent
      store leaves it consistent. */
  lemma RemoveRowKeepsConsistent(c: Codec, s: Store, pk: uint64, s': Store)
    requires Consistent(c, s) && pk in s.rows
    requires s'.rows == s.rows - {pk} && s'.nextPk == s.nextPk
    requires forall t, x :: x in TableOf(s', t) <==> x in TableOf(s, t) && x != IndexEntry(c, t, pk, s.rows[pk])
    ensures Consistent(c, s')
  {
    forall q, t | q in s'.rows
      ensures IndexEntry(c, t, q, s'.rows[q]) in TableOf(s', t)
    {
      if IndexEntry(c, t, q, s'.rows[q]) == IndexEntry(c, t, pk, s.rows[pk]) {
        PackedPkInjective(q, pk);
      }
    }
    forall t, e | e in TableOf(s', t)
      ensures PointsAt(c, s', t, e)
    {
      assert PointsAt(c, s, t, e);
    }
  }

  /** The trap in `_delRowAndIndices`: the row is popped before the value is
      compared, so on a mismatch the row is gone while its index items stay,
      and a consistent store is left inconsistent (its ip item points at
      nothing). */
  lemma DelMismatchBreaksConsistency(c: Codec, s: Store, pk: uint64, given: Given, del: Targets, v: Value)
    requires Consistent(c, s) && pk in s.rows && |s.rows[pk].iden| == UUID_SIZE
    requires v != s.rows[pk].valu
    ensures var r := DelRowAndIndices(c, s, PackInt(pk), given, del, Some(v));
      r.Success? && !r.value.1 && pk !in r.value.0.rows && !Consistent(c, r.value.0)
  {
    PkOfPacked(pk);
    var r := DelRowAndIndices(c, s, PackInt(pk), given, del, Some(v));
    var e := IndexEntry(c, IpTable, pk, s.rows[pk]);
    assert e in TableOf(s, IpTable);
    assert e in TableOf(r.value.0, IpTable);
    assert !PointsAt(c, r.value.0, IpTable, e);
  }

  /** `_delRowAndIndices` with the value compared before the row is popped,
      as its `only_if_val` evidently intends: on a mismatch nothing is
      deleted. */
  function DelRowAndIndicesChecked(c: Codec, s: Store, pkVal: bytes, given: Given, del: Targets, onlyIfVal: Option<Value>)
    : (r: Result<(Store, bool), Error>)
    ensures r.Success? ==> PkOf(pkVal).Some? && PkOf(pkVal).value in s.rows
    ensures r.Success? ==> (r.value.1 <==> onlyIfVal.None? || onlyIfVal.value == s.rows[PkOf(pkVal).value].valu)
    ensures r.Success? && !r.value.1 ==> r.value.0 == s
    ensures r.Success? && r.value.1 ==> r == DelRowAndIndices(c, s, pkVal, given, del, onlyIfVal)
  {
    match PkOf(pkVal)
    case None => Failure(BadPkVal)
    case Some(pk) =>
      if pk !in s.rows then Failure(MissingRow)
      else
        var row :- ReadRow(s.rows[pk]);
        if onlyIfVal.Some? && onlyIfVal.value != row.valu then Success((s, false))
        else DelRowAndIndices(c, s, pkVal, given, del, onlyIfVal)
  }

  /** With the comparison first, deleting a row of a consistent store (its
      own items, every index targeted) keeps the store consistent whether or
      not the value matches, and the row goes exactly when it matches. */
  lemma DelCheckedKeepsConsistent(c: Codec, s: Store, pk: uint64, onlyIfVal: Option<Value>)
    requires Consistent(c, s) && pk in s.rows && |s.rows[pk].iden| == UUID_SIZE
    ensures var r := DelRowAndIndicesChecked(c, s, PackInt(pk), NothingGiven, AllIndices, onlyIfVal);
      && r.Success? && Consistent(c, r.value.0)
      && (pk in r.value.0.rows <==> onlyIfVal.Some? && onlyIfVal.value != s.rows[pk].valu)
  {
    PkOfPacked(pk);
    if onlyIfVal.None? || onlyIfVal.value == s.rows[pk].valu {
      DelRowConsistent(c, s, pk, onlyIfVal);
    }
  }
}
