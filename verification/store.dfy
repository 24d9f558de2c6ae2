/** The row store's four tables and the operations that write them:
    `_addRows`, `_getRowByPkValEnc` and `_delRowAndIndices` in
    synapse/cores/lmdb.py.

    A row `(iden, prop, valu, time)` is kept once in the rows table under a
    primary key handed out in increasing order, and once in each of three
    `dupsort` indices whose items all hold the packed primary key:
    `ip` (iden bytes + packed prop), `pvt` (packed prop + value key + packed
    time) and `pt` (packed prop + packed time). */
module RowStore {
  import opened Wrappers
  import opened Bytes
  import opened MsgPack
  import opened LmdbCodec
  import opened SortedIndex

  /** A row as the store's callers see it. */
  datatype Row = Row(iden: string, prop: string, valu: Value, time: int)

  /** What the rows table keeps under a primary key: the iden's bytes, then
      the property, value and time. */
  datatype Record = Record(iden: bytes, prop: string, valu: Value, time: int)

  /** The value and time of a stored row went through the packer, so they
      are integers it accepts. */
  predicate Packed(r: Record)
  {
    ValuePackable(r.valu) && Packable(r.time)
  }

  type StoredRow = r: Record | Packed(r) witness Record([], [], IntVal(0), 0)

  /** The rows table (an `integerkey` table keyed by the machine-word
      primary key), the three indices, and the next primary key to hand out. */
  datatype Store = Store(rows: map<uint64, StoredRow>, ip: Index, pvt: Index, pt: Index, nextPk: nat)

  datatype Table = IpTable | PvtTable | PtTable

  function TableOf(s: Store, t: Table): Index
  {
    match t
    case IpTable => s.ip
    case PvtTable => s.pvt
    case PtTable => s.pt
  }

  /** The store with one index replaced and everything else as it was. */
  function WithTable(s: Store, t: Table, x: Index): (r: Store)
    ensures TableOf(r, t) == x
    ensures forall u :: u != t ==> TableOf(r, u) == TableOf(s, u)
    ensures r.rows == s.rows && r.nextPk == s.nextPk
  {
    match t
    case IpTable => s.(ip := x)
    case PvtTable => s.(pvt := x)
    case PtTable => s.(pt := x)
  }

  /** What the store raises. */
  datatype Error =
    | OutOfPks             // DatabaseLimitReached: no primary key left
    | PropTooLong          // DatabaseLimitReached: prop longer than MAX_PROP_LEN
    | BadIden              // unhexlify rejects the iden
    | IntTooLarge          // the packer overflows on an integer
    | UnexpectedPk         // DatabaseInconsistent: a new pk is already taken
    | MissingRow           // DatabaseInconsistent: an index item has no row
    | MissingIndex(table: Table) // DatabaseInconsistent: an expected index item is gone
    | BadPkVal             // an index value that is not a packed machine word
    | UnreadableRow        // a stored iden that is not UUID_SIZE bytes long

  // ------------------------------------------------------------ index items

  /** The key a row has in each index. */
  function IndexKey(c: Codec, t: Table, r: StoredRow): bytes
  {
    match t
    case IpTable => r.iden + c.packStr(r.prop)
    case PvtTable => c.packStr(r.prop) + EncValKey(c, r.valu) + PackInt(r.time)
    case PtTable => c.packStr(r.prop) + PackInt(r.time)
  }

  /** The item a row with primary key `pk` has in each index. */
  function IndexEntry(c: Codec, t: Table, pk: uint64, r: StoredRow): Entry
  {
    Entry(IndexKey(c, t, r), PackInt(pk))
  }

  /** The primary key an index item holds (`msgunpack` of the item's value,
      which `_enc_pk_key` then has to fit in a machine word). */
  function PkOf(pkVal: bytes): (r: Option<uint64>)
    ensures r.Some? <==> UnpackInt(pkVal).Some? && 0 <= UnpackInt(pkVal).value < UINT64_LIMIT
    ensures r.Some? ==> UnpackInt(pkVal) == Some(r.value as int)
  {
    match UnpackInt(pkVal)
    case Some(pk) => if 0 <= pk < UINT64_LIMIT then Some(pk as uint64) else None
    case None => None
  }

  /** The primary key an index item is written with reads back. */
  lemma PkOfPacked(pk: uint64)
    ensures PkOf(PackInt(pk)) == Some(pk)
  {
    PackRoundTrip(pk);
  }

  /** Different primary keys are packed differently. */
  lemma PackedPkInjective(a: uint64, b: uint64)
    requires PackInt(a) == PackInt(b)
    ensures a == b
  {
    PkOfPacked(a);
    PkOfPacked(b);
  }

  /** The item points at a row of the store and is that row's item. */
  predicate PointsAt(c: Codec, s: Store, t: Table, e: Entry)
  {
    match PkOf(e.val)
    case Some(pk) => pk in s.rows && e == IndexEntry(c, t, pk, s.rows[pk])
    case None => false
  }

  /** The store's tables agree: every row is below the next primary key and
      has its item in every index, and every index item is the item of a
      row. */
  ghost predicate Consistent(c: Codec, s: Store)
  {
    && (forall pk :: pk in s.rows ==> pk <= MAX_PK && pk < s.nextPk)
    && (forall pk, t :: pk in s.rows ==> IndexEntry(c, t, pk, s.rows[pk]) in TableOf(s, t))
    && (forall t, e :: e in TableOf(s, t) ==> PointsAt(c, s, t, e))
  }

  /** In a consistent store a row has exactly one item in each index: the
      items holding its primary key are its own item and nothing else. */
  lemma OneEntryPerRow(c: Codec, s: Store, t: Table, pk: uint64)
    requires Consistent(c, s) && pk in s.rows
    ensures IndexEntry(c, t, pk, s.rows[pk]) in TableOf(s, t)
    ensures forall e :: e in TableOf(s, t) && PkOf(e.val) == Some(pk) ==> e == IndexEntry(c, t, pk, s.rows[pk])
  {
  }

  // ---------------------------------------------------------------- adding

  /** The checks `_addRows` makes on the row that would get primary key
      `pk`, in the order it makes them. */
  function RowProblem(row: Row, pk: int): Option<Error>
  {
    if pk > MAX_PK then Some(OutOfPks)
    else if |row.prop| > MAX_PROP_LEN then Some(PropTooLong)
    else if EncIden(row.iden).None? then Some(BadIden)
    else if !ValuePackable(row.valu) || !Packable(row.time) then Some(IntTooLarge)
    else None
  }

  /** Every row passes its checks when the first gets primary key `pk`. */
  predicate Admissible(rows: seq<Row>, pk: int)
    decreases |rows|
  {
    |rows| == 0 || (RowProblem(rows[0], pk).None? && Admissible(rows[1..], pk + 1))
  }

  /** Row `i` of an admissible batch passes its checks under `pk + i`. */
  lemma {:induction false} AdmissibleAt(rows: seq<Row>, pk: int, i: nat)
    requires Admissible(rows, pk) && i < |rows|
    ensures RowProblem(rows[i], pk + i).None?
    decreases i
  {
    if i > 0 {
      AdmissibleAt(rows[1..], pk + 1, i - 1);
      assert rows[1..][i - 1] == rows[i];
    }
  }

  /** The error the first failing row raises. */
  function FirstProblem(rows: seq<Row>, pk: int): (r: Option<Error>)
    ensures r.None? <==> Admissible(rows, pk)
    ensures r.Some? ==> exists i :: 0 <= i < |rows| && RowProblem(rows[i], pk + i) == r && Admissible(rows[..i], pk)
    decreases |rows|
  {
    if |rows| == 0 then None
    else if RowProblem(rows[0], pk).Some? then
      assert Admissible(rows[..0], pk);
      RowProblem(rows[0], pk)
    else
      var r := FirstProblem(rows[1..], pk + 1);
      if r.Some? then
        var i :| 0 <= i < |rows| - 1 && RowProblem(rows[1..][i], pk + 1 + i) == r && Admissible(rows[1..][..i], pk + 1);
        assert rows[..i + 1][1..] == rows[1..][..i];
        assert rows[1..][i] == rows[i + 1];
        assert RowProblem(rows[i + 1], pk + (i + 1)) == r;
        r
      else r
  }

  /** A row that can be written: its iden unhexlifies and its integers pack. */
  predicate Storable(row: Row)
  {
    EncIden(row.iden).Some? && ValuePackable(row.valu) && Packable(row.time)
  }

  /** The row as the rows table keeps it. */
  function Stored(row: Row): (r: StoredRow)
    requires Storable(row)
    ensures EncIden(row.iden) == Some(r.iden)
    ensures r.prop == row.prop && r.valu == row.valu && r.time == row.time
  {
    Record(EncIden(row.iden).value, row.prop, row.valu, row.time)
  }

  /** Every primary key in use is below the next one. */
  predicate Fresh(s: Store)
  {
    forall pk :: pk in s.rows ==> pk < s.nextPk
  }

  /** The rows table after `putmulti` of a batch whose first row gets
      primary key `pk`. */
  function PutRows(m: map<uint64, StoredRow>, pk: nat, rows: seq<Row>): map<uint64, StoredRow>
    requires Admissible(rows, pk)
    decreases |rows|
  {
    if |rows| == 0 then m
    else PutRows(m[pk as uint64 := Stored(rows[0])], pk + 1, rows[1..])
  }

  /** The batch adds exactly the primary keys `pk .. pk + |rows| - 1` and
      leaves every other row alone. */
  lemma {:induction false} PutRowsKeys(m: map<uint64, StoredRow>, pk: nat, rows: seq<Row>)
    requires Admissible(rows, pk)
    ensures forall k :: k in PutRows(m, pk, rows) <==> k in m || pk <= k < pk + |rows|
    ensures forall k :: k in m && !(pk <= k < pk + |rows|) ==> PutRows(m, pk, rows)[k] == m[k]
    decreases |rows|
  {
    if |rows| > 0 {
      PutRowsKeys(m[pk as uint64 := Stored(rows[0])], pk + 1, rows[1..]);
    }
  }

  /** Row `i` of a batch whose first row got primary key `pk` passed its
      checks and is kept in `m` under primary key `pk + i`. */
  predicate WrittenAt(m: map<uint64, StoredRow>, pk: nat, rows: seq<Row>, i: int)
  {
    0 <= i < |rows| && RowProblem(rows[i], pk + i).None?
      && (pk + i) as uint64 in m && m[(pk + i) as uint64] == Stored(rows[i])
  }

  /** Row `i` of the batch lands under primary key `pk + i`. */
  lemma {:induction false} PutRowsNew(m: map<uint64, StoredRow>, pk: nat, rows: seq<Row>, i: nat)
    requires Admissible(rows, pk) && i < |rows|
    ensures WrittenAt(PutRows(m, pk, rows), pk, rows, i)
    decreases |rows|
  {
    AdmissibleAt(rows, pk, i);
    var m1 := m[pk as uint64 := Stored(rows[0])];
    if i > 0 {
      PutRowsNew(m1, pk + 1, rows[1..], i - 1);
      assert rows[1..][i - 1] == rows[i];
    } else {
      PutRowsKeys(m1, pk + 1, rows[1..]);
    }
  }

  /** The items a batch puts into index `t`. */
  function BatchItems(c: Codec, t: Table, rows: seq<Row>, pk: nat): seq<Entry>
    requires Admissible(rows, pk)
    decreases |rows|
  {
    if |rows| == 0 then []
    else [IndexEntry(c, t, pk as uint64, Stored(rows[0]))] + BatchItems(c, t, rows[1..], pk + 1)
  }

  /** `putmulti(..., dupdata=True)` on an index. */
  function PutItems(x: Index, items: seq<Entry>): (r: Index)
    ensures forall e :: e in r <==> e in x || e in items
    decreases |items|
  {
    if |items| == 0 then x
    else
      var r := PutItems(Insert(x, items[0]), items[1..]);
      assert forall e :: e in items <==> e == items[0] || e in items[1..];
      r
  }

  /** The batch written: the rows table, then each index, then `nextPk`. */
  function WriteRows(c: Codec, s: Store, rows: seq<Row>): Store
    requires Admissible(rows, s.nextPk)
  {
    Store(PutRows(s.rows, s.nextPk, rows),
          PutItems(s.ip, BatchItems(c, IpTable, rows, s.nextPk)),
          PutItems(s.pvt, BatchItems(c, PvtTable, rows, s.nextPk)),
          PutItems(s.pt, BatchItems(c, PtTable, rows, s.nextPk)),
          s.nextPk + |rows|)
  }

  /** A batch's items for an index are the items of its rows. */
  lemma {:induction false} BatchItemsNew(c: Codec, t: Table, rows: seq<Row>, pk: nat)
    requires Admissible(rows, pk)
    ensures forall e :: e in BatchItems(c, t, rows, pk) <==> NewEntry(c, t, rows, pk, e)
    decreases |rows|
  {
    if |rows| > 0 {
      BatchItemsNew(c, t, rows[1..], pk + 1);
      NewEntryCons(c, rows, pk);
    }
  }

  /** Putting a batch's items into an index adds exactly the batch's items. */
  lemma PutBatch(c: Codec, t: Table, x: Index, rows: seq<Row>, pk: nat)
    requires Admissible(rows, pk)
    ensures forall e :: e in PutItems(x, BatchItems(c, t, rows, pk)) <==> e in x || NewEntry(c, t, rows, pk, e)
  {
    BatchItemsNew(c, t, rows, pk);
  }

  lemma WriteRowsTable(c: Codec, s: Store, rows: seq<Row>, t: Table)
    requires Admissible(rows, s.nextPk)
    ensures TableOf(WriteRows(c, s, rows), t) == PutItems(TableOf(s, t), BatchItems(c, t, rows, s.nextPk))
  {
  }

  /** Each index of the written store holds its old items and the batch's. */
  lemma WriteRowsTables(c: Codec, s: Store, rows: seq<Row>)
    requires Admissible(rows, s.nextPk)
    ensures forall t, e :: e in TableOf(WriteRows(c, s, rows), t) <==> e in TableOf(s, t) || NewEntry(c, t, rows, s.nextPk, e)
  {
    forall t
      ensures forall e :: e in TableOf(WriteRows(c, s, rows), t) <==> e in TableOf(s, t) || NewEntry(c, t, rows, s.nextPk, e)
    {
      WriteRowsTable(c, s, rows, t);
      PutBatch(c, t, TableOf(s, t), rows, s.nextPk);
    }
  }

  /** `e` is the item in index `t` of one of `rows`, the first of them
      written under primary key `pk`. */
  ghost predicate NewEntry(c: Codec, t: Table, rows: seq<Row>, pk: int, e: Entry)
  {
    exists i :: 0 <= i < |rows| && 0 <= pk + i < UINT64_LIMIT && Storable(rows[i])
      && e == IndexEntry(c, t, (pk + i) as uint64, Stored(rows[i]))
  }

  lemma NewEntryCons(c: Codec, rows: seq<Row>, pk: int)
    requires |rows| > 0 && 0 <= pk < UINT64_LIMIT && Storable(rows[0])
    ensures forall t, e :: NewEntry(c, t, rows, pk, e) <==>
      e == IndexEntry(c, t, pk as uint64, Stored(rows[0])) || NewEntry(c, t, rows[1..], pk + 1, e)
  {
    forall t, e
      ensures NewEntry(c, t, rows, pk, e) <==>
        e == IndexEntry(c, t, pk as uint64, Stored(rows[0])) || NewEntry(c, t, rows[1..], pk + 1, e)
    {
      if NewEntry(c, t, rows, pk, e) {
        NewEntrySplit(c, t, rows, pk, e);
      }
      if NewEntry(c, t, rows[1..], pk + 1, e) {
        NewEntryTail(c, t, rows, pk, e);
      }
      if e == IndexEntry(c, t, pk as uint64, Stored(rows[0])) {
        assert pk + 0 == pk;
      }
    }
  }

  lemma NewEntrySplit(c: Codec, t: Table, rows: seq<Row>, pk: int, e: Entry)
    requires |rows| > 0 && 0 <= pk < UINT64_LIMIT && Storable(rows[0]) && NewEntry(c, t, rows, pk, e)
    ensures e == IndexEntry(c, t, pk as uint64, Stored(rows[0])) || NewEntry(c, t, rows[1..], pk + 1, e)
  {
    var i :| 0 <= i < |rows| && 0 <= pk + i < UINT64_LIMIT && Storable(rows[i])
      && e == IndexEntry(c, t, (pk + i) as uint64, Stored(rows[i]));
    if i > 0 {
      assert rows[1..][i - 1] == rows[i];
      assert pk + 1 + (i - 1) == pk + i;
    }
  }

  lemma NewEntryTail(c: Codec, t: Table, rows: seq<Row>, pk: int, e: Entry)
    requires |rows| > 0 && NewEntry(c, t, rows[1..], pk + 1, e)
    ensures NewEntry(c, t, rows, pk, e)
  {
    var i :| 0 <= i < |rows| - 1 && 0 <= pk + 1 + i < UINT64_LIMIT && Storable(rows[1..][i])
      && e == IndexEntry(c, t, (pk + 1 + i) as uint64, Stored(rows[1..][i]));
    assert rows[1..][i] == rows[i + 1];
    assert pk + (i + 1) == pk + 1 + i;
  }

  /** `_addRows`: check every row in order, then write them all under
      consecutive primary keys from `nextPk` and move `nextPk` past them.
      A failure leaves every table and `nextPk` as they were. */
  function AddRows(c: Codec, s: Store, rows: seq<Row>): (r: Result<Store, Error>)
    ensures r.Success? <==> Admissible(rows, s.nextPk) && (|rows| > 0 ==> Fresh(s))
    ensures r.Failure? && r.error != UnexpectedPk ==>
      exists i :: 0 <= i < |rows| && RowProblem(rows[i], s.nextPk + i) == Some(r.error) && Admissible(rows[..i], s.nextPk)
    ensures r.Success? ==> r.value.nextPk == s.nextPk + |rows|
  {
    match FirstProblem(rows, s.nextPk)
    case Some(err) => Failure(err)
    case None =>
      if |rows| > 0 && !Fresh(s) then Failure(UnexpectedPk)
      else
        NoProblemBounds(rows, s.nextPk);
        Success(WriteRows(c, s, rows))
  }

  /** `_addRows` refuses a batch in which some row would get a primary key
      beyond `MAX_PK` or has a prop longer than `MAX_PROP_LEN`. */
  lemma AddRowsRejects(c: Codec, s: Store, rows: seq<Row>, i: nat)
    requires i < |rows| && (s.nextPk + i > MAX_PK || |rows[i].prop| > MAX_PROP_LEN)
    ensures AddRows(c, s, rows).Failure?
  {
    if AddRows(c, s, rows).Success? {
      AdmissibleAt(rows, s.nextPk, i);
    }
  }

  /** A successful `_addRows` is the batch write. */
  lemma AddRowsWritten(c: Codec, s: Store, rows: seq<Row>)
    requires AddRows(c, s, rows).Success?
    ensures Admissible(rows, s.nextPk)
    ensures AddRows(c, s, rows).value == WriteRows(c, s, rows)
  {
  }

  /** `_addRows` only succeeds on a store whose primary keys are all below
      `nextPk` (or on an empty batch). */
  lemma AddRowsFresh(c: Codec, s: Store, rows: seq<Row>)
    requires AddRows(c, s, rows).Success?
    ensures |rows| > 0 ==> Fresh(s)
  {
  }

  lemma AddRowsRowsMap(c: Codec, s: Store, rows: seq<Row>)
    requires AddRows(c, s, rows).Success?
    ensures Admissible(rows, s.nextPk)
    ensures AddRows(c, s, rows).value.rows == PutRows(s.rows, s.nextPk, rows)
  {
  }

  /** A successful `_addRows` keeps row `i` of the batch under primary key
      `nextPk + i`. */
  lemma AddRowsNewRows(c: Codec, s: Store, rows: seq<Row>)
    requires AddRows(c, s, rows).Success?
    ensures forall i :: 0 <= i < |rows| ==> WrittenAt(AddRows(c, s, rows).value.rows, s.nextPk, rows, i)
  {
    AddRowsRowsMap(c, s, rows);
    PutRowsFacts(s.rows, s.nextPk, rows);
  }

  /** The same for one row of the batch, given the store `_addRows` produced. */
  lemma AddedRowWritten(c: Codec, s: Store, rows: seq<Row>, i: nat, added: Store)
    requires AddRows(c, s, rows) == Success(added) && i < |rows|
    ensures WrittenAt(added.rows, s.nextPk, rows, i)
  {
    AddRowsRowsMap(c, s, rows);
    PutRowsNew(s.rows, s.nextPk, rows, i);
  }

  /** A successful `_addRows` leaves every old row as it was, and adds no
      key outside the batch's range. */
  lemma AddRowsOldRows(c: Codec, s: Store, rows: seq<Row>)
    requires AddRows(c, s, rows).Success?
    ensures forall pk :: pk in s.rows ==> pk in AddRows(c, s, rows).value.rows && AddRows(c, s, rows).value.rows[pk] == s.rows[pk]
    ensures forall pk :: pk in AddRows(c, s, rows).value.rows ==> pk in s.rows || s.nextPk <= pk < s.nextPk + |rows|
  {
    AddRowsRowsMap(c, s, rows);
    AddRowsFresh(c, s, rows);
    PutRowsFacts(s.rows, s.nextPk, rows);
    if |rows| == 0 {
      assert PutRows(s.rows, s.nextPk, rows) == s.rows;
    }
  }

  /** A successful `_addRows` leaves in each index exactly the old items and
      the batch's items. */
  lemma AddRowsIndexes(c: Codec, s: Store, rows: seq<Row>)
    requires AddRows(c, s, rows).Success?
    ensures forall t, e :: e in TableOf(AddRows(c, s, rows).value, t) <==> e in TableOf(s, t) || NewEntry(c, t, rows, s.nextPk, e)
  {
    AddRowsWritten(c, s, rows);
    WriteRowsTables(c, s, rows);
  }

  /** The rows table after a batch: each new row under its key, the old
      rows below `pk` untouched, and no other key. */
  lemma PutRowsFacts(m: map<uint64, StoredRow>, pk: nat, rows: seq<Row>)
    requires Admissible(rows, pk)
    ensures forall i :: 0 <= i < |rows| ==> WrittenAt(PutRows(m, pk, rows), pk, rows, i)
    ensures forall k :: k in m && k < pk ==> k in PutRows(m, pk, rows) && PutRows(m, pk, rows)[k] == m[k]
    ensures forall k :: k in PutRows(m, pk, rows) ==> k in m || pk <= k < pk + |rows|
  {
    PutRowsKeys(m, pk, rows);
    forall i | 0 <= i < |rows|
      ensures WrittenAt(PutRows(m, pk, rows), pk, rows, i)
    {
      PutRowsNew(m, pk, rows, i);
    }
  }

  /** `_addRows` keeps a consistent store consistent, and on a consistent
      store it fails exactly when one of the rows fails its checks. */
  lemma AddRowsConsistent(c: Codec, s: Store, rows: seq<Row>)
    requires Consistent(c, s)
    ensures AddRows(c, s, rows).Success? <==> Admissible(rows, s.nextPk)
    ensures AddRows(c, s, rows).Success? ==> Consistent(c, AddRows(c, s, rows).value)
  {
    if AddRows(c, s, rows).Success? {
      var r := AddRows(c, s, rows).value;
      AddRowsRowsMap(c, s, rows);
      AddRowsNewRows(c, s, rows);
      AddRowsOldRows(c, s, rows);
      AddRowsIndexes(c, s, rows);
      NoProblemBounds(rows, s.nextPk);
      AddedRowsBounded(c, s, rows, r);
      AddedRowsIndexed(c, s, rows, r);
      AddedItemsPoint(c, s, rows, r);
    }
  }

  lemma AddedRowsBounded(c: Codec, s: Store, rows: seq<Row>, r: Store)
    requires Consistent(c, s)
    requires r.nextPk == s.nextPk + |rows|
    requires |rows| > 0 ==> s.nextPk + |rows| - 1 <= MAX_PK
    requires forall pk :: pk in r.rows ==> pk in s.rows || s.nextPk <= pk < s.nextPk + |rows|
    ensures forall pk :: pk in r.rows ==> pk <= MAX_PK && pk < r.nextPk
  {
  }

  lemma AddedRowsIndexed(c: Codec, s: Store, rows: seq<Row>, r: Store)
    requires Consistent(c, s)
    requires forall i :: 0 <= i < |rows| ==> WrittenAt(r.rows, s.nextPk, rows, i)
    requires forall pk :: pk in s.rows ==> pk in r.rows && r.rows[pk] == s.rows[pk]
    requires forall pk :: pk in r.rows ==> pk in s.rows || s.nextPk <= pk < s.nextPk + |rows|
    requires forall t, e :: e in TableOf(r, t) <==> e in TableOf(s, t) || NewEntry(c, t, rows, s.nextPk, e)
    ensures forall pk, t :: pk in r.rows ==> IndexEntry(c, t, pk, r.rows[pk]) in TableOf(r, t)
  {
    forall pk, t | pk in r.rows
      ensures IndexEntry(c, t, pk, r.rows[pk]) in TableOf(r, t)
    {
      if pk !in s.rows {
        var i := pk as int - s.nextPk;
        assert WrittenAt(r.rows, s.nextPk, rows, i);
        assert (s.nextPk + i) as uint64 == pk;
        assert NewEntry(c, t, rows, s.nextPk, IndexEntry(c, t, pk, r.rows[pk]));
      }
    }
  }

  lemma AddedItemsPoint(c: Codec, s: Store, rows: seq<Row>, r: Store)
    requires Consistent(c, s)
    requires forall i :: 0 <= i < |rows| ==> WrittenAt(r.rows, s.nextPk, rows, i)
    requires forall pk :: pk in s.rows ==> pk in r.rows && r.rows[pk] == s.rows[pk]
    requires forall t, e :: e in TableOf(r, t) <==> e in TableOf(s, t) || NewEntry(c, t, rows, s.nextPk, e)
    ensures forall t, e :: e in TableOf(r, t) ==> PointsAt(c, r, t, e)
  {
    forall t, e | e in TableOf(r, t)
      ensures PointsAt(c, r, t, e)
    {
      if e in TableOf(s, t) {
        assert PointsAt(c, s, t, e);
      } else {
        var i :| 0 <= i < |rows| && 0 <= s.nextPk + i < UINT64_LIMIT && Storable(rows[i])
          && e == IndexEntry(c, t, (s.nextPk + i) as uint64, Stored(rows[i]));
        assert WrittenAt(r.rows, s.nextPk, rows, i);
        PkOfPacked((s.nextPk + i) as uint64);
      }
    }
  }

  lemma NoProblemBounds(rows: seq<Row>, pk: int)
    requires Admissible(rows, pk)
    ensures |rows| > 0 ==> pk + |rows| - 1 <= MAX_PK
    ensures forall i :: 0 <= i < |rows| ==> |rows[i].prop| <= MAX_PROP_LEN
  {
    if |rows| > 0 {
      AdmissibleAt(rows, pk, |rows| - 1);
    }
    forall i | 0 <= i < |rows|
      ensures |rows[i].prop| <= MAX_PROP_LEN
    {
      AdmissibleAt(rows, pk, i);
    }
  }
}
