# LMDB row store of synapse, and the distance type

This project models the core of the LMDB storage layer of a synapse cortex,
`synapse/cores/lmdb.py`, plus the distance normaliser of
`synapse/models/geospace.py`. It then proves properties of that model in Dafny.

The row store keeps rows `(iden, prop, valu, time)`:

- **Rows table.** Maps a primary key, stored as a native machine word, to
  the iden's 16 raw bytes followed by the packed prop, value and time.
- **Three `dupsort` indices.** Each maps a key to the MessagePack-packed
  primary key:
  - I-P, keyed `iden + prop`;
  - P-V-T, keyed `prop + value key + time`;
  - P-T, keyed `prop + time`.
- **Value keys.** These are built so that byte order follows value order:
  - a non-negative integer packs as itself;
  - a negative integer is the marker byte `ff` and then its packed negation;
  - a short string is `fe` and then its packing;
  - a string of 128 characters or more is `fd` and then its packed 64-bit
    xxHash digest.

The model covers these operations:

- the encoders and decoders;
- adding rows (`_addRows`);
- deleting a row and its index items (`_delRowAndIndices`);
- listing, counting and deleting by prop, optional value and time window
  (`_getRowsByProp`, `_delRowsByProp`);
- integer range queries (`_rowsByMinmax`, `_subrangeRows`), which split a
  range at zero and walk the negative half backwards.

## How the pieces are laid out

Modules, in dependency order:

- `Wrappers` (wrappers.dfy): `Option` and `Result`.
- `Bytes` (bytes.dfy): the lexicographic order LMDB compares keys by, and
  prefix cuts.
- `MsgPack` (msgpack.dfy): MessagePack's packing of integers, with big-endian
  payloads, and its inverse.
- `LmdbCodec` (codec.dfy): the constants, value keys, idens, primary keys.
  The string packer and xxHash are parameters (`Codec`).
- `SortedIndex` (index.dfy): a `dupsort` table as a sorted sequence of
  items. It covers insertion, deletion, `set_range`, and forward and
  backward walks under a bound and a limit.
- `RowStore` (store.dfy): the store (rows map, three indices, next primary
  key), the consistency invariant, and `_addRows`.
- `RowRemoval` (removal.dfy): reading a row back (`_getRowByPkValEnc`) and
  `_delRowAndIndices`.
- `KeyWindows` (window.dfy): which keys fall inside the key windows the
  queries scan.
- `RangeQueries` (query.dfy): `_subrangeRows` and `_rowsByMinmax`. Each
  takes a `Start`: `AsWritten` is where the code starts a backward walk,
  `Corrected` is where it has to start to see the whole range (see
  Findings).
- `PropQueries` (props.dfy): `_getRowsByProp` in its three modes.
- `GeoDistance` (geospace.py's `DistType`).

`Consistent(c, s)` is the invariant of a well-formed store:

- every row has exactly its three index items;
- every index item points at a row with that key;
- every primary key is below the next one.

`_addRows` is proved to keep it (`RowStore.AddRowsConsistent`). The row
deletions keep it when the stored value matches `only_if_val` or none is
given (`RowRemoval.DelRowConsistent`, `PropQueries.DeleteScanSurvivors`), or
when the comparison is moved before the row is popped
(`RowRemoval.DelCheckedKeepsConsistent`). As written, a mismatch breaks it
(`RowRemoval.DelMismatchBreaksConsistency`; see Findings).

## Model

| member | source | states |
|---|---|---|
| MsgPack.PackRoundTrip | synapse/cores/lmdb.py:340 | unpacking a packed primary key or integer gives the integer back, for every integer the packer accepts |
| MsgPack.PackUnsignedOrder | synapse/cores/lmdb.py:102-103 | packings of non-negative integers compare in byte order as the integers do, so non-negative value keys sort by value |
| MsgPack.PackUnsignedFirstByte | synapse/cores/lmdb.py:102-103 | the packing of a non-negative integer starts with a byte at most `cf`, below every marker |
| LmdbCodec.MarkerEnc | synapse/cores/lmdb.py:44-51 | each of the three markers packs to the single byte `0x100 + marker` (`ff`, `fe`, `fd`) |
| LmdbCodec.EncValKey | synapse/cores/lmdb.py:95-110 | the first byte of a value key alone tells its kind: at most `cf` exactly for non-negative integers, `ff` exactly for negative ones, `fe` exactly for short strings, `fd` exactly for long strings |
| LmdbCodec.ValKeyOrderNonNegative | synapse/cores/lmdb.py:101-103 | a smaller non-negative integer has a key that precedes the larger one's |
| LmdbCodec.ValKeyOrderNegative | synapse/cores/lmdb.py:104-105 | among negative integers the order of keys is reversed: the key of the larger value precedes |
| LmdbCodec.NegativeKeyShape | synapse/cores/lmdb.py:104-105 | a negative integer's key is the negative marker followed by its packed negation |
| LmdbCodec.ValKeyKindOrder | synapse/cores/lmdb.py:96-100 | keys of different kinds never interleave: non-negative integers, then hashed strings, then short strings, then negative integers |
| LmdbCodec.StringKeyShape | synapse/cores/lmdb.py:106-110 | a string shorter than 128 is keyed by marker and packing, a longer one by marker and packed digest, and never with the negative marker |
| LmdbCodec.EncIden | synapse/cores/lmdb.py:123-125 | `unhexlify` yields half as many bytes as hex digits |
| LmdbCodec.EncIdenDefined | synapse/cores/lmdb.py:123-125 | `unhexlify` succeeds exactly on strings of even length made of hex digits, and fails on anything else |
| LmdbCodec.DecIden | synapse/cores/lmdb.py:128-130 | `hexlify` yields two digits per byte |
| LmdbCodec.IdenRoundTrip | synapse/cores/lmdb.py:123-130 | decoding an encoded lower-case hex iden gives it back, and a 32-digit iden encodes to 16 bytes |
| LmdbCodec.IdenBytesRoundTrip | synapse/cores/lmdb.py:123-130 | encoding a decoded byte string gives the bytes back |
| LmdbCodec.DecIdenLowerHex | synapse/cores/lmdb.py:128-130 | a decoded iden is lower-case hex |
| LmdbCodec.EncPkKey | synapse/cores/lmdb.py:137-139 | a primary key's row key is exactly eight bytes wide |
| LmdbCodec.PkKeyRoundTrip | synapse/cores/lmdb.py:137-144 | the native word packing and unpacking are inverse both ways |
| SortedIndex.Insert | synapse/cores/lmdb.py:327-332 | a `dupsort` put adds exactly the item (an identical one already there is kept once) |
| SortedIndex.InsertAtSorted | synapse/cores/lmdb.py:327-332 | the table stays sorted after the insertion |
| SortedIndex.Remove | synapse/cores/lmdb.py:439-450 | deleting a key/value pair removes exactly that item and nothing else |
| SortedIndex.RemoveAt | synapse/cores/lmdb.py:509-510 | deleting the item under the cursor closes the gap, so the cursor rests on the next item |
| SortedIndex.ReseekAfterRemove | synapse/cores/lmdb.py:498-510 | when the cursor reached its item by `set_range(first)`, seeking `first` again after deleting that item lands on the same position, which holds the item that followed |
| SortedIndex.SortedUnique | synapse/cores/lmdb.py:327-332 | two sorted tables with the same items are equal, so a table is determined by its item set |
| SortedIndex.SetRange | synapse/cores/lmdb.py:606 | `set_range` lands after every key below the sought key and on the first key at least it |
| SortedIndex.ForwardScanIsWindow | synapse/cores/lmdb.py:614-625 | a forward walk from `set_range` yields the items of the range in table order, as many as the limit allows |
| SortedIndex.BackwardStartAsWritten | synapse/cores/lmdb.py:608-613 | the start of the backward walk as the code picks it lies within the table |
| SortedIndex.BackwardStart | synapse/cores/lmdb.py:608-613 | the corrected start of the backward walk: after every item whose cut key is at most the first key and before every other |
| SortedIndex.BackwardScanIsWindow | synapse/cores/lmdb.py:608-625 | a backward walk from the corrected start yields the items of the range in reverse table order, cut at the limit |
| SortedIndex.BackwardStartAsWrittenTies | synapse/cores/lmdb.py:606-613 | the start the code picks is never past the corrected start, and every item between the two has the first key as its cut key |
| SortedIndex.BackwardScanAsWritten | synapse/cores/lmdb.py:606-625 | a backward walk from the start the code picks yields, cut at the limit, the items of the range among those before that start, in reverse table order |
| SortedIndex.BackwardScanAsWrittenMisses | synapse/cores/lmdb.py:606-625 | without a limit, the walk as written yields only items of the range, and every item of the range it misses has the first key as its cut key |
| SortedIndex.ForwardWindowOrdered | synapse/cores/lmdb.py:498-529 | the forward range of a table in order is in order |
| SortedIndex.OrderedCount | synapse/cores/lmdb.py:498-529 | a run of items in order holds as many different items as it is long |
| SortedIndex.WalkForwardLimit | synapse/cores/lmdb.py:624-625 | a limited walk yields a prefix of the unlimited walk, of the length the limit leaves room for |
| RowStore.PkOf | synapse/cores/lmdb.py:340 | an index value names a primary key exactly when it unpacks to a machine word |
| RowStore.PackedPkInjective | synapse/cores/lmdb.py:313 | different primary keys have different packed index values |
| RowStore.OneEntryPerRow | synapse/cores/lmdb.py:327-332 | in a consistent store each row has its item in each index, and no other item of that index points at it |
| RowStore.FirstProblem | synapse/cores/lmdb.py:303-307 | the first row that runs out of primary keys or has too long a prop is found, and every earlier row is admissible |
| RowStore.AddRows | synapse/cores/lmdb.py:300-336 | adding succeeds exactly when every row is admissible and the store is fresh at the next key; the error is the first row's problem; the next key advances by the number of rows |
| RowStore.AddRowsRejects | synapse/cores/lmdb.py:304-307 | a batch with a row past `MAX_PK` or with a prop longer than 350 is refused as a whole |
| RowStore.AddRowsNewRows | synapse/cores/lmdb.py:319-322 | every row of the batch is stored under its own consecutive primary key |
| RowStore.AddedRowWritten | synapse/cores/lmdb.py:319-322 | the i-th row of a batch lands at the next key plus i |
| RowStore.AddRowsOldRows | synapse/cores/lmdb.py:319-322 | rows already stored are untouched, and no key outside the batch's range appears |
| RowStore.AddRowsIndexes | synapse/cores/lmdb.py:327-332 | each index gains exactly the items of the batch's rows |
| RowStore.AddRowsConsistent | synapse/cores/lmdb.py:300-336 | on a consistent store, adding succeeds exactly when the batch is admissible, and leaves the store consistent |
| RowRemoval.ReadRow | synapse/cores/lmdb.py:347-353 | a stored row reads back when its iden has 16 bytes, with the iden hex-encoded and prop, value and time unchanged |
| RowRemoval.GetRow | synapse/cores/lmdb.py:338-353 | reading by index value fails on a value that is not a primary key or on a missing row, and succeeds exactly when the row is there and readable |
| RowRemoval.AddRowsThenGetRow | synapse/cores/lmdb.py:300-353 | after an add, reading the i-th row back through its packed primary key gives the row that was added |
| RowRemoval.WrittenRowReads | synapse/cores/lmdb.py:338-353 | a row written from a 32-digit lower-case iden reads back as itself |
| RowRemoval.DeleteItem | synapse/cores/lmdb.py:439-450 | deleting an index item fails exactly when it is missing, and otherwise removes just that item from just that index |
| RowRemoval.DeleteIf | synapse/cores/lmdb.py:437-450 | an index that is not targeted is left alone; a targeted one loses the item, or the call fails when the item is missing |
| RowRemoval.DelIndices | synapse/cores/lmdb.py:437-452 | the targeted items go in the order I-P, P-V-T, P-T, the first missing one names the error, and untargeted indices and the rows are unchanged |
| RowRemoval.DelRowAndIndices | synapse/cores/lmdb.py:417-452 | the row is always popped; the answer is true exactly when the value matches; on a mismatch the indices are untouched; untargeted indices never change |
| RowRemoval.DelRowMatching | synapse/cores/lmdb.py:420-452 | for a readable row whose value matches, the outcome is that of the index deletions on the popped store |
| RowRemoval.DelRowConsistent | synapse/cores/lmdb.py:417-452 | deleting a row of a consistent store with every index targeted succeeds, answers true and keeps the store consistent |
| RowRemoval.DelOwnItemsConsistent | synapse/cores/lmdb.py:437-452 | a row's own items in every index are present and deleting them keeps the store consistent |
| RowRemoval.RemoveRowKeepsConsistent | synapse/cores/lmdb.py:417-452 | removing one row and exactly its items from a consistent store leaves it consistent |
| RowRemoval.DelMismatchBreaksConsistency | synapse/cores/lmdb.py:420-423 | on a value mismatch the row is gone but its items stay, so a consistent store becomes inconsistent |
| RowRemoval.DelRowAndIndicesChecked | synapse/cores/lmdb.py:417-423 | comparing before popping: a mismatch answers false and leaves the store as it was; a match behaves as the original |
| RowRemoval.DelCheckedKeepsConsistent | synapse/cores/lmdb.py:417-452 | with the comparison first the store stays consistent either way, and the row goes exactly when its value matches |
| KeyWindows.ValKeysApart | synapse/cores/lmdb.py:95-110 | two different value keys differ within both, so neither is a proper prefix of the other |
| KeyWindows.ValKeyCollision | synapse/cores/lmdb.py:107-108 | two different values share a key only when both are long strings with the same digest |
| KeyWindows.ForwardKeyWindow | synapse/cores/lmdb.py:603-620 | a P-V-T key is in the forward window of two non-negative ends exactly when its prop matches and its value lies in the range |
| KeyWindows.BackwardKeyWindow | synapse/cores/lmdb.py:600-620 | a P-V-T key is in the backward window of two negative ends exactly when its prop matches and its value lies in the range |
| KeyWindows.MinTimeEnc | synapse/cores/lmdb.py:489 | an absent lower time bound packs to nothing; a present one unpacks back to itself |
| KeyWindows.TimeWindow | synapse/cores/lmdb.py:489-504 | after a common prefix, a packed time is in the window exactly when it is at least the lower bound and below the upper |
| KeyWindows.PtWindow | synapse/cores/lmdb.py:485-504 | a P-T key is in the prop window exactly when the prop matches and the time is in range |
| KeyWindows.PvtWindow | synapse/cores/lmdb.py:485-504 | a P-V-T key is in the value window exactly when the prop matches, the value has the given value's key and the time is in range |
| RangeQueries.ReadRows | synapse/cores/lmdb.py:622-623 | reading the rows of the items yields one row per item |
| RangeQueries.ReadRowsMeaning | synapse/cores/lmdb.py:622-623 | the read succeeds exactly when every item's row reads; each row read is that item's row; a failure is some item's failure |
| RangeQueries.ReadRowsAppend | synapse/cores/lmdb.py:575-586 | reading two runs of items one after the other is reading their concatenation, the first failure winning |
| RangeQueries.Finish | synapse/cores/lmdb.py:621-626 | the answer's size is the number of items walked, a count exactly when only counting; counting never fails |
| RangeQueries.SubrangeItems | synapse/cores/lmdb.py:618-625 | a limit of at least one caps the items walked at the limit; a smaller limit still lets one item through |
| RangeQueries.SubrangeWindow | synapse/cores/lmdb.py:589-626 | the items walked are a prefix of the range, as long as the limit allows: forward in table order for a non-negative first value; backward in reverse table order for a negative one, the whole range from the corrected start, and from the start the code picks only the part of the range before it |
| RangeQueries.SubrangeRows | synapse/cores/lmdb.py:589-626 | fails with an integer overflow exactly when an end cannot be packed; answers in the kind asked for; a limit of at least one bounds the answer |
| RangeQueries.SubrangeFinds | synapse/cores/lmdb.py:589-626 | without a limit, on a consistent store, the walk from the corrected start takes exactly the items of rows with the prop and a value in the range, for ends of the same sign |
| RangeQueries.SubrangeAsWrittenFinds | synapse/cores/lmdb.py:589-626 | without a limit, on a consistent store, the walk as written takes only items of rows with the prop and a value in the range, and every such item it misses holds the first value itself, which is negative |
| RangeQueries.AsWrittenWithinCorrected | synapse/cores/lmdb.py:606-614 | without a limit, the walk as written yields only what the corrected walk yields, and leaves out only items whose cut key is the first key, and only when walking backward |
| RangeQueries.TieHasFirstValue | synapse/cores/lmdb.py:590 | on a consistent store, an item of the range whose key starts with the first key holds the first value |
| RangeQueries.SubrangeMissesTies | synapse/cores/lmdb.py:608-614 | for two items of the value -5, the walk as written yields only the earlier one, where the walk from the corrected start yields both, latest first |
| RangeQueries.NegativeTop | synapse/cores/lmdb.py:574 | the negative half ends below zero, at most at the upper end, and exactly there when it is negative |
| RangeQueries.PositiveBottom | synapse/cores/lmdb.py:583 | the non-negative half starts at zero or later, at least at the lower end, and exactly there when it is non-negative |
| RangeQueries.MinmaxItems | synapse/cores/lmdb.py:575-586 | a limit of at least one caps the items across both halves; a smaller limit lets at most one item per half through |
| RangeQueries.RowsByMinmax | synapse/cores/lmdb.py:559-587 | with either start, an empty range answers 0; otherwise answers in the kind asked for; an unpackable lower end (or, without a limit, upper end) fails; an overflow failure comes only from an unpackable end |
| RangeQueries.FinishAppend | synapse/cores/lmdb.py:575-586 | the answer for two runs walked one after the other is the sum of their answers, the first failure winning |
| RangeQueries.MinmaxAnswer | synapse/cores/lmdb.py:559-587 | with either start, the answer of a packable range is the answer for exactly the items it walks |
| RangeQueries.MinmaxFinds | synapse/cores/lmdb.py:559-587 | without a limit, on a consistent store, the walks from the corrected start take exactly the items of rows with the prop and a value in the range, whatever the signs of its ends |
| RangeQueries.MinmaxAsWrittenFinds | synapse/cores/lmdb.py:559-587 | without a limit, on a consistent store, `_rowsByMinmax` as written takes only items of rows with the prop and a value in the range, and every such item it misses holds the lower end, which is negative |
| RangeQueries.MinmaxMissesTies | synapse/cores/lmdb.py:559-614 | counting the rows of exactly -5 over two items of -5 answers 1 as written and 2 from the corrected start |
| RangeQueries.ValueItemSplit | synapse/cores/lmdb.py:568-586 | a range across zero holds a value exactly when its negative half (closed at -1) or its non-negative half does |
| PropQueries.ScanItems | synapse/cores/lmdb.py:498-529 | the scan visits a prefix of the window from the first key to below the last key, as long as the limit allows |
| PropQueries.ItemInWindow | synapse/cores/lmdb.py:485-504 | a row's item in the scanned index is in the window exactly when the row has the prop, a value with the given value's key and a time in range |
| PropQueries.ScanFinds | synapse/cores/lmdb.py:498-529 | without a limit, on a consistent store, the scan visits exactly the items of the rows the window admits |
| PropQueries.GetRowsByProp | synapse/cores/lmdb.py:481-531 | fails with an overflow exactly when value or times cannot be packed; answers in the kind asked for; a limit of at least one bounds the answer |
| PropQueries.ScanAdmitsEach | synapse/cores/lmdb.py:498-529 | without a limit, on a consistent store, the scan visits the items of the admitted rows in index order, each once |
| PropQueries.GetRowsByPropAnswer | synapse/cores/lmdb.py:481-531 | without a limit, on a consistent, readable store, counting answers the number of admitted items, and listing succeeds with one row per admitted item, each the row its item indexes, in index order |
| PropQueries.CollisionListed | synapse/cores/lmdb.py:488-522 | for a long string value, a row with another long string of the same digest is listed too |
| PropQueries.CheckedWalk | synapse/cores/lmdb.py:515-522 | with the re-check, only items whose row holds the very value are taken; without a limit every such item is; the limit bounds the count |
| PropQueries.GetRowsByPropChecked | synapse/cores/lmdb.py:481-531 | the corrected query fails on overflow exactly as the original and agrees with it whenever the value is not hashed |
| PropQueries.CheckedWalkFails | synapse/cores/lmdb.py:517 | the re-checking walk fails only with the failure of some item's row |
| PropQueries.CheckedWalkSucceeds | synapse/cores/lmdb.py:517 | the re-checking walk succeeds when every item's row reads |
| PropQueries.CheckedFinds | synapse/cores/lmdb.py:515-522 | with the re-check, the items taken are exactly those of rows with the prop, the very value given and a time in range |
| PropQueries.DelTargets | synapse/cores/lmdb.py:512-514 | the scanned index, whose item the cursor already deleted, is never targeted again |
| PropQueries.DeleteScan | synapse/cores/lmdb.py:501-514 | the delete loop only removes rows and never changes the next primary key |
| PropQueries.DelRowsByProp | synapse/cores/lmdb.py:478-479 | an unpackable value or time fails; otherwise rows are only removed |
| PropQueries.DelRowsByPropRemovesAdmitted | synapse/cores/lmdb.py:478-479 | called as `_delRowsByProp` calls it (no limit), on a consistent, readable store, for no value or one that is not hashed: it succeeds, exactly the rows the window does not admit remain, and the store stays consistent |
| PropQueries.CursorDeleteStep | synapse/cores/lmdb.py:505-514 | deleting one admitted row under the cursor succeeds and restores consistency without that row |
| PropQueries.StopLeavesNothing | synapse/cores/lmdb.py:503-504 | where the loop stops, no item of the index lies in the window |
| PropQueries.UnhashedKeyUnique | synapse/cores/lmdb.py:107-110 | a value that is not hashed is the only value with its key |
| PropQueries.DeleteScanSurvivors | synapse/cores/lmdb.py:478-530 | deleting by prop on a consistent store removes exactly the admitted rows, keeps every other row, and leaves the store consistent |
| PropQueries.NothingAdmitted | synapse/cores/lmdb.py:503-504 | when the loop stops at once, no row of a consistent store is admitted |
| PropQueries.AdmittedAtCursor | synapse/cores/lmdb.py:502-514 | the item the loop reaches inside the window belongs to an admitted row holding the very value given |
| PropQueries.SurvivorsWithout | synapse/cores/lmdb.py:505-514 | deleting an admitted row does not change which rows survive |
| GeoDistance.Multiplier | synapse/models/geospace.py:53 | a unit name has a multiplier exactly when its lower-case spelling is in the table, and it is at least one |
| GeoDistance.NormStr | synapse/models/geospace.py:48-57 | parsing succeeds exactly when the number parses and the unit is known, the result being number times multiplier; a bad unit is reported by name |
| GeoDistance.Norm | synapse/models/geospace.py:42-46 | a string is normalised by parsing; any other value comes back unchanged |
| GeoDistance.MultiplierIgnoresCase | synapse/models/geospace.py:53 | a unit name in upper or lower case has the same multiplier as the name itself |
| GeoDistance.KilometreSpellings | synapse/models/geospace.py:30-53 | "KM", "Km" and "km" all mean a million millimetres |
| GeoDistance.UnitScale | synapse/models/geospace.py:30-38 | looking up "mm" gives 1 and "m" or "meters" gives 1000; the lookups of "mm", "cm", "m" and "km" all succeed and grow strictly in that order; a kilometre is a thousand metres |
| GeoDistance.NormIgnoresUnitCase | synapse/models/geospace.py:48-57 | texts differing only in the case of the unit normalise alike |
| GeoDistance.KilometresAreThousandMetres | synapse/models/geospace.py:48-57 | n km and 1000·n m normalise to the same distance |

## Left out

- **Transactions and I/O.** The LMDB environment, transactions, cursors as
  objects, sentinel rows and `DatabaseInconsistent` on a missing sentinel
  are left out. A write that raises is modelled as a `Failure` that leaves
  the store as it was, since the transaction `_get_txn` opens aborts. Calls
  inside an open cortex transaction, where `_get_txn` hands out that
  transaction and does not abort it (lmdb.py:209-211), are not modelled. The tables are assumed
  to hold their sentinels, so `set_range` always finds an item or the end.
- **MessagePack strings and xxHash.** These are parameters of `Codec`, not
  spelled out. Only the integer packing is modelled. Where string order
  matters, the string packing is assumed to be self-delimiting
  (`SelfDelimiting`), as MessagePack's length-prefixed strings are.
- **Row payloads.** The rows table stores a record (`StoredRow`) rather than
  the concatenated MessagePack bytes, and `_enc_val_val`/`_dec_val_val` are
  identity on it. Unpacking a row's prop, value and time is not modelled.
- **Rows whose iden is not 16 bytes.** `_addRows` accepts any even-length
  hex iden. A stored iden of any length other than 16 bytes makes
  `_getRowByPkValEnc` slice wrongly: it then raises or returns a misparsed
  row. The model reports such a row as unreadable. The deletion proofs
  assume every row is readable (`Readable`).
- **Word size.** `MAX_PK` is `sys.maxsize` on a 64-bit host, and the native
  word is 8 bytes, little-endian (`LmdbCodec.EncPkKey`, `DecPkKey`). The
  32-bit and big-endian variants are not modelled.
- **Wrappers and id-based operations.** `_getSizeByProp`, the
  `_sizeBy*`/`_rowsBy*` wrappers (lmdb.py:535-557), `_getRowsById`,
  `_delRowsById`, `_getRowsByIdProp` and `_delRowsByIdProp` are one-line
  delegations or I-P scans outside the modelled core. Only `_delRowsByProp`
  is modelled, as `PropQueries.DelRowsByProp`.
- **The delete cursor.** The delete loop's cursor, which rests on the next
  item after `cursor.delete()`, is modelled by seeking `set_range(first)`
  again in the shrunken index. `SortedIndex.ReseekAfterRemove` shows the two
  land on the same item.
- **The geospace module.** `LatLongType` and `GeoMod` are left out. The
  syntax helpers `parse_float` and `nom` (synapse/lib/syntax.py) are not
  part of this model; they are parameters of `GeoDistance.Syntax`.
  `str.lower` is modelled on ASCII letters only. A non-string input to
  `DistType.norm` is modelled as a real number, and the empty subproperty
  dictionary is dropped. The number `parse_float` reads and its product
  with the unit's multiplier are exact reals, so the rounding of
  floating-point arithmetic is not modelled: when `parse_float` reads
  1.005, "1.005 km" normalises to exactly 1005000 here.
  `GeoDistance.KilometresAreThousandMetres` and
  `NormIgnoresUnitCase` fix their products by their hypotheses, so they
  hold under floating point too.
- **The marker-order doc comment.** The comment at lmdb.py:96-100 claims
  strings sort above negative numbers. The code does the opposite: the
  negative marker packs to `ff`, above `fe` and `fd`.
  `LmdbCodec.ValKeyKindOrder` states the order the code produces.
- **AddRows error precedence.** When two rows of a batch are both bad, the
  first one's error is reported. When a row is bad and the primary key is
  already used, the row's error wins, because the checks run before the
  transaction opens.
- KeyWindows.TimeWindow: covers non-negative time bounds only, because
  negative packed times sort above the upper bound's packing. Queries with
  negative `mintime` or `maxtime` are therefore outside every window lemma.
  The same goes for PropQueries.ItemInWindow, ScanFinds, ScanAdmitsEach,
  GetRowsByPropAnswer, CollisionListed, CheckedFinds, DeleteScanSurvivors
  and DelRowsByPropRemovesAdmitted (`NonNegativeTimes`).
- RangeQueries.SubrangeFinds: stated for ends of the same sign only, the
  only way `_rowsByMinmax` calls it. `RangeQueries.MinmaxFinds` covers
  ranges across zero.
- PropQueries.DeleteScanSurvivors: proved without a limit (`_delRowsByProp`
  passes none), and for no value or a value that is not hashed. With a
  hashed value, a digest collision makes `_delRowAndIndices` pop a row whose
  value differs (see Findings).
- RowRemoval.ReadRow: an iden longer than 16 bytes is reported as an
  unreadable row, while `_getRowByPkValEnc` may return a misparsed row.
  Rows are stored as records, not bytes, so the misparse cannot be stated.
- PropQueries.DelRowsByProp: its own contract says only that rows are
  removed. What it removes is stated by
  PropQueries.DelRowsByPropRemovesAdmitted, with the limits of
  DeleteScanSurvivors.
- **Python 2.7.** The module also runs on Python 2.7 (lmdb.py:85-92); the
  model is of Python 3. On 2.7, indexing the value key at lmdb.py:488 gives
  a one-byte string, so a long string value is re-checked. A row whose value
  differs then takes the `continue` at lmdb.py:520, which skips
  `cursor.next()`, so the loop reads the same item forever. That path is not
  modelled. `PropQueries.GetRowsByPropChecked` advances past such a row.
- PropQueries.DeleteScan: its own contract says only that rows are removed.
  What it removes is stated by PropQueries.DeleteScanSurvivors.
- RangeQueries.RowsByMinmax: an upper end too large to pack fails the call
  only when the non-negative half runs. When the negative half uses up the
  limit exactly, the call answers. The contract states the failure only
  without a limit.
- RangeQueries.MinmaxItems: a limit below one still lets one item through
  in each half, because the count is compared with the limit only after an
  item is taken. The bound stated is therefore two, not the limit.
- RangeQueries.MinmaxFinds: stated for the corrected start only, since the
  start as written misses items (see Findings).
  `RangeQueries.MinmaxAsWrittenFinds` states what the code as written
  finds: only items of the range, missing only items of a negative lower
  end.

## Findings

| source | as written | input that shows it | evidently intended | confidence | as-written member | corrected member |
|---|---|---|---|---|---|---|
| synapse/cores/lmdb.py:608-614 | the backward walk starts at the `set_range(first_key)` item when its key cut to `len(first_key)` equals `first_key` | P-V-T items for prop `a` with value -5 at times 10 and 20; range -5 to -5, right-closed | start after the last item whose cut key is at most `first_key`, so every item of the first value is seen (latest first) | not executed | RangeQueries.MinmaxMissesTies (`RangeQueries.RowsByMinmax` with `AsWritten` counts 1; RangeQueries.SubrangeMissesTies, RangeQueries.MinmaxAsWrittenFinds) | RangeQueries.MinmaxFinds (`RangeQueries.RowsByMinmax` with `Corrected`; RangeQueries.SubrangeFinds, SortedIndex.BackwardScanIsWindow) |
| synapse/cores/lmdb.py:488 | on Python 3, `v_key_enc[0] == HASH_VAL_MARKER_ENC` compares an int with a one-byte string, so it is always false and no hashed value is re-checked | listing prop `p` with a 128-character string value while another row of `p` holds a different long string with the same xxh64 digest | re-read each row of a hashed value, skip (uncounted) rows whose value differs | not executed | PropQueries.GetRowsByProp (PropQueries.CollisionListed: the colliding row is listed) | PropQueries.GetRowsByPropChecked (PropQueries.CheckedFinds) |
| synapse/cores/lmdb.py:420-423 | the row is popped from the rows table before `only_if_val` is compared, so a mismatch returns false with the row gone and its index items left behind | a consistent store whose row holding value 2 is deleted with `only_if_val` 1, as `_delRowsByIdProp` does for every row of the iden and prop | compare first; on a mismatch leave the row and its items alone | not executed | RowRemoval.DelRowAndIndices (RowRemoval.DelMismatchBreaksConsistency: the store becomes inconsistent) | RowRemoval.DelRowAndIndicesChecked (RowRemoval.DelCheckedKeepsConsistent) |
