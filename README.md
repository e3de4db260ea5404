# Materialized-view table read path and `percentile_disc`, modelled in Dafny

This project models two sequential parts of a streaming database.

**The cell-based materialized-view table read path** (`mview_table.dfy`, module `MView`).
A logical row of `schema.len()` columns is stored as one key-value entry per column.
The key is the keyspace prefix, then the encoded primary key, then a 4-byte column index.
The value is the encoded cell.

- `New` builds a table and pairs each sort direction with its pk column.
- `Get` reads one cell by point lookup. An absent cell is `Ok(None)`, not an error.
- `MViewTableIter.Next` pulls entries from the ordered store iterator. It groups consecutive
  entries that share their pk bytes into one row, and decodes the row once `schema.len()`
  cells are collected. It reports a "corrupted key" error for a key too short to hold the
  prefix and the suffix. It reports an "incomplete item" error when the pk changes or the
  input ends inside a row.

`Next` is a method on a class whose state is the inner iterator's position. It is proved
against `NextSpec`, a declarative specification built on `RunEnd`: the end of the run of
well-formed entries that share the first entry's pk bytes. Lemmas characterise `NextSpec`
case by case. `Drain` models calling `next` until the end. `DrainCompleteRows` proves that
a region made of complete rows scans to exactly those rows, in order.

The store (`keyspace.dfy`, module `Keyspace`) is a sequence of entries in key order.
It offers a point lookup and a prefix scan. The pk serializer, the cell-index serializer
and the two decoders are fields of the `Codec` datatype. They are total functions the
model does not interpret.

**The `percentile_disc` aggregator** (`percentile_disc.dfy`, module `Percentile`).
`PercentileDisc` buffers the non-null first-column values of the visible rows of its input
chunks in arrival order. A chunk (`Values.Chunk`) is its sequence of row slots by position,
each marked visible or not; `update_range` takes a range of positions, invisible ones included. `Select` picks the value at index 0 for a fraction of 0, and at `ceil(f·n) − 1`
otherwise. `SelectIndex` proves that this index is the first whose 1-based position reaches
`f·n`, and `SelectIndexUnique` proves it is the only such index. The aggregator does not
sort; the values must arrive in the required order.

Shared modules: `Wrappers` (`Option`, `Result`) and `Values` (scalars, datums, rows, chunks,
column types).

Two points where descriptions of the system differ from its code; the model follows the code:
- The short-key error is sometimes called "malformed key"; the code reports "corrupted key".
- An out-of-range column index passed to `get` is sometimes described as rejected with an
  invalid-argument error. The code only has a debug assertion, which the model states as a
  precondition.

## Model

| member | source | states |
|---|---|---|
| `MView.Zip` | rust/stream/src/executor/mview/table.rs:38-41 | the i-th result pairs the i-th elements of both lists; the length is that of the shorter list |
| `MView.New` | rust/stream/src/executor/mview/table.rs:32-48 | the table keeps its keyspace, schema and pk columns; the order pairs match the i-th ordering with the i-th pk column, truncated to the shorter list |
| `MView.CellKey` | rust/stream/src/executor/mview/table.rs:74-82 | the cell key exists exactly when both the pk and the column index (narrowed to 32 bits) encode; it is then the encoded pk followed by the encoded index; any failure is an encoding error |
| `MView.CellKeyNarrowed` | rust/stream/src/executor/mview/table.rs:79 | column indices 2^32 apart give the same cell key, because the index is cast to `u32` before encoding |
| `MView.Get` | rust/stream/src/executor/mview/table.rs:70-95 | a pk or index that cannot be encoded fails before the store is read, with that encoding error; every error `get` returns is an encoding error (its hit and miss outcomes are stated by `GetAbsent` and `GetPresent`) |
| `MView.GetAbsent` | rust/stream/src/executor/mview/table.rs:70-95 | once the cell key (encoded pk then encoded column index) is built, `get` returns `Ok(None)` exactly when no stored key equals keyspace prefix ++ that cell key |
| `MView.GetPresent` | rust/stream/src/executor/mview/table.rs:86-93 | when that key is stored, `get` decodes the stored value with the declared type of column `cell_idx`, and wraps the result in `Some` |
| `MView.RunEnd` | rust/stream/src/executor/mview/table.rs:133-139 | the returned index ends the run of well-formed cells with the given pk bytes: every cell before it belongs to the run, and the entry at it does not |
| `MView.DecodeRow` | rust/stream/src/executor/mview/table.rs:156-164 | decoding collected row bytes never yields "no row": it succeeds exactly when the row deserializer accepts the bytes with the schema's column types, giving `Some` of its row, and otherwise passes on the deserializer's error |
| `MView.NextSpec` | rust/stream/src/executor/mview/table.rs:120-165 | one `next` call returns `Ok(None)` exactly at the end of input and then leaves the position unchanged; any other outcome consumes at least one entry and stays within the input |
| `MView.NextRowIff` | rust/stream/src/executor/mview/table.rs:141-145 | the row decoder is reached exactly when `schema.len()` (> 0) well-formed cells with equal pk bytes start at the cursor; it then receives their values concatenated in order and the cursor advances by `schema.len()`; every other call ends in `Ok(None)`, corrupted key or incomplete item |
| `MView.NextCorruptedKey` | rust/stream/src/executor/mview/table.rs:129-131 | a key shorter than prefix length + 4, met before the row is complete, gives "corrupted key" whatever follows; the short entry is consumed |
| `MView.NextPkChange` | rust/stream/src/executor/mview/table.rs:133-139 | a well-formed cell with different pk bytes, met before `schema.len()` cells are collected, gives "incomplete item"; that cell is consumed |
| `MView.NextExhausted` | rust/stream/src/executor/mview/table.rs:150-153 | input that ends after 1 to `schema.len()-1` cells of one row gives "incomplete item" |
| `MView.NextObservesOnlyPkBytes` | rust/stream/src/executor/mview/table.rs:121-145 | a call depends only on the entries from the cursor on, and only on their key lengths, pk bytes and values; no state but the position carries over, and neither the prefix bytes nor the column-index suffix is inspected |
| `MView.DrainCompleteRows` | rust/stream/src/executor/mview/table.rs:120-165 | repeated `next` calls over a region of complete rows yield exactly those rows, decoded, in store order, then the end |
| `MView.OneRowScan` | rust/stream/src/executor/mview/table.rs:448-462 | a store with one complete 3-column row yields that row (its three values concatenated), then `None` |
| `MView.PartialRowScan` | rust/stream/src/executor/mview/table.rs:150-153 | a row with two of its three cells stored fails with "incomplete item" |
| `MView.MViewTableIter.constructor` | rust/stream/src/executor/mview/table.rs:107-116 | the iterator starts at the beginning of the inner entries and keeps the prefix, schema and pk columns |
| `MView.MViewTableIter.Next` | rust/stream/src/executor/mview/table.rs:120-165 | the loop's result and the new inner position are exactly those of `NextSpec` from the old position |
| `MView.Iter` | rust/stream/src/executor/mview/table.rs:60-67 | opens a fresh iterator over the store entries under the table's keyspace prefix, with the table's prefix, schema and pk columns |
| `Keyspace.LookupAbsent` | rust/stream/src/executor/mview/table.rs:74-84 | a point read misses exactly when no entry carries the key |
| `Keyspace.LookupPresent` | rust/stream/src/executor/mview/table.rs:74-84 | with unique keys, a point read returns the value stored under the key |
| `Keyspace.Scan` | rust/stream/src/executor/mview/table.rs:60-67 | the inner iterator yields exactly the stored entries whose keys start with the keyspace prefix (order is stated by `ScanAppend` and `ScanAllUnderPrefix`) |
| `Keyspace.ScanAppend` | rust/stream/src/executor/mview/table.rs:60-67 | the scan of two consecutive stretches of the store is the scan of the first followed by the scan of the second: entries come out in store order, each as often as it is stored |
| `Keyspace.ScanAllUnderPrefix` | rust/stream/src/executor/mview/table.rs:60-67 | a store whose keys all carry the prefix is scanned unchanged: whole and in store order |
| `Keyspace.ScanIsolation` | rust/stream/src/executor/mview/table.rs:465-587 | two tables whose prefixes are not prefixes of each other scan disjoint entries of a shared store |
| `Percentile.Ceil` | src/expr/src/agg/percentile_disc.rs:139 | the result is the least integer not below its argument |
| `Percentile.SelectIndex` | src/expr/src/agg/percentile_disc.rs:135-140 | the index is in bounds, its 1-based position reaches `f·n`, and no earlier index does |
| `Percentile.SelectIndexUnique` | src/expr/src/agg/percentile_disc.rs:27-29 | the first index whose position reaches the fraction is unique, so the selection rule names one value |
| `Percentile.Select` | src/expr/src/agg/percentile_disc.rs:133-144 | the result is NULL exactly when the fraction is NULL or nothing is buffered; otherwise it is a buffered value |
| `Percentile.SelectEnds` | src/expr/src/agg/percentile_disc.rs:136-139 | a fraction of 0 selects the first value and a fraction of 1 the last |
| `Percentile.ThreeValues` | src/expr/src/agg/percentile_disc.rs:43-66 | with three values, fractions 0 and 0.33 give the first, 0.34 the second, 0.67 and 1 the third, and NULL gives NULL |
| `Percentile.FirstColumnValues` | src/expr/src/agg/percentile_disc.rs:119-124 | no more values are collected than there are rows |
| `Percentile.FirstColumnValuesAppend` | src/expr/src/agg/percentile_disc.rs:119-131 | collecting over two consecutive batches equals collecting over each in turn |
| `Percentile.FirstColumnValuesMember` | src/expr/src/agg/percentile_disc.rs:106-110 | a value is collected exactly when some row carries it, non-null, in its first column |
| `Percentile.FirstColumnValuesNoNulls` | src/expr/src/agg/percentile_disc.rs:119-124 | with no NULL in the first column, every row contributes its value, at its own position |
| `Values.VisibleRowsMember` | src/expr/src/agg/percentile_disc.rs:120 | a row is yielded by the chunk's row iterator exactly when some visible slot holds it |
| `Values.VisibleRowsAppend` | src/expr/src/agg/percentile_disc.rs:120 | the visible rows of two consecutive stretches of slots are those of the first followed by those of the second |
| `Percentile.ChunkValuesSnoc` | src/expr/src/agg/percentile_disc.rs:127-128 | one more slot adds its first-column value when it is visible and non-null, and nothing otherwise |
| `Percentile.UpdateIsUpdateRanges` | src/expr/src/agg/percentile_disc.rs:119-131 | `update` on a chunk buffers the same values as `update_range` over positions `[0, k)` followed by `update_range` over `[k, n)` |
| `Percentile.RangeSkipsInvisible` | src/expr/src/agg/percentile_disc.rs:127 | a range counts positions, invisible rows included: with the first of three rows invisible, `[0, 1)` buffers nothing and `[0, 2)` only the second row's value |
| `Percentile.PercentileDisc.GetOutput` | src/expr/src/agg/percentile_disc.rs:133-144 | the output is NULL exactly when the fraction is NULL or nothing is buffered; otherwise it is the buffered value at the selected index |
| `Percentile.PercentileDisc.constructor` | src/expr/src/agg/percentile_disc.rs:98-104 | the aggregator keeps the fraction and return type, with an empty buffer |
| `Percentile.PercentileDisc.AddDatum` | src/expr/src/agg/percentile_disc.rs:106-110 | a non-null datum is appended to the buffer; a NULL leaves the buffer unchanged |
| `Percentile.PercentileDisc.Update` | src/expr/src/agg/percentile_disc.rs:119-124 | the buffer grows by the non-null first-column values of every visible row of the chunk, in position order |
| `Percentile.PercentileDisc.UpdateRange` | src/expr/src/agg/percentile_disc.rs:126-131 | the buffer grows by the non-null first-column values of the visible rows at positions `[start, end)`, in position order |
| `Percentile.PercentileDisc.Output` | src/expr/src/agg/percentile_disc.rs:146-150 | returns what `get_output` returns on the old buffer, and leaves the buffer empty |
| `Percentile.PercentileDisc.Reset` | src/expr/src/agg/percentile_disc.rs:152-154 | leaves the buffer empty |

## Left out

- Async execution. Reads are modelled as sequential calls.
- Store failures: a failing `inner.next()` in the scan and a failing `keyspace.get` in `get` are not modelled. The store is an in-memory sequence that always answers.
- Keyspace internals. `Keyspace.get(key)` is modelled as a lookup of prefix ++ key, and the keyspace iterator as the stored entries under the prefix, in store order. The `Keyspace` code is not part of this model.
- The key order of the store. The scan's grouping does not depend on it, so keys are not ordered in the model.
- `serialize_pk`, `serialize_cell_idx`, `deserialize_datum_from` and `RowDeserializer` are uninterpreted `Codec` fields, because their code is not part of this model. Their round-trip and order-preservation properties are not stated.
- The write path (`ManagedMViewState`: `put`, `delete`, `flush`). Its code is not part of this model. The test scenarios start from a store that already holds the flushed cells.
- `ScannableTable` glue, `get_data_by_columns` (unimplemented), `into_any`, `storage`, the `schema` accessors and the `Debug` impl. They carry no logic beyond field access.
- `MView.Get`: in a release build the debug assertion on `cell_idx` is compiled out. An out-of-range index would then return `Ok(None)` for an absent key and panic on indexing the schema for a present one. The model keeps the assertion as a precondition.
- `percentile_disc`: the `build` registration and the extraction of the f64 literal, `get_state`/`set_state` (unimplemented), heap-size estimation and the `return_type` accessor.
- `Percentile.Select`: the fraction is an exact `real`. The source multiplies two f64 values and rounds up, so IEEE-754 rounding of `f·n` can select a different index at boundaries.
- `Percentile.Select`: fractions outside [0, 1] are excluded by the `Fraction` type. In the source they index outside the buffer and panic.
- `get_output` always returns `Ok` in the source. The model returns the datum directly.
- A `StreamChunk` is modelled as its row slots, each with its visibility; columns, ops and the visibility bitmap's layout are not modelled. Every slot must have a first column, as `datum_at(0)` requires. `StreamChunk`'s code is not part of this model.
- `Percentile.PercentileDisc.UpdateRange`: a range reaching past the chunk's last slot is excluded by a precondition; what `rows_in` does then is not part of this model.
