/**
 * The cell-based materialized-view table read path.
 *
 * A logical row of `schema.len()` columns is stored as one key-value entry
 * per column: the key is the keyspace prefix, then the encoded primary key,
 * then a 4-byte column index; the value is the encoded cell. `Get` reads one
 * cell; `MViewTableIter.Next` regroups consecutive cells that share their
 * primary-key bytes into one row.
 */
module MView {
  import opened Wrappers
  import opened Values
  import opened Keyspace

  datatype OrderType = Ascending | Descending

  /** A sort direction paired with the position of the primary-key column it applies to. */
  type OrderPair = (OrderType, nat)

  datatype Field = Field(dataType: DataTypeKind)

  type Schema = seq<Field>

  /** The declared type of every column, in column order. */
  function DataTypes(schema: Schema): seq<DataTypeKind> {
    if schema == [] then [] else [schema[0].dataType] + DataTypes(schema[1..])
  }

  const U32_MODULUS: int := 0x1_0000_0000

  type U32 = x: int | 0 <= x < U32_MODULUS

  /** Width in bytes of the column-index suffix of every cell key. */
  const CELL_IDX_WIDTH: nat := 4

  datatype Error =
    | CorruptedKey         // a scanned key too short to hold the column-index suffix
    | IncompleteItem       // a row whose cells stop before `schema.len()` were seen
    | Encoding(reason: string)  // a failure reported by a serializer or deserializer

  /**
   * The encoders and decoders the read path calls: the primary-key serializer
   * (driven by the order pairs), the column-index serializer, the single-datum
   * decoder and the row decoder. Their code is not part of this model, so they
   * are carried as uninterpreted total functions.
   */
  datatype Codec = Codec(
    serializePk: (Row, seq<OrderPair>) -> Result<Bytes, string>,
    serializeCellIdx: U32 -> Result<Bytes, string>,
    deserializeDatum: (DataTypeKind, Bytes) -> Result<Datum, string>,
    deserializeRow: (seq<DataTypeKind>, Bytes) -> Result<Row, string>)

  /** The table: an immutable keyspace prefix, schema, pk columns and the pk serializer's order pairs. */
  datatype MViewTable = MViewTable(
    keyspace: Bytes,
    schema: Schema,
    pkColumns: seq<nat>,
    orderPairs: seq<OrderPair>)

  function Min(a: nat, b: nat): nat {
    if a <= b then a else b
  }

  /** Positional pairing of two lists, cut to the shorter one. */
  function Zip<A, B>(xs: seq<A>, ys: seq<B>): (r: seq<(A, B)>)
    ensures |r| == Min(|xs|, |ys|)
    ensures forall i :: 0 <= i < |r| ==> r[i] == (xs[i], ys[i])
  {
    if xs == [] || ys == [] then [] else [(xs[0], ys[0])] + Zip(xs[1..], ys[1..])
  }

  /** Builds a table; the i-th ordering is paired with the i-th pk column. */
  function New(keyspace: Bytes, schema: Schema, pkColumns: seq<nat>, orderings: seq<OrderType>): (t: MViewTable)
    ensures t.keyspace == keyspace && t.schema == schema && t.pkColumns == pkColumns
    ensures |t.orderPairs| == Min(|orderings|, |pkColumns|)
    ensures forall i :: 0 <= i < |t.orderPairs| ==> t.orderPairs[i] == (orderings[i], pkColumns[i])
  {
    MViewTable(keyspace, schema, pkColumns, Zip(orderings, pkColumns))
  }

  /** The key of one cell, below the keyspace prefix: encoded pk, then encoded column index. */
  function CellKey(t: MViewTable, codec: Codec, pk: Row, cellIdx: nat): (r: Result<Bytes, Error>)
    ensures r.Ok? <==> codec.serializePk(pk, t.orderPairs).Ok? && codec.serializeCellIdx(cellIdx % U32_MODULUS).Ok?
    ensures r.Ok? ==> r.value == codec.serializePk(pk, t.orderPairs).value
                                 + codec.serializeCellIdx(cellIdx % U32_MODULUS).value
    ensures r.Err? ==> r.error.Encoding?
  {
    match codec.serializePk(pk, t.orderPairs)
    case Err(e) => Err(Encoding(e))
    case Ok(pkBytes) =>
      // the column index is narrowed to 32 bits before it is encoded
      match codec.serializeCellIdx(cellIdx % U32_MODULUS)
      case Err(e) => Err(Encoding(e))
      case Ok(idxBytes) => Ok(pkBytes + idxBytes)
  }

  /** Point lookup of one cell; an absent cell is `Ok(None)`, not an error. */
  function Get(t: MViewTable, store: Store, codec: Codec, pk: Row, cellIdx: nat): (r: Result<Option<Datum>, Error>)
    requires cellIdx < |t.schema|
    ensures CellKey(t, codec, pk, cellIdx).Err? ==> r == Err(CellKey(t, codec, pk, cellIdx).error)
    ensures r.Err? ==> r.error.Encoding?
  {
    match CellKey(t, codec, pk, cellIdx)
    case Err(e) => Err(e)
    case Ok(key) =>
      match Keyspace.Get(store, t.keyspace, key)
      case None => Ok(None)
      case Some(buf) =>
        match codec.deserializeDatum(t.schema[cellIdx].dataType, buf)
        case Err(e) => Err(Encoding(e))
        case Ok(datum) => Ok(Some(datum))
  }

  /** Column indices are narrowed to 32 bits: indices 2^32 apart name the same cell key. */
  lemma CellKeyNarrowed(t: MViewTable, codec: Codec, pk: Row, cellIdx: nat)
    ensures CellKey(t, codec, pk, cellIdx + U32_MODULUS) == CellKey(t, codec, pk, cellIdx)
  {
    assert (cellIdx + U32_MODULUS) % U32_MODULUS == cellIdx % U32_MODULUS;
  }

  /**
   * Once the cell key is encoded, `Get` answers `Ok(None)` exactly when the
   * store holds no entry under the keyspace prefix followed by that key.
   */
  lemma GetAbsent(t: MViewTable, store: Store, codec: Codec, pk: Row, cellIdx: nat)
    requires cellIdx < |t.schema| && CellKey(t, codec, pk, cellIdx).Ok?
    ensures Get(t, store, codec, pk, cellIdx) == Ok(None) <==>
            forall i :: 0 <= i < |store| ==> store[i].key != t.keyspace + CellKey(t, codec, pk, cellIdx).value
  {
    LookupAbsent(store, t.keyspace + CellKey(t, codec, pk, cellIdx).value);
  }

  /**
   * When the store holds an entry under the cell's key, `Get` decodes that
   * entry's value with the declared type of column `cellIdx`.
   */
  lemma GetPresent(t: MViewTable, store: Store, codec: Codec, pk: Row, cellIdx: nat, i: nat)
    requires cellIdx < |t.schema| && CellKey(t, codec, pk, cellIdx).Ok?
    requires UniqueKeys(store) && i < |store|
    requires store[i].key == t.keyspace + CellKey(t, codec, pk, cellIdx).value
    ensures Get(t, store, codec, pk, cellIdx) ==
            match codec.deserializeDatum(t.schema[cellIdx].dataType, store[i].value)
            case Ok(d) => Ok(Some(d))
            case Err(e) => Err(Encoding(e))
  {
    LookupPresent(store, store[i].key, i);
  }

  // ---------------------------------------------------------------------
  // The row-grouping scan, specified on the sequence of entries the inner
  // store iterator yields and the position it has reached.
  // ---------------------------------------------------------------------

  /** A key long enough to hold the keyspace prefix and the column-index suffix. */
  predicate WellFormedKey(e: Entry, plen: nat) {
    |e.key| >= plen + CELL_IDX_WIDTH
  }

  /** The primary-key bytes of a cell key: prefix and column-index suffix stripped. */
  function PkBytes(e: Entry, plen: nat): Bytes
    requires WellFormedKey(e, plen)
  {
    e.key[plen..|e.key| - CELL_IDX_WIDTH]
  }

  /** The entry is a cell of the row whose pk bytes are `pk`. */
  predicate InRow(e: Entry, plen: nat, pk: Bytes) {
    WellFormedKey(e, plen) && PkBytes(e, plen) == pk
  }

  /** The end of the run of cells of row `pk` that starts at `i`. */
  function RunEnd(es: seq<Entry>, i: nat, plen: nat, pk: Bytes): (j: nat)
    requires i <= |es|
    ensures i <= j <= |es|
    ensures forall k :: i <= k < j ==> InRow(es[k], plen, pk)
    ensures j < |es| ==> !InRow(es[j], plen, pk)
    decreases |es| - i
  {
    if i < |es| && InRow(es[i], plen, pk) then RunEnd(es, i + 1, plen, pk) else i
  }

  /** `es[p..j]` are well-formed cells sharing the pk bytes of `es[p]` (vacuous when empty). */
  predicate Run(es: seq<Entry>, p: nat, j: nat, plen: nat)
    requires p <= j <= |es|
  {
    p < j ==> WellFormedKey(es[p], plen) && forall k :: p <= k < j ==> InRow(es[k], plen, PkBytes(es[p], plen))
  }

  /** A run grows by one cell of the same row. */
  lemma RunExtend(es: seq<Entry>, p: nat, c: nat, plen: nat)
    requires p <= c < |es| && Run(es, p, c, plen) && WellFormedKey(es[c], plen)
    requires p < c ==> PkBytes(es[c], plen) == PkBytes(es[p], plen)
    ensures Run(es, p, c + 1, plen)
  {
  }

  /** A complete row of `n` cells starts at `p`. */
  predicate RowAt(es: seq<Entry>, p: nat, plen: nat, n: nat) {
    0 < n && p + n <= |es| && Run(es, p, p + n, plen)
  }

  /** The cell values of `es`, concatenated in order. */
  function ConcatValues(es: seq<Entry>): Bytes {
    if es == [] then [] else ConcatValues(es[..|es| - 1]) + es[|es| - 1].value
  }

  /** Appending one cell appends its value to the concatenation. */
  lemma ConcatValuesSnoc(es: seq<Entry>, p: nat, c: nat)
    requires p <= c < |es|
    ensures ConcatValues(es[p..c + 1]) == ConcatValues(es[p..c]) + es[c].value
  {
    assert es[p..c + 1][..c - p] == es[p..c];
  }

  /** Hands the collected row bytes to the row decoder. */
  function DecodeRow(codec: Codec, schema: Schema, bytes: Bytes): (r: Result<Option<Row>, Error>)
    ensures r != Ok(None)
    ensures r.Ok? <==> codec.deserializeRow(DataTypes(schema), bytes).Ok?
    ensures r.Ok? ==> r.value == Some(codec.deserializeRow(DataTypes(schema), bytes).value)
    ensures r.Err? ==> r == Err(Encoding(codec.deserializeRow(DataTypes(schema), bytes).error))
  {
    match codec.deserializeRow(DataTypes(schema), bytes)
    case Ok(row) => Ok(Some(row))
    case Err(e) => Err(Encoding(e))
  }

  /** What one call of `next` returns, and where it leaves the inner iterator. */
  datatype Step = Step(outcome: Result<Option<Row>, Error>, cursor: nat)

  /**
   * One call of `next` from position `p`: the end of input gives `Ok(None)`;
   * a short key gives a corrupted-key error; otherwise the run of cells
   * sharing the first cell's pk bytes either supplies `schema.len()` cells,
   * whose values are decoded as one row, or stops early at the end of input,
   * at a short key or at a different pk.
   */
  function NextSpec(es: seq<Entry>, p: nat, plen: nat, schema: Schema, codec: Codec): (s: Step)
    requires p <= |es|
    ensures s.outcome == Ok(None) <==> p == |es|
    ensures s.outcome == Ok(None) ==> s.cursor == p
    ensures s.outcome != Ok(None) ==> p < s.cursor <= |es|
  {
    var n := |schema|;
    if p == |es| then Step(Ok(None), p)
    else if !WellFormedKey(es[p], plen) then Step(Err(CorruptedKey), p + 1)
    else
      var q := RunEnd(es, p, plen, PkBytes(es[p], plen));
      if 0 < n <= q - p then Step(DecodeRow(codec, schema, ConcatValues(es[p..p + n])), p + n)
      else if q == |es| then Step(Err(IncompleteItem), q)
      else if !WellFormedKey(es[q], plen) then Step(Err(CorruptedKey), q + 1)
      else Step(Err(IncompleteItem), q + 1)
  }

  /** A run of cells of one row reaches at least as far as the run is known to go. */
  lemma {:induction false} RunEndCovers(es: seq<Entry>, p: nat, j: nat, plen: nat)
    requires p < j <= |es| && Run(es, p, j, plen)
    ensures j <= RunEnd(es, p, plen, PkBytes(es[p], plen))
  {
    var r := RunEnd(es, p, plen, PkBytes(es[p], plen));
    if r < j {
      assert false;
    }
  }

  /** A run of cells of one row ends exactly where the next entry leaves it. */
  lemma {:induction false} RunEndAt(es: seq<Entry>, p: nat, j: nat, plen: nat)
    requires p < j <= |es| && Run(es, p, j, plen)
    requires j < |es| ==> !InRow(es[j], plen, PkBytes(es[p], plen))
    ensures RunEnd(es, p, plen, PkBytes(es[p], plen)) == j
  {
    RunEndCovers(es, p, j, plen);
  }

  /** `schema.len()` cells of one row at `p` are decoded together, and consumed. */
  lemma NextOnRow(es: seq<Entry>, p: nat, plen: nat, schema: Schema, codec: Codec)
    requires p <= |es| && RowAt(es, p, plen, |schema|)
    ensures NextSpec(es, p, plen, schema, codec)
            == Step(DecodeRow(codec, schema, ConcatValues(es[p..p + |schema|])), p + |schema|)
  {
    RunEndCovers(es, p, p + |schema|, plen);
  }

  /**
   * The row decoder is reached exactly when `schema.len()` cells of one row
   * start at `p`, and it is then given the cells' values in order; every
   * other call ends with `Ok(None)` or a corruption error.
   */
  lemma NextRowIff(es: seq<Entry>, p: nat, plen: nat, schema: Schema, codec: Codec)
    requires p <= |es|
    ensures RowAt(es, p, plen, |schema|) ==>
              NextSpec(es, p, plen, schema, codec)
              == Step(DecodeRow(codec, schema, ConcatValues(es[p..p + |schema|])), p + |schema|)
    ensures !RowAt(es, p, plen, |schema|) ==>
              NextSpec(es, p, plen, schema, codec).outcome in {Ok(None), Err(CorruptedKey), Err(IncompleteItem)}
  {
    if RowAt(es, p, plen, |schema|) {
      NextOnRow(es, p, plen, schema, codec);
    } else if p < |es| && WellFormedKey(es[p], plen) && 0 < |schema| {
      var q := RunEnd(es, p, plen, PkBytes(es[p], plen));
      if |schema| <= q - p {
        assert false;
      }
    }
  }

  /**
   * A short key met before the row is complete ends the call with a
   * corrupted-key error, whatever follows, the short key itself consumed.
   */
  lemma NextCorruptedKey(es: seq<Entry>, p: nat, plen: nat, schema: Schema, codec: Codec, j: nat)
    requires p <= j < |es| && Run(es, p, j, plen)
    requires !WellFormedKey(es[j], plen)
    requires |schema| == 0 || j - p < |schema|
    ensures NextSpec(es, p, plen, schema, codec) == Step(Err(CorruptedKey), j + 1)
  {
    if p < j {
      RunEndAt(es, p, j, plen);
    }
  }

  /**
   * A cell of a different row met before the row is complete ends the call
   * with an incomplete-item error, that cell consumed.
   */
  lemma NextPkChange(es: seq<Entry>, p: nat, plen: nat, schema: Schema, codec: Codec, j: nat)
    requires p < j < |es| && Run(es, p, j, plen)
    requires WellFormedKey(es[j], plen) && PkBytes(es[j], plen) != PkBytes(es[p], plen)
    requires |schema| == 0 || j - p < |schema|
    ensures NextSpec(es, p, plen, schema, codec) == Step(Err(IncompleteItem), j + 1)
  {
    RunEndAt(es, p, j, plen);
  }

  /** Input that ends inside a row ends the call with an incomplete-item error. */
  lemma NextExhausted(es: seq<Entry>, p: nat, plen: nat, schema: Schema, codec: Codec)
    requires p < |es| && Run(es, p, |es|, plen)
    requires |schema| == 0 || |es| - p < |schema|
    ensures NextSpec(es, p, plen, schema, codec) == Step(Err(IncompleteItem), |es|)
  {
    RunEndAt(es, p, |es|, plen);
  }

  /**
   * Two inputs that agree from position `p` on in key lengths, pk bytes and
   * values: the entries already consumed, the keyspace-prefix bytes and the
   * column-index suffixes may differ.
   */
  predicate SameObservable(es: seq<Entry>, es': seq<Entry>, p: nat, plen: nat) {
    && |es| == |es'| && p <= |es|
    && forall k :: p <= k < |es| ==>
         && |es[k].key| == |es'[k].key|
         && es[k].value == es'[k].value
         && (WellFormedKey(es[k], plen) ==> PkBytes(es[k], plen) == PkBytes(es'[k], plen))
  }

  lemma {:induction false} RunEndObservable(es: seq<Entry>, es': seq<Entry>, i: nat, plen: nat, pk: Bytes)
    requires i <= |es| && SameObservable(es, es', i, plen)
    ensures RunEnd(es, i, plen, pk) == RunEnd(es', i, plen, pk)
    decreases |es| - i
  {
    if i < |es| {
      assert InRow(es[i], plen, pk) == InRow(es'[i], plen, pk);
      RunEndObservable(es, es', i + 1, plen, pk);
    }
  }

  lemma {:induction false} ConcatValuesSame(xs: seq<Entry>, ys: seq<Entry>)
    requires |xs| == |ys| && forall k :: 0 <= k < |xs| ==> xs[k].value == ys[k].value
    ensures ConcatValues(xs) == ConcatValues(ys)
  {
    if xs != [] {
      ConcatValuesSame(xs[..|xs| - 1], ys[..|ys| - 1]);
    }
  }

  /**
   * A call of `next` depends only on the entries from the cursor on, and of
   * those only on key lengths, pk bytes and values: nothing but the inner
   * iterator's position is carried from one call to the next, and neither
   * the keyspace-prefix bytes nor the column-index suffix is inspected.
   */
  lemma NextObservesOnlyPkBytes(es: seq<Entry>, es': seq<Entry>, p: nat, plen: nat, schema: Schema, codec: Codec)
    requires SameObservable(es, es', p, plen)
    ensures NextSpec(es, p, plen, schema, codec) == NextSpec(es', p, plen, schema, codec)
  {
    if p < |es| && WellFormedKey(es[p], plen) {
      var pk := PkBytes(es[p], plen);
      RunEndObservable(es, es', p, plen, pk);
      var q := RunEnd(es, p, plen, pk);
      if 0 < |schema| <= q - p {
        ConcatValuesSame(es[p..p + |schema|], es'[p..p + |schema|]);
      }
    }
  }

  // ---------------------------------------------------------------------
  // Whole scans: calling `next` until it returns `None` or an error.
  // ---------------------------------------------------------------------

  /** The rows a scan yields from position `p`, or the error that aborts it. */
  function Drain(es: seq<Entry>, p: nat, plen: nat, schema: Schema, codec: Codec): Result<seq<Row>, Error>
    requires p <= |es|
    decreases |es| - p
  {
    var s := NextSpec(es, p, plen, schema, codec);
    match s.outcome
    case Err(e) => Err(e)
    case Ok(None) => Ok([])
    case Ok(Some(row)) =>
      match Drain(es, s.cursor, plen, schema, codec)
      case Err(e) => Err(e)
      case Ok(rows) => Ok([row] + rows)
  }

  function Flatten(groups: seq<seq<Entry>>): seq<Entry> {
    if groups == [] then [] else groups[0] + Flatten(groups[1..])
  }

  /** `cells` are exactly `n` cells of one row, in a form the row decoder accepts. */
  predicate CompleteRow(cells: seq<Entry>, plen: nat, schema: Schema, codec: Codec) {
    && RowAt(cells, 0, plen, |schema|)
    && |cells| == |schema|
    && codec.deserializeRow(DataTypes(schema), ConcatValues(cells)).Ok?
  }

  /** The cells of a row keep forming a row where they sit inside a longer input. */
  lemma RowAtShift(es: seq<Entry>, p: nat, plen: nat, cells: seq<Entry>)
    requires p + |cells| <= |es| && es[p..p + |cells|] == cells
    requires RowAt(cells, 0, plen, |cells|)
    ensures RowAt(es, p, plen, |cells|)
  {
    assert es[p] == cells[0];
    var pk := PkBytes(cells[0], plen);
    forall k | p <= k < p + |cells|
      ensures InRow(es[k], plen, pk)
    {
      assert es[k] == cells[k - p];
    }
  }

  /** A complete row stored at `p` is what one call of `next` returns. */
  lemma NextOnCompleteRow(es: seq<Entry>, p: nat, plen: nat, schema: Schema, codec: Codec, cells: seq<Entry>)
    requires p + |cells| <= |es| && es[p..p + |cells|] == cells
    requires CompleteRow(cells, plen, schema, codec)
    ensures NextSpec(es, p, plen, schema, codec)
            == Step(Ok(Some(codec.deserializeRow(DataTypes(schema), ConcatValues(cells)).value)), p + |cells|)
  {
    RowAtShift(es, p, plen, cells);
    NextOnRow(es, p, plen, schema, codec);
    var decoded := DecodeRow(codec, schema, ConcatValues(cells));
    assert NextSpec(es, p, plen, schema, codec) == Step(decoded, p + |cells|);
    assert decoded == Ok(Some(codec.deserializeRow(DataTypes(schema), ConcatValues(cells)).value));
  }

  /** A row returned by `next` heads whatever the rest of the scan yields. */
  lemma DrainAfterRow(es: seq<Entry>, p: nat, q: nat, plen: nat, schema: Schema, codec: Codec,
                      row: Row, rows: seq<Row>)
    requires p <= |es| && NextSpec(es, p, plen, schema, codec) == Step(Ok(Some(row)), q)
    requires q <= |es| && Drain(es, q, plen, schema, codec) == Ok(rows)
    ensures Drain(es, p, plen, schema, codec) == Ok([row] + rows)
  {
  }

  /** The rows a sequence of complete rows decodes to, one per group, in order. */
  function DecodedRows(groups: seq<seq<Entry>>, plen: nat, schema: Schema, codec: Codec): (rows: seq<Row>)
    requires forall g :: 0 <= g < |groups| ==> CompleteRow(groups[g], plen, schema, codec)
    ensures |rows| == |groups|
    ensures forall g :: 0 <= g < |groups| ==>
              Ok(rows[g]) == codec.deserializeRow(DataTypes(schema), ConcatValues(groups[g]))
  {
    if groups == [] then []
    else
      assert CompleteRow(groups[0], plen, schema, codec);
      assert forall g :: 0 <= g < |groups| - 1 ==> groups[1..][g] == groups[g + 1];
      [codec.deserializeRow(DataTypes(schema), ConcatValues(groups[0])).value]
      + DecodedRows(groups[1..], plen, schema, codec)
  }

  /**
   * A store region made of complete rows is scanned to exactly those rows,
   * in store order, followed by the end of the scan.
   */
  lemma {:induction false} DrainCompleteRows(es: seq<Entry>, p: nat, plen: nat, schema: Schema, codec: Codec,
                                            groups: seq<seq<Entry>>)
    requires p <= |es| && es[p..] == Flatten(groups)
    requires forall g :: 0 <= g < |groups| ==> CompleteRow(groups[g], plen, schema, codec)
    ensures Drain(es, p, plen, schema, codec) == Ok(DecodedRows(groups, plen, schema, codec))
    decreases |groups|
  {
    if groups == [] {
      assert es[p..] == [];
      assert p == |es|;
    } else {
      var g0, rest := groups[0], groups[1..];
      var q := p + |g0|;
      assert es[p..] == g0 + Flatten(rest);
      assert es[q..] == Flatten(rest);
      assert forall g :: 0 <= g < |rest| ==> rest[g] == groups[g + 1];
      DrainCompleteRows(es, q, plen, schema, codec, rest);
      var rows := DecodedRows(rest, plen, schema, codec);
      assert Drain(es, q, plen, schema, codec) == Ok(rows);
      assert es[p..q] == g0;
      NextOnCompleteRow(es, p, plen, schema, codec, g0);
      var row0 := codec.deserializeRow(DataTypes(schema), ConcatValues(g0)).value;
      assert NextSpec(es, p, plen, schema, codec) == Step(Ok(Some(row0)), q);
      DrainAfterRow(es, p, q, plen, schema, codec, row0, rows);
    }
  }

  // ---------------------------------------------------------------------
  // The stateful iterator.
  // ---------------------------------------------------------------------

  /**
   * The table scan iterator. The inner store iterator is the sequence of
   * entries it yields plus the number of them handed out so far.
   */
  class MViewTableIter {
    const entries: seq<Entry>
    var cursor: nat
    const prefix: Bytes
    const schema: Schema
    const pkColumns: seq<nat>
    const codec: Codec

    ghost predicate Valid()
      reads this
    {
      cursor <= |entries|
    }

    constructor (inner: seq<Entry>, prefix: Bytes, schema: Schema, pkColumns: seq<nat>, codec: Codec)
      ensures Valid() && cursor == 0 && entries == inner
      ensures this.prefix == prefix && this.schema == schema && this.pkColumns == pkColumns && this.codec == codec
    {
      entries := inner;
      cursor := 0;
      this.prefix := prefix;
      this.schema := schema;
      this.pkColumns := pkColumns;
      this.codec := codec;
    }

    /**
     * Pulls entries until `schema.len()` cells of one row are collected, then
     * decodes their concatenated values as a row. Each call starts with no
     * pk bytes, no cells and no row bytes.
     */
    method Next() returns (r: Result<Option<Row>, Error>)
      requires Valid()
      modifies this
      ensures Valid()
      ensures Step(r, cursor) == NextSpec(entries, old(cursor), |prefix|, schema, codec)
    {
      ghost var start := cursor;
      var pkBuf: Bytes := [];
      var restored: nat := 0;
      var rowBytes: Bytes := [];
      while true
        invariant start <= cursor <= |entries|
        invariant restored == cursor - start
        invariant Run(entries, start, cursor, |prefix|)
        invariant restored > 0 ==> pkBuf == PkBytes(entries[start], |prefix|)
        invariant rowBytes == ConcatValues(entries[start..cursor])
        invariant |schema| == 0 || restored < |schema|
        decreases |entries| - cursor
      {
        if cursor == |entries| {
          if restored == 0 {
            return Ok(None);
          }
          NextExhausted(entries, start, |prefix|, schema, codec);
          return Err(IncompleteItem);
        }
        var e := entries[cursor];
        cursor := cursor + 1;
        if |e.key| < |prefix| + 4 {
          NextCorruptedKey(entries, start, |prefix|, schema, codec, cursor - 1);
          return Err(CorruptedKey);
        }
        var curPk := e.key[|prefix|..|e.key| - 4];
        if restored == 0 {
          pkBuf := curPk;
        } else if pkBuf != curPk {
          NextPkChange(entries, start, |prefix|, schema, codec, cursor - 1);
          return Err(IncompleteItem);
        }
        RunExtend(entries, start, cursor - 1, |prefix|);
        ConcatValuesSnoc(entries, start, cursor - 1);
        rowBytes := rowBytes + e.value;
        restored := restored + 1;
        if restored == |schema| {
          break;
        }
      }
      assert cursor == start + |schema|;
      assert RowAt(entries, start, |prefix|, |schema|);
      NextOnRow(entries, start, |prefix|, schema, codec);
      r := DecodeRow(codec, schema, rowBytes);
    }
  }

  /** Opens a scan over every entry stored under the table's keyspace prefix. */
  method Iter(t: MViewTable, store: Store, codec: Codec) returns (it: MViewTableIter)
    ensures fresh(it) && it.Valid() && it.cursor == 0
    ensures it.entries == Scan(store, t.keyspace) && it.prefix == t.keyspace
    ensures it.schema == t.schema && it.pkColumns == t.pkColumns && it.codec == codec
  {
    it := new MViewTableIter(Scan(store, t.keyspace), t.keyspace, t.schema, t.pkColumns, codec);
  }

  // ---------------------------------------------------------------------
  // Scenarios.
  // ---------------------------------------------------------------------

  /** A store holding one complete three-column row yields that row, then the end. */
  lemma OneRowScan(prefix: Bytes, pk: Bytes, i0: Bytes, i1: Bytes, i2: Bytes,
                   v0: Bytes, v1: Bytes, v2: Bytes, schema: Schema, codec: Codec)
    requires |schema| == 3 && |i0| == |i1| == |i2| == CELL_IDX_WIDTH
    ensures var es := [Entry(prefix + pk + i0, v0), Entry(prefix + pk + i1, v1), Entry(prefix + pk + i2, v2)];
            && NextSpec(es, 0, |prefix|, schema, codec) == Step(DecodeRow(codec, schema, v0 + v1 + v2), 3)
            && NextSpec(es, 3, |prefix|, schema, codec) == Step(Ok(None), 3)
  {
    var es := [Entry(prefix + pk + i0, v0), Entry(prefix + pk + i1, v1), Entry(prefix + pk + i2, v2)];
    assert PkBytes(es[0], |prefix|) == pk;
    assert PkBytes(es[1], |prefix|) == pk;
    assert PkBytes(es[2], |prefix|) == pk;
    NextRowIff(es, 0, |prefix|, schema, codec);
    assert es[0..3] == es;
    assert ConcatValues(es) == v0 + v1 + v2 by {
      assert es[..2][..1] == [es[0]];
      assert ConcatValues([es[0]]) == v0;
    }
  }

  /** A row with only two of its three cells stored makes the scan fail. */
  lemma PartialRowScan(prefix: Bytes, pk: Bytes, i0: Bytes, i1: Bytes,
                       v0: Bytes, v1: Bytes, schema: Schema, codec: Codec)
    requires |schema| == 3 && |i0| == |i1| == CELL_IDX_WIDTH
    ensures var es := [Entry(prefix + pk + i0, v0), Entry(prefix + pk + i1, v1)];
            NextSpec(es, 0, |prefix|, schema, codec) == Step(Err(IncompleteItem), 2)
  {
    var es := [Entry(prefix + pk + i0, v0), Entry(prefix + pk + i1, v1)];
    assert PkBytes(es[0], |prefix|) == pk;
    assert PkBytes(es[1], |prefix|) == pk;
    NextExhausted(es, 0, |prefix|, schema, codec);
  }
}
