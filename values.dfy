/** The value model exchanged by the table read path and by aggregators. */
module Values {
  import opened Wrappers

  /** The declared type of a column; it selects the codec used for a cell. */
  datatype DataTypeKind = Int16 | Int32 | Int64 | Float32 | Float64 | Decimal | Boolean | Varchar

  /** A non-null scalar value. Floating-point values are kept as exact reals. */
  datatype Scalar =
    | IntValue(i: int)
    | RealValue(r: real)
    | BoolValue(b: bool)
    | Utf8(s: string)

  /** A nullable scalar: `None` is SQL NULL. */
  type Datum = Option<Scalar>

  /** A row: one datum per column. */
  type Row = seq<Datum>

  /** One row slot of a stream chunk; the chunk's visibility marks it present or filtered out. */
  datatype ChunkRow = ChunkRow(visible: bool, row: Row)

  /** A stream chunk: its row slots by physical position, visible or not. */
  type Chunk = seq<ChunkRow>

  /** Every slot has a first column, so `datum_at(0)` is defined on every row. */
  predicate HasFirstColumn(c: Chunk) {
    forall i :: 0 <= i < |c| ==> |c[i].row| > 0
  }

  /** The rows a chunk's row iterator yields: the visible ones, in position order. */
  function VisibleRows(c: Chunk): (rows: seq<Row>)
    ensures |rows| <= |c|
    ensures HasFirstColumn(c) ==> forall j :: 0 <= j < |rows| ==> |rows[j]| > 0
  {
    if c == [] then []
    else
      var last := c[|c| - 1];
      VisibleRows(c[..|c| - 1]) + (if last.visible then [last.row] else [])
  }

  /** A row is yielded exactly when some visible slot holds it. */
  lemma {:induction false} VisibleRowsMember(c: Chunk, r: Row)
    ensures r in VisibleRows(c) <==> exists i :: 0 <= i < |c| && c[i].visible && c[i].row == r
  {
    if c != [] {
      var init := c[..|c| - 1];
      VisibleRowsMember(init, r);
      if r in VisibleRows(c) && r !in VisibleRows(init) {
        assert c[|c| - 1].visible && c[|c| - 1].row == r;
      }
      if i :| 0 <= i < |c| && c[i].visible && c[i].row == r {
        if i < |c| - 1 {
          assert init[i] == c[i];
        }
      }
    }
  }

  /** The visible rows of two consecutive stretches of slots are those of each, in turn. */
  lemma {:induction false} VisibleRowsAppend(c1: Chunk, c2: Chunk)
    ensures VisibleRows(c1 + c2) == VisibleRows(c1) + VisibleRows(c2)
    decreases |c2|
  {
    if c2 != [] {
      var init := c2[..|c2| - 1];
      assert (c1 + c2)[..|c1 + c2| - 1] == c1 + init;
      assert (c1 + c2)[|c1 + c2| - 1] == c2[|c2| - 1];
      VisibleRowsAppend(c1, init);
    } else {
      assert c1 + c2 == c1;
    }
  }
}
