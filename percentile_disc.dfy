/**
 * The `percentile_disc` aggregate: it buffers the non-null values of its
 * argument in arrival order and, on output, picks the first buffered value
 * whose position reaches the requested fraction. It does not sort: the
 * values are expected to arrive in the ordering of the WITHIN GROUP clause.
 */
module Percentile {
  import opened Wrappers
  import opened Values

  /** A percentile fraction; outside [0, 1] the selected index would be out of bounds. */
  type Fraction = f: real | 0.0 <= f <= 1.0

  /** The least integer not below `x`. */
  function Ceil(x: real): (c: int)
    ensures c as real - 1.0 < x <= c as real
  {
    if x.Floor as real == x then x.Floor else x.Floor + 1
  }

  /**
   * The index selected among `n` buffered values: the first one for a
   * fraction of 0, the one at `ceil(f * n) - 1` otherwise. It is the first
   * index whose position reaches the fraction `f` of `n`.
   */
  function SelectIndex(f: Fraction, n: nat): (k: nat)
    requires n > 0
    ensures k < n
    ensures Reaches(f, n, k)
    ensures forall j :: 0 <= j < k ==> !Reaches(f, n, j)
  {
    if f == 0.0 then 0
    else
      var c := Ceil(f * n as real);
      ScaledInRange(f, n);
      CeilPosition(f, n, c);
      c - 1
  }

  /** `ceil(f * n)` is a 1-based position among `n`, and no earlier position reaches `f * n`. */
  lemma CeilPosition(f: Fraction, n: nat, c: int)
    requires 0.0 < f * n as real <= n as real
    requires c as real - 1.0 < f * n as real <= c as real
    ensures 0 < c <= n
    ensures forall j :: 0 <= j < c - 1 ==> !Reaches(f, n, j)
  {
  }

  /** A non-zero fraction of `n` values lies in `(0, n]`. */
  lemma ScaledInRange(f: Fraction, n: nat)
    requires n > 0 && f != 0.0
    ensures 0.0 < f * n as real <= n as real
  {
    assert f * n as real <= 1.0 * n as real;
  }

  /** The value `get_output` returns for a fraction and the buffered values. */
  function Select(fraction: Option<Fraction>, data: seq<Scalar>): (r: Datum)
    ensures r.None? <==> fraction.None? || data == []
    ensures r.Some? ==> r.value in data
  {
    if fraction.Some? && data != [] then Some(data[SelectIndex(fraction.value, |data|)]) else None
  }

  /** The 1-based position of index `k` among `n` values is at least the fraction `f` of `n`. */
  predicate Reaches(f: Fraction, n: nat, k: nat) {
    f * n as real <= (k + 1) as real
  }

  /** No other index has that property: the selection rule names exactly one value. */
  lemma SelectIndexUnique(f: Fraction, n: nat, m: nat)
    requires n > 0 && m < n
    requires Reaches(f, n, m)
    requires forall j :: 0 <= j < m ==> !Reaches(f, n, j)
    ensures m == SelectIndex(f, n)
  {
    var k := SelectIndex(f, n);
    assert !(m < k);
    assert !(k < m);
  }

  /** A fraction of 0 gives the first value and a fraction of 1 the last. */
  lemma SelectEnds(data: seq<Scalar>)
    requires data != []
    ensures Select(Some(0.0), data) == Some(data[0])
    ensures Select(Some(1.0), data) == Some(data[|data| - 1])
  {
    assert Ceil(1.0 * |data| as real) == |data|;
  }

  /** Three buffered values: 0.33, 0.34 and 0.67 pick the first, second and third; NULL gives NULL. */
  lemma ThreeValues(a: Scalar, b: Scalar, c: Scalar)
    ensures Select(Some(0.0), [a, b, c]) == Some(a)
    ensures Select(Some(0.33), [a, b, c]) == Some(a)
    ensures Select(Some(0.34), [a, b, c]) == Some(b)
    ensures Select(Some(0.67), [a, b, c]) == Some(c)
    ensures Select(Some(1.0), [a, b, c]) == Some(c)
    ensures Select(None, [a, b, c]) == None
  {
    assert Ceil(0.99) == 1;
    assert Ceil(1.02) == 2;
    assert Ceil(2.01) == 3;
    assert Ceil(3.0) == 3;
  }

  /** The non-null first-column values of `rows`, in row order. */
  function FirstColumnValues(rows: seq<Row>): (vs: seq<Scalar>)
    requires forall i :: 0 <= i < |rows| ==> |rows[i]| > 0
    ensures |vs| <= |rows|
  {
    if rows == [] then []
    else
      var last := rows[|rows| - 1][0];
      FirstColumnValues(rows[..|rows| - 1]) + (if last.Some? then [last.value] else [])
  }

  /** Collecting over two consecutive batches is collecting over each in turn. */
  lemma {:induction false} FirstColumnValuesAppend(xs: seq<Row>, ys: seq<Row>)
    requires forall i :: 0 <= i < |xs| ==> |xs[i]| > 0
    requires forall i :: 0 <= i < |ys| ==> |ys[i]| > 0
    ensures FirstColumnValues(xs + ys) == FirstColumnValues(xs) + FirstColumnValues(ys)
    decreases |ys|
  {
    if ys != [] {
      var init := ys[..|ys| - 1];
      assert (xs + ys)[..|xs + ys| - 1] == xs + init;
      assert (xs + ys)[|xs + ys| - 1] == ys[|ys| - 1];
      FirstColumnValuesAppend(xs, init);
    } else {
      assert xs + ys == xs;
    }
  }

  /** A value is collected exactly when some row carries it in its first column. */
  lemma {:induction false} FirstColumnValuesMember(rows: seq<Row>, x: Scalar)
    requires forall i :: 0 <= i < |rows| ==> |rows[i]| > 0
    ensures x in FirstColumnValues(rows) <==> exists i :: 0 <= i < |rows| && rows[i][0] == Some(x)
  {
    if rows != [] {
      var init := rows[..|rows| - 1];
      FirstColumnValuesMember(init, x);
      if x in FirstColumnValues(rows) && x !in FirstColumnValues(init) {
        assert rows[|rows| - 1][0] == Some(x);
      }
      if i :| 0 <= i < |rows| && rows[i][0] == Some(x) {
        if i < |rows| - 1 {
          assert init[i] == rows[i];
        }
      }
    }
  }

  /** With no NULL in the first column, every row contributes its value, in order. */
  lemma {:induction false} FirstColumnValuesNoNulls(rows: seq<Row>)
    requires forall i :: 0 <= i < |rows| ==> |rows[i]| > 0 && rows[i][0].Some?
    ensures |FirstColumnValues(rows)| == |rows|
    ensures forall i :: 0 <= i < |rows| ==> FirstColumnValues(rows)[i] == rows[i][0].value
  {
    if rows != [] {
      FirstColumnValuesNoNulls(rows[..|rows| - 1]);
    }
  }

  /** The non-null first-column values of a chunk's visible rows, in position order. */
  function ChunkValues(c: Chunk): (vs: seq<Scalar>)
    requires HasFirstColumn(c)
    ensures |vs| <= |c|
  {
    FirstColumnValues(VisibleRows(c))
  }

  /** A stretch of a chunk's slots still has a first column in every slot. */
  lemma HasFirstColumnSlice(c: Chunk, i: nat, j: nat)
    requires HasFirstColumn(c) && i <= j <= |c|
    ensures HasFirstColumn(c[i..j])
  {
    assert forall k :: 0 <= k < j - i ==> c[i..j][k] == c[i + k];
  }

  /** One more slot adds its first-column value when it is visible and non-null, and nothing otherwise. */
  lemma ChunkValuesSnoc(c: Chunk, x: ChunkRow)
    requires HasFirstColumn(c + [x])
    ensures HasFirstColumn(c) && |x.row| > 0
    ensures ChunkValues(c + [x])
            == ChunkValues(c) + (if x.visible && x.row[0].Some? then [x.row[0].value] else [])
  {
    assert (c + [x])[..|c|] == c;
    assert (c + [x])[|c|] == x;
    assert forall i :: 0 <= i < |c| ==> c[i] == (c + [x])[i];
    if x.visible {
      var vs := VisibleRows(c);
      assert (vs + [x.row])[..|vs|] == vs;
    } else {
      assert VisibleRows(c + [x]) == VisibleRows(c) + [];
      assert VisibleRows(c) + [] == VisibleRows(c);
    }
  }

  /** Extending a position range by one slot adds that slot's contribution. */
  lemma ChunkValuesStep(c: Chunk, start: nat, i: nat)
    requires HasFirstColumn(c) && start <= i < |c|
    ensures HasFirstColumn(c[start..i]) && HasFirstColumn(c[start..i + 1])
    ensures ChunkValues(c[start..i + 1])
            == ChunkValues(c[start..i]) + (if c[i].visible && c[i].row[0].Some? then [c[i].row[0].value] else [])
  {
    assert c[start..i + 1] == c[start..i] + [c[i]];
    HasFirstColumnSlice(c, start, i + 1);
    ChunkValuesSnoc(c[start..i], c[i]);
  }

  /** Updating with a whole chunk equals updating with its two position ranges split at `k`. */
  lemma UpdateIsUpdateRanges(c: Chunk, k: nat)
    requires HasFirstColumn(c)
    requires k <= |c|
    ensures ChunkValues(c) == ChunkValues(c[..k]) + ChunkValues(c[k..])
  {
    assert c == c[..k] + c[k..];
    VisibleRowsAppend(c[..k], c[k..]);
    FirstColumnValuesAppend(VisibleRows(c[..k]), VisibleRows(c[k..]));
  }

  /**
   * A range counts positions, invisible rows included: with the first of
   * three rows filtered out, the range `[0, 1)` buffers nothing and `[0, 2)`
   * buffers only the second row's value.
   */
  lemma RangeSkipsInvisible(a: Scalar, b: Scalar, c: Scalar)
    ensures ChunkValues([ChunkRow(false, [Some(a)]), ChunkRow(true, [Some(b)]), ChunkRow(true, [Some(c)])][0..1]) == []
    ensures ChunkValues([ChunkRow(false, [Some(a)]), ChunkRow(true, [Some(b)]), ChunkRow(true, [Some(c)])][0..2]) == [b]
  {
    var ch := [ChunkRow(false, [Some(a)]), ChunkRow(true, [Some(b)]), ChunkRow(true, [Some(c)])];
    assert ch[0..1] == [ch[0]];
    assert ch[0..2] == [ch[0]] + [ch[1]];
    ChunkValuesSnoc([], ch[0]);
    assert [] + [ch[0]] == [ch[0]];
    ChunkValuesSnoc([ch[0]], ch[1]);
  }

  /** The aggregator state: the fraction and return type are fixed; `data` grows and is cleared. */
  class PercentileDisc {
    const fraction: Option<Fraction>
    const returnType: DataTypeKind
    var data: seq<Scalar>

    constructor (fraction: Option<Fraction>, returnType: DataTypeKind)
      ensures this.fraction == fraction && this.returnType == returnType && data == []
    {
      this.fraction := fraction;
      this.returnType := returnType;
      data := [];
    }

    /** Buffers a non-null datum; a NULL leaves the buffer unchanged. */
    method AddDatum(d: Datum)
      modifies this
      ensures d.None? ==> data == old(data)
      ensures d.Some? ==> data == old(data) + [d.value]
    {
      if d.Some? {
        data := data + [d.value];
      }
    }

    /** Buffers the first-column datum of every visible row of the chunk, in order. */
    method Update(input: Chunk)
      requires HasFirstColumn(input)
      modifies this
      ensures data == old(data) + ChunkValues(input)
    {
      for i := 0 to |input|
        invariant HasFirstColumn(input[0..i])
        invariant data == old(data) + ChunkValues(input[0..i])
      {
        ChunkValuesStep(input, 0, i);
        if input[i].visible {
          AddDatum(input[i].row[0]);
        }
      }
      assert input[0..|input|] == input;
    }

    /** Buffers the first-column datum of the visible rows at positions `[start, end)`, in order. */
    method UpdateRange(input: Chunk, start: nat, end: nat)
      requires HasFirstColumn(input)
      requires start <= end <= |input|
      modifies this
      ensures data == old(data) + ChunkValues(input[start..end])
    {
      for i := start to end
        invariant HasFirstColumn(input[start..i])
        invariant data == old(data) + ChunkValues(input[start..i])
      {
        ChunkValuesStep(input, start, i);
        if input[i].visible {
          AddDatum(input[i].row[0]);
        }
      }
    }

    /** The current result; reading it changes nothing. */
    function GetOutput(): (r: Datum)
      reads this
      ensures r.None? <==> fraction.None? || data == []
      ensures r.Some? ==> r.value == data[SelectIndex(fraction.value, |data|)]
    {
      Select(fraction, data)
    }

    /** Returns the current result and clears the buffer. */
    method Output() returns (r: Datum)
      modifies this
      ensures r == Select(fraction, old(data))
      ensures data == []
    {
      r := GetOutput();
      Reset();
    }

    /** Clears the buffer. */
    method Reset()
      modifies this
      ensures data == []
    {
      data := [];
    }
  }
}
