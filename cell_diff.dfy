/**
 * `get_unequal_cells`: the coordinates at which two same-shaped frames differ once
 * missing cells are replaced by 0, in row-major order (what `np.where` on the
 * element-wise comparison returns).
 */
module CellDiff {
  import opened Cells
  import opened Frames

  datatype Coord = Coord(row: nat, col: nat)

  const ShapeMismatch: string := "These dataframes don't have the same number of rows and columns"

  /** `df1.shape == df2.shape`. */
  predicate SameShape(a: Table, b: Table) {
    |a.rows| == |b.rows| && |a.header| == |b.header|
  }

  predicate InBounds(t: Table, c: Coord) {
    c.row < |t.rows| && c.col < |t.header|
  }

  /** The cells at `c` compare unequal after `fillna(0)`. */
  predicate Differs(a: Table, b: Table, c: Coord)
    requires Wf(a) && Wf(b) && InBounds(a, c) && InBounds(b, c)
  {
    FillNa(a.rows[c.row][c.col]) != FillNa(b.rows[c.row][c.col])
  }

  /** Row-major order of coordinates. */
  predicate Before(c: Coord, d: Coord) {
    c.row < d.row || (c.row == d.row && c.col < d.col)
  }

  /** The differing coordinates from (row, col) onwards, in row-major order. */
  function DiffFrom(a: Table, b: Table, row: nat, col: nat): (r: seq<Coord>)
    requires Wf(a) && Wf(b) && SameShape(a, b) && row <= |a.rows| && col <= |a.header|
    ensures forall i :: 0 <= i < |r| ==> InBounds(a, r[i]) && Differs(a, b, r[i]) && !Before(r[i], Coord(row, col))
    ensures forall i, j :: 0 <= i < j < |r| ==> Before(r[i], r[j])
    ensures forall c :: InBounds(a, c) && !Before(c, Coord(row, col)) && Differs(a, b, c) ==> c in r
    decreases |a.rows| - row, |a.header| - col
  {
    if row == |a.rows| then []
    else if col == |a.header| then DiffFrom(a, b, row + 1, 0)
    else
      var rest := DiffFrom(a, b, row, col + 1);
      if Differs(a, b, Coord(row, col)) then [Coord(row, col)] + rest else rest
  }

  /**
   * A shape mismatch is an error; otherwise the result lists exactly the differing
   * in-bounds coordinates, each once, in row-major order.
   */
  function UnequalCells(a: Table, b: Table): (r: Result<seq<Coord>>)
    requires Wf(a) && Wf(b)
    ensures r.Err? <==> !SameShape(a, b)
    ensures r.Err? ==> r.error == ShapeMismatch
    ensures r.Ok? ==> forall i :: 0 <= i < |r.value| ==> InBounds(a, r.value[i]) && InBounds(b, r.value[i])
    ensures r.Ok? ==> forall i :: 0 <= i < |r.value| ==> Differs(a, b, r.value[i])
    ensures r.Ok? ==> forall i, j :: 0 <= i < j < |r.value| ==> Before(r.value[i], r.value[j])
    ensures r.Ok? ==> forall c :: InBounds(a, c) && Differs(a, b, c) ==> c in r.value
  {
    if !SameShape(a, b) then Err(ShapeMismatch) else Ok(DiffFrom(a, b, 0, 0))
  }

  lemma {:induction false} DiffFromSelf(a: Table, row: nat, col: nat)
    requires Wf(a) && row <= |a.rows| && col <= |a.header|
    ensures DiffFrom(a, a, row, col) == []
    decreases |a.rows| - row, |a.header| - col
  {
    if row < |a.rows| {
      if col == |a.header| {
        DiffFromSelf(a, row + 1, 0);
      } else {
        DiffFromSelf(a, row, col + 1);
      }
    }
  }

  /** Comparing a frame with itself finds nothing. */
  lemma DiffOfSelf(a: Table)
    requires Wf(a)
    ensures UnequalCells(a, a) == Ok([])
  {
    DiffFromSelf(a, 0, 0);
  }

  lemma {:induction false} DiffFromSymmetric(a: Table, b: Table, row: nat, col: nat)
    requires Wf(a) && Wf(b) && SameShape(a, b) && row <= |a.rows| && col <= |a.header|
    ensures DiffFrom(a, b, row, col) == DiffFrom(b, a, row, col)
    decreases |a.rows| - row, |a.header| - col
  {
    if row < |a.rows| {
      if col == |a.header| {
        DiffFromSymmetric(a, b, row + 1, 0);
      } else {
        DiffFromSymmetric(a, b, row, col + 1);
      }
    }
  }

  /** The differing coordinates do not depend on which frame is the original. */
  lemma DiffSymmetric(a: Table, b: Table)
    requires Wf(a) && Wf(b)
    ensures UnequalCells(a, b) == UnequalCells(b, a)
  {
    if SameShape(a, b) {
      DiffFromSymmetric(a, b, 0, 0);
    }
  }

  /** Frames that differ in exactly one cell yield exactly that coordinate. */
  lemma SingleDifference(a: Table, b: Table, c: Coord)
    requires Wf(a) && Wf(b) && SameShape(a, b) && InBounds(a, c) && Differs(a, b, c)
    requires forall d :: InBounds(a, d) && d != c ==> !Differs(a, b, d)
    ensures UnequalCells(a, b) == Ok([c])
  {
    var r := UnequalCells(a, b).value;
    assert c in r;
    forall i | 0 <= i < |r| ensures r[i] == c {
      assert Differs(a, b, r[i]);
    }
    assert |r| > 1 ==> Before(r[0], r[1]);
    assert r == [c];
  }
}
