/** getAllPlacements: every translation of one orientation of a piece that
    lies inside a grid of gw columns and gh rows.  A placement is the list of
    grid cells the piece covers, in row-major order of the shape; a cell is
    named `"y,x"` in the source, a `Cell(y, x)` here. */
module Placements {
  import opened Catalog

  datatype Cell = Cell(y: int, x: int)

  /** shape[i][j] === 1; an index past the end of a row reads `undefined`,
      which is not 1. */
  predicate Filled(shape: Shape, i: int, j: int) {
    0 <= i < |shape| && 0 <= j < |shape[i]| && shape[i][j] == 1
  }

  /** The cells contributed by row i of the shape, columns 0..w-1, with the
      shape's top-left corner at (y, x). */
  function RowCells(shape: Shape, i: int, w: nat, y: int, x: int): seq<Cell> {
    if w == 0 then []
    else RowCells(shape, i, w - 1, y, x) + (if Filled(shape, i, w - 1) then [Cell(y + i, x + w - 1)] else [])
  }

  /** The cells contributed by rows 0..h-1 of the shape. */
  function ShapeCells(shape: Shape, h: nat, w: nat, y: int, x: int): seq<Cell> {
    if h == 0 then [] else ShapeCells(shape, h - 1, w, y, x) + RowCells(shape, h - 1, w, y, x)
  }

  /** The placement anchored at (y, x): the width read is that of row 0. */
  function CellsAt(shape: Shape, y: int, x: int): seq<Cell>
    requires |shape| >= 1
  {
    ShapeCells(shape, |shape|, |shape[0]|, y, x)
  }

  /** The number of anchors t with 0 <= t <= g - s. */
  function Span(g: int, s: int): (r: nat)
    ensures r == if g - s + 1 > 0 then g - s + 1 else 0
  {
    if g - s + 1 > 0 then g - s + 1 else 0
  }

  /** The placements anchored in row y, at columns 0..n-1. */
  function AnchorRow(shape: Shape, y: int, n: nat): seq<seq<Cell>>
    requires |shape| >= 1
  {
    if n == 0 then [] else AnchorRow(shape, y, n - 1) + [CellsAt(shape, y, n - 1)]
  }

  /** The placements anchored in rows 0..m-1, n per row. */
  function AnchorRows(shape: Shape, m: nat, n: nat): seq<seq<Cell>>
    requires |shape| >= 1
  {
    if m == 0 then [] else AnchorRows(shape, m - 1, n) + AnchorRow(shape, m - 1, n)
  }

  /** What getAllPlacements returns. */
  function AllPlacements(shape: Shape, gw: int, gh: int): seq<seq<Cell>> {
    if |shape| == 0 then [] else AnchorRows(shape, Span(gh, |shape|), Span(gw, |shape[0]|))
  }

  // ---------------------------------------------------------------------
  // The loops
  // ---------------------------------------------------------------------

  method GetAllPlacements(shape: Shape, gw: int, gh: int) returns (placements: seq<seq<Cell>>)
    ensures placements == AllPlacements(shape, gw, gh)
  {
    if |shape| == 0 {
      return [];
    }
    placements := [];
    var blockHeight := |shape|;
    var blockWidth := |shape[0]|;
    ghost var n := Span(gw, blockWidth);
    var y := 0;
    while y <= gh - blockHeight
      invariant 0 <= y <= Span(gh, blockHeight)
      invariant placements == AnchorRows(shape, y, n)
      decreases gh - blockHeight - y
    {
      var x := 0;
      while x <= gw - blockWidth
        invariant 0 <= x <= n
        invariant placements == AnchorRows(shape, y, n) + AnchorRow(shape, y, x)
        decreases gw - blockWidth - x
      {
        var cells := ShapeCellsAt(shape, y, x);
        placements := placements + [cells];
        x := x + 1;
      }
      y := y + 1;
    }
  }

  /** The two inner loops: the cells of the placement anchored at (y, x). */
  method ShapeCellsAt(shape: Shape, y: int, x: int) returns (cells: seq<Cell>)
    requires |shape| >= 1
    ensures cells == CellsAt(shape, y, x)
  {
    cells := [];
    var blockWidth := |shape[0]|;
    var i := 0;
    while i < |shape|
      invariant 0 <= i <= |shape|
      invariant cells == ShapeCells(shape, i, blockWidth, y, x)
    {
      var j := 0;
      while j < blockWidth
        invariant 0 <= j <= blockWidth
        invariant cells == ShapeCells(shape, i, blockWidth, y, x) + RowCells(shape, i, j, y, x)
      {
        if j < |shape[i]| && shape[i][j] == 1 {
          cells := cells + [Cell(y + i, x + j)];
        }
        j := j + 1;
      }
      i := i + 1;
    }
  }

  // ---------------------------------------------------------------------
  // Properties
  // ---------------------------------------------------------------------

  /** An empty shape has no placements. */
  lemma NoShapeNoPlacements(gw: int, gh: int)
    ensures AllPlacements([], gw, gh) == []
  {
  }

  lemma {:induction false} AnchorRowMembers(shape: Shape, y: int, n: nat)
    requires |shape| >= 1
    ensures |AnchorRow(shape, y, n)| == n
    ensures forall t :: 0 <= t < n ==> AnchorRow(shape, y, n)[t] == CellsAt(shape, y, t)
  {
    if n > 0 {
      AnchorRowMembers(shape, y, n - 1);
    }
  }

  lemma {:induction false} AnchorRowsCount(shape: Shape, m: nat, n: nat)
    requires |shape| >= 1
    ensures |AnchorRows(shape, m, n)| == m * n
  {
    if m > 0 {
      AnchorRowsCount(shape, m - 1, n);
      AnchorRowMembers(shape, m - 1, n);
      assert (m - 1) * n + n == m * n;
    }
  }

  lemma {:induction false} AnchorRowsMembers(shape: Shape, m: nat, n: nat)
    requires |shape| >= 1
    ensures forall p :: p in AnchorRows(shape, m, n) <==>
              exists y, x :: 0 <= y < m && 0 <= x < n && p == CellsAt(shape, y, x)
  {
    if m > 0 {
      AnchorRowsMembers(shape, m - 1, n);
      AnchorRowMembers(shape, m - 1, n);
      var pre, row := AnchorRows(shape, m - 1, n), AnchorRow(shape, m - 1, n);
      forall p | p in row
        ensures exists y, x :: 0 <= y < m && 0 <= x < n && p == CellsAt(shape, y, x)
      {
        var t :| 0 <= t < n && row[t] == p;
        assert p == CellsAt(shape, m - 1, t);
      }
      forall p | exists y, x :: 0 <= y < m && 0 <= x < n && p == CellsAt(shape, y, x)
        ensures p in pre + row
      {
        var y, x :| 0 <= y < m && 0 <= x < n && p == CellsAt(shape, y, x);
        if y == m - 1 {
          assert row[x] == p;
        }
      }
    }
  }

  /** There are max(0, gh-H+1) * max(0, gw-W+1) placements, one for each
      anchor (y, x) with 0 <= y <= gh-H and 0 <= x <= gw-W. */
  lemma PlacementsCount(shape: Shape, gw: int, gh: int)
    requires |shape| >= 1
    ensures |AllPlacements(shape, gw, gh)| == Span(gh, |shape|) * Span(gw, |shape[0]|)
    ensures forall p :: p in AllPlacements(shape, gw, gh) <==>
              exists y, x :: 0 <= y <= gh - |shape| && 0 <= x <= gw - |shape[0]| && p == CellsAt(shape, y, x)
  {
    AnchorRowsCount(shape, Span(gh, |shape|), Span(gw, |shape[0]|));
    AnchorRowsMembers(shape, Span(gh, |shape|), Span(gw, |shape[0]|));
  }

  lemma {:induction false} RowCellsMembers(shape: Shape, i: int, w: nat, y: int, x: int)
    ensures forall c :: c in RowCells(shape, i, w, y, x) <==>
              exists j :: 0 <= j < w && Filled(shape, i, j) && c == Cell(y + i, x + j)
  {
    if w > 0 {
      RowCellsMembers(shape, i, w - 1, y, x);
    }
  }

  lemma {:induction false} ShapeCellsMembers(shape: Shape, h: nat, w: nat, y: int, x: int)
    ensures forall c :: c in ShapeCells(shape, h, w, y, x) <==>
              exists i, j :: 0 <= i < h && 0 <= j < w && Filled(shape, i, j) && c == Cell(y + i, x + j)
  {
    if h > 0 {
      ShapeCellsMembers(shape, h - 1, w, y, x);
      RowCellsMembers(shape, h - 1, w, y, x);
    }
  }

  /** The placement at (y, x) lists exactly the 1-cells of the shape (within
      the width of row 0), each offset by the anchor. */
  lemma CellsAtMembers(shape: Shape, y: int, x: int)
    requires |shape| >= 1
    ensures forall c :: c in CellsAt(shape, y, x) <==>
              exists i, j :: 0 <= i < |shape| && 0 <= j < |shape[0]| && Filled(shape, i, j) && c == Cell(y + i, x + j)
  {
    ShapeCellsMembers(shape, |shape|, |shape[0]|, y, x);
  }

  /** Every cell of every placement lies inside the grid. */
  lemma PlacementsInside(shape: Shape, gw: int, gh: int, p: seq<Cell>, c: Cell)
    requires p in AllPlacements(shape, gw, gh) && c in p
    ensures 0 <= c.y < gh && 0 <= c.x < gw
  {
    PlacementsCount(shape, gw, gh);
    var y, x :| 0 <= y <= gh - |shape| && 0 <= x <= gw - |shape[0]| && p == CellsAt(shape, y, x);
    CellsAtMembers(shape, y, x);
  }

  // Distinct cells

  /** Row-major order on cells. */
  predicate Before(c: Cell, d: Cell) {
    c.y < d.y || (c.y == d.y && c.x < d.x)
  }

  predicate Ascending(cs: seq<Cell>) {
    forall k, k' :: 0 <= k < k' < |cs| ==> Before(cs[k], cs[k'])
  }

  lemma AscendingConcat(a: seq<Cell>, b: seq<Cell>)
    requires Ascending(a) && Ascending(b)
    requires forall k, k' :: 0 <= k < |a| && 0 <= k' < |b| ==> Before(a[k], b[k'])
    ensures Ascending(a + b)
  {
    forall k, k' | 0 <= k < k' < |a + b| ensures Before((a + b)[k], (a + b)[k']) {
      if k' < |a| {
        assert (a + b)[k] == a[k] && (a + b)[k'] == a[k'];
      } else if k < |a| {
        assert (a + b)[k] == a[k] && (a + b)[k'] == b[k' - |a|];
      } else {
        assert (a + b)[k] == b[k - |a|] && (a + b)[k'] == b[k' - |a|];
      }
    }
  }

  lemma {:induction false} RowCellsAscending(shape: Shape, i: int, w: nat, y: int, x: int)
    ensures Ascending(RowCells(shape, i, w, y, x))
    ensures forall c :: c in RowCells(shape, i, w, y, x) ==> c.y == y + i && x <= c.x < x + w
  {
    if w > 0 {
      RowCellsAscending(shape, i, w - 1, y, x);
      var pre := RowCells(shape, i, w - 1, y, x);
      var last: seq<Cell> := if Filled(shape, i, w - 1) then [Cell(y + i, x + w - 1)] else [];
      forall k, k' | 0 <= k < |pre| && 0 <= k' < |last| ensures Before(pre[k], last[k']) {
        assert pre[k] in pre;
      }
      AscendingConcat(pre, last);
    }
  }

  lemma {:induction false} ShapeCellsAscending(shape: Shape, h: nat, w: nat, y: int, x: int)
    ensures Ascending(ShapeCells(shape, h, w, y, x))
    ensures forall c :: c in ShapeCells(shape, h, w, y, x) ==> y <= c.y < y + h
  {
    if h > 0 {
      ShapeCellsAscending(shape, h - 1, w, y, x);
      RowCellsAscending(shape, h - 1, w, y, x);
      var pre, row := ShapeCells(shape, h - 1, w, y, x), RowCells(shape, h - 1, w, y, x);
      forall k, k' | 0 <= k < |pre| && 0 <= k' < |row| ensures Before(pre[k], row[k']) {
        assert pre[k] in pre && row[k'] in row;
      }
      AscendingConcat(pre, row);
    }
  }

  /** A placement lists each of its cells once, in row-major order. */
  lemma CellsAtAscending(shape: Shape, y: int, x: int)
    requires |shape| >= 1
    ensures Ascending(CellsAt(shape, y, x))
    ensures forall k, k' :: 0 <= k < k' < |CellsAt(shape, y, x)| ==> CellsAt(shape, y, x)[k] != CellsAt(shape, y, x)[k']
  {
    ShapeCellsAscending(shape, |shape|, |shape[0]|, y, x);
  }

  // Cell count

  lemma {:induction false} RowCellsCount(shape: Shape, i: int, w: nat, y: int, x: int)
    requires 0 <= i < |shape| && w <= |shape[i]|
    ensures |RowCells(shape, i, w, y, x)| == Ones(shape[i][..w])
  {
    if w > 0 {
      RowCellsCount(shape, i, w - 1, y, x);
      OnesSnoc(shape[i][..w - 1], shape[i][w - 1]);
      assert shape[i][..w] == shape[i][..w - 1] + [shape[i][w - 1]];
    }
  }

  lemma {:induction false} OnesSnoc(row: seq<int>, v: int)
    ensures Ones(row + [v]) == Ones(row) + (if v == 1 then 1 else 0)
  {
    if row != [] {
      OnesSnoc(row[1..], v);
      assert (row + [v])[1..] == row[1..] + [v];
    }
  }

  lemma {:induction false} AreaSnoc(shape: Shape, r: seq<int>)
    ensures Area(shape + [r]) == Area(shape) + Ones(r)
  {
    if shape != [] {
      AreaSnoc(shape[1..], r);
      assert (shape + [r])[1..] == shape[1..] + [r];
    }
  }

  lemma {:induction false} ShapeCellsCount(shape: Shape, h: nat, w: nat, y: int, x: int)
    requires h <= |shape| && forall i :: 0 <= i < |shape| ==> |shape[i]| == w
    ensures |ShapeCells(shape, h, w, y, x)| == Area(shape[..h])
  {
    if h > 0 {
      ShapeCellsCount(shape, h - 1, w, y, x);
      RowCellsCount(shape, h - 1, w, y, x);
      assert shape[h - 1][..w] == shape[h - 1];
      AreaSnoc(shape[..h - 1], shape[h - 1]);
      assert shape[..h] == shape[..h - 1] + [shape[h - 1]];
    }
  }

  /** On a rectangular shape a placement has one cell per 1 entry; with the
      catalogue, each placement of a block covers blockSizes[b] cells. */
  lemma CellsAtCount(shape: Shape, y: int, x: int)
    requires Rectangular(shape)
    ensures |CellsAt(shape, y, x)| == Area(shape)
  {
    ShapeCellsCount(shape, |shape|, |shape[0]|, y, x);
    assert shape[..|shape|] == shape;
  }

  /** Each placement of a proper shape covers Area(shape) distinct cells,
      all inside the grid. */
  lemma PlacementCells(shape: Shape, gw: int, gh: int, p: seq<Cell>)
    requires Rectangular(shape) && p in AllPlacements(shape, gw, gh)
    ensures |p| == Area(shape)
    ensures forall k, k' :: 0 <= k < k' < |p| ==> p[k] != p[k']
    ensures forall k :: 0 <= k < |p| ==> 0 <= p[k].y < gh && 0 <= p[k].x < gw
  {
    PlacementsCount(shape, gw, gh);
    var y, x :| 0 <= y <= gh - |shape| && 0 <= x <= gw - |shape[0]| && p == CellsAt(shape, y, x);
    CellsAtAscending(shape, y, x);
    CellsAtCount(shape, y, x);
    forall k | 0 <= k < |p| ensures 0 <= p[k].y < gh && 0 <= p[k].x < gw {
      PlacementsInside(shape, gw, gh, p, p[k]);
    }
  }
}
