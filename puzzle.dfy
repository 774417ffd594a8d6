/** startSolving: pose the tiling as an exact-cover problem, build the
    Dancing Links matrix for it and run the search.  A solution, when one is
    found, picks candidate placements that together occupy every grid cell
    exactly once and use every piece instance exactly once. */
module Puzzle {
  import opened Links
  import opened Matrix
  import opened Exact
  import opened Building
  import opened Catalog
  import opened Placements
  import opened Tiling
  import opened Solver
  import Shuffling

  /** The nodes of a row lie, in ring order, in the columns that the column
      map gives the names ns. */
  ghost predicate RowBuilt(row: seq<int>, column: seq<int>, m: map<Name, int>, ns: seq<Name>) {
    && |row| == |ns|
    && forall p :: 0 <= p < |row| ==> 0 <= row[p] < |column| && ns[p] in m && column[row[p]] == m[ns[p]]
  }

  /** Rows 0..i-1 of the matrix are the rows of the placements order[..i]. */
  ghost predicate Built(lay: Layout, column: seq<int>, m: map<Name, int>, order: seq<Placement>, i: int) {
    && 0 <= i <= |order| && |lay.rows| == i
    && forall r :: 0 <= r < i ==> RowBuilt(lay.rows[r], column, m, RowNames(order[r]))
  }

  /** The placements a solution picks: the placement of each chosen row. */
  ghost function Chosen(order: seq<Placement>, lay: Layout, sol: seq<int>): (r: seq<Placement>)
    ensures |r| == |sol|
  {
    seq(|sol|, k requires 0 <= k < |sol| =>
      if 0 <= sol[k] < |lay.rowOf| && 0 <= lay.rowOf[sol[k]] < |order| then order[lay.rowOf[sol[k]]]
      else Placement(A, [], 0))
  }

  /** chosen is a tiling: candidates only, and every column name (grid
      cell or piece instance) is a name of exactly one of them. */
  ghost predicate Tiles(w: int, h: int, counts: seq<int>, chosen: seq<Placement>)
    requires |counts| == |Blocks|
  {
    && (forall k :: 0 <= k < |chosen| ==> chosen[k] in Candidates(counts, |Blocks|, w, h))
    && (forall n :: n in ColumnNames(w, h, counts) ==> exists k :: 0 <= k < |chosen| && n in RowNames(chosen[k]))
    && (forall n, k, k' ::
          (n in ColumnNames(w, h, counts) && 0 <= k < |chosen| && 0 <= k' < |chosen| &&
           n in RowNames(chosen[k]) && n in RowNames(chosen[k'])) ==> k == k')
  }

  // ---------------------------------------------------------------------
  // startSolving
  // ---------------------------------------------------------------------

  /** The solving part of startSolving for a grid of w by h cells and the
      piece counts in `Blocks` order; it returns the solutions array, the
      matrix and the shuffled placements. */
  method StartSolving(w: int, h: int, counts: seq<int>)
    returns (solutions: seq<seq<int>>, dlx: DancingLinks, order: seq<Placement>)
    requires |counts| == |Blocks|
    ensures multiset(order) == multiset(Candidates(counts, |Blocks|, w, h))
    ensures |solutions| <= 1 && dlx.found == (|solutions| == 1)
    ensures |solutions| == 1 ==> ExactCover(dlx.column, dlx.lay, solutions[0])
    ensures |solutions| == 1 ==> Tiles(w, h, counts, Chosen(order, dlx.lay, solutions[0]))
  {
    var columns := BuildColumns(w, h, counts);
    ColumnNamesOf(w, h, counts);
    dlx := new DancingLinks(columns);
    NameMapIndexed(columns);
    NameMapFacts(columns);
    var all := EnumeratePlacements(w, h, counts);
    order := Shuffling.Shuffled(all);
    var i := 0;
    while i < |order|
      invariant 0 <= i <= |order|
      invariant Good(dlx.lay, dlx.Now()) && !dlx.found
      invariant dlx.live == Range(1, |columns| + 1) && dlx.columns == NameMap(columns)
      invariant dlx.lay.ncols == |columns|
      invariant Built(dlx.lay, dlx.column, dlx.columns, order, i)
      modifies dlx
    {
      assert order[i] in all by {
        assert order[i] in multiset(order);
      }
      CandidateRow(counts, w, h, order[i]);
      ghost var a0, lay0, column0 := dlx.Snap(), dlx.lay, dlx.column;
      var cs := dlx.InsertRow(order[i]);
      AddRowColumn(a0, cs);
      BuiltStep(lay0, column0, dlx.columns, order, i, cs);
      i := i + 1;
    }
    RangeColumns(|columns|);
    PartialStart(dlx.column, dlx.lay, dlx.live);
    ghost var s := dlx.Now();
    solutions := dlx.Search(0, [], []);
    if |solutions| == 1 {
      forall k | 0 <= k < |order| ensures order[k] in Candidates(counts, |Blocks|, w, h) {
        assert order[k] in multiset(order);
      }
      ExactTiling(w, h, counts, columns, order, s, dlx.lay, solutions[0]);
    }
  }

  // ---------------------------------------------------------------------
  // Lemmas
  // ---------------------------------------------------------------------

  lemma RangeColumns(n: nat)
    ensures Elems(Range(1, n + 1)) == AllColumns(n)
  {
    var r := Range(1, n + 1);
    forall c | 1 <= c <= n ensures c in Elems(r) {
      assert r[c - 1] == c;
    }
  }

  lemma AddRowColumn(a: Arena, cs: seq<int>)
    ensures AddRow(a, cs).column == a.column + cs
  {
    AppendAllColumn(a, cs);
  }

  /** Inserting the row of order[i], all of whose names have columns, adds
      row i of the matrix as that placement's row. */
  lemma BuiltStep(lay: Layout, column: seq<int>, m: map<Name, int>, order: seq<Placement>, i: int, cs: seq<int>)
    requires Built(lay, column, m, order, i) && i < |order|
    requires forall n :: n in RowNames(order[i]) ==> n in m
    requires cs == Found(m, RowNames(order[i]))
    ensures Built(AddLayout(lay, |column|, |cs|), column + cs, m, order, i + 1)
  {
    var ns, b := RowNames(order[i]), |column|;
    FoundAll(m, ns);
    var lay', column' := AddLayout(lay, b, |cs|), column + cs;
    assert lay'.rows == lay.rows + [Range(b, b + |cs|)];
    forall r | 0 <= r < i + 1 ensures RowBuilt(lay'.rows[r], column', m, RowNames(order[r])) {
      if r < i {
        assert lay'.rows[r] == lay.rows[r];
      } else {
        assert lay'.rows[r] == Range(b, b + |cs|);
      }
    }
  }

  /** A solution of the built matrix picks a tiling. */
  lemma ExactTiling(w: int, h: int, counts: seq<int>, columns: seq<Name>, order: seq<Placement>,
                    s: Snapshot, lay: Layout, sol: seq<int>)
    requires |counts| == |Blocks| && columns == ColumnNames(w, h, counts) && NoDuplicates(columns)
    requires forall k :: 0 <= k < |order| ==> order[k] in Candidates(counts, |Blocks|, w, h)
    requires Good(lay, s) && lay.ncols == |columns|
    requires Built(lay, s.a.column, NameMap(columns), order, |order|)
    requires ExactCover(s.a.column, lay, sol) && DataNodes(lay, |s.a.column|, sol)
    ensures Tiles(w, h, counts, Chosen(order, lay, sol))
  {
    var chosen := Chosen(order, lay, sol);
    forall k | 0 <= k < |sol| ensures chosen[k] in Candidates(counts, |Blocks|, w, h) {
      ChosenRowOf(order, lay, s, sol, k);
    }
    forall n | n in columns
      ensures exists k :: 0 <= k < |chosen| && n in RowNames(chosen[k])
      ensures forall k, k' ::
                (0 <= k < |chosen| && 0 <= k' < |chosen| &&
                 n in RowNames(chosen[k]) && n in RowNames(chosen[k'])) ==> k == k'
    {
      NameCovered(columns, order, s, lay, sol, n);
    }
  }

  /** The name n of a column is a name of exactly one chosen placement,
      because its column lies in exactly one solution row. */
  lemma NameCovered(columns: seq<Name>, order: seq<Placement>, s: Snapshot, lay: Layout, sol: seq<int>, n: Name)
    requires NoDuplicates(columns) && n in columns
    requires Good(lay, s) && lay.ncols == |columns|
    requires Built(lay, s.a.column, NameMap(columns), order, |order|)
    requires ExactCover(s.a.column, lay, sol) && DataNodes(lay, |s.a.column|, sol)
    ensures var chosen := Chosen(order, lay, sol);
      && (exists k :: 0 <= k < |chosen| && n in RowNames(chosen[k]))
      && (forall k, k' ::
            (0 <= k < |chosen| && 0 <= k' < |chosen| &&
             n in RowNames(chosen[k]) && n in RowNames(chosen[k'])) ==> k == k')
  {
    var chosen, m := Chosen(order, lay, sol), NameMap(columns);
    NameMapFacts(columns);
    var j :| 0 <= j < |columns| && columns[j] == n;
    var c := m[n];
    assert c == j + 1;
    ExactCoverUnique(s.a.column, lay, sol, c);
    forall k | 0 <= k < |sol| ensures n in RowNames(chosen[k]) <==> c in RowCols(s.a.column, lay, sol[k]) {
      ChosenRowOf(order, lay, s, sol, k);
      NameColumn(columns, lay, s, order, sol, k, n);
    }
  }

  /** Solution entry k is a data node whose row is the row of chosen[k]. */
  ghost predicate ChosenRow(order: seq<Placement>, lay: Layout, s: Snapshot, sol: seq<int>, k: int)
    requires 0 <= k < |sol|
  {
    && 0 <= sol[k] < |lay.rowOf| && 0 <= lay.rowOf[sol[k]] < |lay.rows| && |lay.rows| == |order|
    && Row(lay, sol[k]) == lay.rows[lay.rowOf[sol[k]]]
    && Chosen(order, lay, sol)[k] == order[lay.rowOf[sol[k]]]
  }

  lemma ChosenRowOf(order: seq<Placement>, lay: Layout, s: Snapshot, sol: seq<int>, k: int)
    requires Good(lay, s) && 0 <= k < |sol| && DataNodes(lay, |s.a.column|, sol) && |lay.rows| == |order|
    ensures ChosenRow(order, lay, s, sol, k)
  {
    DataRow(lay, s, sol[k]);
  }

  /** A data node of a good state lies in a row of the layout. */
  lemma DataRow(lay: Layout, s: Snapshot, x: int)
    requires Good(lay, s) && lay.ncols < x < |s.a.column|
    ensures 0 <= x < |lay.rowOf| && 0 <= lay.rowOf[x] < |lay.rows|
  {
    assert Valid(s.a, lay, s.live, s.vert);
  }

  /** A name is a name of the placement a solution row stands for exactly
      when its column is a column of that row. */
  lemma NameColumn(columns: seq<Name>, lay: Layout, s: Snapshot, order: seq<Placement>, sol: seq<int>, k: int, n: Name)
    requires NoDuplicates(columns) && n in columns && n in NameMap(columns) && 0 <= k < |sol|
    requires Built(lay, s.a.column, NameMap(columns), order, |order|)
    requires ChosenRow(order, lay, s, sol, k)
    ensures n in RowNames(Chosen(order, lay, sol)[k]) <==> NameMap(columns)[n] in RowCols(s.a.column, lay, sol[k])
  {
    var m, column := NameMap(columns), s.a.column;
    var r := lay.rowOf[sol[k]];
    var row, ns := lay.rows[r], RowNames(order[r]);
    assert RowBuilt(row, column, m, ns);
    NameMapFacts(columns);
    NameMapIndexed(columns);
    if n in ns {
      var p :| 0 <= p < |ns| && ns[p] == n;
      assert row[p] in row;
    }
    if m[n] in RowCols(column, lay, sol[k]) {
      var y :| y in row && 0 <= y < |column| && column[y] == m[n];
      var p :| 0 <= p < |row| && row[p] == y;
      assert ns[p] in m && m[ns[p]] == m[n];
      assert ns[p] in ns;
    }
  }

  /** A tiling read cell by cell and piece by piece: every cell of the grid
      lies in exactly one chosen placement, and every piece instance (a kind
      and an index below its count) is the instance of exactly one. */
  lemma TilesCells(w: int, h: int, counts: seq<int>, chosen: seq<Placement>)
    requires |counts| == |Blocks| && Tiles(w, h, counts, chosen)
    ensures forall c: Cell :: 0 <= c.y < h && 0 <= c.x < w ==>
              exists k :: 0 <= k < |chosen| && c in chosen[k].cells
    ensures forall c: Cell, k, k' ::
              (0 <= c.y < h && 0 <= c.x < w && 0 <= k < |chosen| && 0 <= k' < |chosen| &&
               c in chosen[k].cells && c in chosen[k'].cells) ==> k == k'
    ensures forall n: Name :: n.Instance? && 0 <= n.count < counts[Index(n.block)] ==>
              exists k :: 0 <= k < |chosen| && chosen[k].block == n.block && chosen[k].count == n.count
    ensures forall n: Name, k, k' ::
              (n.Instance? && 0 <= n.count < counts[Index(n.block)] && 0 <= k < |chosen| && 0 <= k' < |chosen| &&
               chosen[k].block == n.block && chosen[k].count == n.count &&
               chosen[k'].block == n.block && chosen[k'].count == n.count) ==> k == k'
  {
    forall c: Cell | 0 <= c.y < h && 0 <= c.x < w
      ensures exists k :: 0 <= k < |chosen| && c in chosen[k].cells
      ensures forall k, k' ::
                (0 <= k < |chosen| && 0 <= k' < |chosen| && c in chosen[k].cells && c in chosen[k'].cells) ==> k == k'
    {
      var k := CellCovered(w, h, counts, chosen, c);
    }
    forall n: Name | n.Instance? && 0 <= n.count < counts[Index(n.block)]
      ensures exists k :: 0 <= k < |chosen| && chosen[k].block == n.block && chosen[k].count == n.count
      ensures forall k, k' ::
                (0 <= k < |chosen| && 0 <= k' < |chosen| &&
                 chosen[k].block == n.block && chosen[k].count == n.count &&
                 chosen[k'].block == n.block && chosen[k'].count == n.count) ==> k == k'
    {
      var k := InstanceUsed(w, h, counts, chosen, n);
    }
  }

  /** The one chosen placement that occupies grid cell c. */
  lemma CellCovered(w: int, h: int, counts: seq<int>, chosen: seq<Placement>, c: Cell) returns (k: int)
    requires |counts| == |Blocks| && Tiles(w, h, counts, chosen) && 0 <= c.y < h && 0 <= c.x < w
    ensures 0 <= k < |chosen| && c in chosen[k].cells
    ensures forall k' :: 0 <= k' < |chosen| && c in chosen[k'].cells ==> k' == k
  {
    ColumnNamesOf(w, h, counts);
    var n := CellName(c.y, c.x);
    assert n in ColumnNames(w, h, counts);
    k :| 0 <= k < |chosen| && n in RowNames(chosen[k]);
    RowNamesMembers(chosen[k]);
    forall k' | 0 <= k' < |chosen| && c in chosen[k'].cells ensures k' == k {
      RowNamesMembers(chosen[k']);
    }
  }

  /** The one chosen placement that is piece instance n. */
  lemma InstanceUsed(w: int, h: int, counts: seq<int>, chosen: seq<Placement>, n: Name) returns (k: int)
    requires |counts| == |Blocks| && Tiles(w, h, counts, chosen)
    requires n.Instance? && 0 <= n.count < counts[Index(n.block)]
    ensures 0 <= k < |chosen| && chosen[k].block == n.block && chosen[k].count == n.count
    ensures forall k' :: 0 <= k' < |chosen| && chosen[k'].block == n.block && chosen[k'].count == n.count ==> k' == k
  {
    ColumnNamesOf(w, h, counts);
    assert n in ColumnNames(w, h, counts);
    k :| 0 <= k < |chosen| && n in RowNames(chosen[k]);
    RowNamesMembers(chosen[k]);
    forall k' | 0 <= k' < |chosen| && chosen[k'].block == n.block && chosen[k'].count == n.count ensures k' == k {
      RowNamesMembers(chosen[k']);
    }
  }
}
