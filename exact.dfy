/** What the search promises about the rows it picks: the rows of a
    solution cover pairwise disjoint sets of columns, and once the header
    ring is empty they cover every column, each exactly once.

    A row is named, as the solver names it, by one of its data nodes; its
    columns are the columns of all the nodes of its ring. */
module Exact {
  import opened Links
  import opened Matrix
  import opened Covering

  /** A state of the solver as the proofs see it: the arena and the ghost
      abstraction of the header ring and the vertical rings. */
  datatype Snapshot = Snapshot(a: Arena, live: seq<int>, vert: seq<seq<int>>)

  /** The matrix invariant of a snapshot. */
  ghost predicate Good(lay: Layout, s: Snapshot) {
    match s
    case Snapshot(a, live, vert) => Valid(a, lay, live, vert)
  }

  function ColsOf(column: seq<int>, xs: seq<int>): set<int> {
    set x | x in xs && 0 <= x < |column| :: column[x]
  }

  /** The columns the row of data node x occupies. */
  function RowCols(column: seq<int>, lay: Layout, x: int): set<int> {
    ColsOf(column, Row(lay, x))
  }

  function AllColumns(ncols: nat): (r: set<int>)
    ensures forall c :: c in r <==> 1 <= c <= ncols
  {
    if ncols == 0 then {} else AllColumns(ncols - 1) + {ncols}
  }

  /** The columns occupied by the rows of sol together. */
  function Union(column: seq<int>, lay: Layout, sol: seq<int>): set<int> {
    if sol == [] then {} else Union(column, lay, sol[..|sol| - 1]) + RowCols(column, lay, sol[|sol| - 1])
  }

  ghost predicate Disjoint(column: seq<int>, lay: Layout, sol: seq<int>) {
    forall p, q :: 0 <= p < q < |sol| ==> RowCols(column, lay, sol[p]) !! RowCols(column, lay, sol[q])
  }

  /** The rows chosen so far cover, without overlap, exactly the columns
      that are no longer in the header ring. */
  ghost predicate PartialCover(column: seq<int>, lay: Layout, sol: seq<int>, live: seq<int>) {
    Disjoint(column, lay, sol) && Union(column, lay, sol) == AllColumns(lay.ncols) - Elems(live)
  }

  /** The rows of sol cover every column exactly once. */
  ghost predicate ExactCover(column: seq<int>, lay: Layout, sol: seq<int>) {
    Disjoint(column, lay, sol) && Union(column, lay, sol) == AllColumns(lay.ncols)
  }

  /** Every entry of sol is one of the data nodes among nodes 0..n-1. */
  ghost predicate DataNodes(lay: Layout, n: int, sol: seq<int>) {
    forall k :: 0 <= k < |sol| ==> lay.ncols < sol[k] < n
  }

  lemma {:induction false} UnionHas(column: seq<int>, lay: Layout, sol: seq<int>, p: int)
    requires 0 <= p < |sol|
    ensures RowCols(column, lay, sol[p]) <= Union(column, lay, sol)
    decreases |sol|
  {
    if p < |sol| - 1 {
      var pre := sol[..|sol| - 1];
      UnionHas(column, lay, pre, p);
      assert pre[p] == sol[p];
    }
  }

  lemma UnionMembers(column: seq<int>, lay: Layout, sol: seq<int>, x: int)
    ensures x in Union(column, lay, sol) <==> exists p :: 0 <= p < |sol| && x in RowCols(column, lay, sol[p])
  {
    if x in Union(column, lay, sol) {
      var p := UnionWitness(column, lay, sol, x);
    }
    forall p | 0 <= p < |sol| && x in RowCols(column, lay, sol[p]) ensures x in Union(column, lay, sol) {
      UnionHas(column, lay, sol, p);
    }
  }

  /** A column of the union lies in the row of some entry. */
  lemma {:induction false} UnionWitness(column: seq<int>, lay: Layout, sol: seq<int>, x: int) returns (p: int)
    requires x in Union(column, lay, sol)
    ensures 0 <= p < |sol| && x in RowCols(column, lay, sol[p])
    decreases |sol|
  {
    var pre := sol[..|sol| - 1];
    if x in Union(column, lay, pre) {
      p := UnionWitness(column, lay, pre, x);
      assert pre[p] == sol[p];
    } else {
      p := |sol| - 1;
    }
  }

  /** An exact cover, read column by column: each column lies in the row of
      exactly one entry of the solution. */
  lemma ExactCoverUnique(column: seq<int>, lay: Layout, sol: seq<int>, c: int)
    requires ExactCover(column, lay, sol) && 1 <= c <= lay.ncols
    ensures exists p :: 0 <= p < |sol| && c in RowCols(column, lay, sol[p])
    ensures forall p, q ::
      (0 <= p < |sol| && 0 <= q < |sol| && c in RowCols(column, lay, sol[p]) && c in RowCols(column, lay, sol[q])) ==> p == q
  {
    assert c in AllColumns(lay.ncols);
    UnionMembers(column, lay, sol, c);
  }

  /** At the start nothing is chosen and every column is in the header ring. */
  lemma PartialStart(column: seq<int>, lay: Layout, live: seq<int>)
    requires Elems(live) == AllColumns(lay.ncols)
    ensures PartialCover(column, lay, [], live)
  {
  }

  /** With the header ring empty, a partial cover is an exact cover. */
  lemma PartialDone(column: seq<int>, lay: Layout, sol: seq<int>)
    requires PartialCover(column, lay, sol, [])
    ensures ExactCover(column, lay, sol)
  {
    assert Elems([]) == {};
  }

  /** Choosing a row whose columns are all still in the header ring, and
      taking them out of it, keeps a partial cover. */
  lemma PartialExtend(column: seq<int>, lay: Layout, sol: seq<int>, live: seq<int>, x: int)
    requires PartialCover(column, lay, sol, live)
    requires Elems(live) <= AllColumns(lay.ncols) && RowCols(column, lay, x) <= Elems(live)
    ensures PartialCover(column, lay, sol + [x], Keep(live, RowCols(column, lay, x)))
  {
    var sol', r := sol + [x], RowCols(column, lay, x);
    assert sol'[..|sol|] == sol && sol'[|sol|] == x;
    assert Union(column, lay, sol') == Union(column, lay, sol) + r;
    assert Elems(Keep(live, r)) == Elems(live) - r;
    forall p, q | 0 <= p < q < |sol'| ensures RowCols(column, lay, sol'[p]) !! RowCols(column, lay, sol'[q]) {
      if q < |sol| {
        assert sol'[p] == sol[p] && sol'[q] == sol[q];
      } else {
        assert sol'[p] == sol[p];
        UnionHas(column, lay, sol, p);
      }
    }
  }

  /** Taking a column out of a sequence that holds it shortens it. */
  lemma {:induction false} KeepShorter(xs: seq<int>, gone: set<int>, x: int)
    requires x in xs && x in gone
    ensures |Keep(xs, gone)| < |xs|
    decreases |xs|
  {
    if xs[0] != x {
      KeepShorter(xs[1..], gone, x);
    } else {
      assert |Keep(xs[1..], gone)| <= |xs[1..]|;
    }
  }

  // ---------------------------------------------------------------------
  // Covering the other columns of a chosen row, and undoing it
  // ---------------------------------------------------------------------

  /** The state cover(c) leads to from state s. */
  function Next(lay: Layout, s: Snapshot, c: int): Snapshot {
    if 0 <= c < |s.vert| then
      Snapshot(Covered(s.a, lay, s.vert[c], c), Keep(s.live, {c}), Remaining(s.vert, Elems(CoverTrace(lay, s.vert[c]))))
    else s
  }

  /** The state covering the columns cols, in order, leads to from s. */
  function CoverAll(lay: Layout, s: Snapshot, cols: seq<int>): Snapshot {
    if cols == [] then s else Next(lay, CoverAll(lay, s, cols[..|cols| - 1]), cols[|cols| - 1])
  }

  /** The columns of the nodes xs, in order. */
  function ColumnSeq(column: seq<int>, xs: seq<int>): (r: seq<int>)
    ensures |r| == |xs|
    ensures forall k :: 0 <= k < |xs| ==> r[k] == (if 0 <= xs[k] < |column| then column[xs[k]] else NoColumn)
  {
    seq(|xs|, k requires 0 <= k < |xs| => if 0 <= xs[k] < |column| then column[xs[k]] else NoColumn)
  }

  /** Covering, one after the other, distinct columns that are all live
      keeps the invariant and the column map, and removes exactly those
      columns from the header ring. */
  lemma {:induction false} CoverAllGood(lay: Layout, s: Snapshot, cols: seq<int>)
    requires Good(lay, s) && Distinct(cols) && forall k :: 0 <= k < |cols| ==> cols[k] in s.live
    ensures var t := CoverAll(lay, s, cols);
      Good(lay, t) && t.a.column == s.a.column && t.live == Keep(s.live, Elems(cols))
    decreases |cols|
  {
    if cols == [] {
      assert Elems(cols) == {};
      KeepNone(s.live, {});
    } else {
      var n := |cols| - 1;
      var pre := cols[..n];
      DistinctSnoc(cols);
      CoverAllGood(lay, s, pre);
      NextKeeps(lay, CoverAll(lay, s, pre), CoverAll(lay, s, cols), cols[n], s.live, Elems(pre));
    }
  }

  /** Splitting the last element off a sequence of distinct elements. */
  lemma DistinctSnoc(cols: seq<int>)
    requires Distinct(cols) && cols != []
    ensures var n := |cols| - 1;
      && Distinct(cols[..n]) && (forall k :: 0 <= k < n ==> cols[..n][k] == cols[k])
      && cols[n] !in Elems(cols[..n]) && Elems(cols) == Elems(cols[..n]) + {cols[n]}
  {
    var n := |cols| - 1;
    assert cols == cols[..n] + [cols[n]];
  }

  /** On the way, the next column is still live when its turn comes. */
  lemma NextLive(lay: Layout, s: Snapshot, cols: seq<int>, k: int)
    requires Good(lay, s) && Distinct(cols) && forall k :: 0 <= k < |cols| ==> cols[k] in s.live
    requires 0 <= k < |cols|
    ensures var t := CoverAll(lay, s, cols[..k]);
      Good(lay, t) && t.a.column == s.a.column && cols[k] in t.live
  {
    assert forall q :: 0 <= q < k ==> cols[..k][q] == cols[q];
    CoverAllGood(lay, s, cols[..k]);
  }

  /** What UncoverOthers starts from: the other nodes of i's row, their
      columns, and the first step of the walk left from i once they are
      all covered. */
  lemma LastOther(lay: Layout, s0: Snapshot, i: int) returns (o: seq<int>, cols: seq<int>)
    requires Good(lay, s0) && lay.ncols < i < |s0.a.column|
    requires var cols := ColumnSeq(s0.a.column, Others(lay, i));
      Distinct(cols) && forall q :: 0 <= q < |cols| ==> cols[q] in s0.live
    ensures o == Others(lay, i) && cols == ColumnSeq(s0.a.column, o)
    ensures var t := CoverAll(lay, s0, cols);
      && 0 <= i < |t.a.horiz.prev| && t.a.horiz.prev[i] == (if o == [] then i else o[|o| - 1])
    ensures cols[..0] == [] && cols[..|o|] == cols && CoverAll(lay, s0, []) == s0
    ensures forall m :: 0 <= m < |o| ==> o[m] != i
  {
    o, cols := Others(lay, i), ColumnSeq(s0.a.column, Others(lay, i));
    LastOtherLink(lay, s0, i);
    OthersNotSelf(lay, s0, i);
    SliceEnds(cols);
  }

  lemma LastOtherLink(lay: Layout, s0: Snapshot, i: int)
    requires Good(lay, s0) && lay.ncols < i < |s0.a.column|
    requires var cols := ColumnSeq(s0.a.column, Others(lay, i));
      Distinct(cols) && forall q :: 0 <= q < |cols| ==> cols[q] in s0.live
    ensures var o := Others(lay, i);
      var t := CoverAll(lay, s0, ColumnSeq(s0.a.column, o));
      && 0 <= i < |t.a.horiz.prev| && t.a.horiz.prev[i] == (if o == [] then i else o[|o| - 1])
  {
    var t := CoverAll(lay, s0, ColumnSeq(s0.a.column, Others(lay, i)));
    CoverAllGood(lay, s0, ColumnSeq(s0.a.column, Others(lay, i)));
    OthersWalk(t.a, lay, i);
  }

  lemma OthersNotSelf(lay: Layout, s: Snapshot, i: int)
    requires Good(lay, s) && lay.ncols < i < |s.a.column|
    ensures forall m :: 0 <= m < |Others(lay, i)| ==> Others(lay, i)[m] != i
  {
    OtherLinks(lay, s, i);
  }

  /** cols[..k + 1] is one more column covered than cols[..k]. */
  lemma CoverAllSnoc(lay: Layout, s0: Snapshot, cols: seq<int>, k: int)
    requires 0 <= k < |cols|
    ensures CoverAll(lay, s0, cols[..k + 1]) == Next(lay, CoverAll(lay, s0, cols[..k]), cols[k])
  {
    assert cols[..k + 1][..k] == cols[..k];
  }

  /** Covering live column c from p, whose header ring is L0 without the
      columns of g, leads to a valid t whose ring is L0 without g and c. */
  lemma NextKeeps(lay: Layout, p: Snapshot, t: Snapshot, c: int, L0: seq<int>, g: set<int>)
    requires Good(lay, p) && c in p.live && p.live == Keep(L0, g) && t == Next(lay, p, c)
    ensures Good(lay, t) && t.a.column == p.a.column && t.live == Keep(L0, g + {c})
  {
    NextFacts(lay, p, c);
    KeepKeep(L0, g, {c});
  }

  /** What CoverOthers starts from: the other nodes of i's row, their
      distinct live columns, and the first step of the walk right from i. */
  lemma CoverOthersStart(lay: Layout, s: Snapshot, i: int) returns (o: seq<int>, cols: seq<int>)
    requires Good(lay, s) && lay.ncols < i < |s.a.column|
    requires ColsOf(s.a.column, Others(lay, i)) <= Elems(s.live)
    ensures o == Others(lay, i) && cols == ColumnSeq(s.a.column, o)
    ensures Distinct(cols) && forall q :: 0 <= q < |cols| ==> cols[q] in s.live
    ensures 0 <= i < |s.a.horiz.next| && s.a.horiz.next[i] == (if o == [] then i else o[0])
    ensures cols[..0] == [] && cols[..|o|] == cols && CoverAll(lay, s, []) == s
    ensures forall m :: 0 <= m < |o| ==> o[m] != i
  {
    o, cols := Others(lay, i), ColumnSeq(s.a.column, Others(lay, i));
    OthersColumnsLive(lay, s, i);
    OtherLinks(lay, s, i);
    SliceEnds(cols);
  }

  /** The columns of the other nodes of data node i's row are distinct, none
      is i's own, and they are live when the row's columns are. */
  lemma OthersColumnsLive(lay: Layout, s: Snapshot, i: int)
    requires Good(lay, s) && lay.ncols < i < |s.a.column|
    requires ColsOf(s.a.column, Others(lay, i)) <= Elems(s.live)
    ensures var cols := ColumnSeq(s.a.column, Others(lay, i));
      && Distinct(cols) && (forall k :: 0 <= k < |cols| ==> cols[k] in s.live)
      && (forall k :: 0 <= k < |cols| ==> cols[k] != s.a.column[i])
      && Elems(cols) == ColsOf(s.a.column, Others(lay, i))
  {
    OthersColumnsDistinct(lay, s, i);
    OthersColumnsIn(lay, s, i);
  }

  lemma OthersColumnsDistinct(lay: Layout, s: Snapshot, i: int)
    requires Good(lay, s) && lay.ncols < i < |s.a.column|
    ensures var cols := ColumnSeq(s.a.column, Others(lay, i));
      && Distinct(cols) && (forall k :: 0 <= k < |cols| ==> cols[k] != s.a.column[i])
  {
    var o, column := Others(lay, i), s.a.column;
    var cols := ColumnSeq(column, o);
    forall k | 0 <= k < |cols|
      ensures cols[k] != column[i]
    {
      OthersColumnsFresh(s.a, lay, i, k);
    }
    forall k, k' | 0 <= k < k' < |cols|
      ensures cols[k] != cols[k']
    {
      OthersColumnsFresh(s.a, lay, i, k');
      assert o[k] in o[..k'];
    }
  }

  lemma OthersColumnsIn(lay: Layout, s: Snapshot, i: int)
    requires Good(lay, s) && lay.ncols < i < |s.a.column|
    requires ColsOf(s.a.column, Others(lay, i)) <= Elems(s.live)
    ensures var cols := ColumnSeq(s.a.column, Others(lay, i));
      && (forall k :: 0 <= k < |cols| ==> cols[k] in s.live)
      && Elems(cols) == ColsOf(s.a.column, Others(lay, i))
  {
    var o, column := Others(lay, i), s.a.column;
    var cols := ColumnSeq(column, o);
    forall k | 0 <= k < |cols|
      ensures cols[k] in s.live && cols[k] == column[o[k]]
    {
      OthersColumnsFresh(s.a, lay, i, k);
      assert o[k] in o;
      assert column[o[k]] in ColsOf(column, o);
    }
    forall x | x in ColsOf(column, o) ensures x in Elems(cols) {
      var y :| y in o && 0 <= y < |column| && x == column[y];
      var k :| 0 <= k < |o| && o[k] == y;
      assert cols[k] == x;
    }
  }

  /** The header ring holds column numbers only. */
  lemma LiveColumns(lay: Layout, s: Snapshot)
    requires Good(lay, s)
    ensures Elems(s.live) <= AllColumns(lay.ncols)
  {
    assert HeaderRing(s.a, lay, s.live);
  }

  /** What cover(c) needs before it runs on a valid state: the splices it
      plans are possible, and their effect is Next. */
  lemma CoverReady(lay: Layout, s: Snapshot, c: int)
    requires Good(lay, s) && c in s.live
    ensures 1 <= c < |s.vert|
    ensures var h, ring := UnlinkFromHeader(s.a, c), s.vert[c];
      && Proper(s.a.horiz, c) && Linkable(h.horiz, c)
      && WalkReady(h, c, ring, CoverTrace(lay, ring), Starts(lay, ring))
  {
    assert Valid(s.a, lay, s.live, s.vert);
    WalkReadyOf(s.a, lay, s.live, s.vert, c);
  }

  /** What uncover(c) needs after cover(c) on a valid state: relinking the
      trace backwards and then c gives the state back. */
  lemma UncoverReady(lay: Layout, s: Snapshot, c: int) returns (h: Arena, ts: seq<int>, st: seq<int>)
    requires Good(lay, s) && c in s.live
    ensures 1 <= c < |s.vert|
    ensures h == UnlinkFromHeader(s.a, c) && ts == CoverTrace(lay, s.vert[c]) && st == Starts(lay, s.vert[c])
    ensures Linkable(h.horiz, c) && WalkReady(h, c, s.vert[c], ts, st)
    ensures Next(lay, s, c).a == UnlinkAll(h, ts)
    ensures UnlinkAll(h, ts).horiz == h.horiz && UnlinkAll(h, ts).column == h.column
    ensures RelinkIntoHeader(h, c) == s.a
  {
    assert Valid(s.a, lay, s.live, s.vert);
    h, ts, st := UnlinkFromHeader(s.a, c), CoverTrace(lay, s.vert[c]), Starts(lay, s.vert[c]);
    WalkReadyOf(s.a, lay, s.live, s.vert, c);
    UnlinkAllFrame(h, ts);
    RelinkUndoesUnlink(s.a.horiz, c);
  }

  /** Covering a live column keeps the invariant and the column map, and
      removes just that column from the header ring. */
  lemma NextFacts(lay: Layout, s: Snapshot, c: int)
    requires Good(lay, s) && c in s.live
    ensures var t := Next(lay, s, c);
      && Good(lay, t) && t.a.column == s.a.column
      && t.live == Keep(s.live, {c}) && t.vert[c] == s.vert[c]
  {
    assert 1 <= c < |s.vert|;
    CoverSound(s.a, lay, s.live, s.vert, c);
    UnlinkAllFrame(UnlinkFromHeader(s.a, c), CoverTrace(lay, s.vert[c]));
  }

  /** The columns of a data node's row: its own, and those of the others. */
  lemma RowColsSplit(a: Arena, lay: Layout, i: int)
    requires Shaped(a, lay) && RowsOK(a, lay) && lay.ncols < i < |a.column|
    ensures RowCols(a.column, lay, i) == {a.column[i]} + ColsOf(a.column, Others(lay, i))
  {
    OthersFacts(a, lay, i);
  }

  /** The row of a node of a live column lies in live columns only. */
  lemma RowLive(a: Arena, lay: Layout, live: seq<int>, vert: seq<seq<int>>, c: int, i: int)
    requires Valid(a, lay, live, vert) && c in live && i in vert[c]
    ensures RowCols(a.column, lay, i) <= Elems(live)
  {
    assert 1 <= c <= lay.ncols;
    forall y | y in Row(lay, i) ensures a.column[y] in live {
      assert Present(a, vert, y) && a.column[y] in live;
    }
  }

  /** Two different nodes of one row lie in different columns. */
  lemma DistinctInRow(a: Arena, r: seq<int>, x: int, y: int)
    requires DistinctColumns(a, r) && x in r && y in r && x != y
    requires 0 <= x < |a.column| && 0 <= y < |a.column|
    ensures a.column[x] != a.column[y]
  {
    var p :| 0 <= p < |r| && r[p] == x;
    var q :| 0 <= q < |r| && r[q] == y;
  }

  /** As the other nodes of i's row are walked, the column of the next one
      is none of the columns covered so far, nor i's own. */
  lemma OthersColumnsFresh(a: Arena, lay: Layout, i: int, k: int)
    requires Shaped(a, lay) && RowsOK(a, lay) && lay.ncols < i < |a.column|
    requires 0 <= k < |Others(lay, i)|
    ensures var o := Others(lay, i);
      && 0 <= o[k] < |a.column|
      && a.column[o[k]] !in ColsOf(a.column, o[..k]) && a.column[o[k]] != a.column[i]
      && ColsOf(a.column, o[..k + 1]) == ColsOf(a.column, o[..k]) + {a.column[o[k]]}
  {
    var o := Others(lay, i);
    OthersFacts(a, lay, i);
    RowFacts(a, lay, i);
    var r := Row(lay, i);
    assert o[k] in o;
    forall y | y in o[..k] && 0 <= y < |a.column| ensures a.column[y] != a.column[o[k]] {
      var q :| 0 <= q < k && o[..k][q] == y;
      assert o[q] == y && o[q] in o;
      DistinctInRow(a, r, y, o[k]);
    }
    ColsOfNot(a.column, o[..k], a.column[o[k]]);
    SnocSlice(o, k);
    ColsOfSnoc(a.column, o[..k], o[k]);
  }

  lemma ColsOfNot(column: seq<int>, xs: seq<int>, v: int)
    requires forall y :: y in xs && 0 <= y < |column| ==> column[y] != v
    ensures v !in ColsOf(column, xs)
  {
  }

  lemma ColsOfSnoc(column: seq<int>, xs: seq<int>, x: int)
    requires 0 <= x < |column|
    ensures ColsOf(column, xs + [x]) == ColsOf(column, xs) + {column[x]}
  {
  }

  // ---------------------------------------------------------------------
  // Walking the header ring and a row's ring
  // ---------------------------------------------------------------------

  /** Following `right` from the header visits the live columns in order. */
  lemma HeaderWalk(lay: Layout, s: Snapshot)
    requires Good(lay, s)
    ensures s.a.horiz.next[0] == (if s.live == [] then 0 else s.live[0])
    ensures forall m {:trigger s.a.horiz.next[s.live[m]]} :: 0 <= m < |s.live| ==>
      s.a.horiz.next[s.live[m]] == (if m + 1 < |s.live| then s.live[m + 1] else 0)
    ensures forall m :: 0 <= m < |s.live| ==> 0 < s.live[m] < |s.a.size|
  {
    assert HeaderRing(s.a, lay, s.live) && Shaped(s.a, lay);
    RingWalk(s.a.horiz, 0, s.live);
  }

  /** OthersWalk, in a valid snapshot. */
  lemma OtherLinks(lay: Layout, s: Snapshot, i: int)
    requires Good(lay, s) && lay.ncols < i < |s.a.column|
    ensures var o, a := Others(lay, i), s.a;
      && |a.horiz.next| == |a.horiz.prev| == |a.column|
      && (forall m :: 0 <= m < |o| ==> lay.ncols < o[m] < |a.column| && o[m] != i)
      && a.horiz.next[i] == (if o == [] then i else o[0])
      && a.horiz.prev[i] == (if o == [] then i else o[|o| - 1])
      && (forall m {:trigger a.horiz.next[o[m]]} :: 0 <= m < |o| ==>
            a.horiz.next[o[m]] == (if m + 1 < |o| then o[m + 1] else i))
      && (forall m {:trigger a.horiz.prev[o[m]]} :: 0 <= m < |o| ==>
            a.horiz.prev[o[m]] == (if m > 0 then o[m - 1] else i))
  {
    assert Shaped(s.a, lay) && RowsOK(s.a, lay);
    OthersWalk(s.a, lay, i);
  }

  /** Following `right` (`left`) from data node i visits the other nodes of
      its row in order (in reverse order), and comes back to i. */
  lemma OthersWalk(a: Arena, lay: Layout, i: int)
    requires Shaped(a, lay) && RowsOK(a, lay) && lay.ncols < i < |a.column|
    ensures |a.horiz.next| == |a.horiz.prev| == |a.column|
    ensures var o := Others(lay, i);
      forall m :: 0 <= m < |o| ==> lay.ncols < o[m] < |a.column| && o[m] != i
    ensures var o := Others(lay, i);
      && a.horiz.next[i] == (if o == [] then i else o[0])
      && a.horiz.prev[i] == (if o == [] then i else o[|o| - 1])
      && (forall m {:trigger a.horiz.next[o[m]]} :: 0 <= m < |o| ==>
            a.horiz.next[o[m]] == (if m + 1 < |o| then o[m + 1] else i))
      && (forall m {:trigger a.horiz.prev[o[m]]} :: 0 <= m < |o| ==>
            a.horiz.prev[o[m]] == (if m > 0 then o[m - 1] else i))
  {
    OthersRing(a, lay, i);
    RingWalkIn(a.horiz, lay.ncols, i, Others(lay, i));
  }

  /** RingWalk for a ring of nodes above ncols. */
  lemma RingWalkIn(lk: Links, ncols: nat, h: int, xs: seq<int>)
    requires Cycle(lk, [h] + xs) && ncols < h < |lk.next|
    requires forall x :: x in xs ==> ncols < x < |lk.next|
    ensures forall m :: 0 <= m < |xs| ==> ncols < xs[m] < |lk.next| && xs[m] != h
    ensures lk.next[h] == (if xs == [] then h else xs[0])
    ensures lk.prev[h] == (if xs == [] then h else xs[|xs| - 1])
    ensures forall m {:trigger lk.next[xs[m]]} :: 0 <= m < |xs| ==> lk.next[xs[m]] == (if m + 1 < |xs| then xs[m + 1] else h)
    ensures forall m {:trigger lk.prev[xs[m]]} :: 0 <= m < |xs| ==> lk.prev[xs[m]] == (if m > 0 then xs[m - 1] else h)
  {
    assert forall m :: 0 <= m < |xs| ==> xs[m] in xs;
    CycleBounds(lk, h, xs);
    RingWalk(lk, h, xs);
  }

  // ---------------------------------------------------------------------
  // Choosing a column
  // ---------------------------------------------------------------------

  /** Among the first m live columns, live[p] has the least size, and no
      earlier one has that size. */
  ghost predicate FirstMin(size: seq<int>, live: seq<int>, p: int, m: int) {
    && 0 <= p < m <= |live|
    && (forall q :: 0 <= q < m ==> 0 <= live[q] < |size|)
    && (forall q :: 0 <= q < m ==> size[live[p]] <= size[live[q]])
    && (forall q :: 0 <= q < p ==> size[live[p]] < size[live[q]])
  }
}
