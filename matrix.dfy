/** The Dancing Links matrix as values: the link fields of every node of the
    arena, the row structure fixed when the matrix is built, and the
    invariant every state reached by the solver keeps.

    Node 0 is the header, nodes 1..ncols are the column headers (a column
    node's `column` is itself), every later node is a data node.  Covering a
    column is a header unlink followed by a sequence of vertical unlinks (its
    trace); uncovering relinks the same nodes in the opposite order.  The
    invariant only speaks about the nodes still linked in; the stale fields
    of nodes that were unlinked are accounted for by the trace lemmas. */
module Matrix {
  import opened Links

  /** The header's `column` field, which is null. */
  const NoColumn := -1

  datatype Arena = Arena(horiz: Links, vert: Links, column: seq<int>, size: seq<int>)

  /** The rows as built: rows[r] lists the data nodes of row r in the order
      `right` visits them, and data node x is rows[rowOf[x]][posOf[x]]. */
  datatype Layout = Layout(ncols: nat, rows: seq<seq<int>>, rowOf: seq<int>, posOf: seq<int>)

  // ---------------------------------------------------------------------
  // The invariant
  // ---------------------------------------------------------------------

  predicate InRange(lk: Links) {
    |lk.next| == |lk.prev| &&
    forall x :: 0 <= x < |lk.next| ==> 0 <= lk.next[x] < |lk.next| && 0 <= lk.prev[x] < |lk.next|
  }

  /** Every array has one entry per node; node 0 has no column, column node c
      is its own column, and every data node belongs to a column. */
  ghost predicate Shaped(a: Arena, lay: Layout) {
    var n := |a.column|;
    && |a.horiz.next| == n && |a.horiz.prev| == n
    && |a.vert.next| == n && |a.vert.prev| == n
    && |a.size| == n
    && lay.ncols < n
    && |lay.rowOf| == n && |lay.posOf| == n
    && a.column[0] == NoColumn
    && (forall c :: 1 <= c <= lay.ncols ==> a.column[c] == c)
    && (forall x :: lay.ncols < x < n ==> 1 <= a.column[x] <= lay.ncols)
  }

  /** Vertical fields never leave a column: this holds of unlinked nodes too. */
  ghost predicate ColumnClosed(a: Arena) {
    && |a.vert.next| == |a.column|
    && InRange(a.vert)
    && forall x :: 1 <= x < |a.column| ==>
         a.column[a.vert.next[x]] == a.column[x] && a.column[a.vert.prev[x]] == a.column[x]
  }

  /** The header ring holds exactly the live columns, in order. */
  ghost predicate HeaderRing(a: Arena, lay: Layout, live: seq<int>) {
    && Cycle(a.horiz, [0] + live)
    && forall k :: 0 <= k < |live| ==> 1 <= live[k] <= lay.ncols
  }

  /** Column c's vertical ring holds exactly xs, its `size` is |xs| and every
      node in it names c as its column. */
  ghost predicate ColumnRing(a: Arena, c: int, xs: seq<int>) {
    && Cycle(a.vert, [c] + xs)
    && 0 <= c < |a.size|
    && a.size[c] == |xs|
    && forall k :: 0 <= k < |xs| ==> 0 <= xs[k] < |a.column| && a.column[xs[k]] == c
  }

  /** vert[c] is column c's vertical ring; the header (index 0) has none. */
  ghost predicate VertRings(a: Arena, ncols: nat, vert: seq<seq<int>>) {
    && |vert| == ncols + 1
    && vert[0] == []
    && forall c :: 1 <= c <= ncols ==> ColumnRing(a, c, vert[c])
  }

  predicate DistinctColumns(a: Arena, ys: seq<int>) {
    forall k, k' :: 0 <= k < k' < |ys| && 0 <= ys[k] < |a.column| && 0 <= ys[k'] < |a.column| ==>
      a.column[ys[k]] != a.column[ys[k']]
  }

  /** Every data node lies in exactly one row; each row is a horizontal ring
      whose nodes lie in distinct columns. */
  ghost predicate RowsOK(a: Arena, lay: Layout) {
    var n := |a.column|;
    && |lay.rowOf| == n && |lay.posOf| == n
    && (forall x :: lay.ncols < x < n ==>
          0 <= lay.rowOf[x] < |lay.rows| && 0 <= lay.posOf[x] < |lay.rows[lay.rowOf[x]]| &&
          lay.rows[lay.rowOf[x]][lay.posOf[x]] == x)
    && (forall r, q :: 0 <= r < |lay.rows| && 0 <= q < |lay.rows[r]| ==>
          lay.ncols < lay.rows[r][q] < n && lay.rowOf[lay.rows[r][q]] == r && lay.posOf[lay.rows[r][q]] == q)
    && (forall r :: 0 <= r < |lay.rows| ==> Cycle(a.horiz, lay.rows[r]) && DistinctColumns(a, lay.rows[r]))
  }

  /** The row data node x belongs to. */
  function Row(lay: Layout, x: int): seq<int> {
    if 0 <= x < |lay.rowOf| && 0 <= lay.rowOf[x] < |lay.rows| then lay.rows[lay.rowOf[x]] else []
  }

  /** Node y is still linked into its column's vertical ring. */
  ghost predicate Present(a: Arena, vert: seq<seq<int>>, y: int) {
    0 <= y < |a.column| && 0 <= a.column[y] < |vert| && y in vert[a.column[y]]
  }

  /** A row reachable from a live column is whole: each of its nodes is still
      in its column's ring, and each of those columns is live. */
  ghost predicate Integrity(a: Arena, lay: Layout, live: seq<int>, vert: seq<seq<int>>) {
    forall c, i {:trigger i in vert[c]} :: 0 <= c < |vert| && c in live && i in vert[c] ==>
      RowWhole(a, lay, live, vert, i)
  }

  /** Each node of i's row is still in its column's ring, and that column
      is live. */
  ghost predicate RowWhole(a: Arena, lay: Layout, live: seq<int>, vert: seq<seq<int>>, i: int) {
    forall y :: y in Row(lay, i) ==> Present(a, vert, y) && a.column[y] in live
  }

  ghost predicate Valid(a: Arena, lay: Layout, live: seq<int>, vert: seq<seq<int>>) {
    && Shaped(a, lay)
    && InRange(a.horiz)
    && ColumnClosed(a)
    && HeaderRing(a, lay, live)
    && VertRings(a, lay.ncols, vert)
    && RowsOK(a, lay)
    && Integrity(a, lay, live, vert)
  }

  // ---------------------------------------------------------------------
  // Sequences of node indices
  // ---------------------------------------------------------------------

  /** xs without the elements of gone, order kept. */
  function Keep(xs: seq<int>, gone: set<int>): (r: seq<int>)
    ensures |r| <= |xs|
    ensures forall y :: y in r <==> y in xs && y !in gone
  {
    if xs == [] then []
    else (if xs[0] in gone then [] else [xs[0]]) + Keep(xs[1..], gone)
  }

  /** Every vertical ring with the nodes of gone removed. */
  function Remaining(vert: seq<seq<int>>, gone: set<int>): (r: seq<seq<int>>)
    ensures |r| == |vert|
    ensures forall c :: 0 <= c < |vert| ==> r[c] == Keep(vert[c], gone)
  {
    seq(|vert|, c requires 0 <= c < |vert| => Keep(vert[c], gone))
  }

  function Elems(xs: seq<int>): set<int> {
    set x | x in xs
  }

  function Reverse(xs: seq<int>): (r: seq<int>)
    ensures |r| == |xs|
  {
    if xs == [] then [] else [xs[|xs| - 1]] + Reverse(xs[..|xs| - 1])
  }

  // ---------------------------------------------------------------------
  // The splices of cover and uncover
  // ---------------------------------------------------------------------

  /** c.right.left := c.left; c.left.right := c.right */
  function UnlinkFromHeader(a: Arena, c: int): Arena {
    a.(horiz := Unlink(a.horiz, c))
  }

  /** c.right.left := c; c.left.right := c */
  function RelinkIntoHeader(a: Arena, c: int): Arena {
    a.(horiz := Relink(a.horiz, c))
  }

  /** j.down.up := j.up; j.up.down := j.down; j.column.size-- */
  function UnlinkFromColumn(a: Arena, j: int): Arena {
    if 0 <= j < |a.column| && 0 <= a.column[j] < |a.size| then
      a.(vert := Unlink(a.vert, j), size := a.size[a.column[j] := a.size[a.column[j]] - 1])
    else a
  }

  /** j.column.size++; j.down.up := j; j.up.down := j */
  function RelinkIntoColumn(a: Arena, j: int): Arena {
    if 0 <= j < |a.column| && 0 <= a.column[j] < |a.size| then
      a.(size := a.size[a.column[j] := a.size[a.column[j]] + 1], vert := Relink(a.vert, j))
    else a
  }

  function UnlinkAll(a: Arena, js: seq<int>): Arena {
    if js == [] then a else UnlinkFromColumn(UnlinkAll(a, js[..|js| - 1]), js[|js| - 1])
  }

  function RelinkAll(a: Arena, js: seq<int>): Arena {
    if js == [] then a else RelinkIntoColumn(RelinkAll(a, js[..|js| - 1]), js[|js| - 1])
  }

  /** Each node of js, when its turn comes, is properly linked into its column. */
  ghost predicate ProperAll(a: Arena, js: seq<int>) {
    js == [] ||
    (ProperAll(a, js[..|js| - 1]) &&
     var b := UnlinkAll(a, js[..|js| - 1]);
     var j := js[|js| - 1];
     0 <= j < |b.column| && 0 <= b.column[j] < |b.size| && Proper(b.vert, j))
  }

  /** The other nodes of i's row, in the order `right` visits them from i. */
  function Others(lay: Layout, i: int): seq<int> {
    if 0 <= i < |lay.rowOf| && 0 <= i < |lay.posOf| && 0 <= lay.rowOf[i] < |lay.rows|
       && 0 <= lay.posOf[i] < |lay.rows[lay.rowOf[i]]|
    then
      var r, p := lay.rows[lay.rowOf[i]], lay.posOf[i];
      r[p + 1..] + r[..p]
    else []
  }

  /** The nodes cover(c) unlinks from their columns, in order, when ring is
      c's vertical ring: for each row down the ring, its other nodes. */
  function CoverTrace(lay: Layout, ring: seq<int>): seq<int> {
    if ring == [] then [] else CoverTrace(lay, ring[..|ring| - 1]) + Others(lay, ring[|ring| - 1])
  }

  /** The matrix after cover(c), c's vertical ring being ring. */
  function Covered(a: Arena, lay: Layout, ring: seq<int>, c: int): Arena {
    UnlinkAll(UnlinkFromHeader(a, c), CoverTrace(lay, ring))
  }

  /** The matrix after uncover(c): relink the trace backwards, then c. */
  function Uncovered(a: Arena, lay: Layout, ring: seq<int>, c: int): Arena {
    RelinkIntoHeader(RelinkAll(a, Reverse(CoverTrace(lay, ring))), c)
  }
}
