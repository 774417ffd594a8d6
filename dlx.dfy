/** The DancingLinks class of the solver: one object per run, holding every
    node's link fields, the column of every node and the size of every
    column.  Nodes are numbered: 0 is the header, 1..ncols are the column
    nodes, data nodes follow.  A field that the source keeps on each node
    (`left`, `right`, `up`, `down`, `column`, `size`) is a sequence indexed by
    node number, reassigned as the source assigns the node field.

    The ghost fields are the abstraction the proofs use: `lay` fixes the rows,
    `live` is the header ring in order, `vert[c]` is column c's ring in order. */
module Solver {
  import opened Links
  import opened Matrix
  import opened Covering
  import opened Exact
  import opened Building
  import opened Tiling
  import Shuffling

  /** this.columns after `columns.forEach`: the column node of names[k] is
      node k + 1, a later name overwriting an earlier one. */
  function NameMap(names: seq<Name>): map<Name, int> {
    if names == [] then map[] else NameMap(names[..|names| - 1])[names[|names| - 1] := |names|]
  }

  /** The column nodes that the lookups `this.columns[name]` of a row find,
      in order; a name with no column is skipped. */
  function Found(m: map<Name, int>, ns: seq<Name>): seq<int> {
    if ns == [] then []
    else Found(m, ns[..|ns| - 1]) + (if ns[|ns| - 1] in m then [m[ns[|ns| - 1]]] else [])
  }

  /** The loop of the constructor, on the node fields: column node k + 1
      for names[k], each with every link to itself, then `last.right` and
      `column.left` threading it into the header ring after the previous
      one, and the ring closed back to the header at the end. */
  method ThreadColumns(names: seq<Name>)
    returns (r: seq<int>, l: seq<int>, d: seq<int>, u: seq<int>, col: seq<int>, sz: seq<int>, m: map<Name, int>)
    ensures Arena(Links(r, l), Links(d, u), col, sz) == Initial(|names|)
    ensures m == NameMap(names)
  {
    r, l, d, u, col, sz := [0], [0], [0], [0], [NoColumn], [0];
    m := map[];
    var last := 0;
    var i := 0;
    while i < |names|
      invariant 0 <= i <= |names| && last == i
      invariant r == seq(i + 1, k => if k < i then k + 1 else k)
      invariant l == seq(i + 1, k => if k == 0 then 0 else k - 1)
      invariant u == seq(i + 1, k => k) && d == u
      invariant col == seq(i + 1, k => if k == 0 then NoColumn else k)
      invariant sz == seq(i + 1, k => 0)
      invariant m == NameMap(names[..i])
    {
      var x := i + 1;
      r, l, u, d, col, sz := r + [x], l + [x], u + [x], d + [x], col + [x], sz + [0];
      assert names[..i + 1][..i] == names[..i];
      m := m[names[i] := x];
      r := r[last := x];
      l := l[x := last];
      last := x;
      i := i + 1;
    }
    r := r[last := 0];
    l := l[0 := last];
    assert names[..i] == names;
  }

  /** Distinct names lead to distinct live column nodes. */
  ghost predicate Indexed(m: map<Name, int>, live: seq<int>) {
    && (forall n :: n in m ==> m[n] in live)
    && (forall n, n' :: n in m && n' in m && n != n' ==> m[n] != m[n'])
  }

  class DancingLinks {
    var left: seq<int>
    var right: seq<int>
    var up: seq<int>
    var down: seq<int>
    var column: seq<int>
    var size: seq<int>
    var found: bool
    var columns: map<Name, int>

    ghost var lay: Layout
    ghost var live: seq<int>
    ghost var vert: seq<seq<int>>

    ghost function Snap(): Arena
      reads this
    {
      Arena(Links(right, left), Links(down, up), column, size)
    }

    ghost function Now(): Snapshot
      reads this
    {
      Snapshot(Snap(), live, vert)
    }

    /** The constructor: the header, then one column node per name, each
        with every link to itself and size 0, threaded into the header ring
        in the order of the names. */
    constructor (names: seq<Name>)
      ensures Snap() == Initial(|names|) && lay == EmptyLayout(|names|)
      ensures live == Range(1, |names| + 1) && vert == NoRings(|names|)
      ensures columns == NameMap(names) && !found
      ensures Good(lay, Now())
    {
      var r, l, d, u, col, sz, m := ThreadColumns(names);
      right, left, down, up, column, size := r, l, d, u, col, sz;
      columns := m;
      found := false;
      lay, live, vert := EmptyLayout(|names|), Range(1, |names| + 1), NoRings(|names|);
      new;
      InitialValid(|names|);
    }

    /** new DataNode(colNode), hung at the bottom of column c's ring:
        x.up := c.up; x.down := c; c.up.down := x; c.up := x; c.size++. */
    method AppendNode(c: int)
      requires Sized(Snap()) && 0 <= c < |column|
      modifies this
      ensures Snap() == AppendToColumn(old(Snap()), c)
      ensures lay == old(lay) && live == old(live) && vert == old(vert)
      ensures columns == old(columns) && found == old(found)
    {
      var x := |column|;
      var u, d, sz := up + [x], down + [x], size + [0];
      u := u[x := u[c]];
      d := d[x := c];
      d := d[u[c] := x];
      u := u[c := x];
      sz := sz[c := sz[c] + 1];
      left, right, up, down, column, size := left + [x], right + [x], u, d, column + [c], sz;
    }

    /** One step of a row's lookups: a name with a column gets a node. */
    method LookUp(name: Name, ghost a0: Arena, ghost cs: seq<int>) returns (ghost cs': seq<int>)
      requires forall n :: n in columns ==> 0 <= columns[n] < |column|
      requires Snap() == AppendAll(a0, cs) && Sized(Snap())
      modifies this
      ensures cs' == cs + (if name in columns then [columns[name]] else [])
      ensures Snap() == AppendAll(a0, cs') && Sized(Snap()) && |column| == old(|column|) + |cs'| - |cs|
      ensures |column| >= old(|column|)
      ensures lay == old(lay) && live == old(live) && vert == old(vert)
      ensures columns == old(columns) && found == old(found)
    {
      cs' := cs;
      if name in columns {
        var c := columns[name];
        AppendSized(Snap(), c);
        AppendNode(c);
        AppendAllSnoc(a0, cs, c);
        cs' := cs + [c];
      }
    }

    /** The insertion of one candidate row (the body of
        `allPlacements.forEach`): a node at the bottom of the column of each
        of its cells that has one, then one in its instance column if that
        exists; then each node's left and right are its neighbours in
        nodesInRow, wrapping around. */
    method InsertRow(q: Placement) returns (ghost cs: seq<int>)
      requires Good(lay, Now()) && Indexed(columns, live)
      modifies this
      ensures cs == Found(columns, RowNames(q))
      ensures Snap() == AddRow(old(Snap()), cs)
      ensures lay == AddLayout(old(lay), old(|column|), |cs|) && vert == AddVert(old(vert), cs, old(|column|))
      ensures live == old(live) && columns == old(columns) && found == old(found)
      ensures NoDuplicates(RowNames(q)) ==> Good(lay, Now())
    {
      ghost var s0, lay0 := Now(), lay;
      GoodSized(lay, s0);
      var b := |column|;
      cs := LookUps(q);
      LinkNodes(b, |column| - b);
      lay := AddLayout(lay, b, |cs|);
      vert := AddVert(vert, cs, b);
      if NoDuplicates(RowNames(q)) {
        FoundFacts(columns, live, RowNames(q));
        GoodAddRow(lay0, s0, cs);
      }
    }

    /** The vertical phase of a row: the lookups of its cells, then of its
        instance, each hanging a node in the column found. */
    method LookUps(q: Placement) returns (ghost cs: seq<int>)
      requires forall n :: n in columns ==> 0 <= columns[n] < |column|
      requires Sized(Snap())
      modifies this
      ensures cs == Found(columns, RowNames(q))
      ensures Snap() == AppendAll(old(Snap()), cs) && |column| == old(|column|) + |cs| && Sized(Snap())
      ensures lay == old(lay) && live == old(live) && vert == old(vert)
      ensures columns == old(columns) && found == old(found)
    {
      ghost var a0, ns := Snap(), RowNames(q);
      cs := [];
      var i := 0;
      while i < |q.cells|
        invariant 0 <= i <= |q.cells|
        invariant cs == Found(columns, ns[..i])
        invariant Snap() == AppendAll(a0, cs) && Sized(Snap()) && |column| == |a0.column| + |cs|
        invariant lay == old(lay) && vert == old(vert) && live == old(live)
        invariant columns == old(columns) && found == old(found)
      {
        assert ns[..i + 1] == ns[..i] + [CellName(q.cells[i].y, q.cells[i].x)];
        FoundSnoc(columns, ns[..i], CellName(q.cells[i].y, q.cells[i].x));
        cs := LookUp(CellName(q.cells[i].y, q.cells[i].x), a0, cs);
        i := i + 1;
      }
      assert ns == ns[..i] + [Instance(q.block, q.count)];
      FoundSnoc(columns, ns[..i], Instance(q.block, q.count));
      cs := LookUp(Instance(q.block, q.count), a0, cs);
    }

    /** nodesInRow.forEach: node b + i gets left b + (i - 1) and right
        b + (i + 1), the ends wrapping around to each other. */
    method LinkNodes(b: int, m: int)
      requires 0 <= b && 0 <= m && b + m == |right| == |left|
      modifies this
      ensures Links(right, left) == LinkRow(old(Links(right, left)), b, m, m)
      ensures column == old(column) && down == old(down) && up == old(up) && size == old(size)
      ensures lay == old(lay) && live == old(live) && vert == old(vert)
      ensures columns == old(columns) && found == old(found)
    {
      ghost var h := Links(right, left);
      var r, l := right, left;
      var k := 0;
      while k < m
        invariant 0 <= k <= m
        invariant |r| == b + m && |l| == b + m
        invariant Links(r, l) == LinkRow(h, b, m, k)
      {
        r := r[b + k := b + NextIdx(k, m)];
        l := l[b + k := b + PrevIdx(k, m)];
        k := k + 1;
      }
      right, left := r, l;
    }

    /** cover(): take c out of the header ring, then, for each row down c's
        ring, unlink the row's other nodes from their columns.  The result
        is the state the column's trace describes, and it is valid again
        with c gone from the header and the trace gone from the rings. */
    method Cover(c: int)
      requires Good(lay, Now()) && c in live
      modifies this
      ensures lay == old(lay) && found == old(found) && column == old(column)
      ensures Now() == Next(lay, old(Now()), c)
      ensures Good(lay, Now()) && live == Keep(old(live), {c}) && vert[c] == old(vert)[c]
    {
      ghost var s := Now();
      CoverReady(lay, s, c);
      CoverSteps(c, vert[c], CoverTrace(lay, vert[c]), Starts(lay, vert[c]));
      live := Keep(live, {c});
      vert := Remaining(vert, Elems(CoverTrace(lay, s.vert[c])));
      assert Now() == Next(lay, s, c);
      NextFacts(lay, s, c);
    }

    /** The statements of cover(), walking c's ring as planned. */
    method CoverSteps(c: int, ghost ring: seq<int>, ghost ts: seq<int>, ghost st: seq<int>)
      requires Linkable(Links(right, left), c)
      requires WalkReady(UnlinkFromHeader(Snap(), c), c, ring, ts, st)
      modifies this
      ensures lay == old(lay) && live == old(live) && vert == old(vert) && found == old(found)
      ensures Snap() == UnlinkAll(UnlinkFromHeader(old(Snap()), c), ts)
    {
      ghost var h := UnlinkFromHeader(Snap(), c);
      left := left[right[c] := left[c]];
      right := right[left[c] := right[c]];
      assert Snap() == h;
      assert ts[..0] == [];
      var i := down[c];
      ghost var m := 0;
      while i != c
        invariant 0 <= m <= |ring| && i == (if m < |ring| then ring[m] else c)
        invariant Snap() == UnlinkAll(h, ts[..st[m]])
        invariant right == h.horiz.next && left == h.horiz.prev && column == h.column
        invariant lay == old(lay) && live == old(live) && vert == old(vert) && found == old(found)
        decreases |ring| - m
      {
        assert RowPlan(h, c, ring, ts, st, m);
        UnlinkRow(i, h, ts, st[m], st[m + 1]);
        i := down[i];
        m := m + 1;
      }
      assert ts[..|ts|] == ts;
    }

    /** The inner loop of cover(): walking right from i, unlink every other
        node of i's row from its column and decrement that column's size;
        those nodes are the steps n .. e - 1 of the trace ts. */
    method UnlinkRow(i: int, ghost h: Arena, ghost ts: seq<int>, ghost n: int, ghost e: int)
      requires RowSteps(h.horiz, i, ts, n, e)
      requires forall q :: n <= q < e ==> CanUnlink(h, ts, q)
      requires Snap() == UnlinkAll(h, ts[..n])
      requires right == h.horiz.next && left == h.horiz.prev && column == h.column
      modifies this
      ensures lay == old(lay) && live == old(live) && vert == old(vert) && found == old(found)
      ensures Snap() == UnlinkAll(h, ts[..e])
      ensures right == old(right) && left == old(left) && column == old(column)
    {
      var j := right[i];
      var d, u, sz := down, up, size;
      ghost var q := n;
      while j != i
        invariant n <= q <= e && j == (if q < e then ts[q] else i)
        invariant UnlinkAll(h, ts[..q]) == Arena(h.horiz, Links(d, u), h.column, sz)
        decreases e - q
      {
        assert CanUnlink(h, ts, q);
        u := u[d[j] := u[j]];
        d := d[u[j] := d[j]];
        sz := sz[column[j] := sz[column[j]] - 1];
        j := right[j];
        q := q + 1;
      }
      down, up, size := d, u, sz;
    }

    /** uncover(): for each row up c's ring, walking left, relink the row's
        other nodes into their columns (size first), then put c back into the
        header ring: the steps of cover(c) undone in the opposite order, which
        gives back the state before cover(c). */
    method Uncover(c: int, ghost s0: Snapshot)
      requires Good(lay, s0) && c in s0.live && Now() == Next(lay, s0, c)
      modifies this
      ensures lay == old(lay) && found == old(found) && Now() == s0
    {
      ghost var h, ts, st := UncoverReady(lay, s0, c);
      UncoverSteps(c, s0.vert[c], ts, st, h, s0.live, s0.vert);
    }

    /** The statements of uncover(), walking c's ring back up. */
    method UncoverSteps(c: int, ghost ring: seq<int>, ghost ts: seq<int>, ghost st: seq<int>, ghost h: Arena,
                        ghost live0: seq<int>, ghost vert0: seq<seq<int>>)
      requires Linkable(h.horiz, c) && WalkReady(h, c, ring, ts, st)
      requires Snap() == UnlinkAll(h, ts)
      requires right == h.horiz.next && left == h.horiz.prev && column == h.column
      modifies this
      ensures lay == old(lay) && found == old(found)
      ensures Now() == Snapshot(RelinkIntoHeader(h, c), live0, vert0)
    {
      assert ts[..|ts|] == ts;
      var i := up[c];
      ghost var m := |ring|;
      while i != c
        invariant 0 <= m <= |ring| && i == (if m > 0 then ring[m - 1] else c)
        invariant Snap() == UnlinkAll(h, ts[..st[m]])
        invariant right == h.horiz.next && left == h.horiz.prev && column == h.column
        invariant lay == old(lay) && found == old(found)
        decreases m
      {
        ghost var r := m - 1;
        assert RowPlan(h, c, ring, ts, st, r) && r + 1 == m;
        RelinkRow(i, h, ts, st[r], st[m]);
        i := up[i];
        m := r;
      }
      assert ts[..0] == [];
      RelinkHeader(c, h, live0, vert0);
    }

    /** The last statements of uncover(): c.right.left := c; c.left.right := c. */
    method RelinkHeader(c: int, ghost h: Arena, ghost live0: seq<int>, ghost vert0: seq<seq<int>>)
      requires Linkable(h.horiz, c) && Snap() == h
      modifies this
      ensures lay == old(lay) && found == old(found)
      ensures Now() == Snapshot(RelinkIntoHeader(h, c), live0, vert0)
    {
      left := left[right[c] := c];
      right, live, vert := right[left[c] := c], live0, vert0;
    }

    /** The inner loop of uncover(): walking left from i, relink every other
        node of i's row, undoing the steps e - 1 down to n of ts. */
    method RelinkRow(i: int, ghost h: Arena, ghost ts: seq<int>, ghost n: int, ghost e: int)
      requires RowSteps(h.horiz, i, ts, n, e)
      requires forall q :: n < q <= e ==> CanRelink(h, ts, q)
      requires Snap() == UnlinkAll(h, ts[..e])
      requires right == h.horiz.next && left == h.horiz.prev && column == h.column
      modifies this
      ensures lay == old(lay) && live == old(live) && vert == old(vert) && found == old(found)
      ensures Snap() == UnlinkAll(h, ts[..n])
      ensures right == old(right) && left == old(left) && column == old(column)
    {
      var j := left[i];
      var d, u, sz := down, up, size;
      ghost var q := e;
      while j != i
        invariant n <= q <= e && j == (if q > n then ts[q - 1] else i)
        invariant UnlinkAll(h, ts[..q]) == Arena(h.horiz, Links(d, u), h.column, sz)
        decreases q
      {
        assert CanRelink(h, ts, q);
        assert left[j] == (if q - 1 > n then ts[q - 2] else i);
        sz := sz[column[j] := sz[column[j]] + 1];
        u := u[d[j] := j];
        d := d[u[j] := j];
        j := left[j];
        q := q - 1;
      }
      down, up, size := d, u, sz;
    }
 
    // -------------------------------------------------------------------
    // search()
    // -------------------------------------------------------------------

    /** The column-choice loop of search(): walk the header ring and keep
        the first live column of least size.  `min` starts as Infinity,
        which is what `chosen == NoColumn` stands for here. */
    method ChooseColumn() returns (chosen: int)
      requires Good(lay, Now())
      ensures (chosen == NoColumn) == (live == [])
      ensures live != [] ==> exists p :: FirstMin(size, live, p, |live|) && chosen == live[p]
    {
      HeaderWalk(lay, Now());
      var min := 0;
      chosen := NoColumn;
      var tmp := right[0];
      ghost var m, p := 0, 0;
      while tmp != 0
        invariant 0 <= m <= |live| && tmp == (if m < |live| then live[m] else 0)
        invariant (chosen == NoColumn) == (m == 0)
        invariant m > 0 ==> FirstMin(size, live, p, m) && chosen == live[p] && min == size[chosen]
        decreases |live| - m
      {
        if chosen == NoColumn || size[tmp] < min {
          min := size[tmp];
          chosen := tmp;
          p := m;
        }
        tmp := right[tmp];
        m := m + 1;
      }
    }

    /** Collect the rows of column c, walking down its ring. */
    method CollectRows(c: int) returns (rows: seq<int>)
      requires Good(lay, Now()) && 1 <= c <= lay.ncols
      ensures rows == vert[c]
    {
      ghost var ring := vert[c];
      assert ColumnRing(Snap(), c, ring);
      RingWalk(Snap().vert, c, ring);
      var row := down[c];
      rows := [];
      while row != c
        invariant |rows| <= |ring| && rows == ring[..|rows|]
        invariant row == (if |rows| < |ring| then ring[|rows|] else c)
        decreases |ring| - |rows|
      {
        rows := rows + [row];
        row := down[row];
      }
    }

    /** Walking right from data node i, cover the column of each other
        node of i's row. */
    method CoverOthers(i: int)
      requires Good(lay, Now()) && lay.ncols < i < |column|
      requires ColsOf(column, Others(lay, i)) <= Elems(live)
      modifies this
      ensures lay == old(lay) && found == old(found)
      ensures Now() == CoverAll(lay, old(Now()), ColumnSeq(old(column), Others(lay, i)))
    {
      ghost var s0 := Now();
      ghost var o, cols := CoverOthersStart(lay, s0, i);
      var j := right[i];
      ghost var k := 0;
      while j != i
        invariant 0 <= k <= |o| && j == (if k < |o| then o[k] else i)
        invariant Now() == CoverAll(lay, s0, cols[..k]) && lay == old(lay) && found == old(found)
        decreases |o| - k
      {
        CoverNext(i, j, k, s0, o, cols);
        j := right[j];
        k := k + 1;
      }
    }

    /** One turn of CoverOthers' loop: cover the column of j, the k-th
        other node of i's row. */
    method CoverNext(i: int, j: int, ghost k: int, ghost s0: Snapshot, ghost o: seq<int>, ghost cols: seq<int>)
      requires Good(lay, s0) && lay.ncols < i < |s0.a.column|
      requires o == Others(lay, i) && cols == ColumnSeq(s0.a.column, o)
      requires Distinct(cols) && forall q :: 0 <= q < |cols| ==> cols[q] in s0.live
      requires 0 <= k < |o| && j == o[k]
      requires Now() == CoverAll(lay, s0, cols[..k])
      modifies this
      ensures lay == old(lay) && found == old(found)
      ensures Now() == CoverAll(lay, s0, cols[..k + 1])
      ensures 0 <= j < |right| && right[j] == (if k + 1 < |o| then o[k + 1] else i)
    {
      NextLive(lay, s0, cols, k);
      OtherLinks(lay, Now(), i);
      ghost var s := Now();
      Cover(column[j]);
      assert Now() == Next(lay, s, cols[k]);
      CoverAllSnoc(lay, s0, cols, k);
      OtherLinks(lay, Now(), i);
    }

    /** Walking left from data node i, uncover the columns CoverOthers(i)
        covered, in the opposite order. */
    method UncoverOthers(i: int, ghost s0: Snapshot)
      requires Good(lay, s0) && lay.ncols < i < |s0.a.column|
      requires var cols := ColumnSeq(s0.a.column, Others(lay, i));
        Distinct(cols) && forall q :: 0 <= q < |cols| ==> cols[q] in s0.live
      requires Now() == CoverAll(lay, s0, ColumnSeq(s0.a.column, Others(lay, i)))
      modifies this
      ensures lay == old(lay) && found == old(found)
      ensures Now() == s0
    {
      ghost var o, cols := LastOther(lay, s0, i);
      var j := left[i];
      ghost var k := |o|;
      while j != i
        invariant 0 <= k <= |o| && j == (if k > 0 then o[k - 1] else i)
        invariant Now() == CoverAll(lay, s0, cols[..k]) && lay == old(lay) && found == old(found)
        decreases k
      {
        UncoverNext(i, j, k, s0, o, cols);
        j := left[j];
        k := k - 1;
      }
    }

    /** One turn of UncoverOthers' loop: uncover the column of j, the k-th
        other node of i's row, counting from 1. */
    method UncoverNext(i: int, j: int, ghost k: int, ghost s0: Snapshot, ghost o: seq<int>, ghost cols: seq<int>)
      requires Good(lay, s0) && lay.ncols < i < |s0.a.column|
      requires o == Others(lay, i) && cols == ColumnSeq(s0.a.column, o)
      requires Distinct(cols) && forall q :: 0 <= q < |cols| ==> cols[q] in s0.live
      requires 0 < k <= |o| && j == o[k - 1]
      requires Now() == CoverAll(lay, s0, cols[..k])
      modifies this
      ensures lay == old(lay) && found == old(found)
      ensures Now() == CoverAll(lay, s0, cols[..k - 1])
      ensures 0 <= j < |left| && left[j] == (if k > 1 then o[k - 2] else i)
    {
      NextLive(lay, s0, cols, k - 1);
      ghost var p := CoverAll(lay, s0, cols[..k - 1]);
      CoverAllSnoc(lay, s0, cols, k - 1);
      NextFacts(lay, p, cols[k - 1]);
      OtherLinks(lay, p, i);
      assert column[j] == cols[k - 1];
      Uncover(column[j], p);
      OtherLinks(lay, Now(), i);
    }

    /** The row loop of search(): try the rows of c, in the shuffled order,
        until a solution is found.  s0 is the state before cover(c). */
    method TryRows(k: int, c: int, ghost s0: Snapshot, order: seq<int>,
                   solution: seq<int>, solutions: seq<seq<int>>)
      returns (sols: seq<seq<int>>)
      requires Good(lay, s0) && c in s0.live && Now() == Next(lay, s0, c)
      requires multiset(order) == multiset(s0.vert[c])
      requires PartialCover(column, lay, solution, s0.live) && DataNodes(lay, |column|, solution)
      modifies this
      decreases |live| + 1, 1
      ensures lay == old(lay) && Now() == old(Now())
      ensures |solutions| <= |sols| <= |solutions| + 1 && sols[..|solutions|] == solutions
      ensures found == (old(found) || |sols| > |solutions|)
      ensures |sols| > |solutions| ==> ExactCover(column, lay, sols[|solutions|]) && solution <= sols[|solutions|]
      ensures |sols| > |solutions| ==> DataNodes(lay, |column|, sols[|solutions|])
      ensures old(found) ==> sols == solutions
    {
      sols := solutions;
      var i := 0;
      while i < |order| && !found
        invariant 0 <= i <= |order|
        invariant Now() == old(Now()) && lay == old(lay)
        invariant |solutions| <= |sols| <= |solutions| + 1 && sols[..|solutions|] == solutions
        invariant found == (old(found) || |sols| > |solutions|)
        invariant |sols| > |solutions| ==> ExactCover(column, lay, sols[|solutions|]) && solution <= sols[|solutions|]
        invariant |sols| > |solutions| ==> DataNodes(lay, |column|, sols[|solutions|])
        invariant old(found) ==> sols == solutions
        invariant !found ==> sols == solutions
        decreases |order| - i
      {
        var row := order[i];
        assert row in s0.vert[c] by {
          assert row in multiset(order);
        }
        sols := TryRow(k, row, c, s0, solution, solutions);
        i := i + 1;
      }
    }

    /** One turn of search()'s row loop: choose row, cover the columns of
        the rest of its row, search deeper with row in the solution, and
        backtrack.  s0 is the state before cover(c). */
    method TryRow(k: int, row: int, c: int, ghost s0: Snapshot, solution: seq<int>, solutions: seq<seq<int>>)
      returns (sols: seq<seq<int>>)
      requires Good(lay, s0) && c in s0.live && row in s0.vert[c]
      requires Now() == Next(lay, s0, c) && !found
      requires PartialCover(column, lay, solution, s0.live) && DataNodes(lay, |column|, solution)
      modifies this
      decreases |live| + 1, 0
      ensures lay == old(lay) && Now() == old(Now())
      ensures |solutions| <= |sols| <= |solutions| + 1 && sols[..|solutions|] == solutions
      ensures found == (|sols| > |solutions|)
      ensures |sols| > |solutions| ==> ExactCover(column, lay, sols[|solutions|]) && solution + [row] <= sols[|solutions|]
      ensures |sols| > |solutions| ==> DataNodes(lay, |column|, sols[|solutions|])
    {
      ghost var s1, cols := DescendReady(lay, s0, c, row, column, solution);
      CoverOthers(row);
      sols := Search(k + 1, solution + [row], solutions);
      UncoverOthers(row, s1);
    }

    /** search(): Algorithm X.  A pushed solution is an exact cover that
        extends the rows chosen so far; at most one is pushed, and once
        `found` is set nothing more is; the links, the sizes and the ring
        abstraction are as they were when the call returns. */
    method Search(k: int, solution: seq<int>, solutions: seq<seq<int>>) returns (sols: seq<seq<int>>)
      requires Good(lay, Now()) && PartialCover(column, lay, solution, live)
      requires DataNodes(lay, |column|, solution)
      modifies this
      decreases |live|, 2
      ensures Now() == old(Now()) && lay == old(lay)
      ensures |solutions| <= |sols| <= |solutions| + 1 && sols[..|solutions|] == solutions
      ensures found == (old(found) || |sols| > |solutions|)
      ensures |sols| > |solutions| ==> ExactCover(column, lay, sols[|solutions|]) && solution <= sols[|solutions|]
      ensures |sols| > |solutions| ==> DataNodes(lay, |column|, sols[|solutions|])
      ensures old(found) && old(live) != [] ==> sols == solutions
    {
      sols := solutions;
      // performance.now() - startTime > maxTimeMs: the clock is not modelled
      var timedOut: bool :| true;
      if timedOut {
        return;
      }
      HeaderWalk(lay, Now());
      if right[0] == 0 {
        PartialDone(column, lay, solution);
        sols := solutions + [solution];
        assert sols[..|solutions|] == solutions;
        found := true;
        return;
      }
      var c := ChooseColumn();
      if c == NoColumn || size[c] == 0 {
        return;
      }
      ghost var s0 := Now();
      KeepShorter(live, {c}, c);
      Cover(c);
      var rows := CollectRows(c);
      var order := Shuffling.Shuffled(rows);
      sols := TryRows(k, c, s0, order, solution, solutions);
      Uncover(c, s0);
    }
  }

  /** Choosing row, a node of c's ring, once c is covered (state s1):
      the columns of row's other nodes are distinct and live, and covering
      them leaves a valid state in which solution + [row] covers exactly
      the columns that are no longer live. */
  lemma DescendReady(lay: Layout, s0: Snapshot, c: int, row: int, column: seq<int>, solution: seq<int>)
    returns (s1: Snapshot, cols: seq<int>)
    requires Good(lay, s0) && c in s0.live && row in s0.vert[c] && column == Next(lay, s0, c).a.column
    requires PartialCover(column, lay, solution, s0.live) && DataNodes(lay, |column|, solution)
    ensures s1 == Next(lay, s0, c) && cols == ColumnSeq(column, Others(lay, row))
    ensures Good(lay, s1) && lay.ncols < row < |column|
    ensures ColsOf(column, Others(lay, row)) <= Elems(s1.live)
    ensures Distinct(cols) && forall q :: 0 <= q < |cols| ==> cols[q] in s1.live
    ensures var s2 := CoverAll(lay, s1, cols);
      && Good(lay, s2) && s2.a.column == column && |s2.live| <= |s1.live|
      && PartialCover(column, lay, solution + [row], s2.live)
      && DataNodes(lay, |column|, solution + [row])
  {
    var L0 := s0.live;
    var o := Others(lay, row);
    var m :| 0 <= m < |s0.vert[c]| && s0.vert[c][m] == row;
    s1 := Next(lay, s0, c);
    NextFacts(lay, s0, c);
    RowOfColumn(s0.a, lay, L0, s0.vert, c, m);
    assert 1 <= c <= lay.ncols && ColumnRing(s0.a, c, s0.vert[c]);
    assert column[row] == c;
    RowLive(s0.a, lay, L0, s0.vert, c, row);
    RowColsSplit(s0.a, lay, row);
    OthersFacts(s0.a, lay, row);
    assert c !in ColsOf(column, o);
    LiveAfterCover(L0, c, RowCols(column, lay, row), ColsOf(column, o));
    OthersColumnsLive(lay, s1, row);
    cols := ColumnSeq(s1.a.column, o);
    CoverAllGood(lay, s1, cols);
    KeepKeep(L0, {c}, ColsOf(column, o));
    LiveColumns(lay, s0);
    PartialExtend(column, lay, solution, L0, row);
    DataNodesSnoc(lay, |column|, solution, row);
  }

  /** The columns of a row other than c are still live once c is covered. */
  lemma LiveAfterCover(live: seq<int>, c: int, rc: set<int>, oc: set<int>)
    requires rc <= Elems(live) && rc == {c} + oc && c !in oc
    ensures oc <= Elems(Keep(live, {c}))
  {
    forall x | x in oc ensures x in Elems(Keep(live, {c})) {
      assert x in live && x != c;
    }
  }

  lemma FoundSnoc(m: map<Name, int>, ns: seq<Name>, n: Name)
    ensures Found(m, ns + [n]) == Found(m, ns) + (if n in m then [m[n]] else [])
  {
    assert (ns + [n])[..|ns|] == ns;
  }

  /** The lookups find exactly the columns of the names that have one. */
  lemma {:induction false} FoundMembers(m: map<Name, int>, ns: seq<Name>)
    ensures forall x :: x in Found(m, ns) <==> exists j :: 0 <= j < |ns| && ns[j] in m && m[ns[j]] == x
  {
    if ns != [] {
      var pre, n := ns[..|ns| - 1], ns[|ns| - 1];
      FoundMembers(m, pre);
      assert pre + [n] == ns;
      FoundSnoc(m, pre, n);
      forall x | x in Found(m, ns) ensures exists j :: 0 <= j < |ns| && ns[j] in m && m[ns[j]] == x {
        if x in Found(m, pre) {
          var j :| 0 <= j < |pre| && pre[j] in m && m[pre[j]] == x;
          assert ns[j] == pre[j];
        } else {
          assert ns[|ns| - 1] in m && m[ns[|ns| - 1]] == x;
        }
      }
      forall x | exists j :: 0 <= j < |ns| && ns[j] in m && m[ns[j]] == x ensures x in Found(m, ns) {
        var j :| 0 <= j < |ns| && ns[j] in m && m[ns[j]] == x;
        if j < |pre| {
          assert pre[j] == ns[j];
        }
      }
    }
  }

  /** The name whose lookup gave x. */
  lemma FoundWitness(m: map<Name, int>, ns: seq<Name>, x: int) returns (j: int)
    requires x in Found(m, ns)
    ensures 0 <= j < |ns| && ns[j] in m && m[ns[j]] == x
  {
    FoundMembers(m, ns);
    j :| 0 <= j < |ns| && ns[j] in m && m[ns[j]] == x;
  }

  /** The lookups of distinct names give distinct live column nodes. */
  lemma {:induction false} FoundFacts(m: map<Name, int>, live: seq<int>, ns: seq<Name>)
    requires Indexed(m, live) && NoDuplicates(ns)
    ensures Distinct(Found(m, ns))
    ensures forall k :: 0 <= k < |Found(m, ns)| ==> Found(m, ns)[k] in live
  {
    if ns != [] {
      var pre, n := ns[..|ns| - 1], ns[|ns| - 1];
      FoundFacts(m, live, pre);
      assert pre + [n] == ns;
      FoundSnoc(m, pre, n);
      FoundMembers(m, pre);
      var f := Found(m, pre);
      if n in m {
        forall k | 0 <= k < |f| ensures f[k] != m[n] {
          var j := FoundWitness(m, pre, f[k]);
          assert ns[j] == pre[j] != n;
        }
      }
    }
  }

  /** A good state has one entry per node in every field, and its live
      columns are column nodes. */
  lemma GoodSized(lay: Layout, s: Snapshot)
    requires Good(lay, s)
    ensures Sized(s.a) && forall c :: c in s.live ==> 1 <= c <= lay.ncols < |s.a.column|
  {
    ValidSized(s.a, lay, s.live, s.vert);
    forall c | c in s.live ensures 1 <= c <= lay.ncols < |s.a.column| {
      LiveColumn(s.a, lay, s.live, s.vert, c);
    }
  }

  /** Adding a row over distinct live columns keeps the state good. */
  lemma GoodAddRow(lay: Layout, s: Snapshot, cs: seq<int>)
    requires Good(lay, s) && Distinct(cs) && forall k :: 0 <= k < |cs| ==> cs[k] in s.live
    ensures var b := |s.a.column|;
      Good(AddLayout(lay, b, |cs|), Snapshot(AddRow(s.a, cs), s.live, AddVert(s.vert, cs, b)))
  {
    AddRowValid(s.a, lay, s.live, s.vert, cs);
  }

  lemma DataNodesSnoc(lay: Layout, n: int, sol: seq<int>, x: int)
    requires DataNodes(lay, n, sol) && lay.ncols < x < n
    ensures DataNodes(lay, n, sol + [x])
  {
  }

  /** The keys of the column map are the names; its values are column
      nodes; with distinct names, names[k] maps to node k + 1. */
  lemma NameMapFacts(names: seq<Name>)
    ensures forall n :: n in NameMap(names) <==> n in names
    ensures forall n :: n in NameMap(names) ==> 1 <= NameMap(names)[n] <= |names|
    ensures NoDuplicates(names) ==> forall k :: 0 <= k < |names| ==> NameMap(names)[names[k]] == k + 1
  {
    NameMapKeys(names);
    NameMapValues(names);
    if NoDuplicates(names) {
      NameMapAt(names);
    }
  }

  lemma {:induction false} NameMapKeys(names: seq<Name>)
    ensures forall n :: n in NameMap(names) <==> n in names
  {
    if names != [] {
      var pre, n := names[..|names| - 1], names[|names| - 1];
      NameMapKeys(pre);
      assert pre + [n] == names;
    }
  }

  lemma {:induction false} NameMapValues(names: seq<Name>)
    ensures forall n :: n in NameMap(names) ==> 1 <= NameMap(names)[n] <= |names|
  {
    if names != [] {
      NameMapValues(names[..|names| - 1]);
    }
  }

  lemma {:induction false} NameMapAt(names: seq<Name>)
    requires NoDuplicates(names)
    ensures forall k :: 0 <= k < |names| ==> names[k] in NameMap(names) && NameMap(names)[names[k]] == k + 1
  {
    if names != [] {
      var pre, n := names[..|names| - 1], names[|names| - 1];
      assert NoDuplicates(pre) by {
        forall k, k' | 0 <= k < k' < |pre| ensures pre[k] != pre[k'] {
          assert pre[k] == names[k] && pre[k'] == names[k'];
        }
      }
      NameMapAt(pre);
      forall k | 0 <= k < |pre| ensures names[k] in NameMap(names) && NameMap(names)[names[k]] == k + 1 {
        assert names[k] == pre[k] && pre[k] != n;
      }
    }
  }

  /** With distinct names the column map is a bijection onto the column
      nodes 1..|names|, which the constructor puts in the header ring. */
  lemma NameMapIndexed(names: seq<Name>)
    requires NoDuplicates(names)
    ensures Indexed(NameMap(names), Range(1, |names| + 1))
  {
    var m, live := NameMap(names), Range(1, |names| + 1);
    NameMapFacts(names);
    forall n | n in m ensures m[n] in live {
      assert live[m[n] - 1] == m[n];
    }
    forall n, n' | n in m && n' in m && n != n' ensures m[n] != m[n'] {
      var k :| 0 <= k < |names| && names[k] == n;
      var k' :| 0 <= k' < |names| && names[k'] == n';
    }
  }

  /** When every name has a column, the lookups find one node per name. */
  lemma {:induction false} FoundAll(m: map<Name, int>, ns: seq<Name>)
    requires forall k :: 0 <= k < |ns| ==> ns[k] in m
    ensures |Found(m, ns)| == |ns| && forall k :: 0 <= k < |ns| ==> Found(m, ns)[k] == m[ns[k]]
  {
    if ns != [] {
      var pre, n := ns[..|ns| - 1], ns[|ns| - 1];
      FoundAll(m, pre);
      assert pre + [n] == ns;
      FoundSnoc(m, pre, n);
    }
  }
}
