/** Building the matrix, as values: the header ring the DancingLinks
    constructor makes, and the row insertion of startSolving, which appends
    one new data node at the bottom of each column the row occupies and then
    links the new nodes into a horizontal ring.  Both leave a valid matrix
    whose header ring holds every column. */
module Building {
  import opened Links
  import opened Matrix

  /** The integers lo..hi-1 in order. */
  function Range(lo: int, hi: int): (r: seq<int>)
    ensures |r| == if hi > lo then hi - lo else 0
    ensures forall k :: 0 <= k < |r| ==> r[k] == lo + k
    decreases hi - lo
  {
    if lo >= hi then [] else [lo] + Range(lo + 1, hi)
  }

  // ---------------------------------------------------------------------
  // The constructor
  // ---------------------------------------------------------------------

  /** The matrix right after the constructor for n columns: the header and
      the column nodes 1..n in one horizontal ring, in order, every vertical
      link pointing at its own node and every size 0. */
  function Initial(n: nat): Arena {
    Arena(Links(seq(n + 1, i => if i < n then i + 1 else 0), seq(n + 1, i => if i == 0 then n else i - 1)),
          Links(seq(n + 1, i => i), seq(n + 1, i => i)),
          seq(n + 1, i => if i == 0 then NoColumn else i),
          seq(n + 1, i => 0))
  }

  /** No rows yet: there are no data nodes for rowOf and posOf to describe. */
  function EmptyLayout(n: nat): Layout {
    Layout(n, [], seq(n + 1, i => 0), seq(n + 1, i => 0))
  }

  function NoRings(n: nat): seq<seq<int>> {
    seq(n + 1, i => [])
  }

  lemma InitialHeader(n: nat)
    ensures Cycle(Initial(n).horiz, [0] + Range(1, n + 1))
  {
    var ys := [0] + Range(1, n + 1);
    assert forall k :: 0 <= k < |ys| ==> ys[k] == k;
  }

  lemma InitialColumn(n: nat, c: int)
    requires 1 <= c <= n
    ensures ColumnRing(Initial(n), c, [])
  {
    assert [c] + [] == [c];
  }

  /** The constructor leaves a valid matrix with every column in the header
      ring and every column empty. */
  lemma InitialValid(n: nat)
    ensures Valid(Initial(n), EmptyLayout(n), Range(1, n + 1), NoRings(n))
  {
    InitialHeader(n);
    forall c | 1 <= c <= n ensures ColumnRing(Initial(n), c, NoRings(n)[c]) {
      InitialColumn(n, c);
    }
  }

  // ---------------------------------------------------------------------
  // Row insertion
  // ---------------------------------------------------------------------

  /** new DataNode(col): a new last node whose four links point at itself. */
  function NewNode(a: Arena, c: int): Arena {
    var x := |a.column|;
    Arena(Links(a.horiz.next + [x], a.horiz.prev + [x]), Links(a.vert.next + [x], a.vert.prev + [x]),
          a.column + [c], a.size + [0])
  }

  /** The four lengths agree and the vertical links stay inside the arena. */
  predicate Sized(a: Arena) {
    && |a.horiz.next| == |a.column| && |a.horiz.prev| == |a.column|
    && |a.vert.next| == |a.column| && |a.size| == |a.column|
    && InRange(a.vert)
  }

  /** A new node x for column c, put at the bottom of c's ring, in the order
      the source assigns: x.up := c.up; x.down := c; c.up.down := x;
      c.up := x; c.size++. */
  function AppendToColumn(a: Arena, c: int): Arena {
    var x := |a.column|;
    var b := NewNode(a, c);
    if Sized(a) && 0 <= c < |a.column| then
      var u := a.vert.prev[c];
      b.(vert := Links(b.vert.next[x := c][u := x], b.vert.prev[x := u][c := x]), size := b.size[c := b.size[c] + 1])
    else b
  }

  /** The vertical phase of inserting a row occupying columns cs. */
  function AppendAll(a: Arena, cs: seq<int>): Arena {
    if cs == [] then a else AppendToColumn(AppendAll(a, cs[..|cs| - 1]), cs[|cs| - 1])
  }

  /** node.left := nodesInRow[i-1] or the last; node.right :=
      nodesInRow[i+1] or the first; for node i of a row of m nodes numbered
      b..b+m-1. */
  function LinkNode(h: Links, b: int, m: int, i: int): Links {
    if 0 <= b + i < |h.next| && |h.prev| == |h.next| then
      Links(h.next[b + i := b + NextIdx(i, m)], h.prev[b + i := b + PrevIdx(i, m)])
    else h
  }

  /** The horizontal phase, for the first k nodes of the row. */
  function LinkRow(h: Links, b: int, m: int, k: nat): Links {
    if k == 0 then h else LinkNode(LinkRow(h, b, m, k - 1), b, m, k - 1)
  }

  /** Inserting a row occupying columns cs, in this order. */
  function AddRow(a: Arena, cs: seq<int>): Arena {
    var a1 := AppendAll(a, cs);
    a1.(horiz := LinkRow(a1.horiz, |a.column|, |cs|, |cs|))
  }

  /** The ghost side of inserting a row: its new nodes b..b+m-1 form the
      next row (when there is any), and each joins its column's ring. */
  function AddLayout(lay: Layout, b: int, m: nat): Layout {
    if m == 0 then lay
    else Layout(lay.ncols, lay.rows + [Range(b, b + m)], lay.rowOf + seq(m, p => |lay.rows|), lay.posOf + Range(0, m))
  }

  function AddVert(vert: seq<seq<int>>, cs: seq<int>, b: int): (r: seq<seq<int>>)
    ensures |r| == |vert|
  {
    if cs == [] then vert
    else
      var v := AddVert(vert, cs[..|cs| - 1], b);
      var c := cs[|cs| - 1];
      if 0 <= c < |v| then v[c := v[c] + [b + |cs| - 1]] else v
  }

  // ---------------------------------------------------------------------
  // The vertical phase
  // ---------------------------------------------------------------------

  lemma AppendSized(a: Arena, c: int)
    requires Sized(a) && 0 <= c < |a.column|
    ensures Sized(AppendToColumn(a, c)) && |AppendToColumn(a, c).column| == |a.column| + 1
  {
  }

  lemma AppendAllSnoc(a: Arena, cs: seq<int>, c: int)
    ensures AppendAll(a, cs + [c]) == AppendToColumn(AppendAll(a, cs), c)
  {
    assert (cs + [c])[..|cs|] == cs;
  }

  lemma AddVertSnoc(vert: seq<seq<int>>, cs: seq<int>, c: int, b: int)
    requires 0 <= c < |vert|
    ensures AddVert(vert, cs + [c], b) == AddVert(vert, cs, b)[c := AddVert(vert, cs, b)[c] + [b + |cs|]]
  {
    assert (cs + [c])[..|cs|] == cs;
  }

  /** After appending to columns cs: each column's ring is its old ring
      followed by its new node, if it got one. */
  lemma {:induction false} AddVertOf(vert: seq<seq<int>>, cs: seq<int>, b: int, c: int)
    requires Distinct(cs) && 0 <= c < |vert|
    ensures c !in cs ==> AddVert(vert, cs, b)[c] == vert[c]
    ensures forall p :: 0 <= p < |cs| && cs[p] == c ==> AddVert(vert, cs, b)[c] == vert[c] + [b + p]
  {
    if cs != [] {
      var pre := cs[..|cs| - 1];
      forall k, k' | 0 <= k < k' < |pre| ensures pre[k] != pre[k'] {
        assert pre[k] == cs[k] && pre[k'] == cs[k'];
      }
      AddVertOf(vert, pre, b, c);
      forall p | 0 <= p < |pre| ensures pre[p] == cs[p] {
      }
    }
  }

  /** What holds while the new nodes of a row are appended to columns cs,
      before the horizontal links: the horizontal fields of the new nodes
      still point at themselves. */
  ghost predicate Appending(a0: Arena, ncols: nat, vert: seq<seq<int>>, cs: seq<int>, a: Arena) {
    var b := |a0.column|;
    && Sized(a)
    && a.column == a0.column + cs
    && a.horiz == Links(a0.horiz.next + Range(b, b + |cs|), a0.horiz.prev + Range(b, b + |cs|))
    && ColumnClosed(a)
    && VertRings(a, ncols, AddVert(vert, cs, b))
  }

  lemma AppendingStart(a0: Arena, lay: Layout, live: seq<int>, vert: seq<seq<int>>)
    requires Valid(a0, lay, live, vert)
    ensures Appending(a0, lay.ncols, vert, [], a0)
  {
    var b := |a0.column|;
    assert a0.column + [] == a0.column;
    assert a0.horiz.next + Range(b, b) == a0.horiz.next;
    assert a0.horiz.prev + Range(b, b) == a0.horiz.prev;
  }

  /** A ring ys with a new node x spliced in after its last node. */
  lemma CycleSnoc(lk: Links, lk': Links, ys: seq<int>, x: int, zs: seq<int>)
    requires zs == ys + [x]
    requires Cycle(lk, ys) && |lk.next| <= x < |lk'.next| && |lk'.prev| == |lk'.next|
    requires lk'.next[ys[|ys| - 1]] == x && lk'.next[x] == ys[0]
    requires lk'.prev[ys[0]] == x && lk'.prev[x] == ys[|ys| - 1]
    requires forall k :: 0 <= k < |ys| - 1 ==> lk'.next[ys[k]] == lk.next[ys[k]]
    requires forall k :: 0 < k < |ys| ==> lk'.prev[ys[k]] == lk.prev[ys[k]]
    ensures Cycle(lk', zs)
  {
    SnocNext(lk, lk', ys, x, zs);
    SnocPrev(lk, lk', ys, x, zs);
    SnocDistinct(lk, ys, x, zs);
  }

  lemma SnocNext(lk: Links, lk': Links, ys: seq<int>, x: int, zs: seq<int>)
    requires zs == ys + [x]
    requires Cycle(lk, ys) && |lk.next| <= x < |lk'.next|
    requires lk'.next[ys[|ys| - 1]] == x && lk'.next[x] == ys[0]
    requires forall k :: 0 <= k < |ys| - 1 ==> lk'.next[ys[k]] == lk.next[ys[k]]
    ensures forall k :: 0 <= k < |zs| ==> 0 <= zs[k] < |lk'.next|
    ensures forall k {:trigger lk'.next[zs[k]]} :: 0 <= k < |zs| ==> lk'.next[zs[k]] == zs[NextIdx(k, |zs|)]
  {
    forall k | 0 <= k < |zs| ensures 0 <= zs[k] < |lk'.next| && lk'.next[zs[k]] == zs[NextIdx(k, |zs|)] {
      if k < |ys| - 1 {
        assert zs[k] == ys[k] && lk.next[ys[k]] == ys[NextIdx(k, |ys|)];
      } else if k == |ys| - 1 {
        assert zs[k] == ys[k];
      }
    }
  }

  lemma SnocPrev(lk: Links, lk': Links, ys: seq<int>, x: int, zs: seq<int>)
    requires zs == ys + [x]
    requires Cycle(lk, ys) && |lk.next| <= x < |lk'.next| && |lk'.prev| == |lk'.next|
    requires lk'.prev[ys[0]] == x && lk'.prev[x] == ys[|ys| - 1]
    requires forall k :: 0 < k < |ys| ==> lk'.prev[ys[k]] == lk.prev[ys[k]]
    ensures forall k {:trigger lk'.prev[zs[k]]} :: 0 <= k < |zs| ==> lk'.prev[zs[k]] == zs[PrevIdx(k, |zs|)]
  {
    forall k | 0 <= k < |zs| ensures lk'.prev[zs[k]] == zs[PrevIdx(k, |zs|)] {
      if k == 0 {
        assert zs[0] == ys[0] && zs[|ys|] == x;
      } else if k < |ys| {
        assert zs[k] == ys[k] && zs[k - 1] == ys[k - 1];
        assert lk.prev[ys[k]] == ys[PrevIdx(k, |ys|)];
      } else {
        assert zs[k] == x && zs[k - 1] == ys[|ys| - 1];
      }
    }
  }

  lemma SnocDistinct(lk: Links, ys: seq<int>, x: int, zs: seq<int>)
    requires zs == ys + [x]
    requires Cycle(lk, ys) && |lk.next| <= x
    ensures Distinct(zs)
  {
    forall k, k' | 0 <= k < k' < |zs| ensures zs[k] != zs[k'] {
      assert zs[k] == ys[k];
      if k' < |ys| {
        assert zs[k'] == ys[k'];
      }
    }
  }

  /** The vertical links after a node is appended to column c. */
  lemma AppendLinks(a: Arena, c: int)
    requires Sized(a) && 0 <= c < |a.column|
    ensures var t, x, u := AppendToColumn(a, c), |a.column|, a.vert.prev[c];
      && |t.vert.next| == x + 1 && |t.vert.prev| == x + 1
      && t.vert.next[u] == x && t.vert.next[x] == c && t.vert.prev[c] == x && t.vert.prev[x] == u
      && (forall y :: 0 <= y < x && y != u ==> t.vert.next[y] == a.vert.next[y])
      && (forall y :: 0 <= y < x && y != c ==> t.vert.prev[y] == a.vert.prev[y])
      && t.column == a.column + [c]
      && t.size == (a.size + [0])[c := a.size[c] + 1]
  {
  }

  /** Column c's ring after a node x is appended to it. */
  lemma AppendOwnRing(a: Arena, c: int, xs: seq<int>)
    requires Sized(a) && 1 <= c < |a.column| && a.column[c] == c
    requires ColumnRing(a, c, xs)
    ensures ColumnRing(AppendToColumn(a, c), c, xs + [|a.column|])
  {
    AppendOwnCycle(a, c, xs);
    AppendOwnColumn(a, c, xs);
  }

  /** The appended node closes column c's ring after its last node. */
  lemma AppendOwnCycle(a: Arena, c: int, xs: seq<int>)
    requires Sized(a) && 0 <= c < |a.column|
    requires Cycle(a.vert, [c] + xs)
    ensures Cycle(AppendToColumn(a, c).vert, [c] + (xs + [|a.column|]))
  {
    var t, x := AppendToColumn(a, c), |a.column|;
    var ys := [c] + xs;
    AppendLinks(a, c);
    assert a.vert.prev[ys[0]] == ys[PrevIdx(0, |ys|)];
    var u := ys[|ys| - 1];
    forall k | 0 <= k < |ys| - 1 ensures t.vert.next[ys[k]] == a.vert.next[ys[k]] {
      assert ys[k] != u;
    }
    forall k | 0 < k < |ys| ensures t.vert.prev[ys[k]] == a.vert.prev[ys[k]] {
      assert ys[k] != ys[0];
    }
    ConsSnoc(c, xs, x);
    CycleSnoc(a.vert, t.vert, ys, x, [c] + (xs + [x]));
  }

  lemma ConsSnoc(c: int, xs: seq<int>, x: int)
    ensures [c] + (xs + [x]) == ([c] + xs) + [x]
  {
  }

  /** The appended node belongs to column c. */
  lemma AppendOwnColumn(a: Arena, c: int, xs: seq<int>)
    requires Sized(a) && 0 <= c < |a.column|
    requires forall k :: 0 <= k < |xs| ==> 0 <= xs[k] < |a.column| && a.column[xs[k]] == c
    ensures var t, zs := AppendToColumn(a, c), xs + [|a.column|];
      forall k :: 0 <= k < |zs| ==> 0 <= zs[k] < |t.column| && t.column[zs[k]] == c
  {
    var t, zs := AppendToColumn(a, c), xs + [|a.column|];
    AppendLinks(a, c);
    forall k | 0 <= k < |zs| ensures 0 <= zs[k] < |t.column| && t.column[zs[k]] == c {
      if k < |xs| {
        assert zs[k] == xs[k];
      }
    }
  }

  /** Another column's ring is untouched by an append to column c. */
  lemma AppendOtherRing(a: Arena, c: int, cc: int, xs: seq<int>)
    requires Sized(a) && ColumnClosed(a) && 1 <= c < |a.column| && a.column[c] == c
    requires 1 <= cc < |a.column| && cc != c && a.column[cc] == cc
    requires ColumnRing(a, cc, xs)
    ensures ColumnRing(AppendToColumn(a, c), cc, xs)
  {
    var t, x, u := AppendToColumn(a, c), |a.column|, a.vert.prev[c];
    var ys := [cc] + xs;
    AppendLinks(a, c);
    assert a.column[u] == c;
    forall k | 0 <= k < |ys| ensures ys[k] != u && ys[k] != c && ys[k] < x {
      if k > 0 {
        assert ys[k] == xs[k - 1];
      }
    }
    CycleFrame(a.vert, t.vert, ys);
  }

  /** One append keeps the appending invariant. */
  lemma AppendingStep(a0: Arena, lay: Layout, vert: seq<seq<int>>, cs: seq<int>, a: Arena, c: int, cs': seq<int>)
    requires Shaped(a0, lay) && Appending(a0, lay.ncols, vert, cs, a)
    requires 1 <= c <= lay.ncols && c !in cs && cs' == cs + [c]
    ensures Appending(a0, lay.ncols, vert, cs', AppendToColumn(a, c))
  {
    var b := |a0.column|;
    var v, v' := AddVert(vert, cs, b), AddVert(vert, cs', b);
    assert a.column[c] == c by {
      assert a0.column[c] == c;
    }
    AddVertSnoc(vert, cs, c, b);
    AppendSized(a, c);
    RangeSnoc(b, b + |cs|);
    AppendHoriz(a0, cs, a, c, cs', Range(b, b + |cs|), Range(b, b + |cs'|));
    AppendRings(a, lay.ncols, v, v', c);
    AppendClosed(a, c);
  }

  /** The appended node's horizontal links point to itself, as the row's
      new nodes all do until they are linked: the identity part r of the
      links grows by the new node's index. */
  lemma AppendHoriz(a0: Arena, cs: seq<int>, a: Arena, c: int, cs': seq<int>, r: seq<int>, r': seq<int>)
    requires cs' == cs + [c] && a.column == a0.column + cs
    requires a.horiz == Links(a0.horiz.next + r, a0.horiz.prev + r) && r' == r + [|a.column|]
    ensures var t := AppendToColumn(a, c);
      t.column == a0.column + cs' && t.horiz == Links(a0.horiz.next + r', a0.horiz.prev + r')
  {
    AppendNew(a, c);
    LinksSnoc(a.horiz, a0.horiz.next, a0.horiz.prev, r, |a.column|, r');
    ConcatSnoc(a0.column, cs, c);
  }

  /** The new node's horizontal links and column. */
  lemma AppendNew(a: Arena, c: int)
    ensures var t, x := AppendToColumn(a, c), |a.column|;
      t.horiz == Links(a.horiz.next + [x], a.horiz.prev + [x]) && t.column == a.column + [c]
  {
  }

  lemma LinksSnoc(h: Links, next0: seq<int>, prev0: seq<int>, r: seq<int>, x: int, r': seq<int>)
    requires h == Links(next0 + r, prev0 + r) && r' == r + [x]
    ensures Links(h.next + [x], h.prev + [x]) == Links(next0 + r', prev0 + r')
  {
    ConcatSnoc(next0, r, x);
    ConcatSnoc(prev0, r, x);
  }

  lemma ConcatSnoc(xs: seq<int>, ys: seq<int>, z: int)
    ensures (xs + ys) + [z] == xs + (ys + [z])
  {
  }

  lemma RangeSnoc(lo: int, hi: int)
    requires lo <= hi
    ensures Range(lo, hi + 1) == Range(lo, hi) + [hi]
  {
  }

  /** Appending to column c extends c's ring and keeps the others. */
  lemma AppendRings(a: Arena, ncols: nat, v: seq<seq<int>>, v': seq<seq<int>>, c: int)
    requires Sized(a) && ColumnClosed(a) && 1 <= c <= ncols < |a.column|
    requires forall cc :: 1 <= cc <= ncols ==> a.column[cc] == cc
    requires VertRings(a, ncols, v) && |v'| == |v| && v'[0] == []
    requires v'[c] == v[c] + [|a.column|]
    requires forall cc :: 0 <= cc < |v| && cc != c ==> v'[cc] == v[cc]
    ensures VertRings(AppendToColumn(a, c), ncols, v')
  {
    var t := AppendToColumn(a, c);
    forall cc | 1 <= cc <= ncols ensures ColumnRing(t, cc, v'[cc]) {
      if cc == c {
        AppendOwnRing(a, c, v[c]);
      } else {
        AppendOtherRing(a, c, cc, v[cc]);
      }
    }
  }

  /** An appended node's vertical neighbours are in its own column. */
  lemma AppendClosed(a: Arena, c: int)
    requires Sized(a) && ColumnClosed(a) && 1 <= c < |a.column| && a.column[c] == c
    ensures ColumnClosed(AppendToColumn(a, c))
  {
    var t := AppendToColumn(a, c);
    AppendLinks(a, c);
    assert a.column[a.vert.prev[c]] == c;
    forall y | 1 <= y < |t.column| ensures t.column[t.vert.next[y]] == t.column[y] && t.column[t.vert.prev[y]] == t.column[y] {
    }
  }

  // ---------------------------------------------------------------------
  // The whole row
  // ---------------------------------------------------------------------

  lemma DistinctPrefix(cs: seq<int>)
    requires Distinct(cs) && |cs| >= 1
    ensures Distinct(cs[..|cs| - 1]) && cs[|cs| - 1] !in cs[..|cs| - 1]
  {
    var pre := cs[..|cs| - 1];
    forall k, k' | 0 <= k < k' < |pre| ensures pre[k] != pre[k'] {
      assert pre[k] == cs[k] && pre[k'] == cs[k'];
    }
    forall k | 0 <= k < |pre| ensures pre[k] != cs[|cs| - 1] {
      assert pre[k] == cs[k];
    }
  }

  /** The vertical phase appends one node to each column of the row. */
  lemma AppendAllFacts(a0: Arena, lay: Layout, live: seq<int>, vert: seq<seq<int>>, cs: seq<int>)
    requires Valid(a0, lay, live, vert) && Distinct(cs)
    requires forall k :: 0 <= k < |cs| ==> 1 <= cs[k] <= lay.ncols
    ensures Appending(a0, lay.ncols, vert, cs, AppendAll(a0, cs))
  {
    AppendingStart(a0, lay, live, vert);
    AppendAllSteps(a0, lay, vert, cs);
  }

  lemma {:induction false} AppendAllSteps(a0: Arena, lay: Layout, vert: seq<seq<int>>, cs: seq<int>)
    requires Shaped(a0, lay) && Appending(a0, lay.ncols, vert, [], a0) && Distinct(cs)
    requires forall k :: 0 <= k < |cs| ==> 1 <= cs[k] <= lay.ncols
    ensures Appending(a0, lay.ncols, vert, cs, AppendAll(a0, cs))
    decreases |cs|
  {
    if cs != [] {
      var pre, c := cs[..|cs| - 1], cs[|cs| - 1];
      DistinctPrefix(cs);
      AppendAllSteps(a0, lay, vert, pre);
      SliceEnds(cs);
      SnocSlice(cs, |cs| - 1);
      AppendingStep(a0, lay, vert, pre, AppendAll(a0, pre), c, cs);
    }
  }

  /** The horizontal phase sets the links of nodes b..b+k-1 and no other. */
  lemma {:induction false} LinkRowFacts(h: Links, b: int, m: int, k: nat)
    requires |h.prev| == |h.next| && 0 <= b && b + k <= |h.next|
    ensures var g := LinkRow(h, b, m, k);
      && |g.next| == |h.next| && |g.prev| == |h.next|
      && (forall y :: 0 <= y < |h.next| && !(b <= y < b + k) ==> g.next[y] == h.next[y] && g.prev[y] == h.prev[y])
      && (forall y :: b <= y < b + k ==> g.next[y] == b + NextIdx(y - b, m) && g.prev[y] == b + PrevIdx(y - b, m))
  {
    if k > 0 {
      LinkRowFacts(h, b, m, k - 1);
    }
  }

  /** The links and columns after a row of nodes b..b+m-1 for columns cs
      was added to a0. */
  ghost predicate RowAdded(a0: Arena, cs: seq<int>, a: Arena) {
    var b, m := |a0.column|, |cs|;
    && a.column == a0.column + cs
    && |a0.horiz.next| == b && |a0.horiz.prev| == b
    && |a.horiz.next| == b + m && |a.horiz.prev| == b + m
    && (forall y :: 0 <= y < b ==> a.horiz.next[y] == a0.horiz.next[y] && a.horiz.prev[y] == a0.horiz.prev[y])
    && (forall y :: b <= y < b + m ==> a.horiz.next[y] == b + NextIdx(y - b, m) && a.horiz.prev[y] == b + PrevIdx(y - b, m))
  }

  lemma AddRowFacts(a0: Arena, lay: Layout, live: seq<int>, vert: seq<seq<int>>, cs: seq<int>)
    requires Valid(a0, lay, live, vert) && Distinct(cs)
    requires forall k :: 0 <= k < |cs| ==> 1 <= cs[k] <= lay.ncols
    ensures var a := AddRow(a0, cs);
      && RowAdded(a0, cs, a) && Sized(a) && ColumnClosed(a)
      && VertRings(a, lay.ncols, AddVert(vert, cs, |a0.column|))
  {
    var b, m := |a0.column|, |cs|;
    var a1 := AppendAll(a0, cs);
    var a := AddRow(a0, cs);
    AppendAllFacts(a0, lay, live, vert, cs);
    LinkRowFacts(a1.horiz, b, m, m);
    forall y | 0 <= y < b ensures a.horiz.next[y] == a0.horiz.next[y] && a.horiz.prev[y] == a0.horiz.prev[y] {
      assert a1.horiz.next[y] == a0.horiz.next[y] && a1.horiz.prev[y] == a0.horiz.prev[y];
    }
    var v := AddVert(vert, cs, b);
    forall c | 1 <= c <= lay.ncols ensures ColumnRing(a, c, v[c]) {
      assert ColumnRing(a1, c, v[c]);
    }
  }

  lemma AddLayoutOf(lay: Layout, b: int, m: nat)
    requires m >= 1 && |lay.rowOf| == b && |lay.posOf| == b
    ensures var l := AddLayout(lay, b, m);
      && l.ncols == lay.ncols && |l.rows| == |lay.rows| + 1
      && (forall r :: 0 <= r < |lay.rows| ==> l.rows[r] == lay.rows[r])
      && l.rows[|lay.rows|] == Range(b, b + m)
      && |l.rowOf| == b + m && |l.posOf| == b + m
      && (forall x :: 0 <= x < b ==> l.rowOf[x] == lay.rowOf[x] && l.posOf[x] == lay.posOf[x])
      && (forall x :: b <= x < b + m ==> l.rowOf[x] == |lay.rows| && l.posOf[x] == x - b)
  {
  }

  /** The new row's nodes lie in Range(b, b + m), the others below b. */
  lemma AddShaped(a0: Arena, lay: Layout, live: seq<int>, vert: seq<seq<int>>, cs: seq<int>)
    requires Valid(a0, lay, live, vert) && |cs| >= 1
    requires forall k :: 0 <= k < |cs| ==> 1 <= cs[k] <= lay.ncols
    requires RowAdded(a0, cs, AddRow(a0, cs)) && Sized(AddRow(a0, cs))
    ensures Shaped(AddRow(a0, cs), AddLayout(lay, |a0.column|, |cs|))
    ensures InRange(AddRow(a0, cs).horiz)
  {
    var a, b, m := AddRow(a0, cs), |a0.column|, |cs|;
    AddLayoutOf(lay, b, m);
    forall x | lay.ncols < x < b + m ensures 1 <= a.column[x] <= lay.ncols {
      if x >= b {
        assert a.column[x] == cs[x - b];
      }
    }
    forall y | 0 <= y < b + m ensures 0 <= a.horiz.next[y] < b + m && 0 <= a.horiz.prev[y] < b + m {
    }
  }

  /** The header ring and the old rows keep their links. */
  lemma AddOldRings(a0: Arena, lay: Layout, live: seq<int>, vert: seq<seq<int>>, cs: seq<int>)
    requires Valid(a0, lay, live, vert)
    requires RowAdded(a0, cs, AddRow(a0, cs))
    ensures HeaderRing(AddRow(a0, cs), lay, live)
    ensures forall r :: 0 <= r < |lay.rows| ==>
              Cycle(AddRow(a0, cs).horiz, lay.rows[r]) && DistinctColumns(AddRow(a0, cs), lay.rows[r])
  {
    var a, b := AddRow(a0, cs), |a0.column|;
    OldRing(a0, cs, a, [0] + live);
    forall r | 0 <= r < |lay.rows| ensures Cycle(a.horiz, lay.rows[r]) && DistinctColumns(a, lay.rows[r]) {
      OldRing(a0, cs, a, lay.rows[r]);
    }
  }

  lemma OldRing(a0: Arena, cs: seq<int>, a: Arena, ys: seq<int>)
    requires RowAdded(a0, cs, a) && Cycle(a0.horiz, ys)
    ensures Cycle(a.horiz, ys)
    ensures DistinctColumns(a0, ys) ==> DistinctColumns(a, ys)
  {
    OldCycle(a0.horiz, a.horiz, |a0.column|, ys);
    if DistinctColumns(a0, ys) {
      OldColumns(a0, cs, a, ys);
    }
  }

  /** Links that agree below b keep every ring of nodes below b. */
  lemma OldCycle(lk0: Links, lk: Links, b: int, ys: seq<int>)
    requires Cycle(lk0, ys) && |lk0.next| == b && |lk.next| == |lk.prev| && |lk.next| >= b
    requires forall y :: 0 <= y < b ==> lk.next[y] == lk0.next[y] && lk.prev[y] == lk0.prev[y]
    ensures Cycle(lk, ys)
  {
    forall k | 0 <= k < |ys| ensures lk.next[ys[k]] == lk0.next[ys[k]] && lk.prev[ys[k]] == lk0.prev[ys[k]] {
      assert 0 <= ys[k] < b;
    }
    CycleFrame(lk0, lk, ys);
  }

  lemma OldColumns(a0: Arena, cs: seq<int>, a: Arena, ys: seq<int>)
    requires a.column == a0.column + cs && DistinctColumns(a0, ys)
    requires forall k :: 0 <= k < |ys| ==> 0 <= ys[k] < |a0.column|
    ensures DistinctColumns(a, ys)
  {
    forall k, k' | 0 <= k < k' < |ys| && 0 <= ys[k] < |a.column| && 0 <= ys[k'] < |a.column|
      ensures a.column[ys[k]] != a.column[ys[k']]
    {
      assert a.column[ys[k]] == a0.column[ys[k]] && a.column[ys[k']] == a0.column[ys[k']];
    }
  }

  /** The new nodes form one horizontal ring, in distinct columns. */
  lemma AddNewRing(a0: Arena, cs: seq<int>, a: Arena)
    requires |cs| >= 1 && Distinct(cs) && RowAdded(a0, cs, a)
    ensures Cycle(a.horiz, Range(|a0.column|, |a0.column| + |cs|))
    ensures DistinctColumns(a, Range(|a0.column|, |a0.column| + |cs|))
  {
    RangeCycle(a.horiz, |a0.column|, |cs|);
    NewColumns(a0.column, cs, a.column);
  }

  lemma NewColumns(col0: seq<int>, cs: seq<int>, col: seq<int>)
    requires Distinct(cs) && col == col0 + cs
    ensures var ys := Range(|col0|, |col|);
      forall k, k' :: 0 <= k < k' < |ys| ==> col[ys[k]] != col[ys[k']]
  {
    var ys := Range(|col0|, |col|);
    forall k, k' | 0 <= k < k' < |ys| ensures col[ys[k]] != col[ys[k']] {
      assert col[ys[k]] == cs[k] && col[ys[k']] == cs[k'];
    }
  }

  /** Links that send node b + i to b + i + 1 (wrapping) make b..b+m-1 a ring. */
  lemma RangeCycle(lk: Links, b: int, m: int)
    requires 0 <= b && m >= 1 && |lk.next| == |lk.prev| && b + m <= |lk.next|
    requires forall y :: b <= y < b + m ==> lk.next[y] == b + NextIdx(y - b, m) && lk.prev[y] == b + PrevIdx(y - b, m)
    ensures Cycle(lk, Range(b, b + m))
  {
    var ys := Range(b, b + m);
    forall k | 0 <= k < m ensures lk.next[ys[k]] == ys[NextIdx(k, m)] {
      var y := ys[k];
      assert y == b + k && y - b == k;
      assert lk.next[y] == b + NextIdx(k, m);
    }
    forall k | 0 <= k < m ensures lk.prev[ys[k]] == ys[PrevIdx(k, m)] {
      var y := ys[k];
      assert y == b + k && y - b == k;
      assert lk.prev[y] == b + PrevIdx(k, m);
    }
  }

  /** The old rows keep their place in the layout and the new row follows. */
  lemma AddRowsOK(a0: Arena, lay: Layout, live: seq<int>, vert: seq<seq<int>>, cs: seq<int>, a: Arena)
    requires Valid(a0, lay, live, vert) && Distinct(cs) && |cs| >= 1
    requires a == AddRow(a0, cs) && RowAdded(a0, cs, a)
    ensures RowsOK(a, AddLayout(lay, |a0.column|, |cs|))
  {
    var b, m := |a0.column|, |cs|;
    var l := AddLayout(lay, b, m);
    AddLayoutOf(lay, b, m);
    AddOldRings(a0, lay, live, vert, cs);
    AddNewRing(a0, cs, a);
    AddLayoutNodes(a0, lay, live, vert, m);
  }

  /** Node x of the new layout is entry posOf[x] of row rowOf[x], and back. */
  lemma AddLayoutNodes(a0: Arena, lay: Layout, live: seq<int>, vert: seq<seq<int>>, m: nat)
    requires Valid(a0, lay, live, vert) && m >= 1
    ensures var b, l := |a0.column|, AddLayout(lay, |a0.column|, m);
      && (forall x :: l.ncols < x < b + m ==>
            0 <= l.rowOf[x] < |l.rows| && 0 <= l.posOf[x] < |l.rows[l.rowOf[x]]| && l.rows[l.rowOf[x]][l.posOf[x]] == x)
      && (forall r, q :: 0 <= r < |l.rows| && 0 <= q < |l.rows[r]| ==>
            l.ncols < l.rows[r][q] < b + m && l.rowOf[l.rows[r][q]] == r && l.posOf[l.rows[r][q]] == q)
  {
    var b := |a0.column|;
    var l := AddLayout(lay, b, m);
    AddLayoutOf(lay, b, m);
    forall x | l.ncols < x < b + m
      ensures 0 <= l.rowOf[x] < |l.rows| && 0 <= l.posOf[x] < |l.rows[l.rowOf[x]]| && l.rows[l.rowOf[x]][l.posOf[x]] == x
    {
      if x < b {
        assert l.rows[l.rowOf[x]] == lay.rows[lay.rowOf[x]];
      }
    }
    forall r, q | 0 <= r < |l.rows| && 0 <= q < |l.rows[r]|
      ensures l.ncols < l.rows[r][q] < b + m && l.rowOf[l.rows[r][q]] == r && l.posOf[l.rows[r][q]] == q
    {
      if r < |lay.rows| {
        assert l.rows[r][q] == lay.rows[r][q];
      }
    }
  }

  /** A node in a column's ring is a data node of the matrix. */
  lemma RingMember(a0: Arena, lay: Layout, vert: seq<seq<int>>, c: int, i: int)
    requires Shaped(a0, lay) && VertRings(a0, lay.ncols, vert)
    requires 1 <= c <= lay.ncols && i in vert[c]
    ensures lay.ncols < i < |a0.column|
  {
    var xs := vert[c];
    var k :| 0 <= k < |xs| && xs[k] == i;
    var ys := [c] + xs;
    assert ys[k + 1] == i && ys[0] == c;
    assert a0.column[i] == c && i != c;
  }

  /** Appending to the rings keeps every old member. */
  lemma AddVertKeeps(vert: seq<seq<int>>, cs: seq<int>, b: int, c: int, y: int)
    requires Distinct(cs) && 0 <= c < |vert| && y in vert[c]
    ensures y in AddVert(vert, cs, b)[c]
  {
    AddVertOf(vert, cs, b, c);
    if c in cs {
      var p :| 0 <= p < |cs| && cs[p] == c;
      assert AddVert(vert, cs, b)[c] == vert[c] + [b + p];
    }
  }

  /** A row that was whole stays whole. */
  lemma OldRowWhole(a0: Arena, lay: Layout, live: seq<int>, vert: seq<seq<int>>, cs: seq<int>, a: Arena, i: int)
    requires Valid(a0, lay, live, vert) && Distinct(cs) && |cs| >= 1 && RowAdded(a0, cs, a)
    requires lay.ncols < i < |a0.column| && RowWhole(a0, lay, live, vert, i)
    ensures RowWhole(a, AddLayout(lay, |a0.column|, |cs|), live, AddVert(vert, cs, |a0.column|), i)
  {
    var b, m := |a0.column|, |cs|;
    var l := AddLayout(lay, b, m);
    AddLayoutOf(lay, b, m);
    assert Row(l, i) == Row(lay, i);
    forall y | y in Row(l, i) ensures Present(a, AddVert(vert, cs, b), y) && a.column[y] in live {
      assert Present(a0, vert, y);
      assert a.column[y] == a0.column[y];
      AddVertKeeps(vert, cs, b, a0.column[y], y);
    }
  }

  /** The new row is whole when all of its columns are live. */
  lemma NewRowWhole(lay: Layout, live: seq<int>, vert: seq<seq<int>>, cs: seq<int>, a: Arena, b: int, i: int)
    requires |lay.rowOf| == b && |lay.posOf| == b && |a.column| == b + |cs| && a.column[b..] == cs
    requires Distinct(cs) && |cs| >= 1 && b <= i < b + |cs|
    requires forall k :: 0 <= k < |cs| ==> cs[k] in live && 0 <= cs[k] < |vert|
    ensures RowWhole(a, AddLayout(lay, b, |cs|), live, AddVert(vert, cs, b), i)
  {
    var m, v := |cs|, AddVert(vert, cs, b);
    NewRowOf(lay, b, m, i);
    forall y | b <= y < b + m ensures Present(a, v, y) && a.column[y] in live {
      NewNodePresent(live, vert, cs, a, b, y - b);
    }
    WholeFromRange(a, AddLayout(lay, b, m), live, v, i, b, m);
  }

  lemma WholeFromRange(a: Arena, l: Layout, live: seq<int>, v: seq<seq<int>>, i: int, b: int, m: int)
    requires Row(l, i) == Range(b, b + m)
    requires forall y :: b <= y < b + m ==> Present(a, v, y) && a.column[y] in live
    ensures RowWhole(a, l, live, v, i)
  {
    var r := Range(b, b + m);
    forall y | y in r ensures b <= y < b + m {
      var q :| 0 <= q < |r| && r[q] == y;
    }
  }

  /** Read from any of its nodes, the new row is the nodes b..b+m-1. */
  lemma NewRowOf(lay: Layout, b: int, m: nat, i: int)
    requires m >= 1 && |lay.rowOf| == b && |lay.posOf| == b && b <= i < b + m
    ensures Row(AddLayout(lay, b, m), i) == Range(b, b + m)
  {
    AddLayoutOf(lay, b, m);
  }

  /** The node a new row puts in column cs[q] is present there. */
  lemma NewNodePresent(live: seq<int>, vert: seq<seq<int>>, cs: seq<int>, a: Arena, b: int, q: int)
    requires 0 <= b && |a.column| == b + |cs| && a.column[b..] == cs && Distinct(cs) && 0 <= q < |cs|
    requires forall k :: 0 <= k < |cs| ==> cs[k] in live && 0 <= cs[k] < |vert|
    ensures Present(a, AddVert(vert, cs, b), b + q) && a.column[b + q] in live
  {
    assert a.column[b + q] == a.column[b..][q] == cs[q];
    AddVertOf(vert, cs, b, cs[q]);
  }

  lemma AddIntegrity(a0: Arena, lay: Layout, live: seq<int>, vert: seq<seq<int>>, cs: seq<int>, a: Arena)
    requires Valid(a0, lay, live, vert) && Distinct(cs) && |cs| >= 1 && RowAdded(a0, cs, a)
    requires forall k :: 0 <= k < |cs| ==> cs[k] in live
    ensures Integrity(a, AddLayout(lay, |a0.column|, |cs|), live, AddVert(vert, cs, |a0.column|))
  {
    var b := |a0.column|;
    var v := AddVert(vert, cs, b);
    forall c, i | 0 <= c < |v| && c in live && i in v[c]
      ensures RowWhole(a, AddLayout(lay, b, |cs|), live, v, i)
    {
      AddVertOf(vert, cs, b, c);
      if i in vert[c] {
        RingMember(a0, lay, vert, c, i);
        OldRowWhole(a0, lay, live, vert, cs, a, i);
      } else {
        var p :| 0 <= p < |cs| && cs[p] == c;
        assert a.column[b..] == cs;
        NewRowWhole(lay, live, vert, cs, a, b, i);
      }
    }
  }

  /** Inserting a row whose columns are distinct and live keeps the
      invariant; its nodes become the next row of the layout and the last
      node of each of its columns. */
  lemma AddRowValid(a0: Arena, lay: Layout, live: seq<int>, vert: seq<seq<int>>, cs: seq<int>)
    requires Valid(a0, lay, live, vert) && Distinct(cs)
    requires forall k :: 0 <= k < |cs| ==> cs[k] in live
    ensures Valid(AddRow(a0, cs), AddLayout(lay, |a0.column|, |cs|), live, AddVert(vert, cs, |a0.column|))
  {
    var a := AddRow(a0, cs);
    if cs == [] {
      assert a == a0;
    } else {
      forall k | 0 <= k < |cs| ensures 1 <= cs[k] <= lay.ncols {
        var j :| 0 <= j < |live| && live[j] == cs[k];
      }
      AddRowFacts(a0, lay, live, vert, cs);
      AddShaped(a0, lay, live, vert, cs);
      AddOldRings(a0, lay, live, vert, cs);
      AddRowsOK(a0, lay, live, vert, cs, a);
      AddIntegrity(a0, lay, live, vert, cs, a);
    }
  }

  /** A valid arena has one entry per node in every field. */
  lemma ValidSized(a: Arena, lay: Layout, live: seq<int>, vert: seq<seq<int>>)
    requires Valid(a, lay, live, vert)
    ensures Sized(a)
  {
  }

  /** A live column is a column node. */
  lemma LiveColumn(a: Arena, lay: Layout, live: seq<int>, vert: seq<seq<int>>, c: int)
    requires Valid(a, lay, live, vert) && c in live
    ensures 1 <= c <= lay.ncols < |a.column|
  {
    var k :| 0 <= k < |live| && live[k] == c;
  }

  /** Adding a row appends the columns of its nodes and nothing else. */
  lemma {:induction false} AppendAllColumn(a: Arena, cs: seq<int>)
    ensures AppendAll(a, cs).column == a.column + cs
  {
    if cs != [] {
      AppendAllColumn(a, cs[..|cs| - 1]);
      assert cs[..|cs| - 1] + [cs[|cs| - 1]] == cs;
    }
  }
}
