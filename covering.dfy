/** Why cover and uncover are correct.

    CoverSound: from a valid state, cover(c) unlinks only nodes that are
    properly linked when their turn comes, and leaves a valid state with c
    out of the header ring and the rows hanging on c out of every other
    column.  UncoverRestores: uncover(c) applied to that state gives back
    every link field and every size exactly. */
module Covering {
  import opened Links
  import opened Matrix

  // ---------------------------------------------------------------------
  // Keep
  // ---------------------------------------------------------------------

  lemma {:induction false} KeepRemoveAt(xs: seq<int>, q: int)
    requires Distinct(xs) && 0 <= q < |xs|
    ensures Keep(xs, {xs[q]}) == xs[..q] + xs[q + 1..]
    decreases |xs|
  {
    var tail := xs[1..];
    if q == 0 {
      assert forall k :: 0 <= k < |tail| ==> tail[k] == xs[k + 1];
      KeepNone(tail, {xs[q]});
      assert xs[..q] + xs[q + 1..] == tail;
    } else {
      DistinctTail(xs);
      KeepRemoveAt(tail, q - 1);
      assert tail[q - 1] == xs[q] && xs[0] != xs[q];
      SpliceCons(xs, q);
    }
  }

  lemma DistinctTail(xs: seq<int>)
    requires Distinct(xs) && |xs| >= 1
    ensures Distinct(xs[1..])
  {
    var tail := xs[1..];
    forall k, k' | 0 <= k < k' < |tail| ensures tail[k] != tail[k'] {
      assert tail[k] == xs[k + 1] && tail[k'] == xs[k' + 1];
    }
  }

  lemma SpliceCons(xs: seq<int>, q: int)
    requires 0 < q < |xs|
    ensures [xs[0]] + (xs[1..][..q - 1] + xs[1..][q..]) == xs[..q] + xs[q + 1..]
  {
    assert xs[..q] == [xs[0]] + xs[1..][..q - 1];
    assert xs[q + 1..] == xs[1..][q..];
  }

  lemma {:induction false} KeepNone(xs: seq<int>, gone: set<int>)
    requires forall k :: 0 <= k < |xs| ==> xs[k] !in gone
    ensures Keep(xs, gone) == xs
    decreases |xs|
  {
    if xs != [] {
      assert forall k :: 0 <= k < |xs[1..]| ==> xs[1..][k] == xs[k + 1];
      KeepNone(xs[1..], gone);
      assert xs == [xs[0]] + xs[1..];
    }
  }

  lemma {:induction false} KeepKeep(xs: seq<int>, s: set<int>, s': set<int>)
    ensures Keep(Keep(xs, s), s') == Keep(xs, s + s')
    decreases |xs|
  {
    if xs != [] {
      var x, tail := xs[0], xs[1..];
      KeepKeep(tail, s, s');
      if x in s {
        assert Keep(xs, s) == Keep(tail, s);
      } else {
        var ks := [x] + Keep(tail, s);
        assert Keep(xs, s) == ks;
        assert ks[0] == x && ks[1..] == Keep(tail, s);
      }
    }
  }

  // ---------------------------------------------------------------------
  // One vertical unlink
  // ---------------------------------------------------------------------

  /** The column facts that hold of every state the solver reaches, whether
      or not the nodes just unlinked are counted in. */
  ghost predicate Columns(t: Arena, ncols: nat) {
    && |t.size| == |t.column|
    && ncols < |t.column|
    && (forall c :: 1 <= c <= ncols ==> t.column[c] == c)
    && ColumnClosed(t)
  }

  /** Unlinking a node that is in its column's ring removes exactly it. */
  lemma UnlinkStep(t: Arena, ncols: nat, vl: seq<seq<int>>, j: int)
    requires Columns(t, ncols) && VertRings(t, ncols, vl)
    requires 1 <= j < |t.column| && 1 <= t.column[j] <= ncols && j in vl[t.column[j]]
    ensures Proper(t.vert, j)
    ensures var u := UnlinkFromColumn(t, j);
      && Columns(u, ncols) && u.horiz == t.horiz && u.column == t.column
      && VertRings(u, ncols, vl[t.column[j] := Keep(vl[t.column[j]], {j})])
  {
    var c := t.column[j];
    var u := UnlinkFromColumn(t, j);
    OwnColumnAfterUnlink(t, vl[c], j);
    assert ColumnClosed(u) by { ClosedAfterUnlink(t, j); }
    var vl' := vl[c := Keep(vl[c], {j})];
    forall cc | 1 <= cc <= ncols ensures ColumnRing(u, cc, vl'[cc]) {
      if cc != c {
        OtherColumnAfterUnlink(t, ncols, cc, vl[cc], j);
      }
    }
  }

  /** The ring j is unlinked from loses j and nothing else. */
  lemma OwnColumnAfterUnlink(t: Arena, xs: seq<int>, j: int)
    requires |t.size| == |t.column| && |t.vert.next| == |t.column|
    requires 0 <= j < |t.column| && ColumnRing(t, t.column[j], xs) && j in xs
    ensures Proper(t.vert, j)
    ensures ColumnRing(UnlinkFromColumn(t, j), t.column[j], Keep(xs, {j}))
  {
    var c := t.column[j];
    var q :| 0 <= q < |xs| && xs[q] == j;
    var u := UnlinkFromColumn(t, j);
    assert u.vert == Unlink(t.vert, j);
    var ks := Keep(xs, {j});
    RingRemove(t.vert, c, xs, q);
    assert |ks| == |xs| - 1 by {
      TailDistinct(c, xs);
      KeepRemoveAt(xs, q);
    }
    assert u.size[c] == |ks|;
    forall k | 0 <= k < |ks| ensures 0 <= ks[k] < |u.column| && u.column[ks[k]] == c {
      assert ks[k] in xs;
      var i :| 0 <= i < |xs| && xs[i] == ks[k];
    }
  }

  /** Removing xs[q] from the ring [c] + xs. */
  lemma RingRemove(lk: Links, c: int, xs: seq<int>, q: int)
    requires Cycle(lk, [c] + xs) && 0 <= q < |xs|
    ensures Proper(lk, xs[q])
    ensures Cycle(Unlink(lk, xs[q]), [c] + Keep(xs, {xs[q]}))
  {
    RemoveAtHead(c, xs, q);
    CycleRemoveTo(lk, [c] + xs, q + 1, [c] + Keep(xs, {xs[q]}));
  }

  /** The ring [c] + xs without position q + 1 is [c] + Keep(xs, {xs[q]}). */
  lemma RemoveAtHead(c: int, xs: seq<int>, q: int)
    requires Distinct([c] + xs) && 0 <= q < |xs|
    ensures ([c] + xs)[..q + 1] + ([c] + xs)[q + 1 + 1..] == [c] + Keep(xs, {xs[q]})
  {
    TailDistinct(c, xs);
    KeepRemoveAt(xs, q);
    SpliceHead(c, xs, q);
  }

  lemma TailDistinct(c: int, xs: seq<int>)
    requires Distinct([c] + xs)
    ensures Distinct(xs) && c !in xs
  {
    var ys := [c] + xs;
    forall k, k' | 0 <= k < k' < |xs| ensures xs[k] != xs[k'] {
      assert ys[k + 1] == xs[k] && ys[k' + 1] == xs[k'];
    }
    forall k | 0 <= k < |xs| ensures xs[k] != c {
      assert ys[k + 1] == xs[k] && ys[0] == c;
    }
  }

  lemma SpliceHead(c: int, xs: seq<int>, q: int)
    requires 0 <= q < |xs|
    ensures ([c] + xs)[..q + 1] + ([c] + xs)[q + 2..] == [c] + (xs[..q] + xs[q + 1..])
  {
    var ys := [c] + xs;
    assert ys[..q + 1] == [c] + xs[..q];
    assert ys[q + 2..] == xs[q + 1..];
  }

  /** A ring of another column is left alone. */
  lemma OtherColumnAfterUnlink(t: Arena, ncols: nat, cc: int, xs: seq<int>, j: int)
    requires Columns(t, ncols) && 1 <= cc <= ncols && ColumnRing(t, cc, xs)
    requires 1 <= j < |t.column| && 1 <= t.column[j] <= ncols && t.column[j] != cc
    ensures ColumnRing(UnlinkFromColumn(t, j), cc, xs)
  {
    var u := UnlinkFromColumn(t, j);
    UnlinkWrites(t.vert, j);
    var pj, nj := t.vert.prev[j], t.vert.next[j];
    assert t.column[pj] == t.column[j] && t.column[nj] == t.column[j];
    var zs := [cc] + xs;
    forall k | 0 <= k < |zs|
      ensures u.vert.next[zs[k]] == t.vert.next[zs[k]] && u.vert.prev[zs[k]] == t.vert.prev[zs[k]]
    {
      if k > 0 { assert zs[k] == xs[k - 1]; }
      assert t.column[zs[k]] == cc;
    }
    CycleFrame(t.vert, u.vert, zs);
  }

  /** Unlinking keeps every vertical field inside its column. */
  lemma ClosedAfterUnlink(t: Arena, j: int)
    requires |t.size| == |t.column| && ColumnClosed(t)
    requires 1 <= j < |t.column| && 0 <= t.column[j] < |t.size|
    ensures ColumnClosed(UnlinkFromColumn(t, j))
  {
    UnlinkWrites(t.vert, j);
  }

  // ---------------------------------------------------------------------
  // A sequence of vertical unlinks, and undoing it
  // ---------------------------------------------------------------------

  /** Unlinking, one after the other, distinct nodes that all start out in
      their columns' rings: each is properly linked when its turn comes, and
      the rings end up without exactly those nodes. */
  lemma {:induction false} UnlinkPrefix(a1: Arena, ncols: nat, vert: seq<seq<int>>, ts: seq<int>, n: nat)
    requires Columns(a1, ncols) && VertRings(a1, ncols, vert)
    requires Distinct(ts)
    requires forall k :: 0 <= k < |ts| ==>
      1 <= ts[k] < |a1.column| && 1 <= a1.column[ts[k]] <= ncols && ts[k] in vert[a1.column[ts[k]]]
    requires n <= |ts|
    ensures var b := UnlinkAll(a1, ts[..n]);
      && ProperAll(a1, ts[..n]) && Columns(b, ncols) && b.horiz == a1.horiz && b.column == a1.column
      && VertRings(b, ncols, Remaining(vert, Elems(ts[..n])))
    decreases n
  {
    if n == 0 {
      assert ts[..0] == [];
      assert Elems(ts[..0]) == {};
      RemainingNone(vert);
    } else {
      UnlinkPrefix(a1, ncols, vert, ts, n - 1);
      var pre, j := ts[..n - 1], ts[n - 1];
      SnocSlice(ts, n - 1);
      assert j !in Elems(pre) by {
        forall k | 0 <= k < n - 1 ensures pre[k] != j { assert ts[k] != ts[n - 1]; }
      }
      UnlinkOneMore(a1, ncols, vert, pre, j, ts[..n]);
    }
  }

  lemma UnlinkOneMore(a1: Arena, ncols: nat, vert: seq<seq<int>>, pre: seq<int>, j: int, js: seq<int>)
    requires js == pre + [j]
    requires var t := UnlinkAll(a1, pre);
      && Columns(t, ncols) && VertRings(t, ncols, Remaining(vert, Elems(pre)))
      && ProperAll(a1, pre) && t.horiz == a1.horiz && t.column == a1.column
    requires 1 <= j < |a1.column| && 1 <= a1.column[j] <= ncols && j in vert[a1.column[j]]
    requires j !in Elems(pre)
    ensures var b := UnlinkAll(a1, js);
      && ProperAll(a1, js) && Columns(b, ncols) && b.horiz == a1.horiz && b.column == a1.column
      && VertRings(b, ncols, Remaining(vert, Elems(js)))
  {
    assert js[..|js| - 1] == pre && js[|js| - 1] == j;
    var t := UnlinkAll(a1, pre);
    assert UnlinkAll(a1, js) == UnlinkFromColumn(t, j);
    var vl := Remaining(vert, Elems(pre));
    assert j in vl[t.column[j]];
    UnlinkStep(t, ncols, vl, j);
    RemainingStep(t, ncols, vert, Elems(pre), j);
    ElemsSnoc(pre, j);
  }

  /** A node hanging in its column's ring is a data node, not a column node. */
  lemma RingMemberIsData(t: Arena, ncols: nat, vl: seq<seq<int>>, x: int)
    requires Columns(t, ncols) && VertRings(t, ncols, vl)
    requires 1 <= x < |t.column| && 1 <= t.column[x] <= ncols && x in vl[t.column[x]]
    ensures ncols < x
  {
    var cx := t.column[x];
    assert ColumnRing(t, cx, vl[cx]);
    TailDistinct(cx, vl[cx]);
  }

  /** Both neighbours of a node of the ring [c] + xs lie in that ring. */
  lemma RingNeighbours(lk: Links, c: int, xs: seq<int>, j: int)
    requires Cycle(lk, [c] + xs) && j in xs
    ensures 0 <= j < |lk.next| && lk.next[j] in [c] + xs && lk.prev[j] in [c] + xs
  {
    var ys := [c] + xs;
    var q :| 0 <= q < |xs| && xs[q] == j;
    assert ys[q + 1] == j;
  }

  /** Unlinking j from its column leaves alone the vertical fields of a data
      node x that is no longer in j's ring. */
  lemma UnlinkLeaves(t: Arena, ncols: nat, vl: seq<seq<int>>, j: int, x: int)
    requires Columns(t, ncols) && VertRings(t, ncols, vl)
    requires 1 <= j < |t.column| && 1 <= t.column[j] <= ncols && j in vl[t.column[j]]
    requires ncols < x < |t.column| && x !in vl[t.column[j]]
    ensures var u := UnlinkFromColumn(t, j);
      u.vert.next[x] == t.vert.next[x] && u.vert.prev[x] == t.vert.prev[x]
  {
    var cj := t.column[j];
    assert ColumnRing(t, cj, vl[cj]);
    RingNeighbours(t.vert, cj, vl[cj], j);
    UnlinkFrame(t.vert, j);
  }

  /** Vertical unlinks keep every field sequence at its length. */
  lemma {:induction false} UnlinkAllLengths(h: Arena, ts: seq<int>)
    ensures |UnlinkAll(h, ts).vert.next| == |h.vert.next| && |UnlinkAll(h, ts).vert.prev| == |h.vert.prev|
    decreases |ts|
  {
    if ts != [] {
      UnlinkAllLengths(h, ts[..|ts| - 1]);
    }
  }

  /** The splice of ts[m] leaves alone the vertical fields of an earlier
      node ts[k], which is out of every ring by then. */
  lemma LaterUnlinkKeeps(a1: Arena, ncols: nat, vert: seq<seq<int>>, ts: seq<int>, k: nat, m: nat)
    requires Columns(a1, ncols) && VertRings(a1, ncols, vert)
    requires Distinct(ts)
    requires forall k :: 0 <= k < |ts| ==>
      1 <= ts[k] < |a1.column| && 1 <= a1.column[ts[k]] <= ncols && ts[k] in vert[a1.column[ts[k]]]
    requires k < m < |ts|
    ensures var t, u := UnlinkAll(a1, ts[..m]), UnlinkAll(a1, ts[..m + 1]);
      && |t.vert.next| == |u.vert.next| == |a1.vert.next| && |t.vert.prev| == |u.vert.prev| == |a1.vert.prev|
      && u.vert.next[ts[k]] == t.vert.next[ts[k]] && u.vert.prev[ts[k]] == t.vert.prev[ts[k]]
  {
    var t, j, x := UnlinkAll(a1, ts[..m]), ts[m], ts[k];
    UnlinkAllSnoc(a1, ts, m);
    UnlinkPrefix(a1, ncols, vert, ts, m);
    UnlinkAllLengths(a1, ts[..m + 1]);
    var gone := Elems(ts[..m]);
    var vl, cj := Remaining(vert, gone), a1.column[j];
    assert j !in gone by {
      assert forall q :: 0 <= q < m ==> ts[q] != j;
    }
    assert j in vl[cj] by { assert j in vert[cj]; }
    assert x !in vl[cj] by { assert ts[..m][k] == x; }
    RingMemberIsData(a1, ncols, vert, x);
    UnlinkLeaves(t, ncols, vl, j, x);
  }

  /** Once ts[k] is unlinked, the rest of the sequence does not touch its
      vertical fields: each later splice rewrites only its node's
      neighbours, which are still in a ring. */
  lemma {:induction false} UnlinkedStays(a1: Arena, ncols: nat, vert: seq<seq<int>>, ts: seq<int>, k: nat, n: nat)
    requires Columns(a1, ncols) && VertRings(a1, ncols, vert)
    requires Distinct(ts)
    requires forall k :: 0 <= k < |ts| ==>
      1 <= ts[k] < |a1.column| && 1 <= a1.column[ts[k]] <= ncols && ts[k] in vert[a1.column[ts[k]]]
    requires k < n <= |ts|
    ensures var b, s := UnlinkAll(a1, ts[..n]), UnlinkAll(a1, ts[..k + 1]);
      && |b.vert.next| == |s.vert.next| == |a1.vert.next| && |b.vert.prev| == |s.vert.prev| == |a1.vert.prev|
      && b.vert.next[ts[k]] == s.vert.next[ts[k]] && b.vert.prev[ts[k]] == s.vert.prev[ts[k]]
    decreases n
  {
    UnlinkAllLengths(a1, ts[..n]);
    UnlinkAllLengths(a1, ts[..k + 1]);
    if n > k + 1 {
      UnlinkedStays(a1, ncols, vert, ts, k, n - 1);
      LaterUnlinkKeeps(a1, ncols, vert, ts, k, n - 1);
      assert n - 1 + 1 == n;
    }
  }

  /** After unlinking all of ts, the k-th node still has the fields it had
      when its own unlink came, when it was properly linked. */
  lemma RemovedKeepsFields(a1: Arena, ncols: nat, vert: seq<seq<int>>, ts: seq<int>, k: nat)
    requires Columns(a1, ncols) && VertRings(a1, ncols, vert)
    requires Distinct(ts)
    requires forall k :: 0 <= k < |ts| ==>
      1 <= ts[k] < |a1.column| && 1 <= a1.column[ts[k]] <= ncols && ts[k] in vert[a1.column[ts[k]]]
    requires k < |ts|
    ensures var s, b, x := UnlinkAll(a1, ts[..k]), UnlinkAll(a1, ts), ts[k];
      && 0 <= x < |s.vert.next| && Proper(s.vert, x)
      && |b.vert.next| == |s.vert.next| && |b.vert.prev| == |s.vert.prev|
      && b.vert.next[x] == s.vert.next[x] && b.vert.prev[x] == s.vert.prev[x]
  {
    var s, x := UnlinkAll(a1, ts[..k]), ts[k];
    UnlinkPrefix(a1, ncols, vert, ts, k + 1);
    assert ts[..k + 1][..k] == ts[..k];
    UnlinkAllSnoc(a1, ts, k);
    UnlinkOwnFields(s, x);
    UnlinkedStays(a1, ncols, vert, ts, k, |ts|);
    assert ts[..|ts|] == ts;
  }

  /** Unlinking x keeps x's own vertical fields. */
  lemma UnlinkOwnFields(t: Arena, j: int)
    requires Linkable(t.vert, j) && 0 <= j < |t.column| && 0 <= t.column[j] < |t.size|
    ensures var u := UnlinkFromColumn(t, j);
      u.vert.next[j] == t.vert.next[j] && u.vert.prev[j] == t.vert.prev[j]
  {
    UnlinkFrame(t.vert, j);
  }

  lemma ElemsSnoc(xs: seq<int>, x: int)
    ensures Elems(xs + [x]) == Elems(xs) + {x}
  {
  }

  lemma RemainingNone(vert: seq<seq<int>>)
    ensures Remaining(vert, {}) == vert
  {
    forall c | 0 <= c < |vert| ensures Keep(vert[c], {}) == vert[c] {
      KeepNone(vert[c], {});
    }
  }

  /** Dropping one more node j from the rings only changes j's column. */
  lemma RemainingStep(t: Arena, ncols: nat, vert: seq<seq<int>>, s: set<int>, j: int)
    requires VertRings(t, ncols, Remaining(vert, s))
    requires 0 <= j < |t.column| && 1 <= t.column[j] <= ncols
    ensures var vl, c := Remaining(vert, s), t.column[j];
      vl[c := Keep(vl[c], {j})] == Remaining(vert, s + {j})
  {
    var vl, c := Remaining(vert, s), t.column[j];
    var vl' := vl[c := Keep(vl[c], {j})];
    forall cc | 0 <= cc < |vert| ensures vl'[cc] == Keep(vert[cc], s + {j}) {
      KeepKeep(vert[cc], s, {j});
      if cc != c {
        forall k | 0 <= k < |vl[cc]| ensures vl[cc][k] != j {
          if cc != 0 { assert ColumnRing(t, cc, vl[cc]); }
        }
        KeepNone(vl[cc], {j});
      }
    }
  }

  lemma RelinkAfterUnlink(t: Arena, j: int)
    requires 0 <= j < |t.column| && 0 <= t.column[j] < |t.size| && Proper(t.vert, j)
    ensures RelinkIntoColumn(UnlinkFromColumn(t, j), j) == t
  {
    RelinkUndoesUnlink(t.vert, j);
  }

  lemma {:induction false} RelinkAllCons(a: Arena, x: int, js: seq<int>)
    ensures RelinkAll(a, [x] + js) == RelinkAll(RelinkIntoColumn(a, x), js)
    decreases |js|
  {
    if js != [] {
      var init := js[..|js| - 1];
      assert ([x] + js)[..|js|] == [x] + init;
      RelinkAllCons(a, x, init);
    } else {
      assert [x] + js == [x];
      assert [x][..0] == [];
    }
  }

  /** Relinking in reverse order undoes a sequence of proper unlinks. */
  lemma {:induction false} RelinkUndoesUnlinkAll(h: Arena, ts: seq<int>)
    requires ProperAll(h, ts)
    ensures RelinkAll(UnlinkAll(h, ts), Reverse(ts)) == h
    decreases |ts|
  {
    if ts != [] {
      var init, x := ts[..|ts| - 1], ts[|ts| - 1];
      var b := UnlinkAll(h, init);
      RelinkAllCons(UnlinkFromColumn(b, x), x, Reverse(init));
      RelinkAfterUnlink(b, x);
      RelinkUndoesUnlinkAll(h, init);
    }
  }

  // ---------------------------------------------------------------------
  // Rows and the cover trace
  // ---------------------------------------------------------------------

  lemma DistinctConcat(xs: seq<int>, ys: seq<int>)
    requires Distinct(xs) && Distinct(ys) && forall x :: x in xs ==> x !in ys
    ensures Distinct(xs + ys)
  {
    var zs := xs + ys;
    forall k, k' | 0 <= k < k' < |zs| ensures zs[k] != zs[k'] {
      if k' < |xs| {
      } else if k >= |xs| {
        assert zs[k] == ys[k - |xs|] && zs[k'] == ys[k' - |xs|];
      } else {
        assert zs[k] in xs && zs[k'] == ys[k' - |xs|];
      }
    }
  }

  /** The nodes of a ring read from just after position p round to just
      before it: all the others, each once. */
  lemma Rotation(r: seq<int>, p: int)
    requires Distinct(r) && 0 <= p < |r|
    ensures var o := r[p + 1..] + r[..p];
      && |o| == |r| - 1 && Distinct(o)
      && forall x :: x in o <==> x in r && x != r[p]
  {
    var hi, lo := r[p + 1..], r[..p];
    assert r == lo + [r[p]] + hi;
    assert Distinct(hi) by {
      forall k, k' | 0 <= k < k' < |hi| ensures hi[k] != hi[k'] {
        assert hi[k] == r[p + 1 + k] && hi[k'] == r[p + 1 + k'];
      }
    }
    assert Distinct(lo) by {
      forall k, k' | 0 <= k < k' < |lo| ensures lo[k] != lo[k'] {
        assert lo[k] == r[k] && lo[k'] == r[k'];
      }
    }
    forall x | x in hi ensures x !in lo && x != r[p] {
      var k :| 0 <= k < |hi| && hi[k] == x;
      assert x == r[p + 1 + k];
      forall k' | 0 <= k' < |lo| ensures lo[k'] != x { assert lo[k'] == r[k']; }
    }
    forall x | x in lo ensures x != r[p] {
      var k :| 0 <= k < |lo| && lo[k] == x;
      assert x == r[k];
    }
    DistinctConcat(hi, lo);
  }

  /** A data node's row holds it, and every node of the row has that row. */
  lemma RowFacts(a: Arena, lay: Layout, i: int)
    requires Shaped(a, lay) && RowsOK(a, lay) && lay.ncols < i < |a.column|
    ensures var r := Row(lay, i);
      && r == lay.rows[lay.rowOf[i]] && r[lay.posOf[i]] == i
      && Cycle(a.horiz, r) && DistinctColumns(a, r)
      && (forall x :: x in r ==> lay.ncols < x < |a.column| && Row(lay, x) == r)
  {
    var r := lay.rows[lay.rowOf[i]];
    assert Cycle(a.horiz, r) && DistinctColumns(a, r);
    forall x | x in r ensures lay.ncols < x < |a.column| && Row(lay, x) == r {
      var q :| 0 <= q < |r| && r[q] == x;
    }
  }

  lemma OthersFacts(a: Arena, lay: Layout, i: int)
    requires Shaped(a, lay) && RowsOK(a, lay) && lay.ncols < i < |a.column|
    ensures var r, o := Row(lay, i), Others(lay, i);
      && i in r && |o| == |r| - 1 && Distinct(o)
      && (forall x :: x in o <==> x in r && x != i)
      && (forall x :: x in r ==> lay.ncols < x < |a.column| && Row(lay, x) == r)
      && (forall x :: x in o ==> a.column[x] != a.column[i])
  {
    RowFacts(a, lay, i);
    var r, p := Row(lay, i), lay.posOf[i];
    assert Others(lay, i) == r[p + 1..] + r[..p];
    Rotation(r, p);
    forall x | x in Others(lay, i) ensures a.column[x] != a.column[i] {
      SameRowSameColumn(a, r, p, x);
    }
  }

  /** Two nodes of one row in the same column are the same node. */
  lemma SameRowSameColumn(a: Arena, r: seq<int>, p: int, x: int)
    requires Cycle(a.horiz, r) && DistinctColumns(a, r) && 0 <= p < |r|
    requires |a.horiz.next| == |a.column|
    ensures x in r && a.column[x] == a.column[r[p]] ==> x == r[p]
  {
    if x in r {
      var q :| 0 <= q < |r| && r[q] == x;
      assert 0 <= r[q] < |a.column| && 0 <= r[p] < |a.column|;
    }
  }

  /** ring lists data nodes of column c. */
  ghost predicate RingOf(a: Arena, lay: Layout, c: int, ring: seq<int>) {
    forall k :: 0 <= k < |ring| ==> lay.ncols < ring[k] < |a.column| && a.column[ring[k]] == c
  }

  lemma ColumnRingOf(a: Arena, lay: Layout, c: int, xs: seq<int>)
    requires Shaped(a, lay) && 1 <= c <= lay.ncols && ColumnRing(a, c, xs)
    ensures RingOf(a, lay, c, xs) && Distinct(xs)
  {
    TailDistinct(c, xs);
    forall k | 0 <= k < |xs| ensures lay.ncols < xs[k] {
      assert ([c] + xs)[k + 1] == xs[k];
      assert xs[k] != c;
    }
  }

  /** What the trace of a column is made of: each other node of each row
      hanging on the column, once. */
  lemma {:induction false} TraceFacts(a: Arena, lay: Layout, c: int, ring: seq<int>)
    requires Shaped(a, lay) && RowsOK(a, lay)
    requires Distinct(ring) && RingOf(a, lay, c, ring)
    ensures var ts := CoverTrace(lay, ring);
      && Distinct(ts)
      && (forall x :: x in ts <==> exists i :: i in ring && x in Row(lay, i) && x != i)
    decreases |ring|
  {
    if ring != [] {
      var init, i := ring[..|ring| - 1], ring[|ring| - 1];
      assert ring == init + [i];
      assert Distinct(init);
      TraceFacts(a, lay, c, init);
      TraceDisjoint(a, lay, c, ring, init, i);
      OthersFacts(a, lay, i);
      DistinctConcat(CoverTrace(lay, init), Others(lay, i));
      TraceMembers(lay, init, i);
    }
  }

  /** One more row hanging on the column adds its other nodes to the trace. */
  lemma TraceMembers(lay: Layout, init: seq<int>, i: int)
    requires forall x :: x in CoverTrace(lay, init) <==> exists i0 :: i0 in init && x in Row(lay, i0) && x != i0
    requires forall x :: x in Others(lay, i) <==> x in Row(lay, i) && x != i
    ensures forall x :: x in CoverTrace(lay, init + [i]) <==> exists i0 :: i0 in init + [i] && x in Row(lay, i0) && x != i0
  {
    var ring := init + [i];
    assert ring[..|ring| - 1] == init && ring[|ring| - 1] == i;
    var ts := CoverTrace(lay, ring);
    assert ts == CoverTrace(lay, init) + Others(lay, i);
    forall x ensures x in ts <==> exists i0 :: i0 in ring && x in Row(lay, i0) && x != i0 {
      if x in Others(lay, i) { assert i in ring; }
      if x in CoverTrace(lay, init) {
        var i0 :| i0 in init && x in Row(lay, i0) && x != i0;
        assert i0 in ring;
      }
      if exists i0 :: i0 in ring && x in Row(lay, i0) && x != i0 {
        var i0 :| i0 in ring && x in Row(lay, i0) && x != i0;
        if i0 != i { assert i0 in init; }
      }
    }
  }

  /** The last row's other nodes are not among the earlier rows' others. */
  lemma TraceDisjoint(a: Arena, lay: Layout, c: int, ring: seq<int>, init: seq<int>, i: int)
    requires Shaped(a, lay) && RowsOK(a, lay) && ring == init + [i]
    requires Distinct(ring) && RingOf(a, lay, c, ring)
    requires forall x :: x in CoverTrace(lay, init) <==> exists i :: i in init && x in Row(lay, i) && x != i
    ensures forall x :: x in CoverTrace(lay, init) ==> x !in Others(lay, i)
  {
    forall x | x in CoverTrace(lay, init) ensures x !in Others(lay, i) {
      var i0 :| i0 in init && x in Row(lay, i0) && x != i0;
      var k0 :| 0 <= k0 < |init| && init[k0] == i0;
      assert ring[k0] == i0 && ring[|ring| - 1] == i;
      SameRowUnique(a, lay, c, ring, k0, x);
    }
  }

  lemma SameRowUnique(a: Arena, lay: Layout, c: int, ring: seq<int>, k0: int, x: int)
    requires Shaped(a, lay) && RowsOK(a, lay)
    requires Distinct(ring) && RingOf(a, lay, c, ring) && 0 <= k0 < |ring| - 1
    requires x in Row(lay, ring[k0])
    ensures x !in Others(lay, ring[|ring| - 1])
  {
    var i0, i := ring[k0], ring[|ring| - 1];
    assert i0 != i;
    RowFacts(a, lay, i0);
    RowFacts(a, lay, i);
    OthersFacts(a, lay, i);
    assert i0 in Row(lay, i0);
    SameRowSameColumn(a, Row(lay, i), lay.posOf[i], i0);
  }

  /** Node x may be unlinked during cover(c): it is a data node still in its
      column's ring, and that column is not c. */
  ghost predicate TraceNode(a: Arena, lay: Layout, vert: seq<seq<int>>, c: int, x: int) {
    && 1 <= x < |a.column| && 1 <= a.column[x] <= lay.ncols && a.column[x] != c
    && a.column[x] < |vert| && x in vert[a.column[x]]
  }

  /** Everything cover(c) unlinks is a node it may unlink, and none twice. */
  lemma TraceNodes(a: Arena, lay: Layout, live: seq<int>, vert: seq<seq<int>>, c: int)
    requires Shaped(a, lay) && RowsOK(a, lay) && Integrity(a, lay, live, vert)
    requires HeaderRing(a, lay, live) && VertRings(a, lay.ncols, vert) && c in live
    ensures var ts := CoverTrace(lay, vert[c]);
      && Distinct(ts)
      && (forall x :: x in ts <==> exists i :: i in vert[c] && x in Row(lay, i) && x != i)
      && (forall k :: 0 <= k < |ts| ==> TraceNode(a, lay, vert, c, ts[k]))
  {
    assert 1 <= c <= lay.ncols;
    assert ColumnRing(a, c, vert[c]);
    ColumnRingOf(a, lay, c, vert[c]);
    TraceFacts(a, lay, c, vert[c]);
    var ts := CoverTrace(lay, vert[c]);
    forall k | 0 <= k < |ts| ensures TraceNode(a, lay, vert, c, ts[k]) {
      var x := ts[k];
      assert x in ts;
      var i :| i in vert[c] && x in Row(lay, i) && x != i;
      OtherIsTraceNode(a, lay, live, vert, c, i, x);
    }
  }

  lemma OtherIsTraceNode(a: Arena, lay: Layout, live: seq<int>, vert: seq<seq<int>>, c: int, i: int, x: int)
    requires Shaped(a, lay) && RowsOK(a, lay) && Integrity(a, lay, live, vert) && HeaderRing(a, lay, live)
    requires 0 <= c < |vert| && c in live && i in vert[c] && lay.ncols < i < |a.column| && a.column[i] == c
    requires x in Row(lay, i) && x != i
    ensures TraceNode(a, lay, vert, c, x)
  {
    RowFacts(a, lay, i);
    assert Present(a, vert, x) && a.column[x] in live;
    SameRowSameColumn(a, Row(lay, i), lay.posOf[i], x);
  }

  // ---------------------------------------------------------------------
  // cover(c) and uncover(c)
  // ---------------------------------------------------------------------

  /** Taking c out of the header ring: c was properly linked, the ring now
      holds the other live columns, and no row is touched. */
  lemma HeaderAfterUnlink(a: Arena, lay: Layout, live: seq<int>, c: int)
    requires Shaped(a, lay) && InRange(a.horiz) && HeaderRing(a, lay, live) && RowsOK(a, lay) && c in live
    ensures var h := UnlinkFromHeader(a, c);
      && Proper(a.horiz, c) && InRange(h.horiz) && HeaderRing(h, lay, Keep(live, {c})) && RowsOK(h, lay)
  {
    var p :| 0 <= p < |live| && live[p] == c;
    RingRemove(a.horiz, 0, live, p);
    HeaderNeighbours(a, lay, live, p);
    UnlinkWrites(a.horiz, c);
    KeepBounds(lay, live, c);
    RowsAfterHeaderUnlink(a, lay, c);
  }

  lemma KeepBounds(lay: Layout, live: seq<int>, c: int)
    requires forall k :: 0 <= k < |live| ==> 1 <= live[k] <= lay.ncols
    ensures var live' := Keep(live, {c});
      forall k :: 0 <= k < |live'| ==> 1 <= live'[k] <= lay.ncols
  {
    var live' := Keep(live, {c});
    forall k | 0 <= k < |live'| ensures 1 <= live'[k] <= lay.ncols {
      assert live'[k] in live;
    }
  }

  /** Both neighbours of a live column in the header ring are the header or
      column nodes. */
  lemma HeaderNeighbours(a: Arena, lay: Layout, live: seq<int>, p: int)
    requires HeaderRing(a, lay, live) && 0 <= p < |live|
    requires lay.ncols < |a.horiz.next| && |a.horiz.prev| == |a.horiz.next|
    ensures 0 <= a.horiz.prev[live[p]] <= lay.ncols && 0 <= a.horiz.next[live[p]] <= lay.ncols
  {
    var ys := [0] + live;
    assert ys[p + 1] == live[p];
    assert a.horiz.prev[ys[p + 1]] == ys[p];
    assert a.horiz.next[ys[p + 1]] == ys[NextIdx(p + 1, |ys|)];
    if p > 0 { assert ys[p] == live[p - 1]; }
    if p + 2 < |ys| { assert ys[p + 2] == live[p + 1]; }
  }

  lemma RowsAfterHeaderUnlink(a: Arena, lay: Layout, c: int)
    requires Shaped(a, lay) && RowsOK(a, lay) && Linkable(a.horiz, c)
    requires a.horiz.prev[c] <= lay.ncols && a.horiz.next[c] <= lay.ncols
    ensures RowsOK(UnlinkFromHeader(a, c), lay)
  {
    var h := UnlinkFromHeader(a, c);
    UnlinkWrites(a.horiz, c);
    forall r | 0 <= r < |lay.rows| ensures Cycle(h.horiz, lay.rows[r]) {
      var row := lay.rows[r];
      assert Cycle(a.horiz, row);
      forall k | 0 <= k < |row| ensures row[k] != a.horiz.prev[c] && row[k] != a.horiz.next[c] {
        assert lay.ncols < row[k];
      }
      CycleFrame(a.horiz, h.horiz, row);
    }
  }

  lemma VertRingsFrame(a: Arena, b: Arena, ncols: nat, vert: seq<seq<int>>)
    requires VertRings(a, ncols, vert)
    requires b.vert == a.vert && b.size == a.size && b.column == a.column
    ensures VertRings(b, ncols, vert)
  {
    forall c | 1 <= c <= ncols ensures ColumnRing(b, c, vert[c]) {
      assert ColumnRing(a, c, vert[c]);
    }
  }

  /** A row that has a node in the trace of c and a node i outside column c
      has i in the trace too. */
  lemma TraceClosed(a: Arena, lay: Layout, live: seq<int>, vert: seq<seq<int>>, c: int, i: int, y: int)
    requires Shaped(a, lay) && RowsOK(a, lay) && 0 <= c < |vert|
    requires forall x :: x in CoverTrace(lay, vert[c]) <==> exists i0 :: i0 in vert[c] && x in Row(lay, i0) && x != i0
    requires RingOf(a, lay, c, vert[c])
    requires lay.ncols < i < |a.column| && a.column[i] != c && y in Row(lay, i)
    ensures y in CoverTrace(lay, vert[c]) ==> i in CoverTrace(lay, vert[c])
    ensures y in vert[c] ==> i in CoverTrace(lay, vert[c])
  {
    if y in CoverTrace(lay, vert[c]) {
      var i0 :| i0 in vert[c] && y in Row(lay, i0) && y != i0;
      TraceClosedAt(a, lay, vert[c], c, i, y, i0);
      assert i0 in vert[c] && i in Row(lay, i0) && i != i0;
    }
    if y in vert[c] {
      TraceClosedAt(a, lay, vert[c], c, i, y, y);
      assert y in vert[c] && i in Row(lay, y) && i != y;
    }
  }

  /** i shares a row with i0 of c's ring, and is not i0 itself. */
  lemma TraceClosedAt(a: Arena, lay: Layout, ring: seq<int>, c: int, i: int, y: int, i0: int)
    requires Shaped(a, lay) && RowsOK(a, lay) && RingOf(a, lay, c, ring)
    requires lay.ncols < i < |a.column| && a.column[i] != c && y in Row(lay, i)
    requires i0 in ring && (y == i0 || y in Row(lay, i0))
    ensures i in Row(lay, i0) && i != i0
  {
    RowFacts(a, lay, i);
    var k0 :| 0 <= k0 < |ring| && ring[k0] == i0;
    RowFacts(a, lay, i0);
  }

  /** A node y in the row of a node i that stays in the rings of another
      live column cc stays in its own column's ring, and that column is
      still live. */
  lemma IntegrityCase(a: Arena, lay: Layout, live: seq<int>, vert: seq<seq<int>>, c: int, cc: int, i: int, y: int,
                      ts: seq<int>, vert': seq<seq<int>>)
    requires Shaped(a, lay) && RowsOK(a, lay) && Integrity(a, lay, live, vert)
    requires 0 <= c < |vert| && 0 <= cc < |vert| && cc in Keep(live, {c})
    requires RingOf(a, lay, c, vert[c]) && RingOf(a, lay, cc, vert[cc])
    requires ts == CoverTrace(lay, vert[c]) && vert' == Remaining(vert, Elems(ts))
    requires forall x :: x in ts <==> exists i0 :: i0 in vert[c] && x in Row(lay, i0) && x != i0
    requires i in vert'[cc] && y in Row(lay, i)
    ensures Present(a, vert', y) && a.column[y] in Keep(live, {c})
  {
    assert i in vert[cc] && i !in ts;
    var k :| 0 <= k < |vert[cc]| && vert[cc][k] == i;
    assert Present(a, vert, y) && a.column[y] in live;
    TraceClosed(a, lay, live, vert, c, i, y);
  }

  lemma IntegrityAfterCover(a: Arena, b: Arena, lay: Layout, live: seq<int>, vert: seq<seq<int>>, c: int)
    requires Shaped(a, lay) && RowsOK(a, lay) && Integrity(a, lay, live, vert)
    requires HeaderRing(a, lay, live) && VertRings(a, lay.ncols, vert) && c in live
    requires b.column == a.column
    ensures Integrity(b, lay, Keep(live, {c}), Remaining(vert, Elems(CoverTrace(lay, vert[c]))))
  {
    TraceNodes(a, lay, live, vert, c);
    var ts := CoverTrace(lay, vert[c]);
    var vert' := Remaining(vert, Elems(ts));
    assert 1 <= c <= lay.ncols && ColumnRing(a, c, vert[c]);
    ColumnRingOf(a, lay, c, vert[c]);
    forall cc, i | 0 <= cc < |vert'| && cc in Keep(live, {c}) && i in vert'[cc]
      ensures RowWhole(b, lay, Keep(live, {c}), vert', i)
    {
      assert 1 <= cc <= lay.ncols && ColumnRing(a, cc, vert[cc]);
      ColumnRingOf(a, lay, cc, vert[cc]);
      forall y | y in Row(lay, i) ensures Present(b, vert', y) && b.column[y] in Keep(live, {c}) {
        IntegrityCase(a, lay, live, vert, c, cc, i, y, ts, vert');
      }
    }
  }

  /** The covered state, piece by piece. */
  lemma CoverParts(a: Arena, lay: Layout, live: seq<int>, vert: seq<seq<int>>, c: int)
    requires Valid(a, lay, live, vert) && c in live
    ensures var ts, h := CoverTrace(lay, vert[c]), UnlinkFromHeader(a, c);
      var b := UnlinkAll(h, ts);
      && Proper(a.horiz, c) && ProperAll(h, ts)
      && Columns(b, lay.ncols) && b.horiz == h.horiz && b.column == a.column
      && InRange(h.horiz) && HeaderRing(h, lay, Keep(live, {c})) && RowsOK(h, lay)
      && VertRings(b, lay.ncols, Remaining(vert, Elems(ts)))
  {
    var ts := CoverTrace(lay, vert[c]);
    var h := UnlinkFromHeader(a, c);
    HeaderAfterUnlink(a, lay, live, c);
    UnlinkWrites(a.horiz, c);
    VertRingsFrame(a, h, lay.ncols, vert);
    TraceNodes(a, lay, live, vert, c);
    UnlinkPrefix(h, lay.ncols, vert, ts, |ts|);
    assert ts[..|ts|] == ts;
  }

  /** cover(c) never writes the `up` or `down` of a node it takes out: after
      the whole cover, the k-th node of the trace still has the fields it had
      when its turn came, when it was properly linked between its two
      neighbours.  Uncover splices it back between exactly those. */
  lemma CoverKeepsRemoved(a: Arena, lay: Layout, live: seq<int>, vert: seq<seq<int>>, c: int, k: nat)
    requires Valid(a, lay, live, vert) && c in live
    requires k < |CoverTrace(lay, vert[c])|
    ensures var ts, h := CoverTrace(lay, vert[c]), UnlinkFromHeader(a, c);
      var s, b, x := UnlinkAll(h, ts[..k]), Covered(a, lay, vert[c], c), ts[k];
      && 0 <= x < |s.vert.next| && Proper(s.vert, x)
      && |b.vert.next| == |s.vert.next| && |b.vert.prev| == |s.vert.prev|
      && b.vert.next[x] == s.vert.next[x] && b.vert.prev[x] == s.vert.prev[x]
  {
    var ts, h := CoverTrace(lay, vert[c]), UnlinkFromHeader(a, c);
    VertRingsFrame(a, h, lay.ncols, vert);
    TraceNodes(a, lay, live, vert, c);
    RemovedKeepsFields(h, lay.ncols, vert, ts, k);
  }

  /** cover(c) from a valid state: every node it unlinks is properly linked
      at that moment, and the state it leaves is valid with c out of the
      header ring and every node of every row hanging on c, other than
      those in c itself, out of its column. */
  lemma CoverSound(a: Arena, lay: Layout, live: seq<int>, vert: seq<seq<int>>, c: int)
    requires Valid(a, lay, live, vert) && c in live
    ensures var ts := CoverTrace(lay, vert[c]);
      && Proper(a.horiz, c) && ProperAll(UnlinkFromHeader(a, c), ts)
      && Valid(Covered(a, lay, vert[c], c), lay, Keep(live, {c}), Remaining(vert, Elems(ts)))
      && Remaining(vert, Elems(ts))[c] == vert[c]
  {
    var ts := CoverTrace(lay, vert[c]);
    var h := UnlinkFromHeader(a, c);
    var b := Covered(a, lay, vert[c], c);
    CoverParts(a, lay, live, vert, c);
    IntegrityAfterCover(a, b, lay, live, vert, c);
    CoveredColumnKept(a, lay, live, vert, c);
    RowsFrame(h, b, lay);
    ShapedFrame(a, b, lay);
  }

  lemma RowsFrame(a: Arena, b: Arena, lay: Layout)
    requires RowsOK(a, lay) && b.horiz == a.horiz && b.column == a.column
    ensures RowsOK(b, lay)
  {
  }

  lemma ShapedFrame(a: Arena, b: Arena, lay: Layout)
    requires Shaped(a, lay) && b.column == a.column && |b.size| == |a.size|
    requires |b.horiz.next| == |a.horiz.next| && |b.horiz.prev| == |a.horiz.prev|
    requires |b.vert.next| == |a.vert.next| && |b.vert.prev| == |a.vert.prev|
    ensures Shaped(b, lay)
  {
  }

  lemma CoveredColumnKept(a: Arena, lay: Layout, live: seq<int>, vert: seq<seq<int>>, c: int)
    requires Valid(a, lay, live, vert) && c in live
    ensures Remaining(vert, Elems(CoverTrace(lay, vert[c])))[c] == vert[c]
  {
    var ts := CoverTrace(lay, vert[c]);
    TraceNodes(a, lay, live, vert, c);
    assert ColumnRing(a, c, vert[c]);
    forall k | 0 <= k < |vert[c]| ensures vert[c][k] !in Elems(ts) {
      assert a.column[vert[c][k]] == c;
    }
    KeepNone(vert[c], Elems(ts));
  }

  /** uncover(c) right after cover(c) gives back exactly the state cover
      started from: every link field and every size. */
  lemma UncoverRestores(a: Arena, lay: Layout, live: seq<int>, vert: seq<seq<int>>, c: int)
    requires Valid(a, lay, live, vert) && c in live
    ensures Uncovered(Covered(a, lay, vert[c], c), lay, vert[c], c) == a
  {
    CoverSound(a, lay, live, vert, c);
    var h := UnlinkFromHeader(a, c);
    var ts := CoverTrace(lay, vert[c]);
    RelinkUndoesUnlinkAll(h, ts);
    RelinkUndoesUnlink(a.horiz, c);
  }

  // ---------------------------------------------------------------------
  // The walks cover and uncover make
  // ---------------------------------------------------------------------

  /** Read from data node i, its row is i followed by Others(i). */
  lemma OthersRing(a: Arena, lay: Layout, i: int)
    requires Shaped(a, lay) && RowsOK(a, lay) && lay.ncols < i < |a.column|
    ensures Cycle(a.horiz, [i] + Others(lay, i))
    ensures forall x :: x in Others(lay, i) ==> lay.ncols < x < |a.column|
  {
    RowFacts(a, lay, i);
    OthersFacts(a, lay, i);
    var r, p := Row(lay, i), lay.posOf[i];
    RotateSplit(r, p);
    CycleRotate(a.horiz, r, p, [i] + Others(lay, i));
  }

  lemma RotateSplit(r: seq<int>, p: int)
    requires 0 <= p < |r|
    ensures r[p..] + r[..p] == [r[p]] + (r[p + 1..] + r[..p])
  {
    assert r[p..] == [r[p]] + r[p + 1..];
  }

  lemma TraceSnoc(lay: Layout, ring: seq<int>, m: int)
    requires 0 <= m < |ring|
    ensures CoverTrace(lay, ring[..m + 1]) == CoverTrace(lay, ring[..m]) + Others(lay, ring[m])
  {
    assert ring[..m + 1][..m] == ring[..m];
  }

  /** The trace of the first m rows is a prefix of the whole trace. */
  lemma {:induction false} TracePrefix(lay: Layout, ring: seq<int>, m: int)
    requires 0 <= m <= |ring|
    ensures |CoverTrace(lay, ring[..m])| <= |CoverTrace(lay, ring)|
    ensures CoverTrace(lay, ring)[..|CoverTrace(lay, ring[..m])|] == CoverTrace(lay, ring[..m])
    decreases |ring|
  {
    if m == |ring| {
      assert ring[..m] == ring;
    } else {
      var init := ring[..|ring| - 1];
      TracePrefix(lay, init, m);
      assert init[..m] == ring[..m];
    }
  }

  /** The state after the first n unlinks of cover(c): the rings with those
      nodes removed, c's own ring entire, rows untouched. */
  lemma CoverMidway(a: Arena, lay: Layout, live: seq<int>, vert: seq<seq<int>>, c: int, n: int)
    requires Valid(a, lay, live, vert) && c in live
    requires 0 <= n <= |CoverTrace(lay, vert[c])|
    ensures var ts, h := CoverTrace(lay, vert[c]), UnlinkFromHeader(a, c);
      var s := UnlinkAll(h, ts[..n]);
      && Columns(s, lay.ncols) && s.horiz == h.horiz && s.column == a.column
      && Shaped(s, lay) && RowsOK(s, lay) && ProperAll(h, ts[..n])
      && Cycle(s.vert, [c] + vert[c]) && RingOf(a, lay, c, vert[c])
      && (forall k :: 0 <= k < |ts| ==> TraceNode(a, lay, vert, c, ts[k]))
  {
    var ts, h := CoverTrace(lay, vert[c]), UnlinkFromHeader(a, c);
    HeaderAfterUnlink(a, lay, live, c);
    UnlinkWrites(a.horiz, c);
    VertRingsFrame(a, h, lay.ncols, vert);
    TraceNodes(a, lay, live, vert, c);
    UnlinkPrefix(h, lay.ncols, vert, ts, n);
    var s := UnlinkAll(h, ts[..n]);
    RowsFrame(h, s, lay);
    ShapedFrame(a, s, lay);
    assert 1 <= c <= lay.ncols;
    ColumnRingOf(a, lay, c, vert[c]);
    NotYetUnlinked(a, lay, vert, c, ts, n);
    assert ColumnRing(s, c, Remaining(vert, Elems(ts[..n]))[c]);
  }

  lemma NotYetUnlinked(a: Arena, lay: Layout, vert: seq<seq<int>>, c: int, ts: seq<int>, n: int)
    requires 0 <= c < |vert| && RingOf(a, lay, c, vert[c]) && 0 <= n <= |ts|
    requires forall k :: 0 <= k < |ts| ==> TraceNode(a, lay, vert, c, ts[k])
    ensures Keep(vert[c], Elems(ts[..n])) == vert[c]
  {
    forall k | 0 <= k < |vert[c]| ensures vert[c][k] !in Elems(ts[..n]) {
      forall q | 0 <= q < n ensures ts[..n][q] != vert[c][k] {
        assert TraceNode(a, lay, vert, c, ts[q]);
      }
    }
    KeepNone(vert[c], Elems(ts[..n]));
  }

  /** One vertical unlink of cover(c): the node is the next one of the
      trace, all the fields the splice touches exist, and the result is the
      state after one more unlink. */
  lemma CoverStep(a: Arena, lay: Layout, live: seq<int>, vert: seq<seq<int>>, c: int, n: int)
    requires Valid(a, lay, live, vert) && c in live
    requires 0 <= n < |CoverTrace(lay, vert[c])|
    ensures var ts, h := CoverTrace(lay, vert[c]), UnlinkFromHeader(a, c);
      var s, j := UnlinkAll(h, ts[..n]), ts[n];
      && 1 <= j < |s.column| && Linkable(s.vert, j) && 1 <= s.column[j] < |s.size|
      && UnlinkAll(h, ts[..n + 1]) == UnlinkFromColumn(s, j)
  {
    var ts, h := CoverTrace(lay, vert[c]), UnlinkFromHeader(a, c);
    CoverMidway(a, lay, live, vert, c, n);
    assert TraceNode(a, lay, vert, c, ts[n]);
    UnlinkAllSnoc(h, ts, n);
  }

  lemma UnlinkAllSnoc(h: Arena, ts: seq<int>, n: int)
    requires 0 <= n < |ts|
    ensures UnlinkAll(h, ts[..n + 1]) == UnlinkFromColumn(UnlinkAll(h, ts[..n]), ts[n])
  {
    assert ts[..n + 1][..n] == ts[..n];
  }

  /** One vertical relink of uncover(c), walking the trace backwards. */
  lemma UncoverStep(a: Arena, lay: Layout, live: seq<int>, vert: seq<seq<int>>, c: int, n: int)
    requires Valid(a, lay, live, vert) && c in live
    requires 0 < n <= |CoverTrace(lay, vert[c])|
    ensures var ts, h := CoverTrace(lay, vert[c]), UnlinkFromHeader(a, c);
      var s, j := UnlinkAll(h, ts[..n]), ts[n - 1];
      && 1 <= j < |s.column| && Linkable(s.vert, j) && 1 <= s.column[j] < |s.size|
      && RelinkIntoColumn(s, j) == UnlinkAll(h, ts[..n - 1])
  {
    var ts, h := CoverTrace(lay, vert[c]), UnlinkFromHeader(a, c);
    CoverMidway(a, lay, live, vert, c, n);
    CoverMidway(a, lay, live, vert, c, n - 1);
    assert TraceNode(a, lay, vert, c, ts[n - 1]);
    var pre := ts[..n];
    assert pre[..n - 1] == ts[..n - 1] && pre[n - 1] == ts[n - 1];
    RelinkAfterUnlink(UnlinkAll(h, ts[..n - 1]), ts[n - 1]);
  }

  /** Where the walks of cover(c) and uncover(c) stand after m rows of c: the
      trace so far, and the next row's other nodes following it. */
  lemma TraceRow(lay: Layout, ring: seq<int>, m: int)
    requires 0 <= m < |ring|
    ensures var ts := CoverTrace(lay, ring);
      var n, o := |CoverTrace(lay, ring[..m])|, Others(lay, ring[m]);
      && n + |o| == |CoverTrace(lay, ring[..m + 1])| <= |ts|
      && ts[n..n + |o|] == o
  {
    var ts := CoverTrace(lay, ring);
    var n, o := |CoverTrace(lay, ring[..m])|, Others(lay, ring[m]);
    var pre := CoverTrace(lay, ring[..m + 1]);
    TraceSnoc(lay, ring, m);
    TracePrefix(lay, ring, m + 1);
    assert pre == CoverTrace(lay, ring[..m]) + o;
    assert ts[..|pre|] == pre;
    assert pre[n..] == o;
  }

  /** Row m of column c, read from its node in c. */
  lemma RowOfColumn(a: Arena, lay: Layout, live: seq<int>, vert: seq<seq<int>>, c: int, m: int)
    requires Valid(a, lay, live, vert) && c in live && 0 <= m < |vert[c]|
    ensures var i := vert[c][m];
      && Cycle(a.horiz, [i] + Others(lay, i)) && lay.ncols < i < |a.column|
      && (forall x :: x in Others(lay, i) ==> lay.ncols < x < |a.column|)
  {
    assert 1 <= c <= lay.ncols && ColumnRing(a, c, vert[c]);
    ColumnRingOf(a, lay, c, vert[c]);
    OthersRing(a, lay, vert[c][m]);
  }

  /** Row m of column c as cover(c) walks it: header unlinking leaves the
      row's ring alone. */
  lemma RowAfterHeader(a: Arena, lay: Layout, live: seq<int>, vert: seq<seq<int>>, c: int, m: int)
    requires Valid(a, lay, live, vert) && c in live && 0 <= m < |vert[c]|
    ensures var i, lk := vert[c][m], UnlinkFromHeader(a, c).horiz;
      && Cycle(lk, [i] + Others(lay, i))
      && 0 <= i < |lk.next| && (forall x :: x in Others(lay, i) ==> 0 <= x < |lk.next|)
  {
    HeaderAfterUnlink(a, lay, live, c);
    var h := UnlinkFromHeader(a, c);
    UnlinkWrites(a.horiz, c);
    ShapedFrame(a, h, lay);
    assert 1 <= c <= lay.ncols && ColumnRing(a, c, vert[c]);
    ColumnRingOf(a, lay, c, vert[c]);
    OthersRing(h, lay, vert[c][m]);
  }

  // ---------------------------------------------------------------------
  // What the loops of cover(c) and uncover(c) rely on, step by step
  // ---------------------------------------------------------------------

  /** Step n of the trace can be unlinked: its fields exist, and unlinking it
      gives the state after n + 1 steps. */
  ghost predicate CanUnlink(h: Arena, ts: seq<int>, n: int) {
    && 0 <= n < |ts|
    && var s, j := UnlinkAll(h, ts[..n]), ts[n];
    && 1 <= j < |s.column| && Linkable(s.vert, j) && 1 <= s.column[j] < |s.size|
    && UnlinkAll(h, ts[..n + 1]) == UnlinkFromColumn(s, j)
  }

  /** Step n of the trace can be relinked: doing so gives back the state
      after n - 1 steps. */
  ghost predicate CanRelink(h: Arena, ts: seq<int>, n: int) {
    && 0 < n <= |ts|
    && var s, j := UnlinkAll(h, ts[..n]), ts[n - 1];
    && 1 <= j < |s.column| && Linkable(s.vert, j) && 1 <= s.column[j] < |s.size|
    && RelinkIntoColumn(s, j) == UnlinkAll(h, ts[..n - 1])
  }

  /** i's row is a ring of the horizontal links, i first. */
  ghost predicate RowRing(lk: Links, i: int, o: seq<int>) {
    && Cycle(lk, [i] + o)
    && 0 <= i < |lk.next|
    && forall k :: 0 <= k < |o| ==> 0 <= o[k] < |lk.next|
  }

  /** Once the rows of ring[..m+1] are done, ring[m] still points down at
      the next node of c's ring (or back at c). */
  ghost predicate DownAfterRow(h: Arena, lay: Layout, c: int, ring: seq<int>, m: int) {
    && 0 <= m < |ring|
    && |CoverTrace(lay, ring[..m + 1])| <= |CoverTrace(lay, ring)|
    && var s := UnlinkAll(h, CoverTrace(lay, ring)[..|CoverTrace(lay, ring[..m + 1])|]);
    && 0 <= ring[m] < |s.vert.next|
    && s.vert.next[ring[m]] == (if m + 1 < |ring| then ring[m + 1] else c)
  }

  /** Once the rows of ring[m..] are undone, ring[m] still points up at the
      previous node of c's ring (or back at c). */
  ghost predicate UpAfterRow(h: Arena, lay: Layout, c: int, ring: seq<int>, m: int) {
    && 0 <= m < |ring|
    && |CoverTrace(lay, ring[..m])| <= |CoverTrace(lay, ring)|
    && var s := UnlinkAll(h, CoverTrace(lay, ring)[..|CoverTrace(lay, ring[..m])|]);
    && 0 <= ring[m] < |s.vert.prev|
    && s.vert.prev[ring[m]] == (if m > 0 then ring[m - 1] else c)
  }

  lemma RowRingOf(a: Arena, lay: Layout, live: seq<int>, vert: seq<seq<int>>, c: int, m: int)
    requires Valid(a, lay, live, vert) && c in live && 0 <= m < |vert[c]|
    ensures RowRing(UnlinkFromHeader(a, c).horiz, vert[c][m], Others(lay, vert[c][m]))
  {
    RowAfterHeader(a, lay, live, vert, c, m);
    var o := Others(lay, vert[c][m]);
    forall k | 0 <= k < |o| ensures 0 <= o[k] < |UnlinkFromHeader(a, c).horiz.next| {
      assert o[k] in o;
    }
  }

  lemma DownAfterRowOf(a: Arena, lay: Layout, live: seq<int>, vert: seq<seq<int>>, c: int, m: int)
    requires Valid(a, lay, live, vert) && c in live && 0 <= m < |vert[c]|
    ensures DownAfterRow(UnlinkFromHeader(a, c), lay, c, vert[c], m)
  {
    var ring := vert[c];
    TraceRow(lay, ring, m);
    var n := |CoverTrace(lay, ring[..m + 1])|;
    CoverMidway(a, lay, live, vert, c, n);
    DownNeighbour(UnlinkAll(UnlinkFromHeader(a, c), CoverTrace(lay, ring)[..n]).vert, c, ring, m);
  }

  lemma DownNeighbour(lk: Links, c: int, ring: seq<int>, m: int)
    requires Cycle(lk, [c] + ring) && 0 <= m < |ring|
    ensures 0 <= ring[m] < |lk.next| && lk.next[ring[m]] == (if m + 1 < |ring| then ring[m + 1] else c)
  {
    CycleBounds(lk, c, ring);
    RingWalk(lk, c, ring);
  }

  lemma UpAfterRowOf(a: Arena, lay: Layout, live: seq<int>, vert: seq<seq<int>>, c: int, m: int)
    requires Valid(a, lay, live, vert) && c in live && 0 <= m < |vert[c]|
    ensures UpAfterRow(UnlinkFromHeader(a, c), lay, c, vert[c], m)
  {
    var ring := vert[c];
    TraceRow(lay, ring, m);
    var n := |CoverTrace(lay, ring[..m])|;
    CoverMidway(a, lay, live, vert, c, n);
    UpNeighbour(UnlinkAll(UnlinkFromHeader(a, c), CoverTrace(lay, ring)[..n]).vert, c, ring, m);
  }

  lemma UpNeighbour(lk: Links, c: int, ring: seq<int>, m: int)
    requires Cycle(lk, [c] + ring) && 0 <= m < |ring|
    ensures 0 <= ring[m] < |lk.prev| && lk.prev[ring[m]] == (if m > 0 then ring[m - 1] else c)
  {
    CycleBounds(lk, c, ring);
    RingWalk(lk, c, ring);
  }

  lemma CanUnlinkOf(a: Arena, lay: Layout, live: seq<int>, vert: seq<seq<int>>, c: int, n: int)
    requires Valid(a, lay, live, vert) && c in live && 0 <= n < |CoverTrace(lay, vert[c])|
    ensures CanUnlink(UnlinkFromHeader(a, c), CoverTrace(lay, vert[c]), n)
  {
    CoverStep(a, lay, live, vert, c, n);
  }

  lemma CanRelinkOf(a: Arena, lay: Layout, live: seq<int>, vert: seq<seq<int>>, c: int, n: int)
    requires Valid(a, lay, live, vert) && c in live && 0 < n <= |CoverTrace(lay, vert[c])|
    ensures CanRelink(UnlinkFromHeader(a, c), CoverTrace(lay, vert[c]), n)
  {
    UncoverStep(a, lay, live, vert, c, n);
  }

  /** Where the walks of cover(c) and uncover(c) start: c is in the header
      ring, `down` from c reaches c's first node, and once the whole trace is
      unlinked `up` from c reaches its last one; c itself is not in its ring. */
  lemma ColumnEnds(a: Arena, lay: Layout, live: seq<int>, vert: seq<seq<int>>, c: int)
    requires Valid(a, lay, live, vert) && c in live
    ensures var h, ring := UnlinkFromHeader(a, c), vert[c];
      var s := UnlinkAll(h, CoverTrace(lay, ring));
      && Proper(a.horiz, c) && Linkable(h.horiz, c)
      && 0 <= c < |h.vert.next| && h.vert.next[c] == (if ring == [] then c else ring[0])
      && 0 <= c < |s.vert.prev| && s.vert.prev[c] == (if ring == [] then c else ring[|ring| - 1])
      && c !in ring
  {
    var h, ring := UnlinkFromHeader(a, c), vert[c];
    var ts := CoverTrace(lay, ring);
    CoverSound(a, lay, live, vert, c);
    CoverMidway(a, lay, live, vert, c, 0);
    assert ts[..0] == [];
    CycleBounds(h.vert, c, ring);
    RingWalk(h.vert, c, ring);
    CoverMidway(a, lay, live, vert, c, |ts|);
    assert ts[..|ts|] == ts;
    var s := UnlinkAll(h, ts);
    CycleBounds(s.vert, c, ring);
    RingWalk(s.vert, c, ring);
  }

  /** Walking i's row, read as the steps n .. e - 1 of a trace ts. */
  ghost predicate RowSteps(lk: Links, i: int, ts: seq<int>, n: int, e: int) {
    && 0 <= n <= e <= |ts| && |lk.next| == |lk.prev| && 0 <= i < |lk.next|
    && lk.next[i] == (if n < e then ts[n] else i)
    && lk.prev[i] == (if n < e then ts[e - 1] else i)
    && (forall q :: n <= q < e ==> 0 <= ts[q] < |lk.next| && ts[q] != i)
    && (forall q {:trigger lk.next[ts[q]]} :: n <= q < e ==> lk.next[ts[q]] == (if q + 1 < e then ts[q + 1] else i))
    && (forall q {:trigger lk.prev[ts[q]]} :: n <= q < e ==> lk.prev[ts[q]] == (if q > n then ts[q - 1] else i))
  }

  lemma RowStepsOf(lk: Links, i: int, o: seq<int>, ts: seq<int>, n: int, e: int)
    requires RowRing(lk, i, o) && 0 <= n && e == n + |o| <= |ts| && ts[n..e] == o
    ensures RowSteps(lk, i, ts, n, e)
  {
    RingWalk(lk, i, o);
    forall q | n <= q < n + |o| ensures ts[q] == o[q - n] {
      assert ts[n..e][q - n] == ts[q];
    }
  }

  /** Where each row's part of the trace starts: the rows above ring[m]
      contribute the first Starts(lay, ring)[m] steps. */
  function Starts(lay: Layout, ring: seq<int>): (st: seq<int>)
    ensures |st| == |ring| + 1
    ensures forall m :: 0 <= m <= |ring| ==> st[m] == |CoverTrace(lay, ring[..m])|
  {
    seq(|ring| + 1, m requires 0 <= m <= |ring| => |CoverTrace(lay, ring[..m])|)
  }

  /** Row m of c's ring within the walks: its other nodes are the steps
      st[m] .. st[m + 1] - 1 of ts; after those are unlinked ring[m] points
      down at the next row, and before they are relinked it points up at
      the previous one. */
  ghost predicate RowPlan(h: Arena, c: int, ring: seq<int>, ts: seq<int>, st: seq<int>, m: int) {
    && 0 <= m < |ring| && |st| == |ring| + 1
    && 0 <= st[m] <= st[m + 1] <= |ts|
    && ring[m] != c
    && RowSteps(h.horiz, ring[m], ts, st[m], st[m + 1])
    && var d, u := UnlinkAll(h, ts[..st[m + 1]]).vert, UnlinkAll(h, ts[..st[m]]).vert;
    && 0 <= ring[m] < |d.next| && d.next[ring[m]] == (if m + 1 < |ring| then ring[m + 1] else c)
    && 0 <= ring[m] < |u.prev| && u.prev[ring[m]] == (if m > 0 then ring[m - 1] else c)
  }

  /** Everything the walks of cover(c) and uncover(c) meet, h being the
      state once c has left the header ring, ring c's vertical ring, ts its
      trace and st where each row's part of it starts. */
  ghost predicate WalkReady(h: Arena, c: int, ring: seq<int>, ts: seq<int>, st: seq<int>) {
    && |st| == |ring| + 1 && st[0] == 0 && st[|ring|] == |ts|
    && 0 <= c < |h.vert.next| && h.vert.next[c] == (if ring == [] then c else ring[0])
    && var s := UnlinkAll(h, ts);
    && 0 <= c < |s.vert.prev| && s.vert.prev[c] == (if ring == [] then c else ring[|ring| - 1])
    && (forall m :: 0 <= m < |ring| ==> ring[m] != c && 0 <= st[m] <= |ts|)
    && (forall m {:trigger RowPlan(h, c, ring, ts, st, m)} :: 0 <= m < |ring| ==> RowPlan(h, c, ring, ts, st, m))
    && (forall n {:trigger CanUnlink(h, ts, n)} :: 0 <= n < |ts| ==> CanUnlink(h, ts, n))
    && (forall n {:trigger CanRelink(h, ts, n)} :: 0 < n <= |ts| ==> CanRelink(h, ts, n))
  }

  lemma RowPlanOf(a: Arena, lay: Layout, live: seq<int>, vert: seq<seq<int>>, c: int, m: int)
    requires Valid(a, lay, live, vert) && c in live && 0 <= m < |vert[c]|
    ensures var ring := vert[c];
      RowPlan(UnlinkFromHeader(a, c), c, ring, CoverTrace(lay, ring), Starts(lay, ring), m)
  {
    var h, ring := UnlinkFromHeader(a, c), vert[c];
    var ts, st := CoverTrace(lay, ring), Starts(lay, ring);
    assert 0 <= st[m] <= st[m + 1] <= |ts| && RowSteps(h.horiz, ring[m], ts, st[m], st[m + 1]) by {
      TraceRow(lay, ring, m);
      RowRingOf(a, lay, live, vert, c, m);
      RowStepsOf(h.horiz, ring[m], Others(lay, ring[m]), ts, st[m], st[m + 1]);
    }
    assert DownAfterRow(h, lay, c, ring, m) by {
      DownAfterRowOf(a, lay, live, vert, c, m);
    }
    assert UpAfterRow(h, lay, c, ring, m) by {
      UpAfterRowOf(a, lay, live, vert, c, m);
    }
    assert ring[m] != c by {
      ColumnEnds(a, lay, live, vert, c);
    }
    RowPlanFrom(h, lay, c, ring, m);
  }

  lemma RowPlanFrom(h: Arena, lay: Layout, c: int, ring: seq<int>, m: int)
    requires 0 <= m < |ring| && ring[m] != c
    requires var ts, st := CoverTrace(lay, ring), Starts(lay, ring);
      0 <= st[m] <= st[m + 1] <= |ts| && RowSteps(h.horiz, ring[m], ts, st[m], st[m + 1])
    requires DownAfterRow(h, lay, c, ring, m) && UpAfterRow(h, lay, c, ring, m)
    ensures RowPlan(h, c, ring, CoverTrace(lay, ring), Starts(lay, ring), m)
  {
  }

  lemma WalkReadyOf(a: Arena, lay: Layout, live: seq<int>, vert: seq<seq<int>>, c: int)
    requires Valid(a, lay, live, vert) && c in live
    ensures var ring := vert[c];
      && Proper(a.horiz, c) && Linkable(UnlinkFromHeader(a, c).horiz, c)
      && WalkReady(UnlinkFromHeader(a, c), c, ring, CoverTrace(lay, ring), Starts(lay, ring))
  {
    var h, ring := UnlinkFromHeader(a, c), vert[c];
    var ts, st := CoverTrace(lay, ring), Starts(lay, ring);
    var s := UnlinkAll(h, ts);
    assert
      && Proper(a.horiz, c) && Linkable(h.horiz, c)
      && 0 <= c < |h.vert.next| && h.vert.next[c] == (if ring == [] then c else ring[0])
      && 0 <= c < |s.vert.prev| && s.vert.prev[c] == (if ring == [] then c else ring[|ring| - 1])
      && (forall m :: 0 <= m < |ring| ==> ring[m] != c)
    by {
      ColumnEnds(a, lay, live, vert, c);
    }
    assert |st| == |ring| + 1 && st[0] == 0 && st[|ring|] == |ts| by {
      assert ring[..0] == [] && ring[..|ring|] == ring;
    }
    assert forall m :: 0 <= m < |ring| ==> 0 <= st[m] <= |ts| by {
      forall m | 0 <= m < |ring| ensures 0 <= st[m] <= |ts| {
        TraceRow(lay, ring, m);
        TracePrefix(lay, ring, m);
      }
    }
    assert forall m {:trigger RowPlan(h, c, ring, ts, st, m)} :: 0 <= m < |ring| ==> RowPlan(h, c, ring, ts, st, m) by {
      forall m | 0 <= m < |ring| ensures RowPlan(h, c, ring, ts, st, m) {
        RowPlanOf(a, lay, live, vert, c, m);
      }
    }
    assert forall n {:trigger CanUnlink(h, ts, n)} :: 0 <= n < |ts| ==> CanUnlink(h, ts, n) by {
      forall n | 0 <= n < |ts| ensures CanUnlink(h, ts, n) { CanUnlinkOf(a, lay, live, vert, c, n); }
    }
    assert forall n {:trigger CanRelink(h, ts, n)} :: 0 < n <= |ts| ==> CanRelink(h, ts, n) by {
      forall n | 0 < n <= |ts| ensures CanRelink(h, ts, n) { CanRelinkOf(a, lay, live, vert, c, n); }
    }
  }

  /** Vertical unlinks leave the horizontal links and the columns alone. */
  lemma {:induction false} UnlinkAllFrame(h: Arena, ts: seq<int>)
    ensures UnlinkAll(h, ts).horiz == h.horiz && UnlinkAll(h, ts).column == h.column
    decreases |ts|
  {
    if ts != [] {
      UnlinkAllFrame(h, ts[..|ts| - 1]);
    }
  }
}
