/** Circular doubly-linked rings over an arena of integer node indices.

    One `Links` value holds one direction of every node's link fields: for
    the horizontal direction `next` is a node's `right` and `prev` its `left`,
    for the vertical direction `next` is `down` and `prev` is `up`.  The two
    splicing operations of Dancing Links, `Unlink` and `Relink`, are written
    exactly as the node fields are assigned in the solver, and the lemmas
    below are what every later proof about covering rests on. */
module Links {

  datatype Links = Links(next: seq<int>, prev: seq<int>)

  /** The position after k on a ring of m positions. */
  function NextIdx(k: int, m: int): int {
    if k + 1 < m then k + 1 else 0
  }

  /** The position before k on a ring of m positions. */
  function PrevIdx(k: int, m: int): int {
    if k > 0 then k - 1 else m - 1
  }

  predicate Distinct(ys: seq<int>) {
    forall k, k' :: 0 <= k < k' < |ys| ==> ys[k] != ys[k']
  }

  /** Following `next` from ys[0] visits ys in order and comes back to ys[0];
      following `prev` visits them in the opposite order. */
  ghost predicate Cycle(lk: Links, ys: seq<int>) {
    && |lk.next| == |lk.prev|
    && |ys| >= 1
    && Distinct(ys)
    && (forall k :: 0 <= k < |ys| ==> 0 <= ys[k] < |lk.next|)
    && (forall k {:trigger lk.next[ys[k]]} :: 0 <= k < |ys| ==> lk.next[ys[k]] == ys[NextIdx(k, |ys|)])
    && (forall k {:trigger lk.prev[ys[k]]} :: 0 <= k < |ys| ==> lk.prev[ys[k]] == ys[PrevIdx(k, |ys|)])
  }

  /** Node x and both of its neighbours are nodes of the arena. */
  predicate Linkable(lk: Links, x: int) {
    && |lk.next| == |lk.prev|
    && 0 <= x < |lk.next|
    && 0 <= lk.next[x] < |lk.next|
    && 0 <= lk.prev[x] < |lk.next|
  }

  /** Both neighbours of x point back at x. */
  predicate Proper(lk: Links, x: int) {
    Linkable(lk, x) && lk.next[lk.prev[x]] == x && lk.prev[lk.next[x]] == x
  }

  /** x.next.prev := x.prev; then x.prev.next := x.next.  The fields of x
      itself are left as they were, so that `Relink` can undo the splice. */
  function Unlink(lk: Links, x: int): Links {
    if !Linkable(lk, x) then lk
    else
      var prev := lk.prev[lk.next[x] := lk.prev[x]];
      Links(lk.next[prev[x] := lk.next[x]], prev)
  }

  /** x.next.prev := x; then x.prev.next := x. */
  function Relink(lk: Links, x: int): Links {
    if !Linkable(lk, x) then lk
    else
      var prev := lk.prev[lk.next[x] := x];
      Links(lk.next[prev[x] := x], prev)
  }

  /** The two sequences after unlinking x, as updates of the old ones. */
  lemma UnlinkWrites(lk: Links, x: int)
    requires Linkable(lk, x)
    ensures |Unlink(lk, x).next| == |lk.next| && |Unlink(lk, x).prev| == |lk.prev|
    ensures Unlink(lk, x).next == lk.next[lk.prev[x] := lk.next[x]]
    ensures Unlink(lk, x).prev == lk.prev[lk.next[x] := lk.prev[x]]
  {
  }

  /** Unlinking x rewrites two fields and no others: the `next` of x's
      predecessor now skips x, and the `prev` of x's successor skips it
      back.  Every other node's fields, and x's own two fields, keep their
      values. */
  lemma UnlinkFrame(lk: Links, x: int)
    requires Linkable(lk, x)
    ensures var u := Unlink(lk, x);
      && |u.next| == |lk.next| && |u.prev| == |lk.prev|
      && u.next[lk.prev[x]] == lk.next[x] && u.prev[lk.next[x]] == lk.prev[x]
      && u.next[x] == lk.next[x] && u.prev[x] == lk.prev[x]
      && (forall y :: 0 <= y < |lk.next| && y != lk.prev[x] ==> u.next[y] == lk.next[y])
      && (forall y :: 0 <= y < |lk.prev| && y != lk.next[x] ==> u.prev[y] == lk.prev[y])
  {
    UnlinkWrites(lk, x);
  }

  /** An unlinked node's fields can still be rewritten by a later splice of
      a neighbour: in the ring 0, 1, 2, unlinking 1 and then 2 leaves the
      `prev` of 2 at 0, where it was 1 before either splice. */
  lemma NeighbourSpliceMoves()
    ensures var lk := Links([1, 2, 0], [2, 0, 1]);
      Cycle(lk, [0, 1, 2]) && Unlink(Unlink(lk, 1), 2).prev[2] == 0 && lk.prev[2] == 1
  {
    var lk, ys := Links([1, 2, 0], [2, 0, 1]), [0, 1, 2];
    assert forall k :: 0 <= k < 3 ==> ys[k] == k;
  }

  /** Relinking after a proper unlink puts back exactly the old fields. */
  lemma RelinkUndoesUnlink(lk: Links, x: int)
    requires Proper(lk, x)
    ensures Relink(Unlink(lk, x), x) == lk
  {
    var u := Unlink(lk, x);
    UnlinkWrites(lk, x);
    assert u.next[x] == lk.next[x] && u.prev[x] == lk.prev[x];
    var r := Relink(u, x);
    assert r.prev == lk.prev;
    assert r.next == lk.next;
  }

  /** Removing a node other than the first from a ring leaves a ring of the
      remaining nodes, in the same order; the shortened ring zs is given by
      the caller. */
  lemma CycleRemoveTo(lk: Links, ys: seq<int>, p: int, zs: seq<int>)
    requires Cycle(lk, ys) && 1 <= p < |ys| && zs == ys[..p] + ys[p + 1..]
    ensures Proper(lk, ys[p])
    ensures Cycle(Unlink(lk, ys[p]), zs)
  {
    CycleRemove(lk, ys, p);
  }

  lemma CycleRemove(lk: Links, ys: seq<int>, p: int)
    requires Cycle(lk, ys) && 1 <= p < |ys|
    ensures Proper(lk, ys[p])
    ensures Cycle(Unlink(lk, ys[p]), ys[..p] + ys[p + 1..])
  {
    var m := |ys|;
    assert lk.prev[ys[p]] == ys[p - 1];
    assert lk.next[ys[p]] == ys[NextIdx(p, m)];
    assert lk.next[ys[p - 1]] == ys[p];
    assert lk.prev[ys[NextIdx(p, m)]] == ys[p];
    UnlinkWrites(lk, ys[p]);
    var zs := ys[..p] + ys[p + 1..];
    DropDistinct(ys, p);
    forall k | 0 <= k < m - 1 ensures 0 <= zs[k] < |lk.next| {
      assert zs[k] == if k < p then ys[k] else ys[k + 1];
    }
    RemoveNext(lk, ys, p);
    RemovePrev(lk, ys, p);
  }

  lemma DropDistinct(ys: seq<int>, p: int)
    requires Distinct(ys) && 0 <= p < |ys|
    ensures Distinct(ys[..p] + ys[p + 1..])
  {
    var zs := ys[..p] + ys[p + 1..];
    forall k, k' | 0 <= k < k' < |zs| ensures zs[k] != zs[k'] {
      var i := if k < p then k else k + 1;
      var i' := if k' < p then k' else k' + 1;
      assert zs[k] == ys[i] && zs[k'] == ys[i'] && i < i';
    }
  }

  lemma RemoveNext(lk: Links, ys: seq<int>, p: int)
    requires Cycle(lk, ys) && 1 <= p < |ys|
    ensures var zs := ys[..p] + ys[p + 1..];
      forall k :: 0 <= k < |zs| ==> Unlink(lk, ys[p]).next[zs[k]] == zs[NextIdx(k, |zs|)]
  {
    var m := |ys|;
    var a, b := ys[p - 1], ys[NextIdx(p, m)];
    assert lk.prev[ys[p]] == a && lk.next[ys[p]] == b;
    UnlinkWrites(lk, ys[p]);
    var next := Unlink(lk, ys[p]).next;
    assert next == lk.next[a := b];
    var zs := ys[..p] + ys[p + 1..];
    forall k | 0 <= k < m - 1
      ensures next[zs[k]] == zs[NextIdx(k, m - 1)]
    {
      if k == p - 1 {
        assert zs[k] == a;
        if p < m - 1 { assert zs[p] == ys[p + 1]; } else { assert zs[0] == ys[0]; }
      } else if k < p - 1 {
        assert zs[k] == ys[k] && zs[k + 1] == ys[k + 1];
        assert lk.next[ys[k]] == ys[k + 1];
      } else {
        assert zs[k] == ys[k + 1];
        assert lk.next[ys[k + 1]] == ys[NextIdx(k + 1, m)];
        if k + 1 < m - 1 { assert zs[k + 1] == ys[k + 2]; } else { assert zs[0] == ys[0]; }
      }
    }
  }

  lemma RemovePrev(lk: Links, ys: seq<int>, p: int)
    requires Cycle(lk, ys) && 1 <= p < |ys|
    ensures var zs := ys[..p] + ys[p + 1..];
      forall k :: 0 <= k < |zs| ==> Unlink(lk, ys[p]).prev[zs[k]] == zs[PrevIdx(k, |zs|)]
  {
    var m := |ys|;
    var a, b := ys[p - 1], ys[NextIdx(p, m)];
    assert lk.prev[ys[p]] == a && lk.next[ys[p]] == b;
    UnlinkWrites(lk, ys[p]);
    var prev := Unlink(lk, ys[p]).prev;
    assert prev == lk.prev[b := a];
    var zs := ys[..p] + ys[p + 1..];
    forall k | 0 <= k < m - 1
      ensures prev[zs[k]] == zs[PrevIdx(k, m - 1)]
    {
      if p < m - 1 && k == p {
        assert zs[k] == ys[p + 1] == b;
        assert zs[p - 1] == a;
      } else if p == m - 1 && k == 0 {
        assert zs[k] == ys[0] == b;
        assert zs[m - 2] == ys[m - 2] == a;
      } else if k < p {
        assert zs[k] == ys[k] && zs[k] != b;
        assert lk.prev[ys[k]] == ys[PrevIdx(k, m)];
        if k > 0 { assert zs[k - 1] == ys[k - 1]; }
      } else {
        assert zs[k] == ys[k + 1] && zs[k] != b;
        assert lk.prev[ys[k + 1]] == ys[k];
        assert k - 1 >= p - 1;
        if k > p { assert zs[k - 1] == ys[k]; }
      }
    }
  }

  /** Two `Links` that agree on the fields of every node of ys, the second
      possibly over more nodes: a ring of one is a ring of the other. */
  lemma CycleFrame(lk: Links, lk': Links, ys: seq<int>)
    requires Cycle(lk, ys)
    requires |lk'.next| == |lk'.prev| && |lk'.next| >= |lk.next|
    requires forall k :: 0 <= k < |ys| ==> lk'.next[ys[k]] == lk.next[ys[k]] && lk'.prev[ys[k]] == lk.prev[ys[k]]
    ensures Cycle(lk', ys)
  {
    forall k | 0 <= k < |ys| ensures lk'.next[ys[k]] == ys[NextIdx(k, |ys|)] {
      assert lk.next[ys[k]] == ys[NextIdx(k, |ys|)];
    }
    forall k | 0 <= k < |ys| ensures lk'.prev[ys[k]] == ys[PrevIdx(k, |ys|)] {
      assert lk.prev[ys[k]] == ys[PrevIdx(k, |ys|)];
    }
  }

  lemma CycleBounds(lk: Links, h: int, xs: seq<int>)
    requires Cycle(lk, [h] + xs)
    ensures 0 <= h < |lk.next| && forall m :: 0 <= m < |xs| ==> 0 <= xs[m] < |lk.next|
  {
    var ys := [h] + xs;
    assert ys[0] == h;
    forall m | 0 <= m < |xs| ensures 0 <= xs[m] < |lk.next| {
      assert ys[m + 1] == xs[m];
    }
  }

  /** Walking a ring that starts at h: `next` from h reaches xs[0] (or h
      itself when the ring is only h), and from xs[m] reaches xs[m + 1],
      the last one leading back to h; `prev` walks the other way. */
  lemma RingWalk(lk: Links, h: int, xs: seq<int>)
    requires Cycle(lk, [h] + xs)
    requires 0 <= h < |lk.next| && forall m :: 0 <= m < |xs| ==> 0 <= xs[m] < |lk.next|
    ensures lk.next[h] == (if |xs| > 0 then xs[0] else h)
    ensures lk.prev[h] == (if |xs| > 0 then xs[|xs| - 1] else h)
    ensures forall m {:trigger lk.next[xs[m]]} :: 0 <= m < |xs| ==> lk.next[xs[m]] == (if m + 1 < |xs| then xs[m + 1] else h)
    ensures forall m {:trigger lk.prev[xs[m]]} :: 0 <= m < |xs| ==> lk.prev[xs[m]] == (if m > 0 then xs[m - 1] else h)
    ensures forall m :: 0 <= m < |xs| ==> xs[m] != h
  {
    var ys := [h] + xs;
    forall m | 0 <= m < |xs| ensures xs[m] != h {
      assert ys[m + 1] == xs[m] && ys[0] == h;
    }
    assert lk.next[ys[0]] == ys[NextIdx(0, |ys|)];
    assert lk.prev[ys[0]] == ys[PrevIdx(0, |ys|)];
    forall m | 0 <= m < |xs| ensures lk.next[xs[m]] == (if m + 1 < |xs| then xs[m + 1] else h) {
      assert ys[m + 1] == xs[m];
      assert lk.next[ys[m + 1]] == ys[NextIdx(m + 1, |ys|)];
    }
    forall m | 0 <= m < |xs| ensures lk.prev[xs[m]] == (if m > 0 then xs[m - 1] else h) {
      assert ys[m + 1] == xs[m];
      assert lk.prev[ys[m + 1]] == ys[PrevIdx(m + 1, |ys|)];
    }
  }

  /** A ring read from any of its nodes is still a ring. */
  function RotIdx(p: int, k: int, m: int): int {
    if p + k < m then p + k else p + k - m
  }

  /** Rotating ys to start at position p gives a ring of the same links. */
  lemma CycleRotate(lk: Links, ys: seq<int>, p: int, zs: seq<int>)
    requires Cycle(lk, ys) && 0 <= p < |ys| && zs == ys[p..] + ys[..p]
    ensures Cycle(lk, zs)
  {
    RotateAt(ys, p, zs);
    RotateDistinct(ys, p, zs);
    RotateNext(lk.next, ys, p, zs);
    RotatePrev(lk.prev, ys, p, zs);
  }

  lemma RotateAt(ys: seq<int>, p: int, zs: seq<int>)
    requires 0 <= p < |ys| && zs == ys[p..] + ys[..p]
    ensures |zs| == |ys|
    ensures forall k :: 0 <= k < |zs| ==> 0 <= RotIdx(p, k, |ys|) < |ys| && zs[k] == ys[RotIdx(p, k, |ys|)]
  {
  }

  lemma RotateDistinct(ys: seq<int>, p: int, zs: seq<int>)
    requires Distinct(ys) && 0 <= p < |ys| && zs == ys[p..] + ys[..p]
    ensures Distinct(zs)
  {
    var m := |ys|;
    RotateAt(ys, p, zs);
    forall k, k' | 0 <= k < k' < m ensures zs[k] != zs[k'] {
      assert RotIdx(p, k, m) != RotIdx(p, k', m);
    }
  }

  lemma RotateNext(next: seq<int>, ys: seq<int>, p: int, zs: seq<int>)
    requires 0 <= p < |ys| && zs == ys[p..] + ys[..p]
    requires forall k :: 0 <= k < |ys| ==> 0 <= ys[k] < |next|
    requires forall k {:trigger next[ys[k]]} :: 0 <= k < |ys| ==> next[ys[k]] == ys[NextIdx(k, |ys|)]
    ensures forall k {:trigger next[zs[k]]} :: 0 <= k < |zs| ==> next[zs[k]] == zs[NextIdx(k, |zs|)]
  {
    var m := |ys|;
    RotateAt(ys, p, zs);
    forall k | 0 <= k < m ensures next[zs[k]] == zs[NextIdx(k, m)] {
      var i1 := RotIdx(p, k, m);
      assert next[ys[i1]] == ys[NextIdx(i1, m)];
      assert RotIdx(p, NextIdx(k, m), m) == NextIdx(i1, m);
    }
  }

  lemma RotatePrev(prev: seq<int>, ys: seq<int>, p: int, zs: seq<int>)
    requires 0 <= p < |ys| && zs == ys[p..] + ys[..p]
    requires forall k :: 0 <= k < |ys| ==> 0 <= ys[k] < |prev|
    requires forall k {:trigger prev[ys[k]]} :: 0 <= k < |ys| ==> prev[ys[k]] == ys[PrevIdx(k, |ys|)]
    ensures forall k {:trigger prev[zs[k]]} :: 0 <= k < |zs| ==> prev[zs[k]] == zs[PrevIdx(k, |zs|)]
  {
    var m := |ys|;
    RotateAt(ys, p, zs);
    forall k | 0 <= k < m ensures prev[zs[k]] == zs[PrevIdx(k, m)] {
      var i1 := RotIdx(p, k, m);
      assert prev[ys[i1]] == ys[PrevIdx(i1, m)];
      assert RotIdx(p, PrevIdx(k, m), m) == PrevIdx(i1, m);
    }
  }

  /** Two facts about prefixes of a sequence. */
  lemma SliceEnds(xs: seq<int>)
    ensures xs[..0] == [] && xs[..|xs|] == xs
  {
  }

  lemma SnocSlice(xs: seq<int>, k: int)
    requires 0 <= k < |xs|
    ensures xs[..k + 1] == xs[..k] + [xs[k]]
  {
  }
}
