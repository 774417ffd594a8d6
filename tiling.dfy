/** The exact-cover problem startSolving poses for a grid and a choice of
    pieces: one column per grid cell, in row-major order, then one column per
    piece instance, kind by kind; and one candidate row per placement of an
    orientation of a piece instance.  Column names are the strings "y,x" and
    "B_i" of the solver, here a datatype with one constructor for each. */
module Tiling {
  import opened Catalog
  import opened Placements

  datatype Name = CellName(y: int, x: int) | Instance(block: Block, count: int)

  predicate NoDuplicates(ns: seq<Name>) {
    forall k, k' :: 0 <= k < k' < |ns| ==> ns[k] != ns[k']
  }

  function Clamp(n: int): nat {
    if n < 0 then 0 else n
  }

  /** The position of a block kind in `Blocks`. */
  function Index(b: Block): (k: nat)
    ensures k < |Blocks| && Blocks[k] == b
  {
    match b
    case A => 0 case B => 1 case C => 2 case D => 3 case I => 4 case L => 5
    case O => 6 case S => 7 case T => 8 case U => 9 case X => 10
  }

  // ---------------------------------------------------------------------
  // Column names
  // ---------------------------------------------------------------------

  /** The cells of grid row y, left to right. */
  function CellRow(y: int, w: int): seq<Name> {
    seq(Clamp(w), x => CellName(y, x))
  }

  /** The cells of grid rows 0..n-1 in row-major order. */
  function CellNames(w: int, n: nat): seq<Name> {
    if n == 0 then [] else CellNames(w, n - 1) + CellRow(n - 1, w)
  }

  /** The instances of the first n block kinds: kind k contributes
      "k_0" .. "k_{count-1}" (none when its count is not positive). */
  function InstanceNames(counts: seq<int>, n: nat): seq<Name>
    requires n <= |counts| && n <= |Blocks|
  {
    if n == 0 then []
    else InstanceNames(counts, n - 1) + seq(Clamp(counts[n - 1]), i => Instance(Blocks[n - 1], i))
  }

  /** The column names of startSolving, in the order they are pushed. */
  function ColumnNames(w: int, h: int, counts: seq<int>): seq<Name>
    requires |counts| == |Blocks|
  {
    CellNames(w, Clamp(h)) + InstanceNames(counts, |Blocks|)
  }

  method BuildColumns(w: int, h: int, counts: seq<int>) returns (columns: seq<Name>)
    requires |counts| == |Blocks|
    ensures columns == ColumnNames(w, h, counts)
  {
    columns := [];
    var y := 0;
    while y < h
      invariant 0 <= y <= Clamp(h)
      invariant columns == CellNames(w, y)
      decreases h - y
    {
      var x := 0;
      while x < w
        invariant 0 <= x <= Clamp(w)
        invariant columns == CellNames(w, y) + CellRow(y, w)[..x]
        decreases w - x
      {
        columns := columns + [CellName(y, x)];
        x := x + 1;
        assert CellRow(y, w)[..x] == CellRow(y, w)[..x - 1] + [CellName(y, x - 1)];
      }
      assert CellRow(y, w)[..x] == CellRow(y, w);
      y := y + 1;
    }
    ghost var cells := columns;
    var k := 0;
    while k < |Blocks|
      invariant 0 <= k <= |Blocks|
      invariant columns == cells + InstanceNames(counts, k)
    {
      var block := Blocks[k];
      ghost var run := seq(Clamp(counts[k]), i => Instance(block, i));
      var i := 0;
      while i < counts[k]
        invariant 0 <= i <= Clamp(counts[k])
        invariant columns == cells + InstanceNames(counts, k) + run[..i]
        decreases counts[k] - i
      {
        columns := columns + [Instance(block, i)];
        i := i + 1;
        assert run[..i] == run[..i - 1] + [Instance(block, i - 1)];
      }
      assert run[..i] == run;
      k := k + 1;
    }
  }

  lemma {:induction false} CellNamesMembers(w: int, n: nat)
    ensures forall c :: c in CellNames(w, n) <==> c.CellName? && 0 <= c.y < n && 0 <= c.x < w
  {
    if n > 0 {
      CellNamesMembers(w, n - 1);
      forall c: Name | c.CellName? && c.y == n - 1 && 0 <= c.x < w ensures c in CellRow(n - 1, w) {
        assert CellRow(n - 1, w)[c.x] == c;
      }
    }
  }

  lemma {:induction false} CellNamesDistinct(w: int, n: nat)
    ensures NoDuplicates(CellNames(w, n))
  {
    if n > 0 {
      CellNamesDistinct(w, n - 1);
      CellNamesMembers(w, n - 1);
      var pre, row := CellNames(w, n - 1), CellRow(n - 1, w);
      var all := pre + row;
      forall k, k' | 0 <= k < k' < |all| ensures all[k] != all[k'] {
        if k' >= |pre| {
          assert all[k'] == row[k' - |pre|];
          if k < |pre| {
            assert all[k] in pre;
          } else {
            assert all[k] == row[k - |pre|];
          }
        }
      }
    }
  }

  lemma {:induction false} CellNamesCount(w: int, n: nat)
    ensures |CellNames(w, n)| == n * Clamp(w)
  {
    if n > 0 {
      CellNamesCount(w, n - 1);
    }
  }

  lemma {:induction false} InstanceNamesMembers(counts: seq<int>, n: nat)
    requires n <= |counts| && n <= |Blocks|
    ensures forall c :: c in InstanceNames(counts, n) <==>
              c.Instance? && Index(c.block) < n && 0 <= c.count < counts[Index(c.block)]
  {
    if n > 0 {
      InstanceNamesMembers(counts, n - 1);
      var run := seq(Clamp(counts[n - 1]), i => Instance(Blocks[n - 1], i));
      forall c: Name | c.Instance? && Index(c.block) == n - 1 && 0 <= c.count < counts[n - 1] ensures c in run {
        assert run[c.count] == c;
      }
    }
  }

  lemma {:induction false} InstanceNamesDistinct(counts: seq<int>, n: nat)
    requires n <= |counts| && n <= |Blocks|
    ensures NoDuplicates(InstanceNames(counts, n))
  {
    if n > 0 {
      InstanceNamesDistinct(counts, n - 1);
      InstanceNamesMembers(counts, n - 1);
      var pre, run := InstanceNames(counts, n - 1), seq(Clamp(counts[n - 1]), i => Instance(Blocks[n - 1], i));
      var all := pre + run;
      forall k, k' | 0 <= k < k' < |all| ensures all[k] != all[k'] {
        if k' >= |pre| {
          assert all[k'] == run[k' - |pre|];
          if k < |pre| {
            assert all[k] in pre;
          } else {
            assert all[k] == run[k - |pre|];
          }
        }
      }
    }
  }

  /** Each grid cell and each piece instance names exactly one column. */
  lemma ColumnNamesOf(w: int, h: int, counts: seq<int>)
    requires |counts| == |Blocks|
    ensures NoDuplicates(ColumnNames(w, h, counts))
    ensures forall c :: c in ColumnNames(w, h, counts) <==>
              (c.CellName? && 0 <= c.y < h && 0 <= c.x < w) ||
              (c.Instance? && 0 <= c.count < counts[Index(c.block)])
  {
    var cells, insts := CellNames(w, Clamp(h)), InstanceNames(counts, |Blocks|);
    CellNamesMembers(w, Clamp(h));
    CellNamesDistinct(w, Clamp(h));
    InstanceNamesMembers(counts, |Blocks|);
    InstanceNamesDistinct(counts, |Blocks|);
    var all := cells + insts;
    forall k, k' | 0 <= k < k' < |all| ensures all[k] != all[k'] {
      if k < |cells| && k' < |cells| {
        assert all[k] == cells[k] && all[k'] == cells[k'];
      } else if k >= |cells| {
        assert all[k] == insts[k - |cells|] && all[k'] == insts[k' - |cells|];
      } else {
        assert all[k] in cells && all[k'] in insts;
      }
    }
  }

  // ---------------------------------------------------------------------
  // Candidate rows
  // ---------------------------------------------------------------------

  /** An entry of allPlacements: instance `count` of `block` occupying `cells`. */
  datatype Placement = Placement(block: Block, cells: seq<Cell>, count: int)

  /** The placements of one orientation, tagged with their instance. */
  function Tagged(block: Block, count: int, ps: seq<seq<Cell>>): (r: seq<Placement>)
    ensures |r| == |ps|
    ensures forall i :: 0 <= i < |r| ==> r[i] == Placement(block, ps[i], count)
  {
    if ps == [] then [] else Tagged(block, count, ps[..|ps| - 1]) + [Placement(block, ps[|ps| - 1], count)]
  }

  /** getAllPlacements of each orientation, in order. */
  function Layouts(shapes: seq<Shape>, w: int, h: int): (r: seq<seq<seq<Cell>>>)
    ensures |r| == |shapes| && forall o :: 0 <= o < |r| ==> r[o] == AllPlacements(shapes[o], w, h)
  {
    seq(|shapes|, o requires 0 <= o < |shapes| => AllPlacements(shapes[o], w, h))
  }

  /** The placements of instance `count` of block for the first n of its
      orientations, `lists[o]` holding the placements of orientation o. */
  function ShapesPlacements(block: Block, count: int, lists: seq<seq<seq<Cell>>>, n: nat): seq<Placement>
    requires n <= |lists|
  {
    if n == 0 then [] else ShapesPlacements(block, count, lists, n - 1) + Tagged(block, count, lists[n - 1])
  }

  /** The placements of instance `count` of block, all orientations. */
  function InstancePlacements(block: Block, count: int, lists: seq<seq<seq<Cell>>>): seq<Placement> {
    ShapesPlacements(block, count, lists, |lists|)
  }

  /** The placements of instances 0..n-1 of block. */
  function InstancesPlacements(block: Block, lists: seq<seq<seq<Cell>>>, n: nat): seq<Placement> {
    if n == 0 then [] else InstancesPlacements(block, lists, n - 1) + InstancePlacements(block, n - 1, lists)
  }

  /** allPlacements before the shuffle, for the first n block kinds. */
  function Candidates(counts: seq<int>, n: nat, w: int, h: int): seq<Placement>
    requires n <= |counts| && n <= |Blocks|
  {
    if n == 0 then []
    else Candidates(counts, n - 1, w, h) + InstancesPlacements(Blocks[n - 1], Layouts(Orientations(Blocks[n - 1]), w, h), Clamp(counts[n - 1]))
  }

  /** The loops of startSolving that fill allPlacements: for each block
      kind, each instance, each orientation, each placement. */
  method EnumeratePlacements(w: int, h: int, counts: seq<int>) returns (all: seq<Placement>)
    requires |counts| == |Blocks|
    ensures all == Candidates(counts, |Blocks|, w, h)
  {
    all := [];
    var k := 0;
    while k < |Blocks|
      invariant 0 <= k <= |Blocks|
      invariant all == Candidates(counts, k, w, h)
    {
      var block := Blocks[k];
      all := PushInstances(all, block, Orientations(block), counts[k], w, h);
      CandidatesSnoc(counts, k, w, h);
      k := k + 1;
    }
  }

  /** The instances loop: the placements of instances 0..n-1 of block. */
  method PushInstances(all: seq<Placement>, block: Block, shapes: seq<Shape>, n: int, w: int, h: int)
    returns (all': seq<Placement>)
    ensures all' == all + InstancesPlacements(block, Layouts(shapes, w, h), Clamp(n))
  {
    all' := all;
    var count := 0;
    ghost var lists := Layouts(shapes, w, h);
    while count < n
      invariant 0 <= count <= Clamp(n)
      invariant all' == all + InstancesPlacements(block, lists, count)
      decreases n - count
    {
      ghost var cur := all';
      all' := PushShapes(all', block, count, shapes, w, h);
      InstancesStep(all, cur, all', block, lists, count);
      count := count + 1;
    }
  }

  /** BLOCKS[block].forEach: the placements of every orientation of the block. */
  method PushShapes(all: seq<Placement>, block: Block, count: int, shapes: seq<Shape>, w: int, h: int)
    returns (all': seq<Placement>)
    ensures all' == all + InstancePlacements(block, count, Layouts(shapes, w, h))
  {
    all' := all;
    var s := 0;
    ghost var lists := Layouts(shapes, w, h);
    while s < |shapes|
      invariant 0 <= s <= |shapes|
      invariant all' == all + ShapesPlacements(block, count, lists, s)
    {
      ghost var cur := all';
      all' := PushOrientation(all', block, count, shapes[s], w, h);
      ShapesStep(all, cur, all', block, count, lists, s);
      s := s + 1;
    }
  }

  /** getAllPlacements of one orientation, each placement pushed in order. */
  method PushOrientation(all: seq<Placement>, block: Block, count: int, shape: Shape, w: int, h: int)
    returns (all': seq<Placement>)
    ensures all' == all + Tagged(block, count, AllPlacements(shape, w, h))
  {
    var placements := GetAllPlacements(shape, w, h);
    all' := PushTagged(all, block, count, placements);
  }

  /** placements.forEach: push each placement tagged with its instance. */
  method PushTagged(all: seq<Placement>, block: Block, count: int, placements: seq<seq<Cell>>) returns (all': seq<Placement>)
    ensures all' == all + Tagged(block, count, placements)
  {
    all' := all;
    var p := 0;
    while p < |placements|
      invariant 0 <= p <= |placements|
      invariant all' == all + Tagged(block, count, placements[..p])
    {
      all' := all' + [Placement(block, placements[p], count)];
      Associative(all, Tagged(block, count, placements[..p]), [Placement(block, placements[p], count)]);
      p := p + 1;
      assert placements[..p][..p - 1] == placements[..p - 1];
    }
    assert placements[..p] == placements;
  }

  lemma CandidatesSnoc(counts: seq<int>, k: nat, w: int, h: int)
    requires k < |counts| && k < |Blocks|
    ensures Candidates(counts, k + 1, w, h) ==
            Candidates(counts, k, w, h) + InstancesPlacements(Blocks[k], Layouts(Orientations(Blocks[k]), w, h), Clamp(counts[k]))
  {
  }

  lemma ShapesSnoc(block: Block, count: int, lists: seq<seq<seq<Cell>>>, s: nat)
    requires s < |lists|
    ensures ShapesPlacements(block, count, lists, s + 1) ==
            ShapesPlacements(block, count, lists, s) + Tagged(block, count, lists[s])
  {
  }

  /** One turn of PushInstances' loop. */
  lemma InstancesStep(all: seq<Placement>, cur: seq<Placement>, next: seq<Placement>,
                      block: Block, lists: seq<seq<seq<Cell>>>, count: nat)
    requires cur == all + InstancesPlacements(block, lists, count)
    requires next == cur + InstancePlacements(block, count, lists)
    ensures next == all + InstancesPlacements(block, lists, count + 1)
  {
    Associative(all, InstancesPlacements(block, lists, count), InstancePlacements(block, count, lists));
  }

  /** One turn of PushShapes' loop. */
  lemma ShapesStep(all: seq<Placement>, cur: seq<Placement>, next: seq<Placement>,
                   block: Block, count: int, lists: seq<seq<seq<Cell>>>, s: nat)
    requires s < |lists| && cur == all + ShapesPlacements(block, count, lists, s)
    requires next == cur + Tagged(block, count, lists[s])
    ensures next == all + ShapesPlacements(block, count, lists, s + 1)
  {
    ShapesSnoc(block, count, lists, s);
    Associative(all, ShapesPlacements(block, count, lists, s), Tagged(block, count, lists[s]));
  }

  lemma Associative(a: seq<Placement>, b: seq<Placement>, c: seq<Placement>)
    ensures (a + b) + c == a + (b + c)
  {
  }

  // ---------------------------------------------------------------------
  // What the candidates are
  // ---------------------------------------------------------------------

  /** cells is one of the placements of the first n orientations. */
  ghost predicate Placed(lists: seq<seq<seq<Cell>>>, n: int, cells: seq<Cell>) {
    exists o :: 0 <= o < n && o < |lists| && cells in lists[o]
  }

  /** cells is one of the placements of some orientation. */
  ghost predicate Fits(lists: seq<seq<seq<Cell>>>, cells: seq<Cell>) {
    Placed(lists, |lists|, cells)
  }

  lemma TaggedMembers(block: Block, count: int, ps: seq<seq<Cell>>)
    ensures forall q: Placement :: q in Tagged(block, count, ps) <==> q.block == block && q.count == count && q.cells in ps
  {
    var t := Tagged(block, count, ps);
    forall q: Placement | q.block == block && q.count == count && q.cells in ps ensures q in t {
      var i :| 0 <= i < |ps| && ps[i] == q.cells;
      assert t[i] == q;
    }
  }

  lemma {:induction false} ShapesMembers(block: Block, count: int, lists: seq<seq<seq<Cell>>>, n: nat)
    requires n <= |lists|
    ensures forall q: Placement :: q in ShapesPlacements(block, count, lists, n) <==>
              q.block == block && q.count == count && Placed(lists, n, q.cells)
  {
    if n > 0 {
      ShapesMembers(block, count, lists, n - 1);
      TaggedMembers(block, count, lists[n - 1]);
      forall q: Placement | q.block == block && q.count == count && Placed(lists, n, q.cells)
        ensures q in ShapesPlacements(block, count, lists, n)
      {
        var o :| 0 <= o < n && o < |lists| && q.cells in lists[o];
        if o < n - 1 {
          assert Placed(lists, n - 1, q.cells);
        }
      }
    }
  }

  lemma {:induction false} InstancesMembers(block: Block, lists: seq<seq<seq<Cell>>>, n: nat)
    ensures forall q: Placement :: q in InstancesPlacements(block, lists, n) <==>
              q.block == block && 0 <= q.count < n && Fits(lists, q.cells)
  {
    if n > 0 {
      InstancesMembers(block, lists, n - 1);
      ShapesMembers(block, n - 1, lists, |lists|);
    }
  }

  lemma {:induction false} CandidatesMembers(counts: seq<int>, n: nat, w: int, h: int)
    requires n <= |counts| && n <= |Blocks|
    ensures forall q: Placement :: q in Candidates(counts, n, w, h) <==>
              Index(q.block) < n && 0 <= q.count < counts[Index(q.block)] && Fits(Layouts(Orientations(q.block), w, h), q.cells)
  {
    if n > 0 {
      var b := Blocks[n - 1];
      CandidatesMembers(counts, n - 1, w, h);
      InstancesMembers(b, Layouts(Orientations(b), w, h), Clamp(counts[n - 1]));
      IndexOf(n - 1);
      forall q: Placement
        ensures q in Candidates(counts, n, w, h) <==>
                Index(q.block) < n && 0 <= q.count < counts[Index(q.block)] && Fits(Layouts(Orientations(q.block), w, h), q.cells)
      {
        if q.block != b {
          assert q in Candidates(counts, n, w, h) <==> q in Candidates(counts, n - 1, w, h);
        }
      }
    }
  }

  /** Index inverts `Blocks`. */
  lemma IndexOf(k: nat)
    requires k < |Blocks|
    ensures Index(Blocks[k]) == k
  {
  }

  /** The names a candidate row looks up: its cells, then its instance. */
  function RowNames(q: Placement): (r: seq<Name>)
    ensures |r| == |q.cells| + 1 && r[|q.cells|] == Instance(q.block, q.count)
    ensures forall i :: 0 <= i < |q.cells| ==> r[i] == CellName(q.cells[i].y, q.cells[i].x)
  {
    seq(|q.cells|, i requires 0 <= i < |q.cells| => CellName(q.cells[i].y, q.cells[i].x)) + [Instance(q.block, q.count)]
  }

  /** A row's names are its cells' names and its instance's name. */
  lemma RowNamesMembers(q: Placement)
    ensures forall y, x :: CellName(y, x) in RowNames(q) <==> Cell(y, x) in q.cells
    ensures forall b, i :: Instance(b, i) in RowNames(q) <==> b == q.block && i == q.count
  {
    var r := RowNames(q);
    forall y, x ensures CellName(y, x) in r <==> Cell(y, x) in q.cells {
      if Cell(y, x) in q.cells {
        var i :| 0 <= i < |q.cells| && q.cells[i] == Cell(y, x);
        assert r[i] == CellName(y, x);
      }
    }
    assert r[|q.cells|] == Instance(q.block, q.count);
  }

  /** Every candidate occupies blockSizes[block] distinct cells of the grid
      and one instance column, all of which are columns of the matrix. */
  lemma CandidateRow(counts: seq<int>, w: int, h: int, q: Placement)
    requires |counts| == |Blocks| && q in Candidates(counts, |Blocks|, w, h)
    ensures |q.cells| == BlockSize(q.block)
    ensures NoDuplicates(RowNames(q))
    ensures forall n :: n in RowNames(q) ==> n in ColumnNames(w, h, counts)
  {
    CandidatesMembers(counts, |Blocks|, w, h);
    var shapes := Orientations(q.block);
    var lists := Layouts(shapes, w, h);
    assert Fits(lists, q.cells);
    var o :| 0 <= o < |lists| && q.cells in lists[o];
    CatalogConsistent(q.block);
    PlacementCells(shapes[o], w, h, q.cells);
    ColumnNamesOf(w, h, counts);
    var r := RowNames(q);
    forall k, k' | 0 <= k < k' < |r| ensures r[k] != r[k'] {
    }
  }
}
