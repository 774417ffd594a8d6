/** The piece catalogue: every block kind with its distinct orientations,
    each a 0/1 matrix listed top row first, and the cell count of each kind
    (the `blockSizes` table). */
module Catalog {

  datatype Block = A | B | C | D | I | L | O | S | T | U | X

  /** The order in which the pieces are read from the form and enumerated:
      the insertion order of the keys of `blockCounts`. */
  const Blocks: seq<Block> := [A, B, C, D, I, L, O, S, T, U, X]

  /** A shape: rows of 0/1 entries, 1 marking an occupied cell. */
  type Shape = seq<seq<int>>

  function Orientations(b: Block): seq<Shape> {
    match b
    case A => [[[1]]]
    case B => [[[1, 1]], [[1], [1]]]
    case C => [[[1, 1, 1]], [[1], [1], [1]]]
    case D => [[[1, 0], [1, 1]], [[0, 1], [1, 1]], [[1, 1], [1, 0]], [[1, 1], [0, 1]]]
    case I => [[[1, 1, 1, 1]], [[1], [1], [1], [1]]]
    case L => [[[1, 1, 1], [1, 0, 0]], [[1, 0], [1, 0], [1, 1]],
               [[0, 0, 1], [1, 1, 1]], [[1, 1], [0, 1], [0, 1]]]
    case O => [[[1, 1], [1, 1]]]
    case S => [[[0, 1, 1], [1, 1, 0]], [[1, 0], [1, 1], [0, 1]]]
    case T => [[[1, 1, 1], [0, 1, 0]], [[0, 1, 0], [1, 1, 1]],
               [[1, 0], [1, 1], [1, 0]], [[0, 1], [1, 1], [0, 1]]]
    case U => [[[1, 0, 1], [1, 1, 1]], [[1, 1, 1], [1, 0, 1]],
               [[1, 1], [1, 0], [1, 1]], [[1, 1], [0, 1], [1, 1]]]
    case X => [[[0, 1, 0], [1, 1, 1], [0, 1, 0]]]
  }

  /** The `blockSizes` table. */
  function BlockSize(b: Block): nat {
    match b
    case A => 1
    case B => 2
    case C | D => 3
    case I | L | O | S | T => 4
    case U | X => 5
  }

  /** The number of 1 entries in a row and in a shape. */
  function Ones(row: seq<int>): nat {
    if row == [] then 0 else (if row[0] == 1 then 1 else 0) + Ones(row[1..])
  }

  function Area(shape: Shape): nat {
    if shape == [] then 0 else Ones(shape[0]) + Area(shape[1..])
  }

  /** Non-empty, every row as long as the first, entries 0 or 1. */
  predicate Rectangular(shape: Shape) {
    && |shape| >= 1 && |shape[0]| >= 1
    && (forall i :: 0 <= i < |shape| ==> |shape[i]| == |shape[0]|)
    && (forall i, j :: 0 <= i < |shape| && 0 <= j < |shape[i]| ==> shape[i][j] == 0 || shape[i][j] == 1)
  }

  /** Block b has an orientation, and each of its orientations is a proper
      rectangular shape covering exactly `blockSizes[b]` cells. */
  ghost predicate KindOK(b: Block) {
    && |Orientations(b)| >= 1
    && forall k :: 0 <= k < |Orientations(b)| ==>
         Rectangular(Orientations(b)[k]) && Area(Orientations(b)[k]) == BlockSize(b)
  }

  lemma OrientationsOfA()
    ensures forall k :: 0 <= k < |Orientations(A)| ==>
              Rectangular(Orientations(A)[k]) && Area(Orientations(A)[k]) == BlockSize(A)
  {
  }

  lemma OrientationsOfB()
    ensures forall k :: 0 <= k < |Orientations(B)| ==>
              Rectangular(Orientations(B)[k]) && Area(Orientations(B)[k]) == BlockSize(B)
  {
  }

  lemma OrientationsOfC()
    ensures forall k :: 0 <= k < |Orientations(C)| ==>
              Rectangular(Orientations(C)[k]) && Area(Orientations(C)[k]) == BlockSize(C)
  {
  }

  lemma OrientationsOfD()
    ensures forall k :: 0 <= k < |Orientations(D)| ==>
              Rectangular(Orientations(D)[k]) && Area(Orientations(D)[k]) == BlockSize(D)
  {
  }

  lemma OrientationsOfI()
    ensures forall k :: 0 <= k < |Orientations(I)| ==>
              Rectangular(Orientations(I)[k]) && Area(Orientations(I)[k]) == BlockSize(I)
  {
  }

  lemma OrientationsOfL()
    ensures forall k :: 0 <= k < |Orientations(L)| ==>
              Rectangular(Orientations(L)[k]) && Area(Orientations(L)[k]) == BlockSize(L)
  {
  }

  lemma OrientationsOfO()
    ensures forall k :: 0 <= k < |Orientations(O)| ==>
              Rectangular(Orientations(O)[k]) && Area(Orientations(O)[k]) == BlockSize(O)
  {
  }

  lemma OrientationsOfS()
    ensures forall k :: 0 <= k < |Orientations(S)| ==>
              Rectangular(Orientations(S)[k]) && Area(Orientations(S)[k]) == BlockSize(S)
  {
  }

  lemma OrientationsOfT()
    ensures forall k :: 0 <= k < |Orientations(T)| ==>
              Rectangular(Orientations(T)[k]) && Area(Orientations(T)[k]) == BlockSize(T)
  {
  }

  lemma OrientationsOfU()
    ensures forall k :: 0 <= k < |Orientations(U)| ==>
              Rectangular(Orientations(U)[k]) && Area(Orientations(U)[k]) == BlockSize(U)
  {
  }

  lemma OrientationsOfX()
    ensures forall k :: 0 <= k < |Orientations(X)| ==>
              Rectangular(Orientations(X)[k]) && Area(Orientations(X)[k]) == BlockSize(X)
  {
  }

  /** The orientation table agrees with the `blockSizes` table. */
  lemma CatalogConsistent(b: Block)
    ensures KindOK(b)
  {
    match b
    case A => OrientationsOfA();
    case B => OrientationsOfB();
    case C => OrientationsOfC();
    case D => OrientationsOfD();
    case I => OrientationsOfI();
    case L => OrientationsOfL();
    case O => OrientationsOfO();
    case S => OrientationsOfS();
    case T => OrientationsOfT();
    case U => OrientationsOfU();
    case X => OrientationsOfX();
  }

  /** The area the chosen pieces cover: totalBlockArea, the sum over the
      block kinds of count times size, counts read in `Blocks` order. */
  function TotalArea(counts: seq<int>): (r: int)
    requires |counts| <= |Blocks|
    ensures (forall k :: 0 <= k < |counts| ==> counts[k] >= 0) ==> r >= 0
  {
    if counts == [] then 0
    else TotalArea(counts[..|counts| - 1]) + counts[|counts| - 1] * BlockSize(Blocks[|counts| - 1])
  }

  /** One more piece of kind Blocks[k] adds exactly that piece's size to the
      total area. */
  lemma {:induction false} TotalAreaAddPiece(counts: seq<int>, k: nat)
    requires k < |counts| <= |Blocks|
    ensures TotalArea(counts[k := counts[k] + 1]) == TotalArea(counts) + BlockSize(Blocks[k])
    decreases |counts|
  {
    var n, more := |counts|, counts[k := counts[k] + 1];
    if k == n - 1 {
      assert more[..n - 1] == counts[..n - 1];
    } else {
      assert more[..n - 1] == counts[..n - 1][k := counts[k] + 1];
      TotalAreaAddPiece(counts[..n - 1], k);
    }
  }
}
