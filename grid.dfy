/** computeGridDimensions: the most square factorisation width * height of
    the total area of the chosen pieces.  The loop tries every height h with
    h <= sqrt(area) (for integers: h * h <= area), keeps a divisor only when it
    strictly improves the difference |width - height|, and starts from the
    pair (1, area) with difference area - 1. */
module Grid {

  function Abs(x: int): (r: int)
    ensures r >= 0 && (r == x || r == -x)
  {
    if x < 0 then -x else x
  }

  /** The three accumulators of the loop: bestWidth, bestHeight, minDifference. */
  datatype Best = Best(width: int, height: int, diff: int)

  /** The accumulators once the heights 1..n have been examined. */
  function Scan(area: int, n: nat): Best {
    if n == 0 then Best(1, area, area - 1)
    else
      var b := Scan(area, n - 1);
      if area % n == 0 && Abs(area / n - n) < b.diff then Best(area / n, n, Abs(area / n - n)) else b
  }

  /** The integer square root: the last height the loop examines (0 when the
      area is not positive, where the loop does not run at all). */
  function Root(area: int): (r: nat)
    ensures area >= 0 ==> r * r <= area < (r + 1) * (r + 1)
    ensures area <= 0 ==> r == 0
    decreases area
  {
    if area <= 0 then 0
    else
      var s := Root(area - 1);
      if (s + 1) * (s + 1) <= area then s + 1 else s
  }

  /** The result of computeGridDimensions for the given area. */
  function Dimensions(area: int): (int, int) {
    var b := Scan(area, Root(area));
    (b.width, b.height)
  }

  /** area has a divisor d with 1 < d and d * d <= area, i.e. it is composite. */
  ghost predicate HasLowDivisor(area: int) {
    exists d :: 1 < d && d * d <= area && area % d == 0
  }

  // ---------------------------------------------------------------------
  // The loop
  // ---------------------------------------------------------------------

  method ComputeGridDimensions(totalArea: int) returns (width: int, height: int)
    ensures (width, height) == Dimensions(totalArea)
    ensures totalArea >= 1 ==> width * height == totalArea
    ensures totalArea >= 1 ==> forall d :: 1 <= d <= totalArea && totalArea % d == 0 ==>
              Abs(width - height) <= Abs(totalArea / d - d)
    ensures totalArea <= 0 ==> width == 1 && height == totalArea
  {
    width, height := 1, totalArea;
    var minDifference := totalArea - 1;
    var h := 1;
    while h * h <= totalArea
      invariant h >= 1
      invariant h == 1 || (h - 1) * (h - 1) <= totalArea
      invariant Best(width, height, minDifference) == Scan(totalArea, h - 1)
      decreases totalArea - h
    {
      if totalArea % h == 0 {
        var w := totalArea / h;
        var diff := Abs(w - h);
        if diff < minDifference {
          minDifference := diff;
          width := w;
          height := h;
        }
      }
      h := h + 1;
    }
    RootUnique(totalArea, h - 1);
    if totalArea >= 1 {
      DimensionsProduct(totalArea);
      DimensionsMostSquare(totalArea);
    }
  }

  // ---------------------------------------------------------------------
  // Arithmetic helpers
  // ---------------------------------------------------------------------

  lemma MulLe(a: int, b: int, d: int)
    requires d >= 0 && a <= b
    ensures a * d <= b * d
  {
  }

  lemma MulLt(a: int, b: int, d: int)
    requires d > 0 && a < b
    ensures a * d < b * d
  {
  }

  lemma MulCancelLe(a: int, b: int, d: int)
    requires d > 0 && a * d <= b * d
    ensures a <= b
  {
  }

  lemma MulCancelLt(a: int, b: int, d: int)
    requires d > 0 && a * d < b * d
    ensures a < b
  {
  }

  lemma MulPos(x: int, d: int)
    requires d > 0 && x * d > 0
    ensures x > 0
  {
  }

  lemma SquareMono(a: int, b: int)
    requires 0 <= a <= b
    ensures a * a <= b * b
  {
  }

  lemma SquareCancel(a: int, b: int)
    requires 0 <= a && 0 <= b && a * a < b * b
    ensures a < b
  {
  }

  /** The quotient of an exact division. */
  lemma Quotient(area: int, d: int)
    requires 1 <= d && area % d == 0
    ensures (area / d) * d == area
  {
  }

  lemma SmallMultiple(k: int, q: int)
    requires q > 0 && -q < k * q < q
    ensures k == 0
  {
  }

  /** Dividing a product by one factor leaves the other. */
  lemma ExactDiv(m: int, q: int, a: int)
    requires q > 0 && m == a * q
    ensures m % q == 0 && m / q == a
  {
    var a', r' := m / q, m % q;
    assert (a - a') * q == r';
    SmallMultiple(a - a', q);
  }

  /** r is the only natural number whose square fits below area < (r+1)^2. */
  lemma RootUnique(area: int, r: int)
    requires r >= 0
    requires r == 0 || r * r <= area
    requires area < (r + 1) * (r + 1)
    ensures r == Root(area)
  {
    var s := Root(area);
    if area < 0 {
      if r > 0 { SquareMono(1, r); }
    } else {
      if r > 0 { SquareCancel(r, s + 1); }
      SquareCancel(s, r + 1);
    }
  }

  /** Every height whose square fits in the area is examined by the loop. */
  lemma RootAbove(area: int, e: int)
    requires e >= 0 && e * e <= area
    ensures e <= Root(area)
  {
    SquareCancel(e, Root(area) + 1);
  }

  /** For a low divisor d the quotient is at least d. */
  lemma QuotientAbove(area: int, d: int)
    requires 1 <= d && d * d <= area && area % d == 0
    ensures area / d >= d
  {
    Quotient(area, d);
    MulCancelLe(d, area / d, d);
  }

  /** A larger divisor has a smaller quotient. */
  lemma QuotientShrinks(area: int, d: int, e: int)
    requires 1 <= d < e && area >= 1 && area % d == 0 && area % e == 0
    ensures area / e < area / d
  {
    Quotient(area, d);
    Quotient(area, e);
    var p, q := area / d, area / e;
    MulPos(p, d);
    MulLt(d, e, p);
    MulCancelLt(q, p, e);
  }

  /** The difference of a low divisor pair exceeds that of a larger one. */
  lemma DiffShrinks(area: int, d: int, e: int)
    requires 1 <= d < e && e * e <= area && area % d == 0 && area % e == 0
    ensures 0 <= area / e - e < area / d - d
  {
    QuotientShrinks(area, d, e);
    QuotientAbove(area, e);
  }

  // ---------------------------------------------------------------------
  // What the scan computes
  // ---------------------------------------------------------------------

  /** The largest divisor of area among 2..n, or 1 when there is none. */
  function LowDivisor(area: int, n: nat): (d: nat)
    ensures 1 <= d && (d == 1 || n >= d)
    ensures d > 1 ==> area % d == 0
    ensures forall e :: d < e <= n ==> area % e != 0
  {
    if n <= 1 then 1
    else if area % n == 0 then n
    else LowDivisor(area, n - 1)
  }

  /** The first divisor the loop meets after h = 1 replaces the starting pair. */
  lemma FirstDivisorWins(area: int, n: int)
    requires 2 <= n && n * n <= area && area % n == 0
    ensures 0 <= area / n - n < area - 1
  {
    QuotientAbove(area, n);
    Quotient(area, n);
    MulLe(2, n, area / n);
  }

  /** The accumulators after heights 1..n hold the pair of the largest low
      divisor seen, or the starting pair (1, area) when there was none: the
      pair (area, 1) found at h = 1 only ties with it and is not taken. */
  lemma {:induction false} ScanLowDivisor(area: int, n: nat)
    requires area >= 1 && n * n <= area
    ensures var d := LowDivisor(area, n);
            Scan(area, n) == if d == 1 then Best(1, area, area - 1) else Best(area / d, d, area / d - d)
  {
    if n > 1 {
      SquareMono(n - 1, n);
      ScanLowDivisor(area, n - 1);
      var d := LowDivisor(area, n - 1);
      if area % n == 0 {
        if d == 1 {
          FirstDivisorWins(area, n);
        } else {
          DiffShrinks(area, d, n);
        }
      }
    }
  }

  /** A divisor pair has the difference of its smaller side's pair. */
  lemma PairOfLowSide(area: int, d: int) returns (e: int)
    requires area >= 1 && 1 <= d && area % d == 0
    ensures 1 <= e && e * e <= area && area % e == 0
    ensures Abs(area / d - d) == area / e - e
  {
    Quotient(area, d);
    var q := area / d;
    if d * d <= area {
      QuotientAbove(area, d);
      e := d;
    } else {
      MulPos(q, d);
      MulCancelLt(q, d, d);
      MulLe(q, d, q);
      ExactDiv(area, q, d);
      e := q;
    }
  }

  /** The scan ends on a divisor other than 1 exactly when the area is composite. */
  lemma LowDivisorFound(area: int)
    requires area >= 1
    ensures LowDivisor(area, Root(area)) > 1 <==> HasLowDivisor(area)
  {
    var n := Root(area);
    var best := LowDivisor(area, n);
    if best > 1 {
      SquareMono(best, n);
      assert 1 < best && best * best <= area && area % best == 0;
    }
    if HasLowDivisor(area) {
      var d :| 1 < d && d * d <= area && area % d == 0;
      RootAbove(area, d);
    }
  }

  // ---------------------------------------------------------------------
  // Properties of the result
  // ---------------------------------------------------------------------

  lemma DimensionsProduct(area: int)
    requires area >= 1
    ensures Dimensions(area).0 * Dimensions(area).1 == area
  {
    var n := Root(area);
    ScanLowDivisor(area, n);
    var d := LowDivisor(area, n);
    if d > 1 {
      Quotient(area, d);
    }
  }

  /** No divisor pair of area is more square than the result. */
  lemma DimensionsMostSquare(area: int)
    requires area >= 1
    ensures forall d :: 1 <= d <= area && area % d == 0 ==>
              Abs(Dimensions(area).0 - Dimensions(area).1) <= Abs(area / d - d)
  {
    var n := Root(area);
    ScanLowDivisor(area, n);
    var best := LowDivisor(area, n);
    if best > 1 {
      SquareMono(best, n);
      QuotientAbove(area, best);
    }
    forall d | 1 <= d <= area && area % d == 0
      ensures Abs(Dimensions(area).0 - Dimensions(area).1) <= Abs(area / d - d)
    {
      var e := PairOfLowSide(area, d);
      RootAbove(area, e);
      if 1 <= e < best {
        DiffShrinks(area, e, best);
      }
    }
  }

  /** A composite area gets height = its largest divisor up to its square
      root and width = the cofactor; otherwise (1, area) is kept, so a prime
      area of p cells gives a grid one column wide and p rows high. */
  lemma DimensionsShape(area: int)
    requires area >= 1
    ensures HasLowDivisor(area) ==>
              var (w, h) := Dimensions(area);
              1 < h <= w && w * h == area &&
              forall e :: h < e && e * e <= area ==> area % e != 0
    ensures !HasLowDivisor(area) ==> Dimensions(area) == (1, area)
  {
    var n := Root(area);
    ScanLowDivisor(area, n);
    LowDivisorFound(area);
    var best := LowDivisor(area, n);
    if best > 1 {
      SquareMono(best, n);
      QuotientAbove(area, best);
      Quotient(area, best);
      forall e | best < e && e * e <= area
        ensures area % e != 0
      {
        RootAbove(area, e);
      }
    }
  }

  ghost predicate Prime(p: int) {
    p > 1 && forall d :: 1 < d < p ==> p % d != 0
  }

  /** A low divisor of p is a proper divisor. */
  lemma LowSideBelow(d: int, p: int)
    requires 1 < d && d * d <= p
    ensures d < p
  {
    MulLt(1, d, d);
  }

  lemma DimensionsPrime(p: int)
    requires Prime(p)
    ensures Dimensions(p) == (1, p)
  {
    forall d | 1 < d && d * d <= p
      ensures p % d != 0
    {
      LowSideBelow(d, p);
    }
    DimensionsShape(p);
  }
}
