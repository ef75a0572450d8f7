/** How the coalescing allocator compares candidates for spilling (`less_than_optimal`,
    src/arm/irc_coloring_alloc.hpp): by uses per neighbour, four times as much for every loop around them. */
module SpillCosts {
  /** The depth of the innermost loop that mentions a register, and how often it is read and written. */
  datatype Cost = Cost(depth: nat, uses: nat, defs: nat)

  function Power(m: int, n: nat): int {
    if n == 0 then 1 else m * Power(m, n - 1)
  }

  /** `get_exp`, by squaring. */
  function GetExp(m: int, n: nat): int
    decreases n
  {
    if n == 0 then 1
    else if n == 1 then m
    else if n % 2 == 0 then GetExp(m * m, n / 2)
    else m * GetExp(m * m, n / 2)
  }

  lemma {:induction false} PowerOfSquare(m: int, n: nat)
    ensures Power(m * m, n) == Power(m, 2 * n)
  {
    if n > 0 {
      PowerOfSquare(m, n - 1);
      var p := Power(m, 2 * n - 2);
      assert Power(m, 2 * n) == m * (m * p) == m * m * p;
    }
  }

  lemma {:induction false} GetExpIs(m: int, n: nat)
    ensures GetExp(m, n) == Power(m, n)
    decreases n
  {
    if n == 1 {
      assert Power(m, 1) == m * Power(m, 0);
    } else if n > 1 {
      GetExpIs(m * m, n / 2);
      PowerOfSquare(m, n / 2);
    }
  }

  /** What the comparison calls the weight of a candidate: of a constant only the reads count. */
  function PerNeighbour(c: Cost, constant: bool, degree: nat): (w: real)
    requires degree > 0
    ensures w >= 0.0
  {
    (if constant then c.uses else c.uses + c.defs) as real * 100.0 / degree as real
  }

  /** `e < a / b` and `e > a / b` for quotients of numbers that are not negative, infinite and undefined ones
      included. */
  predicate BelowQuotient(e: int, a: real, b: real) {
    if b == 0.0 then a > 0.0 else e as real < a / b
  }

  predicate AboveQuotient(e: int, a: real, b: real) {
    b != 0.0 && e as real > a / b
  }

  predicate LessThanOptimal(x: nat, y: real, optimalDepth: nat, optimalWeight: real) {
    if x == optimalDepth then y < optimalWeight
    else if x > optimalDepth then
      x - optimalDepth <= 12 && BelowQuotient(GetExp(4, x - optimalDepth), optimalWeight, y)
    else
      optimalDepth - x > 12 || AboveQuotient(GetExp(4, optimalDepth - x), y, optimalWeight)
  }

  function Power4(n: nat): (r: real)
    ensures r >= 1.0
  {
    if n == 0 then 1.0 else 4.0 * Power4(n - 1)
  }

  /** Weight times four to the depth. */
  function Scaled(x: nat, y: real): real {
    y * Power4(x)
  }

  lemma {:induction false} Power4Is(n: nat)
    ensures Power(4, n) as real == Power4(n)
  {
    if n > 0 { Power4Is(n - 1); }
  }

  lemma {:induction false} Power4Add(m: nat, n: nat)
    ensures Power4(m + n) == Power4(m) * Power4(n)
  {
    if m > 0 {
      Power4Add(m - 1, n);
      assert 4.0 * (Power4(m - 1) * Power4(n)) == 4.0 * Power4(m - 1) * Power4(n);
    }
  }

  lemma ScaleBoth(a: real, b: real, p: real)
    requires p > 0.0
    ensures a < b <==> a * p < b * p
  {
    if a < b { assert (b - a) * p > 0.0; }
    if a > b { assert (a - b) * p > 0.0; }
  }

  lemma QuotientBelow(e: real, a: real, b: real)
    requires b > 0.0
    ensures e < a / b <==> e * b < a
    ensures e > a / b <==> e * b > a
  {
    var q := a / b;
    assert q * b == a;
    ScaleBoth(e, q, b);
    ScaleBoth(q, e, b);
  }

  lemma Regroup(e: real, y: real, p: real)
    ensures y * (e * p) == e * y * p
  { }

  lemma Deeper(k: nat, x: nat, y: real, w: real)
    requires y >= 0.0 && w >= 0.0
    ensures BelowQuotient(GetExp(4, k), w, y) <==> Scaled(x + k, y) < Scaled(x, w)
    ensures AboveQuotient(GetExp(4, k), w, y) <==> Scaled(x, w) < Scaled(x + k, y)
  {
    hide Power4, GetExp;
    var e := Power4(k);
    GetExpIs(4, k);
    Power4Is(k);
    Power4Add(k, x);
    Regroup(e, y, Power4(x));
    ScaleBoth(e * y, w, Power4(x));
    ScaleBoth(w, e * y, Power4(x));
    if y > 0.0 { QuotientBelow(e, w, y); } else { assert e * y == 0.0; }
  }

  /** Candidates at most twelve loops apart are compared by their scaled weights. Others are compared by depth alone. */
  lemma LessIff(x: nat, y: real, ox: nat, oy: real)
    requires y >= 0.0 && oy >= 0.0
    ensures LessThanOptimal(x, y, ox, oy) <==>
      if -12 <= x - ox <= 12 then Scaled(x, y) < Scaled(ox, oy) else x < ox
  {
    hide BelowQuotient, AboveQuotient, GetExp, Scaled;
    if x == ox {
      SameDepth(x, y, oy);
    } else if x > ox {
      Deeper(x - ox, ox, y, oy);
    } else {
      Deeper(ox - x, x, oy, y);
    }
  }

  lemma SameDepth(x: nat, y: real, oy: real)
    ensures y < oy <==> Scaled(x, y) < Scaled(x, oy)
  {
    ScaleBoth(y, oy, Power4(x));
  }
}
