/** Closed forms that replace counting loops (`simplify_reduction_var`, src/ir/opt/loop_ops.cpp) and the runtime
    routines they call (src/arm/program.cpp). */
module LoopSums {
  import opened Word32

  /** Equality modulo `m`. */
  ghost predicate CongMod(m: int, a: int, b: int) {
    exists k :: a == b + Times(k, m)
  }

  lemma CongSame(m: int, a: int)
    ensures CongMod(m, a, a)
  {
    assert a == a + Times(0, m);
  }

  lemma CongSum(m: int, a: int, b: int, c: int, d: int)
    requires CongMod(m, a, b) && CongMod(m, c, d)
    ensures CongMod(m, a + c, b + d) && CongMod(m, a - c, b - d)
  {
    var k :| a == b + Times(k, m);
    var l :| c == d + Times(l, m);
    Distrib(k, l, m);
    Distrib(k, -l, m);
    assert a + c == b + d + Times(k + l, m);
    assert a - c == b - d + Times(k - l, m);
  }

  lemma CongProduct(m: int, a: int, b: int, c: int, d: int)
    requires CongMod(m, a, b) && CongMod(m, c, d)
    ensures CongMod(m, Times(a, c), Times(b, d))
  {
    var k :| a == b + Times(k, m);
    var l :| c == d + Times(l, m);
    var j := k * d + b * l + k * l * m;
    assert (b + k * m) * (d + l * m) == b * d + j * m;
    assert Times(a, c) == Times(b, d) + Times(j, m);
  }

  lemma CongTrans(m: int, a: int, b: int, c: int)
    requires CongMod(m, a, b) && CongMod(m, b, c)
    ensures CongMod(m, a, c) && CongMod(m, b, a)
  {
    var k :| a == b + Times(k, m);
    var l :| b == c + Times(l, m);
    Distrib(k, l, m);
    assert a == c + Times(k + l, m);
    assert b == a + Times(-k, m);
  }

  lemma ModCong(m: int, a: int)
    requires m > 0
    ensures CongMod(m, a % m, a) && 0 <= a % m < m
  {
    assert a % m == a + Times(-(a / m), m);
  }

  lemma SmallMultiple(m: int, k: int)
    requires m > 0 && -m < Times(k, m) < m
    ensures k == 0
  {
    if k >= 1 { MulMono(1, k, m); }
    if k <= -1 { MulMono(k, -1, m); }
  }

  /** Remainders are equal exactly when the numbers are congruent. */
  lemma ModEqual(m: int, a: int, b: int)
    requires m > 0
    ensures a % m == b % m <==> CongMod(m, a, b)
  {
    ModCong(m, a);
    ModCong(m, b);
    if CongMod(m, a, b) {
      CongTrans(m, a % m, a, b);
      CongTrans(m, b % m, b, b) by { CongSame(m, b); }
      CongTrans(m, a % m, b, b % m);
      var k :| a % m == b % m + Times(k, m);
      SmallMultiple(m, k);
    }
    if a % m == b % m {
      CongTrans(m, a % m, a, a) by { CongSame(m, a); }
      CongTrans(m, a, a % m, b);
    }
  }

  lemma WrapEqual(a: int, b: int)
    ensures Wrap(a) == Wrap(b) <==> CongMod(TWO32, a, b)
  {
    ModEqual(TWO32, a, b);
  }

  lemma WrapSame(a: int)
    ensures CongMod(TWO32, Wrap(a), a)
  {
    WrapEqual(Wrap(a), a);
    WrapId(Wrap(a));
  }

  // ----- the loop -----

  /** A term of the step: a coefficient times invariant values, and times the loop counter if `counter`. */
  datatype Term = Term(v: int, regs: seq<int>, counter: bool)

  function Product(v: int, regs: seq<int>): int {
    if regs == [] then v else Times(Product(v, regs[..|regs| - 1]), regs[|regs| - 1])
  }

  function Coef(t: Term): int { Product(t.v, t.regs) }

  /** The constant part and the coefficient of the counter. */
  function Base(ts: seq<Term>): int {
    if ts == [] then 0
    else Base(ts[..|ts| - 1]) + (if ts[|ts| - 1].counter then 0 else Coef(ts[|ts| - 1]))
  }

  function Slope(ts: seq<Term>): int {
    if ts == [] then 0
    else Slope(ts[..|ts| - 1]) + (if ts[|ts| - 1].counter then Coef(ts[|ts| - 1]) else 0)
  }

  /** What one iteration adds. */
  function StepAt(ts: seq<Term>, i: int): int {
    if ts == [] then 0
    else
      var t := ts[|ts| - 1];
      StepAt(ts[..|ts| - 1], i) + (if t.counter then Times(Coef(t), i) else Coef(t))
  }

  lemma {:induction false} StepIs(ts: seq<Term>, i: int)
    ensures StepAt(ts, i) == Base(ts) + Times(Slope(ts), i)
  {
    if ts != [] {
      var t := ts[|ts| - 1];
      StepIs(ts[..|ts| - 1], i);
      Distrib(Slope(ts[..|ts| - 1]), Coef(t), i);
    }
  }

  /** The sum over `n` iterations from `lo` on. */
  function Total(ts: seq<Term>, lo: int, n: nat): int {
    if n == 0 then 0 else Total(ts, lo, n - 1) + StepAt(ts, lo + n - 1)
  }

  /** x (x + 1) / 2 */
  function Triangle(x: int): int { x * (x + 1) / 2 }

  lemma TriangleStep(x: int)
    ensures Triangle(x) == Triangle(x - 1) + x
    ensures 2 * Triangle(x) == x * (x + 1)
  {
    assert x * (x + 1) == (x - 1) * x + 2 * x;
    assert x % 2 == 0 || (x + 1) % 2 == 0;
    if x % 2 == 0 { assert x * (x + 1) == 2 * ((x / 2) * (x + 1)); }
    else { assert x * (x + 1) == 2 * (x * ((x + 1) / 2)); }
  }

  lemma {:induction false} TotalIs(ts: seq<Term>, lo: int, n: nat)
    ensures Total(ts, lo, n) ==
      Times(Base(ts), n) + Times(Slope(ts), Triangle(lo + n - 1) - Triangle(lo - 1))
  {
    hide Triangle, StepAt, Base, Slope;
    if n > 0 {
      TotalIs(ts, lo, n - 1);
      StepIs(ts, lo + n - 1);
      TriangleStep(lo + n - 1);
      Distrib(n - 1, 1, Base(ts));
      Distrib(Triangle(lo + n - 2) - Triangle(lo - 1), lo + n - 1, Slope(ts));
    } else {
      assert Times(Base(ts), 0) == 0 && Times(Slope(ts), 0) == 0;
    }
  }

  // ----- runtime routines -----

  /** A 64-bit number in two registers: its sign bit is added, then it is shifted right by one through the carry;
      the low register is the result. */
  function AddSignAndHalve(n: int): int {
    var lo, hi := n % TWO32, (n / TWO32) % TWO32;
    var sign := hi / TWO31;
    var lo2, carry := (lo + sign) % TWO32, (lo + sign) / TWO32;
    var hi2 := (hi + carry) % TWO32;
    Wrap(lo2 / 2 + (hi2 % 2) * TWO31)
  }

  /** `__s_c_np1_2`: the sign-extended argument plus its square. */
  function SCnp12(x: int): int {
    AddSignAndHalve(x + Times(x, x))
  }

  lemma SquareRange(x: int)
    requires IsInt32(x)
    ensures 0 <= x + Times(x, x) && x + Times(x, x) < TWO31 * TWO32
    ensures x + Times(x, x) == 2 * Triangle(x)
  {
    TriangleStep(x);
    Distrib(1, x, x);
    if x >= 0 {
      MulMono(x, TWO31 - 1, x + 1);
      MulMono(x + 1, TWO31, TWO31 - 1);
    } else {
      assert x * (x + 1) == (-x) * (-x - 1);
      MulMono(-x, TWO31, TWO31);
      if x < -1 { MulMono(-x - 1, TWO31 - 1, -x); }
      assert (-x) * (-x - 1) >= 0;
      assert (TWO31 - 1) * (-x) <= (TWO31 - 1) * TWO31;
    }
  }

  lemma HalfOfPair(n: int)
    requires 0 <= n < TWO31 * TWO32
    ensures (n / TWO32) % TWO32 == n / TWO32 && n / TWO32 < TWO31
    ensures Wrap((n % TWO32) / 2 + ((n / TWO32) % 2) * TWO31) == Wrap(n / 2)
  {
    var lo, hi := n % TWO32, n / TWO32;
    assert n == lo + hi * TWO32;
    var h := hi / 2;
    assert hi == 2 * h + hi % 2;
    assert n == 2 * h * TWO32 + (hi % 2) * TWO32 + lo;
    assert n / 2 == h * TWO32 + (hi % 2) * TWO31 + lo / 2;
    WrapCong(n / 2, (hi % 2) * TWO31 + lo / 2, h);
  }

  lemma HalveIs(n: int)
    requires 0 <= n < TWO31 * TWO32
    ensures AddSignAndHalve(n) == Wrap(n / 2)
  {
    HalfOfPair(n);
  }

  /** The routine computes the triangle number modulo 2^32, also for negative arguments. */
  lemma SCnp12Is(x: int)
    requires IsInt32(x)
    ensures SCnp12(x) == Wrap(Triangle(x))
  {
    hide Triangle, Times, Wrap, AddSignAndHalve;
    SquareRange(x);
    HalveIs(x + Times(x, x));
  }

  /** `__umulmod`: the 64-bit product of two unsigned words modulo a third. */
  function UMulMod(a: int, b: int, m: int): int
    requires U(m) != 0
  {
    Wrap(Times(U(a), U(b)) % U(m))
  }

  /** `__u_c_np1_2_mod`: the unsigned argument plus its square, halved as a 64-bit number, modulo `m`. */
  function UCnp12Mod(x: int, m: int): int
    requires U(m) != 0
  {
    Wrap(((U(x) + Times(U(x), U(x))) / 2) % U(m))
  }

  function UMod(a: int, m: int): int
    requires U(m) != 0
  {
    Wrap(U(a) % U(m))
  }

  /** `__fixmod`: the remainder made non-negative. */
  function FixMod(a: int, m: int): int
    requires m > 0
  {
    var r := CMod(a, m);
    if r < 0 then Wrap(r + m) else r
  }

  /** On words that are not negative the unsigned routines do ordinary modular arithmetic. */
  lemma ModularWords(a: int, b: int, m: int)
    requires 0 <= a < TWO31 && 0 <= b < TWO31 && 0 < m < TWO31
    ensures UMulMod(a, b, m) == Times(a, b) % m
    ensures UCnp12Mod(a, m) == Triangle(a) % m
    ensures UMod(a + b, m) == (a + b) % m
  {
    hide Triangle;
    assert U(a) == a && U(b) == b && U(m) == m && U(a + b) == a + b;
    TriangleStep(a);
    Distrib(1, a, a);
    assert a + Times(a, a) == 2 * Triangle(a);
    ModCong(m, Times(a, b));
    ModCong(m, Triangle(a));
    ModCong(m, a + b);
    WrapId(Times(a, b) % m);
    WrapId(Triangle(a) % m);
    WrapId((a + b) % m);
  }

  lemma RemUnique(m: int, a: int, f: int, q: int)
    requires m > 0 && 0 <= f < m && a == f + Times(q, m)
    ensures a % m == f
  {
    assert CongMod(m, a, f);
    ModEqual(m, a, f);
    SmallMod(m, f);
  }

  lemma SmallMod(m: int, f: int)
    requires 0 <= f < m
    ensures f % m == f
  { }

  lemma FixModIs(a: int, m: int)
    requires 0 < m < TWO31
    ensures FixMod(a, m) == a % m && 0 <= FixMod(a, m) < m
  {
    hide CMod, CDiv, Wrap;
    CDivMod(a, m);
    var r, q := CMod(a, m), CDiv(a, m);
    assert a == r + Times(q, m);
    if r < 0 {
      TimesPred(q, m);
      WrapId(r + m);
      RemUnique(m, a, r + m, q - 1);
    } else {
      RemUnique(m, a, r, q);
    }
  }

  lemma TimesPred(q: int, m: int)
    ensures Times(q - 1, m) == Times(q, m) - m
  {
    Distrib(q, -1, m);
  }

  // ----- the closed form without a modulus -----

  /** Multiply by the invariant factors, word by word. */
  function Product32(v: int, regs: seq<int>): int {
    if regs == [] then Wrap(v) else Wrap(Times(Product32(v, regs[..|regs| - 1]), regs[|regs| - 1]))
  }

  /** `calc`: the sum of the step over the counters up to `x`, up to a constant. */
  function Calc32(ts: seq<Term>, x: int): int {
    if ts == [] then 0
    else
      var t := ts[|ts| - 1];
      Wrap(Calc32(ts[..|ts| - 1], x) + Wrap(Times(Product32(t.v, t.regs), if t.counter then SCnp12(x) else x)))
  }

  lemma {:induction false} Product32Is(v: int, regs: seq<int>)
    ensures CongMod(TWO32, Product32(v, regs), Product(v, regs))
  {
    if regs == [] {
      WrapSame(v);
    } else {
      var rest, r := regs[..|regs| - 1], regs[|regs| - 1];
      Product32Is(v, rest);
      CongSame(TWO32, r);
      CongProduct(TWO32, Product32(v, rest), Product(v, rest), r, r);
      WrapSame(Times(Product32(v, rest), r));
      CongTrans(TWO32, Product32(v, regs), Times(Product32(v, rest), r), Product(v, regs));
    }
  }

  lemma {:induction false} Calc32Is(ts: seq<Term>, x: int)
    requires IsInt32(x)
    ensures CongMod(TWO32, Calc32(ts, x), Times(Base(ts), x) + Times(Slope(ts), Triangle(x)))
  {
    hide CongMod, Wrap, Triangle, SCnp12;
    if ts == [] {
      ZeroSums(x, Triangle(x));
      CongSame(TWO32, 0);
    } else {
      var rest, t := ts[..|ts| - 1], ts[|ts| - 1];
      var y, z := if t.counter then SCnp12(x) else x, if t.counter then Triangle(x) else x;
      Calc32Is(rest, x);
      Product32Is(t.v, t.regs);
      SCnp12Is(x);
      WrapSame(Triangle(x));
      CongSame(TWO32, x);
      CongProduct(TWO32, Product32(t.v, t.regs), Coef(t), y, z);
      WrapSame(Times(Product32(t.v, t.regs), y));
      CongTrans(TWO32, Wrap(Times(Product32(t.v, t.regs), y)), Times(Product32(t.v, t.regs), y), Times(Coef(t), z));
      CongSum(TWO32, Calc32(rest, x), Times(Base(rest), x) + Times(Slope(rest), Triangle(x)),
              Wrap(Times(Product32(t.v, t.regs), y)), Times(Coef(t), z));
      WrapSame(Calc32(rest, x) + Wrap(Times(Product32(t.v, t.regs), y)));
      CongTrans(TWO32, Calc32(ts, x), Calc32(rest, x) + Wrap(Times(Product32(t.v, t.regs), y)),
                Times(Base(rest), x) + Times(Slope(rest), Triangle(x)) + Times(Coef(t), z));
      TermJoins(ts, x, Triangle(x));
    }
  }

  lemma ZeroSums(x: int, y: int)
    ensures Times(Base([]), x) + Times(Slope([]), y) == 0
  { }

  lemma TermJoins(ts: seq<Term>, x: int, y: int)
    requires ts != []
    ensures
      var rest, t := ts[..|ts| - 1], ts[|ts| - 1];
      Times(Base(ts), x) + Times(Slope(ts), y) ==
      Times(Base(rest), x) + Times(Slope(rest), y) + Times(Coef(t), if t.counter then y else x)
  {
    var rest, t := ts[..|ts| - 1], ts[|ts| - 1];
    Distrib(Base(rest), Coef(t), x);
    Distrib(Slope(rest), Coef(t), y);
  }

  /** The loop itself: from `s`, `n` iterations for the counters from `lo` on, in words. */
  function Iterate32(ts: seq<Term>, s: int, lo: int, n: nat): int {
    if n == 0 then s else Wrap(Iterate32(ts, s, lo, n - 1) + Wrap(StepAt(ts, lo + n - 1)))
  }

  lemma {:induction false} Iterate32Is(ts: seq<Term>, s: int, lo: int, n: nat)
    ensures CongMod(TWO32, Iterate32(ts, s, lo, n), s + Total(ts, lo, n))
  {
    hide CongMod, Wrap, StepAt;
    if n == 0 {
      CongSame(TWO32, s);
    } else {
      var step := StepAt(ts, lo + n - 1);
      Iterate32Is(ts, s, lo, n - 1);
      WrapSame(step);
      CongSum(TWO32, Iterate32(ts, s, lo, n - 1), s + Total(ts, lo, n - 1), Wrap(step), step);
      WrapSame(Iterate32(ts, s, lo, n - 1) + Wrap(step));
      CongTrans(TWO32, Iterate32(ts, s, lo, n), Iterate32(ts, s, lo, n - 1) + Wrap(step), s + Total(ts, lo, n));
    }
  }

  /** The code that replaces the loop `for (i = i1; i <= last; i++) s += step(i)`. */
  function Closed32(ts: seq<Term>, s: int, i1: int, last: int): int {
    Wrap(Wrap(s + Calc32(ts, last)) - Calc32(ts, Wrap(i1 - 1)))
  }

  /** One counter wraps around: its triangle number is off by 2^31 modulo 2^32. */
  lemma TriangleWraps()
    ensures CongMod(TWO32, Triangle(Wrap(-TWO31 - 1)), Triangle(-TWO31 - 1) + TWO31)
  {
    assert Wrap(-TWO31 - 1) == TWO31 - 1;
    assert Triangle(TWO31 - 1) == 2305843008139952128;
    assert Triangle(-TWO31 - 1) == 2305843010287435776;
    assert 2305843008139952128 == 2305843010287435776 + TWO31 + Times(-1, TWO32);
  }

  lemma MinusDistrib(a: int, x: int, y: int)
    ensures Times(a, x) - Times(a, y) == Times(a, x - y)
  {
    Distrib(x, -y, a);
  }

  /** What the closed form and the loop give, modulo 2^32; `t` is the triangle number used for the lower bound. */
  lemma ClosedAndLoop(ts: seq<Term>, s: int, i1: int, last: int, t: int)
    requires IsInt32(i1) && IsInt32(last) && i1 <= last && CongMod(TWO32, Triangle(Wrap(i1 - 1)), t)
    ensures CongMod(TWO32, Closed32(ts, s, i1, last),
                    Iterate32(ts, s, i1, last - i1 + 1) + Times(Slope(ts), Triangle(i1 - 1) - t))
  {
    hide CongMod, Wrap, Triangle, Times, Base, Slope, Calc32, Iterate32, Total;
    var lv, n, b, c := Wrap(i1 - 1), last - i1 + 1, Base(ts), Slope(ts);
    var up, down := Times(b, last) + Times(c, Triangle(last)), Times(b, i1 - 1) + Times(c, t);
    Calc32Is(ts, last);
    Calc32Is(ts, lv);
    WrapSame(i1 - 1);
    CongSame(TWO32, b);
    CongSame(TWO32, c);
    CongProduct(TWO32, b, b, lv, i1 - 1);
    CongProduct(TWO32, c, c, Triangle(lv), t);
    CongSum(TWO32, Times(b, lv), Times(b, i1 - 1), Times(c, Triangle(lv)), Times(c, t));
    CongTrans(TWO32, Calc32(ts, lv), Times(b, lv) + Times(c, Triangle(lv)), down);
    CongSame(TWO32, s);
    CongSum(TWO32, s, s, Calc32(ts, last), up);
    WrapSame(s + Calc32(ts, last));
    CongTrans(TWO32, Wrap(s + Calc32(ts, last)), s + Calc32(ts, last), s + up);
    CongSum(TWO32, Wrap(s + Calc32(ts, last)), s + up, Calc32(ts, lv), down);
    WrapSame(Wrap(s + Calc32(ts, last)) - Calc32(ts, lv));
    CongTrans(TWO32, Closed32(ts, s, i1, last), Wrap(s + Calc32(ts, last)) - Calc32(ts, lv), s + up - down);
    TotalIs(ts, i1, n);
    MinusDistrib(b, last, i1 - 1);
    MinusDistrib(c, Triangle(last), t);
    MinusDistrib(c, Triangle(last), Triangle(i1 - 1));
    MinusDistrib(c, Triangle(i1 - 1), t);
    var extra := Times(c, Triangle(i1 - 1) - t);
    assert s + up - down == s + Total(ts, i1, n) + extra;
    Iterate32Is(ts, s, i1, n);
    CongSame(TWO32, extra);
    CongSum(TWO32, Iterate32(ts, s, i1, n), s + Total(ts, i1, n), extra, extra);
    CongTrans(TWO32, Iterate32(ts, s, i1, n) + extra, s + up - down, s + up - down) by { CongSame(TWO32, s + up - down); }
    CongTrans(TWO32, Closed32(ts, s, i1, last), s + up - down, Iterate32(ts, s, i1, n) + extra);
  }

  lemma IterateIsWord(ts: seq<Term>, s: int, lo: int, n: nat)
    requires n > 0
    ensures Wrap(Iterate32(ts, s, lo, n)) == Iterate32(ts, s, lo, n)
  {
    WrapId(Iterate32(ts, s, lo, n));
  }

  lemma ClosedIsWord(ts: seq<Term>, s: int, i1: int, last: int)
    ensures Wrap(Closed32(ts, s, i1, last)) == Closed32(ts, s, i1, last)
  {
    WrapId(Closed32(ts, s, i1, last));
  }

  /** For a loop that runs at least once, the closed form is right exactly when the counter does not start at the
      smallest integer or has an even coefficient. */
  lemma ClosedIff(ts: seq<Term>, s: int, i1: int, last: int)
    requires IsInt32(i1) && IsInt32(last) && i1 <= last
    ensures Closed32(ts, s, i1, last) == Iterate32(ts, s, i1, last - i1 + 1) <==>
      (i1 != -TWO31 || Slope(ts) % 2 == 0)
  {
    hide Wrap, CongMod, Closed32, Iterate32, Slope, Triangle;
    var it, cl := Iterate32(ts, s, i1, last - i1 + 1), Closed32(ts, s, i1, last);
    var c := Slope(ts);
    IterateIsWord(ts, s, i1, last - i1 + 1);
    ClosedIsWord(ts, s, i1, last);
    WrapEqual(cl, it);
    if i1 != -TWO31 {
      WrapId(i1 - 1);
      CongSame(TWO32, Triangle(i1 - 1));
      ClosedAndLoop(ts, s, i1, last, Triangle(i1 - 1));
      assert Times(c, 0) == 0;
    } else {
      TriangleWraps();
      ClosedAndLoop(ts, s, i1, last, Triangle(i1 - 1) + TWO31);
      OffByHalf(cl, it, c);
    }
  }

  lemma OffByHalf(cl: int, it: int, c: int)
    requires CongMod(TWO32, cl, it + Times(c, -TWO31))
    ensures CongMod(TWO32, cl, it) <==> c % 2 == 0
  {
    var k :| cl == it + Times(c, -TWO31) + Times(k, TWO32);
    if c % 2 == 0 {
      assert cl == it + Times(k - c / 2, TWO32);
    }
    if CongMod(TWO32, cl, it) {
      var l :| cl == it + Times(l, TWO32);
      assert c == 2 * (k - l);
    }
  }

  // ----- the guard -----

  /** `CmpOp::compute`, the loop condition. */
  predicate Compare(less: bool, eq: bool, x: int, y: int) {
    if less then (if eq then x <= y else x < y) else if eq then x >= y else x > y
  }

  /** What an upward loop leaves in `s`. */
  function LoopValue(ts: seq<Term>, s: int, i1: int, i2: int, eq: bool): int {
    var last := if eq then i2 else i2 - 1;
    if i1 <= last then Iterate32(ts, s, i1, last - i1 + 1) else s
  }

  /** The generated code tests `i1 < i2` or `i1 <= i2`, whatever the direction of the loop condition. */
  function Replaced(ts: seq<Term>, s: int, i1: int, i2: int, eq: bool): int {
    if (if eq then i1 <= i2 else i1 < i2) then Closed32(ts, s, i1, if eq then i2 else Wrap(i2 - 1)) else s
  }

  /** The whole replacement, for upward loops. */
  lemma ReplacedIff(ts: seq<Term>, s: int, i1: int, i2: int, eq: bool)
    requires IsInt32(i1) && IsInt32(i2)
    ensures Replaced(ts, s, i1, i2, eq) == LoopValue(ts, s, i1, i2, eq) <==>
      (i1 != -TWO31 || Slope(ts) % 2 == 0 || !Compare(true, eq, i1, i2))
  {
    hide Closed32, Iterate32, Slope;
    var last := if eq then i2 else i2 - 1;
    if i1 <= last {
      WrapId(last);
      ClosedIff(ts, s, i1, last);
    }
  }

  /** By how much the closed form is off when the counter starts at the smallest integer. */
  function Half(ts: seq<Term>, i1: int): int {
    if i1 == -TWO31 && Slope(ts) % 2 != 0 then TWO31 else 0
  }

  lemma HalfWords(c: int)
    ensures CongMod(TWO32, Times(c, -TWO31), if c % 2 != 0 then TWO31 else 0)
  {
    var q := c / 2;
    if c % 2 != 0 {
      assert Times(c, -TWO31) == TWO31 + Times(-(q + 1), TWO32);
    } else {
      assert Times(c, -TWO31) == 0 + Times(-q, TWO32);
    }
  }

  /** What the closed form leaves, for every lower bound. */
  lemma ClosedValue(ts: seq<Term>, s: int, i1: int, last: int)
    requires IsInt32(i1) && IsInt32(last) && i1 <= last
    ensures CongMod(TWO32, Closed32(ts, s, i1, last), s + Total(ts, i1, last - i1 + 1) + Half(ts, i1))
  {
    hide Wrap, CongMod, Closed32, Iterate32, Slope, Triangle, Total, Times;
    var n, c := last - i1 + 1, Slope(ts);
    var it, cl := Iterate32(ts, s, i1, n), Closed32(ts, s, i1, last);
    var t := if i1 != -TWO31 then Triangle(i1 - 1) else Triangle(i1 - 1) + TWO31;
    if i1 != -TWO31 {
      WrapId(i1 - 1);
      CongSame(TWO32, t);
    } else {
      TriangleWraps();
    }
    ClosedAndLoop(ts, s, i1, last, t);
    TimesZero(c);
    CongSame(TWO32, 0);
    HalfWords(c);
    Iterate32Is(ts, s, i1, n);
    CongSum(TWO32, it, s + Total(ts, i1, n), Times(c, Triangle(i1 - 1) - t), Half(ts, i1));
    CongTrans(TWO32, cl, it + Times(c, Triangle(i1 - 1) - t), s + Total(ts, i1, n) + Half(ts, i1));
  }

  lemma CongShift(a: int, s: int, x: int)
    requires CongMod(TWO32, a, s + x)
    ensures CongMod(TWO32, a, s) <==> CongMod(TWO32, x, 0)
  {
    CongSame(TWO32, s);
    CongSame(TWO32, x);
    CongTrans(TWO32, a, s + x, s + x) by { CongSame(TWO32, s + x); }
    if CongMod(TWO32, a, s) {
      CongTrans(TWO32, s + x, a, s);
      CongSum(TWO32, s + x, s, s, s);
    }
    if CongMod(TWO32, x, 0) {
      CongSum(TWO32, s, s, x, 0);
      CongTrans(TWO32, a, s + x, s);
    }
  }

  /** A loop with the condition `i > i2` or `i >= i2` that fails at once is replaced as well; that is right exactly
      when the generated test fails too or the sum that is added vanishes modulo 2^32. */
  lemma DownwardIff(ts: seq<Term>, s: int, i1: int, i2: int, eq: bool)
    requires IsInt32(i1) && IsInt32(i2) && IsInt32(s) && !Compare(false, eq, i1, i2)
    ensures
      var last := if eq then i2 else i2 - 1;
      Replaced(ts, s, i1, i2, eq) == s <==>
        !Compare(true, eq, i1, i2) || CongMod(TWO32, Total(ts, i1, last - i1 + 1) + Half(ts, i1), 0)
  {
    hide Closed32, Total, Half, CongMod;
    var last := if eq then i2 else i2 - 1;
    if Compare(true, eq, i1, i2) {
      WrapId(last);
      WrapId(s);
      ClosedIsWord(ts, s, i1, last);
      ClosedValue(ts, s, i1, last);
      WrapEqual(Closed32(ts, s, i1, last), s);
      CongShift(Closed32(ts, s, i1, last), s, Total(ts, i1, last - i1 + 1) + Half(ts, i1));
    }
  }

  /** A counter from 0 with the condition `i > 5` and the step `s += 1`. */
  lemma DownwardWrong()
    ensures !Compare(false, false, 0, 5) && Replaced([Term(1, [], false)], 0, 0, 5, false) != 0
  {
    var ts := [Term(1, [], false)];
    assert ts[..0] == [];
    DownwardIff(ts, 0, 0, 5, false);
    assert Total(ts, 0, 5) == 5 by {
      TotalIs(ts, 0, 5);
      assert Base(ts) == 1 && Slope(ts) == 0;
    }
    WrapEqual(5, 0);
    WrapId(5);
  }

  // ----- subtraction of an invariant -----

  function IterateSub(s: int, c: int, n: nat): int {
    if n == 0 then s else Wrap(IterateSub(s, c, n - 1) - c)
  }

  lemma {:induction false} SubtractedIs(s: int, c: int, n: nat)
    requires IsInt32(s)
    ensures IterateSub(s, c, n) == Wrap(s - Wrap(Times(Wrap(n), c)))
  {
    hide Wrap, Times;
    WordTimes(n, c);
    WrapAdd(s, Times(n, c));
    if n == 0 {
      NoTimes(c);
      WrapId(s);
    } else {
      SubtractedIs(s, c, n - 1);
      WordTimes(n - 1, c);
      WrapAdd(s, Times(n - 1, c));
      WrapAdd(s - Times(n - 1, c), c);
      TimesPred(n, c);
    }
  }

  lemma WordTimes(n: int, c: int)
    ensures Wrap(Times(Wrap(n), c)) == Wrap(Times(n, c))
  {
    WrapMul(n, c);
  }

  lemma NoTimes(c: int)
    ensures Times(0, c) == 0
  { }

  /** The loop `s = (s - c) % m`, for which the same replacement is made. */
  function IterateSubMod(s: int, c: int, m: int, n: nat): int
    requires m > 0
  {
    if n == 0 then s else CMod(Wrap(IterateSubMod(s, c, m, n - 1) - c), m)
  }

  /** The subtraction in iteration `k` does not overflow. */
  predicate SubFits(s: int, c: int, m: int, k: nat)
    requires m > 0
  {
    IsInt32(IterateSubMod(s, c, m, k) - c)
  }

  ghost predicate SubsFit(s: int, c: int, m: int, n: nat)
    requires m > 0
  {
    forall k: nat :: k < n ==> SubFits(s, c, m, k)
  }

  /** The loop over unbounded integers. */
  function IdealSubMod(s: int, c: int, m: int, n: nat): int
    requires m > 0
  {
    if n == 0 then s else CMod(IdealSubMod(s, c, m, n - 1) - c, m)
  }

  lemma {:induction false} SubIsIdeal(s: int, c: int, m: int, n: nat)
    requires m > 0 && SubsFit(s, c, m, n)
    ensures IterateSubMod(s, c, m, n) == IdealSubMod(s, c, m, n)
  {
    if n > 0 {
      SubIsIdeal(s, c, m, n - 1);
      assert SubFits(s, c, m, n - 1);
      WrapId(IterateSubMod(s, c, m, n - 1) - c);
    }
  }

  /** What a truncated remainder is: small, congruent and of the same sign. */
  lemma CModUnique(a: int, m: int, w: int)
    requires m > 0
    ensures CMod(a, m) == w <==> -m < w < m && CongMod(m, a, w) && (w == 0 || (w > 0 <==> a > 0))
  {
    CDivMod(a, m);
    var r := CMod(a, m);
    assert a == r + Times(CDiv(a, m), m);
    if -m < w < m && CongMod(m, a, w) && (w == 0 || (w > 0 <==> a > 0)) {
      var k :| a == w + Times(k, m);
      Distrib(k, -CDiv(a, m), m);
      assert r - w == Times(k - CDiv(a, m), m);
      if -m < r - w < m {
        SmallMultiple(m, k - CDiv(a, m));
        TimesZero(m);
      }
    }
  }

  /** Remainders of numbers of one sign. */
  lemma ModStep(a: int, c: int, m: int)
    requires m > 0 && (-m < a < m || (a < 0 && c >= 0) || (a > 0 && c <= 0))
    ensures CMod(CMod(a, m) - c, m) == CMod(a - c, m)
  {
    hide CongMod;
    var r := CMod(a, m);
    CModUnique(a, m, r);
    if -m < a < m {
      CongSame(m, a);
      CModUnique(a, m, a);
    } else {
      var y := CMod(a - c, m);
      CModUnique(a - c, m, y);
      CModUnique(r - c, m, y);
      CongSame(m, c);
      CongSum(m, a, r, c, c);
      CongTrans(m, a - c, r - c, r - c) by { CongSame(m, r - c); }
      CongTrans(m, r - c, a - c, y);
      CDivMod(a, m);
      CDivMod(a - c, m);
      if r - c == 0 { CModUnique(0, m, y); }
    }
  }

  /** After the first iteration the remainders add up to one. */
  lemma {:induction false} IdealClosed(s: int, c: int, m: int, n: nat)
    requires m > 0 && n > 0
    ensures IdealSubMod(s, c, m, n) == CMod(CMod(s - c, m) - Times(n - 1, c), m)
  {
    hide CMod, CongMod;
    var r := CMod(s - c, m);
    CDivMod(s - c, m);
    if n == 1 {
      NoTimes(c);
      assert IdealSubMod(s, c, m, 0) == s;
      CongSame(m, r);
      CModUnique(r, m, r);
    } else {
      IdealClosed(s, c, m, n - 1);
      TimesPred(n - 1, c);
      TimesSigned(n - 2, c);
      ModStep(r - Times(n - 2, c), c, m);
    }
  }

  lemma TimesSigned(n: nat, c: int)
    ensures if c >= 0 then Times(n, c) >= 0 else Times(n, c) <= 0
  {
    if c > 0 { MulMono(0, n, c); }
    if c < 0 {
      MulMono(0, n, -c);
      NegMul(c, n);
    }
  }

  lemma TimesMinus(n: int, c: int)
    ensures Times(n, -c) == Times(-n, c) == -Times(n, c)
  { }

  /** What the loop leaves, beside what the replacement leaves. */
  lemma SubModValues(s: int, c: int, m: int, n: nat)
    requires IsInt32(s) && m > 0 && n > 0 && SubsFit(s, c, m, n)
    ensures IterateSubMod(s, c, m, n) == CMod(CMod(s - c, m) - Times(n - 1, c), m)
    ensures Wrap(s - Wrap(Times(Wrap(n), c))) == Wrap(s - Times(n, c))
  {
    hide Wrap, CMod, Times, SubsFit;
    SubIsIdeal(s, c, m, n);
    IdealClosed(s, c, m, n);
    WordTimes(n, c);
    WrapAdd(s, Times(n, c));
  }

  lemma FirstRemainder(s: int, c: int, m: int, n: nat)
    requires m > 0 && n > 0
    ensures CMod(s - c, m) - Times(n - 1, c) == s - Times(n, c) - Times(CDiv(s - c, m), m)
  {
    CDivMod(s - c, m);
    TimesPred(n, c);
  }

  /** When the loop itself does not overflow, the replacement is right exactly when the word it leaves is reduced,
      differs from the exact total by a multiple of the modulus, and has the sign of the total with the first
      remainder taken. */
  lemma SubtractModIff(s: int, c: int, m: int, n: nat)
    requires IsInt32(s) && m > 0 && n > 0 && SubsFit(s, c, m, n)
    ensures
      var w := Wrap(s - Times(n, c));
      IterateSubMod(s, c, m, n) == Wrap(s - Wrap(Times(Wrap(n), c))) <==>
        && -m < w < m && CongMod(m, s - Times(n, c), w)
        && (w == 0 || (w > 0 <==> CMod(s - c, m) - Times(n - 1, c) > 0))
  {
    hide CMod, CDiv, CongMod, Times;
    var w, x, q := Wrap(s - Times(n, c)), s - Times(n, c), CDiv(s - c, m);
    var a := CMod(s - c, m) - Times(n - 1, c);
    SubModValues(s, c, m, n);
    FirstRemainder(s, c, m, n);
    CModUnique(a, m, w);
    Multiples(x, q, m);
    CongTrans(m, a, x, x) by { CongSame(m, x); }
    if CongMod(m, a, w) { CongTrans(m, x, a, w); }
    if CongMod(m, x, w) { CongTrans(m, a, x, w); }
  }

  lemma Multiples(x: int, q: int, m: int)
    ensures CongMod(m, x - Times(q, m), x)
  {
    assert x - Times(q, m) == x + Times(-q, m);
  }

  // ----- totals that fit -----

  lemma {:induction false} IdealMirror(s: int, c: int, m: int, n: nat)
    requires m > 0
    ensures IdealSubMod(-s, -c, m, n) == -IdealSubMod(s, c, m, n)
  {
    if n > 0 { IdealMirror(s, c, m, n - 1); }
  }

  /** Counting down from `s`, no iteration goes below a bound that the plain difference respects. */
  lemma {:induction false} IdealBounds(s: int, c: int, m: int, k: nat, lo: int)
    requires m > 0 && c >= 0 && k > 0 && lo <= 1 - s && lo <= s - Times(k + 1, c)
    ensures lo <= IdealSubMod(s, c, m, k) - c < m
  {
    hide *;
    var r, q := CMod(s - c, m), CDiv(s - c, m);
    var a := r - Times(k - 1, c);
    IdealClosed(s, c, m, k);
    FirstRemainder(s, c, m, k);
    RemainderBelow(s - c, m);
    TimesPred(k + 1, c);
    TimesSigned(k - 1, c);
    TowardsZero(a, m);
  }

  lemma RemainderBelow(x: int, m: int)
    requires m > 0
    ensures CMod(x, m) < m
    ensures x >= m || Times(CDiv(x, m), m) <= 0
  {
    CDivMod(x, m);
    if x < m { MulMono(CDiv(x, m), 0, m); }
  }

  lemma TowardsZero(a: int, m: int)
    requires m > 0
    ensures -m < CMod(a, m) < m && (a < m ==> CMod(a, m) >= a)
  {
    CDivMod(a, m);
    if a < m { MulMono(CDiv(a, m), 0, m); }
  }

  lemma BetweenSteps(s: int, c: int, k: nat, n: nat)
    requires k + 1 <= n && c >= 0
    ensures s - Times(n, c) <= s - Times(k + 1, c)
  {
    if c > 0 { MulMono(k + 1, n, c); }
  }

  lemma SubStepFits(s: int, c: int, m: int, n: nat, k: nat)
    requires IsInt32(s) && IsInt32(s - c) && IsInt32(s - Times(n, c)) && 0 < m < TWO31 && k < n
    ensures IsInt32(IdealSubMod(s, c, m, k) - c)
  {
    if k > 0 {
      if c >= 0 {
        BetweenSteps(s, c, k, n);
        IdealBounds(s, c, m, k, -TWO31);
      } else {
        TimesMinus(n, c);
        TimesMinus(k + 1, c);
        BetweenSteps(-s, -c, k, n);
        IdealMirror(s, c, m, k);
        IdealBounds(-s, -c, m, k, 1 - TWO31);
      }
    }
  }

  lemma {:induction false} FitsWhenEndsFit(s: int, c: int, m: int, n: nat, k: nat)
    requires IsInt32(s) && IsInt32(s - c) && IsInt32(s - Times(n, c)) && 0 < m < TWO31 && k <= n
    ensures SubsFit(s, c, m, k)
  {
    hide Times, CMod;
    if k > 0 {
      FitsWhenEndsFit(s, c, m, n, k - 1);
      SubIsIdeal(s, c, m, k - 1);
      SubStepFits(s, c, m, n, k - 1);
      assert SubFits(s, c, m, k - 1);
    }
  }

  /** When the first difference and the total fit, whatever the start: right exactly when the total is reduced, and
      the first difference is too or lies on the other side of 0. */
  lemma SubtractModTotal(s: int, c: int, m: int, n: nat)
    requires IsInt32(s) && IsInt32(s - c) && IsInt32(s - Times(n, c)) && 0 < m < TWO31 && n > 0
    ensures
      var first, total := s - c, s - Times(n, c);
      IterateSubMod(s, c, m, n) == Wrap(s - Wrap(Times(Wrap(n), c))) <==>
        -m < total < m && (-m < first < m || (first > 0 && total <= 0) || (first < 0 && total >= 0))
  {
    hide CMod, CDiv, CongMod, Times, SubsFit;
    var total, q := s - Times(n, c), CDiv(s - c, m);
    FitsWhenEndsFit(s, c, m, n, n);
    SubtractModIff(s, c, m, n);
    WrapId(total);
    CongSame(m, total);
    FirstRemainder(s, c, m, n);
    QuotientSign(s - c, m);
    if q >= 1 { TimesAtLeast(q, m); }
    if q <= -1 { TimesAtLeast(-q, m); TimesMinus(q, m); }
    if q == 0 { TimesZero(m); }
  }

  lemma QuotientSign(x: int, m: int)
    requires m > 0
    ensures CDiv(x, m) == 0 <==> -m < x < m
    ensures CDiv(x, m) > 0 <==> x >= m
  {
    CDivMod(x, m);
    var q := CDiv(x, m);
    if q >= 1 { MulMono(1, q, m); }
    if q <= -1 { MulMono(q, -1, m); }
  }

  lemma TimesAtLeast(q: int, m: int)
    requires q >= 1 && m > 0
    ensures Times(q, m) >= m
  {
    MulMono(1, q, m);
  }

  /** One iteration from 0 with `c == -7` and `m == 5`. */
  lemma SubtractModWrong()
    ensures IterateSubMod(0, -7, 5, 1) != Wrap(0 - Wrap(Times(Wrap(1), -7)))
  {
    assert Times(1, -7) == -7;
    SubtractModTotal(0, -7, 5, 1);
  }

  // ----- division by a power of two -----

  /** `__divpow2`: 0 for shifts beyond 31; a logical shift of non-negative numbers; a bias for negative ones. */
  function DivPow2(x: int, k: int): int {
    if U(k) > 31 then 0
    else if x >= 0 then Shr(x, U(k))
    else Shr(Wrap(Wrap(x + Wrap(Shl(1, U(k)))) - 1), U(k))
  }

  function IterateDiv(x: int, d: int, n: nat): int
    requires d > 0
  {
    if n == 0 then x else CDiv(IterateDiv(x, d, n - 1), d)
  }

  /** The loop `s = (s / d) % m`, for which the modulus is ignored as well. */
  function IterateDivMod(x: int, d: int, m: int, n: nat): int
    requires d > 0 && m > 0
  {
    if n == 0 then x else CMod(CDiv(IterateDivMod(x, d, m, n - 1), d), m)
  }

  lemma DivShrinks(x: int, d: int, m: int)
    requires d > 0 && -m < x < m
    ensures -m < CDiv(x, d) < m && CMod(x, m) == x
  {
    assert CMod(x, m) == x;
    hide CMod, CDiv;
    CDivIs(x, d);
    QuotientBelow(if x >= 0 then x else -x, d);
  }

  lemma QuotientBelow(n: nat, d: int)
    requires d > 0
    ensures 0 <= n / d <= n
  {
    var q := n / d;
    assert n == q * d + n % d;
    if q > 0 { MulMono(1, d, q); }
  }

  /** Once reduced, quotients stay reduced: the modulus matters in the first iteration only. */
  lemma {:induction false} DivModIs(x: int, d: int, m: int, n: nat)
    requires d > 0 && m > 0 && n > 0
    ensures IterateDivMod(x, d, m, n) == IterateDiv(CMod(CDiv(x, d), m), d, n - 1)
    ensures -m < IterateDivMod(x, d, m, n) < m
  {
    hide CDiv, CMod;
    if n == 1 {
      assert IterateDivMod(x, d, m, 0) == x;
      CDivMod(CDiv(x, d), m);
    } else {
      DivModIs(x, d, m, n - 1);
      DivShrinks(IterateDivMod(x, d, m, n - 1), d, m);
      DivShrinks(CDiv(IterateDivMod(x, d, m, n - 1), d), 1, m);
    }
  }

  lemma CDivCDiv(x: int, a: int, b: int)
    requires a > 0 && b > 0
    ensures Times(a, b) > 0 && CDiv(CDiv(x, a), b) == CDiv(x, Times(a, b))
  {
    var y := if x >= 0 then x else -x;
    DivDiv(y, a, b);
    CDivIs(x, a);
    CDivIs(x, Times(a, b));
    CDivIs(CDiv(x, a), b);
    assert y / a >= 0;
    if x < 0 && y / a == 0 { assert (y / a) / b == 0; }
  }

  lemma {:induction false} IterateDivIs(x: int, k: nat, n: nat)
    ensures IterateDiv(x, Pow2(k), n) == CDiv(x, Pow2(n * k))
  {
    if n == 0 {
      CDivIs(x, 1);
      assert 0 * k == 0 && Pow2(0) == 1;
    } else {
      IterateDivIs(x, k, n - 1);
      CDivCDiv(x, Pow2((n - 1) * k), Pow2(k));
      Pow2Add((n - 1) * k, k);
      assert (n - 1) * k + k == n * k;
    }
  }

  lemma RoundUp(x: int, d: int)
    requires x < 0 && d > 0
    ensures (x + d - 1) / d == -((-x) / d)
  {
    DivBounds(-x, d);
    NegMul((-x) / d, d);
    Distrib(-((-x) / d), 1, d);
    DivUnique(x + d - 1, d, -((-x) / d));
  }

  /** Below 32 bits the bias never overflows in a way that shows. */
  lemma BiasedWord(x: int, p: int)
    requires -TWO31 <= x < 0 && 1 <= p <= TWO31
    ensures Wrap(Wrap(x + Wrap(p)) - 1) == x + p - 1
  {
    WrapAdd(x, p);
    WrapAdd(x + p, 1);
    WrapId(x + p - 1);
  }

  lemma DivPow2Is(x: int, k: nat)
    requires IsInt32(x) && k <= 31
    ensures DivPow2(x, k) == CDiv(x, Pow2(k))
  {
    hide Pow2, CDiv, Shr, Shl, Wrap;
    var p := Pow2(k);
    PowerBound(k);
    CDivIs(x, p);
    ShlIs(1, k);
    if x >= 0 {
      ShrIs(x, k);
    } else {
      BiasedWord(x, p);
      ShrIs(x + p - 1, k);
      RoundUp(x, p);
    }
  }

  lemma PowerBound(k: nat)
    requires k <= 31
    ensures 1 <= Pow2(k) <= TWO31 && U(k) == k
  {
    Pow2Mono(k, 31);
    Pow2Values();
  }

  lemma BigDivisor(x: int, e: nat)
    requires IsInt32(x) && e >= 32
    ensures CDiv(x, Pow2(e)) == 0
  {
    hide Pow2, CDiv;
    Pow2Mono(32, e);
    Pow2Values();
    CDivIs(x, Pow2(e));
    DivUnique(if x >= 0 then x else -x, Pow2(e), 0);
  }

  /** `n` divisions by `2^k` against one call with the product `n * k`, computed in words: equal exactly when the
      product does not wrap around to a small shift that matters. */
  lemma DivLoopIff(x: int, k: nat, n: nat)
    requires IsInt32(x)
    ensures DivPow2(x, Wrap(n * k)) == IterateDiv(x, Pow2(k), n) <==>
      (n * k < TWO32 || U(n * k) > 31 || CDiv(x, Pow2(U(n * k))) == 0)
  {
    IterateDivIs(x, k, n);
    ShiftIff(x, n * k);
  }

  function Abs(x: int): nat { if x >= 0 then x else -x }

  /** Two numbers of one sign have the same quotient exactly when what the larger exceeds the smaller by is lost in the
      division. */
  lemma SameQuotient(a: nat, b: nat, d: int)
    requires d > 0 && b <= a
    ensures a / d == b / d <==> a - b <= a % d
  {
    DivBounds(a, d);
    if a - b <= a % d {
      assert a == (a / d) * d + a % d;
      DivUnique(b, d, a / d);
    }
    if a / d == b / d {
      assert a == (a / d) * d + a % d && b == (b / d) * d + b % d;
    }
  }

  lemma SameCQuotient(x: int, r: int, d: int)
    requires d > 0 && Abs(r) <= Abs(x) && (x >= 0 ==> r >= 0) && (x <= 0 ==> r <= 0)
    ensures CDiv(r, d) == CDiv(x, d) <==> Abs(x) - Abs(r) <= Abs(x) % d
  {
    CDivIs(x, d);
    CDivIs(r, d);
    SameQuotient(Abs(x), Abs(r), d);
    QuotientBelow(Abs(x), d);
    QuotientBelow(Abs(r), d);
  }

  lemma FirstReduced(y: int, m: int)
    requires m > 0
    ensures Abs(CMod(y, m)) <= Abs(y) && (y >= 0 ==> CMod(y, m) >= 0) && (y <= 0 ==> CMod(y, m) <= 0)
  {
    CDivMod(y, m);
    QuotientSign(y, m);
    if CDiv(y, m) >= 1 { TimesAtLeast(CDiv(y, m), m); }
    if CDiv(y, m) <= -1 { TimesAtLeast(-CDiv(y, m), m); TimesMinus(CDiv(y, m), m); }
  }

  /** The loop with the modulus, with one division at the end. */
  lemma DivModValue(x: int, k: nat, m: int, n: nat)
    requires m > 0 && n > 0
    ensures IterateDivMod(x, Pow2(k), m, n) == CDiv(CMod(CDiv(x, Pow2(k)), m), Pow2((n - 1) * k))
    ensures IterateDiv(x, Pow2(k), n) == CDiv(CDiv(x, Pow2(k)), Pow2((n - 1) * k))
  {
    hide CDiv, CMod, IterateDiv, IterateDivMod, Pow2, Times;
    DivModIs(x, Pow2(k), m, n);
    IterateDivIs(CMod(CDiv(x, Pow2(k)), m), k, n - 1);
    IterateDivIs(x, k, n);
    CDivCDiv(x, Pow2(k), Pow2((n - 1) * k));
    Pow2Add(k, (n - 1) * k);
    OneMoreShift(k, n);
    TimesIs(Pow2(k), Pow2((n - 1) * k));
  }

  lemma OneMoreShift(k: nat, n: nat)
    requires n > 0
    ensures k + (n - 1) * k == n * k && (n - 1) * k >= 0
  { }

  lemma TimesIs(a: int, b: int)
    ensures Times(a, b) == a * b
  { }

  /** With many divisions nothing is left. */
  lemma ManyShifts(x: int, k: nat, m: int, n: nat)
    requires IsInt32(x) && m > 0 && n > 0 && n * k >= TWO32
    ensures CDiv(CMod(CDiv(x, Pow2(k)), m), Pow2((n - 1) * k)) == 0
  {
    hide CDiv, CMod, Pow2;
    var y := CDiv(x, Pow2(k));
    OneMoreShift(k, n);
    if k >= 32 {
      BigDivisor(x, k);
      FirstReduced(0, m);
      CDivIs(0, Pow2((n - 1) * k));
    } else {
      FirstReduced(y, m);
      CDivIs(x, Pow2(k));
      QuotientBelow(Abs(x), Pow2(k));
      BigDivisor(CMod(y, m), (n - 1) * k);
    }
  }

  /** `s = (s / 2^k) % m`, `n` times, against the call that ignores the modulus: right exactly when what the first
      remainder takes away is shifted out by the other iterations, or, for a shift count that wraps, when the wrapped
      one leaves nothing either. */
  lemma DivModIff(x: int, k: nat, m: int, n: nat)
    requires IsInt32(x) && m > 0 && n > 0
    ensures
      var first := CDiv(x, Pow2(k));
      IterateDivMod(x, Pow2(k), m, n) == DivPow2(x, Wrap(n * k)) <==>
        if n * k < TWO32 then Abs(first) - Abs(CMod(first, m)) <= Abs(first) % Pow2((n - 1) * k)
        else U(n * k) > 31 || CDiv(x, Pow2(U(n * k))) == 0
  {
    hide CDiv, CMod, Pow2, DivPow2, IterateDiv, IterateDivMod, U, Wrap, Abs;
    var first := CDiv(x, Pow2(k));
    DivModValue(x, k, m, n);
    DivLoopIff(x, k, n);
    if n * k < TWO32 {
      FirstReduced(first, m);
      SameCQuotient(first, CMod(first, m), Pow2((n - 1) * k));
    } else {
      ManyShifts(x, k, m, n);
      WrappedShift(x, n * k);
    }
  }

  lemma WrappedShift(x: int, e: nat)
    requires IsInt32(x)
    ensures DivPow2(x, Wrap(e)) == 0 <==> U(e) > 31 || CDiv(x, Pow2(U(e))) == 0
  {
    hide *;
    WordShift(x, e);
    if U(e) <= 31 { DivPow2Is(x, U(e)); }
  }

  lemma ShiftIff(x: int, e: nat)
    requires IsInt32(x)
    ensures DivPow2(x, Wrap(e)) == CDiv(x, Pow2(e)) <==>
      (e < TWO32 || U(e) > 31 || CDiv(x, Pow2(U(e))) == 0)
  {
    hide *;
    WordShift(x, e);
    if U(e) <= 31 { DivPow2Is(x, U(e)); }
    if e >= 32 { BigDivisor(x, e); }
  }

  lemma WordShift(x: int, e: nat)
    ensures U(e) > 31 ==> DivPow2(x, Wrap(e)) == 0 && e >= 32
    ensures U(e) <= 31 ==> DivPow2(x, Wrap(e)) == DivPow2(x, U(e))
    ensures e < TWO32 ==> U(e) == e
    ensures e >= TWO32 ==> e >= 32
  {
    assert U(Wrap(e)) == U(e) && U(U(e)) == U(e);
  }

  // ----- the closed form with a modulus -----

  function Mod(a: int, m: int): int
    requires m > 0
  {
    a % m
  }

  /** Invariant values and coefficients that are not negative. */
  ghost predicate NonNegative(ts: seq<Term>) {
    forall k :: 0 <= k < |ts| ==> 0 <= ts[k].v < TWO31 && forall j :: 0 <= j < |ts[k].regs| ==> 0 <= ts[k].regs[j] < TWO31
  }

  function ProductM(v: int, regs: seq<int>, m: int): int
    requires 0 < m < TWO31
  {
    if regs == [] then FixMod(v, m)
    else UMulMod(ProductM(v, regs[..|regs| - 1], m), regs[|regs| - 1], m)
  }

  /** `calc` with a modulus; the argument has been reduced first. */
  function CalcM(ts: seq<Term>, x: int, m: int): int
    requires 0 < m < TWO31
  {
    if ts == [] then 0
    else
      var t := ts[|ts| - 1];
      UMod(CalcM(ts[..|ts| - 1], x, m) +
           UMulMod(ProductM(t.v, t.regs, m), if t.counter then UCnp12Mod(x, m) else x, m), m)
  }

  /** The code for `s = (s + step(i)) % m`. */
  function ClosedM(ts: seq<Term>, s: int, i1: int, last: int, m: int): int
    requires 0 < m < TWO31
  {
    var up := UMod(FixMod(s, m) + CalcM(ts, FixMod(last, m), m), m);
    UMod(up - CalcM(ts, FixMod(i1 - 1, m), m) + m, m)
  }

  /** The loop `s = (s + step(i)) % m`, in words. */
  function IterateM(ts: seq<Term>, s: int, lo: int, n: nat, m: int): int
    requires m > 0
  {
    if n == 0 then s else CMod(Wrap(IterateM(ts, s, lo, n - 1, m) + Wrap(StepAt(ts, lo + n - 1))), m)
  }

  /** What the routines make of the invariant values: their words without sign. */
  function Words(regs: seq<int>): seq<int> {
    if regs == [] then [] else Words(regs[..|regs| - 1]) + [U(regs[|regs| - 1])]
  }

  function Unsigned(ts: seq<Term>): seq<Term> {
    if ts == [] then []
    else Unsigned(ts[..|ts| - 1]) + [ts[|ts| - 1].(regs := Words(ts[|ts| - 1].regs))]
  }

  lemma {:induction false} WordsSame(regs: seq<int>)
    requires forall j :: 0 <= j < |regs| ==> 0 <= regs[j] < TWO31
    ensures Words(regs) == regs
  {
    if regs != [] {
      WordsSame(regs[..|regs| - 1]);
      assert regs == regs[..|regs| - 1] + [regs[|regs| - 1]];
    }
  }

  lemma {:induction false} UnsignedSame(ts: seq<Term>)
    requires NonNegative(ts)
    ensures Unsigned(ts) == ts
  {
    if ts != [] {
      UnsignedSame(ts[..|ts| - 1]);
      WordsSame(ts[|ts| - 1].regs);
      assert ts == ts[..|ts| - 1] + [ts[|ts| - 1]];
    }
  }

  /** No sum in the loop overflows. */
  ghost predicate NoOverflow(ts: seq<Term>, s: int, lo: int, n: nat, m: int)
    requires m > 0
  {
    forall k: nat :: k < n ==> StepFits(ts, s, lo, k, m)
  }

  predicate StepFits(ts: seq<Term>, s: int, lo: int, k: nat, m: int)
    requires m > 0
  {
    IsInt32(StepAt(ts, lo + k)) && IsInt32(IterateM(ts, s, lo, k, m) + StepAt(ts, lo + k))
  }

  lemma MulWord(a: int, r: int, m: int)
    requires 0 <= a < m < TWO31
    ensures UMulMod(a, r, m) == Mod(Times(a, U(r)), m)
  {
    hide Times;
    assert U(a) == a && U(m) == m;
    ModCong(m, Times(a, U(r)));
    WrapId(Times(a, U(r)) % m);
  }

  lemma {:induction false} ProductMIs(v: int, regs: seq<int>, m: int)
    requires 0 < m < TWO31
    ensures ProductM(v, regs, m) == Mod(Product(v, Words(regs)), m) && 0 <= ProductM(v, regs, m) < m
  {
    hide CongMod, Times, U;
    if regs == [] {
      FixModIs(v, m);
    } else {
      var rest, r := regs[..|regs| - 1], regs[|regs| - 1];
      var p := Product(v, Words(rest));
      ProductMIs(v, rest, m);
      MulWord(ProductM(v, rest, m), r, m);
      ModCong(m, p);
      CongSame(m, U(r));
      CongProduct(m, p % m, p, U(r), U(r));
      ModEqual(m, Times(p % m, U(r)), Times(p, U(r)));
      ModCong(m, Times(p, U(r)));
      assert Words(regs)[..|Words(regs)| - 1] == Words(rest);
    }
  }

  lemma AddModIs(a: int, b: int, x: int, y: int, m: int)
    requires 0 < m < TWO31 && a == Mod(x, m) && b == Mod(y, m)
    ensures UMod(a + b, m) == Mod(x + y, m)
  {
    ModCong(m, x);
    ModCong(m, y);
    ModularWords(a, b, m);
    CongSum(m, a, x, b, y);
    ModEqual(m, a + b, x + y);
  }

  lemma MulModIs(a: int, b: int, x: int, y: int, m: int)
    requires 0 < m < TWO31 && a == Mod(x, m) && b == Mod(y, m)
    ensures UMulMod(a, b, m) == Mod(Times(x, y), m)
  {
    ModCong(m, x);
    ModCong(m, y);
    ModularWords(a, b, m);
    CongProduct(m, a, x, b, y);
    ModEqual(m, Times(a, b), Times(x, y));
  }

  lemma ZeroMod(m: int)
    requires m > 0
    ensures Mod(0, m) == 0
  { }

  lemma CounterWord(x: int, m: int)
    requires 0 <= x < m < TWO31
    ensures Mod(x, m) == x && UCnp12Mod(x, m) == Mod(Triangle(x), m)
  {
    ModularWords(x, 0, m);
    SmallMod(m, x);
  }

  lemma {:induction false} CalcMIs(ts: seq<Term>, x: int, m: int)
    requires 0 < m < TWO31 && 0 <= x < m
    ensures CalcM(ts, x, m) == Mod(Times(Base(Unsigned(ts)), x) + Times(Slope(Unsigned(ts)), Triangle(x)), m)
  {
    hide UMod, UMulMod, UCnp12Mod, Triangle, Times, ProductM, Product, Base, Slope, Mod;
    var us := Unsigned(ts);
    if ts == [] {
      ZeroSums(x, Triangle(x));
      ZeroMod(m);
    } else {
      var rest, t, u := ts[..|ts| - 1], ts[|ts| - 1], us[|us| - 1];
      assert us[..|us| - 1] == Unsigned(rest);
      var y, z := if t.counter then UCnp12Mod(x, m) else x, if t.counter then Triangle(x) else x;
      CalcMIs(rest, x, m);
      ProductMIs(t.v, t.regs, m);
      CounterWord(x, m);
      MulModIs(ProductM(t.v, t.regs, m), y, Coef(u), z, m);
      AddModIs(CalcM(rest, x, m), UMulMod(ProductM(t.v, t.regs, m), y, m),
               Times(Base(Unsigned(rest)), x) + Times(Slope(Unsigned(rest)), Triangle(x)), Times(Coef(u), z), m);
      TermJoins(us, x, Triangle(x));
    }
  }

  lemma {:induction false} ProductSign(v: int, regs: seq<int>)
    requires v >= 0 && forall j :: 0 <= j < |regs| ==> regs[j] >= 0
    ensures Product(v, regs) >= 0
  {
    if regs != [] {
      ProductSign(v, regs[..|regs| - 1]);
      TimesSign(Product(v, regs[..|regs| - 1]), regs[|regs| - 1]);
    }
  }

  lemma TimesSign(a: int, b: int)
    requires a >= 0 && b >= 0
    ensures Times(a, b) >= 0
  { }

  lemma {:induction false} StepSign(ts: seq<Term>, i: int)
    requires NonNegative(ts) && i >= 0
    ensures StepAt(ts, i) >= 0
  {
    if ts != [] {
      var t := ts[|ts| - 1];
      StepSign(ts[..|ts| - 1], i);
      ProductSign(t.v, t.regs);
      TimesSign(Coef(t), i);
    }
  }

  lemma RemainderWord(a: int, b: int, m: int)
    requires m > 0 && IsInt32(b) && IsInt32(a + b)
    ensures CMod(Wrap(a + Wrap(b)), m) == CMod(a + b, m)
  {
    WrapId(b);
    WrapId(a + b);
  }

  /** The loop keeps a remainder of the sum, of either sign. */
  lemma {:induction false} IterateMIs(ts: seq<Term>, s: int, lo: int, n: nat, m: int)
    requires m > 0 && NoOverflow(ts, s, lo, n, m)
    ensures CongMod(m, IterateM(ts, s, lo, n, m), s + Total(ts, lo, n))
    ensures n > 0 ==> -m < IterateM(ts, s, lo, n, m) < m
  {
    hide Wrap, CMod, StepAt, CongMod;
    if n == 0 {
      CongSame(m, s);
    } else {
      var before, step := IterateM(ts, s, lo, n - 1, m), StepAt(ts, lo + n - 1);
      OverflowPrefix(ts, s, lo, n, m);
      IterateMIs(ts, s, lo, n - 1, m);
      RemainderWord(before, step, m);
      CModUnique(before + step, m, CMod(before + step, m));
      CongSame(m, step);
      CongSum(m, before, s + Total(ts, lo, n - 1), step, step);
      CongFlip(m, before + step, CMod(before + step, m));
      CongTrans(m, CMod(before + step, m), before + step, s + Total(ts, lo, n));
    }
  }

  lemma CongFlip(m: int, a: int, b: int)
    requires CongMod(m, a, b)
    ensures CongMod(m, b, a)
  {
    CongSame(m, b);
    CongTrans(m, a, b, b);
  }

  /** Counting up from a value that is not negative. */
  lemma {:induction false} NeverNegative(ts: seq<Term>, s: int, lo: int, n: nat, m: int)
    requires m > 0 && s >= 0 && NoOverflow(ts, s, lo, n, m) && Rises(ts, lo, n)
    ensures IterateM(ts, s, lo, n, m) >= 0
  {
    hide Wrap, CMod, StepAt;
    if n > 0 {
      var before, step := IterateM(ts, s, lo, n - 1, m), StepAt(ts, lo + n - 1);
      OverflowPrefix(ts, s, lo, n, m);
      NeverNegative(ts, s, lo, n - 1, m);
      RemainderWord(before, step, m);
      CDivMod(before + step, m);
    }
  }

  // ----- the sign of the last remainder -----

  ghost predicate Rises(ts: seq<Term>, lo: int, n: nat) {
    forall i :: lo <= i < lo + n ==> StepAt(ts, i) >= 0
  }

  ghost predicate Falls(ts: seq<Term>, lo: int, n: nat) {
    forall i :: lo <= i < lo + n ==> StepAt(ts, i) <= 0
  }

  predicate Opposite(a: int, b: int) {
    (a > 0 && b < 0) || (a < 0 && b > 0)
  }

  /** How many steps there are before the first of the other sign. */
  function Turn(ts: seq<Term>, lo: int, n: nat): (h: nat)
    ensures h <= n && (n > 0 ==> h > 0)
  {
    if n <= 1 || !Opposite(StepAt(ts, lo), StepAt(ts, lo + n - 1)) then n else Turn(ts, lo, n - 1)
  }

  lemma Between(b: int, c: int, lo: int, i: int, hi: int)
    requires lo <= i <= hi
    ensures b + Times(c, lo) >= 0 && b + Times(c, hi) >= 0 ==> b + Times(c, i) >= 0
    ensures b + Times(c, lo) <= 0 && b + Times(c, hi) <= 0 ==> b + Times(c, i) <= 0
  {
    if c > 0 { MulMono(lo, i, c); MulMono(i, hi, c); }
    if c < 0 {
      MulMono(lo, i, -c);
      MulMono(i, hi, -c);
      assert lo * -c == -(c * lo) && i * -c == -(c * i) && hi * -c == -(c * hi);
    }
  }

  /** The steps grow or fall by equal amounts, so the first and the last one decide. */
  lemma EndsDecide(ts: seq<Term>, lo: int, n: nat)
    requires n > 0
    ensures StepAt(ts, lo) >= 0 && StepAt(ts, lo + n - 1) >= 0 ==> Rises(ts, lo, n)
    ensures StepAt(ts, lo) <= 0 && StepAt(ts, lo + n - 1) <= 0 ==> Falls(ts, lo, n)
  {
    hide StepAt, Base, Slope, Times;
    StepIs(ts, lo);
    StepIs(ts, lo + n - 1);
    forall i | lo <= i < lo + n
      ensures StepAt(ts, lo) >= 0 && StepAt(ts, lo + n - 1) >= 0 ==> StepAt(ts, i) >= 0
      ensures StepAt(ts, lo) <= 0 && StepAt(ts, lo + n - 1) <= 0 ==> StepAt(ts, i) <= 0
    {
      StepIs(ts, i);
      Between(Base(ts), Slope(ts), lo, i, lo + n - 1);
    }
  }

  /** The steps change their sign at most once. */
  lemma {:induction false} TurnsOnce(ts: seq<Term>, lo: int, n: nat)
    requires n > 0
    ensures Rises(ts, lo, Turn(ts, lo, n)) || Falls(ts, lo, Turn(ts, lo, n))
    ensures Turn(ts, lo, n) < n ==> Opposite(StepAt(ts, lo), StepAt(ts, lo + Turn(ts, lo, n)))
  {
    hide StepAt, Rises, Falls;
    if n > 1 && Opposite(StepAt(ts, lo), StepAt(ts, lo + n - 1)) {
      TurnsOnce(ts, lo, n - 1);
    } else {
      EndsDecide(ts, lo, n);
    }
  }

  lemma AfterTurn(ts: seq<Term>, lo: int, n: nat)
    requires n > 0
    ensures
      var h := Turn(ts, lo, n);
      Rises(ts, lo + h, n - h) || Falls(ts, lo + h, n - h)
  {
    hide StepAt;
    TurnsOnce(ts, lo, n);
    var h := Turn(ts, lo, n);
    if h < n {
      TurnSeesEnd(ts, lo, n);
      assert lo + h + (n - h) - 1 == lo + n - 1;
      EndsDecide(ts, lo + h, n - h);
    }
  }

  lemma TurnSeesEnd(ts: seq<Term>, lo: int, n: nat)
    ensures Turn(ts, lo, n) < n ==> Opposite(StepAt(ts, lo), StepAt(ts, lo + n - 1))
  { }

  lemma TotalSign(ts: seq<Term>, lo: int, n: nat)
    ensures Rises(ts, lo, n) ==> Total(ts, lo, n) >= 0
    ensures Falls(ts, lo, n) ==> Total(ts, lo, n) <= 0
  {
    if n > 0 { TotalSign(ts, lo, n - 1); }
  }

  /** From a remainder on, steps of one sign leave the remainder of their sum. */
  lemma {:induction false} OneSignRun(ts: seq<Term>, r: int, lo: int, n: nat, m: int)
    requires -m < r < m && NoOverflow(ts, r, lo, n, m) && (Rises(ts, lo, n) || Falls(ts, lo, n))
    ensures IterateM(ts, r, lo, n, m) == CMod(r + Total(ts, lo, n), m)
  {
    hide Wrap, CMod, StepAt, CongMod;
    if n == 0 {
      CongSame(m, r);
      CModUnique(r, m, r);
    } else {
      var a, step := r + Total(ts, lo, n - 1), StepAt(ts, lo + n - 1);
      OverflowPrefix(ts, r, lo, n, m);
      OneSignRun(ts, r, lo, n - 1, m);
      RemainderWord(IterateM(ts, r, lo, n - 1, m), step, m);
      TotalSign(ts, lo, n - 1);
      ModStep(a, -step, m);
    }
  }

  lemma {:induction false} IterateSplit(ts: seq<Term>, s: int, lo: int, k: nat, n: nat, m: int)
    requires m > 0
    ensures IterateM(ts, s, lo, k + n, m) == IterateM(ts, IterateM(ts, s, lo, k, m), lo + k, n, m)
  {
    hide Wrap, CMod, StepAt;
    if n > 0 {
      IterateSplit(ts, s, lo, k, n - 1, m);
      assert lo + k + n - 1 == lo + (k + n) - 1;
    }
  }

  lemma OverflowSplit(ts: seq<Term>, s: int, lo: int, k: nat, n: nat, m: int)
    requires m > 0 && NoOverflow(ts, s, lo, k + n, m)
    ensures NoOverflow(ts, s, lo, k, m) && NoOverflow(ts, IterateM(ts, s, lo, k, m), lo + k, n, m)
  {
    hide IterateM, StepAt;
    var x, from := IterateM(ts, s, lo, k, m), lo + k;
    forall j: nat | j < n ensures StepFits(ts, x, from, j, m) {
      assert StepFits(ts, s, lo, k + j, m);
      IterateSplit(ts, s, lo, k, j, m);
      assert lo + (k + j) == lo + k + j;
    }
  }

  /** The last remainder, from the sums of the steps before and after they change their sign; the first iteration
      reduces the start. */
  function LastRemainder(ts: seq<Term>, s: int, lo: int, n: nat, m: int): int
    requires m > 0 && n > 0
  {
    var h := Turn(ts, lo, n);
    CMod(CMod(CMod(s + StepAt(ts, lo), m) + Total(ts, lo + 1, h - 1), m) + Total(ts, lo + h, n - h), m)
  }

  lemma LastRemainderIs(ts: seq<Term>, s: int, lo: int, n: nat, m: int)
    requires m > 0 && n > 0 && NoOverflow(ts, s, lo, n, m)
    ensures IterateM(ts, s, lo, n, m) == LastRemainder(ts, s, lo, n, m)
  {
    hide Wrap, CMod, StepAt, Turn, Total, IterateM, NoOverflow, Rises, Falls;
    var h := Turn(ts, lo, n);
    TurnsOnce(ts, lo, n);
    AfterTurn(ts, lo, n);
    OverflowSplit(ts, s, lo, h, n - h, m);
    OverflowSplit(ts, s, lo, 1, h - 1, m);
    IterateSplit(ts, s, lo, h, n - h, m);
    IterateSplit(ts, s, lo, 1, h - 1, m);
    FirstIteration(ts, s, lo, m);
    LaterSteps(ts, lo, h);
    var x, y := IterateM(ts, s, lo, 1, m), IterateM(ts, s, lo, h, m);
    IterateMIs(ts, s, lo, 1, m);
    IterateMIs(ts, s, lo, h, m);
    OneSignRun(ts, x, lo + 1, h - 1, m);
    OneSignRun(ts, y, lo + h, n - h, m);
  }

  lemma FirstIteration(ts: seq<Term>, s: int, lo: int, m: int)
    requires m > 0 && NoOverflow(ts, s, lo, 1, m)
    ensures IterateM(ts, s, lo, 1, m) == CMod(s + StepAt(ts, lo), m)
  {
    hide CMod, Wrap, StepAt;
    assert StepFits(ts, s, lo, 0, m);
    OneIteration(ts, s, lo, m);
    RemainderWord(s, StepAt(ts, lo), m);
  }

  lemma LaterSteps(ts: seq<Term>, lo: int, h: nat)
    requires h > 0
    ensures Rises(ts, lo, h) ==> Rises(ts, lo + 1, h - 1)
    ensures Falls(ts, lo, h) ==> Falls(ts, lo + 1, h - 1)
  { }

  lemma UModIs(a: int, m: int)
    requires 0 <= a < TWO32 && 0 < m < TWO31
    ensures UMod(a, m) == a % m
  {
    ModCong(m, a);
    WrapId(a % m);
  }

  lemma OneMore(m: int, a: int)
    ensures CongMod(m, a + m, a)
  {
    assert a + m == a + Times(1, m);
  }

  lemma OverflowPrefix(ts: seq<Term>, s: int, lo: int, n: nat, m: int)
    requires m > 0 && n > 0 && NoOverflow(ts, s, lo, n, m)
    ensures NoOverflow(ts, s, lo, n - 1, m)
    ensures IsInt32(StepAt(ts, lo + n - 1)) && IsInt32(IterateM(ts, s, lo, n - 1, m) + StepAt(ts, lo + n - 1))
  {
    assert StepFits(ts, s, lo, n - 1, m) && lo + (n - 1) == lo + n - 1;
  }

  lemma SubModIs(a: int, b: int, x: int, y: int, m: int)
    requires 0 < m < TWO31 && a == Mod(x, m) && b == Mod(y, m)
    ensures UMod(a - b + m, m) == Mod(x - y, m)
  {
    ModCong(m, x);
    ModCong(m, y);
    CongSum(m, a, x, b, y);
    UModIs(a - b + m, m);
    OneMore(m, a - b);
    CongTrans(m, a - b + m, a - b, x - y);
    ModEqual(m, a - b + m, x - y);
  }

  /** By how much, modulo `m`, reducing the argument first changes a triangle number. */
  function Shift(x: int, m: int): int
    requires m > 0
  {
    if m % 2 == 0 && (x / m) % 2 != 0 then m / 2 else 0
  }

  lemma TriangleOfEven(h: int, m: int)
    ensures Triangle((2 * h) * m) == Times(h * ((2 * h) * m + 1), m)
  {
    var y := (2 * h) * m;
    TriangleStep(y);
    assert y == 2 * (h * m) by { Comm3(2, h, m); }
    Comm3(2, h * m, y + 1);
    Comm3(h, m, y + 1);
    Comm3(h, y + 1, m);
  }

  lemma TriangleOfOdd(q: int, m: int, g: int)
    requires q * m + 1 == 2 * g
    ensures Triangle(q * m) == Times(q * g, m)
  {
    var y := q * m;
    TriangleStep(y);
    Comm3(2, y, g);
    Comm3(q, m, g);
    Comm3(q, g, m);
  }

  lemma OddTimesOdd(a: int, b: int)
    ensures (2 * a + 1) * (2 * b + 1) + 1 == 2 * (a * (2 * b + 1) + b + 1)
  {
    Distrib(2 * a, 1, 2 * b + 1);
    Comm3(2, a, 2 * b + 1);
  }

  lemma TriangleOfHalves(a: int, h: int)
    ensures
      var q, m := 2 * a + 1, 2 * h;
      Triangle(q * m) == h + Times(a + (q * h) * q, m)
  {
    var q, m := 2 * a + 1, 2 * h;
    var y, qh := q * m, q * h;
    TriangleStep(y);
    assert y == 2 * qh by { Comm3(2, q, h); }
    assert Triangle(y) == qh * (y + 1);
    Distrib(y, 1, qh);
    assert qh * y == (qh * q) * m by { Comm3(qh, q, m); }
    Distrib(2 * a, 1, h);
    assert qh == 2 * a * h + h;
    assert a * m == 2 * a * h by { Comm3(2, a, h); }
    Distrib(a, qh * q, m);
  }

  lemma HalfPart(q: int, m: int)
    requires m > 0
    ensures CongMod(m, Triangle(q * m), if m % 2 == 0 && q % 2 != 0 then m / 2 else 0)
  {
    hide Triangle;
    if q % 2 == 0 {
      var h := q / 2;
      TriangleOfEven(h, m);
      assert Triangle(q * m) == 0 + Times(h * (q * m + 1), m);
    } else if m % 2 != 0 {
      var a, b := q / 2, m / 2;
      var g := a * m + b + 1;
      OddTimesOdd(a, b);
      TriangleOfOdd(q, m, g);
      assert Triangle(q * m) == 0 + Times(q * g, m);
    } else {
      var a, h := q / 2, m / 2;
      TriangleOfHalves(a, h);
      assert Triangle(q * m) == h + Times(a + (q * h) * q, m);
    }
  }

  lemma TriangleParts(y: int, r: int)
    ensures Triangle(y + r) == Triangle(y) + Triangle(r) + Times(y, r)
  {
    TriangleStep(y + r);
    TriangleStep(y);
    TriangleStep(r);
    assert (y + r) * (y + r + 1) == y * (y + 1) + r * (r + 1) + 2 * (y * r);
  }

  lemma TriangleMod(x: int, m: int)
    requires m > 0
    ensures CongMod(m, Triangle(x), Triangle(Mod(x, m)) + Shift(x, m))
  {
    var q, r := x / m, x % m;
    assert x == q * m + r;
    TriangleParts(q * m, r);
    HalfPart(q, m);
    Comm3(q, m, r);
    assert Times(q * m, r) == 0 + Times(q * r, m);
    CongSum(m, Triangle(q * m), Shift(x, m), Times(q * m, r), 0);
    CongSame(m, Triangle(r));
    CongSum(m, Triangle(q * m) + Times(q * m, r), Shift(x, m), Triangle(r), Triangle(r));
  }

  /** One bound of the sum: what the code computes for it against its exact value. */
  lemma BoundMod(ts: seq<Term>, x: int, m: int)
    requires 0 < m < TWO31
    ensures CongMod(m, Times(Base(ts), Mod(x, m)) + Times(Slope(ts), Triangle(Mod(x, m))),
                    Times(Base(ts), x) + Times(Slope(ts), Triangle(x)) - Times(Slope(ts), Shift(x, m)))
  {
    hide CongMod, Triangle, Times, Shift, Mod, Base, Slope;
    var b, c, r := Base(ts), Slope(ts), Mod(x, m);
    ModCongruent(x, m);
    TriangleMod(x, m);
    CongSame(m, b);
    CongSame(m, c);
    CongProduct(m, b, b, r, x);
    CongProduct(m, c, c, Triangle(x), Triangle(r) + Shift(x, m));
    SplitTimes(c, Triangle(r), Shift(x, m));
    CongSame(m, Times(c, Shift(x, m)));
    CongSum(m, Times(c, Triangle(x)), Times(c, Triangle(r)) + Times(c, Shift(x, m)), Times(c, Shift(x, m)), Times(c, Shift(x, m)));
    CongTrans(m, Times(c, Triangle(x)) - Times(c, Shift(x, m)), Times(c, Triangle(r)), Times(c, Triangle(r)))
      by { CongSame(m, Times(c, Triangle(r))); }
    CongSum(m, Times(b, r), Times(b, x), Times(c, Triangle(r)), Times(c, Triangle(x)) - Times(c, Shift(x, m)));
  }

  lemma ModCongruent(x: int, m: int)
    requires m > 0
    ensures CongMod(m, Mod(x, m), x)
  {
    ModCong(m, x);
  }

  lemma SplitTimes(c: int, x: int, y: int)
    ensures Times(c, x + y) == Times(c, x) + Times(c, y)
    ensures Times(c, x - y) == Times(c, x) - Times(c, y)
  {
    Distrib(x, y, c);
    Distrib(x, -y, c);
  }

  /** The modular closed form, exactly: the invariant values count without sign. */
  lemma ClosedMIs(ts: seq<Term>, s: int, i1: int, last: int, m: int)
    requires 1 < m < TWO31 && i1 <= last
    ensures var us := Unsigned(ts);
      ClosedM(ts, s, i1, last, m) ==
      Mod(s + Total(us, i1, last - i1 + 1) + Times(Slope(us), Shift(i1 - 1, m) - Shift(last, m)), m)
  {
    hide CongMod, Triangle, Times, Shift, Mod, Base, Slope, CalcM, UMod, FixMod, Total, Unsigned;
    var us := Unsigned(ts);
    var b, c, lv := Base(us), Slope(us), i1 - 1;
    var up := Times(b, Mod(last, m)) + Times(c, Triangle(Mod(last, m)));
    var down := Times(b, Mod(lv, m)) + Times(c, Triangle(Mod(lv, m)));
    FixedWord(last, m);
    FixedWord(lv, m);
    FixedWord(s, m);
    CalcMIs(ts, Mod(last, m), m);
    CalcMIs(ts, Mod(lv, m), m);
    AddModIs(Mod(s, m), Mod(up, m), s, up, m);
    SubModIs(Mod(s + up, m), Mod(down, m), s + up, down, m);
    BoundMod(us, last, m);
    BoundMod(us, lv, m);
    CongSame(m, s);
    var up', down' := Times(b, last) + Times(c, Triangle(last)) - Times(c, Shift(last, m)),
                      Times(b, lv) + Times(c, Triangle(lv)) - Times(c, Shift(lv, m));
    CongSum(m, s, s, up, up');
    CongSum(m, s + up, s + up', down, down');
    TotalIs(us, i1, last - i1 + 1);
    SplitTimes(b, last, lv);
    SplitTimes(c, Triangle(last), Triangle(lv));
    SplitTimes(c, Shift(lv, m), Shift(last, m));
    ModsEqual(m, s + up - down, s + up' - down');
  }

  lemma FixedWord(x: int, m: int)
    requires 0 < m < TWO31
    ensures FixMod(x, m) == Mod(x, m) && 0 <= Mod(x, m) < m
  {
    FixModIs(x, m);
  }

  lemma ModsEqual(m: int, a: int, b: int)
    requires m > 0
    ensures Mod(a, m) == Mod(b, m) <==> CongMod(m, a, b)
  {
    ModEqual(m, a, b);
  }

  lemma ShiftMatters(c: int, x: int, y: int, m: int)
    requires m > 1
    ensures CongMod(m, Times(c, Shift(x, m) - Shift(y, m)), 0) <==>
      (m % 2 != 0 || c % 2 == 0 || (x / m - y / m) % 2 == 0)
  {
    var d := Shift(x, m) - Shift(y, m);
    if d == 0 {
      assert Times(c, 0) == 0;
      CongSame(m, 0);
    } else {
      var h := m / 2;
      assert m == 2 * h && (d == h || d == -h);
      HalfMultiple(c, d, h);
    }
  }

  lemma HalfMultiple(c: int, d: int, h: int)
    requires h > 0 && (d == h || d == -h)
    ensures CongMod(2 * h, Times(c, d), 0) <==> c % 2 == 0
  {
    hide Times, CongMod;
    var e := if d == h then c else -c;
    TimesNegated(c, h);
    MultipleOfDouble(e, h);
  }

  lemma TimesNegated(c: int, h: int)
    ensures Times(c, -h) == Times(-c, h)
  { }

  lemma DoubleTimes(k: int, h: int)
    ensures Times(k, 2 * h) == Times(2 * k, h)
  {
    Comm3(k, 2, h);
  }

  lemma TimesInjective(a: int, b: int, h: int)
    requires h > 0 && Times(a, h) == Times(b, h)
    ensures a == b
  {
    MulMono(a, b, h);
    MulMono(b, a, h);
  }

  lemma MultipleOfDouble(e: int, h: int)
    requires h > 0
    ensures CongMod(2 * h, Times(e, h), 0) <==> e % 2 == 0
  {
    hide Times;
    if e % 2 == 0 {
      DoubleTimes(e / 2, h);
      assert Times(e, h) == 0 + Times(e / 2, 2 * h);
    }
    if CongMod(2 * h, Times(e, h), 0) {
      var k :| Times(e, h) == 0 + Times(k, 2 * h);
      DoubleTimes(k, h);
      TimesInjective(e, 2 * k, h);
    }
  }

  /** For any invariant values the modular closed form is right exactly when the last remainder is not negative, which
      the sums of the steps tell, and the modulus divides what reading the values without sign and reducing the bounds
      add to the sum. */
  lemma ModularExact(ts: seq<Term>, s: int, i1: int, last: int, m: int)
    requires 1 < m < TWO31 && i1 <= last && NoOverflow(ts, s, i1, last - i1 + 1, m)
    ensures
      var n, us := last - i1 + 1, Unsigned(ts);
      ClosedM(ts, s, i1, last, m) == IterateM(ts, s, i1, n, m) <==>
      && LastRemainder(ts, s, i1, n, m) >= 0
      && CongMod(m, Total(us, i1, n) - Total(ts, i1, n) + Times(Slope(us), Shift(i1 - 1, m) - Shift(last, m)), 0)
  {
    hide CongMod, Times, Shift, Mod, Slope, ClosedM, IterateM, Total, NoOverflow, Unsigned, LastRemainder;
    var n, us := last - i1 + 1, Unsigned(ts);
    var exact, shift, r := s + Total(ts, i1, n), Times(Slope(us), Shift(i1 - 1, m) - Shift(last, m)), IterateM(ts, s, i1, n, m);
    var extra := Total(us, i1, n) - Total(ts, i1, n) + shift;
    IterateMIs(ts, s, i1, n, m);
    LastRemainderIs(ts, s, i1, n, m);
    ClosedMIs(ts, s, i1, last, m);
    assert s + Total(us, i1, n) + shift == exact + extra;
    RemainderOf(exact + extra, exact, r, m);
    DropTotal(m, exact, extra);
  }

  /** When the start and the first and last step are not negative, only the divisibility counts. */
  lemma ModularRising(ts: seq<Term>, s: int, i1: int, last: int, m: int)
    requires 1 < m < TWO31 && i1 <= last && NoOverflow(ts, s, i1, last - i1 + 1, m)
    requires s >= 0 && StepAt(ts, i1) >= 0 && StepAt(ts, last) >= 0
    ensures
      var n, us := last - i1 + 1, Unsigned(ts);
      ClosedM(ts, s, i1, last, m) == IterateM(ts, s, i1, n, m) <==>
      CongMod(m, Total(us, i1, n) - Total(ts, i1, n) + Times(Slope(us), Shift(i1 - 1, m) - Shift(last, m)), 0)
  {
    hide *;
    var n := last - i1 + 1;
    assert i1 + n - 1 == last;
    EndsDecide(ts, i1, n);
    NeverNegative(ts, s, i1, n, m);
    LastRemainderIs(ts, s, i1, n, m);
    ModularExact(ts, s, i1, last, m);
  }

  /** A remainder of `b` in (-m, m) is the modulus of `a` exactly when it is not negative and the numbers are congruent. */
  lemma RemainderOf(a: int, b: int, r: int, m: int)
    requires m > 0 && CongMod(m, r, b) && -m < r < m
    ensures Mod(a, m) == r <==> r >= 0 && CongMod(m, a, b)
  {
    ModsEqual(m, r, b);
    ModsEqual(m, a, b);
    ModCong(m, a);
    if r >= 0 { SmallMod(m, r); }
  }

  /** For values that are not negative that is when the modulus is odd, or the coefficient of the counter is even, or
      the bounds are an even number of moduli apart. */
  lemma ModularIff(ts: seq<Term>, s: int, i1: int, last: int, m: int)
    requires 1 < m < TWO31 && NonNegative(ts) && 0 <= s && 0 <= i1 <= last
    requires NoOverflow(ts, s, i1, last - i1 + 1, m)
    ensures ClosedM(ts, s, i1, last, m) == IterateM(ts, s, i1, last - i1 + 1, m) <==>
      (m % 2 != 0 || Slope(ts) % 2 == 0 || ((i1 - 1) / m - last / m) % 2 == 0)
  {
    hide CongMod, Times, Shift, Slope, ClosedM, IterateM, Total, NoOverflow, NonNegative, Unsigned, StepAt;
    StepSign(ts, i1);
    StepSign(ts, last);
    UnsignedSame(ts);
    ModularRising(ts, s, i1, last, m);
    ShiftMatters(Slope(ts), i1 - 1, last, m);
  }

  /** A negative value: one iteration of `s = (s - 1) % 7` from 1 gives 0, the closed form 4. */
  lemma NegativeValueWrong()
    ensures var ts := [Term(1, [-1], false)];
      NoOverflow(ts, 1, 1, 1, 7) && IterateM(ts, 1, 1, 1, 7) == 0 && ClosedM(ts, 1, 1, 1, 7) == 4
  {
    var ts := [Term(1, [-1], false)];
    hide NoOverflow, IterateM, ClosedM, StepAt, Slope, Unsigned;
    NegativeStep();
    ClosedMIs(ts, 1, 1, 1, 7);
    assert Total(Unsigned(ts), 1, 1) == 0 + StepAt(Unsigned(ts), 1);
    TimesZero(Shift(0, 7) - Shift(1, 7));
  }

  lemma NegativeStep()
    ensures var ts := [Term(1, [-1], false)];
      && NoOverflow(ts, 1, 1, 1, 7) && IterateM(ts, 1, 1, 1, 7) == 0
      && StepAt(Unsigned(ts), 1) == TWO32 - 1 && Slope(Unsigned(ts)) == 0
  {
    hide IterateM, Unsigned, StepAt, Slope;
    var ts, us := [Term(1, [-1], false)], [Term(1, [TWO32 - 1], false)];
    OneValue(-1);
    OneValue(TWO32 - 1);
    UnsignedOne(-1);
    assert IterateM(ts, 1, 1, 1, 7) == 0 && StepFits(ts, 1, 1, 0, 7) by {
      OneIteration(ts, 1, 1, 7);
      CDivMod(0, 7);
    }
  }

  lemma OneIteration(ts: seq<Term>, s: int, lo: int, m: int)
    requires m > 0
    ensures IterateM(ts, s, lo, 0, m) == s && IterateM(ts, s, lo, 1, m) == CMod(Wrap(s + Wrap(StepAt(ts, lo))), m)
  {
    hide CMod, Wrap, StepAt;
    assert lo + 1 - 1 == lo;
    assert IterateM(ts, s, lo, 0, m) == s;
  }

  lemma OneValue(v: int)
    ensures StepAt([Term(1, [v], false)], 1) == v && Slope([Term(1, [v], false)]) == 0
  {
    hide Times;
    var t := Term(1, [v], false);
    assert [t][..0] == [] && [v][..0] == [];
    assert Product(1, []) == 1;
    assert Times(1, v) == v by { TimesOne(v); }
  }

  lemma TimesOne(v: int)
    ensures Times(1, v) == v
  { }

  lemma UnsignedOne(v: int)
    ensures Unsigned([Term(1, [v], false)]) == [Term(1, [U(v)], false)]
  {
    hide U;
    var t := Term(1, [v], false);
    assert [t][..0] == [] && [v][..0] == [];
    assert Words([]) == [] && Unsigned([]) == [];
    assert Words([v]) == [] + [U(v)] == [U(v)];
    assert Unsigned([t]) == Unsigned([]) + [t.(regs := Words(t.regs))];
    assert [] + [t.(regs := [U(v)])] == [Term(1, [U(v)], false)];
  }

  lemma DropTotal(m: int, total: int, extra: int)
    ensures CongMod(m, total + extra, total) <==> CongMod(m, extra, 0)
  {
    if CongMod(m, total + extra, total) {
      var k :| total + extra == total + Times(k, m);
      assert extra == 0 + Times(k, m);
    }
    if CongMod(m, extra, 0) {
      var k :| extra == 0 + Times(k, m);
      assert total + extra == total + Times(k, m);
    }
  }

  // ----- loops whose condition is > or >= -----

  /** Such a loop ends at once when the code is inserted in its place, so its variable must stay as it is. A product is
      subtracted rightly exactly when it is a multiple of 2^32. */
  lemma DownwardSubtracted(s: int, c: int, n: nat)
    requires IsInt32(s)
    ensures Wrap(s - Wrap(Times(Wrap(n), c))) == s <==> CongMod(TWO32, Times(n, c), 0)
  {
    hide Times, CongMod, Wrap;
    WordTimes(n, c);
    WrapAdd(s, Times(n, c));
    WrapId(s);
    WrapEqual(s - Times(n, c), s);
    if CongMod(TWO32, s - Times(n, c), s) { CongShiftBack(TWO32, s, Times(n, c)); }
    if CongMod(TWO32, Times(n, c), 0) {
      CongSame(TWO32, s);
      CongSum(TWO32, s, s, Times(n, c), 0);
    }
  }

  lemma CongShiftBack(m: int, s: int, t: int)
    requires CongMod(m, s - t, s)
    ensures CongMod(m, t, 0)
  {
    CongSame(m, s);
    CongSum(m, s, s, s - t, s);
  }

  /** A division leaves a value only when it is zero or nothing is shifted. */
  lemma DownwardDivided(x: int, k: nat, n: nat)
    requires IsInt32(x)
    ensures DivPow2(x, Wrap(n * k)) == x <==> x == 0 || U(n * k) == 0
  {
    hide Pow2, DivPow2, CDiv;
    WordShift(x, n * k);
    WordShift(0, n * k);
    var e := U(n * k);
    if e <= 31 {
      DivPow2Is(x, e);
      QuotientKeeps(x, e);
    }
  }

  lemma QuotientKeeps(x: int, e: nat)
    ensures CDiv(x, Pow2(e)) == x <==> x == 0 || e == 0
  {
    QuotSmaller(if x >= 0 then x else -x, Pow2(e));
    if e > 0 { assert Pow2(e) == 2 * Pow2(e - 1); }
  }

  lemma {:induction false} QuotSmaller(n: nat, v: nat)
    requires v > 0
    ensures if v == 1 || n == 0 then Quot(n, v) == n else Quot(n, v) < n
  {
    if n >= v { QuotSmaller(n - v, v); }
  }

  /** The modular form leaves a value exactly when it is reduced and what is added is a multiple of the modulus. */
  lemma DownwardModular(ts: seq<Term>, s: int, i1: int, last: int, m: int)
    requires 1 < m < TWO31 && i1 <= last
    ensures
      var n, us := last - i1 + 1, Unsigned(ts);
      ClosedM(ts, s, i1, last, m) == s <==>
      0 <= s < m && CongMod(m, Total(us, i1, n) + Times(Slope(us), Shift(i1 - 1, m) - Shift(last, m)), 0)
  {
    hide CongMod, Times, Shift, Slope, ClosedM, Total, Unsigned;
    var n, us := last - i1 + 1, Unsigned(ts);
    var extra := Total(us, i1, n) + Times(Slope(us), Shift(i1 - 1, m) - Shift(last, m));
    ClosedMIs(ts, s, i1, last, m);
    ModCong(m, s + extra);
    if 0 <= s < m {
      SmallMod(m, s);
      ModsEqual(m, s + extra, s);
      DropTotal(m, s, extra);
    }
  }
}
