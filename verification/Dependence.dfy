/** The symbolic dependence test between array accesses of one loop (`MulAddExpr::maybe_eq`, `AddrExpr::maybe_eq`,
    src/ir/opt/simplify_expr.cpp; `ArrayReadWrite::dependent`, src/ir/opt/loop_ops.cpp), and what it implies for
    the independence of iterations. */
module Dependence {
  import opened Word32
  import opened FiniteSets

  // ----- polynomials -----

  /** A product of registers with exponents. */
  type Mono = map<nat, nat>

  /** A sum of products with coefficients. */
  type Poly = map<Mono, int>

  const ONE: Mono := map[]

  type Env = map<nat, int>

  function Get(env: Env, x: nat): int {
    if x in env then env[x] else 0
  }

  function Power(b: int, n: nat): int {
    if n == 0 then 1 else Times(b, Power(b, n - 1))
  }

  lemma Smaller<K, V>(m: map<K, V>, k: K)
    requires k in m
    ensures |m - {k}| < |m|
  {
    assert (m - {k}).Keys == m.Keys - {k};
    assert |(m - {k}).Keys| == |m - {k}| && |m.Keys| == |m|;
  }

  ghost function MonoVal(k: Mono, env: Env): int
    decreases |k|
  {
    if k == map[] then 1
    else
      var x :| x in k;
      assert |k - {x}| < |k| by { Smaller(k, x); }
      Times(Power(Get(env, x), k[x]), MonoVal(k - {x}, env))
  }

  lemma TimesSwap(a: int, b: int, c: int)
    ensures Times(a, Times(b, c)) == Times(b, Times(a, c))
  {
    Comm3(a, b, c);
  }

  lemma {:induction false} MonoSplit(k: Mono, env: Env, x: nat)
    requires x in k
    ensures MonoVal(k, env) == Times(Power(Get(env, x), k[x]), MonoVal(k - {x}, env))
    decreases |k|
  {
    hide Times, Power;
    var y :| y in k && MonoVal(k, env) == Times(Power(Get(env, y), k[y]), MonoVal(k - {y}, env));
    if y != x {
      Smaller(k, x);
      Smaller(k, y);
      MonoSplit(k - {y}, env, x);
      MonoSplit(k - {x}, env, y);
      assert k - {y} - {x} == k - {x} - {y};
      TimesSwap(Power(Get(env, y), k[y]), Power(Get(env, x), k[x]), MonoVal(k - {x} - {y}, env));
    }
  }

  ghost function PolyVal(p: Poly, env: Env): int
    decreases |p|
  {
    if p == map[] then 0
    else
      var k :| k in p;
      assert |p - {k}| < |p| by { Smaller(p, k); }
      Times(p[k], MonoVal(k, env)) + PolyVal(p - {k}, env)
  }

  lemma {:induction false} PolySplit(p: Poly, env: Env, k: Mono)
    requires k in p
    ensures PolyVal(p, env) == Times(p[k], MonoVal(k, env)) + PolyVal(p - {k}, env)
    decreases |p|
  {
    hide Times, MonoVal;
    var y :| y in p && PolyVal(p, env) == Times(p[y], MonoVal(y, env)) + PolyVal(p - {y}, env);
    if y != k {
      Smaller(p, k);
      Smaller(p, y);
      PolySplit(p - {y}, env, k);
      PolySplit(p - {k}, env, y);
      assert p - {y} - {k} == p - {k} - {y};
    }
  }

  /** The value of a product depends only on its registers. */
  lemma {:induction false} MonoSame(k: Mono, e1: Env, e2: Env)
    requires forall x :: x in k ==> Get(e1, x) == Get(e2, x)
    ensures MonoVal(k, e1) == MonoVal(k, e2)
    decreases |k|
  {
    if k != map[] {
      var x :| x in k;
      Smaller(k, x);
      MonoSplit(k, e1, x);
      MonoSplit(k, e2, x);
      MonoSame(k - {x}, e1, e2);
    }
  }

  lemma {:induction false} PolySame(p: Poly, e1: Env, e2: Env)
    requires forall k, x :: k in p && x in k ==> Get(e1, x) == Get(e2, x)
    ensures PolyVal(p, e1) == PolyVal(p, e2)
    decreases |p|
  {
    if p != map[] {
      var k :| k in p;
      Smaller(p, k);
      PolySplit(p, e1, k);
      PolySplit(p, e2, k);
      MonoSame(k, e1, e2);
      PolySame(p - {k}, e1, e2);
    }
  }

  // ----- polynomials that are linear in one register -----

  predicate LinearIn(p: Poly, i: nat) {
    forall k :: k in p && i in k ==> k[i] == 1
  }

  /** The coefficient of register `i`. */
  ghost function Lead(p: Poly, env: Env, i: nat): int {
    PolyVal(p, env[i := 1]) - PolyVal(p, env[i := 0])
  }

  lemma MonoAt(k: Mono, env: Env, i: nat, u: int)
    requires i in k ==> k[i] == 1
    ensures i in k ==> MonoVal(k, env[i := u]) == Times(u, MonoVal(k - {i}, env))
    ensures i !in k ==> MonoVal(k, env[i := u]) == MonoVal(k, env)
  {
    if i in k {
      MonoSplit(k, env[i := u], i);
      MonoSame(k - {i}, env[i := u], env);
      assert Power(u, 1) == Times(u, Power(u, 0)) == u;
    } else {
      MonoSame(k, env[i := u], env);
    }
  }

  lemma LinearTerm(a: int, u: int, m: int)
    ensures Times(a, Times(u, m)) == Times(a, Times(0, m)) + Times(u, Times(a, Times(1, m)) - Times(a, Times(0, m)))
  {
    Comm3(a, u, m);
  }

  lemma LinearSum(u: int, x: int, y: int, a: int, b: int)
    ensures Times(u, x - a) + Times(u, y - b) == Times(u, (x + y) - (a + b))
  {
    Distrib(x - a, y - b, u);
  }

  /** A polynomial linear in `i` is an affine function of its value. */
  lemma {:induction false} LinearAt(p: Poly, env: Env, i: nat, u: int)
    requires LinearIn(p, i)
    ensures PolyVal(p, env[i := u]) == PolyVal(p, env[i := 0]) + Times(u, Lead(p, env, i))
    decreases |p|
  {
    hide Times, MonoVal;
    if p == map[] {
      TimesZero(u);
      assert PolyVal(p, env[i := u]) == 0 && Lead(p, env, i) == 0;
    } else {
      var k :| k in p;
      var rest := p - {k};
      Smaller(p, k);
      LinearAt(rest, env, i, u);
      PolySplit(p, env[i := u], k);
      PolySplit(p, env[i := 0], k);
      PolySplit(p, env[i := 1], k);
      MonoAt(k, env, i, u);
      MonoAt(k, env, i, 0);
      MonoAt(k, env, i, 1);
      var a, m := p[k], MonoVal(k - {i}, env);
      if i in k {
        LinearTerm(a, u, m);
        LinearSum(u, Times(a, Times(1, m)), PolyVal(rest, env[i := 1]), Times(a, Times(0, m)), PolyVal(rest, env[i := 0]));
      }
    }
  }

  // ----- the test on one index -----

  /** What the loop tells about registers: its induction variable with a constant step, and the registers it does
      not define. Nothing is known about the others. */
  datatype Context = Context(ind: nat, step: int, fixed: set<nat>)

  function Const(p: Poly): int {
    if ONE in p then p[ONE] else 0
  }

  function NonConst(p: Poly): Poly {
    p - {ONE}
  }

  /** Coefficients are words, and zero terms are not kept. */
  ghost predicate WellPoly(p: Poly) {
    forall k :: k in p ==> p[k] != 0 && IsInt32(p[k])
  }

  /** C's remainder, with the sign of the dividend. */
  function CRem(a: int, b: int): int
    requires b != 0
  {
    var m := if b > 0 then b else -b;
    if a >= 0 then a % m else -((-a) % m)
  }

  function Gcd(a: int, b: int): int
    decreases if b >= 0 then b else -b
  {
    if b == 0 then a else Gcd(b, CRem(a, b))
  }

  lemma GcdSelf(g: int, step: int)
    requires step != 0 && (g == 0 || g == step)
    ensures Gcd(Gcd(0, g), step) == step
  {
    assert CRem(0, step) == 0 && CRem(step, step) == 0;
    assert Gcd(step, 0) == step;
    if g == step { assert Gcd(0, step) == Gcd(step, 0); }
    assert Gcd(0, step) == Gcd(step, 0) && Gcd(step, step) == Gcd(step, 0);
  }

  function Abs32(x: int): int {
    if x >= 0 then x else Wrap(-x)
  }

  /** The factor `x` to the power `n` may occur in a comparable index. */
  predicate FactorOk(c: Context, x: nat, n: nat) {
    if x == c.ind && c.step != 0 then n == 1 else x == c.ind || x in c.fixed
  }

  predicate MonoOk(c: Context, k: Mono) {
    forall x :: x in k ==> FactorOk(c, x, k[x])
  }

  predicate HasInd(c: Context, p: Poly) {
    c.step != 0 && exists k :: k in p && c.ind in k
  }

  /** The test proves the two indexes different. */
  predicate Separate(c: Context, p: Poly, q: Poly) {
    && NonConst(p) == NonConst(q)
    && (forall k :: k in p ==> MonoOk(c, k))
    && Wrap((if HasInd(c, p) then c.step else 0) - Abs32(Wrap(Const(p) - Const(q)))) > 0
  }

  /** The factors of one product: fold the step of the induction variable into the common divisor. */
  method Factors(c: Context, k: Mono, g0: int) returns (ok: bool, g: int)
    requires g0 == 0 || g0 == c.step
    ensures ok <==> MonoOk(c, k)
    ensures ok ==> g == if c.ind in k && c.step != 0 then c.step else g0
  {
    g := g0;
    var regs := Listed(k.Keys);
    for j := 0 to |regs|
      invariant forall x :: x in regs[..j] ==> FactorOk(c, x, k[x])
      invariant g == if c.ind in regs[..j] && c.step != 0 then c.step else g0
    {
      var x := regs[j];
      assert x in regs;
      if x == c.ind {
        if c.step != 0 {
          if k[x] != 1 { return false, g; }
          GcdSelf(g, c.step);
          g := Gcd(Gcd(0, g), c.step);
        }
      } else if x !in c.fixed {
        return false, g;
      }
    }
    assert regs[..|regs|] == regs;
    ok := true;
  }

  /** Terms other than the constant, as the code counts them. */
  function TermCount(p: Poly): int {
    |p| - (if Const(p) != 0 then 1 else 0)
  }

  lemma Count(p: Poly)
    requires WellPoly(p)
    ensures |NonConst(p)| == TermCount(p)
  {
    assert NonConst(p).Keys == p.Keys - {ONE};
    assert |NonConst(p).Keys| == |NonConst(p)| && |p.Keys| == |p|;
  }

  lemma SameTerms(p: Poly, q: Poly)
    requires |NonConst(p)| == |NonConst(q)|
    requires forall k :: k in p && k != ONE ==> k in q && q[k] == p[k]
    ensures NonConst(p) == NonConst(q)
  {
    var a, b := NonConst(p), NonConst(q);
    assert |a.Keys| == |a| && |b.Keys| == |b|;
    SubsetSize(a.Keys, b.Keys);
  }

  predicate TermOk(c: Context, p: Poly, q: Poly, k: Mono)
    requires k in p
  {
    k == ONE || (k in q && q[k] == p[k] && MonoOk(c, k))
  }

  /** The loop over the terms of the first index. */
  method CompareTerms(c: Context, p: Poly, q: Poly) returns (ok: bool, g: int)
    ensures ok <==> forall k :: k in p ==> TermOk(c, p, q, k)
    ensures ok ==> g == if HasInd(c, p) then c.step else 0
  {
    hide MonoOk;
    g := 0;
    var keys := Listed(p.Keys);
    for j := 0 to |keys|
      invariant forall i :: 0 <= i < j ==> keys[i] in p && TermOk(c, p, q, keys[i])
      invariant g == if c.step != 0 && (exists i :: 0 <= i < j && c.ind in keys[i]) then c.step else 0
    {
      var k := keys[j];
      assert k in keys;
      if k != ONE {
        if k !in q || p[k] != q[k] { return false, g; }
        var fine;
        fine, g := Factors(c, k, g);
        if !fine { return false, g; }
      }
    }
    ok := true;
    forall k | k in p ensures TermOk(c, p, q, k) { assert k in keys; }
  }

  lemma TermsDecide(c: Context, p: Poly, q: Poly)
    requires WellPoly(p) && WellPoly(q) && TermCount(p) == TermCount(q)
    ensures (forall k :: k in p ==> TermOk(c, p, q, k)) <==>
      NonConst(p) == NonConst(q) && forall k :: k in p ==> MonoOk(c, k)
  {
    Count(p);
    Count(q);
    if forall k :: k in p ==> TermOk(c, p, q, k) {
      forall k | k in p ensures MonoOk(c, k) { assert TermOk(c, p, q, k); }
      SameTerms(p, q);
    }
    if NonConst(p) == NonConst(q) && forall k :: k in p ==> MonoOk(c, k) {
      forall k | k in p ensures TermOk(c, p, q, k) {
        if k != ONE { assert k in NonConst(p) && k in NonConst(q) && NonConst(q)[k] == q[k]; }
      }
    }
  }

  /** An index: a polynomial, or, when its expression has gone bad, no more than the register that holds it. */
  datatype Index = Known(p: Poly) | Lost(r: nat)

  ghost predicate WellIndex(i: Index) { i.Known? ==> WellPoly(i.p) }

  predicate IndexSeparate(c: Context, i: Index, j: Index) {
    i.Known? && j.Known? && Separate(c, i.p, j.p)
  }

  ghost function IndexVal(i: Index, env: Env): int {
    match i
    case Known(p) => PolyVal(p, env)
    case Lost(r) => Get(env, r)
  }

  /** `MulAddExpr::maybe_eq` */
  method MaybeEq(c: Context, i: Index, j: Index) returns (maybe: bool)
    requires WellIndex(i) && WellIndex(j)
    ensures maybe <==> !IndexSeparate(c, i, j)
  {
    hide WellPoly, TermOk, MonoOk, HasInd, Abs32, Wrap, NonConst, TermCount;
    if i.Lost? || j.Lost? { return true; }
    var p, q := i.p, j.p;
    if TermCount(p) != TermCount(q) {
      OtherCount(p, q);
      return true;
    }
    TermsDecide(c, p, q);
    var ok, g := CompareTerms(c, p, q);
    maybe := !ok || !(Wrap(g - Abs32(Wrap(Const(p) - Const(q)))) > 0);
  }

  lemma OtherCount(p: Poly, q: Poly)
    requires WellPoly(p) && WellPoly(q) && TermCount(p) != TermCount(q)
    ensures NonConst(p) != NonConst(q)
  {
    Count(p);
    Count(q);
  }

  // ----- what the test means -----

  /** In iterations where the induction variable has the values `u` and `w`, the indexes differ. */
  ghost predicate DifferAt(c: Context, p: Poly, q: Poly, env: Env, u: int, w: int) {
    PolyVal(p, env[c.ind := u]) != PolyVal(q, env[c.ind := w])
  }

  lemma ConstSplit(p: Poly, env: Env)
    ensures PolyVal(p, env) == Const(p) + PolyVal(NonConst(p), env)
  {
    if ONE in p {
      PolySplit(p, env, ONE);
      assert Times(p[ONE], 1) == p[ONE];
    } else {
      assert NonConst(p) == p;
    }
  }

  lemma SeparateLinear(c: Context, p: Poly, q: Poly)
    requires Separate(c, p, q) && c.step != 0
    ensures LinearIn(p, c.ind) && NonConst(p) == NonConst(q)
  {
    forall k | k in p && c.ind in k ensures k[c.ind] == 1 {
      assert MonoOk(c, k);
      assert FactorOk(c, c.ind, k[c.ind]);
    }
  }

  /** The distances of constants that the comparison with the step lets pass: for a negative step the large ones. */
  predicate Passes(step: int, d: int) {
    if step > 0 then -step < d < step
    else step != 0 && (d > TWO31 + step || (d < -TWO31 - step && !(d == -TWO31 && step == -TWO31)))
  }

  lemma ComparisonPasses(step: int, d: int, used: bool)
    requires IsInt32(step) && IsInt32(d)
    ensures Wrap((if used then step else 0) - Abs32(Wrap(d))) > 0 <==> used && Passes(step, d)
  {
    WrapId(d);
    if d > -TWO31 { WrapId(-d); } else { assert Abs32(d) == -TWO31; }
    var x := (if used then step else 0) - Abs32(d);
    if IsInt32(x) { WrapId(x); }
    else if x < -TWO31 { WrapCong(x, x + TWO32, -1); WrapId(x + TWO32); }
    else { WrapCong(x, x - TWO32, 1); WrapId(x - TWO32); }
  }

  /** The test, for every step: the indexes have the same comparable terms, the induction variable among them, and the
      distance of the constants passes. With a negative step and constants closer than 2^31 less its size, it never
      separates. */
  lemma SeparateIff(c: Context, p: Poly, q: Poly)
    requires IsInt32(c.step) && IsInt32(Const(p) - Const(q))
    ensures Separate(c, p, q) <==>
      && NonConst(p) == NonConst(q) && (forall k :: k in p ==> MonoOk(c, k))
      && HasInd(c, p) && Passes(c.step, Const(p) - Const(q))
  {
    ComparisonPasses(c.step, Const(p) - Const(q), HasInd(c, p));
  }

  /** `k` iterations apart, the second with the value `w` of the induction variable. */
  ghost predicate ApartBy(c: Context, p: Poly, q: Poly, env: Env, k: int, w: int) {
    DifferAt(c, p, q, env, w + Times(k, c.step), w)
  }

  lemma LeadOfNonConst(p: Poly, env: Env, i: nat)
    ensures Lead(NonConst(p), env, i) == Lead(p, env, i)
  {
    ConstSplit(p, env[i := 1]);
    ConstSplit(p, env[i := 0]);
  }

  lemma ValueDiff(c: Context, p: Poly, q: Poly, env: Env, u: int, w: int)
    requires NonConst(p) == NonConst(q) && LinearIn(p, c.ind)
    ensures PolyVal(p, env[c.ind := u]) - PolyVal(q, env[c.ind := w]) ==
      Const(p) - Const(q) + Times(u - w, Lead(p, env, c.ind))
  {
    ConstSplit(p, env[c.ind := u]);
    ConstSplit(q, env[c.ind := w]);
    LinearAt(NonConst(p), env, c.ind, u);
    LinearAt(NonConst(p), env, c.ind, w);
    LeadOfNonConst(p, env, c.ind);
    Distrib(u, -w, Lead(p, env, c.ind));
  }

  lemma BigProduct(k: int, s: int, a: int)
    requires k != 0 && a != 0 && s > 0
    ensures Times(Times(k, s), a) >= s || Times(Times(k, s), a) <= -s
  {
    var m := k * a;
    assert m >= 1 || m <= -1;
    assert k * s * a == m * s;
    if m >= 1 { MulMono(1, m, s); } else { MulMono(m, -1, s); }
  }

  /** No number of steps other than 0 leads from the distance `d` to 0. */
  predicate NeverHits(d: int, t: int) {
    if t == 0 then d != 0 else d == 0 || d % (if t > 0 then t else -t) != 0
  }

  lemma NeverHitsIff(d: int, t: int)
    ensures (forall k: int :: k != 0 ==> d + Times(k, t) != 0) <==> NeverHits(d, t)
  {
    var m := if t > 0 then t else -t;
    if t == 0 {
      assert d == 0 ==> d + Times(1, t) == 0;
      forall k: int ensures Times(k, t) == 0 { TimesZero(k); }
    } else {
      var q := d / m;
      var k := if t > 0 then -q else q;
      assert d == q * m + d % m;
      assert Times(k, t) == -(q * m);
      if d != 0 && d % m == 0 { assert k != 0 && d + Times(k, t) == 0; }
      forall k: int | k != 0 && d + Times(k, t) == 0 ensures d % m == 0 && d != 0 { Divides(d, k, t); }
    }
  }

  lemma Divides(d: int, k: int, t: int)
    requires t != 0 && k != 0 && d + Times(k, t) == 0
    ensures d % (if t > 0 then t else -t) == 0 && d != 0
  {
    var m := if t > 0 then t else -t;
    var q := if t > 0 then -k else k;
    assert d == q * m;
    assert (q + 1) * m == q * m + m;
    DivUnique(d, m, q);
    assert d == (d / m) * m + d % m;
  }

  /** When the test has separated two indexes, they differ in every two iterations exactly when the distance of the
      constants is not a multiple, other than 0, of what the index grows by in one step. */
  lemma SeparateSound(c: Context, p: Poly, q: Poly, env: Env)
    requires Separate(c, p, q) && c.step != 0
    ensures (forall k, w :: k != 0 ==> ApartBy(c, p, q, env, k, w)) <==>
      NeverHits(Const(p) - Const(q), Times(c.step, Lead(p, env, c.ind)))
  {
    hide Separate, Lead, PolyVal, NeverHits, Times;
    SeparateLinear(c, p, q);
    var d, t := Const(p) - Const(q), Times(c.step, Lead(p, env, c.ind));
    NeverHitsIff(d, t);
    forall k, w ensures ApartBy(c, p, q, env, k, w) <==> d + Times(k, t) != 0 { ApartIff(c, p, q, env, k, w); }
    if forall k, w :: k != 0 ==> ApartBy(c, p, q, env, k, w) {
      forall k: int | k != 0 ensures d + Times(k, t) != 0 { assert ApartBy(c, p, q, env, k, 0); }
    }
  }

  lemma ApartIff(c: Context, p: Poly, q: Poly, env: Env, k: int, w: int)
    requires NonConst(p) == NonConst(q) && LinearIn(p, c.ind)
    ensures ApartBy(c, p, q, env, k, w) <==>
      Const(p) - Const(q) + Times(k, Times(c.step, Lead(p, env, c.ind))) != 0
  {
    hide Lead, PolyVal;
    ValueDiff(c, p, q, env, w + Times(k, c.step), w);
    Comm3(k, c.step, Lead(p, env, c.ind));
  }

  /** With a positive step that is so when the induction variable really has a coefficient, or the constants differ. */
  lemma PositiveStep(c: Context, p: Poly, q: Poly, env: Env)
    requires Separate(c, p, q) && 0 < c.step < TWO31 && IsInt32(Const(p) - Const(q))
    ensures NeverHits(Const(p) - Const(q), Times(c.step, Lead(p, env, c.ind))) <==>
      Lead(p, env, c.ind) != 0 || Const(p) != Const(q)
  {
    SeparateIff(c, p, q);
    CloseNeverHits(Const(p) - Const(q), c.step, Lead(p, env, c.ind));
  }

  lemma CloseNeverHits(d: int, s: int, a: int)
    requires s > 0 && -s < d < s
    ensures NeverHits(d, Times(s, a)) <==> a != 0 || d != 0
  {
    TimesZero(s);
    if a != 0 {
      BigProduct(1, s, a);
      assert Times(1, s) == s;
    }
  }

  /** Separated indexes contain the induction variable, which moves. */
  lemma SeparateMoves(c: Context, p: Poly, q: Poly)
    requires Separate(c, p, q)
    ensures c.step != 0 && HasInd(c, p)
  { }

  /** With step 1 only equal constants pass, so the coefficient decides. */
  lemma UnitStep(c: Context, p: Poly, q: Poly, env: Env)
    requires Separate(c, p, q) && c.step == 1 && IsInt32(Const(p) - Const(q))
    ensures Const(p) == Const(q)
    ensures NeverHits(Const(p) - Const(q), Times(c.step, Lead(p, env, c.ind))) <==> Lead(p, env, c.ind) != 0
  {
    hide Separate, Lead;
    SeparateIff(c, p, q);
    PositiveStep(c, p, q, env);
  }

  /** The induction variable occurs only as a term of its own. */
  predicate OwnTerm(p: Poly, i: nat) {
    forall k :: k in p && i in k ==> k == map[i := 1]
  }

  lemma OwnTermLead(c: Context, p: Poly, env: Env)
    requires WellPoly(p) && OwnTerm(p, c.ind) && HasInd(c, p)
    ensures Lead(p, env, c.ind) != 0
  {
    var i := c.ind;
    var k: Mono := map[i := 1];
    assert k in p by { var h :| h in p && i in h; }
    var rest := p - {k};
    PolySplit(p, env[i := 1], k);
    PolySplit(p, env[i := 0], k);
    PolySame(rest, env[i := 1], env[i := 0]);
    MonoAt(k, env, i, 1);
    MonoAt(k, env, i, 0);
    assert k - {i} == map[];
    assert Times(1, 1) == 1 && Times(0, 1) == 0 && Times(p[k], 1) == p[k] && Times(p[k], 0) == 0;
  }

  lemma ProductZero(u: int)
    ensures PolyVal(map[map[0 := 1, 1 := 1] := 1], map[1 := 0][0 := u]) == 0
  {
    var k: Mono := map[0 := 1, 1 := 1];
    var p: Poly := map[k := 1];
    var env: Env := map[1 := 0][0 := u];
    PolySplit(p, env, k);
    MonoSplit(k, env, 1);
    assert Power(0, 1) == Times(0, Power(0, 0)) == 0;
    TimesZero(MonoVal(k - {1}, env));
    TimesZero(p[k]);
    assert p - {k} == map[];
  }

  lemma VariableValue(u: int)
    ensures PolyVal(map[map[0 := 1] := 1], map[][0 := u]) == u
  {
    var k: Mono := map[0 := 1];
    var q: Poly := map[k := 1];
    PolySplit(q, map[][0 := u], k);
    MonoAt(k, map[], 0, u);
    assert k - {0} == map[] && q - {k} == map[];
    assert Times(u, 1) == u && Times(1, u) == u;
  }

  /** An index `i * j` passes the test, but in a run where `j` is 0 all iterations access the same element. */
  lemma InvariantFactorMissed()
    ensures
      var c := Context(0, 1, {1});
      var p: Poly := map[map[0 := 1, 1 := 1] := 1];
      Separate(c, p, p) && !DifferAt(c, p, p, map[1 := 0], 1, 0)
  {
    var c := Context(0, 1, {1});
    var k: Mono := map[0 := 1, 1 := 1];
    var p: Poly := map[k := 1];
    var env: Env := map[1 := 0];
    assert k in p && 0 in k;
    assert HasInd(c, p);
    WrapId(0);
    WrapId(1);
    ProductZero(0);
    ProductZero(1);
  }

  /** With a negative step the comparison with the distance can wrap around and pass by mistake. */
  lemma NegativeStepMissed()
    ensures
      var c := Context(0, -5, {});
      var p: Poly := map[ONE := 2147483645, map[0 := 1] := 1];
      var q: Poly := map[map[0 := 1] := 1];
      Separate(c, p, q) && Times(429496729, -5) == -2147483645 && !DifferAt(c, p, q, map[], -2147483645, 0)
  {
    var c := Context(0, -5, {});
    var k: Mono := map[0 := 1];
    var p: Poly := map[ONE := 2147483645, k := 1];
    var q: Poly := map[k := 1];
    assert 0 in k && k in p && k != ONE;
    assert NonConst(p) == q == NonConst(q);
    assert HasInd(c, p) && ONE !in q;
    WrapId(2147483645);
    assert Wrap(-5 - 2147483645) == 2147483646;
    VariableValue(-2147483645);
    VariableValue(0);
    ConstSplit(p, map[][0 := -2147483645]);
  }

  // ----- addresses -----

  /** An array access: an array and, for each stride, an index; or, when the address is no such expression, no more
      than the register that holds it. */
  datatype Access = Element(base: nat, idx: map<nat, Index>) | Unknown(r: nat)

  ghost predicate WellAccess(a: Access) {
    a.Element? ==> forall s :: s in a.idx ==> WellIndex(a.idx[s])
  }

  /** Stride `s` proves the accesses different. */
  predicate SeparateAt(c: Context, a: Access, b: Access, s: nat) {
    a.Element? && b.Element? && s in a.idx && s in b.idx && IndexSeparate(c, a.idx[s], b.idx[s])
  }

  /** The arrays are different, or some index proves the accesses different. */
  ghost predicate AddrSeparate(c: Context, a: Access, b: Access) {
    a.Element? && b.Element? && (a.base != b.base || exists s :: SeparateAt(c, a, b, s))
  }

  /** Stride `s` proves the accesses different, and is found before a stride that only the first has. */
  ghost predicate FoundAt(c: Context, a: Access, b: Access, s: nat) {
    SeparateAt(c, a, b, s) && forall r :: r in a.idx && r < s ==> r in b.idx
  }

  /** What `AddrExpr::maybe_eq` finds. */
  ghost predicate AddrApart(c: Context, a: Access, b: Access) {
    a.Element? && b.Element? && (a.base != b.base || (|a.idx| == |b.idx| && exists s :: FoundAt(c, a, b, s)))
  }

  lemma ApartIsSeparate(c: Context, a: Access, b: Access)
    ensures AddrApart(c, a, b) ==> AddrSeparate(c, a, b)
    ensures a.Element? && b.Element? && a.idx.Keys == b.idx.Keys ==> (AddrApart(c, a, b) <==> AddrSeparate(c, a, b))
  {
    hide Separate;
    if a.Element? && b.Element? && a.idx.Keys == b.idx.Keys && a.base == b.base && AddrSeparate(c, a, b) {
      assert |a.idx| == |a.idx.Keys| && |b.idx| == |b.idx.Keys|;
      var s :| SeparateAt(c, a, b, s);
      assert FoundAt(c, a, b, s);
    }
  }

  method Least(s: set<nat>) returns (x: nat)
    requires s != {}
    ensures x in s && forall y :: y in s ==> x <= y
  {
    var list := Listed(s);
    assert |list| == |s| && list != [];
    x := list[0];
    for k := 0 to |list|
      invariant x in list && forall j :: 0 <= j < k ==> x <= list[j]
    {
      if list[k] < x { x := list[k]; }
    }
    forall y | y in s ensures x <= y { assert y in list; }
  }

  /** The strides of `a` outside `rest`, which are the smaller ones, are in both and prove nothing. */
  ghost predicate Compared(c: Context, a: Access, b: Access, rest: set<nat>)
    requires a.Element? && b.Element?
  {
    && rest <= a.idx.Keys
    && (forall r :: r in a.idx && r !in rest ==> r in b.idx && !SeparateAt(c, a, b, r))
    && (forall r, s :: r in a.idx && r !in rest && s in rest ==> r < s)
  }

  /** `AddrExpr::maybe_eq` */
  method AddrMaybeEq(c: Context, a: Access, b: Access) returns (maybe: bool)
    requires WellAccess(a) && WellAccess(b)
    ensures maybe <==> !AddrApart(c, a, b)
  {
    hide WellIndex, IndexSeparate;
    if a.Unknown? || b.Unknown? { return true; }
    if a.base != b.base { return false; }
    if |a.idx| != |b.idx| { return true; }
    var rest := a.idx.Keys;
    while rest != {}
      invariant Compared(c, a, b, rest)
    {
      var s := Least(rest);
      if s !in b.idx {
        forall t ensures !FoundAt(c, a, b, t) { assert t in a.idx ==> t !in rest || s <= t; }
        return true;
      }
      var m := MaybeEq(c, a.idx[s], b.idx[s]);
      if !m {
        assert FoundAt(c, a, b, s);
        return false;
      }
      rest := rest - {s};
    }
    maybe := true;
  }

  /** Offset of an element, for strides and index values from the outermost dimension inwards. */
  function Offset(strides: seq<nat>, vals: seq<int>): int
    requires |vals| == |strides|
  {
    if strides == [] then 0 else Times(strides[0], vals[0]) + Offset(strides[1..], vals[1..])
  }

  /** Every index is within its dimension: what the inner ones select stays below the next stride. */
  predicate InDims(strides: seq<nat>, vals: seq<int>, size: int)
    requires |vals| == |strides|
  {
    if strides == [] then 0 < size
    else vals[0] >= 0 && 0 <= Offset(strides, vals) < size && InDims(strides[1..], vals[1..], strides[0])
  }

  lemma {:induction false} OffsetRange(strides: seq<nat>, vals: seq<int>, size: int)
    requires |vals| == |strides| && InDims(strides, vals, size)
    ensures 0 <= Offset(strides, vals) < size
  { }

  lemma SameDigit(s: int, x: int, y: int, a: int, b: int)
    requires 0 <= a < s && 0 <= b < s && Times(s, x) + a == Times(s, y) + b
    ensures x == y
  {
    if x > y { MulMono(y + 1, x, s); Distrib(y, 1, s); }
    if y > x { MulMono(x + 1, y, s); Distrib(x, 1, s); }
  }

  /** Within their dimensions, different indexes select different elements. */
  lemma {:induction false} OffsetsUnique(strides: seq<nat>, v: seq<int>, w: seq<int>, size: int)
    requires |v| == |w| == |strides| && InDims(strides, v, size) && InDims(strides, w, size)
    requires Offset(strides, v) == Offset(strides, w)
    ensures v == w
  {
    if strides != [] {
      OffsetRange(strides[1..], v[1..], strides[0]);
      OffsetRange(strides[1..], w[1..], strides[0]);
      SameDigit(strides[0], v[0], w[0], Offset(strides[1..], v[1..]), Offset(strides[1..], w[1..]));
      OffsetsUnique(strides[1..], v[1..], w[1..], strides[0]);
      assert v == [v[0]] + v[1..] && w == [w[0]] + w[1..];
    }
  }
}
