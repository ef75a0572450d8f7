/** Arithmetic of polynomials modulo 2^32 (`MulAddExpr`, src/ir/opt/simplify_expr.cpp): unless it gives up, addition
    and multiplication of expressions are those of their values. */
module PolyExpr {
  import opened Word32
  import opened FiniteSets
  import opened Dependence

  // ----- products -----

  function Exponent(k: Mono, x: nat): nat {
    if x in k then k[x] else 0
  }

  /** `mul`: the exponents add up. */
  function MulMono(k: Mono, l: Mono): Mono {
    map x | x in k.Keys + l.Keys :: Exponent(k, x) + Exponent(l, x)
  }

  function WithPower(k: Mono, x: nat, n: nat): Mono {
    k[x := Exponent(k, x) + n]
  }

  lemma {:induction false} PowerAdd(b: int, m: nat, n: nat)
    ensures Power(b, m + n) == Times(Power(b, m), Power(b, n))
  {
    if m > 0 {
      PowerAdd(b, m - 1, n);
      Comm3(b, Power(b, m - 1), Power(b, n));
    }
  }

  lemma TimesAssoc(a: int, b: int, c: int)
    ensures Times(Times(a, b), c) == Times(a, Times(b, c))
    ensures Times(a, Times(b, c)) == Times(b, Times(a, c))
  {
    Comm3(a, b, c);
  }

  lemma TimesComm(a: int, b: int)
    ensures Times(a, b) == Times(b, a)
  { }

  lemma WithPowerVal(k: Mono, x: nat, n: nat, env: Env)
    ensures MonoVal(WithPower(k, x, n), env) == Times(Power(Get(env, x), n), MonoVal(k, env))
  {
    hide Times, MonoVal, Power;
    var k', b := WithPower(k, x, n), Get(env, x);
    MonoSplit(k', env, x);
    assert k' - {x} == k - {x};
    if x in k {
      MonoSplit(k, env, x);
      PowerAdd(b, n, k[x]);
      TimesAssoc(Power(b, n), Power(b, k[x]), MonoVal(k - {x}, env));
    } else {
      assert k - {x} == k;
    }
  }

  lemma MulMonoPeel(k: Mono, l: Mono, x: nat)
    requires x in l
    ensures MulMono(k, l) == WithPower(MulMono(k, l - {x}), x, l[x])
  { }

  /** The value of a product is the product of the values. */
  lemma {:induction false} MulMonoVal(k: Mono, l: Mono, env: Env)
    ensures MonoVal(MulMono(k, l), env) == Times(MonoVal(k, env), MonoVal(l, env))
    decreases |l|
  {
    if l == map[] {
      assert MulMono(k, l) == k;
      TimesOne(MonoVal(k, env));
    } else {
      hide *;
      var x :| x in l;
      Smaller(l, x);
      var p := Power(Get(env, x), l[x]);
      MulMonoPeel(k, l, x);
      WithPowerVal(MulMono(k, l - {x}), x, l[x], env);
      MulMonoVal(k, l - {x}, env);
      MonoSplit(l, env, x);
      TimesAssoc(p, MonoVal(k, env), MonoVal(l - {x}, env));
    }
  }

  lemma TimesOne(a: int)
    ensures Times(a, 1) == a
  { }

  // ----- sums of products -----

  /** `bad` means that the expression has given up. */
  datatype MulAddExpr = MulAddExpr(bad: bool, cs: Poly)

  function Coef(p: Poly, k: Mono): int {
    if k in p then p[k] else 0
  }

  predicate TooBig(k: Mono, p: Poly) { |k| >= 4 || |p| >= 5 }

  function PutCoef(p: Poly, k: Mono, v: int): Poly {
    if v == 0 then p - {k} else p[k := v]
  }

  /** `add_eq(w, a)` for a product: this += w * a */
  function AddMono(e: MulAddExpr, k: Mono, a: int): MulAddExpr {
    if e.bad || a == 0 then e
    else
      var cs := PutCoef(e.cs, k, Wrap(Coef(e.cs, k) + a));
      if TooBig(k, cs) then MulAddExpr(true, map[]) else MulAddExpr(false, cs)
  }

  /** What an expression that has not given up keeps to: few terms of few factors, none of them 0. */
  ghost predicate Small(e: MulAddExpr) {
    !e.bad ==> |e.cs| < 5 && forall k :: k in e.cs ==> |k| < 4 && e.cs[k] != 0 && IsInt32(e.cs[k])
  }

  lemma AddMonoSmall(e: MulAddExpr, k: Mono, a: int)
    requires Small(e)
    ensures Small(AddMono(e, k, a))
  { }

  /** `r` is `e` plus `a` times `p`, term by term, unless it has given up. */
  ghost predicate Accumulated(r: MulAddExpr, e: MulAddExpr, p: Poly, a: int) {
    && Small(r)
    && (!r.bad ==>
          && r.cs.Keys <= e.cs.Keys + p.Keys
          && forall k {:trigger Coef(r.cs, k)} :: Coef(r.cs, k) == Wrap(Coef(e.cs, k) + Times(Coef(p, k), a)))
  }

  lemma AccumulatedStart(e: MulAddExpr, a: int)
    requires Small(e)
    ensures Accumulated(e, e, map[], a)
  {
    if !e.bad {
      forall k ensures Coef(e.cs, k) == Wrap(Coef(e.cs, k) + Times(Coef(map[], k), a)) {
        TimesZero(a);
        WrapId(Coef(e.cs, k));
      }
    }
  }

  lemma SmallCoef(e: MulAddExpr, k: Mono)
    requires Small(e) && !e.bad
    ensures IsInt32(Coef(e.cs, k)) && (Coef(e.cs, k) == 0 <==> k !in e.cs)
    ensures k in e.cs ==> |k| < 4
  { }

  lemma CoefPut(p: Poly, k: Mono, v: int, l: Mono)
    ensures Coef(PutCoef(p, k, v), l) == if l == k then v else Coef(p, l)
    ensures Coef(p[k := v], l) == if l == k then v else Coef(p, l)
    ensures PutCoef(p, k, v).Keys <= p.Keys + {k}
  { }

  lemma AddMonoCoef(e: MulAddExpr, k: Mono, a: int, l: Mono)
    requires Small(e) && !AddMono(e, k, a).bad
    ensures !e.bad && AddMono(e, k, a).cs.Keys <= e.cs.Keys + {k}
    ensures Coef(AddMono(e, k, a).cs, l) == if l == k then Wrap(Coef(e.cs, k) + a) else Coef(e.cs, l)
  {
    hide Wrap, Small, TooBig, PutCoef, Coef;
    CoefPut(e.cs, k, Wrap(Coef(e.cs, k) + a), l);
    if !e.bad {
      SmallCoef(e, k);
      WrapId(Coef(e.cs, k));
    }
  }

  lemma AccumulatedAt(r: MulAddExpr, e: MulAddExpr, p: Poly, a: int, k: Mono)
    requires Accumulated(r, e, p, a) && !r.bad
    ensures Small(r) && r.cs.Keys <= e.cs.Keys + p.Keys && Coef(r.cs, k) == Wrap(Coef(e.cs, k) + Times(Coef(p, k), a))
  { }

  lemma NoCoef(p: Poly, k: Mono, a: int)
    requires k !in p
    ensures Times(Coef(p, k), a) == 0
  { }

  lemma AccumulatedStep(r: MulAddExpr, e: MulAddExpr, p: Poly, k: Mono, v: int, a: int)
    requires Accumulated(r, e, p, a) && k !in p
    ensures Accumulated(AddMono(r, k, Wrap(Times(v, a))), e, p[k := v], a)
  {
    hide Wrap, AddMono, Times, Small, Coef, Accumulated;
    var r' := AddMono(r, k, Wrap(Times(v, a)));
    AccumulatedSmall(r, e, p, a);
    AddMonoSmall(r, k, Wrap(Times(v, a)));
    if r'.bad {
      AccumulatedIntro(r', e, p[k := v], a);
      return;
    }
    AddMonoCoef(r, k, Wrap(Times(v, a)), k);
    AccumulatedAt(r, e, p, a, k);
    forall l ensures Coef(r'.cs, l) == Wrap(Coef(e.cs, l) + Times(Coef(p[k := v], l), a)) {
      AccumulatedCoef(r, e, p, k, v, a, l);
    }
    assert r'.cs.Keys <= e.cs.Keys + p[k := v].Keys;
    AccumulatedIntro(r', e, p[k := v], a);
  }

  lemma AccumulatedIntro(r: MulAddExpr, e: MulAddExpr, p: Poly, a: int)
    requires Small(r)
    requires r.bad || (r.cs.Keys <= e.cs.Keys + p.Keys &&
      forall k {:trigger Coef(r.cs, k)} :: Coef(r.cs, k) == Wrap(Coef(e.cs, k) + Times(Coef(p, k), a)))
    ensures Accumulated(r, e, p, a)
  { }

  lemma AccumulatedSmall(r: MulAddExpr, e: MulAddExpr, p: Poly, a: int)
    requires Accumulated(r, e, p, a)
    ensures Small(r)
  { }

  lemma AccumulatedCoef(r: MulAddExpr, e: MulAddExpr, p: Poly, k: Mono, v: int, a: int, l: Mono)
    requires Accumulated(r, e, p, a) && k !in p && !AddMono(r, k, Wrap(Times(v, a))).bad
    ensures Coef(AddMono(r, k, Wrap(Times(v, a))).cs, l) == Wrap(Coef(e.cs, l) + Times(Coef(p[k := v], l), a))
  {
    hide *;
    AccumulatedSmall(r, e, p, a);
    AddMonoCoef(r, k, Wrap(Times(v, a)), l);
    AccumulatedAt(r, e, p, a, l);
    CoefPut(p, k, v, l);
    if l == k {
      NoCoef(p, k, a);
      WrapTwice(Coef(e.cs, k), Times(v, a));
    }
  }

  lemma WrapTwice(x: int, y: int)
    ensures Wrap(Wrap(x) + Wrap(y)) == Wrap(x + y)
  {
    hide Wrap;
    WrapAdd(Wrap(x), y);
    WrapAdd(y, x);
  }

  /** With at most four products in both together, there is no reason to give up. */
  lemma StaysSmall(r: MulAddExpr, e: MulAddExpr, p: Poly, k: Mono, a: int, all: set<Mono>)
    requires Accumulated(r, e, p, a) && !r.bad && |k| < 4
    requires e.cs.Keys + p.Keys + {k} <= all && |all| < 5
    ensures forall b :: !AddMono(r, k, b).bad
  {
    hide *;
    AccumulatedAt(r, e, p, a, k);
    assert r.cs.Keys + {k} <= all;
    forall b ensures !AddMono(r, k, b).bad { RoomFor(r, k, b, all); }
  }

  lemma RoomFor(r: MulAddExpr, k: Mono, b: int, all: set<Mono>)
    requires !r.bad && |k| < 4 && r.cs.Keys + {k} <= all && |all| < 5
    ensures !AddMono(r, k, b).bad
  {
    hide Wrap, PutCoef, Coef, TooBig;
    var v := Wrap(Coef(r.cs, k) + b);
    CoefPut(r.cs, k, v, k);
    SubsetSize(PutCoef(r.cs, k, v).Keys, all);
    NotTooBig(k, PutCoef(r.cs, k, v));
  }

  lemma NotTooBig(k: Mono, p: Poly)
    requires |k| < 4 && |p.Keys| < 5
    ensures !TooBig(k, p)
  {
    assert |p.Keys| == |p|;
  }

  lemma PutCoefVal(p: Poly, k: Mono, v: int, env: Env)
    ensures PolyVal(PutCoef(p, k, v), env) == Times(v, MonoVal(k, env)) + PolyVal(p - {k}, env)
  {
    hide Times, MonoVal;
    TimesZero(MonoVal(k, env));
    if v != 0 {
      PolySplit(p[k := v], env, k);
      assert p[k := v] - {k} == p - {k};
    }
  }

  lemma CoefVal(p: Poly, k: Mono, env: Env)
    ensures PolyVal(p, env) == Times(Coef(p, k), MonoVal(k, env)) + PolyVal(p - {k}, env)
  {
    hide Times, MonoVal;
    TimesZero(MonoVal(k, env));
    if k in p { PolySplit(p, env, k); } else { assert p - {k} == p; }
  }

  lemma AddCoefs(v: int, was: int, a: int, m: int, rest: int)
    requires Cong(v, was + a)
    ensures Cong(Times(v, m) + rest, Times(was, m) + rest + Times(a, m))
  {
    assert Cong(Times(v, m), Times(was + a, m)) by { CongMul(v, was + a, m); }
    hide Cong;
    Distrib(was, a, m);
    CongSelf(rest);
    CongAdd(Times(v, m), Times(was + a, m), rest, rest);
  }

  lemma AddMonoVal(e: MulAddExpr, k: Mono, a: int, env: Env)
    requires !AddMono(e, k, a).bad
    ensures Cong(PolyVal(AddMono(e, k, a).cs, env), PolyVal(e.cs, env) + Times(a, MonoVal(k, env)))
  {
    hide Times, MonoVal, PolyVal, Wrap, Cong, PutCoef, TooBig, Coef;
    var m := MonoVal(k, env);
    TimesZero(m);
    if a == 0 {
      CongSelf(PolyVal(e.cs, env));
    } else {
      var v := Wrap(Coef(e.cs, k) + a);
      PutCoefVal(e.cs, k, v, env);
      CoefVal(e.cs, k, env);
      CongWrap(Coef(e.cs, k) + a);
      AddCoefs(v, Coef(e.cs, k), a, m, PolyVal(e.cs - {k}, env));
    }
  }

  /** Coefficients are words. */
  predicate Words(p: Poly) {
    forall k :: k in p ==> IsInt32(p[k])
  }

  /** Coefficients stay words, and who gives up forgets them. */
  predicate Tidy(r: MulAddExpr, e: MulAddExpr) {
    (Words(e.cs) ==> Words(r.cs)) && (r.bad && !e.bad ==> r.cs == map[])
  }

  lemma TidyStep(r: MulAddExpr, e: MulAddExpr, k: Mono, a: int)
    requires Tidy(r, e)
    ensures Tidy(AddMono(r, k, a), e)
  { }

  lemma StaysBad(e: MulAddExpr, k: Mono, a: int)
    ensures e.bad ==> AddMono(e, k, a).bad
  { }

  /** `r` is `e` plus `q`, unless it has given up. */
  ghost predicate Sums(r: MulAddExpr, e: MulAddExpr, q: Env -> int) {
    !r.bad ==> !e.bad && forall env :: Cong(PolyVal(r.cs, env), PolyVal(e.cs, env) + q(env))
  }

  ghost function PolyTimes(a: int, p: Poly): Env -> int {
    env => Times(a, PolyVal(p, env))
  }

  lemma AccumulateStep(r1: int, r: int, e: int, q: int, w: int, a: int, m: int)
    requires Cong(r1, r + Times(w, m)) && Cong(r, e + q) && Cong(w, a)
    ensures Cong(r1, e + (q + Times(a, m)))
  {
    assert Cong(Times(w, m), Times(a, m)) by { CongMul(w, a, m); }
    assert Cong(r + Times(w, m), e + q + Times(a, m)) by {
      hide Cong, Times;
      CongAdd(r, e + q, Times(w, m), Times(a, m));
    }
  }

  /** One more product, with a coefficient that has wrapped. */
  lemma SumsStep(r: MulAddExpr, e: MulAddExpr, q: Env -> int, q': Env -> int, k: Mono, a: int)
    requires Sums(r, e, q) && forall env :: q'(env) == q(env) + Times(a, MonoVal(k, env))
    ensures Sums(AddMono(r, k, Wrap(a)), e, q')
  {
    hide Cong, Wrap, MonoVal, PolyVal, AddMono, Times;
    var r' := AddMono(r, k, Wrap(a));
    StaysBad(r, k, Wrap(a));
    if r'.bad { return; }
    forall env ensures Cong(PolyVal(r'.cs, env), PolyVal(e.cs, env) + q'(env)) {
      AddMonoVal(r, k, Wrap(a), env);
      CongWrap(a);
      AccumulateStep(PolyVal(r'.cs, env), PolyVal(r.cs, env), PolyVal(e.cs, env), q(env), Wrap(a), a, MonoVal(k, env));
    }
  }

  lemma SumsStart(e: MulAddExpr, q: Env -> int)
    requires forall env :: q(env) == 0
    ensures Sums(e, e, q)
  {
    forall env ensures Cong(PolyVal(e.cs, env), PolyVal(e.cs, env) + q(env)) { CongSelf(PolyVal(e.cs, env)); }
  }

  lemma SumsSame(r: MulAddExpr, e: MulAddExpr, q: Env -> int, q': Env -> int)
    requires Sums(r, e, q) && forall env :: q'(env) == q(env)
    ensures Sums(r, e, q')
  { }

  /** The part of a sum that has been gone through grows by one product. */
  lemma GrowPart(p: Poly, k: Mono, v: int, a: int, env: Env)
    requires k !in p
    ensures Times(a, PolyVal(p[k := v], env)) == Times(a, PolyVal(p, env)) + Times(Times(v, a), MonoVal(k, env))
  {
    hide Times, MonoVal;
    PolySplit(p[k := v], env, k);
    assert p[k := v] - {k} == p;
    TimesSum(a, Times(v, MonoVal(k, env)), PolyVal(p, env));
    TimesAssoc(a, v, MonoVal(k, env));
    TimesAssoc(v, a, MonoVal(k, env));
  }

  lemma TimesSum(a: int, b: int, c: int)
    ensures Times(a, b + c) == Times(a, b) + Times(a, c)
  {
    Distrib(b, c, a);
  }

  /** `add_eq(w, a)`: this += w * a */
  method AddPoly(e: MulAddExpr, w: MulAddExpr, a: int) returns (r: MulAddExpr)
    ensures Sums(r, e, PolyTimes(a, w.cs)) && (w.bad ==> r.bad)
    ensures !w.bad ==> Tidy(r, e)
    ensures Small(e) ==> Accumulated(r, e, w.cs, a)
    ensures Small(e) && Small(w) && !e.bad && !w.bad && |e.cs.Keys + w.cs.Keys| < 5 ==> !r.bad
  {
    hide *;
    if e.bad || w.bad {
      SpoiltOk(e, w, a);
      return e.(bad := true);
    }
    r := e;
    ghost var done: Poly := map[];
    AddedStart(e, w, a);
    var keys := Listed(w.cs.Keys);
    for i := 0 to |keys|
      invariant forall k :: k in done <==> k in keys[..i]
      invariant forall k :: k in done ==> k in w.cs && done[k] == w.cs[k]
      invariant Added(r, e, w, done, a)
    {
      var k := keys[i];
      assert k in keys && k !in keys[..i];
      AddedStep(r, e, w, done, k, a);
      r := AddMono(r, k, Wrap(Times(w.cs[k], a)));
      done := done[k := w.cs[k]];
    }
    assert keys[..|keys|] == keys;
    assert done == w.cs;
    AddedAll(r, e, w, a);
  }

  /** What the loop over the terms of `w` keeps. */
  ghost predicate Added(r: MulAddExpr, e: MulAddExpr, w: MulAddExpr, done: Poly, a: int) {
    && Sums(r, e, PolyTimes(a, done)) && Tidy(r, e)
    && (Small(e) ==> Accumulated(r, e, done, a))
    && (Small(e) && Small(w) && |e.cs.Keys + w.cs.Keys| < 5 ==> !r.bad)
  }

  lemma AddedStart(e: MulAddExpr, w: MulAddExpr, a: int)
    requires !e.bad && !w.bad
    ensures Added(e, e, w, map[], a)
  {
    hide PolyTimes, Words, Small, Accumulated, Sums;
    EmptyPart(a);
    SumsStart(e, PolyTimes(a, map[]));
    if Small(e) { AccumulatedStart(e, a); }
  }

  lemma AddedStep(r: MulAddExpr, e: MulAddExpr, w: MulAddExpr, done: Poly, k: Mono, a: int)
    requires Added(r, e, w, done, a) && !e.bad && !w.bad
    requires k in w.cs && k !in done && done.Keys <= w.cs.Keys
    ensures Added(AddMono(r, k, Wrap(Times(w.cs[k], a))), e, w, done[k := w.cs[k]], a)
  {
    hide Wrap, MonoVal, PolyVal, AddMono, Times, Small, Accumulated, Tidy, Sums, PolyTimes;
    var v := w.cs[k];
    TidyStep(r, e, k, Wrap(Times(v, a)));
    if Small(e) {
      AccumulatedStep(r, e, done, k, v, a);
      if Small(w) && |e.cs.Keys + w.cs.Keys| < 5 {
        SmallCoef(w, k);
        StaysSmall(r, e, done, k, a, e.cs.Keys + w.cs.Keys);
      }
    }
    forall env ensures PolyTimes(a, done[k := v])(env) == PolyTimes(a, done)(env) + Times(Times(v, a), MonoVal(k, env)) {
      PartAt(done, a, env);
      PartAt(done[k := v], a, env);
      GrowPart(done, k, v, a, env);
    }
    SumsStep(r, e, PolyTimes(a, done), PolyTimes(a, done[k := v]), k, Times(v, a));
  }

  lemma PartAt(p: Poly, a: int, env: Env)
    ensures PolyTimes(a, p)(env) == Times(a, PolyVal(p, env))
  { }

  lemma AddedAll(r: MulAddExpr, e: MulAddExpr, w: MulAddExpr, a: int)
    requires Added(r, e, w, w.cs, a)
    ensures Sums(r, e, PolyTimes(a, w.cs)) && Tidy(r, e) && (Small(e) ==> Accumulated(r, e, w.cs, a))
    ensures Small(e) && Small(w) && |e.cs.Keys + w.cs.Keys| < 5 ==> !r.bad
  { }

  lemma SpoiltOk(e: MulAddExpr, w: MulAddExpr, a: int)
    requires e.bad || w.bad
    ensures
      var r := e.(bad := true);
      Sums(r, e, PolyTimes(a, w.cs)) && (!w.bad ==> Tidy(r, e)) && Accumulated(r, e, w.cs, a)
  { }

  lemma EmptyPart(a: int)
    ensures forall env :: PolyTimes(a, map[])(env) == 0
  { }

  // ----- products of sums -----

  /** `a` times the product of `p` and `q`. */
  ghost function ProductTimes(a: int, p: Poly, q: Poly): Env -> int {
    env => Times(a, Times(PolyVal(p, env), PolyVal(q, env)))
  }

  ghost function PlusRow(f: Env -> int, a: int, k: Mono, v: int, q: Poly): Env -> int {
    env => f(env) + Times(a, Times(Times(v, MonoVal(k, env)), PolyVal(q, env)))
  }

  lemma RowStart(f: Env -> int, a: int, k: Mono, v: int, env: Env)
    ensures PlusRow(f, a, k, v, map[])(env) == f(env)
  { }

  lemma GrowRow(f: Env -> int, a: int, k: Mono, v: int, q: Poly, l: Mono, u: int, env: Env)
    requires l !in q
    ensures PlusRow(f, a, k, v, q[l := u])(env) ==
      PlusRow(f, a, k, v, q)(env) + Times(Times(Times(v, u), a), MonoVal(MulMono(k, l), env))
  {
    hide Times, MonoVal;
    var x, y, s := MonoVal(k, env), MonoVal(l, env), PolyVal(q, env);
    PolySplit(q[l := u], env, l);
    assert q[l := u] - {l} == q;
    MulMonoVal(k, l, env);
    TimesSum(Times(v, x), Times(u, y), s);
    TimesSum(a, Times(Times(v, x), Times(u, y)), Times(Times(v, x), s));
    Regroup(a, v, x, u, y);
  }

  lemma Regroup(a: int, v: int, x: int, u: int, y: int)
    ensures Times(a, Times(Times(v, x), Times(u, y))) == Times(Times(Times(v, u), a), Times(x, y))
  {
    hide Times;
    TimesAssoc(v, x, Times(u, y));
    TimesAssoc(x, u, y);
    TimesAssoc(v, u, Times(x, y));
    TimesAssoc(Times(v, u), a, Times(x, y));
  }

  lemma RowDone(a: int, p: Poly, k: Mono, v: int, q: Poly, env: Env)
    requires k !in p
    ensures PlusRow(ProductTimes(a, p, q), a, k, v, q)(env) == ProductTimes(a, p[k := v], q)(env)
  {
    hide Times, MonoVal;
    PolySplit(p[k := v], env, k);
    assert p[k := v] - {k} == p;
    var t, s, w := Times(v, MonoVal(k, env)), PolyVal(p, env), PolyVal(q, env);
    TimesComm(t + s, w);
    TimesSum(w, t, s);
    TimesComm(w, t);
    TimesComm(w, s);
    TimesSum(a, Times(t, w), Times(s, w));
  }

  lemma NoProduct(a: int, q: Poly)
    ensures forall env :: ProductTimes(a, map[], q)(env) == 0
  {
    forall env ensures ProductTimes(a, map[], q)(env) == 0 { TimesZero(PolyVal(q, env)); }
  }

  ghost predicate RowFits(r0: MulAddExpr, k: Mono, w: MulAddExpr) {
    !r0.bad && |r0.cs| + |w.cs| < 5 && forall l :: l in w.cs ==> |MulMono(k, l)| < 4
  }

  lemma RowRoom(r0: MulAddExpr, r: MulAddExpr, k: Mono, w: MulAddExpr, l: Mono, i: nat, c: int)
    requires RowFits(r0, k, w) && l in w.cs && !r.bad && |r.cs| <= |r0.cs| + i && i < |w.cs|
    ensures !AddMono(r, MulMono(k, l), c).bad && |AddMono(r, MulMono(k, l), c).cs| <= |r0.cs| + i + 1
  {
    hide AddMono, MulMono;
    AddMonoRoom(r, MulMono(k, l), c);
  }

  lemma AddMonoRoom(e: MulAddExpr, k: Mono, a: int)
    requires !e.bad && |e.cs| < 4 && |k| < 4
    ensures !AddMono(e, k, a).bad && |AddMono(e, k, a).cs| <= |e.cs| + 1
  {
    var cs := PutCoef(e.cs, k, Wrap(Coef(e.cs, k) + a));
    assert cs.Keys <= e.cs.Keys + {k};
    SubsetSize(cs.Keys, e.cs.Keys + {k});
    assert |cs.Keys| == |cs| && |e.cs.Keys| == |e.cs|;
  }

  /** What the loop over the terms of `w` keeps. */
  ghost predicate RowOk(r: MulAddExpr, e: MulAddExpr, r0: MulAddExpr, k: Mono, v: int, w: MulAddExpr, a: int, f: Env -> int,
                        done: Poly, i: nat) {
    && Sums(r, e, PlusRow(f, a, k, v, done)) && (Small(r0) ==> Small(r))
    && (RowFits(r0, k, w) ==> !r.bad && |r.cs| <= |r0.cs| + i)
  }

  lemma RowOkStart(e: MulAddExpr, r0: MulAddExpr, k: Mono, v: int, w: MulAddExpr, a: int, f: Env -> int)
    requires Sums(r0, e, f)
    ensures RowOk(r0, e, r0, k, v, w, a, f, map[], 0)
  {
    hide Sums, PlusRow, Small;
    forall env ensures PlusRow(f, a, k, v, map[])(env) == f(env) { RowStart(f, a, k, v, env); }
    SumsSame(r0, e, f, PlusRow(f, a, k, v, map[]));
  }

  lemma RowOkStep(r: MulAddExpr, e: MulAddExpr, r0: MulAddExpr, k: Mono, v: int, w: MulAddExpr, a: int, f: Env -> int,
                  done: Poly, i: nat, l: Mono)
    requires RowOk(r, e, r0, k, v, w, a, f, done, i) && l in w.cs && l !in done && i < |w.cs|
    ensures RowOk(AddMono(r, MulMono(k, l), Wrap(Times(Times(v, w.cs[l]), a))), e, r0, k, v, w, a, f, done[l := w.cs[l]], i + 1)
  {
    hide Cong, Wrap, MonoVal, PolyVal, AddMono, Times, MulMono, Small, Sums, PlusRow, RowFits;
    var u := w.cs[l];
    var c := Times(Times(v, u), a);
    if Small(r) { AddMonoSmall(r, MulMono(k, l), Wrap(c)); }
    if RowFits(r0, k, w) { RowRoom(r0, r, k, w, l, i, Wrap(c)); }
    forall env
      ensures PlusRow(f, a, k, v, done[l := u])(env) == PlusRow(f, a, k, v, done)(env) + Times(c, MonoVal(MulMono(k, l), env))
    {
      GrowRow(f, a, k, v, done, l, u, env);
    }
    SumsStep(r, e, PlusRow(f, a, k, v, done), PlusRow(f, a, k, v, done[l := u]), MulMono(k, l), c);
  }

  method AddRow(e: MulAddExpr, r0: MulAddExpr, k: Mono, v: int, w: MulAddExpr, a: int, ghost f: Env -> int) returns (r: MulAddExpr)
    requires Sums(r0, e, f)
    ensures Sums(r, e, PlusRow(f, a, k, v, w.cs)) && (Small(r0) ==> Small(r))
    ensures RowFits(r0, k, w) ==> !r.bad && |r.cs| <= |r0.cs| + |w.cs|
  {
    assert |w.cs.Keys| == |w.cs|;
    RowOkStart(e, r0, k, v, w, a, f);
    r := r0;
    ghost var done: Poly := map[];
    var keys := Listed(w.cs.Keys);
    for i := 0 to |keys|
      invariant forall l :: l in done <==> l in keys[..i]
      invariant forall l :: l in done ==> l in w.cs && done[l] == w.cs[l]
      invariant RowOk(r, e, r0, k, v, w, a, f, done, i)
    {
      hide *;
      var l := keys[i];
      assert l in keys && l !in keys[..i];
      RowOkStep(r, e, r0, k, v, w, a, f, done, i, l);
      r := AddMono(r, MulMono(k, l), Wrap(Times(Times(v, w.cs[l]), a)));
      done := done[l := w.cs[l]];
    }
    assert keys[..|keys|] == keys;
    assert done == w.cs;
  }

  /** There is room for every product of two terms. */
  ghost predicate Roomy(e: MulAddExpr, w1: MulAddExpr, w2: MulAddExpr) {
    && !e.bad && !w1.bad && !w2.bad && |e.cs| + Times(|w1.cs|, |w2.cs|) < 5
    && forall k, l :: k in w1.cs && l in w2.cs ==> |MulMono(k, l)| < 4
  }

  lemma RoomForRow(i: nat, m: nat, n: nat)
    requires i < m
    ensures Times(i + 1, n) == Times(i, n) + n && Times(i + 1, n) <= Times(m, n)
  {
    Distrib(i, 1, n);
    if n > 0 { Word32.MulMono(i + 1, m, n); }
  }

  /** What the loop over the terms of the first factor keeps. */
  ghost predicate ProductOk(r: MulAddExpr, e: MulAddExpr, w1: MulAddExpr, w2: MulAddExpr, a: int, done: Poly, i: nat) {
    && Sums(r, e, ProductTimes(a, done, w2.cs)) && (Small(e) ==> Small(r))
    && (Roomy(e, w1, w2) ==> !r.bad && |r.cs| <= |e.cs| + Times(i, |w2.cs|))
  }

  lemma ProductOkStart(e: MulAddExpr, w1: MulAddExpr, w2: MulAddExpr, a: int)
    requires !w1.bad && !w2.bad
    ensures ProductOk(e, e, w1, w2, a, map[], 0)
  {
    hide Sums, ProductTimes, Small;
    NoProduct(a, w2.cs);
    SumsStart(e, ProductTimes(a, map[], w2.cs));
    TimesZero(|w2.cs|);
  }

  lemma ProductOkStep(r': MulAddExpr, r: MulAddExpr, e: MulAddExpr, w1: MulAddExpr, w2: MulAddExpr, a: int, done: Poly, i: nat, k: Mono)
    requires ProductOk(r, e, w1, w2, a, done, i) && k in w1.cs && k !in done && i < |w1.cs|
    requires Sums(r', e, PlusRow(ProductTimes(a, done, w2.cs), a, k, w1.cs[k], w2.cs)) && (Small(r) ==> Small(r'))
    requires RowFits(r, k, w2) ==> !r'.bad && |r'.cs| <= |r.cs| + |w2.cs|
    ensures ProductOk(r', e, w1, w2, a, done[k := w1.cs[k]], i + 1)
  {
    hide Cong, Wrap, MonoVal, PolyVal, Times, Small, Sums, PlusRow, ProductTimes, MulMono;
    var v, f := w1.cs[k], ProductTimes(a, done, w2.cs);
    if Roomy(e, w1, w2) {
      RoomForRow(i, |w1.cs|, |w2.cs|);
      assert RowFits(r, k, w2);
    }
    forall env ensures ProductTimes(a, done[k := v], w2.cs)(env) == PlusRow(f, a, k, v, w2.cs)(env) {
      RowDone(a, done, k, v, w2.cs, env);
    }
    SumsSame(r', e, PlusRow(f, a, k, v, w2.cs), ProductTimes(a, done[k := v], w2.cs));
  }

  /** `set_mul(w1, w2, a)`: this += w1 * w2 * a */
  method AddProduct(e: MulAddExpr, w1: MulAddExpr, w2: MulAddExpr, a: int) returns (r: MulAddExpr)
    ensures Sums(r, e, ProductTimes(a, w1.cs, w2.cs)) && (w1.bad || w2.bad ==> r.bad)
    ensures Small(e) ==> Small(r)
    ensures Roomy(e, w1, w2) ==> !r.bad
  {
    if w1.bad || w2.bad { return e.(bad := true); }
    assert |w1.cs.Keys| == |w1.cs|;
    ProductOkStart(e, w1, w2, a);
    r := e;
    ghost var done: Poly := map[];
    var keys := Listed(w1.cs.Keys);
    for i := 0 to |keys|
      invariant forall k :: k in done <==> k in keys[..i]
      invariant forall k :: k in done ==> k in w1.cs && done[k] == w1.cs[k]
      invariant ProductOk(r, e, w1, w2, a, done, i)
    {
      hide *;
      var k := keys[i];
      assert k in keys && k !in keys[..i];
      ghost var r0 := r;
      ProductSums(r, e, w1, w2, a, done, i);
      r := AddRow(e, r, k, w1.cs[k], w2, a, ProductTimes(a, done, w2.cs));
      ProductOkStep(r, r0, e, w1, w2, a, done, i, k);
      done := done[k := w1.cs[k]];
    }
    assert keys[..|keys|] == keys;
    assert done == w1.cs;
  }

  lemma ProductSums(r: MulAddExpr, e: MulAddExpr, w1: MulAddExpr, w2: MulAddExpr, a: int, done: Poly, i: nat)
    requires ProductOk(r, e, w1, w2, a, done, i)
    ensures Sums(r, e, ProductTimes(a, done, w2.cs))
  { }

  const EMPTY: MulAddExpr := MulAddExpr(false, map[])

  /** `mul_eq(w, a)`: this *= w, times a */
  method MultiplyBy(e: MulAddExpr, w: MulAddExpr, a: int) returns (r: MulAddExpr)
    ensures r.bad || (!e.bad && !w.bad)
    ensures !r.bad ==> forall env :: Cong(PolyVal(r.cs, env), Times(a, Times(PolyVal(e.cs, env), PolyVal(w.cs, env))))
    ensures Small(r)
  {
    EmptySmall();
    hide Small;
    if e.bad {
      BadSmall(e);
      return e;
    }
    r := AddProduct(EMPTY, e, w, a);
  }

  lemma EmptySmall()
    ensures Small(EMPTY)
  { }

  lemma BadSmall(e: MulAddExpr)
    requires e.bad
    ensures Small(e)
  { }

  /** `w` is `e` plus a constant that is positive as a word. */
  predicate ConstantAbove(e: MulAddExpr, w: MulAddExpr) {
    NonConst(e.cs) == NonConst(w.cs) && Wrap(Const(w.cs) - Const(e.cs)) > 0
  }

  /** `may_gt`: is `w` - `e` perhaps not a positive constant? */
  method MayGt(e: MulAddExpr, w: MulAddExpr) returns (may: bool)
    requires Words(e.cs) && Words(w.cs)
    ensures !may ==> !e.bad && !w.bad && exists c: int :: c > 0 && IsInt32(c) && DiffersBy(e, w, c)
    ensures Small(e) && Small(w) ==> (may <==> e.bad || w.bad || !ConstantAbove(e, w))
  {
    hide Small, ConstantAbove, Accumulated;
    if e.bad || w.bad { return true; }
    var d := AddPoly(w, e, -1);
    var c := Coef(d.cs, ONE);
    if Small(e) && Small(w) { DifferenceIs(e, w, d); }
    may := !(|d.cs| == (if c != 0 then 1 else 0) && c > 0);
    if !may { ProvedAbove(e, w, d); }
  }

  lemma ProvedAbove(e: MulAddExpr, w: MulAddExpr, d: MulAddExpr)
    requires Sums(d, w, PolyTimes(-1, e.cs)) && Tidy(d, w) && Words(w.cs) && !w.bad
    requires |d.cs| == 1 && Coef(d.cs, ONE) > 0
    ensures exists c: int :: c > 0 && IsInt32(c) && DiffersBy(e, w, c)
  {
    hide Cong, PolyVal;
    var c := Coef(d.cs, ONE);
    OnlyConstant(d.cs);
    forall env ensures Cong(PolyVal(w.cs, env) - PolyVal(e.cs, env), c) {
      CongSubtract(PolyVal(d.cs, env), PolyVal(w.cs, env), PolyVal(e.cs, env));
    }
    assert DiffersBy(e, w, c);
  }

  /** A positive constant difference is found. */
  lemma DifferenceIs(e: MulAddExpr, w: MulAddExpr, d: MulAddExpr)
    requires Small(e) && Small(w) && !e.bad && !w.bad && Accumulated(d, w, e.cs, -1)
    requires |w.cs.Keys + e.cs.Keys| < 5 ==> !d.bad
    requires d.bad ==> d.cs == map[]
    ensures |d.cs| == 1 && Coef(d.cs, ONE) > 0 <==> ConstantAbove(e, w)
  {
    hide Wrap, Accumulated, Small, NonConst, Coef;
    AccumulatedSmall(d, w, e.cs, -1);
    if ConstantAbove(e, w) { FewTogether(e, w); }
    if !d.bad {
      CoefOfDifference(e, w, d, ONE);
      ConstIsCoef(e.cs);
      ConstIsCoef(w.cs);
      forall k ensures Coef(d.cs, k) == Wrap(Coef(w.cs, k) - Coef(e.cs, k)) { CoefOfDifference(e, w, d, k); }
      OnlyConstantIff(e, w, d);
    }
  }

  lemma ConstIsCoef(p: Poly)
    ensures Const(p) == Coef(p, ONE)
  {
  }

  lemma OnlyConstantIff(e: MulAddExpr, w: MulAddExpr, d: MulAddExpr)
    requires Small(e) && Small(w) && !e.bad && !w.bad && Small(d) && !d.bad
    requires forall k {:trigger Coef(d.cs, k)} :: Coef(d.cs, k) == Wrap(Coef(w.cs, k) - Coef(e.cs, k))
    ensures |d.cs| == 1 && Coef(d.cs, ONE) > 0 <==> NonConst(e.cs) == NonConst(w.cs) && Coef(d.cs, ONE) > 0
  {
    hide Wrap, Small, NonConst, Coef;
    forall k: Mono ensures Coef(d.cs, k) == 0 <==> Coef(w.cs, k) == Coef(e.cs, k) {
      SmallCoef(e, k);
      SmallCoef(w, k);
      WordsDiffer(Coef(w.cs, k), Coef(e.cs, k));
    }
    SameNonConst(e, w);
    if Coef(d.cs, ONE) != 0 { JustConstant(d); }
  }

  lemma CoefOfDifference(e: MulAddExpr, w: MulAddExpr, d: MulAddExpr, k: Mono)
    requires Accumulated(d, w, e.cs, -1) && !d.bad
    ensures Coef(d.cs, k) == Wrap(Coef(w.cs, k) - Coef(e.cs, k))
  {
    AccumulatedAt(d, w, e.cs, -1, k);
    assert Times(Coef(e.cs, k), -1) == -Coef(e.cs, k);
  }

  lemma WordsDiffer(a: int, b: int)
    requires IsInt32(a) && IsInt32(b)
    ensures Wrap(a - b) == 0 <==> a == b
  { }

  lemma NonConstAt(p: Poly, k: Mono)
    ensures k in NonConst(p) <==> k in p && k != ONE
    ensures k in NonConst(p) ==> NonConst(p)[k] == Coef(p, k)
  { }

  lemma SameNonConst(e: MulAddExpr, w: MulAddExpr)
    requires Small(e) && Small(w) && !e.bad && !w.bad
    ensures NonConst(e.cs) == NonConst(w.cs) <==> forall k :: k != ONE ==> Coef(w.cs, k) == Coef(e.cs, k)
  {
    hide Small, NonConst, Coef;
    forall k: Mono
      ensures k in NonConst(e.cs) <==> Coef(e.cs, k) != 0 && k != ONE
      ensures k in NonConst(w.cs) <==> Coef(w.cs, k) != 0 && k != ONE
      ensures k in NonConst(e.cs) ==> NonConst(e.cs)[k] == Coef(e.cs, k)
      ensures k in NonConst(w.cs) ==> NonConst(w.cs)[k] == Coef(w.cs, k)
    {
      SmallCoef(e, k);
      SmallCoef(w, k);
      NonConstAt(e.cs, k);
      NonConstAt(w.cs, k);
    }
    if NonConst(e.cs) == NonConst(w.cs) {
      forall k: Mono | k != ONE ensures Coef(w.cs, k) == Coef(e.cs, k) {
        assert k in NonConst(e.cs) <==> k in NonConst(w.cs);
      }
    }
  }

  lemma JustConstant(d: MulAddExpr)
    requires Small(d) && !d.bad && Coef(d.cs, ONE) != 0
    ensures |d.cs| == 1 <==> forall k :: k != ONE ==> Coef(d.cs, k) == 0
  {
    forall k: Mono ensures Coef(d.cs, k) == 0 <==> k !in d.cs { SmallCoef(d, k); }
    hide Small, Coef;
    var others := d.cs.Keys - {ONE};
    assert |others| == |d.cs| - 1 by { assert |d.cs.Keys| == |d.cs|; }
    if |d.cs| != 1 {
      var k := Pick(others);
      assert Coef(d.cs, k) != 0;
    } else {
      forall k: Mono | k != ONE ensures Coef(d.cs, k) == 0 { assert k !in others; }
    }
  }

  /** Expressions that differ in the constant only have at most four products together. */
  lemma FewTogether(e: MulAddExpr, w: MulAddExpr)
    requires Small(e) && Small(w) && !e.bad && !w.bad && NonConst(e.cs) == NonConst(w.cs)
    ensures |w.cs.Keys + e.cs.Keys| < 5
  {
    hide *;
    forall k: Mono | k != ONE ensures k in e.cs <==> k in w.cs {
      NonConstAt(e.cs, k);
      NonConstAt(w.cs, k);
    }
    SmallSize(e);
    SmallSize(w);
    assert w.cs.Keys + e.cs.Keys == if ONE in e.cs then e.cs.Keys else w.cs.Keys;
  }

  lemma SmallSize(e: MulAddExpr)
    requires Small(e) && !e.bad
    ensures |e.cs.Keys| < 5
  {
    assert |e.cs.Keys| == |e.cs|;
  }

  /** `w` exceeds `e` by `c`, modulo 2^32, whatever the registers hold. */
  ghost predicate DiffersBy(e: MulAddExpr, w: MulAddExpr, c: int) {
    forall env :: Cong(PolyVal(w.cs, env) - PolyVal(e.cs, env), c)
  }

  lemma CongSubtract(d: int, w: int, e: int)
    requires Cong(d, w + Times(-1, e))
    ensures Cong(w - e, d)
  { }

  lemma OnlyConstant(p: Poly)
    requires |p| == 1 && ONE in p
    ensures forall env :: PolyVal(p, env) == p[ONE]
  {
    forall env ensures PolyVal(p, env) == p[ONE] {
      PolySplit(p, env, ONE);
      Smaller(p, ONE);
      assert p - {ONE} == map[];
    }
  }
}
