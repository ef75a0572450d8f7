/** From the dependence test to parallel iterations (`ArrayReadWrite::dependent`, `loop_parallel`,
    src/ir/opt/loop_ops.cpp). */
module LoopParallel {
  import opened Word32
  import opened Dependence
  import opened Interleaving

  /** The stores and loads of a loop body. */
  datatype Accesses = Accesses(stores: seq<Access>, loads: seq<Access>)

  ghost predicate WellAccesses(x: Accesses) {
    (forall w :: w in x.stores ==> WellAccess(w)) && forall r :: r in x.loads ==> WellAccess(r)
  }

  /** Every store is separated from every load and from every later store. A store is not compared with itself. */
  ghost predicate PairsSeparate(c: Context, x: Accesses) {
    && (forall i, j :: 0 <= i < |x.stores| && 0 <= j < |x.loads| ==> AddrApart(c, x.stores[i], x.loads[j]))
    && (forall i, j :: 0 <= i < j < |x.stores| ==> AddrApart(c, x.stores[i], x.stores[j]))
  }

  /** The test gives up on loops with many accesses. */
  predicate Crowded(x: Accesses) {
    (|x.loads| + |x.stores|) * |x.stores| >= 100
  }

  lemma FewAccesses(x: Accesses)
    requires |x.stores| + |x.loads| < 10
    ensures !Crowded(x)
  {
    MulMono(|x.loads| + |x.stores|, 9, if |x.stores| > 0 then |x.stores| else 1);
  }

  /** `dependent` */
  method Dependent(c: Context, x: Accesses) returns (dep: bool)
    requires WellAccesses(x)
    ensures dep <==> Crowded(x) || !PairsSeparate(c, x)
    ensures |x.stores| + |x.loads| < 10 ==> (dep <==> !PairsSeparate(c, x))
  {
    hide AddrApart, WellAccess;
    if |x.stores| + |x.loads| < 10 { FewAccesses(x); }
    if (|x.loads| + |x.stores|) * |x.stores| >= 100 { return true; }
    for i := 0 to |x.stores|
      invariant forall k, j :: 0 <= k < i && 0 <= j < |x.loads| ==> AddrApart(c, x.stores[k], x.loads[j])
      invariant forall k, j :: 0 <= k < i && k < j < |x.stores| ==> AddrApart(c, x.stores[k], x.stores[j])
    {
      assert x.stores[i] in x.stores;
      for j := 0 to |x.loads|
        invariant forall m :: 0 <= m < j ==> AddrApart(c, x.stores[i], x.loads[m])
      {
        assert x.loads[j] in x.loads;
        var maybe := AddrMaybeEq(c, x.stores[i], x.loads[j]);
        if maybe { return true; }
      }
      for j := 0 to |x.stores|
        invariant forall m :: 0 <= m < j && i < m ==> AddrApart(c, x.stores[i], x.stores[m])
      {
        assert x.stores[j] in x.stores;
        if i < j {
          var maybe := AddrMaybeEq(c, x.stores[i], x.stores[j]);
          if maybe { return true; }
        }
      }
    }
    dep := false;
  }

  // ----- iterations -----

  /** Arrays in memory: where each starts, its size and its strides. */
  datatype Layout = Layout(start: map<nat, int>, size: map<nat, int>, strides: map<nat, seq<nat>>)

  ghost predicate Disjoint(lay: Layout) {
    && lay.start.Keys == lay.size.Keys == lay.strides.Keys
    && forall a, b :: a in lay.start && b in lay.start && a != b ==>
         lay.start[a] + lay.size[a] <= lay.start[b] || lay.start[b] + lay.size[b] <= lay.start[a]
  }

  ghost function IndexVals(strides: seq<nat>, a: Access, env: Env): (vals: seq<int>)
    requires a.Element? && forall s :: s in strides ==> s in a.idx
    ensures |vals| == |strides|
    ensures forall j :: 0 <= j < |strides| ==> vals[j] == IndexVal(a.idx[strides[j]], env)
  {
    seq(|strides|, j requires 0 <= j < |strides| => IndexVal(a.idx[strides[j]], env))
  }

  /** An element has an index for every dimension of its array, each within its dimension. */
  ghost predicate InArray(lay: Layout, a: Access, env: Env) {
    a.Element? ==>
      && a.base in lay.start && a.base in lay.size && a.base in lay.strides
      && (forall s :: s in a.idx <==> s in lay.strides[a.base])
      && InDims(lay.strides[a.base], IndexVals(lay.strides[a.base], a, env), lay.size[a.base])
  }

  ghost function Addr(lay: Layout, a: Access, env: Env): int
    requires InArray(lay, a, env)
  {
    match a
    case Element(base, _) => lay.start[base] + Offset(lay.strides[base], IndexVals(lay.strides[base], a, env))
    case Unknown(r) => Get(env, r)
  }

  /** Registers at some point of iteration `t` of a loop entered with `env`: the induction variable and the registers
      that the loop does not define are known, all others, those of inner loops among them, hold anything. */
  predicate InIteration(c: Context, env: Env, t: int, e: Env) {
    && Get(e, c.ind) == Get(env, c.ind) + Times(t, c.step)
    && forall x :: x in c.fixed ==> Get(e, x) == Get(env, x)
  }

  /** Where the conclusion of the test about two indexes is right: the distance of the constants avoids what the
      induction variable adds in any number of iterations. */
  ghost predicate Trusted(c: Context, env: Env, a: Access, b: Access) {
    forall s :: SeparateAt(c, a, b, s) ==> IndexTrusted(c, env, a.idx[s].p, b.idx[s].p)
  }

  ghost predicate IndexTrusted(c: Context, env: Env, p: Poly, q: Poly) {
    NeverHits(Const(p) - Const(q), Times(c.step, Lead(p, env, c.ind)))
  }

  /** Indexes in which the induction variable only occurs as a term of its own. */
  ghost predicate Affine(c: Context, a: Access) {
    WellAccess(a) && (a.Element? ==> forall s :: s in a.idx && a.idx[s].Known? ==> OwnTerm(a.idx[s].p, c.ind))
  }

  /** The difference of two constants does not overflow, nor its comparison with a negative step. */
  predicate Near(step: int, d: int) {
    IsInt32(d) && (step < 0 ==> -TWO31 - step <= d <= TWO31 + step)
  }

  ghost predicate CloseConstants(c: Context, a: Access, b: Access) {
    forall s :: SeparateAt(c, a, b, s) ==> Near(c.step, Const(a.idx[s].p) - Const(b.idx[s].p))
  }

  /** For such indexes the conclusions are right in every run. */
  lemma AffineTrusted(c: Context, env: Env, a: Access, b: Access)
    requires IsInt32(c.step) && Affine(c, a) && CloseConstants(c, a, b)
    ensures Trusted(c, env, a, b)
  {
    hide Separate, OwnTerm, NeverHits, Lead, WellPoly;
    forall s | SeparateAt(c, a, b, s) ensures IndexTrusted(c, env, a.idx[s].p, b.idx[s].p) {
      var p, q := a.idx[s].p, b.idx[s].p;
      assert WellIndex(a.idx[s]);
      SeparateIff(c, p, q);
      OwnTermLead(c, p, env);
      PositiveStep(c, p, q, env);
    }
  }

  /** With step 1 the conclusions are right exactly in the runs in which every index that separates has a coefficient
      of the induction variable other than 0. */
  lemma UnitTrusted(c: Context, env: Env, a: Access, b: Access)
    requires c.step == 1
    requires forall s :: SeparateAt(c, a, b, s) ==> IsInt32(Const(a.idx[s].p) - Const(b.idx[s].p))
    ensures Trusted(c, env, a, b) <==> forall s :: SeparateAt(c, a, b, s) ==> Lead(a.idx[s].p, env, c.ind) != 0
  {
    hide Separate, NeverHits, Lead, Const;
    forall s | SeparateAt(c, a, b, s)
      ensures IndexTrusted(c, env, a.idx[s].p, b.idx[s].p) <==> Lead(a.idx[s].p, env, c.ind) != 0
    {
      UnitStep(c, a.idx[s].p, b.idx[s].p, env);
    }
  }

  lemma TimesDiff(t: int, u: int, s: int)
    ensures Times(t - u, s) == Times(t, s) - Times(u, s)
  {
    Distrib(t, -u, s);
  }

  /** Registers in iteration `t`, the others as before the loop. */
  function At(c: Context, env: Env, t: int): Env {
    env[c.ind := Get(env, c.ind) + Times(t, c.step)]
  }

  /** A comparable index has one value in the whole iteration. */
  lemma IndexAt(c: Context, p: Poly, env: Env, t: int, e: Env)
    requires c.step != 0 && InIteration(c, env, t, e) && forall k :: k in p ==> MonoOk(c, k)
    ensures PolyVal(p, e) == PolyVal(p, At(c, env, t))
  {
    hide Times, PolyVal;
    forall k, x | k in p && x in k ensures Get(e, x) == Get(At(c, env, t), x) {
      assert MonoOk(c, k);
      assert FactorOk(c, x, k[x]);
    }
    PolySame(p, e, At(c, env, t));
  }

  lemma IndexDiffers(c: Context, p: Poly, q: Poly, env: Env, t: int, u: int, e: Env, f: Env)
    requires Separate(c, p, q) && IndexTrusted(c, env, p, q) && t != u
    requires InIteration(c, env, t, e) && InIteration(c, env, u, f)
    ensures PolyVal(p, e) != PolyVal(q, f)
  {
    hide Times, PolyVal, Lead, HasInd, NeverHits, InIteration;
    SeparateMoves(c, p, q);
    SeparateSound(c, p, q, env);
    SameProducts(c, p, q);
    hide Separate;
    IndexAt(c, p, env, t, e);
    IndexAt(c, q, env, u, f);
    assert ApartBy(c, p, q, env, t - u, Get(env, c.ind) + Times(u, c.step));
    TimesDiff(t, u, c.step);
  }

  lemma SameProducts(c: Context, p: Poly, q: Poly)
    requires Separate(c, p, q)
    ensures (forall k :: k in p ==> MonoOk(c, k)) && forall k :: k in q ==> MonoOk(c, k)
  {
    forall k | k in q && k != ONE ensures k in p { assert k in NonConst(q); }
  }

  /** What the test has separated never meets, wherever in the two iterations. */
  lemma SeparatedNeverMeet(lay: Layout, c: Context, env: Env, a: Access, b: Access, t: int, u: int, e: Env, f: Env)
    requires Disjoint(lay) && AddrSeparate(c, a, b) && Trusted(c, env, a, b) && t != u
    requires InIteration(c, env, t, e) && InIteration(c, env, u, f) && InArray(lay, a, e) && InArray(lay, b, f)
    ensures Addr(lay, a, e) != Addr(lay, b, f)
  {
    hide PolyVal, Separate, Offset, InDims, IndexTrusted, InIteration;
    var strides := lay.strides[a.base];
    OffsetRange(strides, IndexVals(strides, a, e), lay.size[a.base]);
    OffsetRange(lay.strides[b.base], IndexVals(lay.strides[b.base], b, f), lay.size[b.base]);
    if a.base == b.base {
      var s :| SeparateAt(c, a, b, s);
      IndexDiffers(c, a.idx[s].p, b.idx[s].p, env, t, u, e, f);
      var j :| 0 <= j < |strides| && strides[j] == s;
      var v, w := IndexVals(strides, a, e), IndexVals(strides, b, f);
      assert v[j] != w[j];
      if Offset(strides, v) == Offset(strides, w) { OffsetsUnique(strides, v, w, lay.size[a.base]); }
    }
  }

  // ----- the loop -----

  /** The registers with which iteration `t` comes to its `i`-th store or load; inner loops come there many times,
      conditions never. */
  datatype Visits = Visits(stores: (nat, int, Env) -> bool, loads: (nat, int, Env) -> bool)

  /** All visits of one access are in their iteration and in their array. */
  ghost predicate VisitsOk(lay: Layout, c: Context, env: Env, iters: set<int>, a: Access, visits: (int, Env) -> bool) {
    forall t, e :: t in iters && visits(t, e) ==> InIteration(c, env, t, e) && InArray(lay, a, e)
  }

  function StoresOf(v: Visits, i: nat): (int, Env) -> bool { (t, e) => v.stores(i, t, e) }

  function LoadsOf(v: Visits, i: nat): (int, Env) -> bool { (t, e) => v.loads(i, t, e) }

  ghost predicate AllVisitsOk(l: Loop, lay: Layout, c: Context, env: Env, x: Accesses, v: Visits) {
    && (forall i :: 0 <= i < |x.stores| ==> VisitsOk(lay, c, env, l.iters, x.stores[i], StoresOf(v, i)))
    && (forall j :: 0 <= j < |x.loads| ==> VisitsOk(lay, c, env, l.iters, x.loads[j], LoadsOf(v, j)))
  }

  /** The access goes to `addr` at some visit in iteration `t`. */
  ghost predicate GoesTo(lay: Layout, a: Access, visits: (int, Env) -> bool, t: int, addr: int) {
    exists e :: visits(t, e) && InArray(lay, a, e) && Addr(lay, a, e) == addr
  }

  /** The iterations of `l` access exactly what `x` says. */
  ghost predicate AccessesOf(l: Loop, lay: Layout, c: Context, env: Env, x: Accesses, v: Visits) {
    && AllVisitsOk(l, lay, c, env, x, v)
    && (forall t, a :: t in l.iters ==>
          (l.stores(t, a) <==> exists i :: 0 <= i < |x.stores| && GoesTo(lay, x.stores[i], StoresOf(v, i), t, a)))
    && (forall t, a :: t in l.iters ==>
          (l.loads(t, a) <==> exists j :: 0 <= j < |x.loads| && GoesTo(lay, x.loads[j], LoadsOf(v, j), t, a)))
  }

  /** In different iterations the two accesses go to different addresses. */
  ghost predicate NeverMeet(lay: Layout, iters: set<int>, a: Access, av: (int, Env) -> bool, b: Access, bv: (int, Env) -> bool) {
    forall t, u, addr :: t in iters && u in iters && t != u && GoesTo(lay, a, av, t, addr) ==> !GoesTo(lay, b, bv, u, addr)
  }

  /** What the test concludes about the pairs it looks at is right in this run. */
  ghost predicate TestTrusted(c: Context, env: Env, x: Accesses) {
    && (forall i, j :: 0 <= i < |x.stores| && 0 <= j < |x.loads| ==> Trusted(c, env, x.stores[i], x.loads[j]))
    && (forall i, j :: 0 <= i < j < |x.stores| ==> Trusted(c, env, x.stores[i], x.stores[j]))
  }

  lemma PairApart(lay: Layout, c: Context, env: Env, iters: set<int>,
                  a: Access, av: (int, Env) -> bool, b: Access, bv: (int, Env) -> bool)
    requires Disjoint(lay) && AddrApart(c, a, b) && Trusted(c, env, a, b)
    requires VisitsOk(lay, c, env, iters, a, av) && VisitsOk(lay, c, env, iters, b, bv)
    ensures NeverMeet(lay, iters, a, av, b, bv) && NeverMeet(lay, iters, b, bv, a, av)
  {
    hide AddrApart, AddrSeparate, Trusted, Disjoint, InArray, Addr, InIteration;
    ApartIsSeparate(c, a, b);
    forall t, u, e, f | t in iters && u in iters && t != u && av(t, e) && bv(u, f)
      ensures InArray(lay, a, e) && InArray(lay, b, f) && Addr(lay, a, e) != Addr(lay, b, f)
    {
      SeparatedNeverMeet(lay, c, env, a, b, t, u, e, f);
    }
  }

  /** The stores meet nothing in other iterations, except perhaps themselves. */
  lemma StoresApart(l: Loop, lay: Layout, c: Context, env: Env, x: Accesses, v: Visits)
    requires Disjoint(lay) && TestTrusted(c, env, x) && AllVisitsOk(l, lay, c, env, x, v) && PairsSeparate(c, x)
    ensures forall i, j :: 0 <= i < |x.stores| && 0 <= j < |x.stores| && i != j ==>
      NeverMeet(lay, l.iters, x.stores[i], StoresOf(v, i), x.stores[j], StoresOf(v, j))
    ensures forall i, j :: 0 <= i < |x.stores| && 0 <= j < |x.loads| ==>
      NeverMeet(lay, l.iters, x.stores[i], StoresOf(v, i), x.loads[j], LoadsOf(v, j))
  {
    hide Disjoint, AddrApart, Trusted, VisitsOk, NeverMeet, StoresOf, LoadsOf;
    forall i, j | 0 <= i < |x.stores| && 0 <= j < |x.stores| && i != j
      ensures NeverMeet(lay, l.iters, x.stores[i], StoresOf(v, i), x.stores[j], StoresOf(v, j))
    {
      if i < j {
        PairApart(lay, c, env, l.iters, x.stores[i], StoresOf(v, i), x.stores[j], StoresOf(v, j));
      } else {
        PairApart(lay, c, env, l.iters, x.stores[j], StoresOf(v, j), x.stores[i], StoresOf(v, i));
      }
    }
    forall i, j | 0 <= i < |x.stores| && 0 <= j < |x.loads|
      ensures NeverMeet(lay, l.iters, x.stores[i], StoresOf(v, i), x.loads[j], LoadsOf(v, j))
    {
      PairApart(lay, c, env, l.iters, x.stores[i], StoresOf(v, i), x.loads[j], LoadsOf(v, j));
    }
  }

  /** No store goes to one address in two iterations. */
  ghost predicate NoneMeetsItself(l: Loop, lay: Layout, x: Accesses, v: Visits) {
    forall i :: 0 <= i < |x.stores| ==> NeverMeet(lay, l.iters, x.stores[i], StoresOf(v, i), x.stores[i], StoresOf(v, i))
  }

  /** When the test finds no dependence, the iterations are independent exactly when no store goes to the same
      address in two iterations, which is what the test does not look at. */
  lemma IndependentIff(l: Loop, lay: Layout, c: Context, env: Env, x: Accesses, v: Visits)
    requires Disjoint(lay) && TestTrusted(c, env, x) && AccessesOf(l, lay, c, env, x, v) && PairsSeparate(c, x)
    ensures Independent(l) <==> NoneMeetsItself(l, lay, x, v)
  {
    hide Disjoint, TestTrusted, AllVisitsOk, PairsSeparate, GoesTo, StoresOf, LoadsOf;
    StoresApart(l, lay, c, env, x, v);
    if NoneMeetsItself(l, lay, x, v) {
      forall t, u, a | t in l.iters && u in l.iters && t != u && l.stores(t, a) ensures !l.loads(u, a) && !l.stores(u, a) {
        var i :| 0 <= i < |x.stores| && GoesTo(lay, x.stores[i], StoresOf(v, i), t, a);
      }
    }
    if Independent(l) {
      forall i | 0 <= i < |x.stores|
        ensures NeverMeet(lay, l.iters, x.stores[i], StoresOf(v, i), x.stores[i], StoresOf(v, i))
      {
        forall t, u, a | t in l.iters && u in l.iters && t != u && GoesTo(lay, x.stores[i], StoresOf(v, i), t, a)
          ensures !GoesTo(lay, x.stores[i], StoresOf(v, i), u, a)
        {
          assert l.stores(t, a);
        }
      }
    }
  }

  /** Had the test compared every store with itself too, no condition would be left. */
  lemma SelfChecked(l: Loop, lay: Layout, c: Context, env: Env, x: Accesses, v: Visits)
    requires Disjoint(lay) && TestTrusted(c, env, x) && AccessesOf(l, lay, c, env, x, v) && PairsSeparate(c, x)
    requires forall w :: w in x.stores ==> AddrApart(c, w, w) && Trusted(c, env, w, w)
    ensures Independent(l)
  {
    IndependentIff(l, lay, c, env, x, v);
    hide Disjoint, AddrApart, Trusted, VisitsOk, NeverMeet, StoresOf, Independent;
    forall i | 0 <= i < |x.stores|
      ensures NeverMeet(lay, l.iters, x.stores[i], StoresOf(v, i), x.stores[i], StoresOf(v, i))
    {
      PairApart(lay, c, env, l.iters, x.stores[i], StoresOf(v, i), x.stores[i], StoresOf(v, i));
    }
  }

  /** A loop for which no dependence is reported and in which no store meets itself: every complete interleaving leaves
      the memory that the loop leaves, which completes too. */
  lemma ParallelIsSequential(l: Loop, lay: Layout, c: Context, env: Env, x: Accesses, v: Visits, s0: State, p: seq<int>)
    returns (q: seq<int>)
    requires Disjoint(lay) && TestTrusted(c, env, x) && AccessesOf(l, lay, c, env, x, v) && PairsSeparate(c, x)
    requires NoneMeetsItself(l, lay, x, v)
    requires Initial(l, s0) && forall k :: k in l.iters ==> Confined(l, k)
    requires (forall i :: i in p ==> i in l.iters) && Finished(l, Run(l, s0, p))
    ensures LoopOrder(q) && (forall i :: i in q ==> i in l.iters) && Finished(l, Run(l, s0, q))
    ensures forall a :: Read(Run(l, s0, p).mem, a) == Read(Run(l, s0, q).mem, a)
  {
    IndependentIff(l, lay, c, env, x, v);
    hide *;
    q := LoopOrderAgrees(l, s0, p);
  }

  // ----- two loops -----

  /** The element `a[i][j]` of an outer loop over `i`, register 0, whose inner loop defines `j`, register 1: the rows
      separate it from itself. */
  lemma RowsApart(env: Env)
    ensures
      var c := Context(0, 1, {});
      var w := Element(7, map[8 := Known(map[map[0 := 1] := 1]), 4 := Known(map[map[1 := 1] := 1])]);
      AddrApart(c, w, w) && Trusted(c, env, w, w)
  {
    var c := Context(0, 1, {});
    var i, j: Poly := map[map[0 := 1] := 1], map[map[1 := 1] := 1];
    var w := Element(7, map[8 := Known(i), 4 := Known(j)]);
    assert Separate(c, i, i) by {
      var k: Mono := map[0 := 1];
      assert k in i && 0 in k;
      WrapId(0);
      WrapId(1);
    }
    assert SeparateAt(c, w, w, 8);
    assert FoundAt(c, w, w, 8);
    assert OwnTerm(i, 0) && OwnTerm(j, 0);
    AffineTrusted(c, env, w, w);
  }

  /** The loop `a[0] = i` passes the test although all its iterations store to the same address. */
  lemma SelfPairMissed()
    ensures
      var c := Context(0, 1, {});
      var w := Element(7, map[4 := Known(map[])]);
      var lay := Layout(map[7 := 0], map[7 := 4], map[7 := [4]]);
      && PairsSeparate(c, Accesses([w], [])) && Trusted(c, map[], w, w)
      && InIteration(c, map[], 0, At(c, map[], 0)) && InIteration(c, map[], 1, At(c, map[], 1))
      && InArray(lay, w, At(c, map[], 0)) && InArray(lay, w, At(c, map[], 1))
      && Addr(lay, w, At(c, map[], 0)) == Addr(lay, w, At(c, map[], 1))
  {
    hide *;
    var c := Context(0, 1, {});
    NoPairs(c, Element(7, map[4 := Known(map[])]));
    AtIsIn(c, map[], 0);
    AtIsIn(c, map[], 1);
    FixedElement(At(c, map[], 0));
    FixedElement(At(c, map[], 1));
  }

  lemma NoPairs(c: Context, w: Access)
    ensures PairsSeparate(c, Accesses([w], []))
  {
    hide AddrApart;
  }

  lemma AtIsIn(c: Context, env: Env, t: int)
    requires c.ind !in c.fixed
    ensures InIteration(c, env, t, At(c, env, t))
  {
    hide Times;
  }

  lemma FixedElement(env: Env)
    ensures
      var w := Element(7, map[4 := Known(map[])]);
      var lay := Layout(map[7 := 0], map[7 := 4], map[7 := [4]]);
      Trusted(Context(0, 1, {}), map[], w, w) && InArray(lay, w, env) && Addr(lay, w, env) == 0
  {
    var w := Element(7, map[4 := Known(map[])]);
    var strides: seq<nat> := [4];
    assert IndexVals(strides, w, env) == [0];
    assert Offset(strides, [0]) == 0 && InDims(strides, [0], 4) by {
      assert strides[1..] == [] && [0][1..] == [] && Times(4, 0) == 0;
    }
  }
}
