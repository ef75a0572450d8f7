/** Linear expressions over registers modulo 2^32 (`AddExpr` and `SimplifyExpr`, src/ir/opt/simplify_expr.cpp):
    normalisation keeps values, and the code generated for a normal form computes it. */
module LinearExpr {
  import opened Word32
  import opened FiniteSets

  /** Registers hold words. */
  type Env = map<nat, int>

  function Val(env: Env, x: nat): (v: int)
    ensures IsInt32(v)
  {
    if x in env then Wrap(env[x]) else 0
  }

  // ----- sums -----

  /** Sum of coefficient times register. */
  ghost function Sum(cs: map<nat, int>, env: Env): int
    decreases |cs|
  {
    if cs == map[] then 0
    else
      var x :| x in cs;
      assert |cs - {x}| < |cs| by { SmallerMap(cs, x); }
      Times(cs[x], Val(env, x)) + Sum(cs - {x}, env)
  }

  lemma SmallerMap(cs: map<nat, int>, x: nat)
    requires x in cs
    ensures |cs - {x}| < |cs|
  {
    assert (cs - {x}).Keys == cs.Keys - {x};
    assert |(cs - {x}).Keys| == |cs - {x}| && |cs.Keys| == |cs|;
  }

  /** Any term can be split off a sum. */
  lemma {:induction false} SumSplit(cs: map<nat, int>, env: Env, x: nat)
    requires x in cs
    ensures Sum(cs, env) == Times(cs[x], Val(env, x)) + Sum(cs - {x}, env)
    decreases |cs|
  {
    var y :| y in cs && Sum(cs, env) == Times(cs[y], Val(env, y)) + Sum(cs - {y}, env);
    if y != x {
      SmallerMap(cs, x);
      SmallerMap(cs, y);
      SumSplit(cs - {y}, env, x);
      SumSplit(cs - {x}, env, y);
      assert cs - {y} - {x} == cs - {x} - {y};
    }
  }

  lemma SumPut(cs: map<nat, int>, env: Env, x: nat, a: int)
    ensures Sum(cs[x := a], env) == Times(a, Val(env, x)) + Sum(cs - {x}, env)
  {
    SumSplit(cs[x := a], env, x);
    assert cs[x := a] - {x} == cs - {x};
  }

  // ----- normal forms -----

  /** `c` plus the sum of `cs`; nothing is known when `bad`. */
  datatype AddExpr = AddExpr(c: int, bad: bool, cs: map<nat, int>)

  const ZERO := AddExpr(0, false, map[])

  ghost function Value(e: AddExpr, env: Env): int {
    e.c + Sum(e.cs, env)
  }

  predicate TooMany(cs: map<nat, int>) { |cs| > 20 }

  /** `add_eq(x, a)`: add `a` times register `x`. */
  function AddTerm(e: AddExpr, x: nat, a: int): AddExpr {
    if e.bad then e
    else
      var v := Wrap(Coefficient(e, x) + a);
      var cs := if v == 0 then e.cs - {x} else e.cs[x := v];
      if TooMany(cs) then AddExpr(e.c, true, map[]) else AddExpr(e.c, false, cs)
  }

  lemma AddStep(c: int, v: int, was: int, a: int, val: int, rest: int)
    requires Cong(v, was + a)
    ensures Cong(c + (Times(v, val) + rest), (c + (Times(was, val) + rest)) + Times(a, val))
  {
    hide Cong;
    CongMul(v, was + a, val);
    Distrib(was, a, val);
    CongSelf(c + rest);
    CongAdd(v * val, (was + a) * val, c + rest, c + rest);
  }

  lemma TimesSign(a: int, b: int)
    requires a == 1 || a == -1
    ensures Times(a, b) == if a == 1 then b else -b
  { }

  function Coefficient(e: AddExpr, x: nat): int {
    if x in e.cs then e.cs[x] else 0
  }

  /** Before and after, the value is what the term contributes plus the rest. */
  lemma AddTermParts(e: AddExpr, x: nat, a: int, env: Env)
    requires !AddTerm(e, x, a).bad
    ensures Value(AddTerm(e, x, a), env) ==
      e.c + (Times(Wrap(Coefficient(e, x) + a), Val(env, x)) + Sum(e.cs - {x}, env))
    ensures Value(e, env) == e.c + (Times(Coefficient(e, x), Val(env, x)) + Sum(e.cs - {x}, env))
  {
    hide Wrap, Val, Sum, Times, TooMany;
    if x in e.cs { SumSplit(e.cs, env, x); } else { assert e.cs - {x} == e.cs; }
    SumPut(e.cs, env, x, Wrap(Coefficient(e, x) + a));
    TimesZero(Val(env, x));
  }

  lemma AddTermValue(e: AddExpr, x: nat, a: int, env: Env)
    requires !AddTerm(e, x, a).bad
    ensures Cong(Value(AddTerm(e, x, a), env), Value(e, env) + Times(a, Val(env, x)))
  {
    hide *;
    AddTermParts(e, x, a, env);
    CongWrap(Coefficient(e, x) + a);
    AddStep(e.c, Wrap(Coefficient(e, x) + a), Coefficient(e, x), a, Val(env, x), Sum(e.cs - {x}, env));
  }

  /** In every environment `r` is `e` plus `s` times `w`, unless it is bad. */
  ghost predicate IsSum(r: AddExpr, e: AddExpr, w: AddExpr, s: int) {
    !r.bad ==> !e.bad && !w.bad && forall env :: Cong(Value(r, env), Value(e, env) + Times(s, Value(w, env)))
  }

  ghost predicate PartSum(r: AddExpr, e: AddExpr, c: int, cs: map<nat, int>, s: int) {
    !r.bad ==> !e.bad && forall env :: Cong(Value(r, env), Value(e, env) + Times(s, c + Sum(cs, env)))
  }

  lemma ScaleStep(r1: int, r: int, e: int, sum: int, a: int, s: int, was: int, val: int)
    requires Cong(r1, r + Times(was, val)) && Cong(r, e + Times(s, sum)) && Cong(was, a * s)
    ensures Cong(r1, e + Times(s, sum + Times(a, val)))
  {
    assert Cong(r + was * val, e + s * sum + (a * s) * val) by {
      hide Cong;
      CongMul(was, a * s, val);
      CongAdd(r, e + s * sum, was * val, (a * s) * val);
    }
    Comm3(a, s, val);
    Distrib(sum, a * val, s);
  }

  lemma PartSumStep(r: AddExpr, e: AddExpr, c: int, cs: map<nat, int>, s: int, x: nat, a: int)
    requires PartSum(r, e, c, cs, s) && x !in cs
    ensures PartSum(AddTerm(r, x, Wrap(a * s)), e, c, cs[x := a], s)
  {
    hide Cong, Wrap, Val, Sum, Value, AddTerm, Times;
    var r' := AddTerm(r, x, Wrap(a * s));
    StaysBad(r, x, Wrap(a * s));
    if r'.bad { return; }
    forall env ensures Cong(Value(r', env), Value(e, env) + Times(s, c + Sum(cs[x := a], env))) {
      PartSumAt(r, e, c, cs, s, x, a, env);
    }
  }

  lemma StaysBad(e: AddExpr, x: nat, a: int)
    ensures e.bad ==> AddTerm(e, x, a).bad
  { }

  lemma PartSumAt(r: AddExpr, e: AddExpr, c: int, cs: map<nat, int>, s: int, x: nat, a: int, env: Env)
    requires Cong(Value(r, env), Value(e, env) + Times(s, c + Sum(cs, env))) && x !in cs && !AddTerm(r, x, Wrap(a * s)).bad
    ensures Cong(Value(AddTerm(r, x, Wrap(a * s)), env), Value(e, env) + Times(s, c + Sum(cs[x := a], env)))
  {
    hide Cong, Wrap, Val, Sum, Value, AddTerm, Times;
    var val, sum := Val(env, x), c + Sum(cs, env);
    AddTermValue(r, x, Wrap(a * s), env);
    SumPut(cs, env, x, a);
    assert cs - {x} == cs;
    CongWrap(a * s);
    ScaleStep(Value(AddTerm(r, x, Wrap(a * s)), env), Value(r, env), Value(e, env), sum, a, s, Wrap(a * s), val);
    assert Sum(cs[x := a], env) == Times(a, val) + Sum(cs, env);
    assert Sum(cs[x := a], env) + c == sum + Times(a, val);
  }

  /** An expression that is not bad has at most twenty terms. */
  predicate Slim(e: AddExpr) { !e.bad ==> !TooMany(e.cs) }

  lemma TermSlim(e: AddExpr, x: nat, a: int)
    requires Slim(e)
    ensures Slim(AddTerm(e, x, a))
  { }

  lemma TermRoom(e: AddExpr, x: nat, a: int, keys: set<nat>)
    requires !e.bad && e.cs.Keys + {x} <= keys && |keys| <= 20
    ensures !AddTerm(e, x, a).bad
  {
    TermKeys(e, x, a);
    var v := Wrap(Coefficient(e, x) + a);
    var cs := if v == 0 then e.cs - {x} else e.cs[x := v];
    assert cs.Keys <= keys && |cs.Keys| == |cs|;
    SubsetSize(cs.Keys, keys);
  }

  lemma TermKeys(e: AddExpr, x: nat, a: int)
    ensures AddTerm(e, x, a).cs.Keys <= e.cs.Keys + {x}
  { }

  /** `add_eq(w, s)`: add `s` times `w`. */
  method AddScaled(e: AddExpr, w: AddExpr, s: int) returns (r: AddExpr)
    ensures IsSum(r, e, w, s) && r.cs.Keys <= e.cs.Keys + w.cs.Keys && (Slim(e) ==> Slim(r))
    ensures !e.bad && !w.bad && |e.cs.Keys + w.cs.Keys| <= 20 ==> !r.bad
  {
    hide Wrap, Cong, Sum, AddTerm, Times, PartSum, TooMany;
    if e.bad { return e; }
    if w.bad { return e.(bad := true); }
    r := e.(c := Wrap(e.c + w.c * s));
    ghost var done: map<nat, int> := map[];
    ScaledStart(e, w.c, s);
    var keys := Listed(w.cs.Keys);
    for k := 0 to |keys|
      invariant forall x :: x in done <==> x in keys[..k]
      invariant forall x :: x in done ==> x in w.cs && done[x] == w.cs[x]
      invariant PartSum(r, e, w.c, done, s) && r.cs.Keys <= e.cs.Keys + w.cs.Keys && (Slim(e) ==> Slim(r))
      invariant |e.cs.Keys + w.cs.Keys| <= 20 ==> !r.bad
    {
      var x := keys[k];
      assert x in keys && x !in keys[..k];
      PartSumStep(r, e, w.c, done, s, x, w.cs[x]);
      TermKeys(r, x, Wrap(w.cs[x] * s));
      if Slim(r) { TermSlim(r, x, Wrap(w.cs[x] * s)); }
      if |e.cs.Keys + w.cs.Keys| <= 20 { TermRoom(r, x, Wrap(w.cs[x] * s), e.cs.Keys + w.cs.Keys); }
      r := AddTerm(r, x, Wrap(w.cs[x] * s));
      done := done[x := w.cs[x]];
    }
    assert keys[..|keys|] == keys;
    assert done == w.cs;
    PartSumAll(r, e, w, s);
  }

  lemma PartSumAll(r: AddExpr, e: AddExpr, w: AddExpr, s: int)
    requires PartSum(r, e, w.c, w.cs, s) && !w.bad
    ensures IsSum(r, e, w, s)
  { }

  lemma ScaledStart(e: AddExpr, c: int, s: int)
    ensures PartSum(e.(c := Wrap(e.c + c * s)), e, c, map[], s)
  {
    forall env ensures Cong(Value(e.(c := Wrap(e.c + c * s)), env), Value(e, env) + Times(s, c + Sum(map[], env))) {
      CongWrap(e.c + c * s);
      CongAdd(Wrap(e.c + c * s), e.c + c * s, Sum(e.cs, env), Sum(e.cs, env));
    }
  }

  /** `r` is the product of the two. */
  ghost predicate IsProduct(r: AddExpr, w1: AddExpr, w2: AddExpr) {
    !r.bad ==> !w1.bad && !w2.bad && forall env :: Cong(Value(r, env), Times(Value(w1, env), Value(w2, env)))
  }

  lemma ScaledIsProduct(r: AddExpr, w1: AddExpr, w2: AddExpr)
    requires !w1.bad && !w2.bad
    ensures w1.cs == map[] && IsSum(r, ZERO, w2, w1.c) ==> IsProduct(r, w1, w2)
    ensures w2.cs == map[] && IsSum(r, ZERO, w1, w2.c) ==> IsProduct(r, w1, w2)
  {
    hide Cong;
    forall env ensures Times(Value(w1, env), w2.c) == Times(w2.c, Value(w1, env)) { }
  }

  /** `set_mul` on a fresh expression: a product is linear when a factor is constant. */
  method Multiplied(w1: AddExpr, w2: AddExpr) returns (r: AddExpr)
    ensures IsProduct(r, w1, w2)
    ensures r.cs.Keys <= w1.cs.Keys + w2.cs.Keys && Slim(r)
    ensures Slim(w1) && Slim(w2) && !w1.bad && !w2.bad && (w1.cs == map[] || w2.cs == map[]) ==> !r.bad
  {
    SlimBasics();
    if Slim(w1) { SlimKeys(w1); }
    if Slim(w2) { SlimKeys(w2); }
    hide Slim, IsSum;
    r := ZERO;
    if w1.bad || w2.bad {
      r := r.(bad := true);
    } else if w1.cs == map[] {
      r := AddScaled(r, w2, w1.c);
      ScaledIsProduct(r, w1, w2);
    } else if w2.cs == map[] {
      r := AddScaled(r, w1, w2.c);
      ScaledIsProduct(r, w1, w2);
    } else {
      r := r.(bad := true);
    }
    if r.bad { BadSlim(r); }
  }

  lemma BadSlim(e: AddExpr)
    requires e.bad
    ensures Slim(e)
  { }

  // ----- straight-line code -----

  datatype Instr =
    | LoadConst(d: nat, c: int)
    | Copy(d: nat, s: nat)
    | Neg(d: nat, s: nat)
    | Add(d: nat, a: nat, b: nat)
    | Sub(d: nat, a: nat, b: nat)
    | Mul(d: nat, a: nat, b: nat)
    | Other(d: nat)

  /** What an instruction puts into its register; for other instructions, whatever is there. */
  function Computed(i: Instr, env: Env): int {
    match i
    case LoadConst(_, c) => Wrap(c)
    case Copy(_, s) => Val(env, s)
    case Neg(_, s) => Wrap(-Val(env, s))
    case Add(_, a, b) => Wrap(Val(env, a) + Val(env, b))
    case Sub(_, a, b) => Wrap(Val(env, a) - Val(env, b))
    case Mul(_, a, b) => Wrap(Times(Val(env, a), Val(env, b)))
    case Other(d) => Val(env, d)
  }

  /** In single-assignment form every definition of a block holds as an equation, wherever it is read. */
  ghost predicate Consistent(block: seq<Instr>, consts: map<nat, int>, env: Env) {
    && (forall i :: i in block ==> Val(env, i.d) == Computed(i, env))
    && (forall r :: r in consts ==> Val(env, r) == Wrap(consts[r]))
  }

  /** The expression of a register has its value. */
  ghost predicate ExprOk(block: seq<Instr>, consts: map<nat, int>, r: nat, e: AddExpr) {
    !e.bad ==> forall env :: Consistent(block, consts, env) ==> Cong(Value(e, env), Val(env, r))
  }

  lemma SelfTerm(r: nat)
    ensures AddTerm(ZERO, r, 1) == AddExpr(0, false, map[r := 1])
  {
    assert |map[r := 1]| == 1;
  }

  lemma SelfOk(block: seq<Instr>, consts: map<nat, int>, r: nat)
    ensures ExprOk(block, consts, r, AddTerm(ZERO, r, 1))
  {
    SelfTerm(r);
    forall env ensures Cong(Value(AddTerm(ZERO, r, 1), env), Val(env, r)) {
      SumPut(map[], env, r, 1);
      assert map[][r := 1] == map[r := 1];
    }
  }

  lemma ConstOk(block: seq<Instr>, consts: map<nat, int>, r: nat, c: int)
    requires (r in consts && consts[r] == c) || LoadConst(r, c) in block
    ensures ExprOk(block, consts, r, AddExpr(Wrap(c), false, map[]))
  {
    forall env | Consistent(block, consts, env) ensures Cong(Value(AddExpr(Wrap(c), false, map[]), env), Val(env, r)) {
      assert Val(env, r) == Wrap(c);
    }
  }

  lemma SumOk(block: seq<Instr>, consts: map<nat, int>, i: Instr, e1: AddExpr, e2: AddExpr, e: AddExpr)
    requires i in block && (i.Add? || i.Sub?)
    requires ExprOk(block, consts, i.a, e1) && ExprOk(block, consts, i.b, e2) && IsSum(e, e1, e2, if i.Add? then 1 else -1)
    ensures ExprOk(block, consts, i.d, e)
  {
    if e.bad { return; }
    var s := if i.Add? then 1 else -1;
    forall env | Consistent(block, consts, env) ensures Cong(Value(e, env), Val(env, i.d)) {
      var v1, v2 := Value(e1, env), Value(e2, env);
      assert Cong(v1, Val(env, i.a)) && Cong(v2, Val(env, i.b));
      assert Cong(Value(e, env), v1 + Times(s, v2));
      assert Times(s, v2) == (if i.Add? then v2 else -v2);
      CongAdd(v1, Val(env, i.a), v2, Val(env, i.b));
      assert Val(env, i.d) == Computed(i, env);
      CongWrap(if i.Add? then Val(env, i.a) + Val(env, i.b) else Val(env, i.a) - Val(env, i.b));
    }
  }

  lemma NegOk(block: seq<Instr>, consts: map<nat, int>, i: Instr, e1: AddExpr, e: AddExpr)
    requires i in block && i.Neg? && ExprOk(block, consts, i.s, e1) && IsSum(e, ZERO, e1, -1)
    ensures ExprOk(block, consts, i.d, e)
  {
    if e.bad { return; }
    forall env | Consistent(block, consts, env) ensures Cong(Value(e, env), Val(env, i.d)) {
      var v1 := Value(e1, env);
      assert Cong(Value(e, env), Value(ZERO, env) + Times(-1, v1));
      assert Times(-1, v1) == -v1 && Value(ZERO, env) == 0;
      CongAdd(0, 0, v1, Val(env, i.s));
      assert Val(env, i.d) == Computed(i, env);
      CongWrap(-Val(env, i.s));
    }
  }

  lemma MulOk(block: seq<Instr>, consts: map<nat, int>, i: Instr, e1: AddExpr, e2: AddExpr, e: AddExpr)
    requires i in block && i.Mul? && ExprOk(block, consts, i.a, e1) && ExprOk(block, consts, i.b, e2)
    requires IsProduct(e, e1, e2)
    ensures ExprOk(block, consts, i.d, e)
  {
    if e.bad { return; }
    hide Times, Wrap;
    forall env | Consistent(block, consts, env) ensures Cong(Value(e, env), Val(env, i.d)) {
      CongTimes(Value(e1, env), Val(env, i.a), Value(e2, env), Val(env, i.b));
      assert Val(env, i.d) == Computed(i, env);
      CongWrap(Times(Val(env, i.a), Val(env, i.b)));
    }
  }

  ghost predicate AllOk(block: seq<Instr>, consts: map<nat, int>, exprs: map<nat, AddExpr>) {
    forall r :: r in exprs ==> ExprOk(block, consts, r, exprs[r])
  }

  /** The expression of an operand: what the block has computed so far, a constant, or the register itself. */
  function Operand(consts: map<nat, int>, exprs: map<nat, AddExpr>, r: nat): AddExpr {
    if r in exprs then exprs[r]
    else if r in consts then AddExpr(Wrap(consts[r]), false, map[])
    else AddTerm(ZERO, r, 1)
  }

  lemma OperandOk(block: seq<Instr>, consts: map<nat, int>, exprs: map<nat, AddExpr>, r: nat)
    requires AllOk(block, consts, exprs)
    ensures ExprOk(block, consts, r, Operand(consts, exprs, r))
  {
    if r !in exprs {
      if r in consts { ConstOk(block, consts, r, consts[r]); } else { SelfOk(block, consts, r); }
    }
  }

  /** The registers that the expression of an instruction may mention. */
  function Leaves(consts: map<nat, int>, exprs: map<nat, AddExpr>, i: Instr): set<nat> {
    match i
    case LoadConst(_, _) => {}
    case Copy(_, s) => Operand(consts, exprs, s).cs.Keys
    case Neg(_, s) => Operand(consts, exprs, s).cs.Keys
    case Add(_, a, b) => Operand(consts, exprs, a).cs.Keys + Operand(consts, exprs, b).cs.Keys
    case Sub(_, a, b) => Operand(consts, exprs, a).cs.Keys + Operand(consts, exprs, b).cs.Keys
    case Mul(_, a, b) => Operand(consts, exprs, a).cs.Keys + Operand(consts, exprs, b).cs.Keys
    case Other(d) => {d}
  }

  /** When an expression is good: as long as the operands are, sums have few terms, and products a constant factor. */
  predicate ExprRule(consts: map<nat, int>, exprs: map<nat, AddExpr>, i: Instr, e: AddExpr) {
    match i
    case LoadConst(_, c) => e == AddExpr(Wrap(c), false, map[])
    case Copy(_, s) => e == Operand(consts, exprs, s)
    case Neg(_, s) => !Operand(consts, exprs, s).bad ==> !e.bad
    case Add(_, a, b) => FewTerms(Operand(consts, exprs, a), Operand(consts, exprs, b)) ==> !e.bad
    case Sub(_, a, b) => FewTerms(Operand(consts, exprs, a), Operand(consts, exprs, b)) ==> !e.bad
    case Mul(_, a, b) => OneConstant(Operand(consts, exprs, a), Operand(consts, exprs, b)) ==> !e.bad
    case Other(d) => e == AddTerm(ZERO, d, 1)
  }

  predicate FewTerms(e1: AddExpr, e2: AddExpr) { !e1.bad && !e2.bad && |e1.cs.Keys + e2.cs.Keys| <= 20 }

  predicate OneConstant(e1: AddExpr, e2: AddExpr) { !e1.bad && !e2.bad && (e1.cs == map[] || e2.cs == map[]) }

  ghost predicate AllSlim(exprs: map<nat, AddExpr>) {
    forall r :: r in exprs ==> Slim(exprs[r])
  }

  lemma OperandSlim(consts: map<nat, int>, exprs: map<nat, AddExpr>, r: nat)
    requires AllSlim(exprs)
    ensures Slim(Operand(consts, exprs, r))
  {
    SelfTerm(r);
  }

  /** `getExpr` for one instruction of the block. */
  method ExprOf(block: seq<Instr>, consts: map<nat, int>, exprs: map<nat, AddExpr>, i: Instr) returns (e: AddExpr)
    requires i in block && AllOk(block, consts, exprs) && AllSlim(exprs)
    ensures ExprOk(block, consts, i.d, e) && e.cs.Keys <= Leaves(consts, exprs, i)
    ensures ExprRule(consts, exprs, i, e) && Slim(e)
  {
    hide AllOk, ExprOk, IsSum, AllSlim, TooMany, Operand, AddTerm;
    SlimBasics();
    match i
    case LoadConst(d, c) =>
      ConstOk(block, consts, d, c);
      e := AddExpr(Wrap(c), false, map[]);
    case Copy(d, s) =>
      OperandOk(block, consts, exprs, s);
      OperandSlim(consts, exprs, s);
      e := Operand(consts, exprs, s);
      CopyOk(block, consts, i, e);
    case Neg(d, s) =>
      OperandOk(block, consts, exprs, s);
      OperandSlim(consts, exprs, s);
      SlimKeys(Operand(consts, exprs, s));
      e := AddScaled(ZERO, Operand(consts, exprs, s), -1);
      NegOk(block, consts, i, Operand(consts, exprs, s), e);
    case Add(d, a, b) =>
      OperandOk(block, consts, exprs, a);
      OperandOk(block, consts, exprs, b);
      OperandSlim(consts, exprs, a);
      OperandSlim(consts, exprs, b);
      e := AddScaled(Operand(consts, exprs, a), Operand(consts, exprs, b), 1);
      SumOk(block, consts, i, Operand(consts, exprs, a), Operand(consts, exprs, b), e);
    case Sub(d, a, b) =>
      OperandOk(block, consts, exprs, a);
      OperandOk(block, consts, exprs, b);
      OperandSlim(consts, exprs, a);
      OperandSlim(consts, exprs, b);
      e := AddScaled(Operand(consts, exprs, a), Operand(consts, exprs, b), -1);
      SumOk(block, consts, i, Operand(consts, exprs, a), Operand(consts, exprs, b), e);
    case Mul(d, a, b) =>
      OperandOk(block, consts, exprs, a);
      OperandOk(block, consts, exprs, b);
      OperandSlim(consts, exprs, a);
      OperandSlim(consts, exprs, b);
      e := Multiplied(Operand(consts, exprs, a), Operand(consts, exprs, b));
      MulOk(block, consts, i, Operand(consts, exprs, a), Operand(consts, exprs, b), e);
    case Other(d) =>
      SelfOk(block, consts, d);
      SelfTerm(d);
      e := AddTerm(ZERO, d, 1);
  }

  lemma SlimBasics()
    ensures Slim(ZERO) && (forall c :: Slim(AddExpr(c, false, map[]))) && forall d: nat :: Slim(AddTerm(ZERO, d, 1))
  {
    forall d: nat ensures Slim(AddTerm(ZERO, d, 1)) { SelfTerm(d); }
  }

  lemma SlimKeys(e: AddExpr)
    requires Slim(e)
    ensures !e.bad ==> |ZERO.cs.Keys + e.cs.Keys| <= 20
  {
    assert ZERO.cs.Keys + e.cs.Keys == e.cs.Keys && |e.cs.Keys| == |e.cs|;
  }

  lemma CopyOk(block: seq<Instr>, consts: map<nat, int>, i: Instr, e: AddExpr)
    requires i in block && i.Copy? && ExprOk(block, consts, i.s, e)
    ensures ExprOk(block, consts, i.d, e)
  {
    forall env | Consistent(block, consts, env) ensures !e.bad ==> Cong(Value(e, env), Val(env, i.d)) {
      assert Val(env, i.d) == Computed(i, env);
    }
  }

  function Operands(i: Instr): set<nat> {
    match i
    case Copy(_, s) => {s}
    case Neg(_, s) => {s}
    case Add(_, a, b) => {a, b}
    case Sub(_, a, b) => {a, b}
    case Mul(_, a, b) => {a, b}
    case _ => {}
  }

  /** The block does not define `x` at `k` or later. */
  predicate Settled(block: seq<Instr>, k: nat, x: nat) {
    forall j :: k <= j < |block| ==> block[j].d != x
  }

  /** Single-assignment form: every register is defined once, before it is read. */
  predicate InOrder(block: seq<Instr>, n0: nat) {
    && (forall k :: 0 <= k < |block| ==> block[k].d < n0 && Settled(block, k + 1, block[k].d))
    && (forall k, x :: 0 <= k < |block| && x in Operands(block[k]) ==> x < n0 && Settled(block, k, x))
  }

  /** The expression of a definition mentions itself or registers settled before. */
  predicate LeavesSettled(block: seq<Instr>, k: nat, e: AddExpr, n0: nat)
    requires k < |block|
  {
    forall x :: x in e.cs ==> x < n0 && (x == block[k].d || Settled(block, k, x))
  }

  /** What holds of the expressions of the first `k` definitions. */
  predicate BuiltUpTo(block: seq<Instr>, k: nat, exprs: map<nat, AddExpr>, n0: nat) {
    && k <= |block|
    && (forall j :: 0 <= j < k ==> block[j].d in exprs && LeavesSettled(block, j, exprs[block[j].d], n0))
    && (forall r :: r in exprs ==> !Settled(block, 0, r))
  }

  lemma OperandSettled(block: seq<Instr>, k: nat, consts: map<nat, int>, exprs: map<nat, AddExpr>, r: nat, n0: nat)
    requires InOrder(block, n0) && BuiltUpTo(block, k, exprs, n0) && k < |block| && r in Operands(block[k])
    ensures forall x :: x in Operand(consts, exprs, r).cs ==> x < n0 && Settled(block, k, x)
  {
    if r in exprs {
      assert Settled(block, k, r);
      var j :| 0 <= j < |block| && block[j].d == r;
      assert LeavesSettled(block, j, exprs[r], n0) && Settled(block, j + 1, r);
    } else {
      SelfTerm(r);
    }
  }

  lemma NewLeaves(block: seq<Instr>, k: nat, consts: map<nat, int>, exprs: map<nat, AddExpr>, e: AddExpr, n0: nat)
    requires InOrder(block, n0) && BuiltUpTo(block, k, exprs, n0) && k < |block|
    requires e.cs.Keys <= Leaves(consts, exprs, block[k])
    ensures LeavesSettled(block, k, e, n0)
  {
    hide BuiltUpTo, AddTerm, Operand, Settled;
    var i := block[k];
    forall x | x in e.cs ensures x < n0 && (x == i.d || Settled(block, k, x)) {
      if r :| r in Operands(i) && x in Operand(consts, exprs, r).cs {
        OperandSettled(block, k, consts, exprs, r, n0);
      }
    }
  }

  lemma LeavesStep(block: seq<Instr>, k: nat, consts: map<nat, int>, exprs: map<nat, AddExpr>, e: AddExpr, n0: nat)
    requires InOrder(block, n0) && BuiltUpTo(block, k, exprs, n0) && k < |block|
    requires e.cs.Keys <= Leaves(consts, exprs, block[k])
    ensures BuiltUpTo(block, k + 1, exprs[block[k].d := e], n0)
  {
    hide Leaves, LeavesSettled, Operands, Settled;
    NewLeaves(block, k, consts, exprs, e, n0);
    forall j | 0 <= j <= k ensures !Settled(block, 0, block[j].d) && (j < k ==> block[j].d != block[k].d) {
      DefinedAt(block, j, k);
    }
  }

  lemma DefinedAt(block: seq<Instr>, j: nat, k: nat)
    requires j <= k < |block|
    ensures !Settled(block, 0, block[j].d)
    ensures j < k && Settled(block, j + 1, block[j].d) ==> block[j].d != block[k].d
  { }

  /** The operands of an instruction, as often as it reads them; what other instructions read is counted elsewhere. */
  function OperandList(i: Instr): seq<nat> {
    match i
    case Copy(_, s) => [s]
    case Neg(_, s) => [s]
    case Add(_, a, b) => [a, b]
    case Sub(_, a, b) => [a, b]
    case Mul(_, a, b) => [a, b]
    case _ => []
  }

  type Counts = map<nat, int>

  function At(c: Counts, x: nat): int { if x in c then c[x] else 0 }

  /** The instructions that serve a register alone; constants of other blocks count, other registers of theirs not. */
  function SubtreeSize(consts: map<nat, int>, counts: Counts, sizes: map<nat, nat>, xs: seq<nat>): nat {
    if xs == [] then 0
    else
      var x := xs[|xs| - 1];
      SubtreeSize(consts, counts, sizes, xs[..|xs| - 1]) +
      (if At(counts, x) != 1 then 0 else if x in sizes then sizes[x] else if x in consts then 1 else 0)
  }

  /** `tree_size`, which is 0 for what must stay. */
  function TreeSize(consts: map<nat, int>, counts: Counts, sizes: map<nat, nat>, exprs: map<nat, AddExpr>, i: Instr, e: AddExpr): nat {
    if i.LoadConst? then 1
    else if i.Other? then 0
    else if i.Mul? && e.bad && !Operand(consts, exprs, i.a).bad && !Operand(consts, exprs, i.b).bad then 0
    else 1 + if At(counts, i.d) == 1 then SubtreeSize(consts, counts, sizes, OperandList(i)) else 0
  }

  /** Normal forms of all registers a block defines, and the sizes of their trees. */
  method BuildExprs(block: seq<Instr>, consts: map<nat, int>, counts: Counts, n0: nat)
    returns (exprs: map<nat, AddExpr>, sizes: map<nat, nat>)
    requires InOrder(block, n0)
    ensures AllOk(block, consts, exprs) && BuiltUpTo(block, |block|, exprs, n0)
    ensures Sized(block, |block|, sizes) && Ruled(block, |block|, consts, counts, exprs, sizes)
  {
    exprs, sizes := map[], map[];
    for k := 0 to |block|
      invariant AllOk(block, consts, exprs) && BuiltUpTo(block, k, exprs, n0) && Sized(block, k, sizes)
      invariant AllSlim(exprs) && Ruled(block, k, consts, counts, exprs, sizes)
    {
      hide InOrder, BuiltUpTo, ExprOk, Leaves, Operand, SubtreeSize, Slim, Ruled, ExprRule;
      var e := ExprOf(block, consts, exprs, block[k]);
      RuledStep(block, k, consts, counts, exprs, sizes, e, n0);
      LeavesStep(block, k, consts, exprs, e, n0);
      SizedStep(block, k, sizes, TreeSize(consts, counts, sizes, exprs, block[k], e), n0);
      sizes := sizes[block[k].d := TreeSize(consts, counts, sizes, exprs, block[k], e)];
      exprs := exprs[block[k].d := e];
    }
  }

  /** Expression and size of a definition, in terms of those of its operands. */
  predicate Rule(consts: map<nat, int>, counts: Counts, exprs: map<nat, AddExpr>, sizes: map<nat, nat>, i: Instr) {
    && i.d in exprs && i.d in sizes
    && ExprRule(consts, exprs, i, exprs[i.d]) && sizes[i.d] == TreeSize(consts, counts, sizes, exprs, i, exprs[i.d])
  }

  ghost predicate Ruled(block: seq<Instr>, k: nat, consts: map<nat, int>, counts: Counts, exprs: map<nat, AddExpr>, sizes: map<nat, nat>) {
    forall j :: 0 <= j < k && j < |block| ==> Rule(consts, counts, exprs, sizes, block[j])
  }

  lemma {:induction false} SubtreeSame(consts: map<nat, int>, counts: Counts, sizes: map<nat, nat>, xs: seq<nat>, d: nat, size: nat)
    requires d !in xs
    ensures SubtreeSize(consts, counts, sizes[d := size], xs) == SubtreeSize(consts, counts, sizes, xs)
  {
    if xs != [] { SubtreeSame(consts, counts, sizes, xs[..|xs| - 1], d, size); }
  }

  lemma OperandStays(consts: map<nat, int>, exprs: map<nat, AddExpr>, r: nat, d: nat, f: AddExpr)
    requires r != d
    ensures Operand(consts, exprs[d := f], r) == Operand(consts, exprs, r)
  { }

  /** Later definitions do not touch the operands. */
  lemma ExprRuleStays(consts: map<nat, int>, exprs: map<nat, AddExpr>, i: Instr, e: AddExpr, d: nat, f: AddExpr)
    requires d !in Operands(i)
    ensures ExprRule(consts, exprs[d := f], i, e) <==> ExprRule(consts, exprs, i, e)
  {
    hide FewTerms, OneConstant, AddTerm, Operand;
    forall r | r in Operands(i) ensures Operand(consts, exprs[d := f], r) == Operand(consts, exprs, r) {
      OperandStays(consts, exprs, r, d, f);
    }
  }

  lemma TreeSizeStays(consts: map<nat, int>, counts: Counts, exprs: map<nat, AddExpr>, sizes: map<nat, nat>, i: Instr, e: AddExpr,
                      d: nat, f: AddExpr, size: nat)
    requires d !in Operands(i)
    ensures TreeSize(consts, counts, sizes[d := size], exprs[d := f], i, e) == TreeSize(consts, counts, sizes, exprs, i, e)
  {
    hide Operand, SubtreeSize;
    forall r | r in Operands(i) ensures Operand(consts, exprs[d := f], r) == Operand(consts, exprs, r) {
      OperandStays(consts, exprs, r, d, f);
    }
    assert forall r :: r in OperandList(i) ==> r in Operands(i);
    SubtreeSame(consts, counts, sizes, OperandList(i), d, size);
  }

  lemma RuledStep(block: seq<Instr>, k: nat, consts: map<nat, int>, counts: Counts, exprs: map<nat, AddExpr>, sizes: map<nat, nat>, e: AddExpr, n0: nat)
    requires InOrder(block, n0) && k < |block| && Ruled(block, k, consts, counts, exprs, sizes)
    requires ExprRule(consts, exprs, block[k], e)
    ensures Ruled(block, k + 1, consts, counts, exprs[block[k].d := e],
                  sizes[block[k].d := TreeSize(consts, counts, sizes, exprs, block[k], e)])
  {
    hide ExprRule, TreeSize, Operands;
    var d, size := block[k].d, TreeSize(consts, counts, sizes, exprs, block[k], e);
    forall j | 0 <= j <= k ensures Rule(consts, counts, exprs[d := e], sizes[d := size], block[j]) {
      assert d !in Operands(block[j]) by { assert d in Operands(block[j]) ==> Settled(block, j, d); }
      if j < k {
        assert Settled(block, j + 1, block[j].d) && Rule(consts, counts, exprs, sizes, block[j]);
        ExprRuleStays(consts, exprs, block[j], exprs[block[j].d], d, e);
        TreeSizeStays(consts, counts, exprs, sizes, block[j], exprs[block[j].d], d, e, size);
      } else {
        ExprRuleStays(consts, exprs, block[j], e, d, e);
        TreeSizeStays(consts, counts, exprs, sizes, block[j], e, d, e, size);
      }
    }
  }

  /** Instructions of other kinds have size 0. */
  predicate Sized(block: seq<Instr>, k: nat, sizes: map<nat, nat>) {
    forall j :: 0 <= j < k && j < |block| ==> block[j].d in sizes && (block[j].Other? ==> sizes[block[j].d] == 0)
  }

  lemma SizedStep(block: seq<Instr>, k: nat, sizes: map<nat, nat>, size: nat, n0: nat)
    requires InOrder(block, n0) && k < |block| && Sized(block, k, sizes) && (block[k].Other? ==> size == 0)
    ensures Sized(block, k + 1, sizes[block[k].d := size])
  {
    hide Operands;
    forall j | 0 <= j < k ensures block[j].d != block[k].d { assert Settled(block, j + 1, block[j].d); }
  }

  // ----- generated code -----

  function Exec(i: Instr, env: Env): Env {
    env[i.d := Computed(i, env)]
  }

  function Run(code: seq<Instr>, env: Env): Env {
    if code == [] then env else Exec(code[|code| - 1], Run(code[..|code| - 1], env))
  }

  lemma RunSnoc(code: seq<Instr>, i: Instr, env: Env)
    ensures Run(code + [i], env) == Exec(i, Run(code, env))
  {
    assert (code + [i])[..|code|] == code;
  }

  /** A register with a sign. */
  datatype Term = Term(x: nat, a: int)

  function TermSum(ts: seq<Term>, env: Env): int {
    if ts == [] then 0 else TermSum(ts[..|ts| - 1], env) + Times(ts[|ts| - 1].a, Val(env, ts[|ts| - 1].x))
  }

  /** Registers that share a coefficient up to sign. */
  datatype Group = Group(a: int, xs: seq<Term>)

  function GroupSum(gs: seq<Group>, env: Env): int {
    if gs == [] then 0 else GroupSum(gs[..|gs| - 1], env) + Times(gs[|gs| - 1].a, TermSum(gs[|gs| - 1].xs, env))
  }

  /** Only registers from `n0` on are written, below `n`. */
  ghost predicate Fresh(code: seq<Instr>, n0: nat, n: nat) {
    && n0 <= n && (forall i :: i in code ==> n0 <= i.d < n && !i.Other?)
    && forall env, x: nat {:trigger Val(Run(code, env), x)} :: x < n0 ==> Val(Run(code, env), x) == Val(env, x)
  }

  ghost predicate GivesTerms(code: seq<Instr>, r: nat, ts: seq<Term>) {
    forall env {:trigger Run(code, env)} :: Val(Run(code, env), r) == Wrap(TermSum(ts, env))
  }

  ghost predicate GivesScaled(code: seq<Instr>, r: nat, a: int, ts: seq<Term>) {
    forall env {:trigger Run(code, env)} :: Val(Run(code, env), r) == Wrap(Times(a, TermSum(ts, env)))
  }

  ghost predicate GivesGroups(code: seq<Instr>, r: nat, c: int, gs: seq<Group>) {
    forall env {:trigger Run(code, env)} :: Val(Run(code, env), r) == Wrap(c + GroupSum(gs, env))
  }

  lemma FreshSnoc(code: seq<Instr>, n0: nat, n: nat, i: Instr)
    requires Fresh(code, n0, n) && i.d == n && !i.Other?
    ensures Fresh(code + [i], n0, n + 1)
  {
    forall env, x: nat | x < n0 ensures Val(Run(code + [i], env), x) == Val(env, x) {
      RunSnoc(code, i, env);
      assert Val(Run(code, env), x) == Val(env, x);
    }
  }

  /** Writing a new register leaves the others. */
  lemma Unchanged(code: seq<Instr>, i: Instr, env: Env, x: nat)
    requires x != i.d
    ensures Val(Run(code + [i], env), x) == Val(Run(code, env), x)
  {
    RunSnoc(code, i, env);
  }

  lemma Written(code: seq<Instr>, i: Instr, env: Env)
    ensures Val(Run(code + [i], env), i.d) == Computed(i, Run(code, env))
  {
    RunSnoc(code, i, env);
    match i
    case LoadConst(_, c) => WrapId(Wrap(c));
    case Copy(_, s) => WrapId(Val(Run(code, env), s));
    case Neg(_, s) => WrapId(Wrap(-Val(Run(code, env), s)));
    case Add(_, a, b) => WrapId(Wrap(Val(Run(code, env), a) + Val(Run(code, env), b)));
    case Sub(_, a, b) => WrapId(Wrap(Val(Run(code, env), a) - Val(Run(code, env), b)));
    case Mul(_, a, b) => WrapId(Wrap(Times(Val(Run(code, env), a), Val(Run(code, env), b))));
    case Other(d) => WrapId(Val(Run(code, env), d));
  }

  lemma FirstTerm(code: seq<Instr>, n0: nat, n: nat, t: Term)
    requires Fresh(code, n0, n) && t.x < n0 && (t.a == 1 || t.a == -1)
    ensures t.a == 1 ==> GivesTerms(code, t.x, [t])
    ensures t.a == -1 ==> GivesTerms(code + [Neg(n, t.x)], n, [t])
  {
    forall env
      ensures t.a == 1 ==> Val(Run(code, env), t.x) == Wrap(TermSum([t], env))
      ensures t.a == -1 ==> Val(Run(code + [Neg(n, t.x)], env), n) == Wrap(TermSum([t], env))
    {
      assert Val(Run(code, env), t.x) == Val(env, t.x);
      assert TermSum([t], env) == Times(t.a, Val(env, t.x)) by { assert [t][..0] == []; }
      if t.a == 1 { WrapId(Val(env, t.x)); } else { Written(code, Neg(n, t.x), env); }
    }
  }

  lemma NextTerm(code: seq<Instr>, n0: nat, n: nat, r: nat, ts: seq<Term>, t: Term)
    requires Fresh(code, n0, n) && GivesTerms(code, r, ts) && t.x < n0 && (t.a == 1 || t.a == -1)
    ensures GivesTerms(code + [if t.a == 1 then Add(n, r, t.x) else Sub(n, r, t.x)], n, ts + [t])
  {
    var i := if t.a == 1 then Add(n, r, t.x) else Sub(n, r, t.x);
    hide Wrap, Times, TermSum, Run, Val;
    forall env ensures Val(Run(code + [i], env), n) == Wrap(TermSum(ts + [t], env)) {
      Written(code, i, env);
      assert Val(Run(code, env), t.x) == Val(env, t.x);
      TermSumSnoc(ts, t, env);
      WrapAdd(TermSum(ts, env), Val(env, t.x));
      TimesSign(t.a, Val(env, t.x));
    }
  }

  lemma ScaleTerms(code: seq<Instr>, n: nat, r: nat, a: int, ts: seq<Term>)
    requires GivesTerms(code, r, ts) && r < n
    ensures GivesScaled(code + [LoadConst(n, a)] + [Mul(n + 1, r, n)], n + 1, a, ts)
  {
    var code1 := code + [LoadConst(n, a)];
    forall env ensures Val(Run(code1 + [Mul(n + 1, r, n)], env), n + 1) == Wrap(Times(a, TermSum(ts, env))) {
      Written(code1, Mul(n + 1, r, n), env);
      Written(code, LoadConst(n, a), env);
      Unchanged(code, LoadConst(n, a), env, r);
      CongWrap(a);
      CongWrap(TermSum(ts, env));
      CongTimes(Wrap(TermSum(ts, env)), TermSum(ts, env), Wrap(a), a);
      assert Times(TermSum(ts, env), a) == Times(a, TermSum(ts, env));
    }
  }

  lemma FirstGroup(code: seq<Instr>, r: nat, g: Group)
    requires GivesScaled(code, r, g.a, g.xs)
    ensures GivesGroups(code, r, 0, [g])
  {
    forall env ensures Val(Run(code, env), r) == Wrap(0 + GroupSum([g], env)) { assert [g][..0] == []; }
  }

  lemma GroupSumSnoc(gs: seq<Group>, g: Group, env: Env)
    ensures GroupSum(gs + [g], env) == GroupSum(gs, env) + Times(g.a, TermSum(g.xs, env))
  {
    assert (gs + [g])[..|gs|] == gs;
  }

  lemma TermSumSnoc(ts: seq<Term>, t: Term, env: Env)
    ensures TermSum(ts + [t], env) == TermSum(ts, env) + Times(t.a, Val(env, t.x))
  {
    assert (ts + [t])[..|ts|] == ts;
  }

  lemma NextGroup(code: seq<Instr>, n: nat, sum: nat, r: nat, c: int, gs: seq<Group>, g: Group)
    requires GivesGroups(code, sum, c, gs) && GivesScaled(code, r, g.a, g.xs) && sum < n && r < n
    ensures GivesGroups(code + [Add(n, sum, r)], n, c, gs + [g])
  {
    hide Wrap, Times, TermSum, GroupSum, Run, Val;
    forall env ensures Val(Run(code + [Add(n, sum, r)], env), n) == Wrap(c + GroupSum(gs + [g], env)) {
      Written(code, Add(n, sum, r), env);
      GroupSumSnoc(gs, g, env);
      WrapAdd(c + GroupSum(gs, env), Times(g.a, TermSum(g.xs, env)));
      WrapAdd(c + GroupSum(gs, env), Wrap(Times(g.a, TermSum(g.xs, env))));
    }
  }

  lemma GroupsStay(code: seq<Instr>, i: Instr, sum: nat, c: int, gs: seq<Group>)
    requires GivesGroups(code, sum, c, gs) && i.d != sum
    ensures GivesGroups(code + [i], sum, c, gs)
  {
    forall env ensures Val(Run(code + [i], env), sum) == Wrap(c + GroupSum(gs, env)) { Unchanged(code, i, env, sum); }
  }

  // ----- grouping -----

  lemma {:induction false} TermSumUpdate(ts: seq<Term>, k: nat, t: Term, env: Env)
    requires k < |ts|
    ensures TermSum(ts[k := t], env) ==
      TermSum(ts, env) - Times(ts[k].a, Val(env, ts[k].x)) + Times(t.a, Val(env, t.x))
  {
    var n := |ts| - 1;
    if k < n {
      TermSumUpdate(ts[..n], k, t, env);
      assert ts[k := t][..n] == ts[..n][k := t];
    } else {
      assert ts[k := t][..n] == ts[..n];
    }
  }

  lemma {:induction false} GroupSumUpdate(gs: seq<Group>, k: nat, g: Group, env: Env)
    requires k < |gs|
    ensures GroupSum(gs[k := g], env) ==
      GroupSum(gs, env) - Times(gs[k].a, TermSum(gs[k].xs, env)) + Times(g.a, TermSum(g.xs, env))
  {
    var n := |gs| - 1;
    if k < n {
      GroupSumUpdate(gs[..n], k, g, env);
      assert gs[k := g][..n] == gs[..n][k := g];
    } else {
      assert gs[k := g][..n] == gs[..n];
    }
  }

  lemma {:induction false} GroupSumInsert(gs: seq<Group>, k: nat, g: Group, env: Env)
    requires k <= |gs|
    ensures GroupSum(gs[..k] + [g] + gs[k..], env) == GroupSum(gs, env) + Times(g.a, TermSum(g.xs, env))
  {
    var all := gs[..k] + [g] + gs[k..];
    if k == |gs| {
      assert all == gs + [g];
      GroupSumSnoc(gs, g, env);
    } else {
      var n := |gs| - 1;
      GroupSumInsert(gs[..n], k, g, env);
      assert all == gs[..n][..k] + [g] + gs[..n][k..] + [gs[n]];
      GroupSumSnoc(gs[..n][..k] + [g] + gs[..n][k..], gs[n], env);
    }
  }

  predicate WellTerm(t: Term, leaves: set<nat>) { t.x in leaves && (t.a == 1 || t.a == -1) }

  predicate WellTerms(xs: seq<Term>, leaves: set<nat>) {
    xs != [] && forall k :: 0 <= k < |xs| ==> WellTerm(xs[k], leaves)
  }

  predicate WellGroups(gs: seq<Group>, leaves: set<nat>) {
    forall k :: 0 <= k < |gs| ==> WellTerms(gs[k].xs, leaves)
  }

  lemma JoinTerm(a: int, xs: seq<Term>, t: Term, env: Env)
    ensures Times(a, TermSum(xs + [t], env)) == Times(a, TermSum(xs, env)) + Times(a, Times(t.a, Val(env, t.x)))
  {
    TermSumSnoc(xs, t, env);
    Distrib(TermSum(xs, env), Times(t.a, Val(env, t.x)), a);
  }

  lemma OneTerm(t: Term, env: Env)
    ensures TermSum([t], env) == Times(t.a, Val(env, t.x))
  {
    assert [t][..0] == [];
  }

  /** Add a term to the group of its coefficient; groups are sorted by coefficient. */
  method InsertTerm(gs: seq<Group>, a: int, t: Term, ghost leaves: set<nat>) returns (out: seq<Group>)
    requires WellGroups(gs, leaves) && WellTerm(t, leaves)
    ensures WellGroups(out, leaves) && TermCount(out) == TermCount(gs) + 1
    ensures forall env :: GroupSum(out, env) == GroupSum(gs, env) + Times(a, Times(t.a, Val(env, t.x)))
  {
    hide Times, TermSum, GroupSum, Val, WellTerm;
    var j := 0;
    while j < |gs| && gs[j].a < a
      invariant j <= |gs|
    {
      j := j + 1;
    }
    if j < |gs| && gs[j].a == a {
      out := gs[j := Group(a, gs[j].xs + [t])];
      CountUpdate(gs, j, Group(a, gs[j].xs + [t]));
      forall env ensures GroupSum(out, env) == GroupSum(gs, env) + Times(a, Times(t.a, Val(env, t.x))) {
        GroupSumUpdate(gs, j, Group(a, gs[j].xs + [t]), env);
        JoinTerm(a, gs[j].xs, t, env);
      }
    } else {
      out := gs[..j] + [Group(a, [t])] + gs[j..];
      CountInsert(gs, j, Group(a, [t]));
      forall env ensures GroupSum(out, env) == GroupSum(gs, env) + Times(a, Times(t.a, Val(env, t.x))) {
        GroupSumInsert(gs, j, Group(a, [t]), env);
        OneTerm(t, env);
      }
    }
  }

  ghost predicate Groups(gs: seq<Group>, cs: map<nat, int>) {
    forall env :: Cong(GroupSum(gs, env), Sum(cs, env))
  }

  function Sign(a: int): int { if a > 0 then 1 else -1 }

  function Magnitude(a: int): int { if a > 0 then a else Wrap(-a) }

  /** Grouping a coefficient by its absolute value, which for the smallest integer is itself. */
  lemma AbsTimes(a: int, val: int)
    ensures Cong(Times(Magnitude(a), Times(Sign(a), val)), Times(a, val))
  {
    if a <= 0 {
      CongWrap(-a);
      CongMul(Wrap(-a), -a, -val);
      assert Times(-1, val) == -val;
      assert (-a) * (-val) == a * val;
    } else {
      assert Times(1, val) == val;
    }
  }

  lemma GroupsStep(gs: seq<Group>, gs': seq<Group>, cs: map<nat, int>, x: nat, a: int)
    requires Groups(gs, cs) && x !in cs
    requires forall env :: GroupSum(gs', env) == GroupSum(gs, env) + Times(Magnitude(a), Times(Sign(a), Val(env, x)))
    ensures Groups(gs', cs[x := a])
  {
    hide Cong, Wrap, Times, Sum, GroupSum, Val;
    forall env ensures Cong(GroupSum(gs', env), Sum(cs[x := a], env)) {
      AbsTimes(a, Val(env, x));
      SumPut(cs, env, x, a);
      assert cs - {x} == cs;
      CongAdd(GroupSum(gs, env), Sum(cs, env),
              Times(Magnitude(a), Times(Sign(a), Val(env, x))), Times(a, Val(env, x)));
    }
  }

  method Grouped(cs: map<nat, int>) returns (gs: seq<Group>)
    ensures WellGroups(gs, cs.Keys) && Groups(gs, cs) && TermCount(gs) == |cs|
  {
    hide Times, Sum, GroupSum, Val, Cong;
    gs := [];
    ghost var done: map<nat, int> := map[];
    NoGroups();
    var keys := Listed(cs.Keys);
    for k := 0 to |keys|
      invariant WellGroups(gs, cs.Keys) && Groups(gs, done) && TermCount(gs) == k
      invariant forall x :: x in done <==> x in keys[..k]
      invariant forall x :: x in done ==> x in cs && done[x] == cs[x]
    {
      var x := keys[k];
      assert x in keys && x !in keys[..k];
      var a := cs[x];
      ghost var gs0 := gs;
      gs := InsertTerm(gs, Magnitude(a), Term(x, Sign(a)), cs.Keys);
      GroupsStep(gs0, gs, done, x, a);
      done := done[x := a];
    }
    assert keys[..|keys|] == keys;
    assert done == cs;
    assert |cs.Keys| == |cs|;
  }

  /** The number of terms in all groups. */
  function TermCount(gs: seq<Group>): nat {
    if gs == [] then 0 else TermCount(gs[..|gs| - 1]) + |gs[|gs| - 1].xs|
  }

  lemma {:induction false} CountUpdate(gs: seq<Group>, k: nat, g: Group)
    requires k < |gs|
    ensures TermCount(gs[k := g]) == TermCount(gs) - |gs[k].xs| + |g.xs|
  {
    var n := |gs| - 1;
    if k < n {
      CountUpdate(gs[..n], k, g);
      assert gs[k := g][..n] == gs[..n][k := g];
    } else {
      assert gs[k := g][..n] == gs[..n];
    }
  }

  lemma {:induction false} CountInsert(gs: seq<Group>, k: nat, g: Group)
    requires k <= |gs|
    ensures TermCount(gs[..k] + [g] + gs[k..]) == TermCount(gs) + |g.xs|
  {
    var all := gs[..k] + [g] + gs[k..];
    if k == |gs| {
      assert all[..|gs|] == gs && all[|gs|] == g;
    } else {
      var n := |gs| - 1;
      CountInsert(gs[..n], k, g);
      assert all[..|gs|] == gs[..n][..k] + [g] + gs[..n][k..] && all[|gs|] == gs[n];
    }
  }

  lemma NoGroups()
    ensures Groups([], map[])
  { }

  /** A positive term first, if there is one. */
  method PositiveFirst(xs: seq<Term>, ghost leaves: set<nat>) returns (out: seq<Term>)
    requires WellTerms(xs, leaves)
    ensures |out| == |xs| && WellTerms(out, leaves) && forall env :: TermSum(out, env) == TermSum(xs, env)
  {
    out := xs;
    for k := 0 to |xs|
      invariant out == xs
    {
      if xs[k].a == 1 {
        out := xs[k := xs[0]][0 := xs[k]];
        forall env ensures TermSum(out, env) == TermSum(xs, env) {
          TermSumUpdate(xs, k, xs[0], env);
          TermSumUpdate(xs[k := xs[0]], 0, xs[k], env);
        }
        break;
      }
    }
  }

  // ----- code generation -----

  /** The register is a leaf or a new one. */
  predicate Readable(x: nat, leaves: set<nat>, n0: nat) { x in leaves || n0 <= x }

  /** The code reads nothing but leaves and new registers. */
  ghost predicate ReadsOnly(code: seq<Instr>, leaves: set<nat>, n0: nat) {
    forall i, x :: i in code && x in Operands(i) ==> Readable(x, leaves, n0)
  }

  lemma ReadsSnoc(code: seq<Instr>, i: Instr, leaves: set<nat>, n0: nat)
    requires ReadsOnly(code, leaves, n0) && forall x :: x in Operands(i) ==> Readable(x, leaves, n0)
    ensures ReadsOnly(code + [i], leaves, n0)
  { }

  predicate AllBelow(leaves: set<nat>, n0: nat) { forall x :: x in leaves ==> x < n0 }

  /** The sum so far, if any, is in register `sum`. */
  ghost predicate SumSoFar(code: seq<Instr>, n: nat, sum: int, c: int, gs: seq<Group>) {
    if sum < 0 then c == 0 && gs == [] && code == [] else sum < n && GivesGroups(code, sum, c, gs)
  }

  lemma SumStays(code: seq<Instr>, n: nat, i: Instr, sum: nat, c: int, gs: seq<Group>)
    requires SumSoFar(code, n, sum, c, gs) && i.d == n
    ensures SumSoFar(code + [i], n + 1, sum, c, gs)
  {
    GroupsStay(code, i, sum, c, gs);
  }

  /** Code for the terms of one group; the partial sum in `sum` stays. */
  method EmitTerms(code0: seq<Instr>, n0: nat, n1: nat, xs: seq<Term>, ghost leaves: set<nat>, ghost sum: int, ghost c: int, ghost gs: seq<Group>)
    returns (code: seq<Instr>, n: nat, r: nat)
    requires Fresh(code0, n0, n1) && WellTerms(xs, leaves) && SumSoFar(code0, n1, sum, c, gs)
    requires AllBelow(leaves, n0) && ReadsOnly(code0, leaves, n0)
    ensures Fresh(code, n0, n) && GivesTerms(code, r, xs) && r < n
    ensures ReadsOnly(code, leaves, n0) && Readable(r, leaves, n0) && |code| <= |code0| + |xs|
    ensures sum >= 0 ==> SumSoFar(code, n, sum, c, gs)
    ensures code == code0 || (code != [] && code[|code| - 1].d == r)
  {
    hide Fresh, GivesTerms, GivesGroups, ReadsOnly;
    code, n := code0, n1;
    assert WellTerm(xs[0], leaves);
    FirstTerm(code, n0, n, xs[0]);
    FreshBound(code, n0, n);
    if xs[0].a == 1 {
      r := xs[0].x;
    } else {
      FreshSnoc(code, n0, n, Neg(n, xs[0].x));
      ReadsSnoc(code, Neg(n, xs[0].x), leaves, n0);
      if sum >= 0 { SumStays(code, n, Neg(n, xs[0].x), sum, c, gs); }
      r := n;
      code, n := code + [Neg(n, xs[0].x)], n + 1;
    }
    assert xs[..1] == [xs[0]];
    for k := 1 to |xs|
      invariant Fresh(code, n0, n) && GivesTerms(code, r, xs[..k]) && r < n
      invariant ReadsOnly(code, leaves, n0) && Readable(r, leaves, n0) && |code| <= |code0| + k
      invariant sum >= 0 ==> SumSoFar(code, n, sum, c, gs)
      invariant code == code0 || (code != [] && code[|code| - 1].d == r)
    {
      var t := xs[k];
      assert WellTerm(t, leaves);
      FreshBound(code, n0, n);
      var i := if t.a == 1 then Add(n, r, t.x) else Sub(n, r, t.x);
      NextTerm(code, n0, n, r, xs[..k], t);
      FreshSnoc(code, n0, n, i);
      ReadsSnoc(code, i, leaves, n0);
      if sum >= 0 { SumStays(code, n, i, sum, c, gs); }
      assert xs[..k + 1] == xs[..k] + [t];
      r := n;
      code, n := code + [i], n + 1;
    }
    assert xs[..|xs|] == xs;
  }

  lemma FreshBound(code: seq<Instr>, n0: nat, n: nat)
    requires Fresh(code, n0, n)
    ensures n0 <= n
  { }

  lemma TermsScaledByOne(code: seq<Instr>, r: nat, ts: seq<Term>)
    requires GivesTerms(code, r, ts)
    ensures GivesScaled(code, r, 1, ts)
  {
    forall env ensures Times(1, TermSum(ts, env)) == TermSum(ts, env) { }
  }

  /** Code for one group, added to the sum so far. */
  method EmitGroup(code0: seq<Instr>, n0: nat, n1: nat, g: Group, ghost leaves: set<nat>, sum0: int, ghost c: int, ghost gs: seq<Group>)
    returns (code: seq<Instr>, n: nat, sum: int)
    requires Fresh(code0, n0, n1) && WellTerms(g.xs, leaves) && SumSoFar(code0, n1, sum0, c, gs)
    requires AllBelow(leaves, n0) && ReadsOnly(code0, leaves, n0) && (sum0 >= 0 ==> Readable(sum0, leaves, n0))
    ensures Fresh(code, n0, n) && sum >= 0 && SumSoFar(code, n, sum, c, gs + [g])
    ensures ReadsOnly(code, leaves, n0) && Readable(sum, leaves, n0) && |code| <= |code0| + |g.xs| + 3
    ensures code == [] || code[|code| - 1].d == sum
  {
    hide Fresh, GivesTerms, GivesScaled, GivesGroups, ReadsOnly, AllBelow;
    var r;
    code, n, r := EmitTerms(code0, n0, n1, g.xs, leaves, sum0, c, gs);
    FreshBound(code, n0, n);
    if g.a != 1 {
      ScaleTerms(code, n, r, g.a, g.xs);
      FreshSnoc(code, n0, n, LoadConst(n, g.a));
      FreshSnoc(code + [LoadConst(n, g.a)], n0, n + 1, Mul(n + 1, r, n));
      ReadsSnoc(code, LoadConst(n, g.a), leaves, n0);
      ReadsSnoc(code + [LoadConst(n, g.a)], Mul(n + 1, r, n), leaves, n0);
      if sum0 >= 0 {
        SumStays(code, n, LoadConst(n, g.a), sum0, c, gs);
        SumStays(code + [LoadConst(n, g.a)], n + 1, Mul(n + 1, r, n), sum0, c, gs);
      }
      code := code + [LoadConst(n, g.a)] + [Mul(n + 1, r, n)];
      r := n + 1;
      n := n + 2;
    } else {
      TermsScaledByOne(code, r, g.xs);
    }
    if sum0 < 0 {
      FirstGroup(code, r, g);
      assert gs + [g] == [g];
      sum := r;
    } else {
      NextGroup(code, n, sum0, r, c, gs, g);
      FreshSnoc(code, n0, n, Add(n, sum0, r));
      ReadsSnoc(code, Add(n, sum0, r), leaves, n0);
      sum := n;
      code, n := code + [Add(n, sum0, r)], n + 1;
    }
  }

  function WithDest(i: Instr, d: nat): Instr {
    match i
    case LoadConst(_, c) => LoadConst(d, c)
    case Copy(_, s) => Copy(d, s)
    case Neg(_, s) => Neg(d, s)
    case Add(_, a, b) => Add(d, a, b)
    case Sub(_, a, b) => Sub(d, a, b)
    case Mul(_, a, b) => Mul(d, a, b)
    case Other(_) => Other(d)
  }

  /** `set_last_def`: the last instruction defines `result` instead; it does nothing when the last instruction
      defines another register than `sum`. */
  function SetLastDef(code: seq<Instr>, result: nat, sum: nat): seq<Instr> {
    var n := |code| - 1;
    if code == [] then [Copy(result, sum)]
    else if code[n].d == sum && !code[n].Other? then code[..n] + [WithDest(code[n], result)]
    else code
  }

  lemma SameComputed(i: Instr, d: nat, env: Env)
    requires !i.Other?
    ensures Computed(WithDest(i, d), env) == Computed(i, env) && WithDest(i, d).d == d
  { }

  lemma CopyComputed(d: nat, s: nat, env: Env)
    ensures Computed(Copy(d, s), Run([], env)) == Val(Run([], env), s) && Run([], env) == env
  { }

  lemma LastDefGives(code: seq<Instr>, n0: nat, n: nat, result: nat, sum: nat, env: Env)
    requires Fresh(code, n0, n) && result < n0
    requires code == [] || code[|code| - 1].d == sum
    ensures Val(Run(SetLastDef(code, result, sum), env), result) == Val(Run(code, env), sum)
    ensures forall x: nat :: x < n0 && x != result ==> Val(Run(SetLastDef(code, result, sum), env), x) == Val(env, x)
  {
    hide Computed, Run, Val, WithDest;
    var k := |code| - 1;
    if code == [] {
      CopyComputed(result, sum, env);
      Written([], Copy(result, sum), env);
      assert [] + [Copy(result, sum)] == [Copy(result, sum)];
      forall x: nat | x < n0 && x != result ensures Val(Run([Copy(result, sum)], env), x) == Val(env, x) {
        Unchanged([], Copy(result, sum), env, x);
      }
    } else {
      assert code == code[..k] + [code[k]] && code[k] in code;
      SameComputed(code[k], result, Run(code[..k], env));
      Written(code[..k], code[k], env);
      Written(code[..k], WithDest(code[k], result), env);
      forall x: nat | x < n0 && x != result
        ensures Val(Run(SetLastDef(code, result, sum), env), x) == Val(env, x)
      {
        Unchanged(code[..k], WithDest(code[k], result), env, x);
        Unchanged(code[..k], code[k], env, x);
        assert Val(Run(code, env), x) == Val(env, x);
      }
    }
  }

  /** `code` leaves the value of `e` in `result` and keeps all other registers below `n0`. */
  ghost predicate Generates(code: seq<Instr>, e: AddExpr, result: nat, n0: nat) {
    forall env {:trigger Run(code, env)} ::
      && Val(Run(code, env), result) == Wrap(Value(e, env))
      && forall x: nat :: x < n0 && x != result ==> Val(Run(code, env), x) == Val(env, x)
  }

  lemma GeneratesAll(code: seq<Instr>, e: AddExpr, gs: seq<Group>, result: nat, sum: nat, n0: nat, n: nat)
    requires Fresh(code, n0, n) && result < n0 && GivesGroups(code, sum, e.c, gs) && Groups(gs, e.cs)
    requires code == [] || code[|code| - 1].d == sum
    ensures Generates(SetLastDef(code, result, sum), e, result, n0)
  {
    var all := SetLastDef(code, result, sum);
    forall env
      ensures Val(Run(all, env), result) == Wrap(Value(e, env))
      ensures forall x: nat :: x < n0 && x != result ==> Val(Run(all, env), x) == Val(env, x)
    {
      LastDefGives(code, n0, n, result, sum, env);
      CongAdd(e.c, e.c, GroupSum(gs, env), Sum(e.cs, env));
    }
  }

  /** How long the code for an expression can be. */
  function CodeBound(e: AddExpr): nat { 4 * |e.cs| + 1 }

  /** Code for a normal form, on new registers from `n0` on. */
  method GenIR(e: AddExpr, result: nat, n0: nat) returns (code: seq<Instr>, n: nat)
    requires result < n0 && forall x :: x in e.cs ==> x < n0
    ensures Generates(code, e, result, n0) && n0 <= n
    ensures forall i :: i in code ==> i.d == result || n0 <= i.d < n
    ensures ReadsOnly(code, e.cs.Keys, n0) && |code| <= CodeBound(e)
  {
    hide Fresh, GivesTerms, GivesScaled, GivesGroups, Groups, WellTerms, ReadsOnly;
    var groups := Grouped(e.cs);
    ReadsNothing(e.cs.Keys, n0);
    n := n0;
    var sum: int := -1;
    code := [];
    NothingYet(n0);
    if e.c != 0 {
      ConstantFirst(n0, e.c);
      ReadsConstant(n0, e.c, e.cs.Keys);
      code, n, sum := [LoadConst(n0, e.c)], n0 + 1, n0;
    }
    ghost var gs: seq<Group> := [];
    for k := 0 to |groups|
      invariant Fresh(code, n0, n) && SumSoFar(code, n, sum, e.c, gs)
      invariant code == [] || (sum >= 0 && code[|code| - 1].d == sum)
      invariant ReadsOnly(code, e.cs.Keys, n0) && (sum >= 0 ==> Readable(sum, e.cs.Keys, n0))
      invariant |gs| == k && SameGroups(gs, groups[..k]) && |code| <= 1 + 4 * TermCount(groups[..k])
    {
      var xs := PositiveFirst(groups[k].xs, e.cs.Keys);
      var g := Group(groups[k].a, xs);
      code, n, sum := EmitGroup(code, n0, n, g, e.cs.Keys, sum, e.c, gs);
      SameStep(gs, groups, k, g);
      assert groups[..k + 1][..k] == groups[..k] && groups[k].xs != [];
      gs := gs + [g];
    }
    assert groups[..|groups|] == groups;
    SameAll(gs, groups, e.cs);
    if sum < 0 {
      ConstantFirst(n0, 0);
      ReadsConstant(n0, 0, e.cs.Keys);
      code, n, sum := [LoadConst(n0, 0)], n0 + 1, n0;
    }
    GeneratesAll(code, e, gs, result, sum, n0, n);
    LastDefBound(code, n0, n, result, sum);
    LastDefReads(code, result, sum, e.cs.Keys, n0);
    code := SetLastDef(code, result, sum);
  }

  lemma LastDefBound(code: seq<Instr>, n0: nat, n: nat, result: nat, sum: nat)
    requires Fresh(code, n0, n)
    ensures n0 <= n && forall i :: i in SetLastDef(code, result, sum) ==> i.d == result || n0 <= i.d < n
  { }

  lemma LastDefReads(code: seq<Instr>, result: nat, sum: nat, leaves: set<nat>, n0: nat)
    requires ReadsOnly(code, leaves, n0) && Readable(sum, leaves, n0)
    ensures ReadsOnly(SetLastDef(code, result, sum), leaves, n0)
  {
    var n := |code| - 1;
    if code != [] { assert code[n] in code && Operands(WithDest(code[n], result)) == Operands(code[n]); }
  }

  lemma ReadsNothing(leaves: set<nat>, n0: nat)
    ensures ReadsOnly([], leaves, n0)
  { }

  lemma ReadsConstant(n0: nat, c: int, leaves: set<nat>)
    ensures ReadsOnly([LoadConst(n0, c)], leaves, n0)
  { }

  lemma NothingYet(n0: nat)
    ensures Fresh([], n0, n0)
  { }

  lemma ConstantFirst(n0: nat, c: int)
    ensures Fresh([LoadConst(n0, c)], n0, n0 + 1) && GivesGroups([LoadConst(n0, c)], n0, c, [])
  {
    NothingYet(n0);
    FreshSnoc([], n0, n0, LoadConst(n0, c));
    assert [] + [LoadConst(n0, c)] == [LoadConst(n0, c)];
    forall env ensures Val(Run([LoadConst(n0, c)], env), n0) == Wrap(c) { Written([], LoadConst(n0, c), env); }
  }

  ghost predicate SameGroups(gs: seq<Group>, hs: seq<Group>) {
    forall env :: GroupSum(gs, env) == GroupSum(hs, env)
  }

  lemma SameStep(gs: seq<Group>, groups: seq<Group>, k: nat, g: Group)
    requires k < |groups| && SameGroups(gs, groups[..k]) && g.a == groups[k].a
    requires forall env :: TermSum(g.xs, env) == TermSum(groups[k].xs, env)
    ensures SameGroups(gs + [g], groups[..k + 1])
  {
    assert groups[..k + 1] == groups[..k] + [groups[k]];
    forall env ensures GroupSum(gs + [g], env) == GroupSum(groups[..k + 1], env) {
      GroupSumSnoc(gs, g, env);
      GroupSumSnoc(groups[..k], groups[k], env);
    }
  }

  lemma SameAll(gs: seq<Group>, groups: seq<Group>, cs: map<nat, int>)
    requires SameGroups(gs, groups) && Groups(groups, cs)
    ensures Groups(gs, cs)
  { }

  // ----- replacing definitions of a block -----

  /** What the block does not define again stays as it is. */
  lemma {:induction false} StaysFrom(block: seq<Instr>, k: nat, env: Env, x: nat)
    requires k <= |block| && Settled(block, k, x)
    ensures Val(Run(block, env), x) == Val(Run(block[..k], env), x)
    decreases |block| - k
  {
    if k == |block| {
      assert block[..k] == block;
    } else {
      assert block[..k + 1] == block[..k] + [block[k]];
      Unchanged(block[..k], block[k], env, x);
      StaysFrom(block, k + 1, env, x);
    }
  }

  lemma ComputedSame(i: Instr, env1: Env, env2: Env)
    requires forall x :: x in Operands(i) ==> Val(env1, x) == Val(env2, x)
    requires i.Other? ==> Val(env1, i.d) == Val(env2, i.d)
    ensures Computed(i, env1) == Computed(i, env2)
  {
    hide Val, Wrap, Times;
  }

  lemma {:induction false} SumSame(cs: map<nat, int>, env1: Env, env2: Env)
    requires forall x :: x in cs ==> Val(env1, x) == Val(env2, x)
    ensures Sum(cs, env1) == Sum(cs, env2)
    decreases |cs|
  {
    hide Val, Times;
    if cs != map[] {
      var x :| x in cs;
      SmallerMap(cs, x);
      SumSplit(cs, env1, x);
      SumSplit(cs, env2, x);
      SumSame(cs - {x}, env1, env2);
    }
  }

  lemma HoldsAtEnd(block: seq<Instr>, k: nat, env: Env, n0: nat)
    requires InOrder(block, n0) && k < |block|
    ensures Val(Run(block, env), block[k].d) == Computed(block[k], Run(block, env))
  {
    hide Val, Computed, Operands, Run, Settled;
    var i, before, end := block[k], Run(block[..k], env), Run(block, env);
    assert block[..k + 1] == block[..k] + [i];
    Written(block[..k], i, env);
    StaysFrom(block, k + 1, env, i.d);
    if i.Other? {
      OtherIs(i, end);
    } else {
      forall x | x in Operands(i) ensures Val(before, x) == Val(end, x) { StaysFrom(block, k, env, x); }
      ComputedSame(i, before, end);
    }
  }

  /** At its end a block in single-assignment form satisfies all its definitions. */
  lemma EndConsistent(block: seq<Instr>, consts: map<nat, int>, env: Env, n0: nat)
    requires InOrder(block, n0) && ConstsHold(block, consts, env)
    ensures Consistent(block, consts, Run(block, env))
  {
    hide Val, Computed, Run, InOrder, Settled, Wrap;
    forall i | i in block ensures Val(Run(block, env), i.d) == Computed(i, Run(block, env)) {
      var k :| 0 <= k < |block| && block[k] == i;
      HoldsAtEnd(block, k, env, n0);
    }
    forall r | r in consts ensures Val(Run(block, env), r) == Wrap(consts[r]) {
      StaysFrom(block, 0, env, r);
      RunNothing(env);
      assert block[..0] == [];
    }
  }

  lemma OtherIs(i: Instr, env: Env)
    requires i.Other?
    ensures Computed(i, env) == Val(env, i.d)
  { }

  lemma RunNothing(env: Env)
    ensures Run([], env) == env
  { }

  /** The constants are defined elsewhere and hold their values. */
  ghost predicate ConstsHold(block: seq<Instr>, consts: map<nat, int>, env: Env) {
    forall r :: r in consts ==> Settled(block, 0, r) && Val(env, r) == Wrap(consts[r])
  }

  function Flat(codes: seq<seq<Instr>>): seq<Instr> {
    if codes == [] then [] else Flat(codes[..|codes| - 1]) + codes[|codes| - 1]
  }

  lemma {:induction false} RunAppend(c1: seq<Instr>, c2: seq<Instr>, env: Env)
    ensures Run(c1 + c2, env) == Run(c2, Run(c1, env))
  {
    if c2 == [] {
      assert c1 + c2 == c1;
    } else {
      var m := |c2| - 1;
      assert (c1 + c2)[..|c1 + c2| - 1] == c1 + c2[..m];
      RunAppend(c1, c2[..m], env);
    }
  }

  /** A definition stays, gives way to the code for its normal form, or is dropped. */
  ghost predicate Handled(code: seq<Instr>, i: Instr, e: AddExpr, n0: nat, dropped: set<nat>) {
    || code == [i]
    || (!i.Other? && !e.bad && i.d !in e.cs && Generates(code, e, i.d, n0))
    || (code == [] && !i.Other? && i.d in dropped)
  }

  ghost predicate AllHandled(block: seq<Instr>, exprs: map<nat, AddExpr>, codes: seq<seq<Instr>>, n0: nat, dropped: set<nat>) {
    |codes| == |block| &&
    forall k :: 0 <= k < |block| ==> block[k].d in exprs && Handled(codes[k], block[k], exprs[block[k].d], n0, dropped)
  }

  ghost predicate NoReads(code: seq<Instr>, dropped: set<nat>) {
    forall i, x :: i in code && x in Operands(i) ==> x !in dropped
  }

  /** The two environments hold the same values in the registers below `n0`. */
  ghost predicate SameBelow(env1: Env, env2: Env, n0: nat) {
    forall x: nat :: x < n0 ==> Val(env1, x) == Val(env2, x)
  }

  ghost predicate SameExcept(env1: Env, env2: Env, n0: nat, dropped: set<nat>) {
    forall x: nat :: x < n0 && x !in dropped ==> Val(env1, x) == Val(env2, x)
  }

  ghost predicate AgreeOff(env1: Env, env2: Env, dropped: set<nat>) {
    forall x: nat :: x !in dropped ==> Val(env1, x) == Val(env2, x)
  }

  lemma ExecVal(i: Instr, env: Env, x: nat)
    ensures Val(Exec(i, env), x) == if x == i.d then Computed(i, env) else Val(env, x)
  {
    hide Run, Exec, Val, Computed;
    assert [] + [i] == [i];
    RunNothing(env);
    RunSnoc([], i, env);
    if x == i.d { Written([], i, env); } else { Unchanged([], i, env, x); }
  }

  /** Code that reads none of them does not depend on the dropped registers. */
  lemma {:induction false} FrameRun(code: seq<Instr>, env1: Env, env2: Env, dropped: set<nat>)
    requires AgreeOff(env1, env2, dropped) && NoReads(code, dropped)
    ensures AgreeOff(Run(code, env1), Run(code, env2), dropped)
  {
    hide Val, Exec, Computed, Operands;
    if code != [] {
      var rest, i := code[..|code| - 1], code[|code| - 1];
      FrameRun(rest, env1, env2, dropped);
      var e1, e2 := Run(rest, env1), Run(rest, env2);
      assert i in code;
      if !i.Other? || i.d !in dropped { ComputedSame(i, e1, e2); }
      forall x: nat | x !in dropped ensures Val(Exec(i, e1), x) == Val(Exec(i, e2), x) {
        ExecVal(i, e1, x);
        ExecVal(i, e2, x);
      }
    }
  }

  /** `now`, with the dropped registers as they were. */
  function Patched(was: Env, now: Env, dropped: set<nat>): Env {
    map x: nat | x in was.Keys + now.Keys :: if x in dropped then Val(was, x) else Val(now, x)
  }

  lemma PatchedSame(was: Env, now: Env, n0: nat, dropped: set<nat>)
    requires SameExcept(was, now, n0, dropped)
    ensures SameBelow(was, Patched(was, now, dropped), n0) && AgreeOff(Patched(was, now, dropped), now, dropped)
  {
    var e := Patched(was, now, dropped);
    forall x: nat ensures Val(e, x) == if x in dropped then Val(was, x) else Val(now, x) {
      WrapId(Val(was, x));
      WrapId(Val(now, x));
    }
  }

  lemma KeptSame(i: Instr, was: Env, now: Env, n0: nat, dropped: set<nat>)
    requires SameExcept(was, now, n0, dropped) && i.d < n0 && NoReads([i], dropped) && forall x :: x in Operands(i) ==> x < n0
    ensures SameExcept(Exec(i, was), Exec(i, now), n0, dropped)
  {
    hide Computed, Operands, Val, Exec;
    assert i in [i];
    if !i.Other? || i.d !in dropped { ComputedSame(i, was, now); }
    forall x: nat | x < n0 && x !in dropped ensures Val(Exec(i, was), x) == Val(Exec(i, now), x) {
      ExecVal(i, was, x);
      ExecVal(i, now, x);
    }
  }

  /** The code for the normal form of the `k`-th definition leaves what that definition leaves. */
  lemma ReplacedSame(block: seq<Instr>, consts: map<nat, int>, k: nat, e: AddExpr, code: seq<Instr>, n0: nat, env: Env, now: Env)
    requires k < |block| && InOrder(block, n0) && ConstsHold(block, consts, env)
    requires ExprOk(block, consts, block[k].d, e) && LeavesSettled(block, k, e, n0)
    requires !e.bad && block[k].d !in e.cs && Generates(code, e, block[k].d, n0)
    requires SameBelow(Run(block[..k], env), now, n0)
    ensures SameBelow(Run(block[..k + 1], env), Run(code, now), n0)
  {
    hide Val, Computed, Operands, Run, Consistent, Sum, Wrap;
    var d, end := block[k].d, Run(block, env);
    EndConsistent(block, consts, env, n0);
    assert Cong(Value(e, end), Val(end, d));
    forall x | x in e.cs ensures Val(now, x) == Val(end, x) { StaysFrom(block, k, env, x); }
    SumSame(e.cs, now, end);
    WrapId(Val(end, d));
    StaysFrom(block, k + 1, env, d);
    assert block[..k + 1] == block[..k] + [block[k]];
    forall x: nat | x < n0 && x != d ensures Val(Run(block[..k + 1], env), x) == Val(Run(code, now), x) {
      Unchanged(block[..k], block[k], env, x);
    }
  }

  lemma ReplacedExcept(block: seq<Instr>, consts: map<nat, int>, k: nat, e: AddExpr, code: seq<Instr>, n0: nat, dropped: set<nat>, env: Env, now: Env)
    requires k < |block| && InOrder(block, n0) && ConstsHold(block, consts, env)
    requires ExprOk(block, consts, block[k].d, e) && LeavesSettled(block, k, e, n0)
    requires !e.bad && block[k].d !in e.cs && Generates(code, e, block[k].d, n0) && NoReads(code, dropped)
    requires SameExcept(Run(block[..k], env), now, n0, dropped)
    ensures SameExcept(Run(block[..k + 1], env), Run(code, now), n0, dropped)
  {
    var was := Run(block[..k], env);
    hide Val, Run, ExprOk, LeavesSettled, Generates, NoReads, ConstsHold, InOrder, Patched;
    var patched := Patched(was, now, dropped);
    PatchedSame(was, now, n0, dropped);
    ReplacedSame(block, consts, k, e, code, n0, env, patched);
    FrameRun(code, patched, now, dropped);
  }

  lemma DroppedSame(block: seq<Instr>, k: nat, n0: nat, dropped: set<nat>, env: Env, now: Env)
    requires k < |block| && block[k].d in dropped && SameExcept(Run(block[..k], env), now, n0, dropped)
    ensures SameExcept(Run(block[..k + 1], env), now, n0, dropped)
  {
    hide Val, Run;
    assert block[..k + 1] == block[..k] + [block[k]];
    forall x: nat | x < n0 && x !in dropped ensures Val(Run(block[..k + 1], env), x) == Val(now, x) {
      Unchanged(block[..k], block[k], env, x);
    }
  }

  lemma NextSame(block: seq<Instr>, consts: map<nat, int>, k: nat, e: AddExpr, code: seq<Instr>, n0: nat, dropped: set<nat>, env: Env, now: Env)
    requires k < |block| && InOrder(block, n0) && ConstsHold(block, consts, env)
    requires ExprOk(block, consts, block[k].d, e) && LeavesSettled(block, k, e, n0)
    requires Handled(code, block[k], e, n0, dropped) && NoReads(code, dropped)
    requires SameExcept(Run(block[..k], env), now, n0, dropped)
    ensures SameExcept(Run(block[..k + 1], env), Run(code, now), n0, dropped)
  {
    hide Run, Exec, Generates, ExprOk, LeavesSettled, ConstsHold, SameExcept, Settled, Operands, NoReads;
    RunNothing(now);
    if code == [block[k]] {
      assert block[..k + 1] == block[..k] + [block[k]];
      RunSnoc(block[..k], block[k], env);
      RunSnoc([], block[k], now);
      assert [] + [block[k]] == [block[k]];
      KeptSame(block[k], Run(block[..k], env), now, n0, dropped);
    } else if code == [] && block[k].d in dropped {
      DroppedSame(block, k, n0, dropped, env, now);
    } else {
      ReplacedExcept(block, consts, k, e, code, n0, dropped, env, now);
    }
  }

  /** After every definition the rewritten block holds what the block itself holds, except in dropped registers, which
      it does not read. */
  lemma {:induction false} BlockKeeps(block: seq<Instr>, consts: map<nat, int>, exprs: map<nat, AddExpr>, codes: seq<seq<Instr>>, n0: nat, dropped: set<nat>, k: nat, env: Env)
    requires InOrder(block, n0) && ConstsHold(block, consts, env) && k <= |block|
    requires AllOk(block, consts, exprs) && BuiltUpTo(block, |block|, exprs, n0)
    requires AllHandled(block, exprs, codes, n0, dropped) && AllUnread(codes, dropped)
    ensures SameExcept(Run(block[..k], env), Run(Flat(codes[..k]), env), n0, dropped)
  {
    hide InOrder, Run, Handled, ExprOk, LeavesSettled, ConstsHold, SameExcept, NoReads;
    if k == 0 {
      SameSelf(Run([], env), n0, dropped);
    } else {
      var j := k - 1;
      BlockKeeps(block, consts, exprs, codes, n0, dropped, j, env);
      assert codes[..k][..j] == codes[..j];
      RunAppend(Flat(codes[..j]), codes[j], env);
      NextSame(block, consts, j, exprs[block[j].d], codes[j], n0, dropped, env, Run(Flat(codes[..j]), env));
    }
  }

  ghost predicate AllUnread(codes: seq<seq<Instr>>, dropped: set<nat>) {
    forall j :: 0 <= j < |codes| ==> NoReads(codes[j], dropped)
  }

  lemma SameSelf(env: Env, n0: nat, dropped: set<nat>)
    ensures SameExcept(env, env, n0, dropped)
  { }

  lemma GeneratesBelow(code: seq<Instr>, e: AddExpr, result: nat, n0: nat, n: nat)
    requires Generates(code, e, result, n) && n0 <= n
    ensures Generates(code, e, result, n0)
  { }

  // ----- use counts -----

  function UsesOf(code: seq<Instr>, x: nat): nat {
    if code == [] then 0 else UsesOf(code[..|code| - 1], x) + multiset(OperandList(code[|code| - 1]))[x]
  }

  function UsesAll(codes: seq<seq<Instr>>, x: nat): nat {
    if codes == [] then 0 else UsesAll(codes[..|codes| - 1], x) + UsesOf(codes[|codes| - 1], x)
  }

  lemma OperandsListed(i: Instr, x: nat)
    ensures x in Operands(i) <==> multiset(OperandList(i))[x] > 0
  { }

  lemma {:induction false} NoUses(code: seq<Instr>, x: nat)
    requires UsesOf(code, x) == 0
    ensures forall i :: i in code ==> x !in Operands(i)
  {
    hide Operands, OperandList;
    if code != [] {
      NoUses(code[..|code| - 1], x);
      OperandsListed(code[|code| - 1], x);
    }
  }

  lemma {:induction false} NoUsesAll(codes: seq<seq<Instr>>, x: nat)
    requires UsesAll(codes, x) == 0
    ensures forall j :: 0 <= j < |codes| ==> UsesOf(codes[j], x) == 0
  {
    hide UsesOf;
    if codes != [] { NoUsesAll(codes[..|codes| - 1], x); }
  }

  lemma {:induction false} UsesUpdate(codes: seq<seq<Instr>>, k: nat, code: seq<Instr>, x: nat)
    requires k < |codes|
    ensures UsesAll(codes[k := code], x) == UsesAll(codes, x) - UsesOf(codes[k], x) + UsesOf(code, x)
  {
    hide UsesOf;
    var m := |codes| - 1;
    if k < m {
      UsesUpdate(codes[..m], k, code, x);
      assert codes[k := code][..m] == codes[..m][k := code];
    } else {
      assert codes[k := code][..m] == codes[..m];
    }
  }

  lemma {:induction false} UsesAppend(c1: seq<Instr>, c2: seq<Instr>, x: nat)
    ensures UsesOf(c1 + c2, x) == UsesOf(c1, x) + UsesOf(c2, x)
  {
    hide OperandList;
    if c2 == [] {
      assert c1 + c2 == c1;
    } else {
      var m := |c2| - 1;
      assert (c1 + c2)[..|c1 + c2| - 1] == c1 + c2[..m];
      UsesAppend(c1, c2[..m], x);
    }
  }

  lemma {:induction false} UsesFlat(codes: seq<seq<Instr>>, x: nat)
    ensures UsesOf(Flat(codes), x) == UsesAll(codes, x)
  {
    hide UsesOf;
    if codes == [] {
      UsesNothing(x);
    } else {
      var m := |codes| - 1;
      UsesFlat(codes[..m], x);
      UsesAppend(Flat(codes[..m]), codes[m], x);
    }
  }

  lemma UsesNothing(x: nat)
    ensures UsesOf([], x) == 0
  { }

  lemma UsesOne(i: Instr, x: nat)
    ensures UsesOf([i], x) == multiset(OperandList(i))[x]
  {
    assert [i][..0] == [];
  }

  /** Every definition for itself. */
  function Singly(block: seq<Instr>): seq<seq<Instr>> {
    seq(|block|, k requires 0 <= k < |block| => [block[k]])
  }

  lemma {:induction false} UsesSingly(block: seq<Instr>, x: nat)
    ensures UsesAll(Singly(block), x) == UsesOf(block, x)
  {
    hide OperandList;
    if block != [] {
      var m := |block| - 1;
      UsesSingly(block[..m], x);
      assert Singly(block)[..m] == Singly(block[..m]);
      UsesOne(block[m], x);
    }
  }

  /** `inc_use_count` and `dec_use_count` for one instruction. */
  function Bump(c: Counts, xs: seq<nat>, step: int): Counts {
    if xs == [] then c
    else
      var x, c' := xs[|xs| - 1], Bump(c, xs[..|xs| - 1], step);
      c'[x := At(c', x) + step]
  }

  lemma {:induction false} BumpIs(c: Counts, xs: seq<nat>, step: int, x: nat)
    requires step == 1 || step == -1
    ensures At(Bump(c, xs, step), x) == At(c, x) + (if step == 1 then multiset(xs)[x] as int else -(multiset(xs)[x] as int))
  {
    if xs != [] {
      BumpIs(c, xs[..|xs| - 1], step, x);
      assert xs == xs[..|xs| - 1] + [xs[|xs| - 1]];
    }
  }

  function BumpAll(c: Counts, code: seq<Instr>): Counts {
    if code == [] then c else Bump(BumpAll(c, code[..|code| - 1]), OperandList(code[|code| - 1]), 1)
  }

  lemma {:induction false} BumpAllIs(c: Counts, code: seq<Instr>, x: nat)
    ensures At(BumpAll(c, code), x) == At(c, x) + UsesOf(code, x)
  {
    hide At, Bump, OperandList;
    if code != [] {
      BumpAllIs(c, code[..|code| - 1], x);
      BumpIs(BumpAll(c, code[..|code| - 1]), OperandList(code[|code| - 1]), 1, x);
    }
  }

  /** The counts are those of the code, plus what is read outside. */
  ghost predicate Exact(counts: Counts, outside: nat -> nat, codes: seq<seq<Instr>>) {
    forall x: nat :: At(counts, x) == outside(x) + UsesAll(codes, x)
  }

  /** What the walk over the block from its end keeps. */
  ghost predicate Progress(block: seq<Instr>, exprs: map<nat, AddExpr>, codes: seq<seq<Instr>>, n0: nat, k: nat, dropped: set<nat>, outside: nat -> nat) {
    && AllHandled(block, exprs, codes, n0, dropped) && AllUnread(codes, dropped)
    && (forall j :: 0 <= j < k && j < |block| ==> codes[j] == [block[j]])
    && (forall x :: x in dropped ==> x < n0 && outside(x) == 0 && !Settled(block, k, x))
  }

  lemma ProgressDrop(block: seq<Instr>, exprs: map<nat, AddExpr>, codes: seq<seq<Instr>>, n0: nat, k: nat, dropped: set<nat>, outside: nat -> nat, counts: Counts)
    requires InOrder(block, n0) && k < |block| && Progress(block, exprs, codes, n0, k + 1, dropped, outside)
    requires Exact(counts, outside, codes) && At(counts, block[k].d) == 0 && !block[k].Other?
    ensures Progress(block, exprs, codes[k := []], n0, k, dropped + {block[k].d}, outside)
  {
    hide Handled, NoReads, Operands, At, InOrder;
    var d := block[k].d;
    DestBelow(block, k, n0);
    assert outside(d) == 0 && UsesAll(codes, d) == 0;
    UnreadDrop(codes, k, d, dropped);
    HandledDrop(block, exprs, codes, n0, k, dropped);
    assert !Settled(block, k, d);
    NotSettledYet(block, k, dropped);
  }

  lemma UnreadDrop(codes: seq<seq<Instr>>, k: nat, d: nat, dropped: set<nat>)
    requires AllUnread(codes, dropped) && UsesAll(codes, d) == 0 && k < |codes|
    ensures AllUnread(codes[k := []], dropped + {d})
  {
    hide Operands, UsesAll, UsesOf;
    NoUsesAll(codes, d);
    var codes' := codes[k := []];
    forall j | 0 <= j < |codes'| ensures NoReads(codes'[j], dropped + {d}) {
      NoUses(codes[j], d);
      assert NoReads(codes[j], dropped);
    }
  }

  lemma HandledDrop(block: seq<Instr>, exprs: map<nat, AddExpr>, codes: seq<seq<Instr>>, n0: nat, k: nat, dropped: set<nat>)
    requires AllHandled(block, exprs, codes, n0, dropped) && k < |block| && !block[k].Other?
    ensures AllHandled(block, exprs, codes[k := []], n0, dropped + {block[k].d})
  {
    hide Generates;
  }

  lemma DestBelow(block: seq<Instr>, k: nat, n0: nat)
    requires InOrder(block, n0) && k < |block|
    ensures block[k].d < n0
  { }

  lemma NotSettledYet(block: seq<Instr>, k: nat, dropped: set<nat>)
    requires forall x :: x in dropped ==> !Settled(block, k + 1, x)
    ensures forall x :: x in dropped ==> !Settled(block, k, x)
  { }

  lemma ProgressReplace(block: seq<Instr>, exprs: map<nat, AddExpr>, codes: seq<seq<Instr>>, n0: nat, k: nat, dropped: set<nat>, outside: nat -> nat, ir: seq<Instr>, n: nat)
    requires k < |block| && Progress(block, exprs, codes, n0, k + 1, dropped, outside) && n0 <= n && !block[k].Other?
    requires
      var e := exprs[block[k].d];
      && !e.bad && block[k].d !in e.cs && Generates(ir, e, block[k].d, n0) && ReadsOnly(ir, e.cs.Keys, n)
      && LeavesSettled(block, k, e, n0)
    ensures Progress(block, exprs, codes[k := ir], n0, k, dropped, outside)
  {
    hide Generates, Operands;
    NotSettledYet(block, k, dropped);
    forall i, x | i in ir && x in Operands(i) ensures x !in dropped { assert Readable(x, exprs[block[k].d].cs.Keys, n); }
  }

  lemma ProgressKeep(block: seq<Instr>, exprs: map<nat, AddExpr>, codes: seq<seq<Instr>>, n0: nat, k: nat, dropped: set<nat>, outside: nat -> nat)
    requires k < |block| && Progress(block, exprs, codes, n0, k + 1, dropped, outside)
    ensures Progress(block, exprs, codes, n0, k, dropped, outside)
  {
    hide AllHandled, AllUnread;
    NotSettledYet(block, k, dropped);
  }

  lemma ProgressStart(block: seq<Instr>, exprs: map<nat, AddExpr>, n0: nat, outside: nat -> nat)
    requires BuiltUpTo(block, |block|, exprs, n0)
    ensures Progress(block, exprs, Singly(block), n0, |block|, {}, outside)
  {
    hide LeavesSettled, Generates, Settled;
  }

  lemma ExactStep(counts: Counts, outside: nat -> nat, codes: seq<seq<Instr>>, k: nat, i: Instr, ir: seq<Instr>)
    requires Exact(counts, outside, codes) && k < |codes| && codes[k] == [i]
    ensures Exact(Bump(BumpAll(counts, ir), OperandList(i), -1), outside, codes[k := ir])
  {
    hide At, Bump, BumpAll, OperandList, UsesOf, UsesAll;
    var counts' := Bump(BumpAll(counts, ir), OperandList(i), -1);
    forall x: nat ensures At(counts', x) == outside(x) + UsesAll(codes[k := ir], x) {
      BumpAllIs(counts, ir, x);
      BumpIs(BumpAll(counts, ir), OperandList(i), -1, x);
      UsesUpdate(codes, k, ir, x);
      UsesOne(i, x);
    }
  }

  /** No code writes a register from `n` on. */
  ghost predicate Below(codes: seq<seq<Instr>>, n: nat) {
    forall j, i :: 0 <= j < |codes| && i in codes[j] ==> i.d < n
  }

  lemma BelowStep(codes: seq<seq<Instr>>, k: nat, ir: seq<Instr>, n: nat, n': nat)
    requires Below(codes, n) && k < |codes| && n <= n' && forall i :: i in ir ==> i.d < n'
    ensures Below(codes, n') && Below(codes[k := ir], n')
  { }

  lemma LeavesAt(block: seq<Instr>, exprs: map<nat, AddExpr>, k: nat, n0: nat)
    requires BuiltUpTo(block, |block|, exprs, n0) && k < |block|
    ensures block[k].d in exprs && LeavesSettled(block, k, exprs[block[k].d], n0)
  { }

  lemma SimplifiedSame(block: seq<Instr>, consts: map<nat, int>, exprs: map<nat, AddExpr>, codes: seq<seq<Instr>>, n0: nat, dropped: set<nat>, outside: nat -> nat)
    requires InOrder(block, n0) && AllOk(block, consts, exprs) && BuiltUpTo(block, |block|, exprs, n0)
    requires Progress(block, exprs, codes, n0, 0, dropped, outside)
    ensures forall env :: ConstsHold(block, consts, env) ==> SameOutside(Run(block, env), Run(Flat(codes), env), n0, outside)
  {
    hide InOrder, Run, BuiltUpTo, Handled, AllOk, AllUnread, ConstsHold;
    forall env | ConstsHold(block, consts, env)
      ensures SameOutside(Run(block, env), Run(Flat(codes), env), n0, outside)
    {
      BlockKeeps(block, consts, exprs, codes, n0, dropped, |block|, env);
      assert codes[..|block|] == codes && block[..|block|] == block;
    }
  }

  /** The two environments hold the same values in all registers that are read outside the block. */
  ghost predicate SameOutside(env1: Env, env2: Env, n0: nat, outside: nat -> nat) {
    forall x: nat :: x < n0 && outside(x) > 0 ==> Val(env1, x) == Val(env2, x)
  }

  /** What the pass does with a definition: it goes when it may and nobody reads it, and gives way to the code for its
      normal form when it is good and its tree is larger than that code can be. */
  ghost predicate DefDone(code: seq<Instr>, i: Instr, e: AddExpr, size: nat, counts: Counts, n0: nat) {
    && (size != 0 && At(counts, i.d) == 0 ==> code == [])
    && (code != [] && !e.bad && i.d !in e.cs && size > CodeBound(e) ==> Generates(code, e, i.d, n0) && |code| < size)
  }

  ghost predicate AllDone(block: seq<Instr>, exprs: map<nat, AddExpr>, sizes: map<nat, nat>, codes: seq<seq<Instr>>,
                          counts: Counts, n0: nat, k: nat) {
    |codes| == |block| &&
    forall j :: k <= j < |block| ==>
      block[j].d in exprs && block[j].d in sizes &&
      DefDone(codes[j], block[j], exprs[block[j].d], sizes[block[j].d], counts, n0)
  }

  /** Dealing with the `k`-th definition lets no later one become unread. */
  lemma DoneStep(block: seq<Instr>, exprs: map<nat, AddExpr>, sizes: map<nat, nat>, codes: seq<seq<Instr>>, counts: Counts,
                 n0: nat, k: nat, code: seq<Instr>, counts': Counts, outside: nat -> nat)
    requires Exact(counts, outside, codes)
    requires InOrder(block, n0) && k < |block| && AllDone(block, exprs, sizes, codes, counts, n0, k + 1)
    requires block[k].d in exprs && block[k].d in sizes
    requires counts' == counts || counts' == Bump(BumpAll(counts, code), OperandList(block[k]), -1)
    requires DefDone(code, block[k], exprs[block[k].d], sizes[block[k].d], counts', n0)
    ensures AllDone(block, exprs, sizes, codes[k := code], counts', n0, k)
  {
    hide Generates, At, Bump, BumpAll, CodeBound, UsesAll, InOrder;
    forall j | k < j < |block| ensures DefDone(codes[j], block[j], exprs[block[j].d], sizes[block[j].d], counts', n0) {
      assert DefDone(codes[j], block[j], exprs[block[j].d], sizes[block[j].d], counts, n0);
      assert At(counts, block[j].d) >= 0;
      StillRead(block, k, j, code, counts, n0);
    }
  }

  lemma StillRead(block: seq<Instr>, k: nat, j: nat, code: seq<Instr>, counts: Counts, n0: nat)
    requires InOrder(block, n0) && k < j < |block|
    ensures At(Bump(BumpAll(counts, code), OperandList(block[k]), -1), block[j].d) >= At(counts, block[j].d)
  {
    hide At, Bump, BumpAll, UsesOf;
    var x := block[j].d;
    assert x in Operands(block[k]) ==> Settled(block, k, x);
    OperandsListed(block[k], x);
    BumpAllIs(counts, code, x);
    BumpIs(BumpAll(counts, code), OperandList(block[k]), -1, x);
  }

  /** The definition that is dealt with is read as often as before. */
  lemma OwnCount(block: seq<Instr>, k: nat, ir: seq<Instr>, e: AddExpr, counts: Counts, n0: nat, n: nat)
    requires InOrder(block, n0) && k < |block| && ReadsOnly(ir, e.cs.Keys, n) && n0 <= n && block[k].d !in e.cs
    ensures At(Bump(BumpAll(counts, ir), OperandList(block[k]), -1), block[k].d) == At(counts, block[k].d)
  {
    hide At, Bump, BumpAll, UsesOf;
    var x := block[k].d;
    assert x in Operands(block[k]) ==> Settled(block, k, x);
    OperandsListed(block[k], x);
    forall i | i in ir ensures x !in Operands(i) { assert x in Operands(i) ==> Readable(x, e.cs.Keys, n); }
    NotUsed(ir, x);
    BumpAllIs(counts, ir, x);
    BumpIs(BumpAll(counts, ir), OperandList(block[k]), -1, x);
  }

  lemma {:induction false} NotUsed(code: seq<Instr>, x: nat)
    requires forall i :: i in code ==> x !in Operands(i)
    ensures UsesOf(code, x) == 0
  {
    hide Operands, OperandList;
    if code != [] {
      NotUsed(code[..|code| - 1], x);
      OperandsListed(code[|code| - 1], x);
    }
  }

  /** What holds of the walk from the end when it has come to position `k`. */
  ghost predicate WalkOk(block: seq<Instr>, exprs: map<nat, AddExpr>, sizes: map<nat, nat>, parts: seq<seq<Instr>>, counts: Counts,
                         n0: nat, n: nat, k: nat, dropped: set<nat>, outside: nat -> nat) {
    && |parts| == |block| && n0 <= n && Below(parts, n)
    && Progress(block, exprs, parts, n0, k, dropped, outside) && Exact(counts, outside, parts)
    && AllDone(block, exprs, sizes, parts, counts, n0, k)
  }

  lemma WalkDrop(block: seq<Instr>, exprs: map<nat, AddExpr>, sizes: map<nat, nat>, parts: seq<seq<Instr>>, counts: Counts,
                 n0: nat, n: nat, k: nat, dropped: set<nat>, outside: nat -> nat)
    requires WalkOk(block, exprs, sizes, parts, counts, n0, n, k + 1, dropped, outside) && k < |block| && InOrder(block, n0)
    requires block[k].d in exprs && block[k].d in sizes && At(counts, block[k].d) == 0 && !block[k].Other?
    ensures WalkOk(block, exprs, sizes, parts[k := []], Bump(BumpAll(counts, []), OperandList(block[k]), -1), n0, n, k,
                   dropped + {block[k].d}, outside)
  {
    hide InOrder, Progress, Exact, AllDone, Below, At, Bump, BumpAll, OperandList;
    StillThere(block, exprs, parts, n0, k, dropped, outside);
    ProgressDrop(block, exprs, parts, n0, k, dropped, outside, counts);
    ExactStep(counts, outside, parts, k, block[k], []);
    BelowStep(parts, k, [], n, n);
    var counts' := Bump(BumpAll(counts, []), OperandList(block[k]), -1);
    DroppedDone(block[k], exprs[block[k].d], sizes[block[k].d], counts', n0);
    DoneStep(block, exprs, sizes, parts, counts, n0, k, [], counts', outside);
  }

  lemma WalkReplace(block: seq<Instr>, exprs: map<nat, AddExpr>, sizes: map<nat, nat>, parts: seq<seq<Instr>>, counts: Counts,
                    n0: nat, n: nat, k: nat, dropped: set<nat>, outside: nat -> nat, ir: seq<Instr>, n': nat)
    requires WalkOk(block, exprs, sizes, parts, counts, n0, n, k + 1, dropped, outside) && k < |block| && InOrder(block, n0)
    requires block[k].d in exprs && block[k].d in sizes && !block[k].Other?
    requires
      var e, d := exprs[block[k].d], block[k].d;
      && !e.bad && d !in e.cs && Generates(ir, e, d, n0) && ReadsOnly(ir, e.cs.Keys, n) && LeavesSettled(block, k, e, n0)
      && |ir| < sizes[d] && At(counts, d) != 0
    requires n <= n' && forall i :: i in ir ==> i.d < n'
    ensures WalkOk(block, exprs, sizes, parts[k := ir], Bump(BumpAll(counts, ir), OperandList(block[k]), -1), n0, n', k, dropped, outside)
  {
    hide InOrder, Progress, Exact, AllDone, Below, At, Bump, BumpAll, OperandList, Generates, ReadsOnly, LeavesSettled;
    var d := block[k].d;
    StillThere(block, exprs, parts, n0, k, dropped, outside);
    ProgressReplace(block, exprs, parts, n0, k, dropped, outside, ir, n);
    ExactStep(counts, outside, parts, k, block[k], ir);
    BelowStep(parts, k, ir, n, n');
    var counts' := Bump(BumpAll(counts, ir), OperandList(block[k]), -1);
    OwnCount(block, k, ir, exprs[d], counts, n0, n);
    ReplacedDone(ir, block[k], exprs[d], sizes[d], counts, counts', n0);
    DoneStep(block, exprs, sizes, parts, counts, n0, k, ir, counts', outside);
  }

  lemma WalkKeep(block: seq<Instr>, exprs: map<nat, AddExpr>, sizes: map<nat, nat>, parts: seq<seq<Instr>>, counts: Counts,
                 n0: nat, n: nat, k: nat, dropped: set<nat>, outside: nat -> nat, n': nat)
    requires WalkOk(block, exprs, sizes, parts, counts, n0, n, k + 1, dropped, outside) && k < |block| && InOrder(block, n0)
    requires block[k].d in exprs && block[k].d in sizes && n <= n'
    requires DefDone([block[k]], block[k], exprs[block[k].d], sizes[block[k].d], counts, n0)
    ensures WalkOk(block, exprs, sizes, parts, counts, n0, n', k, dropped, outside)
  {
    hide InOrder, Progress, Exact, AllDone, Below, DefDone;
    StillThere(block, exprs, parts, n0, k, dropped, outside);
    ProgressKeep(block, exprs, parts, n0, k, dropped, outside);
    BelowStep(parts, k, [], n, n');
    DoneStep(block, exprs, sizes, parts, counts, n0, k, [block[k]], counts, outside);
    assert parts[k := [block[k]]] == parts;
  }

  /** One definition: dropped, replaced or kept. */
  method SimplifyAt(block: seq<Instr>, k: nat, e: AddExpr, size: nat, parts0: seq<seq<Instr>>, counts0: Counts, ghost n0: nat, n1: nat,
                    ghost exprs: map<nat, AddExpr>, ghost sizes: map<nat, nat>, ghost dropped0: set<nat>, ghost outside: nat -> nat)
    returns (parts: seq<seq<Instr>>, counts: Counts, n: nat, ghost dropped: set<nat>)
    requires WalkOk(block, exprs, sizes, parts0, counts0, n0, n1, k + 1, dropped0, outside) && k < |block| && InOrder(block, n0)
    requires block[k].d in exprs && block[k].d in sizes && e == exprs[block[k].d] && size == sizes[block[k].d]
    requires LeavesSettled(block, k, e, n0) && (block[k].Other? ==> size == 0)
    ensures WalkOk(block, exprs, sizes, parts, counts, n0, n, k, dropped, outside)
  {
    var i := block[k];
    hide *;
    parts, counts, n, dropped := parts0, counts0, n1, dropped0;
    DestBelow(block, k, n0);
    WalkSize(block, exprs, sizes, parts, counts, n0, n, k, dropped, outside);
    if size != 0 && At(counts, i.d) == 0 {
      WalkDrop(block, exprs, sizes, parts, counts, n0, n, k, dropped, outside);
      counts := Bump(BumpAll(counts, []), OperandList(i), -1);
      parts := parts[k := []];
      dropped := dropped + {i.d};
    } else if !e.bad && i.d !in e.cs {
      LeavesBelow(block, k, e, n0);
      var ir, n' := GenIR(e, i.d, n);
      GeneratesBelow(ir, e, i.d, n0, n);
      if |ir| < size {
        WalkReplace(block, exprs, sizes, parts, counts, n0, n, k, dropped, outside, ir, n');
        counts := Bump(BumpAll(counts, ir), OperandList(i), -1);
        parts := parts[k := ir];
      } else {
        KeptDone(ir, i, e, size, counts, n0);
        WalkKeep(block, exprs, sizes, parts, counts, n0, n, k, dropped, outside, n');
      }
      n := n';
    } else {
      BadDone(i, e, size, counts, n0);
      WalkKeep(block, exprs, sizes, parts, counts, n0, n, k, dropped, outside, n);
    }
  }

  lemma WalkSize(block: seq<Instr>, exprs: map<nat, AddExpr>, sizes: map<nat, nat>, parts: seq<seq<Instr>>, counts: Counts,
                 n0: nat, n: nat, k: nat, dropped: set<nat>, outside: nat -> nat)
    requires WalkOk(block, exprs, sizes, parts, counts, n0, n, k + 1, dropped, outside)
    ensures |parts| == |block| && n0 <= n
  { }

  /** The pass over one block, from its end: what nobody reads is dropped, and a definition whose code for the normal
      form is shorter than the tree it replaces gives way to it. `counts` says how often registers are read, in the
      whole function. New registers are numbered from `n0` on. */
  method SimplifyBlock(block: seq<Instr>, consts: map<nat, int>, counts0: Counts, n0: nat, ghost outside: nat -> nat)
    returns (out: seq<Instr>, counts: Counts, n: nat,
             ghost exprs: map<nat, AddExpr>, ghost sizes: map<nat, nat>, ghost codes: seq<seq<Instr>>)
    requires InOrder(block, n0) && forall x: nat :: At(counts0, x) == outside(x) + UsesOf(block, x)
    ensures n0 <= n && forall i :: i in out ==> i.d < n
    ensures forall i :: i in block && i.Other? ==> i in out
    ensures BuiltUpTo(block, |block|, exprs, n0) && AllOk(block, consts, exprs)
    ensures Ruled(block, |block|, consts, counts0, exprs, sizes)
    ensures out == Flat(codes) && AllDone(block, exprs, sizes, codes, counts, n0, 0)
    ensures forall x: nat :: At(counts, x) == outside(x) + UsesOf(out, x)
    ensures forall env :: ConstsHold(block, consts, env) ==> SameOutside(Run(block, env), Run(out, env), n0, outside)
  {
    hide *;
    var parts := Singly(block);
    CountsStart(block, counts0, outside);
    var es, ss := BuildExprs(block, consts, counts0, n0);
    exprs, sizes := es, ss;
    WalkStart(block, exprs, sizes, counts0, n0, outside);
    n, counts := n0, counts0;
    ghost var dropped: set<nat> := {};
    for k := |block| downto 0
      invariant WalkOk(block, exprs, sizes, parts, counts, n0, n, k, dropped, outside)
    {
      LeavesAt(block, exprs, k, n0);
      SizeAt(block, k, sizes);
      parts, counts, n, dropped :=
        SimplifyAt(block, k, es[block[k].d], ss[block[k].d], parts, counts, n0, n, exprs, sizes, dropped, outside);
    }
    codes := parts;
    out := Flat(parts);
    WalkParts(block, exprs, sizes, parts, counts, n0, n, dropped, outside);
    FlatBound(parts, n);
    CountsEnd(parts, counts, outside);
    OthersStay(block, exprs, parts, n0, dropped, outside);
    SimplifiedSame(block, consts, exprs, parts, n0, dropped, outside);
  }

  lemma WalkStart(block: seq<Instr>, exprs: map<nat, AddExpr>, sizes: map<nat, nat>, counts: Counts, n0: nat, outside: nat -> nat)
    requires InOrder(block, n0) && BuiltUpTo(block, |block|, exprs, n0) && Exact(counts, outside, Singly(block))
    ensures WalkOk(block, exprs, sizes, Singly(block), counts, n0, n0, |block|, {}, outside)
  {
    hide InOrder, BuiltUpTo, Exact, Progress, Singly;
    SinglyOk(block, n0);
    ProgressStart(block, exprs, n0, outside);
  }

  lemma WalkParts(block: seq<Instr>, exprs: map<nat, AddExpr>, sizes: map<nat, nat>, parts: seq<seq<Instr>>, counts: Counts,
                  n0: nat, n: nat, dropped: set<nat>, outside: nat -> nat)
    requires WalkOk(block, exprs, sizes, parts, counts, n0, n, 0, dropped, outside)
    ensures n0 <= n && Below(parts, n) && Exact(counts, outside, parts) && AllDone(block, exprs, sizes, parts, counts, n0, 0)
    ensures Progress(block, exprs, parts, n0, 0, dropped, outside)
  {
    hide Below, Exact, AllDone, Progress;
  }

  lemma DroppedDone(i: Instr, e: AddExpr, size: nat, counts: Counts, n0: nat)
    ensures DefDone([], i, e, size, counts, n0)
  { }

  lemma ReplacedDone(ir: seq<Instr>, i: Instr, e: AddExpr, size: nat, counts: Counts, counts': Counts, n0: nat)
    requires Generates(ir, e, i.d, n0) && |ir| < size && At(counts', i.d) == At(counts, i.d) && At(counts, i.d) != 0
    ensures DefDone(ir, i, e, size, counts', n0)
  { }

  lemma KeptDone(ir: seq<Instr>, i: Instr, e: AddExpr, size: nat, counts: Counts, n0: nat)
    requires |ir| >= size && |ir| <= CodeBound(e) && (size == 0 || At(counts, i.d) != 0)
    ensures DefDone([i], i, e, size, counts, n0)
  { }

  lemma BadDone(i: Instr, e: AddExpr, size: nat, counts: Counts, n0: nat)
    requires (e.bad || i.d in e.cs) && (size == 0 || At(counts, i.d) != 0)
    ensures DefDone([i], i, e, size, counts, n0)
  { }

  lemma OthersStay(block: seq<Instr>, exprs: map<nat, AddExpr>, codes: seq<seq<Instr>>, n0: nat, dropped: set<nat>, outside: nat -> nat)
    requires Progress(block, exprs, codes, n0, 0, dropped, outside)
    ensures forall i :: i in block && i.Other? ==> i in Flat(codes)
  {
    hide Generates, AllUnread, Flat;
    forall i | i in block && i.Other? ensures i in Flat(codes) {
      var k :| 0 <= k < |block| && block[k] == i;
      assert Handled(codes[k], block[k], exprs[block[k].d], n0, dropped);
      InFlat(codes, k, i);
    }
  }

  lemma {:induction false} InFlat(codes: seq<seq<Instr>>, k: nat, i: Instr)
    requires k < |codes| && i in codes[k]
    ensures i in Flat(codes)
  {
    if k < |codes| - 1 { InFlat(codes[..|codes| - 1], k, i); }
  }

  lemma SinglyOk(block: seq<Instr>, n0: nat)
    requires InOrder(block, n0)
    ensures |Singly(block)| == |block| && Below(Singly(block), n0)
  {
    hide Settled, Operands;
  }

  lemma SizeAt(block: seq<Instr>, k: nat, sizes: map<nat, nat>)
    requires k < |block| && Sized(block, |block|, sizes)
    ensures block[k].d in sizes && (block[k].Other? ==> sizes[block[k].d] == 0)
  { }

  lemma StillThere(block: seq<Instr>, exprs: map<nat, AddExpr>, codes: seq<seq<Instr>>, n0: nat, k: nat, dropped: set<nat>, outside: nat -> nat)
    requires k < |block| && |codes| == |block| && Progress(block, exprs, codes, n0, k + 1, dropped, outside)
    ensures codes[k] == [block[k]]
  { }

  lemma LeavesBelow(block: seq<Instr>, k: nat, e: AddExpr, n0: nat)
    requires k < |block| && LeavesSettled(block, k, e, n0)
    ensures forall x :: x in e.cs ==> x < n0
  { }

  lemma CountsStart(block: seq<Instr>, counts: Counts, outside: nat -> nat)
    requires forall x: nat :: At(counts, x) == outside(x) + UsesOf(block, x)
    ensures Exact(counts, outside, Singly(block))
  {
    hide At, UsesOf, UsesAll, Singly;
    forall x: nat ensures At(counts, x) == outside(x) + UsesAll(Singly(block), x) { UsesSingly(block, x); }
  }

  lemma CountsEnd(codes: seq<seq<Instr>>, counts: Counts, outside: nat -> nat)
    requires Exact(counts, outside, codes)
    ensures forall x: nat :: At(counts, x) == outside(x) + UsesOf(Flat(codes), x)
  {
    hide At, UsesOf, UsesAll, Flat;
    forall x: nat ensures At(counts, x) == outside(x) + UsesOf(Flat(codes), x) { UsesFlat(codes, x); }
  }

  lemma {:induction false} FlatBound(codes: seq<seq<Instr>>, n: nat)
    requires Below(codes, n)
    ensures forall i :: i in Flat(codes) ==> i.d < n
  {
    if codes != [] { FlatBound(codes[..|codes| - 1], n); }
  }
}
