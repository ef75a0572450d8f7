/** Conditions and structured statements compiled to basic blocks with lists of branch targets to be filled in
    later (src/ast/ast_visitor.cpp). */
module ControlFlow {
  // ----- the source language -----

  /** Conditions over tests of expressions. */
  datatype Cond = Leaf(id: nat) | And(left: Cond, right: Cond) | Or(left: Cond, right: Cond) | Not(arg: Cond)

  datatype Stmt =
    | Simple(id: nat)
    | Seq(first: Stmt, second: Stmt)
    | If(cond: Cond, body: Stmt)
    | IfElse(cond: Cond, body: Stmt, other: Stmt)
    | While(cond: Cond, body: Stmt)
    | Break
    | Continue

  /** What can be observed: tests with their outcomes, and simple statements, in order. */
  datatype Event = Tested(id: nat, value: bool) | Did(id: nat)

  /** The outcomes of the tests to come (false when there are none left) and what has happened so far. */
  datatype World = World(input: seq<bool>, trace: seq<Event>)

  datatype Outcome = Outcome(value: bool, w: World)

  function Test(id: nat, w: World): Outcome {
    var v := w.input != [] && w.input[0];
    Outcome(v, World(if w.input == [] then [] else w.input[1..], w.trace + [Tested(id, v)]))
  }

  function Do(id: nat, w: World): World {
    World(w.input, w.trace + [Did(id)])
  }

  function Eval(c: Cond, w: World): Outcome {
    match c
    case Leaf(id) => Test(id, w)
    case And(a, b) => var r := Eval(a, w); if r.value then Eval(b, r.w) else r
    case Or(a, b) => var r := Eval(a, w); if r.value then r else Eval(b, r.w)
    case Not(a) => var r := Eval(a, w); Outcome(!r.value, r.w)
  }

  datatype Status = Normal | Broke | Continued | Running

  datatype Result = Result(status: Status, w: World)

  /** Execution of a statement with at most `fuel` iterations of each loop; `Running` when that is not enough. */
  function Exec(s: Stmt, w: World, fuel: nat): Result
    decreases fuel, s
  {
    match s
    case Simple(id) => Result(Normal, Do(id, w))
    case Seq(a, b) => var r := Exec(a, w, fuel); if r.status == Normal then Exec(b, r.w, fuel) else r
    case If(c, a) => var e := Eval(c, w); if e.value then Exec(a, e.w, fuel) else Result(Normal, e.w)
    case IfElse(c, a, b) => var e := Eval(c, w); if e.value then Exec(a, e.w, fuel) else Exec(b, e.w, fuel)
    case While(c, a) =>
      if fuel == 0 then Result(Running, w)
      else
        var e := Eval(c, w);
        if !e.value then Result(Normal, e.w)
        else
          var r := Exec(a, e.w, fuel);
          if r.status == Broke then Result(Normal, r.w)
          else if r.status == Running then r
          else Exec(s, r.w, fuel - 1)
    case Break => Result(Broke, w)
    case Continue => Result(Continued, w)
  }

  // ----- the target language -----

  /** A branch tests and goes to `target1` or `target0`; a negative target is yet to be filled in. */
  datatype Instr = Op(id: nat) | Branch(id: nat, target1: int, target0: int) | Jump(target: nat)

  type Code = seq<seq<Instr>>

  datatype Config = Config(block: int, index: nat, w: World)

  function Step(code: Code, c: Config): Config {
    if !(0 <= c.block < |code| && c.index < |code[c.block]|) then c
    else
      match code[c.block][c.index]
      case Op(id) => Config(c.block, c.index + 1, Do(id, c.w))
      case Branch(id, t1, t0) => var r := Test(id, c.w); Config(if r.value then t1 else t0, 0, r.w)
      case Jump(t) => Config(t, 0, c.w)
  }

  function Run(code: Code, c: Config, n: nat): Config
    decreases n
  {
    if n == 0 then c else Run(code, Step(code, c), n - 1)
  }

  ghost predicate Reaches(code: Code, c: Config, d: Config) {
    exists n: nat :: Run(code, c, n) == d
  }

  lemma {:induction false} RunPlus(code: Code, c: Config, m: nat, n: nat)
    ensures Run(code, c, m + n) == Run(code, Run(code, c, m), n)
    decreases m
  {
    if m > 0 { RunPlus(code, Step(code, c), m - 1, n); }
  }

  lemma ReachTrans(code: Code, c: Config, d: Config, e: Config)
    requires Reaches(code, c, d) && Reaches(code, d, e)
    ensures Reaches(code, c, e)
  {
    var m: nat :| Run(code, c, m) == d;
    var n: nat :| Run(code, d, n) == e;
    RunPlus(code, c, m, n);
  }

  lemma ReachStep(code: Code, c: Config)
    ensures Reaches(code, c, Step(code, c)) && Reaches(code, c, c)
  {
    assert Run(code, Step(code, c), 0) == Step(code, c);
    assert Run(code, c, 1) == Step(code, c);
    assert Run(code, c, 0) == c;
  }

  // ----- holes -----

  /** One side of a branch. */
  datatype Hole = Hole(block: nat, index: nat, side: bool)

  predicate IsBranch(code: Code, h: Hole) {
    h.block < |code| && h.index < |code[h.block]| && code[h.block][h.index].Branch?
  }

  function Target(code: Code, h: Hole): int
    requires IsBranch(code, h)
  {
    var i := code[h.block][h.index];
    if h.side then i.target1 else i.target0
  }

  predicate Open(code: Code, h: Hole) {
    IsBranch(code, h) && Target(code, h) < 0
  }

  function Fill(code: Code, h: Hole, t: nat): Code
    requires IsBranch(code, h)
  {
    var i := code[h.block][h.index];
    var i' := if h.side then i.(target1 := t) else i.(target0 := t);
    code[h.block := code[h.block][h.index := i']]
  }

  /** All holes of a list have been given the target `t`. */
  ghost predicate AllAt(code: Code, list: seq<Hole>, t: nat) {
    forall h :: h in list ==> IsBranch(code, h) && Target(code, h) == t
  }

  ghost predicate AllOpen(code: Code, list: seq<Hole>) {
    forall h :: h in list ==> Open(code, h)
  }

  ghost predicate RefinesInstr(x: Instr, y: Instr) {
    x == y || (x.Branch? && y.Branch? && x.id == y.id && (x.target1 < 0 || x.target1 == y.target1) &&
               (x.target0 < 0 || x.target0 == y.target0))
  }

  /** `code'` has the same code with more instructions at the ends of blocks, more blocks, and holes filled. */
  ghost predicate Refines(code: Code, code': Code) {
    && |code| <= |code'|
    && (forall b :: 0 <= b < |code| ==> |code[b]| <= |code'[b]|)
    && (forall b, i :: 0 <= b < |code| && 0 <= i < |code[b]| ==> RefinesInstr(code[b][i], code'[b][i]))
  }

  lemma RefinesTrans(a: Code, b: Code, c: Code)
    requires Refines(a, b) && Refines(b, c)
    ensures Refines(a, c)
  {
    forall k, i | 0 <= k < |a| && 0 <= i < |a[k]| ensures RefinesInstr(a[k][i], c[k][i]) {
      assert RefinesInstr(a[k][i], b[k][i]) && RefinesInstr(b[k][i], c[k][i]);
    }
  }

  lemma AllAtRefines(code: Code, code': Code, list: seq<Hole>, t: nat)
    requires Refines(code, code') && AllAt(code, list, t)
    ensures AllAt(code', list, t)
  {
    forall h | h in list ensures IsBranch(code', h) && Target(code', h) == t {
      assert RefinesInstr(code[h.block][h.index], code'[h.block][h.index]);
    }
  }

  /** Only block `cur` and new blocks have changed, and `cur` only at its end. */
  ghost predicate Grows(code: Code, code': Code, cur: nat) {
    && |code| <= |code'|
    && (forall b :: 0 <= b < |code| && b != cur ==> code'[b] == code[b])
    && (cur < |code| ==> code[cur] <= code'[cur])
  }

  lemma GrowsTrans(a: Code, b: Code, c: Code, cur: nat, cur': nat)
    requires Grows(a, b, cur) && Grows(b, c, cur') && (cur' == cur || cur' >= |a|)
    ensures Grows(a, c, cur)
  { }

  lemma GrowsRefines(code: Code, code': Code, cur: nat)
    requires Grows(code, code', cur)
    ensures Refines(code, code')
  { }

  // ----- what compiled fragments do -----

  ghost predicate CondRuns(code: Code, c: Cond, b: nat, i: nat, t: nat, f: nat, w: World) {
    var r := Eval(c, w);
    Reaches(code, Config(b, i, w), Config(if r.value then t else f, 0, r.w))
  }

  /** However the holes of the two lists are filled, control gets from the start of the fragment to the target that
      corresponds to the value of the condition, after the same tests. */
  ghost predicate CondOk(code: Code, c: Cond, b: nat, i: nat, trues: seq<Hole>, falses: seq<Hole>) {
    forall code', t: nat, f: nat, w {:trigger CondRuns(code', c, b, i, t, f, w)} ::
      Refines(code, code') && AllAt(code', trues, t) && AllAt(code', falses, f) ==> CondRuns(code', c, b, i, t, f, w)
  }

  /** The places a statement can go to: its end, and the targets of `break` and `continue`. */
  datatype Exits = Exits(block: nat, index: nat, brk: int, cont: int)

  /** From `c` control gets to where the result `r` of a statement leads. */
  ghost predicate Arrives(code: Code, c: Config, x: Exits, r: Result) {
    match r.status
    case Normal => Reaches(code, c, Config(x.block, x.index, r.w))
    case Broke => Reaches(code, c, Config(x.brk, 0, r.w))
    case Continued => Reaches(code, c, Config(x.cont, 0, r.w))
    case Running => exists d: Config :: Reaches(code, c, d) && d.w == r.w
  }

  ghost predicate StmtRuns(code: Code, s: Stmt, b: nat, i: nat, x: Exits, w: World, fuel: nat) {
    Arrives(code, Config(b, i, w), x, Exec(s, w, fuel))
  }

  /** The fragment does what the statement does, in all code that it becomes part of. */
  ghost predicate StmtOk(code: Code, s: Stmt, b: nat, i: nat, x: Exits) {
    forall code', w, fuel: nat {:trigger StmtRuns(code', s, b, i, x, w, fuel)} ::
      Refines(code, code') ==> StmtRuns(code', s, b, i, x, w, fuel)
  }

  /** Every `break` and `continue` is inside a loop. */
  predicate Nested(s: Stmt, inLoop: bool) {
    match s
    case Simple(_) => true
    case Seq(a, b) => Nested(a, inLoop) && Nested(b, inLoop)
    case If(_, a) => Nested(a, inLoop)
    case IfElse(_, a, b) => Nested(a, inLoop) && Nested(b, inLoop)
    case While(_, a) => Nested(a, true)
    case Break => inLoop
    case Continue => inLoop
  }

  lemma ArmNested(c: Cond, a: Stmt, inLoop: bool)
    ensures Nested(If(c, a), inLoop) <==> Nested(a, inLoop)
  { }

  lemma ArmsNested(c: Cond, a: Stmt, b: Stmt, inLoop: bool)
    ensures Nested(IfElse(c, a, b), inLoop) <==> Nested(a, inLoop) && Nested(b, inLoop)
  { }

  // ----- conditions -----

  /** The holes are in new blocks or in the new part of block `cur`. */
  ghost predicate NewHoles(code: Code, list: seq<Hole>, cur: nat) {
    forall h :: h in list ==> h.block >= |code| || (h.block == cur && h.index >= |code[cur]|)
  }

  ghost predicate DistinctHoles(list: seq<Hole>) {
    forall i, j :: 0 <= i < j < |list| ==> list[i] != list[j]
  }

  /** The open holes are those that were open before and those of the list. */
  ghost predicate OpenExactly(code: Code, code': Code, list: seq<Hole>) {
    forall h {:trigger Open(code', h)} :: Open(code', h) <==> Open(code, h) || h in list
  }

  lemma LeafOk(code: Code, id: nat, b: nat)
    requires b < |code|
    ensures
      var code' := code[b := code[b] + [Branch(id, -1, -1)]];
      var i := |code[b]|;
      && CondOk(code', Leaf(id), b, i, [Hole(b, i, true)], [Hole(b, i, false)])
      && OpenExactly(code, code', [Hole(b, i, true), Hole(b, i, false)])
  {
    var i := |code[b]|;
    var c1 := code[b := code[b] + [Branch(id, -1, -1)]];
    forall code', t: nat, f: nat, w | Refines(c1, code') && AllAt(code', [Hole(b, i, true)], t) &&
      AllAt(code', [Hole(b, i, false)], f)
      ensures CondRuns(code', Leaf(id), b, i, t, f, w)
    {
      assert Hole(b, i, true) in [Hole(b, i, true)] && Hole(b, i, false) in [Hole(b, i, false)];
      assert RefinesInstr(c1[b][i], code'[b][i]);
      ReachStep(code', Config(b, i, w));
    }
  }

  lemma AndOk(c1: Code, c2: Code, a: Cond, b: Cond, start: nat, i: nat, m: nat,
              lt: seq<Hole>, lf: seq<Hole>, rt: seq<Hole>, rf: seq<Hole>)
    requires CondOk(c1, a, start, i, lt, lf) && CondOk(c2, b, m, 0, rt, rf) && Refines(c1, c2) && AllAt(c2, lt, m)
    ensures CondOk(c2, And(a, b), start, i, rt, rf + lf)
  {
    forall code', t: nat, f: nat, w | Refines(c2, code') && AllAt(code', rt, t) && AllAt(code', rf + lf, f)
      ensures CondRuns(code', And(a, b), start, i, t, f, w)
    {
      RefinesTrans(c1, c2, code');
      AllAtRefines(c2, code', lt, m);
      assert AllAt(code', lf, f) && AllAt(code', rf, f);
      var r := Eval(a, w);
      assert CondRuns(code', a, start, i, m, f, w);
      if r.value {
        assert CondRuns(code', b, m, 0, t, f, r.w);
        var r2 := Eval(b, r.w);
        ReachTrans(code', Config(start, i, w), Config(m, 0, r.w), Config(if r2.value then t else f, 0, r2.w));
      }
    }
  }

  lemma OrOk(c1: Code, c2: Code, a: Cond, b: Cond, start: nat, i: nat, m: nat,
             lt: seq<Hole>, lf: seq<Hole>, rt: seq<Hole>, rf: seq<Hole>)
    requires CondOk(c1, a, start, i, lt, lf) && CondOk(c2, b, m, 0, rt, rf) && Refines(c1, c2) && AllAt(c2, lf, m)
    ensures CondOk(c2, Or(a, b), start, i, rt + lt, rf)
  {
    forall code', t: nat, f: nat, w | Refines(c2, code') && AllAt(code', rt + lt, t) && AllAt(code', rf, f)
      ensures CondRuns(code', Or(a, b), start, i, t, f, w)
    {
      RefinesTrans(c1, c2, code');
      AllAtRefines(c2, code', lf, m);
      assert AllAt(code', lt, t) && AllAt(code', rt, t);
      var r := Eval(a, w);
      assert CondRuns(code', a, start, i, t, m, w);
      if !r.value {
        assert CondRuns(code', b, m, 0, t, f, r.w);
        var r2 := Eval(b, r.w);
        ReachTrans(code', Config(start, i, w), Config(m, 0, r.w), Config(if r2.value then t else f, 0, r2.w));
      }
    }
  }

  lemma NotOk(code: Code, a: Cond, start: nat, i: nat, trues: seq<Hole>, falses: seq<Hole>)
    requires CondOk(code, a, start, i, trues, falses)
    ensures CondOk(code, Not(a), start, i, falses, trues)
  {
    forall code', t: nat, f: nat, w | Refines(code, code') && AllAt(code', falses, t) && AllAt(code', trues, f)
      ensures CondRuns(code', Not(a), start, i, t, f, w)
    {
      assert CondRuns(code', a, start, i, f, t, w);
    }
  }

  /** What patching does: the holes of the list get the target, nothing else changes. */
  ghost predicate Patched(code: Code, code': Code, list: seq<Hole>, t: nat) {
    && Refines(code, code') && AllAt(code', list, t)
    && |code'| == |code| && (forall b :: 0 <= b < |code| ==> |code'[b]| == |code[b]|)
    && (forall b: nat, i: nat {:trigger code'[b][i]} :: b < |code| && i < |code[b]| ==>
          code'[b][i] == code[b][i] || Hole(b, i, true) in list || Hole(b, i, false) in list)
    && (forall h {:trigger Open(code', h)} :: Open(code', h) <==> Open(code, h) && h !in list)
  }

  lemma FillKeeps(code: Code, c1: Code, list: seq<Hole>, k: nat, t: nat)
    requires k < |list| && DistinctHoles(list) && AllOpen(code, list) && Patched(code, c1, list[..k], t)
    ensures IsBranch(c1, list[k]) && Patched(code, Fill(c1, list[k], t), list[..k + 1], t)
  {
    var h := list[k];
    assert h !in list[..k] && h in list;
    assert Open(c1, h);
    var c2 := Fill(c1, h, t);
    assert list[..k + 1] == list[..k] + [h];
    assert Refines(c1, c2);
    RefinesTrans(code, c1, c2);
    forall x ensures Open(c2, x) <==> Open(c1, x) && x != h { }
  }

  lemma PatchedGrows(base: Code, code: Code, code': Code, list: seq<Hole>, t: nat, cur: nat)
    requires Grows(base, code, cur) && Patched(code, code', list, t) && NewHoles(base, list, cur)
    ensures Grows(base, code', cur)
  {
    forall b: nat, i: nat | b < |base| && i < |base[b]| ensures code'[b][i] == code[b][i] {
      assert Hole(b, i, true) !in list && Hole(b, i, false) !in list;
    }
    forall b | 0 <= b < |base| && b != cur ensures code'[b] == base[b] { }
  }

  ghost predicate CondVisited(c0: Code, c1: Code, c: Cond, cur: nat, trues: seq<Hole>, falses: seq<Hole>) {
    && cur < |c0| && Grows(c0, c1, cur)
    && CondOk(c1, c, cur, |c0[cur]|, trues, falses)
    && NewHoles(c0, trues + falses, cur) && DistinctHoles(trues + falses)
    && OpenExactly(c0, c1, trues + falses)
  }

  /** The right operand is compiled into the new block `m`, which `now` holes of the left one lead to, while `later`
      ones stay open. */
  lemma RightVisited(c0: Code, c1: Code, c3: Code, c4: Code, a: Cond, b: Cond, cur: nat,
                     now: seq<Hole>, later: seq<Hole>, rt: seq<Hole>, rf: seq<Hole>)
    requires cur < |c0| && Grows(c0, c1, cur) && OpenExactly(c0, c1, now + later)
    requires NewHoles(c0, now + later, cur) && DistinctHoles(now + later)
    requires Patched(c1 + [[]], c3, now, |c1|) && CondVisited(c3, c4, b, |c1|, rt, rf)
    ensures Grows(c0, c4, cur) && Refines(c1, c4) && AllAt(c4, now, |c1|)
    ensures NewHoles(c0, rt + rf + later, cur) && DistinctHoles(rt + rf + later)
    ensures OpenExactly(c0, c4, rt + rf + later)
  {
    var m, c2 := |c1|, c1 + [[]];
    assert Grows(c1, c2, m);
    GrowsTrans(c0, c1, c2, cur, m);
    forall h ensures Open(c2, h) <==> Open(c1, h) { }
    forall h | h in now ensures h in now + later { }
    PatchedGrows(c0, c2, c3, now, m, cur);
    GrowsTrans(c0, c3, c4, cur, m);
    GrowsRefines(c1, c2, m);
    GrowsRefines(c3, c4, m);
    RefinesTrans(c1, c2, c3);
    RefinesTrans(c1, c3, c4);
    AllAtRefines(c3, c4, now, m);
    forall h | h in later ensures Open(c3, h) && h !in rt + rf && h !in now { LaterHole(c3, c1, m, now, later, rt + rf, h); }
    forall h | h in rt + rf ensures h.block >= |c0| { }
    DistinctAppend(rt + rf, later, now);
    forall h ensures Open(c4, h) <==> Open(c0, h) || h in rt + rf + later {
      assert Open(c4, h) <==> Open(c3, h) || h in rt + rf;
      assert Open(c3, h) <==> Open(c2, h) && h !in now;
      assert Open(c1, h) <==> Open(c0, h) || h in now + later;
      assert h in now ==> h in now + later;
    }
  }

  lemma LaterHole(c3: Code, c1: Code, m: nat, now: seq<Hole>, later: seq<Hole>, news: seq<Hole>, h: Hole)
    requires m == |c1| && h in later && DistinctHoles(now + later) && AllOpen(c1, now + later)
    requires Patched(c1 + [[]], c3, now, m) && NewHoles(c3, news, m)
    ensures Open(c3, h) && h !in news && h !in now
  {
    assert h in now + later;
    assert Open(c1 + [[]], h);
    var j :| 0 <= j < |later| && later[j] == h;
    forall i | 0 <= i < |now| ensures now[i] != h { assert (now + later)[i] != (now + later)[|now| + j]; }
  }

  lemma DistinctAppend(a: seq<Hole>, later: seq<Hole>, now: seq<Hole>)
    requires DistinctHoles(a) && DistinctHoles(now + later) && forall h :: h in later ==> h !in a
    ensures DistinctHoles(a + later)
  {
    forall i, j | 0 <= i < j < |later| ensures later[i] != later[j] {
      assert (now + later)[|now| + i] == later[i] && (now + later)[|now| + j] == later[j];
    }
    forall i, j | 0 <= i < |a| && 0 <= j < |later| ensures a[i] != later[j] { assert a[i] in a && later[j] in later; }
  }

  /** The order of a list of holes does not matter. */
  lemma Reordered(c0: Code, c1: Code, a: seq<Hole>, b: seq<Hole>, c: seq<Hole>, cur: nat)
    requires cur < |c0| && NewHoles(c0, a + b + c, cur) && DistinctHoles(a + b + c) && OpenExactly(c0, c1, a + b + c)
    ensures NewHoles(c0, a + (b + c), cur) && DistinctHoles(a + (b + c)) && OpenExactly(c0, c1, a + (b + c))
    ensures NewHoles(c0, a + c + b, cur) && DistinctHoles(a + c + b) && OpenExactly(c0, c1, a + c + b)
  {
    assert a + (b + c) == a + b + c;
    forall h ensures h in a + c + b <==> h in a + b + c { }
    forall i, j | 0 <= i < j < |a + c + b| ensures (a + c + b)[i] != (a + c + b)[j] {
      var n := |a|;
      var i' := if i < n then i else if i < n + |c| then i + |b| else i - |c|;
      var j' := if j < n then j else if j < n + |c| then j + |b| else j - |c|;
      assert (a + b + c)[i'] == (a + c + b)[i] && (a + b + c)[j'] == (a + c + b)[j];
    }
  }

  class Visitor {
    var code: Code
    var cur: nat
    var breakTargets: seq<nat>
    var continueTargets: seq<nat>

    constructor ()
      ensures code == [[]] && cur == 0 && breakTargets == [] && continueTargets == []
    {
      code, cur, breakTargets, continueTargets := [[]], 0, [], [];
    }

    method NewBB() returns (b: nat)
      modifies `code
      ensures b == |old(code)| && code == old(code) + [[]]
    {
      b := |code|;
      code := code + [[]];
    }

    method Push(b: nat, i: Instr)
      requires b < |code|
      modifies `code
      ensures code == old(code)[b := old(code)[b] + [i]]
    {
      code := code[b := code[b] + [i]];
    }

    /** Fill all holes of a list. */
    method Patch(list: seq<Hole>, t: nat)
      requires DistinctHoles(list) && AllOpen(code, list)
      modifies `code
      ensures Patched(old(code), code, list, t)
    {
      for k := 0 to |list|
        invariant Patched(old(code), code, list[..k], t)
      {
        FillKeeps(old(code), code, list, k, t);
        code := Fill(code, list[k], t);
      }
      assert list[..|list|] == list;
    }

    method VisitCond(c: Cond) returns (trues: seq<Hole>, falses: seq<Hole>)
      requires cur < |code|
      modifies `code, `cur
      ensures CondVisited(old(code), code, c, old(cur), trues, falses)
      decreases c
    {
      match c
      case Leaf(id) =>
        LeafOk(code, id, cur);
        trues, falses := [Hole(cur, |code[cur]|, true)], [Hole(cur, |code[cur]|, false)];
        Push(cur, Branch(id, -1, -1));
        assert trues + falses == [trues[0], falses[0]];
      case And(a, b) =>
        trues, falses := VisitAnd(a, b);
      case Or(a, b) =>
        trues, falses := VisitOr(a, b);
      case Not(a) =>
        falses, trues := VisitCond(a);
        NotOk(code, a, old(cur), |old(code)[old(cur)]|, falses, trues);
        assert [] + falses + trues == falses + trues && [] + trues + falses == trues + falses;
        Reordered(old(code), code, [], falses, trues, old(cur));
    }

    method VisitAnd(a: Cond, b: Cond) returns (trues: seq<Hole>, falses: seq<Hole>)
      requires cur < |code|
      modifies `code, `cur
      ensures CondVisited(old(code), code, And(a, b), old(cur), trues, falses)
      decreases And(a, b), 0
    {
      hide CondOk, Grows, NewHoles, DistinctHoles, OpenExactly, Patched, Refines, AllAt;
      var lt, lf := VisitCond(a);
      ghost var c1 := code;
      cur := NewBB();
      NowOpen(old(code), c1, lt, lf);
      Patch(lt, cur);
      ghost var c3 := code;
      var rt, rf := VisitCond(b);
      RightVisited(old(code), c1, c3, code, a, b, old(cur), lt, lf, rt, rf);
      AndOk(c1, code, a, b, old(cur), |old(code)[old(cur)]|, |c1|, lt, lf, rt, rf);
      Reordered(old(code), code, rt, rf, lf, old(cur));
      trues, falses := rt, rf + lf;
    }

    method VisitOr(a: Cond, b: Cond) returns (trues: seq<Hole>, falses: seq<Hole>)
      requires cur < |code|
      modifies `code, `cur
      ensures CondVisited(old(code), code, Or(a, b), old(cur), trues, falses)
      decreases Or(a, b), 0
    {
      hide CondOk, Grows, NewHoles, DistinctHoles, OpenExactly, Patched, Refines, AllAt;
      var lt, lf := VisitCond(a);
      ghost var c1 := code;
      cur := NewBB();
      assert [] + lt + lf == lt + lf && [] + lf + lt == lf + lt;
      Reordered(old(code), c1, [], lt, lf, old(cur));
      NowOpen(old(code), c1, lf, lt);
      Patch(lf, cur);
      ghost var c3 := code;
      var rt, rf := VisitCond(b);
      RightVisited(old(code), c1, c3, code, a, b, old(cur), lf, lt, rt, rf);
      OrOk(c1, code, a, b, old(cur), |old(code)[old(cur)]|, |c1|, lt, lf, rt, rf);
      Reordered(old(code), code, rt, rf, lt, old(cur));
      trues, falses := rt + lt, rf;
    }

    ghost predicate TargetsOk()
      reads this
    {
      && |breakTargets| == |continueTargets|
      && (forall t :: t in breakTargets || t in continueTargets ==> t < |code|)
    }

    ghost predicate Ready()
      reads this
    {
      cur < |code| && TargetsOk()
    }

    ghost function Brk(): int
      reads this
    {
      if breakTargets == [] then -1 else breakTargets[|breakTargets| - 1]
    }

    ghost function Cont(): int
      reads this
    {
      if continueTargets == [] then -1 else continueTargets[|continueTargets| - 1]
    }

    /** The current end of the code, and where `break` and `continue` go. */
    ghost function X(): Exits
      requires cur < |code|
      reads this
    {
      Exits(cur, |code[cur]|, Brk(), Cont())
    }

    /** Fails exactly when a `break` or `continue` is not inside a loop. */
    method VisitStmt(s: Stmt) returns (ok: bool)
      requires Ready()
      modifies this
      ensures ok <==> Nested(s, old(breakTargets) != [])
      ensures ok ==> Ready() && breakTargets == old(breakTargets) && continueTargets == old(continueTargets)
      ensures ok ==> StmtVisited(old(code), code, s, old(cur), X())
      decreases s, 1
    {
      ok := true;
      match s
      case Simple(id) =>
        SimpleVisited(code, id, cur, X());
        Push(cur, Op(id));
      case Seq(a, b) =>
        ok := VisitSeq(a, b);
      case If(c, a) =>
        ok := VisitIf(c, a);
      case IfElse(c, a, b) =>
        ok := VisitIfElse(c, a, b);
      case While(c, a) =>
        ok := VisitWhile(c, a);
      case Break =>
        if breakTargets == [] { return false; }
        LeaveVisited(code, s, cur, X());
        Push(cur, Jump(breakTargets[|breakTargets| - 1]));
        cur := NewBB();
      case Continue =>
        if continueTargets == [] { return false; }
        LeaveVisited(code, s, cur, X());
        Push(cur, Jump(continueTargets[|continueTargets| - 1]));
        cur := NewBB();
    }

    method VisitSeq(a: Stmt, b: Stmt) returns (ok: bool)
      requires Ready()
      modifies this
      ensures ok <==> Nested(Seq(a, b), old(breakTargets) != [])
      ensures ok ==> Ready() && breakTargets == old(breakTargets) && continueTargets == old(continueTargets)
      ensures ok ==> StmtVisited(old(code), code, Seq(a, b), old(cur), X())
      decreases Seq(a, b), 0
    {
      hide StmtVisited;
      ok := VisitStmt(a);
      if !ok { return; }
      ghost var c1, x1 := code, X();
      ok := VisitStmt(b);
      if ok { SeqVisited(old(code), c1, code, a, b, old(cur), x1, X()); }
    }

    /** A statement in a block of its own. */
    method VisitArm(a: Stmt) returns (ok: bool, entry: nat, ghost x: Exits)
      requires TargetsOk()
      modifies this
      ensures entry == |old(code)|
      ensures ok <==> Nested(a, old(breakTargets) != [])
      ensures ok ==> Ready() && breakTargets == old(breakTargets) && continueTargets == old(continueTargets)
      ensures ok ==> x == X() && StmtVisited(old(code) + [[]], code, a, entry, x)
      ensures ok ==> x.brk == old(Brk()) && x.cont == old(Cont())
      decreases a, 2
    {
      hide StmtVisited;
      entry := NewBB();
      cur := entry;
      x := X();
      ok := VisitStmt(a);
      if ok { x := X(); }
    }

    /** Fill the holes of a condition. */
    method Link(trues: seq<Hole>, t: nat, falses: seq<Hole>, f: nat) returns (ghost mid: Code)
      requires DistinctHoles(trues) && AllOpen(code, trues) && DistinctHoles(falses)
      requires forall c', t :: Patched(code, c', trues, t) ==> AllOpen(c', falses)
      modifies `code
      ensures Patched(old(code), mid, trues, t) && Patched(mid, code, falses, f)
    {
      hide Patched, AllOpen, DistinctHoles;
      Patch(trues, t);
      mid := code;
      Patch(falses, f);
    }

    method VisitIf(c: Cond, a: Stmt) returns (ok: bool)
      requires Ready()
      modifies this
      ensures ok <==> Nested(If(c, a), old(breakTargets) != [])
      ensures ok ==> Ready() && breakTargets == old(breakTargets) && continueTargets == old(continueTargets)
      ensures ok ==> StmtVisited(old(code), code, If(c, a), old(cur), X())
      decreases If(c, a), 0
    {
      hide StmtVisited, CondVisited, Patched, Grows, OpenExactly, Refines, HasJump, AllOpen, DistinctHoles, Nested;
      ArmNested(c, a, breakTargets != []);
      var trues, falses := VisitCond(c);
      CondSizes(old(code), code, c, old(cur), trues, falses);
      ghost var c1 := code;
      var trueEntry;
      ghost var x;
      ok, trueEntry, x := VisitArm(a);
      if !ok { return; }
      ghost var c3 := code;
      var out := LeaveArm();
      ghost var c5 := code;
      IfGrown(old(code), c1, c3, c5, c, a, old(cur), trues, falses, x);
      ghost var c6 := Link(trues, trueEntry, falses, out);
      IfVisited(old(code), c1, c3, c5, c6, code, c, a, old(cur), trues, falses, x);
    }

    /** The arm goes on at a new block. */
    method LeaveArm() returns (out: nat)
      requires Ready()
      modifies `code, `cur
      ensures Ready() && out == cur == |old(code)|
      ensures var c4 := old(code) + [[]]; code == c4[old(cur) := c4[old(cur)] + [Jump(out)]]
    {
      var end := cur;
      out := NewBB();
      cur := out;
      Push(end, Jump(out));
    }

    method VisitIfElse(c: Cond, a: Stmt, b: Stmt) returns (ok: bool)
      requires Ready()
      modifies this
      ensures ok <==> Nested(IfElse(c, a, b), old(breakTargets) != [])
      ensures ok ==> Ready() && breakTargets == old(breakTargets) && continueTargets == old(continueTargets)
      ensures ok ==> StmtVisited(old(code), code, IfElse(c, a, b), old(cur), X())
      decreases IfElse(c, a, b), 0
    {
      hide StmtVisited, CondVisited, Patched, Grows, OpenExactly, Refines, HasJump, AllOpen, DistinctHoles, Nested;
      ArmsNested(c, a, b, breakTargets != []);
      var trues, falses := VisitCond(c);
      CondSizes(old(code), code, c, old(cur), trues, falses);
      ghost var c1 := code;
      var trueEntry, falseEntry;
      ghost var x, y;
      ok, trueEntry, x := VisitArm(a);
      if !ok { return; }
      ghost var c3 := code;
      var trueEnd := cur;
      ok, falseEntry, y := VisitArm(b);
      if !ok { return; }
      ghost var c5 := code;
      StmtSizes(c3 + [[]], c5, b, falseEntry, y);
      JoinArms(trueEnd);
      ghost var c7 := code;
      IfElseGrown(old(code), c1, c3, c5, c7, c, a, b, old(cur), trues, falses, x, y);
      ghost var c8 := Link(trues, trueEntry, falses, falseEntry);
      IfElseVisited(old(code), c1, c3, c5, c7, c8, code, c, a, b, old(cur), trues, falses, x, y);
    }

    /** Both arms go on at a new block. */
    method JoinArms(trueEnd: nat)
      requires Ready() && trueEnd < |code|
      modifies `code, `cur
      ensures Ready() && cur == |old(code)|
      ensures
        var c6 := old(code) + [[]];
        var c7 := c6[trueEnd := c6[trueEnd] + [Jump(cur)]];
        code == c7[old(cur) := c7[old(cur)] + [Jump(cur)]]
    {
      var falseEnd := cur;
      cur := NewBB();
      Push(trueEnd, Jump(cur));
      Push(falseEnd, Jump(cur));
    }

    method VisitWhile(c: Cond, a: Stmt) returns (ok: bool)
      requires Ready()
      modifies this
      ensures ok <==> Nested(While(c, a), old(breakTargets) != [])
      ensures ok ==> Ready() && breakTargets == old(breakTargets) && continueTargets == old(continueTargets)
      ensures ok ==> StmtVisited(old(code), code, While(c, a), old(cur), X())
      decreases While(c, a), 0
    {
      hide StmtVisited, CondVisited;
      var condEntry := NewBB();
      Push(cur, Jump(condEntry));
      cur := condEntry;
      ghost var c2 := code;
      var trues, falses := VisitCond(c);
      CondSizes(c2, code, c, condEntry, trues, falses);
      ok := VisitLoop(c, a, condEntry, trues, falses, old(code), c2, old(cur));
    }

    /** The rest of a loop whose condition has been compiled. */
    method VisitLoop(c: Cond, a: Stmt, condEntry: nat, trues: seq<Hole>, falses: seq<Hole>,
                     ghost c0: Code, ghost c2: Code, ghost cur0: nat) returns (ok: bool)
      requires TargetsOk() && condEntry == |c0| && condEntry < |code| && cur0 < |c0|
      requires c2 == (c0 + [[]])[cur0 := (c0 + [[]])[cur0] + [Jump(|c0|)]]
      requires CondVisited(c2, code, c, condEntry, trues, falses)
      modifies this
      ensures ok <==> Nested(a, true)
      ensures ok ==> Ready() && breakTargets == old(breakTargets) && continueTargets == old(continueTargets)
      ensures ok ==> StmtVisited(c0, code, While(c, a), cur0, X())
      decreases a, 3
    {
      hide StmtVisited, CondVisited, Patched, Grows, OpenExactly, Refines, HasJump, AllOpen, DistinctHoles;
      var out, bodyEntry, jumpBack := NewLoopBlocks();
      ghost var c4 := code;
      ghost var x;
      ok, x := VisitLoopBody(a, out, bodyEntry, jumpBack);
      if !ok { return; }
      ghost var c5 := code;
      StmtSizes(c4, c5, a, bodyEntry, x);
      CloseLoop(condEntry, out, jumpBack);
      ghost var c7 := code;
      WhileGrown(c0, c2, old(code), c5, c7, c, a, cur0, trues, falses, x);
      ghost var c8 := Link(trues, bodyEntry, falses, out);
      WhileVisited(c0, c2, old(code), c5, c7, c8, code, c, a, cur0, trues, falses, x, Brk(), Cont());
    }

    method NewLoopBlocks() returns (out: nat, bodyEntry: nat, jumpBack: nat)
      modifies `code
      ensures out == |old(code)| && bodyEntry == out + 1 && jumpBack == out + 2
      ensures code == old(code) + [[]] + [[]] + [[]]
    {
      out := NewBB();
      bodyEntry := NewBB();
      jumpBack := NewBB();
    }

    method CloseLoop(condEntry: nat, out: nat, jumpBack: nat)
      requires Ready() && out < |code| && jumpBack < |code|
      modifies `code, `cur
      ensures Ready() && cur == out
      ensures
        var c6 := old(code)[old(cur) := old(code)[old(cur)] + [Jump(jumpBack)]];
        code == c6[jumpBack := c6[jumpBack] + [Jump(condEntry)]]
    {
      Push(cur, Jump(jumpBack));
      Push(jumpBack, Jump(condEntry));
      cur := out;
    }

    method VisitLoopBody(a: Stmt, out: nat, entry: nat, jumpBack: nat) returns (ok: bool, ghost x: Exits)
      requires TargetsOk() && out < |code| && jumpBack < |code| && entry < |code|
      modifies this
      ensures ok <==> Nested(a, true)
      ensures ok ==> Ready() && breakTargets == old(breakTargets) && continueTargets == old(continueTargets)
      ensures ok ==> StmtVisited(old(code), code, a, entry, x)
      ensures ok ==> x.block == cur && x.brk == out && x.cont == jumpBack
      decreases a, 2
    {
      hide StmtVisited;
      cur := entry;
      breakTargets, continueTargets := breakTargets + [out], continueTargets + [jumpBack];
      x := X();
      ok := VisitStmt(a);
      if !ok { return; }
      x := X();
      assert forall t :: t in old(breakTargets) ==> t in breakTargets;
      assert forall t :: t in old(continueTargets) ==> t in continueTargets;
      breakTargets, continueTargets := breakTargets[..|breakTargets| - 1], continueTargets[..|continueTargets| - 1];
    }

    /** A whole function body: no branch is left without targets, and running the blocks from the start does what the
        body does, however far one looks. */
    method VisitBody(s: Stmt) returns (ok: bool)
      requires code == [[]] && cur == 0 && breakTargets == [] && continueTargets == []
      modifies this
      ensures ok <==> Nested(s, false)
      ensures ok ==> cur < |code| && forall h :: !Open(code, h)
      ensures ok ==> forall w, fuel: nat :: Compiled(code, s, cur, w, fuel)
    {
      ok := VisitStmt(s);
      if ok {
        forall h ensures !Open(code, h) { assert Open(code, h) <==> Open([[]], h) || h in []; }
        forall w, fuel: nat ensures Compiled(code, s, cur, w, fuel) {
          assert Refines(code, code);
          assert StmtRuns(code, s, 0, 0, X(), w, fuel);
        }
      }
    }
  }

  /** Control reaches the end of the body with the same world, or, when the body is still running after `fuel`
      iterations, reaches a state with the same world. */
  ghost predicate Compiled(code: Code, s: Stmt, end: nat, w: World, fuel: nat)
    requires end < |code|
  {
    var r := Exec(s, w, fuel);
    match r.status
    case Normal => Reaches(code, Config(0, 0, w), Config(end, |code[end]|, r.w))
    case Running => exists d: Config :: Reaches(code, Config(0, 0, w), d) && d.w == r.w
    case _ => true
  }

  lemma NowOpen(c0: Code, c1: Code, now: seq<Hole>, later: seq<Hole>)
    requires OpenExactly(c0, c1, now + later) && DistinctHoles(now + later)
    ensures DistinctHoles(now) && AllOpen(c1 + [[]], now)
  {
    forall h | h in now ensures Open(c1 + [[]], h) {
      assert h in now + later;
      assert Open(c1, h);
    }
    forall i, j | 0 <= i < j < |now| ensures now[i] != now[j] {
      assert (now + later)[i] == now[i] && (now + later)[j] == now[j];
    }
  }

  // ----- statements -----

  lemma ArriveFrom(code: Code, c: Config, d: Config, x: Exits, r: Result)
    requires Reaches(code, c, d) && Arrives(code, d, x, r)
    ensures Arrives(code, c, x, r)
  {
    match r.status
    case Normal => ReachTrans(code, c, d, Config(x.block, x.index, r.w));
    case Broke => ReachTrans(code, c, d, Config(x.brk, 0, r.w));
    case Continued => ReachTrans(code, c, d, Config(x.cont, 0, r.w));
    case Running =>
      var e: Config :| Reaches(code, d, e) && e.w == r.w;
      ReachTrans(code, c, d, e);
  }

  lemma ArriveTo(code: Code, c: Config, x: Exits, y: Exits, r: Result)
    requires Arrives(code, c, x, r) && x.brk == y.brk && x.cont == y.cont
    requires r.status == Normal ==> Reaches(code, Config(x.block, x.index, r.w), Config(y.block, y.index, r.w))
    ensures Arrives(code, c, y, r)
  {
    if r.status == Normal { ReachTrans(code, c, Config(x.block, x.index, r.w), Config(y.block, y.index, r.w)); }
  }

  ghost predicate HasJump(code: Code, b: nat, i: nat, t: nat) {
    b < |code| && i < |code[b]| && code[b][i] == Jump(t)
  }

  lemma JumpReaches(code: Code, b: nat, i: nat, t: nat, w: World)
    requires HasJump(code, b, i, t)
    ensures Reaches(code, Config(b, i, w), Config(t, 0, w))
  {
    ReachStep(code, Config(b, i, w));
  }

  lemma HasJumpRefines(code: Code, code': Code, b: nat, i: nat, t: nat)
    requires Refines(code, code') && HasJump(code, b, i, t)
    ensures HasJump(code', b, i, t)
  {
    assert RefinesInstr(code[b][i], code'[b][i]);
  }

  lemma SeqRuns(code: Code, s1: Stmt, s2: Stmt, b: nat, i: nat, m: nat, j: nat, x: Exits, w: World, fuel: nat)
    requires StmtRuns(code, s1, b, i, Exits(m, j, x.brk, x.cont), w, fuel)
    requires StmtRuns(code, s2, m, j, x, Exec(s1, w, fuel).w, fuel)
    ensures StmtRuns(code, Seq(s1, s2), b, i, x, w, fuel)
  {
    var r := Exec(s1, w, fuel);
    if r.status == Normal {
      ArriveFrom(code, Config(b, i, w), Config(m, j, r.w), x, Exec(s2, r.w, fuel));
    }
  }

  lemma IfRuns(code: Code, c: Cond, s1: Stmt, s2: Stmt, b: nat, i: nat, t: nat, f: nat, x: Exits, w: World, fuel: nat)
    requires CondRuns(code, c, b, i, t, f, w)
    requires Eval(c, w).value ==> StmtRuns(code, s1, t, 0, x, Eval(c, w).w, fuel)
    requires !Eval(c, w).value ==> StmtRuns(code, s2, f, 0, x, Eval(c, w).w, fuel)
    ensures StmtRuns(code, IfElse(c, s1, s2), b, i, x, w, fuel)
  {
    var e := Eval(c, w);
    ArriveFrom(code, Config(b, i, w), Config(if e.value then t else f, 0, e.w), x,
               if e.value then Exec(s1, e.w, fuel) else Exec(s2, e.w, fuel));
  }

  /** A statement followed by a jump. */
  lemma RunsThenJumps(code: Code, s: Stmt, b: nat, i: nat, x: Exits, t: nat, w: World, fuel: nat)
    requires StmtRuns(code, s, b, i, x, w, fuel) && HasJump(code, x.block, x.index, t)
    ensures StmtRuns(code, s, b, i, Exits(t, 0, x.brk, x.cont), w, fuel)
  {
    var r := Exec(s, w, fuel);
    JumpReaches(code, x.block, x.index, t, r.w);
    ArriveTo(code, Config(b, i, w), x, Exits(t, 0, x.brk, x.cont), r);
  }

  /** A loop: the condition at `ce`, the body at `be`, `jb` the target of `continue`, `out` that of `break`. */
  lemma {:induction false} WhileRuns(code: Code, c: Cond, s: Stmt, ce: nat, be: nat, jb: nat, out: nat, x: Exits, w: World, fuel: nat)
    requires forall v :: CondRuns(code, c, ce, 0, be, out, v)
    requires forall v, n :: StmtRuns(code, s, be, 0, Exits(jb, 0, out, jb), v, n)
    requires HasJump(code, jb, 0, ce)
    ensures StmtRuns(code, While(c, s), ce, 0, Exits(out, 0, x.brk, x.cont), w, fuel)
    decreases fuel
  {
    var start := Config(ce, 0, w);
    var y := Exits(out, 0, x.brk, x.cont);
    if fuel == 0 {
      ReachStep(code, start);
      assert Reaches(code, start, start) && start.w == w;
    } else {
      assert CondRuns(code, c, ce, 0, be, out, w);
      var e := Eval(c, w);
      if e.value {
        assert StmtRuns(code, s, be, 0, Exits(jb, 0, out, jb), e.w, fuel);
        var r := Exec(s, e.w, fuel);
        ArriveFrom(code, start, Config(be, 0, e.w), Exits(jb, 0, out, jb), r);
        if r.status == Normal || r.status == Continued {
          JumpReaches(code, jb, 0, ce, r.w);
          ReachTrans(code, start, Config(jb, 0, r.w), Config(ce, 0, r.w));
          WhileRuns(code, c, s, ce, be, jb, out, x, r.w, fuel - 1);
          ArriveFrom(code, start, Config(ce, 0, r.w), y, Exec(While(c, s), r.w, fuel - 1));
        }
      }
    }
  }

  ghost predicate StmtVisited(c0: Code, c1: Code, s: Stmt, cur: nat, x: Exits) {
    && cur < |c0| && x.block < |c1| && x.index == |c1[x.block]|
    && Grows(c0, c1, cur) && (x.block == cur || x.block >= |c0|)
    && StmtOk(c1, s, cur, |c0[cur]|, x)
    && OpenExactly(c0, c1, [])
  }

  /** Appending an instruction that is not a branch. */
  lemma AppendKeeps(base: Code, c: Code, b: nat, i: Instr, cur: nat, list: seq<Hole>)
    requires Grows(base, c, cur) && b < |c| && (b == cur || b >= |base|) && !i.Branch? && OpenExactly(base, c, list)
    ensures
      var c' := c[b := c[b] + [i]];
      Grows(base, c', cur) && Refines(c, c') && OpenExactly(base, c', list)
  {
    var c' := c[b := c[b] + [i]];
    forall h ensures Open(c', h) <==> Open(c, h) { }
  }

  lemma BlockKeeps(base: Code, c: Code, cur: nat, list: seq<Hole>)
    requires Grows(base, c, cur) && OpenExactly(base, c, list) && cur < |base|
    ensures Grows(base, c + [[]], cur) && Refines(c, c + [[]]) && OpenExactly(base, c + [[]], list)
  {
    forall h ensures Open(c + [[]], h) <==> Open(c, h) { }
  }

  lemma StmtKeeps(base: Code, c: Code, c': Code, cur: nat, cur': nat, list: seq<Hole>)
    requires Grows(base, c, cur) && OpenExactly(base, c, list) && Grows(c, c', cur') && OpenExactly(c, c', [])
    requires cur' == cur || cur' >= |base|
    ensures Grows(base, c', cur) && Refines(c, c') && OpenExactly(base, c', list)
  {
    GrowsTrans(base, c, c', cur, cur');
    GrowsRefines(c, c', cur');
    forall h ensures Open(c', h) <==> Open(c, h) { assert Open(c', h) <==> Open(c, h) || h in []; }
  }

  /** Filling the holes of a condition, the true ones first. */
  lemma Linked(base: Code, c: Code, c1: Code, c2: Code, cur: nat, trues: seq<Hole>, t: nat, falses: seq<Hole>, f: nat)
    requires Grows(base, c, cur) && OpenExactly(base, c, trues + falses) && NewHoles(base, trues + falses, cur)
    requires Patched(c, c1, trues, t) && Patched(c1, c2, falses, f) && cur < |base|
    ensures Grows(base, c2, cur) && Refines(c, c2) && AllAt(c2, trues, t) && AllAt(c2, falses, f)
    ensures OpenExactly(base, c2, []) && |c2| == |c| && forall b :: 0 <= b < |c| ==> |c2[b]| == |c[b]|
  {
    forall h | h in trues || h in falses ensures h in trues + falses { }
    PatchedGrows(base, c, c1, trues, t, cur);
    PatchedGrows(base, c1, c2, falses, f, cur);
    RefinesTrans(c, c1, c2);
    AllAtRefines(c1, c2, trues, t);
    forall h ensures Open(c2, h) <==> Open(base, h) || h in [] {
      assert Open(c, h) <==> Open(base, h) || h in trues + falses;
      assert Open(c1, h) <==> Open(c, h) && h !in trues;
      assert Open(c2, h) <==> Open(c1, h) && h !in falses;
      if h in trues + falses { assert !Open(base, h); }
    }
  }

  lemma BothOpen(base: Code, c: Code, trues: seq<Hole>, falses: seq<Hole>)
    requires OpenExactly(base, c, trues + falses) && DistinctHoles(trues + falses)
    ensures AllOpen(c, trues) && DistinctHoles(trues) && DistinctHoles(falses)
    ensures forall c', t :: Patched(c, c', trues, t) ==> AllOpen(c', falses)
  {
    forall h | h in trues || h in falses ensures Open(c, h) { assert h in trues + falses; }
    forall i, j | 0 <= i < j < |trues| ensures trues[i] != trues[j] {
      assert (trues + falses)[i] == trues[i] && (trues + falses)[j] == trues[j];
    }
    var n := |trues|;
    forall i, j | 0 <= i < j < |falses| ensures falses[i] != falses[j] {
      assert (trues + falses)[n + i] == falses[i] && (trues + falses)[n + j] == falses[j];
    }
    forall h | h in falses ensures h !in trues {
      var j :| 0 <= j < |falses| && falses[j] == h;
      forall i | 0 <= i < n ensures trues[i] != h { assert (trues + falses)[i] != (trues + falses)[n + j]; }
    }
  }

  lemma CondSizes(c0: Code, c1: Code, c: Cond, cur: nat, trues: seq<Hole>, falses: seq<Hole>)
    requires CondVisited(c0, c1, c, cur, trues, falses)
    ensures |c0| <= |c1|
  { }

  lemma StmtSizes(c0: Code, c1: Code, s: Stmt, cur: nat, x: Exits)
    requires StmtVisited(c0, c1, s, cur, x)
    ensures |c0| <= |c1| && x.block < |c1| && (x.block == cur || x.block >= |c0|)
    ensures forall b :: 0 <= b < |c0| && b != cur ==> c1[b] == c0[b]
  { }

  lemma GrowsSelf(c: Code, cur: nat)
    requires cur < |c|
    ensures Grows(c, c, cur) && OpenExactly(c, c, [])
  { }

  lemma SimpleVisited(c0: Code, id: nat, cur: nat, x: Exits)
    requires cur < |c0| && x.block == cur && x.index == |c0[cur]|
    ensures
      var c1 := c0[cur := c0[cur] + [Op(id)]];
      StmtVisited(c0, c1, Simple(id), cur, x.(index := |c1[cur]|))
  {
    var c1 := c0[cur := c0[cur] + [Op(id)]];
    AppendKeeps(c0, c0, cur, Op(id), cur, []);
    forall code', w, fuel: nat | Refines(c1, code')
      ensures StmtRuns(code', Simple(id), cur, |c0[cur]|, x.(index := |c1[cur]|), w, fuel)
    {
      assert RefinesInstr(c1[cur][|c0[cur]|], code'[cur][|c0[cur]|]);
      ReachStep(code', Config(cur, |c0[cur]|, w));
    }
  }

  /** `break` and `continue`; what follows goes to a new block that nothing leads to. */
  lemma LeaveVisited(c0: Code, s: Stmt, cur: nat, x: Exits)
    requires cur < |c0| && (s == Break || s == Continue) && (if s == Break then x.brk else x.cont) >= 0
    ensures
      var t: nat := if s == Break then x.brk else x.cont;
      StmtVisited(c0, c0[cur := c0[cur] + [Jump(t)]] + [[]], s, cur, Exits(|c0|, 0, x.brk, x.cont))
  {
    var t: nat := if s == Break then x.brk else x.cont;
    var c1 := c0[cur := c0[cur] + [Jump(t)]];
    AppendKeeps(c0, c0, cur, Jump(t), cur, []);
    BlockKeeps(c0, c1, cur, []);
    forall code', w, fuel: nat | Refines(c1 + [[]], code')
      ensures StmtRuns(code', s, cur, |c0[cur]|, Exits(|c0|, 0, x.brk, x.cont), w, fuel)
    {
      HasJumpRefines(c1 + [[]], code', cur, |c0[cur]|, t);
      JumpReaches(code', cur, |c0[cur]|, t, w);
    }
  }

  lemma SeqVisited(c0: Code, c1: Code, c2: Code, a: Stmt, b: Stmt, cur: nat, x: Exits, y: Exits)
    requires StmtVisited(c0, c1, a, cur, x) && StmtVisited(c1, c2, b, x.block, y) && x.brk == y.brk && x.cont == y.cont
    ensures StmtVisited(c0, c2, Seq(a, b), cur, y)
  {
    StmtKeeps(c0, c1, c2, cur, x.block, []);
    forall code', w, fuel: nat | Refines(c2, code') ensures StmtRuns(code', Seq(a, b), cur, |c0[cur]|, y, w, fuel) {
      RefinesTrans(c1, c2, code');
      SeqRuns(code', a, b, cur, |c0[cur]|, x.block, x.index, y, w, fuel);
    }
  }

  lemma IfGrown(c0: Code, c1: Code, c3: Code, c5: Code, c: Cond, a: Stmt, cur: nat,
                trues: seq<Hole>, falses: seq<Hole>, x: Exits)
    requires CondVisited(c0, c1, c, cur, trues, falses) && StmtVisited(c1 + [[]], c3, a, |c1|, x)
    requires c5 == (c3 + [[]])[x.block := (c3 + [[]])[x.block] + [Jump(|c3|)]]
    ensures Grows(c0, c5, cur) && OpenExactly(c0, c5, trues + falses) && Refines(c1, c5) && Refines(c3, c5)
    ensures HasJump(c5, x.block, x.index, |c3|) && |c3| < |c5| && c5[|c3|] == []
    ensures AllOpen(c5, trues) && DistinctHoles(trues) && DistinctHoles(falses)
    ensures forall c', t :: Patched(c5, c', trues, t) ==> AllOpen(c', falses)
  {
    var tf := trues + falses;
    BlockKeeps(c0, c1, cur, tf);
    StmtKeeps(c0, c1 + [[]], c3, cur, |c1|, tf);
    BlockKeeps(c0, c3, cur, tf);
    AppendKeeps(c0, c3 + [[]], x.block, Jump(|c3|), cur, tf);
    RefinesTrans(c1, c1 + [[]], c3);
    RefinesTrans(c3, c3 + [[]], c5);
    RefinesTrans(c1, c3, c5);
    BothOpen(c0, c5, trues, falses);
  }

  lemma IfVisited(c0: Code, c1: Code, c3: Code, c5: Code, c6: Code, c7: Code, c: Cond, a: Stmt, cur: nat,
                  trues: seq<Hole>, falses: seq<Hole>, x: Exits)
    requires CondVisited(c0, c1, c, cur, trues, falses) && StmtVisited(c1 + [[]], c3, a, |c1|, x)
    requires Grows(c0, c5, cur) && OpenExactly(c0, c5, trues + falses) && Refines(c1, c5) && Refines(c3, c5)
    requires HasJump(c5, x.block, x.index, |c3|) && |c3| < |c5| && c5[|c3|] == []
    requires Patched(c5, c6, trues, |c1|) && Patched(c6, c7, falses, |c3|)
    ensures StmtVisited(c0, c7, If(c, a), cur, Exits(|c3|, 0, x.brk, x.cont)) && |c7| == |c5| && c7[|c3|] == []
  {
    var y := Exits(|c3|, 0, x.brk, x.cont);
    Linked(c0, c5, c6, c7, cur, trues, |c1|, falses, |c3|);
    forall code', w, fuel: nat | Refines(c7, code') ensures StmtRuns(code', If(c, a), cur, |c0[cur]|, y, w, fuel) {
      RefinesTrans(c5, c7, code');
      RefinesTrans(c1, c5, code');
      RefinesTrans(c3, c5, code');
      AllAtRefines(c7, code', trues, |c1|);
      AllAtRefines(c7, code', falses, |c3|);
      HasJumpRefines(c5, code', x.block, x.index, |c3|);
      assert CondRuns(code', c, cur, |c0[cur]|, |c1|, |c3|, w);
      var e := Eval(c, w);
      if e.value {
        RunsThenJumps(code', a, |c1|, 0, x, |c3|, e.w, fuel);
        ArriveFrom(code', Config(cur, |c0[cur]|, w), Config(|c1|, 0, e.w), y, Exec(a, e.w, fuel));
      }
    }
  }

  lemma IfElseGrown(c0: Code, c1: Code, c3: Code, c5: Code, c7: Code, c: Cond, a: Stmt, b: Stmt, cur: nat,
                    trues: seq<Hole>, falses: seq<Hole>, x: Exits, y: Exits)
    requires CondVisited(c0, c1, c, cur, trues, falses) && StmtVisited(c1 + [[]], c3, a, |c1|, x)
    requires StmtVisited(c3 + [[]], c5, b, |c3|, y)
    requires
      var c6 := c5 + [[]];
      var c6' := c6[x.block := c6[x.block] + [Jump(|c5|)]];
      c7 == c6'[y.block := c6'[y.block] + [Jump(|c5|)]]
    ensures Grows(c0, c7, cur) && OpenExactly(c0, c7, trues + falses)
    ensures Refines(c1, c7) && Refines(c3, c7) && Refines(c5, c7)
    ensures HasJump(c7, x.block, x.index, |c5|) && HasJump(c7, y.block, y.index, |c5|)
    ensures |c5| < |c7| && c7[|c5|] == []
    ensures AllOpen(c7, trues) && DistinctHoles(trues) && DistinctHoles(falses)
    ensures forall c', t :: Patched(c7, c', trues, t) ==> AllOpen(c', falses)
  {
    var tf := trues + falses;
    var c6 := c5 + [[]];
    var c6' := c6[x.block := c6[x.block] + [Jump(|c5|)]];
    BlockKeeps(c0, c1, cur, tf);
    StmtKeeps(c0, c1 + [[]], c3, cur, |c1|, tf);
    BlockKeeps(c0, c3, cur, tf);
    StmtKeeps(c0, c3 + [[]], c5, cur, |c3|, tf);
    BlockKeeps(c0, c5, cur, tf);
    AppendKeeps(c0, c6, x.block, Jump(|c5|), cur, tf);
    AppendKeeps(c0, c6', y.block, Jump(|c5|), cur, tf);
    RefinesTrans(c6, c6', c7);
    RefinesTrans(c5, c6, c7);
    RefinesTrans(c3 + [[]], c5, c7);
    RefinesTrans(c3, c3 + [[]], c7);
    RefinesTrans(c1 + [[]], c3, c7);
    RefinesTrans(c1, c1 + [[]], c7);
    BothOpen(c0, c7, trues, falses);
  }

  lemma IfElseVisited(c0: Code, c1: Code, c3: Code, c5: Code, c7: Code, c8: Code, c9: Code, c: Cond, a: Stmt, b: Stmt,
                      cur: nat, trues: seq<Hole>, falses: seq<Hole>, x: Exits, y: Exits)
    requires CondVisited(c0, c1, c, cur, trues, falses) && StmtVisited(c1 + [[]], c3, a, |c1|, x)
    requires StmtVisited(c3 + [[]], c5, b, |c3|, y) && x.brk == y.brk && x.cont == y.cont
    requires Grows(c0, c7, cur) && OpenExactly(c0, c7, trues + falses)
    requires Refines(c1, c7) && Refines(c3, c7) && Refines(c5, c7)
    requires HasJump(c7, x.block, x.index, |c5|) && HasJump(c7, y.block, y.index, |c5|)
    requires |c5| < |c7| && c7[|c5|] == []
    requires Patched(c7, c8, trues, |c1|) && Patched(c8, c9, falses, |c3|)
    ensures StmtVisited(c0, c9, IfElse(c, a, b), cur, Exits(|c5|, 0, x.brk, x.cont)) && |c9| == |c7| && c9[|c5|] == []
  {
    var z := Exits(|c5|, 0, x.brk, x.cont);
    Linked(c0, c7, c8, c9, cur, trues, |c1|, falses, |c3|);
    forall code', w, fuel: nat | Refines(c9, code') ensures StmtRuns(code', IfElse(c, a, b), cur, |c0[cur]|, z, w, fuel) {
      RefinesTrans(c7, c9, code');
      RefinesTrans(c1, c7, code');
      RefinesTrans(c3, c7, code');
      RefinesTrans(c5, c7, code');
      AllAtRefines(c9, code', trues, |c1|);
      AllAtRefines(c9, code', falses, |c3|);
      HasJumpRefines(c7, code', x.block, x.index, |c5|);
      HasJumpRefines(c7, code', y.block, y.index, |c5|);
      assert CondRuns(code', c, cur, |c0[cur]|, |c1|, |c3|, w);
      var e := Eval(c, w);
      if e.value { RunsThenJumps(code', a, |c1|, 0, x, |c5|, e.w, fuel); }
      else { RunsThenJumps(code', b, |c3|, 0, y, |c5|, e.w, fuel); }
      IfRuns(code', c, a, b, cur, |c0[cur]|, |c1|, |c3|, z, w, fuel);
    }
  }

  lemma WhileGrown(c0: Code, c2: Code, c3: Code, c5: Code, c7: Code, c: Cond, a: Stmt, cur: nat,
                   trues: seq<Hole>, falses: seq<Hole>, x: Exits)
    requires cur < |c0| && c2 == (c0 + [[]])[cur := (c0 + [[]])[cur] + [Jump(|c0|)]]
    requires CondVisited(c2, c3, c, |c0|, trues, falses) && StmtVisited(c3 + [[]] + [[]] + [[]], c5, a, |c3| + 1, x)
    requires
      var c6 := c5[x.block := c5[x.block] + [Jump(|c3| + 2)]];
      c7 == c6[|c3| + 2 := c6[|c3| + 2] + [Jump(|c0|)]]
    ensures Grows(c0, c2, cur) && OpenExactly(c0, c2, []) && HasJump(c2, cur, |c0[cur]|, |c0|)
    ensures Grows(c2, c7, |c0|) && OpenExactly(c2, c7, trues + falses) && Refines(c3, c7) && Refines(c5, c7)
    ensures HasJump(c7, x.block, x.index, |c3| + 2) && HasJump(c7, |c3| + 2, 0, |c0|)
    ensures |c3| < |c7| && c7[|c3|] == []
    ensures AllOpen(c7, trues) && DistinctHoles(trues) && DistinctHoles(falses)
    ensures forall c', t :: Patched(c7, c', trues, t) ==> AllOpen(c', falses)
  {
    hide Open, NewHoles, CondOk, StmtOk, Refines, DistinctHoles, AllOpen, OpenExactly, Patched, Grows;
    var tf := trues + falses;
    var c4 := c3 + [[]] + [[]] + [[]];
    var c6 := c5[x.block := c5[x.block] + [Jump(|c3| + 2)]];
    GrowsSelf(c0, cur);
    BlockKeeps(c0, c0, cur, []);
    AppendKeeps(c0, c0 + [[]], cur, Jump(|c0|), cur, []);
    StmtSizes(c4, c5, a, |c3| + 1, x);
    BlockKeeps(c2, c3, |c0|, tf);
    BlockKeeps(c2, c3 + [[]], |c0|, tf);
    BlockKeeps(c2, c3 + [[]] + [[]], |c0|, tf);
    StmtKeeps(c2, c4, c5, |c0|, |c3| + 1, tf);
    AppendKeeps(c2, c5, x.block, Jump(|c3| + 2), |c0|, tf);
    AppendKeeps(c2, c6, |c3| + 2, Jump(|c0|), |c0|, tf);
    assert c5[|c3| + 2] == c4[|c3| + 2] == [] && c5[|c3|] == c4[|c3|] == [];
    RefinesTrans(c5, c6, c7);
    RefinesTrans(c4, c5, c7);
    RefinesTrans(c3 + [[]], c3 + [[]] + [[]], c4);
    RefinesTrans(c3, c3 + [[]], c4);
    RefinesTrans(c3, c4, c7);
    BothOpen(c2, c7, trues, falses);
  }

  lemma WhileVisited(c0: Code, c2: Code, c3: Code, c5: Code, c7: Code, c8: Code, c9: Code, c: Cond, a: Stmt, cur: nat,
                     trues: seq<Hole>, falses: seq<Hole>, x: Exits, brk: int, cont: int)
    requires cur < |c0| && Grows(c0, c2, cur) && OpenExactly(c0, c2, []) && HasJump(c2, cur, |c0[cur]|, |c0|)
    requires |c2| == |c0| + 1 && c2[|c0|] == []
    requires CondVisited(c2, c3, c, |c0|, trues, falses) && StmtVisited(c3 + [[]] + [[]] + [[]], c5, a, |c3| + 1, x)
    requires x.brk == |c3| && x.cont == |c3| + 2
    requires Grows(c2, c7, |c0|) && OpenExactly(c2, c7, trues + falses) && Refines(c3, c7) && Refines(c5, c7)
    requires HasJump(c7, x.block, x.index, |c3| + 2) && HasJump(c7, |c3| + 2, 0, |c0|)
    requires |c3| < |c7| && c7[|c3|] == []
    requires Patched(c7, c8, trues, |c3| + 1) && Patched(c8, c9, falses, |c3|)
    ensures StmtVisited(c0, c9, While(c, a), cur, Exits(|c3|, 0, brk, cont)) && |c9| == |c7| && c9[|c3|] == []
  {
    var ce, be, jb, out := |c0|, |c3| + 1, |c3| + 2, |c3|;
    var z := Exits(out, 0, brk, cont);
    Linked(c2, c7, c8, c9, ce, trues, be, falses, out);
    StmtKeeps(c0, c2, c9, cur, ce, []);
    forall code', w, fuel: nat | Refines(c9, code') ensures StmtRuns(code', While(c, a), cur, |c0[cur]|, z, w, fuel) {
      RefinesTrans(c7, c9, code');
      RefinesTrans(c3, c7, code');
      RefinesTrans(c5, c7, code');
      RefinesTrans(c2, c9, code');
      AllAtRefines(c9, code', trues, be);
      AllAtRefines(c9, code', falses, out);
      HasJumpRefines(c7, code', x.block, x.index, jb);
      HasJumpRefines(c7, code', jb, 0, ce);
      HasJumpRefines(c2, code', cur, |c0[cur]|, ce);
      forall v ensures CondRuns(code', c, ce, 0, be, out, v) { }
      forall v, n: nat ensures StmtRuns(code', a, be, 0, Exits(jb, 0, out, jb), v, n) {
        RunsThenJumps(code', a, be, 0, x, jb, v, n);
      }
      WhileRuns(code', c, a, ce, be, jb, out, z, w, fuel);
      JumpReaches(code', cur, |c0[cur]|, ce, w);
      ArriveFrom(code', Config(cur, |c0[cur]|, w), Config(ce, 0, w), z, Exec(While(c, a), w, fuel));
    }
  }
}
