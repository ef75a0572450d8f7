/** Dead-code elimination in the back end (src/arm/opt/dce.cpp). */
module DeadCode {
  import opened Liveness
  import opened MachineState

  /** An instruction with what else `dce` asks about it: other effects, and setting and reading the flags. */
  datatype Instr = Instr(i: Inst, effect: bool, sets: bool, tests: bool)

  function Plain(code: seq<Instr>): (out: seq<Inst>)
    ensures |out| == |code| && forall k :: 0 <= k < |code| ==> out[k] == code[k].i
  {
    seq(|code|, k requires 0 <= k < |code| => code[k].i)
  }

  /** The function as the liveness analysis sees it. */
  function PlainGraph(code: seq<seq<Instr>>, preds: seq<seq<nat>>): Graph {
    Graph(seq(|code|, b requires 0 <= b < |code| => Plain(code[b])), preds)
  }

  // ----- the pass on one block -----

  datatype Scan = Scan(code: seq<Instr>, live: set<Reg>, flags: bool)

  predicate Needed(x: Instr, live: set<Reg>, flags: bool) {
    || x.effect
    || (x.sets && flags)
    || exists r :: r in x.i.defs && (!Tracked(r) || r in live)
  }

  function Elems(regs: seq<Reg>): set<Reg> {
    set r | r in regs && Tracked(r)
  }

  /** What is left of the block, and what is live at its start, counting only what is left. */
  function Kept(code: seq<Instr>, live: set<Reg>): Scan {
    if code == [] then Scan([], live, false)
    else
      var s, x := Kept(code[1..], live), code[0];
      if Needed(x, s.live, s.flags) then
        Scan([x] + s.code, (s.live - Elems(x.i.defs)) + Elems(x.i.uses), (s.flags && !x.sets) || x.tests)
      else s
  }

  /** The backward loop over one block. */
  method DceBlock(code: seq<Instr>, out: set<Reg>) returns (left: seq<Instr>)
    ensures left == Kept(code, out).code
  {
    var live, flags, k := out, false, |code|;
    left := [];
    while k > 0
      invariant 0 <= k <= |code|
      invariant Scan(left, live, flags) == Kept(code[k..], out)
    {
      k := k - 1;
      assert code[k..][1..] == code[k + 1..];
      var x := code[k];
      if Needed(x, live, flags) {
        flags := (flags && !x.sets) || x.tests;
        live := (live - Elems(x.i.defs)) + Elems(x.i.uses);
        left := [x] + left;
      }
    }
    assert code[0..] == code;
  }

  // ----- execution -----

  /** Registers, flags, and the rest of the machine. */
  datatype State = State(regs: map<Reg, int>, flags: int, world: int)

  /** Any meaning of instructions: the values defined depend on the registers used, on the rest of the machine, and
      on the flags for an instruction that tests them; the rest changes only through effects. */
  datatype Semantics = Semantics(
    vals: (int, seq<int>, int, int) -> seq<int>,
    flags: (int, seq<int>, int, int) -> int,
    effect: (int, seq<int>, int, int) -> int,
    next: (nat, int) -> nat)

  function ExecOne(sem: Semantics, x: Instr, s: State): State {
    var uses, seen := ReadAll(s.regs, x.i.uses), if x.tests then s.flags else 0;
    State(WriteAll(s.regs, x.i.defs, sem.vals(x.i.op, uses, seen, s.world)),
          if x.sets then sem.flags(x.i.op, uses, seen, s.world) else s.flags,
          if x.effect then sem.effect(x.i.op, uses, seen, s.world) else s.world)
  }

  function ExecAll(sem: Semantics, code: seq<Instr>, s: State): State {
    if code == [] then s else ExecAll(sem, code[1..], ExecOne(sem, code[0], s))
  }

  // ----- one block -----

  /** The states agree on special registers, on the registers of a set, on the rest of the machine and, if asked, on
      the flags. */
  ghost predicate Agree(s: State, t: State, live: set<Reg>, flags: bool) {
    && s.world == t.world && (flags ==> s.flags == t.flags)
    && forall r :: !Tracked(r) || r in live ==> Get(s.regs, r) == Get(t.regs, r)
  }

  lemma {:induction false} WriteOther(regs: map<Reg, int>, defs: seq<Reg>, vals: seq<int>, r: Reg)
    requires r !in defs
    ensures Get(WriteAll(regs, defs, vals), r) == Get(regs, r)
  {
    if defs != [] {
      assert defs[|defs| - 1] in defs;
      WriteOther(regs, defs[..|defs| - 1], vals, r);
    }
  }

  lemma {:induction false} WriteSame(a: map<Reg, int>, b: map<Reg, int>, defs: seq<Reg>, vals: seq<int>, r: Reg)
    requires r in defs || Get(a, r) == Get(b, r)
    ensures Get(WriteAll(a, defs, vals), r) == Get(WriteAll(b, defs, vals), r)
  {
    if defs != [] {
      var n := |defs| - 1;
      assert defs == defs[..n] + [defs[n]];
      if r != defs[n] { WriteSame(a, b, defs[..n], vals, r); }
    }
  }

  /** Both sides execute an instruction that is kept. */
  lemma KeptStep(sem: Semantics, x: Instr, s: State, t: State, live: set<Reg>, flags: bool)
    requires Agree(s, t, (live - Elems(x.i.defs)) + Elems(x.i.uses), (flags && !x.sets) || x.tests)
    ensures Agree(ExecOne(sem, x, s), ExecOne(sem, x, t), live, flags)
  {
    forall k | 0 <= k < |x.i.uses| ensures Get(s.regs, x.i.uses[k]) == Get(t.regs, x.i.uses[k]) {
      var r := x.i.uses[k];
      assert r in x.i.uses;
      assert Tracked(r) ==> r in Elems(x.i.uses);
    }
    assert ReadAll(s.regs, x.i.uses) == ReadAll(t.regs, x.i.uses);
    var vals := sem.vals(x.i.op, ReadAll(s.regs, x.i.uses), if x.tests then s.flags else 0, s.world);
    forall r | !Tracked(r) || r in live
      ensures Get(WriteAll(s.regs, x.i.defs, vals), r) == Get(WriteAll(t.regs, x.i.defs, vals), r)
    {
      WriteSame(s.regs, t.regs, x.i.defs, vals, r);
    }
  }

  /** Only the original executes an instruction that is dropped. */
  lemma DroppedStep(sem: Semantics, x: Instr, s: State, t: State, live: set<Reg>, flags: bool)
    requires !Needed(x, live, flags) && Agree(s, t, live, flags)
    ensures Agree(ExecOne(sem, x, s), t, live, flags)
  {
    var vals := sem.vals(x.i.op, ReadAll(s.regs, x.i.uses), if x.tests then s.flags else 0, s.world);
    forall r | !Tracked(r) || r in live ensures Get(WriteAll(s.regs, x.i.defs, vals), r) == Get(t.regs, r) {
      WriteOther(s.regs, x.i.defs, vals, r);
    }
  }

  lemma {:induction false} BlockAgrees(sem: Semantics, code: seq<Instr>, out: set<Reg>, s: State, t: State)
    requires Agree(s, t, Kept(code, out).live, Kept(code, out).flags)
    ensures Agree(ExecAll(sem, code, s), ExecAll(sem, Kept(code, out).code, t), out, false)
    decreases |code|
  {
    if code != [] {
      var x, k := code[0], Kept(code[1..], out);
      if Needed(x, k.live, k.flags) {
        KeptStep(sem, x, s, t, k.live, k.flags);
        assert ([x] + k.code)[1..] == k.code;
        BlockAgrees(sem, code[1..], out, ExecOne(sem, x, s), ExecOne(sem, x, t));
      } else {
        DroppedStep(sem, x, s, t, k.live, k.flags);
        BlockAgrees(sem, code[1..], out, ExecOne(sem, x, s), t);
      }
    }
  }

  // ----- the whole function -----

  /** The flags are read before they are set. */
  predicate FlagsExposed(code: seq<Instr>) {
    code != [] && (code[0].tests || (!code[0].sets && FlagsExposed(code[1..])))
  }

  lemma {:induction false} KeptFlags(code: seq<Instr>, out: set<Reg>)
    ensures Kept(code, out).flags ==> FlagsExposed(code)
  {
    if code != [] { KeptFlags(code[1..], out); }
  }

  /** Whatever the pass takes for live at the start of a block is live there. */
  lemma {:induction false} KeptLive(code: seq<Instr>, out: set<Reg>, r: Reg)
    requires r in Kept(code, out).live && forall q :: q in out ==> Tracked(q)
    ensures Tracked(r) && (Exposed(Plain(code), r) || (!Killed(Plain(code), r) && r in out))
    decreases |code|
  {
    if code != [] {
      assert Plain(code)[1..] == Plain(code[1..]);
      var k := Kept(code[1..], out);
      if r in k.live {
        KeptLive(code[1..], out, r);
        ExposedNotKilled(Plain(code[1..]), r);
      }
    }
  }

  /** A second pass over what is left drops nothing, at no point. */
  lemma {:induction false} KeptAgain(code: seq<Instr>, out: set<Reg>)
    ensures Kept(Kept(code, out).code, out) == Kept(code, out)
  {
    if code != [] {
      var s, x := Kept(code[1..], out), code[0];
      KeptAgain(code[1..], out);
      if Needed(x, s.live, s.flags) { assert ([x] + s.code)[1..] == s.code; }
    }
  }

  lemma {:induction false} KeptSuffix(left: seq<Instr>, out: set<Reg>, k: nat)
    requires Kept(left, out).code == left && k <= |left|
    ensures Kept(left[k..], out).code == left[k..]
    decreases k
  {
    if k == 0 {
      assert left[0..] == left;
    } else {
      KeptSuffix(left, out, k - 1);
      var rest := left[k - 1..];
      assert rest[1..] == left[k..];
      KeptShrinks(rest[1..], out);
      assert |Kept(rest, out).code| == |rest|;
    }
  }

  lemma {:induction false} KeptShrinks(code: seq<Instr>, out: set<Reg>)
    ensures |Kept(code, out).code| <= |code|
  {
    if code != [] { KeptShrinks(code[1..], out); }
  }

  /** Register `r` is read in the rest of a block before it is written, or reaches the end and is live there. */
  predicate LiveAfter(rest: seq<Instr>, out: set<Reg>, r: Reg) {
    Exposed(Plain(rest), r) || (!Killed(Plain(rest), r) && r in out)
  }

  /** Whatever is left has an effect, sets flags that what is left reads, or defines a register that is special or
      live in what is left. */
  lemma NothingIdle(code: seq<Instr>, out: set<Reg>, k: nat)
    requires k < |Kept(code, out).code| && forall q :: q in out ==> Tracked(q)
    ensures
      var left := Kept(code, out).code;
      || left[k].effect
      || (left[k].sets && FlagsExposed(left[k + 1..]))
      || exists r :: r in left[k].i.defs && (!Tracked(r) || LiveAfter(left[k + 1..], out, r))
  {
    var left := Kept(code, out).code;
    KeptAgain(code, out);
    KeptSuffix(left, out, k);
    var rest, tail := left[k..], left[k + 1..];
    assert rest[1..] == tail && rest[0] == left[k];
    KeptShrinks(tail, out);
    var s := Kept(tail, out);
    assert Needed(left[k], s.live, s.flags);
    KeptFlags(tail, out);
    if r :| r in left[k].i.defs && (!Tracked(r) || r in s.live) {
      if Tracked(r) { KeptLive(tail, out, r); }
    }
  }

  /** A function: blocks, incoming edges, and the blocks after the pass. */
  ghost predicate Passed(code: seq<seq<Instr>>, preds: seq<seq<nat>>, left: seq<seq<Instr>>) {
    && ValidGraph(PlainGraph(code, preds)) && |left| == |code|
    && exists liveOut :: ExactOut(PlainGraph(code, preds), liveOut) &&
         forall b :: 0 <= b < |code| ==> left[b] == Kept(code[b], liveOut[b]).code
  }

  /** `dce` */
  method Dce(code: seq<seq<Instr>>, preds: seq<seq<nat>>) returns (left: seq<seq<Instr>>)
    requires ValidGraph(PlainGraph(code, preds))
    ensures Passed(code, preds, left)
  {
    var g := PlainGraph(code, preds);
    var f := new Func(g);
    f.CalcLive();
    ghost var liveOut := f.liveOut;
    assert ExactOut(g, liveOut);
    left := [];
    for b := 0 to |code|
      invariant |left| == b && f.liveOut == liveOut
      invariant forall c :: 0 <= c < b ==> left[c] == Kept(code[c], liveOut[c]).code
    {
      var rest := DceBlock(code[b], f.liveOut[b]);
      left := left + [rest];
    }
  }

  datatype Config = Config(block: nat, s: State)

  /** One block, and on to the next one. */
  function StepBlock(code: seq<seq<Instr>>, sem: Semantics, c: Config): Config {
    if c.block >= |code| then c
    else
      var s := ExecAll(sem, code[c.block], c.s);
      Config(sem.next(c.block, s.world), s)
  }

  function Run(code: seq<seq<Instr>>, sem: Semantics, c: Config, n: nat): Config {
    if n == 0 then c else StepBlock(code, sem, Run(code, sem, c, n - 1))
  }

  /** At the same block, with the same memory, special registers and live registers. */
  ghost predicate Matches(g: Graph, c: Config, d: Config)
    requires ValidGraph(g)
  {
    && c.block == d.block && c.s.world == d.s.world
    && (c.block < |g.code| ==>
          forall r :: !Tracked(r) || LiveIn(g, c.block, r) ==> Get(c.s.regs, r) == Get(d.s.regs, r))
  }

  lemma BlockMatches(code: seq<seq<Instr>>, preds: seq<seq<nat>>, left: seq<seq<Instr>>, liveOut: seq<set<Reg>>,
                     sem: Semantics, c: Config, d: Config)
    requires ValidGraph(PlainGraph(code, preds)) && FollowsEdges(PlainGraph(code, preds), sem.next)
    requires ExactOut(PlainGraph(code, preds), liveOut) && |left| == |code|
    requires c.block < |code| && left[c.block] == Kept(code[c.block], liveOut[c.block]).code
    requires !FlagsExposed(code[c.block]) && Matches(PlainGraph(code, preds), c, d)
    ensures Matches(PlainGraph(code, preds), StepBlock(code, sem, c), StepBlock(left, sem, d))
  {
    var g, b := PlainGraph(code, preds), c.block;
    var out := liveOut[b];
    forall q | q in out ensures Tracked(q) {
      var t: nat :| Edge(g, b, t) && LiveIn(g, t, q);
    }
    KeptFlags(code[b], out);
    forall r | r in Kept(code[b], out).live ensures LiveIn(g, b, r) {
      KeptLive(code[b], out, r);
      if Exposed(g.code[b], r) {
        LiveInUse(g, b, r);
      } else {
        var t: nat :| Edge(g, b, t) && LiveIn(g, t, r);
        LiveInThrough(g, b, t, r);
      }
    }
    BlockAgrees(sem, code[b], out, c.s, d.s);
    var c', d' := StepBlock(code, sem, c), StepBlock(left, sem, d);
    if c'.block < |code| {
      assert Edge(g, b, c'.block);
      forall r | !Tracked(r) || LiveIn(g, c'.block, r) ensures Get(c'.s.regs, r) == Get(d'.s.regs, r) {
        if Tracked(r) { assert LiveOut(g, b, r); }
      }
    }
  }

  /** Dropping dead code keeps every run: the same blocks, the same memory effects, the same live registers;
      provided no block reads flags that an earlier block has set. */
  lemma {:induction false} DceKeepsRuns(code: seq<seq<Instr>>, preds: seq<seq<nat>>, left: seq<seq<Instr>>, sem: Semantics,
                                        start: Config, n: nat)
    requires Passed(code, preds, left) && FollowsEdges(PlainGraph(code, preds), sem.next)
    requires forall b :: 0 <= b < |code| ==> !FlagsExposed(code[b])
    ensures Matches(PlainGraph(code, preds), Run(code, sem, start, n), Run(left, sem, start, n))
  {
    if n > 0 {
      DceKeepsRuns(code, preds, left, sem, start, n - 1);
      var liveOut :| ExactOut(PlainGraph(code, preds), liveOut) &&
        forall b :: 0 <= b < |code| ==> left[b] == Kept(code[b], liveOut[b]).code;
      var c, d := Run(code, sem, start, n - 1), Run(left, sem, start, n - 1);
      if c.block < |code| { BlockMatches(code, preds, left, liveOut, sem, c, d); }
    }
  }
}
