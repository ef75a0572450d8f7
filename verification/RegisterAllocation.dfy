/** Register allocation from liveness to renamed code (`Func::allocate_register`, src/arm/func.cpp, and
    `Func::replace_with_reg_alloc`, src/arm/program.cpp): the renamed code does step by step what the code with
    pseudo registers does. */
module RegisterAllocation {
  import opened Liveness
  import opened MachineState
  import opened InterferenceGraph
  import opened ColoringState
  import opened Obstruction
  import opened CoalescingAllocator
  import opened SimpleColoring
  import opened SpillCosts

  // ----- renaming -----

  /** The colours of the two register classes. */
  datatype Coloring = Coloring(ints: map<nat, nat>, floats: map<nat, nat>)

  function Class(c: Coloring, float: bool): map<nat, nat> {
    if float then c.floats else c.ints
  }

  /** Only pseudo registers are renamed. */
  function Color(c: Coloring, r: Reg): Reg {
    if IsPseudo(r) && r.id in Class(c, r.float) then Reg(r.float, Class(c, r.float)[r.id]) else r
  }

  function Colors(c: Coloring, regs: seq<Reg>): (out: seq<Reg>)
    ensures |out| == |regs| && forall k :: 0 <= k < |regs| ==> out[k] == Color(c, regs[k])
  {
    seq(|regs|, k requires 0 <= k < |regs| => Color(c, regs[k]))
  }

  function RenamedInst(c: Coloring, i: Inst): Inst {
    Inst(i.op, Colors(c, i.defs), Colors(c, i.uses))
  }

  function RenamedCode(c: Coloring, code: seq<Inst>): seq<Inst> {
    seq(|code|, k requires 0 <= k < |code| => RenamedInst(c, code[k]))
  }

  function RenamedGraph(c: Coloring, g: Graph): Graph {
    Graph(seq(|g.code|, b requires 0 <= b < |g.code| => RenamedCode(c, g.code[b])), g.preds)
  }

  // ----- execution -----

  /** What an instruction computes: the values of its definitions and the rest of the machine (memory, flags). */
  datatype Effect = Effect(vals: seq<int>, world: int)

  /** Any meaning of instructions that depends only on the registers they use and on the rest of the machine, and
      any choice of successor blocks that depends only on the latter. */
  datatype Semantics = Semantics(eval: (int, seq<int>, int) -> Effect, next: (nat, int) -> nat)

  datatype Config = Config(block: nat, index: nat, regs: map<Reg, int>, world: int)

  function Step(g: Graph, sem: Semantics, s: Config): Config {
    if s.block >= |g.code| then s
    else if s.index < |g.code[s.block]| then
      var i := g.code[s.block][s.index];
      var e := sem.eval(i.op, ReadAll(s.regs, i.uses), s.world);
      Config(s.block, s.index + 1, WriteAll(s.regs, i.defs, e.vals), e.world)
    else Config(sem.next(s.block, s.world), 0, s.regs, s.world)
  }

  function Run(g: Graph, sem: Semantics, s: Config, n: nat): Config {
    if n == 0 then s else Step(g, sem, Run(g, sem, s, n - 1))
  }

  // ----- what has to agree -----

  /** `r` is live before instruction `i` of block `b`. */
  ghost predicate LiveAt(g: Graph, b: nat, i: nat, r: Reg)
    requires ValidGraph(g) && b < |g.code| && i <= |g.code[b]|
  {
    (Tracked(r) && Exposed(g.code[b][i..], r)) || (!Killed(g.code[b][i..], r) && LiveOut(g, b, r))
  }

  ghost predicate Matters(g: Graph, b: nat, i: nat, r: Reg)
    requires ValidGraph(g) && b < |g.code| && i <= |g.code[b]|
  {
    !Tracked(r) || LiveAt(g, b, i, r)
  }

  ghost predicate InScope(g: Graph, b: nat, i: nat, r: Reg)
    requires ValidGraph(g) && b < |g.code| && i < |g.code[b]|
  {
    Matters(g, b, i + 1, r) || r in g.code[b][i].defs
  }

  /** Registers that are live or defined together keep apart. */
  ghost predicate Distinguishes(g: Graph, c: Coloring)
    requires ValidGraph(g)
  {
    forall b: nat, i: nat, r, q ::
      b < |g.code| && i < |g.code[b]| && InScope(g, b, i, r) && InScope(g, b, i, q) && r != q ==>
        Color(c, r) != Color(c, q)
  }

  ghost predicate AgreeOn(c: Coloring, s: map<Reg, int>, m: map<Reg, int>, r: Reg) {
    Get(m, Color(c, r)) == Get(s, r)
  }

  /** Both programs are at the same place with the same memory, and every register that matters has the same
      value. */
  ghost predicate Related(g: Graph, c: Coloring, s: Config, m: Config)
    requires ValidGraph(g)
  {
    && s.block == m.block && s.index == m.index && s.world == m.world
    && (s.block < |g.code| ==> s.index <= |g.code[s.block]|)
    && (s.block < |g.code| ==> forall r :: Matters(g, s.block, s.index, r) ==> AgreeOn(c, s.regs, m.regs, r))
  }

  // ----- simulation -----

  lemma {:induction false} WritesAgree(c: Coloring, s: map<Reg, int>, m: map<Reg, int>, defs: seq<Reg>, vals: seq<int>, r: Reg)
    requires r !in defs ==> AgreeOn(c, s, m, r)
    requires forall d :: d in defs && d != r ==> Color(c, d) != Color(c, r)
    ensures AgreeOn(c, WriteAll(s, defs, vals), WriteAll(m, Colors(c, defs), vals), r)
  {
    if defs != [] {
      var n := |defs| - 1;
      assert Colors(c, defs)[..n] == Colors(c, defs[..n]);
      assert defs == defs[..n] + [defs[n]];
      if defs[n] != r { WritesAgree(c, s, m, defs[..n], vals, r); }
    }
  }

  lemma LiveStep(g: Graph, b: nat, i: nat, r: Reg)
    requires ValidGraph(g) && b < |g.code| && i < |g.code[b]|
    ensures Tracked(r) && r in g.code[b][i].uses ==> LiveAt(g, b, i, r)
    ensures LiveAt(g, b, i + 1, r) && r !in g.code[b][i].defs ==> LiveAt(g, b, i, r)
  {
    var code := g.code[b][i..];
    assert code[0] == g.code[b][i] && code[1..] == g.code[b][i + 1..];
  }

  lemma LiveAtStart(g: Graph, b: nat, r: Reg)
    requires ValidGraph(g) && b < |g.code|
    ensures LiveAt(g, b, 0, r) ==> LiveIn(g, b, r)
  {
    assert g.code[b][0..] == g.code[b];
    if LiveAt(g, b, 0, r) {
      if Exposed(g.code[b], r) && Tracked(r) {
        LiveInUse(g, b, r);
      } else {
        var s: nat :| Edge(g, b, s) && LiveIn(g, s, r);
        LiveInThrough(g, b, s, r);
      }
    }
  }

  lemma InstRelated(g: Graph, c: Coloring, sem: Semantics, s: Config, m: Config)
    requires ValidGraph(g) && Distinguishes(g, c) && Related(g, c, s, m)
    requires s.block < |g.code| && s.index < |g.code[s.block]|
    ensures Related(g, c, Step(g, sem, s), Step(RenamedGraph(c, g), sem, m))
  {
    var b, k := s.block, s.index;
    var i := g.code[b][k];
    var i' := RenamedGraph(c, g).code[b][k];
    assert i' == RenamedInst(c, i);
    forall j | 0 <= j < |i.uses| ensures Get(m.regs, i'.uses[j]) == Get(s.regs, i.uses[j]) {
      LiveStep(g, b, k, i.uses[j]);
      assert Matters(g, b, k, i.uses[j]);
    }
    assert ReadAll(m.regs, i'.uses) == ReadAll(s.regs, i.uses);
    var e := sem.eval(i.op, ReadAll(s.regs, i.uses), s.world);
    forall r | Matters(g, b, k + 1, r)
      ensures AgreeOn(c, WriteAll(s.regs, i.defs, e.vals), WriteAll(m.regs, i'.defs, e.vals), r)
    {
      LiveStep(g, b, k, r);
      assert InScope(g, b, k, r);
      forall d | d in i.defs && d != r ensures Color(c, d) != Color(c, r) { assert InScope(g, b, k, d); }
      if r !in i.defs { assert Matters(g, b, k, r); }
      WritesAgree(c, s.regs, m.regs, i.defs, e.vals, r);
    }
  }

  lemma JumpRelated(g: Graph, c: Coloring, sem: Semantics, s: Config, m: Config)
    requires ValidGraph(g) && FollowsEdges(g, sem.next) && Related(g, c, s, m)
    requires s.block < |g.code| && s.index == |g.code[s.block]|
    ensures Related(g, c, Step(g, sem, s), Step(RenamedGraph(c, g), sem, m))
  {
    var t := sem.next(s.block, s.world);
    if t < |g.code| {
      assert Edge(g, s.block, t);
      forall r | Matters(g, t, 0, r) ensures AgreeOn(c, s.regs, m.regs, r) {
        LiveAtStart(g, t, r);
        assert g.code[s.block][s.index..] == [];
        assert Matters(g, s.block, s.index, r);
      }
    }
  }

  lemma {:induction false} RunRelated(g: Graph, c: Coloring, sem: Semantics, s: Config, m: Config, n: nat)
    requires ValidGraph(g) && FollowsEdges(g, sem.next) && Distinguishes(g, c) && Related(g, c, s, m)
    ensures Related(g, c, Run(g, sem, s, n), Run(RenamedGraph(c, g), sem, m, n))
  {
    if n > 0 {
      RunRelated(g, c, sem, s, m, n - 1);
      var s', m' := Run(g, sem, s, n - 1), Run(RenamedGraph(c, g), sem, m, n - 1);
      if s'.block < |g.code| {
        if s'.index < |g.code[s'.block]| { InstRelated(g, c, sem, s', m'); } else { JumpRelated(g, c, sem, s', m'); }
      }
    }
  }

  /** Allocation preserves execution: started alike, the two programs stay at the same place with the same memory
      forever, and hold the same values in all live registers. */
  lemma AllocationPreservesExecution(g: Graph, c: Coloring, sem: Semantics, start: Config, n: nat)
    requires ValidGraph(g) && FollowsEdges(g, sem.next) && Distinguishes(g, c)
    requires start.block < |g.code| && start.index == 0
    requires forall r :: LiveIn(g, start.block, r) ==> !IsPseudo(r)
    ensures Related(g, c, Run(g, sem, start, n), Run(RenamedGraph(c, g), sem, start, n))
  {
    forall r | Matters(g, start.block, 0, r) ensures Color(c, r) == r { LiveAtStart(g, start.block, r); }
    RunRelated(g, c, sem, start, start, n);
  }

  // ----- proper colourings distinguish -----

  lemma {:induction false} LiveAtIsLiveBefore(g: Graph, b: nat, i: nat, r: Reg, out: set<Reg>)
    requires ValidGraph(g) && b < |g.code| && i <= |g.code[b]| && Tracked(r)
    requires r in out <==> LiveOut(g, b, r)
    ensures LiveAt(g, b, i, r) <==> r.id in LiveBefore(r.float, g.code[b], IdSet(r.float, out), i)
    decreases |g.code[b]| - i
  {
    var code := g.code[b];
    ExposedNotKilled(code[i..], r);
    if i == |code| {
      assert code[i..] == [];
      assert r.id in IdSet(r.float, out) <==> r in out by {
        if r.id in IdSet(r.float, out) {
          var q :| q in out && q.float == r.float && q.id == r.id;
          assert q == r;
        }
      }
    } else {
      assert code[i..][0] == code[i] && code[i..][1..] == code[i + 1..];
      LiveAtIsLiveBefore(g, b, i + 1, r, out);
      assert Reg(r.float, r.id) == r;
    }
  }

  /** The interference graph of one class separates what is live or defined together. */
  ghost predicate Covers(float: bool, g: Graph, liveOut: seq<set<Reg>>, adj: Adj) {
    && |liveOut| == |g.code|
    && forall b :: 0 <= b < |g.code| ==> BlockCliques(float, adj, g.code[b], IdSet(float, liveOut[b]))
  }

  lemma InScopeNode(g: Graph, liveOut: seq<set<Reg>>, b: nat, i: nat, r: Reg)
    requires ValidGraph(g) && ExactOut(g, liveOut) && b < |g.code| && i < |g.code[b]| && Tracked(r)
    requires InScope(g, b, i, r)
    ensures r.id in AtInst(r.float, g.code[b], IdSet(r.float, liveOut[b]), i)
  {
    LiveAtIsLiveBefore(g, b, i + 1, r, liveOut[b]);
    assert Reg(r.float, r.id) == r;
    if r in g.code[b][i].defs { assert r.id in Ids(r.float, g.code[b][i].defs); }
  }

  lemma ProperColor(p: Problem, c: Coloring, r: Reg)
    requires Proper(p, Class(c, p.float)) && r.float == p.float && r.id in p.occur && Tracked(r)
    ensures Color(c, r) == Reg(r.float, Class(c, r.float)[r.id]) && Allocable(r.float, Color(c, r).id)
  { }

  lemma ProperSeparates(p: Problem, c: Coloring, g: Graph, liveOut: seq<set<Reg>>, b: nat, i: nat, r: Reg, q: Reg)
    requires ValidGraph(g) && ExactOut(g, liveOut) && b < |g.code| && i < |g.code[b]|
    requires Covers(p.float, g, liveOut, p.graph) && p.Valid() && Proper(p, Class(c, p.float))
    requires r.float == p.float && q.float == p.float && r != q && Tracked(r) && Tracked(q)
    requires InScope(g, b, i, r) && InScope(g, b, i, q)
    ensures Color(c, r) != Color(c, q)
  {
    InScopeNode(g, liveOut, b, i, r);
    InScopeNode(g, liveOut, b, i, q);
    assert Clique(p.graph, AtInst(p.float, g.code[b], IdSet(p.float, liveOut[b]), i));
    assert q.id in Neighbours(p.graph, r.id);
    ProperColor(p, c, r);
    ProperColor(p, c, q);
  }

  /** Colours are allocable, so never one of the special registers. */
  lemma ColorTracked(pi: Problem, pf: Problem, c: Coloring, r: Reg)
    requires Proper(pi, c.ints) && Proper(pf, c.floats) && !pi.float && pf.float && Tracked(r)
    ensures Tracked(Color(c, r)) && Color(c, r).float == r.float
  { }

  lemma ProperDistinguishes(pi: Problem, pf: Problem, c: Coloring, g: Graph, liveOut: seq<set<Reg>>)
    requires ValidGraph(g) && ExactOut(g, liveOut) && !pi.float && pf.float && pi.Valid() && pf.Valid()
    requires Covers(false, g, liveOut, pi.graph) && Covers(true, g, liveOut, pf.graph)
    requires Proper(pi, c.ints) && Proper(pf, c.floats)
    ensures Distinguishes(g, c)
  {
    forall b: nat, i: nat, r, q | b < |g.code| && i < |g.code[b]| && InScope(g, b, i, r) && InScope(g, b, i, q) && r != q
      ensures Color(c, r) != Color(c, q)
    {
      if Tracked(r) { ColorTracked(pi, pf, c, r); }
      if Tracked(q) { ColorTracked(pi, pf, c, q); }
      if Tracked(r) && Tracked(q) && r.float == q.float {
        ProperSeparates(if r.float then pf else pi, c, g, liveOut, b, i, r, q);
      }
    }
  }

  // ----- the whole allocation -----

  lemma MentionedTracked(float: bool, g: Graph, x: nat)
    requires MentionedIn(float, g, |g.code|, x)
    ensures Tracked(Reg(float, x))
  { }

  /** The problem of one class: the registers that the code mentions, two of them adjacent exactly when they are
      somewhere live together or one is live where the other is defined. */
  ghost predicate IsProblem(p: Problem, g: Graph, liveOut: seq<set<Reg>>) {
    && p.Valid() && ValidGraph(g) && ExactOut(g, liveOut)
    && (forall x :: x in p.occur <==> MentionedIn(p.float, g, |g.code|, x))
    && forall x, y :: y in Neighbours(p.graph, x) <==> x != y && Meet(p.float, g, liveOut, |g.code|, x, y)
  }

  /** One class (`reg_allocate`): liveness, interference graph, and one of the two colouring allocators. */
  method AllocateClass(coalescing: bool, float: bool, g: Graph, spilling: set<nat>, constants: set<nat>, costs: nat -> Cost)
    returns (r: Outcome, ghost p: Problem, ghost liveOut: seq<set<Reg>>)
    requires ValidGraph(g)
    ensures p.float == float && IsProblem(p, g, liveOut) && Covers(float, g, liveOut, p.graph)
    ensures r.Colored? ==> Proper(p, r.ans)
    ensures r.Rewrite? ==> r.spilled != [] && forall x :: x in r.spilled ==> x in p.occur && !p.Pre(x) && x !in spilling
    ensures r.Rewrite? ==> AllNeeded(p, r.spilled)
    ensures r.NoCandidate? ==> ObstructedIn(p, spilling)
    ensures !coalescing ==> (r.Colored? <==> !Tight(p))
    ensures p.PreOccur() == {} && !Tight(p) ==> r.Colored?
  {
    hide Meet, ObstructedIn, AllNeeded, Tight, Proper, AllocInv;
    var f := new Func(g);
    f.CalcLive();
    liveOut := f.liveOut;
    var b := new Builder();
    b.BuildGraph(float, g, f.liveOut);
    var problem := Problem(float, b.occur, b.adj);
    p := problem;
    forall x | x in p.occur && p.Pre(x) ensures Allocable(float, x) { MentionedTracked(float, g, x); }
    if coalescing {
      var allocator := new Allocator(problem, b.moves);
      r := allocator.Run(spilling, constants, costs);
    } else {
      var allocator := new SimpleAllocator(problem);
      r := allocator.Run(spilling, constants);
    }
  }

  lemma ExactOutUnique(g: Graph, out1: seq<set<Reg>>, out2: seq<set<Reg>>)
    requires ValidGraph(g) && ExactOut(g, out1) && ExactOut(g, out2)
    ensures out1 == out2
  {
    forall b | 0 <= b < |g.code| ensures out1[b] == out2[b] {
      forall r ensures r in out1[b] <==> r in out2[b] { }
    }
  }

  /** After renaming, the tracked registers of an instruction are allocable machine registers. */
  ghost predicate InMachine(c: Coloring, i: Inst) {
    forall r :: r in i.defs + i.uses && Tracked(r) ==> Allocable(r.float, Color(c, r).id)
  }

  lemma InstInMachine(pi: Problem, pf: Problem, c: Coloring, g: Graph, b: nat, k: nat)
    requires b < |g.code| && k < |g.code[b]| && !pi.float && pf.float
    requires Proper(pi, c.ints) && Proper(pf, c.floats)
    requires forall x :: x in pi.occur <==> MentionedIn(false, g, |g.code|, x)
    requires forall x :: x in pf.occur <==> MentionedIn(true, g, |g.code|, x)
    ensures InMachine(c, g.code[b][k])
  {
    forall r | r in g.code[b][k].defs + g.code[b][k].uses && Tracked(r) ensures Allocable(r.float, Color(c, r).id) {
      assert Reg(r.float, r.id) == r;
      assert Mentions(r.float, g.code[b], r.id);
      ProperColor(if r.float then pf else pi, c, r);
    }
  }

  /** A class that is not coloured is obstructed. */
  lemma GivenUp(p: Problem, r: Outcome, spilling: set<nat>)
    requires r.Rewrite? ==> r.spilled != [] && AllNeeded(p, r.spilled)
    requires r.NoCandidate? ==> ObstructedIn(p, spilling)
    ensures !r.Colored? ==> ObstructedIn(p, p.occur)
  {
    if r.Rewrite? { assert Needed(p, r.spilled, 0); }
  }

  datatype Attempt = Allocated(c: Coloring, code: Graph) | Retry

  /** Both classes: when neither spills, the code is renamed, and by `AllocationPreservesExecution` the renamed
      code behaves like the original. */
  method AllocateRegisters(coalescing: bool, g: Graph, spilling: set<Reg>, constants: set<Reg>, costs: Reg -> Cost)
    returns (r: Attempt, ghost pi: Problem, ghost pf: Problem, ghost liveOut: seq<set<Reg>>)
    requires ValidGraph(g)
    ensures !pi.float && IsProblem(pi, g, liveOut) && pf.float && IsProblem(pf, g, liveOut)
    ensures r.Retry? ==> ObstructedIn(pi, pi.occur) || ObstructedIn(pf, pf.occur)
    ensures !coalescing ==> (r.Allocated? <==> !Tight(pi) && !Tight(pf))
    ensures pi.PreOccur() == {} == pf.PreOccur() && !Tight(pi) && !Tight(pf) ==> r.Allocated?
    ensures r.Allocated? ==> r.code == RenamedGraph(r.c, g) && Distinguishes(g, r.c)
    ensures r.Allocated? ==> forall b, k :: 0 <= b < |g.code| && 0 <= k < |g.code[b]| ==> InMachine(r.c, g.code[b][k])
  {
    hide Meet, ObstructedIn, AllNeeded, Tight, Obstructs, RepOk;
    var ints, floats;
    ghost var outI, outF;
    ints, pi, outI := AllocateClass(coalescing, false, g, IdSet(false, spilling), IdSet(false, constants),
      (x: nat) => costs(Reg(false, x)));
    floats, pf, outF := AllocateClass(coalescing, true, g, IdSet(true, spilling), IdSet(true, constants),
      (x: nat) => costs(Reg(true, x)));
    ExactOutUnique(g, outI, outF);
    liveOut := outI;
    if !ints.Colored? || !floats.Colored? {
      r := Retry;
      GivenUp(pi, ints, IdSet(false, spilling));
      GivenUp(pf, floats, IdSet(true, spilling));
      return;
    }
    var c := Coloring(ints.ans, floats.ans);
    ProperDistinguishes(pi, pf, c, g, outI);
    forall b, k | 0 <= b < |g.code| && 0 <= k < |g.code[b]| ensures InMachine(c, g.code[b][k]) {
      InstInMachine(pi, pf, c, g, b, k);
    }
    r := Allocated(c, RenamedGraph(c, g));
  }
}
