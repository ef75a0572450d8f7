/** Branches between neighbouring blocks turned into straight-line or conditional code
    (src/arm/opt/eliminate_branch.cpp). */
module EliminateBranch {
  // ----- conditions and flags -----

  datatype Cond = Always | Eq | Ne | Ge | Gt | Le | Lt

  /** The outcome of the last comparison. */
  datatype Flags = Flags(less: bool, equal: bool)

  predicate Holds(c: Cond, f: Flags) {
    match c
    case Always => true
    case Eq => f.equal
    case Ne => !f.equal
    case Ge => !f.less
    case Gt => !f.less && !f.equal
    case Le => f.less || f.equal
    case Lt => f.less
  }

  /** `logical_not` */
  function Negated(c: Cond): Cond
    requires c != Always
  {
    match c
    case Eq => Ne
    case Ne => Eq
    case Ge => Lt
    case Gt => Le
    case Le => Gt
    case Lt => Ge
  }

  lemma NegatedHolds(c: Cond, f: Flags)
    requires c != Always
    ensures Holds(Negated(c), f) <==> !Holds(c, f)
  { }

  // ----- code -----

  /** Instructions that honour their condition; `sets` says that an operation changes the flags. */
  datatype Inst =
    | Plain(op: int, cond: Cond, sets: bool)
    | Branch(cond: Cond, target: nat)
    | Return(cond: Cond)

  /** Blocks in the order in which control falls from one to the next. */
  type Layout = seq<seq<Inst>>

  /** What operations do to registers and memory, and to the flags. */
  datatype Semantics = Semantics(run: (int, int) -> int, flags: (int, int) -> Flags)

  datatype Config = At(block: nat, index: nat, m: int, f: Flags) | Halted(m: int)

  function Step(code: Layout, sem: Semantics, c: Config): Config {
    if c.Halted? then c
    else if c.block >= |code| then Halted(c.m)
    else if c.index >= |code[c.block]| then At(c.block + 1, 0, c.m, c.f)
    else
      var i := code[c.block][c.index];
      if !Holds(i.cond, c.f) then c.(index := c.index + 1)
      else
        match i
        case Plain(op, _, sets) =>
          At(c.block, c.index + 1, sem.run(op, c.m), if sets then sem.flags(op, c.m) else c.f)
        case Branch(_, t) => At(t, 0, c.m, c.f)
        case Return(_) => Halted(c.m)
  }

  function Run(code: Layout, sem: Semantics, c: Config, n: nat): Config {
    if n == 0 then c else Step(code, sem, Run(code, sem, c, n - 1))
  }

  // ----- the three changes -----

  predicate NonEmpty(code: Layout) {
    forall b :: 0 <= b < |code| ==> code[b] != []
  }

  function Last(insts: seq<Inst>): Inst
    requires insts != []
  {
    insts[|insts| - 1]
  }

  /** No branch goes to block `b`: `in_deg_cnt == 0`. */
  predicate NoBranchTo(code: Layout, b: nat) {
    forall k, i :: 0 <= k < |code| && 0 <= i < |code[k]| ==> !(code[k][i].Branch? && code[k][i].target == b)
  }

  /** `EBNode::ok`, apart from the in-degree. */
  predicate Short(insts: seq<Inst>) {
    && |insts| <= 4
    && (forall i :: 0 <= i < |insts| ==> insts[i].cond == Always && !insts[i].Return?)
    && (forall i :: 0 <= i < |insts| - 1 ==> !(insts[i].Plain? && insts[i].sets))
  }

  /** Drop a branch to the next block; append a block that is only fallen into; make a skipped block conditional. */
  datatype Change = Drop(i: nat) | Join(i: nat) | Predicate(i: nat)

  predicate Applicable(code: Layout, ch: Change)
    requires NonEmpty(code)
  {
    && ch.i + 1 < |code|
    && var last := Last(code[ch.i]);
       match ch
       case Drop(i) => last.Branch? && last.target == i + 1
       case Join(i) => !last.Branch? && NoBranchTo(code, i + 1)
       case Predicate(i) =>
         && i + 2 < |code| && last.Branch? && last.target == i + 2 && last.cond != Always
         && Short(code[i + 1]) && NoBranchTo(code, i + 1)
  }

  function WithCond(insts: seq<Inst>, c: Cond): (out: seq<Inst>)
    ensures |out| == |insts| && forall k :: 0 <= k < |insts| ==> out[k] == insts[k].(cond := c)
  {
    seq(|insts|, k requires 0 <= k < |insts| => insts[k].(cond := c))
  }

  function Applied(code: Layout, ch: Change): Layout
    requires NonEmpty(code) && Applicable(code, ch)
  {
    var n := |code[ch.i]| - 1;
    match ch
    case Drop(i) => code[i := code[i][..n]]
    case Join(i) => code[i := code[i] + code[i + 1]][i + 1 := []]
    case Predicate(i) => code[i := code[i][..n]][i + 1 := WithCond(code[i + 1], Negated(code[i][n].cond))]
  }

  /** A conditional branch over a block of up to four unconditional operations that leave the flags alone and that
      nothing else jumps to. */
  predicate SkipsFew(code: Layout, i: nat)
    requires NonEmpty(code)
  {
    && i + 2 < |code|
    && Last(code[i]).Branch? && Last(code[i]).target == i + 2 && Last(code[i]).cond != Always
    && |code[i + 1]| <= 4 && NoBranchTo(code, i + 1) && AllPlain(code[i + 1])
  }

  predicate AllPlain(insts: seq<Inst>) {
    forall k :: 0 <= k < |insts| ==> insts[k].Plain? && insts[k].cond == Always && !insts[k].sets
  }

  lemma SkipsFewApplies(code: Layout, i: nat)
    requires NonEmpty(code) && SkipsFew(code, i)
    ensures Applicable(code, Predicate(i))
  { }

  /** One round: the first change that applies. */
  method Eliminate(code: Layout) returns (out: Layout, worked: bool)
    requires NonEmpty(code)
    ensures worked ==> exists ch :: Applicable(code, ch) && out == Applied(code, ch)
    ensures !worked ==> out == code && forall ch :: !Applicable(code, ch)
    ensures !worked ==> forall i :: 0 <= i < |code| ==> !SkipsFew(code, i)
  {
    out := code;
    for i := 0 to |code|
      invariant out == code
      invariant forall ch: Change :: ch.i < i ==> !Applicable(code, ch)
    {
      var last := Last(code[i]);
      if i + 1 >= |code| { continue; }
      if last.Branch? && last.target == i + 1 {
        assert Applicable(code, Drop(i));
        return code[i := code[i][..|code[i]| - 1]], true;
      } else if !last.Branch? && NoBranchTo(code, i + 1) {
        assert Applicable(code, Join(i));
        return code[i := code[i] + code[i + 1]][i + 1 := []], true;
      }
      if i + 2 >= |code| { continue; }
      if !last.Branch? || last.target != i + 2 { continue; }
      if !Short(code[i + 1]) || !NoBranchTo(code, i + 1) { continue; }
      if last.cond == Always { continue; }
      assert Applicable(code, Predicate(i));
      return code[i := code[i][..|code[i]| - 1]][i + 1 := WithCond(code[i + 1], Negated(last.cond))], true;
    }
    worked := false;
    forall i | 0 <= i < |code| ensures !SkipsFew(code, i) {
      if SkipsFew(code, i) { SkipsFewApplies(code, i); }
    }
  }

  // ----- simulation -----

  /** Where the changed code is when the original is at `c`. */
  function Moved(code: Layout, ch: Change, c: Config): Config
    requires NonEmpty(code) && Applicable(code, ch)
  {
    if c.Halted? then c
    else if ch.Join? then
      if c.block == ch.i + 1 then c.(block := ch.i, index := |code[ch.i]| + c.index) else c
    else if c.block == ch.i && c.index == |code[ch.i]| then c.(index := c.index - 1)
    else c
  }

  /** Positions stay within blocks, and in the conditional part the branch condition is false. */
  ghost predicate Fits(code: Layout, ch: Change, c: Config)
    requires NonEmpty(code) && Applicable(code, ch)
  {
    c.Halted? ||
    (&& (c.block < |code| ==> c.index <= |code[c.block]|)
     && (c.block >= |code| ==> c.index == 0)
     && (ch.Predicate? && c.block == ch.i && c.index == |code[ch.i]| ==> !Holds(Last(code[ch.i]).cond, c.f))
     && (ch.Predicate? && c.block == ch.i + 1 && c.index < |code[ch.i + 1]| ==> !Holds(Last(code[ch.i]).cond, c.f)))
  }

  lemma {:induction false} RunPlus(code: Layout, sem: Semantics, c: Config, m: nat, n: nat)
    ensures Run(code, sem, c, m + n) == Run(code, sem, Run(code, sem, c, m), n)
  {
    if n > 0 { RunPlus(code, sem, c, m, n - 1); }
  }

  /** Instructions whose condition does not hold are passed over. */
  lemma {:induction false} SkipAll(code: Layout, sem: Semantics, b: nat, k: nat, m: int, f: Flags)
    requires b < |code| && k <= |code[b]|
    requires forall i :: 0 <= i < |code[b]| ==> !Holds(code[b][i].cond, f)
    ensures Run(code, sem, At(b, 0, m, f), k) == At(b, k, m, f)
  {
    if k > 0 { SkipAll(code, sem, b, k - 1, m, f); }
  }

  lemma StepFits(code: Layout, ch: Change, sem: Semantics, c: Config)
    requires NonEmpty(code) && Applicable(code, ch) && Fits(code, ch, c)
    ensures Fits(code, ch, Step(code, sem, c))
  { }

  /** Positions where the original takes a step that the changed code has no instruction for. */
  predicate Stutters(code: Layout, ch: Change, c: Config)
    requires NonEmpty(code) && Applicable(code, ch)
  {
    && c.At? && c.block == ch.i
    && if ch.Join? then c.index == |code[ch.i]|
       else c.index == |code[ch.i]| - 1 && !Holds(Last(code[ch.i]).cond, c.f)
  }

  lemma DropStep(code: Layout, ch: Change, sem: Semantics, c: Config)
    requires NonEmpty(code) && Applicable(code, ch) && ch.Drop? && Fits(code, ch, c)
    ensures
      var out, d := Applied(code, ch), Moved(code, ch, c);
      Moved(code, ch, Step(code, sem, c)) == if Stutters(code, ch, c) then d else Step(out, sem, d)
  { }

  lemma JoinStep(code: Layout, ch: Change, sem: Semantics, c: Config)
    requires NonEmpty(code) && Applicable(code, ch) && ch.Join? && Fits(code, ch, c)
    requires !(c.At? && c.block == ch.i + 1 && c.index == |code[c.block]|)
    ensures
      var out, d := Applied(code, ch), Moved(code, ch, c);
      Moved(code, ch, Step(code, sem, c)) == if Stutters(code, ch, c) then d else Step(out, sem, d)
  { }

  lemma PredicateStep(code: Layout, ch: Change, sem: Semantics, c: Config)
    requires NonEmpty(code) && Applicable(code, ch) && ch.Predicate? && Fits(code, ch, c)
    requires !(c.At? && c.block == ch.i && c.index == |code[ch.i]| - 1 && Holds(Last(code[ch.i]).cond, c.f))
    ensures
      var out, d := Applied(code, ch), Moved(code, ch, c);
      Moved(code, ch, Step(code, sem, c)) == if Stutters(code, ch, c) then d else Step(out, sem, d)
  {
    if c.At? && c.block == ch.i + 1 && c.index < |code[c.block]| {
      NegatedHolds(Last(code[ch.i]).cond, c.f);
    }
  }

  /** Leaving the joined block passes the block that has become empty. */
  lemma JoinLeave(code: Layout, ch: Change, sem: Semantics, c: Config)
    requires NonEmpty(code) && Applicable(code, ch) && ch.Join?
    requires c.At? && c.block == ch.i + 1 && c.index == |code[c.block]|
    ensures Run(Applied(code, ch), sem, Moved(code, ch, c), 2) == Moved(code, ch, Step(code, sem, c))
  {
    var out, d := Applied(code, ch), Moved(code, ch, c);
    assert Run(out, sem, d, 1) == Step(out, sem, Run(out, sem, d, 0));
  }

  /** A taken branch over the block becomes a walk through it with nothing executed. */
  lemma PredicateTaken(code: Layout, ch: Change, sem: Semantics, c: Config)
    requires NonEmpty(code) && Applicable(code, ch) && ch.Predicate? && Fits(code, ch, c)
    requires c.At? && c.block == ch.i && c.index == |code[ch.i]| - 1 && Holds(Last(code[ch.i]).cond, c.f)
    ensures Run(Applied(code, ch), sem, Moved(code, ch, c), |code[ch.i + 1]| + 2) == Moved(code, ch, Step(code, sem, c))
  {
    var out, d, n := Applied(code, ch), Moved(code, ch, c), |code[ch.i + 1]|;
    NegatedHolds(Last(code[ch.i]).cond, c.f);
    var e := At(ch.i + 1, 0, c.m, c.f);
    assert Run(out, sem, d, 1) == e by { assert Run(out, sem, d, 0) == d; }
    SkipAll(out, sem, ch.i + 1, n, c.m, c.f);
    RunPlus(out, sem, d, 1, n);
    assert Run(out, sem, d, n + 1) == At(ch.i + 1, n, c.m, c.f);
  }

  /** Each step of the original is matched by some steps of the changed code: none only where it stutters. */
  lemma StepMatches(code: Layout, ch: Change, sem: Semantics, c: Config) returns (k: nat)
    requires NonEmpty(code) && Applicable(code, ch) && Fits(code, ch, c)
    ensures Run(Applied(code, ch), sem, Moved(code, ch, c), k) == Moved(code, ch, Step(code, sem, c))
    ensures k == 0 ==> Stutters(code, ch, c)
  {
    var out, d := Applied(code, ch), Moved(code, ch, c);
    assert Run(out, sem, d, 0) == d && Run(out, sem, d, 1) == Step(out, sem, d) by {
      assert Run(out, sem, d, 1) == Step(out, sem, Run(out, sem, d, 0));
    }
    k := if Stutters(code, ch, c) then 0 else 1;
    if ch.Drop? {
      DropStep(code, ch, sem, c);
    } else if ch.Join? {
      if c.At? && c.block == ch.i + 1 && c.index == |code[c.block]| {
        JoinLeave(code, ch, sem, c);
        k := 2;
      } else {
        JoinStep(code, ch, sem, c);
      }
    } else if c.At? && c.block == ch.i && c.index == |code[ch.i]| - 1 && Holds(Last(code[ch.i]).cond, c.f) {
      PredicateTaken(code, ch, sem, c);
      k := |code[ch.i + 1]| + 2;
    } else {
      PredicateStep(code, ch, sem, c);
    }
  }

  lemma NoDoubleStutter(code: Layout, ch: Change, sem: Semantics, c: Config)
    requires NonEmpty(code) && Applicable(code, ch) && Fits(code, ch, c) && Stutters(code, ch, c)
    ensures !Stutters(code, ch, Step(code, sem, c))
  { }

  lemma NoSteps(code: Layout, sem: Semantics, c: Config)
    ensures Run(code, sem, c, 0) == c
  { }

  /** After `2 n` steps of the original the changed code, after at least `n` steps, is at the matching place with the
      same memory and flags. */
  lemma {:induction false} RunsMatch(code: Layout, ch: Change, sem: Semantics, c: Config, n: nat) returns (k: nat)
    requires NonEmpty(code) && Applicable(code, ch) && Fits(code, ch, c)
    ensures k >= n && Fits(code, ch, Run(code, sem, c, 2 * n))
    ensures Run(Applied(code, ch), sem, Moved(code, ch, c), k) == Moved(code, ch, Run(code, sem, c, 2 * n))
  {
    hide Applied, Moved, Fits, Stutters, Step, Applicable, NonEmpty;
    if n == 0 {
      k := 0;
      NoSteps(code, sem, c);
      NoSteps(Applied(code, ch), sem, Moved(code, ch, c));
    } else {
      var out, d := Applied(code, ch), Moved(code, ch, c);
      var k0 := RunsMatch(code, ch, sem, c, n - 1);
      var c0 := Run(code, sem, c, 2 * n - 2);
      var c1 := Step(code, sem, c0);
      var k1 := StepMatches(code, ch, sem, c0);
      StepFits(code, ch, sem, c0);
      var k2 := StepMatches(code, ch, sem, c1);
      StepFits(code, ch, sem, c1);
      if k1 == 0 { NoDoubleStutter(code, ch, sem, c0); }
      RunPlus(out, sem, d, k0, k1);
      RunPlus(out, sem, d, k0 + k1, k2);
      assert Run(code, sem, c, 2 * n - 1) == c1 && Run(code, sem, c, 2 * n) == Step(code, sem, c1);
      k := k0 + k1 + k2;
    }
  }

  lemma {:induction false} StaysHalted(code: Layout, sem: Semantics, c: Config, m: nat, n: nat)
    requires m <= n && Run(code, sem, c, m).Halted?
    ensures Run(code, sem, c, n) == Run(code, sem, c, m)
    decreases n
  {
    if m < n { StaysHalted(code, sem, c, m, n - 1); }
  }

  ghost predicate Ends(code: Layout, sem: Semantics, c: Config, m: int) {
    exists n: nat :: Run(code, sem, c, n) == Halted(m)
  }

  /** Runs from the first block end with the same memory before and after the change, or both go on forever. */
  lemma EliminateKeepsRuns(code: Layout, ch: Change, sem: Semantics, m0: int, f0: Flags, m: int)
    requires NonEmpty(code) && Applicable(code, ch)
    ensures Ends(code, sem, At(0, 0, m0, f0), m) <==> Ends(Applied(code, ch), sem, At(0, 0, m0, f0), m)
  {
    var c, out := At(0, 0, m0, f0), Applied(code, ch);
    assert Moved(code, ch, c) == c && Fits(code, ch, c);
    if Ends(code, sem, c, m) {
      var n: nat :| Run(code, sem, c, n) == Halted(m);
      var k := RunsMatch(code, ch, sem, c, n);
      StaysHalted(code, sem, c, n, 2 * n);
    }
    if Ends(out, sem, c, m) {
      var n: nat :| Run(out, sem, c, n) == Halted(m);
      var k := RunsMatch(code, ch, sem, c, n);
      StaysHalted(out, sem, c, n, k);
    }
  }
}
