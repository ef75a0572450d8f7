/** Rewrites of programs in strict single-assignment form that keep every run: one register for another of equal
    value, a constant for a computation, and dropping definitions nobody reads (what src/ir/opt/gvn.cpp does). */
module SsaRewrites {
  import opened Dominators
  import opened Ssa

  ghost predicate SameRuns(p: Prog, q: Prog) {
    forall sem: Sem, st: State, n: nat :: Run(p, sem, st, n) == Run(q, sem, st, n)
  }

  /** The same shape and the same registers defined in the same places. */
  ghost predicate SameDefs(p: Prog, q: Prog) {
    && p.g == q.g && |p.code| == |q.code|
    && (forall b :: 0 <= b < |p.code| ==> |p.code[b]| == |q.code[b]|)
    && (forall s :: ValidSite(p, s) ==> DefOf(At(p, s)) == DefOf(At(q, s)) && (At(p, s).Phi? <==> At(q, s).Phi?))
  }

  lemma SameDefsTrans(p: Prog, q: Prog, r: Prog)
    requires SameDefs(p, q) && SameDefs(q, r)
    ensures SameDefs(p, r)
  {
    forall s | ValidSite(p, s) ensures DefOf(At(p, s)) == DefOf(At(r, s)) && (At(p, s).Phi? <==> At(r, s).Phi?) {
      assert ValidSite(q, s);
    }
  }

  lemma SameSites(p: Prog, q: Prog)
    requires SameDefs(p, q)
    ensures forall s :: ValidSite(p, s) <==> ValidSite(q, s)
    ensures forall r: nat, s :: DefinedAt(p, r, s) <==> DefinedAt(q, r, s)
  { }

  lemma SameAvail(p: Prog, q: Prog, r: nat, t: Site)
    requires SameDefs(p, q) && Avail(p, r, t)
    ensures Avail(q, r, t)
  {
    SameSites(p, q);
    var s :| DefinedAt(p, r, s) && Before(p.g, s, t);
    assert DefinedAt(q, r, s);
  }

  // ----- agreeing step by step -----

  /** In every state that `p` can reach at `s`, the instruction of `q` does the same. */
  ghost predicate AgreeAt(p: Prog, q: Prog, s: Site)
    requires ValidSite(p, s) && ValidSite(q, s)
  {
    if At(p, s).Phi? then
      && At(q, s).Phi? && At(q, s).r == At(p, s).r
      && forall sem, env, k: nat ::
        k < |p.code| && Succ(p.g, k, s.block) && Holds(p, sem, env, EndOf(p, k)) && PhiHolds(p, env, k) ==>
          Get(env, ArmFor(At(q, s).arms, k)) == Get(env, ArmFor(At(p, s).arms, k))
    else
      && !At(q, s).Phi?
      && forall sem, st: State :: Holds(p, sem, st.env, s) && PhiHolds(p, st.env, s.block) ==>
           Exec(sem, At(q, s), st) == Exec(sem, At(p, s), st)
  }

  ghost predicate Agree(p: Prog, q: Prog) {
    && p.g == q.g && |p.code| == |q.code|
    && (forall b :: 0 <= b < |p.code| ==> |p.code[b]| == |q.code[b]|)
    && (forall s :: ValidSite(p, s) ==> AgreeAt(p, q, s))
  }

  lemma {:induction false} BodyAgrees(p: Prog, q: Prog, sem: Sem, st: State, b: nat, n: nat)
    requires Strict(p) && Agree(p, q) && b < |p.code| && n <= |p.code[b]|
    requires Holds(p, sem, st.env, Site(b, 0)) && PhiHolds(p, st.env, b)
    ensures ExecAll(sem, p.code[b][..n], st) == ExecAll(sem, q.code[b][..n], st)
  {
    if n > 0 {
      BodyAgrees(p, q, sem, st, b, n - 1);
      BodyKeeps(p, sem, st, b, n - 1);
      assert p.code[b][..n][..n - 1] == p.code[b][..n - 1] && q.code[b][..n][..n - 1] == q.code[b][..n - 1];
      assert AgreeAt(p, q, Site(b, n - 1));
    }
  }

  lemma {:induction false} EnterAgrees(p: Prog, q: Prog, sem: Sem, env: Env, k: nat, b: nat, n: nat)
    requires Agree(p, q) && b < |p.code| && n <= |p.code[b]| && k < |p.code| && Succ(p.g, k, b)
    requires Holds(p, sem, env, EndOf(p, k)) && PhiHolds(p, env, k)
    ensures Enter(p.code[b][..n], k, env) == Enter(q.code[b][..n], k, env)
  {
    if n > 0 {
      EnterAgrees(p, q, sem, env, k, b, n - 1);
      assert p.code[b][..n][..n - 1] == p.code[b][..n - 1] && q.code[b][..n][..n - 1] == q.code[b][..n - 1];
      assert AgreeAt(p, q, Site(b, n - 1));
    }
  }

  lemma {:induction false} NoPhiEnter(code: seq<Instr>, k: nat, env: Env)
    requires forall i :: 0 <= i < |code| ==> !code[i].Phi?
    ensures Enter(code, k, env) == env
  {
    if code != [] { NoPhiEnter(code[..|code| - 1], k, env); }
  }

  /** Equal configurations in which the next block is entered alike. */
  ghost predicate AlikeAt(p: Prog, q: Prog, c: Config) {
    c.block < |p.code| && c.block < |q.code| &&
    (!c.halted ==> Enter(p.code[c.block], c.from, c.st.env) == Enter(q.code[c.block], c.from, c.st.env))
  }

  lemma EntryAlike(p: Prog, q: Prog, sem: Sem, st: State)
    requires Strict(p) && Agree(p, q)
    ensures AlikeAt(p, q, Run(p, sem, st, 0))
  {
    var b := p.g.entry;
    forall i: nat | i < |q.code[b]| ensures !q.code[b][i].Phi? { assert AgreeAt(p, q, Site(b, i)); }
    NoPhiEnter(p.code[b], b, st.env);
    NoPhiEnter(q.code[b], b, st.env);
  }

  lemma StepAgrees(p: Prog, q: Prog, sem: Sem, c: Config)
    requires Strict(p) && Agree(p, q) && Entered(p, sem, c) && AlikeAt(p, q, c)
    ensures Step(p, sem, c) == Step(q, sem, c) && AlikeAt(p, q, Step(p, sem, c))
  {
    hide Holds, PhiHolds, AgreeAt;
    if !c.halted {
      var b := c.block;
      var st := State(Enter(p.code[b], c.from, c.st.env), c.st.world);
      var n := |p.code[b]|;
      BodyAgrees(p, q, sem, st, b, n);
      BodyKeeps(p, sem, st, b, n);
      assert p.code[b][..n] == p.code[b] && q.code[b][..n] == q.code[b];
      var c' := Step(p, sem, c);
      if !c'.halted {
        assert Succ(p.g, b, c'.block);
        var m := |p.code[c'.block]|;
        EnterAgrees(p, q, sem, c'.st.env, b, c'.block, m);
        assert p.code[c'.block][..m] == p.code[c'.block] && q.code[c'.block][..m] == q.code[c'.block];
      }
    }
  }

  lemma {:induction false} RunAgrees(p: Prog, q: Prog, sem: Sem, st: State, n: nat)
    requires Strict(p) && Agree(p, q)
    ensures Run(p, sem, st, n) == Run(q, sem, st, n) && AlikeAt(p, q, Run(p, sem, st, n))
  {
    hide Holds, PhiHolds, AgreeAt, Step, Entered;
    if n == 0 {
      EntryAlike(p, q, sem, st);
    } else {
      RunAgrees(p, q, sem, st, n - 1);
      RunKeeps(p, sem, st, n - 1);
      StepAgrees(p, q, sem, Run(p, sem, st, n - 1));
    }
  }

  // ----- one register for another -----

  function SwapReg(x: nat, d: nat, ref: nat): nat { if x == d then ref else x }

  function SubstPure(p: Pure, d: nat, ref: nat): Pure {
    match p
    case Unary(op, x) => Unary(op, SwapReg(x, d, ref))
    case Binary(op, x, y) => Binary(op, SwapReg(x, d, ref), SwapReg(y, d, ref))
    case Index(x, y, size) => Index(SwapReg(x, d, ref), SwapReg(y, d, ref), size)
    case _ => p
  }

  function SubstArms(arms: seq<Arm>, d: nat, ref: nat): seq<Arm> {
    seq(|arms|, k requires 0 <= k < |arms| => Arm(SwapReg(arms[k].r, d, ref), arms[k].from))
  }

  /** `map_use` with the replacement of `d` by `ref`. */
  function SubstInstr(i: Instr, d: nat, ref: nat): Instr {
    match i
    case Phi(r, arms) => Phi(r, SubstArms(arms, d, ref))
    case Def(r, p) => Def(r, SubstPure(p, d, ref))
    case Other(op, x, args) => Other(op, x, seq(|args|, k requires 0 <= k < |args| => SwapReg(args[k], d, ref)))
  }

  function Subst(p: Prog, d: nat, ref: nat): Prog {
    Prog(p.g, seq(|p.code|, b requires 0 <= b < |p.code| =>
      seq(|p.code[b]|, i requires 0 <= i < |p.code[b]| => SubstInstr(p.code[b][i], d, ref))))
  }

  lemma SubstAt(p: Prog, d: nat, ref: nat, s: Site)
    requires ValidSite(p, s)
    ensures ValidSite(Subst(p, d, ref), s) && At(Subst(p, d, ref), s) == SubstInstr(At(p, s), d, ref)
  { }

  lemma SubstUses(i: Instr, d: nat, ref: nat, r: nat)
    requires d != ref
    ensures UsesReg(SubstInstr(i, d, ref), r) <==> (r != d && UsesReg(i, r)) || (r == ref && UsesReg(i, d))
  {
    match i
    case Phi(_, arms) =>
      var arms' := SubstArms(arms, d, ref);
      if r != d && UsesReg(i, r) { var k :| 0 <= k < |arms| && arms[k].r == r; assert arms'[k].r == r; }
      if r == ref && UsesReg(i, d) { var k :| 0 <= k < |arms| && arms[k].r == d; assert arms'[k].r == r; }
    case Def(_, _) =>
    case Other(op, x, args) =>
      var args' := SubstInstr(i, d, ref).args;
      if r != d && r in args { var k :| 0 <= k < |args| && args[k] == r; assert args'[k] == r; }
      if r == ref && d in args { var k :| 0 <= k < |args| && args[k] == d; assert args'[k] == r; }
  }

  lemma SubstNoUse(i: Instr, d: nat, ref: nat)
    requires !UsesReg(i, d)
    ensures SubstInstr(i, d, ref) == i
  {
    match i
    case Phi(_, arms) => assert SubstArms(arms, d, ref) == arms;
    case Def(_, _) =>
    case Other(_, _, args) => assert SubstInstr(i, d, ref).args == args;
  }

  lemma SubstTwice(i: Instr, d: nat, ref: nat)
    requires d != ref
    ensures SubstInstr(SubstInstr(i, d, ref), d, ref) == SubstInstr(i, d, ref)
  {
    SubstUses(i, d, ref, d);
    SubstNoUse(SubstInstr(i, d, ref), d, ref);
  }

  lemma SubstSameDefs(p: Prog, d: nat, ref: nat)
    ensures SameDefs(p, Subst(p, d, ref))
  {
    forall s | ValidSite(p, s)
      ensures DefOf(At(p, s)) == DefOf(At(Subst(p, d, ref), s)) && (At(p, s).Phi? <==> At(Subst(p, d, ref), s).Phi?)
    {
      SubstAt(p, d, ref, s);
    }
  }

  /** The register defined at `s` may be replaced by `ref`: `ref` is defined above, and has the same value. */
  ghost predicate MayReplace(p: Prog, s: Site, ref: nat) {
    && ValidSite(p, s)
    && match At(p, s)
       case Def(d, q) =>
         Avail(p, ref, s) && forall sem, env :: Holds(p, sem, env, s) ==> Eval(sem, q, env) == Get(env, ref)
       case Phi(d, arms) => OneValue(arms, d, ref)
       case Other(_, _, _) => false
  }

  /** Wherever the definition at `s` dominates, both registers hold the same. */
  lemma EqualBelow(p: Prog, s: Site, ref: nat, sem: Sem, env: Env, t: Site)
    requires Strict(p) && MayReplace(p, s, ref) && Before(p.g, s, t) && Holds(p, sem, env, t) && PhiHolds(p, env, t.block)
    ensures DefOf(At(p, s)) >= 0 && Get(env, DefOf(At(p, s))) == Get(env, ref)
  {
    match At(p, s)
    case Def(d, q) =>
      assert Reachable(p.g, s.block);
      forall u | ValidSite(p, u) && Before(p.g, u, s) ensures Before(p.g, u, t) { BeforeTrans(p.g, u, s, t); }
      assert Holds(p, sem, env, s);
    case Phi(d, arms) => assert PhiAt(p, s, d, ref);
  }

  lemma RefAvail(p: Prog, s: Site, ref: nat)
    requires Strict(p) && MayReplace(p, s, ref)
    ensures Avail(p, ref, s) && DefinedAt(p, DefOf(At(p, s)), s) && DefOf(At(p, s)) != ref
  {
    match At(p, s)
    case Def(d, q) =>
      var u :| DefinedAt(p, ref, u) && Before(p.g, u, s);
      assert DefinedAt(p, d, s);
    case Phi(d, arms) =>
      assert PhiAt(p, s, d, ref);
      var u := PhiRefAbove(p, s, d, ref);
      assert Before(p.g, u, s);
  }

  lemma RefAvailWith(p: Prog, s: Site, d: nat, ref: nat, t: Site)
    requires Strict(p) && MayReplace(p, s, ref) && d == DefOf(At(p, s)) && Avail(p, d, t)
    ensures Before(p.g, s, t) && Avail(p, ref, t)
  {
    RefAvail(p, s, ref);
    var u :| DefinedAt(p, d, u) && Before(p.g, u, t);
    assert u == s && Reachable(p.g, s.block);
    AvailLater(p, ref, s, t);
  }

  lemma SubstPureEval(q: Pure, d: nat, ref: nat, sem: Sem, env: Env)
    requires d in Operands(q) ==> Get(env, d) == Get(env, ref)
    ensures Eval(sem, SubstPure(q, d, ref), env) == Eval(sem, q, env)
  { }

  lemma SubstExec(i: Instr, d: nat, ref: nat, sem: Sem, st: State)
    requires UsesReg(i, d) ==> Get(st.env, d) == Get(st.env, ref)
    ensures !i.Phi? ==> Exec(sem, SubstInstr(i, d, ref), st) == Exec(sem, i, st)
  {
    match i
    case Phi(_, _) =>
    case Def(_, q) => SubstPureEval(q, d, ref, sem, st.env);
    case Other(_, _, args) => assert Read(st.env, SubstInstr(i, d, ref).args) == Read(st.env, args);
  }

  lemma {:induction false} SubstArmFor(arms: seq<Arm>, d: nat, ref: nat, k: nat)
    requires exists i :: 0 <= i < |arms| && arms[i].from == k
    ensures ArmFor(SubstArms(arms, d, ref), k) == SwapReg(ArmFor(arms, k), d, ref)
  {
    if arms[0].from != k {
      var i :| 0 <= i < |arms| && arms[i].from == k;
      assert arms[1..][i - 1].from == k;
      SubstArmFor(arms[1..], d, ref, k);
      assert SubstArms(arms, d, ref)[1..] == SubstArms(arms[1..], d, ref);
    }
  }

  lemma SubstAgreesAt(p: Prog, s: Site, d: nat, ref: nat, t: Site)
    requires Strict(p) && MayReplace(p, s, ref) && d == DefOf(At(p, s)) && ValidSite(p, t)
    ensures ValidSite(Subst(p, d, ref), t) && AgreeAt(p, Subst(p, d, ref), t)
  {
    hide Holds, PhiHolds;
    SubstAt(p, d, ref, t);
    var x := At(p, t);
    assert UsesOk(p, t);
    if x.Phi? {
      forall sem, env, k: nat |
        k < |p.code| && Succ(p.g, k, t.block) && Holds(p, sem, env, EndOf(p, k)) && PhiHolds(p, env, k)
        ensures Get(env, ArmFor(SubstArms(x.arms, d, ref), k)) == Get(env, ArmFor(x.arms, k))
      {
        SubstArmFor(x.arms, d, ref, k);
        var a := EntryPhi(p, env, k, t);
        if x.arms[a].r == d {
          RefAvailWith(p, s, d, ref, EndOf(p, k));
          EqualBelow(p, s, ref, sem, env, EndOf(p, k));
        }
      }
    } else {
      forall sem, st: State | Holds(p, sem, st.env, t) && PhiHolds(p, st.env, t.block)
        ensures Exec(sem, SubstInstr(x, d, ref), st) == Exec(sem, x, st)
      {
        if UsesReg(x, d) {
          RefAvailWith(p, s, d, ref, t);
          EqualBelow(p, s, ref, sem, st.env, t);
        }
        SubstExec(x, d, ref, sem, st);
      }
    }
  }

  lemma SubstUsesOk(p: Prog, s: Site, d: nat, ref: nat, t: Site)
    requires Strict(p) && MayReplace(p, s, ref) && d == DefOf(At(p, s)) && ValidSite(p, t)
    ensures ValidSite(Subst(p, d, ref), t) && UsesOk(Subst(p, d, ref), t)
  {
    var q := Subst(p, d, ref);
    SubstAt(p, d, ref, t);
    SubstSameDefs(p, d, ref);
    RefAvail(p, s, ref);
    assert UsesOk(p, t);
    var x := At(p, t);
    if x.Phi? {
      var arms := SubstArms(x.arms, d, ref);
      forall k | 0 <= k < |arms| && arms[k].from < |q.code| && Succ(q.g, arms[k].from, t.block)
        ensures Avail(q, arms[k].r, EndOf(q, arms[k].from))
      {
        var e := EndOf(p, arms[k].from);
        assert Avail(p, x.arms[k].r, e);
        if x.arms[k].r == d { RefAvailWith(p, s, d, ref, e); }
        SameAvail(p, q, arms[k].r, e);
      }
      forall b: nat | Succ(q.g, b, t.block) ensures exists k :: 0 <= k < |arms| && arms[k].from == b {
        var k :| 0 <= k < |x.arms| && x.arms[k].from == b;
        assert arms[k].from == b;
      }
    } else {
      forall r: nat | UsesReg(At(q, t), r) ensures Avail(q, r, t) {
        SubstUses(x, d, ref, r);
        if UsesReg(x, d) { RefAvailWith(p, s, d, ref, t); }
        SameAvail(p, q, r, t);
      }
    }
  }

  /** Replacing a register by one of equal value keeps the form and every run. */
  lemma SubstKeeps(p: Prog, s: Site, ref: nat)
    requires Strict(p) && MayReplace(p, s, ref)
    ensures DefOf(At(p, s)) >= 0
    ensures Strict(Subst(p, DefOf(At(p, s)), ref)) && SameRuns(p, Subst(p, DefOf(At(p, s)), ref))
  {
    hide Holds, PhiHolds, AgreeAt, UsesOk;
    RefAvail(p, s, ref);
    var d: nat := DefOf(At(p, s));
    var q := Subst(p, d, ref);
    SubstSameDefs(p, d, ref);
    SameSites(p, q);
    forall t | ValidSite(p, t) ensures ValidSite(q, t) && AgreeAt(p, q, t) && UsesOk(q, t) {
      SubstAgreesAt(p, s, d, ref, t);
      SubstUsesOk(p, s, d, ref, t);
    }
    forall i | 0 <= i < |q.code[q.g.entry]| ensures !q.code[q.g.entry][i].Phi? {
      assert q.code[q.g.entry][i] == SubstInstr(p.code[p.g.entry][i], d, ref);
    }
    forall sem: Sem, st: State, n: nat ensures Run(p, sem, st, n) == Run(q, sem, st, n) { RunAgrees(p, q, sem, st, n); }
  }

  // ----- a constant for a computation -----

  function Put(p: Prog, s: Site, x: Instr): Prog
    requires ValidSite(p, s)
  {
    Prog(p.g, p.code[s.block := p.code[s.block][s.pos := x]])
  }

  ghost predicate MayFold(p: Prog, s: Site, v: Word) {
    && ValidSite(p, s) && At(p, s).Def?
    && forall sem, env :: Holds(p, sem, env, s) ==> Eval(sem, At(p, s).p, env) == v
  }

  /** A definition with less to read. */
  lemma PutUsesOk(p: Prog, s: Site, x: Instr, t: Site)
    requires Strict(p) && ValidSite(p, s) && ValidSite(p, t) && SameDefs(p, Put(p, s, x)) && !x.Phi?
    requires forall r: nat :: UsesReg(x, r) ==> Avail(p, r, s)
    ensures UsesOk(Put(p, s, x), t)
  {
    var q := Put(p, s, x);
    assert UsesOk(p, t);
    if At(q, t).Phi? {
      var arms := At(q, t).arms;
      forall k | 0 <= k < |arms| && arms[k].from < |q.code| && Succ(q.g, arms[k].from, t.block)
        ensures Avail(q, arms[k].r, EndOf(q, arms[k].from))
      {
        SameAvail(p, q, arms[k].r, EndOf(p, arms[k].from));
      }
    } else {
      forall r: nat | UsesReg(At(q, t), r) ensures Avail(q, r, t) { SameAvail(p, q, r, t); }
    }
  }

  lemma PutSameDefs(p: Prog, s: Site, x: Instr)
    requires ValidSite(p, s) && DefOf(x) == DefOf(At(p, s)) && (x.Phi? <==> At(p, s).Phi?)
    ensures SameDefs(p, Put(p, s, x))
  { }

  lemma FoldKeeps(p: Prog, s: Site, v: Word)
    requires Strict(p) && MayFold(p, s, v)
    ensures Strict(Put(p, s, Def(At(p, s).r, Const(v)))) && SameRuns(p, Put(p, s, Def(At(p, s).r, Const(v))))
  {
    hide Holds, PhiHolds, UsesOk;
    var x := Def(At(p, s).r, Const(v));
    var q := Put(p, s, x);
    PutSameDefs(p, s, x);
    SameSites(p, q);
    forall t | ValidSite(p, t) ensures AgreeAt(p, q, t) && UsesOk(q, t) {
      PutUsesOk(p, s, x, t);
      if t == s {
        forall sem, st: State | Holds(p, sem, st.env, s) ensures Exec(sem, x, st) == Exec(sem, At(p, s), st) { }
      }
    }
    forall sem: Sem, st: State, n: nat ensures Run(p, sem, st, n) == Run(q, sem, st, n) { RunAgrees(p, q, sem, st, n); }
  }

  // ----- dropping definitions -----

  /** What is left of a block without the marked instructions. */
  function Kept(code: seq<Instr>, marks: seq<bool>): seq<Instr>
    requires |marks| == |code|
  {
    if code == [] then []
    else
      var n := |code| - 1;
      Kept(code[..n], marks[..n]) + (if marks[n] then [] else [code[n]])
  }

  function Marked(marks: seq<seq<bool>>, s: Site): bool {
    s.block < |marks| && s.pos < |marks[s.block]| && marks[s.block][s.pos]
  }

  predicate MarksFit(p: Prog, marks: seq<seq<bool>>) {
    |marks| == |p.code| && forall b :: 0 <= b < |marks| ==> |marks[b]| == |p.code[b]|
  }

  function DropMarked(p: Prog, marks: seq<seq<bool>>): Prog
    requires MarksFit(p, marks)
  {
    Prog(p.g, seq(|p.code|, b requires 0 <= b < |p.code| => Kept(p.code[b], marks[b])))
  }

  ghost predicate Unread(p: Prog, r: int) {
    forall s :: ValidSite(p, s) ==> !(r >= 0 && UsesReg(At(p, s), r))
  }

  /** Only definitions without effects are marked, and nothing reads what they define. */
  ghost predicate MarksOk(p: Prog, marks: seq<seq<bool>>) {
    && MarksFit(p, marks)
    && forall s :: ValidSite(p, s) && Marked(marks, s) ==> !At(p, s).Other? && Unread(p, DefOf(At(p, s)))
  }

  /** Environments that agree on what is read. */
  ghost predicate Alike(p: Prog, env: Env, env': Env) {
    forall r: nat :: !Unread(p, r) ==> Get(env, r) == Get(env', r)
  }

  lemma ReadNow(p: Prog, s: Site, r: nat)
    requires ValidSite(p, s) && UsesReg(At(p, s), r)
    ensures !Unread(p, r)
  { }

  lemma ExecAlike(p: Prog, sem: Sem, s: Site, st: State, st': State)
    requires ValidSite(p, s) && Alike(p, st.env, st'.env) && st.world == st'.world
    ensures Exec(sem, At(p, s), st).world == Exec(sem, At(p, s), st').world
    ensures Alike(p, Exec(sem, At(p, s), st).env, Exec(sem, At(p, s), st').env)
  {
    hide Unread;
    match At(p, s)
    case Phi(_, _) =>
    case Def(_, q) =>
      forall r: nat | r in Operands(q) ensures Get(st.env, r) == Get(st'.env, r) { ReadNow(p, s, r); }
      EvalFrame(sem, q, st.env, st'.env);
    case Other(_, _, args) =>
      forall i | 0 <= i < |args| ensures Get(st.env, args[i]) == Get(st'.env, args[i]) { ReadNow(p, s, args[i]); }
      assert Read(st.env, args) == Read(st'.env, args);
  }

  lemma WriteUnread(p: Prog, env: Env, env': Env, r: nat, v: Word)
    requires Unread(p, r) && Alike(p, env, env')
    ensures Alike(p, env[r := v], env')
  {
    hide Unread;
  }

  lemma WriteBoth(p: Prog, env: Env, env': Env, r: nat, v: Word)
    requires Alike(p, env, env')
    ensures Alike(p, env[r := v], env'[r := v])
  {
    hide Unread;
  }

  lemma AlikeRead(p: Prog, env: Env, env': Env, s: Site, r: nat)
    requires ValidSite(p, s) && UsesReg(At(p, s), r) && Alike(p, env, env')
    ensures Get(env, r) == Get(env', r)
  { }

  lemma {:induction false} BodyAlike(p: Prog, marks: seq<seq<bool>>, sem: Sem, st: State, st': State, b: nat, n: nat)
    requires MarksOk(p, marks) && b < |p.code| && n <= |p.code[b]| && Alike(p, st.env, st'.env) && st.world == st'.world
    ensures ExecAll(sem, p.code[b][..n], st).world == ExecAll(sem, Kept(p.code[b][..n], marks[b][..n]), st').world
    ensures Alike(p, ExecAll(sem, p.code[b][..n], st).env, ExecAll(sem, Kept(p.code[b][..n], marks[b][..n]), st').env)
  {
    hide Alike, Unread, Marked, Kept, ExecAll, Exec;
    if n == 0 {
      NothingKept(sem, p.code[b], marks[b], st, st');
    } else {
      BodyAlike(p, marks, sem, st, st', b, n - 1);
      var s := Site(b, n - 1);
      var st1, st1' := ExecAll(sem, p.code[b][..n - 1], st), ExecAll(sem, Kept(p.code[b][..n - 1], marks[b][..n - 1]), st');
      ExecSnoc(sem, p.code[b], marks[b], n - 1, st, st');
      BlockAt(p, marks, s);
      if marks[b][n - 1] {
        MarkedAt(p, marks, s);
        ExecUnread(p, sem, s, st1, st1');
      } else {
        ExecAlike(p, sem, s, st1, st1');
      }
    }
  }

  lemma NothingKept(sem: Sem, code: seq<Instr>, marks: seq<bool>, st: State, st': State)
    requires |marks| == |code|
    ensures ExecAll(sem, code[..0], st) == st && ExecAll(sem, Kept(code[..0], marks[..0]), st') == st'
  { }

  lemma BlockAt(p: Prog, marks: seq<seq<bool>>, s: Site)
    requires MarksOk(p, marks) && s.block < |p.code| && s.pos < |p.code[s.block]|
    ensures ValidSite(p, s) && At(p, s) == p.code[s.block][s.pos]
    ensures |marks| == |p.code| && |marks[s.block]| == |p.code[s.block]|
  { }

  /** The last instruction of a longer part, and of what is kept of it. */
  lemma ExecSnoc(sem: Sem, code: seq<Instr>, marks: seq<bool>, i: nat, st: State, st': State)
    requires i < |code| == |marks|
    ensures ExecAll(sem, code[..i + 1], st) == Exec(sem, code[i], ExecAll(sem, code[..i], st))
    ensures ExecAll(sem, Kept(code[..i + 1], marks[..i + 1]), st') ==
      if marks[i] then ExecAll(sem, Kept(code[..i], marks[..i]), st')
      else Exec(sem, code[i], ExecAll(sem, Kept(code[..i], marks[..i]), st'))
  {
    hide Exec;
    KeptSnoc(code, marks, i);
    var rest := Kept(code[..i], marks[..i]);
    assert code[..i + 1][..i] == code[..i];
    if marks[i] { assert rest + [] == rest; } else { assert (rest + [code[i]])[..|rest|] == rest; }
  }

  lemma KeptSnoc(code: seq<Instr>, marks: seq<bool>, i: nat)
    requires i < |code| == |marks|
    ensures Kept(code[..i + 1], marks[..i + 1]) == Kept(code[..i], marks[..i]) + (if marks[i] then [] else [code[i]])
  {
    assert code[..i + 1][..i] == code[..i] && marks[..i + 1][..i] == marks[..i];
  }

  lemma ExecUnread(p: Prog, sem: Sem, s: Site, st: State, st': State)
    requires ValidSite(p, s) && !At(p, s).Other? && Unread(p, At(p, s).r)
    requires Alike(p, st.env, st'.env) && st.world == st'.world
    ensures Alike(p, Exec(sem, At(p, s), st).env, st'.env) && Exec(sem, At(p, s), st).world == st'.world
  {
    hide Alike, Unread;
    if At(p, s).Def? { WriteUnread(p, st.env, st'.env, At(p, s).r, Eval(sem, At(p, s).p, st.env)); }
  }

  lemma MarkedAt(p: Prog, marks: seq<seq<bool>>, s: Site)
    requires MarksOk(p, marks) && ValidSite(p, s) && marks[s.block][s.pos]
    ensures !At(p, s).Other? && Unread(p, At(p, s).r)
  {
    assert Marked(marks, s);
  }

  lemma {:induction false} EnterAlike(p: Prog, marks: seq<seq<bool>>, env: Env, env': Env, k: nat, b: nat, n: nat)
    requires MarksOk(p, marks) && b < |p.code| && n <= |p.code[b]| && Alike(p, env, env')
    requires forall i :: 0 <= i < |p.code[b]| && p.code[b][i].Phi? ==>
      exists j :: 0 <= j < |p.code[b][i].arms| && p.code[b][i].arms[j].from == k
    ensures Alike(p, Enter(p.code[b][..n], k, env), Enter(Kept(p.code[b][..n], marks[b][..n]), k, env'))
  {
    hide Alike, Unread, Marked, Kept, Enter, Get, ArmFor;
    if n == 0 {
      NothingEntered(p.code[b], marks[b], k, env, env');
    } else {
      EnterAlike(p, marks, env, env', k, b, n - 1);
      var s := Site(b, n - 1);
      BlockAt(p, marks, s);
      var x := p.code[b][n - 1];
      var now, now' := Enter(p.code[b][..n - 1], k, env), Enter(Kept(p.code[b][..n - 1], marks[b][..n - 1]), k, env');
      EnterSnoc(p.code[b], marks[b], n - 1, k, env, env');
      if marks[b][n - 1] {
        MarkedAt(p, marks, s);
        if x.Phi? { WriteUnread(p, now, now', x.r, Get(env, ArmFor(x.arms, k))); }
      } else if x.Phi? {
        var j :| 0 <= j < |x.arms| && x.arms[j].from == k;
        var a := ArmForPicks(x.arms, k, j);
        PhiReads(x, a);
        AlikeRead(p, env, env', s, x.arms[a].r);
        WriteBoth(p, now, now', x.r, Get(env, x.arms[a].r));
      }
    }
  }

  lemma PhiReads(x: Instr, a: nat)
    requires x.Phi? && a < |x.arms|
    ensures UsesReg(x, x.arms[a].r)
  { }

  lemma NothingEntered(code: seq<Instr>, marks: seq<bool>, k: nat, env: Env, env': Env)
    requires |marks| == |code|
    ensures Enter(code[..0], k, env) == env && Enter(Kept(code[..0], marks[..0]), k, env') == env'
  { }

  function EnterOne(x: Instr, k: nat, env: Env, now: Env): Env {
    if x.Phi? then now[x.r := Get(env, ArmFor(x.arms, k))] else now
  }

  lemma EnterSnoc(code: seq<Instr>, marks: seq<bool>, i: nat, k: nat, env: Env, env': Env)
    requires i < |code| == |marks|
    ensures Enter(code[..i + 1], k, env) == EnterOne(code[i], k, env, Enter(code[..i], k, env))
    ensures Enter(Kept(code[..i + 1], marks[..i + 1]), k, env') ==
      if marks[i] then Enter(Kept(code[..i], marks[..i]), k, env')
      else EnterOne(code[i], k, env', Enter(Kept(code[..i], marks[..i]), k, env'))
  {
    hide Get, ArmFor;
    KeptSnoc(code, marks, i);
    var rest := Kept(code[..i], marks[..i]);
    assert code[..i + 1][..i] == code[..i];
    if marks[i] { assert rest + [] == rest; } else { assert (rest + [code[i]])[..|rest|] == rest; }
  }

  /** The same place and the same outer state. */
  ghost predicate AlikeConfig(p: Prog, c: Config, c': Config) {
    && c.block == c'.block && c.halted == c'.halted && c.st.world == c'.st.world
    && c.block < |p.code| && c.from == c'.from && (c.block == p.g.entry || Succ(p.g, c.from, c.block))
    && Alike(p, c.st.env, c'.st.env)
  }

  lemma StepAlike(p: Prog, marks: seq<seq<bool>>, sem: Sem, c: Config, c': Config)
    requires Strict(p) && MarksOk(p, marks) && AlikeConfig(p, c, c')
    ensures AlikeConfig(p, Step(p, sem, c), Step(DropMarked(p, marks), sem, c'))
  {
    hide Alike, Unread, Marked;
    if !c.halted {
      var b := c.block;
      var q := DropMarked(p, marks);
      var n := |p.code[b]|;
      assert p.code[b][..n] == p.code[b] && marks[b][..n] == marks[b] && q.code[b] == Kept(p.code[b], marks[b]);
      forall i: nat | i < |p.code[b]| && p.code[b][i].Phi?
        ensures exists j :: 0 <= j < |p.code[b][i].arms| && p.code[b][i].arms[j].from == c.from
      {
        assert UsesOk(p, Site(b, i));
      }
      EnterAlike(p, marks, c.st.env, c'.st.env, c.from, b, n);
      BodyAlike(p, marks, sem, State(Enter(p.code[b], c.from, c.st.env), c.st.world),
                State(Enter(q.code[b], c.from, c'.st.env), c.st.world), b, n);
      var out := p.g.out[b];
      if out != [] {
        var y := Step(p, sem, c).block;
        assert Succ(p.g, b, y);
      }
    }
  }

  /** Dropping the marked definitions keeps, in every run, the places visited and the outer state. */
  lemma {:induction false} DropKeepsRuns(p: Prog, marks: seq<seq<bool>>, sem: Sem, st: State, n: nat)
    requires Strict(p) && MarksOk(p, marks)
    ensures AlikeConfig(p, Run(p, sem, st, n), Run(DropMarked(p, marks), sem, st, n))
  {
    hide Alike, Unread, Marked, Step;
    if n == 0 {
      AlikeSelf(p, st.env);
    } else {
      DropKeepsRuns(p, marks, sem, st, n - 1);
      StepAlike(p, marks, sem, Run(p, sem, st, n - 1), Run(DropMarked(p, marks), sem, st, n - 1));
    }
  }

  lemma AlikeSelf(p: Prog, env: Env)
    ensures Alike(p, env, env)
  { }
}
