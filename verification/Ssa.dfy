/** Programs in strict single-assignment form, their execution, and the replacements that do not change it: the
    setting of value numbering (src/ir/opt/gvn.cpp). Operators are those of src/ir/scalar.hpp on integers; phi
    instructions, loads of constants, arguments and addresses, and the execution loop follow src/ir/ir.hpp and
    src/ir/ir.cpp. */
module Ssa {
  import opened Dominators
  import opened Word32

  // ----- programs -----

  type Word = x: int | IsInt32(x)

  datatype UnOp = LNOT | NEG | ID

  datatype BinOp = ADD | SUB | MUL | DIV | LESS | LEQ | EQ | NEQ | MOD

  /** Computations without effects. */
  datatype Pure =
    | Const(v: Word)
    | Unary(uop: UnOp, x: nat)
    | Binary(bop: BinOp, x: nat, y: nat)
    | Index(x: nat, y: nat, size: int)
    | Arg(k: int)
    | Addr(o: int)

  /** The register a phi instruction takes when control comes from block `from`. */
  datatype Arm = Arm(r: nat, from: nat)

  /** `Other` stands for loads, stores, calls and jumps; it defines at most one register (`d`, or -1). */
  datatype Instr = Phi(r: nat, arms: seq<Arm>) | Def(r: nat, p: Pure) | Other(op: int, d: int, args: seq<nat>)

  datatype Prog = Prog(g: Cfg, code: seq<seq<Instr>>)

  function Operands(p: Pure): set<nat> {
    match p
    case Const(_) => {}
    case Unary(_, x) => {x}
    case Binary(_, x, y) => {x, y}
    case Index(x, y, _) => {x, y}
    case Arg(_) => {}
    case Addr(_) => {}
  }

  function DefOf(i: Instr): int {
    match i
    case Phi(r, _) => r
    case Def(r, _) => r
    case Other(_, d, _) => d
  }

  /** Does the instruction read `r`? */
  predicate UsesReg(i: Instr, r: nat) {
    match i
    case Phi(_, arms) => exists k :: 0 <= k < |arms| && arms[k].r == r
    case Def(_, p) => r in Operands(p)
    case Other(_, _, args) => r in args
  }

  // ----- definitions and dominance -----

  datatype Site = Site(block: nat, pos: nat)

  predicate ValidSite(p: Prog, s: Site) {
    s.block < |p.code| && s.pos < |p.code[s.block]|
  }

  function At(p: Prog, s: Site): Instr
    requires ValidSite(p, s)
  {
    p.code[s.block][s.pos]
  }

  predicate DefinedAt(p: Prog, r: nat, s: Site) {
    ValidSite(p, s) && DefOf(At(p, s)) == r
  }

  ghost predicate Before(g: Cfg, s: Site, t: Site) {
    if s.block == t.block then s.pos < t.pos else Dom(g, s.block, t.block)
  }

  /** The definition of `r` dominates `t`. */
  ghost predicate Avail(p: Prog, r: nat, t: Site) {
    exists s :: DefinedAt(p, r, s) && Before(p.g, s, t)
  }

  function EndOf(p: Prog, b: nat): Site
    requires b < |p.code|
  {
    Site(b, |p.code[b]|)
  }

  ghost predicate WellFormed(p: Prog) {
    && ValidCfg(p.g) && AllReachable(p.g) && |p.code| == |p.g.out|
    && (forall i :: 0 <= i < |p.code[p.g.entry]| ==> !p.code[p.g.entry][i].Phi?)
  }

  ghost predicate UniqueDefs(p: Prog) {
    forall r: nat, s, t :: DefinedAt(p, r, s) && DefinedAt(p, r, t) ==> s == t
  }

  ghost predicate UsesOk(p: Prog, s: Site)
    requires ValidSite(p, s)
  {
    match At(p, s)
    case Phi(_, arms) =>
      && (forall k :: 0 <= k < |arms| && arms[k].from < |p.code| && Succ(p.g, arms[k].from, s.block) ==>
            Avail(p, arms[k].r, EndOf(p, arms[k].from)))
      && (forall b: nat :: Succ(p.g, b, s.block) ==> exists k :: 0 <= k < |arms| && arms[k].from == b)
    case i => forall r: nat :: UsesReg(i, r) ==> Avail(p, r, s)
  }

  /** Every register has one definition, and every use is dominated by it. */
  ghost predicate Strict(p: Prog) {
    WellFormed(p) && UniqueDefs(p) && forall s :: ValidSite(p, s) ==> UsesOk(p, s)
  }

  lemma BeforeTrans(g: Cfg, s: Site, t: Site, u: Site)
    requires Before(g, s, t) && Before(g, t, u) && Reachable(g, t.block)
    ensures Before(g, s, u)
  {
    if s.block != t.block && t.block != u.block {
      DomTrans(g, s.block, t.block, u.block);
      if s.block == u.block {
        var p :| PathTo(g, p, t.block);
        DomAntisym(g, t.block, s.block, p);
      }
    }
  }

  lemma AvailLater(p: Prog, r: nat, t: Site, u: Site)
    requires Avail(p, r, t) && Before(p.g, t, u) && Reachable(p.g, t.block)
    ensures Avail(p, r, u)
  {
    var s :| DefinedAt(p, r, s) && Before(p.g, s, t);
    BeforeTrans(p.g, s, t, u);
  }

  /** A register defined elsewhere is not defined here. */
  lemma OnlyThere(p: Prog, r: nat, s: Site, t: Site)
    requires UniqueDefs(p) && DefinedAt(p, r, s) && s != t
    ensures !DefinedAt(p, r, t)
  { }

  /** No instruction reads the register it defines, and none that comes before reads it. */
  lemma NotReadBefore(p: Prog, r: nat, s: Site, t: Site)
    requires Strict(p) && DefinedAt(p, r, s) && ValidSite(p, t) && (t == s || Before(p.g, t, s)) && !At(p, t).Phi?
    ensures !UsesReg(At(p, t), r)
  {
    if UsesReg(At(p, t), r) {
      assert UsesOk(p, t);
      var u :| DefinedAt(p, r, u) && Before(p.g, u, t);
      assert u == s;
      if t != s { BeforeTrans(p.g, s, t, s); }
    }
  }

  // ----- execution -----

  type Env = map<nat, Word>

  /** What the instructions and the surroundings do: the effect of other instructions on the outer state (also coded
      as an integer, and holding the decision of a jump), the arguments, and the addresses of memory objects. */
  datatype Sem = Sem(effect: (int, seq<int>, int) -> (int, int), arg: int -> int, addr: int -> int, pick: int -> nat)

  datatype State = State(env: Env, world: int)

  function Get(env: Env, r: nat): Word {
    if r in env then env[r] else 0
  }

  function Truth(b: bool): Word { if b then 1 else 0 }

  /** Division truncates; by 0 it gives 0. */
  function Divide(a: int, b: int): int {
    if b == 0 then 0 else if b > 0 then CDiv(a, b) else -CDiv(a, -b)
  }

  function Modulo(a: int, b: int): int {
    if b == 0 then 0 else if b > 0 then CMod(a, b) else CMod(a, -b)
  }

  function ComputeUnary(op: UnOp, a: Word): Word {
    match op
    case LNOT => Truth(a == 0)
    case NEG => Wrap(0 - a)
    case ID => a
  }

  function ComputeBinary(op: BinOp, a: Word, b: Word): Word {
    match op
    case ADD => Wrap(a + b)
    case SUB => Wrap(a - b)
    case MUL => Wrap(a * b)
    case DIV => Wrap(Divide(a, b))
    case LESS => Truth(a < b)
    case LEQ => Truth(a <= b)
    case EQ => Truth(a == b)
    case NEQ => Truth(a != b)
    case MOD => Wrap(Modulo(a, b))
  }

  function Eval(sem: Sem, p: Pure, env: Env): Word {
    match p
    case Const(v) => v
    case Unary(op, x) => ComputeUnary(op, Get(env, x))
    case Binary(op, x, y) => ComputeBinary(op, Get(env, x), Get(env, y))
    case Index(x, y, size) => Wrap(Get(env, x) + Get(env, y) * size)
    case Arg(k) => Wrap(sem.arg(k))
    case Addr(o) => Wrap(sem.addr(o))
  }

  function Read(env: Env, args: seq<nat>): seq<int> {
    seq(|args|, i requires 0 <= i < |args| => Get(env, args[i]))
  }

  function Exec(sem: Sem, i: Instr, st: State): State {
    match i
    case Phi(_, _) => st
    case Def(r, p) => st.(env := st.env[r := Eval(sem, p, st.env)])
    case Other(op, d, args) =>
      var (v, w) := sem.effect(op, Read(st.env, args), st.world);
      State(if d >= 0 then st.env[d := Wrap(v)] else st.env, w)
  }

  function ExecAll(sem: Sem, code: seq<Instr>, st: State): State {
    if code == [] then st
    else Exec(sem, code[|code| - 1], ExecAll(sem, code[..|code| - 1], st))
  }

  function ArmFor(arms: seq<Arm>, from: nat): nat {
    if arms == [] then 0 else if arms[0].from == from then arms[0].r else ArmFor(arms[1..], from)
  }

  /** All phi instructions of a block are executed at once. */
  function Enter(code: seq<Instr>, from: nat, env: Env): Env {
    if code == [] then env
    else
      var rest := Enter(code[..|code| - 1], from, env);
      match code[|code| - 1]
      case Phi(r, arms) => rest[r := Get(env, ArmFor(arms, from))]
      case _ => rest
  }

  /** About to enter `block` from `from`, or halted. */
  datatype Config = Config(block: nat, from: nat, halted: bool, st: State)

  function AtEnd(p: Prog, sem: Sem, c: Config): State
    requires c.block < |p.code|
  {
    ExecAll(sem, p.code[c.block], State(Enter(p.code[c.block], c.from, c.st.env), c.st.world))
  }

  function Step(p: Prog, sem: Sem, c: Config): Config {
    if c.halted || c.block >= |p.code| || c.block >= |p.g.out| then c
    else
      var st := AtEnd(p, sem, c);
      var out := p.g.out[c.block];
      if out == [] then Config(c.block, c.from, true, st)
      else Config(out[sem.pick(st.world) % |out|], c.block, false, st)
  }

  /** The state after `n` blocks. */
  function Run(p: Prog, sem: Sem, st: State, n: nat): Config {
    if n == 0 then Config(p.g.entry, p.g.entry, false, st) else Step(p, sem, Run(p, sem, st, n - 1))
  }

  // ----- equations that hold while a program runs -----

  /** What was computed in places that dominate `t` still has that value. */
  ghost predicate Holds(p: Prog, sem: Sem, env: Env, t: Site) {
    forall s :: ValidSite(p, s) && At(p, s).Def? && Before(p.g, s, t) ==>
      Get(env, At(p, s).r) == Eval(sem, At(p, s).p, env)
  }

  /** All arms of a phi instruction for `d` name `d` or `ref`. */
  predicate OneValue(arms: seq<Arm>, d: nat, ref: nat) {
    d != ref && forall k :: 0 <= k < |arms| ==> arms[k].r == d || arms[k].r == ref
  }

  ghost predicate PhiAt(p: Prog, s: Site, d: nat, ref: nat) {
    ValidSite(p, s) && At(p, s).Phi? && At(p, s).r == d && OneValue(At(p, s).arms, d, ref)
  }

  /** Such a phi instruction gives the value of `ref`, in all blocks it dominates. */
  ghost predicate PhiHolds(p: Prog, env: Env, b: nat) {
    forall s, d: nat, ref: nat :: PhiAt(p, s, d, ref) && (s.block == b || Dom(p.g, s.block, b)) ==> Get(env, d) == Get(env, ref)
  }

  lemma EvalFrame(sem: Sem, p: Pure, env: Env, env': Env)
    requires forall r: nat :: r in Operands(p) ==> Get(env, r) == Get(env', r)
    ensures Eval(sem, p, env) == Eval(sem, p, env')
  { }

  lemma HoldsFrame(p: Prog, sem: Sem, env: Env, env': Env, t: Site)
    requires Strict(p) && Holds(p, sem, env, t) && t.block < |p.code|
    requires forall r: nat :: Avail(p, r, t) ==> Get(env, r) == Get(env', r)
    ensures Holds(p, sem, env', t)
  {
    forall s | ValidSite(p, s) && At(p, s).Def? && Before(p.g, s, t)
      ensures Get(env', At(p, s).r) == Eval(sem, At(p, s).p, env')
    {
      assert DefinedAt(p, At(p, s).r, s);
      assert UsesOk(p, s);
      forall r: nat | r in Operands(At(p, s).p) ensures Get(env, r) == Get(env', r) {
        assert UsesReg(At(p, s), r);
        AvailLater(p, r, s, t);
      }
      EvalFrame(sem, At(p, s).p, env, env');
    }
  }

  /** The other register of such a phi instruction is defined strictly above. */
  lemma PhiRefOnPath(p: Prog, s: Site, d: nat, ref: nat, path: seq<nat>) returns (u: Site)
    requires Strict(p) && PhiAt(p, s, d, ref) && PathTo(p.g, path, s.block)
    ensures DefinedAt(p, ref, u) && u.block != s.block && u.block in path
  {
    var j := FirstIndex(path, s.block);
    PathPrefix(p.g, path, s.block, j);
    assert s.block != p.g.entry;
    var above := path[..j];
    PathPrefix(p.g, path, s.block, j - 1);
    assert path[..j - 1 + 1] == above;
    var k := path[j - 1];
    assert Succ(p.g, k, path[j - 1 + 1]) && UsesOk(p, s);
    var arms := At(p, s).arms;
    var a :| 0 <= a < |arms| && arms[a].from == k;
    assert Avail(p, arms[a].r, EndOf(p, k));
    u :| DefinedAt(p, arms[a].r, u) && Before(p.g, u, EndOf(p, k));
    assert u.block in above;
    assert DefinedAt(p, d, s);
  }

  lemma PathOf(p: Prog, b: nat) returns (path: seq<nat>)
    requires WellFormed(p) && b < |p.code|
    ensures PathTo(p.g, path, b)
  {
    assert Reachable(p.g, b);
    path :| PathTo(p.g, path, b);
  }

  lemma {:induction false} FirstIndex(s: seq<nat>, x: nat) returns (i: nat)
    requires x in s
    ensures i < |s| && s[i] == x && x !in s[..i]
  {
    if s[0] == x { i := 0; } else {
      i := FirstIndex(s[1..], x);
      assert s[..i + 1] == [s[0]] + s[1..][..i];
      i := i + 1;
    }
  }

  lemma PhiRefAbove(p: Prog, s: Site, d: nat, ref: nat) returns (u: Site)
    requires Strict(p) && PhiAt(p, s, d, ref)
    ensures DefinedAt(p, ref, u) && StrictDom(p.g, u.block, s.block)
  {
    var path := PathOf(p, s.block);
    u := PhiRefOnPath(p, s, d, ref, path);
    forall q | PathTo(p.g, q, s.block) ensures u.block in q {
      var u' := PhiRefOnPath(p, s, d, ref, q);
      assert u == u';
    }
  }

  /** Registers defined in block `b` after its phi instructions leave these equations alone. */
  lemma PhiFrame(p: Prog, env: Env, env': Env, b: nat, i: nat)
    requires Strict(p) && ValidSite(p, Site(b, i)) && !At(p, Site(b, i)).Phi? && PhiHolds(p, env, b)
    requires forall r: nat :: DefOf(At(p, Site(b, i))) != r ==> Get(env, r) == Get(env', r)
    ensures PhiHolds(p, env', b)
  {
    forall s, d: nat, ref: nat | PhiAt(p, s, d, ref) && (s.block == b || Dom(p.g, s.block, b))
      ensures Get(env', d) == Get(env', ref)
    {
      var u := PhiRefAbove(p, s, d, ref);
      assert DefinedAt(p, d, s);
      if u.block == b {
        var path := PathOf(p, b);
        DomAntisym(p.g, u.block, s.block, path);
      }
      OnlyThere(p, d, s, Site(b, i));
      OnlyThere(p, ref, u, Site(b, i));
    }
  }

  /** One instruction keeps the equations and adds its own. */
  lemma ExecKeeps(p: Prog, sem: Sem, st: State, b: nat, i: nat)
    requires Strict(p) && ValidSite(p, Site(b, i)) && Holds(p, sem, st.env, Site(b, i)) && PhiHolds(p, st.env, b)
    ensures Holds(p, sem, Exec(sem, At(p, Site(b, i)), st).env, Site(b, i + 1))
    ensures PhiHolds(p, Exec(sem, At(p, Site(b, i)), st).env, b)
  {
    var here := Site(b, i);
    var x := At(p, here);
    var st' := Exec(sem, x, st);
    forall r: nat | Avail(p, r, here) ensures DefOf(x) != r {
      var u :| DefinedAt(p, r, u) && Before(p.g, u, here);
      OnlyThere(p, r, u, here);
    }
    HoldsFrame(p, sem, st.env, st'.env, here);
    if x.Def? {
      assert DefinedAt(p, x.r, here);
      NotReadBefore(p, x.r, here, here);
      EvalFrame(sem, x.p, st.env, st'.env);
    }
    if !x.Phi? { PhiFrame(p, st.env, st'.env, b, i); }
    forall s | ValidSite(p, s) && At(p, s).Def? && Before(p.g, s, Site(b, i + 1))
      ensures Get(st'.env, At(p, s).r) == Eval(sem, At(p, s).p, st'.env)
    {
      assert s == here || Before(p.g, s, here);
    }
  }

  // ----- entering a block -----

  lemma {:induction false} EnterValue(code: seq<Instr>, from: nat, env: Env, i: nat)
    requires i < |code| && code[i].Phi? && forall j :: i < j < |code| ==> DefOf(code[j]) != code[i].r
    ensures Get(Enter(code, from, env), code[i].r) == Get(env, ArmFor(code[i].arms, from))
  {
    if i < |code| - 1 { EnterValue(code[..|code| - 1], from, env, i); }
  }

  lemma {:induction false} EnterFrame(code: seq<Instr>, from: nat, env: Env, r: nat)
    requires forall i :: 0 <= i < |code| ==> DefOf(code[i]) != r
    ensures Get(Enter(code, from, env), r) == Get(env, r)
  {
    if code != [] { EnterFrame(code[..|code| - 1], from, env, r); }
  }

  lemma {:induction false} ArmForPicks(arms: seq<Arm>, from: nat, k: nat) returns (i: nat)
    requires k < |arms| && arms[k].from == from
    ensures i < |arms| && arms[i].from == from && ArmFor(arms, from) == arms[i].r
  {
    if arms[0].from == from { i := 0; } else {
      i := ArmForPicks(arms[1..], from, k - 1);
      i := i + 1;
    }
  }

  /** What dominates a block strictly dominates the end of each predecessor. */
  lemma DomPred(g: Cfg, a: nat, k: nat, b: nat)
    requires StrictDom(g, a, b) && Succ(g, k, b)
    ensures Dom(g, a, k)
  {
    forall q | PathTo(g, q, k) ensures a in q { PathStep(g, q, k, b); }
  }

  lemma EntryFrame(p: Prog, env: Env, k: nat, b: nat, r: nat, u: Site)
    requires Strict(p) && b < |p.code| && DefinedAt(p, r, u) && u.block != b
    ensures Get(Enter(p.code[b], k, env), r) == Get(env, r)
  {
    forall i: nat | i < |p.code[b]| ensures DefOf(p.code[b][i]) != r {
      OnlyThere(p, r, u, Site(b, i));
    }
    EnterFrame(p.code[b], k, env, r);
  }

  lemma EntryPhi(p: Prog, env: Env, k: nat, s: Site) returns (a: nat)
    requires Strict(p) && ValidSite(p, s) && At(p, s).Phi? && Succ(p.g, k, s.block)
    ensures a < |At(p, s).arms| && At(p, s).arms[a].from == k && ArmFor(At(p, s).arms, k) == At(p, s).arms[a].r
    ensures Get(Enter(p.code[s.block], k, env), At(p, s).r) == Get(env, At(p, s).arms[a].r)
    ensures k < |p.code| && Avail(p, At(p, s).arms[a].r, EndOf(p, k))
  {
    var x := At(p, s);
    assert UsesOk(p, s) && DefinedAt(p, x.r, s);
    var i :| 0 <= i < |x.arms| && x.arms[i].from == k;
    a := ArmForPicks(x.arms, k, i);
    forall j: nat | s.pos < j < |p.code[s.block]| ensures DefOf(p.code[s.block][j]) != x.r {
      OnlyThere(p, x.r, s, Site(s.block, j));
    }
    EnterValue(p.code[s.block], k, env, s.pos);
  }

  lemma EnterKeepsHolds(p: Prog, sem: Sem, env: Env, k: nat, b: nat)
    requires Strict(p) && k < |p.code| && b < |p.code| && Succ(p.g, k, b) && Holds(p, sem, env, EndOf(p, k))
    ensures Holds(p, sem, Enter(p.code[b], k, env), Site(b, 0))
  {
    forall s | ValidSite(p, s) && Before(p.g, s, Site(b, 0)) ensures Before(p.g, s, EndOf(p, k)) {
      DomPred(p.g, s.block, k, b);
    }
    assert Holds(p, sem, env, Site(b, 0));
    forall r: nat | Avail(p, r, Site(b, 0)) ensures Get(env, r) == Get(Enter(p.code[b], k, env), r) {
      var u :| DefinedAt(p, r, u) && Before(p.g, u, Site(b, 0));
      EntryFrame(p, env, k, b, r, u);
    }
    HoldsFrame(p, sem, env, Enter(p.code[b], k, env), Site(b, 0));
  }

  lemma EnterKeepsPhis(p: Prog, env: Env, k: nat, b: nat)
    requires Strict(p) && k < |p.code| && b < |p.code| && Succ(p.g, k, b) && PhiHolds(p, env, k)
    ensures PhiHolds(p, Enter(p.code[b], k, env), b)
  {
    var env' := Enter(p.code[b], k, env);
    forall s, d: nat, ref: nat | PhiAt(p, s, d, ref) && (s.block == b || Dom(p.g, s.block, b))
      ensures Get(env', d) == Get(env', ref)
    {
      assert DefinedAt(p, d, s);
      var u := PhiRefAbove(p, s, d, ref);
      if s.block == b {
        EntryFrame(p, env, k, b, ref, u);
        var a := EntryPhi(p, env, k, s);
        if At(p, s).arms[a].r == d {
          var w :| DefinedAt(p, d, w) && Before(p.g, w, EndOf(p, k));
          assert w == s;
        }
      } else {
        if u.block == b {
          var path := PathOf(p, b);
          DomAntisym(p.g, u.block, s.block, path);
        }
        EntryFrame(p, env, k, b, ref, u);
        EntryFrame(p, env, k, b, d, s);
        DomPred(p.g, s.block, k, b);
      }
    }
  }

  // ----- runs keep the equations -----

  /** The equations hold after entering the block the run is about to enter. */
  ghost predicate Entered(p: Prog, sem: Sem, c: Config) {
    && c.block < |p.code|
    && (!c.halted ==>
          && Holds(p, sem, Enter(p.code[c.block], c.from, c.st.env), Site(c.block, 0))
          && PhiHolds(p, Enter(p.code[c.block], c.from, c.st.env), c.block))
  }

  lemma {:induction false} BodyKeeps(p: Prog, sem: Sem, st: State, b: nat, n: nat)
    requires Strict(p) && b < |p.code| && n <= |p.code[b]| && Holds(p, sem, st.env, Site(b, 0)) && PhiHolds(p, st.env, b)
    ensures Holds(p, sem, ExecAll(sem, p.code[b][..n], st).env, Site(b, n))
    ensures PhiHolds(p, ExecAll(sem, p.code[b][..n], st).env, b)
  {
    if n > 0 {
      BodyKeeps(p, sem, st, b, n - 1);
      assert p.code[b][..n][..n - 1] == p.code[b][..n - 1];
      ExecKeeps(p, sem, ExecAll(sem, p.code[b][..n - 1], st), b, n - 1);
    }
  }

  lemma EntryHolds(p: Prog, sem: Sem, st: State)
    requires Strict(p)
    ensures Entered(p, sem, Run(p, sem, st, 0))
  {
    EntryPath(p.g);
    forall a | Dom(p.g, a, p.g.entry) ensures a == p.g.entry { assert a in [p.g.entry]; }
    forall s, d: nat, ref: nat ensures !(PhiAt(p, s, d, ref) && s.block == p.g.entry) { }
  }

  /** Every block of every run is entered with the equations of its dominators. */
  lemma {:induction false} RunKeeps(p: Prog, sem: Sem, st: State, n: nat)
    requires Strict(p)
    ensures Entered(p, sem, Run(p, sem, st, n))
  {
    hide Holds, PhiHolds;
    if n == 0 {
      EntryHolds(p, sem, st);
    } else {
      RunKeeps(p, sem, st, n - 1);
      var c := Run(p, sem, st, n - 1);
      var c' := Run(p, sem, st, n);
      if !c.halted && p.g.out[c.block] != [] {
        var b := c.block;
        var code := p.code[b];
        BodyKeeps(p, sem, State(Enter(code, c.from, c.st.env), c.st.world), b, |code|);
        assert code[..|code|] == code;
        assert Succ(p.g, b, c'.block);
        EnterKeepsHolds(p, sem, c'.st.env, b, c'.block);
        EnterKeepsPhis(p, c'.st.env, b, c'.block);
      }
    }
  }
}
