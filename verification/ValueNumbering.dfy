/** What global value numbering keeps true while it walks the dominator tree (src/ir/opt/gvn.cpp): tables name
    registers that still hold the values they stand for, replaced registers are read nowhere, and every state of the
    program in between has the same runs. */
module ValueNumbering {
  import opened Dominators
  import opened Word32
  import opened Ssa
  import opened SsaRewrites

  // ----- operators -----

  /** `is_commutable_compute` */
  predicate Commutes(op: BinOp) {
    op == ADD || op == MUL || op == EQ || op == NEQ
  }

  datatype Known = Unknown | Value(v: Word)

  /** `is_useless_compute` on what is known of the two operands */
  predicate Useless(op: BinOp, a: Known, b: Known) {
    match op
    case ADD => a == Value(0) || b == Value(0)
    case SUB => b == Value(0)
    case MUL => a == Value(1) || b == Value(1)
    case DIV => b == Value(1)
    case _ => false
  }

  predicate Knows(a: Known, w: Word) {
    a.Value? ==> a.v == w
  }

  lemma {:induction false} QuotByOne(n: nat)
    ensures Quot(n, 1) == n
  {
    if n > 0 { QuotByOne(n - 1); }
  }

  lemma WrapWord(w: Word)
    ensures Wrap(w) == w
  {
    WrapId(w);
  }

  /** A useless computation gives the operand whose value is not known. */
  lemma UselessGives(op: BinOp, a: Known, b: Known, x: Word, y: Word)
    requires Useless(op, a, b) && Knows(a, x) && Knows(b, y) && !(a.Value? && b.Value?)
    ensures a.Value? ==> ComputeBinary(op, x, y) == y
    ensures b.Value? ==> ComputeBinary(op, x, y) == x
  {
    WrapWord(x);
    WrapWord(y);
    if op == DIV { QuotByOne(if x >= 0 then x else 0 - x); }
  }

  lemma CommutesGives(op: BinOp, x: Word, y: Word)
    requires Commutes(op)
    ensures ComputeBinary(op, x, y) == ComputeBinary(op, y, x)
  { }

  // ----- progress of the walk -----

  /** All of the blocks `seen`, and of the block of `here` what comes before it. */
  ghost predicate Finished(seen: set<nat>, here: Site, s: Site) {
    s.block in seen || (s.block == here.block && s.pos < here.pos)
  }

  function Next(s: Site): Site { Site(s.block, s.pos + 1) }

  /** The walk is at `here`: it has been through all blocks that strictly dominate this one. */
  ghost predicate Position(g: Cfg, seen: set<nat>, here: Site) {
    && here.block !in seen && (forall a: nat :: StrictDom(g, a, here.block) ==> a in seen)
    && (forall x: nat, a: nat :: x in seen && Dom(g, a, x) ==> a in seen)
  }

  function UsesOf(uses: map<nat, seq<Site>>, r: nat): seq<Site> {
    if r in uses then uses[r] else []
  }

  ghost predicate Listed(p: Prog, uses: map<nat, seq<Site>>, r: nat) {
    forall u :: ValidSite(p, u) && UsesReg(At(p, u), r) ==> u in UsesOf(uses, r)
  }

  ghost predicate ListsValid(p: Prog, uses: map<nat, seq<Site>>) {
    forall r: nat, u :: u in UsesOf(uses, r) ==> ValidSite(p, u)
  }

  ghost predicate Pending(p: Prog, uses: map<nat, seq<Site>>, seen: set<nat>, here: Site) {
    forall s, d: nat :: DefinedAt(p, d, s) && !Finished(seen, here, s) ==> Listed(p, uses, d)
  }

  ghost predicate MarkedFinished(p: Prog, marks: seq<seq<bool>>, seen: set<nat>, here: Site) {
    forall s :: ValidSite(p, s) && Marked(marks, s) ==> Finished(seen, here, s)
  }

  /** The program `p` made from `p0` so far. */
  ghost predicate Sound(p0: Prog, p: Prog, marks: seq<seq<bool>>, uses: map<nat, seq<Site>>, seen: set<nat>, here: Site) {
    && Strict(p) && SameRuns(p0, p) && SameDefs(p0, p) && MarksOk(p, marks) && ListsValid(p, uses)
    && MarkedFinished(p, marks, seen, here) && Pending(p, uses, seen, here)
  }

  /** Finished places keep their marks and, except for the arms of phi instructions, their code. */
  ghost predicate Steady(p: Prog, marks: seq<seq<bool>>, p': Prog, marks': seq<seq<bool>>, seen: set<nat>, here: Site) {
    && SameDefs(p, p')
    && forall s :: ValidSite(p, s) && Finished(seen, here, s) ==>
         (Marked(marks, s) <==> Marked(marks', s)) && (!At(p, s).Phi? ==> At(p', s) == At(p, s))
  }

  lemma SteadySelf(p: Prog, marks: seq<seq<bool>>, seen: set<nat>, here: Site)
    ensures Steady(p, marks, p, marks, seen, here)
  { }

  lemma SteadyTrans(p1: Prog, m1: seq<seq<bool>>, p2: Prog, m2: seq<seq<bool>>, p3: Prog, m3: seq<seq<bool>>,
                   seen: set<nat>, here: Site, seen': set<nat>, here': Site)
    requires Steady(p1, m1, p2, m2, seen, here) && Steady(p2, m2, p3, m3, seen', here')
    requires forall s :: ValidSite(p1, s) && Finished(seen, here, s) ==> Finished(seen', here', s)
    ensures Steady(p1, m1, p3, m3, seen, here)
  {
    SameDefsTrans(p1, p2, p3);
    SameSites(p1, p2);
  }

  lemma BeforeFinished(g: Cfg, seen: set<nat>, here: Site, s: Site)
    requires Position(g, seen, here) && Before(g, s, here)
    ensures Finished(seen, here, s) && !Before(g, here, s)
  {
    if s.block != here.block { assert StrictDom(g, s.block, here.block); }
  }

  lemma NotAfter(g: Cfg, seen: set<nat>, here: Site, s: Site)
    requires Position(g, seen, here) && Finished(seen, here, s)
    ensures !Before(g, here, s)
  { }

  /** A register that is kept and whose definition dominates `here`. */
  ghost predicate KeptAbove(p: Prog, marks: seq<seq<bool>>, r: nat, here: Site) {
    exists u :: DefinedAt(p, r, u) && Before(p.g, u, here) && !Marked(marks, u)
  }

  function Mark(marks: seq<seq<bool>>, s: Site): seq<seq<bool>>
    requires s.block < |marks| && s.pos < |marks[s.block]|
  {
    marks[s.block := marks[s.block][s.pos := true]]
  }

  // ----- steps of the walk -----

  lemma SkipSound(p0: Prog, p: Prog, marks: seq<seq<bool>>, uses: map<nat, seq<Site>>, seen: set<nat>, here: Site)
    requires Sound(p0, p, marks, uses, seen, here)
    ensures Sound(p0, p, marks, uses, seen, Next(here))
  {
    hide Listed, Marked, Strict, SameRuns, SameDefs, MarksOk, ListsValid;
  }

  lemma SubstUnread(p: Prog, d: nat, ref: nat, r: nat)
    requires d != ref && r != ref && (r == d || Unread(p, r))
    ensures Unread(Subst(p, d, ref), r)
  {
    forall t | ValidSite(Subst(p, d, ref), t) ensures !UsesReg(At(Subst(p, d, ref), t), r) {
      SubstAt(p, d, ref, t);
      SubstUses(At(p, t), d, ref, r);
    }
  }

  lemma SubstMarks(p: Prog, marks: seq<seq<bool>>, here: Site, d: nat, ref: nat)
    requires Strict(p) && MarksOk(p, marks) && DefinedAt(p, d, here) && !At(p, here).Other? && d != ref
    requires KeptAbove(p, marks, ref, here)
    ensures MarksOk(Subst(p, d, ref), Mark(marks, here))
  {
    var q, marks' := Subst(p, d, ref), Mark(marks, here);
    SubstSameDefs(p, d, ref);
    SameSites(p, q);
    forall s | ValidSite(q, s) && Marked(marks', s) ensures !At(q, s).Other? && Unread(q, DefOf(At(q, s))) {
      SubstAt(p, d, ref, s);
      var r := DefOf(At(p, s));
      assert s != here ==> Marked(marks, s);
      var u :| DefinedAt(p, ref, u) && Before(p.g, u, here) && !Marked(marks, u);
      assert r == ref ==> DefinedAt(p, ref, s);
      SubstUnread(p, d, ref, r);
    }
  }

  lemma SubstPending(p: Prog, uses: map<nat, seq<Site>>, seen: set<nat>, here: Site, d: nat, ref: nat)
    requires Strict(p) && Pending(p, uses, seen, here) && DefinedAt(p, d, here) && d != ref
    requires exists u :: DefinedAt(p, ref, u) && Finished(seen, here, u)
    ensures Pending(Subst(p, d, ref), uses, seen, Next(here))
  {
    var q := Subst(p, d, ref);
    SubstSameDefs(p, d, ref);
    SameSites(p, q);
    var u :| DefinedAt(p, ref, u) && Finished(seen, here, u);
    forall s, r: nat | DefinedAt(q, r, s) && !Finished(seen, Next(here), s) ensures Listed(q, uses, r) {
      assert DefinedAt(p, r, s) && Listed(p, uses, r);
      forall t | ValidSite(q, t) && UsesReg(At(q, t), r) ensures t in UsesOf(uses, r) {
        SubstAt(p, d, ref, t);
        SubstUses(At(p, t), d, ref, r);
      }
    }
  }

  lemma NotReadAbove(p: Prog, seen: set<nat>, here: Site, d: nat, s: Site)
    requires Strict(p) && DefinedAt(p, d, here) && Position(p.g, seen, here)
    requires ValidSite(p, s) && Finished(seen, here, s) && !At(p, s).Phi?
    ensures !UsesReg(At(p, s), d)
  {
    hide Position, Finished;
    if UsesReg(At(p, s), d) {
      assert UsesOk(p, s);
      var u :| DefinedAt(p, d, u) && Before(p.g, u, s);
      NotAfter(p.g, seen, here, s);
    }
  }

  lemma SubstFrame(p: Prog, marks: seq<seq<bool>>, seen: set<nat>, here: Site, d: nat, ref: nat)
    requires Strict(p) && MarksFit(p, marks) && DefinedAt(p, d, here) && Position(p.g, seen, here)
    ensures Steady(p, marks, Subst(p, d, ref), Mark(marks, here), seen, here)
  {
    SubstSameDefs(p, d, ref);
    forall s | ValidSite(p, s) && Finished(seen, here, s)
      ensures (Marked(marks, s) <==> Marked(Mark(marks, here), s)) && (!At(p, s).Phi? ==> At(Subst(p, d, ref), s) == At(p, s))
    {
      SubstAt(p, d, ref, s);
      if !At(p, s).Phi? {
        NotReadAbove(p, seen, here, d, s);
        SubstNoUse(At(p, s), d, ref);
      }
    }
  }

  /** Marking the definition at `here` and replacing its register by one of the same value. */
  lemma ReplaceSound(p0: Prog, p: Prog, marks: seq<seq<bool>>, uses: map<nat, seq<Site>>, seen: set<nat>, here: Site, ref: nat)
    requires Sound(p0, p, marks, uses, seen, here) && Position(p.g, seen, here)
    requires MayReplace(p, here, ref) && KeptAbove(p, marks, ref, here)
    ensures DefOf(At(p, here)) >= 0 && DefOf(At(p, here)) != ref
    ensures Sound(p0, Subst(p, DefOf(At(p, here)), ref), Mark(marks, here), uses, seen, Next(here))
    ensures Steady(p, marks, Subst(p, DefOf(At(p, here)), ref), Mark(marks, here), seen, here)
  {
    RefAvail(p, here, ref);
    var d: nat := DefOf(At(p, here));
    var q := Subst(p, d, ref);
    SubstKeeps(p, here, ref);
    SubstSameDefs(p, d, ref);
    SameDefsTrans(p0, p, q);
    SameSites(p, q);
    SubstMarks(p, marks, here, d, ref);
    var u :| DefinedAt(p, ref, u) && Before(p.g, u, here) && !Marked(marks, u);
    BeforeFinished(p.g, seen, here, u);
    SubstPending(p, uses, seen, here, d, ref);
    SubstFrame(p, marks, seen, here, d, ref);
    RunsTrans(p0, p, q);
    assert MarkedFinished(q, Mark(marks, here), seen, Next(here)) by {
      forall s | ValidSite(q, s) && Marked(Mark(marks, here), s) ensures Finished(seen, Next(here), s) {
        assert s == here || Marked(marks, s);
      }
    }
  }

  lemma RunsTrans(p: Prog, q: Prog, r: Prog)
    requires SameRuns(p, q) && SameRuns(q, r)
    ensures SameRuns(p, r)
  { }

  /** Putting a constant for the computation at `here`. */
  lemma FoldSound(p0: Prog, p: Prog, marks: seq<seq<bool>>, uses: map<nat, seq<Site>>, seen: set<nat>, here: Site, v: Word)
    requires Sound(p0, p, marks, uses, seen, here) && Position(p.g, seen, here) && MayFold(p, here, v)
    ensures Sound(p0, Put(p, here, Def(At(p, here).r, Const(v))), marks, uses, seen, Next(here))
    ensures Steady(p, marks, Put(p, here, Def(At(p, here).r, Const(v))), marks, seen, here)
  {
    var x := Def(At(p, here).r, Const(v));
    var q := Put(p, here, x);
    FoldKeeps(p, here, v);
    PutSameDefs(p, here, x);
    SameDefsTrans(p0, p, q);
    SameSites(p, q);
    RunsTrans(p0, p, q);
    forall s, r: nat | ValidSite(q, s) && UsesReg(At(q, s), r) ensures UsesReg(At(p, s), r) { assert s == here || At(q, s) == At(p, s); }
    assert MarksOk(q, marks) by {
      forall s | ValidSite(q, s) && Marked(marks, s) ensures !At(q, s).Other? && Unread(q, DefOf(At(q, s))) {
        assert Unread(p, DefOf(At(p, s)));
      }
    }
    assert Pending(q, uses, seen, Next(here)) by {
      forall s, r: nat | DefinedAt(q, r, s) && !Finished(seen, Next(here), s) ensures Listed(q, uses, r) {
        assert DefinedAt(p, r, s) && Listed(p, uses, r);
      }
    }
  }

  // ----- tables -----

  ghost predicate SameKey(q: Pure, key: Pure) {
    q == key || (q.Binary? && Commutes(q.bop) && key == Binary(q.bop, q.y, q.x))
  }

  lemma SameKeyEval(q: Pure, key: Pure, sem: Sem, env: Env)
    requires SameKey(q, key)
    ensures Eval(sem, q, env) == Eval(sem, key, env)
  {
    if q != key { CommutesGives(q.bop, Get(env, q.x), Get(env, q.y)); }
  }

  /** A kept definition of `r` by a computation with this key dominates `t`. */
  ghost predicate Entry(p: Prog, marks: seq<seq<bool>>, key: Pure, r: nat, t: Site) {
    exists s :: EntryAt(p, marks, key, r, t, s)
  }

  ghost predicate EntryAt(p: Prog, marks: seq<seq<bool>>, key: Pure, r: nat, t: Site, s: Site) {
    ValidSite(p, s) && At(p, s).Def? && At(p, s).r == r && SameKey(At(p, s).p, key) && Before(p.g, s, t) && !Marked(marks, s)
  }

  /** A commutable computation is present in both orders or in neither. */
  ghost predicate Symmetric(values: map<Pure, nat>) {
    forall op, x: nat, y: nat :: Binary(op, x, y) in values && Commutes(op) ==> Binary(op, y, x) in values
  }

  ghost predicate TablesOk(p: Prog, marks: seq<seq<bool>>, values: map<Pure, nat>, consts: map<nat, Word>, t: Site) {
    && (forall key :: key in values ==> Entry(p, marks, key, values[key], t))
    && (forall r: nat :: r in consts ==> Entry(p, marks, Const(consts[r]), r, t))
    && Symmetric(values)
  }

  lemma EntryMove(p: Prog, marks: seq<seq<bool>>, p': Prog, marks': seq<seq<bool>>, seen: set<nat>, here: Site,
                  key: Pure, r: nat, t: Site, t': Site)
    requires Steady(p, marks, p', marks', seen, here) && Entry(p, marks, key, r, t)
    requires forall s :: ValidSite(p, s) && Before(p.g, s, t) ==> Finished(seen, here, s) && Before(p.g, s, t')
    ensures Entry(p', marks', key, r, t')
  {
    var s :| EntryAt(p, marks, key, r, t, s);
    SameSites(p, p');
    assert EntryAt(p', marks', key, r, t', s);
  }

  /** The tables stay right while code that does not dominate changes, and further down. */
  lemma TablesMove(p: Prog, marks: seq<seq<bool>>, p': Prog, marks': seq<seq<bool>>, seen: set<nat>, here: Site,
                   values: map<Pure, nat>, consts: map<nat, Word>, t: Site, t': Site)
    requires Steady(p, marks, p', marks', seen, here) && TablesOk(p, marks, values, consts, t)
    requires forall s :: ValidSite(p, s) && Before(p.g, s, t) ==> Finished(seen, here, s) && Before(p.g, s, t')
    ensures TablesOk(p', marks', values, consts, t')
  {
    hide Steady, Entry, Finished, Before, Symmetric;
    forall key | key in values ensures Entry(p', marks', key, values[key], t') {
      EntryMove(p, marks, p', marks', seen, here, key, values[key], t, t');
    }
    forall r: nat | r in consts ensures Entry(p', marks', Const(consts[r]), r, t') {
      EntryMove(p, marks, p', marks', seen, here, Const(consts[r]), r, t, t');
    }
  }

  /** From one instruction to the next. */
  lemma TablesStep(p: Prog, marks: seq<seq<bool>>, p': Prog, marks': seq<seq<bool>>, seen: set<nat>, here: Site,
                   values: map<Pure, nat>, consts: map<nat, Word>)
    requires Steady(p, marks, p', marks', seen, here) && Position(p.g, seen, here) && TablesOk(p, marks, values, consts, here)
    ensures TablesOk(p', marks', values, consts, Next(here))
  {
    hide TablesOk, Steady;
    forall s | Before(p.g, s, here) ensures Finished(seen, here, s) && Before(p.g, s, Next(here)) {
      BeforeFinished(p.g, seen, here, s);
    }
    TablesMove(p, marks, p', marks', seen, here, values, consts, here, Next(here));
  }

  /** Entering the computation just passed, in both orders where it commutes. */
  function WithKey(values: map<Pure, nat>, key: Pure, r: nat): map<Pure, nat> {
    if key.Binary? && Commutes(key.bop) then values[key := r][Binary(key.bop, key.y, key.x) := r] else values[key := r]
  }

  lemma TablesInsert(p: Prog, marks: seq<seq<bool>>, values: map<Pure, nat>, consts: map<nat, Word>, here: Site)
    requires TablesOk(p, marks, values, consts, Next(here)) && ValidSite(p, here) && At(p, here).Def? && !Marked(marks, here)
    ensures TablesOk(p, marks, WithKey(values, At(p, here).p, At(p, here).r), consts, Next(here))
    ensures At(p, here).p.Const? ==>
      TablesOk(p, marks, WithKey(values, At(p, here).p, At(p, here).r), consts[At(p, here).r := At(p, here).p.v], Next(here))
  {
    var key, r := At(p, here).p, At(p, here).r;
    var values' := WithKey(values, key, r);
    forall k | k in values' ensures Entry(p, marks, k, values'[k], Next(here)) {
      if values'[k] == r && SameKey(key, k) {
        assert EntryAt(p, marks, k, r, Next(here), here);
      }
    }
    if key.Const? { assert EntryAt(p, marks, key, r, Next(here), here); }
  }

  // ----- why each replacement is right -----

  lemma EntryValue(p: Prog, marks: seq<seq<bool>>, key: Pure, r: nat, here: Site, sem: Sem, env: Env)
    requires Entry(p, marks, key, r, here) && Holds(p, sem, env, here)
    ensures Get(env, r) == Eval(sem, key, env)
  {
    var s :| EntryAt(p, marks, key, r, here, s);
    SameKeyEval(At(p, s).p, key, sem, env);
  }

  lemma EntryKept(p: Prog, marks: seq<seq<bool>>, key: Pure, r: nat, here: Site)
    requires Entry(p, marks, key, r, here)
    ensures KeptAbove(p, marks, r, here) && Avail(p, r, here)
  {
    var s :| EntryAt(p, marks, key, r, here, s);
    assert DefinedAt(p, r, s);
  }

  /** A register of the table computes the same. */
  lemma HitOk(p: Prog, marks: seq<seq<bool>>, here: Site, key: Pure, ref: nat)
    requires ValidSite(p, here) && At(p, here).Def? && Entry(p, marks, key, ref, here)
    requires forall sem, env :: Holds(p, sem, env, here) ==> Eval(sem, At(p, here).p, env) == Eval(sem, key, env)
    ensures MayReplace(p, here, ref) && KeptAbove(p, marks, ref, here)
  {
    hide Entry, Holds, KeptAbove;
    EntryKept(p, marks, key, ref, here);
    forall sem, env | Holds(p, sem, env, here) ensures Eval(sem, At(p, here).p, env) == Get(env, ref) {
      EntryValue(p, marks, key, ref, here, sem, env);
    }
  }

  /** What the table of constants says of a register. */
  function KnownOf(consts: map<nat, Word>, r: nat): Known {
    if r in consts then Value(consts[r]) else Unknown
  }

  lemma KnownRight(p: Prog, marks: seq<seq<bool>>, values: map<Pure, nat>, consts: map<nat, Word>, here: Site, r: nat, sem: Sem, env: Env)
    requires TablesOk(p, marks, values, consts, here) && Holds(p, sem, env, here)
    ensures Knows(KnownOf(consts, r), Get(env, r))
  {
    if r in consts { EntryValue(p, marks, Const(consts[r]), r, here, sem, env); }
  }

  lemma OperandKept(p: Prog, marks: seq<seq<bool>>, here: Site, ref: nat)
    requires Strict(p) && MarksOk(p, marks) && ValidSite(p, here) && !At(p, here).Phi? && UsesReg(At(p, here), ref)
    ensures KeptAbove(p, marks, ref, here) && Avail(p, ref, here)
  {
    assert UsesOk(p, here);
    var u :| DefinedAt(p, ref, u) && Before(p.g, u, here);
    assert Marked(marks, u) ==> Unread(p, ref);
  }

  /** The result is one of the operands. */
  lemma OperandOk(p: Prog, marks: seq<seq<bool>>, here: Site, ref: nat)
    requires Strict(p) && MarksOk(p, marks) && ValidSite(p, here) && At(p, here).Def? && ref in Operands(At(p, here).p)
    requires forall sem, env :: Holds(p, sem, env, here) ==> Eval(sem, At(p, here).p, env) == Get(env, ref)
    ensures MayReplace(p, here, ref) && KeptAbove(p, marks, ref, here)
  {
    hide Strict, MarksOk, Holds;
    OperandKept(p, marks, here, ref);
  }

  /** All arms of a phi instruction name one other register. */
  lemma PhiOk(p: Prog, marks: seq<seq<bool>>, here: Site, ref: nat)
    requires Strict(p) && MarksOk(p, marks) && ValidSite(p, here) && At(p, here).Phi?
    requires OneValue(At(p, here).arms, At(p, here).r, ref) && UsesReg(At(p, here), ref)
    ensures MayReplace(p, here, ref) && KeptAbove(p, marks, ref, here)
  {
    assert PhiAt(p, here, At(p, here).r, ref);
    var u := PhiRefAbove(p, here, At(p, here).r, ref);
    assert Marked(marks, u) ==> Unread(p, ref);
  }
}
