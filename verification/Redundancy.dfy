/** What global value numbering finds (src/ir/opt/gvn.cpp): the tables know every kept computation above, and what has
    been visited and kept is neither computed above nor reducible to a constant or an operand. */
module Redundancy {
  import opened Dominators
  import opened Ssa
  import opened SsaRewrites
  import opened ValueNumbering

  // ----- what counts as redundant -----

  ghost predicate KeptDef(p: Prog, marks: seq<seq<bool>>, s: Site) {
    ValidSite(p, s) && At(p, s).Def? && !Marked(marks, s)
  }

  /** A kept instruction defines `r` as the constant `v`. */
  ghost predicate ConstReg(p: Prog, marks: seq<seq<bool>>, r: nat, v: Word) {
    exists u :: KeptDef(p, marks, u) && At(p, u) == Def(r, Const(v))
  }

  ghost predicate KnownAs(p: Prog, marks: seq<seq<bool>>, r: nat, k: Known) {
    k.Value? ==> ConstReg(p, marks, r, k.v)
  }

  /** The computation is that of a constant, or gives one of its operands. */
  ghost predicate Reducible(p: Prog, marks: seq<seq<bool>>, q: Pure) {
    match q
    case Unary(op, x) => op == ID || exists v :: ConstReg(p, marks, x, v)
    case Binary(op, x, y) =>
      exists a, b :: KnownAs(p, marks, x, a) && KnownAs(p, marks, y, b) && (Useless(op, a, b) || (a.Value? && b.Value?))
    case Index(_, y, _) => ConstReg(p, marks, y, 0)
    case _ => false
  }

  /** No kept instruction above computes the same. */
  ghost predicate NewAt(p: Prog, marks: seq<seq<bool>>, t: Site)
    requires ValidSite(p, t) && At(p, t).Def?
  {
    forall s :: KeptDef(p, marks, s) && Before(p.g, s, t) ==> !SameKey(At(p, s).p, At(p, t).p)
  }

  ghost predicate CleanAt(p: Prog, marks: seq<seq<bool>>, t: Site)
    requires ValidSite(p, t) && At(p, t).Def?
  {
    !Reducible(p, marks, At(p, t).p) && NewAt(p, marks, t)
  }

  /** Nothing that has been visited and kept is redundant. */
  ghost predicate Clean(p: Prog, marks: seq<seq<bool>>, seen: set<nat>, here: Site) {
    forall t :: KeptDef(p, marks, t) && Finished(seen, here, t) ==> CleanAt(p, marks, t)
  }

  /** The tables hold every kept computation above `t`. */
  ghost predicate Complete(p: Prog, marks: seq<seq<bool>>, values: map<Pure, nat>, consts: map<nat, Word>, t: Site) {
    forall s :: KeptDef(p, marks, s) && Before(p.g, s, t) ==> EntryIn(values, consts, At(p, s))
  }

  predicate EntryIn(values: map<Pure, nat>, consts: map<nat, Word>, i: Instr)
    requires i.Def?
  {
    i.p in values && (i.p.Const? ==> i.r in consts && consts[i.r] == i.p.v)
  }

  /** What the tables tell of a computation. */
  predicate Foldable(consts: map<nat, Word>, q: Pure) {
    match q
    case Unary(op, x) => op == ID || x in consts
    case Binary(op, x, y) => (x in consts && y in consts) || Useless(op, KnownOf(consts, x), KnownOf(consts, y))
    case Index(_, y, _) => y in consts && consts[y] == 0
    case _ => false
  }

  // ----- a new entry is not redundant -----

  /** An operand that is a constant is in the table of constants. */
  lemma OperandKnown(p: Prog, marks: seq<seq<bool>>, values: map<Pure, nat>, consts: map<nat, Word>, here: Site, x: nat, v: Word)
    requires Strict(p) && Complete(p, marks, values, consts, here) && ValidSite(p, here) && At(p, here).Def?
    requires x in Operands(At(p, here).p) && ConstReg(p, marks, x, v)
    ensures x in consts && consts[x] == v
  {
    assert UsesOk(p, here) && UsesReg(At(p, here), x);
    var u :| DefinedAt(p, x, u) && Before(p.g, u, here);
    var w :| KeptDef(p, marks, w) && At(p, w) == Def(x, Const(v));
    assert DefinedAt(p, x, w);
  }

  lemma UselessMore(op: BinOp, a: Known, b: Known, a': Known, b': Known)
    requires Useless(op, a, b) && (a.Value? ==> a' == a) && (b.Value? ==> b' == b)
    ensures Useless(op, a', b')
  { }

  lemma NotReducible(p: Prog, marks: seq<seq<bool>>, values: map<Pure, nat>, consts: map<nat, Word>, here: Site)
    requires Strict(p) && Complete(p, marks, values, consts, here) && ValidSite(p, here) && At(p, here).Def?
    requires !Foldable(consts, At(p, here).p)
    ensures !Reducible(p, marks, At(p, here).p)
  {
    hide Strict, Complete, ConstReg, Useless;
    var q := At(p, here).p;
    forall x, v | x in Operands(q) && ConstReg(p, marks, x, v) ensures x in consts && consts[x] == v {
      OperandKnown(p, marks, values, consts, here, x, v);
    }
    match q
    case Unary(op, x) => assert x in Operands(q);
    case Binary(op, x, y) =>
      assert x in Operands(q) && y in Operands(q);
      forall a, b | KnownAs(p, marks, x, a) && KnownAs(p, marks, y, b) ensures !Useless(op, a, b) && !(a.Value? && b.Value?) {
        if Useless(op, a, b) { UselessMore(op, a, b, KnownOf(consts, x), KnownOf(consts, y)); }
      }
    case Index(_, y, _) =>
      var zero: Word := 0;
      assert y in Operands(q) && !ConstReg(p, marks, y, zero);
    case _ =>
  }

  lemma NotComputedAbove(p: Prog, marks: seq<seq<bool>>, values: map<Pure, nat>, consts: map<nat, Word>, here: Site)
    requires Complete(p, marks, values, consts, here) && Symmetric(values)
    requires ValidSite(p, here) && At(p, here).Def? && At(p, here).p !in values
    ensures NewAt(p, marks, here)
  {
    var key := At(p, here).p;
    forall s | KeptDef(p, marks, s) && Before(p.g, s, here) ensures !SameKey(At(p, s).p, key) {
      var q := At(p, s).p;
      assert EntryIn(values, consts, At(p, s));
      if q.Binary? && Commutes(q.bop) { assert Binary(q.bop, q.y, q.x) in values; }
    }
  }

  // ----- later changes elsewhere -----

  lemma AboveFinished(g: Cfg, seen: set<nat>, here: Site, s: Site, t: Site)
    requires Position(g, seen, here) && Finished(seen, here, t) && Before(g, s, t)
    ensures Finished(seen, here, s)
  {
    if t.block !in seen && s.block != t.block { assert StrictDom(g, s.block, here.block); }
  }

  lemma KeptBack(p: Prog, marks: seq<seq<bool>>, p': Prog, marks': seq<seq<bool>>, seen: set<nat>, here: Site, s: Site)
    requires Steady(p, marks, p', marks', seen, here) && Finished(seen, here, s)
    ensures KeptDef(p, marks, s) ==> KeptDef(p', marks', s) && At(p', s) == At(p, s)
    ensures KeptDef(p', marks', s) && ValidSite(p, s) && !At(p, s).Other? ==> KeptDef(p, marks, s) && At(p', s) == At(p, s)
    ensures KeptDef(p', marks', s) ==> KeptDef(p, marks, s) && At(p', s) == At(p, s)
  {
    SameSites(p, p');
  }

  /** A register that is a constant afterwards and is read by finished code was one before. */
  lemma ConstBack(p: Prog, marks: seq<seq<bool>>, p': Prog, marks': seq<seq<bool>>, seen: set<nat>, here: Site, t: Site, x: nat, v: Word)
    requires Strict(p) && Position(p.g, seen, here) && Steady(p, marks, p', marks', seen, here)
    requires KeptDef(p, marks, t) && Finished(seen, here, t) && x in Operands(At(p, t).p) && ConstReg(p', marks', x, v)
    ensures ConstReg(p, marks, x, v)
  {
    assert UsesOk(p, t) && UsesReg(At(p, t), x);
    var u :| DefinedAt(p, x, u) && Before(p.g, u, t);
    AboveFinished(p.g, seen, here, u, t);
    var w :| KeptDef(p', marks', w) && At(p', w) == Def(x, Const(v));
    SameSites(p, p');
    assert DefinedAt(p', x, w) && DefinedAt(p, x, w);
    KeptBack(p, marks, p', marks', seen, here, u);
  }

  lemma ReducibleBack(p: Prog, marks: seq<seq<bool>>, p': Prog, marks': seq<seq<bool>>, seen: set<nat>, here: Site, t: Site)
    requires Strict(p) && Position(p.g, seen, here) && Steady(p, marks, p', marks', seen, here)
    requires KeptDef(p, marks, t) && Finished(seen, here, t)
    ensures Reducible(p', marks', At(p, t).p) ==> Reducible(p, marks, At(p, t).p)
  {
    hide Strict, Position, Steady, ConstReg, Useless, Finished, Marked;
    var q := At(p, t).p;
    forall x, v | x in Operands(q) && ConstReg(p', marks', x, v) ensures ConstReg(p, marks, x, v) {
      ConstBack(p, marks, p', marks', seen, here, t, x, v);
    }
    match q
    case Unary(op, x) => assert x in Operands(q);
    case Binary(op, x, y) =>
      assert x in Operands(q) && y in Operands(q);
      if Reducible(p', marks', q) {
        var a, b :| KnownAs(p', marks', x, a) && KnownAs(p', marks', y, b) && (Useless(op, a, b) || (a.Value? && b.Value?));
        assert KnownAs(p, marks, x, a) && KnownAs(p, marks, y, b);
      }
    case Index(_, y, _) =>
      var zero: Word := 0;
      assert y in Operands(q) && (ConstReg(p', marks', y, zero) ==> ConstReg(p, marks, y, zero));
    case _ =>
  }

  lemma CleanAtMove(p: Prog, marks: seq<seq<bool>>, p': Prog, marks': seq<seq<bool>>, seen: set<nat>, here: Site, t: Site)
    requires Strict(p) && Position(p.g, seen, here) && Steady(p, marks, p', marks', seen, here)
    requires KeptDef(p', marks', t) && Finished(seen, here, t)
    requires KeptDef(p, marks, t) ==> CleanAt(p, marks, t)
    ensures CleanAt(p', marks', t)
  {
    SteadyCfg(p, marks, p', marks', seen, here);
    hide Strict, Position, Steady, Reducible, SameKey, Finished, Marked;
    KeptBack(p, marks, p', marks', seen, here, t);
    ReducibleBack(p, marks, p', marks', seen, here, t);
    forall s | KeptDef(p', marks', s) && Before(p'.g, s, t) ensures !SameKey(At(p', s).p, At(p', t).p) {
      AboveFinished(p.g, seen, here, s, t);
      KeptBack(p, marks, p', marks', seen, here, s);
    }
  }

  lemma SteadyCfg(p: Prog, marks: seq<seq<bool>>, p': Prog, marks': seq<seq<bool>>, seen: set<nat>, here: Site)
    requires Steady(p, marks, p', marks', seen, here)
    ensures p'.g == p.g
  { }

  // ----- one step of the walk -----

  /** What is visited next is marked or enters the tables as something new. */
  ghost predicate Tabled(p: Prog, marks: seq<seq<bool>>, values: map<Pure, nat>, consts: map<nat, Word>, here: Site) {
    KeptDef(p, marks, here) ==> CleanAt(p, marks, here) && EntryIn(values, consts, At(p, here))
  }

  lemma CleanStep(p: Prog, marks: seq<seq<bool>>, p': Prog, marks': seq<seq<bool>>, seen: set<nat>, here: Site,
                  values: map<Pure, nat>, consts: map<nat, Word>)
    requires Strict(p) && Position(p.g, seen, here) && Steady(p, marks, p', marks', seen, here)
    requires Clean(p, marks, seen, here) && Tabled(p', marks', values, consts, here)
    ensures Clean(p', marks', seen, Next(here))
  {
    hide Strict, Position, Steady, CleanAt, Marked;
    forall t | KeptDef(p', marks', t) && Finished(seen, Next(here), t) ensures CleanAt(p', marks', t) {
      if Finished(seen, here, t) { CleanAtMove(p, marks, p', marks', seen, here, t); }
    }
  }

  lemma CompleteStep(p: Prog, marks: seq<seq<bool>>, p': Prog, marks': seq<seq<bool>>, seen: set<nat>, here: Site,
                     values: map<Pure, nat>, consts: map<nat, Word>, values': map<Pure, nat>, consts': map<nat, Word>)
    requires Position(p.g, seen, here) && Steady(p, marks, p', marks', seen, here)
    requires Complete(p, marks, values, consts, here) && Tabled(p', marks', values', consts', here)
    requires (forall k :: k in values ==> k in values') && forall r: nat :: r in consts ==> r in consts' && consts'[r] == consts[r]
    ensures Complete(p', marks', values', consts', Next(here))
  {
    SteadyCfg(p, marks, p', marks', seen, here);
    hide Steady, CleanAt, Marked, Position, Finished;
    forall s | KeptDef(p', marks', s) && Before(p'.g, s, Next(here)) ensures EntryIn(values', consts', At(p', s)) {
      if s != here {
        assert Before(p.g, s, here);
        BeforeFinished(p.g, seen, here, s);
        KeptBack(p, marks, p', marks', seen, here, s);
        assert EntryIn(values, consts, At(p, s));
      }
    }
  }

  // ----- down the tree and back -----

  lemma CompleteBelow(p: Prog, marks: seq<seq<bool>>, values: map<Pure, nat>, consts: map<nat, Word>, node: nat, c: nat)
    requires node < |p.code| && Complete(p, marks, values, consts, EndOf(p, node)) && ImmediateDom(p.g, node, c)
    ensures Complete(p, marks, values, consts, Site(c, 0))
  {
    hide Marked;
    forall s | KeptDef(p, marks, s) && Before(p.g, s, Site(c, 0)) ensures EntryIn(values, consts, At(p, s)) {
      assert StrictDom(p.g, s.block, c);
      assert Before(p.g, s, EndOf(p, node));
    }
  }

  lemma CompleteMove(p: Prog, marks: seq<seq<bool>>, p': Prog, marks': seq<seq<bool>>, seen: set<nat>, here: Site,
                     values: map<Pure, nat>, consts: map<nat, Word>, t: Site)
    requires Steady(p, marks, p', marks', seen, here) && Complete(p, marks, values, consts, t)
    requires forall s :: ValidSite(p, s) && Before(p.g, s, t) ==> Finished(seen, here, s)
    ensures Complete(p', marks', values, consts, t)
  {
    SteadyCfg(p, marks, p', marks', seen, here);
    SteadyValid(p, marks, p', marks', seen, here);
    hide Steady, Marked, Finished;
    forall s | KeptDef(p', marks', s) && Before(p'.g, s, t) ensures EntryIn(values, consts, At(p', s)) {
      KeptBack(p, marks, p', marks', seen, here, s);
    }
  }

  lemma SteadyValid(p: Prog, marks: seq<seq<bool>>, p': Prog, marks': seq<seq<bool>>, seen: set<nat>, here: Site)
    requires Steady(p, marks, p', marks', seen, here)
    ensures forall s :: ValidSite(p, s) <==> ValidSite(p', s)
  {
    SameSites(p, p');
  }

  lemma CleanSame(p: Prog, marks: seq<seq<bool>>, seen: set<nat>, here: Site, seen': set<nat>, here': Site)
    requires Clean(p, marks, seen, here)
    requires forall s :: ValidSite(p, s) ==> (Finished(seen, here, s) <==> Finished(seen', here', s))
    ensures Clean(p, marks, seen', here')
  {
    hide CleanAt, Finished, Marked;
  }

  // ----- phi instructions with one value -----

  /** The arms of the phi instruction name one register besides its own. */
  ghost predicate OneOther(p: Prog, t: Site) {
    && ValidSite(p, t) && At(p, t).Phi?
    && exists ref: nat :: OneValue(At(p, t).arms, At(p, t).r, ref) && UsesReg(At(p, t), ref)
  }

  /** Such instructions of the original program stay so until they are visited, and are then marked. */
  ghost predicate PhisDone(p0: Prog, p: Prog, marks: seq<seq<bool>>, seen: set<nat>, here: Site) {
    forall t :: OneOther(p0, t) ==> if Finished(seen, here, t) then Marked(marks, t) else OneOther(p, t)
  }

  lemma SubstOneOther(p: Prog, d: nat, ref: nat, t: Site)
    requires OneOther(p, t) && At(p, t).r != d && At(p, t).r != ref
    ensures OneOther(Subst(p, d, ref), t)
  {
    var x := At(p, t);
    var r: nat :| OneValue(x.arms, x.r, r) && UsesReg(x, r);
    SubstAt(p, d, ref, t);
    var r' := SwapReg(r, d, ref);
    var k :| 0 <= k < |x.arms| && x.arms[k].r == r;
    var y := At(Subst(p, d, ref), t);
    assert y.arms[k].r == r';
    assert OneValue(y.arms, y.r, r') && UsesReg(y, r');
  }

  lemma PhisReplace(p0: Prog, p: Prog, marks: seq<seq<bool>>, seen: set<nat>, here: Site, d: nat, ref: nat)
    requires Strict(p) && MarksFit(p, marks) && PhisDone(p0, p, marks, seen, here) && DefinedAt(p, d, here) && Position(p.g, seen, here)
    requires KeptAbove(p, marks, ref, here)
    ensures PhisDone(p0, Subst(p, d, ref), Mark(marks, here), seen, Next(here))
  {
    var u :| DefinedAt(p, ref, u) && Before(p.g, u, here) && !Marked(marks, u);
    BeforeFinished(p.g, seen, here, u);
    forall t | OneOther(p0, t)
      ensures if Finished(seen, Next(here), t) then Marked(Mark(marks, here), t) else OneOther(Subst(p, d, ref), t)
    {
      if !Finished(seen, Next(here), t) {
        assert OneOther(p, t) && DefinedAt(p, At(p, t).r, t);
        SubstOneOther(p, d, ref, t);
      }
    }
  }

  lemma PhisSkip(p0: Prog, p: Prog, marks: seq<seq<bool>>, p': Prog, seen: set<nat>, here: Site)
    requires PhisDone(p0, p, marks, seen, here) && SameDefs(p, p') && ValidSite(p, here) && !OneOther(p, here)
    requires forall t :: ValidSite(p, t) && t != here ==> At(p', t) == At(p, t)
    ensures PhisDone(p0, p', marks, seen, Next(here))
  {
    SameSites(p, p');
    forall t | OneOther(p0, t) ensures if Finished(seen, Next(here), t) then Marked(marks, t) else OneOther(p', t) {
      assert t == here ==> Finished(seen, here, t) || OneOther(p, t);
    }
  }

  lemma PhisSame(p0: Prog, p: Prog, marks: seq<seq<bool>>, seen: set<nat>, here: Site, seen': set<nat>, here': Site)
    requires PhisDone(p0, p, marks, seen, here) && SameDefs(p0, p)
    requires forall s :: ValidSite(p, s) ==> (Finished(seen, here, s) <==> Finished(seen', here', s))
    ensures PhisDone(p0, p, marks, seen', here')
  {
    SameSites(p0, p);
    hide Finished, Marked;
  }

  // ----- what is left -----

  /** The original position of the `i`-th instruction that is kept. */
  function Origin(marks: seq<bool>, i: nat): nat {
    if marks == [] then 0
    else
      var n := |marks| - 1;
      if !marks[n] && i == Unmarked(marks[..n]) then n else Origin(marks[..n], i)
  }

  function Unmarked(marks: seq<bool>): nat {
    if marks == [] then 0 else Unmarked(marks[..|marks| - 1]) + if marks[|marks| - 1] then 0 else 1
  }

  lemma {:induction false} KeptSize(code: seq<Instr>, marks: seq<bool>)
    requires |marks| == |code|
    ensures |Kept(code, marks)| == Unmarked(marks)
  {
    if code != [] { KeptSize(code[..|code| - 1], marks[..|code| - 1]); }
  }

  lemma {:induction false} KeptFrom(code: seq<Instr>, marks: seq<bool>, i: nat)
    requires |marks| == |code| && i < |Kept(code, marks)|
    ensures var o := Origin(marks, i); o < |code| && !marks[o] && Kept(code, marks)[i] == code[o]
  {
    var n := |code| - 1;
    KeptSize(code[..n], marks[..n]);
    if i < |Kept(code[..n], marks[..n])| { KeptFrom(code[..n], marks[..n], i); }
  }

  lemma {:induction false} OriginGrows(marks: seq<bool>, i: nat, j: nat)
    requires i < j < Unmarked(marks)
    ensures Origin(marks, i) < Origin(marks, j) < |marks|
  {
    var n := |marks| - 1;
    OriginBelow(marks, i);
    OriginBelow(marks, j);
    if j < Unmarked(marks[..n]) {
      OriginGrows(marks[..n], i, j);
    } else {
      OriginBelow(marks[..n], i);
    }
  }

  lemma {:induction false} OriginBelow(marks: seq<bool>, i: nat)
    requires i < Unmarked(marks)
    ensures Origin(marks, i) < |marks|
  {
    var n := |marks| - 1;
    if i < Unmarked(marks[..n]) { OriginBelow(marks[..n], i); }
  }

  function OriginOf(marks: seq<seq<bool>>, s: Site): Site {
    if s.block < |marks| then Site(s.block, Origin(marks[s.block], s.pos)) else s
  }

  lemma LeftFrom(p: Prog, marks: seq<seq<bool>>, s: Site)
    requires MarksFit(p, marks) && ValidSite(DropMarked(p, marks), s)
    ensures var o := OriginOf(marks, s);
      ValidSite(p, o) && !Marked(marks, o) && At(p, o) == At(DropMarked(p, marks), s)
  {
    KeptFrom(p.code[s.block], marks[s.block], s.pos);
  }

  lemma BeforeFrom(p: Prog, marks: seq<seq<bool>>, s: Site, t: Site)
    requires MarksFit(p, marks) && ValidSite(DropMarked(p, marks), s) && ValidSite(DropMarked(p, marks), t) && Before(p.g, s, t)
    ensures Before(p.g, OriginOf(marks, s), OriginOf(marks, t))
  {
    if s.block == t.block {
      KeptSize(p.code[s.block], marks[s.block]);
      OriginGrows(marks[s.block], s.pos, t.pos);
    }
  }

  /** No computation of the program is redundant. */
  ghost predicate NothingRedundant(q: Prog) {
    forall t :: KeptDef(q, [], t) ==> CleanAt(q, [], t)
  }

  lemma ConstFrom(p: Prog, marks: seq<seq<bool>>, r: nat, v: Word)
    requires MarksFit(p, marks) && ConstReg(DropMarked(p, marks), [], r, v)
    ensures ConstReg(p, marks, r, v)
  {
    var q := DropMarked(p, marks);
    var u :| KeptDef(q, [], u) && At(q, u) == Def(r, Const(v));
    LeftFrom(p, marks, u);
    assert KeptDef(p, marks, OriginOf(marks, u));
  }

  lemma ReducibleFrom(p: Prog, marks: seq<seq<bool>>, x: Pure)
    requires MarksFit(p, marks) && Reducible(DropMarked(p, marks), [], x)
    ensures Reducible(p, marks, x)
  {
    var q := DropMarked(p, marks);
    hide ConstReg, Useless, DropMarked, MarksFit;
    forall r, v | ConstReg(q, [], r, v) ensures ConstReg(p, marks, r, v) { ConstFrom(p, marks, r, v); }
    if x.Binary? {
      var a, b :| KnownAs(q, [], x.x, a) && KnownAs(q, [], x.y, b) && (Useless(x.bop, a, b) || (a.Value? && b.Value?));
      assert KnownAs(p, marks, x.x, a) && KnownAs(p, marks, x.y, b);
    }
  }

  /** When everything has been visited, what is left has no redundant computation. */
  lemma LeftNotRedundant(p: Prog, marks: seq<seq<bool>>, seen: set<nat>, here: Site)
    requires MarksFit(p, marks) && Clean(p, marks, seen, here) && forall s :: ValidSite(p, s) ==> Finished(seen, here, s)
    ensures NothingRedundant(DropMarked(p, marks))
  {
    var q := DropMarked(p, marks);
    hide Reducible, SameKey, DropMarked, Finished;
    forall t | KeptDef(q, [], t) ensures CleanAt(q, [], t) {
      LeftFrom(p, marks, t);
      var o := OriginOf(marks, t);
      assert KeptDef(p, marks, o) && CleanAt(p, marks, o);
      if Reducible(q, [], At(q, t).p) { ReducibleFrom(p, marks, At(q, t).p); }
      forall s | KeptDef(q, [], s) && Before(q.g, s, t) ensures !SameKey(At(q, s).p, At(q, t).p) {
        LeftFrom(p, marks, s);
        SameCfg(p, marks);
        BeforeFrom(p, marks, s, t);
        assert KeptDef(p, marks, OriginOf(marks, s));
      }
    }
  }

  lemma SameCfg(p: Prog, marks: seq<seq<bool>>)
    requires MarksFit(p, marks)
    ensures DropMarked(p, marks).g == p.g
  { }

  /** Phi instructions with one value are gone: nothing that is left defines their registers. */
  ghost predicate PhisGone(p: Prog, q: Prog) {
    forall t, s :: OneOther(p, t) && ValidSite(q, s) ==> DefOf(At(q, s)) != At(p, t).r
  }

  lemma LeftPhis(p0: Prog, p: Prog, marks: seq<seq<bool>>, seen: set<nat>, here: Site)
    requires Strict(p) && SameDefs(p0, p) && MarksFit(p, marks) && PhisDone(p0, p, marks, seen, here)
    requires forall s :: ValidSite(p, s) ==> Finished(seen, here, s)
    ensures PhisGone(p0, DropMarked(p, marks))
  {
    var q := DropMarked(p, marks);
    SameSites(p0, p);
    hide DropMarked, Finished;
    forall t, s | OneOther(p0, t) && ValidSite(q, s) ensures DefOf(At(q, s)) != At(p0, t).r {
      LeftFrom(p, marks, s);
      var o, r := OriginOf(marks, s), At(p0, t).r;
      assert Marked(marks, t) && DefinedAt(p, r, t);
      assert DefOf(At(p, o)) == r ==> DefinedAt(p, r, o);
    }
  }
}
