/** Global value numbering: a walk over the dominator tree with scoped tables (src/ir/opt/gvn.cpp). The eight tables of
    the source are two maps here: from computations to registers, and from registers to constants. */
module Gvn {
  import opened Dominators
  import opened DominatorTree
  import opened Ssa
  import opened SsaRewrites
  import opened ValueNumbering
  import opened Redundancy

  // ----- scoped tables -----

  /** `now` is `before` with the new keys `keys`, each of them entered once. */
  ghost predicate Extended<K(!new), V>(before: map<K, V>, now: map<K, V>, keys: seq<K>) {
    && (forall k :: k in now <==> k in before || k in keys)
    && (forall k :: k in before ==> now[k] == before[k] && k !in keys)
    && (forall i, j :: 0 <= i < j < |keys| ==> keys[i] != keys[j])
  }

  lemma ExtendedTrans<K(!new), V>(m0: map<K, V>, m1: map<K, V>, m2: map<K, V>, ks: seq<K>, ls: seq<K>)
    requires Extended(m0, m1, ks) && Extended(m1, m2, ls)
    ensures Extended(m0, m2, ks + ls)
  {
    var all := ks + ls;
    forall i, j | 0 <= i < j < |all| ensures all[i] != all[j] {
      if i < |ks| <= j { assert ks[i] in m1; }
    }
  }

  /** Leaving a scope: every key is there to be erased, and the outer table is back. */
  method EraseAll<K(==, !new), V>(ghost before: map<K, V>, now: map<K, V>, keys: seq<K>) returns (m: map<K, V>)
    requires Extended(before, now, keys)
    ensures m == before
  {
    m := now;
    for i := 0 to |keys|
      invariant forall k :: k in m <==> k in before || k in keys[i..]
      invariant forall k :: k in before ==> m[k] == before[k]
    {
      assert keys[i..] == [keys[i]] + keys[i + 1..];
      assert keys[i] in m;
      m := m - {keys[i]};
    }
  }

  // ----- the dominator tree -----

  ghost predicate HasFather(kids: seq<seq<nat>>, c: nat) {
    exists a: nat :: a < |kids| && c in kids[a]
  }

  ghost predicate TreeKids(g: Cfg, kids: seq<seq<nat>>) {
    && |kids| == |g.out|
    && (forall a: nat :: a < |kids| ==> Distinct(kids[a]))
    && (forall a: nat, c: nat {:trigger c in kids[a]} ::
          a < |kids| && c in kids[a] ==> c < |kids| && ImmediateDom(g, a, c))
    && (forall c: nat :: c < |kids| && c != g.entry ==> HasFather(kids, c))
  }

  /** What a block strictly dominates is below one of its children. */
  lemma {:induction false} BelowChild(g: Cfg, kids: seq<seq<nat>>, a: nat, x: nat, path: seq<nat>) returns (j: nat)
    requires ValidCfg(g) && TreeKids(g, kids) && a < |kids| && x < |kids| && StrictDom(g, a, x) && PathTo(g, path, x)
    ensures j < |kids[a]| && Dom(g, kids[a][j], x)
    decreases |path|
  {
    EntryPath(g);
    assert x == g.entry ==> a in [g.entry];
    assert HasFather(kids, x);
    var e: nat :| e < |kids| && x in kids[e];
    if e == a {
      j := IndexOf(kids[a], x);
      forall q | PathTo(g, q, x) ensures x in q { assert q[|q| - 1] in q; }
    } else {
      var i := IndexOf(path, e);
      PathPrefix(g, path, x, i);
      assert Dom(g, a, e);
      j := BelowChild(g, kids, a, e, path[..i + 1]);
      DomTrans(g, kids[a][j], e, x);
    }
  }

  lemma KidsApart(g: Cfg, kids: seq<seq<nat>>, a: nat, i: nat, j: nat, x: nat)
    requires ValidCfg(g) && TreeKids(g, kids) && a < |kids| && i < j < |kids[a]|
    requires Dom(g, kids[a][i], x) && Reachable(g, x)
    ensures !Dom(g, kids[a][j], x)
  {
    var c, d := kids[a][i], kids[a][j];
    assert c in kids[a] && d in kids[a] && c != d;
    if Dom(g, d, x) {
      DomChain(g, c, d, x);
      DomReachable(g, c, x);
      DomReachable(g, d, x);
      if Dom(g, c, d) { NotBelowFather(g, a, c, d); } else { NotBelowFather(g, a, d, c); }
    }
  }

  lemma NotAboveFather(g: Cfg, a: nat, c: nat)
    requires ImmediateDom(g, a, c) && Reachable(g, c)
    ensures !Dom(g, c, a)
  {
    if Dom(g, c, a) {
      var path :| PathTo(g, path, c);
      DomAntisym(g, c, a, path);
    }
  }

  lemma NotBelowFather(g: Cfg, a: nat, c: nat, d: nat)
    requires ImmediateDom(g, a, c) && ImmediateDom(g, a, d) && Reachable(g, c) && c != d
    ensures !Dom(g, c, d)
  {
    NotAboveFather(g, a, c);
    assert StrictDom(g, c, d) ==> Dom(g, c, a);
  }

  ghost predicate KidsUpTo(fa: seq<int>, kids: seq<seq<nat>>, x: nat) {
    && x <= |fa| == |kids|
    && (forall a: nat, c: nat {:trigger c in kids[a]} :: a < |kids| && c in kids[a] ==> c < x && fa[c] == a)
    && (forall c: nat :: c < x && fa[c] >= 0 ==> fa[c] < |kids| && c in kids[fa[c]])
  }

  lemma KidsStep(fa: seq<int>, kids: seq<seq<nat>>, x: nat)
    requires KidsUpTo(fa, kids, x) && x < |fa| && 0 <= fa[x] < |kids|
    ensures KidsUpTo(fa, kids[fa[x] := kids[fa[x]] + [x]], x + 1)
  {
    var kids' := kids[fa[x] := kids[fa[x]] + [x]];
    forall a: nat, c: nat | a < |kids'| && c in kids'[a] ensures c < x + 1 && fa[c] == a {
      if a == fa[x] {
        assert kids'[a] == kids[a] + [x];
        assert c in kids[a] || c == x;
      } else {
        assert c in kids[a];
      }
    }
    forall c: nat | c < x + 1 && fa[c] >= 0 ensures fa[c] < |kids'| && c in kids'[fa[c]] {
      if c < x { assert c in kids[fa[c]]; }
    }
  }

  method KidsOf(g: Cfg, d: DomInfo) returns (kids: seq<seq<nat>>)
    requires ValidCfg(g) && AllReachable(g) && DomInfoOk(g, d)
    ensures TreeKids(g, kids)
  {
    kids := seq(|d.fa|, i => []);
    for x := 0 to |d.fa|
      invariant |kids| == |d.fa|
      invariant forall a: nat :: a < |kids| ==> Distinct(kids[a])
      invariant KidsUpTo(d.fa, kids, x)
    {
      assert Reachable(g, x);
      if d.fa[x] >= 0 {
        var a: nat := d.fa[x];
        DomReachable(g, a, x);
        assert x !in kids[a];
        KidsStep(d.fa, kids, x);
        kids := kids[a := kids[a] + [x]];
      }
    }
    forall a: nat, c: nat | a < |kids| && c in kids[a] ensures ImmediateDom(g, a, c) {
      assert c < |kids| && Reachable(g, c);
    }
    forall c: nat | c < |kids| && c != g.entry ensures HasFather(kids, c) { assert Reachable(g, c); }
  }

  // ----- the order of the walk -----

  ghost predicate Below(g: Cfg, seen: set<nat>, node: nat) {
    forall x: nat :: x < |g.out| && Dom(g, node, x) ==> x !in seen
  }

  /** The walk has been through the blocks that `node` dominates. */
  ghost predicate Walked(g: Cfg, seen: set<nat>, seen': set<nat>, node: nat) {
    forall x: nat :: x in seen' <==> x in seen || (x < |g.out| && Dom(g, node, x))
  }

  ghost predicate BelowKid(g: Cfg, kids: seq<seq<nat>>, node: nat, j: nat, x: nat) {
    node < |kids| && j < |kids[node]| && x < |g.out| && Dom(g, kids[node][j], x)
  }

  /** It has been through `node` and the subtrees of its first `k` children. */
  ghost predicate PartlyWalked(g: Cfg, kids: seq<seq<nat>>, seen: set<nat>, seen': set<nat>, node: nat, k: nat) {
    forall x: nat :: x in seen' <==> x in seen || x == node || exists j: nat :: j < k && BelowKid(g, kids, node, j, x)
  }

  ghost function Unseen(g: Cfg, seen: set<nat>): set<nat> {
    set x: nat | x < |g.out| && x !in seen
  }

  lemma SelfDom(g: Cfg, x: nat)
    ensures Dom(g, x, x)
  {
    forall p | PathTo(g, p, x) ensures x in p { assert p[|p| - 1] in p; }
  }

  ghost predicate Setting(g: Cfg, kids: seq<seq<nat>>, node: nat) {
    ValidCfg(g) && AllReachable(g) && TreeKids(g, kids) && node < |kids|
  }

  lemma AboveKid(g: Cfg, kids: seq<seq<nat>>, seen: set<nat>, node: nat, j: nat, a: nat)
    requires Setting(g, kids, node) && Position(g, seen, Site(node, 0)) && j < |kids[node]| && StrictDom(g, a, kids[node][j])
    ensures a == node || a in seen
  {
    assert kids[node][j] in kids[node];
    assert Dom(g, a, node);
    if a != node { assert StrictDom(g, a, node); }
  }

  lemma KidIsBelow(g: Cfg, kids: seq<seq<nat>>, seen: set<nat>, seen': set<nat>, node: nat, k: nat)
    requires Setting(g, kids, node) && Below(g, seen, node) && PartlyWalked(g, kids, seen, seen', node, k) && k < |kids[node]|
    ensures Below(g, seen', kids[node][k])
  {
    var c := kids[node][k];
    assert c in kids[node] && Reachable(g, c);
    forall x: nat | x < |g.out| && Dom(g, c, x) ensures x !in seen' {
      DomTrans(g, node, c, x);
      assert Reachable(g, x) && Reachable(g, node);
      NotAboveFather(g, node, c);
      forall j: nat | j < k ensures !BelowKid(g, kids, node, j, x) {
        if Dom(g, kids[node][j], x) { KidsApart(g, kids, node, j, k, x); }
      }
    }
  }

  lemma KidClosed(g: Cfg, kids: seq<seq<nat>>, seen: set<nat>, seen': set<nat>, node: nat, k: nat, x: nat, a: nat)
    requires Setting(g, kids, node) && Position(g, seen, Site(node, 0)) && PartlyWalked(g, kids, seen, seen', node, k)
    requires k <= |kids[node]| && x in seen' && Dom(g, a, x)
    ensures a in seen'
  {
    if x !in seen && x == node {
      if a != node { assert StrictDom(g, a, node); }
    } else if x !in seen {
      var j: nat :| j < k && BelowKid(g, kids, node, j, x);
      var c := kids[node][j];
      assert c in kids[node] && Reachable(g, x);
      DomReachable(g, a, x);
      NodesInRange(g, a);
      DomChain(g, a, c, x);
      if Dom(g, c, a) {
        assert BelowKid(g, kids, node, j, a);
      } else if a != c {
        AboveKid(g, kids, seen, node, j, a);
      } else {
        SelfDom(g, c);
      }
    }
  }

  /** The next child is at the front of what is left. */
  lemma KidReady(g: Cfg, kids: seq<seq<nat>>, seen: set<nat>, seen': set<nat>, node: nat, k: nat)
    requires Setting(g, kids, node) && Position(g, seen, Site(node, 0)) && Below(g, seen, node)
    requires PartlyWalked(g, kids, seen, seen', node, k) && k < |kids[node]|
    ensures Setting(g, kids, kids[node][k]) && Position(g, seen', Site(kids[node][k], 0)) && Below(g, seen', kids[node][k])
  {
    var c := kids[node][k];
    assert c in kids[node] && Reachable(g, c);
    KidIsBelow(g, kids, seen, seen', node, k);
    SelfDom(g, c);
    forall a: nat | StrictDom(g, a, c) ensures a in seen' { AboveKid(g, kids, seen, node, k, a); }
    forall x: nat, a: nat | x in seen' && Dom(g, a, x) ensures a in seen' { KidClosed(g, kids, seen, seen', node, k, x, a); }
  }

  lemma WalkedStep(g: Cfg, kids: seq<seq<nat>>, seen: set<nat>, seen1: set<nat>, seen2: set<nat>, node: nat, k: nat)
    requires Setting(g, kids, node) && PartlyWalked(g, kids, seen, seen1, node, k) && k < |kids[node]|
    requires Walked(g, seen1, seen2, kids[node][k])
    ensures PartlyWalked(g, kids, seen, seen2, node, k + 1)
  {
    forall x: nat
      ensures x in seen2 <==> x in seen || x == node || exists j: nat :: j < k + 1 && BelowKid(g, kids, node, j, x)
    {
      assert BelowKid(g, kids, node, k, x) <==> x < |g.out| && Dom(g, kids[node][k], x);
    }
  }

  lemma WalkedAll(g: Cfg, kids: seq<seq<nat>>, seen: set<nat>, seen': set<nat>, node: nat)
    requires Setting(g, kids, node) && PartlyWalked(g, kids, seen, seen', node, |kids[node]|)
    ensures Walked(g, seen, seen', node)
  {
    SelfDom(g, node);
    forall x: nat ensures x in seen' <==> x in seen || (x < |g.out| && Dom(g, node, x)) {
      if x < |g.out| && StrictDom(g, node, x) {
        assert Reachable(g, x);
        var path :| PathTo(g, path, x);
        var j := BelowChild(g, kids, node, x, path);
        assert BelowKid(g, kids, node, j, x);
      }
      forall j: nat | BelowKid(g, kids, node, j, x) ensures Dom(g, node, x) {
        assert kids[node][j] in kids[node];
        DomTrans(g, node, kids[node][j], x);
      }
    }
  }

  lemma SoundMove(p0: Prog, p: Prog, marks: seq<seq<bool>>, uses: map<nat, seq<Site>>, seen: set<nat>, here: Site,
                  seen': set<nat>, here': Site)
    requires Sound(p0, p, marks, uses, seen, here)
    requires forall s :: ValidSite(p, s) ==> (Finished(seen, here, s) <==> Finished(seen', here', s))
    ensures Sound(p0, p, marks, uses, seen', here')
  {
    hide Listed, Marked, Strict, SameRuns, SameDefs, MarksOk, ListsValid, Finished;
    forall s, d: nat | DefinedAt(p, d, s) && !Finished(seen', here', s) ensures Listed(p, uses, d) { }
  }

  /** What is above the end of `node` is above each child, and seen. */
  lemma AboveEnd(g: Cfg, kids: seq<seq<nat>>, seen: set<nat>, seen': set<nat>, node: nat, k: nat, n: nat, s: Site)
    requires Setting(g, kids, node) && Position(g, seen, Site(node, 0)) && PartlyWalked(g, kids, seen, seen', node, k)
    requires k < |kids[node]| && Before(g, s, Site(node, n))
    ensures s.block in seen' && Before(g, s, Site(kids[node][k], 0))
  {
    var c := kids[node][k];
    assert c in kids[node] && Reachable(g, c);
    if s.block != node {
      assert StrictDom(g, s.block, node);
      DomTrans(g, s.block, node, c);
      NotAboveFather(g, node, c);
    }
  }

  // ----- uses -----

  function RegsRead(i: Instr): seq<nat> {
    match i
    case Phi(_, arms) => seq(|arms|, k requires 0 <= k < |arms| => arms[k].r)
    case Def(_, Unary(_, x)) => [x]
    case Def(_, Binary(_, x, y)) => [x, y]
    case Def(_, Index(x, y, _)) => [x, y]
    case Def(_, _) => []
    case Other(_, _, args) => args
  }

  lemma RegsReadAreUses(i: Instr, r: nat)
    ensures r in RegsRead(i) <==> UsesReg(i, r)
  {
    match i
    case Phi(_, arms) =>
      var rs := RegsRead(i);
      if UsesReg(i, r) { var k :| 0 <= k < |arms| && arms[k].r == r; assert rs[k] == r; }
      if r in rs { var k :| 0 <= k < |rs| && rs[k] == r; assert arms[k].r == r; }
    case Def(_, Const(_)) =>
    case Def(_, _) =>
    case Other(_, _, _) =>
  }

  /** `find_same_value` */
  method FindSameValue(d: nat, arms: seq<Arm>) returns (found: bool, ref: nat)
    ensures found ==> OneValue(arms, d, ref) && exists k :: 0 <= k < |arms| && arms[k].r == ref
    ensures !found ==> forall r: nat :: OneValue(arms, d, r) ==> forall k :: 0 <= k < |arms| ==> arms[k].r == d
  {
    found, ref := false, d;
    for i := 0 to |arms|
      invariant found ==> OneValue(arms[..i], d, ref) && exists k :: 0 <= k < i && arms[k].r == ref
      invariant !found ==> forall k :: 0 <= k < i ==> arms[k].r == d
    {
      if arms[i].r != d {
        if found && ref != arms[i].r {
          assert forall r: nat :: !OneValue(arms, d, r) by {
            var k :| 0 <= k < i && arms[k].r == ref;
          }
          return false, ref;
        }
        found, ref := true, arms[i].r;
      }
    }
    assert arms[..|arms|] == arms;
  }

  // ----- the walk -----

  /** What holds of the program while the walk is at `here`. */
  ghost predicate GoodAt(p0: Prog, p: Prog, marks: seq<seq<bool>>, uses: map<nat, seq<Site>>, seen: set<nat>, here: Site) {
    Sound(p0, p, marks, uses, seen, here) && Clean(p, marks, seen, here) && PhisDone(p0, p, marks, seen, here)
  }

  /** What holds of the tables: what they say is right, and they miss nothing. */
  ghost predicate TablesAt(p: Prog, marks: seq<seq<bool>>, values: map<Pure, nat>, consts: map<nat, Word>, t: Site) {
    TablesOk(p, marks, values, consts, t) && Complete(p, marks, values, consts, t)
  }

  class Context {
    const g: Cfg
    const kids: seq<seq<nat>>
    var code: seq<seq<Instr>>
    var marks: seq<seq<bool>>
    var uses: map<nat, seq<Site>>
    var values: map<Pure, nat>
    var consts: map<nat, Word>
    ghost const p0: Prog
    ghost var seen: set<nat>

    constructor (p: Prog, tree: seq<seq<nat>>)
      ensures g == p.g && kids == tree && code == p.code && p0 == p
      ensures marks == seq(|p.code|, b requires 0 <= b < |p.code| => seq(|p.code[b]|, i => false))
      ensures uses == map[] && values == map[] && consts == map[] && seen == {}
    {
      g, kids, code, p0 := p.g, tree, p.code, p;
      marks := seq(|p.code|, b requires 0 <= b < |p.code| => seq(|p.code[b]|, i => false));
      uses, values, consts, seen := map[], map[], map[], {};
    }

    ghost function P(): Prog
      reads `code
    {
      Prog(g, code)
    }

    ghost predicate Good(here: Site)
      reads this
    {
      GoodAt(p0, P(), marks, uses, seen, here)
    }

    ghost predicate Tables(t: Site)
      reads this
    {
      TablesAt(P(), marks, values, consts, t)
    }

    method BuildUses()
      modifies `uses
      ensures ListsValid(P(), uses) && forall r: nat :: Listed(P(), uses, r)
    {
      uses := map[];
      for b := 0 to |code|
        invariant ListsValid(P(), uses)
        invariant forall u, r: nat :: ValidSite(P(), u) && u.block < b && UsesReg(At(P(), u), r) ==> u in UsesOf(uses, r)
      {
        for i := 0 to |code[b]|
          invariant ListsValid(P(), uses)
          invariant forall u, r: nat :: ValidSite(P(), u) && (u.block < b || (u.block == b && u.pos < i)) && UsesReg(At(P(), u), r) ==>
                      u in UsesOf(uses, r)
        {
          NoteUses(b, i);
        }
      }
    }

    method NoteUses(b: nat, i: nat)
      requires ValidSite(P(), Site(b, i)) && ListsValid(P(), uses)
      modifies `uses
      ensures ListsValid(P(), uses)
      ensures forall r: nat, u :: u in UsesOf(old(uses), r) ==> u in UsesOf(uses, r)
      ensures forall r: nat :: UsesReg(At(P(), Site(b, i)), r) ==> Site(b, i) in UsesOf(uses, r)
    {
      var rs := RegsRead(code[b][i]);
      for j := 0 to |rs|
        invariant ListsValid(P(), uses)
        invariant forall r: nat, u :: u in UsesOf(old(uses), r) ==> u in UsesOf(uses, r)
        invariant forall r: nat :: r in rs[..j] ==> Site(b, i) in UsesOf(uses, r)
      {
        ghost var before := uses;
        uses := uses[rs[j] := UsesOf(uses, rs[j]) + [Site(b, i)]];
        forall r: nat ensures UsesOf(uses, r) == UsesOf(before, r) + (if r == rs[j] then [Site(b, i)] else []) { }
        assert rs[..j + 1] == rs[..j] + [rs[j]];
      }
      forall r: nat | UsesReg(At(P(), Site(b, i)), r) ensures r in rs[..|rs|] { RegsReadAreUses(code[b][i], r); }
    }

    /** Every use of `target` is rewritten. */
    method ReplaceSameValue(target: nat, ref: nat)
      requires Listed(P(), uses, target) && ListsValid(P(), uses) && target != ref
      modifies `code
      ensures P() == Subst(old(P()), target, ref)
    {
      ghost var p := P();
      var sites := UsesOf(uses, target);
      for k := 0 to |sites|
        invariant |code| == |p.code| && forall b :: 0 <= b < |code| ==> |code[b]| == |p.code[b]|
        invariant forall s :: ValidSite(p, s) ==>
                    At(P(), s) == if s in sites[..k] then SubstInstr(At(p, s), target, ref) else At(p, s)
      {
        var u := sites[k];
        assert ValidSite(p, u);
        SubstTwice(At(p, u), target, ref);
        assert sites[..k + 1] == sites[..k] + [u];
        code := code[u.block := code[u.block][u.pos := SubstInstr(code[u.block][u.pos], target, ref)]];
      }
      assert sites[..|sites|] == sites;
      forall b | 0 <= b < |code| ensures code[b] == Subst(p, target, ref).code[b] {
        forall i | 0 <= i < |code[b]| ensures code[b][i] == SubstInstr(p.code[b][i], target, ref) {
          var s := Site(b, i);
          if s !in sites { SubstNoUse(At(p, s), target, ref); }
          assert At(P(), s) == SubstInstr(At(p, s), target, ref);
        }
      }
    }

    /** What visiting the instruction at `here` achieves. */
    twostate predicate Visited(here: Site, keys: seq<Pure>, regs: seq<nat>)
      reads this
    {
      && Good(Next(here)) && Tables(Next(here))
      && Steady(old(P()), old(marks), P(), marks, seen, here)
      && Extended(old(values), values, keys) && Extended(old(consts), consts, regs)
    }

    /** The result of the instruction at `here` is in `ref`. */
    method ReplaceBy(here: Site, ref: nat)
      requires Good(here) && Tables(here) && Position(g, seen, here)
      requires MayReplace(P(), here, ref) && KeptAbove(P(), marks, ref, here)
      modifies `code, `marks
      ensures Visited(here, [], [])
    {
      ghost var p, marks0 := P(), marks;
      ReplaceSound(p0, p, marks, uses, seen, here, ref);
      var d: nat := DefOf(code[here.block][here.pos]);
      assert Listed(p, uses, d) by { assert DefinedAt(p, d, here); }
      MarkedEntered(p, marks, Subst(p, d, ref), values, consts, here);
      PhisReplace(p0, p, marks, seen, here, d, ref);
      hide GoodAt, TablesAt, Sound, TablesOk, Steady, Position, KeptAbove, MayReplace, Clean, Complete, PhisDone, Tabled;
      StepClean(p0, p, marks, Subst(p, d, ref), Mark(marks, here), uses, seen, here, values, consts, values, consts);
      marks := Mark(marks, here);
      ReplaceSameValue(d, ref);
      TablesNext(p, marks0, P(), marks, seen, here, values, consts);
      GoodIntro(p0, P(), marks, uses, seen, Next(here));
      TablesIntro(P(), marks, values, consts, Next(here));
      ExtendedSelf(values);
      ExtendedSelf(consts);
    }

    /** The result of the instruction at `here` is the constant `v`. */
    method FoldTo(here: Site, v: Word) returns (keys: seq<Pure>, regs: seq<nat>)
      requires Good(here) && Tables(here) && Position(g, seen, here) && MayFold(P(), here, v)
      modifies `code, `marks, `values, `consts
      ensures Visited(here, keys, regs)
    {
      hide TablesAt, GoodAt, Position, Steady, KeptAbove, Holds, Marked;
      ghost var p := P();
      var r := code[here.block][here.pos].r;
      if Const(v) in values {
        ConstHit(p, marks, values, consts, here, v);
        ReplaceBy(here, values[Const(v)]);
        keys, regs := [], [];
      } else {
        FoldDone(p0, p, marks, uses, seen, here, values, consts, v);
        code := code[here.block := code[here.block][here.pos := Def(r, Const(v))]];
        values := values[Const(v) := r];
        consts := consts[r := v];
        keys, regs := [Const(v)], [r];
      }
    }

    /** A computation not seen before. */
    method Remember(here: Site) returns (keys: seq<Pure>)
      requires Good(here) && Tables(here) && Position(g, seen, here) && ValidSite(P(), here)
      requires code[here.block][here.pos].Def? && code[here.block][here.pos].p !in values
      requires !Foldable(consts, code[here.block][here.pos].p) && !code[here.block][here.pos].p.Const?
      modifies `values
      ensures Visited(here, keys, [])
    {
      hide TablesAt, GoodAt, Position, Steady, Foldable;
      RememberDone(p0, P(), marks, uses, seen, here, values, consts);
      SteadySelf(P(), marks, seen, here);
      var key, r := code[here.block][here.pos].p, code[here.block][here.pos].r;
      var swapped := if key.Binary? then Binary(key.bop, key.y, key.x) else key;
      keys := [key];
      values := values[key := r];
      if key.Binary? && key != swapped && Commutes(key.bop) {
        keys := keys + [swapped];
        values := values[swapped := r];
      }
      assert values == WithKey(old(values), key, r);
    }

    method Pass(here: Site)
      requires Good(here) && Tables(here) && Position(g, seen, here) && ValidSite(P(), here)
      requires !code[here.block][here.pos].Def? && !OneOther(P(), here)
      ensures Visited(here, [], [])
    {
      hide TablesAt, GoodAt, Position, Steady;
      SteadySelf(P(), marks, seen, here);
      PassDone(p0, P(), marks, uses, seen, here, values, consts);
      ExtendedSelf(values);
      ExtendedSelf(consts);
    }

    method VisitUnary(here: Site) returns (keys: seq<Pure>, regs: seq<nat>)
      requires Good(here) && Tables(here) && Position(g, seen, here) && ValidSite(P(), here)
      requires code[here.block][here.pos].Def? && code[here.block][here.pos].p.Unary?
      modifies `code, `marks, `values, `consts
      ensures Visited(here, keys, regs)
    {
      hide TablesAt, GoodAt, Position, Holds, Entry, KeptAbove, Avail, Steady;
      keys, regs := [], [];
      ghost var p := P();
      var key := code[here.block][here.pos].p;
      if key in values {
        KeyHit(p, marks, values, consts, here);
        ReplaceBy(here, values[key]);
      } else if key.x in consts {
        var computed := ComputeUnary(key.uop, consts[key.x]);
        forall sem, env | Holds(p, sem, env, here) ensures Eval(sem, key, env) == computed {
          KnownValue(p, marks, values, consts, here, key.x, sem, env);
        }
        keys, regs := FoldTo(here, computed);
      } else if key.uop == ID {
        SoundHas(p0, p, marks, uses, seen, here);
        OperandOk(p, marks, here, key.x);
        ReplaceBy(here, key.x);
      } else {
        keys := Remember(here);
      }
    }

    method VisitBinary(here: Site) returns (keys: seq<Pure>, regs: seq<nat>)
      requires Good(here) && Tables(here) && Position(g, seen, here) && ValidSite(P(), here)
      requires code[here.block][here.pos].Def? && code[here.block][here.pos].p.Binary?
      modifies `code, `marks, `values, `consts
      ensures Visited(here, keys, regs)
    {
      hide TablesAt, GoodAt, Position, Holds, Entry, KeptAbove, Avail, Useless, ComputeBinary, Steady;
      keys, regs := [], [];
      ghost var p := P();
      var key := code[here.block][here.pos].p;
      if key in values {
        KeyHit(p, marks, values, consts, here);
        ReplaceBy(here, values[key]);
      } else if key.x in consts && key.y in consts {
        var computed := ComputeBinary(key.bop, consts[key.x], consts[key.y]);
        forall sem, env | Holds(p, sem, env, here) ensures Eval(sem, key, env) == computed {
          KnownValue(p, marks, values, consts, here, key.x, sem, env);
          KnownValue(p, marks, values, consts, here, key.y, sem, env);
        }
        keys, regs := FoldTo(here, computed);
      } else {
        var a, b := KnownOf(consts, key.x), KnownOf(consts, key.y);
        if Useless(key.bop, a, b) {
          SoundHas(p0, p, marks, uses, seen, here);
          var ref := if a.Value? then key.y else key.x;
          forall sem, env | Holds(p, sem, env, here) ensures Eval(sem, key, env) == Get(env, ref) {
            KnownValue(p, marks, values, consts, here, key.x, sem, env);
            KnownValue(p, marks, values, consts, here, key.y, sem, env);
            UselessGives(key.bop, a, b, Get(env, key.x), Get(env, key.y));
            UselessKnows(key.bop, a, b);
          }
          OperandOk(p, marks, here, ref);
          ReplaceBy(here, ref);
        } else {
          keys := Remember(here);
        }
      }
    }

    method VisitIndex(here: Site) returns (keys: seq<Pure>)
      requires Good(here) && Tables(here) && Position(g, seen, here) && ValidSite(P(), here)
      requires code[here.block][here.pos].Def? && code[here.block][here.pos].p.Index?
      modifies `code, `marks, `values
      ensures Visited(here, keys, [])
    {
      hide TablesAt, GoodAt, Position, Holds, Entry, KeptAbove, Avail, Steady;
      keys := [];
      ghost var p := P();
      var key := code[here.block][here.pos].p;
      if key.y in consts && consts[key.y] == 0 {
        SoundHas(p0, p, marks, uses, seen, here);
        forall sem, env | Holds(p, sem, env, here) ensures Eval(sem, key, env) == Get(env, key.x) {
          KnownValue(p, marks, values, consts, here, key.y, sem, env);
          WrapWord(Get(env, key.x));
        }
        OperandOk(p, marks, here, key.x);
        ReplaceBy(here, key.x);
      } else {
        keys := VisitKey(here);
      }
    }

    /** The last two steps for arguments, addresses and array elements. */
    method VisitKey(here: Site) returns (keys: seq<Pure>)
      requires Good(here) && Tables(here) && Position(g, seen, here) && ValidSite(P(), here)
      requires code[here.block][here.pos].Def? && !code[here.block][here.pos].p.Const?
      requires !Foldable(consts, code[here.block][here.pos].p)
      modifies `code, `marks, `values
      ensures Visited(here, keys, [])
    {
      hide TablesAt, GoodAt, Position, Holds, Entry, KeptAbove, Steady, Foldable;
      keys := [];
      var key := code[here.block][here.pos].p;
      if key in values {
        KeyHit(P(), marks, values, consts, here);
        ReplaceBy(here, values[key]);
      } else {
        keys := Remember(here);
      }
    }

    method VisitPhi(here: Site)
      requires Good(here) && Tables(here) && Position(g, seen, here) && ValidSite(P(), here)
      requires code[here.block][here.pos].Phi?
      modifies `code, `marks
      ensures Visited(here, [], [])
    {
      hide TablesAt, GoodAt, Position, KeptAbove, Steady;
      var x := code[here.block][here.pos];
      var found, ref := FindSameValue(x.r, x.arms);
      if found {
        SoundHas(p0, P(), marks, uses, seen, here);
        PhiOk(P(), marks, here, ref);
        ReplaceBy(here, ref);
      } else {
        Pass(here);
      }
    }

    method Visit(here: Site) returns (keys: seq<Pure>, regs: seq<nat>)
      requires Good(here) && Tables(here) && Position(g, seen, here) && ValidSite(P(), here)
      modifies `code, `marks, `values, `consts
      ensures Visited(here, keys, regs)
    {
      hide TablesAt, GoodAt, Position, Steady, KeptAbove, Holds;
      keys, regs := [], [];
      match code[here.block][here.pos]
      case Def(_, Const(v)) => keys, regs := FoldTo(here, v);
      case Def(_, Unary(_, _)) => keys, regs := VisitUnary(here);
      case Def(_, Binary(_, _, _)) => keys, regs := VisitBinary(here);
      case Def(_, Index(_, _, _)) => keys := VisitIndex(here);
      case Def(_, Arg(_)) => keys := VisitKey(here);
      case Def(_, Addr(_)) => keys := VisitKey(here);
      case Phi(_, _) => VisitPhi(here);
      case Other(_, _, _) => Pass(here);
    }

    /** All instructions of a block. */
    method VisitBlock(node: nat) returns (keys: seq<Pure>, regs: seq<nat>)
      requires node < |code| && Good(Site(node, 0)) && Tables(Site(node, 0)) && Position(g, seen, Site(node, 0))
      modifies `code, `marks, `values, `consts
      ensures |code| == |old(code)| && |code[node]| == |old(code)[node]|
      ensures Good(Site(node, |code[node]|)) && Tables(Site(node, |code[node]|))
      ensures Steady(old(P()), old(marks), P(), marks, seen, Site(node, 0))
      ensures Extended(old(values), values, keys) && Extended(old(consts), consts, regs)
    {
      hide TablesAt, GoodAt, Steady, Finished, Extended;
      keys, regs := [], [];
      var n := |code[node]|;
      SteadySelf(P(), marks, seen, Site(node, 0));
      ExtendedSelf(values);
      ExtendedSelf(consts);
      for i := 0 to n
        invariant |code| == |old(code)| && |code[node]| == n
        invariant Good(Site(node, i)) && Tables(Site(node, i))
        invariant Steady(old(P()), old(marks), P(), marks, seen, Site(node, 0))
        invariant Extended(old(values), values, keys) && Extended(old(consts), consts, regs)
      {
        ghost var p1, marks1, values1, consts1 := P(), marks, values, consts;
        var ks, rs := Visit(Site(node, i));
        EarlierFinished(seen, node, i);
        SteadyTrans(old(P()), old(marks), p1, marks1, P(), marks, seen, Site(node, 0), seen, Site(node, i));
        SteadySizes(p1, marks1, P(), marks, seen, Site(node, i));
        ExtendedTrans(old(values), values1, values, keys, ks);
        ExtendedTrans(old(consts), consts1, consts, regs, rs);
        keys, regs := keys + ks, regs + rs;
      }
    }

    /** The subtree of `node`: on leaving, the tables are as they were. */
    method Dfs(node: nat)
      requires Setting(g, kids, node) && node < |code| && Below(g, seen, node) && Position(g, seen, Site(node, 0))
      requires Good(Site(node, 0)) && Tables(Site(node, 0))
      modifies `code, `marks, `values, `consts, `seen
      ensures Good(Site(node, 0)) && Walked(g, old(seen), seen, node)
      ensures values == old(values) && consts == old(consts)
      ensures Steady(old(P()), old(marks), P(), marks, old(seen), Site(node, 0))
      decreases Unseen(g, seen)
    {
      hide TablesAt, GoodAt, Steady, Finished, Extended, PartlyWalked, Walked, Position, Below, TreeKids, ValidCfg, AllReachable;
      ghost var p1, marks1, seen1, values1, consts1 := P(), marks, seen, values, consts;
      var keys, regs := VisitBlock(node);
      ghost var n := |code[node]|;
      ghost var values2, consts2 := values, consts;
      seen := seen + {node};
      BlockDone(p0, P(), marks, uses, kids, seen1, node);
      for k := 0 to |kids[node]|
        invariant |code| == |p1.code| && |code[node]| == n && Good(Site(node, 0)) && Tables(Site(node, n))
        invariant values == values2 && consts == consts2 && seen >= seen1 + {node}
        invariant PartlyWalked(g, kids, seen1, seen, node, k)
        invariant Steady(p1, marks1, P(), marks, seen1, Site(node, 0))
      {
        var c := kids[node][k];
        ghost var p2, marks2, seen2 := P(), marks, seen;
        KidReady(g, kids, seen1, seen, node, k);
        KidTables(p0, p2, marks2, uses, values, consts, kids, seen1, seen2, node, k, n);
        Shrinks(g, kids, seen1, seen, node);
        Dfs(c);
        KidDone(p0, p1, marks1, p2, marks2, P(), marks, uses, values, consts, kids, seen1, seen2, seen, node, k, n);
      }
      WalkedAll(g, kids, seen1, seen, node);
      values := EraseAll(values1, values, keys);
      consts := EraseAll(consts1, consts, regs);
    }

    /** `reconstruct`: the unmarked instructions of every block. */
    method Reconstruct() returns (blocks: seq<seq<Instr>>)
      requires MarksFit(P(), marks)
      ensures Prog(g, blocks) == DropMarked(P(), marks)
    {
      blocks := [];
      for b := 0 to |code|
        invariant blocks == DropMarked(P(), marks).code[..b]
      {
        var left := [];
        for i := 0 to |code[b]|
          invariant left == Kept(code[b][..i], marks[b][..i])
        {
          assert code[b][..i + 1][..i] == code[b][..i] && marks[b][..i + 1][..i] == marks[b][..i];
          if !marks[b][i] { left := left + [code[b][i]]; }
        }
        assert code[b][..|code[b]|] == code[b] && marks[b][..|code[b]|] == marks[b];
        blocks := blocks + [left];
      }
    }
  }

  lemma UselessKnows(op: BinOp, a: Known, b: Known)
    requires Useless(op, a, b)
    ensures a.Value? || b.Value?
  { }

  lemma SoundHas(p0: Prog, p: Prog, marks: seq<seq<bool>>, uses: map<nat, seq<Site>>, seen: set<nat>, here: Site)
    requires GoodAt(p0, p, marks, uses, seen, here)
    ensures Strict(p) && MarksOk(p, marks)
  { }

  lemma KeyHit(p: Prog, marks: seq<seq<bool>>, values: map<Pure, nat>, consts: map<nat, Word>, here: Site)
    requires TablesAt(p, marks, values, consts, here) && ValidSite(p, here) && At(p, here).Def? && At(p, here).p in values
    ensures MayReplace(p, here, values[At(p, here).p]) && KeptAbove(p, marks, values[At(p, here).p], here)
  {
    HitOk(p, marks, here, At(p, here).p, values[At(p, here).p]);
  }

  lemma ConstHit(p: Prog, marks: seq<seq<bool>>, values: map<Pure, nat>, consts: map<nat, Word>, here: Site, v: Word)
    requires TablesAt(p, marks, values, consts, here) && MayFold(p, here, v) && Const(v) in values
    ensures MayReplace(p, here, values[Const(v)]) && KeptAbove(p, marks, values[Const(v)], here)
  {
    HitOk(p, marks, here, Const(v), values[Const(v)]);
  }

  lemma KnownValue(p: Prog, marks: seq<seq<bool>>, values: map<Pure, nat>, consts: map<nat, Word>, here: Site, r: nat, sem: Sem, env: Env)
    requires TablesAt(p, marks, values, consts, here) && Holds(p, sem, env, here)
    ensures Knows(KnownOf(consts, r), Get(env, r))
  {
    hide TablesOk, Holds;
    KnownRight(p, marks, values, consts, here, r, sem, env);
  }

  lemma GoodIntro(p0: Prog, p: Prog, marks: seq<seq<bool>>, uses: map<nat, seq<Site>>, seen: set<nat>, here: Site)
    requires Sound(p0, p, marks, uses, seen, here) && Clean(p, marks, seen, here) && PhisDone(p0, p, marks, seen, here)
    ensures GoodAt(p0, p, marks, uses, seen, here)
  { }

  lemma TablesIntro(p: Prog, marks: seq<seq<bool>>, values: map<Pure, nat>, consts: map<nat, Word>, t: Site)
    requires TablesOk(p, marks, values, consts, t) && Complete(p, marks, values, consts, t)
    ensures TablesAt(p, marks, values, consts, t)
  { }

  lemma TablesNext(p: Prog, marks: seq<seq<bool>>, p': Prog, marks': seq<seq<bool>>, seen: set<nat>, here: Site,
                   values: map<Pure, nat>, consts: map<nat, Word>)
    requires Steady(p, marks, p', marks', seen, here) && Position(p.g, seen, here) && TablesAt(p, marks, values, consts, here)
    ensures TablesOk(p', marks', values, consts, Next(here))
  {
    hide TablesOk, Steady, Position;
    TablesStep(p, marks, p', marks', seen, here, values, consts);
  }

  /** The definition at `here` has just been marked. */
  lemma MarkedEntered(p: Prog, marks: seq<seq<bool>>, p': Prog, values: map<Pure, nat>, consts: map<nat, Word>, here: Site)
    requires MarksFit(p, marks) && ValidSite(p, here)
    ensures Tabled(p', Mark(marks, here), values, consts, here)
  { }

  lemma StepClean(p0: Prog, p: Prog, marks: seq<seq<bool>>, p': Prog, marks': seq<seq<bool>>, uses: map<nat, seq<Site>>,
                  seen: set<nat>, here: Site, values: map<Pure, nat>, consts: map<nat, Word>,
                  values': map<Pure, nat>, consts': map<nat, Word>)
    requires GoodAt(p0, p, marks, uses, seen, here) && TablesAt(p, marks, values, consts, here)
    requires Position(p.g, seen, here) && Steady(p, marks, p', marks', seen, here) && Tabled(p', marks', values', consts', here)
    requires (forall k :: k in values ==> k in values') && forall r: nat :: r in consts ==> r in consts' && consts'[r] == consts[r]
    ensures Clean(p', marks', seen, Next(here)) && Complete(p', marks', values', consts', Next(here))
  {
    SoundHas(p0, p, marks, uses, seen, here);
    hide Sound, TablesOk, Strict, Position, Steady, Clean, Complete, Tabled, PhisDone, MarksOk;
    CleanStep(p, marks, p', marks', seen, here, values', consts');
    CompleteStep(p, marks, p', marks', seen, here, values, consts, values', consts');
  }

  lemma FoldDone(p0: Prog, p: Prog, marks: seq<seq<bool>>, uses: map<nat, seq<Site>>, seen: set<nat>, here: Site,
                 values: map<Pure, nat>, consts: map<nat, Word>, v: Word)
    requires GoodAt(p0, p, marks, uses, seen, here) && Position(p.g, seen, here) && TablesAt(p, marks, values, consts, here)
    requires MayFold(p, here, v) && Const(v) !in values
    ensures At(p, here).r !in consts
    ensures var q := Put(p, here, Def(At(p, here).r, Const(v)));
      && GoodAt(p0, q, marks, uses, seen, Next(here)) && Steady(p, marks, q, marks, seen, here)
      && TablesAt(q, marks, values[Const(v) := At(p, here).r], consts[At(p, here).r := v], Next(here))
  {
    var r := At(p, here).r;
    var q := Put(p, here, Def(r, Const(v)));
    PutSameDefs(p, here, Def(r, Const(v)));
    hide TablesOk, Position, Steady, Holds, Marked, Strict, SameDefs, Clean, Complete, Tabled;
    NewReg(p, marks, values, consts, seen, here);
    FoldSound(p0, p, marks, uses, seen, here, v);
    TablesStep(p, marks, q, marks, seen, here, values, consts);
    TablesInsert(q, marks, values, consts, here);
    FoldEntered(p, marks, q, seen, here, values, consts, v);
    StepClean(p0, p, marks, q, marks, uses, seen, here, values, consts, values[Const(v) := r], consts[r := v]);
    PhisSkip(p0, p, marks, q, seen, here);
  }

  /** A constant that no table knows is new. */
  lemma FoldEntered(p: Prog, marks: seq<seq<bool>>, q: Prog, seen: set<nat>, here: Site, values: map<Pure, nat>,
                    consts: map<nat, Word>, v: Word)
    requires TablesAt(p, marks, values, consts, here) && Position(p.g, seen, here) && Steady(p, marks, q, marks, seen, here)
    requires ValidSite(q, here) && At(q, here).Def? && At(q, here).p == Const(v) && Const(v) !in values
    ensures Tabled(q, marks, values[Const(v) := At(q, here).r], consts[At(q, here).r := v], here)
  {
    hide Position, Steady, Marked, Complete, Before, Finished, NewAt;
    forall s | ValidSite(p, s) && Before(p.g, s, here) ensures Finished(seen, here, s) { BeforeFinished(p.g, seen, here, s); }
    CompleteMove(p, marks, q, marks, seen, here, values, consts, here);
    NotComputedAbove(q, marks, values, consts, here);
  }

  lemma RememberDone(p0: Prog, p: Prog, marks: seq<seq<bool>>, uses: map<nat, seq<Site>>, seen: set<nat>, here: Site,
                     values: map<Pure, nat>, consts: map<nat, Word>)
    requires GoodAt(p0, p, marks, uses, seen, here) && Position(p.g, seen, here) && TablesAt(p, marks, values, consts, here)
    requires ValidSite(p, here) && At(p, here).Def? && At(p, here).p !in values && !Foldable(consts, At(p, here).p)
    requires !At(p, here).p.Const?
    ensures GoodAt(p0, p, marks, uses, seen, Next(here))
    ensures TablesAt(p, marks, WithKey(values, At(p, here).p, At(p, here).r), consts, Next(here))
    ensures At(p, here).p.Binary? && Commutes(At(p, here).p.bop) ==>
      Binary(At(p, here).p.bop, At(p, here).p.y, At(p, here).p.x) !in values
  {
    hide Sound, TablesOk, Symmetric, Position, Steady, Marked, Strict, Clean, Complete, Tabled, Foldable, PhisDone, MarkedFinished;
    var key := At(p, here).p;
    var values' := WithKey(values, key, At(p, here).r);
    GoodParts(p0, p, marks, uses, seen, here);
    NotSwapped(p, marks, values, consts, here, key);
    NewReg(p, marks, values, consts, seen, here);
    SkipSound(p0, p, marks, uses, seen, here);
    SteadySelf(p, marks, seen, here);
    TablesStep(p, marks, p, marks, seen, here, values, consts);
    TablesInsert(p, marks, values, consts, here);
    RememberEntered(p, marks, here, values, consts);
    WithKeyGrows(values, key, At(p, here).r);
    StepClean(p0, p, marks, p, marks, uses, seen, here, values, consts, values', consts);
    SameDefsSelf(p);
    PhisSkip(p0, p, marks, p, seen, here);
  }

  lemma GoodParts(p0: Prog, p: Prog, marks: seq<seq<bool>>, uses: map<nat, seq<Site>>, seen: set<nat>, here: Site)
    requires GoodAt(p0, p, marks, uses, seen, here)
    ensures Sound(p0, p, marks, uses, seen, here) && PhisDone(p0, p, marks, seen, here)
    ensures Strict(p) && MarkedFinished(p, marks, seen, here)
  {
    hide Clean, PhisDone, Strict, MarkedFinished;
  }

  lemma NotSwapped(p: Prog, marks: seq<seq<bool>>, values: map<Pure, nat>, consts: map<nat, Word>, here: Site, key: Pure)
    requires TablesAt(p, marks, values, consts, here) && key !in values
    ensures key.Binary? && Commutes(key.bop) ==> Binary(key.bop, key.y, key.x) !in values
  {
    assert Symmetric(values);
  }

  lemma WithKeyGrows(values: map<Pure, nat>, key: Pure, r: nat)
    ensures forall k :: k in values ==> k in WithKey(values, key, r)
  { }

  lemma SameDefsSelf(p: Prog)
    ensures SameDefs(p, p)
  { }

  lemma RememberEntered(p: Prog, marks: seq<seq<bool>>, here: Site, values: map<Pure, nat>, consts: map<nat, Word>)
    requires Strict(p) && TablesAt(p, marks, values, consts, here) && ValidSite(p, here) && At(p, here).Def?
    requires At(p, here).p !in values && !Foldable(consts, At(p, here).p) && !At(p, here).p.Const?
    ensures Tabled(p, marks, WithKey(values, At(p, here).p, At(p, here).r), consts, here)
  {
    hide Strict, Marked, Complete, NewAt, Reducible;
    NotReducible(p, marks, values, consts, here);
    NotComputedAbove(p, marks, values, consts, here);
  }

  /** Phi instructions with several values and instructions with effects stay as they are. */
  lemma PassDone(p0: Prog, p: Prog, marks: seq<seq<bool>>, uses: map<nat, seq<Site>>, seen: set<nat>, here: Site,
                 values: map<Pure, nat>, consts: map<nat, Word>)
    requires GoodAt(p0, p, marks, uses, seen, here) && Position(p.g, seen, here) && TablesAt(p, marks, values, consts, here)
    requires ValidSite(p, here) && !At(p, here).Def? && !OneOther(p, here)
    ensures GoodAt(p0, p, marks, uses, seen, Next(here)) && TablesAt(p, marks, values, consts, Next(here))
  {
    assert Tabled(p, marks, values, consts, here);
    hide TablesOk, Position, Marked, Clean, Complete, Tabled, PhisDone, OneOther, Sound;
    SkipSound(p0, p, marks, uses, seen, here);
    SteadySelf(p, marks, seen, here);
    TablesStep(p, marks, p, marks, seen, here, values, consts);
    StepClean(p0, p, marks, p, marks, uses, seen, here, values, consts, values, consts);
    SameDefsSelf(p);
    PhisSkip(p0, p, marks, p, seen, here);
  }

  /** The register defined at `here` is not in the table of constants, and its definition is not marked. */
  lemma NewReg(p: Prog, marks: seq<seq<bool>>, values: map<Pure, nat>, consts: map<nat, Word>, seen: set<nat>, here: Site)
    requires TablesOk(p, marks, values, consts, here) && Strict(p) && ValidSite(p, here) && At(p, here).Def?
    requires MarkedFinished(p, marks, seen, here) && Position(p.g, seen, here)
    ensures At(p, here).r !in consts && !Marked(marks, here)
  {
    var r := At(p, here).r;
    if r in consts {
      var s :| EntryAt(p, marks, Const(consts[r]), r, here, s);
      assert DefinedAt(p, r, s) && DefinedAt(p, r, here);
    }
  }

  // ----- pieces of the walk -----

  lemma Shrinks(g: Cfg, kids: seq<seq<nat>>, seen: set<nat>, seen': set<nat>, node: nat)
    requires Setting(g, kids, node) && Below(g, seen, node) && seen' >= seen + {node}
    ensures Unseen(g, seen') < Unseen(g, seen)
  {
    SelfDom(g, node);
    assert node in Unseen(g, seen) && node !in Unseen(g, seen');
  }

  lemma ExtendedSelf<K(!new), V>(m: map<K, V>)
    ensures Extended(m, m, [])
  { }

  lemma EarlierFinished(seen: set<nat>, node: nat, i: nat)
    ensures forall s :: Finished(seen, Site(node, 0), s) ==> Finished(seen, Site(node, i), s)
  { }

  lemma SteadySizes(p: Prog, marks: seq<seq<bool>>, p': Prog, marks': seq<seq<bool>>, seen: set<nat>, here: Site)
    requires Steady(p, marks, p', marks', seen, here)
    ensures p'.g == p.g && |p'.code| == |p.code| && forall b :: 0 <= b < |p.code| ==> |p'.code[b]| == |p.code[b]|
  { }

  lemma GoodMove(p0: Prog, p: Prog, marks: seq<seq<bool>>, uses: map<nat, seq<Site>>, seen: set<nat>, here: Site,
                 seen': set<nat>, here': Site)
    requires GoodAt(p0, p, marks, uses, seen, here)
    requires forall s :: ValidSite(p, s) ==> (Finished(seen, here, s) <==> Finished(seen', here', s))
    ensures GoodAt(p0, p, marks, uses, seen', here')
  {
    assert SameDefs(p0, p);
    hide Sound, Clean, PhisDone, Finished, SameDefs;
    SoundMove(p0, p, marks, uses, seen, here, seen', here');
    CleanSame(p, marks, seen, here, seen', here');
    PhisSame(p0, p, marks, seen, here, seen', here');
  }

  /** A block done as a whole counts as seen. */
  lemma BlockDone(p0: Prog, p: Prog, marks: seq<seq<bool>>, uses: map<nat, seq<Site>>, kids: seq<seq<nat>>, seen: set<nat>,
                  node: nat)
    requires node < |p.code| && GoodAt(p0, p, marks, uses, seen, EndOf(p, node))
    ensures GoodAt(p0, p, marks, uses, seen + {node}, Site(node, 0)) && PartlyWalked(p.g, kids, seen, seen + {node}, node, 0)
  {
    hide GoodAt;
    GoodMove(p0, p, marks, uses, seen, EndOf(p, node), seen + {node}, Site(node, 0));
  }

  lemma KidTables(p0: Prog, p: Prog, marks: seq<seq<bool>>, uses: map<nat, seq<Site>>, values: map<Pure, nat>,
                  consts: map<nat, Word>, kids: seq<seq<nat>>, seen1: set<nat>, seen: set<nat>, node: nat, k: nat, n: nat)
    requires Setting(p.g, kids, node) && Position(p.g, seen1, Site(node, 0)) && PartlyWalked(p.g, kids, seen1, seen, node, k)
    requires k < |kids[node]| && GoodAt(p0, p, marks, uses, seen, Site(node, 0))
    requires node < |p.code| && n == |p.code[node]| && TablesAt(p, marks, values, consts, Site(node, n))
    ensures kids[node][k] < |p.code| && GoodAt(p0, p, marks, uses, seen, Site(kids[node][k], 0))
    ensures TablesAt(p, marks, values, consts, Site(kids[node][k], 0))
  {
    SoundHas(p0, p, marks, uses, seen, Site(node, 0));
    var c := kids[node][k];
    assert c in kids[node] && ImmediateDom(p.g, node, c);
    hide TablesOk, GoodAt, Position, PartlyWalked, Before, Strict, Complete, ImmediateDom;
    GoodMove(p0, p, marks, uses, seen, Site(node, 0), seen, Site(c, 0));
    SteadySelf(p, marks, seen, Site(c, 0));
    forall s | Before(p.g, s, Site(node, n)) ensures Finished(seen, Site(c, 0), s) && Before(p.g, s, Site(c, 0)) {
      AboveEnd(p.g, kids, seen1, seen, node, k, n, s);
    }
    TablesMove(p, marks, p, marks, seen, Site(c, 0), values, consts, Site(node, n), Site(c, 0));
    CompleteBelow(p, marks, values, consts, node, c);
  }

  lemma KidDone(p0: Prog, p1: Prog, marks1: seq<seq<bool>>, p2: Prog, marks2: seq<seq<bool>>, p: Prog, marks: seq<seq<bool>>,
                uses: map<nat, seq<Site>>, values: map<Pure, nat>, consts: map<nat, Word>, kids: seq<seq<nat>>,
                seen1: set<nat>, seen2: set<nat>, seen: set<nat>, node: nat, k: nat, n: nat)
    requires p1.g == p2.g && Setting(p2.g, kids, node) && Position(p2.g, seen1, Site(node, 0))
    requires PartlyWalked(p2.g, kids, seen1, seen2, node, k) && k < |kids[node]| && seen2 >= seen1 + {node}
    requires Steady(p1, marks1, p2, marks2, seen1, Site(node, 0)) && TablesAt(p2, marks2, values, consts, Site(node, n))
    requires Steady(p2, marks2, p, marks, seen2, Site(kids[node][k], 0)) && Walked(p2.g, seen2, seen, kids[node][k])
    requires GoodAt(p0, p, marks, uses, seen, Site(kids[node][k], 0))
    ensures p.g == p2.g && |p.code| == |p2.code| && forall b :: 0 <= b < |p.code| ==> |p.code[b]| == |p2.code[b]|
    ensures GoodAt(p0, p, marks, uses, seen, Site(node, 0)) && TablesAt(p, marks, values, consts, Site(node, n))
    ensures PartlyWalked(p2.g, kids, seen1, seen, node, k + 1) && seen >= seen1 + {node}
    ensures Steady(p1, marks1, p, marks, seen1, Site(node, 0))
  {
    hide TablesOk, GoodAt, Position, PartlyWalked, Before, Steady, Complete;
    var c := kids[node][k];
    SteadySizes(p2, marks2, p, marks, seen2, Site(c, 0));
    WalkedStep(p2.g, kids, seen1, seen2, seen, node, k);
    GoodMove(p0, p, marks, uses, seen, Site(c, 0), seen, Site(node, 0));
    forall s | Before(p2.g, s, Site(node, n)) ensures Finished(seen2, Site(c, 0), s) {
      AboveEnd(p2.g, kids, seen1, seen2, node, k, n, s);
    }
    TablesMove(p2, marks2, p, marks, seen2, Site(c, 0), values, consts, Site(node, n), Site(node, n));
    CompleteMove(p2, marks2, p, marks, seen2, Site(c, 0), values, consts, Site(node, n));
    SteadyTrans(p1, marks1, p2, marks2, p, marks, seen1, Site(node, 0), seen2, Site(c, 0));
  }

  // ----- the whole pass -----

  /** The same block, and the same outer state: what effects have been produced, in which order, from which values. */
  predicate SameOutside(c: Config, c': Config) {
    c.block == c'.block && c.halted == c'.halted && c.st.world == c'.st.world
  }

  lemma StartSound(p: Prog, marks: seq<seq<bool>>, uses: map<nat, seq<Site>>)
    requires Strict(p) && ListsValid(p, uses) && (forall r: nat :: Listed(p, uses, r)) && MarksFit(p, marks)
    requires forall s :: !Marked(marks, s)
    ensures GoodAt(p, p, marks, uses, {}, Site(p.g.entry, 0)) && TablesAt(p, marks, map[], map[], Site(p.g.entry, 0))
    ensures Position(p.g, {}, Site(p.g.entry, 0)) && Below(p.g, {}, p.g.entry)
  {
    hide Listed, UsesOk, UniqueDefs;
    EntryPath(p.g);
    forall a: nat ensures !StrictDom(p.g, a, p.g.entry) { assert Dom(p.g, a, p.g.entry) ==> a in [p.g.entry]; }
    hide CleanAt, EntryIn, OneOther;
    forall s ensures !Finished({}, Site(p.g.entry, 0), s) && !Before(p.g, s, Site(p.g.entry, 0)) {
      if s.block != p.g.entry { assert !StrictDom(p.g, s.block, p.g.entry); }
    }
  }

  lemma DropOutside(p0: Prog, p: Prog, marks: seq<seq<bool>>, sem: Sem, st: State, n: nat)
    requires SameRuns(p0, p) && Strict(p) && MarksOk(p, marks)
    ensures SameOutside(Run(p0, sem, st, n), Run(DropMarked(p, marks), sem, st, n))
  {
    DropKeepsRuns(p, marks, sem, st, n);
  }

  /** Global value numbering keeps the effects of every run, and leaves no computation that is made above or reduces
      to a constant or an operand, and no phi instruction that had one value. */
  method GlobalValueNumbering(p: Prog) returns (q: Prog)
    requires Strict(p)
    ensures q.g == p.g && NothingRedundant(q) && PhisGone(p, q)
    ensures forall sem, st, n: nat :: SameOutside(Run(p, sem, st, n), Run(q, sem, st, n))
  {
    var d := ConstructDomTree(p.g);
    var kids := KidsOf(p.g, d);
    var ctx := new Context(p, kids);
    ctx.BuildUses();
    StartSound(p, ctx.marks, ctx.uses);
    ctx.Dfs(p.g.entry);
    SoundHas(p, ctx.P(), ctx.marks, ctx.uses, ctx.seen, Site(p.g.entry, 0));
    SoundRuns(p, ctx.P(), ctx.marks, ctx.uses, ctx.seen, Site(p.g.entry, 0));
    Everything(p, ctx.P(), ctx.marks, ctx.uses, ctx.seen);
    var blocks := ctx.Reconstruct();
    q := Prog(p.g, blocks);
    forall sem, st, n: nat ensures SameOutside(Run(p, sem, st, n), Run(q, sem, st, n)) {
      DropOutside(p, ctx.P(), ctx.marks, sem, st, n);
    }
  }

  lemma SoundRuns(p0: Prog, p: Prog, marks: seq<seq<bool>>, uses: map<nat, seq<Site>>, seen: set<nat>, here: Site)
    requires GoodAt(p0, p, marks, uses, seen, here)
    ensures SameRuns(p0, p) && MarksFit(p, marks)
  { }

  /** The walk below the entry has been everywhere. */
  lemma Everything(p0: Prog, p: Prog, marks: seq<seq<bool>>, uses: map<nat, seq<Site>>, seen: set<nat>)
    requires Strict(p0) && GoodAt(p0, p, marks, uses, seen, Site(p0.g.entry, 0)) && Walked(p0.g, {}, seen, p0.g.entry)
    ensures MarksFit(p, marks) && NothingRedundant(DropMarked(p, marks)) && PhisGone(p0, DropMarked(p, marks))
  {
    var here := Site(p0.g.entry, 0);
    EntryDominates(p0.g);
    forall s | ValidSite(p, s) ensures Finished(seen, here, s) { assert s.block < |p0.g.out|; }
    LeftNotRedundant(p, marks, seen, here);
    LeftPhis(p0, p, marks, seen, here);
  }

  lemma EntryDominates(g: Cfg)
    ensures forall x: nat :: Dom(g, g.entry, x)
  {
    forall x: nat, path | PathTo(g, path, x) ensures g.entry in path { assert path[0] in path; }
  }
}
