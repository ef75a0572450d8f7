/** Dominators of a control-flow graph by node removal (`construct_dom_tree`, src/ir/opt/dom.cpp). */
module Dominators {
  /** Successors of every block. */
  datatype Cfg = Cfg(out: seq<seq<nat>>, entry: nat)

  ghost predicate ValidCfg(g: Cfg) {
    g.entry < |g.out| && forall x, k :: 0 <= x < |g.out| && 0 <= k < |g.out[x]| ==> g.out[x][k] < |g.out|
  }

  predicate Succ(g: Cfg, x: nat, y: nat) {
    x < |g.out| && y in g.out[x]
  }

  // ----- paths and dominance -----

  ghost predicate PathTo(g: Cfg, p: seq<nat>, x: nat) {
    && p != [] && p[0] == g.entry && p[|p| - 1] == x
    && forall i :: 0 <= i < |p| - 1 ==> Succ(g, p[i], p[i + 1])
  }

  ghost predicate Reachable(g: Cfg, x: nat) {
    exists p :: PathTo(g, p, x)
  }

  /** Every path from the entry to `x` passes `a`. */
  ghost predicate Dom(g: Cfg, a: nat, x: nat) {
    forall p :: PathTo(g, p, x) ==> a in p
  }

  ghost predicate StrictDom(g: Cfg, a: nat, x: nat) {
    a != x && Dom(g, a, x)
  }

  ghost predicate ReachAvoid(g: Cfg, v: nat, x: nat) {
    exists p :: PathTo(g, p, x) && v !in p
  }

  lemma EntryPath(g: Cfg)
    ensures PathTo(g, [g.entry], g.entry)
  { }

  lemma PathStep(g: Cfg, p: seq<nat>, x: nat, y: nat)
    requires PathTo(g, p, x) && Succ(g, x, y)
    ensures PathTo(g, p + [y], y)
  {
    var q := p + [y];
    forall i | 0 <= i < |q| - 1 ensures Succ(g, q[i], q[i + 1]) {
      if i < |p| - 1 { assert q[i] == p[i] && q[i + 1] == p[i + 1]; }
    }
  }

  lemma PathPrefix(g: Cfg, p: seq<nat>, x: nat, k: nat)
    requires PathTo(g, p, x) && k < |p|
    ensures PathTo(g, p[..k + 1], p[k])
  { }

  lemma AvoidStep(g: Cfg, v: nat, x: nat, y: nat)
    requires ReachAvoid(g, v, x) && Succ(g, x, y) && y != v
    ensures ReachAvoid(g, v, y)
  {
    var p :| PathTo(g, p, x) && v !in p;
    PathStep(g, p, x, y);
  }

  lemma DomTrans(g: Cfg, a: nat, b: nat, x: nat)
    requires Dom(g, a, b) && Dom(g, b, x)
    ensures Dom(g, a, x)
  {
    forall p | PathTo(g, p, x) ensures a in p {
      var k :| 0 <= k < |p| && p[k] == b;
      PathPrefix(g, p, x, k);
      assert a in p[..k + 1];
    }
  }

  lemma {:induction false} LastIndex(p: seq<nat>, a: nat) returns (k: nat)
    requires a in p
    ensures k < |p| && p[k] == a && a !in p[k + 1..]
  {
    var n := |p| - 1;
    if p[n] == a {
      k := n;
    } else {
      assert p == p[..n] + [p[n]];
      k := LastIndex(p[..n], a);
      assert p[k + 1..] == p[..n][k + 1..] + [p[n]];
    }
  }

  lemma Splice(g: Cfg, q: seq<nat>, b: nat, p: seq<nat>, x: nat, j: nat)
    requires PathTo(g, q, b) && PathTo(g, p, x) && j < |p| && p[j] == b
    ensures PathTo(g, q + p[j + 1..], x)
  {
    var r := q + p[j + 1..];
    forall i | 0 <= i < |r| - 1 ensures Succ(g, r[i], r[i + 1]) {
      if i >= |q| - 1 { assert r[i] == p[j + 1 + i - |q|] && r[i + 1] == p[j + 2 + i - |q|]; }
    }
    if p[j + 1..] == [] { assert j == |p| - 1; }
  }

  /** Of two dominators of a reachable block, the one that occurs last on a path is dominated by the other. */
  lemma ChainAt(g: Cfg, a: nat, b: nat, x: nat, p: seq<nat>, i: nat, j: nat)
    requires Dom(g, a, x) && PathTo(g, p, x) && i < j < |p| && p[j] == b && a !in p[i + 1..]
    ensures Dom(g, a, b)
  {
    forall q | PathTo(g, q, b) ensures a in q {
      Splice(g, q, b, p, x, j);
      assert a in q + p[j + 1..];
      assert p[j + 1..] == p[i + 1..][j - i..];
    }
  }

  /** The dominators of a block form a chain. */
  lemma DomChain(g: Cfg, a: nat, b: nat, x: nat)
    requires Dom(g, a, x) && Dom(g, b, x) && Reachable(g, x)
    ensures Dom(g, a, b) || Dom(g, b, a)
  {
    var p :| PathTo(g, p, x);
    var i := LastIndex(p, a);
    var j := LastIndex(p, b);
    if i < j { ChainAt(g, a, b, x, p, i, j); }
    else if j < i { ChainAt(g, b, a, x, p, j, i); }
    else { forall q | PathTo(g, q, b) ensures a in q { } }
  }

  ghost predicate AllReachable(g: Cfg) {
    forall x: nat :: x < |g.out| ==> Reachable(g, x)
  }

  lemma {:induction false} DomAntisym(g: Cfg, a: nat, b: nat, p: seq<nat>)
    requires Dom(g, a, b) && Dom(g, b, a) && PathTo(g, p, a)
    ensures a == b
    decreases |p|
  {
    var k :| 0 <= k < |p| && p[k] == b;
    PathPrefix(g, p, a, k);
    var m :| 0 <= m < |p[..k + 1]| && p[..k + 1][m] == a;
    PathPrefix(g, p[..k + 1], b, m);
    if m + 1 < |p| { DomAntisym(g, a, b, p[..k + 1][..m + 1]); }
  }

  lemma StrictAbove(g: Cfg, y: nat, x: nat, j: nat)
    requires Dom(g, y, x) && StrictDom(g, x, j) && Reachable(g, j)
    ensures StrictDom(g, y, j)
  {
    DomTrans(g, y, x, j);
    if y == j {
      var p :| PathTo(g, p, j);
      DomAntisym(g, j, x, p);
    }
  }

  // ----- depth-first search -----

  /** A path to `x` whose other nodes are all in `done`. */
  ghost predicate Via(g: Cfg, done: seq<nat>, x: nat) {
    exists p :: PathTo(g, p, x) && forall y :: y in p ==> y == x || y in done
  }

  ghost predicate Distinct(s: seq<nat>) {
    forall i, j :: 0 <= i < j < |s| ==> s[i] != s[j]
  }

  /** Strict dominators are discovered first. */
  ghost predicate DomsFirst(g: Cfg, dfn: seq<nat>) {
    forall k, a :: 0 <= k < |dfn| && StrictDom(g, a, dfn[k]) ==> a in dfn[..k]
  }

  lemma Discover(g: Cfg, dfn: seq<nat>, x: nat)
    requires DomsFirst(g, dfn) && Via(g, dfn, x)
    ensures DomsFirst(g, dfn + [x])
  {
    var p :| PathTo(g, p, x) && forall y :: y in p ==> y == x || y in dfn;
    var dfn' := dfn + [x];
    forall k, a | 0 <= k < |dfn'| && StrictDom(g, a, dfn'[k]) ensures a in dfn'[..k] {
      if k < |dfn| { assert dfn'[..k] == dfn[..k] && dfn'[k] == dfn[k]; } else { assert dfn'[..k] == dfn; }
    }
  }

  lemma ViaStep(g: Cfg, dfn: seq<nat>, x: nat, y: nat)
    requires Via(g, dfn, x) && x in dfn && Succ(g, x, y)
    ensures Via(g, dfn, y)
  {
    var p :| PathTo(g, p, x) && forall z :: z in p ==> z == x || z in dfn;
    PathStep(g, p, x, y);
  }

  lemma ViaMono(g: Cfg, dfn: seq<nat>, dfn': seq<nat>, x: nat)
    requires Via(g, dfn, x) && dfn <= dfn'
    ensures Via(g, dfn', x)
  {
    var p :| PathTo(g, p, x) && forall z :: z in p ==> z == x || z in dfn;
  }

  /** All marked nodes can be reached without `v`. */
  ghost predicate MarkedReach(g: Cfg, tags: seq<nat>, tag: nat, v: nat) {
    forall x :: 0 <= x < |tags| && tags[x] == tag ==> x == v || ReachAvoid(g, v, x)
  }

  /** What a traversal has newly marked has only marked successors. */
  ghost predicate NewClosed(g: Cfg, tags0: seq<nat>, tags: seq<nat>, tag: nat, except: nat) {
    && |tags0| == |tags| == |g.out|
    && forall x: nat, y: nat :: x < |tags| && tags[x] == tag && tags0[x] != tag && x != except && Succ(g, x, y) ==>
         y < |tags| && tags[y] == tag
  }

  ghost predicate Marks(tags0: seq<nat>, tags: seq<nat>, tag: nat) {
    && |tags0| == |tags|
    && forall x :: 0 <= x < |tags| ==> tags[x] == tags0[x] || tags[x] == tag
  }

  function White(tags: seq<nat>, tag: nat): set<nat> {
    set x | 0 <= x < |tags| && tags[x] != tag
  }

  /** `dfn` lists the marked nodes in order of discovery. */
  ghost predicate Recorded(g: Cfg, tags: seq<nat>, dfn: seq<nat>) {
    && Distinct(dfn) && DomsFirst(g, dfn)
    && (forall x: nat :: x in dfn <==> x < |tags| && tags[x] == 1)
  }

  class DomTreeBuilder {
    const g: Cfg
    var tags: seq<nat>
    var tag: nat
    var dfn: seq<nat>
    var domFa: seq<int>

    constructor (graph: Cfg)
      ensures g == graph
    {
      g := graph;
      tags, tag, dfn, domFa := [], 0, [], [];
    }

    method Dfs(node: nat, ghost v: nat)
      requires ValidCfg(g) && |tags| == |g.out| && node < |tags|
      requires MarkedReach(g, tags, tag, v) && (node == v || ReachAvoid(g, v, node)) && (v < |tags| ==> tags[v] == tag)
      requires tag == 1 ==> Recorded(g, tags, dfn) && Via(g, dfn, node)
      modifies `tags, `dfn
      ensures Marks(old(tags), tags, tag) && |tags| == |g.out| && tags[node] == tag
      ensures MarkedReach(g, tags, tag, v)
      ensures NewClosed(g, old(tags), tags, tag, |g.out|)
      ensures tag == 1 ==> Recorded(g, tags, dfn) && old(dfn) <= dfn
      ensures tag != 1 ==> dfn == old(dfn)
      decreases White(tags, tag)
    {
      if tags[node] == tag { return; }
      ghost var tags0, dfn0 := tags, dfn;
      assert node in White(tags, tag);
      if tag == 1 {
        Discover(g, dfn, node);
        dfn := dfn + [node];
      }
      tags := tags[node := tag];
      for k := 0 to |g.out[node]|
        invariant Marks(tags0, tags, tag) && tags[node] == tag && MarkedReach(g, tags, tag, v)
        invariant v < |tags| ==> tags[v] == tag
        invariant NewClosed(g, tags0, tags, tag, node)
        invariant forall j :: 0 <= j < k ==> tags[g.out[node][j]] == tag
        invariant tag == 1 ==> Recorded(g, tags, dfn) && Via(g, dfn, node) && dfn0 <= dfn
        invariant tag != 1 ==> dfn == dfn0
      {
        var out := g.out[node][k];
        assert Succ(g, node, out);
        if out != v { AvoidStep(g, v, node, out); }
        if tag == 1 { ViaStep(g, dfn, node, out); }
        ghost var tags1, dfn1 := tags, dfn;
        assert node !in White(tags, tag);
        Dfs(out, v);
        ClosedTrans(g, tags0, tags1, tags, tag, node);
        if tag == 1 { ViaMono(g, dfn1, dfn, node); }
      }
      assert forall y: nat :: Succ(g, node, y) ==> y < |tags| && tags[y] == tag;
    }

    /** Mark what can be reached from the entry without `v` (or at all, for `v` out of range). */
    method Mark(v: nat)
      requires ValidCfg(g) && |tags| == |g.out| && tag >= 1
      requires (forall x :: 0 <= x < |tags| && tags[x] == tag ==> x == v) && (v < |tags| ==> tags[v] == tag)
      requires tag == 1 ==> dfn == [] && v == |g.out|
      modifies `tags, `dfn
      ensures Marks(old(tags), tags, tag)
      ensures forall x :: 0 <= x < |tags| ==> (tags[x] == tag <==> x == v || ReachAvoid(g, v, x))
      ensures if tag == 1 then Recorded(g, tags, dfn) && g.entry in dfn else dfn == old(dfn)
    {
      EntryPath(g);
      assert ReachAvoid(g, v, g.entry) || g.entry == v;
      if tag == 1 { assert Recorded(g, tags, dfn) && Via(g, dfn, g.entry); }
      ghost var tags0 := tags;
      Dfs(g.entry, v);
      forall x | 0 <= x < |tags| && ReachAvoid(g, v, x) ensures tags[x] == tag {
        var p :| PathTo(g, p, x) && v !in p;
        MarkedAlong(g, tags0, tags, tag, v, p, |p| - 1);
      }
    }

    /** The father of every node: the last one, in order of discovery, whose removal cuts it off. */
    method ConstructFathers()
      requires ValidCfg(g)
      modifies this
      ensures |domFa| == |g.out| && Discovered(g, dfn)
      ensures forall x :: 0 <= x < |domFa| ==> LastCut(g, dfn, domFa[x], x)
    {
      tags, domFa := seq(|g.out|, i => 0), seq(|g.out|, i => -1);
      tag, dfn := 1, [];
      Mark(|g.out|);
      DiscoveredAll(g, tags, dfn);
      ghost var order := dfn;
      for k := 0 to |dfn|
        invariant |tags| == |domFa| == |g.out| && tag >= 1 && dfn == order
        invariant forall x :: 0 <= x < |tags| ==> tags[x] <= tag
        invariant forall x :: 0 <= x < |domFa| ==> LastCut(g, dfn[..k], domFa[x], x)
      {
        var node := dfn[k];
        assert node in dfn;
        tag := tag + 1;
        tags := tags[node := tag];
        Mark(node);
        SetFathers(k);
      }
      assert dfn[..|dfn|] == dfn;
    }

    method SetFathers(k: nat)
      requires k < |dfn| && |tags| == |domFa| == |g.out|
      requires forall x :: 0 <= x < |tags| ==> (tags[x] == tag <==> x == dfn[k] || ReachAvoid(g, dfn[k], x))
      requires forall x :: 0 <= x < |domFa| ==> LastCut(g, dfn[..k], domFa[x], x)
      modifies `domFa
      ensures |domFa| == |g.out| && forall x :: 0 <= x < |domFa| ==> LastCut(g, dfn[..k + 1], domFa[x], x)
    {
      ghost var fa0 := domFa;
      for x := 0 to |domFa|
        invariant |domFa| == |fa0|
        invariant forall y :: 0 <= y < |domFa| ==>
          domFa[y] == if y < x && Cuts(g, dfn[k], y) then dfn[k] else fa0[y]
      {
        if tags[x] != tag { domFa := domFa[x := dfn[k]]; }
      }
      forall x | 0 <= x < |domFa| ensures LastCut(g, dfn[..k + 1], domFa[x], x) { LastCutStep(g, dfn, k, fa0[x], x); }
    }
  }

  lemma {:induction false} MarkedAlong(g: Cfg, tags0: seq<nat>, tags: seq<nat>, tag: nat, v: nat, p: seq<nat>, i: nat)
    requires NewClosed(g, tags0, tags, tag, |g.out|) && ValidCfg(g)
    requires forall x :: 0 <= x < |tags0| && tags0[x] == tag ==> x == v
    requires i < |p| && PathTo(g, p, p[|p| - 1]) && v !in p && tags[g.entry] == tag
    ensures p[i] < |tags| && tags[p[i]] == tag
  {
    if i > 0 {
      MarkedAlong(g, tags0, tags, tag, v, p, i - 1);
      assert Succ(g, p[i - 1], p[i]) && p[i - 1] in p;
    }
  }

  /** `dfn` holds the reachable nodes, strict dominators first. */
  ghost predicate Discovered(g: Cfg, dfn: seq<nat>) {
    && Distinct(dfn) && DomsFirst(g, dfn) && g.entry in dfn
    && (forall x: nat {:trigger x in dfn} :: x in dfn <==> Reachable(g, x))
    && (forall x: nat {:trigger x in dfn} :: x in dfn ==> x < |g.out|)
  }

  ghost predicate Cuts(g: Cfg, d: nat, x: nat) {
    d != x && !ReachAvoid(g, d, x)
  }

  /** `fa` is the last node of `dfn` that cuts `x` off, or -1. */
  ghost predicate LastCut(g: Cfg, dfn: seq<nat>, fa: int, x: nat) {
    if fa < 0 then forall j :: 0 <= j < |dfn| ==> !Cuts(g, dfn[j], x)
    else exists i :: 0 <= i < |dfn| && dfn[i] == fa && Cuts(g, dfn[i], x) && forall j :: i < j < |dfn| ==> !Cuts(g, dfn[j], x)
  }

  lemma LastCutStep(g: Cfg, dfn: seq<nat>, k: nat, fa: int, x: nat)
    requires k < |dfn| && LastCut(g, dfn[..k], fa, x)
    ensures LastCut(g, dfn[..k + 1], if Cuts(g, dfn[k], x) then dfn[k] else fa, x)
  {
    assert dfn[..k + 1] == dfn[..k] + [dfn[k]];
    if !Cuts(g, dfn[k], x) && fa >= 0 {
      var i :| 0 <= i < k && dfn[..k][i] == fa && Cuts(g, dfn[..k][i], x) && forall j :: i < j < k ==> !Cuts(g, dfn[..k][j], x);
      var longer := dfn[..k + 1];
      assert longer[i] == fa;
      forall j | i < j < k + 1 ensures !Cuts(g, longer[j], x) { assert j < k ==> dfn[..k][j] == longer[j]; }
    } else if Cuts(g, dfn[k], x) {
      assert dfn[..k + 1][k] == dfn[k];
    }
  }

  lemma NodesInRange(g: Cfg, x: nat)
    requires ValidCfg(g) && Reachable(g, x)
    ensures x < |g.out|
  {
    var p :| PathTo(g, p, x);
    if |p| > 1 {
      var y := p[|p| - 2];
      assert Succ(g, y, p[|p| - 2 + 1]);
    }
  }

  lemma DiscoveredAll(g: Cfg, tags: seq<nat>, dfn: seq<nat>)
    requires ValidCfg(g) && |tags| == |g.out| && Recorded(g, tags, dfn) && g.entry in dfn
    requires forall x :: 0 <= x < |tags| ==> (tags[x] == 1 <==> x == |g.out| || ReachAvoid(g, |g.out|, x))
    ensures Discovered(g, dfn)
  {
    forall x: nat ensures x in dfn <==> Reachable(g, x) {
      if Reachable(g, x) {
        NodesInRange(g, x);
        var p :| PathTo(g, p, x);
        forall i | 0 <= i < |p| ensures p[i] < |g.out| { PathPrefix(g, p, x, i); NodesInRange(g, p[i]); }
        assert ReachAvoid(g, |g.out|, x);
      }
    }
  }

  // ----- immediate dominators -----

  /** `d` strictly dominates `x`, and every other strict dominator of `x` dominates `d`. */
  ghost predicate ImmediateDom(g: Cfg, d: nat, x: nat) {
    StrictDom(g, d, x) && forall a :: StrictDom(g, a, x) ==> Dom(g, a, d)
  }

  lemma CutsIsDom(g: Cfg, d: nat, x: nat)
    ensures Cuts(g, d, x) <==> StrictDom(g, d, x)
  { }

  lemma DomReachable(g: Cfg, a: nat, x: nat)
    requires Dom(g, a, x) && Reachable(g, x)
    ensures Reachable(g, a)
  {
    var p :| PathTo(g, p, x);
    var k :| 0 <= k < |p| && p[k] == a;
    PathPrefix(g, p, x, k);
  }

  lemma IndexOf(s: seq<nat>, x: nat) returns (i: nat)
    requires x in s
    ensures i < |s| && s[i] == x
  {
    i :| i < |s| && s[i] == x;
  }

  lemma EarlierDominates(g: Cfg, dfn: seq<nat>, i: nat, a: nat, x: nat)
    requires Discovered(g, dfn) && i < |dfn| && Reachable(g, x)
    requires StrictDom(g, dfn[i], x) && StrictDom(g, a, x)
    requires forall j :: i < j < |dfn| ==> !Cuts(g, dfn[j], x)
    ensures Dom(g, a, dfn[i])
  {
    DomReachable(g, a, x);
    var j := IndexOf(dfn, a);
    CutsIsDom(g, a, x);
    DomChain(g, a, dfn[i], x);
    if j < i {
      assert dfn[i] !in dfn[..j];
    }
  }

  /** The last cutting node is the immediate dominator. */
  lemma LastCutIsImmediate(g: Cfg, dfn: seq<nat>, fa: int, x: nat)
    requires Discovered(g, dfn) && LastCut(g, dfn, fa, x) && Reachable(g, x)
    ensures if x == g.entry then fa < 0 else fa >= 0 && ImmediateDom(g, fa, x)
  {
    if x == g.entry {
      EntryPath(g);
      forall j | 0 <= j < |dfn| ensures !Cuts(g, dfn[j], x) { assert dfn[j] == x || dfn[j] !in [g.entry]; }
    } else {
      var e := IndexOf(dfn, g.entry);
      CutsIsDom(g, g.entry, x);
      forall p | PathTo(g, p, x) ensures g.entry in p { assert p[0] in p; }
      assert Cuts(g, dfn[e], x);
      var i :| 0 <= i < |dfn| && dfn[i] == fa && Cuts(g, dfn[i], x) && forall j :: i < j < |dfn| ==> !Cuts(g, dfn[j], x);
      CutsIsDom(g, dfn[i], x);
      forall a | StrictDom(g, a, x) ensures Dom(g, a, dfn[i]) { EarlierDominates(g, dfn, i, a, x); }
    }
  }

  lemma ClosedTrans(g: Cfg, tags0: seq<nat>, tags1: seq<nat>, tags2: seq<nat>, tag: nat, node: nat)
    requires NewClosed(g, tags0, tags1, tag, node) && NewClosed(g, tags1, tags2, tag, |g.out|)
    requires Marks(tags0, tags1, tag) && Marks(tags1, tags2, tag)
    ensures NewClosed(g, tags0, tags2, tag, node) && Marks(tags0, tags2, tag)
  {
    forall x: nat, y: nat | x < |tags2| && tags2[x] == tag && tags0[x] != tag && x != node && Succ(g, x, y)
      ensures y < |tags2| && tags2[y] == tag
    {
      if tags1[x] == tag { assert tags1[y] == tag; }
    }
  }
}
