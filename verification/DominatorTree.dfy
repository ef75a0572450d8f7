/** The dominator tree, its depth-first numbering and the interval test for dominance, dominance frontiers and the
    placement of phi instructions (src/ir/opt/dom.cpp, src/ir/opt/dom.hpp, src/ir/opt/ssa_constrcution.cpp). */
module DominatorTree {
  import opened Dominators

  // ----- trees given by fathers -----

  /** Fathers (-1 for none), with a rank that grows from father to child. */
  datatype Tree = Tree(fa: seq<int>, rank: seq<nat>)

  ghost predicate TreeOk(t: Tree) {
    && |t.fa| == |t.rank|
    && forall x :: 0 <= x < |t.fa| ==> t.fa[x] < |t.fa| && (t.fa[x] >= 0 ==> t.rank[t.fa[x]] < t.rank[x])
  }

  /** `a` is `x` or an ancestor of it. */
  ghost predicate Anc(t: Tree, a: nat, x: nat)
    requires TreeOk(t)
    decreases if x < |t.rank| then t.rank[x] else 0
  {
    x < |t.fa| && (a == x || (t.fa[x] >= 0 && Anc(t, a, t.fa[x])))
  }

  lemma {:induction false} AncRank(t: Tree, a: nat, x: nat)
    requires TreeOk(t) && Anc(t, a, x)
    ensures a < |t.fa| && (a != x ==> t.rank[a] < t.rank[x])
    decreases t.rank[x]
  {
    if a != x { AncRank(t, a, t.fa[x]); }
  }

  lemma {:induction false} AncTrans(t: Tree, a: nat, b: nat, x: nat)
    requires TreeOk(t) && Anc(t, a, b) && Anc(t, b, x)
    ensures Anc(t, a, x)
    decreases t.rank[x]
  {
    if b != x { AncTrans(t, a, b, t.fa[x]); }
  }

  lemma {:induction false} AncChain(t: Tree, a: nat, b: nat, x: nat)
    requires TreeOk(t) && Anc(t, a, x) && Anc(t, b, x)
    ensures Anc(t, a, b) || Anc(t, b, a)
    decreases t.rank[x]
  {
    if a != x && b != x { AncChain(t, a, b, t.fa[x]); }
  }

  lemma {:induction false} AncChild(t: Tree, a: nat, x: nat) returns (c: nat)
    requires TreeOk(t) && Anc(t, a, x) && a != x
    ensures c < |t.fa| && t.fa[c] == a && Anc(t, c, x)
    decreases t.rank[x]
  {
    if t.fa[x] == a { c := x; } else { c := AncChild(t, a, t.fa[x]); }
  }

  lemma SiblingsApart(t: Tree, c: nat, d: nat, x: nat)
    requires TreeOk(t) && c < |t.fa| && d < |t.fa| && t.fa[c] == t.fa[d] >= 0 && Anc(t, c, x) && Anc(t, d, x)
    ensures c == d
  {
    AncChain(t, c, d, x);
    if Anc(t, c, d) && c != d { AncRank(t, c, t.fa[d]); }
    if Anc(t, d, c) && c != d { AncRank(t, d, t.fa[c]); }
  }

  // ----- numbering -----

  ghost predicate ChildrenOk(t: Tree, out: seq<seq<nat>>) {
    && |out| == |t.fa|
    && forall a :: 0 <= a < |out| ==> Distinct(out[a]) && forall c: nat :: c in out[a] <==> c < |t.fa| && t.fa[c] == a
  }

  /** Preorder, the number of each node in it, and the sizes of subtrees. */
  datatype Numbers = Numbers(order: seq<nat>, pos: seq<nat>, size: seq<nat>)

  ghost predicate NumberOk(t: Tree, n: Numbers) {
    && |n.pos| == |n.size| == |t.fa|
    && forall i :: 0 <= i < |n.order| ==> n.order[i] < |t.fa| && n.pos[n.order[i]] == i
  }

  /** The interval of `y` holds exactly its descendants. */
  ghost predicate Interval(t: Tree, n: Numbers, y: nat)
    requires TreeOk(t)
  {
    && y < |n.pos| && y < |n.size| && n.size[y] >= 1 && n.pos[y] + n.size[y] <= |n.order|
    && forall z :: z in n.order[n.pos[y]..n.pos[y] + n.size[y]] <==> Anc(t, y, z)
  }

  /** Numbers already given stay. */
  ghost predicate Frame(t: Tree, n: Numbers, n': Numbers) {
    && n.order <= n'.order && |n'.pos| == |n'.size| == |n.pos| == |n.size| == |t.fa|
    && forall y :: y in n.order ==> y < |t.fa| && n'.pos[y] == n.pos[y] && n'.size[y] == n.size[y]
  }

  lemma IntervalMono(t: Tree, n: Numbers, n': Numbers, y: nat)
    requires TreeOk(t) && Interval(t, n, y) && Frame(t, n, n')
    requires n'.pos[y] == n.pos[y] && n'.size[y] == n.size[y]
    ensures Interval(t, n', y)
  {
    assert n'.order[n.pos[y]..n.pos[y] + n.size[y]] == n.order[n.pos[y]..n.pos[y] + n.size[y]];
  }

  /** With its interval right, comparing numbers decides who is below `y`. */
  lemma IntervalTest(t: Tree, n: Numbers, y: nat, z: nat)
    requires TreeOk(t) && Interval(t, n, y) && NumberOk(t, n) && z in n.order
    ensures Anc(t, y, z) <==> n.pos[y] <= n.pos[z] <= n.pos[y] + n.size[y] - 1
  {
    var i := IndexOf(n.order, z);
    assert n.pos[z] == i;
    var part := n.order[n.pos[y]..n.pos[y] + n.size[y]];
    if n.pos[y] <= i < n.pos[y] + n.size[y] { assert part[i - n.pos[y]] == z; }
    if z in part {
      var j := IndexOf(part, z);
      assert n.order[n.pos[y] + j] == z;
    }
  }

  /** `y` is below one of the first `k` children in `out`. */
  ghost predicate BelowFirst(t: Tree, out: seq<nat>, k: nat, y: nat)
    requires TreeOk(t) && k <= |out|
  {
    exists j :: 0 <= j < k && Anc(t, out[j], y)
  }

  /** The subtree of `node` has been numbered. */
  ghost predicate Numbered(t: Tree, n: Numbers, n': Numbers, node: nat)
    requires TreeOk(t)
  {
    && NumberOk(t, n') && Frame(t, n, n')
    && (forall y :: y in n'.order[|n.order|..] <==> Anc(t, node, y))
    && (forall y :: Anc(t, node, y) ==> Interval(t, n', y))
  }

  /** `node` and the subtrees of its first `k` children have been numbered. */
  ghost predicate Partly(t: Tree, out: seq<nat>, n: Numbers, n': Numbers, node: nat, k: nat)
    requires TreeOk(t) && k <= |out|
  {
    && NumberOk(t, n') && Frame(t, n, n')
    && node < |t.fa| && |n.order| < |n'.order| && n'.order[|n.order|] == node
    && n'.pos[node] == |n.order| && n'.size[node] == |n'.order| - |n.order|
    && (forall y :: y in n'.order[|n.order|..] <==> y == node || BelowFirst(t, out, k, y))
    && (forall y :: BelowFirst(t, out, k, y) ==> Interval(t, n', y))
  }

  ghost predicate Unnumbered(t: Tree, n: Numbers, node: nat)
    requires TreeOk(t)
  {
    forall y :: y in n.order ==> !Anc(t, node, y)
  }

  lemma VisitNode(t: Tree, out: seq<nat>, n: Numbers, node: nat)
    requires TreeOk(t) && NumberOk(t, n) && node < |t.fa| && Unnumbered(t, n, node)
    ensures Partly(t, out, n, Numbers(n.order + [node], n.pos[node := |n.order|], n.size[node := 1]), node, 0)
  {
    var n' := Numbers(n.order + [node], n.pos[node := |n.order|], n.size[node := 1]);
    assert Anc(t, node, node);
    assert node !in n.order;
    forall y | y in n.order ensures y < |t.fa| { var i := IndexOf(n.order, y); }
    assert n'.order[|n.order|..] == [node];
  }

  lemma ChildUnnumbered(t: Tree, out: seq<nat>, n: Numbers, n': Numbers, node: nat, k: nat)
    requires TreeOk(t) && k < |out| && Partly(t, out, n, n', node, k) && Unnumbered(t, n, node)
    requires Distinct(out) && forall c: nat :: c in out <==> c < |t.fa| && t.fa[c] == node
    ensures out[k] < |t.fa| && t.fa[out[k]] == node && Unnumbered(t, n', out[k])
  {
    var c := out[k];
    assert c in out;
    forall y | y in n'.order ensures !Anc(t, c, y) {
      if Anc(t, c, y) {
        AncRank(t, c, y);
        assert Anc(t, node, c);
        AncTrans(t, node, c, y);
        assert n'.order == n.order + n'.order[|n.order|..];
        if BelowFirst(t, out, k, y) {
          var j :| 0 <= j < k && Anc(t, out[j], y);
          assert out[j] in out;
          SiblingsApart(t, out[j], c, y);
        }
      }
    }
  }

  lemma VisitChild(t: Tree, out: seq<nat>, n: Numbers, n1: Numbers, n2: Numbers, node: nat, k: nat)
    requires TreeOk(t) && k < |out| && Partly(t, out, n, n1, node, k) && Numbered(t, n1, n2, out[k])
    requires forall c: nat :: c in out <==> c < |t.fa| && t.fa[c] == node
    ensures node < |t.fa| == |n2.size|
    ensures
      var n3 := Numbers(n2.order, n2.pos, n2.size[node := n2.size[node] + |n2.order| - |n1.order|]);
      Partly(t, out, n, n3, node, k + 1)
  {
    var n3 := Numbers(n2.order, n2.pos, n2.size[node := n2.size[node] + |n2.order| - |n1.order|]);
    var start := |n.order|;
    assert node in n1.order;
    assert n2.order[start..] == n1.order[start..] + n2.order[|n1.order|..];
    forall i | 0 <= i < |n.order| ensures n.order[i] != node { assert n1.order[i] == n.order[i]; }
    forall y ensures BelowFirst(t, out, k + 1, y) <==> BelowFirst(t, out, k, y) || Anc(t, out[k], y) { }
    forall y: nat | BelowFirst(t, out, k + 1, y) ensures Interval(t, n3, y) {
      KeepInterval(t, out, n, n1, n2, n3, node, k, y);
    }
  }

  lemma KeepInterval(t: Tree, out: seq<nat>, n: Numbers, n1: Numbers, n2: Numbers, n3: Numbers, node: nat, k: nat, y: nat)
    requires TreeOk(t) && k < |out| && Partly(t, out, n, n1, node, k) && Numbered(t, n1, n2, out[k])
    requires forall c: nat :: c in out <==> c < |t.fa| && t.fa[c] == node
    requires n3.order == n2.order && n3.pos == n2.pos && |n3.size| == |n2.size|
    requires forall z :: 0 <= z < |n2.size| && z != node ==> n3.size[z] == n2.size[z]
    requires BelowFirst(t, out, k + 1, y)
    ensures Interval(t, n3, y)
  {
    var j :| 0 <= j < k + 1 && Anc(t, out[j], y);
    assert out[j] in out;
    AncRank(t, out[j], y);
    if j < k {
      assert BelowFirst(t, out, k, y);
      assert y in n1.order[|n.order|..];
      IntervalMono(t, n1, n2, y);
    }
    SameInterval(t, n2, n3, y);
  }

  lemma SameInterval(t: Tree, n: Numbers, n': Numbers, y: nat)
    requires TreeOk(t) && Interval(t, n, y)
    requires n'.order == n.order && n'.pos == n.pos && |n'.size| == |n.size| && n'.size[y] == n.size[y]
    ensures Interval(t, n', y)
  { }

  lemma VisitDone(t: Tree, out: seq<nat>, n: Numbers, n': Numbers, node: nat)
    requires TreeOk(t) && Partly(t, out, n, n', node, |out|)
    requires forall c: nat :: c in out <==> c < |t.fa| && t.fa[c] == node
    ensures Numbered(t, n, n', node)
  {
    hide Interval, NumberOk, Frame;
    forall y ensures Anc(t, node, y) <==> y == node || BelowFirst(t, out, |out|, y) { BelowAll(t, out, node, y); }
    WholeInterval(t, out, n, n', node);
  }

  lemma BelowAll(t: Tree, out: seq<nat>, node: nat, y: nat)
    requires TreeOk(t) && node < |t.fa| && forall c: nat :: c in out <==> c < |t.fa| && t.fa[c] == node
    ensures Anc(t, node, y) <==> y == node || BelowFirst(t, out, |out|, y)
  {
    if Anc(t, node, y) && y != node {
      var c := AncChild(t, node, y);
      var j := IndexOf(out, c);
      assert Anc(t, out[j], y);
    }
    if BelowFirst(t, out, |out|, y) {
      var j :| 0 <= j < |out| && Anc(t, out[j], y);
      assert out[j] in out;
      assert Anc(t, node, out[j]);
      AncTrans(t, node, out[j], y);
    }
  }

  lemma WholeInterval(t: Tree, out: seq<nat>, n: Numbers, n': Numbers, node: nat)
    requires TreeOk(t) && Partly(t, out, n, n', node, |out|)
    requires forall y :: Anc(t, node, y) <==> y == node || BelowFirst(t, out, |out|, y)
    ensures Interval(t, n', node)
  {
    assert n'.order[n'.pos[node]..n'.pos[node] + n'.size[node]] == n'.order[|n.order|..];
  }

  class DomTree {
    ghost const t: Tree
    const out: seq<seq<nat>>
    var order: seq<nat>
    var pos: seq<nat>
    var size: seq<nat>

    constructor (ghost tree: Tree, children: seq<seq<nat>>)
      requires TreeOk(tree) && |children| == |tree.fa|
      ensures t == tree && out == children && order == [] && NumberOk(t, N())
    {
      t, out := tree, children;
      order, pos, size := [], seq(|children|, i => 0), seq(|children|, i => 0);
    }

    ghost function N(): Numbers
      reads this
    {
      Numbers(order, pos, size)
    }

    /** Number the subtree of `node` and return its size. */
    method Dfs(node: nat, ghost bound: nat) returns (s: nat)
      requires TreeOk(t) && ChildrenOk(t, out) && NumberOk(t, N()) && node < |t.fa| && Unnumbered(t, N(), node)
      requires forall x :: 0 <= x < |t.rank| ==> t.rank[x] <= bound
      modifies `order, `pos, `size
      ensures Numbered(t, old(N()), N(), node) && s == |order| - |old(order)|
      decreases bound - t.rank[node]
    {
      hide NumberOk, Numbered;
      ghost var n := N();
      VisitNode(t, out[node], n, node);
      NumberSizes(t, n);
      order := order + [node];
      pos := pos[node := |order| - 1];
      size := size[node := 1];
      for k := 0 to |out[node]|
        invariant Partly(t, out[node], n, N(), node, k)
      {
        ChildUnnumbered(t, out[node], n, N(), node, k);
        ghost var n1 := N();
        var below := Dfs(out[node][k], bound);
        VisitChild(t, out[node], n, n1, N(), node, k);
        size := size[node := size[node] + below];
      }
      VisitDone(t, out[node], n, N(), node);
      s := size[node];
    }
  }

  lemma NumberSizes(t: Tree, n: Numbers)
    requires NumberOk(t, n)
    ensures |n.pos| == |n.size| == |t.fa|
  { }

  // ----- the whole construction -----

  /** Fathers in the dominator tree and its numbering. */
  datatype DomInfo = DomInfo(fa: seq<int>, n: Numbers)

  /** The last number in the subtree of `x`. */
  function Last(d: DomInfo, x: nat): int
    requires x < |d.n.pos| && x < |d.n.size|
  {
    var above: int := d.n.pos[x] + d.n.size[x];
    above - 1
  }

  /** `DomTreeNode::dom` */
  predicate DomTest(d: DomInfo, x: nat, y: nat) {
    x < |d.n.pos| && y < |d.n.pos| && x < |d.n.size| &&
    d.n.pos[x] <= d.n.pos[y] && d.n.pos[y] <= Last(d, x)
  }

  /** `DomTreeNode::sdom` */
  predicate SdomTest(d: DomInfo, x: nat, y: nat) {
    x < |d.n.pos| && y < |d.n.pos| && x < |d.n.size| &&
    d.n.pos[x] < d.n.pos[y] && d.n.pos[y] <= Last(d, x)
  }

  ghost function RankOf(dfn: seq<nat>, x: nat): (r: nat)
    ensures x in dfn ==> r < |dfn| && dfn[r] == x
    ensures x !in dfn ==> r == |dfn|
  {
    if x in dfn then var i :| 0 <= i < |dfn| && dfn[i] == x; i else |dfn|
  }

  ghost function TreeOf(g: Cfg, dfn: seq<nat>, fa: seq<int>): Tree {
    Tree(fa, seq(|fa|, x requires 0 <= x < |fa| => RankOf(dfn, x)))
  }

  ghost predicate FathersOk(g: Cfg, dfn: seq<nat>, fa: seq<int>) {
    && Discovered(g, dfn) && |fa| == |g.out| && g.entry < |fa|
    && forall x :: 0 <= x < |fa| ==> LastCut(g, dfn, fa[x], x)
  }

  lemma FatherRank(g: Cfg, dfn: seq<nat>, fa: int, x: nat)
    requires Discovered(g, dfn) && LastCut(g, dfn, fa, x) && fa >= 0
    ensures fa in dfn && RankOf(dfn, fa) < RankOf(dfn, x)
  {
    var i :| 0 <= i < |dfn| && dfn[i] == fa && Cuts(g, dfn[i], x) && forall j :: i < j < |dfn| ==> !Cuts(g, dfn[j], x);
    if x in dfn {
      var r := RankOf(dfn, x);
      CutsIsDom(g, dfn[i], x);
      assert StrictDom(g, fa, dfn[r]);
      var j := IndexOf(dfn[..r], fa);
      assert dfn[j] == dfn[RankOf(dfn, fa)];
    }
  }

  lemma TreeOfOk(g: Cfg, dfn: seq<nat>, fa: seq<int>)
    requires FathersOk(g, dfn, fa)
    ensures TreeOk(TreeOf(g, dfn, fa))
  {
    forall x: nat | x < |fa| && fa[x] >= 0 ensures fa[x] < |fa| && RankOf(dfn, fa[x]) < RankOf(dfn, x) {
      FatherRank(g, dfn, fa[x], x);
    }
  }

  /** In the tree of immediate dominators, ancestors are dominators. */
  lemma {:induction false} AncIsDom(g: Cfg, dfn: seq<nat>, fa: seq<int>, x: nat, y: nat)
    requires FathersOk(g, dfn, fa) && TreeOk(TreeOf(g, dfn, fa)) && Reachable(g, y)
    ensures Anc(TreeOf(g, dfn, fa), x, y) <==> Dom(g, x, y)
    decreases RankOf(dfn, y)
  {
    var t := TreeOf(g, dfn, fa);
    assert y in dfn && y < |fa|;
    LastCutIsImmediate(g, dfn, fa[y], y);
    if y == g.entry {
      EntryPath(g);
      assert Dom(g, x, y) ==> x in [g.entry];
    } else {
      var d: nat := fa[y];
      DomReachable(g, d, y);
      FatherRank(g, dfn, d, y);
      AncIsDom(g, dfn, fa, x, d);
      if Dom(g, x, d) { DomTrans(g, x, d, y); }
    }
    forall p | PathTo(g, p, y) ensures y in p { assert p[|p| - 1] in p; }
  }

  /** Child lists from fathers. */
  method ConstructOuts(fa: seq<int>, ghost t: Tree) returns (out: seq<seq<nat>>)
    requires TreeOk(t) && t.fa == fa
    ensures ChildrenOk(t, out)
  {
    out := seq(|fa|, i => []);
    for x := 0 to |fa|
      invariant |out| == |fa|
      invariant forall a :: 0 <= a < |out| ==> Distinct(out[a]) && forall c: nat :: c in out[a] <==> c < x && fa[c] == a
    {
      if fa[x] >= 0 {
        var a := fa[x];
        assert x !in out[a];
        out := out[a := out[a] + [x]];
      }
    }
  }

  ghost predicate DomInfoOk(g: Cfg, d: DomInfo) {
    && |d.fa| == |d.n.pos| == |d.n.size| == |g.out|
    && (forall x: nat :: Reachable(g, x) ==> x < |d.fa|)
    && (forall x: nat :: Reachable(g, x) ==> if x == g.entry then d.fa[x] < 0 else d.fa[x] >= 0 && ImmediateDom(g, d.fa[x], x))
    && (forall x, y :: Reachable(g, x) && Reachable(g, y) ==> (DomTest(d, x, y) <==> Dom(g, x, y)))
    && (forall x, y :: Reachable(g, x) && Reachable(g, y) ==> (SdomTest(d, x, y) <==> StrictDom(g, x, y)))
  }

  lemma TestsRight(g: Cfg, dfn: seq<nat>, d: DomInfo, x: nat, y: nat)
    requires FathersOk(g, dfn, d.fa) && TreeOk(TreeOf(g, dfn, d.fa)) && Reachable(g, x) && Reachable(g, y)
    requires NumberOk(TreeOf(g, dfn, d.fa), d.n)
    requires forall z :: z in d.n.order <==> Anc(TreeOf(g, dfn, d.fa), g.entry, z)
    requires forall z :: Anc(TreeOf(g, dfn, d.fa), g.entry, z) ==> Interval(TreeOf(g, dfn, d.fa), d.n, z)
    ensures DomTest(d, x, y) <==> Dom(g, x, y)
    ensures SdomTest(d, x, y) <==> StrictDom(g, x, y)
  {
    var t := TreeOf(g, dfn, d.fa);
    forall z | z == x || z == y ensures Anc(t, g.entry, z) {
      forall p | PathTo(g, p, z) ensures g.entry in p { assert p[0] in p; }
      AncIsDom(g, dfn, d.fa, g.entry, z);
    }
    IntervalTest(t, d.n, x, y);
    AncIsDom(g, dfn, d.fa, x, y);
    var i := IndexOf(d.n.order, x);
    var j := IndexOf(d.n.order, y);
    assert d.n.pos[x] == i && d.n.pos[y] == j;
  }

  lemma InfoRight(g: Cfg, dfn: seq<nat>, d: DomInfo)
    requires ValidCfg(g) && FathersOk(g, dfn, d.fa) && TreeOk(TreeOf(g, dfn, d.fa))
    requires Numbered(TreeOf(g, dfn, d.fa), Numbers([], d.n.pos, d.n.size), d.n, g.entry)
    ensures DomInfoOk(g, d)
  {
    forall x: nat | Reachable(g, x)
      ensures x < |d.fa| && if x == g.entry then d.fa[x] < 0 else d.fa[x] >= 0 && ImmediateDom(g, d.fa[x], x)
    {
      assert x in dfn;
      LastCutIsImmediate(g, dfn, d.fa[x], x);
    }
    assert d.n.order[0..] == d.n.order;
    forall x, y | Reachable(g, x) && Reachable(g, y)
      ensures (DomTest(d, x, y) <==> Dom(g, x, y)) && (SdomTest(d, x, y) <==> StrictDom(g, x, y))
    {
      TestsRight(g, dfn, d, x, y);
    }
  }

  /** The dominator tree with its numbering: the interval tests decide dominance. */
  method ConstructDomTree(g: Cfg) returns (d: DomInfo)
    requires ValidCfg(g)
    ensures DomInfoOk(g, d)
  {
    var builder := new DomTreeBuilder(g);
    builder.ConstructFathers();
    var fa := builder.domFa;
    ghost var dfn := builder.dfn;
    TreeOfOk(g, dfn, fa);
    ghost var t := TreeOf(g, dfn, fa);
    var out := ConstructOuts(fa, t);
    var tree := new DomTree(t, out);
    assert forall x :: 0 <= x < |t.rank| ==> t.rank[x] <= |dfn|;
    var size := tree.Dfs(g.entry, |dfn|);
    d := DomInfo(fa, Numbers(tree.order, tree.pos, tree.size));
    InfoRight(g, dfn, d);
  }
}
