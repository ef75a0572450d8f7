/** Dominance frontiers and the placement of phi instructions (`construct_dom_frontiers`, src/ir/opt/dom.cpp, and
    `phi_insertion`, src/ir/opt/ssa_constrcution.cpp). */
module PhiPlacement {
  import opened Dominators
  import opened DominatorTree

  /** Climbing to the father leaves out exactly one dominator. */
  lemma FatherDoms(g: Cfg, d: DomInfo, x: nat, y: nat)
    requires DomInfoOk(g, d) && Reachable(g, x)
    ensures Dom(g, y, x) <==> y == x || (d.fa[x] >= 0 && Dom(g, y, d.fa[x]))
  {
    if x == g.entry {
      EntryPath(g);
      assert Dom(g, y, x) ==> y in [g.entry];
    } else if Dom(g, y, d.fa[x]) {
      DomTrans(g, y, d.fa[x], x);
    }
    forall p | PathTo(g, p, x) ensures x in p { assert p[|p| - 1] in p; }
  }

  lemma FatherSmaller(g: Cfg, d: DomInfo, x: nat)
    requires DomInfoOk(g, d) && Reachable(g, x) && d.fa[x] >= 0
    ensures Reachable(g, d.fa[x]) && d.n.pos[d.fa[x]] < d.n.pos[x]
  {
    DomReachable(g, d.fa[x], x);
    assert SdomTest(d, d.fa[x], x);
  }

  // ----- frontiers -----

  /** `x` dominates a predecessor of `j` but not strictly `j`. */
  ghost predicate InFrontier(g: Cfg, x: nat, j: nat) {
    exists i: nat :: Succ(g, i, j) && Dom(g, x, i) && !StrictDom(g, x, j)
  }

  /** The same for the edges of the first `i` blocks and the first `k` edges of block `i`. */
  ghost predicate InFrontierUpTo(g: Cfg, i: nat, k: nat, x: nat, j: nat) {
    exists a: nat, b: nat :: a < |g.out| && b < |g.out[a]| && (a < i || (a == i && b < k)) && g.out[a][b] == j &&
      Dom(g, x, a) && !StrictDom(g, x, j)
  }

  ghost predicate Climbed(g: Cfg, df: seq<seq<nat>>, df': seq<seq<nat>>, i: nat, j: nat) {
    && |df'| == |df|
    && forall y, z :: 0 <= y < |df| ==>
         (z in df'[y] <==> z in df[y] || (z == j && Dom(g, y, i) && !StrictDom(g, y, j)))
  }

  ghost predicate Climbing(g: Cfg, df: seq<seq<nat>>, df': seq<seq<nat>>, i: nat, j: nat, x: int) {
    && |df'| == |df|
    && (forall y, z :: 0 <= y < |df| ==>
         (z in df'[y] <==> z in df[y] || (z == j && Dom(g, y, i) && !(x >= 0 && Dom(g, y, x)))))
    && (forall y: nat :: Dom(g, y, i) && !(x >= 0 && Dom(g, y, x)) ==> !StrictDom(g, y, j))
    && (forall y: nat :: x >= 0 && Dom(g, y, x) ==> Dom(g, y, i))
  }

  lemma ClimbStep(g: Cfg, d: DomInfo, df: seq<seq<nat>>, df': seq<seq<nat>>, i: nat, j: nat, x: nat)
    requires DomInfoOk(g, d) && Reachable(g, x) && x < |df| && Climbing(g, df, df', i, j, x) && !StrictDom(g, x, j)
    ensures Climbing(g, df, df'[x := df'[x] + [j]], i, j, d.fa[x])
  {
    forall p | PathTo(g, p, x) ensures x in p { assert p[|p| - 1] in p; }
    forall y: nat ensures Dom(g, y, x) <==> y == x || (d.fa[x] >= 0 && Dom(g, y, d.fa[x])) { FatherDoms(g, d, x, y); }
    if d.fa[x] >= 0 && Dom(g, x, d.fa[x]) {
      var p :| PathTo(g, p, x);
      DomAntisym(g, x, d.fa[x], p);
    }
  }

  lemma ClimbDone(g: Cfg, df: seq<seq<nat>>, df': seq<seq<nat>>, i: nat, j: nat, x: int)
    requires Climbing(g, df, df', i, j, x) && Reachable(g, j)
    requires x >= 0 ==> StrictDom(g, x, j)
    ensures Climbed(g, df, df', i, j)
  {
    forall y: nat | x >= 0 && Dom(g, y, x) ensures StrictDom(g, y, j) { StrictAbove(g, y, x, j); }
  }

  /** From the source of an edge up the tree until the target is strictly dominated. */
  method Climb(g: Cfg, d: DomInfo, df0: seq<seq<nat>>, i: nat, j: nat) returns (df: seq<seq<nat>>)
    requires DomInfoOk(g, d) && Reachable(g, i) && Reachable(g, j) && |df0| == |g.out|
    ensures Climbed(g, df0, df, i, j)
  {
    df := df0;
    var x: int := i;
    while x >= 0 && !SdomTest(d, x, j)
      invariant x >= 0 ==> Reachable(g, x)
      invariant Climbing(g, df0, df, i, j, x)
      decreases if x >= 0 && x < |d.n.pos| then d.n.pos[x] + 1 else 0
    {
      ClimbStep(g, d, df0, df, i, j, x);
      df := df[x := df[x] + [j]];
      if d.fa[x] >= 0 { FatherSmaller(g, d, x); }
      x := d.fa[x];
    }
    ClimbDone(g, df0, df, i, j, x);
  }

  /** Every block's list holds exactly its dominance frontier. */
  ghost predicate FrontiersOk(g: Cfg, df: seq<seq<nat>>) {
    |df| == |g.out| && forall x: nat, j :: x < |df| ==> (j in df[x] <==> InFrontier(g, x, j))
  }

  ghost predicate FrontiersUpTo(g: Cfg, df: seq<seq<nat>>, i: nat, k: nat) {
    |df| == |g.out| && forall x: nat, j :: x < |df| ==> (j in df[x] <==> InFrontierUpTo(g, i, k, x, j))
  }

  lemma FrontiersStep(g: Cfg, df: seq<seq<nat>>, df': seq<seq<nat>>, i: nat, k: nat)
    requires i < |g.out| && k < |g.out[i]| && FrontiersUpTo(g, df, i, k) && Climbed(g, df, df', i, g.out[i][k])
    ensures FrontiersUpTo(g, df', i, k + 1)
  {
    forall x: nat, j | x < |df'| ensures j in df'[x] <==> InFrontierUpTo(g, i, k + 1, x, j) {
      assert j in df[x] <==> InFrontierUpTo(g, i, k, x, j);
    }
  }

  lemma FrontiersNext(g: Cfg, df: seq<seq<nat>>, i: nat)
    requires i < |g.out| && FrontiersUpTo(g, df, i, |g.out[i]|)
    ensures FrontiersUpTo(g, df, i + 1, 0)
  {
    forall x: nat, j: nat ensures InFrontierUpTo(g, i, |g.out[i]|, x, j) <==> InFrontierUpTo(g, i + 1, 0, x, j) { }
  }

  lemma FrontiersAll(g: Cfg, df: seq<seq<nat>>)
    requires FrontiersUpTo(g, df, |g.out|, 0)
    ensures FrontiersOk(g, df)
  {
    forall x: nat, j: nat ensures InFrontierUpTo(g, |g.out|, 0, x, j) <==> InFrontier(g, x, j) {
      if InFrontier(g, x, j) {
        var i: nat :| Succ(g, i, j) && Dom(g, x, i) && !StrictDom(g, x, j);
        var b := IndexOf(g.out[i], j);
        assert i < |g.out| && b < |g.out[i]| && g.out[i][b] == j;
      }
      if InFrontierUpTo(g, |g.out|, 0, x, j) {
        var a: nat, b: nat :| a < |g.out| && b < |g.out[a]| && (a < |g.out| || (a == |g.out| && b < 0)) &&
          g.out[a][b] == j && Dom(g, x, a) && !StrictDom(g, x, j);
        assert Succ(g, a, j);
      }
    }
  }

  method ConstructFrontiers(g: Cfg, d: DomInfo) returns (df: seq<seq<nat>>)
    requires ValidCfg(g) && DomInfoOk(g, d) && AllReachable(g)
    ensures FrontiersOk(g, df)
  {
    df := seq(|g.out|, x => []);
    for i := 0 to |g.out|
      invariant FrontiersUpTo(g, df, i, 0)
    {
      for k := 0 to |g.out[i]|
        invariant FrontiersUpTo(g, df, i, k)
      {
        ghost var df0 := df;
        df := Climb(g, d, df, i, g.out[i][k]);
        FrontiersStep(g, df0, df, i, k);
      }
      FrontiersNext(g, df, i);
    }
    FrontiersAll(g, df);
  }

  // ----- phi placement -----

  /** `s` contains the frontiers of all definitions and of its own members. */
  ghost predicate Closed(df: seq<seq<nat>>, defs: seq<nat>, s: set<nat>) {
    forall x, y :: 0 <= x < |df| && (x in defs || x in s) && y in df[x] ==> y in s
  }

  ghost predicate InRange(df: seq<seq<nat>>, defs: seq<nat>) {
    (forall x :: x in defs ==> x < |df|) && forall x, y :: 0 <= x < |df| && y in df[x] ==> y < |df|
  }

  /** What is still to be looked at covers every open frontier. */
  ghost predicate Pending(df: seq<seq<nat>>, defs: seq<nat>, w: seq<nat>, f: set<nat>) {
    forall x, y :: 0 <= x < |df| && (x in defs || x in f) && x !in w && y in df[x] ==> y in f
  }

  ghost predicate Justified(df: seq<seq<nat>>, defs: seq<nat>, f: set<nat>) {
    forall s :: Closed(df, defs, s) ==> f <= s
  }

  function Targets(df: seq<seq<nat>>): set<nat> {
    set x, y | 0 <= x < |df| && y in df[x] :: y
  }

  /** A phi instruction is put at the front of the block `y` unless it has one already. */
  method PhiInsertion(df: seq<seq<nat>>, defs: seq<nat>) returns (f: set<nat>, phis: seq<nat>)
    requires InRange(df, defs)
    ensures Closed(df, defs, f) && forall s :: Closed(df, defs, s) ==> f <= s
    ensures Distinct(phis) && forall x :: x in phis <==> x in f
  {
    var w := defs;
    f, phis := {}, [];
    while w != []
      invariant forall x :: x in w ==> x in defs || x in f
      invariant f <= Targets(df) && Pending(df, defs, w, f) && Justified(df, defs, f)
      invariant Distinct(phis) && forall x :: x in phis <==> x in f
      decreases Targets(df) - f, |w|
    {
      var node := w[0];
      assert node in w && w == [node] + w[1..];
      ghost var w0, f0 := w, f;
      w := w[1..];
      var frontier := df[node];
      for k := 0 to |frontier|
        invariant f0 <= f <= Targets(df) && Justified(df, defs, f)
        invariant forall x :: x in w ==> x in defs || x in f
        invariant forall x :: x in w0 && x != node ==> x in w
        invariant forall j :: 0 <= j < k ==> frontier[j] in f
        invariant forall x :: x in f && x !in f0 && x !in defs ==> x in w
        invariant f == f0 ==> w == w0[1..]
        invariant Distinct(phis) && forall x :: x in phis <==> x in f
      {
        var y := frontier[k];
        assert y in frontier;
        if y !in f {
          f := f + {y};
          phis := phis + [y];
          if y !in defs { w := w + [y]; }
        }
      }
    }
  }

  // ----- what the placement is for -----

  /** A path in the graph, not necessarily from the entry. */
  ghost predicate Walk(g: Cfg, p: seq<nat>) {
    && p != [] && (forall i :: 0 <= i < |p| ==> p[i] < |g.out|)
    && forall i :: 0 <= i < |p| - 1 ==> Succ(g, p[i], p[i + 1])
  }

  lemma JoinWalk(g: Cfg, q: seq<nat>, p: seq<nat>)
    requires Walk(g, p) && PathTo(g, q, p[0])
    ensures PathTo(g, q + p[1..], p[|p| - 1])
  {
    var r := q + p[1..];
    forall i | 0 <= i < |r| - 1 ensures Succ(g, r[i], r[i + 1]) {
      if i >= |q| - 1 { assert r[i] == p[i - |q| + 1] && r[i + 1] == p[i - |q| + 2]; }
    }
  }

  lemma WalkSuffix(g: Cfg, p: seq<nat>, k: nat)
    requires Walk(g, p) && k < |p|
    ensures Walk(g, p[k..])
  {
    var rest := p[k..];
    forall j | 0 <= j < |rest| - 1 ensures Succ(g, rest[j], rest[j + 1]) {
      assert rest[j] == p[k + j] && rest[j + 1] == p[k + j + 1];
    }
  }

  /** Along an edge out of what `c` dominates one stays below `c` or enters its frontier. */
  lemma LeaveDominated(g: Cfg, c: nat, x: nat, y: nat)
    requires Succ(g, x, y) && Dom(g, c, x)
    ensures StrictDom(g, c, y) || InFrontier(g, c, y)
  { }

  /** On every walk from a definition some node dominates the end; it is the definition itself only if that
      strictly dominates everything after it. */
  lemma {:induction false} DominatorOnWalk(g: Cfg, df: seq<seq<nat>>, defs: seq<nat>, s: set<nat>, p: seq<nat>, k: nat)
    returns (i: nat)
    requires FrontiersOk(g, df) && Closed(df, defs, s) && Walk(g, p)
    requires k < |p| && (p[0] in defs || p[0] in s)
    requires forall j :: 1 <= j <= k ==> StrictDom(g, p[0], p[j])
    ensures i < |p| && Dom(g, p[i], p[|p| - 1])
    ensures i == 0 ==> forall j :: 1 <= j < |p| ==> StrictDom(g, p[0], p[j])
    ensures i > 0 ==> p[i] in s
    decreases |p|, |p| - k
  {
    forall q | PathTo(g, q, p[k]) ensures p[k] in q { assert q[|q| - 1] in q; }
    if k == |p| - 1 {
      i := 0;
    } else {
      LeaveDominated(g, p[0], p[k], p[k + 1]);
      if StrictDom(g, p[0], p[k + 1]) {
        i := DominatorOnWalk(g, df, defs, s, p, k + 1);
      } else {
        assert p[k + 1] in df[p[0]];
        var rest := p[k + 1..];
        WalkSuffix(g, p, k + 1);
        var m := DominatorOnWalk(g, df, defs, s, rest, 0);
        i := k + 1 + m;
      }
    }
  }

  lemma OnlyThroughOther(g: Cfg, p: seq<nat>, i: nat, b: nat, z: nat)
    requires Walk(g, p) && p[|p| - 1] == z && i < |p| && b !in p && Dom(g, b, z) && Reachable(g, p[i])
    ensures Dom(g, b, p[i])
  {
    forall q | PathTo(g, q, p[i]) ensures b in q {
      var rest := p[i..];
      WalkSuffix(g, p, i);
      JoinWalk(g, q, rest);
      assert b in q + rest[1..];
      assert rest[1..] == p[i + 1..];
    }
  }

  /** Where two walks from definitions meet for the first time there is a phi instruction. */
  lemma JoinHasPhi(g: Cfg, df: seq<seq<nat>>, defs: seq<nat>, s: set<nat>, p: seq<nat>, q: seq<nat>, z: nat)
    requires AllReachable(g) && FrontiersOk(g, df) && Closed(df, defs, s)
    requires Walk(g, p) && Walk(g, q) && |p| > 1 && |q| > 1 && p[0] in defs && q[0] in defs
    requires p[|p| - 1] == q[|q| - 1] == z
    requires forall i, j :: 0 <= i < |p| && 0 <= j < |q| && p[i] == q[j] ==> i == |p| - 1 && j == |q| - 1
    ensures z in s
  {
    var i := DominatorOnWalk(g, df, defs, s, p, 0);
    var j := DominatorOnWalk(g, df, defs, s, q, 0);
    var a, b := p[i], q[j];
    if i < |p| - 1 && j < |q| - 1 {
      assert a in p && b in q;
      OnlyThroughOther(g, q, j, a, z);
      OnlyThroughOther(g, p, i, b, z);
      var path :| PathTo(g, path, a);
      DomAntisym(g, a, b, path);
    }
  }
}
