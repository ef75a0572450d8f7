/** Live registers of a function (`Func::calc_live`, src/arm/program.cpp): a worklist over pairs of a block
    and a register, checked against the definition of liveness by paths. */
module Liveness {
  /** A machine or pseudo register of the integer or the floating-point class. */
  datatype Reg = Reg(float: bool, id: nat)

  /** An instruction by the registers it defines and uses; `op` stands for what it computes. */
  datatype Inst = Inst(op: int, defs: seq<Reg>, uses: seq<Reg>)

  // ----- register convention (src/arm/archinfo.hpp) -----

  const INT_COUNT: nat := 16
  const FLOAT_COUNT: nat := 32
  const SP: nat := 13
  const PC: nat := 15

  function Count(float: bool): nat {
    if float then FLOAT_COUNT else INT_COUNT
  }

  predicate Allocable(float: bool, id: nat) {
    id < Count(float) && (float || (id != SP && id != PC))
  }

  predicate IsPseudo(r: Reg) { r.id >= Count(r.float) }

  predicate Tracked(r: Reg) { IsPseudo(r) || Allocable(r.float, r.id) }

  // ----- one block -----

  /** Some instruction uses `r` before any defines it. */
  predicate Exposed(code: seq<Inst>, r: Reg) {
    code != [] && (r in code[0].uses || (r !in code[0].defs && Exposed(code[1..], r)))
  }

  /** The first instruction that mentions `r` only defines it. */
  predicate Killed(code: seq<Inst>, r: Reg) {
    code != [] && r !in code[0].uses && (r in code[0].defs || Killed(code[1..], r))
  }

  lemma {:induction false} ExposedNotKilled(code: seq<Inst>, r: Reg)
    ensures !(Exposed(code, r) && Killed(code, r))
  {
    if code != [] { ExposedNotKilled(code[1..], r); }
  }

  method LocalSets(code: seq<Inst>) returns (use: set<Reg>, def: set<Reg>)
    ensures forall r :: r in use <==> Tracked(r) && Exposed(code, r)
    ensures forall r :: r in def <==> Tracked(r) && Killed(code, r)
  {
    use, def := {}, {};
    var i := |code|;
    while i > 0
      invariant 0 <= i <= |code|
      invariant forall r :: r in use <==> Tracked(r) && Exposed(code[i..], r)
      invariant forall r :: r in def <==> Tracked(r) && Killed(code[i..], r)
    {
      i := i - 1;
      assert code[i..][1..] == code[i + 1..];
      ghost var use0, def0 := use, def;
      var defs, uses := code[i].defs, code[i].uses;
      for k := 0 to |defs|
        invariant forall r :: r in use <==> r in use0 && r !in defs[..k]
        invariant forall r :: r in def <==> r in def0 || (Tracked(r) && r in defs[..k])
      {
        if Tracked(defs[k]) {
          use, def := use - {defs[k]}, def + {defs[k]};
        }
      }
      assert defs[..|defs|] == defs;
      ghost var use1, def1 := use, def;
      for k := 0 to |uses|
        invariant forall r :: r in def <==> r in def1 && r !in uses[..k]
        invariant forall r :: r in use <==> r in use1 || (Tracked(r) && r in uses[..k])
      {
        if Tracked(uses[k]) {
          def, use := def - {uses[k]}, use + {uses[k]};
        }
      }
      assert uses[..|uses|] == uses;
    }
    assert code[0..] == code;
  }

  // ----- the control-flow graph -----

  /** The code of every block and its incoming edges. */
  datatype Graph = Graph(code: seq<seq<Inst>>, preds: seq<seq<nat>>)

  predicate ValidGraph(g: Graph) {
    && |g.preds| == |g.code|
    && forall b, p :: 0 <= b < |g.preds| && p in g.preds[b] ==> p < |g.code|
  }

  predicate Edge(g: Graph, p: nat, b: nat)
    requires ValidGraph(g)
  {
    p < |g.code| && b < |g.code| && p in g.preds[b]
  }

  /** Along `path`, `r` is used in the last block before any definition on the way. */
  ghost predicate UsePath(g: Graph, path: seq<nat>, r: Reg)
    requires ValidGraph(g)
  {
    && path != []
    && (forall i :: 0 <= i < |path| ==> path[i] < |g.code|)
    && (forall i :: 0 <= i < |path| - 1 ==> Edge(g, path[i], path[i + 1]) && !Killed(g.code[path[i]], r))
    && Exposed(g.code[path[|path| - 1]], r)
  }

  /** Some path from the start of `b` reaches a use of `r` before any definition of it. */
  ghost predicate LiveIn(g: Graph, b: nat, r: Reg)
    requires ValidGraph(g)
  {
    Tracked(r) && exists path :: UsePath(g, path, r) && path[0] == b
  }

  ghost predicate LiveOut(g: Graph, b: nat, r: Reg)
    requires ValidGraph(g)
  {
    exists s: nat :: Edge(g, b, s) && LiveIn(g, s, r)
  }

  /** Exactly the registers that are live out of each block. */
  ghost predicate ExactOut(g: Graph, liveOut: seq<set<Reg>>)
    requires ValidGraph(g)
  {
    |liveOut| == |g.code| && forall b, r :: 0 <= b < |g.code| ==> (r in liveOut[b] <==> LiveOut(g, b, r))
  }

  lemma LiveInUse(g: Graph, b: nat, r: Reg)
    requires ValidGraph(g) && b < |g.code| && Tracked(r) && Exposed(g.code[b], r)
    ensures LiveIn(g, b, r)
  {
    assert UsePath(g, [b], r);
  }

  lemma LiveInThrough(g: Graph, b: nat, s: nat, r: Reg)
    requires ValidGraph(g) && Edge(g, b, s) && LiveIn(g, s, r) && !Killed(g.code[b], r)
    ensures LiveIn(g, b, r)
  {
    var path :| UsePath(g, path, r) && path[0] == s;
    var longer := [b] + path;
    forall i | 0 <= i < |longer| - 1
      ensures Edge(g, longer[i], longer[i + 1]) && !Killed(g.code[longer[i]], r)
    {
      if i > 0 { assert longer[i] == path[i - 1] && longer[i + 1] == path[i]; }
    }
    assert longer[|longer| - 1] == path[|path| - 1];
    assert UsePath(g, longer, r);
  }

  // ----- the data-flow equations -----

  /** `live_in = use + (live_out - def)` and `live_out = union of the successors' live_in`, as inclusions. */
  ghost predicate Closed(g: Graph, liveIn: seq<set<Reg>>)
    requires ValidGraph(g)
  {
    && |liveIn| == |g.code|
    && (forall b, r :: 0 <= b < |g.code| && Tracked(r) && Exposed(g.code[b], r) ==> r in liveIn[b])
    && (forall b: nat, s: nat, r :: Edge(g, b, s) && r in liveIn[s] && !Killed(g.code[b], r) ==> r in liveIn[b])
  }

  /** Liveness by paths is contained in every solution of the equations. */
  lemma {:induction false} PathInClosed(g: Graph, liveIn: seq<set<Reg>>, path: seq<nat>, r: Reg)
    requires ValidGraph(g) && Closed(g, liveIn) && Tracked(r) && UsePath(g, path, r)
    ensures r in liveIn[path[0]]
    decreases |path|
  {
    if |path| > 1 {
      var rest := path[1..];
      forall i | 0 <= i < |rest| - 1 ensures Edge(g, rest[i], rest[i + 1]) && !Killed(g.code[rest[i]], r) {
        assert rest[i] == path[i + 1] && rest[i + 1] == path[i + 2];
      }
      PathInClosed(g, liveIn, rest, r);
      assert Edge(g, path[0], path[1]);
    }
  }

  lemma LiveInLeast(g: Graph, liveIn: seq<set<Reg>>, b: nat, r: Reg)
    requires ValidGraph(g) && Closed(g, liveIn) && LiveIn(g, b, r)
    ensures b < |liveIn| && r in liveIn[b]
  {
    var path :| UsePath(g, path, r) && path[0] == b;
    PathInClosed(g, liveIn, path, r);
  }

  lemma LiveOutLeast(g: Graph, liveIn: seq<set<Reg>>, b: nat, r: Reg)
    requires ValidGraph(g) && Closed(g, liveIn) && LiveOut(g, b, r)
    ensures exists s: nat :: Edge(g, b, s) && r in liveIn[s]
  {
    var s: nat :| Edge(g, b, s) && LiveIn(g, s, r);
    LiveInLeast(g, liveIn, s, r);
  }

  // ----- the worklist -----

  function AllUses(g: Graph): set<Reg> {
    set b, k, r | 0 <= b < |g.code| && 0 <= k < |g.code[b]| && r in g.code[b][k].uses :: r
  }

  lemma {:induction false} ExposedAt(code: seq<Inst>, r: Reg)
    requires Exposed(code, r)
    ensures exists k :: 0 <= k < |code| && r in code[k].uses
  {
    if r !in code[0].uses {
      ExposedAt(code[1..], r);
      var k :| 0 <= k < |code[1..]| && r in code[1..][k].uses;
      assert r in code[k + 1].uses;
    }
  }

  lemma ExposedIsUsed(g: Graph, b: nat, r: Reg)
    requires b < |g.code| && Exposed(g.code[b], r)
    ensures r in AllUses(g)
  {
    ExposedAt(g.code[b], r);
  }

  /** Queue entries for the registers of a set. */
  method Entries(b: nat, regs: set<Reg>) returns (q: seq<Entry>)
    ensures forall x :: x in q <==> x.block == b && x.reg in regs
  {
    q := [];
    var rest := regs;
    while rest != {}
      invariant rest <= regs
      invariant forall x :: x in q <==> x.block == b && x.reg in regs - rest
      decreases rest
    {
      var r :| r in rest;
      rest := rest - {r};
      q := q + [Entry(b, r)];
    }
  }

  /** A queue entry: `reg` is live into `block`, which its predecessors have yet to learn. */
  datatype Entry = Entry(block: nat, reg: Reg)

  /** The four sets of every block. */
  datatype Sets = Sets(use: seq<set<Reg>>, def: seq<set<Reg>>, liveIn: seq<set<Reg>>, liveOut: seq<set<Reg>>)

  /** The local sets are right and every set has an entry for each block. */
  ghost predicate Scanned(g: Graph, s: Sets) {
    && ValidGraph(g)
    && |s.use| == |s.def| == |s.liveIn| == |s.liveOut| == |g.code|
    && (forall b, r :: 0 <= b < |g.code| ==> (r in s.use[b] <==> Tracked(r) && Exposed(g.code[b], r)))
    && (forall b, r :: 0 <= b < |g.code| ==> (r in s.def[b] <==> Tracked(r) && Killed(g.code[b], r)))
  }

  /** Control only goes along edges; leaving the function is going to a block that does not exist. */
  ghost predicate FollowsEdges(g: Graph, next: (nat, int) -> nat)
    requires ValidGraph(g)
  {
    forall b: nat, w :: b < |g.code| && next(b, w) < |g.code| ==> Edge(g, b, next(b, w))
  }

  /** Nothing has been added that is not live. */
  ghost predicate Sound(g: Graph, s: Sets)
    requires Scanned(g, s)
  {
    && (forall b, r :: 0 <= b < |g.code| && r in s.liveIn[b] ==> LiveIn(g, b, r) && r in AllUses(g))
    && (forall b, r :: 0 <= b < |g.code| && r in s.liveOut[b] ==> LiveOut(g, b, r))
  }

  /** Inside each block the equations hold. */
  ghost predicate LocallyClosed(g: Graph, s: Sets)
    requires Scanned(g, s)
  {
    && (forall b, r :: 0 <= b < |g.code| && r in s.use[b] ==> r in s.liveIn[b])
    && (forall b, r :: 0 <= b < |g.code| && r in s.liveOut[b] && r !in s.def[b] ==> r in s.liveIn[b])
  }

  ghost predicate Inv(g: Graph, s: Sets) {
    Scanned(g, s) && Sound(g, s) && LocallyClosed(g, s)
  }

  ghost predicate Queued(g: Graph, s: Sets, update: seq<Entry>)
    requires Scanned(g, s)
  {
    forall x :: x in update ==> x.block < |g.code| && x.reg in s.liveIn[x.block]
  }

  /** What is live into a block has been passed on to its predecessors, unless it is queued (or is `extra`,
      which is being passed on). */
  ghost predicate PassedOn(g: Graph, s: Sets, update: seq<Entry>, extra: set<Entry>)
    requires Scanned(g, s)
  {
    forall b: nat, r, p {:trigger Entry(b, r), p in g.preds[b]} ::
      b < |g.code| && r in s.liveIn[b] && Entry(b, r) !in update && Entry(b, r) !in extra && p in g.preds[b] ==>
        r in s.liveOut[p]
  }

  /** What could yet be added, for termination. */
  ghost function Missing(g: Graph, s: Sets): set<Entry>
    requires Scanned(g, s)
  {
    set b: nat, r | b < |g.code| && r in AllUses(g) && r !in s.liveIn[b] :: Entry(b, r)
  }

  lemma AddOut(g: Graph, s: Sets, b: nat, r: Reg, p: nat, update: seq<Entry>)
    requires Inv(g, s) && Edge(g, p, b) && r in s.liveIn[b]
    requires Queued(g, s, update) && PassedOn(g, s, update, {Entry(b, r)})
    requires r in s.def[p] || r in s.liveIn[p]
    ensures
      var s' := s.(liveOut := s.liveOut[p := s.liveOut[p] + {r}]);
      Inv(g, s') && Queued(g, s', update) && PassedOn(g, s', update, {Entry(b, r)}) && Missing(g, s') == Missing(g, s)
  {
    assert LiveOut(g, p, r);
  }

  lemma AddBoth(g: Graph, s: Sets, b: nat, r: Reg, p: nat, update: seq<Entry>)
    requires Inv(g, s) && Edge(g, p, b) && r in s.liveIn[b]
    requires Queued(g, s, update) && PassedOn(g, s, update, {Entry(b, r)})
    requires r !in s.def[p] && r !in s.liveIn[p]
    ensures
      var s' := s.(liveOut := s.liveOut[p := s.liveOut[p] + {r}], liveIn := s.liveIn[p := s.liveIn[p] + {r}]);
      var update' := update + [Entry(p, r)];
      && Inv(g, s') && Queued(g, s', update') && PassedOn(g, s', update', {Entry(b, r)})
      && Missing(g, s') < Missing(g, s)
  {
    var s' := s.(liveOut := s.liveOut[p := s.liveOut[p] + {r}], liveIn := s.liveIn[p := s.liveIn[p] + {r}]);
    BothSound(g, s, b, r, p);
    hide Sound, LocallyClosed, LiveIn, LiveOut;
    assert Entry(p, r) in Missing(g, s) && Entry(p, r) !in Missing(g, s');
  }

  lemma BothSound(g: Graph, s: Sets, b: nat, r: Reg, p: nat)
    requires Inv(g, s) && Edge(g, p, b) && r in s.liveIn[b] && r !in s.def[p]
    ensures
      var s' := s.(liveOut := s.liveOut[p := s.liveOut[p] + {r}], liveIn := s.liveIn[p := s.liveIn[p] + {r}]);
      Inv(g, s') && r in AllUses(g)
  {
    var s' := s.(liveOut := s.liveOut[p := s.liveOut[p] + {r}], liveIn := s.liveIn[p := s.liveIn[p] + {r}]);
    assert LiveOut(g, p, r);
    LiveInThrough(g, p, b, r);
    assert Scanned(g, s');
  }

  /** The first `k` predecessors of `b` have `r` live out. */
  ghost predicate Informed(g: Graph, s: Sets, b: nat, r: Reg, k: nat) {
    && b < |g.preds| && k <= |g.preds[b]| && |s.liveOut| == |g.code|
    && forall j :: 0 <= j < k ==> g.preds[b][j] < |g.code| && r in s.liveOut[g.preds[b][j]]
  }

  lemma PredEdge(g: Graph, b: nat, k: nat)
    requires ValidGraph(g) && b < |g.code| && k < |g.preds[b]|
    ensures Edge(g, g.preds[b][k], b)
  {
    assert g.preds[b][k] in g.preds[b];
  }

  lemma InformedStep(g: Graph, s: Sets, s': Sets, b: nat, r: Reg, k: nat)
    requires Informed(g, s, b, r, k) && k < |g.preds[b]| && |s'.liveOut| == |g.code|
    requires g.preds[b][k] < |g.code| && r in s'.liveOut[g.preds[b][k]]
    requires forall c :: 0 <= c < |g.code| ==> s.liveOut[c] <= s'.liveOut[c]
    ensures Informed(g, s', b, r, k + 1)
  { }

  lemma AllInformed(g: Graph, s: Sets, update: seq<Entry>, b: nat, r: Reg)
    requires Scanned(g, s) && b < |g.code| && Informed(g, s, b, r, |g.preds[b]|)
    requires PassedOn(g, s, update, {Entry(b, r)})
    ensures PassedOn(g, s, update, {})
  { }

  lemma Finished(g: Graph, s: Sets)
    requires Inv(g, s) && PassedOn(g, s, [], {})
    ensures forall b, r :: 0 <= b < |g.code| ==> (r in s.liveIn[b] <==> LiveIn(g, b, r))
    ensures forall b, r :: 0 <= b < |g.code| ==> (r in s.liveOut[b] <==> LiveOut(g, b, r))
  {
    forall b: nat, t: nat, r | Edge(g, b, t) && r in s.liveIn[t] ensures r in s.liveOut[b] {
      assert Entry(t, r) !in [];
    }
    assert Closed(g, s.liveIn);
    forall b: nat, r | b < |g.code| && LiveIn(g, b, r) ensures r in s.liveIn[b] {
      LiveInLeast(g, s.liveIn, b, r);
    }
    forall b: nat, r | b < |g.code| && LiveOut(g, b, r) ensures r in s.liveOut[b] {
      LiveOutLeast(g, s.liveIn, b, r);
    }
  }

  class Func {
    const g: Graph
    var liveUse: seq<set<Reg>>
    var def: seq<set<Reg>>
    var liveIn: seq<set<Reg>>
    var liveOut: seq<set<Reg>>

    constructor (graph: Graph)
      requires ValidGraph(graph)
      ensures g == graph
    {
      g := graph;
      liveUse, def, liveIn, liveOut := [], [], [], [];
    }

    function S(): Sets
      reads this
    {
      Sets(liveUse, def, liveIn, liveOut)
    }

    /** First pass: local sets, and one queue entry per upward-exposed register. */
    method Scan() returns (update: seq<Entry>)
      requires ValidGraph(g)
      modifies this
      ensures Inv(g, S()) && Queued(g, S(), update) && PassedOn(g, S(), update, {})
    {
      liveUse, def, liveIn, liveOut, update := [], [], [], [], [];
      for b := 0 to |g.code|
        invariant |liveUse| == |def| == |liveIn| == |liveOut| == b
        invariant liveIn == liveUse
        invariant forall c :: 0 <= c < b ==> liveOut[c] == {}
        invariant forall c, r :: 0 <= c < b ==> (r in liveUse[c] <==> Tracked(r) && Exposed(g.code[c], r))
        invariant forall c, r :: 0 <= c < b ==> (r in def[c] <==> Tracked(r) && Killed(g.code[c], r))
        invariant forall x :: x in update ==> x.block < b && x.reg in liveUse[x.block]
        invariant forall c: nat, r :: c < b && r in liveUse[c] ==> Entry(c, r) in update
      {
        var use, d := LocalSets(g.code[b]);
        var entries := Entries(b, use);
        update := update + entries;
        liveUse, def, liveIn, liveOut := liveUse + [use], def + [d], liveIn + [use], liveOut + [{}];
      }
      forall c, r | 0 <= c < |g.code| && r in liveIn[c] ensures LiveIn(g, c, r) && r in AllUses(g) {
        LiveInUse(g, c, r);
        ExposedIsUsed(g, c, r);
      }
    }

    /** `r` is live out of `prev`, because it is live into the successor `b`. */
    method Reach(ghost b: nat, r: Reg, prev: nat, update0: seq<Entry>) returns (update: seq<Entry>)
      requires Inv(g, S()) && Edge(g, prev, b) && r in liveIn[b]
      requires Queued(g, S(), update0) && PassedOn(g, S(), update0, {Entry(b, r)})
      modifies this
      ensures Inv(g, S()) && Queued(g, S(), update) && PassedOn(g, S(), update, {Entry(b, r)})
      ensures r in liveOut[prev] && forall c :: 0 <= c < |g.code| ==> old(S()).liveOut[c] <= S().liveOut[c]
      ensures r in liveIn[b]
      ensures Missing(g, S()) < old(Missing(g, S())) || (Missing(g, S()) == old(Missing(g, S())) && update == update0)
    {
      update := update0;
      if r !in liveOut[prev] {
        if r !in def[prev] && r !in liveIn[prev] {
          AddBoth(g, S(), b, r, prev, update);
          liveOut := liveOut[prev := liveOut[prev] + {r}];
          liveIn := liveIn[prev := liveIn[prev] + {r}];
          update := update + [Entry(prev, r)];
        } else {
          AddOut(g, S(), b, r, prev, update);
          liveOut := liveOut[prev := liveOut[prev] + {r}];
        }
      }
    }

    /** One queue entry: pass `r`, live into `b`, on to the predecessors of `b`. */
    method Spread(b: nat, r: Reg, update0: seq<Entry>) returns (update: seq<Entry>)
      requires Inv(g, S()) && b < |g.code| && r in liveIn[b]
      requires Queued(g, S(), update0) && PassedOn(g, S(), update0, {Entry(b, r)})
      modifies this
      ensures Inv(g, S()) && Queued(g, S(), update) && PassedOn(g, S(), update, {})
      ensures Missing(g, S()) < old(Missing(g, S())) || (Missing(g, S()) == old(Missing(g, S())) && update == update0)
    {
      update := update0;
      var preds := g.preds[b];
      for k := 0 to |preds|
        invariant Inv(g, S()) && Queued(g, S(), update) && PassedOn(g, S(), update, {Entry(b, r)})
        invariant r in liveIn[b]
        invariant Informed(g, S(), b, r, k)
        invariant Missing(g, S()) < old(Missing(g, S())) || (Missing(g, S()) == old(Missing(g, S())) && update == update0)
      {
        PredEdge(g, b, k);
        ghost var s0 := S();
        update := Reach(b, r, preds[k], update);
        InformedStep(g, s0, S(), b, r, k);
      }
      AllInformed(g, S(), update, b, r);
    }

    /** Liveness is computed exactly: `live_in` and `live_out` are the path-based notions. */
    method CalcLive()
      requires ValidGraph(g)
      modifies this
      ensures |liveIn| == |liveOut| == |g.code|
      ensures forall b, r :: 0 <= b < |g.code| ==> (r in liveIn[b] <==> LiveIn(g, b, r))
      ensures forall b, r :: 0 <= b < |g.code| ==> (r in liveOut[b] <==> LiveOut(g, b, r))
    {
      var update := Scan();
      while update != []
        invariant Inv(g, S()) && Queued(g, S(), update) && PassedOn(g, S(), update, {})
        decreases Missing(g, S()), |update|
      {
        var cur, rest := update[0], update[1..];
        assert update == [cur] + rest;
        update := Spread(cur.block, cur.reg, rest);
      }
      Finished(g, S());
    }
  }
}
