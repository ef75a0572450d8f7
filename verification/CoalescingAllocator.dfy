/** Iterated register coalescing (`IRCColoringAllocator`, src/arm/irc_coloring_alloc.hpp): simplify, coalesce,
    freeze and spill until no pseudo register is left, then colour the select stack from its top. */
module CoalescingAllocator {
  import opened Liveness
  import opened InterferenceGraph
  import opened ColoringState
  import opened Obstruction
  import opened FiniteSets
  import opened SpillCosts

  /** A move edge with its weight. */
  datatype Move = Move(u: nat, v: nat, w: int)

  // ----- aliases -----

  /** Following `alias` from `x` climbs in `rank` and ends at `rep[x]`. */
  ghost predicate Climbs(alias: map<nat, nat>, rep: map<nat, nat>, rank: map<nat, nat>, x: nat) {
    && x in alias && x in rep && x in rank
    && alias[x] in rep && alias[x] in rank && rep[x] in rank
    && IsRoot(rep, rep[x]) && rep[alias[x]] == rep[x]
    && (alias[x] == x <==> rep[x] == x)
    && (alias[x] != x ==> rank[x] < rank[alias[x]])
    && rank[x] <= rank[rep[x]]
  }

  ghost predicate Forest(alias: map<nat, nat>, rep: map<nat, nat>, rank: map<nat, nat>) {
    && alias.Keys == rep.Keys == rank.Keys
    && (forall x {:trigger Climbs(alias, rep, rank, x)} :: x in rep ==> Climbs(alias, rep, rank, x))
  }

  function Height(rep: map<nat, nat>, rank: map<nat, nat>, x: nat): int {
    if x in rep && rep[x] in rank && x in rank then rank[rep[x]] as int - rank[x] as int else 0
  }

  function Raised(rank: map<nat, nat>, u: nat, v: nat): map<nat, nat>
    requires u in rank && v in rank
  {
    rank[u := if rank[u] > rank[v] then rank[u] else rank[v] + 1]
  }

  lemma Link(alias: map<nat, nat>, rep: map<nat, nat>, rank: map<nat, nat>, u: nat, v: nat)
    requires Forest(alias, rep, rank) && IsRoot(rep, u) && IsRoot(rep, v) && u != v
    ensures u in rank && v in rank && Forest(alias[v := u], Renamed(rep, u, v), Raised(rank, u, v))
  {
    hide Climbs, Renamed, Raised;
    RootClimbs(alias, rep, rank, u);
    RootClimbs(alias, rep, rank, v);
    LinkKeys(alias, rep, rank, u, v);
    var alias', rep', rank' := alias[v := u], Renamed(rep, u, v), Raised(rank, u, v);
    forall x | x in rep' ensures Climbs(alias', rep', rank', x) {
      assert Climbs(alias, rep, rank, x);
      NextClimbs(alias, rep, rank, x);
      LinkAt(alias, rep, rank, u, v, x);
    }
  }

  lemma RootClimbs(alias: map<nat, nat>, rep: map<nat, nat>, rank: map<nat, nat>, u: nat)
    requires Forest(alias, rep, rank) && IsRoot(rep, u)
    ensures Climbs(alias, rep, rank, u) && u in rank && u in alias
  {
    assert Climbs(alias, rep, rank, u);
  }

  lemma NextClimbs(alias: map<nat, nat>, rep: map<nat, nat>, rank: map<nat, nat>, x: nat)
    requires Forest(alias, rep, rank) && x in rep
    ensures x in alias && Climbs(alias, rep, rank, alias[x])
  {
    assert Climbs(alias, rep, rank, x);
  }

  lemma LinkKeys(alias: map<nat, nat>, rep: map<nat, nat>, rank: map<nat, nat>, u: nat, v: nat)
    requires alias.Keys == rep.Keys == rank.Keys && u in rank && v in rank
    ensures alias[v := u].Keys == Renamed(rep, u, v).Keys == Raised(rank, u, v).Keys == rep.Keys
  { }

  lemma LinkAt(alias: map<nat, nat>, rep: map<nat, nat>, rank: map<nat, nat>, u: nat, v: nat, x: nat)
    requires IsRoot(rep, u) && IsRoot(rep, v) && u != v
    requires Climbs(alias, rep, rank, u) && Climbs(alias, rep, rank, v)
    requires Climbs(alias, rep, rank, x) && Climbs(alias, rep, rank, alias[x])
    ensures
      var alias', rep', rank' := alias[v := u], Renamed(rep, u, v), Raised(rank, u, v);
      x in rep' && Climbs(alias', rep', rank', x)
  { }

  // ----- what is ready to be simplified -----

  /** `can_simplify` */
  predicate Ready(float: bool, adj: Adj, moves: Moves, x: nat) {
    Partners(moves, x) == map[] && |Neighbours(adj, x)| < K(float)
  }

  /** The worklist holds exactly the nodes of `nodes` that are ready, each of them once. */
  ghost predicate Exact(float: bool, worklist: seq<nat>, adj: Adj, moves: Moves, nodes: set<nat>) {
    && (forall i, j :: 0 <= i < j < |worklist| ==> worklist[i] != worklist[j])
    && (forall x :: x in worklist <==> x in nodes && Ready(float, adj, moves, x))
  }

  ghost predicate PartlyRemoved(adj: Adj, adj': Adj, x: nat, done: seq<nat>) {
    forall y :: Neighbours(adj', y) == if y in done then Neighbours(adj, y) - {x} else Neighbours(adj, y)
  }

  lemma ExactStep(float: bool, worklist: seq<nat>, adj: Adj, adj': Adj, moves: Moves, nodes: set<nat>, x: nat, y: nat)
    requires Exact(float, worklist, adj, moves, nodes)
    requires forall z :: z != y ==> Neighbours(adj', z) == Neighbours(adj, z)
    requires x in Neighbours(adj, y) && Neighbours(adj', y) == Neighbours(adj, y) - {x}
    ensures
      var joins := |Neighbours(adj', y)| == K(float) - 1 && y in nodes && Partners(moves, y) == map[];
      Exact(float, if joins then worklist + [y] else worklist, adj', moves, nodes)
  {
    assert |Neighbours(adj', y)| == |Neighbours(adj, y)| - 1;
    assert forall z :: z != y ==> (Ready(float, adj', moves, z) <==> Ready(float, adj, moves, z));
    assert y in worklist <==> y in nodes && Ready(float, adj, moves, y);
  }

  lemma ExactPop(float: bool, worklist: seq<nat>, adj: Adj, moves: Moves, nodes: set<nat>)
    requires Exact(float, worklist, adj, moves, nodes) && worklist != []
    ensures Exact(float, worklist[1..], adj, moves, nodes - {worklist[0]})
  {
    assert worklist == [worklist[0]] + worklist[1..];
  }

  // ----- move edges -----

  ghost predicate Dropped(moves: Moves, moves': Moves, x: nat) {
    forall y :: Partners(moves', y) == if y == x then map[] else Partners(moves, y) - {x}
  }

  lemma DroppedOk(p: Problem, moves: Moves, moves': Moves, remain: set<nat>, x: nat)
    requires MovesOk(moves, Active(p, remain)) && Dropped(moves, moves', x) && !p.Pre(x)
    ensures MovesOk(moves', Active(p, remain - {x})) && MovesOk(moves', Active(p, remain))
  {
    forall a, b | HasMove(moves', a, b)
      ensures a != b && a in Active(p, remain - {x}) && b in Active(p, remain - {x})
      ensures HasMove(moves', b, a) && MoveWeight(moves', a, b) > 0
    {
      assert HasMove(moves, a, b) && a != x && b != x;
      assert HasMove(moves, b, a);
    }
  }

  /** A node without moves can leave. */
  lemma MovesLeave(p: Problem, moves: Moves, remain: set<nat>, x: nat)
    requires MovesOk(moves, Active(p, remain)) && Partners(moves, x) == map[] && !p.Pre(x)
    ensures MovesOk(moves, Active(p, remain - {x}))
  {
    forall a, b | HasMove(moves, a, b) ensures a in Active(p, remain - {x}) && b in Active(p, remain - {x}) {
      assert HasMove(moves, b, a);
    }
  }

  /** Which move edges there are; shrinks until something is simplified, coalesced or spilled. */
  datatype Pair = Pair(x: nat, y: nat)

  function Pairs(moves: Moves): set<Pair> {
    set x, y | x in moves && y in moves[x] :: Pair(x, y)
  }

  lemma PairsAre(moves: Moves)
    ensures forall x, y :: Pair(x, y) in Pairs(moves) <==> HasMove(moves, x, y)
  { }

  lemma DroppedPairs(moves: Moves, moves': Moves, x: nat)
    requires Dropped(moves, moves', x) && Partners(moves, x) != map[]
    ensures Pairs(moves') < Pairs(moves)
  {
    PairsAre(moves);
    PairsAre(moves');
    forall q | q in Pairs(moves') ensures q in Pairs(moves) {
      assert HasMove(moves', q.x, q.y);
      assert HasMove(moves, q.x, q.y);
    }
    var y :| y in Partners(moves, x);
    assert HasMove(moves, x, y) && !HasMove(moves', x, y);
    assert Pair(x, y) in Pairs(moves) && Pair(x, y) !in Pairs(moves');
  }

  /** Moves between adjacent or between two precoloured nodes are given up. */
  function PrunedRow(p: Problem, adj: Adj, row: map<nat, int>, x: nat): map<nat, int> {
    map y | y in row && y !in Neighbours(adj, x) && !(p.Pre(x) && p.Pre(y)) :: row[y]
  }

  ghost predicate Pruned(p: Problem, adj: Adj, moves: Moves, moves': Moves) {
    forall x :: Partners(moves', x) == PrunedRow(p, adj, Partners(moves, x), x)
  }

  lemma PrunedOk(p: Problem, adj: Adj, moves: Moves, moves': Moves, nodes: set<nat>)
    requires Symmetric(adj) && MovesOk(moves, nodes) && Pruned(p, adj, moves, moves')
    ensures MovesOk(moves', nodes) && Pairs(moves') <= Pairs(moves)
  {
    forall a, b | HasMove(moves', a, b)
      ensures HasMove(moves, a, b) && HasMove(moves', b, a) && MoveWeight(moves', a, b) > 0
    {
      assert b in PrunedRow(p, adj, Partners(moves, a), a);
      assert HasMove(moves, a, b) && HasMove(moves, b, a) && a !in Neighbours(adj, b);
      assert a in PrunedRow(p, adj, Partners(moves, b), b);
    }
    PairsAre(moves);
    PairsAre(moves');
    forall q | q in Pairs(moves') ensures q in Pairs(moves) {
      assert HasMove(moves', q.x, q.y);
      assert HasMove(moves, q.x, q.y);
    }
  }

  // ----- the conservative test -----

  /** Briggs' test: coalescing `u` and `v` gives a node with fewer than `K` neighbours of degree `K` or more. */
  predicate Briggs(float: bool, adj: Adj, u: nat, v: nat) {
    |Significant(float, adj, u, v)| < K(float)
  }

  predicate Coalescible(p: Problem, adj: Adj, u: nat, v: nat) {
    u != v && !(p.Pre(u) && p.Pre(v)) && v !in Neighbours(adj, u) && Briggs(p.float, adj, u, v)
  }

  lemma DegreeAfter(float: bool, adj: Adj, u: nat, v: nat, n: nat)
    requires Symmetric(adj) && Irreflexive(adj) && u != v && v !in Neighbours(adj, u)
    requires n in Neighbours(adj, u) + Neighbours(adj, v)
    ensures |NbrsAfter(adj, u, v, n)| == |Neighbours(adj, n)| -
      (if n in Neighbours(adj, u) && n in Neighbours(adj, v) then 1 else 0)
  {
    assert n in Neighbours(adj, u) <==> u in Neighbours(adj, n);
    assert n in Neighbours(adj, v) <==> v in Neighbours(adj, n);
    assert u in Neighbours(adj, v) <==> v in Neighbours(adj, u);
    assert u !in Neighbours(adj, u) && v !in Neighbours(adj, v);
    var s := Neighbours(adj, n);
    if v in s {
      assert |s - {v}| == |s| - 1;
      if u in s { assert s - {v} + {u} == s - {v}; }
    }
  }

  function AtLeast(adj: Adj, nodes: set<nat>, bound: nat): set<nat> {
    set n | n in nodes && |Neighbours(adj, n)| >= bound
  }

  method CountDegree(adj: Adj, nodes: set<nat>, bound: nat) returns (sum: nat)
    ensures sum == |AtLeast(adj, nodes, bound)|
  {
    sum := 0;
    ghost var found: set<nat> := {};
    var list := Listed(nodes);
    for k := 0 to |list|
      invariant sum == |found|
      invariant forall n :: n in found <==> n in list[..k] && |Neighbours(adj, n)| >= bound
    {
      if |Neighbours(adj, list[k])| >= bound {
        sum := sum + 1;
        found := found + {list[k]};
      }
    }
    assert list[..|list|] == list;
    assert found == AtLeast(adj, nodes, bound);
  }

  function Unique(adj: Adj, u: nat, v: nat): set<nat> {
    (Neighbours(adj, u) - Neighbours(adj, v)) + (Neighbours(adj, v) - Neighbours(adj, u))
  }

  function Shared(adj: Adj, u: nat, v: nat): set<nat> {
    Neighbours(adj, u) * Neighbours(adj, v)
  }

  lemma SignificantAt(float: bool, adj: Adj, u: nat, v: nat, n: nat)
    requires Symmetric(adj) && Irreflexive(adj) && u != v && v !in Neighbours(adj, u)
    ensures n in Significant(float, adj, u, v) <==>
      n in AtLeast(adj, Unique(adj, u, v), K(float)) || n in AtLeast(adj, Shared(adj, u, v), K(float) + 1)
  {
    if n in Neighbours(adj, u) + Neighbours(adj, v) { DegreeAfter(float, adj, u, v, n); }
  }

  /** Counts the neighbours of the coalesced node that would have degree `K` or more. */
  method Conservative(float: bool, adj: Adj, u: nat, v: nat) returns (ok: bool)
    requires Symmetric(adj) && Irreflexive(adj) && u != v && v !in Neighbours(adj, u)
    ensures ok <==> Briggs(float, adj, u, v)
  {
    var sum1 := CountDegree(adj, Unique(adj, u, v), K(float));
    var sum2 := CountDegree(adj, Shared(adj, u, v), K(float) + 1);
    ghost var a, b := AtLeast(adj, Unique(adj, u, v), K(float)), AtLeast(adj, Shared(adj, u, v), K(float) + 1);
    forall n ensures n in Significant(float, adj, u, v) <==> n in a + b { SignificantAt(float, adj, u, v, n); }
    assert Significant(float, adj, u, v) == a + b;
    assert a * b == {};
    ok := sum1 + sum2 < K(float);
  }

  // ----- coalescing -----

  /** The neighbours of `y` after the first edges of `v` have been moved to `u`. */
  ghost predicate PartlyMerged(adj: Adj, adj': Adj, u: nat, v: nat, done: seq<nat>) {
    forall y :: Neighbours(adj', y) ==
      if y == u then Neighbours(adj, u) + Elems(done)
      else if y in done then Neighbours(adj, y) - {v} + {u}
      else Neighbours(adj, y)
  }

  lemma PartlyMergedAll(adj: Adj, adj': Adj, u: nat, v: nat, done: seq<nat>)
    requires Symmetric(adj) && Irreflexive(adj) && u != v && v !in Neighbours(adj, u)
    requires PartlyMerged(adj, adj', u, v, done) && Elems(done) == Neighbours(adj, v)
    ensures Merged(adj, adj'[v := {}], u, v)
  {
    forall n ensures Neighbours(adj'[v := {}], n) == NbrsAfter(adj, u, v, n) {
      assert n in Neighbours(adj, v) <==> v in Neighbours(adj, n);
      assert n in Elems(done) <==> n in done;
      assert v !in Neighbours(adj, v);
      assert u in Neighbours(adj, v) <==> v in Neighbours(adj, u);
    }
  }

  /** Move weights after the first moves of `v` have been handed to `u`. */
  function HandedWeight(moves: Moves, u: nat, v: nat, done: set<nat>, x: nat, y: nat): int {
    if x == v then MoveWeight(moves, v, y)
    else if y == v then (if x in done then 0 else MoveWeight(moves, x, v))
    else if x == u && y in done && y != u then MoveWeight(moves, u, y) + MoveWeight(moves, v, y)
    else if y == u && x in done && x != u then MoveWeight(moves, x, u) + MoveWeight(moves, v, x)
    else MoveWeight(moves, x, y)
  }

  ghost predicate Handed(moves: Moves, moves': Moves, u: nat, v: nat, done: set<nat>) {
    forall x, y ::
      && MoveWeight(moves', x, y) == HandedWeight(moves, u, v, done, x, y)
      && (HasMove(moves', x, y) <==> HandedWeight(moves, u, v, done, x, y) != 0)
  }

  function SumWeight(moves: Moves, u: nat, v: nat, x: nat, y: nat): int {
    if x == v || y == v || x == y then 0
    else if x == u then MoveWeight(moves, u, y) + MoveWeight(moves, v, y)
    else if y == u then MoveWeight(moves, x, u) + MoveWeight(moves, v, x)
    else MoveWeight(moves, x, y)
  }

  /** All moves of `v` belong to `u`, except the one between them. */
  ghost predicate HandedOver(moves: Moves, moves': Moves, u: nat, v: nat) {
    forall x, y ::
      && MoveWeight(moves', x, y) == SumWeight(moves, u, v, x, y)
      && (HasMove(moves', x, y) <==> SumWeight(moves, u, v, x, y) != 0)
  }

  ghost predicate FrozenOk(p: Problem, frozen: seq<Move>) {
    forall m :: m in frozen ==> m.u in p.occur && m.v in p.occur
  }

  class Allocator {
    const p: Problem
    var adj: Adj
    var worklist: seq<nat>
    var stack: seq<Pushed>
    var alias: map<nat, nat>
    var moves: Moves
    var frozen: seq<Move>
    var remain: set<nat>
    var spilled: seq<nat>
    ghost var rep: map<nat, nat>
    ghost var rank: map<nat, nat>

    ghost function C(): Core
      reads this
    {
      Core(adj, stack, remain, spilled, rep)
    }

    ghost predicate Ok()
      reads this
    {
      AllocInv(p, C()) && Forest(alias, rep, rank) && MovesOk(moves, Active(p, remain)) && FrozenOk(p, frozen)
    }

    /** The state that `build_graph` leaves behind. */
    constructor (problem: Problem, edges: Moves)
      requires problem.Valid() && MovesOk(edges, problem.occur)
      ensures p == problem && Ok() && spilled == [] && worklist == [] && C() == Start(p)
    {
      p := problem;
      var c := Start(problem);
      adj, worklist, stack, remain, spilled := c.adj, [], c.stack, c.remain, c.spilled;
      alias, rep, rank := c.rep, c.rep, map x | x in problem.occur :: 0;
      moves, frozen := edges, [];
      new;
      StartInv(p);
      assert Active(p, remain) == p.occur;
    }

    /** `get_alias`, with path compression. */
    method GetAlias(x: nat) returns (r: nat)
      requires Forest(alias, rep, rank) && x in rep
      modifies `alias
      ensures Forest(alias, rep, rank) && r == rep[x]
      decreases Height(rep, rank, x)
    {
      assert Climbs(alias, rep, rank, x);
      if alias[x] == x { return x; }
      assert Climbs(alias, rep, rank, alias[x]);
      r := GetAlias(alias[x]);
      assert Climbs(alias, rep, rank, x);
      Compress(alias, rep, rank, x);
      alias := alias[x := r];
    }

    /** Take a node out of the graph; neighbours that become ready join the worklist. */
    method Remove(id: nat)
      requires WellFormed(adj, Active(p, remain)) && id in remain && forall x :: x in remain ==> !p.Pre(x)
      requires Exact(p.float, worklist, adj, moves, remain - {id})
      modifies `adj, `worklist, `remain
      ensures Removed(old(adj), adj, id) && remain == old(remain) - {id}
      ensures Exact(p.float, worklist, adj, moves, remain)
    {
      hide Exact, WellFormed, Removed;
      var list := Listed(Neighbours(adj, id));
      ghost var rest := remain - {id};
      for k := 0 to |list|
        invariant remain == old(remain) && PartlyRemoved(old(adj), adj, id, list[..k])
        invariant Exact(p.float, worklist, adj, moves, rest)
      {
        var y := list[k];
        RemoveStep(p, old(adj), adj, remain, id, list, k);
        ghost var adj0 := adj;
        adj := adj[y := Neighbours(adj, y) - {id}];
        ExactStep(p.float, worklist, adj0, adj, moves, rest, id, y);
        if |Neighbours(adj, y)| == K(p.float) - 1 && !p.Pre(y) && Partners(moves, y) == map[] {
          worklist := worklist + [y];
        }
      }
      assert list[..|list|] == list;
      RemoveDone(p, old(adj), adj, remain, id, list);
      ExactClear(p.float, worklist, adj, moves, rest, id);
      adj := adj[id := {}];
      remain := remain - {id};
    }

    /** Remove ready nodes until there are none. */
    method Simplify()
      requires Ok() && Exact(p.float, worklist, adj, moves, remain)
      modifies `adj, `worklist, `remain, `stack
      ensures Ok() && remain <= old(remain) && (Easy(p, old(C())) ==> Easy(p, C()))
      ensures worklist == [] && forall x :: x in remain ==> !Ready(p.float, adj, moves, x)
    {
      hide Easy;
      while worklist != []
        invariant Ok() && remain <= old(remain) && Exact(p.float, worklist, adj, moves, remain)
        invariant Easy(p, old(C())) ==> Easy(p, C())
        decreases remain
      {
        SimplifyOne();
      }
    }

    method SimplifyOne()
      requires Ok() && Exact(p.float, worklist, adj, moves, remain) && worklist != []
      modifies `adj, `worklist, `remain, `stack
      ensures Ok() && remain < old(remain) && Exact(p.float, worklist, adj, moves, remain)
      ensures Easy(p, old(C())) ==> Easy(p, C())
    {
      hide Easy;
      var cur := worklist[0];
      assert cur in worklist;
      ExactPop(p.float, worklist, adj, moves, remain);
      worklist := worklist[1..];
      var neighbours := Neighbours(adj, cur);
      Remove(cur);
      stack := stack + [Pushed(cur, neighbours)];
      assert C() == Push(old(C()), adj, cur);
      PushKeeps(p, old(C()), adj, cur);
      PushEasy(p, old(C()), adj, cur);
      MovesLeave(p, moves, old(remain), cur);
    }

    /** Give up hopeless move edges and find the nodes that are ready. */
    method PrepareForSimplify()
      requires Ok() && worklist == []
      modifies `moves, `worklist
      ensures Ok() && Exact(p.float, worklist, adj, moves, remain)
      ensures Pruned(p, adj, old(moves), moves)
    {
      hide AllocInv, Forest;
      AllocFacts(p, C());
      PruneMoves();
      PrunedOk(p, adj, old(moves), moves, Active(p, remain));
      FindReady();
    }

    method PruneMoves()
      requires MovesOk(moves, Active(p, remain)) && Active(p, remain) <= p.occur
      modifies `moves
      ensures Pruned(p, adj, old(moves), moves)
    {
      var list := Listed(Active(p, remain));
      for k := 0 to |list|
        invariant PartlyPruned(p, adj, old(moves), moves, list[..k])
      {
        var x := list[k];
        PruneStep(p, adj, old(moves), moves, Active(p, remain), list, k);
        var row := Partners(moves, x) - Neighbours(adj, x);
        if p.Pre(x) { row := row - (p.PreOccur() - {x}); }
        moves := moves[x := row];
      }
      assert list[..|list|] == list;
      PruneDone(p, adj, old(moves), moves, Active(p, remain), list);
    }

    method FindReady()
      requires worklist == []
      modifies `worklist
      ensures Exact(p.float, worklist, adj, moves, remain)
    {
      var list := Listed(remain);
      for k := 0 to |list|
        invariant forall i, j :: 0 <= i < j < |worklist| ==> worklist[i] != worklist[j]
        invariant forall x :: x in worklist <==> x in list[..k] && Ready(p.float, adj, moves, x)
      {
        if Ready(p.float, adj, moves, list[k]) { worklist := worklist + [list[k]]; }
      }
      assert list[..|list|] == list;
    }

    /** Move the edges of `v` to `u`. */
    method MergeEdges(u: nat, v: nat)
      requires Symmetric(adj) && Irreflexive(adj) && u != v && v !in Neighbours(adj, u)
      modifies `adj
      ensures Merged(old(adj), adj, u, v)
    {
      var list := Listed(Neighbours(adj, v));
      for k := 0 to |list|
        invariant PartlyMerged(old(adj), adj, u, v, list[..k])
      {
        var y := list[k];
        MergeEdgeStep(old(adj), adj, u, v, list, k);
        adj := adj[y := Neighbours(adj, y) - {v} + {u}];
        adj := adj[u := Neighbours(adj, u) + {y}];
      }
      assert list[..|list|] == list;
      PartlyMergedAll(old(adj), adj, u, v, list);
      adj := adj[v := {}];
    }

    /** Hand the moves of `v` to `u`. */
    method MergeMoves(u: nat, v: nat, ghost nodes: set<nat>)
      requires MovesOk(moves, nodes) && u != v && u in nodes
      modifies `moves
      ensures HandedOver(old(moves), moves, u, v)
    {
      var row := Partners(moves, v);
      var list := Listed(row.Keys);
      HandedNone(moves, u, v, nodes);
      for k := 0 to |list|
        invariant Handed(old(moves), moves, u, v, Elems(list[..k]))
      {
        var y := list[k];
        assert y in row && y !in list[..k];
        HandStep(old(moves), moves, u, v, Elems(list[..k]), y, nodes);
        moves := HandMove(moves, u, v, y, row[y]);
        assert Elems(list[..k + 1]) == Elems(list[..k]) + {y};
      }
      assert Elems(list[..|list|]) == row.Keys;
      HandedAll(old(moves), moves, u, v, nodes);
      moves := moves[v := map[]];
    }

    /** Coalesce two nodes; a precoloured one stays. */
    method Combine(u: nat, v: nat)
      requires Ok() && u in Active(p, remain) && v in Active(p, remain)
      requires u != v && !(p.Pre(u) && p.Pre(v)) && v !in Neighbours(adj, u)
      modifies `adj, `remain, `alias, `moves, `rep, `rank
      ensures Ok() && remain < old(remain)
      ensures Combined(old(C()), C(), old(moves), moves, if p.Pre(v) then v else u, if p.Pre(v) then u else v)
    {
      if p.Pre(v) {
        CombineFacts(p, C(), v, u);
        CombineOk(v, u);
      } else {
        CombineFacts(p, C(), u, v);
        CombineOk(u, v);
      }
    }

    method CombineOk(u: nat, v: nat)
      requires Ok() && CanMerge(p, C(), u, v) && IsRoot(rep, u) && IsRoot(rep, v) && !p.Pre(v)
      modifies `adj, `remain, `alias, `moves, `rep, `rank
      ensures Ok() && remain < old(remain)
      ensures Combined(old(C()), C(), old(moves), moves, u, v)
    {
      hide AllocInv, Forest, MovesOk;
      AllocFacts(p, C());
      CombineInto(u, v);
      CombineKeeps(p, old(C()), C(), old(moves), moves, u, v);
    }

    method CombineInto(u: nat, v: nat)
      requires WellFormed(adj, Active(p, remain)) && MovesOk(moves, Active(p, remain)) && Forest(alias, rep, rank)
      requires CanMerge(p, C(), u, v) && IsRoot(rep, u) && IsRoot(rep, v)
      modifies `adj, `remain, `alias, `moves, `rep, `rank
      ensures Forest(alias, rep, rank) && Combined(old(C()), C(), old(moves), moves, u, v)
    {
      hide HandedOver, Merged, MovesOk, Forest, RepOk;
      MergeEdges(u, v);
      MergeMoves(u, v, Active(p, remain));
      Link(alias, rep, rank, u, v);
      remain := remain - {v};
      alias := alias[v := u];
      rank := Raised(rank, u, v);
      rep := Renamed(rep, u, v);
    }

    /** Every move edge once, from the larger to the smaller node. */
    method CollectMoves() returns (list: seq<Move>)
      requires MovesOk(moves, Active(p, remain))
      ensures forall m :: m in list <==> Listable(moves, m)
    {
      list := [];
      var nodes := Listed(Active(p, remain));
      for k := 0 to |nodes|
        invariant forall m :: m in list <==> Listable(moves, m) && m.u in nodes[..k]
      {
        var u := nodes[k];
        ghost var list0 := list;
        var row := Partners(moves, u);
        var partners := Listed(row.Keys);
        for j := 0 to |partners|
          invariant forall m :: m in list <==> m in list0 || (Listable(moves, m) && m.u == u && m.v in partners[..j])
        {
          var v := partners[j];
          assert v in partners;
          if v < u { list := list + [Move(u, v, row[v])]; }
        }
        assert partners[..|partners|] == partners;
      }
      assert nodes[..|nodes|] == nodes;
      forall m | Listable(moves, m) ensures m.u in nodes { assert HasMove(moves, m.u, m.v); }
    }

    /** Try the move edges, heaviest first. */
    method Coalesce() returns (degree: int)
      requires Ok()
      modifies `adj, `remain, `alias, `moves, `rep, `rank
      ensures Ok() && degree >= 0
      ensures degree > 0 ==> remain < old(remain)
      ensures degree == 0 ==> C() == old(C()) && moves == old(moves)
      ensures degree == 0 ==> forall x, y :: HasMove(moves, x, y) && y < x ==> !Coalescible(p, adj, x, y)
      ensures Easy(p, old(C())) ==> Easy(p, C())
    {
      hide AllocInv, Forest, MovesOk, Coalescible, Listable, Easy;
      var collected := CollectMoves();
      var list := Sorted(collected);
      CollectedLive(p, C(), moves, list);
      degree := 0;
      for k := 0 to |list|
        invariant Ok() && degree >= 0 && Live(p, C(), list)
        invariant degree > 0 ==> remain < old(remain)
        invariant Easy(p, old(C())) ==> Easy(p, C())
        invariant degree == 0 ==> C() == old(C()) && moves == old(moves)
        invariant degree == 0 ==> forall j :: 0 <= j < k ==> !Coalescible(p, adj, list[j].u, list[j].v)
      {
        assert LiveMove(p, C(), list[k]);
        var combined := TryMove(list, k);
        if combined { degree := degree + list[k].w; }
      }
      if degree == 0 { NoneCoalescible(p, adj, moves, list); }
    }

    method TryMove(list: seq<Move>, k: nat) returns (combined: bool)
      requires Ok() && k < |list| && Live(p, C(), list) && LiveMove(p, C(), list[k])
      modifies `adj, `remain, `alias, `moves, `rep, `rank
      ensures Ok() && Live(p, C(), list)
      ensures combined <==> Coalescible(p, old(adj), old(rep)[list[k].u], old(rep)[list[k].v])
      ensures if combined then remain < old(remain) else C() == old(C()) && moves == old(moves)
      ensures Easy(p, old(C())) ==> Easy(p, C())
    {
      hide AllocInv, MovesOk, Easy;
      combined := false;
      AllocFacts(p, C());
      var u := GetAlias(list[k].u);
      var v := GetAlias(list[k].v);
      if u != v && !(p.Pre(u) && p.Pre(v)) && v !in Neighbours(adj, u) {
        combined := Conservative(p.float, adj, u, v);
        if combined {
          ghost var c, moves0 := C(), moves;
          Combine(u, v);
          LiveKept(p, c, C(), list, if p.Pre(v) then v else u, if p.Pre(v) then u else v);
          if Easy(p, c) { CombineEasy(p, c, C(), moves0, moves, u, v); }
        }
      }
    }

    /** Remove every move edge of `x`. */
    method DropMoves(x: nat, ghost nodes: set<nat>)
      requires MovesOk(moves, nodes)
      modifies `moves
      ensures Dropped(old(moves), moves, x)
    {
      var list := Listed(Partners(moves, x).Keys);
      for k := 0 to |list|
        invariant PartlyDropped(old(moves), moves, x, list[..k])
      {
        DropStep(old(moves), moves, x, nodes, list, k);
        moves := moves[list[k] := Partners(moves, list[k]) - {x}];
      }
      assert list[..|list|] == list;
      DropDone(old(moves), moves, x, nodes, list);
      moves := moves[x := map[]];
    }

    /** The node of highest degree below `K` that has a move, or -1. */
    method PickFreeze() returns (selected: int)
      ensures selected >= 0 ==> selected in remain && Freezable(p.float, adj, moves, selected)
      ensures selected >= 0 ==> forall x :: x in remain && Freezable(p.float, adj, moves, x) ==>
        |Neighbours(adj, x)| <= |Neighbours(adj, selected)|
      ensures selected < 0 ==> forall x :: x in remain ==> !Freezable(p.float, adj, moves, x)
    {
      var list := Listed(remain);
      selected := -1;
      for k := 0 to |list|
        invariant selected >= 0 ==> selected in remain && Freezable(p.float, adj, moves, selected)
        invariant selected >= 0 ==> forall x :: x in list[..k] && Freezable(p.float, adj, moves, x) ==>
          |Neighbours(adj, x)| <= |Neighbours(adj, selected)|
        invariant selected < 0 ==> forall x :: x in list[..k] ==> !Freezable(p.float, adj, moves, x)
      {
        var i := list[k];
        assert i in list;
        if Partners(moves, i) != map[] && |Neighbours(adj, i)| < K(p.float) {
          if selected < 0 {
            selected := i;
          } else if |Neighbours(adj, i)| > |Neighbours(adj, selected)| {
            selected := i;
            if |Neighbours(adj, i)| == K(p.float) - 1 { break; }
          }
        }
      }
    }

    /** Give up the moves of one node of low degree. */
    method Freeze() returns (ok: bool)
      requires Ok()
      modifies `moves, `frozen
      ensures Ok()
      ensures if ok then Pairs(moves) < Pairs(old(moves)) else moves == old(moves)
      ensures !ok ==> forall x :: x in remain ==> !Freezable(p.float, adj, moves, x)
    {
      hide AllocInv, Forest, Pairs;
      var selected := PickFreeze();
      if selected < 0 { return false; }
      AllocFacts(p, C());
      var row := Partners(moves, selected);
      var list := Listed(row.Keys);
      for k := 0 to |list|
        invariant moves == old(moves) && FrozenOk(p, frozen)
      {
        assert list[k] in list;
        assert HasMove(moves, selected, list[k]);
        frozen := frozen + [Move(selected, list[k], row[list[k]])];
      }
      DropMoves(selected, Active(p, remain));
      DroppedOk(p, old(moves), moves, remain, selected);
      DroppedPairs(old(moves), moves, selected);
      ok := true;
    }

    /** The candidate to spill: the first one, or one that costs less than the best so far. */
    method PickCheapest(pool: set<nat>, costs: nat -> Cost, constant: bool) returns (selected: nat)
      requires pool != {} && forall y :: y in pool ==> |Neighbours(adj, y)| > 0
      ensures selected in pool && Cheapest(adj, costs, constant, pool, selected)
    {
      var list := Listed(pool);
      assert |list| == |pool| && list[0] in list;
      selected := list[0];
      assert list[..1] == [selected];
      for k := 1 to |list|
        invariant selected in list[..k]
        invariant Close(costs, pool) ==> forall y :: y in list[..k] ==> NotCheaper(adj, costs, constant, y, selected)
      {
        var i := list[k];
        assert i in list && selected in list && list[..k + 1] == list[..k] + [i];
        BetterIff(adj, costs, constant, pool, i, selected);
        if LessThanOptimal(costs(i).depth, PerNeighbour(costs(i), constant, |Neighbours(adj, i)|),
                           costs(selected).depth, PerNeighbour(costs(selected), constant, |Neighbours(adj, selected)|)) {
          selected := i;
        }
      }
      assert list[..|list|] == list;
    }

    /** Give up one register that is not itself the product of spilling; constants come first, and of these or of the
        others the one with the least cost. Nothing else can be done: every node that remains has `K` neighbours or
        more. */
    method SelectSpill(spilling: set<nat>, constants: set<nat>, costs: nat -> Cost) returns (x: nat)
      requires Ok() && remain - spilling != {}
      requires forall y :: y in remain ==> |Neighbours(adj, y)| >= K(p.float)
      modifies `adj, `remain, `moves, `spilled
      ensures Ok() && x in old(remain) && x !in spilling
      ensures
        var pool := old(remain) - spilling;
        if pool * constants != {} then x in constants && Cheapest(old(adj), costs, true, pool * constants, x)
        else Cheapest(old(adj), costs, false, pool, x)
      ensures remain == old(remain) - {x} && spilled == old(spilled) + [x]
    {
      hide AllocInv, Forest, MovesOk, Cheapest;
      var pool := (remain - spilling) * constants;
      if pool != {} {
        x := PickCheapest(pool, costs, true);
      } else {
        x := PickCheapest(remain - spilling, costs, false);
      }
      GiveUp(x);
    }

    method GiveUp(x: nat)
      requires Ok() && x in remain
      modifies `adj, `remain, `moves, `spilled
      ensures Ok() && remain == old(remain) - {x} && spilled == old(spilled) + [x]
    {
      hide AllocInv, Forest, MovesOk, Removed, Dropped;
      AllocFacts(p, C());
      ClearEdges(x);
      DropMoves(x, Active(p, remain));
      DroppedOk(p, old(moves), moves, remain, x);
      remain := remain - {x};
      spilled := spilled + [x];
      SpillKeeps(p, old(C()), adj, x);
    }

    method ClearEdges(x: nat)
      requires WellFormed(adj, Active(p, remain)) && forall y :: y in remain ==> !p.Pre(y)
      modifies `adj
      ensures Removed(old(adj), adj, x)
    {
      var list := Listed(Neighbours(adj, x));
      for k := 0 to |list|
        invariant PartlyRemoved(old(adj), adj, x, list[..k])
      {
        RemoveStep(p, old(adj), adj, remain, x, list, k);
        adj := adj[list[k] := Neighbours(adj, list[k]) - {x}];
      }
      assert list[..|list|] == list;
      RemoveDone(p, old(adj), adj, remain, x, list);
      adj := adj[x := {}];
    }

    /** Frozen moves between what is still different, by weight. */
    method FrozenWeights() returns (w: Moves)
      requires Forest(alias, rep, rank) && FrozenOk(p, frozen) && rep.Keys == p.occur
      modifies `alias
      ensures Forest(alias, rep, rank) && forall x, y :: HasMove(w, x, y) ==> y in rep
    {
      w := map[];
      for k := 0 to |frozen|
        invariant Forest(alias, rep, rank) && forall x, y :: HasMove(w, x, y) ==> y in rep
      {
        var m := frozen[k];
        assert m in frozen;
        var u := GetAlias(m.u);
        var v := GetAlias(m.v);
        assert Climbs(alias, rep, rank, m.u) && Climbs(alias, rep, rank, m.v);
        if u != v {
          WithMoveHas(w, u, v, m.w);
          w := WithMove(w, u, v, m.w);
        }
      }
    }

    /** Registers that need no saving are preferred, and colours of frozen move partners. */
    method Score(cur: nat, w: Moves, used: set<nat>, colors: map<nat, nat>) returns (score: seq<int>)
      requires Forest(alias, rep, rank) && forall x, y :: HasMove(w, x, y) ==> y in rep
      requires forall x :: x in colors ==> Allocable(p.float, colors[x])
      modifies `alias
      ensures Forest(alias, rep, rank) && |score| == Count(p.float)
    {
      score := seq(Count(p.float), j requires 0 <= j < Count(p.float) => BaseScore(p.float, used, j));
      var row := Partners(w, cur);
      var list := Listed(row.Keys);
      for k := 0 to |list|
        invariant Forest(alias, rep, rank) && |score| == Count(p.float)
      {
        assert list[k] in list;
        assert HasMove(w, cur, list[k]);
        var v := GetAlias(list[k]);
        if v in colors { score := score[colors[v] := score[colors[v]] + row[list[k]]]; }
      }
    }

    /** The colours of the neighbours of one stack entry. */
    method Flags(nbrs: set<nat>, colors: map<nat, nat>) returns (flag: set<nat>)
      requires Forest(alias, rep, rank) && forall n :: n in nbrs ==> n in rep && rep[n] in colors
      modifies `alias
      ensures Forest(alias, rep, rank) && |flag| <= |nbrs|
      ensures forall n :: n in nbrs ==> colors[rep[n]] in flag
    {
      flag := {};
      var list := Listed(nbrs);
      for k := 0 to |list|
        invariant Forest(alias, rep, rank) && |flag| <= k
        invariant forall j :: 0 <= j < k ==> list[j] in nbrs && colors[rep[list[j]]] in flag
      {
        assert list[k] in list;
        var a := GetAlias(list[k]);
        flag := flag + {colors[a]};
      }
    }

    /** Pop one entry of the stack and colour it. */
    method ColorOne(i: nat, w: Moves, used: set<nat>, colors0: map<nat, nat>) returns (colors: map<nat, nat>)
      requires Done(p, C()) && Forest(alias, rep, rank) && i < |stack| && Popped(p, C(), colors0, i + 1)
      requires forall x, y :: HasMove(w, x, y) ==> y in rep
      modifies `alias
      ensures Forest(alias, rep, rank) && Popped(p, C(), colors, i)
      ensures stack[i].id in colors && colors == colors0[stack[i].id := colors[stack[i].id]]
    {
      hide Forest, Popped, Done;
      ColorFacts(p, C(), colors0, i);
      var cur := stack[i];
      var flag := Flags(cur.nbrs, colors0);
      var score := Score(cur.id, w, used, colors0);
      var color := PickColor(p.float, flag, score);
      PopKeeps(p, C(), colors0, i, color);
      colors := colors0[cur.id := color];
    }

    /** Pop the whole stack; coalesced registers get the colour of what they were coalesced into. */
    method AssignColors() returns (ans: map<nat, nat>)
      requires Ok() && Done(p, C())
      modifies `alias
      ensures Proper(p, ans) && forall x :: x in p.occur ==> x in rep && rep[x] in ans && ans[x] == ans[rep[x]]
    {
      hide AllocInv, Forest, Done, Popped, Proper;
      PopStart(p, C());
      var colors: map<nat, nat> := PreColors(p);
      var used := p.PreOccur();
      var w := FrozenWeights();
      var i := |stack|;
      while i > 0
        invariant 0 <= i <= |stack|
        invariant Forest(alias, rep, rank) && Popped(p, C(), colors, i)
      {
        i := i - 1;
        colors := ColorOne(i, w, used, colors);
        used := used + {colors[stack[i].id]};
      }
      AllColored(p, C(), colors);
      ans := Extend(colors);
      FinalProper(p, C(), colors);
      ExtendedRoots(p, rep, colors);
    }

    method Extend(colors: map<nat, nat>) returns (ans: map<nat, nat>)
      requires Forest(alias, rep, rank) && forall x :: x in p.occur ==> x in rep && rep[x] in colors
      requires forall x :: x in p.occur && p.Pre(x) ==> rep[x] == x && colors[x] == x
      modifies `alias
      ensures Forest(alias, rep, rank) && ans == Extended(p, rep, colors)
    {
      ans := map x | x in p.PreOccur() :: x;
      var list := Listed(p.occur - p.PreOccur());
      for k := 0 to |list|
        invariant Forest(alias, rep, rank)
        invariant forall x :: x in ans <==> x in p.PreOccur() || x in list[..k]
        invariant forall x :: x in ans ==> x in p.occur && ans[x] == colors[rep[x]]
      {
        assert list[k] in list;
        var a := GetAlias(list[k]);
        ans := ans[list[k] := colors[a]];
      }
      assert list[..|list|] == list;
    }

    /** One turn of the main loop; `stuck` when only products of spilling are left to spill. */
    method Round(spilling: set<nat>, constants: set<nat>, costs: nat -> Cost) returns (stuck: bool)
      requires Ok() && worklist == [] && remain != {}
      modifies this
      ensures Ok() && worklist == []
      ensures stuck ==> remain != {} && remain <= spilling && spilled == old(spilled)
      ensures stuck ==> forall x :: x in remain ==> |Neighbours(adj, x)| >= K(p.float)
      ensures !stuck ==> remain <= old(remain) && (remain == old(remain) ==> Pairs(moves) < Pairs(old(moves)))
      ensures forall x :: x in spilled ==> x in old(spilled) || x !in spilling
      ensures stuck ==> ObstructedIn(p, spilling)
      ensures AllNeeded(p, old(spilled)) ==> AllNeeded(p, spilled)
      ensures Easy(p, old(C())) ==> Easy(p, C()) && !stuck && spilled == old(spilled)
    {
      hide AllocInv, Forest, MovesOk, Pairs, Pruned, Exact, Ready, Freezable, Coalescible, HasMove;
      hide Easy, Obstructs, RepOk, AllNeeded;
      stuck := false;
      ghost var moves0 := moves;
      PrepareForSimplify();
      PruneShrinks(p, adj, moves0, moves, remain);
      Simplify();
      if remain == {} { return; }
      var degree := Coalesce();
      if degree > 0 { return; }
      var ok := Freeze();
      if ok { return; }
      AllSignificant(p.float, adj, moves, remain);
      StuckObstructs(p, C());
      if Easy(p, C()) { EasyNotStuck(p, C()); }
      if remain - spilling == {} {
        assert forall y :: y in remain ==> y in spilling || y in remain - spilling;
        return true;
      }
      ghost var c := C();
      var x := SelectSpill(spilling, constants, costs);
      if AllNeeded(p, c.spilled) { OneMoreNeeded(p, c, x); }
    }

    /** The allocator. Either every register gets a colour and the colouring is proper for the original graph, or
        some registers are to be spilled, or the assertion on spill candidates fails. */
    method Run(spilling: set<nat>, constants: set<nat>, costs: nat -> Cost) returns (r: Outcome)
      requires Ok() && worklist == [] && spilled == []
      modifies this
      ensures r.Colored? ==> Proper(p, r.ans)
      ensures r.Rewrite? ==> r.spilled != [] && forall x :: x in r.spilled ==> x in p.occur && !p.Pre(x) && x !in spilling
      ensures r.NoCandidate? ==> remain != {} && remain <= spilling
      ensures r.NoCandidate? ==> forall x :: x in remain ==> |Neighbours(adj, x)| >= K(p.float)
      ensures r.Rewrite? ==> AllNeeded(p, r.spilled)
      ensures r.Rewrite? ==> RepOk(p, rep) && forall s :: Obstructs(p, rep, s) ==> exists x :: x in s && x in r.spilled
      ensures r.NoCandidate? ==> ObstructedIn(p, spilling)
      ensures r.Colored? ==> RepOk(p, rep) && (forall s :: !Obstructs(p, rep, s)) && forall x :: x in p.occur ==> r.ans[x] == r.ans[rep[x]]
      ensures old(C()) == Start(p) && p.PreOccur() == {} && !Tight(p) ==> r.Colored?
    {
      hide AllocInv, Forest, MovesOk, Pairs, Proper, Easy, Obstructs, ObstructedIn, AllNeeded, Tight, RepOk, Start;
      NoneNeeded(p);
      if C() == Start(p) && p.PreOccur() == {} && !Tight(p) { EasyStart(p); }
      while remain != {}
        invariant AllNeeded(p, spilled)
        invariant old(C()) == Start(p) && p.PreOccur() == {} && !Tight(p) ==> Easy(p, C()) && spilled == []
        invariant Ok() && worklist == []
        invariant forall x :: x in spilled ==> x !in spilling
        decreases remain, Pairs(moves)
      {
        var stuck := Round(spilling, constants, costs);
        if stuck { return NoCandidate; }
      }
      SpilledFacts(p, C());
      NothingLeftIsFree(p, C());
      if spilled != [] { return Rewrite(spilled); }
      assert Done(p, C());
      DoneIsFree(p, C());
      ghost var rep0 := rep;
      var ans := AssignColors();
      return Colored(ans);
    }
  }

  lemma WithMoveHas(w: Moves, u: nat, v: nat, weight: int)
    requires u != v
    ensures forall x, y :: HasMove(WithMove(w, u, v, weight), x, y) <==>
      HasMove(w, x, y) || (x == u && y == v) || (x == v && y == u)
  { }

  // ----- easy graphs -----

  lemma EasyStart(p: Problem)
    requires AllocInv(p, Start(p)) && p.PreOccur() == {} && !Tight(p)
    ensures Easy(p, Start(p))
  {
    StartDissolves(p);
  }

  lemma PushEasy(p: Problem, c: Core, adj': Adj, x: nat)
    requires AllocInv(p, c) && x in c.remain && Removed(c.adj, adj', x)
    ensures Easy(p, c) ==> Easy(p, Push(c, adj', x))
  {
    if Easy(p, c) { PushDissolves(p, c.adj, adj', c.remain, x); }
  }

  lemma EasyNotStuck(p: Problem, c: Core)
    requires Easy(p, c) && AllocInv(p, c) && forall x :: x in c.remain ==> |Neighbours(c.adj, x)| >= K(p.float)
    ensures c.remain == {}
  {
    StuckHasNoLow(p, c.adj, c.remain);
  }

  lemma CombineEasy(p: Problem, c: Core, c': Core, moves: Moves, moves': Moves, u: nat, v: nat)
    requires Easy(p, c) && AllocInv(p, c) && u in Active(p, c.remain) && v in Active(p, c.remain)
    requires u != v && v !in Neighbours(c.adj, u) && Briggs(p.float, c.adj, u, v)
    requires Combined(c, c', moves, moves', if p.Pre(v) then v else u, if p.Pre(v) then u else v)
    ensures Easy(p, c')
  {
    assert !p.Pre(v) by { assert v in c.remain; }
    MergeDissolves(p, c.adj, c'.adj, c.remain, u, v);
  }

  // ----- spilling -----

  /** The cost of spilling: uses per neighbour, times four for every loop around them. */
  function CostOf(adj: Adj, costs: nat -> Cost, constant: bool, x: nat): real
    requires |Neighbours(adj, x)| > 0
  {
    Scaled(costs(x).depth, PerNeighbour(costs(x), constant, |Neighbours(adj, x)|))
  }

  predicate NotCheaper(adj: Adj, costs: nat -> Cost, constant: bool, x: nat, y: nat) {
    |Neighbours(adj, x)| > 0 && |Neighbours(adj, y)| > 0 && CostOf(adj, costs, constant, y) <= CostOf(adj, costs, constant, x)
  }

  /** No two candidates are more than twelve loops apart. */
  ghost predicate Close(costs: nat -> Cost, pool: set<nat>) {
    forall x, y :: x in pool && y in pool ==> costs(x).depth - costs(y).depth <= 12
  }

  /** Nothing in the pool is cheaper than `x`. */
  ghost predicate Cheapest(adj: Adj, costs: nat -> Cost, constant: bool, pool: set<nat>, x: nat) {
    Close(costs, pool) ==> forall y :: y in pool ==> NotCheaper(adj, costs, constant, y, x)
  }

  lemma BetterIff(adj: Adj, costs: nat -> Cost, constant: bool, pool: set<nat>, x: nat, y: nat)
    requires x in pool && y in pool && |Neighbours(adj, x)| > 0 && |Neighbours(adj, y)| > 0
    ensures Close(costs, pool) ==>
      (LessThanOptimal(costs(x).depth, PerNeighbour(costs(x), constant, |Neighbours(adj, x)|),
                       costs(y).depth, PerNeighbour(costs(y), constant, |Neighbours(adj, y)|)) <==>
       !NotCheaper(adj, costs, constant, x, y))
  {
    hide LessThanOptimal, Scaled, PerNeighbour, Neighbours;
    LessIff(costs(x).depth, PerNeighbour(costs(x), constant, |Neighbours(adj, x)|),
            costs(y).depth, PerNeighbour(costs(y), constant, |Neighbours(adj, y)|));
  }

  // ----- freezing -----

  predicate Freezable(float: bool, adj: Adj, moves: Moves, x: nat) {
    Partners(moves, x) != map[] && |Neighbours(adj, x)| < K(float)
  }

  ghost predicate PartlyDropped(moves: Moves, moves': Moves, x: nat, done: seq<nat>) {
    forall y :: Partners(moves', y) == if y in done then Partners(moves, y) - {x} else Partners(moves, y)
  }

  lemma DropStep(moves: Moves, moves': Moves, x: nat, nodes: set<nat>, list: seq<nat>, k: nat)
    requires k < |list| && PartlyDropped(moves, moves', x, list[..k])
    requires forall i, j :: 0 <= i < j < |list| ==> list[i] != list[j]
    ensures PartlyDropped(moves, moves'[list[k] := Partners(moves', list[k]) - {x}], x, list[..k + 1])
  {
    assert list[..k + 1] == list[..k] + [list[k]];
    assert list[k] !in list[..k];
  }

  lemma DropDone(moves: Moves, moves': Moves, x: nat, nodes: set<nat>, list: seq<nat>)
    requires MovesOk(moves, nodes) && PartlyDropped(moves, moves', x, list)
    requires forall y :: y in list <==> y in Partners(moves, x)
    ensures Dropped(moves, moves'[x := map[]], x)
  {
    forall y ensures Partners(moves'[x := map[]], y) == if y == x then map[] else Partners(moves, y) - {x} {
      PositiveMove(moves, nodes, x, y);
      PositiveMove(moves, nodes, y, x);
      if y !in list { assert x !in Partners(moves, y); }
    }
  }

  lemma AllSignificant(float: bool, adj: Adj, moves: Moves, nodes: set<nat>)
    requires forall x :: x in nodes ==> !Ready(float, adj, moves, x) && !Freezable(float, adj, moves, x)
    ensures forall x :: x in nodes ==> |Neighbours(adj, x)| >= K(float)
  {
    forall x | x in nodes ensures |Neighbours(adj, x)| >= K(float) {
      assert !Ready(float, adj, moves, x) && !Freezable(float, adj, moves, x);
    }
  }

  lemma PruneShrinks(p: Problem, adj: Adj, moves: Moves, moves': Moves, remain: set<nat>)
    requires Pruned(p, adj, moves, moves')
    ensures Pairs(moves') <= Pairs(moves)
  {
    PairsAre(moves);
    PairsAre(moves');
    forall q | q in Pairs(moves') ensures q in Pairs(moves) {
      assert HasMove(moves', q.x, q.y);
      assert HasMove(moves, q.x, q.y);
    }
  }

  // ----- colours -----

  predicate CallerSave(float: bool, j: nat) {
    if float then j < 4 || j >= 16 else j < 4 || j == 12
  }

  function BaseScore(float: bool, used: set<nat>, j: nat): int {
    if CallerSave(float, j) || (Allocable(float, j) && j in used) then 1 else 0
  }

  /** The free allocable colour with the highest score. */
  method PickColor(float: bool, flag: set<nat>, score: seq<int>) returns (color: nat)
    requires |flag| < K(float) && |score| == Count(float)
    ensures Allocable(float, color) && color !in flag
    ensures forall j: nat :: Allocable(float, j) && j !in flag ==> score[j] <= score[color]
  {
    FreeColor(float, flag);
    var best := -1;
    for j := 0 to Count(float)
      invariant best >= 0 ==> Allocable(float, best) && best !in flag
      invariant best < 0 ==> forall i :: 0 <= i < j ==> !Allocable(float, i) || i in flag
      invariant best >= 0 ==> forall i :: 0 <= i < j && Allocable(float, i) && i !in flag ==> score[i] <= score[best]
    {
      if Allocable(float, j) && j !in flag && (best < 0 || score[j] > score[best]) { best := j; }
    }
    color := best;
  }

  lemma ColorFacts(p: Problem, c: Core, colors: map<nat, nat>, i: nat)
    requires Done(p, c) && i < |c.stack| && Popped(p, c, colors, i + 1)
    ensures |c.stack[i].nbrs| < K(p.float)
    ensures forall n :: n in c.stack[i].nbrs ==> n in c.rep && c.rep[n] in colors
    ensures forall x :: x in colors ==> Allocable(p.float, colors[x])
  {
    NeighboursColored(p, c, colors, i);
    assert EntryOk(p, c, i);
  }

  function PreColors(p: Problem): map<nat, nat> {
    map x | x in p.PreOccur() :: x
  }

  lemma PopStart(p: Problem, c: Core)
    requires Done(p, c)
    ensures c.rep.Keys == p.occur && RepOk(p, c.rep) && Popped(p, c, PreColors(p), |c.stack|)
    ensures forall x :: x in p.occur && p.Pre(x) ==> c.rep[x] == x
  { }

  lemma ExtendedRoots(p: Problem, rep: map<nat, nat>, colors: map<nat, nat>)
    requires RepOk(p, rep) && forall x :: x in p.occur ==> x in rep && rep[x] in colors
    ensures var ans := Extended(p, rep, colors);
      forall x :: x in p.occur ==> x in rep && rep[x] in ans && ans[x] == ans[rep[x]]
  {
    forall x | x in p.occur ensures rep[x] in p.occur && rep[rep[x]] == rep[x] { assert IsRoot(rep, rep[x]); }
  }

  lemma SpilledFacts(p: Problem, c: Core)
    requires AllocInv(p, c)
    ensures forall x :: x in c.spilled ==> x in p.occur && !p.Pre(x)
  { }

  /** How a run of the allocator ends. */
  datatype Outcome = Colored(ans: map<nat, nat>) | Rewrite(spilled: seq<nat>) | NoCandidate

  // ----- the moves of one coalescing round -----

  /** A move edge as it is put on the worklist. */
  ghost predicate Listable(moves: Moves, m: Move) {
    HasMove(moves, m.u, m.v) && m.v < m.u && m.w == MoveWeight(moves, m.u, m.v)
  }

  ghost predicate LiveMove(p: Problem, c: Core, m: Move) {
    m.w > 0 && m.u in c.rep && m.v in c.rep && c.rep[m.u] in Active(p, c.remain) && c.rep[m.v] in Active(p, c.remain)
  }

  /** The ends of the listed moves are still represented by nodes of the graph. */
  ghost predicate Live(p: Problem, c: Core, list: seq<Move>) {
    forall k {:trigger LiveMove(p, c, list[k])} :: 0 <= k < |list| ==> LiveMove(p, c, list[k])
  }

  lemma CollectedLive(p: Problem, c: Core, moves: Moves, list: seq<Move>)
    requires AllocInv(p, c) && MovesOk(moves, Active(p, c.remain)) && forall m :: m in list ==> Listable(moves, m)
    ensures Live(p, c, list)
    ensures forall k :: 0 <= k < |list| ==> IsRoot(c.rep, list[k].u) && IsRoot(c.rep, list[k].v)
  {
    forall k | 0 <= k < |list|
      ensures LiveMove(p, c, list[k]) && IsRoot(c.rep, list[k].u) && IsRoot(c.rep, list[k].v)
    {
      var m := list[k];
      assert m in list;
      PositiveMove(moves, Active(p, c.remain), m.u, m.v);
      ActiveNotStacked(p, c, m.u);
      ActiveNotStacked(p, c, m.v);
    }
  }

  lemma NoneCoalescible(p: Problem, adj: Adj, moves: Moves, list: seq<Move>)
    requires forall m :: m in list <==> Listable(moves, m)
    requires forall j :: 0 <= j < |list| ==> !Coalescible(p, adj, list[j].u, list[j].v)
    ensures forall x, y :: HasMove(moves, x, y) && y < x ==> !Coalescible(p, adj, x, y)
  {
    forall x, y | HasMove(moves, x, y) && y < x ensures !Coalescible(p, adj, x, y) {
      assert Listable(moves, Move(x, y, MoveWeight(moves, x, y)));
    }
  }

  lemma LiveKept(p: Problem, c: Core, c': Core, list: seq<Move>, u: nat, v: nat)
    requires Live(p, c, list) && u != v && u in Active(p, c.remain) && !p.Pre(v)
    requires c' == Merge(c, c'.adj, u, v)
    ensures Live(p, c', list)
  {
    forall k | 0 <= k < |list| ensures LiveMove(p, c', list[k]) {
      assert LiveMove(p, c, list[k]);
    }
  }

  ghost predicate Descending(list: seq<Move>) {
    forall i, j :: 0 <= i < j < |list| ==> list[i].w >= list[j].w
  }

  /** Insertion before the first lighter move. */
  method Inserted(m: Move, list: seq<Move>) returns (out: seq<Move>)
    requires Descending(list)
    ensures Descending(out) && multiset(out) == multiset(list) + multiset{m}
  {
    var k := 0;
    while k < |list| && list[k].w >= m.w
      invariant 0 <= k <= |list|
      invariant forall i :: 0 <= i < k ==> list[i].w >= m.w
    {
      k := k + 1;
    }
    var first, rest := list[..k], list[k..];
    out := first + [m] + rest;
    assert list == first + rest;
    assert multiset(out) == multiset(first) + multiset{m} + multiset(rest);
    assert multiset(list) == multiset(first) + multiset(rest);
  }

  /** Sorted by weight, heaviest first. */
  method Sorted(list: seq<Move>) returns (out: seq<Move>)
    ensures Descending(out) && multiset(out) == multiset(list)
    ensures forall m :: m in out <==> m in list
  {
    out := [];
    for k := 0 to |list|
      invariant Descending(out) && multiset(out) == multiset(list[..k])
    {
      out := Inserted(list[k], out);
      assert list[..k + 1] == list[..k] + [list[k]];
    }
    assert list[..|list|] == list;
    forall m ensures m in out <==> m in list { assert m in out <==> m in multiset(out); }
  }

  /** `v` has been coalesced into `u`. */
  ghost predicate Combined(c: Core, c': Core, moves: Moves, moves': Moves, u: nat, v: nat) {
    c' == Merge(c, c'.adj, u, v) && Merged(c.adj, c'.adj, u, v) && HandedOver(moves, moves', u, v)
  }

  lemma CombineKeeps(p: Problem, c: Core, c': Core, moves: Moves, moves': Moves, u: nat, v: nat)
    requires AllocInv(p, c) && CanMerge(p, c, u, v) && !p.Pre(v) && MovesOk(moves, Active(p, c.remain))
    requires Combined(c, c', moves, moves', u, v)
    ensures AllocInv(p, c') && MovesOk(moves', Active(p, c'.remain)) && c'.remain < c.remain
  {
    MergeKeeps(p, c, c'.adj, u, v);
    HandedOverOk(p, moves, moves', c.remain, u, v);
  }

  lemma AllocFacts(p: Problem, c: Core)
    requires AllocInv(p, c)
    ensures WellFormed(c.adj, Active(p, c.remain)) && forall x :: x in c.remain ==> !p.Pre(x)
    ensures Active(p, c.remain) <= p.occur
  { }

  lemma CombineFacts(p: Problem, c: Core, u: nat, v: nat)
    requires AllocInv(p, c) && u in Active(p, c.remain) && v in Active(p, c.remain) && u != v && !p.Pre(v)
    requires v !in Neighbours(c.adj, u) || u !in Neighbours(c.adj, v)
    ensures CanMerge(p, c, u, v) && IsRoot(c.rep, u) && IsRoot(c.rep, v)
  {
    ActiveNotStacked(p, c, u);
    ActiveNotStacked(p, c, v);
    assert u in Neighbours(c.adj, v) <==> v in Neighbours(c.adj, u);
  }

  ghost predicate PartlyPruned(p: Problem, adj: Adj, moves: Moves, moves': Moves, done: seq<nat>) {
    forall x :: Partners(moves', x) == if x in done then PrunedRow(p, adj, Partners(moves, x), x) else Partners(moves, x)
  }

  lemma PruneStep(p: Problem, adj: Adj, moves: Moves, moves': Moves, nodes: set<nat>, list: seq<nat>, k: nat)
    requires k < |list| && MovesOk(moves, nodes) && PartlyPruned(p, adj, moves, moves', list[..k])
    requires nodes <= p.occur && forall i, j :: 0 <= i < j < |list| ==> list[i] != list[j]
    ensures
      var x := list[k];
      var row := Partners(moves', x) - Neighbours(adj, x);
      var row' := if p.Pre(x) then row - (p.PreOccur() - {x}) else row;
      PartlyPruned(p, adj, moves, moves'[x := row'], list[..k + 1])
  {
    var x := list[k];
    var row := Partners(moves', x) - Neighbours(adj, x);
    var row' := if p.Pre(x) then row - (p.PreOccur() - {x}) else row;
    assert x !in list[..k] && list[..k + 1] == list[..k] + [x];
    forall y ensures y in row' <==> y in PrunedRow(p, adj, Partners(moves, x), x) {
      assert HasMove(moves, x, y) ==> y != x && y in nodes;
    }
    assert row' == PrunedRow(p, adj, Partners(moves, x), x);
  }

  lemma PruneDone(p: Problem, adj: Adj, moves: Moves, moves': Moves, nodes: set<nat>, list: seq<nat>)
    requires MovesOk(moves, nodes) && PartlyPruned(p, adj, moves, moves', list)
    requires forall x :: x in list <==> x in nodes
    ensures Pruned(p, adj, moves, moves')
  {
    forall x ensures Partners(moves', x) == PrunedRow(p, adj, Partners(moves, x), x) {
      if x !in list {
        forall y ensures y !in Partners(moves, x) { assert HasMove(moves, x, y) ==> x in nodes; }
        assert Partners(moves, x) == map[];
      }
    }
  }

  lemma MergeEdgeStep(adj: Adj, adj': Adj, u: nat, v: nat, list: seq<nat>, k: nat)
    requires Symmetric(adj) && Irreflexive(adj) && u != v && v !in Neighbours(adj, u)
    requires k < |list| && PartlyMerged(adj, adj', u, v, list[..k])
    requires (forall x :: x in list <==> x in Neighbours(adj, v)) && forall i, j :: 0 <= i < j < |list| ==> list[i] != list[j]
    ensures
      var y := list[k];
      var adj1 := adj'[y := Neighbours(adj', y) - {v} + {u}];
      PartlyMerged(adj, adj1[u := Neighbours(adj1, u) + {y}], u, v, list[..k + 1])
  {
    var y := list[k];
    assert y in list && y !in list[..k];
    assert u in Neighbours(adj, v) <==> v in Neighbours(adj, u);
    assert y != u;
    assert list[..k + 1] == list[..k] + [y];
    assert Elems(list[..k + 1]) == Elems(list[..k]) + {y};
  }

  /** One step of handing moves over: the move between `y` and `v` becomes one between `y` and `u`. */
  function HandMove(moves: Moves, u: nat, v: nat, y: nat, w: int): Moves {
    var moves1 := moves[y := Partners(moves, y) - {v}];
    if y == u then moves1 else WithMove(moves1, y, u, w)
  }

  lemma HandedNone(moves: Moves, u: nat, v: nat, nodes: set<nat>)
    requires MovesOk(moves, nodes)
    ensures Handed(moves, moves, u, v, {})
  {
    forall x, y ensures HasMove(moves, x, y) <==> MoveWeight(moves, x, y) != 0 { }
  }

  /** What `HandMove` changes, entry by entry. */
  lemma HandedAt(moves: Moves, u: nat, v: nat, y: nat, w: int, a: nat, b: nat)
    requires u != v && y != v
    ensures
      var moves' := HandMove(moves, u, v, y, w);
      && MoveWeight(moves', a, b) ==
        (if a == y && b == v then 0
         else MoveWeight(moves, a, b) + if y != u && ((a == y && b == u) || (a == u && b == y)) then w else 0)
      && (HasMove(moves', a, b) <==>
           (HasMove(moves, a, b) && !(a == y && b == v)) || (y != u && ((a == y && b == u) || (a == u && b == y))))
  { }

  lemma HandStep(moves: Moves, moves': Moves, u: nat, v: nat, done: set<nat>, y: nat, nodes: set<nat>)
    requires MovesOk(moves, nodes) && u != v && Handed(moves, moves', u, v, done)
    requires y in Partners(moves, v) && y !in done
    ensures Handed(moves, HandMove(moves', u, v, y, Partners(moves, v)[y]), u, v, done + {y})
  {
    var w := Partners(moves, v)[y];
    var moves2 := HandMove(moves', u, v, y, w);
    assert HasMove(moves, v, y) && MoveWeight(moves, v, y) == w;
    forall a, b
      ensures MoveWeight(moves2, a, b) == HandedWeight(moves, u, v, done + {y}, a, b)
      ensures HasMove(moves2, a, b) <==> HandedWeight(moves, u, v, done + {y}, a, b) != 0
    {
      HandedAt(moves', u, v, y, w, a, b);
      assert MoveWeight(moves', a, b) == HandedWeight(moves, u, v, done, a, b);
      PositiveMove(moves, nodes, a, b);
    }
  }

  lemma PositiveMove(moves: Moves, nodes: set<nat>, a: nat, b: nat)
    requires MovesOk(moves, nodes)
    ensures MoveWeight(moves, a, b) >= 0 && (MoveWeight(moves, a, b) > 0 <==> HasMove(moves, a, b))
    ensures HasMove(moves, a, b) ==> HasMove(moves, b, a) && a != b && a in nodes && b in nodes
  {
    assert HasMove(moves, a, b) ==> MoveWeight(moves, a, b) > 0;
  }

  lemma HandedAll(moves: Moves, moves': Moves, u: nat, v: nat, nodes: set<nat>)
    requires MovesOk(moves, nodes) && u != v && Handed(moves, moves', u, v, Partners(moves, v).Keys)
    ensures HandedOver(moves, moves'[v := map[]], u, v)
  {
    forall a, b
      ensures MoveWeight(moves'[v := map[]], a, b) == SumWeight(moves, u, v, a, b)
      ensures HasMove(moves'[v := map[]], a, b) <==> SumWeight(moves, u, v, a, b) != 0
    {
      assert MoveWeight(moves', a, b) == HandedWeight(moves, u, v, Partners(moves, v).Keys, a, b);
      PositiveMove(moves, nodes, a, b);
      PositiveMove(moves, nodes, a, v);
      PositiveMove(moves, nodes, v, a);
      PositiveMove(moves, nodes, v, b);
    }
  }

  lemma HandedOverOk(p: Problem, moves: Moves, moves': Moves, remain: set<nat>, u: nat, v: nat)
    requires MovesOk(moves, Active(p, remain)) && HandedOver(moves, moves', u, v) && u != v
    requires u in Active(p, remain) && !p.Pre(v)
    ensures MovesOk(moves', Active(p, remain - {v}))
  {
    var nodes := Active(p, remain);
    forall a, b | HasMove(moves', a, b)
      ensures a != b && a in Active(p, remain - {v}) && b in Active(p, remain - {v})
      ensures HasMove(moves', b, a) && MoveWeight(moves', a, b) > 0
    {
      assert MoveWeight(moves', a, b) == SumWeight(moves, u, v, a, b) != 0;
      assert MoveWeight(moves', b, a) == SumWeight(moves, u, v, b, a);
      PositiveMove(moves, nodes, a, b);
      PositiveMove(moves, nodes, b, a);
      PositiveMove(moves, nodes, v, a);
      PositiveMove(moves, nodes, v, b);
    }
  }

  lemma Compress(alias: map<nat, nat>, rep: map<nat, nat>, rank: map<nat, nat>, x: nat)
    requires Forest(alias, rep, rank) && x in rep && alias[x] != x
    ensures Forest(alias[x := rep[x]], rep, rank)
  {
    var r := rep[x];
    assert Climbs(alias, rep, rank, x) && Climbs(alias, rep, rank, alias[x]) && Climbs(alias, rep, rank, r);
    forall y | y in rep ensures Climbs(alias[x := r], rep, rank, y) {
      assert Climbs(alias, rep, rank, y);
    }
  }

  lemma RemoveStep(p: Problem, adj: Adj, adj': Adj, remain: set<nat>, id: nat, list: seq<nat>, k: nat)
    requires WellFormed(adj, Active(p, remain)) && forall x :: x in remain ==> !p.Pre(x)
    requires k < |list| && PartlyRemoved(adj, adj', id, list[..k])
    requires (forall x :: x in list <==> x in Neighbours(adj, id)) && forall i, j :: 0 <= i < j < |list| ==> list[i] != list[j]
    ensures id in Neighbours(adj', list[k]) && list[k] != id
    ensures !p.Pre(list[k]) <==> list[k] in remain - {id}
    ensures PartlyRemoved(adj, adj'[list[k] := Neighbours(adj', list[k]) - {id}], id, list[..k + 1])
  {
    assert list[k] in list && list[k] !in list[..k];
    assert id in Neighbours(adj, list[k]) && id !in Neighbours(adj, id);
    assert list[..k + 1] == list[..k] + [list[k]];
  }

  lemma RemoveDone(p: Problem, adj: Adj, adj': Adj, remain: set<nat>, id: nat, list: seq<nat>)
    requires WellFormed(adj, Active(p, remain)) && PartlyRemoved(adj, adj', id, list)
    requires forall x :: x in list <==> x in Neighbours(adj, id)
    ensures Removed(adj, adj'[id := {}], id)
  {
    forall y ensures Neighbours(adj'[id := {}], y) == if y == id then {} else Neighbours(adj, y) - {id} {
      assert id in Neighbours(adj, y) <==> y in Neighbours(adj, id);
    }
  }

  lemma ExactClear(float: bool, worklist: seq<nat>, adj: Adj, moves: Moves, nodes: set<nat>, id: nat)
    requires Exact(float, worklist, adj, moves, nodes) && id !in nodes
    ensures Exact(float, worklist, adj[id := {}], moves, nodes)
  {
    assert forall z :: z != id ==> (Ready(float, adj[id := {}], moves, z) <==> Ready(float, adj, moves, z));
  }

  // ----- what the test misses -----

  /** Two registers, one next to the machine registers `a`, the other next to `b`. */
  function TwoStars(a: set<nat>, b: set<nat>, u: nat, v: nat): Adj {
    map x | x in a + b + {u, v} :: if x == u then a else if x == v then b else if x in a then {u} else {v}
  }

  function StarProblem(float: bool, a: set<nat>, b: set<nat>, u: nat, v: nat): Problem {
    Problem(float, a + b + {u, v}, TwoStars(a, b, u, v))
  }

  ghost predicate Stars(float: bool, a: set<nat>, b: set<nat>, u: nat, v: nat) {
    && a * b == {} && (forall x :: x in a + b ==> Allocable(float, x)) && u != v && u >= Count(float) && v >= Count(float)
    && |a| < K(float) && |b| < K(float)
  }

  /** Machine registers can have few neighbours but never leave the graph. The test does not count them, so it may
      coalesce two registers that could be coloured apart into one that cannot be coloured. */
  lemma PrecolouredMissed(float: bool, a: set<nat>, b: set<nat>, u: nat, v: nat)
    requires Stars(float, a, b, u, v) && |a| + |b| >= K(float)
    ensures
      var p := StarProblem(float, a, b, u, v);
      && p.Valid() && !Tight(p) && Coalescible(p, p.graph, u, v)
      && Obstructs(p, Renamed(Identity(p), u, v), {u})
  {
    hide K, Allocable, Tight;
    var p := StarProblem(float, a, b, u, v);
    StarValid(float, a, b, u, v);
    StarNotTight(float, a, b, u, v);
    StarTest(float, a, b, u, v);
    StarObstructs(float, a, b, u, v);
  }

  lemma StarValid(float: bool, a: set<nat>, b: set<nat>, u: nat, v: nat)
    requires Stars(float, a, b, u, v)
    ensures StarProblem(float, a, b, u, v).Valid()
    ensures forall x :: x in a + b ==> x < Count(float)
  {
    hide K;
  }

  lemma StarNotTight(float: bool, a: set<nat>, b: set<nat>, u: nat, v: nat)
    requires Stars(float, a, b, u, v)
    ensures !Tight(StarProblem(float, a, b, u, v))
  {
    hide K, ClassesMeet;
    var p := StarProblem(float, a, b, u, v);
    StarValid(float, a, b, u, v);
    forall s ensures !Obstructs(p, Identity(p), s) {
      if Obstructs(p, Identity(p), s) {
        var x := Pick(s);
        SameNbrs(p, x);
        SubsetSize(Neighbours(p.graph, x) * (s + p.PreOccur()), Neighbours(p.graph, x));
      }
    }
  }

  lemma StarTest(float: bool, a: set<nat>, b: set<nat>, u: nat, v: nat)
    requires Stars(float, a, b, u, v)
    ensures var p := StarProblem(float, a, b, u, v); Coalescible(p, p.graph, u, v)
  {
    var p := StarProblem(float, a, b, u, v);
    StarValid(float, a, b, u, v);
    forall n | n in Neighbours(p.graph, u) + Neighbours(p.graph, v) ensures n !in Significant(float, p.graph, u, v) {
      assert NbrsAfter(p.graph, u, v, n) == {u};
    }
    assert Significant(float, p.graph, u, v) == {};
  }

  lemma StarMeets(float: bool, a: set<nat>, b: set<nat>, u: nat, v: nat, y: nat)
    requires Stars(float, a, b, u, v) && y in a + b
    ensures
      var p := StarProblem(float, a, b, u, v);
      y in p.PreOccur() && ClassesMeet(p, Renamed(Identity(p), u, v), u, y)
  {
    hide K, Allocable;
    var p := StarProblem(float, a, b, u, v);
    var rep := Renamed(Identity(p), u, v);
    StarValid(float, a, b, u, v);
    var x := if y in a then u else v;
    assert y in Neighbours(p.graph, x) && rep[x] == u && rep[y] == y;
  }

  lemma StarObstructs(float: bool, a: set<nat>, b: set<nat>, u: nat, v: nat)
    requires Stars(float, a, b, u, v) && |a| + |b| >= K(float)
    ensures var p := StarProblem(float, a, b, u, v); Obstructs(p, Renamed(Identity(p), u, v), {u})
  {
    hide K, Allocable, ClassesMeet;
    var p := StarProblem(float, a, b, u, v);
    var rep := Renamed(Identity(p), u, v);
    forall y | y in a + b ensures y in ClassNbrs(p, rep, u) * ({u} + p.PreOccur()) { StarMeets(float, a, b, u, v, y); }
    SubsetSize(a + b, ClassNbrs(p, rep, u) * ({u} + p.PreOccur()));
    assert |a + b| == |a| + |b|;
    assert rep[u] == u;
  }
}
