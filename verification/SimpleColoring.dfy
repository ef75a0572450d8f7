/** Colouring without coalescing (`SimpleColoringAllocator`, src/arm/simple_coloring_alloc.hpp): remove nodes of low
    degree while there are any, give up the node of highest degree when there is none, and colour in reverse. */
module SimpleColoring {
  import opened Liveness
  import opened InterferenceGraph
  import opened ColoringState
  import opened Obstruction
  import opened CoalescingAllocator
  import opened FiniteSets

  const NO_MOVES: Moves := map[]

  /** Every node has at most the degree of `x`. */
  predicate Busiest(adj: Adj, pool: set<nat>, x: nat) {
    x in pool && forall y :: y in pool ==> |Neighbours(adj, y)| <= |Neighbours(adj, x)|
  }

  /** A caller-saved register, or one that has to be saved anyway. */
  predicate Cheap(float: bool, used: set<nat>, j: nat) {
    CallerSave(float, j) || (Allocable(float, j) && j in used)
  }

  /** The first free register that costs nothing, else the first free one. */
  method FirstFree(float: bool, flag: set<nat>, used: set<nat>) returns (color: nat)
    requires |flag| < K(float)
    ensures Allocable(float, color) && color !in flag
    ensures forall j: nat :: j < Count(float) && j !in flag && Cheap(float, used, j) ==> Cheap(float, used, color) && color <= j
    ensures forall j: nat :: j < Count(float) && j !in flag && Allocable(float, j) && !Cheap(float, used, color) ==> color <= j
  {
    FreeColor(float, flag);
    for j := 0 to Count(float)
      invariant forall i: nat :: i < j && i !in flag ==> !Cheap(float, used, i)
    {
      if Cheap(float, used, j) && j !in flag { return j; }
    }
    for j := 0 to Count(float)
      invariant forall i: nat :: i < j && i !in flag ==> !Allocable(float, i)
    {
      if Allocable(float, j) && j !in flag { return j; }
    }
    assert false;
  }

  class SimpleAllocator {
    const p: Problem
    var adj: Adj
    var queue: seq<nat>
    var history: seq<Pushed>
    var remain: set<nat>
    var spilled: seq<nat>

    ghost function C(): Core
      reads this
    {
      Core(adj, history, remain, spilled, Identity(p))
    }

    ghost predicate Ok()
      reads this
    {
      AllocInv(p, C()) && Exact(p.float, queue, adj, NO_MOVES, remain)
    }

    /** The graph is built; the nodes of low degree are enqueued. */
    constructor (problem: Problem)
      requires problem.Valid()
      ensures p == problem && Ok() && spilled == []
    {
      p := problem;
      adj, queue, history, spilled := problem.graph, [], [], [];
      remain := set x | x in problem.occur && !problem.Pre(x);
      new;
      StartInv(p);
      EnqueueLow();
    }

    method EnqueueLow()
      requires queue == []
      modifies `queue
      ensures Exact(p.float, queue, adj, NO_MOVES, remain)
    {
      var list := Listed(remain);
      for k := 0 to |list|
        invariant forall i, j :: 0 <= i < j < |queue| ==> queue[i] != queue[j]
        invariant forall x :: x in queue <==> x in list[..k] && Ready(p.float, adj, NO_MOVES, x)
      {
        assert list[k] !in list[..k];
        if |Neighbours(adj, list[k])| < K(p.float) { queue := queue + [list[k]]; }
      }
      assert list[..|list|] == list;
    }

    /** Take a node out of the graph; a neighbour whose degree becomes low is enqueued, once. */
    method Remove(id: nat)
      requires WellFormed(adj, Active(p, remain)) && id in remain && forall x :: x in remain ==> !p.Pre(x)
      requires Exact(p.float, queue, adj, NO_MOVES, remain - {id})
      modifies `adj, `queue, `remain
      ensures Removed(old(adj), adj, id) && remain == old(remain) - {id}
      ensures Exact(p.float, queue, adj, NO_MOVES, remain)
    {
      hide Exact, WellFormed, Removed;
      var list := Listed(Neighbours(adj, id));
      ghost var rest := remain - {id};
      for k := 0 to |list|
        invariant remain == old(remain) && PartlyRemoved(old(adj), adj, id, list[..k])
        invariant Exact(p.float, queue, adj, NO_MOVES, rest)
      {
        var y := list[k];
        RemoveStep(p, old(adj), adj, remain, id, list, k);
        ghost var adj0 := adj;
        adj := adj[y := Neighbours(adj, y) - {id}];
        ExactStep(p.float, queue, adj0, adj, NO_MOVES, rest, id, y);
        if |Neighbours(adj, y)| == K(p.float) - 1 && !p.Pre(y) { queue := queue + [y]; }
      }
      assert list[..|list|] == list;
      RemoveDone(p, old(adj), adj, remain, id, list);
      ExactClear(p.float, queue, adj, NO_MOVES, rest, id);
      adj := adj[id := {}];
      remain := remain - {id};
    }

    /** Empty the queue: what is left has too many neighbours. */
    method Simplify()
      requires Ok()
      modifies `adj, `queue, `remain, `history
      ensures Ok() && remain <= old(remain) && queue == []
      ensures forall x :: x in remain ==> |Neighbours(adj, x)| >= K(p.float)
    {
      while queue != []
        invariant Ok() && remain <= old(remain)
        decreases remain
      {
        SimplifyOne();
      }
    }

    method SimplifyOne()
      requires Ok() && queue != []
      modifies `adj, `queue, `remain, `history
      ensures Ok() && remain < old(remain)
    {
      var cur := queue[0];
      assert cur in queue;
      ExactPop(p.float, queue, adj, NO_MOVES, remain);
      queue := queue[1..];
      var neighbours := Neighbours(adj, cur);
      Remove(cur);
      history := history + [Pushed(cur, neighbours)];
      assert C() == Push(old(C()), adj, cur);
      PushKeeps(p, old(C()), adj, cur);
    }

    /** `choose_spill`: constants and addresses first, then anything that is not itself a product of spilling; of these
        the node with the most neighbours. Without a candidate the source's assertion fails. */
    method ChooseSpill(spilling: set<nat>, constants: set<nat>) returns (x: int)
      ensures if remain - spilling == {} then x == -1
              else x >= 0 && Busiest(adj, if (remain - spilling) * constants != {} then (remain - spilling) * constants else remain - spilling, x)
    {
      x := MostNeighbours((remain - spilling) * constants);
      if x == -1 { x := MostNeighbours(remain - spilling); }
    }

    method MostNeighbours(pool: set<nat>) returns (x: int)
      ensures if pool == {} then x == -1 else x >= 0 && Busiest(adj, pool, x)
    {
      x := -1;
      var list := Listed(pool);
      for k := 0 to |list|
        invariant if k == 0 then x == -1 else x >= 0 && x in list[..k]
        invariant x >= 0 ==> forall y :: y in list[..k] ==> |Neighbours(adj, y)| <= |Neighbours(adj, x)|
      {
        if x == -1 || |Neighbours(adj, list[k])| > |Neighbours(adj, x)| { x := list[k]; }
      }
      assert list[..|list|] == list;
      if pool == {} { assert forall y :: y in list ==> y in pool; } else { assert forall y :: y in pool ==> y in list; }
    }

    /** Give a node up. */
    method GiveUp(x: nat)
      requires Ok() && queue == [] && x in remain
      modifies `adj, `queue, `remain, `spilled
      ensures Ok() && remain == old(remain) - {x} && spilled == old(spilled) + [x]
    {
      AllocFacts(p, C());
      Remove(x);
      spilled := spilled + [x];
      assert C() == Spill(old(C()), adj, x);
      SpillKeeps(p, old(C()), adj, x);
    }

    method SpillAll(spilling: set<nat>, constants: set<nat>) returns (ok: bool)
      requires Ok() && queue == [] && forall x :: x in spilled ==> x !in spilling
      requires AllNeeded(p, spilled) && forall x :: x in remain ==> |Neighbours(adj, x)| >= K(p.float)
      modifies this
      ensures Ok() && forall x :: x in spilled ==> x !in spilling
      ensures |spilled| >= |old(spilled)| && (old(remain) != {} && ok ==> |spilled| > |old(spilled)|)
      ensures if ok then remain == {} else remain != {} && remain <= spilling
      ensures AllNeeded(p, spilled) && forall x :: x in remain ==> |Neighbours(adj, x)| >= K(p.float)
    {
      hide AllocInv, Exact, Busiest, Needed;
      ghost var remain0 := remain;
      while remain != {}
        invariant Ok() && queue == [] && forall x :: x in spilled ==> x !in spilling
        invariant |spilled| >= |old(spilled)| && (remain != remain0 ==> |spilled| > |old(spilled)|)
        invariant AllNeeded(p, spilled) && forall x :: x in remain ==> |Neighbours(adj, x)| >= K(p.float)
        decreases remain
      {
        var cur := ChooseSpill(spilling, constants);
        if cur == -1 {
          assert forall y :: y in remain ==> y in spilling || y in remain - spilling;
          return false;
        }
        BusiestIn(adj, if (remain - spilling) * constants != {} then (remain - spilling) * constants else remain - spilling, cur);
        OneMoreNeeded(p, C(), cur);
        GiveUp(cur);
        Simplify();
      }
      ok := true;
    }

    method Flags(nbrs: set<nat>, ans: map<nat, nat>) returns (flag: set<nat>)
      requires forall n :: n in nbrs ==> n in ans
      ensures |flag| <= |nbrs| && forall n :: n in nbrs ==> ans[n] in flag
    {
      flag := {};
      var list := Listed(nbrs);
      for k := 0 to |list|
        invariant |flag| <= k && forall j :: 0 <= j < k ==> list[j] in nbrs && ans[list[j]] in flag
      {
        assert list[k] in list;
        flag := flag + {ans[list[k]]};
      }
    }

    /** Colours in reverse order of removal. */
    method Select() returns (ans: map<nat, nat>)
      requires Ok() && Done(p, C())
      ensures Proper(p, ans)
    {
      hide AllocInv, Exact, Done, Popped, Proper;
      PopStart(p, C());
      ans := PreColors(p);
      var used := p.PreOccur();
      var i := |history|;
      while i > 0
        invariant 0 <= i <= |history| && Popped(p, C(), ans, i)
      {
        i := i - 1;
        ColorFacts(p, C(), ans, i);
        var cur := history[i];
        var flag := Flags(cur.nbrs, ans);
        var color := FirstFree(p.float, flag, used);
        PopKeeps(p, C(), ans, i, color);
        ans := ans[cur.id := color];
        used := used + {color};
      }
      PlainProper(p, C(), ans);
    }

    /** The allocator: a proper colouring of the whole graph, or registers to spill. */
    method Run(spilling: set<nat>, constants: set<nat>) returns (r: Outcome)
      requires Ok() && spilled == []
      modifies this
      ensures r.Colored? ==> Proper(p, r.ans)
      ensures r.Rewrite? ==> r.spilled != [] && forall x :: x in r.spilled ==> x in p.occur && !p.Pre(x) && x !in spilling
      ensures r.NoCandidate? ==> remain != {} && remain <= spilling
      ensures r.Colored? <==> !Tight(p)
      ensures r.Rewrite? ==> AllNeeded(p, r.spilled)
      ensures r.Rewrite? ==> forall s :: Obstructs(p, Identity(p), s) ==> exists x :: x in s && x in r.spilled
      ensures r.NoCandidate? ==> ObstructedIn(p, spilling)
    {
      hide AllocInv, Exact, Proper, Obstructs, AllNeeded, RepOk, Identity;
      NoneNeeded(p);
      Simplify();
      if remain != {} {
        StuckObstructs(p, C());
        var ok := SpillAll(spilling, constants);
        if !ok {
          StuckObstructs(p, C());
          return NoCandidate;
        }
        SpilledFacts(p, C());
        NothingLeftIsFree(p, C());
        return Rewrite(spilled);
      }
      DoneIsFree(p, C());
      var ans := Select();
      return Colored(ans);
    }
  }

  lemma BusiestIn(adj: Adj, pool: set<nat>, x: nat)
    requires Busiest(adj, pool, x)
    ensures x in pool
  { }

  /** Without coalescing the colours of the stack are the answer. */
  lemma PlainProper(p: Problem, c: Core, ans: map<nat, nat>)
    requires Done(p, c) && Popped(p, c, ans, 0) && forall x :: x in p.occur ==> x in c.rep && c.rep[x] == x
    ensures Proper(p, ans)
  {
    AllColored(p, c, ans);
    FinalProper(p, c, ans);
    forall x | x in ans ensures x in p.occur {
      if StackedAfter(c, -1, x) {
        var j: nat :| -1 < j < |c.stack| && c.stack[j].id == x;
        assert EntryOk(p, c, j);
      }
    }
    assert Extended(p, c.rep, ans) == ans;
  }
}
