/** What a colouring allocator keeps while it takes the interference graph apart: which original edges are still
    in the graph, which are remembered by the select stack, and which registers stand for which
    (src/arm/irc_coloring_alloc.hpp, src/arm/simple_coloring_alloc.hpp). */
module ColoringState {
  import opened Liveness
  import opened InterferenceGraph
  import FiniteSets

  /** ALLOCABLE_REGISTER_COUNT */
  function K(float: bool): nat {
    if float then 32 else 14
  }

  /** The registers of one class that occur, and which of them interfere. */
  datatype Problem = Problem(float: bool, occur: set<nat>, graph: Adj) {
    predicate Pre(x: nat) { x < Count(float) }

    ghost predicate Valid() {
      WellFormed(graph, occur) && forall x :: x in occur && Pre(x) ==> Allocable(float, x)
    }

    function PreOccur(): set<nat> {
      set x | x in occur && Pre(x)
    }
  }

  /** An entry of the select stack: a register and its neighbours when it was removed. */
  datatype Pushed = Pushed(id: nat, nbrs: set<nat>)

  /** The state that matters for correctness. `rep` maps every register to the one it has been coalesced into. */
  datatype Core = Core(adj: Adj, stack: seq<Pushed>, remain: set<nat>, spilled: seq<nat>, rep: map<nat, nat>)

  function Active(p: Problem, remain: set<nat>): set<nat> {
    p.PreOccur() + remain
  }

  predicate IsRoot(rep: map<nat, nat>, x: nat) {
    x in rep && rep[x] == x
  }

  /** `rep` is idempotent on the registers that occur and fixes the precoloured ones. */
  ghost predicate RepOk(p: Problem, rep: map<nat, nat>) {
    && rep.Keys == p.occur
    && (forall x :: x in rep ==> IsRoot(rep, rep[x]))
    && (forall x :: x in rep && p.Pre(x) ==> rep[x] == x)
  }

  ghost predicate StackedAfter(c: Core, i: int, x: nat) {
    exists j: nat :: i < j < |c.stack| && c.stack[j].id == x
  }

  /** Colours are assigned to `x` before the stack is popped down to entry `i`, unless something is spilled. */
  ghost predicate Settled(p: Problem, c: Core, i: int, x: nat) {
    p.Pre(x) || x in c.remain || x in c.spilled || StackedAfter(c, i, x)
  }

  ghost predicate HomesOk(p: Problem, c: Core)
    requires RepOk(p, c.rep)
  {
    && (forall x {:trigger Settled(p, c, -1, c.rep[x])} :: x in p.occur ==> Settled(p, c, -1, c.rep[x]))
    && (forall x :: x in c.remain ==> x in p.occur && !p.Pre(x) && c.rep[x] == x)
    && (forall x :: x in c.spilled ==> x in p.occur && !p.Pre(x) && c.rep[x] == x && x !in c.remain)
  }

  ghost predicate EntryOk(p: Problem, c: Core, i: nat)
    requires RepOk(p, c.rep) && i < |c.stack|
  {
    var e := c.stack[i];
    && e.id in p.occur && !p.Pre(e.id) && c.rep[e.id] == e.id && e.id !in c.remain && e.id !in c.spilled
    && |e.nbrs| < K(p.float)
    && !StackedAfter(c, i, e.id)
    && (forall n :: n in e.nbrs ==> n in p.occur && Settled(p, c, i, c.rep[n]))
  }

  ghost predicate StackOk(p: Problem, c: Core)
    requires RepOk(p, c.rep)
  {
    forall i {:trigger EntryOk(p, c, i)} :: 0 <= i < |c.stack| ==> EntryOk(p, c, i)
  }

  /** A stack entry of `x` remembers an edge to the class of `y`. */
  ghost predicate Covered(p: Problem, c: Core, x: nat, y: nat)
  {
    exists i, n :: 0 <= i < |c.stack| && c.stack[i].id == x && n in c.stack[i].nbrs && n in c.rep && c.rep[n] == y
  }

  /** The classes of two interfering registers are different, and something still keeps them apart. */
  ghost predicate Apart(p: Problem, c: Core, x: nat, y: nat) {
    && x != y
    && (y in Neighbours(c.adj, x) || Covered(p, c, x, y) || Covered(p, c, y, x) || x in c.spilled || y in c.spilled)
  }

  ghost predicate Separated(p: Problem, c: Core)
    requires RepOk(p, c.rep) && p.Valid()
  {
    forall a, b {:trigger b in Neighbours(p.graph, a)} ::
      b in Neighbours(p.graph, a) ==> Apart(p, c, c.rep[a], c.rep[b])
  }

  /** Some register of the class of `x` interferes with one of the class of `y`. */
  ghost predicate ClassesMeet(p: Problem, rep: map<nat, nat>, x: nat, y: nat) {
    exists a, b {:trigger b in Neighbours(p.graph, a)} ::
      b in Neighbours(p.graph, a) && a in rep && b in rep && rep[a] == x && rep[b] == y
  }

  /** The edges that are left stand for edges of the original graph. */
  ghost predicate EdgesReal(p: Problem, c: Core) {
    forall x, y {:trigger y in Neighbours(c.adj, x)} :: y in Neighbours(c.adj, x) ==> ClassesMeet(p, c.rep, x, y)
  }

  lemma EdgesRealLess(p: Problem, c: Core, adj': Adj, x: nat)
    requires EdgesReal(p, c) && Removed(c.adj, adj', x)
    ensures EdgesReal(p, c.(adj := adj'))
  {
    hide ClassesMeet;
    forall a, b | b in Neighbours(adj', a) ensures ClassesMeet(p, c.rep, a, b) { assert b in Neighbours(c.adj, a); }
  }

  lemma MeetRenamed(p: Problem, rep: map<nat, nat>, u: nat, v: nat, x: nat, y: nat)
    requires ClassesMeet(p, rep, x, y)
    ensures ClassesMeet(p, Renamed(rep, u, v), Redirect(u, v, x), Redirect(u, v, y))
  {
    var a, b :| b in Neighbours(p.graph, a) && a in rep && b in rep && rep[a] == x && rep[b] == y;
    var rep' := Renamed(rep, u, v);
    assert rep'[a] == Redirect(u, v, x) && rep'[b] == Redirect(u, v, y);
  }

  lemma EdgesRealMerged(p: Problem, c: Core, adj': Adj, u: nat, v: nat, nodes: set<nat>)
    requires EdgesReal(p, c) && Merged(c.adj, adj', u, v) && WellFormed(c.adj, nodes)
    requires u != v && v !in Neighbours(c.adj, u)
    ensures EdgesReal(p, Merge(c, adj', u, v))
  {
    hide ClassesMeet, Renamed;
    forall x, y | y in Neighbours(adj', x) ensures ClassesMeet(p, Renamed(c.rep, u, v), x, y) {
      assert y in NbrsAfter(c.adj, u, v, x);
      var a, b := MergedEdgeFrom(c.adj, u, v, x, y, nodes);
      MeetRenamed(p, c.rep, u, v, a, b);
    }
  }

  lemma MergedEdgeFrom(adj: Adj, u: nat, v: nat, x: nat, y: nat, nodes: set<nat>) returns (a: nat, b: nat)
    requires WellFormed(adj, nodes) && u != v && v !in Neighbours(adj, u) && y in NbrsAfter(adj, u, v, x)
    ensures b in Neighbours(adj, a) && Redirect(u, v, a) == x && Redirect(u, v, b) == y
  {
    a := if x == u && y !in Neighbours(adj, u) then v else x;
    b := if y == u && u !in Neighbours(adj, a) then v else y;
    assert a in Neighbours(adj, b) <==> b in Neighbours(adj, a);
    assert v !in Neighbours(adj, v) && u !in Neighbours(adj, u);
    assert v in Neighbours(adj, u) <==> u in Neighbours(adj, v);
  }

  ghost predicate AllocInv(p: Problem, c: Core) {
    && p.Valid()
    && RepOk(p, c.rep)
    && HomesOk(p, c)
    && StackOk(p, c)
    && WellFormed(c.adj, Active(p, c.remain))
    && Separated(p, c)
    && EdgesReal(p, c)
  }

  // ----- the start -----

  function Start(p: Problem): Core {
    Core(p.graph, [], set x | x in p.occur && !p.Pre(x), [], map x | x in p.occur :: x)
  }

  lemma StartInv(p: Problem)
    requires p.Valid()
    ensures AllocInv(p, Start(p))
  {
    var c := Start(p);
    assert Active(p, c.remain) == p.occur;
    forall x, y | y in Neighbours(c.adj, x) ensures ClassesMeet(p, c.rep, x, y) {
      assert x in p.occur && y in p.occur && c.rep[x] == x && c.rep[y] == y;
    }
  }

  // ----- taking a node out -----

  /** `adj'` is `adj` without the edges of `x`. */
  ghost predicate Removed(adj: Adj, adj': Adj, x: nat) {
    forall y :: Neighbours(adj', y) == if y == x then {} else Neighbours(adj, y) - {x}
  }

  lemma RemovedWellFormed(p: Problem, adj: Adj, adj': Adj, remain: set<nat>, x: nat)
    requires WellFormed(adj, Active(p, remain)) && Removed(adj, adj', x) && !p.Pre(x)
    ensures WellFormed(adj', Active(p, remain - {x}))
  {
    forall a, b | b in Neighbours(adj', a)
      ensures a in Neighbours(adj', b) && a != b && a in Active(p, remain - {x}) && b in Active(p, remain - {x})
    {
      assert b in Neighbours(adj, a) && a != x && b != x;
      assert a in Neighbours(adj, b) && a !in Neighbours(adj, a);
    }
    forall a ensures a !in Neighbours(adj', a) { }
  }

  function Push(c: Core, adj': Adj, x: nat): Core {
    Core(adj', c.stack + [Pushed(x, Neighbours(c.adj, x))], c.remain - {x}, c.spilled, c.rep)
  }

  lemma PushSettled(p: Problem, c: Core, adj': Adj, x: nat, i: int, y: nat)
    requires Settled(p, c, i, y) && i < |c.stack|
    ensures Settled(p, Push(c, adj', x), i, y)
  {
    var c' := Push(c, adj', x);
    if y == x { assert c'.stack[|c.stack|].id == x; }
    if StackedAfter(c, i, y) {
      var j: nat :| i < j < |c.stack| && c.stack[j].id == y;
      assert c'.stack[j].id == y;
    }
  }

  lemma PushStack(p: Problem, c: Core, adj': Adj, x: nat)
    requires AllocInv(p, c) && x in c.remain && |Neighbours(c.adj, x)| < K(p.float) && Removed(c.adj, adj', x)
    ensures StackOk(p, Push(c, adj', x))
  {
    var c' := Push(c, adj', x);
    forall i | 0 <= i < |c'.stack| ensures EntryOk(p, c', i) {
      var e := c'.stack[i];
      if i < |c.stack| {
        assert EntryOk(p, c, i) && e == c.stack[i];
        forall j: nat | i < j < |c'.stack| ensures c'.stack[j].id != e.id {
          assert j < |c.stack| ==> c'.stack[j] == c.stack[j];
        }
        forall n | n in e.nbrs ensures Settled(p, c', i, c.rep[n]) { PushSettled(p, c, adj', x, i, c.rep[n]); }
      } else {
        forall n | n in e.nbrs ensures n in p.occur && Settled(p, c', i, c.rep[n]) {
          assert n in Neighbours(c.adj, x);
          assert n in Active(p, c.remain) && n != x;
        }
      }
    }
  }

  lemma PushApart(p: Problem, c: Core, adj': Adj, x: nat, a: nat, b: nat)
    requires AllocInv(p, c) && x in c.remain && Removed(c.adj, adj', x) && Apart(p, c, a, b)
    ensures Apart(p, Push(c, adj', x), a, b)
  {
    var c' := Push(c, adj', x);
    PushCovered(p, c, adj', x, a, b);
    PushCovered(p, c, adj', x, b, a);
    if b in Neighbours(c.adj, a) && (a == x || b == x) {
      assert a in Neighbours(c.adj, b);
      var y := if a == x then b else a;
      assert y in Neighbours(c.adj, x) && y in Active(p, c.remain);
      assert c'.stack[|c.stack|].id == x && y in c'.stack[|c.stack|].nbrs && c'.rep[y] == y;
    }
  }

  lemma PushCovered(p: Problem, c: Core, adj': Adj, x: nat, a: nat, b: nat)
    ensures Covered(p, c, a, b) ==> Covered(p, Push(c, adj', x), a, b)
  {
    if Covered(p, c, a, b) {
      var c' := Push(c, adj', x);
      var i, n :| 0 <= i < |c.stack| && c.stack[i].id == a && n in c.stack[i].nbrs && n in c.rep && c.rep[n] == b;
      assert c'.stack[i] == c.stack[i];
    }
  }

  /** Removing a node of low degree and pushing it keeps everything. */
  lemma PushKeeps(p: Problem, c: Core, adj': Adj, x: nat)
    requires AllocInv(p, c) && x in c.remain && |Neighbours(c.adj, x)| < K(p.float) && Removed(c.adj, adj', x)
    ensures AllocInv(p, Push(c, adj', x))
  {
    var c' := Push(c, adj', x);
    RemovedWellFormed(p, c.adj, adj', c.remain, x);
    EdgesRealLess(p, c, adj', x);
    PushStack(p, c, adj', x);
    forall y | y in p.occur ensures Settled(p, c', -1, c'.rep[y]) { PushSettled(p, c, adj', x, -1, c.rep[y]); }
    forall a, b | b in Neighbours(p.graph, a) ensures Apart(p, c', c'.rep[a], c'.rep[b]) {
      PushApart(p, c, adj', x, c.rep[a], c.rep[b]);
    }
  }

  // ----- giving a node up -----

  function Spill(c: Core, adj': Adj, x: nat): Core {
    Core(adj', c.stack, c.remain - {x}, c.spilled + [x], c.rep)
  }

  lemma SpillKeeps(p: Problem, c: Core, adj': Adj, x: nat)
    requires AllocInv(p, c) && x in c.remain && Removed(c.adj, adj', x)
    ensures AllocInv(p, Spill(c, adj', x))
  {
    var c' := Spill(c, adj', x);
    RemovedWellFormed(p, c.adj, adj', c.remain, x);
    EdgesRealLess(p, c, adj', x);
    forall i, y | Settled(p, c, i, y) ensures Settled(p, c', i, y) {
      assert StackedAfter(c, i, y) <==> StackedAfter(c', i, y);
    }
    forall i | 0 <= i < |c'.stack| ensures EntryOk(p, c', i) {
      assert EntryOk(p, c, i);
      assert StackedAfter(c, i, c.stack[i].id) <==> StackedAfter(c', i, c.stack[i].id);
    }
    forall a, b | b in Neighbours(p.graph, a) ensures Apart(p, c', c'.rep[a], c'.rep[b]) {
      assert Apart(p, c, c.rep[a], c.rep[b]);
      assert Covered(p, c, c.rep[a], c.rep[b]) <==> Covered(p, c', c.rep[a], c.rep[b]);
      assert Covered(p, c, c.rep[b], c.rep[a]) <==> Covered(p, c', c.rep[b], c.rep[a]);
    }
  }

  // ----- coalescing two nodes -----

  /** The neighbours of `n` once `v` has been coalesced into `u`. */
  function NbrsAfter(adj: Adj, u: nat, v: nat, n: nat): set<nat> {
    if n == v then {}
    else if n == u then Neighbours(adj, u) + Neighbours(adj, v)
    else if v in Neighbours(adj, n) then Neighbours(adj, n) - {v} + {u}
    else Neighbours(adj, n)
  }

  ghost predicate Merged(adj: Adj, adj': Adj, u: nat, v: nat) {
    forall n :: Neighbours(adj', n) == NbrsAfter(adj, u, v, n)
  }

  lemma MergedWellFormed(p: Problem, adj: Adj, adj': Adj, remain: set<nat>, u: nat, v: nat)
    requires WellFormed(adj, Active(p, remain)) && Merged(adj, adj', u, v)
    requires u != v && v !in Neighbours(adj, u) && u in Active(p, remain) && !p.Pre(v)
    ensures WellFormed(adj', Active(p, remain - {v}))
  {
    forall a, b | b in Neighbours(adj', a)
      ensures a in Neighbours(adj', b) && a in Active(p, remain - {v}) && b in Active(p, remain - {v})
    {
      assert b in NbrsAfter(adj, u, v, a);
      assert a in Neighbours(adj, b) <==> b in Neighbours(adj, a);
      assert a in Neighbours(adj, v) <==> v in Neighbours(adj, a);
      assert b in Neighbours(adj, v) <==> v in Neighbours(adj, b);
      assert v in Neighbours(adj, u) <==> u in Neighbours(adj, v);
      assert v !in Neighbours(adj, v) && u !in Neighbours(adj, u);
      assert a in NbrsAfter(adj, u, v, b);
    }
    forall a ensures a !in Neighbours(adj', a) {
      assert a !in Neighbours(adj, a);
      assert v in Neighbours(adj, u) <==> u in Neighbours(adj, v);
    }
  }

  function Renamed(rep: map<nat, nat>, u: nat, v: nat): map<nat, nat> {
    map x | x in rep :: if rep[x] == v then u else rep[x]
  }

  function Merge(c: Core, adj': Adj, u: nat, v: nat): Core {
    Core(adj', c.stack, c.remain - {v}, c.spilled, Renamed(c.rep, u, v))
  }

  ghost predicate CanMerge(p: Problem, c: Core, u: nat, v: nat) {
    && u != v
    && u in Active(p, c.remain)
    && v in c.remain
    && v !in Neighbours(c.adj, u)
  }

  function Redirect(u: nat, v: nat, x: nat): nat {
    if x == v then u else x
  }

  lemma ActiveNotStacked(p: Problem, c: Core, x: nat)
    requires AllocInv(p, c) && x in Active(p, c.remain)
    ensures x !in c.spilled && !StackedAfter(c, -1, x) && x in p.occur && c.rep[x] == x
    ensures forall y :: !Covered(p, c, x, y)
  {
    forall i | 0 <= i < |c.stack| ensures c.stack[i].id != x { assert EntryOk(p, c, i); }
    if p.Pre(x) { assert x !in c.spilled; }
  }

  lemma MergeSettled(p: Problem, c: Core, adj': Adj, u: nat, v: nat, i: int, x: nat)
    requires AllocInv(p, c) && CanMerge(p, c, u, v) && Settled(p, c, i, x)
    ensures Settled(p, Merge(c, adj', u, v), i, Redirect(u, v, x))
  {
    var c' := Merge(c, adj', u, v);
    ActiveNotStacked(p, c, v);
    if StackedAfter(c, i, x) {
      var j: nat :| i < j < |c.stack| && c.stack[j].id == x;
      assert c'.stack[j].id == x;
      assert StackedAfter(c, -1, x);
    }
  }

  lemma MergeStack(p: Problem, c: Core, adj': Adj, u: nat, v: nat)
    requires AllocInv(p, c) && CanMerge(p, c, u, v)
    requires RepOk(p, Merge(c, adj', u, v).rep)
    ensures StackOk(p, Merge(c, adj', u, v))
  {
    var c' := Merge(c, adj', u, v);
    forall i | 0 <= i < |c'.stack| ensures EntryOk(p, c', i) {
      var e := c.stack[i];
      assert EntryOk(p, c, i);
      assert StackedAfter(c', i, e.id) ==> StackedAfter(c, i, e.id);
      forall n | n in e.nbrs ensures Settled(p, c', i, c'.rep[n]) {
        MergeSettled(p, c, adj', u, v, i, c.rep[n]);
      }
    }
  }

  lemma MergeCovered(p: Problem, c: Core, adj': Adj, u: nat, v: nat, a: nat, b: nat)
    requires AllocInv(p, c) && CanMerge(p, c, u, v) && Covered(p, c, a, b)
    ensures Covered(p, Merge(c, adj', u, v), Redirect(u, v, a), Redirect(u, v, b))
  {
    var c' := Merge(c, adj', u, v);
    ActiveNotStacked(p, c, v);
    var i, n :| 0 <= i < |c.stack| && c.stack[i].id == a && n in c.stack[i].nbrs && n in c.rep && c.rep[n] == b;
    assert c'.stack[i].id == a && n in c'.stack[i].nbrs && n in c'.rep && c'.rep[n] == Redirect(u, v, b);
  }

  lemma MergeApart(p: Problem, c: Core, adj': Adj, u: nat, v: nat, a: nat, b: nat)
    requires AllocInv(p, c) && CanMerge(p, c, u, v) && Merged(c.adj, adj', u, v) && Apart(p, c, a, b)
    ensures Apart(p, Merge(c, adj', u, v), Redirect(u, v, a), Redirect(u, v, b))
  {
    var c' := Merge(c, adj', u, v);
    ActiveNotStacked(p, c, u);
    ActiveNotStacked(p, c, v);
    assert v in Neighbours(c.adj, u) <==> u in Neighbours(c.adj, v);
    assert Redirect(u, v, a) != Redirect(u, v, b);
    if Covered(p, c, a, b) { MergeCovered(p, c, adj', u, v, a, b); }
    if Covered(p, c, b, a) { MergeCovered(p, c, adj', u, v, b, a); }
    if b in Neighbours(c.adj, a) {
      assert a in Neighbours(c.adj, b);
      assert Redirect(u, v, b) in NbrsAfter(c.adj, u, v, Redirect(u, v, a));
    }
  }

  lemma RenamedOk(p: Problem, rep: map<nat, nat>, u: nat, v: nat)
    requires RepOk(p, rep) && u in rep && rep[u] == u && u != v && !p.Pre(v)
    ensures RepOk(p, Renamed(rep, u, v))
  {
    var rep' := Renamed(rep, u, v);
    assert rep'.Keys == rep.Keys;
    assert IsRoot(rep', u);
    forall x | x in rep' ensures IsRoot(rep', rep'[x]) {
      assert IsRoot(rep, rep[x]);
    }
  }

  lemma MergeHomes(p: Problem, c: Core, adj': Adj, u: nat, v: nat)
    requires AllocInv(p, c) && CanMerge(p, c, u, v)
    requires RepOk(p, Merge(c, adj', u, v).rep)
    ensures HomesOk(p, Merge(c, adj', u, v))
  {
    hide AllocInv, RepOk, Settled, Merge, CanMerge;
    var c' := Merge(c, adj', u, v);
    forall x | x in p.occur ensures x in c'.rep && Settled(p, c', -1, c'.rep[x]) { MergeHome(p, c, adj', u, v, x); }
    forall x | x in c'.remain || x in c'.spilled
      ensures x in p.occur && !p.Pre(x) && x in c'.rep && c'.rep[x] == x && !(x in c'.remain && x in c'.spilled)
    {
      MergeOpen(p, c, adj', u, v, x);
    }
  }

  lemma MergeHome(p: Problem, c: Core, adj': Adj, u: nat, v: nat, x: nat)
    requires AllocInv(p, c) && CanMerge(p, c, u, v) && x in p.occur
    ensures var c' := Merge(c, adj', u, v); x in c'.rep && Settled(p, c', -1, c'.rep[x])
  {
    assert Settled(p, c, -1, c.rep[x]);
    MergeSettled(p, c, adj', u, v, -1, c.rep[x]);
  }

  lemma MergeOpen(p: Problem, c: Core, adj': Adj, u: nat, v: nat, x: nat)
    requires AllocInv(p, c) && CanMerge(p, c, u, v)
    requires x in Merge(c, adj', u, v).remain || x in Merge(c, adj', u, v).spilled
    ensures var c' := Merge(c, adj', u, v);
      x in p.occur && !p.Pre(x) && x in c'.rep && c'.rep[x] == x && !(x in c'.remain && x in c'.spilled)
  {
    ActiveNotStacked(p, c, v);
  }

  /** Coalescing two non-adjacent nodes keeps everything. */
  lemma MergeKeeps(p: Problem, c: Core, adj': Adj, u: nat, v: nat)
    requires AllocInv(p, c) && CanMerge(p, c, u, v) && Merged(c.adj, adj', u, v)
    ensures AllocInv(p, Merge(c, adj', u, v))
  {
    var c' := Merge(c, adj', u, v);
    ActiveNotStacked(p, c, u);
    RenamedOk(p, c.rep, u, v);
    MergedWellFormed(p, c.adj, adj', c.remain, u, v);
    MergeStack(p, c, adj', u, v);
    MergeHomes(p, c, adj', u, v);
    MergeSeparated(p, c, adj', u, v);
    EdgesRealMerged(p, c, adj', u, v, Active(p, c.remain));
  }

  lemma MergeSeparated(p: Problem, c: Core, adj': Adj, u: nat, v: nat)
    requires AllocInv(p, c) && CanMerge(p, c, u, v) && Merged(c.adj, adj', u, v)
    requires RepOk(p, Merge(c, adj', u, v).rep)
    ensures Separated(p, Merge(c, adj', u, v))
  {
    var c' := Merge(c, adj', u, v);
    forall a, b | b in Neighbours(p.graph, a) ensures Apart(p, c', c'.rep[a], c'.rep[b]) {
      MergeApart(p, c, adj', u, v, c.rep[a], c.rep[b]);
    }
  }

  // ----- the end -----

  /** Every register that occurs has an allocable colour, precoloured ones their own, and interfering ones
      different ones. */
  ghost predicate Proper(p: Problem, ans: map<nat, nat>) {
    && ans.Keys == p.occur
    && (forall x :: x in ans ==> Allocable(p.float, ans[x]))
    && (forall x :: x in ans && p.Pre(x) ==> ans[x] == x)
    && (forall a, b {:trigger b in Neighbours(p.graph, a)} ::
          b in Neighbours(p.graph, a) ==> a in ans && b in ans && ans[a] != ans[b])
  }

  /** The stack has been popped down to entry `i`: its entries from there on have colours that differ from those
      of their neighbours. */
  ghost predicate Popped(p: Problem, c: Core, ans: map<nat, nat>, i: int)
    requires RepOk(p, c.rep)
  {
    && (forall x :: x in ans ==> Allocable(p.float, ans[x]))
    && (forall x :: x in p.occur && p.Pre(x) ==> x in ans && ans[x] == x)
    && (forall j :: 0 <= j < |c.stack| && i <= j ==> c.stack[j].id in ans)
    && (forall x :: x in ans ==> (p.Pre(x) && x in p.occur) || StackedAfter(c, i - 1, x))
    && (forall j, n :: 0 <= j < |c.stack| && i <= j && n in c.stack[j].nbrs && n in p.occur ==>
          c.rep[n] in ans && ans[c.rep[n]] != ans[c.stack[j].id])
  }

  ghost predicate Done(p: Problem, c: Core) {
    AllocInv(p, c) && c.remain == {} && c.spilled == []
  }

  lemma NeighboursColored(p: Problem, c: Core, ans: map<nat, nat>, i: nat)
    requires Done(p, c) && i < |c.stack| && Popped(p, c, ans, i + 1)
    ensures forall n :: n in c.stack[i].nbrs ==> n in p.occur && c.rep[n] in ans
    ensures c.stack[i].id !in ans && c.stack[i].id in c.rep && c.rep[c.stack[i].id] == c.stack[i].id
  {
    assert EntryOk(p, c, i);
    assert !StackedAfter(c, i, c.stack[i].id);
    forall n | n in c.stack[i].nbrs ensures n in p.occur && c.rep[n] in ans {
      assert Settled(p, c, i, c.rep[n]);
    }
  }

  lemma PopKeeps(p: Problem, c: Core, ans: map<nat, nat>, i: nat, color: nat)
    requires Done(p, c) && i < |c.stack| && Popped(p, c, ans, i + 1) && Allocable(p.float, color)
    requires forall n :: n in c.stack[i].nbrs && n in p.occur && c.rep[n] in ans ==> ans[c.rep[n]] != color
    ensures Popped(p, c, ans[c.stack[i].id := color], i)
  {
    NeighboursColored(p, c, ans, i);
    assert RepOk(p, c.rep);
    hide Done, RepOk;
    var ans' := ans[c.stack[i].id := color];
    forall x | x in ans' ensures (p.Pre(x) && x in p.occur) || StackedAfter(c, i - 1, x) {
      if StackedAfter(c, i, x) {
        var j: nat :| i < j < |c.stack| && c.stack[j].id == x;
        assert i - 1 < j;
      }
    }
    forall j, n | 0 <= j < |c.stack| && i <= j && n in c.stack[j].nbrs && n in p.occur
      ensures c.rep[n] in ans' && ans'[c.rep[n]] != ans'[c.stack[j].id]
    {
      assert i < j ==> c.rep[n] in ans && c.stack[j].id in ans;
    }
  }

  function Extended(p: Problem, rep: map<nat, nat>, ans: map<nat, nat>): map<nat, nat>
    requires forall x :: x in p.occur ==> x in rep && rep[x] in ans
  {
    map x | x in p.occur :: ans[rep[x]]
  }

  lemma AllColored(p: Problem, c: Core, ans: map<nat, nat>)
    requires Done(p, c) && Popped(p, c, ans, 0)
    ensures forall x :: x in p.occur ==> x in c.rep && c.rep[x] in ans
    ensures forall x :: x in p.occur && p.Pre(x) ==> c.rep[x] == x && ans[x] == x
  {
    forall x | x in p.occur ensures c.rep[x] in ans {
      assert Settled(p, c, -1, c.rep[x]);
    }
  }

  /** When nothing is spilled, the colours of the stack extend to a proper colouring of the original graph. */
  lemma FinalProper(p: Problem, c: Core, ans: map<nat, nat>)
    requires Done(p, c) && Popped(p, c, ans, 0)
    requires forall x :: x in p.occur ==> x in c.rep && c.rep[x] in ans
    ensures Proper(p, Extended(p, c.rep, ans))
  {
    hide Done, Popped, AllocInv;
    FinalFacts(p, c, ans);
    forall a, b | b in Neighbours(p.graph, a) ensures ans[c.rep[a]] != ans[c.rep[b]] { FinalApart(p, c, ans, a, b); }
  }

  lemma FinalFacts(p: Problem, c: Core, ans: map<nat, nat>)
    requires Done(p, c) && Popped(p, c, ans, 0)
    ensures forall x :: x in p.occur && p.Pre(x) ==> x in c.rep && c.rep[x] == x && x in ans && ans[x] == x
    ensures forall x :: x in ans ==> Allocable(p.float, ans[x])
    ensures forall a, b {:trigger b in Neighbours(p.graph, a)} :: b in Neighbours(p.graph, a) ==> a in p.occur && b in p.occur
  { }

  lemma FinalApart(p: Problem, c: Core, ans: map<nat, nat>, a: nat, b: nat)
    requires Done(p, c) && Popped(p, c, ans, 0) && b in Neighbours(p.graph, a)
    requires a in c.rep && b in c.rep && c.rep[a] in ans && c.rep[b] in ans
    ensures ans[c.rep[a]] != ans[c.rep[b]]
  {
    var x, y := c.rep[a], c.rep[b];
    assert Apart(p, c, x, y);
    if y in Neighbours(c.adj, x) {
      assert x in Active(p, c.remain) && y in Active(p, c.remain);
    }
  }

  // ----- there is always a free colour -----

  function AllocableSet(float: bool): set<nat> {
    set x | 0 <= x < Count(float) && Allocable(float, x)
  }

  lemma {:induction false} BelowSize(s: set<nat>, n: nat)
    requires forall x: nat :: x in s <==> x < n
    ensures |s| == n
  {
    if n > 0 { BelowSize(s - {n - 1}, n - 1); } else { assert s == {}; }
  }

  lemma AllocableCount(float: bool)
    ensures |AllocableSet(float)| == K(float)
  {
    var special: set<nat> := if float then {} else {SP, PC};
    BelowSize(AllocableSet(float) + special, Count(float));
  }

  /** Fewer than `K` forbidden colours leave one to choose: `cur_ans >= 0`. */
  lemma FreeColor(float: bool, flag: set<nat>)
    requires |flag| < K(float)
    ensures exists j :: Allocable(float, j) && j !in flag
  {
    AllocableCount(float);
    var all := AllocableSet(float);
    if forall j :: Allocable(float, j) ==> j in flag {
      FiniteSets.SubsetSize(all, flag);
    }
  }
}
