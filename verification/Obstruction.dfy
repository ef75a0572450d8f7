/** When a colouring allocator has to give registers up: a set of registers each of which has too many neighbours
    within the set and among the precoloured registers (src/arm/irc_coloring_alloc.hpp,
    src/arm/simple_coloring_alloc.hpp). */
module Obstruction {
  import opened InterferenceGraph
  import opened ColoringState
  import opened FiniteSets

  /** No register stands for another one. */
  function Identity(p: Problem): map<nat, nat> {
    map x | x in p.occur :: x
  }

  /** The classes that interfere with that of `x`. */
  ghost function ClassNbrs(p: Problem, rep: map<nat, nat>, x: nat): set<nat> {
    set y | y in p.occur && ClassesMeet(p, rep, x, y)
  }

  /** Every member of `s` has `K` or more neighbours in `s` and among the precoloured registers. */
  ghost predicate Obstructs(p: Problem, rep: map<nat, nat>, s: set<nat>) {
    s != {} && forall x :: x in s ==>
      && x in p.occur && !p.Pre(x) && x in rep && rep[x] == x
      && |ClassNbrs(p, rep, x) * (s + p.PreOccur())| >= K(p.float)
  }

  /** Some coalescing of the registers leaves such a set within `pool`. */
  ghost predicate ObstructedIn(p: Problem, pool: set<nat>) {
    exists rep, s :: RepOk(p, rep) && Obstructs(p, rep, s) && s <= pool
  }

  /** When the `k`-th register is given up, it belongs to an obstruction that none of the earlier ones belongs to. */
  ghost predicate Needed(p: Problem, spilled: seq<nat>, k: nat) {
    k < |spilled| &&
    exists rep, s :: RepOk(p, rep) && Obstructs(p, rep, s) && spilled[k] in s && forall j :: 0 <= j < k ==> spilled[j] !in s
  }

  ghost predicate AllNeeded(p: Problem, spilled: seq<nat>) {
    forall k :: 0 <= k < |spilled| ==> Needed(p, spilled, k)
  }

  lemma NoneNeeded(p: Problem)
    ensures AllNeeded(p, [])
  { }

  lemma StillNeeded(p: Problem, spilled: seq<nat>, x: nat, k: nat)
    requires Needed(p, spilled, k)
    ensures Needed(p, spilled + [x], k)
  {
    hide Obstructs, RepOk;
    var rep, s :| RepOk(p, rep) && Obstructs(p, rep, s) && spilled[k] in s && forall j :: 0 <= j < k ==> spilled[j] !in s;
    var all := spilled + [x];
    assert all[k] in s && forall j :: 0 <= j < k ==> all[j] !in s;
  }

  lemma NowNeeded(p: Problem, c: Core, x: nat)
    requires RepOk(p, c.rep) && Obstructs(p, c.rep, c.remain) && x in c.remain && NoneSpilled(c, c.remain)
    ensures Needed(p, c.spilled + [x], |c.spilled|)
  {
    hide Obstructs, RepOk;
    var k, all := |c.spilled|, c.spilled + [x];
    assert all[k] in c.remain && forall j :: 0 <= j < k ==> all[j] !in c.remain;
  }

  /** What is given up when nothing has low degree is needed. */
  lemma OneMoreNeeded(p: Problem, c: Core, x: nat)
    requires AllocInv(p, c) && x in c.remain && forall y :: y in c.remain ==> |Neighbours(c.adj, y)| >= K(p.float)
    requires AllNeeded(p, c.spilled)
    ensures AllNeeded(p, c.spilled + [x])
  {
    hide AllocInv, Obstructs, RepOk, K, Needed;
    StuckObstructs(p, c);
    RemainNotSpilled(p, c);
    NowNeeded(p, c, x);
    forall k | 0 <= k < |c.spilled| ensures Needed(p, c.spilled + [x], k) { StillNeeded(p, c.spilled, x, k); }
  }

  lemma RemainNotSpilled(p: Problem, c: Core)
    requires AllocInv(p, c)
    ensures NoneSpilled(c, c.remain)
  { }

  ghost predicate NoneSpilled(c: Core, s: set<nat>) {
    forall x :: x in s ==> x !in c.spilled
  }

  /** The graph itself has such a set. */
  ghost predicate Tight(p: Problem) {
    exists s :: Obstructs(p, Identity(p), s)
  }

  // ----- giving up needs an obstruction -----

  /** When no node that remains has low degree, what remains is one. */
  lemma StuckObstructs(p: Problem, c: Core)
    requires AllocInv(p, c) && c.remain != {} && forall x :: x in c.remain ==> |Neighbours(c.adj, x)| >= K(p.float)
    ensures RepOk(p, c.rep) && Obstructs(p, c.rep, c.remain)
  {
    hide K, ClassesMeet;
    forall x | x in c.remain
      ensures x in p.occur && !p.Pre(x) && x in c.rep && c.rep[x] == x
      ensures |ClassNbrs(p, c.rep, x) * (c.remain + p.PreOccur())| >= K(p.float)
    {
      forall y | y in Neighbours(c.adj, x) ensures y in ClassNbrs(p, c.rep, x) * (c.remain + p.PreOccur()) {
        assert y in Active(p, c.remain) && ClassesMeet(p, c.rep, x, y);
      }
      SubsetSize(Neighbours(c.adj, x), ClassNbrs(p, c.rep, x) * (c.remain + p.PreOccur()));
    }
  }

  // ----- what is on the stack is in no obstruction -----

  function Images(rep: map<nat, nat>, s: set<nat>): set<nat> {
    set n | n in s && n in rep :: rep[n]
  }

  lemma {:induction false} FewImages(rep: map<nat, nat>, s: set<nat>)
    ensures |Images(rep, s)| <= |s|
    decreases |s|
  {
    if s != {} {
      var x := Pick(s);
      FewImages(rep, s - {x});
      if x in rep {
        assert Images(rep, s) == Images(rep, s - {x}) + {rep[x]};
      } else {
        assert Images(rep, s) == Images(rep, s - {x});
      }
    } else {
      assert Images(rep, s) == {};
    }
  }

  /** The first entry of the stack that belongs to `s`. */
  lemma {:induction false} FirstOf(stack: seq<Pushed>, s: set<nat>, j: nat) returns (i: nat)
    requires j < |stack| && stack[j].id in s
    ensures i <= j && stack[i].id in s && forall k :: 0 <= k < i ==> stack[k].id !in s
  {
    if k: nat :| k < j && stack[k].id in s {
      i := FirstOf(stack, s, k);
    } else {
      i := j;
    }
  }

  /** A neighbour of a stacked register, later on the stack or still there, is among those it remembers. */
  lemma RememberedNbr(p: Problem, c: Core, s: set<nat>, i: nat, y: nat)
    requires AllocInv(p, c) && NoneSpilled(c, s) && i < |c.stack| && forall k :: 0 <= k < i ==> c.stack[k].id !in s
    requires ClassesMeet(p, c.rep, c.stack[i].id, y) && (y in s || p.Pre(y))
    ensures y in Images(c.rep, c.stack[i].nbrs)
  {
    var x := c.stack[i].id;
    assert EntryOk(p, c, i);
    var a, b :| b in Neighbours(p.graph, a) && a in c.rep && b in c.rep && c.rep[a] == x && c.rep[b] == y;
    assert Apart(p, c, x, y);
    assert y !in Neighbours(c.adj, x);
    if Covered(p, c, x, y) {
      var j, n :| 0 <= j < |c.stack| && c.stack[j].id == x && n in c.stack[j].nbrs && n in c.rep && c.rep[n] == y;
      SameEntry(p, c, i, j);
    } else {
      var j, n :| 0 <= j < |c.stack| && c.stack[j].id == y && n in c.stack[j].nbrs && n in c.rep && c.rep[n] == x;
      assert EntryOk(p, c, j);
      NotRemembered(p, c, i, j, n);
    }
  }

  lemma SameEntry(p: Problem, c: Core, i: nat, j: nat)
    requires AllocInv(p, c) && i < |c.stack| && j < |c.stack| && c.stack[i].id == c.stack[j].id
    ensures i == j
  {
    var x := c.stack[i].id;
    assert StackedAfter(c, i, x) <== i < j;
    assert StackedAfter(c, j, x) <== j < i;
    assert EntryOk(p, c, i) && EntryOk(p, c, j);
  }

  /** A later entry remembers nothing that was pushed before it. */
  lemma NotRemembered(p: Problem, c: Core, i: nat, j: nat, n: nat)
    requires AllocInv(p, c) && i < |c.stack| && j < |c.stack| && i != j && n in c.stack[j].nbrs && n in c.rep
    requires c.rep[n] == c.stack[i].id
    ensures j < i
  {
    assert EntryOk(p, c, i) && EntryOk(p, c, j);
    assert Settled(p, c, j, c.stack[i].id);
    var k: nat :| j < k < |c.stack| && c.stack[k].id == c.stack[i].id;
    SameEntry(p, c, i, k);
  }

  /** Every obstruction that contains nothing given up is among the nodes that remain. */
  lemma ObstructionRemains(p: Problem, c: Core, s: set<nat>)
    requires AllocInv(p, c) && Obstructs(p, c.rep, s) && NoneSpilled(c, s)
    ensures s <= c.remain
  {
    hide AllocInv, Obstructs;
    forall x | x in s ensures x in c.remain {
      MemberHome(p, c, s, x);
      if j: nat :| j < |c.stack| && c.stack[j].id == x { NoneStacked(p, c, s, j); }
    }
  }

  lemma MemberHome(p: Problem, c: Core, s: set<nat>, x: nat)
    requires AllocInv(p, c) && Obstructs(p, c.rep, s) && NoneSpilled(c, s) && x in s
    ensures x in c.remain || exists j: nat :: j < |c.stack| && c.stack[j].id == x
  {
    assert Settled(p, c, -1, c.rep[x]);
    if StackedAfter(c, -1, x) {
      var j: nat :| -1 < j < |c.stack| && c.stack[j].id == x;
    }
  }

  /** The first stacked member would have too few neighbours. */
  lemma NoneStacked(p: Problem, c: Core, s: set<nat>, j: nat)
    requires AllocInv(p, c) && Obstructs(p, c.rep, s) && NoneSpilled(c, s) && j < |c.stack|
    ensures c.stack[j].id !in s
  {
    if c.stack[j].id in s {
      var i := FirstOf(c.stack, s, j);
      FewRemembered(p, c, s, i);
    }
  }

  lemma FewRemembered(p: Problem, c: Core, s: set<nat>, i: nat)
    requires AllocInv(p, c) && NoneSpilled(c, s) && i < |c.stack| && forall k :: 0 <= k < i ==> c.stack[k].id !in s
    ensures |ClassNbrs(p, c.rep, c.stack[i].id) * (s + p.PreOccur())| < K(p.float)
  {
    hide K, ClassesMeet;
    var e := c.stack[i];
    assert EntryOk(p, c, i);
    forall y | y in ClassNbrs(p, c.rep, e.id) * (s + p.PreOccur()) ensures y in Images(c.rep, e.nbrs) {
      RememberedNbr(p, c, s, i, y);
    }
    SubsetSize(ClassNbrs(p, c.rep, e.id) * (s + p.PreOccur()), Images(c.rep, e.nbrs));
    FewImages(c.rep, e.nbrs);
  }

  /** When no node remains, what has been given up breaks every obstruction. */
  lemma NothingLeftIsFree(p: Problem, c: Core)
    requires AllocInv(p, c) && c.remain == {}
    ensures RepOk(p, c.rep) && forall s :: Obstructs(p, c.rep, s) ==> !NoneSpilled(c, s)
  {
    forall s | Obstructs(p, c.rep, s) ensures !NoneSpilled(c, s) {
      if NoneSpilled(c, s) { ObstructionRemains(p, c, s); }
    }
  }

  /** When all registers are on the stack, there is no obstruction. */
  lemma DoneIsFree(p: Problem, c: Core)
    requires Done(p, c)
    ensures RepOk(p, c.rep) && forall s :: !Obstructs(p, c.rep, s)
  {
    forall s ensures !Obstructs(p, c.rep, s) {
      if Obstructs(p, c.rep, s) { ObstructionRemains(p, c, s); }
    }
  }

  // ----- dissolving a graph node by node -----

  /** Every set of the remaining nodes has a member with few neighbours in the set and among the precoloured ones. */
  ghost predicate Dissolves(p: Problem, adj: Adj, remain: set<nat>) {
    forall s :: s != {} && s <= remain ==> HasLow(p, adj, s)
  }

  ghost predicate HasLow(p: Problem, adj: Adj, s: set<nat>) {
    exists x :: x in s && |Neighbours(adj, x) * (s + p.PreOccur())| < K(p.float)
  }

  /** No register of the class is precoloured, and the graph dissolves. */
  ghost predicate Easy(p: Problem, c: Core) {
    p.PreOccur() == {} && Dissolves(p, c.adj, c.remain)
  }

  lemma StartDissolves(p: Problem)
    requires p.Valid() && !Tight(p)
    ensures Dissolves(p, Start(p).adj, Start(p).remain)
  {
    hide K;
    var c := Start(p);
    forall s | s != {} && s <= c.remain ensures HasLow(p, c.adj, s) {
      assert !Obstructs(p, Identity(p), s);
      var x :| x in s && |ClassNbrs(p, Identity(p), x) * (s + p.PreOccur())| < K(p.float);
      SameNbrs(p, x);
    }
  }

  lemma SameNbrs(p: Problem, x: nat)
    requires p.Valid() && x in p.occur
    ensures ClassNbrs(p, Identity(p), x) == Neighbours(p.graph, x)
  {
    forall y ensures y in ClassNbrs(p, Identity(p), x) <==> y in Neighbours(p.graph, x) {
      if y in Neighbours(p.graph, x) { assert x in p.occur && y in p.occur && Identity(p)[x] == x && Identity(p)[y] == y; }
    }
  }

  lemma PushDissolves(p: Problem, adj: Adj, adj': Adj, remain: set<nat>, x: nat)
    requires Dissolves(p, adj, remain) && Removed(adj, adj', x) && !p.Pre(x)
    ensures Dissolves(p, adj', remain - {x})
  {
    hide K;
    forall s | s != {} && s <= remain - {x} ensures HasLow(p, adj', s) {
      assert HasLow(p, adj, s);
      var y :| y in s && |Neighbours(adj, y) * (s + p.PreOccur())| < K(p.float);
      assert Neighbours(adj', y) * (s + p.PreOccur()) == Neighbours(adj, y) * (s + p.PreOccur());
    }
  }

  /** What is stuck does not dissolve. */
  lemma StuckHasNoLow(p: Problem, adj: Adj, remain: set<nat>)
    requires Dissolves(p, adj, remain) && Within(adj, Active(p, remain))
    requires forall x :: x in remain ==> |Neighbours(adj, x)| >= K(p.float)
    ensures remain == {}
  {
    hide K;
    forall x | x in remain ensures Neighbours(adj, x) * (remain + p.PreOccur()) == Neighbours(adj, x) { }
    assert HasLow(p, adj, remain) ==> remain == {};
  }

  /** Without precoloured registers, coalescing that passes Briggs' test does not spoil the graph. */
  lemma MergeDissolves(p: Problem, adj: Adj, adj': Adj, remain: set<nat>, u: nat, v: nat)
    requires Dissolves(p, adj, remain) && Merged(adj, adj', u, v) && WellFormed(adj, Active(p, remain))
    requires p.PreOccur() == {} && u in remain && v in remain && u != v && v !in Neighbours(adj, u)
    requires |Significant(p.float, adj, u, v)| < K(p.float)
    ensures Dissolves(p, adj', remain - {v})
  {
    hide K, WellFormed;
    forall s | s != {} && s <= remain - {v} ensures HasLow(p, adj', s) {
      if u in s { MergedHasLow(p, adj, adj', s, u, v); } else { OthersHaveLow(p, adj, adj', remain, s, u, v); }
    }
  }

  /** The neighbours of the coalesced node whose degree is then `K` or more. */
  function Significant(float: bool, adj: Adj, u: nat, v: nat): set<nat> {
    set n | n in Neighbours(adj, u) + Neighbours(adj, v) && |NbrsAfter(adj, u, v, n)| >= K(float)
  }

  lemma OthersHaveLow(p: Problem, adj: Adj, adj': Adj, remain: set<nat>, s: set<nat>, u: nat, v: nat)
    requires Dissolves(p, adj, remain) && Merged(adj, adj', u, v) && p.PreOccur() == {}
    requires s != {} && s <= remain && u !in s && v !in s
    ensures HasLow(p, adj', s)
  {
    hide K;
    assert HasLow(p, adj, s);
    var y :| y in s && |Neighbours(adj, y) * (s + p.PreOccur())| < K(p.float);
    assert Neighbours(adj', y) == NbrsAfter(adj, u, v, y);
    assert Neighbours(adj', y) * (s + p.PreOccur()) == Neighbours(adj, y) * (s + p.PreOccur());
  }

  /** Were all members of high degree, so would be the neighbours of the coalesced node among them, of which there
      are too few. */
  lemma MergedHasLow(p: Problem, adj: Adj, adj': Adj, s: set<nat>, u: nat, v: nat)
    requires Merged(adj, adj', u, v) && p.PreOccur() == {} && u in s && u != v
    requires |Significant(p.float, adj, u, v)| < K(p.float)
    ensures HasLow(p, adj', s)
  {
    hide K;
    var k := K(p.float);
    assert Neighbours(adj', u) == NbrsAfter(adj, u, v, u);
    if !HasLow(p, adj', s) {
      forall y | y in Neighbours(adj', u) * (s + p.PreOccur()) ensures y in Significant(p.float, adj, u, v) {
        assert Neighbours(adj', y) == NbrsAfter(adj, u, v, y);
        SubsetSize(Neighbours(adj', y) * (s + p.PreOccur()), Neighbours(adj', y));
      }
      SubsetSize(Neighbours(adj', u) * (s + p.PreOccur()), Significant(p.float, adj, u, v));
    }
  }
}
