/** The interference graph of one register class (`build_graph`,
    src/arm/irc_coloring_alloc.hpp and src/arm/simple_coloring_alloc.hpp). */
module InterferenceGraph {
  import opened Liveness
  import opened FiniteSets

  type Adj = map<nat, set<nat>>

  function Neighbours(adj: Adj, x: nat): set<nat> {
    if x in adj then adj[x] else {}
  }

  function WithEdge(adj: Adj, x: nat, y: nat): Adj {
    var adj' := adj[x := Neighbours(adj, x) + {y}];
    adj'[y := Neighbours(adj', y) + {x}]
  }

  ghost predicate Symmetric(adj: Adj) {
    forall x, y :: y in Neighbours(adj, x) ==> x in Neighbours(adj, y)
  }

  ghost predicate Irreflexive(adj: Adj) {
    forall x :: x !in Neighbours(adj, x)
  }

  ghost predicate Within(adj: Adj, nodes: set<nat>) {
    forall x, y {:trigger y in Neighbours(adj, x)} :: y in Neighbours(adj, x) ==> x in nodes && y in nodes
  }

  ghost predicate Extends(adj: Adj, adj': Adj) {
    forall x :: Neighbours(adj, x) <= Neighbours(adj', x)
  }

  /** Every two registers of `s` interfere. */
  ghost predicate Clique(adj: Adj, s: set<nat>) {
    forall x, y :: x in s && y in s && x != y ==> y in Neighbours(adj, x)
  }

  ghost predicate WellFormed(adj: Adj, nodes: set<nat>) {
    Symmetric(adj) && Irreflexive(adj) && Within(adj, nodes)
  }

  /** New edges only within `s`. */
  ghost predicate AddsWithin(adj: Adj, adj': Adj, s: set<nat>) {
    forall x, y {:trigger y in Neighbours(adj', x)} :: y in Neighbours(adj', x) ==> y in Neighbours(adj, x) || (x in s && y in s)
  }

  lemma AddsNothing(adj: Adj, s: set<nat>)
    ensures AddsWithin(adj, adj, s)
  { }

  lemma AddsTrans(a: Adj, b: Adj, c: Adj, s: set<nat>, t: set<nat>, u: set<nat>)
    requires AddsWithin(a, b, s) && AddsWithin(b, c, t) && s <= u && t <= u
    ensures AddsWithin(a, c, u)
  { }

  lemma EdgeWithin(adj: Adj, x: nat, y: nat, s: set<nat>)
    requires x in s && y in s
    ensures AddsWithin(adj, WithEdge(adj, x, y), s)
  { }

  lemma EdgeKeeps(adj: Adj, x: nat, y: nat, nodes: set<nat>)
    requires WellFormed(adj, nodes) && x != y && x in nodes && y in nodes
    ensures WellFormed(WithEdge(adj, x, y), nodes) && Extends(adj, WithEdge(adj, x, y))
    ensures y in Neighbours(WithEdge(adj, x, y), x)
  {
    var adj' := WithEdge(adj, x, y);
    forall z ensures Neighbours(adj', z) == Neighbours(adj, z) + (if z == x then {y} else if z == y then {x} else {}) { }
    forall z ensures z !in Neighbours(adj', z) { assert z !in Neighbours(adj, z); }
    forall a, b | b in Neighbours(adj', a) ensures a in Neighbours(adj', b) {
      assert b in Neighbours(adj, a) ==> a in Neighbours(adj, b);
    }
    forall a, b | b in Neighbours(adj', a) ensures a in nodes && b in nodes {
      if b in Neighbours(adj, a) { assert a in nodes; }
    }
  }

  // ----- the registers of one class -----

  predicate InClass(float: bool, r: Reg) { r.float == float && Tracked(r) }

  /** The class members of a register list, in order. */
  function Ids(float: bool, regs: seq<Reg>): (ids: seq<nat>)
    ensures forall x :: x in ids <==> InClass(float, Reg(float, x)) && Reg(float, x) in regs
  {
    if regs == [] then []
    else (if InClass(float, regs[0]) then [regs[0].id] else []) + Ids(float, regs[1..])
  }

  function IdSet(float: bool, regs: set<Reg>): set<nat> {
    set r | r in regs && r.float == float :: r.id
  }

  function Elems(s: seq<nat>): set<nat> {
    set x | x in s
  }

  /** The class registers live before instruction `i` when `out` are live at the end of the block. */
  function LiveBefore(float: bool, code: seq<Inst>, out: set<nat>, i: nat): set<nat>
    requires i <= |code|
    decreases |code| - i
  {
    if i == |code| then out
    else (LiveBefore(float, code, out, i + 1) - Elems(Ids(float, code[i].defs))) + Elems(Ids(float, code[i].uses))
  }

  /** What is live after instruction `i` or defined by it. */
  function AtInst(float: bool, code: seq<Inst>, out: set<nat>, i: nat): set<nat>
    requires i < |code|
  {
    LiveBefore(float, code, out, i + 1) + Elems(Ids(float, code[i].defs))
  }

  /** The graph separates everything that is simultaneously live or defined in the block. */
  ghost predicate BlockCliques(float: bool, adj: Adj, code: seq<Inst>, out: set<nat>) {
    forall i :: 0 <= i < |code| ==> Clique(adj, AtInst(float, code, out, i))
  }

  /** Somewhere in the block both registers are live, or live after an instruction or defined by it. */
  ghost predicate Together(float: bool, code: seq<Inst>, out: set<nat>, x: nat, y: nat) {
    || (x in LiveBefore(float, code, out, 0) && y in LiveBefore(float, code, out, 0))
    || (x in out && y in out)
    || exists i :: 0 <= i < |code| && x in AtInst(float, code, out, i) && y in AtInst(float, code, out, i)
  }

  /** All edges new since `adj0` are between registers that are together in the block. */
  ghost predicate OnlyTogether(float: bool, adj0: Adj, adj: Adj, code: seq<Inst>, out: set<nat>) {
    forall x, y {:trigger y in Neighbours(adj, x)} :: y in Neighbours(adj, x) ==>
      y in Neighbours(adj0, x) || Together(float, code, out, x, y)
  }

  lemma OnlyStep(float: bool, adj0: Adj, adj1: Adj, adj2: Adj, code: seq<Inst>, out: set<nat>, s: set<nat>)
    requires OnlyTogether(float, adj0, adj1, code, out) && AddsWithin(adj1, adj2, s)
    requires forall x, y :: x in s && y in s ==> Together(float, code, out, x, y)
    ensures OnlyTogether(float, adj0, adj2, code, out)
  { }

  lemma InstTogether(float: bool, code: seq<Inst>, out: set<nat>, i: nat, x: nat, y: nat)
    requires i < |code| && x in AtInst(float, code, out, i) && y in AtInst(float, code, out, i)
    ensures Together(float, code, out, x, y)
  { }

  ghost predicate CliquesFrom(float: bool, adj: Adj, code: seq<Inst>, out: set<nat>, k: nat) {
    forall i :: k <= i < |code| ==> Clique(adj, AtInst(float, code, out, i))
  }

  /** Registers of the class that the code mentions. */
  predicate Mentions(float: bool, code: seq<Inst>, x: nat) {
    exists i :: 0 <= i < |code| && (x in Ids(float, code[i].defs) || x in Ids(float, code[i].uses))
  }

  // ----- construction -----

  lemma CliqueMono(adj: Adj, adj': Adj, s: set<nat>)
    requires Clique(adj, s) && Extends(adj, adj')
    ensures Clique(adj', s)
  { }

  lemma CliquesMono(float: bool, adj: Adj, adj': Adj, code: seq<Inst>, out: set<nat>, k: nat)
    requires CliquesFrom(float, adj, code, out, k) && Extends(adj, adj')
    ensures CliquesFrom(float, adj', code, out, k)
  {
    forall i | k <= i < |code| ensures Clique(adj', AtInst(float, code, out, i)) {
      CliqueMono(adj, adj', AtInst(float, code, out, i));
    }
  }

  lemma CliqueSub(adj: Adj, s: set<nat>, t: set<nat>)
    requires Clique(adj, s) && t <= s
    ensures Clique(adj, t)
  { }

  lemma CliqueAdd(adj: Adj, s: set<nat>, x: nat)
    requires Symmetric(adj) && Clique(adj, s)
    requires forall y :: y in s && y != x ==> y in Neighbours(adj, x)
    ensures Clique(adj, s + {x})
  { }

  class Builder {
    var adj: Adj
    var occur: set<nat>
    var moves: map<nat, map<nat, int>>

    constructor ()
      ensures adj == map[] && occur == {} && moves == map[]
    {
      adj, occur, moves := map[], {}, map[];
    }

    method AddEdge(x: nat, y: nat, ghost nodes: set<nat>)
      requires WellFormed(adj, nodes) && x != y && x in nodes && y in nodes
      modifies this`adj
      ensures WellFormed(adj, nodes) && Extends(old(adj), adj) && y in Neighbours(adj, x)
      ensures AddsWithin(old(adj), adj, {x, y})
    {
      EdgeKeeps(adj, x, y, nodes);
      EdgeWithin(adj, x, y, {x, y});
      adj := WithEdge(adj, x, y);
    }

    /** Edges from `x` to every member of `live`. */
    method ConnectTo(x: nat, live: set<nat>, ghost nodes: set<nat>)
      requires WellFormed(adj, nodes) && x in nodes && live <= nodes && x !in live
      modifies this`adj
      ensures WellFormed(adj, nodes) && Extends(old(adj), adj)
      ensures forall y :: y in live ==> y in Neighbours(adj, x)
      ensures AddsWithin(old(adj), adj, live + {x})
    {
      hide AddsWithin;
      AddsNothing(adj, live + {x});
      var rest := live;
      while rest != {}
        invariant rest <= live && AddsWithin(old(adj), adj, live + {x})
        invariant WellFormed(adj, nodes) && Extends(old(adj), adj)
        invariant forall y :: y in live - rest ==> y in Neighbours(adj, x)
        decreases rest
      {
        PickNode(rest);
        var o :| o in rest;
        rest := rest - {o};
        ghost var adj0 := adj;
        AddEdge(x, o, nodes);
        AddsTrans(old(adj), adj0, adj, live + {x}, {x, o}, live + {x});
      }
    }

    /** Edges between all distinct members of a list. */
    method ConnectAll(list: seq<nat>, ghost nodes: set<nat>)
      requires WellFormed(adj, nodes) && forall x :: x in list ==> x in nodes
      modifies this`adj
      ensures WellFormed(adj, nodes) && Extends(old(adj), adj)
      ensures Clique(adj, Elems(list)) && AddsWithin(old(adj), adj, Elems(list))
    {
      hide AddsWithin;
      AddsNothing(adj, Elems(list));
      for i := 0 to |list|
        invariant WellFormed(adj, nodes) && Extends(old(adj), adj) && AddsWithin(old(adj), adj, Elems(list))
        invariant Clique(adj, Elems(list[..i]))
      {
        ghost var adj0 := adj;
        for j := 0 to i
          invariant WellFormed(adj, nodes) && Extends(old(adj), adj) && Extends(adj0, adj)
          invariant AddsWithin(old(adj), adj, Elems(list))
          invariant forall k :: 0 <= k < j && list[k] != list[i] ==> list[k] in Neighbours(adj, list[i])
        {
          if list[j] != list[i] {
            ghost var adj1 := adj;
            AddEdge(list[i], list[j], nodes);
            AddsTrans(old(adj), adj1, adj, Elems(list), {list[i], list[j]}, Elems(list));
          }
        }
        CliqueMono(adj0, adj, Elems(list[..i]));
        CliqueAdd(adj, Elems(list[..i]), list[i]);
        assert Elems(list[..i + 1]) == Elems(list[..i]) + {list[i]};
      }
      assert list[..|list|] == list;
    }

    /** Registers that the instruction mentions, and a move edge if it is a move. */
    method Note(float: bool, i: Inst)
      requires MovesOk(moves, occur)
      modifies this`occur, this`moves
      ensures occur == old(occur) + Elems(Ids(float, i.defs)) + Elems(Ids(float, i.uses))
      ensures MovesOk(moves, occur)
      ensures CountsMoves(float, old(moves), moves, [i])
    {
      NoMoves(float, moves, []);
      MoveCounted(float, i);
      occur := occur + Elems(Ids(float, i.defs)) + Elems(Ids(float, i.uses));
      MovesMono(moves, old(occur), occur);
      if i.op == MOVE && |i.defs| == 1 && |i.uses| >= 1 {
        var dst, src := i.defs[0], i.uses[|i.uses| - 1];
        if dst != src && InClass(float, dst) && InClass(float, src) {
          assert src.id in Ids(float, i.uses) && dst.id in Ids(float, i.defs);
          MoveEdgeKeeps(moves, occur, src.id, dst.id, 1);
          moves := WithMove(moves, src.id, dst.id, 1);
          OneMove(float, old(moves), i, src.id, dst.id);
        }
      }
    }

    /** The uses of an instruction become live. */
    method AddUses(float: bool, uses: seq<nat>, live0: set<nat>, ghost nodes: set<nat>) returns (live: set<nat>)
      requires WellFormed(adj, nodes) && Clique(adj, live0) && live0 <= nodes
      requires forall x :: x in uses ==> x in nodes
      modifies this`adj
      ensures WellFormed(adj, nodes) && Extends(old(adj), adj)
      ensures live == live0 + Elems(uses) && live <= nodes && Clique(adj, live)
      ensures AddsWithin(old(adj), adj, live)
    {
      hide AddsWithin;
      live := live0;
      AddsNothing(adj, live);
      for k := 0 to |uses|
        invariant AddsWithin(old(adj), adj, live)
        invariant WellFormed(adj, nodes) && Extends(old(adj), adj)
        invariant live == live0 + Elems(uses[..k]) && live <= nodes && Clique(adj, live)
      {
        var r := uses[k];
        ghost var adj0 := adj;
        if r !in live {
          ConnectTo(r, live, nodes);
          AddsTrans(old(adj), adj0, adj, live, live + {r}, live + {r});
          CliqueMono(adj0, adj, live);
          CliqueAdd(adj, live, r);
          live := live + {r};
        }
        assert Elems(uses[..k + 1]) == Elems(uses[..k]) + {r};
      }
      assert uses[..|uses|] == uses;
    }

    /** The definitions of the preceding instruction interfere with what is live after it. */
    method AddDefs(defs: seq<nat>, uses: seq<nat>, live: set<nat>, ghost nodes: set<nat>)
      requires WellFormed(adj, nodes) && Clique(adj, live) && live <= nodes
      requires (forall x :: x in defs ==> x in nodes) && (forall x :: x in uses ==> x in nodes)
      modifies this`adj
      ensures WellFormed(adj, nodes) && Extends(old(adj), adj)
      ensures Clique(adj, live + Elems(defs))
      ensures (forall x :: x in uses ==> x in live) ==> AddsWithin(old(adj), adj, live + Elems(defs))
    {
      hide AddsWithin;
      AddsNothing(adj, live + Elems(defs));
      for k := 0 to |defs|
        invariant AddsWithin(old(adj), adj, live + Elems(defs))
        invariant WellFormed(adj, nodes) && Extends(old(adj), adj)
        invariant forall j, y :: 0 <= j < k && y in live && y != defs[j] ==> y in Neighbours(adj, defs[j])
      {
        ghost var adj0 := adj;
        if defs[k] !in live {
          ConnectTo(defs[k], live, nodes);
          AddsTrans(old(adj), adj0, adj, live + Elems(defs), live + {defs[k]}, live + Elems(defs));
        }
        assert forall j, y :: 0 <= j < k && y in live && y != defs[j] ==> y in Neighbours(adj0, defs[j]);
      }
      ghost var adj1 := adj;
      ConnectAll(uses + defs, nodes);
      if forall x :: x in uses ==> x in live {
        assert Elems(uses + defs) <= live + Elems(defs);
        AddsTrans(old(adj), adj1, adj, live + Elems(defs), Elems(uses + defs), live + Elems(defs));
      }
      forall x, y | x in live + Elems(defs) && y in live + Elems(defs) && x != y ensures y in Neighbours(adj, x) {
        assert x in live && y in live ==> y in Neighbours(adj1, x);
        assert x in Elems(defs) ==> x in Elems(uses + defs);
        assert y in Elems(defs) ==> y in Elems(uses + defs);
        assert x in Elems(defs) && y in live ==> y in Neighbours(adj1, x);
        assert y in Elems(defs) && x in live ==> x in Neighbours(adj1, y);
      }
    }

    /** What is live at the end of the block and what its last instruction defines. */
    method StartBlock(float: bool, code: seq<Inst>, out: set<nat>, ghost nodes: set<nat>)
      requires WellFormed(adj, nodes) && out <= nodes
      requires MentionedAre(float, code, nodes)
      modifies this`adj
      ensures Extends(old(adj), adj) && OnlyTogether(float, old(adj), adj, code, out)
      ensures ScannedTo(float, adj, nodes, code, out, |code|, out)
    {
      hide Together, AddsWithin;
      var k := |code|;
      var temp := Listed(out);
      if k > 0 {
        MentionsAt(float, code, k - 1);
        temp := temp + Ids(float, code[k - 1].defs);
      }
      ConnectAll(temp, nodes);
      ghost var within := if k > 0 then AtInst(float, code, out, k - 1) else out;
      assert Elems(temp) == within;
      forall x, y | x in within && y in within ensures Together(float, code, out, x, y) {
        if k > 0 { InstTogether(float, code, out, k - 1, x, y); } else { EndTogether(float, code, out, x, y); }
      }
      OnlyStep(float, old(adj), old(adj), adj, code, out, within);
      CliqueSub(adj, Elems(temp), out);
      if k > 0 { CliqueSub(adj, Elems(temp), AtInst(float, code, out, k - 1)); }
    }

    /** One block, backwards from what is live at its end. */
    method ScanBlock(float: bool, code: seq<Inst>, out: set<nat>, ghost nodes: set<nat>)
      requires WellFormed(adj, nodes) && out <= nodes && MentionedAre(float, code, nodes)
      requires MovesOk(moves, occur)
      modifies this
      ensures WellFormed(adj, nodes) && Extends(old(adj), adj)
      ensures BlockCliques(float, adj, code, out) && Clique(adj, LiveBefore(float, code, out, 0)) && Clique(adj, out)
      ensures OnlyTogether(float, old(adj), adj, code, out)
      ensures MovesOk(moves, occur) && CountsMoves(float, old(moves), moves, code)
      ensures Noted(float, code, 0, old(occur), occur)
    {
      hide OnlyTogether, CountsMoves;
      var live, k := out, |code|;
      StartBlock(float, code, out, nodes);
      ghost var adj1 := adj;
      NotedNone(float, code, occur);
      NoMoves(float, moves, code[k..]);
      while k > 0
        invariant 0 <= k <= |code|
        invariant ScannedTo(float, adj, nodes, code, out, k, live)
        invariant Extends(old(adj), adj) && MovesOk(moves, occur) && Noted(float, code, k, old(occur), occur)
        invariant Extends(adj1, adj) && OnlyTogether(float, old(adj), adj, code, out)
        invariant CountsMoves(float, old(moves), moves, code[k..])
      {
        k := k - 1;
        ghost var adj2, moves2 := adj, moves;
        live := ScanStep(float, code, out, k, live, nodes, old(adj), old(occur));
        ExtendsTrans(adj1, adj2, adj);
        MovesBack(float, old(moves), moves2, moves, code, k);
      }
      assert code[0..] == code;
      EndClique(float, adj1, adj, nodes, code, out);
      AllScanned(float, adj, nodes, code, out, live);
    }

    method ScanStep(float: bool, code: seq<Inst>, out: set<nat>, k: nat, live0: set<nat>, ghost nodes: set<nat>,
                    ghost adj0: Adj, ghost occur0: set<nat>)
      returns (live: set<nat>)
      requires k < |code| && MentionedAre(float, code, nodes)
      requires ScannedTo(float, adj, nodes, code, out, k + 1, live0)
      requires Extends(adj0, adj) && MovesOk(moves, occur) && Noted(float, code, k + 1, occur0, occur)
      requires OnlyTogether(float, adj0, adj, code, out)
      modifies this
      ensures ScannedTo(float, adj, nodes, code, out, k, live) && Extends(old(adj), adj)
      ensures Extends(adj0, adj) && MovesOk(moves, occur) && Noted(float, code, k, occur0, occur)
      ensures OnlyTogether(float, adj0, adj, code, out) && CountsMoves(float, old(moves), moves, [code[k]])
    {
      hide OnlyTogether, CountsMoves, Together, AddsWithin;
      live := StepBack(float, code, out, k, live0, nodes);
      ghost var within := if k > 0 then AtInst(float, code, out, k - 1) else LiveBefore(float, code, out, 0);
      forall x, y | x in within && y in within ensures Together(float, code, out, x, y) {
        if k > 0 { InstTogether(float, code, out, k - 1, x, y); } else { StartTogether(float, code, out, x, y); }
      }
      OnlyStep(float, adj0, old(adj), adj, code, out, within);
      ExtendsTrans(adj0, old(adj), adj);
      NotedStep(float, code, k, occur0, old(occur), occur);
    }

    /** One instruction of the backward scan. */
    method StepBack(float: bool, code: seq<Inst>, out: set<nat>, k: nat, live0: set<nat>, ghost nodes: set<nat>)
      returns (live: set<nat>)
      requires k < |code| && MentionedAre(float, code, nodes) && MovesOk(moves, occur)
      requires ScannedTo(float, adj, nodes, code, out, k + 1, live0)
      modifies this
      ensures Extends(old(adj), adj)
      ensures ScannedTo(float, adj, nodes, code, out, k, live)
      ensures MovesOk(moves, occur) && CountsMoves(float, old(moves), moves, [code[k]])
      ensures AddsWithin(old(adj), adj, if k > 0 then AtInst(float, code, out, k - 1) else LiveBefore(float, code, out, 0))
      ensures occur == old(occur) + Elems(Ids(float, code[k].defs)) + Elems(Ids(float, code[k].uses))
    {
      hide CountsMoves, AddsWithin;
      Note(float, code[k]);
      MentionsAt(float, code, k);
      var uses := Ids(float, code[k].uses);
      live := live0 - Elems(Ids(float, code[k].defs));
      CliqueSub(adj, live0, live);
      live := AddUses(float, uses, live, nodes);
      ghost var adj1 := adj;
      if k > 0 {
        MentionsAt(float, code, k - 1);
        AddDefs(Ids(float, code[k - 1].defs), uses, live, nodes);
        CliqueSub(adj, live + Elems(Ids(float, code[k - 1].defs)), live);
        ExtendsTrans(old(adj), adj1, adj);
        AddsTrans(old(adj), adj1, adj, live, AtInst(float, code, out, k - 1), AtInst(float, code, out, k - 1));
      }
      CliquesStep(float, old(adj), adj, code, out, k);
    }

    /** The whole function. `occur` becomes the registers it mentions; all that is live or defined together
        interferes. */
    method BuildGraph(float: bool, g: Graph, liveOut: seq<set<Reg>>)
      requires ValidGraph(g) && |liveOut| == |g.code|
      requires forall b, r :: 0 <= b < |g.code| && r in liveOut[b] ==> LiveOut(g, b, r)
      requires adj == map[] && occur == {} && moves == map[]
      modifies this
      ensures WellFormed(adj, occur) && MovesOk(moves, occur)
      ensures forall x :: x in occur <==> MentionedIn(float, g, |g.code|, x)
      ensures forall b :: 0 <= b < |g.code| ==> BlockCliques(float, adj, g.code[b], IdSet(float, liveOut[b]))
      ensures forall x, y :: y in Neighbours(adj, x) <==> x != y && Meet(float, g, liveOut, |g.code|, x, y)
      ensures forall x, y :: x != y ==> MoveWeight(moves, x, y) == AllMoves(float, g.code, x, y)
    {
      hide Together, CountsMoves;
      NoMeeting(float, g, liveOut);
      NoMoves(float, moves, []);
      ghost var nodes := Nodes(float, g);
      for b := 0 to |g.code|
        invariant WellFormed(adj, nodes) && MovesOk(moves, occur)
        invariant OccursUpTo(float, g, b, occur)
        invariant CliquesUpTo(float, adj, g, liveOut, b)
        invariant EdgesMeet(float, g, liveOut, b, adj) && MovesUpTo(float, g.code[..b], moves)
      {
        LiveMentioned(float, g, b, liveOut[b]);
        BlockNodes(float, g, b);
        ghost var adj0, occur0, moves0 := adj, occur, moves;
        ScanBlock(float, g.code[b], IdSet(float, liveOut[b]), nodes);
        CliquesUpToStep(float, adj0, adj, g, liveOut, b);
        OccursStep(float, g, b, occur0, occur);
        EdgesMeetStep(float, g, liveOut, b, adj0, adj, nodes);
        MovesUpToStep(float, g.code, b, moves0, moves);
      }
      NodesMentioned(float, g);
      assert nodes == occur;
      assert g.code[..|g.code|] == g.code;
      EdgesExactly(float, g, liveOut, adj, nodes);
    }
  }

  lemma EndTogether(float: bool, code: seq<Inst>, out: set<nat>, x: nat, y: nat)
    requires x in out && y in out
    ensures Together(float, code, out, x, y)
  { }

  lemma StartTogether(float: bool, code: seq<Inst>, out: set<nat>, x: nat, y: nat)
    requires x in LiveBefore(float, code, out, 0) && y in LiveBefore(float, code, out, 0)
    ensures Together(float, code, out, x, y)
  { }

  lemma EndClique(float: bool, adj1: Adj, adj: Adj, nodes: set<nat>, code: seq<Inst>, out: set<nat>)
    requires ScannedTo(float, adj1, nodes, code, out, |code|, out) && Extends(adj1, adj)
    ensures Clique(adj, out)
  {
    CliqueMono(adj1, adj, out);
  }

  /** In one of the first `n` blocks the registers are together. */
  ghost predicate Meet(float: bool, g: Graph, liveOut: seq<set<Reg>>, n: nat, x: nat, y: nat) {
    exists b :: 0 <= b < n && b < |g.code| && b < |liveOut| && Together(float, g.code[b], IdSet(float, liveOut[b]), x, y)
  }

  /** The edges so far: between different registers that meet, and between all of these. */
  ghost predicate EdgesMeet(float: bool, g: Graph, liveOut: seq<set<Reg>>, n: nat, adj: Adj) {
    && (forall x, y {:trigger y in Neighbours(adj, x)} :: y in Neighbours(adj, x) ==> Meet(float, g, liveOut, n, x, y))
    && (forall x, y {:trigger Meet(float, g, liveOut, n, x, y)} :: Meet(float, g, liveOut, n, x, y) && x != y ==> y in Neighbours(adj, x))
  }

  lemma NoMeeting(float: bool, g: Graph, liveOut: seq<set<Reg>>)
    ensures EdgesMeet(float, g, liveOut, 0, map[])
  { }

  lemma MeetStep(float: bool, g: Graph, liveOut: seq<set<Reg>>, n: nat, x: nat, y: nat)
    requires n < |g.code| && |liveOut| == |g.code|
    ensures Meet(float, g, liveOut, n + 1, x, y) <==>
      Meet(float, g, liveOut, n, x, y) || Together(float, g.code[n], IdSet(float, liveOut[n]), x, y)
  {
    hide Together;
  }

  lemma TogetherEdge(float: bool, adj: Adj, code: seq<Inst>, out: set<nat>, x: nat, y: nat)
    requires BlockCliques(float, adj, code, out) && Clique(adj, LiveBefore(float, code, out, 0)) && Clique(adj, out)
    requires Together(float, code, out, x, y) && x != y
    ensures y in Neighbours(adj, x)
  { }

  lemma EdgesMeetStep(float: bool, g: Graph, liveOut: seq<set<Reg>>, n: nat, adj: Adj, adj': Adj, nodes: set<nat>)
    requires n < |g.code| && |liveOut| == |g.code| && EdgesMeet(float, g, liveOut, n, adj) && Extends(adj, adj')
    requires OnlyTogether(float, adj, adj', g.code[n], IdSet(float, liveOut[n]))
    requires BlockCliques(float, adj', g.code[n], IdSet(float, liveOut[n]))
    requires Clique(adj', LiveBefore(float, g.code[n], IdSet(float, liveOut[n]), 0)) && Clique(adj', IdSet(float, liveOut[n]))
    ensures EdgesMeet(float, g, liveOut, n + 1, adj')
  {
    hide Together, BlockCliques, Clique, LiveBefore, IdSet, Meet;
    forall x, y | y in Neighbours(adj', x) ensures Meet(float, g, liveOut, n + 1, x, y) { MeetStep(float, g, liveOut, n, x, y); }
    forall x, y | Meet(float, g, liveOut, n + 1, x, y) && x != y ensures y in Neighbours(adj', x) {
      MeetStep(float, g, liveOut, n, x, y);
      if Meet(float, g, liveOut, n, x, y) {
        assert y in Neighbours(adj, x);
      } else {
        TogetherEdge(float, adj', g.code[n], IdSet(float, liveOut[n]), x, y);
      }
    }
  }

  lemma EdgesExactly(float: bool, g: Graph, liveOut: seq<set<Reg>>, adj: Adj, nodes: set<nat>)
    requires EdgesMeet(float, g, liveOut, |g.code|, adj) && WellFormed(adj, nodes)
    ensures forall x, y :: y in Neighbours(adj, x) <==> x != y && Meet(float, g, liveOut, |g.code|, x, y)
  {
    hide Meet;
  }

  /** Every class register that the code mentions is one of `nodes`. */
  ghost predicate MentionedAre(float: bool, code: seq<Inst>, nodes: set<nat>) {
    forall x :: Mentions(float, code, x) ==> x in nodes
  }

  /** The backward scan has dealt with the instructions from `k` on. */
  ghost predicate ScannedTo(float: bool, adj: Adj, nodes: set<nat>, code: seq<Inst>, out: set<nat>, k: nat, live: set<nat>)
  {
    && k <= |code|
    && WellFormed(adj, nodes)
    && live == LiveBefore(float, code, out, k) && live <= nodes
    && Clique(adj, live)
    && (k > 0 ==> Clique(adj, AtInst(float, code, out, k - 1)))
    && CliquesFrom(float, adj, code, out, k)
  }

  /** `occur` has grown by the registers mentioned from instruction `k` on. */
  ghost predicate Noted(float: bool, code: seq<Inst>, k: nat, occur0: set<nat>, occur: set<nat>)
    requires k <= |code|
  {
    forall x :: x in occur <==> x in occur0 || Mentions(float, code[k..], x)
  }

  lemma NotedNone(float: bool, code: seq<Inst>, occur: set<nat>)
    ensures Noted(float, code, |code|, occur, occur)
  { }

  lemma AllScanned(float: bool, adj: Adj, nodes: set<nat>, code: seq<Inst>, out: set<nat>, live: set<nat>)
    requires ScannedTo(float, adj, nodes, code, out, 0, live)
    ensures BlockCliques(float, adj, code, out)
  { }

  lemma NotedStep(float: bool, code: seq<Inst>, k: nat, occur0: set<nat>, occur1: set<nat>, occur2: set<nat>)
    requires k < |code| && Noted(float, code, k + 1, occur0, occur1)
    requires occur2 == occur1 + Elems(Ids(float, code[k].defs)) + Elems(Ids(float, code[k].uses))
    ensures Noted(float, code, k, occur0, occur2)
  {
    MentionsBack(float, code, k);
  }

  lemma ExtendsTrans(a: Adj, b: Adj, c: Adj)
    requires Extends(a, b) && Extends(b, c)
    ensures Extends(a, c)
  {
    forall x ensures Neighbours(a, x) <= Neighbours(c, x) {
      assert Neighbours(a, x) <= Neighbours(b, x) <= Neighbours(c, x);
    }
  }

  ghost predicate CliquesUpTo(float: bool, adj: Adj, g: Graph, liveOut: seq<set<Reg>>, b: nat) {
    && |liveOut| == |g.code|
    && b <= |g.code|
    && forall c :: 0 <= c < b ==> BlockCliques(float, adj, g.code[c], IdSet(float, liveOut[c]))
  }

  lemma CliquesUpToStep(float: bool, adj: Adj, adj': Adj, g: Graph, liveOut: seq<set<Reg>>, b: nat)
    requires b < |g.code| && CliquesUpTo(float, adj, g, liveOut, b) && Extends(adj, adj')
    requires BlockCliques(float, adj', g.code[b], IdSet(float, liveOut[b]))
    ensures CliquesUpTo(float, adj', g, liveOut, b + 1)
  {
    forall c | 0 <= c < b ensures BlockCliques(float, adj', g.code[c], IdSet(float, liveOut[c])) {
      CliquesMono(float, adj, adj', g.code[c], IdSet(float, liveOut[c]), 0);
    }
  }

  ghost predicate OccursUpTo(float: bool, g: Graph, b: nat, occur: set<nat>) {
    forall x :: x in occur <==> MentionedIn(float, g, b, x)
  }

  lemma OccursStep(float: bool, g: Graph, b: nat, occur: set<nat>, occur': set<nat>)
    requires b < |g.code| && OccursUpTo(float, g, b, occur) && Noted(float, g.code[b], 0, occur, occur')
    ensures OccursUpTo(float, g, b + 1, occur')
  {
    assert g.code[b][0..] == g.code[b];
    BlockMentioned(float, g, b);
  }

  lemma BlockNodes(float: bool, g: Graph, b: nat)
    requires b < |g.code|
    ensures MentionedAre(float, g.code[b], Nodes(float, g))
  {
    NodesMentioned(float, g);
    BlockMentioned(float, g, b);
  }

  predicate MentionedIn(float: bool, g: Graph, n: nat, x: nat) {
    exists b :: 0 <= b < |g.code| && b < n && Mentions(float, g.code[b], x)
  }

  function Nodes(float: bool, g: Graph): set<nat> {
    (set b, i, x | 0 <= b < |g.code| && 0 <= i < |g.code[b]| && x in Ids(float, g.code[b][i].defs) :: x)
    + (set b, i, x | 0 <= b < |g.code| && 0 <= i < |g.code[b]| && x in Ids(float, g.code[b][i].uses) :: x)
  }

  lemma NodesMentioned(float: bool, g: Graph)
    ensures forall x :: x in Nodes(float, g) <==> MentionedIn(float, g, |g.code|, x)
  {
    forall x | x in Nodes(float, g) ensures MentionedIn(float, g, |g.code|, x) {
      var b, i :| 0 <= b < |g.code| && 0 <= i < |g.code[b]| &&
        (x in Ids(float, g.code[b][i].defs) || x in Ids(float, g.code[b][i].uses));
      assert Mentions(float, g.code[b], x);
    }
  }

  lemma BlockMentioned(float: bool, g: Graph, b: nat)
    requires b < |g.code|
    ensures forall x :: Mentions(float, g.code[b], x) ==> MentionedIn(float, g, |g.code|, x)
    ensures forall x :: MentionedIn(float, g, b + 1, x) <==> MentionedIn(float, g, b, x) || Mentions(float, g.code[b], x)
  { }

  /** What is live somewhere is used somewhere. */
  lemma LiveMentioned(float: bool, g: Graph, b: nat, out: set<Reg>)
    requires ValidGraph(g) && b < |g.code|
    requires forall r :: r in out ==> LiveOut(g, b, r)
    ensures IdSet(float, out) <= Nodes(float, g)
  {
    forall x | x in IdSet(float, out) ensures x in Nodes(float, g) {
      var r :| r in out && r.float == float && r.id == x;
      var s: nat :| Edge(g, b, s) && LiveIn(g, s, r);
      var path :| UsePath(g, path, r) && path[0] == s;
      var last := path[|path| - 1];
      ExposedAt(g.code[last], r);
      var k :| 0 <= k < |g.code[last]| && r in g.code[last][k].uses;
      assert x in Ids(float, g.code[last][k].uses);
    }
  }

  lemma CliquesStep(float: bool, adj: Adj, adj': Adj, code: seq<Inst>, out: set<nat>, k: nat)
    requires k < |code| && Clique(adj, AtInst(float, code, out, k)) && CliquesFrom(float, adj, code, out, k + 1)
    requires Extends(adj, adj')
    ensures CliquesFrom(float, adj', code, out, k)
  {
    CliquesMono(float, adj, adj', code, out, k + 1);
    CliqueMono(adj, adj', AtInst(float, code, out, k));
  }

  lemma MentionsAt(float: bool, code: seq<Inst>, k: nat)
    requires k < |code|
    ensures forall x :: x in Ids(float, code[k].defs) || x in Ids(float, code[k].uses) ==> Mentions(float, code, x)
  { }

  lemma MentionsBack(float: bool, code: seq<Inst>, k: nat)
    requires k < |code|
    ensures forall x :: Mentions(float, code[k..], x) <==>
      Mentions(float, code[k + 1..], x) || x in Ids(float, code[k].defs) || x in Ids(float, code[k].uses)
  {
    forall x
      ensures Mentions(float, code[k..], x) <==>
        Mentions(float, code[k + 1..], x) || x in Ids(float, code[k].defs) || x in Ids(float, code[k].uses)
    {
      assert code[k..][0] == code[k];
      if Mentions(float, code[k + 1..], x) {
        var i :| 0 <= i < |code[k + 1..]| &&
          (x in Ids(float, code[k + 1..][i].defs) || x in Ids(float, code[k + 1..][i].uses));
        assert code[k..][i + 1] == code[k + 1..][i];
      }
      if Mentions(float, code[k..], x) {
        var i :| 0 <= i < |code[k..]| && (x in Ids(float, code[k..][i].defs) || x in Ids(float, code[k..][i].uses));
        if i > 0 { assert code[k..][i] == code[k + 1..][i - 1]; }
      }
    }
  }

  lemma PickNode(s: set<nat>)
    requires s != {}
    ensures exists x :: x in s
  { }

  // ----- move edges -----

  /** The operation code of register moves. */
  const MOVE := 0

  type Moves = map<nat, map<nat, int>>

  function Partners(moves: Moves, x: nat): map<nat, int> {
    if x in moves then moves[x] else map[]
  }

  function Weight(m: map<nat, int>, y: nat): int {
    if y in m then m[y] else 0
  }

  /** `add_move_edge` */
  function WithMove(moves: Moves, u: nat, v: nat, w: int): Moves {
    var m1 := moves[u := Partners(moves, u)[v := Weight(Partners(moves, u), v) + w]];
    m1[v := Partners(m1, v)[u := Weight(Partners(m1, v), u) + w]]
  }

  /** The instruction moves a register of the class to another one. */
  predicate IsMove(float: bool, i: Inst, src: nat, dst: nat) {
    && i.op == MOVE && |i.defs| == 1 && |i.uses| >= 1 && src != dst
    && i.defs[0] == Reg(float, dst) && i.uses[|i.uses| - 1] == Reg(float, src)
    && Tracked(Reg(float, src)) && Tracked(Reg(float, dst))
  }

  /** How many instructions of the block move one of the registers to the other. */
  function MovesBetween(float: bool, code: seq<Inst>, x: nat, y: nat): nat {
    if code == [] then 0
    else (if IsMove(float, code[0], x, y) || IsMove(float, code[0], y, x) then 1 else 0) + MovesBetween(float, code[1..], x, y)
  }

  function AllMoves(float: bool, blocks: seq<seq<Inst>>, x: nat, y: nat): nat {
    if blocks == [] then 0
    else AllMoves(float, blocks[..|blocks| - 1], x, y) + MovesBetween(float, blocks[|blocks| - 1], x, y)
  }

  /** Each weight has grown by the number of moves in the code. */
  ghost predicate CountsMoves(float: bool, moves: Moves, moves': Moves, code: seq<Inst>) {
    forall x, y {:trigger MoveWeight(moves', x, y)} :: x != y ==>
      MoveWeight(moves', x, y) == MoveWeight(moves, x, y) + MovesBetween(float, code, x, y)
  }

  lemma NoMoves(float: bool, moves: Moves, code: seq<Inst>)
    ensures code == [] ==> CountsMoves(float, moves, moves, code)
    ensures moves == map[] ==> MovesUpTo(float, [], moves)
  {
    forall x, y ensures code == [] ==> MovesBetween(float, code, x, y) == 0 { }
  }

  lemma MoveCounted(float: bool, i: Inst)
    ensures forall x, y :: MovesBetween(float, [i], x, y) == if IsMove(float, i, x, y) || IsMove(float, i, y, x) then 1 else 0
  {
    forall x, y ensures MovesBetween(float, [i], x, y) == if IsMove(float, i, x, y) || IsMove(float, i, y, x) then 1 else 0 {
      assert [i][1..] == [] && MovesBetween(float, [i][1..], x, y) == 0;
    }
  }

  lemma OneMove(float: bool, moves: Moves, i: Inst, src: nat, dst: nat)
    requires IsMove(float, i, src, dst)
    ensures CountsMoves(float, moves, WithMove(moves, src, dst, 1), [i])
  {
    MoveCounted(float, i);
    var m' := WithMove(moves, src, dst, 1);
    forall x, y | x != y
      ensures MoveWeight(m', x, y) == MoveWeight(moves, x, y) + MovesBetween(float, [i], x, y)
    {
      assert IsMove(float, i, x, y) <==> x == src && y == dst;
      assert IsMove(float, i, y, x) <==> y == src && x == dst;
    }
  }

  lemma MovesBack(float: bool, moves0: Moves, moves1: Moves, moves2: Moves, code: seq<Inst>, k: nat)
    requires k < |code| && CountsMoves(float, moves0, moves1, code[k + 1..]) && CountsMoves(float, moves1, moves2, [code[k]])
    ensures CountsMoves(float, moves0, moves2, code[k..])
  {
    hide MoveWeight, IsMove;
    MoveCounted(float, code[k]);
    assert code[k..][1..] == code[k + 1..];
    forall x, y | x != y
      ensures MoveWeight(moves2, x, y) == MoveWeight(moves0, x, y) + MovesBetween(float, code[k..], x, y)
    {
      assert MoveWeight(moves1, x, y) == MoveWeight(moves0, x, y) + MovesBetween(float, code[k + 1..], x, y);
    }
  }

  ghost predicate MovesUpTo(float: bool, blocks: seq<seq<Inst>>, moves: Moves) {
    forall x, y {:trigger MoveWeight(moves, x, y)} :: x != y ==> MoveWeight(moves, x, y) == AllMoves(float, blocks, x, y)
  }

  lemma MovesUpToStep(float: bool, blocks: seq<seq<Inst>>, n: nat, moves: Moves, moves': Moves)
    requires n < |blocks| && MovesUpTo(float, blocks[..n], moves) && CountsMoves(float, moves, moves', blocks[n])
    ensures MovesUpTo(float, blocks[..n + 1], moves')
  {
    hide MoveWeight, MovesBetween;
    assert blocks[..n + 1][..n] == blocks[..n];
    forall x, y | x != y ensures MoveWeight(moves', x, y) == AllMoves(float, blocks[..n + 1], x, y) {
      assert MoveWeight(moves, x, y) == AllMoves(float, blocks[..n], x, y);
    }
  }

  predicate HasMove(moves: Moves, x: nat, y: nat) {
    y in Partners(moves, x)
  }

  function MoveWeight(moves: Moves, x: nat, y: nat): int {
    Weight(Partners(moves, x), y)
  }

  /** Symmetric, irreflexive, between nodes, with positive weights. */
  ghost predicate MovesOk(moves: Moves, nodes: set<nat>) {
    forall x, y {:trigger HasMove(moves, x, y)} :: HasMove(moves, x, y) ==>
      x != y && x in nodes && y in nodes && HasMove(moves, y, x) && MoveWeight(moves, x, y) > 0
  }

  lemma MovesMono(moves: Moves, nodes: set<nat>, nodes': set<nat>)
    requires nodes <= nodes'
    ensures MovesOk(moves, nodes) ==> MovesOk(moves, nodes')
  { }

  lemma MoveEdgeKeeps(moves: Moves, nodes: set<nat>, u: nat, v: nat, w: int)
    requires u != v && u in nodes && v in nodes && w > 0
    ensures MovesOk(moves, nodes) ==> MovesOk(WithMove(moves, u, v, w), nodes)
  {
    if !MovesOk(moves, nodes) { return; }
    var m' := WithMove(moves, u, v, w);
    forall x ensures
      Partners(m', x) ==
        if x == u then Partners(moves, u)[v := Weight(Partners(moves, u), v) + w]
        else if x == v then Partners(moves, v)[u := Weight(Partners(moves, v), u) + w]
        else Partners(moves, x) { }
    forall x, y | HasMove(m', x, y)
      ensures x != y && x in nodes && y in nodes && HasMove(m', y, x) && MoveWeight(m', x, y) > 0
    {
      assert HasMove(moves, x, y) ==> HasMove(moves, y, x) && MoveWeight(moves, x, y) > 0;
      assert HasMove(moves, y, x) ==> HasMove(moves, x, y) && MoveWeight(moves, y, x) > 0;
    }
  }
}
