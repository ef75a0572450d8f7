/** Why a loop without dependences may run in parallel: iterations whose memory footprints do not conflict
    give the same final memory in every interleaving of their loads and stores, in particular in loop order
    (`loop_parallel`, src/ir/opt/loop_ops.cpp). */
module Interleaving {
  import opened FiniteSets

  datatype Action = Halt | Load(addr: int) | Store(addr: int, val: int)

  type Mem = map<int, int>

  function Read(m: Mem, a: int): int {
    if a in m then m[a] else 0
  }

  /** What iteration `i` does next, given the values it has loaded so far (0 for each store). Of the registers that it
      does not compute itself only the induction variable, that is, `i`, differs between iterations. */
  type Body = (int, seq<int>) -> Action

  /** A loop: its body, iteration numbers and initial memory, and the addresses each iteration may load from
      and store to. */
  datatype Loop = Loop(body: Body, iters: set<int>, m0: Mem, loads: (int, int) -> bool, stores: (int, int) -> bool)

  /** `hist[i]` is what iteration `i` has seen so far. */
  datatype State = State(mem: Mem, hist: map<int, seq<int>>)

  function Step(l: Loop, s: State, i: int): State
    requires i in s.hist
  {
    var h := s.hist[i];
    match l.body(i, h)
    case Halt => s
    case Load(a) => s.(hist := s.hist[i := h + [Read(s.mem, a)]])
    case Store(a, v) => State(s.mem[a := v], s.hist[i := h + [0]])
  }

  ghost predicate Initial(l: Loop, s: State) {
    s.mem == l.m0 && s.hist == map i | i in l.iters :: []
  }

  /** An interleaving: `schedule` names the iteration that makes each step. */
  function Run(l: Loop, s: State, schedule: seq<int>): State
    requires forall i :: i in schedule ==> i in s.hist
    ensures Run(l, s, schedule).hist.Keys == s.hist.Keys
    decreases |schedule|
  {
    if schedule == [] then s
    else
      var n := |schedule| - 1;
      Step(l, Run(l, s, schedule[..n]), schedule[n])
  }

  ghost predicate Finished(l: Loop, s: State) {
    forall i :: i in s.hist ==> l.body(i, s.hist[i]).Halt?
  }

  // ----- one iteration on its own -----

  /** Memory and history of iteration `i` after `n` steps alone from `l.m0`. */
  function Solo(l: Loop, i: int, n: nat): (r: (Mem, seq<int>)) {
    if n == 0 then (l.m0, [])
    else
      var (m, h) := Solo(l, i, n - 1);
      match l.body(i, h)
      case Halt => (m, h)
      case Load(a) => (m, h + [Read(m, a)])
      case Store(a, v) => (m[a := v], h + [0])
  }

  /** Iteration `i`, run alone from `l.m0`, accesses only the addresses of its footprint. */
  ghost predicate Confined(l: Loop, i: int) {
    forall n: nat ::
      match l.body(i, Solo(l, i, n).1)
      case Halt => true
      case Load(a) => l.loads(i, a)
      case Store(a, _) => l.stores(i, a)
  }

  /** No address written in one iteration is accessed in another. */
  ghost predicate Independent(l: Loop) {
    forall i, j, a :: i in l.iters && j in l.iters && i != j && l.stores(i, a) ==> !l.loads(j, a) && !l.stores(j, a)
  }

  /** Every iteration is where it would be alone, on the memory it can see. */
  ghost predicate Tracks(l: Loop, i: int,
                         mem: Mem, h: seq<int>) {
    var (m, h') := Solo(l, i, |h|);
    h == h' && forall a :: l.loads(i, a) || l.stores(i, a) ==> Read(mem, a) == Read(m, a)
  }

  ghost predicate Inv(l: Loop, s: State) {
    && s.hist.Keys == l.iters
    && (forall i :: i in l.iters ==> Tracks(l, i, s.mem, s.hist[i]))
    && (forall a :: (forall i :: i in l.iters ==> !l.stores(i, a)) ==> Read(s.mem, a) == Read(l.m0, a))
  }

  lemma SoloStep(l: Loop, i: int, n: nat)
    ensures
      var (m, h) := Solo(l, i, n);
      Solo(l, i, n + 1) ==
      match l.body(i, h)
      case Halt => (m, h)
      case Load(a) => (m, h + [Read(m, a)])
      case Store(a, v) => (m[a := v], h + [0])
  { }

  /** The stepping iteration stays in line with its run alone. */
  lemma StepSelf(l: Loop,
                 s: State, i: int)
    requires Inv(l, s) && i in l.iters
    requires Confined(l, i)
    ensures Tracks(l, i, Step(l, s, i).mem, Step(l, s, i).hist[i])
  {
    var h := s.hist[i];
    assert Tracks(l, i, s.mem, h);
    SoloStep(l, i, |h|);
    assert h == Solo(l, i, |h|).1;
  }

  /** The others do not notice. */
  lemma StepOther(l: Loop,
                  s: State, i: int, j: int)
    requires Inv(l, s) && i in l.iters && j in l.iters && i != j
    requires Confined(l, i) && Independent(l)
    ensures Tracks(l, j, Step(l, s, i).mem, Step(l, s, i).hist[j])
  {
    var h := s.hist[i];
    assert Tracks(l, i, s.mem, h);
    assert Tracks(l, j, s.mem, s.hist[j]);
    assert h == Solo(l, i, |h|).1;
  }

  lemma StepKeeps(l: Loop,
                  s: State, i: int)
    requires Inv(l, s) && i in l.iters
    requires Independent(l)
    requires forall k :: k in l.iters ==> Confined(l, k)
    ensures Inv(l, Step(l, s, i))
  {
    var s' := Step(l, s, i);
    forall j | j in l.iters ensures Tracks(l, j, s'.mem, s'.hist[j]) {
      if j == i {
        StepSelf(l, s, i);
      } else {
        StepOther(l, s, i, j);
      }
    }
    forall a | forall k :: k in l.iters ==> !l.stores(k, a) ensures Read(s'.mem, a) == Read(l.m0, a) {
      var h := s.hist[i];
      assert Tracks(l, i, s.mem, h);
      assert h == Solo(l, i, |h|).1;
    }
  }

  lemma {:induction false} RunInv(l: Loop, s: State, schedule: seq<int>)
    requires Initial(l, s) && Independent(l)
    requires forall k :: k in l.iters ==> Confined(l, k)
    requires forall i :: i in schedule ==> i in l.iters
    ensures Inv(l, Run(l, s, schedule))
    decreases |schedule|
  {
    if schedule != [] {
      var n := |schedule| - 1;
      RunInv(l, s, schedule[..n]);
      StepKeeps(l, Run(l, s, schedule[..n]), schedule[n]);
    }
  }

  // ----- the halting point is unique -----

  lemma {:induction false} SoloHalted(l: Loop, i: int, n: nat, k: nat)
    requires n <= k && l.body(i, Solo(l, i, n).1).Halt?
    ensures Solo(l, i, k) == Solo(l, i, n)
    decreases k
  {
    if n < k { SoloHalted(l, i, n, k - 1); }
  }

  lemma SameEnd(l: Loop, i: int, n: nat, k: nat)
    requires l.body(i, Solo(l, i, n).1).Halt? && l.body(i, Solo(l, i, k).1).Halt?
    ensures Solo(l, i, n) == Solo(l, i, k)
  {
    if n <= k { SoloHalted(l, i, n, k); } else { SoloHalted(l, i, k, n); }
  }

  /** Any two complete interleavings leave the same memory. */
  lemma InterleavingsAgree(l: Loop, s0: State, p: seq<int>, q: seq<int>, a: int)
    requires Initial(l, s0) && Independent(l)
    requires forall k :: k in l.iters ==> Confined(l, k)
    requires (forall i :: i in p ==> i in l.iters) && (forall i :: i in q ==> i in l.iters)
    requires Finished(l, Run(l, s0, p)) && Finished(l, Run(l, s0, q))
    ensures Read(Run(l, s0, p).mem, a) == Read(Run(l, s0, q).mem, a)
  {
    var s, t := Run(l, s0, p), Run(l, s0, q);
    RunInv(l, s0, p);
    RunInv(l, s0, q);
    if i :| i in l.iters && l.stores(i, a) {
      assert Tracks(l, i, s.mem, s.hist[i]);
      assert Tracks(l, i, t.mem, t.hist[i]);
      SameEnd(l, i, |s.hist[i]|, |t.hist[i]|);
    }
  }

  // ----- which schedules are complete -----

  lemma {:induction false} SoloLength(l: Loop, i: int, n: nat)
    ensures |Solo(l, i, n).1| <= n
  {
    if n > 0 { SoloLength(l, i, n - 1); }
  }

  /** Run alone, iteration `i` halts after exactly `n` actions. */
  ghost predicate HaltsAfter(l: Loop, i: int, n: nat) {
    |Solo(l, i, n).1| == n && l.body(i, Solo(l, i, n).1).Halt?
  }

  lemma NotBefore(l: Loop, i: int, n: nat, k: nat)
    requires HaltsAfter(l, i, n) && k < n
    ensures !l.body(i, Solo(l, i, k).1).Halt?
  {
    if l.body(i, Solo(l, i, k).1).Halt? {
      SoloHalted(l, i, k, n);
      SoloLength(l, i, k);
    }
  }

  /** A complete run has let every iteration make as many actions as it makes alone. */
  lemma FinishedHalts(l: Loop, s0: State, p: seq<int>, i: int)
    requires Initial(l, s0) && Independent(l) && i in l.iters
    requires forall k :: k in l.iters ==> Confined(l, k)
    requires forall k :: k in p ==> k in l.iters
    requires Finished(l, Run(l, s0, p))
    ensures HaltsAfter(l, i, |Run(l, s0, p).hist[i]|)
  {
    RunInv(l, s0, p);
    assert Tracks(l, i, Run(l, s0, p).mem, Run(l, s0, p).hist[i]);
  }

  function Min(a: nat, b: nat): nat { if a < b then a else b }

  /** Whatever the others do, an iteration gets on with each of its turns until it halts. */
  lemma {:induction false} ProgressMade(l: Loop, s0: State, q: seq<int>, i: int, n: nat)
    requires Initial(l, s0) && Independent(l) && i in l.iters && HaltsAfter(l, i, n)
    requires forall k :: k in l.iters ==> Confined(l, k)
    requires forall k :: k in q ==> k in l.iters
    ensures |Run(l, s0, q).hist[i]| == Min(multiset(q)[i], n)
    decreases |q|
  {
    if q != [] {
      var k := |q| - 1;
      var s := Run(l, s0, q[..k]);
      assert q == q[..k] + [q[k]];
      ProgressMade(l, s0, q[..k], i, n);
      RunInv(l, s0, q[..k]);
      assert Tracks(l, i, s.mem, s.hist[i]);
      if |s.hist[i]| < n { NotBefore(l, i, n, |s.hist[i]|); }
    }
  }

  /** Every schedule that gives each iteration enough turns is complete. */
  lemma EnoughTurns(l: Loop, s0: State, q: seq<int>, turns: map<int, nat>)
    requires Initial(l, s0) && Independent(l) && turns.Keys == l.iters
    requires forall i :: i in l.iters ==> HaltsAfter(l, i, turns[i]) && multiset(q)[i] >= turns[i]
    requires forall k :: k in l.iters ==> Confined(l, k)
    requires forall k :: k in q ==> k in l.iters
    ensures Finished(l, Run(l, s0, q))
  {
    var s := Run(l, s0, q);
    RunInv(l, s0, q);
    forall i | i in s.hist ensures l.body(i, s.hist[i]).Halt? {
      ProgressMade(l, s0, q, i, turns[i]);
      assert Tracks(l, i, s.mem, s.hist[i]);
    }
  }

  // ----- the order of the loop -----

  /** One iteration after the other, by number. */
  ghost predicate LoopOrder(q: seq<int>) {
    forall j, k :: 0 <= j < k < |q| ==> q[j] <= q[k]
  }

  lemma {:induction false} Greatest(s: set<int>) returns (m: int)
    requires s != {}
    ensures m in s && forall x :: x in s ==> x <= m
    decreases |s|
  {
    var first := Pick(s);
    var rest := s - {first};
    m := first;
    if rest != {} {
      var k := Greatest(rest);
      if k > first { m := k; }
    }
    forall x | x in s ensures x <= m { assert x == first || x in rest; }
  }

  function Repeat(i: int, n: nat): (r: seq<int>)
    ensures |r| == n && forall k :: 0 <= k < n ==> r[k] == i
    ensures multiset(r)[i] == n && forall j :: j != i ==> multiset(r)[j] == 0
  {
    if n == 0 then [] else Repeat(i, n - 1) + [i]
  }

  lemma {:induction false} InOrder(iters: set<int>, turns: map<int, nat>) returns (q: seq<int>)
    requires iters <= turns.Keys
    ensures LoopOrder(q) && (forall i :: i in q ==> i in iters) && forall i :: i in iters ==> multiset(q)[i] == turns[i]
    decreases |iters|
  {
    if iters == {} {
      q := [];
    } else {
      var m := Greatest(iters);
      var front := InOrder(iters - {m}, turns);
      var last := Repeat(m, turns[m]);
      q := front + last;
      assert m !in front;
      assert multiset(front)[m] == 0;
      forall i | i in q ensures i in iters { assert i in front || i in last; }
      forall j, k | 0 <= j < k < |q| ensures q[j] <= q[k] { assert q[j] in front || q[j] == m; }
    }
  }

  /** When some interleaving completes, so does the loop, and it leaves the same memory. */
  lemma LoopOrderAgrees(l: Loop, s0: State, p: seq<int>) returns (q: seq<int>)
    requires Initial(l, s0) && Independent(l)
    requires forall k :: k in l.iters ==> Confined(l, k)
    requires (forall i :: i in p ==> i in l.iters) && Finished(l, Run(l, s0, p))
    ensures LoopOrder(q) && (forall i :: i in q ==> i in l.iters) && Finished(l, Run(l, s0, q))
    ensures forall a :: Read(Run(l, s0, p).mem, a) == Read(Run(l, s0, q).mem, a)
  {
    hide Finished, Independent, Confined;
    var hist := Run(l, s0, p).hist;
    RunInv(l, s0, p);
    var turns: map<int, nat> := map i | i in l.iters :: |hist[i]|;
    q := InOrder(l.iters, turns);
    forall i | i in l.iters ensures HaltsAfter(l, i, turns[i]) { FinishedHalts(l, s0, p, i); }
    EnoughTurns(l, s0, q, turns);
    forall a ensures Read(Run(l, s0, p).mem, a) == Read(Run(l, s0, q).mem, a) { InterleavingsAgree(l, s0, p, q, a); }
  }
}
