/** The reusable two-barrier protocol of parallelised loops: the runtime routine `__barrier`
    (src/arm/program.cpp) and the code `loop_parallel_ex` places before every chunk
    (src/ir/opt/loop_ops.cpp): `__barrier(&barrier1, cnt); __barrier(&barrier2, cnt); chunk`.

    Threads interleave arbitrarily. `ldrex`/`strex` are modelled with reservations: a store-exclusive
    succeeds only if no other thread has stored to the counter since the load, and may also fail for no
    reason. Memory is sequentially consistent. */
module Barrier {
  import opened Word32

  datatype Pc =
    | Load1 | Store1(v1: nat, valid1: bool) | Spin1
    | Load2 | Store2(v2: nat, valid2: bool) | Spin2
    | Chunk | Done

  /** `round` counts the chunks the thread has finished. */
  datatype Thread = Thread(round: nat, pc: Pc)

  datatype State = State(c1: nat, c2: nat, ts: seq<Thread>)

  // ----- steps -----

  /** `cmp r3, #0; moveq r3, r1; sub r3, r3, #1` */
  function Decremented(c: nat, n: nat): nat
    requires n > 0
  {
    (if c == 0 then n else c) - 1
  }

  function Lose1(t: Thread): Thread {
    if t.pc.Store1? then t.(pc := Store1(t.pc.v1, false)) else t
  }

  function Lose2(t: Thread): Thread {
    if t.pc.Store2? then t.(pc := Store2(t.pc.v2, false)) else t
  }

  /** A successful store-exclusive clears every reservation on its counter. */
  function LoseAll(ts: seq<Thread>, first: bool): (r: seq<Thread>)
    ensures |r| == |ts|
    ensures forall i :: 0 <= i < |ts| ==> r[i] == if first then Lose1(ts[i]) else Lose2(ts[i])
  {
    seq(|ts|, i requires 0 <= i < |ts| => if first then Lose1(ts[i]) else Lose2(ts[i]))
  }

  /** Thread `i` has stored and goes on to spin. */
  function Arriving(ts: seq<Thread>, i: nat, first: bool): seq<Thread>
    requires i < |ts|
  {
    LoseAll(ts, first)[i := ts[i].(pc := if first then Spin1 else Spin2)]
  }

  function NextRound(t: Thread, rounds: nat): Thread {
    Thread(t.round + 1, if t.round + 1 < rounds then Load1 else Done)
  }

  /** Thread `i` goes to `pc`, everything else unchanged. */
  function Goto(s: State, i: nat, pc: Pc): State
    requires i < |s.ts|
  {
    s.(ts := s.ts[i := s.ts[i].(pc := pc)])
  }

  ghost predicate Step(rounds: nat, s: State, i: nat, s': State)
    requires i < |s.ts|
  {
    var t := s.ts[i];
    match t.pc
    case Load1 => s' == Goto(s, i, Store1(s.c1, true))
    case Store1(v, valid) =>
      || s' == Goto(s, i, Load1)
      || (valid && s' == State(Decremented(v, |s.ts|), s.c2, Arriving(s.ts, i, true)))
    case Spin1 => s' == if s.c1 == 0 then Goto(s, i, Load2) else s
    case Load2 => s' == Goto(s, i, Store2(s.c2, true))
    case Store2(v, valid) =>
      || s' == Goto(s, i, Load2)
      || (valid && s' == State(s.c1, Decremented(v, |s.ts|), Arriving(s.ts, i, false)))
    case Spin2 => s' == if s.c2 == 0 then Goto(s, i, Chunk) else s
    case Chunk => s' == s.(ts := s.ts[i := NextRound(t, rounds)])
    case Done => s' == s
  }

  ghost predicate Initial(rounds: nat, s: State) {
    && s.c1 == 0 && s.c2 == 0 && |s.ts| > 0 && rounds > 0
    && forall i :: 0 <= i < |s.ts| ==> s.ts[i] == Thread(0, Load1)
  }

  // ----- how far a thread has come -----

  /** Arrivals at the first and second barrier, and how often each has been left. */
  function Arrived1(t: Thread): nat {
    t.round + if t.pc.Spin1? || t.pc.Load2? || t.pc.Store2? || t.pc.Spin2? || t.pc.Chunk? then 1 else 0
  }

  function Passed1(t: Thread): nat {
    t.round + if t.pc.Load2? || t.pc.Store2? || t.pc.Spin2? || t.pc.Chunk? then 1 else 0
  }

  function Arrived2(t: Thread): nat {
    t.round + if t.pc.Spin2? || t.pc.Chunk? then 1 else 0
  }

  function Passed2(t: Thread): nat {
    t.round + if t.pc.Chunk? then 1 else 0
  }

  /** The sum of a measure over all threads. */
  function Total(f: Thread -> nat, ts: seq<Thread>): nat {
    if ts == [] then 0 else Total(f, ts[..|ts| - 1]) + f(ts[|ts| - 1])
  }

  // ----- the invariant -----

  /** The counter holds minus the number of arrivals, modulo the number of threads. */
  ghost predicate Counts(c: nat, arrivals: nat, n: nat) {
    n > 0 && c < n && (c + arrivals) % n == 0
  }

  ghost predicate Reserved(s: State) {
    && (forall i :: 0 <= i < |s.ts| && s.ts[i].pc.Store1? && s.ts[i].pc.valid1 ==> s.ts[i].pc.v1 == s.c1)
    && (forall i :: 0 <= i < |s.ts| && s.ts[i].pc.Store2? && s.ts[i].pc.valid2 ==> s.ts[i].pc.v2 == s.c2)
  }

  /** Nobody has left a barrier that somebody has yet to reach. */
  ghost predicate Together(ts: seq<Thread>) {
    forall i, j :: 0 <= i < |ts| && 0 <= j < |ts| ==>
      Passed1(ts[i]) <= Arrived1(ts[j]) && Passed2(ts[i]) <= Arrived2(ts[j])
  }

  ghost predicate InRange(rounds: nat, ts: seq<Thread>) {
    forall i :: 0 <= i < |ts| ==> ts[i].round <= rounds && (ts[i].pc.Done? <==> ts[i].round == rounds)
  }

  ghost predicate Inv(rounds: nat, s: State) {
    && |s.ts| > 0
    && Counts(s.c1, Total(Arrived1, s.ts), |s.ts|)
    && Counts(s.c2, Total(Arrived2, s.ts), |s.ts|)
    && Reserved(s)
    && Together(s.ts)
    && InRange(rounds, s.ts)
  }

  // ----- sums -----

  lemma {:induction false} TotalUpdate(f: Thread -> nat, ts: seq<Thread>, i: nat, t: Thread)
    requires i < |ts|
    ensures Total(f, ts[i := t]) == Total(f, ts) - f(ts[i]) + f(t)
  {
    var k := |ts| - 1;
    if i == k {
      assert ts[i := t][..k] == ts[..k];
    } else {
      assert ts[i := t][..k] == ts[..k][i := t];
      TotalUpdate(f, ts[..k], i, t);
    }
  }

  lemma {:induction false} TotalSame(f: Thread -> nat, ts: seq<Thread>, us: seq<Thread>)
    requires |ts| == |us| && forall i :: 0 <= i < |ts| ==> f(ts[i]) == f(us[i])
    ensures Total(f, ts) == Total(f, us)
  {
    if ts != [] { TotalSame(f, ts[..|ts| - 1], us[..|us| - 1]); }
  }

  /** A measure with values in {k-1, k}: the sum reaches the bounds only when all values are equal. */
  lemma {:induction false} Band(f: Thread -> nat, ts: seq<Thread>, k: nat, i: nat)
    requires k > 0 && forall j :: 0 <= j < |ts| ==> k - 1 <= f(ts[j]) <= k
    ensures |ts| * (k - 1) <= Total(f, ts) <= |ts| * k
    ensures i < |ts| && f(ts[i]) == k ==> Total(f, ts) > |ts| * (k - 1)
    ensures i < |ts| && f(ts[i]) == k - 1 ==> Total(f, ts) < |ts| * k
  {
    if ts != [] {
      var m := |ts| - 1;
      Band(f, ts[..m], k, i);
      Distrib(m, 1, k - 1);
      Distrib(m, 1, k);
    }
  }

  lemma {:induction false} TotalAll(f: Thread -> nat, ts: seq<Thread>, k: nat)
    requires forall i :: 0 <= i < |ts| ==> f(ts[i]) == k
    ensures Total(f, ts) == |ts| * k
  {
    if ts != [] {
      TotalAll(f, ts[..|ts| - 1], k);
      Distrib(|ts| - 1, 1, k);
    }
  }

  /** No multiple of n lies strictly between two consecutive ones. */
  lemma NoMultipleBetween(n: nat, k: nat, x: nat)
    requires n > 0 && k > 0 && x % n == 0 && n * (k - 1) < x <= n * k
    ensures x == n * k
  {
    var q := x / n;
    MulMono(q, k - 1, n);
    MulMono(k, q, n);
  }

  lemma AllAtTop(f: Thread -> nat, ts: seq<Thread>, k: nat, i: nat)
    requires k > 0 && forall j :: 0 <= j < |ts| ==> k - 1 <= f(ts[j]) <= k
    requires i < |ts| && f(ts[i]) == k && Total(f, ts) % |ts| == 0
    ensures forall j :: 0 <= j < |ts| ==> f(ts[j]) == k
  {
    Band(f, ts, k, i);
    NoMultipleBetween(|ts|, k, Total(f, ts));
    forall j | 0 <= j < |ts| ensures f(ts[j]) == k { Band(f, ts, k, j); }
  }

  // ----- leaving a barrier means everybody is there -----

  /** A thread spinning at the first barrier sees zero only when every thread has arrived. */
  lemma ZeroMeansAll1(rounds: nat, s: State, i: nat)
    requires Inv(rounds, s) && i < |s.ts| && s.ts[i].pc.Spin1? && s.c1 == 0
    ensures forall j :: 0 <= j < |s.ts| ==> Arrived1(s.ts[j]) == Arrived1(s.ts[i])
  {
    var k := Arrived1(s.ts[i]);
    forall j | 0 <= j < |s.ts| ensures k - 1 <= Arrived1(s.ts[j]) <= k {
      assert Passed2(s.ts[i]) <= Arrived2(s.ts[j]);
      assert Passed2(s.ts[j]) <= Arrived2(s.ts[i]);
    }
    AllAtTop(Arrived1, s.ts, k, i);
  }

  lemma ZeroMeansAll2(rounds: nat, s: State, i: nat)
    requires Inv(rounds, s) && i < |s.ts| && s.ts[i].pc.Spin2? && s.c2 == 0
    ensures forall j :: 0 <= j < |s.ts| ==> Arrived2(s.ts[j]) == Arrived2(s.ts[i])
  {
    var k := Arrived2(s.ts[i]);
    forall j | 0 <= j < |s.ts| ensures k - 1 <= Arrived2(s.ts[j]) <= k {
      assert Passed1(s.ts[i]) <= Arrived1(s.ts[j]);
      assert Passed1(s.ts[j]) <= Arrived1(s.ts[i]);
    }
    AllAtTop(Arrived2, s.ts, k, i);
  }

  // ----- safety -----

  lemma CountStep(c: nat, arrivals: nat, n: nat)
    requires Counts(c, arrivals, n)
    ensures Counts(Decremented(c, n), arrivals + 1, n)
  {
    if c == 0 {
      assert (n - 1 + arrivals + 1) == n + arrivals;
      AddModulus(arrivals, n);
    }
  }

  lemma AddModulus(a: nat, n: nat)
    requires n > 0
    ensures (n + a) % n == a % n
  {
    var q := a / n;
    assert a == q * n + a % n;
    assert n + a == (q + 1) * n + a % n;
    DivUnique(n + a, n, q + 1);
  }

  /** The steps on which no thread arrives anywhere only move one thread. */
  lemma QuietMove(rounds: nat, s: State, i: nat, t: Thread)
    requires Inv(rounds, s) && i < |s.ts|
    requires Arrived1(t) == Arrived1(s.ts[i]) && Arrived2(t) == Arrived2(s.ts[i])
    requires forall j :: 0 <= j < |s.ts| ==> Passed1(t) <= Arrived1(s.ts[j]) && Passed2(t) <= Arrived2(s.ts[j])
    requires t.round <= rounds && (t.pc.Done? <==> t.round == rounds)
    requires t.pc.Store1? ==> t.pc.v1 == s.c1
    requires t.pc.Store2? ==> t.pc.v2 == s.c2
    ensures Inv(rounds, s.(ts := s.ts[i := t]))
  {
    hide Total, Counts, Together, Arrived1, Arrived2, Passed1, Passed2;
    TotalUpdate(Arrived1, s.ts, i, t);
    TotalUpdate(Arrived2, s.ts, i, t);
    QuietTogether(s.ts, i, t);
  }

  lemma QuietTogether(ts: seq<Thread>, i: nat, t: Thread)
    requires Together(ts) && i < |ts|
    requires Arrived1(t) == Arrived1(ts[i]) && Arrived2(t) == Arrived2(ts[i])
    requires forall j :: 0 <= j < |ts| ==> Passed1(t) <= Arrived1(ts[j]) && Passed2(t) <= Arrived2(ts[j])
    ensures Together(ts[i := t])
  { }

  /** Arriving somewhere without leaving anything keeps the threads together. */
  lemma ArriveTogether(rounds: nat, ts: seq<Thread>, i: nat, first: bool)
    requires Together(ts) && InRange(rounds, ts)
    requires i < |ts| && if first then ts[i].pc.Store1? else ts[i].pc.Store2?
    ensures Together(Arriving(ts, i, first)) && InRange(rounds, Arriving(ts, i, first))
  {
    var us := Arriving(ts, i, first);
    forall j, k | 0 <= j < |us| && 0 <= k < |us|
      ensures Passed1(us[j]) <= Arrived1(us[k]) && Passed2(us[j]) <= Arrived2(us[k])
    {
      ArrivedMore(ts, i, first, j);
      ArrivedMore(ts, i, first, k);
      assert Passed1(ts[j]) <= Arrived1(ts[k]) && Passed2(ts[j]) <= Arrived2(ts[k]);
    }
  }

  lemma ArrivedMore(ts: seq<Thread>, i: nat, first: bool, k: nat)
    requires i < |ts| && k < |ts| && if first then ts[i].pc.Store1? else ts[i].pc.Store2?
    ensures
      var u := Arriving(ts, i, first)[k];
      && Passed1(u) == Passed1(ts[k]) && Passed2(u) == Passed2(ts[k])
      && Arrived1(u) >= Arrived1(ts[k]) && Arrived2(u) >= Arrived2(ts[k])
  { }

  lemma ReservedAfter(s: State, i: nat, first: bool, c: nat)
    requires Reserved(s) && i < |s.ts|
    ensures
      var us := Arriving(s.ts, i, first);
      Reserved(if first then State(c, s.c2, us) else State(s.c1, c, us))
  { }

  lemma Arrive1Keeps(rounds: nat, s: State, i: nat)
    requires Inv(rounds, s) && i < |s.ts| && s.ts[i].pc.Store1? && s.ts[i].pc.valid1
    ensures Inv(rounds, State(Decremented(s.ts[i].pc.v1, |s.ts|), s.c2, Arriving(s.ts, i, true)))
  {
    assert s.ts[i].pc.v1 == s.c1;
    ArrivalCounts(s.ts, i, true);
    CountStep(s.c1, Total(Arrived1, s.ts), |s.ts|);
    ReservedAfter(s, i, true, Decremented(s.c1, |s.ts|));
    ArriveTogether(rounds, s.ts, i, true);
  }

  lemma ArrivalCounts(ts: seq<Thread>, i: nat, first: bool)
    requires i < |ts| && if first then ts[i].pc.Store1? else ts[i].pc.Store2?
    ensures
      var us := Arriving(ts, i, first);
      Total(Arrived1, us) == Total(Arrived1, ts) + (if first then 1 else 0) && Total(Arrived2, us) == Total(Arrived2, ts) + (if first then 0 else 1)
  {
    hide Total, Arriving;
    LosesNothing();
    ArrivalTotal(Arrived1, ts, i, first);
    ArrivalTotal(Arrived2, ts, i, first);
  }

  lemma LosesNothing()
    ensures forall t :: Arrived1(Lose1(t)) == Arrived1(t) && Arrived1(Lose2(t)) == Arrived1(t)
    ensures forall t :: Arrived2(Lose1(t)) == Arrived2(t) && Arrived2(Lose2(t)) == Arrived2(t)
  { }

  lemma ArrivalTotal(f: Thread -> nat, ts: seq<Thread>, i: nat, first: bool)
    requires i < |ts| && forall t :: f(Lose1(t)) == f(t) && f(Lose2(t)) == f(t)
    ensures Total(f, Arriving(ts, i, first)) == Total(f, ts) - f(ts[i]) + f(ts[i].(pc := if first then Spin1 else Spin2))
  {
    hide Total, Lose1, Lose2;
    var us := LoseAll(ts, first);
    TotalSame(f, us, ts);
    TotalUpdate(f, us, i, ts[i].(pc := if first then Spin1 else Spin2));
  }

  lemma Arrive2Keeps(rounds: nat, s: State, i: nat)
    requires Inv(rounds, s) && i < |s.ts| && s.ts[i].pc.Store2? && s.ts[i].pc.valid2
    ensures Inv(rounds, State(s.c1, Decremented(s.ts[i].pc.v2, |s.ts|), Arriving(s.ts, i, false)))
  {
    assert s.ts[i].pc.v2 == s.c2;
    ArrivalCounts(s.ts, i, false);
    CountStep(s.c2, Total(Arrived2, s.ts), |s.ts|);
    ReservedAfter(s, i, false, Decremented(s.c2, |s.ts|));
    ArriveTogether(rounds, s.ts, i, false);
  }

  lemma SelfBounds(rounds: nat, s: State, i: nat)
    requires Inv(rounds, s) && i < |s.ts|
    ensures forall j :: 0 <= j < |s.ts| ==>
      Passed1(s.ts[i]) <= Arrived1(s.ts[j]) && Passed2(s.ts[i]) <= Arrived2(s.ts[j])
  { }

  lemma StepKeeps(rounds: nat, s: State, i: nat, s': State)
    requires Inv(rounds, s) && i < |s.ts| && Step(rounds, s, i, s')
    ensures Inv(rounds, s')
  {
    var t := s.ts[i];
    SelfBounds(rounds, s, i);
    match t.pc
    case Load1 => QuietMove(rounds, s, i, t.(pc := Store1(s.c1, true)));
    case Store1(v, valid) =>
      if s' == Goto(s, i, Load1) {
        QuietMove(rounds, s, i, t.(pc := Load1));
      } else {
        Arrive1Keeps(rounds, s, i);
      }
    case Spin1 =>
      if s.c1 == 0 {
        ZeroMeansAll1(rounds, s, i);
        QuietMove(rounds, s, i, t.(pc := Load2));
      }
    case Load2 => QuietMove(rounds, s, i, t.(pc := Store2(s.c2, true)));
    case Store2(v, valid) =>
      if s' == Goto(s, i, Load2) {
        QuietMove(rounds, s, i, t.(pc := Load2));
      } else {
        Arrive2Keeps(rounds, s, i);
      }
    case Spin2 =>
      if s.c2 == 0 {
        ZeroMeansAll2(rounds, s, i);
        QuietMove(rounds, s, i, t.(pc := Chunk));
      }
    case Chunk => QuietMove(rounds, s, i, NextRound(t, rounds));
    case Done =>
  }

  // ----- runs -----

  /** A run: consecutive states linked by a step of the thread that `who` names. */
  ghost predicate Run(rounds: nat, states: seq<State>, who: seq<nat>) {
    && |states| == |who| + 1
    && Initial(rounds, states[0])
    && forall k :: 0 <= k < |who| ==>
         who[k] < |states[k].ts| && Step(rounds, states[k], who[k], states[k + 1])
  }

  lemma {:induction false} RunInv(rounds: nat, states: seq<State>, who: seq<nat>, k: nat)
    requires Run(rounds, states, who) && k < |states|
    ensures Inv(rounds, states[k])
  {
    if k == 0 {
      TotalAll(Arrived1, states[0].ts, 0);
      TotalAll(Arrived2, states[0].ts, 0);
    } else {
      RunInv(rounds, states, who, k - 1);
      StepKeeps(rounds, states[k - 1], who[k - 1], states[k]);
    }
  }

  /** What the two barriers guarantee in a single state. */
  ghost predicate Synchronised(s: State) {
    forall i, j :: 0 <= i < |s.ts| && 0 <= j < |s.ts| ==>
      // inside chunk r+1 everybody has arrived at both barriers of that round, hence finished r chunks
      && (s.ts[i].pc.Chunk? ==>
            Arrived1(s.ts[j]) > s.ts[i].round && Arrived2(s.ts[j]) > s.ts[i].round && s.ts[j].round >= s.ts[i].round)
      // chunks that overlap in time belong to the same round
      && (s.ts[i].pc.Chunk? && s.ts[j].pc.Chunk? ==> s.ts[i].round == s.ts[j].round)
      // threads are never more than one round apart
      && s.ts[i].round <= s.ts[j].round + 1
  }

  /** Safety over every interleaving: the barriers synchronise, and each counter is minus the number of
      arrivals modulo the number of threads. */
  lemma BarrierSafety(rounds: nat, states: seq<State>, who: seq<nat>, k: nat)
    requires Run(rounds, states, who) && k < |states|
    ensures Synchronised(states[k])
    ensures Counts(states[k].c1, Total(Arrived1, states[k].ts), |states[k].ts|)
    ensures Counts(states[k].c2, Total(Arrived2, states[k].ts), |states[k].ts|)
  {
    RunInv(rounds, states, who, k);
    var s := states[k];
    forall i, j | 0 <= i < |s.ts| && 0 <= j < |s.ts|
      ensures s.ts[i].pc.Chunk? ==>
            Arrived1(s.ts[j]) > s.ts[i].round && Arrived2(s.ts[j]) > s.ts[i].round && s.ts[j].round >= s.ts[i].round
      ensures s.ts[i].pc.Chunk? && s.ts[j].pc.Chunk? ==> s.ts[i].round == s.ts[j].round
      ensures s.ts[i].round <= s.ts[j].round + 1
    {
      assert Passed1(s.ts[i]) <= Arrived1(s.ts[j]) && Passed2(s.ts[i]) <= Arrived2(s.ts[j]);
      assert Passed2(s.ts[j]) <= Arrived2(s.ts[i]);
    }
  }

  // ----- progress -----

  function Position(t: Thread): nat {
    5 * t.round +
    match t.pc
    case Load1 => 0
    case Store1(_, _) => 0
    case Spin1 => 1
    case Load2 => 2
    case Store2(_, _) => 2
    case Spin2 => 3
    case Chunk => 4
    case Done => 0
  }

  lemma {:induction false} ProgressBound(rounds: nat, ts: seq<Thread>)
    requires InRange(rounds, ts)
    ensures Total(Position, ts) <= |ts| * (5 * rounds)
  {
    if ts != [] {
      var m := |ts| - 1;
      assert InRange(rounds, ts[..m]);
      ProgressBound(rounds, ts[..m]);
      assert ts[m].round <= rounds;
      Distrib(m, 1, 5 * rounds);
    }
  }

  lemma CountsZero(c: nat, n: nat, k: nat)
    requires Counts(c, n * k, n)
    ensures c == 0
  {
    var q := (c + n * k) / n;
    DivUnique(c + n * k, n, k);
    assert c + n * k == q * n;
  }

  predicate Spinning(t: Thread) { t.pc.Spin1? || t.pc.Spin2? }

  ghost predicate AllDone(s: State) {
    forall i :: 0 <= i < |s.ts| ==> s.ts[i].pc.Done?
  }

  /** The unfinished thread that is furthest behind. */
  lemma {:induction false} Furthest(ts: seq<Thread>) returns (i: nat)
    requires exists j :: 0 <= j < |ts| && !ts[j].pc.Done?
    ensures i < |ts| && !ts[i].pc.Done?
    ensures forall j :: 0 <= j < |ts| && !ts[j].pc.Done? ==> Position(ts[i]) <= Position(ts[j])
  {
    var m := |ts| - 1;
    if exists j :: 0 <= j < m && !ts[j].pc.Done? {
      var j :| 0 <= j < m && !ts[j].pc.Done?;
      assert !ts[..m][j].pc.Done?;
      i := Furthest(ts[..m]);
      assert forall j :: 0 <= j < m ==> ts[..m][j] == ts[j];
      if !ts[m].pc.Done? && Position(ts[m]) < Position(ts[i]) { i := m; }
    } else {
      i := m;
    }
  }

  /** When it spins, the furthest-behind thread sees zero: everybody else has already arrived. */
  lemma FurthestIsFree(rounds: nat, s: State, i: nat)
    requires Inv(rounds, s) && i < |s.ts| && Spinning(s.ts[i])
    requires forall j :: 0 <= j < |s.ts| && !s.ts[j].pc.Done? ==> Position(s.ts[i]) <= Position(s.ts[j])
    ensures s.ts[i].pc.Spin1? ==> s.c1 == 0
    ensures s.ts[i].pc.Spin2? ==> s.c2 == 0
  {
    var r := s.ts[i].round;
    assert r < rounds;
    forall j | 0 <= j < |s.ts|
      ensures s.ts[i].pc.Spin1? ==> Arrived1(s.ts[j]) == r + 1
      ensures s.ts[i].pc.Spin2? ==> Arrived2(s.ts[j]) == r + 1
    {
      assert s.ts[j].pc.Done? ==> s.ts[j].round == rounds;
      assert Passed1(s.ts[j]) <= Arrived1(s.ts[i]);
      assert Passed2(s.ts[j]) <= Arrived2(s.ts[i]);
    }
    if s.ts[i].pc.Spin1? {
      TotalAll(Arrived1, s.ts, r + 1);
      CountsZero(s.c1, |s.ts|, r + 1);
    } else {
      TotalAll(Arrived2, s.ts, r + 1);
      CountsZero(s.c2, |s.ts|, r + 1);
    }
  }

  /** `path` runs thread `i` alone from `s` and gets ahead. */
  ghost predicate Advance(rounds: nat, s: State, i: nat, path: seq<State>) {
    && i < |s.ts| && 2 <= |path| <= 4 && path[0] == s
    && (forall k :: 0 <= k < |path| ==> |path[k].ts| == |s.ts|)
    && (forall k :: 0 <= k < |path| - 1 ==> Step(rounds, path[k], i, path[k + 1]))
    && Total(Position, path[|path| - 1].ts) > Total(Position, s.ts)
  }

  /** No deadlock: unless all threads have finished, some thread can advance by running alone for at most
      three of its own steps. */
  lemma SomeThreadAdvances(rounds: nat, s: State) returns (i: nat, path: seq<State>)
    requires Inv(rounds, s) && !AllDone(s)
    ensures Advance(rounds, s, i, path)
  {
    i := Furthest(s.ts);
    var t := s.ts[i];
    if Spinning(t) { FurthestIsFree(rounds, s, i); }
    match t.pc
    case Load1 => path := Arrive(rounds, s, i);
    case Load2 => path := Arrive(rounds, s, i);
    case Store1(_, _) => path := Retry(rounds, s, i);
    case Store2(_, _) => path := Retry(rounds, s, i);
    case Spin1 => path := OneStep(rounds, s, i, t.(pc := Load2));
    case Spin2 => path := OneStep(rounds, s, i, t.(pc := Chunk));
    case Chunk => path := OneStep(rounds, s, i, NextRound(t, rounds));
  }

  lemma OneStep(rounds: nat, s: State, i: nat, t: Thread) returns (path: seq<State>)
    requires i < |s.ts| && Step(rounds, s, i, s.(ts := s.ts[i := t])) && Position(t) > Position(s.ts[i])
    ensures Advance(rounds, s, i, path)
  {
    TotalUpdate(Position, s.ts, i, t);
    path := [s, s.(ts := s.ts[i := t])];
  }

  /** A store-exclusive may fail; the thread then starts over. */
  lemma Retry(rounds: nat, s: State, i: nat) returns (path: seq<State>)
    requires i < |s.ts| && (s.ts[i].pc.Store1? || s.ts[i].pc.Store2?)
    ensures Advance(rounds, s, i, path)
  {
    var s1 := Goto(s, i, if s.ts[i].pc.Store1? then Load1 else Load2);
    TotalUpdate(Position, s.ts, i, s1.ts[i]);
    var rest := Arrive(rounds, s1, i);
    path := [s] + rest;
    forall k | 0 <= k < |path| - 1 ensures Step(rounds, path[k], i, path[k + 1]) {
      if k > 0 { assert path[k] == rest[k - 1] && path[k + 1] == rest[k]; }
    }
  }

  /** Load-exclusive followed at once by a successful store-exclusive. */
  lemma Arrive(rounds: nat, s: State, i: nat) returns (path: seq<State>)
    requires i < |s.ts| && (s.ts[i].pc.Load1? || s.ts[i].pc.Load2?)
    ensures |path| == 3 && Advance(rounds, s, i, path)
  {
    var t := s.ts[i];
    var first := t.pc.Load1?;
    var s1 := Goto(s, i, if first then Store1(s.c1, true) else Store2(s.c2, true));
    var us := LoseAll(s1.ts, first);
    var t' := t.(pc := if first then Spin1 else Spin2);
    var s2 := if first then State(Decremented(s.c1, |s.ts|), s.c2, us[i := t'])
              else State(s.c1, Decremented(s.c2, |s.ts|), us[i := t']);
    path := [s, s1, s2];
    ArriveGains(s, i, s1.ts[i], first, t');
  }

  /** Loading and storing the counter is one position further, whatever the others lose. */
  lemma ArriveGains(s: State, i: nat, t1: Thread, first: bool, t': Thread)
    requires i < |s.ts|
    ensures Total(Position, LoseAll(s.ts[i := t1], first)[i := t']) == Total(Position, s.ts) - Position(s.ts[i]) + Position(t')
  {
    var us := LoseAll(s.ts[i := t1], first);
    TotalUpdate(Position, s.ts, i, t1);
    TotalSame(Position, us, s.ts[i := t1]);
    TotalUpdate(Position, us, i, t');
  }

  /** A continuation of a run: `states` linked by steps of the threads that `who` names. */
  ghost predicate Path(rounds: nat, states: seq<State>, who: seq<nat>) {
    && |states| == |who| + 1
    && forall k :: 0 <= k < |who| ==>
         who[k] < |states[k].ts| && Step(rounds, states[k], who[k], states[k + 1])
  }

  lemma {:induction false} AdvanceInv(rounds: nat, s: State, i: nat, path: seq<State>, k: nat)
    requires Inv(rounds, s) && Advance(rounds, s, i, path) && k < |path|
    ensures Inv(rounds, path[k])
  {
    if k > 0 {
      AdvanceInv(rounds, s, i, path, k - 1);
      StepKeeps(rounds, path[k - 1], i, path[k]);
    }
  }

  lemma JoinPaths(rounds: nat, a: seq<State>, i: nat, b: seq<State>, who: seq<nat>)
    requires |a| > 0 && Path(rounds, b, who) && a[|a| - 1] == b[0]
    requires forall k :: 0 <= k < |a| - 1 ==> i < |a[k].ts| && Step(rounds, a[k], i, a[k + 1])
    ensures Path(rounds, a[..|a| - 1] + b, seq(|a| - 1, _ => i) + who)
  {
    var n := |a| - 1;
    var states, ids := a[..n] + b, seq(n, _ => i) + who;
    forall k | 0 <= k < |ids| ensures ids[k] < |states[k].ts| && Step(rounds, states[k], ids[k], states[k + 1]) {
      if k < n {
        assert states[k + 1] == a[k + 1];
      } else {
        assert states[k] == b[k - n] && states[k + 1] == b[k - n + 1] && ids[k] == who[k - n];
      }
    }
  }

  /** From every state a run can reach, some continuation lets all threads finish all rounds. */
  lemma {:induction false} CanFinish(rounds: nat, s: State) returns (states: seq<State>, who: seq<nat>)
    requires Inv(rounds, s)
    ensures Path(rounds, states, who) && states[0] == s && AllDone(states[|states| - 1])
    decreases |s.ts| * (5 * rounds) - Total(Position, s.ts)
  {
    if AllDone(s) {
      states, who := [s], [];
    } else {
      var i, path := SomeThreadAdvances(rounds, s);
      var last := path[|path| - 1];
      AdvanceInv(rounds, s, i, path, |path| - 1);
      ProgressBound(rounds, last.ts);
      var rest, ids := CanFinish(rounds, last);
      JoinPaths(rounds, path, i, rest, ids);
      states, who := path[..|path| - 1] + rest, seq(|path| - 1, _ => i) + ids;
    }
  }

  // ----- the chunks of a run -----

  /** In its `k`-th step the run executes the chunk of thread `i` in round `r`. */
  ghost predicate ExecutesAt(states: seq<State>, who: seq<nat>, i: nat, r: nat, k: nat) {
    k < |who| && k < |states| && who[k] == i && i < |states[k].ts| && states[k].ts[i] == Thread(r, Chunk)
  }

  /** In its `k`-th step the run stores the first or second counter for thread `i`. */
  predicate StoresAt(states: seq<State>, who: seq<nat>, i: nat, first: bool, k: nat)
    requires k < |who| < |states|
  {
    && who[k] == i && i < |states[k].ts| && i < |states[k + 1].ts|
    && (if first then states[k].ts[i].pc.Store1? && states[k + 1].ts[i].pc.Spin1?
        else states[k].ts[i].pc.Store2? && states[k + 1].ts[i].pc.Spin2?)
  }

  /** How often thread `i` has stored a counter in the first `n` steps. */
  function Stores(states: seq<State>, who: seq<nat>, i: nat, first: bool, n: nat): nat
    requires n <= |who| < |states|
  {
    if n == 0 then 0 else Stores(states, who, i, first, n - 1) + if StoresAt(states, who, i, first, n - 1) then 1 else 0
  }

  /** What one step does to the round of a thread and to its arrivals. */
  lemma StepThread(rounds: nat, s: State, j: nat, s': State, i: nat)
    requires j < |s.ts| && i < |s.ts| && Step(rounds, s, j, s')
    ensures |s'.ts| == |s.ts|
    ensures s'.ts[i].round == s.ts[i].round + if i == j && s.ts[i].pc.Chunk? then 1 else 0
    ensures Arrived1(s'.ts[i]) == Arrived1(s.ts[i]) + if i == j && s.ts[i].pc.Store1? && s'.ts[i].pc.Spin1? then 1 else 0
    ensures Arrived2(s'.ts[i]) == Arrived2(s.ts[i]) + if i == j && s.ts[i].pc.Store2? && s'.ts[i].pc.Spin2? then 1 else 0
  { }

  lemma {:induction false} RunThreads(rounds: nat, states: seq<State>, who: seq<nat>, n: nat)
    requires Run(rounds, states, who) && n <= |who|
    ensures |states[n].ts| == |states[0].ts|
  {
    if n > 0 {
      RunThreads(rounds, states, who, n - 1);
      StepThread(rounds, states[n - 1], who[n - 1], states[n], 0);
    }
  }

  /** A thread has stored each counter as often as it has arrived at that barrier. */
  lemma {:induction false} StoresAreArrivals(rounds: nat, states: seq<State>, who: seq<nat>, i: nat, n: nat)
    requires Run(rounds, states, who) && n <= |who| && i < |states[0].ts|
    ensures |states[n].ts| == |states[0].ts|
    ensures Stores(states, who, i, true, n) == Arrived1(states[n].ts[i])
    ensures Stores(states, who, i, false, n) == Arrived2(states[n].ts[i])
  {
    if n > 0 {
      StoresAreArrivals(rounds, states, who, i, n - 1);
      StepThread(rounds, states[n - 1], who[n - 1], states[n], i);
    }
  }

  lemma {:induction false} RoundsGrow(rounds: nat, states: seq<State>, who: seq<nat>, i: nat, m: nat, n: nat)
    requires Run(rounds, states, who) && m <= n <= |who| && i < |states[0].ts|
    ensures i < |states[m].ts| && i < |states[n].ts| && states[m].ts[i].round <= states[n].ts[i].round
    decreases n
  {
    RunThreads(rounds, states, who, m);
    RunThreads(rounds, states, who, n);
    if m < n {
      RoundsGrow(rounds, states, who, i, m, n - 1);
      StepThread(rounds, states[n - 1], who[n - 1], states[n], i);
    }
  }

  /** Every round that a thread has finished it has executed. */
  lemma {:induction false} FinishedMeansExecuted(rounds: nat, states: seq<State>, who: seq<nat>, i: nat, r: nat, n: nat) returns (k: nat)
    requires Run(rounds, states, who) && n <= |who| && i < |states[0].ts|
    requires i < |states[n].ts| && r < states[n].ts[i].round
    ensures k < n && ExecutesAt(states, who, i, r, k)
  {
    RunThreads(rounds, states, who, n - 1);
    StepThread(rounds, states[n - 1], who[n - 1], states[n], i);
    if r < states[n - 1].ts[i].round {
      k := FinishedMeansExecuted(rounds, states, who, i, r, n - 1);
    } else {
      k := n - 1;
    }
  }

  /** Thread `i` executes round `r` in the first `n` steps. */
  ghost predicate Executed(states: seq<State>, who: seq<nat>, i: nat, r: nat, n: nat) {
    exists k: nat :: k < n && ExecutesAt(states, who, i, r, k)
  }

  /** The `k`-th and `l`-th step execute rounds in that order, and one round only once. */
  ghost predicate InOrder(states: seq<State>, who: seq<nat>, i: nat, k: nat, l: nat) {
    forall r: nat, q: nat :: ExecutesAt(states, who, i, r, k) && ExecutesAt(states, who, i, q, l) ==> (r < q <==> k < l)
  }

  /** Up to any point of a run a thread has executed exactly the rounds that it has finished, each once and in order. */
  lemma ChunksInOrder(rounds: nat, states: seq<State>, who: seq<nat>, i: nat, n: nat)
    requires Run(rounds, states, who) && n <= |who| && i < |states[0].ts|
    ensures i < |states[n].ts|
    ensures forall r: nat :: Executed(states, who, i, r, n) <==> r < states[n].ts[i].round
    ensures forall k: nat, l: nat :: InOrder(states, who, i, k, l)
  {
    RunThreads(rounds, states, who, n);
    forall r: nat ensures Executed(states, who, i, r, n) <==> r < states[n].ts[i].round {
      if k: nat :| k < n && ExecutesAt(states, who, i, r, k) {
        StepThread(rounds, states[k], i, states[k + 1], i);
        RoundsGrow(rounds, states, who, i, k + 1, n);
      }
      if r < states[n].ts[i].round {
        var k := FinishedMeansExecuted(rounds, states, who, i, r, n);
      }
    }
    forall k: nat, l: nat ensures InOrder(states, who, i, k, l) {
      forall r: nat, q: nat | ExecutesAt(states, who, i, r, k) && ExecutesAt(states, who, i, q, l)
        ensures r < q <==> k < l
      {
        if k < l { LaterRound(rounds, states, who, i, r, k, q, l); }
        if l < k { LaterRound(rounds, states, who, i, q, l, r, k); }
      }
    }
  }

  lemma LaterRound(rounds: nat, states: seq<State>, who: seq<nat>, i: nat, r: nat, k: nat, q: nat, l: nat)
    requires Run(rounds, states, who) && i < |states[0].ts| && k < l
    requires ExecutesAt(states, who, i, r, k) && ExecutesAt(states, who, i, q, l)
    ensures r < q
  {
    StepThread(rounds, states[k], i, states[k + 1], i);
    RoundsGrow(rounds, states, who, i, k + 1, l);
  }

  /** When a thread executes round `r` it has stored each counter once for every round up to this one: once more than
      in the round before. */
  lemma StoresBeforeChunk(rounds: nat, states: seq<State>, who: seq<nat>, i: nat, r: nat, k: nat)
    requires Run(rounds, states, who) && i < |states[0].ts| && ExecutesAt(states, who, i, r, k)
    ensures Stores(states, who, i, true, k) == r + 1 && Stores(states, who, i, false, k) == r + 1
  {
    StoresAreArrivals(rounds, states, who, i, k);
  }

  /** A complete run executes the chunk of every thread in every round, once, in order, and nothing else. */
  lemma EveryChunkOnce(rounds: nat, states: seq<State>, who: seq<nat>, i: nat)
    requires Run(rounds, states, who) && i < |states[0].ts| && AllDone(states[|who|])
    ensures forall r: nat :: Executed(states, who, i, r, |who|) <==> r < rounds
    ensures forall k: nat, l: nat :: InOrder(states, who, i, k, l)
  {
    ChunksInOrder(rounds, states, who, i, |who|);
    RunInv(rounds, states, who, |who|);
  }
}
