/** The end of a parallelised loop: every worker decrements a shared counter under a spin lock and exits,
    the main thread waits until the counter is zero (`__lock`, `__unlock` in src/arm/program.cpp, the exit
    blocks of `loop_parallel_ex` in src/ir/opt/loop_ops.cpp). */
module ForkJoin {
  datatype Pc =
    | Work                              // still executing its chunks
    | LoadLock                          // ldrex r1, [r0]; cmp r1, #1; beq
    | StoreLock(v: nat, valid: bool)    // strex r2, #1, [r0]
    | LoadCount | StoreCount(c: int)    // barrier := barrier - 1, as a load and a store
    | Unlock | Exited

  /** `lock` is 0 or 1, `count` the shared counter, `joined` whether the main thread has gone on. */
  datatype State = State(lock: nat, count: int, ws: seq<Pc>, joined: bool)

  function Lose(pc: Pc): Pc {
    if pc.StoreLock? then StoreLock(pc.v, false) else pc
  }

  function LoseAll(ws: seq<Pc>): (r: seq<Pc>)
    ensures |r| == |ws| && forall i :: 0 <= i < |ws| ==> r[i] == Lose(ws[i])
  {
    seq(|ws|, i requires 0 <= i < |ws| => Lose(ws[i]))
  }

  function Goto(s: State, i: nat, pc: Pc): State
    requires i < |s.ws|
  {
    s.(ws := s.ws[i := pc])
  }

  ghost predicate WorkerStep(s: State, i: nat, s': State)
    requires i < |s.ws|
  {
    match s.ws[i]
    case Work => s' == s || s' == Goto(s, i, LoadLock)
    case LoadLock => s' == Goto(s, i, if s.lock == 1 then LoadLock else StoreLock(s.lock, true))
    case StoreLock(v, valid) =>
      s' == Goto(s, i, LoadLock) || (valid && s' == s.(lock := 1, ws := LoseAll(s.ws)[i := LoadCount]))
    case LoadCount => s' == Goto(s, i, StoreCount(s.count))
    case StoreCount(c) => s' == Goto(s, i, Unlock).(count := c - 1)
    case Unlock => s' == s.(lock := 0, ws := LoseAll(s.ws)[i := Exited])
    case Exited => s' == s
  }

  ghost predicate MainStep(s: State, s': State) {
    s' == if s.count == 0 then s.(joined := true) else s
  }

  ghost predicate Step(s: State, s': State) {
    MainStep(s, s') || exists i :: 0 <= i < |s.ws| && WorkerStep(s, i, s')
  }

  /** The main thread stores `cnt - 1` before it forks the `cnt - 1` workers. */
  ghost predicate Initial(s: State) {
    && s.lock == 0 && s.count == |s.ws| && !s.joined
    && forall i :: 0 <= i < |s.ws| ==> s.ws[i] == Work
  }

  predicate Inside(pc: Pc) { pc.LoadCount? || pc.StoreCount? || pc.Unlock? }

  predicate Pending(pc: Pc) { !(pc.Unlock? || pc.Exited?) }

  function NumPending(ws: seq<Pc>): nat {
    if ws == [] then 0 else NumPending(ws[..|ws| - 1]) + if Pending(ws[|ws| - 1]) then 1 else 0
  }

  ghost predicate Held(ws: seq<Pc>) {
    exists i :: 0 <= i < |ws| && Inside(ws[i])
  }

  ghost predicate Inv(s: State) {
    && s.lock <= 1
    && s.count == NumPending(s.ws)
    && (s.lock == 0 ==> forall i :: 0 <= i < |s.ws| ==> !Inside(s.ws[i]))
    && (s.lock == 1 ==> Held(s.ws))
    && (forall i, j :: 0 <= i < j < |s.ws| ==> !(Inside(s.ws[i]) && Inside(s.ws[j])))
    && (forall i :: 0 <= i < |s.ws| && s.ws[i].StoreLock? && s.ws[i].valid ==> s.ws[i].v == s.lock == 0)
    && (forall i :: 0 <= i < |s.ws| && s.ws[i].StoreCount? ==> s.ws[i].c == s.count)
    && (s.joined ==> NumPending(s.ws) == 0)
  }

  lemma {:induction false} PendingUpdate(ws: seq<Pc>, i: nat, pc: Pc)
    requires i < |ws|
    ensures NumPending(ws[i := pc]) ==
            NumPending(ws) - (if Pending(ws[i]) then 1 else 0) + (if Pending(pc) then 1 else 0)
  {
    var k := |ws| - 1;
    if i == k {
      assert ws[i := pc][..k] == ws[..k];
    } else {
      assert ws[i := pc][..k] == ws[..k][i := pc];
      PendingUpdate(ws[..k], i, pc);
    }
  }

  lemma {:induction false} PendingLose(ws: seq<Pc>)
    ensures NumPending(LoseAll(ws)) == NumPending(ws)
  {
    if ws != [] {
      assert LoseAll(ws)[..|ws| - 1] == LoseAll(ws[..|ws| - 1]);
      PendingLose(ws[..|ws| - 1]);
    }
  }

  lemma {:induction false} PendingAll(ws: seq<Pc>)
    ensures (forall i :: 0 <= i < |ws| ==> Pending(ws[i])) ==> NumPending(ws) == |ws|
    ensures NumPending(ws) == 0 <==> forall i :: 0 <= i < |ws| ==> !Pending(ws[i])
  {
    if ws != [] {
      PendingAll(ws[..|ws| - 1]);
      assert forall i :: 0 <= i < |ws| - 1 ==> ws[..|ws| - 1][i] == ws[i];
    }
  }

  /** A move of one worker that touches neither the lock nor the counter. */
  lemma QuietKeeps(s: State, i: nat, pc: Pc)
    requires Inv(s) && i < |s.ws| && Inside(pc) == Inside(s.ws[i]) && Pending(pc) == Pending(s.ws[i])
    requires pc.StoreLock? ==> pc.v == s.lock == 0
    requires pc.StoreCount? ==> pc.c == s.count
    ensures Inv(Goto(s, i, pc))
  {
    PendingUpdate(s.ws, i, pc);
    HolderStays(s, i, pc);
  }

  lemma HolderStays(s: State, i: nat, pc: Pc)
    requires i < |s.ws| && Inside(pc) == Inside(s.ws[i])
    ensures Held(s.ws) ==> Held(s.ws[i := pc])
  {
    if Held(s.ws) {
      var j :| 0 <= j < |s.ws| && Inside(s.ws[j]);
      assert Inside(s.ws[i := pc][j]);
    }
  }

  lemma AcquireKeeps(s: State, i: nat)
    requires Inv(s) && i < |s.ws| && s.ws[i].StoreLock? && s.ws[i].valid
    ensures Inv(s.(lock := 1, ws := LoseAll(s.ws)[i := LoadCount]))
  {
    PendingLose(s.ws);
    PendingUpdate(LoseAll(s.ws), i, LoadCount);
    assert Inside(LoseAll(s.ws)[i := LoadCount][i]);
  }

  lemma ReleaseKeeps(s: State, i: nat)
    requires Inv(s) && i < |s.ws| && s.ws[i].Unlock?
    ensures Inv(s.(lock := 0, ws := LoseAll(s.ws)[i := Exited]))
  {
    PendingLose(s.ws);
    PendingUpdate(LoseAll(s.ws), i, Exited);
  }

  lemma DecrementKeeps(s: State, i: nat)
    requires Inv(s) && i < |s.ws| && s.ws[i].StoreCount?
    ensures Inv(Goto(s, i, Unlock).(count := s.ws[i].c - 1))
  {
    PendingUpdate(s.ws, i, Unlock);
    HolderStays(s, i, Unlock);
  }

  lemma WorkerKeeps(s: State, i: nat, s': State)
    requires Inv(s) && i < |s.ws| && WorkerStep(s, i, s')
    ensures Inv(s')
  {
    match s.ws[i]
    case Work => QuietKeeps(s, i, LoadLock);
    case LoadLock => QuietKeeps(s, i, if s.lock == 1 then LoadLock else StoreLock(s.lock, true));
    case StoreLock(v, valid) =>
      QuietKeeps(s, i, LoadLock);
      if valid { AcquireKeeps(s, i); }
    case LoadCount => QuietKeeps(s, i, StoreCount(s.count));
    case StoreCount(c) => DecrementKeeps(s, i);
    case Unlock => ReleaseKeeps(s, i);
    case Exited =>
  }

  ghost predicate Run(states: seq<State>) {
    && states != [] && Initial(states[0])
    && forall k :: 0 <= k < |states| - 1 ==> Step(states[k], states[k + 1])
  }

  lemma {:induction false} RunInv(states: seq<State>, k: nat)
    requires Run(states) && k < |states|
    ensures Inv(states[k])
  {
    if k == 0 {
      PendingAll(states[0].ws);
    } else {
      RunInv(states, k - 1);
      var s, s' := states[k - 1], states[k];
      assert Step(s, s');
      if !MainStep(s, s') {
        var i :| 0 <= i < |s.ws| && WorkerStep(s, i, s');
        WorkerKeeps(s, i, s');
      }
    }
  }

  /** In every interleaving the lock excludes, and the main thread goes on only after every worker has left
      its chunks and performed its decrement. */
  lemma JoinSafety(states: seq<State>, k: nat)
    requires Run(states) && k < |states|
    ensures forall i, j :: 0 <= i < j < |states[k].ws| ==> !(Inside(states[k].ws[i]) && Inside(states[k].ws[j]))
    ensures states[k].joined ==> forall i :: 0 <= i < |states[k].ws| ==> states[k].ws[i].Unlock? || states[k].ws[i].Exited?
  {
    RunInv(states, k);
    PendingAll(states[k].ws);
  }

  // ----- progress -----

  ghost predicate Path(states: seq<State>) {
    states != [] && forall k :: 0 <= k < |states| - 1 ==> Step(states[k], states[k + 1])
  }

  /** The next step of worker `i` when nothing is in its way. */
  function Next(s: State, i: nat): State
    requires i < |s.ws|
  {
    match s.ws[i]
    case Work => Goto(s, i, LoadLock)
    case LoadLock => Goto(s, i, StoreLock(s.lock, true))
    case StoreLock(_, valid) =>
      if valid then s.(lock := 1, ws := LoseAll(s.ws)[i := LoadCount]) else Goto(s, i, LoadLock)
    case LoadCount => Goto(s, i, StoreCount(s.count))
    case StoreCount(c) => Goto(s, i, Unlock).(count := c - 1)
    case Unlock => s.(lock := 0, ws := LoseAll(s.ws)[i := Exited])
    case Exited => s
  }

  function StepsLeft(pc: Pc): nat {
    match pc
    case Work => 7
    case StoreLock(_, valid) => if valid then 5 else 7
    case LoadLock => 6
    case LoadCount => 4
    case StoreCount(_) => 3
    case Unlock => 2
    case Exited => 0
  }

  /** The others stay where they are, except that they may lose their reservations. */
  ghost predicate OthersStay(s: State, s': State, i: nat) {
    |s'.ws| == |s.ws| && forall j :: 0 <= j < |s.ws| && j != i ==> (s'.ws[j].Exited? <==> s.ws[j].Exited?)
  }

  /** A worker that holds the lock, or any worker when the lock is free, can run to its end. */
  lemma {:induction false} OneExits(s: State, i: nat) returns (states: seq<State>)
    requires Inv(s) && i < |s.ws| && (s.lock == 0 || Inside(s.ws[i])) && !s.ws[i].Exited?
    ensures Path(states) && states[0] == s
    ensures var t := states[|states| - 1]; Inv(t) && i < |t.ws| && t.ws[i].Exited? && OthersStay(s, t, i)
    decreases StepsLeft(s.ws[i])
  {
    hide Inv;
    var n := Next(s, i);
    NextIsStep(s, i);
    WorkerKeeps(s, i, n);
    if n.ws[i].Exited? {
      states := [s, n];
    } else {
      var rest := OneExits(n, i);
      states := [s] + rest;
      forall k | 0 <= k < |states| - 1 ensures Step(states[k], states[k + 1]) {
        if k > 0 { assert states[k] == rest[k - 1] && states[k + 1] == rest[k]; }
      }
    }
  }

  lemma NextIsStep(s: State, i: nat)
    requires Inv(s) && i < |s.ws| && (s.lock == 0 || Inside(s.ws[i])) && !s.ws[i].Exited?
    ensures WorkerStep(s, i, Next(s, i)) && Step(s, Next(s, i)) && OthersStay(s, Next(s, i), i)
    ensures Next(s, i).lock == 0 || Inside(Next(s, i).ws[i])
    ensures StepsLeft(Next(s, i).ws[i]) < StepsLeft(s.ws[i])
  {
    assert WorkerStep(s, i, Next(s, i));
  }

  ghost function Remaining(s: State): set<nat> {
    set i: nat | i < |s.ws| && !s.ws[i].Exited?
  }

  /** Someone who can run to the end: the holder of the lock if there is one. */
  lemma SomeoneIsFree(s: State) returns (i: nat)
    requires Inv(s) && Remaining(s) != {}
    ensures i in Remaining(s) && (s.lock == 0 || Inside(s.ws[i]))
  {
    if s.lock == 0 {
      i :| i in Remaining(s);
    } else {
      i :| i < |s.ws| && Inside(s.ws[i]);
    }
  }

  /** From every state that can be reached all workers can exit and the main thread can go on. */
  lemma {:induction false} CanFinish(s: State) returns (states: seq<State>)
    requires Inv(s)
    ensures Path(states) && states[0] == s
    ensures var t := states[|states| - 1]; t.joined && forall i :: 0 <= i < |t.ws| ==> t.ws[i].Exited?
    decreases Remaining(s)
  {
    if Remaining(s) == {} {
      forall i: nat | i < |s.ws| ensures s.ws[i].Exited? { assert i !in Remaining(s); }
      PendingAll(s.ws);
      states := [s, s.(joined := true)];
      assert MainStep(states[0], states[1]);
    } else {
      hide Inv;
      var i := SomeoneIsFree(s);
      var first := OneExits(s, i);
      var t := first[|first| - 1];
      assert i !in Remaining(t);
      var rest := CanFinish(t);
      states := first + rest[1..];
      JoinPaths(first, rest);
    }
  }

  lemma JoinPaths(p: seq<State>, q: seq<State>)
    requires Path(p) && Path(q) && p[|p| - 1] == q[0]
    ensures Path(p + q[1..]) && (p + q[1..])[|p + q[1..]| - 1] == q[|q| - 1]
  {
    var r := p + q[1..];
    forall k | 0 <= k < |r| - 1 ensures Step(r[k], r[k + 1]) {
      if k >= |p| - 1 { assert r[k] == q[k - |p| + 1] && r[k + 1] == q[k - |p| + 2]; }
    }
  }
}
