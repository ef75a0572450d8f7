/** Sequentialisation of the parallel copies that replace the phi functions of one CFG edge
    (`remove_phi`, src/ir/opt/bb_ops.cpp).

    A move only copies registers, so the effect of a list of moves is described by `Origin`: which
    register's initial value ends up in a given register. */
module ParallelCopy {
  import opened FiniteSets

  type Reg = int

  datatype Copy = Copy(src: Reg, dst: Reg)

  // ----- meaning of a list of moves -----

  function Exec(moves: seq<Copy>, s: Reg -> int): Reg -> int {
    if moves == [] then s
    else
      var m := moves[|moves| - 1];
      var t := Exec(moves[..|moves| - 1], s);
      r => if r == m.dst then t(m.src) else t(r)
  }

  function Origin(moves: seq<Copy>, r: Reg): Reg {
    if moves == [] then r
    else
      var m := moves[|moves| - 1];
      Origin(moves[..|moves| - 1], if r == m.dst then m.src else r)
  }

  lemma {:induction false} ExecIsOrigin(moves: seq<Copy>, s: Reg -> int, r: Reg)
    ensures Exec(moves, s)(r) == s(Origin(moves, r))
  {
    if moves != [] {
      var m := moves[|moves| - 1];
      ExecIsOrigin(moves[..|moves| - 1], s, if r == m.dst then m.src else r);
    }
  }

  lemma OriginSnoc(moves: seq<Copy>, m: Copy, r: Reg)
    ensures Origin(moves + [m], r) == Origin(moves, if r == m.dst then m.src else r)
  {
    assert (moves + [m])[..|moves|] == moves;
  }

  // ----- the specification -----

  predicate IsDst(copies: seq<Copy>, r: Reg) {
    exists c :: c in copies && c.dst == r
  }

  predicate IsReg(copies: seq<Copy>, r: Reg) {
    exists c :: c in copies && (c.dst == r || c.src == r)
  }

  /** What `remove_phi` collects on one edge: distinct destinations, no copy of a register to itself. */
  predicate WellFormed(copies: seq<Copy>) {
    && (forall i, j :: 0 <= i < j < |copies| ==> copies[i].dst != copies[j].dst)
    && (forall c :: c in copies ==> c.src != c.dst)
  }

  /** `moves` performs all of `copies` at once; only the scratch register `n` may be clobbered. */
  ghost predicate Simultaneous(moves: seq<Copy>, copies: seq<Copy>, n: Reg) {
    && (forall c :: c in copies ==> Origin(moves, c.dst) == c.src)
    && (forall r: Reg :: r != n && !IsDst(copies, r) ==> Origin(moves, r) == r)
  }

  ghost predicate Distinct(c: seq<Reg>) {
    forall i, j :: 0 <= i < j < |c| ==> c[i] != c[j]
  }

  /** `cyc` lists a cycle of copies: each register receives the next one's value, the last the first's. */
  ghost predicate IsCycle(pred: map<Reg, Reg>, cyc: seq<Reg>) {
    && cyc != []
    && Distinct(cyc)
    && (forall i :: 0 <= i < |cyc| ==> cyc[i] in pred)
    && (forall i {:trigger pred[cyc[i]]} :: 0 <= i < |cyc| - 1 ==> pred[cyc[i]] == cyc[i + 1])
    && pred[cyc[|cyc| - 1]] == cyc[0]
  }

  function Pred(copies: seq<Copy>): map<Reg, Reg> {
    if copies == [] then map[]
    else
      var c := copies[|copies| - 1];
      Pred(copies[..|copies| - 1])[c.dst := c.src]
  }

  /** Two disjoint cycles, the first of which also feeds a register outside itself. */
  ghost predicate Conflict(pred: map<Reg, Reg>, c1: seq<Reg>, c2: seq<Reg>, d: Reg) {
    && IsCycle(pred, c1) && IsCycle(pred, c2)
    && (forall r :: r in c1 ==> r !in c2)
    && d in pred && pred[d] in c1 && d !in c1
  }

  /** The input class on which the emitted code is right. */
  ghost predicate Safe(copies: seq<Copy>) {
    !exists c1, c2, d :: Conflict(Pred(copies), c1, c2, d)
  }

  lemma {:induction false} PredOf(copies: seq<Copy>)
    requires WellFormed(copies)
    ensures forall c :: c in copies ==> c.dst in Pred(copies) && Pred(copies)[c.dst] == c.src
    ensures forall r :: r in Pred(copies) ==> Copy(Pred(copies)[r], r) in copies
    ensures forall r :: r in Pred(copies) <==> IsDst(copies, r)
  {
    if copies != [] {
      var k := |copies| - 1;
      var rest := copies[..k];
      assert copies == rest + [copies[k]];
      PredOf(rest);
      forall c | c in copies
        ensures c.dst in Pred(copies) && Pred(copies)[c.dst] == c.src
      {
        if c != copies[k] {
          var i :| 0 <= i < k && copies[i] == c;
          assert c == rest[i];
        }
      }
      forall r
        ensures r in Pred(copies) ==> Copy(Pred(copies)[r], r) in copies
        ensures r in Pred(copies) <==> IsDst(copies, r)
      {
        if r in Pred(copies) && r != copies[k].dst {
          assert r in Pred(rest);
          assert Copy(Pred(rest)[r], r) in rest;
        }
        if r in Pred(copies) {
          assert Copy(Pred(copies)[r], r).dst == r;
        }
      }
    }
  }

  // ----- readers and finite-set counting -----

  /** The pending destinations (those in `todo`) whose source is `a`. */
  function Readers(pred: map<Reg, Reg>, todo: set<Reg>, a: Reg): set<Reg> {
    set b | b in todo && b in pred && pred[b] == a
  }

  function Count(m: map<Reg, int>, r: Reg): int {
    if r in m then m[r] else 0
  }

  function Image(pred: map<Reg, Reg>, s: set<Reg>): set<Reg>
    requires s <= pred.Keys
  {
    set b | b in s :: pred[b]
  }

  lemma {:induction false} ImageSize(pred: map<Reg, Reg>, s: set<Reg>)
    requires s <= pred.Keys
    ensures |Image(pred, s)| <= |s|
    decreases s
  {
    if s != {} {
      var b := Pick(s);
      ImageSize(pred, s - {b});
      assert Image(pred, s) == Image(pred, s - {b}) + {pred[b]};
    } else {
      assert Image(pred, s) == {};
    }
  }

  /** `pred` restricted to `s` is a bijection of `s`. */
  ghost predicate Permutes(pred: map<Reg, Reg>, s: set<Reg>) {
    && s <= pred.Keys
    && (forall b {:trigger pred[b]} :: b in s ==> pred[b] in s)
    && (forall b, c :: b in s && c in s && pred[b] == pred[c] ==> b == c)
  }

  lemma {:induction false} ImageLoses(pred: map<Reg, Reg>, s: set<Reg>, b: Reg, c: Reg)
    requires s <= pred.Keys && b in s && c in s && b != c && pred[b] == pred[c]
    ensures |Image(pred, s)| < |s|
  {
    var t := s - {b};
    assert Image(pred, s) == Image(pred, t) by {
      forall x | x in Image(pred, s) ensures x in Image(pred, t) {
        var y :| y in s && pred[y] == x;
        assert pred[if y == b then c else y] == x;
      }
    }
    ImageSize(pred, t);
  }

  lemma AllReadIsOnto(pred: map<Reg, Reg>, s: set<Reg>)
    requires s <= pred.Keys
    requires forall a {:trigger Readers(pred, s, a)} :: a in s ==> Readers(pred, s, a) != {}
    ensures Image(pred, s) == s
  {
    var im := Image(pred, s);
    forall a | a in s ensures a in im {
      var b := Pick(Readers(pred, s, a));
      assert pred[b] == a;
    }
    ImageSize(pred, s);
    SubsetSize(s, im);
  }

  /** When every pending destination is still read by a pending copy, what is pending is a union of
      disjoint cycles. */
  lemma AllReadIsPermutation(pred: map<Reg, Reg>, s: set<Reg>)
    requires s <= pred.Keys
    requires forall a {:trigger Readers(pred, s, a)} :: a in s ==> Readers(pred, s, a) != {}
    ensures Permutes(pred, s)
  {
    AllReadIsOnto(pred, s);
    forall b {:trigger pred[b]} | b in s ensures pred[b] in s {
      assert pred[b] in Image(pred, s);
    }
    forall b, c | b in s && c in s && pred[b] == pred[c]
      ensures b == c
    {
      if b != c { ImageLoses(pred, s, b, c); }
    }
  }

  predicate NoSelf(pred: map<Reg, Reg>) {
    forall x {:trigger pred[x]} :: x in pred ==> pred[x] != x
  }

  // ----- cycles -----

  ghost function Elems(c: seq<Reg>): set<Reg> {
    set r | r in c
  }

  /** Two cycles that share a register have the same registers. */
  lemma CyclesMeet(pred: map<Reg, Reg>, c: seq<Reg>, d: seq<Reg>, i: nat, j: nat, k: nat)
    requires IsCycle(pred, c) && IsCycle(pred, d)
    requires i < |c| && j < |d| && c[i] == d[j] && k < |c|
    ensures c[k] in d
    decreases if i <= k then k - i else |c| - i + k
  {
    if i != k {
      var i' := if i + 1 == |c| then 0 else i + 1;
      var j' := if j + 1 == |d| then 0 else j + 1;
      assert c[i'] == pred[c[i]];
      assert d[j'] == pred[d[j]];
      CyclesMeet(pred, c, d, i', j', k);
    }
  }

  /** No register of a cycle is ever ready, since its successor in the cycle still reads it. */
  lemma CycleIsRead(pred: map<Reg, Reg>, todo: set<Reg>, c: seq<Reg>, b: Reg)
    requires IsCycle(pred, c) && Elems(c) <= todo && b in c
    ensures Readers(pred, todo, b) != {}
  {
    var i :| 0 <= i < |c| && c[i] == b;
    var p := c[if i == 0 then |c| - 1 else i - 1];
    assert p in Elems(c);
    assert p in Readers(pred, todo, b);
  }

  // ----- phase 1: the tables -----

  /** `deg` counts, for every register, the pending copies that still read it. */
  ghost predicate CountsReaders(pred: map<Reg, Reg>, todo: set<Reg>, deg: map<Reg, int>) {
    forall a :: Count(deg, a) == |Readers(pred, todo, a)|
  }

  lemma DstIsNew(copies: seq<Copy>, i: nat)
    requires WellFormed(copies) && i < |copies|
    ensures copies[i].dst !in Pred(copies[..i])
  {
    PredOf(copies[..i]);
    assert !IsDst(copies[..i], copies[i].dst);
  }

  lemma ReadersGain(pred: map<Reg, Reg>, src: Reg, dst: Reg, a: Reg)
    requires dst !in pred
    ensures
      var pred' := pred[dst := src];
      |Readers(pred', pred'.Keys, a)| == |Readers(pred, pred.Keys, a)| + if a == src then 1 else 0
  {
    var pred' := pred[dst := src];
    var old0 := Readers(pred, pred.Keys, a);
    assert dst !in old0;
    assert Readers(pred', pred'.Keys, a) == if a == src then old0 + {dst} else old0;
  }

  lemma CountStep(pred: map<Reg, Reg>, deg: map<Reg, int>, src: Reg, dst: Reg)
    requires CountsReaders(pred, pred.Keys, deg) && dst !in pred
    ensures
      var pred' := pred[dst := src];
      CountsReaders(pred', pred'.Keys, deg[src := Count(deg, src) + 1])
  {
    var pred' := pred[dst := src];
    forall a ensures Count(deg[src := Count(deg, src) + 1], a) == |Readers(pred', pred'.Keys, a)| {
      ReadersGain(pred, src, dst, a);
      assert Count(deg, a) == |Readers(pred, pred.Keys, a)|;
    }
  }

  method BuildTables(copies: seq<Copy>) returns (pred: map<Reg, Reg>, deg: map<Reg, int>)
    requires WellFormed(copies)
    ensures pred == Pred(copies)
    ensures CountsReaders(pred, pred.Keys, deg)
  {
    pred, deg := map[], map[];
    for i := 0 to |copies|
      invariant pred == Pred(copies[..i])
      invariant CountsReaders(pred, pred.Keys, deg)
    {
      var c := copies[i];
      assert copies[..i + 1][..i] == copies[..i];
      DstIsNew(copies, i);
      CountStep(pred, deg, c.src, c.dst);
      pred := pred[c.dst := c.src];
      deg := deg[c.src := Count(deg, c.src) + 1];
    }
    assert copies[..|copies|] == copies;
  }

  // ----- phase 2: copies whose destination nobody reads any more -----

  ghost function Target(pred: map<Reg, Reg>, todo: set<Reg>, r: Reg): Reg {
    if r in pred && r !in todo then pred[r] else r
  }

  /** Bookkeeping of `loc`: a register that some finished copy has read, with one such copy's
      destination. */
  ghost predicate LocOk(pred: map<Reg, Reg>, todo: set<Reg>, loc: map<Reg, Reg>) {
    && (forall a {:trigger loc[a]} :: a in loc ==> loc[a] in pred && loc[a] !in todo && pred[loc[a]] == a)
    && (forall b {:trigger pred[b]} :: b in pred && b !in todo ==> pred[b] in loc)
  }

  ghost predicate ReadyOk(pred: map<Reg, Reg>, todo: set<Reg>, ready: seq<Reg>) {
    && Distinct(ready)
    && (forall b :: b in ready <==> b in todo && Readers(pred, todo, b) == {})
  }

  ghost predicate TreeInv(pred: map<Reg, Reg>, todo: set<Reg>, deg: map<Reg, int>, loc: map<Reg, Reg>,
                          ready: seq<Reg>, out: seq<Copy>) {
    && todo <= pred.Keys
    && CountsReaders(pred, todo, deg)
    && (forall x :: x in pred && x !in todo ==> Readers(pred, todo, x) == {})
    && ReadyOk(pred, todo, ready)
    && LocOk(pred, todo, loc)
    && (forall r :: Origin(out, r) == Target(pred, todo, r))
  }

  lemma ReadersLose(pred: map<Reg, Reg>, todo: set<Reg>, b: Reg)
    requires b in todo && b in pred
    ensures forall a {:trigger Readers(pred, todo - {b}, a)} ::
              Readers(pred, todo - {b}, a) == Readers(pred, todo, a) - {b}
    ensures forall a {:trigger Readers(pred, todo - {b}, a)} ::
              |Readers(pred, todo - {b}, a)| == |Readers(pred, todo, a)| - if a == pred[b] then 1 else 0
  {
    forall a {:trigger Readers(pred, todo - {b}, a)}
      ensures Readers(pred, todo - {b}, a) == Readers(pred, todo, a) - {b}
      ensures |Readers(pred, todo - {b}, a)| == |Readers(pred, todo, a)| - if a == pred[b] then 1 else 0
    {
      assert Readers(pred, todo - {b}, a) == Readers(pred, todo, a) - {b};
      assert a == pred[b] <==> b in Readers(pred, todo, a);
    }
  }

  /** The ready list after copying into `b`: the source becomes ready when `b` was its last reader. */
  lemma ReadyStep(pred: map<Reg, Reg>, todo: set<Reg>, ready: seq<Reg>, b: Reg)
    requires todo <= pred.Keys
    requires ReadyOk(pred, todo, ready + [b])
    requires forall x :: x in pred && x !in todo ==> Readers(pred, todo, x) == {}
    requires NoSelf(pred)
    ensures
      var a := pred[b];
      ReadyOk(pred, todo - {b},
              if Readers(pred, todo - {b}, a) == {} && a in pred then ready + [a] else ready)
  {
    hide Readers;
    var a, todo' := pred[b], todo - {b};
    DropLast(ready, b);
    ReadsSource(pred, todo, b);
    ReadersLose(pred, todo, b);
    forall x ensures x in ready <==> x in todo' && Readers(pred, todo, x) == {} { assert x in ready + [b] <==> x in ready || x == b; }
    forall x | x != a ensures Readers(pred, todo', x) == Readers(pred, todo, x) { ReadsOther(pred, todo, b, x); }
    assert a !in ready;
  }

  lemma DropLast(ready: seq<Reg>, b: Reg)
    requires Distinct(ready + [b])
    ensures Distinct(ready) && b !in ready
  {
    var old0 := ready + [b];
    assert old0[|ready|] == b;
    forall i, j | 0 <= i < j < |ready| ensures ready[i] != ready[j] { assert old0[i] != old0[j]; }
    forall i | 0 <= i < |ready| ensures ready[i] != b { assert old0[i] != old0[|ready|]; }
  }

  lemma ReadsSource(pred: map<Reg, Reg>, todo: set<Reg>, b: Reg)
    requires b in todo && b in pred
    ensures b in Readers(pred, todo, pred[b])
  { }

  lemma ReadsOther(pred: map<Reg, Reg>, todo: set<Reg>, b: Reg, x: Reg)
    requires b in pred && x != pred[b]
    ensures Readers(pred, todo - {b}, x) == Readers(pred, todo, x)
  { }

  /** Emits the tree part; what is left afterwards is a permutation of `todo`. */
  method TreePhase(copies: seq<Copy>, pred: map<Reg, Reg>, deg0: map<Reg, int>)
    returns (deg: map<Reg, int>, loc: map<Reg, Reg>, out: seq<Copy>, ghost todo: set<Reg>)
    requires WellFormed(copies) && pred == Pred(copies)
    requires CountsReaders(pred, pred.Keys, deg0)
    ensures Permutes(pred, todo)
    ensures forall x :: Count(deg, x) != 0 <==> x in todo
    ensures LocOk(pred, todo, loc)
    ensures forall r :: Origin(out, r) == Target(pred, todo, r)
    ensures forall c :: IsCycle(pred, c) ==> Elems(c) <= todo
  {
    PredOf(copies);
    deg, loc, out, todo := deg0, map[], [], pred.Keys;
    var ready := InitReady(copies, pred, deg);
    forall c | IsCycle(pred, c) ensures Elems(c) <= todo { }
    while |ready| > 0
      invariant TreeInv(pred, todo, deg, loc, ready, out)
      invariant forall c :: IsCycle(pred, c) ==> Elems(c) <= todo
      decreases todo
    {
      var b := ready[|ready| - 1];
      ready := ready[..|ready| - 1];
      var a := pred[b];
      deg, loc, out, ready := TreeStep(pred, deg, loc, ready, out, todo, b);
      forall c | IsCycle(pred, c) ensures Elems(c) <= todo - {b} {
        if b in c { CycleIsRead(pred, todo, c, b); }
      }
      todo := todo - {b};
    }
    TreeDone(pred, todo, deg, loc, out);
  }

  lemma TreeDone(pred: map<Reg, Reg>, todo: set<Reg>, deg: map<Reg, int>, loc: map<Reg, Reg>, out: seq<Copy>)
    requires TreeInv(pred, todo, deg, loc, [], out)
    ensures Permutes(pred, todo)
    ensures forall x :: Count(deg, x) != 0 <==> x in todo
  {
    var ready: seq<Reg> := [];
    forall a {:trigger Readers(pred, todo, a)} | a in todo ensures Readers(pred, todo, a) != {} {
      assert a !in ready;
    }
    AllReadIsPermutation(pred, todo);
    forall x ensures Count(deg, x) != 0 <==> x in todo {
      assert Count(deg, x) == |Readers(pred, todo, x)|;
      assert forall b :: b in Readers(pred, todo, x) ==> pred[b] in todo;
      if x !in todo { assert Readers(pred, todo, x) == {}; }
    }
  }

  method InitReady(copies: seq<Copy>, pred: map<Reg, Reg>, deg: map<Reg, int>) returns (ready: seq<Reg>)
    requires WellFormed(copies) && pred == Pred(copies)
    requires CountsReaders(pred, pred.Keys, deg)
    ensures ReadyOk(pred, pred.Keys, ready)
  {
    PredOf(copies);
    ready := [];
    for i := 0 to |copies|
      invariant Distinct(ready)
      invariant forall b :: b in ready <==> (exists j :: 0 <= j < i && copies[j].dst == b) && Count(deg, b) == 0
    {
      var b := copies[i].dst;
      if Count(deg, b) == 0 {
        assert b !in ready;
        ready := ready + [b];
      }
    }
    forall b ensures b in ready <==> b in pred && Readers(pred, pred.Keys, b) == {} {
      assert Count(deg, b) == |Readers(pred, pred.Keys, b)|;
      if b in pred {
        var c: Copy :| c in copies && c.dst == b;
        var j :| 0 <= j < |copies| && copies[j] == c;
      }
    }
  }

  /** One iteration: copy into `b`, which nothing pending reads. */
  method TreeStep(pred: map<Reg, Reg>, deg: map<Reg, int>, loc: map<Reg, Reg>, ready: seq<Reg>, out: seq<Copy>,
                  ghost todo: set<Reg>, b: Reg)
    returns (deg': map<Reg, int>, loc': map<Reg, Reg>, out': seq<Copy>, ready': seq<Reg>)
    requires TreeInv(pred, todo, deg, loc, ready + [b], out)
    requires NoSelf(pred)
    ensures b in todo
    ensures TreeInv(pred, todo - {b}, deg', loc', ready', out')
  {
    var a := pred[b];
    ReadyHead(pred, todo, ready, b);
    out' := out + [Copy(a, b)];
    loc' := loc[a := b];
    deg' := deg[a := Count(deg, a) - 1];
    ready' := if deg'[a] == 0 && a in pred then ready + [a] else ready;
    CountLose(pred, todo, deg, b);
    assert Count(deg', a) == |Readers(pred, todo - {b}, a)|;
    ReadyStep(pred, todo, ready, b);
    TreeOrigin(pred, todo, out, b);
    LoseUnread(pred, todo, b);
    LocStep(pred, todo, loc, b);
  }

  lemma ReadyHead(pred: map<Reg, Reg>, todo: set<Reg>, ready: seq<Reg>, b: Reg)
    requires ReadyOk(pred, todo, ready + [b])
    ensures b in todo && Readers(pred, todo, b) == {}
  {
    assert (ready + [b])[|ready|] == b;
  }

  lemma CountLose(pred: map<Reg, Reg>, todo: set<Reg>, deg: map<Reg, int>, b: Reg)
    requires CountsReaders(pred, todo, deg) && b in todo && b in pred
    ensures CountsReaders(pred, todo - {b}, deg[pred[b] := Count(deg, pred[b]) - 1])
  {
    ReadersLose(pred, todo, b);
    var deg' := deg[pred[b] := Count(deg, pred[b]) - 1];
    forall x ensures Count(deg', x) == |Readers(pred, todo - {b}, x)| {
      assert Count(deg, x) == |Readers(pred, todo, x)|;
    }
  }

  lemma LoseUnread(pred: map<Reg, Reg>, todo: set<Reg>, b: Reg)
    requires b in todo && b in pred && Readers(pred, todo, b) == {}
    requires forall x :: x in pred && x !in todo ==> Readers(pred, todo, x) == {}
    ensures forall x :: x in pred && x !in todo - {b} ==> Readers(pred, todo - {b}, x) == {}
  {
    ReadersLose(pred, todo, b);
  }

  lemma TreeOrigin(pred: map<Reg, Reg>, todo: set<Reg>, out: seq<Copy>, b: Reg)
    requires b in todo && b in pred && pred[b] != b
    requires forall x :: x in pred && x !in todo ==> Readers(pred, todo, x) == {}
    requires forall r :: Origin(out, r) == Target(pred, todo, r)
    ensures forall r :: Origin(out + [Copy(pred[b], b)], r) == Target(pred, todo - {b}, r)
  {
    var a := pred[b];
    assert b in Readers(pred, todo, a);
    assert Origin(out, a) == a;
    forall r ensures Origin(out + [Copy(a, b)], r) == Target(pred, todo - {b}, r) {
      OriginSnoc(out, Copy(a, b), r);
    }
  }

  lemma LocStep(pred: map<Reg, Reg>, todo: set<Reg>, loc: map<Reg, Reg>, b: Reg)
    requires LocOk(pred, todo, loc) && b in todo && b in pred
    ensures LocOk(pred, todo - {b}, loc[pred[b] := b])
  { }

  // ----- phase 3: the cycles -----

  /** The moves `l[0] := l[1]; l[1] := l[2]; ...`. */
  function Chain(l: seq<Reg>): seq<Copy> {
    if |l| <= 1 then []
    else Chain(l[..|l| - 1]) + [Copy(l[|l| - 1], l[|l| - 2])]
  }

  lemma ChainSnoc(l: seq<Reg>, k: nat)
    requires 1 <= k < |l|
    ensures Chain(l[..k + 1]) == Chain(l[..k]) + [Copy(l[k], l[k - 1])]
  {
    assert l[..k + 1][..k] == l[..k];
  }

  /** A chain over distinct registers shifts their values by one place. */
  lemma {:induction false} ChainShifts(out: seq<Copy>, l: seq<Reg>, r: Reg)
    requires l != [] && Distinct(l)
    ensures forall i :: 0 <= i < |l| - 1 && l[i] == r ==> Origin(out + Chain(l), r) == Origin(out, l[i + 1])
    ensures r !in l[..|l| - 1] ==> Origin(out + Chain(l), r) == Origin(out, r)
  {
    if |l| == 1 {
      assert out + Chain(l) == out;
    } else {
      var k := |l| - 1;
      var front := l[..k];
      var m := Copy(l[k], l[k - 1]);
      assert out + Chain(l) == (out + Chain(front)) + [m];
      OriginSnoc(out + Chain(front), m, r);
      ChainShifts(out, front, l[k]);
      ChainShifts(out, front, r);
      assert l[k] !in front[..k - 1];
      if r !in l[..k] { assert r !in front[..k - 1]; }
    }
  }

  /** A leftover entry in front of the chain is one more move, executed first. */
  lemma {:induction false} ChainCons(x: Reg, l: seq<Reg>)
    requires l != []
    ensures Chain([x] + l) == [Copy(l[0], x)] + Chain(l)
  {
    var xl := [x] + l;
    if |l| > 1 {
      var k := |l| - 1;
      ChainCons(x, l[..k]);
      assert xl[..k + 1] == [x] + l[..k];
      assert xl[|xl| - 1] == l[k] && xl[|xl| - 2] == l[k - 1];
    } else {
      assert xl[..1] == [x];
    }
  }

  function Reversed(s: seq<Reg>): seq<Reg> {
    seq(|s|, i requires 0 <= i < |s| => s[|s| - 1 - i])
  }

  /** Reverse `ready` and emit until one entry is left. */
  method Drain(full: seq<Reg>, out: seq<Copy>) returns (ready: seq<Reg>, out': seq<Copy>)
    requires full != [] && forall i :: 0 <= i < |full| - 1 ==> full[i] != full[i + 1]
    ensures ready == [full[|full| - 1]]
    ensures out' == out + Chain(full)
  {
    ready, out' := Reversed(full), out;
    ghost var k := 1;
    assert Chain(full[..1]) == [];
    while |ready| > 1
      invariant 1 <= k <= |full|
      invariant |ready| == |full| - k + 1
      invariant forall j :: 0 <= j < |ready| ==> ready[j] == full[|full| - 1 - j]
      invariant out' == out + Chain(full[..k])
    {
      var x := ready[|ready| - 1];
      ready := ready[..|ready| - 1];
      var a := ready[|ready| - 1];
      assert x == full[k - 1] && a == full[k];
      if x != a {
        out' := out' + [Copy(a, x)];
      }
      ChainSnoc(full, k);
      k := k + 1;
    }
    assert full[..|full|] == full;
  }

  /** The walk has copied into `cyc` and goes on at `x`. */
  ghost predicate Walking(pred: map<Reg, Reg>, todo: set<Reg>, deg: map<Reg, int>, cyc: seq<Reg>, b: Reg, x: Reg) {
    && Distinct(cyc) && Elems(cyc) <= todo && x in todo && x !in cyc && todo <= pred.Keys
    && (if cyc == [] then x == b else cyc[0] == b && cyc[|cyc| - 1] in pred && x == pred[cyc[|cyc| - 1]])
    && (forall i :: 0 <= i < |cyc| - 1 ==> cyc[i] in pred && pred[cyc[i]] == cyc[i + 1])
    && (forall y :: Count(deg, y) != 0 <==> y in todo - Elems(cyc))
  }

  lemma WalkStart(pred: map<Reg, Reg>, todo: set<Reg>, deg: map<Reg, int>, b: Reg)
    requires Permutes(pred, todo) && b in todo && forall x :: Count(deg, x) != 0 <==> x in todo
    ensures Walking(pred, todo, deg, [], b, b)
  { }

  lemma WalkOn(pred: map<Reg, Reg>, todo: set<Reg>, deg: map<Reg, int>, cyc: seq<Reg>, b: Reg, x: Reg)
    requires Permutes(pred, todo) && Walking(pred, todo, deg, cyc, b, x)
    ensures x in pred && todo - Elems(cyc + [x]) < todo - Elems(cyc) && cyc + [x] != []
    ensures pred[x] != b ==> Walking(pred, todo, deg[x := 0], cyc + [x], b, pred[x])
    ensures pred[x] == b ==> IsCycle(pred, cyc + [x]) && Elems(cyc + [x]) <= todo && (cyc + [x])[0] == b
    ensures pred[x] == b ==> forall y :: Count(deg[x := 0], y) != 0 <==> y in todo - Elems(cyc + [x])
  {
    hide Count;
    var next := cyc + [x];
    assert Elems(next) == Elems(cyc) + {x};
    assert x in todo - Elems(cyc);
    forall i | 0 <= i < |next| ensures next[i] in pred { assert next[i] in Elems(next); }
    CountsCopied(todo, deg, cyc, x);
    WalkStep(pred, todo, next, pred[x]);
  }

  lemma CountsCopied(todo: set<Reg>, deg: map<Reg, int>, cyc: seq<Reg>, x: Reg)
    requires forall y :: Count(deg, y) != 0 <==> y in todo - Elems(cyc)
    ensures forall y :: Count(deg[x := 0], y) != 0 <==> y in todo - Elems(cyc + [x])
  {
    assert Elems(cyc + [x]) == Elems(cyc) + {x};
    forall y ensures Count(deg[x := 0], y) != 0 <==> y in todo - Elems(cyc + [x]) {
      assert Count(deg, y) != 0 <==> y in todo - Elems(cyc);
    }
  }

  /** Follow `pred` once around the cycle of `b`, clearing the counters. */
  method Walk(pred: map<Reg, Reg>, deg0: map<Reg, int>, ready0: seq<Reg>, b: Reg, ghost todo: set<Reg>)
    returns (deg: map<Reg, int>, ready: seq<Reg>, ghost cyc: seq<Reg>)
    requires Permutes(pred, todo) && b in todo
    requires forall x :: Count(deg0, x) != 0 <==> x in todo
    ensures IsCycle(pred, cyc) && Elems(cyc) <= todo && cyc[0] == b
    ensures ready == ready0 + cyc
    ensures forall x :: Count(deg, x) != 0 <==> x in todo - Elems(cyc)
  {
    hide Walking, IsCycle, Elems, Permutes;
    deg, ready, cyc := deg0, ready0, [];
    var x := b;
    WalkStart(pred, todo, deg, b);
    while true
      invariant Walking(pred, todo, deg, cyc, b, x) && ready == ready0 + cyc
      decreases todo - Elems(cyc)
    {
      WalkOn(pred, todo, deg, cyc, b, x);
      deg := deg[x := 0];
      ready := ready + [x];
      cyc := cyc + [x];
      x := pred[x];
      if x == b { break; }
    }
  }

  /** The walk can only come back to where it started. */
  lemma WalkStep(pred: map<Reg, Reg>, todo: set<Reg>, cyc: seq<Reg>, x: Reg)
    requires Permutes(pred, todo)
    requires cyc != [] && Distinct(cyc) && Elems(cyc) <= todo
    requires forall i :: 0 <= i < |cyc| - 1 ==> cyc[i] in Elems(cyc) && pred[cyc[i]] == cyc[i + 1]
    requires cyc[|cyc| - 1] in Elems(cyc) && x == pred[cyc[|cyc| - 1]]
    ensures x in todo && (x in cyc ==> x == cyc[0])
  {
    forall i | 0 <= i < |cyc| ensures cyc[i] in todo { assert cyc[i] in Elems(cyc); }
    var last := cyc[|cyc| - 1];
    assert pred[last] in todo;
    forall j | 1 <= j < |cyc| ensures cyc[j] != x {
      var p := cyc[j - 1];
      assert p != last && p in todo && pred[p] == cyc[j];
    }
  }

  lemma ReaderOnCycle(pred: map<Reg, Reg>, todo: set<Reg>, cyc: seq<Reg>, b: Reg)
    requires Permutes(pred, todo) && IsCycle(pred, cyc) && Elems(cyc) <= todo && b in todo
    ensures pred[b] in cyc ==> b in cyc
  {
    if pred[b] in cyc {
      var j :| 0 <= j < |cyc| && cyc[j] == pred[b];
      var p := cyc[if j == 0 then |cyc| - 1 else j - 1];
      assert p in Elems(cyc) && pred[p] == pred[b];
    }
  }

  lemma RestPermutes(pred: map<Reg, Reg>, todo: set<Reg>, cyc: seq<Reg>)
    requires Permutes(pred, todo) && IsCycle(pred, cyc) && Elems(cyc) <= todo
    ensures Permutes(pred, todo - Elems(cyc))
  {
    forall b {:trigger pred[b]} | b in todo - Elems(cyc) ensures pred[b] in todo - Elems(cyc) {
      ReaderOnCycle(pred, todo, cyc, b);
    }
  }

  // ----- what the emitted code does, cycle by cycle -----

  /** Registers whose parallel copy is finished hold the right value, except those in `bad`. */
  ghost predicate SoundExcept(pred: map<Reg, Reg>, todo: set<Reg>, bad: set<Reg>, n: Reg, out: seq<Copy>) {
    && (forall r :: r != n && r !in bad ==> Origin(out, r) == Target(pred, todo, r))
    && (forall r :: r in bad ==> r in pred && pred[r] !in todo && Origin(out, r) != pred[r])
  }

  /** The entry that the previous cycle left in `ready`. */
  ghost predicate LeftoverOk(pred: map<Reg, Reg>, todo: set<Reg>, bad: set<Reg>, n: Reg, ready: seq<Reg>) {
    && |ready| <= 1
    && (ready != [] && ready[0] != n ==>
          ready[0] in pred && pred[ready[0]] !in todo && ready[0] !in todo && ready[0] !in bad)
  }

  ghost function BadAfter(bad: set<Reg>, ready: seq<Reg>, n: Reg): set<Reg> {
    if ready != [] && ready[0] != n then bad + {ready[0]} else bad
  }

  /** Effect of breaking one cycle through `t`, where `t` holds the first register's old value.
      A leftover other than the scratch register is overwritten. */
  lemma BreakCycle(pred: map<Reg, Reg>, todo: set<Reg>, bad: set<Reg>, n: Reg, ready: seq<Reg>,
                   cyc: seq<Reg>, t: Reg, out: seq<Copy>)
    requires Permutes(pred, todo) && IsCycle(pred, cyc) && Elems(cyc) <= todo
    requires n !in pred && SoundExcept(pred, todo, bad, n, out) && LeftoverOk(pred, todo, bad, n, ready)
    requires t !in todo && Origin(out, t) == cyc[0] && (ready != [] && ready[0] == t ==> t == n)
    requires t != n ==> t in pred && pred[t] == cyc[0]
    ensures SoundExcept(pred, todo - Elems(cyc), BadAfter(bad, ready, n), n, out + Chain(ready + cyc + [t]))
    ensures LeftoverOk(pred, todo - Elems(cyc), BadAfter(bad, ready, n), n, [t])
  {
    var out1 := if ready == [] then out else out + [Copy(cyc[0], ready[0])];
    BrokenMoves(ready, cyc, t, out);
    assert cyc[0] in Elems(cyc);
    forall r ensures Origin(out1, r) == Origin(out, if ready != [] && r == ready[0] then cyc[0] else r) {
      if ready != [] { OriginSnoc(out, Copy(cyc[0], ready[0]), r); }
    }
    forall r { BrokenValue(pred, todo, bad, n, ready, cyc, t, out, out1, r); }
  }

  lemma BrokenMoves(ready: seq<Reg>, cyc: seq<Reg>, t: Reg, out: seq<Copy>)
    requires |ready| <= 1 && cyc != []
    ensures out + Chain(ready + cyc + [t]) ==
            (if ready == [] then out else out + [Copy(cyc[0], ready[0])]) + Chain(cyc + [t])
  {
    if ready == [] {
      assert ready + cyc + [t] == cyc + [t];
    } else {
      assert ready + cyc + [t] == [ready[0]] + (cyc + [t]);
      ChainCons(ready[0], cyc + [t]);
    }
  }

  lemma BrokenValue(pred: map<Reg, Reg>, todo: set<Reg>, bad: set<Reg>, n: Reg, ready: seq<Reg>,
                    cyc: seq<Reg>, t: Reg, out: seq<Copy>, out1: seq<Copy>, r: Reg)
    requires Permutes(pred, todo) && IsCycle(pred, cyc) && Elems(cyc) <= todo
    requires n !in pred && SoundExcept(pred, todo, bad, n, out) && LeftoverOk(pred, todo, bad, n, ready)
    requires t !in todo && Origin(out, t) == cyc[0] && (ready != [] && ready[0] == t ==> t == n)
    requires forall r :: Origin(out1, r) == Origin(out, if ready != [] && r == ready[0] then cyc[0] else r)
    ensures
      var bad' := BadAfter(bad, ready, n);
      var o := Origin(out1 + Chain(cyc + [t]), r);
      && (r != n && r !in bad' ==> o == Target(pred, todo - Elems(cyc), r))
      && (r in bad' ==> r in pred && pred[r] !in todo && o != pred[r])
  {
    assert r in cyc <==> r in Elems(cyc);
    forall x | x in todo ensures Origin(out1, x) == x { assert Origin(out, x) == x; }
    assert cyc[0] in Elems(cyc);
    assert Origin(out1, t) == cyc[0];
    ChainOfCycle(pred, todo, cyc, t, out1, r);
    hide Origin, IsCycle;
    if r in cyc { assert pred[r] in todo; }
  }

  /** The chain through `t` shifts the cycle by one place and leaves the rest alone. */
  lemma ChainOfCycle(pred: map<Reg, Reg>, todo: set<Reg>, cyc: seq<Reg>, t: Reg, out1: seq<Copy>, r: Reg)
    requires Permutes(pred, todo) && IsCycle(pred, cyc) && Elems(cyc) <= todo && t !in todo && Origin(out1, t) == cyc[0]
    requires forall x :: x in todo ==> Origin(out1, x) == x
    ensures Origin(out1 + Chain(cyc + [t]), r) == if r in cyc then pred[r] else Origin(out1, r)
  {
    var l := cyc + [t];
    forall i | 0 <= i < |cyc| ensures cyc[i] in todo { assert cyc[i] in Elems(cyc); }
    assert Distinct(l);
    ChainShifts(out1, l, r);
    hide Origin;
    assert l[..|l| - 1] == cyc;
    if r in cyc {
      var i :| 0 <= i < |cyc| && cyc[i] == r;
      assert l[i] == r;
      if i + 1 < |cyc| { assert pred[cyc[i]] == cyc[i + 1] && l[i + 1] == cyc[i + 1]; }
    }
  }

  // ----- the whole of it -----

  ghost predicate Covered(cycles: seq<seq<Reg>>, r: Reg) {
    exists i :: 0 <= i < |cycles| && r in cycles[i]
  }

  /** Bookkeeping over the cycles broken so far. */
  ghost predicate CyclesOk(pred: map<Reg, Reg>, all: set<Reg>, todo: set<Reg>, cycles: seq<seq<Reg>>) {
    && todo <= all
    && (forall i :: 0 <= i < |cycles| ==> IsCycle(pred, cycles[i]) && Elems(cycles[i]) <= all)
    && (forall i, r :: 0 <= i < |cycles| && r in cycles[i] ==> r !in todo)
    && (forall r {:trigger Covered(cycles, r)} :: r in all && r !in todo ==> Covered(cycles, r))
    && (forall i, j, r :: 0 <= i < j < |cycles| && r in cycles[i] ==> r !in cycles[j])
  }

  lemma CyclesSnoc(pred: map<Reg, Reg>, all: set<Reg>, todo: set<Reg>, cycles: seq<seq<Reg>>, cyc: seq<Reg>)
    requires CyclesOk(pred, all, todo, cycles) && IsCycle(pred, cyc) && Elems(cyc) <= todo
    ensures CyclesOk(pred, all, todo - Elems(cyc), cycles + [cyc])
  {
    var cs := cycles + [cyc];
    assert forall i :: 0 <= i < |cycles| ==> cs[i] == cycles[i];
    assert cs[|cycles|] == cyc;
    forall r | r in cyc ensures r in todo { assert r in Elems(cyc); }
    forall r {:trigger Covered(cs, r)} | r in all && r !in todo - Elems(cyc)
      ensures Covered(cs, r)
    {
      if r in todo {
        assert r in cs[|cycles|];
      } else {
        assert Covered(cycles, r);
        var i :| 0 <= i < |cycles| && r in cycles[i];
        assert r in cs[i];
      }
    }
  }

  /** Everything the two cycle loops maintain. `locs` counts the cycles broken through `loc`. */
  ghost predicate CycleInv(pred: map<Reg, Reg>, all: set<Reg>, todo: set<Reg>, deg: map<Reg, int>, n: Reg,
                           ready: seq<Reg>, out: seq<Copy>, bad: set<Reg>, cycles: seq<seq<Reg>>, locs: nat) {
    && Permutes(pred, todo) && CyclesOk(pred, all, todo, cycles)
    && (forall x :: Count(deg, x) != 0 <==> x in todo)
    && n !in pred
    && SoundExcept(pred, todo, bad, n, out) && LeftoverOk(pred, todo, bad, n, ready)
    && (bad == {} <==> locs == 0 || |cycles| == 1)
    && locs <= |cycles|
    && (ready == [] <==> cycles == [])
    && (ready != [] ==> (ready[0] != n <==> locs == |cycles|))
  }

  /** Breaks the cycle of `b` through the register `t`. */
  method Break(pred: map<Reg, Reg>, ghost all: set<Reg>, ghost todo: set<Reg>, deg: map<Reg, int>, n: Reg,
               ready: seq<Reg>, out0: seq<Copy>, out: seq<Copy>, ghost bad: set<Reg>,
               ghost cycles: seq<seq<Reg>>, ghost locs: nat, b: Reg, t: Reg)
    returns (deg': map<Reg, int>, ready': seq<Reg>, out': seq<Copy>, ghost cyc: seq<Reg>)
    requires CycleInv(pred, all, todo, deg, n, ready, out0, bad, cycles, locs)
    requires NoSelf(pred)
    requires b in todo && t !in todo && SoundExcept(pred, todo, bad, n, out) && Origin(out, t) == b
    requires t != n ==> t in pred && pred[t] == b && locs == |cycles|
    ensures IsCycle(pred, cyc) && Elems(cyc) <= todo && cyc[0] == b && ready' == [t]
    ensures
      CycleInv(pred, all, todo - Elems(cyc), deg', n, ready', out', BadAfter(bad, ready, n),
               cycles + [cyc], locs + if t == n then 0 else 1)
  {
    deg', ready', cyc := Walk(pred, deg, ready, b, todo);
    ready' := ready' + [t];
    assert ready' == ready + cyc + [t];
    Adjacent(pred, todo, ready, cyc, t);
    ready', out' := Drain(ready', out);
    BreakCycle(pred, todo, bad, n, ready, cyc, t, out);
    RestPermutes(pred, todo, cyc);
    CyclesSnoc(pred, all, todo, cycles, cyc);
  }

  lemma Adjacent(pred: map<Reg, Reg>, todo: set<Reg>, ready: seq<Reg>, cyc: seq<Reg>, t: Reg)
    requires |ready| <= 1 && IsCycle(pred, cyc) && Elems(cyc) <= todo
    requires NoSelf(pred)
    requires t !in todo && (ready != [] ==> ready[0] !in todo)
    ensures
      var full := ready + cyc + [t];
      forall i :: 0 <= i < |full| - 1 ==> full[i] != full[i + 1]
  {
    forall i | 0 <= i < |cyc| ensures cyc[i] in todo { assert cyc[i] in Elems(cyc); }
  }

  /** The register recorded in `loc` still holds the old value of the cycle register it was copied from. */
  lemma LocHolds(pred: map<Reg, Reg>, all: set<Reg>, todo: set<Reg>, loc: map<Reg, Reg>, bad: set<Reg>, n: Reg,
                 out: seq<Copy>, b: Reg)
    requires SoundExcept(pred, todo, bad, n, out) && LocOk(pred, all, loc) && todo <= all
    requires b in todo && b in loc && n !in pred
    ensures loc[b] !in all && loc[b] in pred && pred[loc[b]] == b && Origin(out, loc[b]) == b
  { }

  lemma ScratchHolds(pred: map<Reg, Reg>, todo: set<Reg>, bad: set<Reg>, n: Reg, out: seq<Copy>, b: Reg)
    requires SoundExcept(pred, todo, bad, n, out) && Permutes(pred, todo)
    requires b in todo && n !in pred
    ensures SoundExcept(pred, todo, bad, n, out + [Copy(b, n)])
    ensures Origin(out + [Copy(b, n)], n) == b
  {
    assert pred[b] in todo;
    assert Origin(out, b) == b;
    forall r ensures Origin(out + [Copy(b, n)], r) == if r == n then b else Origin(out, r) {
      OriginSnoc(out, Copy(b, n), r);
    }
  }

  /** Where nothing went wrong, a cycle that feeds an outside register meets every other cycle: it
      would have been broken through `loc`, hence it was the only one. */
  lemma OnlyCycle(pred: map<Reg, Reg>, all: set<Reg>, loc: map<Reg, Reg>, cycles: seq<seq<Reg>>, locs: nat,
                  c1: seq<Reg>, c2: seq<Reg>, d: Reg)
    requires Permutes(pred, all) && CyclesOk(pred, all, {}, cycles) && LocOk(pred, all, loc)
    requires forall c :: IsCycle(pred, c) ==> Elems(c) <= all
    requires locs == 0 ==> forall x :: x in all ==> x !in loc
    requires locs == 0 || |cycles| == 1
    requires IsCycle(pred, c1) && IsCycle(pred, c2) && d in pred && pred[d] in c1 && d !in c1
    ensures c2[0] in c1
  {
    assert c1[0] in Elems(c1) && c2[0] in Elems(c2);
    assert pred[d] in Elems(c1);
    assert d !in all by {
      if d in all { ReaderOnCycle(pred, all, c1, d); }
    }
    assert pred[d] in loc;
    assert Covered(cycles, c1[0]) && Covered(cycles, c2[0]);
    MeetThroughOnly(pred, cycles, c1, c2);
  }

  lemma MeetThroughOnly(pred: map<Reg, Reg>, cycles: seq<seq<Reg>>, c1: seq<Reg>, c2: seq<Reg>)
    requires |cycles| == 1 && IsCycle(pred, cycles[0]) && IsCycle(pred, c1) && IsCycle(pred, c2)
    requires Covered(cycles, c1[0]) && Covered(cycles, c2[0])
    ensures c2[0] in c1
  {
    var p :| 0 <= p < |cycles[0]| && cycles[0][p] == c1[0];
    var q :| 0 <= q < |cycles[0]| && cycles[0][q] == c2[0];
    CyclesMeet(pred, cycles[0], c1, p, 0, q);
  }

  /** Some register outside the cyclic part receives the value of a register of the cycle. */
  ghost predicate FeedsOutside(pred: map<Reg, Reg>, all: set<Reg>, cyc: seq<Reg>) {
    exists d :: d in pred && d !in all && pred[d] in cyc
  }

  lemma SafeIffGood(copies: seq<Copy>, pred: map<Reg, Reg>, all: set<Reg>, loc: map<Reg, Reg>,
                    bad: set<Reg>, cycles: seq<seq<Reg>>, locs: nat)
    requires pred == Pred(copies)
    requires Permutes(pred, all) && CyclesOk(pred, all, {}, cycles) && LocOk(pred, all, loc)
    requires forall c :: IsCycle(pred, c) ==> Elems(c) <= all
    requires locs == 0 ==> forall x :: x in all ==> x !in loc
    requires bad == {} <==> locs == 0 || |cycles| == 1
    requires 0 < locs <= |cycles| ==> FeedsOutside(pred, all, cycles[0])
    requires locs <= |cycles|
    ensures bad == {} <==> Safe(copies)
  {
    if bad == {} {
      forall c1, c2, d' | IsCycle(pred, c1) && IsCycle(pred, c2) && d' in pred && pred[d'] in c1 && d' !in c1
        ensures !Conflict(pred, c1, c2, d')
      {
        OnlyCycle(pred, all, loc, cycles, locs, c1, c2, d');
      }
    } else {
      var d :| d in pred && d !in all && pred[d] in cycles[0];
      assert d !in Elems(cycles[0]);
      assert Conflict(pred, cycles[0], cycles[1], d);
    }
  }

  lemma GoodIsSimultaneous(copies: seq<Copy>, pred: map<Reg, Reg>, bad: set<Reg>, n: Reg, out: seq<Copy>)
    requires WellFormed(copies) && pred == Pred(copies) && n !in pred
    requires SoundExcept(pred, {}, bad, n, out)
    ensures Simultaneous(out, copies, n) <==> bad == {}
  {
    PredOf(copies);
    if bad != {} {
      var r := Pick(bad);
      assert Copy(pred[r], r) in copies;
    }
  }

  /** One iteration of the first loop: breaks the cycle of `b` if `b` is recorded in `loc`. */
  method BreakThroughLoc(pred: map<Reg, Reg>, ghost all: set<Reg>, ghost todo: set<Reg>, loc: map<Reg, Reg>,
                         deg: map<Reg, int>, n: Reg, ready: seq<Reg>, out: seq<Copy>, ghost bad: set<Reg>,
                         ghost cycles: seq<seq<Reg>>, b: Reg)
    returns (deg': map<Reg, int>, ready': seq<Reg>, out': seq<Copy>,
             ghost todo': set<Reg>, ghost bad': set<Reg>, ghost cycles': seq<seq<Reg>>)
    requires NoSelf(pred)
    requires LocOk(pred, all, loc)
    requires CycleInv(pred, all, todo, deg, n, ready, out, bad, cycles, |cycles|)
    requires cycles != [] ==> FeedsOutside(pred, all, cycles[0])
    ensures CycleInv(pred, all, todo', deg', n, ready', out', bad', cycles', |cycles'|)
    ensures cycles' != [] ==> FeedsOutside(pred, all, cycles'[0])
    ensures todo' <= todo && (b in todo' ==> b !in loc)
  {
    deg', ready', out', todo', bad', cycles' := deg, ready, out, todo, bad, cycles;
    if Count(deg, b) != 0 && b in loc {
      ghost var cyc;
      LocHolds(pred, all, todo, loc, bad, n, out, b);
      deg', ready', out', cyc := Break(pred, all, todo, deg, n, ready, out, out, bad, cycles, |cycles|, b, loc[b]);
      assert b in Elems(cyc);
      assert FeedsOutside(pred, all, cyc);
      bad', todo', cycles' := BadAfter(bad, ready, n), todo - Elems(cyc), cycles + [cyc];
    }
  }

  method BreakThroughScratch(pred: map<Reg, Reg>, ghost all: set<Reg>, ghost todo: set<Reg>,
                             deg: map<Reg, int>, n: Reg, ready: seq<Reg>, out: seq<Copy>, ghost bad: set<Reg>,
                             ghost cycles: seq<seq<Reg>>, ghost locs: nat, b: Reg)
    returns (deg': map<Reg, int>, ready': seq<Reg>, out': seq<Copy>,
             ghost todo': set<Reg>, ghost bad': set<Reg>, ghost cyc: seq<Reg>)
    requires NoSelf(pred)
    requires CycleInv(pred, all, todo, deg, n, ready, out, bad, cycles, locs)
    requires Count(deg, b) != 0
    ensures CycleInv(pred, all, todo', deg', n, ready', out', bad', cycles + [cyc], locs)
    ensures todo' <= todo && b !in todo'
  {
    ScratchHolds(pred, todo, bad, n, out, b);
    deg', ready', out', cyc :=
      Break(pred, all, todo, deg, n, ready, out, out + [Copy(b, n)], bad, cycles, locs, b, n);
    assert b in Elems(cyc);
    bad', todo' := BadAfter(bad, ready, n), todo - Elems(cyc);
  }

  ghost predicate NoneInLoc(copies: seq<Copy>, k: nat, todo: set<Reg>, loc: map<Reg, Reg>) {
    forall j :: 0 <= j < |copies| && j < k && copies[j].dst in todo ==> copies[j].dst !in loc
  }

  lemma NoneInLocStep(copies: seq<Copy>, i: nat, todo: set<Reg>, todo': set<Reg>, loc: map<Reg, Reg>)
    requires i < |copies| && NoneInLoc(copies, i, todo, loc) && todo' <= todo
    requires copies[i].dst in todo' ==> copies[i].dst !in loc
    ensures NoneInLoc(copies, i + 1, todo', loc)
  { }

  /** First loop over the copies: cycles with a register recorded in `loc`. */
  method LocLoop(copies: seq<Copy>, pred: map<Reg, Reg>, ghost all: set<Reg>, loc: map<Reg, Reg>,
                 deg0: map<Reg, int>, n: Reg, out0: seq<Copy>)
    returns (deg: map<Reg, int>, ready: seq<Reg>, out: seq<Copy>,
             ghost todo: set<Reg>, ghost bad: set<Reg>, ghost cycles: seq<seq<Reg>>)
    requires NoSelf(pred)
    requires LocOk(pred, all, loc)
    requires CycleInv(pred, all, all, deg0, n, [], out0, {}, [], 0)
    ensures CycleInv(pred, all, todo, deg, n, ready, out, bad, cycles, |cycles|)
    ensures NoneInLoc(copies, |copies|, todo, loc)
    ensures cycles != [] ==> FeedsOutside(pred, all, cycles[0])
  {
    deg, ready, out, todo, bad, cycles := deg0, [], out0, all, {}, [];
    for i := 0 to |copies|
      invariant CycleInv(pred, all, todo, deg, n, ready, out, bad, cycles, |cycles|)
      invariant NoneInLoc(copies, i, todo, loc)
      invariant cycles != [] ==> FeedsOutside(pred, all, cycles[0])
    {
      ghost var todo1 := todo;
      deg, ready, out, todo, bad, cycles :=
        BreakThroughLoc(pred, all, todo, loc, deg, n, ready, out, bad, cycles, copies[i].dst);
      NoneInLocStep(copies, i, todo1, todo, loc);
    }
  }

  /** Second loop: the remaining cycles, broken through the scratch register. */
  method ScratchLoop(copies: seq<Copy>, pred: map<Reg, Reg>, ghost all: set<Reg>, ghost todo0: set<Reg>,
                     deg0: map<Reg, int>, n: Reg, ready0: seq<Reg>, out0: seq<Copy>,
                     ghost bad0: set<Reg>, ghost cycles0: seq<seq<Reg>>)
    returns (out: seq<Copy>, ghost todo: set<Reg>, ghost bad: set<Reg>, ghost cycles: seq<seq<Reg>>)
    requires NoSelf(pred)
    requires CycleInv(pred, all, todo0, deg0, n, ready0, out0, bad0, cycles0, |cycles0|)
    ensures CyclesOk(pred, all, todo, cycles) && cycles0 <= cycles
    ensures SoundExcept(pred, todo, bad, n, out)
    ensures bad == {} <==> |cycles0| == 0 || |cycles| == 1
    ensures forall j :: 0 <= j < |copies| ==> copies[j].dst !in todo
  {
    hide SoundExcept, LeftoverOk, Permutes, CyclesOk, Count;
    var deg, ready := deg0, ready0;
    out, todo, bad, cycles := out0, todo0, bad0, cycles0;
    for i := 0 to |copies|
      invariant CycleInv(pred, all, todo, deg, n, ready, out, bad, cycles, |cycles0|)
      invariant cycles0 <= cycles
      invariant forall j :: 0 <= j < i ==> copies[j].dst !in todo
    {
      var b := copies[i].dst;
      if Count(deg, b) != 0 {
        ghost var cyc;
        ghost var todo1 := todo;
        deg, ready, out, todo, bad, cyc :=
          BreakThroughScratch(pred, all, todo, deg, n, ready, out, bad, cycles, |cycles0|, b);
        cycles := cycles + [cyc];
        assert todo <= todo1;
      }
    }
  }

  lemma DstsCover(copies: seq<Copy>, todo: set<Reg>)
    requires WellFormed(copies) && todo <= Pred(copies).Keys
    ensures (forall j :: 0 <= j < |copies| ==> copies[j].dst !in todo) ==> todo == {}
    ensures forall x :: x in todo ==> exists j :: 0 <= j < |copies| && copies[j].dst == x
  {
    PredOf(copies);
    forall x | x in todo ensures exists j :: 0 <= j < |copies| && copies[j].dst == x {
      assert Copy(Pred(copies)[x], x) in copies;
    }
  }

  lemma StartOk(pred: map<Reg, Reg>, all: set<Reg>, deg: map<Reg, int>, n: Reg, out: seq<Copy>)
    requires Permutes(pred, all) && n !in pred
    requires forall x :: Count(deg, x) != 0 <==> x in all
    requires forall r :: Origin(out, r) == Target(pred, all, r)
    ensures CycleInv(pred, all, all, deg, n, [], out, {}, [], 0)
  { }

  /** The emitted moves are the parallel copy exactly when the input is `Safe`. */
  method RemovePhiCopies(copies: seq<Copy>, n: Reg) returns (out: seq<Copy>)
    requires WellFormed(copies) && !IsReg(copies, n)
    ensures Simultaneous(out, copies, n) <==> Safe(copies)
  {
    var pred, deg := BuildTables(copies);
    NoSelfNoScratch(copies, pred, n);
    var loc;
    ghost var all, todo, bad, cycles;
    deg, loc, out, all := TreePhase(copies, pred, deg);
    StartOk(pred, all, deg, n, out);
    var ready;
    deg, ready, out, todo, bad, cycles := LocLoop(copies, pred, all, loc, deg, n, out);
    ghost var locs := |cycles|;
    DstsCover(copies, todo);
    forall x | locs == 0 && x in all ensures x in todo { assert !Covered(cycles, x); }
    assert locs == 0 ==> forall x :: x in all ==> x !in loc;
    out, todo, bad, cycles := ScratchLoop(copies, pred, all, todo, deg, n, ready, out, bad, cycles);
    DstsCover(copies, todo);
    GoodIsSimultaneous(copies, pred, bad, n, out);
    SafeIffGood(copies, pred, all, loc, bad, cycles, locs);
  }

  lemma NoSelfNoScratch(copies: seq<Copy>, pred: map<Reg, Reg>, n: Reg)
    requires WellFormed(copies) && !IsReg(copies, n) && pred == Pred(copies)
    ensures NoSelf(pred)
    ensures n !in pred
  {
    PredOf(copies);
    forall x | x in pred ensures pred[x] != x && x != n {
      var c := Copy(pred[x], x);
      assert c in copies;
    }
  }

  // ----- corollaries -----

  /** Read on machine states: after the moves every destination holds its source's old value, and every
      other register but the scratch one is unchanged; and only a safe input has this property. */
  lemma SimultaneousOnStates(moves: seq<Copy>, copies: seq<Copy>, n: Reg)
    requires WellFormed(copies) && !IsReg(copies, n)
    ensures Simultaneous(moves, copies, n) <==>
            forall s: Reg -> int ::
              && (forall c :: c in copies ==> Exec(moves, s)(c.dst) == s(c.src))
              && (forall r: Reg :: r != n && !IsDst(copies, r) ==> Exec(moves, s)(r) == s(r))
  {
    forall s: Reg -> int, r: Reg ensures Exec(moves, s)(r) == s(Origin(moves, r)) {
      ExecIsOrigin(moves, s, r);
    }
    var id: Reg -> int := r => r;
    assert forall r: Reg :: Exec(moves, id)(r) == id(Origin(moves, r)) == Origin(moves, r);
  }

  /** Two swaps, the first of which also feeds register 5: the second swap overwrites register 5. */
  lemma TwoCycle(pred: map<Reg, Reg>, a: Reg, b: Reg)
    requires a != b && a in pred && b in pred && pred[a] == b && pred[b] == a
    ensures IsCycle(pred, [a, b])
  { }

  lemma UnsafeExample()
    ensures
      var copies := [Copy(2, 1), Copy(1, 2), Copy(1, 5), Copy(4, 3), Copy(3, 4)];
      WellFormed(copies) && !Safe(copies)
  {
    var copies := [Copy(2, 1), Copy(1, 2), Copy(1, 5), Copy(4, 3), Copy(3, 4)];
    var pred := Pred(copies);
    PredOf(copies);
    assert copies[0] in copies && copies[1] in copies && copies[2] in copies && copies[3] in copies && copies[4] in copies;
    hide Pred;
    TwoCycle(pred, 1, 2);
    TwoCycle(pred, 3, 4);
    assert Conflict(pred, [1, 2], [3, 4], 5);
  }
}
