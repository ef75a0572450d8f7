/** How `loop_parallel_ex` deals the iterations of a counting loop out to its threads
    (src/ir/opt/loop_ops.cpp): thread k of cnt starts at `l + step*(k-1)` and stops before the next start,
    the last one runs to the end; `step = (r - l) / cnt` in 32-bit arithmetic. */
module Chunks {
  import opened Word32

  function Range(a: int, b: int): seq<int> {
    if a < b then seq(b - a, i => a + i) else []
  }

  function StepOf(l: int, r: int, cnt: nat): int
    requires cnt > 0
  {
    CDiv(Wrap(r - l), cnt)
  }

  function Start(l: int, r: int, cnt: nat, k: nat): int
    requires cnt > 0
  {
    Wrap(l + Wrap(StepOf(l, r, cnt) * (k - 1)))
  }

  /** One past the last iteration: the loop condition is `i < r` or `i <= r`. */
  function End(r: int, eq: bool): int {
    if eq then r + 1 else r
  }

  /** The iterations of thread `k`. */
  function Chunk(l: int, r: int, eq: bool, cnt: nat, k: nat): seq<int>
    requires cnt > 0
  {
    var lo := Start(l, r, cnt, k);
    Range(lo, if k < cnt then Wrap(lo + StepOf(l, r, cnt)) else End(r, eq))
  }

  /** The iterations of the first `k` threads, thread by thread. */
  function Dealt(l: int, r: int, eq: bool, cnt: nat, k: nat): seq<int>
    requires cnt > 0
  {
    if k == 0 then [] else Dealt(l, r, eq, cnt, k - 1) + Chunk(l, r, eq, cnt, k)
  }

  lemma RangeJoin(a: int, b: int, c: int)
    requires a <= b <= c
    ensures Range(a, b) + Range(b, c) == Range(a, c)
  { }

  /** The unwrapped start of thread `k`. */
  function RawStart(l: int, step: int, k: nat): int {
    l + step * (k - 1)
  }

  lemma StartIs(l: int, r: int, cnt: nat, k: nat)
    requires cnt > 0
    ensures Start(l, r, cnt, k) == Wrap(RawStart(l, StepOf(l, r, cnt), k))
    ensures Wrap(Start(l, r, cnt, k) + StepOf(l, r, cnt)) == Wrap(RawStart(l, StepOf(l, r, cnt), k + 1))
  {
    hide Wrap, StepOf;
    var s := StepOf(l, r, cnt);
    WrapAdd(l, s * (k - 1));
    WrapAdd(l + s * (k - 1), s);
    Distrib(k - 1, 1, s);
  }

  /** `cnt` steps stay within the distance they divide, and fewer do not reach a negative one. */
  lemma StepBounds(d: int, cnt: nat, k: nat)
    requires cnt > 0 && k <= cnt
    ensures
      var s := CDiv(d, cnt);
      if d >= 0 then 0 <= s && 0 <= s * k <= d else s <= 0 && d <= s * k <= 0 && (k < cnt ==> d < s * k)
  {
    CDivMod(d, cnt);
    CDivIs(d, cnt);
    var s := CDiv(d, cnt);
    var n := if d >= 0 then s else -s;
    MulMono(k, cnt, if n > 0 then n else 1);
    MulMono(k + 1, cnt, if n > 0 then n else 1);
    Distrib(k, 1, n);
    NegMul(s, k);
    NegMul(s, cnt);
  }

  lemma RawBounds(l: int, r: int, cnt: nat, k: nat)
    requires 0 < cnt && 1 <= k <= cnt + 1 && IsInt32(r - l)
    ensures
      var x, s := RawStart(l, StepOf(l, r, cnt), k), StepOf(l, r, cnt);
      if l <= r then l <= x <= r && s >= 0 else r <= x <= l && s <= 0 && (k <= cnt ==> r < x)
  {
    WrapId(r - l);
    StepBounds(r - l, cnt, k - 1);
  }

  /** Without overflow in `r - l`, the threads before the last cover the start of the range in order. */
  lemma {:induction false} DealtPrefix(l: int, r: int, eq: bool, cnt: nat, k: nat)
    requires IsInt32(l) && IsInt32(r) && IsInt32(r - l) && k < cnt
    ensures Dealt(l, r, eq, cnt, k) == Range(l, RawStart(l, StepOf(l, r, cnt), k + 1))
  {
    if k > 0 {
      DealtPrefix(l, r, eq, cnt, k - 1);
      StartIs(l, r, cnt, k);
      RawBounds(l, r, cnt, k);
      RawBounds(l, r, cnt, k + 1);
      var s := StepOf(l, r, cnt);
      Distrib(k - 1, 1, s);
      WrapId(RawStart(l, s, k));
      WrapId(RawStart(l, s, k + 1));
      if s >= 0 { RangeJoin(l, RawStart(l, s, k), RawStart(l, s, k + 1)); }
    }
  }

  /** Every iteration is dealt exactly once, in order. */
  lemma DealtAll(l: int, r: int, eq: bool, cnt: nat)
    requires IsInt32(l) && IsInt32(r) && cnt > 0
    requires IsInt32(r - l) || cnt == 1
    ensures Dealt(l, r, eq, cnt, cnt) == Range(l, End(r, eq))
  {
    if cnt == 1 {
      WrapId(l);
      assert Dealt(l, r, eq, 1, 1) == Dealt(l, r, eq, 1, 0) + Chunk(l, r, eq, 1, 1);
      assert Start(l, r, 1, 1) == l;
    } else {
      DealtMany(l, r, eq, cnt);
    }
  }

  lemma DealtMany(l: int, r: int, eq: bool, cnt: nat)
    requires IsInt32(l) && IsInt32(r) && cnt > 1 && IsInt32(r - l)
    ensures Dealt(l, r, eq, cnt, cnt) == Range(l, End(r, eq))
  {
    var lo := RawStart(l, StepOf(l, r, cnt), cnt);
    StartIs(l, r, cnt, cnt);
    DealtPrefix(l, r, eq, cnt, cnt - 1);
    RawBounds(l, r, cnt, cnt);
    WrapId(lo);
    assert Chunk(l, r, eq, cnt, cnt) == Range(lo, End(r, eq));
    if l <= r { RangeJoin(l, lo, End(r, eq)); }
  }

  // ----- overflow of `r - l` -----

  /** The one loop for which two wrong chunks make up the right range: two threads counting to the last but one
      number; the first does everything. */
  predicate Lucky(l: int, r: int, eq: bool, cnt: nat) {
    eq && cnt == 2 && l == -TWO31 && r == TWO31 - 2
  }

  lemma LuckyDealt(l: int, r: int, eq: bool, cnt: nat)
    requires Lucky(l, r, eq, cnt)
    ensures Dealt(l, r, eq, cnt, cnt) == Range(l, End(r, eq))
  {
    assert Wrap(r - l) == -2;
    CDivIs(-2, 2);
    assert StepOf(l, r, 2) == -1;
    WrapId(l);
    WrapId(-1);
    assert Wrap(l - 1) == TWO31 - 1;
    assert Start(l, r, 2, 1) == l && Start(l, r, 2, 2) == TWO31 - 1;
    assert Dealt(l, r, eq, 2, 1) == Dealt(l, r, eq, 2, 0) + Chunk(l, r, eq, 2, 1);
    assert Chunk(l, r, eq, 2, 2) == [];
  }

  lemma StepShortOfTwo(d: int)
    requires d <= -3
    ensures CDiv(d, 2) - d >= 2
  {
    CDivIs(d, 2);
  }

  /** Threads get something else than the loop's iterations when `r - l` overflows and the step is not 0. */
  lemma OverflowDealsWrong(l: int, r: int, eq: bool, cnt: nat)
    requires IsInt32(l) && IsInt32(r) && cnt > 1 && !Lucky(l, r, eq, cnt)
    requires !IsInt32(r - l) && StepOf(l, r, cnt) != 0
    ensures exists x :: x in Dealt(l, r, eq, cnt, cnt) && x !in Range(l, End(r, eq))
  {
    var s := StepOf(l, r, cnt);
    if l < r {
      assert Wrap(r - l) == r - l - TWO32;
      StepBounds(r - l - TWO32, cnt, 1);
      StrayAbove(l, r, eq, cnt, s);
    } else {
      assert Wrap(r - l) == r - l + TWO32;
      StrayBelow(l, r, eq, cnt, s);
    }
  }

  lemma {:induction false} ChunkDealt(l: int, r: int, eq: bool, cnt: nat, k: nat, n: nat, x: int)
    requires cnt > 0 && 1 <= k <= n && x in Chunk(l, r, eq, cnt, k)
    ensures x in Dealt(l, r, eq, cnt, n)
  {
    if k < n { ChunkDealt(l, r, eq, cnt, k, n - 1, x); }
  }

  lemma InRange(a: int, b: int, x: int)
    ensures x in Range(a, b) <==> a <= x < b
  {
    if a <= x < b { assert Range(a, b)[x - a] == x; }
  }

  lemma WrapOnce(x: int)
    requires -TWO31 - TWO32 <= x < TWO31 + TWO32
    ensures Wrap(x) == if x < -TWO31 then x + TWO32 else if x >= TWO31 then x - TWO32 else x
  {
    if x < -TWO31 { WrapCong(x, x + TWO32, -1); WrapId(x + TWO32); }
    else if x >= TWO31 { WrapCong(x, x - TWO32, 1); WrapId(x - TWO32); }
    else { WrapId(x); }
  }

  /** The start that is the first to wrap around, if any does. */
  lemma {:induction false} FirstWrap(l: int, s: int, n: nat) returns (k: nat)
    requires IsInt32(l) && s < 0 && n >= 1 && RawStart(l, s, n) < -TWO31
    ensures 1 <= k < n && RawStart(l, s, k) >= -TWO31 && RawStart(l, s, k + 1) < -TWO31
    ensures RawStart(l, s, k + 1) == RawStart(l, s, k) + s
    ensures RawStart(l, s, k) <= l && (k == 1 ==> RawStart(l, s, k) == l) && (k > 1 ==> RawStart(l, s, k) < l)
  {
    assert RawStart(l, s, 1) == l;
    if RawStart(l, s, n - 1) < -TWO31 {
      k := FirstWrap(l, s, n - 1);
    } else {
      k := n - 1;
      Distrib(k - 1, 1, s);
      MulMono(1 - k, 0, -s);
      NegMul(k - 1, s);
    }
  }

  /** The step is shorter than the whole (wrapped) distance by at least cnt - 1. */
  lemma StepShort(d: int, cnt: nat)
    requires cnt > 1 && d < 0 && CDiv(d, cnt) != 0
    ensures CDiv(d, cnt) < 0 && CDiv(d, cnt) - d >= cnt - 1
  {
    CDivMod(d, cnt);
    StepBounds(d, cnt, 1);
    var q := -CDiv(d, cnt);
    assert q >= 1;
    NegMul(q, cnt);
    Distrib(cnt - 1, 1, q);
    MulMono(1, q, cnt - 1);
  }

  lemma StrayAbove(l: int, r: int, eq: bool, cnt: nat, s: int)
    requires IsInt32(l) && IsInt32(r) && cnt > 1 && !Lucky(l, r, eq, cnt) && r - l >= TWO31
    requires s == StepOf(l, r, cnt) && s != 0 && Wrap(r - l) == r - l - TWO32
    ensures exists x :: x in Dealt(l, r, eq, cnt, cnt) && x !in Range(l, End(r, eq))
  {
    StepShort(r - l - TWO32, cnt);
    StepBounds(r - l - TWO32, cnt, cnt - 1);
    if cnt == 2 && r - l - TWO32 <= -3 { StepShortOfTwo(r - l - TWO32); }
    var last := RawStart(l, s, cnt);
    if last >= -TWO31 {
      StrayLast(l, r, eq, cnt, s);
    } else {
      var k := FirstWrap(l, s, cnt);
      assert cnt == 2 ==> RawStart(l, s, 2) == l + s;
      StrayWrapped(l, r, eq, cnt, s, k);
    }
  }

  lemma StartBelow(l: int, s: int, cnt: nat)
    requires cnt > 1 && s < 0
    ensures RawStart(l, s, cnt) < l
  {
    MulMono(1, cnt - 1, -s);
    NegMul(s, cnt - 1);
  }

  lemma StrayLast(l: int, r: int, eq: bool, cnt: nat, s: int)
    requires IsInt32(l) && IsInt32(r) && cnt > 1 && l <= r && s == StepOf(l, r, cnt) && s < 0
    requires RawStart(l, s, cnt) >= -TWO31
    ensures exists x :: x in Dealt(l, r, eq, cnt, cnt) && x !in Range(l, End(r, eq))
  {
    var x := RawStart(l, s, cnt);
    StartBelow(l, s, cnt);
    StartIs(l, r, cnt, cnt);
    WrapId(x);
    InRange(x, End(r, eq), x);
    ChunkDealt(l, r, eq, cnt, cnt, cnt, x);
    InRange(l, End(r, eq), x);
  }

  lemma StrayWrapped(l: int, r: int, eq: bool, cnt: nat, s: int, k: nat)
    requires IsInt32(l) && IsInt32(r) && cnt > 1 && l <= r
    requires s == StepOf(l, r, cnt) && -TWO31 <= s < 0 && s - (r - l - TWO32) >= (if eq && cnt == 2 then 2 else cnt - 1)
    requires 1 <= k < cnt && -TWO31 <= RawStart(l, s, k) <= l && RawStart(l, s, k + 1) < -TWO31
    requires RawStart(l, s, k + 1) == RawStart(l, s, k) + s
    requires (k == 1 ==> RawStart(l, s, k) == l) && (k > 1 ==> RawStart(l, s, k) < l)
    ensures exists x :: x in Dealt(l, r, eq, cnt, cnt) && x !in Range(l, End(r, eq))
  {
    var lo, hi := RawStart(l, s, k), RawStart(l, s, k + 1) + TWO32;
    StartIs(l, r, cnt, k);
    WrapId(lo);
    WrapOnce(hi - TWO32);
    var x := if k > 1 then lo else End(r, eq);
    InRange(lo, hi, x);
    ChunkDealt(l, r, eq, cnt, k, cnt, x);
    InRange(l, End(r, eq), x);
  }

  lemma StrayBelow(l: int, r: int, eq: bool, cnt: nat, s: int)
    requires IsInt32(l) && IsInt32(r) && cnt > 1 && r - l < -TWO31
    requires s == StepOf(l, r, cnt) && s != 0 && Wrap(r - l) == r - l + TWO32
    ensures exists x :: x in Dealt(l, r, eq, cnt, cnt) && x !in Range(l, End(r, eq))
  {
    var d := r - l + TWO32;
    StepBounds(d, cnt, 1);
    StepBounds(d, cnt, cnt);
    Distrib(cnt - 1, 1, s);
    MulMono(1, cnt - 1, s);
    var k, x := 1, l;
    if l + s < TWO31 {
      WrapId(l);
      WrapId(l + s);
      InRange(l, l + s, l);
    } else {
      k, x := cnt, RawStart(l, s, cnt) - TWO32;
      WrapOnce(RawStart(l, s, cnt));
      InRange(x, End(r, eq), x);
    }
    StartIs(l, r, cnt, k);
    ChunkDealt(l, r, eq, cnt, k, cnt, x);
    InRange(l, End(r, eq), x);
  }

  /** The exact condition: the threads execute the loop's iterations, each once and in order, if and only if
      `r - l` does not overflow or the step comes out as 0 (or one thread does everything), with one exception. */
  lemma DealtExactly(l: int, r: int, eq: bool, cnt: nat)
    requires IsInt32(l) && IsInt32(r) && cnt > 0
    ensures Dealt(l, r, eq, cnt, cnt) == Range(l, End(r, eq)) <==>
            IsInt32(r - l) || cnt == 1 || StepOf(l, r, cnt) == 0 || Lucky(l, r, eq, cnt)
  {
    if IsInt32(r - l) || cnt == 1 {
      DealtAll(l, r, eq, cnt);
    } else if StepOf(l, r, cnt) == 0 {
      DealtZeroStep(l, r, eq, cnt, cnt - 1);
      WrapId(l);
      assert Chunk(l, r, eq, cnt, cnt) == Range(l, End(r, eq));
    } else if Lucky(l, r, eq, cnt) {
      LuckyDealt(l, r, eq, cnt);
    } else {
      OverflowDealsWrong(l, r, eq, cnt);
    }
  }

  lemma {:induction false} DealtZeroStep(l: int, r: int, eq: bool, cnt: nat, k: nat)
    requires IsInt32(l) && k < cnt && StepOf(l, r, cnt) == 0
    ensures Dealt(l, r, eq, cnt, k) == []
  {
    WrapId(l);
    if k > 0 { DealtZeroStep(l, r, eq, cnt, k - 1); }
  }
}
