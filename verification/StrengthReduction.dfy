/** Strength reduction of multiplication, division and remainder by constants
    (`div_opt` and `merge_instr`, src/arm/opt/merge_instr.cpp). */
module StrengthReduction {
  import opened Word32

  // ----- the magic multiplier -----

  /** What the search in `div_opt` establishes: `b` is the rounded-up 2^(32+s)/v, close enough to be
      exact on every int32. */
  ghost predicate Magic(v: int, b: int, s: nat) {
    exists a: nat, ex: nat, l: nat :: MagicWith(v, b, s, a, ex, l)
  }

  ghost predicate MagicWith(v: int, b: int, s: nat, a: nat, ex: nat, l: nat) {
    && a > 0 && v == a * Pow2(ex)
    && s + 32 == ex + l
    && 0 < a * b - Pow2(l)
    && (a * b - Pow2(l)) * TWO31 <= Pow2(l)
  }

  method DivOpt(v: int) returns (b: int, s: int)
    requires 1 < v < TWO31 && v != Pow2(Ctz(v))
    ensures 0 <= b < TWO32 && 0 <= s <= 30
    ensures Magic(v, b, s)
  {
    var ex := Ctz(v);
    var a := v / Pow2(ex);
    CtzFactor(v);
    OddPart(v, a, ex);
    var L, log2L := TWO32, 32;
    Pow2Values();
    while L / (a - L % a) < TWO31
      invariant log2L >= 32 && L == Pow2(log2L)
      invariant L == TWO32 || L < TWO32 * (a - 1)
      decreases a * TWO31 - L
    {
      SearchStep(log2L, a);
      L, log2L := 2 * L, log2L + 1;
      assert L < 0x8000_0000_0000_0000;   // `L <<= 1` does not overflow int64
    }
    b := L / a + 1;
    s := ex + log2L - 32;
    SearchDone(v, a, ex, log2L);
    assert MagicWith(v, b, s, a, ex, log2L);
  }

  lemma OddPart(v: int, a: int, ex: nat)
    requires 1 < v < TWO31 && v != Pow2(ex) && v == a * Pow2(ex) && a % 2 == 1
    ensures 3 <= a <= v
  {
    if a < 0 { MulMono(a, 0, Pow2(ex)); }
    MulMono(1, Pow2(ex), if a > 0 then a else 1);
  }

  /** An odd number above 1 divides no power of two. */
  lemma {:induction false} OddNotPow2(n: nat, a: int, k: int)
    requires a >= 3 && a % 2 == 1
    ensures Pow2(n) != k * a
  {
    if n == 0 {
      if k <= 0 { MulMono(k, 0, a); } else { MulMono(1, k, a); }
    } else {
      OddNotPow2(n - 1, a, k / 2);
      OddTimesOdd(k, a);
      HalfProduct(k, a, Pow2(n - 1));
    }
  }

  lemma HalfProduct(k: int, a: int, p: int)
    requires (k * a) % 2 == k % 2 && p != (k / 2) * a
    ensures 2 * p != k * a
  {
    if k % 2 == 0 { Comm3(2, k / 2, a); }
  }

  lemma OddTimesOdd(k: int, a: int)
    requires a % 2 == 1
    ensures (k * a) % 2 == k % 2
  {
    var q := a / 2;
    assert k * a == k * (2 * q + 1) == 2 * (k * q) + k;
  }

  /** The search goes on only while `L` is below 2^31 times the rounding error. */
  lemma SearchStep(l: nat, a: int)
    requires 3 <= a < TWO31 && a % 2 == 1 && Pow2(l) / (a - Pow2(l) % a) < TWO31
    ensures 2 * Pow2(l) < TWO32 * (a - 1)
  {
    var L := Pow2(l);
    var e := a - L % a;
    DivBounds(L, e);
    MulMono(L / e + 1, TWO31, e);
    OddNotPow2(l, a, L / a);
    assert e <= a - 1;
  }

  lemma SearchDone(v: int, a: int, ex: nat, l: nat)
    requires 3 <= a <= v < TWO31 && v == a * Pow2(ex) && l >= 32
    requires Pow2(l) == TWO32 || Pow2(l) < TWO32 * (a - 1)
    requires Pow2(l) / (a - Pow2(l) % a) >= TWO31
    ensures var b := Pow2(l) / a + 1; 0 <= b < TWO32 && MagicWith(v, b, ex + l - 32, a, ex, l)
    ensures ex + l - 32 <= 30
  {
    RoundUp(Pow2(l), a);
    MultiplierFits(Pow2(l), a);
    ShiftBound(v, a, ex, l);
  }

  lemma RoundUp(L: int, a: int)
    requires a > 0 && L / (a - L % a) >= TWO31
    ensures a * (L / a + 1) - L == a - L % a
    ensures (a - L % a) * TWO31 <= L
  {
    var e := a - L % a;
    DivBounds(L, e);
    MulMono(TWO31, L / e, e);
  }

  lemma MultiplierFits(L: int, a: int)
    requires 3 <= a < TWO31 && 0 < L && (L == TWO32 || L < TWO32 * (a - 1))
    ensures 0 <= L / a && L / a + 1 < TWO32
  {
    DivBounds(L, a);
    MulMono(TWO32 - 1, L / a, a);
  }

  lemma ShiftBound(v: int, a: int, ex: nat, l: nat)
    requires 3 <= a && v == a * Pow2(ex) && v < TWO31
    requires Pow2(l) < TWO32 * a
    ensures ex + l <= 62
  {
    ProductBound(v, a, Pow2(ex), Pow2(l));
    Pow2Add(l, ex);
    BelowPow63(l + ex);
  }

  lemma ProductBound(v: int, a: int, p: int, L: int)
    requires p > 0 && v == a * p && v < TWO31 && L < TWO32 * a
    ensures L * p < 0x8000_0000_0000_0000
  {
    MulMono(L, TWO32 * a, p);
    Comm3(TWO32, a, p);
    assert (TWO32 * a) * p == TWO32 * v;
  }

  lemma BelowPow63(n: nat)
    requires Pow2(n) < 0x8000_0000_0000_0000
    ensures n <= 62
  {
    Pow2Values();
    if n > 62 { Pow2Mono(63, n); }
  }

  // ----- exactness of the multiplier -----

  /** Rounding `x*b / 2^(32+s)` down gives the quotient for x >= 0 and one less for x < 0. */
  lemma MagicExact(v: int, b: int, s: nat, x: int)
    requires v > 0 && Magic(v, b, s) && IsInt32(x)
    ensures x * b / Pow2(32 + s) == CDiv(x, v) - if x < 0 then 1 else 0
  {
    var a: nat, ex: nat, l: nat :| MagicWith(v, b, s, a, ex, l);
    var e := a * b - Pow2(l);
    var m := Pow2(32 + s);
    Pow2Add(ex, l);
    var f := Pow2(ex) * e;
    ErrorScale(Pow2(l), Pow2(ex), e);
    MagicProduct(v, b, a, Pow2(ex), Pow2(l), e);
    CDivIs(x, v);
    if x >= 0 {
      ExactNonneg(v, b, m, f, x);
    } else {
      ExactNeg(v, b, m, f, -x);
    }
  }

  lemma MagicProduct(v: int, b: int, a: int, p: int, L: int, e: int)
    requires v == a * p && e == a * b - L
    ensures v * b == p * L + p * e
  {
    Comm3(a, p, b);
    assert v * b == p * (a * b) == p * (L + e);
  }

  lemma ErrorScale(L: int, p: int, e: int)
    requires p > 0 && e > 0 && e * TWO31 <= L
    ensures p * e > 0 && (p * e) * TWO31 <= p * L
  {
    MulMono(e * TWO31, L, p);
    Comm3(p, e, TWO31);
  }

  /** For 0 <= n <= 2^31 the scaled product lies between n*m and (n+1)*m. */
  lemma Scaled(v: int, b: int, m: int, f: int, n: int)
    requires v > 0 && m > 0 && f > 0 && v * b == m + f && f * TWO31 <= m && 0 <= n <= TWO31
    ensures n * m <= v * (n * b) <= (n + 1) * m
    ensures n > 0 ==> n * m < v * (n * b)
    ensures n < TWO31 ==> v * (n * b) < (n + 1) * m
  {
    Comm3(v, n, b);
    Distrib(m, f, n);
    Distrib(n, 1, m);
    MulMono(n, TWO31, f);
    MulMono(0, n, f);
    MulMono(n, 0, f);
    MulMono(n + 1, TWO31, f);
  }

  lemma QuotientBand(n: int, v: int, m: int)
    requires v > 0 && m > 0
    ensures v * ((n / v) * m) <= n * m && (n + 1) * m <= v * ((n / v + 1) * m)
  {
    var q := n / v;
    DivBounds(n, v);
    MulMono(q * v, n, m);
    MulMono(n + 1, (q + 1) * v, m);
    Comm3(q, v, m);
    Comm3(q + 1, v, m);
  }

  lemma ExactNonneg(v: int, b: int, m: int, f: int, x: int)
    requires v > 0 && m > 0 && f > 0 && v * b == m + f && f * TWO31 <= m && 0 <= x < TWO31
    ensures x * b / m == x / v
  {
    var q := x / v;
    Scaled(v, b, m, f, x);
    QuotientBand(x, v, m);
    MulMono(q * m, x * b, v);
    MulMono((q + 1) * m, x * b, v);
    DivUnique(x * b, m, q);
  }

  lemma ExactNeg(v: int, b: int, m: int, f: int, n: int)
    requires v > 0 && m > 0 && f > 0 && v * b == m + f && f * TWO31 <= m && 0 < n <= TWO31
    ensures (-n) * b / m == -(n / v) - 1
  {
    Scaled(v, b, m, f, n);
    QuotientBand(n, v, m);
    NegBand(n * b, v, m, n, n / v);
    NegMul(n, b);
  }

  lemma NegBand(y: int, v: int, m: int, n: int, q: int)
    requires v > 0 && m > 0 && n * m < v * y <= (n + 1) * m
    requires v * (q * m) <= n * m && (n + 1) * m <= v * ((q + 1) * m)
    ensures -y / m == -q - 1
  {
    MulMono(y, q * m, v);
    MulMono(y, (q + 1) * m, v);
    NegDiv(y, m, q);
  }

  lemma NegDiv(y: int, m: int, q: int)
    requires m > 0 && q * m < y <= (q + 1) * m
    ensures -y / m == -q - 1
  {
    assert (-q - 1) * m == -((q + 1) * m) && (-q - 1 + 1) * m == -(q * m);
    DivUnique(-y, m, -q - 1);
  }

  // ----- the machine -----

  type Reg = int

  const R4: Reg := 4
  const R5: Reg := 5

  datatype ShiftKind = LSL | LSR | ASR

  datatype Op3 = Add | Sub | RevSub | And | Mul | Div | Mod

  datatype OpImm = AddImm | SubImm | LslImm | LsrImm | AsrImm | BicImm

  datatype Inst =
    | RegReg(op: Op3, dst: Reg, lhs: Reg, rhs: Reg, kind: ShiftKind, w: nat)
    | RegImm(opi: OpImm, dst: Reg, lhs: Reg, imm: int)
    | LoadImm(dst: Reg, imm: int)
    | SMulL(lo: Reg, hi: Reg, s1: Reg, s2: Reg)
    | Mla(dst: Reg, s1: Reg, s2: Reg, s3: Reg)
    | Mls(dst: Reg, s1: Reg, s2: Reg, s3: Reg)
    | Cmp(lhs: Reg, rhs: Reg)
    | CmpImm(lhs: Reg, imm: int)

  /** A machine state: initial register values and flags, and what has been written since. The flags are
      determined by the two operands of the last comparison. */
  datatype State =
    | Init(regs: Reg -> int, flags: (int, int))
    | Write(prev: State, reg: Reg, val: int)
    | Compare(prev: State, left: int, right: int)

  function Get(s: State, r: Reg): int {
    match s
    case Init(regs, _) => regs(r)
    case Write(prev, reg, val) => if r == reg then val else Get(prev, r)
    case Compare(prev, _, _) => Get(prev, r)
  }

  lemma GetWrite(s: State, r: Reg, v: int)
    ensures forall x :: Get(Write(s, r, v), x) == if x == r then v else Get(s, x)
    ensures Flags(Write(s, r, v)) == Flags(s)
  { }

  function Flags(s: State): (int, int) {
    match s
    case Init(_, flags) => flags
    case Write(prev, _, _) => Flags(prev)
    case Compare(_, a, b) => (a, b)
  }

  function Shifted(kind: ShiftKind, w: nat, x: int): int {
    match kind
    case LSL => Wrap(Shl(x, w))
    case LSR => Wrap(Shr(U(x), w))
    case ASR => Shr(x, w)
  }

  /** `sdiv` and the remainder pseudo-instruction; division by zero yields zero. */
  function SDiv(x: int, y: int): int {
    if y == 0 then 0 else if y > 0 then CDiv(x, y) else Wrap(-CDiv(x, -y))
  }

  function SMod(x: int, y: int): int {
    if y == 0 then x else if y > 0 then CMod(x, y) else CMod(x, -y)
  }

  function Alu(op: Op3, a: int, b: int): int {
    match op
    case Add => Wrap(a + b)
    case Sub => Wrap(a - b)
    case RevSub => Wrap(b - a)
    case And => Wrap(BitAnd(U(a), U(b)))
    case Mul => Wrap(a * b)
    case Div => SDiv(a, b)
    case Mod => SMod(a, b)
  }

  function AluImm(op: OpImm, a: int, imm: int): int {
    match op
    case AddImm => Wrap(a + imm)
    case SubImm => Wrap(a - imm)
    case LslImm => if imm < 0 then a else Shifted(LSL, imm, a)
    case LsrImm => if imm < 0 then a else Shifted(LSR, imm, a)
    case AsrImm => if imm < 0 then a else Shifted(ASR, imm, a)
    case BicImm => Wrap(BitAnd(U(a), TWO32 - 1 - U(imm)))
  }

  function Step(i: Inst, s: State): State {
    match i
    case RegReg(op, dst, lhs, rhs, kind, w) => Write(s, dst, Alu(op, Get(s, lhs), Shifted(kind, w, Get(s, rhs))))
    case RegImm(op, dst, lhs, imm) => Write(s, dst, AluImm(op, Get(s, lhs), imm))
    case LoadImm(dst, imm) => Write(s, dst, Wrap(imm))
    case SMulL(lo, hi, s1, s2) =>
      var p := Get(s, s1) * Get(s, s2);
      Write(Write(s, lo, Wrap(p)), hi, Wrap(p / TWO32))
    case Mla(dst, s1, s2, s3) => Write(s, dst, Wrap(Get(s, s1) * Get(s, s2) + Get(s, s3)))
    case Mls(dst, s1, s2, s3) => Write(s, dst, Wrap(Get(s, s3) - Get(s, s1) * Get(s, s2)))
    case Cmp(lhs, rhs) => Compare(s, Get(s, lhs), Get(s, rhs))
    case CmpImm(lhs, imm) => Compare(s, Get(s, lhs), imm)
  }

  function Exec(code: seq<Inst>, s: State): State {
    if code == [] then s else Exec(code[1..], Step(code[0], s))
  }

  lemma ExecCons(i: Inst, rest: seq<Inst>, s: State)
    ensures Exec([i] + rest, s) == Exec(rest, Step(i, s))
  {
    assert ([i] + rest)[1..] == rest;
  }

  lemma {:induction false} ExecAppend(a: seq<Inst>, b: seq<Inst>, s: State)
    ensures Exec(a + b, s) == Exec(b, Exec(a, s))
  {
    if a == [] {
      assert a + b == b;
    } else {
      assert (a + b)[1..] == a[1..] + b;
      ExecAppend(a[1..], b, Step(a[0], s));
    }
  }

  lemma Exec1(a: Inst, s: State)
    ensures Exec([a], s) == Step(a, s)
  { }

  lemma Exec2(a: Inst, b: Inst, s: State)
    ensures Exec([a, b], s) == Step(b, Step(a, s))
  {
    assert [a, b] == [a] + [b];
    ExecCons(a, [b], s);
  }

  lemma Exec3(a: Inst, b: Inst, c: Inst, s: State)
    ensures Exec([a, b, c], s) == Step(c, Step(b, Step(a, s)))
  {
    assert [a, b, c] == [a] + [b, c];
    ExecCons(a, [b, c], s);
    Exec2(b, c, Step(a, s));
  }

  /** Same flags, and same registers except r4 and r5, which no other code uses. */
  ghost predicate Agree(s: State, t: State) {
    Flags(s) == Flags(t) && forall r: Reg :: r != R4 && r != R5 ==> Get(s, r) == Get(t, r)
  }

  // ----- values computed by the emitted sequences -----

  lemma ShiftZero(kind: ShiftKind, x: int)
    requires IsInt32(x)
    ensures Shifted(kind, 0, x) == x
  {
    assert Pow2(0) == 1;
    assert Wrap(U(x)) == x;
  }

  /** The high word of the product with a 32-bit multiplier whose top bit is handled separately. */
  function HighWord(x: int, b: int): int {
    var p := x * (b % TWO31);
    if b < TWO31 then Wrap(p / TWO32) else WithCarry(x, p)
  }

  function WithCarry(x: int, p: int): int {
    Wrap(Wrap(Wrap(p / TWO32) + Shifted(ASR, 1, x)) + Wrap(BitAnd(U(x), U(Shifted(LSR, 31, Wrap(p))))))
  }

  lemma SignBit(x: int)
    requires IsInt32(x)
    ensures Shifted(LSR, 31, x) == if x < 0 then 1 else 0
  {
    ShrIs(U(x), 31);
    Pow2Values();
    DivUnique(U(x), TWO31, if x < 0 then 1 else 0);
  }

  lemma WordTimesUnsigned(x: int, b: int)
    requires IsInt32(x) && 0 <= b < TWO32
    ensures -TWO31 * TWO32 <= x * b < TWO31 * TWO32
  {
    if b == 0 {
      assert x * b == 0;
    } else {
      MulMono(x, TWO31 - 1, b);
      MulMono(-TWO31, x, b);
    }
  }

  lemma HighBounds(x: int, b: int)
    requires IsInt32(x) && 0 <= b < TWO32
    ensures IsInt32(x * b / TWO32)
  {
    WordTimesUnsigned(x, b);
    HighOf(x * b);
  }

  lemma HighOf(p: int)
    requires -TWO31 * TWO32 <= p < TWO31 * TWO32
    ensures IsInt32(p / TWO32)
  { }

  lemma EvenPlus(m: int, u: int)
    ensures (2 * m + u) % 2 == u % 2
  { }

  lemma Halves(x: int)
    ensures Shifted(ASR, 1, x) == x / 2
    ensures U(x) % 2 == x % 2
  {
    assert Shr(x, 1) == x / 2;
    EvenPlus((x / TWO32) * TWO31, U(x));
    assert x == 2 * ((x / TWO32) * TWO31) + U(x);
  }

  /** The carry out of the low word is the conjunction of the two low-order facts. */
  lemma HighSplit(x: int, p: int)
    ensures (p + x * TWO31) / TWO32 == p / TWO32 + x / 2 + (x % 2) * (U(p) / TWO31)
  {
    var h, l, q, c := p / TWO32, U(p), x / 2, x % 2;
    var t := l / TWO31;
    assert x * TWO31 == q * TWO32 + c * TWO31;
    assert p + x * TWO31 == (h + q) * TWO32 + (l + c * TWO31);
    assert 0 <= t <= 1;
    assert (l + c * TWO31) / TWO32 == c * t by { DivUnique(l + c * TWO31, TWO32, c * t); }
    DivUnique(p + x * TWO31, TWO32, h + q + c * t);
  }

  lemma WrapChain(a: int, b: int, c: int)
    ensures Wrap(Wrap(Wrap(a) + b) + Wrap(c)) == Wrap(a + b + c)
  {
    WrapAdd(Wrap(Wrap(a) + b), c);
    WrapAdd(Wrap(a) + b, c);
    WrapAdd(a, b + c);
    assert Wrap(a) + b + c == Wrap(a) + (b + c);
  }

  lemma HighWordIs(x: int, b: int)
    requires IsInt32(x) && 0 <= b < TWO32
    ensures HighWord(x, b) == x * b / TWO32
  {
    HighBounds(x, b);
    SplitTop(x, b);
    HighOfSum(x, x * (b % TWO31), x * b, b >= TWO31);
  }

  lemma HighOfSum(x: int, p: int, y: int, top: bool)
    requires y == p + (if top then x * TWO31 else 0) && IsInt32(y / TWO32)
    ensures (if top then WithCarry(x, p) else Wrap(p / TWO32)) == y / TWO32
  {
    HighWithCarry(x, p);
    WrapId(y / TWO32);
  }

  lemma SplitTop(x: int, b: int)
    requires 0 <= b < TWO32
    ensures x * b == x * (b % TWO31) + if b >= TWO31 then x * TWO31 else 0
  {
    var c := b % TWO31;
    assert b == if b >= TWO31 then c + TWO31 else c;
    Distrib(c, TWO31, x);
  }

  lemma HighWithCarry(x: int, p: int)
    ensures WithCarry(x, p) == Wrap((p + x * TWO31) / TWO32)
  {
    HighSplit(x, p);
    Halves(x);
    TopBit(p);
    BitAndOne(U(x), U(p) / TWO31);
    WrapChain(p / TWO32, x / 2, BitAnd(U(x), U(p) / TWO31));
  }

  lemma TopBit(p: int)
    ensures Shifted(LSR, 31, Wrap(p)) == U(p) / TWO31 && U(U(p) / TWO31) == U(p) / TWO31 && U(p) / TWO31 <= 1
  {
    ShrIs(U(p), 31);
    Pow2Values();
    assert U(Wrap(p)) == U(p);
  }

  /** `asr` and the sign-bit correction turn the high word into the truncated quotient. */
  lemma QuotientFromHigh(v: int, b: int, s: nat, x: int)
    requires v > 1 && Magic(v, b, s) && IsInt32(x) && 0 <= b < TWO32 && s <= 30
    ensures
      var hi := HighWord(x, b);
      Wrap(Shifted(ASR, s, hi) + Shifted(LSR, 31, hi)) == CDiv(x, v)
  {
    HighWordIs(x, b);
    HighBounds(x, b);
    HighSign(x, b, v, s);
    SignBit(x * b / TWO32);
    ShiftHigh(v, b, s, x);
    CDivRange(x, v);
    WrapId(CDiv(x, v));
  }

  lemma ShiftHigh(v: int, b: int, s: nat, x: int)
    requires v > 0 && Magic(v, b, s) && IsInt32(x)
    ensures Shifted(ASR, s, x * b / TWO32) == CDiv(x, v) - if x < 0 then 1 else 0
  {
    ShrIs(x * b / TWO32, s);
    Pow2Add(32, s);
    Pow2Values();
    DivDiv(x * b, TWO32, Pow2(s));
    MagicExact(v, b, s, x);
  }

  lemma HighSign(x: int, b: int, v: int, s: nat)
    requires IsInt32(x) && Magic(v, b, s) && 0 <= b
    ensures x * b / TWO32 < 0 <==> x < 0
  {
    var a: nat, ex: nat, l: nat :| MagicWith(v, b, s, a, ex, l);
    assert a * 0 == 0;
    MulMono(x, -1, b);
    MulMono(0, x, b);
  }

  lemma CDivRange(x: int, v: int)
    requires IsInt32(x) && v > 1
    ensures IsInt32(CDiv(x, v))
  {
    CDivIs(x, v);
    var n := if x >= 0 then x else -x;
    DivBounds(n, v);
    MulMono(2, v, if n / v > 0 then n / v else 1);
    MulMono(0, n / v + 1, v);
  }

  // ----- the emitted sequences -----

  function ProductCode(x: Reg, b: int): seq<Inst> {
    [LoadImm(R4, b % TWO31), SMulL(R4, R5, x, R4)]
  }

  function TopBitCode(x: Reg, b: int): seq<Inst> {
    if b >= TWO31 then
      [RegReg(Add, R5, R5, x, ASR, 1), RegReg(And, R4, x, R4, LSR, 31), RegReg(Add, R5, R5, R4, LSL, 0)]
    else []
  }

  function RoundCode(dst: Reg, s: int): seq<Inst> {
    [RegImm(AsrImm, dst, R5, s), RegReg(Add, dst, dst, R5, LSR, 31)]
  }

  /** The common prefix: quotient of `x` by the constant into `dst`, clobbering r4 and r5. */
  function QuotientCode(dst: Reg, x: Reg, b: int, s: int): seq<Inst> {
    ProductCode(x, b) + TopBitCode(x, b) + RoundCode(dst, s)
  }

  lemma QuotientCodeRuns(dst: Reg, x: Reg, b: int, s: nat, st: State)
    requires x != R4 && x != R5 && dst != R4 && dst != R5
    requires IsInt32(Get(st, x)) && 0 <= b < TWO32
    ensures
      var hi := HighWord(Get(st, x), b);
      Agree(Exec(QuotientCode(dst, x, b, s), st), Write(st, dst, Wrap(Shifted(ASR, s, hi) + Shifted(LSR, 31, hi))))
  {
    hide Exec, WithCarry, Wrap, Shifted, ProductCode, TopBitCode, RoundCode, Agree;
    ExecAppend(ProductCode(x, b), TopBitCode(x, b), st);
    ExecAppend(ProductCode(x, b) + TopBitCode(x, b), RoundCode(dst, s), st);
    var s1 := Exec(ProductCode(x, b), st);
    FirstPart(x, b, st);
    MidPart(x, b, st, s1, Get(st, x) * (b % TWO31));
    LastPart(dst, s, st, Exec(TopBitCode(x, b), s1), HighWord(Get(st, x), b));
  }

  lemma FirstPart(x: Reg, b: int, st: State)
    requires x != R4 && x != R5 && 0 <= b < TWO32
    ensures
      var s1 := Exec(ProductCode(x, b), st);
      var p := Get(st, x) * (b % TWO31);
      Get(s1, R4) == Wrap(p) && Get(s1, R5) == Wrap(p / TWO32) && Agree(s1, st)
  {
    Exec2(LoadImm(R4, b % TWO31), SMulL(R4, R5, x, R4), st);
    WrapId(b % TWO31);
    var t1 := Step(LoadImm(R4, b % TWO31), st);
    GetWrite(st, R4, b % TWO31);
    GetWrite(t1, R4, Wrap(Get(st, x) * (b % TWO31)));
  }

  lemma MidPart(x: Reg, b: int, st: State, s1: State, p: int)
    requires x != R4 && x != R5 && IsInt32(Get(st, x))
    requires Get(s1, R4) == Wrap(p) && Get(s1, R5) == Wrap(p / TWO32) && Agree(s1, st)
    ensures
      var s2 := Exec(TopBitCode(x, b), s1);
      Get(s2, R5) == (if b < TWO31 then Wrap(p / TWO32) else WithCarry(Get(st, x), p)) && Agree(s2, st)
  {
    if b >= TWO31 {
      CarryCode(x, b, s1);
      CarrySteps(x, Get(st, x), st, s1, p);
    }
  }

  function CarryState(x: Reg, s1: State): State {
    Step(RegReg(Add, R5, R5, R4, LSL, 0),
         Step(RegReg(And, R4, x, R4, LSR, 31), Step(RegReg(Add, R5, R5, x, ASR, 1), s1)))
  }

  lemma CarryCode(x: Reg, b: int, s1: State)
    requires b >= TWO31
    ensures Exec(TopBitCode(x, b), s1) == CarryState(x, s1)
  {
    Exec3(RegReg(Add, R5, R5, x, ASR, 1), RegReg(And, R4, x, R4, LSR, 31), RegReg(Add, R5, R5, R4, LSL, 0), s1);
  }

  lemma CarrySteps(x: Reg, xv: int, st: State, s1: State, p: int)
    requires x != R4 && x != R5 && IsInt32(xv) && Get(st, x) == xv && Agree(s1, st)
    requires Get(s1, R4) == Wrap(p) && Get(s1, R5) == Wrap(p / TWO32)
    ensures Get(CarryState(x, s1), R5) == WithCarry(xv, p) && Agree(CarryState(x, s1), st)
  {
    var c := Wrap(BitAnd(U(xv), U(Shifted(LSR, 31, Wrap(p)))));
    var h := Wrap(Wrap(p / TWO32) + Shifted(ASR, 1, xv));
    var t1 := Step(RegReg(Add, R5, R5, x, ASR, 1), s1);
    assert t1 == Write(s1, R5, h);
    GetWrite(s1, R5, h);
    var t2 := Step(RegReg(And, R4, x, R4, LSR, 31), t1);
    assert t2 == Write(t1, R4, c);
    GetWrite(t1, R4, c);
    ShiftZero(LSL, c);
    GetWrite(t2, R5, Wrap(h + c));
  }

  lemma LastPart(dst: Reg, s: nat, st: State, s2: State, hi: int)
    requires dst != R4 && dst != R5 && Agree(s2, st) && Get(s2, R5) == hi
    ensures
      Agree(Exec(RoundCode(dst, s), s2),
            Write(st, dst, Wrap(Shifted(ASR, s, hi) + Shifted(LSR, 31, hi))))
  {
    var i1, i2 := RegImm(AsrImm, dst, R5, s), RegReg(Add, dst, dst, R5, LSR, 31);
    Exec2(i1, i2, s2);
    var t1 := Write(s2, dst, Shifted(ASR, s, hi));
    GetWrite(s2, dst, Shifted(ASR, s, hi));
    GetWrite(t1, dst, Wrap(Shifted(ASR, s, hi) + Shifted(LSR, 31, hi)));
  }

  // ----- powers of two -----

  /** A power of two that is a positive multiple of 2^l. */
  lemma Pow2Multiple(n: nat, l: nat, k: int)
    requires Pow2(n) == k * Pow2(l)
    ensures n >= l && Pow2(n) == Pow2(n - l) * Pow2(l)
  {
    MulMono(k, 0, Pow2(l));
    MulMono(1, k, Pow2(l));
    if n < l {
      Pow2Mono(n, l - 1);
    } else {
      Pow2Add(n - l, l);
    }
  }

  lemma MinusSign(q: int, sign: int, p: int)
    ensures (q - sign) * p == q * p - sign * p
  { }

  /** The other bit of a constant `2^n + sign * 2^l` lies above its lowest set bit. */
  lemma OtherBit(v: int, r: int, sign: int)
    requires v > 1 && v != Pow2(Ctz(v)) && r == v - sign * Pow2(Ctz(v)) && r >= 0 && PopCount(r) == 1
    ensures r > 0 && Ctz(r) >= Ctz(v) && v == Pow2(Ctz(r) - Ctz(v)) * Pow2(Ctz(v)) + sign * Pow2(Ctz(v))
  {
    SingleBit(r);
    CtzFactor(v);
    var q := v / Pow2(Ctz(v));
    MinusSign(q, sign, Pow2(Ctz(v)));
    Pow2Multiple(Ctz(r), Ctz(v), q - sign);
  }

  function Dist(a: nat, b: nat): nat { if a >= b then a - b else 0 }

  /** `x` times a constant of the form 2^n + sign * 2^l: shift-and-add, then shift. */
  function ShiftAddCode(op: Op3, dst: Reg, x: Reg, n: nat, l: nat): seq<Inst> {
    [RegReg(op, dst, x, x, LSL, Dist(n, l))] + if l > 0 then [RegImm(LslImm, dst, dst, l)] else []
  }

  lemma ShiftAddRuns(op: Op3, dst: Reg, x: Reg, n: nat, l: nat, v: int, st: State)
    requires n >= l && (op == Add || op == RevSub)
    requires v == Pow2(n - l) * Pow2(l) + (if op == Add then 1 else -1) * Pow2(l)
    ensures Agree(Exec(ShiftAddCode(op, dst, x, n, l), st), Write(st, dst, Wrap(Get(st, x) * v)))
  {
    var i1, i2 := RegReg(op, dst, x, x, LSL, n - l), RegImm(LslImm, dst, dst, l);
    ShiftAddValue(Get(st, x), n - l, l, if op == Add then 1 else -1, v);
    if l > 0 {
      assert [i1, i2] == [i1] + [i2];
      Exec2(i1, i2, st);
    } else {
      assert [i1] + [] == [i1];
      Exec1(i1, st);
    }
  }

  lemma ShiftAddValue(x: int, d: nat, l: nat, sign: int, v: int)
    requires sign == 1 || sign == -1
    requires v == Pow2(d) * Pow2(l) + sign * Pow2(l)
    ensures
      var y := if sign == 1 then Wrap(x + Wrap(Shl(x, d))) else Wrap(Wrap(Shl(x, d)) - x);
      Wrap(Shl(y, l)) == Wrap(x * v) && (l == 0 ==> y == Wrap(x * v))
  {
    ShlIs(x, d);
    ShlIs(Wrap(x * (Pow2(d) + sign)), l);
    var f := Pow2(d) + sign;
    Distrib(Pow2(d), sign, x);
    Distrib(Pow2(d), sign, Pow2(l));
    WrapAdd(x, x * Pow2(d));
    WrapAdd(x * Pow2(d), x);
    WrapMul(x * f, Pow2(l));
    Comm3(x, f, Pow2(l));
  }

  // ----- signed division by 2^k -----

  /** `asr`/`lsr` (or a single `lsr` for k = 1) add the rounding correction for negative operands. */
  function BiasCode(dst: Reg, x: Reg, k: nat): seq<Inst> {
    if k == 1 then [RegReg(Add, dst, x, x, LSR, 31)]
    else [RegImm(AsrImm, dst, x, 31), RegReg(Add, dst, x, dst, LSR, Dist(32, k))]
  }

  function Biased(x: int, k: nat): int {
    if x >= 0 then x else x + Pow2(k) - 1
  }

  lemma BiasShift(k: nat)
    requires 1 <= k <= 30
    ensures Shifted(LSR, 32 - k, -1) == Pow2(k) - 1 && Shifted(LSR, 32 - k, 0) == 0
    ensures 2 <= Pow2(k) <= 0x4000_0000
  {
    Pow2Small(k);
    TopOnes(k);
    ShrIs(TWO32 - 1, 32 - k);
    ZeroShift(32 - k);
    assert U(-1) == TWO32 - 1;
    WrapId(Pow2(k) - 1);
  }

  lemma Pow2Small(k: nat)
    requires 1 <= k <= 30
    ensures 2 <= Pow2(k) <= 0x4000_0000
  {
    Pow2Values();
    Pow2Mono(k, 30);
    Pow2Mono(1, k);
  }

  lemma TopOnes(k: nat)
    requires 1 <= k <= 30
    ensures (TWO32 - 1) / Pow2(32 - k) == Pow2(k) - 1
  {
    Pow2Values();
    Pow2Add(k, 32 - k);
    var p, q := Pow2(k), Pow2(32 - k);
    Distrib(p, -1, q);
    DivUnique(TWO32 - 1, q, p - 1);
  }

  lemma BiasRuns(dst: Reg, x: Reg, k: nat, st: State)
    requires 1 <= k <= 30 && IsInt32(Get(st, x)) && (k > 1 ==> dst != x)
    ensures
      var r := Biased(Get(st, x), k);
      IsInt32(r) && Agree(Exec(BiasCode(dst, x, k), st), Write(st, dst, r))
  {
    BiasShift(k);
    WrapId(Biased(Get(st, x), k));
    if k == 1 { BiasRuns1(dst, x, st); } else { BiasRunsMany(dst, x, k, st); }
  }

  lemma BiasRuns1(dst: Reg, x: Reg, st: State)
    requires IsInt32(Get(st, x))
    ensures Agree(Exec(BiasCode(dst, x, 1), st), Write(st, dst, Biased(Get(st, x), 1)))
  {
    assert Pow2(1) == 2;
    SignBit(Get(st, x));
    WrapId(Biased(Get(st, x), 1));
    Exec1(RegReg(Add, dst, x, x, LSR, 31), st);
  }

  lemma BiasRunsMany(dst: Reg, x: Reg, k: nat, st: State)
    requires 2 <= k <= 30 && IsInt32(Get(st, x)) && dst != x
    requires IsInt32(Biased(Get(st, x), k))
    ensures Agree(Exec(BiasCode(dst, x, k), st), Write(st, dst, Biased(Get(st, x), k)))
  {
    var xv := Get(st, x);
    BiasShift(k);
    WrapId(Biased(xv, k));
    var i1, i2 := RegImm(AsrImm, dst, x, 31), RegReg(Add, dst, x, dst, LSR, 32 - k);
    Exec2(i1, i2, st);
    SignFill(xv);
    var t1 := Step(i1, st);
    assert Get(t1, dst) == if xv < 0 then -1 else 0;
    assert Get(t1, x) == xv;
  }

  lemma SignFill(x: int)
    requires IsInt32(x)
    ensures Shifted(ASR, 31, x) == if x < 0 then -1 else 0
  {
    ShrIs(x, 31);
    Pow2Values();
    DivUnique(x, TWO31, if x < 0 then -1 else 0);
  }

  lemma BiasedQuotient(x: int, k: nat)
    ensures Shr(Biased(x, k), k) == CDiv(x, Pow2(k))
  {
    var p := Pow2(k);
    ShrIs(Biased(x, k), k);
    CDivIs(x, p);
    if x < 0 {
      var q := (-x) / p;
      DivBounds(-x, p);
      NegMul(q, p);
      Distrib(-q, 1, p);
      Distrib(q, 1, p);
      DivUnique(x + p - 1, p, -q);
    }
  }

  function RoundOffCode(dst: Reg, x: Reg, v: int, k: nat, legal: bool): seq<Inst> {
    if legal then
      [RegImm(BicImm, dst, dst, v - 1), RegReg(Sub, dst, x, dst, LSL, 0)]
    else
      [RegImm(LsrImm, dst, dst, k), RegReg(Sub, dst, x, dst, LSL, k)]
  }

  /** `is_legal_immediate`: an 8-bit value rotated right by an even amount. */
  predicate LegalImmediate(value: int) {
    LegalFrom(U(value), 0)
  }

  predicate LegalFrom(u: nat, i: nat)
    decreases 16 - i
  {
    i < 16 && (((u * Pow2(2 * i)) % TWO32 + u / Pow2(32 - 2 * i)) <= 0xff || LegalFrom(u, i + 1))
  }

  /** `n` rotated right by `2 * k` within a word: what the twelve bits of an immediate stand for. */
  function Encoded(n: nat, k: nat): int
    requires k < 16
  {
    n / Pow2(2 * k) + (n % Pow2(2 * k)) * Pow2(32 - 2 * k)
  }

  ghost predicate Encodable(value: int) {
    exists n: nat, k: nat :: n <= 255 && k < 16 && Encoded(n, k) == U(value)
  }

  /** `is_legal_immediate` rotates left what the processor rotates right. */
  function RotatedBack(u: nat, k: nat): (n: int)
    requires k < 16
    ensures n >= 0
  {
    (u * Pow2(2 * k)) % TWO32 + u / Pow2(32 - 2 * k)
  }

  lemma SplitWord(a: int, b: int, p: int, q: int)
    requires p > 0 && q > 0 && 0 <= a < p && 0 <= b < q
    ensures (a * q + b) / q == a && (a * q + b) % q == b
    ensures ((a * q + b) * p) % (p * q) == b * p
  {
    DivUniqueRem(a * q + b, q, a, b);
    Comm3(a, q, p);
    MulMono(b + 1, q, p);
    Distrib(b, 1, p);
    assert b * p >= 0;
    assert (a * q + b) * p == a * (p * q) + b * p;
    DivUniqueRem((a * q + b) * p, p * q, a, b * p);
  }

  lemma WordParts(u: int, p: int, q: int)
    requires p > 0 && q > 0 && 0 <= u < p * q
    ensures 0 <= u / q < p && 0 <= u % q < q && u == (u / q) * q + u % q
  {
    assert u == (u / q) * q + u % q;
    if u / q >= p { MulMono(p, u / q, q); }
    if u / q <= -1 { MulMono(u / q, -1, q); }
  }

  /** Rotating by `2 * k` one way undoes rotating the other way. */
  lemma RotateIff(u: nat, n: nat, k: nat)
    requires u < TWO32 && n < TWO32 && k < 16
    ensures RotatedBack(u, k) == n <==> Encoded(n, k) == u
  {
    var p, q := Pow2(2 * k), Pow2(32 - 2 * k);
    assert p * q == TWO32 by {
      Pow2Add(2 * k, 32 - 2 * k);
      Pow2Values();
    }
    hide Pow2;
    RotateParts(u, p, q);
    RotateParts(n, q, p);
    RotateSame(u, n, p, q);
  }

  /** A word of two parts, rotated: the parts change places. */
  lemma RotateParts(u: int, p: int, q: int)
    requires p > 0 && q > 0 && 0 <= u < p * q && p * q == TWO32
    ensures 0 <= u / q < p && 0 <= u % q < q && u == (u / q) * q + u % q
    ensures (u * p) % TWO32 == (u % q) * p
  {
    WordParts(u, p, q);
    SplitWord(u / q, u % q, p, q);
  }

  lemma RotateSame(u: int, n: int, p: int, q: int)
    requires p > 0 && q > 0
    requires 0 <= u / q < p && 0 <= u % q < q && u == (u / q) * q + u % q
    requires 0 <= n / p < q && 0 <= n % p < p && n == (n / p) * p + n % p
    ensures (u % q) * p + u / q == n <==> n / p + (n % p) * q == u
  {
    if (u % q) * p + u / q == n { DivUniqueRem(n, p, u % q, u / q); }
    if n / p + (n % p) * q == u { DivUniqueRem(u, q, n % p, n / p); }
  }

  lemma {:induction false} LegalFromIff(u: nat, i: nat)
    requires u < TWO32
    ensures LegalFrom(u, i) <==> exists k: nat :: i <= k < 16 && RotatedBack(u, k) <= 255
    decreases 16 - i
  {
    if i < 16 {
      LegalFromIff(u, i + 1);
      assert LegalFrom(u, i) <==> RotatedBack(u, i) <= 255 || LegalFrom(u, i + 1);
      if k: nat :| i <= k < 16 && RotatedBack(u, k) <= 255 && k != i { assert i + 1 <= k; }
    }
  }

  /** The test accepts exactly the immediates that an instruction can hold. */
  lemma LegalIff(value: int)
    ensures LegalImmediate(value) <==> Encodable(value)
  {
    hide RotatedBack, Encoded, LegalFrom;
    var u := U(value);
    LegalFromIff(u, 0);
    forall n: nat, k: nat | n <= 255 && k < 16 ensures RotatedBack(u, k) == n <==> Encoded(n, k) == u { RotateIff(u, n, k); }
    if k: nat :| k < 16 && RotatedBack(u, k) <= 255 { assert Encoded(RotatedBack(u, k), k) == u; }
  }

  lemma AgreeSet(t: State, st: State, d: Reg, a: int, b: int)
    requires Agree(t, Write(st, d, a))
    ensures Agree(Write(t, d, b), Write(st, d, b))
  { }

  /** Clearing the low bits of the biased operand leaves the multiple of 2^k to subtract. */
  lemma RoundOffRuns(dst: Reg, x: Reg, k: nat, st: State, orig: int, legal: bool)
    requires 1 <= k <= 30 && dst != x && IsInt32(orig) && Get(st, x) == orig
    requires Get(st, dst) == Biased(orig, k)
    ensures Agree(Exec(RoundOffCode(dst, x, Pow2(k), k, legal), st), Write(st, dst, CMod(orig, Pow2(k))))
  {
    if legal { RoundOffBic(dst, x, k, st, orig); } else { RoundOffLsr(dst, x, k, st, orig); }
  }

  lemma RoundOffBic(dst: Reg, x: Reg, k: nat, st: State, orig: int)
    requires 1 <= k <= 30 && dst != x && IsInt32(orig) && Get(st, x) == orig
    requires Get(st, dst) == Biased(orig, k)
    ensures Agree(Exec(RoundOffCode(dst, x, Pow2(k), k, true), st), Write(st, dst, CMod(orig, Pow2(k))))
  {
    hide Exec, Agree, Wrap, CMod, Biased, AluImm;
    BicRuns(dst, x, Pow2(k) - 1, st);
    SubtractBic(orig, k);
  }

  lemma RoundOffLsr(dst: Reg, x: Reg, k: nat, st: State, orig: int)
    requires 1 <= k <= 30 && dst != x && IsInt32(orig) && Get(st, x) == orig
    requires Get(st, dst) == Biased(orig, k)
    ensures Agree(Exec(RoundOffCode(dst, x, Pow2(k), k, false), st), Write(st, dst, CMod(orig, Pow2(k))))
  {
    LsrRuns(dst, x, k, st);
    SubtractLsr(orig, k);
  }

  lemma BicRuns(dst: Reg, x: Reg, m: int, st: State)
    requires dst != x
    ensures
      Agree(Exec([RegImm(BicImm, dst, dst, m), RegReg(Sub, dst, x, dst, LSL, 0)], st),
            Write(st, dst, Wrap(Get(st, x) - AluImm(BicImm, Get(st, dst), m))))
  {
    Exec2(RegImm(BicImm, dst, dst, m), RegReg(Sub, dst, x, dst, LSL, 0), st);
    var low := AluImm(BicImm, Get(st, dst), m);
    ShiftZero(LSL, low);
    SubStep(dst, x, 0, st, low, low);
  }

  lemma LsrRuns(dst: Reg, x: Reg, k: nat, st: State)
    requires dst != x
    ensures
      Agree(Exec([RegImm(LsrImm, dst, dst, k), RegReg(Sub, dst, x, dst, LSL, k)], st),
            Write(st, dst, Wrap(Get(st, x) - Shifted(LSL, k, Shifted(LSR, k, Get(st, dst))))))
  {
    Exec2(RegImm(LsrImm, dst, dst, k), RegReg(Sub, dst, x, dst, LSL, k), st);
    var a := Shifted(LSR, k, Get(st, dst));
    SubStep(dst, x, k, st, a, Shifted(LSL, k, a));
  }

  lemma SubtractBic(orig: int, k: nat)
    requires 1 <= k <= 30 && IsInt32(orig)
    ensures Wrap(orig - AluImm(BicImm, Biased(orig, k), Pow2(k) - 1)) == CMod(orig, Pow2(k))
  {
    SubtractLow(orig, k);
    ClearLow(Biased(orig, k), k);
  }

  lemma SubtractLsr(orig: int, k: nat)
    requires 1 <= k <= 30 && IsInt32(orig)
    ensures Wrap(orig - Shifted(LSL, k, Shifted(LSR, k, Biased(orig, k)))) == CMod(orig, Pow2(k))
  {
    SubtractLow(orig, k);
    ShiftBack(Biased(orig, k), k);
  }

  lemma SubStep(dst: Reg, x: Reg, w: nat, st: State, a: int, low: int)
    requires dst != x && Shifted(LSL, w, a) == low
    ensures Agree(Step(RegReg(Sub, dst, x, dst, LSL, w), Write(st, dst, a)), Write(st, dst, Wrap(Get(st, x) - low)))
  {
    GetWrite(st, dst, a);
    assert Step(RegReg(Sub, dst, x, dst, LSL, w), Write(st, dst, a)) == Write(Write(st, dst, a), dst, Wrap(Get(st, x) - low));
    GetWrite(Write(st, dst, a), dst, Wrap(Get(st, x) - low));
  }

  function RoundedOff(r: int, k: nat): int {
    Shl(Shr(r, k), k)
  }

  lemma RoundedOffIs(r: int, k: nat)
    ensures RoundedOff(r, k) == (r / Pow2(k)) * Pow2(k) == r - r % Pow2(k)
  {
    ShrIs(r, k);
    ShlIs(Shr(r, k), k);
    RemForm(r, Pow2(k));
  }

  lemma SubtractLow(orig: int, k: nat)
    requires 1 <= k <= 30 && IsInt32(orig)
    ensures Wrap(orig - Wrap(RoundedOff(Biased(orig, k), k))) == CMod(orig, Pow2(k))
  {
    hide Wrap, CMod, Biased, RoundedOff, Pow2;
    MultiplePart(orig, k);
    RemainderRange(orig, k);
    WrapId(CMod(orig, Pow2(k)));
    WrapAdd(orig, RoundedOff(Biased(orig, k), k));
  }

  lemma RemainderRange(orig: int, k: nat)
    requires 1 <= k <= 30 && IsInt32(orig)
    ensures IsInt32(CMod(orig, Pow2(k)))
  {
    Pow2Small(k);
    CDivMod(orig, Pow2(k));
  }

  lemma MultiplePart(orig: int, k: nat)
    ensures RoundedOff(Biased(orig, k), k) == orig - CMod(orig, Pow2(k))
  {
    BiasedQuotient(orig, k);
    ShlIs(CDiv(orig, Pow2(k)), k);
    CDivMod(orig, Pow2(k));
  }

  /** Low bits of a word and of its unsigned reading agree. */
  lemma LowBits(r: int, k: nat)
    requires k <= 32
    ensures U(r) % Pow2(k) == r % Pow2(k)
    ensures Wrap(U(r) - U(r) % Pow2(k)) == Wrap(RoundedOff(r, k))
  {
    Pow2Add(32 - k, k);
    Pow2Values();
    LowBitsAux(r, r / TWO32, U(r), Pow2(k), Pow2(32 - k));
    RoundedOffIs(r, k);
    WrapCong(RoundedOff(r, k), U(r) - U(r) % Pow2(k), r / TWO32);
  }

  lemma RemForm(r: int, p: int)
    requires p > 0
    ensures (r / p) * p == r - r % p
  { }

  lemma LowBitsAux(r: int, h: int, u: int, p: int, n: int)
    requires p > 0 && n * p == TWO32 && r == h * TWO32 + u
    ensures u % p == r % p
  {
    Comm3(h, n, p);
    RemForm(u, p);
    Distrib(h * n, u / p, p);
    DivUniqueRem(r, p, h * n + u / p, u % p);
  }

  lemma DivUniqueRem(a: int, b: int, q: int, r: int)
    requires b > 0 && a == q * b + r && 0 <= r < b
    ensures a / b == q && a % b == r
  {
    DivUnique(a, b, q);
  }

  lemma ClearLow(r: int, k: nat)
    requires k <= 30
    ensures AluImm(BicImm, r, Pow2(k) - 1) == Wrap(RoundedOff(r, k))
  {
    LowBits(r, k);
    MaskedWord(U(r), k);
  }

  lemma MaskedWord(u: nat, k: nat)
    requires k <= 30 && u < TWO32
    ensures BitAnd(u, TWO32 - 1 - U(Pow2(k) - 1)) == u - u % Pow2(k)
  {
    MaskValue(k);
    BitAndHigh(u, 32, k);
  }

  lemma MaskValue(k: nat)
    requires k <= 30
    ensures U(Pow2(k) - 1) == Pow2(k) - 1 && Pow2(32) == TWO32
  {
    Pow2Values();
    Pow2Mono(k, 30);
  }

  lemma ShiftBack(r: int, k: nat)
    requires k <= 32
    ensures Shifted(LSL, k, Shifted(LSR, k, r)) == Wrap(RoundedOff(r, k))
  {
    LowBits(r, k);
    ShrIs(U(r), k);
    ShlIs(Wrap(Shr(U(r), k)), k);
    WrapMul(Shr(U(r), k), Pow2(k));
    RemForm(U(r), Pow2(k));
  }

  // ----- one instruction -----

  /** What an execution is assumed to satisfy: the constant registers hold their constants, and registers
      hold words. */
  ghost predicate Known(s: State, c: map<Reg, int>) {
    && (forall r :: r in c ==> Get(s, r) == c[r])
    && (forall r: Reg :: IsInt32(Get(s, r)))
  }

  ghost predicate Correct(i: Inst, c: map<Reg, int>, code: seq<Inst>) {
    forall s :: Known(s, c) ==> Agree(Exec(code, s), Step(i, s))
  }

  predicate NoScratch(i: Inst) {
    match i
    case RegReg(_, d, a, b, _, _) => Free(d) && Free(a) && Free(b)
    case RegImm(_, d, a, _) => Free(d) && Free(a)
    case LoadImm(d, _) => Free(d)
    case SMulL(d, e, a, b) => Free(d) && Free(e) && Free(a) && Free(b)
    case Mla(d, a, b, e) => Free(d) && Free(a) && Free(b) && Free(e)
    case Mls(d, a, b, e) => Free(d) && Free(a) && Free(b) && Free(e)
    case Cmp(a, b) => Free(a) && Free(b)
    case CmpImm(a, _) => Free(a)
  }

  predicate Free(r: Reg) { r != R4 && r != R5 }

  predicate IsPow2(v: int) { v > 0 && v == Pow2(Ctz(v)) }

  /** The register overlaps under which the emitted division and remainder sequences are right. */
  predicate Guard(i: Inst, c: map<Reg, int>) {
    i.RegReg? && i.w == 0 && i.rhs in c && c[i.rhs] > 1 ==>
      var v := c[i.rhs];
      && (i.op == Div && IsPow2(v) && v > 2 ==> i.dst != i.lhs)
      && (i.op == Mod ==> i.dst != i.lhs && (IsPow2(v) || i.dst != i.rhs))
  }

  lemma CtzSmall(v: int)
    requires 1 < v < TWO31 && IsPow2(v)
    ensures 1 <= Ctz(v) <= 30 && (v == 2 <==> Ctz(v) == 1)
  {
    Pow2Values();
    if Ctz(v) >= 31 { Pow2Mono(31, Ctz(v)); }
    if Ctz(v) >= 2 { Pow2Mono(2, Ctz(v)); assert Pow2(2) == 4; }
    assert Pow2(1) == 2;
  }

  function DivPow2Code(dst: Reg, x: Reg, k: nat): seq<Inst> {
    BiasCode(dst, x, k) + [RegImm(AsrImm, dst, dst, k)]
  }

  function ModPow2Code(dst: Reg, x: Reg, v: int, k: nat, legal: bool): seq<Inst> {
    BiasCode(dst, x, k) + RoundOffCode(dst, x, v, k, legal)
  }

  lemma DivPow2Runs(dst: Reg, x: Reg, k: nat, st: State)
    requires 1 <= k <= 30 && IsInt32(Get(st, x)) && (k > 1 ==> dst != x) && Free(dst) && Free(x)
    ensures Agree(Exec(DivPow2Code(dst, x, k), st), Write(st, dst, CDiv(Get(st, x), Pow2(k))))
  {
    BiasRuns(dst, x, k, st);
    BiasedQuotient(Get(st, x), k);
    BiasThenAsr(dst, x, k, st, Biased(Get(st, x), k), CDiv(Get(st, x), Pow2(k)));
  }

  lemma BiasThenAsr(dst: Reg, x: Reg, k: nat, st: State, r: int, q: int)
    requires Free(dst) && Agree(Exec(BiasCode(dst, x, k), st), Write(st, dst, r))
    requires Shr(r, k) == q
    ensures Agree(Exec(DivPow2Code(dst, x, k), st), Write(st, dst, q))
  {
    var t := Exec(BiasCode(dst, x, k), st);
    var i := RegImm(AsrImm, dst, dst, k);
    assert Get(t, dst) == r;
    ExecAppend(BiasCode(dst, x, k), [i], st);
    Exec1(i, t);
    AgreeSet(t, st, dst, r, q);
  }

  lemma ModPow2Runs(dst: Reg, x: Reg, k: nat, st: State, legal: bool)
    requires 1 <= k <= 30 && IsInt32(Get(st, x)) && dst != x && Free(dst) && Free(x)
    ensures Agree(Exec(ModPow2Code(dst, x, Pow2(k), k, legal), st), Write(st, dst, CMod(Get(st, x), Pow2(k))))
  {
    BiasRuns(dst, x, k, st);
    var t := Exec(BiasCode(dst, x, k), st);
    ExecAppend(BiasCode(dst, x, k), RoundOffCode(dst, x, Pow2(k), k, legal), st);
    RoundOffRuns(dst, x, k, t, Get(st, x), legal);
    AgreeSet(t, st, dst, Biased(Get(st, x), k), CMod(Get(st, x), Pow2(k)));
  }

  lemma KnownRhs(s: State, c: map<Reg, int>, r: Reg)
    requires Known(s, c) && r in c
    ensures Get(s, r) == c[r] && IsInt32(c[r])
  { }

  predicate ConstOp(i: Inst, op: Op3, c: map<Reg, int>, v: int) {
    i.RegReg? && i.op == op && i.w == 0 && i.rhs in c && c[i.rhs] == v
  }

  lemma StepConst(i: Inst, op: Op3, c: map<Reg, int>, v: int, s: State)
    requires ConstOp(i, op, c, v) && Known(s, c)
    ensures Step(i, s) == Write(s, i.dst, Alu(op, Get(s, i.lhs), v))
    ensures IsInt32(Get(s, i.lhs))
  {
    KnownRhs(s, c, i.rhs);
    ShiftZero(i.kind, v);
  }

  lemma AddSubCorrect(i: Inst, c: map<Reg, int>, v: int)
    requires ConstOp(i, Add, c, v) || ConstOp(i, Sub, c, v)
    ensures Correct(i, c, [RegImm(if i.op == Add then AddImm else SubImm, i.dst, i.lhs, v)])
  {
    var j := RegImm(if i.op == Add then AddImm else SubImm, i.dst, i.lhs, v);
    forall s | Known(s, c) ensures Agree(Exec([j], s), Step(i, s)) {
      StepConst(i, i.op, c, v, s);
      Exec1(j, s);
    }
  }

  lemma CmpCorrect(i: Inst, c: map<Reg, int>)
    requires i.Cmp? && i.rhs in c
    ensures Correct(i, c, [CmpImm(i.lhs, c[i.rhs])])
  {
    forall s | Known(s, c) ensures Agree(Exec([CmpImm(i.lhs, c[i.rhs])], s), Step(i, s)) {
      KnownRhs(s, c, i.rhs);
      Exec1(CmpImm(i.lhs, c[i.rhs]), s);
    }
  }

  lemma KeepCorrect(i: Inst, c: map<Reg, int>)
    ensures Correct(i, c, [i])
  {
    forall s | Known(s, c) ensures Agree(Exec([i], s), Step(i, s)) { Exec1(i, s); }
  }

  lemma LowBitBelow(v: int)
    requires v > 0
    ensures Pow2(Ctz(v)) <= v
  {
    CtzFactor(v);
  }

  lemma ShiftMulCorrect(i: Inst, c: map<Reg, int>, v: int)
    requires ConstOp(i, Mul, c, v) && IsPow2(v)
    ensures Correct(i, c, [RegImm(LslImm, i.dst, i.lhs, Ctz(v))])
  {
    var j := RegImm(LslImm, i.dst, i.lhs, Ctz(v));
    forall s | Known(s, c) ensures Agree(Exec([j], s), Step(i, s)) {
      StepConst(i, Mul, c, v, s);
      ShlIs(Get(s, i.lhs), Ctz(v));
      Exec1(j, s);
    }
  }

  lemma ShiftAddCorrect(i: Inst, c: map<Reg, int>, v: int)
    requires ConstOp(i, Mul, c, v) && v > 1 && !IsPow2(v)
    requires v - Pow2(Ctz(v)) >= 0 && PopCount(v - Pow2(Ctz(v))) == 1
    ensures v - Pow2(Ctz(v)) > 0
    ensures Correct(i, c, ShiftAddCode(Add, i.dst, i.lhs, Ctz(v - Pow2(Ctz(v))), Ctz(v)))
  {
    OtherBit(v, v - Pow2(Ctz(v)), 1);
    ShiftOpCorrect(i, c, v, Add, Ctz(v - Pow2(Ctz(v))));
  }

  lemma ShiftSubCorrect(i: Inst, c: map<Reg, int>, v: int)
    requires ConstOp(i, Mul, c, v) && v > 1 && !IsPow2(v)
    requires PopCount(v + Pow2(Ctz(v))) == 1
    ensures Correct(i, c, ShiftAddCode(RevSub, i.dst, i.lhs, Ctz(v + Pow2(Ctz(v))), Ctz(v)))
  {
    OtherBit(v, v + Pow2(Ctz(v)), -1);
    ShiftOpCorrect(i, c, v, RevSub, Ctz(v + Pow2(Ctz(v))));
  }

  lemma ShiftOpCorrect(i: Inst, c: map<Reg, int>, v: int, op: Op3, n: nat)
    requires ConstOp(i, Mul, c, v) && v > 1 && n >= Ctz(v) && (op == Add || op == RevSub)
    requires v == Pow2(n - Ctz(v)) * Pow2(Ctz(v)) + (if op == Add then 1 else -1) * Pow2(Ctz(v))
    ensures Correct(i, c, ShiftAddCode(op, i.dst, i.lhs, n, Ctz(v)))
  {
    forall s | Known(s, c)
      ensures Agree(Exec(ShiftAddCode(op, i.dst, i.lhs, n, Ctz(v)), s), Step(i, s))
    {
      StepConst(i, Mul, c, v, s);
      ShiftAddRuns(op, i.dst, i.lhs, n, Ctz(v), v, s);
    }
  }

  lemma DivPow2Correct(i: Inst, c: map<Reg, int>, v: int)
    requires NoScratch(i) && ConstOp(i, Div, c, v) && 1 < v < TWO31 && IsPow2(v)
    requires v > 2 ==> i.dst != i.lhs
    ensures Correct(i, c, DivPow2Code(i.dst, i.lhs, Ctz(v)))
  {
    CtzSmall(v);
    forall s | Known(s, c) ensures Agree(Exec(DivPow2Code(i.dst, i.lhs, Ctz(v)), s), Step(i, s)) {
      StepConst(i, Div, c, v, s);
      DivPow2Runs(i.dst, i.lhs, Ctz(v), s);
    }
  }

  lemma ModPow2Correct(i: Inst, c: map<Reg, int>, v: int, legal: bool)
    requires NoScratch(i) && ConstOp(i, Mod, c, v) && 1 < v < TWO31 && IsPow2(v) && i.dst != i.lhs
    ensures Correct(i, c, ModPow2Code(i.dst, i.lhs, v, Ctz(v), legal))
  {
    CtzSmall(v);
    forall s | Known(s, c) ensures Agree(Exec(ModPow2Code(i.dst, i.lhs, v, Ctz(v), legal), s), Step(i, s)) {
      StepConst(i, Mod, c, v, s);
      ModPow2Runs(i.dst, i.lhs, Ctz(v), s, legal);
    }
  }

  lemma DivMagicRuns(dst: Reg, x: Reg, v: int, b: int, s: int, st: State)
    requires Free(dst) && Free(x) && IsInt32(Get(st, x))
    requires v > 1 && 0 <= b < TWO32 && 0 <= s <= 30 && Magic(v, b, s)
    ensures Agree(Exec(QuotientCode(dst, x, b, s), st), Write(st, dst, CDiv(Get(st, x), v)))
  {
    QuotientCodeRuns(dst, x, b, s, st);
    QuotientFromHigh(v, b, s, Get(st, x));
  }

  lemma DivMagicCorrect(i: Inst, c: map<Reg, int>, v: int, b: int, s: int)
    requires NoScratch(i) && ConstOp(i, Div, c, v) && v > 1
    requires 0 <= b < TWO32 && 0 <= s <= 30 && Magic(v, b, s)
    ensures Correct(i, c, QuotientCode(i.dst, i.lhs, b, s))
  {
    forall st | Known(st, c) ensures Agree(Exec(QuotientCode(i.dst, i.lhs, b, s), st), Step(i, st)) {
      StepConst(i, Div, c, v, st);
      DivMagicRuns(i.dst, i.lhs, v, b, s, st);
    }
  }

  function ModMagicCode(dst: Reg, x: Reg, rhs: Reg, b: int, s: int): seq<Inst> {
    QuotientCode(dst, x, b, s) + [Mls(dst, dst, rhs, x)]
  }

  /** The final `mls`, which rereads the operands after the quotient has been written. */
  lemma ModMagicRuns(dst: Reg, x: Reg, rhs: Reg, v: int, b: int, s: int, st: State)
    requires Free(dst) && Free(x) && Free(rhs) && IsInt32(Get(st, x)) && Get(st, rhs) == v
    requires v > 1 && 0 <= b < TWO32 && 0 <= s <= 30 && Magic(v, b, s)
    ensures
      var q := CDiv(Get(st, x), v);
      Agree(Exec(ModMagicCode(dst, x, rhs, b, s), st),
            Write(st, dst, Wrap((if dst == x then q else Get(st, x)) - q * (if dst == rhs then q else v))))
  {
    var q := CDiv(Get(st, x), v);
    DivMagicRuns(dst, x, v, b, s, st);
    var t := Exec(QuotientCode(dst, x, b, s), st);
    var m := Mls(dst, dst, rhs, x);
    ExecAppend(QuotientCode(dst, x, b, s), [m], st);
    Exec1(m, t);
    GetWrite(st, dst, q);
    MlsAfter(dst, x, rhs, st, t, q, if dst == x then q else Get(st, x), if dst == rhs then q else v);
  }

  lemma MlsAfter(dst: Reg, x: Reg, rhs: Reg, st: State, t: State, q: int, a: int, b: int)
    requires Free(dst) && Agree(t, Write(st, dst, q))
    requires Get(t, x) == a && Get(t, dst) == q && Get(t, rhs) == b
    ensures Agree(Step(Mls(dst, dst, rhs, x), t), Write(st, dst, Wrap(a - q * b)))
  {
    GetWrite(st, dst, q);
    GetWrite(t, dst, Wrap(a - q * b));
  }

  lemma ModMagicCorrect(i: Inst, c: map<Reg, int>, v: int, b: int, s: int)
    requires NoScratch(i) && ConstOp(i, Mod, c, v) && 1 < v < TWO31 && i.dst != i.lhs && i.dst != i.rhs
    requires 0 <= b < TWO32 && 0 <= s <= 30 && Magic(v, b, s)
    ensures Correct(i, c, ModMagicCode(i.dst, i.lhs, i.rhs, b, s))
  {
    forall st | Known(st, c) ensures Agree(Exec(ModMagicCode(i.dst, i.lhs, i.rhs, b, s), st), Step(i, st)) {
      StepConst(i, Mod, c, v, st);
      KnownRhs(st, c, i.rhs);
      ModMagicRuns(i.dst, i.lhs, i.rhs, v, b, s, st);
      RemainderValue(Get(st, i.lhs), v);
    }
  }

  lemma RemainderValue(x: int, v: int)
    requires IsInt32(x) && 1 < v < TWO31
    ensures Wrap(x - CDiv(x, v) * v) == CMod(x, v)
  {
    CDivMod(x, v);
    WrapId(CMod(x, v));
  }

  lemma MlCorrect(i: Inst, c: map<Reg, int>, a: Reg, k: Reg, v: int)
    requires (i.Mla? || i.Mls?) && ((a == i.s1 && k == i.s2) || (a == i.s2 && k == i.s1))
    requires k in c && c[k] == v && IsPow2(v)
    ensures Correct(i, c, [RegReg(if i.Mla? then Add else Sub, i.dst, i.s3, a, LSL, Ctz(v))])
  {
    var j := RegReg(if i.Mla? then Add else Sub, i.dst, i.s3, a, LSL, Ctz(v));
    forall s | Known(s, c) ensures Agree(Exec([j], s), Step(i, s)) {
      KnownRhs(s, c, k);
      Exec1(j, s);
      MlValue(Get(s, i.s3), Get(s, i.s1), Get(s, i.s2), Get(s, a), v);
    }
  }

  lemma MlValue(s3: int, s1: int, s2: int, a: int, v: int)
    requires ((s1 == a && s2 == v) || (s2 == a && s1 == v)) && IsPow2(v)
    ensures Wrap(s1 * s2 + s3) == Wrap(s3 + Wrap(Shl(a, Ctz(v))))
    ensures Wrap(s3 - s1 * s2) == Wrap(s3 - Wrap(Shl(a, Ctz(v))))
  {
    ShlIs(a, Ctz(v));
    WrapSum(s3, s1 * s2, Shl(a, Ctz(v)));
  }

  lemma WrapSum(s3: int, m: int, n: int)
    requires m == n
    ensures Wrap(m + s3) == Wrap(s3 + Wrap(n)) && Wrap(s3 - m) == Wrap(s3 - Wrap(n))
  {
    WrapAdd(s3, n);
  }

  // ----- where the sequences go wrong -----

  function Witness(c: map<Reg, int>, x: int): State {
    Init(r => if r in c then c[r] else x, (0, 0))
  }

  lemma WitnessKnown(c: map<Reg, int>, x: int)
    requires IsInt32(x) && forall r :: r in c ==> IsInt32(c[r])
    ensures Known(Witness(c, x), c)
  { }

  lemma WitnessDiv(v: int)
    requires 1 < v < TWO31
    ensures CDiv(v, v) == 1 && CMod(v, v) == 0 && CDiv(1, v) == 0 && CMod(1, v) == 1
  {
    assert Quot(v - v, v) == 0 && Rem(v - v, v) == 0;
  }

  lemma DivPow2Wrong(i: Inst, c: map<Reg, int>, v: int)
    requires NoScratch(i) && ConstOp(i, Div, c, v) && 2 < v < TWO31 && IsPow2(v)
    requires i.dst == i.lhs && i.lhs !in c && forall r :: r in c ==> IsInt32(c[r])
    ensures !Correct(i, c, DivPow2Code(i.dst, i.lhs, Ctz(v)))
  {
    CtzSmall(v);
    var w := Witness(c, v);
    WitnessKnown(c, v);
    StepConst(i, Div, c, v, w);
    WitnessDiv(v);
    BiasDestroysOperand(i.dst, Ctz(v), w);
    var t := Exec(BiasCode(i.dst, i.lhs, Ctz(v)), w);
    var a := RegImm(AsrImm, i.dst, i.dst, Ctz(v));
    ExecAppend(BiasCode(i.dst, i.lhs, Ctz(v)), [a], w);
    Exec1(a, t);
    ZeroShift(Ctz(v));
    assert Get(Exec(DivPow2Code(i.dst, i.lhs, Ctz(v)), w), i.dst) == 0;
    assert Get(Step(i, w), i.dst) == 1;
  }

  lemma {:induction false} ShiftOfZero(k: nat)
    ensures Shl(0, k) == 0 && Shr(0, k) == 0 && (k > 0 ==> Shr(1, k) == 0)
  {
    if k > 0 { ShiftOfZero(k - 1); }
  }

  lemma ZeroShift(k: nat)
    ensures Shifted(ASR, k, 0) == 0 && Shifted(LSR, k, 0) == 0 && Shifted(LSL, k, 0) == 0
    ensures k > 0 ==> Shifted(LSR, k, 1) == 0
  {
    ShiftOfZero(k);
  }

  /** With destination and operand equal, the sign word overwrites a positive operand. */
  lemma BiasDestroysOperand(d: Reg, k: nat, st: State)
    requires k >= 2 && 0 <= Get(st, d) < TWO31
    ensures Get(Exec(BiasCode(d, d, k), st), d) == 0
  {
    var i1, i2 := RegImm(AsrImm, d, d, 31), RegReg(Add, d, d, d, LSR, Dist(32, k));
    Exec2(i1, i2, st);
    SignFill(Get(st, d));
    ZeroShift(Dist(32, k));
    assert Get(Step(i1, st), d) == 0;
  }

  lemma BiasOfOne(d: Reg, k: nat, st: State)
    requires k >= 1 && Get(st, d) == 1
    ensures 0 <= Get(Exec(BiasCode(d, d, k), st), d) <= 1
  {
    if k == 1 {
      Exec1(RegReg(Add, d, d, d, LSR, 31), st);
      SignBit(1);
    } else {
      BiasDestroysOperand(d, k, st);
    }
  }

  /** The subtraction then subtracts a word from itself. */
  lemma RoundOffSame(d: Reg, v: int, k: nat, legal: bool, t: State)
    requires k >= 1 && 0 <= Get(t, d) <= 1
    ensures Get(Exec(RoundOffCode(d, d, v, k, legal), t), d) == 0
  {
    if legal {
      var i1, i2 := RegImm(BicImm, d, d, v - 1), RegReg(Sub, d, d, d, LSL, 0);
      Exec2(i1, i2, t);
      ShiftZero(LSL, Get(Step(i1, t), d));
    } else {
      var i1, i2 := RegImm(LsrImm, d, d, k), RegReg(Sub, d, d, d, LSL, k);
      Exec2(i1, i2, t);
      ZeroShift(k);
      assert Get(Step(i1, t), d) == 0;
    }
  }

  lemma ModPow2Wrong(i: Inst, c: map<Reg, int>, v: int, legal: bool)
    requires NoScratch(i) && ConstOp(i, Mod, c, v) && 1 < v < TWO31 && IsPow2(v)
    requires i.dst == i.lhs && i.lhs !in c && forall r :: r in c ==> IsInt32(c[r])
    ensures !Correct(i, c, ModPow2Code(i.dst, i.lhs, v, Ctz(v), legal))
  {
    CtzSmall(v);
    var w := Witness(c, 1);
    WitnessKnown(c, 1);
    StepConst(i, Mod, c, v, w);
    WitnessDiv(v);
    BiasOfOne(i.dst, Ctz(v), w);
    ExecAppend(BiasCode(i.dst, i.lhs, Ctz(v)), RoundOffCode(i.dst, i.lhs, v, Ctz(v), legal), w);
    RoundOffSame(i.dst, v, Ctz(v), legal, Exec(BiasCode(i.dst, i.lhs, Ctz(v)), w));
    assert Get(Step(i, w), i.dst) == 1;
  }

  lemma ModMagicWrong(i: Inst, c: map<Reg, int>, v: int, b: int, s: int)
    requires NoScratch(i) && ConstOp(i, Mod, c, v) && 1 < v < TWO31
    requires 0 <= b < TWO32 && 0 <= s <= 30 && Magic(v, b, s)
    requires (i.dst == i.lhs || i.dst == i.rhs) && i.lhs !in c && forall r :: r in c ==> IsInt32(c[r])
    ensures !Correct(i, c, ModMagicCode(i.dst, i.lhs, i.rhs, b, s))
  {
    var w := Witness(c, v);
    WitnessKnown(c, v);
    StepConst(i, Mod, c, v, w);
    WitnessDiv(v);
    ModMagicRuns(i.dst, i.lhs, i.rhs, v, b, s, w);
    assert Get(Step(i, w), i.dst) == 0;
  }

  // ----- the pass -----

  function Operands(i: Inst): set<Reg> {
    match i
    case RegReg(_, _, a, b, _, _) => {a, b}
    case RegImm(_, _, a, _) => {a}
    case LoadImm(_, _) => {}
    case SMulL(_, _, a, b) => {a, b}
    case Mla(_, a, b, e) => {a, b, e}
    case Mls(_, a, b, e) => {a, b, e}
    case Cmp(a, b) => {a, b}
    case CmpImm(a, _) => {a}
  }

  /** The constants an instruction reads. */
  function Relevant(i: Inst, c: map<Reg, int>): map<Reg, int> {
    map r | r in c && r in Operands(i) :: c[r]
  }

  /** The instruction has an encoding as far as its constants go. */
  ghost predicate HasEncoding(j: Inst) {
    match j
    case RegReg(_, _, _, _, kind, w) => if kind == LSL then w <= 31 else 1 <= w <= 32
    case RegImm(op, _, _, imm) => if op == LslImm || op == LsrImm || op == AsrImm then 0 <= imm <= 31 else Encodable(imm)
    case LoadImm(_, imm) => 0 <= imm < TWO31
    case CmpImm(_, imm) => Encodable(imm)
    case _ => true
  }

  predicate Slow(j: Inst) {
    j.RegReg? && (j.op == Mul || j.op == Div || j.op == Mod)
  }

  /** A power of two, or a sum or difference of two. */
  predicate Shape(v: int, a: nat, b: nat) {
    v == Pow2(a) || (b < a && (v == Pow2(a) + Pow2(b) || v == Pow2(a) - Pow2(b)))
  }

  ghost predicate FewBits(v: int) {
    exists a: nat, b: nat :: Shape(v, a, b)
  }

  /** The instructions that have a better form: additions, subtractions and comparisons with a constant that fits an
      immediate, divisions and remainders by a constant above 1, multiplications by a constant of few bits, and
      multiply-accumulate by a power of two. */
  ghost predicate Replaceable(i: Inst, c: map<Reg, int>) {
    match i
    case Cmp(_, rhs) => rhs in c && Encodable(c[rhs])
    case RegReg(op, _, _, rhs, _, w) =>
      w == 0 && rhs in c &&
      (match op
       case Add => Encodable(c[rhs])
       case Sub => Encodable(c[rhs])
       case Mul => c[rhs] > 1 && FewBits(c[rhs])
       case Div => c[rhs] > 1
       case Mod => c[rhs] > 1
       case _ => false)
    case Mla(_, s1, s2, _) => MlReplaceable(c, s1, s2)
    case Mls(_, s1, s2, _) => MlReplaceable(c, s1, s2)
    case _ => false
  }

  /** The second factor decides when it is constant, otherwise the first. */
  predicate MlReplaceable(c: map<Reg, int>, s1: Reg, s2: Reg) {
    if s2 in c then IsPow2(c[s2]) else s1 in c && IsPow2(c[s1])
  }

  /** What takes the place of `i`: `i` itself, or encodable instructions without multiplication or division. */
  ghost predicate Improved(i: Inst, c: map<Reg, int>, code: seq<Inst>) {
    if Replaceable(i, c) then i !in code && forall j :: j in code ==> HasEncoding(j) && !Slow(j) else code == [i]
  }

  lemma {:induction false} CtzOfMultiple(b: nat, q: nat)
    requires q % 2 == 1
    ensures q * Pow2(b) > 0 && Ctz(q * Pow2(b)) == b
  {
    if b > 0 {
      CtzOfMultiple(b - 1, q);
      assert q * Pow2(b) == 2 * (q * Pow2(b - 1));
    }
  }

  lemma {:induction false} PopCountOfPow2(a: nat)
    ensures PopCount(Pow2(a)) == 1
  {
    if a > 0 {
      PopCountOfPow2(a - 1);
      assert Pow2(a) / 2 == Pow2(a - 1) && Pow2(a) % 2 == 0;
    }
  }

  lemma PowersApart(a: nat, b: nat) returns (p: nat)
    requires b < a
    ensures p >= 2 && p % 2 == 0 && Pow2(a) == p * Pow2(b)
  {
    Pow2Add(a - b, b);
    p := Pow2(a - b);
    assert p == 2 * Pow2(a - b - 1);
  }

  lemma OneMoreOrLess(p: int, q: int)
    requires p >= 2 && q > 0
    ensures (p + 1) * q == p * q + q && (p - 1) * q == p * q - q && p * q > q
  {
    MulMono(2, p, q);
  }

  /** The lowest bit of a sum or difference of two powers. */
  lemma LowBitOfShape(a: nat, b: nat)
    requires b < a
    ensures Pow2(a) > Pow2(b)
    ensures Ctz(Pow2(a) + Pow2(b)) == b && Ctz(Pow2(a) - Pow2(b)) == b
  {
    var p := PowersApart(a, b);
    OneMoreOrLess(p, Pow2(b));
    CtzOfMultiple(b, p + 1);
    CtzOfMultiple(b, p - 1);
    assert (p + 1) * Pow2(b) == Pow2(a) + Pow2(b);
    assert (p - 1) * Pow2(b) == Pow2(a) - Pow2(b);
    hide *;
  }

  /** The bit counts of the multiplication case find exactly these constants. */
  lemma FewBitsIff(v: int)
    requires v > 1
    ensures Pow2(Ctz(v)) <= v
    ensures FewBits(v) <==> IsPow2(v) || PopCount(v - Pow2(Ctz(v))) == 1 || PopCount(v + Pow2(Ctz(v))) == 1
  {
    hide Pow2, Ctz, PopCount;
    LowBitBelow(v);
    var l := Ctz(v);
    if IsPow2(v) {
      assert Shape(v, l, 0);
    } else {
      if PopCount(v - Pow2(l)) == 1 { BitsGiveShape(v, v - Pow2(l), 1); }
      if PopCount(v + Pow2(l)) == 1 { BitsGiveShape(v, v + Pow2(l), -1); }
    }
    if a: nat, b: nat :| Shape(v, a, b) {
      if v == Pow2(a) {
        CtzOfPow2(a);
      } else {
        LowBitOfShape(a, b);
        PopCountOfPow2(a);
      }
    }
  }

  lemma BitsGiveShape(v: int, r: int, sign: int)
    requires v > 1 && !IsPow2(v) && (sign == 1 || sign == -1)
    requires r == v - sign * Pow2(Ctz(v)) && r >= 0 && PopCount(r) == 1
    ensures FewBits(v)
  {
    hide PopCount, Ctz;
    OtherBit(v, r, sign);
    var n, l := Ctz(r), Ctz(v);
    Pow2Add(n - l, l);
    assert v == Pow2(n) + sign * Pow2(l);
    if n == l {
      assert sign == 1 ==> v == Pow2(l + 1);
      assert Shape(v, l + 1, 0);
    } else {
      assert Shape(v, n, l);
    }
  }

  /** A register with a known constant has one definition, which loads it. */
  predicate ConstantsStay(i: Inst, c: map<Reg, int>) {
    i.RegReg? ==> i.dst !in c
  }

  /** The code that replaces one instruction. It is right in every state exactly when the register overlaps of `Guard`
      are absent. */
  method MergeOne(i: Inst, constants: map<Reg, int>) returns (code: seq<Inst>)
    requires NoScratch(i) && forall r :: r in constants ==> IsInt32(constants[r])
    ensures Guard(i, constants) ==> Correct(i, Relevant(i, constants), code)
    ensures ConstantsStay(i, constants) ==> (Correct(i, Relevant(i, constants), code) <==> Guard(i, constants))
    ensures !Guard(i, constants) && i.lhs !in constants ==> !Correct(i, Relevant(i, constants), code)
    ensures Improved(i, constants, code)
  {
    var c := Relevant(i, constants);
    if i.Cmp? && i.rhs in c { LegalIff(c[i.rhs]); }
    KeepCorrect(i, c);
    code := [i];
    match i {
      case Cmp(lhs, rhs) =>
        if rhs in c && LegalImmediate(c[rhs]) {
          CmpCorrect(i, c);
          code := [CmpImm(lhs, c[rhs])];
        }
      case RegReg(op, dst, lhs, rhs, kind, w) =>
        assert Guard(i, c) == Guard(i, constants);
        if w == 0 && rhs in c {
          code := MergeRegReg(i, c, c[rhs]);
        }
      case Mla(dst, s1, s2, s3) =>
        code := MergeMl(i, c, s1, s2);
      case Mls(dst, s1, s2, s3) =>
        code := MergeMl(i, c, s1, s2);
      case _ =>
    }
  }

  lemma WordCtz(v: int)
    requires 0 < v < TWO31
    ensures Ctz(v) <= 30
  {
    Pow2Values();
    CtzFactor(v);
    if Ctz(v) >= 31 { Pow2Mono(31, Ctz(v)); }
  }

  /** The other bit of such a constant is a bit of a word. */
  lemma BitBelowTop(v: int, r: int)
    requires 1 < v < TWO31 && !IsPow2(v) && r >= 0 && PopCount(r) == 1
    requires r == v - Pow2(Ctz(v)) || r == v + Pow2(Ctz(v))
    ensures r > 0 && Ctz(r) <= 31
  {
    Pow2Values();
    CtzFactor(v);
    SingleBit(r);
    if Ctz(r) >= 32 { Pow2Mono(32, Ctz(r)); }
  }

  lemma BiasEncodes(dst: Reg, x: Reg, k: nat)
    requires 1 <= k <= 30
    ensures forall j :: j in BiasCode(dst, x, k) ==> HasEncoding(j) && !Slow(j)
  { }

  lemma RoundOffEncodes(dst: Reg, x: Reg, v: int, k: nat, legal: bool)
    requires 1 <= k <= 30 && (legal ==> Encodable(v - 1))
    ensures forall j :: j in RoundOffCode(dst, x, v, k, legal) ==> HasEncoding(j) && !Slow(j)
  { }

  lemma QuotientEncodes(dst: Reg, x: Reg, b: int, s: int)
    requires 0 <= b && 0 <= s <= 30
    ensures forall j :: j in QuotientCode(dst, x, b, s) ==> HasEncoding(j) && !Slow(j)
  { }

  method MergeMl(i: Inst, c: map<Reg, int>, a0: Reg, b0: Reg) returns (code: seq<Inst>)
    requires (i.Mla? || i.Mls?) && i.s1 == a0 && i.s2 == b0 && forall r :: r in c ==> IsInt32(c[r])
    ensures Correct(i, c, code) && Improved(i, c, code)
  {
    var a, b := a0, b0;
    KeepCorrect(i, c);
    code := [i];
    if b !in c {
      a, b := b, a;
    }
    if b !in c { return; }
    var v := c[b];
    if IsPow2(v) {
      MlCorrect(i, c, a, b, v);
      WordCtz(v);
      code := [RegReg(if i.Mla? then Add else Sub, i.dst, i.s3, a, LSL, Ctz(v))];
    }
  }

  method MergeRegReg(i: Inst, c: map<Reg, int>, v: int) returns (code: seq<Inst>)
    requires i.RegReg? && i.w == 0 && i.rhs in c && c[i.rhs] == v
    requires NoScratch(i) && forall r :: r in c ==> IsInt32(c[r])
    ensures Guard(i, c) ==> Correct(i, c, code)
    ensures i.dst !in c ==> (Correct(i, c, code) <==> Guard(i, c))
    ensures !Guard(i, c) && i.lhs !in c ==> !Correct(i, c, code)
    ensures Improved(i, c, code)
  {
    hide Correct, NoScratch, FewBits, Encodable, LegalImmediate, IsPow2;
    KeepCorrect(i, c);
    LegalIff(v);
    code := [i];
    match i.op {
      case Add =>
        if LegalImmediate(v) { AddSubCorrect(i, c, v); code := [RegImm(AddImm, i.dst, i.lhs, v)]; }
      case Sub =>
        if LegalImmediate(v) { AddSubCorrect(i, c, v); code := [RegImm(SubImm, i.dst, i.lhs, v)]; }
      case Mul =>
        if v > 1 { code := MergeMul(i, c, v); }
      case Div =>
        if v > 1 { code := MergeDiv(i, c, v); }
      case Mod =>
        if v > 1 { code := MergeMod(i, c, v); }
      case _ =>
    }
  }

  method MergeMul(i: Inst, c: map<Reg, int>, v: int) returns (code: seq<Inst>)
    requires ConstOp(i, Mul, c, v) && 1 < v < TWO31
    ensures Correct(i, c, code) && Improved(i, c, code)
  {
    KeepCorrect(i, c);
    code := [i];
    FewBitsIff(v);
    WordCtz(v);
    var log2v := Ctz(v);
    var v0 := Pow2(log2v);
    if v == v0 {
      ShiftMulCorrect(i, c, v);
      code := [RegImm(LslImm, i.dst, i.lhs, log2v)];
    } else if PopCount(v - v0) == 1 {
      ShiftAddCorrect(i, c, v);
      BitBelowTop(v, v - v0);
      code := ShiftAddCode(Add, i.dst, i.lhs, Ctz(v - v0), log2v);
    } else if PopCount(v + v0) == 1 {
      ShiftSubCorrect(i, c, v);
      BitBelowTop(v, v + v0);
      code := ShiftAddCode(RevSub, i.dst, i.lhs, Ctz(v + v0), log2v);
    }
  }

  method MergeDiv(i: Inst, c: map<Reg, int>, v: int) returns (code: seq<Inst>)
    requires ConstOp(i, Div, c, v) && 1 < v < TWO31
    requires NoScratch(i) && forall r :: r in c ==> IsInt32(c[r])
    ensures Guard(i, c) ==> Correct(i, c, code)
    ensures i.dst !in c ==> (Correct(i, c, code) <==> Guard(i, c))
    ensures Improved(i, c, code)
    ensures !Guard(i, c) && i.lhs !in c ==> !Correct(i, c, code)
  {
    if v == Pow2(Ctz(v)) {
      code := DivPow2Code(i.dst, i.lhs, Ctz(v));
      CtzSmall(v);
      BiasEncodes(i.dst, i.lhs, Ctz(v));
      if v == 2 || i.dst != i.lhs {
        DivPow2Correct(i, c, v);
      } else if i.lhs !in c {
        DivPow2Wrong(i, c, v);
      }
    } else {
      var b, s := DivOpt(v);
      code := QuotientCode(i.dst, i.lhs, b, s);
      QuotientEncodes(i.dst, i.lhs, b, s);
      DivMagicCorrect(i, c, v, b, s);
    }
  }

  method MergeMod(i: Inst, c: map<Reg, int>, v: int) returns (code: seq<Inst>)
    requires ConstOp(i, Mod, c, v) && 1 < v < TWO31
    requires NoScratch(i) && forall r :: r in c ==> IsInt32(c[r])
    ensures Guard(i, c) ==> Correct(i, c, code)
    ensures i.dst !in c ==> (Correct(i, c, code) <==> Guard(i, c))
    ensures Improved(i, c, code)
    ensures !Guard(i, c) && i.lhs !in c ==> !Correct(i, c, code)
  {
    hide Correct, NoScratch, FewBits, Encodable, LegalImmediate;
    if v == Pow2(Ctz(v)) {
      var legal := LegalImmediate(v - 1);
      code := ModPow2Code(i.dst, i.lhs, v, Ctz(v), legal);
      CtzSmall(v);
      LegalIff(v - 1);
      BiasEncodes(i.dst, i.lhs, Ctz(v));
      RoundOffEncodes(i.dst, i.lhs, v, Ctz(v), legal);
      if i.dst != i.lhs {
        ModPow2Correct(i, c, v, legal);
      } else if i.lhs !in c {
        ModPow2Wrong(i, c, v, legal);
      }
    } else {
      var b, s := DivOpt(v);
      code := ModMagicCode(i.dst, i.lhs, i.rhs, b, s);
      QuotientEncodes(i.dst, i.lhs, b, s);
      if i.dst != i.lhs && i.dst != i.rhs {
        ModMagicCorrect(i, c, v, b, s);
      } else if i.lhs !in c {
        ModMagicWrong(i, c, v, b, s);
      }
    }
  }

  ghost predicate Words(s: State) {
    forall r: Reg :: IsInt32(Get(s, r))
  }

  /** Before each instruction, the constant registers it reads hold their constants. */
  ghost predicate UsesKnown(insts: seq<Inst>, s: State, c: map<Reg, int>) {
    forall k {:trigger insts[k]} :: 0 <= k < |insts| ==>
      forall r :: r in Relevant(insts[k], c) ==> Get(Exec(insts[..k], s), r) == c[r]
  }

  lemma {:induction false} ShrRange(x: int, w: nat)
    requires IsInt32(x)
    ensures IsInt32(Shr(x, w)) && (x >= 0 ==> Shr(x, w) >= 0)
    decreases w
  {
    if w > 0 { ShrRange(x / 2, w - 1); }
  }

  lemma AluRange(op: Op3, a: int, b: int)
    requires IsInt32(a)
    ensures IsInt32(Alu(op, a, b))
  {
    var v := if b >= 0 then b else -b;
    if v > 0 {
      var n := if a >= 0 then a else -a;
      QuotSmall(n, v);
    }
  }

  lemma {:induction false} QuotSmall(n: nat, v: nat)
    requires v > 0
    ensures Quot(n, v) <= n && Rem(n, v) <= n
  {
    if n >= v { QuotSmall(n - v, v); }
  }

  lemma WriteWords(s: State, r: Reg, v: int)
    requires Words(s) && IsInt32(v)
    ensures Words(Write(s, r, v))
  {
    GetWrite(s, r, v);
  }

  lemma StepWords(i: Inst, s: State)
    requires Words(s)
    ensures Words(Step(i, s))
  {
    match i
    case RegReg(op, dst, lhs, rhs, kind, w) =>
      AluRange(op, Get(s, lhs), Shifted(kind, w, Get(s, rhs)));
      WriteWords(s, dst, Alu(op, Get(s, lhs), Shifted(kind, w, Get(s, rhs))));
    case RegImm(op, dst, lhs, imm) =>
      if imm >= 0 { ShrRange(Get(s, lhs), imm); }
      WriteWords(s, dst, AluImm(op, Get(s, lhs), imm));
    case LoadImm(dst, imm) => WriteWords(s, dst, Wrap(imm));
    case SMulL(lo, hi, s1, s2) =>
      var p := Get(s, s1) * Get(s, s2);
      WriteWords(s, lo, Wrap(p));
      WriteWords(Write(s, lo, Wrap(p)), hi, Wrap(p / TWO32));
    case Mla(dst, s1, s2, s3) => WriteWords(s, dst, Wrap(Get(s, s1) * Get(s, s2) + Get(s, s3)));
    case Mls(dst, s1, s2, s3) => WriteWords(s, dst, Wrap(Get(s, s3) - Get(s, s1) * Get(s, s2)));
    case Cmp(lhs, rhs) => forall r: Reg ensures Get(Step(i, s), r) == Get(s, r) { }
    case CmpImm(lhs, imm) => forall r: Reg ensures Get(Step(i, s), r) == Get(s, r) { }
  }

  lemma {:induction false} ExecWords(code: seq<Inst>, s: State)
    requires Words(s)
    ensures Words(Exec(code, s))
  {
    if code != [] {
      StepWords(code[0], s);
      ExecWords(code[1..], Step(code[0], s));
    }
  }

  /** Code that avoids r4 and r5 does the same in states that differ only there. */
  lemma StepAgree(i: Inst, s: State, t: State)
    requires NoScratch(i) && Agree(s, t)
    ensures Agree(Step(i, s), Step(i, t))
  {
    match i
    case SMulL(lo, hi, s1, s2) =>
      var p := Get(s, s1) * Get(s, s2);
      GetWrite(s, lo, Wrap(p));
      GetWrite(t, lo, Wrap(p));
    case _ =>
  }

  lemma ReplaceStep(i: Inst, c: map<Reg, int>, code: seq<Inst>, t: State, u: State)
    requires NoScratch(i) && Correct(i, Relevant(i, c), code) && Words(t) && Agree(t, u)
    requires forall r :: r in Relevant(i, c) ==> Get(u, r) == c[r]
    ensures Agree(Exec(code, t), Step(i, u))
  {
    assert Known(t, Relevant(i, c));
    StepAgree(i, t, u);
  }

  /** Whatever has a better form is gone, what takes its place can be encoded and neither multiplies nor divides, and
      everything else is still there. */
  ghost predicate AllImproved(insts: seq<Inst>, c: map<Reg, int>, out: seq<Inst>) {
    && (forall j :: j in out ==> (j in insts && !Replaceable(j, c)) || (HasEncoding(j) && !Slow(j)))
    && forall i :: i in insts && !Replaceable(i, c) ==> i in out
  }

  lemma ImprovedStep(insts: seq<Inst>, i: Inst, c: map<Reg, int>, out: seq<Inst>, code: seq<Inst>)
    requires AllImproved(insts, c, out) && Improved(i, c, code)
    ensures AllImproved(insts + [i], c, out + code)
  {
    hide Replaceable, HasEncoding, Slow;
  }

  /** The rewritten block does what the original does, up to the scratch registers r4 and r5. */
  method MergeInstr(insts: seq<Inst>, c: map<Reg, int>) returns (out: seq<Inst>)
    requires forall k :: 0 <= k < |insts| ==> NoScratch(insts[k]) && Guard(insts[k], c)
    requires forall r :: r in c ==> IsInt32(c[r])
    ensures forall s :: Words(s) && UsesKnown(insts, s, c) ==> Agree(Exec(out, s), Exec(insts, s))
    ensures AllImproved(insts, c, out)
  {
    out := [];
    for k := 0 to |insts|
      invariant AllImproved(insts[..k], c, out)
      invariant forall s :: Words(s) && UsesKnown(insts, s, c) ==> Agree(Exec(out, s), Exec(insts[..k], s))
    {
      var code := MergeOne(insts[k], c);
      forall s | Words(s) && UsesKnown(insts, s, c)
        ensures Agree(Exec(out + code, s), Exec(insts[..k + 1], s))
      {
        ExecAppend(out, code, s);
        assert insts[..k + 1] == insts[..k] + [insts[k]];
        ExecAppend(insts[..k], [insts[k]], s);
        Exec1(insts[k], Exec(insts[..k], s));
        ExecWords(out, s);
        ReplaceStep(insts[k], c, code, Exec(out, s), Exec(insts[..k], s));
      }
      ImprovedStep(insts[..k], insts[k], c, out, code);
      assert insts[..k + 1] == insts[..k] + [insts[k]];
      out := out + code;
    }
    assert insts[..|insts|] == insts;
  }

  /** The overlap a caller must avoid: `x / 8` with the result in the operand's register. */
  lemma OverlapExample()
    ensures
      var i := RegReg(Div, 20, 20, 21, LSL, 0);
      var c := map[21 := 8];
      !Guard(i, c) && exists s :: Known(s, c) && !Agree(Exec(DivPow2Code(20, 20, 3), s), Step(i, s))
  {
    var i := RegReg(Div, 20, 20, 21, LSL, 0);
    var c := map[21 := 8];
    assert Pow2(3) == 8;
    CtzOfPow2(3);
    DivPow2Wrong(i, c, 8);
  }
}
