/** 32-bit machine words as the IR and ARM code use them: registers hold the signed value. */
module Word32 {
  function Pow2(n: nat): (p: nat)
    ensures p > 0
  {
    if n == 0 then 1 else 2 * Pow2(n - 1)
  }

  const TWO32: int := 0x1_0000_0000
  const TWO31: int := 0x8000_0000

  predicate IsInt32(x: int) { -TWO31 <= x < TWO31 }

  /** The unsigned reading of a word. */
  function U(x: int): (u: int)
    ensures 0 <= u < TWO32
  {
    x % TWO32
  }

  /** Reduction to the signed 32-bit range. */
  function Wrap(x: int): (w: int)
    ensures IsInt32(w)
  {
    var u := x % TWO32;
    if u < TWO31 then u else u - TWO32
  }

  /** Shifts, one place at a time: multiplication and rounded-down division by a power of two. */
  function Shl(x: int, w: nat): int
    decreases w
  {
    if w == 0 then x else 2 * Shl(x, w - 1)
  }

  function Shr(x: int, w: nat): int
    decreases w
  {
    if w == 0 then x else Shr(x / 2, w - 1)
  }

  function Quot(n: nat, v: nat): nat
    requires v > 0
  {
    if n < v then 0 else 1 + Quot(n - v, v)
  }

  function Rem(n: nat, v: nat): nat
    requires v > 0
  {
    if n < v then n else Rem(n - v, v)
  }

  /** Truncating division and remainder of the C language, for a positive divisor. */
  function CDiv(x: int, v: int): int
    requires v > 0
  {
    var q: int := Quot(if x >= 0 then x else -x, v);
    if x >= 0 then q else -q
  }

  function CMod(x: int, v: int): int
    requires v > 0
  {
    var r: int := Rem(if x >= 0 then x else -x, v);
    if x >= 0 then r else -r
  }

  function BitAnd(a: nat, b: nat): nat {
    if a == 0 || b == 0 then 0
    else (if a % 2 == 1 && b % 2 == 1 then 1 else 0) + 2 * BitAnd(a / 2, b / 2)
  }

  function Ctz(n: nat): nat
    requires n > 0
    decreases n
  {
    if n % 2 == 1 then 0 else 1 + Ctz(n / 2)
  }

  function PopCount(n: nat): nat {
    if n == 0 then 0 else n % 2 + PopCount(n / 2)
  }

  lemma {:induction false} Pow2Add(a: nat, b: nat)
    ensures Pow2(a + b) == Pow2(a) * Pow2(b)
  {
    if a > 0 {
      Pow2Add(a - 1, b);
      assert Pow2(a + b) == 2 * (Pow2(a - 1) * Pow2(b));
    }
  }

  lemma {:induction false} Pow2Mono(a: nat, b: nat)
    requires a <= b
    ensures Pow2(a) <= Pow2(b)
    decreases b
  {
    if a < b { Pow2Mono(a, b - 1); }
  }

  lemma Pow2Values()
    ensures Pow2(30) == 0x4000_0000 && Pow2(31) == TWO31 && Pow2(32) == TWO32
    ensures Pow2(62) == 0x4000_0000_0000_0000 && Pow2(63) == 0x8000_0000_0000_0000
  {
    assert Pow2(8) == 256;
    Pow2Add(8, 8);
    Pow2Add(16, 16);
    assert Pow2(31) == Pow2(32) / 2;
    Pow2Add(31, 31);
  }

  lemma WrapId(x: int)
    requires IsInt32(x)
    ensures Wrap(x) == x
  { }

  /** Words are equal when they agree modulo 2^32. */
  lemma WrapCong(x: int, y: int, k: int)
    requires x == y + k * TWO32
    ensures Wrap(x) == Wrap(y)
  {
    assert x % TWO32 == y % TWO32;
  }

  lemma WrapWitness(x: int) returns (k: int)
    ensures Wrap(x) == x + k * TWO32
  {
    k := if x % TWO32 < TWO31 then -(x / TWO32) else -(x / TWO32) - 1;
  }

  lemma WrapAdd(x: int, y: int)
    ensures Wrap(Wrap(x) + y) == Wrap(x + y)
    ensures Wrap(x + Wrap(y)) == Wrap(x + y)
    ensures Wrap(x - Wrap(y)) == Wrap(x - y)
    ensures Wrap(Wrap(x) - y) == Wrap(x - y)
  {
    var k := WrapWitness(x);
    var l := WrapWitness(y);
    WrapCong(Wrap(x) + y, x + y, k);
    WrapCong(x + Wrap(y), x + y, l);
    WrapCong(x - Wrap(y), x - y, -l);
    WrapCong(Wrap(x) - y, x - y, k);
  }

  lemma WrapMul(x: int, y: int)
    ensures Wrap(Wrap(x) * y) == Wrap(x * y)
    ensures Wrap(x * Wrap(y)) == Wrap(x * y)
  {
    var k := WrapWitness(x);
    var l := WrapWitness(y);
    assert Wrap(x) * y == x * y + (k * y) * TWO32;
    assert x * Wrap(y) == x * y + (x * l) * TWO32;
    WrapCong(Wrap(x) * y, x * y, k * y);
    WrapCong(x * Wrap(y), x * y, x * l);
  }

  // ----- floor division -----

  lemma MulMono(x: int, y: int, b: int)
    requires b > 0
    ensures x <= y <==> x * b <= y * b
  {
    if x <= y { assert (y - x) * b >= 0; } else { assert (x - y) * b > 0; }
  }

  lemma Comm3(a: int, b: int, c: int)
    ensures (a * b) * c == a * (b * c) == b * (a * c)
  { }

  lemma Distrib(a: int, b: int, c: int)
    ensures (a + b) * c == a * c + b * c
    ensures c * (a + b) == c * a + c * b
  { }

  lemma DivUnique(a: int, b: int, q: int)
    requires b > 0 && q * b <= a < (q + 1) * b
    ensures a / b == q
  {
    MulMono(a / b + 1, q, b);
    MulMono(q + 1, a / b, b);
  }

  lemma DivBounds(a: int, b: int)
    requires b > 0
    ensures (a / b) * b <= a < (a / b + 1) * b
  { }

  lemma MulAssoc(a: int, b: int, c: int)
    ensures a * (b * c) == (a * c) * b
  { }

  lemma DivDiv(a: int, b: int, c: int)
    requires b > 0 && c > 0
    ensures b * c > 0 && (a / b) / c == a / (b * c)
  {
    var d := a / b;
    var q := d / c;
    DivBounds(a, b);
    DivBounds(d, c);
    MulMono(q * c, d, b);
    MulMono(d + 1, (q + 1) * c, b);
    MulAssoc(q, b, c);
    MulAssoc(q + 1, b, c);
    DivUnique(a, b * c, q);
  }

  lemma {:induction false} ShlIs(x: int, w: nat)
    ensures Shl(x, w) == x * Pow2(w)
    decreases w
  {
    if w > 0 { ShlIs(x, w - 1); }
  }

  lemma {:induction false} ShrIs(x: int, w: nat)
    ensures Shr(x, w) == x / Pow2(w)
    decreases w
  {
    if w > 0 {
      ShrIs(x / 2, w - 1);
      DivDiv(x, 2, Pow2(w - 1));
      assert Pow2(w) == 2 * Pow2(w - 1);
    }
  }

  lemma {:induction false} QuotRemIs(n: nat, v: nat)
    requires v > 0
    ensures n == Quot(n, v) * v + Rem(n, v) && 0 <= Rem(n, v) < v
  {
    if n >= v {
      QuotRemIs(n - v, v);
      assert Quot(n, v) * v == Quot(n - v, v) * v + v;
    }
  }

  lemma CDivIs(x: int, v: int)
    requires v > 0
    ensures CDiv(x, v) == if x >= 0 then x / v else -((-x) / v)
  {
    var n: nat := if x >= 0 then x else -x;
    QuotRemIs(n, v);
    DivUnique(n, v, Quot(n, v));
  }

  /** Remainder and quotient together give back the dividend, and the remainder has its sign. */
  lemma CDivMod(x: int, v: int)
    requires v > 0
    ensures x == CDiv(x, v) * v + CMod(x, v)
    ensures if x >= 0 then 0 <= CMod(x, v) < v else -v < CMod(x, v) <= 0
  {
    var n: nat := if x >= 0 then x else -x;
    QuotRemIs(n, v);
    if x < 0 { NegMul(Quot(n, v), v); }
  }

  lemma NegMul(a: int, b: int)
    ensures (-a) * b == -(a * b)
  { }

  // ----- bits -----

  lemma {:induction false} CtzFactor(n: nat)
    requires n > 0
    ensures Pow2(Ctz(n)) <= n
    ensures n == (n / Pow2(Ctz(n))) * Pow2(Ctz(n)) && (n / Pow2(Ctz(n))) % 2 == 1
    decreases n
  {
    if n % 2 == 0 {
      CtzFactor(n / 2);
      var p := Pow2(Ctz(n / 2));
      var q := (n / 2) / p;
      assert Pow2(Ctz(n)) == 2 * p;
      assert n == q * (2 * p);
      DivUnique(n, 2 * p, q);
    }
  }

  lemma {:induction false} PopCountZero(n: nat)
    requires PopCount(n) == 0
    ensures n == 0
  {
    if n != 0 { PopCountZero(n / 2); }
  }

  /** A word with a single bit set is that bit. */
  lemma {:induction false} SingleBit(n: nat)
    requires PopCount(n) == 1
    ensures n > 0 && n == Pow2(Ctz(n))
  {
    if n % 2 == 1 {
      PopCountZero(n / 2);
    } else {
      SingleBit(n / 2);
    }
  }

  lemma {:induction false} CtzOfPow2(k: nat)
    ensures Ctz(Pow2(k)) == k
  {
    if k > 0 {
      CtzOfPow2(k - 1);
      assert Pow2(k) / 2 == Pow2(k - 1);
    }
  }

  lemma {:induction false} BitAndOne(a: nat, b: nat)
    requires b <= 1
    ensures BitAnd(a, b) == (a % 2) * b
  {
    if a != 0 && b != 0 { assert BitAnd(a / 2, 0) == 0; }
  }

  /** Masking off the low `k` bits of an `n`-bit number. */
  lemma {:induction false} BitAndAll(a: nat, n: nat)
    requires a < Pow2(n)
    ensures BitAnd(a, Pow2(n) - 1) == a
  {
    if n > 0 {
      BitAndAll(a / 2, n - 1);
      AllDouble(a, Pow2(n - 1));
    }
  }

  lemma {:induction false} BitAndHigh(a: nat, n: nat, k: nat)
    requires a < Pow2(n) && k <= n
    ensures Pow2(k) <= Pow2(n)
    ensures BitAnd(a, Pow2(n) - Pow2(k)) == a - a % Pow2(k)
    decreases n
  {
    Pow2Mono(k, n);
    if k == 0 {
      BitAndAll(a, n);
      hide BitAnd;
    } else {
      assert Pow2(n) == 2 * Pow2(n - 1) && Pow2(k) == 2 * Pow2(k - 1);
      hide BitAnd, Pow2;
      BitAndHigh(a / 2, n - 1, k - 1);
      HighDoubles(a, Pow2(n - 1), Pow2(k - 1), Pow2(n), Pow2(k));
    }
  }

  lemma AllDouble(a: nat, p: nat)
    requires p > 0 && BitAnd(a / 2, p - 1) == a / 2
    ensures BitAnd(a, 2 * p - 1) == a
  {
    hide BitAnd;
    BitAndOdd(a, p - 1);
  }

  lemma HighDoubles(a: nat, p: nat, q: nat, p2: nat, q2: nat)
    requires 0 < q <= p && p2 == 2 * p && q2 == 2 * q && BitAnd(a / 2, p - q) == a / 2 - (a / 2) % q
    ensures BitAnd(a, p2 - q2) == a - a % q2
  {
    hide BitAnd;
    BitAndEven(a, p - q);
    ModDouble(a, q);
  }

  lemma BitAndOdd(a: nat, m: nat)
    ensures BitAnd(a, 2 * m + 1) == a % 2 + 2 * BitAnd(a / 2, m)
  {
    assert (2 * m + 1) / 2 == m;
  }

  lemma BitAndEven(a: nat, m: nat)
    ensures BitAnd(a, 2 * m) == 2 * BitAnd(a / 2, m)
  {
    assert (2 * m) / 2 == m;
  }

  lemma ModDouble(a: nat, p: nat)
    requires p > 0
    ensures a % (2 * p) == 2 * ((a / 2) % p) + a % 2
  {
    var h := a / 2;
    var q := h / p;
    assert h == q * p + h % p;
    assert a == 2 * h + a % 2;
    assert a == q * (2 * p) + (2 * (h % p) + a % 2);
    assert 0 <= 2 * (h % p) + a % 2 < 2 * p;
    DivUnique(a, 2 * p, q);
  }

  // ----- equality modulo 2^32 -----

  function Times(a: int, b: int): int { a * b }

  /** Equality modulo 2^32. */
  predicate Cong(a: int, b: int) { Wrap(a) == Wrap(b) }

  lemma CongAdd(a: int, b: int, c: int, d: int)
    requires Cong(a, b) && Cong(c, d)
    ensures Cong(a + c, b + d) && Cong(a - c, b - d)
  {
    WrapAdd(a, c); WrapAdd(Wrap(a), c); WrapAdd(b, d); WrapAdd(Wrap(b), d);
  }

  lemma CongMul(a: int, b: int, k: int)
    requires Cong(a, b)
    ensures Cong(a * k, b * k) && Cong(k * a, k * b)
  {
    WrapMul(a, k); WrapMul(b, k); WrapMul(k, a); WrapMul(k, b);
  }

  lemma CongWrap(a: int)
    ensures Cong(Wrap(a), a)
  {
    WrapId(Wrap(a));
  }

  lemma TimesZero(a: int)
    ensures Times(a, 0) == 0 && Times(0, a) == 0
  { }

  lemma CongSelf(a: int)
    ensures Cong(a, a)
  { }

  lemma CongTimes(a: int, b: int, c: int, d: int)
    requires Cong(a, b) && Cong(c, d)
    ensures Cong(Times(a, c), Times(b, d))
  {
    CongMul(a, b, c);
    CongMul(c, d, b);
  }
}
