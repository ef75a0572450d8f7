/** The direct-mapped table that caches the results of a pure recursive function of one argument
    (`cache_pure_func`, src/ir/opt/call_graph.cpp). */
module Memo {
  import Word32

  datatype Option = None | Some(value: int)

  /** The body of a pure function of one argument that calls itself. */
  datatype Expr =
    | Arg
    | Const(c: int)
    | Op(op: nat, left: Expr, right: Expr)
    | If(cond: Expr, yes: Expr, no: Expr)
    | Rec(arg: Expr)

  /** A function: its body and the meaning of its operators. */
  datatype Func = Func(body: Expr, sem: (nat, int, int) -> int)

  /** The value of an expression when calls may be nested `fuel` deep. */
  function Eval(f: Func, e: Expr, x: int, fuel: nat): Option
    decreases fuel, e
  {
    match e
    case Arg => Some(x)
    case Const(c) => Some(c)
    case Op(op, l, r) =>
      var a := Eval(f, l, x, fuel);
      if a.None? then None
      else
        var b := Eval(f, r, x, fuel);
        if b.None? then None else Some(f.sem(op, a.value, b.value))
    case If(c, y, n) =>
      var a := Eval(f, c, x, fuel);
      if a.None? then None else if a.value != 0 then Eval(f, y, x, fuel) else Eval(f, n, x, fuel)
    case Rec(arg) =>
      var a := Eval(f, arg, x, fuel);
      if a.None? || fuel == 0 then None else Eval(f, f.body, a.value, fuel - 1)
  }

  function Apply(f: Func, x: int, fuel: nat): Option {
    if fuel == 0 then None else Eval(f, f.body, x, fuel - 1)
  }

  /** The function, applied to `x`, returns `v`. */
  ghost predicate Returns(f: Func, x: int, v: int) {
    exists fuel: nat :: Apply(f, x, fuel) == Some(v)
  }

  lemma {:induction false} EvalMono(f: Func, e: Expr, x: int, n: nat, m: nat)
    requires n <= m && Eval(f, e, x, n).Some?
    ensures Eval(f, e, x, m) == Eval(f, e, x, n)
    decreases n, e
  {
    match e
    case Arg =>
    case Const(_) =>
    case Op(_, l, r) => EvalMono(f, l, x, n, m); EvalMono(f, r, x, n, m);
    case If(c, y, k) =>
      EvalMono(f, c, x, n, m);
      if Eval(f, c, x, n).value != 0 { EvalMono(f, y, x, n, m); } else { EvalMono(f, k, x, n, m); }
    case Rec(arg) =>
      EvalMono(f, arg, x, n, m);
      var a := Eval(f, arg, x, n).value;
      EvalMono(f, f.body, a, n - 1, m - 1);
  }

  lemma ReturnsUnique(f: Func, x: int, v: int, w: int)
    requires Returns(f, x, v) && Returns(f, x, w)
    ensures v == w
  {
    var n: nat :| Apply(f, x, n) == Some(v);
    var m: nat :| Apply(f, x, m) == Some(w);
    if n <= m { EvalMono(f, f.body, x, n - 1, m - 1); } else { EvalMono(f, f.body, x, m - 1, n - 1); }
  }

  // ----- the table -----

  /** Number of slots, and the modulus of the hash. */
  const N: nat := 1010
  const P: nat := 1007

  /** `(argv % P + P) % P`, with the target's truncating remainder. */
  function Hash(x: int): int {
    Word32.CMod(Word32.CMod(x, P) + P, P)
  }

  /** The hash is the Euclidean remainder, so a slot of the table, also for negative arguments. */
  lemma HashIsSlot(x: int)
    ensures Hash(x) == x % P && 0 <= Hash(x) < N
  {
    Word32.CDivMod(x, P);
    Word32.CDivMod(Word32.CMod(x, P) + P, P);
  }

  /** A used slot holds an argument that hashes to it and the result of the function for that argument. */
  ghost predicate TableOk(f: Func, key: seq<int>, val: seq<int>) {
    && |key| == |val| == N
    && forall h :: 0 <= h < N && key[h] != 0 ==> Hash(key[h]) == h && Returns(f, key[h], val[h])
  }

  lemma FreshTable(f: Func)
    ensures TableOk(f, seq(N, i => 0), seq(N, i => 0))
  { }

  /** Storing a result keeps the table right, whatever was in the slot; storing for argument 0 empties it. */
  lemma StoreKeeps(f: Func, key: seq<int>, val: seq<int>, x: int, v: int)
    requires TableOk(f, key, val) && Returns(f, x, v)
    ensures 0 <= Hash(x) < N && TableOk(f, key[Hash(x) := x], val[Hash(x) := v])
  {
    HashIsSlot(x);
  }

  class Cached {
    const f: Func
    var key: seq<int>
    var val: seq<int>

    ghost predicate Valid()
      reads this
    {
      TableOk(f, key, val)
    }

    constructor (func: Func)
      ensures f == func && Valid()
    {
      f := func;
      key, val := seq(N, i => 0), seq(N, i => 0);
    }

    /** The transformed function: look the argument up unless it is 0, otherwise compute and store. Whatever the
        table holds, it returns what the function returns, and it returns whenever the function does. What is in the
        table is not computed again, and what has been computed is in the table. */
    method Call(x: int, fuel: nat) returns (r: Option)
      requires Valid()
      modifies this
      ensures Valid()
      ensures r.Some? ==> Returns(f, x, r.value)
      ensures Apply(f, x, fuel).Some? ==> r == Apply(f, x, fuel)
      ensures 0 <= Hash(x) < N
      ensures x != 0 && old(key)[Hash(x)] == x ==> r == Some(old(val)[Hash(x)]) && key == old(key) && val == old(val)
      ensures r.Some? ==> key[Hash(x)] == x && val[Hash(x)] == r.value
      decreases fuel, 0
    {
      HashIsSlot(x);
      var hash := Hash(x);
      if x != 0 && key[hash] == x {
        r := Some(val[hash]);
      } else if fuel == 0 {
        r := None;
      } else {
        r := EvalBody(f.body, x, fuel - 1);
        if r.Some? {
          assert Returns(f, x, r.value) by {
            var n: nat :| Eval(f, f.body, x, n) == Some(r.value);
            assert Apply(f, x, n + 1) == r;
          }
          StoreKeeps(f, key, val, x, r.value);
          key, val := key[hash := x], val[hash := r.value];
        }
      }
      if r.Some? && Apply(f, x, fuel).Some? { ReturnsUnique(f, x, r.value, Apply(f, x, fuel).value); }
    }

    /** The body, with calls going through the table. */
    method EvalBody(e: Expr, x: int, fuel: nat) returns (r: Option)
      requires Valid()
      modifies this
      ensures Valid()
      ensures r.Some? ==> Yields(f, e, x, r.value)
      ensures Eval(f, e, x, fuel).Some? ==> r == Eval(f, e, x, fuel)
      decreases fuel, 1, e
    {
      match e
      case Arg =>
        r := Some(x);
        assert Eval(f, e, x, 0) == r;
      case Const(c) =>
        r := Some(c);
        assert Eval(f, e, x, 0) == r;
      case Op(op, left, right) =>
        var a := EvalBody(left, x, fuel);
        if a.None? { return None; }
        var b := EvalBody(right, x, fuel);
        if b.None? { return None; }
        r := Some(f.sem(op, a.value, b.value));
        OpValue(f, e, x, a.value, b.value);
      case If(c, y, n) =>
        var a := EvalBody(c, x, fuel);
        if a.None? { return None; }
        if a.value != 0 { r := EvalBody(y, x, fuel); } else { r := EvalBody(n, x, fuel); }
        if r.Some? { IfValue(f, e, x, a.value, r.value); }
      case Rec(arg) =>
        var a := EvalBody(arg, x, fuel);
        if a.None? { return None; }
        r := Call(a.value, fuel);
        if r.Some? { RecValue(f, e, x, a.value, r.value); }
    }
  }

  /** `e` has the value `v` with some nesting depth. */
  ghost predicate Yields(f: Func, e: Expr, x: int, v: int) {
    exists n: nat :: Eval(f, e, x, n) == Some(v)
  }

  lemma CommonFuel(f: Func, e1: Expr, e2: Expr, x: int, v1: int, v2: int) returns (n: nat)
    requires Yields(f, e1, x, v1) && Yields(f, e2, x, v2)
    ensures Eval(f, e1, x, n) == Some(v1) && Eval(f, e2, x, n) == Some(v2)
  {
    var a: nat :| Eval(f, e1, x, a) == Some(v1);
    var b: nat :| Eval(f, e2, x, b) == Some(v2);
    n := if a > b then a else b;
    EvalMono(f, e1, x, a, n);
    EvalMono(f, e2, x, b, n);
  }

  lemma OpValue(f: Func, e: Expr, x: int, a: int, b: int)
    requires e.Op? && Yields(f, e.left, x, a) && Yields(f, e.right, x, b)
    ensures Yields(f, e, x, f.sem(e.op, a, b))
  {
    var n := CommonFuel(f, e.left, e.right, x, a, b);
    assert Eval(f, e, x, n) == Some(f.sem(e.op, a, b));
  }

  lemma IfValue(f: Func, e: Expr, x: int, a: int, v: int)
    requires e.If? && Yields(f, e.cond, x, a) && Yields(f, if a != 0 then e.yes else e.no, x, v)
    ensures Yields(f, e, x, v)
  {
    var n := CommonFuel(f, e.cond, if a != 0 then e.yes else e.no, x, a, v);
    assert Eval(f, e, x, n) == Some(v);
  }

  lemma RecValue(f: Func, e: Expr, x: int, a: int, v: int)
    requires e.Rec? && Yields(f, e.arg, x, a) && Returns(f, a, v)
    ensures Yields(f, e, x, v)
  {
    var i: nat :| Eval(f, e.arg, x, i) == Some(a);
    var j: nat :| Apply(f, a, j) == Some(v);
    var n := if i > j then i else j;
    EvalMono(f, e.arg, x, i, n);
    EvalMono(f, f.body, a, j - 1, n - 1);
    assert Eval(f, e, x, n) == Some(v);
  }
}
