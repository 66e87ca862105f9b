/**
 The size macros of _macros.h: the unit multipliers, and the allocation
 requests `_M_new(T)` and `_M_new_arr(T, len)` expand to.

 A macro argument is text, so the model of `_M_new_arr` works on the parsed
 argument: an `Expr` tree over `+`, `-`, `*`, `/`, `%` and `?:`, in which
 `Paren` marks parentheses written in the argument. Substituting the
 argument after `sizeof(T) *` splices `sizeof(T)` into the argument's
 leftmost operand, because no operator binds tighter than `*`.
 */
module Macros {
  import opened Optional

  function KiB(n: int): int { n * 1024 }
  function MiB(n: int): int { KiB(n) * 1024 }
  function GiB(n: int): int { MiB(n) * 1024 }
  function TiB(n: int): int { GiB(n) * 1024 }

  function KB(n: int): int { n * 1000 }
  function MB(n: int): int { KB(n) * 1000 }
  function GB(n: int): int { MB(n) * 1000 }
  function TB(n: int): int { GB(n) * 1000 }

  function Pow(b: nat, k: nat): nat
  {
    if k == 0 then 1 else b * Pow(b, k - 1)
  }

  lemma {:induction false} PowAdd(b: nat, j: nat, k: nat)
    ensures Pow(b, j + k) == Pow(b, j) * Pow(b, k)
    decreases j
  {
    if j > 0 {
      PowAdd(b, j - 1, k);
      assert Pow(b, j + k) == b * Pow(b, j - 1 + k);
    }
  }

  lemma {:induction false} PowMul(b: nat, j: nat, k: nat)
    ensures Pow(b, j * k) == Pow(Pow(b, j), k)
    decreases k
  {
    if k > 0 {
      PowMul(b, j, k - 1);
      PowAdd(b, j, j * (k - 1));
      assert j * k == j + j * (k - 1);
    }
  }

  /** Each binary unit is 1024 times the one below it: the `k`-th unit is `2^(10 k)`. */
  lemma BinaryUnits(n: int)
    ensures KiB(n) == n * Pow(2, 10)
    ensures MiB(n) == n * Pow(2, 20)
    ensures GiB(n) == n * Pow(2, 30)
    ensures TiB(n) == n * Pow(2, 40)
  {
    assert Pow(2, 10) == 1024;
    PowMul(2, 10, 2);
    PowMul(2, 10, 3);
    PowMul(2, 10, 4);
    assert Pow(1024, 4) == 1024 * Pow(1024, 3);
  }

  /** Each decimal unit is 1000 times the one below it: the `k`-th unit is `10^(3 k)`. */
  lemma DecimalUnits(n: int)
    ensures KB(n) == n * Pow(10, 3)
    ensures MB(n) == n * Pow(10, 6)
    ensures GB(n) == n * Pow(10, 9)
    ensures TB(n) == n * Pow(10, 12)
  {
    assert Pow(10, 3) == 1000;
    PowMul(10, 3, 2);
    PowMul(10, 3, 3);
    PowMul(10, 3, 4);
    assert Pow(1000, 4) == 1000 * Pow(1000, 3);
  }

  /** The binary operators a macro argument may hold, in C's two precedence levels below unary. */
  datatype Op = Add | Sub | Mul | Quo | Rem

  /** `*`, `/` and `%` bind tighter than `+` and `-`. */
  predicate Multiplicative(op: Op) {
    op == Mul || op == Quo || op == Rem
  }

  /**
   A macro argument as a tree. `Paren` is a pair of written parentheses;
   `Cond` is `c ? t : f`. `Parsed` says which trees C's grammar builds.
   */
  datatype Expr =
    | Lit(v: nat)
    | Paren(e: Expr)
    | Bin(op: Op, l: Expr, r: Expr)
    | Cond(c: Expr, t: Expr, f: Expr)

  /** How loosely an expression's top operator binds: 0 for a primary, 1 for `* / %`, 2 for `+ -`, 3 for `?:`. */
  function Level(e: Expr): nat {
    match e
    case Lit(_) => 0
    case Paren(_) => 0
    case Bin(op, _, _) => if Multiplicative(op) then 1 else 2
    case Cond(_, _, _) => 3
  }

  /**
   The tree is one C builds from the argument text: a binary operator's left
   operand binds at least as tightly as it does and its right operand more
   tightly (the operators group to the left); the condition of `?:` binds
   more tightly than `?:`, and its arms may be anything (it groups to the
   right). Anything looser sits inside a `Paren`.
   */
  predicate Parsed(e: Expr) {
    match e
    case Lit(_) => true
    case Paren(x) => Parsed(x)
    case Bin(_, l, r) => Level(l) <= Level(e) && Level(r) < Level(e) && Parsed(l) && Parsed(r)
    case Cond(c, t, f) => Level(c) < 3 && Parsed(c) && Parsed(t) && Parsed(f)
  }

  function Abs(x: int): nat {
    if x < 0 then -x else x
  }

  /** C's `/` on integers: the quotient truncated toward zero. */
  function CDiv(x: int, y: int): int
    requires y != 0
  {
    if (x < 0) == (y < 0) then Abs(x) / Abs(y) else -(Abs(x) / Abs(y))
  }

  /** C's `%`: the remainder that goes with the truncated quotient. */
  function CRem(x: int, y: int): int
    requires y != 0
  {
    x - y * CDiv(x, y)
  }

  /** One operator applied; dividing by zero has no value (undefined in C). */
  function Apply(op: Op, x: int, y: int): Option<int> {
    match op
    case Add => Some(x + y)
    case Sub => Some(x - y)
    case Mul => Some(x * y)
    case Quo => if y == 0 then None else Some(CDiv(x, y))
    case Rem => if y == 0 then None else Some(CRem(x, y))
  }

  /** The value of an argument; `None` when it divides by zero. Only the chosen arm of `?:` is evaluated. */
  function Eval(e: Expr): Option<int>
  {
    match e
    case Lit(v) => Some(v)
    case Paren(x) => Eval(x)
    case Bin(op, l, r) =>
      (match (Eval(l), Eval(r))
       case (Some(x), Some(y)) => Apply(op, x, y)
       case _ => None)
    case Cond(c, t, f) =>
      (match Eval(c)
       case None => None
       case Some(x) => if x != 0 then Eval(t) else Eval(f))
  }

  /** `k` times a value, or no value. */
  function Scale(k: nat, v: Option<int>): Option<int> {
    if v.Some? then Some(k * v.value) else None
  }

  /** Every operator outside parentheses is `*`: a single token, a product, or a parenthesised expression. */
  predicate ProductsOnly(e: Expr) {
    match e
    case Lit(_) => true
    case Paren(_) => true
    case Bin(op, l, r) => op == Mul && ProductsOnly(l) && ProductsOnly(r)
    case Cond(_, _, _) => false
  }

  /** `_M_new(T)`: the request is `sizeof(T)` bytes. */
  function NewRequest(elemSize: nat): Expr
  {
    Lit(elemSize)
  }

  /**
   `_M_new_arr(T, len)` as written: the text `sizeof(T) * len` with `len`
   unparenthesised, parsed by C precedence. `sizeof(T) *` joins the leftmost
   operand of every operator outside parentheses: the operators of `len`
   all bind at most as tightly as `*`, and `*`, `/`, `%` group to the left.
   */
  function NewArrRequest(elemSize: nat, len: Expr): (e: Expr)
  {
    match len
    case Bin(op, l, r) => Bin(op, NewArrRequest(elemSize, l), r)
    case Cond(c, t, f) => Cond(NewArrRequest(elemSize, c), t, f)
    case _ => Bin(Mul, Lit(elemSize), len)
  }

  /** `_M_new_arr(T, len)` with `len` parenthesised: `sizeof(T) * (len)`. */
  function NewArrRequestFixed(elemSize: nat, len: Expr): (e: Expr)
    ensures Eval(e) == Scale(elemSize, Eval(len))
    ensures Parsed(len) ==> Parsed(e)
  {
    Bin(Mul, Lit(elemSize), Paren(len))
  }

  /**
   As written, the request is right whenever every operator of the argument
   outside parentheses is `*`.
   */
  lemma {:induction false} NewArrRequestProductsOnly(elemSize: nat, len: Expr)
    requires ProductsOnly(len)
    ensures Eval(NewArrRequest(elemSize, len)) == Scale(elemSize, Eval(len))
  {
    match len
    case Bin(_, l, r) =>
      NewArrRequestProductsOnly(elemSize, l);
      if Eval(l).Some? && Eval(r).Some? {
        var x, y := Eval(l).value, Eval(r).value;
        assert (elemSize * x) * y == elemSize * (x * y);
      }
    case _ =>
  }

  /**
   The as-written splice is itself what C builds from the text
   `sizeof(T) * len`: it is a parse tree whenever the argument is one, and
   its top operator is the argument's, or `*` when the argument's is tighter.
   */
  lemma {:induction false} NewArrRequestParses(elemSize: nat, len: Expr)
    requires Parsed(len)
    ensures Parsed(NewArrRequest(elemSize, len))
    ensures Level(NewArrRequest(elemSize, len)) == if Level(len) == 0 then 1 else Level(len)
  {
    match len
    case Bin(_, l, _) => NewArrRequestParses(elemSize, l);
    case Cond(c, _, _) => NewArrRequestParses(elemSize, c);
    case _ =>
  }

  /**
   As written, `sizeof(T)` joins only the leftmost operand: for every
   `a op b` whose `a` is a product, the request is `(sizeof(T) * a) op b`.
   With `op` being `+` that is `sizeof(T) * a + b`, not `sizeof(T) * (a + b)`.
   */
  lemma NewArrRequestSplitsLeftOperand(elemSize: nat, op: Op, l: Expr, r: Expr)
    requires ProductsOnly(l)
    ensures Eval(NewArrRequest(elemSize, Bin(op, l, r))) ==
      if Eval(l).Some? && Eval(r).Some? then Apply(op, elemSize * Eval(l).value, Eval(r).value) else None
  {
    NewArrRequestProductsOnly(elemSize, l);
  }

  /**
   As written, `_M_new_arr(T, 2 + 3)` with `sizeof(T) == 4` asks for 11
   bytes, not 20, and `_M_new_arr(T, 6 / 4)` asks for 6 bytes, not 4.
   */
  lemma NewArrRequestSplitCounterexamples()
    ensures Parsed(Bin(Add, Lit(2), Lit(3))) && Parsed(Bin(Quo, Lit(6), Lit(4)))
    ensures Eval(NewArrRequest(4, Bin(Add, Lit(2), Lit(3)))) == Some(11)
    ensures Eval(NewArrRequestFixed(4, Bin(Add, Lit(2), Lit(3)))) == Some(20)
    ensures Eval(NewArrRequest(4, Bin(Quo, Lit(6), Lit(4)))) == Some(6)
    ensures Eval(NewArrRequestFixed(4, Bin(Quo, Lit(6), Lit(4)))) == Some(4)
  {
  }

  /** `_M_new(T)` is the one-element case of `_M_new_arr`, in both spellings. */
  lemma NewIsArrayOfOne(elemSize: nat)
    ensures Eval(NewArrRequest(elemSize, Lit(1))) == Eval(NewRequest(elemSize))
    ensures Eval(NewArrRequestFixed(elemSize, Lit(1))) == Eval(NewRequest(elemSize))
  {
  }
}
