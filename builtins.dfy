/** The builtin procedures of `builtin.c`, as functions of their argument list
    (the children of the S-expression left after its head was popped).  Every
    failed check yields an error value; `eval` is in the evaluator, since it
    evaluates. */
module Builtins {
  import opened Values
  import opened Environment

  // ---------------------------------------------------------------------------
  // Arithmetic: `builtin_operator` and its `+ - * / ^` wrappers

  datatype Op = Add | Sub | Mul | Div | Pow

  function Abs(x: int): nat { if x < 0 then -x else x }

  /** C division of `long`: the quotient truncated toward zero. */
  function CDiv(a: int, b: int): int
    requires b != 0
  {
    var q := Abs(a) / Abs(b);
    if (a < 0) == (b < 0) then q else -q
  }

  /** CDiv is the truncating quotient: the remainder it leaves is smaller than
      the divisor in magnitude and is zero or has the sign of the dividend. */
  lemma CDivTruncates(a: int, b: int)
    requires b != 0
    ensures var r := a - CDiv(a, b) * b;
            Abs(r) < Abs(b) && (r == 0 || (r < 0 <==> a < 0))
  {
    var A: int, B: int := Abs(a), Abs(b);
    var q: int, m: int := A / B, A % B;
    assert A == q * B + m && 0 <= m < B;
    var c := CDiv(a, b);
    // c * b is q * B with the sign of a
    if b > 0 {
      assert B == b;
      assert c * b == if a < 0 then -(q * B) else q * B;
    } else {
      assert b == -B;
      assert c * b == -(c * B);
      assert c * b == if a < 0 then -(q * B) else q * B;
    }
    assert a - c * b == if a < 0 then -m else m;
  }

  predicate AllNums(args: seq<Lval>) {
    forall i :: 0 <= i < |args| ==> args[i].Num?
  }

  function Nums(args: seq<Lval>): (ns: seq<int>)
    requires AllNums(args)
    ensures |ns| == |args| && forall i :: 0 <= i < |args| ==> ns[i] == args[i].num
  {
    seq(|args|, i requires 0 <= i < |args| => args[i].num)
  }

  /** `x` to the power `n`, by repeated multiplication. */
  function IntPow(x: int, n: nat): int
    decreases n
  {
    if n == 0 then 1 else x * IntPow(x, n - 1)
  }

  /** `powl(x, y)` stored back into a `long`: the exact power for a
      non-negative exponent; for a negative one the real power 1 / x^-y,
      truncated toward zero, which leaves 1 for x = 1, the sign of the power
      for x = -1 and 0 for every other x.  For x = 0 the real power is
      infinite and its conversion is undefined, so the model stops. */
  function PowLong(x: int, y: int): Outcome<int>
  {
    if y >= 0 then Done(IntPow(x, y))
    else if x == 0 then Stuck(Unmodelled)
    else if x == 1 then Done(1)
    else if x == -1 then Done(if y % 2 == 0 then 1 else -1)
    else Done(0)
  }

  /** The `while (v->count > 0)` loop of `builtin_operator`: pop the next operand
      and combine it into the accumulator; a zero divisor replaces the result by
      an error and ends the loop. */
  function Fold(op: Op, x: int, ys: seq<Lval>): Outcome<Lval>
    requires AllNums(ys)
    decreases |ys|
  {
    if |ys| == 0 then Done(Num(x))
    else
      var y := ys[0].num;
      match op
      case Add => Fold(op, x + y, ys[1..])
      case Sub => Fold(op, x - y, ys[1..])
      case Mul => Fold(op, x * y, ys[1..])
      case Div => if y == 0 then Done(Err("can't divide by zero")) else Fold(op, CDiv(x, y), ys[1..])
      case Pow =>
        var p := PowLong(x, y);
        if p.Stuck? then Stuck(p.why) else Fold(op, p.val, ys[1..])
  }

  /** `builtin_operator`: every argument must be a number; the first is popped,
      negated when it is the only operand of `-`, and the rest are folded in. */
  function Operator(op: Op, args: seq<Lval>): Outcome<Lval>
    requires |args| >= 1
  {
    if !AllNums(args) then Done(Err("Cannot operate on a non-number"))
    else
      var x := args[0].num;
      Fold(op, if op == Sub && |args| == 1 then -x else x, args[1..])
  }

  /** One step of the arithmetic, for the operators the model describes. */
  function Arith(op: Op, x: int, y: int): int
    requires op != Pow && (op == Div ==> y != 0)
  {
    match op
    case Add => x + y
    case Sub => x - y
    case Mul => x * y
    case Div => CDiv(x, y)
  }

  predicate NoZero(ns: seq<int>) {
    forall i :: 0 <= i < |ns| ==> ns[i] != 0
  }

  /** The left fold `((a op n0) op n1) ... op nk`, written from its last step. */
  function LeftFold(op: Op, a: int, ns: seq<int>): int
    requires op != Pow && (op == Div ==> NoZero(ns))
    decreases |ns|
  {
    if |ns| == 0 then a
    else Arith(op, LeftFold(op, a, ns[..|ns| - 1]), ns[|ns| - 1])
  }

  lemma {:induction false} LeftFoldCons(op: Op, a: int, n: int, ns: seq<int>)
    requires op != Pow && (op == Div ==> n != 0 && NoZero(ns))
    ensures LeftFold(op, a, [n] + ns) == LeftFold(op, Arith(op, a, n), ns)
    decreases |ns|
  {
    if |ns| > 0 {
      var m := |ns|;
      assert ([n] + ns)[..m] == [n] + ns[..m - 1];
      LeftFoldCons(op, a, n, ns[..m - 1]);
    } else {
      assert ([n] + ns)[..0] == [];
    }
  }

  /** The operator loop computes the left fold of the operands, in order. */
  lemma {:induction false} FoldIsLeftFold(op: Op, x: int, ys: seq<Lval>)
    requires AllNums(ys) && op != Pow && (op == Div ==> NoZero(Nums(ys)))
    ensures Fold(op, x, ys) == Done(Num(LeftFold(op, x, Nums(ys))))
    decreases |ys|
  {
    if |ys| > 0 {
      var ns := Nums(ys);
      assert ns == [ns[0]] + Nums(ys[1..]);
      assert op == Div ==> ns[0] != 0 && NoZero(Nums(ys[1..]));
      FoldIsLeftFold(op, Arith(op, x, ns[0]), ys[1..]);
      LeftFoldCons(op, x, ns[0], Nums(ys[1..]));
    }
  }

  /** `+`, `-`, `*` and `/` (with no zero divisor) on numbers give the left fold
      starting from the first operand: ((a0 op a1) op a2) ... */
  lemma OperatorLeftFold(op: Op, args: seq<Lval>)
    requires |args| >= 2 && AllNums(args) && op != Pow
    requires op == Div ==> NoZero(Nums(args[1..]))
    ensures Operator(op, args) == Done(Num(LeftFold(op, args[0].num, Nums(args[1..]))))
  {
    FoldIsLeftFold(op, args[0].num, args[1..]);
  }

  /** With a single operand, `-` negates it and the other operators return it. */
  lemma OperatorSingle(op: Op, a: int)
    ensures Operator(op, [Num(a)]) == Done(Num(if op == Sub then -a else a))
  {
    assert AllNums([Num(a)]);
  }

  /** Any argument that is not a number makes the result exactly the
      "Cannot operate on a non-number" error, whatever the operator. */
  lemma OperatorRejects(op: Op, args: seq<Lval>)
    requires |args| >= 1
    ensures Operator(op, args) == Done(Err("Cannot operate on a non-number")) <==> !AllNums(args)
  {
    if AllNums(args) {
      var x := args[0].num;
      FoldNeverRejects(op, if op == Sub && |args| == 1 then -x else x, args[1..]);
    }
  }

  lemma {:induction false} FoldNeverRejects(op: Op, x: int, ys: seq<Lval>)
    requires AllNums(ys)
    ensures Fold(op, x, ys) != Done(Err("Cannot operate on a non-number"))
    decreases |ys|
  {
    if |ys| > 0 && op == Pow && PowLong(x, ys[0].num).Done? {
      FoldNeverRejects(op, PowLong(x, ys[0].num).val, ys[1..]);
    } else if |ys| > 0 && op != Pow && !(op == Div && ys[0].num == 0) {
      FoldNeverRejects(op, Arith(op, x, ys[0].num), ys[1..]);
    }
  }

  /** `/` over numbers yields the "can't divide by zero" error exactly when some
      divisor (an operand after the first) is zero. */
  lemma DivByZero(args: seq<Lval>)
    requires |args| >= 1 && AllNums(args)
    ensures Operator(Div, args) == Done(Err("can't divide by zero")) <==> !NoZero(Nums(args[1..]))
  {
    DivFold(args[0].num, args[1..]);
  }

  lemma {:induction false} DivFold(x: int, ys: seq<Lval>)
    requires AllNums(ys)
    ensures Fold(Div, x, ys) == Done(Err("can't divide by zero")) <==> !NoZero(Nums(ys))
    decreases |ys|
  {
    if |ys| > 0 {
      var ns := Nums(ys);
      assert Nums(ys[1..]) == ns[1..];
      if ns[0] != 0 {
        DivFold(CDiv(x, ns[0]), ys[1..]);
        assert NoZero(ns) <==> NoZero(ns[1..]);
      }
    }
  }

  lemma {:induction false} IntPowAdd(x: int, m: nat, n: nat)
    ensures IntPow(x, m + n) == IntPow(x, m) * IntPow(x, n)
    decreases m
  {
    if m > 0 {
      IntPowAdd(x, m - 1, n);
      assert IntPow(x, m + n) == x * IntPow(x, m - 1 + n);
      assert x * (IntPow(x, m - 1) * IntPow(x, n)) == (x * IntPow(x, m - 1)) * IntPow(x, n);
    }
  }

  lemma {:induction false} IntPowMul(x: int, m: nat, n: nat)
    ensures IntPow(IntPow(x, m), n) == IntPow(x, m * n)
    decreases n
  {
    if n > 0 {
      IntPowMul(x, m, n - 1);
      assert m * n == m + m * (n - 1);
      IntPowAdd(x, m, m * (n - 1));
    }
  }

  /** `^` with non-negative exponents folds to the left as powers do:
      `(^ a b c)` is a to the power b * c. */
  lemma PowTower(a: int, b: nat, c: nat)
    ensures Operator(Pow, [Num(a), Num(b), Num(c)]) == Done(Num(IntPow(a, b * c)))
  {
    var args := [Num(a), Num(b), Num(c)];
    assert AllNums(args) && args[1..] == [Num(b), Num(c)] && args[1..][1..] == [Num(c)];
    assert Fold(Pow, IntPow(a, b), [Num(c)]) == Done(Num(IntPow(IntPow(a, b), c)));
    IntPowMul(a, b, c);
  }

  lemma {:induction false} IntPowUnit(k: nat)
    ensures IntPow(1, k) == 1
    ensures IntPow(-1, k) == if k % 2 == 0 then 1 else -1
    decreases k
  {
    if k > 0 {
      IntPowUnit(k - 1);
    }
  }

  lemma {:induction false} IntPowGrows(x: int, k: nat)
    requires Abs(x) >= 2 && k >= 1
    ensures Abs(IntPow(x, k)) >= 2
    decreases k
  {
    if k > 1 {
      IntPowGrows(x, k - 1);
      var p := IntPow(x, k - 1);
      assert Abs(x * p) == Abs(x) * Abs(p);
      assert Abs(x) * Abs(p) >= 2 * 2;
    } else {
      assert IntPow(x, 1) == x * IntPow(x, 0);
    }
  }

  /** For a negative exponent the stored result `r` is the real power 1 / d,
      d = x^-y, truncated toward zero: it has the sign of d (or is zero) and
      |r| <= |1 / d| < |r| + 1. */
  lemma PowLongTruncates(x: int, y: int)
    requires y < 0 && x != 0
    ensures PowLong(x, y).Done?
    ensures var r, d := PowLong(x, y).val, IntPow(x, -y);
            r * d >= 0 && Abs(r) * Abs(d) <= 1 < (Abs(r) + 1) * Abs(d)
  {
    var k: nat := -y;
    IntPowUnit(k);
    if x != 1 && x != -1 {
      IntPowGrows(x, k);
    } else if x == -1 {
      assert (y % 2 == 0) == (k % 2 == 0);
    }
  }

  /** Sum and product of a list of numbers, built from the front; closed forms
      for the folds of `+`, `-` and `*`. */
  function Sum(ns: seq<int>): int {
    if |ns| == 0 then 0 else ns[0] + Sum(ns[1..])
  }

  function Product(ns: seq<int>): int {
    if |ns| == 0 then 1 else ns[0] * Product(ns[1..])
  }

  lemma {:induction false} LeftFoldSum(a: int, ns: seq<int>)
    ensures LeftFold(Add, a, ns) == a + Sum(ns)
    decreases |ns|
  {
    if |ns| > 0 {
      LeftFoldCons(Add, a, ns[0], ns[1..]);
      assert [ns[0]] + ns[1..] == ns;
      LeftFoldSum(a + ns[0], ns[1..]);
    }
  }

  lemma {:induction false} LeftFoldDifference(a: int, ns: seq<int>)
    ensures LeftFold(Sub, a, ns) == a - Sum(ns)
    decreases |ns|
  {
    if |ns| > 0 {
      LeftFoldCons(Sub, a, ns[0], ns[1..]);
      assert [ns[0]] + ns[1..] == ns;
      LeftFoldDifference(a - ns[0], ns[1..]);
    }
  }

  lemma {:induction false} LeftFoldProduct(a: int, ns: seq<int>)
    ensures LeftFold(Mul, a, ns) == a * Product(ns)
    decreases |ns|
  {
    if |ns| > 0 {
      LeftFoldCons(Mul, a, ns[0], ns[1..]);
      assert [ns[0]] + ns[1..] == ns;
      LeftFoldProduct(a * ns[0], ns[1..]);
      assert a * ns[0] * Product(ns[1..]) == a * (ns[0] * Product(ns[1..]));
    }
  }

  // ---------------------------------------------------------------------------
  // List builtins

  /** `builtin_list`: the argument list re-tagged as a Q-expression. */
  function List(args: seq<Lval>): (r: Lval)
    ensures Count([r]) == Num(|args|)
    ensures |args| > 0 ==> First([r]) == Qexpr([args[0]]) && Rest([r]) == Qexpr(args[1..])
  {
    Qexpr(args)
  }

  /** The argument check shared by `first` and `rest`. */
  predicate HeadArg(args: seq<Lval>) {
    |args| == 1 && args[0].Qexpr? && |args[0].cell| > 0
  }

  /** `builtin_first`: a Q-expression holding only the head of the argument. */
  function First(args: seq<Lval>): Lval
  {
    if |args| != 1 then Err("Function 'first' passed too many arguments")
    else if !args[0].Qexpr? then Err("Function 'first' passed wrong type")
    else if |args[0].cell| == 0 then Err("Function 'first' passed {}")
    else Qexpr([args[0].cell[0]])
  }

  /** `builtin_rest`: the argument Q-expression without its head. */
  function Rest(args: seq<Lval>): Lval
  {
    if |args| != 1 then Err("Function 'rest' passed too many arguments")
    else if !args[0].Qexpr? then Err("Function 'rest' passed wrong type")
    else if |args[0].cell| == 0 then Err("Function 'rest' passed {}")
    else Qexpr(args[0].cell[1..])
  }

  /** `first` and `rest` accept exactly one non-empty Q-expression; everything
      else, `{}` included, gives an error value rather than a list. */
  lemma FirstRestGuard(args: seq<Lval>)
    ensures First(args).Qexpr? <==> HeadArg(args)
    ensures Rest(args).Qexpr? <==> HeadArg(args)
    ensures !HeadArg(args) ==> First(args).Err? && Rest(args).Err?
  {
  }

  /** On a non-empty Q-expression `first` gives the head alone, `rest` the
      remaining children, and joining the two gives back the list. */
  lemma FirstRestJoin(q: Lval)
    requires HeadArg([q])
    ensures |First([q]).cell| == 1 && First([q]).cell[0] == q.cell[0]
    ensures |Rest([q]).cell| == |q.cell| - 1
    ensures Join([First([q]), Rest([q])]) == q
  {
    assert Flatten([First([q]), Rest([q])]) == q.cell by {
      assert Flatten([Rest([q])]) == q.cell[1..];
    }
  }

  predicate AllQexprs(args: seq<Lval>) {
    forall i :: 0 <= i < |args| ==> args[i].Qexpr?
  }

  /** The children of the lists `qs`, one list after the other. */
  function Flatten(qs: seq<Lval>): seq<Lval>
    requires AllQexprs(qs)
  {
    if |qs| == 0 then [] else qs[0].cell + Flatten(qs[1..])
  }

  /** `builtin_join`: every argument must be a Q-expression; the result is the
      first one with the others' children appended, in order. */
  function Join(args: seq<Lval>): Lval
    requires |args| >= 1
  {
    if !AllQexprs(args) then Err("Function 'join' passed incorrect type")
    else Qexpr(Flatten(args))
  }

  lemma {:induction false} FlattenAppend(xs: seq<Lval>, ys: seq<Lval>)
    requires AllQexprs(xs) && AllQexprs(ys)
    ensures AllQexprs(xs + ys) && Flatten(xs + ys) == Flatten(xs) + Flatten(ys)
    decreases |xs|
  {
    if |xs| > 0 {
      assert (xs + ys)[1..] == xs[1..] + ys;
      FlattenAppend(xs[1..], ys);
    } else {
      assert xs + ys == ys;
    }
  }

  /** `join` of Q-expressions is their concatenation, so it is associative and
      `join {a b} {c d}` is `{a b c d}`. */
  lemma JoinAssociative(a: Lval, b: Lval, c: Lval)
    requires a.Qexpr? && b.Qexpr? && c.Qexpr?
    ensures Join([a, b]) == Qexpr(a.cell + b.cell)
    ensures Join([Join([a, b]), c]) == Join([a, Join([b, c])]) == Join([a, b, c])
  {
    assert Flatten([c]) == c.cell;
    assert Flatten([b]) == b.cell;
    assert [a, b][1..] == [b] && [b, c][1..] == [c] && [a, b, c][1..] == [b, c];
    assert Flatten([b, c]) == b.cell + c.cell;
    assert Flatten([a, b]) == a.cell + b.cell;
    assert Flatten([a, b, c]) == a.cell + (b.cell + c.cell);
    var ab, bc := Qexpr(a.cell + b.cell), Qexpr(b.cell + c.cell);
    assert [ab, c][1..] == [c] && [a, bc][1..] == [bc];
    assert Flatten([bc]) == bc.cell;
    assert Flatten([ab, c]) == (a.cell + b.cell) + c.cell;
    assert Flatten([a, bc]) == a.cell + (b.cell + c.cell);
  }

  /** A `join` with any argument that is not a Q-expression is the
      "incorrect type" error. */
  lemma JoinRejects(args: seq<Lval>)
    requires |args| >= 1
    ensures Join(args).Err? <==> !AllQexprs(args)
    ensures Join(args).Err? ==> Join(args) == Err("Function 'join' passed incorrect type")
  {
  }

  /** `join` of two `list` results is the `list` of both argument lists, one
      after the other. */
  lemma ListJoin(a: seq<Lval>, b: seq<Lval>)
    ensures Join([List(a), List(b)]) == List(a + b)
  {
    assert Flatten([List(b)]) == b;
  }

  /** `builtin_count`: the number of children of the one Q-expression argument. */
  function Count(args: seq<Lval>): Lval
  {
    if |args| != 1 then Err("Function 'count' passed incorrect number of arguments")
    else if !args[0].Qexpr? then Err("Function 'count' passed incorrect type")
    else Num(|args[0].cell|)
  }

  /** The count of a join is the sum of the counts, and `rest` lowers the count
      by one. */
  lemma CountJoinRest(a: Lval, b: Lval)
    requires a.Qexpr? && b.Qexpr?
    ensures Count([Join([a, b])]) == Num(Count([a]).num + Count([b]).num)
    ensures |a.cell| > 0 ==> Count([Rest([a])]) == Num(Count([a]).num - 1)
  {
    assert Flatten([b]) == b.cell;
  }

  /** The argument checks of `builtin_cons`.  What it does once they pass
      (enlarging and shifting the child array) overruns the array, so the
      model stops there. */
  function Cons(args: seq<Lval>): Outcome<Lval>
  {
    if |args| != 2 then Done(Err("Function 'cons' passed incorrect number of arguments"))
    else if !args[0].Num? then Done(Err("Function 'cons' passed incorrect type"))
    else if !args[1].Qexpr? then Done(Err("Function 'cons' passed incorrect type"))
    else Stuck(Unmodelled)
  }

  /** `cons` returns an error value exactly when its arguments are not one
      number followed by one Q-expression. */
  lemma ConsGuard(args: seq<Lval>)
    ensures Cons(args).Done? <==> !(|args| == 2 && args[0].Num? && args[1].Qexpr?)
    ensures Cons(args).Done? ==> Cons(args).val.Err?
  {
  }

  // ---------------------------------------------------------------------------
  // def

  predicate AllSyms(ks: seq<Lval>) {
    forall i :: 0 <= i < |ks| ==> ks[i].Sym?
  }

  /** The checks of `builtin_def`: a Q-expression of symbols first, and as many
      values after it as there are symbols. */
  predicate DefArgsOk(args: seq<Lval>)
    requires |args| >= 1
  {
    args[0].Qexpr? && AllSyms(args[0].cell) && |args[0].cell| == |args| - 1
  }

  /** `lenv_put` of `ks[i]` to `vs[i]`, for i = 0, 1, ..., in that order. */
  function PutAll(env: Env, ks: seq<Lval>, vs: seq<Lval>): (r: Env)
    requires WellFormed(env) && |env| >= 1 && AllSyms(ks) && |ks| == |vs|
    ensures WellFormed(r) && |r| == |env| && r[1..] == env[1..]
    decreases |ks|
  {
    if |ks| == 0 then env
    else
      var n := |ks| - 1;
      PutEnv(PutAll(env, ks[..n], vs[..n]), ks[n].sym, vs[n])
  }

  /** `builtin_def`: on any failed check an error and no binding; otherwise
      each symbol is bound to the value in the same position in the current
      frame, and the result is `()`. */
  function Def(env: Env, args: seq<Lval>): (Lval, Env)
    requires WellFormed(env) && |env| >= 1 && |args| >= 1
  {
    if !args[0].Qexpr? then (Err("Function 'def' passed incorrect type"), env)
    else if !AllSyms(args[0].cell) then (Err("Function 'def' cannot define new symbol"), env)
    else if |args[0].cell| != |args| - 1 then
      (Err("Function 'def' cannot define incorrect number of values to symbols"), env)
    else (Sexpr([]), PutAll(env, args[0].cell, args[1..]))
  }

  /** Position `i` holds the last occurrence of its symbol in `ks`. */
  predicate LastOf(ks: seq<Lval>, i: nat)
    requires AllSyms(ks) && i < |ks|
  {
    forall j :: i < j < |ks| ==> ks[j].sym != ks[i].sym
  }

  /** After `PutAll`, the last occurrence of a symbol decides its value. */
  lemma {:induction false} PutAllLast(env: Env, ks: seq<Lval>, vs: seq<Lval>, i: nat)
    requires WellFormed(env) && |env| >= 1 && AllSyms(ks) && |ks| == |vs|
    requires i < |ks| && LastOf(ks, i)
    ensures Lookup(PutAll(env, ks, vs), ks[i].sym) == vs[i]
    decreases |ks|
  {
    var n := |ks| - 1;
    var before := PutAll(env, ks[..n], vs[..n]);
    if i == n {
      PutGet(before, ks[n].sym, vs[n]);
    } else {
      assert ks[..n][i] == ks[i] && vs[..n][i] == vs[i];
      assert LastOf(ks[..n], i) by {
        forall j | i < j < n ensures ks[..n][j].sym != ks[i].sym {
          assert ks[..n][j] == ks[j];
        }
      }
      PutAllLast(env, ks[..n], vs[..n], i);
      PutOther(before, ks[n].sym, vs[n], ks[i].sym);
    }
  }

  /** After `PutAll`, a name that none of the symbols carries looks up as before. */
  lemma {:induction false} PutAllOther(env: Env, ks: seq<Lval>, vs: seq<Lval>, k: string)
    requires WellFormed(env) && |env| >= 1 && AllSyms(ks) && |ks| == |vs|
    requires forall j :: 0 <= j < |ks| ==> ks[j].sym != k
    ensures Lookup(PutAll(env, ks, vs), k) == Lookup(env, k)
    decreases |ks|
  {
    if |ks| > 0 {
      var n := |ks| - 1;
      assert forall j :: 0 <= j < n ==> ks[..n][j] == ks[j];
      PutAllOther(env, ks[..n], vs[..n], k);
      PutOther(PutAll(env, ks[..n], vs[..n]), ks[n].sym, vs[n], k);
    }
  }

  /** `def` makes a binding exactly when its checks pass, then returns `()` and
      every symbol (the last of any repeated name) looks up to its value;
      a failed check returns an error and leaves the environment as it was. */
  lemma DefBinds(env: Env, args: seq<Lval>)
    requires WellFormed(env) && |env| >= 1 && |args| >= 1
    ensures !DefArgsOk(args) ==> Def(env, args).0.Err? && Def(env, args).1 == env
    ensures DefArgsOk(args) ==>
              var ks := args[0].cell;
              Def(env, args).0 == Sexpr([]) &&
              (forall i :: 0 <= i < |ks| && LastOf(ks, i) ==>
                 Lookup(Def(env, args).1, ks[i].sym) == args[i + 1]) &&
              (forall k :: (forall j :: 0 <= j < |ks| ==> ks[j].sym != k) ==>
                 Lookup(Def(env, args).1, k) == Lookup(env, k))
  {
    if DefArgsOk(args) {
      var ks := args[0].cell;
      forall i | 0 <= i < |ks| && LastOf(ks, i)
        ensures Lookup(Def(env, args).1, ks[i].sym) == args[i + 1]
      {
        PutAllLast(env, ks, args[1..], i);
        assert args[1..][i] == args[i + 1];
      }
      forall k | forall j :: 0 <= j < |ks| ==> ks[j].sym != k
        ensures Lookup(Def(env, args).1, k) == Lookup(env, k)
      {
        PutAllOther(env, ks, args[1..], k);
      }
    }
  }
}
