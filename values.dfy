/** The tagged Lisp value (`lval`) of the interpreter, its deep copy and its
    printed form.  Numbers are mathematical integers; strings are `seq<char>`. */
module Values {

  /** The builtin procedures a `Fun` value can refer to.  In the C program a
      `Fun` holds a function pointer; pointers are copied and compared by
      identity, which an enumeration of the registered procedures captures. */
  datatype Builtin =
    | BList | BFirst | BRest | BEval | BJoin | BCons | BCount
    | BAdd | BSub | BMul | BDiv | BPow
    | BDef

  /** The six value kinds: number, error, symbol, S-expression (evaluated list),
      Q-expression (quoted list) and builtin function. */
  datatype Lval =
    | Num(num: int)
    | Err(err: string)
    | Sym(sym: string)
    | Sexpr(cell: seq<Lval>)
    | Qexpr(cell: seq<Lval>)
    | Fun(fun: Builtin)
  {
    /** The kinds that carry a child list. */
    predicate IsList() { Sexpr? || Qexpr? }
  }

  /** Why a computation of the model has no value: the evaluator ran out of
      fuel, or the C program reaches an operation whose result the model does
      not describe (floating point, or a heap overflow). */
  datatype Halt = OutOfFuel | Unmodelled

  datatype Outcome<T> = Done(val: T) | Stuck(why: Halt)

  // ---------------------------------------------------------------------------
  // Deep copy

  /** `lval_copy`: a fresh value with the same tag and payload; list children
      are copied one by one.  With value semantics the copy is equal to the
      original, which is what the C code intends: equal numbers, equal strings,
      the same builtin, and the same number of pairwise-equal children. */
  function Copy(v: Lval): (r: Lval)
    ensures r == v
    decreases v
  {
    match v
    case Num(n) => Num(n)
    case Fun(f) => Fun(f)
    case Err(m) => Err(m)
    case Sym(s) => Sym(s)
    case Qexpr(cs) =>
      var children := seq(|cs|, i requires 0 <= i < |cs| => Copy(cs[i]));
      assert children == cs;
      Qexpr(children)
    case Sexpr(cs) =>
      var children := seq(|cs|, i requires 0 <= i < |cs| => Copy(cs[i]));
      assert children == cs;
      Sexpr(children)
  }

  // ---------------------------------------------------------------------------
  // Printing (`lval_print`, `lval_expr_print`), as a function producing the text

  predicate IsDigit(c: char) { '0' <= c <= '9' }

  function DigitChar(d: nat): (c: char)
    requires d < 10
    ensures IsDigit(c) && c as int - '0' as int == d
  {
    "0123456789"[d]
  }

  /** The decimal digits of `n`, most significant first, without leading zeros. */
  function NatToString(n: nat): (s: string)
    ensures |s| >= 1
    ensures forall k :: 0 <= k < |s| ==> IsDigit(s[k])
    ensures s[0] == '0' ==> n == 0 && s == "0"
    decreases n
  {
    if n < 10 then [DigitChar(n)] else NatToString(n / 10) + [DigitChar(n % 10)]
  }

  /** The `%li` conversion: a minus sign for negative numbers, then the digits. */
  function IntToString(i: int): string
  {
    if i < 0 then "-" + NatToString(-i) else NatToString(i)
  }

  /** The value of a string of decimal digits, read left to right. */
  function ParseNat(s: string): nat
  {
    if |s| == 0 then 0
    else
      var d := s[|s| - 1] as int - '0' as int;
      ParseNat(s[..|s| - 1]) * 10 + (if 0 <= d then d else 0)
  }

  /** Reads back what `IntToString` prints. */
  function ParseInt(s: string): int
  {
    if |s| > 0 && s[0] == '-' then 0 - ParseNat(s[1..]) else ParseNat(s)
  }

  lemma {:induction false} ParseNatToString(n: nat)
    ensures ParseNat(NatToString(n)) == n
    decreases n
  {
    if n >= 10 {
      var s := NatToString(n);
      assert s[..|s| - 1] == NatToString(n / 10);
      ParseNatToString(n / 10);
    }
  }

  /** The printed number reads back as the same number. */
  lemma IntToStringRoundTrip(i: int)
    ensures ParseInt(IntToString(i)) == i
  {
    if i < 0 {
      NegativeRoundTrip(-i);
    } else {
      ParseNatToString(i);
    }
  }

  lemma NegativeRoundTrip(n: nat)
    ensures ParseInt("-" + NatToString(n)) == -(n as int)
  {
    var s := "-" + NatToString(n);
    assert s[0] == '-' && s[1..] == NatToString(n);
    ParseNatToString(n);
  }

  /** The printed form of a value. */
  function Print(v: Lval): string
    decreases v
  {
    match v
    case Num(n) => IntToString(n)
    case Err(m) => "Error: " + m
    case Sym(s) => s
    case Sexpr(cs) => ExprText(seq(|cs|, i requires 0 <= i < |cs| => Print(cs[i])), '(', ')')
    case Qexpr(cs) => ExprText(seq(|cs|, i requires 0 <= i < |cs| => Print(cs[i])), '{', '}')
    case Fun(_) => "<function>"
  }

  /** `lval_expr_print` given the printed children: the open bracket, each
      child followed by a space unless it is the last one, the close bracket. */
  function ExprText(parts: seq<string>, open: char, close: char): string
  {
    [open] + Spaced(parts) + [close]
  }

  /** The loop of `lval_expr_print`: each part, then a space if another follows. */
  function Spaced(parts: seq<string>): string
  {
    if |parts| == 0 then ""
    else parts[0] + (if |parts| == 1 then "" else " ") + Spaced(parts[1..])
  }

  /** The usual "join with a separator", built from the right; an independent
      reference for `Spaced`. */
  function JoinWith(sep: string, parts: seq<string>): string
  {
    if |parts| == 0 then ""
    else if |parts| == 1 then parts[0]
    else JoinWith(sep, parts[..|parts| - 1]) + sep + parts[|parts| - 1]
  }

  lemma {:induction false} SpacedIsJoin(parts: seq<string>)
    ensures Spaced(parts) == JoinWith(" ", parts)
    decreases |parts|
  {
    if |parts| > 2 {
      var n := |parts|;
      SpacedIsJoin(parts[1..]);
      SpacedIsJoin(parts[..n - 1]);
      SpacedIsJoin(parts[1..n - 1]);
      assert parts[1..][..n - 2] == parts[1..n - 1];
      assert parts[..n - 1][1..] == parts[1..n - 1];
      assert parts[1..][n - 2] == parts[n - 1];
    } else if |parts| == 2 {
      assert parts[1..] == [parts[1]];
      assert Spaced(parts[1..]) == parts[1];
      assert parts[..1] == [parts[0]];
      assert JoinWith(" ", parts[..1]) == parts[0];
    }
  }

  /** The printed list: its bracket, the children's printed forms separated by
      exactly one space (none before the first, none after the last), and the
      closing bracket; `()` for an S-expression and `{}` for a Q-expression. */
  lemma PrintList(v: Lval)
    requires v.IsList()
    ensures var parts := seq(|v.cell|, i requires 0 <= i < |v.cell| => Print(v.cell[i]));
            Print(v) == (if v.Sexpr? then "(" else "{") + JoinWith(" ", parts)
                        + (if v.Sexpr? then ")" else "}")
  {
    SpacedIsJoin(seq(|v.cell|, i requires 0 <= i < |v.cell| => Print(v.cell[i])));
  }

  /** The printed form of the leaves: the number in decimal, "Error: " before an
      error message, a symbol's name, and "<function>" for a builtin. */
  lemma PrintLeaf(v: Lval)
    requires !v.IsList()
    ensures v.Num? ==> ParseInt(Print(v)) == v.num
    ensures v.Err? ==> Print(v) == "Error: " + v.err
    ensures v.Sym? ==> Print(v) == v.sym
    ensures v.Fun? ==> Print(v) == "<function>"
  {
    if v.Num? { IntToStringRoundTrip(v.num); }
  }
}
