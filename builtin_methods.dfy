/** The builtins of `builtin.c` as the C code runs them: each receives the
    argument list as a `Compound` it owns and edits in place (popping operands,
    retagging, joining), and each is proved to return what the function of the
    same name in `Builtins` describes. */
module BuiltinMethods {
  import opened Values
  import opened Cells
  import opened Environment
  import Builtins

  /** `builtin_operator`: the type check over all arguments, then the first
      operand is popped into an accumulator and the others are popped and
      folded in one at a time. */
  method Operator(op: Builtins.Op, v: Compound) returns (r: Outcome<Lval>)
    requires |v.cell| >= 1
    modifies v
    ensures r == Builtins.Operator(op, old(v.cell))
  {
    for i := 0 to |v.cell|
      invariant forall j :: 0 <= j < i ==> v.cell[j].Num?
    {
      if !v.cell[i].Num? {
        return Done(Err("Cannot operate on a non-number"));
      }
    }
    ghost var args := v.cell;
    var x := v.Pop(0);
    assert v.cell == args[1..];
    var acc := x.num;
    if op == Builtins.Sub && |v.cell| == 0 {
      acc := -acc;
    }
    ghost var start := acc;
    while |v.cell| > 0
      invariant Builtins.AllNums(v.cell)
      invariant Builtins.Fold(op, acc, v.cell) == Builtins.Fold(op, start, args[1..])
      decreases |v.cell|
    {
      ghost var ys := v.cell;
      var y := v.Pop(0);
      assert v.cell == ys[1..];
      match op {
        case Add => acc := acc + y.num;
        case Sub => acc := acc - y.num;
        case Mul => acc := acc * y.num;
        case Pow =>
          var p := Builtins.PowLong(acc, y.num);
          if p.Stuck? {
            return Stuck(p.why);
          }
          acc := p.val;
        case Div =>
          if y.num == 0 {
            return Done(Err("can't divide by zero"));
          }
          acc := Builtins.CDiv(acc, y.num);
      }
    }
    r := Done(Num(acc));
  }

  /** `builtin_first`: after the checks, the Q-expression argument is taken and
      its children after the head are deleted one by one. */
  method First(l: Compound) returns (r: Lval)
    modifies l
    ensures r == Builtins.First(old(l.cell))
  {
    if |l.cell| != 1 {
      return Err("Function 'first' passed too many arguments");
    }
    if !l.cell[0].Qexpr? {
      return Err("Function 'first' passed wrong type");
    }
    if |l.cell[0].cell| == 0 {
      return Err("Function 'first' passed {}");
    }
    var x := l.Take(0);
    var v := new Compound.Of(x);
    while |v.cell| > 1
      invariant v.kind == QexprKind && |v.cell| >= 1 && v.cell[0] == x.cell[0]
      decreases |v.cell|
    {
      var dropped := v.Pop(1);
    }
    r := v.Value();
  }

  /** `builtin_rest`: after the checks, the Q-expression argument is taken and
      its head is popped and deleted. */
  method Rest(l: Compound) returns (r: Lval)
    modifies l
    ensures r == Builtins.Rest(old(l.cell))
  {
    if |l.cell| != 1 {
      return Err("Function 'rest' passed too many arguments");
    }
    if !l.cell[0].Qexpr? {
      return Err("Function 'rest' passed wrong type");
    }
    if |l.cell[0].cell| == 0 {
      return Err("Function 'rest' passed {}");
    }
    var x := l.Take(0);
    var v := new Compound.Of(x);
    var head := v.Pop(0);
    r := v.Value();
  }

  /** `builtin_list`: the argument list itself, retagged as a Q-expression. */
  method List(l: Compound) returns (r: Lval)
    modifies l
    ensures l.kind == QexprKind && l.cell == old(l.cell)
    ensures r == l.Value() == Builtins.List(old(l.cell))
  {
    l.kind := QexprKind;
    r := l.Value();
  }

  /** `builtin_join`: the type check, then the first argument is popped and
      each further argument is popped and joined onto it. */
  method Join(l: Compound) returns (r: Lval)
    requires |l.cell| >= 1
    modifies l
    ensures r == Builtins.Join(old(l.cell))
  {
    for i := 0 to |l.cell|
      invariant forall j :: 0 <= j < i ==> l.cell[j].Qexpr?
    {
      if !l.cell[i].Qexpr? {
        return Err("Function 'join' passed incorrect type");
      }
    }
    ghost var qs := l.cell;
    var first := l.Pop(0);
    assert l.cell == qs[1..];
    var x := new Compound.Of(first);
    JoinEach(x, l);
    r := x.Value();
  }

  /** The loop of `builtin_join`: each argument left in `l` is popped and its
      children are joined onto `x`, in order. */
  method JoinEach(x: Compound, l: Compound)
    requires x != l && Builtins.AllQexprs(l.cell)
    modifies x, l
    ensures x.kind == old(x.kind)
    ensures x.cell == old(x.cell) + Builtins.Flatten(old(l.cell))
  {
    while |l.cell| > 0
      invariant Builtins.AllQexprs(l.cell)
      invariant x.kind == old(x.kind)
      invariant x.cell + Builtins.Flatten(l.cell) == old(x.cell) + Builtins.Flatten(old(l.cell))
      decreases |l.cell|
    {
      ghost var rest := l.cell;
      var yv := l.Pop(0);
      assert l.cell == rest[1..];
      var y := new Compound.Of(yv);
      x.Join(y);
    }
  }

  /** `builtin_def`: the three checks, then `lenv_put` of each symbol to the
      value after it, in order, into the current frame `e`. */
  method Def(e: Lenv, a: Compound) returns (r: Lval)
    requires e.Valid() && |a.cell| >= 1
    modifies e
    ensures e.Valid() && e.Repr == old(e.Repr) && e.parent == old(e.parent)
    ensures (r, e.Chain()) == Builtins.Def(old(e.Chain()), a.cell)
  {
    if !a.cell[0].Qexpr? {
      return Err("Function 'def' passed incorrect type");
    }
    var symbols := a.cell[0].cell;
    for i := 0 to |symbols|
      invariant forall j :: 0 <= j < i ==> symbols[j].Sym?
    {
      if !symbols[i].Sym? {
        return Err("Function 'def' cannot define new symbol");
      }
    }
    if |symbols| != |a.cell| - 1 {
      return Err("Function 'def' cannot define incorrect number of values to symbols");
    }
    Bind(e, symbols, a.cell[1..]);
    r := Sexpr([]);
  }

  /** The last loop of `builtin_def`: `lenv_put` of symbol `i` to value `i`, in
      order. */
  method Bind(e: Lenv, symbols: seq<Lval>, vs: seq<Lval>)
    requires e.Valid() && Builtins.AllSyms(symbols) && |symbols| == |vs|
    modifies e
    ensures e.Valid() && e.Repr == old(e.Repr) && e.parent == old(e.parent)
    ensures e.Chain() == Builtins.PutAll(old(e.Chain()), symbols, vs)
  {
    ghost var env0 := e.Chain();
    for i := 0 to |symbols|
      invariant e.Valid() && e.Repr == old(e.Repr) && e.parent == old(e.parent)
      invariant e.Chain() == Builtins.PutAll(env0, symbols[..i], vs[..i])
    {
      assert symbols[..i + 1][..i] == symbols[..i] && vs[..i + 1][..i] == vs[..i];
      e.Put(symbols[i].sym, vs[i]);
    }
    assert symbols[..|symbols|] == symbols && vs[..|symbols|] == vs;
  }
}
