/** `lval_eval`, `lval_eval_sexpr` and `builtin_eval` as the C code runs them:
    the children of an S-expression are overwritten in place by their values,
    the head is popped and the builtin it names receives the rest of the list;
    the environment is the linked frame `e`.  Each method is proved to produce
    the outcome and the chain of frames its function in `Evaluator` describes. */
module Interpreter {
  import opened Values
  import opened Cells
  import opened Environment
  import Builtins
  import BuiltinMethods
  import Evaluator

  /** `lval_eval`. */
  method Eval(fuel: nat, e: Lenv, v: Lval) returns (r: Outcome<Lval>)
    requires e.Valid()
    modifies e
    ensures e.Valid() && e.Repr == old(e.Repr) && e.parent == old(e.parent)
    ensures Evaluator.Run(r, e.Chain()) == Evaluator.Eval(fuel, old(e.Chain()), v)
    decreases fuel, 0, 0
  {
    if v.Sym? {
      var x := e.Get(v.sym);
      return Done(x);
    }
    if v.Sexpr? {
      if fuel == 0 {
        return Stuck(OutOfFuel);
      }
      var c := new Compound.Of(v);
      r := EvalSexpr(fuel - 1, e, c);
      return;
    }
    r := Done(v);
  }

  /** `lval_eval_sexpr` on the S-expression `v`, which it consumes. */
  method EvalSexpr(fuel: nat, e: Lenv, v: Compound) returns (r: Outcome<Lval>)
    requires e.Valid() && v.kind == SexprKind
    modifies e, v
    ensures e.Valid() && e.Repr == old(e.Repr) && e.parent == old(e.parent)
    ensures Evaluator.Run(r, e.Chain()) == Evaluator.EvalSexpr(fuel, old(e.Chain()), old(v.cell))
    decreases fuel, 3, 0
  {
    var c := EvalChildren(fuel, e, v);
    if c.Stuck? {
      return Stuck(c.why);
    }
    r := Reduce(fuel, e, v);
  }

  /** The rest of `lval_eval_sexpr`, once every child of `v` is a value. */
  method Reduce(fuel: nat, e: Lenv, v: Compound) returns (r: Outcome<Lval>)
    requires e.Valid() && v.kind == SexprKind
    modifies e, v
    ensures e.Valid() && e.Repr == old(e.Repr) && e.parent == old(e.parent)
    ensures Evaluator.Run(r, e.Chain()) == Evaluator.Reduce(fuel, old(e.Chain()), old(v.cell))
    decreases fuel, 2, 1
  {
    var n := |v.cell|;
    var i := FindError(v);
    if i < n {
      var x := v.Take(i);
      return Done(x);
    }
    if n == 0 {
      return Done(v.Value());
    }
    if n == 1 {
      var x := v.Take(0);
      return Done(x);
    }
    ghost var vs := v.cell;
    var f := v.Pop(0);
    assert v.cell == vs[1..];
    if !f.Fun? {
      return Done(Err("First element of S-expression is not a function"));
    }
    r := Apply(fuel, e, f.fun, v);
  }

  /** The second loop of `lval_eval_sexpr`: the index of the first error
      among the children, or their number when there is none. */
  method FindError(v: Compound) returns (i: nat)
    ensures i == Evaluator.FirstError(v.cell)
  {
    i := 0;
    while i < |v.cell| && !v.cell[i].Err?
      invariant i <= |v.cell| && forall j :: 0 <= j < i ==> !v.cell[j].Err?
    {
      i := i + 1;
    }
  }

  /** The first loop of `lval_eval_sexpr`: each child, left to right, is
      overwritten by its value. */
  method EvalChildren(fuel: nat, e: Lenv, v: Compound) returns (r: Outcome<seq<Lval>>)
    requires e.Valid()
    modifies e, v
    ensures e.Valid() && e.Repr == old(e.Repr) && e.parent == old(e.parent)
    ensures Evaluator.Run(r, e.Chain()) == Evaluator.EvalCells(fuel, old(e.Chain()), old(v.cell))
    ensures v.kind == old(v.kind) && (r.Done? ==> v.cell == r.val)
    decreases fuel, 1, 0
  {
    ghost var cs := v.cell;
    ghost var env0 := e.Chain();
    var n := |v.cell|;
    for i := 0 to n
      invariant |v.cell| == n == |cs| && v.kind == old(v.kind)
      invariant forall j :: i <= j < n ==> v.cell[j] == cs[j]
      invariant e.Valid() && e.Repr == old(e.Repr) && e.parent == old(e.parent)
      invariant Evaluator.EvalCells(fuel, env0, cs[..i]) == Evaluator.Run(Done(v.cell[..i]), e.Chain())
    {
      ghost var before, mid := v.cell, e.Chain();
      var x := EvalChild(fuel, e, v, i);
      Evaluator.CellsStep(fuel, env0, cs, i, before[..i], mid);
      if x.Stuck? {
        Evaluator.CellsStuckPrefix(fuel, env0, cs, i + 1);
        return Stuck(x.why);
      }
      assert v.cell[..i + 1] == before[..i] + [x.val];
    }
    assert cs[..n] == cs && v.cell[..n] == v.cell;
    r := Done(v.cell);
  }

  /** One step of that loop: child `i` of `v` is overwritten by its value. */
  method EvalChild(fuel: nat, e: Lenv, v: Compound, i: nat) returns (x: Outcome<Lval>)
    requires e.Valid() && i < |v.cell|
    modifies e, v
    ensures e.Valid() && e.Repr == old(e.Repr) && e.parent == old(e.parent)
    ensures Evaluator.Run(x, e.Chain()) == Evaluator.Eval(fuel, old(e.Chain()), old(v.cell[i]))
    ensures v.kind == old(v.kind) && v.cell == if x.Done? then old(v.cell)[i := x.val] else old(v.cell)
    decreases fuel, 0, 1
  {
    x := Eval(fuel, e, v.cell[i]);
    if x.Done? {
      v.cell := v.cell[i := x.val];
    }
  }

  /** `f->fun(e, v)`: the builtin of the popped head, on the rest of the list. */
  method Apply(fuel: nat, e: Lenv, f: Builtin, a: Compound) returns (r: Outcome<Lval>)
    requires e.Valid() && |a.cell| >= 1
    modifies e, a
    ensures e.Valid() && e.Repr == old(e.Repr) && e.parent == old(e.parent)
    ensures Evaluator.Run(r, e.Chain()) == Evaluator.Apply(fuel, old(e.Chain()), f, old(a.cell))
    decreases fuel, 2, 0
  {
    if f == BEval {
      r := EvalBuiltin(fuel, e, a);
    } else if f == BDef {
      var x := BuiltinMethods.Def(e, a);
      r := Done(x);
    } else {
      r := Call(f, a);
    }
  }

  /** The dispatch to the builtins that do not use the environment. */
  method Call(f: Builtin, a: Compound) returns (r: Outcome<Lval>)
    requires f != BEval && f != BDef && |a.cell| >= 1
    modifies a
    ensures r == Evaluator.Call(f, old(a.cell))
  {
    match f {
      case BList =>
        var x := BuiltinMethods.List(a);
        r := Done(x);
      case BFirst =>
        var x := BuiltinMethods.First(a);
        r := Done(x);
      case BRest =>
        var x := BuiltinMethods.Rest(a);
        r := Done(x);
      case BJoin =>
        var x := BuiltinMethods.Join(a);
        r := Done(x);
      case BCons => r := Builtins.Cons(a.cell);
      case BCount => r := Done(Builtins.Count(a.cell));
      case BAdd => r := BuiltinMethods.Operator(Builtins.Add, a);
      case BSub => r := BuiltinMethods.Operator(Builtins.Sub, a);
      case BMul => r := BuiltinMethods.Operator(Builtins.Mul, a);
      case BDiv => r := BuiltinMethods.Operator(Builtins.Div, a);
      case BPow => r := BuiltinMethods.Operator(Builtins.Pow, a);
    }
  }

  /** `builtin_eval`: the checks, then the one argument is taken, retagged as an
      S-expression and evaluated. */
  method EvalBuiltin(fuel: nat, e: Lenv, l: Compound) returns (r: Outcome<Lval>)
    requires e.Valid()
    modifies e, l
    ensures e.Valid() && e.Repr == old(e.Repr) && e.parent == old(e.parent)
    ensures Evaluator.Run(r, e.Chain()) == Evaluator.EvalBuiltin(fuel, old(e.Chain()), old(l.cell))
    decreases fuel, 1, 0
  {
    if |l.cell| != 1 {
      return Done(Err("Function 'eval' passed too many arguments"));
    }
    if !l.cell[0].Qexpr? {
      return Done(Err("Function 'eval' passed incorrect type"));
    }
    var x := l.Take(0);
    var c := new Compound.Of(x);
    c.kind := SexprKind;
    r := Eval(fuel, e, c.Value());
  }
}
