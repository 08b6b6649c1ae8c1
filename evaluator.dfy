/** The evaluation rules of `lval_eval` and `lval_eval_sexpr`, and the dispatch
    to the builtins, as functions of an environment chain.  Evaluation need not
    terminate (after `def {f} {eval f}`, `eval f` runs forever), so every entry
    into an S-expression spends one unit of `fuel`; running out is reported as
    `Stuck(OutOfFuel)` and is not a value of the C program. */
module Evaluator {
  import opened Values
  import opened Environment
  import Builtins

  /** An outcome together with the environment chain after the computation. */
  datatype Run<T> = Run(out: Outcome<T>, env: Env)

  /** The chains evaluation runs in: well formed, with a current frame. */
  predicate Ok(env: Env) { WellFormed(env) && |env| >= 1 }

  /** What evaluation may change: the current frame only, never a parent. */
  predicate Keeps(env: Env, env': Env) {
    |env| >= 1 && |env'| == |env| && WellFormed(env') && env'[1..] == env[1..]
  }

  /** An outcome that fuel did not cut short. */
  predicate Finished<T>(o: Outcome<T>) { o != Stuck(OutOfFuel) }

  /** `lval_eval`: a symbol is looked up, an S-expression is evaluated by
      `lval_eval_sexpr`, and any other value is its own result. */
  function Eval(fuel: nat, env: Env, v: Lval): (r: Run<Lval>)
    requires Ok(env)
    ensures Keeps(env, r.env)
    decreases fuel, 0, 0
  {
    match v
    case Sym(k) => Run(Done(Lookup(env, k)), env)
    case Sexpr(cs) =>
      if fuel == 0 then Run(Stuck(OutOfFuel), env) else EvalSexpr(fuel - 1, env, cs)
    case _ => Run(Done(v), env)
  }

  /** The first loop of `lval_eval_sexpr`: every child evaluated in turn, left
      to right, each in the environment the one before it left behind. */
  function EvalCells(fuel: nat, env: Env, cs: seq<Lval>): (r: Run<seq<Lval>>)
    requires Ok(env)
    ensures Keeps(env, r.env)
    ensures r.out.Done? ==> |r.out.val| == |cs|
    decreases fuel, 1, |cs|
  {
    if |cs| == 0 then Run(Done([]), env)
    else
      var n := |cs| - 1;
      var front := EvalCells(fuel, env, cs[..n]);
      if front.out.Stuck? then front
      else
        var last := Eval(fuel, front.env, cs[n]);
        if last.out.Stuck? then Run(Stuck(last.out.why), last.env)
        else Run(Done(front.out.val + [last.out.val]), last.env)
  }

  /** The index of the first error among `vs`, or `|vs|` when there is none. */
  function FirstError(vs: seq<Lval>): (i: nat)
    ensures i <= |vs|
    ensures i < |vs| ==> vs[i].Err?
    ensures forall j :: 0 <= j < i ==> !vs[j].Err?
  {
    if |vs| == 0 then 0
    else if vs[0].Err? then 0
    else 1 + FirstError(vs[1..])
  }

  /** `lval_eval_sexpr` on the children `cs`: evaluate them all, then `Reduce`
      the results. */
  function EvalSexpr(fuel: nat, env: Env, cs: seq<Lval>): (r: Run<Lval>)
    requires Ok(env)
    ensures Keeps(env, r.env)
    decreases fuel, 3, 0
  {
    var c := EvalCells(fuel, env, cs);
    if c.out.Stuck? then Run(Stuck(c.out.why), c.env)
    else Reduce(fuel, c.env, c.out.val)
  }

  /** The rest of `lval_eval_sexpr`, on the evaluated children `vs`: the first
      error among them wins; `()` stays as it is; a single child is the result;
      otherwise the head must be a builtin and is applied to the rest. */
  function Reduce(fuel: nat, env: Env, vs: seq<Lval>): (r: Run<Lval>)
    requires Ok(env)
    ensures Keeps(env, r.env)
    decreases fuel, 2, 1
  {
    var i := FirstError(vs);
    if i < |vs| then Run(Done(vs[i]), env)
    else if |vs| == 0 then Run(Done(Sexpr([])), env)
    else if |vs| == 1 then Run(Done(vs[0]), env)
    else if !vs[0].Fun? then Run(Done(Err("First element of S-expression is not a function")), env)
    else Apply(fuel, env, vs[0].fun, vs[1..])
  }

  /** `f->fun(e, v)`: the builtin a `Fun` value refers to, on the remaining
      children; `eval` and `def` use the environment, the others do not. */
  function Apply(fuel: nat, env: Env, f: Builtin, args: seq<Lval>): (r: Run<Lval>)
    requires Ok(env) && |args| >= 1
    ensures Keeps(env, r.env)
    decreases fuel, 2, 0
  {
    match f
    case BEval => EvalBuiltin(fuel, env, args)
    case BDef =>
      var (x, env') := Builtins.Def(env, args);
      Run(Done(x), env')
    case _ => Run(Call(f, args), env)
  }

  /** The builtins that neither evaluate nor bind. */
  function Call(f: Builtin, args: seq<Lval>): Outcome<Lval>
    requires f != BEval && f != BDef && |args| >= 1
  {
    match f
    case BList => Done(Builtins.List(args))
    case BFirst => Done(Builtins.First(args))
    case BRest => Done(Builtins.Rest(args))
    case BJoin => Done(Builtins.Join(args))
    case BCons => Builtins.Cons(args)
    case BCount => Done(Builtins.Count(args))
    case BAdd => Builtins.Operator(Builtins.Add, args)
    case BSub => Builtins.Operator(Builtins.Sub, args)
    case BMul => Builtins.Operator(Builtins.Mul, args)
    case BDiv => Builtins.Operator(Builtins.Div, args)
    case BPow => Builtins.Operator(Builtins.Pow, args)
  }

  /** `builtin_eval`: exactly one Q-expression argument, which is retagged as
      an S-expression and evaluated. */
  function EvalBuiltin(fuel: nat, env: Env, args: seq<Lval>): (r: Run<Lval>)
    requires Ok(env)
    ensures Keeps(env, r.env)
    decreases fuel, 1, 0
  {
    if |args| != 1 then Run(Done(Err("Function 'eval' passed too many arguments")), env)
    else if !args[0].Qexpr? then Run(Done(Err("Function 'eval' passed incorrect type")), env)
    else Eval(fuel, env, Sexpr(args[0].cell))
  }

  // ---------------------------------------------------------------------------
  // Properties

  /** Only S-expressions spend fuel or may fail to finish: a number, an error,
      a Q-expression or a builtin evaluates to itself and a symbol to its
      lookup, whatever the fuel, and the environment stays as it was. */
  lemma EvalLeaf(fuel: nat, env: Env, v: Lval)
    requires Ok(env) && !v.Sexpr?
    ensures Eval(fuel, env, v) == Run(Done(if v.Sym? then Lookup(env, v.sym) else v), env)
  {
  }

  /** Values that evaluate to themselves without touching the environment. */
  predicate Inert(v: Lval) { v.Num? || v.Err? || v.Qexpr? || v.Fun? }

  /** Children that are all numbers, errors, Q-expressions or builtins are
      their own evaluation, at any fuel. */
  lemma {:induction false} EvalCellsInert(fuel: nat, env: Env, cs: seq<Lval>)
    requires Ok(env) && forall i :: 0 <= i < |cs| ==> Inert(cs[i])
    ensures EvalCells(fuel, env, cs) == Run(Done(cs), env)
    decreases |cs|
  {
    if |cs| > 0 {
      var n := |cs| - 1;
      EvalCellsInert(fuel, env, cs[..n]);
      assert cs[..n] + [cs[n]] == cs;
    }
  }

  /** One more child evaluated: the list of values grows by that child's value,
      or the evaluation stops with its outcome. */
  lemma CellsStep(fuel: nat, env: Env, cs: seq<Lval>, i: nat, vals: seq<Lval>, mid: Env)
    requires Ok(env) && i < |cs| && EvalCells(fuel, env, cs[..i]) == Run(Done(vals), mid)
    ensures var last := Eval(fuel, mid, cs[i]);
            last.out.Stuck? ==> EvalCells(fuel, env, cs[..i + 1]) == Run(Stuck(last.out.why), last.env)
    ensures var last := Eval(fuel, mid, cs[i]);
            last.out.Done? ==> EvalCells(fuel, env, cs[..i + 1]) == Run(Done(vals + [last.out.val]), last.env)
  {
    assert cs[..i + 1][..i] == cs[..i] && cs[..i + 1][i] == cs[i];
  }

  /** Evaluation of the children stops at the first one that does not finish:
      once a prefix is stuck, so is the whole list, with the same outcome. */
  lemma {:induction false} CellsStuckPrefix(fuel: nat, env: Env, cs: seq<Lval>, j: nat)
    requires Ok(env) && j <= |cs| && EvalCells(fuel, env, cs[..j]).out.Stuck?
    ensures EvalCells(fuel, env, cs) == EvalCells(fuel, env, cs[..j])
    decreases |cs| - j
  {
    if j < |cs| {
      assert cs[..j + 1][..j] == cs[..j];
      CellsStuckPrefix(fuel, env, cs, j + 1);
    } else {
      assert cs[..j] == cs;
    }
  }

  /** An S-expression whose children are already values: the lowest-index error
      wins; otherwise `()` is itself, one child is that child, more than one
      needs a builtin at the head, which is applied to the others. */
  lemma SexprOfValues(fuel: nat, env: Env, cs: seq<Lval>)
    requires Ok(env) && forall i :: 0 <= i < |cs| ==> Inert(cs[i])
    ensures var r := EvalSexpr(fuel, env, cs);
            var i := FirstError(cs);
            (i < |cs| ==> r == Run(Done(cs[i]), env)) &&
            (i == |cs| && |cs| == 0 ==> r == Run(Done(Sexpr([])), env)) &&
            (i == |cs| && |cs| == 1 ==> r == Run(Done(cs[0]), env)) &&
            (i == |cs| && |cs| >= 2 && !cs[0].Fun? ==>
               r == Run(Done(Err("First element of S-expression is not a function")), env)) &&
            (i == |cs| && |cs| >= 2 && cs[0].Fun? ==> r == Apply(fuel, env, cs[0].fun, cs[1..]))
  {
    EvalCellsInert(fuel, env, cs);
  }

  /** `eval {...}` is the quoted list evaluated as an S-expression, one level of
      fuel further down. */
  lemma EvalQuoted(fuel: nat, env: Env, cs: seq<Lval>)
    requires Ok(env)
    ensures Eval(fuel + 1, env, Sexpr([Fun(BEval), Qexpr(cs)])) == Eval(fuel, env, Sexpr(cs))
  {
    var outer := [Fun(BEval), Qexpr(cs)];
    SexprInert(fuel, env, outer);
    assert FirstError(outer) == 2;
    assert Reduce(fuel, env, outer) == EvalBuiltin(fuel, env, [Qexpr(cs)]);
  }

  /** The children of an S-expression that are values need no evaluation. */
  lemma SexprInert(fuel: nat, env: Env, cs: seq<Lval>)
    requires Ok(env) && forall i :: 0 <= i < |cs| ==> Inert(cs[i])
    ensures EvalSexpr(fuel, env, cs) == Reduce(fuel, env, cs)
  {
    EvalCellsInert(fuel, env, cs);
  }

  /** Two children, the first a value: only the second is evaluated. */
  lemma CellsPair(fuel: nat, env: Env, a: Lval, b: Lval)
    requires Ok(env) && Inert(a)
    ensures var r := Eval(fuel, env, b);
            r.out.Stuck? ==> EvalCells(fuel, env, [a, b]) == Run(Stuck(r.out.why), r.env)
    ensures var r := Eval(fuel, env, b);
            r.out.Done? ==> EvalCells(fuel, env, [a, b]) == Run(Done([a, r.out.val]), r.env)
  {
    var cs := [a, b];
    assert cs[..1] == [a] && cs[..2] == cs && cs[1] == b;
    EvalCellsInert(fuel, env, [a]);
    CellsStep(fuel, env, cs, 1, [a], env);
    var r := Eval(fuel, env, b);
    if r.out.Done? {
      assert [a] + [r.out.val] == [a, r.out.val];
    }
  }

  /** `list` then `eval` undo each other: evaluating `(eval (list ...))` with
      at least one child, each a value, is evaluating those children directly.
      When some child is an error, both give the first error. */
  lemma EvalOfList(fuel: nat, env: Env, cs: seq<Lval>)
    requires Ok(env) && |cs| >= 1
    requires forall i :: 0 <= i < |cs| ==> Inert(cs[i])
    ensures Eval(fuel + 2, env, Sexpr([Fun(BEval), Sexpr([Fun(BList)] + cs)]))
            == Eval(fuel + 1, env, Sexpr(cs))
  {
    var inner := [Fun(BList)] + cs;
    assert forall i :: 0 <= i < |inner| ==> Inert(inner[i]);
    assert inner[1..] == cs;
    SexprInert(fuel, env, inner);
    SexprInert(fuel, env, cs);
    var j := FirstError(cs);
    assert FirstError(inner) == 1 + j;
    if j < |cs| {
      assert inner[1 + j] == cs[j];
      assert Eval(fuel + 1, env, Sexpr(inner)) == Run(Done(cs[j]), env);
      ErrorUnderEval(fuel, env, Sexpr(inner), cs[j]);
    } else {
      assert Eval(fuel + 1, env, Sexpr(inner)) == Run(Done(Qexpr(cs)), env);
      QuotedUnderEval(fuel, env, Sexpr(inner), cs);
    }
  }

  /** `(eval x)` where `x` evaluates to an error is that error, in the chain
      the evaluation of `x` left behind. */
  lemma ErrorUnderEval(fuel: nat, env: Env, x: Lval, err: Lval)
    requires Ok(env) && err.Err? && Eval(fuel + 1, env, x).out == Done(err)
    ensures var r := Eval(fuel + 1, env, x);
            Eval(fuel + 2, env, Sexpr([Fun(BEval), x])) == Run(Done(err), r.env)
  {
    var r := Eval(fuel + 1, env, x);
    CellsPair(fuel + 1, env, Fun(BEval), x);
    assert FirstError([Fun(BEval), err]) == 1;
    assert EvalSexpr(fuel + 1, env, [Fun(BEval), x]) == Reduce(fuel + 1, r.env, [Fun(BEval), err]);
  }

  /** `(eval x)` where `x` evaluates to `{cs}` is `cs` evaluated as an
      S-expression, in the chain the evaluation of `x` left behind. */
  lemma QuotedUnderEval(fuel: nat, env: Env, x: Lval, cs: seq<Lval>)
    requires Ok(env) && Eval(fuel + 1, env, x).out == Done(Qexpr(cs))
    ensures var r := Eval(fuel + 1, env, x);
            Eval(fuel + 2, env, Sexpr([Fun(BEval), x])) == Eval(fuel + 1, r.env, Sexpr(cs))
  {
    var r := Eval(fuel + 1, env, x);
    CellsPair(fuel + 1, env, Fun(BEval), x);
    assert FirstError([Fun(BEval), Qexpr(cs)]) == 2;
    assert Reduce(fuel + 1, r.env, [Fun(BEval), Qexpr(cs)]) == EvalBuiltin(fuel + 1, r.env, [Qexpr(cs)]);
  }

  /** A list holding just a builtin is not a call: `(list)` evaluates to the
      builtin itself, so `(eval (list))` is the "incorrect type" error. */
  lemma LoneBuiltin(fuel: nat, env: Env)
    requires Ok(env)
    ensures Eval(fuel + 1, env, Sexpr([Fun(BList)])) == Run(Done(Fun(BList)), env)
    ensures Eval(fuel + 2, env, Sexpr([Fun(BEval), Sexpr([Fun(BList)])])).out
            == Done(Err("Function 'eval' passed incorrect type"))
  {
    SexprInert(fuel, env, [Fun(BList)]);
    assert FirstError([Fun(BList)]) == 1;
    assert Eval(fuel + 1, env, Sexpr([Fun(BList)])) == Run(Done(Fun(BList)), env);
    CellsPair(fuel + 1, env, Fun(BEval), Sexpr([Fun(BList)]));
    assert FirstError([Fun(BEval), Fun(BList)]) == 2;
    assert Reduce(fuel + 1, env, [Fun(BEval), Fun(BList)]) == EvalBuiltin(fuel + 1, env, [Fun(BList)]);
  }

  /** After `(def {k} x)` where `x` evaluates to a value `w` that is not an
      error, the `def` returns `()` and evaluating the symbol `k` yields `w`. */
  lemma DefThenLookup(fuel: nat, env: Env, k: string, x: Lval)
    requires Ok(env)
    ensures var w := Eval(fuel, env, x);
            var r := Eval(fuel + 1, env, Sexpr([Fun(BDef), Qexpr([Sym(k)]), x]));
            w.out.Done? && !w.out.val.Err? ==>
              r.out == Done(Sexpr([])) && Eval(0, r.env, Sym(k)).out == Done(w.out.val)
  {
    var w := Eval(fuel, env, x);
    if w.out.Done? && !w.out.val.Err? {
      var cs := [Fun(BDef), Qexpr([Sym(k)]), x];
      var vs := [Fun(BDef), Qexpr([Sym(k)]), w.out.val];
      DefCells(fuel, env, k, x);
      assert EvalSexpr(fuel, env, cs) == Reduce(fuel, w.env, vs);
      DefReduce(fuel, w.env, k, w.out.val);
    }
  }

  /** The children of `(def {k} x)`: the two literals, then the value of `x`. */
  lemma DefCells(fuel: nat, env: Env, k: string, x: Lval)
    requires Ok(env)
    ensures var w := Eval(fuel, env, x);
            w.out.Done? ==>
              EvalCells(fuel, env, [Fun(BDef), Qexpr([Sym(k)]), x])
              == Run(Done([Fun(BDef), Qexpr([Sym(k)]), w.out.val]), w.env)
  {
    var cs := [Fun(BDef), Qexpr([Sym(k)]), x];
    assert cs[..2] == [Fun(BDef), Qexpr([Sym(k)])] && cs[..3] == cs && cs[2] == x;
    EvalCellsInert(fuel, env, cs[..2]);
    CellsStep(fuel, env, cs, 2, cs[..2], env);
    var w := Eval(fuel, env, x);
    if w.out.Done? {
      assert cs[..2] + [w.out.val] == [Fun(BDef), Qexpr([Sym(k)]), w.out.val];
    }
  }

  /** Reducing the evaluated `(def {k} w)` returns `()` and binds `k` to `w`. */
  lemma DefReduce(fuel: nat, env: Env, k: string, w: Lval)
    requires Ok(env) && !w.Err?
    ensures var r := Reduce(fuel, env, [Fun(BDef), Qexpr([Sym(k)]), w]);
            r.out == Done(Sexpr([])) && Eval(0, r.env, Sym(k)).out == Done(w)
  {
    var vs := [Fun(BDef), Qexpr([Sym(k)]), w];
    assert FirstError(vs) == 3 by {
      assert forall i :: 0 <= i < 3 ==> !vs[i].Err?;
    }
    var args := vs[1..];
    assert args == [Qexpr([Sym(k)]), w];
    assert Reduce(fuel, env, vs) == Apply(fuel, env, BDef, args);
    assert Builtins.DefArgsOk(args);
    Builtins.DefBinds(env, args);
    assert Builtins.LastOf([Sym(k)], 0);
  }

  // ---------------------------------------------------------------------------
  // More fuel changes nothing once evaluation finishes

  lemma {:induction false} EvalMonotone(fuel: nat, more: nat, env: Env, v: Lval)
    requires Ok(env) && fuel <= more && Finished(Eval(fuel, env, v).out)
    ensures Eval(more, env, v) == Eval(fuel, env, v)
    decreases fuel, 0, 0
  {
    if v.Sexpr? {
      SexprMonotone(fuel - 1, more - 1, env, v.cell);
    }
  }

  lemma {:induction false} CellsMonotone(fuel: nat, more: nat, env: Env, cs: seq<Lval>)
    requires Ok(env) && fuel <= more && Finished(EvalCells(fuel, env, cs).out)
    ensures EvalCells(more, env, cs) == EvalCells(fuel, env, cs)
    decreases fuel, 1, |cs|
  {
    if |cs| > 0 {
      var n := |cs| - 1;
      var front := EvalCells(fuel, env, cs[..n]);
      CellsMonotone(fuel, more, env, cs[..n]);
      if front.out.Done? {
        EvalMonotone(fuel, more, front.env, cs[n]);
      }
    }
  }

  lemma {:induction false} SexprMonotone(fuel: nat, more: nat, env: Env, cs: seq<Lval>)
    requires Ok(env) && fuel <= more && Finished(EvalSexpr(fuel, env, cs).out)
    ensures EvalSexpr(more, env, cs) == EvalSexpr(fuel, env, cs)
    decreases fuel, 3, 0
  {
    var c := EvalCells(fuel, env, cs);
    CellsMonotone(fuel, more, env, cs);
    if c.out.Done? {
      var vs := c.out.val;
      if FirstError(vs) == |vs| && |vs| >= 2 && vs[0].Fun? {
        assert Reduce(fuel, c.env, vs) == Apply(fuel, c.env, vs[0].fun, vs[1..]);
        ApplyMonotone(fuel, more, c.env, vs[0].fun, vs[1..]);
      }
      assert Reduce(more, c.env, vs) == Reduce(fuel, c.env, vs);
    }
  }

  lemma {:induction false} ApplyMonotone(fuel: nat, more: nat, env: Env, f: Builtin, args: seq<Lval>)
    requires Ok(env) && |args| >= 1 && fuel <= more && Finished(Apply(fuel, env, f, args).out)
    ensures Apply(more, env, f, args) == Apply(fuel, env, f, args)
    decreases fuel, 2, 0
  {
    if f == BEval {
      BuiltinMonotone(fuel, more, env, args);
    }
  }

  lemma {:induction false} BuiltinMonotone(fuel: nat, more: nat, env: Env, args: seq<Lval>)
    requires Ok(env) && fuel <= more && Finished(EvalBuiltin(fuel, env, args).out)
    ensures EvalBuiltin(more, env, args) == EvalBuiltin(fuel, env, args)
    decreases fuel, 1, 0
  {
    if |args| == 1 && args[0].Qexpr? {
      EvalMonotone(fuel, more, env, Sexpr(args[0].cell));
    }
  }
}
