# A verified model of a small Lisp interpreter's core

The interpreter reads Lisp-style expressions and evaluates them against an
environment of builtin procedures. This project models its core in Dafny and
proves properties of that model. The core is three C files:

- **The value model and the evaluator (`lval.c`).** An `lval` is a tagged value:
  a number, an error, a symbol, an S-expression (a list to evaluate), a
  Q-expression (a quoted list) or a builtin function.
  - Lists keep their children in an array that `lval_add`, `lval_pop`,
    `lval_take` and `lval_join` edit in place.
  - `lval_copy` copies a value deeply, and `lval_print` prints it.
  - `lval_eval` and `lval_eval_sexpr` are the evaluation rules. To evaluate an
    S-expression they evaluate every child, left to right, then apply these
    rules in order:
    1. the first error among the children wins;
    2. `()` stays as it is;
    3. a single child is the result;
    4. otherwise the head must be a builtin, which is applied to the rest.
- **The environment (`lenv.c`).** Frames hold parallel arrays of names and
  values and link to a parent frame.
  - `lenv_get` looks a name up through the chain of parents.
  - `lenv_put` binds in the current frame and `lenv_def` binds in the root frame.
  - `lenv_copy` clones a frame.
- **The builtins (`builtin.c`).** These are the integer operators `+ - * / ^`,
  the list procedures `list`, `first`, `rest`, `join`, `count` and `eval`,
  `def`, and the argument checks of `cons`. Every failed check returns an error
  value.

Each C file is modelled in the form it takes in the C code.

- **Pure functions.** `Values`, `Environment` (its `Frame`/`Env` part),
  `Builtins` and `Evaluator` describe values, copying, printing, lookup,
  binding, every builtin and the evaluation rules as functions. The lemmas
  prove the properties the program promises about them.
- **Imperative code, as classes and methods.**
  - `Cells.Compound` is a list whose child sequence is edited in place.
  - `Environment.Lenv` is a frame with a parent link, whose parallel `syms`
    and `vals` sequences are updated by `Put`'s scan loop.
  - `BuiltinMethods` runs `+ - * / ^`, `first`, `rest`, `list`, `join` and
    `def` by popping and joining in place, as the C code does. `count` and
    `cons` are run by `Interpreter.Call` through their `Builtins` functions,
    and `eval` by `Interpreter.EvalBuiltin`.
  - `Interpreter` overwrites each child of an S-expression by its value and
    then pops the head.

  Each method is proved to compute what its function states, on the outcome
  and on the whole chain of frames.

The model makes the following choices:

- **Numbers** are mathematical integers.
- **Division** is C's: the quotient is truncated toward zero (`CDiv`).
- **Builtin functions** are an enumeration, `Builtin`. A C `Fun` holds a
  function pointer, and those are compared and copied by identity.
- **Fuel.** Evaluation need not terminate: after `def {f} {eval f}`,
  evaluating `eval f` runs forever. So every entry into an S-expression spends
  one unit of fuel. Running out gives `Stuck(OutOfFuel)`, and
  `Evaluator.EvalMonotone` proves that more fuel never changes a finished
  result.
- **Models that stop.** Where the program reaches behaviour the model does not
  describe, the outcome is `Stuck(Unmodelled)`. This happens in two places:
  the body of `cons` after its argument checks, and `^` when it raises 0 to a
  negative power.
- **`^`.** The C code stores `powl(x, y)` back into a `long`. The model gives
  the exact power for y ≥ 0, and for y < 0 the real power truncated toward
  zero (`Builtins.PowLong`).

In three places the code does something that is easy to misread; the model follows the code:

- `lval_eval_sexpr` evaluates every child before it looks for an error. A
  child's error therefore does not stop later children from being evaluated,
  and a `def` among them still binds.
- `lenv_put` overwrites every binding of the name in the frame, not just the
  first, because its scan loop has no `break`. It then always appends a new
  binding, because the overwrite path does not return.
- `(list)`, a list holding only a builtin, is not a call. It unwraps to the
  builtin itself (`Evaluator.LoneBuiltin`).

## Model

| member | source | states |
|---|---|---|
| Values.Copy | lval.c:138-166 | the copy has the same tag and payload as the original: equal number, message or name, the same builtin, and the same children |
| Values.IntToStringRoundTrip | lval.c:127 | the `%li` text of a number reads back as that number, so printing loses nothing |
| Values.SpacedIsJoin | lval.c:114-120 | the print loop (each child, then a space unless it is the last) is the usual join with one space |
| Values.PrintList | lval.c:111-123 | a printed list is its open bracket, the children's printed forms separated by exactly one space, and its close bracket: `()` for an S-expression, `{}` for a Q-expression |
| Values.PrintLeaf | lval.c:125-134 | a number prints as its decimal text, an error as "Error: " then the message, a symbol as its name, a builtin as "<function>" |
| Cells.Compound.Empty | lval.c:32-38 | `lval_sexpr` and `lval_qexpr` (lval.c:454-460) give a list of the requested kind with no children |
| Cells.Compound.Add | lval.c:104-109 | the count grows by one, `x` is the new last child, and the earlier children are unchanged |
| Cells.Compound.Pop | lval.c:210-221 | returns old child i; the other children keep their order and the count drops by one |
| Cells.Compound.Take | lval.c:224-228 | returns exactly old child i |
| Cells.Compound.Join | lval.c:392-398 | x holds its own children followed by y's children, in order, and y is left empty |
| Environment.IndexOf | lenv.c:29-33 | the position of the first entry of a name in a frame, or the frame's size when the name is absent |
| Environment.LookupFirst | lenv.c:27-37 | lookup finds the value of the first binding of the name in the lowest frame that binds it, so a current binding shadows its parents' |
| Environment.LookupUnbound | lenv.c:36 | a name bound in no frame of the chain gives the error "Unbound symbol " followed by the name |
| Environment.PutFrame | lenv.c:40-58 | binding in a frame always adds exactly one entry |
| Environment.PutEnv | lenv.c:40-58 | `lenv_put` keeps the chain well formed and its length, and leaves every parent frame as it was |
| Environment.DefEnv | lenv.c:77-80 | `lenv_def` keeps the chain well formed and its length, and leaves every frame below the root as it was |
| Environment.PutFrameGet | lenv.c:42-57 | after a put, the frame's first entry for the name holds the new value |
| Environment.PutFrameOther | lenv.c:40-58 | a put leaves unchanged whether any other name is bound in the frame, the position of its first entry, and that entry's value |
| Environment.PutGet | lenv.c:40-58 | after `lenv_put(e, k, v)`, looking up `k` from `e` gives `v` |
| Environment.PutOther | lenv.c:40-58 | `lenv_put` does not change the lookup of any other name, and it leaves the parents alone |
| Environment.PutFrameCoherent | lenv.c:42-48 | because every old binding of the name is overwritten, all bindings of a name in a frame keep holding the same value |
| Environment.DefGet | lenv.c:77-80 | after `lenv_def`, looking up `k` gives `v` when no frame below the root binds `k`; otherwise the shadowing binding still wins |
| Environment.DefOther | lenv.c:77-80 | `lenv_def` does not change the lookup of any other name |
| Environment.Lenv.constructor | lenv.c:5-12 | `lenv_new` gives a frame with no bindings and no parent |
| Environment.Lenv.Get | lenv.c:27-37 | the loop over the frame and then the recursion into the parent give the lookup of the chain |
| Environment.Lenv.Put | lenv.c:40-58 | only the current frame changes, and it changes into the functional put; the parent link and the chain's invariant are kept |
| Environment.Lenv.Copy | lenv.c:60-74 | a fresh frame with the same parent and the same names in the same order, bound to equal values, so it has the same chain |
| Environment.Lenv.Def | lenv.c:77-80 | the chain afterwards is the chain before with the put done in the root frame; every frame keeps its parent link and footprint, every frame except the root keeps its names and values, and every frame of the old chain stays valid and sees the def in its own chain |
| Environment.Lenv.Root | lenv.c:78 | the walk up the parent links ends at the last frame of the chain |
| Environment.Lenv.PutRoot | lenv.c:79 | the put in the root keeps the chain of frame objects linked as before and turns its frames into `DefEnv` of the old frames |
| Environment.DefSeenAlongPath | lenv.c:77-80 | since frames are shared, each frame between the current one and the root sees the def in its own chain |
| Builtins.CDivTruncates | builtin.c:98 | `/` on `long` truncates toward zero: the remainder is smaller than the divisor in magnitude and is zero or has the dividend's sign |
| Builtins.FoldIsLeftFold | builtin.c:85-102 | the pop loop of `+ - * /` without a zero divisor accumulates the left fold of the operands, in order |
| Builtins.OperatorLeftFold | builtin.c:78-102 | with two or more numbers, `+ - * /` give ((a0 op a1) op a2) ... |
| Builtins.OperatorSingle | builtin.c:81-83 | with a single operand, `-` negates it and the other operators return it |
| Builtins.OperatorRejects | builtin.c:70-75 | the result is the "Cannot operate on a non-number" error exactly when some argument is not a number |
| Builtins.FoldNeverRejects | builtin.c:85-102 | the arithmetic loop never produces the non-number error |
| Builtins.DivByZero | builtin.c:92-98 | on numbers, `/` gives "can't divide by zero" exactly when some divisor is zero |
| Builtins.DivFold | builtin.c:92-98 | the division loop stops with that error exactly when a zero divisor is reached |
| Builtins.LeftFoldSum | builtin.c:88 | the `+` fold is the first operand plus the sum of the others |
| Builtins.LeftFoldDifference | builtin.c:89 | the `-` fold is the first operand minus the sum of the others |
| Builtins.LeftFoldProduct | builtin.c:90 | the `*` fold is the first operand times the product of the others |
| Builtins.PowTower | builtin.c:91 | `^` with non-negative exponents folds like powers: `(^ a b c)` is a to the power b * c |
| Builtins.PowLongTruncates | builtin.c:91 | for a negative exponent the stored `powl` result is the real power truncated toward zero |
| Builtins.List | builtin.c:135-138 | `count` of a `list` result is the number of arguments, and for one or more arguments its `first` is a Q-expression holding just the first argument and its `rest` a Q-expression of the others |
| Builtins.ListJoin | builtin.c:135-162 | `join` of two `list` results is the `list` of both argument sequences, one after the other |
| Builtins.FirstRestGuard | builtin.c:110-112 | `first` and `rest` (checks at builtin.c:124-126) return a list exactly when given one non-empty Q-expression, and an error otherwise |
| Builtins.FirstRestJoin | builtin.c:114-132 | `first` gives a Q-expression holding only the head and `rest` the children after it; joining the two gives back the argument |
| Builtins.JoinAssociative | builtin.c:149-162 | `join` of Q-expressions is the concatenation of their children, left to right, so it is associative |
| Builtins.JoinRejects | builtin.c:150-152 | `join` is an error exactly when some argument is not a Q-expression, and the error is "Function 'join' passed incorrect type" |
| Builtins.CountJoinRest | builtin.c:185-190 | `count` is the number of children: the count of a join is the sum of the counts, and `rest` lowers the count by one |
| Builtins.ConsGuard | builtin.c:165-168 | `cons` returns an error value exactly when its arguments are not one number followed by one Q-expression |
| Builtins.PutAll | builtin.c:207-209 | the binding loop of `def` changes only the current frame |
| Builtins.PutAllLast | builtin.c:207-209 | after that loop, a symbol's value is the value paired with its last occurrence |
| Builtins.PutAllOther | builtin.c:207-209 | after that loop, a name that is not among the symbols looks up as before |
| Builtins.DefBinds | builtin.c:192-215 | a failed check returns an error and binds nothing; after checks that pass, `def` returns `()`, each symbol looks up to the value paired with its last occurrence, and other names are unchanged |
| BuiltinMethods.Operator | builtin.c:69-106 | the type check, then popping the operands into the accumulator, gives the outcome of `Builtins.Operator` |
| BuiltinMethods.First | builtin.c:108-120 | taking the argument and deleting every child after the head gives `Builtins.First` |
| BuiltinMethods.Rest | builtin.c:122-133 | taking the argument and popping its head gives `Builtins.Rest` |
| BuiltinMethods.List | builtin.c:135-138 | retagging in place keeps the children, makes the list a Q-expression, and gives `Builtins.List` |
| BuiltinMethods.Join | builtin.c:149-162 | the type check, then popping and joining each argument onto the first, gives `Builtins.Join` |
| BuiltinMethods.JoinEach | builtin.c:156-158 | the join loop appends the children of every remaining argument, in order |
| BuiltinMethods.Def | builtin.c:192-215 | the checks and the `lenv_put` loop give the result and the new chain of `Builtins.Def` |
| BuiltinMethods.Bind | builtin.c:207-209 | a put of symbol i to value i, in order, gives the chain of `Builtins.PutAll` |
| Evaluator.Eval | lval.c:199-207 | evaluating a value changes at most the current frame and never the parents |
| Evaluator.EvalSexpr | lval.c:168-196 | evaluating an S-expression changes at most the current frame; its cases are stated in `Evaluator.SexprOfValues` |
| Evaluator.Reduce | lval.c:175-195 | the checks after the children are evaluated change at most the current frame |
| Evaluator.Apply | lval.c:193 | applying a builtin changes at most the current frame |
| Evaluator.EvalBuiltin | builtin.c:140-147 | `eval` changes at most the current frame; on a Q-expression it is stated in `Evaluator.EvalQuoted` |
| Evaluator.EvalCells | lval.c:170-172 | evaluating the children gives one value per child |
| Evaluator.FirstError | lval.c:175-177 | the lowest index whose child is an error, or the number of children when none is |
| Evaluator.EvalLeaf | lval.c:199-207 | a number, error, Q-expression or builtin is its own value, a symbol gives its lookup, and the environment stays as it was |
| Evaluator.EvalCellsInert | lval.c:170-172 | children that are already values evaluate to themselves |
| Evaluator.CellsStep | lval.c:170-172 | each step of the children loop appends the next child's value, or stops with its outcome |
| Evaluator.CellsStuckPrefix | lval.c:170-172 | once a child does not finish, the whole loop ends with that outcome |
| Evaluator.SexprOfValues | lval.c:168-196 | for evaluated children: the lowest-index error wins; else `()` is itself; else one child is that child; else a non-function head is the "First element of S-expression is not a function" error; else the head's builtin is applied to the rest |
| Evaluator.SexprInert | lval.c:168-196 | an S-expression whose children are values goes straight to the error, arity and head checks |
| Evaluator.CellsPair | lval.c:170-172 | with two children, the first already a value, only the second is evaluated |
| Evaluator.EvalQuoted | builtin.c:140-147 | `(eval {...})` evaluates the quoted list as an S-expression |
| Evaluator.EvalOfList | builtin.c:135-147 | `(eval (list ...))` over one or more values is the evaluation of those values as an S-expression; when one of them is an error, both give the first error |
| Evaluator.ErrorUnderEval | builtin.c:140-147 | an argument of `eval` that evaluates to an error makes `(eval ...)` that error, in whatever chain the argument's evaluation left |
| Evaluator.QuotedUnderEval | builtin.c:140-147 | an argument of `eval` that evaluates to a Q-expression makes `(eval ...)` the evaluation of its children as an S-expression, in whatever chain the argument's evaluation left |
| Evaluator.LoneBuiltin | lval.c:183 | `(list)` unwraps to the builtin itself, so `(eval (list))` is the "Function 'eval' passed incorrect type" error |
| Evaluator.DefThenLookup | builtin.c:192-215 | after `(def {k} x)` where `x` evaluates to a non-error value `w`, the `def` returns `()` and evaluating `k` gives `w` |
| Evaluator.DefCells | lval.c:170-172 | the children of `(def {k} x)` evaluate to the two literals and the value of `x`, in the chain that evaluation left |
| Evaluator.DefReduce | builtin.c:192-215 | the evaluated `(def {k} w)` returns `()`, and afterwards `k` looks up to `w` |
| Evaluator.EvalMonotone | lval.c:199-207 | once an evaluation finishes, more fuel gives the same result and environment |
| Evaluator.CellsMonotone | lval.c:170-172 | the same for the children loop |
| Evaluator.SexprMonotone | lval.c:168-196 | the same for S-expressions |
| Evaluator.ApplyMonotone | lval.c:193 | the same for applying a builtin |
| Evaluator.BuiltinMonotone | builtin.c:140-147 | the same for `eval` |
| Interpreter.Eval | lval.c:199-207 | in-place evaluation on the linked frames gives the outcome and chain of `Evaluator.Eval` |
| Interpreter.EvalSexpr | lval.c:168-196 | overwriting the children in place and then reducing gives `Evaluator.EvalSexpr` |
| Interpreter.EvalChildren | lval.c:170-172 | the loop leaves each child overwritten by its value, giving `Evaluator.EvalCells` |
| Interpreter.EvalChild | lval.c:171 | one child replaced by its value, and nothing else in the list changed |
| Interpreter.FindError | lval.c:175-177 | the scan for errors returns `Evaluator.FirstError` |
| Interpreter.Reduce | lval.c:175-195 | taking the error, `()`, unwrapping one child, or popping the head and applying it gives `Evaluator.Reduce` |
| Interpreter.Apply | lval.c:193 | calling the head's builtin gives `Evaluator.Apply` |
| Interpreter.Call | lval.c:193 | dispatch to the builtins that use no environment gives `Evaluator.Call` |
| Interpreter.EvalBuiltin | builtin.c:140-147 | the checks, then taking the argument, retagging it as an S-expression and evaluating it, give `Evaluator.EvalBuiltin` |

## Left out

- The REPL, `readline` and history, the mpc grammar and console output (parsing.c) are left out. They are I/O and a foreign parser library.
- `lval_read` and `lval_read_num` (lval.c:69-102) are left out. They walk the syntax tree of a parser library that is not shown, and they use `strtol` and `errno`.
- linkedlist.c is left out. It is a standalone program unrelated to the interpreter.
- Memory management is left out: `malloc`, `realloc`, `free`, `lval_del` and `lenv_del`.
  - Values are Dafny datatypes, so copies are equal values and strings are sequences.
  - The allocation defects are not modelled: the symbol buffer sized with `sizeof` (lval.c:26), and `lval_del` never freeing the child array.
- Pointer aliasing between values is left out. A list's children are Dafny values, and a `Compound` object is created for each list the code edits.
- Builtins.Cons: only the argument checks of `builtin_cons` are modelled. After them the outcome is `Stuck(Unmodelled)`, because the C code overruns the child array and aliases two children.
- Builtins.PowLong: assumes `powl` returns the exact power whenever that power is representable. It does not model rounding of powers that do not fit a `long`. Raising 0 to a negative power is `Stuck(Unmodelled)`, because converting infinity to `long` is undefined.
- Builtins.Operator: uses mathematical integers, not 64-bit `long`, so overflow and its undefined behaviour are not modelled.
- Environment.Unbound: the C call passes the name as a second argument to the one-argument `lval_err` (lenv.c:36). The model uses the message evidently intended, "Unbound symbol " followed by the name.
- Evaluator.Eval: the fuel bound is not part of the program. An evaluation that runs out of fuel is `Stuck(OutOfFuel)`, which stands for non-termination or a deeper evaluation than the fuel allows.
- Evaluator.EvalOfList: needs at least one child, since `(list)` unwraps to the builtin itself (see `Evaluator.LoneBuiltin`).
- The `builtin(e, a, func)` name dispatcher (builtin.c:36-47) is left out. The evaluator never calls it.
- `lenv_add_builtin` and `lenv_add_builtins` (builtin.c:7-34) are left out. They only register names. The model instead treats a `Fun` value as naming its builtin directly.
- The builtins that builtin.h only declares are left out, and so are its formatted-error macros. No bodies are shown for them.
- The second `lenv` in lval.c:462-510 is left out, along with the parentless `struct lenv` in lval.h. The model follows lenv.c.
