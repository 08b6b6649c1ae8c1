/** A heap-allocated S- or Q-expression whose child array (`cell`) is edited
    in place: `lval_add`, `lval_pop`, `lval_take` and `lval_join`.  The child
    count of the C struct is the length of `cell`. */
module Cells {
  import opened Values

  datatype ListKind = SexprKind | QexprKind

  class Compound {
    var kind: ListKind
    var cell: seq<Lval>

    /** The list value this object currently holds. */
    function Value(): (v: Lval)
      reads this
      ensures v.IsList() && v.cell == cell
      ensures v.Sexpr? <==> kind == SexprKind
    {
      if kind == SexprKind then Sexpr(cell) else Qexpr(cell)
    }

    /** `lval_sexpr` and `lval_qexpr`: a list with no children. */
    constructor Empty(k: ListKind)
      ensures kind == k && cell == []
    {
      kind := k;
      cell := [];
    }

    /** A list value taken over as an object whose children can be edited. */
    constructor Of(v: Lval)
      requires v.IsList()
      ensures Value() == v
    {
      kind := if v.Sexpr? then SexprKind else QexprKind;
      cell := v.cell;
    }

    /** `lval_add`: one more child, `x`, at the end; the others stay as they were. */
    method Add(x: Lval)
      modifies this
      ensures kind == old(kind)
      ensures cell == old(cell) + [x]
    {
      cell := cell + [x];
    }

    /** `lval_pop`: removes child `i` and returns it; the children after it shift
        down by one, so the rest keep their order. */
    method Pop(i: nat) returns (x: Lval)
      requires i < |cell|
      modifies this
      ensures kind == old(kind)
      ensures x == old(cell[i])
      ensures cell == old(cell[..i]) + old(cell[i + 1..])
      ensures |cell| == |old(cell)| - 1
    {
      x := cell[i];
      cell := cell[..i] + cell[i + 1..];
    }

    /** `lval_take`: `lval_pop` of child `i`, after which the list itself is
        deleted; callers do not use this object afterwards. */
    method Take(i: nat) returns (x: Lval)
      requires i < |cell|
      modifies this
      ensures x == old(cell[i])
    {
      x := Pop(i);
    }

    /** `lval_join`: moves every child of `y`, in order, to the end of this list,
        popping them from the front of `y` one at a time; `y` is left empty
        (and is deleted by the C code). */
    method Join(y: Compound)
      requires y != this
      modifies this, y
      ensures kind == old(kind)
      ensures cell == old(cell) + old(y.cell)
      ensures y.cell == []
    {
      ghost var k := 0;
      while |y.cell| > 0
        invariant kind == old(kind) && k <= |old(y.cell)|
        invariant cell == old(cell) + old(y.cell)[..k] && y.cell == old(y.cell)[k..]
        decreases |y.cell|
      {
        var x := y.Pop(0);
        Add(x);
        assert old(y.cell)[..k + 1] == old(y.cell)[..k] + [x];
        k := k + 1;
      }
      assert old(y.cell)[..k] == old(y.cell);
    }
  }
}
