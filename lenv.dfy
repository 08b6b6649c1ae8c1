/** The environment of `lenv.c`: scope frames holding parallel name and value
    arrays, linked to a parent frame.  `Frame` and `Env` are the abstract view
    (an `Env` lists the frames from the current one up to the root); `Lenv` is
    the linked, in-place structure the C code manipulates. */
module Environment {
  import opened Values

  datatype Frame = Frame(syms: seq<string>, vals: seq<Lval>) {
    predicate Valid() { |syms| == |vals| }
  }

  /** The frames from the current one (index 0) up to the root (the last). */
  type Env = seq<Frame>

  predicate WellFormed(env: Env) {
    forall j :: 0 <= j < |env| ==> env[j].Valid()
  }

  /** The error `lenv_get` returns for a name bound in no frame of the chain. */
  function Unbound(k: string): Lval {
    Err("Unbound symbol " + k)
  }

  /** The first index holding `k`, or `|syms|` when there is none. */
  function IndexOf(syms: seq<string>, k: string): (i: nat)
    ensures i <= |syms|
    ensures i < |syms| ==> syms[i] == k
    ensures forall j :: 0 <= j < i ==> syms[j] != k
  {
    if |syms| == 0 then 0
    else if syms[0] == k then 0
    else 1 + IndexOf(syms[1..], k)
  }

  /** `lenv_get`: a copy of the value of the first binding of `k` in the
      current frame; otherwise the lookup continues in the parent, and a frame
      without a parent reports the unbound symbol. */
  function Lookup(env: Env, k: string): (r: Lval)
    requires WellFormed(env)
  {
    if |env| == 0 then Unbound(k)
    else
      var i := IndexOf(env[0].syms, k);
      if i < |env[0].syms| then Copy(env[0].vals[i]) else Lookup(env[1..], k)
  }

  /** `k` is bound in frame `j` and in none of the frames below it. */
  predicate FirstBoundAt(env: Env, k: string, j: nat) {
    j < |env| && k in env[j].syms && forall m :: 0 <= m < j ==> k !in env[m].syms
  }

  /** Lookup yields the first binding of `k` in the first frame, counted from the
      current one, that binds it at all. */
  lemma {:induction false} LookupFirst(env: Env, k: string, j: nat)
    requires WellFormed(env) && FirstBoundAt(env, k, j)
    ensures Lookup(env, k) == env[j].vals[IndexOf(env[j].syms, k)]
    decreases j
  {
    if j > 0 {
      assert k !in env[0].syms;
      assert FirstBoundAt(env[1..], k, j - 1) by {
        forall m | 0 <= m < j - 1 ensures k !in env[1..][m].syms {
          assert env[1..][m] == env[m + 1];
        }
      }
      LookupFirst(env[1..], k, j - 1);
    }
  }

  /** A name bound in no frame of the chain is reported as unbound. */
  lemma {:induction false} LookupUnbound(env: Env, k: string)
    requires WellFormed(env)
    requires forall j :: 0 <= j < |env| ==> k !in env[j].syms
    ensures Lookup(env, k) == Unbound(k)
    decreases |env|
  {
    if |env| > 0 {
      assert k !in env[0].syms;
      assert forall j :: 0 <= j < |env| - 1 ==> env[1..][j] == env[j + 1];
      LookupUnbound(env[1..], k);
    }
  }

  // ---------------------------------------------------------------------------
  // Put, def and copy on the abstract view

  /** The scan loop of `lenv_put`: every existing binding of `k` gets a copy
      of `v` (the loop has no `break`, so all of them do). */
  function Overwrite(syms: seq<string>, vals: seq<Lval>, k: string, v: Lval): (r: seq<Lval>)
    requires |syms| == |vals|
    ensures |r| == |vals|
    ensures forall i :: 0 <= i < |r| && syms[i] == k ==> r[i] == v
    ensures forall i :: 0 <= i < |r| && syms[i] != k ==> r[i] == vals[i]
  {
    seq(|vals|, i requires 0 <= i < |vals| => if syms[i] == k then Copy(v) else vals[i])
  }

  /** `lenv_put` on one frame: the overwriting scan, and then, because the scan
      does not return, a new binding of `k` appended in every case. */
  function PutFrame(f: Frame, k: string, v: Lval): (r: Frame)
    requires f.Valid()
    ensures r.Valid() && |r.syms| == |f.syms| + 1
  {
    Frame(f.syms + [k], Overwrite(f.syms, f.vals, k, v) + [Copy(v)])
  }

  /** `lenv_put` on a chain: only the current frame changes. */
  function PutEnv(env: Env, k: string, v: Lval): (r: Env)
    requires WellFormed(env) && |env| >= 1
    ensures WellFormed(r) && |r| == |env| && r[1..] == env[1..]
  {
    [PutFrame(env[0], k, v)] + env[1..]
  }

  /** `lenv_def`: `lenv_put` in the root frame, the last of the chain. */
  function DefEnv(env: Env, k: string, v: Lval): (r: Env)
    requires WellFormed(env) && |env| >= 1
    ensures WellFormed(r) && |r| == |env|
    ensures forall j :: 0 <= j < |env| - 1 ==> r[j] == env[j]
  {
    env[..|env| - 1] + [PutFrame(env[|env| - 1], k, v)]
  }

  /** After `lenv_put`, the frame yields `v` for `k`: an existing first binding
      was overwritten, or else the appended one is the first. */
  lemma PutFrameGet(f: Frame, k: string, v: Lval)
    requires f.Valid()
    ensures var g := PutFrame(f, k, v);
            IndexOf(g.syms, k) < |g.syms| && g.vals[IndexOf(g.syms, k)] == v
  {
    var g := PutFrame(f, k, v);
    var i := IndexOf(f.syms, k);
    var i' := IndexOf(g.syms, k);
    assert g.syms[|f.syms|] == k;
    if i < |f.syms| {
      assert g.syms[i] == k;
    } else {
      assert forall j :: 0 <= j < |f.syms| ==> g.syms[j] == f.syms[j];
    }
  }

  /** For any other name the frame answers as before. */
  lemma PutFrameOther(f: Frame, k: string, v: Lval, k': string)
    requires f.Valid() && k' != k
    ensures var g := PutFrame(f, k, v);
            (k' in g.syms <==> k' in f.syms) &&
            (k' in f.syms ==> IndexOf(g.syms, k') == IndexOf(f.syms, k') &&
                              g.vals[IndexOf(g.syms, k')] == f.vals[IndexOf(f.syms, k')])
  {
    var g := PutFrame(f, k, v);
    assert forall j :: 0 <= j < |f.syms| ==> g.syms[j] == f.syms[j];
    assert g.syms[|f.syms|] == k;
    if k' in f.syms {
      var i := IndexOf(f.syms, k');
      assert g.syms[i] == k';
      assert IndexOf(g.syms, k') == i;
    }
  }

  /** `lenv_get` after `lenv_put(e, k, v)` yields `v`. */
  lemma PutGet(env: Env, k: string, v: Lval)
    requires WellFormed(env) && |env| >= 1
    ensures Lookup(PutEnv(env, k, v), k) == v
  {
    PutFrameGet(env[0], k, v);
  }

  /** `lenv_put` leaves the lookup of every other name unchanged. */
  lemma PutOther(env: Env, k: string, v: Lval, k': string)
    requires WellFormed(env) && |env| >= 1 && k' != k
    ensures Lookup(PutEnv(env, k, v), k') == Lookup(env, k')
  {
    PutFrameOther(env[0], k, v, k');
    assert PutEnv(env, k, v)[1..] == env[1..];
  }

  /** Bindings of one name in one frame all hold the same value; the C code
      keeps that, since `lenv_put` rewrites all old bindings of the name. */
  predicate Coherent(f: Frame)
    requires f.Valid()
  {
    forall i, j :: 0 <= i < j < |f.syms| && f.syms[i] == f.syms[j] ==> f.vals[i] == f.vals[j]
  }

  lemma PutFrameCoherent(f: Frame, k: string, v: Lval)
    requires f.Valid() && Coherent(f)
    ensures Coherent(PutFrame(f, k, v))
  {
  }

  /** After `lenv_def`, `k` is found with value `v` from the current frame
      exactly when no frame below the root binds `k`; otherwise the shadowing
      binding is what lookup finds, as before. */
  lemma DefGet(env: Env, k: string, v: Lval)
    requires WellFormed(env) && |env| >= 1
    ensures (forall j :: 0 <= j < |env| - 1 ==> k !in env[j].syms) ==>
              Lookup(DefEnv(env, k, v), k) == v
    ensures (exists j :: 0 <= j < |env| - 1 && k in env[j].syms) ==>
              Lookup(DefEnv(env, k, v), k) == Lookup(env, k)
  {
    var n := |env|;
    var env' := DefEnv(env, k, v);
    assert forall j :: 0 <= j < n - 1 ==> env'[j] == env[j];
    if forall j :: 0 <= j < n - 1 ==> k !in env[j].syms {
      PutFrameGet(env[n - 1], k, v);
      LookupFirst(env', k, n - 1);
    } else {
      var j :| 0 <= j < n - 1 && k in env[j].syms;
      var j0 := FirstFrame(env, k, j);
      LookupFirst(env', k, j0);
      LookupFirst(env, k, j0);
    }
  }

  /** The lowest frame index binding `k`, given that frame `j` binds it. */
  lemma {:induction false} FirstFrame(env: Env, k: string, j: nat) returns (j0: nat)
    requires j < |env| && k in env[j].syms
    ensures j0 <= j && FirstBoundAt(env, k, j0)
    decreases j
  {
    if exists m :: 0 <= m < j && k in env[m].syms {
      var m :| 0 <= m < j && k in env[m].syms;
      j0 := FirstFrame(env, k, m);
    } else {
      j0 := j;
    }
  }

  /** `lenv_def` leaves the lookup of every other name unchanged. */
  lemma DefOther(env: Env, k: string, v: Lval, k': string)
    requires WellFormed(env) && |env| >= 1 && k' != k
    ensures Lookup(DefEnv(env, k, v), k') == Lookup(env, k')
  {
    var n := |env|;
    var env' := DefEnv(env, k, v);
    assert forall j :: 0 <= j < n - 1 ==> env'[j] == env[j];
    PutFrameOther(env[n - 1], k, v, k');
    if exists j :: 0 <= j < n && k' in env[j].syms {
      var j :| 0 <= j < n && k' in env[j].syms;
      var j0 := FirstFrame(env, k', j);
      LookupFirst(env, k', j0);
      LookupFirst(env', k', j0);
    } else {
      LookupUnbound(env, k');
      LookupUnbound(env', k');
    }
  }

  // ---------------------------------------------------------------------------
  // The linked frames

  class Lenv {
    var syms: seq<string>
    var vals: seq<Lval>
    var parent: Lenv?
    /** This frame and its ancestors. */
    ghost var Repr: set<Lenv>

    ghost predicate Valid()
      reads this, Repr
      decreases Repr
    {
      this in Repr && |syms| == |vals| &&
      (parent != null ==>
        parent in Repr && parent.Repr <= Repr && this !in parent.Repr && parent.Valid())
    }

    /** The frame chain seen from here. */
    ghost function Chain(): (env: Env)
      reads this, Repr
      requires Valid()
      ensures |env| >= 1 && env[0] == Frame(syms, vals) && WellFormed(env)
      decreases Repr
    {
      [Frame(syms, vals)] + (if parent == null then [] else parent.Chain())
    }

    /** The frames of the chain as objects, from this one up to the root. */
    ghost function Nodes(): (ns: seq<Lenv>)
      reads this, Repr
      requires Valid()
      ensures |ns| >= 1 && ns[0] == this && Path(ns)
      ensures forall i :: 0 <= i < |ns| ==> ns[i] in Repr
      ensures forall i :: 0 <= i < |ns| - 1 ==> ns[i] != ns[|ns| - 1]
      ensures Frames(ns) == Chain()
      decreases Repr
    {
      if parent == null then
        assert LinkAt([this], 0);
        [this]
      else
        var up := parent.Nodes();
        var ns := [this] + up;
        assert Path(ns) by {
          assert LinkAt(ns, 0);
          forall i | 1 <= i < |ns| ensures LinkAt(ns, i) {
            assert ns[i] == up[i - 1];
            assert LinkAt(up, i - 1);
          }
        }
        assert Frames(ns) == [Frame(syms, vals)] + Frames(up);
        ns
    }

    /** `lenv_new`: a frame with no bindings and no parent. */
    constructor ()
      ensures Valid() && fresh(Repr)
      ensures parent == null && syms == [] && vals == []
      ensures Chain() == [Frame([], [])]
    {
      syms, vals, parent := [], [], null;
      Repr := {this};
    }

    /** `lenv_get`: the loop over this frame's names, then the parent. */
    method Get(k: string) returns (r: Lval)
      requires Valid()
      ensures r == Lookup(Chain(), k)
      decreases Repr
    {
      var i := 0;
      while i < |syms|
        invariant 0 <= i <= |syms|
        invariant forall j :: 0 <= j < i ==> syms[j] != k
      {
        if syms[i] == k {
          assert IndexOf(syms, k) == i;
          return Values.Copy(vals[i]);
        }
        i := i + 1;
      }
      assert IndexOf(syms, k) == |syms|;
      if parent != null {
        r := parent.Get(k);
      } else {
        r := Unbound(k);
      }
    }

    /** `lenv_put`: overwrite every binding of `k` in this frame with a copy of
        `v`, then append a binding of `k` to a further copy.  Parents are not
        touched. */
    method Put(k: string, v: Lval)
      requires Valid()
      modifies this
      ensures Valid() && Repr == old(Repr) && parent == old(parent)
      ensures Frame(syms, vals) == PutFrame(old(Frame(syms, vals)), k, v)
      ensures Chain() == PutEnv(old(Chain()), k, v)
    {
      for i := 0 to |syms|
        invariant Repr == old(Repr) && parent == old(parent)
        invariant |vals| == |syms| == |old(syms)| && syms == old(syms)
        invariant forall j :: 0 <= j < |vals| ==>
                    vals[j] == if j < i && syms[j] == k then v else old(vals)[j]
      {
        if syms[i] == k {
          vals := vals[i := Values.Copy(v)];
        }
      }
      assert vals == Overwrite(syms, old(vals), k, v);
      syms := syms + [k];
      vals := vals + [Values.Copy(v)];
    }

    /** `lenv_copy`: a new frame with the same parent and, in the same order, the
        same names bound to copies of the same values. */
    method Copy() returns (r: Lenv)
      requires Valid()
      ensures fresh(r) && r.Valid() && r.Repr == {r} + (Repr - {this})
      ensures r.parent == parent && r.syms == syms && r.vals == vals
      ensures r.Chain() == Chain()
    {
      r := new Lenv();
      r.parent := parent;
      r.Repr := {r} + (Repr - {this});
      for i := 0 to |syms|
        invariant r.syms == syms[..i] && r.vals == vals[..i]
        invariant r.parent == parent && r.Repr == {r} + (Repr - {this})
      {
        r.syms := r.syms + [syms[i]];
        r.vals := r.vals + [Values.Copy(vals[i])];
      }
      assert r.syms == syms && r.vals == vals;
      CopyValid(r);
    }

    /** `lenv_def`: walk to the root frame and put the binding there. */
    method Def(k: string, v: Lval)
      requires Valid()
      modifies Repr
      ensures Valid() && Repr == old(Repr)
      ensures Chain() == DefEnv(old(Chain()), k, v)
      ensures forall d :: d in old(Repr) ==> d.parent == old(d.parent) && d.Repr == old(d.Repr)
      ensures var ns := old(Nodes());
              forall d :: d in old(Repr) && d != ns[|ns| - 1] ==> d.syms == old(d.syms) && d.vals == old(d.vals)
      ensures var ns := old(Nodes());
              forall i :: 0 <= i < |ns| ==> ns[i].Valid() && ns[i].Chain() == DefEnv(old(Chain())[i..], k, v)
    {
      ghost var ns := Nodes();
      ghost var n := |ns|;
      ghost var before := Frames(ns);
      var e := Root(ns);
      e.PutRoot(ns, before, k, v);
      DefSeenAlongPath(ns, before, k, v);
      assert before[0..] == before;
      forall d | d in old(Repr)
        ensures d.parent == old(d.parent) && d.Repr == old(d.Repr)
        ensures d != ns[n - 1] ==> d.syms == old(d.syms) && d.vals == old(d.vals)
      {
        if d != e {
          assert unchanged(d);
        }
      }
    }

    /** The walk of `lenv_def` up the parent links: the root of the chain. */
    method Root(ghost ns: seq<Lenv>) returns (e: Lenv)
      requires |ns| >= 1 && Path(ns) && ns[0] == this
      ensures e == ns[|ns| - 1]
    {
      e := this;
      ghost var depth := 0;
      while e.parent != null
        invariant 0 <= depth < |ns| && e == ns[depth]
        decreases |ns| - depth
      {
        assert LinkAt(ns, depth);
        e := e.parent;
        depth := depth + 1;
      }
      assert LinkAt(ns, depth);
    }

    /** The `lenv_put` at the end of `lenv_def`, on the root `this` of the path
        `ns` whose frames were `before`: the path stays a path and now shows
        `lenv_def` of `before`. */
    method PutRoot(ghost ns: seq<Lenv>, ghost before: Env, k: string, v: Lval)
      requires |ns| >= 1 && Path(ns) && ns[|ns| - 1] == this
      requires forall i :: 0 <= i < |ns| - 1 ==> ns[i] != this
      requires WellFormed(before) && before == Frames(ns)
      modifies this
      ensures parent == old(parent) && Repr == old(Repr)
      ensures Path(ns) && Frames(ns) == DefEnv(before, k, v)
    {
      assert LinkAt(ns, |ns| - 1);
      assert Valid();
      label Before:
      Put(k, v);
      assert Path(ns) by {
        forall i | 0 <= i < |ns| ensures LinkAt(ns, i) {
          assert old@Before(LinkAt(ns, i));
        }
      }
      forall i | 0 <= i < |ns| - 1
        ensures Frame(ns[i].syms, ns[i].vals) == before[i]
      {
        assert ns[i] != this;
      }
      RootPut(ns, before, k, v);
    }

    /** The frame produced by `Copy` satisfies the invariant. */
    lemma CopyValid(r: Lenv)
      requires Valid() && r != this && r !in Repr
      requires r.parent == parent && r.Repr == {r} + (Repr - {this}) && |r.syms| == |r.vals|
      ensures r.Valid() && r.Chain() == [Frame(r.syms, r.vals)] + Chain()[1..]
    {
      if parent != null {
        assert this !in parent.Repr;
        assert parent.Repr <= r.Repr;
      }
    }
  }

  /** The objects `ns` form a chain of frames, each the parent of the one
      before it, meeting the structural invariant of `Lenv.Valid` one link at a
      time. */
  ghost predicate Path(ns: seq<Lenv>)
    reads set i | 0 <= i < |ns| :: ns[i]
  {
    forall i :: 0 <= i < |ns| ==> LinkAt(ns, i)
  }

  /** Link `i` of a chain: `ns[i]` to the next node, or to no parent at the end. */
  ghost predicate LinkAt(ns: seq<Lenv>, i: nat)
    requires i < |ns|
    reads set i | 0 <= i < |ns| :: ns[i]
  {
    Link(ns[i], if i + 1 < |ns| then ns[i + 1] else null)
  }

  /** One link of a chain: `d` meets its own part of `Lenv.Valid`, and its
      parent is `p`. */
  ghost predicate Link(d: Lenv, p: Lenv?)
    reads d, p
  {
    d in d.Repr && |d.syms| == |d.vals| && d.parent == p &&
    (p != null ==> p in d.Repr && p.Repr <= d.Repr && d !in p.Repr)
  }

  ghost function Frames(ns: seq<Lenv>): (env: Env)
    reads set i | 0 <= i < |ns| :: ns[i]
    ensures |env| == |ns|
  {
    seq(|ns|, i reads ns requires 0 <= i < |ns| => Frame(ns[i].syms, ns[i].vals))
  }

  /** A path whose frames are `before` except for `lenv_put` at the root
      shows `DefEnv(before, k, v)`. */
  lemma RootPut(ns: seq<Lenv>, before: Env, k: string, v: Lval)
    requires |ns| >= 1 && WellFormed(before) && |before| == |ns|
    requires forall i :: 0 <= i < |ns| - 1 ==> Frame(ns[i].syms, ns[i].vals) == before[i]
    requires Frame(ns[|ns| - 1].syms, ns[|ns| - 1].vals) == PutFrame(before[|ns| - 1], k, v)
    ensures Frames(ns) == DefEnv(before, k, v)
  {
  }

  /** Every node of a path is a valid chain: the path's frames from it on. */
  lemma PathSuffixes(ns: seq<Lenv>)
    requires |ns| >= 1 && Path(ns)
    ensures forall i :: 0 <= i < |ns| ==> ns[i].Valid() && ns[i].Chain() == Frames(ns)[i..]
  {
    forall i | 0 <= i < |ns|
      ensures ns[i].Valid() && ns[i].Chain() == Frames(ns)[i..]
    {
      var tail := ns[i..];
      assert Path(tail) by {
        forall m | 0 <= m < |tail| ensures LinkAt(tail, m) {
          assert tail[m] == ns[i + m];
          assert LinkAt(ns, i + m);
        }
      }
      PathValid(tail);
      assert Frames(tail) == Frames(ns)[i..];
    }
  }

  /** `lenv_def` on the root of a chain is seen from every frame of it. */
  lemma DefEnvSuffix(env: Env, k: string, v: Lval, i: nat)
    requires WellFormed(env) && i < |env|
    ensures WellFormed(env[i..]) && DefEnv(env, k, v)[i..] == DefEnv(env[i..], k, v)
  {
    assert forall j :: 0 <= j < |env| - i ==> env[i..][j] == env[i + j];
  }

  /** When a path shows `DefEnv(env, k, v)`, each of its nodes is a valid chain
      showing the def on its own part of `env`. */
  lemma DefSeenAlongPath(ns: seq<Lenv>, env: Env, k: string, v: Lval)
    requires |ns| >= 1 && Path(ns) && WellFormed(env) && |env| == |ns|
    requires Frames(ns) == DefEnv(env, k, v)
    ensures forall i :: 0 <= i < |ns| ==> ns[i].Valid() && ns[i].Chain() == DefEnv(env[i..], k, v)
  {
    PathSuffixes(ns);
    forall i | 0 <= i < |ns| ensures ns[i].Chain() == DefEnv(env[i..], k, v) {
      DefEnvSuffix(env, k, v, i);
    }
  }

  /** A path of frames is a valid chain whose frames are the path's frames. */
  lemma {:induction false} PathValid(ns: seq<Lenv>)
    requires |ns| >= 1 && Path(ns)
    ensures ns[0].Valid() && ns[0].Chain() == Frames(ns)
    decreases |ns|
  {
    var tail := ns[1..];
    if |ns| > 1 {
      assert Path(tail) by {
        forall i | 0 <= i < |tail| ensures LinkAt(tail, i) {
          assert tail[i] == ns[i + 1];
          assert LinkAt(ns, i + 1);
        }
      }
      PathValid(tail);
      assert LinkAt(ns, 0);
      assert Frames(ns) == [Frame(ns[0].syms, ns[0].vals)] + Frames(tail);
    } else {
      assert LinkAt(ns, 0);
    }
  }
}
