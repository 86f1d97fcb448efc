/**
 Condition expressions: the tree the expression parser returns, its meaning, and the
 identifier-replacing walk that alias expansion is built on.

 The operators, member access and calls belong to the expression library, so they are an
 arbitrary `Ops` record here: every theorem holds for any operator semantics.
 */
module Expr {

  datatype Literal = NilLit | BoolLit(b: bool) | IntLit(n: int) | FloatLit(r: real) | StrLit(s: string)

  datatype Expr =
    | Lit(lit: Literal)
    | Ident(name: string)
    | Member(obj: Expr, prop: Expr)
    | Unary(uop: string, arg: Expr)
    | Binary(bop: string, left: Expr, right: Expr)
    | Conditional(test: Expr, yes: Expr, no: Expr)
    | Call(callee: Expr, args: seq<Expr>)

  /** A literal, or a handle on a map, slice or function of the host program. */
  datatype Value = Prim(lit: Literal) | Ref(handle: nat)

  datatype Outcome = Done(v: Value) | Fail(msg: string)

  datatype Ops = Ops(
    unary: (string, Value) -> Outcome,
    binary: (string, Value, Value) -> Outcome,
    member: (Value, Value) -> Outcome,
    call: (Value, seq<Value>) -> Outcome)

  /** What each identifier denotes; an identifier that is absent denotes nil. */
  type Env = map<string, Outcome>

  function Bool(b: bool): Outcome {
    Done(Prim(BoolLit(b)))
  }

  function Lookup(env: Env, x: string): Outcome {
    if x in env then env[x] else Done(Prim(NilLit))
  }

  datatype Values = All(vs: seq<Value>) | Bad(msg: string)

  function Collect(os: seq<Outcome>): Values {
    if os == [] then All([])
    else if os[0].Fail? then Bad(os[0].msg)
    else
      var rest := Collect(os[1..]);
      if rest.Bad? then rest else All([os[0].v] + rest.vs)
  }

  /** Evaluation; `&&`, `||`, `??` and `?:` evaluate only the operands they need. */
  function Eval(ops: Ops, env: Env, e: Expr): Outcome
    decreases e
  {
    match e
    case Lit(l) => Done(Prim(l))
    case Ident(x) => Lookup(env, x)
    case Member(o, p) =>
      var ov := Eval(ops, env, o);
      if ov.Fail? then ov else
      var pv := Eval(ops, env, p);
      if pv.Fail? then pv else ops.member(ov.v, pv.v)
    case Unary(op, a) =>
      var av := Eval(ops, env, a);
      if av.Fail? then av else ops.unary(op, av.v)
    case Binary(op, l, r) =>
      var lv := Eval(ops, env, l);
      if lv.Fail? then lv
      else if op == "&&" && lv == Bool(false) then lv
      else if op == "||" && lv == Bool(true) then lv
      else if op == "??" && lv != Done(Prim(NilLit)) then lv
      else
        var rv := Eval(ops, env, r);
        if rv.Fail? then rv else ops.binary(op, lv.v, rv.v)
    case Conditional(t, y, n) =>
      var tv := Eval(ops, env, t);
      if tv == Bool(true) then Eval(ops, env, y)
      else if tv == Bool(false) then Eval(ops, env, n)
      else if tv.Fail? then tv
      else Fail("condition is not a bool")
    case Call(f, args) =>
      var fv := Eval(ops, env, f);
      if fv.Fail? then fv else
      var vs := Collect(seq(|args|, i requires 0 <= i < |args| => Eval(ops, env, args[i])));
      if vs.Bad? then Fail(vs.msg) else ops.call(fv.v, vs.vs)
  }

  /** Every identifier node of the tree. */
  function Idents(e: Expr): set<string>
    decreases e
  {
    match e
    case Lit(_) => {}
    case Ident(x) => {x}
    case Member(o, p) => Idents(o) + Idents(p)
    case Unary(_, a) => Idents(a)
    case Binary(_, l, r) => Idents(l) + Idents(r)
    case Conditional(t, y, n) => Idents(t) + Idents(y) + Idents(n)
    case Call(f, args) => Idents(f) + IdentsOfAll(args)
  }

  function IdentsOfAll(es: seq<Expr>): (r: set<string>)
    ensures forall i :: 0 <= i < |es| ==> Idents(es[i]) <= r
    ensures forall x :: x in r ==> exists i :: 0 <= i < |es| && x in Idents(es[i])
    decreases es
  {
    if es == [] then {}
    else IdentsOfAll(es[..|es| - 1]) + Idents(es[|es| - 1])
  }

  /** The walk with the alias patcher: children first, so a replacement is not walked again. */
  function Patch(e: Expr, m: map<string, Expr>): Expr
    decreases e
  {
    match e
    case Lit(_) => e
    case Ident(x) => if x in m then m[x] else e
    case Member(o, p) => Member(Patch(o, m), Patch(p, m))
    case Unary(op, a) => Unary(op, Patch(a, m))
    case Binary(op, l, r) => Binary(op, Patch(l, m), Patch(r, m))
    case Conditional(t, y, n) => Conditional(Patch(t, m), Patch(y, m), Patch(n, m))
    case Call(f, args) =>
      Call(Patch(f, m), seq(|args|, i requires 0 <= i < |args| => Patch(args[i], m)))
  }

  /** `env` in which every key of `m` denotes the value of its tree. */
  function Overlay(ops: Ops, env: Env, m: map<string, Expr>): Env {
    env + map a | a in m :: Eval(ops, env, m[a])
  }

  /** Substitution: evaluating a patched tree is evaluating the tree with the replaced
      identifiers bound to the values of their replacements. */
  lemma {:induction false} PatchIsOverlay(ops: Ops, env: Env, e: Expr, m: map<string, Expr>)
    ensures Eval(ops, env, Patch(e, m)) == Eval(ops, Overlay(ops, env, m), e)
    decreases e
  {
    match e
    case Lit(_) =>
    case Ident(x) =>
    case Member(o, p) => PatchIsOverlay(ops, env, o, m); PatchIsOverlay(ops, env, p, m);
    case Unary(_, a) => PatchIsOverlay(ops, env, a, m);
    case Binary(_, l, r) => PatchIsOverlay(ops, env, l, m); PatchIsOverlay(ops, env, r, m);
    case Conditional(t, y, n) =>
      PatchIsOverlay(ops, env, t, m); PatchIsOverlay(ops, env, y, m); PatchIsOverlay(ops, env, n, m);
    case Call(f, args) =>
      PatchIsOverlay(ops, env, f, m);
      var pargs := seq(|args|, i requires 0 <= i < |args| => Patch(args[i], m));
      forall i | 0 <= i < |args|
        ensures Eval(ops, env, pargs[i]) == Eval(ops, Overlay(ops, env, m), args[i])
      {
        PatchIsOverlay(ops, env, args[i], m);
      }
      assert seq(|pargs|, i requires 0 <= i < |pargs| => Eval(ops, env, pargs[i]))
          == seq(|args|, i requires 0 <= i < |args| => Eval(ops, Overlay(ops, env, m), args[i]));
  }

  /** Evaluation looks at nothing but the identifiers of the tree. */
  lemma {:induction false} EvalAgrees(ops: Ops, env: Env, env': Env, e: Expr)
    requires forall x :: x in Idents(e) ==> Lookup(env, x) == Lookup(env', x)
    ensures Eval(ops, env, e) == Eval(ops, env', e)
    decreases e
  {
    match e
    case Lit(_) =>
    case Ident(x) =>
    case Member(o, p) => EvalAgrees(ops, env, env', o); EvalAgrees(ops, env, env', p);
    case Unary(_, a) => EvalAgrees(ops, env, env', a);
    case Binary(_, l, r) => EvalAgrees(ops, env, env', l); EvalAgrees(ops, env, env', r);
    case Conditional(t, y, n) =>
      EvalAgrees(ops, env, env', t); EvalAgrees(ops, env, env', y); EvalAgrees(ops, env, env', n);
    case Call(f, args) =>
      EvalAgrees(ops, env, env', f);
      forall i | 0 <= i < |args|
        ensures Eval(ops, env, args[i]) == Eval(ops, env', args[i])
      {
        EvalAgrees(ops, env, env', args[i]);
      }
      assert seq(|args|, i requires 0 <= i < |args| => Eval(ops, env, args[i]))
          == seq(|args|, i requires 0 <= i < |args| => Eval(ops, env', args[i]));
  }

  /** Two patch maps that agree on the identifiers of the tree patch it alike. */
  lemma {:induction false} PatchAgrees(e: Expr, m: map<string, Expr>, m': map<string, Expr>)
    requires forall x :: x in Idents(e) ==>
      (x in m <==> x in m') && (x in m ==> m[x] == m'[x])
    ensures Patch(e, m) == Patch(e, m')
    decreases e
  {
    match e
    case Lit(_) =>
    case Ident(x) =>
    case Member(o, p) => PatchAgrees(o, m, m'); PatchAgrees(p, m, m');
    case Unary(_, a) => PatchAgrees(a, m, m');
    case Binary(_, l, r) => PatchAgrees(l, m, m'); PatchAgrees(r, m, m');
    case Conditional(t, y, n) => PatchAgrees(t, m, m'); PatchAgrees(y, m, m'); PatchAgrees(n, m, m');
    case Call(f, args) =>
      PatchAgrees(f, m, m');
      forall i | 0 <= i < |args| ensures Patch(args[i], m) == Patch(args[i], m') {
        PatchAgrees(args[i], m, m');
      }
  }

  /** Patching with nothing to replace changes nothing. */
  lemma {:induction false} PatchFixed(e: Expr, m: map<string, Expr>)
    requires Idents(e) !! m.Keys
    ensures Patch(e, m) == e
    decreases e
  {
    match e
    case Lit(_) =>
    case Ident(x) =>
    case Member(o, p) => PatchFixed(o, m); PatchFixed(p, m);
    case Unary(_, a) => PatchFixed(a, m);
    case Binary(_, l, r) => PatchFixed(l, m); PatchFixed(r, m);
    case Conditional(t, y, n) => PatchFixed(t, m); PatchFixed(y, m); PatchFixed(n, m);
    case Call(f, args) =>
      PatchFixed(f, m);
      forall i | 0 <= i < |args| ensures Patch(args[i], m) == args[i] {
        PatchFixed(args[i], m);
      }
  }

  /** Every identifier after a patch was there before and has no replacement, or comes from
      the replacement of one that was. */
  lemma {:induction false} PatchIdents(e: Expr, m: map<string, Expr>, x: string)
    requires x in Idents(Patch(e, m))
    ensures (x in Idents(e) && x !in m) || exists a :: a in Idents(e) && a in m && x in Idents(m[a])
    decreases e
  {
    match e
    case Lit(_) =>
    case Ident(y) =>
    case Member(o, p) => if x in Idents(Patch(o, m)) { PatchIdents(o, m, x); } else { PatchIdents(p, m, x); }
    case Unary(_, a) => PatchIdents(a, m, x);
    case Binary(_, l, r) => if x in Idents(Patch(l, m)) { PatchIdents(l, m, x); } else { PatchIdents(r, m, x); }
    case Conditional(t, y, n) =>
      if x in Idents(Patch(t, m)) { PatchIdents(t, m, x); }
      else if x in Idents(Patch(y, m)) { PatchIdents(y, m, x); }
      else { PatchIdents(n, m, x); }
    case Call(f, args) =>
      if x in Idents(Patch(f, m)) {
        PatchIdents(f, m, x);
      } else {
        var pargs := seq(|args|, i requires 0 <= i < |args| => Patch(args[i], m));
        var i :| 0 <= i < |pargs| && x in Idents(pargs[i]);
        PatchIdents(args[i], m, x);
      }
  }
}
