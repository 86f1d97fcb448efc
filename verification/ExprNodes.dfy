/**
 The nodes of an expression tree, and what the visitors look for in terms of them: aliases,
 unsafe divisions and step references occur as nodes, wherever in the tree they stand.
 */
module ExprNodes {
  import opened Expr
  import opened AliasChecks
  import opened StepReferences

  /** `s` is the tree or stands somewhere in it. */
  predicate Occurs(s: Expr, e: Expr)
    decreases e
  {
    s == e ||
    match e
    case Lit(_) => false
    case Ident(_) => false
    case Member(o, p) => Occurs(s, o) || Occurs(s, p)
    case Unary(_, a) => Occurs(s, a)
    case Binary(_, l, r) => Occurs(s, l) || Occurs(s, r)
    case Conditional(t, y, n) => Occurs(s, t) || Occurs(s, y) || Occurs(s, n)
    case Call(f, args) => Occurs(s, f) || exists i :: 0 <= i < |args| && Occurs(s, args[i])
  }

  /** The identifiers of a tree are the names of its identifier nodes. */
  lemma {:induction false} IdentIff(e: Expr, x: string)
    ensures x in Idents(e) <==> Occurs(Ident(x), e)
    decreases e
  {
    match e
    case Lit(_) =>
    case Ident(_) =>
    case Member(o, p) => IdentIff(o, x); IdentIff(p, x);
    case Unary(_, a) => IdentIff(a, x);
    case Binary(_, l, r) => IdentIff(l, x); IdentIff(r, x);
    case Conditional(t, y, n) => IdentIff(t, x); IdentIff(y, x); IdentIff(n, x);
    case Call(f, args) =>
      IdentIff(f, x);
      forall i | 0 <= i < |args| ensures x in Idents(args[i]) <==> Occurs(Ident(x), args[i]) {
        IdentIff(args[i], x);
      }
  }

  /** Every division in the tree is by a literal number other than zero. */
  ghost predicate DividesByNonZero(e: Expr) {
    forall l, r :: Occurs(Binary("/", l, r), e) ==>
      r.Lit? && ((r.lit.IntLit? && r.lit.n != 0) || (r.lit.FloatLit? && r.lit.r != 0.0))
  }

  /** What the static check accepts, node by node. */
  lemma {:induction false} SafeIff(e: Expr)
    ensures SafeDivisions(e) <==> DividesByNonZero(e)
    decreases e
  {
    assert SafeNode(e) <==> (e.Binary? && e.bop == "/" ==>
      e.right.Lit? && ((e.right.lit.IntLit? && e.right.lit.n != 0) || (e.right.lit.FloatLit? && e.right.lit.r != 0.0)));
    match e
    case Lit(_) =>
    case Ident(_) =>
    case Member(o, p) => SafeIff(o); SafeIff(p);
    case Unary(_, a) => SafeIff(a);
    case Binary(op, l, r) =>
      SafeIff(l);
      SafeIff(r);
      assert op == "/" ==> Occurs(Binary("/", l, r), e);
    case Conditional(t, y, n) => SafeIff(t); SafeIff(y); SafeIff(n);
    case Call(f, args) =>
      SafeIff(f);
      forall i | 0 <= i < |args| ensures SafeDivisions(args[i]) <==> DividesByNonZero(args[i]) {
        SafeIff(args[i]);
      }
  }

  /** The node `steps.s` or `steps["s"]`, or `steps[s]`. */
  predicate NamesStep(e: Expr, s: string) {
    s != "" && (Occurs(Member(Ident("steps"), Lit(StrLit(s))), e) || Occurs(Member(Ident("steps"), Ident(s)), e))
  }

  /** What counts as a step reference, node by node. */
  lemma {:induction false} StepRefIff(e: Expr, s: string)
    ensures s in StepRefs(e) <==> NamesStep(e, s)
    decreases e
  {
    match e
    case Lit(_) =>
    case Ident(_) =>
    case Member(o, p) => StepRefIff(o, s); StepRefIff(p, s);
    case Unary(_, a) => StepRefIff(a, s);
    case Binary(_, l, r) => StepRefIff(l, s); StepRefIff(r, s);
    case Conditional(t, y, n) => StepRefIff(t, s); StepRefIff(y, s); StepRefIff(n, s);
    case Call(f, args) =>
      StepRefIff(f, s);
      forall i | 0 <= i < |args| ensures s in StepRefs(args[i]) <==> NamesStep(args[i], s) {
        StepRefIff(args[i], s);
      }
      ArgsName(args, s);
  }

  lemma ArgsName(args: seq<Expr>, s: string)
    requires forall i :: 0 <= i < |args| ==> (s in StepRefs(args[i]) <==> NamesStep(args[i], s))
    ensures s in StepRefsOfAll(args) <==> exists i :: 0 <= i < |args| && NamesStep(args[i], s)
  {
    if s in StepRefsOfAll(args) {
      var i := SomeArgHasRef(args, s);
      assert NamesStep(args[i], s);
    }
    forall i | 0 <= i < |args| && NamesStep(args[i], s) ensures s in StepRefsOfAll(args) {
      ArgRefIncluded(args, i, s);
    }
  }

  /** `&&`, `||`, `??` and `?:` do not evaluate what they do not need, and a failure is passed on. */
  lemma NeedlessOperands(ops: Ops, env: Env, op: string, l: Expr, r: Expr, s: Expr)
    ensures Eval(ops, env, l) == Done(Prim(BoolLit(false))) ==>
      && Eval(ops, env, Binary("&&", l, r)) == Eval(ops, env, l)
      && Eval(ops, env, Conditional(l, r, s)) == Eval(ops, env, s)
    ensures Eval(ops, env, l) == Done(Prim(BoolLit(true))) ==>
      && Eval(ops, env, Binary("||", l, r)) == Eval(ops, env, l)
      && Eval(ops, env, Conditional(l, s, r)) == Eval(ops, env, s)
    ensures Eval(ops, env, l).Done? && Eval(ops, env, l).v != Prim(NilLit) ==>
      Eval(ops, env, Binary("??", l, r)) == Eval(ops, env, l)
    ensures Eval(ops, env, l).Fail? ==> Eval(ops, env, Binary(op, l, r)) == Eval(ops, env, l)
  {
  }
}
