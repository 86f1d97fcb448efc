/** The static check on divisions, and what it promises about the expanded condition. */
module AliasChecks {
  import opened Collections
  import opened Expr
  import opened AliasOrder
  import opened AliasExpand

  // ----- division safety

  predicate NonZero(l: Literal) {
    (l.IntLit? && l.n != 0) || (l.FloatLit? && l.r != 0.0)
  }

  /** The node itself is not an unsafe division. */
  predicate SafeNode(e: Expr) {
    e.Binary? && e.bop == "/" ==> e.right.Lit? && NonZero(e.right.lit)
  }

  /** Every "/" node of the tree divides by a non-zero literal. */
  predicate SafeDivisions(e: Expr)
    decreases e
  {
    SafeNode(e) &&
    match e
    case Lit(_) => true
    case Ident(_) => true
    case Member(o, p) => SafeDivisions(o) && SafeDivisions(p)
    case Unary(_, a) => SafeDivisions(a)
    case Binary(_, l, r) => SafeDivisions(l) && SafeDivisions(r)
    case Conditional(t, y, n) => SafeDivisions(t) && SafeDivisions(y) && SafeDivisions(n)
    case Call(f, args) => SafeDivisions(f) && forall i :: 0 <= i < |args| ==> SafeDivisions(args[i])
  }

  class DivisionValidator {
    var errors: seq<string>

    constructor ()
      ensures errors == []
    {
      errors := [];
    }

    method Visit(node: Expr)
      modifies this
      ensures errors == old(errors) <==> SafeNode(node)
      ensures old(errors) <= errors
    {
      if node.Binary? && node.bop == "/" {
        match node.right {
          case Lit(IntLit(n)) =>
            if n == 0 { errors := errors + ["division by zero"]; }
          case Lit(FloatLit(r)) =>
            if r == 0.0 { errors := errors + ["division by zero"]; }
          case _ =>
            errors := errors + ["dynamic divisor"];
        }
      }
    }

    method Walk(node: Expr)
      modifies this
      ensures errors == old(errors) <==> SafeDivisions(node)
      ensures old(errors) <= errors
      decreases node
    {
      match node {
        case Lit(_) =>
        case Ident(_) =>
        case Member(o, p) => Walk(o); Walk(p);
        case Unary(_, a) => Walk(a);
        case Binary(_, l, r) => Walk(l); Walk(r);
        case Conditional(t, y, n) => Walk(t); Walk(y); Walk(n);
        case Call(f, args) =>
          Walk(f);
          for i := 0 to |args|
            invariant old(errors) <= errors
            invariant errors == old(errors) <==>
              SafeDivisions(f) && forall k :: 0 <= k < i ==> SafeDivisions(args[k])
          {
            Walk(args[i]);
          }
      }
      Visit(node);
    }
  }

  /** Accepts exactly the sources that parse to a tree with safe divisions. */
  method ValidateDivisions(source: string, parse: Parser) returns (ok: bool, msg: string)
    ensures ok <==> parse(source).Parsed? && SafeDivisions(parse(source).e)
  {
    var tree := parse(source);
    if tree.SyntaxError? {
      return false, tree.msg;
    }
    var validator := new DivisionValidator();
    validator.Walk(tree.e);
    if |validator.errors| > 0 {
      return false, validator.errors[0];
    }
    return true, "";
  }

  lemma {:induction false} PatchKeepsDivisionsSafe(e: Expr, m: map<string, Expr>)
    requires SafeDivisions(e)
    requires forall a :: a in m && a in Idents(e) ==> SafeDivisions(m[a])
    ensures SafeDivisions(Patch(e, m))
    decreases e
  {
    match e
    case Lit(_) =>
    case Ident(_) =>
    case Member(o, p) => PatchKeepsDivisionsSafe(o, m); PatchKeepsDivisionsSafe(p, m);
    case Unary(_, a) => PatchKeepsDivisionsSafe(a, m);
    case Binary(_, l, r) => PatchKeepsDivisionsSafe(l, m); PatchKeepsDivisionsSafe(r, m);
    case Conditional(t, y, n) =>
      PatchKeepsDivisionsSafe(t, m); PatchKeepsDivisionsSafe(y, m); PatchKeepsDivisionsSafe(n, m);
    case Call(f, args) =>
      PatchKeepsDivisionsSafe(f, m);
      forall i | 0 <= i < |args| ensures SafeDivisions(Patch(args[i], m)) {
        PatchKeepsDivisionsSafe(args[i], m);
      }
  }

  lemma {:induction false} ExpandedAliasesSafe(asts: map<string, Expr>, order: seq<string>, x: map<string, Expr>,
                                              k: nat)
    requires IsTopoOrder(asts, order) && IsExpansion(asts, x) && k <= |order|
    requires forall a :: a in asts ==> SafeDivisions(asts[a])
    ensures forall a :: a in order[..k] ==> a in x && SafeDivisions(x[a])
  {
    if k > 0 {
      ExpandedAliasesSafe(asts, order, x, k - 1);
      forall a | a in order[..k] ensures a in x && SafeDivisions(x[a]) {
        EarlierMentionsEarlier(asts, order, k - 1, a);
        PatchKeepsDivisionsSafe(asts[a], x);
      }
    }
  }

  /** Division safety survives expansion: checking the condition and every alias source is
      enough for every "/" node of the fully expanded condition. */
  lemma ExpansionKeepsDivisionsSafe(asts: map<string, Expr>, x: map<string, Expr>, cond: Expr)
    requires !HasCycle(asts) && IsExpansion(asts, x)
    requires SafeDivisions(cond) && forall a :: a in asts ==> SafeDivisions(asts[a])
    ensures SafeDivisions(Patch(cond, x))
  {
    var order := OrderExists(asts, asts.Keys);
    ExpandedAliasesSafe(asts, order, x, |order|);
    assert order[..|order|] == order;
    assert forall a :: a in asts <==> a in Elems(order);
    PatchKeepsDivisionsSafe(cond, x);
  }

  /** What the check buys at run time: a safe tree never divides by zero or by a value that is
      not a number, so changing what such a division yields cannot be observed. */
  lemma {:induction false} SafeTreesNeverDivideByZero(ops: Ops, ops': Ops, env: Env, e: Expr)
    requires SafeDivisions(e)
    requires ops' == ops.(binary := ops'.binary)
    requires forall op: string, l: Value, r: Value :: (op == "/" ==> r.Prim? && NonZero(r.lit)) ==>
      ops.binary(op, l, r) == ops'.binary(op, l, r)
    ensures Eval(ops, env, e) == Eval(ops', env, e)
    decreases e
  {
    match e
    case Lit(_) =>
    case Ident(_) =>
    case Member(o, p) =>
      SafeTreesNeverDivideByZero(ops, ops', env, o); SafeTreesNeverDivideByZero(ops, ops', env, p);
    case Unary(_, a) => SafeTreesNeverDivideByZero(ops, ops', env, a);
    case Binary(_, l, r) =>
      SafeTreesNeverDivideByZero(ops, ops', env, l); SafeTreesNeverDivideByZero(ops, ops', env, r);
    case Conditional(t, y, n) =>
      SafeTreesNeverDivideByZero(ops, ops', env, t);
      SafeTreesNeverDivideByZero(ops, ops', env, y);
      SafeTreesNeverDivideByZero(ops, ops', env, n);
    case Call(f, args) =>
      SafeTreesNeverDivideByZero(ops, ops', env, f);
      forall i | 0 <= i < |args| ensures Eval(ops, env, args[i]) == Eval(ops', env, args[i]) {
        SafeTreesNeverDivideByZero(ops, ops', env, args[i]);
      }
      assert seq(|args|, i requires 0 <= i < |args| => Eval(ops, env, args[i]))
          == seq(|args|, i requires 0 <= i < |args| => Eval(ops', env, args[i]));
  }
}
