/**
 Expanding condition aliases: each alias tree is patched with the trees expanded before it,
 and a step condition is patched with all of them. The expanded condition means what the
 condition means when every alias denotes the value of its own source.
 */
module AliasExpand {
  import opened Collections
  import opened Expr
  import opened AliasOrder

  // ----- what an expansion is

  ghost predicate AliasFree(e: Expr, names: set<string>) {
    Idents(e) !! names
  }

  /** Trees in which every alias is its source with all aliases replaced. */
  ghost predicate IsExpansion(asts: map<string, Expr>, x: map<string, Expr>) {
    && x.Keys == asts.Keys
    && forall a :: a in asts ==> x[a] == Patch(asts[a], x) && AliasFree(x[a], asts.Keys)
  }

  /** `d` gives every alias the value its source has when aliases denote what `d` says. */
  ghost predicate Solves(ops: Ops, env: Env, asts: map<string, Expr>, d: Env) {
    && d.Keys == asts.Keys
    && forall a :: a in asts ==> d[a] == Eval(ops, env + d, asts[a])
  }

  // ----- the code

  /** A name that is not an alias reads as the empty source, as a missing map entry does. */
  function Source(aliases: map<string, string>, name: string): string {
    if name in aliases then aliases[name] else ""
  }

  ghost predicate OrderParses(aliases: map<string, string>, order: seq<string>, parse: Parser) {
    forall i :: 0 <= i < |order| ==> parse(Source(aliases, order[i])).Parsed?
  }

  ghost function ExpandAll(aliases: map<string, string>, order: seq<string>, parse: Parser): (x: map<string, Expr>)
    requires OrderParses(aliases, order, parse)
    ensures x.Keys == Elems(order)
  {
    if order == [] then map[]
    else
      var k := |order| - 1;
      var x := ExpandAll(aliases, order[..k], parse);
      x[order[k] := Patch(parse(Source(aliases, order[k])).e, x)]
  }

  lemma ExpandOneMore(aliases: map<string, string>, order: seq<string>, parse: Parser, k: nat)
    requires k < |order| && OrderParses(aliases, order[..k], parse)
    requires parse(Source(aliases, order[k])).Parsed?
    ensures OrderParses(aliases, order[..k + 1], parse)
    ensures var x := ExpandAll(aliases, order[..k], parse);
            ExpandAll(aliases, order[..k + 1], parse)
              == x[order[k] := Patch(parse(Source(aliases, order[k])).e, x)]
  {
    assert order[..k + 1][..k] == order[..k];
  }

  datatype BuildResult = Built(asts: map<string, Expr>) | BuildError(name: string, msg: string)

  method BuildAliasASTs(aliases: map<string, string>, order: seq<string>, parse: Parser)
    returns (r: BuildResult)
    ensures r.Built? <==> OrderParses(aliases, order, parse)
    ensures r.Built? ==> r.asts == ExpandAll(aliases, order, parse)
  {
    var result: map<string, Expr> := map[];
    for k := 0 to |order|
      invariant OrderParses(aliases, order[..k], parse)
      invariant result == ExpandAll(aliases, order[..k], parse)
    {
      var name := order[k];
      var tree := parse(Source(aliases, name));
      if tree.SyntaxError? {
        return BuildError(name, tree.msg);
      }
      ExpandOneMore(aliases, order, parse, k);
      var node := tree.e;
      if |result| > 0 {
        node := Patch(node, result);
      } else {
        PatchFixed(node, result);
      }
      result := result[name := node];
    }
    assert order[..|order|] == order;
    return Built(result);
  }

  datatype CompileResult =
    | Compiled(tree: Expr)
    | AliasError(sort: SortResult)
    | ConditionError(msg: string)
    | NotBoolean(tree: Expr)

  /** `tree` is the condition with every alias expanded. */
  ghost predicate IsExpanded(asts: map<string, Expr>, cond: Expr, tree: Expr) {
    exists x :: IsExpansion(asts, x) && tree == Patch(cond, x)
  }

  /** A step condition compiles exactly when everything parses, the aliases have no cycle and the
      expanded condition passes the library's type check; that is then the compiled tree. */
  method CompileCondition(aliases: map<string, string>, condition: string, parse: Parser, isBoolean: Expr -> bool)
    returns (r: CompileResult)
    ensures r.AliasError? <==> !AllParse(aliases, parse) || HasCycle(Asts(aliases, parse))
    ensures r.ConditionError? <==> !r.AliasError? && parse(condition).SyntaxError?
    ensures r.Compiled? || r.NotBoolean? ==>
      IsExpanded(Asts(aliases, parse), parse(condition).e, r.tree) && (r.Compiled? <==> isBoolean(r.tree))
  {
    var sorted := TopoSortAliases(aliases, parse);
    if !sorted.Sorted? {
      return AliasError(sorted);
    }
    assert forall i :: 0 <= i < |sorted.order| ==> sorted.order[i] in Elems(sorted.order);
    var built := BuildAliasASTs(aliases, sorted.order, parse);
    if built.BuildError? {
      assert false;
    }
    ExpandAllIsExpansion(aliases, sorted.order, parse);
    var tree := parse(condition);
    if tree.SyntaxError? {
      return ConditionError(tree.msg);
    }
    var patched := Patch(tree.e, built.asts);
    return if isBoolean(patched) then Compiled(patched) else NotBoolean(patched);
  }

  // ----- the loop builds an expansion

  lemma {:induction false} ExpandPrefix(aliases: map<string, string>, order: seq<string>, parse: Parser, k: nat)
    requires AllParse(aliases, parse) && IsTopoOrder(Asts(aliases, parse), order) && k <= |order|
    requires OrderParses(aliases, order[..k], parse)
    ensures var x, asts := ExpandAll(aliases, order[..k], parse), Asts(aliases, parse);
            forall a :: a in x ==> x[a] == Patch(asts[a], x) && AliasFree(x[a], asts.Keys)
  {
    if k > 0 {
      assert order[..k][..k - 1] == order[..k - 1];
      ExpandPrefix(aliases, order, parse, k - 1);
      var asts := Asts(aliases, parse);
      var y, x, name := ExpandAll(aliases, order[..k - 1], parse), ExpandAll(aliases, order[..k], parse), order[k - 1];
      assert name in Elems(order) && name in asts;
      assert x == y[name := Patch(asts[name], y)];
      assert name !in y;
      PatchedIsAliasFree(asts[name], y, asts.Keys);
      forall a | a in x ensures x[a] == Patch(asts[a], x) && AliasFree(x[a], asts.Keys) {
        EarlierMentionsEarlier(asts, order, k - 1, a);
        PatchAgrees(asts[a], y, x);
      }
    }
  }

  /** An alias among the first `k + 1` mentions only aliases among the first `k`. */
  lemma EarlierMentionsEarlier(asts: map<string, Expr>, order: seq<string>, k: nat, a: string)
    requires IsTopoOrder(asts, order) && k < |order| && a in order[..k + 1]
    ensures a in asts && forall b :: b in Idents(asts[a]) && b in asts ==> b in order[..k]
  {
    var i :| 0 <= i <= k && order[i] == a;
    assert a in Elems(order);
    forall b | b in Idents(asts[a]) && b in asts ensures b in order[..k] {
      assert DependsOn(asts, order[i], b);
      assert b in order[..i];
    }
  }

  lemma PatchedIsAliasFree(e: Expr, m: map<string, Expr>, names: set<string>)
    requires Idents(e) * names <= m.Keys
    requires forall a :: a in m ==> AliasFree(m[a], names)
    ensures AliasFree(Patch(e, m), names)
  {
    forall x | x in Idents(Patch(e, m)) ensures x !in names {
      PatchIdents(e, m, x);
    }
  }

  lemma ExpandAllIsExpansion(aliases: map<string, string>, order: seq<string>, parse: Parser)
    requires AllParse(aliases, parse) && IsTopoOrder(Asts(aliases, parse), order)
    requires OrderParses(aliases, order, parse)
    ensures IsExpansion(Asts(aliases, parse), ExpandAll(aliases, order, parse))
  {
    assert order[..|order|] == order;
    ExpandPrefix(aliases, order, parse, |order|);
  }

  // ----- an acyclic alias map has an order

  ghost predicate OrdersPart(asts: map<string, Expr>, order: seq<string>, u: set<string>) {
    && NoDup(order)
    && Elems(order) == u
    && forall i, b :: 0 <= i < |order| && b in u && DependsOn(asts, order[i], b) ==> b in order[..i]
  }

  lemma {:induction false} OrderExists(asts: map<string, Expr>, u: set<string>) returns (order: seq<string>)
    requires !HasCycle(asts) && u <= asts.Keys
    ensures OrdersPart(asts, order, u)
    decreases u
  {
    order := [];
    if u != {} {
      if IsTrap(asts, u) {
        TrapHasCycle(asts, u);
      }
      var last :| last in u && !Awaited(asts, u, last);
      var front := OrderExists(asts, u - {last});
      order := front + [last];
      assert last !in Elems(front);
      assert Elems(order) == Elems(front) + {last};
      forall i, b | 0 <= i < |order| && b in u && DependsOn(asts, order[i], b) ensures b in order[..i] {
        assert order[i] in Elems(order);
        assert b in Elems(front);
        assert order[..i] == front[..i];
        if i == |front| { assert front[..i] == front; }
      }
    }
  }

  // ----- meaning is preserved

  ghost function Denotation(ops: Ops, env: Env, x: map<string, Expr>): Env {
    map a | a in x :: Eval(ops, env, x[a])
  }

  /** The values of the expanded trees solve the alias equations. */
  lemma ExpansionSolves(ops: Ops, env: Env, asts: map<string, Expr>, x: map<string, Expr>)
    requires IsExpansion(asts, x)
    ensures Solves(ops, env, asts, Denotation(ops, env, x))
  {
    var d := Denotation(ops, env, x);
    forall a | a in asts ensures d[a] == Eval(ops, env + d, asts[a]) {
      PatchIsOverlay(ops, env, asts[a], x);
      assert Overlay(ops, env, x) == env + d;
    }
  }

  /** Nothing else solves them: along an order, each alias is forced. */
  lemma {:induction false} SolutionForced(ops: Ops, env: Env, asts: map<string, Expr>, order: seq<string>,
                                          d: Env, d': Env, k: nat)
    requires IsTopoOrder(asts, order) && k <= |order|
    requires Solves(ops, env, asts, d) && Solves(ops, env, asts, d')
    ensures forall a :: a in order[..k] ==> a in d && a in d' && d[a] == d'[a]
  {
    if k > 0 {
      SolutionForced(ops, env, asts, order, d, d', k - 1);
      forall a | a in order[..k] ensures a in d && a in d' && d[a] == d'[a] {
        EarlierMentionsEarlier(asts, order, k - 1, a);
        EvalAgrees(ops, env + d, env + d', asts[a]);
      }
    }
  }

  lemma SolutionUnique(ops: Ops, env: Env, asts: map<string, Expr>, d: Env, d': Env)
    requires !HasCycle(asts) && Solves(ops, env, asts, d) && Solves(ops, env, asts, d')
    ensures d == d'
  {
    var order := OrderExists(asts, asts.Keys);
    SolutionForced(ops, env, asts, order, d, d', |order|);
    assert order[..|order|] == order;
    assert forall a :: a in asts <==> a in Elems(order);
  }

  /** Alias expansion preserves meaning, for every acyclic alias map, condition, environment
      and operator semantics: the patched condition evaluates to what the condition evaluates
      to when each alias denotes the value of its source (the unique `d` with that property). */
  lemma ExpansionPreservesMeaning(ops: Ops, env: Env, asts: map<string, Expr>, x: map<string, Expr>,
                                  cond: Expr, d: Env)
    requires !HasCycle(asts) && IsExpansion(asts, x) && Solves(ops, env, asts, d)
    ensures Eval(ops, env, Patch(cond, x)) == Eval(ops, env + d, cond)
    ensures forall a :: a in asts ==> Eval(ops, env, x[a]) == d[a]
  {
    ExpansionSolves(ops, env, asts, x);
    SolutionUnique(ops, env, asts, d, Denotation(ops, env, x));
    PatchIsOverlay(ops, env, cond, x);
    assert Overlay(ops, env, x) == env + d;
  }

  /** An expanded condition mentions no alias, so a second pass leaves it alone. */
  lemma SecondPassChangesNothing(asts: map<string, Expr>, x: map<string, Expr>, cond: Expr)
    requires IsExpansion(asts, x)
    ensures AliasFree(Patch(cond, x), asts.Keys)
    ensures Patch(Patch(cond, x), x) == Patch(cond, x)
  {
    PatchedIsAliasFree(cond, x, asts.Keys);
    PatchFixed(Patch(cond, x), x);
  }

  lemma {:induction false} ExpansionForced(asts: map<string, Expr>, order: seq<string>,
                                           x: map<string, Expr>, y: map<string, Expr>, k: nat)
    requires IsTopoOrder(asts, order) && IsExpansion(asts, x) && IsExpansion(asts, y) && k <= |order|
    ensures forall a :: a in order[..k] ==> a in x && a in y && x[a] == y[a]
  {
    if k > 0 {
      ExpansionForced(asts, order, x, y, k - 1);
      forall a | a in order[..k] ensures a in x && a in y && x[a] == y[a] {
        EarlierMentionsEarlier(asts, order, k - 1, a);
        PatchAgrees(asts[a], x, y);
      }
    }
  }

  /** Whatever order the sort returned, the expanded trees are the same. */
  lemma ExpansionUnique(asts: map<string, Expr>, x: map<string, Expr>, y: map<string, Expr>)
    requires !HasCycle(asts) && IsExpansion(asts, x) && IsExpansion(asts, y)
    ensures x == y
  {
    var order := OrderExists(asts, asts.Keys);
    ExpansionForced(asts, order, x, y, |order|);
    assert order[..|order|] == order;
    assert forall a :: a in asts <==> a in Elems(order);
  }
}
