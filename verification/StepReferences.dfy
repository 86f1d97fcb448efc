/**
 Step references of conditions: what validation gathers, through one level of aliases, against
 what the expanded condition names.
 */
module StepReferences {
  import opened Collections
  import opened Expr
  import opened AliasOrder
  import opened AliasExpand

  // ----- the reference-collecting visitor

  const STEPS := "steps"

  /** The step a node names by `steps.x`, `steps["x"]` or `steps[x]`. */
  function OwnStepRef(e: Expr): set<string> {
    if e.Member? && e.obj == Ident(STEPS) then
      match e.prop
      case Lit(StrLit(s)) => {s} - {""}
      case Ident(s) => {s} - {""}
      case _ => {}
    else {}
  }

  function StepRefs(e: Expr): set<string>
    decreases e
  {
    match e
    case Lit(_) => {}
    case Ident(_) => {}
    case Member(o, p) => StepRefs(o) + StepRefs(p) + OwnStepRef(e)
    case Unary(_, a) => StepRefs(a)
    case Binary(_, l, r) => StepRefs(l) + StepRefs(r)
    case Conditional(t, y, n) => StepRefs(t) + StepRefs(y) + StepRefs(n)
    case Call(f, args) => StepRefs(f) + StepRefsOfAll(args)
  }

  function StepRefsOfAll(es: seq<Expr>): set<string>
    decreases es
  {
    if es == [] then {}
    else StepRefsOfAll(es[..|es| - 1]) + StepRefs(es[|es| - 1])
  }

  lemma {:induction false} SomeArgHasRef(es: seq<Expr>, s: string) returns (i: nat)
    requires s in StepRefsOfAll(es)
    ensures i < |es| && s in StepRefs(es[i])
    decreases |es|
  {
    i := |es| - 1;
    if s !in StepRefs(es[i]) {
      i := SomeArgHasRef(es[..i], s);
    }
  }

  lemma {:induction false} ArgRefIncluded(es: seq<Expr>, i: nat, s: string)
    requires i < |es| && s in StepRefs(es[i])
    ensures s in StepRefsOfAll(es)
    decreases |es|
  {
    if i < |es| - 1 {
      ArgRefIncluded(es[..|es| - 1], i, s);
    }
  }

  class StepRefFinder {
    var refs: seq<string>
    var seen: set<string>

    ghost predicate Valid()
      reads this
    {
      NoDup(refs) && Elems(refs) == seen
    }

    constructor ()
      ensures Valid() && seen == {}
    {
      refs, seen := [], {};
    }

    method Visit(node: Expr)
      requires Valid()
      modifies this
      ensures Valid() && seen == old(seen) + OwnStepRef(node)
    {
      if !node.Member? { return; }
      if !node.obj.Ident? || node.obj.name != STEPS { return; }
      var stepName: string;
      match node.prop {
        case Lit(StrLit(s)) => stepName := s;
        case Ident(s) => stepName := s;
        case _ => return;
      }
      if stepName != "" && stepName !in seen {
        refs := refs + [stepName];
        seen := seen + {stepName};
      }
    }

    method Walk(node: Expr)
      requires Valid()
      modifies this
      ensures Valid() && seen == old(seen) + StepRefs(node)
      decreases node
    {
      match node {
        case Lit(_) =>
        case Ident(_) =>
        case Member(o, p) => Walk(o); Walk(p);
        case Unary(_, a) => Walk(a);
        case Binary(_, l, r) => Walk(l); Walk(r);
        case Conditional(t, y, n) => Walk(t); Walk(y); Walk(n);
        case Call(f, args) =>
          Walk(f);
          for i := 0 to |args|
            invariant Valid() && seen == old(seen) + StepRefs(f) + StepRefsOfAll(args[..i])
          {
            Walk(args[i]);
            assert args[..i + 1][..i] == args[..i];
          }
          assert args[..|args|] == args;
      }
      Visit(node);
    }
  }

  method ExtractStepRefs(source: string, parse: Parser) returns (r: RefsResult)
    ensures r.Refs? <==> parse(source).Parsed?
    ensures r.Refs? ==> NoDup(r.refs) && Elems(r.refs) == StepRefs(parse(source).e)
  {
    var tree := parse(source);
    if tree.SyntaxError? {
      return RefsError(tree.msg);
    }
    var finder := new StepRefFinder();
    finder.Walk(tree.e);
    return Refs(finder.refs);
  }

  /** The aliases whose source parses; the others contribute no references. */
  function Parsable(aliases: map<string, string>, parse: Parser): map<string, Expr> {
    map a | a in aliases && parse(aliases[a]).Parsed? :: parse(aliases[a]).e
  }

  /** A step named by an alias that the expression mentions. */
  ghost predicate ViaAlias(e: Expr, m: map<string, Expr>, s: string) {
    exists a :: a in Idents(e) && a in m && s in StepRefs(m[a])
  }

  /** What the validator gathers: direct references and those of the aliases mentioned. */
  ghost predicate Gathered(e: Expr, m: map<string, Expr>, s: string) {
    s in StepRefs(e) || ViaAlias(e, m, s)
  }

  datatype RefError = UnknownStep(step: string) | SelfReference(step: string) | ForwardReference(step: string)

  lemma NamedByOneMore(list: seq<string>, k: nat, m: map<string, Expr>, s: string)
    requires k < |list|
    ensures NamedByOneOf(list[..k + 1], m, s) <==>
      NamedByOneOf(list[..k], m, s) || (list[k] in m && s in StepRefs(m[list[k]]))
  {
    var more, less := list[..k + 1], list[..k];
    if NamedByOneOf(less, m, s) {
      var i :| 0 <= i < |less| && less[i] in m && s in StepRefs(m[less[i]]);
      assert more[i] == less[i];
    }
    if NamedByOneOf(more, m, s) {
      var i :| 0 <= i < |more| && more[i] in m && s in StepRefs(m[more[i]]);
      if i < k { assert less[i] == more[i]; }
    }
    if list[k] in m && s in StepRefs(m[list[k]]) {
      assert more[k] == list[k];
    }
  }

  /** What the listed aliases name. */
  method RefsOfAliases(list: seq<string>, aliases: map<string, string>, parse: Parser) returns (all: set<string>)
    requires forall k :: 0 <= k < |list| ==> list[k] in aliases
    ensures forall s :: s in all <==> NamedByOneOf(list, Parsable(aliases, parse), s)
  {
    all := {};
    ghost var m := Parsable(aliases, parse);
    for k := 0 to |list|
      invariant forall s :: s in all <==> NamedByOneOf(list[..k], m, s)
    {
      forall s ensures NamedByOneOf(list[..k + 1], m, s) <==>
        NamedByOneOf(list[..k], m, s) || (list[k] in m && s in StepRefs(m[list[k]]))
      {
        NamedByOneMore(list, k, m, s);
      }
      var aliasRefs := ExtractStepRefs(aliases[list[k]], parse);
      if aliasRefs.Refs? {
        assert forall s :: s in aliasRefs.refs <==> s in Elems(aliasRefs.refs);
        all := all + set s | s in aliasRefs.refs;
      }
    }
    assert list[..|list|] == list;
  }

  method GatherStepRefs(source: string, aliases: map<string, string>, parse: Parser) returns (all: set<string>)
    requires parse(source).Parsed?
    ensures forall s :: s in all <==> Gathered(parse(source).e, Parsable(aliases, parse), s)
  {
    var refs := ExtractStepRefs(source, parse);
    all := set s | s in refs.refs;
    assert all == StepRefs(parse(source).e);
    if |aliases| == 0 {
      return;
    }
    var used := ExtractAliasRefs(source, aliases.Keys, parse);
    assert forall k :: 0 <= k < |used.refs| ==> used.refs[k] in Elems(used.refs);
    var more := RefsOfAliases(used.refs, aliases, parse);
    ghost var e, m := parse(source).e, Parsable(aliases, parse);
    forall s ensures ViaAlias(e, m, s) <==> NamedByOneOf(used.refs, m, s) {
      NamedByOneOfUsed(e, aliases.Keys, used.refs, m, s);
    }
    all := all + more;
  }

  ghost predicate NamedByOneOf(list: seq<string>, m: map<string, Expr>, s: string) {
    exists i :: 0 <= i < |list| && list[i] in m && s in StepRefs(m[list[i]])
  }

  lemma NamedByOneOfUsed(e: Expr, names: set<string>, list: seq<string>, m: map<string, Expr>, s: string)
    requires Elems(list) == Idents(e) * names && m.Keys <= names
    ensures ViaAlias(e, m, s) <==> NamedByOneOf(list, m, s)
  {
    if ViaAlias(e, m, s) {
      var a :| a in Idents(e) && a in m && s in StepRefs(m[a]);
      assert a in Elems(list);
    }
    if NamedByOneOf(list, m, s) {
      var i :| 0 <= i < |list| && list[i] in m && s in StepRefs(m[list[i]]);
      assert list[i] in Elems(list);
    }
  }

  /** Reports, once each, exactly the errors that the gathered references deserve; a source that
      does not parse is reported elsewhere. */
  method ValidateStepRefs(source: string, current: int, stepNames: map<string, int>,
                          aliases: map<string, string>, parse: Parser)
    returns (errors: seq<RefError>)
    ensures NoDup(errors)
    ensures parse(source).Parsed? ==> var e, m := parse(source).e, Parsable(aliases, parse);
      && (forall s :: UnknownStep(s) in errors <==> Gathered(e, m, s) && s !in stepNames)
      && (forall s :: SelfReference(s) in errors <==> Gathered(e, m, s) && s in stepNames && stepNames[s] == current)
      && (forall s :: ForwardReference(s) in errors <==> Gathered(e, m, s) && s in stepNames && stepNames[s] > current)
    ensures errors == [] <==> (parse(source).Parsed? ==>
      Accepts(parse(source).e, Parsable(aliases, parse), stepNames, current))
  {
    errors := [];
    var tree := parse(source);
    if tree.SyntaxError? {
      return;
    }
    var all := GatherStepRefs(source, aliases, parse);
    var todo := all;
    while todo != {}
      invariant todo <= all && NoDup(errors)
      invariant forall s :: UnknownStep(s) in errors <==> s in all - todo && s !in stepNames
      invariant forall s :: SelfReference(s) in errors <==>
        s in all - todo && s in stepNames && stepNames[s] == current
      invariant forall s :: ForwardReference(s) in errors <==>
        s in all - todo && s in stepNames && stepNames[s] > current
      invariant errors == [] <==> forall s :: s in all - todo ==> s in stepNames && stepNames[s] < current
      decreases todo
    {
      var s :| s in todo;
      if s !in stepNames {
        errors := errors + [UnknownStep(s)];
      } else if stepNames[s] == current {
        errors := errors + [SelfReference(s)];
      } else if stepNames[s] > current {
        errors := errors + [ForwardReference(s)];
      }
      todo := todo - {s};
    }
  }

  // ----- conditions that validation accepts

  /** Every gathered reference is a known step of smaller index. */
  ghost predicate Accepts(e: Expr, asts: map<string, Expr>, stepNames: map<string, int>, current: int) {
    forall s :: Gathered(e, asts, s) ==> s in stepNames && stepNames[s] < current
  }

  /** Every step the tree names is a known step of smaller index. */
  ghost predicate LooksBack(e: Expr, stepNames: map<string, int>, current: int) {
    forall s :: s in StepRefs(e) ==> s in stepNames && stepNames[s] < current
  }

  /** No node is `steps[a]` with `a` one of the names: there the walk reads the name itself. */
  predicate NoAliasIndex(e: Expr, names: set<string>)
    decreases e
  {
    match e
    case Lit(_) => true
    case Ident(_) => true
    case Member(o, p) =>
      NoAliasIndex(o, names) && NoAliasIndex(p, names) &&
      !(o == Ident(STEPS) && p.Ident? && p.name in names)
    case Unary(_, a) => NoAliasIndex(a, names)
    case Binary(_, l, r) => NoAliasIndex(l, names) && NoAliasIndex(r, names)
    case Conditional(t, y, n) => NoAliasIndex(t, names) && NoAliasIndex(y, names) && NoAliasIndex(n, names)
    case Call(f, args) =>
      NoAliasIndex(f, names) && forall i :: 0 <= i < |args| ==> NoAliasIndex(args[i], names)
  }

  // ----- what is gathered and what is evaluated

  /** The steps that `steps[p]` names by itself. */
  function IndexRef(p: Expr): set<string> {
    OwnStepRef(Member(Ident(STEPS), p))
  }

  /** Expanding alias `a` names no step that its source does not, and as an index of `steps`, if
      it is used as one, none but itself besides. */
  ghost predicate NamesNoMore(asts: map<string, Expr>, x: map<string, Expr>, a: string, index: set<string>)
    requires a in asts && a in x
  {
    && x[a] != Ident(STEPS)
    && StepRefs(x[a]) <= StepRefs(asts[a])
    && (STEPS !in asts && a in index ==> IndexRef(x[a]) <= IndexRef(Ident(a)) + StepRefs(asts[a]))
  }

  /** Expanding alias `a` names every step that its source does, and as an index every step that
      the alias itself does. */
  ghost predicate NamesNoLess(asts: map<string, Expr>, x: map<string, Expr>, a: string, index: set<string>)
    requires a in asts && a in x
  {
    && StepRefs(asts[a]) <= StepRefs(x[a])
    && (a in index ==> IndexRef(Ident(a)) <= IndexRef(x[a]) + StepRefs(x[a]))
  }

  ghost predicate AllNameNoMore(asts: map<string, Expr>, x: map<string, Expr>, index: set<string>)
    requires x.Keys == asts.Keys
  {
    forall a :: a in asts ==> NamesNoMore(asts, x, a, index)
  }

  ghost predicate AllNameNoLess(asts: map<string, Expr>, x: map<string, Expr>, index: set<string>)
    requires x.Keys == asts.Keys
  {
    STEPS !in asts && forall a :: a in asts ==> NamesNoLess(asts, x, a, index)
  }

  /** A condition that indexes `steps` by no alias but those of `index`; all conditions do if
      `index` has every alias. */
  predicate IndexesBy(c: Expr, asts: map<string, Expr>, index: set<string>) {
    NoAliasIndex(c, asts.Keys - index)
  }

  /** Every step the expanded condition names was gathered. */
  lemma {:induction false} ExpandedIsGathered(e: Expr, asts: map<string, Expr>, x: map<string, Expr>,
                                             index: set<string>, s: string)
    requires x.Keys == asts.Keys && IndexesBy(e, asts, index)
    requires forall a :: a in Idents(e) && a in asts ==> NamesNoMore(asts, x, a, index)
    requires s in StepRefs(Patch(e, x))
    ensures Gathered(e, asts, s)
    decreases e
  {
    match e
    case Lit(_) =>
    case Ident(_) =>
    case Member(o, p) =>
      if s in StepRefs(Patch(o, x)) { ExpandedIsGathered(o, asts, x, index, s); }
      else if s in StepRefs(Patch(p, x)) { ExpandedIsGathered(p, asts, x, index, s); }
      else { OwnIsGathered(o, p, asts, x, index, s); }
    case Unary(_, a) => ExpandedIsGathered(a, asts, x, index, s);
    case Binary(_, l, r) =>
      if s in StepRefs(Patch(l, x)) { ExpandedIsGathered(l, asts, x, index, s); }
      else { ExpandedIsGathered(r, asts, x, index, s); }
    case Conditional(t, y, n) =>
      if s in StepRefs(Patch(t, x)) { ExpandedIsGathered(t, asts, x, index, s); }
      else if s in StepRefs(Patch(y, x)) { ExpandedIsGathered(y, asts, x, index, s); }
      else { ExpandedIsGathered(n, asts, x, index, s); }
    case Call(f, args) =>
      if s in StepRefs(Patch(f, x)) {
        ExpandedIsGathered(f, asts, x, index, s);
      } else {
        var i := SomeArgHasRef(Patch(e, x).args, s);
        ExpandedIsGathered(args[i], asts, x, index, s);
        GatheredInArg(f, args, i, asts, s);
      }
  }

  lemma GatheredInArg(f: Expr, args: seq<Expr>, i: nat, asts: map<string, Expr>, s: string)
    requires i < |args| && Gathered(args[i], asts, s)
    ensures Gathered(Call(f, args), asts, s)
  {
    if s in StepRefs(args[i]) { ArgRefIncluded(args, i, s); }
  }

  lemma OwnIsGathered(o: Expr, p: Expr, asts: map<string, Expr>, x: map<string, Expr>, index: set<string>, s: string)
    requires x.Keys == asts.Keys && IndexesBy(Member(o, p), asts, index)
    requires forall a :: a in Idents(Member(o, p)) && a in asts ==> NamesNoMore(asts, x, a, index)
    requires s in OwnStepRef(Member(Patch(o, x), Patch(p, x)))
    ensures Gathered(Member(o, p), asts, s)
  {
    assert o.Ident? && o.name in Idents(Member(o, p));
    assert o == Ident(STEPS) && STEPS !in asts;
    if p.Ident? && p.name in asts {
      assert p.name in Idents(p) && p.name in Idents(Member(o, p));
      assert NamesNoMore(asts, x, p.name, index);
      assert s in IndexRef(x[p.name]);
    } else {
      assert s in OwnStepRef(Member(o, p));
    }
  }

  /** Every gathered step is named by the expanded condition. */
  lemma {:induction false} GatheredIsExpanded(e: Expr, asts: map<string, Expr>, x: map<string, Expr>,
                                             index: set<string>, s: string)
    requires x.Keys == asts.Keys && IndexesBy(e, asts, index) && STEPS !in asts
    requires forall a :: a in Idents(e) && a in asts ==> NamesNoLess(asts, x, a, index)
    requires Gathered(e, asts, s)
    ensures s in StepRefs(Patch(e, x))
    decreases e
  {
    match e
    case Lit(_) =>
    case Ident(_) =>
    case Member(o, p) =>
      if Gathered(o, asts, s) { GatheredIsExpanded(o, asts, x, index, s); }
      else if Gathered(p, asts, s) { GatheredIsExpanded(p, asts, x, index, s); }
      else { OwnIsExpanded(o, p, asts, x, index, s); }
    case Unary(_, a) => GatheredIsExpanded(a, asts, x, index, s);
    case Binary(_, l, r) =>
      if Gathered(l, asts, s) { GatheredIsExpanded(l, asts, x, index, s); }
      else { GatheredIsExpanded(r, asts, x, index, s); }
    case Conditional(t, y, n) =>
      if Gathered(t, asts, s) { GatheredIsExpanded(t, asts, x, index, s); }
      else if Gathered(y, asts, s) { GatheredIsExpanded(y, asts, x, index, s); }
      else { GatheredIsExpanded(n, asts, x, index, s); }
    case Call(f, args) =>
      if Gathered(f, asts, s) {
        GatheredIsExpanded(f, asts, x, index, s);
      } else {
        var i := GatheredBySomeArg(f, args, asts, s);
        GatheredIsExpanded(args[i], asts, x, index, s);
        ArgRefIncluded(Patch(e, x).args, i, s);
      }
  }

  lemma GatheredBySomeArg(f: Expr, args: seq<Expr>, asts: map<string, Expr>, s: string) returns (i: nat)
    requires Gathered(Call(f, args), asts, s) && !Gathered(f, asts, s)
    ensures i < |args| && Gathered(args[i], asts, s)
  {
    if s in StepRefsOfAll(args) {
      i := SomeArgHasRef(args, s);
    } else {
      var a :| a in Idents(Call(f, args)) && a in asts && s in StepRefs(asts[a]);
      i :| 0 <= i < |args| && a in Idents(args[i]);
      assert ViaAlias(args[i], asts, s);
    }
  }

  lemma OwnIsExpanded(o: Expr, p: Expr, asts: map<string, Expr>, x: map<string, Expr>, index: set<string>, s: string)
    requires x.Keys == asts.Keys && IndexesBy(Member(o, p), asts, index) && STEPS !in asts
    requires forall a :: a in Idents(Member(o, p)) && a in asts ==> NamesNoLess(asts, x, a, index)
    requires Gathered(Member(o, p), asts, s) && !Gathered(o, asts, s) && !Gathered(p, asts, s)
    ensures s in StepRefs(Patch(Member(o, p), x))
  {
    assert !ViaAlias(Member(o, p), asts, s);
    assert o == Ident(STEPS) && s in IndexRef(p);
    assert Patch(Member(o, p), x) == Member(o, Patch(p, x));
    if p.Ident? && p.name in asts {
      assert p.name in Idents(p) && p.name in Idents(Member(o, p));
      assert NamesNoLess(asts, x, p.name, index);
    }
  }

  // ----- exactly when

  /** Conditions that tell whether an alias is well behaved. */
  lemma Probes(asts: map<string, Expr>, x: map<string, Expr>, a: string, index: set<string>)
    requires IsExpansion(asts, x) && a in asts
    ensures IndexesBy(Ident(a), asts, index) && Patch(Ident(a), x) == x[a]
    ensures forall s :: Gathered(Ident(a), asts, s) <==> s in StepRefs(asts[a])
    ensures a in index && STEPS !in asts ==> IndexesBy(Member(Ident(STEPS), Ident(a)), asts, index)
    ensures STEPS !in asts ==> Patch(Member(Ident(STEPS), Ident(a)), x) == Member(Ident(STEPS), x[a])
    ensures STEPS !in asts ==> forall s ::
      Gathered(Member(Ident(STEPS), Ident(a)), asts, s) <==> s in IndexRef(Ident(a)) + StepRefs(asts[a])
  {
    var c := Member(Ident(STEPS), Ident(a));
    assert Idents(Ident(a)) == {a} && Idents(c) == {STEPS, a};
    assert NoAliasIndex(c.obj, asts.Keys - index) && NoAliasIndex(c.prop, asts.Keys - index);
    assert StepRefs(c) == IndexRef(Ident(a));
  }

  /** `a.novel` names a step that is gathered exactly if `a` is `steps`, and named after
      expansion exactly if `a` stands for it. */
  lemma ObjectProbe(asts: map<string, Expr>, x: map<string, Expr>, a: string, index: set<string>)
    returns (c: Expr, novel: string)
    requires IsExpansion(asts, x) && a in asts
    ensures IndexesBy(c, asts, index)
    ensures Gathered(c, asts, novel) <==> a == STEPS
    ensures novel in StepRefs(Patch(c, x)) <==> x[a] == Ident(STEPS)
  {
    novel := NovelName(StepRefs(asts[a]) + StepRefs(x[a]));
    c := Member(Ident(a), Lit(StrLit(novel)));
    assert Idents(c) == {a};
    assert NoAliasIndex(c.obj, asts.Keys - index) && NoAliasIndex(c.prop, asts.Keys - index);
    assert Patch(c, x) == Member(x[a], Lit(StrLit(novel)));
    assert StepRefs(Patch(c, x)) == StepRefs(x[a]) + OwnStepRef(Patch(c, x));
    assert StepRefs(c) == OwnStepRef(c);
    assert novel in OwnStepRef(c) <==> a == STEPS;
    assert !ViaAlias(c, asts, novel);
  }

  /** An expanded alias that is `steps` is not called so. */
  lemma StepsIsNotItself(asts: map<string, Expr>, x: map<string, Expr>, a: string)
    requires IsExpansion(asts, x) && a in asts && x[a] == Ident(STEPS)
    ensures a != STEPS && STEPS !in asts
  {
    assert STEPS in Idents(x[a]);
  }

  ghost predicate GathersAll(c: Expr, asts: map<string, Expr>, x: map<string, Expr>) {
    forall s :: s in StepRefs(Patch(c, x)) ==> Gathered(c, asts, s)
  }

  ghost predicate GathersOnly(c: Expr, asts: map<string, Expr>, x: map<string, Expr>) {
    forall s :: Gathered(c, asts, s) ==> s in StepRefs(Patch(c, x))
  }

  /** No step of the expanded condition is missed, for every condition, exactly when no alias
      names more once expanded. */
  lemma GathersAllIff(asts: map<string, Expr>, x: map<string, Expr>, index: set<string>)
    requires IsExpansion(asts, x)
    ensures AllNameNoMore(asts, x, index) <==> forall c :: IndexesBy(c, asts, index) ==> GathersAll(c, asts, x)
  {
    if AllNameNoMore(asts, x, index) {
      forall c, s | IndexesBy(c, asts, index) && s in StepRefs(Patch(c, x)) ensures Gathered(c, asts, s) {
        ExpandedIsGathered(c, asts, x, index, s);
      }
    }
    if forall c :: IndexesBy(c, asts, index) ==> GathersAll(c, asts, x) {
      forall a | a in asts ensures NamesNoMore(asts, x, a, index) {
        NoMoreIsNeeded(asts, x, a, index);
      }
    }
  }

  lemma NoMoreIsNeeded(asts: map<string, Expr>, x: map<string, Expr>, a: string, index: set<string>)
    requires IsExpansion(asts, x) && a in asts
    requires forall c :: IndexesBy(c, asts, index) ==> GathersAll(c, asts, x)
    ensures NamesNoMore(asts, x, a, index)
  {
    Probes(asts, x, a, index);
    assert GathersAll(Ident(a), asts, x);
    if STEPS !in asts && a in index {
      assert GathersAll(Member(Ident(STEPS), Ident(a)), asts, x);
    }
    var c, novel := ObjectProbe(asts, x, a, index);
    assert GathersAll(c, asts, x);
    if x[a] == Ident(STEPS) {
      StepsIsNotItself(asts, x, a);
    }
  }

  /** Nothing else is gathered, for every condition, exactly when no alias is called `steps` and
      none names less once expanded. */
  lemma GathersOnlyIff(asts: map<string, Expr>, x: map<string, Expr>, index: set<string>)
    requires IsExpansion(asts, x)
    ensures AllNameNoLess(asts, x, index) <==> forall c :: IndexesBy(c, asts, index) ==> GathersOnly(c, asts, x)
  {
    if AllNameNoLess(asts, x, index) {
      forall c, s | IndexesBy(c, asts, index) && Gathered(c, asts, s) ensures s in StepRefs(Patch(c, x)) {
        GatheredIsExpanded(c, asts, x, index, s);
      }
    }
    if forall c :: IndexesBy(c, asts, index) ==> GathersOnly(c, asts, x) {
      if STEPS in asts {
        var c, novel := ObjectProbe(asts, x, STEPS, index);
        assert GathersOnly(c, asts, x);
        StepsIsNotItself(asts, x, STEPS);
      }
      forall a | a in asts ensures NamesNoLess(asts, x, a, index) {
        Probes(asts, x, a, index);
        assert GathersOnly(Ident(a), asts, x);
        if a in index {
          var c := Member(Ident(STEPS), Ident(a));
          assert GathersOnly(c, asts, x);
          assert StepRefs(Patch(c, x)) == StepRefs(x[a]) + IndexRef(x[a]);
          assert forall s :: s in IndexRef(Ident(a)) ==> Gathered(c, asts, s);
        }
      }
    }
  }

  /** The aliases mean for step references what their sources say: none is or stands for `steps`,
      expanding one changes no step it names, and as an index it selects what it says. */
  ghost predicate AllNameAlike(asts: map<string, Expr>, x: map<string, Expr>, index: set<string>)
    requires x.Keys == asts.Keys
  {
    && STEPS !in asts
    && forall a :: a in asts ==>
      && x[a] != Ident(STEPS) && StepRefs(x[a]) == StepRefs(asts[a])
      && (a in index ==> IndexRef(x[a]) + StepRefs(x[a]) == IndexRef(Ident(a)) + StepRefs(asts[a]))
  }

  lemma AlikeIsBoth(asts: map<string, Expr>, x: map<string, Expr>, index: set<string>)
    requires x.Keys == asts.Keys
    ensures AllNameAlike(asts, x, index) <==> AllNameNoMore(asts, x, index) && AllNameNoLess(asts, x, index)
  {
    if AllNameAlike(asts, x, index) {
      forall a | a in asts ensures NamesNoMore(asts, x, a, index) && NamesNoLess(asts, x, a, index) {
      }
    }
    if AllNameNoMore(asts, x, index) && AllNameNoLess(asts, x, index) {
      forall a | a in asts
        ensures x[a] != Ident(STEPS) && StepRefs(x[a]) == StepRefs(asts[a])
        ensures a in index ==> IndexRef(x[a]) + StepRefs(x[a]) == IndexRef(Ident(a)) + StepRefs(asts[a])
      {
        assert NamesNoMore(asts, x, a, index) && NamesNoLess(asts, x, a, index);
      }
    }
  }

  ghost predicate Exact(c: Expr, asts: map<string, Expr>, x: map<string, Expr>) {
    forall s :: Gathered(c, asts, s) <==> s in StepRefs(Patch(c, x))
  }

  /** What is gathered is what the expanded condition names, for every condition that indexes
      `steps` by no alias but those of `index`, exactly when the aliases name alike. With every
      alias in `index` this is about all conditions. */
  lemma GatheringExactIff(asts: map<string, Expr>, x: map<string, Expr>, index: set<string>)
    requires IsExpansion(asts, x)
    ensures AllNameAlike(asts, x, index) <==> forall c :: IndexesBy(c, asts, index) ==> Exact(c, asts, x)
  {
    AlikeIsBoth(asts, x, index);
    GathersAllIff(asts, x, index);
    GathersOnlyIff(asts, x, index);
    forall c ensures Exact(c, asts, x) <==> GathersAll(c, asts, x) && GathersOnly(c, asts, x) {
    }
  }

  /** For all conditions alike. */
  lemma EveryConditionIndexes(c: Expr, asts: map<string, Expr>)
    ensures IndexesBy(c, asts, asts.Keys)
  {
    assert asts.Keys - asts.Keys == {};
    NoAliasNoIndex(c, {});
  }

  lemma {:induction false} NoAliasNoIndex(e: Expr, names: set<string>)
    requires Idents(e) !! names
    ensures NoAliasIndex(e, names)
    decreases e
  {
    match e
    case Lit(_) =>
    case Ident(_) =>
    case Member(o, p) => NoAliasNoIndex(o, names); NoAliasNoIndex(p, names);
    case Unary(_, a) => NoAliasNoIndex(a, names);
    case Binary(_, l, r) => NoAliasNoIndex(l, names); NoAliasNoIndex(r, names);
    case Conditional(t, y, n) => NoAliasNoIndex(t, names); NoAliasNoIndex(y, names); NoAliasNoIndex(n, names);
    case Call(f, args) =>
      NoAliasNoIndex(f, names);
      forall i | 0 <= i < |args| ensures NoAliasIndex(args[i], names) {
        NoAliasNoIndex(args[i], names);
      }
  }

  // ----- accepted conditions look back

  /** Whatever the steps, the condition is accepted only if it looks back once expanded. */
  ghost predicate AlwaysLooksBack(c: Expr, asts: map<string, Expr>, x: map<string, Expr>) {
    forall stepNames, current ::
      Accepts(c, asts, stepNames, current) ==> LooksBack(Patch(c, x), stepNames, current)
  }

  function GatheredSet(c: Expr, asts: map<string, Expr>): set<string> {
    StepRefs(c) + set a, s | a in Idents(c) && a in asts && s in StepRefs(asts[a]) :: s
  }

  lemma GatheredSetIsGathered(c: Expr, asts: map<string, Expr>)
    ensures forall s :: s in GatheredSet(c, asts) <==> Gathered(c, asts, s)
  {
  }

  /** A condition is accepted only if it looks back, whatever the steps, exactly when no step of
      the expanded condition is missed. */
  lemma LooksBackIffGathersAll(c: Expr, asts: map<string, Expr>, x: map<string, Expr>)
    ensures GathersAll(c, asts, x) <==> AlwaysLooksBack(c, asts, x)
  {
    if AlwaysLooksBack(c, asts, x) {
      var names := map s | s in GatheredSet(c, asts) :: 0;
      GatheredSetIsGathered(c, asts);
      assert Accepts(c, asts, names, 1);
      assert LooksBack(Patch(c, x), names, 1);
    }
  }

  /** Every accepted condition, once expanded, names only known steps of strictly smaller index,
      exactly when no alias names more once expanded. */
  lemma AcceptedLookBackIff(asts: map<string, Expr>, x: map<string, Expr>, index: set<string>)
    requires IsExpansion(asts, x)
    ensures AllNameNoMore(asts, x, index) <==> forall c :: IndexesBy(c, asts, index) ==> AlwaysLooksBack(c, asts, x)
  {
    GathersAllIff(asts, x, index);
    forall c ensures GathersAll(c, asts, x) <==> AlwaysLooksBack(c, asts, x) {
      LooksBackIffGathersAll(c, asts, x);
    }
  }

  // ----- the condition read off the sources

  /** No alias is called `steps` or is the bare `steps`, and an alias itself names every step that
      an alias it mentions names. */
  ghost predicate StepsFlow(asts: map<string, Expr>) {
    && STEPS !in asts
    && (forall a :: a in asts ==> asts[a] != Ident(STEPS))
    && forall a, b :: DependsOn(asts, a, b) ==> StepRefs(asts[b]) <= StepRefs(asts[a])
  }

  /** As an index the alias selects what it says: its source is its own name as a string, or names
      a step of its name and is neither a string nor an identifier. */
  predicate SelectsItself(asts: map<string, Expr>, a: string)
    requires a in asts
  {
    match asts[a]
    case Lit(StrLit(s)) => s == a
    case Ident(_) => false
    case _ => a in StepRefs(asts[a])
  }

  /** What the sources say, with the aliases of `index` used as indexes. */
  ghost predicate SourcesFlow(asts: map<string, Expr>, index: set<string>) {
    && StepsFlow(asts)
    && (forall a :: a in asts && a in index ==> SelectsItself(asts, a))
    && (forall a :: a in asts ==> IndexesBy(asts[a], asts, index))
  }

  lemma FlowNamesAlike(asts: map<string, Expr>, x: map<string, Expr>, index: set<string>, a: string)
    requires IsExpansion(asts, x) && SourcesFlow(asts, index) && a in asts
    requires forall b :: b in Idents(asts[a]) && b in asts ==>
      NamesNoMore(asts, x, b, index) && NamesNoLess(asts, x, b, index)
    ensures NamesNoMore(asts, x, a, index) && NamesNoLess(asts, x, a, index)
  {
    assert x[a] == Patch(asts[a], x);
    forall s ensures s in StepRefs(x[a]) <==> s in StepRefs(asts[a]) {
      if s in StepRefs(x[a]) { ExpandedIsGathered(asts[a], asts, x, index, s); }
      if s in StepRefs(asts[a]) { GatheredIsExpanded(asts[a], asts, x, index, s); }
      assert forall b :: b in Idents(asts[a]) && b in asts ==> DependsOn(asts, a, b);
    }
    if asts[a].Ident? {
      assert asts[a].name in Idents(asts[a]);
    }
  }

  lemma {:induction false} FlowNamesAlikeUpTo(asts: map<string, Expr>, x: map<string, Expr>, index: set<string>,
                                             order: seq<string>, k: nat)
    requires IsExpansion(asts, x) && SourcesFlow(asts, index) && IsTopoOrder(asts, order) && k <= |order|
    ensures forall a :: a in order[..k] ==>
      a in asts && NamesNoMore(asts, x, a, index) && NamesNoLess(asts, x, a, index)
  {
    if k > 0 {
      FlowNamesAlikeUpTo(asts, x, index, order, k - 1);
      forall a | a in order[..k] ensures a in asts && NamesNoMore(asts, x, a, index) && NamesNoLess(asts, x, a, index) {
        EarlierMentionsEarlier(asts, order, k - 1, a);
        FlowNamesAlike(asts, x, index, a);
      }
    }
  }

  lemma FlowIsEnough(asts: map<string, Expr>, x: map<string, Expr>, index: set<string>)
    requires !HasCycle(asts) && IsExpansion(asts, x) && SourcesFlow(asts, index)
    ensures AllNameAlike(asts, x, index)
  {
    var order := OrderExists(asts, asts.Keys);
    assert order[..|order|] == order;
    assert forall a :: a in asts <==> a in Elems(order);
    FlowNamesAlikeUpTo(asts, x, index, order, |order|);
    AlikeIsBoth(asts, x, index);
  }

  lemma StepsFlowIsNeeded(asts: map<string, Expr>, x: map<string, Expr>, index: set<string>)
    requires IsExpansion(asts, x) && AllNameAlike(asts, x, index)
    requires forall a :: a in asts ==> IndexesBy(asts[a], asts, index)
    ensures StepsFlow(asts)
  {
    GatheringExactIff(asts, x, index);
    forall a | a in asts ensures asts[a] != Ident(STEPS) {
      assert x[a] == Patch(asts[a], x);
    }
    forall a, b, s | DependsOn(asts, a, b) && s in StepRefs(asts[b]) ensures s in StepRefs(asts[a]) {
      assert Exact(asts[a], asts, x);
      assert ViaAlias(asts[a], asts, s);
    }
  }

  /** An alias whose source is an identifier never selects as an index what it says, if the aliases
      all name alike: a chain of aliases ends in something else than the name it began with. */
  lemma SelectingIsNeeded(asts: map<string, Expr>, x: map<string, Expr>, a: string)
    requires IsExpansion(asts, x) && AllNameAlike(asts, x, asts.Keys) && "" !in asts && a in asts
    requires !DependsOn(asts, a, a)
    ensures SelectsItself(asts, a)
  {
    assert x[a] == Patch(asts[a], x);
    assert a in IndexRef(Ident(a));
  }

  /** For acyclic aliases with names, the gathering is exact for all conditions if and only if
      every alias names the steps of the aliases it mentions and selects itself as an index. */
  lemma GatheringExactIffSourcesFlow(asts: map<string, Expr>, x: map<string, Expr>)
    requires !HasCycle(asts) && IsExpansion(asts, x) && "" !in asts
    ensures SourcesFlow(asts, asts.Keys) <==> forall c :: Exact(c, asts, x)
  {
    forall c ensures IndexesBy(c, asts, asts.Keys) { EveryConditionIndexes(c, asts); }
    GatheringExactIff(asts, x, asts.Keys);
    if SourcesFlow(asts, asts.Keys) {
      FlowIsEnough(asts, x, asts.Keys);
    }
    if forall c :: Exact(c, asts, x) {
      StepsFlowIsNeeded(asts, x, asts.Keys);
      forall a | a in asts ensures SelectsItself(asts, a) {
        if DependsOn(asts, a, a) {
          assert IsPath(asts, [a, a]);
          assert false;
        }
        SelectingIsNeeded(asts, x, a);
      }
    }
  }

  /** And for the conditions that do not index `steps` by an alias, where no alias does either. */
  lemma GatheringExactIffStepsFlow(asts: map<string, Expr>, x: map<string, Expr>)
    requires !HasCycle(asts) && IsExpansion(asts, x)
    requires forall a :: a in asts ==> NoAliasIndex(asts[a], asts.Keys)
    ensures StepsFlow(asts) <==> forall c :: NoAliasIndex(c, asts.Keys) ==> Exact(c, asts, x)
  {
    assert asts.Keys - {} == asts.Keys;
    GatheringExactIff(asts, x, {});
    if StepsFlow(asts) {
      FlowIsEnough(asts, x, {});
    }
    if AllNameAlike(asts, x, {}) {
      StepsFlowIsNeeded(asts, x, {});
    }
  }

  /** Where no alias is `steps` and no source indexes `steps` by an alias, expansion loses no step. */
  lemma {:induction false} NothingLostUpTo(asts: map<string, Expr>, x: map<string, Expr>, order: seq<string>, k: nat)
    requires IsExpansion(asts, x) && STEPS !in asts && IsTopoOrder(asts, order) && k <= |order|
    requires forall a :: a in asts ==> IndexesBy(asts[a], asts, {})
    ensures forall a :: a in order[..k] ==> a in asts && NamesNoLess(asts, x, a, {})
  {
    if k > 0 {
      NothingLostUpTo(asts, x, order, k - 1);
      forall a | a in order[..k] ensures a in asts && NamesNoLess(asts, x, a, {}) {
        EarlierMentionsEarlier(asts, order, k - 1, a);
        forall s | s in StepRefs(asts[a]) ensures s in StepRefs(x[a]) {
          GatheredIsExpanded(asts[a], asts, x, {}, s);
        }
      }
    }
  }

  lemma NothingLost(asts: map<string, Expr>, x: map<string, Expr>)
    requires !HasCycle(asts) && IsExpansion(asts, x) && STEPS !in asts
    requires forall a :: a in asts ==> IndexesBy(asts[a], asts, {})
    ensures AllNameNoLess(asts, x, {})
  {
    var order := OrderExists(asts, asts.Keys);
    assert order[..|order|] == order;
    assert forall a :: a in asts <==> a in Elems(order);
    NothingLostUpTo(asts, x, order, |order|);
  }

  /** So every accepted condition without such an index looks back, if and only if every alias
      names the steps of the aliases it mentions and none is the bare `steps`. */
  lemma AcceptedLookBackIffStepsFlow(asts: map<string, Expr>, x: map<string, Expr>)
    requires !HasCycle(asts) && IsExpansion(asts, x) && STEPS !in asts
    requires forall a :: a in asts ==> NoAliasIndex(asts[a], asts.Keys)
    ensures StepsFlow(asts) <==> forall c :: NoAliasIndex(c, asts.Keys) ==> AlwaysLooksBack(c, asts, x)
  {
    assert asts.Keys - {} == asts.Keys;
    NothingLost(asts, x);
    AlikeIsBoth(asts, x, {});
    GatheringExactIff(asts, x, {});
    GatheringExactIffStepsFlow(asts, x);
    AcceptedLookBackIff(asts, x, {});
  }

  /** No alias mentions another alias, none is `steps`, none is the bare `steps`. */
  predicate FlatAliases(asts: map<string, Expr>) {
    && STEPS !in asts
    && forall a :: a in asts ==> asts[a] != Ident(STEPS) && Idents(asts[a]) !! asts.Keys
  }

  /** With aliases that do not refer to one another, a condition that indexes `steps` by none of
      them has exactly the gathered references, so an accepted one looks back. */
  lemma FlatAliasesAreExact(asts: map<string, Expr>, x: map<string, Expr>, c: Expr)
    requires IsExpansion(asts, x) && FlatAliases(asts) && NoAliasIndex(c, asts.Keys)
    ensures Exact(c, asts, x)
    ensures AlwaysLooksBack(c, asts, x)
  {
    forall a | a in asts ensures NoAliasIndex(asts[a], asts.Keys) {
      NoAliasNoIndex(asts[a], asts.Keys);
    }
    forall a, b ensures !DependsOn(asts, a, b) {
    }
    forall p: seq<string> | |p| >= 2 ensures !IsPath(asts, p) {
      assert !DependsOn(asts, p[0], p[0 + 1]);
    }
    GatheringExactIffStepsFlow(asts, x);
    LooksBackIffGathersAll(c, asts, x);
  }

  // ----- how validation is escaped

  /** Only one alias level is followed: a nested alias hides a forward reference. */
  lemma NestedAliasEscapesValidation()
    ensures var inner, outer := Member(Ident("steps"), Lit(StrLit("later"))), Ident("inner");
            var asts := map["inner" := inner, "outer" := outer];
            exists x :: IsExpansion(asts, x) && "later" in StepRefs(Patch(Ident("outer"), x))
              && forall s :: !Gathered(Ident("outer"), asts, s)
  {
    var inner, outer := Member(Ident("steps"), Lit(StrLit("later"))), Ident("inner");
    var asts, x := map["inner" := inner, "outer" := outer], map["inner" := inner, "outer" := inner];
    assert Idents(inner) == {"steps"};
    assert Patch(inner, x) == inner;
    assert IsExpansion(asts, x);
    assert "later" in OwnStepRef(inner);
    assert Idents(Ident("outer")) == {"outer"} && StepRefs(outer) == {};
  }

  /** `steps[a]` with `a` an alias: the name of the alias is checked, not the step it selects. */
  lemma AliasIndexEscapesValidation()
    ensures var asts, cond := map["a" := Ident("later")], Member(Ident("steps"), Ident("a"));
            IsExpansion(asts, asts) && "later" in StepRefs(Patch(cond, asts)) && !Gathered(cond, asts, "later")
  {
    var asts, cond := map["a" := Ident("later")], Member(Ident("steps"), Ident("a"));
    assert Patch(cond, asts) == Member(Ident("steps"), Ident("later"));
    assert "later" in OwnStepRef(Patch(cond, asts));
    assert StepRefs(cond) == {"a"};
    assert StepRefs(Ident("later")) == {};
  }
}
