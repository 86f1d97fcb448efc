/**
 Ordering condition aliases by dependency: Kahn's algorithm over the references that a
 visitor collects from each parsed alias.
 */
module AliasOrder {
  import opened Collections
  import opened Expr

  datatype ParseResult = Parsed(e: Expr) | SyntaxError(msg: string)

  /** The expression parser is foreign code: an arbitrary total function of the source. */
  type Parser = string -> ParseResult

  predicate AllParse(aliases: map<string, string>, parse: Parser) {
    forall a :: a in aliases ==> parse(aliases[a]).Parsed?
  }

  function Asts(aliases: map<string, string>, parse: Parser): map<string, Expr>
    requires AllParse(aliases, parse)
  {
    map a | a in aliases :: parse(aliases[a]).e
  }

  /** Alias `a` mentions alias `b`. */
  predicate DependsOn(asts: map<string, Expr>, a: string, b: string) {
    a in asts && b in asts && b in Idents(asts[a])
  }

  ghost predicate IsPath(asts: map<string, Expr>, p: seq<string>) {
    forall i :: 0 <= i < |p| - 1 ==> DependsOn(asts, p[i], p[i + 1])
  }

  /** Some alias reaches itself through one or more references. */
  ghost predicate HasCycle(asts: map<string, Expr>) {
    exists p :: |p| >= 2 && IsPath(asts, p) && p[0] == p[|p| - 1]
  }

  /** A permutation of the alias names with every dependency before its dependents. */
  ghost predicate IsTopoOrder(asts: map<string, Expr>, order: seq<string>) {
    && NoDup(order)
    && Elems(order) == asts.Keys
    && forall i, b :: 0 <= i < |order| && DependsOn(asts, order[i], b) ==> b in order[..i]
  }

  ghost predicate Awaited(asts: map<string, Expr>, u: set<string>, a: string) {
    exists b :: b in u && DependsOn(asts, b, a)
  }

  /** Every member is mentioned by a member, so none can be ordered last. */
  ghost predicate IsTrap(asts: map<string, Expr>, u: set<string>) {
    u <= asts.Keys && forall a {:trigger Awaited(asts, u, a)} :: a in u ==> Awaited(asts, u, a)
  }

  // ----- the reference-collecting visitor

  class AliasRefFinder {
    const aliasNames: set<string>
    var refs: seq<string>
    var seen: set<string>

    ghost predicate Valid()
      reads this
    {
      NoDup(refs) && Elems(refs) == seen
    }

    constructor (names: set<string>)
      ensures Valid() && refs == [] && aliasNames == names
    {
      aliasNames := names;
      refs, seen := [], {};
    }

    method Visit(node: Expr)
      requires Valid()
      modifies this
      ensures Valid()
      ensures forall x :: x in seen <==> x in old(seen) || (node == Ident(x) && x in aliasNames)
    {
      if node.Ident? && node.name in aliasNames && node.name !in seen {
        refs := refs + [node.name];
        seen := seen + {node.name};
      }
    }

    method Walk(node: Expr)
      requires Valid()
      modifies this
      ensures Valid()
      ensures forall x :: x in seen <==> x in old(seen) || (x in Idents(node) && x in aliasNames)
      decreases node
    {
      match node {
        case Lit(_) =>
        case Ident(_) =>
        case Member(o, p) => Walk(o); Walk(p);
        case Unary(_, a) => Walk(a);
        case Binary(_, l, r) => Walk(l); Walk(r);
        case Conditional(t, y, n) => Walk(t); Walk(y); Walk(n);
        case Call(f, args) =>
          Walk(f);
          for i := 0 to |args|
            invariant Valid()
            invariant forall x :: x in seen <==>
              x in old(seen) || ((x in Idents(f) || x in IdentsOfAll(args[..i])) && x in aliasNames)
          {
            Walk(args[i]);
            assert args[..i + 1][..i] == args[..i];
          }
          assert args[..|args|] == args;
      }
      Visit(node);
    }
  }

  datatype RefsResult = Refs(refs: seq<string>) | RefsError(msg: string)

  method ExtractAliasRefs(source: string, names: set<string>, parse: Parser) returns (r: RefsResult)
    ensures r.Refs? <==> parse(source).Parsed?
    ensures r.Refs? ==> NoDup(r.refs) && Elems(r.refs) == Idents(parse(source).e) * names
  {
    var tree := parse(source);
    if tree.SyntaxError? {
      return RefsError(tree.msg);
    }
    var finder := new AliasRefFinder(names);
    finder.Walk(tree.e);
    return Refs(finder.refs);
  }

  // ----- Kahn's algorithm

  type DepMap = map<string, seq<string>>

  ghost predicate ValidDeps(deps: DepMap) {
    forall n :: n in deps ==> NoDup(deps[n]) && Elems(deps[n]) <= deps.Keys
  }

  /** The aliases among `from` whose dependency list has `d`. */
  ghost function Dependents(deps: DepMap, from: set<string>, d: string): set<string> {
    set n | n in from && n in deps && d in deps[n]
  }

  lemma DependentsOfOneMore(deps: DepMap, from: set<string>, n: string, d: string)
    requires n !in from && n in deps
    ensures |Dependents(deps, from + {n}, d)|
         == |Dependents(deps, from, d)| + if d in deps[n] then 1 else 0
  {
    if d in deps[n] {
      assert Dependents(deps, from + {n}, d) == Dependents(deps, from, d) + {n};
    } else {
      assert Dependents(deps, from + {n}, d) == Dependents(deps, from, d);
    }
  }

  lemma CountOneMore(deps: DepMap, inDegree: map<string, int>, inDegree': map<string, int>,
                     from: set<string>, n: string)
    requires n in deps && n !in from && Counted(deps, inDegree, from, []) && inDegree'.Keys == inDegree.Keys
    requires forall d :: d in inDegree ==> inDegree'[d] == inDegree[d] + if d in deps[n] then 1 else 0
    ensures Counted(deps, inDegree', from + {n}, [])
  {
    forall d | d in deps ensures inDegree'[d] == |Dependents(deps, from + {n}, d)| {
      DependentsOfOneMore(deps, from, n, d);
    }
  }

  /** One pass over a dependency list adds one to each alias on it. */
  method AddOneEach(inDegree0: map<string, int>, list: seq<string>) returns (inDegree: map<string, int>)
    requires NoDup(list) && Elems(list) <= inDegree0.Keys
    ensures inDegree.Keys == inDegree0.Keys
    ensures forall d :: d in inDegree0 ==> inDegree[d] == inDegree0[d] + if d in list then 1 else 0
  {
    inDegree := inDegree0;
    for j := 0 to |list|
      invariant inDegree.Keys == inDegree0.Keys
      invariant forall d :: d in inDegree0 ==> inDegree[d] == inDegree0[d] + if d in list[..j] then 1 else 0
    {
      assert list[j] in Elems(list);
      inDegree := inDegree[list[j] := inDegree[list[j]] + 1];
      assert list[..j + 1] == list[..j] + [list[j]];
    }
    assert list[..|list|] == list;
  }

  /** How many aliases depend on each alias; maps are ranged over in any order. */
  method CountDependents(deps: DepMap) returns (inDegree: map<string, int>)
    requires ValidDeps(deps)
    ensures Counted(deps, inDegree, deps.Keys, [])
  {
    inDegree := map n | n in deps :: 0;
    CountNone(deps, inDegree);
    var todo := deps.Keys;
    ghost var done := {};
    while todo != {}
      invariant done !! todo && done + todo == deps.Keys
      invariant Counted(deps, inDegree, done, [])
      decreases todo
    {
      var n :| n in todo;
      var inDegree' := AddOneEach(inDegree, deps[n]);
      CountOneMore(deps, inDegree, inDegree', done, n);
      MoveOne(done, todo, n);
      inDegree, todo, done := inDegree', todo - {n}, done + {n};
    }
    assert done == deps.Keys;
  }

  lemma CountNone(deps: DepMap, inDegree: map<string, int>)
    requires inDegree == map n | n in deps :: 0
    ensures Counted(deps, inDegree, {}, [])
  {
    assert forall d :: Dependents(deps, {}, d) == {};
  }

  /** The in-degree of `d` counts the aliases of `left` that depend on `d`, plus one while
      the alias just processed has still to release it. */
  ghost predicate Counted(deps: DepMap, inDegree: map<string, int>, left: set<string>, waiting: seq<string>) {
    && inDegree.Keys == deps.Keys
    && forall d :: d in deps ==>
         inDegree[d] == |Dependents(deps, left, d)| + if d in waiting then 1 else 0
  }

  /** Exactly the aliases nobody waits for have been processed or queued, each once. */
  ghost predicate Released(inDegree: map<string, int>, sorted: seq<string>, queue: seq<string>) {
    && NoDup(sorted + queue)
    && Elems(sorted + queue) == set d | d in inDegree && inDegree[d] == 0
  }

  /** Every dependent of a processed alias was processed before it. */
  ghost predicate DependentsFirst(deps: DepMap, sorted: seq<string>) {
    forall i, n :: 0 <= i < |sorted| && n in deps && sorted[i] in deps[n] ==> n in sorted[..i]
  }

  ghost predicate Draining(deps: DepMap, inDegree: map<string, int>, sorted: seq<string>,
                           queue: seq<string>, waiting: seq<string>)
  {
    && Counted(deps, inDegree, deps.Keys - Elems(sorted), waiting)
    && Released(inDegree, sorted, queue)
    && DependentsFirst(deps, sorted)
  }

  method InitialQueue(deps: DepMap, inDegree: map<string, int>) returns (queue: seq<string>)
    requires Counted(deps, inDegree, deps.Keys, [])
    ensures Draining(deps, inDegree, [], queue, [])
  {
    queue := [];
    var todo := inDegree.Keys;
    while todo != {}
      invariant todo <= inDegree.Keys && NoDup(queue)
      invariant forall d :: d in queue <==> d in inDegree.Keys - todo && inDegree[d] == 0
      decreases todo
    {
      var name :| name in todo;
      if inDegree[name] == 0 {
        queue := queue + [name];
      }
      todo := todo - {name};
    }
    assert [] + queue == queue;
    assert deps.Keys - Elems<string>([]) == deps.Keys;
  }

  lemma PopKeepsCounted(deps: DepMap, inDegree: map<string, int>, left: set<string>, curr: string)
    requires curr in left && left <= deps.Keys && Counted(deps, inDegree, left, [])
    ensures Counted(deps, inDegree, left - {curr}, deps[curr])
  {
    forall d | d in deps
      ensures inDegree[d] == |Dependents(deps, left - {curr}, d)| + if d in deps[curr] then 1 else 0
    {
      DependentsOfOneMore(deps, left - {curr}, curr, d);
      assert left - {curr} + {curr} == left;
    }
  }

  lemma PopKeepsDependentsFirst(deps: DepMap, sorted: seq<string>, curr: string)
    requires DependentsFirst(deps, sorted) && curr in deps
    requires |Dependents(deps, deps.Keys - Elems(sorted), curr)| == 0
    ensures DependentsFirst(deps, sorted + [curr])
  {
    var s := sorted + [curr];
    forall i, n | 0 <= i < |s| && n in deps && s[i] in deps[n] ensures n in s[..i] {
      assert s[..i] == sorted[..i];
      if i == |sorted| {
        assert n !in Dependents(deps, deps.Keys - Elems(sorted), curr);
        assert sorted[..i] == sorted;
      }
    }
  }

  lemma PopKeepsReleased(inDegree: map<string, int>, sorted: seq<string>, queue: seq<string>)
    requires queue != [] && Released(inDegree, sorted, queue)
    ensures queue[0] in inDegree && inDegree[queue[0]] == 0 && queue[0] !in sorted
    ensures Released(inDegree, sorted + [queue[0]], queue[1..])
  {
    var curr, all := queue[0], sorted + queue;
    assert all[|sorted|] == curr && curr in Elems(all);
    forall k | 0 <= k < |sorted| ensures sorted[k] != curr { assert all[k] == sorted[k]; }
    assert (sorted + [curr]) + queue[1..] == all;
  }

  /** Processing the head of the queue keeps the invariant, with its dependencies waiting
      for their decrement. */
  lemma PopKeepsDraining(deps: DepMap, inDegree: map<string, int>, sorted: seq<string>, queue: seq<string>)
    requires queue != [] && Draining(deps, inDegree, sorted, queue, [])
    ensures queue[0] in deps && queue[0] !in sorted
    ensures Draining(deps, inDegree, sorted + [queue[0]], queue[1..], deps[queue[0]])
  {
    var curr := queue[0];
    PopKeepsReleased(inDegree, sorted, queue);
    PopKeepsDependentsFirst(deps, sorted, curr);
    PopKeepsCounted(deps, inDegree, deps.Keys - Elems(sorted), curr);
    assert deps.Keys - Elems(sorted) - {curr} == deps.Keys - Elems(sorted + [curr]);
  }

  /** One decrement: a dependency whose last waiting dependent was processed is queued. */
  lemma DecrementKeepsDraining(deps: DepMap, inDegree: map<string, int>, sorted: seq<string>,
                               queue: seq<string>, waiting: seq<string>)
    requires waiting != [] && waiting[0] in deps && NoDup(waiting)
    requires Draining(deps, inDegree, sorted, queue, waiting)
    ensures var dep := waiting[0];
            var inDegree' := inDegree[dep := inDegree[dep] - 1];
            var queue' := if inDegree'[dep] == 0 then queue + [dep] else queue;
            Draining(deps, inDegree', sorted, queue', waiting[1..])
  {
    var dep := waiting[0];
    var inDegree' := inDegree[dep := inDegree[dep] - 1];
    forall d ensures d in waiting[1..] <==> d in waiting && d != dep {
      if d in waiting && d != dep {
        var k :| 0 <= k < |waiting| && waiting[k] == d;
        assert waiting[1..][k - 1] == d;
      }
    }
    assert inDegree[dep] > 0;
    assert dep !in Elems(sorted + queue);
    if inDegree'[dep] == 0 {
      assert sorted + (queue + [dep]) == (sorted + queue) + [dep];
      assert Elems(sorted + (queue + [dep])) == Elems(sorted + queue) + {dep};
    }
  }

  method Drain(deps: DepMap, inDegree0: map<string, int>, queue0: seq<string>)
    returns (sorted: seq<string>, inDegree: map<string, int>)
    requires ValidDeps(deps) && Draining(deps, inDegree0, [], queue0, [])
    ensures Draining(deps, inDegree, sorted, [], [])
  {
    sorted, inDegree := [], inDegree0;
    var queue := queue0;
    while |queue| > 0
      invariant Draining(deps, inDegree, sorted, queue, [])
      decreases deps.Keys - Elems(sorted)
    {
      PopKeepsDraining(deps, inDegree, sorted, queue);
      var curr := queue[0];
      queue := queue[1..];
      ghost var before := sorted;
      sorted := sorted + [curr];
      inDegree, queue := ReleaseAll(deps, inDegree, sorted, queue, deps[curr]);
      assert curr in deps.Keys - Elems(before) && curr !in deps.Keys - Elems(sorted);
    }
    assert queue == [];
  }

  /** The inner loop: decrease the in-degree of every dependency, queueing those that reach 0. */
  method ReleaseAll(deps: DepMap, inDegree0: map<string, int>, sorted: seq<string>,
                    queue0: seq<string>, waiting: seq<string>)
    returns (inDegree: map<string, int>, queue: seq<string>)
    requires Draining(deps, inDegree0, sorted, queue0, waiting)
    requires NoDup(waiting) && Elems(waiting) <= deps.Keys
    ensures Draining(deps, inDegree, sorted, queue, [])
  {
    inDegree, queue := inDegree0, queue0;
    for j := 0 to |waiting|
      invariant Draining(deps, inDegree, sorted, queue, waiting[j..])
    {
      var dep := waiting[j];
      assert dep in Elems(waiting) && waiting[j..][0] == dep && waiting[j..][1..] == waiting[j + 1..];
      DecrementKeepsDraining(deps, inDegree, sorted, queue, waiting[j..]);
      inDegree := inDegree[dep := inDegree[dep] - 1];
      if inDegree[dep] == 0 {
        queue := queue + [dep];
      }
    }
    assert waiting[|waiting|..] == [];
  }

  /** The in-place swap loop that turns dependents-first into dependencies-first. */
  method Reverse(s: seq<string>) returns (r: seq<string>)
    ensures |r| == |s|
    ensures forall k :: 0 <= k < |s| ==> r[k] == s[|s| - 1 - k]
  {
    r := s;
    var i, j := 0, |s| - 1;
    while i < j
      invariant 0 <= i <= |s| && j == |s| - 1 - i && |r| == |s|
      invariant forall k :: 0 <= k < i || j < k < |s| ==> r[k] == s[|s| - 1 - k]
      invariant forall k :: i <= k <= j ==> r[k] == s[k]
    {
      r := r[i := r[j]][j := r[i]];
      i, j := i + 1, j - 1;
    }
  }

  datatype SortResult =
    | Sorted(order: seq<string>)
    | BadAlias(name: string, msg: string)
    | Circular(names: set<string>)

  method BuildDeps(aliases: map<string, string>, parse: Parser) returns (r: SortResult, deps: DepMap)
    ensures !r.Circular? && (r.Sorted? <==> AllParse(aliases, parse))
    ensures r.BadAlias? ==> r.name in aliases && parse(aliases[r.name]).SyntaxError?
    ensures r.Sorted? ==> ValidDeps(deps) && SameGraph(Asts(aliases, parse), deps)
  {
    deps := map[];
    var todo := aliases.Keys;
    while todo != {}
      invariant todo <= aliases.Keys && deps.Keys == aliases.Keys - todo
      invariant forall a :: a in deps ==> parse(aliases[a]).Parsed? && NoDup(deps[a])
      invariant forall a :: a in deps ==> Elems(deps[a]) == Idents(parse(aliases[a]).e) * aliases.Keys
      decreases todo
    {
      var name :| name in todo;
      var refs := ExtractAliasRefs(aliases[name], aliases.Keys, parse);
      if refs.RefsError? {
        return BadAlias(name, refs.msg), deps;
      }
      deps := deps[name := refs.refs];
      todo := todo - {name};
    }
    forall a, b ensures DependsOn(Asts(aliases, parse), a, b) <==> a in deps && b in deps[a] {
      if a in deps { assert b in deps[a] <==> b in Elems(deps[a]); }
    }
    return Sorted([]), deps;
  }

  /** Succeeds exactly when every alias parses and no alias reaches itself; the order is then
      topological, whatever order the maps were ranged over. A reported set of names is the
      largest one in which every alias is waited for by another of the set. */
  method TopoSortAliases(aliases: map<string, string>, parse: Parser) returns (r: SortResult)
    ensures r.BadAlias? <==> !AllParse(aliases, parse)
    ensures r.BadAlias? ==> r.name in aliases && parse(aliases[r.name]).SyntaxError?
    ensures r.Sorted? <==> AllParse(aliases, parse) && !HasCycle(Asts(aliases, parse))
    ensures r.Sorted? ==> IsTopoOrder(Asts(aliases, parse), r.order)
    ensures r.Circular? ==> IsTrap(Asts(aliases, parse), r.names) && r.names != {}
    ensures r.Circular? ==> forall u :: IsTrap(Asts(aliases, parse), u) ==> u <= r.names
  {
    if |aliases| == 0 {
      ghost var asts := Asts(aliases, parse);
      assert IsTopoOrder(asts, []);
      TopoOrderHasNoCycle(asts, []);
      return Sorted([]);
    }
    var deps;
    r, deps := BuildDeps(aliases, parse);
    if r.BadAlias? {
      return;
    }
    ghost var asts := Asts(aliases, parse);
    var inDegree := CountDependents(deps);
    var queue := InitialQueue(deps, inDegree);
    var sorted;
    sorted, inDegree := Drain(deps, inDegree, queue);
    assert aliases.Keys == asts.Keys == deps.Keys;
    if |sorted| != |aliases.Keys| {
      var stuck := set n | n in inDegree && inDegree[n] > 0;
      StuckIsLargestTrap(asts, deps, inDegree, sorted, stuck);
      return Circular(stuck);
    }
    var order := Reverse(sorted);
    ReversedDrainIsTopo(asts, deps, inDegree, sorted, order);
    return Sorted(order);
  }

  // ----- why it is right

  ghost predicate SameGraph(asts: map<string, Expr>, deps: DepMap) {
    asts.Keys == deps.Keys && forall a, b :: DependsOn(asts, a, b) <==> a in deps && b in deps[a]
  }

  lemma StuckIsLargestTrap(asts: map<string, Expr>, deps: DepMap, inDegree: map<string, int>,
                           sorted: seq<string>, stuck: set<string>)
    requires SameGraph(asts, deps) && Draining(deps, inDegree, sorted, [], []) && |sorted| != |asts.Keys|
    requires stuck == set n | n in inDegree && inDegree[n] > 0
    ensures stuck != {} && IsTrap(asts, stuck) && HasCycle(asts)
    ensures forall u :: IsTrap(asts, u) ==> u <= stuck
  {
    StuckIsTheRest(deps, inDegree, sorted, stuck);
    StuckIsTrap(asts, deps, inDegree, stuck);
    TrapHasCycle(asts, stuck);
    forall u | IsTrap(asts, u) ensures u <= stuck {
      TrapIsNeverSorted(asts, deps, sorted, u);
    }
  }

  lemma StuckIsTrap(asts: map<string, Expr>, deps: DepMap, inDegree: map<string, int>, stuck: set<string>)
    requires SameGraph(asts, deps) && Counted(deps, inDegree, stuck, [])
    requires stuck == set n | n in inDegree && inDegree[n] > 0
    ensures IsTrap(asts, stuck)
  {
    assert stuck <= asts.Keys;
    forall a | a in stuck ensures Awaited(asts, stuck, a) {
      StuckIsAwaited(asts, deps, inDegree, stuck, a);
    }
  }

  lemma TrapIsNeverSorted(asts: map<string, Expr>, deps: DepMap, sorted: seq<string>, u: set<string>)
    requires SameGraph(asts, deps) && DependentsFirst(deps, sorted) && IsTrap(asts, u)
    ensures u <= deps.Keys - Elems(sorted)
  {
    SortedMeetsNoTrap(asts, deps, sorted, u, |sorted|);
  }

  lemma StuckIsAwaited(asts: map<string, Expr>, deps: DepMap, inDegree: map<string, int>,
                       stuck: set<string>, a: string)
    requires SameGraph(asts, deps) && Counted(deps, inDegree, stuck, [])
    requires a in deps && inDegree[a] > 0
    ensures Awaited(asts, stuck, a)
  {
    var b :| b in Dependents(deps, stuck, a);
    assert DependsOn(asts, b, a);
  }

  lemma CountsAreNatural(deps: DepMap, inDegree: map<string, int>, left: set<string>)
    requires Counted(deps, inDegree, left, [])
    ensures forall d :: d in inDegree ==> inDegree[d] >= 0
  {
  }

  lemma RestOfReleased(inDegree: map<string, int>, sorted: seq<string>, stuck: set<string>)
    requires NoDup(sorted) && Elems(sorted) == set d | d in inDegree && inDegree[d] == 0
    requires forall d :: d in inDegree ==> inDegree[d] >= 0
    requires stuck == set n | n in inDegree && inDegree[n] > 0
    ensures stuck == inDegree.Keys - Elems(sorted)
    ensures |sorted| != |inDegree.Keys| ==> stuck != {}
  {
    NoDupCardinality(sorted);
    assert inDegree.Keys == Elems(sorted) + stuck;
  }

  lemma StuckIsTheRest(deps: DepMap, inDegree: map<string, int>, sorted: seq<string>, stuck: set<string>)
    requires Draining(deps, inDegree, sorted, [], []) && |sorted| != |deps.Keys|
    requires stuck == set n | n in inDegree && inDegree[n] > 0
    ensures stuck != {} && stuck == deps.Keys - Elems(sorted)
  {
    assert sorted + [] == sorted;
    CountsAreNatural(deps, inDegree, deps.Keys - Elems(sorted));
    RestOfReleased(inDegree, sorted, stuck);
  }

  lemma SortedIsNotAwaited(asts: map<string, Expr>, deps: DepMap, sorted: seq<string>, u: set<string>, k: nat)
    requires SameGraph(asts, deps) && DependentsFirst(deps, sorted) && k < |sorted|
    requires forall i :: 0 <= i < k ==> sorted[i] !in u
    ensures !Awaited(asts, u, sorted[k])
  {
  }

  /** By position: the first processed member of a trap would need an earlier one. */
  lemma {:induction false} SortedMeetsNoTrap(asts: map<string, Expr>, deps: DepMap, sorted: seq<string>,
                                            u: set<string>, k: nat)
    requires SameGraph(asts, deps) && DependentsFirst(deps, sorted) && IsTrap(asts, u)
    requires k <= |sorted|
    ensures forall i :: 0 <= i < k ==> sorted[i] !in u
  {
    if k > 0 {
      SortedMeetsNoTrap(asts, deps, sorted, u, k - 1);
      if sorted[k - 1] in u {
        SortedIsNotAwaited(asts, deps, sorted, u, k - 1);
        assert false;
      }
    }
  }

  lemma {:induction false} BackwardPath(asts: map<string, Expr>, u: set<string>, n: nat) returns (p: seq<string>)
    requires IsTrap(asts, u) && u != {}
    ensures |p| == n + 1 && IsPath(asts, p) && Elems(p) <= u
  {
    if n == 0 {
      var a :| a in u;
      return [a];
    }
    var q := BackwardPath(asts, u, n - 1);
    assert q[0] in Elems(q);
    assert Awaited(asts, u, q[0]);
    var b :| b in u && DependsOn(asts, b, q[0]);
    p := [b] + q;
  }

  lemma TrapHasCycle(asts: map<string, Expr>, u: set<string>)
    requires IsTrap(asts, u) && u != {}
    ensures HasCycle(asts)
  {
    var p := BackwardPath(asts, u, |u|);
    var i, j := Pigeonhole(p, u);
    RepeatIsCycle(asts, p, i, j);
  }

  /** The stretch of a path between two visits to the same alias is a cycle. */
  lemma RepeatIsCycle(asts: map<string, Expr>, p: seq<string>, i: nat, j: nat)
    requires IsPath(asts, p) && i < j < |p| && p[i] == p[j]
    ensures HasCycle(asts)
  {
    var c := p[i..j + 1];
    forall k | 0 <= k < |c| - 1 ensures DependsOn(asts, c[k], c[k + 1]) {
      assert DependsOn(asts, p[i + k], p[i + k + 1]);
    }
    assert IsPath(asts, c);
    assert |c| >= 2 && c[0] == c[|c| - 1];
  }

  /** Along a path the position in the order strictly falls. */
  lemma {:induction false} PathDescends(asts: map<string, Expr>, order: seq<string>, p: seq<string>, i: nat, j: nat)
    requires IsTopoOrder(asts, order) && IsPath(asts, p) && |p| >= 2
    requires i < |order| && j < |order| && order[i] == p[0] && order[j] == p[|p| - 1]
    ensures j < i
    decreases |p|
  {
    assert DependsOn(asts, p[0], p[1]);
    assert p[1] in order[..i];
    var k :| 0 <= k < i && order[k] == p[1];
    if |p| > 2 {
      var q := p[1..];
      forall m | 0 <= m < |q| - 1 ensures DependsOn(asts, q[m], q[m + 1]) {
        assert DependsOn(asts, p[m + 1], p[m + 1 + 1]);
      }
      PathDescends(asts, order, q, k, j);
    }
  }

  lemma TopoOrderHasNoCycle(asts: map<string, Expr>, order: seq<string>)
    requires IsTopoOrder(asts, order)
    ensures !HasCycle(asts)
  {
    if HasCycle(asts) {
      var p :| |p| >= 2 && IsPath(asts, p) && p[0] == p[|p| - 1];
      assert DependsOn(asts, p[0], p[1]);
      assert p[0] in Elems(order);
      var i :| 0 <= i < |order| && order[i] == p[0];
      PathDescends(asts, order, p, i, i);
    }
  }

  lemma ReversedDrainIsTopo(asts: map<string, Expr>, deps: DepMap, inDegree: map<string, int>,
                            sorted: seq<string>, order: seq<string>)
    requires SameGraph(asts, deps) && Draining(deps, inDegree, sorted, [], []) && |sorted| == |asts.Keys|
    requires |order| == |sorted| && forall k :: 0 <= k < |sorted| ==> order[k] == sorted[|sorted| - 1 - k]
    ensures IsTopoOrder(asts, order) && !HasCycle(asts)
  {
    assert sorted + [] == sorted;
    NoDupCardinality(sorted);
    SubsetCardinality(Elems(sorted), deps.Keys);
    ReversedElems(sorted, order);
    forall i, b | 0 <= i < |order| && DependsOn(asts, order[i], b) ensures b in order[..i] {
      assert b in Elems(sorted);
      var k :| 0 <= k < |sorted| && sorted[k] == b;
      assert order[i] in sorted[..k];
      var m :| 0 <= m < k && sorted[m] == order[i];
      assert sorted[|sorted| - 1 - i] == sorted[m];
      assert order[..i][|sorted| - 1 - k] == b;
    }
    TopoOrderHasNoCycle(asts, order);
  }
}
