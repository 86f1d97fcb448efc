/**
 Named parameters: `@name` in a query becomes a positional placeholder (MySQL) or a named
 argument (SQLite, SQL Server). The three drivers bind alike.
 */
module Params {
  import opened Collections
  import opened SqlText
  import opened Options

  /** A parameter that was not supplied is bound to nil. */
  function Bound<V>(params: map<string, V>, name: string): Option<V> {
    if name in params then Some(params[name]) else None
  }

  // ----- the regular expression `@(\w+)`

  /** `s[start]` is the at sign and `s[start + 1..end]` the name. */
  datatype Match = Match(start: nat, end: nat)

  predicate IsParamAt(s: string, j: int) {
    0 <= j && j + 1 < |s| && s[j] == '@' && IsIdentChar(s[j + 1])
  }

  function WordEnd(s: string, i: nat): (e: nat)
    requires i <= |s|
    ensures i <= e <= |s| && forall k :: i <= k < e ==> IsIdentChar(s[k])
    ensures e < |s| ==> !IsIdentChar(s[e])
    decreases |s| - i
  {
    if i < |s| && IsIdentChar(s[i]) then WordEnd(s, i + 1) else i
  }

  function FindAllFrom(s: string, i: nat): seq<Match>
    requires i <= |s|
    decreases |s| - i
  {
    if i == |s| then []
    else if IsParamAt(s, i) then
      var e := WordEnd(s, i + 2);
      [Match(i, e)] + FindAllFrom(s, e)
    else FindAllFrom(s, i + 1)
  }

  function FindAll(s: string): seq<Match> {
    FindAllFrom(s, 0)
  }

  predicate IsMatch(s: string, m: Match) {
    && IsParamAt(s, m.start)
    && m.start + 1 < m.end <= |s|
    && (forall k :: m.start < k < m.end ==> IsIdentChar(s[k]))
    && (m.end < |s| ==> !IsIdentChar(s[m.end]))
  }

  function Name(s: string, m: Match): string
    requires IsMatch(s, m)
  {
    s[m.start + 1..m.end]
  }

  /** Matches from position `i` on, in order and apart. */
  ghost predicate AreMatches(s: string, ms: seq<Match>, i: nat) {
    && (forall k :: 0 <= k < |ms| ==> IsMatch(s, ms[k]) && i <= ms[k].start)
    && (forall k, l :: 0 <= k < l < |ms| ==> ms[k].end <= ms[l].start)
  }

  lemma {:induction false} FindAllOrdered(s: string, i: nat)
    requires i <= |s|
    ensures AreMatches(s, FindAllFrom(s, i), i)
    decreases |s| - i
  {
    if i < |s| {
      if IsParamAt(s, i) {
        var e := WordEnd(s, i + 2);
        FindAllOrdered(s, e);
        OneMatchMore(s, Match(i, e), FindAllFrom(s, e));
      } else {
        FindAllOrdered(s, i + 1);
      }
    }
  }

  lemma OneMatchMore(s: string, m: Match, ms: seq<Match>)
    requires IsMatch(s, m) && AreMatches(s, ms, m.end)
    ensures AreMatches(s, [m] + ms, m.start)
  {
    var all := [m] + ms;
    forall k | 0 <= k < |all| ensures IsMatch(s, all[k]) && m.start <= all[k].start {
      if k > 0 { assert all[k] == ms[k - 1]; }
    }
  }

  /** Nothing is missed: every at sign before a word character starts a match. */
  lemma {:induction false} FindAllComplete(s: string, i: nat, j: nat) returns (k: nat)
    requires i <= j && j + 1 < |s| && s[j] == '@' && IsIdentChar(s[j + 1])
    ensures k < |FindAllFrom(s, i)| && FindAllFrom(s, i)[k].start == j
    decreases |s| - i
  {
    if IsParamAt(s, i) {
      if i == j {
        k := 0;
      } else {
        var e := WordEnd(s, i + 2);
        assert !IsIdentChar(s[j]);
        k := FindAllComplete(s, e, j);
        k := k + 1;
      }
    } else {
      k := FindAllComplete(s, i + 1, j);
    }
  }

  /** Each match is an at sign with the longest word behind it, and its name is that word. */
  lemma MatchesAreWords(s: string, k: nat)
    requires k < |FindAll(s)|
    ensures var m := FindAll(s)[k];
      && m.start + 1 < m.end <= |s| && s[m.start] == '@'
      && (forall i :: m.start < i < m.end ==> IsIdentChar(s[i])) && (m.end < |s| ==> !IsIdentChar(s[m.end]))
      && |ParamNames(s)| == |FindAll(s)| && ParamNames(s)[k] == s[m.start + 1..m.end]
  {
    FindAllOrdered(s, 0);
  }

  ghost function Names(s: string, ms: seq<Match>): (names: seq<string>)
    requires forall k :: 0 <= k < |ms| ==> IsMatch(s, ms[k])
    ensures |names| == |ms|
  {
    seq(|ms|, k requires 0 <= k < |ms| => Name(s, ms[k]))
  }

  // ----- putting the names back

  ghost predicate Positions(at: seq<nat>, n: nat) {
    && (forall i :: 0 <= i < |at| ==> at[i] < n)
    && (forall i, j :: 0 <= i < j < |at| ==> at[i] < at[j])
  }

  /** The text with the character at each position replaced by `@` and a name. */
  ghost function Restore(t: string, at: seq<nat>, names: seq<string>): string
    requires Positions(at, |t|) && |names| == |at|
    decreases |at|
  {
    if at == [] then t
    else
      var k := |at| - 1;
      Restore(t[..at[k]], at[..k], names[..k]) + (['@'] + names[k]) + t[at[k] + 1..]
  }

  lemma RestoreThenText(t: string, x: string, at: seq<nat>, names: seq<string>)
    requires Positions(at, |t|) && |names| == |at|
    ensures Restore(t + x, at, names) == Restore(t, at, names) + x
  {
    if at != [] {
      var k := |at| - 1;
      assert (t + x)[..at[k]] == t[..at[k]];
      assert (t + x)[at[k] + 1..] == t[at[k] + 1..] + x;
    }
  }

  lemma RestoreOneMore(t: string, at: seq<nat>, names: seq<string>, name: string)
    requires Positions(at, |t|) && |names| == |at|
    ensures Positions(at + [|t|], |t + ['?']|)
    ensures Restore(t + ['?'], at + [|t|], names + [name]) == Restore(t, at, names) + (['@'] + name)
  {
    var at', names', t' := at + [|t|], names + [name], t + ['?'];
    assert at'[..|at|] == at && names'[..|at|] == names;
    assert t'[..|t|] == t && t'[|t| + 1..] == [];
    var r := Restore(t, at, names) + (['@'] + name);
    assert r + [] == r;
  }

  function Marks(s: string): nat {
    if s == [] then 0 else Marks(s[..|s| - 1]) + if s[|s| - 1] == '?' then 1 else 0
  }

  lemma {:induction false} MarksOfConcat(s: string, t: string)
    ensures Marks(s + t) == Marks(s) + Marks(t)
    decreases |t|
  {
    if t == [] {
      assert s + t == s;
    } else {
      assert (s + t)[..|s + t| - 1] == s + t[..|t| - 1];
      MarksOfConcat(s, t[..|t| - 1]);
    }
  }

  lemma {:induction false} NoMarks(s: string)
    requires '?' !in s
    ensures Marks(s) == 0
  {
    if s != [] {
      NoMarks(s[..|s| - 1]);
    }
  }

  lemma OneMark()
    ensures Marks(['?']) == 1
  {
    assert ['?'][..0] == [];
  }

  /** The name captured by each match, in order of occurrence. */
  ghost function ParamNames(query: string): (names: seq<string>) {
    FindAllOrdered(query, 0);
    Names(query, FindAll(query))
  }

  // ----- MySQL

  ghost predicate PositionalFor<V>(names: seq<string>, params: map<string, V>, args: seq<Option<V>>) {
    && |args| == |names|
    && (forall k :: 0 <= k < |names| && names[k] in params ==> args[k] == Some(params[names[k]]))
    && (forall k :: 0 <= k < |names| && names[k] !in params ==> args[k] == None)
  }

  lemma PositionalOneMore<V>(names: seq<string>, name: string, params: map<string, V>, args: seq<Option<V>>)
    requires PositionalFor(names, params, args)
    ensures PositionalFor(names + [name], params, args + [Bound(params, name)])
  {
  }

  /** A question mark stands at each of the positions. */
  ghost predicate Placeholders(t: string, at: seq<nat>) {
    Positions(at, |t|) && forall k :: 0 <= k < |at| ==> t[at[k]] == '?'
  }

  lemma PlaceholdersMore(t: string, x: string, at: seq<nat>)
    requires Placeholders(t, at)
    ensures Placeholders(t + x, at)
  {
  }

  lemma PlaceholdersOneMore(t: string, at: seq<nat>)
    requires Placeholders(t, at)
    ensures Placeholders(t + ['?'], at + [|t|])
  {
    PlaceholdersMore(t, ['?'], at);
  }

  lemma RestoredStep(q: string, gap: string, name: string, t: string, at: seq<nat>, names: seq<string>)
    requires Placeholders(t, at) && |names| == |at| && Restore(t, at, names) == q
    ensures Placeholders(t + gap + ['?'], at + [|t + gap|])
    ensures Restore(t + gap + ['?'], at + [|t + gap|], names + [name]) == q + gap + (['@'] + name)
  {
    PlaceholdersMore(t, gap, at);
    PlaceholdersOneMore(t + gap, at);
    RestoreThenText(t, gap, at, names);
    RestoreOneMore(t + gap, at, names, name);
  }

  lemma PrefixOfMatch(query: string, last: nat, m: Match)
    requires IsMatch(query, m) && last <= m.start
    ensures query[..m.end] == query[..last] + query[last..m.start] + (['@'] + Name(query, m))
    ensures '?' !in ['@'] + Name(query, m)
  {
  }

  lemma MarksOfStep(q: string, t: string, gap: string, param: string)
    requires '?' !in param
    ensures Marks((t + gap) + ['?']) == Marks(t) + Marks(gap) + 1
    ensures Marks((q + gap) + param) == Marks(q) + Marks(gap)
  {
    MarksOfConcat(t, gap);
    MarksOfConcat(t + gap, ['?']);
    OneMark();
    MarksOfConcat(q, gap);
    MarksOfConcat(q + gap, param);
    NoMarks(param);
  }

  /** A match lies in the query, behind the one before it. */
  predicate Follows(query: string, ms: seq<Match>, k: nat)
    requires k < |ms|
  {
    (if k == 0 then 0 else ms[k - 1].end) <= ms[k].start < ms[k].end <= |query|
  }

  ghost predicate InOrder(query: string, ms: seq<Match>) {
    forall k :: 0 <= k < |ms| ==> Follows(query, ms, k)
  }

  lemma MatchesAreInOrder(query: string, ms: seq<Match>)
    requires AreMatches(query, ms, 0)
    ensures InOrder(query, ms)
  {
    forall k | 0 <= k < |ms| ensures Follows(query, ms, k) {
      assert IsMatch(query, ms[k]);
    }
  }

  /** The text written so far, where its placeholders are, and how far the query has been read. */
  datatype Translation = Translation(text: string, at: seq<nat>, last: nat)

  /** The translation with the text up to the next match and a placeholder for it. */
  function WithMatch(query: string, p: Translation, m: Match): Translation
    requires p.last <= m.start <= |query|
  {
    var before := p.text + query[p.last..m.start];
    Translation(before + ['?'], p.at + [|before|], m.end)
  }

  /** The translation of the query up to the end of match `k - 1`. */
  function TranslateFirst(query: string, ms: seq<Match>, k: nat): (p: Translation)
    requires InOrder(query, ms) && k <= |ms|
    ensures p.last == if k == 0 then 0 else ms[k - 1].end
  {
    if k == 0 then Translation([], [], 0)
    else
      assert Follows(query, ms, k - 1);
      WithMatch(query, TranslateFirst(query, ms, k - 1), ms[k - 1])
  }

  lemma {:induction false} FirstPlaceholders(query: string, ms: seq<Match>, k: nat)
    requires InOrder(query, ms) && k <= |ms|
    ensures var p := TranslateFirst(query, ms, k); Placeholders(p.text, p.at) && |p.at| == k && p.last <= |query|
  {
    if k > 0 {
      FirstPlaceholders(query, ms, k - 1);
      assert Follows(query, ms, k - 1);
      var p := TranslateFirst(query, ms, k - 1);
      var gap := query[p.last..ms[k - 1].start];
      PlaceholdersMore(p.text, gap, p.at);
      PlaceholdersOneMore(p.text + gap, p.at);
    }
  }

  ghost predicate NamedMatch(query: string, ms: seq<Match>, names: seq<string>, k: nat)
    requires k < |ms| == |names|
  {
    IsMatch(query, ms[k]) && names[k] == Name(query, ms[k])
  }

  ghost predicate AllNamed(query: string, ms: seq<Match>, names: seq<string>) {
    && |ms| == |names|
    && forall k {:trigger NamedMatch(query, ms, names, k)} :: 0 <= k < |ms| ==> NamedMatch(query, ms, names, k)
  }

  /** The text with the names put back. */
  ghost function PutBack(p: Translation, names: seq<string>): string {
    if Positions(p.at, |p.text|) && |names| == |p.at| then Restore(p.text, p.at, names) else []
  }

  lemma PutBackNext(query: string, p: Translation, m: Match, names: seq<string>, name: string)
    requires p.last <= m.start && IsMatch(query, m) && name == Name(query, m)
    requires Placeholders(p.text, p.at) && |names| == |p.at| && PutBack(p, names) == query[..p.last]
    ensures PutBack(WithMatch(query, p, m), names + [name]) == query[..m.end]
  {
    RestoredStep(query[..p.last], query[p.last..m.start], name, p.text, p.at, names);
    PrefixOfMatch(query, p.last, m);
  }

  lemma MarksNext(query: string, p: Translation, m: Match)
    requires p.last <= m.start && IsMatch(query, m)
    ensures Marks(WithMatch(query, p, m).text) - Marks(query[..m.end]) == Marks(p.text) - Marks(query[..p.last]) + 1
  {
    PrefixOfMatch(query, p.last, m);
    MarksOfStep(query[..p.last], p.text, query[p.last..m.start], ['@'] + Name(query, m));
  }

  /** The part of the query that was read when `k` matches are written. */
  function ReadFirst(query: string, ms: seq<Match>, k: nat): string
    requires InOrder(query, ms) && k <= |ms|
  {
    if k == 0 then []
    else
      assert Follows(query, ms, k - 1);
      query[..ms[k - 1].end]
  }

  ghost function PutBackFirst(query: string, ms: seq<Match>, names: seq<string>, k: nat): string
    requires InOrder(query, ms) && k <= |ms| == |names|
  {
    PutBack(TranslateFirst(query, ms, k), names[..k])
  }

  lemma NothingPutBack(query: string, ms: seq<Match>, names: seq<string>)
    requires InOrder(query, ms) && |ms| == |names|
    ensures PutBackFirst(query, ms, names, 0) == ReadFirst(query, ms, 0)
  {
  }

  lemma PutBackOneMore(query: string, ms: seq<Match>, names: seq<string>, k: nat)
    requires InOrder(query, ms) && k < |ms| == |names| && NamedMatch(query, ms, names, k)
    requires PutBackFirst(query, ms, names, k) == ReadFirst(query, ms, k)
    ensures PutBackFirst(query, ms, names, k + 1) == ReadFirst(query, ms, k + 1)
  {
    FirstPlaceholders(query, ms, k);
    assert Follows(query, ms, k);
    var p := TranslateFirst(query, ms, k);
    assert query[..p.last] == ReadFirst(query, ms, k);
    PutBackNext(query, p, ms[k], names[..k], names[k]);
    TakeOneMore(names, k);
  }

  lemma IsNamed(query: string, ms: seq<Match>, names: seq<string>, k: nat)
    requires AllNamed(query, ms, names) && k < |ms|
    ensures NamedMatch(query, ms, names, k)
  {
  }

  /** Putting the names back gives the part of the query that was read. */
  lemma {:induction false} FirstPutBack(query: string, ms: seq<Match>, names: seq<string>, k: nat)
    requires InOrder(query, ms) && AllNamed(query, ms, names) && k <= |ms|
    ensures PutBackFirst(query, ms, names, k) == ReadFirst(query, ms, k)
  {
    if k == 0 {
      NothingPutBack(query, ms, names);
    } else {
      var j := k - 1;
      FirstPutBack(query, ms, names, j);
      IsNamed(query, ms, names, j);
      PutBackOneMore(query, ms, names, j);
    }
  }

  /** Each match adds a question mark. */
  lemma {:induction false} FirstMarks(query: string, ms: seq<Match>, names: seq<string>, k: nat)
    requires InOrder(query, ms) && AllNamed(query, ms, names) && k <= |ms|
    ensures TranslateFirst(query, ms, k).last <= |query|
    ensures Marks(TranslateFirst(query, ms, k).text) - Marks(query[..TranslateFirst(query, ms, k).last]) == k
  {
    if k > 0 {
      FirstMarks(query, ms, names, k - 1);
      assert Follows(query, ms, k - 1) && NamedMatch(query, ms, names, k - 1);
      MarksNext(query, TranslateFirst(query, ms, k - 1), ms[k - 1]);
    }
  }

  /** The values of the first `k` occurrences. */
  function ArgsFirst<V>(query: string, ms: seq<Match>, params: map<string, V>, k: nat): (args: seq<Option<V>>)
    requires InOrder(query, ms) && k <= |ms|
    ensures |args| == k
  {
    if k == 0 then []
    else
      assert Follows(query, ms, k - 1);
      ArgsFirst(query, ms, params, k - 1) + [Bound(params, query[ms[k - 1].start + 1..ms[k - 1].end])]
  }

  lemma {:induction false} ArgsArePositional<V>(query: string, ms: seq<Match>, names: seq<string>,
                                               params: map<string, V>, k: nat)
    requires InOrder(query, ms) && AllNamed(query, ms, names) && k <= |ms|
    ensures PositionalFor(names[..k], params, ArgsFirst(query, ms, params, k))
  {
    if k > 0 {
      ArgsArePositional(query, ms, names, params, k - 1);
      assert NamedMatch(query, ms, names, k - 1);
      PositionalOneMore(names[..k - 1], names[k - 1], params, ArgsFirst(query, ms, params, k - 1));
      TakeOneMore(names, k - 1);
    }
  }

  /** The loop over the matches. */
  method WriteMatches<V>(query: string, matches: seq<Match>, params: map<string, V>)
    returns (translated: string, args: seq<Option<V>>, lastIndex: nat, ghost at: seq<nat>)
    requires InOrder(query, matches)
    ensures Translation(translated, at, lastIndex) == TranslateFirst(query, matches, |matches|)
    ensures args == ArgsFirst(query, matches, params, |matches|)
  {
    translated, args, lastIndex, at := [], [], 0, [];
    for k := 0 to |matches|
      invariant Translation(translated, at, lastIndex) == TranslateFirst(query, matches, k)
      invariant args == ArgsFirst(query, matches, params, k)
    {
      var m := matches[k];
      assert Follows(query, matches, k);
      translated := translated + query[lastIndex..m.start];
      at := at + [|translated|];
      translated := translated + ['?'];
      args := args + [Bound(params, query[m.start + 1..m.end])];
      lastIndex := m.end;
    }
  }

  lemma AllAreNamed(query: string)
    ensures AllNamed(query, FindAll(query), ParamNames(query))
  {
    FindAllOrdered(query, 0);
    var ms, names := FindAll(query), ParamNames(query);
    forall k | 0 <= k < |ms| ensures NamedMatch(query, ms, names, k) {
    }
  }

  /** Putting the names back at the inserted placeholders gives the query again, and question marks
      of the query itself stay. */
  lemma NamesPutBack(query: string, ms: seq<Match>)
    requires ms == FindAll(query) && InOrder(query, ms)
    ensures var p := TranslateFirst(query, ms, |ms|);
      && p.last <= |query| && Placeholders(p.text + query[p.last..], p.at) && |p.at| == |ParamNames(query)| == |ms|
      && Restore(p.text + query[p.last..], p.at, ParamNames(query)) == query
      && Marks(p.text + query[p.last..]) == Marks(query) + |ms|
  {
    var names := ParamNames(query);
    AllAreNamed(query);
    FirstPlaceholders(query, ms, |ms|);
    FirstPutBack(query, ms, names, |ms|);
    FirstMarks(query, ms, names, |ms|);
    assert names[..|ms|] == names;
    var p := TranslateFirst(query, ms, |ms|);
    assert query[..p.last] == ReadFirst(query, ms, |ms|);
    TailRestores(query, p, names);
  }

  /** The rest of the query is copied. */
  lemma TailRestores(query: string, p: Translation, names: seq<string>)
    requires p.last <= |query| && Placeholders(p.text, p.at) && |p.at| == |names|
    requires Restore(p.text, p.at, names) == query[..p.last]
    ensures Placeholders(p.text + query[p.last..], p.at)
    ensures Restore(p.text + query[p.last..], p.at, names) == query
    ensures Marks(p.text + query[p.last..]) == Marks(query) - Marks(query[..p.last]) + Marks(p.text)
  {
    var rest := query[p.last..];
    PlaceholdersMore(p.text, rest, p.at);
    RestoreThenText(p.text, rest, p.at, names);
    MarksOfConcat(p.text, rest);
    MarksOfConcat(query[..p.last], rest);
    assert query[..p.last] + rest == query;
  }

  /** One placeholder and one argument per occurrence; putting the names back at the inserted
      placeholders gives the query again, and question marks of the query itself stay. */
  method MySqlTranslateQuery<V>(query: string, params: map<string, V>)
    returns (translated: string, args: seq<Option<V>>, ghost at: seq<nat>)
    ensures PositionalFor(ParamNames(query), params, args)
    ensures Placeholders(translated, at) && |at| == |args| == |ParamNames(query)|
    ensures forall k :: 0 <= k < |at| ==> translated[at[k]] == '?'
    ensures Restore(translated, at, ParamNames(query)) == query
    ensures Marks(translated) == Marks(query) + |args|
  {
    var matches := FindAll(query);
    FindAllOrdered(query, 0);
    MatchesAreInOrder(query, matches);
    NamesPutBack(query, matches);
    var lastIndex;
    translated, args, lastIndex, at := WriteMatches(query, matches, params);
    translated := translated + query[lastIndex..];
    assert query[..|query|] == query;
    AllAreNamed(query);
    ArgsArePositional(query, matches, ParamNames(query), params, |matches|);
    assert ParamNames(query)[..|matches|] == ParamNames(query);
  }

  // ----- SQLite and SQL Server

  datatype Named<V> = Named(name: string, value: Option<V>)

  ghost predicate Carries<V>(args: seq<Named<V>>, name: string) {
    exists i :: 0 <= i < |args| && args[i].name == name
  }

  /** One argument per distinct name, each with its bound value, and no others. */
  ghost predicate NamedFor<V>(names: seq<string>, params: map<string, V>, args: seq<Named<V>>) {
    && (forall i, j :: 0 <= i < j < |args| ==> args[i].name != args[j].name)
    && (forall i :: 0 <= i < |args| ==> args[i].name in names)
    && (forall i :: 0 <= i < |args| && args[i].name in params ==> args[i].value == Some(params[args[i].name]))
    && (forall i :: 0 <= i < |args| && args[i].name !in params ==> args[i].value == None)
    && (forall k :: 0 <= k < |names| ==> Carries(args, names[k]))
  }

  lemma NamedForOneMore<V>(names: seq<string>, name: string, params: map<string, V>, args: seq<Named<V>>)
    requires NamedFor(names, params, args)
    ensures Carries(args, name) ==> NamedFor(names + [name], params, args)
    ensures !Carries(args, name) ==> NamedFor(names + [name], params, args + [Named(name, Bound(params, name))])
  {
    var more, names' := args + [Named(name, Bound(params, name))], names + [name];
    assert more[|args|].name == name;
    forall k | 0 <= k < |names'| ensures Carries(more, names'[k]) {
      if k < |names| {
        var i :| 0 <= i < |args| && args[i].name == names[k];
        assert more[i].name == names'[k];
      }
    }
  }

  method SqlServerBuildArgs<V>(query: string, params: map<string, V>) returns (args: seq<Named<V>>)
    ensures NamedFor(ParamNames(query), params, args)
  {
    var matches := FindAll(query);
    FindAllOrdered(query, 0);
    ghost var names := ParamNames(query);
    var added: set<string> := {};
    args := [];
    for k := 0 to |matches|
      invariant NamedFor(names[..k], params, args)
      invariant forall x :: x in added <==> Carries(args, x)
    {
      var name := Name(query, matches[k]);
      NamedForOneMore(names[..k], name, params, args);
      TakeOneMore(names, k);
      if name in added {
        continue;
      }
      CarriesOneMore(args, Named(name, Bound(params, name)));
      args := args + [Named(name, Bound(params, name))];
      added := added + {name};
    }
    assert names[..|matches|] == names;
  }

  lemma CarriesOneMore<V>(args: seq<Named<V>>, arg: Named<V>)
    ensures forall x :: Carries(args + [arg], x) <==> Carries(args, x) || x == arg.name
  {
    var more := args + [arg];
    assert more[|args|] == arg;
    forall x | Carries(args, x) ensures Carries(more, x) {
      var i :| 0 <= i < |args| && args[i].name == x;
      assert more[i].name == x;
    }
  }

  method SqliteTranslateQuery<V>(query: string, params: map<string, V>)
    returns (translated: string, args: seq<Named<V>>)
    ensures translated == query && NamedFor(ParamNames(query), params, args)
  {
    var matches := FindAll(query);
    FindAllOrdered(query, 0);
    ghost var names := ParamNames(query);
    var added: map<string, bool> := map[];
    args := [];
    for k := 0 to |matches|
      invariant NamedFor(names[..k], params, args)
      invariant forall x :: x in added <==> Carries(args, x)
    {
      var name := Name(query, matches[k]);
      NamedForOneMore(names[..k], name, params, args);
      TakeOneMore(names, k);
      if name !in added {
        var arg := Named(name, Bound(params, name));
        CarriesOneMore(args, arg);
        args := args + [arg];
        added := added[name := true];
      }
    }
    assert names[..|matches|] == names;
    translated := query;
  }

  /** The occurrence with the given name is given the value by exactly one named argument. */
  ghost predicate GivesAlike<V>(named: seq<Named<V>>, name: string, value: Option<V>) {
    && (exists i :: 0 <= i < |named| && named[i] == Named(name, value))
    && (forall i :: 0 <= i < |named| && named[i].name == name ==> named[i].value == value)
    && (forall i, j :: 0 <= i < j < |named| && named[i].name == name ==> named[j].name != name)
  }

  lemma NamedGivesAlike<V>(names: seq<string>, params: map<string, V>, named: seq<Named<V>>, k: nat)
    requires NamedFor(names, params, named) && k < |names|
    ensures GivesAlike(named, names[k], Bound(params, names[k]))
  {
    assert Carries(named, names[k]);
    var i :| 0 <= i < |named| && named[i].name == names[k];
    assert named[i] == Named(names[k], Bound(params, names[k]));
  }

  /** The three drivers on one query: every occurrence of a parameter gets, positionally, the
      value of the one named argument that carries its name in either of the other drivers. */
  method DriversBindAlike<V>(query: string, params: map<string, V>)
    returns (mysql: seq<Option<V>>, sqlite: seq<Named<V>>, sqlserver: seq<Named<V>>)
    ensures PositionalFor(ParamNames(query), params, mysql)
    ensures forall k :: 0 <= k < |mysql| ==>
      GivesAlike(sqlite, ParamNames(query)[k], mysql[k]) && GivesAlike(sqlserver, ParamNames(query)[k], mysql[k])
  {
    var translated, sameQuery;
    ghost var at;
    translated, mysql, at := MySqlTranslateQuery(query, params);
    sameQuery, sqlite := SqliteTranslateQuery(query, params);
    sqlserver := SqlServerBuildArgs(query, params);
    forall k | 0 <= k < |mysql|
      ensures GivesAlike(sqlite, ParamNames(query)[k], mysql[k])
      ensures GivesAlike(sqlserver, ParamNames(query)[k], mysql[k])
    {
      NamedGivesAlike(ParamNames(query), params, sqlite, k);
      NamedGivesAlike(ParamNames(query), params, sqlserver, k);
    }
  }
}
