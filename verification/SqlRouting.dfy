/**
 Routing a statement: does it return rows, or is it a write? Compared with the permission
 question, which is asked of every word of the text.
 */
module SqlRouting {
  import opened SqlText

  predicate IsSpace(c: char) {
    c == ' ' || 9 <= c as int <= 13
  }

  function LeadingSpaces(s: string): (n: nat)
    ensures n <= |s| && forall k :: 0 <= k < n ==> IsSpace(s[k])
    ensures n < |s| ==> !IsSpace(s[n])
  {
    if s == [] || !IsSpace(s[0]) then 0 else 1 + LeadingSpaces(s[1..])
  }

  /** Length of the text without its trailing spaces. */
  function TrimmedLength(s: string): (n: nat)
    ensures n <= |s| && forall k :: n <= k < |s| ==> IsSpace(s[k])
    ensures n > 0 ==> !IsSpace(s[n - 1])
  {
    if s == [] || !IsSpace(s[|s| - 1]) then |s| else TrimmedLength(s[..|s| - 1])
  }

  function TrimSpace(s: string): string {
    var t := s[LeadingSpaces(s)..];
    t[..TrimmedLength(t)]
  }

  /** Length of the first whitespace-delimited field of a text that starts with one. */
  function FieldLength(s: string): (n: nat)
    ensures n <= |s| && forall k :: 0 <= k < n ==> !IsSpace(s[k])
    ensures n < |s| ==> IsSpace(s[n])
  {
    if s == [] || IsSpace(s[0]) then 0 else 1 + FieldLength(s[1..])
  }

  ghost predicate Contains(s: string, w: string) {
    exists i :: 0 <= i <= |s| && w <= s[i..]
  }

  predicate HasSuffix(s: string, w: string) {
    |w| <= |s| && s[|s| - |w|..] == w
  }

  /** The text whose first word decides the route. */
  ghost function RoutedText(sql: string): string {
    Upper(TrimSpace(Strip(sql)))
  }

  ghost predicate IsWriteQuery(sql: string) {
    RoutesAsWrite(RoutedText(sql))
  }

  ghost predicate RoutesAsWrite(u: string) {
    if u == "" then false
    else if "WITH " <= u then
      exists kw :: kw in WRITE_KEYWORDS && (Contains(u, kw + " ") || HasSuffix(u, kw))
    else u[..FieldLength(u)] in WRITE_KEYWORDS
  }

  /** The white space that is trimmed and that ends a field. */
  lemma TheSpaces(c: char)
    ensures IsSpace(c) <==> c == ' ' || c == '\t' || c == '\n' || c as int == 11 || c as int == 12 || c == '\r'
  {
  }

  /** White space before a statement, or after one that ends in code, does not matter. */
  lemma LeadingSpaceIsIgnored(sql: string, c: char)
    requires c == ' ' || c == '\t' || c == '\n' || c == '\r'
    ensures IsWriteQuery([c] + sql) <==> IsWriteQuery(sql)
  {
    SpaceStays(sql, c);
    TrimCons(Strip(sql), c);
    assert RoutedText([c] + sql) == RoutedText(sql);
  }

  lemma SpaceStays(sql: string, c: char)
    requires IsSpace(c)
    ensures Strip([c] + sql) == [c] + Strip(sql)
  {
    StripHead([c] + sql);
    assert ([c] + sql)[1..] == sql;
  }

  lemma TrimCons(s: string, c: char)
    requires IsSpace(c)
    ensures TrimSpace([c] + s) == TrimSpace(s)
  {
    TrimBefore([c] + s);
    assert ([c] + s)[1..] == s;
  }

  lemma TrailingSpaceIsIgnored(sql: string, c: char)
    requires c == ' ' || c == '\t' || c == '\n' || c == '\r'
    requires CodeAt(sql + [c], |sql|)
    ensures IsWriteQuery(sql + [c]) <==> IsWriteQuery(sql)
  {
    StripAround(sql, c, []);
    StripHead([c]);
    assert [c] + [] == [c] && [c][1..] == [];
    TrimAfter(Strip(sql), c);
    assert RoutedText(sql + [c]) == RoutedText(sql);
  }

  lemma TrimBefore(s: string)
    requires s != [] && IsSpace(s[0])
    ensures TrimSpace(s) == TrimSpace(s[1..])
  {
    assert s[LeadingSpaces(s)..] == s[1..][LeadingSpaces(s[1..])..];
  }

  lemma {:induction false} TrimAfter(s: string, c: char)
    requires IsSpace(c)
    ensures TrimSpace(s + [c]) == TrimSpace(s)
  {
    if s == [] {
      assert s + [c] == [c] && [c][1..] == s;
      TrimBefore([c]);
    } else if IsSpace(s[0]) {
      TrimAfter(s[1..], c);
      TrimBefore(s);
      TrimBefore(s + [c]);
      assert (s + [c])[1..] == s[1..] + [c];
    } else {
      TrimAfterText(s, c);
    }
  }

  lemma TrimAfterText(s: string, c: char)
    requires IsSpace(c) && s != [] && !IsSpace(s[0])
    ensures TrimSpace(s + [c]) == TrimSpace(s)
  {
    TrimNoLead(s);
    TrimNoLead(s + [c]);
    TrimmedAfter(s, c);
  }

  lemma TrimNoLead(s: string)
    requires s != [] && !IsSpace(s[0])
    ensures TrimSpace(s) == s[..TrimmedLength(s)]
  {
    assert s[0..] == s;
  }

  lemma TrimmedAfter(s: string, c: char)
    requires IsSpace(c)
    ensures (s + [c])[..TrimmedLength(s + [c])] == s[..TrimmedLength(s)]
  {
    assert (s + [c])[..|s|] == s;
  }

  /** The keyword starts the text, before white space or alone. */
  predicate StartsWith(u: string, kw: string) {
    kw <= u && (|kw| < |u| ==> IsSpace(u[|kw|]))
  }

  /** A statement that does not start with WITH is routed as a write exactly if a write keyword
      starts it. */
  lemma FirstWordRoutes(sql: string)
    requires !("WITH " <= RoutedText(sql))
    ensures IsWriteQuery(sql) <==> exists kw :: kw in WRITE_KEYWORDS && StartsWith(RoutedText(sql), kw)
  {
    var u := RoutedText(sql);
    assert StartsWith(u, u[..FieldLength(u)]);
    forall kw | kw in WRITE_KEYWORDS && StartsWith(u, kw) ensures u != [] && u[..FieldLength(u)] == kw {
      KeywordStarts(u, kw);
    }
  }

  lemma KeywordStarts(u: string, kw: string)
    requires kw in WRITE_KEYWORDS && StartsWith(u, kw)
    ensures u != [] && u[..FieldLength(u)] == kw
  {
    KeywordIsWord(kw);
    FieldIs(u, kw);
  }

  lemma {:induction false} FieldIs(u: string, w: string)
    requires w <= u && (forall k :: 0 <= k < |w| ==> !IsSpace(w[k])) && (|w| < |u| ==> IsSpace(u[|w|]))
    ensures FieldLength(u) == |w| && u[..|w|] == w
  {
    if w != [] {
      FieldIs(u[1..], w[1..]);
    }
  }

  lemma KeywordIsWord(w: string)
    requires w in WRITE_KEYWORDS
    ensures w != "" && w in MUTATING_KEYWORDS
    ensures forall k :: 0 <= k < |w| ==> IsIdentChar(w[k])
  {
  }

  /** Trimming cuts a slice out of the text, with spaces or nothing on either side. */
  lemma TrimIsSlice(s: string) returns (a: nat, b: nat)
    ensures a <= b <= |s| && TrimSpace(s) == s[a..b]
    ensures a > 0 ==> IsSpace(s[a - 1])
    ensures b < |s| ==> IsSpace(s[b])
  {
    a := LeadingSpaces(s);
    var t := s[a..];
    b := a + TrimmedLength(t);
    assert b < |s| ==> t[b - a] == s[b];
  }

  lemma UpperOfSlice(s: string, a: nat, b: nat)
    requires a <= b <= |s|
    ensures Upper(s[a..b]) == Upper(s)[a..b]
  {
  }

  lemma SliceIsWord(s: string, i: nat, w: string, words: seq<string>)
    requires w != [] && i + |w| <= |s| && s[i..i + |w|] == w && w in words
    requires forall k :: 0 <= k < |w| ==> IsIdentChar(w[k])
    requires i > 0 ==> !IsIdentChar(s[i - 1])
    requires i + |w| < |s| ==> !IsIdentChar(s[i + |w|])
    ensures HasWord(s, words)
  {
    forall k | i <= k < i + |w| ensures IsIdentChar(s[k]) { assert s[k] == w[k - i]; }
    assert WordAt(s, i, i + |w|, words);
  }

  lemma FieldOfSliceIsWord(whole: string, a: nat, b: nat, words: seq<string>)
    requires a <= b <= |whole|
    requires a > 0 ==> IsSpace(whole[a - 1])
    requires b < |whole| ==> IsSpace(whole[b])
    requires var u := whole[a..b]; var w := u[..FieldLength(u)];
             w != [] && w in words && forall k :: 0 <= k < |w| ==> IsIdentChar(w[k])
    ensures HasWord(whole, words)
  {
    var u := whole[a..b];
    var n := FieldLength(u);
    assert whole[a..a + n] == u[..n];
    assert a + n < b ==> whole[a + n] == u[n];
    SliceIsWord(whole, a, u[..n], words);
  }

  lemma FirstFieldIsWord(s: string)
    requires var u := Upper(TrimSpace(s)); u[..FieldLength(u)] in WRITE_KEYWORDS
    ensures HasWord(Upper(s), MUTATING_KEYWORDS)
  {
    var a, b := TrimIsSlice(s);
    UpperOfSlice(s, a, b);
    var u := Upper(TrimSpace(s));
    KeywordIsWord(u[..FieldLength(u)]);
    FieldOfSliceIsWord(Upper(s), a, b, MUTATING_KEYWORDS);
  }

  /** The keyword stands at `i`, before a space or the end of the text. */
  predicate MatchAt(u: string, kw: string, i: nat) {
    i + |kw| <= |u| && u[i..i + |kw|] == kw && (i + |kw| == |u| || u[i + |kw|] == ' ')
  }

  /** No identifier character precedes the position. */
  predicate Unglued(u: string, i: nat) {
    i == 0 || i > |u| || !IsIdentChar(u[i - 1])
  }

  ghost predicate Matches(u: string, kw: string) {
    exists i: nat :: MatchAt(u, kw, i)
  }

  lemma ContainsIsMatch(u: string, kw: string, i: nat)
    requires i <= |u| && kw + " " <= u[i..]
    ensures MatchAt(u, kw, i)
  {
    var w := kw + " ";
    assert w[..|kw|] == kw && w[|kw|] == ' ';
    assert u[i..][..|w|] == w;
    assert u[i..i + |kw|] == w[..|kw|] && u[i + |kw|] == u[i..][|kw|] == w[|kw|];
  }

  lemma MatchIsFound(u: string, kw: string, i: nat)
    requires MatchAt(u, kw, i)
    ensures Contains(u, kw + " ") || HasSuffix(u, kw)
  {
    if i + |kw| < |u| {
      assert kw + " " <= u[i..];
    }
  }

  lemma MatchesIff(u: string, kw: string)
    ensures Matches(u, kw) <==> Contains(u, kw + " ") || HasSuffix(u, kw)
  {
    if Contains(u, kw + " ") {
      var i :| 0 <= i <= |u| && kw + " " <= u[i..];
      ContainsIsMatch(u, kw, i);
    }
    if HasSuffix(u, kw) {
      assert MatchAt(u, kw, |u| - |kw|);
    }
    if Matches(u, kw) {
      var i: nat :| MatchAt(u, kw, i);
      MatchIsFound(u, kw, i);
    }
  }

  /** Under WITH a statement is routed as a write exactly when some keyword is matched. */
  lemma WithRoutesIffMatch(sql: string)
    requires "WITH " <= RoutedText(sql)
    ensures IsWriteQuery(sql) <==> exists kw :: kw in WRITE_KEYWORDS && Matches(RoutedText(sql), kw)
  {
    forall kw ensures Matches(RoutedText(sql), kw) <==>
      Contains(RoutedText(sql), kw + " ") || HasSuffix(RoutedText(sql), kw)
    {
      MatchesIff(RoutedText(sql), kw);
    }
  }

  lemma MatchInSliceIsWord(whole: string, a: nat, b: nat, kw: string, i: nat, words: seq<string>)
    requires a <= b <= |whole| && MatchAt(whole[a..b], kw, i) && Unglued(whole[a..b], i)
    requires a > 0 ==> IsSpace(whole[a - 1])
    requires b < |whole| ==> IsSpace(whole[b])
    requires kw != [] && kw in words && forall k :: 0 <= k < |kw| ==> IsIdentChar(kw[k])
    ensures HasWord(whole, words)
  {
    var u := whole[a..b];
    assert forall k :: 0 <= k < |kw| ==> whole[a + i + k] == u[i + k] == kw[k];
    assert whole[a + i..a + i + |kw|] == kw;
    assert i > 0 ==> whole[a + i - 1] == u[i - 1];
    assert i + |kw| < |u| ==> whole[a + i + |kw|] == u[i + |kw|];
    SliceIsWord(whole, a + i, kw, words);
  }

  lemma UngluedMatchIsWord(s: string, kw: string, i: nat)
    requires kw in WRITE_KEYWORDS && MatchAt(Upper(TrimSpace(s)), kw, i) && Unglued(Upper(TrimSpace(s)), i)
    ensures HasWord(Upper(s), MUTATING_KEYWORDS)
  {
    var a, b := TrimIsSlice(s);
    UpperOfSlice(s, a, b);
    KeywordIsWord(kw);
    MatchInSliceIsWord(Upper(s), a, b, kw, i, MUTATING_KEYWORDS);
  }

  /** The statement is routed by its first word or, under WITH, by a keyword not glued to a name. */
  ghost predicate RoutedByWord(sql: string) {
    var u := RoutedText(sql);
    if "WITH " <= u then exists kw, i: nat :: kw in WRITE_KEYWORDS && MatchAt(u, kw, i) && Unglued(u, i)
    else IsWriteQuery(sql)
  }

  /** Permission is a superset of routing by whole words. */
  lemma RoutingImpliesPermission(sql: string)
    requires RoutedByWord(sql)
    ensures IsWriteQuery(sql) && NeedsWrite(sql)
  {
    var u := RoutedText(sql);
    if "WITH " <= u {
      WithRoutesIffMatch(sql);
      var kw, i: nat :| kw in WRITE_KEYWORDS && MatchAt(u, kw, i) && Unglued(u, i);
      assert Matches(u, kw);
      UngluedMatchIsWord(Strip(sql), kw, i);
    } else {
      FirstFieldIsWord(Strip(sql));
    }
  }

  /** Some keyword that routing under WITH does not look for: one that calls a procedure, or one
      that stands before a character other than a space. */
  predicate OverlookedAt(u: string, i: int, j: int) {
    0 <= i <= j <= |u| && (u[i..j] in PROCEDURE_KEYWORDS || (j < |u| && u[j] != ' '))
  }

  ghost predicate OtherKeyword(sql: string) {
    exists i, j :: WordAt(RoutedText(sql), i, j, MUTATING_KEYWORDS) && OverlookedAt(RoutedText(sql), i, j)
  }

  /** Cutting off spaces on either side changes no word. */
  lemma WordsOfSlice(whole: string, a: nat, b: nat, words: seq<string>)
    requires a <= b <= |whole|
    requires forall k :: 0 <= k < a || b <= k < |whole| ==> !IsIdentChar(whole[k])
    ensures HasWord(whole, words) <==> HasWord(whole[a..b], words)
  {
    var u := whole[a..b];
    if HasWord(whole, words) {
      var i, j :| WordAt(whole, i, j, words);
      WordInside(whole, a, b, i, j);
      SliceOfSlice(whole, a, b, i - a, j - a);
      assert WordAt(u, i - a, j - a, words);
    }
    if HasWord(u, words) {
      var i, j :| WordAt(u, i, j, words);
      SliceOfSlice(whole, a, b, i, j);
      SliceWord(whole, a, b, i, j);
      assert WordAt(whole, a + i, a + j, words);
    }
  }

  lemma SliceOfSlice(whole: string, a: nat, b: nat, i: int, j: int)
    requires a <= b <= |whole| && 0 <= i <= j <= b - a
    ensures whole[a..b][i..j] == whole[a + i..a + j]
  {
    var u, v := whole[a..b][i..j], whole[a + i..a + j];
    assert |u| == |v| && forall k :: 0 <= k < |u| ==> u[k] == whole[a + i + k] == v[k];
  }

  lemma WordInside(whole: string, a: nat, b: nat, i: int, j: int)
    requires a <= b <= |whole| && IsWord(whole, i, j)
    requires forall k :: 0 <= k < a || b <= k < |whole| ==> !IsIdentChar(whole[k])
    ensures a <= i < j <= b && IsWord(whole[a..b], i - a, j - a)
  {
    assert IsIdentChar(whole[i]) && IsIdentChar(whole[j - 1]);
    forall k | i - a <= k < j - a ensures IsIdentChar(whole[a..b][k]) {
      assert whole[a..b][k] == whole[a + k];
    }
  }

  lemma SliceWord(whole: string, a: nat, b: nat, i: int, j: int)
    requires a <= b <= |whole| && IsWord(whole[a..b], i, j)
    requires forall k :: 0 <= k < a || b <= k < |whole| ==> !IsIdentChar(whole[k])
    ensures IsWord(whole, a + i, a + j)
  {
    forall k | a + i <= k < a + j ensures IsIdentChar(whole[k]) {
      assert whole[a..b][k - a] == whole[k];
    }
  }

  /** What is trimmed is no part of a word. */
  lemma TrimmedAreSpaces(s: string) returns (a: nat, b: nat)
    ensures a <= b <= |s| && TrimSpace(s) == s[a..b]
    ensures forall k :: 0 <= k < a || b <= k < |s| ==> IsSpace(s[k])
  {
    a := LeadingSpaces(s);
    var t := s[a..];
    b := a + TrimmedLength(t);
    forall k | b <= k < |s| ensures IsSpace(s[k]) {
      assert t[k - a] == s[k];
    }
  }

  /** Write access is needed exactly when the trimmed text has a mutating keyword. */
  lemma NeedsWriteIffWord(sql: string)
    ensures NeedsWrite(sql) <==> HasWord(RoutedText(sql), MUTATING_KEYWORDS)
  {
    var s := Strip(sql);
    var a, b := TrimmedAreSpaces(s);
    UpperOfSlice(s, a, b);
    assert forall k :: 0 <= k < |s| && IsSpace(s[k]) ==> !IsIdentChar(Upper(s)[k]);
    WordsOfSlice(Upper(s), a, b, MUTATING_KEYWORDS);
  }

  /** A keyword routing does look for is matched, unless it is overlooked. */
  lemma WordIsMatchOrOther(u: string, i: int, j: int)
    requires WordAt(u, i, j, MUTATING_KEYWORDS) && !OverlookedAt(u, i, j)
    ensures u[i..j] in WRITE_KEYWORDS && MatchAt(u, u[i..j], i) && Unglued(u, i)
  {
    assert u[i..j] in WRITE_KEYWORDS + PROCEDURE_KEYWORDS;
  }

  /** A statement routed as a write needs write access if and only if it is routed by a whole word
      or has a mutating keyword that routing does not look for. */
  lemma PermissionIff(sql: string)
    requires IsWriteQuery(sql)
    ensures NeedsWrite(sql) <==> RoutedByWord(sql) || OtherKeyword(sql)
  {
    var u := RoutedText(sql);
    NeedsWriteIffWord(sql);
    if RoutedByWord(sql) {
      RoutingImpliesPermission(sql);
    }
    if NeedsWrite(sql) && "WITH " <= u && !OtherKeyword(sql) {
      var i, j :| WordAt(u, i, j, MUTATING_KEYWORDS);
      WordIsMatchOrOther(u, i, j);
      var kw, n: nat := u[i..j], i;
      assert kw in WRITE_KEYWORDS && MatchAt(u, kw, n) && Unglued(u, n);
    }
  }

  /** Every keyword matched under WITH is the tail of a longer name. */
  ghost predicate AllGlued(sql: string) {
    var u := RoutedText(sql);
    "WITH " <= u && forall kw, i: nat :: kw in WRITE_KEYWORDS && MatchAt(u, kw, i) ==> !Unglued(u, i)
  }

  lemma GluedIffNotByWord(sql: string)
    requires IsWriteQuery(sql)
    ensures AllGlued(sql) <==> !RoutedByWord(sql)
  {
  }

  /** So the statements routed as writes without needing write access are exactly those that start
      with WITH, match keywords only at the end of longer names, and have no other keyword. */
  lemma RoutedWithoutPermissionIff(sql: string)
    ensures IsWriteQuery(sql) && !NeedsWrite(sql) <==> IsWriteQuery(sql) && AllGlued(sql) && !OtherKeyword(sql)
  {
    if IsWriteQuery(sql) {
      PermissionIff(sql);
      GluedIffNotByWord(sql);
    }
  }

  /** Where every mutating keyword is a write keyword before a space or the end, permission is
      needed exactly when routing is by a whole word. */
  lemma PermissionIffByWord(sql: string)
    requires IsWriteQuery(sql) && !OtherKeyword(sql)
    ensures NeedsWrite(sql) <==> RoutedByWord(sql)
  {
    PermissionIff(sql);
  }

  lemma IdentTextIsOneWord(x: string, words: seq<string>)
    requires x != [] && forall k :: 0 <= k < |x| ==> IsIdentChar(x[k])
    ensures HasWord(x, words) <==> x in words
  {
    assert x[0..|x|] == x;
    if HasWord(x, words) {
      var i, j :| WordAt(x, i, j, words);
      assert i == 0 && j == |x|;
    }
    if x in words { assert WordAt(x, 0, |x|, words); }
  }

  lemma WithIsNoKeyword()
    ensures "WITH" !in MUTATING_KEYWORDS
  {
    var w := "WITH";
    assert w[0] == 'W';
    forall k | 0 <= k < |MUTATING_KEYWORDS| ensures MUTATING_KEYWORDS[k] != w {
      assert MUTATING_KEYWORDS[k] != [] && MUTATING_KEYWORDS[k][0] != 'W';
    }
  }

  /** Under WITH it is not: keywords are sought as substrings there, so any name that merely
      ends in one routes the statement as a write although no word of it is a keyword. */
  lemma WithRoutesWithoutPermission(name: string, kw: string)
    requires kw in WRITE_KEYWORDS && HasSuffix(name, kw) && name !in MUTATING_KEYWORDS
    requires Upper(name) == name && forall k :: 0 <= k < |name| ==> IsIdentChar(name[k])
    ensures IsWriteQuery("WITH" + [' '] + name) && !NeedsWrite("WITH" + [' '] + name)
  {
    KeywordIsWord(kw);
    WithTextIsPlain(name);
    SuffixOfMore("WITH" + [' '], name, kw);
    WithNameHasNoKeyword(name);
  }

  lemma SuffixOfMore(front: string, name: string, kw: string)
    requires HasSuffix(name, kw)
    ensures HasSuffix(front + name, kw)
  {
    var s := front + name;
    assert s[|s| - |kw|..] == name[|name| - |kw|..];
  }

  lemma WithTextIsPlain(name: string)
    requires name != [] && Upper(name) == name && forall k :: 0 <= k < |name| ==> IsIdentChar(name[k])
    ensures var s := "WITH" + [' '] + name; Strip(s) == s && Upper(s) == s && TrimSpace(s) == s && "WITH " <= s
  {
    var s := "WITH" + [' '] + name;
    CleanByChars(s);
    CleanIsKept(s);
    TrimNothing(s);
    assert Upper(s) == Upper("WITH" + [' ']) + Upper(name);
    assert Upper("WITH" + [' ']) == "WITH" + [' '];
  }

  lemma WithNameHasNoKeyword(name: string)
    requires name != [] && name !in MUTATING_KEYWORDS && forall k :: 0 <= k < |name| ==> IsIdentChar(name[k])
    ensures !HasWord("WITH" + [' '] + name, MUTATING_KEYWORDS)
  {
    WithIsNoKeyword();
    IdentTextIsOneWord("WITH", MUTATING_KEYWORDS);
    IdentTextIsOneWord(name, MUTATING_KEYWORDS);
    WordOfEither("WITH", ' ', name, MUTATING_KEYWORDS);
  }

  lemma TrimNothing(s: string)
    requires s != [] && !IsSpace(s[0]) && !IsSpace(s[|s| - 1])
    ensures TrimSpace(s) == s
  {
    assert s[0..] == s && s[..|s|] == s;
  }

  lemma {:induction false} CleanByChars(s: string)
    requires forall k :: 0 <= k < |s| ==> IsIdentChar(s[k]) || s[k] == ' '
    ensures Clean(s)
  {
    if s != [] {
      CleanByChars(s[1..]);
    }
  }
}
