/**
 SQL text: stripping comments, string literals and quoted identifiers, and classifying a
 statement by the keywords that remain. Text is ASCII, one character per byte.
 */
module SqlText {
  import opened Scanner

  // ----- tokens of the main loop, measured from the head of the text

  /** Length of the text up to the end of the line. */
  function ToEol(s: string): (n: nat)
    ensures n <= |s|
  {
    if s == [] || s[0] == '\n' then 0 else 1 + ToEol(s[1..])
  }

  /** Length of the text up to and including the end of a block comment. */
  function ToBlockEnd(s: string): (n: nat)
    ensures n <= |s|
  {
    if s == [] then 0
    else if |s| >= 2 && s[0] == '*' && s[1] == '/' then 2
    else 1 + ToBlockEnd(s[1..])
  }

  /** Length of the text up to and including the closing quote; a doubled quote is content. */
  function ToQuoteEnd(s: string, q: char): (n: nat)
    ensures n <= |s|
  {
    if s == [] then 0
    else if s[0] != q then 1 + ToQuoteEnd(s[1..], q)
    else if |s| >= 2 && s[1] == q then 2 + ToQuoteEnd(s[2..], q)
    else 1
  }

  function ToBracketEnd(s: string): (n: nat)
    ensures n <= |s|
  {
    if s == [] then 0 else if s[0] == ']' then 1 else 1 + ToBracketEnd(s[1..])
  }

  predicate IsQuote(c: char) {
    c == '\'' || c == '"' || c == '`'
  }

  predicate StartsWith2(s: string, a: char, b: char) {
    |s| >= 2 && s[0] == a && s[1] == b
  }

  /** A comment, literal or quoted identifier starts here. */
  predicate Opens(s: string) {
    s != [] && (StartsWith2(s, '-', '-') || StartsWith2(s, '/', '*') || IsQuote(s[0]) || s[0] == '[')
  }

  /** How much of a non-empty text one turn of the main loop consumes. */
  function TokenLen(s: string): (n: nat)
    requires s != []
    ensures 1 <= n <= |s|
  {
    if StartsWith2(s, '-', '-') then 2 + ToEol(s[2..])
    else if StartsWith2(s, '/', '*') then 2 + ToBlockEnd(s[2..])
    else if IsQuote(s[0]) then 1 + ToQuoteEnd(s[1..], s[0])
    else if s[0] == '[' then 1 + ToBracketEnd(s[1..])
    else 1
  }

  /** What one turn writes: a space for whatever is stripped, the character itself for code. */
  function TokenOut(s: string): char {
    if s == [] || Opens(s) then ' ' else s[0]
  }

  const SQL: Lexer := Lexer((s: string) => if s == [] then 0 else TokenLen(s), (s: string) => TokenOut(s))

  ghost function Strip(s: string): string {
    SqlLooksOneAhead();
    Scan(SQL, s)
  }

  /** The main loop of the stripper comes to stand at position `p`: it is code there. */
  ghost predicate CodeAt(s: string, p: nat) {
    SqlLooksOneAhead();
    Reaches(SQL, s, p)
  }

  lemma StripHead(s: string)
    requires s != []
    ensures Strip(s) == [TokenOut(s)] + Strip(s[TokenLen(s)..])
  {
  }

  // ----- the loop

  method SkipQuoted(sql: string, from: nat, q: char) returns (i: nat)
    requires from <= |sql|
    ensures i == from + ToQuoteEnd(sql[from..], q)
  {
    i := from;
    while i < |sql|
      invariant from <= i <= |sql|
      invariant from + ToQuoteEnd(sql[from..], q) == i + ToQuoteEnd(sql[i..], q)
    {
      if sql[i] == q {
        i := i + 1;
        if i < |sql| && sql[i] == q {
          i := i + 1;
          assert sql[i - 2..][2..] == sql[i..];
        } else {
          return;
        }
      } else {
        i := i + 1;
      }
    }
  }

  method SkipBlock(sql: string, from: nat) returns (i: nat)
    requires from <= |sql|
    ensures i == from + ToBlockEnd(sql[from..])
  {
    i := from;
    while i < |sql|
      invariant from <= i <= |sql|
      invariant from + ToBlockEnd(sql[from..]) == i + ToBlockEnd(sql[i..])
    {
      if i + 1 < |sql| && sql[i] == '*' && sql[i + 1] == '/' {
        return i + 2;
      }
      i := i + 1;
    }
  }

  method SkipLine(sql: string, from: nat) returns (i: nat)
    requires from <= |sql|
    ensures i == from + ToEol(sql[from..])
  {
    i := from;
    while i < |sql| && sql[i] != '\n'
      invariant from <= i <= |sql|
      invariant from + ToEol(sql[from..]) == i + ToEol(sql[i..])
    {
      i := i + 1;
    }
  }

  method SkipBracket(sql: string, from: nat) returns (i: nat)
    requires from <= |sql|
    ensures i == from + ToBracketEnd(sql[from..])
  {
    i := from;
    while i < |sql| && sql[i] != ']'
      invariant from <= i <= |sql|
      invariant from + ToBracketEnd(sql[from..]) == i + ToBracketEnd(sql[i..])
    {
      i := i + 1;
    }
    if i < |sql| {
      i := i + 1;
    }
  }

  /** One turn of the main loop. */
  method NextToken(sql: string, i: nat) returns (out: char, next: nat)
    requires i < |sql|
    ensures next == i + TokenLen(sql[i..]) && out == TokenOut(sql[i..])
  {
    var ch := sql[i];
    ghost var rest := sql[i..];
    assert rest[1..] == sql[i + 1..];
    out := ' ';
    if ch == '-' && i + 1 < |sql| && sql[i + 1] == '-' {
      assert rest[2..] == sql[i + 2..];
      next := SkipLine(sql, i + 2);
    } else if ch == '/' && i + 1 < |sql| && sql[i + 1] == '*' {
      assert rest[2..] == sql[i + 2..];
      next := SkipBlock(sql, i + 2);
    } else if ch == '\'' || ch == '"' || ch == '`' {
      next := SkipQuoted(sql, i + 1, ch);
    } else if ch == '[' {
      next := SkipBracket(sql, i + 1);
    } else {
      out, next := ch, i + 1;
    }
  }

  lemma StripOneToken(sql: string, i: nat, buf: string, next: nat)
    requires i < |sql| && Strip(sql) == buf + Strip(sql[i..])
    requires next == i + TokenLen(sql[i..])
    ensures Strip(sql) == (buf + [TokenOut(sql[i..])]) + Strip(sql[next..])
  {
    StripHead(sql[i..]);
    assert sql[i..][next - i..] == sql[next..];
  }

  method StripLiterals(sql: string) returns (buf: string)
    ensures buf == Strip(sql)
  {
    buf := [];
    var i := 0;
    while i < |sql|
      invariant 0 <= i <= |sql|
      invariant Strip(sql) == buf + Strip(sql[i..])
    {
      var out, next := NextToken(sql, i);
      StripOneToken(sql, i, buf, next);
      buf := buf + [out];
      i := next;
    }
  }

  // ----- the output is clean, and stripping is idempotent

  /** No comment, quote or bracket starts anywhere in the text. */
  predicate Clean(s: string) {
    s == [] || (!Opens(s) && Clean(s[1..]))
  }

  lemma {:induction false} StripIsClean(s: string)
    ensures Clean(Strip(s))
    decreases |s|
  {
    if s != [] {
      var rest := s[TokenLen(s)..];
      StripIsClean(rest);
      StripHead(s);
      assert Strip(s)[1..] == Strip(rest);
      if rest != [] { StripHead(rest); }
    }
  }

  lemma {:induction false} CleanIsKept(s: string)
    requires Clean(s)
    ensures Strip(s) == s
  {
    if s != [] {
      CleanIsKept(s[1..]);
      StripHead(s);
    }
  }

  /** Stripping keeps exactly the texts with nothing to strip, so a second pass does nothing. */
  lemma StripIdempotent(s: string)
    ensures Strip(Strip(s)) == Strip(s)
    ensures Strip(s) == s <==> Clean(s)
  {
    StripIsClean(s);
    CleanIsKept(Strip(s));
    if Clean(s) { CleanIsKept(s); }
  }

  // ----- cutting the text where the main loop stands

  lemma {:induction false} EolOfPrefix(s: string, p: nat)
    requires p <= |s| && (ToEol(s) <= p || ToEol(s[..p]) < p)
    ensures ToEol(s[..p]) == ToEol(s)
  {
    if s != [] && p > 0 && s[0] != '\n' {
      assert s[..p][1..] == s[1..][..p - 1];
      EolOfPrefix(s[1..], p - 1);
    }
  }

  lemma {:induction false} BlockEndOfPrefix(s: string, p: nat)
    requires p <= |s| && (ToBlockEnd(s) <= p || ToBlockEnd(s[..p]) < p)
    ensures ToBlockEnd(s[..p]) == ToBlockEnd(s)
  {
    if s != [] && p > 0 && !(StartsWith2(s, '*', '/')) {
      assert s[..p][1..] == s[1..][..p - 1];
      BlockEndOfPrefix(s[1..], p - 1);
    }
  }

  lemma {:induction false} QuoteEndOfPrefix(s: string, q: char, p: nat)
    requires p <= |s| && (ToQuoteEnd(s, q) <= p || ToQuoteEnd(s[..p], q) < p)
    ensures ToQuoteEnd(s[..p], q) == ToQuoteEnd(s, q)
    decreases |s|
  {
    if s != [] && p > 0 {
      if s[0] != q {
        assert s[..p][1..] == s[1..][..p - 1];
        QuoteEndOfPrefix(s[1..], q, p - 1);
      } else if p >= 2 && s[1] == q {
        assert s[..p][2..] == s[2..][..p - 2];
        QuoteEndOfPrefix(s[2..], q, p - 2);
      }
    }
  }

  lemma {:induction false} BracketEndOfPrefix(s: string, p: nat)
    requires p <= |s| && (ToBracketEnd(s) <= p || ToBracketEnd(s[..p]) < p)
    ensures ToBracketEnd(s[..p]) == ToBracketEnd(s)
  {
    if s != [] && p > 0 && s[0] != ']' {
      assert s[..p][1..] == s[1..][..p - 1];
      BracketEndOfPrefix(s[1..], p - 1);
    }
  }

  /** A token that fits in a prefix, or ends before the prefix does, is the same token in the
      whole text. */
  lemma TokenOfPrefix(s: string, p: nat)
    requires 0 < p <= |s| && (TokenLen(s) <= p || TokenLen(s[..p]) < p)
    ensures TokenLen(s[..p]) == TokenLen(s) && Opens(s[..p]) == Opens(s)
  {
    var t := s[..p];
    if p >= 2 { assert t[2..] == s[2..][..p - 2]; }
    assert t[1..] == s[1..][..p - 1];
    if StartsWith2(t, '-', '-') { EolOfPrefix(s[2..], p - 2); }
    else if StartsWith2(t, '/', '*') { BlockEndOfPrefix(s[2..], p - 2); }
    else if IsQuote(s[0]) { QuoteEndOfPrefix(s[1..], s[0], p - 1); }
    else if s[0] == '[' { BracketEndOfPrefix(s[1..], p - 1); }
  }

  lemma SqlLooksOneAhead()
    ensures Advances(SQL) && LooksOneAhead(SQL)
  {
    forall a: string, b: string | a != [] && (SQL.len(a + b) <= |a| || SQL.len(a) < |a|)
      ensures SQL.len(a) == SQL.len(a + b) && SQL.out(a) == SQL.out(a + b)
    {
      assert (a + b)[..|a|] == a;
      TokenOfPrefix(a + b, |a|);
    }
  }

  /** From a point in code on, the text is stripped apart from what precedes it. */
  lemma StripAround(before: string, c: char, tail: string)
    requires CodeAt(before + [c], |before|)
    ensures Strip(before + ([c] + tail)) == Strip(before) + Strip([c] + tail)
  {
    SqlLooksOneAhead();
    ScanAround(SQL, before, c, tail);
  }

  // ----- literals do not matter

  function Doubled(body: string, q: char): string {
    if body == [] then []
    else (if body[0] == q then [q, q] else [body[0]]) + Doubled(body[1..], q)
  }

  lemma {:induction false} QuoteEndOfDoubled(body: string, q: char, after: string)
    requires after == [] || after[0] != q
    ensures ToQuoteEnd(Doubled(body, q) + ([q] + after), q) == |Doubled(body, q)| + 1
  {
    var end := [q] + after;
    if body != [] {
      QuoteEndOfDoubled(body[1..], q, after);
      var d, s := Doubled(body[1..], q), Doubled(body, q) + end;
      if body[0] == q {
        assert s[2..] == d + end;
      } else {
        assert s[1..] == d + end;
      }
    } else {
      assert Doubled(body, q) + end == end;
    }
  }

  /** A quoted literal is one space, whatever its body: the text strips to what is before, a
      space, and what is after, so replacing the body cannot be seen. */
  lemma LiteralBodyIsInvisible(before: string, q: char, body: string, after: string)
    requires q == '\'' || q == '"' || q == '`'
    requires CodeAt(before + [q], |before|) && (after == [] || after[0] != q)
    ensures Strip(before + ([q] + (Doubled(body, q) + ([q] + after)))) == Strip(before) + ([' '] + Strip(after))
  {
    StripAround(before, q, Doubled(body, q) + ([q] + after));
    LiteralIsOneSpace(q, body, after);
  }

  lemma LiteralIsOneSpace(q: char, body: string, after: string)
    requires IsQuote(q) && (after == [] || after[0] != q)
    ensures Strip([q] + (Doubled(body, q) + ([q] + after))) == [' '] + Strip(after)
  {
    var tail := Doubled(body, q) + ([q] + after);
    var lit := [q] + tail;
    assert lit[1..] == tail;
    QuoteEndOfDoubled(body, q, after);
    assert TokenLen(lit) == |Doubled(body, q)| + 2;
    assert lit[TokenLen(lit)..] == after;
    StripHead(lit);
  }

  // ----- write access

  predicate IsIdentChar(c: char) {
    'a' <= c <= 'z' || 'A' <= c <= 'Z' || '0' <= c <= '9' || c == '_'
  }

  function UpperChar(c: char): char {
    if 'a' <= c <= 'z' then (c as int - 32) as char else c
  }

  function Upper(s: string): string {
    seq(|s|, i requires 0 <= i < |s| => UpperChar(s[i]))
  }

  const WRITE_KEYWORDS: seq<string> :=
    ["INSERT", "UPDATE", "DELETE", "CREATE", "DROP", "ALTER", "TRUNCATE", "MERGE"]
  const PROCEDURE_KEYWORDS: seq<string> := ["EXEC", "EXECUTE", "CALL"]
  const MUTATING_KEYWORDS: seq<string> := WRITE_KEYWORDS + PROCEDURE_KEYWORDS

  /** `u[i..j]` is a maximal run of identifier characters. */
  ghost predicate IsWord(u: string, i: int, j: int) {
    && 0 <= i < j <= |u|
    && (forall k :: i <= k < j ==> IsIdentChar(u[k]))
    && (i == 0 || !IsIdentChar(u[i - 1]))
    && (j == |u| || !IsIdentChar(u[j]))
  }

  ghost predicate WordAt(u: string, i: int, j: int, words: seq<string>) {
    IsWord(u, i, j) && u[i..j] in words
  }

  ghost predicate HasWord(u: string, words: seq<string>) {
    exists i, j :: WordAt(u, i, j, words)
  }

  ghost predicate NeedsWrite(sql: string) {
    HasWord(Upper(Strip(sql)), MUTATING_KEYWORDS)
  }

  /** True exactly when some whole word of the stripped text is a mutating keyword. */
  method RequiresWriteAccess(sql: string) returns (r: bool)
    ensures r <==> NeedsWrite(sql)
  {
    var stripped := StripLiterals(sql);
    var upper := Upper(stripped);
    var i := 0;
    while i < |upper|
      invariant 0 <= i <= |upper|
      invariant i == 0 || i == |upper| || !IsIdentChar(upper[i - 1]) || !IsIdentChar(upper[i])
      invariant forall a, b :: WordAt(upper, a, b, MUTATING_KEYWORDS) ==> a >= i
    {
      if !IsIdentChar(upper[i]) {
        i := i + 1;
        continue;
      }
      var end := i;
      while end < |upper| && IsIdentChar(upper[end])
        invariant i <= end <= |upper|
        invariant forall k :: i <= k < end ==> IsIdentChar(upper[k])
      {
        end := end + 1;
      }
      if upper[i..end] in MUTATING_KEYWORDS {
        assert WordAt(upper, i, end, MUTATING_KEYWORDS);
        return true;
      }
      assert forall a, b :: i <= a < end && IsWord(upper, a, b) ==> a == i && b == end;
      i := end;
    }
    return false;
  }

  /** Words of `a` are the words of `a + w` that end in `a`, if `w` starts off a word. */
  lemma WordOnLeft(a: string, w: string, i: int, j: int, words: seq<string>)
    requires w == [] || !IsIdentChar(w[0])
    requires j <= |a|
    ensures WordAt(a, i, j, words) <==> WordAt(a + w, i, j, words)
  {
    var u := a + w;
    if 0 <= i < j {
      assert u[i..j] == a[i..j];
      assert forall k :: 0 <= k < |a| ==> u[k] == a[k];
      assert j == |a| && w != [] ==> u[j] == w[0];
      if IsWord(u, i, j) {
        forall k | i <= k < j ensures IsIdentChar(a[k]) { assert a[k] == u[k]; }
      }
    }
  }

  /** Words of `b` are the words of `v + b` that start in `b`, if `v` ends off a word. */
  lemma WordOnRight(v: string, b: string, i: int, j: int, words: seq<string>)
    requires v == [] || !IsIdentChar(v[|v| - 1])
    requires 0 <= i
    ensures WordAt(b, i, j, words) <==> WordAt(v + b, i + |v|, j + |v|, words)
  {
    var u := v + b;
    if i < j <= |b| {
      assert u[i + |v|..j + |v|] == b[i..j];
      assert forall k :: 0 <= k < |b| ==> u[k + |v|] == b[k];
      if IsWord(u, i + |v|, j + |v|) {
        forall k | i <= k < j ensures IsIdentChar(b[k]) { assert b[k] == u[k + |v|]; }
      }
    }
  }

  /** Across a character that is no identifier character, no word extends. */
  lemma WordOfEither(a: string, c: char, b: string, words: seq<string>)
    requires !('a' <= c <= 'z' || 'A' <= c <= 'Z' || '0' <= c <= '9' || c == '_')
    ensures HasWord(a + [c] + b, words) <==> HasWord(a, words) || HasWord(b, words)
  {
    var v := a + [c];
    var u := v + b;
    assert u == a + ([c] + b) && u[|a|] == c;
    if HasWord(u, words) {
      var i, j :| WordAt(u, i, j, words);
      assert j <= |a| || i > |a|;
      if j <= |a| {
        WordOnLeft(a, [c] + b, i, j, words);
      } else {
        WordOnRight(v, b, i - |v|, j - |v|, words);
      }
    }
    if HasWord(a, words) {
      var i, j :| WordAt(a, i, j, words);
      WordOnLeft(a, [c] + b, i, j, words);
    }
    if HasWord(b, words) {
      var i, j :| WordAt(b, i, j, words);
      WordOnRight(v, b, i, j, words);
    }
  }

  /** A batch needs write access exactly when one of its statements does, provided the first
      ends in code (not inside a comment, literal or quoted identifier). */
  lemma BatchNeedsWrite(a: string, b: string)
    requires CodeAt(a + [';'], |a|)
    ensures NeedsWrite(a + ([';'] + b)) <==> NeedsWrite(a) || NeedsWrite(b)
  {
    StripBatch(a, b);
    var x, y := Strip(a), Strip(b);
    assert Upper(x + ([';'] + y)) == Upper(x) + [';'] + Upper(y);
    WordOfEither(Upper(x), ';', Upper(y), MUTATING_KEYWORDS);
  }

  lemma StripBatch(a: string, b: string)
    requires CodeAt(a + [';'], |a|)
    ensures Strip(a + ([';'] + b)) == Strip(a) + ([';'] + Strip(b))
  {
    StripAround(a, ';', b);
    StripHead([';'] + b);
    assert ([';'] + b)[1..] == b;
  }
}
