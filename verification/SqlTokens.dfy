/**
 What each token of SQL text strips to, in terms of its characters: a comment, a literal or a
 quoted identifier is one space whatever it holds, and any other character stays.
 */
module SqlTokens {
  import opened SqlText

  // ----- line comments

  lemma {:induction false} EolAfter(body: string, after: string)
    requires '\n' !in body && (after == [] || after[0] == '\n')
    ensures ToEol(body + after) == |body|
  {
    if body == [] {
      assert body + after == after;
    } else {
      assert (body + after)[1..] == body[1..] + after;
      EolAfter(body[1..], after);
    }
  }

  lemma LineCommentToken(body: string, after: string)
    requires '\n' !in body && (after == [] || after[0] == '\n')
    ensures Strip(['-'] + (['-'] + (body + after))) == [' '] + Strip(after)
  {
    var s := ['-'] + (['-'] + (body + after));
    EolAfter(body, after);
    assert s[2..] == body + after;
    assert s[TokenLen(s)..] == after;
    StripHead(s);
  }

  /** A line comment is one space and ends before the end of its line. */
  lemma LineCommentIsInvisible(before: string, body: string, after: string)
    requires CodeAt(before + ['-'], |before|)
    requires '\n' !in body && (after == [] || after[0] == '\n')
    ensures Strip(before + (['-'] + (['-'] + (body + after)))) == Strip(before) + ([' '] + Strip(after))
  {
    StripAround(before, '-', ['-'] + (body + after));
    LineCommentToken(body, after);
  }

  // ----- block comments

  /** The text does not end a block comment. */
  predicate NoBlockEnd(body: string) {
    forall i :: 0 <= i < |body| - 1 ==> !(body[i] == '*' && body[i + 1] == '/')
  }

  lemma {:induction false} BlockEndAfter(body: string, after: string)
    requires NoBlockEnd(body)
    ensures ToBlockEnd(body + (['*', '/'] + after)) == |body| + 2
  {
    var end := ['*', '/'] + after;
    if body == [] {
      assert body + end == end;
    } else {
      assert (body + end)[1..] == body[1..] + end;
      BlockEndAfter(body[1..], after);
    }
  }

  lemma {:induction false} NoBlockEndRunsOut(body: string)
    requires NoBlockEnd(body)
    ensures ToBlockEnd(body) == |body|
  {
    if body != [] {
      NoBlockEndRunsOut(body[1..]);
    }
  }

  lemma BlockCommentToken(body: string, after: string)
    requires NoBlockEnd(body)
    ensures Strip(['/'] + (['*'] + (body + (['*', '/'] + after)))) == [' '] + Strip(after)
    ensures Strip(['/'] + (['*'] + body)) == [' ']
  {
    var s, open := ['/'] + (['*'] + (body + (['*', '/'] + after))), ['/'] + (['*'] + body);
    BlockEndAfter(body, after);
    assert s[2..] == body + (['*', '/'] + after);
    assert s[TokenLen(s)..] == after;
    StripHead(s);
    NoBlockEndRunsOut(body);
    assert open[2..] == body;
    assert open[TokenLen(open)..] == [];
    StripHead(open);
  }

  /** A block comment is one space and ends behind its first terminator, or with the text. */
  lemma BlockCommentIsInvisible(before: string, body: string, after: string)
    requires CodeAt(before + ['/'], |before|) && NoBlockEnd(body)
    ensures Strip(before + (['/'] + (['*'] + (body + (['*', '/'] + after))))) == Strip(before) + ([' '] + Strip(after))
    ensures Strip(before + (['/'] + (['*'] + body))) == Strip(before) + [' ']
  {
    StripAround(before, '/', ['*'] + (body + (['*', '/'] + after)));
    StripAround(before, '/', ['*'] + body);
    BlockCommentToken(body, after);
  }

  // ----- brackets

  lemma {:induction false} BracketEndAfter(body: string, after: string)
    requires ']' !in body
    ensures ToBracketEnd(body + ([']'] + after)) == |body| + 1 && ToBracketEnd(body) == |body|
  {
    var end := [']'] + after;
    if body == [] {
      assert body + end == end;
    } else {
      assert (body + end)[1..] == body[1..] + end;
      BracketEndAfter(body[1..], after);
    }
  }

  lemma BracketToken(body: string, after: string)
    requires ']' !in body
    ensures Strip(['['] + (body + ([']'] + after))) == [' '] + Strip(after)
    ensures Strip(['['] + body) == [' ']
  {
    var s, open := ['['] + (body + ([']'] + after)), ['['] + body;
    BracketEndAfter(body, after);
    assert s[1..] == body + ([']'] + after);
    assert s[TokenLen(s)..] == after;
    StripHead(s);
    assert open[1..] == body;
    assert open[TokenLen(open)..] == [];
    StripHead(open);
  }

  /** A bracketed identifier is one space and ends behind the first closing bracket, or with the
      text. */
  lemma BracketIsInvisible(before: string, body: string, after: string)
    requires CodeAt(before + ['['], |before|) && ']' !in body
    ensures Strip(before + (['['] + (body + ([']'] + after)))) == Strip(before) + ([' '] + Strip(after))
    ensures Strip(before + (['['] + body)) == Strip(before) + [' ']
  {
    StripAround(before, '[', body + ([']'] + after));
    StripAround(before, '[', body);
    BracketToken(body, after);
  }

  // ----- literals without an end

  lemma {:induction false} DoubledRunsOut(body: string, q: char)
    ensures ToQuoteEnd(Doubled(body, q), q) == |Doubled(body, q)|
  {
    if body != [] {
      DoubledRunsOut(body[1..], q);
      var d, s := Doubled(body[1..], q), Doubled(body, q);
      if body[0] == q {
        assert s[2..] == d;
      } else {
        assert s[1..] == d;
      }
    }
  }

  /** A literal without its closing quote takes the rest of the text. */
  lemma OpenLiteralRunsOut(before: string, q: char, body: string)
    requires q == '\'' || q == '"' || q == '`'
    requires CodeAt(before + [q], |before|)
    ensures Strip(before + ([q] + Doubled(body, q))) == Strip(before) + [' ']
  {
    var s := [q] + Doubled(body, q);
    StripAround(before, q, Doubled(body, q));
    DoubledRunsOut(body, q);
    assert s[1..] == Doubled(body, q);
    assert s[TokenLen(s)..] == [];
    StripHead(s);
  }

  // ----- everything else

  /** Any other character stays: it is no quote or opening bracket, and does not begin a comment. */
  lemma CodeStays(before: string, c: char, after: string)
    requires CodeAt(before + [c], |before|)
    requires c != '\'' && c != '"' && c != '`' && c != '['
    requires c == '-' ==> after == [] || after[0] != '-'
    requires c == '/' ==> after == [] || after[0] != '*'
    ensures Strip(before + ([c] + after)) == Strip(before) + ([c] + Strip(after))
  {
    var s := [c] + after;
    StripAround(before, c, after);
    assert s[1..] == after;
    StripHead(s);
  }

  /** The clean texts, to which every text strips: no quote and no opening bracket in them, and
      no two characters that begin a comment. */
  lemma {:induction false} CleanIff(s: string)
    ensures Clean(s) <==>
      && '\'' !in s && '"' !in s && '`' !in s && '[' !in s
      && (forall i :: 0 <= i < |s| - 1 ==> !(s[i] == '-' && s[i + 1] == '-') && !(s[i] == '/' && s[i + 1] == '*'))
  {
    if s != [] {
      CleanIff(s[1..]);
      CharsOfTail(s);
    }
  }

  predicate Begins(s: string, i: nat) {
    i < |s| - 1 && ((s[i] == '-' && s[i + 1] == '-') || (s[i] == '/' && s[i + 1] == '*'))
  }

  lemma CharsOfTail(s: string)
    requires s != []
    ensures forall c :: c in s <==> c == s[0] || c in s[1..]
    ensures forall i: nat :: Begins(s, i + 1) <==> Begins(s[1..], i)
  {
    assert s == [s[0]] + s[1..];
  }
}
