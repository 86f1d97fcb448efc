/**
 Write classification of a batch: exactly when the answer for `a;b` is the disjunction of the
 answers for `a` and `b`.
 */
module SqlBatch {
  import opened Scanner
  import opened SqlText

  // ----- an unclosed token swallows what follows

  /** Text that closes no comment, literal or quoted identifier. */
  predicate Plain(t: string) {
    forall k :: 0 <= k < |t| ==> IsIdentChar(t[k])
  }

  predicate EndsInSeparator(s: string) {
    s != [] && s[|s| - 1] == ';'
  }

  lemma {:induction false} EolRuns(s: string, t: string)
    requires ToEol(s) == |s| && Plain(t)
    ensures ToEol(s + t) == |s + t|
  {
    if s != [] {
      assert (s + t)[1..] == s[1..] + t;
      EolRuns(s[1..], t);
    } else if t != [] {
      assert s + t == t && t[1..] == [] + t[1..];
      EolRuns([], t[1..]);
    }
  }

  lemma {:induction false} PlainQuoteRuns(t: string, q: char)
    requires IsQuote(q) && Plain(t)
    ensures ToQuoteEnd(t, q) == |t|
  {
    if t != [] {
      PlainQuoteRuns(t[1..], q);
    }
  }

  /** An unclosed literal that starts with a quote starts with two. */
  lemma UnclosedDoubles(s: string, q: char)
    requires IsQuote(q) && EndsInSeparator(s) && s[0] == q && ToQuoteEnd(s, q) == |s|
    ensures |s| > 2 && s[1] == q && ToQuoteEnd(s[2..], q) == |s| - 2 && EndsInSeparator(s[2..])
  {
  }

  lemma {:induction false} QuoteRuns(s: string, q: char, t: string)
    requires IsQuote(q) && ToQuoteEnd(s, q) == |s| && Plain(t)
    requires s == [] || EndsInSeparator(s)
    ensures ToQuoteEnd(s + t, q) == |s + t|
    decreases |s|
  {
    if s == [] {
      assert s + t == t;
      PlainQuoteRuns(t, q);
    } else if s[0] != q {
      assert (s + t)[1..] == s[1..] + t;
      QuoteRuns(s[1..], q, t);
    } else {
      UnclosedDoubles(s, q);
      assert (s + t)[2..] == s[2..] + t;
      QuoteRuns(s[2..], q, t);
    }
  }

  lemma {:induction false} BlockRuns(s: string, t: string)
    requires ToBlockEnd(s) == |s| && Plain(t)
    requires s == [] || EndsInSeparator(s)
    ensures ToBlockEnd(s + t) == |s + t|
    decreases |s|, |t|
  {
    if s != [] {
      assert (s + t)[1..] == s[1..] + t;
      BlockRuns(s[1..], t);
    } else if t != [] {
      assert s + t == t && t[1..] == [] + t[1..];
      BlockRuns([], t[1..]);
    }
  }

  lemma {:induction false} BracketRuns(s: string, t: string)
    requires ToBracketEnd(s) == |s| && Plain(t)
    requires s == [] || EndsInSeparator(s)
    ensures ToBracketEnd(s + t) == |s + t|
    decreases |s|, |t|
  {
    if s != [] {
      assert (s + t)[1..] == s[1..] + t;
      BracketRuns(s[1..], t);
    } else if t != [] {
      assert s + t == t && t[1..] == [] + t[1..];
      BracketRuns([], t[1..]);
    }
  }

  /** A token that has swallowed the separator swallows plain text after it too. */
  lemma TokenRuns(s: string, t: string)
    requires |s| >= 2 && EndsInSeparator(s) && TokenLen(s) == |s| && Plain(t)
    ensures TokenLen(s + t) == |s + t|
  {
    var u := s + t;
    assert u[1..] == s[1..] + t && u[2..] == s[2..] + t;
    if StartsWith2(s, '-', '-') { EolRuns(s[2..], t); }
    else if StartsWith2(s, '/', '*') { BlockRuns(s[2..], t); }
    else if IsQuote(s[0]) { QuoteRuns(s[1..], s[0], t); }
    else if s[0] == '[' { BracketRuns(s[1..], t); }
  }

  // ----- the swallowing token

  /** The first statement cut before the token that swallows the separator. */
  lemma Swallower(a: string) returns (before: string, token: string)
    requires !CodeAt(a + [';'], |a|)
    ensures a == before + token && token != [] && Opens(token)
    ensures TokenLen(token + [';']) == |token| + 1 && TokenLen(token) == |token|
    ensures CodeAt(before + [token[0]], |before|)
  {
    SqlLooksOneAhead();
    before, token := RunningToken(SQL, a, ';');
    TokenBeforeSeparator(token);
  }

  /** It was open before the separator already. */
  lemma TokenBeforeSeparator(token: string)
    requires token != [] && TokenLen(token + [';']) == |token| + 1
    ensures Opens(token) && TokenLen(token) == |token|
  {
    var long := token + [';'];
    assert long[..|token|] == token;
    if TokenLen(token) < |token| {
      TokenOfPrefix(long, |token|);
    }
  }

  lemma OneToken(s: string)
    requires s != [] && Opens(s) && TokenLen(s) == |s|
    ensures Strip(s) == [' ']
  {
    StripHead(s);
    assert s[|s|..] == [];
  }

  /** From the swallowing token on, the text is stripped by itself. */
  lemma StripFrom(before: string, s: string)
    requires s != [] && CodeAt(before + [s[0]], |before|)
    ensures Strip(before + s) == Strip(before) + Strip(s)
  {
    assert s == [s[0]] + s[1..];
    StripAround(before, s[0], s[1..]);
  }

  /** A plain second statement disappears. */
  lemma PlainStatementSwallowed(a: string, b: string)
    requires !CodeAt(a + [';'], |a|) && Plain(b)
    ensures Strip(a + ([';'] + b)) == Strip(a)
  {
    var before, token := Swallower(a);
    var s := token + [';'];
    TokenRuns(s, b);
    assert a + ([';'] + b) == before + (s + b);
    StripFrom(before, s + b);
    StripFrom(before, token);
    OneToken(s + b);
    OneToken(token);
  }

  /** What the first statement says before the swallowing token is still said in the batch. */
  lemma FirstStatementStays(a: string, b: string)
    requires !CodeAt(a + [';'], |a|) && NeedsWrite(a)
    ensures NeedsWrite(a + ([';'] + b))
  {
    var before, token := Swallower(a);
    var s := token + ([';'] + b);
    assert a + ([';'] + b) == before + s;
    StripFrom(before, s);
    StripFrom(before, token);
    OneToken(token);
    assert Opens(s);
    StripHead(s);
    UpperAround(Strip(before), []);
    UpperAround(Strip(before), Strip(s)[1..]);
    assert Strip(s) == [' '] + Strip(s)[1..];
    assert [' '] + [] == [' '];
  }

  lemma UpperAround(x: string, y: string)
    ensures HasWord(Upper(x + ([' '] + y)), MUTATING_KEYWORDS) <==>
      HasWord(Upper(x), MUTATING_KEYWORDS) || HasWord(Upper(y), MUTATING_KEYWORDS)
    ensures !HasWord(Upper([]), MUTATING_KEYWORDS)
  {
    assert Upper(x + ([' '] + y)) == Upper(x) + [' '] + Upper(y);
    WordOfEither(Upper(x), ' ', Upper(y), MUTATING_KEYWORDS);
  }

  lemma {:induction false} PlainIsClean(t: string)
    requires Plain(t)
    ensures Clean(t)
  {
    if t != [] {
      PlainIsClean(t[1..]);
    }
  }

  /** A mutating keyword alone is a statement that needs write access. */
  lemma KeywordNeedsWrite(w: string)
    requires w in ["INSERT", "UPDATE", "DELETE", "CREATE", "DROP", "ALTER", "TRUNCATE", "MERGE",
                   "EXEC", "EXECUTE", "CALL"]
    ensures NeedsWrite(w)
  {
    assert w in MUTATING_KEYWORDS;
    KeywordAlone(w);
  }

  lemma KeywordAlone(w: string)
    requires w in MUTATING_KEYWORDS
    ensures NeedsWrite(w)
  {
    KeywordIsUpper(w);
    PlainIsClean(w);
    CleanIsKept(w);
    assert w[0..|w|] == w;
    assert WordAt(w, 0, |w|, MUTATING_KEYWORDS);
  }

  lemma KeywordIsUpper(w: string)
    requires w in MUTATING_KEYWORDS
    ensures w != [] && Plain(w) && Upper(w) == w
  {
    assert forall i :: 0 <= i < |w| ==> 'A' <= w[i] <= 'Z';
  }

  /** For a given first statement, the answer for every batch that starts with it is the
      disjunction exactly when it ends in code or needs write access already. */
  lemma BatchDistributesIff(a: string)
    ensures (forall b :: NeedsWrite(a + ([';'] + b)) <==> NeedsWrite(a) || NeedsWrite(b)) <==>
      CodeAt(a + [';'], |a|) || NeedsWrite(a)
  {
    if CodeAt(a + [';'], |a|) {
      forall b ensures NeedsWrite(a + ([';'] + b)) <==> NeedsWrite(a) || NeedsWrite(b) {
        BatchNeedsWrite(a, b);
      }
    } else if NeedsWrite(a) {
      forall b ensures NeedsWrite(a + ([';'] + b)) {
        FirstStatementStays(a, b);
      }
    } else {
      var b := MUTATING_KEYWORDS[4];
      PlainStatementSwallowed(a, b);
      KeywordAlone(b);
    }
  }
}
