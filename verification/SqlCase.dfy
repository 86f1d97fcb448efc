/**
 Case does not matter: texts that differ only in the case of letters are stripped, routed and
 classified alike. And which words are keywords.
 */
module SqlCase {
  import opened SqlText
  import opened SqlBatch
  import opened SqlRouting

  /** The same character, or a letter in the other case. */
  predicate SameChar(c: char, d: char) {
    || c == d
    || ('a' <= c <= 'z' && d as int == c as int - 32)
    || ('a' <= d <= 'z' && c as int == d as int - 32)
  }

  predicate SameText(a: string, b: string) {
    |a| == |b| && forall i :: 0 <= i < |a| ==> SameChar(a[i], b[i])
  }

  lemma SameTail(a: string, b: string, n: nat)
    requires SameText(a, b) && n <= |a|
    ensures SameText(a[n..], b[n..]) && SameText(a[..n], b[..n])
  {
  }

  // ----- tokens

  lemma {:induction false} SameEol(a: string, b: string)
    requires SameText(a, b)
    ensures ToEol(a) == ToEol(b)
  {
    if a != [] && a[0] != '\n' {
      SameTail(a, b, 1);
      SameEol(a[1..], b[1..]);
    }
  }

  lemma {:induction false} SameBlockEnd(a: string, b: string)
    requires SameText(a, b)
    ensures ToBlockEnd(a) == ToBlockEnd(b)
  {
    if a != [] && !(|a| >= 2 && a[0] == '*' && a[1] == '/') {
      SameTail(a, b, 1);
      SameBlockEnd(a[1..], b[1..]);
    }
  }

  lemma {:induction false} SameQuoteEnd(a: string, b: string, q: char)
    requires SameText(a, b) && IsQuote(q)
    ensures ToQuoteEnd(a, q) == ToQuoteEnd(b, q)
    decreases |a|
  {
    if a != [] {
      if a[0] != q {
        SameTail(a, b, 1);
        SameQuoteEnd(a[1..], b[1..], q);
      } else if |a| >= 2 && a[1] == q {
        SameTail(a, b, 2);
        SameQuoteEnd(a[2..], b[2..], q);
      }
    }
  }

  lemma {:induction false} SameBracketEnd(a: string, b: string)
    requires SameText(a, b)
    ensures ToBracketEnd(a) == ToBracketEnd(b)
  {
    if a != [] && a[0] != ']' {
      SameTail(a, b, 1);
      SameBracketEnd(a[1..], b[1..]);
    }
  }

  lemma SameToken(a: string, b: string)
    requires SameText(a, b) && a != []
    ensures TokenLen(a) == TokenLen(b) && SameChar(TokenOut(a), TokenOut(b))
  {
    SameTail(a, b, 1);
    if |a| >= 2 { SameTail(a, b, 2); }
    if StartsWith2(a, '-', '-') { SameEol(a[2..], b[2..]); }
    else if StartsWith2(a, '/', '*') { SameBlockEnd(a[2..], b[2..]); }
    else if IsQuote(a[0]) { SameQuoteEnd(a[1..], b[1..], a[0]); }
    else if a[0] == '[' { SameBracketEnd(a[1..], b[1..]); }
  }

  lemma {:induction false} SameStrip(a: string, b: string)
    requires SameText(a, b)
    ensures SameText(Strip(a), Strip(b))
    decreases |a|
  {
    if a != [] {
      SameToken(a, b);
      var n := TokenLen(a);
      SameTail(a, b, n);
      SameStrip(a[n..], b[n..]);
      StripHead(a);
      StripHead(b);
      OneMore(TokenOut(a), Strip(a[n..]), TokenOut(b), Strip(b[n..]));
    }
  }

  lemma OneMore(c: char, s: string, d: char, t: string)
    requires SameChar(c, d) && SameText(s, t)
    ensures SameText([c] + s, [d] + t)
  {
  }

  /** Upper case forgets the case of letters, and nothing else. */
  lemma UpperIff(a: string, b: string)
    ensures Upper(a) == Upper(b) <==> SameText(a, b)
  {
    if Upper(a) == Upper(b) {
      forall i | 0 <= i < |a| ensures SameChar(a[i], b[i]) {
        assert Upper(a)[i] == Upper(b)[i];
      }
    }
  }

  /** Permission does not depend on the case of letters. */
  lemma PermissionIgnoresCase(a: string, b: string)
    requires SameText(a, b)
    ensures NeedsWrite(a) <==> NeedsWrite(b)
  {
    SameStrip(a, b);
    UpperIff(Strip(a), Strip(b));
  }

  lemma {:induction false} SameLeading(a: string, b: string)
    requires SameText(a, b)
    ensures LeadingSpaces(a) == LeadingSpaces(b)
  {
    if a != [] && IsSpace(a[0]) {
      SameTail(a, b, 1);
      SameLeading(a[1..], b[1..]);
    }
  }

  lemma {:induction false} SameTrailing(a: string, b: string)
    requires SameText(a, b)
    ensures TrimmedLength(a) == TrimmedLength(b)
  {
    if a != [] && IsSpace(a[|a| - 1]) {
      SameTail(a, b, |a| - 1);
      SameTrailing(a[..|a| - 1], b[..|b| - 1]);
    }
  }

  lemma SameTrim(a: string, b: string)
    requires SameText(a, b)
    ensures SameText(TrimSpace(a), TrimSpace(b))
  {
    SameLeading(a, b);
    var n := LeadingSpaces(a);
    SameTail(a, b, n);
    SameTrailing(a[n..], b[n..]);
    SameTail(a[n..], b[n..], TrimmedLength(a[n..]));
  }

  lemma SameRoutedText(a: string, b: string)
    requires SameText(a, b)
    ensures RoutedText(a) == RoutedText(b)
  {
    SameStrip(a, b);
    SameTrim(Strip(a), Strip(b));
    UpperIff(TrimSpace(Strip(a)), TrimSpace(Strip(b)));
  }

  /** Nor does routing. */
  lemma RoutingIgnoresCase(a: string, b: string)
    requires SameText(a, b)
    ensures IsWriteQuery(a) <==> IsWriteQuery(b)
  {
    SameRoutedText(a, b);
  }

  // ----- which words

  lemma TheKeywords()
    ensures WRITE_KEYWORDS == ["INSERT", "UPDATE", "DELETE", "CREATE", "DROP", "ALTER", "TRUNCATE", "MERGE"]
    ensures PROCEDURE_KEYWORDS == ["EXEC", "EXECUTE", "CALL"]
  {
  }

  /** A statement that is a single word needs write access exactly if it is one of the eleven. */
  lemma WordNeedsWriteIff(w: string)
    requires w != [] && forall i :: 0 <= i < |w| ==>
      'a' <= w[i] <= 'z' || 'A' <= w[i] <= 'Z' || '0' <= w[i] <= '9' || w[i] == '_'
    ensures NeedsWrite(w) <==> exists kw :: kw in WRITE_KEYWORDS + PROCEDURE_KEYWORDS && SameText(w, kw)
  {
    PlainIsClean(w);
    CleanIsKept(w);
    IdentTextIsOneWord(Upper(w), MUTATING_KEYWORDS);
    forall kw | kw in MUTATING_KEYWORDS ensures Upper(kw) == kw {
      KeywordIsUpper(kw);
    }
    forall kw | kw in MUTATING_KEYWORDS ensures SameText(w, kw) <==> Upper(w) == kw {
      UpperIff(w, kw);
    }
  }

  /** And it is routed as a write exactly if it is one of the first eight. */
  lemma WordRoutesIff(w: string)
    requires w != [] && forall i :: 0 <= i < |w| ==>
      'a' <= w[i] <= 'z' || 'A' <= w[i] <= 'Z' || '0' <= w[i] <= '9' || w[i] == '_'
    ensures IsWriteQuery(w) <==> exists kw :: kw in WRITE_KEYWORDS && SameText(w, kw)
  {
    RoutedWord(w);
    WordAlone(Upper(w));
    forall kw | kw in WRITE_KEYWORDS ensures SameText(w, kw) <==> Upper(w) == kw {
      assert kw in MUTATING_KEYWORDS;
      KeywordIsUpper(kw);
      UpperIff(w, kw);
    }
  }

  lemma RoutedWord(w: string)
    requires w != [] && Plain(w)
    ensures RoutedText(w) == Upper(w)
  {
    PlainIsClean(w);
    CleanIsKept(w);
    TrimNothing(w);
  }

  lemma WordAlone(u: string)
    requires u != [] && Plain(u)
    ensures RoutesAsWrite(u) <==> u in WRITE_KEYWORDS
  {
    FieldIs(u, u);
    assert |u| > 4 ==> u[4] != "WITH "[4];
  }
}
