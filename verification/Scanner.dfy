/**
 A scanner that consumes its text token by token and writes one character per token: the shape
 of the main loop that strips SQL text. What holds of it for any way of measuring tokens is
 proved here.
 */
module Scanner {

  /** How long the token at the head of a text is, and the character written for it. */
  datatype Lexer = Lexer(len: string -> nat, out: string -> char)

  ghost predicate Advances(lex: Lexer) {
    forall s :: s != [] ==> 1 <= lex.len(s) <= |s|
  }

  /** A token that fits in `a`, or ends before `a` does, is the same token when more text
      follows: there is at most one character of lookahead. */
  ghost predicate LooksOneAhead(lex: Lexer) {
    forall a, b {:trigger lex.len(a + b)} ::
      a != [] && (lex.len(a + b) <= |a| || lex.len(a) < |a|) ==>
        lex.len(a) == lex.len(a + b) && lex.out(a) == lex.out(a + b)
  }

  ghost function Scan(lex: Lexer, s: string): string
    requires Advances(lex)
    decreases |s|
  {
    if s == [] then [] else [lex.out(s)] + Scan(lex, s[lex.len(s)..])
  }

  /** The loop, run on `s`, comes to stand at position `p`. */
  ghost predicate Reaches(lex: Lexer, s: string, p: nat)
    requires Advances(lex)
    decreases |s|
  {
    p == 0 || (s != [] && lex.len(s) <= p && Reaches(lex, s[lex.len(s)..], p - lex.len(s)))
  }

  /** Scanning distributes over any cut at which the loop stands. */
  lemma {:induction false} ScanSplits(lex: Lexer, a: string, b: string)
    requires Advances(lex) && LooksOneAhead(lex) && Reaches(lex, a + b, |a|)
    ensures Scan(lex, a + b) == Scan(lex, a) + Scan(lex, b)
    decreases |a|
  {
    if a == [] {
      assert a + b == b;
    } else {
      var n := lex.len(a + b);
      assert (a + b)[n..] == a[n..] + b;
      ScanSplits(lex, a[n..], b);
    }
  }

  /** Whether the loop stands at the end of `a` depends on `a` and the next character only. */
  lemma {:induction false} ReachesByNextChar(lex: Lexer, a: string, c: char, rest: string)
    requires Advances(lex) && LooksOneAhead(lex)
    ensures Reaches(lex, a + [c], |a|) <==> Reaches(lex, a + ([c] + rest), |a|)
    decreases |a|
  {
    if a != [] {
      var short, long := a + [c], a + ([c] + rest);
      assert short + rest == long;
      var n := lex.len(long);
      if n <= |a| {
        assert short[n..] == a[n..] + [c] && long[n..] == a[n..] + ([c] + rest);
        ReachesByNextChar(lex, a[n..], c, rest);
      }
    }
  }

  /** So a text is scanned apart from whatever precedes it, once the loop stands at its head. */
  lemma ScanAround(lex: Lexer, before: string, c: char, tail: string)
    requires Advances(lex) && LooksOneAhead(lex) && Reaches(lex, before + [c], |before|)
    ensures Scan(lex, before + ([c] + tail)) == Scan(lex, before) + Scan(lex, [c] + tail)
  {
    ReachesByNextChar(lex, before, c, tail);
    ScanSplits(lex, before, [c] + tail);
  }

  /** Where the loop does not stand, a token it began earlier runs past. */
  lemma {:induction false} TokenRunsPast(lex: Lexer, s: string, n: nat) returns (p: nat)
    requires Advances(lex) && n <= |s| && !Reaches(lex, s, n)
    ensures p < n && Reaches(lex, s, p) && p + lex.len(s[p..]) > n
    decreases |s|
  {
    var k := lex.len(s);
    if k > n {
      p := 0;
      assert s[0..] == s;
    } else {
      p := TokenRunsPast(lex, s[k..], n - k);
      assert s[k..][p..] == s[p + k..];
      p := p + k;
    }
  }

  /** If the loop does not stand after `a`, then `a` ends in a token that takes in `c` as well. */
  lemma RunningToken(lex: Lexer, a: string, c: char) returns (before: string, token: string)
    requires Advances(lex) && LooksOneAhead(lex) && !Reaches(lex, a + [c], |a|)
    ensures a == before + token && token != [] && lex.len(token + [c]) == |token| + 1
    ensures Reaches(lex, before + [token[0]], |before|)
  {
    var s := a + [c];
    var p := TokenRunsPast(lex, s, |a|);
    before, token := a[..p], a[p..];
    assert s[p..] == token + [c];
    assert s == before + ([token[0]] + s[p + 1..]);
    ReachesByNextChar(lex, before, token[0], s[p + 1..]);
  }
}
