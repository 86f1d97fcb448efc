/**
 Public IDs: XTEA (Needham and Wheeler, "Tea extensions", 1997, 32 cycles) over the two halves
 of a 64-bit id, then fixed-width base62, then a namespace prefix. Words are naturals below
 2^32 with the wrap-around written out; shifts and exclusive or are done on `bv32`.
 */
module PublicId {

  const TWO_32: nat := 0x1_0000_0000
  const TWO_63: nat := 0x8000_0000_0000_0000
  const TWO_64: nat := 0x1_0000_0000_0000_0000

  type Word = x: nat | x < TWO_32
  type Uint64 = x: nat | x < TWO_64
  type Int64 = x: int | -(TWO_63 as int) <= x < TWO_63

  // ----- XTEA

  datatype Key = Key(k0: Word, k1: Word, k2: Word, k3: Word)

  /** The parts of XTEA that its invertibility does not depend on: the number of cycles, the
      mixing term of a half cycle, the constant added to the running sum, and the key. */
  datatype Cipher = Cipher(cycles: nat, mix: (Word, Word) -> Word, delta: Word, key: Key)

  /** XTEA: 32 cycles, mixing term `(((v << 4) ^ (v >> 5)) + v) ^ k`. */
  function Xtea(key: Key): Cipher {
    Cipher(32, (v: Word, k: Word) => MixWords(v, k), 0x9E3779B9, key)
  }

  function MixWords(v: Word, k: Word): Word {
    FromBits(MixBits(v as bv32, k as bv32))
  }

  function MixBits(v: bv32, k: bv32): bv32 {
    (((v << 4) ^ (v >> 5)) + v) ^ k
  }

  function FromBits(b: bv32): Word {
    b as nat
  }

  function KeyWord(key: Key, i: nat): Word {
    match i % 4 case 0 => key.k0 case 1 => key.k1 case 2 => key.k2 case _ => key.k3
  }

  function Add(a: Word, b: Word): Word {
    (a + b) % TWO_32
  }

  function Sub(a: Word, b: Word): Word {
    (a + TWO_32 - b) % TWO_32
  }

  lemma AddSub(a: Word, b: Word)
    ensures Sub(Add(a, b), b) == a
    ensures Add(Sub(a, b), b) == a
  {
  }

  datatype Block = Block(v0: Word, v1: Word, sum: Word)

  /** What a half cycle adds to one half: the mix of the other with the sum and a key word. */
  function Term(c: Cipher, v: Word, sum: Word, i: nat): Word {
    c.mix(v, Add(sum, KeyWord(c.key, i)))
  }

  function EncryptCycle(b: Block, c: Cipher): Block {
    var v0 := Add(b.v0, Term(c, b.v1, b.sum, b.sum));
    var sum := Add(b.sum, c.delta);
    Block(v0, Add(b.v1, Term(c, v0, sum, sum / 2048)), sum)
  }

  function DecryptCycle(b: Block, c: Cipher): Block {
    var v1 := Sub(b.v1, Term(c, b.v0, b.sum, b.sum / 2048));
    var sum := Sub(b.sum, c.delta);
    Block(Sub(b.v0, Term(c, v1, sum, sum)), v1, sum)
  }

  /** A cycle is undone half by half, with the same running sum. */
  lemma CycleUndone(b: Block, c: Cipher)
    ensures DecryptCycle(EncryptCycle(b, c), c) == b
    ensures EncryptCycle(DecryptCycle(b, c), c) == b
  {
    var e, d := EncryptCycle(b, c), DecryptCycle(b, c);
    AddSub(b.sum, c.delta);
    AddSub(b.v0, Term(c, b.v1, b.sum, b.sum));
    AddSub(b.v1, Term(c, e.v0, e.sum, e.sum / 2048));
    AddSub(b.v1, Term(c, b.v0, b.sum, b.sum / 2048));
    AddSub(b.v0, Term(c, d.v1, d.sum, d.sum));
  }

  function EncryptCycles(n: nat, b: Block, c: Cipher): Block {
    if n == 0 then b else EncryptCycle(EncryptCycles(n - 1, b, c), c)
  }

  function DecryptCycles(n: nat, b: Block, c: Cipher): Block {
    if n == 0 then b else DecryptCycles(n - 1, DecryptCycle(b, c), c)
  }

  lemma {:induction false} DecryptUndoesEncrypt(n: nat, b: Block, c: Cipher)
    ensures DecryptCycles(n, EncryptCycles(n, b, c), c) == b
  {
    if n > 0 {
      DecryptUndoesEncrypt(n - 1, b, c);
      CycleUndone(EncryptCycles(n - 1, b, c), c);
    }
  }

  lemma {:induction false} EncryptUndoesDecrypt(n: nat, b: Block, c: Cipher)
    ensures EncryptCycles(n, DecryptCycles(n, b, c), c) == b
  {
    if n > 0 {
      EncryptUndoesDecrypt(n - 1, DecryptCycle(b, c), c);
      CycleUndone(b, c);
    }
  }

  /** The running sum after `n` additions of the constant. */
  function SumAfter(n: nat, c: Cipher): Word {
    if n == 0 then 0 else Add(SumAfter(n - 1, c), c.delta)
  }

  lemma {:induction false} EncryptSum(n: nat, b: Block, c: Cipher)
    requires b.sum == 0
    ensures EncryptCycles(n, b, c).sum == SumAfter(n, c)
  {
    if n > 0 {
      EncryptSum(n - 1, b, c);
    }
  }

  lemma {:induction false} DecryptSum(n: nat, b: Block, c: Cipher)
    requires b.sum == SumAfter(n, c)
    ensures DecryptCycles(n, b, c).sum == 0
  {
    if n > 0 {
      AddSub(SumAfter(n - 1, c), c.delta);
      DecryptSum(n - 1, DecryptCycle(b, c), c);
    }
  }

  function Split(v: Uint64, sum: Word): Block {
    Block(v / TWO_32, v % TWO_32, sum)
  }

  function Join(b: Block): Uint64 {
    b.v0 * TWO_32 + b.v1
  }

  function Encrypt(v: Uint64, c: Cipher): Uint64 {
    Join(EncryptCycles(c.cycles, Split(v, 0), c))
  }

  function Decrypt(v: Uint64, c: Cipher): Uint64 {
    Join(DecryptCycles(c.cycles, Split(v, SumAfter(c.cycles, c)), c))
  }

  lemma SplitJoin(b: Block)
    ensures Split(Join(b), b.sum) == b
  {
  }

  /** Decryption and encryption are inverse permutations of the 64-bit words, for every key,
      number of cycles and mixing term. */
  lemma CipherBijective(v: Uint64, c: Cipher)
    ensures Decrypt(Encrypt(v, c), c) == v
    ensures Encrypt(Decrypt(v, c), c) == v
  {
    var b := Split(v, 0);
    EncryptSum(c.cycles, b, c);
    SplitJoin(EncryptCycles(c.cycles, b, c));
    DecryptUndoesEncrypt(c.cycles, b, c);
    var b' := Split(v, SumAfter(c.cycles, c));
    DecryptSum(c.cycles, b', c);
    SplitJoin(DecryptCycles(c.cycles, b', c));
    EncryptUndoesDecrypt(c.cycles, b', c);
  }

  method EncryptWord(v: Uint64, c: Cipher) returns (r: Uint64)
    ensures r == Encrypt(v, c)
  {
    var v0: Word, v1: Word, sum: Word := v / TWO_32, v % TWO_32, 0;
    for i := 0 to c.cycles
      invariant Block(v0, v1, sum) == EncryptCycles(i, Split(v, 0), c)
    {
      v0 := Add(v0, c.mix(v1, Add(sum, KeyWord(c.key, sum))));
      sum := Add(sum, c.delta);
      v1 := Add(v1, c.mix(v0, Add(sum, KeyWord(c.key, sum / 2048))));
    }
    return v0 * TWO_32 + v1;
  }

  /** The sum that encryption ends with, by letting it overflow the same way. */
  method LastSum(c: Cipher) returns (sum: Word)
    ensures sum == SumAfter(c.cycles, c)
  {
    sum := 0;
    for i := 0 to c.cycles
      invariant sum == SumAfter(i, c)
    {
      sum := Add(sum, c.delta);
    }
  }

  method DecryptOne(v0: Word, v1: Word, sum: Word, c: Cipher) returns (w0: Word, w1: Word, less: Word)
    ensures Block(w0, w1, less) == DecryptCycle(Block(v0, v1, sum), c)
  {
    w1 := Sub(v1, c.mix(v0, Add(sum, KeyWord(c.key, sum / 2048))));
    less := Sub(sum, c.delta);
    w0 := Sub(v0, c.mix(w1, Add(less, KeyWord(c.key, less))));
  }

  method DecryptWord(v: Uint64, c: Cipher) returns (r: Uint64)
    ensures r == Decrypt(v, c)
  {
    var v0: Word, v1: Word := v / TWO_32, v % TWO_32;
    var sum := LastSum(c);
    ghost var all := DecryptCycles(c.cycles, Split(v, sum), c);
    for i := 0 to c.cycles
      invariant DecryptCycles(c.cycles - i, Block(v0, v1, sum), c) == all
    {
      v0, v1, sum := DecryptOne(v0, v1, sum, c);
    }
    return v0 * TWO_32 + v1;
  }

  // ----- which cipher it is

  /** One turn of the standard's recurrence, spelled out for a mixing term. */
  function Turn(b: Block, k: seq<Word>, mix: (Word, Word) -> Word): Block
    requires |k| == 4
  {
    var w0 := (b.v0 + mix(b.v1, (b.sum + k[b.sum % 4]) % 0x1_0000_0000)) % 0x1_0000_0000;
    var sum := (b.sum + 0x9E3779B9) % 0x1_0000_0000;
    var w1 := (b.v1 + mix(w0, (sum + k[sum / 2048 % 4]) % 0x1_0000_0000)) % 0x1_0000_0000;
    Block(w0, w1, sum)
  }

  function Turns(n: nat, b: Block, k: seq<Word>, mix: (Word, Word) -> Word): Block
    requires |k| == 4
  {
    if n == 0 then b else Turn(Turns(n - 1, b, k, mix), k, mix)
  }

  /** XTEA's mixing term, on numbers and on the words that stand for them. */
  lemma MixOfCipher(key: Key, v: Word, k: Word)
    ensures Xtea(key).mix(v, k) == MixWords(v, k)
  {
  }

  lemma MixOfWords(v: Word, k: Word)
    ensures MixWords(v, k) == MixBits(v as bv32, k as bv32) as nat
  {
  }

  lemma MixOfBits(w: bv32, x: bv32)
    ensures MixBits(w, x) == (((w << 4) ^ (w >> 5)) + w) ^ x && FromBits(w) == w as nat
    ensures MixBits(0x45464748, 0x00010203) == 0x9B958C01
  {
  }

  lemma XteaMix(key: Key, v: Word, k: Word)
    ensures var w, x := v as bv32, k as bv32; Xtea(key).mix(v, k) == ((((w << 4) ^ (w >> 5)) + w) ^ x) as nat
  {
    MixOfCipher(key, v, k);
    MixOfWords(v, k);
    MixOfBits(v as bv32, k as bv32);
  }

  lemma SelectedWord(key: Key, k: seq<Word>, i: nat)
    requires |k| == 4 && key == Key(k[0], k[1], k[2], k[3])
    ensures KeyWord(key, i) == k[i % 4]
  {
  }

  lemma TurnIsCycle(b: Block, c: Cipher, k: seq<Word>)
    requires |k| == 4 && c.key == Key(k[0], k[1], k[2], k[3]) && c.delta == 0x9E3779B9
    ensures Turn(b, k, c.mix) == EncryptCycle(b, c)
  {
    var sum := Add(b.sum, c.delta);
    SelectedWord(c.key, k, b.sum);
    SelectedWord(c.key, k, sum / 2048);
  }

  lemma {:induction false} TurnsAreCycles(n: nat, b: Block, c: Cipher, k: seq<Word>)
    requires |k| == 4 && c.key == Key(k[0], k[1], k[2], k[3]) && c.delta == 0x9E3779B9
    ensures Turns(n, b, k, c.mix) == EncryptCycles(n, b, c)
  {
    if n > 0 {
      TurnsAreCycles(n - 1, b, c, k);
      TurnIsCycle(EncryptCycles(n - 1, b, c), c, k);
    }
  }

  lemma EncryptByTurns(v: Uint64, c: Cipher, k: seq<Word>)
    requires |k| == 4 && c.key == Key(k[0], k[1], k[2], k[3]) && c.delta == 0x9E3779B9
    ensures var b := Turns(c.cycles, Block(v / 0x1_0000_0000, v % 0x1_0000_0000, 0), k, c.mix);
      Encrypt(v, c) == b.v0 * 0x1_0000_0000 + b.v1
  {
    TurnsAreCycles(c.cycles, Split(v, 0), c, k);
  }

  lemma {:induction false} SumOfTurns(n: nat, b: Block, k: seq<Word>, mix: (Word, Word) -> Word)
    requires |k| == 4 && b.sum == 0
    ensures Turns(n, b, k, mix).sum == n * 0x9E3779B9 % 0x1_0000_0000
  {
    if n > 0 {
      SumOfTurns(n - 1, b, k, mix);
      SumOfTurn(Turns(n - 1, b, k, mix), k, mix);
      NextSum((n - 1) * 0x9E3779B9);
    }
  }

  lemma SumOfTurn(b: Block, k: seq<Word>, mix: (Word, Word) -> Word)
    requires |k| == 4
    ensures Turn(b, k, mix).sum == (b.sum + 0x9E3779B9) % 0x1_0000_0000
  {
  }

  lemma NextSum(x: nat)
    ensures (x % 0x1_0000_0000 + 0x9E3779B9) % 0x1_0000_0000 == (x + 0x9E3779B9) % 0x1_0000_0000
  {
  }

  /** XTEA is 32 turns of the recurrence from the high half, the low half and a zero sum. */
  lemma EncryptIs32Turns(v: Uint64, k0: Word, k1: Word, k2: Word, k3: Word)
    ensures var c := Xtea(Key(k0, k1, k2, k3));
      var b := Turns(32, Block(v / 0x1_0000_0000, v % 0x1_0000_0000, 0), [k0, k1, k2, k3], c.mix);
      Encrypt(v, c) == b.v0 * 0x1_0000_0000 + b.v1
  {
    EncryptByTurns(v, Xtea(Key(k0, k1, k2, k3)), [k0, k1, k2, k3]);
  }

  // ----- base62

  const DIGITS: string := "0123456789"
  const CAPITALS: string := "ABCDEFGHIJKLMNOPQRSTUVWXYZ"
  const SMALL: string := "abcdefghijklmnopqrstuvwxyz"
  const ALPHABET: string := DIGITS + CAPITALS + SMALL
  const WIDTH: nat := 11

  /** The character for a digit, and the digit of a character or -1: both by code range, the
      alphabet being digits, capitals and small letters in code order. */
  function Symbol(d: nat): char
    requires d < 62
  {
    if d < 10 then (48 + d) as char else if d < 36 then (55 + d) as char else (61 + d) as char
  }

  function SymbolIndex(c: char): (d: int)
    ensures -1 <= d < 62
    ensures d >= 0 ==> Symbol(d) == c
  {
    if '0' <= c <= '9' then c as int - 48
    else if 'A' <= c <= 'Z' then c as int - 55
    else if 'a' <= c <= 'z' then c as int - 61
    else -1
  }

  lemma SymbolOfDigit(d: nat)
    ensures |DIGITS| == 10 && (d < 10 ==> DIGITS[d] == Symbol(d))
  {
  }

  lemma SymbolOfCapital(d: nat)
    ensures |CAPITALS| == 26 && (d < 26 ==> CAPITALS[d] == Symbol(d + 10))
  {
  }

  lemma SymbolOfSmall(d: nat)
    ensures |SMALL| == 26 && (d < 26 ==> SMALL[d] == Symbol(d + 36))
  {
  }

  lemma Concatenated(a: string, b: string, c: string, d: nat)
    requires d < |a| + |b| + |c|
    ensures (a + b + c)[d]
         == if d < |a| then a[d] else if d < |a| + |b| then b[d - |a|] else c[d - |a| - |b|]
  {
  }

  /** `Symbol` indexes the alphabet, and `SymbolIndex` is the position in it. */
  lemma SymbolIsAlphabet(d: nat)
    requires d < 62
    ensures |ALPHABET| == 62 && ALPHABET[d] == Symbol(d) && SymbolIndex(ALPHABET[d]) == d
  {
    SymbolOfDigit(d);
    SymbolOfCapital(if d < 10 then 0 else d - 10);
    SymbolOfSmall(if d < 36 then 0 else d - 36);
    Concatenated(DIGITS, CAPITALS, SMALL, d);
  }

  /** Indexing of the alphabet. */
  function AlphabetAt(d: nat): (c: char)
    requires d < 62
    ensures c == Symbol(d)
  {
    SymbolIsAlphabet(d);
    ALPHABET[d]
  }

  lemma SymbolIndexFindsAll(c: char)
    ensures c in ALPHABET <==> SymbolIndex(c) >= 0
  {
    if c in ALPHABET {
      var d :| 0 <= d < |ALPHABET| && ALPHABET[d] == c;
      SymbolIsAlphabet(d);
    } else if SymbolIndex(c) >= 0 {
      SymbolIsAlphabet(SymbolIndex(c));
    }
  }

  ghost predicate AlphabetOnly(s: string) {
    forall i :: 0 <= i < |s| ==> SymbolIndex(s[i]) >= 0
  }

  /** Positional value, most significant digit first. */
  function Value(s: string): nat
    requires AlphabetOnly(s)
  {
    if s == [] then 0 else Value(s[..|s| - 1]) * 62 + SymbolIndex(s[|s| - 1])
  }

  function Digits(n: nat, k: nat): (s: string)
    ensures |s| == k
    ensures AlphabetOnly(s)
    decreases k
  {
    if k == 0 then [] else Digits(n / 62, k - 1) + [Symbol(n % 62)]
  }

  function Pow62(k: nat): (r: nat)
    ensures r > 0
  {
    if k == 0 then 1 else 62 * Pow62(k - 1)
  }

  lemma ElevenDigitsSuffice()
    ensures TWO_64 <= Pow62(WIDTH)
  {
    assert Pow62(1) == 62 && Pow62(2) == 3844 && Pow62(3) == 238328;
    assert Pow62(6) == 238328 * 238328 by { assert Pow62(4) == 62 * 238328 && Pow62(5) == 62 * 62 * 238328; }
    assert Pow62(9) == 238328 * Pow62(6) by { assert Pow62(7) == 62 * Pow62(6) && Pow62(8) == 62 * Pow62(7); }
    assert Pow62(11) == 3844 * Pow62(9) by { assert Pow62(10) == 62 * Pow62(9); }
  }

  lemma ValueOfOneMore(s: string, d: nat)
    requires AlphabetOnly(s) && d < 62
    ensures AlphabetOnly(s + [Symbol(d)]) && Value(s + [Symbol(d)]) == Value(s) * 62 + d
  {
    assert (s + [Symbol(d)])[..|s|] == s;
  }

  lemma {:induction false} ValueOfDigits(n: nat, k: nat)
    requires n < Pow62(k)
    ensures Value(Digits(n, k)) == n
    decreases k
  {
    if k > 0 {
      ValueOfDigits(n / 62, k - 1);
      ValueOfOneMore(Digits(n / 62, k - 1), n % 62);
    }
  }

  /** The number without its last `e` digits. */
  function Quotient(n: nat, e: nat): nat
    decreases e
  {
    if e == 0 then n else Quotient(n / 62, e - 1)
  }

  lemma {:induction false} QuotientIs(n: nat, e: nat)
    ensures Quotient(n, e) == n / Pow62(e)
    decreases e
  {
    if e > 0 {
      QuotientIs(n / 62, e - 1);
      QuotientOfQuotient(n, Pow62(e - 1));
    }
  }

  lemma {:induction false} DigitIsLast(n: nat, k: nat, i: nat, e: nat)
    requires i + e + 1 == k
    ensures Digits(n, k)[i] == Symbol(Quotient(n, e) % 62)
    decreases k
  {
    if e > 0 {
      DigitIsLast(n / 62, k - 1, i, e - 1);
    }
  }

  /** The digit at a position, counted from the most significant, is the one of that weight. */
  lemma DigitAt(n: nat, k: nat, i: nat)
    requires i < k
    ensures Digits(n, k)[i] == ALPHABET[n / Pow62(k - 1 - i) % 62]
  {
    DigitIsLast(n, k, i, k - 1 - i);
    QuotientIs(n, k - 1 - i);
    SymbolIsAlphabet(n / Pow62(k - 1 - i) % 62);
  }

  lemma QuotientOfQuotient(n: nat, m: nat)
    requires m > 0
    ensures n / 62 / m == n / (62 * m)
  {
    var q := n / 62 / m;
    var r, s := n % 62, n / 62 % m;
    assert n == 62 * (n / 62) + r && n / 62 == m * q + s;
    assert 62 * s + r < 62 * m;
    assert n == (62 * m) * q + (62 * s + r);
    QuotientUnique(n, 62 * m, q, 62 * s + r);
  }

  lemma QuotientUnique(n: nat, m: nat, q: nat, r: nat)
    requires r < m && n == m * q + r
    ensures n / m == q
  {
    var d := n / m;
    assert n == m * d + n % m;
    assert d < q ==> m * (d + 1) <= m * q;
    assert d > q ==> m * (q + 1) <= m * d;
  }

  lemma {:induction false} DigitsOfValue(s: string)
    requires AlphabetOnly(s)
    ensures Digits(Value(s), |s|) == s
    decreases |s|
  {
    if s != [] {
      var t := s[..|s| - 1];
      DigitsOfValue(t);
      assert Value(s) / 62 == Value(t) && Value(s) % 62 == SymbolIndex(s[|s| - 1]);
      assert s == t + [s[|s| - 1]];
    }
  }

  /** A prefix weighs no more than the whole. */
  lemma {:induction false} ValueGrows(s: string, k: nat)
    requires AlphabetOnly(s) && k <= |s|
    ensures Value(s[..k]) <= Value(s)
    decreases |s|
  {
    if k < |s| {
      var t := s[..|s| - 1];
      ValueGrows(t, k);
      assert t[..k] == s[..k];
    } else {
      assert s[..k] == s;
    }
  }

  method EncodeBase62(n: Uint64) returns (s: string)
    ensures s == Digits(n, WIDTH)
  {
    if n == 0 {
      ZeroDigits(WIDTH);
      return "00000000000";
    }
    var result := new char[WIDTH];
    var i, m := WIDTH as int - 1, n;
    while i >= 0
      invariant -1 <= i < WIDTH
      invariant Digits(n, WIDTH) == Digits(m, i + 1) + result[i + 1..]
    {
      OneDigit(m, i, result[i + 1..]);
      result[i] := AlphabetAt(m % 62);
      assert result[i..] == [Symbol(m % 62)] + result[i + 1..];
      m := m / 62;
      i := i - 1;
    }
    assert result[0..] == result[..];
    s := result[..];
  }

  lemma OneDigit(m: nat, i: nat, tail: string)
    ensures Digits(m, i + 1) + tail == Digits(m / 62, i) + ([Symbol(m % 62)] + tail)
  {
  }

  lemma {:induction false} ZeroDigits(k: nat)
    ensures Digits(0, k) == seq(k, _ => '0')
  {
    if k > 0 {
      ZeroDigits(k - 1);
    }
  }

  datatype Result<T> = Ok(value: T) | Err(msg: string)

  /** Accepts exactly the 11-character alphabet strings worth less than 2^64, and returns their
      value: the two guards reject every overflow and nothing else. */
  method DecodeBase62(s: string) returns (r: Result<Uint64>)
    ensures r.Ok? <==> |s| == WIDTH && AlphabetOnly(s) && Value(s) < TWO_64
    ensures r.Ok? ==> r.value == Value(s)
  {
    if |s| != WIDTH {
      return Err("invalid length");
    }
    var result: Uint64 := 0;
    for k := 0 to |s|
      invariant AlphabetOnly(s[..k])
      invariant result == Value(s[..k])
    {
      var idx := SymbolIndex(s[k]);
      if idx < 0 {
        return Err("invalid character");
      }
      assert s[..k + 1][..k] == s[..k];
      if result > (TWO_64 - 1) / 62 {
        OverflowStays(s, k + 1);
        return Err("overflow during decode");
      }
      var scaled := result * 62;
      if scaled > TWO_64 - 1 - idx {
        OverflowStays(s, k + 1);
        return Err("overflow during decode");
      }
      result := scaled + idx;
    }
    assert s[..|s|] == s;
    return Ok(result);
  }

  lemma OverflowStays(s: string, k: nat)
    requires k <= |s| && AlphabetOnly(s[..k]) && Value(s[..k]) >= TWO_64
    ensures AlphabetOnly(s) ==> Value(s) >= TWO_64
  {
    if AlphabetOnly(s) {
      ValueGrows(s, k);
    }
  }

  // ----- public ids

  datatype Namespace = Namespace(name: string, prefix: string, cipher: Cipher)

  function ToUnsigned(id: Int64): Uint64 {
    if id < 0 then id + TWO_64 else id
  }

  function ToSigned(v: Uint64): Int64 {
    if v < TWO_63 then v else v - TWO_64
  }

  function Prefixed(ns: Namespace, encoded: string): string {
    if ns.prefix != "" then ns.prefix + "_" + encoded else encoded
  }

  function PublicForm(ns: Namespace, id: Int64): string {
    Prefixed(ns, Digits(Encrypt(ToUnsigned(id), ns.cipher), WIDTH))
  }

  /** An id stands for itself modulo 2^64. */
  lemma TwosComplement(id: Int64)
    ensures ToUnsigned(id) == id % 0x1_0000_0000_0000_0000
  {
  }

  /** The public form written out: the prefix and an underscore if there is a prefix, and eleven
      digits of the encrypted id. */
  lemma PublicFormIs(ns: Namespace, id: Int64)
    ensures PublicForm(ns, id)
         == (if ns.prefix == "" then "" else ns.prefix + "_") + Digits(Encrypt(ToUnsigned(id), ns.cipher), 11)
  {
    var d := Digits(Encrypt(ToUnsigned(id), ns.cipher), 11);
    assert "" + d == d;
  }

  class Encoder {
    const namespaces: map<string, Namespace>

    /** Key derivation is foreign code: each namespace comes with its derived key. */
    constructor (prefixes: map<string, string>, keys: map<string, Key>)
      requires prefixes.Keys == keys.Keys
      ensures namespaces.Keys == prefixes.Keys
      ensures forall n :: n in prefixes ==> namespaces[n] == Namespace(n, prefixes[n], Xtea(keys[n]))
    {
      namespaces := map n | n in prefixes :: Namespace(n, prefixes[n], Xtea(keys[n]));
    }

    method Encode(namespace: string, id: Int64) returns (r: Result<string>)
      ensures r.Ok? <==> namespace in namespaces
      ensures r.Ok? ==> r.value == PublicForm(namespaces[namespace], id)
    {
      if namespace !in namespaces {
        return Err("unknown namespace");
      }
      var ns := namespaces[namespace];
      var encrypted := EncryptWord(ToUnsigned(id), ns.cipher);
      var encoded := EncodeBase62(encrypted);
      if ns.prefix != "" {
        return Ok(ns.prefix + "_" + encoded);
      }
      return Ok(encoded);
    }

    /** Decodes a string to an id exactly when that id encodes to the string. */
    method Decode(namespace: string, publicId: string) returns (r: Result<Int64>)
      ensures r.Ok? ==> namespace in namespaces
      ensures namespace in namespaces ==> forall id: Int64 ::
        r == Ok(id) <==> publicId == PublicForm(namespaces[namespace], id)
    {
      if namespace !in namespaces {
        return Err("unknown namespace");
      }
      var ns := namespaces[namespace];
      var encoded := publicId;
      if ns.prefix != "" {
        var expected := ns.prefix + "_";
        if !(expected <= publicId) {
          return Err("invalid prefix");
        }
        encoded := publicId[|expected|..];
        assert publicId == expected + encoded;
      }
      assert publicId == Prefixed(ns, encoded);
      var decoded := DecodeBase62(encoded);
      if decoded.Err? {
        forall id: Int64 ensures publicId != PublicForm(ns, id) {
          if publicId == PublicForm(ns, id) { OnlyOwnIdDecodes(ns, id, encoded); }
        }
        return Err("invalid public ID format");
      }
      var decrypted := DecryptWord(decoded.value, ns.cipher);
      forall id: Int64 ensures ToSigned(decrypted) == id <==> publicId == PublicForm(ns, id) {
        DecodedIdEncodesBack(ns, encoded);
        if publicId == PublicForm(ns, id) { OnlyOwnIdDecodes(ns, id, encoded); }
      }
      return Ok(ToSigned(decrypted));
    }
  }

  ghost predicate Decodable(encoded: string) {
    |encoded| == WIDTH && AlphabetOnly(encoded) && Value(encoded) < TWO_64
  }

  /** Without the cipher: a prefixed digit string reads back as the number it was made from. */
  lemma PrefixedDigitsReadBack(ns: Namespace, e: Uint64, encoded: string)
    requires Prefixed(ns, encoded) == Prefixed(ns, Digits(e, WIDTH))
    ensures Decodable(encoded) && Value(encoded) == e
  {
    var digits := Digits(e, WIDTH);
    if ns.prefix != "" {
      var p := ns.prefix + "_";
      assert encoded == (p + encoded)[|p|..] == (p + digits)[|p|..] == digits;
    }
    ElevenDigitsSuffice();
    ValueOfDigits(e, WIDTH);
  }

  /** Whatever decodes to an id is the encoding of that id. */
  lemma DecodedIdEncodesBack(ns: Namespace, encoded: string)
    requires Decodable(encoded)
    ensures PublicForm(ns, ToSigned(Decrypt(Value(encoded), ns.cipher))) == Prefixed(ns, encoded)
  {
    CipherBijective(Value(encoded), ns.cipher);
    FormOfSigned(ns, Decrypt(Value(encoded), ns.cipher));
    DigitsOfValue(encoded);
  }

  lemma FormOfSigned(ns: Namespace, d: Uint64)
    ensures PublicForm(ns, ToSigned(d)) == Prefixed(ns, Digits(Encrypt(d, ns.cipher), WIDTH))
  {
    assert ToUnsigned(ToSigned(d)) == d;
  }

  /** The encoding of an id is accepted, and decodes to that id. */
  lemma OnlyOwnIdDecodes(ns: Namespace, id: Int64, encoded: string)
    requires Prefixed(ns, encoded) == PublicForm(ns, id)
    ensures Decodable(encoded)
    ensures ToSigned(Decrypt(Value(encoded), ns.cipher)) == id
  {
    PrefixedDigitsReadBack(ns, Encrypt(ToUnsigned(id), ns.cipher), encoded);
    CipherBijective(ToUnsigned(id), ns.cipher);
  }

  /** Encode and decode are inverse bijections for each namespace and every key. */
  method RoundTrip(enc: Encoder, namespace: string, id: Int64) returns (back: Result<Int64>)
    ensures namespace in enc.namespaces ==> back == Ok(id)
    ensures namespace !in enc.namespaces ==> back.Err?
  {
    var s := enc.Encode(namespace, id);
    if s.Err? {
      return Err(s.msg);
    }
    back := enc.Decode(namespace, s.value);
  }
}
