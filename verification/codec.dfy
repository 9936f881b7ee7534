/**
 The integer encodings of words and feedback patterns.

 A word is packed base 26, first letter most significant: the C++
 solver's `from_word`/`to_word` (32-bit) and the id fold of the Ruby
 compressed writer (unbounded Integer). A feedback pattern is packed
 base 3 with Correct = 2, Misplaced = 1, Wrong = 0, first position most
 significant (`build_table`), and rendered back as a string of C/M/W by
 the C++ `to_score` and the Ruby `unparse_score`.
 */
module Codec {
  import opened Positional
  import opened Feedback

  /** 2^32: C++ `uint32_t` arithmetic is modulo this. */
  const Modulus32: int := 0x1_0000_0000

  /** The C++ `wordid` (uint32_t). */
  type WordId = n: int | 0 <= n < 0x1_0000_0000

  /** The C++ `scoreid` (uint8_t). */
  type ScoreId = n: int | 0 <= n < 256

  /** Number of distinct five-letter lowercase words, 26^5. */
  const WordSpace: int := 11881376

  /** Number of distinct five-position patterns, 3^5. */
  const PatternSpace: int := 243

  lemma Spaces()
    ensures Pow(26, 5) == WordSpace < Modulus32
    ensures Pow(3, 5) == PatternSpace
  {
    assert Pow(26, 2) == 676;
    assert Pow(3, 2) == 9;
  }

  // ---------------------------------------------------------------------
  // Words

  predicate IsLower(c: char) {
    'a' <= c <= 'z'
  }

  /** A word of the dictionary: five lowercase letters. */
  predicate IsWord(w: string) {
    |w| == 5 && forall i :: 0 <= i < 5 ==> IsLower(w[i])
  }

  /** `'a' + d`. */
  function Letter(d: int): (c: char)
    requires 0 <= d < 26
    ensures IsLower(c)
  {
    ('a' as int + d) as char
  }

  /** `c - 'a'`: negative or above 25 for characters outside a..z. */
  function Offset(c: char): int {
    c as int - 'a' as int
  }

  /** The letters spelled by base-26 digits. */
  function Spell(ds: seq<int>): (w: string)
    requires AllDigits(ds, 26)
    ensures |w| == |ds|
  {
    seq(|ds|, i => if 0 <= i < |ds| && 0 <= ds[i] < 26 then Letter(ds[i]) else 'a')
  }

  /** The digit of every character, `letter.ord - 'a'.ord`. */
  function Offsets(w: string): (ds: seq<int>)
    ensures |ds| == |w|
  {
    seq(|w|, i => if 0 <= i < |w| then Offset(w[i]) else 0)
  }

  /** C++ `to_word`: five letters, the last one `'a' + id % 26`, each
      earlier one taken from the quotient. */
  function ToWord(id: WordId): (w: string)
    ensures IsWord(w)
    ensures w[4] == Letter(id % 26)
  {
    Spell(Unpack(id, 26, 5))
  }

  /** C++ `from_word`: the fold `word * 26 + c - 'a'` in 32-bit unsigned
      arithmetic, taking one character at a time. C++ folds the `char`
      bytes of the string instead; the two agree on characters below 128
      (FromCharsAscii). */
  function FromWord(w: string): WordId
  {
    if |w| == 0 then 0
    else (FromWord(w[..|w| - 1]) * 26 + Offset(w[|w| - 1])) % Modulus32
  }

  /** The Ruby writer's id fold `acc * 26 + (letter.ord - 'a'.ord)`, an
      unbounded Integer. */
  function RubyWordId(w: string): int
  {
    Pack(Offsets(w), 26)
  }

  /** The 32-bit fold is the Ruby fold reduced modulo 2^32, for every
      string of characters. */
  lemma {:induction false} FromWordWraps(w: string)
    ensures FromWord(w) == RubyWordId(w) % Modulus32
  {
    if |w| > 0 {
      var pre := w[..|w| - 1];
      FromWordWraps(pre);
      assert Offsets(w)[..|w| - 1] == Offsets(pre);
      ModStep(RubyWordId(pre), 26, Offset(w[|w| - 1]), Modulus32);
    }
  }

  /** A C++ `char`: one byte, signed as on the usual ABIs. */
  type CChar = c: int | -128 <= c < 128

  /** Every character is below 128, so it is one byte of the string. */
  predicate Ascii(w: string) {
    forall i :: 0 <= i < |w| ==> w[i] as int < 128
  }

  /** The `char`s of a string of one-byte characters. */
  function AsciiChars(w: string): (cs: seq<CChar>)
    requires Ascii(w)
    ensures |cs| == |w| && forall i :: 0 <= i < |w| ==> cs[i] == w[i] as int
  {
    seq(|w|, i requires 0 <= i < |w| => w[i] as int)
  }

  /** C++ `from_word` over the `char`s of a `std::string`: each step
      `word * 26 + string[i] - 'a'` is wrapped to 32 bits, a negative
      `char` included. */
  function FromChars(cs: seq<CChar>): WordId
  {
    if |cs| == 0 then 0
    else (FromChars(cs[..|cs| - 1]) * 26 + cs[|cs| - 1] - 'a' as int) % Modulus32
  }

  /** On a string of one-byte characters, folding the bytes and folding
      the characters give the same id. */
  lemma {:induction false} FromCharsAscii(w: string)
    requires Ascii(w)
    ensures FromChars(AsciiChars(w)) == FromWord(w)
  {
    if |w| > 0 {
      var pre := w[..|w| - 1];
      FromCharsAscii(pre);
      assert AsciiChars(w)[..|w| - 1] == AsciiChars(pre);
    }
  }

  lemma WordDigits(w: string)
    requires IsWord(w)
    ensures AllDigits(Offsets(w), 26)
    ensures Spell(Offsets(w)) == w
  {
  }

  /** On a word the Ruby id fits in 32 bits and both folds agree. */
  lemma WordIdsAgree(w: string)
    requires IsWord(w)
    ensures 0 <= RubyWordId(w) < WordSpace
    ensures FromWord(w) == RubyWordId(w)
    ensures Ascii(w) && FromChars(AsciiChars(w)) == RubyWordId(w)
  {
    WordDigits(w);
    PackBound(Offsets(w), 26);
    Spaces();
    FromWordWraps(w);
    FromCharsAscii(w);
  }

  /** Decoding an encoded word gives the word back. */
  lemma ToWordFromWord(w: string)
    requires IsWord(w)
    ensures ToWord(FromWord(w)) == w
  {
    WordIdsAgree(w);
    WordDigits(w);
    UnpackPack(Offsets(w), 26);
  }

  /** Encoding a decoded id gives the id modulo 26^5: the identity below
      26^5, while `to_word` drops the higher digits of larger ids. */
  lemma FromWordToWord(id: WordId)
    ensures FromWord(ToWord(id)) == id % WordSpace
    ensures id < WordSpace ==> FromWord(ToWord(id)) == id
  {
    var w := ToWord(id);
    SpellOffsets(Unpack(id, 26, 5));
    PackUnpack(id, 26, 5);
    Spaces();
    var low := id % WordSpace;
    assert RubyWordId(w) == low;
    FromWordWraps(w);
    DivModUnique(low, Modulus32, 0, low);
    if id < WordSpace {
      DivModUnique(id, WordSpace, 0, id);
    }
  }

  lemma SpellOffsets(ds: seq<int>)
    requires AllDigits(ds, 26)
    ensures Offsets(Spell(ds)) == ds
  {
  }

  /** Distinct words have distinct ids. */
  lemma FromWordInjective(v: string, w: string)
    requires IsWord(v) && IsWord(w) && FromWord(v) == FromWord(w)
    ensures v == w
  {
    ToWordFromWord(v);
    ToWordFromWord(w);
  }

  // ---------------------------------------------------------------------
  // Feedback patterns

  /** build_table's digit of a verdict. */
  function Digit(v: Verdict): int {
    match v
    case Correct => 2
    case Misplaced => 1
    case Wrong => 0
  }

  function Digits(r: seq<Verdict>): (ds: seq<int>)
    ensures |ds| == |r|
    ensures AllDigits(ds, 3)
  {
    seq(|r|, i => if 0 <= i < |r| then Digit(r[i]) else 0)
  }

  /** build_table's packing: the fold `acc * 3 + digit`, first verdict most significant. */
  function PackScore(r: seq<Verdict>): nat
  {
    PackBound(Digits(r), 3);
    Pack(Digits(r), 3)
  }

  /** A five-position pattern packs into [0, 243), so it fits the byte of the compressed table. */
  lemma PackScoreRange(r: seq<Verdict>)
    requires |r| == 5
    ensures 0 <= PackScore(r) < PatternSpace
  {
    PackBound(Digits(r), 3);
    Spaces();
  }

  /** Patterns of one length pack to equal codes exactly when they are equal. */
  lemma PackScoreInjective(r1: seq<Verdict>, r2: seq<Verdict>)
    requires |r1| == |r2|
    ensures PackScore(r1) == PackScore(r2) <==> r1 == r2
  {
    if PackScore(r1) == PackScore(r2) {
      UnpackPack(Digits(r1), 3);
      UnpackPack(Digits(r2), 3);
      assert Digits(r1) == Digits(r2);
      forall i | 0 <= i < |r1| ensures r1[i] == r2[i] {
        assert Digit(r1[i]) == Digits(r1)[i];
      }
    }
  }

  /** The pattern letter of a verdict, as tests.rb writes patterns. */
  function Symbol(v: Verdict): char {
    match v
    case Correct => 'C'
    case Misplaced => 'M'
    case Wrong => 'W'
  }

  function Render(r: seq<Verdict>): (p: string)
    ensures |p| == |r|
  {
    seq(|r|, i => if 0 <= i < |r| then Symbol(r[i]) else 'W')
  }

  /** The switch of `to_score`: '?' for a digit outside 0..2. */
  function TritSymbol(d: int): char {
    if d == 2 then 'C' else if d == 1 then 'M' else if d == 0 then 'W' else '?'
  }

  predicate IsPattern(p: string) {
    forall i :: 0 <= i < |p| ==> p[i] in {'C', 'M', 'W'}
  }

  /** The symbols of base-3 digits. */
  function Trits(ds: seq<int>): (p: string)
    ensures |p| == |ds|
  {
    seq(|ds|, i => if 0 <= i < |ds| then TritSymbol(ds[i]) else '?')
  }

  /** C++ `to_score`: the five low base-3 digits of the id, least significant last. */
  function ToScore(id: ScoreId): (p: string)
    ensures |p| == 5 && IsPattern(p)
  {
    Trits(Unpack(id, 3, 5))
  }

  /** Rendering a pattern's code gives the pattern's letters. */
  lemma ToScorePackScore(r: seq<Verdict>)
    requires |r| == 5
    ensures 0 <= PackScore(r) < 256
    ensures ToScore(PackScore(r)) == Render(r)
  {
    var ds := Digits(r);
    PackScoreRange(r);
    UnpackPack(ds, 3);
    assert Unpack(PackScore(r), 3, 5) == ds;
    forall i | 0 <= i < 5
      ensures Trits(ds)[i] == Render(r)[i]
    {
    }
  }

  /** Codes from 243 to 255 wrap: only the five low digits are shown. */
  lemma {:induction false} ToScoreWraps(id: ScoreId)
    ensures ToScore(id) == ToScore(id % PatternSpace)
  {
    var ds := Unpack(id, 3, 5);
    PackUnpack(id, 3, 5);
    Spaces();
    UnpackPack(ds, 3);
  }

  // ---------------------------------------------------------------------
  // Ruby's unparse_score

  /** Ruby `n.to_s(3)` as digits: the shortest base-3 numeral, "0" for zero. */
  function Ternary(n: nat): (ds: seq<int>)
    ensures |ds| >= 1 && AllDigits(ds, 3)
    ensures Pack(ds, 3) == n
  {
    if n < 3 then [n]
    else
      DivNonNegative(n, 3);
      var ds := Ternary(n / 3) + [n % 3];
      assert ds[..|ds| - 1] == Ternary(n / 3);
      ds
  }

  /** Ruby `rjust(k, '0')`: left-pads with zeros up to k digits, never truncates. */
  function PadLeft(ds: seq<int>, k: nat): (p: seq<int>)
    ensures |p| == if |ds| < k then k else |ds|
  {
    if |ds| < k then seq(k - |ds|, _ => 0) + ds else ds
  }

  /** Ruby `unparse_score`: the base-3 numeral padded to five digits, mapped to C/M/W. */
  function UnparseScore(n: nat): (p: string)
    ensures IsPattern(p)
  {
    Trits(PadLeft(Ternary(n), 5))
  }

  lemma DivBelow(n: nat, d: nat, m: nat)
    requires d > 0
    ensures n / d < m <==> n < m * d
  {
    var q := n / d;
    var r := n % d;
    assert n == q * d + r;
    if q < m {
      MulMonotone(q + 1, m, d);
    } else {
      MulMonotone(m, q, d);
    }
  }

  /** The numeral has at most k digits exactly when n is below 3^k. */
  lemma {:induction false} TernaryLength(n: nat, k: nat)
    requires k >= 1
    ensures |Ternary(n)| <= k <==> n < Pow(3, k)
  {
    PowPositive(3, k);
    if n >= 3 {
      DivNonNegative(n, 3);
      if k == 1 {
        assert |Ternary(n)| >= 2;
      } else {
        TernaryLength(n / 3, k - 1);
        DivBelow(n, 3, Pow(3, k - 1));
      }
    } else {
      PowMonotone(3, 1, k);
    }
  }

  /** Leading zeros do not change a numeral's value. */
  lemma {:induction false} PackLeadingZeros(z: nat, ds: seq<int>, b: int)
    ensures Pack(seq(z, _ => 0) + ds, b) == Pack(ds, b)
  {
    var zs := seq(z, _ => 0);
    if |ds| == 0 {
      assert zs + ds == zs;
      PackZeros(z, b);
    } else {
      var pre := ds[..|ds| - 1];
      PackLeadingZeros(z, pre, b);
      assert (zs + ds)[..|zs + ds| - 1] == zs + pre;
    }
  }

  lemma {:induction false} PackZeros(z: nat, b: int)
    ensures Pack(seq(z, _ => 0), b) == 0
  {
    if z > 0 {
      PackZeros(z - 1, b);
      assert seq(z, _ => 0)[..z - 1] == seq(z - 1, _ => 0);
    }
  }

  /** `unparse_score` gives exactly five letters when, and only when, n < 243. */
  lemma UnparseScoreLength(n: nat)
    ensures |UnparseScore(n)| == 5 <==> n < PatternSpace
  {
    TernaryLength(n, 5);
    Spaces();
  }

  /** Below 243 the Ruby and C++ renderings agree. */
  lemma {:induction false} UnparseScoreToScore(n: nat)
    requires n < PatternSpace
    ensures UnparseScore(n) == ToScore(n)
  {
    UnparseScoreLength(n);
    var ds := Ternary(n);
    var p := PadLeft(ds, 5);
    PackLeadingZeros(5 - |ds|, ds, 3);
    assert AllDigits(p, 3);
    UnpackPack(p, 3);
  }

  /** `unparse_score` inverts build_table's packing of a five-position pattern. */
  lemma UnparsePackScore(r: seq<Verdict>)
    requires |r| == 5
    ensures UnparseScore(PackScore(r)) == Render(r)
  {
    PackScoreRange(r);
    ToScorePackScore(r);
    UnparseScoreToScore(PackScore(r));
  }
}
