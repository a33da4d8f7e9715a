/** Regrouping the 5-bit words of an invoice into bytes with an accumulator that wraps at 32 bits. */
module Bolt11Words {
  import opened BigEndian
  import opened ModArith

  type Word = w: int | 0 <= w < 32

  function Pow2(n: nat): (r: nat)
    ensures r > 0
  {
    if n == 0 then 1 else 2 * Pow2(n - 1)
  }

  /** The bits of a word and of a byte. */
  const WORD_BITS: nat := 5
  const BYTE_BITS: nat := 8

  lemma {:induction false} Pow2Add(a: nat, b: nat)
    ensures Pow2(a + b) == Pow2(a) * Pow2(b)
  {
    if a > 0 { Pow2Add(a - 1, b); }
  }

  /** The words as one number of 5 bits each. */
  function WordsNumber(ws: seq<Word>): nat
  {
    if ws == [] then 0 else 32 * WordsNumber(ws[..|ws| - 1]) + ws[|ws| - 1]
  }

  // ----- the accumulator

  const WRAP: nat := 0x1_0000_0000

  /** What a 32-bit signed register keeps of n. */
  function ToInt32(n: int): (r: int)
    ensures -0x8000_0000 <= r < 0x8000_0000 && (r - n) % WRAP == 0
  {
    var low := n % WRAP;
    if low < 0x8000_0000 then low else low - WRAP
  }

  /** Shifting left by 5 and or-ing a word in: the low five bits are zero, so the or is an addition. */
  function Push(value: int, word: Word): int { ToInt32(value * 32) + word }

  /** An arithmetic shift right, then the low byte. */
  function ByteAt(value: int, bits: nat): Byte { (value / Pow2(bits)) % 256 }

  predicate Wraps(value: int, exact: nat) { (value - exact) % WRAP == 0 }

  lemma PushWraps(value: int, exact: nat, word: Word)
    requires Wraps(value, exact)
    ensures Wraps(Push(value, word), 32 * exact + word)
  {
    var k := (value - exact) / WRAP;
    var j := (ToInt32(value * 32) - value * 32) / WRAP;
    assert Push(value, word) - (32 * exact + word) == WRAP * (32 * k + j);
  }

  lemma Pow2Values()
    ensures Pow2(WORD_BITS) == 32 && Pow2(BYTE_BITS) == 256 && Pow2(24) == 0x100_0000
  {
    var two, four, sixteen := 2, 4, 16;
    assert Pow2(two) == 4;
    Pow2Add(two, two);
    Pow2Add(four, 1);
    Pow2Add(four, four);
    Pow2Add(BYTE_BITS, BYTE_BITS);
    Pow2Add(sixteen, BYTE_BITS);
  }

  lemma Bounded(bits: nat)
    requires bits <= 24
    ensures WRAP == Pow2(bits) * (256 * Pow2(24 - bits))
  {
    Pow2Values();
    Pow2Add(bits, 24 - bits);
    Regroup3(Pow2(bits), Pow2(24 - bits));
  }

  lemma Regroup3(a: nat, b: nat)
    ensures a * (256 * b) == 256 * (a * b)
  {
  }

  lemma DivideShifted(a: int, d: int, m: int)
    requires d > 0
    ensures (a + d * m) / d == a / d + m
  {
    assert a + d * m == d * (a / d + m) + a % d;
    DivModUnique(d, a / d + m, a % d, a + d * m);
  }

  lemma DivideTwice(n: int, a: int, b: int)
    requires a > 0 && b > 0
    ensures a * b > 0 && (n / a) / b == n / (a * b)
  {
    var m := n / a;
    TwoQuotients(n, a, b, m, n % a, m / b, m % b);
    DivModUnique(a * b, m / b, a * (m % b) + n % a, n);
  }

  lemma TwoQuotients(n: int, a: int, b: int, m: int, s: int, q: int, r: int)
    requires a > 0 && b > 0 && n == a * m + s && m == b * q + r && 0 <= s < a && 0 <= r < b
    ensures a * b > 0 && n == (a * b) * q + (a * r + s) && 0 <= a * r + s < a * b
  {
    Spread(a, b, q, r);
    Scale(a, r + 1, b);
    Scale(a, 0, r);
    Scale(a, 1, b);
  }

  lemma Spread(a: int, b: int, q: int, r: int)
    ensures a * (b * q + r) == (a * b) * q + a * r
    ensures a * (r + 1) == a * r + a
  {
  }

  lemma Scale(a: int, x: int, y: int)
    requires a > 0
    ensures x <= y ==> a * x <= a * y
    ensures a * x < a * y ==> x < y
  {
    if x <= y {
      assert a * (y - x) >= 0;
    } else {
      assert a * (x - y) >= 0;
    }
  }

  lemma Multiple(d: nat, c: nat, k: int)
    ensures d * (256 * c) * k == d * (256 * (c * k))
  {
  }

  /** The byte taken from the wrapped register is the byte of the exact number. */
  lemma ByteSurvivesWrap(value: int, exact: nat, bits: nat)
    requires Wraps(value, exact) && bits <= 24
    ensures ByteAt(value, bits) == (exact / Pow2(bits)) % 256
  {
    var k := (value - exact) / WRAP;
    var d, c := Pow2(bits), Pow2(24 - bits);
    hide Pow2;
    Bounded(bits);
    assert value == exact + WRAP * k;
    Multiple(d, c, k);
    DivideShifted(exact, d, 256 * (c * k));
    ModAddMultiple(exact / d, c * k, 256);
  }

  // ----- the loops

  /** A byte more: eight bits of the number move from the rest to the result. */
  lemma EmitByte(n: nat, bits: nat)
    requires bits >= 8
    ensures 256 * (n / Pow2(bits)) + (n / Pow2(bits - 8)) % 256 == n / Pow2(bits - 8)
  {
    Pow2Values();
    Pow2Add(bits - 8, BYTE_BITS);
    DivideTwice(n, Pow2(bits - 8), 256);
  }

  /** A word more: five bits join the rest, and the result stays the same. */
  lemma TakeWord(n: nat, word: Word, bits: nat)
    ensures (32 * n + word) / Pow2(bits + 5) == n / Pow2(bits)
  {
    Pow2Values();
    Pow2Add(WORD_BITS, bits);
    DivModUnique(32, n, word, 32 * n + word);
    DivideTwice(32 * n + word, 32, Pow2(bits));
  }

  /** So many whole bytes were taken from the number, and so many bits are left. */
  ghost predicate Taken(result: seq<Byte>, bits: nat, value: int, n: nat)
  {
    FromBytes(result) == n / Pow2(bits) && Wraps(value, n)
  }

  lemma TakeStep(result: seq<Byte>, bits: nat, value: int, n: nat, word: Word)
    requires Taken(result, bits, value, n)
    ensures Taken(result, bits + 5, Push(value, word), 32 * n + word)
  {
    TakeWord(n, word, bits);
    PushWraps(value, n, word);
  }

  lemma EmitStep(result: seq<Byte>, bits: nat, value: int, n: nat)
    requires Taken(result, bits, value, n) && 8 <= bits <= 32
    ensures Taken(result + [ByteAt(value, bits - 8)], bits - 8, value, n)
  {
    var byte := ByteAt(value, bits - 8);
    assert (result + [byte])[..|result|] == result;
    EmitByte(n, bits);
    ByteSurvivesWrap(value, n, bits - 8);
  }

  function WholeBytes(words: nat): nat { 5 * words / 8 }

  function SpareBits(words: nat): (r: nat)
    ensures r < 8 && 8 * WholeBytes(words) + r == 5 * words
  {
    5 * words % 8
  }

  /** The number without its last bits. */
  function Shifted(n: nat, d: nat): (r: nat)
    requires d > 0
  {
    n / d
  }

  /** The first whole bytes of the words' bits. */
  function Regrouped(words: seq<Word>): (r: seq<Byte>)
    ensures |r| == WholeBytes(|words|)
  {
    IntBytes(Shifted(WordsNumber(words), Pow2(SpareBits(|words|))), WholeBytes(|words|))
  }

  /** `fromWordsLenient` */
  method FromWordsLenient(words: seq<Word>) returns (result: seq<Byte>)
    ensures result == Regrouped(words)
  {
    hide Taken, Push, ByteAt;
    var bits, value: int := 0, 0;
    result := [];
    NothingTaken();
    var i := 0;
    while i < |words|
      invariant i <= |words| && 0 <= bits < 8 && 8 * |result| + bits == 5 * i
      invariant Taken(result, bits, value, WordsNumber(words[..i]))
    {
      assert words[..i + 1][..i] == words[..i];
      TakeStep(result, bits, value, WordsNumber(words[..i]), words[i]);
      value := Push(value, words[i]);
      bits := bits + 5;
      while bits >= 8
        invariant 0 <= bits <= 12 && 8 * |result| + bits == 5 * (i + 1)
        invariant Taken(result, bits, value, WordsNumber(words[..i + 1]))
      {
        EmitStep(result, bits, value, WordsNumber(words[..i + 1]));
        bits := bits - 8;
        result := result + [ByteAt(value, bits)];
      }
      i := i + 1;
    }
    assert words[..i] == words;
    TakenAll(result, bits, value, words);
  }

  lemma NothingTaken()
    ensures Taken([], 0, 0, WordsNumber([]))
  {
  }

  lemma TakenAll(result: seq<Byte>, bits: nat, value: int, words: seq<Word>)
    requires Taken(result, bits, value, WordsNumber(words)) && bits < 8 && 8 * |result| + bits == 5 * |words|
    ensures result == Regrouped(words)
  {
    hide FromBytes, IntBytes, WordsNumber, Pow2;
    DivModUnique(8, |result|, bits, 5 * |words|);
    BytesRoundTrip(result);
  }

  // ----- what the result is

  lemma {:induction false} CapacityIsPow2(k: nat)
    ensures Capacity(k) == Pow2(8 * k)
  {
    if k > 0 {
      CapacityIsPow2(k - 1);
      Pow2Values();
      Pow2Add(BYTE_BITS, 8 * (k - 1));
    }
  }

  lemma {:induction false} WordsBound(words: seq<Word>)
    ensures WordsNumber(words) < Pow2(5 * |words|)
  {
    if words != [] {
      WordsBound(words[..|words| - 1]);
      Pow2Values();
      Pow2Add(WORD_BITS, 5 * (|words| - 1));
    }
  }

  lemma QuotientBound(n: nat, a: nat, b: nat)
    requires a > 0 && n < a * b
    ensures n / a < b
  {
    Scale(a, n / a, b);
  }

  lemma RegroupedFits(words: seq<Word>)
    ensures WordsNumber(words) / Pow2(SpareBits(|words|)) < Capacity(WholeBytes(|words|))
  {
    hide WordsNumber, Pow2, Capacity, WholeBytes, SpareBits;
    var k, bits := WholeBytes(|words|), SpareBits(|words|);
    WordsBound(words);
    Pow2Add(bits, 8 * k);
    CapacityIsPow2(k);
    QuotientBound(WordsNumber(words), Pow2(bits), Capacity(k));
  }

  lemma RegroupedNumber(words: seq<Word>)
    ensures FromBytes(Regrouped(words)) == WordsNumber(words) / Pow2(SpareBits(|words|))
  {
    hide WordsNumber, Pow2, Capacity, IntBytes, FromBytes, WholeBytes, SpareBits;
    var v := Shifted(WordsNumber(words), Pow2(SpareBits(|words|)));
    RegroupedFits(words);
    hide Shifted;
    IntRoundTrip(v, WholeBytes(|words|));
  }

  /** Bit j, counted from the front, of a number of so many bits. */
  function BitAt(n: nat, length: nat, j: nat): nat
    requires j < length
  {
    n / Pow2(length - 1 - j) % 2
  }

  /** The result's bits are the first bits of the words, whole bytes of them. */
  lemma RegroupingKeepsBits(words: seq<Word>, j: nat)
    requires j < 8 * |Regrouped(words)|
    ensures BitAt(FromBytes(Regrouped(words)), 8 * |Regrouped(words)|, j) == BitAt(WordsNumber(words), 5 * |words|, j)
  {
    hide WordsNumber, IntBytes, FromBytes, WholeBytes;
    var length, bits := 8 * |Regrouped(words)|, SpareBits(|words|);
    RegroupedNumber(words);
    Pow2Add(bits, length - 1 - j);
    DivideTwice(WordsNumber(words), Pow2(bits), Pow2(length - 1 - j));
    assert bits + (length - 1 - j) == 5 * |words| - 1 - j;
  }

  // ----- undoing the 8-to-5 regrouping

  /** Words that spell these bytes and then fewer than eight more bits. */
  predicate Spells(words: seq<Word>, bytes: seq<Byte>)
  {
    8 * |bytes| <= 5 * |words| < 8 * |bytes| + 8
    && WordsNumber(words) / Pow2(5 * |words| - 8 * |bytes|) == FromBytes(bytes)
  }

  /** The regrouping is undone whatever the padding bits are. */
  lemma RegroupedInvertsSpelling(words: seq<Word>, bytes: seq<Byte>)
    requires Spells(words, bytes)
    ensures Regrouped(words) == bytes
  {
    hide FromBytes, IntBytes, WordsNumber, Pow2;
    DivModUnique(8, |bytes|, 5 * |words| - 8 * |bytes|, 5 * |words|);
    BytesRoundTrip(bytes);
  }

  /** The low n words of v, most significant first. */
  function WordsOf(v: nat, n: nat): (r: seq<Word>)
    ensures |r| == n
  {
    if n == 0 then [] else WordsOf(v / 32, n - 1) + [v % 32]
  }

  lemma {:induction false} WordsRoundTrip(v: nat, n: nat)
    requires v < Pow2(5 * n)
    ensures WordsNumber(WordsOf(v, n)) == v
  {
    if n > 0 {
      Pow2Values();
      Pow2Add(WORD_BITS, 5 * (n - 1));
      QuotientBound(v, 32, Pow2(5 * (n - 1)));
      WordsRoundTrip(v / 32, n - 1);
      assert WordsOf(v, n)[..n - 1] == WordsOf(v / 32, n - 1);
    }
  }

  /** Section "Bech32" of BIP 173 regroups bytes into words by appending padding bits at the end. */
  function SpelledWith(bytes: seq<Byte>, n: nat, padding: nat): seq<Word>
    requires 8 * |bytes| <= 5 * n
  {
    WordsOf(FromBytes(bytes) * Pow2(5 * n - 8 * |bytes|) + padding, n)
  }

  /** Every byte string, in as many words as hold it, with any padding of fewer than eight bits, comes back. */
  lemma RegroupedUndoesPadding(bytes: seq<Byte>, n: nat, padding: nat)
    requires 8 * |bytes| <= 5 * n < 8 * |bytes| + 8 && padding < Pow2(5 * n - 8 * |bytes|)
    ensures Regrouped(SpelledWith(bytes, n, padding)) == bytes
  {
    hide IntBytes, FromBytes, Capacity, WordsOf, WordsNumber, Regrouped;
    var bits := 5 * n - 8 * |bytes|;
    var number := FromBytes(bytes);
    BytesRoundTrip(bytes);
    CapacityIsPow2(|bytes|);
    Pow2Add(bits, 8 * |bytes|);
    hide Pow2;
    ShiftedBound(number, Pow2(bits), Capacity(|bytes|), padding);
    WordsRoundTrip(number * Pow2(bits) + padding, n);
    DivModUnique(Pow2(bits), number, padding, number * Pow2(bits) + padding);
    RegroupedInvertsSpelling(SpelledWith(bytes, n, padding), bytes);
  }

  lemma ShiftedBound(number: nat, d: nat, bound: nat, padding: nat)
    requires number < bound && padding < d
    ensures number * d + padding < d * bound
  {
    Scale(d, number + 1, bound);
    Spread(d, 0, 0, number);
  }
}
