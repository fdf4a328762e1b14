/** What the bit operations of SHA-1 do to numbers: the order of bytes in words
    and in the length, and the rotations. */
module Sha1Numbers {
  import opened Powers
  import opened Sha1Spec

  const WORD_LIMIT := 0x1_0000_0000

  // ----- bytes and words -----

  // The first byte counts most.
  lemma WordValue(b: seq<Byte>)
    requires |b| == 4
    ensures WordOf(b) as nat == ((b[0] as nat * 256 + b[1] as nat) * 256 + b[2] as nat) * 256 + b[3] as nat
  {
    var b0, b1, b2, b3 := b[0], b[1], b[2], b[3];
    FourBytes(b0, b1, b2, b3);
  }

  lemma FourBytes(a: Byte, b: Byte, c: Byte, d: Byte)
    ensures ((a as Word << 24) | (b as Word << 16) | (c as Word << 8) | d as Word) as nat
            == ((a as nat * 256 + b as nat) * 256 + c as nat) * 256 + d as nat
  {
  }

  lemma BytesGiveWord(x: Word)
    ensures WordOf(BytesOf(x)) == x
  {
  }

  lemma HalfByte(n: nat)
    requires n < 16
    ensures (n as bv4) as nat == n
  {
  }

  lemma TwoHalves(high: bv4, low: bv4)
    ensures ((high as Byte << 4) | low as Byte) as nat == high as nat * 16 + low as nat
  {
  }

  lemma OneByte(n: nat, b: Byte)
    requires n < 256 && b as nat == n
    ensures n as Byte == b
  {
  }

  lemma ByteOfNumber(n: nat)
    requires n < 256
    ensures (n as Byte) as nat == n
  {
    var high, low := (n / 16) as bv4, (n % 16) as bv4;
    HalfByte(n / 16);
    HalfByte(n % 16);
    TwoHalves(high, low);
    OneByte(n, (high as Byte << 4) | low as Byte);
  }

  lemma NumberOfByte(b: Byte)
    ensures b as nat < 256 && (b as nat) as Byte == b
  {
  }

  // The number that bytes stand for, the first one counting most.
  function ValueOf(b: seq<Byte>): nat {
    if b == [] then 0 else ValueOf(b[..|b| - 1]) * 256 + b[|b| - 1] as nat
  }

  lemma WordIsValue(b: seq<Byte>)
    requires |b| == 4
    ensures WordOf(b) as nat == ValueOf(b)
  {
    WordValue(b);
    ValueOfFour(b);
  }

  lemma ValueOfFour(b: seq<Byte>)
    requires |b| == 4
    ensures ValueOf(b) == ((b[0] as nat * 256 + b[1] as nat) * 256 + b[2] as nat) * 256 + b[3] as nat
  {
    var b1, b2, b3 := b[..1], b[..2], b[..3];
    assert b3[..2] == b2 && b2[..1] == b1 && b1[..0] == [];
    assert ValueOf(b1) == b[0] as nat;
    assert ValueOf(b2) == b[0] as nat * 256 + b[1] as nat;
  }

  // The digits written for a number stand for it.
  lemma {:induction false} BigEndianValue(n: nat, k: nat)
    requires n < Pow256(k)
    ensures ValueOf(BigEndian(n, k)) == n
  {
    if k > 0 {
      BigEndianValue(n / 256, k - 1);
      ByteOfNumber(n % 256);
      assert BigEndian(n, k)[..k - 1] == BigEndian(n / 256, k - 1);
    }
  }

  // Different bytes stand for different numbers.
  lemma {:induction false} DigitsUnique(b: seq<Byte>)
    ensures ValueOf(b) < Pow256(|b|) && BigEndian(ValueOf(b), |b|) == b
  {
    if b != [] {
      var init, last := b[..|b| - 1], b[|b| - 1];
      DigitsUnique(init);
      NumberOfByte(last);
      assert ValueOf(b) / 256 == ValueOf(init) && ValueOf(b) % 256 == last as nat;
    }
  }

  // The bytes put out for a word are its big-endian digits.
  lemma BytesAreBigEndian(x: Word)
    ensures BytesOf(x) == BigEndian(x as nat, 4)
  {
    BytesGiveWord(x);
    WordIsValue(BytesOf(x));
    DigitsUnique(BytesOf(x));
  }

  // A word read from the digits of a number is that number.
  lemma WordOfBigEndian(n: nat)
    requires n < WORD_LIMIT
    ensures WordOf(BigEndian(n, 4)) as nat == n
  {
    Pow256Values();
    BigEndianValue(n, 4);
    WordIsValue(BigEndian(n, 4));
  }

  lemma QuotientIs(n: nat, d: nat, q: nat, rest: nat)
    requires d > 0 && n == d * q + rest && rest < d
    ensures n / d == q && n % d == rest
  {
    if n / d > q {
      SmallerTimes(d, q, n / d);
    } else if n / d < q {
      SmallerTimes(d, n / d, q);
    }
  }

  lemma SmallerTimes(d: nat, p: nat, q: nat)
    requires p < q
    ensures d * p + d <= d * q
  {
    assert d * (p + 1) <= d * q;
  }

  // ----- rotations: what leaves at the top comes in at the bottom -----

  lemma RotL5Value(x: Word)
    ensures RotL5(x) as nat == x as nat * 0x20 % WORD_LIMIT + x as nat / 0x800_0000
  {
    var hi, lo := Parts5(x);
    Halves5(hi, lo);
    Whole5(x, hi, lo);
    Swapped5(RotL5(x), hi, lo);
    Turned(x as nat, hi as nat, lo as nat, 0x20, 0x800_0000);
  }

  lemma Parts5(x: Word) returns (hi: bv5, lo: bv27)
    ensures x == (hi as Word << 27) | lo as Word
    ensures (x << 5) | (x >> 27) == (lo as Word << 5) | hi as Word
  {
    Split5(x);
    Turn5(x);
    hi, lo := (x >> 27) as bv5, (x & 0x7ff_ffff) as bv27;
  }

  lemma Split5(x: Word)
    ensures x == (((x >> 27) as bv5 as Word) << 27) | ((x & 0x7ff_ffff) as bv27 as Word)
  {
  }

  lemma Turn5(x: Word)
    ensures (x << 5) | (x >> 27) == (((x & 0x7ff_ffff) as bv27 as Word) << 5) | ((x >> 27) as bv5 as Word)
  {
  }

  lemma Halves5(hi: bv5, lo: bv27)
    ensures hi as nat < 0x20 && lo as nat < 0x800_0000
    ensures ((hi as Word << 27) | lo as Word) as nat == hi as nat * 0x800_0000 + lo as nat
    ensures ((lo as Word << 5) | hi as Word) as nat == lo as nat * 0x20 + hi as nat
  {
  }

  lemma Whole5(x: Word, hi: bv5, lo: bv27)
    requires x == (hi as Word << 27) | lo as Word
    ensures x as nat == hi as nat * 0x800_0000 + lo as nat
  {
    Halves5(hi, lo);
  }

  lemma Swapped5(y: Word, hi: bv5, lo: bv27)
    requires y == (lo as Word << 5) | hi as Word
    ensures y as nat == lo as nat * 0x20 + hi as nat
  {
    Halves5(hi, lo);
  }

  lemma RotL1Value(x: Word)
    ensures RotL1(x) as nat == x as nat * 2 % WORD_LIMIT + x as nat / 0x8000_0000
  {
    var hi, lo := Parts1(x);
    Halves1(hi, lo);
    Whole1(x, hi, lo);
    Swapped1(RotL1(x), hi, lo);
    Turned(x as nat, hi as nat, lo as nat, 2, 0x8000_0000);
  }

  lemma Parts1(x: Word) returns (hi: bv1, lo: bv31)
    ensures x == (hi as Word << 31) | lo as Word
    ensures (x << 1) | (x >> 31) == (lo as Word << 1) | hi as Word
  {
    Split1(x);
    Turn1(x);
    hi, lo := (x >> 31) as bv1, (x & 0x7fff_ffff) as bv31;
  }

  lemma Split1(x: Word)
    ensures x == (((x >> 31) as bv1 as Word) << 31) | ((x & 0x7fff_ffff) as bv31 as Word)
  {
  }

  lemma Turn1(x: Word)
    ensures (x << 1) | (x >> 31) == (((x & 0x7fff_ffff) as bv31 as Word) << 1) | ((x >> 31) as bv1 as Word)
  {
  }

  lemma Halves1(hi: bv1, lo: bv31)
    ensures hi as nat < 2 && lo as nat < 0x8000_0000
    ensures ((hi as Word << 31) | lo as Word) as nat == hi as nat * 0x8000_0000 + lo as nat
    ensures ((lo as Word << 1) | hi as Word) as nat == lo as nat * 2 + hi as nat
  {
  }

  lemma Whole1(x: Word, hi: bv1, lo: bv31)
    requires x == (hi as Word << 31) | lo as Word
    ensures x as nat == hi as nat * 0x8000_0000 + lo as nat
  {
    Halves1(hi, lo);
  }

  lemma Swapped1(y: Word, hi: bv1, lo: bv31)
    requires y == (lo as Word << 1) | hi as Word
    ensures y as nat == lo as nat * 2 + hi as nat
  {
    Halves1(hi, lo);
  }

  lemma RotL30Value(x: Word)
    ensures RotL30(x) as nat == x as nat * 0x4000_0000 % WORD_LIMIT + x as nat / 4
  {
    var hi, lo := Parts30(x);
    Halves30(hi, lo);
    Whole30(x, hi, lo);
    Swapped30(RotL30(x), hi, lo);
    Turned(x as nat, hi as nat, lo as nat, 0x4000_0000, 4);
  }

  lemma Parts30(x: Word) returns (hi: bv30, lo: bv2)
    ensures x == (hi as Word << 2) | lo as Word
    ensures (x << 30) | (x >> 2) == (lo as Word << 30) | hi as Word
  {
    Split30(x);
    Turn30(x);
    hi, lo := (x >> 2) as bv30, (x & 3) as bv2;
  }

  lemma Split30(x: Word)
    ensures x == (((x >> 2) as bv30 as Word) << 2) | ((x & 3) as bv2 as Word)
  {
  }

  lemma Turn30(x: Word)
    ensures (x << 30) | (x >> 2) == (((x & 3) as bv2 as Word) << 30) | ((x >> 2) as bv30 as Word)
  {
  }

  lemma Halves30(hi: bv30, lo: bv2)
    ensures hi as nat < 0x4000_0000 && lo as nat < 4
    ensures ((hi as Word << 2) | lo as Word) as nat == hi as nat * 4 + lo as nat
    ensures ((lo as Word << 30) | hi as Word) as nat == lo as nat * 0x4000_0000 + hi as nat
  {
  }

  lemma Whole30(x: Word, hi: bv30, lo: bv2)
    requires x == (hi as Word << 2) | lo as Word
    ensures x as nat == hi as nat * 4 + lo as nat
  {
    Halves30(hi, lo);
  }

  lemma Swapped30(y: Word, hi: bv30, lo: bv2)
    requires y == (lo as Word << 30) | hi as Word
    ensures y as nat == lo as nat * 0x4000_0000 + hi as nat
  {
    Halves30(hi, lo);
  }

  // Multiplying by `up` pushes the high part out.
  lemma Turned(x: nat, hi: nat, lo: nat, up: nat, down: nat)
    requires up > 0 && down > 0 && up * down == WORD_LIMIT
    requires x == hi * down + lo && lo < down && hi < up
    ensures x / down == hi && x * up % WORD_LIMIT == lo * up
  {
    QuotientIs(x, down, hi, lo);
    Spread(hi, down, lo, up);
    SmallerTimes(up, lo, down);
    QuotientIs(x * up, WORD_LIMIT, hi, lo * up);
  }

  lemma Spread(hi: nat, down: nat, lo: nat, up: nat)
    ensures (hi * down + lo) * up == (up * down) * hi + lo * up
  {
    assert (hi * down) * up == (up * down) * hi;
  }
}
