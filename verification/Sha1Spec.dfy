/** SHA-1 as FIPS 180-4 defines it: the functions and constants of sections 4.1.1
    and 4.2.1, the padding of section 5.1.1 and the computation of section 6.1.2. */
module Sha1Spec {
  import opened Sequences

  type Byte = bv8
  type Word = bv32

  // The five working variables, or a hash value.
  datatype Vars = Vars(a: Word, b: Word, c: Word, d: Word, e: Word)

  function RotL1(x: Word): Word { (x << 1) | (x >> 31) }
  function RotL5(x: Word): Word { (x << 5) | (x >> 27) }
  function RotL30(x: Word): Word { (x << 30) | (x >> 2) }

  function Ch(x: Word, y: Word, z: Word): Word { (x & y) ^ (!x & z) }
  function Parity(x: Word, y: Word, z: Word): Word { x ^ y ^ z }
  function Maj(x: Word, y: Word, z: Word): Word { (x & y) ^ (x & z) ^ (y & z) }

  function F(t: nat, x: Word, y: Word, z: Word): Word {
    if t < 20 then Ch(x, y, z)
    else if t < 40 then Parity(x, y, z)
    else if t < 60 then Maj(x, y, z)
    else Parity(x, y, z)
  }

  function K(t: nat): Word {
    if t < 20 then 0x5a827999
    else if t < 40 then 0x6ed9eba1
    else if t < 60 then 0x8f1bbcdc
    else 0xca62c1d6
  }

  const INITIAL_HASH := Vars(0x67452301, 0xefcdab89, 0x98badcfe, 0x10325476, 0xc3d2e1f0)

  // Step 1: the message schedule of a block of 16 words.
  function ScheduleWord(w: seq<Word>, t: nat): Word
    requires 16 <= t <= |w|
  {
    Mix(w[t - 3], w[t - 8], w[t - 14], w[t - 16])
  }

  function Mix(x3: Word, x8: Word, x14: Word, x16: Word): Word {
    RotL1(x3 ^ x8 ^ x14 ^ x16)
  }

  // The first words are the block itself; words are appended up to the 80th.
  function Schedule(w: seq<Word>): (s: seq<Word>)
    requires 16 <= |w| <= 80
    ensures |s| == 80 && w <= s
    decreases 80 - |w|
  {
    if |w| == 80 then w else Schedule(w + [ScheduleWord(w, |w|)])
  }

  // Step 3: one round.
  function Round(v: Vars, t: nat, w: Word): Vars {
    Vars(Sum(RotL5(v.a), F(t, v.b, v.c, v.d), v.e, K(t), w), v.a, RotL30(v.b), v.c, v.d)
  }

  function Sum(rotated: Word, f: Word, e: Word, k: Word, w: Word): Word {
    rotated + f + e + k + w
  }

  // The working variables before each round and after the last, given the first ones.
  function Trace(tr: seq<Vars>, w: seq<Word>): (s: seq<Vars>)
    requires 1 <= |tr| <= |w| + 1
    ensures |s| == |w| + 1 && tr <= s
    decreases |w| + 1 - |tr|
  {
    if |tr| == |w| + 1 then tr
    else Trace(tr + [Round(tr[|tr| - 1], |tr| - 1, w[|tr| - 1])], w)
  }

  // Steps 2 to 4: the next hash value.
  function Compress(h: Vars, block: seq<Word>): Vars
    requires |block| == 16
  {
    var v := Trace([h], Schedule(block))[80];
    Vars(Add(h.a, v.a), Add(h.b, v.b), Add(h.c, v.c), Add(h.d, v.d), Add(h.e, v.e))
  }

  // Addition modulo 2^32.
  function Add(x: Word, y: Word): Word { x + y }

  // ----- bytes -----

  function WordOf(b: seq<Byte>): Word
    requires |b| == 4
  {
    (b[0] as Word << 24) | (b[1] as Word << 16) | (b[2] as Word << 8) | b[3] as Word
  }

  function BytesOf(x: Word): (b: seq<Byte>)
    ensures |b| == 4
  {
    [(x >> 24) as Byte, ((x >> 16) & 0xff) as Byte, ((x >> 8) & 0xff) as Byte, (x & 0xff) as Byte]
  }

  function BlockOf(b: seq<Byte>): (block: seq<Word>)
    requires |b| == 64
    ensures |block| == 16
  {
    seq(16, i requires 0 <= i < 16 => WordOf(b[4 * i..4 * i + 4]))
  }

  // The hash value after all blocks of a message of full blocks.
  function Fold(m: seq<Byte>): Vars
    requires |m| % 64 == 0
  {
    if m == [] then INITIAL_HASH
    else Compress(Fold(m[..|m| - 64]), BlockOf(m[|m| - 64..]))
  }

  // Big-endian representation of a number below 256^k.
  function BigEndian(n: nat, k: nat): (b: seq<Byte>)
    ensures |b| == k
  {
    if k == 0 then [] else BigEndian(n / 256, k - 1) + [(n % 256) as Byte]
  }

  // k zero bytes complete a message of `length` bytes and the byte 0x80 to 8
  // bytes short of a full block; the smallest such k is the standard's.
  predicate Completes(length: nat, k: nat) {
    (length + 1 + k) % 64 == 56
  }

  function ZeroCount(length: nat): (k: nat)
    ensures Completes(length, k) && forall j: nat :: j < k ==> !Completes(length, j)
  {
    var k := (55 - length) % 64;
    assert length % 64 + k == 55 || length % 64 + k == 119;
    k
  }

  function Pad(m: seq<Byte>): (p: seq<Byte>)
    ensures |p| % 64 == 0
  {
    m + [0x80] + Repeat(0, ZeroCount(|m|)) + BigEndian(8 * |m|, 8)
  }

  function DigestOf(v: Vars): (d: seq<Byte>)
    ensures |d| == 20
  {
    BytesOf(v.a) + BytesOf(v.b) + BytesOf(v.c) + BytesOf(v.d) + BytesOf(v.e)
  }

  const MAX_LENGTH := 0x2000_0000_0000_0000  // 2^61 bytes, 2^64 bits

  function Sha1(m: seq<Byte>): (d: seq<Byte>)
    requires |m| < MAX_LENGTH
    ensures |d| == 20
  {
    DigestOf(Fold(Pad(m)))
  }

  // ----- facts about schedule and trace -----

  lemma ScheduleWordExtend(w: seq<Word>, s: seq<Word>, t: nat)
    requires 16 <= t <= |w| && w <= s
    ensures ScheduleWord(s, t) == ScheduleWord(w, t)
  {
    assert s[t - 3] == w[t - 3] && s[t - 8] == w[t - 8] && s[t - 14] == w[t - 14] && s[t - 16] == w[t - 16];
  }

  // Every appended word is the one the standard asks for.
  lemma {:induction false} ScheduleAt(w: seq<Word>, t: nat)
    requires 16 <= |w| <= t < 80
    ensures Schedule(w)[t] == ScheduleWord(Schedule(w), t)
    decreases 80 - |w|
  {
    var next := w + [ScheduleWord(w, |w|)];
    if t == |w| {
      assert next[t] == Schedule(next)[t];
      ScheduleWordExtend(w, Schedule(next), t);
    } else {
      ScheduleAt(next, t);
    }
  }

  lemma {:induction false} TraceAt(tr: seq<Vars>, w: seq<Word>, t: nat)
    requires 1 <= |tr| <= t + 1 <= |w|
    ensures Trace(tr, w)[t + 1] == Round(Trace(tr, w)[t], t, w[t])
    decreases |w| - |tr|
  {
    var next := tr + [Round(tr[|tr| - 1], |tr| - 1, w[|tr| - 1])];
    if t + 1 == |tr| {
      assert next[t] == Trace(next, w)[t] && next[t + 1] == Trace(next, w)[t + 1];
    } else {
      TraceAt(next, w, t);
    }
  }
}
