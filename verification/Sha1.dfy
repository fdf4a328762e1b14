/** The SHA-1 routine: one block in 80 unrolled rounds over a circular buffer of
    16 words, and a context that takes a message in pieces. */
module Sha1 {
  import opened Powers
  import opened Sequences
  import opened Sha1Spec

  // ----- the round functions as they are written here -----

  lemma ChoiceIsCh(b: Word, c: Word, d: Word)
    ensures ((c ^ d) & b) ^ d == Ch(b, c, d)
  {
  }

  lemma SumIsMaj(b: Word, c: Word, d: Word)
    ensures (b & c) + (d & (b ^ c)) == Maj(b, c, d)
  {
    assert (b & c) & (d & (b ^ c)) == 0;
  }

  // ----- what is true between two rounds -----

  ghost predicate RoundAt(tr: seq<Vars>, w: seq<Word>, t: nat)
    requires t < 80 == |w| && |tr| == 81
  {
    tr[t + 1] == Round(tr[t], t, w[t])
  }

  ghost predicate ScheduledAt(w: seq<Word>, t: nat)
    requires 16 <= t < 80 == |w|
  {
    w[t] == ScheduleWord(w, t)
  }

  // The circular buffer holds the last 16 words of the schedule before word t.
  ghost predicate Window(buffer: seq<Word>, w: seq<Word>, t: nat)
    requires t <= 80 == |w|
  {
    |buffer| == 16 && forall i :: 0 <= i < t && t - 16 <= i ==> buffer[i % 16] == w[i]
  }

  ghost predicate Running(buffer: seq<Word>, w: seq<Word>, tr: seq<Vars>, t: nat) {
    && t <= 80 == |w| && |tr| == 81
    && Computed(w, tr, |w|)
    && Window(buffer, w, t)
  }

  // The first n words are scheduled and the first n rounds traced as the standard says.
  ghost predicate Computed(w: seq<Word>, tr: seq<Vars>, n: nat)
    requires n <= 80 == |w| && |tr| == 81
  {
    n > 0 ==> Computed(w, tr, n - 1) && RoundAt(tr, w, n - 1) && (n > 16 ==> ScheduledAt(w, n - 1))
  }

  lemma {:induction false} ComputedAt(w: seq<Word>, tr: seq<Vars>, n: nat, t: nat)
    requires t < n <= 80 == |w| && |tr| == 81 && Computed(w, tr, n)
    ensures RoundAt(tr, w, t) && (t >= 16 ==> ScheduledAt(w, t))
  {
    if t < n - 1 {
      ComputedAt(w, tr, n - 1, t);
    }
  }

  lemma WindowMoves(buffer: seq<Word>, w: seq<Word>, t: nat)
    requires t < 80 == |w| && Window(buffer, w, t)
    ensures Window(buffer[t % 16 := w[t]], w, t + 1)
  {
    forall i | 0 <= i <= t && t + 1 - 16 <= i
      ensures buffer[t % 16 := w[t]][i % 16] == w[i]
    {
      if i < t {
        assert i % 16 != t % 16;
      }
    }
  }

  // The words that the buffer is mixed from are those of the schedule.
  lemma MixIsSchedule(buffer: seq<Word>, w: seq<Word>, tr: seq<Vars>, t: nat)
    requires 16 <= t < 80 && Running(buffer, w, tr, t)
    ensures Mix(buffer[(t + 13) % 16], buffer[(t + 8) % 16], buffer[(t + 2) % 16], buffer[t % 16]) == w[t]
  {
    ComputedAt(w, tr, |w|, t);
    assert (t + 13) % 16 == (t - 3) % 16 && (t + 8) % 16 == (t - 8) % 16;
    assert (t + 2) % 16 == (t - 14) % 16 && t % 16 == (t - 16) % 16;
    assert buffer[(t - 3) % 16] == w[t - 3] && buffer[(t - 8) % 16] == w[t - 8];
    assert buffer[(t - 14) % 16] == w[t - 14] && buffer[(t - 16) % 16] == w[t - 16];
  }

  lemma RoundIs(tr: seq<Vars>, w: seq<Word>, t: nat, A: Word, B: Word, C: Word, D: Word, E: Word, fn: Word)
    requires |w| == 80 && |tr| == 81 && t < 80 && Computed(w, tr, |w|)
    requires tr[t] == Vars(A, B, C, D, E) && fn == F(t, B, C, D)
    ensures tr[t + 1] == Vars(Updated(E, w[t], RotL5(A), fn, K(t)), A, RotL30(B), C, D)
  {
    ComputedAt(w, tr, |w|, t);
    SumOrder(RotL5(A), fn, E, K(t), w[t]);
  }

  // E += TEMP + ROL(A, 5) + fn + constant
  function Updated(E: Word, temp: Word, rotated: Word, fn: Word, constant: Word): Word {
    E + (temp + rotated + fn + constant)
  }

  lemma SumOrder(rotated: Word, f: Word, e: Word, k: Word, w: Word)
    ensures Updated(e, w, rotated, f, k) == Sum(rotated, f, e, k, w)
  {
  }

  // SHA_ROUND: stores the schedule word and updates the two registers that change.
  method ShaRound(ring: array<Word>, t: nat, temp: Word, fn: Word, constant: Word, A: Word, B: Word, E: Word)
    returns (B': Word, E': Word)
    requires ring.Length == 16
    modifies ring
    ensures ring[..] == old(ring[..])[t % 16 := temp]
    ensures E' == Updated(E, temp, RotL5(A), fn, constant) && B' == RotL30(B)
  {
    ring[t % 16] := temp;
    E' := Updated(E, temp, RotL5(A), fn, constant);
    B' := RotL30(B);
  }

  method T_0_15(ring: array<Word>, data: seq<Byte>, t: nat, A: Word, B: Word, C: Word, D: Word, E: Word,
        ghost w: seq<Word>, ghost tr: seq<Vars>)
    returns (B': Word, E': Word)
    requires 0 <= t <= 15 && Running(ring[..], w, tr, t) && tr[t] == Vars(A, B, C, D, E)
    requires |data| == 64 && w[..16] == BlockOf(data)
    modifies ring
    ensures Running(ring[..], w, tr, t + 1) && tr[t + 1] == Vars(E', A, B', C, D)
  {
    var temp := WordOf(data[4 * t..4 * t + 4]);
    assert temp == w[t];
    ChoiceIsCh(B, C, D);
    RoundIs(tr, w, t, A, B, C, D, E, ((C ^ D) & B) ^ D);
    B', E' := ShaRound(ring, t, temp, ((C ^ D) & B) ^ D, 0x5a827999, A, B, E);
    WindowMoves(old(ring[..]), w, t);
  }

  method T_16_19(ring: array<Word>, t: nat, A: Word, B: Word, C: Word, D: Word, E: Word,
        ghost w: seq<Word>, ghost tr: seq<Vars>)
    returns (B': Word, E': Word)
    requires 16 <= t <= 19 && Running(ring[..], w, tr, t) && tr[t] == Vars(A, B, C, D, E)
    modifies ring
    ensures Running(ring[..], w, tr, t + 1) && tr[t + 1] == Vars(E', A, B', C, D)
  {
    var temp := Mix(ring[(t + 13) % 16], ring[(t + 8) % 16], ring[(t + 2) % 16], ring[t % 16]);
    MixIsSchedule(ring[..], w, tr, t);
    ChoiceIsCh(B, C, D);
    RoundIs(tr, w, t, A, B, C, D, E, ((C ^ D) & B) ^ D);
    B', E' := ShaRound(ring, t, temp, ((C ^ D) & B) ^ D, 0x5a827999, A, B, E);
    WindowMoves(old(ring[..]), w, t);
  }

  method T_20_39(ring: array<Word>, t: nat, A: Word, B: Word, C: Word, D: Word, E: Word,
        ghost w: seq<Word>, ghost tr: seq<Vars>)
    returns (B': Word, E': Word)
    requires 20 <= t <= 39 && Running(ring[..], w, tr, t) && tr[t] == Vars(A, B, C, D, E)
    modifies ring
    ensures Running(ring[..], w, tr, t + 1) && tr[t + 1] == Vars(E', A, B', C, D)
  {
    var temp := Mix(ring[(t + 13) % 16], ring[(t + 8) % 16], ring[(t + 2) % 16], ring[t % 16]);
    MixIsSchedule(ring[..], w, tr, t);
    RoundIs(tr, w, t, A, B, C, D, E, B ^ C ^ D);
    B', E' := ShaRound(ring, t, temp, B ^ C ^ D, 0x6ed9eba1, A, B, E);
    WindowMoves(old(ring[..]), w, t);
  }

  method T_40_59(ring: array<Word>, t: nat, A: Word, B: Word, C: Word, D: Word, E: Word,
        ghost w: seq<Word>, ghost tr: seq<Vars>)
    returns (B': Word, E': Word)
    requires 40 <= t <= 59 && Running(ring[..], w, tr, t) && tr[t] == Vars(A, B, C, D, E)
    modifies ring
    ensures Running(ring[..], w, tr, t + 1) && tr[t + 1] == Vars(E', A, B', C, D)
  {
    var temp := Mix(ring[(t + 13) % 16], ring[(t + 8) % 16], ring[(t + 2) % 16], ring[t % 16]);
    MixIsSchedule(ring[..], w, tr, t);
    SumIsMaj(B, C, D);
    RoundIs(tr, w, t, A, B, C, D, E, (B & C) + (D & (B ^ C)));
    B', E' := ShaRound(ring, t, temp, (B & C) + (D & (B ^ C)), 0x8f1bbcdc, A, B, E);
    WindowMoves(old(ring[..]), w, t);
  }

  method T_60_79(ring: array<Word>, t: nat, A: Word, B: Word, C: Word, D: Word, E: Word,
        ghost w: seq<Word>, ghost tr: seq<Vars>)
    returns (B': Word, E': Word)
    requires 60 <= t <= 79 && Running(ring[..], w, tr, t) && tr[t] == Vars(A, B, C, D, E)
    modifies ring
    ensures Running(ring[..], w, tr, t + 1) && tr[t + 1] == Vars(E', A, B', C, D)
  {
    var temp := Mix(ring[(t + 13) % 16], ring[(t + 8) % 16], ring[(t + 2) % 16], ring[t % 16]);
    MixIsSchedule(ring[..], w, tr, t);
    RoundIs(tr, w, t, A, B, C, D, E, B ^ C ^ D);
    B', E' := ShaRound(ring, t, temp, B ^ C ^ D, 0xca62c1d6, A, B, E);
    WindowMoves(old(ring[..]), w, t);
  }

  // Round 1; the first 16 words come from the data.
  method Rounds0To9(ring: array<Word>, data: seq<Byte>, a: Word, b: Word, c: Word, d: Word, e: Word,
        ghost w: seq<Word>, ghost tr: seq<Vars>)
    returns (A: Word, B: Word, C: Word, D: Word, E: Word)
    requires Running(ring[..], w, tr, 0) && tr[0] == Vars(a, b, c, d, e)
    requires |data| == 64 && w[..16] == BlockOf(data)
    modifies ring
    ensures Running(ring[..], w, tr, 10) && tr[10] == Vars(A, B, C, D, E)
  {
    A, B, C, D, E := a, b, c, d, e;
    B, E := T_0_15(ring, data, 0, A, B, C, D, E, w, tr);
    A, D := T_0_15(ring, data, 1, E, A, B, C, D, w, tr);
    E, C := T_0_15(ring, data, 2, D, E, A, B, C, w, tr);
    D, B := T_0_15(ring, data, 3, C, D, E, A, B, w, tr);
    C, A := T_0_15(ring, data, 4, B, C, D, E, A, w, tr);
    B, E := T_0_15(ring, data, 5, A, B, C, D, E, w, tr);
    A, D := T_0_15(ring, data, 6, E, A, B, C, D, w, tr);
    E, C := T_0_15(ring, data, 7, D, E, A, B, C, w, tr);
    D, B := T_0_15(ring, data, 8, C, D, E, A, B, w, tr);
    C, A := T_0_15(ring, data, 9, B, C, D, E, A, w, tr);
  }

  method Rounds10To19(ring: array<Word>, data: seq<Byte>, a: Word, b: Word, c: Word, d: Word, e: Word,
        ghost w: seq<Word>, ghost tr: seq<Vars>)
    returns (A: Word, B: Word, C: Word, D: Word, E: Word)
    requires Running(ring[..], w, tr, 10) && tr[10] == Vars(a, b, c, d, e)
    requires |data| == 64 && w[..16] == BlockOf(data)
    modifies ring
    ensures Running(ring[..], w, tr, 20) && tr[20] == Vars(A, B, C, D, E)
  {
    A, B, C, D, E := a, b, c, d, e;
    B, E := T_0_15(ring, data, 10, A, B, C, D, E, w, tr);
    A, D := T_0_15(ring, data, 11, E, A, B, C, D, w, tr);
    E, C := T_0_15(ring, data, 12, D, E, A, B, C, w, tr);
    D, B := T_0_15(ring, data, 13, C, D, E, A, B, w, tr);
    C, A := T_0_15(ring, data, 14, B, C, D, E, A, w, tr);
    B, E := T_0_15(ring, data, 15, A, B, C, D, E, w, tr);
    A, D := T_16_19(ring, 16, E, A, B, C, D, w, tr);
    E, C := T_16_19(ring, 17, D, E, A, B, C, w, tr);
    D, B := T_16_19(ring, 18, C, D, E, A, B, w, tr);
    C, A := T_16_19(ring, 19, B, C, D, E, A, w, tr);
  }

  // Round 2.
  method Rounds20To29(ring: array<Word>, a: Word, b: Word, c: Word, d: Word, e: Word,
        ghost w: seq<Word>, ghost tr: seq<Vars>)
    returns (A: Word, B: Word, C: Word, D: Word, E: Word)
    requires Running(ring[..], w, tr, 20) && tr[20] == Vars(a, b, c, d, e)
    modifies ring
    ensures Running(ring[..], w, tr, 30) && tr[30] == Vars(A, B, C, D, E)
  {
    A, B, C, D, E := a, b, c, d, e;
    B, E := T_20_39(ring, 20, A, B, C, D, E, w, tr);
    A, D := T_20_39(ring, 21, E, A, B, C, D, w, tr);
    E, C := T_20_39(ring, 22, D, E, A, B, C, w, tr);
    D, B := T_20_39(ring, 23, C, D, E, A, B, w, tr);
    C, A := T_20_39(ring, 24, B, C, D, E, A, w, tr);
    B, E := T_20_39(ring, 25, A, B, C, D, E, w, tr);
    A, D := T_20_39(ring, 26, E, A, B, C, D, w, tr);
    E, C := T_20_39(ring, 27, D, E, A, B, C, w, tr);
    D, B := T_20_39(ring, 28, C, D, E, A, B, w, tr);
    C, A := T_20_39(ring, 29, B, C, D, E, A, w, tr);
  }

  method Rounds30To39(ring: array<Word>, a: Word, b: Word, c: Word, d: Word, e: Word,
        ghost w: seq<Word>, ghost tr: seq<Vars>)
    returns (A: Word, B: Word, C: Word, D: Word, E: Word)
    requires Running(ring[..], w, tr, 30) && tr[30] == Vars(a, b, c, d, e)
    modifies ring
    ensures Running(ring[..], w, tr, 40) && tr[40] == Vars(A, B, C, D, E)
  {
    A, B, C, D, E := a, b, c, d, e;
    B, E := T_20_39(ring, 30, A, B, C, D, E, w, tr);
    A, D := T_20_39(ring, 31, E, A, B, C, D, w, tr);
    E, C := T_20_39(ring, 32, D, E, A, B, C, w, tr);
    D, B := T_20_39(ring, 33, C, D, E, A, B, w, tr);
    C, A := T_20_39(ring, 34, B, C, D, E, A, w, tr);
    B, E := T_20_39(ring, 35, A, B, C, D, E, w, tr);
    A, D := T_20_39(ring, 36, E, A, B, C, D, w, tr);
    E, C := T_20_39(ring, 37, D, E, A, B, C, w, tr);
    D, B := T_20_39(ring, 38, C, D, E, A, B, w, tr);
    C, A := T_20_39(ring, 39, B, C, D, E, A, w, tr);
  }

  // Round 3.
  method Rounds40To49(ring: array<Word>, a: Word, b: Word, c: Word, d: Word, e: Word,
        ghost w: seq<Word>, ghost tr: seq<Vars>)
    returns (A: Word, B: Word, C: Word, D: Word, E: Word)
    requires Running(ring[..], w, tr, 40) && tr[40] == Vars(a, b, c, d, e)
    modifies ring
    ensures Running(ring[..], w, tr, 50) && tr[50] == Vars(A, B, C, D, E)
  {
    A, B, C, D, E := a, b, c, d, e;
    B, E := T_40_59(ring, 40, A, B, C, D, E, w, tr);
    A, D := T_40_59(ring, 41, E, A, B, C, D, w, tr);
    E, C := T_40_59(ring, 42, D, E, A, B, C, w, tr);
    D, B := T_40_59(ring, 43, C, D, E, A, B, w, tr);
    C, A := T_40_59(ring, 44, B, C, D, E, A, w, tr);
    B, E := T_40_59(ring, 45, A, B, C, D, E, w, tr);
    A, D := T_40_59(ring, 46, E, A, B, C, D, w, tr);
    E, C := T_40_59(ring, 47, D, E, A, B, C, w, tr);
    D, B := T_40_59(ring, 48, C, D, E, A, B, w, tr);
    C, A := T_40_59(ring, 49, B, C, D, E, A, w, tr);
  }

  method Rounds50To59(ring: array<Word>, a: Word, b: Word, c: Word, d: Word, e: Word,
        ghost w: seq<Word>, ghost tr: seq<Vars>)
    returns (A: Word, B: Word, C: Word, D: Word, E: Word)
    requires Running(ring[..], w, tr, 50) && tr[50] == Vars(a, b, c, d, e)
    modifies ring
    ensures Running(ring[..], w, tr, 60) && tr[60] == Vars(A, B, C, D, E)
  {
    A, B, C, D, E := a, b, c, d, e;
    B, E := T_40_59(ring, 50, A, B, C, D, E, w, tr);
    A, D := T_40_59(ring, 51, E, A, B, C, D, w, tr);
    E, C := T_40_59(ring, 52, D, E, A, B, C, w, tr);
    D, B := T_40_59(ring, 53, C, D, E, A, B, w, tr);
    C, A := T_40_59(ring, 54, B, C, D, E, A, w, tr);
    B, E := T_40_59(ring, 55, A, B, C, D, E, w, tr);
    A, D := T_40_59(ring, 56, E, A, B, C, D, w, tr);
    E, C := T_40_59(ring, 57, D, E, A, B, C, w, tr);
    D, B := T_40_59(ring, 58, C, D, E, A, B, w, tr);
    C, A := T_40_59(ring, 59, B, C, D, E, A, w, tr);
  }

  // Round 4.
  method Rounds60To69(ring: array<Word>, a: Word, b: Word, c: Word, d: Word, e: Word,
        ghost w: seq<Word>, ghost tr: seq<Vars>)
    returns (A: Word, B: Word, C: Word, D: Word, E: Word)
    requires Running(ring[..], w, tr, 60) && tr[60] == Vars(a, b, c, d, e)
    modifies ring
    ensures Running(ring[..], w, tr, 70) && tr[70] == Vars(A, B, C, D, E)
  {
    A, B, C, D, E := a, b, c, d, e;
    B, E := T_60_79(ring, 60, A, B, C, D, E, w, tr);
    A, D := T_60_79(ring, 61, E, A, B, C, D, w, tr);
    E, C := T_60_79(ring, 62, D, E, A, B, C, w, tr);
    D, B := T_60_79(ring, 63, C, D, E, A, B, w, tr);
    C, A := T_60_79(ring, 64, B, C, D, E, A, w, tr);
    B, E := T_60_79(ring, 65, A, B, C, D, E, w, tr);
    A, D := T_60_79(ring, 66, E, A, B, C, D, w, tr);
    E, C := T_60_79(ring, 67, D, E, A, B, C, w, tr);
    D, B := T_60_79(ring, 68, C, D, E, A, B, w, tr);
    C, A := T_60_79(ring, 69, B, C, D, E, A, w, tr);
  }

  method Rounds70To79(ring: array<Word>, a: Word, b: Word, c: Word, d: Word, e: Word,
        ghost w: seq<Word>, ghost tr: seq<Vars>)
    returns (A: Word, B: Word, C: Word, D: Word, E: Word)
    requires Running(ring[..], w, tr, 70) && tr[70] == Vars(a, b, c, d, e)
    modifies ring
    ensures Running(ring[..], w, tr, 80) && tr[80] == Vars(A, B, C, D, E)
  {
    A, B, C, D, E := a, b, c, d, e;
    B, E := T_60_79(ring, 70, A, B, C, D, E, w, tr);
    A, D := T_60_79(ring, 71, E, A, B, C, D, w, tr);
    E, C := T_60_79(ring, 72, D, E, A, B, C, w, tr);
    D, B := T_60_79(ring, 73, C, D, E, A, B, w, tr);
    C, A := T_60_79(ring, 74, B, C, D, E, A, w, tr);
    B, E := T_60_79(ring, 75, A, B, C, D, E, w, tr);
    A, D := T_60_79(ring, 76, E, A, B, C, D, w, tr);
    E, C := T_60_79(ring, 77, D, E, A, B, C, w, tr);
    D, B := T_60_79(ring, 78, C, D, E, A, B, w, tr);
    C, A := T_60_79(ring, 79, B, C, D, E, A, w, tr);
  }

  // ----- the context -----

  function VarsOf(h: seq<Word>): Vars
    requires |h| == 5
  {
    Vars(h[0], h[1], h[2], h[3], h[4])
  }

  lemma {:induction false} TraceComputed(block: seq<Word>, h: Vars, n: nat)
    requires |block| == 16 && n <= 80
    ensures Computed(Schedule(block), Trace([h], Schedule(block)), n)
  {
    if n > 0 {
      TraceComputed(block, h, n - 1);
      TraceAt([h], Schedule(block), n - 1);
      if n > 16 {
        ScheduleAt(block, n - 1);
      }
    }
  }

  // The registers and rounds of one block: what is added to the hash value.
  method Block80(data: seq<Byte>, a: Word, b: Word, c: Word, d: Word, e: Word)
    returns (A: Word, B: Word, C: Word, D: Word, E: Word)
    requires |data| == 64
    ensures Vars(A, B, C, D, E) == Trace([Vars(a, b, c, d, e)], Schedule(BlockOf(data)))[80]
  {
    ghost var w := Schedule(BlockOf(data));
    ghost var tr := Trace([Vars(a, b, c, d, e)], w);
    TraceComputed(BlockOf(data), Vars(a, b, c, d, e), 80);
    var ring := new Word[16];
    A, B, C, D, E := Rounds0To9(ring, data, a, b, c, d, e, w, tr);
    A, B, C, D, E := Rounds10To19(ring, data, A, B, C, D, E, w, tr);
    A, B, C, D, E := Rounds20To29(ring, A, B, C, D, E, w, tr);
    A, B, C, D, E := Rounds30To39(ring, A, B, C, D, E, w, tr);
    A, B, C, D, E := Rounds40To49(ring, A, B, C, D, E, w, tr);
    A, B, C, D, E := Rounds50To59(ring, A, B, C, D, E, w, tr);
    A, B, C, D, E := Rounds60To69(ring, A, B, C, D, E, w, tr);
    A, B, C, D, E := Rounds70To79(ring, A, B, C, D, E, w, tr);
  }

  // How much of a message of n bytes fills blocks.
  function FullLength(n: nat): nat {
    n - n % 64
  }

  lemma FoldStep(m: seq<Byte>, block: seq<Byte>)
    requires |m| % 64 == 0 && |block| == 64
    ensures |m + block| % 64 == 0
    ensures Fold(m + block) == Compress(Fold(m), BlockOf(block))
  {
    hide Compress;
    var all := m + block;
    assert all[..|all| - 64] == m && all[|all| - 64..] == block;
  }

  // The state that a context is in after taking in `m`: all full blocks are
  // folded into the hash value, the buffer holds the rest.
  ghost predicate Absorbed(h: seq<Word>, buffer: seq<Byte>, m: seq<Byte>) {
    && |h| == 5 && |buffer| == 64
    && VarsOf(h) == Fold(m[..FullLength(|m|)])
    && buffer[..|m| % 64] == m[FullLength(|m|)..]
  }

  // Bytes that do not fill the buffer are only copied.
  lemma AbsorbedTail(h: seq<Word>, buffer: seq<Byte>, m: seq<Byte>, data: seq<Byte>, buffer': seq<Byte>)
    requires Absorbed(h, buffer, m) && |m| % 64 + |data| < 64
    requires |buffer'| == 64 && buffer'[..|m| % 64] == buffer[..|m| % 64]
    requires buffer'[|m| % 64..|m| % 64 + |data|] == data
    ensures Absorbed(h, buffer', m + data)
  {
    hide Compress;
    var n, k := FullLength(|m|), |m| % 64;
    assert FullLength(|m + data|) == n && |m + data| % 64 == k + |data|;
    assert (m + data)[..n] == m[..n];
    assert buffer'[..k + |data|] == buffer'[..k] + buffer'[k..k + |data|];
    assert (m + data)[n..] == m[n..] + data;
  }

  // A buffer filled up is the next block of the message.
  lemma AbsorbedFull(h: seq<Word>, buffer: seq<Byte>, m: seq<Byte>, data: seq<Byte>, buffer': seq<Byte>)
    requires Absorbed(h, buffer, m) && |m| % 64 + |data| == 64
    requires |buffer'| == 64 && buffer'[..|m| % 64] == buffer[..|m| % 64]
    requires buffer'[|m| % 64..] == data
    ensures |m + data| % 64 == 0
    ensures Fold(m + data) == Compress(VarsOf(h), BlockOf(buffer'))
  {
    hide Compress, BlockOf, VarsOf;
    var n, k := FullLength(|m|), |m| % 64;
    assert n % 64 == 0 && |m + data| == n + 64;
    assert buffer' == buffer'[..k] + buffer'[k..];
    assert m + data == m[..n] + buffer';
    FoldStep(m[..n], buffer');
  }

  lemma AbsorbedNothing(h: seq<Word>, buffer: seq<Byte>)
    requires |h| == 5 && |buffer| == 64 && VarsOf(h) == INITIAL_HASH
    ensures Absorbed(h, buffer, [])
  {
    hide Compress;
  }

  lemma AbsorbedWhole(h: seq<Word>, buffer: seq<Byte>, m: seq<Byte>)
    requires |h| == 5 && |buffer| == 64 && |m| % 64 == 0
    ensures Absorbed(h, buffer, m) <==> VarsOf(h) == Fold(m)
  {
    hide Compress, Fold, VarsOf;
    assert FullLength(|m|) == |m|;
    assert m[..|m|] == m && m[|m|..] == [] && buffer[..0] == [];
  }

  const SIZE_LIMIT := 0x1_0000_0000_0000_0000  // size is an unsigned 64-bit number

  lemma SizeWraps(size: nat, before: nat, more: nat)
    requires size == before % SIZE_LIMIT
    ensures size % 64 == before % 64
    ensures (size + more) % SIZE_LIMIT == (before + more) % SIZE_LIMIT
  {
    var turns := before / SIZE_LIMIT;
    assert before == turns * SIZE_LIMIT + size;
    WholeBlocks(turns, size);
    WholeTurns(turns, size + more);
  }

  lemma WholeBlocks(turns: nat, size: nat)
    ensures (turns * SIZE_LIMIT + size) % 64 == size % 64
  {
    assert turns * SIZE_LIMIT == 64 * (turns * 0x400_0000_0000_0000);
  }

  lemma {:induction false} WholeTurns(turns: nat, x: nat)
    ensures (turns * SIZE_LIMIT + x) % SIZE_LIMIT == x % SIZE_LIMIT
  {
    if turns > 0 {
      WholeTurns(turns - 1, x);
      assert turns * SIZE_LIMIT + x == ((turns - 1) * SIZE_LIMIT + x) + SIZE_LIMIT;
    }
  }

  class Context {
    var size: nat
    const H: array<Word>
    const W: array<Byte>
    ghost var message: seq<Byte>

    ghost predicate Valid()
      reads this, H, W
    {
      && H.Length == 5 && W.Length == 64
      && size == |message| % SIZE_LIMIT
      && Absorbed(H[..], W[..], message)
    }

    constructor ()
      ensures Valid() && fresh(H) && fresh(W) && message == []
    {
      hide Compress, Fold, Absorbed;
      size, message := 0, [];
      H := new Word[5];
      W := new Byte[64];
      new;
      H[0], H[1], H[2], H[3], H[4] := 0x67452301, 0xefcdab89, 0x98badcfe, 0x10325476, 0xc3d2e1f0;
      AbsorbedNothing(H[..], W[..]);
    }

    method Block(data: seq<Byte>)
      requires H.Length == 5 && |data| == 64
      modifies H
      ensures VarsOf(H[..]) == Compress(old(VarsOf(H[..])), BlockOf(data))
    {
      hide Trace, Schedule, Add, BlockOf;
      var A, B, C, D, E := Block80(data, H[0], H[1], H[2], H[3], H[4]);
      H[0] := Add(H[0], A);
      H[1] := Add(H[1], B);
      H[2] := Add(H[2], C);
      H[3] := Add(H[3], D);
      H[4] := Add(H[4], E);
    }

    method Copy(offset: nat, data: seq<Byte>)
      requires offset + |data| <= W.Length
      modifies W
      ensures W[..offset] == old(W[..offset])
      ensures W[offset..offset + |data|] == data
    {
      forall k | 0 <= k < |data| {
        W[offset + k] := data[k];
      }
    }

    method Update(data: seq<Byte>)
      requires Valid()
      modifies this, H, W
      ensures Valid() && message == old(message) + data
    {
      hide Compress, BlockOf, Fold, Absorbed;
      var lenW := size % 64;
      ghost var m := message;
      SizeWraps(size, |m|, |data|);
      size := (size + |data|) % SIZE_LIMIT;
      message := m + data;
      if lenW != 0 {
        var left, done := Fill(m, lenW, data);
        if !done {
          Rest(m, data, left);
        }
      } else {
        AbsorbedWhole(H[..], W[..], m);
        assert m + data[..0] == m;
        Rest(m, data, 0);
      }
    }

    // Fills up a buffer that holds lenW bytes; done means that there is no data left.
    method Fill(ghost m: seq<Byte>, lenW: nat, data: seq<Byte>) returns (left: nat, done: bool)
      requires H.Length == 5 && W.Length == 64 && Absorbed(H[..], W[..], m) && lenW == |m| % 64 != 0
      modifies H, W
      ensures left <= |data|
      ensures done ==> Absorbed(H[..], W[..], m + data)
      ensures !done ==> (|m| + left) % 64 == 0 && VarsOf(H[..]) == Fold(m + data[..left])
    {
      hide Compress, BlockOf, Fold;
      left := 64 - lenW;
      if |data| < left {
        left := |data|;
      }
      ghost var buffer := W[..];
      Copy(lenW, data[..left]);
      done := (lenW + left) % 64 != 0;
      if done {
        assert left == |data| && data[..left] == data;
        AbsorbedTail(H[..], buffer, m, data, W[..]);
      } else {
        AbsorbedFull(H[..], buffer, m, data[..left], W[..]);
        Block(W[..]);
      }
    }

    // The full blocks of the data from `pos` on, and what is left of it.
    method Rest(ghost m: seq<Byte>, data: seq<Byte>, pos: nat)
      requires H.Length == 5 && W.Length == 64 && pos <= |data|
      requires (|m| + pos) % 64 == 0 && VarsOf(H[..]) == Fold(m + data[..pos])
      modifies H, W
      ensures Absorbed(H[..], W[..], m + data)
    {
      hide Compress, BlockOf, Fold;
      var p := pos;
      while |data| - p >= 64
        invariant pos <= p <= |data| && (|m| + p) % 64 == 0
        invariant VarsOf(H[..]) == Fold(m + data[..p])
      {
        FoldStep(m + data[..p], data[p..p + 64]);
        assert m + data[..p] + data[p..p + 64] == m + data[..p + 64];
        Block(data[p..p + 64]);
        p := p + 64;
      }
      AbsorbedWhole(H[..], W[..], m + data[..p]);
      ghost var buffer := W[..];
      if |data| - p > 0 {
        Copy(0, data[p..]);
      }
      AbsorbedTail(H[..], buffer, m + data[..p], data[p..], W[..]);
      assert m + data[..p] + data[p..] == m + data;
    }

    method Final() returns (hashout: array<Byte>)
      requires Valid() && |message| < MAX_LENGTH
      modifies this, H, W
      ensures fresh(hashout) && hashout[..] == Sha1(old(message))
    {
      hide Compress, BlockOf, Fold, BytesOf, BigEndian;
      FillUp();
      AbsorbedWhole(H[..], W[..], message);
      hashout := new Byte[20];
      for k := 0 to 5
        invariant hashout[..4 * k] == Serialized(H[..], k)
        invariant H.Length == 5 && VarsOf(H[..]) == Fold(Pad(old(message)))
      {
        PutBe32(hashout, 4 * k, H[k]);
      }
      DigestIsSerialized(H[..]);
      assert hashout[..] == hashout[..20];
    }

    // Takes in the padding: the byte 0x80, zeros, and the length in bits.
    method FillUp()
      requires Valid() && |message| < MAX_LENGTH
      modifies this, H, W
      ensures Valid() && message == Pad(old(message))
    {
      hide Compress, BlockOf, Fold, BytesOf, BigEndian, Absorbed, ZeroCount;
      ghost var m := message;
      var pad := [0x80 as Byte] + Repeat(0, 63);
      var padlen := BigEndian(size / 0x2000_0000 % 0x1_0000_0000, 4) +
                    BigEndian(size * 8 % SIZE_LIMIT % 0x1_0000_0000, 4);
      LengthBytes(size);
      var i := size % 64;
      PadCount(|m|, i);
      var count := 1 + (63 & (55 - (i as Word))) as nat;
      assert pad[..count] == [0x80] + Repeat(0, ZeroCount(|m|));
      Update(pad[..count]);
      Update(padlen);
      assert message == Pad(m);
    }
  }

  // Masking a difference that may be negative; six bits are enough for it.
  lemma MaskedDifference(i: bv6)
    ensures (63 & (55 - (i as Word))) as int == if i as int <= 55 then 55 - i as int else 119 - i as int
  {
  }

  lemma SixBits(i: nat)
    requires i < 64
    ensures (i as bv6) as int == i
  {
  }

  lemma WidenedSixBits(i: nat)
    requires i < 64
    ensures (i as bv6) as Word == i as Word
  {
  }

  lemma MaskedNumber(i: nat)
    requires i < 64
    ensures (63 & (55 - (i as Word))) as int == if i <= 55 then 55 - i else 119 - i
  {
    SixBits(i);
    WidenedSixBits(i);
    MaskedDifference(i as bv6);
  }

  lemma ZeroCountIs(length: nat)
    ensures ZeroCount(length) == if length % 64 <= 55 then 55 - length % 64 else 119 - length % 64
  {
  }

  lemma PadCount(length: nat, i: nat)
    requires i == length % 64
    ensures (63 & (55 - (i as Word))) as int == ZeroCount(length) < 64
  {
    hide ZeroCount;
    MaskedNumber(i);
    ZeroCountIs(length);
  }

  method PutBe32(out: array<Byte>, offset: nat, v: Word)
    requires offset + 4 <= out.Length
    modifies out
    ensures out[..offset + 4] == old(out[..offset]) + BytesOf(v)
    ensures out[offset + 4..] == old(out[offset + 4..])
  {
    var b := BytesOf(v);
    out[offset], out[offset + 1], out[offset + 2], out[offset + 3] := b[0], b[1], b[2], b[3];
  }

  function Serialized(h: seq<Word>, k: nat): seq<Byte>
    requires k <= |h|
  {
    if k == 0 then [] else Serialized(h, k - 1) + BytesOf(h[k - 1])
  }

  lemma DigestIsSerialized(h: seq<Word>)
    requires |h| == 5
    ensures Serialized(h, 5) == DigestOf(VarsOf(h))
  {
    hide BytesOf;
    assert Serialized(h, 1) == BytesOf(h[0]);
    assert Serialized(h, 3) == Serialized(h, 1) + BytesOf(h[1]) + BytesOf(h[2]);
  }

  // The two 32-bit halves of the bit length, in big-endian order, are its 64 bits.
  lemma LengthBytes(size: nat)
    requires size < MAX_LENGTH
    ensures BigEndian(size / 0x2000_0000 % 0x1_0000_0000, 4) + BigEndian(size * 8 % SIZE_LIMIT % 0x1_0000_0000, 4) ==
            BigEndian(8 * size, 8)
  {
    hide BigEndian;
    var hi, lo := size / 0x2000_0000, size % 0x2000_0000 * 8;
    Halves(size);
    Pow256Values();
    BigEndianSplit(hi, lo, 4);
  }

  lemma Halves(size: nat)
    requires size < MAX_LENGTH
    ensures var hi, lo := size / 0x2000_0000, size % 0x2000_0000 * 8;
            && size / 0x2000_0000 % 0x1_0000_0000 == hi
            && size * 8 % SIZE_LIMIT % 0x1_0000_0000 == lo < 0x1_0000_0000
            && hi * 0x1_0000_0000 + lo == 8 * size
  {
    var hi, rest := size / 0x2000_0000, size % 0x2000_0000;
    assert size == hi * 0x2000_0000 + rest && hi < 0x1_0000_0000;
    assert size * 8 == hi * 0x1_0000_0000 + rest * 8 < SIZE_LIMIT;
    assert size * 8 % SIZE_LIMIT == size * 8;
  }

  lemma DivideByte(hi: nat, p: nat, lo: nat)
    ensures (hi * (256 * p) + lo) / 256 == hi * p + lo / 256
    ensures (hi * (256 * p) + lo) % 256 == lo % 256
  {
    assert hi * (256 * p) == 256 * (hi * p);
  }

  lemma {:induction false} BigEndianSplit(hi: nat, lo: nat, k: nat)
    requires lo < Pow256(k)
    ensures BigEndian(hi * Pow256(k) + lo, 4 + k) == BigEndian(hi, 4) + BigEndian(lo, k)
  {
    if k > 0 {
      DivideByte(hi, Pow256(k - 1), lo);
      BigEndianSplit(hi, lo / 256, k - 1);
      assert BigEndian(lo, k) == BigEndian(lo / 256, k - 1) + [(lo % 256) as Byte];
    }
  }

  // sha1_buffer
  method Sha1Buffer(buffer: seq<Byte>) returns (digest: seq<Byte>)
    requires |buffer| < MAX_LENGTH
    ensures digest == Sha1(buffer)
  {
    hide Compress, BlockOf, Fold, Absorbed, Pad, DigestOf;
    var ctx := new Context();
    ctx.Update(buffer);
    assert [] + buffer == buffer;
    var out := ctx.Final();
    digest := out[..];
  }

  function Concat(chunks: seq<seq<Byte>>): seq<Byte> {
    if chunks == [] then [] else Concat(chunks[..|chunks| - 1]) + chunks[|chunks| - 1]
  }

  // However a message is cut into pieces, its digest is the same.
  method Sha1Chunks(chunks: seq<seq<Byte>>) returns (digest: seq<Byte>)
    requires |Concat(chunks)| < MAX_LENGTH
    ensures digest == Sha1(Concat(chunks))
  {
    hide Compress, BlockOf, Fold, Absorbed, Sha1;
    var ctx := new Context();
    for i := 0 to |chunks|
      invariant ctx.Valid() && fresh(ctx) && fresh(ctx.H) && fresh(ctx.W)
      invariant ctx.message == Concat(chunks[..i])
    {
      ctx.Update(chunks[i]);
      assert chunks[..i + 1][..i] == chunks[..i];
    }
    assert chunks[..|chunks|] == chunks;
    var out := ctx.Final();
    digest := out[..];
  }
}
