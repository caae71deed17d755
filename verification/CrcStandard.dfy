/**
 CRC-32 against its standard, section 8 of RFC 1952 and section 8.1.1.6.2 of ITU-T V.42: the exponents of
 the generator polynomial, the shift register with its taps, and the check value over the digits 1 to 9.
 */
module CrcStandard {
  import opened Bits
  import opened CrcRegister
  import opened CrcEngine

  // ----- Values of short words

  function One(x: bool): nat {
    if x then 1 else 0
  }

  lemma TwoBits(w: Word)
    requires |w| >= 2
    ensures Value(w) == One(w[0]) + 2 * One(w[1]) + 4 * Value(w[2..])
  {
    assert w[1..][1..] == w[2..];
  }

  lemma ByteValue(w: Word)
    requires |w| == 8
    ensures Value(w) == Sum(w[0], w[1], w[2], w[3], w[4], w[5], w[6], w[7])
  {
    var w2, w4, w6, w8 := w[2..], w[4..], w[6..], w[8..];
    assert w2[2..] == w4 && w4[2..] == w6 && w6[2..] == w8 == [];
    TwoBits(w);
    TwoBits(w2);
    TwoBits(w4);
    TwoBits(w6);
  }

  function Sum(b0: bool, b1: bool, b2: bool, b3: bool, b4: bool, b5: bool, b6: bool, b7: bool): nat {
    One(b0) + 2 * One(b1) + 4 * One(b2) + 8 * One(b3) + 16 * One(b4) + 32 * One(b5) + 64 * One(b6) + 128 * One(b7)
  }

  lemma ByteIs(w: Word, b0: bool, b1: bool, b2: bool, b3: bool, b4: bool, b5: bool, b6: bool, b7: bool)
    requires w == [b0, b1, b2, b3, b4, b5, b6, b7]
    ensures Value(w) == Sum(b0, b1, b2, b3, b4, b5, b6, b7)
  {
    ByteValue(w);
  }

  lemma ByteFrom(c: Word, n: nat, width: nat, b0: bool, b1: bool, b2: bool, b3: bool, b4: bool, b5: bool, b6: bool, b7: bool)
    requires width == 8 && c == FromNat(n, width) && n == Sum(b0, b1, b2, b3, b4, b5, b6, b7)
    ensures c == [b0, b1, b2, b3, b4, b5, b6, b7]
  {
    var w := [b0, b1, b2, b3, b4, b5, b6, b7];
    ByteIs(w, b0, b1, b2, b3, b4, b5, b6, b7);
    FromNatOfValue(w);
  }

  lemma WordFrom(w: Word, n: nat, width: nat, v: Word)
    requires w == FromNat(n, width) && |v| == width && Value(v) == n
    ensures w == v
  {
    FromNatOfValue(v);
  }

  lemma FourValues(a: Word, b: Word, c: Word, d: Word)
    requires |a| == |b| == |c| == 8
    ensures Value(a + b + c + d) == Value(a) + 256 * (Value(b) + 256 * (Value(c) + 256 * Value(d)))
  {
    ValueAfterByte(c, d);
    ValueAfterByte(b, c + d);
    ValueAfterByte(a, b + (c + d));
    Regroup(a, b, c, d);
  }

  lemma Regroup(a: Word, b: Word, c: Word, d: Word)
    ensures a + b + c + d == a + (b + (c + d))
  {
  }

  lemma ValueOf(w: Word,
                b0: bool, b1: bool, b2: bool, b3: bool, b4: bool, b5: bool, b6: bool, b7: bool,
                b8: bool, b9: bool, b10: bool, b11: bool, b12: bool, b13: bool, b14: bool, b15: bool,
                b16: bool, b17: bool, b18: bool, b19: bool, b20: bool, b21: bool, b22: bool, b23: bool,
                b24: bool, b25: bool, b26: bool, b27: bool, b28: bool, b29: bool, b30: bool, b31: bool)
    requires w == [b0, b1, b2, b3, b4, b5, b6, b7] + [b8, b9, b10, b11, b12, b13, b14, b15]
                  + [b16, b17, b18, b19, b20, b21, b22, b23] + [b24, b25, b26, b27, b28, b29, b30, b31]
    ensures Value(w) == Sum(b0, b1, b2, b3, b4, b5, b6, b7)
                        + 256 * (Sum(b8, b9, b10, b11, b12, b13, b14, b15)
                        + 256 * (Sum(b16, b17, b18, b19, b20, b21, b22, b23)
                        + 256 * Sum(b24, b25, b26, b27, b28, b29, b30, b31)))
  {
    var x0, x1 := [b0, b1, b2, b3, b4, b5, b6, b7], [b8, b9, b10, b11, b12, b13, b14, b15];
    var x2, x3 := [b16, b17, b18, b19, b20, b21, b22, b23], [b24, b25, b26, b27, b28, b29, b30, b31];
    ByteIs(x0, b0, b1, b2, b3, b4, b5, b6, b7);
    ByteIs(x1, b8, b9, b10, b11, b12, b13, b14, b15);
    ByteIs(x2, b16, b17, b18, b19, b20, b21, b22, b23);
    ByteIs(x3, b24, b25, b26, b27, b28, b29, b30, b31);
    FourValues(x0, x1, x2, x3);
  }

  // ----- The generator

  /**
   The exponents below 32 in the generator
   x^32 + x^26 + x^23 + x^22 + x^16 + x^12 + x^11 + x^10 + x^8 + x^7 + x^5 + x^4 + x^2 + x + 1.
   */
  const TAPS: set<nat> := {0, 1, 2, 4, 5, 7, 8, 10, 11, 12, 16, 22, 23, 26}

  lemma Crc32Polynomial()
    ensures CRC_32.Valid() && CRC_32.Width() == 32
    ensures forall k | 0 <= k < 32 :: CRC_32.polynomial[k] <==> k in TAPS
  {
    PolynomialWord(CRC_32.polynomial, 0x04C11DB7, |CRC_32.polynomial|);
    Exponents(CRC_32.polynomial);
  }

  lemma PolynomialWord(w: Word, n: nat, width: nat)
    requires width == 32 && n == 0x04C11DB7 && w == FromNat(n, width)
    ensures w == [true, true, true, false, true, true, false, true] + [true, false, true, true, true, false, false, false]
                 + [true, false, false, false, false, false, true, true] + [false, false, true, false, false, false, false, false]
  {
    var v := [true, true, true, false, true, true, false, true] + [true, false, true, true, true, false, false, false]
             + [true, false, false, false, false, false, true, true] + [false, false, true, false, false, false, false, false];
    ValueOf(v,
            true, true, true, false, true, true, false, true,
            true, false, true, true, true, false, false, false,
            true, false, false, false, false, false, true, true,
            false, false, true, false, false, false, false, false);
    WordFrom(w, n, width, v);
  }

  lemma Exponents(p: Word)
    requires p == [true, true, true, false, true, true, false, true] + [true, false, true, true, true, false, false, false]
                  + [true, false, false, false, false, false, true, true] + [false, false, true, false, false, false, false, false]
    ensures forall k | 0 <= k < 32 :: p[k] <==> k in TAPS
  {
  }

  // ----- The register

  /** s is w after one shift: the lowest bit leaves and enters again at the taps. */
  predicate Shifted(w: Word, s: Word)
    requires |w| == |s| == 32
  {
    ShiftedLow(w, s) && ShiftedHigh(w, s)
  }

  predicate ShiftedLow(w: Word, s: Word)
    requires |w| == |s| == 32
  {
    && s[0] == w[1] && s[1] == w[2] && s[2] == w[3] && s[3] == w[4]
    && s[4] == w[5] && s[5] == (w[6] != w[0]) && s[6] == w[7] && s[7] == w[8]
    && s[8] == (w[9] != w[0]) && s[9] == (w[10] != w[0]) && s[10] == w[11] && s[11] == w[12]
    && s[12] == w[13] && s[13] == w[14] && s[14] == w[15] && s[15] == (w[16] != w[0])
  }

  predicate ShiftedHigh(w: Word, s: Word)
    requires |w| == |s| == 32
  {
    && s[16] == w[17] && s[17] == w[18] && s[18] == w[19] && s[19] == (w[20] != w[0])
    && s[20] == (w[21] != w[0]) && s[21] == (w[22] != w[0]) && s[22] == w[23] && s[23] == (w[24] != w[0])
    && s[24] == (w[25] != w[0]) && s[25] == w[26] && s[26] == (w[27] != w[0]) && s[27] == (w[28] != w[0])
    && s[28] == w[29] && s[29] == (w[30] != w[0]) && s[30] == (w[31] != w[0]) && s[31] == w[0]
  }

  lemma StepAt(w: Word, p: Word, k: nat)
    requires |w| == |p| >= 1 && k < |w|
    ensures StepRight(w, p)[k] == ((k + 1 < |w| && w[k + 1]) != (w[0] && p[k]))
  {
  }

  lemma LowTaps(w: Word, s: Word)
    requires |w| == |s| == 32
    requires forall k | 0 <= k < 32 :: s[k] == ((k < 31 && w[k + 1]) != (w[0] && 31 - k in TAPS))
    ensures ShiftedLow(w, s)
  {
  }

  lemma HighTaps(w: Word, s: Word)
    requires |w| == |s| == 32
    requires forall k | 0 <= k < 32 :: s[k] == ((k < 31 && w[k + 1]) != (w[0] && 31 - k in TAPS))
    ensures ShiftedHigh(w, s)
  {
  }

  /** One step of the engine, with the reflected polynomial of CRC-32, is one shift of the register. */
  lemma StepIsShift(w: Word, p: Word)
    requires |w| == |p| == 32 && p == Reverse(CRC_32.polynomial)
    ensures Shifted(w, StepRight(w, p))
  {
    ReversedTaps(p);
    StepByTaps(w, p);
    LowTaps(w, StepRight(w, p));
    HighTaps(w, StepRight(w, p));
  }

  lemma ReversedTaps(p: Word)
    requires p == Reverse(CRC_32.polynomial)
    ensures |p| == 32 && forall k | 0 <= k < 32 :: p[k] <==> 31 - k in TAPS
  {
    Crc32Polynomial();
  }

  lemma StepByTaps(w: Word, p: Word)
    requires |w| == |p| == 32 && forall k | 0 <= k < 32 :: p[k] <==> 31 - k in TAPS
    ensures forall k | 0 <= k < 32 :: StepRight(w, p)[k] == ((k < 31 && w[k + 1]) != (w[0] && 31 - k in TAPS))
  {
    forall k | 0 <= k < 32
      ensures StepRight(w, p)[k] == ((k < 31 && w[k + 1]) != (w[0] && 31 - k in TAPS))
    {
      StepAt(w, p, k);
    }
  }

  /** x is w with a byte added to its low end. */
  ghost predicate Added(w: Word, c: Byte, x: Word) {
    |w| == |x| == 32 && forall i | 0 <= i < 32 :: x[i] == (w[i] != (i < 8 && c[i]))
  }

  /** Feeding a byte is adding it and shifting eight times. */
  lemma FeedShifts(w: Word, c: Byte, p: Word)
    returns (x: Word, w1: Word, w2: Word, w3: Word, w4: Word, w5: Word, w6: Word, w7: Word, w8: Word)
    requires |w| == |p| == 32 && p == Reverse(CRC_32.polynomial)
    ensures |w1| == |w2| == |w3| == |w4| == |w5| == |w6| == |w7| == |w8| == 32
    ensures Added(w, c, x)
    ensures Shifted(x, w1) && Shifted(w1, w2) && Shifted(w2, w3) && Shifted(w3, w4)
    ensures Shifted(w4, w5) && Shifted(w5, w6) && Shifted(w6, w7) && Shifted(w7, w8)
    ensures w8 == FeedRight(w, p, c)
  {
    x := Xor(w, c + Zero(24));
    var ws := Shifts(x, p, |c|);
    w1, w2, w3, w4, w5, w6, w7, w8 := ws[1], ws[2], ws[3], ws[4], ws[5], ws[6], ws[7], ws[8];
  }

  lemma {:induction false} Shifts(w: Word, p: Word, n: nat) returns (ws: seq<Word>)
    requires |w| == |p| == 32 && p == Reverse(CRC_32.polynomial)
    ensures |ws| == n + 1 && ws[0] == w && ws[n] == StepsRight(w, p, n)
    ensures forall i | 0 <= i <= n :: |ws[i]| == 32
    ensures forall i | 0 <= i < n :: Shifted(ws[i], ws[i + 1])
    decreases n
  {
    if n == 0 {
      ws := [w];
    } else {
      var s := StepRight(w, p);
      StepIsShift(w, p);
      var rest := Shifts(s, p, n - 1);
      ws := [w] + rest;
    }
  }

  // ----- The check value

  /** The character '1' + k. */
  function Digit(k: nat): Byte {
    FromNat(0x31 + k, 8)
  }

  /** The characters from '1' + k to '9'. */
  function Digits(k: nat): (digits: seq<Byte>)
    requires k <= 9
    ensures |digits| == 9 - k && forall i | 0 <= i < 9 - k :: digits[i] == Digit(k + i)
    decreases 9 - k
  {
    if k == 9 then [] else [Digit(k)] + Digits(k + 1)
  }

  predicate Is(w: Word,
               b0: bool, b1: bool, b2: bool, b3: bool, b4: bool, b5: bool, b6: bool, b7: bool,
               b8: bool, b9: bool, b10: bool, b11: bool, b12: bool, b13: bool, b14: bool, b15: bool,
               b16: bool, b17: bool, b18: bool, b19: bool, b20: bool, b21: bool, b22: bool, b23: bool,
               b24: bool, b25: bool, b26: bool, b27: bool, b28: bool, b29: bool, b30: bool, b31: bool)
  {
    && |w| == 32
    && w[0] == b0 && w[1] == b1 && w[2] == b2 && w[3] == b3 && w[4] == b4 && w[5] == b5 && w[6] == b6 && w[7] == b7
    && w[8] == b8 && w[9] == b9 && w[10] == b10 && w[11] == b11 && w[12] == b12 && w[13] == b13 && w[14] == b14 && w[15] == b15
    && w[16] == b16 && w[17] == b17 && w[18] == b18 && w[19] == b19 && w[20] == b20 && w[21] == b21 && w[22] == b22 && w[23] == b23
    && w[24] == b24 && w[25] == b25 && w[26] == b26 && w[27] == b27 && w[28] == b28 && w[29] == b29 && w[30] == b30 && w[31] == b31
  }

  lemma NextDigit(w: Word, p: Word, k: nat)
    requires |w| == |p| == 32 && k < 9
    ensures RemainderRight(w, p, Digits(k)) == RemainderRight(FeedRight(w, p, Digit(k)), p, Digits(k + 1))
  {
    assert Digits(k)[1..] == Digits(k + 1);
  }

  // What the digits leave in the register, one after the other.

  lemma WordOfBits(w: Word,
                   b0: bool, b1: bool, b2: bool, b3: bool, b4: bool, b5: bool, b6: bool, b7: bool,
                   b8: bool, b9: bool, b10: bool, b11: bool, b12: bool, b13: bool, b14: bool, b15: bool,
                   b16: bool, b17: bool, b18: bool, b19: bool, b20: bool, b21: bool, b22: bool, b23: bool,
                   b24: bool, b25: bool, b26: bool, b27: bool, b28: bool, b29: bool, b30: bool, b31: bool)
    requires Is(w, b0, b1, b2, b3, b4, b5, b6, b7, b8, b9, b10, b11, b12, b13, b14, b15,
                b16, b17, b18, b19, b20, b21, b22, b23, b24, b25, b26, b27, b28, b29, b30, b31)
    ensures w == [b0, b1, b2, b3, b4, b5, b6, b7] + [b8, b9, b10, b11, b12, b13, b14, b15]
                 + [b16, b17, b18, b19, b20, b21, b22, b23] + [b24, b25, b26, b27, b28, b29, b30, b31]
  {
    EightBits(w, 0, b0, b1, b2, b3, b4, b5, b6, b7);
    EightBits(w, 8, b8, b9, b10, b11, b12, b13, b14, b15);
    EightBits(w, 16, b16, b17, b18, b19, b20, b21, b22, b23);
    EightBits(w, 24, b24, b25, b26, b27, b28, b29, b30, b31);
    FourSlices(w, [b0, b1, b2, b3, b4, b5, b6, b7], [b8, b9, b10, b11, b12, b13, b14, b15],
               [b16, b17, b18, b19, b20, b21, b22, b23], [b24, b25, b26, b27, b28, b29, b30, b31]);
  }

  lemma EightBits(w: Word, i: nat, b0: bool, b1: bool, b2: bool, b3: bool, b4: bool, b5: bool, b6: bool, b7: bool)
    requires i + 8 <= |w|
    requires w[i] == b0 && w[i + 1] == b1 && w[i + 2] == b2 && w[i + 3] == b3
    requires w[i + 4] == b4 && w[i + 5] == b5 && w[i + 6] == b6 && w[i + 7] == b7
    ensures w[i..i + 8] == [b0, b1, b2, b3, b4, b5, b6, b7]
  {
  }

  lemma FourSlices(w: Word, a: Word, b: Word, c: Word, d: Word)
    requires |w| == 32 && w[0..8] == a && w[8..16] == b && w[16..24] == c && w[24..32] == d
    ensures w == a + b + c + d
  {
  }

  const ALL_SET: Word := [true, true, true, true, true, true, true, true] + [true, true, true, true, true, true, true, true]
    + [true, true, true, true, true, true, true, true] + [true, true, true, true, true, true, true, true]
  const AFTER_1: Word := [false, false, false, true, false, false, true, false] + [false, false, false, false, true, false, false, false]
    + [true, true, false, false, false, true, false, false] + [false, false, true, true, true, true, true, false]
  const AFTER_2: Word := [false, true, false, false, true, true, false, false] + [true, true, false, true, true, true, false, true]
    + [false, false, true, true, false, true, false, true] + [false, false, false, false, true, true, false, true]
  const AFTER_3: Word := [true, false, true, true, false, true, false, false] + [false, false, true, true, true, false, false, true]
    + [true, true, true, false, true, true, false, true] + [true, true, true, false, true, true, true, false]
  const AFTER_4: Word := [false, false, true, true, true, false, true, false] + [true, true, true, true, true, false, false, false]
    + [false, false, true, true, true, false, false, false] + [false, false, true, false, false, true, true, false]
  const AFTER_5: Word := [true, true, false, false, false, true, true, true] + [true, false, true, false, false, false, true, true]
    + [false, true, false, true, false, false, false, false] + [false, false, true, false, true, true, false, false]
  const AFTER_6: Word := [false, true, true, true, true, false, false, true] + [false, false, true, true, false, true, false, false]
    + [true, false, true, true, false, false, false, true] + [false, true, true, false, true, true, true, true]
  const AFTER_7: Word := [false, false, false, false, false, true, true, false] + [false, true, true, false, true, false, false, true]
    + [false, false, true, true, true, true, true, true] + [true, true, true, true, false, true, false, true]
  const AFTER_8: Word := [false, false, false, false, true, false, true, false] + [true, false, true, false, false, true, false, false]
    + [true, true, true, true, true, false, false, false] + [true, false, true, false, false, true, true, false]
  const AFTER_9: Word := [true, false, false, true, true, false, true, true] + [false, true, true, false, false, false, true, true]
    + [true, true, false, true, false, false, false, false] + [false, false, true, false, true, true, false, false]

  lemma Byte1(w: Word, c: Word, x: Word, w1: Word, w2: Word, w3: Word, w4: Word, w5: Word, w6: Word, w7: Word, w8: Word)
    requires |w1| == |w2| == |w3| == |w4| == |w5| == |w6| == |w7| == |w8| == 32
    requires w == ALL_SET && c == [true, false, false, false, true, true, false, false] && Added(w, c, x)
    requires Shifted(x, w1) && Shifted(w1, w2) && Shifted(w2, w3) && Shifted(w3, w4)
    requires Shifted(w4, w5) && Shifted(w5, w6) && Shifted(w6, w7) && Shifted(w7, w8)
    ensures w8 == AFTER_1
  {
    WordOfBits(w8,
               false, false, false, true, false, false, true, false,
               false, false, false, false, true, false, false, false,
               true, true, false, false, false, true, false, false,
               false, false, true, true, true, true, true, false);
  }

  lemma Fed1(w: Word, p: Word, c: Byte, k: nat)
    requires |p| == 32 && p == Reverse(CRC_32.polynomial) && k == 0 && c == Digit(k) && w == ALL_SET
    ensures FeedRight(w, p, c) == AFTER_1
  {
    ByteFrom(c, 0x31 + k, |c|, true, false, false, false, true, true, false, false);
    var x, w1, w2, w3, w4, w5, w6, w7, w8 := FeedShifts(w, c, p);
    Byte1(w, c, x, w1, w2, w3, w4, w5, w6, w7, w8);
  }

  lemma Byte2(w: Word, c: Word, x: Word, w1: Word, w2: Word, w3: Word, w4: Word, w5: Word, w6: Word, w7: Word, w8: Word)
    requires |w1| == |w2| == |w3| == |w4| == |w5| == |w6| == |w7| == |w8| == 32
    requires w == AFTER_1 && c == [false, true, false, false, true, true, false, false] && Added(w, c, x)
    requires Shifted(x, w1) && Shifted(w1, w2) && Shifted(w2, w3) && Shifted(w3, w4)
    requires Shifted(w4, w5) && Shifted(w5, w6) && Shifted(w6, w7) && Shifted(w7, w8)
    ensures w8 == AFTER_2
  {
    WordOfBits(w8,
               false, true, false, false, true, true, false, false,
               true, true, false, true, true, true, false, true,
               false, false, true, true, false, true, false, true,
               false, false, false, false, true, true, false, true);
  }

  lemma Fed2(w: Word, p: Word, c: Byte, k: nat)
    requires |p| == 32 && p == Reverse(CRC_32.polynomial) && k == 1 && c == Digit(k) && w == AFTER_1
    ensures FeedRight(w, p, c) == AFTER_2
  {
    ByteFrom(c, 0x31 + k, |c|, false, true, false, false, true, true, false, false);
    var x, w1, w2, w3, w4, w5, w6, w7, w8 := FeedShifts(w, c, p);
    Byte2(w, c, x, w1, w2, w3, w4, w5, w6, w7, w8);
  }

  lemma Byte3(w: Word, c: Word, x: Word, w1: Word, w2: Word, w3: Word, w4: Word, w5: Word, w6: Word, w7: Word, w8: Word)
    requires |w1| == |w2| == |w3| == |w4| == |w5| == |w6| == |w7| == |w8| == 32
    requires w == AFTER_2 && c == [true, true, false, false, true, true, false, false] && Added(w, c, x)
    requires Shifted(x, w1) && Shifted(w1, w2) && Shifted(w2, w3) && Shifted(w3, w4)
    requires Shifted(w4, w5) && Shifted(w5, w6) && Shifted(w6, w7) && Shifted(w7, w8)
    ensures w8 == AFTER_3
  {
    WordOfBits(w8,
               true, false, true, true, false, true, false, false,
               false, false, true, true, true, false, false, true,
               true, true, true, false, true, true, false, true,
               true, true, true, false, true, true, true, false);
  }

  lemma Fed3(w: Word, p: Word, c: Byte, k: nat)
    requires |p| == 32 && p == Reverse(CRC_32.polynomial) && k == 2 && c == Digit(k) && w == AFTER_2
    ensures FeedRight(w, p, c) == AFTER_3
  {
    ByteFrom(c, 0x31 + k, |c|, true, true, false, false, true, true, false, false);
    var x, w1, w2, w3, w4, w5, w6, w7, w8 := FeedShifts(w, c, p);
    Byte3(w, c, x, w1, w2, w3, w4, w5, w6, w7, w8);
  }

  lemma Byte4(w: Word, c: Word, x: Word, w1: Word, w2: Word, w3: Word, w4: Word, w5: Word, w6: Word, w7: Word, w8: Word)
    requires |w1| == |w2| == |w3| == |w4| == |w5| == |w6| == |w7| == |w8| == 32
    requires w == AFTER_3 && c == [false, false, true, false, true, true, false, false] && Added(w, c, x)
    requires Shifted(x, w1) && Shifted(w1, w2) && Shifted(w2, w3) && Shifted(w3, w4)
    requires Shifted(w4, w5) && Shifted(w5, w6) && Shifted(w6, w7) && Shifted(w7, w8)
    ensures w8 == AFTER_4
  {
    WordOfBits(w8,
               false, false, true, true, true, false, true, false,
               true, true, true, true, true, false, false, false,
               false, false, true, true, true, false, false, false,
               false, false, true, false, false, true, true, false);
  }

  lemma Fed4(w: Word, p: Word, c: Byte, k: nat)
    requires |p| == 32 && p == Reverse(CRC_32.polynomial) && k == 3 && c == Digit(k) && w == AFTER_3
    ensures FeedRight(w, p, c) == AFTER_4
  {
    ByteFrom(c, 0x31 + k, |c|, false, false, true, false, true, true, false, false);
    var x, w1, w2, w3, w4, w5, w6, w7, w8 := FeedShifts(w, c, p);
    Byte4(w, c, x, w1, w2, w3, w4, w5, w6, w7, w8);
  }

  lemma Byte5(w: Word, c: Word, x: Word, w1: Word, w2: Word, w3: Word, w4: Word, w5: Word, w6: Word, w7: Word, w8: Word)
    requires |w1| == |w2| == |w3| == |w4| == |w5| == |w6| == |w7| == |w8| == 32
    requires w == AFTER_4 && c == [true, false, true, false, true, true, false, false] && Added(w, c, x)
    requires Shifted(x, w1) && Shifted(w1, w2) && Shifted(w2, w3) && Shifted(w3, w4)
    requires Shifted(w4, w5) && Shifted(w5, w6) && Shifted(w6, w7) && Shifted(w7, w8)
    ensures w8 == AFTER_5
  {
    WordOfBits(w8,
               true, true, false, false, false, true, true, true,
               true, false, true, false, false, false, true, true,
               false, true, false, true, false, false, false, false,
               false, false, true, false, true, true, false, false);
  }

  lemma Fed5(w: Word, p: Word, c: Byte, k: nat)
    requires |p| == 32 && p == Reverse(CRC_32.polynomial) && k == 4 && c == Digit(k) && w == AFTER_4
    ensures FeedRight(w, p, c) == AFTER_5
  {
    ByteFrom(c, 0x31 + k, |c|, true, false, true, false, true, true, false, false);
    var x, w1, w2, w3, w4, w5, w6, w7, w8 := FeedShifts(w, c, p);
    Byte5(w, c, x, w1, w2, w3, w4, w5, w6, w7, w8);
  }

  lemma Byte6(w: Word, c: Word, x: Word, w1: Word, w2: Word, w3: Word, w4: Word, w5: Word, w6: Word, w7: Word, w8: Word)
    requires |w1| == |w2| == |w3| == |w4| == |w5| == |w6| == |w7| == |w8| == 32
    requires w == AFTER_5 && c == [false, true, true, false, true, true, false, false] && Added(w, c, x)
    requires Shifted(x, w1) && Shifted(w1, w2) && Shifted(w2, w3) && Shifted(w3, w4)
    requires Shifted(w4, w5) && Shifted(w5, w6) && Shifted(w6, w7) && Shifted(w7, w8)
    ensures w8 == AFTER_6
  {
    WordOfBits(w8,
               false, true, true, true, true, false, false, true,
               false, false, true, true, false, true, false, false,
               true, false, true, true, false, false, false, true,
               false, true, true, false, true, true, true, true);
  }

  lemma Fed6(w: Word, p: Word, c: Byte, k: nat)
    requires |p| == 32 && p == Reverse(CRC_32.polynomial) && k == 5 && c == Digit(k) && w == AFTER_5
    ensures FeedRight(w, p, c) == AFTER_6
  {
    ByteFrom(c, 0x31 + k, |c|, false, true, true, false, true, true, false, false);
    var x, w1, w2, w3, w4, w5, w6, w7, w8 := FeedShifts(w, c, p);
    Byte6(w, c, x, w1, w2, w3, w4, w5, w6, w7, w8);
  }

  lemma Byte7(w: Word, c: Word, x: Word, w1: Word, w2: Word, w3: Word, w4: Word, w5: Word, w6: Word, w7: Word, w8: Word)
    requires |w1| == |w2| == |w3| == |w4| == |w5| == |w6| == |w7| == |w8| == 32
    requires w == AFTER_6 && c == [true, true, true, false, true, true, false, false] && Added(w, c, x)
    requires Shifted(x, w1) && Shifted(w1, w2) && Shifted(w2, w3) && Shifted(w3, w4)
    requires Shifted(w4, w5) && Shifted(w5, w6) && Shifted(w6, w7) && Shifted(w7, w8)
    ensures w8 == AFTER_7
  {
    WordOfBits(w8,
               false, false, false, false, false, true, true, false,
               false, true, true, false, true, false, false, true,
               false, false, true, true, true, true, true, true,
               true, true, true, true, false, true, false, true);
  }

  lemma Fed7(w: Word, p: Word, c: Byte, k: nat)
    requires |p| == 32 && p == Reverse(CRC_32.polynomial) && k == 6 && c == Digit(k) && w == AFTER_6
    ensures FeedRight(w, p, c) == AFTER_7
  {
    ByteFrom(c, 0x31 + k, |c|, true, true, true, false, true, true, false, false);
    var x, w1, w2, w3, w4, w5, w6, w7, w8 := FeedShifts(w, c, p);
    Byte7(w, c, x, w1, w2, w3, w4, w5, w6, w7, w8);
  }

  lemma Byte8(w: Word, c: Word, x: Word, w1: Word, w2: Word, w3: Word, w4: Word, w5: Word, w6: Word, w7: Word, w8: Word)
    requires |w1| == |w2| == |w3| == |w4| == |w5| == |w6| == |w7| == |w8| == 32
    requires w == AFTER_7 && c == [false, false, false, true, true, true, false, false] && Added(w, c, x)
    requires Shifted(x, w1) && Shifted(w1, w2) && Shifted(w2, w3) && Shifted(w3, w4)
    requires Shifted(w4, w5) && Shifted(w5, w6) && Shifted(w6, w7) && Shifted(w7, w8)
    ensures w8 == AFTER_8
  {
    WordOfBits(w8,
               false, false, false, false, true, false, true, false,
               true, false, true, false, false, true, false, false,
               true, true, true, true, true, false, false, false,
               true, false, true, false, false, true, true, false);
  }

  lemma Fed8(w: Word, p: Word, c: Byte, k: nat)
    requires |p| == 32 && p == Reverse(CRC_32.polynomial) && k == 7 && c == Digit(k) && w == AFTER_7
    ensures FeedRight(w, p, c) == AFTER_8
  {
    ByteFrom(c, 0x31 + k, |c|, false, false, false, true, true, true, false, false);
    var x, w1, w2, w3, w4, w5, w6, w7, w8 := FeedShifts(w, c, p);
    Byte8(w, c, x, w1, w2, w3, w4, w5, w6, w7, w8);
  }

  lemma Byte9(w: Word, c: Word, x: Word, w1: Word, w2: Word, w3: Word, w4: Word, w5: Word, w6: Word, w7: Word, w8: Word)
    requires |w1| == |w2| == |w3| == |w4| == |w5| == |w6| == |w7| == |w8| == 32
    requires w == AFTER_8 && c == [true, false, false, true, true, true, false, false] && Added(w, c, x)
    requires Shifted(x, w1) && Shifted(w1, w2) && Shifted(w2, w3) && Shifted(w3, w4)
    requires Shifted(w4, w5) && Shifted(w5, w6) && Shifted(w6, w7) && Shifted(w7, w8)
    ensures w8 == AFTER_9
  {
    WordOfBits(w8,
               true, false, false, true, true, false, true, true,
               false, true, true, false, false, false, true, true,
               true, true, false, true, false, false, false, false,
               false, false, true, false, true, true, false, false);
  }

  lemma Fed9(w: Word, p: Word, c: Byte, k: nat)
    requires |p| == 32 && p == Reverse(CRC_32.polynomial) && k == 8 && c == Digit(k) && w == AFTER_8
    ensures FeedRight(w, p, c) == AFTER_9
  {
    ByteFrom(c, 0x31 + k, |c|, true, false, false, true, true, true, false, false);
    var x, w1, w2, w3, w4, w5, w6, w7, w8 := FeedShifts(w, c, p);
    Byte9(w, c, x, w1, w2, w3, w4, w5, w6, w7, w8);
  }

  /** The register after the first k digits. */
  function After(k: nat): Word
    requires k <= 9
  {
    match k
    case 0 => ALL_SET
    case 1 => AFTER_1
    case 2 => AFTER_2
    case 3 => AFTER_3
    case 4 => AFTER_4
    case 5 => AFTER_5
    case 6 => AFTER_6
    case 7 => AFTER_7
    case 8 => AFTER_8
    case 9 => AFTER_9
  }

  lemma FedDigit(w: Word, p: Word, c: Byte, k: nat)
    requires |p| == 32 && p == Reverse(CRC_32.polynomial) && k < 9 && c == Digit(k) && w == After(k)
    ensures FeedRight(w, p, c) == After(k + 1)
  {
    match k
    case 0 => Fed1(w, p, c, k);
    case 1 => Fed2(w, p, c, k);
    case 2 => Fed3(w, p, c, k);
    case 3 => Fed4(w, p, c, k);
    case 4 => Fed5(w, p, c, k);
    case 5 => Fed6(w, p, c, k);
    case 6 => Fed7(w, p, c, k);
    case 7 => Fed8(w, p, c, k);
    case 8 => Fed9(w, p, c, k);
  }

  lemma {:induction false} FromDigit(w: Word, p: Word, k: nat)
    requires |p| == 32 && p == Reverse(CRC_32.polynomial) && k <= 9 && w == After(k) && |w| == 32
    ensures RemainderRight(w, p, Digits(k)) == After(9)
    decreases 9 - k
  {
    if k < 9 {
      var v := FeedRight(w, p, Digit(k));
      FedDigit(w, p, Digit(k), k);
      FromDigit(v, p, k + 1);
      NextDigit(w, p, k);
    }
  }

  const CHECK: Word := [false, true, true, false, false, true, false, false] + [true, false, false, true, true, true, false, false]
    + [false, false, true, false, true, true, true, true] + [true, true, false, true, false, false, true, true]

  lemma CheckWord(w: Word)
    requires w == CHECK
    ensures Value(w) == 0xCBF43926
  {
    ValueOf(w,
            false, true, true, false, false, true, false, false,
            true, false, false, true, true, true, false, false,
            false, false, true, false, true, true, true, true,
            true, true, false, true, false, false, true, true);
  }

  lemma Inverted(w: Word, c: Word)
    requires |w| == |c| == 32 && w == After(9) && forall i | 0 <= i < 32 :: c[i] == !w[i]
    ensures c == CHECK
  {
    WordOfBits(c,
               false, true, true, false, false, true, false, false,
               true, false, false, true, true, true, false, false,
               false, false, true, false, true, true, true, true,
               true, true, false, true, false, false, true, true);
  }

  lemma AllSet(w: Word)
    requires |w| == 32 && forall i | 0 <= i < 32 :: w[i]
    ensures w == ALL_SET
  {
    WordOfBits(w,
               true, true, true, true, true, true, true, true,
               true, true, true, true, true, true, true, true,
               true, true, true, true, true, true, true, true,
               true, true, true, true, true, true, true, true);
  }

  lemma RemainderOfDigits(w: Word, p: Word, k: nat)
    requires |w| == |p| == 32 && p == Reverse(CRC_32.polynomial) && k == 0
    requires forall i | 0 <= i < 32 :: w[i]
    ensures RemainderRight(w, p, Digits(k)) == After(9)
  {
    AllSet(w);
    assert w == After(k);
    FromDigit(w, p, k);
  }

  lemma Crc32Is(data: seq<Byte>)
    ensures CRC_32.Valid() && CRC_32.Width() == 32
    ensures var w, c := RemainderRight(CRC_32.initialValue, Reverse(CRC_32.polynomial), data), Crc(CRC_32, data);
            |w| == 32 && |c| == 32 && forall i | 0 <= i < 32 :: CRC_32.initialValue[i] && c[i] == !w[i]
  {
    ReflectWhole(CRC_32.polynomial);
  }

  /** The check value of CRC-32: its value over the characters '1' to '9'. */
  lemma CheckValue()
    ensures CRC_32.Valid()
    ensures Value(Crc(CRC_32, Digits(0))) == 0xCBF43926
  {
    CheckValueOf(Digits(0), 0, Crc(CRC_32, Digits(0)));
  }

  lemma CheckValueOf(data: seq<Byte>, k: nat, c: Word)
    requires CRC_32.Valid() && k == 0 && data == Digits(k) && c == Crc(CRC_32, data)
    ensures Value(c) == 0xCBF43926
  {
    Crc32Is(data);
    var p := Reverse(CRC_32.polynomial);
    RemainderOfDigits(CRC_32.initialValue, p, k);
    Inverted(RemainderRight(CRC_32.initialValue, p, data), c);
    CheckWord(c);
  }
}
