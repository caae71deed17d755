/**
 The CRC engine of CRC.h at full type width: the registers of the two shift directions as functions
 on bits, and the algebra (linearity, injectivity, duality, burst detection) behind the fast forms.
 */
module CrcRegister {
  import opened Bits

  /** A CRC register of a given width: current remainder and polynomial have equal width. */
  ghost predicate Fits(r: Word, p: Word) {
    |r| == |p| >= 8
  }

  /** One bit of the reflected loop: `(r & 1) ? (r >> 1) ^ p : r >> 1`. */
  function StepRight(r: Word, p: Word): (r': Word)
    requires |r| == |p| >= 1
    ensures |r'| == |r|
  {
    if r[0] then Xor(ShiftRight(r, 1), p) else ShiftRight(r, 1)
  }

  /** One bit of the unreflected loop: `(r & HIGHEST) ? (r << 1) ^ p : r << 1`. */
  function StepLeft(r: Word, p: Word): (r': Word)
    requires |r| == |p| >= 1
    ensures |r'| == |r|
  {
    if r[|r| - 1] then Xor(ShiftLeft(r, 1), p) else ShiftLeft(r, 1)
  }

  function StepsRight(r: Word, p: Word, n: nat): (r': Word)
    requires |r| == |p| >= 1
    ensures |r'| == |r|
    decreases n
  {
    if n == 0 then r else StepsRight(StepRight(r, p), p, n - 1)
  }

  function StepsLeft(r: Word, p: Word, n: nat): (r': Word)
    requires |r| == |p| >= 1
    ensures |r'| == |r|
    decreases n
  {
    if n == 0 then r else StepsLeft(StepLeft(r, p), p, n - 1)
  }

  /** One byte of the reflected loop. */
  function FeedRight(r: Word, p: Word, b: Byte): (r': Word)
    requires Fits(r, p)
    ensures |r'| == |r|
  {
    StepsRight(Xor(r, b + Zero(|r| - 8)), p, |b|)
  }

  /** One byte of the unreflected loop. */
  function FeedLeft(r: Word, p: Word, b: Byte): (r': Word)
    requires Fits(r, p)
    ensures |r'| == |r|
  {
    StepsLeft(Xor(r, Zero(|r| - 8) + b), p, |b|)
  }

  function RemainderRight(r: Word, p: Word, data: seq<Byte>): (r': Word)
    requires Fits(r, p)
    ensures |r'| == |r|
    decreases |data|
  {
    if data == [] then r else RemainderRight(FeedRight(r, p, data[0]), p, data[1..])
  }

  function RemainderLeft(r: Word, p: Word, data: seq<Byte>): (r': Word)
    requires Fits(r, p)
    ensures |r'| == |r|
    decreases |data|
  {
    if data == [] then r else RemainderLeft(FeedLeft(r, p, data[0]), p, data[1..])
  }

  // ----- Linearity over GF(2)

  lemma StepLinear(a: Word, b: Word, p: Word)
    requires |a| == |b| == |p| >= 1
    ensures StepRight(Xor(a, b), p) == Xor(StepRight(a, p), StepRight(b, p))
  {
  }

  lemma {:induction false} StepsLinear(a: Word, b: Word, p: Word, n: nat)
    requires |a| == |b| == |p| >= 1
    ensures StepsRight(Xor(a, b), p, n) == Xor(StepsRight(a, p, n), StepsRight(b, p, n))
    decreases n
  {
    if n > 0 {
      StepLinear(a, b, p);
      StepsLinear(StepRight(a, p), StepRight(b, p), p, n - 1);
    }
  }

  /** Bits that have not yet reached the low end are only shifted. */
  lemma {:induction false} StepsShift(t: Word, k: nat, p: Word)
    requires k + |t| == |p| >= 1
    ensures StepsRight(Zero(k) + t, p, k) == t + Zero(k)
    decreases k
  {
    if k == 0 {
      assert Zero(0) + t == t + Zero(0) == t;
    } else {
      assert StepRight(Zero(k) + t, p) == Zero(k - 1) + (t + [false]);
      StepsShift(t + [false], k - 1, p);
      assert (t + [false]) + Zero(k - 1) == t + Zero(k);
    }
  }

  /** What the lookup table holds for a byte: the remainder of that byte alone, from a zero register. */
  function EntryRight(p: Word, b: Byte): Word
    requires |p| >= 8
  {
    FeedRight(Zero(|p|), p, b)
  }

  function EntryLeft(p: Word, b: Byte): Word
    requires |p| >= 8
  {
    FeedLeft(Zero(|p|), p, b)
  }

  /** The table step equals the eight bit steps, reflected form. */
  lemma LookupRight(r: Word, p: Word, b: Byte)
    requires Fits(r, p)
    ensures FeedRight(r, p, b) == Xor(ShiftRight(r, 8), EntryRight(p, Xor(r[..8], b)))
  {
    var w := |r|;
    var low := Xor(r[..8], b) + Zero(w - 8);
    var high := Zero(8) + r[8..];
    assert Xor(r, b + Zero(w - 8)) == Xor(high, low);
    StepsLinear(high, low, p, |b|);
    StepsShift(r[8..], |b|, p);
    assert Xor(Zero(w), low) == low;
  }

  lemma OneByte(r: Word, p: Word, b: Byte)
    requires Fits(r, p)
    ensures RemainderRight(r, p, [b]) == FeedRight(r, p, b)
    ensures RemainderLeft(r, p, [b]) == FeedLeft(r, p, b)
  {
    assert [b][1..] == [];
  }

  // ----- Reflection duality

  lemma StepDual(r: Word, p: Word)
    requires |r| == |p| >= 1
    ensures Reverse(StepLeft(r, p)) == StepRight(Reverse(r), Reverse(p))
  {
    assert Reverse(ShiftLeft(r, 1)) == ShiftRight(Reverse(r), 1);
  }

  lemma {:induction false} StepsDual(r: Word, p: Word, n: nat)
    requires |r| == |p| >= 1
    ensures Reverse(StepsLeft(r, p, n)) == StepsRight(Reverse(r), Reverse(p), n)
    decreases n
  {
    if n > 0 {
      StepDual(r, p);
      StepsDual(StepLeft(r, p), p, n - 1);
    }
  }

  lemma FeedDual(r: Word, p: Word, b: Byte)
    requires Fits(r, p)
    ensures Reverse(FeedLeft(r, p, b)) == FeedRight(Reverse(r), Reverse(p), Reverse(b))
  {
    var x := Xor(r, Zero(|r| - 8) + b);
    assert Reverse(x) == Xor(Reverse(r), Reverse(b) + Zero(|r| - 8));
    StepsDual(x, p, |b|);
  }

  function ReverseEach(data: seq<Byte>): (d: seq<Byte>)
    ensures |d| == |data| && forall i | 0 <= i < |d| :: d[i] == Reverse(data[i])
  {
    seq(|data|, i requires 0 <= i < |data| => Reverse(data[i]))
  }

  /** Shifting right over data is shifting left over the same data with every byte bit-reversed. */
  lemma {:induction false} RemainderDual(r: Word, p: Word, data: seq<Byte>)
    requires Fits(r, p)
    ensures Reverse(RemainderLeft(r, p, data)) == RemainderRight(Reverse(r), Reverse(p), ReverseEach(data))
    decreases |data|
  {
    if data != [] {
      FeedDual(r, p, data[0]);
      assert ReverseEach(data)[1..] == ReverseEach(data[1..]);
      RemainderDual(FeedLeft(r, p, data[0]), p, data[1..]);
    }
  }

  lemma ReverseReverse<T>(s: seq<T>)
    ensures Reverse(Reverse(s)) == s
  {
  }

  lemma ReverseEachTwice(data: seq<Byte>)
    ensures ReverseEach(ReverseEach(data)) == data
  {
    forall i | 0 <= i < |data|
      ensures ReverseEach(ReverseEach(data))[i] == data[i]
    {
      ReverseReverse(data[i]);
    }
  }

  lemma ReverseXor(a: Word, b: Word)
    requires |a| == |b|
    ensures Reverse(Xor(a, b)) == Xor(Reverse(a), Reverse(b))
  {
  }

  lemma EntryDual(p: Word, x: Byte)
    requires |p| >= 8
    ensures Reverse(EntryLeft(p, x)) == EntryRight(Reverse(p), Reverse(x))
  {
    FeedDual(Zero(|p|), p, x);
    assert Reverse(Zero(|p|)) == Zero(|p|);
  }

  lemma ReverseInjective<T>(a: seq<T>, b: seq<T>)
    requires Reverse(a) == Reverse(b)
    ensures a == b
  {
    ReverseReverse(a);
    ReverseReverse(b);
  }

  /** The table step equals the eight bit steps, unreflected form. */
  lemma LookupLeft(r: Word, p: Word, b: Byte)
    requires Fits(r, p)
    ensures FeedLeft(r, p, b) == Xor(ShiftLeft(r, 8), EntryLeft(p, Xor(r[|r| - 8..], b)))
  {
    var x := Xor(r[|r| - 8..], b);
    var shifted := ShiftLeft(r, 8);
    var entry := EntryLeft(p, x);
    FeedDual(r, p, b);
    LookupRight(Reverse(r), Reverse(p), Reverse(b));
    EntryDual(p, x);
    LookupIndexDual(r, b);
    ReverseXor(shifted, entry);
    ReverseInjective(FeedLeft(r, p, b), Xor(shifted, entry));
  }

  lemma LookupIndexDual(r: Word, b: Byte)
    requires |r| >= 8
    ensures Xor(Reverse(r)[..8], Reverse(b)) == Reverse(Xor(r[|r| - 8..], b))
    ensures Reverse(ShiftLeft(r, 8)) == ShiftRight(Reverse(r), 8)
  {
  }

  // ----- Composition

  lemma {:induction false} RemainderRightAppend(r: Word, p: Word, a: seq<Byte>, b: seq<Byte>)
    requires Fits(r, p)
    ensures RemainderRight(r, p, a + b) == RemainderRight(RemainderRight(r, p, a), p, b)
    decreases |a|
  {
    if a == [] {
      assert a + b == b;
    } else {
      assert (a + b)[1..] == a[1..] + b;
      RemainderRightAppend(FeedRight(r, p, a[0]), p, a[1..], b);
    }
  }

  lemma {:induction false} RemainderLeftAppend(r: Word, p: Word, a: seq<Byte>, b: seq<Byte>)
    requires Fits(r, p)
    ensures RemainderLeft(r, p, a + b) == RemainderLeft(RemainderLeft(r, p, a), p, b)
    decreases |a|
  {
    if a == [] {
      assert a + b == b;
    } else {
      assert (a + b)[1..] == a[1..] + b;
      RemainderLeftAppend(FeedLeft(r, p, a[0]), p, a[1..], b);
    }
  }

  // ----- The bit-serial register, and burst errors

  /** The textbook register: one message bit enters at the low end at each step. */
  function Serial(r: Word, p: Word, message: seq<bool>): (r': Word)
    requires |r| == |p| >= 1
    ensures |r'| == |r|
    decreases |message|
  {
    if message == [] then r
    else Serial(StepRight(r[0 := r[0] != message[0]], p), p, message[1..])
  }

  lemma {:induction false} SerialAppend(r: Word, p: Word, a: seq<bool>, b: seq<bool>)
    requires |r| == |p| >= 1
    ensures Serial(r, p, a + b) == Serial(Serial(r, p, a), p, b)
    decreases |a|
  {
    if a == [] {
      assert a + b == b;
    } else {
      assert (a + b)[1..] == a[1..] + b;
      SerialAppend(StepRight(r[0 := r[0] != a[0]], p), p, a[1..], b);
    }
  }

  /** Bits xored in ahead of time arrive exactly when the serial register would take them. */
  lemma {:induction false} StepsAreSerial(r: Word, p: Word, m: seq<bool>)
    requires |r| == |p| >= 1 && |m| <= |r|
    ensures StepsRight(Xor(r, m + Zero(|r| - |m|)), p, |m|) == Serial(r, p, m)
    decreases |m|
  {
    var w := |r|;
    if m == [] {
      assert Xor(r, m + Zero(w)) == r;
    } else {
      var r0 := r[0 := r[0] != m[0]];
      var rest := m[1..] + Zero(w - |m[1..]|);
      var ahead := [false] + m[1..] + Zero(w - |m|);
      assert Xor(r, m + Zero(w - |m|)) == Xor(r0, ahead);
      StepLinear(r0, ahead, p);
      assert StepRight(ahead, p) == rest;
      StepsAreSerial(StepRight(r0, p), p, m[1..]);
    }
  }

  function Flatten(data: seq<Byte>): (m: seq<bool>)
    ensures |m| == 8 * |data|
  {
    if data == [] then [] else data[0] + Flatten(data[1..])
  }

  lemma {:induction false} RemainderIsSerial(r: Word, p: Word, data: seq<Byte>)
    requires Fits(r, p)
    ensures RemainderRight(r, p, data) == Serial(r, p, Flatten(data))
    decreases |data|
  {
    if data != [] {
      StepsAreSerial(r, p, data[0]);
      SerialAppend(r, p, data[0], Flatten(data[1..]));
      RemainderIsSerial(FeedRight(r, p, data[0]), p, data[1..]);
    }
  }

  /** The difference of two runs is the run of the difference. */
  lemma {:induction false} SerialLinear(r: Word, s: Word, p: Word, a: seq<bool>, b: seq<bool>)
    requires |r| == |s| == |p| >= 1 && |a| == |b|
    ensures Serial(Xor(r, s), p, Xor(a, b)) == Xor(Serial(r, p, a), Serial(s, p, b))
    decreases |a|
  {
    if a != [] {
      var r', s' := r[0 := r[0] != a[0]], s[0 := s[0] != b[0]];
      var d := Xor(r, s);
      assert d[0 := d[0] != Xor(a, b)[0]] == Xor(r', s');
      StepLinear(r', s', p);
      assert Xor(a, b)[1..] == Xor(a[1..], b[1..]);
      SerialLinear(StepRight(r', p), StepRight(s', p), p, a[1..], b[1..]);
    }
  }

  /** With the top tap set, a register that a message of m bits clears held nothing above its low m bits. */
  lemma {:induction false} ClearedOnlyFromLow(d: Word, p: Word, e: seq<bool>)
    requires |d| == |p| >= 1 && |e| <= |d| && p[|p| - 1]
    requires Serial(d, p, e) == Zero(|d|)
    ensures forall i | |e| <= i < |d| :: !d[i]
    decreases |e|
  {
    if e != [] {
      var d0 := d[0 := d[0] != e[0]];
      var d1 := StepRight(d0, p);
      ClearedOnlyFromLow(d1, p, e[1..]);
      assert !d1[|d| - 1];
      assert d1 == ShiftRight(d0, 1);
      forall i | |e| <= i < |d|
        ensures !d[i]
      {
        assert d[i] == d1[i - 1];
      }
    }
  }

  /** A message no longer than the register that leaves a zero register zero is itself all zero. */
  lemma {:induction false} ZeroOnlyFromZero(p: Word, e: seq<bool>)
    requires 1 <= |p| && |e| <= |p| && p[|p| - 1]
    requires Serial(Zero(|p|), p, e) == Zero(|p|)
    ensures e == Zero(|e|)
    decreases |e|
  {
    if e != [] {
      var d0 := Zero(|p|)[0 := e[0]];
      var d1 := StepRight(d0, p);
      ClearedOnlyFromLow(d1, p, e[1..]);
      assert !d1[|p| - 1];
      assert !e[0];
      assert d1 == Zero(|p|);
      ZeroOnlyFromZero(p, e[1..]);
      assert e == [false] + e[1..];
    }
  }

  /** The whole register is injective: only a zero difference runs to a zero difference. */
  lemma {:induction false} ZeroMessageInjective(d: Word, p: Word, n: nat)
    requires |d| == |p| >= 1 && p[|p| - 1]
    requires Serial(d, p, Zero(n)) == Zero(|d|)
    ensures d == Zero(|d|)
    decreases n
  {
    if n > 0 {
      var d0 := d[0 := d[0] != false];
      assert d0 == d;
      assert Zero(n)[1..] == Zero(n - 1);
      ZeroMessageInjective(StepRight(d, p), p, n - 1);
      var s := StepRight(d, p);
      assert !s[|d| - 1];
      assert !d[0];
      assert forall i | 1 <= i < |d| :: d[i] == s[i - 1];
    }
  }

  lemma {:induction false} SerialOfZero(p: Word, n: nat)
    requires |p| >= 1
    ensures Serial(Zero(|p|), p, Zero(n)) == Zero(|p|)
    decreases n
  {
    if n > 0 {
      assert Zero(|p|)[0 := false] == Zero(|p|);
      assert StepRight(Zero(|p|), p) == Zero(|p|);
      assert Zero(n)[1..] == Zero(n - 1);
      SerialOfZero(p, n - 1);
    }
  }

  lemma XorZero(a: Word, b: Word)
    requires |a| == |b|
    ensures Xor(a, b) == Zero(|a|) <==> a == b
  {
    if Xor(a, b) == Zero(|a|) {
      assert forall i | 0 <= i < |a| :: !Xor(a, b)[i];
    }
  }

  lemma ClearedWindow(p: Word, before: nat, window: seq<bool>, after: nat)
    requires |window| <= |p| && |p| >= 1 && p[|p| - 1]
    requires Serial(Zero(|p|), p, Zero(before) + (window + Zero(after))) == Zero(|p|)
    ensures window == Zero(|window|)
  {
    SerialAppend(Zero(|p|), p, Zero(before), window + Zero(after));
    SerialOfZero(p, before);
    SerialAppend(Zero(|p|), p, window, Zero(after));
    ZeroMessageInjective(Serial(Zero(|p|), p, window), p, after);
    ZeroOnlyFromZero(p, window);
  }

  /** A nonzero pattern confined to a window no longer than the register does not clear it. */
  lemma BurstLeavesTrace(p: Word, e: seq<bool>, start: nat, i: nat)
    requires |p| >= 1 && p[|p| - 1]
    requires start <= i < |e| && e[i]
    requires forall j | 0 <= j < |e| :: e[j] ==> start <= j < start + |p|
    ensures Serial(Zero(|p|), p, e) != Zero(|p|)
  {
    var stop := if start + |p| <= |e| then start + |p| else |e|;
    var window, after := e[start..stop], |e| - stop;
    assert e == e[..start] + (window + e[stop..]);
    assert e[..start] == Zero(start) && e[stop..] == Zero(after);
    assert window[i - start] && window != Zero(|window|);
    if Serial(Zero(|p|), p, e) == Zero(|p|) {
      ClearedWindow(p, start, window, after);
    }
  }

  /**
   Burst detection: two messages that differ, but only inside a window no longer than the register,
   never leave the same remainder.
   */
  lemma SerialDetectsBurst(r: Word, p: Word, a: seq<bool>, b: seq<bool>, start: nat)
    requires |r| == |p| >= 1 && p[|p| - 1]
    requires |a| == |b| && a != b
    requires forall i | 0 <= i < |a| :: a[i] != b[i] ==> start <= i < start + |p|
    ensures Serial(r, p, a) != Serial(r, p, b)
  {
    var e := Xor(a, b);
    var i :| 0 <= i < |a| && a[i] != b[i];
    assert e[i];
    SerialLinear(r, r, p, a, b);
    XorZero(r, r);
    BurstLeavesTrace(p, e, start, i);
    XorZero(Serial(r, p, a), Serial(r, p, b));
  }
}
