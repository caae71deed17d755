/**
 Machine integers of any width, as their bits: index 0 is the least significant bit.
 The operators are the ones the C++ code uses on unsigned integers of a fixed width.
 */
module Bits {

  type Word = seq<bool>

  type Byte = b: Word | |b| == 8 witness [false, false, false, false, false, false, false, false]

  function Zero(width: nat): (z: Word)
    ensures |z| == width && forall i | 0 <= i < width :: !z[i]
  {
    seq(width, _ => false)
  }

  function Ones(width: nat): (z: Word)
    ensures |z| == width && forall i | 0 <= i < width :: z[i]
  {
    seq(width, _ => true)
  }

  /** The integer with one bit set, `1 << k`. */
  function Single(width: nat, k: nat): (z: Word)
    ensures |z| == width && forall i | 0 <= i < width :: z[i] <==> i == k
  {
    seq(width, i => i == k)
  }

  function Xor(a: Word, b: Word): (c: Word)
    requires |a| == |b|
    ensures |c| == |a| && forall i | 0 <= i < |a| :: c[i] == (a[i] != b[i])
  {
    seq(|a|, i requires 0 <= i < |a| => a[i] != b[i])
  }

  function And(a: Word, b: Word): (c: Word)
    requires |a| == |b|
    ensures |c| == |a| && forall i | 0 <= i < |a| :: c[i] == (a[i] && b[i])
  {
    seq(|a|, i requires 0 <= i < |a| => a[i] && b[i])
  }

  function Or(a: Word, b: Word): (c: Word)
    requires |a| == |b|
    ensures |c| == |a| && forall i | 0 <= i < |a| :: c[i] == (a[i] || b[i])
  {
    seq(|a|, i requires 0 <= i < |a| => a[i] || b[i])
  }

  function Not(a: Word): (c: Word)
    ensures |c| == |a| && forall i | 0 <= i < |a| :: c[i] == !a[i]
  {
    seq(|a|, i requires 0 <= i < |a| => !a[i])
  }

  /** `a >> k` */
  function ShiftRight(a: Word, k: nat): Word
    requires k <= |a|
  {
    a[k..] + Zero(k)
  }

  /** `a << k` */
  function ShiftLeft(a: Word, k: nat): Word
    requires k <= |a|
  {
    Zero(k) + a[..|a| - k]
  }

  function Reverse<T>(s: seq<T>): (r: seq<T>)
    ensures |r| == |s| && forall i | 0 <= i < |s| :: r[i] == s[|s| - 1 - i]
  {
    seq(|s|, i requires 0 <= i < |s| => s[|s| - 1 - i])
  }

  /** The unsigned value of a word. */
  function Value(a: Word): (n: nat)
    ensures n < Pow2(|a|)
  {
    if a == [] then 0 else (if a[0] then 1 else 0) + 2 * Value(a[1..])
  }

  /** The conversion of `n` to an unsigned integer of the given width: `n` modulo 2 to the `width`. */
  function FromNat(n: nat, width: nat): (a: Word)
    ensures |a| == width
  {
    if width == 0 then [] else [n % 2 == 1] + FromNat(n / 2, width - 1)
  }

  function Pow2(n: nat): (p: nat)
    ensures p > 0
  {
    if n == 0 then 1 else 2 * Pow2(n - 1)
  }

  lemma {:induction false} ValueOfFromNat(n: nat, width: nat)
    requires n < Pow2(width)
    ensures Value(FromNat(n, width)) == n
  {
    if width > 0 {
      ValueOfFromNat(n / 2, width - 1);
      assert FromNat(n, width)[1..] == FromNat(n / 2, width - 1);
    }
  }

  lemma {:induction false} FromNatOfValue(a: Word)
    ensures FromNat(Value(a), |a|) == a
  {
    if a != [] {
      FromNatOfValue(a[1..]);
      assert Value(a) / 2 == Value(a[1..]);
      assert a == [a[0]] + a[1..];
    }
  }

  lemma {:induction false} ValueAppend(a: Word, b: Word)
    ensures Value(a + b) == Value(a) + Pow2(|a|) * Value(b)
  {
    if a == [] {
      assert a + b == b;
    } else {
      var rest := a[1..];
      assert (a + b)[1..] == rest + b;
      ValueAppend(rest, b);
      Double(if a[0] then 1 else 0, Value(rest), Pow2(|rest|), Value(b));
    }
  }

  lemma Double(x: nat, r: nat, p: nat, v: nat)
    ensures x + 2 * (r + p * v) == (x + 2 * r) + (2 * p) * v
  {
  }

  lemma PowEight(n: nat)
    requires n == 8
    ensures Pow2(n) == 256
  {
    assert Pow2(n - 8) == 1;
    assert Pow2(n - 6) == 4;
    assert Pow2(n - 4) == 16;
    assert Pow2(n - 2) == 64;
  }

  lemma ValueAfterByte(a: Word, b: Word)
    requires |a| == 8
    ensures Value(a + b) == Value(a) + 256 * Value(b)
  {
    ValueAppend(a, b);
    PowEight(|a|);
  }
}
