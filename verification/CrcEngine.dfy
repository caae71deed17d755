/**
 The entry points of CRC.h for a CRC whose width is the width of its integer type: reflection,
 finalisation, one-shot and continued calculation, bit by bit and by lookup table.
 */
module CrcEngine {
  import opened Bits
  import opened CrcRegister

  datatype Parameters = Parameters(
    polynomial: Word,
    initialValue: Word,
    finalXOR: Word,
    reflectInput: bool,
    reflectOutput: bool)
  {
    predicate Valid() {
      |polynomial| == |initialValue| == |finalXOR| >= 8
    }

    function Width(): nat {
      |polynomial|
    }
  }

  const CRC_32 := Parameters(FromNat(0x04C11DB7, 32), Ones(32), Ones(32), true, true)

  lemma LowestBit(n: nat, width: nat)
    requires width > 0
    ensures FromNat(n, width)[0] == (n % 2 == 1)
  {
  }

  lemma Crc32Detects()
    ensures CRC_32.Valid() && CRC_32.Width() == 32 && CRC_32.polynomial[0] && CRC_32.reflectInput
  {
    LowestBit(0x04C11DB7, 32);
  }

  // ----- Reflection

  function Reflect(value: Word, numBits: nat): (r: Word)
    requires numBits <= |value|
    ensures |r| == |value|
  {
    Reverse(value[..numBits]) + Zero(|value| - numBits)
  }

  method ReflectBits(value: Word, numBits: nat) returns (reversedValue: Word)
    requires numBits <= |value|
    ensures reversedValue == Reflect(value, numBits)
  {
    var w := |value|;
    var v := value;
    reversedValue := Zero(w);
    for i := 0 to numBits
      invariant v == value[i..] + Zero(i)
      invariant reversedValue == Reverse(value[..i]) + Zero(w - i)
    {
      reversedValue := Or(ShiftLeft(reversedValue, 1), And(v, Single(w, 0)));
      v := ShiftRight(v, 1);
    }
  }

  /** Reflecting twice gives the value back exactly when the value fits in the reflected bits. */
  lemma ReflectInvolution(value: Word, numBits: nat)
    requires numBits <= |value|
    ensures Reflect(Reflect(value, numBits), numBits) == value <==> value[numBits..] == Zero(|value| - numBits)
  {
    var twice := Reflect(Reflect(value, numBits), numBits);
    assert Reflect(value, numBits)[..numBits] == Reverse(value[..numBits]);
    ReverseReverse(value[..numBits]);
    assert twice == value[..numBits] + Zero(|value| - numBits);
    assert twice[numBits..] == Zero(|value| - numBits);
    assert value == value[..numBits] + value[numBits..];
  }

  lemma ReflectWhole(value: Word)
    ensures Reflect(value, |value|) == Reverse(value)
  {
    assert value[..|value|] == value;
  }

  // ----- Finalisation

  function Finalize(remainder: Word, finalXOR: Word, reflectOutput: bool): (crc: Word)
    requires |remainder| == |finalXOR|
    ensures |crc| == |remainder|
  {
    var r := if reflectOutput then Reflect(remainder, |remainder|) else remainder;
    And(Xor(r, finalXOR), Ones(|remainder|))
  }

  function UndoFinalize(crc: Word, finalXOR: Word, reflectOutput: bool): (remainder: Word)
    requires |crc| == |finalXOR|
    ensures |remainder| == |crc|
  {
    var r := Xor(And(crc, Ones(|crc|)), finalXOR);
    if reflectOutput then Reflect(r, |r|) else r
  }

  lemma FinalizeInverse(x: Word, finalXOR: Word, reflectOutput: bool)
    requires |x| == |finalXOR|
    ensures UndoFinalize(Finalize(x, finalXOR, reflectOutput), finalXOR, reflectOutput) == x
    ensures Finalize(UndoFinalize(x, finalXOR, reflectOutput), finalXOR, reflectOutput) == x
  {
    var r := if reflectOutput then Reverse(x) else x;
    ReflectWhole(x);
    assert And(Xor(r, finalXOR), Ones(|x|)) == Xor(r, finalXOR);
    assert Xor(Xor(r, finalXOR), finalXOR) == r;
    assert Xor(And(x, Ones(|x|)), finalXOR) == Xor(x, finalXOR);
    var u := Xor(x, finalXOR);
    ReflectWhole(r);
    ReflectWhole(u);
    ReverseReverse(x);
    ReverseReverse(u);
    ReflectWhole(Reverse(u));
    assert And(Xor(u, finalXOR), Ones(|x|)) == x;
  }

  // ----- The remainder and the CRC as functions

  function Remainder(p: Parameters, r: Word, data: seq<Byte>): (r': Word)
    requires p.Valid() && |r| == p.Width()
    ensures |r'| == |r|
  {
    if p.reflectInput then RemainderRight(r, Reflect(p.polynomial, p.Width()), data)
    else RemainderLeft(r, p.polynomial, data)
  }

  function Crc(p: Parameters, data: seq<Byte>): (crc: Word)
    requires p.Valid()
    ensures |crc| == p.Width()
  {
    Finalize(Remainder(p, p.initialValue, data), p.finalXOR, p.reflectInput != p.reflectOutput)
  }

  function CrcContinued(p: Parameters, data: seq<Byte>, crc: Word): (crc': Word)
    requires p.Valid() && |crc| == p.Width()
    ensures |crc'| == p.Width()
  {
    var flip := p.reflectInput != p.reflectOutput;
    Finalize(Remainder(p, UndoFinalize(crc, p.finalXOR, flip), data), p.finalXOR, flip)
  }

  /** A multi-part CRC is the CRC of the parts joined. */
  lemma ContinuedIsWhole(p: Parameters, a: seq<Byte>, b: seq<Byte>)
    requires p.Valid()
    ensures CrcContinued(p, b, Crc(p, a)) == Crc(p, a + b)
  {
    FinalizeInverse(Remainder(p, p.initialValue, a), p.finalXOR, p.reflectInput != p.reflectOutput);
    if p.reflectInput {
      RemainderRightAppend(p.initialValue, Reflect(p.polynomial, p.Width()), a, b);
    } else {
      RemainderLeftAppend(p.initialValue, p.polynomial, a, b);
    }
  }

  /** The reflected remainder is the reflection of the unreflected one over bit-reversed bytes. */
  lemma ReflectionDuality(p: Parameters, r: Word, data: seq<Byte>)
    requires p.Valid() && |r| == p.Width()
    ensures var q := p.(reflectInput := true);
            var u := p.(reflectInput := false);
            Remainder(q, r, data) == Reflect(Remainder(u, Reflect(r, |r|), ReverseEach(data)), |r|)
  {
    ReflectWhole(r);
    ReflectWhole(p.polynomial);
    ReflectWhole(RemainderLeft(Reverse(r), p.polynomial, ReverseEach(data)));
    RightIsReversedLeft(r, p.polynomial, data);
  }

  lemma RightIsReversedLeft(r: Word, p: Word, data: seq<Byte>)
    requires |r| == |p| >= 8
    ensures RemainderRight(r, Reverse(p), data) == Reverse(RemainderLeft(Reverse(r), p, ReverseEach(data)))
  {
    RemainderDual(Reverse(r), p, ReverseEach(data));
    ReverseReverse(r);
    ReverseEachTwice(data);
  }

  // ----- Error detection

  /** The order in which the engine takes the bits of a message. */
  function MessageBits(p: Parameters, data: seq<Byte>): (m: seq<bool>)
    ensures |m| == 8 * |data|
  {
    Flatten(if p.reflectInput then data else ReverseEach(data))
  }

  /** Two data that differ, but only inside as many consecutive message bits as the CRC is wide, have different CRCs. */
  lemma CrcDetectsBurst(p: Parameters, a: seq<Byte>, b: seq<Byte>, start: nat)
    requires p.Valid() && p.polynomial[0]
    requires |a| == |b| && a != b
    requires forall i | 0 <= i < 8 * |a| ::
      MessageBits(p, a)[i] != MessageBits(p, b)[i] ==> start <= i < start + p.Width()
    ensures Crc(p, a) != Crc(p, b)
  {
    var flip := p.reflectInput != p.reflectOutput;
    var ma, mb := MessageBits(p, a), MessageBits(p, b);
    assert forall i | 0 <= i < 8 * |a| :: ma[i] != mb[i] ==> start <= i < start + p.Width();
    if p.reflectInput {
      ReflectWhole(p.polynomial);
      RightDetectsBurst(p.initialValue, Reverse(p.polynomial), a, b, start);
    } else {
      LeftDetectsBurst(p.initialValue, p.polynomial, a, b, start);
    }
    FinalizeInverse(Remainder(p, p.initialValue, a), p.finalXOR, flip);
    FinalizeInverse(Remainder(p, p.initialValue, b), p.finalXOR, flip);
  }

  lemma RightDetectsBurst(r: Word, p: Word, a: seq<Byte>, b: seq<Byte>, start: nat)
    requires |r| == |p| >= 8 && p[|p| - 1]
    requires |a| == |b| && a != b
    requires forall i | 0 <= i < 8 * |a| :: Flatten(a)[i] != Flatten(b)[i] ==> start <= i < start + |p|
    ensures RemainderRight(r, p, a) != RemainderRight(r, p, b)
  {
    FlattenInjective(a, b);
    RemainderIsSerial(r, p, a);
    RemainderIsSerial(r, p, b);
    SerialDetectsBurst(r, p, Flatten(a), Flatten(b), start);
  }

  lemma LeftDetectsBurst(r: Word, p: Word, a: seq<Byte>, b: seq<Byte>, start: nat)
    requires |r| == |p| >= 8 && p[0]
    requires |a| == |b| && a != b
    requires forall i | 0 <= i < 8 * |a| ::
      Flatten(ReverseEach(a))[i] != Flatten(ReverseEach(b))[i] ==> start <= i < start + |p|
    ensures RemainderLeft(r, p, a) != RemainderLeft(r, p, b)
  {
    ReverseEachTwice(a);
    ReverseEachTwice(b);
    RightDetectsBurst(Reverse(r), Reverse(p), ReverseEach(a), ReverseEach(b), start);
    RemainderDual(r, p, a);
    RemainderDual(r, p, b);
  }

  lemma {:induction false} FlattenInjective(a: seq<Byte>, b: seq<Byte>)
    requires |a| == |b|
    ensures Flatten(a) == Flatten(b) <==> a == b
  {
    if a != [] {
      FlattenInjective(a[1..], b[1..]);
      assert Flatten(a)[..8] == a[0] && Flatten(b)[..8] == b[0];
      assert Flatten(a)[8..] == Flatten(a[1..]) && Flatten(b)[8..] == Flatten(b[1..]);
      assert a == [a[0]] + a[1..] && b == [b[0]] + b[1..];
    }
  }

  lemma {:induction false} FlattenIndex(a: seq<Byte>, i: nat)
    requires i < 8 * |a|
    ensures Flatten(a)[i] == a[i / 8][i % 8]
  {
    if i >= 8 {
      FlattenIndex(a[1..], i - 8);
    }
  }

  /** Byte form: a difference confined to as many consecutive bytes as the CRC has is always detected. */
  lemma CrcDetectsByteBurst(p: Parameters, a: seq<Byte>, b: seq<Byte>, at: nat)
    requires p.Valid() && p.polynomial[0]
    requires |a| == |b| && a != b
    requires forall i | 0 <= i < |a| :: a[i] != b[i] ==> at <= i < at + p.Width() / 8
    ensures Crc(p, a) != Crc(p, b)
  {
    forall i | 0 <= i < 8 * |a|
      ensures MessageBits(p, a)[i] != MessageBits(p, b)[i] ==> 8 * at <= i < 8 * at + p.Width()
    {
      FlattenIndex(if p.reflectInput then a else ReverseEach(a), i);
      FlattenIndex(if p.reflectInput then b else ReverseEach(b), i);
    }
    CrcDetectsBurst(p, a, b, 8 * at);
  }

  // ----- The loops

  /** The bit loop of the reflected branch. */
  method ShiftBitsRight(r: Word, polynomial: Word, bits: nat) returns (remainder: Word)
    requires |r| == |polynomial| >= 1
    ensures remainder == StepsRight(r, polynomial, bits)
  {
    remainder := r;
    for i := 0 to bits
      invariant |remainder| == |r| && StepsRight(remainder, polynomial, bits - i) == StepsRight(r, polynomial, bits)
    {
      var was := remainder;
      remainder := if was[0] then Xor(ShiftRight(was, 1), polynomial) else ShiftRight(was, 1);
      assert remainder == StepRight(was, polynomial);
    }
  }

  /** The bit loop of the unreflected branch. */
  method ShiftBitsLeft(r: Word, polynomial: Word, bits: nat) returns (remainder: Word)
    requires |r| == |polynomial| >= 1
    ensures remainder == StepsLeft(r, polynomial, bits)
  {
    remainder := r;
    for i := 0 to bits
      invariant |remainder| == |r| && StepsLeft(remainder, polynomial, bits - i) == StepsLeft(r, polynomial, bits)
    {
      var was := remainder;
      remainder := if was[|was| - 1] then Xor(ShiftLeft(was, 1), polynomial) else ShiftLeft(was, 1);
      assert remainder == StepLeft(was, polynomial);
    }
  }

  method CalculateRight(data: seq<Byte>, polynomial: Word, initial: Word) returns (remainder: Word)
    requires |initial| == |polynomial| >= 8
    ensures remainder == RemainderRight(initial, polynomial, data)
  {
    remainder := initial;
    for k := 0 to |data|
      invariant |remainder| == |initial|
      invariant RemainderRight(remainder, polynomial, data[k..]) == RemainderRight(initial, polynomial, data)
    {
      assert data[k..][1..] == data[k + 1..];
      remainder := Xor(remainder, data[k] + Zero(|initial| - 8));
      remainder := ShiftBitsRight(remainder, polynomial, |data[k]|);
    }
  }

  method CalculateLeft(data: seq<Byte>, polynomial: Word, initial: Word) returns (remainder: Word)
    requires |initial| == |polynomial| >= 8
    ensures remainder == RemainderLeft(initial, polynomial, data)
  {
    remainder := initial;
    for k := 0 to |data|
      invariant |remainder| == |initial|
      invariant RemainderLeft(remainder, polynomial, data[k..]) == RemainderLeft(initial, polynomial, data)
    {
      assert data[k..][1..] == data[k + 1..];
      remainder := Xor(remainder, Zero(|initial| - 8) + data[k]);
      remainder := ShiftBitsLeft(remainder, polynomial, |data[k]|);
    }
  }

  method CalculateRemainder(data: seq<Byte>, parameters: Parameters, initial: Word) returns (remainder: Word)
    requires parameters.Valid() && |initial| == parameters.Width()
    ensures remainder == Remainder(parameters, initial, data)
  {
    if parameters.reflectInput {
      var polynomial := ReflectBits(parameters.polynomial, parameters.Width());
      remainder := CalculateRight(data, polynomial, initial);
    } else {
      remainder := CalculateLeft(data, parameters.polynomial, initial);
    }
  }

  /** What the table holds for a byte. */
  function Entry(p: Parameters, b: Byte): (e: Word)
    requires p.Valid()
    ensures |e| == p.Width()
  {
    if p.reflectInput then EntryRight(Reflect(p.polynomial, p.Width()), b) else EntryLeft(p.polynomial, b)
  }

  lemma EntryIsRemainder(p: Parameters, b: Byte)
    requires p.Valid()
    ensures Entry(p, b) == Remainder(p, Zero(p.Width()), [b])
  {
    OneByte(Zero(p.Width()), Reflect(p.polynomial, p.Width()), b);
    OneByte(Zero(p.Width()), p.polynomial, b);
  }

  lemma MaskWhole(x: Word)
    ensures And(x, Ones(|x|)) == x
  {
  }

  /** `table` holds every byte's entry below n. */
  ghost predicate FilledTo(table: array<Word>, p: Parameters, n: nat)
    requires p.Valid()
    reads table
  {
    n <= table.Length && forall k {:trigger table[k]} | 0 <= k < n :: table[k] == Entry(p, FromNat(k, 8))
  }

  method StoreEntry(p: Parameters, table: array<Word>, byte: nat)
    requires p.Valid() && byte < table.Length && FilledTo(table, p, byte)
    modifies table
    ensures FilledTo(table, p, byte + 1)
  {
    var crc := CalculateRemainder([FromNat(byte, 8)], p, Zero(p.Width()));
    EntryIsRemainder(p, FromNat(byte, 8));
    MaskWhole(crc);
    table[byte] := And(crc, Ones(p.Width()));
  }

  lemma FilledAt(table: array<Word>, p: Parameters, b: Byte)
    requires p.Valid() && FilledTo(table, p, 256)
    ensures Value(b) < 256 && table[Value(b)] == Entry(p, b)
  {
    FromNatOfValue(b);
  }

  /** One byte of the reflected table loop. */
  method LookupByteRight(r: Word, p: Parameters, table: array<Word>, b: Byte) returns (remainder: Word)
    requires p.Valid() && p.reflectInput && |r| == p.Width() && FilledTo(table, p, 256)
    ensures remainder == FeedRight(r, Reflect(p.polynomial, p.Width()), b)
  {
    var index := Xor(r[..8], b);
    FilledAt(table, p, index);
    remainder := Xor(ShiftRight(r, 8), table[Value(index)]);
    LookupRight(r, Reflect(p.polynomial, p.Width()), b);
  }

  /** One byte of the unreflected table loop. */
  method LookupByteLeft(r: Word, p: Parameters, table: array<Word>, b: Byte) returns (remainder: Word)
    requires p.Valid() && !p.reflectInput && |r| == p.Width() && FilledTo(table, p, 256)
    ensures remainder == FeedLeft(r, p.polynomial, b)
  {
    assert ShiftRight(r, |r| - 8)[..8] == r[|r| - 8..];
    var index := Xor(ShiftRight(r, |r| - 8)[..8], b);
    FilledAt(table, p, index);
    remainder := Xor(ShiftLeft(r, 8), table[Value(index)]);
    LookupLeft(r, p.polynomial, b);
  }

  method LookupRightLoop(data: seq<Byte>, p: Parameters, table: array<Word>, initial: Word) returns (remainder: Word)
    requires p.Valid() && p.reflectInput && |initial| == p.Width() && FilledTo(table, p, 256)
    ensures remainder == RemainderRight(initial, Reflect(p.polynomial, p.Width()), data)
  {
    ghost var polynomial := Reflect(p.polynomial, p.Width());
    remainder := initial;
    for k := 0 to |data|
      invariant |remainder| == |initial|
      invariant RemainderRight(remainder, polynomial, data[k..]) == RemainderRight(initial, polynomial, data)
    {
      assert data[k..][1..] == data[k + 1..];
      remainder := LookupByteRight(remainder, p, table, data[k]);
    }
  }

  method LookupLeftLoop(data: seq<Byte>, p: Parameters, table: array<Word>, initial: Word) returns (remainder: Word)
    requires p.Valid() && !p.reflectInput && |initial| == p.Width() && FilledTo(table, p, 256)
    ensures remainder == RemainderLeft(initial, p.polynomial, data)
  {
    remainder := initial;
    for k := 0 to |data|
      invariant |remainder| == |initial|
      invariant RemainderLeft(remainder, p.polynomial, data[k..]) == RemainderLeft(initial, p.polynomial, data)
    {
      assert data[k..][1..] == data[k + 1..];
      remainder := LookupByteLeft(remainder, p, table, data[k]);
    }
  }

  class Table {
    const parameters: Parameters
    const table: array<Word>

    ghost predicate Valid()
      reads this, table
    {
      parameters.Valid() && table.Length == 256 && FilledTo(table, parameters, 256)
    }

    constructor (parameters: Parameters)
      requires parameters.Valid()
      ensures Valid() && fresh(table) && this.parameters == parameters
    {
      this.parameters := parameters;
      table := new Word[256];
      new;
      InitTable();
    }

    method InitTable()
      requires parameters.Valid() && table.Length == 256
      modifies table
      ensures Valid()
    {
      var byte := 0;
      var running := true;
      while running
        invariant 0 <= byte < 256 && (!running ==> byte == 0)
        invariant FilledTo(table, parameters, if running then byte else 256)
        decreases running, 256 - byte
      {
        StoreEntry(parameters, table, byte);
        byte := if byte == 255 then 0 else byte + 1;  // ++byte on an unsigned char
        running := byte != 0;
      }
    }

    method LookupRemainder(data: seq<Byte>, initial: Word) returns (remainder: Word)
      requires Valid() && |initial| == parameters.Width()
      ensures remainder == Remainder(parameters, initial, data)
    {
      if parameters.reflectInput {
        remainder := LookupRightLoop(data, parameters, table, initial);
      } else {
        remainder := LookupLeftLoop(data, parameters, table, initial);
      }
    }

    method Calculate(data: seq<Byte>) returns (crc: Word)
      requires Valid()
      ensures crc == Crc(parameters, data)
    {
      var remainder := LookupRemainder(data, parameters.initialValue);
      crc := Finalize(remainder, parameters.finalXOR, parameters.reflectInput != parameters.reflectOutput);
    }

    method CalculateMore(data: seq<Byte>, crc: Word) returns (crc': Word)
      requires Valid() && |crc| == parameters.Width()
      ensures crc' == CrcContinued(parameters, data, crc)
      ensures forall before: seq<Byte> | crc == Crc(parameters, before) :: crc' == Crc(parameters, before + data)
    {
      var flip := parameters.reflectInput != parameters.reflectOutput;
      var remainder := LookupRemainder(data, UndoFinalize(crc, parameters.finalXOR, flip));
      crc' := Finalize(remainder, parameters.finalXOR, flip);
      ContinuedIsWholeForAll(parameters, data, crc);
    }
  }

  lemma ContinuedIsWholeForAll(p: Parameters, data: seq<Byte>, crc: Word)
    requires p.Valid() && |crc| == p.Width()
    ensures forall before: seq<Byte> | crc == Crc(p, before) :: CrcContinued(p, data, crc) == Crc(p, before + data)
  {
    forall before: seq<Byte> | crc == Crc(p, before)
      ensures CrcContinued(p, data, crc) == Crc(p, before + data)
    {
      ContinuedIsWhole(p, before, data);
    }
  }

  method Calculate(data: seq<Byte>, parameters: Parameters) returns (crc: Word)
    requires parameters.Valid()
    ensures crc == Crc(parameters, data)
  {
    var remainder := CalculateRemainder(data, parameters, parameters.initialValue);
    crc := Finalize(remainder, parameters.finalXOR, parameters.reflectInput != parameters.reflectOutput);
  }

  method CalculateMore(data: seq<Byte>, parameters: Parameters, crc: Word) returns (crc': Word)
    requires parameters.Valid() && |crc| == parameters.Width()
    ensures crc' == CrcContinued(parameters, data, crc)
    ensures forall before: seq<Byte> | crc == Crc(parameters, before) :: crc' == Crc(parameters, before + data)
  {
    var flip := parameters.reflectInput != parameters.reflectOutput;
    var remainder := CalculateRemainder(data, parameters, UndoFinalize(crc, parameters.finalXOR, flip));
    crc' := Finalize(remainder, parameters.finalXOR, flip);
    ContinuedIsWholeForAll(parameters, data, crc);
  }
}
