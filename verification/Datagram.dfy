/** The 16-bit flag set of the protocol, as the set of its one bits; six of them have names. */
module Flags {
  import opened Bits

  type FlagSet = f: set<nat> | forall k | k in f :: k < 16

  const NONE: FlagSet := {}
  const SQN: FlagSet := {0}
  const ACK: FlagSet := {1}
  const FIN: FlagSet := {2}
  const ABR: FlagSet := {3}
  const SYN: FlagSet := {4}
  const AGN: FlagSet := {5}

  function Or(x: FlagSet, y: FlagSet): FlagSet {
    x + y
  }

  function And(x: FlagSet, y: FlagSet): FlagSet {
    x * y
  }

  function ClearFlag(original: FlagSet, toClear: FlagSet): FlagSet {
    original - toClear
  }

  /** The test `(flags & flag) == flag`. */
  predicate Has(flags: FlagSet, flag: FlagSet) {
    And(flags, flag) == flag
  }

  type FlagWord = w: Word | |w| == 16 witness Zero(16)

  function ToWord(f: FlagSet): FlagWord {
    seq(16, i => i in f)
  }

  function FromWord(w: FlagWord): FlagSet {
    set i: nat | i < 16 && w[i]
  }

  lemma FlagWords(f: FlagSet, w: FlagWord)
    ensures FromWord(ToWord(f)) == f && ToWord(FromWord(w)) == w
  {
  }

  /** Each flag is one bit of the word. */
  lemma FlagBits()
    ensures ToWord(NONE) == Zero(16)
    ensures ToWord(SQN) == Single(16, 0) && ToWord(ACK) == Single(16, 1) && ToWord(FIN) == Single(16, 2)
    ensures ToWord(ABR) == Single(16, 3) && ToWord(SYN) == Single(16, 4) && ToWord(AGN) == Single(16, 5)
  {
  }

  /** The flag operators are the operators of the 16-bit integers. */
  lemma FlagOperators(x: FlagSet, y: FlagSet)
    ensures ToWord(Or(x, y)) == Bits.Or(ToWord(x), ToWord(y))
    ensures ToWord(And(x, y)) == Bits.And(ToWord(x), ToWord(y))
    ensures ToWord(ClearFlag(x, y)) == Bits.And(ToWord(x), Bits.Not(ToWord(y)))
  {
  }
}

/** What an intact datagram says: its flags and its payload. The protocol logic sees nothing else. */
module Messages {
  import Bits
  import opened Flags

  const SQN_START_VAL := false

  datatype Message = Message(flags: FlagSet, payload: seq<Bits.Byte>) {
    predicate GetSqn() {
      Has(flags, SQN)
    }

    predicate IsSyn() {
      flags == SYN && GetSqn() == SQN_START_VAL
    }

    predicate IsAbr() {
      flags == ABR && GetSqn() == SQN_START_VAL
    }

    predicate IsAckFor(original: Message) {
      && Has(flags, ACK)
      && ClearFlag(flags, ACK) == original.flags
      && GetSqn() == original.GetSqn()
    }

    function CreateAck(): Message {
      New(Or(flags, ACK), [], GetSqn())
    }
  }

  /** The constructors set the sequence bit on top of the given flags. */
  function New(flags: FlagSet, data: seq<Bits.Byte>, sqn: bool): Message {
    Message(if sqn then Or(flags, SQN) else flags, data)
  }

  const ABORT := New(ABR, [], SQN_START_VAL)

  /** The receiver's view of a datagram after its integrity check. */
  datatype Received = Corrupt | Intact(message: Message)

  /**
   An acknowledgement echoes the flags alone: it answers exactly the messages whose flags are those of
   the original without ACK, whatever their payload.
   */
  lemma AckAnswers(m: Message, other: Message)
    ensures m.CreateAck().IsAckFor(other) <==> ClearFlag(m.flags, ACK) == other.flags
    ensures m.CreateAck().IsAckFor(m) <==> !Has(m.flags, ACK)
    ensures m.CreateAck().payload == [] && m.CreateAck().GetSqn() == m.GetSqn()
  {
  }
}

/** The packed 512-byte datagram: construction, checksum, acknowledgement and its form on the wire. */
module Datagrams {
  import opened Bits
  import opened Flags
  import opened Messages
  import CrcEngine
  import opened CrcRegister

  const HEADER_SIZE: nat := 8
  const MAX_DATAGRAM_SIZE: nat := 512
  const MAX_PAYLOAD_SIZE: nat := 504
  datatype RawDatagram = RawDatagram(checksum: Word, payloadSize: nat, flags: FlagSet, payload: seq<Byte>) {
    predicate Packed() {
      |checksum| == 32 && payloadSize < 0x1_0000 && |payload| == MAX_PAYLOAD_SIZE
    }
  }

  function ZeroBytes(n: nat): (z: seq<Byte>)
    ensures |z| == n && forall i | 0 <= i < n :: z[i] == Zero(8)
  {
    seq(n, _ => Zero(8))
  }

  type Datagram = d: RawDatagram | d.Packed()
    witness RawDatagram(Zero(32), 0, NONE, ZeroBytes(MAX_PAYLOAD_SIZE))

  // ----- Layout: checksum, payload size, flags, payload, little-endian

  /** The low-order byte first. */
  function Bytes(w: Word): (b: seq<Byte>)
    requires |w| % 8 == 0
    ensures |b| == |w| / 8
  {
    if w == [] then [] else [w[..8]] + Bytes(w[8..])
  }

  function Join(b: seq<Byte>): (w: Word)
    ensures |w| == 8 * |b|
  {
    if b == [] then [] else b[0] + Join(b[1..])
  }

  /** The bytes the checksum covers: everything after the checksum field. */
  function Covered(d: Datagram): (region: seq<Byte>)
    ensures |region| == MAX_DATAGRAM_SIZE - 4
  {
    Bytes(FromNat(d.payloadSize, 16)) + Bytes(ToWord(d.flags)) + d.payload
  }

  function Image(d: Datagram): (image: seq<Byte>)
    ensures |image| == MAX_DATAGRAM_SIZE
  {
    Bytes(d.checksum) + Covered(d)
  }

  /** The datagram that a 512-byte memory holds. */
  function View(image: seq<Byte>): (d: Datagram)
    requires |image| == MAX_DATAGRAM_SIZE
  {
    SizeFits(image[4..6]);
    RawDatagram(Join(image[..4]), Value(Join(image[4..6])), FromWord(Join(image[6..8])), image[8..])
  }

  lemma SizeFits(b: seq<Byte>)
    requires |b| == 2
    ensures Value(Join(b)) < 0x1_0000
  {
    PowSixteen();
  }

  lemma PowSixteen()
    ensures Pow2(16) == 0x1_0000
  {
    assert Pow2(4) == 16;
    assert Pow2(8) == 256;
    assert Pow2(12) == 0x1000;
  }

  // ----- Construction and inspection

  function Checksum(d: Datagram): (c: Word)
    ensures |c| == 32
  {
    CrcEngine.Crc(CrcEngine.CRC_32, Covered(d))
  }

  function Size(d: Datagram): nat {
    d.payloadSize + HEADER_SIZE
  }

  predicate CheckIntegrity(d: Datagram) {
    Checksum(d) == d.checksum && Size(d) <= MAX_DATAGRAM_SIZE
  }

  /** A zeroed payload with the data copied in, before the checksum is computed. */
  function Unchecked(m: Message): (d: Datagram)
    requires |m.payload| <= MAX_PAYLOAD_SIZE
  {
    RawDatagram(Zero(32), |m.payload|, m.flags, m.payload + ZeroBytes(MAX_PAYLOAD_SIZE - |m.payload|))
  }

  /** The object the constructors build for a message. */
  function Encode(m: Message): (d: Datagram)
    requires |m.payload| <= MAX_PAYLOAD_SIZE
  {
    Unchecked(m).(checksum := Checksum(Unchecked(m)))
  }

  function Payload(d: Datagram): seq<Byte>
    requires Size(d) <= MAX_DATAGRAM_SIZE
  {
    d.payload[..d.payloadSize]
  }

  /** What the receiver makes of a datagram. */
  function Parse(d: Datagram): Received {
    if CheckIntegrity(d) then Intact(Message(d.flags, Payload(d))) else Corrupt
  }

  /** Every constructed datagram passes its own check and reads back as its message. */
  lemma ParseOfEncode(m: Message)
    requires |m.payload| <= MAX_PAYLOAD_SIZE
    ensures Parse(Encode(m)) == Intact(m)
  {
    var d := Encode(m);
    assert Covered(d) == Covered(Unchecked(m));
  }

  // ----- The wire

  /** What `sendto` puts on the wire: the first `size()` bytes of the object. */
  function Send(d: Datagram): (wire: seq<Byte>)
    requires Size(d) <= MAX_DATAGRAM_SIZE
    ensures |wire| == Size(d)
  {
    Image(d)[..Size(d)]
  }

  /** What `recvfrom` leaves in a memory: at most 512 bytes overwritten from the start. */
  function Overwrite(memory: seq<Byte>, wire: seq<Byte>): (m: seq<Byte>)
    requires |memory| == MAX_DATAGRAM_SIZE
    ensures |m| == MAX_DATAGRAM_SIZE
  {
    if |wire| <= MAX_DATAGRAM_SIZE then wire + memory[|wire|..] else wire[..MAX_DATAGRAM_SIZE]
  }

  /** A datagram received into a default-constructed one. */
  function Receive(wire: seq<Byte>): Datagram {
    View(Overwrite(ZeroBytes(MAX_DATAGRAM_SIZE), wire))
  }

  lemma {:induction false} JoinBytes(w: Word)
    requires |w| % 8 == 0
    ensures Join(Bytes(w)) == w
  {
    if w != [] {
      JoinBytes(w[8..]);
      assert Bytes(w)[1..] == Bytes(w[8..]);
      assert w == w[..8] + w[8..];
    }
  }

  lemma {:induction false} BytesJoin(b: seq<Byte>)
    ensures Bytes(Join(b)) == b
  {
    if b != [] {
      BytesJoin(b[1..]);
      var w := Join(b);
      assert w[..8] == b[0] && w[8..] == Join(b[1..]);
      assert b == [b[0]] + b[1..];
    }
  }

  lemma Slices(a: seq<Byte>, b: seq<Byte>, c: seq<Byte>, rest: seq<Byte>)
    requires |a| == 4 && |b| == |c| == 2
    ensures var image := a + (b + c + rest);
            image[..4] == a && image[4..6] == b && image[6..8] == c && image[8..] == rest
  {
  }

  lemma ViewOfImage(d: Datagram)
    ensures View(Image(d)) == d
  {
    Slices(Bytes(d.checksum), Bytes(FromNat(d.payloadSize, 16)), Bytes(ToWord(d.flags)), d.payload);
    JoinBytes(d.checksum);
    JoinBytes(ToWord(d.flags));
    FlagWords(d.flags, ToWord(d.flags));
    JoinBytes(FromNat(d.payloadSize, 16));
    PowSixteen();
    ValueOfFromNat(d.payloadSize, 16);
  }

  lemma ImageOfView(image: seq<Byte>)
    requires |image| == MAX_DATAGRAM_SIZE
    ensures Image(View(image)) == image
    ensures Covered(View(image)) == image[4..]
  {
    BytesJoin(image[..4]);
    BytesJoin(image[4..6]);
    BytesJoin(image[6..8]);
    FlagWords(NONE, Join(image[6..8]));
    FromNatOfValue(Join(image[4..6]));
    assert image[4..] == image[4..6] + image[6..8] + image[8..];
    assert image == image[..4] + image[4..];
  }

  /** The byte at which each field starts, and the order of the bytes in it: checksum, payload size, flags, payload. */
  lemma Layout(d: Datagram)
    ensures forall i | 0 <= i < 32 :: Image(d)[i / 8][i % 8] == d.checksum[i]
    ensures Value(Image(d)[4]) == d.payloadSize % 256 && Value(Image(d)[5]) == d.payloadSize / 256
    ensures forall i | 0 <= i < 16 :: Image(d)[6 + i / 8][i % 8] <==> i in d.flags
    ensures forall i | 0 <= i < MAX_PAYLOAD_SIZE :: Image(d)[8 + i] == d.payload[i]
  {
    var size := FromNat(d.payloadSize, 16);
    forall i | 0 <= i < 32
      ensures Image(d)[i / 8][i % 8] == d.checksum[i]
    {
      ByteOf(d.checksum, i);
    }
    forall i | 0 <= i < 16
      ensures Image(d)[6 + i / 8][i % 8] <==> i in d.flags
    {
      ByteOf(ToWord(d.flags), i);
    }
    SizeBytes(d.payloadSize, size, |size|);
  }

  lemma {:induction false} ByteOf(w: Word, i: nat)
    requires |w| % 8 == 0 && i < |w|
    ensures i / 8 < |Bytes(w)| && Bytes(w)[i / 8][i % 8] == w[i]
  {
    if i >= 8 {
      ByteOf(w[8..], i - 8);
    }
  }

  lemma SizeBytes(n: nat, size: Word, width: nat)
    requires n < 0x1_0000 && width == 16 && size == FromNat(n, width)
    ensures Value(Bytes(size)[0]) == n % 256 && Value(Bytes(size)[1]) == n / 256
  {
    var low, high := size[..8], size[8..];
    TwoBytes(size);
    assert size == low + high;
    ValueAfterByte(low, high);
    PowSixteen();
    ValueOfFromNat(n, width);
    PowEight(|low|);
  }

  lemma TwoBytes(w: Word)
    requires |w| == 16
    ensures Bytes(w) == [w[..8], w[8..]]
  {
    var high := w[8..];
    assert high[..8] == high && high[8..] == [];
    assert Bytes(high) == [high];
  }

  /** Only the bytes behind the payload are lost on the wire: they come back as zero. */
  lemma ReceiveOfSend(d: Datagram)
    requires Size(d) <= MAX_DATAGRAM_SIZE
    ensures Receive(Send(d)) == d <==> d.payload[d.payloadSize..] == ZeroBytes(MAX_PAYLOAD_SIZE - d.payloadSize)
  {
    var got := Overwrite(ZeroBytes(MAX_DATAGRAM_SIZE), Send(d));
    var tail := ZeroBytes(MAX_PAYLOAD_SIZE - d.payloadSize);
    assert Image(d) == Send(d) + Image(d)[Size(d)..];
    assert Image(d)[8..] == d.payload;
    assert Image(d)[Size(d)..] == d.payload[d.payloadSize..];
    assert got == Send(d) + tail;
    ViewOfImage(d);
    ImageOfView(got);
    assert got[Size(d)..] == tail;
  }

  /**
   Wire round trip: although only `size()` bytes travel and the checksum covers all 508, a datagram
   built by a constructor arrives identical, passes the check and reads as the message sent.
   */
  lemma WireRoundTrip(m: Message)
    requires |m.payload| <= MAX_PAYLOAD_SIZE
    ensures var d := Encode(m);
            Size(d) <= MAX_DATAGRAM_SIZE && Receive(Send(d)) == d && Parse(Receive(Send(d))) == Intact(m)
  {
    var d := Encode(m);
    ParseOfEncode(m);
    assert d.payload[d.payloadSize..] == ZeroBytes(MAX_PAYLOAD_SIZE - |m.payload|);
    ReceiveOfSend(d);
  }

  /**
   Corruption is detected: an image of a valid datagram that was changed in its checksum only, or in
   at most 32 consecutive covered bits only, does not pass the check.
   */
  lemma CorruptionDetected(d: Datagram, image: seq<Byte>, start: nat)
    requires CheckIntegrity(d)
    requires |image| == MAX_DATAGRAM_SIZE && image != Image(d)
    requires image[..4] == Image(d)[..4] || image[4..] == Image(d)[4..]
    requires forall i | 0 <= i < 8 * |Covered(d)| ::
      Flatten(image[4..])[i] != Flatten(Covered(d))[i] ==> start <= i < start + 32
    ensures Parse(View(image)) == Corrupt
  {
    var c := View(image);
    ImageOfView(image);
    assert Image(d)[4..] == Covered(d);
    if image[4..] == Covered(d) {
      assert Image(c) == Bytes(c.checksum) + Covered(d);
      assert Image(d) == Bytes(d.checksum) + Covered(d);
    } else {
      assert Bytes(c.checksum) == Image(c)[..4] == Image(d)[..4] == Bytes(d.checksum);
      JoinBytes(c.checksum);
      JoinBytes(d.checksum);
      CoveredBurst(Covered(c), Covered(d), start);
    }
  }

  lemma CoveredBurst(a: seq<Byte>, b: seq<Byte>, start: nat)
    requires |a| == |b| && a != b
    requires forall i | 0 <= i < 8 * |a| :: Flatten(a)[i] != Flatten(b)[i] ==> start <= i < start + 32
    ensures CrcEngine.Crc(CrcEngine.CRC_32, a) != CrcEngine.Crc(CrcEngine.CRC_32, b)
  {
    CrcEngine.Crc32Detects();
    ReflectedBurst(CrcEngine.CRC_32, a, b, start);
  }

  lemma ReflectedBurst(p: CrcEngine.Parameters, a: seq<Byte>, b: seq<Byte>, start: nat)
    requires p.Valid() && p.polynomial[0] && p.reflectInput
    requires |a| == |b| && a != b
    requires forall i | 0 <= i < 8 * |a| :: Flatten(a)[i] != Flatten(b)[i] ==> start <= i < start + p.Width()
    ensures CrcEngine.Crc(p, a) != CrcEngine.Crc(p, b)
  {
    assert CrcEngine.MessageBits(p, a) == Flatten(a) && CrcEngine.MessageBits(p, b) == Flatten(b);
    CrcEngine.CrcDetectsBurst(p, a, b, start);
  }
}
