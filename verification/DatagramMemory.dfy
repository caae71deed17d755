/** The datagram object in place: its constructors, its check, and reception into it, over 512 bytes of memory. */
module DatagramMemory {
  import opened Bits
  import opened Flags
  import opened Messages
  import opened Datagrams
  import CrcEngine

  method Construct(flags: FlagSet, data: seq<Byte>, sqn: bool) returns (memory: array<Byte>)
    requires |data| <= MAX_PAYLOAD_SIZE
    ensures fresh(memory) && memory.Length == MAX_DATAGRAM_SIZE
    ensures View(memory[..]) == Encode(New(flags, data, sqn))
  {
    ghost var m := New(flags, data, sqn);
    memory := Blank();
    FillCovered(memory, if sqn then Flags.Or(flags, SQN) else flags, data);
    CoveredOfEncode(m);
    var checksum := CrcEngine.Calculate(memory[4..], CrcEngine.CRC_32);
    Store(memory, 0, Bytes(checksum));
    assert memory[..] == Image(Encode(m));
    ViewOfImage(Encode(m));
  }

  method Blank() returns (memory: array<Byte>)
    ensures fresh(memory) && memory[..] == ZeroBytes(MAX_DATAGRAM_SIZE)
  {
    memory := new Byte[MAX_DATAGRAM_SIZE](_ => Zero(8));
  }

  method FillCovered(memory: array<Byte>, flags: FlagSet, data: seq<Byte>)
    requires |data| <= MAX_PAYLOAD_SIZE
    requires memory[..] == ZeroBytes(MAX_DATAGRAM_SIZE)
    modifies memory
    ensures memory[4..] == CoveredBytes(flags, data)
  {
    Store(memory, 4, Bytes(FromNat(|data|, 16)));
    Store(memory, 6, Bytes(ToWord(flags)));
    assert memory[8..] == ZeroBytes(MAX_PAYLOAD_SIZE);
    label headed:
    Store(memory, 8, data);
    assert memory[4..8] == old@headed(memory[4..8]) == Bytes(FromNat(|data|, 16)) + Bytes(ToWord(flags));
    assert memory[4..] == memory[4..8] + memory[8..];
    assert memory[8 + |data|..] == ZeroBytes(MAX_PAYLOAD_SIZE - |data|);
  }

  function CoveredBytes(flags: FlagSet, data: seq<Byte>): (region: seq<Byte>)
    requires |data| <= MAX_PAYLOAD_SIZE
    ensures |region| == 508
  {
    Bytes(FromNat(|data|, 16)) + Bytes(ToWord(flags)) + (data + ZeroBytes(MAX_PAYLOAD_SIZE - |data|))
  }

  lemma CoveredOfEncode(m: Message)
    requires |m.payload| <= MAX_PAYLOAD_SIZE
    ensures var d := Encode(m);
            && Covered(d) == CoveredBytes(m.flags, m.payload)
            && d.checksum == CrcEngine.Crc(CrcEngine.CRC_32, Covered(d))
  {
    assert Covered(Encode(m)) == Covered(Unchecked(m));
  }

  /** Copies bytes into memory, one after the other. */
  method Store(memory: array<Byte>, at: nat, data: seq<Byte>)
    requires at + |data| <= memory.Length
    modifies memory
    ensures memory[..] == old(memory[..at]) + data + old(memory[at + |data|..])
  {
    for k := 0 to |data|
      invariant memory[..] == old(memory[..at]) + data[..k] + old(memory[at + k..])
    {
      memory[at + k] := data[k];
    }
  }

  method CheckMemory(memory: array<Byte>) returns (ok: bool)
    requires memory.Length == MAX_DATAGRAM_SIZE
    ensures ok == CheckIntegrity(View(memory[..]))
  {
    ghost var d := View(memory[..]);
    ImageOfView(memory[..]);
    assert memory[..][4..] == memory[4..];
    var checksum := CrcEngine.Calculate(memory[4..], CrcEngine.CRC_32);
    var size := Value(Join(memory[4..6]));
    assert memory[..][4..6] == memory[4..6] && memory[..][..4] == memory[..4];
    ok := checksum == Join(memory[..4]) && size + HEADER_SIZE <= MAX_DATAGRAM_SIZE;
  }

  method ReceiveInto(memory: array<Byte>, wire: seq<Byte>)
    requires memory.Length == MAX_DATAGRAM_SIZE
    modifies memory
    ensures memory[..] == Overwrite(old(memory[..]), wire)
  {
    Store(memory, 0, if |wire| <= MAX_DATAGRAM_SIZE then wire else wire[..MAX_DATAGRAM_SIZE]);
  }
}
