/** The server's receive loop as a function of its state and one received datagram. */
module ServerModel {
  import opened Bits
  import opened Flags
  import opened Messages

  datatype Option<+T> = None | Some(value: T)

  datatype Address = Address(ip: nat, port: nat)

  /** ClientData with its FileWriter; the counters have the widths of the source. */
  datatype Session = Session(address: Address, path: seq<Byte>, expected: bool, bytesWritten: nat, duplicates: nat)

  const ULONG: nat := 0x1_0000_0000_0000_0000
  const UINT: nat := 0x1_0000_0000

  datatype ServerState = ServerState(session: Option<Session>, files: map<seq<Byte>, seq<Byte>>, crashed: bool) {
    /** The open session's file exists and its length is what the writer counted. */
    ghost predicate Valid() {
      && (session.Some? ==>
            && session.value.path in files
            && session.value.bytesWritten == |files[session.value.path]| % ULONG)
      && (crashed ==> session.None?)
    }

    predicate OwnedBy(ip: nat) {
      session.Some? && session.value.address.ip == ip
    }
  }

  datatype Outgoing = Outgoing(to: Address, message: Message)

  datatype Input = Input(received: Received, from: Address)

  datatype Outcome = Outcome(state: ServerState, sent: seq<Outgoing>, accepted: bool)

  function Again(expected: bool): Message {
    New(AGN, [], expected)
  }

  function OpenSession(s: ServerState, m: Message, from: Address): ServerState
  {
    s.(files := s.files[m.payload := []], session := Some(Session(from, m.payload, true, 0, 0)))
  }

  /** FileWriter::abort, then the session is dropped. */
  function AbortSession(s: ServerState): ServerState
    requires s.session.Some?
  {
    var c := s.session.value;
    s.(session := None, files := if c.bytesWritten > 0 then s.files - {c.path} else s.files)
  }

  /** handle_valid_datagram, after the expected bit was flipped. */
  function TakeMessage(s: ServerState, m: Message): ServerState
    requires s.Valid() && s.session.Some?
  {
    var c := s.session.value.(expected := !s.session.value.expected);
    if Has(m.flags, FIN) then
      s.(session := None)
    else if ClearFlag(m.flags, SQN) == NONE then
      s.(files := s.files[c.path := s.files[c.path] + m.payload],
         session := Some(c.(bytesWritten := (c.bytesWritten + |m.payload|) % ULONG)))
    else
      s.(session := Some(c))
  }

  function ServerStep(s: ServerState, r: Received, from: Address): (o: Outcome)
    requires s.Valid()
    ensures o.state.Valid()
  {
    if s.crashed then
      Outcome(s, [], false)
    else
      match r
      case Corrupt =>
        if s.session.None? then Outcome(s.(crashed := true), [], false)
        else Outcome(s, [Outgoing(from, Again(s.session.value.expected))], false)
      case Intact(m) => MessageStep(s, m, from)
  }

  function MessageStep(s: ServerState, m: Message, from: Address): (o: Outcome)
    requires s.Valid() && !s.crashed
    ensures o.state.Valid()
  {
    if m.IsSyn() then
      if s.session.Some? then Outcome(s, [Outgoing(from, ABORT)], false)
      else Outcome(OpenSession(s, m, from), [Outgoing(from, m.CreateAck())], true)
    else if m.IsAbr() then
      Outcome(if s.OwnedBy(from.ip) then AbortSession(s) else s, [Outgoing(from, m.CreateAck())], false)
    else if !s.OwnedBy(from.ip) then
      Outcome(s, [Outgoing(from, ABORT)], false)
    else
      var c := s.session.value;
      if m.GetSqn() != c.expected then
        Outcome(s.(session := Some(c.(duplicates := (c.duplicates + 1) % UINT))),
                [Outgoing(c.address, m.CreateAck())], false)
      else
        AppendKeepsCount(s, m);
        Outcome(TakeMessage(s, m), [Outgoing(c.address, m.CreateAck())], true)
  }

  lemma AppendKeepsCount(s: ServerState, m: Message)
    requires s.Valid() && s.session.Some? && !s.crashed
    ensures TakeMessage(s, m).Valid()
  {
    var n := |s.files[s.session.value.path]|;
    assert (n % ULONG + |m.payload|) % ULONG == (n + |m.payload|) % ULONG;
  }

  // ----- Runs

  datatype ServerRun = ServerRun(state: ServerState, sent: seq<Outgoing>, accepted: seq<Message>)

  function RunServer(s: ServerState, inputs: seq<Input>): (r: ServerRun)
    requires s.Valid()
    ensures r.state.Valid()
    decreases |inputs|
  {
    if inputs == [] then ServerRun(s, [], [])
    else
      var o := ServerStep(s, inputs[0].received, inputs[0].from);
      var rest := RunServer(o.state, inputs[1..]);
      ServerRun(rest.state, o.sent + rest.sent, (if o.accepted then [inputs[0].received.message] else []) + rest.accepted)
  }

  /** The session stays open, and the process alive, before and after every input. */
  ghost predicate StaysOpen(s: ServerState, inputs: seq<Input>)
    requires s.Valid()
    decreases |inputs|
  {
    && s.session.Some?
    && (inputs != [] ==> StaysOpen(ServerStep(s, inputs[0].received, inputs[0].from).state, inputs[1..]))
  }

  // ----- Non-interference

  function FromOwner(inputs: seq<Input>, ip: nat): (own: seq<Input>)
    ensures |own| <= |inputs|
  {
    if inputs == [] then []
    else (if inputs[0].from.ip == ip then [inputs[0]] else []) + FromOwner(inputs[1..], ip)
  }

  function ToOwner(sent: seq<Outgoing>, ip: nat): seq<Outgoing> {
    if sent == [] then []
    else (if sent[0].to.ip == ip then [sent[0]] else []) + ToOwner(sent[1..], ip)
  }

  lemma {:induction false} ToOwnerAppend(a: seq<Outgoing>, b: seq<Outgoing>, ip: nat)
    ensures ToOwner(a + b, ip) == ToOwner(a, ip) + ToOwner(b, ip)
  {
    if a == [] {
      assert a + b == b;
    } else {
      assert (a + b)[0] == a[0] && (a + b)[1..] == a[1..] + b;
      ToOwnerAppend(a[1..], b, ip);
    }
  }

  /**
   A datagram from an address that does not own the session leaves the server as it was, except in
   exactly two cases, both with no session open: an intact SYN, and a corrupt datagram.
   */
  lemma ForeignDatagram(s: ServerState, r: Received, from: Address)
    requires s.Valid() && !s.crashed && !s.OwnedBy(from.ip)
    ensures var o := ServerStep(s, r, from);
            && (o.state == s <==> s.session.Some? || (r.Intact? && !r.message.IsSyn()))
            && (s.session.Some? ==> !o.accepted && ToOwner(o.sent, s.session.value.address.ip) == [])
  {
    var o := ServerStep(s, r, from);
    if s.session.Some? {
      assert |o.sent| == 1 && o.sent[0].to == from;
      assert o.sent[1..] == [];
    }
  }

  /** A step that leaves the session open leaves its owner in place, and answers the owner only. */
  lemma OwnerStep(s: ServerState, r: Received, from: Address)
    requires s.Valid() && s.OwnedBy(from.ip)
    ensures var o := ServerStep(s, r, from);
            && (o.state.session.Some? ==> o.state.OwnedBy(from.ip))
            && ToOwner(o.sent, from.ip) == o.sent
  {
    var o := ServerStep(s, r, from);
    assert |o.sent| == 1 && o.sent[0].to.ip == from.ip;
    assert o.sent == [o.sent[0]] && o.sent[1..] == [];
  }

  /**
   Non-interference: as long as the owner's own datagrams keep its session open, the state, the
   datagrams accepted and everything sent to the owner are those of the run without the others.
   */
  lemma {:induction false} NonInterference(s: ServerState, inputs: seq<Input>, ip: nat)
    requires s.Valid() && s.OwnedBy(ip) && StaysOpen(s, FromOwner(inputs, ip))
    ensures var all, own := RunServer(s, inputs), RunServer(s, FromOwner(inputs, ip));
            && all.state == own.state
            && all.accepted == own.accepted
            && ToOwner(all.sent, ip) == own.sent
    decreases |inputs|
  {
    if inputs != [] {
      var r, from := inputs[0].received, inputs[0].from;
      var o := ServerStep(s, r, from);
      var rest := inputs[1..];
      if from.ip == ip {
        assert FromOwner(inputs, ip)[0] == inputs[0] && FromOwner(inputs, ip)[1..] == FromOwner(rest, ip);
        OwnerStep(s, r, from);
      } else {
        ForeignDatagram(s, r, from);
        assert FromOwner(inputs, ip) == FromOwner(rest, ip);
      }
      NonInterference(o.state, rest, ip);
      ToOwnerAppend(o.sent, RunServer(o.state, rest).sent, ip);
    }
  }

  // ----- Conservation

  predicate Regular(i: Input, ip: nat) {
    i.from.ip == ip && i.received.Intact? && !i.received.message.IsSyn() && !i.received.message.IsAbr()
  }

  function CountRegular(inputs: seq<Input>, ip: nat): nat {
    if inputs == [] then 0
    else (if Regular(inputs[0], ip) then 1 else 0) + CountRegular(inputs[1..], ip)
  }

  /** Every regular datagram of an open session is one acceptance or one counted duplicate, never both. */
  lemma {:induction false} RegularConserved(s: ServerState, inputs: seq<Input>, ip: nat)
    requires s.Valid() && s.OwnedBy(ip) && StaysOpen(s, inputs) && s.session.value.duplicates < UINT
    ensures var run := RunServer(s, inputs);
            && run.state.OwnedBy(ip)
            && |run.accepted| <= CountRegular(inputs, ip)
            && run.state.session.value.duplicates
            == (s.session.value.duplicates + CountRegular(inputs, ip) - |run.accepted|) % UINT
    decreases |inputs|
  {
    if inputs != [] {
      var r, from := inputs[0].received, inputs[0].from;
      var o := ServerStep(s, r, from);
      if from.ip == ip {
        OwnerStep(s, r, from);
      } else {
        ForeignDatagram(s, r, from);
      }
      var rest := RunServer(o.state, inputs[1..]);
      RegularConserved(o.state, inputs[1..], ip);
      CountStep(s, r, from, ip);
      var missed := if Regular(inputs[0], ip) && !o.accepted then 1 else 0;
      CountOn(s.session.value.duplicates, missed, CountRegular(inputs[1..], ip) - |rest.accepted|);
    }
  }

  lemma CountOn(duplicates: nat, missed: nat, later: int)
    ensures ((duplicates + missed) % UINT + later) % UINT == (duplicates + missed + later) % UINT
  {
  }

  lemma CountStep(s: ServerState, r: Received, from: Address, ip: nat)
    requires s.Valid() && s.OwnedBy(ip) && s.session.value.duplicates < UINT
    requires ServerStep(s, r, from).state.session.Some?
    ensures var o := ServerStep(s, r, from);
            && (o.accepted ==> Regular(Input(r, from), ip))
            && o.state.session.value.duplicates
            == (s.session.value.duplicates + (if Regular(Input(r, from), ip) && !o.accepted then 1 else 0)) % UINT
  {
  }

  // ----- Abort

  /**
   The owner's ABR closes the session. Its file is then absent or empty, except exactly when it holds
   a positive multiple of 2^64 bytes, which the byte counter shows as zero.
   */
  lemma AbortLeavesNothing(s: ServerState, r: Received, from: Address)
    requires s.Valid() && s.OwnedBy(from.ip) && r.Intact? && r.message.IsAbr()
    ensures var o := ServerStep(s, r, from);
            var path := s.session.value.path;
            && o.state.session.None? && !o.accepted && o.sent == [Outgoing(from, r.message.CreateAck())]
            && ((path in o.state.files ==> o.state.files[path] == [])
                <==> (s.files[path] == [] || |s.files[path]| % ULONG != 0))
            && forall other | other != path ::
                 (other in o.state.files <==> other in s.files)
                 && (other in s.files ==> o.state.files[other] == s.files[other])
  {
  }

  function Repeat<T>(x: T, n: nat): (r: seq<T>)
    ensures |r| == n && forall i | 0 <= i < n :: r[i] == x
  {
    seq(n, _ => x)
  }

  /** Any number of further ABRs leaves an idle server as it is, and each one is acknowledged. */
  lemma {:induction false} RepeatedAbort(s: ServerState, r: Received, from: Address, n: nat)
    requires s.Valid() && s.session.None? && !s.crashed && r.Intact? && r.message.IsAbr()
    ensures RunServer(s, Repeat(Input(r, from), n)) == ServerRun(s, Repeat(Outgoing(from, r.message.CreateAck()), n), [])
    decreases n
  {
    if n > 0 {
      var inputs := Repeat(Input(r, from), n);
      assert inputs[1..] == Repeat(Input(r, from), n - 1);
      RepeatedAbort(s, r, from, n - 1);
      assert [Outgoing(from, r.message.CreateAck())] + Repeat(Outgoing(from, r.message.CreateAck()), n - 1)
          == Repeat(Outgoing(from, r.message.CreateAck()), n);
    }
  }

  /** The process dies exactly when a corrupt datagram reaches it with no session open. */
  lemma CrashesExactlyWhenIdle(s: ServerState, r: Received, from: Address)
    requires s.Valid() && !s.crashed
    ensures ServerStep(s, r, from).state.crashed <==> s.session.None? && r.Corrupt?
  {
  }
}
