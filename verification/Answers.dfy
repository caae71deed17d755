/** What the server's answers mean: to the client that reads them, and by the flag bits on the wire. */
module ServerAnswers {
  import opened Flags
  import opened Messages
  import opened ServerModel
  import C = ClientModel

  /** A client that waits for a response to an upload message has ended with failure after reading this one. */
  ghost predicate Refuses(job: C.Job, maxTimeouts: int, c: C.ClientState, answer: Message)
    requires c.Valid(job)
  {
    C.OnEvent(job, maxTimeouts, c, C.Response(Intact(answer))).status == C.Refused
  }

  /** It goes on as before, with all its retries. */
  ghost predicate Repeats(job: C.Job, maxTimeouts: int, c: C.ClientState, answer: Message)
    requires c.Valid(job)
  {
    C.OnEvent(job, maxTimeouts, c, C.Response(Intact(answer))) == c.(retries := 0)
  }

  /** The kinds of datagrams by their flag bits: SYN alone is bit 4, ABR alone bit 3. */
  lemma Kinds(m: Message)
    ensures m.IsSyn() <==> m.flags == {4}
    ensures m.IsAbr() <==> m.flags == {3}
    ensures m.GetSqn() <==> 0 in m.flags
    ensures Has(m.flags, FIN) <==> 2 in m.flags
    ensures ClearFlag(m.flags, SQN) == NONE <==> m.flags <= {0}
    ensures m.CreateAck() == Message(m.flags + {1}, [])
  {
    assert m.GetSqn() <==> 0 in m.flags by {
      assert 0 in SQN;
    }
    assert 2 in FIN && 0 !in SYN && 0 !in ABR;
    if m.GetSqn() {
      assert m.flags + {1} + {0} == m.flags + {1};
    }
  }

  lemma AbortRefuses(job: C.Job, maxTimeouts: int, c: C.ClientState)
    requires c.Valid(job) && c.status == C.Sending
    ensures Refuses(job, maxTimeouts, c, ABORT)
  {
    Kinds(ABORT);
    assert 3 in ABORT.flags && 0 !in ABORT.flags && Has(ABORT.flags, ABR);
  }

  /** Neither SYN nor ABR, and from the IP address that owns the session. */
  predicate Regular(s: ServerState, m: Message, from: Address) {
    s.OwnedBy(from.ip) && m.flags != {3} && m.flags != {4}
  }

  /** What the server acknowledges: every ABR, a SYN when idle, and the regular datagrams of the owner. */
  predicate Acknowledged(s: ServerState, m: Message, from: Address) {
    m.flags == {3} || (m.flags == {4} && s.session.None?) || Regular(s, m, from)
  }

  /**
   Every intact datagram gets exactly one answer. It acknowledges the datagram if and only if it is an ABR,
   a SYN at an idle server, or a regular datagram from the owner's IP; every other one is answered so that
   any waiting client ends. The owner's regular datagrams are answered at the address of its SYN, whatever
   port they come from, all others at their sender.
   */
  lemma AnsweredExactly(s: ServerState, m: Message, from: Address, job: C.Job, maxTimeouts: int, c: C.ClientState)
    requires s.Valid() && !s.crashed && 1 !in m.flags
    requires c.Valid(job) && c.status == C.Sending
    ensures var o := ServerStep(s, Intact(m), from);
            && |o.sent| == 1
            && (o.sent[0].message.IsAckFor(m) <==> Acknowledged(s, m, from))
            && (Acknowledged(s, m, from) || Refuses(job, maxTimeouts, c, o.sent[0].message))
            && o.sent[0].to == if Regular(s, m, from) then s.session.value.address else from
  {
    Kinds(m);
    AckAnswers(m, m);
    AbortRefuses(job, maxTimeouts, c);
    assert !ABORT.IsAckFor(m) by {
      assert 1 !in ABORT.flags;
    }
    assert Has(m.flags, ACK) <==> 1 in m.flags;
  }

  /** A second client's SYN at a busy server makes that client end at once. */
  lemma SecondClientRefused(s: ServerState, job: C.Job, maxTimeouts: int, from: Address)
    requires s.Valid() && !s.crashed && s.session.Some?
    ensures var o := ServerStep(s, Intact(job.Msg(0)), from);
            && |o.sent| == 1 && o.sent[0].to == from && o.state == s
            && Refuses(job, maxTimeouts, C.START, o.sent[0].message)
  {
    var m := job.Msg(0);
    Kinds(m);
    assert m.flags == {4};
    AnsweredExactly(s, m, from, job, maxTimeouts, C.START);
  }

  /** During a session no datagram from another IP address is acknowledged, except an ABR, which changes nothing. */
  lemma StrangersGetNoAck(s: ServerState, r: Received, from: Address, other: Message)
    requires s.Valid() && !s.crashed && s.session.Some? && !s.OwnedBy(from.ip)
    ensures var o := ServerStep(s, r, from);
            && |o.sent| == 1 && o.sent[0].to == from && o.state == s
            && (o.sent[0].message.IsAckFor(other) ==> r.Intact? && r.message.flags == {3})
  {
    if r.Corrupt? {
      assert 1 !in Again(s.session.value.expected).flags;
    } else {
      Kinds(r.message);
      assert 1 !in ABORT.flags;
    }
  }

  /**
   Damage in an open session changes nothing, and the one answer, AGN with the bit the server waits for,
   makes any waiting client, sending or aborting, repeat what it sent.
   */
  lemma DamageIsRepeated(s: ServerState, from: Address, job: C.Job, maxTimeouts: int, c: C.ClientState)
    requires s.Valid() && s.session.Some? && c.Valid(job) && c.Active()
    ensures var o := ServerStep(s, Corrupt, from);
            && o.state == s && !o.accepted && |o.sent| == 1 && o.sent[0].to == from
            && o.sent[0].message.flags == (if s.session.value.expected then {5, 0} else {5})
            && Repeats(job, maxTimeouts, c, o.sent[0].message)
  {
    var a := Again(s.session.value.expected);
    assert 1 !in a.flags && 3 !in a.flags;
    assert a.flags == if s.session.value.expected then {5, 0} else {5};
  }

  /** What one intact datagram does to an open session, by its flags, whoever sends it. */
  lemma OpenSessionTurn(s: ServerState, m: Message, from: Address)
    requires s.Valid() && s.session.Some?
    ensures var o, c := ServerStep(s, Intact(m), from), s.session.value;
            && (o.accepted <==> Regular(s, m, from) && (0 in m.flags) == c.expected)
            && (o.state.session.None? <==> (s.OwnedBy(from.ip) && m.flags == {3}) || (o.accepted && 2 in m.flags))
            && (o.state.session.Some? ==>
                  && o.state.session.value.address == c.address && o.state.session.value.path == c.path
                  && (o.state.session.value.expected != c.expected <==> o.accepted))
            && (m.flags != {3} ==>
                  o.state.files == if o.accepted && m.flags <= {0} then s.files[c.path := s.files[c.path] + m.payload] else s.files)
  {
    Kinds(m);
  }

  /** An idle server opens a session exactly on a SYN: for its sender, with an empty file of that name, waiting for bit 1. */
  lemma IdleTurn(s: ServerState, m: Message, from: Address)
    requires s.Valid() && !s.crashed && s.session.None?
    ensures var o := ServerStep(s, Intact(m), from);
            && (o.accepted <==> m.flags == {4})
            && (o.state.session.Some? <==> m.flags == {4})
            && (m.flags == {4} ==> o.state.session.value.address == from && o.state.session.value.expected
                                   && o.state.files == s.files[m.payload := []])
            && (m.flags != {4} ==> o.state == s)
  {
    Kinds(m);
  }

  /** A session's counters from its SYN on: the duplicates are its regular datagrams that were not accepted. */
  lemma CountsFromSyn(s: ServerState, m: Message, from: Address, inputs: seq<Input>)
    requires s.Valid() && !s.crashed && s.session.None? && m.flags == {4}
    requires var start := ServerStep(s, Intact(m), from).state;
             start.session.Some? && StaysOpen(start, inputs)
    ensures var run := RunServer(ServerStep(s, Intact(m), from).state, inputs);
            && run.state.OwnedBy(from.ip)
            && |run.accepted| <= CountRegular(inputs, from.ip)
            && run.state.session.value.duplicates == (CountRegular(inputs, from.ip) - |run.accepted|) % UINT
            && run.state.session.value.bytesWritten == |run.state.files[run.state.session.value.path]| % ULONG
  {
    Kinds(m);
    RegularConserved(ServerStep(s, Intact(m), from).state, inputs, from.ip);
  }
}
