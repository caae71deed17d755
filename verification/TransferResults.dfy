/** What every run of an upload guarantees, and from where it can still be completed. */
module TransferResults {
  import opened Messages
  import opened ServerModel
  import opened Transfer
  import opened TransferSafety
  import C = ClientModel
  import D = Datagrams

  // ----- Safety

  /**
   In every run: the server is at the client's message or one ahead, and has accepted exactly the
   messages of the upload, in order, each once; the open session's file is the chunks so far.
   */
  lemma UploadSafety(u: Setup, s: State, schedule: seq<Action>)
    requires Init(s) && s.Valid(u)
    ensures var e := Run(u, s, schedule);
            && e.client.pos <= |e.accepted| <= e.client.pos + 1 && |e.accepted| <= u.job.Length()
            && e.accepted == Script(u.job, |e.accepted|)
            && (e.server.session.Some? ==>
                  && 0 < |e.accepted| < u.job.Length() && e.server.session.value.path == u.job.name
                  && u.job.name in e.server.files && e.server.files[u.job.name] == u.job.Joined(|e.accepted| - 1))
  {
    InitInv(u, s);
    RunKeepsInv(u, s, schedule);
  }

  /**
   Both channels carry only the message i and the one before, and their acknowledgements, besides damage
   and other replies; the older never comes behind the newer.
   */
  ghost predicate TwoInFlight(d: Dialogue, i: nat, toServer: seq<Received>, toClient: seq<Received>) {
    && (forall r | r in toServer :: r == Corrupt || r == Intact(ABORT) || d.IsMsg(r, i) || d.IsMsg(r, i - 1))
    && (forall r | r in toClient :: r == Corrupt || OtherReply(r) || d.IsAck(r, i) || d.IsAck(r, i - 1))
    && (forall a, b | 0 <= a < b < |toServer| :: d.IsMsg(toServer[a], i) ==> !d.IsMsg(toServer[b], i - 1))
    && (forall a, b | 0 <= a < b < |toClient| :: d.IsAck(toClient[a], i) ==> !d.IsAck(toClient[b], i - 1))
  }

  /** In every run; and an acknowledgement of the client's message travels only once the server has accepted it. */
  lemma InFlight(u: Setup, s: State, schedule: seq<Action>)
    requires Init(s) && s.Valid(u)
    ensures var e := Run(u, s, schedule);
            && TwoInFlight(DialogueOf(u.job), e.client.pos, e.toServer, e.toClient)
            && (forall r | r in e.toClient && DialogueOf(u.job).IsAck(r, e.client.pos) :: |e.accepted| == e.client.pos + 1)
  {
    var e := Run(u, s, schedule);
    InitInv(u, s);
    RunKeepsInv(u, s, schedule);
    DialogueTellable(u.job);
    ChannelContents(DialogueOf(u.job), PhaseOf(e), e.toServer, e.toClient);
  }

  lemma ChannelContents(d: Dialogue, ph: Phase, toServer: seq<Received>, toClient: seq<Received>)
    requires d.Tellable() && Channels(d, ph, toServer, toClient)
    ensures TwoInFlight(d, ph.pos, toServer, toClient)
    ensures forall r | r in toClient && d.IsAck(r, ph.pos) :: ph.pos < ph.accepted
  {
    var up, down := UpRel(d, ph), DownRel(d, ph);
    forall k | 0 <= k < |toServer|
      ensures Upward(d, ph, toServer[k])
    {
      assert up.Allows(toServer[k], toServer[k]);
    }
    forall k | 0 <= k < |toClient|
      ensures Downward(d, ph, toClient[k])
    {
      assert down.Allows(toClient[k], toClient[k]);
    }
    forall a, b | 0 <= a < b < |toServer|
      ensures d.IsMsg(toServer[a], ph.pos) ==> !d.IsMsg(toServer[b], ph.pos - 1)
    {
      assert up.Allows(toServer[a], toServer[b]);
    }
    forall a, b | 0 <= a < b < |toClient|
      ensures d.IsAck(toClient[a], ph.pos) ==> !d.IsAck(toClient[b], ph.pos - 1)
    {
      assert down.Allows(toClient[a], toClient[b]);
    }
  }

  /**
   When the client's FIN exchange returns, the server has accepted the whole upload, each message
   once, has closed the session, and the file is the input byte for byte, for every length.
   */
  lemma FinishedMeansDelivered(u: Setup, s: State, schedule: seq<Action>)
    requires Init(s) && s.Valid(u) && Run(u, s, schedule).client.status == C.Finished
    ensures var e := Run(u, s, schedule);
            && e.accepted == Script(u.job, u.job.Length())
            && e.server.session.None?
            && u.job.name in e.server.files && e.server.files[u.job.name] == u.job.content
  {
    InitInv(u, s);
    RunKeepsInv(u, s, schedule);
  }

  /**
   All or nothing: in every run in which the server saw the interrupted client's ABR, the session is closed
   for good, and a file smaller than 2^64 bytes is complete if its FIN had been accepted, and otherwise
   absent or empty once its SYN had been.
   */
  lemma AllOrNothing(u: Setup, s: State, schedule: seq<Action>)
    requires Init(s) && s.Valid(u) && Run(u, s, schedule).aborted
    ensures var e := Run(u, s, schedule);
            && e.server.session.None? && (e.client.status == C.Aborting || e.client.status == C.Exited)
            && (|e.accepted| == u.job.Length() ==>
                  u.job.name in e.server.files && e.server.files[u.job.name] == u.job.content)
            && (0 < |e.accepted| < u.job.Length() && |u.job.content| < ULONG ==> Blank(e.server, u.job.name))
  {
    InitInv(u, s);
    RunKeepsInv(u, s, schedule);
  }

  /**
   Why a client ends. In every run: it is refused only while its message is the SYN or the FIN, or right
   after its SYN, so that damage never ends an upload; it gives up only when a budget is set and spent; and
   once interrupted it exits only when the server has seen its ABR or after its fourth unanswered one.
   */
  lemma ClientEndsOnlyFor(u: Setup, s: State, schedule: seq<Action>)
    requires Init(s) && s.Valid(u)
    ensures var e := Run(u, s, schedule);
            && (e.client.status == C.Refused ==> e.client.pos <= 1 || e.client.pos + 1 == u.job.Length())
            && (e.client.status == C.GaveUp ==> 0 <= u.maxTimeouts == e.client.retries)
            && (e.client.status == C.Exited ==> e.aborted || e.client.retries == 3)
  {
    InitInv(u, s);
    RunKeepsInv(u, s, schedule);
  }

  // ----- The wire

  /**
   Everything an upload puts into the channels travels as bytes and is read back as it was sent, as long
   as the file name fits into one datagram.
   */
  lemma UploadTravels(job: C.Job, j: nat)
    requires j < job.Length() && |job.name| <= D.MAX_PAYLOAD_SIZE
    ensures |job.Msg(j).payload| <= D.MAX_PAYLOAD_SIZE
    ensures D.Parse(D.Receive(D.Send(D.Encode(job.Msg(j))))) == Intact(job.Msg(j))
    ensures D.Parse(D.Receive(D.Send(D.Encode(Ack(job, j))))) == Intact(Ack(job, j))
    ensures 0 < j < job.Chunks() ==> |D.Send(D.Encode(job.Msg(j)))| == 512
  {
    D.WireRoundTrip(job.Msg(j));
    D.WireRoundTrip(Ack(job, j));
  }

  // ----- Completion

  /** The client still sends and the server still runs. */
  ghost predicate Live(s: State) {
    s.client.status == C.Sending && !s.server.crashed
  }

  /** The server has accepted a SYN or FIN, the client has not heard so, and no acknowledgement of it is on its way. */
  ghost predicate Lost(u: Setup, s: State) {
    var i := s.client.pos;
    && i < u.job.Length()
    && |s.accepted| == i + 1
    && (i == 0 || i + 1 == u.job.Length())
    && Intact(Ack(u.job, i)) !in s.toClient
  }

  lemma ServerTurnWhenLost(u: Setup, s: State)
    requires Inv(u, s) && Lost(u, s) && !s.server.crashed && s.toServer != []
    ensures var s' := ServerTurn(u, s, ServerOutcome(u, s));
            |s'.accepted| == |s.accepted| && Intact(Ack(u.job, s.client.pos)) !in s'.toClient
  {
    var i := s.client.pos;
    MsgTellable(u.job, i);
    HeadUpward(u, s);
    var kind := Upmost(u, s);
    match kind {
      case Damaged =>
        if s.server.session.Some? {
          DeliveredOne(Again(s.server.session.value.expected), u.address);
        }
      case Aborts =>
        ServerAborts(u, s.server, |s.accepted|, s.aborted);
        DeliveredOne(ABORT.CreateAck(), u.address);
      case Awaited =>
      case Reread =>
        ServerRereads(u, s.server, |s.accepted|);
        DeliveredOne(RereadReply(u.job, |s.accepted|), u.address);
    }
  }

  lemma ClientReadsWhenLost(u: Setup, s: State)
    requires Inv(u, s) && Lost(u, s) && s.client.Active() && s.toClient != []
    ensures C.OnEvent(u.job, u.maxTimeouts, s.client, C.Response(s.toClient[0])).pos == s.client.pos
  {
    var rel := DownRel(DialogueOf(u.job), PhaseOf(s));
    assert rel.Allows(s.toClient[0], s.toClient[0]);
    assert s.toClient[0] in s.toClient;
    ClientReads(u, s, s.toClient[0]);
  }

  lemma ChannelWhenLost(u: Setup, s: State, a: Action)
    requires s.Valid(u) && Lost(u, s) && (a.Lose? || a.Duplicate? || a.Damage?)
    ensures var s' := Apply(u, s, a);
            s'.client == s.client && s'.accepted == s.accepted && Intact(Ack(u.job, s.client.pos)) !in s'.toClient
  {
  }

  lemma LostStays(u: Setup, s: State, a: Action)
    requires Inv(u, s) && Lost(u, s)
    ensures var s' := Apply(u, s, a);
            Lost(u, s') && s'.client.pos == s.client.pos
  {
    match a
    case ServerReceive =>
      if !s.server.crashed && s.toServer != [] {
        ServerTurnWhenLost(u, s);
      }
    case ClientReceive =>
      if s.client.Active() && s.waiting && s.toClient != [] {
        ClientReadsWhenLost(u, s);
      }
    case Lose(_, _) => ChannelWhenLost(u, s, a);
    case Duplicate(_, _) => ChannelWhenLost(u, s, a);
    case Damage(_, _) => ChannelWhenLost(u, s, a);
    case _ =>
  }

  lemma {:induction false} LostForever(u: Setup, s: State, schedule: seq<Action>)
    requires Inv(u, s) && Lost(u, s)
    ensures Run(u, s, schedule).client.pos == s.client.pos
    ensures Run(u, s, schedule).client.status != C.Finished
    decreases |schedule|
  {
    if schedule != [] {
      LostStays(u, s, schedule[0]);
      StepKeepsInv(u, s, schedule[0]);
      LostForever(u, Apply(u, s, schedule[0]), schedule[1..]);
    }
  }

  function Losses(c: Channel, n: nat): (schedule: seq<Action>)
    ensures |schedule| == n
  {
    if n == 0 then [] else [Lose(c, 0)] + Losses(c, n - 1)
  }

  lemma {:induction false} RunLosses(u: Setup, s: State, c: Channel, n: nat)
    requires s.Valid(u) && n <= |s.Queue(c)|
    ensures Run(u, s, Losses(c, n)) == s.WithQueue(c, s.Queue(c)[n..])
    decreases n
  {
    if n > 0 {
      var q := s.Queue(c);
      var s' := Apply(u, s, Lose(c, 0));
      assert q[..0] + q[1..] == q[1..];
      assert s' == s.WithQueue(c, q[1..]);
      assert Losses(c, n)[1..] == Losses(c, n - 1);
      RunLosses(u, s', c, n - 1);
      assert q[1..][n - 1..] == q[n..];
    } else {
      assert s.Queue(c)[0..] == s.Queue(c);
    }
  }

  /** The client has moved on by one message, and the server is where it is. */
  ghost predicate Advanced(s: State, e: State) {
    && e.client.pos == s.client.pos + 1 == |e.accepted|
    && !e.server.crashed
    && (e.client.status == C.Sending || e.client.status == C.Finished)
  }

  /** Both channels empty, and the client about to send. */
  ghost predicate Quiet(s: State) {
    s.toServer == [] && s.toClient == [] && !s.waiting
  }

  lemma Calm(u: Setup, s: State) returns (schedule: seq<Action>)
    requires s.Valid(u) && Live(s) && u.maxTimeouts < 0
    ensures var e := Run(u, s, schedule);
            && Quiet(e) && Live(e)
            && e.client.pos == s.client.pos && e.accepted == s.accepted && e.server == s.server && e.aborted == s.aborted
  {
    var s1 := s.WithQueue(ToServer, s.toServer[|s.toServer|..]);
    var s2 := s1.WithQueue(ToClient, s.toClient[|s.toClient|..]);
    RunLosses(u, s, ToServer, |s.toServer|);
    RunLosses(u, s1, ToClient, |s.toClient|);
    var drain := Losses(ToServer, |s.toServer|) + Losses(ToClient, |s.toClient|);
    RunAppend(u, s, Losses(ToServer, |s.toServer|), Losses(ToClient, |s.toClient|));
    if s.waiting {
      schedule := drain + [ClientTimeout];
      RunAppend(u, s, drain, [ClientTimeout]);
      RunOne(u, s2, ClientTimeout);
    } else {
      schedule := drain;
    }
  }

  lemma RunOne(u: Setup, s: State, a: Action)
    requires s.Valid(u)
    ensures Run(u, s, [a]) == Apply(u, s, a)
  {
    assert [a][1..] == [];
  }

  function Answer(u: Setup, server: ServerState, i: nat): Outcome
    requires server.Valid() && i < u.job.Length()
  {
    ServerStep(server, Intact(u.job.Msg(i)), u.address)
  }

  ghost predicate Acknowledges(u: Setup, o: Outcome, i: nat)
    requires i < u.job.Length()
  {
    o.sent == [Outgoing(u.address, Ack(u.job, i))] && !o.state.crashed
  }

  /** A server that waits for the client's message, or has it and it is neither SYN nor FIN, acknowledges it. */
  lemma AcknowledgesCurrent(u: Setup, server: ServerState, i: nat, k: nat)
    requires server.Valid() && !server.crashed && i < u.job.Length() && ServerAt(u, server, k, false)
    requires k == i || (k == i + 1 && 0 < i && i + 1 < u.job.Length())
    ensures Acknowledges(u, Answer(u, server, i), i)
    ensures k + (if Answer(u, server, i).accepted then 1 else 0) == i + 1
  {
    if k == i {
      ServerAccepts(u, server, k);
    } else {
      ServerRereads(u, server, k);
    }
  }

  /** With quiet channels and a server that would acknowledge the current message, one exchange advances the client. */
  lemma ExchangeAdvances(u: Setup, s: State)
    requires Inv(u, s) && Live(s) && Quiet(s) && Acknowledges(u, Answer(u, s.server, s.client.pos), s.client.pos)
    ensures var e := Run(u, s, [ClientSend, ServerReceive, ClientReceive]);
            && e.client.pos == s.client.pos + 1 && !e.server.crashed
            && (e.client.status == C.Sending || e.client.status == C.Finished)
            && |e.accepted| == |s.accepted| + if Answer(u, s.server, s.client.pos).accepted then 1 else 0
  {
    var i := s.client.pos;
    var s1 := Apply(u, s, ClientSend);
    var s2 := Apply(u, s1, ServerReceive);
    RunThree(u, s, ClientSend, ServerReceive, ClientReceive);
    assert s1.toServer == [Intact(u.job.Msg(i))];
    ServerExchanges(u, s1, Answer(u, s.server, i), i);
    AckAdvances(u, s2);
  }

  lemma RunThree(u: Setup, s: State, a: Action, b: Action, c: Action)
    requires s.Valid(u)
    ensures Run(u, s, [a, b, c]) == Apply(u, Apply(u, Apply(u, s, a), b), c)
  {
    assert [a, b, c] == [a] + ([b] + [c]);
    RunAppend(u, s, [a], [b] + [c]);
    RunOne(u, s, a);
    RunAppend(u, Apply(u, s, a), [b], [c]);
    RunOne(u, Apply(u, s, a), b);
    RunOne(u, Apply(u, Apply(u, s, a), b), c);
  }

  lemma ServerExchanges(u: Setup, s: State, o: Outcome, i: nat)
    requires i < u.job.Length() && Acknowledges(u, o, i)
    requires s.toServer != [] && s.toServer[0].Intact? && s.toClient == []
    ensures var e := ServerTurn(u, s, o);
            e.toClient == [Intact(Ack(u.job, i))] && |e.accepted| == |s.accepted| + if o.accepted then 1 else 0
  {
    DeliveredOne(Ack(u.job, i), u.address);
  }

  /** The acknowledgement of the current message, first in the queue, moves a waiting client on. */
  lemma AckAdvances(u: Setup, s: State)
    requires s.Valid(u) && s.client.status == C.Sending && s.waiting && s.client.currSQN == (s.client.pos % 2 == 1)
    requires s.toClient != [] && s.toClient[0] == Intact(Ack(u.job, s.client.pos))
    ensures var e := Apply(u, s, ClientReceive);
            && e.client.pos == s.client.pos + 1 && e.server == s.server && e.accepted == s.accepted
            && (e.client.status == C.Sending || e.client.status == C.Finished)
  {
    JudgeAck(u.job, s.client.pos, s.client.pos);
  }

  /** An acknowledgement already on its way advances the client once everything before it is lost. */
  lemma DeliverAck(u: Setup, s: State, t: nat) returns (schedule: seq<Action>)
    requires Inv(u, s) && Live(s) && |s.accepted| == s.client.pos + 1
    requires t < |s.toClient| && s.toClient[t] == Intact(Ack(u.job, s.client.pos))
    ensures Advanced(s, Run(u, s, schedule))
  {
    var s1 := s.WithQueue(ToClient, s.toClient[t..]);
    RunLosses(u, s, ToClient, t);
    schedule := Losses(ToClient, t);
    if !s.waiting {
      RunAppend(u, s, schedule, [ClientSend]);
      RunOne(u, s1, ClientSend);
      s1 := Apply(u, s1, ClientSend);
      schedule := schedule + [ClientSend];
    }
    AckAdvances(u, s1);
    RunAppend(u, s, schedule, [ClientReceive]);
    RunOne(u, s1, ClientReceive);
    schedule := schedule + [ClientReceive];
  }

  lemma Advance(u: Setup, s: State) returns (schedule: seq<Action>)
    requires Inv(u, s) && Live(s) && !Lost(u, s) && u.maxTimeouts < 0
    ensures Advanced(s, Run(u, s, schedule))
  {
    var i, k := s.client.pos, |s.accepted|;
    if k == i + 1 && (i == 0 || i + 1 == u.job.Length()) {
      var t :| 0 <= t < |s.toClient| && s.toClient[t] == Intact(Ack(u.job, i));
      schedule := DeliverAck(u, s, t);
    } else {
      var calm := Calm(u, s);
      var q := Run(u, s, calm);
      RunKeepsInv(u, s, calm);
      AcknowledgesCurrent(u, q.server, i, k);
      ExchangeAdvances(u, q);
      schedule := calm + [ClientSend, ServerReceive, ClientReceive];
      RunAppend(u, s, calm, [ClientSend, ServerReceive, ClientReceive]);
    }
  }

  lemma {:induction false} Complete(u: Setup, s: State) returns (schedule: seq<Action>)
    requires Inv(u, s) && Live(s) && !Lost(u, s) && u.maxTimeouts < 0
    ensures Run(u, s, schedule).client.status == C.Finished
    decreases u.job.Length() - s.client.pos
  {
    var first := Advance(u, s);
    var e := Run(u, s, first);
    RunKeepsInv(u, s, first);
    if e.client.status == C.Finished {
      schedule := first;
    } else {
      var rest := Complete(u, e);
      schedule := first + rest;
      RunAppend(u, s, first, rest);
    }
  }

  /**
   With unlimited retries, a reachable live state can still be completed by some schedule exactly when
   it is not lost: a SYN or FIN was accepted, the client still repeats it, and no acknowledgement of it
   is on its way.
   */
  lemma CompletableExactlyWhenNotLost(u: Setup, start: State, past: seq<Action>)
    requires Init(start) && start.Valid(u) && u.maxTimeouts < 0 && Live(Run(u, start, past))
    ensures var s := Run(u, start, past);
            (exists schedule :: Run(u, s, schedule).client.status == C.Finished) <==> !Lost(u, s)
  {
    var s := Run(u, start, past);
    InitInv(u, start);
    RunKeepsInv(u, start, past);
    if Lost(u, s) {
      forall schedule
        ensures Run(u, s, schedule).client.status != C.Finished
      {
        LostForever(u, s, schedule);
      }
    } else {
      var schedule := Complete(u, s);
    }
  }

  lemma SynAckOnItsWay(u: Setup, start: State)
    requires Init(start) && start.Valid(u)
    ensures var s := Apply(u, Apply(u, start, ClientSend), ServerReceive);
            && s.client == C.START && |s.accepted| == 1 && !s.server.crashed
            && s.toClient == [Intact(Ack(u.job, 0))]
  {
    var s1 := Apply(u, start, ClientSend);
    assert s1.toServer == [Intact(u.job.Msg(0))];
    ServerAcceptsSyn(u, start.server);
    ServerExchanges(u, s1, Answer(u, start.server, 0), 0);
  }

  lemma LosingLast(u: Setup, s: State, r: Received)
    requires s.Valid(u) && s.toClient == [r]
    ensures Apply(u, s, Lose(ToClient, 0)) == s.(toClient := [])
  {
  }

  /** Losing one SYN acknowledgement is fatal to every upload: retransmission does not recover it. */
  lemma LostSynAckIsFatal(u: Setup, start: State, schedule: seq<Action>)
    requires Init(start) && start.Valid(u)
    ensures var s := Run(u, start, [ClientSend, ServerReceive, Lose(ToClient, 0)]);
            Live(s) && Lost(u, s) && Run(u, s, schedule).client.status != C.Finished
  {
    var lossy := [ClientSend, ServerReceive, Lose(ToClient, 0)];
    RunThree(u, start, ClientSend, ServerReceive, Lose(ToClient, 0));
    SynAckOnItsWay(u, start);
    LosingLast(u, Apply(u, Apply(u, start, ClientSend), ServerReceive), Intact(Ack(u.job, 0)));
    InitInv(u, start);
    RunKeepsInv(u, start, lossy);
    LostForever(u, Run(u, start, lossy), schedule);
  }
}
