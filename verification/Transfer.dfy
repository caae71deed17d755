/**
 One upload: client, server and the two channels between them as one state machine. The channels are
 FIFO; they lose, duplicate in place, and damage detectably. Every schedule of actions is a run: an
 action that is not possible in a state leaves it unchanged.
 */
module Transfer {
  import opened Bits
  import opened Flags
  import opened Messages
  import opened ServerModel
  import C = ClientModel

  datatype Setup = Setup(job: C.Job, maxTimeouts: int, address: Address)

  datatype Channel = ToServer | ToClient

  datatype Action =
    | ClientSend
    | ClientReceive
    | ClientTimeout
    | Interrupt
    | ServerReceive
    | Lose(channel: Channel, k: nat)
    | Duplicate(channel: Channel, k: nat)
    | Damage(channel: Channel, k: nat)

  /** `accepted` and `aborted` record what the server did: datagrams it accepted, and whether it saw an ABR. */
  datatype State = State(
    client: C.ClientState,
    waiting: bool,
    toServer: seq<Received>,
    toClient: seq<Received>,
    server: ServerState,
    accepted: seq<Message>,
    aborted: bool)
  {
    ghost predicate Valid(u: Setup) {
      client.Valid(u.job) && server.Valid()
    }

    function Queue(c: Channel): seq<Received> {
      if c == ToServer then toServer else toClient
    }

    function WithQueue(c: Channel, q: seq<Received>): State {
      if c == ToServer then this.(toServer := q) else this.(toClient := q)
    }
  }

  ghost predicate Init(s: State) {
    && s.client == C.START && !s.waiting
    && s.toServer == [] && s.toClient == [] && s.accepted == [] && !s.aborted
    && s.server.session.None? && !s.server.crashed
  }

  /** The replies that travel back to the client. */
  function Delivered(sent: seq<Outgoing>, address: Address): seq<Received> {
    if sent == [] then []
    else (if sent[0].to == address then [Intact(sent[0].message)] else []) + Delivered(sent[1..], address)
  }

  /** The server has read the first datagram in the queue with the given outcome. */
  function ServerTurn(u: Setup, s: State, o: Outcome): (s': State)
    requires s.toServer != [] && (o.accepted ==> s.toServer[0].Intact?)
  {
    var r := s.toServer[0];
    s.(toServer := s.toServer[1..],
       toClient := s.toClient + Delivered(o.sent, u.address),
       server := o.state,
       accepted := s.accepted + if o.accepted then [r.message] else [],
       aborted := s.aborted || (r.Intact? && r.message.IsAbr()))
  }

  /** The client's wait has ended and left it in the state c. */
  function ClientTurn(s: State, c: C.ClientState): State {
    s.(waiting := false, client := c)
  }

  function Apply(u: Setup, s: State, a: Action): (s': State)
    requires s.Valid(u)
    ensures s'.Valid(u)
  {
    match a
    case ClientSend =>
      if s.client.Active() && !s.waiting then
        s.(waiting := true, toServer := s.toServer + [Intact(s.client.Sends(u.job))])
      else s
    case ClientReceive =>
      if s.client.Active() && s.waiting && s.toClient != [] then
        var c := C.OnEvent(u.job, u.maxTimeouts, s.client, C.Response(s.toClient[0]));
        ClientTurn(s, c).(toClient := s.toClient[1..])
      else s
    case ClientTimeout =>
      if s.client.Active() && s.waiting then
        ClientTurn(s, C.OnEvent(u.job, u.maxTimeouts, s.client, C.Timeout))
      else s
    case Interrupt =>
      if s.client.status == C.Sending then ClientTurn(s, C.OnInterrupt(s.client)) else s
    case ServerReceive =>
      if !s.server.crashed && s.toServer != [] then
        ServerTurn(u, s, ServerStep(s.server, s.toServer[0], u.address))
      else s
    case Lose(c, k) =>
      var q := s.Queue(c);
      if k < |q| then s.WithQueue(c, q[..k] + q[k + 1..]) else s
    case Duplicate(c, k) =>
      var q := s.Queue(c);
      if k < |q| then s.WithQueue(c, q[..k] + [q[k]] + q[k..]) else s
    case Damage(c, k) =>
      var q := s.Queue(c);
      if k < |q| then s.WithQueue(c, q[k := Corrupt]) else s
  }

  function Run(u: Setup, s: State, schedule: seq<Action>): (s': State)
    requires s.Valid(u)
    ensures s'.Valid(u)
    decreases |schedule|
  {
    if schedule == [] then s else Run(u, Apply(u, s, schedule[0]), schedule[1..])
  }

  lemma {:induction false} RunAppend(u: Setup, s: State, a: seq<Action>, b: seq<Action>)
    requires s.Valid(u)
    ensures Run(u, s, a + b) == Run(u, Run(u, s, a), b)
    decreases |a|
  {
    if a == [] {
      assert a + b == b;
    } else {
      assert (a + b)[1..] == a[1..] + b;
      RunAppend(u, Apply(u, s, a[0]), a[1..], b);
    }
  }

  // ----- What the messages of an upload look like to the other side

  lemma MsgFlags(job: C.Job, j: nat)
    requires j < job.Length()
    ensures var m := job.Msg(j);
            && m.GetSqn() == (j % 2 == 1)
            && (m.IsSyn() <==> j == 0)
            && !m.IsAbr() && m != ABORT
            && (Has(m.flags, FIN) <==> j + 1 == job.Length())
            && (1 <= j <= job.Chunks() ==> ClearFlag(m.flags, SQN) == NONE && m.payload == job.Chunk(j - 1))
            && (j == 0 ==> m.payload == job.name)
  {
    var m := job.Msg(j);
    assert 0 in m.flags <==> j % 2 == 1;
    assert 4 in m.flags <==> j == 0;
    assert 2 in m.flags <==> j + 1 == job.Length();
    assert 3 !in m.flags && 3 in ABORT.flags;
    assert 4 in SYN && 3 in ABR && 2 in FIN && 0 in SQN;
    if 1 <= j <= job.Chunks() {
      assert ClearFlag(m.flags, SQN) == NONE;
    }
  }

  function Ack(job: C.Job, j: nat): Message
    requires j < job.Length()
  {
    job.Msg(j).CreateAck()
  }

  /** The client tells the acknowledgement of the current message from that of the one before. */
  lemma JudgeAck(job: C.Job, i: nat, j: nat)
    requires i < job.Length() && j < job.Length()
    ensures j == i ==> C.Judge(job.Msg(i), i % 2 == 1, Intact(Ack(job, j))) == C.Accepted
    ensures j + 1 == i ==> C.Judge(job.Msg(i), i % 2 == 1, Intact(Ack(job, j))) == C.Verdict.Again
    ensures Ack(job, j) != ABORT && Ack(job, j) != ABORT.CreateAck()
    ensures forall b :: Ack(job, j) != Again(b)
  {
    var m := job.Msg(j);
    var a := Ack(job, j);
    MsgFlags(job, j);
    AckAnswers(m, m);
    assert 1 !in m.flags && 3 !in m.flags && 1 in a.flags && 3 !in a.flags;
    assert 3 in ABORT.flags && 3 in ABORT.CreateAck().flags;
    assert forall b :: 1 !in Again(b).flags;
    assert 3 in ABR && 1 in ACK;
  }

  /** Nothing else the server sends ever advances the client. */
  lemma JudgeOther(job: C.Job, i: nat, b: bool)
    requires i < job.Length()
    ensures C.Judge(job.Msg(i), i % 2 == 1, Intact(Again(b))) == C.Verdict.Again
    ensures C.Judge(job.Msg(i), i % 2 == 1, Intact(ABORT)) == C.Denied
    ensures C.Judge(job.Msg(i), i % 2 == 1, Intact(ABORT.CreateAck())) == C.Denied
  {
    var g, k := Again(b), ABORT.CreateAck();
    assert 1 !in g.flags && 3 !in g.flags && 1 in ACK && 3 in ABR;
    assert Has(ABORT.flags, ABR) && 0 !in ABORT.flags && 0 in SQN;
    assert 3 in k.flags && 0 !in k.flags;
    assert Has(k.flags, ABR);
  }
}
