/** The inductive invariant of an upload over the contents of both channels, and what follows from it in every run. */
module TransferSafety {
  import opened Bits
  import opened Flags
  import opened Messages
  import opened ServerModel
  import opened Transfer
  import C = ClientModel

  // ----- FIFO channels

  /** Every pair of queued items, in queue order and including an item with itself, is related. */
  ghost predicate Pairwise(q: seq<Received>, rel: Rule) {
    forall a, b | 0 <= a <= b < |q| :: rel.Allows(q[a], q[b])
  }

  lemma LosePairwise(q: seq<Received>, rel: Rule, k: nat)
    requires Pairwise(q, rel) && k < |q|
    ensures Pairwise(q[..k] + q[k + 1..], rel)
  {
  }

  lemma DuplicatePairwise(q: seq<Received>, rel: Rule, k: nat)
    requires Pairwise(q, rel) && k < |q|
    ensures Pairwise(q[..k] + [q[k]] + q[k..], rel)
  {
    var q' := q[..k] + [q[k]] + q[k..];
    forall a, b | 0 <= a <= b < |q'|
      ensures rel.Allows(q'[a], q'[b])
    {
      var a0 := if a <= k then a else a - 1;
      var b0 := if b <= k then b else b - 1;
      assert q'[a] == q[a0] && q'[b] == q[b0] && a0 <= b0;
    }
  }

  lemma DamagePairwise(q: seq<Received>, rel: Rule, k: nat)
    requires Pairwise(q, rel) && k < |q|
    ensures Pairwise(q[k := Corrupt], rel)
  {
    var q' := q[k := Corrupt];
    forall a, b | 0 <= a <= b < |q'|
      ensures rel.Allows(q'[a], q'[b])
    {
      assert rel.Allows(q[a], q[a]) && rel.Allows(q[b], q[b]) && rel.Allows(q[a], q[b]);
    }
  }

  lemma AppendPairwise(q: seq<Received>, rel: Rule, x: Received)
    requires Pairwise(q, rel) && rel.Allows(x, x) && forall y | y in q && rel.Allows(y, y) :: rel.Allows(y, x)
    ensures Pairwise(q + [x], rel)
  {
    var q' := q + [x];
    forall a, b | 0 <= a <= b < |q'|
      ensures rel.Allows(q'[a], q'[b])
    {
      if b == |q| && a < |q| {
        assert rel.Allows(q[a], q[a]) && q[a] in q;
      }
    }
  }

  lemma TailPairwise(q: seq<Received>, rel: Rule)
    requires Pairwise(q, rel) && q != []
    ensures Pairwise(q[1..], rel)
  {
  }

  // ----- What travels

  /** The messages of an upload in order, and their acknowledgements. */
  datatype Dialogue = Dialogue(msgs: seq<Message>, acks: seq<Message>) {
    /** Neighbours can be told apart, and nothing in it can be taken for an abort or another reply. */
    ghost predicate Tellable() {
      && |msgs| == |acks|
      && (forall j | 0 <= j < |msgs| :: msgs[j] != ABORT && !OtherReply(Intact(acks[j])))
      && (forall j | 0 < j < |msgs| :: msgs[j] != msgs[j - 1] && acks[j] != acks[j - 1])
    }

    predicate IsMsg(r: Received, j: int) {
      0 <= j < |msgs| && r == Intact(msgs[j])
    }

    predicate IsAck(r: Received, j: int) {
      0 <= j < |acks| && r == Intact(acks[j])
    }
  }

  predicate OtherReply(r: Received) {
    || r == Intact(Again(false)) || r == Intact(Again(true))
    || r == Intact(ABORT) || r == Intact(ABORT.CreateAck())
  }

  function Script(job: C.Job, k: nat): (script: seq<Message>)
    requires k <= job.Length()
    ensures |script| == k && forall j | 0 <= j < k :: script[j] == job.Msg(j)
  {
    seq(k, j requires 0 <= j < k => job.Msg(j))
  }

  function DialogueOf(job: C.Job): (d: Dialogue)
    ensures |d.msgs| == |d.acks| == job.Length()
    ensures forall j | 0 <= j < job.Length() :: d.msgs[j] == job.Msg(j) && d.acks[j] == Ack(job, j)
  {
    Dialogue(Script(job, job.Length()), seq(job.Length(), j requires 0 <= j < job.Length() => Ack(job, j)))
  }

  lemma MsgTellable(job: C.Job, j: nat)
    requires j < job.Length()
    ensures job.Msg(j) != ABORT && !OtherReply(Intact(Ack(job, j)))
    ensures job.Msg(j).GetSqn() == Ack(job, j).GetSqn() == (j % 2 == 1)
  {
    MsgFlags(job, j);
    AckAnswers(job.Msg(j), job.Msg(j));
    JudgeAck(job, j, j);
  }

  lemma NeighboursDiffer(job: C.Job, j: nat)
    requires 0 < j < job.Length()
    ensures job.Msg(j) != job.Msg(j - 1) && Ack(job, j) != Ack(job, j - 1)
  {
    MsgTellable(job, j);
    MsgTellable(job, j - 1);
  }

  lemma DialogueTellable(job: C.Job)
    ensures DialogueOf(job).Tellable()
  {
    TellableWhenOf(job, DialogueOf(job));
  }

  lemma TellableWhenOf(job: C.Job, d: Dialogue)
    requires |d.msgs| == |d.acks| == job.Length()
    requires forall j | 0 <= j < job.Length() :: d.msgs[j] == job.Msg(j) && d.acks[j] == Ack(job, j)
    ensures d.Tellable()
  {
    forall j | 0 <= j < job.Length()
      ensures d.msgs[j] != ABORT && !OtherReply(Intact(d.acks[j]))
    {
      MsgTellable(job, j);
    }
    forall j | 0 < j < job.Length()
      ensures d.msgs[j] != d.msgs[j - 1] && d.acks[j] != d.acks[j - 1]
    {
      NeighboursDiffer(job, j);
    }
  }

  /** Client position, number accepted, whether the client was interrupted, whether the server saw its ABR. */
  datatype Phase = Phase(pos: nat, accepted: nat, interrupted: bool, aborted: bool)

  /** On the way to the server: the current message, or the one before while the server still misses the current one. */
  predicate Upward(d: Dialogue, ph: Phase, r: Received) {
    || r == Corrupt
    || (r == Intact(ABORT) && ph.interrupted)
    || (d.IsMsg(r, ph.pos) && !ph.aborted)
    || (d.IsMsg(r, ph.pos - 1) && !ph.aborted && ph.accepted == ph.pos)
  }

  /** The positions at which the client can meet a refusal: its SYN or FIN is, or has just been, its message. */
  predicate AtEnds(d: Dialogue, pos: nat) {
    pos <= 1 || pos + 1 >= |d.msgs|
  }

  /**
   On the way to the client: acknowledgements of those two, of accepted messages only, requests to repeat,
   refusals of a SYN or FIN, and the acknowledgement of an abort that the server has seen.
   */
  predicate Downward(d: Dialogue, ph: Phase, r: Received) {
    || r == Corrupt
    || r == Intact(Again(false)) || r == Intact(Again(true))
    || (r == Intact(ABORT) && (ph.interrupted || AtEnds(d, ph.pos)))
    || (r == Intact(ABORT.CreateAck()) && ph.aborted)
    || (d.IsAck(r, ph.pos) && ph.pos < ph.accepted)
    || d.IsAck(r, ph.pos - 1)
  }

  /**
   What an item admits behind it: the older message comes first, nothing follows an abort, and a refusal
   follows the acknowledgement of the current message only when that is the SYN or the FIN.
   */
  datatype Rule = UpRel(d: Dialogue, ph: Phase) | DownRel(d: Dialogue, ph: Phase) {
    predicate Allows(x: Received, y: Received) {
      match this
      case UpRel(_, _) =>
        && Upward(d, ph, x) && Upward(d, ph, y)
        && (d.IsMsg(x, ph.pos) ==> !d.IsMsg(y, ph.pos - 1))
        && (x == Intact(ABORT) ==> !d.IsMsg(y, ph.pos) && !d.IsMsg(y, ph.pos - 1))
      case DownRel(_, _) =>
        && Downward(d, ph, x) && Downward(d, ph, y)
        && (d.IsAck(x, ph.pos) ==> !d.IsAck(y, ph.pos - 1))
        && (d.IsAck(x, ph.pos) && y == Intact(ABORT) ==> ph.interrupted || ph.pos == 0 || ph.pos + 1 >= |d.msgs|)
    }
  }

  ghost predicate Channels(d: Dialogue, ph: Phase, toServer: seq<Received>, toClient: seq<Received>) {
    Pairwise(toServer, UpRel(d, ph)) && Pairwise(toClient, DownRel(d, ph))
  }

  // ----- What the steps of the two ends do to the channels

  lemma ClientAppends(d: Dialogue, ph: Phase, toServer: seq<Received>, toClient: seq<Received>, r: Received)
    requires d.Tellable() && Channels(d, ph, toServer, toClient)
    requires if ph.interrupted then r == Intact(ABORT) else d.IsMsg(r, ph.pos) && !ph.aborted
    ensures Channels(d, ph, toServer + [r], toClient)
  {
    AppendPairwise(toServer, UpRel(d, ph), r);
  }

  lemma ClientAdvances(d: Dialogue, ph: Phase, toServer: seq<Received>, toClient: seq<Received>)
    requires d.Tellable() && Channels(d, ph, toServer, toClient)
    requires ph.accepted == ph.pos + 1 && !ph.interrupted && !ph.aborted
    requires toClient != [] && d.IsAck(toClient[0], ph.pos)
    ensures Channels(d, ph.(pos := ph.pos + 1), toServer, toClient[1..])
  {
    var up, up' := UpRel(d, ph), UpRel(d, ph.(pos := ph.pos + 1));
    var down, down' := DownRel(d, ph), DownRel(d, ph.(pos := ph.pos + 1));
    forall a, b | 0 <= a <= b < |toServer|
      ensures up'.Allows(toServer[a], toServer[b])
    {
      assert up.Allows(toServer[a], toServer[b]);
    }
    var rest := toClient[1..];
    forall a, b | 0 <= a <= b < |rest|
      ensures down'.Allows(rest[a], rest[b])
    {
      assert down.Allows(toClient[0], toClient[a + 1]) && down.Allows(toClient[0], toClient[b + 1]);
    }
  }

  /** A change of phase that only admits more keeps the channels as they are. */
  lemma PhaseGrows(d: Dialogue, ph: Phase, ph': Phase, toServer: seq<Received>, toClient: seq<Received>)
    requires d.Tellable() && Channels(d, ph, toServer, toClient)
    requires ph' == ph.(interrupted := ph'.interrupted) && (ph.interrupted ==> ph'.interrupted)
    ensures Channels(d, ph', toServer, toClient)
  {
    var up, down := UpRel(d, ph), DownRel(d, ph);
    forall a, b | 0 <= a <= b < |toServer|
      ensures UpRel(d, ph').Allows(toServer[a], toServer[b])
    {
      assert up.Allows(toServer[a], toServer[b]);
    }
    forall a, b | 0 <= a <= b < |toClient|
      ensures DownRel(d, ph').Allows(toClient[a], toClient[b])
    {
      assert down.Allows(toClient[a], toClient[b]);
    }
  }

  /** What the server may answer: it refuses only when it has just accepted the SYN or the FIN. */
  predicate Answers(d: Dialogue, ph: Phase, reply: Received) {
    || reply == Intact(Again(false)) || reply == Intact(Again(true))
    || (reply == Intact(ABORT) && ph.pos <= ph.accepted <= ph.pos + 1 && (ph.accepted == 1 || ph.accepted == |d.msgs|))
    || (reply == Intact(ABORT.CreateAck()) && ph.aborted)
    || (ph.pos < ph.accepted && d.IsAck(reply, ph.pos))
    || (ph.pos == ph.accepted && d.IsAck(reply, ph.pos - 1))
  }

  lemma ReplyKeeps(d: Dialogue, ph: Phase, toClient: seq<Received>, reply: Received)
    requires d.Tellable() && Pairwise(toClient, DownRel(d, ph)) && Answers(d, ph, reply)
    ensures Pairwise(toClient + [reply], DownRel(d, ph))
  {
    var down := DownRel(d, ph);
    assert down.Allows(reply, reply);
    forall y | y in toClient
      ensures down.Allows(y, reply)
    {
      var i :| 0 <= i < |toClient| && toClient[i] == y;
      assert down.Allows(toClient[i], toClient[i]);
    }
    AppendPairwise(toClient, down, reply);
  }

  /** The server has taken the current message from the channel and accepted it. */
  lemma ServerAdvances(d: Dialogue, ph: Phase, toServer: seq<Received>, toClient: seq<Received>)
    requires d.Tellable() && Channels(d, ph, toServer, toClient)
    requires ph.accepted == ph.pos < |d.msgs| && toServer != [] && d.IsMsg(toServer[0], ph.pos)
    ensures Channels(d, ph.(accepted := ph.pos + 1), toServer[1..], toClient + [Intact(d.acks[ph.pos])])
  {
    var ph' := ph.(accepted := ph.pos + 1);
    var up, down := UpRel(d, ph), DownRel(d, ph);
    var rest := toServer[1..];
    forall a, b | 0 <= a <= b < |rest|
      ensures UpRel(d, ph').Allows(rest[a], rest[b])
    {
      assert up.Allows(toServer[0], toServer[a + 1]) && up.Allows(toServer[0], toServer[b + 1]);
      assert up.Allows(toServer[a + 1], toServer[b + 1]);
    }
    forall a, b | 0 <= a <= b < |toClient|
      ensures DownRel(d, ph').Allows(toClient[a], toClient[b])
    {
      assert down.Allows(toClient[a], toClient[b]);
    }
    ReplyKeeps(d, ph', toClient, Intact(d.acks[ph.pos]));
  }

  /** The server has taken an abort from the channel. */
  lemma AbortClears(d: Dialogue, ph: Phase, toServer: seq<Received>, toClient: seq<Received>)
    requires d.Tellable() && Channels(d, ph, toServer, toClient)
    requires toServer != [] && toServer[0] == Intact(ABORT)
    ensures ph.interrupted
    ensures Channels(d, ph.(aborted := true), toServer[1..], toClient + [Intact(ABORT.CreateAck())])
  {
    var ph' := ph.(aborted := true);
    var up, down := UpRel(d, ph), DownRel(d, ph);
    assert up.Allows(toServer[0], toServer[0]);
    var rest := toServer[1..];
    forall a, b | 0 <= a <= b < |rest|
      ensures UpRel(d, ph').Allows(rest[a], rest[b])
    {
      assert up.Allows(toServer[0], toServer[a + 1]) && up.Allows(toServer[0], toServer[b + 1]);
    }
    forall a, b | 0 <= a <= b < |toClient|
      ensures DownRel(d, ph').Allows(toClient[a], toClient[b])
    {
      assert down.Allows(toClient[a], toClient[b]);
    }
    ReplyKeeps(d, ph', toClient, Intact(ABORT.CreateAck()));
  }

  /** The server has taken something else from the channel, and answered with another reply or an old acknowledgement. */
  lemma ServerAnswers(d: Dialogue, ph: Phase, toServer: seq<Received>, toClient: seq<Received>, reply: Received)
    requires d.Tellable() && Channels(d, ph, toServer, toClient) && toServer != []
    requires Answers(d, ph, reply)
    ensures Channels(d, ph, toServer[1..], toClient + [reply])
  {
    TailPairwise(toServer, UpRel(d, ph));
    ReplyKeeps(d, ph, toClient, reply);
  }

  // ----- The invariant

  /** The server after k acceptances: session, expected bit and file content. */
  ghost predicate ServerAt(u: Setup, server: ServerState, k: nat, aborted: bool) {
    && k <= u.job.Length()
    && (server.session.Some? <==> !aborted && 0 < k < u.job.Length())
    && (server.session.Some? ==>
          var c := server.session.value;
          && c.address == u.address && c.path == u.job.name && c.expected == (k % 2 == 1)
          && c.path in server.files && server.files[c.path] == u.job.Joined(k - 1))
    && (k == u.job.Length() ==> u.job.name in server.files && server.files[u.job.name] == u.job.content)
    && (aborted && 0 < k < u.job.Length() && |u.job.content| < ULONG ==> Blank(server, u.job.name))
  }

  /** There is no such file, or it is empty. */
  predicate Blank(server: ServerState, path: seq<Byte>) {
    path in server.files ==> server.files[path] == []
  }

  function PhaseOf(s: State): Phase {
    Phase(s.client.pos, |s.accepted|, s.client.status == C.Aborting || s.client.status == C.Exited, s.aborted)
  }

  /** Positions, bits and records; the channels are described apart. */
  ghost predicate Ends(u: Setup, s: State) {
    var ph := PhaseOf(s);
    && s.Valid(u)
    && ph.pos <= ph.accepted <= ph.pos + 1 && ph.accepted <= u.job.Length()
    && s.accepted == Script(u.job, ph.accepted)
    && s.client.currSQN == (ph.pos % 2 == 1)
    && (s.client.status == C.Finished <==> ph.pos == u.job.Length())
    && (ph.aborted ==> ph.interrupted)
    && (s.client.status == C.Refused ==> ph.pos <= 1 || ph.pos + 1 == u.job.Length())
    && ClientEnds(u, s.client, ph.aborted)
    && ServerAt(u, s.server, ph.accepted, ph.aborted)
  }

  /** Why the client has ended: budgets that were spent, or an abort that the server saw. */
  predicate ClientEnds(u: Setup, c: C.ClientState, aborted: bool) {
    && (c.status == C.Sending && u.maxTimeouts >= 0 ==> c.retries <= u.maxTimeouts)
    && (c.status == C.GaveUp ==> 0 <= u.maxTimeouts == c.retries)
    && (c.status == C.Aborting ==> c.retries <= 3)
    && (c.status == C.Exited ==> aborted || c.retries == 3)
  }

  ghost predicate Inv(u: Setup, s: State) {
    Ends(u, s) && Channels(DialogueOf(u.job), PhaseOf(s), s.toServer, s.toClient)
  }

  lemma InvFrom(u: Setup, s: State, ph: Phase, toServer: seq<Received>, toClient: seq<Received>)
    requires Ends(u, s) && PhaseOf(s) == ph && s.toServer == toServer && s.toClient == toClient
    requires Channels(DialogueOf(u.job), ph, toServer, toClient)
    ensures Inv(u, s)
  {
  }

  // ----- One server turn

  ghost predicate AcceptsWith(u: Setup, o: Outcome, k: nat)
    requires k < u.job.Length()
  {
    && o.accepted && o.sent == [Outgoing(u.address, Ack(u.job, k))]
    && ServerAt(u, o.state, k + 1, false) && !o.state.crashed
  }

  lemma ServerAcceptsSyn(u: Setup, server: ServerState)
    requires server.Valid() && !server.crashed && ServerAt(u, server, 0, false)
    ensures AcceptsWith(u, ServerStep(server, Intact(u.job.Msg(0)), u.address), 0)
  {
    MsgFlags(u.job, 0);
  }

  lemma ServerAcceptsChunk(u: Setup, server: ServerState, k: nat)
    requires server.Valid() && !server.crashed && 0 < k <= u.job.Chunks() && ServerAt(u, server, k, false)
    ensures AcceptsWith(u, ServerStep(server, Intact(u.job.Msg(k)), u.address), k)
  {
    MsgFlags(u.job, k);
  }

  lemma ServerAcceptsFin(u: Setup, server: ServerState, k: nat)
    requires server.Valid() && !server.crashed && k == u.job.Chunks() + 1 && ServerAt(u, server, k, false)
    ensures AcceptsWith(u, ServerStep(server, Intact(u.job.Msg(k)), u.address), k)
  {
    MsgFlags(u.job, k);
    C.JoinedIsWhole(u.job);
  }

  /** The server at k acceptances reads the message it waits for. */
  lemma ServerAccepts(u: Setup, server: ServerState, k: nat)
    requires server.Valid() && !server.crashed && k < u.job.Length() && ServerAt(u, server, k, false)
    ensures AcceptsWith(u, ServerStep(server, Intact(u.job.Msg(k)), u.address), k)
  {
    if k == 0 {
      ServerAcceptsSyn(u, server);
    } else if k <= u.job.Chunks() {
      ServerAcceptsChunk(u, server, k);
    } else {
      ServerAcceptsFin(u, server, k);
    }
  }

  ghost predicate RereadsWith(u: Setup, o: Outcome, k: nat)
    requires 0 < k <= u.job.Length()
  {
    && !o.accepted && ServerAt(u, o.state, k, false) && !o.state.crashed
    && o.sent == [Outgoing(u.address, RereadReply(u.job, k))]
  }

  /** The server at k acceptances reads the message before: it acknowledges it again, or refuses a late SYN or FIN. */
  lemma ServerRereads(u: Setup, server: ServerState, k: nat)
    requires server.Valid() && !server.crashed && 0 < k <= u.job.Length() && ServerAt(u, server, k, false)
    ensures RereadsWith(u, ServerStep(server, Intact(u.job.Msg(k - 1)), u.address), k)
  {
    MsgFlags(u.job, k - 1);
  }

  lemma ServerAborts(u: Setup, server: ServerState, k: nat, aborted: bool)
    requires server.Valid() && !server.crashed && ServerAt(u, server, k, aborted)
    ensures var o := ServerStep(server, Intact(ABORT), u.address);
            && !o.accepted && ServerAt(u, o.state, k, true)
            && o.sent == [Outgoing(u.address, ABORT.CreateAck())]
  {
    assert ABORT.IsAbr() && !ABORT.IsSyn() by {
      assert 3 in ABORT.flags && 3 !in SYN && 0 !in ABORT.flags && 0 in SQN;
    }
    if server.session.Some? {
      AbortBlanks(u, server, k);
    }
  }

  lemma AbortBlanks(u: Setup, server: ServerState, k: nat)
    requires server.Valid() && ServerAt(u, server, k, false) && server.session.Some?
    ensures |u.job.content| < ULONG ==> Blank(AbortSession(server), u.job.name)
  {
    C.JoinedIsPrefix(u.job, k - 1);
  }

  lemma DeliveredOne(m: Message, address: Address)
    ensures Delivered([Outgoing(address, m)], address) == [Intact(m)]
  {
    assert [Outgoing(address, m)][1..] == [];
  }

  // ----- Every action keeps the invariant

  lemma SendKeepsInv(u: Setup, s: State)
    requires Inv(u, s)
    ensures Inv(u, Apply(u, s, ClientSend))
  {
    if s.client.Active() && !s.waiting {
      DialogueTellable(u.job);
      ClientAppends(DialogueOf(u.job), PhaseOf(s), s.toServer, s.toClient, Intact(s.client.Sends(u.job)));
    }
  }

  predicate Refusal(r: Received) {
    r == Intact(ABORT) || r == Intact(ABORT.CreateAck())
  }

  /**
   What a response makes of the client. Sending, it moves on exactly when it reads the acknowledgement of
   its message, and gives in exactly when it is refused; aborting, it exits exactly when its abort is
   acknowledged. Anything else, damage included, makes it repeat with all its retries.
   */
  ghost predicate Responds(job: C.Job, c: C.ClientState, c': C.ClientState, r: Received) {
    c' == if c.status == C.Sending && DialogueOf(job).IsAck(r, c.pos) then
            c.(pos := c.pos + 1, currSQN := !c.currSQN, retries := 0,
               status := if c.pos + 1 == job.Length() then C.Finished else C.Sending)
          else if c.status == C.Sending && Refusal(r) then c.(retries := 0, status := C.Refused)
          else if c.status == C.Aborting && r == Intact(ABORT.CreateAck()) then c.(retries := 0, status := C.Exited)
          else c.(retries := 0)
  }

  lemma ClientReads(u: Setup, s: State, r: Received)
    requires Ends(u, s) && s.client.Active() && Downward(DialogueOf(u.job), PhaseOf(s), r)
    ensures Responds(u.job, s.client, C.OnEvent(u.job, u.maxTimeouts, s.client, C.Response(r)), r)
  {
    var i := s.client.pos;
    if s.client.status == C.Sending {
      JudgeReply(u.job, i, r);
    } else {
      AbortAnswered(u.job, i, r);
    }
  }

  /** What can be in flight while the client is at message i. */
  predicate Expected(job: C.Job, i: nat, r: Received) {
    r == Corrupt || OtherReply(r) || DialogueOf(job).IsAck(r, i) || DialogueOf(job).IsAck(r, i - 1)
  }

  lemma JudgeReply(job: C.Job, i: nat, r: Received)
    requires i < job.Length() && Expected(job, i, r)
    ensures C.Judge(job.Msg(i), i % 2 == 1, r) == C.Accepted <==> DialogueOf(job).IsAck(r, i)
    ensures C.Judge(job.Msg(i), i % 2 == 1, r) == C.Denied <==> Refusal(r)
  {
    DialogueTellable(job);
    JudgeOther(job, i, false);
    JudgeOther(job, i, true);
    AgainIsNoRefusal();
    JudgeAck(job, i, i);
    if i > 0 {
      JudgeAck(job, i, i - 1);
    }
  }

  lemma AgainIsNoRefusal()
    ensures forall b :: !Refusal(Intact(Again(b)))
  {
    forall b
      ensures !Refusal(Intact(Again(b)))
    {
      assert 3 !in Again(b).flags && 3 in ABORT.flags && 3 in ABORT.CreateAck().flags;
    }
  }

  /** Of what can be in flight, only the acknowledgement of the abort answers it. */
  lemma AbortAnswered(job: C.Job, i: nat, r: Received)
    requires Expected(job, i, r)
    ensures r.Intact? && r.message.IsAckFor(ABORT) <==> r == Intact(ABORT.CreateAck())
  {
    assert 1 in ACK && 3 in ABORT.flags && 1 !in ABORT.flags;
    assert forall b :: 1 !in Again(b).flags;
    AckAnswers(ABORT, ABORT);
    if 0 <= i < job.Length() {
      AckOfMessage(job, i);
    }
    if 0 <= i - 1 < job.Length() {
      AckOfMessage(job, i - 1);
    }
  }

  lemma AckOfMessage(job: C.Job, j: nat)
    requires j < job.Length()
    ensures !Ack(job, j).IsAckFor(ABORT) && Ack(job, j) != ABORT.CreateAck()
  {
    MsgFlags(job, j);
    JudgeAck(job, j, j);
    assert 3 !in ClearFlag(Ack(job, j).flags, ACK) && 3 in ABORT.flags;
  }

  lemma AdvanceKeepsEnds(u: Setup, s: State, c: C.ClientState)
    requires Ends(u, s) && s.client.status == C.Sending && s.toClient != [] && DialogueOf(u.job).Tellable()
    requires Responds(u.job, s.client, c, s.toClient[0]) && c.Valid(u.job)
    requires DialogueOf(u.job).IsAck(s.toClient[0], s.client.pos)
    requires Downward(DialogueOf(u.job), PhaseOf(s), s.toClient[0])
    ensures var s' := ClientTurn(s, c).(toClient := s.toClient[1..]);
            && Ends(u, s') && PhaseOf(s') == PhaseOf(s).(pos := s.client.pos + 1)
            && |s.accepted| == s.client.pos + 1 && !s.aborted
  {
  }

  lemma AdvanceChannels(job: C.Job, ph: Phase, toServer: seq<Received>, toClient: seq<Received>)
    requires Channels(DialogueOf(job), ph, toServer, toClient) && ph.accepted == ph.pos + 1
    requires !ph.interrupted && !ph.aborted && toClient != [] && DialogueOf(job).IsAck(toClient[0], ph.pos)
    ensures Channels(DialogueOf(job), ph.(pos := ph.pos + 1), toServer, toClient[1..])
  {
    DialogueTellable(job);
    ClientAdvances(DialogueOf(job), ph, toServer, toClient);
  }

  /** A response that leaves the client where it is, described by what it leaves of the client's state. */
  ghost predicate Stays(job: C.Job, c: C.ClientState, c': C.ClientState, aborted: bool) {
    && c' == c.(retries := 0, status := c'.status)
    && (c'.status == c.status
        || (c.status == C.Sending && c'.status == C.Refused && (c.pos <= 1 || c.pos + 1 == job.Length()))
        || (c.status == C.Aborting && c'.status == C.Exited && aborted))
  }

  lemma ResponseStays(job: C.Job, ph: Phase, c: C.ClientState, c': C.ClientState, r: Received)
    requires c.Active() && c.Valid(job) && ph.pos == c.pos && ph.interrupted == (c.status == C.Aborting)
    requires (ph.aborted ==> ph.interrupted) && Responds(job, c, c', r) && Downward(DialogueOf(job), ph, r)
    requires c.status == C.Sending ==> !DialogueOf(job).IsAck(r, c.pos)
    ensures Stays(job, c, c', ph.aborted)
  {
    AckOfAbort();
    if ph.interrupted && r == Intact(ABORT.CreateAck()) && !ph.aborted {
      AckOfMessages(job, c.pos, r);
    }
  }

  lemma AckOfMessages(job: C.Job, i: nat, r: Received)
    requires DialogueOf(job).IsAck(r, i) || DialogueOf(job).IsAck(r, i - 1)
    ensures r != Intact(ABORT.CreateAck())
  {
    if DialogueOf(job).IsAck(r, i) {
      AckOfMessage(job, i);
    } else {
      AckOfMessage(job, i - 1);
    }
  }

  lemma StayKeepsEnds(u: Setup, s: State, c: C.ClientState)
    requires Ends(u, s) && s.client.Active() && s.toClient != [] && c.Valid(u.job)
    requires Stays(u.job, s.client, c, s.aborted)
    ensures Ends(u, ClientTurn(s, c).(toClient := s.toClient[1..])) && c.pos == s.client.pos
  {
  }

  lemma AckOfAbort()
    ensures ABORT != ABORT.CreateAck()
  {
    assert 1 in ACK && 1 in ABORT.CreateAck().flags && 1 !in ABORT.flags;
  }

  lemma AdvanceKeepsInv(u: Setup, s: State, c: C.ClientState)
    requires Inv(u, s) && s.client.status == C.Sending && s.toClient != [] && c.Valid(u.job)
    requires Responds(u.job, s.client, c, s.toClient[0])
    requires DialogueOf(u.job).IsAck(s.toClient[0], s.client.pos)
    ensures Inv(u, ClientTurn(s, c).(toClient := s.toClient[1..]))
  {
    var ph := PhaseOf(s);
    HeadDownward(u, s);
    DialogueTellable(u.job);
    AdvanceKeepsEnds(u, s, c);
    AdvanceChannels(u.job, ph, s.toServer, s.toClient);
    InvFrom(u, ClientTurn(s, c).(toClient := s.toClient[1..]), ph.(pos := ph.pos + 1), s.toServer, s.toClient[1..]);
  }

  lemma StayKeepsInv(u: Setup, s: State, c: C.ClientState)
    requires Inv(u, s) && s.client.Active() && s.toClient != [] && c.Valid(u.job)
    requires Responds(u.job, s.client, c, s.toClient[0])
    requires s.client.status == C.Sending ==> !DialogueOf(u.job).IsAck(s.toClient[0], s.client.pos)
    ensures Inv(u, ClientTurn(s, c).(toClient := s.toClient[1..]))
  {
    var ph := PhaseOf(s);
    HeadDownward(u, s);
    ResponseStays(u.job, ph, s.client, c, s.toClient[0]);
    StayKeepsEnds(u, s, c);
    TailPairwise(s.toClient, DownRel(DialogueOf(u.job), ph));
    InvFrom(u, ClientTurn(s, c).(toClient := s.toClient[1..]), ph, s.toServer, s.toClient[1..]);
  }

  lemma HeadDownward(u: Setup, s: State)
    requires Inv(u, s) && s.toClient != []
    ensures Downward(DialogueOf(u.job), PhaseOf(s), s.toClient[0])
  {
    var rel := DownRel(DialogueOf(u.job), PhaseOf(s));
    assert rel.Allows(s.toClient[0], s.toClient[0]);
  }

  lemma ReceiveKeepsInv(u: Setup, s: State)
    requires Inv(u, s)
    ensures Inv(u, Apply(u, s, ClientReceive))
  {
    if s.client.Active() && s.waiting && s.toClient != [] {
      var c := C.OnEvent(u.job, u.maxTimeouts, s.client, C.Response(s.toClient[0]));
      HeadDownward(u, s);
      ClientReads(u, s, s.toClient[0]);
      if s.client.status == C.Sending && DialogueOf(u.job).IsAck(s.toClient[0], s.client.pos) {
        AdvanceKeepsInv(u, s, c);
      } else {
        StayKeepsInv(u, s, c);
      }
    }
  }

  lemma TimeoutKeepsInv(u: Setup, s: State)
    requires Inv(u, s)
    ensures Inv(u, Apply(u, s, ClientTimeout))
  {
    assert PhaseOf(Apply(u, s, ClientTimeout)) == PhaseOf(s);
  }

  lemma InterruptKeepsInv(u: Setup, s: State)
    requires Inv(u, s)
    ensures Inv(u, Apply(u, s, Interrupt))
  {
    DialogueTellable(u.job);
    PhaseGrows(DialogueOf(u.job), PhaseOf(s), PhaseOf(Apply(u, s, Interrupt)), s.toServer, s.toClient);
  }

  lemma QueueKeepsInv(u: Setup, s: State, c: Channel, q: seq<Received>)
    requires Inv(u, s)
    requires Pairwise(q, if c == ToServer then UpRel(DialogueOf(u.job), PhaseOf(s)) else DownRel(DialogueOf(u.job), PhaseOf(s)))
    ensures Inv(u, s.WithQueue(c, q))
  {
    assert PhaseOf(s.WithQueue(c, q)) == PhaseOf(s);
  }

  lemma ChannelKeepsInv(u: Setup, s: State, a: Action)
    requires Inv(u, s) && (a.Lose? || a.Duplicate? || a.Damage?)
    ensures Inv(u, Apply(u, s, a))
  {
    var d, ph := DialogueOf(u.job), PhaseOf(s);
    var rel := if a.channel == ToServer then UpRel(d, ph) else DownRel(d, ph);
    var q, k := s.Queue(a.channel), a.k;
    if k < |q| {
      match a
      case Lose(c, _) =>
        LosePairwise(q, rel, k);
        QueueKeepsInv(u, s, c, q[..k] + q[k + 1..]);
      case Duplicate(c, _) =>
        DuplicatePairwise(q, rel, k);
        QueueKeepsInv(u, s, c, q[..k] + [q[k]] + q[k..]);
      case Damage(c, _) =>
        DamagePairwise(q, rel, k);
        QueueKeepsInv(u, s, c, q[k := Corrupt]);
    }
  }

  function ServerOutcome(u: Setup, s: State): Outcome
    requires s.Valid(u) && s.toServer != []
  {
    ServerStep(s.server, s.toServer[0], u.address)
  }

  lemma ServerKeepsInv(u: Setup, s: State)
    requires Inv(u, s)
    ensures Inv(u, Apply(u, s, ServerReceive))
  {
    if !s.server.crashed && s.toServer != [] {
      HeadUpward(u, s);
      var kind := Upmost(u, s);
      match kind {
        case Damaged => CorruptKeepsInv(u, s, ServerOutcome(u, s));
        case Aborts => AbortTurn(u, s);
        case Awaited => AcceptTurn(u, s);
        case Reread => RereadTurn(u, s);
      }
    }
  }

  /** What can come first in the queue: damage, an abort, the message the server waits for, the one before. */
  datatype Head = Damaged | Aborts | Awaited | Reread

  lemma HeadUpward(u: Setup, s: State)
    requires Inv(u, s) && s.toServer != []
    ensures Upward(DialogueOf(u.job), PhaseOf(s), s.toServer[0])
  {
    var rel := UpRel(DialogueOf(u.job), PhaseOf(s));
    assert rel.Allows(s.toServer[0], s.toServer[0]);
  }

  lemma Upmost(u: Setup, s: State) returns (kind: Head)
    requires Ends(u, s) && s.toServer != [] && Upward(DialogueOf(u.job), PhaseOf(s), s.toServer[0])
    ensures kind.Damaged? ==> s.toServer[0] == Corrupt
    ensures kind.Aborts? ==> s.toServer[0] == Intact(ABORT)
    ensures kind.Awaited? ==>
      && !s.aborted && |s.accepted| < u.job.Length() && s.client.pos == |s.accepted|
      && s.toServer[0] == Intact(u.job.Msg(|s.accepted|))
    ensures kind.Reread? ==>
      !s.aborted && 0 < |s.accepted| && s.toServer[0] == Intact(u.job.Msg(|s.accepted| - 1))
  {
    var d, ph, r := DialogueOf(u.job), PhaseOf(s), s.toServer[0];
    kind := if r == Corrupt then Damaged else if r == Intact(ABORT) then Aborts
            else if ph.pos == ph.accepted && d.IsMsg(r, ph.pos) then Awaited else Reread;
  }

  lemma AbortTurn(u: Setup, s: State)
    requires Inv(u, s) && !s.server.crashed && s.toServer != [] && s.toServer[0] == Intact(ABORT)
    ensures Inv(u, ServerTurn(u, s, ServerOutcome(u, s)))
  {
    ServerAborts(u, s.server, |s.accepted|, s.aborted);
    AbortKeepsInv(u, s, ServerOutcome(u, s));
  }

  lemma AcceptTurn(u: Setup, s: State)
    requires Inv(u, s) && !s.server.crashed && s.toServer != [] && |s.accepted| < u.job.Length()
    requires s.toServer[0] == Intact(u.job.Msg(|s.accepted|)) && s.client.pos == |s.accepted| && !s.aborted
    ensures Inv(u, ServerTurn(u, s, ServerOutcome(u, s)))
  {
    ServerAccepts(u, s.server, |s.accepted|);
    AcceptKeepsInv(u, s, ServerOutcome(u, s));
  }

  lemma RereadTurn(u: Setup, s: State)
    requires Inv(u, s) && !s.server.crashed && s.toServer != [] && 0 < |s.accepted| && !s.aborted
    requires s.toServer[0] == Intact(u.job.Msg(|s.accepted| - 1))
    ensures Inv(u, ServerTurn(u, s, ServerOutcome(u, s)))
  {
    ServerRereads(u, s.server, |s.accepted|);
    RereadKeepsInv(u, s, ServerOutcome(u, s));
  }

  lemma CorruptKeepsInv(u: Setup, s: State, o: Outcome)
    requires Inv(u, s) && !s.server.crashed && s.toServer != [] && s.toServer[0] == Corrupt
    requires o == ServerStep(s.server, Corrupt, u.address)
    ensures Inv(u, ServerTurn(u, s, o))
  {
    var d, ph := DialogueOf(u.job), PhaseOf(s);
    var s' := ServerTurn(u, s, o);
    assert PhaseOf(s') == ph;
    DialogueTellable(u.job);
    if s.server.session.Some? {
      var again := Again(s.server.session.value.expected);
      DeliveredOne(again, u.address);
      ServerAnswers(d, ph, s.toServer, s.toClient, Intact(again));
    } else {
      TailPairwise(s.toServer, UpRel(d, ph));
      assert s'.toClient == s.toClient;
    }
  }

  lemma AbortKeepsInv(u: Setup, s: State, o: Outcome)
    requires Inv(u, s) && s.toServer != [] && s.toServer[0] == Intact(ABORT) && ABORT.IsAbr()
    requires !o.accepted && o.state.Valid() && ServerAt(u, o.state, |s.accepted|, true)
    requires o.sent == [Outgoing(u.address, ABORT.CreateAck())]
    ensures Inv(u, ServerTurn(u, s, o))
  {
    var d, ph := DialogueOf(u.job), PhaseOf(s);
    DialogueTellable(u.job);
    DeliveredOne(ABORT.CreateAck(), u.address);
    AbortClears(d, ph, s.toServer, s.toClient);
    assert PhaseOf(ServerTurn(u, s, o)) == ph.(aborted := true);
  }

  lemma AcceptKeepsEnds(u: Setup, s: State, o: Outcome)
    requires Ends(u, s) && s.toServer != [] && |s.accepted| < u.job.Length()
    requires s.toServer[0] == Intact(u.job.Msg(|s.accepted|)) && s.client.pos == |s.accepted| && !s.aborted
    requires o.state.Valid() && AcceptsWith(u, o, |s.accepted|)
    ensures var s' := ServerTurn(u, s, o);
            && Ends(u, s') && PhaseOf(s') == PhaseOf(s).(accepted := |s.accepted| + 1)
            && s'.toServer == s.toServer[1..] && s'.toClient == s.toClient + [Intact(Ack(u.job, |s.accepted|))]
  {
    MsgFlags(u.job, |s.accepted|);
    DeliveredOne(Ack(u.job, |s.accepted|), u.address);
    assert ServerTurn(u, s, o).accepted == Script(u.job, |s.accepted| + 1);
  }

  lemma AcceptKeepsInv(u: Setup, s: State, o: Outcome)
    requires Inv(u, s) && s.toServer != [] && |s.accepted| < u.job.Length()
    requires s.toServer[0] == Intact(u.job.Msg(|s.accepted|)) && s.client.pos == |s.accepted| && !s.aborted
    requires o.state.Valid() && AcceptsWith(u, o, |s.accepted|)
    ensures Inv(u, ServerTurn(u, s, o))
  {
    var ph := PhaseOf(s);
    AcceptKeepsEnds(u, s, o);
    AcceptChannels(u.job, ph, s.toServer, s.toClient);
    InvFrom(u, ServerTurn(u, s, o), ph.(accepted := ph.pos + 1), s.toServer[1..], s.toClient + [Intact(Ack(u.job, ph.pos))]);
  }

  lemma AcceptChannels(job: C.Job, ph: Phase, toServer: seq<Received>, toClient: seq<Received>)
    requires Channels(DialogueOf(job), ph, toServer, toClient) && ph.accepted == ph.pos < job.Length()
    requires toServer != [] && toServer[0] == Intact(job.Msg(ph.pos))
    ensures Channels(DialogueOf(job), ph.(accepted := ph.pos + 1), toServer[1..], toClient + [Intact(Ack(job, ph.pos))])
  {
    DialogueTellable(job);
    ServerAdvances(DialogueOf(job), ph, toServer, toClient);
  }

  function RereadReply(job: C.Job, k: nat): Message
    requires 0 < k <= job.Length()
  {
    if k == 1 || k == job.Length() then ABORT else Ack(job, k - 1)
  }

  lemma RereadKeepsEnds(u: Setup, s: State, o: Outcome)
    requires Ends(u, s) && s.toServer != [] && 0 < |s.accepted| && !s.aborted
    requires s.toServer[0] == Intact(u.job.Msg(|s.accepted| - 1))
    requires RereadsWith(u, o, |s.accepted|) && o.state.Valid()
    ensures var s' := ServerTurn(u, s, o);
            && Ends(u, s') && PhaseOf(s') == PhaseOf(s)
            && s'.toServer == s.toServer[1..] && s'.toClient == s.toClient + [Intact(RereadReply(u.job, |s.accepted|))]
  {
    MsgFlags(u.job, |s.accepted| - 1);
    DeliveredOne(RereadReply(u.job, |s.accepted|), u.address);
    assert ServerTurn(u, s, o).accepted == s.accepted;
  }

  lemma RereadReplyKnown(job: C.Job, ph: Phase)
    requires ph.pos <= ph.accepted <= ph.pos + 1 && 0 < ph.accepted <= job.Length()
    ensures Answers(DialogueOf(job), ph, Intact(RereadReply(job, ph.accepted)))
  {
  }

  lemma RereadKeepsInv(u: Setup, s: State, o: Outcome)
    requires Inv(u, s) && s.toServer != [] && 0 < |s.accepted| && !s.aborted
    requires s.toServer[0] == Intact(u.job.Msg(|s.accepted| - 1))
    requires RereadsWith(u, o, |s.accepted|) && o.state.Valid()
    ensures Inv(u, ServerTurn(u, s, o))
  {
    var d, ph, reply := DialogueOf(u.job), PhaseOf(s), Intact(RereadReply(u.job, |s.accepted|));
    DialogueTellable(u.job);
    RereadReplyKnown(u.job, ph);
    ServerAnswers(d, ph, s.toServer, s.toClient, reply);
    RereadKeepsEnds(u, s, o);
    InvFrom(u, ServerTurn(u, s, o), ph, s.toServer[1..], s.toClient + [reply]);
  }

  lemma StepKeepsInv(u: Setup, s: State, a: Action)
    requires Inv(u, s)
    ensures Inv(u, Apply(u, s, a))
  {
    match a
    case ClientSend => SendKeepsInv(u, s);
    case ClientReceive => ReceiveKeepsInv(u, s);
    case ClientTimeout => TimeoutKeepsInv(u, s);
    case Interrupt => InterruptKeepsInv(u, s);
    case ServerReceive => ServerKeepsInv(u, s);
    case _ => ChannelKeepsInv(u, s, a);
  }

  lemma {:induction false} RunKeepsInv(u: Setup, s: State, schedule: seq<Action>)
    requires Inv(u, s)
    ensures Inv(u, Run(u, s, schedule))
    decreases |schedule|
  {
    if schedule != [] {
      StepKeepsInv(u, s, schedule[0]);
      RunKeepsInv(u, Apply(u, s, schedule[0]), schedule[1..]);
    }
  }

  lemma InitInv(u: Setup, s: State)
    requires Init(s) && s.Valid(u)
    ensures Inv(u, s)
  {
  }
}
