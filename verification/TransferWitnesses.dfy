/** Runs that exist: what one damaged, duplicated or lost datagram can do, and that an abort can always get through. */
module TransferWitnesses {
  import opened Messages
  import opened ServerModel
  import opened Transfer
  import opened TransferSafety
  import opened TransferResults
  import C = ClientModel

  /** One damaged SYN at an idle server ends the server. */
  lemma DamagedSynCrashes(u: Setup, start: State)
    requires Init(start) && start.Valid(u)
    ensures Run(u, start, [ClientSend, Damage(ToServer, 0), ServerReceive]).server.crashed
  {
    RunThree(u, start, ClientSend, Damage(ToServer, 0), ServerReceive);
    var s1 := Apply(u, start, ClientSend);
    assert s1.toServer == [Intact(u.job.Msg(0))];
    assert Apply(u, s1, Damage(ToServer, 0)).toServer == [Corrupt];
  }

  lemma SynTwice(u: Setup, start: State)
    requires Init(start) && start.Valid(u)
    ensures var s := Run(u, start, [ClientSend, Duplicate(ToServer, 0), ServerReceive]);
            && s.toServer == [Intact(u.job.Msg(0))] && s.toClient == [Intact(Ack(u.job, 0))]
            && s.client == C.START && s.waiting && ServerAt(u, s.server, 1, false) && !s.server.crashed
  {
    RunThree(u, start, ClientSend, Duplicate(ToServer, 0), ServerReceive);
    var m := Intact(u.job.Msg(0));
    var s1 := Apply(u, start, ClientSend);
    assert s1.toServer == [m];
    var s2 := Apply(u, s1, Duplicate(ToServer, 0));
    assert s2.toServer == [m, m];
    ServerAccepts(u, start.server, 0);
    ServerExchanges(u, s2, Answer(u, start.server, 0), 0);
  }

  /** The second copy of a duplicated SYN is refused; if the first acknowledgement is lost, the client ends. */
  lemma DuplicatedSynCanBeRefused(u: Setup, start: State)
    requires Init(start) && start.Valid(u)
    ensures Run(u, start, [ClientSend, Duplicate(ToServer, 0), ServerReceive]
                          + [ServerReceive, Lose(ToClient, 0), ClientReceive]).client.status == C.Refused
  {
    var first := [ClientSend, Duplicate(ToServer, 0), ServerReceive];
    SynTwice(u, start);
    RunAppend(u, start, first, [ServerReceive, Lose(ToClient, 0), ClientReceive]);
    RefusedAfterLoss(u, Run(u, start, first));
  }

  lemma RefusedAfterLoss(u: Setup, s: State)
    requires s.Valid(u) && s.client == C.START && s.waiting && ServerAt(u, s.server, 1, false) && !s.server.crashed
    requires s.toServer == [Intact(u.job.Msg(0))] && s.toClient == [Intact(Ack(u.job, 0))]
    ensures Run(u, s, [ServerReceive, Lose(ToClient, 0), ClientReceive]).client.status == C.Refused
  {
    RunThree(u, s, ServerReceive, Lose(ToClient, 0), ClientReceive);
    ServerRereads(u, s.server, 1);
    DeliveredOne(ABORT, u.address);
    var s1 := Apply(u, s, ServerReceive);
    assert s1.toClient == [Intact(Ack(u.job, 0)), Intact(ABORT)];
    assert Apply(u, s1, Lose(ToClient, 0)).toClient == [Intact(ABORT)];
    JudgeOther(u.job, 0, false);
  }

  /** A live upload can be interrupted in every reachable state, so that the server sees the ABR and the client exits. */
  lemma AbortGetsThrough(u: Setup, s: State) returns (schedule: seq<Action>)
    requires Inv(u, s) && Live(s)
    ensures var e := Run(u, s, schedule);
            e.aborted && e.client.status == C.Exited && e.server.session.None? && !e.server.crashed
  {
    var down := |s.toClient|;
    var s1 := s.WithQueue(ToServer, s.toServer[|s.toServer|..]);
    var s2 := s1.WithQueue(ToClient, s.toClient[down..]);
    RunLosses(u, s, ToServer, |s.toServer|);
    RunLosses(u, s1, ToClient, down);
    var drain := Losses(ToServer, |s.toServer|) + Losses(ToClient, down);
    RunAppend(u, s, Losses(ToServer, |s.toServer|), Losses(ToClient, down));
    var s3 := Apply(u, s2, Interrupt);
    RunOne(u, s2, Interrupt);
    RunAppend(u, s, drain, [Interrupt]);
    RunAppend(u, s, drain + [Interrupt], [ClientSend, ServerReceive, ClientReceive]);
    AbortExchange(u, s3, |s.accepted|);
    schedule := drain + [Interrupt] + [ClientSend, ServerReceive, ClientReceive];
  }

  lemma AbortExchange(u: Setup, s: State, k: nat)
    requires s.Valid(u) && s.client.status == C.Aborting && !s.waiting && s.toServer == [] && s.toClient == []
    requires !s.server.crashed && ServerAt(u, s.server, k, s.aborted)
    ensures var e := Run(u, s, [ClientSend, ServerReceive, ClientReceive]);
            e.aborted && e.client.status == C.Exited && e.server.session.None? && !e.server.crashed
  {
    RunThree(u, s, ClientSend, ServerReceive, ClientReceive);
    var s1 := Apply(u, s, ClientSend);
    assert s1.toServer == [Intact(ABORT)];
    ServerAborts(u, s.server, k, s.aborted);
    DeliveredOne(ABORT.CreateAck(), u.address);
    var s2 := Apply(u, s1, ServerReceive);
    assert s2.toClient == [Intact(ABORT.CreateAck())];
    AckAnswers(ABORT, ABORT);
    AbortIsAbort();
  }

  lemma AbortIsAbort()
    ensures ABORT.IsAbr() && !ABORT.IsSyn() && ABORT.CreateAck().IsAckFor(ABORT)
  {
    assert 3 in ABORT.flags && 0 !in ABORT.flags && 1 !in ABORT.flags;
    AckAnswers(ABORT, ABORT);
  }
}
