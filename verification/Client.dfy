/** The upload client: what it sends, how it judges a response, and its run over the outcomes of its waits. */
module ClientModel {
  import opened Bits
  import opened Flags
  import opened Messages

  const CHUNK: nat := 504
  const UINT: nat := 0x1_0000_0000

  datatype Job = Job(name: seq<Byte>, content: seq<Byte>) {
    /** How many reads of at most CHUNK bytes give data. */
    function Chunks(): nat {
      (|content| + CHUNK - 1) / CHUNK
    }

    /** SYN, the chunks, FIN. */
    function Length(): (n: nat)
      ensures n >= 2
    {
      Chunks() + 2
    }

    /** What the k-th read returns. */
    function Chunk(k: nat): (c: seq<Byte>)
      requires k < Chunks()
      ensures 0 < |c| <= CHUNK && (k + 1 < Chunks() ==> |c| == CHUNK)
    {
      content[CHUNK * k..if CHUNK * (k + 1) < |content| then CHUNK * (k + 1) else |content|]
    }

    /** The j-th message of the upload. */
    function Msg(j: nat): Message
      requires j < Length()
    {
      if j == 0 then New(SYN, name, false)
      else if j <= Chunks() then New(NONE, Chunk(j - 1), j % 2 == 1)
      else New(FIN, [], j % 2 == 1)
    }

    function Joined(k: nat): (bytes: seq<Byte>)
      requires k <= Chunks()
    {
      if k == 0 then [] else Joined(k - 1) + Chunk(k - 1)
    }
  }

  /** The chunks read so far, joined, are a prefix of the file. */
  lemma {:induction false} JoinedIsPrefix(job: Job, k: nat)
    requires k <= job.Chunks()
    ensures job.Joined(k) == job.content[..if CHUNK * k < |job.content| then CHUNK * k else |job.content|]
  {
    if k > 0 {
      JoinedIsPrefix(job, k - 1);
    }
  }

  /** All of them, joined, are the whole file, for every length. */
  lemma JoinedIsWhole(job: Job)
    ensures job.Joined(job.Chunks()) == job.content
  {
    JoinedIsPrefix(job, job.Chunks());
    assert job.content[..|job.content|] == job.content;
  }

  // ----- Judging a response

  datatype Verdict = Accepted | Again | Denied

  /** The body of the loop in send_datagram_and_wait_for_ACK. */
  function Judge(sent: Message, currSQN: bool, response: Received): Verdict {
    match response
    case Corrupt => Again
    case Intact(m) =>
      if Has(m.flags, ABR) && !m.GetSqn() then Denied
      else if m.GetSqn() != currSQN then Again
      else if m.IsAckFor(sent) then Accepted
      else Again
  }

  // ----- The client as a state machine over the outcomes of its waits

  datatype Event = Timeout | Response(received: Received)

  datatype Status = Sending | Finished | Refused | GaveUp | Aborting | Exited

  datatype ClientState = ClientState(pos: nat, currSQN: bool, retries: nat, retransmissions: nat, status: Status) {
    /** It has just sent a datagram and waits. */
    predicate Active() {
      status == Sending || status == Aborting
    }

    ghost predicate Valid(job: Job) {
      pos <= job.Length() && (status == Sending ==> pos < job.Length())
    }

    function Sends(job: Job): Message
      requires Valid(job) && Active()
    {
      if status == Sending then job.Msg(pos) else ABORT
    }
  }

  const START := ClientState(0, SQN_START_VAL, 0, 0, Sending)

  /** The timeouts the signal handler allows in a row. */
  const ABORT_RETRIES: nat := 3

  function Budget(maxTimeouts: int, status: Status): int {
    if status == Aborting then ABORT_RETRIES else maxTimeouts
  }

  function OnEvent(job: Job, maxTimeouts: int, c: ClientState, e: Event): (c': ClientState)
    requires c.Valid(job)
    ensures c'.Valid(job)
  {
    if !c.Active() then c
    else
      match e
      case Timeout =>
        var budget := Budget(maxTimeouts, c.status);
        if budget < 0 then c.(retransmissions := (c.retransmissions + 1) % UINT)
        else if c.retries < budget then
          c.(retries := c.retries + 1, retransmissions := (c.retransmissions + 1) % UINT)
        else c.(status := if c.status == Sending then GaveUp else Exited)
      case Response(r) =>
        if c.status == Sending then OnResponse(job, c, r)
        else if r.Intact? && r.message.IsAckFor(ABORT) then c.(retries := 0, status := Exited)
        else c.(retries := 0)
  }

  function OnResponse(job: Job, c: ClientState, r: Received): (c': ClientState)
    requires c.Valid(job) && c.status == Sending
    ensures c'.Valid(job)
  {
    match Judge(job.Msg(c.pos), c.currSQN, r)
    case Again => c.(retries := 0)
    case Denied => c.(retries := 0, status := Refused)
    case Accepted =>
      c.(pos := c.pos + 1, currSQN := !c.currSQN, retries := 0,
         status := if c.pos + 1 == job.Length() then Finished else Sending)
  }

  /** The signal handler takes over. */
  function OnInterrupt(c: ClientState): ClientState {
    if c.status == Sending then c.(status := Aborting, retries := 0) else c
  }

  function RunClient(job: Job, maxTimeouts: int, c: ClientState, events: seq<Event>): (c': ClientState)
    requires c.Valid(job)
    ensures c'.Valid(job)
    decreases |events|
  {
    if events == [] then c else RunClient(job, maxTimeouts, OnEvent(job, maxTimeouts, c, events[0]), events[1..])
  }

  /** Everything the client sends: one datagram on entering each wait. */
  function SentBy(job: Job, maxTimeouts: int, c: ClientState, events: seq<Event>): (sent: seq<Message>)
    requires c.Valid(job)
    decreases |events|
  {
    if !c.Active() then []
    else [c.Sends(job)] +
         if events == [] then [] else SentBy(job, maxTimeouts, OnEvent(job, maxTimeouts, c, events[0]), events[1..])
  }

  lemma {:induction false} RunClientAppend(job: Job, maxTimeouts: int, c: ClientState, a: seq<Event>, b: seq<Event>)
    requires c.Valid(job)
    ensures RunClient(job, maxTimeouts, c, a + b)
         == RunClient(job, maxTimeouts, RunClient(job, maxTimeouts, c, a), b)
    decreases |a|
  {
    if a == [] {
      assert a + b == b;
    } else {
      assert (a + b)[1..] == a[1..] + b;
      RunClientAppend(job, maxTimeouts, OnEvent(job, maxTimeouts, c, a[0]), a[1..], b);
    }
  }

  // ----- Conservation of traffic

  function Timeouts(events: seq<Event>): nat {
    if events == [] then 0 else (if events[0].Timeout? then 1 else 0) + Timeouts(events[1..])
  }

  /** Every event is consumed: the client is still waiting before each of them. */
  ghost predicate AllConsumed(job: Job, maxTimeouts: int, c: ClientState, events: seq<Event>)
    requires c.Valid(job)
    decreases |events|
  {
    events != [] ==> c.Active() && AllConsumed(job, maxTimeouts, OnEvent(job, maxTimeouts, c, events[0]), events[1..])
  }

  /** The run ended by an exhausted budget, which the source reports by an exception. */
  predicate Threw(status: Status, events: seq<Event>) {
    (status == GaveUp || status == Exited) && events != [] && events[|events| - 1].Timeout?
  }

  /** Datagrams sent = responses received + timeouts, plus the one still waiting. */
  lemma {:induction false} SendsConserved(job: Job, maxTimeouts: int, c: ClientState, events: seq<Event>)
    requires c.Valid(job) && c.Active() && AllConsumed(job, maxTimeouts, c, events)
    ensures |SentBy(job, maxTimeouts, c, events)|
         == |events| + if RunClient(job, maxTimeouts, c, events).Active() then 1 else 0
    decreases |events|
  {
    if events != [] {
      var d := OnEvent(job, maxTimeouts, c, events[0]);
      if d.Active() {
        SendsConserved(job, maxTimeouts, d, events[1..]);
      } else {
        assert events[1..] == [];
      }
    }
  }

  /** The retransmission counter counts the timeouts, except one that threw. */
  lemma {:induction false} RetransmissionsAreTimeouts(job: Job, maxTimeouts: int, c: ClientState, events: seq<Event>)
    requires c.Valid(job) && c.Active() && c.retransmissions < UINT && AllConsumed(job, maxTimeouts, c, events)
    ensures var c' := RunClient(job, maxTimeouts, c, events);
            var thrown := if Threw(c'.status, events) then 1 else 0;
            thrown <= Timeouts(events) && c'.retransmissions == (c.retransmissions + (Timeouts(events) - thrown)) % UINT
    decreases |events|
  {
    if events != [] {
      var d := OnEvent(job, maxTimeouts, c, events[0]);
      var rest := events[1..];
      if d.Active() {
        RetransmissionsAreTimeouts(job, maxTimeouts, d, rest);
        var d' := RunClient(job, maxTimeouts, d, rest);
        if rest != [] {
          ThrewLater(d'.status, events);
        }
        AddBeforeModulo(c.retransmissions, Timeouts(rest) - if Threw(d'.status, rest) then 1 else 0);
      } else {
        assert rest == [];
      }
    }
  }

  lemma ThrewLater(status: Status, events: seq<Event>)
    requires |events| > 1
    ensures Threw(status, events) == Threw(status, events[1..])
  {
    assert events[1..][|events| - 2] == events[|events| - 1];
  }

  lemma AddBeforeModulo(a: nat, b: nat)
    ensures ((a + 1) % UINT + b) % UINT == (a + (b + 1)) % UINT
  {
  }

  function Responses(events: seq<Event>): (n: nat)
    ensures n + Timeouts(events) == |events|
  {
    if events == [] then 0 else (if events[0].Response? then 1 else 0) + Responses(events[1..])
  }

  /**
   Conservation over a whole client run that ended without throwing: datagrams sent = responses received
   + retransmissions, and the counter holds the retransmissions modulo 2^32.
   */
  lemma TrafficConserved(job: Job, maxTimeouts: int, events: seq<Event>)
    requires AllConsumed(job, maxTimeouts, START, events)
    requires var c := RunClient(job, maxTimeouts, START, events); !c.Active() && !Threw(c.status, events)
    ensures |SentBy(job, maxTimeouts, START, events)| >= Responses(events)
    ensures RunClient(job, maxTimeouts, START, events).retransmissions
         == (|SentBy(job, maxTimeouts, START, events)| - Responses(events)) % UINT
  {
    SendsConserved(job, maxTimeouts, START, events);
    RetransmissionsAreTimeouts(job, maxTimeouts, START, events);
  }

  /** `n` is the number of timeouts at the end of the events. */
  ghost predicate EndsInTimeouts(events: seq<Event>, n: nat) {
    && n <= |events|
    && (forall i | |events| - n <= i < |events| :: events[i].Timeout?)
    && (n < |events| ==> events[|events| - n - 1].Response?)
  }

  /**
   A budget of k >= 0 is exhausted exactly by k + 1 sends without an answer: the run gives up with its
   last event if and only if that event ends a row of k + 1 timeouts.
   */
  lemma {:induction false} GivesUpAfterBudget(job: Job, k: nat, events: seq<Event>, e: Event, n: nat)
    requires EndsInTimeouts(events + [e], n)
    requires RunClient(job, k, START, events).status == Sending
    ensures RunClient(job, k, START, events + [e]).status == GaveUp <==> n == k + 1
    ensures n <= k + 1
  {
    RunClientAppend(job, k, START, events, [e]);
    var c := RunClient(job, k, START, events);
    assert RunClient(job, k, c, [e]) == OnEvent(job, k, c, e) by {
      assert [e][1..] == [];
    }
    assert (events + [e])[|events|] == e;
    if e.Timeout? {
      assert EndsInTimeouts(events, n - 1) by {
        assert forall i | 0 <= i < |events| :: (events + [e])[i] == events[i];
      }
      RetriesCountTimeouts(job, k, events, n - 1);
    } else {
      assert n == 0;
    }
  }

  lemma {:induction false} RetriesCountTimeouts(job: Job, k: nat, events: seq<Event>, n: nat)
    requires EndsInTimeouts(events, n)
    requires RunClient(job, k, START, events).status == Sending
    ensures RunClient(job, k, START, events).retries == n <= k
    decreases |events|
  {
    if events != [] {
      var last := |events| - 1;
      var e := events[last];
      assert events == events[..last] + [e];
      RunClientAppend(job, k, START, events[..last], [e]);
      var c := RunClient(job, k, START, events[..last]);
      assert RunClient(job, k, c, [e]) == OnEvent(job, k, c, e) by {
        assert [e][1..] == [];
      }
      if e.Timeout? {
        RetriesCountTimeouts(job, k, events[..last], n - 1);
      }
    }
  }

  // ----- The signal handler

  predicate AcksAbort(e: Event) {
    e.Response? && e.received.Intact? && e.received.message.IsAckFor(ABORT)
  }

  ghost predicate AbortAcked(events: seq<Event>) {
    exists i | 0 <= i < |events| :: AcksAbort(events[i])
  }

  ghost predicate FourTimeouts(events: seq<Event>) {
    exists i | 0 <= i <= |events| - 4 :: FourAt(events, i)
  }

  predicate FourAt(events: seq<Event>, i: nat)
    requires i + 4 <= |events|
  {
    events[i].Timeout? && events[i + 1].Timeout? && events[i + 2].Timeout? && events[i + 3].Timeout?
  }

  predicate StartsWithTimeouts(events: seq<Event>, n: nat) {
    n <= |events| && forall i | 0 <= i < n :: events[i].Timeout?
  }

  /**
   The interrupted client exits if and only if its ABR is acknowledged or four sends in a row stay
   unanswered; no other response ends it.
   */
  lemma ExitsExactly(job: Job, maxTimeouts: int, c: ClientState, events: seq<Event>)
    requires c.Valid(job) && c.status == Aborting && c.retries == 0
    ensures RunClient(job, maxTimeouts, c, events).status == Exited <==> AbortAcked(events) || FourTimeouts(events)
  {
    ExitsFrom(job, maxTimeouts, c, events);
    if StartsWithTimeouts(events, 4) {
      assert FourAt(events, 0);
    }
  }

  lemma {:induction false} ExitsFrom(job: Job, maxTimeouts: int, c: ClientState, events: seq<Event>)
    requires c.Valid(job) && c.status == Aborting && c.retries <= 3
    ensures RunClient(job, maxTimeouts, c, events).status == Exited
      <==> AbortAcked(events) || FourTimeouts(events) || StartsWithTimeouts(events, 4 - c.retries)
    decreases |events|
  {
    if events != [] {
      var c' := OnEvent(job, maxTimeouts, c, events[0]);
      var rest := events[1..];
      WithFirst(events, 4 - c.retries);
      if c'.status == Aborting {
        ExitsFrom(job, maxTimeouts, c', rest);
        if StartsWithTimeouts(rest, 4) {
          assert FourAt(rest, 0);
        }
      } else {
        StaysExited(job, maxTimeouts, c', rest);
      }
    }
  }

  lemma {:induction false} StaysExited(job: Job, maxTimeouts: int, c: ClientState, events: seq<Event>)
    requires c.Valid(job) && !c.Active()
    ensures RunClient(job, maxTimeouts, c, events) == c
    decreases |events|
  {
    if events != [] {
      StaysExited(job, maxTimeouts, c, events[1..]);
    }
  }

  lemma WithFirst(events: seq<Event>, n: nat)
    requires events != [] && 1 <= n <= 4
    ensures AbortAcked(events) <==> AcksAbort(events[0]) || AbortAcked(events[1..])
    ensures FourTimeouts(events) <==> StartsWithTimeouts(events, 4) || FourTimeouts(events[1..])
    ensures StartsWithTimeouts(events, n) <==> events[0].Timeout? && StartsWithTimeouts(events[1..], n - 1)
  {
    var rest := events[1..];
    assert forall i | 0 <= i < |rest| :: rest[i] == events[i + 1];
    if AbortAcked(events) && !AcksAbort(events[0]) {
      var i :| 0 <= i < |events| && AcksAbort(events[i]);
      assert AcksAbort(rest[i - 1]);
    }
    if FourTimeouts(events) {
      var i :| 0 <= i <= |events| - 4 && FourAt(events, i);
      if i > 0 {
        assert FourAt(rest, i - 1);
      }
    }
    if FourTimeouts(rest) {
      var i :| 0 <= i <= |rest| - 4 && FourAt(rest, i);
      assert FourAt(events, i + 1);
    }
    if StartsWithTimeouts(events, 4) {
      assert FourAt(events, 0);
    }
    if StartsWithTimeouts(rest, n - 1) && events[0].Timeout? {
      assert forall i | 1 <= i < n :: events[i] == rest[i - 1];
    }
  }

  // ----- What a response means, by its flags

  /**
   The verdict on any response to a message with the current bit, by the flags that travel: a refusal is
   ABR without the sequence bit, acceptance is exactly the message's flags with ACK, all else repeats.
   */
  lemma JudgeByFlags(sent: Message, r: Received)
    requires 1 !in sent.flags && 3 !in sent.flags
    ensures Judge(sent, 0 in sent.flags, r) == Denied <==> r.Intact? && 3 in r.message.flags && 0 !in r.message.flags
    ensures Judge(sent, 0 in sent.flags, r) == Accepted <==> r.Intact? && r.message.flags == sent.flags + {1}
  {
    if r.Intact? {
      var f := r.message.flags;
      assert r.message.GetSqn() <==> 0 in f;
      assert Has(f, ABR) <==> 3 in f;
      assert Has(f, ACK) <==> 1 in f;
      assert sent.GetSqn() <==> 0 in sent.flags;
      assert 1 in f ==> (f - {1} == sent.flags <==> f == sent.flags + {1});
    }
  }

  /** Without a budget the client never gives up. */
  lemma {:induction false} UnlimitedNeverGivesUp(job: Job, maxTimeouts: int, c: ClientState, events: seq<Event>)
    requires c.Valid(job) && maxTimeouts < 0 && c.status != GaveUp
    ensures RunClient(job, maxTimeouts, c, events).status != GaveUp
    decreases |events|
  {
    if events != [] {
      UnlimitedNeverGivesUp(job, maxTimeouts, OnEvent(job, maxTimeouts, c, events[0]), events[1..]);
    }
  }
}
