/** The client's loops, over a socket whose every wait ends in a scripted event. */
module ClientProcess {
  import opened Bits
  import opened Flags
  import opened Messages
  import opened ClientModel

  /** How one exchange ended; Pending means that the script of events ran out while waiting. */
  datatype Exchange = Got(response: Received) | Threw | Pending

  datatype Ending = Acked | ExitFailure | Thrown | Waiting

  function StatusOf(e: Ending): Status {
    match e
    case Acked => Finished
    case ExitFailure => Refused
    case Thrown => GaveUp
    case Waiting => Sending
  }

  /** A run from `start` over `events` comes through the state c with `rest` to go and `out` sent so far. */
  ghost predicate Leads(job: Job, max: int, start: ClientState, events: seq<Event>, before: seq<Message>,
                        c: ClientState, rest: seq<Event>, out: seq<Message>)
    requires start.Valid(job) && c.Valid(job)
  {
    && RunClient(job, max, start, events) == RunClient(job, max, c, rest)
    && before + SentBy(job, max, start, events) == out + SentBy(job, max, c, rest)
  }

  /** The client has sent once more and has taken its next event. */
  lemma LeadsStep(job: Job, max: int, start: ClientState, events: seq<Event>, before: seq<Message>,
                  c: ClientState, rest: seq<Event>, out: seq<Message>)
    requires start.Valid(job) && c.Valid(job) && c.Active() && rest != []
    requires Leads(job, max, start, events, before, c, rest, out)
    ensures Leads(job, max, start, events, before, OnEvent(job, max, c, rest[0]), rest[1..], out + [c.Sends(job)])
  {
    var tail := SentBy(job, max, OnEvent(job, max, c, rest[0]), rest[1..]);
    assert out + ([c.Sends(job)] + tail) == out + [c.Sends(job)] + tail;
  }

  /** The client has sent once more and waits with nothing left to happen. */
  lemma LeadsToEnd(job: Job, max: int, start: ClientState, events: seq<Event>, before: seq<Message>,
                   c: ClientState, out: seq<Message>)
    requires start.Valid(job) && c.Valid(job) && c.Active()
    requires Leads(job, max, start, events, before, c, [], out)
    ensures Ends(job, max, start, events, before, c, out + [c.Sends(job)])
  {
    assert out + ([c.Sends(job)] + []) == out + [c.Sends(job)];
  }

  lemma LeadsOn(job: Job, max: int, start: ClientState, events: seq<Event>, before: seq<Message>,
                c: ClientState, rest: seq<Event>, out: seq<Message>,
                c': ClientState, rest': seq<Event>, out': seq<Message>)
    requires start.Valid(job) && c.Valid(job) && c'.Valid(job)
    requires Leads(job, max, start, events, before, c, rest, out)
    requires Leads(job, max, c, rest, out, c', rest', out')
    ensures Leads(job, max, start, events, before, c', rest', out')
  {
  }

  /** The run is over, or waits with nothing left to happen: this is its state and all it sent. */
  ghost predicate Ends(job: Job, max: int, start: ClientState, events: seq<Event>, before: seq<Message>,
                       c: ClientState, out: seq<Message>)
    requires start.Valid(job)
  {
    RunClient(job, max, start, events) == c && before + SentBy(job, max, start, events) == out
  }

  lemma EndsOn(job: Job, max: int, start: ClientState, events: seq<Event>, before: seq<Message>,
               c: ClientState, rest: seq<Event>, out: seq<Message>, c': ClientState, out': seq<Message>)
    requires start.Valid(job) && c.Valid(job)
    requires Leads(job, max, start, events, before, c, rest, out)
    requires Ends(job, max, c, rest, out, c', out')
    ensures Ends(job, max, start, events, before, c', out')
  {
  }

  lemma {:induction false} InactiveEnds(job: Job, max: int, c: ClientState, rest: seq<Event>)
    requires c.Valid(job) && !c.Active()
    ensures RunClient(job, max, c, rest) == c && SentBy(job, max, c, rest) == []
    decreases |rest|
  {
    if rest != [] {
      InactiveEnds(job, max, c, rest[1..]);
    }
  }

  /** How far n reads of at most CHUNK bytes bring the reader. */
  function Offset(job: Job, n: nat): (offset: nat)
    ensures offset <= |job.content|
  {
    if CHUNK * n < |job.content| then CHUNK * n else |job.content|
  }

  /** A read of as many bytes as are left, at most CHUNK, gives the next chunk, or nothing after the last. */
  lemma ReadsChunk(job: Job, n: nat, count: nat)
    requires n <= job.Chunks()
    requires count == if |job.content| - Offset(job, n) < CHUNK then |job.content| - Offset(job, n) else CHUNK
    ensures count == 0 <==> n == job.Chunks()
    ensures n < job.Chunks() ==>
      job.content[Offset(job, n)..Offset(job, n) + count] == job.Chunk(n) && Offset(job, n) + count == Offset(job, n + 1)
  {
  }

  lemma ParityFlips(n: nat)
    ensures ((n + 1) % 2 == 1) == !(n % 2 == 1)
  {
  }

  lemma SendsChunk(job: Job, c: ClientState)
    requires c.Valid(job) && c.status == Sending && 1 <= c.pos <= job.Chunks() && c.currSQN == (c.pos % 2 == 1)
    ensures c.Sends(job) == New(NONE, job.Chunk(c.pos - 1), c.currSQN)
  {
  }

  class Client {
    const maxTimeouts: int
    var currSQN: bool
    var nRetransmissions: nat
    var inbox: seq<Event>
    var outbox: seq<Message>

    constructor (maxTimeouts: int, inbox: seq<Event>)
      ensures this.maxTimeouts == maxTimeouts && this.inbox == inbox && outbox == []
      ensures Matches(START)
    {
      this.maxTimeouts := maxTimeouts;
      this.inbox := inbox;
      outbox := [];
      currSQN := SQN_START_VAL;
      nRetransmissions := 0;
    }

    ghost predicate Matches(c: ClientState)
      reads this
    {
      c.currSQN == currSQN && c.retransmissions == nRetransmissions
    }

    /** send_and_receive_response: retransmit on every timeout until a response, or the budget is spent. */
    method SendAndReceiveResponse(m: Message, budget: int, ghost job: Job, ghost c: ClientState)
      returns (x: Exchange, ghost c': ClientState)
      requires c.Valid(job) && c.Active() && c.retries == 0 && Matches(c)
      requires m == c.Sends(job) && budget == Budget(maxTimeouts, c.status)
      modifies this`nRetransmissions, this`inbox, this`outbox
      ensures c'.Valid(job) && Matches(c')
      ensures c' == c.(retries := c'.retries, retransmissions := c'.retransmissions, status := c'.status)
      ensures x.Got? ==>
        && c'.Active() && c'.status == c.status && |inbox| < |old(inbox)|
        && Leads(job, maxTimeouts, c, old(inbox), old(outbox),
                 OnEvent(job, maxTimeouts, c', Response(x.response)), inbox, outbox)
      ensures x.Threw? ==>
        && c'.status == (if c.status == Sending then GaveUp else Exited)
        && Leads(job, maxTimeouts, c, old(inbox), old(outbox), c', inbox, outbox)
        && 0 <= budget && |outbox| == |old(outbox)| + budget + 1
      ensures x.Pending? ==>
        && inbox == [] && c'.status == c.status
        && Ends(job, maxTimeouts, c, old(inbox), old(outbox), c', outbox)
    {
      var retryCount := 0;
      c' := c;
      while true
        invariant c'.Valid(job) && Matches(c') && c'.status == c.status
        invariant c' == c.(retries := c'.retries, retransmissions := c'.retransmissions)
        invariant budget >= 0 ==> c'.retries == retryCount <= budget && |outbox| == |old(outbox)| + retryCount
        invariant budget < 0 ==> c'.retries == 0
        invariant |inbox| <= |old(inbox)|
        invariant Leads(job, maxTimeouts, c, old(inbox), old(outbox), c', inbox, outbox)
        decreases |inbox|
      {
        ghost var outboxWas := outbox;
        outbox := outbox + [m];
        if inbox == [] {
          LeadsToEnd(job, maxTimeouts, c, old(inbox), old(outbox), c', outboxWas);
          return Pending, c';
        }
        LeadsStep(job, maxTimeouts, c, old(inbox), old(outbox), c', inbox, outboxWas);
        var event := inbox[0];
        inbox := inbox[1..];
        if event.Response? {
          return Got(event.received), c';
        }
        c' := OnEvent(job, maxTimeouts, c', event);
        if budget >= 0 {
          if retryCount < budget {
            retryCount := retryCount + 1;
          } else {
            return Threw, c';
          }
        }
        nRetransmissions := (nRetransmissions + 1) % UINT;
      }
    }

    /** send_datagram_and_wait_for_ACK. */
    method SendDatagramAndWaitForACK(m: Message, ghost job: Job, ghost c: ClientState)
      returns (ending: Ending, ghost c': ClientState)
      requires c.Valid(job) && c.status == Sending && c.retries == 0 && Matches(c) && m == c.Sends(job)
      modifies this
      ensures c'.Valid(job) && Matches(c')
      ensures ending == Acked ==>
        && c'.pos == c.pos + 1 && c'.retries == 0 && c'.currSQN == !c.currSQN
        && c'.status == (if c.pos + 1 == job.Length() then Finished else Sending)
        && Leads(job, maxTimeouts, c, old(inbox), old(outbox), c', inbox, outbox)
      ensures ending != Acked ==>
        && c'.status == StatusOf(ending)
        && Ends(job, maxTimeouts, c, old(inbox), old(outbox), c', outbox)
    {
      c' := c;
      while true
        invariant c'.Valid(job) && Matches(c') && c'.status == Sending && c'.retries == 0
        invariant c'.pos == c.pos && c'.currSQN == c.currSQN
        invariant Leads(job, maxTimeouts, c, old(inbox), old(outbox), c', inbox, outbox)
        decreases |inbox|
      {
        ghost var was, inboxWas, outboxWas := c', inbox, outbox;
        var x;
        x, c' := SendAndReceiveResponse(m, maxTimeouts, job, c');
        if x.Pending? {
          return Waiting, c';
        }
        if x.Threw? {
          InactiveEnds(job, maxTimeouts, c', inbox);
          return Thrown, c';
        }
        c' := OnResponse(job, c', x.response);
        LeadsOn(job, maxTimeouts, c, old(inbox), old(outbox), was, inboxWas, outboxWas, c', inbox, outbox);
        if x.response.Corrupt? {
          continue;
        }
        var response := x.response.message;
        if Has(response.flags, ABR) && !response.GetSqn() {
          InactiveEnds(job, maxTimeouts, c', inbox);
          return ExitFailure, c';
        }
        if response.GetSqn() != currSQN {
          continue;
        }
        if response.IsAckFor(m) {
          currSQN := !currSQN;
          return Acked, c';
        }
      }
    }

    /** ifstream::read into the reused buffer: what is left of the file, at most a buffer full. */
    static method Read(file: seq<Byte>, offset: nat, buffer: array<Byte>) returns (count: nat)
      requires offset <= |file|
      modifies buffer
      ensures count == if |file| - offset < buffer.Length then |file| - offset else buffer.Length
      ensures buffer[..count] == file[offset..offset + count]
      ensures buffer[count..] == old(buffer[count..])
    {
      count := if |file| - offset < buffer.Length then |file| - offset else buffer.Length;
      for i := 0 to count
        invariant buffer[..i] == file[offset..offset + i]
        invariant buffer[count..] == old(buffer[count..])
      {
        buffer[i] := file[offset + i];
      }
    }

    /** One datagram of the read loop. */
    method SendChunk(data: seq<Byte>, ghost job: Job, ghost c: ClientState) returns (ending: Ending, ghost c': ClientState)
      requires c.Valid(job) && c.status == Sending && c.retries == 0 && Matches(c)
      requires 1 <= c.pos <= job.Chunks() && c.currSQN == (c.pos % 2 == 1) && data == job.Chunk(c.pos - 1)
      modifies this
      ensures c'.Valid(job) && Matches(c')
      ensures ending == Acked ==>
        && c'.pos == c.pos + 1 && c'.currSQN == (c'.pos % 2 == 1) && c'.status == Sending && c'.retries == 0
        && Leads(job, maxTimeouts, c, old(inbox), old(outbox), c', inbox, outbox)
      ensures ending != Acked ==>
        && c'.status == StatusOf(ending)
        && Ends(job, maxTimeouts, c, old(inbox), old(outbox), c', outbox)
    {
      SendsChunk(job, c);
      ParityFlips(c.pos);
      ending, c' := SendDatagramAndWaitForACK(New(NONE, data, currSQN), job, c);
    }

    /** The read loop in main: one datagram per read that gives data, from the reused buffer. */
    method SendChunks(job: Job, ghost c: ClientState) returns (ending: Ending, ghost c': ClientState)
      requires c.Valid(job) && c.pos == 1 && c.currSQN && c.status == Sending && c.retries == 0 && Matches(c)
      modifies this
      ensures c'.Valid(job) && Matches(c')
      ensures ending == Acked ==>
        && c'.pos == job.Chunks() + 1 && c'.currSQN == (c'.pos % 2 == 1) && c'.status == Sending && c'.retries == 0
        && Leads(job, maxTimeouts, c, old(inbox), old(outbox), c', inbox, outbox)
      ensures ending != Acked ==>
        && c'.status == StatusOf(ending)
        && Ends(job, maxTimeouts, c, old(inbox), old(outbox), c', outbox)
    {
      var buffer := new Byte[CHUNK](_ => Zero(8));
      var offset := 0;
      ghost var nRead := 0;
      c' := c;
      while true
        invariant c'.Valid(job) && Matches(c') && c'.status == Sending && c'.retries == 0
        invariant c'.pos == nRead + 1 && nRead <= job.Chunks() && c'.currSQN == (c'.pos % 2 == 1)
        invariant offset == Offset(job, nRead)
        invariant Leads(job, maxTimeouts, c, old(inbox), old(outbox), c', inbox, outbox)
        decreases |job.content| - offset
      {
        var bytesRead := Read(job.content, offset, buffer);
        ReadsChunk(job, nRead, bytesRead);
        if bytesRead <= 0 {
          return Acked, c';
        }
        ghost var was, inboxWas, outboxWas := c', inbox, outbox;
        ending, c' := SendChunk(buffer[..bytesRead], job, c');
        if ending != Acked {
          EndsOn(job, maxTimeouts, c, old(inbox), old(outbox), was, inboxWas, outboxWas, c', outbox);
          return;
        }
        LeadsOn(job, maxTimeouts, c, old(inbox), old(outbox), was, inboxWas, outboxWas, c', inbox, outbox);
        offset := offset + bytesRead;
        nRead := nRead + 1;
      }
    }

    /** The upload in main: SYN, the chunks, FIN. */
    method Upload(job: Job) returns (ending: Ending, ghost c: ClientState)
      requires Matches(START) && outbox == []
      modifies this
      ensures c.Valid(job) && c.status == StatusOf(ending)
      ensures Ends(job, maxTimeouts, START, old(inbox), [], c, outbox)
    {
      c := START;
      ending, c := SendDatagramAndWaitForACK(New(SYN, job.name, currSQN), job, c);
      if ending != Acked {
        return;
      }
      ghost var was, inboxWas, outboxWas := c, inbox, outbox;
      ending, c := SendChunks(job, c);
      if ending != Acked {
        return;
      }
      LeadsOn(job, maxTimeouts, START, old(inbox), [], was, inboxWas, outboxWas, c, inbox, outbox);
      was, inboxWas, outboxWas := c, inbox, outbox;
      ending, c := SendDatagramAndWaitForACK(New(FIN, [], currSQN), job, c);
      if ending == Acked {
        LeadsOn(job, maxTimeouts, START, old(inbox), [], was, inboxWas, outboxWas, c, inbox, outbox);
        InactiveEnds(job, maxTimeouts, c, inbox);
      }
    }

    /** The signal handler: ABR until it is acknowledged or four sends in a row stay unanswered. */
    method SignalHandler(ghost job: Job, ghost c: ClientState) returns (ghost c': ClientState)
      requires c.Valid(job) && c.status == Aborting && c.retries == 0 && Matches(c)
      modifies this
      ensures c'.Valid(job) && Matches(c')
      ensures c'.status == Exited || (c'.status == Aborting && inbox == [])
      ensures Ends(job, maxTimeouts, c, old(inbox), old(outbox), c', outbox)
    {
      c' := c;
      while true
        invariant c'.Valid(job) && Matches(c') && c'.status == Aborting && c'.retries == 0
        invariant Leads(job, maxTimeouts, c, old(inbox), old(outbox), c', inbox, outbox)
        decreases |inbox|
      {
        ghost var was, inboxWas, outboxWas := c', inbox, outbox;
        var x;
        x, c' := SendAndReceiveResponse(ABORT, ABORT_RETRIES, job, c');
        if x.Pending? {
          return;
        }
        if x.Threw? {
          InactiveEnds(job, maxTimeouts, c', inbox);
          return;
        }
        c' := OnEvent(job, maxTimeouts, c', Response(x.response));
        LeadsOn(job, maxTimeouts, c, old(inbox), old(outbox), was, inboxWas, outboxWas, c', inbox, outbox);
        if x.response.Intact? && x.response.message.IsAckFor(ABORT) {
          InactiveEnds(job, maxTimeouts, c', inbox);
          return;
        }
      }
    }
  }
}
