/** The server's objects, updated in place: the output folder, the file writer, the session, the receive loop. */
module ServerProcess {
  import opened Bits
  import opened Flags
  import opened Messages
  import opened ServerModel

  /** The output directory: the content of every file in it. */
  class Folder {
    var files: map<seq<Byte>, seq<Byte>>

    constructor (files: map<seq<Byte>, seq<Byte>>)
      ensures this.files == files
    {
      this.files := files;
    }

    /** One byte through the stream. */
    method Append(path: seq<Byte>, x: Byte)
      requires path in files
      modifies this
      ensures files == old(files)[path := old(files[path]) + [x]]
    {
      files := files[path := files[path] + [x]];
    }

    method Remove(path: seq<Byte>)
      modifies this
      ensures files == old(files) - {path}
    {
      files := files - {path};
    }
  }

  class FileWriter {
    const folder: Folder
    const path: seq<Byte>
    var isOpen: bool
    var bytesWritten: nat

    ghost predicate Valid()
      reads this, folder
    {
      isOpen && path in folder.files && bytesWritten == |folder.files[path]| % ULONG
    }

    /** Opens for appending: an absent file is created, a present one is kept. */
    constructor (folder: Folder, path: seq<Byte>)
      requires path in folder.files ==> folder.files[path] == []
      modifies folder
      ensures Valid() && this.folder == folder && this.path == path && bytesWritten == 0
      ensures folder.files == old(folder.files)[path := []]
    {
      this.folder := folder;
      this.path := path;
      isOpen := true;
      bytesWritten := 0;
      new;
      if path !in folder.files {
        folder.files := folder.files[path := []];
      }
    }

    method WriteBytes(data: seq<Byte>)
      requires Valid()
      modifies this, folder
      ensures Valid() && bytesWritten == (old(bytesWritten) + |data|) % ULONG
      ensures folder.files == old(folder.files)[path := old(folder.files[path]) + data]
    {
      ghost var before := folder.files[path];
      assert before + data[..0] == before;
      for i := 0 to |data|
        invariant isOpen && bytesWritten == old(bytesWritten)
        invariant folder.files == old(folder.files)[path := before + data[..i]]
      {
        assert before + data[..i] + [data[i]] == before + data[..i + 1];
        folder.Append(path, data[i]);
      }
      assert before + data[..|data|] == before + data;
      bytesWritten := (bytesWritten + |data|) % ULONG;
    }

    method Abort()
      requires Valid()
      modifies this, folder
      ensures !isOpen && bytesWritten == old(bytesWritten)
      ensures folder.files == if bytesWritten > 0 then old(folder.files) - {path} else old(folder.files)
    {
      isOpen := false;
      if bytesWritten > 0 {
        folder.Remove(path);
      }
    }
  }

  class ClientData {
    const fileWriter: FileWriter
    const address: Address
    var nDuplicates: nat
    var currentSQN: bool

    constructor (folder: Folder, path: seq<Byte>, address: Address)
      requires path in folder.files ==> folder.files[path] == []
      modifies folder
      ensures fresh(fileWriter) && fileWriter.Valid() && fileWriter.folder == folder && fileWriter.path == path
      ensures fileWriter.bytesWritten == 0
      ensures this.address == address && nDuplicates == 0 && currentSQN == SQN_START_VAL
      ensures folder.files == old(folder.files)[path := []]
    {
      fileWriter := new FileWriter(folder, path);
      this.address := address;
      nDuplicates := 0;
      currentSQN := SQN_START_VAL;
    }

    function View(): Session
      reads this, fileWriter
    {
      Session(address, fileWriter.path, currentSQN, fileWriter.bytesWritten, nDuplicates)
    }

    method IncrementSQN()
      modifies this`currentSQN
      ensures currentSQN == !old(currentSQN)
    {
      currentSQN := !currentSQN;
    }
  }

  class Server {
    const folder: Folder
    var currentClient: ClientData?
    var crashed: bool
    var sent: seq<Outgoing>

    ghost function Footprint(): set<object>
      reads this, currentClient
    {
      {this, folder} + if currentClient == null then {} else {currentClient, currentClient.fileWriter}
    }

    ghost predicate Valid()
      reads this, folder, currentClient, if currentClient == null then {} else {currentClient.fileWriter}
    {
      && (currentClient != null ==>
            !crashed && currentClient.fileWriter.folder == folder && currentClient.fileWriter.Valid())
    }

    ghost function State(): (s: ServerState)
      requires Valid()
      reads this, folder, currentClient, if currentClient == null then {} else {currentClient.fileWriter}
      ensures s.Valid()
    {
      ServerState(if currentClient == null then None else Some(currentClient.View()), folder.files, crashed)
    }

    constructor (folder: Folder)
      ensures Valid() && this.folder == folder && State() == ServerState(None, folder.files, false) && sent == []
    {
      this.folder := folder;
      currentClient := null;
      crashed := false;
      sent := [];
    }

    method Send(to: Address, message: Message)
      modifies this`sent
      ensures sent == old(sent) + [Outgoing(to, message)]
    {
      sent := sent + [Outgoing(to, message)];
    }

    method HandleSYN(m: Message, from: Address) returns (established: bool)
      requires Valid() && !crashed
      modifies this`currentClient, folder
      ensures Valid() && sent == old(sent) && established == old(currentClient == null)
      ensures !established ==> State() == old(State()) && Footprint() == old(Footprint())
      ensures established ==>
        && currentClient != null && fresh(currentClient) && fresh(currentClient.fileWriter)
        && currentClient.View() == Session(from, m.payload, SQN_START_VAL, 0, 0)
        && folder.files == old(folder.files)[m.payload := []]
    {
      if currentClient != null {
        return false;
      }
      if m.payload in folder.files {
        folder.Remove(m.payload);
      }
      currentClient := new ClientData(folder, m.payload, from);
      assert old(folder.files) - {m.payload} == old(folder.files) || m.payload in old(folder.files);
      assert (old(folder.files) - {m.payload})[m.payload := []] == old(folder.files)[m.payload := []];
      return true;
    }

    method HandleValidDatagram(m: Message)
      requires Valid() && currentClient != null
      modifies this`currentClient, folder, currentClient.fileWriter
      ensures Valid() && sent == old(sent) && crashed == old(crashed)
      ensures currentClient == null || currentClient == old(currentClient)
      ensures var before := old(currentClient.View());
              State() == TakeMessage(old(State()).(session := Some(before.(expected := !before.expected))), m)
    {
      if Has(m.flags, FIN) {
        currentClient := null;
      } else if ClearFlag(m.flags, SQN) == NONE {
        currentClient.fileWriter.WriteBytes(m.payload);
      }
    }

    /** One turn of the receive loop. */
    method Handle(r: Received, from: Address) returns (ghost accepted: bool)
      requires Valid()
      modifies Footprint()
      ensures Valid() && fresh(Footprint() - old(Footprint()))
      ensures var o := ServerStep(old(State()), r, from);
              State() == o.state && sent == old(sent) + o.sent && accepted == o.accepted
    {
      accepted := false;
      if crashed {
        return;
      }
      if r.Corrupt? {
        if currentClient == null {
          crashed := true;
        } else {
          Send(from, New(AGN, [], currentClient.currentSQN));
        }
        return;
      }
      var m := r.message;
      if m.IsSyn() {
        var established := HandleSYN(m, from);
        accepted := established;
        if established {
          Send(from, m.CreateAck());
          currentClient.IncrementSQN();
        } else {
          Send(from, ABORT);
        }
      } else if m.IsAbr() {
        Send(from, m.CreateAck());
        if currentClient != null && from.ip == currentClient.address.ip {
          currentClient.fileWriter.Abort();
          currentClient := null;
        }
      } else if currentClient == null || from.ip != currentClient.address.ip {
        Send(from, ABORT);
      } else if m.GetSqn() != currentClient.currentSQN {
        currentClient.nDuplicates := (currentClient.nDuplicates + 1) % UINT;
        Send(currentClient.address, m.CreateAck());
      } else {
        Send(currentClient.address, m.CreateAck());
        currentClient.IncrementSQN();
        HandleValidDatagram(m);
        accepted := true;
      }
    }

    /** The loop over everything received. */
    method Run(inputs: seq<Input>) returns (ghost accepted: seq<Message>)
      requires Valid()
      modifies Footprint()
      ensures Valid()
      ensures var run := RunServer(old(State()), inputs);
              State() == run.state && sent == old(sent) + run.sent && accepted == run.accepted
    {
      accepted := [];
      ghost var start, sentBefore := State(), sent;
      for i := 0 to |inputs|
        invariant Valid() && fresh(Footprint() - old(Footprint()))
        invariant Continues(start, inputs, sentBefore, State(), inputs[i..], sent, accepted)
      {
        ghost var s, sentNow := State(), sent;
        ghost var taken := Handle(inputs[i].received, inputs[i].from);
        assert inputs[i..][1..] == inputs[i + 1..];
        ContinuesStep(start, inputs, sentBefore, s, inputs[i..], sentNow, accepted);
        accepted := accepted + if taken then [inputs[i].received.message] else [];
      }
    }
  }

  /** A run that has come to s with the given output and acceptances will end as the whole run does. */
  ghost predicate Continues(start: ServerState, inputs: seq<Input>, sentBefore: seq<Outgoing>,
                            s: ServerState, rest: seq<Input>, sent: seq<Outgoing>, accepted: seq<Message>)
    requires start.Valid() && s.Valid()
  {
    var all, left := RunServer(start, inputs), RunServer(s, rest);
    && all.state == left.state
    && sentBefore + all.sent == sent + left.sent
    && all.accepted == accepted + left.accepted
  }

  lemma ContinuesStep(start: ServerState, inputs: seq<Input>, sentBefore: seq<Outgoing>,
                      s: ServerState, rest: seq<Input>, sent: seq<Outgoing>, accepted: seq<Message>)
    requires start.Valid() && s.Valid() && rest != []
    requires Continues(start, inputs, sentBefore, s, rest, sent, accepted)
    ensures var o := ServerStep(s, rest[0].received, rest[0].from);
            Continues(start, inputs, sentBefore, o.state, rest[1..], sent + o.sent,
                      accepted + if o.accepted then [rest[0].received.message] else [])
  {
    var o := ServerStep(s, rest[0].received, rest[0].from);
    var left := RunServer(o.state, rest[1..]);
    var one := if o.accepted then [rest[0].received.message] else [];
    assert sent + (o.sent + left.sent) == sent + o.sent + left.sent;
    assert accepted + (one + left.accepted) == accepted + one + left.accepted;
  }
}
