/**
 rpcmpleclient.go and rpcmplesignature.go: the Go client's procedure table, the critical sections of Call, and the
 section machine that hands replies to callbacks.
 */
module GoClient {
  import opened Bytes
  import opened Codec
  import GoSignature = DataSignatureGo
  import opened Frames
  import opened RpcServer

  datatype RemoteProcedure = RemoteProcedure(name: string, args: string, rets: string)

  /** A call of a ReplyCallback: whose, with which success flag and which values. */
  datatype Callback = Callback(proc: nat, success: bool, values: seq<Value>)

  datatype Client = Client(sectionLen: nat, sectionID: nat, lastRemoteProc: string, replySuccess: bool,
                           command: seq<byte>, callbacks: seq<Callback>)

  const FRESH_GO_CLIENT := Client(4, 0, "", false, [], [])

  /** The table is filled in order, so a name finds the last procedure that has it. */
  function Lookup(procs: seq<RemoteProcedure>, name: string): (r: Option<nat>)
    ensures r.Some? ==> r.value < |procs| && procs[r.value].name == name
    ensures r.Some? ==> forall k :: r.value < k < |procs| ==> procs[k].name != name
    ensures r.None? ==> forall k :: 0 <= k < |procs| ==> procs[k].name != name
  {
    if procs == [] then None
    else if procs[|procs| - 1].name == name then Some(|procs| - 1)
    else Lookup(procs[..|procs| - 1], name)
  }

  lemma LookupLast(procs: seq<RemoteProcedure>, p: RemoteProcedure, name: string)
    ensures Lookup(procs + [p], name) == if p.name == name then Some(|procs|) else Lookup(procs, name)
  {
    assert (procs + [p])[..|procs|] == procs;
  }

  ghost predicate TableIs(procs: seq<RemoteProcedure>, table: map<string, nat>) {
    forall name :: Lookup(procs, name) == if name in table then Some(table[name]) else None
  }

  lemma TableGrows(procs: seq<RemoteProcedure>, table: map<string, nat>, p: RemoteProcedure)
    requires TableIs(procs, table)
    ensures TableIs(procs + [p], table[p.name := |procs|])
  {
    forall name
      ensures Lookup(procs + [p], name) == if p.name == name then Some(|procs|) else Lookup(procs, name)
    {
      LookupLast(procs, p, name);
    }
  }

  predicate DistinctNames(procs: seq<RemoteProcedure>) {
    forall i, j :: 0 <= i < j < |procs| ==> procs[i].name != procs[j].name
  }

  /** A procedure's own name leads back to it, for every procedure, just if the names are distinct. */
  lemma NamesArePlaces(procs: seq<RemoteProcedure>)
    ensures DistinctNames(procs) <==> forall i :: 0 <= i < |procs| ==> Lookup(procs, procs[i].name) == Some(i)
  {
    if !DistinctNames(procs) {
      var i, j :| 0 <= i < j < |procs| && procs[i].name == procs[j].name;
      assert Lookup(procs, procs[i].name) == Lookup(procs, procs[j].name);
    }
  }

  /** The request Call prepares: procedure numbers are uint8. None where it gives up. */
  function Command(conv: Converter, procs: seq<RemoteProcedure>, i: nat, args: seq<Value>): Option<seq<byte>>
    requires i < |procs|
  {
    if |args| != |procs[i].args| then None else
      match Encode(Go, conv, procs[i].args, args)
      case Err(_) => None
      case Ok(b) => if |b| > LENGTH_SPAN then None else Some(Frame(i % 256, b))
  }

  /** Call under the lock. Where it gives up the buffer stays empty, and the lock is not released. */
  function Prepare(conv: Converter, procs: seq<RemoteProcedure>, c: Client, i: nat, args: seq<Value>): (bool, Client)
    requires i < |procs|
  {
    match Command(conv, procs, i, args)
    case None => (false, c.(command := []))
    case Some(frame) => (true, c.(command := frame, lastRemoteProc := procs[i].name))
  }

  /** A complete reply, decoded with the signature of the procedure called last. */
  function Deliver(conv: Converter, procs: seq<RemoteProcedure>, c: Client, body: seq<byte>): (bool, Client) {
    match Lookup(procs, c.lastRemoteProc)
    case None => (false, c)
    case Some(i) =>
      var d := Decode(Go, conv, procs[i].rets, body);
      if d.fault.Some? then (false, c)
      else (true, c.(callbacks := c.callbacks + [Callback(i, c.replySuccess, d.values)], sectionLen := 4, sectionID := 0))
  }

  function ParseReply(conv: Converter, procs: seq<RemoteProcedure>, c: Client, message: seq<byte>): (bool, Client) {
    if c.sectionID == 0 then
      if |message| != 4 then (false, c) else
        var c1 := c.(replySuccess := HeaderId(message) == 1, sectionLen := HeaderLength(message));
        if c1.sectionLen > 0 then (true, c1.(sectionID := 1)) else Deliver(conv, procs, c1, [])
    else if c.sectionID == 1 then Deliver(conv, procs, c, message)
    else (false, c)
  }

  lemma FrameWritten(id: nat, body: seq<byte>)
    ensures [] + ToLE(id * LENGTH_SPAN + |body|, 4) + body == Frame(id, body)
  {
    assert [] + ToLE(id * LENGTH_SPAN + |body|, 4) == Header(id, |body|);
  }

  class GoRpcClient {
    const conv: Converter
    /** The registered procedures; the source keeps them in the caller's slice. */
    const procs: seq<RemoteProcedure>
    var remoteProcedures: map<string, nat>
    var sectionLen: nat
    var sectionID: nat
    var lastRemoteProc: string
    const callbackValues: ValueVector
    var replySuccess: bool
    var locked: bool
    const command: ByteVector
    /** The calls made to the procedures' ReplyCallback. */
    var callbacks: seq<Callback>

    constructor (conv: Converter, procs: seq<RemoteProcedure>)
      ensures this.conv == conv && this.procs == procs && Valid() && View() == FRESH_GO_CLIENT && !locked
      ensures fresh(command) && fresh(callbackValues)
    {
      this.conv, this.procs := conv, procs;
      sectionLen, sectionID, lastRemoteProc, replySuccess, locked := 4, 0, "", false, false;
      callbacks := [];
      command := new ByteVector([]);
      callbackValues := new ValueVector(ResizedValues([], 50));
      remoteProcedures := map[];
      new;
      Register(procs);
    }

    /** The loop of NewRPCClient. */
    method Register(procs: seq<RemoteProcedure>)
      requires remoteProcedures == map[]
      modifies this`remoteProcedures
      ensures TableIs(procs, remoteProcedures)
    {
      var i := 0;
      while i < |procs|
        invariant 0 <= i <= |procs| && TableIs(procs[..i], remoteProcedures)
      {
        assert procs[..i + 1] == procs[..i] + [procs[i]];
        TableGrows(procs[..i], remoteProcedures, procs[i]);
        remoteProcedures := remoteProcedures[procs[i].name := i];
        i := i + 1;
      }
      assert procs[..i] == procs;
    }

    ghost predicate Valid()
      reads this`remoteProcedures
    {
      TableIs(procs, remoteProcedures)
    }

    ghost function View(): Client
      reads this, command
    {
      Client(sectionLen, sectionID, lastRemoteProc, replySuccess, command.data, callbacks)
    }

    /** Calling by name. */
    method Call(remoteProcedure: string, arguments: seq<Value>) returns (ok: bool)
      requires Valid() && !locked
      modifies this`lastRemoteProc, this`locked, command
      ensures match Lookup(procs, remoteProcedure)
        case None => !ok && !locked && View() == old(View())
        case Some(id) => (ok, View()) == Prepare(conv, procs, old(View()), id, arguments) && locked == !ok
    {
      if remoteProcedure !in remoteProcedures {
        return false;
      }
      assert Lookup(procs, remoteProcedure) == Some(remoteProcedures[remoteProcedure]);
      ok := FillCommand(remoteProcedures[remoteProcedure], arguments);
    }

    /** Call of one procedure, from taking the lock to releasing it or giving up. */
    method FillCommand(id: nat, arguments: seq<Value>) returns (ok: bool)
      requires id < |procs| && !locked
      modifies this`lastRemoteProc, this`locked, command
      ensures (ok, View()) == Prepare(conv, procs, old(View()), id, arguments) && locked == !ok
      ensures !ok ==> command.data == [] && lastRemoteProc == old(lastRemoteProc)
    {
      locked := true;
      command.Resize(0);
      assert command.data == [];
      var body := new ByteVector([]);
      ok := GoSignature.ToBinary(conv, procs[id].args, body, arguments);
      assert ok ==> body.data == Encode(Go, conv, procs[id].args, arguments).value;
      if !ok {
        return;
      }
      if |body.data| > 16777216 {
        return false;
      }
      WriteFrame(id % 256, body.data);
      lastRemoteProc := procs[id].name;
      locked := false;
    }

    method WriteFrame(id: nat, body: seq<byte>)
      requires command.data == []
      modifies command
      ensures command.data == Frame(id, body)
    {
      GoSignature.Write(command, ToLE(id * 16777216 + |body|, 4));
      GoSignature.Write(command, body);
      FrameWritten(id, body);
    }

    /** Nothing between two sections of a reply; otherwise, after its wait for a command and with the lock, the command. */
    method SendMessage(message: ByteVector) returns (ok: bool)
      requires (sectionID == 0 ==> !locked) && message != command
      modifies message
      ensures ok <==> sectionID != 0 || command.data != []
      ensures message.data == if sectionID == 0 && ok then old(message.data) + command.data else old(message.data)
    {
      if sectionID != 0 {
        return true;
      }
      if |command.data| == 0 {
        return false;
      }
      GoSignature.Write(message, command.data);
      ok := true;
    }

    method ParseMessage(message: seq<byte>) returns (ok: bool)
      requires Valid() && !locked && |message| == sectionLen && AtSection(sectionID, sectionLen)
      modifies this`sectionLen, this`sectionID, this`replySuccess, this`callbacks, callbackValues
      ensures (ok, View()) == ParseReply(conv, procs, old(View()), message)
      ensures ok ==> AtSection(sectionID, sectionLen)
    {
      if sectionID == 0 {
        var section1 := FromLE(message);
        replySuccess := false;
        if section1 / 16777216 == 1 {
          replySuccess := true;
        }
        sectionLen := section1 % 16777216;
        if sectionLen > 0 {
          sectionID := 1;
          ok := true;
        } else {
          ok := HandOver([]);
          callbackValues.items := if ok then [] else callbackValues.items;
        }
      } else {
        ok := HandOver(message);
      }
    }

    /** The part both branches share. */
    method HandOver(body: seq<byte>) returns (ok: bool)
      requires Valid()
      modifies this`sectionLen, this`sectionID, this`callbacks, callbackValues
      ensures (ok, View()) == Deliver(conv, procs, old(View()), body)
    {
      if lastRemoteProc !in remoteProcedures {
        assert Lookup(procs, lastRemoteProc).None?;
        return false;
      }
      var id := remoteProcedures[lastRemoteProc];
      assert Lookup(procs, lastRemoteProc) == Some(id);
      var mr := new GoSignature.Reader(body);
      ok := GoSignature.FromBinary(conv, procs[id].rets, mr, callbackValues);
      if !ok {
        return;
      }
      callbacks := callbacks + [Callback(id, replySuccess, callbackValues.items)];
      sectionLen, sectionID := 4, 0;
    }
  }
}
