/**
 rpcClient.h: the state the caller's thread and the flow thread share under the mutex, and the four critical
 sections that change it. callSync is Push followed by Collect, with waits in between.
 */
module RpcClient {
  import opened Bytes
  import opened ByteOrder
  import opened Codec
  import opened DataSignatureCpp
  import opened EncodeInPlace
  import opened Frames
  import opened RpcServer

  datatype Client = Client(canCall: bool, sendIsReady: bool, replIsReady: bool, procedureID: nat, args: seq<byte>,
                           callSuccessInt: nat, rets: seq<byte>, sectionLen: nat, sectionID: nat)

  const FRESH_CLIENT := Client(true, false, false, 0, [], 0, [], 4, 0)

  /** callSync hands its encoded arguments to the flow thread. */
  function Push(c: Client, rpId: nat, args: seq<byte>): Client {
    c.(args := args, procedureID := rpId, canCall := false, sendIsReady := true)
  }

  /** writeMessage, once sendIsReady: the request frame, or None for a body over the accepted size. */
  function BuildRequest(c: Client): (Option<seq<byte>>, Client) {
    if |c.args| > LENGTH_SPAN then (None, c)
    else (Some(Frame(c.procedureID, c.args)), c.(sendIsReady := false))
  }

  function ParseReply(c: Client, message: seq<byte>): (bool, Client) {
    if c.sectionID == 0 then
      if |message| != 4 then (false, c) else
        var c1 := c.(callSuccessInt := HeaderId(message), sectionLen := HeaderLength(message));
        if c1.sectionLen > 0 then (true, c1.(sectionID := 1))
        else (true, c1.(rets := [], replIsReady := true, sectionID := 0, sectionLen := 4))
    else if c.sectionID == 1 then (true, c.(rets := message, replIsReady := true, sectionID := 0, sectionLen := 4))
    else (false, c)
  }

  /** callSync, once replIsReady, takes the reply and frees the client for the next call. */
  function Collect(c: Client): Client {
    c.(replIsReady := false, canCall := true)
  }

  class RpcClient {
    const conv: Converter
    const host: Host
    var remoteProcedures: seq<Procedure>
    var remoteProceduresMap: map<string, nat>
    var canCall: bool
    var sendIsReady: bool
    var replIsReady: bool
    var procedureID: nat
    const args: ByteVector
    var callSuccessInt: nat
    const rets: ByteVector
    var sectionLen: nat
    var sectionID: nat

    constructor (conv: Converter, host: Host)
      ensures this.conv == conv && remoteProcedures == [] && remoteProceduresMap == map[]
      ensures fresh(args) && fresh(rets) && args != rets && View() == FRESH_CLIENT
    {
      this.conv, this.host := conv, host;
      remoteProcedures, remoteProceduresMap := [], map[];
      canCall, sendIsReady, replIsReady := true, false, false;
      procedureID, callSuccessInt := 0, 0;
      sectionID, sectionLen := 0, 4;
      args := new ByteVector([]);
      rets := new ByteVector([]);
    }

    ghost function View(): Client
      reads this, args, rets
    {
      Client(canCall, sendIsReady, replIsReady, procedureID, args.data, callSuccessInt, rets.data, sectionLen, sectionID)
    }

    /** Positions number the procedures; a name finds the last procedure appended under it. */
    method AppendSignature(name: string, signature: Procedure)
      modifies this`remoteProcedures, this`remoteProceduresMap
      ensures remoteProcedures == old(remoteProcedures) + [signature]
      ensures remoteProceduresMap == old(remoteProceduresMap)[name := |old(remoteProcedures)|]
    {
      var id := |remoteProcedures|;
      remoteProcedures := remoteProcedures + [signature];
      remoteProceduresMap := remoteProceduresMap[name := id];
    }

    /** The critical section of callSync that starts a call. */
    method PushCall(rpId: nat, arguments: seq<Value>) returns (r: Status)
      requires args != rets && rpId < |remoteProcedures| && |arguments| == |remoteProcedures[rpId].args|
      modifies this`canCall, this`sendIsReady, this`procedureID, args
      ensures match EncodeFrom(conv, |old(args.data)|, remoteProcedures[rpId].args, arguments)
        case Ok(bytes) => r == Done && View() == Push(old(View()), rpId, bytes)
        case Err(f) => r == StatusOf(f) && View() == old(View()).(args := args.data)
    {
      var types := new DataSignature(remoteProcedures[rpId].args, conv, host);
      r := types.ToBinary(arguments, args);
      if r == Done {
        procedureID := rpId;
        canCall := false;
        sendIsReady := true;
      }
    }

    /** writeMessage after its wait. */
    method WriteMessage(message: ByteVector) returns (ok: bool)
      requires message != args && message != rets && sectionID == 0 && sendIsReady
      modifies this`sendIsReady, message
      ensures ok <==> BuildRequest(old(View())).0.Some?
      ensures View() == BuildRequest(old(View())).1 && (ok ==> message.data == BuildRequest(old(View())).0.value)
    {
      if |args.data| > 16777216 {
        return false;
      }
      message.Resize(4 + |args.data|);
      Uint32ToBytes(host, procedureID * 16777216 + |args.data|, message, 0, true);
      message.Store(4, args.data);
      assert message.data == message.data[..4] + message.data[4..];
      sendIsReady := false;
      ok := true;
    }

    method ParseMessage(message: seq<byte>) returns (ok: bool)
      requires |message| == sectionLen && AtSection(sectionID, sectionLen)
      modifies this`callSuccessInt, this`sectionLen, this`sectionID, this`replIsReady, rets
      requires args != rets
      ensures (ok, View()) == ParseReply(old(View()), message) && ok && AtSection(sectionID, sectionLen)
    {
      if sectionID == 0 {
        var mVal := BytesToUint32(host, message, true);
        callSuccessInt := mVal / 16777216;
        sectionLen := mVal % 16777216;
        if sectionLen > 0 {
          sectionID := 1;
        } else {
          rets.Resize(0);
          replIsReady := true;
          sectionID, sectionLen := 0, 4;
        }
      } else {
        rets.Resize(|message|);
        rets.Store(0, message);
        assert rets.data == rets.data[0..|message|];
        replIsReady := true;
        sectionID, sectionLen := 0, 4;
      }
      ok := true;
    }

    /** The critical section of callSync that ends a call. */
    method CollectReply(rpId: nat, results: ValueVector) returns (r: Status)
      requires rpId < |remoteProcedures| && args != rets
      modifies this`replIsReady, this`canCall, results
      ensures View() == Collect(old(View()))
      ensures |old(rets.data)| <= MAX_OFFSET ==>
        var d := Decode(Cpp, conv, remoteProcedures[rpId].rets, old(rets.data));
        && r == (match d.fault case None => Done case Some(f) => StatusOf(f))
        && (r == Done ==> results.items == d.values)
    {
      replIsReady := false;
      canCall := true;
      var types := new DataSignature(remoteProcedures[rpId].rets, conv, host);
      r := types.FromBinary(rets.data, results);
      assert |rets.data| <= MAX_OFFSET && r == Done ==> |results.items| == |types.types|;
    }
  }
}
