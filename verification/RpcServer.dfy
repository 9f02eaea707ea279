/** rpcServer.h: the request section machine and the dispatch to local procedures. */
module RpcServer {
  import opened Bytes
  import opened ByteOrder
  import opened Codec
  import opened DataSignatureCpp
  import opened EncodeInPlace
  import opened Frames
  import opened MessageManager

  datatype Procedure = Procedure(args: string, rets: string)

  /**
   The registered procedures, by position. `called` runs the user's code: it may change the world it acts on, and
   None stands for returning false.
   */
  datatype Service<!W(!new)> = Service(conv: Converter, procedures: seq<Procedure>,
                                 called: (W, nat, seq<Value>) -> (W, Option<seq<Value>>))
  {
    /**
     Results of the right number have an encoding that an int can count, and its length is not the one a header cannot
     say. Results of another number, or none, are the server's to refuse.
     */
    predicate Representable(id: nat, ret: Option<seq<Value>>)
      requires id < |procedures|
    {
      ret.Some? && |ret.value| == |procedures[id].rets| ==>
        var reply := Encode(Cpp, conv, procedures[id].rets, ret.value);
        reply.Ok? && |reply.value| <= MAX_OFFSET && |reply.value| != LENGTH_SPAN
    }

    ghost predicate ReturnsEncode() {
      forall w, id, args :: 0 <= id < |procedures| ==> Representable(id, called(w, id, args).1)
    }
  }

  datatype Server<W(!new)> = Server(world: W, procedureID: nat, callSuccess: bool, results: seq<byte>,
                              sectionLen: nat, sectionID: nat)

  function FreshServer<W(!new)>(w: W): Server<W> {
    Server(w, 0xFFFF_FFFF, false, [], 4, 0)
  }

  /** The argument vector of a call: what was decoded, default values after the first fault. */
  function Arguments(conv: Converter, types: string, message: seq<byte>): (r: seq<Value>)
    ensures |r| == |types|
    ensures var vals := Decode(Cpp, conv, types, message).values;
      forall k :: 0 <= k < |r| ==> r[k] == if k < |vals| then vals[k] else Int(0)
  {
    var d := Decode(Cpp, conv, types, message);
    d.values + ResizedValues([], |types|)[|d.values|..]
  }

  /**
   A request is dispatched. The encoder's answer is ignored, so a refused encoding of the results is sent as far as it
   got: `leftover` is what it left in the buffer. An exception, or a copy that overruns the buffer, is where it ends.
   */
  function HandleCall<W(!new)>(svc: Service<W>, s: Server<W>, message: seq<byte>, leftover: seq<byte>): (bool, Server<W>) {
    if s.procedureID >= |svc.procedures| then (false, s) else
      var proc := svc.procedures[s.procedureID];
      if Decode(Cpp, svc.conv, proc.args, message).fault == Some(BadText) then (false, s) else
        var (w, ret) := svc.called(s.world, s.procedureID, Arguments(svc.conv, proc.args, message));
        match ret
        case None => (false, s.(world := w))
        case Some(vals) =>
          if |vals| != |proc.rets| then (false, s.(world := w, callSuccess := false, results := []))
          else
            match EncodeFrom(svc.conv, |s.results|, proc.rets, vals)
            case Ok(b) => (true, s.(world := w, callSuccess := true, results := b))
            case Err(f) => (StatusOf(f) == Refused, s.(world := w, callSuccess := true, results := leftover))
  }

  function ParseRequest<W(!new)>(svc: Service<W>, s: Server<W>, message: seq<byte>, leftover: seq<byte>): (bool, Server<W>) {
    if s.sectionID == 0 then
      if |message| != 4 then (false, s) else
        var s1 := s.(procedureID := HeaderId(message), sectionLen := HeaderLength(message));
        if s1.sectionLen > 0 then (true, s1.(sectionID := 1)) else
          var (ok, s2) := HandleCall(svc, s1, [], leftover);
          if ok then (true, s2.(sectionID := 0, sectionLen := 4)) else (false, s2)
    else if s.sectionID == 1 then
      var (ok, s1) := HandleCall(svc, s, message, leftover);
      if ok then (true, s1.(sectionID := 0, sectionLen := 4)) else (false, s1)
    else (false, s)
  }

  /** Where all results can be encoded nothing is ever left over. */
  lemma NothingLeftOver<W(!new)>(svc: Service<W>, s: Server<W>, message: seq<byte>, leftover: seq<byte>)
    requires svc.ReturnsEncode()
    ensures ParseRequest(svc, s, message, leftover) == ParseRequest(svc, s, message, [])
  {
    var id := if s.sectionID == 0 then HeaderId(message) else s.procedureID;
    var body := if s.sectionID == 0 then [] else message;
    if id < |svc.procedures| {
      var ret := svc.called(s.world, id, Arguments(svc.conv, svc.procedures[id].args, body)).1;
      assert svc.Representable(id, ret);
      if ret.Some? && |ret.value| == |svc.procedures[id].rets| {
        RoomHardlyMatters(svc.conv, Space(|s.results|, MAX_OFFSET), svc.procedures[id].rets, ret.value);
      }
    }
  }

  function WriteReply<W(!new)>(s: Server<W>): (bool, seq<byte>, Server<W>) {
    if s.sectionID != 0 then (true, [], s)
    else if |s.results| > LENGTH_SPAN then (false, [], s)
    else (true, Header(if s.callSuccess then 1 else 0, |s.results|) + s.results, s)
  }

  /** The parser of a server whose refused encodings leave these bytes behind. */
  function LeavingParser<W(!new)>(svc: Service<W>, leftover: seq<byte>): Parser<Server<W>> {
    Parser((s: Server<W>) => s.sectionLen, (s, m) => ParseRequest(svc, s, m, leftover), s => WriteReply(s))
  }

  /** The parser of a service whose results can all be encoded. */
  function ServerParser<W(!new)>(svc: Service<W>): Parser<Server<W>> {
    LeavingParser(svc, [])
  }

  /** Where a section machine stands between sections. */
  predicate AtSection(sectionID: nat, sectionLen: nat) {
    (sectionID == 0 && sectionLen == 4) || (sectionID == 1 && 0 < sectionLen < LENGTH_SPAN)
  }

  predicate ServerInv<W(!new)>(s: Server<W>) {
    AtSection(s.sectionID, s.sectionLen)
  }

  /** The section machine always announces 4 or the positive length of a body, so the manager never stops reading. */
  lemma ServerIsSteady<W(!new)>(svc: Service<W>)
    ensures Steady(ServerParser(svc), CppTooLarge, (s: Server<W>) => ServerInv(s))
  {
  }

  class RpcServer<W(!new)> {
    const conv: Converter
    const host: Host
    const called: (W, nat, seq<Value>) -> (W, Option<seq<Value>>)
    var localProcedures: seq<Procedure>
    var world: W
    var procedureID: nat
    var callSuccess: bool
    const callReturnsSerialized: ByteVector
    var sectionLen: nat
    var sectionID: nat

    constructor (conv: Converter, host: Host, called: (W, nat, seq<Value>) -> (W, Option<seq<Value>>), world: W)
      ensures this.conv == conv && this.called == called && localProcedures == [] && fresh(callReturnsSerialized)
      ensures View() == FreshServer(world)
    {
      this.conv, this.host, this.called, this.world := conv, host, called, world;
      localProcedures := [];
      procedureID, callSuccess := 0xFFFF_FFFF, false;
      callReturnsSerialized := new ByteVector([]);
      sectionID, sectionLen := 0, 4;
    }

    ghost function View(): Server<W>
      reads this, callReturnsSerialized
    {
      Server(world, procedureID, callSuccess, callReturnsSerialized.data, sectionLen, sectionID)
    }

    function Registered(): Service<W>
      reads this
    {
      Service(conv, localProcedures, called)
    }

    /** Procedures are numbered in the order they are appended. */
    method AppendSignature(signature: Procedure) returns (id: nat)
      modifies this`localProcedures
      ensures id == |old(localProcedures)| && localProcedures == old(localProcedures) + [signature]
    {
      id := |localProcedures|;
      localProcedures := localProcedures + [signature];
    }

    /** The arguments, default values after the first fault; only an exception keeps them from the procedure. */
    method DecodeArguments(types: string, message: seq<byte>) returns (threw: bool, args: seq<Value>)
      ensures |message| <= MAX_OFFSET ==> args == Arguments(conv, types, message)
      ensures |message| <= MAX_OFFSET ==> (threw <==> Decode(Cpp, conv, types, message).fault == Some(BadText))
    {
      var items := new ValueVector(ResizedValues([], |types|));
      var argTypes := new DataSignature(types, conv, host);
      var decoded := argTypes.FromBinary(message, items);
      assert ResizedValues(ResizedValues([], |types|), |types|) == ResizedValues([], |types|);
      threw, args := decoded == Threw, items.items;
    }

    method Call(message: seq<byte>) returns (ok: bool, ghost leftover: seq<byte>)
      modifies this`world, this`callSuccess, callReturnsSerialized
      ensures |message| <= MAX_OFFSET ==> (ok, View()) == HandleCall(Registered(), old(View()), message, leftover)
    {
      leftover := [];
      if procedureID >= |localProcedures| {
        return false, leftover;
      }
      var proc := localProcedures[procedureID];
      var threw, args := DecodeArguments(proc.args, message);
      if threw {
        return false, leftover;
      }
      var (w, rets) := called(world, procedureID, args);
      world := w;
      if rets.None? {
        return false, leftover;
      }
      if |rets.value| != |proc.rets| {
        callReturnsSerialized.Resize(0);
        callSuccess := false;
        return false, leftover;
      }
      callSuccess := true;
      var retTypes := new DataSignature(proc.rets, conv, host);
      var encoded := retTypes.ToBinary(rets.value, callReturnsSerialized);
      leftover := callReturnsSerialized.data;
      ok := encoded == Done || encoded == Refused;
    }

    method ParseMessage(message: seq<byte>) returns (ok: bool, ghost leftover: seq<byte>)
      requires |message| == sectionLen && AtSection(sectionID, sectionLen)
      modifies this`procedureID, this`world, this`callSuccess, this`sectionLen, this`sectionID, callReturnsSerialized
      ensures (ok, View()) == ParseRequest(Registered(), old(View()), message, leftover)
      ensures ok ==> AtSection(sectionID, sectionLen)
    {
      leftover := [];
      if sectionID == 0 {
        var mVal := BytesToUint32(host, message, true);
        procedureID := mVal / 16777216;
        sectionLen := mVal % 16777216;
        if sectionLen > 0 {
          sectionID := 1;
        } else {
          ok, leftover := Call([]);
          if !ok {
            return;
          }
          sectionID, sectionLen := 0, 4;
        }
      } else {
        ok, leftover := Call(message);
        if !ok {
          return;
        }
        sectionID, sectionLen := 0, 4;
      }
      ok := true;
    }

    method WriteMessage(retMessage: ByteVector) returns (ok: bool)
      requires retMessage != callReturnsSerialized
      modifies retMessage
      ensures ok == WriteReply(View()).0 && (ok ==> retMessage.data == WriteReply(View()).1)
    {
      if sectionID != 0 {
        retMessage.Resize(0);
        return true;
      }
      var results := callReturnsSerialized.data;
      if |results| > 16777216 {
        return false;
      }
      var callSuccessInt := 0;
      if callSuccess {
        callSuccessInt := 1;
      }
      retMessage.Resize(4 + |results|);
      Uint32ToBytes(host, callSuccessInt * 16777216 + |results|, retMessage, 0, true);
      retMessage.Store(4, results);
      assert retMessage.data == retMessage.data[..4] + retMessage.data[4..];
      ok := true;
    }
  }
}
