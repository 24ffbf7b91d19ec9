/** The receiving side of a PTP transaction (lib/ptp/ptp.c): two nested loops over packets. */
module PtpReceiver {
  import opened Prelude
  import opened Words
  import opened Bus
  import opened PtpContainer

  const RESPONSE_BUFFER_LEN: nat := 2048
  const PARAMS_LEN: nat := 12

  /** Which of the caller's structures are not null. */
  datatype Wants = Wants(result: bool, params: bool)

  /**
    All the receive loops change. data is what has been collected into the response buffer,
    stream what that buffer held before; params holds the response parameters as bytes.
   */
  datatype State = State(inbox: seq<Reception>, buffer: seq<byte>, stream: seq<byte>, data: seq<byte>,
                         length: u32, code: u16, params: seq<byte>)

  datatype Final = Undefined | Done(state: State)

  predicate Shaped(s: State) {
    |s.buffer| == PACKET_MAX && |s.data| <= |s.stream| == RESPONSE_BUFFER_LEN
  }

  /** The reads of the container header go to the receive buffer, whatever the packet's size. */
  function Kind(buffer: seq<byte>): u16
    requires |buffer| == PACKET_MAX
  {
    Decode16(buffer, 4)
  }

  function LengthField(buffer: seq<byte>): u32
    requires |buffer| == PACKET_MAX
  {
    Decode32(buffer, 0)
  }

  function AfterPacket(s: State, p: Packet): (t: State)
    requires Shaped(s)
    ensures Shaped(t)
  {
    s.(inbox := Rest(s.inbox), buffer := Overlay(p, s.buffer))
  }

  /** The response buffer takes the first n bytes of the receive buffer. */
  function Stored(s: State, n: nat): (t: State)
    requires Shaped(s) && n <= PACKET_MAX && |s.data| + n <= RESPONSE_BUFFER_LEN
    ensures Shaped(t)
  {
    s.(data := s.data + s.buffer[..n])
  }

  /** The length reported is the one at the start of the response buffer. */
  function Recorded(s: State, wants: Wants): (t: State)
    requires Shaped(s)
    ensures Shaped(t)
  {
    if wants.result then s.(length := Decode32(Overlay(s.data, s.stream), 0)) else s
  }

  /**
    The inner loop, entered with n bytes in the receive buffer. What the source then does is
    undefined when the data buffer would overrun, or when a receive it does not check fails.
   */
  function Collect(s: State, n: nat, remaining: int, wants: Wants): (r: Final)
    requires Shaped(s) && n <= PACKET_MAX
    ensures r.Done? ==> Shaped(r.state) && |r.state.inbox| <= |s.inbox| && |r.state.params| == |s.params|
    ensures r.Done? ==> r.state.stream == s.stream
    decreases |s.inbox|
  {
    if |s.data| + n > RESPONSE_BUFFER_LEN then Undefined
    else
      var t := Stored(s, n);
      if remaining == n then Done(Recorded(t, wants))
      else match NextReception(s.inbox)
      case Failure => Undefined
      case Delivery(p) => Collect(AfterPacket(t, p), |p|, remaining - n, wants)
  }

  /** The outer loop: up to and including a response block. */
  function Receive(s: State, wants: Wants): (r: Final)
    requires Shaped(s) && (wants.params ==> |s.params| == PARAMS_LEN)
    ensures r.Done? ==> Shaped(r.state) && |r.state.params| == |s.params| && r.state.stream == s.stream
    decreases |s.inbox|
  {
    match NextReception(s.inbox)
    case Failure => Undefined
    case Delivery(p) =>
      var t := AfterPacket(s, p);
      if Kind(t.buffer) == DATA_BLOCK then
        match Collect(t, |p|, AsSigned(LengthField(t.buffer)), wants)
        case Undefined => Undefined
        case Done(u) => Receive(u, wants)
      else if Kind(t.buffer) == RESPONSE_BLOCK then Respond(t, wants)
      else Receive(t, wants)
  }

  /** The parameters structure has room for three words: a longer response would overrun it. */
  function Respond(s: State, wants: Wants): (r: Final)
    requires Shaped(s) && (wants.params ==> |s.params| == PARAMS_LEN)
    ensures r.Done? ==> Shaped(r.state) && |r.state.params| == |s.params| && r.state.stream == s.stream
  {
    var t := if wants.result then s.(code := Decode16(s.buffer, 6)) else s;
    if !wants.params then Done(t)
    else if HEADER_LEN <= LengthField(s.buffer) <= HEADER_LEN + PARAMS_LEN
    then Done(t.(params := Overlay(s.buffer[HEADER_LEN..LengthField(s.buffer)], s.params)))
    else Undefined
  }

  // ---------- The code ----------

  class Result {
    var length: u32
    var code: u16

    constructor (length: u32, code: u16)
      ensures this.length == length && this.code == code
    {
      this.length, this.code := length, code;
    }
  }

  /** The state s describes the objects, with the next chunk to go to offset in the stream array. */
  ghost predicate Describes(s: State, pipe: Pipe, buffer: array<byte>, stream: array<byte>, offset: nat,
                            res: Result?, rparams: array?<byte>)
    reads pipe, buffer, stream, res, rparams
  {
    && Shaped(s) && Separate(buffer, stream, rparams)
    && s.inbox == pipe.channel.inbox && s.buffer == buffer[..]
    && offset == |s.data| && Overlay(s.data, s.stream) == stream[..]
    && (res != null ==> s.length == res.length && s.code == res.code)
    && (rparams != null ==> s.params == rparams[..])
  }

  function WantsOf(res: Result?, rparams: array?<byte>): Wants {
    Wants(res != null, rparams != null)
  }

  ghost predicate Separate(buffer: array<byte>, stream: array<byte>, rparams: array?<byte>) {
    && buffer.Length == PACKET_MAX && stream.Length == RESPONSE_BUFFER_LEN && buffer != stream
    && (rparams != null ==> rparams.Length == PARAMS_LEN && rparams != buffer && rparams != stream)
  }

  /** One turn of the inner loop; the last one is not followed by a receive. */
  method CollectOne(pipe: Pipe, buffer: array<byte>, stream: array<byte>, offset: nat, n: nat, remaining: int,
                    res: Result?, rparams: array?<byte>, ghost s: State)
    returns (next: int, ghost t: State)
    requires Describes(s, pipe, buffer, stream, offset, res, rparams) && n <= PACKET_MAX
    requires Collect(s, n, remaining, WantsOf(res, rparams)).Done?
    modifies pipe, buffer, stream, if res == null then {} else {res}
    ensures Describes(t, pipe, buffer, stream, offset + n, res, rparams)
    ensures remaining == n ==> Collect(s, n, remaining, WantsOf(res, rparams)) == Done(t)
    ensures remaining != n ==>
              && 0 <= next <= PACKET_MAX && |t.inbox| < |s.inbox|
              && Collect(s, n, remaining, WantsOf(res, rparams))
                 == Collect(t, next, remaining - n, WantsOf(res, rparams))
    ensures pipe.channel == old(pipe.channel).(inbox := pipe.channel.inbox)
  {
    next := 0;
    OverlayTwice(s.data, s.buffer[..n], s.stream);
    CopyInto(stream, offset, buffer[..n]);
    t := Stored(s, n);
    if remaining == n {
      if res != null {
        res.length := Decode32(stream[..], 0);
      }
      t := Recorded(t, WantsOf(res, rparams));
    } else {
      t := AfterPacket(t, NextReception(s.inbox).bytes);
      next := pipe.Receive(buffer);
    }
  }

  method CollectData(pipe: Pipe, buffer: array<byte>, stream: array<byte>, start: nat, first: nat, length: int,
                     res: Result?, rparams: array?<byte>, ghost s: State)
    returns (offset: nat, ghost t: State)
    requires Describes(s, pipe, buffer, stream, start, res, rparams) && first <= PACKET_MAX
    requires Collect(s, first, length, WantsOf(res, rparams)).Done?
    modifies pipe, buffer, stream, if res == null then {} else {res}
    ensures Describes(t, pipe, buffer, stream, offset, res, rparams)
    ensures Collect(s, first, length, WantsOf(res, rparams)) == Done(t)
    ensures pipe.channel == old(pipe.channel).(inbox := pipe.channel.inbox)
  {
    var received, remaining := first, length;
    offset, t := start, s;
    while true
      invariant 0 <= received <= PACKET_MAX && Describes(t, pipe, buffer, stream, offset, res, rparams)
      invariant Collect(t, received, remaining, WantsOf(res, rparams))
             == Collect(s, first, length, WantsOf(res, rparams))
      invariant pipe.channel == old(pipe.channel).(inbox := pipe.channel.inbox)
      decreases |t.inbox|
    {
      var next;
      next, t := CollectOne(pipe, buffer, stream, offset, received, remaining, res, rparams, t);
      offset := offset + received;
      remaining := remaining - received;
      if remaining == 0 {
        break;
      }
      received := next;
    }
  }

  method RecordResponse(pipe: Pipe, buffer: array<byte>, stream: array<byte>, offset: nat,
                        res: Result?, rparams: array?<byte>, ghost s: State)
    returns (ghost t: State)
    requires Describes(s, pipe, buffer, stream, offset, res, rparams)
    requires Respond(s, WantsOf(res, rparams)).Done?
    modifies if res == null then {} else {res}, if rparams == null then {} else {rparams}
    ensures Describes(t, pipe, buffer, stream, offset, res, rparams) && Respond(s, WantsOf(res, rparams)) == Done(t)
  {
    if res != null {
      res.code := Decode16(buffer[..], 6);
    }
    if rparams != null {
      CopyInto(rparams, 0, buffer[HEADER_LEN..Decode32(buffer[..], 0)]);
      assert rparams[..] == Overlay(s.buffer[HEADER_LEN..LengthField(s.buffer)], s.params);
    }
    t := Respond(s, WantsOf(res, rparams)).state;
  }

  method ReceiveReply(pipe: Pipe, buffer: array<byte>, stream: array<byte>, res: Result?, rparams: array?<byte>,
                      ghost s: State)
    returns (offset: nat, ghost t: State)
    requires Describes(s, pipe, buffer, stream, 0, res, rparams)
    requires Receive(s, WantsOf(res, rparams)).Done?
    modifies pipe, buffer, stream, if res == null then {} else {res}, if rparams == null then {} else {rparams}
    ensures Describes(t, pipe, buffer, stream, offset, res, rparams) && Receive(s, WantsOf(res, rparams)) == Done(t)
    ensures pipe.channel == old(pipe.channel).(inbox := pipe.channel.inbox)
  {
    var responded := false;
    offset, t := 0, s;
    while !responded
      invariant Describes(t, pipe, buffer, stream, offset, res, rparams)
      invariant Receive(s, WantsOf(res, rparams)) == if responded then Done(t) else Receive(t, WantsOf(res, rparams))
      invariant pipe.channel == old(pipe.channel).(inbox := pipe.channel.inbox)
      decreases !responded, |t.inbox|
    {
      t := AfterPacket(t, NextReception(t.inbox).bytes);
      var received := pipe.Receive(buffer);
      if Decode16(buffer[..], 4) == DATA_BLOCK {
        var length := AsSigned(Decode32(buffer[..], 0));
        offset, t := CollectData(pipe, buffer, stream, offset, received, length, res, rparams, t);
      } else if Decode16(buffer[..], 4) == RESPONSE_BLOCK {
        t := RecordResponse(pipe, buffer, stream, offset, res, rparams, t);
        responded := true;
      }
    }
  }

  // ---------- A whole call ----------

  /** What the uninitialised receive and response buffers happen to hold. */
  datatype Stack = Stack(buffer: seq<byte>, stream: seq<byte>)

  predicate ValidStack(k: Stack) {
    |k.buffer| == PACKET_MAX && |k.stream| == RESPONSE_BUFFER_LEN
  }

  /** All a call may change; the optional parts are the caller's pointers that are not null. */
  datatype Client = Client(channel: Channel, result: Option<(u32, u16)>, params: Option<seq<byte>>,
                           data: Option<seq<byte>>)

  predicate ValidClient(c: Client, len: nat) {
    && (c.data.Some? ==> c.result.Some? && len <= |c.data.value|)
    && (c.params.Some? ==> |c.params.value| == PARAMS_LEN)
  }

  function Start(c: Client, stack: Stack): (s: State)
    requires ValidStack(stack)
    ensures Shaped(s)
  {
    State(c.channel.inbox, stack.buffer, stack.stream, [],
          if c.result.None? then 0 else c.result.value.0, if c.result.None? then 0 else c.result.value.1,
          if c.params.None? then [] else c.params.value)
  }

  function WantsFrom(c: Client): Wants {
    Wants(c.result.Some?, c.params.Some?)
  }

  /** Receiving leaves the optional parts of the client as they come out of the loops. */
  function Received(c: Client, s: State): Client {
    c.(channel := c.channel.(inbox := s.inbox),
       result := if c.result.None? then None else Some((s.length, s.code)),
       params := if c.params.None? then None else Some(s.params))
  }

  function Delivered(c: Client, length: u32, len: nat, stream: seq<byte>): Client
    requires c.data.Some? ==> len <= |c.data.value| && (length <= |stream| || len <= |stream|)
  {
    match c.data
    case None => c
    case Some(d) => c.(data := Some(Overlay(stream[..Least(length, len)], d)))
  }

  function Least(length: u32, len: nat): nat {
    if length > len then len else length
  }

  datatype CallFinal = CallUndefined | CallDone(client: Client, ret: int)

  /** __handle_request: the request goes out, and unless data follows, the reply is received. */
  function Handle(c: Client, req: seq<byte>, len: nat, dataPhase: bool, stack: Stack): CallFinal
    requires ValidClient(c, len) && ValidStack(stack)
  {
    var sent := c.(channel := AfterSend(c.channel, req));
    if !Accepts(c.channel) then CallDone(sent, -1)
    else
      match if dataPhase then Done(Start(sent, stack)) else Receive(Start(sent, stack), WantsFrom(c))
      case Undefined => CallUndefined
      case Done(s) =>
        if c.data.Some? && s.length > RESPONSE_BUFFER_LEN && len > RESPONSE_BUFFER_LEN then CallUndefined
        else CallDone(Delivered(Received(sent, s), s.length, len, Overlay(s.data, s.stream)), 0)
  }

  ghost function ClientOf(pipe: Pipe, data: array?<byte>, res: Result?, rparams: array?<byte>): Client
    reads pipe, data, res, rparams
  {
    Client(pipe.channel,
           if res == null then None else Some((res.length, res.code)),
           if rparams == null then None else Some(rparams[..]),
           if data == null then None else Some(data[..]))
  }

  ghost function Changed(pipe: Pipe, data: array?<byte>, res: Result?, rparams: array?<byte>): set<object> {
    {pipe} + (if data == null then {} else {data}) + (if res == null then {} else {res})
    + (if rparams == null then {} else {rparams})
  }

  method SendRequest(pipe: Pipe, req: seq<byte>, stream: array<byte>, res: Result?, rparams: array?<byte>,
                     dataPhase: bool, stack: Stack)
    returns (ret: int)
    requires ValidStack(stack) && stream[..] == stack.stream && stream != rparams
    requires rparams != null ==> rparams.Length == PARAMS_LEN
    requires Accepts(pipe.channel) && !dataPhase ==>
               Receive(Start(ClientOf(pipe, null, res, rparams), stack), WantsOf(res, rparams)).Done?
    modifies pipe, stream, Changed(pipe, null, res, rparams)
    ensures ret == if Accepts(old(pipe.channel)) then 0 else -1
    ensures ret != 0 || dataPhase ==>
              stream[..] == old(stream[..])
              && ClientOf(pipe, null, res, rparams)
              == old(ClientOf(pipe, null, res, rparams)).(channel := AfterSend(old(pipe.channel), req))
    ensures ret == 0 && !dataPhase ==>
              var c := old(ClientOf(pipe, null, res, rparams));
              var s := Receive(Start(c, stack), WantsFrom(c)).state;
              stream[..] == Overlay(s.data, s.stream)
              && ClientOf(pipe, null, res, rparams) == Received(c.(channel := AfterSend(c.channel, req)), s)
  {
    var sent := pipe.Send(req);
    if sent < 0 {
      return -1;
    }
    if !dataPhase {
      var buffer := new byte[PACKET_MAX](i requires 0 <= i < PACKET_MAX => stack.buffer[i]);
      assert buffer[..] == stack.buffer;
      ghost var s := Start(ClientOf(pipe, null, res, rparams), stack);
      assert Overlay([], stack.stream) == stack.stream;
      var offset;
      offset, s := ReceiveReply(pipe, buffer, stream, res, rparams, s);
    }
    return 0;
  }

  /** Cuts the response down to what the caller's buffer takes. */
  method Deliver(stream: array<byte>, data: array<byte>, len: nat, length: u32)
    requires stream != data && len <= data.Length && (length <= stream.Length || len <= stream.Length)
    modifies data
    ensures data[..] == Overlay(stream[..Least(length, len)], old(data[..]))
  {
    CopyInto(data, 0, stream[..if length > len then len else length]);
  }

  method HandleRequest(pipe: Pipe, req: seq<byte>, data: array?<byte>, len: nat, res: Result?, rparams: array?<byte>,
                       dataPhase: bool, stack: Stack)
    returns (ret: int)
    requires ValidStack(stack) && ValidClient(ClientOf(pipe, data, res, rparams), len)
    requires data != null ==> data != rparams
    requires Handle(ClientOf(pipe, data, res, rparams), req, len, dataPhase, stack).CallDone?
    modifies Changed(pipe, data, res, rparams)
    ensures Handle(old(ClientOf(pipe, data, res, rparams)), req, len, dataPhase, stack)
         == CallDone(ClientOf(pipe, data, res, rparams), ret)
    ensures var after := Handle(old(ClientOf(pipe, data, res, rparams)), req, len, dataPhase, stack).client;
            && after.channel == pipe.channel && (data != null ==> after.data == Some(data[..]))
            && (res != null ==> after.result == Some((res.length, res.code)))
            && (rparams != null ==> after.params == Some(rparams[..]))
  {
    var stream := new byte[RESPONSE_BUFFER_LEN](i requires 0 <= i < RESPONSE_BUFFER_LEN => stack.stream[i]);
    assert stream[..] == Overlay([], stack.stream);
    ret := SendRequest(pipe, req, stream, res, rparams, dataPhase, stack);
    if data != null && ret == 0 {
      Deliver(stream, data, len, res.length);
    }
  }
}
