/** One request and its response over the bulk pipes (lib/adb/adb.c). */
module AdbExchange {
  import opened Prelude
  import opened Words
  import opened Bus
  import opened AdbMessage

  const RESPONSE_BUFFER_LEN: nat := 2048

  /** ret is what the call returns; received is what has been copied into the data buffer. */
  datatype Outcome = Outcome(ret: int, received: seq<byte>, code: u32)

  // ---------- Specification ----------

  /** ADB_DATA_LEN_MASK and ADB_COMMAND_MASK, read off the buffer a first packet arrived in. */
  predicate Announced(p: Packet, stack: seq<byte>)
    requires |stack| == PACKET_MAX
  {
    Decode32(Overlay(p, stack), 12) != 0
  }

  function Command(p: Packet, stack: seq<byte>): u32
    requires |stack| == PACKET_MAX
  {
    Decode32(Overlay(p, stack), 0)
  }

  /** The receive loop: a header packet and, if it announces data, one more packet. */
  function Response(inbox: seq<Reception>, stack: seq<byte>): (o: Outcome)
    requires |stack| == PACKET_MAX
    ensures |o.received| <= 2 * PACKET_MAX
  {
    match NextReception(inbox)
    case Failure => Outcome(-1, [], 0)
    case Delivery(p) =>
      if !Announced(p, stack) then Outcome(0, p, Command(p, stack))
      else match NextReception(Rest(inbox))
      case Failure => Outcome(-1, p, Command(p, stack))
      case Delivery(q) => Outcome(0, p + q, Command(p, stack))
  }

  /** What the receive loop leaves unread. */
  function Unread(inbox: seq<Reception>, stack: seq<byte>): (rest: seq<Reception>)
    requires |stack| == PACKET_MAX
  {
    match NextReception(inbox)
    case Failure => Rest(inbox)
    case Delivery(p) =>
      if Announced(p, stack) then Rest(Rest(inbox)) else Rest(inbox)
  }

  /** The sends of a request: its header, then the rest if there is more. */
  function AfterSends(ch: Channel, req: seq<byte>): Channel
    requires |req| >= HEADER_LEN
  {
    var ch1 := AfterSend(ch, req[..HEADER_LEN]);
    if Accepts(ch) && |req| > HEADER_LEN then AfterSend(ch1, req[HEADER_LEN..]) else ch1
  }

  predicate SendsAccepted(ch: Channel, req: seq<byte>)
    requires |req| >= HEADER_LEN
  {
    Accepts(ch) && (|req| > HEADER_LEN ==> Accepts(AfterSend(ch, req[..HEADER_LEN])))
  }

  function Exchange(ch: Channel, req: seq<byte>, stack: seq<byte>): (o: Outcome)
    requires |req| >= HEADER_LEN && |stack| == PACKET_MAX
    ensures |o.received| <= 2 * PACKET_MAX
  {
    if SendsAccepted(ch, req) then Response(ch.inbox, stack) else Outcome(-1, [], 0)
  }

  function AfterExchange(ch: Channel, req: seq<byte>, stack: seq<byte>): Channel
    requires |req| >= HEADER_LEN && |stack| == PACKET_MAX
  {
    var ch1 := AfterSends(ch, req);
    if SendsAccepted(ch, req) then ch1.(inbox := Unread(ch.inbox, stack)) else ch1
  }

  // ---------- The code ----------

  class Result {
    var length: u32
    var code: u32

    constructor ()
      ensures length == 0 && code == 0
    {
      length, code := 0, 0;
    }
  }

  method SendParts(pipe: Pipe, req: seq<byte>) returns (ok: bool)
    requires |req| >= HEADER_LEN
    modifies pipe
    ensures pipe.channel == AfterSends(old(pipe.channel), req)
    ensures ok == SendsAccepted(old(pipe.channel), req)
  {
    var sent := pipe.Send(req[..HEADER_LEN]);
    if sent < 0 {
      return false;
    }
    if |req| > HEADER_LEN {
      sent := pipe.Send(req[HEADER_LEN..]);
      if sent < 0 {
        return false;
      }
    }
    return true;
  }

  /** One receive, appended to what the data buffer already holds. */
  method ReceiveInto(pipe: Pipe, buffer: array<byte>, data: array<byte>, offset: nat,
                     ghost was: seq<byte>, ghost written: seq<byte>)
    returns (n: int)
    requires buffer.Length == PACKET_MAX && data != buffer && data.Length == |was|
    requires offset == |written| && offset + PACKET_MAX <= data.Length && data[..] == Overlay(written, was)
    modifies pipe, buffer, data
    ensures pipe.channel == old(pipe.channel).(inbox := Rest(old(pipe.channel.inbox)))
    ensures match NextReception(old(pipe.channel.inbox))
            case Failure => n == -1 && buffer[..] == old(buffer[..]) && data[..] == Overlay(written, was)
            case Delivery(p) =>
              n == |p| && buffer[..] == Overlay(p, old(buffer[..])) && data[..] == Overlay(written + p, was)
  {
    n := pipe.Receive(buffer);
    if n >= 0 {
      ghost var p := NextReception(old(pipe.channel.inbox)).bytes;
      OverlayPrefix(p, old(buffer[..]));
      OverlayTwice(written, p, was);
      CopyInto(data, offset, buffer[..n]);
    }
  }

  /**
    The receive loop. The stack parameter is what the uninitialised receive buffer happens
    to hold; it matters only when the first packet is shorter than a header.
   */
  method ReceiveResponse(pipe: Pipe, data: array<byte>, stack: seq<byte>) returns (ret: int, length: nat, code: u32)
    requires |stack| == PACKET_MAX && data.Length == RESPONSE_BUFFER_LEN
    modifies pipe, data
    ensures pipe.channel == old(pipe.channel).(inbox := Unread(old(pipe.channel.inbox), stack))
    ensures var o := Response(old(pipe.channel.inbox), stack);
            && ret == o.ret
            && data[..] == Overlay(o.received, old(data[..]))
            && (ret == 0 ==> length == |o.received| && code == o.code)
  {
    ghost var inbox, was := pipe.channel.inbox, data[..];
    var buffer := new byte[PACKET_MAX](i requires 0 <= i < PACKET_MAX => stack[i]);
    assert buffer[..] == stack;
    var incoming, offset := false, 0;
    ret, length, code := -1, 0, 0;
    ghost var first: seq<byte> := [];
    assert was == Overlay(first, was);
    while true
      invariant fresh(buffer) && offset == length == |first| <= PACKET_MAX
      invariant pipe.channel == old(pipe.channel).(inbox := if incoming then Rest(inbox) else inbox)
      invariant ret == -1 && data[..] == Overlay(first, was)
      invariant !incoming ==> first == [] && buffer[..] == stack
      invariant incoming ==> NextReception(inbox) == Delivery(first)
      invariant incoming ==> Announced(first, stack) && code == Command(first, stack)
      decreases !incoming
    {
      var received := ReceiveInto(pipe, buffer, data, offset, was, first);
      if received < 0 {
        return;
      }
      length := length + received;
      if incoming {
        break;
      }
      offset := offset + received;
      first := NextReception(inbox).bytes;
      assert buffer[..] == Overlay(first, stack);
      code := Decode32(buffer[..], 0);
      if Decode32(buffer[..], 12) != 0 {
        incoming := true;
      } else {
        break;
      }
    }
    ret := 0;
  }

  /** __send_request: a result is written only when the whole exchange succeeds. */
  method SendRequest(pipe: Pipe, req: seq<byte>, data: array<byte>, res: Result, stack: seq<byte>) returns (ret: int)
    requires |req| >= HEADER_LEN && |stack| == PACKET_MAX && data.Length == RESPONSE_BUFFER_LEN
    modifies pipe, data, res
    ensures pipe.channel == AfterExchange(old(pipe.channel), req, stack)
    ensures var o := Exchange(old(pipe.channel), req, stack);
            && ret == o.ret
            && data[..] == Overlay(o.received, old(data[..]))
            && Written(res.length, res.code, o, old(res.length), old(res.code))
  {
    var ok := SendParts(pipe, req);
    if !ok {
      assert data[..] == Overlay([], data[..]);
      return -1;
    }
    var length, code;
    ret, length, code := ReceiveResponse(pipe, data, stack);
    if ret == 0 {
      res.length, res.code := length, code;
    }
  }

  /** The result structure after an exchange. */
  ghost predicate Written(length: u32, code: u32, o: Outcome, oldLength: u32, oldCode: u32) {
    if o.ret == 0 then length == |o.received| && code == o.code else length == oldLength && code == oldCode
  }

  // ---------- A whole call ----------

  /** All a call may change: the pipe, the result structure and the caller's buffer or null. */
  datatype Client = Client(channel: Channel, length: u32, code: u32, data: Option<seq<byte>>)

  ghost function Snapshot(pipe: Pipe, res: Result, data: array?<byte>): Client
    reads pipe, res, data
  {
    Client(pipe.channel, res.length, res.code, if data == null then None else Some(data[..]))
  }

  /** The first len received bytes over what the caller's buffer held. */
  function Delivered(received: seq<byte>, len: nat, buffer: seq<byte>): (s: seq<byte>)
    requires len <= |buffer|
    ensures |s| == |buffer|
  {
    Overlay(if |received| > len then received[..len] else received, buffer)
  }

  predicate Fits(len: nat, data: Option<seq<byte>>) {
    data.Some? ==> len <= |data.value|
  }

  predicate Framable(m: Message) {
    WellFormed(m) && HEADER_LEN + m.header.dataLength < 0x1_0000_0000
  }

  /** The size of the request as the int of the source; it cannot be allocated when negative. */
  function RequestSize(m: Message): int
    requires Framable(m)
  {
    AsSigned(HEADER_LEN + m.header.dataLength)
  }

  function AfterCall(c: Client, m: Message, len: nat, stack: seq<byte>, memory: bool): Client
    requires Framable(m) && |stack| == PACKET_MAX && Fits(len, c.data)
  {
    if !memory || RequestSize(m) < 0 then c
    else
      var o := Exchange(c.channel, Encode(m), stack);
      var channel := AfterExchange(c.channel, Encode(m), stack);
      if o.ret != 0 then c.(channel := channel)
      else Client(channel, |o.received|, o.code,
                  match c.data case None => None case Some(d) => Some(Delivered(o.received, len, d)))
  }

  function CallResult(c: Client, m: Message, stack: seq<byte>, memory: bool): int
    requires Framable(m) && |stack| == PACKET_MAX
  {
    if !memory || RequestSize(m) < 0 then -1 else Exchange(c.channel, Encode(m), stack).ret
  }

  /** Cuts the response down to what the caller's buffer takes. */
  method Deliver(stream: array<byte>, data: array<byte>, len: nat, length: nat,
                 ghost received: seq<byte>, ghost was: seq<byte>)
    requires stream != data && length == |received| <= |was| && stream[..] == Overlay(received, was)
    requires len <= data.Length
    modifies data
    ensures data[..] == Delivered(received, len, old(data[..]))
  {
    var toCopy := if length > len then len else length;
    assert stream[..toCopy] == received[..toCopy];
    CopyInto(data, 0, stream[..toCopy]);
  }

  /** __handle_request; memory tells whether an allocation succeeds. */
  method HandleRequest(pipe: Pipe, m: Message, data: array?<byte>, len: nat, res: Result, stack: seq<byte>,
                       memory: bool)
    returns (ret: int)
    requires Framable(m) && |stack| == PACKET_MAX
    requires data != null ==> len <= data.Length
    modifies pipe, res, if data == null then {} else {data}
    ensures Snapshot(pipe, res, data) == AfterCall(old(Snapshot(pipe, res, data)), m, len, stack, memory)
    ensures ret == CallResult(old(Snapshot(pipe, res, data)), m, stack, memory)
  {
    if !memory || RequestSize(m) < 0 {
      return -1;
    }
    var req := EncodeHeader(m.header);
    if m.header.dataLength != 0 {
      req := req + m.payload.value[..m.header.dataLength];
    }
    assert req == Encode(m);
    var stream := new byte[RESPONSE_BUFFER_LEN];
    ghost var was := stream[..];
    ret := SendRequest(pipe, req, stream, res, stack);
    if data != null && ret == 0 {
      Deliver(stream, data, len, res.length, Exchange(old(pipe.channel), req, stack).received, was);
    }
  }
}
