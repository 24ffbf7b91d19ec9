/** What one ADB call leaves with its caller, said in bytes and packets. */
module AdbCalls {
  import opened Prelude
  import opened Words
  import opened Bus
  import opened AdbMessage
  import opened AdbExchange

  /** The caller's buffer has the first bytes of a reply, as many as it takes, and is otherwise as before. */
  predicate Holds(whole: seq<byte>, len: nat, before: Option<seq<byte>>, after: Option<seq<byte>>)
    requires Fits(len, before)
  {
    match before
    case None => after == None
    case Some(d) =>
      var n := if |whole| < len then |whole| else len;
      after.Some? && |after.value| == |d| && after.value[..n] == whole[..n] && after.value[n..] == d[n..]
  }

  lemma {:induction false} DeliveredHolds(received: seq<byte>, len: nat, d: seq<byte>)
    requires len <= |d|
    ensures Holds(received, len, Some(d), Some(Delivered(received, len, d)))
  {
    var n := if |received| < len then |received| else len;
    assert received[..|received|] == received;
    assert Delivered(received, len, d) == received[..n] + d[n..];
  }

  /** The receive buffer after a first packet: what lay behind it is whatever the stack held. */
  function FirstBuffer(p: Packet, stack: seq<byte>): (b: seq<byte>)
    requires |stack| == PACKET_MAX
    ensures |b| == 512
  {
    p + stack[|p|..]
  }

  /** The length field at bytes 12 to 15 is not zero. */
  predicate Announces(p: Packet, stack: seq<byte>)
    requires |stack| == PACKET_MAX
  {
    exists i :: 12 <= i < 16 && FirstBuffer(p, stack)[i] != 0
  }

  lemma {:induction false} AnnouncesIff(p: Packet, stack: seq<byte>)
    requires |stack| == PACKET_MAX
    ensures Announced(p, stack) <==> Announces(p, stack)
  {
    var b := FirstBuffer(p, stack);
    if Announced(p, stack) {
      assert b[12] != 0 || b[13] != 0 || b[14] != 0 || b[15] != 0;
    }
  }

  predicate Accepted(ch: Channel, k: nat) {
    k < |ch.sends| && ch.sends[k].Taken?
  }

  predicate Delivers(ch: Channel, k: nat) {
    k < |ch.inbox| && ch.inbox[k].Delivery?
  }

  /** Memory for the request, whose size must be a nonnegative int; both sends taken; both receives made. */
  predicate Succeeds(ch: Channel, m: Message, stack: seq<byte>, memory: bool)
    requires Framable(m) && |stack| == PACKET_MAX
  {
    && memory && 24 + m.header.dataLength < 0x8000_0000
    && Accepted(ch, 0) && (m.header.dataLength > 0 ==> Accepted(ch, 1))
    && Delivers(ch, 0) && (Announces(ch.inbox[0].bytes, stack) ==> Delivers(ch, 1))
  }

  /** A call returns 0 or -1, and a call that fails changes nothing of the caller's but the stream. */
  lemma {:induction false} SucceedsIff(c: Client, m: Message, len: nat, stack: seq<byte>, memory: bool)
    requires Framable(m) && |stack| == PACKET_MAX && Fits(len, c.data)
    ensures CallResult(c, m, stack, memory) == if Succeeds(c.channel, m, stack, memory) then 0 else -1
    ensures !Succeeds(c.channel, m, stack, memory) ==>
              AfterCall(c, m, len, stack, memory) == c.(channel := AfterCall(c, m, len, stack, memory).channel)
  {
    if Delivers(c.channel, 0) {
      AnnouncesIff(c.channel.inbox[0].bytes, stack);
    }
  }

  /** A call that cannot send whole does not receive: no memory, no transfer; a refused one, none after it. */
  lemma {:induction false} NothingRead(c: Client, m: Message, len: nat, stack: seq<byte>, memory: bool)
    requires Framable(m) && |stack| == PACKET_MAX && Fits(len, c.data)
    requires !memory || 24 + m.header.dataLength >= 0x8000_0000 || !Accepted(c.channel, 0)
             || (m.header.dataLength > 0 && !Accepted(c.channel, 1))
    ensures var after := AfterCall(c, m, len, stack, memory).channel;
            && after.inbox == c.channel.inbox
            && (!memory || 24 + m.header.dataLength >= 0x8000_0000 ==> after == c.channel)
            && (!Accepted(c.channel, 0) ==> after.outbox == c.channel.outbox)
            && |after.outbox| <= |c.channel.outbox| + 1
  {
  }

  /** What a successful call received: the first packet, and the next one too if it announces data. */
  function Whole(ch: Channel, stack: seq<byte>): seq<byte>
    requires |stack| == PACKET_MAX && Delivers(ch, 0)
    requires Announces(ch.inbox[0].bytes, stack) ==> Delivers(ch, 1)
  {
    var p := ch.inbox[0].bytes;
    if Announces(p, stack) then p + ch.inbox[1].bytes else p
  }

  /** A call that succeeds gives the caller exactly the packets it read, and reads no others. */
  lemma {:induction false} SuccessGives(c: Client, m: Message, len: nat, stack: seq<byte>)
    requires Framable(m) && |stack| == PACKET_MAX && Fits(len, c.data) && Succeeds(c.channel, m, stack, true)
    ensures var ch := c.channel;
            var after, whole := AfterCall(c, m, len, stack, true), Whole(ch, stack);
            var b := FirstBuffer(ch.inbox[0].bytes, stack);
            && after.length == |whole|
            && after.code == b[0] as int + 0x100 * b[1] as int + 0x1_0000 * b[2] as int + 0x100_0000 * b[3] as int
            && Holds(whole, len, c.data, after.data)
            && after.channel.inbox == ch.inbox[if Announces(ch.inbox[0].bytes, stack) then 2 else 1..]
  {
    AnnouncesIff(c.channel.inbox[0].bytes, stack);
    if c.data.Some? {
      DeliveredHolds(Whole(c.channel, stack), len, c.data.value);
    }
  }

  // ---------- The code ----------

  /** The seven public calls: each fills in a message and hands it over. */
  method Perform(pipe: Pipe, c: Call, data: array?<byte>, len: nat, res: Result, stack: seq<byte>, memory: bool)
    returns (ret: int)
    requires Sendable(c) && |stack| == PACKET_MAX
    requires data != null ==> len <= data.Length
    modifies pipe, res, if data == null then {} else {data}
    ensures Snapshot(pipe, res, data) == AfterCall(old(Snapshot(pipe, res, data)), Build(c), len, stack, memory)
    ensures ret == CallResult(old(Snapshot(pipe, res, data)), Build(c), stack, memory)
    ensures ret == if Succeeds(old(pipe.channel), Build(c), stack, memory) then 0 else -1
    ensures ret != 0 ==> res.length == old(res.length) && res.code == old(res.code)
    ensures ret != 0 && data != null ==> data[..] == old(data[..])
    ensures ret == 0 ==> res.length == |Whole(old(pipe.channel), stack)|
    ensures ret == 0 && data != null ==>
              Holds(Whole(old(pipe.channel), stack), len, Some(old(data[..])), Some(data[..]))
  {
    SucceedsIff(Snapshot(pipe, res, data), Build(c), len, stack, memory);
    if Succeeds(pipe.channel, Build(c), stack, memory) {
      SuccessGives(Snapshot(pipe, res, data), Build(c), len, stack);
    }
    var m := FillIn(c);
    ret := HandleRequest(pipe, m, data, len, res, stack, memory);
  }

  method FillIn(c: Call) returns (m: Message)
    requires Sendable(c)
    ensures m == Build(c)
  {
    var msg := new MessageStruct();
    var a := ArgumentsOf(c);
    msg.Set(a.command, a.arg0, a.arg1, a.dataLength, a.payload);
    var header := Header(msg.command, msg.arg0, msg.arg1, msg.dataLength, msg.dataCheck, msg.magic);
    m := Message(header, msg.payload);
  }
}
