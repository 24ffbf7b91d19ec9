/** Whole runs of ADB calls against a device that answers each request with one reply. */
module AdbRuns {
  import opened Prelude
  import opened Words
  import opened Bus
  import opened AdbMessage
  import opened AdbExchange
  import AdbCalls

  datatype Reply = Reply(header: Header, payload: seq<byte>)

  predicate Honest(r: Reply) {
    r.header.dataLength == |r.payload|
  }

  /** A payload as the pipe delivers it: full packets, then what is left. */
  function Chunks(payload: seq<byte>): seq<Reception> {
    if payload == [] then []
    else if |payload| <= PACKET_MAX then [Delivery(payload)]
    else [Delivery(payload[..PACKET_MAX])] + Chunks(payload[PACKET_MAX..])
  }

  function Packets(r: Reply): seq<Reception> {
    [Delivery(EncodeHeader(r.header))] + Chunks(r.payload)
  }

  function Script(replies: seq<Reply>): seq<Reception> {
    if replies == [] then [] else Packets(replies[0]) + Script(replies[1..])
  }

  /** The outcome a caller wants: the whole reply, and its command as the code. */
  function Whole(r: Reply): Outcome {
    Outcome(0, EncodeHeader(r.header) + r.payload, r.header.command)
  }

  function Wholes(replies: seq<Reply>): (os: seq<Outcome>)
    ensures |os| == |replies|
  {
    if replies == [] then [] else [Whole(replies[0])] + Wholes(replies[1..])
  }

  /** A request's bytes, and what the receive buffer happens to hold when it is made. */
  datatype Turn = Turn(req: seq<byte>, stack: seq<byte>)

  predicate ValidTurn(t: Turn) {
    |t.req| >= HEADER_LEN && |t.stack| == PACKET_MAX
  }

  predicate ValidTurns(turns: seq<Turn>) {
    forall i :: 0 <= i < |turns| ==> ValidTurn(turns[i])
  }

  predicate AllHonest(replies: seq<Reply>) {
    forall i :: 0 <= i < |replies| ==> Honest(replies[i])
  }

  function Outcomes(ch: Channel, turns: seq<Turn>): (os: seq<Outcome>)
    requires ValidTurns(turns)
    ensures |os| == |turns|
    decreases |turns|
  {
    if turns == [] then []
    else [Exchange(ch, turns[0].req, turns[0].stack)]
         + Outcomes(AfterExchange(ch, turns[0].req, turns[0].stack), turns[1..])
  }

  function Final(ch: Channel, turns: seq<Turn>): Channel
    requires ValidTurns(turns)
    decreases |turns|
  {
    if turns == [] then ch else Final(AfterExchange(ch, turns[0].req, turns[0].stack), turns[1..])
  }

  /** The transfers of a request, as the device should see them. */
  function Transfers(req: seq<byte>): seq<seq<byte>>
    requires |req| >= HEADER_LEN
  {
    if |req| > HEADER_LEN then [req[..HEADER_LEN], req[HEADER_LEN..]] else [req]
  }

  function AllTransfers(turns: seq<Turn>): seq<seq<byte>>
    requires ValidTurns(turns)
  {
    if turns == [] then [] else Transfers(turns[0].req) + AllTransfers(turns[1..])
  }

  /** No send of the coming n requests fails; how much the device takes of each is left open. */
  predicate Healthy(ch: Channel, n: nat) {
    |ch.sends| >= 2 * n && forall i :: 0 <= i < |ch.sends| ==> ch.sends[i].Taken?
  }

  /** What the device takes of the transfers of a request. */
  function Arrived(ch: Channel, req: seq<byte>): seq<seq<byte>>
    requires |req| >= HEADER_LEN && SendsAccepted(ch, req)
  {
    var head := Portion(ch, req[..HEADER_LEN]);
    if |req| > HEADER_LEN then [head, Portion(AfterSend(ch, req[..HEADER_LEN]), req[HEADER_LEN..])] else [head]
  }

  /** Neither send of the request is cut short. */
  predicate TakesWhole(ch: Channel, req: seq<byte>)
    requires |req| >= HEADER_LEN && SendsAccepted(ch, req)
  {
    ch.sends[0].limit >= HEADER_LEN && (|req| > HEADER_LEN ==> ch.sends[1].limit >= |req| - HEADER_LEN)
  }

  // ---------- One call ----------

  lemma {:induction false} HeaderAnnounces(r: Reply, stack: seq<byte>)
    requires |stack| == PACKET_MAX
    ensures Announced(EncodeHeader(r.header), stack) <==> r.header.dataLength != 0
    ensures Command(EncodeHeader(r.header), stack) == r.header.command
  {
    DecodeEncodeHeader(r.header, stack[HEADER_LEN..]);
  }

  /** A payload of one packet is returned whole, a longer one is cut and the rest stays unread. */
  lemma {:induction false} OneReply(r: Reply, rest: seq<Reception>, stack: seq<byte>)
    requires Honest(r) && |stack| == PACKET_MAX
    ensures var o, unread := Response(Packets(r) + rest, stack), Unread(Packets(r) + rest, stack);
            if |r.payload| <= PACKET_MAX then o == Whole(r) && unread == rest
            else o == Outcome(0, EncodeHeader(r.header) + r.payload[..PACKET_MAX], r.header.command)
                 && unread == Chunks(r.payload[PACKET_MAX..]) + rest
  {
    var h, n := EncodeHeader(r.header), |r.payload|;
    HeaderAnnounces(r, stack);
    HeadTail(Delivery(h), Chunks(r.payload), rest);
    if n > PACKET_MAX {
      HeadTail(Delivery(r.payload[..PACKET_MAX]), Chunks(r.payload[PACKET_MAX..]), rest);
    } else if n > 0 {
      HeadTail(Delivery(r.payload), [], rest);
      assert [] + rest == rest && [Delivery(r.payload)] + [] == [Delivery(r.payload)];
    } else {
      assert [] + rest == rest && h + r.payload == h;
    }
  }

  lemma {:induction false} OneTurn(ch: Channel, t: Turn, n: nat)
    requires ValidTurn(t) && Healthy(ch, n + 1)
    ensures SendsAccepted(ch, t.req) && Exchange(ch, t.req, t.stack) == Response(ch.inbox, t.stack)
    ensures var next := AfterExchange(ch, t.req, t.stack);
            && Healthy(next, n) && next.inbox == Unread(ch.inbox, t.stack)
            && next.outbox == ch.outbox + Arrived(ch, t.req)
  {
    assert t.req[..|t.req|] == t.req;
  }

  /** The source does not see a short send; the request arrives whole exactly when there was none. */
  lemma {:induction false} ArrivesWholeIff(ch: Channel, req: seq<byte>)
    requires |req| >= HEADER_LEN && SendsAccepted(ch, req)
    ensures |Arrived(ch, req)| == |Transfers(req)|
    ensures Arrived(ch, req) == Transfers(req) <==> TakesWhole(ch, req)
  {
    assert req[..|req|] == req;
    var sent, arrived := Transfers(req), Arrived(ch, req);
    if arrived == sent {
      assert |arrived[0]| == HEADER_LEN && (|req| > HEADER_LEN ==> |arrived[1]| == |req| - HEADER_LEN);
    }
  }

  // ---------- Runs ----------

  predicate OnePacketEach(replies: seq<Reply>) {
    forall i :: 0 <= i < |replies| ==> |replies[i].payload| <= 512
  }

  lemma {:induction false} OnePacketEachStep(replies: seq<Reply>)
    requires replies != []
    ensures OnePacketEach(replies) <==> |replies[0].payload| <= 512 && OnePacketEach(replies[1..])
  {
    if |replies[0].payload| <= PACKET_MAX && OnePacketEach(replies[1..]) {
      assert forall i :: 0 < i < |replies| ==> replies[i] == replies[1..][i - 1];
    }
  }

  /** The first call returns its reply whole, and stays aligned, iff one packet holds the payload. */
  lemma {:induction false} FirstTurn(ch: Channel, turns: seq<Turn>, replies: seq<Reply>, rest: seq<Reception>)
    requires |turns| == |replies| > 0 && ValidTurns(turns) && AllHonest(replies)
    requires Healthy(ch, |turns|) && ch.inbox == Script(replies) + rest
    ensures var next := AfterExchange(ch, turns[0].req, turns[0].stack);
            && Healthy(next, |turns| - 1)
            && SendsAccepted(ch, turns[0].req) && next.outbox == ch.outbox + Arrived(ch, turns[0].req)
            && (Exchange(ch, turns[0].req, turns[0].stack) == Whole(replies[0]) <==> |replies[0].payload| <= PACKET_MAX)
            && (|replies[0].payload| <= PACKET_MAX ==> next.inbox == Script(replies[1..]) + rest)
  {
    var r, later := replies[0], Script(replies[1..]) + rest;
    OneTurn(ch, turns[0], |turns| - 1);
    Associative(Packets(r), Script(replies[1..]), rest);
    OneReply(r, later, turns[0].stack);
    CutIsShorter(r);
  }

  lemma {:induction false} CutIsShorter(r: Reply)
    ensures |r.payload| > PACKET_MAX ==>
              Outcome(0, EncodeHeader(r.header) + r.payload[..PACKET_MAX], r.header.command) != Whole(r)
  {
    if |r.payload| > PACKET_MAX {
      assert |EncodeHeader(r.header) + r.payload[..PACKET_MAX]| < |EncodeHeader(r.header) + r.payload|;
    }
  }

  /** Payloads of one packet: call k returns reply k whole, and the streams stay aligned. */
  lemma {:induction false} RunAligned(ch: Channel, turns: seq<Turn>, replies: seq<Reply>, rest: seq<Reception>)
    requires |turns| == |replies| && ValidTurns(turns) && AllHonest(replies)
    requires Healthy(ch, |turns|) && ch.inbox == Script(replies) + rest && OnePacketEach(replies)
    ensures Outcomes(ch, turns) == Wholes(replies)
    ensures Final(ch, turns).inbox == rest
    decreases |turns|
  {
    if turns == [] {
      assert Script(replies) + rest == rest;
    } else {
      var next := AfterExchange(ch, turns[0].req, turns[0].stack);
      FirstTurn(ch, turns, replies, rest);
      RunAligned(next, turns[1..], replies[1..], rest);
    }
  }

  /** What the device takes of all the requests of a run. */
  function AllArrived(ch: Channel, turns: seq<Turn>): seq<seq<byte>>
    requires ValidTurns(turns) && Healthy(ch, |turns|)
    decreases |turns|
  {
    if turns == [] then []
    else
      OneTurn(ch, turns[0], |turns| - 1);
      Arrived(ch, turns[0].req) + AllArrived(AfterExchange(ch, turns[0].req, turns[0].stack), turns[1..])
  }

  predicate AllTakenWhole(ch: Channel, turns: seq<Turn>)
    requires ValidTurns(turns) && Healthy(ch, |turns|)
    decreases |turns|
  {
    if turns == [] then true
    else
      OneTurn(ch, turns[0], |turns| - 1);
      TakesWhole(ch, turns[0].req) && AllTakenWhole(AfterExchange(ch, turns[0].req, turns[0].stack), turns[1..])
  }

  /** Whatever the replies, the device receives what it takes of every request, in order. */
  lemma {:induction false} RunTransfers(ch: Channel, turns: seq<Turn>)
    requires ValidTurns(turns) && Healthy(ch, |turns|)
    ensures Final(ch, turns).outbox == ch.outbox + AllArrived(ch, turns)
    decreases |turns|
  {
    if turns != [] {
      var next := AfterExchange(ch, turns[0].req, turns[0].stack);
      OneTurn(ch, turns[0], |turns| - 1);
      RunTransfers(next, turns[1..]);
      Associative(ch.outbox, Arrived(ch, turns[0].req), AllArrived(next, turns[1..]));
    }
  }

  /** Over a whole run every request arrives as it was sent exactly when no send was cut short. */
  lemma {:induction false} RunArrivesIff(ch: Channel, turns: seq<Turn>)
    requires ValidTurns(turns) && Healthy(ch, |turns|)
    ensures AllArrived(ch, turns) == AllTransfers(turns) <==> AllTakenWhole(ch, turns)
    decreases |turns|
  {
    if turns != [] {
      var next := AfterExchange(ch, turns[0].req, turns[0].stack);
      OneTurn(ch, turns[0], |turns| - 1);
      ArrivesWholeIff(ch, turns[0].req);
      RunArrivesIff(next, turns[1..]);
      SameParts(Arrived(ch, turns[0].req), AllArrived(next, turns[1..]),
                Transfers(turns[0].req), AllTransfers(turns[1..]));
    }
  }

  lemma {:induction false} SameParts<T>(a: seq<T>, b: seq<T>, c: seq<T>, d: seq<T>)
    requires |a| == |c|
    ensures a + b == c + d <==> a == c && b == d
  {
    if a + b == c + d {
      assert a == (a + b)[..|a|] && b == (a + b)[|a|..];
      assert c == (c + d)[..|c|] && d == (c + d)[|c|..];
    }
  }

  lemma {:induction false} WholeStep(x: Outcome, xs: seq<Outcome>, replies: seq<Reply>)
    requires replies != []
    ensures [x] + xs == Wholes(replies) <==> x == Whole(replies[0]) && xs == Wholes(replies[1..])
  {
    SameParts([x], xs, [Whole(replies[0])], Wholes(replies[1..]));
    assert [x] == [Whole(replies[0])] <==> x == Whole(replies[0]);
  }

  /** Every call of a run returns its own whole reply exactly when every payload fits one packet. */
  lemma {:induction false} RunWholeIff(ch: Channel, turns: seq<Turn>, replies: seq<Reply>, rest: seq<Reception>)
    requires |turns| == |replies| && ValidTurns(turns) && AllHonest(replies)
    requires Healthy(ch, |turns|) && ch.inbox == Script(replies) + rest
    ensures Outcomes(ch, turns) == Wholes(replies) <==> OnePacketEach(replies)
    decreases |turns|
  {
    if turns != [] {
      var x, next := Exchange(ch, turns[0].req, turns[0].stack), AfterExchange(ch, turns[0].req, turns[0].stack);
      FirstTurn(ch, turns, replies, rest);
      OnePacketEachStep(replies);
      WholeStep(x, Outcomes(next, turns[1..]), replies);
      if |replies[0].payload| <= PACKET_MAX {
        RunWholeIff(next, turns[1..], replies[1..], rest);
      }
    }
  }

  // ---------- The public calls ----------

  /** A public call: what it is asked, the caller's structures, and the stack it meets. */
  datatype Request = Request(call: Call, length: u32, code: u32, data: Option<seq<byte>>, len: nat, stack: seq<byte>)

  /** What a call leaves with its caller, and returns. */
  datatype Return = Return(client: Client, ret: int)

  /** The request is one that can be allocated, and the caller's buffer is as large as said. */
  predicate ValidRequest(q: Request) {
    Sendable(q.call) && RequestSize(Build(q.call)) >= 0 && |q.stack| == PACKET_MAX && Fits(q.len, q.data)
  }

  predicate ValidRequests(qs: seq<Request>) {
    forall i :: 0 <= i < |qs| ==> ValidRequest(qs[i])
  }

  /** What AdbCalls.Perform does with a request, with memory to spare. */
  function Performed(ch: Channel, q: Request): Return
    requires ValidRequest(q)
  {
    var before := Client(ch, q.length, q.code, q.data);
    Return(AfterCall(before, Build(q.call), q.len, q.stack, true), CallResult(before, Build(q.call), q.stack, true))
  }

  /** A run of calls, each starting from the channel the one before left. */
  function Run(ch: Channel, qs: seq<Request>): (rs: seq<Return>)
    requires ValidRequests(qs)
    ensures |rs| == |qs|
    decreases |qs|
  {
    if qs == [] then []
    else
      var x := Performed(ch, qs[0]);
      [x] + Run(x.client.channel, qs[1..])
  }

  /**
    The call returned zero, the reply's length and command, and the first bytes of the whole
    reply, as many as the caller asked for; it left the later packets unread, and no others.
   */
  predicate Served(x: Return, q: Request, r: Reply, later: seq<Reception>)
    requires ValidRequest(q)
  {
    && x.ret == 0
    && x.client.length == 24 + |r.payload| && x.client.code == r.header.command
    && AdbCalls.Holds(EncodeHeader(r.header) + r.payload, q.len, q.data, x.client.data)
    && x.client.channel.inbox == later
  }

  /** A call is served its own reply exactly when one packet holds the payload. */
  lemma {:induction false} CallServedIff(ch: Channel, q: Request, r: Reply, later: seq<Reception>, n: nat)
    requires ValidRequest(q) && Honest(r) && Healthy(ch, n + 1) && ch.inbox == Packets(r) + later
    ensures Healthy(Performed(ch, q).client.channel, n)
    ensures Served(Performed(ch, q), q, r, later) <==> |r.payload| <= PACKET_MAX
  {
    OneTurn(ch, Turn(Encode(Build(q.call)), q.stack), n);
    OneReply(r, later, q.stack);
    if q.data.Some? {
      AdbCalls.DeliveredHolds(EncodeHeader(r.header) + r.payload, q.len, q.data.value);
    }
  }

  /** Call k of the run is served reply k, and leaves the stream at reply k + 1. */
  predicate ServedAt(rs: seq<Return>, qs: seq<Request>, replies: seq<Reply>, rest: seq<Reception>, k: nat)
    requires ValidRequests(qs) && k < |qs| == |rs| == |replies|
  {
    Served(rs[k], qs[k], replies[k], Script(replies[k + 1..]) + rest)
  }

  predicate AllServed(rs: seq<Return>, qs: seq<Request>, replies: seq<Reply>, rest: seq<Reception>)
    requires ValidRequests(qs) && |qs| == |rs| == |replies|
  {
    forall k :: 0 <= k < |qs| ==> ServedAt(rs, qs, replies, rest, k)
  }

  lemma {:induction false} AllServedStep(x: Return, xs: seq<Return>, qs: seq<Request>, replies: seq<Reply>,
                                         rest: seq<Reception>)
    requires ValidRequests(qs) && |xs| + 1 == |qs| == |replies|
    ensures AllServed([x] + xs, qs, replies, rest)
       <==> Served(x, qs[0], replies[0], Script(replies[1..]) + rest) && AllServed(xs, qs[1..], replies[1..], rest)
  {
    var rs := [x] + xs;
    forall k | 0 < k < |qs|
      ensures ServedAt(rs, qs, replies, rest, k) <==> ServedAt(xs, qs[1..], replies[1..], rest, k - 1)
    {
      assert replies[1..][k..] == replies[k + 1..];
    }
    assert ServedAt(rs, qs, replies, rest, 0) <==> Served(x, qs[0], replies[0], Script(replies[1..]) + rest);
    if AllServed(rs, qs, replies, rest) {
      forall k | 0 <= k < |xs| ensures ServedAt(xs, qs[1..], replies[1..], rest, k) {
        assert ServedAt(rs, qs, replies, rest, k + 1);
      }
    }
  }

  /** Over a whole run every call is served its own reply exactly when every payload fits one packet. */
  lemma {:induction false} RunServedIff(ch: Channel, qs: seq<Request>, replies: seq<Reply>, rest: seq<Reception>)
    requires |qs| == |replies| && ValidRequests(qs) && AllHonest(replies)
    requires Healthy(ch, |qs|) && ch.inbox == Script(replies) + rest
    ensures AllServed(Run(ch, qs), qs, replies, rest) <==> OnePacketEach(replies)
    decreases |qs|
  {
    if qs != [] {
      var x, later := Performed(ch, qs[0]), Script(replies[1..]) + rest;
      Associative(Packets(replies[0]), Script(replies[1..]), rest);
      CallServedIff(ch, qs[0], replies[0], later, |qs| - 1);
      AllServedStep(x, Run(x.client.channel, qs[1..]), qs, replies, rest);
      OnePacketEachStep(replies);
      if |replies[0].payload| <= PACKET_MAX {
        RunServedIff(x.client.channel, qs[1..], replies[1..], rest);
      }
    }
  }

  // ---------- What the device receives ----------

  /** The two sends of a request are its bytes, from which the call itself can be read back. */
  lemma {:induction false} DeviceReadsCall(c: Call)
    requires Sendable(c)
    ensures Concat(Transfers(Encode(Build(c)))) == Encode(Build(c))
    ensures Parse(Concat(Transfers(Encode(Build(c))))) == Some(AsRead(c))
  {
    var req := Encode(Build(c));
    ParseEncode(c);
    assert Concat([req[HEADER_LEN..]]) == req[HEADER_LEN..] + Concat([]);
    assert req[..HEADER_LEN] + req[HEADER_LEN..] == req;
    assert Concat([req]) == req + Concat([]);
  }
}
