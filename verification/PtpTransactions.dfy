/**
  What the PTP receive loops make of a device that follows the protocol: any number of
  containers of other kinds and of data containers, the latter cut into packets in any
  way, and then one response container.
 */
module PtpTransactions {
  import opened Prelude
  import opened Words
  import opened Bus
  import opened PtpContainer
  import opened PtpReceiver

  datatype Item = Skipped(packet: Packet) | Container(chunks: seq<Packet>)

  datatype Transaction = Transaction(items: seq<Item>, response: Packet)

  /** The length field counts the container, and no empty packet trails it. */
  predicate GoodChunks(chunks: seq<Packet>) {
    && chunks != [] && |chunks[0]| >= 6 && |chunks[|chunks| - 1]| > 0
    && Decode16(chunks[0], 4) == 2
    && Decode32(chunks[0], 0) == |Concat(chunks)|
  }

  predicate GoodItem(i: Item) {
    match i
    case Skipped(p) => |p| >= 6 && Decode16(p, 4) != 2 && Decode16(p, 4) != 3
    case Container(chunks) => GoodChunks(chunks)
  }

  predicate GoodItems(items: seq<Item>) {
    forall i :: 0 <= i < |items| ==> GoodItem(items[i])
  }

  predicate GoodResponse(p: Packet, wants: Wants) {
    && |p| >= 8 && Decode16(p, 4) == 3
    && (wants.params ==> 12 <= Decode32(p, 0) <= |p|)
  }

  /** The caller's structure has room for the parameters of the response, of which there may be five. */
  predicate ParamsFit(p: Packet, wants: Wants)
    requires GoodResponse(p, wants)
  {
    wants.params ==> Decode32(p, 0) <= 12 + 12
  }

  /** The data containers, without their cuts. */
  function Contents(items: seq<Item>): seq<seq<byte>> {
    if items == [] then []
    else (match items[0] case Skipped(_) => [] case Container(chunks) => [Concat(chunks)]) + Contents(items[1..])
  }

  function BytesOf(i: Item): seq<byte> {
    match i
    case Skipped(_) => []
    case Container(chunks) => Concat(chunks)
  }

  function DataOf(items: seq<Item>): seq<byte> {
    if items == [] then [] else BytesOf(items[0]) + DataOf(items[1..])
  }

  function Deliveries(packets: seq<Packet>): seq<Reception> {
    if packets == [] then [] else [Delivery(packets[0])] + Deliveries(packets[1..])
  }

  function PacketsOf(i: Item): seq<Reception> {
    match i
    case Skipped(p) => [Delivery(p)]
    case Container(chunks) => Deliveries(chunks)
  }

  function ItemScript(items: seq<Item>): seq<Reception> {
    if items == [] then [] else PacketsOf(items[0]) + ItemScript(items[1..])
  }

  function Script(t: Transaction): seq<Reception> {
    ItemScript(t.items) + [Delivery(t.response)]
  }

  // ---------- The inner loop ----------

  /** The state after a container of these bytes, however it was cut. */
  function Gathered(s: State, bytes: seq<byte>, later: seq<Reception>, buffer: seq<byte>, wants: Wants): State
    requires Shaped(s) && |s.data| + |bytes| <= RESPONSE_BUFFER_LEN && |buffer| == PACKET_MAX
  {
    Recorded(s.(inbox := later, buffer := buffer, data := s.data + bytes), wants)
  }

  /** Whatever the cuts, the inner loop ends exactly at the end of the container. */
  lemma {:induction false} CollectChunks(s: State, n: nat, chunks: seq<Packet>, later: seq<Reception>, wants: Wants)
    requires Shaped(s) && n <= PACKET_MAX && |s.data| + n + |Concat(chunks)| <= RESPONSE_BUFFER_LEN
    requires s.inbox == Deliveries(chunks) + later && (chunks != [] ==> |chunks[|chunks| - 1]| > 0)
    ensures var r := Collect(s, n, n + |Concat(chunks)|, wants);
            r.Done? && r.state == Gathered(s, s.buffer[..n] + Concat(chunks), later, r.state.buffer, wants)
    decreases |chunks|
  {
    if chunks == [] {
      assert s.buffer[..n] + Concat(chunks) == s.buffer[..n];
      assert Deliveries(chunks) + later == later;
    } else {
      var p, t := chunks[0], AfterPacket(Stored(s, n), chunks[0]);
      ConcatPositive(chunks);
      assert Rest(s.inbox) == Deliveries(chunks[1..]) + later;
      OverlayPrefix(p, s.buffer);
      CollectChunks(t, |p|, chunks[1..], later, wants);
      Associative(s.data, s.buffer[..n], p + Concat(chunks[1..]));
    }
  }

  /**
    A container with more bytes than there is room for overruns the response buffer, however
    it is cut. One of 2^31 bytes or more never counts down to zero, and overruns it as well.
   */
  lemma {:induction false} CollectOverruns(s: State, n: nat, chunks: seq<Packet>, later: seq<Reception>,
                                           remaining: int, wants: Wants)
    requires Shaped(s) && n <= PACKET_MAX && |s.data| + n + |Concat(chunks)| > RESPONSE_BUFFER_LEN
    requires s.inbox == Deliveries(chunks) + later && (chunks != [] ==> |chunks[|chunks| - 1]| > 0)
    requires remaining == n + |Concat(chunks)| || remaining < 0
    ensures Collect(s, n, remaining, wants) == Undefined
    decreases |chunks|
  {
    if |s.data| + n <= RESPONSE_BUFFER_LEN {
      var p := chunks[0];
      ConcatPositive(chunks);
      assert Rest(s.inbox) == Deliveries(chunks[1..]) + later;
      CollectOverruns(AfterPacket(Stored(s, n), p), |p|, chunks[1..], later, remaining - n, wants);
    }
  }

  lemma {:induction false} ConcatPositive(chunks: seq<Packet>)
    requires chunks != [] && |chunks[|chunks| - 1]| > 0
    ensures |Concat(chunks)| > 0
  {
    if |chunks| > 1 {
      ConcatPositive(chunks[1..]);
    }
  }

  // ---------- The inner loop on any packets ----------

  /** The bytes of the next k packets. */
  function NextBytes(inbox: seq<Reception>, k: nat): seq<byte>
    requires AllDelivered(inbox, k)
  {
    if k == 0 then [] else inbox[0].bytes + NextBytes(inbox[1..], k - 1)
  }

  predicate AllDelivered(inbox: seq<Reception>, k: nat) {
    k <= |inbox| && forall i :: 0 <= i < k ==> inbox[i].Delivery?
  }

  /** With n bytes at hand, k more packets make up what remains, and no fewer do, within the room there is. */
  predicate EndsAfter(s: State, n: nat, remaining: int, k: nat) {
    && AllDelivered(s.inbox, k) && n + |NextBytes(s.inbox, k)| == remaining && |s.data| + remaining <= 2048
    && forall j: nat :: j < k ==> n + |NextBytes(s.inbox, j)| != remaining
  }

  lemma {:induction false} EndsAfterStep(s: State, n: nat, remaining: int, k: nat)
    requires Shaped(s) && n <= PACKET_MAX && |s.data| + n <= RESPONSE_BUFFER_LEN && remaining != n
    requires s.inbox != [] && s.inbox[0].Delivery?
    ensures var p := s.inbox[0].bytes;
            EndsAfter(s, n, remaining, k + 1) <==> EndsAfter(AfterPacket(Stored(s, n), p), |p|, remaining - n, k)
  {
    var p, t := s.inbox[0].bytes, AfterPacket(Stored(s, n), s.inbox[0].bytes);
    assert AllDelivered(s.inbox, k + 1) <==> AllDelivered(t.inbox, k);
    if EndsAfter(s, n, remaining, k + 1) {
      forall j: nat | j < k ensures |p| + |NextBytes(t.inbox, j)| != remaining - n {
        assert n + |NextBytes(s.inbox, j + 1)| != remaining;
      }
    }
    if EndsAfter(t, |p|, remaining - n, k) {
      forall j: nat | j < k + 1 ensures n + |NextBytes(s.inbox, j)| != remaining {
        assert j > 0 ==> |p| + |NextBytes(t.inbox, j - 1)| != remaining - n;
      }
    }
  }

  /**
    On any packets whatever: the inner loop ends exactly where the packets add up to the
    announced length, never where they only pass it, and has collected exactly those.
   */
  lemma {:induction false} CollectEnds(s: State, n: nat, remaining: int, k: nat, wants: Wants)
    requires Shaped(s) && n <= PACKET_MAX && EndsAfter(s, n, remaining, k)
    ensures var r := Collect(s, n, remaining, wants);
            && r.Done? && r.state.inbox == s.inbox[k..]
            && r.state.data == s.data + (s.buffer[..n] + NextBytes(s.inbox, k))
            && r.state.length == (if wants.result then Decode32(Overlay(r.state.data, s.stream), 0) else s.length)
            && r.state.code == s.code && r.state.params == s.params
    decreases k
  {
    if k == 0 {
      assert s.buffer[..n] + [] == s.buffer[..n];
    } else {
      var p, t := s.inbox[0].bytes, AfterPacket(Stored(s, n), s.inbox[0].bytes);
      assert n + |NextBytes(s.inbox, 0)| != remaining;
      EndsAfterStep(s, n, remaining, k - 1);
      CollectEnds(t, |p|, remaining - n, k - 1, wants);
      OverlayPrefix(p, s.buffer);
      Associative(s.data, s.buffer[..n], p + NextBytes(s.inbox[1..], k - 1));
    }
  }

  lemma {:induction false} CollectEndsIff(s: State, n: nat, remaining: int, wants: Wants)
    requires Shaped(s) && n <= PACKET_MAX
    ensures Collect(s, n, remaining, wants).Done? <==> exists k: nat :: EndsAfter(s, n, remaining, k)
    decreases |s.inbox|
  {
    if remaining == n && |s.data| + n <= RESPONSE_BUFFER_LEN {
      assert EndsAfter(s, n, remaining, 0);
    } else if |s.data| + n <= RESPONSE_BUFFER_LEN && NextReception(s.inbox).Delivery? {
      var p, t := s.inbox[0].bytes, AfterPacket(Stored(s, n), s.inbox[0].bytes);
      var next, rest := |p|, remaining - n;
      CollectEndsIff(t, next, rest, wants);
      if k: nat :| EndsAfter(t, next, rest, k) {
        EndsAfterStep(s, n, remaining, k);
      }
      if k: nat :| EndsAfter(s, n, remaining, k) {
        EndsAfterStep(s, n, remaining, k - 1);
      }
    }
  }

  // ---------- The outer loop ----------

  predicate Ready(s: State, wants: Wants) {
    Shaped(s) && (wants.params ==> |s.params| == PARAMS_LEN)
  }

  lemma {:induction false} ReceiveSkipped(s: State, p: Packet, later: seq<Reception>, wants: Wants)
    requires Ready(s, wants) && GoodItem(Skipped(p)) && s.inbox == [Delivery(p)] + later
    ensures Receive(s, wants) == Receive(s.(inbox := later, buffer := Overlay(p, s.buffer)), wants)
  {
    assert Rest(s.inbox) == later;
  }

  lemma {:induction false} ReceiveContainer(s: State, chunks: seq<Packet>, later: seq<Reception>, wants: Wants)
    returns (buffer: seq<byte>)
    requires Ready(s, wants) && GoodChunks(chunks) && s.inbox == Deliveries(chunks) + later
    requires |s.data| + |Concat(chunks)| <= RESPONSE_BUFFER_LEN
    ensures |buffer| == PACKET_MAX && (|chunks| == 1 ==> buffer == Overlay(chunks[0], s.buffer))
    ensures Receive(s, wants) == Receive(Gathered(s, Concat(chunks), later, buffer, wants), wants)
  {
    var t := FirstChunk(s, chunks, later);
    CollectChunks(t, |chunks[0]|, chunks[1..], later, wants);
    OverlayPrefix(chunks[0], s.buffer);
    buffer := Collect(t, |chunks[0]|, |Concat(chunks)|, wants).state.buffer;
  }

  /** The first packet of a container shows its kind and length, however short it is. */
  lemma {:induction false} FirstChunk(s: State, chunks: seq<Packet>, later: seq<Reception>) returns (t: State)
    requires Shaped(s) && GoodChunks(chunks) && s.inbox == Deliveries(chunks) + later
    ensures NextReception(s.inbox) == Delivery(chunks[0]) && t == AfterPacket(s, chunks[0])
    ensures t.inbox == Deliveries(chunks[1..]) + later
    ensures Kind(t.buffer) == DATA_BLOCK && LengthField(t.buffer) == |Concat(chunks)|
    ensures |Concat(chunks)| == |chunks[0]| + |Concat(chunks[1..])|
  {
    HeadTail(Delivery(chunks[0]), Deliveries(chunks[1..]), later);
    DecodeOverlay(chunks[0], s.buffer, 4);
    DecodeOverlay(chunks[0], s.buffer, 0);
    t := AfterPacket(s, chunks[0]);
  }

  lemma {:induction false} ContainerOverruns(s: State, chunks: seq<Packet>, later: seq<Reception>, wants: Wants)
    requires Ready(s, wants) && GoodChunks(chunks) && s.inbox == Deliveries(chunks) + later
    requires |s.data| + |Concat(chunks)| > RESPONSE_BUFFER_LEN
    ensures Receive(s, wants) == Undefined
  {
    var t := FirstChunk(s, chunks, later);
    CollectOverruns(t, |chunks[0]|, chunks[1..], later, AsSigned(|Concat(chunks)|), wants);
  }

  lemma {:induction false} ReceiveResponse(s: State, p: Packet, later: seq<Reception>, wants: Wants)
    requires Ready(s, wants) && GoodResponse(p, wants) && s.inbox == [Delivery(p)] + later
    ensures Receive(s, wants) == if ParamsFit(p, wants) then Done(Answered(s, p, later, wants)) else Undefined
  {
    assert Rest(s.inbox) == later;
    assert wants.params ==> Overlay(p, s.buffer)[HEADER_LEN..Decode32(p, 0)] == p[HEADER_LEN..Decode32(p, 0)];
  }

  /** The response container gives the code and the parameters. */
  function Answered(s: State, p: Packet, later: seq<Reception>, wants: Wants): State
    requires Ready(s, wants) && GoodResponse(p, wants) && ParamsFit(p, wants)
  {
    s.(inbox := later, buffer := Overlay(p, s.buffer),
       code := if wants.result then Decode16(p, 6) else s.code,
       params := if wants.params then Overlay(p[HEADER_LEN..Decode32(p, 0)], s.params) else s.params)
  }

  /** The length reported: that of the first container collected, or whatever it was before. */
  function LengthAfter(s: State, items: seq<Item>, wants: Wants): u32
    requires Shaped(s) && |s.data| + |DataOf(items)| <= RESPONSE_BUFFER_LEN
  {
    if wants.result && Contents(items) != [] then Decode32(Overlay(s.data + DataOf(items), s.stream), 0)
    else s.length
  }

  lemma {:induction false} NoContentsNoData(items: seq<Item>)
    requires Contents(items) == []
    ensures DataOf(items) == []
  {
    if items != [] {
      assert items[0].Skipped?;
      NoContentsNoData(items[1..]);
    }
  }

  lemma {:induction false} FirstItem(items: seq<Item>, more: seq<Reception>)
    requires items != []
    ensures ItemScript(items) + more == PacketsOf(items[0]) + (ItemScript(items[1..]) + more)
    ensures DataOf(items) == BytesOf(items[0]) + DataOf(items[1..])
    ensures items[0].Skipped? ==> DataOf(items) == DataOf(items[1..])
  {
    Associative(PacketsOf(items[0]), ItemScript(items[1..]), more);
    EmptyFirst(DataOf(items[1..]));
  }

  /** What a whole transaction leaves, for any cutting of its containers. */
  lemma {:induction false} ReceiveItems(s: State, items: seq<Item>, response: Packet, rest: seq<Reception>,
                                        wants: Wants)
    requires Ready(s, wants) && GoodItems(items) && GoodResponse(response, wants) && ParamsFit(response, wants)
    requires |s.data| + |DataOf(items)| <= RESPONSE_BUFFER_LEN
    requires s.inbox == ItemScript(items) + ([Delivery(response)] + rest)
    ensures var r := Receive(s, wants);
            && r.Done?
            && r.state.inbox == rest
            && r.state.data == s.data + DataOf(items)
            && r.state.length == LengthAfter(s, items, wants)
            && r.state.code == (if wants.result then Decode16(response, 6) else s.code)
            && r.state.params == (if wants.params then Overlay(response[HEADER_LEN..Decode32(response, 0)], s.params)
                                  else s.params)
    decreases |items|
  {
    if items == [] {
      assert s.inbox == [Delivery(response)] + rest && s.data + DataOf(items) == s.data;
      ReceiveResponse(s, response, rest, wants);
    } else {
      var later := ItemScript(items[1..]) + ([Delivery(response)] + rest);
      FirstItem(items, [Delivery(response)] + rest);
      match items[0] {
        case Skipped(p) =>
          ReceiveSkipped(s, p, later, wants);
          ReceiveItems(s.(inbox := later, buffer := Overlay(p, s.buffer)), items[1..], response, rest, wants);
        case Container(chunks) =>
          var buffer := ReceiveContainer(s, chunks, later, wants);
          var u := Gathered(s, Concat(chunks), later, buffer, wants);
          ReceiveItems(u, items[1..], response, rest, wants);
          Associative(s.data, Concat(chunks), DataOf(items[1..]));
          if Contents(items[1..]) == [] {
            NoContentsNoData(items[1..]);
            assert s.data + DataOf(items) == u.data;
          }
      }
    }
  }

  /** More data than the response buffer holds, or more parameters than the caller's structure, overrun it. */
  lemma {:induction false} ItemsOverrun(s: State, items: seq<Item>, response: Packet, rest: seq<Reception>,
                                        wants: Wants)
    requires Ready(s, wants) && GoodItems(items) && GoodResponse(response, wants)
    requires !ParamsFit(response, wants) || |s.data| + |DataOf(items)| > RESPONSE_BUFFER_LEN
    requires s.inbox == ItemScript(items) + ([Delivery(response)] + rest)
    ensures Receive(s, wants) == Undefined
    decreases |items|
  {
    if items == [] {
      assert s.inbox == [Delivery(response)] + rest;
      ReceiveResponse(s, response, rest, wants);
    } else {
      var later := ItemScript(items[1..]) + ([Delivery(response)] + rest);
      FirstItem(items, [Delivery(response)] + rest);
      match items[0] {
        case Skipped(p) =>
          ReceiveSkipped(s, p, later, wants);
          ItemsOverrun(s.(inbox := later, buffer := Overlay(p, s.buffer)), items[1..], response, rest, wants);
        case Container(chunks) =>
          if |s.data| + |Concat(chunks)| > RESPONSE_BUFFER_LEN {
            ContainerOverruns(s, chunks, later, wants);
          } else {
            var buffer := ReceiveContainer(s, chunks, later, wants);
            var u := Gathered(s, Concat(chunks), later, buffer, wants);
            assert |u.data| + |DataOf(items[1..])| == |s.data| + |DataOf(items)|;
            ItemsOverrun(u, items[1..], response, rest, wants);
          }
      }
    }
  }

  // ---------- Transactions ----------

  predicate GoodTransaction(t: Transaction, wants: Wants) {
    GoodItems(t.items) && GoodResponse(t.response, wants)
  }

  /** What the source's buffers have room for; the protocol sets no such limits. */
  predicate FitsBuffers(t: Transaction, wants: Wants)
    requires GoodTransaction(t, wants)
  {
    |DataOf(t.items)| <= 2048 && ParamsFit(t.response, wants)
  }

  /** What the loops report for a transaction, whatever the packets it came in. */
  datatype Report = Report(data: seq<byte>, length: u32, code: u16, params: seq<byte>)

  function Expected(t: Transaction, wants: Wants, length: u32, code: u16, params: seq<byte>): Report
    requires GoodTransaction(t, wants) && FitsBuffers(t, wants) && (wants.params ==> |params| == PARAMS_LEN)
  {
    Report(DataOf(t.items),
           if wants.result && Contents(t.items) != [] then FirstContainer(t.items); |Contents(t.items)[0]| else length,
           if wants.result then Decode16(t.response, 6) else code,
           if wants.params then Overlay(t.response[HEADER_LEN..Decode32(t.response, 0)], params) else params)
  }

  function ReportOf(s: State): Report {
    Report(s.data, s.length, s.code, s.params)
  }

  /** The first container opens the data, and says its own length. */
  lemma {:induction false} FirstContainer(items: seq<Item>)
    requires GoodItems(items) && Contents(items) != []
    ensures var c := Contents(items)[0];
            4 <= |c| <= |DataOf(items)| && c <= DataOf(items) && Decode32(DataOf(items), 0) == |c|
  {
    match items[0] {
      case Skipped(_) =>
        assert Contents(items) == Contents(items[1..]) && DataOf(items) == DataOf(items[1..]);
        FirstContainer(items[1..]);
      case Container(chunks) =>
        assert GoodItem(items[0]) && Contents(items)[0] == Concat(chunks);
        assert Concat(chunks) == chunks[0] + Concat(chunks[1..]);
    }
  }

  /**
    The receive loops come to a defined end exactly when the transaction fits the buffers,
    and then have consumed exactly the transaction and report exactly what it carries.
   */
  lemma {:induction false} TransactionReceived(s: State, t: Transaction, rest: seq<Reception>, wants: Wants)
    requires Ready(s, wants) && s.data == [] && GoodTransaction(t, wants) && s.inbox == Script(t) + rest
    ensures Receive(s, wants).Done? <==> FitsBuffers(t, wants)
    ensures var r := Receive(s, wants);
            r.Done? ==> r.state.inbox == rest && ReportOf(r.state) == Expected(t, wants, s.length, s.code, s.params)
  {
    Associative(ItemScript(t.items), [Delivery(t.response)], rest);
    if FitsBuffers(t, wants) {
      ReceiveItems(s, t.items, t.response, rest, wants);
      assert [] + DataOf(t.items) == DataOf(t.items);
      if Contents(t.items) != [] {
        FirstContainer(t.items);
      }
    } else {
      ItemsOverrun(s, t.items, t.response, rest, wants);
    }
  }

  lemma {:induction false} DataIsContents(items: seq<Item>)
    ensures DataOf(items) == Concat(Contents(items))
  {
    if items != [] {
      DataIsContents(items[1..]);
      match items[0] {
        case Skipped(_) =>
          assert Contents(items) == Contents(items[1..]);
        case Container(chunks) =>
          assert Contents(items)[1..] == Contents(items[1..]);
      }
    }
  }

  /** Two ways of cutting the same containers, with whatever else between, are reported alike. */
  lemma {:induction false} CuttingIrrelevant(s1: State, s2: State, t1: Transaction, t2: Transaction,
                                             rest1: seq<Reception>, rest2: seq<Reception>, wants: Wants)
    requires Ready(s1, wants) && s1.data == [] && GoodTransaction(t1, wants) && s1.inbox == Script(t1) + rest1
    requires Ready(s2, wants) && s2.data == [] && GoodTransaction(t2, wants) && s2.inbox == Script(t2) + rest2
    requires ReportOf(s1) == ReportOf(s2)
    requires Contents(t1.items) == Contents(t2.items) && t1.response == t2.response
    ensures var r1, r2 := Receive(s1, wants), Receive(s2, wants);
            && (r1.Done? <==> r2.Done?)
            && (r1.Done? ==> ReportOf(r1.state) == ReportOf(r2.state)
                             && r1.state.inbox == rest1 && r2.state.inbox == rest2)
  {
    TransactionReceived(s1, t1, rest1, wants);
    TransactionReceived(s2, t2, rest2, wants);
    DataIsContents(t1.items);
    DataIsContents(t2.items);
  }

  // ---------- Objects of any size ----------

  /** Bytes cut into full packets and what is left. */
  function Cut(bytes: seq<byte>): (chunks: seq<Packet>)
    ensures chunks != []
  {
    if |bytes| <= PACKET_MAX then [bytes] else [bytes[..PACKET_MAX]] + Cut(bytes[PACKET_MAX..])
  }

  lemma {:induction false} CutJoins(bytes: seq<byte>)
    requires bytes != []
    ensures Concat(Cut(bytes)) == bytes && |Cut(bytes)[|Cut(bytes)| - 1]| > 0
    ensures |bytes| >= 6 ==> |Cut(bytes)[0]| >= 6 && Cut(bytes)[0][..6] == bytes[..6]
    decreases |bytes|
  {
    if |bytes| > PACKET_MAX {
      CutJoins(bytes[PACKET_MAX..]);
      assert bytes == bytes[..PACKET_MAX] + bytes[PACKET_MAX..];
    } else {
      assert Concat([bytes]) == bytes + Concat([]);
    }
  }

  /** A container whose header says its own length, with zeros for the rest. */
  function ContainerOf(n: u32, kind: u16): (c: seq<byte>)
    requires n >= 12
    ensures |c| == n
  {
    Encode32(n) + Encode16(kind) + seq(n - 6, _ => 0)
  }

  lemma {:induction false} ContainerOfFields(n: u32, kind: u16)
    requires n >= 12
    ensures Decode32(ContainerOf(n, kind), 0) == n && Decode16(ContainerOf(n, kind), 4) == kind
  {
    var zeros: seq<byte> := seq(n - 6, _ => 0);
    assert ContainerOf(n, kind) == [] + Encode32(n) + (Encode16(kind) + zeros);
    DecodeEncode32(n, [], Encode16(kind) + zeros);
    DecodeEncode16(kind, Encode32(n), zeros);
  }

  /** One data container of n bytes, and a response with a number of parameters. */
  function ObjectTransaction(n: u32, params: nat): Transaction
    requires n >= 12 && params <= 5
  {
    Transaction([Container(Cut(ContainerOf(n, 2)))], ContainerOf(12 + 4 * params, 3))
  }

  lemma {:induction false} ObjectIsGood(n: u32, params: nat, wants: Wants)
    requires n >= 12 && params <= 5
    ensures GoodTransaction(ObjectTransaction(n, params), wants)
    ensures |DataOf(ObjectTransaction(n, params).items)| == n
    ensures Decode32(ObjectTransaction(n, params).response, 0) == 12 + 4 * params
  {
    var c, chunks := ContainerOf(n, 2), Cut(ContainerOf(n, 2));
    CutJoins(c);
    ContainerOfFields(n, 2);
    ContainerOfFields(12 + 4 * params, 3);
    assert forall i :: 0 <= i < 6 ==> chunks[0][i] == chunks[0][..6][i] == c[..6][i] == c[i];
    assert DataOf([Container(chunks)]) == Concat(chunks) + DataOf([]);
  }

  /** Of objects of any size, and responses with any parameters, exactly the small ones are received. */
  lemma {:induction false} ObjectReceivedIff(s: State, n: u32, params: nat, rest: seq<Reception>, wants: Wants)
    requires n >= 12 && params <= 5 && Ready(s, wants) && s.data == []
    requires s.inbox == Script(ObjectTransaction(n, params)) + rest
    ensures Receive(s, wants).Done? <==> n <= 2048 && (wants.params ==> params <= 3)
  {
    ObjectIsGood(n, params, wants);
    TransactionReceived(s, ObjectTransaction(n, params), rest, wants);
  }

  // ---------- A trailing empty packet ----------

  lemma {:induction false} CollectGrows(s: State, n: nat, remaining: int, wants: Wants)
    requires Shaped(s) && n <= PACKET_MAX
    ensures Collect(s, n, remaining, wants).Done? ==>
              |Collect(s, n, remaining, wants).state.data| >= |s.data| + n
    decreases |s.inbox|
  {
    if |s.data| + n <= RESPONSE_BUFFER_LEN && remaining != n && NextReception(s.inbox).Delivery? {
      var p := NextReception(s.inbox).bytes;
      CollectGrows(AfterPacket(Stored(s, n), p), |p|, remaining - n, wants);
    }
  }

  lemma {:induction false} ReceiveGrows(s: State, wants: Wants)
    requires Ready(s, wants)
    ensures Receive(s, wants).Done? ==> |Receive(s, wants).state.data| >= |s.data|
    decreases |s.inbox|
  {
    if NextReception(s.inbox).Delivery? {
      var p := NextReception(s.inbox).bytes;
      var t := AfterPacket(s, p);
      if Kind(t.buffer) == DATA_BLOCK {
        CollectGrows(t, |p|, AsSigned(LengthField(t.buffer)), wants);
        match Collect(t, |p|, AsSigned(LengthField(t.buffer)), wants) {
          case Undefined =>
          case Done(u) => ReceiveGrows(u, wants);
        }
      } else if Kind(t.buffer) != RESPONSE_BLOCK {
        ReceiveGrows(t, wants);
      }
    }
  }

  /** The bytes an empty packet leaves in the receive buffer name neither data nor a response. */
  predicate StaleHeaderHarmless(buffer: seq<byte>)
    requires |buffer| == PACKET_MAX
  {
    if Decode16(buffer, 4) == 2 then Decode32(buffer, 0) == 0 else Decode16(buffer, 4) != 3
  }

  /**
    After a data container, an empty packet is read as whatever header the last packet left
    in the receive buffer. It goes unnoticed exactly when that stale header is harmless.
   */
  lemma {:induction false} EmptyPacketHarmlessIff(s: State, response: Packet, rest: seq<Reception>, wants: Wants)
    requires Ready(s, wants) && Recorded(s, wants) == s
    requires GoodResponse(response, wants) && ParamsFit(response, wants)
    requires s.inbox == [Delivery(response)] + rest
    ensures Receive(s.(inbox := [Delivery([])] + s.inbox), wants) == Receive(s, wants)
       <==> StaleHeaderHarmless(s.buffer)
  {
    var z := s.(inbox := [Delivery([])] + s.inbox);
    assert Rest(z.inbox) == s.inbox && Overlay([], s.buffer) == s.buffer;
    ReceiveResponse(s, response, rest, wants);
    assert AfterPacket(z, []) == s;
    if Kind(s.buffer) == DATA_BLOCK {
      EmptyPacketAsData(s, response, rest, wants);
    }
  }

  lemma {:induction false} EmptyPacketAsData(s: State, response: Packet, rest: seq<Reception>, wants: Wants)
    requires Ready(s, wants) && Recorded(s, wants) == s
    requires GoodResponse(response, wants) && ParamsFit(response, wants)
    requires s.inbox == [Delivery(response)] + rest
    ensures var r := Collect(s, 0, AsSigned(LengthField(s.buffer)), wants);
            if LengthField(s.buffer) == 0 then r == Done(s)
            else r.Done? ==> Receive(r.state, wants).Done? ==> |Receive(r.state, wants).state.data| > |s.data|
  {
    assert Stored(s, 0) == s;
    var remaining := AsSigned(LengthField(s.buffer));
    if remaining != 0 {
      CollectGrows(AfterPacket(s, response), |response|, remaining, wants);
      match Collect(s, 0, remaining, wants) {
        case Undefined =>
        case Done(u) => ReceiveGrows(u, wants);
      }
    }
  }

  lemma {:induction false} ReceiveOneChunk(s: State, c: Packet, later: seq<Reception>, wants: Wants)
    requires Ready(s, wants) && GoodChunks([c]) && |s.data| + |c| <= RESPONSE_BUFFER_LEN
    ensures Receive(s.(inbox := [Delivery(c)] + later), wants)
         == Receive(Gathered(s, c, later, Overlay(c, s.buffer), wants), wants)
  {
    var s1 := s.(inbox := [Delivery(c)] + later);
    assert Concat([c]) == c + Concat([]) == c && Deliveries([c]) == [Delivery(c)] + Deliveries([]) == [Delivery(c)];
    var buffer := ReceiveContainer(s1, [c], later, wants);
    assert Gathered(s1, c, later, buffer, wants) == Gathered(s, c, later, buffer, wants);
  }

  /** So an empty packet after a container of a single packet is always taken for more data. */
  lemma {:induction false} EmptyPacketAfterOneChunk(s: State, c: Packet, response: Packet, rest: seq<Reception>,
                                                    wants: Wants)
    requires Ready(s, wants) && GoodChunks([c]) && |s.data| + |c| <= RESPONSE_BUFFER_LEN
    requires GoodResponse(response, wants) && ParamsFit(response, wants)
    ensures var more := [Delivery(response)] + rest;
            Receive(s.(inbox := [Delivery(c)] + ([Delivery([])] + more)), wants)
            != Receive(s.(inbox := [Delivery(c)] + more), wants)
  {
    var more := [Delivery(response)] + rest;
    ReceiveOneChunk(s, c, more, wants);
    ReceiveOneChunk(s, c, [Delivery([])] + more, wants);
    DecodeOverlay(c, s.buffer, 4);
    DecodeOverlay(c, s.buffer, 0);
    EmptyPacketHarmlessIff(Gathered(s, c, more, Overlay(c, s.buffer), wants), response, rest, wants);
  }
}
