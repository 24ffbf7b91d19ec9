/** Whole runs of PTP calls against a device that plays one transaction for each. */
module PtpRuns {
  import opened Prelude
  import opened Words
  import opened Bus
  import opened PtpReceiver
  import opened PtpTransactions

  /** A call with a response phase: its request, the caller's structures, and the stack it meets. */
  datatype Turn = Turn(req: seq<byte>, result: Option<(u32, u16)>, params: Option<seq<byte>>,
                       data: Option<seq<byte>>, len: nat, stack: Stack)

  function ClientAt(ch: Channel, t: Turn): Client {
    Client(ch, t.result, t.params, t.data)
  }

  function TurnWants(t: Turn): Wants {
    Wants(t.result.Some?, t.params.Some?)
  }

  predicate ValidTurn(t: Turn) {
    ValidClient(Client(Channel([], [], []), t.result, t.params, t.data), t.len) && ValidStack(t.stack)
  }

  /** The transaction fits the buffers; without data, a stale length must not exceed the response buffer. */
  predicate Suits(x: Transaction, t: Turn) {
    && GoodTransaction(x, TurnWants(t)) && FitsBuffers(x, TurnWants(t))
    && (Contents(x.items) == [] && t.data.Some? && t.result.Some? ==>
          t.result.value.0 <= 2048 || t.len <= 2048)
  }

  // ---------- One call ----------

  function OldLength(t: Turn): u32 {
    if t.result.None? then 0 else t.result.value.0
  }

  /** What the caller's buffer receives: the first container, or, without one, what the stack held. */
  function Copied(x: Transaction, t: Turn): seq<byte>
    requires ValidTurn(t) && Suits(x, t) && t.data.Some?
  {
    if Contents(x.items) != [] then
      var first := Contents(x.items)[0];
      if |first| > t.len then first[..t.len] else first
    else t.stack.stream[..Least(OldLength(t), t.len)]
  }

  /** The caller's structures after a call answered by the transaction. */
  function Answer(ch: Channel, x: Transaction, t: Turn): Client
    requires ValidTurn(t) && Suits(x, t)
  {
    var params := if t.params.None? then [] else t.params.value;
    var e := Expected(x, TurnWants(t), OldLength(t), if t.result.None? then 0 else t.result.value.1, params);
    Client(ch,
           if t.result.None? then None else Some((e.length, e.code)),
           if t.params.None? then None else Some(e.params),
           if t.data.None? then None else Some(Overlay(Copied(x, t), t.data.value)))
  }

  lemma {:induction false} CopiedFromStream(x: Transaction, t: Turn)
    requires ValidTurn(t) && Suits(x, t) && t.data.Some?
    ensures var params := if t.params.None? then [] else t.params.value;
            var length := Expected(x, TurnWants(t), OldLength(t), 0, params).length;
            && (length <= RESPONSE_BUFFER_LEN || t.len <= RESPONSE_BUFFER_LEN)
            && Overlay(DataOf(x.items), t.stack.stream)[..Least(length, t.len)] == Copied(x, t)
  {
    if Contents(x.items) != [] {
      FirstContainer(x.items);
    } else {
      NoContentsNoData(x.items);
      assert Overlay([], t.stack.stream) == t.stack.stream;
    }
  }

  /** One call is defined exactly when its transaction suits it, reads exactly that, and delivers its reply. */
  lemma {:induction false} CallAnswered(ch: Channel, t: Turn, x: Transaction, rest: seq<Reception>)
    requires ValidTurn(t) && GoodTransaction(x, TurnWants(t)) && Accepts(ch) && ch.inbox == Script(x) + rest
    ensures Handle(ClientAt(ch, t), t.req, t.len, false, t.stack)
         == if Suits(x, t) then CallDone(Answer(AfterSend(ch, t.req).(inbox := rest), x, t), 0) else CallUndefined
  {
    var sent := ClientAt(ch, t).(channel := AfterSend(ch, t.req));
    TransactionReceived(Start(sent, t.stack), x, rest, TurnWants(t));
    if Suits(x, t) && t.data.Some? {
      CopiedFromStream(x, t);
    }
    if Contents(x.items) != [] {
      FirstContainer(x.items);
    }
  }

  /** The first bytes of one buffer over those of another, which is otherwise as before. */
  predicate Over(after: seq<byte>, first: seq<byte>, before: seq<byte>) {
    |after| == |before| && |first| <= |after| && after[..|first|] == first && after[|first|..] == before[|first|..]
  }

  predicate GivesResult(after: Option<(u32, u16)>, t: Turn, x: Transaction)
    requires GoodTransaction(x, TurnWants(t))
  {
    match t.result
    case None => after == None
    case Some((length, _)) =>
      after == Some((if Contents(x.items) != [] then FirstContainer(x.items); |Contents(x.items)[0]| else length,
                     Decode16(x.response, 6)))
  }

  predicate GivesParams(after: Option<seq<byte>>, t: Turn, x: Transaction)
    requires GoodTransaction(x, TurnWants(t))
  {
    match t.params
    case None => after == None
    case Some(p) => after.Some? && Over(after.value, x.response[12..Decode32(x.response, 0)], p)
  }

  /** The first container as far as the caller asked for it; without one, what the stack held. */
  predicate GivesData(after: Option<seq<byte>>, t: Turn, x: Transaction)
    requires ValidTurn(t) && Suits(x, t)
  {
    match t.data
    case None => after == None
    case Some(d) =>
      var c, stale := Contents(x.items), t.result.value.0;
      after.Some? && Over(after.value,
                          if c != [] then c[0][..if |c[0]| > t.len then t.len else |c[0]|]
                          else t.stack.stream[..if stale > t.len then t.len else stale],
                          d)
  }

  /** The call returned zero and gave the caller what the transaction carries, leaving the later packets unread. */
  predicate Gives(f: CallFinal, t: Turn, x: Transaction, later: seq<Reception>)
    requires ValidTurn(t) && Suits(x, t)
  {
    && f.CallDone? && f.ret == 0
    && GivesResult(f.client.result, t, x) && GivesParams(f.client.params, t, x) && GivesData(f.client.data, t, x)
    && f.client.channel.inbox == later
  }

  lemma {:induction false} OverlayIsOver(first: seq<byte>, before: seq<byte>)
    requires |first| <= |before|
    ensures Over(Overlay(first, before), first, before)
  {
  }

  lemma {:induction false} CallGives(ch: Channel, t: Turn, x: Transaction, rest: seq<Reception>)
    requires ValidTurn(t) && Suits(x, t) && Accepts(ch) && ch.inbox == Script(x) + rest
    ensures Gives(Handle(ClientAt(ch, t), t.req, t.len, false, t.stack), t, x, rest)
  {
    CallAnswered(ch, t, x, rest);
    if t.data.Some? {
      CopiedFits(x, t);
      OverlayIsOver(Copied(x, t), t.data.value);
    }
    if t.params.Some? {
      OverlayIsOver(x.response[12..Decode32(x.response, 0)], t.params.value);
    }
  }

  lemma {:induction false} CopiedFits(x: Transaction, t: Turn)
    requires ValidTurn(t) && Suits(x, t) && t.data.Some?
    ensures |Copied(x, t)| <= |t.data.value|
    ensures Contents(x.items) != [] && |Contents(x.items)[0]| <= t.len ==>
              Copied(x, t) == Contents(x.items)[0][..|Contents(x.items)[0]|]
  {
  }

  // ---------- Calls that receive nothing ----------

  /** A send that fails ends the call: it returns -1, and nothing of the caller's has changed. */
  lemma {:induction false} CallRefused(c: Client, req: seq<byte>, len: nat, dataPhase: bool, stack: Stack)
    requires ValidClient(c, len) && ValidStack(stack)
    requires c.channel.sends == [] || c.channel.sends[0].Refused?
    ensures var f := Handle(c, req, len, dataPhase, stack);
            && f.CallDone? && f.ret == -1 && f.client == c.(channel := f.client.channel)
            && f.client.channel.inbox == c.channel.inbox && f.client.channel.outbox == c.channel.outbox
  {
  }

  /** Before a data phase nothing is read; a buffer given even so is filled from the stack. */
  lemma {:induction false} CallBeforeData(c: Client, req: seq<byte>, len: nat, stack: Stack)
    requires ValidClient(c, len) && ValidStack(stack) && c.channel.sends != [] && c.channel.sends[0].Taken?
    ensures var f := Handle(c, req, len, true, stack);
            && (f.CallDone? <==> (c.data.Some? ==> c.result.value.0 <= 2048 || len <= 2048))
            && (f.CallDone? ==>
                  && f.ret == 0 && f.client.result == c.result && f.client.params == c.params
                  && f.client.channel.inbox == c.channel.inbox
                  && match c.data
                     case None => f.client.data == None
                     case Some(d) =>
                       var stale := c.result.value.0;
                       f.client.data.Some?
                       && Over(f.client.data.value, stack.stream[..if stale > len then len else stale], d))
  {
    assert Overlay([], stack.stream) == stack.stream;
  }

  /** Without data, the caller's buffer is safe from stack contents iff nothing at all is copied. */
  lemma {:induction false} UntouchedWithoutDataIff(x: Transaction, t: Turn)
    requires ValidTurn(t) && Suits(x, t) && t.data.Some? && Contents(x.items) == []
    ensures (forall k: Stack | ValidStack(k) :: Overlay(Copied(x, t.(stack := k)), t.data.value) == t.data.value)
       <==> Least(OldLength(t), t.len) == 0
  {
    var n := Least(OldLength(t), t.len);
    if n > 0 {
      var other: byte := if t.data.value[0] == 0 then 1 else 0;
      var k := t.stack.(stream := t.stack.stream[0 := other]);
      assert Overlay(Copied(x, t.(stack := k)), t.data.value)[0] == other;
    } else {
      forall k: Stack | ValidStack(k) ensures Overlay(Copied(x, t.(stack := k)), t.data.value) == t.data.value {
        assert Copied(x, t.(stack := k)) == [];
      }
    }
  }

  // ---------- Runs ----------

  predicate AllSuit(xs: seq<Transaction>, turns: seq<Turn>) {
    |xs| == |turns| && forall i :: 0 <= i < |xs| ==> ValidTurn(turns[i]) && Suits(xs[i], turns[i])
  }

  predicate ValidTurns(turns: seq<Turn>) {
    forall i :: 0 <= i < |turns| ==> ValidTurn(turns[i])
  }

  function RunScript(xs: seq<Transaction>): seq<Reception> {
    if xs == [] then [] else Script(xs[0]) + RunScript(xs[1..])
  }

  /** The results of a run of calls, each starting from the channel the one before left. */
  function Run(ch: Channel, turns: seq<Turn>): seq<CallFinal>
    requires ValidTurns(turns)
    decreases |turns|
  {
    if turns == [] then []
    else
      var f := Handle(ClientAt(ch, turns[0]), turns[0].req, turns[0].len, false, turns[0].stack);
      match f
      case CallUndefined => [f]
      case CallDone(c, _) => [f] + Run(c.channel, turns[1..])
  }

  /** The results the device means: reply k for call k, each leaving the transactions still to come. */
  function Answers(ch: Channel, xs: seq<Transaction>, turns: seq<Turn>, rest: seq<Reception>): seq<CallFinal>
    requires AllSuit(xs, turns)
    decreases |turns|
  {
    if turns == [] then []
    else
      var next := AfterSend(ch, turns[0].req).(inbox := RunScript(xs[1..]) + rest);
      [CallDone(Answer(next, xs[0], turns[0]), 0)] + Answers(next, xs[1..], turns[1..], rest)
  }

  /** Call k returns reply k, and leaves the stream at the start of transaction k + 1. */
  lemma {:induction false} RunAnswered(ch: Channel, xs: seq<Transaction>, turns: seq<Turn>, rest: seq<Reception>)
    requires AllSuit(xs, turns) && ch.inbox == RunScript(xs) + rest
    requires |ch.sends| >= |turns| && forall i :: 0 <= i < |ch.sends| ==> ch.sends[i].Taken?
    ensures Run(ch, turns) == Answers(ch, xs, turns, rest)
    decreases |turns|
  {
    if turns != [] {
      var later := RunScript(xs[1..]) + rest;
      Associative(Script(xs[0]), RunScript(xs[1..]), rest);
      CallAnswered(ch, turns[0], xs[0], later);
      RunAnswered(AfterSend(ch, turns[0].req).(inbox := later), xs[1..], turns[1..], rest);
    }
  }

  predicate AllGood(xs: seq<Transaction>, turns: seq<Turn>) {
    |xs| == |turns| && ValidTurns(turns) && forall i :: 0 <= i < |xs| ==> GoodTransaction(xs[i], TurnWants(turns[i]))
  }

  predicate AllDone(fs: seq<CallFinal>) {
    forall i :: 0 <= i < |fs| ==> fs[i].CallDone?
  }

  /** A run of well-formed transactions is defined throughout exactly when each suits its call. */
  lemma {:induction false} RunDefinedIff(ch: Channel, xs: seq<Transaction>, turns: seq<Turn>, rest: seq<Reception>)
    requires AllGood(xs, turns) && ch.inbox == RunScript(xs) + rest
    requires |ch.sends| >= |turns| && forall i :: 0 <= i < |ch.sends| ==> ch.sends[i].Taken?
    ensures AllDone(Run(ch, turns)) <==> AllSuit(xs, turns)
    decreases |turns|
  {
    if turns != [] {
      var later := RunScript(xs[1..]) + rest;
      Associative(Script(xs[0]), RunScript(xs[1..]), rest);
      CallAnswered(ch, turns[0], xs[0], later);
      if Suits(xs[0], turns[0]) {
        var next := AfterSend(ch, turns[0].req).(inbox := later);
        RunDefinedIff(next, xs[1..], turns[1..], rest);
        AllSuitStep(xs, turns);
        AllDoneStep(Run(ch, turns)[0], Run(next, turns[1..]));
      } else {
        assert Run(ch, turns)[0] == CallUndefined;
      }
    }
  }

  lemma {:induction false} AllSuitStep(xs: seq<Transaction>, turns: seq<Turn>)
    requires |xs| == |turns| > 0 && ValidTurn(turns[0]) && Suits(xs[0], turns[0])
    ensures AllSuit(xs, turns) <==> AllSuit(xs[1..], turns[1..])
  {
    if AllSuit(xs[1..], turns[1..]) {
      forall i | 0 <= i < |xs| ensures ValidTurn(turns[i]) && Suits(xs[i], turns[i]) {
        assert i > 0 ==> xs[i] == xs[1..][i - 1] && turns[i] == turns[1..][i - 1];
      }
    }
  }

  lemma {:induction false} AllDoneStep(f: CallFinal, fs: seq<CallFinal>)
    requires f.CallDone?
    ensures AllDone([f] + fs) <==> AllDone(fs)
  {
    if AllDone([f] + fs) {
      forall i | 0 <= i < |fs| ensures fs[i].CallDone? {
        assert ([f] + fs)[i + 1] == fs[i];
      }
    }
  }

  /** Call k of a run gives reply k, and leaves the stream at transaction k + 1. */
  predicate GivesAt(fs: seq<CallFinal>, xs: seq<Transaction>, turns: seq<Turn>, rest: seq<Reception>, k: nat)
    requires AllSuit(xs, turns) && k < |xs| == |fs|
  {
    Gives(fs[k], turns[k], xs[k], RunScript(xs[k + 1..]) + rest)
  }

  /** Over a whole run every call gives the caller what its own transaction carries, and reads exactly that. */
  lemma {:induction false} RunGives(ch: Channel, xs: seq<Transaction>, turns: seq<Turn>, rest: seq<Reception>)
    requires AllSuit(xs, turns) && ch.inbox == RunScript(xs) + rest
    requires |ch.sends| >= |turns| && forall i :: 0 <= i < |ch.sends| ==> ch.sends[i].Taken?
    ensures |Run(ch, turns)| == |turns|
    ensures forall k :: 0 <= k < |turns| ==> GivesAt(Run(ch, turns), xs, turns, rest, k)
    decreases |turns|
  {
    if turns != [] {
      var later := RunScript(xs[1..]) + rest;
      var next := AfterSend(ch, turns[0].req).(inbox := later);
      Associative(Script(xs[0]), RunScript(xs[1..]), rest);
      CallAnswered(ch, turns[0], xs[0], later);
      CallGives(ch, turns[0], xs[0], later);
      RunGives(next, xs[1..], turns[1..], rest);
      var f := Handle(ClientAt(ch, turns[0]), turns[0].req, turns[0].len, false, turns[0].stack);
      var fs := Run(next, turns[1..]);
      assert Run(ch, turns) == [f] + fs;
      forall k | 0 <= k < |turns| ensures GivesAt(Run(ch, turns), xs, turns, rest, k) {
        if k > 0 {
          GivesShift(f, fs, xs, turns, rest, k);
        }
      }
    }
  }

  lemma {:induction false} GivesShift(f: CallFinal, fs: seq<CallFinal>, xs: seq<Transaction>, turns: seq<Turn>,
                                      rest: seq<Reception>, k: nat)
    requires AllSuit(xs, turns) && 0 < k < |xs| == |fs| + 1 && GivesAt(fs, xs[1..], turns[1..], rest, k - 1)
    ensures GivesAt([f] + fs, xs, turns, rest, k)
  {
    assert xs[1..][k..] == xs[k + 1..];
  }
}
