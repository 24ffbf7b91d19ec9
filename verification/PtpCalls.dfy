/** The public PTP calls that send one command: each fills in a container and hands it over. */
module PtpCalls {
  import Prelude
  import opened Words
  import opened Bus
  import opened PtpReceiver
  import PtpTransactions
  import opened PtpRuns
  import C = PtpCommand

  /** The calls with a buffer for a data phase. */
  predicate TakesData(c: C.Command) {
    c.GetDeviceInfo? || c.GetStorageId? || c.GetStorageInfo? || c.GetObjectHandles? || c.GetObjectInfo?
    || c.GetObject? || c.GetThumb? || c.DeleteObject? || c.GetDevicePropDesc? || c.GetDevicePropValue?
    || c.SetDevicePropValue? || c.GetPartialObject?
  }

  /** The calls with a structure for response parameters. */
  predicate TakesParams(c: C.Command) {
    c.GetNumObjects? || c.CopyObject? || c.GetPartialObject?
  }

  /** The calls, by their operation codes, whose signatures have a buffer or a structure for parameters. */
  lemma {:induction false} Signatures(c: C.Command)
    ensures TakesData(c) <==>
              C.OwnCode(c) in {0x1001, 0x1004, 0x1005, 0x1007, 0x1008, 0x1009, 0x100A, 0x100B,
                               0x1014, 0x1015, 0x1016, 0x101B}
    ensures TakesParams(c) <==> C.OwnCode(c) in {0x1006, 0x101A, 0x101B}
  {
  }

  method Perform(pipe: Pipe, c: C.Command, transaction: u32, data: array?<byte>, len: nat, res: Result?,
                 rparams: array?<byte>, stack: Stack)
    returns (ret: int)
    requires (data != null ==> TakesData(c)) && (rparams != null ==> TakesParams(c))
    requires ValidStack(stack) && ValidClient(ClientOf(pipe, data, res, rparams), len)
    requires data != null ==> data != rparams
    requires Handle(ClientOf(pipe, data, res, rparams), C.Encode(c, transaction), len, false, stack).CallDone?
    modifies Changed(pipe, data, res, rparams)
    ensures Handle(old(ClientOf(pipe, data, res, rparams)), C.Encode(c, transaction), len, false, stack)
         == CallDone(ClientOf(pipe, data, res, rparams), ret)
    ensures var after := Handle(old(ClientOf(pipe, data, res, rparams)), C.Encode(c, transaction), len, false, stack);
            && after.client.channel == pipe.channel && (data != null ==> after.client.data == Prelude.Some(data[..]))
            && (res != null ==> after.client.result == Prelude.Some((res.length, res.code)))
            && (rparams != null ==> after.client.params == Prelude.Some(rparams[..]))
  {
    var container := new C.ContainerStruct();
    container.Fill(c, transaction);
    var bytes := C.EncodeHeader(container.length, container.kind, container.code, container.transaction)
                 + EncodeWords(container.params);
    ret := HandleRequest(pipe, bytes[..container.length], data, len, res, rparams, false, stack);
  }

  /**
    End to end: the caller gets the reply the device gave exactly when its transaction suits
    the call, and the device reads the command that was meant exactly when the send was not
    cut short, which the source does not look at.
   */
  lemma {:induction false} CommandAnswered(ch: Channel, c: C.Command, transaction: u32, t: Turn,
                                           x: PtpTransactions.Transaction, rest: seq<Reception>)
    requires ValidTurn(t) && PtpTransactions.GoodTransaction(x, TurnWants(t)) && t.req == C.Encode(c, transaction)
    requires Accepts(ch) && ch.inbox == PtpTransactions.Script(x) + rest
    ensures Handle(ClientAt(ch, t), t.req, t.len, false, t.stack)
         == if Suits(x, t) then CallDone(Answer(AfterSend(ch, t.req).(inbox := rest), x, t), 0) else CallUndefined
    ensures AfterSend(ch, t.req).outbox == ch.outbox + [Portion(ch, t.req)]
    ensures var number := if c.OpenSession? then 0 else transaction;
            var meant := C.Fields(1, C.WireCode(c), number, C.Params(c));
            C.Decode(Portion(ch, t.req)) == Prelude.Some(meant) <==> ch.sends[0].limit >= |t.req|
  {
    CallAnswered(ch, t, x, rest);
    C.DecodeEncode(c, transaction);
    C.CutShort(c, transaction, ch.sends[0].limit);
  }
}
