/**
  The bulk pipes of a device, scripted: the fate of every coming send and the packets of
  every coming receive are fixed in advance, and the transfers sent are recorded.
  A script that has run out is a device that is gone, so its transfers fail.
 */
module Bus {
  import opened Words

  const PACKET_MAX: nat := 512

  type Packet = p: seq<byte> | |p| <= PACKET_MAX

  datatype Reception = Failure | Delivery(bytes: Packet)

  /** A send fails, or the device takes up to a number of bytes of it. */
  datatype Fate = Refused | Taken(limit: nat)

  datatype Channel = Channel(sends: seq<Fate>, inbox: seq<Reception>, outbox: seq<seq<byte>>)

  /** Removes the next entry of a script, if there is one. */
  function Rest<T>(s: seq<T>): seq<T> {
    if s == [] then [] else s[1..]
  }

  predicate Accepts(ch: Channel) {
    ch.sends != [] && ch.sends[0].Taken?
  }

  /** What a send that does not fail transfers: all of the data, or as much as is taken. */
  function Portion(ch: Channel, data: seq<byte>): seq<byte>
    requires Accepts(ch)
  {
    if |data| > ch.sends[0].limit then data[..ch.sends[0].limit] else data
  }

  function AfterSend(ch: Channel, data: seq<byte>): Channel {
    ch.(sends := Rest(ch.sends), outbox := if Accepts(ch) then ch.outbox + [Portion(ch, data)] else ch.outbox)
  }

  function NextReception(inbox: seq<Reception>): Reception {
    if inbox == [] then Failure else inbox[0]
  }

  /** A receive buffer after a packet has arrived: what lay behind it stays. */
  function Overlay(p: seq<byte>, buffer: seq<byte>): (s: seq<byte>)
    requires |p| <= |buffer|
    ensures |s| == |buffer|
  {
    p + buffer[|p|..]
  }

  lemma {:induction false} OverlayPrefix(p: seq<byte>, buffer: seq<byte>)
    requires |p| <= |buffer|
    ensures Overlay(p, buffer)[..|p|] == p
  {
  }

  /** Fields within a packet are read from the packet, whatever lay in the buffer. */
  lemma {:induction false} DecodeOverlay(p: seq<byte>, buffer: seq<byte>, at: nat)
    requires |p| <= |buffer|
    ensures at + 2 <= |p| ==> Decode16(Overlay(p, buffer), at) == Decode16(p, at)
    ensures at + 4 <= |p| ==> Decode32(Overlay(p, buffer), at) == Decode32(p, at)
  {
  }

  lemma {:induction false} OverlayTwice(p: seq<byte>, q: seq<byte>, buffer: seq<byte>)
    requires |p| + |q| <= |buffer|
    ensures Overlay(p, buffer)[..|p|] + q + Overlay(p, buffer)[|p| + |q|..] == Overlay(p + q, buffer)
  {
  }

  class Pipe {
    var channel: Channel

    constructor (channel: Channel)
      ensures this.channel == channel
    {
      this.channel := channel;
    }

    /** usb_bulk_send: the number of bytes sent, which may be fewer than given, or -1. */
    method Send(data: seq<byte>) returns (n: int)
      modifies this
      ensures channel == AfterSend(old(channel), data)
      ensures n == if Accepts(old(channel)) then |Portion(old(channel), data)| else -1
    {
      n := if Accepts(channel) then |Portion(channel, data)| else -1;
      channel := AfterSend(channel, data);
    }

    /** usb_bulk_recv into a 512-byte buffer: the number of bytes received, or -1. */
    method Receive(buffer: array<byte>) returns (n: int)
      requires buffer.Length == PACKET_MAX
      modifies this, buffer
      ensures channel == old(channel).(inbox := Rest(old(channel).inbox))
      ensures match NextReception(old(channel.inbox))
              case Failure => n == -1 && buffer[..] == old(buffer[..])
              case Delivery(p) => n == |p| && buffer[..] == Overlay(p, old(buffer[..]))
    {
      var next := NextReception(channel.inbox);
      channel := channel.(inbox := Rest(channel.inbox));
      n := -1;
      if next.Delivery? {
        n := |next.bytes|;
        CopyInto(buffer, 0, next.bytes);
      }
    }
  }

  /** memcpy to an offset in a buffer. */
  method CopyInto(dest: array<byte>, offset: nat, source: seq<byte>)
    requires offset + |source| <= dest.Length
    modifies dest
    ensures dest[..] == old(dest[..offset]) + source + old(dest[offset + |source|..])
  {
    forall i | 0 <= i < |source| {
      dest[offset + i] := source[i];
    }
  }
}
