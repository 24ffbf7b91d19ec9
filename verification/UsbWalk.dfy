/**
  Walking the descriptors of a configuration (lib/usb/usb.c): both the tree parser and the
  dump step from one to the next by the length byte, up to the total length. Layouts and
  constants are those of sections 9.6.3, 9.6.5 and 9.6.6 of the USB 2.0 specification.
 */
module UsbWalk {
  import Prelude
  import opened Words

  const DT_INTERFACE: byte := 4
  const DT_ENDPOINT: byte := 5
  const DT_ASSOCIATION: byte := 11

  const CONFIG_SIZE: nat := 9
  const INTERFACE_SIZE: nat := 9
  const ENDPOINT_SIZE: nat := 7
  const ASSOCIATION_SIZE: nat := 8

  datatype Walker = Parser | Dumper

  /** How many bytes of a descriptor a walker copies out; those of other kinds it passes over. */
  function CopySize(w: Walker, kind: byte): nat {
    if kind == DT_INTERFACE then INTERFACE_SIZE
    else if kind == DT_ENDPOINT then ENDPOINT_SIZE
    else if kind == DT_ASSOCIATION && w.Dumper? then ASSOCIATION_SIZE
    else 0
  }

  /** What a walker sees of one descriptor: where it is, its kind, and the bytes copied. */
  datatype Descriptor = Descriptor(at: nat, kind: byte, bytes: seq<byte>)

  function TotalLength(src: seq<byte>): u16
    requires |src| >= CONFIG_SIZE
  {
    Decode16(src, 2)
  }

  /**
    All reads from offset i on stay within the source, and no length byte is zero: without
    either, what the loop does is undefined, or it never ends.
   */
  predicate Walkable(w: Walker, src: seq<byte>, i: nat, total: nat)
    decreases total - i
  {
    i < total ==>
      && i + 1 < |src| && i + CopySize(w, src[i + 1]) <= |src| && src[i] > 0
      && Walkable(w, src, i + src[i], total)
  }

  function DescriptorAt(w: Walker, src: seq<byte>, i: nat): Descriptor
    requires i + 1 < |src| && i + CopySize(w, src[i + 1]) <= |src|
  {
    Descriptor(i, src[i + 1], src[i..i + CopySize(w, src[i + 1])])
  }

  /** The descriptors seen from offset i on. */
  function Seen(w: Walker, src: seq<byte>, i: nat, total: nat): seq<Descriptor>
    requires Walkable(w, src, i, total)
    decreases total - i
  {
    if i >= total then [] else [DescriptorAt(w, src, i)] + Seen(w, src, i + src[i], total)
  }

  function Offsets(ds: seq<Descriptor>): (os: seq<nat>)
    ensures |os| == |ds| && forall k :: 0 <= k < |ds| ==> os[k] == ds[k].at
  {
    seq(|ds|, k requires 0 <= k < |ds| => ds[k].at)
  }

  /** The descriptors that belong in the tree, without their offsets. */
  datatype Piece = Piece(kind: byte, bytes: seq<byte>)

  function Pieces(ds: seq<Descriptor>): seq<Piece> {
    if ds == [] then []
    else
      var d, before := ds[|ds| - 1], Pieces(ds[..|ds| - 1]);
      if InTree(d) then before + [Piece(d.kind, d.bytes)] else before
  }

  predicate InTree(d: Descriptor) {
    d.kind == DT_INTERFACE || d.kind == DT_ENDPOINT
  }

  lemma {:induction false} PiecesConcat(a: seq<Descriptor>, b: seq<Descriptor>)
    ensures Pieces(a + b) == Pieces(a) + Pieces(b)
  {
    if b == [] {
      assert a + b == a;
    } else {
      assert (a + b)[..|a + b| - 1] == a + b[..|b| - 1];
      PiecesConcat(a, b[..|b| - 1]);
    }
  }

  // ---------- When a walk ends ----------

  /** The offset after n rounds of either loop, on a source that holds all the bytes announced. */
  function OffsetAfter(src: seq<byte>, i: nat, total: nat, n: nat): nat
    requires total <= |src|
    decreases n
  {
    if n == 0 || i >= total then i else OffsetAfter(src, i + src[i], total, n - 1)
  }

  /** No descriptor the walk meets has length zero. */
  predicate NoZeroLength(src: seq<byte>, i: nat, total: nat)
    requires total <= |src|
    decreases total - i
  {
    i < total ==> src[i] > 0 && NoZeroLength(src, i + src[i], total)
  }

  ghost predicate Ends(src: seq<byte>, i: nat, total: nat)
    requires total <= |src|
  {
    exists n: nat :: OffsetAfter(src, i, total, n) >= total
  }

  /** A walk ends exactly when it meets no descriptor of length zero. */
  lemma {:induction false} EndsIff(src: seq<byte>, i: nat, total: nat)
    requires total <= |src|
    ensures Ends(src, i, total) <==> NoZeroLength(src, i, total)
    decreases total - i
  {
    if i >= total {
      assert OffsetAfter(src, i, total, 0) >= total;
    } else if src[i] == 0 {
      forall n: nat ensures OffsetAfter(src, i, total, n) == i {
        StaysAtZero(src, i, total, n);
      }
    } else {
      var next := i + src[i];
      EndsIff(src, next, total);
      if Ends(src, next, total) {
        var n: nat :| OffsetAfter(src, next, total, n) >= total;
        assert OffsetAfter(src, i, total, n + 1) >= total;
      }
      if Ends(src, i, total) {
        var n: nat :| OffsetAfter(src, i, total, n) >= total;
        assert n > 0 && OffsetAfter(src, next, total, n - 1) >= total;
      }
    }
  }

  lemma {:induction false} StaysAtZero(src: seq<byte>, i: nat, total: nat, n: nat)
    requires i < total <= |src| && src[i] == 0
    ensures OffsetAfter(src, i, total, n) == i
  {
    if n > 0 {
      StaysAtZero(src, i, total, n - 1);
    }
  }

  // ---------- What a walk sees ----------

  /** The pieces from one offset are that descriptor's, then those from the next offset. */
  lemma {:induction false} PiecesOfStep(w: Walker, src: seq<byte>, i: nat, total: nat)
    requires Walkable(w, src, i, total) && i < total
    ensures Pieces(Seen(w, src, i, total))
         == PiecesOne(DescriptorAt(w, src, i)) + Pieces(Seen(w, src, i + src[i], total))
  {
    PrependSeen(DescriptorAt(w, src, i), Seen(w, src, i + src[i], total));
  }

  function PiecesOne(d: Descriptor): seq<Piece> {
    if InTree(d) then [Piece(d.kind, d.bytes)] else []
  }

  /** A source the dump can walk, the parser can. */
  lemma {:induction false} DumpableIsParsable(src: seq<byte>, i: nat, total: nat)
    requires Walkable(Dumper, src, i, total)
    ensures Walkable(Parser, src, i, total)
    decreases total - i
  {
    if i < total {
      DumpableIsParsable(src, i + src[i], total);
    }
  }

  predicate Increasing(ds: seq<Descriptor>, low: nat, high: nat) {
    && (forall k :: 0 <= k < |ds| ==> low <= ds[k].at < high)
    && (forall j, k :: 0 <= j < k < |ds| ==> ds[j].at < ds[k].at)
  }

  /** Every offset lies within the total length, and is further on than the one before. */
  lemma {:induction false} OffsetsIncrease(w: Walker, src: seq<byte>, i: nat, total: nat)
    requires Walkable(w, src, i, total)
    ensures Increasing(Seen(w, src, i, total), i, total)
    decreases total - i
  {
    if i < total {
      var next := i + src[i];
      var ds, rest := Seen(w, src, i, total), Seen(w, src, next, total);
      OffsetsIncrease(w, src, next, total);
      assert ds == [DescriptorAt(w, src, i)] + rest;
    }
  }

  /** Both walkers stop at the same offsets, and see the same interfaces and endpoints. */
  lemma {:induction false} WalkersAgree(src: seq<byte>, i: nat, total: nat)
    requires Walkable(Dumper, src, i, total) && Walkable(Parser, src, i, total)
    ensures Offsets(Seen(Parser, src, i, total)) == Offsets(Seen(Dumper, src, i, total))
    ensures Pieces(Seen(Parser, src, i, total)) == Pieces(Seen(Dumper, src, i, total))
    decreases total - i
  {
    if i < total {
      var next := i + src[i];
      WalkersAgree(src, next, total);
      PrependSeen(DescriptorAt(Parser, src, i), Seen(Parser, src, next, total));
      PrependSeen(DescriptorAt(Dumper, src, i), Seen(Dumper, src, next, total));
    }
  }

  lemma {:induction false} PrependSeen(d: Descriptor, ds: seq<Descriptor>)
    ensures Offsets([d] + ds) == [d.at] + Offsets(ds)
    ensures Pieces([d] + ds) == PiecesOne(d) + Pieces(ds)
  {
    PiecesConcat([d], ds);
    assert Pieces([d][..0]) == [];
  }

  /** The descriptors with something to print. */
  function Shown(ds: seq<Descriptor>): seq<Descriptor> {
    if ds == [] then []
    else if CopySize(Dumper, ds[0].kind) > 0 then [ds[0]] + Shown(ds[1..])
    else Shown(ds[1..])
  }

  /** The walk of usb_dump_device; what it prints is returned. */
  method DumpConfig(src: seq<byte>) returns (printed: seq<Descriptor>)
    requires CONFIG_SIZE <= |src| <= 4096
    requires Walkable(Dumper, src, CONFIG_SIZE, TotalLength(src))
    ensures printed == Shown(Seen(Dumper, src, CONFIG_SIZE, TotalLength(src)))
    ensures IsDump(printed, src, 9, src[2] as int + 0x100 * src[3] as int)
  {
    printed := DumpWalk(src);
    ShownIsDump(src, CONFIG_SIZE, TotalLength(src));
  }

  method DumpWalk(src: seq<byte>) returns (printed: seq<Descriptor>)
    requires CONFIG_SIZE <= |src| <= 4096
    requires Walkable(Dumper, src, CONFIG_SIZE, TotalLength(src))
    ensures printed == Shown(Seen(Dumper, src, CONFIG_SIZE, TotalLength(src)))
  {
    var total := TotalLength(src);
    var offset: u16 := CONFIG_SIZE;
    printed := [];
    ghost var all := Shown(Seen(Dumper, src, offset, total));
    while offset < total
      invariant Walkable(Dumper, src, offset, total)
      invariant all == printed + Shown(Seen(Dumper, src, offset, total))
      decreases total - offset
    {
      ShownStep(src, offset, total);
      Prelude.Associative(printed, ShownAt(src, offset), Shown(Seen(Dumper, src, offset + src[offset], total)));
      var kind := src[offset + 1];
      if kind == DT_INTERFACE || kind == DT_ENDPOINT || kind == DT_ASSOCIATION {
        printed := printed + [DescriptorAt(Dumper, src, offset)];
      }
      offset := Advance(offset, src[offset]);
    }
  }

  /** What is printed for the descriptor at an offset. */
  function ShownAt(src: seq<byte>, i: nat): seq<Descriptor>
    requires i + 1 < |src| && i + CopySize(Dumper, src[i + 1]) <= |src|
  {
    if CopySize(Dumper, src[i + 1]) > 0 then [DescriptorAt(Dumper, src, i)] else []
  }

  lemma {:induction false} ShownStep(src: seq<byte>, i: nat, total: nat)
    requires Walkable(Dumper, src, i, total) && i < total
    ensures Shown(Seen(Dumper, src, i, total)) == ShownAt(src, i) + Shown(Seen(Dumper, src, i + src[i], total))
  {
    var rest := Seen(Dumper, src, i + src[i], total);
    assert ([DescriptorAt(Dumper, src, i)] + rest)[1..] == rest;
  }

  /** An unsigned 16-bit offset moves on; within the dump's buffer it cannot wrap. */
  function Advance(offset: u16, length: byte): (r: u16)
    ensures offset < 0x1000 ==> r == offset as int + length as int
  {
    (offset as int + length as int) % 0x1_0000
  }

  // ---------- What is printed, offset by offset ----------

  /** A walk that starts at offset i stops at offset o. */
  predicate Met(src: seq<byte>, i: nat, total: nat, o: nat)
    decreases total - i
  {
    i < total && (i == o || (i < |src| && src[i] > 0 && Met(src, i + src[i], total, o)))
  }

  predicate Prints(printed: seq<Descriptor>, o: nat) {
    exists k :: 0 <= k < |printed| && printed[k].at == o
  }

  /** An interface is printed from nine bytes, an endpoint from seven, an association from eight. */
  predicate PrintedFrom(src: seq<byte>, d: Descriptor) {
    && d.at + 1 < |src| && d.kind == src[d.at + 1] && d.kind in {4, 5, 11}
    && (d.kind == 4 ==> d.at + 9 <= |src| && d.bytes == src[d.at..d.at + 9])
    && (d.kind == 5 ==> d.at + 7 <= |src| && d.bytes == src[d.at..d.at + 7])
    && (d.kind == 11 ==> d.at + 8 <= |src| && d.bytes == src[d.at..d.at + 8])
  }

  /** Every entry printed is a descriptor the walk met. */
  predicate EntriesMet(printed: seq<Descriptor>, src: seq<byte>, i: nat, total: nat) {
    forall k :: 0 <= k < |printed| ==> EntryMet(printed[k], src, i, total)
  }

  predicate EntryMet(d: Descriptor, src: seq<byte>, i: nat, total: nat) {
    Met(src, i, total, d.at) && PrintedFrom(src, d)
  }

  /** Every interface, endpoint and association the walk met is printed. */
  ghost predicate AllPrinted(printed: seq<Descriptor>, src: seq<byte>, i: nat, total: nat) {
    forall o: nat :: Met(src, i, total, o) && o + 1 < |src| && src[o + 1] in {4, 5, 11} ==> Prints(printed, o)
  }

  /** The walk prints its interfaces, endpoints and associations, each once and in order. */
  ghost predicate IsDump(printed: seq<Descriptor>, src: seq<byte>, i: nat, total: nat) {
    EntriesMet(printed, src, i, total) && AllPrinted(printed, src, i, total) && Increasing(printed, i, total)
  }

  lemma {:induction false} ShownIsDump(src: seq<byte>, i: nat, total: nat)
    requires Walkable(Dumper, src, i, total)
    ensures IsDump(Shown(Seen(Dumper, src, i, total)), src, i, total)
    decreases total - i
  {
    if i < total {
      ShownStep(src, i, total);
      ShownAtIsFirst(src, i);
      ShownIsDump(src, i + src[i], total);
      DumpStep(src, i, total, ShownAt(src, i), Shown(Seen(Dumper, src, i + src[i], total)));
    }
  }

  /** What the walk prints at offset i: one entry for a descriptor of the three kinds, nothing for others. */
  predicate FirstPrinted(first: seq<Descriptor>, src: seq<byte>, i: nat) {
    && i + 1 < |src|
    && if src[i + 1] in {4, 5, 11} then |first| == 1 && first[0].at == i && PrintedFrom(src, first[0]) else first == []
  }

  lemma {:induction false} ShownAtIsFirst(src: seq<byte>, i: nat)
    requires i + 1 < |src| && i + CopySize(Dumper, src[i + 1]) <= |src|
    ensures FirstPrinted(ShownAt(src, i), src, i)
  {
  }

  lemma {:induction false} DumpStep(src: seq<byte>, i: nat, total: nat, first: seq<Descriptor>, rest: seq<Descriptor>)
    requires i < total && FirstPrinted(first, src, i) && src[i] > 0 && IsDump(rest, src, i + src[i], total)
    ensures IsDump(first + rest, src, i, total)
  {
    EntriesStep(src, i, total, first, rest);
    AllPrintedStep(src, i, total, first, rest);
    IncreasingStep(i, i + src[i], total, first, rest);
  }

  lemma {:induction false} EntriesStep(src: seq<byte>, i: nat, total: nat, first: seq<Descriptor>,
                                       rest: seq<Descriptor>)
    requires i < total && FirstPrinted(first, src, i) && src[i] > 0 && EntriesMet(rest, src, i + src[i], total)
    ensures EntriesMet(first + rest, src, i, total)
  {
    forall k | 0 <= k < |first + rest| ensures EntryMet((first + rest)[k], src, i, total) {
      if k >= |first| {
        assert (first + rest)[k] == rest[k - |first|] && EntryMet(rest[k - |first|], src, i + src[i], total);
      }
    }
  }

  lemma {:induction false} AllPrintedStep(src: seq<byte>, i: nat, total: nat, first: seq<Descriptor>,
                                          rest: seq<Descriptor>)
    requires i < total && FirstPrinted(first, src, i) && src[i] > 0 && AllPrinted(rest, src, i + src[i], total)
    ensures AllPrinted(first + rest, src, i, total)
  {
    forall o: nat | Met(src, i, total, o) && o + 1 < |src| && src[o + 1] in {4, 5, 11} ensures Prints(first + rest, o) {
      if o == i {
        assert (first + rest)[0].at == o;
      } else {
        assert Met(src, i + src[i], total, o);
        var k :| 0 <= k < |rest| && rest[k].at == o;
        assert (first + rest)[|first| + k].at == o;
      }
    }
  }

  lemma {:induction false} IncreasingStep(i: nat, next: nat, total: nat, first: seq<Descriptor>, rest: seq<Descriptor>)
    requires i < next && i < total && Increasing(rest, next, total)
    requires first == [] || (|first| == 1 && first[0].at == i)
    ensures Increasing(first + rest, i, total)
  {
  }

  /** Where there is room for any descriptor at the last offset, a walk stays in bounds iff it ends. */
  lemma {:induction false} WalkableIff(w: Walker, src: seq<byte>, i: nat, total: nat)
    requires total + 8 <= |src|
    ensures Walkable(w, src, i, total) <==> NoZeroLength(src, i, total)
    decreases total - i
  {
    if i < total && src[i] > 0 {
      WalkableIff(w, src, i + src[i], total);
    }
  }

  /** Nothing of the tree is lost in what is printed. */
  lemma {:induction false} ShownPieces(ds: seq<Descriptor>)
    ensures Pieces(Shown(ds)) == Pieces(ds)
  {
    if ds != [] {
      ShownPieces(ds[1..]);
      PrependSeen(ds[0], ds[1..]);
      PrependSeen(ds[0], Shown(ds[1..]));
      assert ds == [ds[0]] + ds[1..];
    }
  }
}
