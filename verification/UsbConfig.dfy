/** Configurations as devices send them, and what the parser and the dump make of their bytes. */
module UsbConfig {
  import opened Prelude
  import opened Words
  import opened UsbWalk
  import opened UsbTree
  import opened UsbParser
  import opened UsbLayout

  /** A descriptor says its own length, and is at least as long as those of its kind. */
  predicate Raw(r: seq<byte>) {
    2 <= |r| <= 0xFF && r[0] == |r|
    && (r[1] == 4 ==> |r| >= 9) && (r[1] == 5 ==> |r| >= 7) && (r[1] == 11 ==> |r| >= 8)
  }

  predicate AllRaw(rs: seq<seq<byte>>) {
    forall k :: 0 <= k < |rs| ==> Raw(rs[k])
  }

  /** The interfaces and endpoints among the descriptors, cut to the size of their kind. */
  function RawPieces(rs: seq<seq<byte>>): seq<Piece>
    requires AllRaw(rs)
  {
    if rs == [] then [] else RawPiece(rs[0]) + RawPieces(rs[1..])
  }

  function RawPiece(r: seq<byte>): seq<Piece>
    requires Raw(r)
  {
    if r[1] == 4 then [Piece(4, r[..9])] else if r[1] == 5 then [Piece(5, r[..7])] else []
  }

  /** A configuration descriptor whose total length counts the descriptors that follow it. */
  predicate Configuration(header: seq<byte>, rs: seq<seq<byte>>) {
    |header| == 9 && AllRaw(rs) && header[2] as int + 0x100 * header[3] as int == 9 + |Concat(rs)|
  }

  function Serialised(header: seq<byte>, rs: seq<seq<byte>>, after: seq<byte>): seq<byte> {
    header + Concat(rs) + after
  }

  /** Where a walk ends. */
  function EndOf(w: Walker, src: seq<byte>, i: nat, total: nat): nat
    requires Walkable(w, src, i, total)
    decreases total - i
  {
    if i >= total then i else EndOf(w, src, i + src[i], total)
  }

  predicate HoldsAt(src: seq<byte>, i: nat, bytes: seq<byte>) {
    i + |bytes| <= |src| && src[i..i + |bytes|] == bytes
  }

  lemma {:induction false} FirstAt(w: Walker, src: seq<byte>, i: nat, r: seq<byte>, rest: seq<byte>)
    requires Raw(r) && HoldsAt(src, i, r + rest)
    ensures src[i] == |r| && src[i + 1] == r[1] && HoldsAt(src, i + |r|, rest)
    ensures i + CopySize(w, r[1]) <= |src|
    ensures var d := DescriptorAt(w, src, i);
            RawPiece(r) == PiecesOne(d)
  {
    var s := src[i..i + |r + rest|];
    assert s[0] == r[0] && s[1] == r[1];
    var n := CopySize(w, r[1]);
    assert s[|r|..] == rest && src[i..i + n] == s[..n] == r[..n];
  }

  /** Either walk ends exactly after the descriptors that are there. */
  lemma {:induction false} WalkEndsAfter(w: Walker, src: seq<byte>, i: nat, rs: seq<seq<byte>>, total: nat)
    requires AllRaw(rs) && HoldsAt(src, i, Concat(rs)) && total == i + |Concat(rs)|
    ensures Walkable(w, src, i, total) && EndOf(w, src, i, total) == total
    decreases |rs|
  {
    if rs != [] {
      FirstAt(w, src, i, rs[0], Concat(rs[1..]));
      WalkEndsAfter(w, src, i + |rs[0]|, rs[1..], total);
    }
  }

  /** And it meets exactly those descriptors. */
  lemma {:induction false} WalkMeets(w: Walker, src: seq<byte>, i: nat, rs: seq<seq<byte>>, total: nat)
    requires AllRaw(rs) && HoldsAt(src, i, Concat(rs)) && total == i + |Concat(rs)| && Walkable(w, src, i, total)
    ensures Pieces(Seen(w, src, i, total)) == RawPieces(rs)
    decreases |rs|
  {
    if rs == [] {
      assert Seen(w, src, i, total) == [];
    } else {
      var r, rest := rs[0], rs[1..];
      FirstAt(w, src, i, r, Concat(rest));
      WalkMeets(w, src, i + |r|, rest, total);
      MeetsOne(w, src, i, total, r, RawPieces(rest));
    }
  }

  lemma {:induction false} MeetsOne(w: Walker, src: seq<byte>, i: nat, total: nat, r: seq<byte>, later: seq<Piece>)
    requires i < total && Walkable(w, src, i, total) && Raw(r) && src[i] == |r|
    requires PiecesOne(DescriptorAt(w, src, i)) == RawPiece(r)
    requires Pieces(Seen(w, src, i + |r|, total)) == later
    ensures Pieces(Seen(w, src, i, total)) == RawPiece(r) + later
  {
    PiecesOfStep(w, src, i, total);
  }

  lemma {:induction false} WalkSerialised(w: Walker, header: seq<byte>, rs: seq<seq<byte>>, after: seq<byte>)
    requires Configuration(header, rs)
    ensures var src := Serialised(header, rs, after);
            && |src| >= CONFIG_SIZE && TotalLength(src) == CONFIG_SIZE + |Concat(rs)| && InterfacesOf(src) == header[4]
            && Walkable(w, src, CONFIG_SIZE, TotalLength(src))
            && Pieces(Seen(w, src, CONFIG_SIZE, TotalLength(src))) == RawPieces(rs)
            && EndOf(w, src, CONFIG_SIZE, TotalLength(src)) == TotalLength(src)
  {
    var src := Serialised(header, rs, after);
    assert src[2] == header[2] && src[3] == header[3] && src[4] == header[4];
    assert src[CONFIG_SIZE..CONFIG_SIZE + |Concat(rs)|] == Concat(rs);
    WalkEndsAfter(w, src, CONFIG_SIZE, rs, TotalLength(src));
    WalkMeets(w, src, CONFIG_SIZE, rs, TotalLength(src));
  }

  /**
    The round trip: a configuration whose descriptors, with any others between, are those of
    a tree with matching counts, is parsed to that tree; as the code stands, exactly when
    there is at most one interface with at most one endpoint.
   */
  lemma {:induction false} ParseSerialised(header: seq<byte>, rs: seq<seq<byte>>, after: seq<byte>,
                                           tree: seq<Interface>, base: nat)
    requires Configuration(header, rs) && SizedTree(tree)
    requires RawPieces(rs) == Flatten(tree) && CountsMatch(header[4], tree)
    ensures var src := Serialised(header, rs, after);
            && |src| >= CONFIG_SIZE && TotalLength(src) == 9 + |Concat(rs)| && InterfacesOf(src) == |tree|
            && Walkable(Parser, src, 9, TotalLength(src))
            && var ps := PiecesFrom(src, 9, TotalLength(src));
            && Sized(ps)
            && var meant, written := Place(OneElement, |tree|, base, ps), Place(AsWritten, |tree|, base, ps);
            && meant.Some? && HoldsTree(OneElement, meant.value.slots, base, tree)
            && (written.Some? <==> |tree| == 0 || (|tree| == 1 && tree[0].uid[4] <= 1))
            && (written.Some? ==> HoldsTree(AsWritten, written.value.slots, base, tree))
  {
    var src := Serialised(header, rs, after);
    WalkSerialised(Parser, header, rs, after);
    PiecesAreSized(src, 9, TotalLength(src));
    var ps := PiecesFrom(src, 9, TotalLength(src));
    TreeOfFlatten(tree);
    PlacedIff(OneElement, |tree|, base, ps);
    PlacedIff(AsWritten, |tree|, base, ps);
    OneElementHasRoom(|tree|, tree);
    AsWrittenHasRoomIff(|tree|, tree);
  }

  /** The dump prints the descriptors of the same tree, in the order of its flattening. */
  lemma {:induction false} DumpSerialised(header: seq<byte>, rs: seq<seq<byte>>, after: seq<byte>, tree: seq<Interface>)
    requires Configuration(header, rs) && RawPieces(rs) == Flatten(tree)
    ensures var src := Serialised(header, rs, after);
            && |src| >= CONFIG_SIZE && TotalLength(src) == 9 + |Concat(rs)|
            && Walkable(Dumper, src, 9, TotalLength(src))
            && Pieces(Shown(Seen(Dumper, src, 9, TotalLength(src)))) == Flatten(tree)
  {
    var src := Serialised(header, rs, after);
    WalkSerialised(Dumper, header, rs, after);
    ShownPieces(Seen(Dumper, src, CONFIG_SIZE, TotalLength(src)));
  }

  /** On any bytes both can walk, the tree flattens to what the dump shows exactly without orphans. */
  lemma {:induction false} TreeMatchesDumpIff(src: seq<byte>)
    requires |src| >= CONFIG_SIZE && Walkable(Dumper, src, CONFIG_SIZE, TotalLength(src))
    ensures Walkable(Parser, src, CONFIG_SIZE, TotalLength(src))
    ensures var ps := PiecesFrom(src, CONFIG_SIZE, TotalLength(src));
            Flatten(TreeOf(ps)) == Pieces(Shown(Seen(Dumper, src, CONFIG_SIZE, TotalLength(src)))) <==> NoOrphans(ps)
  {
    var total := TotalLength(src);
    DumpableIsParsable(src, CONFIG_SIZE, total);
    WalkersAgree(src, CONFIG_SIZE, total);
    ShownPieces(Seen(Dumper, src, CONFIG_SIZE, total));
    PiecesAreTreePieces(Seen(Parser, src, CONFIG_SIZE, total));
    FlattenTreeOfIff(PiecesFrom(src, CONFIG_SIZE, total));
  }
}
