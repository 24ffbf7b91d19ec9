/**
  The tree parser of lib/usb/usb.c, and where it stores what it reads.

  As written, the parser advances its slot indices by the sizes of the descriptors in
  bytes where one element is meant, takes every endpoint count from the first interface,
  and sizes the endpoint arrays by a size_t where a descriptor structure is meant. The
  other layout is what that code is after: one element per step, the interface's own
  count, whole structures. The walk is the same for both.
 */
module UsbParser {
  import opened Prelude
  import opened Words
  import opened UsbWalk
  import opened UsbTree

  datatype Layout = AsWritten | OneElement

  /** sizeof of the kernel's endpoint structure, which has two bytes more than the descriptor. */
  const ENDPOINT_STRUCT_SIZE: nat := 9
  const SIZE_T_SIZE: nat := 8

  /** An allocated endpoint array: size in bytes, and the elements written so far. */
  datatype Block = Block(id: nat, size: nat, at: map<nat, seq<byte>>)

  datatype Slot = Slot(uid: seq<byte>, ued: Block)

  /** The allocated interface slots with the two running indices; nextId numbers allocations. */
  datatype Parsing = Parsing(slots: seq<Option<Slot>>, iface: nat, endp: nat, nextId: nat)

  function InterfaceStep(l: Layout): nat {
    if l.AsWritten? then INTERFACE_SIZE else 1
  }

  function EndpointStep(l: Layout): nat {
    if l.AsWritten? then ENDPOINT_SIZE else 1
  }

  function BlockSize(l: Layout, count: nat): nat {
    count * if l.AsWritten? then SIZE_T_SIZE else ENDPOINT_STRUCT_SIZE
  }

  function EndpointCount(uid: seq<byte>): nat
    requires |uid| == INTERFACE_SIZE
  {
    uid[4]
  }

  // ---------- Specification ----------

  predicate Sized(ps: seq<Piece>) {
    TreePieces(ps) && forall k :: 0 <= k < |ps| ==> SizedPiece(ps[k])
  }

  predicate SizedSlots(slots: seq<Option<Slot>>) {
    forall k :: 0 <= k < |slots| && slots[k].Some? ==> |slots[k].value.uid| == INTERFACE_SIZE
  }

  /** A new interface: none when its slot does not exist. */
  function PlaceInterface(l: Layout, p: Parsing, uid: seq<byte>): (r: Option<Parsing>)
    requires SizedSlots(p.slots) && |uid| == INTERFACE_SIZE
    ensures r.Some? ==> SizedSlots(r.value.slots) && |r.value.slots| == |p.slots|
  {
    if p.iface >= |p.slots| then None
    else
      var first := if l.OneElement? || p.iface == 0 then Some(uid)
                   else match p.slots[0] case None => None case Some(s) => Some(s.uid);
      match first
      case None => None
      case Some(f) =>
        var block := Block(p.nextId, BlockSize(l, EndpointCount(f)), map[]);
        Some(Parsing(p.slots[p.iface := Some(Slot(uid, block))], p.iface + InterfaceStep(l), 0, p.nextId + 1))
  }

  /** An endpoint goes to the slot before the next one: none when its bytes do not fit the array. */
  function PlaceEndpoint(l: Layout, p: Parsing, bytes: seq<byte>): (r: Option<Parsing>)
    requires SizedSlots(p.slots)
    ensures r.Some? ==> SizedSlots(r.value.slots) && |r.value.slots| == |p.slots|
  {
    var k := p.iface - InterfaceStep(l);
    if !(0 <= k < |p.slots|) || p.slots[k].None? then None
    else
      var slot := p.slots[k].value;
      if ENDPOINT_STRUCT_SIZE * p.endp + ENDPOINT_SIZE > slot.ued.size then None
      else
        var block := slot.ued.(at := slot.ued.at[p.endp := bytes]);
        Some(p.(slots := p.slots[k := Some(Slot(slot.uid, block))], endp := p.endp + EndpointStep(l)))
  }

  function Empty(n: nat): (s: seq<Option<Slot>>)
    ensures |s| == n && SizedSlots(s)
  {
    seq(n, _ => None)
  }

  /** The stores made for a sequence of pieces; none when one falls outside what is allocated. */
  function PlaceFrom(l: Layout, p: Parsing, ps: seq<Piece>): (r: Option<Parsing>)
    requires SizedSlots(p.slots) && Sized(ps)
    ensures r.Some? ==> SizedSlots(r.value.slots) && |r.value.slots| == |p.slots|
    decreases |ps|
  {
    if ps == [] then Some(p)
    else
      match PlacePiece(l, p, ps[0])
      case None => None
      case Some(q) => PlaceFrom(l, q, ps[1..])
  }

  /** From freshly allocated slots. */
  function Place(l: Layout, n: nat, base: nat, ps: seq<Piece>): (r: Option<Parsing>)
    requires Sized(ps)
    ensures r.Some? ==> SizedSlots(r.value.slots) && |r.value.slots| == n
  {
    PlaceFrom(l, Parsing(Empty(n), 0, 0, base), ps)
  }

  predicate SizedPiece(p: Piece) {
    if p.kind == DT_INTERFACE then |p.bytes| == INTERFACE_SIZE else p.kind == DT_ENDPOINT
  }

  function PlacePiece(l: Layout, p: Parsing, piece: Piece): (r: Option<Parsing>)
    requires SizedSlots(p.slots) && SizedPiece(piece)
    ensures r.Some? ==> SizedSlots(r.value.slots) && |r.value.slots| == |p.slots|
  {
    if piece.kind == DT_INTERFACE then PlaceInterface(l, p, piece.bytes) else PlaceEndpoint(l, p, piece.bytes)
  }

  lemma {:induction false} PlaceConcat(l: Layout, p: Parsing, ps: seq<Piece>, more: seq<Piece>)
    requires SizedSlots(p.slots) && Sized(ps) && Sized(more)
    ensures Sized(ps + more)
    ensures PlaceFrom(l, p, ps + more)
         == match PlaceFrom(l, p, ps) case None => None case Some(q) => PlaceFrom(l, q, more)
    decreases |ps|
  {
    if ps == [] {
      assert ps + more == more;
    } else {
      assert (ps + more)[1..] == ps[1..] + more;
      match PlacePiece(l, p, ps[0]) {
        case None =>
        case Some(q) => PlaceConcat(l, q, ps[1..], more);
      }
    }
  }

  // ---------- Where a tree is stored ----------

  predicate SizedTree(tree: seq<Interface>) {
    forall k :: 0 <= k < |tree| ==> |tree[k].uid| == INTERFACE_SIZE
  }

  /** The size of the endpoint array of interface k. */
  function ArraySize(l: Layout, tree: seq<Interface>, k: nat): nat
    requires SizedTree(tree) && k < |tree|
  {
    BlockSize(l, EndpointCount(tree[if l.AsWritten? then 0 else k].uid))
  }

  predicate FitsInterface(l: Layout, n: nat, tree: seq<Interface>, k: nat)
    requires SizedTree(tree) && k < |tree|
  {
    && InterfaceStep(l) * k < n
    && var m := |tree[k].endpoints|;
       m > 0 ==> ENDPOINT_STRUCT_SIZE * (EndpointStep(l) * (m - 1)) + ENDPOINT_SIZE <= ArraySize(l, tree, k)
  }

  /** Every interface has its slot and every endpoint its place. */
  predicate Fits(l: Layout, n: nat, tree: seq<Interface>)
    requires SizedTree(tree)
  {
    forall k :: 0 <= k < |tree| ==> FitsInterface(l, n, tree, k)
  }

  function Elements(l: Layout, es: seq<seq<byte>>): map<nat, seq<byte>> {
    if es == [] then map[]
    else Elements(l, es[..|es| - 1])[EndpointStep(l) * (|es| - 1) := es[|es| - 1]]
  }

  function SlotOf(l: Layout, base: nat, tree: seq<Interface>, k: nat): Slot
    requires SizedTree(tree) && k < |tree|
  {
    Slot(tree[k].uid, Block(base + k, ArraySize(l, tree, k), Elements(l, tree[k].endpoints)))
  }

  /** The slots that hold a tree: interface k at the k-th step, all others still unset. */
  function Image(l: Layout, n: nat, base: nat, tree: seq<Interface>): (s: seq<Option<Slot>>)
    requires SizedTree(tree) && Fits(l, n, tree)
    ensures |s| == n
  {
    seq(n, i requires 0 <= i < n =>
      if i % InterfaceStep(l) == 0 && i / InterfaceStep(l) < |tree|
      then Some(SlotOf(l, base, tree, i / InterfaceStep(l))) else None)
  }

  /** The parser's state once it has stored a tree. */
  function Stored(l: Layout, n: nat, base: nat, tree: seq<Interface>): (p: Parsing)
    requires SizedTree(tree) && Fits(l, n, tree)
    ensures SizedSlots(p.slots)
  {
    Parsing(Image(l, n, base, tree), InterfaceStep(l) * |tree|,
            if tree == [] then 0 else EndpointStep(l) * |tree[|tree| - 1].endpoints|, base + |tree|)
  }

  lemma {:induction false} SlotIndex(l: Layout, k: nat, i: nat)
    ensures InterfaceStep(l) * k / InterfaceStep(l) == k && InterfaceStep(l) * k % InterfaceStep(l) == 0
    ensures i % InterfaceStep(l) == 0 ==> i == InterfaceStep(l) * (i / InterfaceStep(l))
  {
  }

  lemma {:induction false} ImageAt(l: Layout, n: nat, base: nat, tree: seq<Interface>, k: nat)
    requires SizedTree(tree) && Fits(l, n, tree) && k < |tree|
    ensures InterfaceStep(l) * k < n
    ensures Image(l, n, base, tree)[InterfaceStep(l) * k] == Some(SlotOf(l, base, tree, k))
  {
    SlotIndex(l, k, 0);
    assert FitsInterface(l, n, tree, k);
  }

  // ---------- One step ----------

  lemma {:induction false} FitsWithInterface(l: Layout, n: nat, tree: seq<Interface>, uid: seq<byte>)
    requires SizedTree(tree) && |uid| == INTERFACE_SIZE
    ensures Fits(l, n, WithInterface(tree, uid)) <==> Fits(l, n, tree) && InterfaceStep(l) * |tree| < n
  {
    var t := WithInterface(tree, uid);
    forall k | 0 <= k < |tree| ensures FitsInterface(l, n, t, k) <==> FitsInterface(l, n, tree, k) {
      assert t[k] == tree[k] && t[0] == tree[0];
    }
    assert FitsInterface(l, n, t, |tree|) <==> InterfaceStep(l) * |tree| < n;
  }

  /** What one more endpoint needs in the array of interface k. */
  predicate Room(l: Layout, tree: seq<Interface>, k: nat)
    requires SizedTree(tree) && k < |tree|
  {
    ENDPOINT_STRUCT_SIZE * (EndpointStep(l) * |tree[k].endpoints|) + ENDPOINT_SIZE <= ArraySize(l, tree, k)
  }

  lemma {:induction false} FitsWithEndpoint(l: Layout, n: nat, tree: seq<Interface>, e: seq<byte>)
    requires SizedTree(tree) && tree != []
    ensures SizedTree(WithEndpoint(tree, e))
    ensures Fits(l, n, WithEndpoint(tree, e)) <==> Fits(l, n, tree) && Room(l, tree, |tree| - 1)
  {
    var t, last := WithEndpoint(tree, e), |tree| - 1;
    forall k | 0 <= k < last ensures FitsInterface(l, n, t, k) <==> FitsInterface(l, n, tree, k) {
      assert t[k] == tree[k] && t[0].uid == tree[0].uid;
    }
    assert t[last].uid == tree[last].uid && t[0].uid == tree[0].uid;
    assert |t[last].endpoints| - 1 == |tree[last].endpoints|;
    assert FitsInterface(l, n, t, last) <==> InterfaceStep(l) * last < n && Room(l, tree, last);
    assert FitsInterface(l, n, t, last) ==> FitsInterface(l, n, tree, last);
    assert FitsInterface(l, n, tree, last) ==> InterfaceStep(l) * last < n;
    if Fits(l, n, tree) && Room(l, tree, last) {
      assert FitsInterface(l, n, tree, last);
    }
  }

  lemma {:induction false} SlotOfWithInterface(l: Layout, base: nat, tree: seq<Interface>, uid: seq<byte>, k: nat)
    requires SizedTree(tree) && |uid| == INTERFACE_SIZE && k < |tree|
    ensures SlotOf(l, base, WithInterface(tree, uid), k) == SlotOf(l, base, tree, k)
  {
    var t := WithInterface(tree, uid);
    assert t[k] == tree[k] && t[0] == tree[0];
  }

  function StoredIfFits(l: Layout, n: nat, base: nat, tree: seq<Interface>): Option<Parsing>
    requires SizedTree(tree)
  {
    if Fits(l, n, tree) then Some(Stored(l, n, base, tree)) else None
  }

  lemma {:induction false} PlaceInterfaceStored(l: Layout, n: nat, base: nat, tree: seq<Interface>, uid: seq<byte>)
    requires SizedTree(tree) && Fits(l, n, tree) && |uid| == INTERFACE_SIZE
    ensures PlaceInterface(l, Stored(l, n, base, tree), uid) == StoredIfFits(l, n, base, WithInterface(tree, uid))
  {
    var t, p := WithInterface(tree, uid), Stored(l, n, base, tree);
    FitsWithInterface(l, n, tree, uid);
    if p.iface < n {
      if tree != [] {
        ImageAt(l, n, base, tree, 0);
      }
      ImageWithInterface(l, n, base, tree, uid);
    }
  }

  lemma {:induction false} ImageWithInterface(l: Layout, n: nat, base: nat, tree: seq<Interface>, uid: seq<byte>)
    requires SizedTree(tree) && Fits(l, n, tree) && |uid| == INTERFACE_SIZE && InterfaceStep(l) * |tree| < n
    ensures var t := WithInterface(tree, uid);
            && SizedTree(t) && Fits(l, n, t)
            && Image(l, n, base, t)
               == Image(l, n, base, tree)[InterfaceStep(l) * |tree| := Some(SlotOf(l, base, t, |tree|))]
  {
    FitsWithInterface(l, n, tree, uid);
    SlotIndex(l, |tree|, 0);
    var before, after := Image(l, n, base, tree), Image(l, n, base, WithInterface(tree, uid));
    forall i | 0 <= i < n && i != InterfaceStep(l) * |tree| ensures after[i] == before[i] {
      SlotIndex(l, |tree|, i);
      var k := i / InterfaceStep(l);
      if k < |tree| {
        SlotOfWithInterface(l, base, tree, uid, k);
      }
    }
  }

  lemma {:induction false} ElementsSnoc(l: Layout, es: seq<seq<byte>>, e: seq<byte>)
    ensures Elements(l, es + [e]) == Elements(l, es)[EndpointStep(l) * |es| := e]
  {
    assert (es + [e])[..|es|] == es;
  }

  lemma {:induction false} SlotOfWithEndpoint(l: Layout, base: nat, tree: seq<Interface>, e: seq<byte>, k: nat)
    requires SizedTree(tree) && k < |tree|
    ensures SizedTree(WithEndpoint(tree, e))
    ensures var s, t := SlotOf(l, base, tree, k), SlotOf(l, base, WithEndpoint(tree, e), k);
            if k < |tree| - 1 then t == s
            else t == Slot(s.uid, s.ued.(at := s.ued.at[EndpointStep(l) * |tree[k].endpoints| := e]))
  {
    var t := WithEndpoint(tree, e);
    assert t[k].uid == tree[k].uid && t[0].uid == tree[0].uid;
    if k == |tree| - 1 {
      ElementsSnoc(l, tree[k].endpoints, e);
    }
  }

  lemma {:induction false} PlaceEndpointStored(l: Layout, n: nat, base: nat, tree: seq<Interface>, e: seq<byte>)
    requires SizedTree(tree) && Fits(l, n, tree) && tree != []
    ensures SizedTree(WithEndpoint(tree, e))
    ensures PlaceEndpoint(l, Stored(l, n, base, tree), e) == StoredIfFits(l, n, base, WithEndpoint(tree, e))
  {
    var last := |tree| - 1;
    FitsWithEndpoint(l, n, tree, e);
    PlaceInLastSlot(l, n, base, tree, e);
    if Room(l, tree, last) {
      EndpointStoredIsStored(l, n, base, tree, e);
    }
  }

  lemma {:induction false} EndpointStoredIsStored(l: Layout, n: nat, base: nat, tree: seq<Interface>, e: seq<byte>)
    requires SizedTree(tree) && Fits(l, n, tree) && tree != [] && Room(l, tree, |tree| - 1)
    ensures InterfaceStep(l) * (|tree| - 1) < n
    ensures SizedTree(WithEndpoint(tree, e)) && Fits(l, n, WithEndpoint(tree, e))
    ensures EndpointStored(l, n, base, tree, e) == Stored(l, n, base, WithEndpoint(tree, e))
  {
    ImageWithEndpoint(l, n, base, tree, e);
    SlotOfWithEndpoint(l, base, tree, e, |tree| - 1);
  }

  /** A stored tree with one more endpoint in the slot of its last interface. */
  function EndpointStored(l: Layout, n: nat, base: nat, tree: seq<Interface>, e: seq<byte>): Parsing
    requires SizedTree(tree) && Fits(l, n, tree) && tree != [] && InterfaceStep(l) * (|tree| - 1) < n
  {
    var p, slot := Stored(l, n, base, tree), SlotOf(l, base, tree, |tree| - 1);
    var block := slot.ued.(at := slot.ued.at[p.endp := e]);
    p.(slots := p.slots[InterfaceStep(l) * (|tree| - 1) := Some(Slot(slot.uid, block))],
       endp := p.endp + EndpointStep(l))
  }

  /** The endpoint's slot is the last one set, and there is a place for it exactly with room. */
  lemma {:induction false} PlaceInLastSlot(l: Layout, n: nat, base: nat, tree: seq<Interface>, e: seq<byte>)
    requires SizedTree(tree) && Fits(l, n, tree) && tree != []
    ensures InterfaceStep(l) * (|tree| - 1) < n
    ensures PlaceEndpoint(l, Stored(l, n, base, tree), e)
         == if Room(l, tree, |tree| - 1) then Some(EndpointStored(l, n, base, tree, e)) else None
  {
    ImageAt(l, n, base, tree, |tree| - 1);
    StepBack(l, |tree|);
  }

  lemma {:induction false} StepBack(l: Layout, k: nat)
    ensures InterfaceStep(l) * k - InterfaceStep(l) == InterfaceStep(l) * (k - 1)
  {
  }

  lemma {:induction false} ImageWithEndpoint(l: Layout, n: nat, base: nat, tree: seq<Interface>, e: seq<byte>)
    requires SizedTree(tree) && Fits(l, n, tree) && tree != [] && Room(l, tree, |tree| - 1)
    ensures InterfaceStep(l) * (|tree| - 1) < n
    ensures var t, last := WithEndpoint(tree, e), |tree| - 1;
            && SizedTree(t) && Fits(l, n, t)
            && Image(l, n, base, t)
               == Image(l, n, base, tree)[InterfaceStep(l) * last := Some(SlotOf(l, base, t, last))]
  {
    var last := |tree| - 1;
    FitsWithEndpoint(l, n, tree, e);
    ImageAt(l, n, base, WithEndpoint(tree, e), last);
    var before, after := Image(l, n, base, tree), Image(l, n, base, WithEndpoint(tree, e));
    forall i | 0 <= i < n && i != InterfaceStep(l) * last ensures after[i] == before[i] {
      SlotIndex(l, last, i);
      var k := i / InterfaceStep(l);
      if k < |tree| {
        SlotOfWithEndpoint(l, base, tree, e, k);
      }
    }
  }

  lemma {:induction false} OrphanHasNoPlace(l: Layout, n: nat, base: nat, e: seq<byte>)
    ensures PlaceEndpoint(l, Parsing(Empty(n), 0, 0, base), e) == None
  {
  }

  // ---------- The whole stream ----------

  lemma {:induction false} TreeIsSized(ps: seq<Piece>)
    requires Sized(ps)
    ensures SizedTree(TreeOf(ps))
  {
    if ps != [] {
      TreeIsSized(ps[..|ps| - 1]);
    }
  }

  lemma {:induction false} EmptyIsStored(l: Layout, n: nat, base: nat)
    ensures Stored(l, n, base, []) == Parsing(Empty(n), 0, 0, base)
  {
    assert Image(l, n, base, []) == Empty(n);
  }

  /** Every store lies within what is allocated exactly when there are no orphans and the tree fits. */
  lemma {:induction false} PlaceIsStored(l: Layout, n: nat, base: nat, ps: seq<Piece>)
    requires Sized(ps)
    ensures SizedTree(TreeOf(ps))
    ensures Place(l, n, base, ps) == if NoOrphans(ps) then StoredIfFits(l, n, base, TreeOf(ps)) else None
  {
    TreeIsSized(ps);
    if ps == [] {
      EmptyIsStored(l, n, base);
    } else {
      var init, p := ps[..|ps| - 1], ps[|ps| - 1];
      assert ps == init + [p];
      PlaceIsStored(l, n, base, init);
      PlaceStep(l, n, base, init, p);
    }
  }

  lemma {:induction false} PlaceStep(l: Layout, n: nat, base: nat, init: seq<Piece>, p: Piece)
    requires Sized(init) && Sized(init + [p]) && SizedTree(TreeOf(init)) && SizedTree(Attach(TreeOf(init), p))
    requires Place(l, n, base, init) == if NoOrphans(init) then StoredIfFits(l, n, base, TreeOf(init)) else None
    ensures Place(l, n, base, init + [p])
         == if NoOrphans(init + [p]) then StoredIfFits(l, n, base, Attach(TreeOf(init), p)) else None
  {
    var tree := TreeOf(init);
    assert (init + [p])[|init|] == p && (init != [] ==> (init + [p])[0] == init[0]);
    PlaceConcat(l, Parsing(Empty(n), 0, 0, base), init, [p]);
    if NoOrphans(init) {
      TreeOfEmptyIff(init);
      if p.kind == DT_INTERFACE {
        FitsWithInterface(l, n, tree, p.bytes);
        if Fits(l, n, tree) {
          PlaceInterfaceStored(l, n, base, tree, p.bytes);
        }
      } else if tree != [] {
        FitsWithEndpoint(l, n, tree, p.bytes);
        if Fits(l, n, tree) {
          PlaceEndpointStored(l, n, base, tree, p.bytes);
        }
      } else {
        EmptyIsStored(l, n, base);
        OrphanHasNoPlace(l, n, base, p.bytes);
      }
    }
  }

  /** At every step of a walk that stays in bounds, what is stored is the tree of the prefix read. */
  lemma {:induction false} EveryStepStored(l: Layout, n: nat, base: nat, ps: seq<Piece>, k: nat)
    requires Sized(ps) && Place(l, n, base, ps).Some? && k <= |ps|
    ensures Sized(ps[..k]) && SizedTree(TreeOf(ps[..k])) && Fits(l, n, TreeOf(ps[..k]))
    ensures Place(l, n, base, ps[..k]) == Some(Stored(l, n, base, TreeOf(ps[..k])))
  {
    assert ps == ps[..k] + ps[k..];
    PlaceConcat(l, Parsing(Empty(n), 0, 0, base), ps[..k], ps[k..]);
    PlaceIsStored(l, n, base, ps[..k]);
  }

  // ---------- The code ----------

  /** The allocator: which blocks are live. Fresh blocks are numbered in order. */
  class Heap {
    var live: set<nat>
    var next: nat

    ghost predicate Valid()
      reads this
    {
      forall b :: b in live ==> b < next
    }

    constructor ()
      ensures Valid() && live == {} && next == 0
    {
      live, next := {}, 0;
    }

    method Allocate() returns (b: nat)
      requires Valid()
      modifies this
      ensures Valid() && b == old(next) && next == b + 1 && live == old(live) + {b}
    {
      b := next;
      live, next := live + {b}, next + 1;
    }

    method Free(b: nat)
      requires Valid() && b in live
      modifies this
      ensures Valid() && live == old(live) - {b} && next == old(next)
    {
      live := live - {b};
    }
  }

  /** A parsed configuration: its own block, the interface slots, and their block. */
  class ParsedConfig {
    const self: nat
    const slotsBlock: nat
    const ucd: seq<byte>
    const ifaced: array<Option<Slot>>

    constructor (self: nat, slotsBlock: nat, ucd: seq<byte>, n: nat)
      ensures this.self == self && this.slotsBlock == slotsBlock && this.ucd == ucd
      ensures fresh(ifaced) && ifaced[..] == Empty(n)
    {
      this.self, this.slotsBlock, this.ucd := self, slotsBlock, ucd;
      var slots := new Option<Slot>[n](_ => None);
      this.ifaced := slots;
      new;
      assert ifaced[..] == Empty(n);
    }
  }

  function InterfacesOf(src: seq<byte>): nat
    requires |src| >= CONFIG_SIZE
  {
    src[4]
  }

  /** The blocks numbered from lo up to but not including hi. */
  function Blocks(lo: nat, hi: nat): set<nat> {
    set b: nat | b < hi && Between(lo, b, hi)
  }

  predicate Between(lo: nat, b: nat, hi: nat) {
    lo <= b < hi
  }

  /** The pieces the walk meets from offset i on. */
  function PiecesFrom(src: seq<byte>, i: nat, total: nat): (ps: seq<Piece>)
    requires Walkable(Parser, src, i, total)
  {
    Pieces(Seen(Parser, src, i, total))
  }

  function PieceAt(src: seq<byte>, i: nat): Piece
    requires i + 1 < |src| && i + CopySize(Parser, src[i + 1]) <= |src|
  {
    Piece(src[i + 1], src[i..i + CopySize(Parser, src[i + 1])])
  }

  lemma {:induction false} PiecesAreSized(src: seq<byte>, i: nat, total: nat)
    requires Walkable(Parser, src, i, total)
    ensures Sized(PiecesFrom(src, i, total))
    decreases total - i
  {
    if i < total {
      PiecesOfStep(Parser, src, i, total);
      PiecesAreSized(src, i + src[i], total);
    }
  }

  /** Copies an interface to its slot and allocates its endpoint array. */
  method StoreInterface(l: Layout, heap: Heap, ifaced: array<Option<Slot>>, iface: nat, uid: seq<byte>,
                        ghost p: Parsing)
    returns (ok: bool)
    requires heap.Valid() && ifaced[..] == p.slots && iface == p.iface && heap.next == p.nextId
    requires SizedSlots(p.slots) && |uid| == INTERFACE_SIZE
    modifies heap, ifaced
    ensures heap.Valid() && ok == PlaceInterface(l, p, uid).Some?
    ensures ok ==> ifaced[..] == PlaceInterface(l, p, uid).value.slots
    ensures ok ==> heap.next == old(heap.next) + 1 && heap.live == old(heap.live) + {old(heap.next)}
  {
    if iface >= ifaced.Length {
      return false;
    }
    ifaced[iface] := Some(Slot(uid, Block(0, 0, map[])));
    var counted := ifaced[if l.OneElement? then iface else 0];
    if counted == None {
      return false;
    }
    var size := BlockSize(l, EndpointCount(counted.value.uid));
    var b := heap.Allocate();
    ifaced[iface] := Some(Slot(uid, Block(b, size, map[])));
    return true;
  }

  /** Copies an endpoint into the array of the interface before the running index. */
  method StoreEndpoint(l: Layout, ifaced: array<Option<Slot>>, iface: nat, endp: nat, bytes: seq<byte>,
                       ghost p: Parsing)
    returns (ok: bool)
    requires ifaced[..] == p.slots && iface == p.iface && endp == p.endp && SizedSlots(p.slots)
    modifies ifaced
    ensures ok == PlaceEndpoint(l, p, bytes).Some?
    ensures ok ==> ifaced[..] == PlaceEndpoint(l, p, bytes).value.slots
  {
    var k := iface - InterfaceStep(l);
    if !(0 <= k < ifaced.Length) || ifaced[k] == None {
      return false;
    }
    var slot := ifaced[k].value;
    if ENDPOINT_STRUCT_SIZE * endp + ENDPOINT_SIZE > slot.ued.size {
      return false;
    }
    ifaced[k] := Some(Slot(slot.uid, slot.ued.(at := slot.ued.at[endp := bytes])));
    return true;
  }

  /** The parsing state p is what the allocated slots and the running indices hold. */
  ghost predicate Describes(p: Parsing, heap: Heap, ifaced: array<Option<Slot>>, iface: nat, endp: nat)
    reads heap, ifaced
  {
    heap.Valid() && p == Parsing(ifaced[..], iface, endp, heap.next) && SizedSlots(p.slots)
  }

  /** The walk's switch, on an interface or an endpoint. */
  method StorePiece(l: Layout, heap: Heap, ifaced: array<Option<Slot>>, iface: nat, endp: nat, piece: Piece,
                    ghost p: Parsing)
    returns (ok: bool, iface': nat, endp': nat)
    requires Describes(p, heap, ifaced, iface, endp) && SizedPiece(piece)
    modifies heap, ifaced
    ensures heap.Valid()
    ensures PlacePiece(l, p, piece) == if ok then Some(Parsing(ifaced[..], iface', endp', heap.next)) else None
    ensures ok ==> heap.next >= old(heap.next) && heap.live == old(heap.live) + Blocks(old(heap.next), heap.next)
  {
    if piece.kind == DT_INTERFACE {
      ok := StoreInterface(l, heap, ifaced, iface, piece.bytes, p);
      iface', endp' := iface + InterfaceStep(l), 0;
    } else {
      ok := StoreEndpoint(l, ifaced, iface, endp, piece.bytes, p);
      iface', endp' := iface, endp + EndpointStep(l);
    }
  }

  /** The stores still to be made from offset i on. */
  ghost function PlaceRest(l: Layout, p: Parsing, src: seq<byte>, i: nat, total: nat): Option<Parsing>
    requires SizedSlots(p.slots) && Walkable(Parser, src, i, total)
  {
    PiecesAreSized(src, i, total);
    PlaceFrom(l, p, PiecesFrom(src, i, total))
  }

  /** One round of the walk, on any descriptor. */
  method StoreDescriptor(l: Layout, heap: Heap, src: seq<byte>, i: nat, total: nat, ifaced: array<Option<Slot>>,
                         iface: nat, endp: nat, ghost p: Parsing)
    returns (ok: bool, iface': nat, endp': nat, ghost q: Parsing)
    requires Describes(p, heap, ifaced, iface, endp)
    requires i < total && Walkable(Parser, src, i, total)
    modifies heap, ifaced
    ensures heap.Valid()
    ensures !ok ==> PlaceRest(l, p, src, i, total) == None
    ensures ok ==> Describes(q, heap, ifaced, iface', endp')
    ensures ok ==> PlaceRest(l, p, src, i, total) == PlaceRest(l, q, src, i + src[i], total)
    ensures ok ==> heap.next >= old(heap.next) && heap.live == old(heap.live) + Blocks(old(heap.next), heap.next)
  {
    ghost var rest := PiecesFrom(src, i + src[i], total);
    PiecesOfStep(Parser, src, i, total);
    PiecesAreSized(src, i + src[i], total);
    ok, iface', endp', q := true, iface, endp, p;
    if src[i + 1] == DT_INTERFACE || src[i + 1] == DT_ENDPOINT {
      assert ([PieceAt(src, i)] + rest)[1..] == rest;
      ok, iface', endp' := StorePiece(l, heap, ifaced, iface, endp, PieceAt(src, i), p);
      q := Parsing(ifaced[..], iface', endp', heap.next);
    } else {
      assert [] + rest == rest;
    }
  }

  /** The walk itself. */
  method StoreAll(l: Layout, heap: Heap, src: seq<byte>, ifaced: array<Option<Slot>>) returns (ok: bool)
    requires heap.Valid() && |src| >= CONFIG_SIZE && Walkable(Parser, src, CONFIG_SIZE, TotalLength(src))
    requires ifaced[..] == Empty(ifaced.Length)
    modifies heap, ifaced
    ensures heap.Valid() && Sized(PiecesFrom(src, CONFIG_SIZE, TotalLength(src)))
    ensures var placed := Place(l, ifaced.Length, old(heap.next), PiecesFrom(src, CONFIG_SIZE, TotalLength(src)));
            && ok == placed.Some?
            && (ok ==> ifaced[..] == placed.value.slots && heap.next == placed.value.nextId >= old(heap.next))
    ensures ok ==> heap.live == old(heap.live) + Blocks(old(heap.next), heap.next)
  {
    var total := TotalLength(src);
    var i: nat, iface: nat, endp: nat := CONFIG_SIZE, 0, 0;
    ghost var n, base := ifaced.Length, heap.next;
    ghost var p := Parsing(Empty(n), 0, 0, base);
    PiecesAreSized(src, CONFIG_SIZE, total);
    ghost var final := PlaceRest(l, p, src, i, total);
    while i < total
      invariant Walkable(Parser, src, i, total) && Describes(p, heap, ifaced, iface, endp)
      invariant final == PlaceRest(l, p, src, i, total)
      invariant heap.next >= base && heap.live == old(heap.live) + Blocks(base, heap.next)
      decreases total - i
    {
      ok, iface, endp, p := StoreDescriptor(l, heap, src, i, total, ifaced, iface, endp, p);
      if !ok {
        return;
      }
      i := i + src[i] as nat;
    }
    ok := true;
  }

  /**
    __parse_config_descriptor, for either layout. None stands for a store outside what was
    allocated, where the source's behaviour ends.
   */
  method ParseConfig(l: Layout, heap: Heap, src: seq<byte>) returns (r: Option<ParsedConfig>)
    requires heap.Valid() && |src| >= CONFIG_SIZE && Walkable(Parser, src, CONFIG_SIZE, TotalLength(src))
    modifies heap
    ensures heap.Valid() && Sized(PiecesFrom(src, CONFIG_SIZE, TotalLength(src)))
    ensures var ps := PiecesFrom(src, CONFIG_SIZE, TotalLength(src));
            var placed := Place(l, InterfacesOf(src), old(heap.next) + 2, ps);
            match r
            case None => placed == None
            case Some(c) =>
              && placed.Some? && fresh(c) && fresh(c.ifaced) && c.ifaced[..] == placed.value.slots
              && c.self == old(heap.next) && c.slotsBlock == c.self + 1 && c.ucd == src[..CONFIG_SIZE]
              && heap.next == placed.value.nextId >= c.self + 2
              && heap.live == old(heap.live) + Blocks(c.self, heap.next)
  {
    var self := heap.Allocate();
    var slotsBlock := heap.Allocate();
    var c := new ParsedConfig(self, slotsBlock, src[..CONFIG_SIZE], InterfacesOf(src));
    var ok := StoreAll(l, heap, src, c.ifaced);
    if !ok {
      return None;
    }
    return Some(c);
  }

  /**
    __release_config_descriptor: frees the first interface's endpoint array, the slots and
    the structure. The source reads the first slot, so there must be one that was written.
   */
  method ReleaseConfig(heap: Heap, c: ParsedConfig)
    requires heap.Valid() && c.ifaced.Length > 0 && c.ifaced[0].Some?
    requires {c.self, c.slotsBlock, c.ifaced[0].value.ued.id} <= heap.live
    requires c.self != c.slotsBlock && c.ifaced[0].value.ued.id !in {c.self, c.slotsBlock}
    modifies heap
    ensures heap.Valid() && heap.live == old(heap.live) - {c.self, c.slotsBlock, c.ifaced[0].value.ued.id}
  {
    heap.Free(c.ifaced[0].value.ued.id);
    heap.Free(c.slotsBlock);
    heap.Free(c.self);
  }

  /**
    Parsing, then releasing. It is not done when a store has no place, or when no interface
    was stored and the pointer that the source frees was never set. Once done, it leaves the
    heap as it was exactly when there is one interface.
   */
  method ParseThenRelease(l: Layout, heap: Heap, src: seq<byte>) returns (done: bool)
    requires heap.Valid() && |src| >= CONFIG_SIZE && Walkable(Parser, src, CONFIG_SIZE, TotalLength(src))
    modifies heap
    ensures SizedTree(TreeOf(PiecesFrom(src, CONFIG_SIZE, TotalLength(src))))
    ensures var ps := PiecesFrom(src, CONFIG_SIZE, TotalLength(src));
            done <==> ps != [] && NoOrphans(ps) && Fits(l, InterfacesOf(src), TreeOf(ps))
    ensures done ==> (heap.live == old(heap.live) <==> |TreeOf(PiecesFrom(src, CONFIG_SIZE, TotalLength(src)))| == 1)
  {
    ghost var ps, base := PiecesFrom(src, CONFIG_SIZE, TotalLength(src)), heap.next;
    PiecesAreSized(src, CONFIG_SIZE, TotalLength(src));
    FirstSlotSetIff(l, InterfacesOf(src), base + 2, ps);
    var r := ParseConfig(l, heap, src);
    if r == None {
      return false;
    }
    if r.value.ifaced.Length == 0 || r.value.ifaced[0] == None {
      return false;
    }
    BlocksFreed(old(heap.live), base, |TreeOf(ps)|);
    ReleaseConfig(heap, r.value);
    return true;
  }

  /** The first slot is set exactly when there is anything to store, and then has the first block. */
  lemma {:induction false} FirstSlotSetIff(l: Layout, n: nat, base: nat, ps: seq<Piece>)
    requires Sized(ps)
    ensures SizedTree(TreeOf(ps))
    ensures Place(l, n, base, ps).Some? <==> NoOrphans(ps) && Fits(l, n, TreeOf(ps))
    ensures match Place(l, n, base, ps)
            case None => true
            case Some(p) =>
              && p.nextId == base + |TreeOf(ps)| && (TreeOf(ps) == [] <==> ps == [])
              && (n > 0 && p.slots[0].Some? <==> ps != [])
              && (ps != [] ==> p.slots[0].value.ued.id == base)
  {
    PlaceIsStored(l, n, base, ps);
    if NoOrphans(ps) && Fits(l, n, TreeOf(ps)) {
      TreeOfEmptyIff(ps);
      if ps != [] {
        ImageAt(l, n, base, TreeOf(ps), 0);
      }
    }
  }

  lemma {:induction false} BlocksFreed(live: set<nat>, base: nat, interfaces: nat)
    requires forall b :: b in live ==> b < base
    requires interfaces > 0
    ensures live + Blocks(base, base + 2 + interfaces) - {base, base + 1, base + 2}
         == live + Blocks(base + 3, base + 2 + interfaces)
    ensures {base, base + 1, base + 2} <= live + Blocks(base, base + 2 + interfaces)
    ensures live + Blocks(base + 3, base + 2 + interfaces) == live <==> interfaces == 1
  {
    if interfaces > 1 {
      assert base + 3 in Blocks(base + 3, base + 2 + interfaces) && base + 3 !in live;
    }
  }
}
