/**
  Where the parser of lib/usb/usb.c puts a tree, in numbers: slots, bytes and elements of
  either layout, and when there is room for them.
 */
module UsbLayout {
  import opened Prelude
  import opened Words
  import opened UsbWalk
  import opened UsbTree
  import opened UsbParser

  /** The slot of interface k: as written, the index advances by the nine bytes of a descriptor. */
  function SlotAt(l: Layout, k: nat): nat {
    match l
    case AsWritten => 9 * k
    case OneElement => k
  }

  /** The element of endpoint j: as written, the index advances by the seven bytes of a descriptor. */
  function ElementAt(l: Layout, j: nat): nat {
    match l
    case AsWritten => 7 * j
    case OneElement => j
  }

  /** The bytes allocated for the endpoints of interface k; byte 4 of a descriptor is its count. */
  function ArrayBytes(l: Layout, tree: seq<Interface>, k: nat): nat
    requires SizedTree(tree) && k < |tree|
  {
    match l
    case AsWritten => 8 * tree[0].uid[4] as int
    case OneElement => 9 * tree[k].uid[4] as int
  }

  /** The last of m elements ends within the bytes allocated: each takes nine, of which seven are written. */
  predicate RoomFor(l: Layout, n: nat, tree: seq<Interface>, k: nat)
    requires SizedTree(tree) && k < |tree|
  {
    var m := |tree[k].endpoints|;
    SlotAt(l, k) < n && (m > 0 ==> 9 * ElementAt(l, m - 1) + 7 <= ArrayBytes(l, tree, k))
  }

  predicate HasRoom(l: Layout, n: nat, tree: seq<Interface>)
    requires SizedTree(tree)
  {
    forall k :: 0 <= k < |tree| ==> RoomFor(l, n, tree, k)
  }

  lemma {:induction false} FitsIff(l: Layout, n: nat, tree: seq<Interface>)
    requires SizedTree(tree)
    ensures Fits(l, n, tree) <==> HasRoom(l, n, tree)
  {
    forall k | 0 <= k < |tree| ensures FitsInterface(l, n, tree, k) <==> RoomFor(l, n, tree, k) {
    }
  }

  // ---------- What is stored ----------

  predicate HasEndpoints(l: Layout, at: map<nat, seq<byte>>, es: seq<seq<byte>>) {
    |at| == |es| && forall j :: 0 <= j < |es| ==> ElementAt(l, j) in at && at[ElementAt(l, j)] == es[j]
  }

  predicate HasInterface(l: Layout, slots: seq<Option<Slot>>, base: nat, tree: seq<Interface>, k: nat)
    requires SizedTree(tree) && k < |tree|
  {
    && SlotAt(l, k) < |slots| && slots[SlotAt(l, k)].Some?
    && var s := slots[SlotAt(l, k)].value;
       s.uid == tree[k].uid && s.ued.id == base + k && s.ued.size == ArrayBytes(l, tree, k)
       && HasEndpoints(l, s.ued.at, tree[k].endpoints)
  }

  /** The slots hold every interface of the tree with its endpoints in order, and nothing else. */
  ghost predicate HoldsTree(l: Layout, slots: seq<Option<Slot>>, base: nat, tree: seq<Interface>)
    requires SizedTree(tree)
  {
    && (forall k :: 0 <= k < |tree| ==> HasInterface(l, slots, base, tree, k))
    && (forall i :: 0 <= i < |slots| && slots[i].Some? ==> exists k :: 0 <= k < |tree| && SlotAt(l, k) == i)
  }

  /** All elements are where endpoints belong. */
  ghost predicate OnlyElements(l: Layout, at: map<nat, seq<byte>>, m: nat) {
    forall x :: x in at ==> exists j :: 0 <= j < m && ElementAt(l, j) == x
  }

  lemma {:induction false} ElementsStep(l: Layout, at: map<nat, seq<byte>>, es: seq<seq<byte>>, e: seq<byte>)
    requires HasEndpoints(l, at, es) && OnlyElements(l, at, |es|)
    ensures HasEndpoints(l, at[ElementAt(l, |es|) := e], es + [e])
    ensures OnlyElements(l, at[ElementAt(l, |es|) := e], |es| + 1)
  {
    assert ElementAt(l, |es|) !in at;
    assert |at[ElementAt(l, |es|) := e]| == |at| + 1;
  }

  lemma {:induction false} ElementsHold(l: Layout, es: seq<seq<byte>>)
    ensures HasEndpoints(l, Elements(l, es), es) && OnlyElements(l, Elements(l, es), |es|)
  {
    if es != [] {
      var k := |es| - 1;
      ElementsHold(l, es[..k]);
      ElementsStep(l, Elements(l, es[..k]), es[..k], es[k]);
      assert es == es[..k] + [es[k]];
    }
  }

  lemma {:induction false} StoredHolds(l: Layout, n: nat, base: nat, tree: seq<Interface>)
    requires SizedTree(tree) && Fits(l, n, tree)
    ensures HoldsTree(l, Stored(l, n, base, tree).slots, base, tree)
  {
    var slots := Stored(l, n, base, tree).slots;
    forall k | 0 <= k < |tree| ensures HasInterface(l, slots, base, tree, k) {
      ImageAt(l, n, base, tree, k);
      ElementsHold(l, tree[k].endpoints);
    }
    forall i | 0 <= i < |slots| && slots[i].Some? ensures exists k :: 0 <= k < |tree| && SlotAt(l, k) == i {
      SlotIndex(l, 0, i);
      assert SlotAt(l, i / InterfaceStep(l)) == i;
    }
  }

  /** For any stream of descriptors: when every store has its place, and what is then stored. */
  lemma {:induction false} PlacedIff(l: Layout, n: nat, base: nat, ps: seq<Piece>)
    requires Sized(ps)
    ensures SizedTree(TreeOf(ps))
    ensures Place(l, n, base, ps).Some? <==> NoOrphans(ps) && HasRoom(l, n, TreeOf(ps))
    ensures Place(l, n, base, ps).Some? ==> HoldsTree(l, Place(l, n, base, ps).value.slots, base, TreeOf(ps))
  {
    PlaceIsStored(l, n, base, ps);
    FitsIff(l, n, TreeOf(ps));
    if Place(l, n, base, ps).Some? {
      StoredHolds(l, n, base, TreeOf(ps));
    }
  }

  // ---------- Well-formed configurations ----------

  /** The counts the descriptors announce are the numbers of descriptors that follow. */
  predicate CountsMatch(n: nat, tree: seq<Interface>)
    requires SizedTree(tree)
  {
    n == |tree| && forall k :: 0 <= k < |tree| ==> tree[k].uid[4] == |tree[k].endpoints|
  }

  /** One element per step: every well-formed configuration has exactly the room it needs. */
  lemma {:induction false} OneElementHasRoom(n: nat, tree: seq<Interface>)
    requires SizedTree(tree) && CountsMatch(n, tree)
    ensures HasRoom(OneElement, n, tree)
  {
    forall k | 0 <= k < |tree| ensures RoomFor(OneElement, n, tree, k) {
    }
  }

  /** As written: a well-formed configuration has room exactly with one interface of one endpoint at most. */
  lemma {:induction false} AsWrittenHasRoomIff(n: nat, tree: seq<Interface>)
    requires SizedTree(tree) && CountsMatch(n, tree)
    ensures HasRoom(AsWritten, n, tree) <==> n == 0 || (n == 1 && tree[0].uid[4] <= 1)
  {
    if n > 0 {
      assert RoomFor(AsWritten, n, tree, n - 1) ==> 9 * (n - 1) < n;
      assert RoomFor(AsWritten, n, tree, 0) ==>
          (|tree[0].endpoints| > 0 ==> 63 * (|tree[0].endpoints| - 1) + 7 <= 8 * |tree[0].endpoints|);
    }
  }
}
