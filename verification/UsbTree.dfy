/** The tree of interfaces and endpoints that a configuration's descriptors describe. */
module UsbTree {
  import opened Prelude
  import opened Words
  import opened UsbWalk

  datatype Interface = Interface(uid: seq<byte>, endpoints: seq<seq<byte>>)

  function WithInterface(tree: seq<Interface>, uid: seq<byte>): seq<Interface> {
    tree + [Interface(uid, [])]
  }

  function WithEndpoint(tree: seq<Interface>, e: seq<byte>): seq<Interface>
    requires tree != []
  {
    var k := |tree| - 1;
    tree[k := tree[k].(endpoints := tree[k].endpoints + [e])]
  }

  /** The endpoint of a piece goes to the last interface; one before any interface has no place. */
  function Attach(tree: seq<Interface>, p: Piece): (t: seq<Interface>) {
    if p.kind == DT_INTERFACE then WithInterface(tree, p.bytes)
    else if tree == [] then tree
    else WithEndpoint(tree, p.bytes)
  }

  function TreeOf(ps: seq<Piece>): seq<Interface> {
    if ps == [] then [] else Attach(TreeOf(ps[..|ps| - 1]), ps[|ps| - 1])
  }

  function EndpointPieces(es: seq<seq<byte>>): seq<Piece> {
    if es == [] then [] else EndpointPieces(es[..|es| - 1]) + [Piece(DT_ENDPOINT, es[|es| - 1])]
  }

  /** A tree written out again: each interface, then its endpoints. */
  function Flatten(tree: seq<Interface>): seq<Piece> {
    if tree == [] then []
    else
      var last := tree[|tree| - 1];
      Flatten(tree[..|tree| - 1]) + ([Piece(DT_INTERFACE, last.uid)] + EndpointPieces(last.endpoints))
  }

  lemma {:induction false} FlattenConcat(a: seq<Interface>, b: seq<Interface>)
    ensures Flatten(a + b) == Flatten(a) + Flatten(b)
  {
    if b == [] {
      assert a + b == a;
    } else {
      var k := |b| - 1;
      FlattenConcat(a, b[..k]);
      assert (a + b)[..|a + b| - 1] == a + b[..k] && (a + b)[|a + b| - 1] == b[k];
      FlattenLast(a + b);
      FlattenLast(b);
      Associative(Flatten(a), Flatten(b[..k]), [Piece(DT_INTERFACE, b[k].uid)]);
      Associative(Flatten(a), Flatten(b[..k]) + [Piece(DT_INTERFACE, b[k].uid)], EndpointPieces(b[k].endpoints));
    }
  }

  /** One interface is written as its descriptor, then those of its endpoints in order. */
  lemma {:induction false} FlattenOne(i: Interface)
    ensures Flatten([i])
         == [Piece(4, i.uid)] + seq(|i.endpoints|, j requires 0 <= j < |i.endpoints| => Piece(5, i.endpoints[j]))
  {
    assert [i][..0] == [] && Flatten([]) == [];
    EndpointPiecesAre(i.endpoints);
  }

  lemma {:induction false} EndpointPiecesAre(es: seq<seq<byte>>)
    ensures EndpointPieces(es) == seq(|es|, j requires 0 <= j < |es| => Piece(5, es[j]))
  {
    if es != [] {
      EndpointPiecesAre(es[..|es| - 1]);
    }
  }

  predicate TreePieces(ps: seq<Piece>) {
    forall k :: 0 <= k < |ps| ==> ps[k].kind == DT_INTERFACE || ps[k].kind == DT_ENDPOINT
  }

  /** No endpoint comes before the first interface. */
  predicate NoOrphans(ps: seq<Piece>) {
    ps != [] ==> ps[0].kind == DT_INTERFACE
  }

  lemma {:induction false} PiecesAreTreePieces(ds: seq<Descriptor>)
    ensures TreePieces(Pieces(ds))
  {
    if ds != [] {
      PiecesAreTreePieces(ds[..|ds| - 1]);
    }
  }

  lemma {:induction false} TreeOfEmptyIff(ps: seq<Piece>)
    requires Wellformed(ps)
    ensures TreeOf(ps) == [] <==> ps == []
  {
    if |ps| > 1 {
      TreeOfEmptyIff(ps[..|ps| - 1]);
    } else if |ps| == 1 {
      assert TreeOf(ps[..0]) == [];
    }
  }

  /** Flattening undoes building, for every sequence without orphans. */
  lemma {:induction false} FlattenTreeOf(ps: seq<Piece>)
    requires Wellformed(ps)
    ensures Flatten(TreeOf(ps)) == ps
  {
    if ps != [] {
      var init, p := ps[..|ps| - 1], ps[|ps| - 1];
      FlattenTreeOf(init);
      TreeOfEmptyIff(init);
      assert ps == init + [p] && TreeOf(ps) == Attach(TreeOf(init), p);
      FlattenAttach(TreeOf(init), p);
    }
  }

  lemma {:induction false} FlattenAttach(tree: seq<Interface>, p: Piece)
    requires p.kind == DT_INTERFACE || (p.kind == DT_ENDPOINT && tree != [])
    ensures Flatten(Attach(tree, p)) == Flatten(tree) + [p]
  {
    var t := Attach(tree, p);
    if p.kind == DT_INTERFACE {
      assert t[..|tree|] == tree;
      assert [Piece(DT_INTERFACE, p.bytes)] + EndpointPieces([]) == [p];
    } else {
      var k := |tree| - 1;
      var es := tree[k].endpoints + [p.bytes];
      assert t[..k] == tree[..k] && es[..|es| - 1] == tree[k].endpoints;
      var head, tail := [Piece(DT_INTERFACE, tree[k].uid)], EndpointPieces(tree[k].endpoints);
      assert Flatten(tree[..k]) + (head + (tail + [p])) == (Flatten(tree[..k]) + (head + tail)) + [p];
    }
  }

  /** Building undoes flattening, for every tree. */
  lemma {:induction false} TreeOfFlatten(tree: seq<Interface>)
    ensures TreeOf(Flatten(tree)) == tree && Wellformed(Flatten(tree))
  {
    if tree != [] {
      var init, last := tree[..|tree| - 1], tree[|tree| - 1];
      TreeOfFlatten(init);
      FlattenLast(tree);
      TreeOfGroup(Flatten(init), init, tree, Flatten(tree));
    }
  }

  /** The pieces of an interface: its own, then those of its endpoints. */
  function Group(ps: seq<Piece>, i: Interface): seq<Piece> {
    (ps + [Piece(DT_INTERFACE, i.uid)]) + EndpointPieces(i.endpoints)
  }

  lemma {:induction false} FlattenLast(tree: seq<Interface>)
    requires tree != []
    ensures Flatten(tree) == Group(Flatten(tree[..|tree| - 1]), tree[|tree| - 1])
  {
  }

  lemma {:induction false} TreeOfGroup(ps: seq<Piece>, init: seq<Interface>, tree: seq<Interface>, all: seq<Piece>)
    requires tree != [] && init == tree[..|tree| - 1] && all == Group(ps, tree[|tree| - 1])
    requires TreeOf(ps) == init && Wellformed(ps)
    ensures TreeOf(all) == tree && Wellformed(all)
  {
    var last := tree[|tree| - 1];
    TreeOfOne(ps, last, last.endpoints);
    assert tree == init + [last];
  }

  predicate Wellformed(ps: seq<Piece>) {
    TreePieces(ps) && NoOrphans(ps)
  }

  lemma {:induction false} TreeOfSnoc(ps: seq<Piece>, p: Piece)
    ensures TreeOf(ps + [p]) == Attach(TreeOf(ps), p)
    ensures Wellformed(ps) && (p.kind == DT_INTERFACE || (p.kind == DT_ENDPOINT && ps != [])) ==> Wellformed(ps + [p])
  {
    assert (ps + [p])[..|ps|] == ps;
  }

  /** An interface and the endpoints after it add that interface, with those endpoints, to the tree. */
  lemma {:induction false} TreeOfOne(ps: seq<Piece>, i: Interface, es: seq<seq<byte>>)
    requires Wellformed(ps)
    ensures var all := Group(ps, i.(endpoints := es));
            all != [] && TreeOf(all) == TreeOf(ps) + [i.(endpoints := es)] && Wellformed(all)
    decreases |es|
  {
    if es == [] {
      assert Group(ps, i.(endpoints := es)) == ps + [Piece(DT_INTERFACE, i.uid)];
      TreeOfSnoc(ps, Piece(DT_INTERFACE, i.uid));
    } else {
      var k := |es| - 1;
      var before := Group(ps, i.(endpoints := es[..k]));
      TreeOfOne(ps, i, es[..k]);
      GroupSnoc(ps, i, es);
      TreeOfSnoc(before, Piece(DT_ENDPOINT, es[k]));
      AttachToLast(TreeOf(ps), i.(endpoints := es[..k]), es[k]);
      assert es == es[..k] + [es[k]];
    }
  }

  lemma {:induction false} GroupSnoc(ps: seq<Piece>, i: Interface, es: seq<seq<byte>>)
    requires es != []
    ensures var k := |es| - 1;
            Group(ps, i.(endpoints := es)) == Group(ps, i.(endpoints := es[..k])) + [Piece(DT_ENDPOINT, es[k])]
  {
  }

  lemma {:induction false} AttachToLast(tree: seq<Interface>, i: Interface, e: seq<byte>)
    ensures Attach(tree + [i], Piece(DT_ENDPOINT, e)) == tree + [i.(endpoints := i.endpoints + [e])]
  {
  }

  /** Flattening what was built gives back the pieces exactly when there are no orphans. */
  lemma {:induction false} FlattenTreeOfIff(ps: seq<Piece>)
    requires TreePieces(ps)
    ensures Flatten(TreeOf(ps)) == ps <==> NoOrphans(ps)
  {
    if NoOrphans(ps) {
      FlattenTreeOf(ps);
    } else {
      TreeOfFlatten(TreeOf(ps));
    }
  }
}
