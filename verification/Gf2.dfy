/**
  Polynomials over GF(2), and what the shift register computes in their terms.

  A polynomial is the set of exponents whose coefficient is one, so addition is the
  symmetric difference. A sequence of bits stands for the polynomial whose highest power
  comes first: that is the order in which message bits enter the register, and, since a
  register is written least significant bit first, the bit-reflected reading of it.
 */
module Gf2 {
  import opened Lfsr

  type Poly = set<nat>

  function Add(a: Poly, b: Poly): Poly {
    (a - b) + (b - a)
  }

  function ShiftUp(a: Poly, k: nat): Poly {
    set e | e in a :: e + k
  }

  predicate Coefficient(bits: Bits, e: nat) {
    e < |bits| && bits[|bits| - 1 - e]
  }

  function PolyOf(bits: Bits): Poly {
    set e: nat | e < |bits| && Coefficient(bits, e)
  }

  /** The product of the polynomial of q and p, by Horner's scheme. */
  function Mul(q: Bits, p: Poly): Poly {
    if q == [] then {}
    else
      var rest := ShiftUp(Mul(q[..|q| - 1], p), 1);
      if q[|q| - 1] then Add(rest, p) else rest
  }

  ghost predicate Divides(p: Poly, a: Poly) {
    exists q: Bits :: Mul(q, p) == a
  }

  ghost predicate HasDegree(p: Poly, d: nat) {
    d in p && forall e :: e in p ==> e <= d
  }

  /** r is what remains of a after division by p, of degree d. */
  ghost predicate IsRemainder(a: Poly, p: Poly, d: nat, r: Poly) {
    && (forall e :: e in r ==> e < d)
    && Divides(p, Add(a, r))
  }

  /** The divisor a register polynomial encodes: its bits below an implied leading power. */
  function Generator(poly: Bits): Poly {
    {|poly|} + PolyOf(poly)
  }

  lemma {:induction false} GeneratorDegree(poly: Bits)
    ensures HasDegree(Generator(poly), |poly|)
  {
  }

  // ---------- Sums and shifts ----------

  lemma {:induction false} ShiftUpAdd(a: Poly, b: Poly, k: nat)
    ensures ShiftUp(Add(a, b), k) == Add(ShiftUp(a, k), ShiftUp(b, k))
  {
    forall e: nat
      ensures e in ShiftUp(Add(a, b), k) <==> e in Add(ShiftUp(a, k), ShiftUp(b, k))
    {
      InShiftUp(a, k, e);
      InShiftUp(b, k, e);
      InShiftUp(Add(a, b), k, e);
    }
  }

  lemma {:induction false} AddCancels(a: Poly, b: Poly, c: Poly)
    ensures Add(Add(a, b), Add(b, c)) == Add(a, c)
  {
  }

  lemma {:induction false} InShiftUp(a: Poly, k: nat, e: nat)
    ensures e in ShiftUp(a, k) <==> e >= k && e - k in a
  {
    if e >= k {
      assert e == (e - k) + k;
    }
  }

  lemma {:induction false} ShiftUpTwice(a: Poly, j: nat, k: nat)
    ensures ShiftUp(ShiftUp(a, j), k) == ShiftUp(a, j + k)
  {
    forall e: nat ensures e in ShiftUp(ShiftUp(a, j), k) <==> e in ShiftUp(a, j + k) {
      InShiftUp(ShiftUp(a, j), k, e);
      InShiftUp(a, j + k, e);
      if e >= k {
        InShiftUp(a, j, e - k);
      }
    }
  }

  lemma {:induction false} PolyOfSnoc(m: Bits, b: bool)
    ensures PolyOf(m + [b]) == Add(ShiftUp(PolyOf(m), 1), if b then {0} else {})
  {
    var lhs := PolyOf(m + [b]);
    forall e: nat ensures e in lhs <==> e in Add(ShiftUp(PolyOf(m), 1), if b then {0} else {}) {
      InShiftUp(PolyOf(m), 1, e);
      if 0 < e <= |m| {
        assert (m + [b])[|m| - e] == m[|m| - 1 - (e - 1)];
      }
    }
  }

  lemma {:induction false} PolyOfXor(a: Bits, b: Bits)
    requires |a| == |b|
    ensures PolyOf(Xor(a, b)) == Add(PolyOf(a), PolyOf(b))
  {
  }

  lemma {:induction false} PolyOfInjective(a: Bits, b: Bits)
    requires |a| == |b|
    ensures PolyOf(a) == PolyOf(b) <==> a == b
  {
    if PolyOf(a) == PolyOf(b) {
      forall i | 0 <= i < |a| ensures a[i] == b[i] {
        assert a[i] <==> |a| - 1 - i in PolyOf(a);
        assert b[i] <==> |b| - 1 - i in PolyOf(b);
      }
    }
  }

  lemma {:induction false} PolyOfZeros(n: nat)
    ensures PolyOf(Zeros(n)) == {}
  {
  }

  // ---------- Products ----------

  lemma {:induction false} MulSnoc(q: Bits, b: bool, p: Poly)
    ensures Mul(q + [b], p) == Add(ShiftUp(Mul(q, p), 1), if b then p else {})
  {
    assert (q + [b])[..|q|] == q;
  }

  lemma {:induction false} MulXor(a: Bits, b: Bits, p: Poly)
    requires |a| == |b|
    ensures Mul(Xor(a, b), p) == Add(Mul(a, p), Mul(b, p))
  {
    if a != [] {
      var k := |a| - 1;
      assert Xor(a, b)[..k] == Xor(a[..k], b[..k]);
      MulXor(a[..k], b[..k], p);
      ShiftUpAdd(Mul(a[..k], p), Mul(b[..k], p), 1);
    }
  }

  /** By a power of x, Mul is a shift. */
  lemma {:induction false} MulMonomial(q: Bits, k: nat)
    ensures Mul(q, {k}) == ShiftUp(PolyOf(q), k)
  {
    if q != [] {
      var n := |q| - 1;
      MulMonomial(q[..n], k);
      assert q == q[..n] + [q[n]];
      PolyOfSnoc(q[..n], q[n]);
      ShiftUpTwice(PolyOf(q[..n]), k, 1);
      ShiftUpTwice(PolyOf(q[..n]), 1, k);
      ShiftUpAdd(ShiftUp(PolyOf(q[..n]), 1), if q[n] then {0} else {}, k);
      assert ShiftUp({0}, k) == {k} && ShiftUp({}, k) == {};
    }
  }

  lemma {:induction false} MulAdd(q: Bits, a: Poly, b: Poly)
    ensures Mul(q, Add(a, b)) == Add(Mul(q, a), Mul(q, b))
  {
    if q != [] {
      MulAdd(q[..|q| - 1], a, b);
      ShiftUpAdd(Mul(q[..|q| - 1], a), Mul(q[..|q| - 1], b), 1);
    }
  }

  lemma {:induction false} MulShift(q: Bits, p: Poly)
    ensures Mul(q, ShiftUp(p, 1)) == ShiftUp(Mul(q, p), 1)
  {
    if q != [] {
      var k := |q| - 1;
      MulShift(q[..k], p);
      ShiftUpAdd(ShiftUp(Mul(q[..k], p), 1), if q[k] then p else {}, 1);
    }
  }

  lemma {:induction false} MulZero(q: Bits)
    ensures Mul(q, {}) == {}
  {
    if q != [] {
      MulZero(q[..|q| - 1]);
    }
  }

  /** Linear on both sides and a shift on powers of x, Mul is the product of polynomials: it commutes. */
  lemma {:induction false} MulCommutes(a: Bits, b: Bits)
    ensures Mul(a, PolyOf(b)) == Mul(b, PolyOf(a))
  {
    if b == [] {
      MulZero(a);
      assert PolyOf(b) == {};
    } else {
      var k := |b| - 1;
      var low: Poly := if b[k] then {0} else {};
      assert b == b[..k] + [b[k]];
      PolyOfSnoc(b[..k], b[k]);
      MulAdd(a, ShiftUp(PolyOf(b[..k]), 1), low);
      MulShift(a, PolyOf(b[..k]));
      MulCommutes(a, b[..k]);
      MulByConstant(a, b[k]);
    }
  }

  lemma {:induction false} MulByConstant(q: Bits, b: bool)
    ensures Mul(q, if b then {0} else {}) == if b then PolyOf(q) else {}
  {
    MulMonomial(q, 0);
    MulZero(q);
    assert ShiftUp(PolyOf(q), 0) == PolyOf(q);
  }

  lemma {:induction false} MulPadded(q: Bits, n: nat, p: Poly)
    ensures Mul(Zeros(n) + q, p) == Mul(q, p)
  {
    if q != [] {
      var k := |q| - 1;
      assert (Zeros(n) + q)[..n + k] == Zeros(n) + q[..k];
      MulPadded(q[..k], n, p);
    } else if n > 0 {
      assert (Zeros(n) + q)[..n - 1] == Zeros(n - 1) + q;
      MulPadded(q, n - 1, p);
    }
  }

  /** A nonzero multiple of a polynomial has at least its degree. */
  lemma {:induction false} MulDegree(q: Bits, p: Poly, d: nat)
    requires HasDegree(p, d)
    ensures if true in q then exists t :: t >= d && HasDegree(Mul(q, p), t) else Mul(q, p) == {}
  {
    if q != [] {
      var k := |q| - 1;
      MulDegree(q[..k], p, d);
      assert q == q[..k] + [q[k]];
      if true in q[..k] {
        var t :| t >= d && HasDegree(Mul(q[..k], p), t);
        ShiftedDegree(Mul(q[..k], p), t);
        assert HasDegree(Mul(q, p), t + 1);
      } else if q[k] {
        assert HasDegree(Mul(q, p), d);
      }
    }
  }

  lemma {:induction false} ShiftedDegree(a: Poly, t: nat)
    requires HasDegree(a, t)
    ensures HasDegree(ShiftUp(a, 1), t + 1)
  {
    InShiftUp(a, 1, t + 1);
  }

  /** Division leaves one remainder only. */
  lemma {:induction false} RemainderUnique(a: Poly, p: Poly, d: nat, r: Poly, s: Poly)
    requires HasDegree(p, d)
    requires IsRemainder(a, p, d, r) && IsRemainder(a, p, d, s)
    ensures r == s
  {
    var x: Bits :| Mul(x, p) == Add(a, r);
    var y: Bits :| Mul(y, p) == Add(a, s);
    MulPadded(x, |y|, p);
    MulPadded(y, |x|, p);
    var q := Xor(Zeros(|y|) + x, Zeros(|x|) + y);
    MulXor(Zeros(|y|) + x, Zeros(|x|) + y, p);
    assert Mul(q, p) == Add(r, s);
    MulDegree(q, p, d);
    assert Add(r, s) == {};
    assert forall e :: e in r ==> e in s;
  }

  /** A divisor with a constant term cannot take a power of x from a multiple. */
  lemma {:induction false} DividesUnshifted(p: Poly, a: Poly, k: nat)
    requires 0 in p
    ensures Divides(p, ShiftUp(a, k)) <==> Divides(p, a)
  {
    if k == 0 {
      assert ShiftUp(a, 0) == a;
    } else {
      ShiftUpTwice(a, k - 1, 1);
      DividesUnshiftedOnce(p, ShiftUp(a, k - 1));
      DividesUnshifted(p, a, k - 1);
    }
  }

  lemma {:induction false} DividesUnshiftedOnce(p: Poly, a: Poly)
    requires 0 in p
    ensures Divides(p, ShiftUp(a, 1)) <==> Divides(p, a)
  {
    if Divides(p, a) {
      var q: Bits :| Mul(q, p) == a;
      MulSnoc(q, false, p);
      assert Mul(q + [false], p) == ShiftUp(a, 1);
    }
    if Divides(p, ShiftUp(a, 1)) {
      var q: Bits :| Mul(q, p) == ShiftUp(a, 1);
      if q == [] {
        assert a == {} by {
          forall e: nat ensures e !in a { InShiftUp(a, 1, e + 1); }
        }
        assert Mul([], p) == a;
      } else {
        var k := |q| - 1;
        InShiftUp(Mul(q[..k], p), 1, 0);
        InShiftUp(a, 1, 0);
        assert !q[k];
        forall e: nat ensures e in Mul(q[..k], p) <==> e in a {
          InShiftUp(Mul(q[..k], p), 1, e + 1);
          InShiftUp(a, 1, e + 1);
        }
        assert Mul(q[..k], p) == a;
      }
    }
  }

  // ---------- The register is a remainder ----------

  /** The bits fed back at each step are the quotient of the division. */
  function Quotient(poly: Bits, m: Bits): (q: Bits)
    requires |poly| > 0
    ensures |q| == |m|
  {
    if m == [] then []
    else
      var k := |m| - 1;
      Quotient(poly, m[..k]) + [Feed(poly, Zeros(|poly|), m[..k])[0] != m[k]]
  }

  /** One step, in polynomial terms: multiply by x and take the divisor off if it fits. */
  lemma {:induction false} StepAsPoly(poly: Bits, r: Bits)
    requires |r| == |poly| > 0
    ensures Add(ShiftUp(PolyOf(r), 1), PolyOf(Step(poly, r))) == if r[0] then Generator(poly) else {}
  {
    var w, shifted := |r|, r[1..] + [false];
    PolyOfXor(shifted, poly);
    assert ShiftUp(PolyOf(r), 1) == if r[0] then {w} + PolyOf(shifted) else PolyOf(shifted) by {
      forall e: nat ensures e in ShiftUp(PolyOf(r), 1) <==> (e == w && r[0]) || e in PolyOf(shifted) {
        InShiftUp(PolyOf(r), 1, e);
        if 0 < e < w {
          assert shifted[w - 1 - e] == r[w - 1 - (e - 1)];
        }
      }
    }
  }

  lemma {:induction false} InjectAsPoly(r: Bits, b: bool)
    requires |r| > 0
    ensures PolyOf(Inject(r, b)) == Add(PolyOf(r), if b then {|r| - 1} else {})
  {
  }

  lemma {:induction false} FeedIsDivision(poly: Bits, m: Bits)
    requires |poly| > 0
    ensures Add(ShiftUp(PolyOf(m), |poly|), PolyOf(Feed(poly, Zeros(|poly|), m)))
         == Mul(Quotient(poly, m), Generator(poly))
  {
    var w, z := |poly|, Zeros(|poly|);
    if m == [] {
      PolyOfZeros(w);
    } else {
      var k := |m| - 1;
      var b, r, g := m[k], Feed(poly, z, m[..k]), Generator(poly);
      var y := ShiftUp(PolyOf(Inject(r, b)), 1);
      FeedIsDivision(poly, m[..k]);
      MulSnoc(Quotient(poly, m[..k]), r[0] != b, g);
      assert m == m[..k] + [b];
      PolyOfSnoc(m[..k], b);
      InjectAsPoly(r, b);
      DivisionStep(w, PolyOf(m[..k]), PolyOf(r), b);
      StepAsPoly(poly, Inject(r, b));
      AddCancels(ShiftUp(PolyOf(m), w), y, PolyOf(Feed(poly, z, m)));
    }
  }

  /** x(M x^w + R) regrouped as the longer message and the register after injection. */
  lemma {:induction false} DivisionStep(w: nat, m: Poly, r: Poly, b: bool)
    requires w > 0
    ensures ShiftUp(Add(ShiftUp(m, w), r), 1)
         == Add(ShiftUp(Add(ShiftUp(m, 1), if b then {0} else {}), w),
                ShiftUp(Add(r, if b then {w - 1} else {}), 1))
  {
    ShiftUpAdd(ShiftUp(m, w), r, 1);
    ShiftUpTwice(m, w, 1);
    ShiftUpTwice(m, 1, w);
    ShiftUpAdd(ShiftUp(m, 1), if b then {0} else {}, w);
    ShiftUpAdd(r, if b then {w - 1} else {}, 1);
    assert ShiftUp({0}, w) == {w} && ShiftUp({w - 1}, 1) == {w};
    assert ShiftUp({}, w) == {} && ShiftUp({}, 1) == {};
  }

  /** The register holds the remainder of the message times x^w, for every message. */
  lemma {:induction false} FeedIsRemainder(poly: Bits, m: Bits)
    requires |poly| > 0
    ensures IsRemainder(ShiftUp(PolyOf(m), |poly|), Generator(poly), |poly|,
                        PolyOf(Feed(poly, Zeros(|poly|), m)))
  {
    FeedIsDivision(poly, m);
  }

  /** Two messages of one length collide exactly when the divisor divides their difference. */
  lemma {:induction false} CollideIffDivides(poly: Bits, m: Bits, n: Bits)
    requires |poly| > 0 && |m| == |n| && poly[|poly| - 1]
    ensures Feed(poly, Zeros(|poly|), m) == Feed(poly, Zeros(|poly|), n)
       <==> Divides(Generator(poly), Add(PolyOf(m), PolyOf(n)))
  {
    var w, z, e := |poly|, Zeros(|poly|), Xor(m, n);
    FeedXor(poly, z, z, m, n);
    XorZeroIffEqual(z, z);
    XorZeroIffEqual(Feed(poly, z, m), Feed(poly, z, n));
    ZeroIffDivides(poly, e);
    PolyOfXor(m, n);
    DividesUnshifted(Generator(poly), PolyOf(e), w);
  }

  lemma {:induction false} ZeroIffDivides(poly: Bits, e: Bits)
    requires |poly| > 0
    ensures Feed(poly, Zeros(|poly|), e) == Zeros(|poly|)
       <==> Divides(Generator(poly), ShiftUp(PolyOf(e), |poly|))
  {
    var w, a, r := |poly|, ShiftUp(PolyOf(e), |poly|), Feed(poly, Zeros(|poly|), e);
    FeedIsRemainder(poly, e);
    PolyOfZeros(w);
    PolyOfInjective(r, Zeros(w));
    assert Add(a, {}) == a;
    if Divides(Generator(poly), a) {
      GeneratorDegree(poly);
      RemainderUnique(a, Generator(poly), w, PolyOf(r), {});
    }
  }
}
