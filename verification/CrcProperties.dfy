/** What the checksums of lib/adb/adb.c detect, and what they compute. */
module CrcProperties {
  import opened Lfsr
  import opened Words
  import opened Crc
  import Gf2

  // ---------- Buffers and their bits ----------

  lemma {:induction false} MessageBitsConcat(a: seq<byte>, b: seq<byte>)
    ensures MessageBits(a + b) == MessageBits(a) + MessageBits(b)
  {
    if b == [] {
      assert a + b == a;
    } else {
      assert (a + b)[..|a + b| - 1] == a + b[..|b| - 1];
      MessageBitsConcat(a, b[..|b| - 1]);
    }
  }

  lemma {:induction false} ByteBitsInjective(a: byte, b: byte)
    ensures ByteBits(a) == ByteBits(b) <==> a == b
  {
    assert Pow2(8) == 256;
    ToNatToBits(a, 8);
    ToNatToBits(b, 8);
  }

  lemma {:induction false} MessageBitsInjective(a: seq<byte>, b: seq<byte>)
    requires |a| == |b|
    ensures MessageBits(a) == MessageBits(b) <==> a == b
  {
    if a != [] && MessageBits(a) == MessageBits(b) {
      var k := |a| - 1;
      var pa, pb := MessageBits(a[..k]), MessageBits(b[..k]);
      assert pa == MessageBits(a)[..8 * k] && ByteBits(a[k]) == MessageBits(a)[8 * k..];
      assert pb == MessageBits(b)[..8 * k] && ByteBits(b[k]) == MessageBits(b)[8 * k..];
      MessageBitsInjective(a[..k], b[..k]);
      ByteBitsInjective(a[k], b[k]);
      assert a == a[..k] + [a[k]] && b == b[..k] + [b[k]];
    }
  }

  lemma {:induction false} CrcValueInjective(w: nat, poly: nat, a: seq<byte>, b: seq<byte>)
    requires w > 0
    ensures CrcValue(w, poly, a) == CrcValue(w, poly, b)
       <==> Register(ToBits(poly, w), a) == Register(ToBits(poly, w), b)
  {
    var ra, rb := Register(ToBits(poly, w), a), Register(ToBits(poly, w), b);
    ToNatInjective(Xor(ra, Ones(w)), Xor(rb, Ones(w)));
    XorCancels(ra, Ones(w));
    XorCancels(rb, Ones(w));
  }

  /** Result and register determine each other: one is the other's complement. */
  lemma {:induction false} RegisterOfCrc(w: nat, p: nat, buf: seq<byte>)
    requires w > 0
    ensures CrcValue(w, p, buf) == Pow2(w) - 1 - ToNat(Register(ToBits(p, w), buf)) < Pow2(w)
    ensures ToBits(Pow2(w) - 1 - CrcValue(w, p, buf), w) == Register(ToBits(p, w), buf)
    ensures ToBits(CrcValue(w, p, buf), w) == Xor(Register(ToBits(p, w), buf), Ones(w))
  {
    var r := Register(ToBits(p, w), buf);
    ToNatComplement(r);
    ToBitsToNat(r);
    ToBitsToNat(Xor(r, Ones(w)));
  }

  // ---------- Burst detection ----------

  /** The two buffers agree on every bit outside width consecutive ones. */
  ghost predicate AgreeOutside(a: seq<byte>, b: seq<byte>, lo: nat, width: nat)
    requires |a| == |b|
  {
    forall i :: 0 <= i < 8 * |a| && !(lo <= i < lo + width) ==> MessageBits(a)[i] == MessageBits(b)[i]
  }

  /** crc16 detects every burst of up to 16 bits, wherever it falls in whatever buffer. */
  lemma {:induction false} Crc16DetectsBursts(a: seq<byte>, b: seq<byte>, lo: nat)
    requires |a| == |b| && a != b && AgreeOutside(a, b, lo, 16)
    ensures Crc16Value(a) != Crc16Value(b)
  {
    MessageBitsInjective(a, b);
    PolynomialBit(15);
    BurstDetected(ToBits(CRC_POLYNOMIAL, 16), MessageBits(a), MessageBits(b), lo);
    CrcValueInjective(16, CRC_POLYNOMIAL, a, b);
  }

  /** Seventeen bits are too many, for any 16-bit polynomial: its own pattern goes unseen. */
  lemma {:induction false} LongerBurstMissedBy(p: u16) returns (a: seq<byte>, b: seq<byte>)
    ensures |a| == |b| && a != b && AgreeOutside(a, b, 0, 17)
    ensures CrcValue(16, p, a) == CrcValue(16, p, b)
  {
    var n := 2 * p + 1;
    a, b := [n % 0x100, n / 0x100 % 0x100, n / 0x1_0000], [0, 0, 0];
    PatternBits(p, a);
    ZeroBits(b);
    PatternCollides(16, p, 7, a, b);
  }

  lemma {:induction false} PatternCollides(w: nat, p: nat, after: nat, a: seq<byte>, b: seq<byte>)
    requires w > 0
    requires MessageBits(a) == ([true] + ToBits(p, w)) + Zeros(after)
    requires MessageBits(b) == Zeros(w + 1) + Zeros(after)
    ensures CrcValue(w, p, a) == CrcValue(w, p, b)
  {
    PaddedBurstMissed(ToBits(p, w), after);
    CrcValueInjective(w, p, a, b);
  }

  lemma {:induction false} PaddedBurstMissed(poly: Bits, after: nat)
    requires |poly| > 0
    ensures Feed(poly, Zeros(|poly|), ([true] + poly) + Zeros(after))
         == Feed(poly, Zeros(|poly|), Zeros(|poly| + 1) + Zeros(after))
  {
    LongerBurstMissed(poly);
    FeedConcat(poly, Zeros(|poly|), [true] + poly, Zeros(after));
    FeedConcat(poly, Zeros(|poly|), Zeros(|poly| + 1), Zeros(after));
  }

  lemma {:induction false} PatternBits(p: u16, a: seq<byte>)
    requires |a| == 3 && a[0] as nat + 0x100 * a[1] as nat + 0x1_0000 * a[2] as nat == 2 * p + 1
    ensures MessageBits(a) == ([true] + ToBits(p, 16)) + Zeros(7)
  {
    MessageBitsOfThree(a);
    var n: nat := 2 * p + 1;
    assert n / 2 == p && n % 2 == 1;
    assert ToBits(n, 24) == [true] + ToBits(p, 23);
    Pow2Values();
    ToBitsWider(p, 16, 23);
  }

  lemma {:induction false} ZeroBits(b: seq<byte>)
    requires b == [0, 0, 0]
    ensures MessageBits(b) == Zeros(17) + Zeros(7)
  {
    MessageBitsOfThree(b);
    ToBitsZero(24);
  }

  lemma {:induction false} MessageBitsOfThree(a: seq<byte>)
    requires |a| == 3
    ensures MessageBits(a) == ToBits(a[0] as nat + 0x100 * a[1] as nat + 0x1_0000 * a[2] as nat, 24)
  {
    Pow2Values();
    MessageBitsOfTwo(a[..2]);
    ToBitsConcat(a[0] as nat + 0x100 * a[1] as nat, 16, a[2], 8);
  }

  lemma {:induction false} MessageBitsOfTwo(a: seq<byte>)
    requires |a| == 2
    ensures MessageBits(a) == ToBits(a[0] as nat + 0x100 * a[1] as nat, 16)
  {
    Pow2Values();
    MessageBitsOfOne(a[..1]);
    assert MessageBits(a) == MessageBits(a[..1]) + ByteBits(a[1]);
    ToBitsConcat(a[0], 8, a[1], 8);
  }

  lemma {:induction false} MessageBitsOfOne(a: seq<byte>)
    requires |a| == 1
    ensures MessageBits(a) == ByteBits(a[0])
  {
    assert a[..0] == [];
  }

  // ---------- Division ----------

  /** x^16 + x^13 + x^12 + x^11 + x^10 + x^9 + x^8 + x^7 + x^6 + x^3 + 1 */
  const GENERATOR_16: Gf2.Poly := {16, 13, 12, 11, 10, 9, 8, 7, 6, 3, 0}

  /** 0x93FC and its halves, down to its top bit. */
  const HALVES: seq<nat> :=
    [0x93FC, 0x49FE, 0x24FF, 0x127F, 0x93F, 0x49F, 0x24F, 0x127, 0x93, 0x49, 0x24, 0x12, 9, 4, 2, 1]

  lemma {:induction false} HalvesOfPolynomial(p: nat, i: nat)
    requires p == CRC_POLYNOMIAL && i < 16
    ensures Halve(p, i) == HALVES[i]
  {
    if i > 0 {
      HalvesOfPolynomial(p, i - 1);
      HalveNext(p, i - 1);
    }
  }

  lemma {:induction false} PolynomialBit(i: nat)
    requires i < 16
    ensures ToBits(CRC_POLYNOMIAL, 16)[i] <==> i in {2, 3, 4, 5, 6, 7, 8, 9, 12, 15}
  {
    HalvesOfPolynomial(CRC_POLYNOMIAL, i);
    BitAt(CRC_POLYNOMIAL, 16, i);
  }

  lemma {:induction false} GeneratorOfPolynomial()
    ensures Gf2.Generator(ToBits(CRC_POLYNOMIAL, 16)) == GENERATOR_16
  {
    var poly := ToBits(CRC_POLYNOMIAL, 16);
    forall e: nat ensures e in Gf2.PolyOf(poly) <==> e in {13, 12, 11, 10, 9, 8, 7, 6, 3, 0} {
      assert Gf2.Coefficient(poly, e) <==> e < 16 && poly[15 - e];
      if e < 16 {
        PolynomialBit(15 - e);
      }
    }
  }

  /** The uncomplemented result is the remainder of M(x) x^w, and no other polynomial is. */
  lemma {:induction false} CrcIsRemainder(w: nat, p: nat, buf: seq<byte>, r: Gf2.Poly)
    requires w > 0
    ensures CrcValue(w, p, buf) < Pow2(w)
    ensures Gf2.IsRemainder(Gf2.ShiftUp(Gf2.PolyOf(MessageBits(buf)), w), Gf2.Generator(ToBits(p, w)), w, r)
       <==> r == Gf2.PolyOf(ToBits(Pow2(w) - 1 - CrcValue(w, p, buf), w))
  {
    var poly := ToBits(p, w);
    var m, s := Gf2.ShiftUp(Gf2.PolyOf(MessageBits(buf)), w), Gf2.PolyOf(Register(poly, buf));
    RegisterOfCrc(w, p, buf);
    Gf2.GeneratorDegree(poly);
    Gf2.FeedIsRemainder(poly, MessageBits(buf));
    if Gf2.IsRemainder(m, Gf2.Generator(poly), w, r) {
      Gf2.RemainderUnique(m, Gf2.Generator(poly), w, r, s);
    }
  }

  /** The same, with the divisor and the largest word given in another form. */
  lemma {:induction false} RemainderBy(w: nat, p: nat, divisor: Gf2.Poly, top: nat, buf: seq<byte>, value: nat,
                                       r: Gf2.Poly)
    requires w > 0 && Pow2(w) == top + 1 && Gf2.Generator(ToBits(p, w)) == divisor && CrcValue(w, p, buf) == value
    ensures value <= top
    ensures Gf2.IsRemainder(Gf2.ShiftUp(Gf2.PolyOf(MessageBits(buf)), w), divisor, w, r)
       <==> r == Gf2.PolyOf(ToBits(top - value, w))
  {
    CrcIsRemainder(w, p, buf, r);
  }

  /** For crc16 the divisor is the polynomial that 0x93FC encodes, bit-reflected. */
  lemma {:induction false} Crc16IsRemainder(buf: seq<byte>, r: Gf2.Poly)
    ensures Crc16Value(buf) <= 0xFFFF
    ensures Gf2.IsRemainder(Gf2.ShiftUp(Gf2.PolyOf(MessageBits(buf)), 16), GENERATOR_16, 16, r)
       <==> r == Gf2.PolyOf(ToBits(0xFFFF - Crc16Value(buf), 16))
  {
    Pow2Values();
    GeneratorOfPolynomial();
    RemainderBy(16, CRC_POLYNOMIAL, GENERATOR_16, 0xFFFF, buf, Crc16Value(buf), r);
  }

  /** An error goes unnoticed exactly when the generator divides the error polynomial. */
  lemma {:induction false} Crc16CollidesIffDivides(a: seq<byte>, b: seq<byte>)
    requires |a| == |b|
    ensures Crc16Value(a) == Crc16Value(b)
       <==> Gf2.Divides(GENERATOR_16, Gf2.Add(Gf2.PolyOf(MessageBits(a)), Gf2.PolyOf(MessageBits(b))))
  {
    PolynomialBit(15);
    GeneratorOfPolynomial();
    CrcValueInjective(16, CRC_POLYNOMIAL, a, b);
    Gf2.CollideIffDivides(ToBits(CRC_POLYNOMIAL, 16), MessageBits(a), MessageBits(b));
  }

  // ---------- Which polynomials are sound ----------

  ghost predicate DetectsBufferBursts(p: u16) {
    forall a: seq<byte>, b: seq<byte>, lo: nat | |a| == |b| && a != b && AgreeOutside(a, b, lo, 16) ::
      CrcValue(16, p, a) != CrcValue(16, p, b)
  }

  /** Over buffers, too, a 16-bit polynomial sees all 16-bit bursts iff its top bit is set. */
  lemma {:induction false} DetectsBufferBurstsIff(p: u16)
    ensures DetectsBufferBursts(p) <==> p >= 0x8000
  {
    Pow2Values();
    TopBitIff(p, 16);
    if p >= 0x8000 {
      forall a: seq<byte>, b: seq<byte>, lo: nat | |a| == |b| && a != b && AgreeOutside(a, b, lo, 16)
        ensures CrcValue(16, p, a) != CrcValue(16, p, b)
      {
        MessageBitsInjective(a, b);
        BurstDetected(ToBits(p, 16), MessageBits(a), MessageBits(b), lo);
        CrcValueInjective(16, p, a, b);
      }
    } else {
      var a, b := BurstMissedBy(p);
    }
  }

  lemma {:induction false} BurstMissedBy(p: u16) returns (a: seq<byte>, b: seq<byte>)
    requires p < 0x8000
    ensures |a| == |b| && a != b && AgreeOutside(a, b, 0, 16)
    ensures CrcValue(16, p, a) == CrcValue(16, p, b)
  {
    var n := 2 * p + 1;
    a, b := [n % 0x100, n / 0x100], [0, 0];
    CollapsingBits(p, a);
    ZeroPairBits(b);
    NoTopBit(p);
    CollapsingCollides(16, p, a, b);
  }

  lemma {:induction false} ZeroPairBits(b: seq<byte>)
    requires b == [0, 0]
    ensures MessageBits(b) == Zeros(16)
  {
    MessageBitsOfTwo(b);
    ToBitsZero(16);
  }

  lemma {:induction false} NoTopBit(p: u16)
    requires p < 0x8000
    ensures !ToBits(p, 16)[15]
  {
    Pow2Values();
    TopBitIff(p, 16);
  }

  lemma {:induction false} CollapsingCollides(w: nat, p: nat, a: seq<byte>, b: seq<byte>)
    requires w > 0 && !ToBits(p, w)[w - 1]
    requires MessageBits(a) == Collapsing(ToBits(p, w)) && MessageBits(b) == Zeros(w)
    ensures CrcValue(w, p, a) == CrcValue(w, p, b)
  {
    CollapsingBurstMissed(ToBits(p, w));
    CrcValueInjective(w, p, a, b);
  }

  lemma {:induction false} CollapsingBits(p: u16, a: seq<byte>)
    requires |a| == 2 && a[0] as nat + 0x100 * a[1] as nat == 2 * p + 1
    ensures MessageBits(a) == Collapsing(ToBits(p, 16))
  {
    var n: nat := 2 * p + 1;
    MessageBitsOfTwo(a);
    assert n / 2 == p && n % 2 == 1;
    ToBitsPrefix(p, 15, 16);
  }

  // ---------- Linearity and composition ----------

  function XorByte(x: byte, y: byte): byte {
    ToBitsToNat(Xor(ByteBits(x), ByteBits(y)));
    Pow2Values();
    ToNat(Xor(ByteBits(x), ByteBits(y)))
  }

  function XorBuffers(a: seq<byte>, b: seq<byte>): (c: seq<byte>)
    requires |a| == |b|
    ensures |c| == |a|
  {
    seq(|a|, i requires 0 <= i < |a| => XorByte(a[i], b[i]))
  }

  lemma {:induction false} MessageBitsXor(a: seq<byte>, b: seq<byte>)
    requires |a| == |b|
    ensures MessageBits(XorBuffers(a, b)) == Xor(MessageBits(a), MessageBits(b))
  {
    if a != [] {
      var k := |a| - 1;
      assert XorBuffers(a, b)[..k] == XorBuffers(a[..k], b[..k]);
      MessageBitsXor(a[..k], b[..k]);
      ToBitsToNat(Xor(ByteBits(a[k]), ByteBits(b[k])));
    }
  }

  /** The register is linear in the buffer, whatever the width and polynomial. */
  lemma {:induction false} RegisterXor(poly: Bits, a: seq<byte>, b: seq<byte>)
    requires |poly| > 0 && |a| == |b|
    ensures Register(poly, XorBuffers(a, b)) == Xor(Register(poly, a), Register(poly, b))
  {
    var z := Zeros(|poly|);
    MessageBitsXor(a, b);
    FeedXor(poly, z, z, MessageBits(a), MessageBits(b));
    XorZeroIffEqual(z, z);
  }

  /** So the results are affine: the sum of two, complemented, is the result of the sum. */
  lemma {:induction false} CrcAffine(w: nat, p: nat, a: seq<byte>, b: seq<byte>)
    requires w > 0 && |a| == |b|
    ensures ToBits(CrcValue(w, p, XorBuffers(a, b)), w)
         == Xor(Xor(ToBits(CrcValue(w, p, a), w), ToBits(CrcValue(w, p, b), w)), Ones(w))
  {
    RegisterXor(ToBits(p, w), a, b);
    RegisterOfCrc(w, p, a);
    RegisterOfCrc(w, p, b);
    RegisterOfCrc(w, p, XorBuffers(a, b));
  }

  /** Registers compose: the first part is stepped on, the second starts afresh. */
  lemma {:induction false} RegisterConcat(poly: Bits, a: seq<byte>, b: seq<byte>)
    requires |poly| > 0
    ensures Register(poly, a + b) == Xor(Steps(poly, Register(poly, a), 8 * |b|), Register(poly, b))
  {
    MessageBitsConcat(a, b);
    FeedSplit(poly, Zeros(|poly|), MessageBits(a), MessageBits(b));
  }

  // ---------- Width collapse ----------

  /** A wider register under a polynomial without high bits never uses its high bits. */
  lemma {:induction false} FeedWiden(poly: Bits, m: Bits, w: nat)
    requires 0 < |poly| <= w
    ensures Feed(Widen(poly, w), Zeros(w), m) == Widen(Feed(poly, Zeros(|poly|), m), w)
  {
    if m == [] {
      assert Zeros(w) == Widen(Zeros(|poly|), w);
    } else {
      var k := |m| - 1;
      FeedWiden(poly, m[..k], w);
      StepWiden(poly, Inject(Feed(poly, Zeros(|poly|), m[..k]), m[k]), w);
      assert Inject(Widen(Feed(poly, Zeros(|poly|), m[..k]), w), m[k])
          == Widen(Inject(Feed(poly, Zeros(|poly|), m[..k]), m[k]), w);
    }
  }

  lemma {:induction false} StepWiden(poly: Bits, r: Bits, w: nat)
    requires 0 < |r| == |poly| <= w
    ensures Step(Widen(poly, w), Widen(r, w)) == Widen(Step(poly, r), w)
  {
    assert Widen(r, w)[1..] + [false] == Widen(r[1..] + [false], w);
  }

  lemma {:induction false} CrcValueWiden(p: u16, buf: seq<byte>)
    ensures CrcValue(16, p, buf) <= 0xFFFF
    ensures CrcValue(32, p, buf) == 0xFFFF_0000 + CrcValue(16, p, buf)
  {
    Pow2Values();
    var r := Register(ToBits(p, 16), buf);
    ToBitsWider(p, 16, 32);
    FeedWiden(ToBits(p, 16), MessageBits(buf), 32);
    RegisterOfCrc(16, p, buf);
    RegisterOfCrc(32, p, buf);
    ToNatWiden(r, 32);
    ToBitsToNat(r);
  }

  /** crc32 is crc16 in a wider word: its upper half is constant. */
  lemma {:induction false} Crc32IsCrc16(buf: seq<byte>)
    ensures Crc32Value(buf) == 0xFFFF_0000 + Crc16Value(buf)
  {
    CrcValueWiden(CRC_POLYNOMIAL, buf);
  }
}
