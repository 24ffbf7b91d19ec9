/**
  The checksum loops of the ADB library (lib/adb/adb.c): crc16, crc32 and the two
  polynomial searches. All four contain the same byte-folded loop, at 16 or 32 bits.
 */
module Crc {
  import opened Lfsr
  import opened Words

  const CRC_POLYNOMIAL: nat := 0x93FC
  const SEARCHED_CRC: nat := 0x232

  function ByteBits(b: byte): (s: Bits)
    ensures |s| == 8
  {
    ToBits(b, 8)
  }

  /** The bits of a buffer in the order in which the register meets them. */
  function MessageBits(buf: seq<byte>): (m: Bits)
    ensures |m| == 8 * |buf|
  {
    if buf == [] then [] else MessageBits(buf[..|buf| - 1]) + ByteBits(buf[|buf| - 1])
  }

  /** The plain bit-serial checksum register, the specification of the folded loop. */
  function Register(poly: Bits, buf: seq<byte>): (r: Bits)
    requires |poly| > 0
    ensures |r| == |poly|
  {
    Feed(poly, Zeros(|poly|), MessageBits(buf))
  }

  /** What the C functions return: the complemented register of the given width. */
  function CrcValue(w: nat, poly: nat, buf: seq<byte>): nat
    requires w > 0
  {
    ToNat(Xor(Register(ToBits(poly, w), buf), Ones(w)))
  }

  function Crc16Value(buf: seq<byte>): nat {
    CrcValue(16, CRC_POLYNOMIAL, buf)
  }

  function Crc32Value(buf: seq<byte>): nat {
    CrcValue(32, CRC_POLYNOMIAL, buf)
  }

  // ---------- The loops ----------

  /** CRC_CHECK_BITS: eight steps. */
  method CheckBits(start: Bits, poly: Bits) returns (val: Bits)
    requires |start| == |poly| > 0
    ensures val == Steps(poly, start, 8)
  {
    val := start;
    for i := 0 to 8
      invariant |val| == |poly| && val == Steps(poly, start, i)
    {
      val := if val[0] then Xor(ShiftRight(val, 1), poly) else ShiftRight(val, 1);
    }
  }

  /** The loop shared by the four functions: eight steps on the low byte, then add the rest. */
  method FoldBuffer(buf: seq<byte>, poly: Bits) returns (crc: Bits)
    requires |poly| >= 8
    ensures crc == Register(poly, buf)
  {
    var w := |poly|;
    crc := Zeros(w);
    for i := 0 to |buf|
      invariant crc == Register(poly, buf[..i])
    {
      var val := And(Xor(crc, Widen(ByteBits(buf[i]), w)), ToBits(0xFF, w));
      val := CheckBits(val, poly);
      FoldedByteIsFeed(poly, crc, ByteBits(buf[i]));
      RegisterSnoc(poly, buf[..i], buf[i]);
      assert buf[..i + 1] == buf[..i] + [buf[i]];
      crc := Xor(val, ShiftRight(crc, 8));
    }
    assert buf[..|buf|] == buf;
  }

  method Crc16(buf: seq<byte>) returns (r: nat)
    ensures r == Crc16Value(buf)
  {
    var crc := FoldBuffer(buf, ToBits(CRC_POLYNOMIAL, 16));
    r := ToNat(Xor(crc, Ones(16)));
  }

  method Crc32(buf: seq<byte>) returns (r: nat)
    ensures r == Crc32Value(buf)
  {
    var crc := FoldBuffer(buf, ToBits(CRC_POLYNOMIAL, 32));
    r := ToNat(Xor(crc, Ones(32)));
  }

  /** The byte-folded update equals eight bit-serial ones, at every register, byte and polynomial. */
  lemma {:induction false} FoldedByteIsFeed(poly: Bits, crc: Bits, b: Bits)
    requires |crc| == |poly| >= 8 && |b| == 8
    ensures Xor(Steps(poly, And(Xor(crc, Widen(b, |poly|)), ToBits(0xFF, |poly|)), 8), ShiftRight(crc, 8))
         == Feed(poly, crc, b)
  {
    var x := Xor(crc, Widen(b, |poly|));
    FeedIsWholeRegister(poly, crc, b);
    StepsFold(poly, x, 8);
    LowByteMask(|poly|);
    assert And(x, ToBits(0xFF, |poly|)) == x[..8] + Zeros(|poly| - 8);
    assert x[8..] == crc[8..];
  }

  lemma {:induction false} LowByteMask(w: nat)
    requires w >= 8
    ensures ToBits(0xFF, w) == Ones(8) + Zeros(w - 8)
  {
    assert Pow2(8) == 256;
    ToBitsWider(0xFF, 8, w);
    assert ToBits(0xFF, 8) == Ones(8);
  }

  lemma {:induction false} RegisterSnoc(poly: Bits, buf: seq<byte>, b: byte)
    requires |poly| > 0
    ensures Register(poly, buf + [b]) == Feed(poly, Register(poly, buf), ByteBits(b))
  {
    assert (buf + [b])[..|buf|] == buf;
    FeedConcat(poly, Zeros(|poly|), MessageBits(buf), ByteBits(b));
  }
}
