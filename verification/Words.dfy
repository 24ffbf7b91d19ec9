/**
  C's unsigned words: bytes and registers as numbers, their bits, and the little-endian
  layout in which the protocols carry them.
 */
module Words {
  import opened Lfsr

  type byte = x: int | 0 <= x < 0x100
  type u16 = x: int | 0 <= x < 0x1_0000
  type u32 = x: int | 0 <= x < 0x1_0000_0000

  // ---------- Bits of a word ----------

  function Pow2(w: nat): (p: nat)
    ensures p > 0
  {
    if w == 0 then 1 else 2 * Pow2(w - 1)
  }

  /** The low w bits of a number, least significant first. */
  function ToBits(n: nat, w: nat): (s: Bits)
    ensures |s| == w
  {
    if w == 0 then [] else [n % 2 == 1] + ToBits(n / 2, w - 1)
  }

  function ToNat(s: Bits): nat {
    if s == [] then 0 else (if s[0] then 1 else 0) + 2 * ToNat(s[1..])
  }

  function Ones(w: nat): (s: Bits)
    ensures |s| == w && forall i :: 0 <= i < w ==> s[i]
  {
    seq(w, _ => true)
  }

  /** C's >> on an unsigned word. */
  function ShiftRight(s: Bits, k: nat): (t: Bits)
    requires k <= |s|
    ensures |t| == |s|
  {
    s[k..] + Zeros(k)
  }

  /** C's & on words of one width. */
  function And(a: Bits, b: Bits): (c: Bits)
    requires |a| == |b|
    ensures |c| == |a| && forall i :: 0 <= i < |c| ==> c[i] == (a[i] && b[i])
  {
    seq(|a|, i requires 0 <= i < |a| => a[i] && b[i])
  }

  /** The conversion of a narrow unsigned word to w bits. */
  function Widen(s: Bits, w: nat): (t: Bits)
    requires |s| <= w
    ensures |t| == w
  {
    s + Zeros(w - |s|)
  }

  lemma {:induction false} ToNatToBits(n: nat, w: nat)
    requires n < Pow2(w)
    ensures ToNat(ToBits(n, w)) == n
  {
    if w > 0 {
      ToNatToBits(n / 2, w - 1);
      assert ToBits(n, w)[1..] == ToBits(n / 2, w - 1);
    }
  }

  lemma {:induction false} ToBitsToNat(s: Bits)
    ensures ToNat(s) < Pow2(|s|) && ToBits(ToNat(s), |s|) == s
  {
    if s != [] {
      ToBitsToNat(s[1..]);
      assert s == [s[0]] + s[1..];
    }
  }

  lemma {:induction false} ToNatInjective(a: Bits, b: Bits)
    requires |a| == |b|
    ensures ToNat(a) == ToNat(b) <==> a == b
  {
    ToBitsToNat(a);
    ToBitsToNat(b);
  }

  lemma {:induction false} ToNatWiden(s: Bits, w: nat)
    requires |s| <= w
    ensures ToNat(Widen(s, w)) == ToNat(s)
  {
    if s != [] {
      ToNatWiden(s[1..], w - 1);
      assert Widen(s, w)[1..] == Widen(s[1..], w - 1);
    } else if w > 0 {
      ToNatWiden(s, w - 1);
      assert Widen(s, w)[1..] == Widen(s, w - 1);
    }
  }

  /** Complementing every bit is subtracting from the all-ones word. */
  lemma {:induction false} ToNatComplement(s: Bits)
    ensures ToNat(Xor(s, Ones(|s|))) == Pow2(|s|) - 1 - ToNat(s)
  {
    if s != [] {
      ToNatComplement(s[1..]);
      assert Xor(s, Ones(|s|))[1..] == Xor(s[1..], Ones(|s| - 1));
    }
  }

  lemma {:induction false} ToBitsZero(w: nat)
    ensures ToBits(0, w) == Zeros(w)
  {
    if w > 0 {
      ToBitsZero(w - 1);
    }
  }

  lemma {:induction false} ToBitsWider(n: nat, v: nat, w: nat)
    requires v <= w && n < Pow2(v)
    ensures ToBits(n, w) == Widen(ToBits(n, v), w)
  {
    if v == 0 {
      ToBitsZero(w);
    } else {
      ToBitsWider(n / 2, v - 1, w - 1);
    }
  }

  lemma {:induction false} ToBitsConcat(lo: nat, v: nat, hi: nat, w: nat)
    requires lo < Pow2(v)
    ensures ToBits(lo + Pow2(v) * hi, v + w) == ToBits(lo, v) + ToBits(hi, w)
  {
    if v == 0 {
      assert ToBits(lo, v) + ToBits(hi, w) == ToBits(hi, w);
    } else {
      assert Pow2(v) * hi == 2 * (Pow2(v - 1) * hi);
      assert (lo + Pow2(v) * hi) / 2 == lo / 2 + Pow2(v - 1) * hi;
      ToBitsConcat(lo / 2, v - 1, hi, w);
    }
  }

  lemma {:induction false} ToBitsPrefix(n: nat, v: nat, w: nat)
    requires v <= w
    ensures ToBits(n, w)[..v] == ToBits(n, v)
  {
    if v > 0 {
      ToBitsPrefix(n / 2, v - 1, w - 1);
    }
  }

  lemma {:induction false} TopBitIff(n: nat, w: nat)
    requires w > 0 && n < Pow2(w)
    ensures ToBits(n, w)[w - 1] <==> n >= Pow2(w - 1)
  {
    if w > 1 {
      TopBitIff(n / 2, w - 1);
    }
  }

  function Halve(n: nat, i: nat): nat {
    if i == 0 then n else Halve(n / 2, i - 1)
  }

  lemma {:induction false} HalveNext(n: nat, i: nat)
    ensures Halve(n, i + 1) == Halve(n, i) / 2
  {
    if i > 0 {
      HalveNext(n / 2, i - 1);
    }
  }

  lemma {:induction false} BitAt(n: nat, w: nat, i: nat)
    requires i < w
    ensures ToBits(n, w)[i] <==> Halve(n, i) % 2 == 1
  {
    if i > 0 {
      BitAt(n / 2, w - 1, i - 1);
    }
  }

  lemma {:induction false} Pow2Add(v: nat, w: nat)
    ensures Pow2(v + w) == Pow2(v) * Pow2(w)
  {
    if v > 0 {
      Pow2Add(v - 1, w);
    }
  }

  lemma {:induction false} Pow2Values()
    ensures Pow2(8) == 0x100 && Pow2(16) == 0x1_0000 && Pow2(32) == 0x1_0000_0000
  {
    Pow2Add(8, 8);
    Pow2Add(16, 16);
  }

  // ---------- Little-endian fields ----------

  function Encode16(n: u16): (s: seq<byte>)
    ensures |s| == 2
  {
    [n % 0x100, n / 0x100]
  }

  function Decode16(s: seq<byte>, at: nat): u16
    requires at + 2 <= |s|
  {
    s[at] as int + 0x100 * s[at + 1] as int
  }

  function Encode32(n: u32): (s: seq<byte>)
    ensures |s| == 4
  {
    [n % 0x100, n / 0x100 % 0x100, n / 0x1_0000 % 0x100, n / 0x100_0000]
  }

  /** The bytes do not overlap, so C's | of the shifted bytes is their sum. */
  function Decode32(s: seq<byte>, at: nat): u32
    requires at + 4 <= |s|
  {
    s[at] as int + 0x100 * s[at + 1] as int + 0x1_0000 * s[at + 2] as int + 0x100_0000 * s[at + 3] as int
  }

  lemma {:induction false} DecodeEncode16(n: u16, before: seq<byte>, after: seq<byte>)
    ensures Decode16(before + Encode16(n) + after, |before|) == n
  {
    var s := before + Encode16(n) + after;
    assert s[|before|] == n % 0x100 && s[|before| + 1] == n / 0x100;
  }

  lemma {:induction false} DecodeEncode32(n: u32, before: seq<byte>, after: seq<byte>)
    ensures Decode32(before + Encode32(n) + after, |before|) == n
  {
    var s, k := before + Encode32(n) + after, |before|;
    assert s[k] == Encode32(n)[0] && s[k + 1] == Encode32(n)[1];
    assert s[k + 2] == Encode32(n)[2] && s[k + 3] == Encode32(n)[3];
    BytesOfWord(n);
  }

  lemma {:induction false} BytesOfWord(n: u32)
    ensures n == n % 0x100 + 0x100 * (n / 0x100 % 0x100) + 0x1_0000 * (n / 0x1_0000 % 0x100)
                 + 0x100_0000 * (n / 0x100_0000)
  {
    var a := n / 0x100;
    var b := a / 0x100;
    assert b == n / 0x1_0000 && b / 0x100 == n / 0x100_0000;
  }

  /** Two halves, one after the other, are the word they make up. */
  lemma {:induction false} Encode32OfHalves(low: u16, high: u16)
    ensures low + 0x1_0000 * high < 0x1_0000_0000
    ensures Encode16(low) + Encode16(high) == Encode32(low + 0x1_0000 * high)
  {
    var n: int := low + 0x1_0000 * high;
    assert n / 0x100 == low / 0x100 + 0x100 * high;
    assert n / 0x1_0000 == high && n / 0x100_0000 == high / 0x100;
  }

  /** Words one after the other. */
  function EncodeWords(ws: seq<u32>): (s: seq<byte>)
    ensures |s| == 4 * |ws|
  {
    if ws == [] then [] else Encode32(ws[0]) + EncodeWords(ws[1..])
  }

  lemma {:induction false} EncodeWordsConcat(a: seq<u32>, b: seq<u32>)
    ensures EncodeWords(a + b) == EncodeWords(a) + EncodeWords(b)
  {
    if a == [] {
      assert a + b == b;
    } else {
      assert (a + b)[1..] == a[1..] + b;
      EncodeWordsConcat(a[1..], b);
    }
  }

  lemma {:induction false} WordsOfThree(a: u32, b: u32, c: u32)
    ensures EncodeWords([a, b, c]) == Encode32(a) + Encode32(b) + Encode32(c)
  {
    assert EncodeWords([]) == [];
    assert [c][1..] == [] && Encode32(c) + [] == Encode32(c);
    assert [b, c][1..] == [c] && EncodeWords([b, c]) == Encode32(b) + EncodeWords([c]);
    assert [a, b, c][1..] == [b, c] && EncodeWords([a, b, c]) == Encode32(a) + EncodeWords([b, c]);
  }

  lemma {:induction false} DecodeWordAt(ws: seq<u32>, rest: seq<byte>, k: nat)
    requires k < |ws|
    ensures Decode32(EncodeWords(ws) + rest, 4 * k) == ws[k]
  {
    var before, after := EncodeWords(ws[..k]), EncodeWords(ws[k + 1..]);
    assert ws == ws[..k] + ([ws[k]] + ws[k + 1..]);
    EncodeWordsConcat(ws[..k], [ws[k]] + ws[k + 1..]);
    assert ([ws[k]] + ws[k + 1..])[1..] == ws[k + 1..];
    assert EncodeWords(ws) + rest == before + Encode32(ws[k]) + (after + rest);
    DecodeEncode32(ws[k], before, after + rest);
  }

  /** The bytes of a word are determined by its value. */
  lemma {:induction false} Encode32Of(a: byte, b: byte, c: byte, d: byte)
    ensures a as int + 0x100 * b as int + 0x1_0000 * c as int + 0x100_0000 * d as int < 0x1_0000_0000
    ensures Encode32(a as int + 0x100 * b as int + 0x1_0000 * c as int + 0x100_0000 * d as int) == [a, b, c, d]
  {
    var n: int := a as int + 0x100 * b as int + 0x1_0000 * c as int + 0x100_0000 * d as int;
    assert n / 0x100 == b as int + 0x100 * c as int + 0x1_0000 * d as int;
    assert n / 0x1_0000 == c as int + 0x100 * d as int && n / 0x100_0000 == d as int;
  }

  /** C's reading of an unsigned 32-bit word as a signed int. */
  function AsSigned(n: u32): int {
    if n < 0x8000_0000 then n else n - 0x1_0000_0000
  }
}
