/** The checksum the ADB wire format carries (lib/adb/adb.c): a wrapping sum of bytes. */
module Checksum {
  import opened Words

  const MODULUS: nat := 0x1_0000_0000
  /** The longest buffer whose byte sum always fits 32 bits. */
  const LONGEST_EXACT: nat := 16843009

  function ByteSum(s: seq<byte>): nat {
    if s == [] then 0 else ByteSum(s[..|s| - 1]) + s[|s| - 1]
  }

  function ChecksumValue(s: seq<byte>): u32 {
    ByteSum(s) % MODULUS
  }

  /** The loop adds in 32 bits, wrapping at every step. */
  method Checksum(payload: seq<byte>) returns (sum: u32)
    ensures sum == ChecksumValue(payload)
  {
    sum := 0;
    for i := 0 to |payload|
      invariant sum == ChecksumValue(payload[..i])
    {
      assert payload[..i + 1][..i] == payload[..i];
      WrappedStep(ByteSum(payload[..i]), payload[i]);
      sum := (sum as int + payload[i] as int) % MODULUS;
    }
    assert payload[..|payload|] == payload;
  }

  lemma {:induction false} WrappedStep(n: nat, b: byte)
    ensures (n % MODULUS + b as nat) % MODULUS == (n + b as nat) % MODULUS
  {
  }

  lemma {:induction false} ByteSumConcat(a: seq<byte>, b: seq<byte>)
    ensures ByteSum(a + b) == ByteSum(a) + ByteSum(b)
  {
    if b == [] {
      assert a + b == a;
    } else {
      assert (a + b)[..|a + b| - 1] == a + b[..|b| - 1];
      ByteSumConcat(a, b[..|b| - 1]);
    }
  }

  lemma {:induction false} ChecksumConcat(a: seq<byte>, b: seq<byte>)
    ensures ChecksumValue(a + b) == (ChecksumValue(a) as int + ChecksumValue(b) as int) % MODULUS
  {
    ByteSumConcat(a, b);
    WrappedSum(ByteSum(a), ByteSum(b));
  }

  lemma {:induction false} WrappedSum(m: nat, n: nat)
    ensures (m + n) % MODULUS == (m % MODULUS + n % MODULUS) % MODULUS
  {
  }

  /** The order of the bytes is not protected. */
  lemma {:induction false} ChecksumOfPermutation(a: seq<byte>, b: seq<byte>)
    requires multiset(a) == multiset(b)
    ensures ChecksumValue(a) == ChecksumValue(b)
  {
    ByteSumOfPermutation(a, b);
  }

  lemma {:induction false} ByteSumOfPermutation(a: seq<byte>, b: seq<byte>)
    requires multiset(a) == multiset(b)
    ensures ByteSum(a) == ByteSum(b)
  {
    if a == [] {
      assert |multiset(b)| == 0;
    } else {
      var k := |a| - 1;
      WithoutByte(a, k);
      assert a[k] in multiset(b);
      var j :| 0 <= j < |b| && b[j] == a[k];
      WithoutByte(b, j);
      assert a[..k] + a[k + 1..] == a[..k];
      ByteSumOfPermutation(a[..k], b[..j] + b[j + 1..]);
    }
  }

  lemma {:induction false} WithoutByte(s: seq<byte>, i: nat)
    requires i < |s|
    ensures multiset(s[..i] + s[i + 1..]) == multiset(s) - multiset{s[i]}
    ensures ByteSum(s) == ByteSum(s[..i] + s[i + 1..]) + s[i] as nat
  {
    assert s == s[..i] + [s[i]] + s[i + 1..];
    SumAround(s[..i], s[i], s[i + 1..]);
    ByteSumConcat(s[..i], s[i + 1..]);
  }

  /** A change confined to one byte is always seen. */
  lemma {:induction false} ChecksumSeesOneByte(a: seq<byte>, i: nat, x: byte)
    requires i < |a|
    ensures ChecksumValue(a[i := x]) == ChecksumValue(a) <==> x == a[i]
  {
    var before, after := a[..i], a[i + 1..];
    assert a == before + [a[i]] + after && a[i := x] == before + [x] + after;
    SumAround(before, a[i], after);
    SumAround(before, x, after);
    if x != a[i] {
      NotCongruent(ByteSum(before) + ByteSum(after), x, a[i]);
    }
  }

  lemma {:induction false} SumAround(before: seq<byte>, x: byte, after: seq<byte>)
    ensures ByteSum(before + [x] + after) == ByteSum(before) + ByteSum(after) + x as nat
  {
    ByteSumConcat(before + [x], after);
    ByteSumConcat(before, [x]);
    assert [x][..0] == [] && ByteSum([x]) == x as nat;
  }

  lemma {:induction false} NotCongruent(n: nat, x: byte, y: byte)
    requires x != y
    ensures (n + x as nat) % MODULUS != (n + y as nat) % MODULUS
  {
    var a, b := n + x as nat, n + y as nat;
    assert a == MODULUS * (a / MODULUS) + a % MODULUS;
    assert b == MODULUS * (b / MODULUS) + b % MODULUS;
  }

  lemma {:induction false} ByteSumBound(s: seq<byte>)
    ensures ByteSum(s) <= 255 * |s|
  {
    if s != [] {
      ByteSumBound(s[..|s| - 1]);
    }
  }

  function Repeat(x: byte, n: nat): (s: seq<byte>)
    ensures |s| == n
  {
    seq(n, _ => x)
  }

  lemma {:induction false} ByteSumOfRepeat(x: byte, n: nat)
    ensures ByteSum(Repeat(x, n)) == x as nat * n
  {
    if n > 0 {
      assert Repeat(x, n)[..n - 1] == Repeat(x, n - 1);
      ByteSumOfRepeat(x, n - 1);
    }
  }

  ghost predicate ExactAtLength(n: nat) {
    forall s: seq<byte> | |s| == n :: ChecksumValue(s) == ByteSum(s)
  }

  /** Up to LONGEST_EXACT bytes the checksum is the exact sum, and not one byte further. */
  lemma {:induction false} ExactIffShort(n: nat)
    ensures ExactAtLength(n) <==> n <= LONGEST_EXACT
  {
    if n <= LONGEST_EXACT {
      forall s: seq<byte> | |s| == n ensures ChecksumValue(s) == ByteSum(s) {
        ByteSumBound(s);
      }
    } else {
      ByteSumOfRepeat(0xFF, n);
      assert ByteSum(Repeat(0xFF, n)) >= MODULUS;
    }
  }
}
