/**
  The shift register behind every checksum loop of the ADB library, at any width.

  A register is the sequence of its bits, least significant first. One step is the body
  of the bit loop: drop the low bit and, when it was set, add the polynomial. Feeding a
  message bit adds it to the low bit before the step. Both the 16-bit and the 32-bit
  loops are instances, so what is proved here holds for both.
 */
module Lfsr {

  type Bits = seq<bool>

  function Zeros(n: nat): (z: Bits)
    ensures |z| == n && forall i :: 0 <= i < n ==> !z[i]
  {
    seq(n, _ => false)
  }

  function Xor(a: Bits, b: Bits): (c: Bits)
    requires |a| == |b|
    ensures |c| == |a| && forall i :: 0 <= i < |c| ==> c[i] == (a[i] != b[i])
  {
    seq(|a|, i requires 0 <= i < |a| => a[i] != b[i])
  }

  function Step(poly: Bits, r: Bits): (s: Bits)
    requires |r| == |poly| > 0
    ensures |s| == |r|
  {
    var shifted := r[1..] + [false];
    if r[0] then Xor(shifted, poly) else shifted
  }

  function Steps(poly: Bits, r: Bits, n: nat): (s: Bits)
    requires |r| == |poly| > 0
    ensures |s| == |r|
  {
    if n == 0 then r else Step(poly, Steps(poly, r, n - 1))
  }

  function Inject(r: Bits, b: bool): (s: Bits)
    requires |r| > 0
    ensures |s| == |r|
  {
    [r[0] != b] + r[1..]
  }

  /** The plain bit-serial register: message bits enter one at a time. */
  function Feed(poly: Bits, r: Bits, m: Bits): (s: Bits)
    requires |r| == |poly| > 0
    ensures |s| == |r|
  {
    if m == [] then r
    else Step(poly, Inject(Feed(poly, r, m[..|m| - 1]), m[|m| - 1]))
  }

  // ---------- Linearity ----------

  lemma {:induction false} XorCancels(a: Bits, b: Bits)
    requires |a| == |b|
    ensures Xor(Xor(a, b), b) == a
  {
  }

  lemma {:induction false} XorZeroIffEqual(a: Bits, b: Bits)
    requires |a| == |b|
    ensures Xor(a, b) == Zeros(|a|) <==> a == b
  {
    if Xor(a, b) == Zeros(|a|) {
      forall i | 0 <= i < |a| ensures a[i] == b[i] {
        assert !Xor(a, b)[i];
      }
    }
  }

  lemma {:induction false} StepXor(poly: Bits, a: Bits, b: Bits)
    requires |a| == |b| == |poly| > 0
    ensures Step(poly, Xor(a, b)) == Xor(Step(poly, a), Step(poly, b))
  {
  }

  lemma {:induction false} StepsXor(poly: Bits, a: Bits, b: Bits, n: nat)
    requires |a| == |b| == |poly| > 0
    ensures Steps(poly, Xor(a, b), n) == Xor(Steps(poly, a, n), Steps(poly, b, n))
  {
    if n > 0 {
      StepsXor(poly, a, b, n - 1);
      StepXor(poly, Steps(poly, a, n - 1), Steps(poly, b, n - 1));
    }
  }

  lemma {:induction false} FeedXor(poly: Bits, r: Bits, s: Bits, m: Bits, n: Bits)
    requires |r| == |s| == |poly| > 0 && |m| == |n|
    ensures Feed(poly, Xor(r, s), Xor(m, n)) == Xor(Feed(poly, r, m), Feed(poly, s, n))
  {
    if m != [] {
      var k := |m| - 1;
      assert Xor(m, n)[..k] == Xor(m[..k], n[..k]);
      FeedXor(poly, r, s, m[..k], n[..k]);
      var fr, fs := Feed(poly, r, m[..k]), Feed(poly, s, n[..k]);
      assert Inject(Xor(fr, fs), m[k] != n[k]) == Xor(Inject(fr, m[k]), Inject(fs, n[k]));
      StepXor(poly, Inject(fr, m[k]), Inject(fs, n[k]));
    }
  }

  // ---------- Composition ----------

  lemma {:induction false} FeedConcat(poly: Bits, r: Bits, a: Bits, b: Bits)
    requires |r| == |poly| > 0
    ensures Feed(poly, r, a + b) == Feed(poly, Feed(poly, r, a), b)
  {
    if b == [] {
      assert a + b == a;
    } else {
      var k := |b| - 1;
      assert (a + b)[..|a + b| - 1] == a + b[..k];
      FeedConcat(poly, r, a, b[..k]);
    }
  }

  lemma {:induction false} FeedZeros(poly: Bits, r: Bits, n: nat)
    requires |r| == |poly| > 0
    ensures Feed(poly, r, Zeros(n)) == Steps(poly, r, n)
  {
    if n > 0 {
      assert Zeros(n)[..n - 1] == Zeros(n - 1);
      FeedZeros(poly, r, n - 1);
      assert Inject(Steps(poly, r, n - 1), false) == Steps(poly, r, n - 1);
    }
  }

  lemma {:induction false} StepsOfZero(poly: Bits, n: nat)
    requires |poly| > 0
    ensures Steps(poly, Zeros(|poly|), n) == Zeros(|poly|)
  {
    if n > 0 {
      StepsOfZero(poly, n - 1);
    }
  }

  lemma {:induction false} StepsAdd(poly: Bits, r: Bits, m: nat, n: nat)
    requires |r| == |poly| > 0
    ensures Steps(poly, r, m + n) == Steps(poly, Steps(poly, r, m), n)
  {
    if n > 0 {
      StepsAdd(poly, r, m, n - 1);
    }
  }

  /** A message splits: the tail is processed from zero, the head is only stepped on. */
  lemma {:induction false} FeedSplit(poly: Bits, r: Bits, a: Bits, b: Bits)
    requires |r| == |poly| > 0
    ensures Feed(poly, r, a + b)
         == Xor(Steps(poly, Feed(poly, r, a), |b|), Feed(poly, Zeros(|poly|), b))
  {
    var mid := Feed(poly, r, a);
    FeedConcat(poly, r, a, b);
    assert Xor(mid, Zeros(|poly|)) == mid && Xor(Zeros(|b|), b) == b;
    FeedXor(poly, mid, Zeros(|poly|), Zeros(|b|), b);
    FeedZeros(poly, mid, |b|);
  }

  // ---------- Whole-register form and byte folding ----------

  /** While only zeros leave at the low end, stepping is shifting. */
  lemma {:induction false} StepsOfHigh(poly: Bits, high: Bits, k: nat)
    requires |poly| == |high| + k > 0
    ensures Steps(poly, Zeros(k) + high, k) == high + Zeros(k)
  {
    ShiftOut(poly, high, k, k);
    assert Zeros(0) + high + Zeros(k) == high + Zeros(k);
  }

  lemma {:induction false} ShiftOut(poly: Bits, high: Bits, k: nat, j: nat)
    requires |poly| == |high| + k > 0 && j <= k
    ensures Steps(poly, Zeros(k) + high, j) == Zeros(k - j) + high + Zeros(j)
  {
    if j == 0 {
      assert Zeros(k) + high + Zeros(0) == Zeros(k) + high;
    } else {
      ShiftOut(poly, high, k, j - 1);
      assert (Zeros(k - j + 1) + high + Zeros(j - 1))[1..] + [false] == Zeros(k - j) + high + Zeros(j);
    }
  }

  /** Up to a register's width of message bits may be added at once and then stepped through. */
  lemma {:induction false} FeedIsWholeRegister(poly: Bits, r: Bits, m: Bits)
    requires |r| == |poly| > 0 && |m| <= |poly|
    ensures Feed(poly, r, m) == Steps(poly, Xor(r, m + Zeros(|poly| - |m|)), |m|)
  {
    var w := |poly|;
    if m == [] {
      assert Xor(r, m + Zeros(w)) == r;
    } else {
      var k := |m| - 1;
      var x := Xor(r, m[..k] + Zeros(w - k));
      var unit := [m[k]] + Zeros(w - k - 1);
      FeedIsWholeRegister(poly, r, m[..k]);
      LastBitApart(r, m);
      StepsXor(poly, x, Zeros(k) + unit, k);
      StepsOfHigh(poly, unit, k);
      InjectIsXor(Steps(poly, x, k), m[k]);
      assert unit + Zeros(k) == [m[k]] + Zeros(w - 1);
    }
  }

  lemma {:induction false} LastBitApart(r: Bits, m: Bits)
    requires 0 < |m| <= |r|
    ensures var k := |m| - 1;
            var unit := [m[k]] + Zeros(|r| - k - 1);
            Xor(r, m + Zeros(|r| - |m|)) == Xor(Xor(r, m[..k] + Zeros(|r| - k)), Zeros(k) + unit)
  {
  }

  lemma {:induction false} InjectIsXor(r: Bits, b: bool)
    requires |r| > 0
    ensures Xor(r, [b] + Zeros(|r| - 1)) == Inject(r, b)
  {
  }

  /** The byte-folded form: step the low k bits alone, then add the shifted high part. */
  lemma {:induction false} StepsFold(poly: Bits, r: Bits, k: nat)
    requires |r| == |poly| > 0 && k <= |poly|
    ensures Steps(poly, r, k)
         == Xor(Steps(poly, r[..k] + Zeros(|poly| - k), k), r[k..] + Zeros(k))
  {
    var low, high := r[..k] + Zeros(|poly| - k), Zeros(k) + r[k..];
    assert Xor(low, high) == r;
    StepsXor(poly, low, high, k);
    StepsOfHigh(poly, r[k..], k);
  }

  // ---------- Bijectivity ----------

  /** The register that steps to s, when the polynomial has its top bit set. */
  function Unstep(poly: Bits, s: Bits): (r: Bits)
    requires |s| == |poly| > 0
    ensures |r| == |s|
  {
    var n := |s| - 1;
    [s[n]] + (if s[n] then Xor(s, poly)[..n] else s[..n])
  }

  lemma {:induction false} UnstepAfterStep(poly: Bits, r: Bits)
    requires |r| == |poly| > 0 && poly[|poly| - 1]
    ensures Unstep(poly, Step(poly, r)) == r
  {
    var n, shifted := |r| - 1, r[1..] + [false];
    assert Step(poly, r)[n] == r[0];
    assert shifted[..n] == r[1..];
    XorCancels(shifted, poly);
    assert r == [r[0]] + r[1..];
  }

  lemma {:induction false} StepAfterUnstep(poly: Bits, s: Bits)
    requires |s| == |poly| > 0 && poly[|poly| - 1]
    ensures Step(poly, Unstep(poly, s)) == s
  {
    var n := |s| - 1;
    var sum := if s[n] then Xor(s, poly) else s;
    assert !sum[n];
    assert Unstep(poly, s)[1..] + [false] == sum[..n] + [false] == sum;
    XorCancels(s, poly);
  }

  /** The nonzero register that a polynomial without top bit steps to zero. */
  function Collapsing(poly: Bits): (r: Bits)
    requires |poly| > 0
    ensures |r| == |poly| && r[0]
  {
    [true] + poly[..|poly| - 1]
  }

  lemma {:induction false} CollapsingCollapses(poly: Bits)
    requires |poly| > 0 && !poly[|poly| - 1]
    ensures Step(poly, Collapsing(poly)) == Zeros(|poly|)
  {
  }

  ghost predicate StepInjective(poly: Bits)
    requires |poly| > 0
  {
    forall a: Bits, b: Bits {:trigger Step(poly, a), Step(poly, b)} | |a| == |b| == |poly| ::
      Step(poly, a) == Step(poly, b) ==> a == b
  }

  ghost predicate Reached(poly: Bits, s: Bits)
    requires |poly| > 0
  {
    exists r: Bits :: |r| == |poly| && Step(poly, r) == s
  }

  ghost predicate StepSurjective(poly: Bits)
    requires |poly| > 0
  {
    forall s: Bits {:trigger Reached(poly, s)} | |s| == |poly| :: Reached(poly, s)
  }

  lemma {:induction false} StepBijectiveIffTopBit(poly: Bits)
    requires |poly| > 0
    ensures StepInjective(poly) <==> poly[|poly| - 1]
    ensures StepSurjective(poly) <==> poly[|poly| - 1]
  {
    if poly[|poly| - 1] {
      forall a: Bits, b: Bits | |a| == |b| == |poly| && Step(poly, a) == Step(poly, b)
        ensures a == b
      {
        UnstepAfterStep(poly, a);
        UnstepAfterStep(poly, b);
      }
      forall s: Bits | |s| == |poly|
        ensures Reached(poly, s)
      {
        StepAfterUnstep(poly, s);
      }
    } else {
      NotInjective(poly);
      NotSurjective(poly);
    }
  }

  lemma {:induction false} NotInjective(poly: Bits)
    requires |poly| > 0 && !poly[|poly| - 1]
    ensures !StepInjective(poly)
  {
    var z := Zeros(|poly|);
    CollapsingCollapses(poly);
    assert Step(poly, z) == z;
    assert Collapsing(poly)[0] && !z[0];
  }

  lemma {:induction false} NotSurjective(poly: Bits)
    requires |poly| > 0 && !poly[|poly| - 1]
    ensures !StepSurjective(poly)
  {
    var s := Zeros(|poly| - 1) + [true];
    if Reached(poly, s) {
      var r: Bits :| |r| == |poly| && Step(poly, r) == s;
      TopBitAfterStep(poly, r);
      assert false;
    }
  }

  lemma {:induction false} TopBitAfterStep(poly: Bits, r: Bits)
    requires |r| == |poly| > 0
    ensures Step(poly, r)[|r| - 1] == (r[0] && poly[|poly| - 1])
  {
  }

  lemma {:induction false} StepsInjective(poly: Bits, a: Bits, b: Bits, n: nat)
    requires |a| == |b| == |poly| > 0 && poly[|poly| - 1]
    requires Steps(poly, a, n) == Steps(poly, b, n)
    ensures a == b
  {
    if n > 0 {
      UnstepAfterStep(poly, Steps(poly, a, n - 1));
      UnstepAfterStep(poly, Steps(poly, b, n - 1));
      StepsInjective(poly, a, b, n - 1);
    }
  }

  /** Lifted over the loop: the same message never merges two registers. */
  lemma {:induction false} FeedInjective(poly: Bits, a: Bits, b: Bits, m: Bits)
    requires |a| == |b| == |poly| > 0 && poly[|poly| - 1]
    requires Feed(poly, a, m) == Feed(poly, b, m)
    ensures a == b
  {
    var z := Zeros(|poly|);
    FeedSplit(poly, a, [], m);
    FeedSplit(poly, b, [], m);
    assert [] + m == m;
    var f, sa, sb := Feed(poly, z, m), Steps(poly, a, |m|), Steps(poly, b, |m|);
    assert Xor(Xor(sa, f), f) == sa && Xor(Xor(sb, f), f) == sb;
    StepsInjective(poly, a, b, |m|);
  }

  // ---------- Burst detection ----------

  /** Two messages of one length that differ, and only inside width consecutive bits. */
  ghost predicate DifferByBurst(m: Bits, n: Bits, lo: nat, width: nat)
  {
    && |m| == |n|
    && m != n
    && forall i :: 0 <= i < |m| && !(lo <= i < lo + width) ==> m[i] == n[i]
  }

  ghost predicate DetectsBursts(poly: Bits)
    requires |poly| > 0
  {
    forall m: Bits, n: Bits, lo: nat | DifferByBurst(m, n, lo, |poly|) ::
      Feed(poly, Zeros(|poly|), m) != Feed(poly, Zeros(|poly|), n)
  }

  lemma {:induction false} BurstDetected(poly: Bits, m: Bits, n: Bits, lo: nat)
    requires |poly| > 0 && poly[|poly| - 1]
    requires DifferByBurst(m, n, lo, |poly|)
    ensures Feed(poly, Zeros(|poly|), m) != Feed(poly, Zeros(|poly|), n)
  {
    var z := Zeros(|poly|);
    var hi := BurstOfDifference(m, n, lo, |poly|);
    BurstLeavesNonzero(poly, lo, Xor(m, n)[lo..hi], |m| - hi);
    FeedXor(poly, z, z, m, n);
    XorZeroIffEqual(z, z);
    XorZeroIffEqual(Feed(poly, z, m), Feed(poly, z, n));
  }

  /** Cuts the difference of two messages into zeros, a nonzero burst, and zeros. */
  lemma {:induction false} BurstOfDifference(m: Bits, n: Bits, lo: nat, width: nat) returns (hi: nat)
    requires DifferByBurst(m, n, lo, width)
    ensures lo <= hi <= |m| && hi - lo <= width
    ensures true in Xor(m, n)[lo..hi]
    ensures Xor(m, n) == Zeros(lo) + Xor(m, n)[lo..hi] + Zeros(|m| - hi)
  {
    var e := Xor(m, n);
    var i :| 0 <= i < |m| && m[i] != n[i];
    hi := if lo + width < |m| then lo + width else |m|;
    assert e[lo..hi][i - lo];
  }

  lemma {:induction false} BurstLeavesNonzero(poly: Bits, before: nat, burst: Bits, after: nat)
    requires |poly| > 0 && poly[|poly| - 1]
    requires |burst| <= |poly| && true in burst
    ensures Feed(poly, Zeros(|poly|), Zeros(before) + burst + Zeros(after)) != Zeros(|poly|)
  {
    var w, z := |poly|, Zeros(|poly|);
    FeedConcat(poly, z, Zeros(before) + burst, Zeros(after));
    FeedConcat(poly, z, Zeros(before), burst);
    FeedZeros(poly, z, before);
    StepsOfZero(poly, before);
    FeedIsWholeRegister(poly, z, burst);
    var loaded := burst + Zeros(w - |burst|);
    assert Xor(z, loaded) == loaded;
    var i :| 0 <= i < |burst| && burst[i];
    assert loaded[i];
    FeedZeros(poly, Feed(poly, z, burst), after);
    StepsOfZero(poly, |burst|);
    StepsOfZero(poly, after);
    if Steps(poly, Feed(poly, z, burst), after) == z {
      StepsInjective(poly, Feed(poly, z, burst), z, after);
      StepsInjective(poly, loaded, z, |burst|);
    }
  }

  /** Bursts as long as the register are all seen exactly when the polynomial has its top bit. */
  lemma {:induction false} DetectsBurstsIffTopBit(poly: Bits)
    requires |poly| > 0
    ensures DetectsBursts(poly) <==> poly[|poly| - 1]
  {
    if poly[|poly| - 1] {
      forall m: Bits, n: Bits, lo: nat | DifferByBurst(m, n, lo, |poly|)
        ensures Feed(poly, Zeros(|poly|), m) != Feed(poly, Zeros(|poly|), n)
      {
        BurstDetected(poly, m, n, lo);
      }
    } else {
      CollapsingBurstMissed(poly);
      assert DifferByBurst(Collapsing(poly), Zeros(|poly|), 0, |poly|);
    }
  }

  lemma {:induction false} CollapsingBurstMissed(poly: Bits)
    requires |poly| > 0 && !poly[|poly| - 1]
    ensures Feed(poly, Zeros(|poly|), Collapsing(poly)) == Feed(poly, Zeros(|poly|), Zeros(|poly|))
  {
    var w, z, m := |poly|, Zeros(|poly|), Collapsing(poly);
    FeedIsWholeRegister(poly, z, m);
    assert m + Zeros(0) == m && Xor(z, m) == m;
    StepsAdd(poly, m, 1, w - 1);
    assert Steps(poly, m, 1) == Step(poly, Steps(poly, m, 0));
    CollapsingCollapses(poly);
    StepsOfZero(poly, w - 1);
    FeedZeros(poly, z, w);
    StepsOfZero(poly, w);
  }

  /** One bit more is too many: a burst of width + 1 bits that no polynomial sees. */
  lemma {:induction false} LongerBurstMissed(poly: Bits)
    requires |poly| > 0
    ensures DifferByBurst([true] + poly, Zeros(|poly| + 1), 0, |poly| + 1)
    ensures Feed(poly, Zeros(|poly|), [true] + poly) == Feed(poly, Zeros(|poly|), Zeros(|poly| + 1))
  {
    var w, z := |poly|, Zeros(|poly|);
    assert ([true] + poly)[0] && !Zeros(w + 1)[0];
    FeedConcat(poly, z, [true], poly);
    FeedOne(poly);
    FeedIsWholeRegister(poly, poly, poly);
    assert poly + Zeros(0) == poly;
    XorZeroIffEqual(poly, poly);
    StepsOfZero(poly, w);
    FeedZeros(poly, z, w + 1);
    StepsOfZero(poly, w + 1);
  }

  /** A lone set bit brings the polynomial itself into the register. */
  lemma {:induction false} FeedOne(poly: Bits)
    requires |poly| > 0
    ensures Feed(poly, Zeros(|poly|), [true]) == poly
  {
    var z := Zeros(|poly|);
    assert Feed(poly, z, [true][..0]) == z;
    assert Step(poly, Inject(z, true)) == poly;
  }
}
