/** String descriptors (section 9.6.7 of the USB 2.0 specification) as usb_get_string reads them. */
module UsbString {
  import opened Prelude
  import opened Words

  /** The size of the receive buffer, USB_MAX_STRING_LEN of the kernel's header. */
  const STRING_BUFFER: nat := 126
  const STRING_HEADER: nat := 2

  /** The nonzero bytes, in order. */
  function NonZero(s: seq<byte>): (r: seq<byte>)
    ensures |r| <= |s| && forall k :: 0 <= k < |r| ==> r[k] != 0
  {
    if s == [] then []
    else
      var before := NonZero(s[..|s| - 1]);
      if s[|s| - 1] != 0 then before + [s[|s| - 1]] else before
  }

  /** What the source keeps of a descriptor: the nonzero bytes from position 2 to its length. */
  function Kept(d: seq<byte>): seq<byte>
    requires |d| == STRING_BUFFER && d[0] <= STRING_BUFFER
  {
    if d[0] <= STRING_HEADER then [] else NonZero(d[STRING_HEADER..d[0]])
  }

  /** A C string: the bytes before the first NUL. */
  function CString(s: seq<byte>): (r: seq<byte>)
    ensures r <= s && forall k :: 0 <= k < |r| ==> r[k] != 0
  {
    if s == [] || s[0] == 0 then [] else [s[0]] + CString(s[1..])
  }

  lemma {:induction false} CStringOf(s: seq<byte>, rest: seq<byte>)
    requires forall k :: 0 <= k < |s| ==> s[k] != 0
    ensures CString(s + [0] + rest) == s
  {
    if s == [] {
      assert (s + [0] + rest)[0] == 0;
    } else {
      assert (s + [0] + rest)[1..] == s[1..] + [0] + rest;
      CStringOf(s[1..], rest);
    }
  }

  /** A control transfer: the receive buffer, or None when it failed. */
  predicate Receivable(received: Option<seq<byte>>) {
    received.Some? ==> |received.value| == STRING_BUFFER
  }

  /** The length byte, which is the device's, stays within the receive buffer. */
  predicate Readable(received: Option<seq<byte>>)
    requires Receivable(received)
  {
    received.Some? ==> received.value[0] <= 126
  }

  /** The text a caller gets: nothing when the transfer failed. */
  function TextOf(received: Option<seq<byte>>): seq<byte>
    requires Receivable(received) && Readable(received)
  {
    match received case None => [] case Some(d) => Kept(d)
  }

  /** How many bytes at positions from lo up to but not including hi are not zero. */
  function CountNonZero(d: seq<byte>, lo: nat, hi: nat): nat
    requires lo <= hi <= |d|
  {
    if lo == hi then 0 else CountNonZero(d, lo, hi - 1) + if d[hi - 1] != 0 then 1 else 0
  }

  /** Every nonzero byte from position 2 up to the length is in its place in the text, and there are no others. */
  predicate IsText(text: seq<byte>, d: seq<byte>)
    requires 2 <= |d| && d[0] <= |d|
  {
    && |text| == CountNonZero(d, 2, if d[0] < 2 then 2 else d[0])
    && forall i :: 2 <= i < d[0] && d[i] != 0 ==> InPlace(text, d, i)
  }

  predicate InPlace(text: seq<byte>, d: seq<byte>, i: nat)
    requires 2 <= i < |d|
  {
    CountNonZero(d, 2, i) < |text| && text[CountNonZero(d, 2, i)] == d[i]
  }

  lemma {:induction false} KeptIsText(d: seq<byte>)
    requires |d| == STRING_BUFFER && d[0] <= STRING_BUFFER
    ensures IsText(Kept(d), d)
  {
    if d[0] > 2 {
      UpToIsText(d, d[0]);
    }
  }

  lemma {:induction false} UpToIsText(d: seq<byte>, n: nat)
    requires 2 <= n <= |d|
    ensures |KeptUpTo(d, n)| == CountNonZero(d, 2, n)
    ensures forall i :: 2 <= i < n && d[i] != 0 ==> InPlace(KeptUpTo(d, n), d, i)
  {
    if n > 2 {
      UpToIsText(d, n - 1);
      assert d[2..n][..n - 3] == d[2..n - 1];
      assert KeptUpTo(d, n) == KeptUpTo(d, n - 1) + if d[n - 1] != 0 then [d[n - 1]] else [];
      forall i | 2 <= i < n && d[i] != 0 ensures InPlace(KeptUpTo(d, n), d, i) {
        assert i < n - 1 ==> InPlace(KeptUpTo(d, n - 1), d, i);
      }
    }
  }

  /**
    usb_get_string: the text, its NUL, and nothing else of the caller's buffer. None stands
    for a read past the receive buffer or a write past the caller's, whose size the source
    does not know.
   */
  method GetString(received: Option<seq<byte>>, buff: array<byte>) returns (ret: Option<int>)
    requires Receivable(received)
    modifies buff
    ensures ret.Some? <==> Readable(received) && |TextOf(received)| < buff.Length
    ensures ret.Some? ==> ret.value == if received.Some? then 0 else 1
    ensures ret.Some? ==> buff[..|TextOf(received)|] == TextOf(received) && buff[|TextOf(received)|] == 0
    ensures ret.Some? ==> CString(buff[..]) == TextOf(received)
    ensures ret.Some? ==> match received case None => TextOf(received) == [] case Some(d) => IsText(TextOf(received), d)
    ensures ret.Some? ==> forall k :: |TextOf(received)| < k < buff.Length ==> buff[k] == old(buff[k])
  {
    var p := 0;
    if received.Some? {
      var ok;
      ok, p := CopyNonZero(received.value, buff);
      if !ok {
        return None;
      }
    }
    if p >= buff.Length {
      return None;
    }
    buff[p] := 0;
    if received.Some? {
      KeptIsText(received.value);
    }
    CStringOf(TextOf(received), buff[p + 1..]);
    assert buff[..] == TextOf(received) + [0] + buff[p + 1..];
    return Some(if received.Some? then 0 else 1);
  }

  /** The copying loop, which moves a write pointer past every byte it keeps. */
  method CopyNonZero(d: seq<byte>, buff: array<byte>) returns (ok: bool, p: nat)
    requires |d| == STRING_BUFFER
    modifies buff
    ensures ok <==> d[0] <= STRING_BUFFER && |Kept(d)| <= buff.Length
    ensures ok ==> p == |Kept(d)| && buff[..p] == Kept(d)
    ensures ok ==> forall k :: p <= k < buff.Length ==> buff[k] == old(buff[k])
  {
    var i := STRING_HEADER;
    p := 0;
    while i < d[0]
      invariant STRING_HEADER <= i <= STRING_BUFFER && (i <= d[0] || i == STRING_HEADER)
      invariant p == |KeptUpTo(d, i)| <= buff.Length && buff[..p] == KeptUpTo(d, i)
      invariant forall k :: p <= k < buff.Length ==> buff[k] == old(buff[k])
    {
      if i >= STRING_BUFFER {
        return false, p;
      }
      KeptStep(d, i);
      if d[i] != 0 {
        if p >= buff.Length {
          return false, p;
        }
        buff[p] := d[i];
        p := p + 1;
      }
      i := i + 1;
    }
    return true, p;
  }

  /** What has been kept before position i. */
  function KeptUpTo(d: seq<byte>, i: nat): seq<byte>
    requires STRING_HEADER <= i <= |d|
  {
    NonZero(d[STRING_HEADER..i])
  }

  /** One byte more, and how much the rest of the descriptor will need at least. */
  lemma {:induction false} KeptStep(d: seq<byte>, i: nat)
    requires |d| == STRING_BUFFER && STRING_HEADER <= i < |d| && i < d[0]
    ensures KeptUpTo(d, i + 1) == KeptUpTo(d, i) + if d[i] != 0 then [d[i]] else []
    ensures d[0] <= STRING_BUFFER ==> |KeptUpTo(d, i + 1)| <= |Kept(d)|
  {
    assert d[STRING_HEADER..i + 1][..i - STRING_HEADER] == d[STRING_HEADER..i];
    if d[0] <= STRING_BUFFER {
      NonZeroMonotone(d, i + 1);
    }
  }

  lemma {:induction false} NonZeroMonotone(d: seq<byte>, i: nat)
    requires |d| == STRING_BUFFER && STRING_HEADER <= i <= d[0] <= STRING_BUFFER
    ensures |NonZero(d[STRING_HEADER..i])| <= |Kept(d)|
    decreases d[0] as int - i
  {
    if i < d[0] {
      NonZeroMonotone(d, i + 1);
      assert d[STRING_HEADER..i + 1][..i - STRING_HEADER] == d[STRING_HEADER..i];
    }
  }

  // ---------- Encoded strings ----------

  /** Code units, little-endian. */
  function EncodeUnits(units: seq<u16>): (s: seq<byte>)
    ensures |s| == 2 * |units|
  {
    if units == [] then [] else EncodeUnits(units[..|units| - 1]) + Encode16(units[|units| - 1])
  }

  /** A descriptor for the units, in a receive buffer with anything after it. */
  predicate Holds(d: seq<byte>, units: seq<u16>) {
    && |d| == 126 && 2 + 2 * |units| <= 126
    && d[..2 + 2 * |units|] == [2 + 2 * |units|, 3] + EncodeUnits(units)
  }

  predicate SingleByte(units: seq<u16>) {
    forall k :: 0 <= k < |units| ==> 1 <= units[k] <= 0xFF
  }

  predicate SameText(s: seq<byte>, units: seq<u16>) {
    |s| == |units| && forall k :: 0 <= k < |s| ==> s[k] == units[k]
  }

  lemma {:induction false} NonZeroConcat(a: seq<byte>, b: seq<byte>)
    ensures NonZero(a + b) == NonZero(a) + NonZero(b)
  {
    if b == [] {
      assert a + b == a;
    } else {
      assert (a + b)[..|a + b| - 1] == a + b[..|b| - 1];
      NonZeroConcat(a, b[..|b| - 1]);
    }
  }

  lemma {:induction false} NonZeroOfUnit(u: u16)
    ensures 1 <= u <= 0xFF ==> NonZero(Encode16(u)) == [u]
  {
    var s := Encode16(u);
    assert s[..1][..0] == [] && NonZero(s[..1]) == if s[0] != 0 then [s[0]] else [];
  }

  lemma {:induction false} NonZeroOfUnits(units: seq<u16>)
    requires SingleByte(units)
    ensures SameText(NonZero(EncodeUnits(units)), units)
  {
    if units != [] {
      var k := |units| - 1;
      NonZeroOfUnits(units[..k]);
      NonZeroConcat(EncodeUnits(units[..k]), Encode16(units[k]));
      NonZeroOfUnit(units[k]);
      SameTextSnoc(NonZero(EncodeUnits(units[..k])), units[..k], units[k]);
      assert units == units[..k] + [units[k]];
    }
  }

  lemma {:induction false} SameTextSnoc(s: seq<byte>, units: seq<u16>, u: byte)
    requires SameText(s, units)
    ensures SameText(s + [u], units + [u])
  {
  }

  /** The string comes back exactly when every code unit is one nonzero byte. */
  lemma {:induction false} StringRoundTripIff(d: seq<byte>, units: seq<u16>)
    requires Holds(d, units)
    ensures SameText(Kept(d), units) <==> SingleByte(units)
  {
    var n := STRING_HEADER + 2 * |units|;
    assert d[0] == d[..n][0] == n;
    assert d[STRING_HEADER..n] == d[..n][STRING_HEADER..] == EncodeUnits(units);
    if SingleByte(units) {
      NonZeroOfUnits(units);
    }
  }
}
