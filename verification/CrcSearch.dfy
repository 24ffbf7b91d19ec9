/** The two polynomial searches of lib/adb/adb.c; what they print is returned beside the result. */
module CrcSearch {
  import Lfsr
  import opened Words
  import opened Crc
  import CrcProperties
  import opened Prelude

  /** The three numbers crc16_2 prints for a polynomial that matches. */
  datatype Report = Report(crc: nat, inverted: nat, poly: nat)

  predicate Matches(w: nat, p: nat, buf: seq<byte>)
    requires w > 0
  {
    CrcValue(w, p, buf) == SEARCHED_CRC
  }

  predicate Reported(reports: seq<Report>, p: nat) {
    exists i :: 0 <= i < |reports| && reports[i].poly == p
  }

  ghost predicate Increasing(reports: seq<Report>) {
    forall i, j :: 0 <= i < j < |reports| ==> reports[i].poly < reports[j].poly
  }

  /** The reports list exactly the matching polynomials below n, in increasing order. */
  ghost predicate ReportsBelow(reports: seq<Report>, n: nat, buf: seq<byte>) {
    && Increasing(reports)
    && (forall p: nat :: Reported(reports, p) <==> p < n && Matches(16, p, buf))
    && (forall i :: 0 <= i < |reports| ==>
          reports[i].crc == 0xFDCD && reports[i].inverted == 0x232)
  }

  /** The body both searches share: the register for one polynomial, and its complement. */
  method TryPolynomial(w: nat, buf: seq<byte>, poly: nat) returns (crc: nat, inverted: nat)
    requires w >= 8
    ensures inverted == CrcValue(w, poly, buf) && crc == Pow2(w) - 1 - inverted
  {
    var register := FoldBuffer(buf, ToBits(poly, w));
    CrcProperties.RegisterOfCrc(w, poly, buf);
    crc, inverted := ToNat(register), ToNat(Lfsr.Xor(register, Ones(w)));
  }

  /** crc16_2: reports every matching polynomial but 0xFFFF, which is never tried. */
  method SearchCrc16(buf: seq<byte>) returns (r: nat, reports: seq<Report>)
    ensures r == CrcValue(16, 0xFFFE, buf)
    ensures ReportsBelow(reports, 0xFFFF, buf)
  {
    var poly, crc := 0, 0;
    r, reports := 0, [];
    while poly < 0xFFFF
      invariant poly <= 0xFFFF
      invariant poly > 0 ==> r == CrcValue(16, poly - 1, buf)
      invariant ReportsBelow(reports, poly, buf)
    {
      crc, r := TryPolynomial(16, buf, poly);
      Pow2Values();
      ReportsStep(reports, poly, buf);
      if r == SEARCHED_CRC {
        reports := reports + [Report(crc, r, poly)];
      }
      poly := poly + 1;
    }
  }

  lemma {:induction false} ReportsStep(reports: seq<Report>, n: nat, buf: seq<byte>)
    requires ReportsBelow(reports, n, buf)
    ensures ReportsBelow(if Matches(16, n, buf)
                         then reports + [Report(0xFFFF - SEARCHED_CRC, SEARCHED_CRC, n)]
                         else reports, n + 1, buf)
  {
    ReportAdds(reports, Report(0xFFFF - SEARCHED_CRC, SEARCHED_CRC, n));
  }

  lemma {:induction false} ReportAdds(reports: seq<Report>, last: Report)
    requires Increasing(reports) && forall p: nat :: Reported(reports, p) ==> p < last.poly
    ensures Increasing(reports + [last])
    ensures forall p: nat :: Reported(reports + [last], p) <==> Reported(reports, p) || p == last.poly
  {
    var all := reports + [last];
    forall p: nat ensures Reported(all, p) <==> Reported(reports, p) || p == last.poly {
      if Reported(reports, p) {
        var i :| 0 <= i < |reports| && reports[i].poly == p;
        assert all[i].poly == p;
      }
      assert all[|reports|].poly == last.poly;
    }
    assert forall i :: 0 <= i < |reports| ==> Reported(reports, reports[i].poly);
  }

  predicate NoneBelow(w: nat, n: nat, buf: seq<byte>)
    requires w > 0
  {
    n == 0 || (NoneBelow(w, n - 1, buf) && !Matches(w, n - 1, buf))
  }

  lemma {:induction false} NoneBelowIff(w: nat, n: nat, buf: seq<byte>)
    requires w > 0
    ensures NoneBelow(w, n, buf) <==> forall p: nat :: p < n ==> !Matches(w, p, buf)
  {
    if NoneBelow(w, n, buf) {
      forall p: nat | p < n ensures !Matches(w, p, buf) {
        if Matches(w, p, buf) {
          SomeBelow(w, p, n, buf);
        }
      }
    } else {
      var p := SomeMatch(w, n, buf);
    }
  }

  lemma {:induction false} SomeMatch(w: nat, n: nat, buf: seq<byte>) returns (p: nat)
    requires w > 0 && !NoneBelow(w, n, buf)
    ensures p < n && Matches(w, p, buf)
  {
    p := n - 1;
    if !Matches(w, p, buf) {
      p := SomeMatch(w, p, buf);
    }
  }

  lemma {:induction false} SomeBelow(w: nat, p: nat, n: nat, buf: seq<byte>)
    requires w > 0 && p < n && Matches(w, p, buf)
    ensures !NoneBelow(w, n, buf)
    decreases n
  {
    if p < n - 1 {
      SomeBelow(w, p, n - 1, buf);
    }
  }

  /** What crc32_2 has found out once it stops, below a limit. */
  ghost predicate Searched(w: nat, limit: nat, buf: seq<byte>, r: nat, found: Option<nat>)
    requires w > 0 && limit > 0
  {
    match found
    case Some(least) => least < limit && r == SEARCHED_CRC && Matches(w, least, buf) && NoneBelow(w, least, buf)
    case None => r == CrcValue(w, limit - 1, buf) != SEARCHED_CRC && NoneBelow(w, limit, buf)
  }

  lemma {:induction false} SearchedIff(w: nat, limit: nat, buf: seq<byte>, r: nat, found: Option<nat>)
    requires w > 0 && limit > 0 && Searched(w, limit, buf, r, found)
    ensures r == SEARCHED_CRC <==> !NoneBelow(w, limit, buf)
    ensures r == SEARCHED_CRC <==> found.Some?
  {
    if found.Some? {
      SomeBelow(w, found.value, limit, buf);
    }
  }

  /** One more polynomial tried: the search stops there, or knows one more that does not match. */
  lemma {:induction false} TriedNext(w: nat, limit: nat, poly: nat, buf: seq<byte>, r: nat)
    requires w > 0 && r == CrcValue(w, poly, buf) && NoneBelow(w, poly, buf) && poly < limit
    ensures if r == SEARCHED_CRC then Searched(w, limit, buf, r, Some(poly)) else Searched(w, poly + 1, buf, r, None)
  {
  }

  /** crc32_2 for any width and limit: stops at the least matching polynomial below the limit. */
  method SearchLeast(w: nat, limit: nat, buf: seq<byte>) returns (r: nat, found: Option<nat>)
    requires w >= 8 && limit > 0
    ensures r == SEARCHED_CRC <==> !NoneBelow(w, limit, buf)
    ensures r == SEARCHED_CRC <==> found.Some?
    ensures Searched(w, limit, buf, r, found)
  {
    var poly, crc := 0, 0;
    r, found := 0, None;
    while poly < limit
      invariant poly <= limit && found == None
      invariant if poly == 0 then NoneBelow(w, 0, buf) else Searched(w, poly, buf, r, None)
    {
      crc, r := TryPolynomial(w, buf, poly);
      TriedNext(w, limit, poly, buf, r);
      if r == SEARCHED_CRC {
        found := Some(poly);
        break;
      }
      poly := poly + 1;
    }
    SearchedIff(w, limit, buf, r, found);
  }

  /** crc32_2: 0xFFFFFFFF is never tried, and no polynomial of 16 bits can match. */
  method SearchCrc32(buf: seq<byte>) returns (r: nat, found: Option<nat>)
    ensures r == 0x232 <==> !NoneBelow(32, 0xFFFF_FFFF, buf)
    ensures r == 0x232 <==> found.Some?
    ensures found.Some? ==>
              0x1_0000 <= found.value < 0xFFFF_FFFF && Matches(32, found.value, buf) && NoneBelow(32, found.value, buf)
    ensures found.None? ==> r == CrcValue(32, 0xFFFF_FFFE, buf)
  {
    r, found := SearchLeast(32, 0xFFFF_FFFF, buf);
    if found.Some? {
      NarrowNeverMatches(found.value, buf);
    }
  }

  /** No polynomial of 16 bits can give a 32-bit result with a zero upper half. */
  lemma {:induction false} NarrowNeverMatches(p: nat, buf: seq<byte>)
    requires Matches(32, p, buf)
    ensures p >= 0x1_0000
  {
    if p < 0x1_0000 {
      CrcProperties.CrcValueWiden(p, buf);
    }
  }
}
