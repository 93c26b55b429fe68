/**
 src/inbound/tun_checksum.cpp: the checksum loop against the one's-complement sum of
 section 1 of RFC 1071, and the three recalculations over packet bytes.
 */
module InternetChecksum {
  import opened Bytes

  // ---- RFC 1071, section 1 ----

  /** Addition of 16-bit words with end-around carry. */
  function OnesAdd(a: Word, b: Word): Word {
    if a + b > 0xFFFF then a + b - 0xFFFF else a + b
  }

  /** The word at i; an odd last byte is padded with zero. */
  function WordAt(s: seq<Byte>, i: nat): Word
    requires i < |s|
  {
    0x100 * (s[i] as int) + (if i + 1 < |s| then s[i + 1] else 0)
  }

  /** The one's-complement sum of the 16-bit words from byte i on. */
  function OnesSumFrom(s: seq<Byte>, i: nat): Word
    decreases |s| - i
  {
    if i >= |s| then 0 else OnesAdd(WordAt(s, i), OnesSumFrom(s, i + 2))
  }

  function OnesSum(s: seq<Byte>): Word { OnesSumFrom(s, 0) }

  function Checksum(s: seq<Byte>): Word { 0xFFFF - OnesSum(s) }

  /** A receiver's test (RFC 1071, section 1): the sum over the covered bytes, checksum included, is all ones. */
  predicate Verifies(s: seq<Byte>) { OnesSum(s) == 0xFFFF }

  /** The example of section 3 of RFC 1071. */
  lemma RfcExample()
    ensures OnesSum([0x00, 0x01, 0xf2, 0x03, 0xf4, 0xf5, 0xf6, 0xf7]) == 0xddf2
  {
    var s: seq<Byte> := [0x00, 0x01, 0xf2, 0x03, 0xf4, 0xf5, 0xf6, 0xf7];
    assert OnesSumFrom(s, 6) == 0xf6f7;
    assert OnesSumFrom(s, 4) == 0xebed;
    assert OnesSumFrom(s, 2) == 0xddf1;
  }

  // ---- the loop's arithmetic ----

  const U32: nat := 0x1_0000_0000

  function WordSumFrom(s: seq<Byte>, i: nat): nat
    decreases |s| - i
  {
    if i >= |s| then 0 else WordAt(s, i) + WordSumFrom(s, i + 2)
  }

  function WordSum(s: seq<Byte>): nat { WordSumFrom(s, 0) }

  /** The folding loop: high half added to low half until nothing is left above 16 bits. */
  function Fold(x: nat): Word
    decreases x
  {
    if x < 0x1_0000 then x else Fold(x % 0x1_0000 + x / 0x1_0000)
  }

  /** The representative of x modulo 65535 in 1..65535; zero only for zero. */
  function Residue(x: nat): Word {
    if x == 0 then 0 else (x - 1) % 0xFFFF + 1
  }

  lemma ResidueStep(x: nat, k: nat)
    requires x > 0
    ensures Residue(x + 0xFFFF * k) == Residue(x)
  {
    assert (x - 1 + 0xFFFF * k) % 0xFFFF == (x - 1) % 0xFFFF;
  }

  /** Folding keeps the value modulo 65535 and yields zero only from zero. */
  lemma {:induction false} FoldIsResidue(x: nat)
    ensures Fold(x) == Residue(x)
    decreases x
  {
    if x >= 0x1_0000 {
      var y := x % 0x1_0000 + x / 0x1_0000;
      FoldIsResidue(y);
      assert x == y + 0xFFFF * (x / 0x1_0000);
      ResidueStep(y, x / 0x1_0000);
    }
  }

  lemma ResidueAdds(w: Word, x: nat)
    ensures Residue(w + x) == OnesAdd(w, Residue(x))
  {
    if x > 0 {
      var q := (x - 1) / 0xFFFF;
      assert x == Residue(x) + 0xFFFF * q;
      ResidueStep(w + Residue(x), q);
      assert w + x == w + Residue(x) + 0xFFFF * q;
      if w + Residue(x) > 0xFFFF {
        ResidueStep(w + Residue(x) - 0xFFFF, 1);
      }
    }
  }

  /** Summing first and folding once gives the sum with end-around carry at every addition. */
  lemma {:induction false} FoldedSumIsOnesSum(s: seq<Byte>, i: nat)
    ensures Fold(WordSumFrom(s, i)) == Residue(WordSumFrom(s, i)) == OnesSumFrom(s, i)
    decreases |s| - i
  {
    FoldIsResidue(WordSumFrom(s, i));
    if i < |s| {
      FoldedSumIsOnesSum(s, i + 2);
      ResidueAdds(WordAt(s, i), WordSumFrom(s, i + 2));
    }
  }

  lemma {:induction false} WordSumBound(s: seq<Byte>, i: nat)
    ensures i <= |s| ==> WordSumFrom(s, i) <= 0xFFFF * ((|s| - i + 1) / 2)
    ensures i > |s| ==> WordSumFrom(s, i) == 0
    decreases |s| - i
  {
    if i < |s| {
      WordSumBound(s, i + 2);
    }
  }

  /** The accumulation loop: 32-bit, so it wraps. */
  method AddWords(data: seq<Byte>) returns (sum: nat)
    ensures sum == WordSum(data) % U32
  {
    sum := 0;
    var i := 0;
    ghost var wraps := 0;
    while i + 1 < |data|
      invariant 0 <= i <= |data| && sum < U32
      invariant sum + WordSumFrom(data, i) + U32 * wraps == WordSum(data)
    {
      WrapOnce(sum + WordAt(data, i));
      wraps := wraps + (sum + WordAt(data, i)) / U32;
      sum := (sum + Read16(data, i)) % U32;
      i := i + 2;
    }
    if i < |data| {
      assert WordSumFrom(data, i) == WordAt(data, i);
      WrapOnce(sum + WordAt(data, i));
      wraps := wraps + (sum + WordAt(data, i)) / U32;
      sum := (sum + 0x100 * (data[i] as int)) % U32;
    }
    assert sum + U32 * wraps == WordSum(data);
    WrapsAreQuotient(sum, wraps);
  }

  lemma WrapOnce(x: nat)
    ensures x % U32 + U32 * (x / U32) == x
  {
  }

  lemma WrapsAreQuotient(sum: nat, wraps: nat)
    requires sum < U32
    ensures (sum + U32 * wraps) % U32 == sum
  {
  }

  /** The folding loop, and the complement. */
  method FoldAndComplement(start: nat) returns (value: Word)
    ensures value == 0xFFFF - Fold(start)
  {
    var sum := start;
    while sum / 0x1_0000 != 0
      invariant Fold(sum) == Fold(start)
      decreases sum
    {
      sum := sum % 0x1_0000 + sum / 0x1_0000;
    }
    return 0xFFFF - sum;
  }

  /** What `checksum` computes of any bytes: the sum wraps at 32 bits, which the RFC's does not. */
  function Computed(data: seq<Byte>): Word { 0xFFFF - Fold(WordSum(data) % U32) }

  /** The sum does not wrap, or it wraps by a multiple of 65535 and leaves something. */
  predicate WrapsHarmlessly(data: seq<Byte>) {
    WordSum(data) < U32 || (WordSum(data) % U32 != 0 && WordSum(data) / U32 % 0xFFFF == 0)
  }

  /** Subtracting 2^32 subtracts 1 modulo 65535. */
  lemma WrappedResidueIff(x: nat)
    ensures Residue(x % U32) == Residue(x) <==> x < U32 || (x % U32 != 0 && x / U32 % 0xFFFF == 0)
  {
    var r, q := x % U32, x / U32;
    assert U32 == 0xFFFF * 65537 + 1;
    assert x == r + q + 0xFFFF * (65537 * q);
    if r + q > 0 {
      ResidueStep(r + q, 65537 * q);
      if r > 0 {
        ResidueShiftedIff(r, q);
      }
    }
  }

  lemma ResidueShiftedIff(r: nat, q: nat)
    requires r > 0
    ensures Residue(r + q) == Residue(r) <==> q % 0xFFFF == 0
  {
    var k, m := q / 0xFFFF, q % 0xFFFF;
    assert r + q == r + m + 0xFFFF * k;
    ResidueStep(r + m, k);
  }

  /** `checksum` is the RFC's checksum if and only if the sum does not wrap or wraps harmlessly. */
  lemma ComputedIsChecksumIff(data: seq<Byte>)
    ensures Computed(data) == Checksum(data) <==> WrapsHarmlessly(data)
  {
    FoldedSumIsOnesSum(data, 0);
    FoldIsResidue(WordSum(data) % U32);
    WrappedResidueIff(WordSum(data));
  }

  /** `checksum`.  Up to 65537 words the sum cannot wrap. */
  method ComputeChecksum(data: seq<Byte>) returns (value: Word)
    ensures value == Computed(data)
    ensures value == Checksum(data) <==> WrapsHarmlessly(data)
    ensures |data| <= 2 * 65537 ==> value == Checksum(data)
  {
    var sum := AddWords(data);
    value := FoldAndComplement(sum);
    ComputedIsChecksumIff(data);
    WordSumBound(data, 0);
  }

  lemma {:induction false} AllOnesSum(s: seq<Byte>, i: nat)
    requires |s| % 2 == 0 && i % 2 == 0 && forall k :: 0 <= k < |s| ==> s[k] == 0xFF
    ensures i <= |s| ==> WordSumFrom(s, i) == 0xFFFF * ((|s| - i) / 2)
    ensures i < |s| ==> OnesSumFrom(s, i) == 0xFFFF
    decreases |s| - i
  {
    if i < |s| {
      AllOnesSum(s, i + 2);
    }
  }

  /** The bound is exact: on 65538 words of all ones the wrapped sum gives 1 where the RFC's checksum is 0. */
  lemma OneMoreWordOverflows()
    ensures var data: seq<Byte> := seq(2 * 65538, _ => 0xFF);
            WordSum(data) >= U32 && Computed(data) == 1 && Checksum(data) == 0
  {
    AllOnesSum(seq(2 * 65538, _ => 0xFF), 0);
  }

  // ---- checksum fields ----

  function Put16(s: seq<Byte>, at: nat, w: Word): (r: seq<Byte>)
    requires at + 2 <= |s|
    ensures |r| == |s|
  {
    s[at := Hi(w)][at + 1 := Lo(w)]
  }

  lemma {:induction false} PutShiftsSum(s: seq<Byte>, at: nat, w: Word, i: nat)
    requires at % 2 == 0 && at + 2 <= |s| && i % 2 == 0
    ensures WordSumFrom(Put16(s, at, w), i) == WordSumFrom(s, i) + (if i <= at then w - Read16(s, at) else 0)
    decreases |s| - i
  {
    if i < |s| {
      PutShiftsSum(s, at, w, i + 2);
    }
  }

  /** Writing the checksum of bytes whose aligned field is zero into that field makes them verify. */
  lemma StoredChecksumVerifies(s: seq<Byte>, at: nat, w: Word)
    requires at % 2 == 0 && at + 2 <= |s| && Read16(s, at) == 0
    requires w == Checksum(s) || (w == 0xFFFF && Checksum(s) == 0)
    ensures Verifies(Put16(s, at, w))
  {
    PutShiftsSum(s, at, w, 0);
    FoldedSumIsOnesSum(s, 0);
    FoldedSumIsOnesSum(Put16(s, at, w), 0);
    ResidueAdds(w, WordSum(s));
  }

  lemma ReadBack(s: seq<Byte>, at: nat, w: Word)
    requires at + 2 <= |s|
    ensures Read16(Put16(s, at, w), at) == w
  {
  }

  /** The header length in bytes that the low half of byte 0 claims. */
  function HeaderLen(s: seq<Byte>): nat
    requires |s| > 0
  {
    s[0] % 16 * 4
  }

  function Prefix(s: seq<Byte>, n: nat): (r: seq<Byte>)
    requires n <= |s|
    ensures |r| == n
  {
    seq(n, i requires 0 <= i < n => s[i])
  }

  function WithIpv4Checksum(s: seq<Byte>): (r: seq<Byte>)
    requires |s| >= 20 && HeaderLen(s) <= |s|
    ensures |r| == |s|
  {
    var z := Put16(s, 10, 0);
    Put16(z, 10, Checksum(Prefix(z, HeaderLen(s))))
  }

  /** The 12 bytes of the pseudo-header (RFC 793, section 3.1; RFC 768), then the segment at `off`. */
  function Pseudo(s: seq<Byte>, protocol: Byte, off: nat, len: Word): (r: seq<Byte>)
    requires |s| >= 20 && off + len <= |s|
    ensures |r| == 12 + len
  {
    var middle := [0, protocol, Hi(len), Lo(len)];
    seq(12 + len, i requires 0 <= i < 12 + len => if i < 8 then s[12 + i] else if i < 12 then middle[i - 8] else s[off + i - 12])
  }

  function WithTcpChecksum(s: seq<Byte>, off: nat, len: Word): (r: seq<Byte>)
    requires |s| >= 20 && len >= 18 && off + len <= |s|
    ensures |r| == |s|
  {
    var z := Put16(s, off + 16, 0);
    Put16(z, off + 16, Checksum(Pseudo(z, 6, off, len)))
  }

  function WithUdpChecksum(s: seq<Byte>, off: nat, len: Word): (r: seq<Byte>)
    requires |s| >= 20 && len >= 8 && off + len <= |s|
    ensures |r| == |s|
  {
    var z := Put16(s, off + 6, 0);
    var value := Checksum(Pseudo(z, 17, off, len));
    Put16(z, off + 6, if value == 0 then 0xFFFF else value)
  }

  method RecalcIpv4Checksum(ip: array<Byte>)
    requires ip.Length >= 20 && HeaderLen(ip[..]) <= ip.Length
    modifies ip
    ensures ip[..] == WithIpv4Checksum(old(ip[..]))
  {
    ip[10] := 0;
    ip[11] := 0;
    assert ip[..] == Put16(old(ip[..]), 10, 0);
    var ihl := ip[0] % 16 * 4;
    var value := ComputeChecksum(ip[..ihl]);
    assert ip[..ihl] == Prefix(ip[..], ihl);
    ip[10] := Hi(value);
    ip[11] := Lo(value);
  }

  method RecalcTcpChecksum(ip: array<Byte>, off: nat, len: Word)
    requires ip.Length >= 20 && len >= 18 && off + len <= ip.Length
    modifies ip
    ensures ip[..] == WithTcpChecksum(old(ip[..]), off, len)
  {
    ip[off + 16] := 0;
    ip[off + 17] := 0;
    assert ip[..] == Put16(old(ip[..]), off + 16, 0);
    var pseudo := ip[12..20];
    pseudo := pseudo + [0];
    pseudo := pseudo + [6];
    pseudo := pseudo + [Hi(len)];
    pseudo := pseudo + [Lo(len)];
    pseudo := pseudo + ip[off..off + len];
    assert pseudo == Pseudo(ip[..], 6, off, len);
    var value := ComputeChecksum(pseudo);
    ip[off + 16] := Hi(value);
    ip[off + 17] := Lo(value);
  }

  method RecalcUdpChecksum(ip: array<Byte>, off: nat, len: Word)
    requires ip.Length >= 20 && len >= 8 && off + len <= ip.Length
    modifies ip
    ensures ip[..] == WithUdpChecksum(old(ip[..]), off, len)
  {
    ip[off + 6] := 0;
    ip[off + 7] := 0;
    assert ip[..] == Put16(old(ip[..]), off + 6, 0);
    var pseudo := ip[12..20];
    pseudo := pseudo + [0];
    pseudo := pseudo + [17];
    pseudo := pseudo + [Hi(len)];
    pseudo := pseudo + [Lo(len)];
    pseudo := pseudo + ip[off..off + len];
    assert pseudo == Pseudo(ip[..], 17, off, len);
    var value := ComputeChecksum(pseudo);
    if value == 0 {
      value := 0xFFFF;
    }
    ip[off + 6] := Hi(value);
    ip[off + 7] := Lo(value);
  }

  // ---- what a recalculation achieves ----

  /**
   After the IPv4 recalculation the header verifies if and only if the claimed length covers the
   checksum field or the bytes it does cover verified before.
   */
  lemma Ipv4HeaderVerifiesIff(s: seq<Byte>)
    requires |s| >= 20 && HeaderLen(s) <= |s|
    ensures var r := WithIpv4Checksum(s);
            && HeaderLen(r) == HeaderLen(s)
            && (Verifies(Prefix(r, HeaderLen(s))) <==> HeaderLen(s) >= 12 || Verifies(Prefix(s, HeaderLen(s))))
  {
    var n := HeaderLen(s);
    var z := Put16(s, 10, 0);
    if n >= 12 {
      PrefixVerifies(z, n, 10, Checksum(Prefix(z, n)));
    } else {
      assert Prefix(WithIpv4Checksum(s), n) == Prefix(s, n);
    }
  }

  lemma PrefixVerifies(z: seq<Byte>, n: nat, field: nat, w: Word)
    requires field + 2 <= n <= |z| && field % 2 == 0 && Read16(z, field) == 0 && w == Checksum(Prefix(z, n))
    ensures Verifies(Prefix(Put16(z, field, w), n))
  {
    StoredChecksumVerifies(Prefix(z, n), field, w);
    assert Prefix(Put16(z, field, w), n) == Put16(Prefix(z, n), field, w);
  }

  /** The field lies outside the address bytes that the pseudo-header repeats. */
  predicate OutsideAddresses(at: nat) { at + 2 <= 12 || 20 <= at }

  lemma PutInPseudo(z: seq<Byte>, protocol: Byte, off: nat, len: Word, field: nat, w: Word)
    requires |z| >= 20 && off + len <= |z| && field + 2 <= len && OutsideAddresses(off + field)
    ensures Pseudo(Put16(z, off + field, w), protocol, off, len) == Put16(Pseudo(z, protocol, off, len), 12 + field, w)
  {
    assert Pseudo(Put16(z, off + field, w), protocol, off, len) == Put16(Pseudo(z, protocol, off, len), 12 + field, w);
  }

  lemma FieldInPseudo(z: seq<Byte>, protocol: Byte, off: nat, len: Word, field: nat)
    requires |z| >= 20 && off + len <= |z| && field + 2 <= len
    ensures Read16(Pseudo(z, protocol, off, len), 12 + field) == Read16(z, off + field)
  {
  }

  lemma SegmentVerifies(z: seq<Byte>, protocol: Byte, off: nat, len: Word, field: nat, w: Word)
    requires |z| >= 20 && off + len <= |z| && field + 2 <= len && field % 2 == 0 && OutsideAddresses(off + field)
    requires Read16(z, off + field) == 0
    requires w == Checksum(Pseudo(z, protocol, off, len)) || (w == 0xFFFF && Checksum(Pseudo(z, protocol, off, len)) == 0)
    ensures Verifies(Pseudo(Put16(z, off + field, w), protocol, off, len))
  {
    FieldInPseudo(z, protocol, off, len, field);
    StoredChecksumVerifies(Pseudo(z, protocol, off, len), 12 + field, w);
    PutInPseudo(z, protocol, off, len, field, w);
  }

  /** After the TCP recalculation the segment verifies under its pseudo-header. */
  lemma TcpSegmentVerifies(s: seq<Byte>, off: nat, len: Word)
    requires |s| >= 20 && len >= 18 && off + len <= |s| && OutsideAddresses(off + 16)
    ensures Verifies(Pseudo(WithTcpChecksum(s, off, len), 6, off, len))
  {
    var z := Put16(s, off + 16, 0);
    SegmentVerifies(z, 6, off, len, 16, Checksum(Pseudo(z, 6, off, len)));
  }

  /** The same for UDP, where moreover the stored checksum is never zero, which would mean "none" (RFC 768). */
  lemma UdpDatagramVerifies(s: seq<Byte>, off: nat, len: Word)
    requires |s| >= 20 && len >= 8 && off + len <= |s| && OutsideAddresses(off + 6)
    ensures Verifies(Pseudo(WithUdpChecksum(s, off, len), 17, off, len))
    ensures Read16(WithUdpChecksum(s, off, len), off + 6) != 0
  {
    var z := Put16(s, off + 6, 0);
    var value := Checksum(Pseudo(z, 17, off, len));
    SegmentVerifies(z, 17, off, len, 6, if value == 0 then 0xFFFF else value);
    ReadBack(z, off + 6, if value == 0 then 0xFFFF else value);
  }
}
