/**
 CIDR matching of src/route/router.cpp on parsed addresses: the 32-bit mask test and the 128-bit
 byte loop against equality of the leading bits as integers.
 */
module Cidr {
  import opened Bytes

  // ---- bits ----

  function Pow2(n: nat): (p: nat)
    ensures p > 0
  {
    if n == 0 then 1 else 2 * Pow2(n - 1)
  }

  /** Bitwise and, from the lowest bit up. */
  function BitAnd(a: nat, b: nat): nat
    decreases a
  {
    if a == 0 then 0 else (if a % 2 == 1 && b % 2 == 1 then 1 else 0) + 2 * BitAnd(a / 2, b / 2)
  }

  /** A left shift by k in a type of the given width: k doublings that drop the top bit. */
  function ShiftLeft(x: nat, k: nat, width: nat): nat {
    if k == 0 then x
    else
      var twice := 2 * ShiftLeft(x, k - 1, width);
      if twice >= Pow2(width) then twice - Pow2(width) else twice
  }

  /** A right shift: k halvings. */
  function ShiftRight(x: nat, k: nat): nat {
    if k == 0 then x else ShiftRight(x / 2, k - 1)
  }

  /** k doublings, unbounded. */
  function Double(x: nat, k: nat): nat {
    if k == 0 then x else 2 * Double(x, k - 1)
  }

  lemma {:induction false} PowGrows(j: nat, k: nat)
    requires j <= k
    ensures Pow2(j) <= Pow2(k)
    decreases k
  {
    if j < k {
      PowGrows(j, k - 1);
    }
  }

  /** Shifting all ones left by k leaves the ones above the low k bits. */
  lemma {:induction false} ShiftedOnes(width: nat, k: nat)
    requires k <= width
    ensures ShiftLeft(Pow2(width) - 1, k, width) == Pow2(width) - Pow2(k)
    decreases k
  {
    if k > 0 {
      ShiftedOnes(width, k - 1);
      PowGrows(k, width);
    }
  }

  /** Anding with that mask clears the low k bits. */
  lemma {:induction false} AndClears(a: nat, width: nat, k: nat)
    requires k <= width && a < Pow2(width)
    ensures Pow2(width) >= Pow2(k) && BitAnd(a, Pow2(width) - Pow2(k)) == Double(ShiftRight(a, k), k)
    decreases width
  {
    PowGrows(k, width);
    if width > 0 {
      AndHalves(a, Pow2(width) - Pow2(k));
      AndClears(a / 2, width - 1, if k == 0 then 0 else k - 1);
      if a == 0 {
        ZeroStays(k);
      }
    }
  }

  lemma {:induction false} AndHalves(a: nat, mask: nat)
    ensures BitAnd(a, mask) == (if a % 2 == 1 && mask % 2 == 1 then 1 else 0) + 2 * BitAnd(a / 2, mask / 2)
  {
  }

  lemma {:induction false} ZeroStays(k: nat)
    ensures ShiftRight(0, k) == 0 && Double(0, k) == 0
  {
    if k > 0 {
      ZeroStays(k - 1);
    }
  }

  lemma {:induction false} DoubleIsInjective(x: nat, y: nat, k: nat)
    requires Double(x, k) == Double(y, k)
    ensures x == y
  {
    if k > 0 {
      DoubleIsInjective(x, y, k - 1);
    }
  }

  /** Equality under the mask of the high `keep` bits is equality of what is left of the low ones. */
  lemma MaskedEqualIff(a: nat, b: nat, width: nat, keep: nat)
    requires keep <= width && a < Pow2(width) && b < Pow2(width)
    ensures var mask := ShiftLeft(Pow2(width) - 1, width - keep, width);
            BitAnd(a, mask) == BitAnd(b, mask) <==> ShiftRight(a, width - keep) == ShiftRight(b, width - keep)
  {
    var k := width - keep;
    ShiftedOnes(width, k);
    AndClears(a, width, k);
    AndClears(b, width, k);
    if BitAnd(a, ShiftLeft(Pow2(width) - 1, k, width)) == BitAnd(b, ShiftLeft(Pow2(width) - 1, k, width)) {
      DoubleIsInjective(ShiftRight(a, k), ShiftRight(b, k), k);
    }
  }

  // ---- halving is division by a power of two ----

  lemma AtLeastOnce(n: nat, d: nat)
    requires n > 0
    ensures n * d >= d
  {
  }

  lemma Distributes(q: nat, e: nat, d: nat)
    ensures (q - e) * d == q * d - e * d
  {
  }

  lemma NotMore(q: nat, r: nat, e: nat, m: nat, d: nat)
    requires q * d + r == e * d + m && m < d
    ensures q <= e
  {
    Distributes(q, e, d);
    if q > e {
      AtLeastOnce(q - e, d);
      assert false;
    }
  }

  lemma QuotientIs(x: nat, d: nat, q: nat, r: nat)
    requires d > 0 && x == q * d + r && r < d
    ensures x / d == q
  {
    var e, m := x / d, x % d;
    assert x == e * d + m;
    NotMore(q, r, e, m, d);
    NotMore(e, m, q, r, d);
  }

  lemma HalfThenDivide(x: nat, p: nat)
    requires p > 0
    ensures x / (2 * p) == (x / 2) / p
  {
    var q, r := (x / 2) / p, (x / 2) % p;
    assert x / 2 == q * p + r;
    assert q * (2 * p) == 2 * (q * p);
    QuotientIs(x, 2 * p, q, 2 * r + x % 2);
  }

  lemma {:induction false} ShiftIsDivision(x: nat, k: nat)
    ensures ShiftRight(x, k) == x / Pow2(k)
    decreases k
  {
    if k > 0 {
      ShiftIsDivision(x / 2, k - 1);
      HalfThenDivide(x, Pow2(k - 1));
    }
  }

  // ---- the program ----

  /** `ipv4_to_u32`. */
  function Ipv4Number(ip: Ipv4): nat { 0x100_0000 * (ip.b0 as int) + 0x1_0000 * (ip.b1 as int) + 0x100 * (ip.b2 as int) + ip.b3 }

  /** The mask of a prefix; a shift by the whole width is avoided. */
  function Ipv4Mask(prefix: nat): nat
    requires prefix <= 32
  {
    if prefix == 0 then 0 else ShiftLeft(0xFFFF_FFFF, 32 - prefix, 32)
  }

  /** `match_ipv4_cidr` once both texts are parsed. */
  predicate MatchIpv4(base: Ipv4, ip: Ipv4, prefix: int) {
    if prefix < 0 || prefix > 32 then false
    else BitAnd(Ipv4Number(base), Ipv4Mask(prefix)) == BitAnd(Ipv4Number(ip), Ipv4Mask(prefix))
  }

  predicate IsIpv6(b: seq<Byte>) { |b| == 16 }

  predicate MatchIpv6(base: seq<Byte>, ip: seq<Byte>, prefix: int)
    requires IsIpv6(base) && IsIpv6(ip)
  {
    if prefix < 0 || prefix > 128 then false
    else
      var fullBytes, restBits := prefix / 8, prefix % 8;
      (forall i :: 0 <= i < fullBytes ==> base[i] == ip[i])
      && (restBits == 0 || var mask := ShiftLeft(0xFF, 8 - restBits, 8);
                           BitAnd(base[fullBytes], mask) == BitAnd(ip[fullBytes], mask))
  }

  method MatchIpv6Cidr(base: seq<Byte>, ip: seq<Byte>, prefix: int) returns (r: bool)
    requires IsIpv6(base) && IsIpv6(ip)
    ensures r == MatchIpv6(base, ip, prefix)
  {
    if prefix < 0 || prefix > 128 {
      return false;
    }
    var fullBytes := prefix / 8;
    var restBits := prefix % 8;
    for i := 0 to fullBytes
      invariant forall j :: 0 <= j < i ==> base[j] == ip[j]
    {
      if base[i] != ip[i] {
        return false;
      }
    }
    if restBits == 0 {
      return true;
    }
    var mask := ShiftLeft(0xFF, 8 - restBits, 8);
    return BitAnd(base[fullBytes], mask) == BitAnd(ip[fullBytes], mask);
  }

  // ---- prefixes as integers ----

  lemma {:induction false} PowAdds(j: nat, k: nat)
    ensures Pow2(j + k) == Pow2(j) * Pow2(k)
    decreases j
  {
    if j > 0 {
      PowAdds(j - 1, k);
      assert Pow2(j) * Pow2(k) == 2 * (Pow2(j - 1) * Pow2(k));
    }
  }

  lemma PowersOfWidth()
    ensures Pow2(8) == 0x100 && Pow2(32) == 0x1_0000_0000
  {
    assert Pow2(2) == 4;
    assert Pow2(4) == 16;
    assert Pow2(6) == 64;
    assert Pow2(8) == 0x100;
    PowAdds(8, 8);
    PowAdds(16, 16);
  }

  lemma {:induction false} AndZero(a: nat)
    ensures BitAnd(a, 0) == 0
    decreases a
  {
    if a > 0 {
      AndZero(a / 2);
    }
  }

  lemma {:induction false} ShiftedOut(x: nat, k: nat)
    requires x < Pow2(k)
    ensures ShiftRight(x, k) == 0
    decreases k
  {
    if k > 0 {
      ShiftedOut(x / 2, k - 1);
    }
  }

  lemma {:induction false} MaskTestIff(a: nat, b: nat, prefix: nat)
    requires a < Pow2(32) && b < Pow2(32) && prefix <= 32
    ensures BitAnd(a, Ipv4Mask(prefix)) == BitAnd(b, Ipv4Mask(prefix)) <==> ShiftRight(a, 32 - prefix) == ShiftRight(b, 32 - prefix)
  {
    if prefix == 0 {
      AndZero(a);
      AndZero(b);
      ShiftedOut(a, 32);
      ShiftedOut(b, 32);
    } else {
      PowersOfWidth();
      MaskedEqualIff(a, b, 32, prefix);
    }
  }

  /** Bytes as one big-endian number. */
  function Number(b: seq<Byte>): nat {
    if b == [] then 0 else 0x100 * Number(b[..|b| - 1]) + b[|b| - 1]
  }

  lemma {:induction false} NumberIsInjective(x: seq<Byte>, y: seq<Byte>)
    requires |x| == |y| && Number(x) == Number(y)
    ensures x == y
    decreases |x|
  {
    if x != [] {
      NumberIsInjective(x[..|x| - 1], y[..|y| - 1]);
      assert x == x[..|x| - 1] + [x[|x| - 1]] && y == y[..|y| - 1] + [y[|y| - 1]];
    }
  }

  lemma {:induction false} ShiftPart(n: nat, j: nat, low: nat, k: nat)
    requires k <= j
    ensures ShiftRight(Double(n, j) + low, k) == Double(n, j - k) + ShiftRight(low, k)
    decreases k
  {
    if k > 0 {
      assert (Double(n, j) + low) / 2 == Double(n, j - 1) + low / 2;
      ShiftPart(n, j - 1, low / 2, k - 1);
    }
  }

  lemma {:induction false} EightDoublings(n: nat)
    ensures Double(n, 8) == 0x100 * n
  {
    assert Double(n, 1) == 2 * n;
    assert Double(n, 3) == 4 * Double(n, 1);
    assert Double(n, 5) == 4 * Double(n, 3);
    assert Double(n, 7) == 4 * Double(n, 5);
  }

  lemma {:induction false} ShiftsAdd(x: nat, j: nat, k: nat)
    ensures ShiftRight(x, j + k) == ShiftRight(ShiftRight(x, j), k)
    decreases j
  {
    if j > 0 {
      ShiftsAdd(x / 2, j - 1, k);
    }
  }

  /** Shifting a whole byte out drops the last byte. */
  lemma ByteShiftedOut(b: seq<Byte>, k: nat)
    requires b != []
    ensures ShiftRight(Number(b), 8 + k) == ShiftRight(Number(b[..|b| - 1]), k)
  {
    var n, low := Number(b[..|b| - 1]), b[|b| - 1];
    EightDoublings(n);
    ShiftPart(n, 8, low, 8);
    PowersOfWidth();
    ShiftedOut(low, 8);
    ShiftsAdd(Number(b), 8, k);
  }

  /** Within the last byte, what is left agrees exactly when the bytes before and what is left of the last agree. */
  lemma {:induction false} LastByteSplits(x: seq<Byte>, y: seq<Byte>, k: nat)
    requires |x| == |y| > 0 && k < 8
    ensures ShiftRight(Number(x), k) == ShiftRight(Number(y), k) <==>
            x[..|x| - 1] == y[..|y| - 1] && ShiftRight(x[|x| - 1], k) == ShiftRight(y[|y| - 1], k)
  {
    var m, a := Number(x[..|x| - 1]), x[|x| - 1];
    var n, b := Number(y[..|y| - 1]), y[|y| - 1];
    EightDoublings(m);
    EightDoublings(n);
    ShiftPart(m, 8, a, k);
    ShiftPart(n, 8, b, k);
    if ShiftRight(Number(x), k) == ShiftRight(Number(y), k) {
      ShiftsAdd(Number(x), k, 8 - k);
      ShiftsAdd(Number(y), k, 8 - k);
      ByteShiftedOut(x, 0);
      ByteShiftedOut(y, 0);
      NumberIsInjective(x[..|x| - 1], y[..|y| - 1]);
    }
  }

  /** The bytes agree in their first p bits: the whole bytes, and the top bits of the next. */
  predicate Agree(x: seq<Byte>, y: seq<Byte>, p: nat)
    requires |x| == |y| && p <= 8 * |x|
  {
    x[..p / 8] == y[..p / 8] && (p % 8 == 0 || ShiftRight(x[p / 8], 8 - p % 8) == ShiftRight(y[p / 8], 8 - p % 8))
  }

  lemma {:induction false} AgreeIff(x: seq<Byte>, y: seq<Byte>, p: nat)
    requires |x| == |y| && p <= 8 * |x|
    ensures Agree(x, y, p) <==> ShiftRight(Number(x), 8 * |x| - p) == ShiftRight(Number(y), 8 * |x| - p)
    decreases |x|
  {
    var k := 8 * |x| - p;
    if x == [] {
    } else if k >= 8 {
      var u, v := x[..|x| - 1], y[..|y| - 1];
      ByteShiftedOut(x, k - 8);
      ByteShiftedOut(y, k - 8);
      AgreeIff(u, v, p);
      assert u[..p / 8] == x[..p / 8] && v[..p / 8] == y[..p / 8];
    } else {
      LastByteSplits(x, y, k);
      if k == 0 {
        assert p / 8 == |x|;
        assert x[..|x|] == x && y[..|y|] == y;
        assert x == x[..|x| - 1] + [x[|x| - 1]] && y == y[..|y| - 1] + [y[|y| - 1]];
      } else {
        assert p / 8 == |x| - 1 && 8 - p % 8 == k;
      }
    }
  }

  // ---- bits in network order ----

  /** Bit k of a byte, the highest first. */
  function BitOf(a: Byte, k: nat): nat
    requires k < 8
  {
    a / Pow2(7 - k) % 2
  }

  /** Bit i of some bytes. */
  function Bit(b: seq<Byte>, i: nat): nat
    requires i < 8 * |b|
  {
    BitOf(b[i / 8], i % 8)
  }

  /** The first p bits are the same: what it means to have a common prefix of that length (section 3.1 of RFC 4632). */
  predicate SameBits(x: seq<Byte>, y: seq<Byte>, p: nat)
    requires |x| == |y| && p <= 8 * |x|
  {
    forall i :: 0 <= i < p ==> Bit(x, i) == Bit(y, i)
  }

  lemma {:induction false} OneMoreBit(a: Byte, k: nat)
    requires k < 8
    ensures ShiftRight(a, 7 - k) == 2 * ShiftRight(a, 8 - k) + BitOf(a, k)
  {
    ShiftsAdd(a, 7 - k, 1);
    HalfOnce(ShiftRight(a, 7 - k));
    ShiftIsDivision(a, 7 - k);
  }

  lemma {:induction false} HalfOnce(x: nat)
    ensures ShiftRight(x, 1) == x / 2
  {
  }

  lemma {:induction false} TopBitStep(a: Byte, b: Byte, k: nat)
    requires k < 8
    ensures ShiftRight(a, 7 - k) == ShiftRight(b, 7 - k) <==> ShiftRight(a, 8 - k) == ShiftRight(b, 8 - k) && BitOf(a, k) == BitOf(b, k)
  {
    OneMoreBit(a, k);
    OneMoreBit(b, k);
    Parity(ShiftRight(a, 8 - k), BitOf(a, k), ShiftRight(b, 8 - k), BitOf(b, k));
  }

  lemma Parity(m: nat, r: nat, n: nat, s: nat)
    requires r < 2 && s < 2
    ensures 2 * m + r == 2 * n + s <==> m == n && r == s
  {
  }

  /** The top bits of two bytes agree one by one exactly if they agree as numbers. */
  lemma {:induction false} TopBits(a: Byte, b: Byte, n: nat)
    requires n <= 8
    ensures ShiftRight(a, 8 - n) == ShiftRight(b, 8 - n) <==> forall k :: 0 <= k < n ==> BitOf(a, k) == BitOf(b, k)
  {
    if n == 0 {
      PowersOfWidth();
      ShiftedOut(a, 8);
      ShiftedOut(b, 8);
    } else {
      TopBits(a, b, n - 1);
      TopBitStep(a, b, n - 1);
    }
  }

  lemma BitOfByte(b: seq<Byte>, j: nat, k: nat)
    requires j < |b| && k < 8
    ensures 8 * j + k < 8 * |b| && Bit(b, 8 * j + k) == BitOf(b[j], k)
  {
    assert (8 * j + k) / 8 == j && (8 * j + k) % 8 == k;
  }

  /** From bits to byte j, as far as p reaches into it. */
  lemma BitsToByte(x: seq<Byte>, y: seq<Byte>, p: nat, j: nat, n: nat)
    requires |x| == |y| && p <= 8 * |x| && SameBits(x, y, p) && j < |x| && n <= 8 && 8 * j + n <= p
    ensures ShiftRight(x[j], 8 - n) == ShiftRight(y[j], 8 - n)
  {
    forall k | 0 <= k < n ensures BitOf(x[j], k) == BitOf(y[j], k) {
      BitOfByte(x, j, k);
      BitOfByte(y, j, k);
    }
    TopBits(x[j], y[j], n);
  }

  lemma {:induction false} BitsToAgree(x: seq<Byte>, y: seq<Byte>, p: nat)
    requires |x| == |y| && p <= 8 * |x| && SameBits(x, y, p)
    ensures Agree(x, y, p)
  {
    forall j | 0 <= j < p / 8 ensures x[j] == y[j] {
      BitsToByte(x, y, p, j, 8);
    }
    SamePrefixIff(x, y, p / 8);
    if p % 8 != 0 {
      BitsToByte(x, y, p, p / 8, p % 8);
    }
  }

  lemma AgreeToBit(x: seq<Byte>, y: seq<Byte>, p: nat, i: nat)
    requires |x| == |y| && p <= 8 * |x| && Agree(x, y, p) && i < p
    ensures Bit(x, i) == Bit(y, i)
  {
    if i / 8 < p / 8 {
      SamePrefixIff(x, y, p / 8);
    } else {
      TopBits(x[i / 8], y[i / 8], p % 8);
    }
  }

  lemma {:induction false} AgreeIsSameBits(x: seq<Byte>, y: seq<Byte>, p: nat)
    requires |x| == |y| && p <= 8 * |x|
    ensures Agree(x, y, p) <==> SameBits(x, y, p)
  {
    if SameBits(x, y, p) {
      BitsToAgree(x, y, p);
    }
    if Agree(x, y, p) {
      forall i | 0 <= i < p ensures Bit(x, i) == Bit(y, i) {
        AgreeToBit(x, y, p, i);
      }
    }
  }

  // ---- IPv4 ----

  function Ipv4Bytes(ip: Ipv4): seq<Byte> { [ip.b0, ip.b1, ip.b2, ip.b3] }

  /** The program's number of an address is its four bytes in network order. */
  lemma {:induction false} Ipv4NumberIs(ip: Ipv4)
    ensures Ipv4Number(ip) == Number(Ipv4Bytes(ip))
  {
    var b := Ipv4Bytes(ip);
    assert b[..3] == [ip.b0, ip.b1, ip.b2] && b[..3][..2] == [ip.b0, ip.b1] && b[..3][..2][..1] == [ip.b0];
    assert [ip.b0][..0] == [] && Number([ip.b0]) == ip.b0;
    assert Number([ip.b0, ip.b1]) == 0x100 * ip.b0 as int + ip.b1;
    assert Number([ip.b0, ip.b1, ip.b2]) == 0x100 * (0x100 * ip.b0 as int + ip.b1) + ip.b2;
  }

  lemma {:induction false} Ipv4MatchIsShift(base: Ipv4, ip: Ipv4, prefix: nat)
    requires prefix <= 32
    ensures MatchIpv4(base, ip, prefix) <==> ShiftRight(Ipv4Number(base), 32 - prefix) == ShiftRight(Ipv4Number(ip), 32 - prefix)
  {
    PowersOfWidth();
    MaskTestIff(Ipv4Number(base), Ipv4Number(ip), prefix);
  }

  /** Equal after the shift, equal quotients and equal first bits are the same thing. */
  lemma {:induction false} ShiftIsSameBits(x: seq<Byte>, y: seq<Byte>, p: nat)
    requires |x| == |y| && p <= 8 * |x|
    ensures ShiftRight(Number(x), 8 * |x| - p) == ShiftRight(Number(y), 8 * |x| - p) <==> SameBits(x, y, p)
    ensures Number(x) / Pow2(8 * |x| - p) == Number(y) / Pow2(8 * |x| - p) <==> SameBits(x, y, p)
  {
    AgreeIff(x, y, p);
    AgreeIsSameBits(x, y, p);
    ShiftIsDivision(Number(x), 8 * |x| - p);
    ShiftIsDivision(Number(y), 8 * |x| - p);
  }

  /**
   The mask test holds exactly when the first bits of the addresses in network order are the same, and
   exactly when the addresses, read as big-endian numbers, have the same quotient by 2^(32 - prefix).
   */
  lemma {:induction false} Ipv4MatchIff(base: Ipv4, ip: Ipv4, prefix: int)
    ensures var x, y := [base.b0, base.b1, base.b2, base.b3], [ip.b0, ip.b1, ip.b2, ip.b3];
            && (MatchIpv4(base, ip, prefix) <==> 0 <= prefix <= 32 && SameBits(x, y, prefix))
            && (MatchIpv4(base, ip, prefix) <==> 0 <= prefix <= 32 && Number(x) / Pow2(32 - prefix) == Number(y) / Pow2(32 - prefix))
  {
    if 0 <= prefix <= 32 {
      Ipv4NumberIs(base);
      Ipv4NumberIs(ip);
      Ipv4MatchIsShift(base, ip, prefix);
      ShiftIsSameBits(Ipv4Bytes(base), Ipv4Bytes(ip), prefix);
    }
  }

  // ---- IPv6 ----

  lemma MatchIsAgreement(base: seq<Byte>, ip: seq<Byte>, prefix: nat)
    requires IsIpv6(base) && IsIpv6(ip) && prefix <= 128
    ensures MatchIpv6(base, ip, prefix) <==> Agree(base, ip, prefix)
  {
    SamePrefixIff(base, ip, prefix / 8);
    if prefix % 8 != 0 {
      RemainderTestIff(base[prefix / 8], ip[prefix / 8], prefix % 8);
    }
  }

  lemma RemainderTestIff(a: Byte, b: Byte, restBits: nat)
    requires restBits <= 8
    ensures var mask := ShiftLeft(0xFF, 8 - restBits, 8);
            BitAnd(a, mask) == BitAnd(b, mask) <==> ShiftRight(a, 8 - restBits) == ShiftRight(b, 8 - restBits)
  {
    PowersOfWidth();
    MaskedEqualIff(a, b, 8, restBits);
  }

  /** The byte loop with its remainder mask, the same: by bits, and by quotients by 2^(128 - prefix). */
  lemma {:induction false} Ipv6MatchIff(base: seq<Byte>, ip: seq<Byte>, prefix: int)
    requires IsIpv6(base) && IsIpv6(ip)
    ensures MatchIpv6(base, ip, prefix) <==> 0 <= prefix <= 128 && SameBits(base, ip, prefix)
    ensures MatchIpv6(base, ip, prefix) <==>
            0 <= prefix <= 128 && Number(base) / Pow2(128 - prefix) == Number(ip) / Pow2(128 - prefix)
  {
    if 0 <= prefix <= 128 {
      MatchIsAgreement(base, ip, prefix);
      AgreeIsSameBits(base, ip, prefix);
      ShiftIsSameBits(base, ip, prefix);
    }
  }

  lemma SamePrefixIff(x: seq<Byte>, y: seq<Byte>, n: nat)
    requires n <= |x| && n <= |y|
    ensures x[..n] == y[..n] <==> forall i :: 0 <= i < n ==> x[i] == y[i]
  {
    if x[..n] == y[..n] {
      forall i | 0 <= i < n ensures x[i] == y[i] {
        assert x[..n][i] == y[..n][i];
      }
    }
  }

  // ---- what follows ----

  lemma {:induction false} CoarserDivision(a: nat, b: nat, fine: nat, coarse: nat)
    requires fine <= coarse && a / Pow2(fine) == b / Pow2(fine)
    ensures a / Pow2(coarse) == b / Pow2(coarse)
  {
    ShiftIsDivision(a, fine);
    ShiftIsDivision(b, fine);
    ShiftsAdd(a, fine, coarse - fine);
    ShiftsAdd(b, fine, coarse - fine);
    ShiftIsDivision(a, coarse);
    ShiftIsDivision(b, coarse);
  }

  /** At each prefix matching is an equivalence, and a match at a longer prefix is one at every shorter. */
  lemma Ipv6MatchingIsAnEquivalence(a: seq<Byte>, b: seq<Byte>, c: seq<Byte>, prefix: nat, shorter: nat)
    requires IsIpv6(a) && IsIpv6(b) && IsIpv6(c) && shorter <= prefix <= 128
    ensures MatchIpv6(a, a, prefix)
    ensures MatchIpv6(a, b, prefix) ==> MatchIpv6(b, a, prefix) && MatchIpv6(a, b, shorter)
    ensures MatchIpv6(a, b, prefix) && MatchIpv6(b, c, prefix) ==> MatchIpv6(a, c, prefix)
  {
    Ipv6MatchIff(a, b, prefix);
    Ipv6MatchIff(a, b, shorter);
    if MatchIpv6(a, b, prefix) {
      CoarserDivision(Number(a), Number(b), 128 - prefix, 128 - shorter);
    }
  }

  lemma Ipv4MatchingIsAnEquivalence(a: Ipv4, b: Ipv4, c: Ipv4, prefix: nat, shorter: nat)
    requires shorter <= prefix <= 32
    ensures MatchIpv4(a, a, prefix)
    ensures MatchIpv4(a, b, prefix) ==> MatchIpv4(b, a, prefix) && MatchIpv4(a, b, shorter)
    ensures MatchIpv4(a, b, prefix) && MatchIpv4(b, c, prefix) ==> MatchIpv4(a, c, prefix)
  {
    Ipv4MatchIff(a, b, prefix);
    Ipv4MatchIff(a, b, shorter);
  }
}
