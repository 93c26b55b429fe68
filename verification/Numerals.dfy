/**
 Numerals: the texts of numbers in decimal and in lower-case hexadecimal, and the numbers they denote.
 */
module Numerals {
  import opened Bytes

  function Digit(d: nat): Byte
    requires d < 16
  {
    if d < 10 then 48 + d else 87 + d
  }

  /** The characters 0 to 9 and a to f, as far as the base has them. */
  predicate IsDigit(c: Byte, base: nat) { (48 <= c < 58 && c < 48 + base) || (97 <= c < 103 && c < 87 + base) }

  function DigitValue(c: Byte): nat { if c < 48 then 0 else if c < 58 then c - 48 else if c < 87 then 0 else c - 87 }

  /** The number a numeral denotes, read from the left. */
  function NumberOf(t: Text, base: nat, soFar: nat): nat
    decreases |t|
  {
    if t == [] then soFar else NumberOf(t[1..], base, base * soFar + DigitValue(t[0]))
  }

  predicate AllOfBase(t: Text, base: nat) { forall i :: 0 <= i < |t| ==> IsDigit(t[i], base) }

  /** Digits of the base, and no leading zero unless that is all there is. */
  predicate IsNumeral(t: Text, base: nat) { t != [] && AllOfBase(t, base) && (|t| == 1 || t[0] != 48) }

  /** A numeral for the number: the only one, by NumeralIsUnique. */
  predicate Denotes(t: Text, base: nat, n: nat) { IsNumeral(t, base) && NumberOf(t, base, 0) == n }

  /** A byte in decimal. */
  function Decimal(n: Byte): Text {
    if n < 10 then [Digit(n)]
    else if n < 100 then [Digit(n / 10), Digit(n % 10)]
    else [Digit(n / 100), Digit(n / 10 % 10), Digit(n % 10)]
  }

  /** A word in lower-case hexadecimal. */
  function Hexadecimal(n: Word): Text {
    var q := n / 0x10;
    var r := q / 0x10;
    if n < 0x10 then [Digit(n)]
    else if n < 0x100 then [Digit(q), Digit(n % 0x10)]
    else if n < 0x1000 then [Digit(r), Digit(q % 0x10), Digit(n % 0x10)]
    else [Digit(r / 0x10), Digit(r % 0x10), Digit(q % 0x10), Digit(n % 0x10)]
  }

  lemma {:induction false} Numeral(t: Text, base: nat)
    requires 1 <= |t| <= 4
    ensures NumberOf(t, base, 0) ==
            if |t| == 1 then DigitValue(t[0])
            else if |t| == 2 then base * DigitValue(t[0]) + DigitValue(t[1])
            else if |t| == 3 then base * (base * DigitValue(t[0]) + DigitValue(t[1])) + DigitValue(t[2])
            else base * (base * (base * DigitValue(t[0]) + DigitValue(t[1])) + DigitValue(t[2])) + DigitValue(t[3])
  {
    var a := DigitValue(t[0]);
    if |t| > 1 {
      var u, b := t[1..], base * a + DigitValue(t[1]);
      assert NumberOf(t, base, 0) == NumberOf(u, base, a);
      if |t| > 2 {
        var v, c := u[1..], base * b + DigitValue(t[2]);
        assert NumberOf(u, base, a) == NumberOf(v, base, b);
        if |t| > 3 {
          assert NumberOf(v, base, b) == NumberOf(v[1..], base, c);
        }
      }
    }
  }

  lemma DecimalReadsBack(n: Byte)
    ensures Denotes(Decimal(n), 10, n)
  {
    Numeral(Decimal(n), 10);
  }

  lemma DigitReadsBack(d: nat)
    requires d < 16
    ensures DigitValue(Digit(d)) == d && IsDigit(Digit(d), 16) && (d > 0 ==> Digit(d) != 48)
    ensures d < 10 ==> IsDigit(Digit(d), 10)
  {
  }

  lemma HexadecimalIsNumeral(n: Word)
    ensures IsNumeral(Hexadecimal(n), 16)
  {
    var q := n / 0x10;
    var r := q / 0x10;
    DigitReadsBack(n % 0x10);
    DigitReadsBack(q % 0x10);
    DigitReadsBack(r % 0x10);
    DigitReadsBack(r / 0x10);
  }

  lemma HexadecimalReadsBack(n: Word)
    ensures Denotes(Hexadecimal(n), 16, n)
  {
    HexadecimalIsNumeral(n);
    Numeral(Hexadecimal(n), 16);
    var q := n / 0x10;
    var r := q / 0x10;
    DigitReadsBack(n % 0x10);
    DigitReadsBack(q % 0x10);
    DigitReadsBack(r % 0x10);
    DigitReadsBack(r / 0x10);
  }

  // ---- a number has one numeral ----

  /** The number read from the left, by its last digit. */
  lemma {:induction false} LastDigit(t: Text, base: nat, soFar: nat)
    requires t != []
    ensures NumberOf(t, base, soFar) == base * NumberOf(t[..|t| - 1], base, soFar) + DigitValue(t[|t| - 1])
    decreases |t|
  {
    if |t| == 1 {
      assert t[..0] == [] && t[1..] == [];
    } else {
      var u := t[1..];
      LastDigit(u, base, base * soFar + DigitValue(t[0]));
      assert u[..|u| - 1] == t[..|t| - 1][1..] && t[..|t| - 1][0] == t[0];
    }
  }

  lemma {:induction false} NotZero(t: Text, base: nat)
    requires base > 0 && t != [] && AllOfBase(t, base) && t[0] != 48
    ensures NumberOf(t, base, 0) > 0
    decreases |t|
  {
    LastDigit(t, base, 0);
    if |t| > 1 {
      NotZero(t[..|t| - 1], base);
      Grows(base, NumberOf(t[..|t| - 1], base, 0));
    }
  }

  lemma Grows(base: nat, n: nat)
    requires n > 0
    ensures base * n >= base
  {
  }

  lemma MoreTimes(base: nat, m: nat, n: nat)
    ensures m < n ==> base * n >= base * m + base
  {
    if m < n {
      Grows(base, n - m);
      assert base * n == base * m + base * (n - m);
    }
  }

  lemma SameLast(base: nat, m: nat, n: nat, a: nat, b: nat)
    requires a < base && b < base && base * m + a == base * n + b
    ensures m == n && a == b
  {
    MoreTimes(base, m, n);
    MoreTimes(base, n, m);
  }

  lemma DigitIs(c: Byte, d: Byte, base: nat)
    requires base <= 16 && IsDigit(c, base) && IsDigit(d, base)
    ensures DigitValue(c) < base
    ensures DigitValue(c) == DigitValue(d) ==> c == d
  {
  }

  lemma {:induction false} NumeralIsUnique(t: Text, u: Text, base: nat)
    requires 2 <= base <= 16 && IsNumeral(t, base) && IsNumeral(u, base) && NumberOf(t, base, 0) == NumberOf(u, base, 0)
    ensures t == u
    decreases |t|
  {
    var m, n := |t| - 1, |u| - 1;
    LastDigit(t, base, 0);
    LastDigit(u, base, 0);
    DigitIs(t[m], u[n], base);
    DigitIs(u[n], t[m], base);
    SameLast(base, NumberOf(t[..m], base, 0), NumberOf(u[..n], base, 0), DigitValue(t[m]), DigitValue(u[n]));
    if m > 0 {
      NotZero(t[..m], base);
    }
    if n > 0 {
      NotZero(u[..n], base);
    }
    if m > 0 && n > 0 {
      NumeralIsUnique(t[..m], u[..n], base);
    }
    assert t == t[..m] + [t[m]] && u == u[..n] + [u[n]];
  }
}
