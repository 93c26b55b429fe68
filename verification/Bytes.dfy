/**
 Bytes, 16-bit words and IPv4 addresses, and the two result types.

 Unsigned integers are natural numbers with their range as a subset type.
 Shifts and masks by constants are written as the division, remainder or sum
 they compute on such numbers.
 */
module Bytes {
  type Byte = x: nat | x < 0x100
  type Word = x: nat | x < 0x1_0000

  /** Strings are bytes too. */
  type Text = seq<Byte>

  const COLON: Byte := 58

  datatype Option<+T> = None | Some(value: T)

  /** The exceptions that are thrown, one for each message. */
  datatype Failure =
    | TruncatedPacket | TruncatedName | TruncatedPointer | TruncatedLabel | TruncatedQuestion | TruncatedData
    | UnsupportedLabel | CompressionLoop | RequestTooShort | ResponseTooShort | NoQuestion | InvalidLabel
    | InvalidALength | InvalidAaaaLength
    | EmptyAuthority | EmptyHost | MissingPort | MissingIpv6Port | InvalidPort | InvalidIpv6Authority
    | MissingBrackets | InvalidIpv6Address | DomainTooLong | NotAbsoluteForm | InvalidRequest | EmptyMethod
    | EmptyTarget | InvalidVersion

  /** A thrown exception is an Err. */
  datatype Result<+T> = Ok(value: T) | Err(failure: Failure)

  /** The four bytes of an address in packet order; the program copies and compares them as one number. */
  datatype Ipv4 = Ipv4(b0: Byte, b1: Byte, b2: Byte, b3: Byte)

  function Hi(w: Word): Byte { w / 0x100 }

  function Lo(w: Word): Byte { w % 0x100 }

  function Read16(s: seq<Byte>, at: nat): Word
    requires at + 2 <= |s|
  {
    0x100 * (s[at] as int) + s[at + 1]
  }

  /** The n bytes from `at` on. */
  function Slice(s: seq<Byte>, at: nat, n: nat): (r: seq<Byte>)
    requires at + n <= |s|
    ensures |r| == n
  {
    seq(n, i requires 0 <= i < n => s[at + i])
  }

  function ReadIp(s: seq<Byte>, at: nat): Ipv4
    requires at + 4 <= |s|
  {
    Ipv4(s[at], s[at + 1], s[at + 2], s[at + 3])
  }

  /** The bytes s stand at `at`. */
  predicate HasAt(data: seq<Byte>, at: nat, s: seq<Byte>) {
    at + |s| <= |data| && forall i {:trigger s[i]} :: 0 <= i < |s| ==> data[at + i] == s[i]
  }

  lemma HasBoth(data: seq<Byte>, at: nat, a: seq<Byte>, b: seq<Byte>)
    requires HasAt(data, at, a + b)
    ensures HasAt(data, at, a) && HasAt(data, at + |a|, b)
  {
    forall i | 0 <= i < |a| ensures data[at + i] == a[i] {
      assert (a + b)[i] == a[i];
    }
    forall i | 0 <= i < |b| ensures data[at + |a| + i] == b[i] {
      assert (a + b)[|a| + i] == b[i];
    }
  }

  lemma HasThree(data: seq<Byte>, at: nat, a: seq<Byte>, b: seq<Byte>, c: seq<Byte>)
    requires HasAt(data, at, a + (b + c))
    ensures HasAt(data, at, a) && HasAt(data, at + |a|, b) && HasAt(data, at + |a| + |b|, c)
  {
    HasBoth(data, at, a, b + c);
    HasBoth(data, at + |a|, b, c);
  }

  lemma HasJoined(data: seq<Byte>, at: nat, a: seq<Byte>, b: seq<Byte>)
    requires HasAt(data, at, a) && HasAt(data, at + |a|, b)
    ensures HasAt(data, at, a + b)
  {
    forall i | 0 <= i < |a + b| ensures data[at + i] == (a + b)[i] {
      if i < |a| {
        assert data[at + i] == a[i];
      } else {
        assert data[at + |a| + (i - |a|)] == b[i - |a|];
      }
    }
  }

  lemma SliceHas(data: seq<Byte>, at: nat, s: seq<Byte>)
    requires at + |s| <= |data| && Slice(data, at, |s|) == s
    ensures HasAt(data, at, s)
  {
    forall i | 0 <= i < |s| ensures data[at + i] == s[i] {
      assert Slice(data, at, |s|)[i] == s[i];
    }
  }

  lemma HasItself(s: seq<Byte>)
    ensures HasAt(s, 0, s)
  {
  }

  lemma HasSlice(data: seq<Byte>, at: nat, s: seq<Byte>)
    requires HasAt(data, at, s)
    ensures Slice(data, at, |s|) == s
  {
  }

  /** The index of the first separator, or the length of the text. */
  function Find(sep: Byte, s: Text): (i: nat)
    ensures i <= |s|
    ensures i < |s| ==> s[i] == sep
  {
    if s == [] || s[0] == sep then 0 else 1 + Find(sep, s[1..])
  }

  lemma {:induction false} FindIs(sep: Byte, t: Text, more: Text)
    requires sep !in t && (more != [] ==> more[0] == sep)
    ensures Find(sep, t + more) == |t|
  {
    if t != [] {
      assert t[0] in t && t[0] == (t + more)[0];
      assert (t + more)[1..] == t[1..] + more;
      FindIs(sep, t[1..], more);
    } else {
      assert t + more == more;
    }
  }

  lemma {:induction false} NoneBefore(sep: Byte, s: Text)
    ensures sep !in s[..Find(sep, s)]
  {
    if s != [] && s[0] != sep {
      NoneBefore(sep, s[1..]);
      assert s[..Find(sep, s)] == [s[0]] + s[1..][..Find(sep, s[1..])];
    }
  }
}
