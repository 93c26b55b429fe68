/**
 `sniff_tls_sni` of src/protocol/tls_sniffer.cpp against an encoder of ClientHello records written
 from sections 4.1.2 and 5.1 of RFC 8446, with the server_name extension of section 3 of RFC 6066.
 */
module TlsSniffer {
  import opened Bytes

  // ---- the program ----

  predicate HasBytes(data: seq<Byte>, pos: nat, size: nat) {
    pos <= |data| && size <= |data| - pos
  }

  datatype Scan = Found(name: Text) | Broken | Nothing

  /** The name list from pos to end: its first host name, or how the scan ended. */
  function ScanNames(data: seq<Byte>, pos: nat, end: nat): Scan
    decreases if pos <= |data| then |data| - pos else 0
  {
    if pos >= end then Nothing
    else if !HasBytes(data, pos, 3) || !HasBytes(data, pos + 3, Read16(data, pos + 1)) then Broken
    else if data[pos] == 0 then Found(Slice(data, pos + 3, Read16(data, pos + 1)))
    else ScanNames(data, pos + 3 + Read16(data, pos + 1), end)
  }

  /** A server_name extension's data at pos. */
  function ScanServerName(data: seq<Byte>, pos: nat): Scan {
    if !HasBytes(data, pos, 2) || !HasBytes(data, pos + 2, Read16(data, pos)) then Broken
    else ScanNames(data, pos + 2, pos + 2 + Read16(data, pos))
  }

  /** The extensions from pos to end: the first host name, or how the walk ended. */
  function ScanBlockFrom(data: seq<Byte>, pos: nat, end: nat): Scan
    decreases if pos <= |data| then |data| - pos else 0
  {
    if pos >= end then Nothing
    else if !HasBytes(data, pos, 4) || !HasBytes(data, pos + 4, Read16(data, pos + 2)) then Broken
    else
      var scan := if Read16(data, pos) == 0 then ScanServerName(data, pos + 4) else Nothing;
      if scan == Nothing then ScanBlockFrom(data, pos + 4 + Read16(data, pos + 2), end) else scan
  }

  /** The program tells a broken walk and one that finds nothing alike. */
  function NameIn(scan: Scan): Option<Text> { if scan.Found? then Some(scan.name) else None }

  function ScanExtensions(data: seq<Byte>, pos: nat, end: nat): Option<Text> { NameIn(ScanBlockFrom(data, pos, end)) }

  /** The position after a vector with a one-byte length, if it fits. */
  function SkipVector8(data: seq<Byte>, pos: nat): Option<nat> {
    if HasBytes(data, pos, 1) && HasBytes(data, pos + 1, data[pos]) then Some(pos + 1 + data[pos]) else None
  }

  function SkipVector16(data: seq<Byte>, pos: nat): Option<nat> {
    if HasBytes(data, pos, 2) && HasBytes(data, pos + 2, Read16(data, pos)) then Some(pos + 2 + Read16(data, pos)) else None
  }

  function Read24(data: seq<Byte>, pos: nat): nat
    requires pos + 3 <= |data|
  {
    0x1_0000 * (data[pos] as int) + Read16(data, pos + 1)
  }

  /** The record and handshake headers, and the fixed fields. */
  predicate StartsClientHello(data: seq<Byte>) {
    && HasBytes(data, 0, 5) && data[0] == 0x16 && HasBytes(data, 5, Read16(data, 3))
    && HasBytes(data, 5, 4) && data[5] == 0x01 && HasBytes(data, 9, Read24(data, 6))
    && HasBytes(data, 9, 34)
  }

  /** The position of the extensions block, after session id, cipher suites and compression methods. */
  function BlockAt(data: seq<Byte>): Option<nat> {
    match SkipVector8(data, 43)
    case None => None
    case Some(a) =>
      match SkipVector16(data, a)
      case None => None
      case Some(b) => SkipVector8(data, b)
  }

  /** What becomes of the block at pos. */
  function BlockVerdict(data: seq<Byte>, pos: nat): Scan {
    match SkipVector16(data, pos)
    case None => Broken
    case Some(end) => ScanBlockFrom(data, pos + 2, end)
  }

  function ScanBlock(data: seq<Byte>, pos: nat): Option<Text> { NameIn(BlockVerdict(data, pos)) }

  function Verdict(data: seq<Byte>): Scan {
    if !StartsClientHello(data) then Broken
    else
      match BlockAt(data)
      case None => Broken
      case Some(pos) => BlockVerdict(data, pos)
  }

  function Sniff(data: seq<Byte>): Option<Text> { NameIn(Verdict(data)) }

  method SniffTlsSni(data: seq<Byte>) returns (r: Option<Text>)
    ensures r == Sniff(data)
  {
    if !HasBytes(data, 0, 5) {
      return None;
    }
    if data[0] != 0x16 {
      return None;
    }
    var recordLen := Read16(data, 3);
    if !HasBytes(data, 5, recordLen) {
      return None;
    }
    var pos := 5;
    if !HasBytes(data, pos, 4) || data[pos] != 0x01 {
      return None;
    }
    var handshakeLen := Read24(data, pos + 1);
    pos := pos + 4;
    if !HasBytes(data, pos, handshakeLen) {
      return None;
    }
    if !HasBytes(data, pos, 2 + 32) {
      return None;
    }
    pos := pos + 2 + 32;

    if !HasBytes(data, pos, 1) {
      return None;
    }
    var sessionIdLen: nat := data[pos];
    pos := pos + 1;
    if !HasBytes(data, pos, sessionIdLen) {
      return None;
    }
    pos := pos + sessionIdLen;

    if !HasBytes(data, pos, 2) {
      return None;
    }
    var cipherSuitesLen := Read16(data, pos);
    pos := pos + 2;
    if !HasBytes(data, pos, cipherSuitesLen) {
      return None;
    }
    pos := pos + cipherSuitesLen;

    if !HasBytes(data, pos, 1) {
      return None;
    }
    var compressionMethodsLen: nat := data[pos];
    pos := pos + 1;
    if !HasBytes(data, pos, compressionMethodsLen) {
      return None;
    }
    pos := pos + compressionMethodsLen;

    if !HasBytes(data, pos, 2) {
      return None;
    }
    var extensionsLen := Read16(data, pos);
    pos := pos + 2;
    if !HasBytes(data, pos, extensionsLen) {
      return None;
    }
    var extensionsEnd := pos + extensionsLen;
    r := WalkExtensions(data, pos, extensionsEnd);
  }

  /** The outer loop of `sniff_tls_sni`, with the inner loop in it. */
  method WalkExtensions(data: seq<Byte>, start: nat, extensionsEnd: nat) returns (r: Option<Text>)
    ensures r == ScanExtensions(data, start, extensionsEnd)
  {
    var pos := start;
    while pos < extensionsEnd
      invariant ScanExtensions(data, pos, extensionsEnd) == ScanExtensions(data, start, extensionsEnd)
      decreases if pos <= |data| then |data| - pos else 0
    {
      if !HasBytes(data, pos, 4) {
        return None;
      }
      ghost var at := pos;
      var extensionType := Read16(data, pos);
      var extensionLen := Read16(data, pos + 2);
      pos := pos + 4;
      if !HasBytes(data, pos, extensionLen) {
        return None;
      }
      if extensionType == 0 {
        if !HasBytes(data, pos, 2) {
          return None;
        }
        var namePos := pos + 2;
        var nameListLen := Read16(data, pos);
        var nameListEnd := namePos + nameListLen;
        if !HasBytes(data, namePos, nameListLen) {
          return None;
        }
        while namePos < nameListEnd
          invariant ScanNames(data, namePos, nameListEnd) == ScanServerName(data, pos)
          decreases if namePos <= |data| then |data| - namePos else 0
        {
          if !HasBytes(data, namePos, 3) {
            return None;
          }
          var nameType := data[namePos];
          var nameLen := Read16(data, namePos + 1);
          namePos := namePos + 3;
          if !HasBytes(data, namePos, nameLen) {
            return None;
          }
          if nameType == 0 {
            assert data[namePos..namePos + nameLen] == Slice(data, namePos, nameLen);
            return Some(data[namePos..namePos + nameLen]);
          }
          namePos := namePos + nameLen;
        }
      }
      pos := pos + extensionLen;
    }
    return None;
  }

  // ---- on arbitrary bytes ----

  lemma {:induction false} NamesAreStable(data: seq<Byte>, more: seq<Byte>, pos: nat, end: nat)
    requires ScanNames(data, pos, end) != Broken
    ensures ScanNames(data + more, pos, end) == ScanNames(data, pos, end)
    ensures ScanNames(data, pos, end).Found? ==>
              exists at: nat :: HasAt(data, at, ScanNames(data, pos, end).name)
    decreases if pos <= |data| then |data| - pos else 0
  {
    if pos < end {
      var len := Read16(data, pos + 1);
      if data[pos] == 0 {
        assert Slice(data + more, pos + 3, len) == Slice(data, pos + 3, len);
        assert HasAt(data, pos + 3, Slice(data, pos + 3, len));
      } else {
        NamesAreStable(data, more, pos + 3 + len, end);
      }
    }
  }

  lemma {:induction false} ExtensionsAreStable(data: seq<Byte>, more: seq<Byte>, pos: nat, end: nat)
    requires ScanExtensions(data, pos, end).Some?
    ensures ScanExtensions(data + more, pos, end) == ScanExtensions(data, pos, end)
    ensures exists at: nat :: HasAt(data, at, ScanExtensions(data, pos, end).value)
    decreases if pos <= |data| then |data| - pos else 0
  {
    if Read16(data, pos) == 0 {
      NamesAreStable(data, more, pos + 6, pos + 6 + Read16(data, pos + 4));
    }
    if Read16(data, pos) != 0 || ScanServerName(data, pos + 4) == Nothing {
      ExtensionsAreStable(data, more, pos + 4 + Read16(data, pos + 2), end);
    }
  }

  /** On any bytes, a name that is found is a contiguous part of them, and stays the same when bytes are appended. */
  lemma FoundNameIsStable(data: seq<Byte>, more: seq<Byte>)
    requires Sniff(data).Some?
    ensures Sniff(data + more) == Sniff(data)
    ensures exists at: nat :: HasAt(data, at, Sniff(data).value)
  {
    var pos := BlockAt(data).value;
    assert BlockAt(data + more) == Some(pos);
    ExtensionsAreStable(data, more, pos + 2, pos + 2 + Read16(data, pos));
  }

  // ---- the encoder ----

  datatype ServerName = ServerName(nameType: Byte, name: Text)

  datatype Extension = Names(names: seq<ServerName>) | Other(etype: Word, body: seq<Byte>)

  datatype Hello = Hello(version: seq<Byte>, random: seq<Byte>, sessionId: seq<Byte>, ciphers: seq<Byte>, compression: seq<Byte>)

  function Vector8(b: seq<Byte>): seq<Byte>
    requires |b| < 0x100
  {
    var len: Byte := |b|;
    [len] + b
  }

  function Vector16(b: seq<Byte>): seq<Byte>
    requires |b| < 0x1_0000
  {
    [Hi(|b|), Lo(|b|)] + b
  }

  predicate NamesFit(names: seq<ServerName>) {
    names == [] || (|names[0].name| < 0x1_0000 && NamesFit(names[1..]))
  }

  function EncodeNames(names: seq<ServerName>): seq<Byte>
    requires NamesFit(names)
  {
    if names == [] then [] else ([names[0].nameType] + Vector16(names[0].name)) + EncodeNames(names[1..])
  }

  /** Extension type 0 is server_name; its data is a vector of names. */
  predicate Fits(e: Extension) {
    match e
    case Names(names) => NamesFit(names) && |EncodeNames(names)| < 0xFFFE
    case Other(etype, body) => etype != 0 && |body| < 0x1_0000
  }

  function TypeOf(e: Extension): Word { if e.Names? then 0 else e.etype }

  function BodyOf(e: Extension): (r: seq<Byte>)
    requires Fits(e)
    ensures |r| < 0x1_0000
  {
    match e
    case Names(names) => Vector16(EncodeNames(names))
    case Other(_, body) => body
  }

  function EncodeExtension(e: Extension): seq<Byte>
    requires Fits(e)
  {
    [Hi(TypeOf(e)), Lo(TypeOf(e))] + Vector16(BodyOf(e))
  }

  predicate AllFit(extensions: seq<Extension>) {
    extensions == [] || (Fits(extensions[0]) && AllFit(extensions[1..]))
  }

  function EncodeExtensions(extensions: seq<Extension>): seq<Byte>
    requires AllFit(extensions)
  {
    if extensions == [] then [] else EncodeExtension(extensions[0]) + EncodeExtensions(extensions[1..])
  }

  /** The first name of type host_name in a list. */
  function HostName(names: seq<ServerName>): Option<Text> {
    if names == [] then None
    else if names[0].nameType == 0 then Some(names[0].name)
    else HostName(names[1..])
  }

  /** The first host name of the first server_name extension that has one. */
  function FirstHostName(extensions: seq<Extension>): Option<Text> {
    if extensions == [] then None
    else if extensions[0].Names? && HostName(extensions[0].names).Some? then HostName(extensions[0].names)
    else FirstHostName(extensions[1..])
  }

  lemma Vector16IsRead(data: seq<Byte>, at: nat, b: seq<Byte>)
    requires |b| < 0x1_0000 && HasAt(data, at, Vector16(b))
    ensures at + 2 + |b| <= |data| && Read16(data, at) == |b| && HasAt(data, at + 2, b)
  {
    var n := |b|;
    HasBoth(data, at, [Hi(n), Lo(n)], b);
    PairIsRead(data, at, n);
  }

  lemma PairIsRead(data: seq<Byte>, at: nat, w: Word)
    requires HasAt(data, at, [Hi(w), Lo(w)])
    ensures Read16(data, at) == w
  {
    assert data[at + 0] == [Hi(w), Lo(w)][0] && data[at + 1] == [Hi(w), Lo(w)][1];
  }

  lemma Vector8IsRead(data: seq<Byte>, at: nat, b: seq<Byte>)
    requires |b| < 0x100 && HasAt(data, at, Vector8(b))
    ensures SkipVector8(data, at) == Some(at + 1 + |b|)
  {
    var len: Byte := |b|;
    HasBoth(data, at, [len], b);
    assert data[at + 0] == [len][0];
  }

  lemma {:induction false} EncodedNamesAreScanned(data: seq<Byte>, pos: nat, names: seq<ServerName>)
    requires NamesFit(names) && HasAt(data, pos, EncodeNames(names))
    ensures ScanNames(data, pos, pos + |EncodeNames(names)|) ==
            match HostName(names) case None => Nothing case Some(name) => Found(name)
    decreases |names|
  {
    if names != [] {
      var first, rest := names[0], EncodeNames(names[1..]);
      HasBoth(data, pos, [first.nameType] + Vector16(first.name), rest);
      HasBoth(data, pos, [first.nameType], Vector16(first.name));
      assert data[pos + 0] == [first.nameType][0];
      Vector16IsRead(data, pos + 1, first.name);
      HasSlice(data, pos + 3, first.name);
      if first.nameType != 0 {
        EncodedNamesAreScanned(data, pos + 3 + |first.name|, names[1..]);
      }
    }
  }

  lemma EncodedExtensionIsRead(data: seq<Byte>, pos: nat, e: Extension)
    requires Fits(e) && HasAt(data, pos, EncodeExtension(e))
    ensures Read16(data, pos) == TypeOf(e) && Read16(data, pos + 2) == |BodyOf(e)|
    ensures HasAt(data, pos + 4, BodyOf(e)) && |EncodeExtension(e)| == 4 + |BodyOf(e)|
  {
    HasBoth(data, pos, [Hi(TypeOf(e)), Lo(TypeOf(e))], Vector16(BodyOf(e)));
    PairIsRead(data, pos, TypeOf(e));
    Vector16IsRead(data, pos + 2, BodyOf(e));
  }

  lemma {:induction false} EncodedNameListIsScanned(data: seq<Byte>, pos: nat, names: seq<ServerName>)
    requires NamesFit(names) && |EncodeNames(names)| < 0xFFFE && HasAt(data, pos, Vector16(EncodeNames(names)))
    ensures ScanServerName(data, pos) == match HostName(names) case None => Nothing case Some(name) => Found(name)
  {
    Vector16IsRead(data, pos, EncodeNames(names));
    EncodedNamesAreScanned(data, pos + 2, names);
  }

  lemma EncodedExtensionIsScanned(data: seq<Byte>, pos: nat, e: Extension, end: nat)
    requires Fits(e) && HasAt(data, pos, EncodeExtension(e)) && pos + |EncodeExtension(e)| <= end
    ensures ScanExtensions(data, pos, end) ==
            if e.Names? && HostName(e.names).Some? then HostName(e.names) else ScanExtensions(data, pos + |EncodeExtension(e)|, end)
  {
    EncodedExtensionIsRead(data, pos, e);
    if e.Names? {
      EncodedNameListIsScanned(data, pos + 4, e.names);
    }
  }

  /** One turn of the extension loop over an encoded list; n is the size of its first extension. */
  lemma FirstExtensionIsScanned(data: seq<Byte>, pos: nat, e: Extension, rest: seq<Byte>) returns (n: nat)
    requires Fits(e) && HasAt(data, pos, EncodeExtension(e) + rest)
    ensures n == |EncodeExtension(e)| && HasAt(data, pos + n, rest)
    ensures ScanExtensions(data, pos, pos + n + |rest|) ==
            if e.Names? && HostName(e.names).Some? then HostName(e.names) else ScanExtensions(data, pos + n, pos + n + |rest|)
  {
    n := |EncodeExtension(e)|;
    HasBoth(data, pos, EncodeExtension(e), rest);
    EncodedExtensionIsScanned(data, pos, e, pos + n + |rest|);
  }

  lemma {:induction false} EncodedExtensionsAreScanned(data: seq<Byte>, pos: nat, extensions: seq<Extension>)
    requires AllFit(extensions) && HasAt(data, pos, EncodeExtensions(extensions))
    ensures ScanExtensions(data, pos, pos + |EncodeExtensions(extensions)|) == FirstHostName(extensions)
    decreases |extensions|
  {
    if extensions != [] {
      var rest := EncodeExtensions(extensions[1..]);
      var n := FirstExtensionIsScanned(data, pos, extensions[0], rest);
      EncodedExtensionsAreScanned(data, pos + n, extensions[1..]);
    }
  }

  predicate IsHello(h: Hello) {
    |h.version| == 2 && |h.random| == 32 && |h.sessionId| < 0x100 && |h.ciphers| < 0x1_0000 && |h.compression| < 0x100
  }

  /** The message body up to the extensions block. */
  function Fields(h: Hello): seq<Byte>
    requires IsHello(h)
  {
    (h.version + h.random) + (Vector8(h.sessionId) + (Vector16(h.ciphers) + Vector8(h.compression)))
  }

  /** The 9 bytes of the record and handshake headers in front of a body of n bytes. */
  function Headers(minor: Byte, n: nat): seq<Byte>
    requires n + 4 < 0x1_0000
  {
    [0x16, 3, minor, Hi(n + 4), Lo(n + 4)] + [1, 0, Hi(n), Lo(n)]
  }

  lemma HeadersAreRead(data: seq<Byte>, minor: Byte, n: nat)
    requires n + 4 < 0x1_0000 && HasAt(data, 0, Headers(minor, n))
    ensures data[0] == 0x16 && Read16(data, 3) == n + 4 && data[5] == 1 && Read24(data, 6) == n
  {
    var s := Headers(minor, n);
    assert data[0 + 0] == s[0] && data[0 + 3] == s[3] && data[0 + 4] == s[4] && data[0 + 5] == s[5];
    assert data[0 + 6] == s[6] && data[0 + 7] == s[7] && data[0 + 8] == s[8];
  }

  lemma FieldsAreRead(data: seq<Byte>, h: Hello)
    requires IsHello(h) && HasAt(data, 9, Fields(h))
    ensures HasBytes(data, 9, 34) && BlockAt(data) == Some(9 + |Fields(h)|)
  {
    var fixed := h.version + h.random;
    var vectors := Vector16(h.ciphers) + Vector8(h.compression);
    HasBoth(data, 9, fixed, Vector8(h.sessionId) + vectors);
    HasBoth(data, 43, Vector8(h.sessionId), vectors);
    Vector8IsRead(data, 43, h.sessionId);
    var a := 44 + |h.sessionId|;
    HasBoth(data, a, Vector16(h.ciphers), Vector8(h.compression));
    Vector16IsRead(data, a, h.ciphers);
    Vector8IsRead(data, a + 2 + |h.ciphers|, h.compression);
  }

  /** Whatever length the headers announce, as long as so many bytes follow, the block is looked for after the fields. */
  lemma FrontIsRead(data: seq<Byte>, minor: Byte, n: nat, h: Hello)
    requires IsHello(h) && n + 4 < 0x1_0000 && 9 + n <= |data|
    requires HasAt(data, 0, Headers(minor, n)) && HasAt(data, 9, Fields(h))
    ensures StartsClientHello(data) && BlockAt(data) == Some(9 + |Fields(h)|)
  {
    HeadersAreRead(data, minor, n);
    FieldsAreRead(data, h);
  }

  lemma {:induction false} BlockIsScannedAt(data: seq<Byte>, pos: nat, extensions: seq<Extension>)
    requires AllFit(extensions) && |EncodeExtensions(extensions)| < 0x1_0000 && HasAt(data, pos, Vector16(EncodeExtensions(extensions)))
    ensures ScanBlock(data, pos) == FirstHostName(extensions)
  {
    Vector16IsRead(data, pos, EncodeExtensions(extensions));
    EncodedExtensionsAreScanned(data, pos + 2, extensions);
  }

  lemma {:induction false} BlockIsRead(data: seq<Byte>, pos: nat, extensions: seq<Extension>)
    requires AllFit(extensions) && |EncodeExtensions(extensions)| < 0x1_0000
    requires StartsClientHello(data) && BlockAt(data) == Some(pos) && HasAt(data, pos, Vector16(EncodeExtensions(extensions)))
    ensures Sniff(data) == FirstHostName(extensions)
  {
    BlockIsScannedAt(data, pos, extensions);
  }

  lemma {:induction false} BlockIsScanned(data: seq<Byte>, minor: Byte, n: nat, h: Hello, extensions: seq<Extension>)
    requires IsHello(h) && AllFit(extensions) && |EncodeExtensions(extensions)| < 0x1_0000
    requires n + 4 < 0x1_0000 && 9 + n <= |data|
    requires HasAt(data, 0, Headers(minor, n) + (Fields(h) + Vector16(EncodeExtensions(extensions))))
    ensures Sniff(data) == FirstHostName(extensions)
  {
    var block := Vector16(EncodeExtensions(extensions));
    HasBoth(data, 0, Headers(minor, n), Fields(h) + block);
    HasBoth(data, 9, Fields(h), block);
    FrontIsRead(data, minor, n, h);
    BlockIsRead(data, 9 + |Fields(h)|, extensions);
  }

  /** A ClientHello alone in one record. */
  function EncodeHello(minor: Byte, h: Hello, extensions: seq<Extension>): seq<Byte>
    requires IsHello(h) && AllFit(extensions) && |EncodeExtensions(extensions)| < 0x1_0000
    requires |Fields(h)| + 2 + |EncodeExtensions(extensions)| + 4 < 0x1_0000
  {
    Headers(minor, |Fields(h)| + 2 + |EncodeExtensions(extensions)|) + (Fields(h) + Vector16(EncodeExtensions(extensions)))
  }

  /** For every well-formed ClientHello and any bytes behind it, the sniffer returns its first host name, or none if it has none. */
  lemma {:induction false} HelloIsSniffed(minor: Byte, h: Hello, extensions: seq<Extension>, trailing: seq<Byte>)
    requires IsHello(h) && AllFit(extensions) && |EncodeExtensions(extensions)| < 0x1_0000
    requires |Fields(h)| + 2 + |EncodeExtensions(extensions)| + 4 < 0x1_0000
    ensures Sniff(EncodeHello(minor, h, extensions) + trailing) == FirstHostName(extensions)
  {
    var record := EncodeHello(minor, h, extensions);
    var data := record + trailing;
    HasItself(data);
    HasBoth(data, 0, record, trailing);
    BlockIsScanned(data, minor, |Fields(h)| + 2 + |EncodeExtensions(extensions)|, h, extensions);
  }

  /** The older form of the message, without an extensions block (section 7.4.1.2 of RFC 5246). */
  function EncodeBareHello(minor: Byte, h: Hello): seq<Byte>
    requires IsHello(h) && |Fields(h)| + 4 < 0x1_0000
  {
    Headers(minor, |Fields(h)|) + Fields(h)
  }

  /** The bytes b are the end of data, from k on. */
  predicate EndsWithFrom(data: seq<Byte>, k: nat, b: seq<Byte>) { |data| == k + |b| && HasAt(data, k, b) }

  lemma {:induction false} NamesShift(data: seq<Byte>, k: nat, b: seq<Byte>, pos: nat, end: nat)
    requires EndsWithFrom(data, k, b)
    ensures ScanNames(data, k + pos, k + end) == ScanNames(b, pos, end)
    decreases if pos <= |b| then |b| - pos else 0
  {
    if pos < end && HasBytes(b, pos, 3) {
      assert data[k + pos] == b[pos] && data[k + (pos + 1)] == b[pos + 1] && data[k + (pos + 2)] == b[pos + 2];
      var len := Read16(b, pos + 1);
      if HasBytes(b, pos + 3, len) {
        assert Slice(data, k + pos + 3, len) == Slice(b, pos + 3, len);
        NamesShift(data, k, b, pos + 3 + len, end);
      }
    }
  }

  lemma Read16Shifts(data: seq<Byte>, k: nat, b: seq<Byte>, pos: nat)
    requires EndsWithFrom(data, k, b) && pos + 2 <= |b|
    ensures Read16(data, k + pos) == Read16(b, pos)
  {
    assert data[k + pos] == b[pos] && data[k + (pos + 1)] == b[pos + 1];
  }

  lemma {:induction false} ExtensionsShift(data: seq<Byte>, k: nat, b: seq<Byte>, pos: nat, end: nat)
    requires EndsWithFrom(data, k, b)
    ensures ScanBlockFrom(data, k + pos, k + end) == ScanBlockFrom(b, pos, end)
    decreases if pos <= |b| then |b| - pos else 0
  {
    if pos < end && HasBytes(b, pos, 4) {
      Read16Shifts(data, k, b, pos);
      Read16Shifts(data, k, b, pos + 2);
      ServerNameShifts(data, k, b, pos + 4);
      if HasBytes(b, pos + 4, Read16(b, pos + 2)) {
        ExtensionsShift(data, k, b, pos + 4 + Read16(b, pos + 2), end);
      }
    }
  }

  lemma ServerNameShifts(data: seq<Byte>, k: nat, b: seq<Byte>, pos: nat)
    requires EndsWithFrom(data, k, b)
    ensures ScanServerName(data, k + pos) == ScanServerName(b, pos)
  {
    if HasBytes(b, pos, 2) {
      Read16Shifts(data, k, b, pos);
      NamesShift(data, k, b, pos + 2, pos + 2 + Read16(b, pos));
    }
  }

  lemma BlockShifts(data: seq<Byte>, k: nat, b: seq<Byte>)
    requires EndsWithFrom(data, k, b)
    ensures BlockVerdict(data, k) == BlockVerdict(b, 0)
  {
    if HasBytes(b, 0, 2) {
      Read16Shifts(data, k, b, 0);
      ExtensionsShift(data, k, b, 2, 2 + Read16(b, 0));
    }
  }

  /**
   On a message without an extensions block the sniffer goes on past the record: what it returns is
   exactly what it finds taking the bytes behind the record for the block, none if there are none.
   */
  lemma BareHelloReadsOn(minor: Byte, h: Hello, trailing: seq<Byte>)
    requires IsHello(h) && |Fields(h)| + 4 < 0x1_0000
    ensures Sniff(EncodeBareHello(minor, h) + trailing) == ScanBlock(trailing, 0)
    ensures Sniff(EncodeBareHello(minor, h)) == None
  {
    var bare := EncodeBareHello(minor, h);
    BareHelloIsRead(bare, minor, h, trailing);
    BlockShifts(bare + trailing, |bare|, trailing);
    BareHelloIsRead(bare, minor, h, []);
    assert bare + [] == bare;
  }

  lemma BareHelloIsRead(bare: seq<Byte>, minor: Byte, h: Hello, trailing: seq<Byte>)
    requires IsHello(h) && |Fields(h)| + 4 < 0x1_0000 && bare == EncodeBareHello(minor, h)
    ensures Verdict(bare + trailing) == BlockVerdict(bare + trailing, |bare|)
  {
    var data := bare + trailing;
    HasItself(data);
    HasBoth(data, 0, bare, trailing);
    HasBoth(data, 0, Headers(minor, |Fields(h)|), Fields(h));
    FrontIsRead(data, minor, |Fields(h)|, h);
  }

  lemma {:induction false} BlockAlone(extensions: seq<Extension>)
    requires AllFit(extensions) && |EncodeExtensions(extensions)| < 0x1_0000
    ensures ScanBlock(Vector16(EncodeExtensions(extensions)), 0) == FirstHostName(extensions)
  {
    HasItself(Vector16(EncodeExtensions(extensions)));
    BlockIsScannedAt(Vector16(EncodeExtensions(extensions)), 0, extensions);
  }

  /** Such bytes may hold a name though the message has none. */
  lemma {:induction false} BlockBehindIsFound(minor: Byte, h: Hello, extensions: seq<Extension>)
    requires IsHello(h) && |Fields(h)| + 4 < 0x1_0000
    requires AllFit(extensions) && |EncodeExtensions(extensions)| < 0x1_0000
    ensures Sniff(EncodeBareHello(minor, h) + Vector16(EncodeExtensions(extensions))) == FirstHostName(extensions)
  {
    BareHelloReadsOn(minor, h, Vector16(EncodeExtensions(extensions)));
    BlockAlone(extensions);
  }

  // ---- which messages are read right ----

  /** A ClientHello in one record, with an extensions block or without. */
  function EncodeMessage(minor: Byte, h: Hello, block: Option<seq<Extension>>): seq<Byte>
    requires IsMessage(h, block)
  {
    match block
    case None => EncodeBareHello(minor, h)
    case Some(extensions) => EncodeHello(minor, h, extensions)
  }

  predicate IsMessage(h: Hello, block: Option<seq<Extension>>) {
    && IsHello(h)
    && match block
       case None => |Fields(h)| + 4 < 0x1_0000
       case Some(extensions) => AllFit(extensions) && |Fields(h)| + 2 + |EncodeExtensions(extensions)| + 4 < 0x1_0000
  }

  function NameOf(block: Option<seq<Extension>>): Option<Text> {
    match block
    case None => None
    case Some(extensions) => FirstHostName(extensions)
  }

  /** The sniffer is right whatever follows a message if and only if the message has an extensions block. */
  lemma SniffedRightIff(minor: Byte, h: Hello, block: Option<seq<Extension>>)
    requires IsMessage(h, block)
    ensures (forall trailing :: Sniff(EncodeMessage(minor, h, block) + trailing) == NameOf(block)) <==> block.Some?
  {
    match block
    case Some(extensions) =>
      forall trailing ensures Sniff(EncodeMessage(minor, h, block) + trailing) == NameOf(block) {
        HelloIsSniffed(minor, h, extensions, trailing);
      }
    case None =>
      var e := Names([ServerName(0, [97])]);
      OneName(e);
      BlockBehindIsFound(minor, h, [e]);
      assert Sniff(EncodeMessage(minor, h, block) + Vector16(EncodeExtensions([e]))) != NameOf(block);
  }

  lemma OneName(e: Extension)
    requires e == Names([ServerName(0, [97])])
    ensures AllFit([e]) && |EncodeExtensions([e])| < 0x1_0000 && FirstHostName([e]) == Some([97])
  {
    assert e.names[1..] == [] && [e][1..] == [];
  }
}
