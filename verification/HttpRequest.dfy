/**
 `read_session` of src/protocol/http_proxy.cpp from a complete header on: the request line's words,
 the destination, and for a request that is forwarded the rewritten payload.
 */
module HttpRequest {
  import opened Bytes
  import opened HttpProxy
  import opened Numerals

  const OPEN_BRACKET: Byte := 91
  const CLOSE_BRACKET: Byte := 93

  // ---- words of the request line ----

  predicate IsSpace(c: Byte) { 9 <= c <= 13 || c == 32 }

  function SkipSpaces(s: Text): Text {
    if s != [] && IsSpace(s[0]) then SkipSpaces(s[1..]) else s
  }

  function FirstWord(s: Text): Text {
    if s == [] || IsSpace(s[0]) then [] else [s[0]] + FirstWord(s[1..])
  }

  lemma {:induction false} WordHasNoSpace(s: Text)
    ensures |FirstWord(s)| <= |s| && forall c :: c in FirstWord(s) ==> !IsSpace(c)
  {
    if s != [] && !IsSpace(s[0]) {
      WordHasNoSpace(s[1..]);
    }
  }

  /** The next word, and what follows it. */
  function NextWord(s: Text): (Text, Text) {
    var t := SkipSpaces(s);
    WordHasNoSpace(t);
    (FirstWord(t), t[|FirstWord(t)|..])
  }

  datatype Words = Words(verb: Text, target: Text, version: Text)

  function WordsOf(line: Text): Words {
    var (verb, a) := NextWord(line);
    var (target, b) := NextWord(a);
    var (version, _) := NextWord(b);
    Words(verb, target, version)
  }

  // ---- destinations ----

  /** A host as written: in brackets, or not. */
  datatype Host = Ipv6(text: Text) | Named(text: Text)

  /** The address parser, which the program takes from a library: which texts it accepts. */
  datatype AddressTexts = AddressTexts(ipv4: iset<Text>, ipv6: iset<Text>)

  /** `Host::ipv6` and `Host::parse` of src/core/address.cpp: a bracketed text is an address, any other an address or a short name. */
  predicate IsHost(lib: AddressTexts, h: Host) {
    match h
    case Ipv6(text) => text in lib.ipv6
    case Named(text) => text in lib.ipv4 || text in lib.ipv6 || 1 <= |text| <= 255
  }

  datatype Destination = Destination(host: Host, port: Word)

  function DigitCount(t: Text): (k: nat)
    ensures k <= |t|
  {
    if t == [] || !(48 <= t[0] <= 57) then 0 else 1 + DigitCount(t[1..])
  }

  function Value(t: Text): nat {
    if t == [] then 0 else 10 * Value(t[..|t| - 1]) + (if t[|t| - 1] >= 48 then t[|t| - 1] - 48 else 0)
  }

  /** The leading digits must be the whole text, and their number fit 32 bits and then a port. */
  function ParsePort(t: Text): Result<Word> {
    if t == [] then Err(MissingPort)
    else
      var k := DigitCount(t);
      var value := Value(t[..k]);
      if k > 0 && value < 0x1_0000_0000 && k == |t| && 0 < value <= 65535 then Ok(value) else Err(InvalidPort)
  }

  lemma {:induction false} AllDigitsIff(t: Text)
    ensures DigitCount(t) == |t| <==> AllOfBase(t, 10)
  {
    if t != [] {
      AllDigitsIff(t[1..]);
      assert AllOfBase(t, 10) <==> IsDigit(t[0], 10) && AllOfBase(t[1..], 10) by {
        assert forall i :: 0 < i < |t| ==> t[i] == t[1..][i - 1];
      }
    }
  }

  lemma {:induction false} ValueIsNumber(t: Text)
    requires AllOfBase(t, 10)
    ensures Value(t) == NumberOf(t, 10, 0)
    decreases |t|
  {
    if t != [] {
      LastDigit(t, 10, 0);
      ValueIsNumber(t[..|t| - 1]);
    }
  }

  /** A port is accepted exactly when it is written in decimal digits only, for a number in 1..65535. */
  lemma {:induction false} ParsePortIff(t: Text, port: Word)
    ensures ParsePort(t) == Ok(port) <==> t != [] && AllOfBase(t, 10) && NumberOf(t, 10, 0) == port && port > 0
  {
    AllDigitsIff(t);
    assert t[..|t|] == t;
    if AllOfBase(t, 10) {
      ValueIsNumber(t);
    }
  }

  /** One more than the index of the last c, or 0. */
  function FindLast(t: Text, c: Byte): (i: nat)
    ensures i <= |t|
    ensures i > 0 ==> t[i - 1] == c
    ensures i == 0 <==> c !in t
    ensures c !in t[i..]
  {
    if t == [] then 0 else if t[|t| - 1] == c then |t| else FindLast(t[..|t| - 1], c)
  }

  function WithPort(host: Host, port: Result<Word>): Result<Destination> {
    match port
    case Err(failure) => Err(failure)
    case Ok(p) => Ok(Destination(host, p))
  }

  function ParseBracketed(authority: Text, default: Word, explicit: bool): Result<Destination>
    requires authority != [] && authority[0] == OPEN_BRACKET
  {
    var close := Find(CLOSE_BRACKET, authority);
    if close == |authority| then Err(InvalidIpv6Authority)
    else
      var suffix := authority[close + 1..];
      if suffix == [] then if explicit then Err(MissingIpv6Port) else Ok(Destination(Ipv6(authority[1..close]), default))
      else if suffix[0] != COLON then Err(InvalidIpv6Authority)
      else WithPort(Ipv6(authority[1..close]), ParsePort(suffix[1..]))
  }

  function ParsePlain(authority: Text, default: Word, explicit: bool): Result<Destination> {
    var colon := FindLast(authority, COLON);
    if colon == 0 then if explicit then Err(MissingPort) else Ok(Destination(Named(authority), default))
    else
      match ParsePort(authority[colon..])
      case Err(failure) => Err(failure)
      case Ok(port) =>
        if COLON in authority[..colon - 1] then Err(MissingBrackets)
        else if colon == 1 then Err(EmptyHost)
        else Ok(Destination(Named(authority[..colon - 1]), port))
  }

  function ParseAuthority(lib: AddressTexts, authority: Text, default: Word, explicit: bool): Result<Destination> {
    match SplitAuthority(authority, default, explicit)
    case Err(failure) => Err(failure)
    case Ok(d) => if IsHost(lib, d.host) then Ok(d) else Err(if d.host.Ipv6? then InvalidIpv6Address else DomainTooLong)
  }

  /** The host's text and the port, before the host is looked at. */
  function SplitAuthority(authority: Text, default: Word, explicit: bool): Result<Destination> {
    if authority == [] then Err(EmptyAuthority)
    else if authority[0] == OPEN_BRACKET then ParseBracketed(authority, default, explicit)
    else ParsePlain(authority, default, explicit)
  }

  /** How an authority without brackets is written: a name without colons, and a port unless the default applies. */
  ghost predicate WrittenPlain(authority: Text, d: Destination, default: Word, explicit: bool, port: Text) {
    && d.host.Named? && d.host.text != [] && COLON !in d.host.text && d.host.text[0] != OPEN_BRACKET
    && (if port == [] then authority == d.host.text && !explicit && d.port == default
        else authority == d.host.text + [COLON] + port && ParsePort(port) == Ok(d.port))
  }

  lemma {:induction false} LastColonIs(name: Text, port: Text)
    requires AllOfBase(port, 10)
    ensures FindLast(name + [COLON] + port, COLON) == |name| + 1
    decreases |port|
  {
    var t := name + [COLON] + port;
    if port == [] {
      assert t[|t| - 1] == COLON;
    } else {
      assert t[|t| - 1] == port[|port| - 1];
      assert t[..|t| - 1] == name + [COLON] + port[..|port| - 1];
      LastColonIs(name, port[..|port| - 1]);
    }
  }

  lemma WrittenPlainIsParsed(authority: Text, d: Destination, default: Word, explicit: bool, port: Text)
    requires WrittenPlain(authority, d, default, explicit, port)
    ensures SplitAuthority(authority, default, explicit) == Ok(d)
  {
    if port != [] {
      ParsePortIff(port, d.port);
      LastColonIs(d.host.text, port);
      var n := |d.host.text|;
      assert authority[..n] == d.host.text && authority[n + 1..] == port;
      assert authority[0] == d.host.text[0];
    }
  }

  lemma {:induction false} CutAtLast(t: Text, c: Byte)
    requires FindLast(t, c) > 0
    ensures t == t[..FindLast(t, c) - 1] + [c] + t[FindLast(t, c)..]
  {
  }

  lemma ParsedIsWrittenPlain(authority: Text, d: Destination, default: Word, explicit: bool) returns (port: Text)
    requires d.host.Named? && SplitAuthority(authority, default, explicit) == Ok(d)
    ensures WrittenPlain(authority, d, default, explicit, port)
  {
    var colon := FindLast(authority, COLON);
    if colon == 0 {
      port := [];
    } else {
      port := authority[colon..];
      CutAtLast(authority, COLON);
    }
  }

  /** An authority with brackets: the text in them up to the first closing one, and then as above. */
  ghost predicate WrittenBracketed(authority: Text, d: Destination, default: Word, explicit: bool, port: Text) {
    && d.host.Ipv6? && CLOSE_BRACKET !in d.host.text
    && (if port == [] then authority == Bracketed(d.host.text, []) && !explicit && d.port == default
        else authority == Bracketed(d.host.text, [COLON] + port) && ParsePort(port) == Ok(d.port))
  }

  function Bracketed(text: Text, suffix: Text): Text { [OPEN_BRACKET] + text + ([CLOSE_BRACKET] + suffix) }

  lemma BracketedParts(text: Text, suffix: Text)
    requires CLOSE_BRACKET !in text
    ensures var s := Bracketed(text, suffix);
            Find(CLOSE_BRACKET, s) == |text| + 1 && s[1..|text| + 1] == text && s[|text| + 2..] == suffix
  {
    FindIs(CLOSE_BRACKET, [OPEN_BRACKET] + text, [CLOSE_BRACKET] + suffix);
  }

  lemma WrittenBracketedIsParsed(authority: Text, d: Destination, default: Word, explicit: bool, port: Text)
    requires WrittenBracketed(authority, d, default, explicit, port)
    ensures SplitAuthority(authority, default, explicit) == Ok(d)
  {
    BracketedParts(d.host.text, if port == [] then [] else [COLON] + port);
    assert ([COLON] + port)[1..] == port;
  }

  lemma CutInTwo(s: Text, i: nat)
    requires i < |s|
    ensures s == s[..i] + ([s[i]] + s[i + 1..])
  {
  }

  lemma Behind(s: Text, i: nat)
    requires 0 < i <= |s|
    ensures s[..i] == [s[0]] + s[1..i]
  {
  }

  lemma NotBehind(s: Text, i: nat, c: Byte)
    requires 0 < i <= |s| && c !in s[..i]
    ensures c !in s[1..i]
  {
    assert s[1..i] == s[..i][1..];
  }

  lemma {:induction false} CutAtBracket(authority: Text)
    requires authority != [] && authority[0] == OPEN_BRACKET && Find(CLOSE_BRACKET, authority) < |authority|
    ensures var close := Find(CLOSE_BRACKET, authority);
            0 < close && CLOSE_BRACKET !in authority[1..close] && authority == Bracketed(authority[1..close], authority[close + 1..])
  {
    var close := Find(CLOSE_BRACKET, authority);
    NoneBefore(CLOSE_BRACKET, authority);
    NotBehind(authority, close, CLOSE_BRACKET);
    CutInTwo(authority, close);
    Behind(authority, close);
  }

  lemma ParsedIsWrittenBracketed(authority: Text, d: Destination, default: Word, explicit: bool) returns (port: Text)
    requires d.host.Ipv6? && SplitAuthority(authority, default, explicit) == Ok(d)
    ensures WrittenBracketed(authority, d, default, explicit, port)
  {
    CutAtBracket(authority);
    var suffix := authority[Find(CLOSE_BRACKET, authority) + 1..];
    port := if suffix == [] then [] else suffix[1..];
    assert suffix == [] || suffix == [COLON] + port;
  }

  ghost predicate Written(authority: Text, d: Destination, default: Word, explicit: bool, port: Text) {
    WrittenPlain(authority, d, default, explicit, port) || WrittenBracketed(authority, d, default, explicit, port)
  }

  /**
   An authority is accepted exactly if it is one of the ways to write a destination whose host is one: in
   brackets an IPv6 address, otherwise an address or a name of 1 to 255 bytes.
   */
  lemma ParseAuthorityIff(lib: AddressTexts, authority: Text, d: Destination, default: Word, explicit: bool)
    ensures ParseAuthority(lib, authority, default, explicit) == Ok(d) <==>
            && (match d.host
                case Ipv6(text) => text in lib.ipv6
                case Named(text) => text in lib.ipv4 || text in lib.ipv6 || 1 <= |text| <= 255)
            && exists port :: Written(authority, d, default, explicit, port)
  {
    if SplitAuthority(authority, default, explicit) == Ok(d) {
      var port := ParsedIsWritten(authority, d, default, explicit);
    }
    forall port | Written(authority, d, default, explicit, port) ensures SplitAuthority(authority, default, explicit) == Ok(d) {
      if d.host.Named? {
        WrittenPlainIsParsed(authority, d, default, explicit, port);
      } else {
        WrittenBracketedIsParsed(authority, d, default, explicit, port);
      }
    }
  }

  lemma ParsedIsWritten(authority: Text, d: Destination, default: Word, explicit: bool) returns (port: Text)
    requires SplitAuthority(authority, default, explicit) == Ok(d)
    ensures Written(authority, d, default, explicit, port)
  {
    if d.host.Named? {
      port := ParsedIsWrittenPlain(authority, d, default, explicit);
    } else {
      port := ParsedIsWrittenBracketed(authority, d, default, explicit);
    }
  }

  // ---- requests ----

  // "http://", "HTTP/" and "CONNECT"
  const HTTP_PREFIX: Text := [104, 116, 116, 112, 58, 47, 47]
  const VERSION_PREFIX: Text := [72, 84, 84, 80, 47]
  const CONNECT: Text := [67, 79, 78, 78, 69, 67, 84]

  datatype Request = Tunnel(destination: Destination) | Forward(destination: Destination, payload: Text)

  /** What the session sends ahead of whatever the client sends next. */
  function InitialPayload(r: Request): Text { if r.Tunnel? then [] else r.payload }

  function ParseAbsoluteTarget(lib: AddressTexts, target: Text): Result<Destination> {
    if !StartsWith(target, HTTP_PREFIX) then Err(NotAbsoluteForm)
    else
      var rest := target[PREFIX_LEN..];
      ParseAuthority(lib, rest[..Find(SLASH, rest)], 80, false)
  }

  /** What is forwarded of a request whose header ends at its first blank line. */
  function PayloadOf(w: Words, header: Text): Text
    requires |w.target| >= PREFIX_LEN && FindBlank(header, 0) < |header|
  {
    Payload(header, FindBlank(header, 0) + 4, w.verb, w.target, w.version)
  }

  /** The request with these words in its first line, once there is a method. */
  function RequestOf(lib: AddressTexts, w: Words, header: Text): Result<Request>
    requires FindBlank(header, 0) < |header|
  {
    if w.target == [] then Err(EmptyTarget)
    else if !StartsWith(w.version, VERSION_PREFIX) then Err(InvalidVersion)
    else if w.verb == CONNECT then
      match ParseAuthority(lib, w.target, 0, true)
      case Err(failure) => Err(failure)
      case Ok(d) => Ok(Tunnel(d))
    else
      match ParseAbsoluteTarget(lib, w.target)
      case Err(failure) => Err(failure)
      case Ok(d) => Ok(Forward(d, PayloadOf(w, header)))
  }

  /** The header is read up to its first blank line, so there is one; bytes after it may have been read too. */
  function ReadRequest(lib: AddressTexts, header: Text): Result<Request>
    requires FindBlank(header, 0) < |header|
  {
    var lineEnd := FindCrlf(header, 0);
    if lineEnd >= |header| then Err(InvalidRequest)
    else if WordsOf(header[..lineEnd]).verb == [] then Err(EmptyMethod)
    else RequestOf(lib, WordsOf(header[..lineEnd]), header)
  }

  lemma NoCarriageReturnIsLine(t: Text)
    requires t != [] && CR !in t
    ensures IsLine(t)
  {
    forall i: nat ensures !IsCrlf(t, i) {
      if i < |t| {
        assert t[i] in t;
      }
    }
  }

  lemma WordsHaveNoReturns(line: Text)
    ensures var w := WordsOf(line); CR !in w.verb && CR !in w.target && CR !in w.version
  {
    var (verb, a) := NextWord(line);
    var (target, b) := NextWord(a);
    WordHasNoSpace(SkipSpaces(line));
    WordHasNoSpace(SkipSpaces(a));
    WordHasNoSpace(SkipSpaces(b));
  }

  lemma NewRequestLineIsLine(w: Words)
    requires w.verb != [] && |w.target| >= PREFIX_LEN && CR !in w.verb && CR !in w.target && CR !in w.version
    ensures IsLine(RequestLine(w.verb, PathOf(w.target[PREFIX_LEN..]), w.version))
  {
    var path := PathOf(w.target[PREFIX_LEN..]);
    assert CR !in path by {
      assert forall c :: c in w.target[PREFIX_LEN..] ==> c in w.target;
    }
    NoCarriageReturnIsLine(RequestLine(w.verb, path, w.version));
  }

  /** A request whose first line has words starts with no line end, so its first blank line ends its header. */
  lemma WordsMakeMessage(header: Text) returns (m: Message)
    requires FindBlank(header, 0) < |header| && FindCrlf(header, 0) < |header| && WordsOf(header[..FindCrlf(header, 0)]).verb != []
    ensures Split(header) == Some(m) && m.lines != [] && m.lines[0] == header[..FindCrlf(header, 0)]
    ensures |header| - |m.body| == FindBlank(header, 0) + 4
  {
    assert header[..0] == [] && WordsOf([]).verb == [];
    assert !IsCrlf(header, 0);
    assert header[0..] == header;
    BlankLineEndsHeader(header, 0);
    m := Split(header).value;
  }

  /**
   Every request that is forwarded: its header splits into a first line, fields and whatever body was
   read with it, and the payload splits into the request line rebuilt from the first line's words, the
   fields without the proxy ones, and that body.  The destination is the target's authority and the
   rebuilt line is in origin form exactly when no query starts before the target's first slash and the
   target has no fragment.
   */
  lemma ForwardedRequestIsFiltered(lib: AddressTexts, header: Text) returns (first: Text, fields: seq<Text>, body: Text)
    requires FindBlank(header, 0) < |header|
    ensures match ReadRequest(lib, header)
            case Ok(Forward(d, payload)) =>
              var w := WordsOf(first);
              && Split(header) == Some(Message([first] + fields, body))
              && |w.target| >= PREFIX_LEN
              && var rest := w.target[PREFIX_LEN..];
              var authority, line := rest[..Find(SLASH, rest)], RequestLine(w.verb, PathOf(rest), w.version);
              && ParseAuthority(lib, authority, 80, false) == Ok(d)
              && Split(payload) == Some(Message([line] + Filtered(fields), body))
              && (authority == AuthorityOf(rest) && line == RequestLine(w.verb, OriginForm(rest), w.version) <==> PlainTarget(rest))
            case _ => true
  {
    first, fields, body := [], [], [];
    if ReadRequest(lib, header).Ok? && ReadRequest(lib, header).value.Forward? {
      var m := WordsMakeMessage(header);
      first, fields, body := m.lines[0], m.lines[1..], m.body;
      assert m.lines == [first] + fields;
      var w := WordsOf(first);
      WordsHaveNoReturns(first);
      NewRequestLineIsLine(w);
      RewritingFilters(header, first, fields, body, w.verb, w.target, w.version);
      LineIsRightIff(w);
    }
  }

  lemma {:induction false} ForwardIs(lib: AddressTexts, w: Words, header: Text, d: Destination, payload: Text)
    requires FindBlank(header, 0) < |header| && RequestOf(lib, w, header) == Ok(Forward(d, payload))
    ensures |w.target| >= PREFIX_LEN && ParseAbsoluteTarget(lib, w.target) == Ok(d) && payload == PayloadOf(w, header)
  {
  }

  lemma LineIsRightIff(w: Words)
    requires |w.target| >= PREFIX_LEN
    ensures var rest := w.target[PREFIX_LEN..];
            (rest[..Find(SLASH, rest)] == AuthorityOf(rest)
             && RequestLine(w.verb, PathOf(rest), w.version) == RequestLine(w.verb, OriginForm(rest), w.version)) <==> PlainTarget(rest)
  {
    var rest := w.target[PREFIX_LEN..];
    TargetIsReadRightIff(rest);
    if RequestLine(w.verb, PathOf(rest), w.version) == RequestLine(w.verb, OriginForm(rest), w.version) {
      RequestLineIsInjective(w.verb, PathOf(rest), OriginForm(rest), w.version);
    }
  }

  /** A tunnel drops whatever body was read with the header: it loses nothing exactly when the header ends at its blank line. */
  lemma {:induction false} TunnelLosesNothingIff(lib: AddressTexts, header: Text, d: Destination)
    requires FindBlank(header, 0) < |header| && ReadRequest(lib, header) == Ok(Tunnel(d))
    ensures Split(header).Some? && (InitialPayload(Tunnel(d)) == Split(header).value.body <==> |header| == FindBlank(header, 0) + 4)
  {
    var m := WordsMakeMessage(header);
  }

  // ---- requests that lose something ----

  predicate IsWord(t: Text) { t != [] && forall i :: 0 <= i < |t| ==> !IsSpace(t[i]) }

  lemma {:induction false} FirstWordIs(t: Text, more: Text)
    requires IsWord(t) && (more != [] ==> IsSpace(more[0]))
    ensures FirstWord(t + more) == t && SkipSpaces(t + more) == t + more
    decreases |t|
  {
    assert (t + more)[0] == t[0] && (t + more)[1..] == t[1..] + more;
    if |t| > 1 {
      FirstWordIs(t[1..], more);
    } else {
      assert t[1..] + more == more;
    }
    assert t == [t[0]] + t[1..];
  }

  lemma NextWordIs(t: Text, more: Text)
    requires IsWord(t) && (more != [] ==> IsSpace(more[0]))
    ensures NextWord(t + more) == (t, more)
    ensures NextWord([SPACE] + (t + more)) == (t, more)
  {
    FirstWordIs(t, more);
    assert ([SPACE] + (t + more))[1..] == t + more;
  }

  /** The words of a request line written with single spaces are read back. */
  lemma WordsAreReadBack(verb: Text, target: Text, version: Text)
    requires IsWord(verb) && IsWord(target) && IsWord(version)
    ensures WordsOf(RequestLine(verb, target, version)) == Words(verb, target, version)
  {
    var c := [SPACE] + (version + []);
    var b := [SPACE] + (target + c);
    assert RequestLine(verb, target, version) == verb + b;
    NextWordIs(verb, b);
    NextWordIs(target, c);
    NextWordIs(version, []);
  }

  lemma {:induction false} BareHeaderEnds(line: Text, more: Text)
    requires IsLine(line)
    ensures var header := line + CRLF + (CRLF + more);
            && FindCrlf(header, 0) == |line| && header[..|line|] == line
            && FindBlank(header, 0) == |line| && FindCrlf(header, |line| + 2) == |line| + 2
  {
    var header := line + CRLF + (CRLF + more);
    FindsEndOfLine(line, CRLF + more, 0);
    Peeled(line, CRLF + more);
    assert IsCrlf(header, |line|) && IsCrlf(header, |line| + 2);
    FindBlankIs(header, 0, |line|);
  }

  /** A request line, the blank line, and what was read behind it. */
  function Bare(verb: Text, target: Text, version: Text, more: Text): Text {
    RequestLine(verb, target, version) + CRLF + (CRLF + more)
  }

  lemma BareIsRead(verb: Text, target: Text, version: Text, more: Text)
    requires IsWord(verb) && IsWord(target) && IsWord(version)
    ensures var header, line := Bare(verb, target, version, more), RequestLine(verb, target, version);
            && IsLine(line) && FindBlank(header, 0) == FindCrlf(header, 0) == |line| < |header|
            && WordsOf(header[..|line|]) == Words(verb, target, version)
  {
    var line := RequestLine(verb, target, version);
    WordsAreReadBack(verb, target, version);
    assert CR !in line;
    NoCarriageReturnIsLine(line);
    BareHeaderEnds(line, more);
  }

  lemma BarePayload(w: Words)
    requires IsWord(w.verb) && IsWord(w.target) && IsWord(w.version) && |w.target| >= PREFIX_LEN
    ensures var header := Bare(w.verb, w.target, w.version, []);
            && FindBlank(header, 0) < |header|
            && PayloadOf(w, header) == RequestLine(w.verb, PathOf(w.target[PREFIX_LEN..]), w.version) + CRLF + CRLF
  {
    var line := RequestLine(w.verb, w.target, w.version);
    var header := Bare(w.verb, w.target, w.version, []);
    BareIsRead(w.verb, w.target, w.version, []);
    BareHeaderEnds(line, []);
    assert header[|header|..] == [] && RewriteLines(header, |header|, |line| + 2) == [];
    NothingBetween(RequestLine(w.verb, PathOf(w.target[PREFIX_LEN..]), w.version));
  }

  lemma NothingBetween(line: Text)
    ensures line + CRLF + [] + CRLF + [] == line + CRLF + CRLF
  {
  }

  lemma BareIsRequest(lib: AddressTexts, verb: Text, target: Text, version: Text, more: Text)
    requires IsWord(verb) && IsWord(target) && IsWord(version)
    ensures var header := Bare(verb, target, version, more);
            FindBlank(header, 0) < |header| && ReadRequest(lib, header) == RequestOf(lib, Words(verb, target, version), header)
  {
    BareIsRead(verb, target, version, more);
  }

  lemma {:induction false} ForwardOf(lib: AddressTexts, w: Words, header: Text, d: Destination)
    requires FindBlank(header, 0) < |header| && w.target != [] && StartsWith(w.version, VERSION_PREFIX)
    requires w.verb != CONNECT && ParseAbsoluteTarget(lib, w.target) == Ok(d)
    ensures RequestOf(lib, w, header) == Ok(Forward(d, PayloadOf(w, header)))
  {
  }

  lemma BareHasBody(verb: Text, target: Text, version: Text, more: Text)
    requires IsWord(verb) && IsWord(target) && IsWord(version)
    ensures Split(Bare(verb, target, version, more)) == Some(Message([RequestLine(verb, target, version)], more))
  {
    BareIsRead(verb, target, version, more);
    SplitAtBlank(more);
    SplitAfterLine(RequestLine(verb, target, version), CRLF + more);
    assert [RequestLine(verb, target, version)] + [] == [RequestLine(verb, target, version)];
  }

  /** What is forwarded of a request that is a request line and nothing else. */
  lemma BareRequestIsForwarded(lib: AddressTexts, w: Words, d: Destination)
    requires IsWord(w.verb) && IsWord(w.target) && IsWord(w.version)
    requires w.verb != CONNECT && StartsWith(w.version, VERSION_PREFIX) && ParseAbsoluteTarget(lib, w.target) == Ok(d)
    ensures var header := Bare(w.verb, w.target, w.version, []);
            && FindBlank(header, 0) < |header|
            && ReadRequest(lib, header) == Ok(Forward(d, PayloadOf(w, header)))
            && PayloadOf(w, header) == RequestLine(w.verb, PathOf(w.target[PREFIX_LEN..]), w.version) + CRLF + CRLF
  {
    BareIsRequest(lib, w.verb, w.target, w.version, []);
    ForwardOf(lib, w, Bare(w.verb, w.target, w.version, []), d);
    BarePayload(w);
  }

  /** A CONNECT line is a tunnel, and bytes read behind its blank line are its body, which the tunnel starts without. */
  lemma TunnelLosesBody(lib: AddressTexts, target: Text, version: Text, more: Text, d: Destination)
    requires IsWord(target) && IsWord(version) && StartsWith(version, VERSION_PREFIX) && ParseAuthority(lib, target, 0, true) == Ok(d)
    ensures var header := Bare(CONNECT, target, version, more);
            && FindBlank(header, 0) < |header| && ReadRequest(lib, header) == Ok(Tunnel(d))
            && Split(header) == Some(Message([RequestLine(CONNECT, target, version)], more))
  {
    BareIsRequest(lib, CONNECT, target, version, more);
    BareHasBody(CONNECT, target, version, more);
  }

  // "GET", "HTTP/1.1", "a?b", "a#b/c" and "a:1"
  const GET: Text := [71, 69, 84]
  const VERSION: Text := [72, 84, 84, 80, 47, 49, 46, 49]
  const QUERIED: Text := [97, 63, 98]
  const FRAGMENTED: Text := [97, 35, 98, 47, 99]
  const AUTHORITY: Text := [97, 58, 49]

  lemma QueriedParts()
    ensures Find(SLASH, QUERIED) == 3 && Find(QUESTION_MARK, QUERIED) == 1 && Find(HASH, QUERIED) == 3
    ensures AuthorityOf(QUERIED) == [97] && OriginForm(QUERIED) == [SLASH, QUESTION_MARK, 98] && PathOf(QUERIED) == [SLASH]
  {
    assert QUERIED == QUERIED + [] == [97] + [63, 98];
    FindIs(SLASH, QUERIED, []);
    FindIs(HASH, QUERIED, []);
    FindIs(QUESTION_MARK, [97], [63, 98]);
    assert QUERIED[1..] == [63, 98] == [63, 98] + [];
    FindIs(HASH, [63, 98], []);
    assert [63, 98][..2] == [63, 98] && QUERIED[..1] == [97];
  }

  lemma FragmentedParts()
    ensures Find(SLASH, FRAGMENTED) == 3 && FRAGMENTED[..3] == [97, 35, 98]
    ensures AuthorityOf(FRAGMENTED) == [97] && OriginForm(FRAGMENTED) == [SLASH] && PathOf(FRAGMENTED) == [47, 99]
  {
    assert FRAGMENTED == [97, 35, 98] + [47, 99] == [97] + [35, 98, 47, 99] == FRAGMENTED + [];
    FindIs(SLASH, [97, 35, 98], [47, 99]);
    FindIs(HASH, [97], [35, 98, 47, 99]);
    FindIs(QUESTION_MARK, FRAGMENTED, []);
    assert FRAGMENTED[1..] == [35, 98, 47, 99] && FRAGMENTED[3..] == [47, 99] && FRAGMENTED[..1] == [97];
  }

  /** A name without brackets and colon, up to the first slash, is the host, at port 80. */
  lemma {:induction false} PlainTargetIsParsed(lib: AddressTexts, rest: Text)
    requires Find(SLASH, rest) > 0 && rest[0] != OPEN_BRACKET && COLON !in rest && |rest| <= 255
    ensures (HTTP_PREFIX + rest)[PREFIX_LEN..] == rest
    ensures ParseAbsoluteTarget(lib, HTTP_PREFIX + rest) == Ok(Destination(Named(rest[..Find(SLASH, rest)]), 80))
  {
    var authority := rest[..Find(SLASH, rest)];
    assert authority[0] == rest[0];
    WrittenPlainIsParsed(authority, Destination(Named(authority), 80), 80, false, []);
  }

  /** GET http://a?b HTTP/1.1 is forwarded to a?b as GET / HTTP/1.1; its authority is a and its origin form /?b. */
  lemma QueryIsLost(lib: AddressTexts)
    ensures var header := Bare(GET, HTTP_PREFIX + QUERIED, VERSION, []);
            && FindBlank(header, 0) < |header|
            && ReadRequest(lib, header) == Ok(Forward(Destination(Named(QUERIED), 80), RequestLine(GET, [SLASH], VERSION) + CRLF + CRLF))
    ensures AuthorityOf(QUERIED) == [97] && OriginForm(QUERIED) == [SLASH, QUESTION_MARK, 98]
  {
    QueriedParts();
    PlainTargetIsParsed(lib, QUERIED);
    assert QUERIED[..3] == QUERIED;
    BareRequestIsForwarded(lib, Words(GET, HTTP_PREFIX + QUERIED, VERSION), Destination(Named(QUERIED), 80));
  }

  /** GET http://a#b/c HTTP/1.1 is forwarded to a#b as GET /c HTTP/1.1; its authority is a and its origin form /. */
  lemma FragmentIsSent(lib: AddressTexts)
    ensures var header := Bare(GET, HTTP_PREFIX + FRAGMENTED, VERSION, []);
            && FindBlank(header, 0) < |header|
            && ReadRequest(lib, header) == Ok(Forward(Destination(Named([97, 35, 98]), 80), RequestLine(GET, [47, 99], VERSION) + CRLF + CRLF))
    ensures AuthorityOf(FRAGMENTED) == [97] && OriginForm(FRAGMENTED) == [SLASH]
  {
    FragmentedParts();
    PlainTargetIsParsed(lib, FRAGMENTED);
    BareRequestIsForwarded(lib, Words(GET, HTTP_PREFIX + FRAGMENTED, VERSION), Destination(Named([97, 35, 98]), 80));
  }

  /** CONNECT a:1 is such a line. */
  lemma AuthorityIsParsed(lib: AddressTexts)
    ensures ParseAuthority(lib, AUTHORITY, 0, true) == Ok(Destination(Named([97]), 1)) && IsWord(AUTHORITY)
  {
    ParsePortIff([49], 1);
    assert AUTHORITY == [97] + [COLON] + [49];
    WrittenPlainIsParsed(AUTHORITY, Destination(Named([97]), 1), 0, true, [49]);
  }
}
