/**
 `read_session` of src/protocol/http_proxy.cpp over whole requests: which are forwarded and which
 open a tunnel, for every first line, any header fields and any body.
 */
module HttpSession {
  import opened Bytes
  import opened HttpProxy
  import opened HttpRequest

  // ---- first lines ----

  /** White space of the "C" locale. */
  predicate IsWhite(c: Byte) { c == 32 || c == 9 || c == 10 || c == 11 || c == 12 || c == 13 }

  predicate AllWhite(t: Text) { forall i :: 0 <= i < |t| ==> IsWhite(t[i]) }

  predicate IsSolid(t: Text) { t != [] && forall i :: 0 <= i < |t| ==> !IsWhite(t[i]) }

  /** A first line of at least three words, with whatever white space around them and whatever follows. */
  datatype Line = Line(lead: Text, verb: Text, gap: Text, target: Text, space: Text, version: Text, rest: Text)

  predicate IsFirstLine(l: Line) {
    && AllWhite(l.lead) && IsSolid(l.verb) && AllWhite(l.gap) && l.gap != [] && IsSolid(l.target)
    && AllWhite(l.space) && l.space != [] && IsSolid(l.version) && (l.rest == [] || IsWhite(l.rest[0]))
  }

  function TextOf(l: Line): Text {
    l.lead + (l.verb + (l.gap + (l.target + (l.space + (l.version + l.rest)))))
  }

  lemma WhiteIsSpace(c: Byte)
    ensures IsWhite(c) <==> IsSpace(c)
  {
  }

  lemma SolidIsWord(t: Text)
    ensures IsSolid(t) <==> IsWord(t)
  {
  }

  lemma {:induction false} SpacesAreSkipped(lead: Text, more: Text)
    requires AllWhite(lead) && (more == [] || !IsSpace(more[0]))
    ensures SkipSpaces(lead + more) == more
    decreases |lead|
  {
    if lead == [] {
      assert lead + more == more;
    } else {
      assert (lead + more)[1..] == lead[1..] + more && (lead + more)[0] == lead[0];
      SpacesAreSkipped(lead[1..], more);
    }
  }

  lemma WordIsNext(lead: Text, word: Text, more: Text)
    requires AllWhite(lead) && IsSolid(word) && (more == [] || IsWhite(more[0]))
    ensures NextWord(lead + (word + more)) == (word, more)
  {
    SolidIsWord(word);
    assert (word + more)[0] == word[0];
    SpacesAreSkipped(lead, word + more);
    FirstWordIs(word, more);
    assert (word + more)[|word|..] == more;
  }

  lemma StartsWhite(gap: Text, more: Text)
    requires gap != [] && AllWhite(gap)
    ensures IsWhite((gap + more)[0])
  {
  }

  lemma WordsAreThose(l: Line)
    requires IsFirstLine(l)
    ensures WordsOf(TextOf(l)) == Words(l.verb, l.target, l.version)
  {
    var c := l.space + (l.version + l.rest);
    var b := l.gap + (l.target + c);
    StartsWhite(l.space, l.version + l.rest);
    StartsWhite(l.gap, l.target + c);
    WordIsNext(l.lead, l.verb, b);
    WordIsNext(l.gap, l.target, c);
    WordIsNext(l.space, l.version, l.rest);
  }

  // ---- the words of any line ----

  lemma {:induction false} SkippedAreSpaces(s: Text) returns (lead: Text)
    ensures AllWhite(lead) && s == lead + SkipSpaces(s)
    ensures SkipSpaces(s) == [] || !IsSpace(SkipSpaces(s)[0])
    decreases |s|
  {
    if s != [] && IsSpace(s[0]) {
      var more := SkippedAreSpaces(s[1..]);
      lead := [s[0]] + more;
      assert s == [s[0]] + s[1..];
    } else {
      lead := [];
    }
  }

  lemma {:induction false} WordIsFront(s: Text)
    ensures |FirstWord(s)| <= |s| && s == FirstWord(s) + s[|FirstWord(s)|..]
    ensures forall i :: 0 <= i < |FirstWord(s)| ==> !IsWhite(FirstWord(s)[i])
    ensures s[|FirstWord(s)|..] == [] || IsWhite(s[|FirstWord(s)|..][0])
    decreases |s|
  {
    if s != [] && !IsSpace(s[0]) {
      WordIsFront(s[1..]);
      assert s == [s[0]] + s[1..];
      assert s[|FirstWord(s)|..] == s[1..][|FirstWord(s[1..])|..];
    }
  }

  /** Any text is white space, the next word, and what follows it. */
  lemma NextWordParts(s: Text) returns (lead: Text)
    ensures var (word, more) := NextWord(s);
            && AllWhite(lead) && s == lead + (word + more)
            && (word == [] ==> more == []) && (word != [] ==> IsSolid(word))
            && (more == [] || IsWhite(more[0]))
            && (word != [] && s != [] && IsWhite(s[0]) ==> lead != [])
  {
    lead := SkippedAreSpaces(s);
    var t := SkipSpaces(s);
    WordHasNoSpace(t);
    WordIsFront(t);
    if t != [] {
      assert t[0] == FirstWord(t)[0];
    }
  }

  lemma NoneIsNext()
    ensures NextWord([]) == ([], [])
  {
  }

  lemma ThreeWords(line: Text) returns (l: Line)
    requires WordsOf(line).version != []
    ensures IsFirstLine(l) && line == TextOf(l)
  {
    var (verb, a) := NextWord(line);
    var (target, b) := NextWord(a);
    var (version, c) := NextWord(b);
    var lead := NextWordParts(line);
    var gap := NextWordParts(a);
    var space := NextWordParts(b);
    NoneIsNext();
    l := Line(lead, verb, gap, target, space, version, c);
  }

  // ---- whole requests ----

  lemma {:induction false} BlankFound(s: Text, pos: nat, b: nat)
    requires pos <= b && IsCrlf(s, b) && IsCrlf(s, b + 2)
    ensures FindBlank(s, pos) <= b < |s|
    decreases b - pos
  {
    if pos < b {
      BlankFound(s, pos + 1, b);
    }
  }

  lemma {:induction false} JoinedHasBlank(lines: seq<Text>, body: Text)
    requires lines != []
    ensures var s := Joined(lines, body); |s| >= |body| + 4 && IsCrlf(s, |s| - |body| - 4) && IsCrlf(s, |s| - |body| - 2)
    decreases |lines|
  {
    var rest := Joined(lines[1..], body);
    if |lines| == 1 {
      BlankBehind(lines[0], body);
    } else {
      JoinedHasBlank(lines[1..], body);
      CrlfShifts(lines[0] + CRLF, rest, |rest| - |body| - 4);
      CrlfShifts(lines[0] + CRLF, rest, |rest| - |body| - 2);
    }
  }

  lemma CrlfShifts(a: Text, rest: Text, i: nat)
    requires IsCrlf(rest, i)
    ensures IsCrlf(a + rest, |a| + i)
  {
  }

  lemma BlankBehind(line: Text, body: Text)
    ensures var s := line + CRLF + (CRLF + body); IsCrlf(s, |line|) && IsCrlf(s, |line| + 2)
  {
  }

  /** A header with a first line has a blank line behind its fields. */
  lemma {:induction false} MessageHasBlank(header: Text, first: Text, fields: seq<Text>, body: Text)
    requires Split(header) == Some(Message([first] + fields, body))
    ensures FindBlank(header, 0) < |header|
  {
    JoinedOfSplit(header);
    JoinedHasBlank([first] + fields, body);
    BlankFound(header, 0, |header| - |body| - 4);
  }

  lemma {:induction false} FirstOfSplit(header: Text, first: Text, fields: seq<Text>, body: Text)
    requires Split(header) == Some(Message([first] + fields, body))
    ensures FindCrlf(header, 0) < |header| && header[..FindCrlf(header, 0)] == first
  {
    var i := FindCrlf(header, 0);
    assert ([first] + fields)[0] == first;
    if 0 < i < |header| {
      var m := Split(header[i + 2..]).value;
      assert ([header[..i]] + m.lines)[0] == header[..i];
    }
  }

  lemma {:induction false} RequestOfLine(lib: AddressTexts, header: Text, l: Line, fields: seq<Text>, body: Text)
    requires IsFirstLine(l) && Split(header) == Some(Message([TextOf(l)] + fields, body))
    ensures FindBlank(header, 0) < |header|
    ensures ReadRequest(lib, header) == RequestOf(lib, Words(l.verb, l.target, l.version), header)
  {
    MessageHasBlank(header, TextOf(l), fields, body);
    FirstOfSplit(header, TextOf(l), fields, body);
    WordsAreThose(l);
  }

  // ---- absolute targets ----

  /** "http://", an authority, and nothing or what starts with a slash. */
  predicate IsAbsolute(target: Text, authority: Text, tail: Text) {
    target == HTTP_PREFIX + (authority + tail) && SLASH !in authority && (tail == [] || tail[0] == SLASH)
  }

  lemma PrefixParts(rest: Text)
    ensures StartsWith(HTTP_PREFIX + rest, HTTP_PREFIX) && (HTTP_PREFIX + rest)[PREFIX_LEN..] == rest
  {
  }

  lemma {:induction false} AbsoluteIsParsed(lib: AddressTexts, target: Text, authority: Text, tail: Text)
    requires IsAbsolute(target, authority, tail)
    ensures StartsWith(target, HTTP_PREFIX) && target[PREFIX_LEN..] == authority + tail && Find(SLASH, authority + tail) == |authority|
    ensures ParseAbsoluteTarget(lib, target) == ParseAuthority(lib, authority, 80, false)
    ensures PathOf(target[PREFIX_LEN..]) == if tail == [] then [SLASH] else tail
  {
    PrefixParts(authority + tail);
    FindIs(SLASH, authority, tail);
    assert (authority + tail)[..|authority|] == authority && (authority + tail)[|authority|..] == tail;
  }

  lemma PrefixIsFront(target: Text)
    requires StartsWith(target, HTTP_PREFIX)
    ensures target == HTTP_PREFIX + target[PREFIX_LEN..]
  {
  }

  lemma {:induction false} ParsedIsAbsolute(lib: AddressTexts, target: Text) returns (authority: Text, tail: Text)
    requires ParseAbsoluteTarget(lib, target).Ok?
    ensures IsAbsolute(target, authority, tail)
  {
    var rest := target[PREFIX_LEN..];
    var slash := Find(SLASH, rest);
    authority, tail := rest[..slash], rest[slash..];
    NoneBefore(SLASH, rest);
    PrefixIsFront(target);
    assert rest == authority + tail;
  }

  /** The target names the destination: its authority, on port 80 unless it says otherwise. */
  ghost predicate Targets(lib: AddressTexts, target: Text, d: Destination) {
    exists authority, tail :: IsAbsolute(target, authority, tail) && ParseAuthority(lib, authority, 80, false) == Ok(d)
  }

  lemma TargetsIff(lib: AddressTexts, target: Text, d: Destination)
    ensures Targets(lib, target, d) <==> ParseAbsoluteTarget(lib, target) == Ok(d)
  {
    if ParseAbsoluteTarget(lib, target) == Ok(d) {
      var authority, tail := ParsedIsAbsolute(lib, target);
      AbsoluteIsParsed(lib, target, authority, tail);
    }
    forall authority, tail | IsAbsolute(target, authority, tail) && ParseAuthority(lib, authority, 80, false) == Ok(d)
      ensures ParseAbsoluteTarget(lib, target) == Ok(d)
    {
      AbsoluteIsParsed(lib, target, authority, tail);
    }
  }

  // ---- which requests are served ----

  ghost predicate IsForwarded(lib: AddressTexts, header: Text, d: Destination)
    requires FindBlank(header, 0) < |header|
  {
    exists payload :: ReadRequest(lib, header) == Ok(Forward(d, payload))
  }

  /**
   For every first line of three words, whatever fields and body follow: the request is forwarded to a
   destination exactly if it is no CONNECT, its version is one of HTTP and its target names the destination;
   it opens a tunnel exactly if it is a CONNECT whose target is an authority with a port.
   */
  lemma {:induction false} RequestIsServedIff(lib: AddressTexts, header: Text, l: Line, fields: seq<Text>, body: Text, d: Destination)
    requires IsFirstLine(l) && Split(header) == Some(Message([TextOf(l)] + fields, body))
    ensures FindBlank(header, 0) < |header|
    ensures IsForwarded(lib, header, d) <==>
            l.verb != CONNECT && StartsWith(l.version, VERSION_PREFIX) && Targets(lib, l.target, d)
    ensures ReadRequest(lib, header) == Ok(Tunnel(d)) <==>
            l.verb == CONNECT && StartsWith(l.version, VERSION_PREFIX) && ParseAuthority(lib, l.target, 0, true) == Ok(d)
  {
    RequestOfLine(lib, header, l, fields, body);
    var w := Words(l.verb, l.target, l.version);
    TargetsIff(lib, l.target, d);
    TunnelOfIff(lib, w, header, d);
    forall payload ensures RequestOf(lib, w, header) == Ok(Forward(d, payload)) <==> IsForwardOf(lib, w, header, d, payload) {
      ForwardOfIff(lib, w, header, d, payload);
    }
    if ParseAbsoluteTarget(lib, w.target) == Ok(d) && w.verb != CONNECT && StartsWith(w.version, VERSION_PREFIX) {
      assert IsForwardOf(lib, w, header, d, PayloadOf(w, header));
    }
  }

  predicate IsForwardOf(lib: AddressTexts, w: Words, header: Text, d: Destination, payload: Text)
    requires FindBlank(header, 0) < |header|
  {
    && w.verb != CONNECT && StartsWith(w.version, VERSION_PREFIX) && ParseAbsoluteTarget(lib, w.target) == Ok(d)
    && payload == PayloadOf(w, header)
  }

  lemma {:induction false} ForwardOfIff(lib: AddressTexts, w: Words, header: Text, d: Destination, payload: Text)
    requires FindBlank(header, 0) < |header| && w.target != []
    ensures RequestOf(lib, w, header) == Ok(Forward(d, payload)) <==> IsForwardOf(lib, w, header, d, payload)
  {
  }

  lemma {:induction false} TunnelOfIff(lib: AddressTexts, w: Words, header: Text, d: Destination)
    requires FindBlank(header, 0) < |header| && w.target != []
    ensures RequestOf(lib, w, header) == Ok(Tunnel(d)) <==>
            w.verb == CONNECT && StartsWith(w.version, VERSION_PREFIX) && ParseAuthority(lib, w.target, 0, true) == Ok(d)
  {
  }

  /** And no other request is served. */
  lemma ServedHasThreeWords(lib: AddressTexts, header: Text) returns (l: Line, fields: seq<Text>, body: Text)
    requires FindBlank(header, 0) < |header| && ReadRequest(lib, header).Ok?
    ensures IsFirstLine(l) && Split(header) == Some(Message([TextOf(l)] + fields, body))
  {
    var m := WordsMakeMessage(header);
    l := ThreeWords(m.lines[0]);
    fields, body := m.lines[1..], m.body;
    assert m.lines == [m.lines[0]] + m.lines[1..];
  }

  /**
   What a forwarded request becomes: the verb, the target behind its authority or "/", and the version,
   with one space between them; then the fields but the proxy ones, and the body.
   */
  lemma {:induction false} ForwardedIs(lib: AddressTexts, header: Text, l: Line, fields: seq<Text>, body: Text, authority: Text, tail: Text, d: Destination, payload: Text)
    requires IsFirstLine(l) && Split(header) == Some(Message([TextOf(l)] + fields, body)) && IsAbsolute(l.target, authority, tail)
    requires FindBlank(header, 0) < |header| && ReadRequest(lib, header) == Ok(Forward(d, payload))
    ensures var path := if tail == [] then [47] else tail;
            Split(payload) == Some(Message([l.verb + [32] + path + [32] + l.version] + Filtered(fields), body))
  {
    var first, more, rest := ForwardedRequestIsFiltered(lib, header);
    assert ([first] + more)[0] == ([TextOf(l)] + fields)[0];
    assert more == ([first] + more)[1..] == ([TextOf(l)] + fields)[1..] == fields;
    WordsAreThose(l);
    AbsoluteIsParsed(lib, l.target, authority, tail);
  }

  // ---- constants ----

  /** The bytes of a text in ASCII. */
  function Ascii(s: string): Text { seq(|s|, i requires 0 <= i < |s| => (s[i] as int) % 0x100) }

  lemma WordsAreSpelled()
    ensures CONNECT == Ascii("CONNECT") && HTTP_PREFIX == Ascii("http://") && VERSION_PREFIX == Ascii("HTTP/")
  {
  }

  lemma FieldNamesAreSpelled()
    ensures PROXY_CONNECTION == Ascii("proxy-connection:") && PROXY_AUTHORIZATION == Ascii("proxy-authorization:")
  {
  }
}
