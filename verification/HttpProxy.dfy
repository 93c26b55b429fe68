/**
 The request rewriter of src/protocol/http_proxy.cpp: what it forwards, read with an independent
 splitter, is the request it received with the request line in origin form and the proxy fields gone.
 */
module HttpProxy {
  import opened Bytes

  const CR: Byte := 13
  const LF: Byte := 10
  const SPACE: Byte := 32
  const SLASH: Byte := 47
  const QUESTION_MARK: Byte := 63
  const HASH: Byte := 35
  const CRLF: Text := [13, 10]

  // ---- messages ----

  datatype Message = Message(lines: seq<Text>, body: Text)

  predicate IsCrlf(s: Text, i: nat) { i + 2 <= |s| && s[i] == CR && s[i + 1] == LF }

  /** The index of the first line end from i on, or the length of the text. */
  function FindCrlf(s: Text, i: nat): (r: nat)
    ensures i <= |s| ==> i <= r <= |s|
    ensures r < |s| ==> IsCrlf(s, r)
    decreases |s| - i
  {
    if i + 2 > |s| then |s| else if IsCrlf(s, i) then i else FindCrlf(s, i + 1)
  }

  /** The lines up to the first empty one, and the body after it. */
  function Split(s: Text): Option<Message>
    decreases |s|
  {
    var i := FindCrlf(s, 0);
    if i >= |s| then None
    else if i == 0 then Some(Message([], s[2..]))
    else
      match Split(s[i + 2..])
      case None => None
      case Some(m) => Some(Message([s[..i]] + m.lines, m.body))
  }

  ghost predicate IsLine(t: Text) { t != [] && forall i: nat :: !IsCrlf(t, i) }

  ghost predicate AllLines(lines: seq<Text>) {
    lines == [] || (IsLine(lines[0]) && AllLines(lines[1..]))
  }

  function Unlines(lines: seq<Text>): Text {
    if lines == [] then [] else lines[0] + CRLF + Unlines(lines[1..])
  }

  /** The message with these lines and body. */
  function Joined(lines: seq<Text>, body: Text): (s: Text)
    ensures |s| >= |body| + 2
  {
    if lines == [] then CRLF + body else lines[0] + CRLF + Joined(lines[1..], body)
  }

  lemma {:induction false} FindsEndOfLine(t: Text, rest: Text, i: nat)
    requires (forall k: nat :: !IsCrlf(t, k)) && i <= |t|
    ensures FindCrlf(t + CRLF + rest, i) == |t|
    decreases |t| - i
  {
    var s := t + CRLF + rest;
    if i < |t| {
      assert !IsCrlf(t, i);
      assert s[i] == t[i] && (i + 1 < |t| ==> s[i + 1] == t[i + 1]);
      FindsEndOfLine(t, rest, i + 1);
    }
  }

  lemma Peeled(t: Text, rest: Text)
    ensures (t + CRLF + rest)[..|t|] == t && (t + CRLF + rest)[|t| + 2..] == rest
  {
  }

  lemma {:induction false} SplitAfterLine(t: Text, rest: Text)
    requires IsLine(t) && Split(rest).Some?
    ensures Split(t + CRLF + rest) == Some(Message([t] + Split(rest).value.lines, Split(rest).value.body))
  {
    FindsEndOfLine(t, rest, 0);
    Peeled(t, rest);
  }

  lemma {:induction false} SplitAtBlank(body: Text)
    ensures Split(CRLF + body) == Some(Message([], body))
  {
    assert [] + CRLF + body == CRLF + body;
    FindsEndOfLine([], body, 0);
    Peeled([], body);
  }

  lemma Reassociate(a: Text, b: Text, c: Text)
    ensures a + CRLF + (b + c) == a + CRLF + b + c
  {
  }

  lemma {:induction false} JoinedIsUnlines(lines: seq<Text>, body: Text)
    ensures Joined(lines, body) == Unlines(lines) + (CRLF + body)
    decreases |lines|
  {
    if lines == [] {
      assert [] + (CRLF + body) == CRLF + body;
    } else {
      JoinedIsUnlines(lines[1..], body);
      Reassociate(lines[0], Unlines(lines[1..]), CRLF + body);
    }
  }

  lemma {:induction false} JoinedAfterLine(t: Text, lines: seq<Text>, body: Text)
    ensures Joined([t] + lines, body) == t + CRLF + Joined(lines, body)
  {
    assert ([t] + lines)[1..] == lines;
  }

  /** Splitting inverts joining. */
  lemma {:induction false} SplitOfJoined(lines: seq<Text>, body: Text)
    requires AllLines(lines)
    ensures Split(Joined(lines, body)) == Some(Message(lines, body))
    decreases |lines|
  {
    if lines == [] {
      SplitAtBlank(body);
    } else {
      SplitOfJoined(lines[1..], body);
      SplitAfterLine(lines[0], Joined(lines[1..], body));
      assert [lines[0]] + lines[1..] == lines;
    }
  }

  lemma {:induction false} NoLineEndBefore(s: Text, i: nat, k: nat)
    requires i <= k < FindCrlf(s, i)
    ensures !IsCrlf(s, k)
    decreases |s| - i
  {
    if i < k {
      NoLineEndBefore(s, i + 1, k);
    }
  }

  lemma CutAt(s: Text, i: nat)
    requires IsCrlf(s, i)
    ensures s == s[..i] + CRLF + s[i + 2..]
    ensures i == 0 ==> s == CRLF + s[2..]
  {
    assert s[i..i + 2] == CRLF;
  }

  lemma {:induction false} NoLineEndInFront(s: Text, k: nat)
    requires FindCrlf(s, 0) < |s|
    ensures !IsCrlf(s[..FindCrlf(s, 0)], k)
  {
    if k + 2 <= FindCrlf(s, 0) {
      NoLineEndBefore(s, 0, k);
    }
  }

  /** And joining inverts splitting. */
  lemma {:induction false} JoinedOfSplit(s: Text)
    requires Split(s).Some?
    ensures AllLines(Split(s).value.lines) && s == Joined(Split(s).value.lines, Split(s).value.body)
    decreases |s|
  {
    var i := FindCrlf(s, 0);
    CutAt(s, i);
    if i > 0 {
      var t, rest := s[..i], s[i + 2..];
      forall k: nat ensures !IsCrlf(t, k) {
        NoLineEndInFront(s, k);
      }
      JoinedOfSplit(rest);
      JoinedAfterLine(t, Split(rest).value.lines, Split(rest).value.body);
      assert ([t] + Split(rest).value.lines)[1..] == Split(rest).value.lines;
    }
  }

  // ---- the rewriter ----

  function Lower(c: Byte): Byte { if 65 <= c <= 90 then c + 32 else c }

  function LowerAll(t: Text): (r: Text)
    ensures |r| == |t|
  {
    seq(|t|, i requires 0 <= i < |t| => Lower(t[i]))
  }

  predicate StartsWith(t: Text, prefix: Text) {
    |prefix| <= |t| && forall i :: 0 <= i < |prefix| ==> t[i] == prefix[i]
  }

  // "proxy-connection:" and "proxy-authorization:"
  const PROXY_CONNECTION: Text := [112, 114, 111, 120, 121, 45, 99, 111, 110, 110, 101, 99, 116, 105, 111, 110, 58]
  const PROXY_AUTHORIZATION: Text := [112, 114, 111, 120, 121, 45, 97, 117, 116, 104, 111, 114, 105, 122, 97, 116, 105, 111, 110, 58]

  predicate Kept(line: Text) {
    !StartsWith(LowerAll(line), PROXY_CONNECTION) && !StartsWith(LowerAll(line), PROXY_AUTHORIZATION)
  }

  /** The line begins with the name, letters in either case; the name is given in lower case. */
  predicate Names(line: Text, name: Text) {
    |name| <= |line| && forall i :: 0 <= i < |name| ==> line[i] == name[i] || (97 <= name[i] <= 122 && line[i] == name[i] - 32)
  }

  lemma StartsWithLower(line: Text, name: Text)
    requires forall i :: 0 <= i < |name| ==> !(65 <= name[i] <= 90)
    ensures StartsWith(LowerAll(line), name) <==> Names(line, name)
  {
    if |name| <= |line| {
      forall i | 0 <= i < |name|
        ensures LowerAll(line)[i] == name[i] <==> line[i] == name[i] || (97 <= name[i] <= 122 && line[i] == name[i] - 32)
      {
      }
    }
  }

  /** A line is dropped exactly when it begins with one of the two proxy field names, in any letter case. */
  lemma DroppedIffProxyField(line: Text)
    ensures !Kept(line) <==> Names(line, PROXY_CONNECTION) || Names(line, PROXY_AUTHORIZATION)
  {
    StartsWithLower(line, PROXY_CONNECTION);
    StartsWithLower(line, PROXY_AUTHORIZATION);
  }

  /** The lines that are kept, in order. */
  function Filtered(lines: seq<Text>): seq<Text> {
    if lines == [] then []
    else (if Kept(lines[0]) then [lines[0]] else []) + Filtered(lines[1..])
  }

  /** Which lines those are: order is kept, and each line is kept or dropped by its own beginning. */
  lemma {:induction false} FilteredInOrder(a: seq<Text>, b: seq<Text>, line: Text)
    ensures Filtered(a + b) == Filtered(a) + Filtered(b)
    ensures Filtered([line]) == if Names(line, PROXY_CONNECTION) || Names(line, PROXY_AUTHORIZATION) then [] else [line]
    decreases |a|
  {
    DroppedIffProxyField(line);
    assert [line][1..] == [] && Filtered([line][1..]) == [];
    if a == [] {
      assert a + b == b;
    } else {
      assert (a + b)[1..] == a[1..] + b;
      FilteredInOrder(a[1..], b, line);
    }
  }

  /** What the header loop appends from pos on. */
  function RewriteLines(header: Text, headerSize: nat, pos: nat): Text
    decreases |header| - pos
  {
    if pos >= headerSize then []
    else
      var next := FindCrlf(header, pos);
      if next >= |header| || next <= pos then []
      else
        var line := Slice(header, pos, next - pos);
        (if Kept(line) then line + CRLF else []) + RewriteLines(header, headerSize, next + 2)
  }

  /** Where the header loop stops. */
  function StopsAt(header: Text, headerSize: nat, pos: nat): nat
    decreases |header| - pos
  {
    if pos >= headerSize then pos
    else
      var next := FindCrlf(header, pos);
      if next >= |header| || next <= pos then pos else StopsAt(header, headerSize, next + 2)
  }

  const PREFIX_LEN: nat := 7 // of "http://"

  /** The path put into the request line, from the target without "http://". */
  function PathOf(rest: Text): Text {
    var slash := Find(SLASH, rest);
    if slash == |rest| then [SLASH] else rest[slash..]
  }

  function RequestLine(verb: Text, path: Text, version: Text): Text { verb + [SPACE] + path + [SPACE] + version }

  /** The payload for a header that has a first line; the program has checked the target's prefix. */
  function Payload(header: Text, headerSize: nat, verb: Text, target: Text, version: Text): Text
    requires |target| >= PREFIX_LEN && headerSize <= |header|
  {
    RequestLine(verb, PathOf(target[PREFIX_LEN..]), version) + CRLF
    + RewriteLines(header, headerSize, FindCrlf(header, 0) + 2) + CRLF + header[headerSize..]
  }

  method BuildInitialPayload(header: Text, headerSize: nat, verb: Text, target: Text, version: Text) returns (rewritten: Text)
    requires |target| >= PREFIX_LEN && headerSize <= |header|
    ensures rewritten == Payload(header, headerSize, verb, target, version)
  {
    var rest := target[PREFIX_LEN..];
    var path := PathOf(rest);
    rewritten := verb;
    rewritten := rewritten + [SPACE];
    rewritten := rewritten + path;
    rewritten := rewritten + [SPACE];
    rewritten := rewritten + version;
    rewritten := rewritten + CRLF;
    rewritten := AppendKept(header, headerSize, FindCrlf(header, 0) + 2, rewritten);
    rewritten := rewritten + CRLF;
    if |header| > headerSize {
      rewritten := rewritten + header[headerSize..];
    } else {
      assert header[headerSize..] == [] && rewritten + [] == rewritten;
    }
  }

  /** The loop of `build_initial_payload`. */
  method AppendKept(header: Text, headerSize: nat, start: nat, before: Text) returns (rewritten: Text)
    ensures rewritten == before + RewriteLines(header, headerSize, start)
  {
    rewritten := before;
    var pos := start;
    while pos < headerSize
      invariant rewritten + RewriteLines(header, headerSize, pos) == before + RewriteLines(header, headerSize, start)
      decreases |header| - pos
    {
      var next := FindCrlf(header, pos);
      if next >= |header| || next == pos {
        break;
      }
      var line := header[pos..next];
      SliceIs(header, pos, next);
      TurnAppends(header, headerSize, pos, line, rewritten);
      if Kept(line) {
        rewritten := rewritten + line;
        rewritten := rewritten + CRLF;
      }
      pos := next + 2;
    }
    assert rewritten + [] == rewritten;
  }

  lemma SliceIs(s: Text, from: nat, to: nat)
    requires from <= to <= |s|
    ensures s[from..to] == Slice(s, from, to - from)
  {
  }

  lemma TurnAppends(header: Text, headerSize: nat, pos: nat, line: Text, rewritten: Text)
    requires pos < headerSize && line != [] && FindCrlf(header, pos) == pos + |line| < |header| && Slice(header, pos, |line|) == line
    ensures rewritten + RewriteLines(header, headerSize, pos)
            == (if Kept(line) then rewritten + line + CRLF else rewritten) + RewriteLines(header, headerSize, pos + |line| + 2)
  {
    OneTurn(header, headerSize, pos, line);
    AppendTwice(rewritten, line, RewriteLines(header, headerSize, pos + |line| + 2));
  }

  lemma AppendTwice(a: Text, line: Text, rest: Text)
    ensures a + ((line + CRLF) + rest) == a + line + CRLF + rest
    ensures a + ([] + rest) == a + rest
  {
  }

  // ---- the loop over a message ----

  /** From pos on the text is t. */
  predicate TailIs(s: Text, pos: nat, t: Text) { pos + |t| == |s| && HasAt(s, pos, t) }

  lemma TailSlice(s: Text, pos: nat, t: Text)
    requires TailIs(s, pos, t)
    ensures s[pos..] == t
  {
  }

  lemma {:induction false} FindShifts(s: Text, pos: nat, i: nat)
    requires pos <= |s|
    ensures FindCrlf(s, pos + i) == pos + FindCrlf(s[pos..], i) || pos + i > |s|
    decreases |s| - pos - i
  {
    if pos + i + 2 <= |s| && !IsCrlf(s, pos + i) {
      FindShifts(s, pos, i + 1);
    }
  }

  lemma {:induction false} FindsEndOfLineAt(s: Text, pos: nat, t: Text, i: nat)
    requires HasAt(s, pos, t) && IsCrlf(s, pos + |t|) && (forall k: nat :: !IsCrlf(t, k)) && i <= |t|
    ensures FindCrlf(s, pos + i) == pos + |t|
    decreases |t| - i
  {
    if i < |t| {
      assert !IsCrlf(t, i);
      assert s[pos + i] == t[i] && (i + 1 < |t| ==> s[pos + (i + 1)] == t[i + 1]);
      FindsEndOfLineAt(s, pos, t, i + 1);
    }
  }

  lemma {:induction false} LineFollows(s: Text, pos: nat, t: Text, rest: Text)
    requires TailIs(s, pos, t + CRLF + rest) && forall k: nat :: !IsCrlf(t, k)
    ensures pos + |t| + 2 <= |s| && FindCrlf(s, pos) == pos + |t|
    ensures Slice(s, pos, |t|) == t && TailIs(s, pos + |t| + 2, rest)
  {
    HasBoth(s, pos, t + CRLF, rest);
    HasBoth(s, pos, t, CRLF);
    assert s[pos + |t| + 0] == CRLF[0] && s[pos + |t| + 1] == CRLF[1];
    FindsEndOfLineAt(s, pos, t, 0);
    HasSlice(s, pos, t);
  }

  lemma OneTurn(s: Text, headerSize: nat, pos: nat, t: Text)
    requires pos < headerSize && t != [] && FindCrlf(s, pos) == pos + |t| < |s| && Slice(s, pos, |t|) == t
    ensures RewriteLines(s, headerSize, pos) == (if Kept(t) then t + CRLF else []) + RewriteLines(s, headerSize, pos + |t| + 2)
  {
  }

  lemma GoesOn(s: Text, headerSize: nat, pos: nat, t: Text)
    requires pos < headerSize && t != [] && FindCrlf(s, pos) == pos + |t| < |s|
    ensures StopsAt(s, headerSize, pos) == StopsAt(s, headerSize, pos + |t| + 2)
  {
  }

  /** One turn of the loop over a line. */
  lemma LoopTakesLine(s: Text, headerSize: nat, pos: nat, t: Text, rest: Text)
    requires IsLine(t) && TailIs(s, pos, t + CRLF + rest) && pos < headerSize
    ensures TailIs(s, pos + |t| + 2, rest)
    ensures RewriteLines(s, headerSize, pos) == (if Kept(t) then t + CRLF else []) + RewriteLines(s, headerSize, pos + |t| + 2)
    ensures StopsAt(s, headerSize, pos) == StopsAt(s, headerSize, pos + |t| + 2)
  {
    LineFollows(s, pos, t, rest);
    OneTurn(s, headerSize, pos, t);
    GoesOn(s, headerSize, pos, t);
  }

  lemma {:induction false} LoopStopsAtBlank(s: Text, pos: nat, body: Text)
    requires TailIs(s, pos, CRLF + body)
    ensures RewriteLines(s, |s| - |body|, pos) == [] && StopsAt(s, |s| - |body|, pos) == pos == |s| - |body| - 2
    ensures s[|s| - |body|..] == body
  {
    assert [] + CRLF + body == CRLF + body;
    LineFollows(s, pos, [], body);
    TailSlice(s, |s| - |body|, body);
  }

  lemma {:induction false} LoopEnds(s: Text, pos: nat, fields: seq<Text>, body: Text)
    requires AllLines(fields) && TailIs(s, pos, Joined(fields, body))
    ensures |s| >= |body| && StopsAt(s, |s| - |body|, pos) == |s| - |body| - 2 && s[|s| - |body|..] == body
    decreases |fields|
  {
    if fields == [] {
      LoopStopsAtBlank(s, pos, body);
    } else {
      LoopTakesLine(s, |s| - |body|, pos, fields[0], Joined(fields[1..], body));
      LoopEnds(s, pos + |fields[0]| + 2, fields[1..], body);
    }
  }

  lemma FirstTurn(s: Text, headerSize: nat, pos: nat, fields: seq<Text>, body: Text)
    requires fields != [] && IsLine(fields[0]) && TailIs(s, pos, Joined(fields, body)) && pos < headerSize
    ensures RewriteLines(s, headerSize, pos)
            == (if Kept(fields[0]) then fields[0] + CRLF else []) + RewriteLines(s, headerSize, pos + |fields[0]| + 2)
  {
    JoinedFirst(fields, body, Joined(fields, body), Joined(fields[1..], body));
    LoopTakesLine(s, headerSize, pos, fields[0], Joined(fields[1..], body));
  }

  lemma {:induction false} FirstLeaves(s: Text, headerSize: nat, pos: nat, fields: seq<Text>, body: Text)
    requires fields != [] && IsLine(fields[0]) && TailIs(s, pos, Joined(fields, body)) && pos < headerSize
    ensures TailIs(s, pos + |fields[0]| + 2, Joined(fields[1..], body))
  {
    JoinedFirst(fields, body, Joined(fields, body), Joined(fields[1..], body));
    LoopTakesLine(s, headerSize, pos, fields[0], Joined(fields[1..], body));
  }

  lemma {:induction false} JoinedFirst(fields: seq<Text>, body: Text, all: Text, rest: Text)
    requires fields != [] && all == Joined(fields, body) && rest == Joined(fields[1..], body)
    ensures all == fields[0] + CRLF + rest
  {
  }

  lemma {:induction false} JoinedFits(s: Text, pos: nat, fields: seq<Text>, body: Text)
    requires TailIs(s, pos, Joined(fields, body))
    ensures pos < |s| - |body|
  {
  }

  lemma {:induction false} FilteredOneMore(fields: seq<Text>, all: Text, rest: Text)
    requires fields != [] && rest == Unlines(Filtered(fields[1..])) && all == (if Kept(fields[0]) then fields[0] + CRLF else []) + rest
    ensures all == Unlines(Filtered(fields))
  {
    FilteredFirst(fields);
  }

  lemma {:induction false} LoopKeeps(s: Text, pos: nat, fields: seq<Text>, body: Text)
    requires AllLines(fields) && TailIs(s, pos, Joined(fields, body))
    ensures RewriteLines(s, |s| - |body|, pos) == Unlines(Filtered(fields))
    decreases |fields|
  {
    if fields == [] {
      LoopStopsAtBlank(s, pos, body);
    } else {
      var next := pos + |fields[0]| + 2;
      JoinedFits(s, pos, fields, body);
      FirstLeaves(s, |s| - |body|, pos, fields, body);
      LoopKeeps(s, next, fields[1..], body);
      FirstTurn(s, |s| - |body|, pos, fields, body);
      FilteredOneMore(fields, RewriteLines(s, |s| - |body|, pos), RewriteLines(s, |s| - |body|, next));
    }
  }

  /** Over the fields of a message the loop keeps exactly the filtered lines and stops at the blank line. */
  lemma {:induction false} LoopFilters(s: Text, pos: nat, fields: seq<Text>, body: Text)
    requires AllLines(fields) && TailIs(s, pos, Joined(fields, body))
    ensures RewriteLines(s, |s| - |body|, pos) == Unlines(Filtered(fields))
    ensures StopsAt(s, |s| - |body|, pos) == |s| - |body| - 2 && s[|s| - |body|..] == body
  {
    LoopKeeps(s, pos, fields, body);
    LoopEnds(s, pos, fields, body);
  }

  lemma {:induction false} FilteredFirst(fields: seq<Text>)
    requires fields != []
    ensures Unlines(Filtered(fields)) == (if Kept(fields[0]) then fields[0] + CRLF else []) + Unlines(Filtered(fields[1..]))
  {
    if Kept(fields[0]) {
      assert ([fields[0]] + Filtered(fields[1..]))[1..] == Filtered(fields[1..]);
    } else {
      assert [] + Filtered(fields[1..]) == Filtered(fields[1..]);
      assert [] + Unlines(Filtered(fields[1..])) == Unlines(Filtered(fields[1..]));
    }
  }

  lemma {:induction false} FilteredAreLines(fields: seq<Text>)
    requires AllLines(fields)
    ensures AllLines(Filtered(fields))
    decreases |fields|
  {
    if fields != [] {
      FilteredAreLines(fields[1..]);
      if Kept(fields[0]) {
        assert ([fields[0]] + Filtered(fields[1..]))[1..] == Filtered(fields[1..]);
      } else {
        assert [] + Filtered(fields[1..]) == Filtered(fields[1..]);
      }
    }
  }

  lemma {:induction false} LoopOverHeader(header: Text, first: Text, fields: seq<Text>, body: Text)
    requires IsLine(first) && AllLines(fields) && TailIs(header, 0, first + CRLF + Joined(fields, body))
    ensures |header| >= |body| && header[|header| - |body|..] == body
    ensures RewriteLines(header, |header| - |body|, FindCrlf(header, 0) + 2) == Unlines(Filtered(fields))
    ensures StopsAt(header, |header| - |body|, FindCrlf(header, 0) + 2) == |header| - |body| - 2
  {
    LineFollows(header, 0, first, Joined(fields, body));
    LoopFilters(header, |first| + 2, fields, body);
  }

  lemma {:induction false} HeaderParts(header: Text, first: Text, fields: seq<Text>, body: Text)
    requires Split(header) == Some(Message([first] + fields, body))
    ensures IsLine(first) && AllLines(fields) && TailIs(header, 0, first + CRLF + Joined(fields, body))
  {
    JoinedOfSplit(header);
    JoinedAfterLine(first, fields, body);
    assert ([first] + fields)[1..] == fields;
    HasItself(header);
  }

  lemma {:induction false} HeaderIsRead(header: Text, first: Text, fields: seq<Text>, body: Text)
    requires Split(header) == Some(Message([first] + fields, body))
    ensures AllLines(fields) && |header| >= |body| && header[|header| - |body|..] == body
    ensures RewriteLines(header, |header| - |body|, FindCrlf(header, 0) + 2) == Unlines(Filtered(fields))
    ensures StopsAt(header, |header| - |body|, FindCrlf(header, 0) + 2) == |header| - |body| - 2
  {
    HeaderParts(header, first, fields, body);
    LoopOverHeader(header, first, fields, body);
  }

  lemma {:induction false} PayloadSplits(line: Text, fields: seq<Text>, body: Text)
    requires IsLine(line) && AllLines(fields)
    ensures Split(line + CRLF + Unlines(Filtered(fields)) + CRLF + body) == Some(Message([line] + Filtered(fields), body))
  {
    FilteredAreLines(fields);
    SplitOfJoined(Filtered(fields), body);
    SplitAfterLine(line, Joined(Filtered(fields), body));
    JoinedIsUnlines(Filtered(fields), body);
    PayloadIs(line, Unlines(Filtered(fields)), body);
  }

  /**
   Rewriting is an exact filter.  For a request that splits into a first line, fields and a body, the
   payload splits into the new request line, the fields but the two proxy ones in order, and the same
   body; the loop stops at the blank line.
   */
  lemma RewritingFilters(header: Text, first: Text, fields: seq<Text>, body: Text, verb: Text, target: Text, version: Text)
    requires Split(header) == Some(Message([first] + fields, body))
    requires |target| >= PREFIX_LEN && IsLine(RequestLine(verb, PathOf(target[PREFIX_LEN..]), version))
    ensures |header| >= |body| && StopsAt(header, |header| - |body|, FindCrlf(header, 0) + 2) == |header| - |body| - 2
    ensures Split(Payload(header, |header| - |body|, verb, target, version))
            == Some(Message([RequestLine(verb, PathOf(target[PREFIX_LEN..]), version)] + Filtered(fields), body))
  {
    HeaderIsRead(header, first, fields, body);
    PayloadOver(header, |header| - |body|, verb, target, version, Unlines(Filtered(fields)), body);
    PayloadSplits(RequestLine(verb, PathOf(target[PREFIX_LEN..]), version), fields, body);
  }

  lemma {:induction false} PayloadOver(header: Text, headerSize: nat, verb: Text, target: Text, version: Text, kept: Text, body: Text)
    requires |target| >= PREFIX_LEN && headerSize <= |header|
    requires RewriteLines(header, headerSize, FindCrlf(header, 0) + 2) == kept && header[headerSize..] == body
    ensures Payload(header, headerSize, verb, target, version)
            == RequestLine(verb, PathOf(target[PREFIX_LEN..]), version) + CRLF + kept + CRLF + body
  {
  }

  lemma PayloadIs(line: Text, kept: Text, body: Text)
    ensures line + CRLF + kept + CRLF + body == line + CRLF + (kept + (CRLF + body))
  {
  }

  // ---- where the header ends ----

  /** The first place from i on with two line ends in a row, or the length: what the read waits for. */
  function FindBlank(s: Text, i: nat): (r: nat)
    ensures i <= |s| ==> i <= r <= |s|
    ensures r < |s| ==> r + 4 <= |s|
    decreases |s| - i
  {
    if i + 4 > |s| then |s| else if IsCrlf(s, i) && IsCrlf(s, i + 2) then i else FindBlank(s, i + 1)
  }

  /** After a first line the splitter goes on behind it. */
  lemma TailAfterLine(s: Text, pos: nat)
    requires pos <= |s| && pos < FindCrlf(s, pos) < |s|
    ensures Split(s[FindCrlf(s, pos) + 2..]).Some? ==>
              Split(s[pos..]).Some? && Split(s[pos..]).value.body == Split(s[FindCrlf(s, pos) + 2..]).value.body
  {
    FindShifts(s, pos, 0);
    assert s[pos..][FindCrlf(s[pos..], 0) + 2..] == s[FindCrlf(s, pos) + 2..];
  }

  lemma BlankAt(s: Text, pos: nat)
    requires IsCrlf(s, pos)
    ensures Split(s[pos..]).Some? && Split(s[pos..]).value.body == s[pos + 2..]
  {
    assert IsCrlf(s[pos..], 0);
    assert s[pos..][2..] == s[pos + 2..];
  }

  /** How much of the text is left when the splitter has ended the header. */
  ghost predicate EndsHeaderAt(s: Text, pos: nat, end: nat)
    requires pos <= |s|
  {
    Split(s[pos..]).Some? && |s| - |Split(s[pos..]).value.body| == end
  }

  lemma {:induction false} EndsAtBlank(s: Text, pos: nat)
    requires pos < FindCrlf(s, pos) < |s| && IsCrlf(s, FindCrlf(s, pos) + 2)
    ensures FindBlank(s, pos) == FindCrlf(s, pos) && EndsHeaderAt(s, pos, FindBlank(s, pos) + 4)
  {
    FindBlankIs(s, pos, FindCrlf(s, pos));
    TailAfterLine(s, pos);
    BlankAt(s, FindCrlf(s, pos) + 2);
  }

  lemma EndsWithTail(s: Text, pos: nat, end: nat)
    requires pos < FindCrlf(s, pos) < |s| && EndsHeaderAt(s, FindCrlf(s, pos) + 2, end)
    ensures EndsHeaderAt(s, pos, end)
  {
    TailAfterLine(s, pos);
  }

  /** Unless the text starts with a line end, the first blank line is where the splitter ends the header. */
  lemma {:induction false} BlankLineEndsHeader(s: Text, pos: nat)
    requires pos <= |s| && FindBlank(s, pos) < |s| && !IsCrlf(s, pos)
    ensures EndsHeaderAt(s, pos, FindBlank(s, pos) + 4)
    decreases |s| - pos
  {
    BlankIsAfterLine(s, pos);
    var next := FindCrlf(s, pos) + 2;
    if IsCrlf(s, next) {
      EndsAtBlank(s, pos);
    } else {
      FindBlankLater(s, pos, next);
      BlankLineEndsHeader(s, next);
      EndsWithTail(s, pos, FindBlank(s, next) + 4);
    }
  }

  lemma {:induction false} BlankIsAfterLine(s: Text, pos: nat)
    requires pos <= |s| && FindBlank(s, pos) < |s|
    ensures IsCrlf(s, FindBlank(s, pos)) && IsCrlf(s, FindBlank(s, pos) + 2)
    ensures FindCrlf(s, pos) <= FindBlank(s, pos)
    decreases |s| - pos
  {
    if !(IsCrlf(s, pos) && IsCrlf(s, pos + 2)) {
      BlankIsAfterLine(s, pos + 1);
    }
  }

  lemma {:induction false} FindBlankIs(s: Text, pos: nat, b: nat)
    requires pos <= b && IsCrlf(s, b) && IsCrlf(s, b + 2) && FindCrlf(s, pos) == b
    ensures FindBlank(s, pos) == b
    decreases b - pos
  {
    if pos < b {
      FindBlankIs(s, pos + 1, b);
    }
  }

  lemma {:induction false} FindBlankLater(s: Text, pos: nat, next: nat)
    requires pos <= next - 2 && FindCrlf(s, pos) == next - 2 && next - 2 < |s| && !IsCrlf(s, next)
    ensures FindBlank(s, pos) == FindBlank(s, next)
    decreases next - pos
  {
    if pos == next - 2 {
      assert !IsCrlf(s, next - 1);
    } else {
      FindBlankLater(s, pos + 1, next);
    }
  }

  // ---- origin form ----

  /** Section 3.2 of RFC 3986: the authority ends at the first slash, question mark or number sign. */
  function AuthorityEnd(rest: Text): (i: nat)
    ensures i <= |rest|
  {
    var slash, question, hash := Find(SLASH, rest), Find(QUESTION_MARK, rest), Find(HASH, rest);
    var first := if slash < question then slash else question;
    if first < hash then first else hash
  }

  function AuthorityOf(rest: Text): Text { rest[..AuthorityEnd(rest)] }

  /**
   Section 3.2.1 of RFC 9112: the path and query behind the authority, without the fragment (section
   4.2.5 of RFC 9110); an empty path is sent as "/".
   */
  function OriginForm(rest: Text): Text {
    var behind := rest[AuthorityEnd(rest)..];
    var tail := behind[..Find(HASH, behind)];
    if tail == [] || tail[0] == QUESTION_MARK then [SLASH] + tail else tail
  }

  /**
   The program takes the text before the first slash for the authority and the rest for the path.  That is
   the authority and the origin form exactly when no query starts before the slash and there is no fragment.
   */
  lemma {:induction false} TargetIsReadRightIff(rest: Text)
    ensures rest[..Find(SLASH, rest)] == AuthorityOf(rest) && PathOf(rest) == OriginForm(rest) <==> PlainTarget(rest)
  {
    var slash, hash := Find(SLASH, rest), Find(HASH, rest);
    var end := AuthorityEnd(rest);
    var behind := rest[end..];
    if slash == end {
      FindBehind(HASH, rest, end);
      assert Find(HASH, behind) == hash - end;
      if hash == |rest| {
        assert behind[..|behind|] == behind;
      }
    } else {
      assert |rest[..slash]| != |AuthorityOf(rest)|;
    }
  }

  predicate PlainTarget(rest: Text) {
    Find(SLASH, rest) <= Find(QUESTION_MARK, rest) && Find(HASH, rest) == |rest|
  }

  lemma {:induction false} FindBehind(c: Byte, s: Text, i: nat)
    requires i <= Find(c, s)
    ensures Find(c, s[i..]) == Find(c, s) - i
    decreases i
  {
    if i > 0 {
      FindBehind(c, s[1..], i - 1);
      assert s[1..][i - 1..] == s[i..];
    } else {
      assert s[0..] == s;
    }
  }

  lemma RequestLineIsInjective(verb: Text, p: Text, q: Text, version: Text)
    requires RequestLine(verb, p, version) == RequestLine(verb, q, version)
    ensures p == q
  {
    var n := |verb| + 1;
    assert RequestLine(verb, p, version)[n..n + |p|] == p;
    assert RequestLine(verb, q, version)[n..n + |q|] == q;
  }
}
