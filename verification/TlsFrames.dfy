/**
 What `sniff_tls_sni` makes of server_name extensions that are not name lists: the code confines a list
 to the data, not to its extension.
 */
module TlsFrames {
  import opened Bytes
  import opened TlsSniffer

  // ---- a list of names inside some bytes ----

  /** Entries follow one another from one position to another, none of them a host name. */
  predicate OtherNames(data: seq<Byte>, from: nat, to: nat)
    decreases if from <= |data| then |data| - from else 0
  {
    from == to || (from + 3 <= |data| && data[from] != 0 && OtherNames(data, from + 3 + Read16(data, from + 1), to))
  }

  /** A host_name entry at `at`: its type, its length and the name. */
  predicate HostNameAt(data: seq<Byte>, at: nat, name: Text) {
    at + 3 + |name| <= |data| && data[at] == 0 && Read16(data, at + 1) == |name| && HasAt(data, at + 3, name)
  }

  lemma {:induction false} FoundEntry(data: seq<Byte>, pos: nat, end: nat) returns (at: nat)
    requires ScanNames(data, pos, end).Found?
    ensures at < end && OtherNames(data, pos, at) && HostNameAt(data, at, ScanNames(data, pos, end).name)
    decreases if pos <= |data| then |data| - pos else 0
  {
    if data[pos] == 0 {
      at := pos;
    } else {
      at := FoundEntry(data, pos + 3 + Read16(data, pos + 1), end);
    }
  }

  lemma {:induction false} PassedEntries(data: seq<Byte>, pos: nat, end: nat) returns (at: nat)
    requires pos <= |data| && ScanNames(data, pos, end) == Nothing
    ensures end <= at <= |data| && OtherNames(data, pos, at)
    decreases |data| - pos
  {
    if pos >= end {
      at := pos;
    } else {
      at := PassedEntries(data, pos + 3 + Read16(data, pos + 1), end);
    }
  }

  lemma {:induction false} ChainReachesHostName(data: seq<Byte>, pos: nat, at: nat, end: nat, name: Text)
    requires OtherNames(data, pos, at) && at < end && HostNameAt(data, at, name)
    ensures pos <= at && ScanNames(data, pos, end) == Found(name)
    decreases if pos <= |data| then |data| - pos else 0
  {
    if pos == at {
      HasSlice(data, at + 3, name);
    } else {
      ChainReachesHostName(data, pos + 3 + Read16(data, pos + 1), at, end, name);
    }
  }

  lemma {:induction false} ChainReachesEnd(data: seq<Byte>, pos: nat, at: nat, end: nat)
    requires OtherNames(data, pos, at) && end <= at <= |data|
    ensures pos <= at && ScanNames(data, pos, end) == Nothing
    decreases if pos <= |data| then |data| - pos else 0
  {
    if pos != at {
      ChainReachesEnd(data, pos + 3 + Read16(data, pos + 1), at, end);
    }
  }

  // ---- a server_name body by itself ----

  /** The first host name of a list that fits the body. */
  ghost predicate Yields(b: seq<Byte>, name: Text) {
    && |b| >= 2 && 2 + Read16(b, 0) <= |b|
    && exists at: nat :: at < 2 + Read16(b, 0) && OtherNames(b, 2, at) && HostNameAt(b, at, name)
  }

  /** A list that fits the body and has no host name. */
  ghost predicate Nameless(b: seq<Byte>) {
    && |b| >= 2 && 2 + Read16(b, 0) <= |b|
    && exists at: nat :: 2 + Read16(b, 0) <= at <= |b| && OtherNames(b, 2, at)
  }

  lemma YieldsIff(b: seq<Byte>, name: Text)
    ensures ScanServerName(b, 0) == Found(name) <==> Yields(b, name)
  {
    if ScanServerName(b, 0) == Found(name) {
      var at := FoundEntry(b, 2, 2 + Read16(b, 0));
    }
    if Yields(b, name) {
      var at: nat :| at < 2 + Read16(b, 0) && OtherNames(b, 2, at) && HostNameAt(b, at, name);
      ChainReachesHostName(b, 2, at, 2 + Read16(b, 0), name);
    }
  }

  lemma NamelessIff(b: seq<Byte>)
    ensures ScanServerName(b, 0) == Nothing <==> Nameless(b)
  {
    if ScanServerName(b, 0) == Nothing {
      var at := PassedEntries(b, 2, 2 + Read16(b, 0));
    }
    if Nameless(b) {
      var at: nat :| 2 + Read16(b, 0) <= at <= |b| && OtherNames(b, 2, at);
      ChainReachesEnd(b, 2, at, 2 + Read16(b, 0));
    }
  }

  // ---- framed extensions ----

  /** An extension as framed: its type and any body. */
  datatype Frame = Frame(etype: Word, body: seq<Byte>)

  predicate Framed(frames: seq<Frame>) {
    frames == [] || (|frames[0].body| < 0x1_0000 && Framed(frames[1..]))
  }

  function EncodeFrame(f: Frame): seq<Byte>
    requires |f.body| < 0x1_0000
  {
    [Hi(f.etype), Lo(f.etype)] + Vector16(f.body)
  }

  function EncodeFrames(frames: seq<Frame>): seq<Byte>
    requires Framed(frames)
  {
    if frames == [] then [] else EncodeFrame(frames[0]) + EncodeFrames(frames[1..])
  }

  function OwnScan(f: Frame): Scan { if f.etype == 0 then ScanServerName(f.body, 0) else Nothing }

  /** What the extensions say, each by its own body. */
  function Own(frames: seq<Frame>): Scan {
    if frames == [] then Nothing else if OwnScan(frames[0]) == Nothing then Own(frames[1..]) else OwnScan(frames[0])
  }

  /** Every server_name body, up to the first that yields a name, is a name list that fits it. */
  ghost predicate ListsFit(frames: seq<Frame>) {
    frames == []
    || (frames[0].etype == 0 && exists name :: Yields(frames[0].body, name))
    || ((frames[0].etype == 0 ==> Nameless(frames[0].body)) && ListsFit(frames[1..]))
  }

  lemma {:induction false} OwnIsWholeIff(frames: seq<Frame>)
    ensures Own(frames) != Broken <==> ListsFit(frames)
    decreases |frames|
  {
    if frames != [] {
      var b := frames[0].body;
      NamelessIff(b);
      forall name ensures ScanServerName(b, 0) == Found(name) <==> Yields(b, name) {
        YieldsIff(b, name);
      }
      assert ScanServerName(b, 0).Found? ==> Yields(b, ScanServerName(b, 0).name);
      OwnIsWholeIff(frames[1..]);
    }
  }

  lemma FrameIsRead(data: seq<Byte>, pos: nat, f: Frame)
    requires |f.body| < 0x1_0000 && HasAt(data, pos, EncodeFrame(f))
    ensures pos + 4 + |f.body| <= |data| && |EncodeFrame(f)| == 4 + |f.body|
    ensures Read16(data, pos) == f.etype && Read16(data, pos + 2) == |f.body| && HasAt(data, pos + 4, f.body)
  {
    HasBoth(data, pos, [Hi(f.etype), Lo(f.etype)], Vector16(f.body));
    PairIsRead(data, pos, f.etype);
    Vector16IsRead(data, pos + 2, f.body);
  }

  /** A list that fits its body is scanned the same wherever the body stands. */
  lemma BodyScansAlike(data: seq<Byte>, at: nat, b: seq<Byte>)
    requires HasAt(data, at, b) && ScanServerName(b, 0) != Broken
    ensures ScanServerName(data, at) == ScanServerName(b, 0)
  {
    var s, more := data[at..], data[at + |b|..];
    TailStands(data, at, b);
    ServerNameShifts(data, at, s, 0);
    assert Read16(s, 0) == Read16(b, 0);
    NamesAreStable(b, more, 2, 2 + Read16(b, 0));
  }

  lemma TailStands(data: seq<Byte>, at: nat, b: seq<Byte>)
    requires HasAt(data, at, b)
    ensures EndsWithFrom(data, at, data[at..]) && data[at..] == b + data[at + |b|..]
  {
  }

  /** One turn of the walk over framed extensions. */
  lemma FrameIsWalked(data: seq<Byte>, pos: nat, f: Frame, end: nat)
    requires |f.body| < 0x1_0000 && HasAt(data, pos, EncodeFrame(f)) && pos < end
    ensures var scan := if f.etype == 0 then ScanServerName(data, pos + 4) else Nothing;
            ScanBlockFrom(data, pos, end) == if scan == Nothing then ScanBlockFrom(data, pos + |EncodeFrame(f)|, end) else scan
  {
    FrameIsRead(data, pos, f);
  }

  lemma {:induction false} FramesAreWalked(data: seq<Byte>, pos: nat, frames: seq<Frame>)
    requires Framed(frames) && HasAt(data, pos, EncodeFrames(frames)) && Own(frames) != Broken
    ensures ScanBlockFrom(data, pos, pos + |EncodeFrames(frames)|) == Own(frames)
    decreases |frames|
  {
    if frames != [] {
      var f, rest := frames[0], EncodeFrames(frames[1..]);
      HasBoth(data, pos, EncodeFrame(f), rest);
      FrameIsRead(data, pos, f);
      FrameIsWalked(data, pos, f, pos + |EncodeFrame(f)| + |rest|);
      if f.etype == 0 {
        BodyScansAlike(data, pos + 4, f.body);
      }
      if OwnScan(f) == Nothing {
        FramesAreWalked(data, pos + |EncodeFrame(f)|, frames[1..]);
      }
    }
  }

  // ---- enough bytes behind make any walk whole ----

  lemma {:induction false} LongNamesEnd(data: seq<Byte>, pos: nat, end: nat)
    requires end + 0x1_0002 <= |data|
    ensures ScanNames(data, pos, end) != Broken
    decreases if pos <= |data| then |data| - pos else 0
  {
    if pos < end && data[pos] != 0 {
      LongNamesEnd(data, pos + 3 + Read16(data, pos + 1), end);
    }
  }

  lemma {:induction false} LongWalksEnd(data: seq<Byte>, pos: nat, frames: seq<Frame>)
    requires Framed(frames) && HasAt(data, pos, EncodeFrames(frames)) && pos + |EncodeFrames(frames)| + 0x2_0004 <= |data|
    ensures ScanBlockFrom(data, pos, pos + |EncodeFrames(frames)|) != Broken
    decreases |frames|
  {
    if frames != [] {
      var f, rest := frames[0], EncodeFrames(frames[1..]);
      HasBoth(data, pos, EncodeFrame(f), rest);
      FrameIsRead(data, pos, f);
      FrameIsWalked(data, pos, f, pos + |EncodeFrame(f)| + |rest|);
      LongNamesEnd(data, pos + 6, pos + 6 + Read16(data, pos + 4));
      LongWalksEnd(data, pos + |EncodeFrame(f)|, frames[1..]);
    }
  }

  // ---- messages ----

  predicate IsFramed(h: Hello, block: Option<seq<Frame>>) {
    && IsHello(h)
    && match block
       case None => |Fields(h)| + 4 < 0x1_0000
       case Some(frames) => Framed(frames) && |Fields(h)| + 2 + |EncodeFrames(frames)| + 4 < 0x1_0000
  }

  /** A ClientHello in one record, its extensions framed, or without an extensions block. */
  function EncodeFramed(minor: Byte, h: Hello, block: Option<seq<Frame>>): seq<Byte>
    requires IsFramed(h, block)
  {
    match block
    case None => EncodeBareHello(minor, h)
    case Some(frames) =>
      Headers(minor, |Fields(h)| + 2 + |EncodeFrames(frames)|) + (Fields(h) + Vector16(EncodeFrames(frames)))
  }

  function OwnVerdict(block: Option<seq<Frame>>): Scan { if block.None? then Nothing else Own(block.value) }

  /** The block of a framed message begins behind its own length. */
  function BlockStart(h: Hello): nat
    requires IsHello(h)
  {
    11 + |Fields(h)|
  }

  lemma {:induction false} BlockStands(data: seq<Byte>, minor: Byte, n: nat, h: Hello, bytes: seq<Byte>)
    requires IsHello(h) && |bytes| < 0x1_0000 && n + 4 < 0x1_0000 && 9 + n <= |data|
    requires HasAt(data, 0, Headers(minor, n) + (Fields(h) + Vector16(bytes)))
    ensures HasAt(data, BlockStart(h), bytes) && Verdict(data) == ScanBlockFrom(data, BlockStart(h), BlockStart(h) + |bytes|)
  {
    HasThree(data, 0, Headers(minor, n), Fields(h), Vector16(bytes));
    FrontIsRead(data, minor, n, h);
    Vector16IsRead(data, 9 + |Fields(h)|, bytes);
  }

  lemma {:induction false} BlockIsWalked(data: seq<Byte>, minor: Byte, n: nat, h: Hello, frames: seq<Frame>)
    requires IsHello(h) && Framed(frames) && |EncodeFrames(frames)| < 0x1_0000 && n + 4 < 0x1_0000 && 9 + n <= |data|
    requires HasAt(data, 0, Headers(minor, n) + (Fields(h) + Vector16(EncodeFrames(frames))))
    ensures Own(frames) != Broken ==> Verdict(data) == Own(frames)
    ensures BlockStart(h) + |EncodeFrames(frames)| + 0x2_0004 <= |data| ==> Verdict(data) != Broken
  {
    BlockStands(data, minor, n, h, EncodeFrames(frames));
    if Own(frames) != Broken {
      FramesAreWalked(data, BlockStart(h), frames);
    }
    if BlockStart(h) + |EncodeFrames(frames)| + 0x2_0004 <= |data| {
      LongWalksEnd(data, BlockStart(h), frames);
    }
  }

  lemma {:induction false} FramedStands(minor: Byte, h: Hello, frames: seq<Frame>, trailing: seq<Byte>)
    requires IsFramed(h, Some(frames))
    ensures var data := EncodeFramed(minor, h, Some(frames)) + trailing;
            |data| == BlockStart(h) + |EncodeFrames(frames)| + |trailing| && HasAt(data, 0, EncodeFramed(minor, h, Some(frames)))
  {
    var message := EncodeFramed(minor, h, Some(frames));
    HasItself(message + trailing);
    HasBoth(message + trailing, 0, message, trailing);
  }

  function Zeros(n: nat): seq<Byte> { seq(n, _ => 0) }

  lemma {:induction false} FramedVerdict(minor: Byte, h: Hello, frames: seq<Frame>, trailing: seq<Byte>)
    requires IsFramed(h, Some(frames))
    ensures Own(frames) != Broken ==> Verdict(EncodeFramed(minor, h, Some(frames)) + trailing) == Own(frames)
    ensures |trailing| >= 0x2_0004 ==> Verdict(EncodeFramed(minor, h, Some(frames)) + trailing) != Broken
  {
    FramedStands(minor, h, frames, trailing);
    BlockIsWalked(EncodeFramed(minor, h, Some(frames)) + trailing, minor, |Fields(h)| + 2 + |EncodeFrames(frames)|, h, frames);
  }

  /**
   The walk ends as the message itself says, whatever follows, if and only if the message has an
   extensions block and every server_name body in it, up to the first that yields a name, is a name
   list that fits it.
   */
  lemma VerdictIsOwnIff(minor: Byte, h: Hello, block: Option<seq<Frame>>)
    requires IsFramed(h, block)
    ensures (forall trailing :: Verdict(EncodeFramed(minor, h, block) + trailing) == OwnVerdict(block))
            <==> block.Some? && ListsFit(block.value)
  {
    match block
    case None =>
      BareVerdictIsBroken(minor, h);
    case Some(frames) =>
      OwnIsWholeIff(frames);
      if Own(frames) == Broken {
        FramedVerdict(minor, h, frames, Zeros(0x2_0004));
      } else {
        forall trailing ensures Verdict(EncodeFramed(minor, h, block) + trailing) == OwnVerdict(block) {
          FramedVerdict(minor, h, frames, trailing);
        }
      }
  }

  lemma BareVerdictIsBroken(minor: Byte, h: Hello)
    requires IsFramed(h, None)
    ensures Verdict(EncodeFramed(minor, h, None) + []) == Broken
  {
    var bare := EncodeBareHello(minor, h);
    BareHelloIsRead(bare, minor, h, []);
    assert bare + [] == bare;
  }

  /** Then the sniffer returns that name, or none, whatever follows. */
  lemma {:induction false} FramedHelloIsSniffed(minor: Byte, h: Hello, frames: seq<Frame>, trailing: seq<Byte>)
    requires IsFramed(h, Some(frames)) && ListsFit(frames)
    ensures Sniff(EncodeFramed(minor, h, Some(frames)) + trailing) == NameIn(Own(frames))
  {
    OwnIsWholeIff(frames);
    FramedVerdict(minor, h, frames, trailing);
  }

  // a name list with the name "abc"
  const STRAY: seq<Byte> := [0, 6, 0, 0, 3, 97, 98, 99]

  /** Behind a complete message whose one server_name extension is empty, a name outside the record is returned. */
  lemma StrayNameIsFound(minor: Byte, h: Hello)
    requires IsHello(h) && |Fields(h)| + 10 < 0x1_0000
    ensures IsFramed(h, Some([Frame(0, [])])) && Own([Frame(0, [])]) == Broken
    ensures Sniff(EncodeFramed(minor, h, Some([Frame(0, [])])) + STRAY) == Some([97, 98, 99])
  {
    var f := Frame(0, []);
    assert [f][1..] == [] && EncodeFrames([]) == [] && EncodeFrame(f) + [] == EncodeFrame(f);
    StrayVerdict(minor, h, f);
  }

  lemma StrayVerdict(minor: Byte, h: Hello, f: Frame)
    requires f == Frame(0, []) && IsFramed(h, Some([f])) && EncodeFrames([f]) == EncodeFrame(f)
    ensures Verdict(EncodeFramed(minor, h, Some([f])) + STRAY) == Found([97, 98, 99])
  {
    var message := EncodeFramed(minor, h, Some([f]));
    FramedStands(minor, h, [f], STRAY);
    BlockStands(message + STRAY, minor, |Fields(h)| + 6, h, EncodeFrame(f));
    FrameIsWalked(message + STRAY, BlockStart(h), f, BlockStart(h) + 4);
    StrayIsScanned(message);
  }

  lemma StrayIsScanned(front: seq<Byte>)
    ensures ScanServerName(front + STRAY, |front|) == Found([97, 98, 99])
  {
    var data := front + STRAY;
    HasItself(data);
    HasBoth(data, 0, front, STRAY);
    StrayListStands(data, |front|);
  }

  lemma StrayListStands(data: seq<Byte>, at: nat)
    requires HasAt(data, at, STRAY)
    ensures ScanServerName(data, at) == Found([97, 98, 99])
  {
    assert data[at + 0] == STRAY[0] && data[at + 1] == STRAY[1] && data[at + 2] == STRAY[2] && data[at + 3] == STRAY[3];
    assert data[at + 4] == STRAY[4] && data[at + 5] == STRAY[5] && data[at + 6] == STRAY[6] && data[at + 7] == STRAY[7];
    assert Slice(data, at + 5, 3) == [97, 98, 99];
  }

  // ---- what a returned name was ----

  /** Entries from `from` go to the end of their list, or past it, and none is a host name. */
  ghost predicate NamelessFrom(data: seq<Byte>, from: nat, end: nat) {
    exists to: nat :: end <= to <= |data| && OtherNames(data, from, to)
  }

  /** Extensions follow one another from one position to another; a server_name among them holds no host name. */
  ghost predicate OtherExtensions(data: seq<Byte>, from: nat, to: nat)
    decreases if from <= |data| then |data| - from else 0
  {
    from == to
    || (from + 4 <= |data|
        && (Read16(data, from) == 0 ==> from + 6 <= |data| && NamelessFrom(data, from + 6, from + 6 + Read16(data, from + 4)))
        && OtherExtensions(data, from + 4 + Read16(data, from + 2), to))
  }

  lemma ScannedIsNameless(data: seq<Byte>, at: nat)
    requires ScanServerName(data, at) == Nothing
    ensures at + 2 <= |data| && NamelessFrom(data, at + 2, at + 2 + Read16(data, at))
  {
    var to := PassedEntries(data, at + 2, at + 2 + Read16(data, at));
  }

  /** A server_name extension at e, a list of other names in it up to `at`, and the host name there, all within the data. */
  ghost predicate NameStands(data: seq<Byte>, e: nat, at: nat, name: Text) {
    && e + 6 <= |data| && Read16(data, e) == 0 && e + 4 + Read16(data, e + 2) <= |data| && e + 6 + Read16(data, e + 4) <= |data|
    && OtherNames(data, e + 6, at) && at < e + 6 + Read16(data, e + 4) && HostNameAt(data, at, name)
  }

  lemma {:induction false} FoundExtension(data: seq<Byte>, pos: nat, end: nat) returns (e: nat, at: nat)
    requires ScanBlockFrom(data, pos, end).Found?
    ensures e < end && OtherExtensions(data, pos, e) && NameStands(data, e, at, ScanBlockFrom(data, pos, end).name)
    decreases if pos <= |data| then |data| - pos else 0
  {
    if Read16(data, pos) == 0 && ScanServerName(data, pos + 4).Found? {
      e := pos;
      at := FoundEntry(data, pos + 6, pos + 6 + Read16(data, pos + 4));
    } else {
      e, at := FoundExtension(data, pos + 4 + Read16(data, pos + 2), end);
      if Read16(data, pos) == 0 {
        ScannedIsNameless(data, pos + 4);
      }
    }
  }

  lemma NamelessIsScanned(data: seq<Byte>, at: nat)
    requires at + 2 <= |data| && NamelessFrom(data, at + 2, at + 2 + Read16(data, at))
    ensures ScanServerName(data, at) == Nothing
  {
    var end := at + 2 + Read16(data, at);
    var to: nat :| end <= to <= |data| && OtherNames(data, at + 2, to);
    ChainReachesEnd(data, at + 2, to, end);
  }

  lemma {:induction false} StandingNameIsScanned(data: seq<Byte>, e: nat, at: nat, end: nat, name: Text)
    requires e < end && NameStands(data, e, at, name)
    ensures ScanBlockFrom(data, e, end) == Found(name)
  {
    ChainReachesHostName(data, e + 6, at, e + 6 + Read16(data, e + 4), name);
  }

  lemma {:induction false} OthersComeFirst(data: seq<Byte>, pos: nat, e: nat)
    requires OtherExtensions(data, pos, e)
    ensures pos <= e
    decreases if pos <= |data| then |data| - pos else 0
  {
    if pos != e {
      OthersComeFirst(data, pos + 4 + Read16(data, pos + 2), e);
    }
  }

  lemma {:induction false} ChainReachesExtension(data: seq<Byte>, pos: nat, e: nat, at: nat, end: nat, name: Text)
    requires OtherExtensions(data, pos, e) && e < end && NameStands(data, e, at, name)
    ensures ScanBlockFrom(data, pos, end) == Found(name)
    decreases if pos <= |data| then |data| - pos else 0
  {
    if pos == e {
      StandingNameIsScanned(data, e, at, end, name);
    } else {
      var next := pos + 4 + Read16(data, pos + 2);
      OthersComeFirst(data, next, e);
      ChainReachesExtension(data, next, e, at, end, name);
      if Read16(data, pos) == 0 {
        NamelessIsScanned(data, pos + 4);
      }
    }
  }

  /**
   Sound: a name returned for any bytes is the first host_name entry of the name list that begins in a
   server_name extension of the block, and no earlier extension's list has one.  The entry may lie behind
   its extension, behind the block and behind the record.
   */
  lemma FoundNameIsHostName(data: seq<Byte>) returns (block: nat, e: nat, at: nat)
    requires Sniff(data).Some?
    ensures OpensHello(data, block) && NameIsReached(data, block, e, at, Sniff(data).value)
  {
    block := BlockAt(data).value;
    OpensHelloIff(data, block);
    e, at := FoundExtension(data, block + 2, block + 2 + Read16(data, block));
  }

  /** The name stands in the block's first server_name extension whose list has a host name; the block lies within the data. */
  ghost predicate NameIsReached(data: seq<Byte>, block: nat, e: nat, at: nat, name: Text) {
    && block + 2 <= |data| && block + 2 + Read16(data, block) <= |data|
    && OtherExtensions(data, block + 2, e) && e < block + 2 + Read16(data, block) && NameStands(data, e, at, name)
  }

  /** The session id, the cipher suites and the compression methods, as vectors. */
  function Vectors(sessionId: seq<Byte>, ciphers: seq<Byte>, compression: seq<Byte>): seq<Byte>
    requires |sessionId| < 0x100 && |ciphers| < 0x1_0000 && |compression| < 0x100
  {
    Vector8(sessionId) + (Vector16(ciphers) + Vector8(compression))
  }

  /**
   A handshake record and a ClientHello, both complete as far as their lengths say, whatever their versions;
   the extensions block begins behind the three vectors.
   */
  ghost predicate OpensHello(data: seq<Byte>, block: nat) {
    && |data| >= 43 && data[0] == 22 && 5 + Read16(data, 3) <= |data|
    && data[5] == 1 && 9 + 0x1_0000 * (data[6] as int) + Read16(data, 7) <= |data|
    && exists sessionId, ciphers, compression :: BlockFollows(data, block, sessionId, ciphers, compression)
  }

  predicate BlockFollows(data: seq<Byte>, block: nat, sessionId: seq<Byte>, ciphers: seq<Byte>, compression: seq<Byte>) {
    && |sessionId| < 0x100 && |ciphers| < 0x1_0000 && |compression| < 0x100
    && HasAt(data, 43, Vectors(sessionId, ciphers, compression)) && block == 43 + |Vectors(sessionId, ciphers, compression)|
  }

  lemma SkippedIsVector8(data: seq<Byte>, at: nat) returns (b: seq<Byte>)
    requires SkipVector8(data, at).Some?
    ensures |b| < 0x100 && HasAt(data, at, Vector8(b)) && SkipVector8(data, at) == Some(at + |Vector8(b)|)
  {
    b := Slice(data, at + 1, data[at]);
  }

  lemma SkippedIsVector16(data: seq<Byte>, at: nat) returns (b: seq<Byte>)
    requires SkipVector16(data, at).Some?
    ensures |b| < 0x1_0000 && HasAt(data, at, Vector16(b)) && SkipVector16(data, at) == Some(at + |Vector16(b)|)
  {
    b := Slice(data, at + 2, Read16(data, at));
  }

  lemma BlockIsFollowed(data: seq<Byte>, block: nat) returns (sessionId: seq<Byte>, ciphers: seq<Byte>, compression: seq<Byte>)
    requires BlockAt(data) == Some(block)
    ensures BlockFollows(data, block, sessionId, ciphers, compression)
  {
    sessionId := SkippedIsVector8(data, 43);
    var a := 43 + |Vector8(sessionId)|;
    ciphers := SkippedIsVector16(data, a);
    compression := SkippedIsVector8(data, a + |Vector16(ciphers)|);
    HasJoined(data, a, Vector16(ciphers), Vector8(compression));
    HasJoined(data, 43, Vector8(sessionId), Vector16(ciphers) + Vector8(compression));
  }

  lemma FollowedIsBlock(data: seq<Byte>, block: nat, sessionId: seq<Byte>, ciphers: seq<Byte>, compression: seq<Byte>)
    requires BlockFollows(data, block, sessionId, ciphers, compression)
    ensures BlockAt(data) == Some(block)
  {
    HasThree(data, 43, Vector8(sessionId), Vector16(ciphers), Vector8(compression));
    var a := 44 + |sessionId|;
    Vector8IsRead(data, 43, sessionId);
    Vector16IsRead(data, a, ciphers);
    Vector8IsRead(data, a + 2 + |ciphers|, compression);
  }

  lemma OpensHelloIff(data: seq<Byte>, block: nat)
    ensures OpensHello(data, block) <==> StartsClientHello(data) && BlockAt(data) == Some(block)
  {
    if BlockAt(data) == Some(block) {
      var sessionId, ciphers, compression := BlockIsFollowed(data, block);
    }
    forall sessionId, ciphers, compression | BlockFollows(data, block, sessionId, ciphers, compression) ensures BlockAt(data) == Some(block) {
      FollowedIsBlock(data, block, sessionId, ciphers, compression);
    }
  }

  /** On any bytes: a name is returned if and only if they open a ClientHello and the name is reached from its block. */
  lemma SniffIff(data: seq<Byte>, name: Text)
    ensures Sniff(data) == Some(name) <==> exists block: nat, e: nat, at: nat :: OpensHello(data, block) && NameIsReached(data, block, e, at, name)
  {
    if Sniff(data) == Some(name) {
      var block, e, at := FoundNameIsHostName(data);
    }
    forall block: nat, e: nat, at: nat | OpensHello(data, block) && NameIsReached(data, block, e, at, name) ensures Sniff(data) == Some(name) {
      OpensHelloIff(data, block);
      ChainReachesExtension(data, block + 2, e, at, block + 2 + Read16(data, block), name);
    }
  }

  /** A message cut short anywhere gives no name. */
  lemma CutMessageHasNoName(minor: Byte, h: Hello, block: Option<seq<Frame>>, k: nat)
    requires IsFramed(h, block) && k < |EncodeFramed(minor, h, block)|
    ensures Sniff(EncodeFramed(minor, h, block)[..k]) == None
  {
    var data, message := EncodeFramed(minor, h, block)[..k], EncodeFramed(minor, h, block);
    LengthIsClaimed(minor, h, block);
    if k >= 5 {
      assert data[3] == message[3] && data[4] == message[4];
    }
  }

  lemma LengthIsClaimed(minor: Byte, h: Hello, block: Option<seq<Frame>>)
    requires IsFramed(h, block)
    ensures var message := EncodeFramed(minor, h, block); |message| >= 9 && |message| == 5 + Read16(message, 3)
  {
    var message := EncodeFramed(minor, h, block);
    var n := if block.None? then |Fields(h)| else |Fields(h)| + 2 + |EncodeFrames(block.value)|;
    HasItself(message);
    var body := if block.None? then Fields(h) else Fields(h) + Vector16(EncodeFrames(block.value));
    assert message == Headers(minor, n) + body;
    HasBoth(message, 0, Headers(minor, n), body);
    HeadersAreRead(message, minor, n);
  }
}
