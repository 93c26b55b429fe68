/**
 DNS messages of src/dns/dns_message.cpp: the query builder, the question parser and the response
 parser, against the message format of section 4.1 of RFC 1035.
 */
module DnsMessage {
  import opened Bytes
  import opened DnsName

  const TYPE_A: Word := 1
  const TYPE_CNAME: Word := 5
  const TYPE_AAAA: Word := 28
  const CLASS_IN: Word := 1

  datatype Question = Question(name: Text, qtype: Word)

  datatype Record = Record(name: Text, rtype: Word, value: Text, ttl: nat)

  function Read32(s: seq<Byte>, at: nat): nat
    requires at + 4 <= |s|
  {
    0x1_0000 * (Read16(s, at) as int) + Read16(s, at + 2)
  }

  // ---- the query builder ----

  /** The pieces between separators; nothing after a final one. */
  function Pieces(sep: Byte, s: Text): seq<Text> {
    if s == [] then []
    else
      var end := Find(sep, s);
      [s[..end]] + (if end == |s| then [] else Pieces(sep, s[end + 1..]))
  }

  lemma {:induction false} OnlyPiece(sep: Byte, t: Text)
    requires t != [] && sep !in t
    ensures Pieces(sep, t) == [t]
  {
    FindIs(sep, t, []);
    assert t + [] == t && t[..|t|] == t;
  }

  lemma {:induction false} FirstPiece(sep: Byte, t: Text, x: Text)
    requires sep !in t
    ensures Pieces(sep, t + ([sep] + x)) == [t] + Pieces(sep, x)
  {
    FindIs(sep, t, [sep] + x);
    var s := t + ([sep] + x);
    assert s[..|t|] == t && s[|t| + 1..] == x;
  }

  predicate AllLabels(labels: seq<Text>) {
    labels == [] || (IsLabel(labels[0]) && AllLabels(labels[1..]))
  }

  /** Each label behind its length byte. */
  function Spell(labels: seq<Text>): seq<Byte>
    requires AllLabels(labels)
  {
    if labels == [] then [] else SpellOne(labels[0]) + Spell(labels[1..])
  }

  function SpellOne(t: Text): seq<Byte>
    requires IsLabel(t)
  {
    var len: Byte := |t|;
    [len] + t
  }

  const QUERY_HEADER: seq<Byte> := [0x12, 0x34, 0x01, 0x00, 0, 1, 0, 0, 0, 0, 0, 0]

  function Query(labels: seq<Text>, qtype: Word): seq<Byte>
    requires AllLabels(labels)
  {
    QUERY_HEADER + Spell(labels) + ([0] + [Hi(qtype), Lo(qtype)] + [0, 1])
  }

  function BuildQuery(d: Text, qtype: Word): Result<seq<Byte>> {
    var labels := Pieces(DOT, d);
    if AllLabels(labels) then Ok(Query(labels, qtype)) else Err(InvalidLabel)
  }

  /** The same piece by piece: the first piece that is not a label fails. */
  function EncodeLabels(s: Text): Result<seq<Byte>>
    decreases |s|
  {
    if s == [] then Ok([])
    else
      var end := Find(DOT, s);
      if !IsLabel(s[..end]) then Err(InvalidLabel)
      else if end == |s| then Ok(SpellOne(s[..end]))
      else
        match EncodeLabels(s[end + 1..])
        case Err(failure) => Err(failure)
        case Ok(rest) => Ok(SpellOne(s[..end]) + rest)
  }

  lemma {:induction false} EncodeLabelsSpells(s: Text)
    ensures EncodeLabels(s) == if AllLabels(Pieces(DOT, s)) then Ok(Spell(Pieces(DOT, s))) else Err(InvalidLabel)
    decreases |s|
  {
    if s != [] {
      var end := Find(DOT, s);
      var rest := if end == |s| then [] else Pieces(DOT, s[end + 1..]);
      assert ([s[..end]] + rest)[1..] == rest;
      if end < |s| {
        EncodeLabelsSpells(s[end + 1..]);
      } else {
        assert [s[..end]] + [] == [s[..end]];
        assert IsLabel(s[..end]) ==> SpellOne(s[..end]) + [] == SpellOne(s[..end]);
      }
    }
  }

  /** `find('.', start)`, with the end of the text where there is none. */
  method FindDotFrom(d: Text, start: nat) returns (end: nat)
    requires start <= |d|
    ensures end == start + Find(DOT, d[start..])
  {
    end := start;
    while end < |d| && d[end] != DOT
      invariant start <= end <= |d| && end + Find(DOT, d[end..]) == start + Find(DOT, d[start..])
    {
      assert d[end..][1..] == d[end + 1..];
      end := end + 1;
    }
  }

  lemma EncodeOne(d: Text, start: nat, end: nat)
    requires start < |d| && end == start + Find(DOT, d[start..])
    ensures end <= |d|
    ensures var t := d[start..end];
            EncodeLabels(d[start..]) ==
            if !IsLabel(t) then Err(InvalidLabel)
            else if end == |d| then Ok(SpellOne(t))
            else match EncodeLabels(d[end + 1..])
                 case Err(failure) => Err(failure)
                 case Ok(rest) => Ok(SpellOne(t) + rest)
  {
    var s := d[start..];
    assert s[..end - start] == d[start..end];
    if end < |d| {
      assert s[end - start + 1..] == d[end + 1..];
    }
  }

  function Behind(packet: seq<Byte>, encoded: Result<seq<Byte>>): Result<seq<Byte>> {
    match encoded
    case Err(failure) => Err(failure)
    case Ok(labels) => Ok(packet + labels)
  }

  lemma EncodedBehind(packet: seq<Byte>, t: Text, rest: Result<seq<Byte>>)
    requires IsLabel(t)
    ensures Behind(packet, match rest case Err(failure) => Err(failure) case Ok(more) => Ok(SpellOne(t) + more))
            == Behind(packet + [|t|] + t, rest)
    ensures Behind(packet, Ok(SpellOne(t))) == Ok(packet + [|t|] + t)
  {
    assert packet + SpellOne(t) == packet + [|t|] + t;
    if rest.Ok? {
      assert packet + (SpellOne(t) + rest.value) == packet + [|t|] + t + rest.value;
    }
  }

  lemma NothingBehind(d: Text, packet: seq<Byte>)
    ensures Behind(packet, EncodeLabels(d[|d|..])) == Ok(packet)
  {
    assert packet + [] == packet;
  }

  /** The loop of `build_query`. */
  method AppendLabels(d: Text, header: seq<Byte>) returns (r: Result<seq<Byte>>)
    ensures r == Behind(header, EncodeLabels(d))
  {
    var packet: seq<Byte> := header;
    var start := 0;
    assert d[0..] == d;
    while start < |d|
      invariant start <= |d|
      invariant Behind(header, EncodeLabels(d)) == Behind(packet, EncodeLabels(d[start..]))
      decreases |d| - start
    {
      var end := FindDotFrom(d, start);
      EncodeOne(d, start, end);
      var len := end - start;
      if len == 0 || len > 63 {
        return Err(InvalidLabel);
      }
      ghost var rest := if end < |d| then EncodeLabels(d[end + 1..]) else Ok([]);
      EncodedBehind(packet, d[start..end], rest);
      packet := packet + [len];
      packet := packet + d[start..end];
      if end == |d| {
        return Ok(packet);
      }
      start := end + 1;
    }
    NothingBehind(d, packet);
    return Ok(packet);
  }

  method BuildQueryInPlace(d: Text, qtype: Word) returns (r: Result<seq<Byte>>)
    ensures r == BuildQuery(d, qtype)
  {
    var packet: seq<Byte> := [];
    packet := packet + [0x12, 0x34];
    packet := packet + [0x01, 0x00];
    packet := packet + [0, 1];
    packet := packet + [0, 0];
    packet := packet + [0, 0];
    packet := packet + [0, 0];
    assert packet == QUERY_HEADER;
    r := AppendLabels(d, packet);
    EncodeLabelsSpells(d);
    if r.Err? {
      return;
    }
    packet := r.value + [0];
    packet := packet + [Hi(qtype), Lo(qtype)];
    packet := packet + [0, 1];
    assert packet == Query(Pieces(DOT, d), qtype);
    return Ok(packet);
  }

  // ---- which domains are accepted ----

  predicate NoDots(labels: seq<Text>) {
    labels == [] || (DOT !in labels[0] && NoDots(labels[1..]))
  }

  /** Labels of 1 to 63 bytes joined by dots; one trailing dot is allowed after at least one label. */
  ghost predicate IsDomain(d: Text, labels: seq<Text>) {
    AllLabels(labels) && NoDots(labels) && (d == Join(labels) || (labels != [] && d == Join(labels) + [DOT]))
  }

  lemma {:induction false} JoinHead(t: Text, rest: seq<Text>)
    ensures Join([t] + rest) == if rest == [] then t else t + ([DOT] + Join(rest))
  {
    assert ([t] + rest)[1..] == rest;
    assert t + [DOT] + Join(rest) == t + ([DOT] + Join(rest));
  }

  lemma DotMoves(t: Text, x: Text)
    ensures t + ([DOT] + x) + [DOT] == t + ([DOT] + (x + [DOT]))
  {
  }

  lemma {:induction false} DomainsSplit(labels: seq<Text>)
    requires AllLabels(labels) && NoDots(labels)
    ensures Pieces(DOT, Join(labels)) == labels
    ensures labels != [] ==> Pieces(DOT, Join(labels) + [DOT]) == labels
    decreases |labels|
  {
    if labels != [] {
      var t, rest := labels[0], labels[1..];
      assert labels == [t] + rest;
      JoinHead(t, rest);
      DomainsSplit(rest);
      if rest == [] {
        OnlyPiece(DOT, t);
        FirstPiece(DOT, t, []);
        assert [DOT] + [] == [DOT];
      } else {
        FirstPiece(DOT, t, Join(rest));
        FirstPiece(DOT, t, Join(rest) + [DOT]);
        DotMoves(t, Join(rest));
      }
    }
  }

  lemma CutAt(s: Text, at: nat)
    requires at < |s|
    ensures s == s[..at] + ([s[at]] + s[at + 1..])
  {
  }

  lemma {:induction false} SplitsAreDomains(s: Text)
    requires AllLabels(Pieces(DOT, s))
    ensures IsDomain(s, Pieces(DOT, s))
    decreases |s|
  {
    if s != [] {
      NoneBefore(DOT, s);
      var end := Find(DOT, s);
      if end < |s| {
        CutAt(s, end);
      } else {
        assert s[..end] == s;
      }
      var t, x := s[..end], if end == |s| then [] else s[end + 1..];
      var rest := Pieces(DOT, x);
      assert Pieces(DOT, s) == [t] + rest && ([t] + rest)[1..] == rest;
      JoinHead(t, rest);
      if end < |s| {
        SplitsAreDomains(x);
        DomainStep(t, x, rest);
      }
    }
  }

  lemma DomainStep(t: Text, x: Text, rest: seq<Text>)
    requires IsLabel(t) && DOT !in t && IsDomain(x, rest)
    ensures IsDomain(t + ([DOT] + x), [t] + rest)
  {
    JoinHead(t, rest);
    DotMoves(t, Join(rest));
    assert ([t] + rest)[1..] == rest;
    assert [DOT] + [] == [DOT];
  }

  // ---- the question parser ----

  function ParseQuestion(packet: seq<Byte>): Result<Question> {
    if |packet| < 12 then Err(RequestTooShort)
    else if Read16(packet, 4) == 0 then Err(NoQuestion)
    else
      match ReadName(packet, 12, 0)
      case Err(failure) => Err(failure)
      case Ok(name) =>
        if name.end + 4 > |packet| then Err(TruncatedQuestion) else Ok(Question(name.text, Read16(packet, name.end)))
  }

  method ParseQuestionInPlace(packet: seq<Byte>) returns (r: Result<Question>)
    ensures r == ParseQuestion(packet)
  {
    if |packet| < 12 {
      return Err(RequestTooShort);
    }
    var qdcount := Read16(packet, 4);
    if qdcount == 0 {
      return Err(NoQuestion);
    }
    var name := ReadNameInPlace(packet, 12, 0);
    if name.Err? {
      return Err(name.failure);
    }
    if name.value.end + 4 > |packet| {
      return Err(TruncatedQuestion);
    }
    return Ok(Question(name.value.text, Read16(packet, name.value.end)));
  }

  /**
   Which requests are read: those of at least 12 bytes that count a question and spell its name behind the
   header, with a type and a class after it; the name and the type are those of the first question.
   */
  lemma {:induction false} ParseQuestionIff(packet: seq<Byte>, q: Question)
    ensures ParseQuestion(packet) == Ok(q) <==>
            && |packet| >= 12 && Read16(packet, 4) > 0
            && exists w :: SpelledAt(packet, 12, w) && Pointers(w) <= 16 && LocalEnd(12, w) + 4 <= |packet|
                           && q == Question(Join(Labels(w)), Read16(packet, LocalEnd(12, w)))
  {
    if ParseQuestion(packet).Ok? {
      var w := ReadNamesAreSpelled(packet, 12, 0, []);
      SpelledNamesAreRead(packet, 12, 0, [], w);
    }
    forall w | SpelledAt(packet, 12, w) && Pointers(w) <= 16 ensures ReadName(packet, 12, 0) == Ok(Name(Join(Labels(w)), LocalEnd(12, w))) {
      SpelledNamesAreRead(packet, 12, 0, [], w);
    }
  }

  function WireOf(labels: seq<Text>): Wire {
    if labels == [] then Root else Label(labels[0], WireOf(labels[1..]))
  }

  lemma HasLabel(data: seq<Byte>, at: nat, t: Text)
    requires IsLabel(t) && HasAt(data, at, SpellOne(t))
    ensures data[at] == |t| && Slice(data, at + 1, |t|) == t
  {
    assert SpellOne(t)[0] == |t|;
    HasBoth(data, at, [|t|], t);
    HasSlice(data, at + 1, t);
  }

  lemma {:induction false} PlainWire(labels: seq<Text>)
    ensures Labels(WireOf(labels)) == labels && Pointers(WireOf(labels)) == 0
  {
    if labels != [] {
      PlainWire(labels[1..]);
    }
  }

  /** What the encoder spells is a name without pointers. */
  lemma {:induction false} SpellIsSpelled(data: seq<Byte>, at: nat, labels: seq<Text>)
    requires AllLabels(labels) && HasAt(data, at, Spell(labels)) && HasAt(data, at + |Spell(labels)|, [0])
    ensures SpelledAt(data, at, WireOf(labels)) && LocalEnd(at, WireOf(labels)) == at + |Spell(labels)| + 1
    decreases |labels|
  {
    if labels == [] {
      assert data[at] == [0][0];
    } else {
      HasBoth(data, at, SpellOne(labels[0]), Spell(labels[1..]));
      HasLabel(data, at, labels[0]);
      SpellIsSpelled(data, at + |SpellOne(labels[0])|, labels[1..]);
    }
  }

  lemma {:induction false} PlainNameStands(labels: seq<Text>)
    requires AllLabels(labels)
    ensures SpelledAt(Spell(labels) + [0], 0, WireOf(labels)) && LocalEnd(0, WireOf(labels)) == |Spell(labels)| + 1
  {
    var data := Spell(labels) + [0];
    HasItself(data);
    HasBoth(data, 0, Spell(labels), [0]);
    SpellIsSpelled(data, 0, labels);
  }

  /** Labels written out are read whatever their number: a name is not held to 255 octets. */
  lemma {:induction false} AnyLengthIsRead(labels: seq<Text>)
    requires AllLabels(labels)
    ensures ReadName(Spell(labels) + [0], 0, 0) == Ok(Name(Join(labels), |Spell(labels)| + 1))
    ensures Octets(WireOf(labels)) == |Spell(labels)| + 1
    ensures StandardNameAt(Spell(labels) + [0], 0) <==> |Spell(labels)| + 1 <= MAX_OCTETS
  {
    var data, w := Spell(labels) + [0], WireOf(labels);
    PlainNameStands(labels);
    PlainWire(labels);
    SpelledNamesAreRead(data, 0, 0, [], w);
    PlainOctets(labels, 0);
    var v := ReadNameIsStandardIff(data, 0, 0);
    SpellingIsUnique(data, 0, v, w);
  }

  lemma {:induction false} PlainOctets(labels: seq<Text>, at: nat)
    requires AllLabels(labels)
    ensures Octets(WireOf(labels)) == |Spell(labels)| + 1 && PointsBack(at, WireOf(labels))
    decreases |labels|
  {
    if labels != [] {
      PlainOctets(labels[1..], at + 1 + |labels[0]|);
    }
  }

  /** The domain a query carries: one trailing dot is dropped. */
  function Carried(d: Text): Text {
    if d != [] && d[|d| - 1] == DOT then d[..|d| - 1] else d
  }

  lemma {:induction false} CarriedIsJoined(d: Text, labels: seq<Text>)
    requires IsDomain(d, labels)
    ensures Carried(d) == Join(labels)
  {
    if d == Join(labels) && labels != [] {
      JoinEndsInLabel(labels);
    }
  }

  lemma {:induction false} JoinEndsInLabel(labels: seq<Text>)
    requires labels != [] && AllLabels(labels) && NoDots(labels)
    ensures Join(labels) != [] && Join(labels)[|Join(labels)| - 1] != DOT
    decreases |labels|
  {
    assert labels[0] == Join(labels) || |labels| > 1;
    if |labels| > 1 {
      JoinEndsInLabel(labels[1..]);
    }
  }

  /**
   A query is built exactly for the domains whose labels have 1 to 63 bytes, the empty domain and one
   trailing dot included; parsing it back gives the domain without that dot, and the type.
   */
  lemma QueryRoundTrip(d: Text, qtype: Word)
    ensures BuildQuery(d, qtype).Ok? <==> exists labels :: IsDomain(d, labels)
    ensures BuildQuery(d, qtype).Ok? ==> ParseQuestion(BuildQuery(d, qtype).value) == Ok(Question(Carried(d), qtype))
  {
    forall labels | IsDomain(d, labels) ensures BuildQuery(d, qtype).Ok? {
      DomainsSplit(labels);
    }
    if BuildQuery(d, qtype).Ok? {
      var labels := Pieces(DOT, d);
      SplitsAreDomains(d);
      CarriedIsJoined(d, labels);
      QueryIsRead(labels, qtype);
    }
  }

  lemma {:induction false} QueryIsRead(labels: seq<Text>, qtype: Word)
    requires AllLabels(labels)
    ensures ParseQuestion(Query(labels, qtype)) == Ok(Question(Join(labels), qtype))
  {
    var tail := [0] + [Hi(qtype), Lo(qtype)] + [0, 1];
    var packet := Query(labels, qtype);
    HasItself(packet);
    HasBoth(packet, 0, QUERY_HEADER + Spell(labels), tail);
    HasBoth(packet, 0, QUERY_HEADER, Spell(labels));
    LaidOutQueryIsRead(packet, labels, qtype);
  }

  lemma {:induction false} LaidOutQueryIsRead(packet: seq<Byte>, labels: seq<Text>, qtype: Word)
    requires AllLabels(labels) && HasAt(packet, 0, QUERY_HEADER) && HasAt(packet, 12, Spell(labels))
    requires HasAt(packet, 12 + |Spell(labels)|, [0] + [Hi(qtype), Lo(qtype)] + [0, 1])
    ensures ParseQuestion(packet) == Ok(Question(Join(labels), qtype))
  {
    TailIsRead(packet, 12 + |Spell(labels)|, qtype);
    SpellIsSpelled(packet, 12, labels);
    PlainWire(labels);
    SpelledNamesAreRead(packet, 12, 0, [], WireOf(labels));
    HeaderIsRead(packet);
  }

  lemma HeaderIsRead(packet: seq<Byte>)
    requires HasAt(packet, 0, QUERY_HEADER)
    ensures Read16(packet, 4) == 1
  {
    assert packet[0 + 4] == QUERY_HEADER[4] && packet[0 + 5] == QUERY_HEADER[5];
  }

  lemma TailIsRead(data: seq<Byte>, at: nat, qtype: Word)
    requires HasAt(data, at, [0] + [Hi(qtype), Lo(qtype)] + [0, 1])
    ensures HasAt(data, at, [0]) && at + 5 <= |data| && Read16(data, at + 1) == qtype
  {
    var s := [0] + [Hi(qtype), Lo(qtype)] + [0, 1];
    assert data[at + 0] == s[0] && data[at + 1] == s[1] && data[at + 2] == s[2];
  }
}
