/**
 `parse_response` of src/dns/dns_message.cpp against the layout of section 4.1 of RFC 1035:
 what it accepts is exactly what is laid out that way, and what it returns is read off the layout.
 */
module DnsResponse {
  import opened Bytes
  import opened DnsName
  import opened DnsMessage
  import opened Numerals

  // ---- address texts ----

  function Ipv4Text(rdata: seq<Byte>): Result<Text> {
    if |rdata| != 4 then Err(InvalidALength)
    else Ok(Decimal(rdata[0]) + ([DOT] + (Decimal(rdata[1]) + ([DOT] + (Decimal(rdata[2]) + ([DOT] + Decimal(rdata[3])))))))
  }

  /** The groups from byte i on, a colon before each but the first. */
  function GroupsFrom(rdata: seq<Byte>, i: nat): Text
    requires |rdata| == 16 && i % 2 == 0 && i < 16
    decreases 16 - i, rdata
  {
    Hexadecimal(Read16(rdata, i)) + (if i == 14 then [] else [COLON] + GroupsFrom(rdata, i + 2))
  }

  function Ipv6Text(rdata: seq<Byte>): Result<Text> {
    if |rdata| != 16 then Err(InvalidAaaaLength) else Ok(GroupsFrom(rdata, 0))
  }

  method Ipv6TextInPlace(rdata: seq<Byte>) returns (r: Result<Text>)
    ensures r == Ipv6Text(rdata)
  {
    if |rdata| != 16 {
      return Err(InvalidAaaaLength);
    }
    var result: Text := [];
    var i := 0;
    assert [] + GroupsFrom(rdata, 0) == GroupsFrom(rdata, 0);
    while i < 16
      invariant 0 <= i <= 16 && i % 2 == 0
      invariant i == 0 ==> result == []
      invariant Ok(result + (if i == 16 then [] else (if i == 0 then [] else [COLON]) + GroupsFrom(rdata, i))) == Ipv6Text(rdata)
    {
      ghost var colon: Text := if i == 0 then [] else [COLON];
      ghost var rest: Text := if i == 14 then [] else [COLON] + GroupsFrom(rdata, i + 2);
      OneGroup(result, colon, Hexadecimal(Read16(rdata, i)), rest);
      if i != 0 {
        result := result + [COLON];
      }
      result := result + Hexadecimal(Read16(rdata, i));
      i := i + 2;
    }
    assert result + [] == result;
    return Ok(result);
  }

  lemma OneGroup(result: Text, colon: Text, t: Text, rest: Text)
    ensures result + (colon + (t + rest)) == (result + colon) + t + rest
    ensures colon == [] ==> result + colon == result
    ensures [] + (t + rest) == t + rest && t + [] == t
  {
  }

  lemma NotInNumeral(t: Text, base: nat)
    requires base <= 16 && AllOfBase(t, base)
    ensures DOT !in t && COLON !in t
  {
  }

  /** The text of an A record splits at its dots into the four numerals of the bytes. */
  lemma Ipv4TextReadsBack(rdata: seq<Byte>)
    requires |rdata| == 4
    ensures var pieces := Pieces(DOT, Ipv4Text(rdata).value);
            |pieces| == 4 && forall i :: 0 <= i < 4 ==> Denotes(pieces[i], 10, rdata[i])
  {
    forall i | 0 <= i < 4 ensures Denotes(Decimal(rdata[i]), 10, rdata[i]) && DOT !in Decimal(rdata[i]) {
      DecimalReadsBack(rdata[i]);
      NotInNumeral(Decimal(rdata[i]), 10);
    }
    FourPieces(Decimal(rdata[0]), Decimal(rdata[1]), Decimal(rdata[2]), Decimal(rdata[3]));
  }

  /** Texts with a separator between them. */
  function Separated(sep: Byte, texts: seq<Text>): Text {
    if texts == [] then [] else if |texts| == 1 then texts[0] else texts[0] + ([sep] + Separated(sep, texts[1..]))
  }

  lemma DecimalIs(n: Byte, t: Text)
    requires Denotes(t, 10, n)
    ensures Decimal(n) == t
  {
    DecimalReadsBack(n);
    NumeralIsUnique(Decimal(n), t, 10);
  }

  /** The text of an A record is the dotted one: whatever four texts are the bytes' numerals, with dots between them. */
  lemma {:induction false} Ipv4TextIs(rdata: seq<Byte>, numerals: seq<Text>)
    requires |rdata| == |numerals| == 4 && forall i :: 0 <= i < 4 ==> Denotes(numerals[i], 10, rdata[i])
    ensures Ipv4Text(rdata) == Ok(Separated(46, numerals))
  {
    forall i | 0 <= i < 4 ensures Decimal(rdata[i]) == numerals[i] {
      DecimalIs(rdata[i], numerals[i]);
    }
    FourSeparated(46, numerals[0], numerals[1], numerals[2], numerals[3]);
    assert numerals == [numerals[0], numerals[1], numerals[2], numerals[3]];
  }

  lemma {:induction false} FourSeparated(sep: Byte, a: Text, b: Text, c: Text, d: Text)
    ensures Separated(sep, [a, b, c, d]) == a + ([sep] + (b + ([sep] + (c + ([sep] + d)))))
  {
    assert [a, b, c, d][1..] == [b, c, d] && [b, c, d][1..] == [c, d] && [c, d][1..] == [d];
    assert Separated(sep, [d]) == d;
    assert Separated(sep, [c, d]) == c + ([sep] + d);
    assert Separated(sep, [b, c, d]) == b + ([sep] + (c + ([sep] + d)));
  }

  lemma {:induction false} FourPieces(a: Text, b: Text, c: Text, d: Text)
    requires DOT !in a && DOT !in b && DOT !in c && DOT !in d && d != []
    ensures Pieces(DOT, a + ([DOT] + (b + ([DOT] + (c + ([DOT] + d)))))) == [a, b, c, d]
  {
    OnlyPiece(DOT, d);
    FirstPiece(DOT, c, d);
    FirstPiece(DOT, b, c + ([DOT] + d));
    FirstPiece(DOT, a, b + ([DOT] + (c + ([DOT] + d))));
  }

  /** The eight groups of an address in hexadecimal, from byte i on. */
  function GroupTexts(rdata: seq<Byte>, i: nat): seq<Text>
    requires |rdata| == 16 && i % 2 == 0 && i < 16
    decreases 16 - i, rdata
  {
    [Hexadecimal(Read16(rdata, i))] + (if i == 14 then [] else GroupTexts(rdata, i + 2))
  }

  lemma {:induction false} GroupsSplit(rdata: seq<Byte>, i: nat)
    requires |rdata| == 16 && i % 2 == 0 && i < 16
    ensures Pieces(COLON, GroupsFrom(rdata, i)) == GroupTexts(rdata, i)
    decreases 16 - i
  {
    var t := Hexadecimal(Read16(rdata, i));
    HexadecimalReadsBack(Read16(rdata, i));
    NotInNumeral(t, 16);
    if i == 14 {
      OnlyPiece(COLON, t);
      assert t + [] == t && [t] + [] == [t];
    } else {
      GroupsSplit(rdata, i + 2);
      FirstPiece(COLON, t, GroupsFrom(rdata, i + 2));
    }
  }

  lemma {:induction false} GroupTextsReadBack(rdata: seq<Byte>, i: nat, k: nat)
    requires |rdata| == 16 && i % 2 == 0 && i < 16 && 2 * k < 16 - i
    ensures |GroupTexts(rdata, i)| == (16 - i) / 2
    ensures Denotes(GroupTexts(rdata, i)[k], 16, Read16(rdata, i + 2 * k))
    decreases 16 - i
  {
    HexadecimalReadsBack(Read16(rdata, i));
    if i < 14 {
      GroupTextsReadBack(rdata, i + 2, if k > 0 then k - 1 else 0);
    }
  }

  /** The text of an AAAA record splits at its colons into the eight numerals of its groups. */
  lemma Ipv6TextReadsBack(rdata: seq<Byte>, k: nat)
    requires |rdata| == 16 && k < 8
    ensures var pieces := Pieces(COLON, Ipv6Text(rdata).value);
            |pieces| == 8 && Denotes(pieces[k], 16, Read16(rdata, 2 * k))
  {
    GroupsSplit(rdata, 0);
    GroupTextsReadBack(rdata, 0, k);
  }

  lemma HexadecimalIs(n: Word, t: Text)
    requires Denotes(t, 16, n)
    ensures Hexadecimal(n) == t
  {
    HexadecimalReadsBack(n);
    NumeralIsUnique(Hexadecimal(n), t, 16);
  }

  /** The text of an AAAA record: whatever eight texts are the groups' numerals, with colons between them. */
  lemma {:induction false} Ipv6TextIs(rdata: seq<Byte>, numerals: seq<Text>)
    requires |rdata| == 16 && |numerals| == 8
    requires forall k :: 0 <= k < 8 ==> Denotes(numerals[k], 16, Read16(rdata, 2 * k))
    ensures Ipv6Text(rdata) == Ok(Separated(58, numerals))
  {
    GroupsAre(rdata, 0, numerals);
    assert numerals[0..] == numerals;
  }

  lemma {:induction false} GroupsAre(rdata: seq<Byte>, k: nat, numerals: seq<Text>)
    requires |rdata| == 16 && |numerals| == 8 && k < 8
    requires forall k :: 0 <= k < 8 ==> Denotes(numerals[k], 16, Read16(rdata, 2 * k))
    ensures GroupsFrom(rdata, 2 * k) == Separated(58, numerals[k..])
    decreases 8 - k
  {
    HexadecimalIs(Read16(rdata, 2 * k), numerals[k]);
    if k < 7 {
      GroupsAre(rdata, k + 1, numerals);
      assert numerals[k..][1..] == numerals[k + 1..];
    } else {
      assert numerals[k] + [] == numerals[k];
    }
  }

  // ---- the parser ----

  function SkipQuestions(data: seq<Byte>, at: nat, count: nat): Result<nat>
    decreases count, |data|
  {
    if count == 0 then Ok(at)
    else
      match ReadName(data, at, 0)
      case Err(failure) => Err(failure)
      case Ok(name) =>
        if name.end + 4 > |data| then Err(TruncatedQuestion) else SkipQuestions(data, name.end + 4, count - 1)
  }

  /** An answer's fields as read; `start` is where its data starts. */
  datatype Raw = Raw(name: Text, rtype: Word, klass: Word, ttl: nat, rdata: seq<Byte>, start: nat)

  function ReadFields(data: seq<Byte>, name: Name): Result<Raw> {
    var f := name.end;
    if f + 10 > |data| then Err(TruncatedPacket)
    else if f + 10 + Read16(data, f + 8) > |data| then Err(TruncatedData)
    else Ok(Raw(name.text, Read16(data, f), Read16(data, f + 2), Read32(data, f + 4), Slice(data, f + 10, Read16(data, f + 8)), f + 10))
  }

  /** What an answer contributes: a record, nothing, or an error. */
  function Contribution(data: seq<Byte>, raw: Raw): Result<seq<Record>> {
    if raw.klass == CLASS_IN && raw.rtype == TYPE_A then
      match Ipv4Text(raw.rdata)
      case Err(failure) => Err(failure)
      case Ok(text) => Ok([Record(raw.name, TYPE_A, text, raw.ttl)])
    else if raw.klass == CLASS_IN && raw.rtype == TYPE_AAAA then
      match Ipv6Text(raw.rdata)
      case Err(failure) => Err(failure)
      case Ok(text) => Ok([Record(raw.name, TYPE_AAAA, text, raw.ttl)])
    else if raw.klass == CLASS_IN && raw.rtype == TYPE_CNAME then
      match ReadName(data, raw.start, 0)
      case Err(failure) => Err(failure)
      case Ok(alias) => Ok([Record(raw.name, TYPE_CNAME, alias.text, raw.ttl)])
    else Ok([])
  }

  function ReadRaw(data: seq<Byte>, at: nat): Result<Raw> {
    match ReadName(data, at, 0)
    case Err(failure) => Err(failure)
    case Ok(name) => ReadFields(data, name)
  }

  /** One answer: what it contributes and where the next one starts. */
  function AnswerStep(data: seq<Byte>, at: nat): Result<(seq<Record>, nat)> {
    match ReadRaw(data, at)
    case Err(failure) => Err(failure)
    case Ok(raw) =>
      match Contribution(data, raw)
      case Err(failure) => Err(failure)
      case Ok(more) => Ok((more, raw.start + |raw.rdata|))
  }

  function ReadAnswers(data: seq<Byte>, at: nat, count: nat): Result<seq<Record>>
    decreases count, |data|
  {
    if count == 0 then Ok([])
    else
      match AnswerStep(data, at)
      case Err(failure) => Err(failure)
      case Ok((more, next)) => After(more, ReadAnswers(data, next, count - 1))
  }

  /** The records so far, then those of the rest. */
  function After(records: seq<Record>, rest: Result<seq<Record>>): Result<seq<Record>> {
    match rest
    case Err(failure) => Err(failure)
    case Ok(more) => Ok(records + more)
  }

  function ParseResponse(packet: seq<Byte>): Result<seq<Record>> {
    if |packet| < 12 then Err(ResponseTooShort)
    else
      match SkipQuestions(packet, 12, Read16(packet, 4))
      case Err(failure) => Err(failure)
      case Ok(at) => ReadAnswers(packet, at, Read16(packet, 6))
  }

  method SkipQuestion(data: seq<Byte>, offset: nat) returns (r: Result<nat>)
    ensures r == SkipQuestions(data, offset, 1)
  {
    var name := ReadNameInPlace(data, offset, 0);
    if name.Err? {
      return Err(name.failure);
    }
    if name.value.end + 4 > |data| {
      return Err(TruncatedQuestion);
    }
    assert SkipQuestions(data, name.value.end + 4, 0) == Ok(name.value.end + 4);
    return Ok(name.value.end + 4);
  }

  /** One turn of the answer loop. */
  method ReadAnswer(data: seq<Byte>, at: nat) returns (r: Result<(seq<Record>, nat)>)
    ensures r == AnswerStep(data, at)
  {
    var name := ReadNameInPlace(data, at, 0);
    if name.Err? {
      return Err(name.failure);
    }
    var offset := name.value.end;
    if offset + 10 > |data| {
      return Err(TruncatedPacket);
    }
    var rtype := Read16(data, offset);
    var klass := Read16(data, offset + 2);
    var ttl := Read32(data, offset + 4);
    var rdlength := Read16(data, offset + 8);
    offset := offset + 10;
    if offset + rdlength > |data| {
      return Err(TruncatedData);
    }
    var rdata := data[offset..offset + rdlength];
    assert rdata == Slice(data, offset, rdlength);
    var more: seq<Record> := [];
    if klass == CLASS_IN && rtype == TYPE_A {
      var text := Ipv4Text(rdata);
      if text.Err? {
        return Err(text.failure);
      }
      more := [Record(name.value.text, TYPE_A, text.value, ttl)];
    } else if klass == CLASS_IN && rtype == TYPE_AAAA {
      var text := Ipv6TextInPlace(rdata);
      if text.Err? {
        return Err(text.failure);
      }
      more := [Record(name.value.text, TYPE_AAAA, text.value, ttl)];
    } else if klass == CLASS_IN && rtype == TYPE_CNAME {
      var alias := ReadNameInPlace(data, offset, 0);
      if alias.Err? {
        return Err(alias.failure);
      }
      more := [Record(name.value.text, TYPE_CNAME, alias.value.text, ttl)];
    }
    return Ok((more, offset + rdlength));
  }

  method ParseResponseInPlace(packet: seq<Byte>) returns (r: Result<seq<Record>>)
    ensures r == ParseResponse(packet)
  {
    if |packet| < 12 {
      return Err(ResponseTooShort);
    }
    var qdcount := Read16(packet, 4);
    var ancount := Read16(packet, 6);
    var offset := 12;
    for i := 0 to qdcount
      invariant SkipQuestions(packet, offset, qdcount - i) == SkipQuestions(packet, 12, qdcount)
    {
      var next := SkipQuestion(packet, offset);
      assert next.Ok? ==> SkipQuestions(packet, offset, qdcount - i) == SkipQuestions(packet, next.value, qdcount - i - 1);
      if next.Err? {
        return Err(next.failure);
      }
      offset := next.value;
    }
    r := CollectAnswers(packet, offset, ancount);
  }

  lemma AfterBoth(a: seq<Record>, b: seq<Record>, rest: Result<seq<Record>>)
    ensures After(a, After(b, rest)) == After(a + b, rest)
  {
    if rest.Ok? {
      assert a + (b + rest.value) == a + b + rest.value;
    }
  }

  lemma CollectOne(data: seq<Byte>, at: nat, count: nat, records: seq<Record>)
    ensures After(records, ReadAnswers(data, at, count)) ==
            if count == 0 then Ok(records)
            else match AnswerStep(data, at)
                 case Err(failure) => Err(failure)
                 case Ok((more, next)) => After(records + more, ReadAnswers(data, next, count - 1))
  {
    if count == 0 {
      assert records + [] == records;
    } else if AnswerStep(data, at).Ok? {
      var (more, next) := AnswerStep(data, at).value;
      AfterBoth(records, more, ReadAnswers(data, next, count - 1));
    }
  }

  lemma AfterNothing(rest: Result<seq<Record>>)
    ensures After([], rest) == rest
  {
    if rest.Ok? {
      assert [] + rest.value == rest.value;
    }
  }

  /** The answer loop of `parse_response`. */
  method CollectAnswers(data: seq<Byte>, start: nat, ancount: nat) returns (r: Result<seq<Record>>)
    ensures r == ReadAnswers(data, start, ancount)
  {
    var offset := start;
    var records: seq<Record> := [];
    ghost var all := ReadAnswers(data, start, ancount);
    AfterNothing(all);
    for i := 0 to ancount
      invariant After(records, ReadAnswers(data, offset, ancount - i)) == all
    {
      CollectOne(data, offset, ancount - i, records);
      var answer := ReadAnswer(data, offset);
      if answer.Err? {
        return Err(answer.failure);
      }
      records := records + answer.value.0;
      offset := answer.value.1;
    }
    CollectOne(data, offset, 0, records);
    return Ok(records);
  }

  // ---- the layout ----

  /** An answer as laid out: the spelling of its owner, its fixed fields and data; for an alias, the spelling of its target. */
  datatype Answer = Answer(owner: Wire, rtype: Word, klass: Word, ttl: nat, rdata: seq<Byte>, alias: Wire)

  predicate IsAlias(a: Answer) { a.klass == CLASS_IN && a.rtype == TYPE_CNAME }

  function FieldsAt(at: nat, a: Answer): nat { LocalEnd(at, a.owner) }

  function EndOf(at: nat, a: Answer): nat { FieldsAt(at, a) + 10 + |a.rdata| }

  /** Section 4.1.3 of RFC 1035.  The program reads an alias from the data's start, without looking at its length. */
  predicate AnswerAt(data: seq<Byte>, at: nat, a: Answer) {
    && SpelledAt(data, at, a.owner)
    && var f := FieldsAt(at, a);
    && EndOf(at, a) <= |data|
    && Read16(data, f) == a.rtype && Read16(data, f + 2) == a.klass && Read32(data, f + 4) == a.ttl
    && Read16(data, f + 8) == |a.rdata| && Slice(data, f + 10, |a.rdata|) == a.rdata
    && (if IsAlias(a) then SpelledAt(data, f + 10, a.alias) else a.alias == Root)
  }

  predicate AnswersAt(data: seq<Byte>, at: nat, answers: seq<Answer>)
    decreases |answers|
  {
    answers == [] || (AnswerAt(data, at, answers[0]) && AnswersAt(data, EndOf(at, answers[0]), answers[1..]))
  }

  /** Section 4.1.2: each question is a name, a type and a class. */
  predicate QuestionsAt(data: seq<Byte>, at: nat, questions: seq<Wire>)
    decreases |questions|
  {
    questions == [] || (SpelledAt(data, at, questions[0]) && LocalEnd(at, questions[0]) + 4 <= |data|
                        && QuestionsAt(data, LocalEnd(at, questions[0]) + 4, questions[1..]))
  }

  function AfterQuestions(at: nat, questions: seq<Wire>): nat
    decreases |questions|
  {
    if questions == [] then at else AfterQuestions(LocalEnd(at, questions[0]) + 4, questions[1..])
  }

  /** A response laid out with these questions and answers. */
  predicate LaidOut(packet: seq<Byte>, questions: seq<Wire>, answers: seq<Answer>) {
    && |packet| >= 12 && Read16(packet, 4) == |questions| && Read16(packet, 6) == |answers|
    && QuestionsAt(packet, 12, questions)
    && AnswersAt(packet, AfterQuestions(12, questions), answers)
  }

  // ---- what the program makes of a layout ----

  predicate Readable(w: Wire) { Pointers(w) <= 16 }

  /** Names within the depth limit, and address data of the right size. */
  predicate Acceptable(a: Answer) {
    && Readable(a.owner) && Readable(a.alias)
    && (a.klass == CLASS_IN && a.rtype == TYPE_A ==> |a.rdata| == 4)
    && (a.klass == CLASS_IN && a.rtype == TYPE_AAAA ==> |a.rdata| == 16)
  }

  /** The record of a class-IN A, AAAA or CNAME answer, and nothing of any other. */
  function RecordOf(a: Answer): seq<Record>
    requires Acceptable(a)
  {
    var name := Join(Labels(a.owner));
    if a.klass != CLASS_IN then []
    else if a.rtype == TYPE_A then [Record(name, TYPE_A, Ipv4Text(a.rdata).value, a.ttl)]
    else if a.rtype == TYPE_AAAA then [Record(name, TYPE_AAAA, Ipv6Text(a.rdata).value, a.ttl)]
    else if a.rtype == TYPE_CNAME then [Record(name, TYPE_CNAME, Join(Labels(a.alias)), a.ttl)]
    else []
  }

  predicate AllAcceptable(answers: seq<Answer>) {
    answers == [] || (Acceptable(answers[0]) && AllAcceptable(answers[1..]))
  }

  predicate AllReadable(questions: seq<Wire>) {
    questions == [] || (Readable(questions[0]) && AllReadable(questions[1..]))
  }

  /** The records of the answers, in order. */
  function RecordsOf(answers: seq<Answer>): seq<Record>
    requires AllAcceptable(answers)
  {
    if answers == [] then [] else RecordOf(answers[0]) + RecordsOf(answers[1..])
  }

  lemma {:induction false} LaidOutQuestionsAreSkipped(data: seq<Byte>, at: nat, questions: seq<Wire>)
    requires QuestionsAt(data, at, questions) && AllReadable(questions)
    ensures SkipQuestions(data, at, |questions|) == Ok(AfterQuestions(at, questions))
    decreases |questions|
  {
    if questions != [] {
      SpelledNamesAreRead(data, at, 0, [], questions[0]);
      LaidOutQuestionsAreSkipped(data, LocalEnd(at, questions[0]) + 4, questions[1..]);
    }
  }

  lemma {:induction false} SkippedQuestionsAreLaidOut(data: seq<Byte>, at: nat, count: nat) returns (questions: seq<Wire>)
    requires SkipQuestions(data, at, count).Ok?
    ensures |questions| == count && QuestionsAt(data, at, questions) && AllReadable(questions)
    decreases count
  {
    if count == 0 {
      questions := [];
    } else {
      var w := ReadNamesAreSpelled(data, at, 0, []);
      SpelledNamesAreRead(data, at, 0, [], w);
      var rest := SkippedQuestionsAreLaidOut(data, LocalEnd(at, w) + 4, count - 1);
      questions := [w] + rest;
      assert questions[1..] == rest;
    }
  }

  function RawOf(at: nat, a: Answer): Raw {
    Raw(Join(Labels(a.owner)), a.rtype, a.klass, a.ttl, a.rdata, FieldsAt(at, a) + 10)
  }

  lemma LaidOutIsRaw(data: seq<Byte>, at: nat, a: Answer)
    requires AnswerAt(data, at, a) && Readable(a.owner)
    ensures ReadRaw(data, at) == Ok(RawOf(at, a))
  {
    SpelledNamesAreRead(data, at, 0, [], a.owner);
  }

  lemma {:induction false} RawContributes(data: seq<Byte>, at: nat, a: Answer)
    requires Acceptable(a)
    requires IsAlias(a) ==> SpelledAt(data, FieldsAt(at, a) + 10, a.alias)
    ensures Contribution(data, RawOf(at, a)) == Ok(RecordOf(a))
  {
    if IsAlias(a) {
      SpelledNamesAreRead(data, FieldsAt(at, a) + 10, 0, [], a.alias);
    }
  }

  lemma LaidOutAnswerContributes(data: seq<Byte>, at: nat, a: Answer)
    requires AnswerAt(data, at, a) && Acceptable(a)
    ensures AnswerStep(data, at) == Ok((RecordOf(a), EndOf(at, a)))
  {
    LaidOutIsRaw(data, at, a);
    RawContributes(data, at, a);
  }

  lemma {:induction false} RestIsLaidOut(data: seq<Byte>, at: nat, answers: seq<Answer>)
    requires answers != [] && AnswersAt(data, at, answers) && AllAcceptable(answers)
    ensures AnswersAt(data, EndOf(at, answers[0]), answers[1..]) && AllAcceptable(answers[1..])
  {
  }

  lemma {:induction false} FirstIsReadToo(data: seq<Byte>, at: nat, answers: seq<Answer>)
    requires answers != [] && AnswerAt(data, at, answers[0]) && AllAcceptable(answers)
    requires ReadAnswers(data, EndOf(at, answers[0]), |answers| - 1) == Ok(RecordsOf(answers[1..]))
    ensures ReadAnswers(data, at, |answers|) == Ok(RecordsOf(answers))
  {
    LaidOutAnswerContributes(data, at, answers[0]);
    ReadOneMore(data, at, |answers|, RecordOf(answers[0]), EndOf(at, answers[0]), RecordsOf(answers[1..]));
    RecordsOneMore(answers);
  }

  lemma {:induction false} RecordsOneMore(answers: seq<Answer>)
    requires answers != [] && AllAcceptable(answers)
    ensures RecordsOf(answers) == RecordOf(answers[0]) + RecordsOf(answers[1..])
  {
  }

  lemma {:induction false} LaidOutAnswersAreRead(data: seq<Byte>, at: nat, answers: seq<Answer>)
    requires AnswersAt(data, at, answers) && AllAcceptable(answers)
    ensures ReadAnswers(data, at, |answers|) == Ok(RecordsOf(answers))
    decreases |answers|
  {
    if answers != [] {
      RestIsLaidOut(data, at, answers);
      LaidOutAnswersAreRead(data, EndOf(at, answers[0]), answers[1..]);
      FirstIsReadToo(data, at, answers);
    }
  }

  lemma ReadOneMore(data: seq<Byte>, at: nat, count: nat, records: seq<Record>, next: nat, more: seq<Record>)
    requires count > 0 && AnswerStep(data, at) == Ok((records, next)) && ReadAnswers(data, next, count - 1) == Ok(more)
    ensures ReadAnswers(data, at, count) == Ok(records + more)
  {
  }

  lemma RawIsLaidOut(data: seq<Byte>, at: nat, raw: Raw, alias: Wire) returns (a: Answer)
    requires ReadRaw(data, at) == Ok(raw)
    requires if raw.klass == CLASS_IN && raw.rtype == TYPE_CNAME then SpelledAt(data, raw.start, alias) else alias == Root
    ensures AnswerAt(data, at, a) && Readable(a.owner) && a.alias == alias
    ensures a.klass == raw.klass && a.rtype == raw.rtype && a.rdata == raw.rdata
  {
    var w := ReadNamesAreSpelled(data, at, 0, []);
    SpelledNamesAreRead(data, at, 0, [], w);
    a := Answer(w, raw.rtype, raw.klass, raw.ttl, raw.rdata, alias);
  }

  lemma ReadAnswerIsLaidOut(data: seq<Byte>, at: nat) returns (a: Answer)
    requires AnswerStep(data, at).Ok?
    ensures AnswerAt(data, at, a) && Acceptable(a)
  {
    var raw := ReadRaw(data, at).value;
    var alias := Root;
    if raw.klass == CLASS_IN && raw.rtype == TYPE_CNAME {
      alias := ReadNamesAreSpelled(data, raw.start, 0, []);
    }
    a := RawIsLaidOut(data, at, raw, alias);
  }

  lemma {:induction false} ReadAnswersAreLaidOut(data: seq<Byte>, at: nat, count: nat) returns (answers: seq<Answer>)
    requires ReadAnswers(data, at, count).Ok?
    ensures |answers| == count && AnswersAt(data, at, answers) && AllAcceptable(answers)
    decreases count
  {
    if count == 0 {
      answers := [];
    } else {
      var a := ReadAnswerIsLaidOut(data, at);
      LaidOutAnswerContributes(data, at, a);
      var rest := ReadAnswersAreLaidOut(data, EndOf(at, a), count - 1);
      answers := [a] + rest;
      assert answers[1..] == rest;
    }
  }

  /**
   The parser returns some records exactly when the packet is laid out as questions and answers it can
   accept, names plain or compressed; the records are those of the class-IN A, AAAA and CNAME answers, in order.
   */
  lemma ParseResponseIff(packet: seq<Byte>, records: seq<Record>)
    ensures ParseResponse(packet) == Ok(records) <==>
            exists questions, answers :: LaidOut(packet, questions, answers) && AllReadable(questions)
                                         && AllAcceptable(answers) && records == RecordsOf(answers)
  {
    if ParseResponse(packet) == Ok(records) {
      var questions := SkippedQuestionsAreLaidOut(packet, 12, Read16(packet, 4));
      LaidOutQuestionsAreSkipped(packet, 12, questions);
      var at := AfterQuestions(12, questions);
      var answers := ReadAnswersAreLaidOut(packet, at, Read16(packet, 6));
      LaidOutIsParsed(packet, questions, answers);
      assert LaidOut(packet, questions, answers);
    }
    forall questions, answers | LaidOut(packet, questions, answers) && AllReadable(questions) && AllAcceptable(answers)
      ensures ParseResponse(packet) == Ok(RecordsOf(answers))
    {
      LaidOutIsParsed(packet, questions, answers);
    }
  }

  lemma {:induction false} LaidOutIsParsed(packet: seq<Byte>, questions: seq<Wire>, answers: seq<Answer>)
    requires LaidOut(packet, questions, answers) && AllReadable(questions) && AllAcceptable(answers)
    ensures ParseResponse(packet) == Ok(RecordsOf(answers))
  {
    LaidOutQuestionsAreSkipped(packet, 12, questions);
    LaidOutAnswersAreRead(packet, AfterQuestions(12, questions), answers);
  }

  // ---- sizes ----

  lemma {:induction false} QuestionsTakeRoom(data: seq<Byte>, at: nat, questions: seq<Wire>)
    requires QuestionsAt(data, at, questions) && at <= |data|
    ensures at + 5 * |questions| <= AfterQuestions(at, questions) <= |data|
    decreases |questions|
  {
    if questions != [] {
      TextIsShort(data, at, questions[0]);
      QuestionsTakeRoom(data, LocalEnd(at, questions[0]) + 4, questions[1..]);
    }
  }

  lemma {:induction false} AnswersTakeRoom(data: seq<Byte>, at: nat, answers: seq<Answer>)
    requires AnswersAt(data, at, answers) && at <= |data|
    ensures at + 11 * |answers| <= |data|
    decreases |answers|
  {
    if answers != [] {
      TextIsShort(data, at, answers[0].owner);
      AnswersTakeRoom(data, EndOf(at, answers[0]), answers[1..]);
    }
  }

  /** On an accepted packet the header's counts are bounded by the packet's size. */
  lemma AcceptedCountsFit(packet: seq<Byte>)
    requires ParseResponse(packet).Ok?
    ensures 5 * (Read16(packet, 4) as int) + 11 * (Read16(packet, 6) as int) <= |packet| - 12
  {
    ParseResponseIff(packet, ParseResponse(packet).value);
    var questions, answers :| LaidOut(packet, questions, answers);
    QuestionsTakeRoom(packet, 12, questions);
    AnswersTakeRoom(packet, AfterQuestions(12, questions), answers);
  }
}
