/**
 An encoder of DNS responses written from sections 4.1.1 to 4.1.4 of RFC 1035, and that
 `parse_response` inverts it.
 */
module DnsEncoder {
  import opened Bytes
  import opened DnsName
  import opened DnsMessage
  import opened DnsResponse

  datatype Asked = Asked(name: Wire, qtype: Word, klass: Word)

  // a header's fields other than the two counts the parser reads
  datatype Header = Header(id: Word, flags: Word, authorities: Word, additionals: Word)

  /** Words in big-endian order. */
  function Words(ws: seq<Word>): (r: seq<Byte>)
    ensures |r| == 2 * |ws|
  {
    if ws == [] then [] else [ws[0] / 0x100, ws[0] % 0x100] + Words(ws[1..])
  }

  lemma {:induction false} WordsAreRead(data: seq<Byte>, at: nat, ws: seq<Word>, i: nat)
    requires HasAt(data, at, Words(ws)) && i < |ws|
    ensures at + 2 * |ws| <= |data| && Read16(data, at + 2 * i) == ws[i]
    decreases |ws|
  {
    var first := [ws[0] / 0x100, ws[0] % 0x100];
    HasBoth(data, at, first, Words(ws[1..]));
    if i == 0 {
      assert data[at + 0] == first[0] && data[at + 1] == first[1];
    } else {
      WordsAreRead(data, at + 2, ws[1..], i - 1);
    }
  }

  /** The local part of the name fits its encoding. */
  predicate NameFits(w: Wire) {
    match w
    case Root => true
    case Label(t, rest) => IsLabel(t) && NameFits(rest)
    case Pointer(target, _) => target < 0x4000
  }

  function EncodeName(w: Wire): seq<Byte>
    requires NameFits(w)
  {
    match w
    case Root => [0]
    case Label(t, rest) => SpellOne(t) + EncodeName(rest)
    case Pointer(_, _) => EncodePointer(w)
  }

  function EncodePointer(w: Wire): (r: seq<Byte>)
    requires w.Pointer? && w.target < 0x4000
  {
    [0xC0 + w.target / 0x100, w.target % 0x100]
  }

  /** What a pointer stands for is spelled where it points. */
  predicate Resolves(packet: seq<Byte>, w: Wire) {
    match w
    case Root => true
    case Label(_, rest) => Resolves(packet, rest)
    case Pointer(target, rest) => SpelledAt(packet, target, rest)
  }

  lemma {:induction false} EncodedPointerIsSpelled(data: seq<Byte>, at: nat, w: Wire)
    requires w.Pointer? && w.target < 0x4000 && HasAt(data, at, EncodePointer(w)) && SpelledAt(data, w.target, w.rest)
    ensures SpelledAt(data, at, w)
  {
    assert data[at + 0] == EncodePointer(w)[0] && data[at + 1] == EncodePointer(w)[1];
  }

  lemma {:induction false} EncodedLabelIsSpelled(data: seq<Byte>, at: nat, t: Text, rest: Wire)
    requires IsLabel(t) && HasAt(data, at, SpellOne(t)) && SpelledAt(data, at + |SpellOne(t)|, rest)
    ensures SpelledAt(data, at, Label(t, rest))
  {
    HasLabel(data, at, t);
  }

  lemma {:induction false} LocalPartIsEncoded(at: nat, w: Wire)
    requires NameFits(w)
    ensures LocalEnd(at, w) == at + |EncodeName(w)|
    decreases w
  {
    if w.Label? {
      LocalPartIsEncoded(at + 1 + |w.text|, w.rest);
    }
  }

  lemma {:induction false} EncodedNameIsSpelled(data: seq<Byte>, at: nat, w: Wire)
    requires NameFits(w) && Resolves(data, w) && HasAt(data, at, EncodeName(w))
    ensures SpelledAt(data, at, w)
    decreases w
  {
    match w
    case Root =>
      assert data[at] == [0][0];
    case Label(t, rest) =>
      HasBoth(data, at, SpellOne(t), EncodeName(rest));
      EncodedNameIsSpelled(data, at + |SpellOne(t)|, rest);
      EncodedLabelIsSpelled(data, at, t, rest);
    case Pointer(_, _) =>
      EncodedPointerIsSpelled(data, at, w);
  }

  // ---- questions ----

  predicate QuestionsFit(questions: seq<Asked>) {
    questions == [] || (NameFits(questions[0].name) && QuestionsFit(questions[1..]))
  }

  function EncodeQuestion(q: Asked): seq<Byte>
    requires NameFits(q.name)
  {
    EncodeName(q.name) + Words([q.qtype, q.klass])
  }

  function EncodeQuestions(questions: seq<Asked>): seq<Byte>
    requires QuestionsFit(questions)
  {
    if questions == [] then [] else EncodeQuestion(questions[0]) + EncodeQuestions(questions[1..])
  }

  predicate QuestionsResolve(packet: seq<Byte>, questions: seq<Asked>) {
    questions == [] || (Resolves(packet, questions[0].name) && QuestionsResolve(packet, questions[1..]))
  }

  function NamesOf(questions: seq<Asked>): (r: seq<Wire>)
    ensures |r| == |questions|
  {
    if questions == [] then [] else [questions[0].name] + NamesOf(questions[1..])
  }

  lemma {:induction false} EncodedQuestionIsLaidOut(data: seq<Byte>, at: nat, q: Asked)
    requires NameFits(q.name) && Resolves(data, q.name) && HasAt(data, at, EncodeQuestion(q))
    ensures SpelledAt(data, at, q.name) && LocalEnd(at, q.name) + 4 == at + |EncodeQuestion(q)| <= |data|
  {
    HasBoth(data, at, EncodeName(q.name), Words([q.qtype, q.klass]));
    LocalPartIsEncoded(at, q.name);
    EncodedNameIsSpelled(data, at, q.name);
  }

  lemma {:induction false} QuestionsAreEncoded(at: nat, questions: seq<Asked>)
    requires QuestionsFit(questions)
    ensures AfterQuestions(at, NamesOf(questions)) == at + |EncodeQuestions(questions)|
    decreases |questions|
  {
    if questions != [] {
      LocalPartIsEncoded(at, questions[0].name);
      QuestionsAreEncoded(at + |EncodeQuestion(questions[0])|, questions[1..]);
      assert NamesOf(questions)[1..] == NamesOf(questions[1..]);
    }
  }

  lemma {:induction false} EncodedQuestionsAreLaidOut(data: seq<Byte>, at: nat, questions: seq<Asked>)
    requires QuestionsFit(questions) && QuestionsResolve(data, questions) && HasAt(data, at, EncodeQuestions(questions))
    ensures QuestionsAt(data, at, NamesOf(questions))
    decreases |questions|
  {
    if questions != [] {
      var q, rest := questions[0], questions[1..];
      HasBoth(data, at, EncodeQuestion(q), EncodeQuestions(rest));
      EncodedQuestionIsLaidOut(data, at, q);
      EncodedQuestionsAreLaidOut(data, at + |EncodeQuestion(q)|, rest);
      NamesOfTail(questions);
    }
  }

  lemma {:induction false} NamesOfTail(questions: seq<Asked>)
    requires questions != []
    ensures NamesOf(questions) != [] && NamesOf(questions)[0] == questions[0].name && NamesOf(questions)[1..] == NamesOf(questions[1..])
  {
  }

  // ---- answers ----

  predicate AnswerFits(a: Answer) {
    && NameFits(a.owner) && a.ttl < 0x1_0000_0000 && |a.rdata| < 0x1_0000
    && (if IsAlias(a) then NameFits(a.alias) && a.rdata == EncodeName(a.alias) else a.alias == Root)
  }

  function EncodeFields(a: Answer): (r: seq<Byte>)
    requires AnswerFits(a)
    ensures |r| == 10
  {
    Words([a.rtype, a.klass, a.ttl / 0x1_0000, a.ttl % 0x1_0000, |a.rdata|])
  }

  function EncodeAnswer(a: Answer): seq<Byte>
    requires AnswerFits(a)
  {
    EncodeName(a.owner) + (EncodeFields(a) + a.rdata)
  }

  lemma EncodedFieldsAreRead(data: seq<Byte>, at: nat, a: Answer)
    requires AnswerFits(a) && HasAt(data, at, EncodeFields(a))
    ensures at + 10 <= |data|
    ensures Read16(data, at) == a.rtype && Read16(data, at + 2) == a.klass
    ensures Read32(data, at + 4) == a.ttl && Read16(data, at + 8) == |a.rdata|
  {
    var ws: seq<Word> := [a.rtype, a.klass, a.ttl / 0x1_0000, a.ttl % 0x1_0000, |a.rdata|];
    WordsAreRead(data, at, ws, 0);
    WordsAreRead(data, at, ws, 1);
    WordsAreRead(data, at, ws, 2);
    WordsAreRead(data, at, ws, 3);
    WordsAreRead(data, at, ws, 4);
  }

  predicate AnswerResolves(packet: seq<Byte>, a: Answer) {
    Resolves(packet, a.owner) && Resolves(packet, a.alias)
  }

  lemma EncodedAnswerIsLaidOut(data: seq<Byte>, at: nat, a: Answer)
    requires AnswerFits(a) && AnswerResolves(data, a) && HasAt(data, at, EncodeAnswer(a))
    ensures AnswerAt(data, at, a) && EndOf(at, a) == at + |EncodeAnswer(a)|
  {
    HasThree(data, at, EncodeName(a.owner), EncodeFields(a), a.rdata);
    LocalPartIsEncoded(at, a.owner);
    EncodedNameIsSpelled(data, at, a.owner);
    var f := FieldsAt(at, a);
    EncodedFieldsAreRead(data, f, a);
    HasSlice(data, f + 10, a.rdata);
    if IsAlias(a) {
      EncodedNameIsSpelled(data, f + 10, a.alias);
    }
  }

  predicate AnswersFit(answers: seq<Answer>) {
    answers == [] || (AnswerFits(answers[0]) && AnswersFit(answers[1..]))
  }

  function EncodeAnswers(answers: seq<Answer>): seq<Byte>
    requires AnswersFit(answers)
  {
    if answers == [] then [] else EncodeAnswer(answers[0]) + EncodeAnswers(answers[1..])
  }

  predicate AnswersResolve(packet: seq<Byte>, answers: seq<Answer>) {
    answers == [] || (AnswerResolves(packet, answers[0]) && AnswersResolve(packet, answers[1..]))
  }

  lemma {:induction false} EncodedAnswersAreLaidOut(data: seq<Byte>, at: nat, answers: seq<Answer>)
    requires AnswersFit(answers) && AnswersResolve(data, answers) && HasAt(data, at, EncodeAnswers(answers))
    ensures AnswersAt(data, at, answers)
    decreases |answers|
  {
    if answers != [] {
      HasBoth(data, at, EncodeAnswer(answers[0]), EncodeAnswers(answers[1..]));
      EncodedAnswerIsLaidOut(data, at, answers[0]);
      EncodedAnswersAreLaidOut(data, EndOf(at, answers[0]), answers[1..]);
    }
  }

  // ---- responses ----

  function EncodeHeader(h: Header, questions: Word, answers: Word): (r: seq<Byte>)
    ensures |r| == 12
  {
    Words([h.id, h.flags, questions, answers, h.authorities, h.additionals])
  }

  predicate ResponseFits(questions: seq<Asked>, answers: seq<Answer>) {
    |questions| < 0x1_0000 && |answers| < 0x1_0000 && QuestionsFit(questions) && AnswersFit(answers)
  }

  /** `rest` is the authority and additional sections, which the parser does not look at. */
  function EncodeResponse(h: Header, questions: seq<Asked>, answers: seq<Answer>, rest: seq<Byte>): seq<Byte>
    requires ResponseFits(questions, answers)
  {
    EncodeHeader(h, |questions|, |answers|) + (EncodeQuestions(questions) + (EncodeAnswers(answers) + rest))
  }

  lemma EncodedHeaderIsRead(data: seq<Byte>, h: Header, questions: Word, answers: Word)
    requires HasAt(data, 0, EncodeHeader(h, questions, answers))
    ensures |data| >= 12 && Read16(data, 4) == questions && Read16(data, 6) == answers
  {
    var ws: seq<Word> := [h.id, h.flags, questions, answers, h.authorities, h.additionals];
    WordsAreRead(data, 0, ws, 2);
    WordsAreRead(data, 0, ws, 3);
  }

  lemma StandInOrder(a: seq<Byte>, b: seq<Byte>, c: seq<Byte>, d: seq<Byte>)
    ensures var s := a + (b + (c + d)); HasAt(s, 0, a) && HasAt(s, |a|, b) && HasAt(s, |a| + |b|, c)
  {
    var s := a + (b + (c + d));
    HasItself(s);
    HasThree(s, 0, a, b, c + d);
    HasBoth(s, |a| + |b|, c, d);
  }

  lemma {:induction false} SectionsStand(h: Header, questions: seq<Asked>, answers: seq<Answer>, rest: seq<Byte>)
    requires ResponseFits(questions, answers)
    ensures var packet := EncodeResponse(h, questions, answers, rest);
            && HasAt(packet, 0, EncodeHeader(h, |questions|, |answers|))
            && HasAt(packet, 12, EncodeQuestions(questions))
            && HasAt(packet, 12 + |EncodeQuestions(questions)|, EncodeAnswers(answers))
  {
    StandInOrder(EncodeHeader(h, |questions|, |answers|), EncodeQuestions(questions), EncodeAnswers(answers), rest);
  }

  lemma {:induction false} StandingSectionsAreLaidOut(packet: seq<Byte>, h: Header, questions: seq<Asked>, answers: seq<Answer>)
    requires ResponseFits(questions, answers) && QuestionsResolve(packet, questions) && AnswersResolve(packet, answers)
    requires HasAt(packet, 0, EncodeHeader(h, |questions|, |answers|)) && HasAt(packet, 12, EncodeQuestions(questions))
    requires HasAt(packet, 12 + |EncodeQuestions(questions)|, EncodeAnswers(answers))
    ensures LaidOut(packet, NamesOf(questions), answers)
  {
    EncodedHeaderIsRead(packet, h, |questions|, |answers|);
    QuestionsAreEncoded(12, questions);
    EncodedQuestionsAreLaidOut(packet, 12, questions);
    EncodedAnswersAreLaidOut(packet, 12 + |EncodeQuestions(questions)|, answers);
  }

  /**
   The parser inverts the encoder: for any questions and answers whose names, plain or compressed,
   are within the depth limit, it returns exactly the class-IN A, AAAA and CNAME records, in order.
   */
  lemma {:induction false} ParserInvertsEncoder(h: Header, questions: seq<Asked>, answers: seq<Answer>, rest: seq<Byte>)
    requires ResponseFits(questions, answers) && AllReadable(NamesOf(questions)) && AllAcceptable(answers)
    requires QuestionsResolve(EncodeResponse(h, questions, answers, rest), questions)
    requires AnswersResolve(EncodeResponse(h, questions, answers, rest), answers)
    ensures ParseResponse(EncodeResponse(h, questions, answers, rest)) == Ok(RecordsOf(answers))
  {
    SectionsStand(h, questions, answers, rest);
    StandingSectionsAreLaidOut(EncodeResponse(h, questions, answers, rest), h, questions, answers);
    LaidOutIsParsed(EncodeResponse(h, questions, answers, rest), NamesOf(questions), answers);
  }

  // ---- queries ----

  lemma {:induction false} EncodedPlainName(labels: seq<Text>)
    requires AllLabels(labels)
    ensures NameFits(WireOf(labels)) && EncodeName(WireOf(labels)) == Spell(labels) + [0]
  {
    if labels != [] {
      EncodedPlainName(labels[1..]);
      Reassociated(SpellOne(labels[0]), Spell(labels[1..]), [0]);
    } else {
      assert [] + [0] == [0];
    }
  }

  lemma Reassociated(a: seq<Byte>, b: seq<Byte>, c: seq<Byte>)
    ensures a + (b + c) == (a + b) + c
  {
  }

  lemma QueryHeaderIs()
    ensures EncodeHeader(Header(0x1234, 0x0100, 0, 0), 1, 0) == QUERY_HEADER
  {
    assert Words([0]) == [0, 0];
    assert Words([0, 0]) == [0, 0, 0, 0];
    assert Words([0, 0, 0]) == [0, 0, 0, 0, 0, 0];
    assert Words([1, 0, 0, 0]) == [0, 1, 0, 0, 0, 0, 0, 0];
    assert Words([0x0100, 1, 0, 0, 0]) == [1, 0, 0, 1, 0, 0, 0, 0, 0, 0];
  }

  lemma TypeAndClass(qtype: Word)
    ensures Words([qtype, 1]) == [Hi(qtype), Lo(qtype)] + [0, 1]
  {
    assert [qtype, 1][1..] == [1] && Words([1]) == [0, 1];
  }

  lemma QueryParts(header: seq<Byte>, spelled: seq<Byte>, a: seq<Byte>, b: seq<Byte>, question: seq<Byte>)
    requires question == (spelled + [0]) + (a + b)
    ensures header + ((question + []) + ([] + [])) == header + spelled + ([0] + a + b)
  {
  }

  /** A query's bytes: the message with one question, of class IN, that asks for recursion, and has 0x1234 for its identifier. */
  lemma {:induction false} QueryIs(d: Text, qtype: Word, labels: seq<Text>)
    requires IsDomain(d, labels)
    ensures var asked := [Asked(WireOf(labels), qtype, 1)];
            ResponseFits(asked, []) && BuildQuery(d, qtype) == Ok(EncodeResponse(Header(0x1234, 0x0100, 0, 0), asked, [], []))
  {
    DomainsSplit(labels);
    EncodedPlainName(labels);
    QueryHeaderIs();
    TypeAndClass(qtype);
    var q := Asked(WireOf(labels), qtype, 1);
    assert [q][1..] == [] && EncodeQuestions([]) == [] && EncodeQuestions([q]) == EncodeQuestion(q) + [];
    QueryParts(QUERY_HEADER, Spell(labels), [Hi(qtype), Lo(qtype)], [0, 1], EncodeQuestion(q));
  }

  // ---- which packets are encodings ----

  /** The packet is the encoding of these, every pointer standing for what is spelled where it points. */
  predicate IsEncoding(packet: seq<Byte>, h: Header, questions: seq<Asked>, answers: seq<Answer>, rest: seq<Byte>) {
    && ResponseFits(questions, answers) && packet == EncodeResponse(h, questions, answers, rest)
    && QuestionsResolve(packet, questions) && AnswersResolve(packet, answers)
  }

  /** The data of an alias is as long as the local part of its target, which is what section 3.3.1 of RFC 1035 makes it. */
  predicate AliasFills(a: Answer) {
    IsAlias(a) ==> |a.rdata| == LocalEnd(0, a.alias)
  }

  predicate AliasesFill(answers: seq<Answer>) {
    answers == [] || (AliasFills(answers[0]) && AliasesFill(answers[1..]))
  }

  lemma {:induction false} SpelledIsEncoded(data: seq<Byte>, at: nat, w: Wire)
    requires SpelledAt(data, at, w)
    ensures NameFits(w) && Resolves(data, w) && HasAt(data, at, EncodeName(w))
    decreases w
  {
    match w
    case Root =>
      assert data[at] == 0;
    case Label(t, rest) =>
      SpelledIsEncoded(data, at + 1 + |t|, rest);
      SpelledLabelIsEncoded(data, at, t);
      HasJoined(data, at, SpellOne(t), EncodeName(rest));
    case Pointer(_, _) =>
      SpelledPointerIsEncoded(data, at, w);
  }

  lemma SpelledLabelIsEncoded(data: seq<Byte>, at: nat, t: Text)
    requires IsLabel(t) && at + 1 + |t| <= |data| && data[at] == |t| && Slice(data, at + 1, |t|) == t
    ensures HasAt(data, at, SpellOne(t))
  {
    forall i | 0 <= i < 1 + |t| ensures data[at + i] == SpellOne(t)[i] {
      if i > 0 {
        assert Slice(data, at + 1, |t|)[i - 1] == t[i - 1];
      }
    }
  }

  lemma {:induction false} SpelledPointerIsEncoded(data: seq<Byte>, at: nat, w: Wire)
    requires w.Pointer? && SpelledAt(data, at, w)
    ensures w.target < 0x4000 && HasAt(data, at, EncodePointer(w))
  {
  }

  lemma {:induction false} WordsStand(data: seq<Byte>, at: nat, ws: seq<Word>)
    requires at + 2 * |ws| <= |data| && forall i :: 0 <= i < |ws| ==> Read16(data, at + 2 * i) == ws[i]
    ensures HasAt(data, at, Words(ws))
    decreases |ws|
  {
    if ws != [] {
      assert Read16(data, at + 2 * 0) == ws[0];
      forall i | 0 <= i < |ws| - 1 ensures Read16(data, at + 2 + 2 * i) == ws[1..][i] {
        assert Read16(data, at + 2 * (i + 1)) == ws[i + 1];
      }
      WordsStand(data, at + 2, ws[1..]);
      HasJoined(data, at, [ws[0] / 0x100, ws[0] % 0x100], Words(ws[1..]));
    }
  }

  /** The questions with the types and classes that stand behind their names. */
  function AskedAt(data: seq<Byte>, at: nat, questions: seq<Wire>): (r: seq<Asked>)
    requires QuestionsAt(data, at, questions)
    ensures |r| == |questions|
    decreases |questions|
  {
    if questions == [] then []
    else
      var end := LocalEnd(at, questions[0]);
      [Asked(questions[0], Read16(data, end), Read16(data, end + 2))] + AskedAt(data, end + 4, questions[1..])
  }

  lemma {:induction false} LaidOutQuestionIsEncoded(data: seq<Byte>, at: nat, q: Asked)
    requires SpelledAt(data, at, q.name) && LocalEnd(at, q.name) + 4 <= |data|
    requires q.qtype == Read16(data, LocalEnd(at, q.name)) && q.klass == Read16(data, LocalEnd(at, q.name) + 2)
    ensures NameFits(q.name) && Resolves(data, q.name) && HasAt(data, at, EncodeQuestion(q))
    ensures LocalEnd(at, q.name) + 4 == at + |EncodeQuestion(q)|
  {
    SpelledIsEncoded(data, at, q.name);
    LocalPartIsEncoded(at, q.name);
    WordsStand(data, LocalEnd(at, q.name), [q.qtype, q.klass]);
    HasJoined(data, at, EncodeName(q.name), Words([q.qtype, q.klass]));
  }

  lemma {:induction false} LaidOutQuestionsAreEncoded(data: seq<Byte>, at: nat, questions: seq<Wire>)
    requires QuestionsAt(data, at, questions) && at <= |data|
    ensures var asked := AskedAt(data, at, questions);
            && QuestionsFit(asked) && QuestionsResolve(data, asked) && HasAt(data, at, EncodeQuestions(asked))
            && AfterQuestions(at, questions) == at + |EncodeQuestions(asked)|
    decreases |questions|
  {
    if questions != [] {
      var asked := AskedAt(data, at, questions);
      var next := LocalEnd(at, questions[0]) + 4;
      LaidOutQuestionIsEncoded(data, at, asked[0]);
      LaidOutQuestionsAreEncoded(data, next, questions[1..]);
      assert asked[1..] == AskedAt(data, next, questions[1..]);
      HasJoined(data, at, EncodeQuestion(asked[0]), EncodeQuestions(asked[1..]));
    }
  }

  lemma LaidOutFieldsAreEncoded(data: seq<Byte>, at: nat, a: Answer)
    requires AnswerFits(a) && at + 10 <= |data|
    requires Read16(data, at) == a.rtype && Read16(data, at + 2) == a.klass
    requires Read32(data, at + 4) == a.ttl && Read16(data, at + 8) == |a.rdata|
    ensures HasAt(data, at, EncodeFields(a))
  {
    var ws: seq<Word> := [a.rtype, a.klass, a.ttl / 0x1_0000, a.ttl % 0x1_0000, |a.rdata|];
    TtlWords(data, at + 4, a.ttl);
    forall i | 0 <= i < 5 ensures Read16(data, at + 2 * i) == ws[i] {
      assert i == 0 || i == 1 || i == 2 || i == 3 || i == 4;
    }
    WordsStand(data, at, ws);
  }

  lemma TtlWords(data: seq<Byte>, at: nat, ttl: nat)
    requires at + 4 <= |data| && Read32(data, at) == ttl
    ensures ttl / 0x1_0000 == Read16(data, at) && ttl % 0x1_0000 == Read16(data, at + 2)
  {
  }

  lemma LaidOutAnswerFits(data: seq<Byte>, at: nat, a: Answer)
    requires AnswerAt(data, at, a) && AliasFills(a)
    ensures AnswerFits(a) && AnswerResolves(data, a)
  {
    SpelledIsEncoded(data, at, a.owner);
    if IsAlias(a) {
      var start := FieldsAt(at, a) + 10;
      SpelledIsEncoded(data, start, a.alias);
      LocalPartIsEncoded(0, a.alias);
      HasSlice(data, start, EncodeName(a.alias));
    }
  }

  lemma LaidOutAnswerIsEncoded(data: seq<Byte>, at: nat, a: Answer)
    requires AnswerAt(data, at, a) && AliasFills(a)
    ensures AnswerFits(a) && AnswerResolves(data, a) && HasAt(data, at, EncodeAnswer(a)) && EndOf(at, a) == at + |EncodeAnswer(a)|
  {
    LaidOutAnswerFits(data, at, a);
    SpelledIsEncoded(data, at, a.owner);
    LocalPartIsEncoded(at, a.owner);
    var f := FieldsAt(at, a);
    LaidOutFieldsAreEncoded(data, f, a);
    SliceHas(data, f + 10, a.rdata);
    HasJoined(data, f, EncodeFields(a), a.rdata);
    HasJoined(data, at, EncodeName(a.owner), EncodeFields(a) + a.rdata);
  }

  lemma {:induction false} LaidOutAnswersAreEncoded(data: seq<Byte>, at: nat, answers: seq<Answer>)
    requires AnswersAt(data, at, answers) && AliasesFill(answers) && at <= |data|
    ensures AnswersFit(answers) && AnswersResolve(data, answers) && HasAt(data, at, EncodeAnswers(answers))
    decreases |answers|
  {
    if answers != [] {
      LaidOutAnswerIsEncoded(data, at, answers[0]);
      LaidOutAnswersAreEncoded(data, EndOf(at, answers[0]), answers[1..]);
      HasJoined(data, at, EncodeAnswer(answers[0]), EncodeAnswers(answers[1..]));
    }
  }

  lemma LaidOutHeaderIsEncoded(data: seq<Byte>) returns (h: Header)
    requires |data| >= 12
    ensures HasAt(data, 0, EncodeHeader(h, Read16(data, 4), Read16(data, 6)))
  {
    h := Header(Read16(data, 0), Read16(data, 2), Read16(data, 8), Read16(data, 10));
    WordsStand(data, 0, [h.id, h.flags, Read16(data, 4), Read16(data, 6), h.authorities, h.additionals]);
  }

  lemma StandingIsConcatenation(s: seq<Byte>, a: seq<Byte>, b: seq<Byte>, c: seq<Byte>) returns (rest: seq<Byte>)
    requires HasAt(s, 0, a) && HasAt(s, |a|, b) && HasAt(s, |a| + |b|, c)
    ensures s == a + (b + (c + rest))
  {
    rest := s[|a| + |b| + |c|..];
    HasJoined(s, |a|, b, c);
    HasJoined(s, 0, a, b + c);
    assert s == (a + (b + c)) + rest;
  }

  lemma LaidOutIsEncoded(packet: seq<Byte>, questions: seq<Wire>, answers: seq<Answer>) returns (h: Header, rest: seq<Byte>)
    requires LaidOut(packet, questions, answers) && AliasesFill(answers)
    ensures IsEncoding(packet, h, AskedAt(packet, 12, questions), answers, rest)
  {
    var asked := AskedAt(packet, 12, questions);
    QuestionsTakeRoom(packet, 12, questions);
    LaidOutQuestionsAreEncoded(packet, 12, questions);
    LaidOutAnswersAreEncoded(packet, AfterQuestions(12, questions), answers);
    h := LaidOutHeaderIsEncoded(packet);
    rest := StandingIsConcatenation(packet, EncodeHeader(h, |asked|, |answers|), EncodeQuestions(asked), EncodeAnswers(answers));
  }

  // ---- a packet has one layout ----

  lemma AnswerIsUnique(data: seq<Byte>, at: nat, a: Answer, b: Answer)
    requires AnswerAt(data, at, a) && AnswerAt(data, at, b)
    ensures a == b
  {
    SpellingIsUnique(data, at, a.owner, b.owner);
    if IsAlias(a) {
      SpellingIsUnique(data, FieldsAt(at, a) + 10, a.alias, b.alias);
    }
  }

  lemma {:induction false} AnswersAreUnique(data: seq<Byte>, at: nat, xs: seq<Answer>, ys: seq<Answer>)
    requires AnswersAt(data, at, xs) && AnswersAt(data, at, ys) && |xs| == |ys|
    ensures xs == ys
    decreases |xs|
  {
    if xs != [] {
      AnswerIsUnique(data, at, xs[0], ys[0]);
      AnswersAreUnique(data, EndOf(at, xs[0]), xs[1..], ys[1..]);
      assert xs == [xs[0]] + xs[1..] && ys == [ys[0]] + ys[1..];
    }
  }

  lemma {:induction false} QuestionsAreUnique(data: seq<Byte>, at: nat, xs: seq<Wire>, ys: seq<Wire>)
    requires QuestionsAt(data, at, xs) && QuestionsAt(data, at, ys) && |xs| == |ys|
    ensures xs == ys
    decreases |xs|
  {
    if xs != [] {
      SpellingIsUnique(data, at, xs[0], ys[0]);
      QuestionsAreUnique(data, LocalEnd(at, xs[0]) + 4, xs[1..], ys[1..]);
      assert xs == [xs[0]] + xs[1..] && ys == [ys[0]] + ys[1..];
    }
  }

  lemma LayoutIsUnique(packet: seq<Byte>, questions: seq<Wire>, answers: seq<Answer>, otherQuestions: seq<Wire>, otherAnswers: seq<Answer>)
    requires LaidOut(packet, questions, answers) && LaidOut(packet, otherQuestions, otherAnswers)
    ensures questions == otherQuestions && answers == otherAnswers
  {
    QuestionsAreUnique(packet, 12, questions, otherQuestions);
    AnswersAreUnique(packet, AfterQuestions(12, questions), answers, otherAnswers);
  }

  lemma {:induction false} FittingAliasesFill(answers: seq<Answer>)
    requires AnswersFit(answers)
    ensures AliasesFill(answers)
    decreases |answers|
  {
    if answers != [] {
      if IsAlias(answers[0]) {
        LocalPartIsEncoded(0, answers[0].alias);
      }
      FittingAliasesFill(answers[1..]);
    }
  }

  /**
   The converse of the inversion.  A packet the parser accepts has one layout, and is the encoding of
   some response if and only if in that layout every alias fills its data: the parser looks past that.
   */
  lemma AcceptedIsEncodedIff(packet: seq<Byte>) returns (questions: seq<Wire>, answers: seq<Answer>)
    requires ParseResponse(packet).Ok?
    ensures LaidOut(packet, questions, answers) && AllAcceptable(answers) && ParseResponse(packet) == Ok(RecordsOf(answers))
    ensures (exists h, asked, encoded, rest :: IsEncoding(packet, h, asked, encoded, rest)) <==> AliasesFill(answers)
  {
    ParseResponseIff(packet, ParseResponse(packet).value);
    questions, answers :| LaidOut(packet, questions, answers) && AllReadable(questions) && AllAcceptable(answers)
                          && ParseResponse(packet).value == RecordsOf(answers);
    EncodedIffAliasesFill(packet, questions, answers);
  }

  lemma {:induction false} EncodedIffAliasesFill(packet: seq<Byte>, questions: seq<Wire>, answers: seq<Answer>)
    requires LaidOut(packet, questions, answers)
    ensures (exists h, asked, encoded, rest :: IsEncoding(packet, h, asked, encoded, rest)) <==> AliasesFill(answers)
  {
    if AliasesFill(answers) {
      var h, rest := LaidOutIsEncoded(packet, questions, answers);
    }
    forall h, asked, encoded, rest | IsEncoding(packet, h, asked, encoded, rest) ensures AliasesFill(answers) {
      SectionsStand(h, asked, encoded, rest);
      StandingSectionsAreLaidOut(packet, h, asked, encoded);
      LayoutIsUnique(packet, questions, answers, NamesOf(asked), encoded);
      FittingAliasesFill(encoded);
    }
  }

  // an answer for the root name, class IN, CNAME, with no data; then the name "a"
  const EMPTY_ALIAS: seq<Byte> := [0, 0, 0x80, 0, 0, 0, 0, 1, 0, 0, 0, 0, 0, 0, 5, 0, 1, 0, 0, 0, 0, 0, 0, 1, 97, 0]

  function EmptyAlias(): Answer { Answer(Root, TYPE_CNAME, CLASS_IN, 0, [], Label([97], Root)) }

  lemma ShortNameIsSpelled(data: seq<Byte>, at: nat, c: Byte)
    requires at + 3 <= |data| && data[at] == 1 && data[at + 1] == c && data[at + 2] == 0
    ensures SpelledAt(data, at, Label([c], Root))
  {
    assert SpelledAt(data, at + 2, Root);
    assert Slice(data, at + 1, 1) == [c];
  }

  lemma EmptyAliasIsLaidOut(packet: seq<Byte>)
    requires packet == EMPTY_ALIAS
    ensures AnswerAt(packet, 12, EmptyAlias()) && LaidOut(packet, [], [EmptyAlias()])
  {
    ShortNameIsSpelled(packet, 23, 97);
    assert SpelledAt(packet, 12, Root);
    assert Slice(packet, 23, 0) == [];
    OneAnswer(packet, 12, EmptyAlias());
  }

  lemma {:induction false} OneAnswer(data: seq<Byte>, at: nat, a: Answer)
    requires AnswerAt(data, at, a)
    ensures AnswersAt(data, at, [a])
  {
    assert [a][1..] == [];
  }

  lemma OneRecord(a: Answer)
    requires Acceptable(a)
    ensures AllAcceptable([a]) && RecordsOf([a]) == RecordOf(a)
    ensures AliasesFill([a]) <==> AliasFills(a)
  {
    assert [a][1..] == [];
  }

  /** An alias without data is accepted, its target read from behind the record; no encoding looks like that. */
  lemma AliasRunsOn()
    ensures ParseResponse(EMPTY_ALIAS) == Ok([Record([], TYPE_CNAME, [97], 0)])
    ensures !exists h, asked, encoded, rest :: IsEncoding(EMPTY_ALIAS, h, asked, encoded, rest)
  {
    EmptyAliasIsLaidOut(EMPTY_ALIAS);
    OneRecord(EmptyAlias());
    LaidOutIsParsed(EMPTY_ALIAS, [], [EmptyAlias()]);
    EncodedIffAliasesFill(EMPTY_ALIAS, [], [EmptyAlias()]);
  }
}
