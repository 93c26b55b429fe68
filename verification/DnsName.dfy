/**
 Domain names on the wire: `read_name` of src/dns/dns_message.cpp against the compressed
 names of section 4.1.4 of RFC 1035.
 */
module DnsName {
  import opened Bytes

  const DOT: Byte := 46
  const MAX_DEPTH: nat := 16

  // ---- the standard's names ----

  /** How a name is spelled: a root byte, a label and more, or a pointer to where more is spelled. */
  datatype Wire = Root | Label(text: Text, rest: Wire) | Pointer(target: nat, rest: Wire)

  predicate IsLabel(t: Text) { 1 <= |t| <= 63 }

  function Target(data: seq<Byte>, at: nat): nat
    requires at + 2 <= |data|
  {
    (data[at] as int) % 0x40 * 0x100 + data[at + 1]
  }

  /** The bytes at `at` spell w. */
  predicate SpelledAt(data: seq<Byte>, at: nat, w: Wire)
    decreases w
  {
    match w
    case Root => at < |data| && data[at] == 0
    case Label(t, rest) =>
      IsLabel(t) && at + 1 + |t| <= |data| && data[at] == |t| && Slice(data, at + 1, |t|) == t && SpelledAt(data, at + 1 + |t|, rest)
    case Pointer(target, rest) =>
      at + 2 <= |data| && data[at] >= 0xC0 && target == Target(data, at) && SpelledAt(data, target, rest)
  }

  function Labels(w: Wire): seq<Text> {
    match w
    case Root => []
    case Label(t, rest) => [t] + Labels(rest)
    case Pointer(_, rest) => Labels(rest)
  }

  function Pointers(w: Wire): nat {
    match w
    case Root => 0
    case Label(_, rest) => Pointers(rest)
    case Pointer(_, rest) => 1 + Pointers(rest)
  }

  /** Where the local part of a name ends: after its root byte or its first pointer. */
  function LocalEnd(at: nat, w: Wire): nat
    decreases w
  {
    match w
    case Root => at + 1
    case Label(t, rest) => LocalEnd(at + 1 + |t|, rest)
    case Pointer(_, _) => at + 2
  }

  /** The labels separated by dots. */
  function Join(labels: seq<Text>): Text {
    if |labels| == 0 then [] else if |labels| == 1 then labels[0] else labels[0] + [DOT] + Join(labels[1..])
  }

  // ---- read_name ----

  /** The text of a name, and the offset after its local part. */
  datatype Name = Name(text: Text, end: nat)

  /** Text appended to a name so far, with a dot between them if both have any. */
  function Append(name: Text, more: Text): Text {
    if name == [] then more else if more == [] then name else name + [DOT] + more
  }

  function ReadName(data: seq<Byte>, at: nat, depth: nat): Result<Name>
    decreases MAX_DEPTH + 1 - depth, |data| + 1, 1
  {
    if depth > MAX_DEPTH then Err(CompressionLoop) else ReadLabels(data, at, depth, [])
  }

  function ReadLabels(data: seq<Byte>, at: nat, depth: nat, name: Text): Result<Name>
    requires depth <= MAX_DEPTH
    decreases MAX_DEPTH + 1 - depth, if at <= |data| then |data| - at else 0, 0
  {
    if at >= |data| then Err(TruncatedName)
    else if data[at] == 0 then Ok(Name(name, at + 1))
    else if data[at] >= 0xC0 then
      if at + 1 >= |data| then Err(TruncatedPointer)
      else
        match ReadName(data, Target(data, at), depth + 1)
        case Err(failure) => Err(failure)
        case Ok(suffix) => Ok(Name(Append(name, suffix.text), at + 2))
    else if data[at] >= 0x40 then Err(UnsupportedLabel)
    else if at + 1 + data[at] > |data| then Err(TruncatedLabel)
    else ReadLabels(data, at + 1 + data[at], depth, Append(name, Slice(data, at + 1, data[at])))
  }

  /** The loop, recursive at pointers.  The offset comes back in the result. */
  method ReadNameInPlace(data: seq<Byte>, offset: nat, depth: nat) returns (r: Result<Name>)
    ensures r == ReadName(data, offset, depth)
    decreases MAX_DEPTH + 1 - depth
  {
    if depth > MAX_DEPTH {
      return Err(CompressionLoop);
    }
    var at := offset;
    var name: Text := [];
    while true
      invariant ReadLabels(data, at, depth, name) == ReadLabels(data, offset, depth, [])
      decreases |data| - at
    {
      if at >= |data| {
        return Err(TruncatedName);
      }
      ghost var start, before := at, name;
      var len := data[at];
      at := at + 1;
      if len == 0 {
        return Ok(Name(name, at));
      }
      if len >= 0xC0 {
        if at >= |data| {
          return Err(TruncatedPointer);
        }
        var pointer := Target(data, at - 1);
        at := at + 1;
        var suffix := ReadNameInPlace(data, pointer, depth + 1);
        if suffix.Err? {
          return suffix;
        }
        if name != [] && suffix.value.text != [] {
          name := name + [DOT];
        }
        name := name + suffix.value.text;
        assert name == Append(before, suffix.value.text);
        assert ReadLabels(data, start, depth, before) == Ok(Name(name, at));
        return Ok(Name(name, at));
      }
      if len >= 0x40 {
        return Err(UnsupportedLabel);
      }
      if at + len > |data| {
        return Err(TruncatedLabel);
      }
      if name != [] {
        name := name + [DOT];
      }
      name := name + data[at..at + len];
      assert data[at..at + len] == Slice(data, at, len);
      assert name == Append(before, Slice(data, at, len));
      at := at + len;
    }
  }

  // ---- agreement with the standard ----

  lemma AppendAssociates(a: Text, b: Text, c: Text)
    ensures Append(Append(a, b), c) == Append(a, Append(b, c))
  {
    if a != [] && b != [] && c != [] {
      assert a + [DOT] + b + [DOT] + c == a + [DOT] + (b + [DOT] + c);
    }
  }

  lemma {:induction false} JoinMore(t: Text, labels: seq<Text>)
    requires t != [] && forall l :: l in labels ==> l != []
    ensures Join([t] + labels) == Append(t, Join(labels))
  {
    assert ([t] + labels)[1..] == labels;
    if labels != [] {
      assert labels[0] in labels;
    }
  }

  lemma {:induction false} LabelsAreNonEmpty(data: seq<Byte>, at: nat, w: Wire)
    requires SpelledAt(data, at, w)
    ensures forall l :: l in Labels(w) ==> IsLabel(l)
    decreases w
  {
    match w
    case Root =>
    case Label(t, rest) => LabelsAreNonEmpty(data, at + 1 + |t|, rest);
    case Pointer(target, rest) => LabelsAreNonEmpty(data, target, rest);
  }

  /** Complete: a name spelled with few enough pointers is read, whatever was read before it. */
  lemma {:induction false} SpelledNamesAreRead(data: seq<Byte>, at: nat, depth: nat, name: Text, w: Wire)
    requires SpelledAt(data, at, w) && depth + Pointers(w) <= MAX_DEPTH
    ensures ReadLabels(data, at, depth, name) == Ok(Name(Append(name, Join(Labels(w))), LocalEnd(at, w)))
    decreases w
  {
    match w
    case Root =>
    case Label(t, rest) =>
      SpelledNamesAreRead(data, at + 1 + |t|, depth, Append(name, t), rest);
      LabelsAreNonEmpty(data, at + 1 + |t|, rest);
      JoinMore(t, Labels(rest));
      AppendAssociates(name, t, Join(Labels(rest)));
    case Pointer(target, rest) =>
      SpelledNamesAreRead(data, target, depth + 1, [], rest);
  }

  /** Sound: whatever is read was spelled. */
  lemma {:induction false} ReadNamesAreSpelled(data: seq<Byte>, at: nat, depth: nat, name: Text) returns (w: Wire)
    requires depth <= MAX_DEPTH && ReadLabels(data, at, depth, name).Ok?
    ensures SpelledAt(data, at, w) && depth + Pointers(w) <= MAX_DEPTH
    decreases MAX_DEPTH + 1 - depth, |data| - at
  {
    if data[at] == 0 {
      w := Root;
    } else if data[at] >= 0xC0 {
      var rest := ReadNamesAreSpelled(data, Target(data, at), depth + 1, []);
      w := Pointer(Target(data, at), rest);
    } else {
      var t := Slice(data, at + 1, data[at]);
      var rest := ReadNamesAreSpelled(data, at + 1 + data[at], depth, Append(name, t));
      w := Label(t, rest);
    }
  }

  /**
   A name is read from an offset exactly when one is spelled there with at most 16 pointers, less the
   starting depth; its text is the labels joined by dots and its end is the end of the local part.
   */
  lemma {:induction false} ReadNameIff(data: seq<Byte>, at: nat, depth: nat, n: Name)
    ensures ReadName(data, at, depth) == Ok(n) <==>
            exists w :: SpelledAt(data, at, w) && depth + Pointers(w) <= 16 && n == Name(Join(Labels(w)), LocalEnd(at, w))
  {
    if ReadName(data, at, depth) == Ok(n) {
      var w := ReadNamesAreSpelled(data, at, depth, []);
      SpelledNamesAreRead(data, at, depth, [], w);
    }
    forall w | SpelledAt(data, at, w) && depth + Pointers(w) <= MAX_DEPTH
      ensures ReadName(data, at, depth) == Ok(Name(Join(Labels(w)), LocalEnd(at, w)))
    {
      SpelledNamesAreRead(data, at, depth, [], w);
    }
  }

  lemma {:induction false} SpellingSurvivesAppending(data: seq<Byte>, more: seq<Byte>, at: nat, w: Wire)
    requires SpelledAt(data, at, w)
    ensures SpelledAt(data + more, at, w)
    decreases w
  {
    match w
    case Root =>
    case Label(t, rest) =>
      SpellingSurvivesAppending(data, more, at + 1 + |t|, rest);
      assert Slice(data + more, at + 1, |t|) == Slice(data, at + 1, |t|);
    case Pointer(target, rest) =>
      SpellingSurvivesAppending(data, more, target, rest);
  }

  /** A name that is read stays the same when read from a smaller depth, or with bytes appended to the packet. */
  lemma {:induction false} ReadNameIsMonotone(data: seq<Byte>, more: seq<Byte>, at: nat, depth: nat, less: nat)
    requires ReadName(data, at, depth).Ok? && less <= depth
    ensures ReadName(data + more, at, less) == ReadName(data, at, depth)
  {
    var w := ReadNamesAreSpelled(data, at, depth, []);
    SpelledNamesAreRead(data, at, depth, [], w);
    SpellingSurvivesAppending(data, more, at, w);
    SpelledNamesAreRead(data + more, at, less, [], w);
  }

  // ---- names the standard does not have ----

  /** Every pointer points to a prior place (section 4.1.4 of RFC 1035). */
  predicate PointsBack(at: nat, w: Wire)
    decreases w
  {
    match w
    case Root => true
    case Label(t, rest) => PointsBack(at + 1 + |t|, rest)
    case Pointer(target, rest) => target < at && PointsBack(target, rest)
  }

  /** The octets of the name written out, length bytes and root byte included; section 3.1 allows 255. */
  function Octets(w: Wire): nat {
    match w
    case Root => 1
    case Label(t, rest) => 1 + |t| + Octets(rest)
    case Pointer(_, rest) => Octets(rest)
  }

  const MAX_OCTETS: nat := 255

  /** A name as the standard has it is spelled at `at`. */
  ghost predicate StandardNameAt(data: seq<Byte>, at: nat) {
    exists w :: SpelledAt(data, at, w) && PointsBack(at, w) && Octets(w) <= MAX_OCTETS
  }

  lemma {:induction false} SpellingIsUnique(data: seq<Byte>, at: nat, v: Wire, w: Wire)
    requires SpelledAt(data, at, v) && SpelledAt(data, at, w)
    ensures v == w
    decreases v
  {
    match v
    case Root =>
    case Label(t, rest) => SpellingIsUnique(data, at + 1 + |t|, rest, w.rest);
    case Pointer(target, rest) => SpellingIsUnique(data, target, rest, w.rest);
  }

  /** A name that is read is one of the standard's exactly if the pointers of its spelling point back and it is short. */
  lemma ReadNameIsStandardIff(data: seq<Byte>, at: nat, depth: nat) returns (w: Wire)
    requires ReadName(data, at, depth).Ok?
    ensures SpelledAt(data, at, w) && ReadName(data, at, depth).value == Name(Join(Labels(w)), LocalEnd(at, w))
    ensures StandardNameAt(data, at) <==> PointsBack(at, w) && Octets(w) <= MAX_OCTETS
  {
    w := ReadNamesAreSpelled(data, at, depth, []);
    SpelledNamesAreRead(data, at, depth, [], w);
    forall v | SpelledAt(data, at, v) && PointsBack(at, v) && Octets(v) <= MAX_OCTETS ensures v == w {
      SpellingIsUnique(data, at, v, w);
    }
  }

  // a pointer to the place behind it, where "a" is spelled
  const FORWARD: seq<Byte> := [0xC0, 2, 1, 97, 0]

  lemma ForwardPointerIsRead()
    ensures ReadName(FORWARD, 0, 0) == Ok(Name([97], 2)) && !StandardNameAt(FORWARD, 0)
  {
    var rest := Label([97], Root);
    var w := Pointer(2, rest);
    assert SpelledAt(FORWARD, 4, Root);
    assert Slice(FORWARD, 3, 1) == [97];
    assert SpelledAt(FORWARD, 2, rest);
    SpelledNamesAreRead(FORWARD, 0, 0, [], w);
    forall v | SpelledAt(FORWARD, 0, v) ensures v == w {
      SpellingIsUnique(FORWARD, 0, v, w);
    }
  }

  // ---- size and cycles ----

  /** k times the length of the packet. */
  ghost function Times(k: nat, data: seq<Byte>): nat {
    if k == 0 then 0 else |data| + Times(k - 1, data)
  }

  lemma {:induction false} TimesGrows(k: nat, most: nat, data: seq<Byte>)
    requires k <= most
    ensures Times(k, data) <= Times(most, data)
    decreases most
  {
    if k < most {
      TimesGrows(k, most - 1, data);
    }
  }

  lemma {:induction false} TimesIsProduct(k: nat, data: seq<Byte>)
    ensures Times(k, data) == k * |data|
  {
    if k > 0 {
      TimesIsProduct(k - 1, data);
    }
  }

  lemma {:induction false} TextIsShort(data: seq<Byte>, at: nat, w: Wire)
    requires SpelledAt(data, at, w)
    ensures |Join(Labels(w))| <= |data| - at + Times(Pointers(w), data)
    ensures at < LocalEnd(at, w) <= |data|
    decreases w
  {
    match w
    case Root =>
    case Label(t, rest) =>
      TextIsShort(data, at + 1 + |t|, rest);
      LabelsAreNonEmpty(data, at + 1 + |t|, rest);
      JoinMore(t, Labels(rest));
    case Pointer(target, rest) =>
      TextIsShort(data, target, rest);
  }

  /** A name is at most 17 times as long as its packet, and its local part ends inside it. */
  lemma {:induction false} NameIsBounded(data: seq<Byte>, at: nat, depth: nat)
    requires ReadName(data, at, depth).Ok?
    ensures |ReadName(data, at, depth).value.text| <= 17 * |data|
    ensures at < ReadName(data, at, depth).value.end <= |data|
  {
    var w := ReadNamesAreSpelled(data, at, depth, []);
    SpelledNamesAreRead(data, at, depth, [], w);
    TextIsShort(data, at, w);
    TimesGrows(Pointers(w), MAX_DEPTH, data);
    TimesIsProduct(MAX_DEPTH, data);
  }

  /** Where reading goes on after the label or pointer at `at`; None at a root byte or where reading fails. */
  function Next(data: seq<Byte>, at: nat): Option<nat> {
    if at >= |data| || data[at] == 0 then None
    else if data[at] >= 0xC0 then if at + 1 < |data| then Some(Target(data, at)) else None
    else if data[at] >= 0x40 || at + 1 + data[at] > |data| then None
    else Some(at + 1 + data[at])
  }

  function Follow(data: seq<Byte>, at: nat, steps: nat): Option<nat>
    decreases steps, |data|
  {
    if steps == 0 then Some(at)
    else
      match Next(data, at)
      case None => None
      case Some(to) => Follow(data, to, steps - 1)
  }

  function Size(w: Wire): nat {
    match w
    case Root => 0
    case Label(_, rest) => 1 + Size(rest)
    case Pointer(_, rest) => 1 + Size(rest)
  }

  lemma {:induction false} FollowingShrinks(data: seq<Byte>, at: nat, steps: nat, w: Wire) returns (v: Wire)
    requires SpelledAt(data, at, w) && Follow(data, at, steps).Some?
    ensures SpelledAt(data, Follow(data, at, steps).value, v) && Size(v) + steps == Size(w)
    decreases steps
  {
    if steps == 0 {
      v := w;
    } else {
      v := FollowingShrinks(data, Next(data, at).value, steps - 1, w.rest);
    }
  }

  /** A name whose reading runs into a cycle is never read, from any depth. */
  lemma {:induction false} CyclesAreErrors(data: seq<Byte>, at: nat, depth: nat, lead: nat, round: nat)
    requires Follow(data, at, lead).Some? && round > 0
    requires Follow(data, Follow(data, at, lead).value, round) == Follow(data, at, lead)
    ensures ReadName(data, at, depth).Err?
  {
    if ReadName(data, at, depth).Ok? {
      var w := ReadNamesAreSpelled(data, at, depth, []);
      var v := FollowingShrinks(data, at, lead, w);
      var u := FollowingShrinks(data, Follow(data, at, lead).value, round, v);
      SpellingIsUnique(data, Follow(data, at, lead).value, u, v);
    }
  }
}
