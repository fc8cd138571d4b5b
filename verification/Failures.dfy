/** Exactly where parsing fails: at the first value, name or separator that does not fit. */
module Failures {
  import opened Bytes
  import opened ParseText
  import opened Literals
  import opened RoundTrip
  import opened MinifyText
  import opened Documents

  /**
   * A text up to the byte that does not fit, `gap` the blanks in front of it: a value is missing, or an array or an
   * object has been left inside.
   */
  datatype Broken =
    | NoValue(gap: bytes)
    | InArray(gap: bytes, elements: seq<Element>, end: End)
    | InObject(gap: bytes, entries: seq<Entry>, stop: Stop)

  /** How the value breaks off: in itself, as a string that is never closed, or behind its end. */
  datatype End = Inside(value: Broken) | Open(before: bytes, pieces: seq<Piece>) | Behind(element: Element)

  /** How a member breaks off: in front of its name, in it, in front of the colon, or with its value. */
  datatype Stop =
    | NoName(before: bytes)
    | OpenName(before: bytes, pieces: seq<Piece>)
    | NoColon(before: bytes, name: seq<Piece>, after: bytes)
    | WithValue(before: bytes, name: seq<Piece>, after: bytes, end: End)

  function ElementsCommas(es: seq<Element>): bytes {
    if es == [] then [] else ElementText(es[0]) + [COMMA] + ElementsCommas(es[1..])
  }

  function EntriesCommas(es: seq<Entry>): bytes {
    if es == [] then [] else EntryText(es[0]) + [COMMA] + EntriesCommas(es[1..])
  }

  function BrokenText(f: Broken): bytes
    decreases f
  {
    match f
    case NoValue(gap) => gap
    case InArray(gap, es, end) => gap + [OPEN_BRACKET] + ElementsCommas(es) + EndText(end)
    case InObject(gap, es, stop) => gap + [OPEN_BRACE] + EntriesCommas(es) + StopText(stop)
  }

  function EndText(e: End): bytes
    decreases e
  {
    match e
    case Inside(f) => BrokenText(f)
    case Open(before, ps) => before + ([QUOTE] + TextOf(ps))
    case Behind(e) => ElementText(e)
  }

  function StopText(p: Stop): bytes
    decreases p
  {
    match p
    case NoName(before) => before
    case OpenName(before, ps) => before + ([QUOTE] + TextOf(ps))
    case NoColon(before, name, after) => before + Quoted(TextOf(name)) + after
    case WithValue(before, name, after, end) => before + Quoted(TextOf(name)) + after + [COLON] + EndText(end)
  }

  predicate NotBlank(at: bytes) {
    !(1 <= Head(at) <= 32)
  }

  /** No value starts here. */
  predicate NoStart(at: bytes) {
    && !StartsWith(at, NULL_WORD) && !StartsWith(at, FALSE_WORD) && !StartsWith(at, TRUE_WORD)
    && Head(at) != QUOTE && Head(at) != MINUS && !IsDigit(Head(at))
    && Head(at) != OPEN_BRACKET && Head(at) != OPEN_BRACE
  }

  /** `at` is what does not fit. */
  ghost predicate Stuck(f: Broken, at: bytes)
    decreases f
  {
    match f
    case NoValue(gap) => Blank(gap) && NotBlank(at) && NoStart(at)
    case InArray(gap, es, end) =>
      && Blank(gap) && (forall i :: 0 <= i < |es| ==> ProperElement(es[i])) && StuckEnd(end, at, CLOSE_BRACKET)
      && (es == [] && end.Inside? && end.value.NoValue? ==> Head(at) != CLOSE_BRACKET)
    case InObject(gap, es, stop) =>
      && Blank(gap) && (forall i :: 0 <= i < |es| ==> ProperEntry(es[i])) && StuckStop(stop, at)
      && (es == [] && stop.NoName? ==> Head(at) != CLOSE_BRACE)
  }

  ghost predicate StuckEnd(e: End, at: bytes, close: byte)
    decreases e
  {
    match e
    case Inside(f) => Stuck(f, at)
    case Open(before, ps) => Blank(before) && AcceptedAll(ps) && at == []
    case Behind(e) =>
      && ProperElement(e) && Ends(e.content, e.after + at)
      && NotBlank(at) && Head(at) != COMMA && Head(at) != close
  }

  ghost predicate StuckStop(p: Stop, at: bytes)
    decreases p
  {
    match p
    case NoName(before) => Blank(before) && NotBlank(at) && Head(at) != QUOTE
    case OpenName(before, ps) => Blank(before) && AcceptedAll(ps) && at == []
    case NoColon(before, name, after) =>
      Blank(before) && AcceptedAll(name) && Blank(after) && NotBlank(at) && Head(at) != COLON
    case WithValue(before, name, after, end) =>
      Blank(before) && AcceptedAll(name) && Blank(after) && StuckEnd(end, at, CLOSE_BRACE)
  }

  // Such texts fail there

  lemma SkipTo(gap: bytes, at: bytes)
    requires Blank(gap) && NotBlank(at)
    ensures Skip(gap + at) == at
  {
    SkipBlank(gap, at);
  }

  lemma {:induction false} Fails(f: Broken, at: bytes)
    requires Stuck(f, at)
    ensures ParseValue(Skip(BrokenText(f) + at)) == Fail(at)
    ensures
      var s := Skip(BrokenText(f) + at);
      if f.NoValue? then s == at else Head(s) == OPEN_BRACKET || Head(s) == OPEN_BRACE
    decreases f
  {
    hide ParseValue, Skip, ParseItems, ParseMembers, ElementsCommas, EntriesCommas, EndText, StopText, StartsWith;
    hide ProperElement, ProperEntry, StuckEnd, StuckStop;
    match f
    case NoValue(gap) =>
      SkipTo(gap, at);
      FirstByteBranch(at);
    case InArray(gap, es, end) =>
      var inner := ElementsCommas(es) + EndText(end) + at;
      var s := [OPEN_BRACKET] + inner;
      assert BrokenText(f) + at == gap + s && s[1..] == inner;
      SkipTo(gap, s);
      ArrayBranch(s);
      ItemsFail(es, end, at);
    case InObject(gap, es, stop) =>
      var inner := EntriesCommas(es) + StopText(stop) + at;
      var s := [OPEN_BRACE] + inner;
      assert BrokenText(f) + at == gap + s && s[1..] == inner;
      SkipTo(gap, s);
      ObjectBranch(s);
      MembersFail(es, stop, at);
  }

  /** What the value of an end is read as, and what stands there. */
  lemma {:induction false} EndFails(e: End, at: bytes, close: byte)
    requires StuckEnd(e, at, close) && (close == CLOSE_BRACKET || close == CLOSE_BRACE)
    ensures
      var s := Skip(EndText(e) + at);
      && (match ParseValue(s)
          case Fail(p) => p == at
          case Ok(_, rest) => Skip(rest) == at && Head(at) != COMMA && Head(at) != close
          case Undefined => false)
      && (e.Inside? && e.value.NoValue? ==> s == at)
      && (!(e.Inside? && e.value.NoValue?) ==> Head(s) != CLOSE_BRACKET)
    decreases e, 0
  {
    hide ParseValue, Skip, BrokenText, TextOf, ElementText, Stuck, ProperElement, Ends, AcceptedAll;
    match e
    case Inside(f) => Fails(f, at);
    case Open(before, ps) => OpenFails(before, ps);
    case Behind(e) => BehindFails(e, at);
  }

  lemma OpenFails(before: bytes, ps: seq<Piece>)
    requires Blank(before) && AcceptedAll(ps)
    ensures var s := Skip(before + ([QUOTE] + TextOf(ps)) + []);
      Head(s) == QUOTE && ParseValue(s) == Ok(Json.String(Characters(ps)), []) && Skip([]) == []
  {
    hide ParseValue, AcceptedAll, TextOf, MeaningOf, Unescape;
    var t := [QUOTE] + TextOf(ps);
    assert before + t + [] == before + t;
    SkipTo(before, t);
    assert t[1..] == TextOf(ps) + [];
    LiteralDenotes(ps, []);
    StringBranch(t);
  }

  lemma BehindFails(e: Element, at: bytes)
    requires ProperElement(e) && Ends(e.content, e.after + at) && NotBlank(at)
    ensures var s := Skip(ElementText(e) + at);
      Head(s) != CLOSE_BRACKET && ParseValue(s) == Ok(ItemOf(e), e.after + at) && Skip(e.after + at) == at
  {
    hide ParseValue, Skip, DocumentText, Value, Proper, Ends;
    var t := DocumentText(e.content);
    Start(e.content);
    assert ElementText(e) + at == e.before + (t + (e.after + at));
    SkipBlank(e.before, t + (e.after + at));
    SkipNothing(t, e.after + at);
    DocumentDenotes(e.content, e.after + at);
    SkipTo(e.after, at);
  }

  lemma {:induction false} ItemsFail(es: seq<Element>, end: End, at: bytes)
    requires (forall i :: 0 <= i < |es| ==> ProperElement(es[i])) && StuckEnd(end, at, CLOSE_BRACKET)
    ensures
      var s := Skip(ElementsCommas(es) + EndText(end) + at);
      && ParseItems(s) == Fail(at)
      && (Head(s) == CLOSE_BRACKET ==> es == [] && end.Inside? && end.value.NoValue? && s == at)
    decreases end, 1, |es|
  {
    hide ParseValue, ParseItems, Skip, ElementText, EndText, ProperElement, StuckEnd, ElementsCommas;
    var s := Skip(ElementsCommas(es) + EndText(end) + at);
    ItemsTurn(s);
    if es == [] {
      NoCommas();
      assert [] + EndText(end) + at == EndText(end) + at;
      EndFails(end, at, CLOSE_BRACKET);
    } else {
      var more := ElementsCommas(es[1..]) + EndText(end) + at;
      ElementsComma(es, EndText(end) + at);
      assert ElementsCommas(es) + EndText(end) + at == ElementsCommas(es) + (EndText(end) + at);
      assert ElementsCommas(es[1..]) + (EndText(end) + at) == more;
      ElementRead(es[0], COMMA, more);
      assert ([COMMA] + more)[1..] == more;
      ItemsFail(es[1..], end, at);
    }
  }

  lemma NoCommas()
    ensures ElementsCommas([]) == [] && EntriesCommas([]) == []
  {
  }

  lemma ElementsComma(es: seq<Element>, tail: bytes)
    requires es != []
    ensures ElementsCommas(es) + tail == ElementText(es[0]) + ([COMMA] + (ElementsCommas(es[1..]) + tail))
  {
    hide ElementText;
  }

  lemma EntriesComma(es: seq<Entry>, tail: bytes)
    requires es != []
    ensures EntriesCommas(es) + tail == EntryText(es[0]) + ([COMMA] + (EntriesCommas(es[1..]) + tail))
  {
    hide EntryText;
  }

  lemma {:induction false} MembersFail(es: seq<Entry>, stop: Stop, at: bytes)
    requires (forall i :: 0 <= i < |es| ==> ProperEntry(es[i])) && StuckStop(stop, at)
    ensures
      var s := Skip(EntriesCommas(es) + StopText(stop) + at);
      && ParseMembers(s) == Fail(at)
      && (Head(s) == CLOSE_BRACE ==> es == [] && stop.NoName? && s == at)
    decreases stop, 1, |es|
  {
    hide ParseMember, ParseMembers, Skip, EntryText, StopText, ProperEntry, StuckStop, EntriesCommas;
    var s := Skip(EntriesCommas(es) + StopText(stop) + at);
    MembersTurn(s);
    if es == [] {
      NoCommas();
      assert [] + StopText(stop) + at == StopText(stop) + at;
      StopFails(stop, at);
    } else {
      var more := EntriesCommas(es[1..]) + StopText(stop) + at;
      EntriesComma(es, StopText(stop) + at);
      assert EntriesCommas(es) + StopText(stop) + at == EntriesCommas(es) + (StopText(stop) + at);
      assert EntriesCommas(es[1..]) + (StopText(stop) + at) == more;
      EntryRead(es[0], COMMA, more);
      assert ([COMMA] + more)[1..] == more;
      MembersFail(es[1..], stop, at);
    }
  }

  lemma {:induction false} StopFails(p: Stop, at: bytes)
    requires StuckStop(p, at)
    ensures
      var s := Skip(StopText(p) + at);
      && (match ParseMember(s)
          case Fail(q) => q == at
          case Ok(_, rest) => Skip(rest) == at && Head(at) != COMMA && Head(at) != CLOSE_BRACE
          case Undefined => false)
      && (p.NoName? ==> s == at) && (!p.NoName? ==> Head(s) == QUOTE)
    decreases p, 0
  {
    hide ParseMember, Skip, EndText, TextOf, Quoted, AcceptedAll, StuckEnd;
    match p
    case NoName(before) =>
      SkipTo(before, at);
      NameMissing(at);
    case OpenName(before, ps) => OpenNameFails(before, ps);
    case NoColon(before, name, after) => ColonMissing(before, name, after, at);
    case WithValue(before, name, after, end) =>
      EndFails(end, at, CLOSE_BRACE);
      ValueStops(before, name, after, EndText(end) + at);
      assert StopText(p) + at == before + Quoted(TextOf(name)) + after + [COLON] + (EndText(end) + at);
  }

  lemma NameMissing(at: bytes)
    requires Head(at) != QUOTE
    ensures ParseMember(at) == Fail(at)
  {
  }

  lemma OpenNameFails(before: bytes, ps: seq<Piece>)
    requires Blank(before) && AcceptedAll(ps)
    ensures var s := Skip(before + ([QUOTE] + TextOf(ps)) + []); Head(s) == QUOTE && ParseMember(s) == Fail([])
  {
    hide AcceptedAll, TextOf, MeaningOf, Unescape, ParseMember;
    var t := [QUOTE] + TextOf(ps);
    assert before + t + [] == before + t;
    SkipTo(before, t);
    assert t[1..] == TextOf(ps) + [];
    LiteralDenotes(ps, []);
    NoColonThere(t);
  }

  lemma NoColonThere(s: bytes)
    requires ParseString(s).Ok? && Head(Skip(ParseString(s).rest)) != COLON
    ensures ParseMember(s) == Fail(Skip(ParseString(s).rest))
  {
    hide ParseString, Skip;
  }

  /** A name in its quotes and the blanks behind it. */
  lemma NameRead(before: bytes, name: seq<Piece>, after: bytes, at: bytes)
    requires Blank(before) && AcceptedAll(name) && Blank(after) && NotBlank(at)
    ensures
      var s := Skip(before + Quoted(TextOf(name)) + after + at);
      && Head(s) == QUOTE && ParseString(s) == Ok(MeaningOf(name), after + at) && Skip(after + at) == at
  {
    hide ParseString, Skip, TextOf, Quoted, AcceptedAll, MeaningOf;
    var t := Quoted(TextOf(name));
    assert before + t + after + at == before + (t + (after + at));
    SkipBlank(before, t + (after + at));
    OpeningQuote(TextOf(name));
    SkipNothing(t, after + at);
    LiteralRead(name, after + at);
    SkipTo(after, at);
  }

  lemma ColonMissing(before: bytes, name: seq<Piece>, after: bytes, at: bytes)
    requires Blank(before) && AcceptedAll(name) && Blank(after) && NotBlank(at) && Head(at) != COLON
    ensures var s := Skip(before + Quoted(TextOf(name)) + after + at); Head(s) == QUOTE && ParseMember(s) == Fail(at)
  {
    hide ParseString, ParseMember, Skip, TextOf, Quoted, AcceptedAll, MeaningOf;
    NameRead(before, name, after, at);
    NoColonThere(Skip(before + Quoted(TextOf(name)) + after + at));
  }

  lemma ValueStops(before: bytes, name: seq<Piece>, after: bytes, value: bytes)
    requires Blank(before) && AcceptedAll(name) && Blank(after)
    ensures
      var s := Skip(before + Quoted(TextOf(name)) + after + [COLON] + value);
      && Head(s) == QUOTE
      && ParseMember(s) == match ParseValue(Skip(value))
           case Ok(v, rest) => Ok(Json.Member(MeaningOf(name), v), rest)
           case Fail(at) => Fail(at)
           case Undefined => Undefined
  {
    hide ParseString, ParseMember, ParseValue, Skip, TextOf, Quoted, AcceptedAll, MeaningOf;
    var at := [COLON] + value;
    var t := before + Quoted(TextOf(name)) + after;
    assert t + [COLON] + value == t + at && at[1..] == value;
    NameRead(before, name, after, at);
    MemberBranch(Skip(t + at));
  }

  // And every failure is one of these

  /** What a failing value leaves, or what stands behind one that does not fail. */
  ghost function StopsAt(s: bytes): bytes {
    match ParseValue(s)
    case Fail(at) => at
    case Ok(_, rest) => Skip(rest)
    case Undefined => []
  }

  lemma {:induction false} FailPart(gap: bytes, s: bytes) returns (f: Broken)
    requires Blank(gap) && NulFree(s) && NotBlank(s) && ParseValue(s).Fail?
    ensures Stuck(f, ParseValue(s).at) && BrokenText(f) + ParseValue(s).at == gap + s
    ensures f.NoValue? ==> ParseValue(s).at == s
    decreases |s|, 1
  {
    hide ParseValue, ParseItems, ParseMembers, Skip, StartsWith, NulFree, ProperElement, ProperEntry;
    hide ElementsCommas, EntriesCommas, EndText, StopText, StuckEnd, StuckStop;
    FirstByteBranch(s);
    if Head(s) == OPEN_BRACKET {
      ArrayBranch(s);
      FirstByte(s);
      NulFreePart([s[0]], s[1..]);
      var c := BlankPart(s[1..]);
      var t := Skip(s[1..]);
      NulFreePart(c, t);
      var es, end := ItemsFailPart(c, t);
      f := InArray(gap, es, end);
      Opening(gap, s, ElementsCommas(es), EndText(end), ParseItems(t).at);
    } else if Head(s) == OPEN_BRACE {
      ObjectBranch(s);
      FirstByte(s);
      NulFreePart([s[0]], s[1..]);
      var c := BlankPart(s[1..]);
      var t := Skip(s[1..]);
      NulFreePart(c, t);
      var es, stop := MembersFailPart(c, t);
      f := InObject(gap, es, stop);
      Opening(gap, s, EntriesCommas(es), StopText(stop), ParseMembers(t).at);
    } else {
      NeverFails(s);
      f := NoValue(gap);
    }
  }

  lemma Opening(gap: bytes, s: bytes, commas: bytes, end: bytes, at: bytes)
    requires s != [] && s[1..] == commas + end + at
    ensures gap + [s[0]] + commas + end + at == gap + s
  {
    FirstByte(s);
  }

  lemma NeverFails(s: bytes)
    requires ParseValue(s).Fail? && Head(s) != OPEN_BRACKET && Head(s) != OPEN_BRACE
    ensures NoStart(s) && ParseValue(s).at == s
  {
    hide ParseItems, ParseMembers, ScanNumber, NumberValue, StartsWith, Unescape;
    FirstByteBranch(s);
  }

  lemma {:induction false} EndPart(before: bytes, s: bytes, close: byte) returns (e: End)
    requires Blank(before) && NulFree(s) && NotBlank(s) && !ParseValue(s).Undefined?
    requires ParseValue(s).Ok? ==> Head(StopsAt(s)) != COMMA && Head(StopsAt(s)) != close
    ensures StuckEnd(e, StopsAt(s), close) && EndText(e) + StopsAt(s) == before + s
    ensures e.Inside? && e.value.NoValue? ==> StopsAt(s) == s
    decreases |s|, 2
  {
    hide ParseValue, Skip, BrokenText, Stuck, DocumentText, Documents.Value, Proper, NulFree, Blank, Ends;
    if ParseValue(s).Fail? {
      var f := FailPart(before, s);
      e := Inside(f);
    } else if MinifyText.Closed(s) {
      var rest := ParseValue(s).rest;
      var d := ValuePart(s);
      var after := BlankPart(rest);
      e := Behind(Element(before, d, after));
      DocumentDenotes(d, rest);
      SkipsTo(rest);
      ElementJoin(e.element, Skip(rest));
    } else {
      e := OpenPart(before, s);
    }
  }

  lemma SkipsTo(s: bytes)
    ensures NotBlank(Skip(s))
  {
  }

  lemma OpenPart(before: bytes, s: bytes) returns (e: End)
    requires Blank(before) && NulFree(s) && ParseValue(s).Ok? && !MinifyText.Closed(s)
    ensures e.Open? && StuckEnd(e, [], CLOSE_BRACE) && StuckEnd(e, [], CLOSE_BRACKET)
    ensures EndText(e) + [] == before + s && StopsAt(s) == []
  {
    hide ParseValue, AcceptedAll, TextOf, Unescape, NulFree;
    var ps := UnclosedPart(s);
    e := Open(before, ps);
    UnclosedRest(s);
    assert before + s + [] == before + s;
  }

  lemma UnclosedRest(s: bytes)
    requires ParseValue(s).Ok? && !MinifyText.Closed(s)
    ensures ParseValue(s).rest == []
  {
    if ParseValue(s).rest != [] {
      ClosedValue(s);
    }
  }

  /** The elements in front of the one that breaks off. */
  lemma {:induction false} ItemsFailPart(before: bytes, s: bytes) returns (es: seq<Element>, end: End)
    requires Blank(before) && NulFree(s) && NotBlank(s) && ParseItems(s).Fail?
    ensures StuckEnd(end, ParseItems(s).at, CLOSE_BRACKET) && forall i :: 0 <= i < |es| ==> ProperElement(es[i])
    ensures ElementsCommas(es) + EndText(end) + ParseItems(s).at == before + s
    ensures es == [] && end.Inside? && end.value.NoValue? ==> ParseItems(s).at == s
    decreases |s|, 3
  {
    hide ParseValue, ParseItems, Skip, ElementText, EndText, ProperElement, StuckEnd, NulFree, Blank, ElementsCommas;
    ItemsTurn(s);
    var t := StopsAt(s);
    if ParseValue(s).Ok? && Head(t) == COMMA {
      var e := ElementPart(before, s);
      FirstByte(t);
      NulFreePart([t[0]], t[1..]);
      var c := BlankPart(t[1..]);
      NulFreePart(c, Skip(t[1..]));
      SkipsTo(t[1..]);
      var more;
      more, end := ItemsFailPart(c, Skip(t[1..]));
      es := [e] + more;
      ElementsConsed(e, more, EndText(end) + ParseItems(s).at);
      Assoc(ElementsCommas(es), EndText(end), ParseItems(s).at);
      Assoc(ElementsCommas(more), EndText(end), ParseItems(s).at);
    } else {
      es := [];
      end := EndPart(before, s, CLOSE_BRACKET);
      NoCommas();
      assert [] + EndText(end) == EndText(end);
    }
  }

  lemma ElementsConsed(e: Element, more: seq<Element>, tail: bytes)
    ensures ElementsCommas([e] + more) + tail == ElementText(e) + ([COMMA] + (ElementsCommas(more) + tail))
  {
    hide ElementText;
    assert ([e] + more)[1..] == more;
    ElementsComma([e] + more, tail);
  }

  lemma EntriesConsed(e: Entry, more: seq<Entry>, tail: bytes)
    ensures EntriesCommas([e] + more) + tail == EntryText(e) + ([COMMA] + (EntriesCommas(more) + tail))
  {
    hide EntryText;
    assert ([e] + more)[1..] == more;
    EntriesComma([e] + more, tail);
  }

  /** An element in front of a comma. */
  lemma ElementPart(before: bytes, s: bytes) returns (e: Element)
    requires Blank(before) && NulFree(s) && ParseValue(s).Ok? && Head(StopsAt(s)) == COMMA
    ensures ProperElement(e) && before + s == ElementText(e) + StopsAt(s) && NulFree(StopsAt(s)) && |StopsAt(s)| < |s|
  {
    hide ParseValue, DocumentText, Documents.Value, Proper, NulFree, Blank;
    var rest := ParseValue(s).rest;
    ClosedValue(s);
    var d := ValuePart(s);
    NulFreePart(DocumentText(d), rest);
    var after := BlankPart(rest);
    NulFreePart(after, Skip(rest));
    e := Element(before, d, after);
    ElementJoin(e, Skip(rest));
  }

  lemma {:induction false} MembersFailPart(before: bytes, s: bytes) returns (es: seq<Entry>, stop: Stop)
    requires Blank(before) && NulFree(s) && NotBlank(s) && ParseMembers(s).Fail?
    ensures StuckStop(stop, ParseMembers(s).at) && forall i :: 0 <= i < |es| ==> ProperEntry(es[i])
    ensures EntriesCommas(es) + StopText(stop) + ParseMembers(s).at == before + s
    ensures es == [] && stop.NoName? ==> ParseMembers(s).at == s
    decreases |s|, 4
  {
    hide ParseMember, ParseMembers, Skip, EntryText, StopText, ProperEntry, StuckStop, NulFree, Blank, EntriesCommas;
    MembersTurn(s);
    var m := ParseMember(s);
    if m.Ok? && Head(Skip(m.rest)) == COMMA {
      var t := Skip(m.rest);
      SkipNothingLeft(m.rest);
      var e := EntryPart(before, s);
      FirstByte(t);
      NulFreePart([t[0]], t[1..]);
      var c := BlankPart(t[1..]);
      NulFreePart(c, Skip(t[1..]));
      SkipsTo(t[1..]);
      var more;
      more, stop := MembersFailPart(c, Skip(t[1..]));
      es := [e] + more;
      EntriesConsed(e, more, StopText(stop) + ParseMembers(s).at);
      Assoc(EntriesCommas(es), StopText(stop), ParseMembers(s).at);
      Assoc(EntriesCommas(more), StopText(stop), ParseMembers(s).at);
    } else {
      es := [];
      stop := StopPart(before, s);
      NoCommas();
      assert [] + StopText(stop) == StopText(stop);
    }
  }

  lemma SkipNothingLeft(s: bytes)
    ensures Skip(s) != [] ==> s != []
  {
  }

  /** Where a member stops that fails, or behind which neither a comma nor a brace stands. */
  lemma {:induction false} StopPart(before: bytes, s: bytes) returns (p: Stop)
    requires Blank(before) && NulFree(s) && NotBlank(s) && !ParseMember(s).Undefined?
    requires var m := ParseMember(s); m.Ok? ==> Head(Skip(m.rest)) != COMMA && Head(Skip(m.rest)) != CLOSE_BRACE
    ensures
      var at := if ParseMember(s).Ok? then Skip(ParseMember(s).rest) else ParseMember(s).at;
      StuckStop(p, at) && StopText(p) + at == before + s && (p.NoName? ==> at == s)
    decreases |s|, 3
  {
    hide ParseValue, ParseString, ParseMember, Skip, Unescape, NulFree, Blank;
    hide AcceptedAll, TextOf, Quoted, EndText, StuckEnd;
    NameCases(s);
    if Head(s) != QUOTE {
      p := NoName(before);
    } else if Unescape(s[1..]).rest == [] {
      p := OpenNamePart(before, s);
    } else {
      var rest := ParseString(s).rest;
      var name := LiteralPart(s);
      NulFreePart(Quoted(TextOf(name)), rest);
      var after := BlankPart(rest);
      var t := Skip(rest);
      NulFreePart(after, t);
      SkipsTo(rest);
      if Head(t) != COLON {
        NoColonThere(s);
        p := NoColon(before, name, after);
        Colonless(before, Quoted(TextOf(name)), after, t);
      } else {
        MemberBranch(s);
        FirstByte(t);
        NulFreePart([t[0]], t[1..]);
        var c := BlankPart(t[1..]);
        var u := Skip(t[1..]);
        NulFreePart(c, u);
        SkipsTo(t[1..]);
        var end := EndPart(c, u, CLOSE_BRACE);
        p := WithValue(before, name, after, end);
        ColonJoin(before, Quoted(TextOf(name)), after, EndText(end), StopsAt(u), c + u);
      }
    }
  }

  lemma Colonless(before: bytes, name: bytes, after: bytes, t: bytes)
    ensures before + name + after + t == before + (name + (after + t))
  {
  }

  lemma ColonJoin(before: bytes, name: bytes, after: bytes, end: bytes, at: bytes, value: bytes)
    requires end + at == value
    ensures before + name + after + [COLON] + end + at == before + (name + (after + ([COLON] + value)))
  {
    assert before + name + after + [COLON] + end + at == before + (name + (after + ([COLON] + (end + at))));
  }

  lemma NameCases(s: bytes)
    requires !ParseMember(s).Undefined?
    ensures Head(s) != QUOTE ==> ParseMember(s) == Fail(s)
    ensures Head(s) == QUOTE ==> ParseString(s).Ok? && Unescape(s[1..]).Ok?
    ensures Head(s) == QUOTE && Unescape(s[1..]).rest == [] ==> ParseString(s).rest == []
  {
    hide ParseValue, Unescape, Skip;
  }

  lemma OpenNamePart(before: bytes, s: bytes) returns (p: Stop)
    requires Blank(before) && NulFree(s) && Head(s) == QUOTE && ParseString(s).Ok? && ParseString(s).rest == []
    requires Unescape(s[1..]).Ok? && Unescape(s[1..]).rest == []
    ensures p.OpenName? && ParseMember(s) == Fail([]) && StuckStop(p, []) && StopText(p) + [] == before + s
  {
    hide ParseString, Unescape, AcceptedAll, TextOf, NulFree, ParseMember;
    FirstByte(s);
    NulFreePart([s[0]], s[1..]);
    var ps := LiteralPieces(s[1..]);
    p := OpenName(before, ps);
    assert TextOf(ps) + [] == TextOf(ps);
    assert before + s + [] == before + s;
    NoColonThere(s);
  }

  // Whole texts

  /** A text that breaks off, or a document with something behind it when the terminator is required. */
  datatype Failure = Left(broken: Broken) | Trailing(before: bytes, document: Document, after: bytes)

  function FailureText(x: Failure): bytes {
    match x
    case Left(f) => BrokenText(f)
    case Trailing(before, d, after) => before + DocumentText(d) + after
  }

  ghost predicate FailsAt(x: Failure, at: bytes, requireEnd: bool) {
    match x
    case Left(f) => Stuck(f, at)
    case Trailing(before, d, after) =>
      requireEnd && Blank(before) && Proper(d) && Blank(after) && Ends(d, after + at) && at != [] && NotBlank(at)
  }

  lemma FailureFails(x: Failure, at: bytes, requireEnd: bool)
    requires FailsAt(x, at, requireEnd)
    ensures ParseDocument(FailureText(x) + at, requireEnd) == Fail(at)
  {
    hide ParseValue, Skip, BrokenText, Stuck, DocumentText, Documents.Value, Proper, Ends;
    match x
    case Left(f) => Fails(f, at);
    case Trailing(before, d, after) =>
      var t := DocumentText(d);
      Start(d);
      assert before + t + after + at == before + (t + (after + at));
      SkipBlank(before, t + (after + at));
      SkipNothing(t, after + at);
      DocumentDenotes(d, after + at);
      SkipTo(after, at);
  }

  lemma FailurePart(s: bytes, requireEnd: bool) returns (x: Failure)
    requires NulFree(s) && ParseDocument(s, requireEnd).Fail?
    ensures var at := ParseDocument(s, requireEnd).at; FailsAt(x, at, requireEnd) && FailureText(x) + at == s
  {
    hide ParseValue, Skip, BrokenText, Stuck, DocumentText, Documents.Value, Proper, Ends, NulFree, Blank;
    var c := BlankPart(s);
    var t := Skip(s);
    NulFreePart(c, t);
    SkipsTo(s);
    if ParseValue(t).Fail? {
      var f := FailPart(c, t);
      x := Left(f);
    } else {
      var rest := ParseValue(t).rest;
      SkipNothingLeft(rest);
      ClosedValue(t);
      var d := ValuePart(t);
      var after := BlankPart(rest);
      SkipsTo(rest);
      DocumentDenotes(d, rest);
      x := Trailing(c, d, after);
      Colonless(c, DocumentText(d), after, Skip(rest));
    }
  }

  /**
   * A text fails at a position exactly when a document starts like what is before it and nothing fitting starts
   * there.
   */
  lemma FailsExactly(s: bytes, at: bytes, requireEnd: bool)
    requires NulFree(s)
    ensures ParseDocument(s, requireEnd) == Fail(at)
      <==> exists x :: FailsAt(x, at, requireEnd) && FailureText(x) + at == s
  {
    hide ParseDocument, FailsAt, FailureText;
    if ParseDocument(s, requireEnd) == Fail(at) {
      var x := FailurePart(s, requireEnd);
    }
    if x :| FailsAt(x, at, requireEnd) && FailureText(x) + at == s {
      FailureFails(x, at, requireEnd);
    }
  }
}
