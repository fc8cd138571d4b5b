/**
 * Every JSON document, however its tokens are spaced and written, parses to what it denotes, and nothing else is
 * accepted.
 */
module Documents {
  import opened Bytes
  import opened Json
  import opened ParseText
  import opened Numbers
  import opened Literals
  import opened Strings
  import opened RoundTrip
  import opened MinifyText

  /**
   * The grammar of section 2 of RFC 8259, more generous where the code is. Between tokens stand blanks, for which it
   * takes every control character but the terminator; numbers may be lenient (`Numbers.Lenient`), and strings are
   * those of `Literals`. `gap` is what an array or object without contents encloses.
   */
  datatype Document =
    | NullDocument
    | FalseDocument
    | TrueDocument
    | NumberDocument(literal: Numbers.Literal)
    | StringDocument(pieces: seq<Piece>)
    | ArrayDocument(gap: bytes, elements: seq<Element>)
    | ObjectDocument(gap: bytes, entries: seq<Entry>)

  datatype Element = Element(before: bytes, content: Document, after: bytes)

  /** `after` stands in front of the colon, the blanks of `value` around the value. */
  datatype Entry = Entry(before: bytes, name: seq<Piece>, after: bytes, value: Element)

  ghost predicate Proper(d: Document)
    decreases d, 0
  {
    match d
    case NumberDocument(l) => Lenient(l)
    case StringDocument(ps) => AcceptedAll(ps)
    case ArrayDocument(gap, es) => Blank(gap) && forall i :: 0 <= i < |es| ==> ProperElement(es[i])
    case ObjectDocument(gap, es) => Blank(gap) && forall i :: 0 <= i < |es| ==> ProperEntry(es[i])
    case _ => true
  }

  ghost predicate ProperElement(e: Element)
    decreases e, 1
  {
    Blank(e.before) && Blank(e.after) && Proper(e.content)
  }

  ghost predicate ProperEntry(e: Entry)
    decreases e, 1
  {
    Blank(e.before) && Blank(e.after) && AcceptedAll(e.name) && ProperElement(e.value)
  }

  function DocumentText(d: Document): bytes
    decreases d, 0
  {
    match d
    case NullDocument => NULL_WORD
    case FalseDocument => FALSE_WORD
    case TrueDocument => TRUE_WORD
    case NumberDocument(l) => LiteralText(l)
    case StringDocument(ps) => Quoted(TextOf(ps))
    case ArrayDocument(gap, es) => [OPEN_BRACKET] + (if es == [] then gap else ElementsText(es)) + [CLOSE_BRACKET]
    case ObjectDocument(gap, es) => [OPEN_BRACE] + (if es == [] then gap else EntriesText(es)) + [CLOSE_BRACE]
  }

  function ElementText(e: Element): bytes
    decreases e, 1
  {
    e.before + DocumentText(e.content) + e.after
  }

  function EntryText(e: Entry): bytes
    decreases e, 1
  {
    e.before + Quoted(TextOf(e.name)) + e.after + [COLON] + ElementText(e.value)
  }

  function ElementsText(es: seq<Element>): bytes
    requires es != []
    decreases es, 0
  {
    ElementText(es[0]) + if |es| == 1 then [] else [COMMA] + ElementsText(es[1..])
  }

  function EntriesText(es: seq<Entry>): bytes
    requires es != []
    decreases es, 0
  {
    EntryText(es[0]) + if |es| == 1 then [] else [COMMA] + EntriesText(es[1..])
  }

  /** What an accepted literal denotes. */
  ghost function Characters(ps: seq<Piece>): bytes {
    if AcceptedAll(ps) then MeaningOf(ps) else []
  }

  ghost function Value(d: Document): Json
    decreases d, 0
  {
    match d
    case NullDocument => Null
    case FalseDocument => False
    case TrueDocument => True
    case NumberDocument(l) => Number(Denotation(l))
    case StringDocument(ps) => String(Characters(ps))
    case ArrayDocument(_, es) => Array(Values(es))
    case ObjectDocument(_, es) => Object(Members(es))
  }

  ghost function Values(es: seq<Element>): seq<Json>
    decreases es, 0
  {
    if es == [] then [] else [ItemOf(es[0])] + Values(es[1..])
  }

  ghost function ItemOf(e: Element): Json
    decreases e, 1
  {
    Value(e.content)
  }

  ghost function Members(es: seq<Entry>): seq<Member>
    decreases es, 0
  {
    if es == [] then [] else [MemberOf(es[0])] + Members(es[1..])
  }

  ghost function MemberOf(e: Entry): Member
    decreases e, 1
  {
    Member(Characters(e.name), ItemOf(e.value))
  }

  /** What follows does not continue the document; only a number can be continued. */
  predicate Ends(d: Document, rest: bytes) {
    d.NumberDocument? ==> Stops(d.literal, rest)
  }

  /** Every document starts with a byte that is neither blank nor a closing bracket. */
  lemma Start(d: Document)
    requires Proper(d)
    ensures var t := DocumentText(d); t != [] && t[0] > 32 && t[0] != CLOSE_BRACKET && t[0] != CLOSE_BRACE
  {
    hide ElementsText, EntriesText, TextOf, ExponentText, FractionText;
  }

  /** A literal in its quotes, whatever follows. */
  lemma LiteralRead(ps: seq<Piece>, rest: bytes)
    requires AcceptedAll(ps)
    ensures ParseString(Quoted(TextOf(ps)) + rest) == Ok(MeaningOf(ps), rest)
  {
    hide Unescape, AcceptedAll, MeaningOf, TextOf, Quoted, ParseString;
    var t := Quoted(TextOf(ps)) + rest;
    QuotedThen(TextOf(ps), rest);
    LiteralDenotes(ps, [QUOTE] + rest);
    StringClosed(t);
  }

  /** What stands between the contents of brackets: blanks, and a byte that ends every number. */
  lemma EndsContent(d: Document, c: bytes, b: byte, y: bytes)
    requires Blank(c) && (b == COMMA || b == CLOSE_BRACKET || b == CLOSE_BRACE)
    ensures Ends(d, c + ([b] + y))
  {
    hide Stops;
    assert EndsNumber(c + ([b] + y));
    if d.NumberDocument? {
      EndsEvery(d.literal, c + ([b] + y));
    }
  }

  /**
   * A document is read to its end and its value is what it denotes, exactly when what follows does not continue it.
   */
  lemma {:induction false} DocumentDenotes(d: Document, rest: bytes)
    requires Proper(d)
    ensures ParseValue(DocumentText(d) + rest) == Ok(Value(d), rest) <==> Ends(d, rest)
    decreases d, 1
  {
    match d
    case NullDocument => WordBranch(NULL_WORD, rest);
    case FalseDocument => WordBranch(FALSE_WORD, rest);
    case TrueDocument => WordBranch(TRUE_WORD, rest);
    case NumberDocument(l) => NumberRead(l, rest);
    case StringDocument(ps) => StringRead(ps, rest);
    case ArrayDocument(gap, es) => ArrayRead(gap, es, rest);
    case ObjectDocument(gap, es) => ObjectRead(gap, es, rest);
  }

  lemma NumberRead(l: Numbers.Literal, rest: bytes)
    requires Lenient(l)
    ensures ParseValue(LiteralText(l) + rest) == Ok(Number(Denotation(l)), rest) <==> Stops(l, rest)
  {
    hide ScanNumber, NumberValue, Denotation, ParseValue, Stops;
    NumberDenotation(l, rest);
    NumberStart(l, rest);
    NumberBranch(LiteralText(l) + rest);
  }

  lemma NumberStart(l: Numbers.Literal, rest: bytes)
    requires Lenient(l)
    ensures var s := LiteralText(l) + rest; s != [] && (s[0] == MINUS || IsDigit(s[0]))
  {
    hide ExponentText, FractionText;
  }

  lemma StringRead(ps: seq<Piece>, rest: bytes)
    requires AcceptedAll(ps)
    ensures ParseValue(Quoted(TextOf(ps)) + rest) == Ok(String(MeaningOf(ps)), rest)
  {
    hide ParseValue, ParseString, TextOf, MeaningOf, AcceptedAll;
    LiteralRead(ps, rest);
    StringBranch(Quoted(TextOf(ps)) + rest);
  }

  lemma {:induction false} ArrayRead(gap: bytes, es: seq<Element>, rest: bytes)
    requires Proper(ArrayDocument(gap, es))
    ensures ParseValue(DocumentText(ArrayDocument(gap, es)) + rest) == Ok(Value(ArrayDocument(gap, es)), rest)
    decreases es, 3
  {
    hide ParseValue, ParseItems, Skip, ElementsText, Values, ProperElement;
    var s, end := DocumentText(ArrayDocument(gap, es)) + rest, [CLOSE_BRACKET] + rest;
    ArrayBranch(s);
    if es == [] {
      assert s[1..] == gap + end;
      GapThen(gap, CLOSE_BRACKET, rest);
      assert Values(es) == [] by { NoValues(); }
    } else {
      assert s[1..] == ElementsText(es) + end;
      ElementsRead(es, rest);
    }
  }

  lemma NoValues()
    ensures Values([]) == [] && Members([]) == []
  {
  }

  /** The elements, cut after the first; `tail` starts at the comma or the bracket behind it. */
  lemma ElementsCut(es: seq<Element>, end: bytes) returns (tail: bytes)
    requires es != []
    ensures tail == if |es| == 1 then end else [COMMA] + (ElementsText(es[1..]) + end)
    ensures ElementsText(es) + end == ElementText(es[0]) + tail
  {
    hide ElementText;
    tail := if |es| == 1 then end else [COMMA] + (ElementsText(es[1..]) + end);
  }

  /** An element in front of a comma or a bracket. */
  lemma {:induction false} ElementRead(e: Element, b: byte, y: bytes)
    requires ProperElement(e) && (b == COMMA || b == CLOSE_BRACKET || b == CLOSE_BRACE)
    ensures
      var s := Skip(ElementText(e) + ([b] + y));
      && Head(s) != CLOSE_BRACKET && Head(s) != CLOSE_BRACE
      && ParseValue(s) == Ok(ItemOf(e), e.after + ([b] + y))
      && Skip(e.after + ([b] + y)) == [b] + y
    decreases e, 2
  {
    hide ParseValue, DocumentText, Value, Proper, Ends, Skip;
    var t, tail := DocumentText(e.content), [b] + y;
    Start(e.content);
    assert ElementText(e) + tail == e.before + (t + (e.after + tail));
    SkipBlank(e.before, t + (e.after + tail));
    SkipNothing(t, e.after + tail);
    EndsContent(e.content, e.after, b, y);
    DocumentDenotes(e.content, e.after + tail);
    GapThen(e.after, b, y);
  }

  lemma ValuesStep(es: seq<Element>)
    requires es != []
    ensures Values(es) == [ItemOf(es[0])] + Values(es[1..])
  {
    hide ItemOf;
  }

  lemma {:induction false} ElementsRead(es: seq<Element>, rest: bytes)
    requires es != [] && forall i :: 0 <= i < |es| ==> ProperElement(es[i])
    ensures
      var s := Skip(ElementsText(es) + ([CLOSE_BRACKET] + rest));
      Head(s) != CLOSE_BRACKET && ParseItems(s) == Ok(Values(es), rest)
    decreases es, 2
  {
    hide ParseValue, ParseItems, Skip, ElementText, ElementsText, Values, ItemOf, ProperElement;
    var end := [CLOSE_BRACKET] + rest;
    var tail := ElementsCut(es, end);
    var s := Skip(ElementsText(es) + end);
    ValuesStep(es);
    ItemsTurn(s);
    if |es| == 1 {
      ElementRead(es[0], CLOSE_BRACKET, rest);
      assert end[1..] == rest;
      assert Values(es[1..]) == [] by {
        assert es[1..] == [];
        NoValues();
      }
    } else {
      var more := ElementsText(es[1..]) + end;
      ElementRead(es[0], COMMA, more);
      assert tail[1..] == more;
      ElementsRead(es[1..], rest);
    }
  }

  lemma {:induction false} ObjectRead(gap: bytes, es: seq<Entry>, rest: bytes)
    requires Proper(ObjectDocument(gap, es))
    ensures ParseValue(DocumentText(ObjectDocument(gap, es)) + rest) == Ok(Value(ObjectDocument(gap, es)), rest)
    decreases es, 4
  {
    hide ParseValue, ParseMembers, Skip, EntriesText, Members, ProperEntry;
    var s, end := DocumentText(ObjectDocument(gap, es)) + rest, [CLOSE_BRACE] + rest;
    ObjectBranch(s);
    if es == [] {
      assert s[1..] == gap + end;
      GapThen(gap, CLOSE_BRACE, rest);
      assert Members(es) == [] by { NoValues(); }
    } else {
      assert s[1..] == EntriesText(es) + end;
      EntriesRead(es, rest);
    }
  }

  /** The entries, cut after the first; `tail` starts at the comma or the brace behind it. */
  lemma EntriesCut(es: seq<Entry>, end: bytes) returns (tail: bytes)
    requires es != []
    ensures tail == if |es| == 1 then end else [COMMA] + (EntriesText(es[1..]) + end)
    ensures EntriesText(es) + end == EntryText(es[0]) + tail
  {
    hide EntryText;
    tail := if |es| == 1 then end else [COMMA] + (EntriesText(es[1..]) + end);
  }

  lemma EntryCut(e: Entry, tail: bytes)
    ensures EntryText(e) + tail
      == e.before + (Quoted(TextOf(e.name)) + (e.after + ([COLON] + (ElementText(e.value) + tail))))
  {
    hide ElementText, TextOf, Quoted;
  }

  /** An entry in front of a comma or a brace: name, colon and value. */
  lemma {:induction false} EntryRead(e: Entry, b: byte, y: bytes)
    requires ProperEntry(e) && (b == COMMA || b == CLOSE_BRACE)
    ensures
      var s := Skip(EntryText(e) + ([b] + y));
      && Head(s) != CLOSE_BRACE
      && ParseMember(s) == Ok(MemberOf(e), e.value.after + ([b] + y))
      && Skip(e.value.after + ([b] + y)) == [b] + y
    decreases e, 3
  {
    hide ParseValue, ParseString, ParseMember, ItemOf, ProperElement, Skip;
    hide EntryText, ElementText, TextOf, AcceptedAll, MeaningOf, Quoted;
    var name, value := Quoted(TextOf(e.name)), ElementText(e.value) + ([b] + y);
    var behind := e.after + ([COLON] + value);
    EntryCut(e, [b] + y);
    QuotedThen(TextOf(e.name), behind);
    SkipBlank(e.before, name + behind);
    OpeningQuote(TextOf(e.name));
    SkipNothing(name, behind);
    LiteralRead(e.name, behind);
    GapThen(e.after, COLON, value);
    ElementRead(e.value, b, y);
    MemberBranch(name + behind);
  }

  lemma OpeningQuote(body: bytes)
    ensures Quoted(body) != [] && Quoted(body)[0] == QUOTE
  {
  }

  lemma MembersStep(es: seq<Entry>)
    requires es != []
    ensures Members(es) == [MemberOf(es[0])] + Members(es[1..])
  {
    hide MemberOf;
  }

  lemma {:induction false} EntriesRead(es: seq<Entry>, rest: bytes)
    requires es != [] && forall i :: 0 <= i < |es| ==> ProperEntry(es[i])
    ensures
      var s := Skip(EntriesText(es) + ([CLOSE_BRACE] + rest));
      Head(s) != CLOSE_BRACE && ParseMembers(s) == Ok(Members(es), rest)
    decreases es, 3
  {
    hide ParseMember, ParseMembers, Skip, EntryText, EntriesText, Members, MemberOf, ProperEntry;
    var end := [CLOSE_BRACE] + rest;
    var tail := EntriesCut(es, end);
    var s := Skip(EntriesText(es) + end);
    MembersStep(es);
    MembersTurn(s);
    if |es| == 1 {
      EntryRead(es[0], CLOSE_BRACE, rest);
      assert end[1..] == rest;
      assert Members(es[1..]) == [] by {
        assert es[1..] == [];
        NoValues();
      }
    } else {
      var more := EntriesText(es[1..]) + end;
      EntryRead(es[0], COMMA, more);
      assert tail[1..] == more;
      EntriesRead(es[1..], rest);
    }
  }

  /** A whole text: blanks, a document, blanks. */
  lemma TextDenotes(before: bytes, d: Document, after: bytes)
    requires Blank(before) && Proper(d) && Blank(after)
    ensures ParseDocument(before + DocumentText(d) + after, true) == Ok(Value(d), [])
  {
    hide ParseValue, DocumentText, Value, Proper, Ends, Skip;
    var t := DocumentText(d);
    Start(d);
    assert before + t + after == before + (t + after);
    SkipBlank(before, t + after);
    SkipNothing(t, after);
    BlankEnds(d, after);
    DocumentDenotes(d, after);
    SkipBlank(after, []);
    assert after + [] == after;
    ShrinkEnd();
  }

  lemma BlankEnds(d: Document, after: bytes)
    requires Blank(after)
    ensures Ends(d, after)
  {
    hide Stops;
    if d.NumberDocument? {
      EndsEvery(d.literal, after);
    }
  }

  // Conversely, whatever is accepted is such a document

  lemma {:induction false} BlankPart(s: bytes) returns (c: bytes)
    ensures Blank(c) && s == c + Skip(s)
  {
    if s != [] && 1 <= s[0] <= 32 {
      var more := BlankPart(s[1..]);
      c := [s[0]] + more;
      assert s == [s[0]] + s[1..];
    } else {
      c := [];
    }
  }

  lemma NulFreePart(c: bytes, t: bytes)
    requires NulFree(c + t)
    ensures NulFree(t)
  {
    assert forall i :: 0 <= i < |t| ==> t[i] == (c + t)[|c| + i];
  }

  lemma FirstByte(s: bytes)
    requires s != []
    ensures s == [s[0]] + s[1..]
  {
  }

  lemma Enclosed(s: bytes, inner: bytes, close: byte, rest: bytes)
    requires s != [] && s[1..] == inner + ([close] + rest)
    ensures s == [s[0]] + inner + [close] + rest
  {
    FirstByte(s);
  }

  /** A literal at the start of a text, closed behind. */
  lemma LiteralPart(s: bytes) returns (ps: seq<Piece>)
    requires NulFree(s) && ParseString(s).Ok? && Unescape(s[1..]).rest != []
    ensures AcceptedAll(ps) && s == Quoted(TextOf(ps)) + ParseString(s).rest && Characters(ps) == ParseString(s).value
  {
    hide Unescape, ParseString, TextOf, AcceptedAll, MeaningOf;
    Opened(s);
    StringClosed(s);
    assert s == [s[0]] + s[1..];
    NulFreePart([s[0]], s[1..]);
    ps := LiteralPieces(s[1..]);
    var q := Unescape(s[1..]).rest;
    assert q == [q[0]] + q[1..];
  }

  lemma {:induction false} ValuePart(s: bytes) returns (d: Document)
    requires NulFree(s) && ParseValue(s).Ok? && MinifyText.Closed(s)
    ensures Proper(d) && s == DocumentText(d) + ParseValue(s).rest && Value(d) == ParseValue(s).value
    decreases |s|, 1
  {
    hide ParseValue, ScanNumber, NumberValue, Denotation, Lenient, LiteralText;
    hide ParseString, Unescape, AcceptedAll, TextOf;
    FirstByteBranch(s);
    if StartsWith(s, NULL_WORD) {
      d := NullDocument;
      assert s == NULL_WORD + s[4..];
    } else if StartsWith(s, FALSE_WORD) {
      d := FalseDocument;
      assert s == FALSE_WORD + s[5..];
    } else if StartsWith(s, TRUE_WORD) {
      d := TrueDocument;
      assert s == TRUE_WORD + s[4..];
    } else if s[0] == QUOTE {
      StringBranch(s);
      ClosedLiteral(s);
      var ps := LiteralPart(s);
      d := StringDocument(ps);
    } else if s[0] == MINUS || IsDigit(s[0]) {
      NumberBranch(s);
      var l := NumberLiteral(s);
      d := NumberDocument(l);
    } else if s[0] == OPEN_BRACKET {
      d := ArrayPart(s);
    } else {
      d := ObjectPart(s);
    }
  }

  lemma ClosedLiteral(s: bytes)
    requires s != [] && s[0] == QUOTE && ParseString(s).Ok? && MinifyText.Closed(s)
    ensures Unescape(s[1..]).rest != []
  {
    hide Unescape;
    PassesAgree(s[1..]);
  }

  lemma {:induction false} ArrayPart(s: bytes) returns (d: Document)
    requires NulFree(s) && s != [] && s[0] == OPEN_BRACKET && ParseValue(s).Ok?
    ensures Proper(d) && s == DocumentText(d) + ParseValue(s).rest && Value(d) == ParseValue(s).value
    decreases |s|, 0
  {
    hide ParseValue, ParseItems, Skip, ElementsText, ProperElement, Values, NulFree;
    ArrayBranch(s);
    FirstByte(s);
    NulFreePart([s[0]], s[1..]);
    var c := BlankPart(s[1..]);
    var t := Skip(s[1..]);
    if Head(t) == CLOSE_BRACKET {
      d := ArrayDocument(c, []);
      FirstByte(t);
      Enclosed(s, c, CLOSE_BRACKET, t[1..]);
      NoValues();
    } else {
      NulFreePart(c, t);
      var es := ElementsPart(c, t);
      d := ArrayDocument([], es);
      Enclosed(s, ElementsText(es), CLOSE_BRACKET, ParseItems(t).rest);
    }
  }

  /** The elements from the start of one of them, which blanks precede. */
  lemma {:induction false} ElementsPart(before: bytes, s: bytes) returns (es: seq<Element>)
    requires Blank(before) && NulFree(s) && ParseItems(s).Ok?
    ensures es != [] && forall i :: 0 <= i < |es| ==> ProperElement(es[i])
    ensures before + s == ElementsText(es) + ([CLOSE_BRACKET] + ParseItems(s).rest) && Values(es) == ParseItems(s).value
    decreases |s|, 2
  {
    hide ParseValue, ParseItems, Skip, DocumentText, ElementText, ElementsText, Value, Values, Proper, NulFree, Blank;
    ItemsTurn(s);
    var v := ParseValue(s);
    var t := Skip(v.rest);
    ClosedValue(s);
    var d := ValuePart(s);
    NulFreePart(DocumentText(d), v.rest);
    var after := BlankPart(v.rest);
    NulFreePart(after, t);
    var e := Element(before, d, after);
    FirstByte(t);
    ElementJoin(e, t);
    if t[0] == CLOSE_BRACKET {
      es := [e];
      OneElement(e);
    } else {
      NulFreePart([t[0]], t[1..]);
      var c := BlankPart(t[1..]);
      NulFreePart(c, Skip(t[1..]));
      var more := ElementsPart(c, Skip(t[1..]));
      es := [e] + more;
      ElementsJoin(e, more, [CLOSE_BRACKET] + ParseItems(Skip(t[1..])).rest);
    }
  }

  lemma ElementJoin(e: Element, t: bytes)
    ensures e.before + (DocumentText(e.content) + (e.after + t)) == ElementText(e) + t
  {
    hide DocumentText;
  }

  lemma OneElement(e: Element)
    ensures ElementsText([e]) == ElementText(e) && Values([e]) == [ItemOf(e)]
  {
    hide ElementText, ItemOf;
    NoValues();
    assert [e][1..] == [];
    assert ElementText(e) + [] == ElementText(e);
  }

  lemma ElementsJoin(e: Element, more: seq<Element>, end: bytes)
    requires more != []
    ensures ElementText(e) + ([COMMA] + (ElementsText(more) + end)) == ElementsText([e] + more) + end
    ensures Values([e] + more) == [ItemOf(e)] + Values(more)
  {
    hide ElementText, ItemOf;
    assert ([e] + more)[1..] == more;
  }

  lemma {:induction false} ObjectPart(s: bytes) returns (d: Document)
    requires NulFree(s) && s != [] && s[0] == OPEN_BRACE && ParseValue(s).Ok?
    ensures Proper(d) && s == DocumentText(d) + ParseValue(s).rest && Value(d) == ParseValue(s).value
    decreases |s|, 0
  {
    hide ParseValue, ParseMembers, Skip, EntriesText, ProperEntry, Members, NulFree;
    ObjectBranch(s);
    FirstByte(s);
    NulFreePart([s[0]], s[1..]);
    var c := BlankPart(s[1..]);
    var t := Skip(s[1..]);
    if Head(t) == CLOSE_BRACE {
      d := ObjectDocument(c, []);
      FirstByte(t);
      Enclosed(s, c, CLOSE_BRACE, t[1..]);
      NoValues();
    } else {
      NulFreePart(c, t);
      var es := EntriesPart(c, t);
      d := ObjectDocument([], es);
      Enclosed(s, EntriesText(es), CLOSE_BRACE, ParseMembers(t).rest);
    }
  }

  /** One member, which blanks precede, and the blanks behind it. */
  lemma {:induction false} EntryPart(before: bytes, s: bytes) returns (e: Entry)
    requires Blank(before) && NulFree(s) && ParseMember(s).Ok? && ParseMember(s).rest != []
    ensures ProperEntry(e) && MemberOf(e) == ParseMember(s).value
    ensures before + s == EntryText(e) + Skip(ParseMember(s).rest) && NulFree(Skip(ParseMember(s).rest))
    decreases |s|, 2
  {
    hide ParseValue, ParseString, ParseMember, Skip, Unescape, DocumentText, Value, Proper, NulFree, Blank;
    hide AcceptedAll, TextOf, Quoted, EntryText;
    MemberSteps(s);
    MemberBranch(s);
    var k := ParseString(s);
    var t := Skip(k.rest);
    ClosedName(s);
    var name := LiteralPart(s);
    NulFreePart(Quoted(TextOf(name)), k.rest);
    var after := BlankPart(k.rest);
    NulFreePart(after, t);
    FirstByte(t);
    NulFreePart([COLON], t[1..]);
    var c := BlankPart(t[1..]);
    var u := Skip(t[1..]);
    NulFreePart(c, u);
    ClosedValue(u);
    var d := ValuePart(u);
    var v := ParseValue(u);
    NulFreePart(DocumentText(d), v.rest);
    var behind := BlankPart(v.rest);
    NulFreePart(behind, Skip(v.rest));
    e := Entry(before, name, after, Element(c, d, behind));
    EntryJoin(e, Skip(v.rest));
  }

  lemma EntryJoin(e: Entry, rest: bytes)
    ensures
      var value := e.value.before + (DocumentText(e.value.content) + (e.value.after + rest));
      e.before + (Quoted(TextOf(e.name)) + (e.after + ([COLON] + value))) == EntryText(e) + rest
  {
    hide DocumentText, TextOf, Quoted;
    EntryCut(e, rest);
  }

  lemma {:induction false} EntriesPart(before: bytes, s: bytes) returns (es: seq<Entry>)
    requires Blank(before) && NulFree(s) && ParseMembers(s).Ok?
    ensures es != [] && forall i :: 0 <= i < |es| ==> ProperEntry(es[i])
    ensures before + s == EntriesText(es) + ([CLOSE_BRACE] + ParseMembers(s).rest)
    ensures Members(es) == ParseMembers(s).value
    decreases |s|, 3
  {
    hide ParseMember, ParseMembers, Skip, EntryText, EntriesText, MemberOf, Members, ProperEntry, NulFree, Blank;
    MembersTurn(s);
    var t := Skip(ParseMember(s).rest);
    var e := EntryPart(before, s);
    FirstByte(t);
    if t[0] == CLOSE_BRACE {
      es := [e];
      OneEntry(e);
    } else {
      NulFreePart([t[0]], t[1..]);
      var c := BlankPart(t[1..]);
      NulFreePart(c, Skip(t[1..]));
      var more := EntriesPart(c, Skip(t[1..]));
      es := [e] + more;
      EntriesJoin(e, more, [CLOSE_BRACE] + ParseMembers(Skip(t[1..])).rest);
    }
  }

  lemma OneEntry(e: Entry)
    ensures EntriesText([e]) == EntryText(e) && Members([e]) == [MemberOf(e)]
  {
    hide EntryText, MemberOf;
    NoValues();
    assert [e][1..] == [];
    assert EntryText(e) + [] == EntryText(e);
  }

  lemma EntriesJoin(e: Entry, more: seq<Entry>, end: bytes)
    requires more != []
    ensures EntryText(e) + ([COMMA] + (EntriesText(more) + end)) == EntriesText([e] + more) + end
    ensures Members([e] + more) == [MemberOf(e)] + Members(more)
  {
    hide EntryText, MemberOf;
    assert ([e] + more)[1..] == more;
  }

  // Whole texts

  /** What is accepted to the terminator: a document between blanks, or a string on its own that is never closed. */
  datatype Text =
    | Whole(before: bytes, document: Document, after: bytes)
    | Unclosed(before: bytes, pieces: seq<Piece>)

  ghost predicate ProperText(x: Text) {
    match x
    case Whole(before, d, after) => Blank(before) && Proper(d) && Blank(after)
    case Unclosed(before, ps) => Blank(before) && AcceptedAll(ps)
  }

  function Written(x: Text): bytes {
    match x
    case Whole(before, d, after) => before + DocumentText(d) + after
    case Unclosed(before, ps) => before + ([QUOTE] + TextOf(ps))
  }

  ghost function Meant(x: Text): Json {
    match x
    case Whole(_, d, _) => Value(d)
    case Unclosed(_, ps) => String(Characters(ps))
  }

  lemma TextAccepted(x: Text)
    requires ProperText(x)
    ensures ParseDocument(Written(x), true) == Ok(Meant(x), [])
  {
    hide ParseDocument, Proper, AcceptedAll, DocumentText, Value, TextOf, Characters;
    match x
    case Whole(before, d, after) => TextDenotes(before, d, after);
    case Unclosed(before, ps) => UnclosedDenotes(before, ps);
  }

  lemma UnclosedDenotes(before: bytes, ps: seq<Piece>)
    requires Blank(before) && AcceptedAll(ps)
    ensures ParseDocument(before + ([QUOTE] + TextOf(ps)), true) == Ok(String(Characters(ps)), [])
  {
    hide ParseValue, AcceptedAll, TextOf, MeaningOf, Unescape;
    var t := [QUOTE] + TextOf(ps);
    SkipBlank(before, t);
    assert t[1..] == TextOf(ps) + [];
    LiteralDenotes(ps, []);
    StringBranch(t);
  }

  lemma AcceptedText(s: bytes) returns (x: Text)
    requires NulFree(s) && ParseDocument(s, true).Ok?
    ensures ProperText(x) && Written(x) == s && Meant(x) == ParseDocument(s, true).value
  {
    hide ParseValue, Proper, AcceptedAll, DocumentText, Value, TextOf, Characters, NulFree;
    var before := BlankPart(s);
    var t := Skip(s);
    NulFreePart(before, t);
    if MinifyText.Closed(t) {
      var d := ValuePart(t);
      var after := BlankPart(ParseValue(t).rest);
      x := Whole(before, d, after);
      assert after + [] == after;
    } else {
      var ps := UnclosedPart(t);
      x := Unclosed(before, ps);
    }
  }

  lemma UnclosedPart(t: bytes) returns (ps: seq<Piece>)
    requires NulFree(t) && ParseValue(t).Ok? && !MinifyText.Closed(t)
    ensures AcceptedAll(ps) && t == [QUOTE] + TextOf(ps) && ParseValue(t).value == String(Characters(ps))
  {
    hide ParseValue, Unescape, AcceptedAll, TextOf, MeaningOf;
    StringBranch(t);
    assert t == [QUOTE] + t[1..];
    NulFreePart([QUOTE], t[1..]);
    PassesAgree(t[1..]);
    ps := LiteralPieces(t[1..]);
    assert TextOf(ps) + [] == TextOf(ps);
  }

  /** The texts that the parser accepts to their terminator are exactly these. */
  lemma AcceptedExactly(s: bytes)
    requires NulFree(s)
    ensures ParseDocument(s, true).Ok? <==> exists x :: ProperText(x) && Written(x) == s
  {
    hide ParseDocument, ProperText, Written;
    if ParseDocument(s, true).Ok? {
      var x := AcceptedText(s);
    }
    if x :| ProperText(x) && Written(x) == s {
      TextAccepted(x);
    }
  }

  // Texts of which only the start is parsed

  /** The start of a text: a document between blanks and a rest that does not continue it, or a string never closed. */
  ghost predicate ProperStart(x: Text) {
    match x
    case Whole(before, d, rest) => Blank(before) && Proper(d) && Ends(d, rest)
    case Unclosed(before, ps) => Blank(before) && AcceptedAll(ps)
  }

  /** What is left behind it. */
  function Left(x: Text): bytes {
    match x
    case Whole(_, _, rest) => rest
    case Unclosed(_, _) => []
  }

  /**
   * Blanks and a document in front of any text: its value, and that text is left, exactly when it does not continue
   * it.
   */
  lemma StartDenotes(before: bytes, d: Document, rest: bytes)
    requires Blank(before) && Proper(d)
    ensures ParseDocument(before + DocumentText(d) + rest, false) == Ok(Value(d), rest) <==> Ends(d, rest)
  {
    hide ParseValue, DocumentText, Value, Proper, Ends, Skip;
    var t := DocumentText(d);
    Start(d);
    assert before + t + rest == before + (t + rest);
    SkipBlank(before, t + rest);
    SkipNothing(t, rest);
    DocumentDenotes(d, rest);
  }

  lemma UnclosedStart(before: bytes, ps: seq<Piece>)
    requires Blank(before) && AcceptedAll(ps)
    ensures ParseDocument(before + ([QUOTE] + TextOf(ps)), false) == Ok(String(Characters(ps)), [])
  {
    hide ParseValue, AcceptedAll, TextOf, MeaningOf, Unescape;
    var t := [QUOTE] + TextOf(ps);
    SkipBlank(before, t);
    assert t[1..] == TextOf(ps) + [];
    LiteralDenotes(ps, []);
    StringBranch(t);
  }

  lemma StartAccepted(x: Text)
    requires ProperStart(x)
    ensures ParseDocument(Written(x), false) == Ok(Meant(x), Left(x))
  {
    hide ParseDocument, Proper, AcceptedAll, DocumentText, Value, TextOf, Characters, Ends;
    match x
    case Whole(before, d, rest) => StartDenotes(before, d, rest);
    case Unclosed(before, ps) => UnclosedStart(before, ps);
  }

  lemma AcceptedStart(s: bytes) returns (x: Text)
    requires NulFree(s) && ParseDocument(s, false).Ok?
    ensures ProperStart(x) && Written(x) == s && ParseDocument(s, false) == Ok(Meant(x), Left(x))
  {
    hide ParseValue, Proper, AcceptedAll, DocumentText, Value, TextOf, Characters, NulFree, Ends;
    var before := BlankPart(s);
    var t := Skip(s);
    NulFreePart(before, t);
    if MinifyText.Closed(t) {
      var d := ValuePart(t);
      x := Whole(before, d, ParseValue(t).rest);
      DocumentDenotes(d, ParseValue(t).rest);
      Assoc(before, DocumentText(d), ParseValue(t).rest);
    } else {
      var ps := UnclosedPart(t);
      x := Unclosed(before, ps);
      UnclosedStart(before, ps);
    }
  }

  /** Without a terminator required, the texts that are accepted are exactly those that start like this. */
  lemma StartExactly(s: bytes)
    requires NulFree(s)
    ensures ParseDocument(s, false).Ok? <==> exists x :: ProperStart(x) && Written(x) == s
  {
    hide ParseDocument, ProperStart, Written;
    if ParseDocument(s, false).Ok? {
      var x := AcceptedStart(s);
    }
    if x :| ProperStart(x) && Written(x) == s {
      StartAccepted(x);
    }
  }
}
