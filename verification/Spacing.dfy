/** Minifying a JSON document takes out the white space and the comments between its tokens, and nothing else. */
module Spacing {
  import opened Bytes
  import opened ParseText
  import opened Numbers
  import opened Literals
  import opened Strings
  import opened MinifyText
  import opened Documents

  /**
   * What minifying knows between tokens: white space (section 2 of RFC 8259), comments to the end of a line, which
   * they leave, and block comments.
   */
  datatype Gap = White(c: byte) | Line(body: bytes) | Block(body: bytes)

  /** A star and a slash, one behind the other. */
  predicate EndAt(s: bytes, i: int) {
    0 <= i < |s| - 1 && s[i] == STAR && s[i + 1] == SLASH
  }

  ghost predicate HasEnd(s: bytes) {
    exists i :: EndAt(s, i)
  }

  predicate OneLine(body: bytes) {
    forall i :: 0 <= i < |body| ==> body[i] != NEWLINE
  }

  /** The star that opens a block comment must not be the one that closes it. */
  ghost predicate ProperGap(g: Gap) {
    match g
    case White(c) => c == 9 || c == 10 || c == 13 || c == 32
    case Line(body) => OneLine(body)
    case Block(body) => !HasEnd(body) && Head(body) != SLASH
  }

  function GapText(g: Gap): bytes {
    match g
    case White(c) => [c]
    case Line(body) => [SLASH, SLASH] + body + [NEWLINE]
    case Block(body) => [SLASH, STAR] + body + [STAR, SLASH]
  }

  function GapsText(gs: seq<Gap>): bytes {
    if gs == [] then [] else GapText(gs[0]) + GapsText(gs[1..])
  }

  ghost predicate Space(s: bytes) {
    exists gs :: GapsText(gs) == s && forall i :: 0 <= i < |gs| ==> ProperGap(gs[i])
  }

  /** A document of JSON tokens, lenient numbers among them, between which such text stands. */
  ghost predicate Spaced(d: Document)
    decreases d, 0
  {
    match d
    case NumberDocument(l) => Lenient(l)
    case StringDocument(ps) => AcceptedAll(ps)
    case ArrayDocument(gap, es) => Space(gap) && forall i :: 0 <= i < |es| ==> SpacedElement(es[i])
    case ObjectDocument(gap, es) => Space(gap) && forall i :: 0 <= i < |es| ==> SpacedEntry(es[i])
    case _ => true
  }

  ghost predicate SpacedElement(e: Element)
    decreases e, 1
  {
    Space(e.before) && Space(e.after) && Spaced(e.content)
  }

  ghost predicate SpacedEntry(e: Entry)
    decreases e, 1
  {
    Space(e.before) && Space(e.after) && AcceptedAll(e.name) && SpacedElement(e.value)
  }

  /** The same tokens without anything between them. */
  function Bare(d: Document): Document
    decreases d, 0
  {
    match d
    case ArrayDocument(_, es) => ArrayDocument([], BareElements(es))
    case ObjectDocument(_, es) => ObjectDocument([], BareEntries(es))
    case _ => d
  }

  function BareElement(e: Element): Element
    decreases e, 1
  {
    Element([], Bare(e.content), [])
  }

  function BareEntry(e: Entry): Entry
    decreases e, 1
  {
    Entry([], e.name, [], BareElement(e.value))
  }

  function BareElements(es: seq<Element>): (bs: seq<Element>)
    ensures |bs| == |es| && forall i :: 0 <= i < |es| ==> bs[i] == BareElement(es[i])
    decreases es, 0
  {
    if es == [] then [] else [BareElement(es[0])] + BareElements(es[1..])
  }

  function BareEntries(es: seq<Entry>): (bs: seq<Entry>)
    ensures |bs| == |es| && forall i :: 0 <= i < |es| ==> bs[i] == BareEntry(es[i])
    decreases es, 0
  {
    if es == [] then [] else [BareEntry(es[0])] + BareEntries(es[1..])
  }

  // It denotes the same

  lemma {:induction false} BareDenotes(d: Document)
    requires Spaced(d)
    ensures Proper(Bare(d)) && Value(Bare(d)) == Value(d)
    decreases d, 0
  {
    hide Space, Lenient, AcceptedAll;
    match d
    case ArrayDocument(gap, es) =>
      BareValues(es);
    case ObjectDocument(gap, es) =>
      BareMembers(es);
    case _ =>
  }

  lemma {:induction false} BareElementDenotes(e: Element)
    requires SpacedElement(e)
    ensures ProperElement(BareElement(e)) && ItemOf(BareElement(e)) == ItemOf(e)
    decreases e, 1
  {
    hide Proper, Value, Bare, Space, Spaced;
    BareDenotes(e.content);
  }

  lemma {:induction false} BareValues(es: seq<Element>)
    requires forall i :: 0 <= i < |es| ==> SpacedElement(es[i])
    ensures forall i :: 0 <= i < |es| ==> ProperElement(BareElements(es)[i])
    ensures Values(BareElements(es)) == Values(es)
    decreases es, 0
  {
    hide ProperElement, SpacedElement, ItemOf, BareElement;
    if es != [] {
      BareElementDenotes(es[0]);
      BareValues(es[1..]);
      assert BareElements(es)[1..] == BareElements(es[1..]);
    }
  }

  lemma {:induction false} BareMembers(es: seq<Entry>)
    requires forall i :: 0 <= i < |es| ==> SpacedEntry(es[i])
    ensures forall i :: 0 <= i < |es| ==> ProperEntry(BareEntries(es)[i])
    ensures Members(BareEntries(es)) == Members(es)
    decreases es, 0
  {
    hide ProperElement, SpacedElement, ItemOf, BareElement, Characters, AcceptedAll, Space;
    if es != [] {
      BareElementDenotes(es[0].value);
      BareMembers(es[1..]);
      assert BareEntries(es)[1..] == BareEntries(es[1..]);
    }
  }

  // Minifying it

  lemma {:induction false} LineEnds(body: bytes, y: bytes)
    requires OneLine(body) && (y == [] || y[0] == NEWLINE)
    ensures AfterLine(body + y) == y
  {
    var s := body + y;
    if body == [] {
      assert s == y;
    } else {
      assert s[1..] == body[1..] + y;
      LineEnds(body[1..], y);
    }
  }

  lemma {:induction false} CommentEnds(body: bytes, x: bytes)
    requires !HasEnd(body)
    ensures CommentEnd(body + ([STAR, SLASH] + x)) == [STAR, SLASH] + x
  {
    var y := [STAR, SLASH] + x;
    var s := body + y;
    if body == [] {
      assert s == y;
    } else {
      assert s[1..] == body[1..] + y && s[0] == body[0];
      assert |body| >= 2 ==> s[1] == body[1];
      EndShifted(body);
      assert |body| >= 2 && body[0] == STAR ==> !EndAt(body, 0);
      CommentEnds(body[1..], x);
    }
  }

  lemma EndShifted(s: bytes)
    requires s != []
    ensures HasEnd(s[1..]) ==> HasEnd(s)
    ensures HasEnd(s) && !(s[0] == STAR && Head(s[1..]) == SLASH) ==> HasEnd(s[1..])
  {
    if HasEnd(s[1..]) {
      var i :| EndAt(s[1..], i);
      assert EndAt(s, i + 1);
    }
    if HasEnd(s) && !(s[0] == STAR && Head(s[1..]) == SLASH) {
      var i :| EndAt(s, i);
      assert EndAt(s[1..], i - 1);
    }
  }

  lemma ShrinkLine(body: bytes, y: bytes)
    requires OneLine(body) && (y == [] || y[0] == NEWLINE)
    ensures Shrink([SLASH, SLASH] + body + y) == Shrink(y)
  {
    var s := [SLASH, SLASH] + body + y;
    LineEnds([SLASH, SLASH] + body, y);
    assert s[1] == SLASH;
  }

  /** The turn at a slash and a star. */
  lemma CommentTurn(s: bytes)
    requires |s| >= 2 && s[0] == SLASH && s[1] == STAR
    ensures Shrink(s) == var t := CommentEnd(s[1..]); if t == [] then Overrun else Shrink(t[2..])
  {
    assert CommentEnd(s) == CommentEnd(s[1..]);
  }

  lemma ShrinkBlock(body: bytes, x: bytes)
    requires ProperGap(Block(body))
    ensures Shrink(GapText(Block(body)) + x) == Shrink(x)
  {
    hide Shrink, CommentEnd;
    var s, y := GapText(Block(body)) + x, [STAR, SLASH] + x;
    assert s[1..] == [STAR] + body + y;
    EndShifted([STAR] + body);
    assert ([STAR] + body)[1..] == body;
    CommentEnds([STAR] + body, x);
    CommentTurn(s);
    assert y[2..] == x;
  }

  lemma ShrinkGap(g: Gap, x: bytes)
    requires ProperGap(g)
    ensures Shrink(GapText(g) + x) == Shrink(x)
  {
    hide AfterLine, CommentEnd, HasEnd;
    match g
    case White(c) =>
      assert ([c] + x)[1..] == x;
    case Line(body) =>
      var y := [NEWLINE] + x;
      assert GapText(g) + x == [SLASH, SLASH] + body + y;
      ShrinkLine(body, y);
      assert y[1..] == x;
    case Block(body) =>
      ShrinkBlock(body, x);
  }

  lemma {:induction false} ShrinkGaps(gs: seq<Gap>, x: bytes)
    requires forall i :: 0 <= i < |gs| ==> ProperGap(gs[i])
    ensures Shrink(GapsText(gs) + x) == Shrink(x)
  {
    hide Shrink, GapText, ProperGap;
    if gs == [] {
      assert GapsText(gs) + x == x;
    } else {
      assert GapsText(gs) + x == GapText(gs[0]) + (GapsText(gs[1..]) + x);
      ShrinkGap(gs[0], GapsText(gs[1..]) + x);
      ShrinkGaps(gs[1..], x);
    }
  }

  lemma ShrinkSpace(s: bytes, x: bytes)
    requires Space(s)
    ensures Shrink(s + x) == Shrink(x)
  {
    hide Shrink, GapsText, ProperGap;
    var gs :| GapsText(gs) == s && forall i :: 0 <= i < |gs| ==> ProperGap(gs[i]);
    ShrinkGaps(gs, x);
  }

  /**
   * A comment that starts with the opener and a slash ends there: the star of the opener is taken for that of the
   * end.
   */
  lemma SlashCloses(x: bytes)
    ensures Shrink([SLASH, STAR, SLASH] + x) == Shrink(x)
    ensures Shrink([SLASH, STAR, SLASH, STAR, SLASH]) == Kept([STAR, SLASH])
  {
    hide Shrink;
    Closes(x);
    Closes([STAR, SLASH]);
    assert [SLASH, STAR, SLASH] + [STAR, SLASH] == [SLASH, STAR, SLASH, STAR, SLASH];
    Leftover();
  }

  lemma Closes(x: bytes)
    ensures Shrink([SLASH, STAR, SLASH] + x) == Shrink(x)
  {
    hide Shrink;
    var s := [SLASH, STAR, SLASH] + x;
    CommentTurn(s);
    assert CommentEnd(s[1..]) == s[1..];
    assert s[1..][2..] == x;
  }

  lemma Leftover()
    ensures Shrink([STAR, SLASH]) == Kept([STAR, SLASH])
  {
    var s: bytes := [STAR, SLASH];
    assert s[1..] == [SLASH] && [SLASH][1..] == [];
    assert Shrink([SLASH]) == Prefix([SLASH], Shrink([]));
  }

  lemma {:induction false} ShrinkDocument(d: Document, x: bytes)
    requires Spaced(d)
    ensures Shrink(DocumentText(d) + x) == Prefix(DocumentText(Bare(d)), Shrink(x))
    decreases d, 0
  {
    hide Shrink, Space;
    match d
    case NullDocument => ShrinkCopied(NULL_WORD, x);
    case FalseDocument => ShrinkCopied(FALSE_WORD, x);
    case TrueDocument => ShrinkCopied(TRUE_WORD, x);
    case NumberDocument(l) => ShrinkLiteralText(l, x);
    case StringDocument(ps) => ShrinkQuoted(ps, x);
    case ArrayDocument(gap, es) => ShrinkArrayDocument(gap, es, x);
    case ObjectDocument(gap, es) => ShrinkObjectDocument(gap, es, x);
  }

  lemma ShrinkCopied(m: bytes, x: bytes)
    requires forall i :: 0 <= i < |m| ==> Copied(m[i])
    ensures Shrink(m + x) == Prefix(m, Shrink(x))
  {
    hide Shrink, Stable;
    StableBytes(m);
    StableBefore(m, x);
  }

  lemma ShrinkLiteralText(l: Numbers.Literal, x: bytes)
    requires Lenient(l)
    ensures Shrink(LiteralText(l) + x) == Prefix(LiteralText(l), Shrink(x))
  {
    hide Shrink;
    ShrinkCopied(LiteralText(l), x);
  }

  lemma ShrinkQuoted(ps: seq<Piece>, x: bytes)
    requires AcceptedAll(ps)
    ensures Shrink(Quoted(TextOf(ps)) + x) == Prefix(Quoted(TextOf(ps)), Shrink(x))
  {
    hide Shrink, Unescape, Closing, TextOf, AcceptedAll, MeaningOf, Quoted;
    var body, y := TextOf(ps), [QUOTE] + x;
    var t := Quoted(body) + x;
    QuotedThen(body, x);
    LiteralDenotes(ps, y);
    PassesAgree(t[1..]);
    ShrinkLiteral(t, y);
  }

  /** Brackets around contents that are minified to `m`. */
  lemma ShrinkBracketed(open: byte, inner: bytes, close: byte, m: bytes, x: bytes)
    requires Copied(open) && Copied(close)
    requires Shrink(inner + ([close] + x)) == Prefix(m, Shrink([close] + x))
    ensures Shrink([open] + inner + [close] + x) == Prefix([open] + m + [close], Shrink(x))
  {
    hide Shrink, Prefix;
    ShrinkCopied([open], inner + ([close] + x));
    ShrinkCopied([close], x);
    PrefixTwice(m, [close], Shrink(x));
    PrefixTwice([open], m + [close], Shrink(x));
    assert [open] + inner + [close] + x == [open] + (inner + ([close] + x));
    assert [open] + m + [close] == [open] + (m + [close]);
  }

  lemma {:induction false} ShrinkArrayDocument(gap: bytes, es: seq<Element>, x: bytes)
    requires Spaced(ArrayDocument(gap, es))
    ensures var d := ArrayDocument(gap, es); Shrink(DocumentText(d) + x) == Prefix(DocumentText(Bare(d)), Shrink(x))
    decreases es, 2
  {
    hide Shrink, Prefix, ElementsText, SpacedElement, Space;
    if es == [] {
      ShrinkSpace(gap, [CLOSE_BRACKET] + x);
      PrefixNothing(Shrink([CLOSE_BRACKET] + x));
      ShrinkBracketed(OPEN_BRACKET, gap, CLOSE_BRACKET, [], x);
    } else {
      ShrinkElements(es, [CLOSE_BRACKET] + x);
      ShrinkBracketed(OPEN_BRACKET, ElementsText(es), CLOSE_BRACKET, ElementsText(BareElements(es)), x);
    }
  }

  lemma {:induction false} ShrinkElement(e: Element, x: bytes)
    requires SpacedElement(e)
    ensures Shrink(ElementText(e) + x) == Prefix(ElementText(BareElement(e)), Shrink(x))
    decreases e, 1
  {
    hide Shrink, Spaced, Space, DocumentText, Bare;
    var t, m := DocumentText(e.content), DocumentText(Bare(e.content));
    assert ElementText(e) + x == e.before + (t + (e.after + x));
    ShrinkSpace(e.before, t + (e.after + x));
    ShrinkDocument(e.content, e.after + x);
    ShrinkSpace(e.after, x);
    assert ElementText(BareElement(e)) == [] + m + [] == m;
  }

  lemma JoinPrefix(a: bytes, b: byte, c: bytes, r: Shrunk)
    ensures Prefix(a, Prefix([b], Prefix(c, r))) == Prefix(a + ([b] + c), r)
  {
    hide Prefix;
    PrefixTwice([b], c, r);
    PrefixTwice(a, [b] + c, r);
  }

  lemma {:induction false} ShrinkElements(es: seq<Element>, x: bytes)
    requires es != [] && forall i :: 0 <= i < |es| ==> SpacedElement(es[i])
    ensures Shrink(ElementsText(es) + x) == Prefix(ElementsText(BareElements(es)), Shrink(x))
    decreases es, 1
  {
    hide Shrink, Prefix, SpacedElement, Space, ElementText, BareElement, ElementsText;
    var bs := BareElements(es);
    var tail := ElementsCut(es, x);
    var _ := ElementsCut(bs, []);
    assert ElementsText(bs) + [] == ElementsText(bs);
    if |es| == 1 {
      ShrinkElement(es[0], x);
      assert ElementText(bs[0]) + [] == ElementText(bs[0]);
    } else {
      var more := ElementsText(es[1..]) + x;
      assert bs[1..] == BareElements(es[1..]);
      ShrinkElement(es[0], [COMMA] + more);
      ShrinkCopied([COMMA], more);
      ShrinkElements(es[1..], x);
      JoinPrefix(ElementText(bs[0]), COMMA, ElementsText(bs[1..]), Shrink(x));
      assert ElementsText(bs[1..]) + [] == ElementsText(bs[1..]);
    }
  }

  lemma {:induction false} ShrinkObjectDocument(gap: bytes, es: seq<Entry>, x: bytes)
    requires Spaced(ObjectDocument(gap, es))
    ensures var d := ObjectDocument(gap, es); Shrink(DocumentText(d) + x) == Prefix(DocumentText(Bare(d)), Shrink(x))
    decreases es, 3
  {
    hide Shrink, Prefix, EntriesText, SpacedEntry, Space;
    if es == [] {
      ShrinkSpace(gap, [CLOSE_BRACE] + x);
      PrefixNothing(Shrink([CLOSE_BRACE] + x));
      ShrinkBracketed(OPEN_BRACE, gap, CLOSE_BRACE, [], x);
    } else {
      ShrinkEntries(es, [CLOSE_BRACE] + x);
      ShrinkBracketed(OPEN_BRACE, EntriesText(es), CLOSE_BRACE, EntriesText(BareEntries(es)), x);
    }
  }

  lemma {:induction false} ShrinkEntry(e: Entry, x: bytes)
    requires SpacedEntry(e)
    ensures Shrink(EntryText(e) + x) == Prefix(EntryText(BareEntry(e)), Shrink(x))
    decreases e, 2
  {
    hide Shrink, Prefix, SpacedElement, Space, ElementText, BareElement, TextOf, AcceptedAll, Quoted;
    var name, value := Quoted(TextOf(e.name)), ElementText(e.value);
    var b := BareEntry(e);
    EntryCut(e, x);
    EntryCut(b, []);
    assert EntryText(b) == EntryText(b) + [] == name + ([COLON] + ElementText(b.value));
    ShrinkSpace(e.before, name + (e.after + ([COLON] + (value + x))));
    ShrinkQuoted(e.name, e.after + ([COLON] + (value + x)));
    ShrinkSpace(e.after, [COLON] + (value + x));
    ShrinkCopied([COLON], value + x);
    ShrinkElement(e.value, x);
    JoinPrefix(name, COLON, ElementText(b.value), Shrink(x));
  }

  lemma {:induction false} ShrinkEntries(es: seq<Entry>, x: bytes)
    requires es != [] && forall i :: 0 <= i < |es| ==> SpacedEntry(es[i])
    ensures Shrink(EntriesText(es) + x) == Prefix(EntriesText(BareEntries(es)), Shrink(x))
    decreases es, 2
  {
    hide Shrink, Prefix, SpacedEntry, EntryText, BareEntry, EntriesText;
    var bs := BareEntries(es);
    var tail := EntriesCut(es, x);
    var _ := EntriesCut(bs, []);
    assert EntriesText(bs) + [] == EntriesText(bs);
    if |es| == 1 {
      ShrinkEntry(es[0], x);
      assert EntryText(bs[0]) + [] == EntryText(bs[0]);
    } else {
      var more := EntriesText(es[1..]) + x;
      assert bs[1..] == BareEntries(es[1..]);
      ShrinkEntry(es[0], [COMMA] + more);
      ShrinkCopied([COMMA], more);
      ShrinkEntries(es[1..], x);
      JoinPrefix(EntryText(bs[0]), COMMA, EntriesText(bs[1..]), Shrink(x));
      assert EntriesText(bs[1..]) + [] == EntriesText(bs[1..]);
    }
  }

  /**
   * A document between whose tokens white space and comments stand in any way is minified to its tokens, which parse
   * to what the document denotes. At the very end a comment may lack its newline.
   */
  lemma MinifyDocument(before: bytes, d: Document, after: bytes, tail: bytes)
    requires Space(before) && Spaced(d) && Space(after)
    requires tail == [] || (StartsWith(tail, [SLASH, SLASH]) && OneLine(tail))
    ensures Shrink(before + DocumentText(d) + after + tail) == Kept(DocumentText(Bare(d)))
    ensures ParseDocument(DocumentText(Bare(d)), true) == Ok(Value(d), [])
  {
    hide Shrink, ParseDocument, DocumentText, Value, Proper, Spaced, Bare, Space;
    var t, m := DocumentText(d), DocumentText(Bare(d));
    assert before + t + after + tail == before + (t + (after + tail));
    ShrinkSpace(before, t + (after + tail));
    ShrinkDocument(d, after + tail);
    ShrinkSpace(after, tail);
    ShrinkTail(tail);
    BareDenotes(d);
    TextDenotes([], Bare(d), []);
    assert m + [] == m && [] + m + [] == m;
  }

  lemma ShrinkTail(tail: bytes)
    requires tail == [] || (StartsWith(tail, [SLASH, SLASH]) && OneLine(tail))
    ensures Shrink(tail) == Kept([])
  {
    hide Shrink;
    ShrinkEnd();
    if tail != [] {
      assert tail == [SLASH, SLASH] + tail[2..] + [];
      ShrinkLine(tail[2..], []);
    }
  }
}
