/** Exactly which texts minifying finishes on, whether they are JSON or not, and exactly what it leaves of them. */
module Lexing {
  import opened Bytes
  import opened Strings
  import opened MinifyText
  import opened Spacing

  /** Inside a literal a backslash takes the next byte with it, whatever that is. */
  datatype Step = One(c: byte) | Two(c: byte)

  /**
   * What minifying makes of a text: white space, comments to the end of a line, block comments, string literals, and
   * other bytes. A block comment is a slash, its body, a star and a slash; the star behind the opening slash may be the
   * one of the end.
   */
  datatype Lexeme =
    | Blank(c: byte)
    | Remark(body: bytes)
    | Comment(body: bytes)
    | Quotation(steps: seq<Step>)
    | Other(c: byte)

  predicate ProperStep(s: Step) {
    s.One? ==> s.c != 34 && s.c != 92
  }

  function StepText(s: Step): bytes {
    if s.One? then [s.c] else [92, s.c]
  }

  function StepsText(ss: seq<Step>): bytes {
    if ss == [] then [] else StepText(ss[0]) + StepsText(ss[1..])
  }

  /** The lexeme, in front of a given rest. */
  ghost predicate ProperLexeme(l: Lexeme, rest: bytes) {
    match l
    case Blank(c) => c == 9 || c == 10 || c == 13 || c == 32
    case Remark(body) => OneLine(body) && (rest == [] || rest[0] == 10)
    case Comment(body) => (body == [] || body[0] == 42) && !HasEnd(body)
    case Quotation(ss) => forall i :: 0 <= i < |ss| ==> ProperStep(ss[i])
    case Other(c) =>
      c != 9 && c != 10 && c != 13 && c != 32 && c != 34 && (c == 47 ==> Head(rest) != 47 && Head(rest) != 42)
  }

  function LexemeText(l: Lexeme): bytes {
    match l
    case Blank(c) => [c]
    case Remark(body) => [47, 47] + body
    case Comment(body) => [47] + body + [42, 47]
    case Quotation(ss) => [34] + StepsText(ss) + [34]
    case Other(c) => [c]
  }

  function LexemesText(ls: seq<Lexeme>): bytes {
    if ls == [] then [] else LexemeText(ls[0]) + LexemesText(ls[1..])
  }

  ghost predicate ProperLexemes(ls: seq<Lexeme>) {
    ls == [] || (ProperLexeme(ls[0], LexemesText(ls[1..])) && ProperLexemes(ls[1..]))
  }

  /** Literals and other bytes stay as they are, and nothing else does. */
  function Left(ls: seq<Lexeme>): bytes {
    if ls == [] then []
    else (if ls[0].Quotation? || ls[0].Other? then LexemeText(ls[0]) else []) + Left(ls[1..])
  }

  // From lexemes to what minifying does

  lemma {:induction false} StepsClose(ss: seq<Step>, x: bytes)
    requires forall i :: 0 <= i < |ss| ==> ProperStep(ss[i])
    ensures Closing(StepsText(ss) + ([QUOTE] + x)) == [QUOTE] + x
  {
    var y := [QUOTE] + x;
    var s := StepsText(ss) + y;
    if ss == [] {
      assert s == y;
    } else {
      var more := StepsText(ss[1..]) + y;
      assert s == StepText(ss[0]) + more;
      assert s[|StepText(ss[0])|..] == more;
      assert ProperStep(ss[0]);
      StepsClose(ss[1..], x);
    }
  }

  lemma QuotationKept(ss: seq<Step>, x: bytes)
    requires forall i :: 0 <= i < |ss| ==> ProperStep(ss[i])
    ensures Shrink([34] + StepsText(ss) + [34] + x) == Prefix([34] + StepsText(ss) + [34], Shrink(x))
  {
    hide Shrink, Closing, StepsText;
    var body, y := StepsText(ss), [QUOTE] + x;
    var t := [34] + body + [34] + x;
    assert t[1..] == body + y && y[1..] == x && t[..|body| + 2] == [34] + body + [34];
    StepsClose(ss, x);
    ShrinkLiteral(t, y);
  }

  lemma CommentVanishes(body: bytes, x: bytes)
    requires (body == [] || body[0] == 42) && !HasEnd(body)
    ensures Shrink([47] + body + [42, 47] + x) == Shrink(x)
  {
    hide Shrink, CommentEnd;
    var y := [STAR, SLASH] + x;
    var s := [47] + body + [42, 47] + x;
    assert s[1..] == body + y && y[2..] == x;
    CommentEnds(body, x);
    CommentTurn(s);
  }

  lemma OtherKept(c: byte, x: bytes)
    requires ProperLexeme(Other(c), x)
    ensures Shrink([c] + x) == Prefix([c], Shrink(x))
  {
    assert ([c] + x)[1..] == x;
  }

  lemma BlankVanishes(c: byte, x: bytes)
    requires ProperLexeme(Blank(c), x)
    ensures Shrink([c] + x) == Shrink(x)
  {
    assert ([c] + x)[1..] == x;
  }

  lemma LexemeTurn(l: Lexeme, x: bytes)
    requires ProperLexeme(l, x)
    ensures Shrink(LexemeText(l) + x)
      == if l.Quotation? || l.Other? then Prefix(LexemeText(l), Shrink(x)) else Shrink(x)
  {
    hide Shrink, HasEnd;
    match l
    case Blank(c) => BlankVanishes(c, x);
    case Remark(body) => ShrinkLine(body, x);
    case Comment(body) => CommentVanishes(body, x);
    case Quotation(ss) => QuotationKept(ss, x);
    case Other(c) => OtherKept(c, x);
  }

  /** A text of lexemes is minified to those that stay. */
  lemma {:induction false} LexemesShrink(ls: seq<Lexeme>)
    requires ProperLexemes(ls)
    ensures Shrink(LexemesText(ls)) == Kept(Left(ls))
  {
    hide Shrink, LexemeText, ProperLexeme;
    if ls == [] {
      ShrinkEnd();
    } else {
      LexemeTurn(ls[0], LexemesText(ls[1..]));
      LexemesShrink(ls[1..]);
    }
  }

  // And back

  lemma StepsCons(step: Step, more: seq<Step>)
    ensures StepsText([step] + more) == StepText(step) + StepsText(more)
  {
    assert ([step] + more)[1..] == more;
  }

  /** One step of a literal that is closed. */
  lemma FirstStep(s: bytes) returns (step: Step, rest: bytes)
    requires s != [] && s[0] != QUOTE && Closing(s) != []
    ensures ProperStep(step) && s == StepText(step) + rest && Closing(rest) == Closing(s) && |rest| < |s|
  {
    var n := if s[0] != BACKSLASH then 1 else 2;
    step, rest := if n == 1 then One(s[0]) else Two(s[1]), s[n..];
    assert s == s[..n] + s[n..] && s[..n] == StepText(step);
  }

  lemma {:induction false} ClosingSteps(s: bytes) returns (ss: seq<Step>)
    requires Closing(s) != []
    ensures s == StepsText(ss) + Closing(s) && Closing(s)[0] == QUOTE
    ensures forall i :: 0 <= i < |ss| ==> ProperStep(ss[i])
    decreases |s|
  {
    hide Closing, StepsText, ProperStep, StepText;
    ClosingWithin(s);
    ss := [];
    if s[0] != QUOTE {
      var step, rest := FirstStep(s);
      var more := ClosingSteps(rest);
      ss := [step] + more;
      StepsCons(step, more);
      Assoc(StepText(step), StepsText(more), Closing(s));
    } else {
      ClosedHere(s);
    }
  }

  lemma ClosedHere(s: bytes)
    requires s != [] && s[0] == QUOTE
    ensures Closing(s) == s && StepsText([]) + s == s
  {
  }

  lemma {:induction false} LineSplit(s: bytes) returns (body: bytes)
    ensures OneLine(body) && s == body + AfterLine(s) && (AfterLine(s) == [] || AfterLine(s)[0] == 10)
  {
    body := [];
    if s != [] && s[0] != NEWLINE {
      var more := LineSplit(s[1..]);
      body := [s[0]] + more;
      assert s == [s[0]] + s[1..];
    }
  }

  lemma {:induction false} CommentSplit(s: bytes) returns (body: bytes)
    requires CommentEnd(s) != []
    ensures !HasEnd(body) && s == body + CommentEnd(s) && CommentEnd(s)[..2] == [42, 47]
  {
    hide HasEnd;
    if s[0] == STAR && Head(s[1..]) == SLASH {
      body := [];
      NoEnd([]);
      assert s[1..][0] == s[1];
    } else {
      var more := CommentSplit(s[1..]);
      body := [s[0]] + more;
      assert s == [s[0]] + s[1..] && body[1..] == more;
      if more == [] {
        NoEnd(body);
      } else {
        assert s[1..][0] == more[0];
        EndShifted(body);
      }
    }
  }

  lemma NoEnd(s: bytes)
    requires |s| <= 1
    ensures !HasEnd(s)
  {
  }

  lemma FirstRemark(s: bytes) returns (l: Lexeme)
    requires s != [] && s[0] == 47 && Head(s[1..]) == 47
    ensures s == LexemeText(l) + AfterLine(s) && |AfterLine(s)| < |s| && ProperLexeme(l, AfterLine(s)) && l.Remark?
  {
    hide AfterLine;
    var body := LineSplit(s);
    LineStart(s);
    l := Remark(body[2..]);
    assert body == [47, 47] + body[2..];
    assert forall i :: 0 <= i < |body[2..]| ==> body[2..][i] == body[i + 2];
  }

  lemma FirstComment(s: bytes) returns (l: Lexeme)
    requires s != [] && s[0] == 47 && Head(s[1..]) == 42 && CommentEnd(s[1..]) != []
    ensures var rest := CommentEnd(s[1..])[2..]; s == LexemeText(l) + rest && |rest| < |s| && ProperLexeme(l, rest)
    ensures l.Comment?
  {
    hide CommentEnd, HasEnd;
    var body := CommentSplit(s[1..]);
    var t := CommentEnd(s[1..]);
    l := Comment(body);
    assert t == t[..2] + t[2..] && s == [47] + s[1..];
    assert body != [] ==> s[1..][0] == body[0];
  }

  lemma FirstQuotation(s: bytes) returns (l: Lexeme)
    requires s != [] && s[0] == 34 && Closing(s[1..]) != []
    ensures var rest := Closing(s[1..])[1..]; s == LexemeText(l) + rest && |rest| < |s| && ProperLexeme(l, rest)
    ensures l.Quotation?
  {
    hide Closing, StepsText, ProperStep;
    var ss := ClosingSteps(s[1..]);
    var q := Closing(s[1..]);
    l := Quotation(ss);
    assert q == [34] + q[1..] && s == [34] + s[1..];
  }

  /** The lexeme at the start of a text on which minifying finishes. */
  lemma FirstLexeme(s: bytes) returns (l: Lexeme, rest: bytes)
    requires s != [] && Shrink(s).Kept?
    ensures s == LexemeText(l) + rest && |rest| < |s| && ProperLexeme(l, rest) && Shrink(rest).Kept?
  {
    hide Shrink, Closing, AfterLine, CommentEnd, HasEnd, StepsText, OneLine;
    Turns(s);
    if s[0] == 47 && Head(s[1..]) == 47 {
      rest := AfterLine(s);
      l := FirstRemark(s);
    } else if s[0] == 47 && Head(s[1..]) == 42 {
      rest := CommentEnd(s[1..])[2..];
      l := FirstComment(s);
    } else if s[0] == 34 {
      rest := Closing(s[1..])[1..];
      l := FirstQuotation(s);
    } else {
      l, rest := if IsBlank(s[0]) then Blank(s[0]) else Other(s[0]), s[1..];
      assert s == [s[0]] + s[1..];
    }
  }

  lemma LineStart(s: bytes)
    requires s != [] && s[0] == 47 && Head(s[1..]) == 47
    ensures |AfterLine(s)| <= |s| - 2
  {
    assert AfterLine(s) == AfterLine(s[1..]) && AfterLine(s[1..]) == AfterLine(s[1..][1..]);
  }

  lemma Turns(s: bytes)
    requires s != [] && Shrink(s).Kept?
    ensures IsBlank(s[0]) ==> Shrink(s[1..]).Kept?
    ensures s[0] == 47 && Head(s[1..]) == 47 ==> Shrink(AfterLine(s)).Kept?
    ensures s[0] == 47 && Head(s[1..]) == 42 ==> CommentEnd(s[1..]) != [] && Shrink(CommentEnd(s[1..])[2..]).Kept?
    ensures s[0] == 34 ==> Closing(s[1..]) != [] && Shrink(Closing(s[1..])[1..]).Kept?
    ensures !IsBlank(s[0]) && s[0] != 34 && !(s[0] == 47 && (Head(s[1..]) == 47 || Head(s[1..]) == 42))
      ==> Shrink(s[1..]).Kept?
  {
    hide Closing, AfterLine, CommentEnd;
    if s[0] == 47 && Head(s[1..]) == 42 {
      CommentTurn(s);
    }
  }

  lemma {:induction false} Lex(s: bytes) returns (ls: seq<Lexeme>)
    requires Shrink(s).Kept?
    ensures ProperLexemes(ls) && LexemesText(ls) == s && Shrink(s) == Kept(Left(ls))
    decreases |s|
  {
    hide Shrink, LexemeText, ProperLexeme;
    ls := [];
    if s != [] {
      var l, rest := FirstLexeme(s);
      var more := Lex(rest);
      ls := [l] + more;
      assert ls[1..] == more;
    }
    LexemesShrink(ls);
  }

  /** Minifying stays inside its text exactly for texts of lexemes: every comment and every literal is closed. */
  lemma MinifyExactly(s: bytes)
    ensures Shrink(s).Kept? <==> exists ls :: ProperLexemes(ls) && LexemesText(ls) == s
  {
    hide Shrink, ProperLexemes, LexemesText;
    if Shrink(s).Kept? {
      var ls := Lex(s);
    }
    if ls :| ProperLexemes(ls) && LexemesText(ls) == s {
      LexemesShrink(ls);
    }
  }
}
