/**
 * How printed texts are laid out: the unformatted text has no blank outside its strings, the formatted one is that text
 * with white space put in token by token, and minifying takes it out again.
 */
module Layout {
  import opened Bytes
  import opened Json
  import opened PrintText
  import opened ParseText
  import opened Strings
  import opened MinifyText
  import opened RoundTrip

  /** The length of the string literal at the start of a text, with its quotes. */
  function LiteralLength(s: bytes): (n: nat)
    requires s != [] && s[0] == 34
    ensures 1 <= n <= |s|
  {
    ClosingWithin(s[1..]);
    var q := Closing(s[1..]);
    if q == [] then |s| else |s| - |q| + 1
  }

  /** Outside its string literals, all of which are closed, there are only bytes above the blank, and no comments. */
  predicate Tight(s: bytes)
    decreases |s|
  {
    s == []
    || if s[0] == 34 then Closing(s[1..]) != [] && Tight(s[LiteralLength(s)..])
       else s[0] > 32 && s[0] != 47 && Tight(s[1..])
  }

  function Indent(n: int): bytes {
    if n <= 0 then [] else [9] + Indent(n - 1)
  }

  /** The brackets that are open, the innermost last. */
  type Nesting = seq<byte>

  function Inner(open: Nesting): Nesting {
    if open == [] then [] else open[..|open| - 1]
  }

  /** What is written for the token at the start of a text, the length of that token, and what is open behind it. */
  datatype Turn = Turn(out: bytes, size: nat, open: Nesting)

  /**
   * A formatter of tokens. Inside braces every member stands on a line of its own, indented by the number of open
   * brackets; a tab follows each colon and a space each comma between elements. An empty object breaks its line, too,
   * one step less indented.
   */
  function Put(s: bytes, open: Nesting): (t: Turn)
    requires s != []
    ensures 1 <= t.size <= |s|
  {
    if s[0] == 34 then Turn(s[..LiteralLength(s)], LiteralLength(s), open)
    else if s[0] == 123 && Head(s[1..]) == 125 then Turn([123, 10] + Indent(|open| - 1) + [125], 2, open)
    else if s[0] == 123 then Turn([123, 10] + Indent(|open| + 1), 1, open + [123])
    else if s[0] == 125 then Turn([10] + Indent(|Inner(open)|) + [125], 1, Inner(open))
    else if s[0] == 91 then Turn([91], 1, open + [91])
    else if s[0] == 93 then Turn([93], 1, Inner(open))
    else if s[0] == 44 && open != [] && open[|open| - 1] == 123 then Turn([44, 10] + Indent(|open|), 1, open)
    else if s[0] == 44 then Turn([44, 32], 1, open)
    else if s[0] == 58 then Turn([58, 9], 1, open)
    else Turn([s[0]], 1, open)
  }

  function Pretty(s: bytes, open: Nesting): bytes
    decreases |s|
  {
    if s == [] then []
    else
      var t := Put(s, open);
      t.out + Pretty(s[t.size..], t.open)
  }

  // The texts of values

  lemma {:induction false} IndentIsTabs(n: int)
    ensures Indent(n) == Tabs(n)
  {
    if n > 0 {
      IndentIsTabs(n - 1);
    }
  }

  /** What a piece of unformatted text becomes, whatever follows. */
  ghost predicate Becomes(m: bytes, out: bytes, rest: bytes, open: Nesting) {
    && Pretty(m + rest, open) == out + Pretty(rest, open)
    && (Tight(m + rest) <==> Tight(rest))
  }

  /** A byte of a word or a number. */
  predicate Simple(c: byte) {
    c > 32 && c != 34 && c != 44 && c != 47 && c != 58 && c != 91 && c != 93 && c != 123 && c != 125
  }

  lemma {:induction false} SimpleBytes(m: bytes, rest: bytes, open: Nesting)
    requires forall i :: 0 <= i < |m| ==> Simple(m[i])
    ensures Becomes(m, m, rest, open)
  {
    hide Pretty, Tight, Simple;
    if m == [] {
      assert m + rest == rest;
    } else {
      SimpleBytes(m[1..], rest, open);
      SimpleByte(m[0], m[1..] + rest, open);
      assert m + rest == [m[0]] + (m[1..] + rest);
      assert m == [m[0]] + m[1..];
    }
  }

  lemma PrettyTurn(s: bytes, open: Nesting)
    requires s != []
    ensures var t := Put(s, open); Pretty(s, open) == t.out + Pretty(s[t.size..], t.open)
  {
    hide Put;
  }

  lemma SimpleByte(c: byte, x: bytes, open: Nesting)
    requires Simple(c)
    ensures Pretty([c] + x, open) == [c] + Pretty(x, open) && (Tight([c] + x) <==> Tight(x))
  {
    hide Pretty, Indent, LiteralLength;
    assert ([c] + x)[1..] == x;
    PrettyTurn([c] + x, open);
  }

  lemma StringPart(str: bytes, rest: bytes, open: Nesting)
    requires NulFree(str)
    ensures Becomes(StringText(str), StringText(str), rest, open)
  {
    hide Unescape, Escape, Closing, Pretty, Tight, NulFree;
    var s, y := StringText(str) + rest, [QUOTE] + rest;
    assert s[1..] == Escape(str) + [QUOTE] + rest;
    UnescapeEscape(str, rest);
    PassesAgree(s[1..]);
    assert LiteralLength(s) == |StringText(str)|;
    assert s[..|StringText(str)|] == StringText(str) && s[|StringText(str)|..] == rest;
    LiteralTurn(s, open);
  }

  lemma LiteralTurn(s: bytes, open: Nesting)
    requires s != [] && s[0] == 34 && Closing(s[1..]) != []
    ensures Pretty(s, open) == s[..LiteralLength(s)] + Pretty(s[LiteralLength(s)..], open)
    ensures Tight(s) <==> Tight(s[LiteralLength(s)..])
  {
    hide Closing, LiteralLength, Pretty;
    PrettyTurn(s, open);
  }

  lemma {:induction false} ValueLaidOut(v: Json, rest: bytes, open: Nesting)
    requires Printable(v)
    ensures Becomes(Text(v, |open|, false), Text(v, |open|, true), rest, open)
    decreases v, 1
  {
    hide Pretty, Tight, IntText;
    match v
    case Null => SimpleBytes(NULL_WORD, rest, open);
    case False => SimpleBytes(FALSE_WORD, rest, open);
    case True => SimpleBytes(TRUE_WORD, rest, open);
    case Number(d) =>
      IntegerBytes(d.Floor);
      SimpleBytes(IntText(d.Floor), rest, open);
    case String(str) => StringPart(str, rest, open);
    case Array(items) => ArrayLaidOut(items, rest, open);
    case Object(members) => if members == [] { EmptyLaidOut(rest, open); } else { ObjectLaidOut(members, rest, open); }
  }

  lemma IntegerBytes(n: int)
    ensures forall i :: 0 <= i < |IntText(n)| ==> Simple(IntText(n)[i])
  {
  }

  lemma OpenBracket(x: bytes, open: Nesting)
    ensures Pretty([91] + x, open) == [91] + Pretty(x, open + [91]) && (Tight([91] + x) <==> Tight(x))
    ensures Pretty([93] + x, open) == [93] + Pretty(x, Inner(open)) && (Tight([93] + x) <==> Tight(x))
  {
    hide Pretty, Indent, LiteralLength;
    assert ([91] + x)[1..] == x && ([93] + x)[1..] == x;
    PrettyTurn([91] + x, open);
    PrettyTurn([93] + x, open);
  }

  lemma Inside(open: Nesting, b: byte)
    ensures Inner(open + [b]) == open
  {
  }

  lemma {:induction false} ArrayLaidOut(items: seq<Json>, rest: bytes, open: Nesting)
    requires forall x :: x in items ==> Printable(x)
    ensures Becomes(Text(Array(items), |open|, false), Text(Array(items), |open|, true), rest, open)
    decreases items, 1
  {
    hide Pretty, Tight, ItemsText;
    var m, out := ItemsText(items, |open| + 1, false), ItemsText(items, |open| + 1, true);
    var end := [CLOSE_BRACKET] + rest;
    OpenBracket(m + end, open);
    ItemsLaidOut(items, end, open + [91]);
    OpenBracket(rest, open + [91]);
    Inside(open, 91);
    assert [OPEN_BRACKET] + m + [CLOSE_BRACKET] + rest == [OPEN_BRACKET] + (m + end);
    assert [OPEN_BRACKET] + out + [CLOSE_BRACKET] + Pretty(rest, open)
      == [OPEN_BRACKET] + (out + ([CLOSE_BRACKET] + Pretty(rest, open)));
  }

  lemma Comma(x: bytes, open: Nesting)
    requires open != []
    ensures Pretty([44] + x, open)
      == (if open[|open| - 1] == 123 then [44, 10] + Indent(|open|) else [44, 32]) + Pretty(x, open)
    ensures Tight([44] + x) <==> Tight(x)
  {
    hide Pretty, Tight, Indent, LiteralLength;
    assert ([44] + x)[1..] == x;
    TightByte(44, x);
    PrettyTurn([44] + x, open);
  }

  lemma {:induction false} ItemsLaidOut(items: seq<Json>, rest: bytes, open: Nesting)
    requires open != [] && open[|open| - 1] == 91 && forall x :: x in items ==> Printable(x)
    ensures Becomes(ItemsText(items, |open|, false), ItemsText(items, |open|, true), rest, open)
    decreases items, 0
  {
    hide Pretty, Tight, Text, ItemsText, Printable;
    if items == [] {
      EmptyItems(items, |open|, false);
      EmptyItems(items, |open|, true);
      assert [] + rest == rest;
    } else {
      var v, more := items[0], ItemsText(items[1..], |open|, false) + rest;
      ItemsLaidOut(items[1..], rest, open);
      ItemsSplit(items, |open|, false, rest);
      ItemsSplit(items, |open|, true, Pretty(rest, open));
      ValueLaidOut(v, ItemSeparator(|items| > 1, false) + more, open);
      if |items| > 1 {
        Comma(more, open);
      } else {
        assert [] + more == more;
      }
    }
  }

  lemma EmptyText(depth: nat)
    ensures Text(Object([]), depth, false) == [123, 125]
    ensures Text(Object([]), depth, true) == [123, 10] + Tabs(depth - 1) + [125]
  {
    hide Tabs;
    assert [123] + [] + [125] == [123, 125];
    assert [123] + ([10] + Tabs(depth - 1)) + [125] == [123, 10] + Tabs(depth - 1) + [125];
  }

  lemma EmptyTurn(rest: bytes, open: Nesting)
    ensures Put([123, 125] + rest, open) == Turn([123, 10] + Indent(|open| - 1) + [125], 2, open)
    ensures ([123, 125] + rest)[2..] == rest
  {
    hide Indent, LiteralLength;
    assert ([123, 125] + rest)[1..] == [125] + rest;
  }

  lemma TightBraces(rest: bytes)
    ensures Tight([123, 125] + rest) <==> Tight(rest)
  {
    hide Tight;
    assert [123, 125] + rest == [123] + ([125] + rest);
    TightByte(123, [125] + rest);
    TightByte(125, rest);
  }

  lemma TightByte(c: byte, x: bytes)
    requires c > 32 && c != 34 && c != 47
    ensures Tight([c] + x) <==> Tight(x)
  {
    assert ([c] + x)[1..] == x;
  }

  lemma EmptyLaidOut(rest: bytes, open: Nesting)
    ensures Becomes(Text(Object([]), |open|, false), Text(Object([]), |open|, true), rest, open)
  {
    hide Pretty, Tight, Put, Text, Tabs, Indent;
    EmptyText(|open|);
    EmptyTurn(rest, open);
    PrettyTurn([123, 125] + rest, open);
    TightBraces(rest);
    IndentIsTabs(|open| - 1);
  }

  lemma Brace(x: bytes, open: Nesting)
    requires Head(x) != 125
    ensures Pretty([123] + x, open) == [123, 10] + Indent(|open| + 1) + Pretty(x, open + [123])
    ensures Tight([123] + x) <==> Tight(x)
  {
    hide Pretty, Indent, LiteralLength;
    assert ([123] + x)[1..] == x;
    PrettyTurn([123] + x, open);
  }

  lemma BraceClosed(x: bytes, open: Nesting)
    ensures Pretty([125] + x, open) == [10] + Indent(|Inner(open)|) + [125] + Pretty(x, Inner(open))
    ensures Tight([125] + x) <==> Tight(x)
  {
    hide Pretty, Indent, LiteralLength;
    assert ([125] + x)[1..] == x;
    PrettyTurn([125] + x, open);
  }

  lemma {:induction false} ObjectLaidOut(members: seq<Member>, rest: bytes, open: Nesting)
    requires members != [] && forall m :: m in members ==> NulFree(m.name) && Printable(m.value)
    ensures Becomes(Text(Object(members), |open|, false), Text(Object(members), |open|, true), rest, open)
    decreases members, 1
  {
    hide Pretty, Tight, MembersText, Tabs, Indent, NulFree, Printable;
    var m, out := MembersText(members, |open| + 1, false), MembersText(members, |open| + 1, true);
    var end := [CLOSE_BRACE] + rest;
    FirstQuote(members, |open| + 1, end);
    Brace(m + end, open);
    MembersLaidOut(members, rest, open + [123]);
    Inside(open, 123);
    IndentIsTabs(|open| + 1);
    assert [OPEN_BRACE] + [] + m + [] + [CLOSE_BRACE] + rest == [OPEN_BRACE] + (m + end);
    var tabs, p := Tabs(|open| + 1), Pretty(m + end, open + [123]);
    assert [123, 10] + tabs + p == [OPEN_BRACE, NEWLINE] + (tabs + p);
    var closing := Tabs(|open|) + [CLOSE_BRACE] + Pretty(rest, open);
    assert [OPEN_BRACE] + [NEWLINE] + out + Tabs(|open|) + [CLOSE_BRACE] + Pretty(rest, open)
      == [OPEN_BRACE, NEWLINE] + (out + closing);
  }

  lemma FirstQuote(members: seq<Member>, depth: nat, end: bytes)
    requires members != []
    ensures Head(MembersText(members, depth, false) + end) == 34
  {
    hide Text, Escape;
    MembersSplit(members, depth, false, end);
  }

  lemma {:induction false} MemberLaidOut(m: Member, rest: bytes, open: Nesting)
    requires NulFree(m.name) && Printable(m.value)
    ensures Becomes(MemberText(m, |open|, false), MemberBody(m, |open|, true), rest, open)
    decreases m, 2
  {
    hide Pretty, Tight, Text, StringText, NulFree, Printable;
    var name, value := StringText(m.name), Text(m.value, |open|, false);
    StringPart(m.name, [COLON] + (value + rest), open);
    Colon(value + rest, open);
    ValueLaidOut(m.value, rest, open);
    assert MemberText(m, |open|, false) + rest == name + ([COLON] + (value + rest));
    assert MemberBody(m, |open|, true) + Pretty(rest, open)
      == name + ([COLON, TAB] + (Text(m.value, |open|, true) + Pretty(rest, open)));
  }

  lemma Colon(x: bytes, open: Nesting)
    ensures Pretty([58] + x, open) == [58, 9] + Pretty(x, open) && (Tight([58] + x) <==> Tight(x))
  {
    hide Pretty, Indent, LiteralLength;
    assert ([58] + x)[1..] == x;
    PrettyTurn([58] + x, open);
  }

  /** The members of an object, the brace that closes it, and what follows. */
  lemma {:induction false} MembersLaidOut(members: seq<Member>, rest: bytes, open: Nesting)
    requires open != [] && open[|open| - 1] == 123
    requires members != [] && forall m :: m in members ==> NulFree(m.name) && Printable(m.value)
    ensures
      var s, n := MembersText(members, |open|, false) + ([CLOSE_BRACE] + rest), |open|;
      && Tabs(n) + Pretty(s, open)
        == MembersText(members, n, true) + (Tabs(n - 1) + [CLOSE_BRACE] + Pretty(rest, open[..n - 1]))
      && (Tight(s) <==> Tight(rest))
    decreases members, 0
  {
    hide Pretty, Tight, MemberText, MemberBody, MembersText, MemberSeparator, Tabs, Indent, NulFree, Printable;
    var n, end, m := |open|, [CLOSE_BRACE] + rest, members[0];
    var closing := Tabs(n - 1) + [CLOSE_BRACE] + Pretty(rest, open[..n - 1]);
    var more := MembersText(members[1..], n, false) + end;
    var after := MembersText(members[1..], n, true) + closing;
    MembersSplit(members, n, false, end);
    MembersSplit(members, n, true, closing);
    IndentIsTabs(n);
    IndentIsTabs(n - 1);
    if |members| > 1 {
      Separators();
      MemberLaidOut(m, [COMMA] + more, open);
      Comma(more, open);
      MembersLaidOut(members[1..], rest, open);
      MemberSplit(m, n, true, [COMMA, NEWLINE] + after);
      Regroup(Tabs(n), MemberBody(m, n, true), [COMMA, NEWLINE], Pretty(more, open), after);
    } else {
      Separators();
      EmptyMembers(members[1..], n, false);
      EmptyMembers(members[1..], n, true);
      assert [] + more == more == end;
      MemberLaidOut(m, end, open);
      BraceClosed(rest, open);
      MemberSplit(m, n, true, [NEWLINE] + after);
      assert after == closing;
      assert [10] + Tabs(n - 1) + [125] + Pretty(rest, open[..n - 1]) == [NEWLINE] + closing;
    }
  }

  lemma Separators()
    ensures MemberSeparator(true, false) == [COMMA] && MemberSeparator(false, false) == []
    ensures MemberSeparator(true, true) == [COMMA, NEWLINE] && MemberSeparator(false, true) == [NEWLINE]
  {
  }

  lemma Regroup(tabs: bytes, body: bytes, comma: bytes, p: bytes, after: bytes)
    requires tabs + p == after
    ensures body + (comma + tabs + p) == body + (comma + after)
  {
    Assoc(comma, tabs, p);
  }

  /** The formatted text is the unformatted one, token by token, and that one is tight. */
  lemma PrettyText(v: Json, open: Nesting)
    requires Printable(v)
    ensures Text(v, |open|, true) == Pretty(Text(v, |open|, false), open) && Tight(Text(v, |open|, false))
  {
    hide Text;
    ValueLaidOut(v, [], open);
    assert Text(v, |open|, false) + [] == Text(v, |open|, false);
  }

  // Minifying

  /** A literal ends at its closing quote, whatever follows. */
  lemma {:induction false} ClosingAgain(s: bytes, x: bytes)
    requires Closing(s) != []
    ensures |Closing(s)| <= |s| && Closing(s) == s[|s| - |Closing(s)|..]
    ensures Closing(s[..|s| - |Closing(s)|] + ([QUOTE] + x)) == [QUOTE] + x
    decreases |s|
  {
    if s[0] == QUOTE {
      assert s[..0] + ([QUOTE] + x) == [QUOTE] + x;
    } else {
      var k := if s[0] != BACKSLASH then 1 else 2;
      ClosingAgain(s[k..], x);
      Stepped(s, k, |s| - |Closing(s)|, [QUOTE] + x);
    }
  }

  /** Replacing what follows position `n` leaves the bytes in front of it. */
  lemma Stepped(s: bytes, k: nat, n: nat, y: bytes)
    requires 1 <= k <= n <= |s|
    ensures var t := s[..n] + y; t[0] == s[0] && t[k..] == s[k..][..n - k] + y && |t| >= k
  {
  }

  lemma LiteralKept(s: bytes, x: bytes)
    requires s != [] && s[0] == 34 && Closing(s[1..]) != []
    ensures Shrink(s[..LiteralLength(s)] + x) == Prefix(s[..LiteralLength(s)], Shrink(x))
  {
    hide Closing, Shrink;
    var u, n := s[1..], LiteralLength(s);
    var q := Closing(u);
    ClosingAgain(u, x);
    ClosingWithin(u);
    var t := s[..n] + x;
    assert t[1..] == u[..|u| - |q|] + ([QUOTE] + x);
    ShrinkLiteral(t, [QUOTE] + x);
    assert t[..n] == s[..n] && ([QUOTE] + x)[1..] == x;
  }

  lemma {:induction false} ShrinkWhite(ws: bytes, x: bytes)
    requires forall i :: 0 <= i < |ws| ==> ws[i] == 9 || ws[i] == 10 || ws[i] == 32
    ensures Shrink(ws + x) == Shrink(x)
  {
    if ws == [] {
      assert ws + x == x;
    } else {
      assert (ws + x)[1..] == ws[1..] + x;
      ShrinkWhite(ws[1..], x);
    }
  }

  /** White space, a byte, white space, a byte or nothing, and white space. */
  lemma ShrinkAround(a: bytes, m: byte, b: bytes, x: bytes)
    requires Copied(m)
    requires forall i :: 0 <= i < |a| ==> a[i] == 9 || a[i] == 10 || a[i] == 32
    requires forall i :: 0 <= i < |b| ==> b[i] == 9 || b[i] == 10 || b[i] == 32
    ensures Shrink(a + [m] + b + x) == Prefix([m], Shrink(x))
  {
    hide Shrink, Stable;
    assert a + [m] + b + x == a + ([m] + (b + x));
    ShrinkWhite(a, [m] + (b + x));
    StableByte(m);
    StableBefore([m], b + x);
    ShrinkWhite(b, x);
  }

  lemma {:induction false} IndentWhite(n: int)
    ensures forall i :: 0 <= i < |Indent(n)| ==> Indent(n)[i] == 9
  {
    if n > 0 {
      IndentWhite(n - 1);
    }
  }

  /** Every token is kept, and what was put around it vanishes. */
  lemma PutShrinks(s: bytes, open: Nesting, x: bytes)
    requires s != [] && Tight(s)
    ensures var t := Put(s, open); Shrink(t.out + x) == Prefix(s[..t.size], Shrink(x))
  {
    hide Shrink, Closing, Indent, LiteralLength;
    IndentWhite(|open| - 1);
    IndentWhite(|open|);
    IndentWhite(|open| + 1);
    IndentWhite(|Inner(open)|);
    assert s[..1] == [s[0]];
    if s[0] == 34 {
      LiteralKept(s, x);
    } else if s[0] == 123 && Head(s[1..]) == 125 {
      EmptyShrinks(|open| - 1, x);
      assert s[..2] == [123, 125];
    } else {
      var a := if s[0] == 125 then [10] + Indent(|Inner(open)|) else [];
      var b := if s[0] == 123 then [10] + Indent(|open| + 1)
               else if s[0] == 44 && open != [] && open[|open| - 1] == 123 then [10] + Indent(|open|)
               else if s[0] == 44 then [32] else if s[0] == 58 then [9] else [];
      assert Put(s, open).out == a + [s[0]] + b;
      ShrinkAround(a, s[0], b, x);
    }
  }

  lemma EmptyShrinks(n: int, x: bytes)
    ensures Shrink([123, 10] + Indent(n) + [125] + x) == Prefix([123, 125], Shrink(x))
  {
    hide Shrink, Indent, Prefix;
    IndentWhite(n);
    var y := [125] + x;
    assert [123, 10] + Indent(n) + [125] + x == [] + [123] + ([10] + Indent(n)) + y;
    ShrinkAround([], 123, [10] + Indent(n), y);
    assert y == [] + [125] + [] + x;
    ShrinkAround([], 125, [], x);
    PrefixTwice([123], [125], Shrink(x));
    assert [123] + [125] == [123, 125];
  }

  /** Minifying undoes the formatter. */
  lemma {:induction false} ShrinkPretty(s: bytes, open: Nesting)
    requires Tight(s)
    ensures Shrink(Pretty(s, open)) == Kept(s)
    decreases |s|
  {
    hide Shrink, Put, Tight, Pretty;
    if s == [] {
      ShrinkEnd();
      NothingPretty(open);
    } else {
      var t := Put(s, open);
      PrettyTurn(s, open);
      TightTurn(s, open);
      ShrinkPretty(s[t.size..], t.open);
      PutShrinks(s, open, Pretty(s[t.size..], t.open));
      assert s[..t.size] + s[t.size..] == s;
    }
  }

  lemma NothingPretty(open: Nesting)
    ensures Pretty([], open) == []
  {
  }

  lemma TightTurn(s: bytes, open: Nesting)
    requires s != [] && Tight(s)
    ensures Tight(s[Put(s, open).size..])
  {
    hide Closing, LiteralLength, Indent, Tight;
    TightStep(s);
    if s[0] == 123 && Head(s[1..]) == 125 {
      TightStep(s[1..]);
      assert s[1..][1..] == s[2..];
    }
  }

  lemma {:induction false} ShrinkTight(s: bytes)
    requires Tight(s)
    ensures Shrink(s) == Kept(s)
    decreases |s|
  {
    hide Shrink, Closing, LiteralLength, Tight;
    if s == [] {
      ShrinkEnd();
    } else {
      var n := if s[0] == 34 then LiteralLength(s) else 1;
      TightStep(s);
      ShrinkTight(s[n..]);
      assert s == s[..n] + s[n..];
      if s[0] == 34 {
        LiteralKept(s, s[n..]);
      } else {
        assert s == [] + [s[0]] + [] + s[1..];
        ShrinkAround([], s[0], [], s[1..]);
      }
    }
  }

  lemma TightStep(s: bytes)
    requires s != [] && Tight(s)
    ensures s[0] == 34 ==> Closing(s[1..]) != [] && Tight(s[LiteralLength(s)..])
    ensures s[0] != 34 ==> s[0] > 32 && s[0] != 47 && Tight(s[1..])
  {
    hide Closing, LiteralLength;
  }

  /** Minifying either text of a value gives the unformatted one. */
  lemma MinifyPrinted(v: Json, open: Nesting)
    requires Printable(v)
    ensures Shrink(Text(v, |open|, false)) == Kept(Text(v, |open|, false))
    ensures Shrink(Text(v, |open|, true)) == Kept(Text(v, |open|, false))
  {
    hide Shrink, Tight, Pretty, Text;
    PrettyText(v, open);
    ShrinkTight(Text(v, |open|, false));
    ShrinkPretty(Text(v, |open|, false), open);
  }
}
