/** Parsing the printed text of a value gives the value back. */
module RoundTrip {
  import opened Bytes
  import opened Json
  import opened PrintText
  import opened ParseText
  import opened Numbers
  import opened Strings

  predicate Blank(ws: bytes) {
    forall i :: 0 <= i < |ws| ==> 1 <= ws[i] <= 32
  }

  lemma {:induction false} SkipBlank(ws: bytes, s: bytes)
    requires Blank(ws)
    ensures Skip(ws + s) == Skip(s)
  {
    if ws == [] {
      assert ws + s == s;
    } else {
      assert (ws + s)[1..] == ws[1..] + s;
      SkipBlank(ws[1..], s);
    }
  }

  /** Printed values start with a byte that is neither blank nor a closing bracket. */
  lemma TextStart(v: Json, depth: nat, fmt: bool)
    ensures var t := Text(v, depth, fmt); t != [] && t[0] > 32 && t[0] != CLOSE_BRACKET && t[0] != CLOSE_BRACE
  {
  }

  /** What follows the text of a value does not continue it; only a number can be continued. */
  predicate Follows(v: Json, rest: bytes) {
    v.Number? ==> Stops(IntLiteral(v.value.Floor), rest)
  }

  lemma EndFollows(v: Json, rest: bytes)
    requires EndsNumber(rest)
    ensures Follows(v, rest)
  {
    hide Stops, EndsNumber;
    if v.Number? {
      EndsEvery(IntLiteral(v.value.Floor), rest);
    }
  }

  /**
   * A value printed at any depth is read back, and the parser stops behind it, exactly when nothing continues a
   * number.
   */
  lemma {:induction false} ValueRoundTrip(v: Json, depth: nat, fmt: bool, rest: bytes)
    requires Printable(v)
    ensures ParseValue(Text(v, depth, fmt) + rest) == Ok(v, rest) <==> Follows(v, rest)
    decreases v, 1
  {
    match v
    case Null => WordBranch(NULL_WORD, rest);
    case False => WordBranch(FALSE_WORD, rest);
    case True => WordBranch(TRUE_WORD, rest);
    case Number(d) =>
      hide ParseValue, ScanNumber, NumberValue, Stops;
      IntegerRoundTrip(d.Floor, rest);
      IntegerStart(d.Floor);
      NumberBranch(IntText(d.Floor) + rest);
    case String(str) =>
      hide ParseValue, ParseString, StringText;
      StringRoundTrip(str, rest);
      StringStart(str);
      StringBranch(StringText(str) + rest);
    case Array(items) =>
      ArrayRoundTrip(items, depth, fmt, rest);
    case Object(members) =>
      ObjectRoundTrip(members, depth, fmt, rest);
  }

  lemma IntegerStart(n: int)
    ensures var t := IntText(n); t != [] && (t[0] == MINUS || IsDigit(t[0]))
  {
  }

  lemma StringStart(str: bytes)
    ensures StringText(str) != [] && StringText(str)[0] == QUOTE
  {
  }

  lemma {:induction false} ArrayRoundTrip(items: seq<Json>, depth: nat, fmt: bool, rest: bytes)
    requires forall x :: x in items ==> Printable(x)
    ensures ParseValue(Text(Array(items), depth, fmt) + rest) == Ok(Array(items), rest)
    decreases items, 1
  {
    hide ItemsText, ParseItems, ParseValue;
    var s := Text(Array(items), depth, fmt) + rest;
    ArrayBranch(s);
    var inner := ItemsText(items, depth + 1, fmt) + ([CLOSE_BRACKET] + rest);
    assert s[1..] == inner;
    if items == [] {
      EmptyItems(items, depth + 1, fmt);
      assert inner == [CLOSE_BRACKET] + rest;
      assert inner[1..] == rest;
    } else {
      ItemsRoundTrip(items, depth + 1, fmt, rest);
      ItemsStart(items, depth + 1, fmt);
    }
  }

  lemma {:induction false} ObjectRoundTrip(members: seq<Member>, depth: nat, fmt: bool, rest: bytes)
    requires forall m :: m in members ==> NulFree(m.name) && Printable(m.value)
    ensures ParseValue(Text(Object(members), depth, fmt) + rest) == Ok(Object(members), rest)
    decreases members, 1
  {
    hide MembersText, ParseMembers, ParseValue, Text, Tabs;
    var s := Text(Object(members), depth, fmt) + rest;
    var end := [CLOSE_BRACE] + rest;
    if members == [] {
      EmptyObjectStart(depth, fmt, rest);
      ObjectBranch(s);
    } else {
      var ws := if fmt then [NEWLINE] else [];
      var blank := if fmt then Tabs(depth) else [];
      var inner := MembersText(members, depth + 1, fmt) + (blank + end);
      ObjectInside(members, depth, fmt, rest);
      SkipBlank(ws, inner);
      MembersStart(members, depth + 1, fmt, blank + end);
      MembersRoundTrip(members, depth + 1, fmt, blank, rest);
      Assoc(blank, [CLOSE_BRACE], rest);
      ObjectBranch(s);
    }
  }

  /** The text of an object with members behind its opening brace. */
  lemma ObjectInside(members: seq<Member>, depth: nat, fmt: bool, rest: bytes)
    requires members != []
    ensures
      var s := Text(Object(members), depth, fmt) + rest;
      var ws, blank := if fmt then [NEWLINE] else [], if fmt then Tabs(depth) else [];
      && s != [] && s[0] == OPEN_BRACE
      && s[1..] == ws + (MembersText(members, depth + 1, fmt) + (blank + ([CLOSE_BRACE] + rest)))
  {
    hide MembersText, Tabs;
    var ws, blank := if fmt then [NEWLINE] else [], if fmt then Tabs(depth) else [];
    var inner := MembersText(members, depth + 1, fmt) + (blank + ([CLOSE_BRACE] + rest));
    assert Text(Object(members), depth, fmt) + rest == [OPEN_BRACE] + (ws + inner);
  }

  lemma EmptyObjectStart(depth: nat, fmt: bool, rest: bytes)
    ensures
      var s := Text(Object([]), depth, fmt) + rest;
      s != [] && s[0] == OPEN_BRACE && Head(Skip(s[1..])) == CLOSE_BRACE && Skip(s[1..])[1..] == rest
  {
    hide Tabs;
    var s, end := Text(Object([]), depth, fmt) + rest, [CLOSE_BRACE] + rest;
    var blank := if fmt then [NEWLINE] + Tabs(depth - 1) else [];
    assert s[1..] == blank + end;
    SkipBlank(blank, end);
    assert end[1..] == rest;
  }

  lemma ItemsStart(items: seq<Json>, depth: nat, fmt: bool)
    requires items != []
    ensures var t := ItemsText(items, depth, fmt); t != [] && t[0] > 32 && t[0] != CLOSE_BRACKET
  {
    TextStart(items[0], depth, fmt);
  }

  /** The text of a list of elements, split after the first. */
  lemma ItemsSplit(items: seq<Json>, depth: nat, fmt: bool, end: bytes)
    requires items != []
    ensures ItemsText(items, depth, fmt) + end
      == Text(items[0], depth, fmt) + (ItemSeparator(|items| > 1, fmt) + (ItemsText(items[1..], depth, fmt) + end))
  {
    hide Text, ItemSeparator;
  }

  lemma {:induction false} ItemsRoundTrip(items: seq<Json>, depth: nat, fmt: bool, rest: bytes)
    requires items != [] && forall x :: x in items ==> Printable(x)
    ensures ParseItems(ItemsText(items, depth, fmt) + ([CLOSE_BRACKET] + rest)) == Ok(items, rest)
    decreases items, 0
  {
    hide Text, ItemsText, ParseValue, Follows;
    var end := [CLOSE_BRACKET] + rest;
    var v := items[0];
    var next := ItemsText(items[1..], depth, fmt) + end;
    var tail := ItemSeparator(|items| > 1, fmt) + next;
    ItemsSplit(items, depth, fmt, end);
    if |items| == 1 {
      EmptyItems(items[1..], depth, fmt);
      assert tail == end;
      EndFollows(v, tail);
      ValueRoundTrip(v, depth, fmt, tail);
      assert end[1..] == rest;
      assert [v] == items;
    } else {
      EndFollows(v, tail);
      ValueRoundTrip(v, depth, fmt, tail);
      var blank := if fmt then [SPACE] else [];
      assert tail[1..] == blank + next;
      SkipBlank(blank, next);
      ItemsStart(items[1..], depth, fmt);
      ItemsRoundTrip(items[1..], depth, fmt, rest);
      Rejoin(items);
    }
  }

  lemma Rejoin<T>(xs: seq<T>)
    requires xs != []
    ensures [xs[0]] + xs[1..] == xs
  {
  }

  lemma EmptyItems(items: seq<Json>, depth: nat, fmt: bool)
    requires items == []
    ensures ItemsText(items, depth, fmt) == []
  {
  }

  /** The text of a list of members, split after the first. */
  lemma MembersSplit(members: seq<Member>, depth: nat, fmt: bool, end: bytes)
    requires members != []
    ensures MembersText(members, depth, fmt) + end
      == MemberText(members[0], depth, fmt)
         + (MemberSeparator(|members| > 1, fmt) + (MembersText(members[1..], depth, fmt) + end))
  {
    hide MemberText, MemberSeparator;
  }

  /** The text of a member after its indentation. */
  function MemberBody(m: Member, depth: nat, fmt: bool): bytes {
    StringText(m.name) + (if fmt then [COLON, TAB] else [COLON]) + Text(m.value, depth, fmt)
  }

  lemma MemberSplit(m: Member, depth: nat, fmt: bool, rest: bytes)
    ensures MemberText(m, depth, fmt) + rest == (if fmt then Tabs(depth) else []) + (MemberBody(m, depth, fmt) + rest)
    ensures var t := MemberBody(m, depth, fmt); t != [] && t[0] == QUOTE
  {
    hide Text, Tabs, Escape;
  }

  /** Skipping blanks before a member lands on the quote of its name. */
  lemma MembersStart(members: seq<Member>, depth: nat, fmt: bool, end: bytes)
    requires members != []
    ensures var t := Skip(MembersText(members, depth, fmt) + end); t != [] && t[0] == QUOTE
  {
    hide MembersText, MemberText, MemberBody;
    var rest := MemberSeparator(|members| > 1, fmt) + (MembersText(members[1..], depth, fmt) + end);
    MembersSplit(members, depth, fmt, end);
    MemberSplit(members[0], depth, fmt, rest);
    SkipBlank(if fmt then Tabs(depth) else [], MemberBody(members[0], depth, fmt) + rest);
  }

  lemma NoBlankAhead(s: bytes)
    requires s != [] && s[0] > 32
    ensures Skip(s) == s
  {
  }

  /** A name right in front of its colon. */
  lemma NameColon(s: bytes, name: bytes, value: bytes)
    requires ParseString(s) == Ok(name, [COLON] + value)
    ensures ParseMember(s) == match ParseValue(Skip(value))
      case Ok(v, rest) => Ok(Member(name, v), rest)
      case Fail(at) => Fail(at)
      case Undefined => Undefined
  {
    hide ParseString, ParseValue;
    assert ([COLON] + value)[1..] == value;
  }

  lemma {:induction false} MemberRoundTrip(m: Member, depth: nat, fmt: bool, rest: bytes)
    requires NulFree(m.name) && Printable(m.value) && EndsNumber(rest)
    ensures ParseMember(Skip(MemberText(m, depth, fmt) + rest)) == Ok(m, rest)
    decreases m, 2
  {
    hide Text, StringText, MemberText, ParseValue, ParseString, ParseMember, EndsNumber, Follows, Skip, Tabs;
    var gap := if fmt then [TAB] else [];
    var value := Text(m.value, depth, fmt) + rest;
    var afterName := [COLON] + (gap + value);
    MemberSplit(m, depth, fmt, rest);
    assert MemberBody(m, depth, fmt) + rest == StringText(m.name) + afterName;
    SkipBlank(if fmt then Tabs(depth) else [], StringText(m.name) + afterName);
    StringStart(m.name);
    NoBlankAhead(StringText(m.name) + afterName);
    StringRoundTrip(m.name, afterName);
    NameColon(StringText(m.name) + afterName, m.name, gap + value);
    SkipBlank(gap, value);
    TextStart(m.value, depth, fmt);
    NoBlankAhead(value);
    EndFollows(m.value, rest);
    ValueRoundTrip(m.value, depth, fmt, rest);
  }

  /** What the parser finds after a member: a comma and the next one, or the closing brace. */
  lemma FollowingMember(more: bool, fmt: bool, next: bytes)
    ensures var tail := MemberSeparator(more, fmt) + next;
      if more then Skip(tail) == tail && Head(tail) == COMMA && Skip(tail[1..]) == Skip(next)
      else Skip(tail) == Skip(next)
    ensures EndsNumber(next) ==> EndsNumber(MemberSeparator(more, fmt) + next)
    ensures more ==> EndsNumber(MemberSeparator(more, fmt) + next)
  {
    var tail := MemberSeparator(more, fmt) + next;
    var newline := if fmt then [NEWLINE] else [];
    SkipBlank(newline, next);
    if more {
      assert tail[1..] == newline + next;
    } else {
      assert tail == newline + next;
      assert !fmt ==> tail == next;
    }
  }

  lemma BraceEnd(blank: bytes, rest: bytes)
    requires Blank(blank)
    ensures var end := [CLOSE_BRACE] + rest;
      && Skip(blank + end) == end && Head(end) == CLOSE_BRACE && end[1..] == rest && EndsNumber(blank + end)
  {
    SkipBlank(blank, [CLOSE_BRACE] + rest);
  }

  lemma {:induction false} MembersRoundTrip(members: seq<Member>, depth: nat, fmt: bool, blank: bytes, rest: bytes)
    requires members != [] && forall m :: m in members ==> NulFree(m.name) && Printable(m.value)
    requires Blank(blank)
    ensures ParseMembers(Skip(MembersText(members, depth, fmt) + (blank + ([CLOSE_BRACE] + rest)))) == Ok(members, rest)
    decreases members, 0
  {
    hide MembersText, MemberText, MemberSeparator, ParseMember, Skip, EndsNumber, Printable, NulFree;
    var m, end, more := members[0], blank + ([CLOSE_BRACE] + rest), |members| > 1;
    var next := MembersText(members[1..], depth, fmt) + end;
    MembersSplit(members, depth, fmt, end);
    FollowingMember(more, fmt, next);
    BraceEnd(blank, rest);
    if more {
      MembersRoundTrip(members[1..], depth, fmt, blank, rest);
    } else {
      EmptyMembers(members[1..], depth, fmt);
      assert next == end && members == [m];
    }
    MemberRoundTrip(m, depth, fmt, MemberSeparator(more, fmt) + next);
    assert [m] + members[1..] == members;
  }

  lemma EmptyMembers(members: seq<Member>, depth: nat, fmt: bool)
    requires members == []
    ensures MembersText(members, depth, fmt) == []
  {
  }

  /** Printing then parsing with `require_null_terminated` is the identity, formatted or not. */
  lemma DocumentRoundTrip(v: Json, fmt: bool)
    requires Printable(v)
    ensures ParseDocument(Text(v, 0, fmt), true) == Ok(v, [])
  {
    TextStart(v, 0, fmt);
    EndFollows(v, []);
    ValueRoundTrip(v, 0, fmt, []);
    assert Text(v, 0, fmt) + [] == Text(v, 0, fmt);
  }

  /** Distinct values have distinct texts. */
  lemma TextInjective(v: Json, w: Json, fmt: bool)
    requires Printable(v) && Printable(w) && Text(v, 0, fmt) == Text(w, 0, fmt)
    ensures v == w
  {
    DocumentRoundTrip(v, fmt);
    DocumentRoundTrip(w, fmt);
  }
}
