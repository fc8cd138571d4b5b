/** cJSON_Minify: what it keeps of a text, and why an accepted text keeps its value. */
module MinifyText {
  import opened Bytes
  import opened Json
  import opened ParseText
  import opened Numbers
  import opened Strings
  import opened RoundTrip

  /** The text that remains, or a read past the terminator. */
  datatype Shrunk = Kept(text: bytes) | Overrun

  predicate IsBlank(c: byte) {
    c == SPACE || c == TAB || c == RETURN || c == NEWLINE
  }

  /** A double-slash comment ends in front of the end of its line. */
  function AfterLine(s: bytes): (t: bytes)
    ensures |t| <= |s| && (s != [] && s[0] != NEWLINE ==> |t| < |s|)
  {
    if s == [] || s[0] == NEWLINE then s else AfterLine(s[1..])
  }

  /** The closing star and slash of a comment, or nothing. */
  function CommentEnd(s: bytes): (t: bytes)
    ensures |t| <= |s| && (t != [] ==> |t| >= 2)
  {
    if s == [] || (s[0] == STAR && Head(s[1..]) == SLASH) then s else CommentEnd(s[1..])
  }

  function Prefix(m: bytes, r: Shrunk): Shrunk {
    if r.Kept? then Kept(m + r.text) else r
  }

  lemma {:induction false} ClosingWithin(s: bytes)
    ensures |Closing(s)| <= |s| && (Closing(s) != [] ==> Closing(s)[0] == QUOTE)
    decreases |s|
  {
    if s != [] && s[0] != QUOTE {
      if s[0] != BACKSLASH {
        ClosingWithin(s[1..]);
      } else if |s| >= 2 {
        ClosingWithin(s[2..]);
      }
    }
  }

  /** What is kept from a position outside any string literal. */
  function Shrink(s: bytes): (r: Shrunk)
    ensures r.Kept? ==> |r.text| <= |s|
    decreases |s|
  {
    if s == [] then Kept([])
    else if IsBlank(s[0]) then Shrink(s[1..])
    else if s[0] == SLASH && Head(s[1..]) == SLASH then Shrink(AfterLine(s))
    else if s[0] == SLASH && Head(s[1..]) == STAR then
      var t := CommentEnd(s);
      if t == [] then Overrun else Shrink(t[2..])
    else if s[0] == QUOTE then
      ClosingWithin(s[1..]);
      var q := Closing(s[1..]);
      if q == [] then Overrun else Prefix(s[..|s| - |q| + 1], Shrink(q[1..]))
    else Prefix([s[0]], Shrink(s[1..]))
  }

  // Pieces that minifying keeps as they are

  ghost predicate Stable(m: bytes) {
    forall x :: Shrink(m + x) == Prefix(m, Shrink(x))
  }

  lemma StableBefore(m: bytes, x: bytes)
    requires Stable(m)
    ensures Shrink(m + x) == Prefix(m, Shrink(x))
  {
  }

  lemma PrefixTwice(a: bytes, b: bytes, r: Shrunk)
    ensures Prefix(a, Prefix(b, r)) == Prefix(a + b, r)
  {
    if r.Kept? {
      Assoc(a, b, r.text);
    }
  }

  lemma StableJoin(a: bytes, b: bytes)
    requires Stable(a) && Stable(b)
    ensures Stable(a + b)
  {
    hide Shrink;
    forall x
      ensures Shrink(a + b + x) == Prefix(a + b, Shrink(x))
    {
      Assoc(a, b, x);
      StableBefore(a, b + x);
      StableBefore(b, x);
      PrefixTwice(a, b, Shrink(x));
    }
  }

  /** A byte that the last branch copies, whatever follows. */
  predicate Copied(c: byte) {
    !IsBlank(c) && c != SLASH && c != QUOTE
  }

  lemma StableByte(c: byte)
    requires Copied(c)
    ensures Stable([c])
  {
    forall x: bytes
      ensures Shrink([c] + x) == Prefix([c], Shrink(x))
    {
      assert ([c] + x)[1..] == x;
    }
  }

  lemma StableNothing()
    ensures Stable([])
  {
    hide Shrink;
    forall x: bytes
      ensures Shrink([] + x) == Prefix([], Shrink(x))
    {
      assert [] + x == x;
      if Shrink(x).Kept? {
        assert [] + Shrink(x).text == Shrink(x).text;
      }
    }
  }

  lemma {:induction false} StableBytes(m: bytes)
    requires forall i :: 0 <= i < |m| ==> Copied(m[i])
    ensures Stable(m)
  {
    hide Shrink, Stable;
    if m == [] {
      StableNothing();
    } else {
      StableByte(m[0]);
      StableBytes(m[1..]);
      StableJoin([m[0]], m[1..]);
      assert [m[0]] + m[1..] == m;
    }
  }

  /** Of the blanks that the parser skips, minifying keeps the control characters that are no JSON white space. */
  lemma {:induction false} ShrinkBlanks(s: bytes) returns (c: bytes)
    ensures Blank(c) && Stable(c) && Shrink(s) == Prefix(c, Shrink(Skip(s)))
  {
    hide Stable;
    StableNothing();
    c := [];
    if s != [] && 1 <= s[0] <= 32 {
      c := ShrinkBlanks(s[1..]);
      if !IsBlank(s[0]) {
        StableByte(s[0]);
        StableJoin([s[0]], c);
        PrefixTwice([s[0]], c, Shrink(Skip(s)));
        c := [s[0]] + c;
      }
    } else {
      PrefixNothing(Shrink(s));
    }
  }

  lemma PrefixNothing(r: Shrunk)
    ensures Prefix([], r) == r
  {
  }

  // String literals

  /** A turn of the second pass depends on nothing behind the closing quote. */
  lemma SameUnit(s: bytes, k: nat, y: bytes)
    requires 0 < k < |s| && s[0] != QUOTE && s[k] == QUOTE && y != [] && y[0] == QUOTE
    requires NextUnit(s).Unit? && NextUnit(s).size <= k
    ensures NextUnit(s[..k] + y) == NextUnit(s)
  {
    hide Hex4, Utf8, Combine;
    var t := s[..k] + y;
    assert forall i :: 0 <= i <= k ==> t[i] == s[i];
    if s[0] == BACKSLASH && s[1] == LOWER_U {
      assert s[2..][..4] == t[2..][..4];
      SameHex(s[2..], t[2..]);
      if FollowedByEscape(s) && IsHigh(Hex4(s[2..])) {
        assert s[8..][..4] == t[8..][..4];
        SameHex(s[8..], t[8..]);
      }
    }
  }

  lemma SameHex(s: bytes, t: bytes)
    requires |s| >= 4 && |t| >= 4 && s[..4] == t[..4]
    ensures Hex4(s) == Hex4(t) && FourPlain(s) == FourPlain(t)
  {
    assert forall i :: 0 <= i < 4 ==> s[i] == s[..4][i] == t[i];
  }

  /** A closed literal is decoded in the same way whatever follows its closing quote. */
  lemma {:induction false} UnescapeAgain(s: bytes, y: bytes)
    requires Unescape(s).Ok? && Unescape(s).rest != [] && y != [] && y[0] == QUOTE
    ensures Unescape(s[..|s| - |Unescape(s).rest|] + y) == Ok(Unescape(s).value, y)
    ensures s[|s| - |Unescape(s).rest|..] == Unescape(s).rest
    decreases |s|
  {
    hide NextUnit, Unescape;
    var k := |s| - |Unescape(s).rest|;
    if s[0] == QUOTE {
      UnescapeStop(s);
      UnescapeStop(y);
      assert s[..k] + y == y;
    } else {
      UnescapeDefined(s);
      UnescapeTurn(s);
      var u := NextUnit(s);
      var t := s[u.size..];
      UnescapeAgain(t, y);
      assert s[k..] == t[k - u.size..];
      SameUnit(s, k, y);
      UnescapeTurn(s[..k] + y);
      assert (s[..k] + y)[u.size..] == t[..k - u.size] + y;
    }
  }

  /** A text piece that reads as a value wherever it stands, and that minifying keeps. */
  ghost predicate Compact(m: bytes, v: Json) {
    && Stable(m) && m != [] && m[0] > 32 && m[0] != CLOSE_BRACKET && m[0] != CLOSE_BRACE
    && forall x :: Delimits(x) ==> ParseValue(m + x) == Ok(v, x)
  }

  /** What can follow a value in an accepted text. */
  predicate Delimits(x: bytes) {
    Head(x) <= 32 || Head(x) == COMMA || Head(x) == COLON || Head(x) == CLOSE_BRACKET || Head(x) == CLOSE_BRACE
  }

  /** A string literal with its quotes, wherever it stands. */
  ghost predicate Literally(m: bytes, str: bytes) {
    && Stable(m) && m != [] && m[0] == QUOTE
    && forall x :: ParseString(m + x) == Ok(str, x)
  }

  /** Closed literals survive verbatim. */
  lemma ShrinkString(s: bytes) returns (m: bytes)
    requires ParseString(s).Ok? && Unescape(s[1..]).rest != []
    ensures Literally(m, ParseString(s).value) && s == m + ParseString(s).rest
    ensures Shrink(s) == Prefix(m, Shrink(ParseString(s).rest))
  {
    hide Stable, Unescape, Shrink, ParseString, Quoted;
    Opened(s);
    var u := s[1..];
    StringClosed(s);
    var q := Unescape(u).rest;
    var body := u[..|u| - |q|];
    UnescapeAgain(u, q);
    m := Quoted(body);
    QuotedThen(body, q[1..]);
    Reassembled(s, u, body, q);
    forall x: bytes
      ensures ParseString(m + x) == Ok(Unescape(u).value, x) && Shrink(m + x) == Prefix(m, Shrink(x))
    {
      LiteralAgain(u, body, x);
    }
    StableFrom(m);
    StableBefore(m, q[1..]);
  }

  lemma Opened(s: bytes)
    requires ParseString(s).Ok?
    ensures s != [] && s[0] == QUOTE && Unescape(s[1..]).Ok?
  {
    hide Unescape;
  }

  lemma Reassembled(s: bytes, u: bytes, body: bytes, q: bytes)
    requires s != [] && s[0] == QUOTE && u == s[1..] && u == body + q && q != [] && q[0] == QUOTE
    ensures s == Quoted(body) + q[1..] && Quoted(body) != [] && Quoted(body)[0] == QUOTE
  {
  }

  function Quoted(body: bytes): bytes {
    [QUOTE] + body + [QUOTE]
  }

  lemma QuotedThen(body: bytes, x: bytes)
    ensures
      var t := Quoted(body) + x;
      && t != [] && t[0] == QUOTE && t[1..] == body + ([QUOTE] + x)
      && t[..|body| + 2] == Quoted(body) && ([QUOTE] + x)[1..] == x
  {
  }

  lemma StableFrom(m: bytes)
    requires forall x :: Shrink(m + x) == Prefix(m, Shrink(x))
    ensures Stable(m)
  {
  }

  /** The literal that starts `u` inside its quotes, closed and followed by anything. */
  lemma LiteralAgain(u: bytes, body: bytes, x: bytes)
    requires Unescape(u).Ok? && Unescape(u).rest != [] && body == u[..|u| - |Unescape(u).rest|]
    ensures ParseString(Quoted(body) + x) == Ok(Unescape(u).value, x)
    ensures Shrink(Quoted(body) + x) == Prefix(Quoted(body), Shrink(x))
  {
    hide Unescape, Shrink, Quoted, ParseString, Closing;
    var y := [QUOTE] + x;
    var t := Quoted(body) + x;
    QuotedThen(body, x);
    UnescapeAgain(u, y);
    StringClosed(t);
    PassesAgree(t[1..]);
    ShrinkLiteral(t, y);
  }

  lemma StringClosed(t: bytes)
    requires t != [] && t[0] == QUOTE && Unescape(t[1..]).Ok? && Unescape(t[1..]).rest != []
    ensures ParseString(t) == Ok(Unescape(t[1..]).value, Unescape(t[1..]).rest[1..])
  {
    hide Unescape;
  }

  lemma ShrinkLiteral(t: bytes, y: bytes)
    requires t != [] && t[0] == QUOTE && Closing(t[1..]) == y != [] && |y| < |t|
    ensures Shrink(t) == Prefix(t[..|t| - |y| + 1], Shrink(y[1..]))
  {
    hide Closing, AfterLine, CommentEnd, Shrink, Prefix;
    QuoteTurn(t, t[1..], y);
  }

  /** The turn at the opening quote of a literal. */
  lemma QuoteTurn(t: bytes, u: bytes, q: bytes)
    requires t != [] && t[0] == QUOTE && u == t[1..] && q == Closing(u) && q != [] && |q| < |t|
    ensures Shrink(t) == Prefix(t[..|t| - |q| + 1], Shrink(q[1..]))
  {
    hide Closing, AfterLine, CommentEnd, Prefix;
    ClosingWithin(u);
    assert !IsBlank(t[0]) && t[0] != SLASH;
  }

  // Numbers

  /** The bytes that parse_number steps over. */
  predicate NumberByte(c: byte) {
    IsDigit(c) || c == MINUS || c == PLUS || c == DOT || c == LOWER_E || c == UPPER_E
  }

  lemma NumberBytes(l: Literal)
    requires Lenient(l)
    ensures forall i :: 0 <= i < |LiteralText(l)| ==> NumberByte(LiteralText(l)[i])
  {
  }

  lemma DelimitsNumber(l: Literal, x: bytes)
    requires Delimits(x)
    ensures Stops(l, x)
  {
    EndsEvery(l, x);
  }

  /** The text that parse_number consumes reads as the same number in front of anything that can follow a value. */
  lemma NumberAgain(s: bytes, x: bytes) returns (m: bytes)
    requires s != [] && (s[0] == MINUS || IsDigit(s[0])) && Delimits(x)
    ensures s == m + ScanNumber(s).rest && m != [] && forall i :: 0 <= i < |m| ==> NumberByte(m[i])
    ensures ScanNumber(m + x) == ScanNumber(s).(rest := x)
  {
    hide ScanNumber, LiteralText, Lenient, Stops, NumberValue, Denotation, Delimits, NumberByte;
    var l := NumberLiteral(s);
    m := LiteralText(l);
    NumberBytes(l);
    DelimitsNumber(l, x);
    ScanLiteral(l, ScanNumber(s).rest);
    ScanLiteral(l, x);
    assert m == [] ==> m + ScanNumber(s).rest == ScanNumber(s).rest;
  }

  lemma Pieces(a: bytes, b: bytes, c: bytes, d: bytes, e: bytes)
    ensures a + b + c + d + e == a + (b + (c + (d + e)))
  {
  }

  // Values

  /** How the value that starts a text is minified: to a piece that stands for it anywhere. */
  ghost predicate Becomes(s: bytes, m: bytes, v: Json, rest: bytes) {
    Compact(m, v) && Shrink(s) == Prefix(m, Shrink(rest))
  }

  lemma CompactBefore(m: bytes, v: Json, x: bytes)
    requires Compact(m, v) && Delimits(x)
    ensures ParseValue(m + x) == Ok(v, x)
  {
  }

  lemma CompactFrom(m: bytes, v: Json)
    requires Stable(m) && m != [] && m[0] > 32 && m[0] != CLOSE_BRACKET && m[0] != CLOSE_BRACE
    requires forall x :: Delimits(x) ==> ParseValue(m + x) == Ok(v, x)
    ensures Compact(m, v)
  {
  }

  lemma ShrinkWord(word: bytes, rest: bytes, v: Json)
    requires (word == NULL_WORD && v == Null) || (word == FALSE_WORD && v == False) || (word == TRUE_WORD && v == True)
    ensures Becomes(word + rest, word, v, rest)
  {
    hide Shrink, ParseValue, Stable, Compact, Copied;
    WordCopied();
    StableBytes(word);
    StableBefore(word, rest);
    forall x
      ensures ParseValue(word + x) == Ok(v, x)
    {
      WordBranch(word, x);
    }
    CompactFrom(word, v);
  }

  lemma WordCopied()
    ensures forall i :: 0 <= i < 4 ==> Copied(NULL_WORD[i]) && Copied(TRUE_WORD[i])
    ensures forall i :: 0 <= i < 5 ==> Copied(FALSE_WORD[i])
  {
  }

  lemma ShrinkNumber(s: bytes) returns (m: bytes)
    requires s != [] && (s[0] == MINUS || IsDigit(s[0]))
    ensures Becomes(s, m, Number(NumberValue(ScanNumber(s))), ScanNumber(s).rest)
  {
    hide Shrink, ParseValue, ScanNumber, NumberValue, Stable, Compact;
    m := NumberAgain(s, []);
    StableBytes(m);
    StableBefore(m, ScanNumber(s).rest);
    forall x | Delimits(x)
      ensures ParseValue(m + x) == Ok(Number(NumberValue(ScanNumber(s))), x)
    {
      var again := NumberAgain(s, x);
      SameStart(s, m, again, ScanNumber(s).rest);
      NumberBranch(m + x);
      SameNumber(ScanNumber(s), x);
    }
    CompactFrom(m, Number(NumberValue(ScanNumber(s))));
  }

  lemma SameStart(s: bytes, a: bytes, b: bytes, rest: bytes)
    requires s == a + rest && s == b + rest
    ensures a == b
  {
    assert a == s[..|s| - |rest|] == b;
  }

  lemma SameNumber(n: Scanned, x: bytes)
    ensures NumberValue(n.(rest := x)) == NumberValue(n)
  {
  }

  lemma ShrinkStringValue(s: bytes) returns (m: bytes)
    requires s != [] && s[0] == QUOTE && ParseValue(s).Ok? && Closing(s[1..]) != []
    ensures Becomes(s, m, ParseValue(s).value, ParseValue(s).rest)
  {
    hide Shrink, ParseValue, Unescape, Stable, Compact;
    StringBranch(s);
    PassesAgree(s[1..]);
    m := ShrinkString(s);
    forall x | Delimits(x)
      ensures ParseValue(m + x) == Ok(ParseValue(s).value, x)
    {
      StringBranch(m + x);
    }
    CompactFrom(m, ParseValue(s).value);
  }

  // Arrays

  /** The items of an array to its closing bracket, wherever they stand. */
  ghost predicate CompactItems(m: bytes, vs: seq<Json>) {
    && Stable(m) && m != [] && m[0] > 32 && m[0] != CLOSE_BRACKET
    && forall x :: ParseItems(m + x) == Ok(vs, x)
  }

  lemma CompactItemsBefore(m: bytes, vs: seq<Json>, x: bytes)
    requires CompactItems(m, vs)
    ensures ParseItems(m + x) == Ok(vs, x) && m != [] && m[0] > 32 && m[0] != CLOSE_BRACKET && Stable(m)
  {
  }

  lemma CompactItemsFrom(m: bytes, vs: seq<Json>)
    requires Stable(m) && m != [] && m[0] > 32 && m[0] != CLOSE_BRACKET && forall x :: ParseItems(m + x) == Ok(vs, x)
    ensures CompactItems(m, vs)
  {
  }

  /** A blank piece that minifying keeps. */
  ghost predicate Gap(c: bytes) {
    Blank(c) && Stable(c)
  }

  lemma CompactParts(m: bytes, v: Json)
    requires Compact(m, v)
    ensures Stable(m) && m != [] && m[0] > 32 && m[0] != CLOSE_BRACKET && m[0] != CLOSE_BRACE
  {
  }

  /** After a gap comes a byte that the parser looks at. */
  lemma GapThen(c: bytes, b: byte, y: bytes)
    requires Blank(c) && b > 32
    ensures Skip(c + ([b] + y)) == [b] + y && Head([b] + y) == b && ([b] + y)[1..] == y
    ensures b == COMMA || b == COLON || b == CLOSE_BRACKET || b == CLOSE_BRACE ==> Delimits(c + ([b] + y))
  {
    SkipBlank(c, [b] + y);
    assert c == [] ==> c + ([b] + y) == [b] + y;
  }

  lemma SkipNothing(m: bytes, x: bytes)
    requires m != [] && m[0] > 32
    ensures Skip(m + x) == m + x && Head(m + x) == m[0]
  {
  }

  lemma StableFour(a: bytes, c: bytes, b: byte, d: bytes)
    requires Stable(a) && Stable(c) && Copied(b) && Stable(d)
    ensures Stable(a + c + [b] + d)
  {
    hide Stable;
    StableByte(b);
    StableJoin(a, c);
    StableJoin(a + c, [b]);
    StableJoin(a + c + [b], d);
  }

  lemma PrefixFour(a: bytes, c: bytes, b: byte, d: bytes, r: Shrunk)
    ensures Prefix(a, Prefix(c, Prefix([b], Prefix(d, r)))) == Prefix(a + c + [b] + d, r)
  {
    hide Prefix;
    PrefixTwice(a, c, Prefix([b], Prefix(d, r)));
    PrefixTwice(a + c, [b], Prefix(d, r));
    PrefixTwice(a + c + [b], d, r);
  }

  lemma LastItem(m: bytes, v: Json, c: bytes)
    requires Compact(m, v) && Gap(c)
    ensures CompactItems(m + c + [CLOSE_BRACKET] + [], [v])
  {
    hide Compact, Stable, ParseItems, ParseValue, Blank;
    CompactParts(m, v);
    StableNothing();
    var all := m + c + [CLOSE_BRACKET] + [];
    StableFour(m, c, CLOSE_BRACKET, []);
    forall x
      ensures ParseItems(all + x) == Ok([v], x)
    {
      Pieces(m, c, [CLOSE_BRACKET], [], x);
      GapThen(c, CLOSE_BRACKET, [] + x);
      CompactBefore(m, v, c + ([CLOSE_BRACKET] + ([] + x)));
      ItemsTurn(all + x);
      assert [] + x == x && [v] + [] == [v];
    }
    CompactItemsFrom(all, [v]);
  }

  lemma MoreItems(m: bytes, v: Json, c: bytes, d: bytes, n: bytes, vs: seq<Json>)
    requires Compact(m, v) && Gap(c) && Gap(d) && CompactItems(n, vs)
    ensures CompactItems(m + c + [COMMA] + (d + n), [v] + vs)
  {
    hide Compact, Stable, ParseItems, ParseValue, CompactItems, Blank;
    CompactParts(m, v);
    CompactItemsBefore(n, vs, []);
    var all := m + c + [COMMA] + (d + n);
    StableJoin(d, n);
    StableFour(m, c, COMMA, d + n);
    forall x
      ensures ParseItems(all + x) == Ok([v] + vs, x)
    {
      Pieces(m, c, [COMMA], d + n, x);
      Assoc(d, n, x);
      var y := d + (n + x);
      GapThen(c, COMMA, y);
      CompactBefore(m, v, c + ([COMMA] + y));
      ItemsTurn(all + x);
      SkipBlank(d, n + x);
      CompactItemsBefore(n, vs, x);
      SkipNothing(n, x);
    }
    CompactItemsFrom(all, [v] + vs);
  }

  /** A byte that minifying keeps, cut off. */
  lemma ShrinkByte(t: bytes)
    requires t != [] && Copied(t[0])
    ensures Shrink(t) == Prefix([t[0]], Shrink(t[1..]))
  {
    StableByte(t[0]);
    StableBefore([t[0]], t[1..]);
    assert [t[0]] + t[1..] == t;
  }

  lemma {:induction false} ShrinkItems(s: bytes) returns (m: bytes)
    requires ParseItems(s).Ok?
    ensures CompactItems(m, ParseItems(s).value) && Shrink(s) == Prefix(m, Shrink(ParseItems(s).rest))
    decreases |s|, 2
  {
    hide Compact, Stable, ParseItems, ParseValue, CompactItems, Blank, Shrink;
    ItemsTurn(s);
    var v := ParseValue(s);
    var t := Skip(v.rest);
    ClosedValue(s);
    var a := ShrinkValue(s);
    var c := ShrinkBlanks(v.rest);
    ShrinkByte(t);
    if t[0] == CLOSE_BRACKET {
      LastItem(a, v.value, c);
      PrefixNothing(Shrink(t[1..]));
      PrefixFour(a, c, t[0], [], Shrink(t[1..]));
      assert [v.value] + [] == [v.value];
      m := a + c + [CLOSE_BRACKET] + [];
    } else {
      var d := ShrinkBlanks(t[1..]);
      var u := Skip(t[1..]);
      var n := ShrinkItems(u);
      var r := ParseItems(u);
      MoreItems(a, v.value, c, d, n, r.value);
      PrefixTwice(d, n, Shrink(r.rest));
      PrefixFour(a, c, t[0], d + n, Shrink(r.rest));
      m := a + c + [COMMA] + (d + n);
    }
  }

  /** Only at the end of the text can a string value be left open. */
  lemma ClosedValue(s: bytes)
    requires ParseValue(s).Ok? && ParseValue(s).rest != []
    ensures Closed(s)
  {
    hide ParseValue, Unescape;
    if Head(s) == QUOTE {
      StringBranch(s);
      PassesAgree(s[1..]);
    }
  }

  /** The text does not start with a string literal that runs to its end. */
  predicate Closed(s: bytes) {
    Head(s) == QUOTE ==> Closing(s[1..]) != []
  }

  lemma {:induction false} ShrinkArray(s: bytes) returns (m: bytes)
    requires s != [] && s[0] == OPEN_BRACKET && ParseValue(s).Ok?
    ensures Becomes(s, m, ParseValue(s).value, ParseValue(s).rest)
    decreases |s|, 0
  {
    hide Compact, Stable, ParseItems, ParseValue, CompactItems, Blank, Shrink;
    ArrayBranch(s);
    ShrinkByte(s);
    var c := ShrinkBlanks(s[1..]);
    var t := Skip(s[1..]);
    if Head(t) == CLOSE_BRACKET {
      ShrinkByte(t);
      EmptyArray(c);
      m := [OPEN_BRACKET] + (c + [CLOSE_BRACKET]);
      PrefixTwice(c, [CLOSE_BRACKET], Shrink(t[1..]));
      PrefixTwice([OPEN_BRACKET], c + [CLOSE_BRACKET], Shrink(t[1..]));
    } else {
      var n := ShrinkItems(t);
      var r := ParseItems(t);
      WholeArray(c, n, r.value);
      m := [OPEN_BRACKET] + (c + n);
      PrefixTwice(c, n, Shrink(r.rest));
      PrefixTwice([OPEN_BRACKET], c + n, Shrink(r.rest));
    }
  }

  lemma EmptyArray(c: bytes)
    requires Gap(c)
    ensures Compact([OPEN_BRACKET] + (c + [CLOSE_BRACKET]), Array([]))
  {
    hide Compact, Stable, ParseItems, ParseValue, Blank;
    var m := [OPEN_BRACKET] + (c + [CLOSE_BRACKET]);
    StableByte(OPEN_BRACKET);
    StableByte(CLOSE_BRACKET);
    StableJoin(c, [CLOSE_BRACKET]);
    StableJoin([OPEN_BRACKET], c + [CLOSE_BRACKET]);
    forall x | Delimits(x)
      ensures ParseValue(m + x) == Ok(Array([]), x)
    {
      assert (m + x)[1..] == c + ([CLOSE_BRACKET] + x);
      GapThen(c, CLOSE_BRACKET, x);
      ArrayBranch(m + x);
    }
    CompactFrom(m, Array([]));
  }

  lemma WholeArray(c: bytes, n: bytes, vs: seq<Json>)
    requires Gap(c) && CompactItems(n, vs)
    ensures Compact([OPEN_BRACKET] + (c + n), Array(vs))
  {
    hide Compact, Stable, ParseItems, ParseValue, CompactItems, Blank;
    var m := [OPEN_BRACKET] + (c + n);
    CompactItemsBefore(n, vs, []);
    StableByte(OPEN_BRACKET);
    StableJoin(c, n);
    StableJoin([OPEN_BRACKET], c + n);
    forall x | Delimits(x)
      ensures ParseValue(m + x) == Ok(Array(vs), x)
    {
      assert (m + x)[1..] == c + (n + x);
      SkipBlank(c, n + x);
      SkipNothing(n, x);
      CompactItemsBefore(n, vs, x);
      ArrayBranch(m + x);
    }
    CompactFrom(m, Array(vs));
  }

  lemma {:induction false} ShrinkValue(s: bytes) returns (m: bytes)
    requires ParseValue(s).Ok? && Closed(s)
    ensures Becomes(s, m, ParseValue(s).value, ParseValue(s).rest)
    decreases |s|, 1
  {
    hide Becomes, ParseValue, Shrink;
    FirstByteBranch(s);
    if StartsWith(s, NULL_WORD) {
      m := NULL_WORD;
      assert s == m + s[4..];
      ShrinkWord(m, s[4..], Null);
    } else if StartsWith(s, FALSE_WORD) {
      m := FALSE_WORD;
      assert s == m + s[5..];
      ShrinkWord(m, s[5..], False);
    } else if StartsWith(s, TRUE_WORD) {
      m := TRUE_WORD;
      assert s == m + s[4..];
      ShrinkWord(m, s[4..], True);
    } else if s[0] == QUOTE {
      m := ShrinkStringValue(s);
    } else if s[0] == MINUS || IsDigit(s[0]) {
      NumberBranch(s);
      m := ShrinkNumber(s);
    } else if s[0] == OPEN_BRACKET {
      m := ShrinkArray(s);
    } else {
      m := ShrinkObject(s);
    }
  }

  // Objects

  ghost predicate CompactMember(m: bytes, v: Member) {
    && Stable(m) && m != [] && m[0] == QUOTE
    && forall x :: Delimits(x) ==> ParseMember(m + x) == Ok(v, x)
  }

  lemma CompactMemberBefore(m: bytes, v: Member, x: bytes)
    requires CompactMember(m, v) && Delimits(x)
    ensures ParseMember(m + x) == Ok(v, x)
  {
  }

  lemma CompactMemberFrom(m: bytes, v: Member)
    requires Stable(m) && m != [] && m[0] == QUOTE && forall x :: Delimits(x) ==> ParseMember(m + x) == Ok(v, x)
    ensures CompactMember(m, v)
  {
  }

  lemma MemberParts(m: bytes, v: Member)
    requires CompactMember(m, v)
    ensures Stable(m) && m != [] && m[0] == QUOTE
  {
  }

  lemma LiterallyBefore(m: bytes, str: bytes, x: bytes)
    requires Literally(m, str)
    ensures ParseString(m + x) == Ok(str, x) && Stable(m) && m != [] && m[0] == QUOTE
  {
  }

  lemma WholeMember(a: bytes, name: bytes, c: bytes, d: bytes, n: bytes, v: Json)
    requires Literally(a, name) && Gap(c) && Gap(d) && Compact(n, v)
    ensures CompactMember(a + c + [COLON] + (d + n), Member(name, v))
  {
    hide Compact, Stable, ParseMember, ParseString, ParseValue, Literally, Blank;
    LiterallyBefore(a, name, []);
    CompactParts(n, v);
    var all := a + c + [COLON] + (d + n);
    StableJoin(d, n);
    StableFour(a, c, COLON, d + n);
    forall x | Delimits(x)
      ensures ParseMember(all + x) == Ok(Member(name, v), x)
    {
      Pieces(a, c, [COLON], d + n, x);
      Assoc(d, n, x);
      var y := d + (n + x);
      LiterallyBefore(a, name, c + ([COLON] + y));
      GapThen(c, COLON, y);
      SkipBlank(d, n + x);
      SkipNothing(n, x);
      CompactBefore(n, v, x);
      MemberBranch(all + x);
    }
    CompactMemberFrom(all, Member(name, v));
  }

  lemma MemberBranch(s: bytes)
    requires ParseString(s).Ok? && Head(Skip(ParseString(s).rest)) == COLON
    ensures var t := Skip(ParseString(s).rest);
      ParseMember(s) == match ParseValue(Skip(t[1..]))
        case Ok(v, rest) => Ok(Member(ParseString(s).value, v), rest)
        case Fail(at) => Fail(at)
        case Undefined => Undefined
  {
    hide ParseString, ParseValue, Skip;
  }

  lemma MemberSteps(s: bytes)
    requires ParseMember(s).Ok?
    ensures ParseString(s).Ok?
    ensures var t := Skip(ParseString(s).rest); Head(t) == COLON && ParseValue(Skip(t[1..])).Ok?
  {
    hide ParseString, ParseValue, Skip;
  }

  lemma {:induction false} ShrinkMember(s: bytes) returns (m: bytes)
    requires ParseMember(s).Ok? && ParseMember(s).rest != []
    ensures CompactMember(m, ParseMember(s).value) && Shrink(s) == Prefix(m, Shrink(ParseMember(s).rest))
    decreases |s|, 2
  {
    hide Compact, Stable, ParseMember, ParseString, ParseValue, CompactMember, Blank, Shrink;
    MemberSteps(s);
    MemberBranch(s);
    var k := ParseString(s);
    var t := Skip(k.rest);
    ClosedName(s);
    var a := ShrinkString(s);
    var c := ShrinkBlanks(k.rest);
    ShrinkByte(t);
    var d := ShrinkBlanks(t[1..]);
    var u := Skip(t[1..]);
    ClosedValue(u);
    var n := ShrinkValue(u);
    var v := ParseValue(u);
    WholeMember(a, k.value, c, d, n, v.value);
    PrefixTwice(d, n, Shrink(v.rest));
    PrefixFour(a, c, t[0], d + n, Shrink(v.rest));
    m := a + c + [COLON] + (d + n);
  }

  lemma ClosedName(s: bytes)
    requires ParseString(s).Ok? && ParseString(s).rest != []
    ensures Unescape(s[1..]).rest != []
  {
  }

  /** The members of an object to its closing brace, wherever they stand. */
  ghost predicate CompactMembers(m: bytes, vs: seq<Member>) {
    && Stable(m) && m != [] && m[0] == QUOTE
    && forall x :: ParseMembers(m + x) == Ok(vs, x)
  }

  lemma CompactMembersBefore(m: bytes, vs: seq<Member>, x: bytes)
    requires CompactMembers(m, vs)
    ensures ParseMembers(m + x) == Ok(vs, x) && m != [] && m[0] == QUOTE && Stable(m)
  {
  }

  lemma CompactMembersFrom(m: bytes, vs: seq<Member>)
    requires Stable(m) && m != [] && m[0] == QUOTE && forall x :: ParseMembers(m + x) == Ok(vs, x)
    ensures CompactMembers(m, vs)
  {
  }

  lemma LastMember(m: bytes, v: Member, c: bytes)
    requires CompactMember(m, v) && Gap(c)
    ensures CompactMembers(m + c + [CLOSE_BRACE] + [], [v])
  {
    hide CompactMember, Stable, ParseMembers, ParseMember, Blank;
    MemberParts(m, v);
    StableNothing();
    var all := m + c + [CLOSE_BRACE] + [];
    StableFour(m, c, CLOSE_BRACE, []);
    forall x
      ensures ParseMembers(all + x) == Ok([v], x)
    {
      Pieces(m, c, [CLOSE_BRACE], [], x);
      GapThen(c, CLOSE_BRACE, [] + x);
      CompactMemberBefore(m, v, c + ([CLOSE_BRACE] + ([] + x)));
      MembersTurn(all + x);
      assert [] + x == x && [v] + [] == [v];
    }
    CompactMembersFrom(all, [v]);
  }

  lemma MoreMembers(m: bytes, v: Member, c: bytes, d: bytes, n: bytes, vs: seq<Member>)
    requires CompactMember(m, v) && Gap(c) && Gap(d) && CompactMembers(n, vs)
    ensures CompactMembers(m + c + [COMMA] + (d + n), [v] + vs)
  {
    hide CompactMember, Stable, ParseMembers, ParseMember, CompactMembers, Blank;
    MemberParts(m, v);
    CompactMembersBefore(n, vs, []);
    var all := m + c + [COMMA] + (d + n);
    StableJoin(d, n);
    StableFour(m, c, COMMA, d + n);
    forall x
      ensures ParseMembers(all + x) == Ok([v] + vs, x)
    {
      Pieces(m, c, [COMMA], d + n, x);
      Assoc(d, n, x);
      var y := d + (n + x);
      GapThen(c, COMMA, y);
      CompactMemberBefore(m, v, c + ([COMMA] + y));
      MembersTurn(all + x);
      SkipBlank(d, n + x);
      CompactMembersBefore(n, vs, x);
      SkipNothing(n, x);
    }
    CompactMembersFrom(all, [v] + vs);
  }

  lemma {:induction false} ShrinkMembers(s: bytes) returns (m: bytes)
    requires ParseMembers(s).Ok?
    ensures CompactMembers(m, ParseMembers(s).value) && Shrink(s) == Prefix(m, Shrink(ParseMembers(s).rest))
    decreases |s|, 3
  {
    hide Stable, ParseMembers, ParseMember, CompactMembers, CompactMember, Blank, Shrink;
    MembersTurn(s);
    var v := ParseMember(s);
    var t := Skip(v.rest);
    var a := ShrinkMember(s);
    var c := ShrinkBlanks(v.rest);
    ShrinkByte(t);
    if t[0] == CLOSE_BRACE {
      LastMember(a, v.value, c);
      PrefixNothing(Shrink(t[1..]));
      PrefixFour(a, c, t[0], [], Shrink(t[1..]));
      assert [v.value] + [] == [v.value];
      m := a + c + [CLOSE_BRACE] + [];
    } else {
      var d := ShrinkBlanks(t[1..]);
      var u := Skip(t[1..]);
      var n := ShrinkMembers(u);
      var r := ParseMembers(u);
      MoreMembers(a, v.value, c, d, n, r.value);
      PrefixTwice(d, n, Shrink(r.rest));
      PrefixFour(a, c, t[0], d + n, Shrink(r.rest));
      m := a + c + [COMMA] + (d + n);
    }
  }

  lemma {:induction false} ShrinkObject(s: bytes) returns (m: bytes)
    requires s != [] && s[0] == OPEN_BRACE && ParseValue(s).Ok?
    ensures Becomes(s, m, ParseValue(s).value, ParseValue(s).rest)
    decreases |s|, 0
  {
    hide Compact, Stable, ParseMembers, ParseValue, CompactMembers, Blank, Shrink;
    ObjectBranch(s);
    ShrinkByte(s);
    var c := ShrinkBlanks(s[1..]);
    var t := Skip(s[1..]);
    if Head(t) == CLOSE_BRACE {
      ShrinkByte(t);
      EmptyObject(c);
      m := [OPEN_BRACE] + (c + [CLOSE_BRACE]);
      PrefixTwice(c, [CLOSE_BRACE], Shrink(t[1..]));
      PrefixTwice([OPEN_BRACE], c + [CLOSE_BRACE], Shrink(t[1..]));
    } else {
      var n := ShrinkMembers(t);
      var r := ParseMembers(t);
      WholeObject(c, n, r.value);
      m := [OPEN_BRACE] + (c + n);
      PrefixTwice(c, n, Shrink(r.rest));
      PrefixTwice([OPEN_BRACE], c + n, Shrink(r.rest));
    }
  }

  lemma EmptyObject(c: bytes)
    requires Gap(c)
    ensures Compact([OPEN_BRACE] + (c + [CLOSE_BRACE]), Object([]))
  {
    hide Compact, Stable, ParseMembers, ParseValue, Blank;
    var m := [OPEN_BRACE] + (c + [CLOSE_BRACE]);
    StableByte(OPEN_BRACE);
    StableByte(CLOSE_BRACE);
    StableJoin(c, [CLOSE_BRACE]);
    StableJoin([OPEN_BRACE], c + [CLOSE_BRACE]);
    forall x | Delimits(x)
      ensures ParseValue(m + x) == Ok(Object([]), x)
    {
      assert (m + x)[1..] == c + ([CLOSE_BRACE] + x);
      GapThen(c, CLOSE_BRACE, x);
      ObjectBranch(m + x);
    }
    CompactFrom(m, Object([]));
  }

  lemma WholeObject(c: bytes, n: bytes, vs: seq<Member>)
    requires Gap(c) && CompactMembers(n, vs)
    ensures Compact([OPEN_BRACE] + (c + n), Object(vs))
  {
    hide Compact, Stable, ParseMembers, ParseValue, CompactMembers, Blank;
    var m := [OPEN_BRACE] + (c + n);
    CompactMembersBefore(n, vs, []);
    StableByte(OPEN_BRACE);
    StableJoin(c, n);
    StableJoin([OPEN_BRACE], c + n);
    forall x | Delimits(x)
      ensures ParseValue(m + x) == Ok(Object(vs), x)
    {
      assert (m + x)[1..] == c + (n + x);
      SkipBlank(c, n + x);
      SkipNothing(n, x);
      CompactMembersBefore(n, vs, x);
      ObjectBranch(m + x);
    }
    CompactFrom(m, Object(vs));
  }

  // Documents

  lemma OpenLiteral(s: bytes)
    requires !Closed(s)
    ensures Shrink(s) == Overrun
  {
  }

  /**
   * For a text that the parser accepts to its end: minifying stays inside it exactly when the text is not a lone string
   * literal that is never closed; then the result has the same value, and minifying it again changes nothing.
   */
  lemma MinifyKeepsMeaning(s: bytes)
    requires ParseDocument(s, true).Ok?
    ensures Shrink(s).Kept? <==> Closed(Skip(s))
    ensures Shrink(s).Kept? ==> ParseDocument(Shrink(s).text, true) == ParseDocument(s, true)
    ensures Shrink(s).Kept? ==> Shrink(Shrink(s).text) == Shrink(s)
  {
    hide Compact, Stable, ParseValue, Blank, Shrink, Closed;
    var t := Skip(s);
    var c := ShrinkBlanks(s);
    if !Closed(t) {
      OpenLiteral(t);
    } else {
      var v := ParseValue(t);
      var m := ShrinkValue(t);
      var d := ShrinkBlanks(v.rest);
      ShrinkEnd();
      var out := c + (m + (d + []));
      assert Shrink(s) == Kept(out);
      CompactParts(m, v.value);
      StableNothing();
      StableJoin(d, []);
      StableJoin(m, d + []);
      StableJoin(c, m + (d + []));
      StableBefore(out, []);
      assert out + [] == out;
      SkipBlank(c, m + (d + []));
      SkipNothing(m, d + []);
      BlankDelimits(d);
      CompactBefore(m, v.value, d + []);
      SkipBlank(d, []);
    }
  }

  /** Such a text is accepted: a quote on its own is an empty string, and minifying it runs past it. */
  lemma LoneQuote()
    ensures ParseDocument([QUOTE], true) == Ok(String([]), []) && !Closed(Skip([QUOTE])) && Shrink([QUOTE]) == Overrun
  {
    var s: bytes := [QUOTE];
    assert s[1..] == [] && Skip(s) == s;
    UnescapeStop(s[1..]);
    StringBranch(s);
    OpenLiteral(s);
  }

  lemma ShrinkEnd()
    ensures Shrink([]) == Kept([]) && Skip([]) == []
  {
  }

  lemma BlankDelimits(d: bytes)
    requires Blank(d)
    ensures Delimits(d + [])
  {
  }
}
