/**
 * What the recursive-descent parser computes, as functions on the rest of the text.
 * A C string position is the suffix that starts there; the empty suffix is the terminator.
 */
module ParseText {
  import opened Bytes
  import opened Json

  /**
   * Ok: the value and the text after it. Fail: a null return, with the position left in `ep`.
   * Undefined: the C code would run past a string literal (an escape cut short).
   */
  datatype Result<+T> = Ok(value: T, rest: bytes) | Fail(at: bytes) | Undefined

  function Skip(s: bytes): (t: bytes)
    ensures |t| <= |s|
    ensures t != [] ==> !(1 <= t[0] <= 32)
  {
    if s != [] && 1 <= s[0] <= 32 then Skip(s[1..]) else s
  }

  // Numbers

  function TakeDigits(s: bytes): (ds: bytes)
    ensures |ds| <= |s| && ds == s[..|ds|]
    ensures forall i :: 0 <= i < |ds| ==> IsDigit(ds[i])
    ensures |ds| < |s| ==> !IsDigit(s[|ds|])
  {
    if s != [] && IsDigit(s[0]) then [s[0]] + TakeDigits(s[1..]) else []
  }

  /** The number that the digits of a run add up to, one decimal place after the other. */
  function Accumulate(ds: bytes): int
  {
    if ds == [] then 0 else Accumulate(ds[..|ds| - 1]) * 10 + (ds[|ds| - 1] as int - 48)
  }

  function Power10(e: int): (p: real)
    ensures p > 0.0
    decreases if e < 0 then -e else e
  {
    if e == 0 then 1.0 else if e > 0 then 10.0 * Power10(e - 1) else Power10(e + 1) / 10.0
  }

  /** The pieces that parse_number recognises, and the text after them. */
  datatype Scanned = Scanned(negative: bool, whole: bytes, fraction: bytes, exponentNegative: bool, exponent: bytes,
                             rest: bytes)

  function ScanWhole(s: bytes): bytes {
    var t := if Head(s) == 48 then s[1..] else s;
    if 49 <= Head(t) <= 57 then TakeDigits(t) else []
  }

  function AfterWhole(s: bytes): (t: bytes)
    ensures |t| <= |s|
    ensures s != [] && IsDigit(s[0]) ==> |t| < |s|
  {
    var t := if Head(s) == 48 then s[1..] else s;
    t[|ScanWhole(s)|..]
  }

  function ScanFraction(s: bytes): bytes {
    if |s| >= 2 && s[0] == DOT && IsDigit(s[1]) then TakeDigits(s[1..]) else []
  }

  function AfterFraction(s: bytes): (t: bytes)
    ensures |t| <= |s|
  {
    var ds := ScanFraction(s);
    if ds == [] then s else s[1 + |ds|..]
  }

  predicate HasExponent(s: bytes) {
    Head(s) == LOWER_E || Head(s) == UPPER_E
  }

  /** The text after `e` and its optional sign. */
  function ExponentDigits(s: bytes): (t: bytes)
    requires HasExponent(s)
    ensures |t| < |s|
  {
    if Head(s[1..]) == PLUS || Head(s[1..]) == MINUS then s[2..] else s[1..]
  }

  function ScanNumber(s: bytes): (n: Scanned)
    ensures |n.rest| <= |s|
    ensures s != [] && (s[0] == MINUS || IsDigit(s[0])) ==> |n.rest| < |s|
  {
    var negative := Head(s) == MINUS;
    var s1 := if negative then s[1..] else s;
    var s2 := AfterWhole(s1);
    var s3 := AfterFraction(s2);
    if HasExponent(s3) then
      var ds := TakeDigits(ExponentDigits(s3));
      Scanned(negative, ScanWhole(s1), ScanFraction(s2), Head(s3[1..]) == MINUS, ds, ExponentDigits(s3)[|ds|..])
    else
      Scanned(negative, ScanWhole(s1), ScanFraction(s2), false, [], s3)
  }

  /** `sign * n * pow(10, e)` in exact arithmetic. */
  function Scaled(negative: bool, n: real, e: int): real {
    (if negative then -1.0 else 1.0) * n * Power10(e)
  }

  /** The power of ten: `scale + subscale * signsubscale`. */
  function ScaleOf(n: Scanned): int {
    -|n.fraction| + (if n.exponentNegative then -Accumulate(n.exponent) else Accumulate(n.exponent))
  }

  function NumberValue(n: Scanned): real {
    Scaled(n.negative, Accumulate(n.whole + n.fraction) as real, ScaleOf(n))
  }

  // String literals

  function HexValue(c: byte): (h: int)
    ensures -1 <= h < 16
  {
    if 48 <= c <= 57 then c - 48 else if 65 <= c <= 70 then c - 55 else if 97 <= c <= 102 then c - 87 else -1
  }

  /** parse_hex4: zero as soon as one of the four is not a hex digit. */
  function Hex4(s: bytes): (h: int)
    requires |s| >= 4
    ensures 0 <= h < 0x1_0000
  {
    var a, b, c, d := HexValue(s[0]), HexValue(s[1]), HexValue(s[2]), HexValue(s[3]);
    if a < 0 || b < 0 || c < 0 || d < 0 then 0 else ((a * 16 + b) * 16 + c) * 16 + d
  }

  /** Four bytes that the first pass of parse_string steps over one by one. */
  predicate FourPlain(s: bytes) {
    |s| >= 4 && forall i :: 0 <= i < 4 ==> s[i] != QUOTE && s[i] != BACKSLASH
  }

  /** UTF-8 (section 3 of RFC 3629). */
  function Utf8(c: int): (r: bytes)
    requires 0 <= c < 0x11_0000
    ensures 1 <= |r| <= 4
  {
    if c < 0x80 then [c]
    else if c < 0x800 then [0xC0 + c / 0x40, 0x80 + c % 0x40]
    else if c < 0x1_0000 then [0xE0 + c / 0x1000, 0x80 + c / 0x40 % 0x40, 0x80 + c % 0x40]
    else [0xF0 + c / 0x4_0000, 0x80 + c / 0x1000 % 0x40, 0x80 + c / 0x40 % 0x40, 0x80 + c % 0x40]
  }

  predicate IsHigh(u: int) { 0xD800 <= u <= 0xDBFF }

  predicate IsLow(u: int) { 0xDC00 <= u <= 0xDFFF }

  /** Section 2.2 of RFC 2781. */
  function Combine(high: int, low: int): (c: int)
    requires IsHigh(high) && IsLow(low)
    ensures 0x1_0000 <= c < 0x11_0000
  {
    0x1_0000 + (high - 0xD800) * 0x400 + (low - 0xDC00)
  }

  function EscapedChar(c: byte): byte {
    if c == 98 then 8 else if c == 102 then 12 else if c == 110 then NEWLINE
    else if c == 114 then RETURN else if c == 116 then TAB else c
  }

  /** One turn of the second pass of parse_string: the bytes written and the number of bytes read. */
  datatype Unit = Unit(out: bytes, size: nat) | Cut

  predicate FollowedByEscape(s: bytes) {
    |s| >= 8 && s[6] == BACKSLASH && s[7] == LOWER_U
  }

  function NextUnit(s: bytes): (u: Unit)
    requires s != [] && s[0] != QUOTE
    ensures u.Unit? ==> 1 <= u.size <= |s| && |u.out| <= u.size
  {
    if s[0] != BACKSLASH then Unit([s[0]], 1)
    else if |s| < 2 then Cut
    else if s[1] != LOWER_U then Unit([EscapedChar(s[1])], 2)
    else if !FourPlain(s[2..]) then Cut
    else
      var u := Hex4(s[2..]);
      if IsLow(u) || u == 0 then Unit([], 6)
      else if !IsHigh(u) then Unit(Utf8(u), 6)
      else if !FollowedByEscape(s) then Unit([], 6)
      else if !FourPlain(s[8..]) then Cut
      else
        var l := Hex4(s[8..]);
        if IsLow(l) then Unit(Utf8(Combine(u, l)), 12) else Unit([], 12)
  }

  /** The second pass of parse_string from a position inside the literal: `rest` starts at the terminator. */
  function Unescape(s: bytes): (r: Result<bytes>)
    ensures !r.Fail?
    ensures r.Ok? ==> |r.rest| <= |s| && (r.rest == [] || r.rest[0] == QUOTE)
  {
    if s == [] || s[0] == QUOTE then Ok([], s)
    else
      var u := NextUnit(s);
      if u.Cut? then Undefined
      else
        var r := Unescape(s[u.size..]);
        if r.Ok? then Ok(u.out + r.value, r.rest) else r
  }

  lemma UnescapeTurn(s: bytes)
    requires s != [] && s[0] != QUOTE && NextUnit(s).Unit?
    ensures Unescape(s) == match Unescape(s[NextUnit(s).size..])
      case Ok(value, rest) => Ok(NextUnit(s).out + value, rest)
      case r => r
  {
    hide NextUnit;
  }

  lemma UnescapeStop(s: bytes)
    requires s == [] || s[0] == QUOTE
    ensures Unescape(s) == Ok([], s)
  {
  }

  lemma UnescapeDefined(s: bytes)
    requires Unescape(s).Ok? && s != [] && s[0] != QUOTE
    ensures NextUnit(s).Unit? && Unescape(s[NextUnit(s).size..]).Ok?
  {
    hide NextUnit;
  }

  function ParseString(s: bytes): (r: Result<bytes>)
    ensures r.Ok? ==> |r.rest| < |s|
  {
    if Head(s) != QUOTE then Fail(s)
    else
      var r := Unescape(s[1..]);
      if r.Ok? && r.rest != [] then Ok(r.value, r.rest[1..]) else r
  }

  // Values

  predicate StartsWith(s: bytes, word: bytes) {
    |s| >= |word| && s[..|word|] == word
  }

  function ParseValue(s: bytes): (r: Result<Json>)
    ensures r.Ok? ==> |r.rest| < |s|
    decreases |s|, 1
  {
    if StartsWith(s, NULL_WORD) then Ok(Null, s[4..])
    else if StartsWith(s, FALSE_WORD) then Ok(False, s[5..])
    else if StartsWith(s, TRUE_WORD) then Ok(True, s[4..])
    else if s == [] then Fail(s)
    else if s[0] == QUOTE then
      var r := ParseString(s);
      if r.Ok? then Ok(String(r.value), r.rest) else if r.Fail? then Fail(r.at) else Undefined
    else if s[0] == MINUS || IsDigit(s[0]) then
      var n := ScanNumber(s);
      Ok(Number(NumberValue(n)), n.rest)
    else if s[0] == OPEN_BRACKET then
      var t := Skip(s[1..]);
      if Head(t) == CLOSE_BRACKET then Ok(Array([]), t[1..])
      else
        var r := ParseItems(t);
        if r.Ok? then Ok(Array(r.value), r.rest) else if r.Fail? then Fail(r.at) else Undefined
    else if s[0] == OPEN_BRACE then
      var t := Skip(s[1..]);
      if Head(t) == CLOSE_BRACE then Ok(Object([]), t[1..])
      else
        var r := ParseMembers(t);
        if r.Ok? then Ok(Object(r.value), r.rest) else if r.Fail? then Fail(r.at) else Undefined
    else Fail(s)
  }

  /** The first byte selects the branch of parse_value. */
  lemma NoWord(s: bytes)
    requires s != [] && s[0] != 110 && s[0] != 102 && s[0] != 116
    ensures !StartsWith(s, NULL_WORD) && !StartsWith(s, FALSE_WORD) && !StartsWith(s, TRUE_WORD)
  {
  }

  lemma ArrayBranch(s: bytes)
    requires s != [] && s[0] == OPEN_BRACKET
    ensures var t := Skip(s[1..]);
      ParseValue(s) ==
        if Head(t) == CLOSE_BRACKET then Ok(Array([]), t[1..])
        else match ParseItems(t)
             case Ok(items, rest) => Ok(Array(items), rest)
             case Fail(at) => Fail(at)
             case Undefined => Undefined
  {
    hide StartsWith, Skip, ParseItems;
    NoWord(s);
  }

  lemma ObjectBranch(s: bytes)
    requires s != [] && s[0] == OPEN_BRACE
    ensures var t := Skip(s[1..]);
      ParseValue(s) ==
        if Head(t) == CLOSE_BRACE then Ok(Object([]), t[1..])
        else match ParseMembers(t)
             case Ok(members, rest) => Ok(Object(members), rest)
             case Fail(at) => Fail(at)
             case Undefined => Undefined
  {
    hide StartsWith, Skip, ParseMembers;
    NoWord(s);
  }

  lemma StringBranch(s: bytes)
    requires s != [] && s[0] == QUOTE
    ensures ParseValue(s) == match ParseString(s)
      case Ok(str, rest) => Ok(String(str), rest)
      case Fail(at) => Fail(at)
      case Undefined => Undefined
  {
    hide StartsWith, Skip, ParseString;
    NoWord(s);
  }

  lemma NumberBranch(s: bytes)
    requires s != [] && (s[0] == MINUS || IsDigit(s[0]))
    ensures ParseValue(s) == Ok(Number(NumberValue(ScanNumber(s))), ScanNumber(s).rest)
  {
    hide StartsWith, Skip, ScanNumber, NumberValue;
    NoWord(s);
  }

  /** The words are tried first; a text that starts with nothing known is refused where it stands. */
  lemma FirstByteBranch(s: bytes)
    ensures StartsWith(s, NULL_WORD) ==> |s| >= 4 && ParseValue(s) == Ok(Null, s[4..])
    ensures !StartsWith(s, NULL_WORD) && StartsWith(s, FALSE_WORD) ==> |s| >= 5 && ParseValue(s) == Ok(False, s[5..])
    ensures !StartsWith(s, NULL_WORD) && !StartsWith(s, FALSE_WORD) && StartsWith(s, TRUE_WORD) ==>
      |s| >= 4 && ParseValue(s) == Ok(True, s[4..])
    ensures !StartsWith(s, NULL_WORD) && !StartsWith(s, FALSE_WORD) && !StartsWith(s, TRUE_WORD)
      && Head(s) != QUOTE && Head(s) != MINUS && !IsDigit(Head(s)) && Head(s) != OPEN_BRACKET && Head(s) != OPEN_BRACE
      ==> ParseValue(s) == Fail(s)
  {
    hide ParseItems, ParseMembers, ParseString, ScanNumber, NumberValue;
  }

  lemma WordBranch(word: bytes, rest: bytes)
    requires word == NULL_WORD || word == FALSE_WORD || word == TRUE_WORD
    ensures ParseValue(word + rest)
      == Ok(if word == NULL_WORD then Null else if word == FALSE_WORD then False else True, rest)
  {
    var s := word + rest;
    assert s[|word|..] == rest;
    assert StartsWith(s, word);
    assert word != NULL_WORD ==> s[0] != NULL_WORD[0];
    assert word == TRUE_WORD ==> s[0] != FALSE_WORD[0];
  }

  /** Elements from the start of one of them to the closing bracket. */
  function ParseItems(s: bytes): (r: Result<seq<Json>>)
    ensures r.Ok? ==> |r.rest| < |s|
    decreases |s|, 2
  {
    var v := ParseValue(s);
    if v.Fail? then Fail(v.at) else if v.Undefined? then Undefined
    else
      var t := Skip(v.rest);
      if Head(t) == CLOSE_BRACKET then Ok([v.value], t[1..])
      else if Head(t) != COMMA then Fail(t)
      else
        var r := ParseItems(Skip(t[1..]));
        if r.Ok? then Ok([v.value] + r.value, r.rest) else r
  }

  /** One member: name, colon, value. */
  function ParseMember(s: bytes): (r: Result<Member>)
    ensures r.Ok? ==> |r.rest| < |s|
    decreases |s|, 2
  {
    var k := ParseString(s);
    if k.Fail? then Fail(k.at) else if k.Undefined? then Undefined
    else
      var t := Skip(k.rest);
      if Head(t) != COLON then Fail(t)
      else
        var v := ParseValue(Skip(t[1..]));
        if v.Ok? then Ok(Member(k.value, v.value), v.rest) else if v.Fail? then Fail(v.at) else Undefined
  }

  /** Members from the start of one of them to the closing brace. */
  function ParseMembers(s: bytes): (r: Result<seq<Member>>)
    ensures r.Ok? ==> |r.rest| < |s|
    decreases |s|, 3
  {
    var m := ParseMember(s);
    if m.Fail? then Fail(m.at) else if m.Undefined? then Undefined
    else
      var t := Skip(m.rest);
      if Head(t) == CLOSE_BRACE then Ok([m.value], t[1..])
      else if Head(t) != COMMA then Fail(t)
      else
        var r := ParseMembers(Skip(t[1..]));
        if r.Ok? then Ok([m.value] + r.value, r.rest) else r
  }

  // The loops of parse_array and parse_object, one turn at a time

  function Prepend<T>(xs: seq<T>, r: Result<seq<T>>): Result<seq<T>> {
    if r.Ok? then Ok(xs + r.value, r.rest) else r
  }

  /** What remains to be done after an element and the blanks after it. */
  function AfterItem(t: bytes): Result<seq<Json>> {
    if Head(t) == CLOSE_BRACKET then Ok([], t[1..])
    else if Head(t) == COMMA then ParseItems(Skip(t[1..]))
    else Fail(t)
  }

  lemma ItemsTurn(s: bytes)
    ensures ParseItems(s) == match ParseValue(s)
      case Ok(v, rest) => Prepend([v], AfterItem(Skip(rest)))
      case Fail(at) => Fail(at)
      case Undefined => Undefined
  {
    hide ParseValue, Skip;
    var v := ParseValue(s);
    if v.Ok? {
      assert [v.value] + [] == [v.value];
    }
  }

  function AfterMember(t: bytes): Result<seq<Member>> {
    if Head(t) == CLOSE_BRACE then Ok([], t[1..])
    else if Head(t) == COMMA then ParseMembers(Skip(t[1..]))
    else Fail(t)
  }

  lemma MembersTurn(s: bytes)
    ensures ParseMembers(s) == match ParseMember(s)
      case Ok(m, rest) => Prepend([m], AfterMember(Skip(rest)))
      case Fail(at) => Fail(at)
      case Undefined => Undefined
  {
    hide ParseMember, Skip;
    var m := ParseMember(s);
    if m.Ok? {
      assert [m.value] + [] == [m.value];
    }
  }

  lemma PrependTwice<T>(xs: seq<T>, x: T, r: Result<seq<T>>)
    ensures Prepend(xs, Prepend([x], r)) == Prepend(xs + [x], r)
  {
    if r.Ok? {
      assert xs + ([x] + r.value) == xs + [x] + r.value;
    }
  }

  lemma SkipTwice(s: bytes)
    ensures Skip(Skip(s)) == Skip(s)
  {
  }

  /** cJSON_ParseWithOpts. */
  function ParseDocument(s: bytes, requireEnd: bool): (r: Result<Json>)
    ensures r.Ok? ==> |r.rest| < |s|
    ensures r.Ok? && requireEnd ==> r.rest == []
  {
    var r := ParseValue(Skip(s));
    if !r.Ok? || !requireEnd then r
    else
      var end := Skip(r.rest);
      if end == [] then Ok(r.value, end) else Fail(end)
  }
}
