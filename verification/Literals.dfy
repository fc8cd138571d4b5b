/** The grammar of string literals that parse_string accepts, and what each piece of it denotes. */
module Literals {
  import opened Bytes
  import opened ParseText

  // Hexadecimal digits, written out

  const LOWER_DIGITS: bytes := [48, 49, 50, 51, 52, 53, 54, 55, 56, 57, 97, 98, 99, 100, 101, 102]
  const UPPER_DIGITS: bytes := [48, 49, 50, 51, 52, 53, 54, 55, 56, 57, 65, 66, 67, 68, 69, 70]

  predicate WritesDigit(c: byte, d: nat) {
    d < 16 && (c == LOWER_DIGITS[d] || c == UPPER_DIGITS[d])
  }

  /** The four characters write the number, each digit in either case. */
  predicate Writes(h: bytes, n: nat) {
    && |h| == 4 && WritesDigit(h[0], n / 0x1000) && WritesDigit(h[1], n / 0x100 % 0x10)
    && WritesDigit(h[2], n / 0x10 % 0x10) && WritesDigit(h[3], n % 0x10)
  }

  predicate IsHex(c: byte) {
    c in LOWER_DIGITS || c in UPPER_DIGITS
  }

  lemma DigitRead(c: byte, d: nat)
    requires WritesDigit(c, d)
    ensures HexValue(c) == d && c != QUOTE && c != BACKSLASH && IsHex(c)
  {
    assert c == LOWER_DIGITS[d] || c == UPPER_DIGITS[d];
  }

  lemma DigitWritten(c: byte)
    ensures IsHex(c) <==> HexValue(c) >= 0
    ensures IsHex(c) ==> WritesDigit(c, HexValue(c))
  {
    if HexValue(c) >= 0 {
      var d := HexValue(c);
      assert c == LOWER_DIGITS[d] || c == UPPER_DIGITS[d];
    }
    if IsHex(c) {
      var d :| 0 <= d < 16 && (LOWER_DIGITS[d] == c || UPPER_DIGITS[d] == c);
      assert 48 <= c <= 57 || 65 <= c <= 70 || 97 <= c <= 102;
    }
  }

  lemma Digits(n: nat)
    requires n < 0x1_0000
    ensures ((n / 0x1000 * 16 + n / 0x100 % 0x10) * 16 + n / 0x10 % 0x10) * 16 + n % 0x10 == n
  {
    var a, b := n / 0x10, n / 0x100;
    assert n == a * 16 + n % 0x10 && a == b * 16 + a % 0x10 && b == n / 0x1000 * 16 + b % 0x10;
  }

  /** The four digits one by one. */
  lemma DigitsRead(h: bytes, a: nat, b: nat, c: nat, d: nat)
    requires |h| == 4
    requires WritesDigit(h[0], a) && WritesDigit(h[1], b) && WritesDigit(h[2], c) && WritesDigit(h[3], d)
    ensures Hex4(h) == ((a * 16 + b) * 16 + c) * 16 + d && Four(h)
  {
    hide HexValue, WritesDigit, IsHex;
    DigitRead(h[0], a);
    DigitRead(h[1], b);
    DigitRead(h[2], c);
    DigitRead(h[3], d);
  }

  /** parse_hex4 reads every number below 0x10000 from the digits that write it, in any mixture of cases. */
  lemma HexRead(h: bytes, n: nat)
    requires Writes(h, n)
    ensures Hex4(h) == n && Four(h)
  {
    hide Hex4, WritesDigit, Four;
    WrittenBound(h, n);
    DigitsRead(h, n / 0x1000, n / 0x100 % 0x10, n / 0x10 % 0x10, n % 0x10);
    Digits(n);
  }

  lemma WrittenBound(h: bytes, n: nat)
    requires Writes(h, n)
    ensures n < 0x1_0000
  {
  }

  /** Any four digits write the number that is read from them; with anything else among them, zero is read. */
  lemma HexWritten(h: bytes)
    requires |h| == 4
    ensures (forall i :: 0 <= i < 4 ==> IsHex(h[i])) ==> Writes(h, Hex4(h))
    ensures !(forall i :: 0 <= i < 4 ==> IsHex(h[i])) ==> Hex4(h) == 0
  {
    hide HexValue, IsHex, WritesDigit, Writes;
    DigitWritten(h[0]);
    DigitWritten(h[1]);
    DigitWritten(h[2]);
    DigitWritten(h[3]);
    var a, b, c, d := HexValue(h[0]), HexValue(h[1]), HexValue(h[2]), HexValue(h[3]);
    if a >= 0 && b >= 0 && c >= 0 && d >= 0 {
      DigitsWritten(h, a, b, c, d);
    }
  }

  lemma DigitsWritten(h: bytes, a: nat, b: nat, c: nat, d: nat)
    requires |h| == 4
    requires WritesDigit(h[0], a) && WritesDigit(h[1], b) && WritesDigit(h[2], c) && WritesDigit(h[3], d)
    ensures Writes(h, ((a * 16 + b) * 16 + c) * 16 + d)
  {
    assert a < 16 && b < 16 && c < 16 && d < 16;
    Nibbles(a, b, c, d);
  }

  lemma Nibbles(a: nat, b: nat, c: nat, d: nat)
    requires a < 16 && b < 16 && c < 16 && d < 16
    ensures var n := ((a * 16 + b) * 16 + c) * 16 + d;
      n / 0x1000 == a && n / 0x100 % 0x10 == b && n / 0x10 % 0x10 == c && n % 0x10 == d
  {
    var n := ((a * 16 + b) * 16 + c) * 16 + d;
    assert n / 0x10 == (a * 16 + b) * 16 + c && n / 0x100 == a * 16 + b && n / 0x1000 == a;
  }

  /**
   * The pieces of a literal (section 7 of RFC 8259), with the code's rule for the escapes that denote no character: a
   * zero unit, a low surrogate on its own and four characters that are no hexadecimal digits are dropped, so is a high
   * surrogate on its own, and a high surrogate takes a following escape down with it when that one is not a low
   * surrogate.
   */
  datatype Piece =
    | Raw(c: byte)
    | Short(c: byte, out: byte)
    | Basic(n: nat, hex: bytes)
    | Pair(n: nat, hex: bytes, low: bytes)
    | Dropped(n: nat, hex: bytes)
    | Malformed(hex: bytes)
    | LoneHigh(n: nat, hex: bytes)
    | BrokenPair(n: nat, hex: bytes, other: bytes)

  predicate IsUnit(p: Piece) {
    !p.Raw? && !p.Short?
  }

  /** The four characters after `\u`: none of them ends the literal or starts an escape. */
  predicate Four(h: bytes) {
    |h| == 4 && FourPlain(h)
  }

  /** The escapes of two characters; those without a meaning of their own stand for themselves. */
  predicate ShortEscape(c: byte, out: byte) {
    if c == 98 then out == 8
    else if c == 116 then out == 9
    else if c == 110 then out == 10
    else if c == 102 then out == 12
    else if c == 114 then out == 13
    else out == c
  }

  /** The surrogates of a character beyond the first plane (section 2.1 of RFC 2781). */
  function HighOf(c: nat): nat
    requires 0x1_0000 <= c
  {
    0xD800 + (c - 0x1_0000) / 0x400
  }

  function LowOf(c: nat): nat
    requires 0x1_0000 <= c
  {
    0xDC00 + (c - 0x1_0000) % 0x400
  }

  ghost predicate Accepted(p: Piece) {
    match p
    case Raw(c) => c != 0 && c != QUOTE && c != BACKSLASH
    case Short(c, out) => c != 0 && c != LOWER_U && ShortEscape(c, out)
    case Basic(n, h) => Writes(h, n) && n != 0 && !IsHigh(n) && !IsLow(n)
    case Pair(c, h, l) => 0x1_0000 <= c < 0x11_0000 && Writes(h, HighOf(c)) && Writes(l, LowOf(c))
    case Dropped(n, h) => Writes(h, n) && (n == 0 || IsLow(n))
    case Malformed(h) => Four(h) && !forall i :: 0 <= i < 4 ==> IsHex(h[i])
    case LoneHigh(n, h) => Writes(h, n) && IsHigh(n)
    case BrokenPair(n, h, o) => Writes(h, n) && IsHigh(n) && Four(o) && forall m :: IsLow(m) ==> !Writes(o, m)
  }

  function PieceText(p: Piece): bytes {
    match p
    case Raw(c) => [c]
    case Short(c, _) => [BACKSLASH, c]
    case Pair(_, h, l) => [BACKSLASH, LOWER_U] + h + [BACKSLASH, LOWER_U] + l
    case BrokenPair(_, h, o) => [BACKSLASH, LOWER_U] + h + [BACKSLASH, LOWER_U] + o
    case _ => [BACKSLASH, LOWER_U] + p.hex
  }

  ghost function Meaning(p: Piece): bytes
    requires Accepted(p)
  {
    match p
    case Raw(c) => [c]
    case Short(_, out) => [out]
    case Basic(n, _) => (UnitBound(p); Utf8(n))
    case Pair(c, _, _) => Utf8(c)
    case _ => []
  }

  lemma UnitBound(p: Piece)
    requires p.Basic? && Accepted(p)
    ensures p.n < 0x1_0000
  {
  }

  /** A lone high surrogate is one that no other `\u` escape follows. */
  ghost predicate AcceptedAll(ps: seq<Piece>) {
    ps == [] || (Accepted(ps[0]) && (ps[0].LoneHigh? && |ps| > 1 ==> !IsUnit(ps[1])) && AcceptedAll(ps[1..]))
  }

  function TextOf(ps: seq<Piece>): bytes {
    if ps == [] then [] else PieceText(ps[0]) + TextOf(ps[1..])
  }

  ghost function MeaningOf(ps: seq<Piece>): bytes
    requires AcceptedAll(ps)
  {
    if ps == [] then [] else Meaning(ps[0]) + MeaningOf(ps[1..])
  }

  predicate StartsUnit(s: bytes) {
    |s| >= 2 && s[0] == BACKSLASH && s[1] == LOWER_U
  }

  lemma SliceHex(h: bytes, s: bytes)
    requires Four(h) && |s| >= 4 && s[..4] == h
    ensures FourPlain(s) && Hex4(s) == Hex4(h)
  {
    assert forall i :: 0 <= i < 4 ==> s[i] == s[..4][i];
  }

  /** What the code reads from the digits of an escape. */
  lemma UnitRead(p: Piece)
    requires Accepted(p) && IsUnit(p)
    ensures Four(p.hex)
    ensures p.Basic? || p.LoneHigh? || p.BrokenPair? || p.Dropped? ==> Hex4(p.hex) == p.n
    ensures p.Malformed? ==> Hex4(p.hex) == 0
    ensures p.Pair? ==> Hex4(p.hex) == HighOf(p.n)
  {
    hide Hex4, Writes, IsHex, HighOf, LowOf;
    if p.Malformed? {
      HexWritten(p.hex);
    } else {
      HexRead(p.hex, if p.Pair? then HighOf(p.n) else p.n);
    }
  }

  lemma SecondRead(p: Piece)
    requires Accepted(p) && (p.Pair? || p.BrokenPair?)
    ensures p.Pair? ==> Four(p.low) && Hex4(p.low) == LowOf(p.n)
    ensures p.BrokenPair? ==> Four(p.other) && !IsLow(Hex4(p.other))
  {
    hide Hex4, Writes, IsHex, HighOf, LowOf;
    match p
    case Pair(c, _, l) => HexRead(l, LowOf(c));
    case BrokenPair(_, _, o) => HexWritten(o);
  }

  /** Surrogates split and recombine (section 2.2 of RFC 2781). */
  lemma CombineSurjective(c: int)
    requires 0x1_0000 <= c < 0x11_0000
    ensures IsHigh(HighOf(c)) && IsLow(LowOf(c)) && Combine(HighOf(c), LowOf(c)) == c
  {
  }

  lemma SplitUnique(high: int, low: int)
    requires IsHigh(high) && IsLow(low)
    ensures HighOf(Combine(high, low)) == high && LowOf(Combine(high, low)) == low
  {
  }

  /** The second pass of parse_string reads exactly one piece per turn and writes its meaning. */
  lemma PieceUnit(p: Piece, rest: bytes)
    requires Accepted(p) && (p.LoneHigh? ==> !StartsUnit(rest))
    ensures var t := PieceText(p);
      t != [] && t[0] != QUOTE && NextUnit(t + rest) == Unit(Meaning(p), |t|)
  {
    if IsUnit(p) {
      LongPiece(p, rest);
    } else {
      ShortPiece(p, rest);
    }
  }

  lemma ShortPiece(p: Piece, rest: bytes)
    requires Accepted(p) && !IsUnit(p)
    ensures var t := PieceText(p);
      t != [] && t[0] != QUOTE && NextUnit(t + rest) == Unit(Meaning(p), |t|)
  {
    hide Hex4, Utf8, Combine, FourPlain;
  }

  lemma LongPiece(p: Piece, rest: bytes)
    requires Accepted(p) && IsUnit(p) && (p.LoneHigh? ==> !StartsUnit(rest))
    ensures var t := PieceText(p);
      t != [] && t[0] != QUOTE && NextUnit(t + rest) == Unit(Meaning(p), |t|)
  {
    hide Hex4, Utf8, Combine, Writes, IsHex, HighOf, LowOf, FourPlain;
    var t := PieceText(p);
    var more := if p.Pair? then [BACKSLASH, LOWER_U] + p.low + rest
                else if p.BrokenPair? then [BACKSLASH, LOWER_U] + p.other + rest
                else rest;
    assert t + rest == [BACKSLASH, LOWER_U] + p.hex + more;
    UnitRead(p);
    UnitText(p.hex, more);
    match p
    case Pair(c, h, l) =>
      SecondRead(p);
      UnitText(l, rest);
      CombineSurjective(c);
    case BrokenPair(_, _, o) =>
      SecondRead(p);
      UnitText(o, rest);
    case _ =>
  }

  /** A `\u` escape at the start of a text. */
  lemma UnitText(h: bytes, y: bytes)
    requires Four(h)
    ensures
      var s := [BACKSLASH, LOWER_U] + h + y;
      && |s| == 6 + |y| && s[0] == BACKSLASH && s[1] == LOWER_U && FourPlain(s[2..]) && Hex4(s[2..]) == Hex4(h)
      && s[6..] == y
      && (forall i :: 0 <= i < |y| ==> s[6 + i] == y[i])
      && (|y| >= 2 ==> s[8..] == y[2..])
  {
    hide Hex4;
    var s := [BACKSLASH, LOWER_U] + h + y;
    assert s[2..] == h + y;
    assert s[2..][..4] == h;
    SliceHex(h, s[2..]);
  }

  predicate IsTerminator(t: bytes) {
    t == [] || t[0] == QUOTE
  }

  lemma TextStartsUnit(ps: seq<Piece>, t: bytes)
    requires AcceptedAll(ps) && IsTerminator(t) && (ps == [] || !IsUnit(ps[0]))
    ensures !StartsUnit(TextOf(ps) + t)
  {
    if ps == [] {
      assert TextOf(ps) + t == t;
    }
  }

  /** Every accepted literal is read to its terminator and denotes the UTF-8 of its pieces. */
  lemma {:induction false} LiteralDenotes(ps: seq<Piece>, t: bytes)
    requires AcceptedAll(ps) && IsTerminator(t)
    ensures Unescape(TextOf(ps) + t) == Ok(MeaningOf(ps), t)
  {
    hide NextUnit, PieceText, Meaning, Accepted;
    var s := TextOf(ps) + t;
    if ps == [] {
      assert s == t;
    } else {
      var p, more := ps[0], TextOf(ps[1..]) + t;
      assert s == PieceText(p) + more;
      if p.LoneHigh? {
        TextStartsUnit(ps[1..], t);
      }
      PieceUnit(p, more);
      assert s[|PieceText(p)|..] == more && s[0] == PieceText(p)[0];
      LiteralDenotes(ps[1..], t);
    }
  }

  /** The piece at the start of a literal that is well formed there. */
  function FirstPiece(s: bytes): (p: Piece)
    requires s != [] && s[0] != QUOTE && NextUnit(s).Unit?
  {
    if s[0] != BACKSLASH then Raw(s[0])
    else if s[1] != LOWER_U then Short(s[1], EscapedChar(s[1]))
    else
      var h := s[2..6];
      var u := Hex4(s[2..]);
      if u == 0 && !(IsHex(h[0]) && IsHex(h[1]) && IsHex(h[2]) && IsHex(h[3])) then Malformed(h)
      else if IsLow(u) || u == 0 then Dropped(u, h)
      else if !IsHigh(u) then Basic(u, h)
      else if !FollowedByEscape(s) then LoneHigh(u, h)
      else if IsLow(Hex4(s[8..])) then Pair(Combine(u, Hex4(s[8..])), h, s[8..12])
      else BrokenPair(u, h, s[8..12])
  }

  lemma TakeFour(s: bytes)
    requires FourPlain(s)
    ensures Four(s[..4]) && Hex4(s[..4]) == Hex4(s)
  {
    assert forall i :: 0 <= i < 4 ==> s[i] == s[..4][i];
  }

  lemma FirstPieceFits(s: bytes)
    requires NulFree(s) && s != [] && s[0] != QUOTE && NextUnit(s).Unit?
    ensures var p := FirstPiece(s);
      && Accepted(p) && PieceText(p) == s[..NextUnit(s).size] && Meaning(p) == NextUnit(s).out
      && (p.LoneHigh? ==> !StartsUnit(s[6..]))
  {
    if s[0] == BACKSLASH && s[1] == LOWER_U {
      FirstUnitFits(s);
    } else {
      FirstShortFits(s);
    }
  }

  lemma FirstShortFits(s: bytes)
    requires NulFree(s) && s != [] && s[0] != QUOTE && NextUnit(s).Unit? && !StartsUnit(s)
    ensures var p := FirstPiece(s);
      && Accepted(p) && PieceText(p) == s[..NextUnit(s).size] && Meaning(p) == NextUnit(s).out && !p.LoneHigh?
  {
    hide Hex4, Utf8, FourPlain, IsHex, Writes;
  }

  lemma FirstUnitFits(s: bytes)
    requires NulFree(s) && StartsUnit(s) && NextUnit(s).Unit?
    ensures var p := FirstPiece(s);
      && Accepted(p) && PieceText(p) == s[..NextUnit(s).size] && Meaning(p) == NextUnit(s).out
      && (p.LoneHigh? ==> !StartsUnit(s[6..]))
  {
    hide Hex4, Utf8, Combine, FourPlain, IsHex, Writes, HighOf, LowOf;
    TakeFour(s[2..]);
    assert s[2..][..4] == s[2..6];
    HexWritten(s[2..6]);
    var u := Hex4(s[2..]);
    if IsHigh(u) && FollowedByEscape(s) {
      var l := Hex4(s[8..]);
      TakeFour(s[8..]);
      assert s[8..][..4] == s[8..12];
      HexWritten(s[8..12]);
      if IsLow(l) {
        SplitUnique(u, l);
      } else {
        NoLow(s[8..12]);
      }
    }
  }

  lemma NoLow(h: bytes)
    requires |h| == 4 && !IsLow(Hex4(h))
    ensures forall m :: IsLow(m) ==> !Writes(h, m)
  {
    hide Hex4, Writes;
    forall m | IsLow(m) && Writes(h, m) ensures false {
      HexRead(h, m);
    }
  }

  /** Conversely, whatever parse_string accepts is such a literal: the pieces account for every byte read. */
  lemma {:induction false} LiteralPieces(s: bytes) returns (ps: seq<Piece>)
    requires NulFree(s) && Unescape(s).Ok?
    ensures AcceptedAll(ps)
    ensures TextOf(ps) + Unescape(s).rest == s && MeaningOf(ps) == Unescape(s).value
    ensures ps != [] ==> s != [] && s[0] != QUOTE && NextUnit(s).Unit? && ps[0] == FirstPiece(s)
    decreases |s|
  {
    hide NextUnit, Meaning, Accepted, PieceText, FirstPiece;
    if s == [] || s[0] == QUOTE {
      ps := [];
    } else {
      var p, n := FirstPiece(s), NextUnit(s).size;
      FirstPieceFits(s);
      var more := LiteralPieces(s[n..]);
      ps := [p] + more;
      if p.LoneHigh? && more != [] {
        LoneHighEnds(s, p);
        NotUnit(s[n..], more[0]);
      }
      ConsPiece(p, more);
      JoinText(s, n, PieceText(p), TextOf(more), Unescape(s).rest);
    }
  }

  lemma ConsPiece(p: Piece, more: seq<Piece>)
    ensures AcceptedAll([p] + more)
      <==> Accepted(p) && (p.LoneHigh? && more != [] ==> !IsUnit(more[0])) && AcceptedAll(more)
    ensures TextOf([p] + more) == PieceText(p) + TextOf(more)
    ensures AcceptedAll([p] + more) ==> MeaningOf([p] + more) == Meaning(p) + MeaningOf(more)
  {
    hide Accepted, PieceText, Meaning;
    assert ([p] + more)[1..] == more;
  }

  lemma JoinText(s: bytes, n: nat, head: bytes, middle: bytes, rest: bytes)
    requires n <= |s| && s[..n] == head && s[n..] == middle + rest
    ensures head + middle + rest == s
  {
    assert s == s[..n] + s[n..];
  }

  lemma LoneHighEnds(s: bytes, p: Piece)
    requires s != [] && s[0] != QUOTE && NextUnit(s).Unit? && p == FirstPiece(s) && p.LoneHigh?
    ensures NextUnit(s).size == 6
  {
    hide Hex4, Utf8, FourPlain;
  }

  lemma NotUnit(s: bytes, p: Piece)
    requires s != [] && s[0] != QUOTE && NextUnit(s).Unit? && p == FirstPiece(s) && !StartsUnit(s)
    ensures !IsUnit(p)
  {
    hide Hex4, Utf8, FourPlain;
  }

  // UTF-8 itself

  /** The character and length that a lead byte and its continuation bytes encode (table of section 3 of RFC 3629). */
  function DecodeUtf8(s: bytes): (r: (int, nat)) {
    if |s| >= 1 && s[0] < 0x80 then (s[0], 1)
    else if |s| >= 2 && 0xC0 <= s[0] < 0xE0 then ((s[0] as int - 0xC0) * 0x40 + (s[1] as int - 0x80), 2)
    else if |s| >= 3 && 0xE0 <= s[0] < 0xF0 then
      ((s[0] as int - 0xE0) * 0x1000 + (s[1] as int - 0x80) * 0x40 + (s[2] as int - 0x80), 3)
    else if |s| >= 4 && 0xF0 <= s[0] then
      var high := (s[0] as int - 0xF0) * 0x4_0000 + (s[1] as int - 0x80) * 0x1000;
      (high + (s[2] as int - 0x80) * 0x40 + (s[3] as int - 0x80), 4)
    else (0, 0)
  }

  /** Encoding is reversible whatever follows, and every byte after the first is a continuation byte. */
  lemma Utf8RoundTrip(c: int, rest: bytes)
    requires 0 <= c < 0x11_0000
    ensures DecodeUtf8(Utf8(c) + rest) == (c, |Utf8(c)|)
    ensures forall i :: 1 <= i < |Utf8(c)| ==> 0x80 <= Utf8(c)[i] < 0xC0
  {
    var s := Utf8(c) + rest;
    assert forall i :: 0 <= i < |Utf8(c)| ==> s[i] == Utf8(c)[i];
    assert c / 0x1000 == c / 0x40 / 0x40 && c / 0x4_0000 == c / 0x40 / 0x40 / 0x40;
  }
}
