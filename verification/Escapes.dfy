/** What print_string_ptr writes for a string: the shortest literal of its characters that has no control character. */
module Escapes {
  import opened Bytes
  import opened PrintText
  import opened ParseText
  import opened Literals

  ghost predicate Visible(s: bytes) {
    forall i :: 0 <= i < |s| ==> s[i] >= 32
  }

  /** The piece that a byte is written as: itself, an escape of two characters, or `\u00` and two small digits. */
  function PieceFor(c: byte): Piece {
    if c >= 32 && c != 34 && c != 92 then Raw(c)
    else if c == 34 || c == 92 then Short(c, c)
    else if c == 8 then Short(98, c)
    else if c == 9 then Short(116, c)
    else if c == 10 then Short(110, c)
    else if c == 12 then Short(102, c)
    else if c == 13 then Short(114, c)
    else Basic(c, [48, 48, LOWER_DIGITS[c / 16], LOWER_DIGITS[c % 16]])
  }

  lemma SmallDigits(n: nat)
    requires n < 16
    ensures HexDigit(n) == LOWER_DIGITS[n] >= 32 && WritesDigit(LOWER_DIGITS[n], n)
    ensures LOWER_DIGITS[0] == 48
  {
  }

  lemma EscapeIs(c: byte)
    requires c != 0
    ensures
      var p := PieceFor(c);
      EscapeByte(c) == PieceText(p) && Accepted(p) && Meaning(p) == [c] && Visible(PieceText(p))
  {
    hide LOWER_DIGITS, Writes, Utf8, HexDigit;
    if PieceFor(c).Basic? {
      ControlIs(c);
    }
  }

  lemma ControlIs(c: byte)
    requires 0 < c < 32
    ensures var h := [48, 48, LOWER_DIGITS[c / 16], LOWER_DIGITS[c % 16]];
      && Writes(h, c) && h[2] == HexDigit(c / 16) && h[3] == HexDigit(c % 16) && h[2] >= 32 && h[3] >= 32
    ensures Utf8(c) == [c]
  {
    hide LOWER_DIGITS, WritesDigit;
    SmallDigits(0);
    SmallDigits(c / 16);
    SmallDigits(c % 16);
    assert c as int / 0x1000 == 0 && c as int / 0x100 % 0x10 == 0 && c as int / 0x10 % 0x10 == c / 16;
  }

  /** A piece that denotes a single byte without a control character in it. */
  ghost predicate Spells(p: Piece, c: byte) {
    Accepted(p) && Meaning(p) == [c] && Visible(PieceText(p))
  }

  /** An escape that is written with capital digits. */
  predicate Capital(p: Piece) {
    p.Basic? && exists i :: 0 <= i < |p.hex| && 65 <= p.hex[i] <= 70
  }

  lemma SpelledBy(p: Piece, c: byte)
    requires Spells(p, c)
    ensures c != 0 && (p == Raw(c) || (p.Short? && p.out == c) || (p.Basic? && p.n == c < 128))
    ensures p == Raw(c) ==> c >= 32 && c != QUOTE && c != BACKSLASH
    ensures p.Short? ==> p.c >= 32 && ShortEscape(p.c, c)
  {
    hide Combine, Writes;
    if p.Raw? {
      assert PieceText(p)[0] == p.c;
    } else if p.Short? {
      assert PieceText(p)[1] == p.c;
    } else if p.Basic? {
      UnitBound(p);
      assert |Utf8(p.n)| == 1;
    }
  }

  /** No other piece is shorter, and of the same length there is none but the same with capital digits. */
  lemma ShortestEscape(p: Piece, c: byte)
    requires Spells(p, c)
    ensures c != 0 && Spells(PieceFor(c), c) && EscapeByte(c) == PieceText(PieceFor(c))
    ensures |EscapeByte(c)| <= |PieceText(p)|
    ensures |EscapeByte(c)| == |PieceText(p)| && !Capital(p) ==> p == PieceFor(c)
  {
    hide Spells, Writes, Capital, EscapeByte;
    SpelledBy(p, c);
    EscapeIs(c);
    SpellsNow(PieceFor(c), c);
    if p.Basic? {
      HexLength(p, c);
      if !Capital(p) && PieceFor(c).Basic? {
        SameDigits(p, c);
      }
    }
  }

  lemma SpellsNow(p: Piece, c: byte)
    requires Accepted(p) && Meaning(p) == [c] && Visible(PieceText(p))
    ensures Spells(p, c)
  {
  }

  lemma HexLength(p: Piece, c: byte)
    requires Spells(p, c) && p.Basic?
    ensures |p.hex| == 4 && |PieceText(p)| == 6 && Writes(p.hex, p.n)
  {
    hide Meaning, WritesDigit;
  }

  lemma SameDigits(p: Piece, c: byte)
    requires p.Basic? && Writes(p.hex, p.n) && p.n == c < 32 && !Capital(p)
    ensures p.hex == [48, 48, LOWER_DIGITS[c / 16], LOWER_DIGITS[c % 16]]
  {
    hide WritesDigit;
    var h, n := p.hex, p.n;
    assert n / 0x1000 == 0 && n / 0x100 % 0x10 == 0 && n / 0x10 % 0x10 == c / 16;
    SmallDigit(h[0], 0);
    SmallDigit(h[1], 0);
    SmallDigit(h[2], c / 16);
    SmallDigit(h[3], c % 16);
    assert forall i :: 0 <= i < 4 ==> !(65 <= h[i] <= 70);
  }

  lemma SmallDigit(c: byte, d: nat)
    requires WritesDigit(c, d)
    ensures d < 16 && (!(65 <= c <= 70) ==> c == LOWER_DIGITS[d])
  {
  }

  // Whole strings

  lemma {:induction false} EscapeJoin(a: bytes, b: bytes)
    ensures Escape(a + b) == Escape(a) + Escape(b)
  {
    hide EscapeByte;
    if a == [] {
      assert a + b == b;
    } else {
      assert (a + b)[0] == a[0] && (a + b)[1..] == a[1..] + b;
      EscapeJoin(a[1..], b);
    }
  }

  lemma {:induction false} HighBytes(s: bytes)
    requires forall i :: 0 <= i < |s| ==> s[i] >= 128
    ensures Escape(s) == s
  {
    if s != [] {
      HighBytes(s[1..]);
      assert EscapeByte(s[0]) == [s[0]];
    }
  }

  lemma OneEscape(c: byte)
    ensures Escape([c]) == EscapeByte(c)
  {
    hide EscapeByte;
    assert [c][1..] == [];
    assert EscapeByte(c) + [] == EscapeByte(c);
  }

  lemma PieceEscape(p: Piece)
    requires Accepted(p) && Visible(PieceText(p))
    ensures |Escape(Meaning(p))| <= |PieceText(p)|
  {
    hide Escape, EscapeByte, Writes, PieceText, Visible;
    if |Meaning(p)| == 1 {
      var c := Meaning(p)[0];
      SpellsNow(p, c);
      ShortestEscape(p, c);
      OneEscape(c);
    } else {
      LongMeaning(p);
      HighBytes(Meaning(p));
    }
  }

  lemma LongMeaning(p: Piece)
    requires Accepted(p) && |Meaning(p)| != 1
    ensures |Meaning(p)| <= |PieceText(p)| && forall i :: 0 <= i < |Meaning(p)| ==> Meaning(p)[i] >= 128
  {
    hide WritesDigit, Combine;
    if p.Basic? {
      UnitBound(p);
    }
  }

  lemma VisibleParts(a: bytes, b: bytes)
    requires Visible(a + b)
    ensures Visible(a) && Visible(b)
  {
    assert forall i :: 0 <= i < |a| ==> a[i] == (a + b)[i];
    assert forall i :: 0 <= i < |b| ==> b[i] == (a + b)[|a| + i];
  }

  /** Of all literals of a string that have no control character, the printed one is the shortest. */
  lemma {:induction false} ShortestLiteral(ps: seq<Piece>)
    requires AcceptedAll(ps) && Visible(TextOf(ps))
    ensures |Escape(MeaningOf(ps))| <= |TextOf(ps)|
  {
    hide Escape, Accepted, Meaning, PieceText, Visible;
    if ps == [] {
      NoEscape();
    } else {
      VisibleParts(PieceText(ps[0]), TextOf(ps[1..]));
      PieceEscape(ps[0]);
      ShortestLiteral(ps[1..]);
      EscapeJoin(Meaning(ps[0]), MeaningOf(ps[1..]));
    }
  }

  lemma NoEscape()
    ensures Escape([]) == []
  {
  }

  /** The pieces that a string is written as. */
  function PiecesFor(s: bytes): seq<Piece> {
    if s == [] then [] else [PieceFor(s[0])] + PiecesFor(s[1..])
  }

  /** It is such a literal itself, and denotes the string. */
  lemma {:induction false} EscapeDenotes(s: bytes)
    requires NulFree(s)
    ensures AcceptedAll(PiecesFor(s)) && TextOf(PiecesFor(s)) == Escape(s) && MeaningOf(PiecesFor(s)) == s
    ensures Visible(Escape(s))
  {
    hide Accepted, Meaning, PieceText, EscapeByte, PieceFor;
    if s != [] {
      EscapeIs(s[0]);
      NotLone(s[0]);
      EscapeDenotes(s[1..]);
      ConsPiece(PieceFor(s[0]), PiecesFor(s[1..]));
      assert s == [s[0]] + s[1..];
    }
  }

  lemma NotLone(c: byte)
    ensures !PieceFor(c).LoneHigh?
  {
  }
}
