/** String literals: escaping and unescaping undo each other, and escapes denote UTF-8. */
module Strings {
  import opened Bytes
  import opened PrintText
  import opened ParseText

  /** Reading the escape of one byte gives that byte back. */
  lemma EscapeByteUnit(c: byte, rest: bytes)
    requires c != 0
    ensures var e := EscapeByte(c);
      e != [] && e[0] != QUOTE && NextUnit(e + rest) == Unit([c], |e|)
  {
    hide HexValue, Utf8, Combine;
    var e := EscapeByte(c);
    var s := e + rest;
    if |e| == 6 {
      HexDigitValue(c / 16);
      HexDigitValue(c % 16);
      HexDigitValue(0);
      var u := s[2..];
      assert u[0] == 48 && u[1] == 48 && u[2] == HexDigit(c / 16) && u[3] == HexDigit(c % 16);
      OneByte(c);
    }
  }

  lemma HexDigitValue(n: nat)
    requires n < 16
    ensures HexValue(HexDigit(n)) == n && IsPlain(HexDigit(n))
  {
  }

  lemma OneByte(c: byte)
    ensures c < 128 ==> Utf8(c) == [c]
  {
  }

  lemma {:induction false} UnescapeEscape(str: bytes, rest: bytes)
    requires NulFree(str)
    ensures Unescape(Escape(str) + [QUOTE] + rest) == Ok(str, [QUOTE] + rest)
  {
    hide NextUnit, Unescape, Escape, EscapeByte;
    var tail := [QUOTE] + rest;
    EscapeTurn(str);
    Assoc(Escape(str), [QUOTE], rest);
    if str == [] {
      assert [] + tail == tail;
      UnescapeStop(tail);
    } else {
      var e, more := EscapeByte(str[0]), Escape(str[1..]) + tail;
      Assoc(e, Escape(str[1..]), tail);
      Assoc(Escape(str[1..]), [QUOTE], rest);
      EscapeByteUnit(str[0], more);
      UnescapeEscape(str[1..], rest);
      UnescapeTurn(e + more);
      assert (e + more)[|e|..] == more;
      assert [str[0]] + str[1..] == str;
    }
  }

  lemma EscapeTurn(str: bytes)
    ensures Escape(str) == if str == [] then [] else EscapeByte(str[0]) + Escape(str[1..])
  {
  }

  /** parse_string reads back what print_string_ptr wrote, whatever follows the literal. */
  lemma StringRoundTrip(str: bytes, rest: bytes)
    requires NulFree(str)
    ensures ParseString(StringText(str) + rest) == Ok(str, rest)
  {
    var s := StringText(str) + rest;
    assert s[1..] == Escape(str) + [QUOTE] + rest;
    UnescapeEscape(str, rest);
  }

  /** The condition that the first loop of print_string_ptr tests (`char` is signed: bytes from 128 do not count). */
  predicate NeedsEscape(c: byte) {
    0 < c < 32 || c == QUOTE || c == BACKSLASH
  }

  /** The verbatim branch writes what the escaping branch would. */
  lemma {:induction false} VerbatimAgrees(str: bytes)
    requires NulFree(str) && forall i :: 0 <= i < |str| ==> !NeedsEscape(str[i])
    ensures Escape(str) == str
  {
    if str != [] {
      VerbatimAgrees(str[1..]);
      assert !NeedsEscape(str[0]);
    }
  }

  // The first pass of parse_string

  /** Turns of the first pass: it counts bytes and escapes, stepping over the byte after a backslash. */
  function Turns(s: bytes): nat {
    if s == [] || s[0] == QUOTE then 0
    else if s[0] != BACKSLASH then 1 + Turns(s[1..])
    else if |s| < 2 then 1
    else 1 + Turns(s[2..])
  }

  /** Where the first pass stops. */
  function Closing(s: bytes): bytes {
    if s == [] || s[0] == QUOTE then s
    else if s[0] != BACKSLASH then Closing(s[1..])
    else if |s| < 2 then []
    else Closing(s[2..])
  }

  /** The first pass stays inside the text: no backslash is the last byte. */
  predicate Scannable(s: bytes) {
    if s == [] || s[0] == QUOTE then true
    else if s[0] != BACKSLASH then Scannable(s[1..])
    else |s| >= 2 && Scannable(s[2..])
  }

  lemma FourTurns(s: bytes)
    requires FourPlain(s)
    ensures Turns(s) == 4 + Turns(s[4..]) && Closing(s) == Closing(s[4..]) && Scannable(s) == Scannable(s[4..])
  {
    assert s[1..][1..] == s[2..] && s[2..][1..] == s[3..] && s[3..][1..] == s[4..];
    assert s[1..][0] == s[1] && s[2..][0] == s[2] && s[3..][0] == s[3];
    assert Turns(s) == 1 + Turns(s[1..]) && Closing(s) == Closing(s[1..]) && Scannable(s) == Scannable(s[1..]);
    assert Turns(s[1..]) == 1 + Turns(s[2..]) && Closing(s[1..]) == Closing(s[2..])
      && Scannable(s[1..]) == Scannable(s[2..]);
    assert Turns(s[2..]) == 1 + Turns(s[3..]) && Closing(s[2..]) == Closing(s[3..])
      && Scannable(s[2..]) == Scannable(s[3..]);
  }

  lemma EscapeTurns(s: bytes)
    requires |s| >= 2 && s[0] == BACKSLASH && s[1] == LOWER_U && FourPlain(s[2..])
    ensures Turns(s) == 5 + Turns(s[6..]) && Closing(s) == Closing(s[6..]) && Scannable(s) == Scannable(s[6..])
  {
    FourTurns(s[2..]);
    assert s[2..][4..] == s[6..];
  }

  /** What the second pass does in one turn, the first pass does in at least as many turns as bytes are written. */
  lemma UnitTurns(s: bytes)
    requires s != [] && s[0] != QUOTE && NextUnit(s).Unit?
    ensures var u := NextUnit(s);
      && Closing(s) == Closing(s[u.size..]) && Scannable(s) == Scannable(s[u.size..])
      && Turns(s) >= |u.out| + Turns(s[u.size..])
  {
    hide Hex4, FourPlain;
    if s[0] == BACKSLASH && s[1] == LOWER_U {
      EscapeTurns(s);
      if IsHigh(Hex4(s[2..])) && FollowedByEscape(s) {
        assert s[6..][2..] == s[8..] && s[6..][6..] == s[12..];
        EscapeTurns(s[6..]);
      }
    }
  }

  /**
   * Both passes stop at the same terminator, and the second writes at most as many bytes as the first counted.
   */
  lemma {:induction false} PassesAgree(s: bytes)
    requires Unescape(s).Ok?
    ensures Scannable(s) && Closing(s) == Unescape(s).rest && |Unescape(s).value| <= Turns(s)
    decreases |s|
  {
    hide NextUnit, Turns, Closing, Scannable;
    if s == [] || s[0] == QUOTE {
      NothingToScan(s);
    } else {
      UnitTurns(s);
      PassesAgree(s[NextUnit(s).size..]);
    }
  }

  lemma NothingToScan(s: bytes)
    requires s == [] || s[0] == QUOTE
    ensures Closing(s) == s && Turns(s) == 0 && Scannable(s)
  {
  }
}
