/** parse_string and parse_number, over a text that they read through an index. */
module Scanner {
  import opened Bytes
  import opened ParseText
  import opened Strings
  import opened Transcode
  import opened Nodes
  import opened Allocator
  import Numbers

  /** `*p`: the text ends with the terminator. */
  function Peek(text: bytes, p: nat): byte
    requires p <= |text|
  {
    Head(text[p..])
  }

  method Skip(text: bytes, p: nat) returns (q: nat)
    requires p <= |text|
    ensures p <= q <= |text| && text[q..] == ParseText.Skip(text[p..])
  {
    q := p;
    while Peek(text, q) != 0 && Peek(text, q) <= 32
      invariant p <= q <= |text| && ParseText.Skip(text[q..]) == ParseText.Skip(text[p..])
      decreases |text| - q
    {
      assert text[q..][1..] == text[q + 1..];
      q := q + 1;
    }
  }

  // String literals

  /** Four digits of sixteen each, with an early zero for anything that is not a hex digit. */
  method ParseHex4(text: bytes, p: nat) returns (h: nat)
    requires p + 4 <= |text|
    ensures h == Hex4(text[p..])
  {
    var s := text[p..];
    h := 0;
    if HexValue(s[0]) < 0 { return; }
    h := HexValue(s[0]);
    if HexValue(s[1]) < 0 { return 0; }
    h := h * 16 + HexValue(s[1]);
    if HexValue(s[2]) < 0 { return 0; }
    h := h * 16 + HexValue(s[2]);
    if HexValue(s[3]) < 0 { return 0; }
    h := h * 16 + HexValue(s[3]);
  }

  /** The first pass: where the literal ends and how many turns it took to get there. */
  method CountTurns(text: bytes, start: nat) returns (len: nat, end: nat)
    requires start <= |text| && NulFree(text) && Unescape(text[start..]).Ok?
    ensures len == Turns(text[start..]) && start <= end <= |text| && text[end..] == Closing(text[start..])
  {
    hide Unescape, NextUnit;
    var ptr := start;
    len := 0;
    PassesAgree(text[start..]);
    while Peek(text, ptr) != QUOTE && Peek(text, ptr) != 0
      invariant start <= ptr <= |text| && Scannable(text[ptr..])
      invariant len + Turns(text[ptr..]) == Turns(text[start..]) && Closing(text[ptr..]) == Closing(text[start..])
      decreases |text| - ptr
    {
      len := len + 1;
      var c := text[ptr];
      assert text[ptr..][1..] == text[ptr + 1..];
      assert ptr + 2 <= |text| ==> text[ptr..][2..] == text[ptr + 2..];
      ptr := ptr + 1;
      if c == BACKSLASH {
        ptr := ptr + 1;
      }
    }
    end := ptr;
  }

  /** The escape after a backslash at `ptr`; `ptr` is left on the last byte of the escape, as in the switch. */
  method ScanEscape(text: bytes, ptr: nat, out: array<byte>, at: nat) returns (last: nat, next: nat)
    requires ptr < |text| && text[ptr] == BACKSLASH && NulFree(text) && NextUnit(text[ptr..]).Unit?
    requires at + |NextUnit(text[ptr..]).out| <= out.Length
    modifies out
    ensures last + 1 == ptr + NextUnit(text[ptr..]).size
    ensures next == at + |NextUnit(text[ptr..]).out|
    ensures out[..next] == old(out[..at]) + NextUnit(text[ptr..]).out
  {
    hide Hex4, Utf8, FourPlain, Combine, EscapedChar;
    ghost var s := text[ptr..];
    assert text[ptr + 1] == s[1];
    last := ptr + 1;
    next := at;
    if text[last] != LOWER_U {
      out[at] := EscapedChar(text[last]);
      next := at + 1;
    } else {
      FourFollow(s);
      assert text[last + 1..] == s[2..];
      var uc := ParseHex4(text, last + 1);
      last := last + 4;
      if IsLow(uc) || uc == 0 {
        return;
      }
      if IsHigh(uc) {
        assert last + 1 < |text| ==> text[last + 1] == s[6];
        assert last + 2 < |text| ==> text[last + 2] == s[7];
        if Peek(text, last + 1) != BACKSLASH || Peek(text, last + 2) != LOWER_U {
          return;
        }
        assert text[last + 3..] == s[8..];
        var uc2 := ParseHex4(text, last + 3);
        last := last + 6;
        if !IsLow(uc2) {
          return;
        }
        CombineBitsValue(uc, uc2);
        uc := CombineBits(uc, uc2);
      }
      next := WriteUtf8(out, at, uc);
      assert out[..next] == out[..at] + out[at..next];
    }
  }

  lemma FourFollow(s: bytes)
    requires |s| >= 2 && s[0] == BACKSLASH && s[1] == LOWER_U && NextUnit(s).Unit?
    ensures FourPlain(s[2..]) && |s| >= 6
    ensures IsHigh(Hex4(s[2..])) && FollowedByEscape(s) ==> FourPlain(s[8..])
  {
    hide Hex4, Utf8;
  }

  /** The second pass: the bytes that the literal denotes, and where it stopped. */
  method Transcribe(text: bytes, start: nat, out: array<byte>) returns (end: nat, written: nat)
    requires start <= |text| && NulFree(text) && Unescape(text[start..]).Ok?
    requires |Unescape(text[start..]).value| < out.Length
    modifies out
    ensures start <= end <= |text| && text[end..] == Unescape(text[start..]).rest
    ensures written == |Unescape(text[start..]).value| && out[..written] == Unescape(text[start..]).value
  {
    hide NextUnit;
    ghost var total := Unescape(text[start..]).value;
    var ptr, ptr2 := start, 0;
    while Peek(text, ptr) != QUOTE && Peek(text, ptr) != 0
      invariant start <= ptr <= |text| && ptr2 <= out.Length
      invariant Unescape(text[ptr..]).Ok? && Unescape(text[ptr..]).rest == Unescape(text[start..]).rest
      invariant out[..ptr2] + Unescape(text[ptr..]).value == total
      decreases |text| - ptr
    {
      ghost var s, before := text[ptr..], out[..ptr2];
      ghost var u := NextUnit(s);
      assert s[u.size..] == text[ptr + u.size..];
      assert Unescape(s).value == u.out + Unescape(s[u.size..]).value;
      if text[ptr] != BACKSLASH {
        PlainUnit(s);
        out[ptr2] := text[ptr];
        ptr2 := ptr2 + 1;
      } else {
        var last, next := ScanEscape(text, ptr, out, ptr2);
        ptr := last;
        ptr2 := next;
      }
      ptr := ptr + 1;
      assert out[..ptr2] == before + u.out;
      Assoc(before, u.out, Unescape(s[u.size..]).value);
    }
    end, written := ptr, ptr2;
  }

  lemma PlainUnit(s: bytes)
    requires s != [] && s[0] != QUOTE && s[0] != BACKSLASH
    ensures NextUnit(s) == Unit([s[0]], 1)
  {
  }

  lemma UnescapeNulFree(s: bytes)
    requires NulFree(s) && Unescape(s).Ok?
    ensures NulFree(Unescape(s).value)
    decreases |s|
  {
    hide NextUnit;
    if s != [] && s[0] != QUOTE {
      var u := NextUnit(s);
      UnitNulFree(s);
      UnescapeNulFree(s[u.size..]);
    }
  }

  /** No unit writes a terminator: `\u0000` is dropped. */
  lemma UnitNulFree(s: bytes)
    requires NulFree(s) && s != [] && s[0] != QUOTE && NextUnit(s).Unit?
    ensures NulFree(NextUnit(s).out)
  {
    hide Hex4, FourPlain;
  }

  /** parse_string on a node whose value string is still null; failing means that there is no opening quote. */
  method ParseString(h: Heap, text: bytes, p: nat, item: Node) returns (ok: bool, end: nat, ghost x: CString)
    requires p <= |text| && NulFree(text) && !ParseText.ParseString(text[p..]).Undefined?
    modifies h, item`valueString, item`kind
    ensures ok == ParseText.ParseString(text[p..]).Ok?
    ensures ok ==> p < end <= |text| && ParseText.ParseString(text[p..]) == Ok(CharsOf(x), text[end..])
    ensures ok ==> x.CString? && fresh(x.buffer) && Holds(x.buffer, x.chars) && h.live == old(h.live) + {x.buffer}
    ensures ok ==> item.valueString == x.buffer && item.kind == KString
    ensures !ok ==> h.live == old(h.live) && item.valueString == old(item.valueString) && item.kind == old(item.kind)
    ensures !ok ==> ParseText.ParseString(text[p..]) == Fail(text[p..])
  {
    ghost var s := text[p..];
    x := NullString;
    end := p;
    if Peek(text, p) != QUOTE {
      return false, p, NullString;
    }
    assert s[1..] == text[p + 1..];
    var len, closing := CountTurns(text, p + 1);
    PassesAgree(text[p + 1..]);
    UnescapeNulFree(text[p + 1..]);
    var out := h.Malloc(len + 1);
    var written;
    end, written := Transcribe(text, p + 1, out);
    out[written] := 0;
    if Peek(text, end) == QUOTE {
      assert text[end..][1..] == text[end + 1..];
      end := end + 1;
    }
    x := CString(out, Unescape(text[p + 1..]).value);
    assert out[..written] == x.chars;
    item.valueString := out;
    item.kind := KString;
    ok := true;
  }

  // Numbers

  /** A run of digits after the first, each of them one more decimal place. */
  method ReadDigits(text: bytes, p: nat, n0: real, ghost before: bytes) returns (q: nat, n: real)
    requires p <= |text| && n0 == Accumulate(before) as real
    ensures p <= q <= |text| && q == p + |TakeDigits(text[p..])|
    ensures n == Accumulate(before + TakeDigits(text[p..])) as real
  {
    hide TakeDigits, Accumulate;
    ghost var ds := TakeDigits(text[p..]);
    q, n := p, n0;
    assert before + ds[..0] == before;
    while 48 <= Peek(text, q) <= 57
      invariant p <= q <= p + |ds| && n == Accumulate(before + ds[..q - p]) as real
      decreases |text| - q
    {
      DigitStep(text, p, q, before);
      n := n * 10.0 + (text[q] as int - 48) as real;
      q := q + 1;
    }
    DigitsInside(text, p);
    assert ds[..q - p] == ds;
  }

  /** One turn of the digit loops. */
  lemma DigitStep(text: bytes, p: nat, q: nat, before: bytes)
    requires p <= q < |text| && q <= p + |TakeDigits(text[p..])| && IsDigit(text[q])
    ensures q < p + |TakeDigits(text[p..])|
    ensures
      var ds := TakeDigits(text[p..]);
      Accumulate(before + ds[..q - p + 1]) == Accumulate(before + ds[..q - p]) * 10 + (text[q] as int - 48)
  {
    hide TakeDigits, Accumulate;
    var ds, i := TakeDigits(text[p..]), q - p;
    assert text[p..][i] == text[q];
    AccumulateAppend(before + ds[..i], ds[i]);
    assert before + ds[..i] + [ds[i]] == before + ds[..i + 1];
  }

  lemma AccumulateAppend(ds: bytes, d: byte)
    ensures Accumulate(ds + [d]) == Accumulate(ds) * 10 + (d as int - 48)
  {
    assert (ds + [d])[..|ds|] == ds;
  }

  /** Every position inside a run of digits holds one. */
  lemma DigitsInside(text: bytes, p: nat)
    requires p <= |text|
    ensures forall q :: p <= q < p + |TakeDigits(text[p..])| ==> 48 <= Peek(text, q) <= 57
  {
    var ds := TakeDigits(text[p..]);
    forall q | p <= q < p + |ds|
      ensures 48 <= Peek(text, q) <= 57
    {
      assert ds[q - p] == text[p..][q - p] == text[q];
    }
  }

  /** The C cast `(int)d`, which truncates toward zero. */
  function Truncate(d: real): int {
    if d < 0.0 then -((-d).Floor) else d.Floor
  }

  /** An integer, less than one away from the value and not further from zero; an integral value is left as it is. */
  lemma Truncated(d: real, n: int)
    ensures var i := Truncate(d) as real; if d >= 0.0 then 0.0 <= i <= d < i + 1.0 else i - 1.0 < d <= i <= 0.0
    ensures n as real == d ==> Truncate(d) == n
  {
    if n as real == d {
      assert (-d).Floor == -n;
    }
  }

  /** The `valueint` of an integer literal is that integer, whatever follows it. */
  lemma IntegerRead(l: Numbers.Literal, rest: bytes)
    requires Numbers.Lenient(l) && l.fraction == [] && l.exponent == Numbers.NoExponent && Numbers.Stops(l, rest)
    ensures Truncate(NumberValue(ScanNumber(Numbers.LiteralText(l) + rest)))
      == if l.negative then -Numbers.Positional(l.whole) else Numbers.Positional(l.whole)
  {
    hide ScanNumber, NumberValue, Numbers.Lenient, Numbers.Stops, Numbers.LiteralText, Truncate, Numbers.Denotation;
    Numbers.NumberDenotation(l, rest);
    var n := Numbers.Positional(l.whole);
    WholeDenotation(l);
    Truncated(Numbers.Denotation(l), if l.negative then -n else n);
  }

  lemma WholeDenotation(l: Numbers.Literal)
    requires l.fraction == [] && l.exponent == Numbers.NoExponent
    ensures Numbers.Denotation(l)
      == (if l.negative then -Numbers.Positional(l.whole) else Numbers.Positional(l.whole)) as real
  {
    Numbers.IntegerDenotation(l.negative, l.whole, Numbers.Positional(l.whole));
  }

  method ReadExponent(text: bytes, p: nat) returns (q: nat, subscale: int)
    requires p <= |text|
    ensures p <= q <= |text| && q == p + |TakeDigits(text[p..])|
    ensures subscale == Accumulate(TakeDigits(text[p..]))
  {
    hide TakeDigits, Accumulate;
    EmptyAccumulate();
    ghost var ds := TakeDigits(text[p..]);
    q, subscale := p, 0;
    assert ds[..0] == [];
    while 48 <= Peek(text, q) <= 57
      invariant p <= q <= p + |ds| && subscale == Accumulate(ds[..q - p])
      decreases |text| - q
    {
      DigitStep(text, p, q, []);
      assert [] + ds[..q - p] == ds[..q - p] && [] + ds[..q - p + 1] == ds[..q - p + 1];
      subscale := subscale * 10 + (text[q] as int - 48);
      q := q + 1;
    }
    DigitsInside(text, p);
    assert ds[..q - p] == ds;
  }

  /** Leading zero and whole digits. */
  method ReadWhole(text: bytes, p: nat) returns (q: nat, n: real)
    requires p <= |text|
    ensures p <= q <= |text| && text[q..] == AfterWhole(text[p..])
    ensures n == Accumulate(ScanWhole(text[p..])) as real
  {
    hide TakeDigits, Accumulate;
    EmptyAccumulate();
    ghost var s := text[p..];
    q, n := p, 0.0;
    if Peek(text, q) == 48 {
      assert s[1..] == text[q + 1..];
      q := q + 1;
    }
    if 49 <= Peek(text, q) <= 57 {
      ghost var t, from := text[q..], q;
      q, n := ReadDigits(text, q, n, []);
      assert [] + TakeDigits(t) == TakeDigits(t);
      assert t[q - from..] == text[q..];
    }
  }

  /** Decimal point and fraction digits: `scale` goes down by one for each. */
  method ReadFraction(text: bytes, p: nat, n0: real, ghost before: bytes) returns (q: nat, n: real, scale: int)
    requires p <= |text| && n0 == Accumulate(before) as real
    ensures p <= q <= |text| && text[q..] == AfterFraction(text[p..])
    ensures n == Accumulate(before + ScanFraction(text[p..])) as real && scale == -|ScanFraction(text[p..])|
  {
    hide TakeDigits, Accumulate;
    ghost var u := text[p..];
    q, n, scale := p, n0, 0;
    if Peek(text, q) == DOT && 48 <= Peek(text, q + 1) <= 57 {
      assert u[1..] == text[q + 1..];
      q, n := ReadDigits(text, p + 1, n, before);
      scale := -(q as int - (p as int + 1));
      assert u[q - p..] == text[q..];
    } else {
      assert before + [] == before;
    }
  }

  lemma EmptyAccumulate()
    ensures Accumulate([]) == 0
  {
  }

  /** Exponent with its sign. */
  method ReadScale(text: bytes, p: nat) returns (q: nat, subscale: int)
    requires p < |text| && HasExponent(text[p..])
    ensures p <= q <= |text|
    ensures var s := text[p..]; var ds := TakeDigits(ExponentDigits(s));
      && text[q..] == ExponentDigits(s)[|ds|..]
      && subscale == if Head(s[1..]) == MINUS then -Accumulate(ds) else Accumulate(ds)
  {
    hide TakeDigits, Accumulate;
    ghost var s := text[p..];
    assert s[1..] == text[p + 1..];
    var signNegative := false;
    q := p + 1;
    if Peek(text, q) == PLUS {
      assert s[2..] == text[q + 1..];
      q := q + 1;
    } else if Peek(text, q) == MINUS {
      assert s[2..] == text[q + 1..];
      signNegative := true;
      q := q + 1;
    }
    ghost var from := q;
    assert text[from..] == ExponentDigits(s);
    q, subscale := ReadExponent(text, q);
    assert text[from..][q - from..] == text[q..];
    if signNegative {
      subscale := -subscale;
    }
  }

  /** parse_number */
  method ParseNumber(text: bytes, p: nat, item: Node) returns (q: nat)
    requires p < |text| && (text[p] == MINUS || IsDigit(text[p]))
    modifies item`valueDouble, item`valueInt, item`kind
    ensures p < q <= |text| && text[q..] == ScanNumber(text[p..]).rest
    ensures item.kind == KNumber && item.valueDouble == NumberValue(ScanNumber(text[p..]))
    ensures item.valueInt == Truncate(item.valueDouble)
  {
    hide TakeDigits, Accumulate, ScanWhole, AfterWhole, ScanFraction, AfterFraction, ExponentDigits, Scaled;
    EmptyAccumulate();
    ghost var s := text[p..];
    assert s != [] && s[0] == text[p];
    var negative, subscale := false, 0;
    q := p;
    if Peek(text, q) == MINUS {
      assert s[1..] == text[q + 1..];
      negative := true;
      q := q + 1;
    }
    ghost var s1 := text[q..];
    var n, scale;
    q, n := ReadWhole(text, q);
    q, n, scale := ReadFraction(text, q, n, ScanWhole(s1));
    if Peek(text, q) == LOWER_E || Peek(text, q) == UPPER_E {
      q, subscale := ReadScale(text, q);
    }
    n := Scaled(negative, n, scale + subscale);
    item.valueDouble := n;
    item.valueInt := Truncate(n);
    item.kind := KNumber;
  }
}
