/** What both printers share: the leaves, written at a position of an output buffer. */
module Rendering {
  import opened Bytes
  import opened Json
  import opened PrintText
  import opened Nodes
  import opened Strings
  import Numbers

  /** The buffer holds `s` and a terminator. */
  ghost predicate Reads(out: array<byte>, s: bytes)
    reads out
  {
    |s| < out.Length && out[..|s|] == s && out[|s|] == 0
  }

  /** strcpy */
  method Strcpy(out: array<byte>, at: nat, s: bytes)
    requires at + |s| < out.Length
    modifies out
    ensures Reads(out, old(out[..at]) + s)
  {
    forall i | 0 <= i < |s| {
      out[at + i] := s[i];
    }
    out[at + |s|] := 0;
  }

  // Integers

  lemma {:induction false} DigitsLength(n: nat, k: nat, bound: nat)
    requires k >= 1 && n < bound && bound == Numbers.Power(k)
    ensures |Digits(n)| <= k
    decreases k
  {
    if n >= 10 {
      DigitsLength(n / 10, k - 1, Numbers.Power(k - 1));
    }
  }

  /** The 21 bytes that print_number asks for hold any int and its terminator. */
  lemma IntFits(n: int)
    requires INT_MIN <= n <= INT_MAX
    ensures |IntText(n)| <= 11
  {
    assert Numbers.Power(5) == 100000 && Numbers.Power(10) == 100000 * Numbers.Power(5);
    DigitsLength(if n < 0 then -n else n, 10, Numbers.Power(10));
  }

  // Strings

  /** The first loop of print_string_ptr: is any byte in need of escaping, and how long is the string? */
  method ScanFlag(str: array<byte>, ghost s: bytes) returns (flag: bool, length: nat)
    requires Holds(str, s)
    ensures length == |s|
    ensures flag <==> exists i :: 0 <= i < |s| && NeedsEscape(s[i])
  {
    assert forall i :: 0 <= i < |s| ==> str[i] == s[i];
    flag, length := false, 0;
    while str[length] != 0
      invariant length <= |s|
      invariant flag <==> exists i :: 0 <= i < length && NeedsEscape(s[i])
      decreases |s| - length
    {
      if NeedsEscape(str[length]) {
        flag := true;
      }
      length := length + 1;
    }
  }

  /** The bytes with an escape of two characters. */
  predicate HasShortEscape(token: byte) {
    || token == QUOTE || token == BACKSLASH || token == 8 || token == 12
    || token == NEWLINE || token == RETURN || token == TAB
  }

  /** The counting loop of the escaping branch: exactly the bytes that will be written. */
  method CountEscaped(str: array<byte>, ghost s: bytes) returns (len: nat)
    requires Holds(str, s)
    ensures len == |Escape(s)|
  {
    assert forall i :: 0 <= i < |s| ==> str[i] == s[i];
    var ptr := 0;
    len := 0;
    assert s[0..] == s;
    while str[ptr] != 0
      invariant ptr <= |s| && len + |Escape(s[ptr..])| == |Escape(s)|
      decreases |s| - ptr
    {
      assert s[ptr..][1..] == s[ptr + 1..];
      len := len + 1;
      if HasShortEscape(str[ptr]) {
        len := len + 1;
      } else if str[ptr] < 32 {
        len := len + 5;
      }
      ptr := ptr + 1;
    }
  }

  /** The size that print_string_ptr asks for, terminator included, and the branch it takes. */
  method MeasureString(str: array<byte>, ghost s: bytes) returns (flag: bool, size: nat)
    requires Holds(str, s)
    ensures size == |StringText(s)| + 1
    ensures !flag ==> Escape(s) == s
  {
    var length;
    flag, length := ScanFlag(str, s);
    if flag {
      length := CountEscaped(str, s);
    } else {
      VerbatimAgrees(s);
    }
    size := length + 3;
  }

  /** Opening quote, the bytes verbatim or escaped, closing quote, terminator. */
  method FillString(str: array<byte>, ghost s: bytes, flag: bool, out: array<byte>, at: nat)
    requires Holds(str, s) && str != out && at + |StringText(s)| < out.Length
    requires !flag ==> Escape(s) == s
    modifies out
    ensures Reads(out, old(out[..at]) + StringText(s))
  {
    hide Escape;
    ghost var before := out[..at];
    out[at] := QUOTE;
    assert out[..at + 1] == before + [QUOTE];
    var ptr2;
    if flag {
      ptr2 := FillEscaped(str, s, out, at + 1);
    } else {
      ptr2 := FillVerbatim(str, s, out, at + 1);
    }
    out[ptr2] := QUOTE;
    assert out[..ptr2 + 1] == before + [QUOTE] + Escape(s) + [QUOTE];
    out[ptr2 + 1] := 0;
    assert before + [QUOTE] + Escape(s) + [QUOTE] == before + StringText(s);
  }

  method FillVerbatim(str: array<byte>, ghost s: bytes, out: array<byte>, at: nat) returns (ptr2: nat)
    requires Holds(str, s) && str != out && at + |s| + 1 < out.Length
    modifies out
    ensures ptr2 == at + |s| && out[..ptr2] == old(out[..at]) + s
  {
    assert forall i :: 0 <= i < |s| ==> str[i] == s[i];
    var i := 0;
    while str[i] != 0
      invariant i <= |s| && out[..at + i] == old(out[..at]) + s[..i]
      decreases |s| - i
    {
      out[at + i] := str[i];
      i := i + 1;
    }
    ptr2 := at + i;
  }

  method FillEscaped(str: array<byte>, ghost s: bytes, out: array<byte>, at: nat) returns (ptr2: nat)
    requires Holds(str, s) && str != out && at + |Escape(s)| + 1 < out.Length
    modifies out
    ensures ptr2 == at + |Escape(s)| && out[..ptr2] == old(out[..at]) + Escape(s)
  {
    hide EscapeByte;
    assert forall i :: 0 <= i < |s| ==> str[i] == s[i];
    var i := 0;
    ptr2 := at;
    assert s[0..] == s;
    while str[i] != 0
      invariant i <= |s| && at <= ptr2 < out.Length - 1
      invariant out[..ptr2] + Escape(s[i..]) == old(out[..at]) + Escape(s)
      decreases |s| - i
    {
      ghost var before, rest := out[..ptr2], Escape(s[i + 1..]);
      assert s[i..][1..] == s[i + 1..];
      assert Escape(s[i..]) == EscapeByte(s[i]) + rest;
      ptr2 := FillByte(str[i], out, ptr2);
      Assoc(before, EscapeByte(s[i]), rest);
      i := i + 1;
    }
  }

  /** One byte of the escaping branch. */
  method FillByte(c: byte, out: array<byte>, at: nat) returns (next: nat)
    requires at + |EscapeByte(c)| < out.Length
    modifies out
    ensures next == at + |EscapeByte(c)| && out[..next] == old(out[..at]) + EscapeByte(c)
  {
    if c > 31 && c != QUOTE && c != BACKSLASH {
      out[at] := c;
      return at + 1;
    }
    out[at] := BACKSLASH;
    next := at + 1;
    if c == BACKSLASH {
      out[next] := BACKSLASH;
    } else if c == QUOTE {
      out[next] := QUOTE;
    } else if c == 8 {
      out[next] := 98;
    } else if c == 12 {
      out[next] := 102;
    } else if c == NEWLINE {
      out[next] := 110;
    } else if c == RETURN {
      out[next] := 114;
    } else if c == TAB {
      out[next] := 116;
    } else {
      SprintfUnit(c, out, next);
      return at + 6;
    }
    next := next + 1;
  }

  /** Writes a unit escape behind its backslash, with the terminator that sprintf adds. */
  method SprintfUnit(token: byte, out: array<byte>, at: nat)
    requires at + 5 < out.Length
    modifies out
    ensures out[..at + 5] == old(out[..at]) + [LOWER_U, 48, 48, HexDigit(token / 16), HexDigit(token % 16)]
  {
    Strcpy(out, at, [LOWER_U, 48, 48, HexDigit(token / 16), HexDigit(token % 16)]);
  }

  // Composing

  /** memcpy of a C string without its terminator. */
  method CopyChars(src: array<byte>, ghost s: bytes, len: nat, out: array<byte>, at: nat) returns (ptr: nat)
    requires Holds(src, s) && len == |s| && src != out && at + |s| <= out.Length
    modifies out
    ensures ptr == at + |s| && out[..ptr] == old(out[..at]) + s
  {
    forall i | 0 <= i < len {
      out[at + i] := src[i];
    }
    ptr := at + len;
    assert src[..len] == s;
  }

  /** Bytes stored one by one. */
  method PutBytes(s: bytes, out: array<byte>, at: nat) returns (ptr: nat)
    requires at + |s| <= out.Length
    modifies out
    ensures ptr == at + |s| && out[..ptr] == old(out[..at]) + s
  {
    forall i | 0 <= i < |s| {
      out[at + i] := s[i];
    }
    ptr := at + |s|;
  }

  /** Stores tabs one by one. */
  method PutTabs(n: int, out: array<byte>, at: nat) returns (ptr: nat)
    requires at + |Tabs(n)| <= out.Length
    modifies out
    ensures ptr == at + |Tabs(n)| && out[..ptr] == old(out[..at]) + Tabs(n)
  {
    ptr := at;
    var j := 0;
    while j < n
      invariant 0 <= j <= |Tabs(n)| && ptr == at + j
      invariant out[..ptr] == old(out[..at]) + Tabs(n)[..j]
    {
      out[ptr] := TAB;
      ptr := ptr + 1;
      j := j + 1;
    }
    assert Tabs(n)[..j] == Tabs(n);
  }
}
