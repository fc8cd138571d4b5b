/** The packed IMEI and its text, and the token that carries an app command and its sequence number. */
module Codecs {
  import opened Bytes
  import opened PrintText

  const IMEI_LENGTH: nat := 8

  /** Character `j` of the text: a nibble of byte `j / 2`, the high one first. */
  function HexAt(imei: bytes, j: int): byte
    requires 0 <= j < 2 * |imei|
  {
    HexDigit(if j % 2 == 0 then imei[j / 2] / 16 else imei[j / 2] % 16)
  }

  /** `%02x` of every byte. */
  function ImeiString(imei: bytes): (s: bytes)
    ensures |s| == 2 * |imei|
  {
    seq(2 * |imei|, j requires 0 <= j < 2 * |imei| => HexAt(imei, j))
  }

  /** atoi of a single character. */
  function DigitValue(c: byte): (d: nat)
    ensures d < 10
  {
    if IsDigit(c) then c - 48 else 0
  }

  function PackedByte(high: byte, low: byte): byte {
    DigitValue(high) * 16 + DigitValue(low)
  }

  function Imei(s: bytes): (imei: bytes)
    requires |s| >= 2 * IMEI_LENGTH
    ensures |imei| == IMEI_LENGTH
  {
    seq(IMEI_LENGTH, i requires 0 <= i < IMEI_LENGTH => PackedByte(s[2 * i], s[2 * i + 1]))
  }

  /** `unknown imei` */
  const UNKNOWN_IMEI: bytes := [117, 110, 107, 110, 111, 119, 110, 32, 105, 109, 101, 105]

  const HEX_DIGITS := "0123456789abcdef"

  /** Two digits for every byte, the high one first. */
  lemma KeyDigits(imei: bytes, i: nat)
    requires i < |imei|
    ensures
      var key := ImeiString(imei);
      && |key| == 2 * |imei|
      && key[2 * i] as char == HEX_DIGITS[imei[i] / 16] && key[2 * i + 1] as char == HEX_DIGITS[imei[i] % 16]
    ensures Ascii(UNKNOWN_IMEI) == "unknown imei"
  {
    assert ImeiString(imei)[2 * i] == HexAt(imei, 2 * i) && ImeiString(imei)[2 * i + 1] == HexAt(imei, 2 * i + 1);
    SmallDigit(imei[i] / 16);
    SmallDigit(imei[i] % 16);
  }

  lemma SmallDigit(n: nat)
    requires n < 16
    ensures HexDigit(n) as char == HEX_DIGITS[n]
  {
  }

  /** One byte for two characters: decimal digits count as such, everything else as zero. */
  lemma PackedDigits(s: bytes, i: nat)
    requires |s| >= 2 * IMEI_LENGTH && i < IMEI_LENGTH
    ensures
      var a, b := s[2 * i] as int - 48, s[2 * i + 1] as int - 48;
      Imei(s)[i] == (if 0 <= a <= 9 then a else 0) * 16 + (if 0 <= b <= 9 then b else 0)
  {
  }

  /** get_IMEI_STRING: the C string in the buffer is the text of the IMEI, or a fixed one for a null pointer. */
  method GetImeiString(imei: array?<byte>) returns (text: array<byte>)
    requires imei != null ==> imei.Length == IMEI_LENGTH
    ensures fresh(text) && text.Length == 2 * IMEI_LENGTH + 1
    ensures var s := if imei == null then UNKNOWN_IMEI else ImeiString(imei[..]); text[..|s|] == s && text[|s|] == 0
  {
    text := new byte[2 * IMEI_LENGTH + 1];
    forall i | 0 <= i < |UNKNOWN_IMEI| {
      text[i] := UNKNOWN_IMEI[i];
    }
    text[|UNKNOWN_IMEI|] := 0;
    if imei != null {
      PutHex(imei[..], text);
    }
  }

  /** `%02x` of every byte, one after the other, and a terminator. */
  method PutHex(imei: bytes, text: array<byte>)
    requires |imei| == IMEI_LENGTH && text.Length == 2 * IMEI_LENGTH + 1
    modifies text
    ensures text[..2 * IMEI_LENGTH] == ImeiString(imei) && text[2 * IMEI_LENGTH] == 0
  {
    for i := 0 to IMEI_LENGTH
      invariant forall j :: 0 <= j < 2 * i ==> text[j] == HexAt(imei, j)
    {
      text[2 * i] := HexDigit(imei[i] / 16);
      text[2 * i + 1] := HexDigit(imei[i] % 16);
      assert HexAt(imei, 2 * i) == text[2 * i] && HexAt(imei, 2 * i + 1) == text[2 * i + 1];
    }
    text[2 * IMEI_LENGTH] := 0;
  }

  /** get_IMEI */
  method GetImei(s: bytes) returns (imei: array<byte>)
    requires |s| >= 2 * IMEI_LENGTH
    ensures imei[..] == Imei(s)
  {
    imei := new byte[IMEI_LENGTH];
    var i := 0;
    while i < IMEI_LENGTH * 2
      invariant 0 <= i <= IMEI_LENGTH * 2 && i % 2 == 0
      invariant imei[..i / 2] == Imei(s)[..i / 2]
    {
      var a, b := DigitValue(s[i]), DigitValue(s[i + 1]);
      imei[i / 2] := a * 16 + b;
      assert Imei(s)[i / 2] == PackedByte(s[2 * (i / 2)], s[2 * (i / 2) + 1]);
      i := i + 2;
    }
  }

  ghost predicate AllDecimal(s: bytes) {
    forall i :: 0 <= i < |s| ==> IsDigit(s[i])
  }

  /** Both nibbles of every byte are decimal digits. */
  ghost predicate PackedDecimal(imei: bytes) {
    forall i :: 0 <= i < |imei| ==> imei[i] / 16 < 10 && imei[i] % 16 < 10
  }

  lemma DigitBack(c: byte)
    ensures HexDigit(DigitValue(c)) == c <==> IsDigit(c)
  {
  }

  /** A stored key of sixteen characters is the key of the device that is rebuilt from it exactly when it is decimal. */
  lemma StringRebuilt(s: bytes)
    requires |s| == 2 * IMEI_LENGTH
    ensures ImeiString(Imei(s)) == s <==> AllDecimal(s)
  {
    hide Imei, ImeiString;
    var t := ImeiString(Imei(s));
    forall j | 0 <= j < |s|
      ensures t[j] == s[j] <==> IsDigit(s[j])
    {
      CharacterBack(s, j);
    }
  }

  /** Fifteen ones and the letter a: the key that is stored as 111111111111111a comes back with a zero at its end. */
  lemma LetterLost()
    ensures var s := seq(15, _ => 49) + [97]; ImeiString(Imei(s)) == seq(15, _ => 49) + [48]
  {
    var s: bytes := seq(15, _ => 49) + [97];
    forall j | 0 <= j < 16
      ensures ImeiString(Imei(s))[j] == if j < 15 then 49 else 48
    {
      Nibbles(s, j / 2);
    }
  }

  lemma CharacterBack(s: bytes, j: nat)
    requires j < |s| == 2 * IMEI_LENGTH
    ensures ImeiString(Imei(s))[j] == s[j] <==> IsDigit(s[j])
  {
    hide DigitValue, HexDigit;
    Nibbles(s, j / 2);
    DigitBack(s[j]);
  }

  lemma Nibbles(s: bytes, i: nat)
    requires |s| == 2 * IMEI_LENGTH && i < IMEI_LENGTH
    ensures Imei(s)[i] / 16 == DigitValue(s[2 * i]) && Imei(s)[i] % 16 == DigitValue(s[2 * i + 1])
  {
    hide DigitValue;
  }

  lemma NibbleBack(n: nat)
    requires n < 16
    ensures DigitValue(HexDigit(n)) == n <==> n < 10
    ensures DigitValue(HexDigit(n)) <= n
  {
  }

  /** A packed IMEI comes back from its text exactly when it is packed decimal. */
  lemma ImeiRebuilt(imei: bytes)
    requires |imei| == IMEI_LENGTH
    ensures Imei(ImeiString(imei)) == imei <==> PackedDecimal(imei)
  {
    forall i | 0 <= i < IMEI_LENGTH
      ensures Imei(ImeiString(imei))[i] == imei[i] <==> imei[i] / 16 < 10 && imei[i] % 16 < 10
    {
      ByteBack(imei, i);
    }
  }

  lemma ByteBack(imei: bytes, i: nat)
    requires i < |imei| == IMEI_LENGTH
    ensures Imei(ImeiString(imei))[i] == imei[i] <==> imei[i] / 16 < 10 && imei[i] % 16 < 10
  {
    hide DigitValue, HexDigit;
    Nibbles(ImeiString(imei), i);
    assert HexAt(imei, 2 * i) == HexDigit(imei[i] / 16) && HexAt(imei, 2 * i + 1) == HexDigit(imei[i] % 16);
    NibbleBack(imei[i] / 16);
    NibbleBack(imei[i] % 16);
  }

  /** Different IMEIs have different texts: the registry keeps devices apart. */
  lemma ImeiStringInjective(a: bytes, b: bytes)
    requires |a| == |b| && ImeiString(a) == ImeiString(b)
    ensures a == b
  {
    forall i | 0 <= i < |a|
      ensures a[i] == b[i]
    {
      assert HexAt(a, 2 * i) == ImeiString(a)[2 * i] == ImeiString(b)[2 * i] == HexAt(b, 2 * i);
      assert HexAt(a, 2 * i + 1) == ImeiString(a)[2 * i + 1] == ImeiString(b)[2 * i + 1] == HexAt(b, 2 * i + 1);
      HexDigitInjective(a[i] / 16, b[i] / 16);
      HexDigitInjective(a[i] % 16, b[i] % 16);
    }
  }

  lemma HexDigitInjective(m: nat, n: nat)
    requires m < 16 && n < 16 && HexDigit(m) == HexDigit(n)
    ensures m == n
  {
  }

  // Tokens

  predicate IsShort(x: int) {
    -0x8000 <= x < 0x8000
  }

  /** Truncation to a signed 16-bit value. */
  function Short(x: int): (s: int)
    ensures IsShort(s)
  {
    var u := x % 0x1_0000;
    if u < 0x8000 then u else u - 0x1_0000
  }

  /** Truncation to a signed 32-bit value. */
  function Int(x: int): (i: int)
    ensures -0x8000_0000 <= i < 0x8000_0000
  {
    var u := x % 0x1_0000_0000;
    if u < 0x8000_0000 then u else u - 0x1_0000_0000
  }

  /** The command in the upper half of an int, and the sequence number added to it. */
  function Token(cmd: int, seqNo: int): (t: int)
    ensures -0x8000_0000 <= t < 0x8000_0000
  {
    Int(cmd * 0x1_0000 + seqNo)
  }

  /** The upper half of a token, cut to a short. */
  function TokenCmd(token: int): int {
    Short(token % 0x1_0000_0000 / 0x1_0000)
  }

  function TokenSeq(token: int): int {
    Short(token)
  }

  /** The sequence number always survives; the command does exactly when the sequence number is not negative. */
  lemma TokenRoundTrip(cmd: int, seqNo: int)
    requires IsShort(cmd) && IsShort(seqNo)
    ensures TokenSeq(Token(cmd, seqNo)) == seqNo
    ensures TokenCmd(Token(cmd, seqNo)) == cmd <==> seqNo >= 0
    ensures seqNo < 0 ==> TokenCmd(Token(cmd, seqNo)) == Short(cmd - 1)
  {
    hide TokenCmd, TokenSeq, Int;
    var t := cmd * 0x1_0000 + seqNo;
    var c := if seqNo >= 0 then cmd else cmd - 1;
    var u := if seqNo >= 0 then seqNo else seqNo + 0x1_0000;
    var w := if c >= 0 then c else c + 0x1_0000;
    assert t == c * 0x1_0000 + u && 0 <= u < 0x1_0000;
    TokenHalves(t, w, u);
  }

  /** The halves of a 32-bit pattern. */
  lemma TokenHalves(t: int, w: int, u: int)
    requires 0 <= w < 0x1_0000 && 0 <= u < 0x1_0000
    requires t == w * 0x1_0000 + u || t == (w - 0x1_0000) * 0x1_0000 + u
    ensures TokenCmd(Int(t)) == Short(w) && TokenSeq(Int(t)) == Short(u)
  {
    hide Short;
    var p := w * 0x1_0000 + u;
    assert t % 0x1_0000_0000 == p;
    assert Int(t) == p || Int(t) == p - 0x1_0000_0000;
    assert Int(t) % 0x1_0000_0000 == p;
    assert p / 0x1_0000 == w;
    ShortPattern(Int(t), u, if Int(t) == p then w else w - 0x1_0000);
  }

  lemma ShortPattern(t: int, u: int, w: int)
    requires t == w * 0x1_0000 + u && 0 <= u < 0x1_0000
    ensures Short(t) == Short(u)
  {
    assert t % 0x1_0000 == u;
  }

  /** `int` fields in host (little-endian) order, as the token travels to the device and back. */
  function LittleEndian(x: int): (bs: bytes)
    ensures |bs| == 4
  {
    var u := x % 0x1_0000_0000;
    [u % 0x100, u / 0x100 % 0x100, u / 0x100 / 0x100 % 0x100, u / 0x100 / 0x100 / 0x100]
  }

  function FromLittleEndian(b0: byte, b1: byte, b2: byte, b3: byte): int {
    var u := b0 + b1 as int * 0x100 + b2 as int * 0x1_0000 + b3 as int * 0x100_0000;
    if u < 0x8000_0000 then u else u - 0x1_0000_0000
  }

  lemma LittleEndianRoundTrip(x: int)
    requires -0x8000_0000 <= x < 0x8000_0000
    ensures var bs := LittleEndian(x); FromLittleEndian(bs[0], bs[1], bs[2], bs[3]) == x
  {
  }
}
