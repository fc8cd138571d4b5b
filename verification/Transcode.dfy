/** The bit arithmetic with which parse_string writes UTF-8 and combines surrogates. */
module Transcode {
  import opened Bytes
  import opened Bits
  import opened ParseText

  /** A continuation byte: `(uc | 0x80) & 0xBF`. */
  function Continuation(uc: nat): nat {
    And(Or(uc, 0x80), 0xBF)
  }

  lemma Powers()
    ensures Pow2(1) == 2 && Pow2(2) == 4 && Pow2(3) == 8 && Pow2(4) == 16 && Pow2(5) == 32
    ensures Pow2(6) == 64 && Pow2(10) == 1024
  {
    assert Pow2(4) == 16 && Pow2(5) == 32;
    Pow2Add(5, 5);
  }

  lemma ShlBy(a: nat, k: nat, p: nat)
    requires Pow2(k) == p
    ensures Shl(a, k) == a * p
  {
    ShlProduct(a, k);
  }

  lemma BitSeven(q: nat)
    ensures And(Or(q, 2), 2) == 2
  {
    hide Or, And;
    OrHalves(q, 2);
    OrHalves(q / 2, 1);
    AndHalves(Or(q, 2), 2);
    AndHalves(Or(q / 2, 1), 1);
    NoBits(Or(q / 2, 1) / 2);
  }

  lemma ContinuationValue(uc: nat)
    ensures Continuation(uc) == 0x80 + uc % 0x40
  {
    hide Or, And, Shl, Pow2;
    Powers();
    var q, r := uc / 64, uc % 64;
    ShlBy(q, 6, 64);
    ShlBy(2, 6, 64);
    ShlBy(Or(q, 2), 6, 64);
    OrSplit(q, 2, r, 0, 6);
    OrZero(r);
    AndSplit(Or(q, 2), 2, r, 63, 6);
    BitSeven(q);
    AndMask(r, 6);
  }

  /** A lead byte: the mark's bits lie above those of the value. */
  lemma LeadValue(uc: nat, mark: nat, k: nat)
    requires uc < Pow2(k)
    ensures Or(uc, Shl(mark, k)) == Shl(mark, k) + uc
  {
    hide Or, Shl, Pow2;
    OrSplit(0, mark, uc, 0, k);
    ShlZero(k);
    OrZero(mark);
    OrZero(uc);
  }

  /** The ten low bits of both surrogates, put together and moved behind the first plane. */
  function CombineBits(uc: nat, uc2: nat): nat {
    0x1_0000 + Or(Shl(And(uc, 0x3FF), 10), And(uc2, 0x3FF))
  }

  lemma CombineBitsValue(uc: nat, uc2: nat)
    requires IsHigh(uc) && IsLow(uc2)
    ensures CombineBits(uc, uc2) == Combine(uc, uc2)
  {
    hide Or, And, Shl, Pow2;
    Powers();
    AndMask(uc, 10);
    AndMask(uc2, 10);
    OrDisjoint(uc % 1024, uc2 % 1024, 10);
    ShlBy(uc % 1024, 10, 1024);
  }

  const FIRST_BYTE_MARK: seq<nat> := [0x00, 0x00, 0xC0, 0xE0, 0xF0]

  function Utf8Length(uc: nat): nat {
    if uc < 0x80 then 1 else if uc < 0x800 then 2 else if uc < 0x1_0000 then 3 else 4
  }

  lemma LeadByte(uc: nat, len: nat)
    requires 1 <= len <= 4
    requires uc < (if len == 1 then 0x80 else if len == 2 then 0x20 else if len == 3 then 0x10 else 8)
    ensures Or(uc, FIRST_BYTE_MARK[len]) == FIRST_BYTE_MARK[len] + uc
  {
    hide Or, Shl, Pow2;
    Powers();
    if len == 1 {
      OrZero(uc);
    } else if len == 2 {
      LeadValue(uc, 6, 5);
      ShlBy(6, 5, 32);
    } else if len == 3 {
      LeadValue(uc, 14, 4);
      ShlBy(14, 4, 16);
    } else {
      LeadValue(uc, 30, 3);
      ShlBy(30, 3, 8);
    }
  }

  /** What the lead byte holds of a character. */
  function LeadBits(c: nat): nat {
    if c < 0x80 then c else if c < 0x800 then c / 0x40
    else if c < 0x1_0000 then c / 0x40 / 0x40 else c / 0x40 / 0x40 / 0x40
  }

  /** The bytes of a character, by their distance from its end. */
  lemma Utf8Bytes(c: nat)
    requires c < 0x11_0000
    ensures
      var s, len := Utf8(c), Utf8Length(c);
      && |s| == len && s[0] == FIRST_BYTE_MARK[len] + LeadBits(c)
      && (len >= 2 ==> s[len - 1] == 0x80 + c % 0x40)
      && (len >= 3 ==> s[len - 2] == 0x80 + c / 0x40 % 0x40)
      && (len == 4 ==> s[1] == 0x80 + c / 0x40 / 0x40 % 0x40)
  {
    assert c / 0x1000 == c / 0x40 / 0x40 && c / 0x4_0000 == c / 0x40 / 0x40 / 0x40;
  }

  /** The fall-through switch that fills the bytes of one character from the last to the first. */
  method WriteUtf8(out: array<byte>, at: nat, c: nat) returns (next: nat)
    requires c < 0x11_0000 && at + |Utf8(c)| <= out.Length
    modifies out
    ensures next == at + |Utf8(c)|
    ensures out[..at] == old(out[..at]) && out[at..next] == Utf8(c)
  {
    hide Or, And, Shl, Shr, Pow2, Utf8;
    Utf8Bytes(c);
    var uc, len := c, Utf8Length(c);
    var ptr2 := at + len;
    if len == 4 {
      ptr2, uc := PutContinuation(out, ptr2, uc);
    }
    if len >= 3 {
      ptr2, uc := PutContinuation(out, ptr2, uc);
    }
    if len >= 2 {
      ptr2, uc := PutContinuation(out, ptr2, uc);
    }
    LeadByte(uc, len);
    ptr2 := ptr2 - 1;
    out[ptr2] := Or(uc, FIRST_BYTE_MARK[len]);
    next := ptr2 + len;
  }

  /** Stores a continuation byte from the right and drops the six bits it holds. */
  method PutContinuation(out: array<byte>, ptr2: nat, uc: nat) returns (before: nat, rest: nat)
    requires 0 < ptr2 <= out.Length
    modifies out
    ensures before == ptr2 - 1 && rest == uc / 0x40
    ensures out[..] == old(out[..])[before := 0x80 + uc % 0x40]
  {
    hide Or, And, Shr;
    Powers();
    ContinuationValue(uc);
    ShrQuotient(uc, 6);
    before := ptr2 - 1;
    out[before] := Continuation(uc);
    rest := Shr(uc, 6);
  }
}
