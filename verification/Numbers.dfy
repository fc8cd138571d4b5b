/** parse_number denotes decimal literals exactly, and reads back what `%d` writes. */
module Numbers {
  import opened Bytes
  import opened PrintText
  import opened ParseText

  predicate AllDigits(ds: bytes) {
    forall i :: 0 <= i < |ds| ==> IsDigit(ds[i])
  }

  // The number grammar of section 6 of RFC 8259, and the decimal value it denotes

  datatype Exponent = NoExponent | Exponent(mark: byte, sign: bytes, digits: bytes)

  /** `fraction` is empty when there is no fractional part. */
  datatype Literal = Literal(negative: bool, whole: bytes, fraction: bytes, exponent: Exponent)

  predicate WellFormed(l: Literal) {
    && AllDigits(l.whole) && l.whole != [] && (l.whole[0] == 48 ==> |l.whole| == 1)
    && AllDigits(l.fraction)
    && match l.exponent
       case NoExponent => true
       case Exponent(mark, sign, digits) =>
         (mark == LOWER_E || mark == UPPER_E) && (sign == [] || sign == [PLUS] || sign == [MINUS])
         && digits != [] && AllDigits(digits)
  }

  /**
   * What the code takes for a number: digits may be missing behind the sign and behind the mark of an exponent, and
   * digits may follow a leading zero unless the first of them is a zero, too.
   */
  predicate Lenient(l: Literal) {
    && AllDigits(l.whole) && (l.whole == [] ==> l.negative)
    && (|l.whole| >= 2 && l.whole[0] == 48 ==> l.whole[1] != 48)
    && AllDigits(l.fraction)
    && (l.exponent.Exponent? ==> LenientExponent(l.exponent))
  }

  predicate LenientExponent(e: Exponent)
    requires e.Exponent?
  {
    && (e.mark == LOWER_E || e.mark == UPPER_E) && (e.sign == [] || e.sign == [PLUS] || e.sign == [MINUS])
    && AllDigits(e.digits)
  }

  lemma LenientLiteral(l: Literal)
    requires WellFormed(l)
    ensures Lenient(l)
  {
  }

  function ExponentText(e: Exponent): bytes {
    match e
    case NoExponent => []
    case Exponent(mark, sign, digits) => [mark] + sign + digits
  }

  function FractionText(ds: bytes): bytes {
    if ds == [] then [] else [DOT] + ds
  }

  function LiteralText(l: Literal): bytes {
    (if l.negative then [MINUS] else []) + l.whole + FractionText(l.fraction) + ExponentText(l.exponent)
  }

  /** A dot counts only in front of a digit. */
  predicate StartsFraction(s: bytes) {
    |s| >= 2 && s[0] == DOT && IsDigit(s[1])
  }

  /** Behind a zero only the digits from one on are taken for more of the number. */
  predicate MoreWhole(whole: bytes, c: byte) {
    IsDigit(c) && (whole == [48] ==> c != 48)
  }

  /** A sign counts only behind the mark. */
  predicate MoreExponent(e: Exponent, c: byte)
    requires e.Exponent?
  {
    IsDigit(c) || (e.sign == [] && e.digits == [] && (c == PLUS || c == MINUS))
  }

  /** What follows does not continue the literal. */
  predicate Stops(l: Literal, rest: bytes) {
    if l.exponent.Exponent? then !MoreExponent(l.exponent, Head(rest))
    else if l.fraction != [] then !IsDigit(Head(rest)) && !HasExponent(rest)
    else !MoreWhole(l.whole, Head(rest)) && !StartsFraction(rest) && !HasExponent(rest)
  }

  /** What continues no literal at all. */
  predicate EndsNumber(rest: bytes) {
    !IsDigit(Head(rest)) && Head(rest) != DOT && !HasExponent(rest) && Head(rest) != PLUS && Head(rest) != MINUS
  }

  lemma EndsEvery(l: Literal, rest: bytes)
    requires EndsNumber(rest)
    ensures Stops(l, rest)
  {
  }

  function Power(e: nat): (p: int)
    ensures p >= 1
  {
    if e == 0 then 1 else 10 * Power(e - 1)
  }

  /** Positional value: the digit at distance k from the right weighs 10^k. */
  function Positional(ds: bytes): int {
    if ds == [] then 0 else (ds[0] as int - 48) * Power(|ds| - 1) + Positional(ds[1..])
  }

  function ExponentValue(e: Exponent): int {
    match e
    case NoExponent => 0
    case Exponent(_, sign, digits) => if sign == [MINUS] then -Positional(digits) else Positional(digits)
  }

  /** whole + fraction / 10^places */
  function Magnitude(l: Literal): real {
    Positional(l.whole) as real + Positional(l.fraction) as real / Power(|l.fraction|) as real
  }

  /** sign * magnitude * 10^exponent */
  function Denotation(l: Literal): real {
    Scaled(l.negative, Magnitude(l), ExponentValue(l.exponent))
  }

  // Arithmetic

  lemma {:induction false} PowerAdd(a: nat, b: nat)
    ensures Power(a + b) == Power(a) * Power(b)
  {
    if a > 0 {
      PowerAdd(a - 1, b);
      assert Power(a + b) == 10 * (Power(a - 1) * Power(b));
    }
  }

  lemma {:induction false} PositionalAppend(ds: bytes, d: byte)
    ensures Positional(ds + [d]) == Positional(ds) * 10 + (d as int - 48)
  {
    var all := ds + [d];
    if ds == [] {
      assert all[1..] == [];
    } else {
      assert all[1..] == ds[1..] + [d];
      PositionalAppend(ds[1..], d);
      assert Power(|ds|) == 10 * Power(|ds| - 1);
    }
  }

  lemma {:induction false} AccumulateIsPositional(ds: bytes)
    ensures Accumulate(ds) == Positional(ds)
  {
    if ds != [] {
      var k := |ds| - 1;
      AccumulateIsPositional(ds[..k]);
      PositionalAppend(ds[..k], ds[k]);
      assert ds[..k] + [ds[k]] == ds;
    }
  }

  lemma Distribute(d: int, p: int, x: int, q: int)
    ensures (d * p + x) * q == d * (p * q) + x * q
  {
    assert d * p * q == d * (p * q);
  }

  lemma {:induction false} PositionalConcat(a: bytes, b: bytes)
    ensures Positional(a + b) == Positional(a) * Power(|b|) + Positional(b)
  {
    if a == [] {
      assert a + b == b;
    } else {
      assert (a + b)[1..] == a[1..] + b;
      PositionalConcat(a[1..], b);
      PowerAdd(|a| - 1, |b|);
      Distribute(a[0] as int - 48, Power(|a| - 1), Positional(a[1..]), Power(|b|));
    }
  }

  lemma {:induction false} Power10Nat(e: int)
    requires e >= 0
    ensures Power10(e) == Power(e) as real
    ensures Power10(-e) == 1.0 / Power(e) as real
  {
    if e > 0 {
      Power10Nat(e - 1);
    }
  }

  /** The power of ten in a value, upwards and downwards. */
  lemma ScaledBy(negative: bool, n: real, e: nat)
    ensures Scaled(negative, n, e) == (if negative then -n else n) * Power(e) as real
    ensures Scaled(negative, n, -(e as int)) == (if negative then -n else n) / Power(e) as real
  {
    hide Power10, Power;
    Power10Nat(e);
    Reciprocal(if negative then -n else n, Power(e) as real);
  }

  lemma Reciprocal(x: real, p: real)
    requires p != 0.0
    ensures x * (1.0 / p) == x / p
  {
  }

  lemma {:induction false} Power10Step(e: int)
    ensures Power10(e + 1) == 10.0 * Power10(e)
  {
  }

  /** Named so that a proof can treat a product as a unit. */
  function Times(x: real, y: real): real {
    x * y
  }

  lemma TimesScaled(x: real, y: real, k: real)
    ensures Times(x, k * y) == k * Times(x, y)
  {
  }

  lemma Power10Next(a: int, b: int)
    ensures Power10(a + b) == Times(Power10(a), Power10(b)) <==>
            Power10(a + b + 1) == Times(Power10(a), Power10(b + 1))
  {
    hide Power10, Times;
    Power10Step(a + b);
    Power10Step(b);
    TimesScaled(Power10(a), Power10(b), 10.0);
  }

  lemma Power10Zero(x: real)
    ensures Times(x, Power10(0)) == x
  {
  }

  lemma {:induction false} Power10Add(a: int, b: int)
    ensures Power10(a + b) == Times(Power10(a), Power10(b))
    decreases if b < 0 then -b else b
  {
    hide Power10, Times;
    Power10Zero(Power10(a));
    if b > 0 {
      Power10Add(a, b - 1);
      Power10Next(a, b - 1);
    } else if b < 0 {
      Power10Add(a, b + 1);
      Power10Next(a, b);
    }
  }

  // Scanning

  lemma {:induction false} TakeDigitsAppend(ds: bytes, rest: bytes)
    requires AllDigits(ds)
    ensures TakeDigits(ds + rest) == ds + TakeDigits(rest)
  {
    var s := ds + rest;
    if ds == [] {
      assert s == rest;
    } else {
      assert s[1..] == ds[1..] + rest;
      TakeDigitsAppend(ds[1..], rest);
    }
  }

  /** The digits of the whole part that the scanner keeps: without a leading zero. */
  function KeptWhole(whole: bytes): bytes {
    if whole != [] && whole[0] == 48 then whole[1..] else whole
  }

  lemma ScanWholeExact(whole: bytes, rest: bytes)
    requires AllDigits(whole) && (|whole| >= 2 && whole[0] == 48 ==> whole[1] != 48)
    ensures !MoreWhole(whole, Head(rest)) ==>
      ScanWhole(whole + rest) == KeptWhole(whole) && AfterWhole(whole + rest) == rest
    ensures MoreWhole(whole, Head(rest)) ==> |AfterWhole(whole + rest)| < |rest|
  {
    hide TakeDigits, ScanWhole, AfterWhole, Run;
    var s := whole + rest;
    if whole == [] {
      assert s == rest;
      RunExact([], rest);
      NothingWhole(rest);
    } else if whole[0] == 48 {
      assert s[1..] == whole[1..] + rest && s[0] == 48;
      RunExact(whole[1..], rest);
      WholeIsRun(s, whole[1..] + rest);
      assert |whole| == 1 ==> whole == [48];
    } else {
      assert s[0] == whole[0];
      RunExact(whole, rest);
      WholeIsRun(s, s);
    }
  }

  lemma NothingWhole(s: bytes)
    ensures IsDigit(Head(s)) ==> |AfterWhole(s)| < |s|
    ensures !IsDigit(Head(s)) ==> ScanWhole(s) == [] && AfterWhole(s) == s
  {
  }

  /** The digits of the first loop, behind an optional zero. */
  function Run(t: bytes): bytes {
    if 49 <= Head(t) <= 57 then TakeDigits(t) else []
  }

  predicate MoreRun(ds: bytes, c: byte) {
    if ds == [] then 49 <= c <= 57 else IsDigit(c)
  }

  lemma RunExact(ds: bytes, rest: bytes)
    requires AllDigits(ds) && (ds != [] ==> ds[0] != 48)
    ensures |Run(ds + rest)| <= |ds + rest|
    ensures MoreRun(ds, Head(rest)) ==> |(ds + rest)[|Run(ds + rest)|..]| < |rest|
    ensures !MoreRun(ds, Head(rest)) ==> Run(ds + rest) == ds && (ds + rest)[|ds|..] == rest
  {
    hide TakeDigits;
    TakeDigitsAppend(ds, rest);
    NoDigits(rest);
    assert ds == [] ==> ds + rest == rest;
  }

  lemma WholeIsRun(s: bytes, t: bytes)
    ensures Head(s) == 48 && t == s[1..] ==> ScanWhole(s) == Run(t) && AfterWhole(s) == t[|Run(t)|..]
    ensures Head(s) != 48 && t == s ==> ScanWhole(s) == Run(t) && AfterWhole(s) == t[|Run(t)|..]
  {
    hide TakeDigits;
  }

  lemma ScanFractionExact(ds: bytes, rest: bytes)
    requires AllDigits(ds)
    ensures !(if ds == [] then StartsFraction(rest) else IsDigit(Head(rest))) ==>
      ScanFraction(FractionText(ds) + rest) == ds && AfterFraction(FractionText(ds) + rest) == rest
    ensures (if ds == [] then StartsFraction(rest) else IsDigit(Head(rest))) ==>
      |AfterFraction(FractionText(ds) + rest)| < |rest|
  {
    var s := FractionText(ds) + rest;
    if ds == [] {
      assert s == rest;
    } else {
      assert s[1..] == ds + rest;
      TakeDigitsAppend(ds, rest);
    }
  }

  lemma SignedDigits(mark: byte, sign: bytes, more: bytes)
    requires mark == LOWER_E || mark == UPPER_E
    requires (sign == [] && Head(more) != PLUS && Head(more) != MINUS) || sign == [PLUS] || sign == [MINUS]
    ensures var s := [mark] + (sign + more);
      HasExponent(s) && ExponentDigits(s) == more && (Head(s[1..]) == MINUS <==> sign == [MINUS])
  {
    var s := [mark] + (sign + more);
    assert s[1..] == sign + more;
    if sign == [] {
      assert s[1..] == more;
    } else {
      assert s[2..] == more;
    }
  }

  lemma BehindMark(e: Exponent, rest: bytes)
    requires e.Exponent? && LenientExponent(e)
    ensures var s := ExponentText(e) + rest;
      && HasExponent(s)
      && (if e.sign == [] && e.digits == [] && (Head(rest) == PLUS || Head(rest) == MINUS) then
            ExponentDigits(s) == rest[1..]
          else
            ExponentDigits(s) == e.digits + rest && (Head(s[1..]) == MINUS <==> e.sign == [MINUS]))
  {
    hide HasExponent, ExponentDigits;
    var more := e.digits + rest;
    assert ExponentText(e) + rest == [e.mark] + (e.sign + more);
    if e.sign == [] && e.digits == [] && (Head(rest) == PLUS || Head(rest) == MINUS) {
      SignedDigits(e.mark, [rest[0]], rest[1..]);
      assert [e.mark] + ([rest[0]] + rest[1..]) == [e.mark] + (e.sign + more);
    } else {
      assert e.digits == [] ==> more == rest;
      SignedDigits(e.mark, e.sign, more);
    }
  }

  lemma ScanExponentExact(e: Exponent, rest: bytes)
    requires e.Exponent? && LenientExponent(e)
    ensures var s := ExponentText(e) + rest;
      && HasExponent(s)
      && var t := ExponentDigits(s)[|TakeDigits(ExponentDigits(s))|..];
      if MoreExponent(e, Head(rest)) then |t| < |rest|
      else TakeDigits(ExponentDigits(s)) == e.digits && t == rest && (Head(s[1..]) == MINUS <==> e.sign == [MINUS])
  {
    hide TakeDigits, ExponentText, ExponentDigits, HasExponent;
    BehindMark(e, rest);
    TakeDigitsAppend(e.digits, rest);
    NoDigits(rest);
  }

  lemma ScanParts(s: bytes, negative: bool, s1: bytes, s2: bytes, s3: bytes)
    requires Head(s) == MINUS <==> negative
    requires s1 == if negative then s[1..] else s
    requires AfterWhole(s1) == s2 && AfterFraction(s2) == s3
    ensures var n := ScanNumber(s);
      && n.negative == negative && n.whole == ScanWhole(s1) && n.fraction == ScanFraction(s2)
      && if HasExponent(s3) then
           && n.exponent == TakeDigits(ExponentDigits(s3)) && n.rest == ExponentDigits(s3)[|n.exponent|..]
           && (n.exponentNegative <==> Head(s3[1..]) == MINUS)
         else
           n.exponent == [] && n.rest == s3 && !n.exponentNegative
  {
    hide ScanWhole, AfterWhole, ScanFraction, AfterFraction, TakeDigits, ExponentDigits;
  }

  lemma LiteralParts(l: Literal, rest: bytes, s2: bytes, s3: bytes)
    requires Lenient(l)
    requires s3 == ExponentText(l.exponent) + rest && s2 == FractionText(l.fraction) + s3
    ensures var s := LiteralText(l) + rest; var s1 := l.whole + s2;
      && (Head(s) == MINUS <==> l.negative)
      && s1 == (if l.negative then s[1..] else s)
  {
    hide ExponentText, FractionText;
    var s1 := l.whole + s2;
    var sign := if l.negative then [MINUS] else [];
    assert LiteralText(l) + rest == sign + s1;
    assert l.whole != [] ==> s1[0] == l.whole[0];
  }

  /** What stands between the parts of a literal does not continue the part in front of it. */
  lemma Between(l: Literal, rest: bytes)
    requires Lenient(l)
    ensures
      var s3 := ExponentText(l.exponent) + rest;
      var s2 := FractionText(l.fraction) + s3;
      && (l.exponent.Exponent? ==> !StartsFraction(s3) && !IsDigit(Head(s3)))
      && (l.exponent.NoExponent? ==> s3 == rest)
      && (l.fraction != [] || l.exponent.Exponent? ==> !MoreWhole(l.whole, Head(s2)))
      && (l.fraction == [] && l.exponent.NoExponent? ==> s2 == rest)
  {
    var s3 := ExponentText(l.exponent) + rest;
    assert l.exponent.NoExponent? ==> s3 == rest;
    assert l.fraction == [] ==> FractionText(l.fraction) + s3 == s3;
  }

  /** A literal is consumed to its last byte, with its parts recognised, unless what follows continues it. */
  lemma ScanLiteral(l: Literal, rest: bytes)
    requires Lenient(l)
    ensures var n := ScanNumber(LiteralText(l) + rest);
      && (!Stops(l, rest) ==> |n.rest| < |rest|)
      && (Stops(l, rest) ==>
            && n.rest == rest
            && n.negative == l.negative
            && n.whole == KeptWhole(l.whole)
            && n.fraction == l.fraction
            && n.exponent == (if l.exponent.NoExponent? then [] else l.exponent.digits)
            && n.exponentNegative == (l.exponent.Exponent? && l.exponent.sign == [MINUS]))
  {
    hide ScanNumber, LiteralText, ScanWhole, AfterWhole, ScanFraction, AfterFraction, TakeDigits, ExponentDigits;
    hide ExponentText, FractionText, StartsFraction, HasExponent, MoreWhole, MoreExponent;
    var s3 := ExponentText(l.exponent) + rest;
    var s2 := FractionText(l.fraction) + s3;
    var s1 := l.whole + s2;
    if l.exponent.Exponent? {
      ScanExponentExact(l.exponent, rest);
    }
    Between(l, rest);
    NoDigits(rest);
    ScanFractionExact(l.fraction, s3);
    ScanWholeExact(l.whole, s2);
    LiteralParts(l, rest, s2, s3);
    ScanParts(LiteralText(l) + rest, l.negative, s1, AfterWhole(s1), AfterFraction(AfterWhole(s1)));
  }

  lemma NoDigits(s: bytes)
    ensures TakeDigits(s) == [] <==> !IsDigit(Head(s))
  {
  }

  lemma Rescale(w: real, f: real, p: real, x: real)
    requires p > 0.0
    ensures (w * p + f) * (1.0 / p * x) == (w + f / p) * x
  {
    var i := 1.0 / p;
    assert p * i == 1.0 && f / p == f * i;
    assert (w * p + f) * i == w + f * i by {
      assert w * p * i == w * (p * i);
    }
    assert (w * p + f) * (i * x) == (w * p + f) * i * x;
  }

  /** Moving the decimal point: whole digits and fraction digits read as one number. */
  lemma DecimalShift(whole: int, fraction: int, places: int, e: int)
    requires places >= 0
    ensures Times((whole * Power(places) + fraction) as real, Power10(-places + e))
         == Times(whole as real + fraction as real / Power(places) as real, Power10(e))
  {
    hide Power10, Times, Power;
    Power10Add(-places, e);
    Power10Nat(places);
    ShiftProduct(whole, fraction, Power(places), Power10(-places), Power10(e));
  }

  lemma ShiftProduct(w: int, f: int, p: int, i: real, x: real)
    requires p > 0 && i == 1.0 / p as real
    ensures Times((w * p + f) as real, Times(i, x)) == Times(w as real + f as real / p as real, x)
  {
    assert (w * p + f) as real == w as real * p as real + f as real;
    Rescale(w as real, f as real, p as real, x);
  }

  lemma SameScaled(negative: bool, m: real, e: int, n: real, f: int)
    requires Times(m, Power10(e)) == Times(n, Power10(f))
    ensures Scaled(negative, m, e) == Scaled(negative, n, f)
  {
    hide Power10, Times;
    SignedProduct(negative, m, Power10(e));
    SignedProduct(negative, n, Power10(f));
  }

  lemma SignedProduct(negative: bool, m: real, x: real)
    ensures (if negative then -1.0 else 1.0) * m * x == if negative then -Times(m, x) else Times(m, x)
  {
  }

  /** A leading zero counts for nothing. */
  lemma LeadingZero(whole: bytes)
    ensures Positional(KeptWhole(whole)) == Positional(whole)
  {
    hide Power;
  }

  /** The digits that the scanner keeps have the value of the whole literal. */
  lemma KeptDigits(l: Literal, whole: bytes)
    requires whole == KeptWhole(l.whole)
    ensures Accumulate(whole + l.fraction) == Positional(l.whole) * Power(|l.fraction|) + Positional(l.fraction)
  {
    hide Accumulate, Positional, Power, KeptWhole;
    AccumulateIsPositional(whole + l.fraction);
    PositionalConcat(whole, l.fraction);
    LeadingZero(l.whole);
  }

  lemma ScannedValue(l: Literal, n: Scanned)
    requires Lenient(l)
    requires n.negative == l.negative && n.fraction == l.fraction
    requires n.whole == KeptWhole(l.whole)
    requires n.exponent == (if l.exponent.NoExponent? then [] else l.exponent.digits)
    requires n.exponentNegative == (l.exponent.Exponent? && l.exponent.sign == [MINUS])
    ensures NumberValue(n) == Denotation(l)
  {
    hide Accumulate, Positional, Power, Power10, Scaled, Times;
    KeptDigits(l, n.whole);
    AccumulateIsPositional(n.exponent);
    assert Positional([]) == 0 by { EmptyPositional(); }
    var e := ExponentValue(l.exponent);
    assert ScaleOf(n) == -|l.fraction| + e;
    DecimalShift(Positional(l.whole), Positional(l.fraction), |l.fraction|, e);
    SameScaled(l.negative, Accumulate(n.whole + n.fraction) as real, ScaleOf(n), Magnitude(l), e);
  }

  lemma EmptyPositional()
    ensures Positional([]) == 0
  {
  }

  /**
   * parse_number stops behind a literal exactly when nothing that follows continues it, and then computes the value
   * that its decimal digits denote.
   */
  lemma NumberDenotation(l: Literal, rest: bytes)
    requires Lenient(l)
    ensures ScanNumber(LiteralText(l) + rest).rest == rest <==> Stops(l, rest)
    ensures Stops(l, rest) ==> NumberValue(ScanNumber(LiteralText(l) + rest)) == Denotation(l)
  {
    hide ScanNumber, LiteralText, Lenient, Stops, NumberValue, Denotation;
    ScanLiteral(l, rest);
    if Stops(l, rest) {
      ScannedValue(l, ScanNumber(LiteralText(l) + rest));
    }
  }

  // Conversely, whatever is consumed is such a literal

  lemma WholePart(s: bytes) returns (whole: bytes)
    ensures AllDigits(whole) && s == whole + AfterWhole(s)
    ensures (|whole| >= 2 && whole[0] == 48 ==> whole[1] != 48) && (IsDigit(Head(s)) ==> whole != [])
  {
    hide ScanWhole, AfterWhole, Run, AllDigits;
    if Head(s) == 48 {
      var t := s[1..];
      WholeIsRun(s, t);
      RunDigits(t);
      whole := [48] + Run(t);
      BehindZero(s, Run(t), t[|Run(t)|..]);
    } else {
      WholeIsRun(s, s);
      RunDigits(s);
      whole := Run(s);
    }
  }

  lemma BehindZero(s: bytes, ds: bytes, rest: bytes)
    requires s != [] && s[0] == 48 && s[1..] == ds + rest && AllDigits(ds) && (ds != [] ==> ds[0] != 48)
    ensures AllDigits([48] + ds) && s == [48] + ds + rest && (ds != [] ==> ([48] + ds)[1] != 48)
  {
  }

  lemma RunDigits(t: bytes)
    ensures AllDigits(Run(t)) && |Run(t)| <= |t| && t == Run(t) + t[|Run(t)|..]
    ensures Run(t) != [] ==> Run(t)[0] != 48
    ensures 49 <= Head(t) <= 57 ==> Run(t) != []
  {
    hide TakeDigits;
    NoDigits(t);
  }

  lemma FractionPart(s: bytes)
    ensures AllDigits(ScanFraction(s)) && s == FractionText(ScanFraction(s)) + AfterFraction(s)
  {
    hide TakeDigits;
  }

  lemma ExponentPart(s: bytes) returns (e: Exponent)
    requires HasExponent(s)
    ensures e.Exponent? && LenientExponent(e)
    ensures s == ExponentText(e) + ExponentDigits(s)[|TakeDigits(ExponentDigits(s))|..]
  {
    hide TakeDigits;
    var signed := Head(s[1..]) == PLUS || Head(s[1..]) == MINUS;
    var t := ExponentDigits(s);
    var sign := if signed then [s[1]] else [];
    e := Exponent(s[0], sign, TakeDigits(t));
    assert s == [s[0]] + sign + t;
  }

  /** The text that parse_number consumes, as a literal that nothing behind it continues. */
  lemma NumberLiteral(s: bytes) returns (l: Literal)
    requires s != [] && (s[0] == MINUS || IsDigit(s[0]))
    ensures Lenient(l) && s == LiteralText(l) + ScanNumber(s).rest && Stops(l, ScanNumber(s).rest)
    ensures NumberValue(ScanNumber(s)) == Denotation(l)
  {
    hide ScanWhole, AfterWhole, ScanFraction, AfterFraction, TakeDigits, ExponentDigits, HasExponent, ScanNumber;
    hide LiteralText, NumberValue, Denotation, Stops, ExponentText, FractionText;
    var negative := s[0] == MINUS;
    var s1 := if negative then s[1..] else s;
    var s2 := AfterWhole(s1);
    var s3 := AfterFraction(s2);
    ScanParts(s, negative, s1, s2, s3);
    var whole := WholePart(s1);
    FractionPart(s2);
    var e := NoExponent;
    if HasExponent(s3) {
      e := ExponentPart(s3);
    } else {
      NoText(s3);
    }
    l := Literal(negative, whole, ScanFraction(s2), e);
    JoinParts(s, l, s1, s2, s3, ScanNumber(s).rest);
    NumberDenotation(l, ScanNumber(s).rest);
  }

  lemma NoText(s: bytes)
    ensures ExponentText(NoExponent) + s == s
  {
  }

  lemma JoinParts(s: bytes, l: Literal, s1: bytes, s2: bytes, s3: bytes, rest: bytes)
    requires s == (if l.negative then [MINUS] else []) + s1 && s1 == l.whole + s2
    requires s2 == FractionText(l.fraction) + s3 && s3 == ExponentText(l.exponent) + rest
    ensures s == LiteralText(l) + rest
  {
    hide FractionText, ExponentText;
  }

  lemma {:induction false} DigitsPositional(n: nat)
    ensures Positional(Digits(n)) == n
  {
    if n < 10 {
      assert Digits(n)[1..] == [];
    } else {
      DigitsPositional(n / 10);
      PositionalAppend(Digits(n / 10), 48 + n % 10);
    }
  }

  lemma IntegerDenotation(negative: bool, ds: bytes, n: int)
    requires Positional(ds) == n
    ensures Denotation(Literal(negative, ds, [], NoExponent)) == (if negative then -n else n) as real
  {
  }

  /** The literal that `%d` writes. */
  function IntLiteral(n: int): (l: Literal) {
    Literal(n < 0, Digits(if n < 0 then -n else n), [], NoExponent)
  }

  lemma IntLiteralText(n: int)
    ensures WellFormed(IntLiteral(n)) && LiteralText(IntLiteral(n)) == IntText(n)
  {
    var ds := Digits(if n < 0 then -n else n);
    assert ds[0] == 48 ==> |ds| == 1;
  }

  /** The text of an integer is read back exactly when nothing that follows continues it. */
  lemma IntegerRoundTrip(n: int, rest: bytes)
    ensures var s := ScanNumber(IntText(n) + rest);
      && (s.rest == rest <==> Stops(IntLiteral(n), rest))
      && (Stops(IntLiteral(n), rest) ==> NumberValue(s) == n as real)
  {
    hide ScanNumber, NumberValue, Denotation, Positional, Stops;
    var m := if n < 0 then -n else n;
    IntLiteralText(n);
    NumberDenotation(IntLiteral(n), rest);
    DigitsPositional(m);
    IntegerDenotation(n < 0, Digits(m), m);
  }
}
