/** C's bit operators on non-negative values. A shift by k is a division or multiplication by 2^k. */
module Bits {
  function Pow2(k: nat): (p: nat)
    ensures p >= 1
  {
    if k == 0 then 1 else 2 * Pow2(k - 1)
  }

  function Bit(on: bool): nat {
    if on then 1 else 0
  }

  /** `a | b` */
  function Or(a: nat, b: nat): nat {
    if a == 0 && b == 0 then 0 else 2 * Or(a / 2, b / 2) + Bit(a % 2 == 1 || b % 2 == 1)
  }

  /** `a & b` */
  function And(a: nat, b: nat): nat {
    if a == 0 || b == 0 then 0 else 2 * And(a / 2, b / 2) + Bit(a % 2 == 1 && b % 2 == 1)
  }

  lemma Pow2Step(k: nat)
    requires k > 0
    ensures Pow2(k) == 2 * Pow2(k - 1)
  {
  }

  lemma ShlStep(a: nat, k: nat)
    requires k > 0
    ensures Shl(a, k) == 2 * Shl(a, k - 1)
  {
  }

  lemma ShrStep(a: nat, k: nat)
    requires k > 0
    ensures Shr(a, k) == Shr(a / 2, k - 1)
  {
  }

  lemma Unshifted(a: nat)
    ensures Shl(a, 0) == a && Shr(a, 0) == a && Pow2(0) == 1
  {
  }

  lemma {:induction false} OrZero(a: nat)
    ensures Or(a, 0) == a && Or(0, a) == a
  {
    if a > 0 {
      OrZero(a / 2);
    }
  }

  lemma {:induction false} Pow2Add(a: nat, b: nat)
    ensures Pow2(a + b) == Pow2(a) * Pow2(b)
  {
    if a > 0 {
      Pow2Add(a - 1, b);
    }
  }

  /** Shift to the left. */
  function Shl(a: nat, k: nat): nat
    decreases k
  {
    if k == 0 then a else 2 * Shl(a, k - 1)
  }

  lemma {:induction false} ShlProduct(a: nat, k: nat)
    ensures Shl(a, k) == a * Pow2(k)
    decreases k
  {
    if k > 0 {
      ShlProduct(a, k - 1);
    }
  }

  /** The bits from position k up and the bits below k are or-ed independently. */
  lemma {:induction false} OrSplit(a: nat, b: nat, c: nat, d: nat, k: nat)
    requires c < Pow2(k) && d < Pow2(k)
    ensures Or(Shl(a, k) + c, Shl(b, k) + d) == Shl(Or(a, b), k) + Or(c, d)
    decreases k
  {
    hide Or, Shl, Pow2;
    OrZero(0);
    Unshifted(a);
    Unshifted(b);
    Unshifted(Or(a, b));
    if k > 0 {
      Pow2Step(k);
      ShlStep(a, k);
      ShlStep(b, k);
      ShlStep(Or(a, b), k);
      OrSplit(a, b, c / 2, d / 2, k - 1);
      OrHalves(Shl(a, k) + c, Shl(b, k) + d);
      OrHalves(c, d);
    }
  }

  lemma OrHalves(a: nat, b: nat)
    ensures Or(a, b) == 2 * Or(a / 2, b / 2) + Bit(a % 2 == 1 || b % 2 == 1)
  {
  }

  lemma {:induction false} OrBelow(a: nat, b: nat, k: nat)
    requires a < Pow2(k) && b < Pow2(k)
    ensures Or(a, b) < Pow2(k)
  {
    if k > 0 {
      OrBelow(a / 2, b / 2, k - 1);
    }
  }

  lemma {:induction false} OrOnes(a: nat, k: nat)
    requires a < Pow2(k)
    ensures Or(a, Pow2(k) - 1) == Pow2(k) - 1
  {
    hide Or, Pow2;
    Unshifted(a);
    OrZero(0);
    if k > 0 {
      Pow2Step(k);
      OrOnes(a / 2, k - 1);
      OrHalves(a, Pow2(k) - 1);
    }
  }

  /** Or-ing into bits that are clear adds. */
  lemma OrDisjoint(high: nat, low: nat, k: nat)
    requires low < Pow2(k)
    ensures Or(Shl(high, k), low) == Shl(high, k) + low
  {
    hide Or, Shl;
    OrSplit(high, 0, 0, low, k);
    ShlZero(k);
    OrZero(high);
    OrZero(low);
  }

  lemma NoBits(a: nat)
    ensures And(a, 0) == 0 && Pow2(0) == 1 && Shr(a, 0) == a
  {
  }

  /** Masking with k ones is the remainder modulo 2^k. */
  lemma {:induction false} AndMask(a: nat, k: nat)
    ensures And(a, Pow2(k) - 1) == a % Pow2(k)
  {
    hide And, Pow2;
    NoBits(a);
    if k > 0 {
      var m := Pow2(k - 1);
      Pow2Step(k);
      AndMask(a / 2, k - 1);
      AndHalves(a, 2 * m - 1);
      Halving(a, m);
    }
  }

  /** Division by an even number, in two steps. */
  lemma Halving(x: nat, m: nat)
    requires m >= 1
    ensures x / (2 * m) == x / 2 / m && x % (2 * m) == 2 * (x / 2 % m) + x % 2
  {
    var q, r := x / 2 / m, x / 2 % m;
    var p := m * q;
    assert x / 2 == p + r && (2 * m) * q == 2 * p;
    Quotient(x, 2 * m, q, 2 * r + x % 2);
  }

  lemma Quotient(x: int, d: int, q: int, r: int)
    requires d > 0 && x == d * q + r && 0 <= r < d
    ensures x / d == q && x % d == r
  {
    assert d * (x / d - q) == r - x % d;
    assert -d < d * (x / d - q) < d;
    Multiple(d, x / d - q);
  }

  lemma Multiple(d: int, k: int)
    requires d > 0
    ensures (k >= 1 ==> d * k >= d) && (k <= -1 ==> d * k <= -d)
  {
  }

  lemma {:induction false} AndSplit(a: nat, b: nat, c: nat, d: nat, k: nat)
    requires c < Pow2(k) && d < Pow2(k)
    ensures And(Shl(a, k) + c, Shl(b, k) + d) == Shl(And(a, b), k) + And(c, d)
    decreases k
  {
    hide And, Shl, Pow2;
    NoBits(0);
    Unshifted(a);
    Unshifted(b);
    Unshifted(And(a, b));
    if k > 0 {
      Pow2Step(k);
      ShlStep(a, k);
      ShlStep(b, k);
      ShlStep(And(a, b), k);
      AndSplit(a, b, c / 2, d / 2, k - 1);
      AndHalves(Shl(a, k) + c, Shl(b, k) + d);
      AndHalves(c, d);
    }
  }

  lemma AndHalves(a: nat, b: nat)
    ensures And(a, b) == 2 * And(a / 2, b / 2) + Bit(a % 2 == 1 && b % 2 == 1)
  {
  }

  /** Shift to the right. */
  function Shr(a: nat, k: nat): nat
    decreases k
  {
    if k == 0 then a else Shr(a / 2, k - 1)
  }

  lemma {:induction false} ShrQuotient(a: nat, k: nat)
    ensures Shr(a, k) == a / Pow2(k)
    decreases k
  {
    hide Pow2;
    NoBits(a);
    if k > 0 {
      Pow2Step(k);
      ShrQuotient(a / 2, k - 1);
      Halving(a, Pow2(k - 1));
    }
  }

  lemma {:induction false} ShlAdd(a: nat, b: nat, k: nat)
    ensures Shl(a + b, k) == Shl(a, k) + Shl(b, k)
    decreases k
  {
    if k > 0 {
      ShlAdd(a, b, k - 1);
    }
  }

  lemma {:induction false} ShlShl(a: nat, j: nat, k: nat)
    ensures Shl(Shl(a, j), k) == Shl(a, j + k)
    decreases k
  {
    if k > 0 {
      ShlShl(a, j, k - 1);
    }
  }

  lemma {:induction false} ShlOnes(j: nat, k: nat)
    ensures Shl(Pow2(j) - 1, k) == Pow2(j + k) - Pow2(k)
    decreases k
  {
    if k > 0 {
      ShlOnes(j, k - 1);
    }
  }

  /** Shifting right drops the low bits and moves the high ones. */
  lemma {:induction false} ShrSplit(a: nat, r: nat, j: nat, k: nat)
    requires r < Pow2(j + k)
    ensures Shr(Shl(a, j + k) + r, j) == Shl(a, k) + Shr(r, j) && Shr(r, j) < Pow2(k)
    decreases j
  {
    hide Pow2, Shl, Shr;
    Unshifted(r);
    Unshifted(Shl(a, k) + r);
    if j > 0 {
      Pow2Step(j + k);
      ShlStep(a, j + k);
      ShrStep(r, j);
      ShrStep(Shl(a, j + k) + r, j);
      ShrSplit(a, r / 2, j - 1, k);
    }
  }

  lemma {:induction false} ShrRemainder(r: nat, k: nat)
    ensures Shl(Shr(r, k), k) <= r < Shl(Shr(r, k), k) + Pow2(k)
    decreases k
  {
    if k > 0 {
      ShrRemainder(r / 2, k - 1);
    }
  }

  // pow2gt

  /** A step of the cascade: the bits of a number, or-ed with the same bits moved down. */
  function Smear(x: nat, k: nat): nat {
    Or(x, Shr(x, k))
  }

  /** cJSON's pow2gt. */
  function Pow2gt(x: int): int
    requires x >= 1
  {
    var a := x - 1;
    var b := Smear(a, 1);
    var c := Smear(b, 2);
    var d := Smear(c, 4);
    var e := Smear(d, 8);
    var f := Smear(e, 16);
    f + 1
  }

  /** `x` has `m` bits, and its top `j` bits are all ones. */
  predicate TopOnes(x: nat, m: nat, j: nat)
    requires j <= m
  {
    Pow2(m) - Pow2(m - j) <= x < Pow2(m)
  }

  lemma {:induction false} Pow2Monotone(a: nat, b: nat)
    requires a <= b
    ensures Pow2(a) <= Pow2(b) && (a < b ==> 2 * Pow2(a) <= Pow2(b))
    decreases b
  {
    if a < b {
      Pow2Monotone(a, b - 1);
    }
  }

  /** When half or more of the bits are ones, one more turn sets the rest. */
  lemma SmearRest(x: nat, m: nat, j: nat)
    requires j <= m <= 2 * j && TopOnes(x, m, j)
    ensures Smear(x, j) == Pow2(m) - 1
  {
    hide Or, Shr, Shl;
    var d := m - j;
    var r := x - (Pow2(m) - Pow2(d));
    ShlOnes(j, d);
    Pow2Monotone(d, j);
    ShrOnes(x, d, j);
    OrSplit(Pow2(j) - 1, 0, r, Pow2(d) - 1, d);
    ShlZero(d);
    OrZero(Pow2(j) - 1);
    OrOnes(r, d);
  }

  lemma {:induction false} ShlZero(k: nat)
    ensures Shl(0, k) == 0
  {
    if k > 0 {
      ShlZero(k - 1);
    }
  }

  lemma {:induction false} ShrOnes(x: nat, d: nat, j: nat)
    requires d <= j && Pow2(d + j) - Pow2(j) <= x < Pow2(d + j)
    ensures Shr(x, j) == Pow2(d) - 1
  {
    ShlOnes(d, j);
    ShrSplit(Pow2(d) - 1, x - (Pow2(d + j) - Pow2(j)), j, 0);
    assert Pow2(0) == 1;
  }

  /** Otherwise one turn doubles the number of leading ones. */
  lemma SmearMore(x: nat, m: nat, j: nat)
    requires 2 * j < m && TopOnes(x, m, j)
    ensures TopOnes(Smear(x, j), m, 2 * j)
  {
    hide Or, Shr, Shl;
    var ones, e := Pow2(j) - 1, m - 2 * j;
    var r := x - (Pow2(m) - Pow2(m - j));
    ShlOnes(j, m - j);
    ShrSplit(ones, r, j, e);
    var t := Shr(r, e);
    ShrRemainder(r, e);
    ShrSplit(0, r, e, j);
    var low := r - Shl(t, e);
    ShlShl(ones, j, e);
    ShlAdd(Shl(ones, j), t, e);
    OrSplit(Shl(ones, j) + t, ones, low, Shr(r, j), e);
    OrSplit(ones, 0, t, ones, j);
    ShlZero(j);
    OrZero(ones);
    OrOnes(t, j);
    ShlOnes(j, j);
    ShlOnes(2 * j, e);
    OrBelow(low, Shr(r, j), e);
  }

  /** One turn of the cascade, for any number of bits. */
  lemma SmearStep(x: nat, m: nat, j: nat, top: nat)
    requires 1 <= j && top == (if j <= m then j else m) && TopOnes(x, m, top)
    ensures TopOnes(Smear(x, j), m, if 2 * j <= m then 2 * j else m)
  {
    if j > m {
      SmearRest(x, m, m);
      ShrAll(x, m, j);
      OrZero(x);
      assert x == Pow2(m) - 1 by { assert Pow2(0) == 1; }
    } else if m <= 2 * j {
      SmearRest(x, m, j);
      assert Pow2(0) == 1;
      Pow2Monotone(0, m - j);
    } else {
      SmearMore(x, m, j);
    }
  }

  lemma {:induction false} ShrAll(x: nat, m: nat, j: nat)
    requires x < Pow2(m) && m <= j
    ensures Shr(x, j) == 0
    decreases j
  {
    if j > 0 {
      ShrAll(x / 2, if m == 0 then 0 else m - 1, j - 1);
    }
  }

  lemma {:induction false} BitLength(x: nat) returns (m: nat)
    ensures x < Pow2(m) && (x > 0 ==> m > 0 && Pow2(m - 1) <= x) && (x == 0 ==> m == 0)
  {
    if x == 0 {
      m := 0;
    } else {
      var n := BitLength(x / 2);
      m := n + 1;
    }
  }

  ghost predicate IsPowerOfTwo(p: int) {
    exists k: nat :: p == Pow2(k)
  }

  /** Up to 2^32 the five turns fill every bit. */
  lemma Pow2gtLength(x: int) returns (m: nat)
    requires 1 <= x <= 0x1_0000_0000
    ensures Pow2gt(x) == Pow2(m) && x <= Pow2(m) && (x > 1 ==> m > 0 && Pow2(m - 1) < x) && (x == 1 ==> m == 0)
  {
    hide Smear, TopOnes;
    var a := x - 1;
    m := BitLength(a);
    if m == 0 {
      SmearNothing();
    } else {
      AtMost32(a, m);
      Cascade(a, m);
    }
  }

  lemma SmearNothing()
    ensures Pow2gt(1) == 1 && Pow2(0) == 1
  {
  }

  lemma AtMost32(a: nat, m: nat)
    requires a < 0x1_0000_0000 && m > 0 && Pow2(m - 1) <= a
    ensures m <= 32
  {
    hide Pow2;
    assert Pow2(32) == 0x1_0000_0000 by {
      Pow2Of8();
      Pow2Add(8, 8);
      Pow2Add(16, 16);
    }
    if m > 32 {
      Pow2Monotone(32, m - 1);
    }
  }

  lemma Pow2Of8()
    ensures Pow2(8) == 0x100
  {
    assert Pow2(4) == 16;
  }

  /** The five turns of the cascade set every bit of a number of up to 32 bits. */
  lemma Cascade(a: nat, m: nat)
    requires 0 < m <= 32 && Pow2(m - 1) <= a < Pow2(m)
    ensures Pow2gt(a + 1) == Pow2(m)
  {
    hide Smear, TopOnes, Pow2;
    OneBit(a, m);
    var b := Smear(a, 1);
    SmearStep(a, m, 1, 1);
    var c := Smear(b, 2);
    SmearStep(b, m, 2, if 2 <= m then 2 else m);
    var d := Smear(c, 4);
    SmearStep(c, m, 4, if 4 <= m then 4 else m);
    var e := Smear(d, 8);
    SmearStep(d, m, 8, if 8 <= m then 8 else m);
    SmearStep(e, m, 16, if 16 <= m then 16 else m);
    AllOnes(Smear(e, 16), m);
  }

  lemma OneBit(a: nat, m: nat)
    requires 0 < m && Pow2(m - 1) <= a < Pow2(m)
    ensures TopOnes(a, m, 1)
  {
  }

  lemma AllOnes(x: nat, m: nat)
    requires TopOnes(x, m, m)
    ensures x == Pow2(m) - 1
  {
    assert Pow2(0) == 1;
  }

  /** pow2gt(x) is the least power of two that is at least x. */
  lemma Pow2gtLeast(x: int)
    requires 1 <= x <= 0x1_0000_0000
    ensures IsPowerOfTwo(Pow2gt(x)) && Pow2gt(x) >= x
    ensures forall q :: IsPowerOfTwo(q) && q >= x ==> Pow2gt(x) <= q
  {
    hide Pow2gt, Pow2;
    var m := Pow2gtLength(x);
    forall q | IsPowerOfTwo(q) && q >= x
      ensures Pow2gt(x) <= q
    {
      var k: nat :| q == Pow2(k);
      if k < m {
        Pow2Monotone(k, m - 1);
      } else {
        Pow2Monotone(m, k);
      }
    }
  }

  /** Powers of two that differ are at least a factor of two apart. */
  lemma PowersApart(p: int, q: int)
    requires IsPowerOfTwo(p) && IsPowerOfTwo(q) && p < q
    ensures 2 * p <= q
  {
    var j: nat :| p == Pow2(j);
    var k: nat :| q == Pow2(k);
    if k <= j {
      Pow2Monotone(k, j);
    } else {
      Pow2Monotone(j, k);
    }
  }
}
