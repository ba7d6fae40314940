/** The bit arithmetic that aligns the elements of a struct. */
module StructAlign {
  import opened Basics

  function And(a: nat, b: nat): nat {
    if a == 0 || b == 0 then 0 else (if a % 2 == 1 && b % 2 == 1 then 1 else 0) + 2 * And(a / 2, b / 2)
  }

  predicate IsPowerOf2(x: int) {
    x > 0 && And(x, x - 1) == 0
  }

  /** Padding before an element of `size` bytes at position `len`, for a given maximum alignment. */
  function ToAlign(len: nat, align: nat, size: nat): (pad: nat)
    requires align >= 1
  {
    if size == 0 then 0
    else
      var s := if size > align then align else size;
      AndBound(len, s - 1);
      And(s - And(len, s - 1), s - 1)
  }

  lemma {:induction false} AndBound(a: nat, b: nat)
    ensures And(a, b) <= a && And(a, b) <= b
  {
    if a != 0 && b != 0 {
      AndBound(a / 2, b / 2);
    }
  }

  lemma {:induction false} AndSame(a: nat)
    ensures And(a, a) == a
  {
    if a == 0 {
    } else {
      AndSame(a / 2);
    }
  }

  lemma EvenPowerOf2(x: nat)
    requires IsPowerOf2(x) && x != 1
    ensures x % 2 == 0
  {
    if x % 2 == 1 {
      assert (x - 1) / 2 == x / 2;
      AndSame(x / 2);
    }
  }

  /** The test of the `!` option accepts exactly the powers of two. */
  lemma {:induction false} PowerOf2Exponent(x: nat) returns (k: nat)
    requires IsPowerOf2(x)
    ensures x == Pow2(k)
  {
    if x == 1 {
      k := 0;
    } else {
      EvenPowerOf2(x);
      assert (x - 1) / 2 == x / 2 - 1;
      assert And(x, x - 1) == 2 * And(x / 2, x / 2 - 1);
      k := PowerOf2Exponent(x / 2);
      k := k + 1;
    }
  }

  lemma {:induction false} Pow2IsPowerOf2(k: nat)
    ensures IsPowerOf2(Pow2(k))
  {
    if k == 0 {
    } else {
      Pow2IsPowerOf2(k - 1);
      var p := Pow2(k - 1);
      assert (2 * p - 1) / 2 == p - 1;
    }
  }

  lemma ModDouble(a: nat, p: nat)
    requires p > 0
    ensures a % (2 * p) == a % 2 + 2 * (a / 2 % p)
  {
    var q, r := a / 2 / p, a / 2 % p;
    assert a / 2 == q * p + r;
    assert a == q * (2 * p) + (a % 2 + 2 * r);
    DivisionIsUnique(a, 2 * p, q, a % 2 + 2 * r);
  }

  lemma MaskStep(a: nat, p: nat)
    requires p > 0
    ensures And(a, 2 * p - 1) == if a == 0 then 0 else a % 2 + 2 * And(a / 2, p - 1)
  {
    assert (2 * p - 1) / 2 == p - 1 && (2 * p - 1) % 2 == 1;
  }

  /** Masking with a power of two less one is taking the remainder. */
  lemma {:induction false} AndLowBits(a: nat, k: nat)
    ensures And(a, Pow2(k) - 1) == a % Pow2(k)
  {
    if a == 0 {
      DivisionIsUnique(0, Pow2(k), 0, 0);
    } else if k > 0 {
      MaskStep(a, Pow2(k - 1));
      AndLowBits(a / 2, k - 1);
      ModDouble(a, Pow2(k - 1));
    }
  }

  /** The masked difference is the distance to the next multiple. */
  lemma MaskedDistance(len: nat, s: nat)
    requires IsPowerOf2(s)
    ensures And(len, s - 1) == len % s
    ensures And(s - len % s, s - 1) == if len % s == 0 then 0 else s - len % s
  {
    var k := PowerOf2Exponent(s);
    var r := len % s;
    AndLowBits(len, k);
    AndLowBits(s - r, k);
    if r == 0 {
      DivisionIsUnique(s, s, 1, 0);
    } else {
      DivisionIsUnique(s - r, s, 0, s - r);
    }
  }

  lemma NextMultiple(len: nat, s: nat)
    requires s > 0 && len % s != 0
    ensures (len + (s - len % s)) % s == 0
  {
    var q, r := len / s, len % s;
    assert len == q * s + r;
    assert len + (s - r) == (q + 1) * s + 0 by { assert (q + 1) * s == q * s + s; }
    DivisionIsUnique(len + (s - r), s, q + 1, 0);
  }

  /** For power-of-two sizes the padding is the least one that reaches a multiple of the alignment. */
  lemma ToAlignIsLeast(len: nat, align: nat, size: nat)
    requires IsPowerOf2(align) && IsPowerOf2(size)
    ensures
      var s, pad := if size > align then align else size, ToAlign(len, align, size);
      (len + pad) % s == 0 && pad < s
  {
    var s := if size > align then align else size;
    MaskedDistance(len, s);
    if len % s != 0 {
      NextMultiple(len, s);
    }
  }

  // ----- When the padding aligns

  /** The alignment of an element: its size, or the maximum alignment if that is less. */
  function Unit(align: nat, size: nat): nat {
    if size > align then align else size
  }

  /** `pad` is the least padding that leads from `len` to a multiple of `s`. */
  predicate Reaches(len: nat, pad: nat, s: nat) {
    pad < s && (len + pad) % s == 0
  }

  lemma ReachesOnce(len: nat, s: nat, a: nat, b: nat)
    requires Reaches(len, a, s) && Reaches(len, b, s)
    ensures a == b
  {
    var q, r := (len + a) / s, (len + b) / s;
    assert len + a == q * s && len + b == r * s;
    assert a - b == (q - r) * s;
    MultipleIsFar(q - r, s);
    MultipleIsFar(r - q, s);
    assert (r - q) * s == 0 - (q - r) * s;
  }

  /** Where the alignment is a power of two, the padding is the least that reaches a multiple of it, and no other is. */
  lemma PaddingIs(len: nat, align: nat, size: nat, s: nat, pad: nat)
    requires align >= 1 && size >= 1 && s == Unit(align, size) && IsPowerOf2(s)
    ensures ToAlign(len, align, size) == pad <==> Reaches(len, pad, s)
  {
    MaskedDistance(len, s);
    if len % s != 0 {
      NextMultiple(len, s);
    }
    var p := ToAlign(len, align, size);
    assert Reaches(len, p, s);
    if Reaches(len, pad, s) {
      ReachesOnce(len, s, p, pad);
    }
  }

  /** A power of two has no bit in common with a smaller number. */
  lemma {:induction false} AndHighBit(k: nat, b: nat)
    requires b < Pow2(k)
    ensures And(Pow2(k), b) == 0
  {
    if k == 0 || b == 0 {
    } else {
      assert Pow2(k) / 2 == Pow2(k - 1);
      AndHighBit(k - 1, b / 2);
    }
  }

  lemma {:induction false} PowerBeyond(b: nat) returns (k: nat)
    ensures b < Pow2(k)
  {
    if b == 0 {
      k := 0;
    } else {
      k := PowerBeyond(b / 2);
      k := k + 1;
    }
  }

  lemma OddTimesOdd(m: nat, q: nat)
    requires m % 2 == 1 && q % 2 == 1
    ensures m * q % 2 == 1
  {
    var a, b := m / 2, q / 2;
    assert m * q == 2 * (a * q + b) + 1;
  }

  lemma DoubleFactor(h: nat, q: nat, m: nat)
    requires m == 2 * h
    ensures m * q == 2 * (h * q) == q * m && q * m == 2 * (q * h)
  {
  }

  lemma FactorOfOne(m: nat, q: nat)
    requires m * q == 1
    ensures m == 1
  {
    if q >= 1 {
      MultipleIsFar(q, m);
    }
  }

  lemma DoublePower(x: nat)
    requires IsPowerOf2(x)
    ensures IsPowerOf2(2 * x)
  {
    var k := PowerOf2Exponent(x);
    Pow2IsPowerOf2(k + 1);
  }

  /** A divisor of a power of two is one. */
  lemma {:induction false} DivisorOfPower(k: nat, m: nat, q: nat)
    requires m * q == Pow2(k)
    ensures IsPowerOf2(m)
    decreases k
  {
    if k == 0 {
      FactorOfOne(m, q);
    } else if m % 2 == 0 {
      DoubleFactor(m / 2, q, m);
      DivisorOfPower(k - 1, m / 2, q);
      DoublePower(m / 2);
    } else {
      if q % 2 == 1 {
        OddTimesOdd(m, q);
      }
      DoubleFactor(q / 2, m, q);
      DivisorOfPower(k - 1, m, q / 2);
    }
  }

  /**
   * The padding before elements of a size reaches a multiple of their alignment at every position exactly when that
   * alignment is a power of two.
   */
  lemma AlignsIff(align: nat, size: nat, s: nat)
    requires align >= 1 && size >= 1 && s == Unit(align, size)
    ensures (forall len: nat :: Reaches(len, ToAlign(len, align, size), s)) <==> IsPowerOf2(s)
  {
    if IsPowerOf2(s) {
      forall len: nat ensures Reaches(len, ToAlign(len, align, size), s) {
        PaddingIs(len, align, size, s, ToAlign(len, align, size));
      }
    }
    if forall len: nat :: Reaches(len, ToAlign(len, align, size), s) {
      var k := PowerBeyond(s - 1);
      AndHighBit(k, s - 1);
      var pad := ToAlign(0, align, size);
      assert ToAlign(Pow2(k), align, size) == pad;
      assert Reaches(0, pad, s) && Reaches(Pow2(k), pad, s);
      PeriodDivides(k, pad, s);
    }
  }

  lemma PeriodDivides(k: nat, pad: nat, s: nat)
    requires Reaches(0, pad, s) && Reaches(Pow2(k), pad, s)
    ensures IsPowerOf2(s)
  {
    Division(pad, s);
    assert pad == 0 by { DivisionIsUnique(pad, s, 0, pad); }
    DivisorOfPower(k, s, Pow2(k) / s);
  }
}
