/** Bytes, their exclusive or, and integers in big-endian and little-endian byte order. */
module Bytes {
  import opened Basics

  type Byte = b: int | 0 <= b < 256

  /** Exclusive or of two numbers of `k` bits, bit by bit. */
  function XorBits(a: nat, b: nat, k: nat): (r: nat)
    requires a < Pow2(k) && b < Pow2(k)
    ensures r < Pow2(k)
  {
    if k == 0 then 0 else (if a % 2 == b % 2 then 0 else 1) + 2 * XorBits(a / 2, b / 2, k - 1)
  }

  lemma {:induction false} XorBitsTwice(a: nat, b: nat, k: nat)
    requires a < Pow2(k) && b < Pow2(k)
    ensures XorBits(XorBits(a, b, k), b, k) == a
  {
    if k == 0 {
    } else {
      XorBitsTwice(a / 2, b / 2, k - 1);
    }
  }

  lemma Pow2Of8()
    ensures Pow2(8) == 256
  {
    assert Pow2(4) == 16;
    assert Pow2(6) == 64;
  }

  /** Whether the `k`-th bit is set, the least significant one being number 0. */
  predicate HasBit(a: nat, k: nat) {
    a / Pow2(k) % 2 == 1
  }

  lemma HalfAndPower(a: nat, p: nat, rest: nat)
    requires p > 0 && rest == a / 2
    ensures a / (2 * p) == rest / p
  {
    var q, r := rest / p, rest % p;
    assert rest == q * p + r;
    assert a == q * (2 * p) + (2 * r + a % 2);
    DivisionIsUnique(a, 2 * p, q, 2 * r + a % 2);
  }

  lemma NextBit(a: nat, k: nat, rest: nat)
    requires k > 0 && rest == a / 2
    ensures HasBit(a, k) <==> HasBit(rest, k - 1)
  {
    HalfAndPower(a, Pow2(k - 1), rest);
  }

  /** A bit of the exclusive or is set exactly when the bits of the two numbers differ. */
  lemma {:induction false} XorBitsBit(a: nat, b: nat, width: nat, k: nat)
    requires a < Pow2(width) && b < Pow2(width) && k < width
    ensures HasBit(XorBits(a, b, width), k) <==> HasBit(a, k) != HasBit(b, k)
  {
    var r, rest := XorBits(a, b, width), XorBits(a / 2, b / 2, width - 1);
    assert r / 2 == rest;
    if k == 0 {
    } else {
      NextBit(a, k, a / 2);
      NextBit(b, k, b / 2);
      NextBit(r, k, rest);
      XorBitsBit(a / 2, b / 2, width - 1, k - 1);
    }
  }

  function Xor(a: Byte, b: Byte): Byte {
    Pow2Of8();
    XorBits(a, b, 8)
  }

  lemma XorBit(a: Byte, b: Byte, k: nat)
    requires k < 8
    ensures HasBit(Xor(a, b), k) <==> HasBit(a, k) != HasBit(b, k)
  {
    Pow2Of8();
    XorBitsBit(a, b, 8, k);
  }

  lemma {:induction false} SameBits(a: nat, b: nat, width: nat)
    requires a < Pow2(width) && b < Pow2(width) && forall k: nat :: k < width ==> (HasBit(a, k) <==> HasBit(b, k))
    ensures a == b
  {
    if width == 0 {
    } else {
      assert HasBit(a, 0) <==> HasBit(b, 0);
      forall k: nat | k < width - 1 ensures HasBit(a / 2, k) <==> HasBit(b / 2, k) {
        NextBit(a, k + 1, a / 2);
        NextBit(b, k + 1, b / 2);
      }
      SameBits(a / 2, b / 2, width - 1);
    }
  }

  /** A zero byte masks nothing. */
  lemma XorZero(a: Byte)
    ensures Xor(a, 0) == a
  {
    Pow2Of8();
    forall k: nat | k < 8 ensures HasBit(Xor(a, 0), k) <==> HasBit(a, k) {
      XorBit(a, 0, k);
      DivisionIsUnique(0, Pow2(k), 0, 0);
    }
    SameBits(Xor(a, 0), a, 8);
  }

  /** Masking twice with the same byte changes nothing. */
  lemma XorTwice(a: Byte, b: Byte)
    ensures Xor(Xor(a, b), b) == a
  {
    Pow2Of8();
    XorBitsTwice(a, b, 8);
  }

  /** The `i`-th byte of `x`, the least significant one being number 0. */
  function ByteOf(x: nat, i: nat): Byte {
    if i == 0 then x % 256 else ByteOf(x / 256, i - 1)
  }

  function Zeros(n: nat): (s: seq<Byte>)
    ensures |s| == n && forall i :: 0 <= i < n ==> s[i] == 0
  {
    seq(n, _ => 0)
  }

  /** A C int made from a number that may not fit it. */
  function WrapInt(x: int): int {
    (x + 0x8000_0000) % 0x1_0000_0000 - 0x8000_0000
  }
}
