/** Integers and floats as the struct library lays them out in bytes. */
module StructInteger {
  import opened Bytes

  datatype Endian = Big | Little

  /** The byte order of the host. */
  const NATIVE: Endian := Little

  function Pow256(k: nat): (p: nat)
    ensures p > 0
  {
    if k == 0 then 1 else 256 * Pow256(k - 1)
  }

  /** The `k` low bytes of `x`, least significant first. */
  function ToLittle(x: nat, k: nat): (s: seq<Byte>)
    ensures |s| == k
  {
    if k == 0 then [] else [x % 256] + ToLittle(x / 256, k - 1)
  }

  function FromLittle(s: seq<Byte>): nat {
    if s == [] then 0 else s[0] + 256 * FromLittle(s[1..])
  }

  function Reverse<T>(s: seq<T>): (r: seq<T>)
    ensures |r| == |s| && forall i :: 0 <= i < |s| ==> r[i] == s[|s| - 1 - i]
  {
    seq(|s|, i requires 0 <= i < |s| => s[|s| - 1 - i])
  }

  lemma ReverseTwice<T>(s: seq<T>)
    ensures Reverse(Reverse(s)) == s
  {
  }

  function Ordered(s: seq<Byte>, endian: Endian): (r: seq<Byte>)
    ensures |r| == |s|
  {
    if endian == Little then s else Reverse(s)
  }

  /** The unsigned long that stands for a number, negative ones in two's complement. */
  function ToUnsigned(n: int): nat {
    n % 0x1_0000_0000_0000_0000
  }

  function ToSigned(l: nat): int
    requires l < 0x1_0000_0000_0000_0000
  {
    if l < 0x8000_0000_0000_0000 then l else l - 0x1_0000_0000_0000_0000
  }

  function PutInteger(n: int, endian: Endian, size: nat): (s: seq<Byte>)
    ensures |s| == size
  {
    Ordered(ToLittle(ToUnsigned(n), size), endian)
  }

  /** Reads the bytes into an unsigned long, and extends the sign of the signed formats by or-ing ones above it. */
  function GetInteger(s: seq<Byte>, endian: Endian, signed: bool): int {
    SignExtend(FromLittle(Ordered(s, endian)) % 0x1_0000_0000_0000_0000, signed, |s|)
  }

  /** The number of which the sign bit of the format is the top bit. */
  function SignBit(size: nat): (b: nat)
    requires size >= 1
    ensures Pow256(size) == 2 * b
  {
    128 * Pow256(size - 1)
  }

  /** A number with its sign bit set gets all the bits above it set as well. */
  function SignExtend(l: nat, signed: bool, size: nat): int
    requires l < 0x1_0000_0000_0000_0000
  {
    if signed && 1 <= size <= 8 && SignBit(size) <= l < Pow256(size) then
      ToSigned((l + 0x1_0000_0000_0000_0000 - Pow256(size)) % 0x1_0000_0000_0000_0000)
    else if signed then ToSigned(l)
    else l
  }

  /** What an integer format of `size` bytes can hold. */
  predicate InRange(n: int, signed: bool, size: nat)
    requires size >= 1
  {
    if signed then 0 - (SignBit(size) as int) <= n < SignBit(size) else 0 <= n < Pow256(size)
  }

  // ----- Round trip

  lemma {:induction false} FromToLittle(x: nat, k: nat)
    requires x < Pow256(k)
    ensures FromLittle(ToLittle(x, k)) == x
  {
    if k == 0 {
    } else {
      FromToLittle(x / 256, k - 1);
      assert ToLittle(x, k)[1..] == ToLittle(x / 256, k - 1);
    }
  }

  /** Only the low bytes of the long are stored. */
  lemma {:induction false} ToLittleLow(x: nat, y: nat, k: nat, q: nat)
    requires x == y + q * Pow256(k)
    ensures ToLittle(x, k) == ToLittle(y, k)
  {
    if k == 0 {
    } else {
      var p := Pow256(k - 1);
      assert x == y + 256 * (q * p);
      ToLittleLow(x / 256, y / 256, k - 1, q);
    }
  }

  lemma PowersOf256()
    ensures Pow256(1) == 0x100 && Pow256(2) == 0x1_0000 && Pow256(3) == 0x100_0000 && Pow256(4) == 0x1_0000_0000
    ensures Pow256(5) == 0x100_0000_0000 && Pow256(6) == 0x1_0000_0000_0000
    ensures Pow256(7) == 0x100_0000_0000_0000 && Pow256(8) == 0x1_0000_0000_0000_0000
  {
  }

  /** The low bytes of a number in range: the number itself, or its two's complement. */
  function LowPart(n: int, size: nat): int {
    if n < 0 then n + Pow256(size) else n
  }

  lemma ToUnsignedLow(n: int, signed: bool, size: nat) returns (q: nat)
    requires 1 <= size <= 8 && InRange(n, signed, size)
    ensures 0 <= LowPart(n, size) < Pow256(size)
    ensures ToUnsigned(n) == LowPart(n, size) + q * Pow256(size)
  {
    PowersOf256();
    if n >= 0 {
      q := 0;
    } else {
      q := Pow256(8 - size) - 1;
      assert q * Pow256(size) == 0x1_0000_0000_0000_0000 - Pow256(size);
    }
  }

  lemma SignExtendLow(n: int, signed: bool, size: nat)
    requires 1 <= size <= 8 && InRange(n, signed, size)
    ensures 0 <= LowPart(n, size) < Pow256(size) <= 0x1_0000_0000_0000_0000
    ensures SignExtend(LowPart(n, size), signed, size) == n
  {
    PowersOf256();
  }

  lemma OrderedTwice(s: seq<Byte>, endian: Endian)
    ensures Ordered(Ordered(s, endian), endian) == s
  {
    ReverseTwice(s);
  }

  lemma LongIsItself(l: nat)
    requires l < 0x1_0000_0000_0000_0000
    ensures l % 0x1_0000_0000_0000_0000 == l
  {
  }

  lemma GetSmall(t: seq<Byte>, endian: Endian, signed: bool, low: nat)
    requires FromLittle(Ordered(t, endian)) == low < 0x1_0000_0000_0000_0000
    ensures GetInteger(t, endian, signed) == SignExtend(low, signed, |t|)
  {
    LongIsItself(low);
  }

  /** Every number in range comes back from its bytes, under both byte orders. */
  lemma IntegerRoundTrip(n: int, endian: Endian, signed: bool, size: nat)
    requires 1 <= size <= 8 && InRange(n, signed, size)
    ensures GetInteger(PutInteger(n, endian, size), endian, signed) == n
  {
    LowBytesRoundTrip(n, signed, size);
    OrderedTwice(ToLittle(ToUnsigned(n), size), endian);
    SignExtendLow(n, signed, size);
    GetSmall(PutInteger(n, endian, size), endian, signed, LowPart(n, size));
  }

  lemma LowBytesRoundTrip(n: int, signed: bool, size: nat)
    requires 1 <= size <= 8 && InRange(n, signed, size)
    ensures FromLittle(ToLittle(ToUnsigned(n), size)) == LowPart(n, size)
  {
    var q := ToUnsignedLow(n, signed, size);
    ToLittleLow(ToUnsigned(n), LowPart(n, size), size, q);
    FromToLittle(LowPart(n, size), size);
  }

  lemma {:induction false} FromLittleBound(s: seq<Byte>)
    ensures FromLittle(s) < Pow256(|s|)
  {
    if s == [] {
    } else {
      FromLittleBound(s[1..]);
    }
  }

  lemma SignExtendBound(l: nat, signed: bool, size: nat)
    requires 1 <= size <= 8 && l < Pow256(size) <= 0x1_0000_0000_0000_0000
    ensures InRange(SignExtend(l, signed, size), signed, size)
  {
    if signed && SignBit(size) <= l {
      LongIsItself(l + 0x1_0000_0000_0000_0000 - Pow256(size));
    }
  }

  /** Whatever the bytes, the number read is in the range of the format; so no other number comes back. */
  lemma IntegerRoundTripIff(n: int, endian: Endian, signed: bool, size: nat)
    requires 1 <= size <= 8
    ensures GetInteger(PutInteger(n, endian, size), endian, signed) == n <==> InRange(n, signed, size)
  {
    if InRange(n, signed, size) {
      IntegerRoundTrip(n, endian, signed, size);
    } else {
      var t := PutInteger(n, endian, size);
      var low := FromLittle(Ordered(t, endian));
      FromLittleBound(Ordered(t, endian));
      PowersOf256();
      GetSmall(t, endian, signed, low);
      SignExtendBound(low, signed, size);
    }
  }

  // ----- The loops

  method PutIntegerBytes(n: int, endian: Endian, size: nat) returns (buff: array<Byte>)
    ensures fresh(buff) && buff[..] == PutInteger(n, endian, size)
  {
    buff := new Byte[size](_ => 0);
    var value := ToUnsigned(n);
    if endian == Little {
      PutUpwards(value, buff);
    } else {
      PutDownwards(value, buff);
      ReverseTwice(buff[..]);
    }
  }

  method PutUpwards(value0: nat, buff: array<Byte>)
    modifies buff
    ensures buff[..] == ToLittle(value0, buff.Length)
  {
    var value, i := value0, 0;
    while i < buff.Length
      invariant i <= buff.Length && buff[..i] + ToLittle(value, buff.Length - i) == ToLittle(value0, buff.Length)
    {
      buff[i] := value % 256;
      assert buff[..i + 1] + ToLittle(value / 256, buff.Length - i - 1) == buff[..i] + ToLittle(value, buff.Length - i);
      value := value / 256;
      i := i + 1;
    }
    assert buff[..] == buff[..i] + ToLittle(value, 0);
  }

  method PutDownwards(value0: nat, buff: array<Byte>)
    modifies buff
    ensures Reverse(buff[..]) == ToLittle(value0, buff.Length)
  {
    var value, i := value0, buff.Length - 1;
    while i >= 0
      invariant -1 <= i < buff.Length
      invariant Reverse(buff[i + 1..]) + ToLittle(value, i + 1) == ToLittle(value0, buff.Length)
    {
      ghost var done := buff[i + 1..];
      buff[i] := value % 256;
      assert buff[i..] == [buff[i]] + done;
      assert Reverse(buff[i..]) == Reverse(done) + [buff[i]];
      assert Reverse(done) + [buff[i]] + ToLittle(value / 256, i) == Reverse(done) + ToLittle(value, i + 1);
      value := value / 256;
      i := i - 1;
    }
    assert buff[0..] == buff[..];
    assert Reverse(buff[..]) + ToLittle(value, 0) == Reverse(buff[..]);
  }

  lemma {:induction false} FromLittleAppend(s: seq<Byte>, b: Byte)
    ensures FromLittle([b] + s) == b + 256 * FromLittle(s)
  {
    assert ([b] + s)[1..] == s;
  }

  lemma ShiftIn(x: nat, b: Byte)
    ensures (x % 0x1_0000_0000_0000_0000 * 256 + b) % 0x1_0000_0000_0000_0000 == (b + 256 * x) % 0x1_0000_0000_0000_0000
  {
    var q := x / 0x1_0000_0000_0000_0000;
    assert x == q * 0x1_0000_0000_0000_0000 + x % 0x1_0000_0000_0000_0000;
  }

  method ReadInteger(buff: seq<Byte>, endian: Endian, signed: bool) returns (n: int)
    ensures n == GetInteger(buff, endian, signed)
  {
    var size := |buff|;
    var l: nat := 0;
    if endian == Big {
      var i := 0;
      while i < size
        invariant i <= size && l == FromLittle(Reverse(buff[..i])) % 0x1_0000_0000_0000_0000
      {
        assert Reverse(buff[..i + 1]) == [buff[i]] + Reverse(buff[..i]);
        FromLittleAppend(Reverse(buff[..i]), buff[i]);
        ShiftIn(FromLittle(Reverse(buff[..i])), buff[i]);
        l := (l * 256 + buff[i]) % 0x1_0000_0000_0000_0000;
        i := i + 1;
      }
      assert buff[..i] == buff;
    } else {
      var i := size - 1;
      while i >= 0
        invariant -1 <= i < size && l == FromLittle(buff[i + 1..]) % 0x1_0000_0000_0000_0000
      {
        assert buff[i..] == [buff[i]] + buff[i + 1..];
        FromLittleAppend(buff[i + 1..], buff[i]);
        ShiftIn(FromLittle(buff[i + 1..]), buff[i]);
        l := (l * 256 + buff[i]) % 0x1_0000_0000_0000_0000;
        i := i - 1;
      }
      assert buff[0..] == buff;
    }
    n := SignExtend(l, signed, size);
  }

  /** Reverses the bytes of a float in place, unless the format's order is the host's. */
  method CorrectBytes(b: array<Byte>, endian: Endian)
    modifies b
    ensures b[..] == Ordered(old(b[..]), endian)
  {
    if endian != NATIVE {
      ghost var s := b[..];
      var i, size := 0, b.Length - 1;
      while i < size
        invariant 0 <= i && i + size == b.Length - 1 && i <= size + 1
        invariant forall k :: 0 <= k < i || size < k < b.Length ==> b[k] == s[b.Length - 1 - k]
        invariant forall k :: i <= k <= size ==> b[k] == s[k]
      {
        var temp := b[i];
        b[i] := b[size];
        b[size] := temp;
        i := i + 1;
        size := size - 1;
      }
      assert forall k :: 0 <= k < b.Length ==> b[k] == s[b.Length - 1 - k];
    }
  }
}
