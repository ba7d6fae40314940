/** Where the struct library puts each item, and which byte of a number comes first, said without its own notions. */
module StructLayout {
  import opened Basics
  import opened Bytes
  import opened StructInteger
  import opened StructPack
  import StructAlign

  // ----- Where an item begins

  /** The items that are aligned, with their sizes: numbers and padding bytes. */
  predicate IsAligned(item: Item, size: nat) {
    match item
    case Integer(_, n) => n == size
    case Real(n) => n == size
    case Pad => size == 1
    case _ => false
  }

  /** After `pad` zeros, an item of `size` bytes begins at the first multiple of its alignment, and ends at `next`. */
  predicate BeginsAligned(size: nat, align: nat, pos: nat, pad: nat, next: nat) {
    var unit := if size < align then size else align;
    pad < unit && (pos + pad) % unit == 0 && next == pos + pad + size
  }

  /** The size of an aligned item under the alignment `align` is one that the library can align. */
  predicate CanAlign(item: Item, size: nat, align: nat) {
    IsAligned(item, size) && size >= 1 && align >= 1 && StructAlign.IsPowerOf2(if size < align then size else align)
  }

  lemma PaddingOf(item: Item, h: Header, size: nat, pos: nat, pad: nat, next: nat)
    requires CanAlign(item, size, h.align) && BeginsAligned(size, h.align, pos, pad, next)
    ensures ItemPadding(item, h, pos) == pad && ItemSize(item) == size && HeaderAfter(item, h) == h
  {
    StructAlign.PaddingIs(pos, h.align, size, if size < h.align then size else h.align, pad);
  }

  /** There is always one such place, and only one. */
  lemma OneAlignedPlace(item: Item, size: nat, align: nat, pos: nat) returns (pad: nat, next: nat)
    requires CanAlign(item, size, align)
    ensures BeginsAligned(size, align, pos, pad, next)
    ensures forall p, n :: BeginsAligned(size, align, pos, p, n) ==> p == pad && n == next
  {
    var unit := if size < align then size else align;
    pad := StructAlign.ToAlign(pos, align, size);
    next := pos + pad + size;
    StructAlign.PaddingIs(pos, align, size, unit, pad);
    forall p, n | BeginsAligned(size, align, pos, p, n) ensures p == pad && n == next {
      StructAlign.ReachesOnce(pos, unit, p, pad);
    }
  }

  /** An aligned item is packed as zeros up to the next multiple of its alignment, then its own bytes. */
  lemma PackedAligned(item: Item, rest: Format, h: Header, pos: nat, args: seq<Value>, size: nat, pad: nat, next: nat)
    requires CanAlign(item, size, h.align) && BeginsAligned(size, h.align, pos, pad, next)
    requires PackItem(item, h, args).Packed?
    ensures
      var own := PackItem(item, h, args);
      && |own.bytes| == size && (item.Pad? ==> own == Packed([0], args))
      && PackFrom(Then(item, rest), h, pos, args) == Prepend(Zeros(pad) + own.bytes, PackFrom(rest, h, next, own.args))
  {
    PaddingOf(item, h, size, pos, pad, next);
    FixedItemSize(item, h, args);
  }

  /** It is read from the same place. */
  lemma UnpackedAligned(item: Item, rest: Format, h: Header, data: seq<Byte>, pos: nat, acc: seq<Value>, size: nat,
                        pad: nat, next: nat)
    requires CanAlign(item, size, h.align) && BeginsAligned(size, h.align, pos, pad, next)
    ensures UnpackFrom(Then(item, rest), h, data, pos, acc) ==
      if next > |data| then UnpackError(DataTooShort)
      else UnpackFrom(rest, h, data, next, if item.Pad? then acc else acc + [SliceValue(item, h, data[next - size..next])])
  {
    PaddingOf(item, h, size, pos, pad, next);
  }

  /** And its size is counted from there. */
  lemma SizedAligned(item: Item, rest: Format, h: Header, pos: nat, size: nat, pad: nat, next: nat)
    requires CanAlign(item, size, h.align) && BeginsAligned(size, h.align, pos, pad, next)
    ensures SizeFrom(Then(item, rest), h, pos) == SizeFrom(rest, h, next)
  {
    PaddingOf(item, h, size, pos, pad, next);
  }

  /** Strings, options without bytes and numbers of size 0. */
  predicate IsUnaligned(item: Item) {
    match item
    case Integer(_, n) => n == 0
    case Real(n) => n == 0
    case Pad => false
    case _ => true
  }

  lemma NoPaddingOf(item: Item, h: Header, pos: nat)
    requires IsUnaligned(item)
    ensures ItemPadding(item, h, pos) == 0
  {
  }

  /** They begin wherever the item before them ends. */
  lemma PackedUnaligned(item: Item, rest: Format, h: Header, pos: nat, args: seq<Value>, own: Packed, next: nat)
    requires IsUnaligned(item) && own == PackItem(item, h, args) && own.Packed? && next == pos + |own.bytes|
    ensures PackFrom(Then(item, rest), h, pos, args) ==
      Prepend(own.bytes, PackFrom(rest, HeaderAfter(item, h), next, own.args))
    ensures !TakesArgument(item) ==> own == Packed([], args)
  {
    NoPaddingOf(item, h, pos);
    assert Zeros(0) + own.bytes == own.bytes;
  }

  lemma SizedUnaligned(item: Item, rest: Format, h: Header, pos: nat, next: nat)
    requires IsUnaligned(item) && !item.ZString? && item != Chars(0)
    requires next == pos + if item.Chars? then item.count else 0
    ensures SizeFrom(Then(item, rest), h, pos) == SizeFrom(rest, HeaderAfter(item, h), next)
  {
    NoPaddingOf(item, h, pos);
  }

  lemma UnpackedUnaligned(item: Item, rest: Format, h: Header, data: seq<Byte>, pos: nat, acc: seq<Value>, size: nat)
    requires IsUnaligned(item) && size == if item.Chars? then item.count else 0
    ensures UnpackFrom(Then(item, rest), h, data, pos, acc) ==
      if pos + size > |data| then UnpackError(DataTooShort)
      else
        var u := UnpackItem(item, h, data, pos, acc);
        if u.UnpackError? then u else UnpackFrom(rest, HeaderAfter(item, h), data, u.pos, u.values)
  {
    NoPaddingOf(item, h, pos);
  }

  // ----- Without alignment options

  /** No option of the format sets an alignment other than 1. */
  predicate NeverAligns(f: Format) {
    f.Then? ==> (f.item.Control? ==> f.item.h.align == 1) && NeverAligns(f.rest)
  }

  /** What the items take when they follow each other without a gap. */
  function TotalSize(f: Format): nat {
    if !f.Then? then 0
    else
      (match f.item
       case Integer(_, n) => n
       case Real(n) => n
       case Chars(n) => n
       case Pad => 1
       case _ => 0)
      + TotalSize(f.rest)
  }

  lemma {:induction false} WithoutExclamation(fmt: string, h: Header)
    requires '!' !in fmt && h.align == 1
    ensures NeverAligns(Parse(fmt, h))
    decreases |fmt|
  {
    if fmt == "" {
    } else {
      var next := NextItem(fmt, h);
      if next.Item? {
        RestIsPart(fmt, h);
        WithoutExclamation(next.rest, HeaderAfter(next.item, h));
      }
    }
  }

  lemma {:induction false} DigitsArePart(fmt: string, a: nat)
    ensures forall c :: c in Digits(fmt, a).1 ==> c in fmt
  {
    if fmt != "" && IsDigit(fmt[0]) {
      DigitsArePart(fmt[1..], a * 10 + (fmt[0] - '0') as nat);
    }
  }

  lemma RestIsPart(fmt: string, h: Header)
    requires fmt != "" && NextItem(fmt, h).Item?
    ensures forall c :: c in NextItem(fmt, h).rest ==> c in fmt
    ensures fmt[0] != '!' && h.align == 1 ==> HeaderAfter(NextItem(fmt, h).item, h).align == 1
  {
    DigitsArePart(fmt[1..], 0);
  }

  lemma {:induction false} GaplessSize(f: Format, h: Header, pos: nat)
    requires NeverAligns(f) && h.align == 1 && SizeFrom(f, h, pos).Sized?
    ensures SizeFrom(f, h, pos) == Sized(pos + TotalSize(f))
  {
    if f.Then? {
      var size := ItemSize(f.item);
      if size > 0 && !f.item.Chars? {
        assert BeginsAligned(size, 1, pos, 0, pos + size);
        PaddingOf(f.item, h, size, pos, 0, pos + size);
      }
      GaplessSize(f.rest, HeaderAfter(f.item, h), pos + size);
    }
  }

  /** Packing starts with alignment 1: without a `!`, a format that has a size takes just the sum of its items' sizes. */
  lemma DefaultIsUnaligned(fmt: string, size: nat)
    requires '!' !in fmt && SizeFrom(Parse(fmt, DEFAULT_OPTIONS), DEFAULT_OPTIONS, 0) == Sized(size)
    ensures size == TotalSize(Parse(fmt, DEFAULT_OPTIONS))
  {
    WithoutExclamation(fmt, DEFAULT_OPTIONS);
    GaplessSize(Parse(fmt, DEFAULT_OPTIONS), DEFAULT_OPTIONS, 0);
  }

  // ----- The order of the bytes

  lemma {:induction false} LittleByte(x: nat, size: nat, k: nat)
    requires k < size
    ensures ToLittle(x, size)[k] == x / Pow256(k) % 256
  {
    if k == 0 {
    } else {
      LittleByte(x / 256, size - 1, k - 1);
      QuotientOfQuotient(x, Pow256(k - 1), x / 256);
    }
  }

  lemma QuotientOfQuotient(x: int, p: nat, rest: int)
    requires p > 0 && rest == x / 256
    ensures rest / p == x / (256 * p)
  {
    var q, r := rest / p, rest % p;
    assert rest == q * p + r;
    assert x == q * (256 * p) + (256 * r + x % 256);
    DivisionIsUnique(x, 256 * p, q, 256 * r + x % 256);
  }

  /** The low eight bytes of a number are those of its 64 low bits, and above them there are none. */
  lemma ByteOfUnsigned(n: int, k: nat)
    ensures ToUnsigned(n) / Pow256(k) % 256 == if k < 8 then n / Pow256(k) % 256 else 0
  {
    PowersOf256();
    if k < 8 {
      var p, m, q := Pow256(k), Pow256(7 - k), n / 0x1_0000_0000_0000_0000;
      assert 256 * m * p == 0x1_0000_0000_0000_0000;
      ShiftedQuotient(ToUnsigned(n), n, p, m, q);
    } else {
      PowerGrows(k);
      DivisionIsUnique(ToUnsigned(n), Pow256(k), 0, ToUnsigned(n));
    }
  }

  lemma ShiftedQuotient(u: int, n: int, p: nat, m: nat, q: int)
    requires p > 0 && n == q * (256 * m * p) + u
    ensures u / p % 256 == n / p % 256
  {
    var a, r := u / p, u % p;
    assert u == a * p + r;
    assert n == (256 * (q * m) + a) * p + r;
    DivisionIsUnique(n, p, 256 * (q * m) + a, r);
  }

  lemma {:induction false} PowerGrows(k: nat)
    requires k >= 8
    ensures Pow256(k) >= 0x1_0000_0000_0000_0000
  {
    if k == 8 {
      PowersOf256();
    } else {
      PowerGrows(k - 1);
    }
  }

  /**
   * The bytes of a packed number, in two's complement: little endian begins with the lowest byte, big endian ends with
   * it; a format of more than eight bytes gets zeros above them, even for a negative number.
   */
  lemma PackedByte(n: int, size: nat, k: nat)
    requires k < size
    ensures PutInteger(n, Little, size)[k] == if k < 8 then n / Pow256(k) % 256 else 0
    ensures PutInteger(n, Big, size)[size - 1 - k] == if k < 8 then n / Pow256(k) % 256 else 0
  {
    LittleByte(ToUnsigned(n), size, k);
    ByteOfUnsigned(n, k);
  }

  // ----- Two formats

  const TWO_NUMBERS := Then(Integer(true, 1), Then(Integer(true, 4), End))

  lemma ReadNumbers(h: Header)
    ensures Parse("bi4", h) == TWO_NUMBERS
  {
    assert "bi4"[1..] == "i4" && "i4"[1..] == "4" && "4"[1..] == "";
    assert Digits("4", 0) == (4, "");
    assert NextItem("i4", h) == Item(Integer(true, 4), "");
  }

  lemma ReadAlignment()
    ensures Parse("!4bi4", DEFAULT_OPTIONS) == Then(Control(Header(Little, 4)), TWO_NUMBERS)
  {
    assert "!4bi4"[1..] == "4bi4" && "4bi4"[1..] == "bi4";
    assert Digits("4bi4", 0) == Digits("bi4", 4) == (4, "bi4");
    assert StructAlign.And(4, 3) == 0;
    ReadNumbers(Header(Little, 4));
  }

  lemma OneThenTwo()
    ensures PutInteger(1, Little, 1) == [1] && PutInteger(2, Little, 4) == [2, 0, 0, 0]
  {
    PackedByte(1, 1, 0);
    PackedByte(2, 4, 0);
    PackedByte(2, 4, 1);
    PackedByte(2, 4, 2);
    PackedByte(2, 4, 3);
    PowersOf256();
  }

  lemma TwoPacked(h: Header, gap: nat, next: nat)
    requires h.endian == Little && CanAlign(Integer(true, 1), 1, h.align) && CanAlign(Integer(true, 4), 4, h.align)
    requires BeginsAligned(1, h.align, 0, 0, 1) && BeginsAligned(4, h.align, 1, gap, next)
    ensures PackFrom(TWO_NUMBERS, h, 0, [Number(1), Number(2)]) == Packed([1] + Zeros(gap) + [2, 0, 0, 0], [])
  {
    OneThenTwo();
    var second := Then(Integer(true, 4), End);
    PackedAligned(Integer(true, 4), End, h, 1, [Number(2)], 4, gap, next);
    assert PackFrom(second, h, 1, [Number(2)]) == Packed(Zeros(gap) + [2, 0, 0, 0], []);
    PackedAligned(Integer(true, 1), second, h, 0, [Number(1), Number(2)], 1, 0, 1);
    assert Zeros(0) + [1] + (Zeros(gap) + [2, 0, 0, 0]) == [1] + Zeros(gap) + [2, 0, 0, 0];
  }

  /** Under `!4`, three zeros bring the second number to position 4. */
  lemma AlignedExample()
    ensures PackFrom(Parse("!4bi4", DEFAULT_OPTIONS), DEFAULT_OPTIONS, 0, [Number(1), Number(2)]) ==
      Packed([1, 0, 0, 0, 2, 0, 0, 0], [])
  {
    ReadAlignment();
    var h, args := Header(Little, 4), [Number(1), Number(2)];
    assert StructAlign.And(1, 0) == 0 && StructAlign.And(4, 3) == 0;
    TwoPacked(h, 3, 8);
    assert [1] + Zeros(3) + [2, 0, 0, 0] == [1, 0, 0, 0, 2, 0, 0, 0];
    PackedUnaligned(Control(h), TWO_NUMBERS, DEFAULT_OPTIONS, 0, args, Packed([], args), 0);
    PrependNothing(PackFrom(TWO_NUMBERS, h, 0, args));
  }

  /** Without it, the second number follows at once. */
  lemma UnalignedExample()
    ensures PackFrom(Parse("bi4", DEFAULT_OPTIONS), DEFAULT_OPTIONS, 0, [Number(1), Number(2)]) ==
      Packed([1, 2, 0, 0, 0], [])
  {
    ReadNumbers(DEFAULT_OPTIONS);
    assert StructAlign.And(1, 0) == 0;
    TwoPacked(DEFAULT_OPTIONS, 0, 5);
    assert [1] + Zeros(0) + [2, 0, 0, 0] == [1, 2, 0, 0, 0];
  }
}
