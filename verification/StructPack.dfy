/** The struct library: a format string read by a packer, an unpacker and a size computation that stay in step. */
module StructPack {
  import opened Bytes
  import opened StructInteger
  import StructAlign

  const SHORT_SIZE: nat := 2
  const INT_SIZE: nat := 4
  const LONG_SIZE: nat := 8
  const MAX_INT_SIZE: nat := 32
  const MAX_ALIGN: nat := 8

  datatype Error =
    | InvalidAlignment | SizeTooLarge | InvalidOption | BadArgument | StringTooShort
    | DataTooShort | UnfinishedString | NeedsSize | NoFixedSize

  /** Lua values; a float is given by its IEEE 754 bytes in the host's order. */
  datatype Value = Number(n: int) | Text(s: seq<Byte>) | Float(bits: seq<Byte>)

  type Alignment = a: nat | a >= 1 witness 1

  /** The state that control options change. */
  datatype Header = Header(endian: Endian, align: Alignment)

  const DEFAULT_OPTIONS := Header(NATIVE, 1)

  datatype Item =
    | Integer(signed: bool, size: nat)
    | Pad
    | Real(size: nat)
    | Chars(count: nat)
    | ZString
    | Control(h: Header)
    /** A letter or digit that is no option: an error for the packers, nothing at all for the size. */
    | Unknown

  datatype ItemResult = Item(item: Item, rest: string) | ItemError(error: Error)

  /** The bytes packed and the arguments not used yet. */
  datatype Packed = Packed(bytes: seq<Byte>, args: seq<Value>) | PackError(error: Error)

  /** The values read so far and the position reached. */
  datatype Unpacked = Unpacked(values: seq<Value>, pos: nat) | UnpackError(error: Error)

  datatype Sized = Sized(size: nat) | SizeError(error: Error)

  // ----- Reading the format

  predicate IsDigit(c: char) {
    '0' <= c <= '9'
  }

  predicate IsAlnum(c: char) {
    IsDigit(c) || 'a' <= c <= 'z' || 'A' <= c <= 'Z'
  }

  function Digits(fmt: string, a: nat): (r: (nat, string))
    ensures |r.1| <= |fmt|
  {
    if fmt != "" && IsDigit(fmt[0]) then Digits(fmt[1..], a * 10 + (fmt[0] - '0') as nat) else (a, fmt)
  }

  /** The number at the head of the format, or the default if there is none. */
  function GetNum(fmt: string, default: nat): (r: (nat, string))
    ensures |r.1| <= |fmt|
  {
    if fmt != "" && IsDigit(fmt[0]) then Digits(fmt, 0) else (default, fmt)
  }

  function SizedInteger(signed: bool, fmt: string): (r: ItemResult)
    ensures r.Item? ==> |r.rest| <= |fmt|
  {
    var (n, rest) := GetNum(fmt, INT_SIZE);
    if n > MAX_INT_SIZE then ItemError(SizeTooLarge) else Item(Integer(signed, n), rest)
  }

  function SetAlignment(h: Header, fmt: string): (r: ItemResult)
    ensures r.Item? ==> |r.rest| <= |fmt|
  {
    var (a, rest) := GetNum(fmt, MAX_ALIGN);
    if StructAlign.IsPowerOf2(a) then Item(Control(h.(align := a)), rest) else ItemError(InvalidAlignment)
  }

  /** The item at the head of the format, with the header it leaves if it is a control option. */
  function NextItem(fmt: string, h: Header): (r: ItemResult)
    requires fmt != ""
    ensures r.Item? ==> |r.rest| < |fmt|
  {
    var rest := fmt[1..];
    match fmt[0]
    case 'b' => Item(Integer(true, 1), rest)
    case 'B' => Item(Integer(false, 1), rest)
    case 'h' => Item(Integer(true, SHORT_SIZE), rest)
    case 'H' => Item(Integer(false, SHORT_SIZE), rest)
    case 'l' => Item(Integer(true, LONG_SIZE), rest)
    case 'L' => Item(Integer(false, LONG_SIZE), rest)
    case 'T' => Item(Integer(false, LONG_SIZE), rest)
    case 'i' => SizedInteger(true, rest)
    case 'I' => SizedInteger(false, rest)
    case 'f' => Item(Real(4), rest)
    case 'd' => Item(Real(8), rest)
    case 'x' => Item(Pad, rest)
    case 'c' => Item(Chars(GetNum(rest, 1).0), GetNum(rest, 1).1)
    case 's' => Item(ZString, rest)
    case ' ' => Item(Control(h), rest)
    case '>' => Item(Control(h.(endian := Big)), rest)
    case '<' => Item(Control(h.(endian := Little)), rest)
    case '!' => SetAlignment(h, rest)
    case c => if IsAlnum(c) then Item(Unknown, rest) else ItemError(InvalidOption)
  }

  /** A format read to its end, or to its first error. */
  datatype Format = End | Broken(error: Error) | Then(item: Item, rest: Format)

  function Parse(fmt: string, h: Header): Format
    decreases |fmt|
  {
    if fmt == "" then End
    else match NextItem(fmt, h)
      case ItemError(e) => Broken(e)
      case Item(item, rest) => Then(item, Parse(rest, HeaderAfter(item, h)))
  }

  function HeaderAfter(item: Item, h: Header): Header {
    if item.Control? then item.h else h
  }

  function ItemSize(item: Item): nat {
    match item
    case Integer(_, size) => size
    case Pad => 1
    case Real(size) => size
    case Chars(n) => n
    case _ => 0
  }

  /** Padding before an item at position `len`; strings are never aligned. */
  function ItemPadding(item: Item, h: Header, len: nat): nat {
    if item.Chars? then 0 else StructAlign.ToAlign(len, h.align, ItemSize(item))
  }

  // ----- Packing

  predicate TakesArgument(item: Item) {
    item.Integer? || item.Real? || item.Chars? || item.ZString?
  }

  /** The bytes of an item that takes an argument. */
  function PackArgument(item: Item, h: Header, v: Value): Packed
    requires TakesArgument(item)
  {
    match item
    case Integer(_, size) => if v.Number? then Packed(PutInteger(v.n, h.endian, size), []) else PackError(BadArgument)
    case Real(size) =>
      if v.Float? && |v.bits| == size then Packed(Ordered(v.bits, h.endian), []) else PackError(BadArgument)
    case Chars(n) =>
      if !v.Text? then PackError(BadArgument)
      else if n == 0 then Packed(v.s, [])
      else if |v.s| < n then PackError(StringTooShort)
      else Packed(v.s[..n], [])
    case ZString => if v.Text? then Packed(v.s + [0], []) else PackError(BadArgument)
  }

  /** The bytes of one item and the arguments left after it. */
  function PackItem(item: Item, h: Header, args: seq<Value>): Packed {
    if TakesArgument(item) then
      if args == [] then PackError(BadArgument)
      else
        var p := PackArgument(item, h, args[0]);
        if p.Packed? then Packed(p.bytes, args[1..]) else p
    else if item.Unknown? then PackError(InvalidOption)
    else Packed(Zeros(ItemSize(item)), args)
  }

  function Prepend(s: seq<Byte>, p: Packed): Packed {
    if p.Packed? then Packed(s + p.bytes, p.args) else p
  }

  function PackFrom(f: Format, h: Header, total: nat, args: seq<Value>): Packed {
    match f
    case End => Packed([], args)
    case Broken(e) => PackError(e)
    case Then(item, rest) =>
      var pad, p := ItemPadding(item, h, total), PackItem(item, h, args);
      if p.PackError? then p
      else Prepend(Zeros(pad) + p.bytes, PackFrom(rest, HeaderAfter(item, h), total + pad + |p.bytes|, p.args))
  }

  // ----- Unpacking

  /** The first zero byte at or after `pos`, or the length of the data. */
  function FindZero(data: seq<Byte>, pos: nat): (e: nat)
    requires pos <= |data|
    ensures pos <= e <= |data| && (e < |data| ==> data[e] == 0)
    ensures forall k :: pos <= k < e ==> data[k] != 0
    decreases |data| - pos
  {
    if pos == |data| || data[pos] == 0 then pos else FindZero(data, pos + 1)
  }

  /** A string whose length is the number read just before, which it replaces. */
  function UnpackCounted(data: seq<Byte>, pos: nat, acc: seq<Value>): Unpacked
    requires pos <= |data|
  {
    if acc == [] || !acc[|acc| - 1].Number? then UnpackError(NeedsSize)
    else
      var k := acc[|acc| - 1].n;
      if 0 <= k <= |data| - pos then Unpacked(acc[..|acc| - 1] + [Text(data[pos..pos + k])], pos + k)
      else UnpackError(DataTooShort)
  }

  function UnpackString(data: seq<Byte>, pos: nat, acc: seq<Value>): Unpacked
    requires pos <= |data|
  {
    var e := FindZero(data, pos);
    if e == |data| then UnpackError(UnfinishedString) else Unpacked(acc + [Text(data[pos..e])], e + 1)
  }

  /** The value of a slice of fixed size. */
  function SliceValue(item: Item, h: Header, slice: seq<Byte>): Value {
    match item
    case Integer(signed, _) => Number(GetInteger(slice, h.endian, signed))
    case Real(_) => Float(Ordered(slice, h.endian))
    case _ => Text(slice)
  }

  function UnpackItem(item: Item, h: Header, data: seq<Byte>, pos: nat, acc: seq<Value>): Unpacked
    requires pos + ItemSize(item) <= |data|
  {
    if item.ZString? then UnpackString(data, pos, acc)
    else if item == Chars(0) then UnpackCounted(data, pos, acc)
    else if TakesArgument(item) then
      Unpacked(acc + [SliceValue(item, h, data[pos..pos + ItemSize(item)])], pos + ItemSize(item))
    else if item.Unknown? then UnpackError(InvalidOption)
    else Unpacked(acc, pos + ItemSize(item))
  }

  /** Aligns, checks that the data reach far enough, and reads. */
  function UnpackAligned(item: Item, h: Header, data: seq<Byte>, pos: nat, acc: seq<Value>): Unpacked {
    var at := pos + ItemPadding(item, h, pos);
    if at + ItemSize(item) > |data| then UnpackError(DataTooShort) else UnpackItem(item, h, data, at, acc)
  }

  function UnpackFrom(f: Format, h: Header, data: seq<Byte>, pos: nat, acc: seq<Value>): Unpacked {
    match f
    case End => Unpacked(acc, pos)
    case Broken(e) => UnpackError(e)
    case Then(item, rest) =>
      var u := UnpackAligned(item, h, data, pos, acc);
      if u.UnpackError? then u else UnpackFrom(rest, HeaderAfter(item, h), data, u.pos, u.values)
  }

  // ----- Size

  function SizeFrom(f: Format, h: Header, pos: nat): Sized {
    match f
    case End => Sized(pos)
    case Broken(e) => SizeError(e)
    case Then(item, rest) =>
      if item.ZString? || item == Chars(0) then SizeError(NoFixedSize)
      else SizeFrom(rest, HeaderAfter(item, h), pos + ItemPadding(item, h, pos) + ItemSize(item))
  }

  // ----- Round trip

  /** The item can hold the argument: it will come back as it was. */
  predicate Faithful(item: Item, v: Value) {
    match item
    case Integer(signed, size) => 1 <= size <= 8 && v.Number? && InRange(v.n, signed, size)
    case Real(size) => v.Float? && |v.bits| == size
    case Chars(n) => n > 0 && v.Text? && |v.s| == n
    case ZString => v.Text? && 0 !in v.s
    case _ => false
  }

  predicate CanPack(item: Item, args: seq<Value>) {
    !item.Unknown? && (TakesArgument(item) ==> args != [] && Faithful(item, args[0]))
  }

  function ArgsAfter(item: Item, args: seq<Value>): seq<Value>
    requires CanPack(item, args)
  {
    if TakesArgument(item) then args[1..] else args
  }

  function ValuesAfter(item: Item, args: seq<Value>, acc: seq<Value>): seq<Value>
    requires CanPack(item, args)
  {
    if TakesArgument(item) then acc + [args[0]] else acc
  }

  /** The format is valid, and there is one argument for every item that takes one, which it can hold. */
  predicate Admissible(f: Format, args: seq<Value>) {
    match f
    case End => args == []
    case Broken(_) => false
    case Then(item, rest) => CanPack(item, args) && Admissible(rest, ArgsAfter(item, args))
  }

  /** The bytes lie in the data at `pos`. */
  ghost predicate LiesAt(bytes: seq<Byte>, data: seq<Byte>, pos: nat) {
    pos + |bytes| <= |data| && data[pos..pos + |bytes|] == bytes
  }

  lemma SliceOfSlice<T>(s: seq<T>, lo: nat, hi: nat, i: nat, j: nat)
    requires lo <= hi <= |s| && i <= j <= hi - lo
    ensures s[lo..hi][i..j] == s[lo + i..lo + j]
  {
    forall k | 0 <= k < j - i ensures s[lo..hi][i..j][k] == s[lo + i..lo + j][k] {
      assert s[lo..hi][i + k] == s[lo + i + k];
    }
  }

  lemma LiesAtParts(a: seq<Byte>, b: seq<Byte>, c: seq<Byte>, data: seq<Byte>, pos: nat)
    requires LiesAt(a + b + c, data, pos)
    ensures LiesAt(b, data, pos + |a|) && LiesAt(c, data, pos + |a| + |b|)
  {
    var s := a + b + c;
    assert s[|a|..|a| + |b|] == b && s[|a| + |b|..|s|] == c;
    SliceOfSlice(data, pos, pos + |s|, |a|, |a| + |b|);
    SliceOfSlice(data, pos, pos + |s|, |a| + |b|, |s|);
  }

  lemma {:induction false} FindZeroAt(data: seq<Byte>, pos: nat, e: nat)
    requires pos <= e < |data| && data[e] == 0 && forall k :: pos <= k < e ==> data[k] != 0
    ensures FindZero(data, pos) == e
    decreases e - pos
  {
    if pos == e {
    } else {
      FindZeroAt(data, pos + 1, e);
    }
  }

  lemma StringRoundTrip(s: seq<Byte>, data: seq<Byte>, pos: nat, acc: seq<Value>)
    requires 0 !in s && LiesAt(s + [0], data, pos)
    ensures UnpackString(data, pos, acc) == Unpacked(acc + [Text(s)], pos + |s| + 1)
  {
    var t := s + [0];
    SliceOfSlice(data, pos, pos + |t|, 0, |s|);
    assert t[0..|s|] == s;
    forall k | 0 <= k < |t| ensures data[pos + k] == t[k] {
      assert data[pos + k] == data[pos..pos + |t|][k];
    }
    forall k | pos <= k < pos + |s| ensures data[k] != 0 {
      assert data[pos + (k - pos)] == t[k - pos] && s[k - pos] in s;
    }
    FindZeroAt(data, pos, pos + |s|);
  }

  /** What an argument that its item can hold is packed into. */
  lemma ArgumentPacks(item: Item, h: Header, v: Value) returns (bytes: seq<Byte>)
    requires TakesArgument(item) && Faithful(item, v)
    ensures PackArgument(item, h, v) == Packed(bytes, [])
    ensures if item.ZString? then bytes == v.s + [0] else |bytes| == ItemSize(item) && SliceValue(item, h, bytes) == v
  {
    bytes := PackArgument(item, h, v).bytes;
    match item
    case Integer(signed, size) => IntegerRoundTrip(v.n, h.endian, signed, size);
    case Real(size) => OrderedTwice(v.bits, h.endian);
    case Chars(n) => assert bytes == v.s;
    case ZString =>
  }

  lemma ItemPacks(item: Item, h: Header, args: seq<Value>) returns (bytes: seq<Byte>)
    requires CanPack(item, args)
    ensures PackItem(item, h, args) == Packed(bytes, ArgsAfter(item, args)) && |bytes| >= ItemSize(item)
  {
    if TakesArgument(item) {
      bytes := ArgumentPacks(item, h, args[0]);
    } else {
      bytes := Zeros(ItemSize(item));
    }
  }

  /** Unpacking takes one item back from its bytes, wherever they lie. */
  lemma ItemRoundTrip(item: Item, h: Header, args: seq<Value>, bytes: seq<Byte>, data: seq<Byte>, pos: nat, acc: seq<Value>)
    requires CanPack(item, args) && PackItem(item, h, args) == Packed(bytes, ArgsAfter(item, args))
    requires LiesAt(bytes, data, pos) && |bytes| >= ItemSize(item)
    ensures UnpackItem(item, h, data, pos, acc) == Unpacked(ValuesAfter(item, args, acc), pos + |bytes|)
  {
    if TakesArgument(item) {
      var packed := ArgumentPacks(item, h, args[0]);
      if item.ZString? {
        StringRoundTrip(args[0].s, data, pos, acc);
      }
    }
  }

  /** Packing never fails on arguments that the items can hold. */
  lemma {:induction false} Packs(f: Format, h: Header, total: nat, args: seq<Value>) returns (bytes: seq<Byte>)
    requires Admissible(f, args)
    ensures PackFrom(f, h, total, args) == Packed(bytes, [])
  {
    bytes := [];
    if !f.Then? {
    } else {
      var head := ItemPacks(f.item, h, args);
      bytes := Packs(f.rest, HeaderAfter(f.item, h), total + ItemPadding(f.item, h, total) + |head|, ArgsAfter(f.item, args));
      bytes := Zeros(ItemPadding(f.item, h, total)) + head + bytes;
    }
  }

  lemma ValuesStep(item: Item, args: seq<Value>, acc: seq<Value>)
    requires CanPack(item, args)
    ensures ValuesAfter(item, args, acc) + ArgsAfter(item, args) == acc + args
  {
  }

  /** The packed items lie in the data from `pos` to `end`, each one where the format aligns it. */
  ghost predicate Laid(f: Format, h: Header, args: seq<Value>, data: seq<Byte>, pos: nat, end: nat) {
    match f
    case End => args == [] && pos == end
    case Broken(_) => false
    case Then(item, rest) =>
      && CanPack(item, args)
      && var head, at := PackItem(item, h, args), pos + ItemPadding(item, h, pos);
         && head.Packed? && |head.bytes| >= ItemSize(item) && LiesAt(head.bytes, data, at)
         && Laid(rest, HeaderAfter(item, h), ArgsAfter(item, args), data, at + |head.bytes|, end)
  }

  lemma LaidStep(f: Format, h: Header, args: seq<Value>, data: seq<Byte>, pos: nat, end: nat, head: seq<Byte>,
                 at: nat, next: nat)
    requires f.Then? && CanPack(f.item, args) && PackItem(f.item, h, args) == Packed(head, ArgsAfter(f.item, args))
    requires at == pos + ItemPadding(f.item, h, pos) && next == at + |head|
    requires |head| >= ItemSize(f.item) && LiesAt(head, data, at)
    requires Laid(f.rest, HeaderAfter(f.item, h), ArgsAfter(f.item, args), data, next, end)
    ensures Laid(f, h, args, data, pos, end)
  {
  }

  lemma PackedStep(f: Format, h: Header, args: seq<Value>, bytes: seq<Byte>, data: seq<Byte>, pos: nat)
    returns (head: seq<Byte>, tail: seq<Byte>, at: nat, next: nat)
    requires f.Then? && CanPack(f.item, args)
    requires PackFrom(f, h, pos, args) == Packed(bytes, []) && LiesAt(bytes, data, pos)
    ensures PackItem(f.item, h, args) == Packed(head, ArgsAfter(f.item, args)) && |head| >= ItemSize(f.item)
    ensures at == pos + ItemPadding(f.item, h, pos) && next == at + |head| && next + |tail| == pos + |bytes|
    ensures LiesAt(head, data, at) && LiesAt(tail, data, next)
    ensures PackFrom(f.rest, HeaderAfter(f.item, h), next, ArgsAfter(f.item, args)) == Packed(tail, [])
  {
    head := ItemPacks(f.item, h, args);
    var pad := ItemPadding(f.item, h, pos);
    at, next := pos + pad, pos + pad + |head|;
    tail := PackFrom(f.rest, HeaderAfter(f.item, h), next, ArgsAfter(f.item, args)).bytes;
    assert bytes == Zeros(pad) + head + tail;
    LiesAtParts(Zeros(pad), head, tail, data, pos);
  }

  lemma {:induction false} PackedIsLaid(f: Format, h: Header, args: seq<Value>, bytes: seq<Byte>, data: seq<Byte>,
                                        pos: nat, end: nat)
    requires Admissible(f, args) && PackFrom(f, h, pos, args) == Packed(bytes, []) && LiesAt(bytes, data, pos)
    requires end == pos + |bytes|
    ensures Laid(f, h, args, data, pos, end)
  {
    if !f.Then? {
    } else {
      var head, tail, at, next := PackedStep(f, h, args, bytes, data, pos);
      PackedIsLaid(f.rest, HeaderAfter(f.item, h), ArgsAfter(f.item, args), tail, data, next, end);
      LaidStep(f, h, args, data, pos, end, head, at, next);
    }
  }

  /** Unpacking an aligned item that lies in the data. */
  lemma AlignedRoundTrip(item: Item, h: Header, args: seq<Value>, bytes: seq<Byte>, data: seq<Byte>, pos: nat,
                         acc: seq<Value>, next: nat)
    requires CanPack(item, args) && PackItem(item, h, args) == Packed(bytes, ArgsAfter(item, args))
    requires LiesAt(bytes, data, pos + ItemPadding(item, h, pos)) && |bytes| >= ItemSize(item)
    requires next == pos + ItemPadding(item, h, pos) + |bytes|
    ensures UnpackAligned(item, h, data, pos, acc) == Unpacked(ValuesAfter(item, args, acc), next)
  {
    ItemRoundTrip(item, h, args, bytes, data, pos + ItemPadding(item, h, pos), acc);
  }

  lemma UnpackStep(f: Format, h: Header, data: seq<Byte>, pos: nat, acc: seq<Value>, values: seq<Value>, next: nat)
    requires f.Then? && UnpackAligned(f.item, h, data, pos, acc) == Unpacked(values, next)
    ensures UnpackFrom(f, h, data, pos, acc) == UnpackFrom(f.rest, HeaderAfter(f.item, h), data, next, values)
  {
  }

  /** Unpacking reads the items laid in the data, and ends where they end. */
  lemma {:induction false} LaidUnpacks(f: Format, h: Header, args: seq<Value>, data: seq<Byte>, pos: nat, end: nat,
                                       acc: seq<Value>)
    requires Laid(f, h, args, data, pos, end)
    ensures UnpackFrom(f, h, data, pos, acc) == Unpacked(acc + args, end)
  {
    if f.Then? {
      var head := ItemPacks(f.item, h, args);
      var next, values := pos + ItemPadding(f.item, h, pos) + |head|, ValuesAfter(f.item, args, acc);
      AlignedRoundTrip(f.item, h, args, head, data, pos, acc, next);
      UnpackStep(f, h, data, pos, acc, values, next);
      LaidUnpacks(f.rest, HeaderAfter(f.item, h), ArgsAfter(f.item, args), data, next, end, values);
      ValuesStep(f.item, args, acc);
    } else {
      assert acc + args == acc;
    }
  }

  /** The round trip of the whole library, from the default options and with any bytes after the packed ones. */
  lemma RoundTrip(fmt: string, args: seq<Value>, after: seq<Byte>)
    requires Admissible(Parse(fmt, DEFAULT_OPTIONS), args)
    ensures
      var f := Parse(fmt, DEFAULT_OPTIONS);
      var packed := PackFrom(f, DEFAULT_OPTIONS, 0, args);
      && packed.Packed? && packed.args == []
      && UnpackFrom(f, DEFAULT_OPTIONS, packed.bytes + after, 0, []) == Unpacked(args, |packed.bytes|)
  {
    var f := Parse(fmt, DEFAULT_OPTIONS);
    var bytes := Packs(f, DEFAULT_OPTIONS, 0, args);
    PackedIsLaid(f, DEFAULT_OPTIONS, args, bytes, bytes + after, 0, |bytes|);
    LaidUnpacks(f, DEFAULT_OPTIONS, args, bytes + after, 0, |bytes|, []);
    assert [] + args == args;
  }

  // ----- What round trips, exactly

  predicate FixedSize(f: Format) {
    f.Then? ==> !f.item.ZString? && f.item != Chars(0) && FixedSize(f.rest)
  }

  lemma FixedItemSize(item: Item, h: Header, args: seq<Value>)
    requires PackItem(item, h, args).Packed? && !item.ZString? && item != Chars(0)
    ensures |PackItem(item, h, args).bytes| == ItemSize(item)
  {
  }

  /** Of a format that packs, the size is known beforehand exactly when it has no `s` and no `c0`, and it is right. */
  lemma {:induction false} SizeIsPackedLength(f: Format, h: Header, total: nat, args: seq<Value>)
    requires PackFrom(f, h, total, args).Packed?
    ensures SizeFrom(f, h, total) ==
      if FixedSize(f) then Sized(total + |PackFrom(f, h, total, args).bytes|) else SizeError(NoFixedSize)
  {
    if f.Then? && !f.item.ZString? && f.item != Chars(0) {
      FixedItemSize(f.item, h, args);
      SizeIsPackedLength(f.rest, HeaderAfter(f.item, h), total + ItemPadding(f.item, h, total) + ItemSize(f.item),
                         PackItem(f.item, h, args).args);
    }
  }

  // ----- What has a size, packs and unpacks

  predicate NoUnknown(f: Format) {
    f.Then? ==> !f.item.Unknown? && NoUnknown(f.rest)
  }

  function DefaultArgument(item: Item): Value {
    match item
    case Real(size) => Float(Zeros(size))
    case Chars(n) => Text(Zeros(n))
    case ZString => Text([])
    case _ => Number(0)
  }

  /** Arguments that every item can pack. */
  function DefaultArguments(f: Format): seq<Value> {
    if f.Then? then (if TakesArgument(f.item) then [DefaultArgument(f.item)] else []) + DefaultArguments(f.rest) else []
  }

  predicate IsBroken(f: Format) {
    f.Broken? || (f.Then? && IsBroken(f.rest))
  }

  lemma {:induction false} DefaultsPack(f: Format, h: Header, total: nat)
    requires !IsBroken(f) && NoUnknown(f)
    ensures PackFrom(f, h, total, DefaultArguments(f)).Packed?
  {
    if f.End? {
    } else {
      var args := DefaultArguments(f);
      var p := PackItem(f.item, h, args);
      assert p.Packed? && p.args == DefaultArguments(f.rest);
      DefaultsPack(f.rest, HeaderAfter(f.item, h), total + ItemPadding(f.item, h, total) + |p.bytes|);
    }
  }

  lemma {:induction false} PackingNeeds(f: Format, h: Header, total: nat, args: seq<Value>)
    requires PackFrom(f, h, total, args).Packed?
    ensures !IsBroken(f) && NoUnknown(f)
  {
    if f.End? {
    } else {
      var p := PackItem(f.item, h, args);
      PackingNeeds(f.rest, HeaderAfter(f.item, h), total + ItemPadding(f.item, h, total) + |p.bytes|, p.args);
    }
  }

  lemma {:induction false} SizedIsNotBroken(f: Format, h: Header, pos: nat)
    requires SizeFrom(f, h, pos).Sized?
    ensures !IsBroken(f)
  {
    if f.End? {
    } else {
      SizedIsNotBroken(f.rest, HeaderAfter(f.item, h), pos + ItemPadding(f.item, h, pos) + ItemSize(f.item));
    }
  }

  /** A format that has a size packs some arguments exactly when it has no unknown letter. */
  lemma SizedPacksIff(f: Format, h: Header, total: nat)
    requires SizeFrom(f, h, total).Sized?
    ensures (exists args :: PackFrom(f, h, total, args).Packed?) <==> NoUnknown(f)
  {
    SizedIsNotBroken(f, h, total);
    if NoUnknown(f) {
      DefaultsPack(f, h, total);
    }
    if args :| PackFrom(f, h, total, args).Packed? {
      PackingNeeds(f, h, total, args);
    }
  }

  lemma {:induction false} SizeGrows(f: Format, h: Header, pos: nat)
    requires SizeFrom(f, h, pos).Sized?
    ensures SizeFrom(f, h, pos).size >= pos
  {
    if f.End? {
    } else {
      SizeGrows(f.rest, HeaderAfter(f.item, h), pos + ItemPadding(f.item, h, pos) + ItemSize(f.item));
    }
  }

  /** And it unpacks data exactly when it has no unknown letter and the data reach as far as its size. */
  lemma {:induction false} SizedUnpacksIff(f: Format, h: Header, data: seq<Byte>, pos: nat, acc: seq<Value>)
    requires SizeFrom(f, h, pos).Sized?
    ensures UnpackFrom(f, h, data, pos, acc).Unpacked? <==>
      NoUnknown(f) && (f.End? || SizeFrom(f, h, pos).size <= |data|)
    ensures UnpackFrom(f, h, data, pos, acc).Unpacked? ==> UnpackFrom(f, h, data, pos, acc).pos == SizeFrom(f, h, pos).size
  {
    if f.End? {
    } else {
      var next := pos + ItemPadding(f.item, h, pos) + ItemSize(f.item);
      SizeStep(f, h, pos, next);
      SizeGrows(f.rest, HeaderAfter(f.item, h), next);
      var u := UnpackAligned(f.item, h, data, pos, acc);
      if u.Unpacked? {
        assert u.pos == next <= |data|;
        SizedUnpacksIff(f.rest, HeaderAfter(f.item, h), data, next, u.values);
      }
    }
  }

  /** The size computation accepts letters that no packer does. */
  lemma SizeAcceptsUnknown(args: seq<Value>)
    ensures
      var f := Parse("z", DEFAULT_OPTIONS);
      SizeFrom(f, DEFAULT_OPTIONS, 0) == Sized(0) && PackFrom(f, DEFAULT_OPTIONS, 0, args) == PackError(InvalidOption)
  {
    assert "z"[1..] == "";
    assert Parse("z", DEFAULT_OPTIONS) == Then(Unknown, End);
  }

  /** One argument comes back from its own packed bytes exactly when its item can hold it. */
  lemma ItemRoundTripIff(item: Item, h: Header, v: Value, acc: seq<Value>)
    requires TakesArgument(item) && item != Chars(0) && (item.Integer? ==> 1 <= item.size <= 8)
    requires PackArgument(item, h, v).Packed?
    ensures
      var bytes := PackArgument(item, h, v).bytes;
      && ItemSize(item) <= |bytes|
      && (UnpackItem(item, h, bytes, 0, acc) == Unpacked(acc + [v], |bytes|) <==> Faithful(item, v))
  {
    var bytes := PackArgument(item, h, v).bytes;
    assert bytes[0..|bytes|] == bytes;
    if item.ZString? {
      if 0 !in v.s {
        StringRoundTrip(v.s, bytes, 0, acc);
      } else {
        var z :| 0 <= z < |v.s| && v.s[z] == 0;
        assert bytes[z] == 0;
        assert FindZero(bytes, 0) <= z;
      }
    } else {
      SliceFaithfulIff(item, h, v);
      var w := SliceValue(item, h, bytes);
      assert (acc + [w])[|acc|] == w && (acc + [v])[|acc|] == v;
    }
  }

  lemma SliceFaithfulIff(item: Item, h: Header, v: Value)
    requires TakesArgument(item) && !item.ZString? && item != Chars(0) && (item.Integer? ==> 1 <= item.size <= 8)
    requires PackArgument(item, h, v).Packed?
    ensures SliceValue(item, h, PackArgument(item, h, v).bytes) == v <==> Faithful(item, v)
  {
    match item
    case Integer(signed, size) => IntegerRoundTripIff(v.n, h.endian, signed, size);
    case Real(size) => OrderedTwice(v.bits, h.endian);
    case Chars(n) => assert |v.s| == n ==> v.s[..n] == v.s;
  }

  // ----- The loops

  /** Advances past the number at the head of the format. */
  method ReadNumber(fmt0: string, default: nat) returns (n: nat, fmt: string)
    ensures (n, fmt) == GetNum(fmt0, default)
  {
    n, fmt := default, fmt0;
    if fmt == "" || !IsDigit(fmt[0]) {
      return;
    }
    n := 0;
    while fmt != "" && IsDigit(fmt[0])
      invariant Digits(fmt, n) == Digits(fmt0, 0)
      decreases |fmt|
    {
      n := n * 10 + (fmt[0] - '0') as nat;
      fmt := fmt[1..];
    }
  }

  /** The option at the head of a nonempty format with its size, and the header that a control option leaves. */
  method ReadItem(fmt0: string, h: Header) returns (r: ItemResult)
    requires fmt0 != ""
    ensures r == NextItem(fmt0, h)
  {
    var opt, fmt, n := fmt0[0], fmt0[1..], 0;
    match opt
    case 'b' => r := Item(Integer(true, 1), fmt);
    case 'B' => r := Item(Integer(false, 1), fmt);
    case 'h' => r := Item(Integer(true, SHORT_SIZE), fmt);
    case 'H' => r := Item(Integer(false, SHORT_SIZE), fmt);
    case 'l' => r := Item(Integer(true, LONG_SIZE), fmt);
    case 'L' => r := Item(Integer(false, LONG_SIZE), fmt);
    case 'T' => r := Item(Integer(false, LONG_SIZE), fmt);
    case 'i' =>
      n, fmt := ReadNumber(fmt, INT_SIZE);
      r := if n > MAX_INT_SIZE then ItemError(SizeTooLarge) else Item(Integer(true, n), fmt);
    case 'I' =>
      n, fmt := ReadNumber(fmt, INT_SIZE);
      r := if n > MAX_INT_SIZE then ItemError(SizeTooLarge) else Item(Integer(false, n), fmt);
    case 'f' => r := Item(Real(4), fmt);
    case 'd' => r := Item(Real(8), fmt);
    case 'x' => r := Item(Pad, fmt);
    case 'c' =>
      n, fmt := ReadNumber(fmt, 1);
      r := Item(Chars(n), fmt);
    case 's' => r := Item(ZString, fmt);
    case ' ' => r := Item(Control(h), fmt);
    case '>' => r := Item(Control(h.(endian := Big)), fmt);
    case '<' => r := Item(Control(h.(endian := Little)), fmt);
    case '!' =>
      n, fmt := ReadNumber(fmt, MAX_ALIGN);
      if StructAlign.IsPowerOf2(n) {
        r := Item(Control(h.(align := n)), fmt);
      } else {
        r := ItemError(InvalidAlignment);
      }
    case _ => r := if IsAlnum(opt) then Item(Unknown, fmt) else ItemError(InvalidOption);
  }

  /** Reads one item of a format, leaving the rest of it to be parsed. */
  method ReadOption(fmt: string, h: Header) returns (r: ItemResult)
    requires fmt != ""
    ensures r.ItemError? ==> Parse(fmt, h) == Broken(r.error)
    ensures r.Item? ==> |r.rest| < |fmt| && Parse(fmt, h) == Then(r.item, Parse(r.rest, HeaderAfter(r.item, h)))
  {
    r := ReadItem(fmt, h);
  }

  /** The bytes of one argument, stored one by one. */
  method PutArgument(item: Item, h: Header, v: Value) returns (p: Packed)
    requires TakesArgument(item)
    ensures p == PackArgument(item, h, v)
  {
    match item
    case Integer(_, size) =>
      if !v.Number? {
        return PackError(BadArgument);
      }
      var buff := PutIntegerBytes(v.n, h.endian, size);
      p := Packed(buff[..], []);
    case Real(size) =>
      if !v.Float? || |v.bits| != size {
        return PackError(BadArgument);
      }
      var f := new Byte[size](i requires 0 <= i < size => v.bits[i]);
      assert f[..] == v.bits;
      CorrectBytes(f, h.endian);
      p := Packed(f[..], []);
    case Chars(n) =>
      if !v.Text? {
        return PackError(BadArgument);
      }
      var size := if n == 0 then |v.s| else n;
      if |v.s| < size {
        return PackError(StringTooShort);
      }
      assert v.s[..|v.s|] == v.s;
      p := Packed(v.s[..size], []);
    case ZString =>
      if !v.Text? {
        return PackError(BadArgument);
      }
      p := Packed(v.s + [0], []);
  }

  method PutItem(item: Item, h: Header, args: seq<Value>) returns (p: Packed)
    ensures p == PackItem(item, h, args)
  {
    if TakesArgument(item) {
      if args == [] {
        return PackError(BadArgument);
      }
      p := PutArgument(item, h, args[0]);
      if p.Packed? {
        p := Packed(p.bytes, args[1..]);
      }
    } else if item.Unknown? {
      p := PackError(InvalidOption);
    } else {
      p := Packed(Zeros(ItemSize(item)), args);
    }
  }

  lemma PrependTwice(a: seq<Byte>, b: seq<Byte>, p: Packed)
    ensures Prepend(a, Prepend(b, p)) == Prepend(a + b, p)
  {
    if p.Packed? {
      assert a + (b + p.bytes) == a + b + p.bytes;
    }
  }

  lemma PrependNothing(p: Packed)
    ensures Prepend([], p) == p
  {
    if p.Packed? {
      assert [] + p.bytes == p.bytes;
    }
  }

  /** The packing of `fmt0` is what has been packed so far, then the packing of the rest of the format. */
  method Pack(fmt0: string, args0: seq<Value>) returns (r: Packed)
    ensures r == PackFrom(Parse(fmt0, DEFAULT_OPTIONS), DEFAULT_OPTIONS, 0, args0)
  {
    ghost var whole := PackFrom(Parse(fmt0, DEFAULT_OPTIONS), DEFAULT_OPTIONS, 0, args0);
    PrependNothing(whole);
    var fmt, h, args, b := fmt0, DEFAULT_OPTIONS, args0, [];
    var totalsize: nat := 0;
    while fmt != ""
      invariant whole == Prepend(b, PackFrom(Parse(fmt, h), h, totalsize, args))
      decreases |fmt|
    {
      ghost var f := Parse(fmt, h);
      var next := ReadOption(fmt, h);
      if next.ItemError? {
        return PackError(next.error);
      }
      var pad := ItemPadding(next.item, h, totalsize);
      var p := PutItem(next.item, h, args);
      if p.PackError? {
        PackFails(f, h, totalsize, args, p, b);
        return p;
      }
      var total := totalsize + pad + |p.bytes|;
      PackStep(f, h, totalsize, args, p, b, whole, pad, total);
      b := b + (Zeros(pad) + p.bytes);
      totalsize := total;
      h := HeaderAfter(next.item, h);
      fmt, args := next.rest, p.args;
    }
    assert b + [] == b;
    r := Packed(b, args);
  }

  lemma PackFails(f: Format, h: Header, total: nat, args: seq<Value>, p: Packed, b: seq<Byte>)
    requires f.Then? && p == PackItem(f.item, h, args) && p.PackError?
    ensures Prepend(b, PackFrom(f, h, total, args)) == p
  {
  }

  lemma PackStep(f: Format, h: Header, total: nat, args: seq<Value>, p: Packed, b: seq<Byte>, whole: Packed,
                 pad: nat, next: nat)
    requires f.Then? && p == PackItem(f.item, h, args) && p.Packed?
    requires pad == ItemPadding(f.item, h, total) && next == total + pad + |p.bytes|
    requires whole == Prepend(b, PackFrom(f, h, total, args))
    ensures whole == Prepend(b + (Zeros(pad) + p.bytes), PackFrom(f.rest, HeaderAfter(f.item, h), next, p.args))
  {
    PrependTwice(b, Zeros(pad) + p.bytes, PackFrom(f.rest, HeaderAfter(f.item, h), next, p.args));
  }

  method GetSlice(item: Item, h: Header, slice: seq<Byte>) returns (v: Value)
    ensures v == SliceValue(item, h, slice)
  {
    match item
    case Integer(signed, _) =>
      var n := ReadInteger(slice, h.endian, signed);
      v := Number(n);
    case Real(_) =>
      var f := new Byte[|slice|](i requires 0 <= i < |slice| => slice[i]);
      assert f[..] == slice;
      CorrectBytes(f, h.endian);
      v := Float(f[..]);
    case _ => v := Text(slice);
  }

  method GetItem(item: Item, h: Header, data: seq<Byte>, pos: nat, acc: seq<Value>) returns (u: Unpacked)
    requires pos + ItemSize(item) <= |data|
    ensures u == UnpackItem(item, h, data, pos, acc)
  {
    if item.ZString? {
      var e := pos;
      while e < |data| && data[e] != 0
        invariant pos <= e <= |data| && FindZero(data, pos) == FindZero(data, e)
      {
        e := e + 1;
      }
      u := if e == |data| then UnpackError(UnfinishedString) else Unpacked(acc + [Text(data[pos..e])], e + 1);
    } else if item == Chars(0) {
      if acc == [] || !acc[|acc| - 1].Number? {
        return UnpackError(NeedsSize);
      }
      var k := acc[|acc| - 1].n;
      if k < 0 || pos + k > |data| {
        return UnpackError(DataTooShort);
      }
      u := Unpacked(acc[..|acc| - 1] + [Text(data[pos..pos + k])], pos + k);
    } else if TakesArgument(item) {
      var v := GetSlice(item, h, data[pos..pos + ItemSize(item)]);
      u := Unpacked(acc + [v], pos + ItemSize(item));
    } else if item.Unknown? {
      u := UnpackError(InvalidOption);
    } else {
      u := Unpacked(acc, pos + ItemSize(item));
    }
  }

  method GetAligned(item: Item, h: Header, data: seq<Byte>, pos: nat, acc: seq<Value>) returns (u: Unpacked)
    ensures u == UnpackAligned(item, h, data, pos, acc)
  {
    var at := pos + ItemPadding(item, h, pos);
    if at + ItemSize(item) > |data| {
      return UnpackError(DataTooShort);
    }
    u := GetItem(item, h, data, at, acc);
  }

  method Unpack(fmt0: string, data: seq<Byte>, start: nat) returns (r: Unpacked)
    ensures r == UnpackFrom(Parse(fmt0, DEFAULT_OPTIONS), DEFAULT_OPTIONS, data, start, [])
  {
    ghost var whole := UnpackFrom(Parse(fmt0, DEFAULT_OPTIONS), DEFAULT_OPTIONS, data, start, []);
    var fmt, h, acc := fmt0, DEFAULT_OPTIONS, [];
    var pos: nat := start;
    while fmt != ""
      invariant whole == UnpackFrom(Parse(fmt, h), h, data, pos, acc)
      decreases |fmt|
    {
      var next := ReadOption(fmt, h);
      if next.ItemError? {
        return UnpackError(next.error);
      }
      var u := GetAligned(next.item, h, data, pos, acc);
      if u.UnpackError? {
        return u;
      }
      acc, pos := u.values, u.pos;
      h := HeaderAfter(next.item, h);
      fmt := next.rest;
    }
    r := Unpacked(acc, pos);
  }

  lemma SizeStep(f: Format, h: Header, pos: nat, next: nat)
    requires f.Then? && !f.item.ZString? && f.item != Chars(0)
    requires next == pos + ItemPadding(f.item, h, pos) + ItemSize(f.item)
    ensures SizeFrom(f, h, pos) == SizeFrom(f.rest, HeaderAfter(f.item, h), next)
  {
  }

  method Size(fmt0: string) returns (r: Sized)
    ensures r == SizeFrom(Parse(fmt0, DEFAULT_OPTIONS), DEFAULT_OPTIONS, 0)
  {
    ghost var whole := SizeFrom(Parse(fmt0, DEFAULT_OPTIONS), DEFAULT_OPTIONS, 0);
    var fmt, h := fmt0, DEFAULT_OPTIONS;
    var pos: nat := 0;
    while fmt != ""
      invariant whole == SizeFrom(Parse(fmt, h), h, pos)
      decreases |fmt|
    {
      var next := ReadOption(fmt, h);
      if next.ItemError? {
        return SizeError(next.error);
      }
      if next.item.ZString? || next.item == Chars(0) {
        return SizeError(NoFixedSize);
      }
      var after := pos + ItemPadding(next.item, h, pos) + ItemSize(next.item);
      SizeStep(Parse(fmt, h), h, pos, after);
      pos := after;
      h := HeaderAfter(next.item, h);
      fmt := next.rest;
    }
    r := Sized(pos);
  }
}
