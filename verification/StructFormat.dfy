/** Writing formats: every list of items has a format, and the reader gets the items back from it. */
module StructFormat {
  import opened StructPack
  import opened StructInteger
  import StructAlign

  // ----- Numbers

  function DigitOf(d: nat): char
    requires d < 10
  {
    '0' + d as char
  }

  function Decimal(n: nat): string {
    if n < 10 then [DigitOf(n)] else Decimal(n / 10) + [DigitOf(n % 10)]
  }

  predicate AllDigits(s: string) {
    forall i :: 0 <= i < |s| ==> IsDigit(s[i])
  }

  /** The number that the digits of `s` add to those read before. */
  function ValueFrom(s: string, a: nat): nat
    requires AllDigits(s)
  {
    if s == "" then a else ValueFrom(s[1..], a * 10 + (s[0] - '0') as nat)
  }

  predicate EndsNumber(rest: string) {
    rest == "" || !IsDigit(rest[0])
  }

  lemma {:induction false} DigitsAreRead(s: string, rest: string, a: nat)
    requires AllDigits(s) && EndsNumber(rest)
    ensures Digits(s + rest, a) == (ValueFrom(s, a), rest)
  {
    if s == "" {
      assert s + rest == rest;
    } else {
      assert (s + rest)[1..] == s[1..] + rest;
      DigitsAreRead(s[1..], rest, a * 10 + (s[0] - '0') as nat);
    }
  }

  lemma {:induction false} ValueOfLast(s: string, d: nat, a: nat)
    requires AllDigits(s) && d < 10
    ensures AllDigits(s + [DigitOf(d)]) && ValueFrom(s + [DigitOf(d)], a) == ValueFrom(s, a) * 10 + d
  {
    var t := s + [DigitOf(d)];
    if s == "" {
      assert t == [DigitOf(d)] && t[1..] == "";
    } else {
      assert t[1..] == s[1..] + [DigitOf(d)];
      ValueOfLast(s[1..], d, a * 10 + (s[0] - '0') as nat);
    }
  }

  lemma {:induction false} DecimalIsValue(n: nat)
    ensures AllDigits(Decimal(n)) && Decimal(n) != "" && ValueFrom(Decimal(n), 0) == n
  {
    if n < 10 {
      assert Decimal(n)[1..] == "";
    } else {
      DecimalIsValue(n / 10);
      ValueOfLast(Decimal(n / 10), n % 10, 0);
    }
  }

  /** A number written in decimal is read back, whatever follows that is no digit. */
  lemma NumberIsRead(n: nat, rest: string, default: nat)
    requires EndsNumber(rest)
    ensures GetNum(Decimal(n) + rest, default) == (n, rest)
  {
    DecimalIsValue(n);
    DigitsAreRead(Decimal(n), rest, 0);
  }

  // ----- Items

  /** The items that some option gives: integers of at most 32 bytes, floats, strings, padding and changes of one option. */
  predicate HasText(item: Item, h: Header) {
    match item
    case Integer(_, size) => size <= MAX_INT_SIZE
    case Real(size) => size == 4 || size == 8
    case Control(k) => k.align == h.align || (k.endian == h.endian && StructAlign.IsPowerOf2(k.align))
    case Unknown => false
    case _ => true
  }

  function ItemText(item: Item, h: Header): string
    requires HasText(item, h)
  {
    match item
    case Integer(signed, size) => [if signed then 'i' else 'I'] + Decimal(size)
    case Pad => "x"
    case Real(size) => if size == 4 then "f" else "d"
    case Chars(n) => "c" + Decimal(n)
    case ZString => "s"
    case Control(k) =>
      if k == h then " "
      else if k.align != h.align then "!" + Decimal(k.align)
      else if k.endian == Big then ">" else "<"
  }

  lemma OptionIsRead(c: char, number: nat, rest: string)
    requires EndsNumber(rest)
    ensures ([c] + Decimal(number) + rest)[1..] == Decimal(number) + rest
  {
  }

  lemma IntegerIsRead(signed: bool, size: nat, h: Header, rest: string)
    requires size <= MAX_INT_SIZE && EndsNumber(rest)
    ensures NextItem([if signed then 'i' else 'I'] + Decimal(size) + rest, h) == Item(Integer(signed, size), rest)
  {
    OptionIsRead(if signed then 'i' else 'I', size, rest);
    NumberIsRead(size, rest, INT_SIZE);
  }

  lemma CharsAreRead(n: nat, h: Header, rest: string)
    requires EndsNumber(rest)
    ensures NextItem("c" + Decimal(n) + rest, h) == Item(Chars(n), rest)
  {
    OptionIsRead('c', n, rest);
    NumberIsRead(n, rest, 1);
  }

  lemma AlignmentIsRead(a: nat, h: Header, rest: string)
    requires StructAlign.IsPowerOf2(a) && EndsNumber(rest)
    ensures NextItem("!" + Decimal(a) + rest, h) == Item(Control(h.(align := a)), rest)
  {
    OptionIsRead('!', a, rest);
    NumberIsRead(a, rest, MAX_ALIGN);
  }

  /** The other options are single characters. */
  predicate IsSingle(item: Item, h: Header) {
    !item.Integer? && !item.Chars? && (item.Control? ==> item.h.align == h.align)
  }

  lemma SingleIsRead(item: Item, h: Header, rest: string)
    requires HasText(item, h) && IsSingle(item, h)
    ensures NextItem(ItemText(item, h) + rest, h) == Item(item, rest)
  {
    var c := ItemText(item, h)[0];
    assert ItemText(item, h) == [c];
    assert ([c] + rest)[1..] == rest;
  }

  /** The option of an item is read as that item, and exactly its characters are taken. */
  lemma ItemIsRead(item: Item, h: Header, rest: string)
    requires HasText(item, h) && EndsNumber(rest)
    ensures NextItem(ItemText(item, h) + rest, h) == Item(item, rest)
  {
    if IsSingle(item, h) {
      SingleIsRead(item, h, rest);
    } else {
      match item
      case Integer(signed, size) => IntegerIsRead(signed, size, h, rest);
      case Chars(n) => CharsAreRead(n, h, rest);
      case Control(k) => AlignmentIsRead(k.align, h, rest);
    }
  }

  /** The letters for integers of fixed size: lower case for signed ones. */
  function LetterSize(c: char): nat {
    match c
    case 'b' => 1
    case 'B' => 1
    case 'h' => 2
    case 'H' => 2
    case 'l' => 8
    case 'L' => 8
    case 'T' => 8
    case _ => 0
  }

  /** A letter stands for the same integer with its size written out. */
  lemma LetterIsSized(c: char, rest: string, h: Header)
    requires LetterSize(c) > 0 && EndsNumber(rest)
    ensures
      var item := Integer('a' <= c <= 'z', LetterSize(c));
      NextItem([c] + rest, h) == NextItem(ItemText(item, h) + rest, h) == Item(item, rest)
  {
    ItemIsRead(Integer('a' <= c <= 'z', LetterSize(c)), h, rest);
    assert ([c] + rest)[1..] == rest;
  }

  /** Options that may have a number, written without one. */
  lemma DefaultsAreRead(rest: string, h: Header)
    requires EndsNumber(rest)
    ensures NextItem("i" + rest, h) == Item(Integer(true, 4), rest)
    ensures NextItem("I" + rest, h) == Item(Integer(false, 4), rest)
    ensures NextItem("c" + rest, h) == Item(Chars(1), rest)
  {
    assert ("i" + rest)[1..] == rest && ("I" + rest)[1..] == rest && ("c" + rest)[1..] == rest;
  }

  lemma DefaultAlignmentIsRead(rest: string, h: Header)
    requires EndsNumber(rest)
    ensures NextItem("!" + rest, h) == Item(Control(h.(align := 8)), rest)
  {
    assert ("!" + rest)[1..] == rest;
    assert StructAlign.And(8, 7) == 0;
  }

  /** An integer of more than 32 bytes is refused. */
  lemma LargeIsRefused(n: nat, rest: string, h: Header)
    requires EndsNumber(rest)
    ensures NextItem("i" + Decimal(n) + rest, h) == ItemError(SizeTooLarge) <==> n > 32
    ensures NextItem("I" + Decimal(n) + rest, h) == ItemError(SizeTooLarge) <==> n > 32
  {
    OptionIsRead('i', n, rest);
    OptionIsRead('I', n, rest);
    NumberIsRead(n, rest, INT_SIZE);
  }

  /** A character that is no option is passed over as an unknown one exactly when it is a letter or a digit. */
  lemma OtherCharacters(c: char, rest: string, h: Header)
    requires c !in "bBhHlLTiIfdxcs ><!"
    ensures NextItem([c] + rest, h) ==
      if '0' <= c <= '9' || 'A' <= c <= 'Z' || 'a' <= c <= 'z' then Item(Unknown, rest) else ItemError(InvalidOption)
  {
    assert ([c] + rest)[1..] == rest;
    NoOption(c);
  }

  lemma NoOption(c: char)
    requires c !in "bBhHlLTiIfdxcs ><!"
    ensures c != 'b' && c != 'B' && c != 'h' && c != 'H' && c != 'l' && c != 'L' && c != 'T' && c != 'i' && c != 'I'
    ensures c != 'f' && c != 'd' && c != 'x' && c != 'c' && c != 's' && c != ' ' && c != '>' && c != '<' && c != '!'
  {
  }

  // ----- Formats

  predicate Writable(f: Format, h: Header) {
    match f
    case End => true
    case Broken(_) => false
    case Then(item, rest) => HasText(item, h) && Writable(rest, HeaderAfter(item, h))
  }

  function FormatText(f: Format, h: Header): string
    requires Writable(f, h)
  {
    if f.End? then "" else ItemText(f.item, h) + FormatText(f.rest, HeaderAfter(f.item, h))
  }

  lemma NoLeadingDigit(f: Format, h: Header)
    requires Writable(f, h)
    ensures EndsNumber(FormatText(f, h))
  {
    if f.Then? {
      assert !IsDigit(ItemText(f.item, h)[0]);
    }
  }

  /** The reader gets back from a written format exactly its items, options and all. */
  lemma {:induction false} FormatIsRead(f: Format, h: Header)
    requires Writable(f, h)
    ensures Parse(FormatText(f, h), h) == f
  {
    if f.End? {
    } else {
      var after := HeaderAfter(f.item, h);
      NoLeadingDigit(f.rest, after);
      ItemIsRead(f.item, h, FormatText(f.rest, after));
      FormatIsRead(f.rest, after);
    }
  }
}
