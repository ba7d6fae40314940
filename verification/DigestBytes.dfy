/** The bytes of a digest and of the length field, read back as the standards define them. */
module DigestBytes {
  import opened Bytes
  import opened Digest
  import Sha1
  import Md5

  /** The four bytes from `i` on as a word, least significant first. */
  function WordLittle(s: seq<Byte>, i: nat): nat
    requires i + 4 <= |s|
  {
    s[i] as int + 0x100 * s[i + 1] as int + 0x1_0000 * s[i + 2] as int + 0x100_0000 * s[i + 3] as int
  }

  /** The four bytes from `i` on as a word, most significant first. */
  function WordBig(s: seq<Byte>, i: nat): nat
    requires i + 4 <= |s|
  {
    0x100_0000 * s[i] as int + 0x1_0000 * s[i + 1] as int + 0x100 * s[i + 2] as int + s[i + 3] as int
  }

  /** A word is the sum of its bytes. */
  lemma BytesOfWord(w: Word)
    ensures ByteOf(w, 0) + 0x100 * ByteOf(w, 1) + 0x1_0000 * ByteOf(w, 2) + 0x100_0000 * ByteOf(w, 3) == w
  {
    var a := w / 256;
    var b := a / 256;
    var c := b / 256;
    assert ByteOf(w, 1) == a % 256;
    assert ByteOf(w, 2) == ByteOf(a, 1) == b % 256;
    assert ByteOf(w, 3) == ByteOf(a, 2) == ByteOf(b, 1) == c % 256 == c;
    assert b == 256 * c + b % 256 && a == 256 * b + a % 256;
  }

  lemma {:induction false} LittleReadsBack(words: seq<Word>, k: nat, at: nat)
    requires k < |words| && at == 4 * k
    ensures WordLittle(WordsLittle(words), at) == words[k]
  {
    var n := |words| - 1;
    if k == n {
      BytesOfWord(words[k]);
    } else {
      LittleReadsBack(words[..n], k, at);
      assert WordLittle(WordsLittle(words), at) == WordLittle(WordsLittle(words[..n]), at);
    }
  }

  lemma {:induction false} BigReadsBack(words: seq<Word>, k: nat, at: nat)
    requires k < |words| && at == 4 * k
    ensures WordBig(WordsBig(words), at) == words[k]
  {
    var n := |words| - 1;
    if k == n {
      BytesOfWord(words[k]);
    } else {
      BigReadsBack(words[..n], k, at);
      assert WordBig(WordsBig(words), at) == WordBig(WordsBig(words[..n]), at);
    }
  }

  /** The two words of the bit count are the 64-bit count. */
  lemma CountOfWords(n: nat)
    ensures LowBits(n) + 0x1_0000_0000 * HighBits(n) == 8 * n % 0x1_0000_0000_0000_0000
  {
    var q := 8 * n / 0x1_0000_0000;
    assert 8 * n == 0x1_0000_0000 * q + LowBits(n);
    var h := q / 0x1_0000_0000;
    assert q == 0x1_0000_0000 * h + HighBits(n);
  }

  /** The last eight bytes of the padded message. */
  lemma LengthIsLast(message: seq<Byte>, length: seq<Byte>, padded: seq<Byte>, at: nat)
    requires |length| == 8 && padded == message + Padding(|message|, length) && at == |padded| - 8
    ensures |padded| % 64 == 0 && padded[at..] == length && message < padded
  {
  }

  // ----- MD5 (sections 3.2 and 3.4 of RFC 1321)

  /** The message padded as MD5 pads it ends in the number of its bits modulo 2^64, least significant byte first. */
  lemma Md5LengthField(message: seq<Byte>, padded: seq<Byte>, at: nat)
    requires padded == message + Padding(|message|, Md5.Length64(|message|)) && at == |padded| - 8
    ensures |padded| % 64 == 0 && message < padded
    ensures WordLittle(padded, at) + 0x1_0000_0000 * WordLittle(padded, at + 4) == 8 * |message| % 0x1_0000_0000_0000_0000
  {
    var n := |message|;
    var length := Md5.Length64(n);
    LengthIsLast(message, length, padded, at);
    assert forall i :: 0 <= i < 8 ==> padded[at + i] == length[i];
    BytesOfWord(LowBits(n));
    BytesOfWord(HighBits(n));
    CountOfWords(n);
  }

  /** Each four bytes of an MD5 digest are a word of the last chaining state, least significant byte first. */
  lemma Md5DigestWords(f: Transform<Md5.State>, message: seq<Byte>, padded: seq<Byte>, k: nat, at: nat)
    requires padded == message + Padding(|message|, Md5.Length64(|message|)) && k < 4 && at == 4 * k
    ensures |Md5.DigestOf(f, message)| == 16
    ensures WordLittle(Md5.DigestOf(f, message), at) == Chain(f, Md5.INITIAL, padded)[k]
  {
    LittleReadsBack(Chain(f, Md5.INITIAL, padded), k, at);
  }

  // ----- SHA-1 (sections 4 and 6.1 of RFC 3174)

  /** The message padded as SHA-1 pads it ends in the number of its bits modulo 2^64, most significant byte first. */
  lemma Sha1LengthField(message: seq<Byte>, padded: seq<Byte>, at: nat)
    requires padded == message + Padding(|message|, Sha1.Length64(|message|)) && at == |padded| - 8
    ensures |padded| % 64 == 0 && message < padded
    ensures 0x1_0000_0000 * WordBig(padded, at) + WordBig(padded, at + 4) == 8 * |message| % 0x1_0000_0000_0000_0000
  {
    var n := |message|;
    var length := Sha1.Length64(n);
    LengthIsLast(message, length, padded, at);
    assert forall i :: 0 <= i < 8 ==> padded[at + i] == length[i];
    BigReadsBack([HighBits(n), LowBits(n)], 0, 0);
    BigReadsBack([HighBits(n), LowBits(n)], 1, 4);
    CountOfWords(n);
  }

  /** Each four bytes of a SHA-1 digest are a word of the last chaining state, most significant byte first. */
  lemma Sha1DigestWords(f: Transform<Sha1.State>, message: seq<Byte>, padded: seq<Byte>, k: nat, at: nat)
    requires padded == message + Padding(|message|, Sha1.Length64(|message|)) && k < 5 && at == 4 * k
    ensures |Sha1.DigestOf(f, message)| == 20
    ensures WordBig(Sha1.DigestOf(f, message), at) == Chain(f, Sha1.INITIAL, padded)[k]
  {
    BigReadsBack(Chain(f, Sha1.INITIAL, padded), k, at);
  }

  /** The initial words of MD5, in the byte order in which RFC 1321 lists them. */
  lemma Md5InitialBytes()
    ensures WordsLittle(Md5.INITIAL) ==
      [0x01, 0x23, 0x45, 0x67, 0x89, 0xab, 0xcd, 0xef, 0xfe, 0xdc, 0xba, 0x98, 0x76, 0x54, 0x32, 0x10]
  {
    FourWords(Md5.INITIAL);
    InitialWords();
  }

  lemma InitialWords()
    ensures WordBytesLittle(0x67452301) == [0x01, 0x23, 0x45, 0x67] && WordBytesLittle(0xefcdab89) == [0x89, 0xab, 0xcd, 0xef]
    ensures WordBytesLittle(0x98badcfe) == [0xfe, 0xdc, 0xba, 0x98] && WordBytesLittle(0x10325476) == [0x76, 0x54, 0x32, 0x10]
  {
  }

  lemma FourWords(w: Md5.State)
    ensures WordsLittle(w) == WordBytesLittle(w[0]) + WordBytesLittle(w[1]) + WordBytesLittle(w[2]) + WordBytesLittle(w[3])
  {
    var one, two, three := w[..1], w[..2], w[..3];
    assert one[..0] == [] && two[..1] == one && three[..2] == two;
    assert WordsLittle(one) == WordBytesLittle(w[0]);
    assert WordsLittle(two) == WordsLittle(one) + WordBytesLittle(w[1]);
    assert WordsLittle(three) == WordsLittle(two) + WordBytesLittle(w[2]);
  }
}
