/** Block digests: what a digest of a message is, whatever the pieces in which the message arrives. */
module Digest {
  import opened Bytes

  type Word = w: int | 0 <= w < 0x1_0000_0000

  /** The block transform of a digest; its rounds are not part of this model. */
  type Transform<!S> = (S, seq<Byte>) -> S

  /** The chaining state after all the complete blocks at the head of the message. */
  function Chain<S>(f: Transform<S>, state: S, message: seq<Byte>): S
    decreases |message|
  {
    if |message| < 64 then state else Chain(f, f(state, message[..64]), message[64..])
  }

  /** What does not fill a block yet. */
  function Tail(message: seq<Byte>): (t: seq<Byte>)
    ensures |t| == |message| % 64
  {
    message[|message| - |message| % 64..]
  }

  lemma ModAddMultiple(q: int, m: int)
    ensures (q + 64 * m) % 64 == q % 64
  {
  }

  lemma TailAppend(a: seq<Byte>, b: seq<Byte>)
    ensures Tail(a + b) == Tail(Tail(a) + b)
  {
    var t, m := Tail(a), |a| / 64;
    assert |a| == 64 * m + |t|;
    ModAddMultiple(|t| + |b|, m);
    assert a + b == a[..|a| - |t|] + (t + b);
  }

  lemma {:induction false} ChainAppend<S>(f: Transform<S>, state: S, a: seq<Byte>, b: seq<Byte>)
    ensures Chain(f, state, a + b) == Chain(f, Chain(f, state, a), Tail(a) + b)
    decreases |a|
  {
    if |a| < 64 {
      assert Tail(a) == a;
    } else {
      assert (a + b)[..64] == a[..64] && (a + b)[64..] == a[64..] + b;
      ChainAppend(f, f(state, a[..64]), a[64..], b);
      TailDrop(a);
    }
  }

  lemma TailDrop(m: seq<Byte>)
    requires |m| >= 64
    ensures Tail(m) == Tail(m[64..])
  {
    assert |m[64..]| % 64 == |m| % 64;
  }

  /** With the chaining state at `state`, the bytes of `rest` are all that is left to do of `total`. */
  ghost predicate Pending<S>(f: Transform<S>, initial: S, total: seq<Byte>, state: S, rest: seq<Byte>) {
    Chain(f, state, rest) == Chain(f, initial, total) && Tail(rest) == Tail(total)
  }

  lemma PendingStart<S>(f: Transform<S>, initial: S, message: seq<Byte>, data: seq<Byte>)
    ensures Pending(f, initial, message + data, Chain(f, initial, message), Tail(message) + data)
  {
    ChainAppend(f, initial, message, data);
    TailAppend(message, data);
  }

  lemma PendingBlock<S>(f: Transform<S>, initial: S, total: seq<Byte>, state: S, rest: seq<Byte>)
    requires Pending(f, initial, total, state, rest) && |rest| >= 64
    ensures Pending(f, initial, total, f(state, rest[..64]), rest[64..])
  {
    TailDrop(rest);
  }

  lemma PendingEnd<S>(f: Transform<S>, initial: S, total: seq<Byte>, state: S, rest: seq<Byte>)
    requires Pending(f, initial, total, state, rest) && |rest| < 64
    ensures state == Chain(f, initial, total) && rest == Tail(total)
  {
    assert Tail(rest) == rest;
  }

  // ----- The bit count, kept in two words

  function LowBits(n: nat): Word {
    8 * n % 0x1_0000_0000
  }

  function HighBits(n: nat): Word {
    8 * n / 0x1_0000_0000 % 0x1_0000_0000
  }

  lemma ModAdd(a: nat, b: nat, c: nat)
    requires c == 0 || c == 1
    ensures ((a % 0x1_0000_0000 + c) % 0x1_0000_0000 + b) % 0x1_0000_0000 == (a + c + b) % 0x1_0000_0000
  {
    var q, r := a / 0x1_0000_0000, a % 0x1_0000_0000;
    assert a == q * 0x1_0000_0000 + r;
  }

  /** The carry test of the update keeps the two words equal to the 64-bit count of message bits. */
  lemma CountAdds(n: nat, len: nat)
    requires len < 0x1_0000_0000
    ensures
      var low := (LowBits(n) + 8 * len % 0x1_0000_0000) % 0x1_0000_0000;
      var carried := if low < LowBits(n) then (HighBits(n) + 1) % 0x1_0000_0000 else HighBits(n);
      low == LowBits(n + len) && (carried + len / 0x2000_0000) % 0x1_0000_0000 == HighBits(n + len)
  {
    var a, c0 := 8 * n / 0x1_0000_0000, 8 * n % 0x1_0000_0000;
    var b, d := len / 0x2000_0000, 8 * len % 0x1_0000_0000;
    assert 8 * len == b * 0x1_0000_0000 + d;
    assert 8 * (n + len) == (a + b) * 0x1_0000_0000 + (c0 + d);
    var carry := if c0 + d < 0x1_0000_0000 then 0 else 1;
    assert 8 * (n + len) / 0x1_0000_0000 == a + b + carry;
    ModAdd(a, b, carry);
  }

  lemma LowBitsPosition(n: nat)
    ensures LowBits(n) / 8 % 64 == n % 64
  {
    var a := 8 * n / 0x1_0000_0000;
    var q := n - a * 0x2000_0000;
    assert LowBits(n) == 8 * q;
    assert n == q + 64 * (a * 0x80_0000);
    ModAddMultiple(q, a * 0x80_0000);
  }

  // ----- Padding

  function WordBytesLittle(w: Word): seq<Byte> {
    [ByteOf(w, 0), ByteOf(w, 1), ByteOf(w, 2), ByteOf(w, 3)]
  }

  function WordBytesBig(w: Word): seq<Byte> {
    [ByteOf(w, 3), ByteOf(w, 2), ByteOf(w, 1), ByteOf(w, 0)]
  }

  function WordsBig(words: seq<Word>): (s: seq<Byte>)
    ensures |s| == 4 * |words|
  {
    if words == [] then [] else WordsBig(words[..|words| - 1]) + WordBytesBig(words[|words| - 1])
  }

  function WordsLittle(words: seq<Word>): (s: seq<Byte>)
    ensures |s| == 4 * |words|
  {
    if words == [] then [] else WordsLittle(words[..|words| - 1]) + WordBytesLittle(words[|words| - 1])
  }

  /** A one bit, as many zeros as needed, and the 64-bit length of the message complete the last block. */
  function Padding(n: nat, length: seq<Byte>): (p: seq<Byte>)
    requires |length| == 8
    ensures (n + |p|) % 64 == 0 && 9 <= |p| <= 72
  {
    [0x80] + Zeros((55 - n) % 64) + length
  }

  lemma ZerosStep(m: seq<Byte>, k: nat)
    ensures m + Zeros(k) + [0] == m + Zeros(k + 1)
  {
    assert Zeros(k) + [0] == Zeros(k + 1);
  }

  lemma PaddingParts(m: seq<Byte>, length: seq<Byte>)
    requires |length| == 8
    ensures m + [0x80] + Zeros((55 - |m|) % 64) + length == m + Padding(|m|, length)
  {
  }

  /** Where the zeros of the padding stop. */
  lemma PaddingStops(n: nat, k: nat)
    requires k <= (55 - n) % 64
    ensures (n + 1 + k) % 64 == 56 <==> k == (55 - n) % 64
  {
    var q := n / 64;
    assert n == 64 * q + n % 64;
  }

  lemma PaddingPosition(n: nat)
    ensures (55 - n) % 64 == (55 - n % 64) % 64
  {
    var q := n / 64;
    assert n == 64 * q + n % 64;
  }

  /** The padding completes one block, or one block and a second one that begins with 56 zeros. */
  lemma LastBlocks(kept: seq<Byte>, length: seq<Byte>)
    requires |kept| < 64 && |length| == 8
    ensures
      var rest := kept + Padding(|kept|, length);
      if |kept| <= 55 then rest == kept + [0x80] + Zeros(55 - |kept|) + length
      else rest[..64] == kept + [0x80] + Zeros(63 - |kept|) && rest[64..] == Zeros(56) + length && |rest| == 128
  {
    var zeros := (55 - |kept|) % 64;
    if |kept| > 55 {
      assert zeros == 119 - |kept|;
      assert Zeros(zeros) == Zeros(63 - |kept|) + Zeros(56);
    }
  }
}

/** SHA-1 contexts (section 4 of RFC 3174). */
module Sha1 {
  import opened Basics
  import opened Bytes
  import opened Digest

  type State = s: seq<Word> | |s| == 5 witness [0, 0, 0, 0, 0]

  const INITIAL: State := [0x67452301, 0xEFCDAB89, 0x98BADCFE, 0x10325476, 0xC3D2E1F0]

  /** The largest length for which the 32-bit index of the update does not wrap around. */
  const MAX_UPDATE: int := 0xffff_ffc0

  function Length64(n: nat): (s: seq<Byte>)
    ensures |s| == 8
  {
    WordsBig([HighBits(n), LowBits(n)])
  }

  /** The digest that the standard defines: chain over the padded message, then write the words out. */
  function DigestOf(f: Transform<State>, message: seq<Byte>): seq<Byte> {
    WordsBig(Chain(f, INITIAL, message + Padding(|message|, Length64(|message|))))
  }

  class Context {
    const transform: Transform<State>
    var state: State
    var count0: Word
    var count1: Word
    const buffer: array<Byte>
    /** Everything passed to Update so far. */
    ghost var message: seq<Byte>

    ghost predicate Valid()
      reads this, buffer
    {
      && buffer.Length == 64
      && state == Chain(transform, INITIAL, message)
      && count0 == LowBits(|message|) && count1 == HighBits(|message|)
      && buffer[..|message| % 64] == Tail(message)
    }

    constructor (transform: Transform<State>)
      ensures Valid() && message == [] && fresh(buffer) && this.transform == transform
    {
      this.transform := transform;
      state := INITIAL;
      count0, count1 := 0, 0;
      buffer := new Byte[64](_ => 0);
      message := [];
    }

    method Count(len: nat)
      requires len < 0x1_0000_0000
      requires count0 == LowBits(|message|) && count1 == HighBits(|message|)
      modifies this`count0, this`count1
      ensures count0 == LowBits(|message| + len) && count1 == HighBits(|message| + len)
    {
      CountAdds(|message|, len);
      var j := count0;
      count0 := (count0 + 8 * len % 0x1_0000_0000) % 0x1_0000_0000;
      if count0 < j {
        count1 := (count1 + 1) % 0x1_0000_0000;
      }
      count1 := (count1 + len / 0x2000_0000) % 0x1_0000_0000;
    }

    method Update(data: seq<Byte>)
      requires Valid() && |data| <= MAX_UPDATE
      modifies this, buffer
      ensures Valid() && message == old(message) + data
    {
      var len, i := |data|, 0;
      ghost var total := message + data;
      PendingStart(transform, INITIAL, message, data);
      LowBitsPosition(|message|);
      var j := count0 / 8 % 64;
      Count(len);
      if j + len > 63 {
        i := 64 - j;
        FirstBlock(j, data, total);
        i := Blocks(i, data, total);
        j := 0;
      }
      assert j == 0 ==> buffer[..j] + data[i..] == data[i..];
      Keep(j, data[i..], total);
    }

    /** Leaves in the buffer what does not fill a block. */
    method Keep(j: nat, rest: seq<Byte>, ghost total: seq<Byte>)
      requires buffer.Length == 64 && j + |rest| < 64
      requires count0 == LowBits(|total|) && count1 == HighBits(|total|)
      requires Pending(transform, INITIAL, total, state, buffer[..j] + rest)
      modifies buffer, this`message
      ensures Valid() && message == total
    {
      PendingEnd(transform, INITIAL, total, state, buffer[..j] + rest);
      Fill(j, rest);
      message := total;
    }

    /** Transforms the blocks that lie whole in the data. */
    method Blocks(start: nat, data: seq<Byte>, ghost total: seq<Byte>) returns (i: nat)
      requires start <= |data| && Pending(transform, INITIAL, total, state, data[start..])
      modifies this`state
      ensures i <= |data| < i + 64 && Pending(transform, INITIAL, total, state, data[i..])
    {
      i := start;
      while i + 63 < |data|
        invariant i <= |data| && Pending(transform, INITIAL, total, state, data[i..])
      {
        PendingBlock(transform, INITIAL, total, state, data[i..]);
        assert data[i..][..64] == data[i..i + 64] && data[i..][64..] == data[i + 64..];
        state := transform(state, data[i..i + 64]);
        i := i + 64;
      }
    }

    /** Completes the block in the buffer and transforms it. */
    method FirstBlock(j: nat, data: seq<Byte>, ghost total: seq<Byte>)
      requires buffer.Length == 64 && j < 64 <= j + |data|
      requires Pending(transform, INITIAL, total, state, buffer[..j] + data)
      modifies this`state, buffer
      ensures Pending(transform, INITIAL, total, state, data[64 - j..])
    {
      var i := 64 - j;
      ghost var rest := buffer[..j] + data;
      PendingBlock(transform, INITIAL, total, state, rest);
      assert rest[..64] == buffer[..j] + data[..i] && rest[64..] == data[i..];
      Fill(j, data[..i]);
      assert buffer[..] == buffer[..j + i];
      state := transform(state, buffer[..]);
    }

    /** Copies bytes into the block buffer. */
    method Fill(at: nat, bytes: seq<Byte>)
      requires at + |bytes| <= buffer.Length
      modifies buffer
      ensures buffer[..at + |bytes|] == old(buffer[..at]) + bytes
      ensures buffer[at + |bytes|..] == old(buffer[at + |bytes|..])
    {
      forall k | 0 <= k < |bytes| { buffer[at + k] := bytes[k]; }
    }

    /** The bit count in network byte order. */
    method LengthBytes() returns (finalcount: seq<Byte>)
      ensures finalcount == WordsBig([count1, count0])
    {
      finalcount := [];
      for i := 0 to 8
        invariant |finalcount| == i
        invariant forall k :: 0 <= k < i ==> finalcount[k] == ByteOf(if k >= 4 then count0 else count1, 3 - k % 4)
      {
        finalcount := finalcount + [ByteOf(if i >= 4 then count0 else count1, 3 - i % 4)];
      }
      assert [count1, count0][..1] == [count1];
      assert WordsBig([count1]) == WordBytesBig(count1) by { assert [count1][..0] == []; }
    }

    method PadToLength()
      requires Valid()
      modifies this, buffer
      ensures Valid()
      ensures message == old(message) + [0x80] + Zeros((55 - |old(message)|) % 64)
    {
      ghost var m := message;
      Update([0x80]);
      ghost var k := 0;
      LowBitsPosition(|message|);
      while count0 / 8 % 64 * 8 != 448
        invariant Valid() && 0 <= k <= (55 - |m|) % 64
        invariant message == m + [0x80] + Zeros(k)
        invariant count0 / 8 % 64 == (|m| + 1 + k) % 64
        decreases (55 - |m|) % 64 - k
      {
        PaddingStops(|m|, k);
        ZerosStep(m + [0x80], k);
        Update([0]);
        k := k + 1;
        LowBitsPosition(|message|);
      }
      PaddingStops(|m|, k);
    }

    /** Pads, adds the length, and hands out the digest; the context is erased. */
    method Final() returns (digest: seq<Byte>)
      requires Valid()
      modifies this, buffer
      ensures digest == DigestOf(transform, old(message))
      ensures state == [0, 0, 0, 0, 0] && count0 == 0 && count1 == 0
      ensures forall k :: 0 <= k < buffer.Length ==> buffer[k] == 0
    {
      FinishMessage();
      digest := WordBytes();
      state := [0, 0, 0, 0, 0];
      count0, count1 := 0, 0;
      forall k | 0 <= k < buffer.Length { buffer[k] := 0; }
    }

    method FinishMessage()
      requires Valid()
      modifies this, buffer
      ensures Valid()
      ensures message == old(message) + Padding(|old(message)|, Length64(|old(message)|))
    {
      ghost var m := message;
      var finalcount := LengthBytes();
      PaddingParts(m, finalcount);
      PadToLength();
      Update(finalcount);
    }

    method WordBytes() returns (digest: seq<Byte>)
      ensures digest == WordsBig(state)
    {
      digest := [];
      var i := 0;
      while i < 5
        invariant i <= 5 && digest == WordsBig(state[..i])
      {
        assert state[..i + 1][..i] == state[..i];
        digest := digest + WordBytesBig(state[i]);
        i := i + 1;
      }
      assert state[..i] == state;
    }
  }

  /** The digest does not depend on the pieces in which the message is passed. */
  method DigestChunks(f: Transform<State>, chunks: seq<seq<Byte>>) returns (digest: seq<Byte>)
    requires forall k :: 0 <= k < |chunks| ==> |chunks[k]| <= MAX_UPDATE
    ensures digest == DigestOf(f, Flatten(chunks))
  {
    var context := new Context(f);
    for i := 0 to |chunks|
      invariant fresh(context) && fresh(context.buffer) && context.Valid() && context.transform == f
      invariant context.message == Flatten(chunks[..i])
    {
      assert chunks[..i + 1][..i] == chunks[..i];
      context.Update(chunks[i]);
    }
    assert chunks[..|chunks|] == chunks;
    digest := context.Final();
  }
}

/** MD5 contexts (sections 3.1 and 3.2 of RFC 1321). */
module Md5 {
  import opened Basics
  import opened Bytes
  import opened Digest

  type State = s: seq<Word> | |s| == 4 witness [0, 0, 0, 0]

  const INITIAL: State := [0x67452301, 0xefcdab89, 0x98badcfe, 0x10325476]

  function Length64(n: nat): (s: seq<Byte>)
    ensures |s| == 8
  {
    WordBytesLittle(LowBits(n)) + WordBytesLittle(HighBits(n))
  }

  /** The digest that the standard defines: chain over the padded message, then write the words out. */
  function DigestOf(f: Transform<State>, message: seq<Byte>): seq<Byte> {
    WordsLittle(Chain(f, INITIAL, message + Padding(|message|, Length64(|message|))))
  }

  class Context {
    const transform: Transform<State>
    var buf: State
    var bits0: Word
    var bits1: Word
    const in_: array<Byte>
    /** Everything passed to Update so far. */
    ghost var message: seq<Byte>

    ghost predicate Valid()
      reads this, in_
    {
      && in_.Length == 64
      && buf == Chain(transform, INITIAL, message)
      && bits0 == LowBits(|message|) && bits1 == HighBits(|message|)
      && in_[..|message| % 64] == Tail(message)
    }

    constructor (transform: Transform<State>)
      ensures Valid() && message == [] && fresh(in_) && this.transform == transform
    {
      this.transform := transform;
      buf := INITIAL;
      bits0, bits1 := 0, 0;
      in_ := new Byte[64](_ => 0);
      message := [];
    }

    method Count(len: nat)
      requires len < 0x1_0000_0000
      requires bits0 == LowBits(|message|) && bits1 == HighBits(|message|)
      modifies this`bits0, this`bits1
      ensures bits0 == LowBits(|message| + len) && bits1 == HighBits(|message| + len)
    {
      CountAdds(|message|, len);
      var t := bits0;
      bits0 := (t + 8 * len % 0x1_0000_0000) % 0x1_0000_0000;
      if bits0 < t {
        bits1 := (bits1 + 1) % 0x1_0000_0000;
      }
      bits1 := (bits1 + len / 0x2000_0000) % 0x1_0000_0000;
    }

    method Update(data: seq<Byte>)
      requires Valid() && |data| < 0x1_0000_0000
      modifies this, in_
      ensures Valid() && message == old(message) + data
    {
      ghost var total := message + data;
      PendingStart(transform, INITIAL, message, data);
      LowBitsPosition(|message|);
      var t := bits0 / 8 % 64;
      Count(|data|);
      var rest := data;
      if t != 0 {
        if |data| < 64 - t {
          Keep(t, data, total);
          return;
        }
        FirstBlock(t, data, total);
        rest := data[64 - t..];
      } else {
        assert in_[..t] + data == data;
      }
      rest := Blocks(rest, total);
      assert in_[..0] + rest == rest;
      Keep(0, rest, total);
    }

    /** Leaves in the buffer what does not fill a block. */
    method Keep(t: nat, rest: seq<Byte>, ghost total: seq<Byte>)
      requires in_.Length == 64 && t + |rest| < 64
      requires bits0 == LowBits(|total|) && bits1 == HighBits(|total|)
      requires Pending(transform, INITIAL, total, buf, in_[..t] + rest)
      modifies in_, this`message
      ensures Valid() && message == total
    {
      PendingEnd(transform, INITIAL, total, buf, in_[..t] + rest);
      Fill(t, rest);
      message := total;
    }

    /** Transforms whole blocks, each one copied into the buffer first. */
    method Blocks(data: seq<Byte>, ghost total: seq<Byte>) returns (rest: seq<Byte>)
      requires in_.Length == 64 && Pending(transform, INITIAL, total, buf, data)
      modifies this`buf, in_
      ensures |rest| < 64 && Pending(transform, INITIAL, total, buf, rest)
    {
      rest := data;
      while |rest| >= 64
        invariant Pending(transform, INITIAL, total, buf, rest)
      {
        PendingBlock(transform, INITIAL, total, buf, rest);
        Fill(0, rest[..64]);
        assert in_[..] == in_[..64] == rest[..64];
        buf := transform(buf, in_[..]);
        rest := rest[64..];
      }
    }

    /** Completes the block in the buffer and transforms it. */
    method FirstBlock(t: nat, data: seq<Byte>, ghost total: seq<Byte>)
      requires in_.Length == 64 && t < 64 <= t + |data|
      requires Pending(transform, INITIAL, total, buf, in_[..t] + data)
      modifies this`buf, in_
      ensures Pending(transform, INITIAL, total, buf, data[64 - t..])
    {
      ghost var rest := in_[..t] + data;
      PendingBlock(transform, INITIAL, total, buf, rest);
      assert rest[..64] == in_[..t] + data[..64 - t] && rest[64..] == data[64 - t..];
      Fill(t, data[..64 - t]);
      assert in_[..] == in_[..64];
      buf := transform(buf, in_[..]);
    }

    /** Copies bytes into the block buffer. */
    method Fill(at: nat, bytes: seq<Byte>)
      requires at + |bytes| <= in_.Length
      modifies in_
      ensures in_[..at + |bytes|] == old(in_[..at]) + bytes
      ensures in_[at + |bytes|..] == old(in_[at + |bytes|..])
    {
      forall k | 0 <= k < |bytes| { in_[at + k] := bytes[k]; }
    }

    /** Writes the padding into the buffer, in one block or two, and hands out the digest; the context is erased. */
    method Final() returns (digest: seq<Byte>)
      requires Valid()
      modifies this, in_
      ensures digest == DigestOf(transform, old(message))
      ensures buf == [0, 0, 0, 0] && bits0 == 0 && bits1 == 0
      ensures forall k :: 0 <= k < in_.Length ==> in_[k] == 0
    {
      FinishBlocks();
      digest := WordBytes();
      buf := [0, 0, 0, 0];
      bits0, bits1 := 0, 0;
      forall k | 0 <= k < in_.Length { in_[k] := 0; }
    }

    method FinishBlocks()
      requires Valid()
      modifies this`buf, in_
      ensures buf == Chain(transform, INITIAL, message + Padding(|message|, Length64(|message|)))
    {
      ghost var pad := Padding(|message|, Length64(|message|));
      PendingStart(transform, INITIAL, message, pad);
      LowBitsPosition(|message|);
      var count := bits0 / 8 % 64;
      PaddingPosition(|message|);
      assert pad == Padding(count, WordBytesLittle(bits0) + WordBytesLittle(bits1));
      PadBlocks(count, message + pad);
      PendingEnd(transform, INITIAL, message + pad, buf, []);
    }

    method PadBlocks(count: nat, ghost total: seq<Byte>)
      requires in_.Length == 64 && count < 64
      requires Pending(transform, INITIAL, total, buf,
        in_[..count] + Padding(count, WordBytesLittle(bits0) + WordBytesLittle(bits1)))
      modifies this`buf, in_
      ensures Pending(transform, INITIAL, total, buf, [])
    {
      ghost var kept, length := in_[..count], WordBytesLittle(bits0) + WordBytesLittle(bits1);
      LastBlocks(kept, length);
      Fill(count, [0x80]);
      var left := 64 - 1 - count;
      if left < 8 {
        Fill(count + 1, Zeros(left));
        PendingBlock(transform, INITIAL, total, buf, kept + Padding(count, length));
        assert in_[..] == in_[..64];
        buf := transform(buf, in_[..]);
        Fill(0, Zeros(56));
        assert in_[..56] == Zeros(56);
      } else {
        Fill(count + 1, Zeros(left - 8));
        assert in_[..56] == kept + [0x80] + Zeros(left - 8);
        assert in_[..56] + length == kept + Padding(count, length);
      }
      StoreLength(total);
    }

    method StoreLength(ghost total: seq<Byte>)
      requires in_.Length == 64
      requires Pending(transform, INITIAL, total, buf, in_[..56] + (WordBytesLittle(bits0) + WordBytesLittle(bits1)))
      modifies this`buf, in_
      ensures Pending(transform, INITIAL, total, buf, [])
    {
      ghost var last := in_[..56] + (WordBytesLittle(bits0) + WordBytesLittle(bits1));
      Fill(56, WordBytesLittle(bits0) + WordBytesLittle(bits1));
      assert in_[..] == in_[..64] == last;
      PendingBlock(transform, INITIAL, total, buf, last);
      assert last[..64] == last && last[64..] == [];
      buf := transform(buf, in_[..]);
    }

    method WordBytes() returns (digest: seq<Byte>)
      ensures digest == WordsLittle(buf)
    {
      digest := [];
      var i := 0;
      while i < 4
        invariant i <= 4 && digest == WordsLittle(buf[..i])
      {
        assert buf[..i + 1][..i] == buf[..i];
        digest := digest + WordBytesLittle(buf[i]);
        i := i + 1;
      }
      assert buf[..i] == buf;
    }
  }

  /** The digest does not depend on the pieces in which the message is passed. */
  method DigestChunks(f: Transform<State>, chunks: seq<seq<Byte>>) returns (digest: seq<Byte>)
    requires forall k :: 0 <= k < |chunks| ==> |chunks[k]| < 0x1_0000_0000
    ensures digest == DigestOf(f, Flatten(chunks))
  {
    var context := new Context(f);
    for i := 0 to |chunks|
      invariant fresh(context) && fresh(context.in_) && context.Valid() && context.transform == f
      invariant context.message == Flatten(chunks[..i])
    {
      assert chunks[..i + 1][..i] == chunks[..i];
      context.Update(chunks[i]);
    }
    assert chunks[..|chunks|] == chunks;
    digest := context.Final();
  }
}
