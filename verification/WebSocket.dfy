/** WebSocket framing: what the server writes and masks, its frame reader gives back (sections 5.2 and 5.3 of RFC 6455). */
module WebSocket {
  import opened Basics
  import opened Bytes
  import opened Iobuf

  const MAX_INT: int := 0x7fff_ffff

  /** The payload length from which the reader's int goes wrong. */
  const TWO_31: int := 0x8000_0000

  /** A delivered message: the first header byte, the length told to the handler, and the unmasked payload. */
  datatype Message = Message(wsbits: Byte, contentLen: int, payload: seq<Byte>)

  type Key = k: seq<Byte> | |k| == 4 witness [0, 0, 0, 0]

  /** A frame as a sender means it. */
  datatype Frame = Frame(wsbits: Byte, payload: seq<Byte>, key: Option<Key>)

  // ----- The wire format

  function BigEndian(x: nat, n: nat): (s: seq<Byte>)
    ensures |s| == n
  {
    if n == 0 then [] else BigEndian(x / 256, n - 1) + [x % 256]
  }

  function Masked(payload: seq<Byte>, key: Key): (s: seq<Byte>)
    ensures |s| == |payload|
  {
    seq(|payload|, i requires 0 <= i < |payload| => Xor(payload[i], key[i % 4]))
  }

  function Header(f: Frame): (s: seq<Byte>)
    ensures 2 <= |s| <= 14
  {
    var n := |f.payload|;
    var flag := if f.key.Some? then 128 else 0;
    var length :=
      if n < 126 then [n + flag]
      else if n <= 0xffff then [126 + flag] + BigEndian(n, 2)
      else [127 + flag] + BigEndian(n, 8);
    [f.wsbits] + length + (if f.key.Some? then f.key.value else [])
  }

  function Body(f: Frame): (body: seq<Byte>)
    ensures |body| == |f.payload|
  {
    if f.key.Some? then Masked(f.payload, f.key.value) else f.payload
  }

  function Encode(f: Frame): seq<Byte> {
    Header(f) + Body(f)
  }

  function EncodeAll(frames: seq<Frame>): seq<Byte> {
    if frames == [] then [] else Encode(frames[0]) + EncodeAll(frames[1..])
  }

  function Sent(f: Frame): Message {
    Message(f.wsbits, |f.payload|, f.payload)
  }

  // ----- The reader

  function U16(s: seq<Byte>, i: nat): nat
    requires i + 2 <= |s|
  {
    s[i] as int * 256 + s[i + 1]
  }

  function U32(s: seq<Byte>, i: nat): nat
    requires i + 4 <= |s|
  {
    s[i] * 0x100_0000 + s[i + 1] * 0x1_0000 + s[i + 2] as int * 256 + s[i + 3]
  }

  function MaskLen(s: seq<Byte>): nat
    requires |s| >= 2
  {
    if s[1] >= 128 then 4 else 0
  }

  /** Header length and data length; a header that is not there yet has length 0. */
  function Lengths(s: seq<Byte>): (int, int) {
    if |s| < 2 then (0, 0)
    else
      var len, maskLen := s[1] % 128, MaskLen(s);
      if len < 126 && |s| >= maskLen then (2 + maskLen, len)
      else if len == 126 && |s| >= 4 + maskLen then (4 + maskLen, U16(s, 2))
      // Shifting an int-sized value by 32 leaves nothing of the high word.
      else if |s| >= 10 + maskLen then (10 + maskLen, WrapInt(U32(s, 6)))
      else (0, 0)
  }

  function FrameLen(s: seq<Byte>): int {
    WrapInt(Lengths(s).0 + Lengths(s).1)
  }

  predicate Buffered(s: seq<Byte>) {
    0 < FrameLen(s) <= |s|
  }

  /** The message that the frame at the head of `s` delivers. */
  function HeadMessage(s: seq<Byte>): Message
    requires Buffered(s)
  {
    var (headerLen, dataLen) := Lengths(s);
    if dataLen < 0 then Message(s[0], dataLen, [])
    else if MaskLen(s) > 0 then Message(s[0], dataLen, Masked(s[headerLen..headerLen + dataLen], s[headerLen - 4..headerLen]))
    else Message(s[0], dataLen, s[headerLen..headerLen + dataLen])
  }

  /** The messages of all the complete frames at the head of the buffer. */
  function Messages(s: seq<Byte>): seq<Message>
    decreases |s|
  {
    if Buffered(s) then [HeadMessage(s)] + Messages(s[FrameLen(s)..]) else []
  }

  /** What those frames leave in the buffer. */
  function Rest(s: seq<Byte>): seq<Byte>
    decreases |s|
  {
    if Buffered(s) then Rest(s[FrameLen(s)..]) else s
  }

  /** `t` is `s` with the payload masked by the four bytes before it. */
  ghost predicate IsUnmasked(s: seq<Byte>, t: seq<Byte>, headerLen: nat, dataLen: nat)
    requires 4 <= headerLen && headerLen + dataLen <= |s|
  {
    && |t| == |s| && t[..headerLen] == s[..headerLen] && t[headerLen + dataLen..] == s[headerLen + dataLen..]
    && forall k :: headerLen <= k < headerLen + dataLen ==> t[k] == Xor(s[k], s[headerLen - 4 + (k - headerLen) % 4])
  }

  lemma UnmaskedParts(s: seq<Byte>, t: seq<Byte>, headerLen: nat, dataLen: nat)
    requires 4 <= headerLen && headerLen + dataLen <= |s| && IsUnmasked(s, t, headerLen, dataLen)
    ensures t[headerLen..headerLen + dataLen] == Masked(s[headerLen..headerLen + dataLen], s[headerLen - 4..headerLen])
  {
    var payload, key := s[headerLen..headerLen + dataLen], s[headerLen - 4..headerLen];
    forall k | 0 <= k < dataLen ensures t[headerLen..headerLen + dataLen][k] == Masked(payload, key)[k] {
      assert t[headerLen + k] == Xor(s[headerLen + k], s[headerLen - 4 + k % 4]);
    }
  }

  lemma SliceOfPrefix(s: seq<Byte>, n: nat, lo: nat, hi: nat)
    requires lo <= hi <= n <= |s|
    ensures s[..n][lo..hi] == s[lo..hi]
  {
  }

  class WebSocketConnection {
    const io: Iobuf
    /** What the request handler has been called with. */
    var delivered: seq<Message>

    ghost predicate Valid()
      reads this, io
    {
      io.Valid() && io.len <= MAX_INT
    }

    constructor (io: Iobuf)
      requires io.Valid() && io.len <= MAX_INT
      ensures Valid() && this.io == io && delivered == []
    {
      this.io := io;
      delivered := [];
    }

    /** Unmasks the payload where it lies in the buffer. */
    method Unmask(headerLen: nat, dataLen: nat)
      requires io.Valid() && 4 <= headerLen && headerLen + dataLen <= io.len
      modifies io.buf
      ensures io.Valid() && IsUnmasked(old(io.Contents()), io.Contents(), headerLen, dataLen)
    {
      ghost var s := io.Contents();
      var i := 0;
      while i < dataLen
        invariant i <= dataLen
        invariant forall k :: 0 <= k < headerLen ==> io.buf[k] == s[k]
        invariant forall k :: headerLen <= k < headerLen + i ==>
          io.buf[k] == Xor(s[k], s[headerLen - 4 + (k - headerLen) % 4])
        invariant forall k :: headerLen + i <= k < io.len ==> io.buf[k] == s[k]
      {
        io.buf[i + headerLen] := Xor(io.buf[i + headerLen], io.buf[headerLen - 4 + i % 4]);
        i := i + 1;
      }
    }

    method ReadLengths() returns (maskLen: int, headerLen: int, dataLen: int)
      requires Valid()
      ensures (headerLen, dataLen) == Lengths(io.Contents())
      ensures maskLen == if |io.Contents()| >= 2 then MaskLen(io.Contents()) else 0
    {
      var buf, bufLen := io.buf, io.len;
      maskLen, headerLen, dataLen := 0, 0, 0;
      if bufLen >= 2 {
        var len := buf[1] % 128;
        maskLen := if buf[1] >= 128 then 4 else 0;
        if len < 126 && bufLen >= maskLen {
          dataLen := len;
          headerLen := 2 + maskLen;
        } else if len == 126 && bufLen >= 4 + maskLen {
          headerLen := 4 + maskLen;
          dataLen := U16(buf[..bufLen], 2);
        } else if bufLen >= 10 + maskLen {
          headerLen := 10 + maskLen;
          dataLen := WrapInt(U32(buf[..bufLen], 6));
        }
      }
    }

    /** Delivers the frame at the head of the buffer, if all of it is there. */
    method DeliverFrame() returns (buffered: bool)
      requires Valid()
      modifies this, io, io.buf
      ensures Valid() && io.buf == old(io.buf)
      ensures buffered == Buffered(old(io.Contents()))
      ensures buffered ==> delivered == old(delivered) + [HeadMessage(old(io.Contents()))]
      ensures buffered ==> io.Contents() == old(io.Contents())[FrameLen(old(io.Contents()))..]
      ensures !buffered ==> delivered == old(delivered) && io.Contents() == old(io.Contents())
    {
      var maskLen, headerLen, dataLen := ReadLengths();
      var frameLen := WrapInt(headerLen + dataLen);
      buffered := frameLen > 0 && frameLen <= io.len;
      if buffered {
        var wsbits, payload := TakePayload(maskLen, headerLen, dataLen);
        delivered := delivered + [Message(wsbits, dataLen, payload)];
        io.DiscardLeading(frameLen);
      }
    }

    /** The content handed to the request handler, unmasked in the buffer. */
    method TakePayload(maskLen: int, headerLen: int, dataLen: int) returns (wsbits: Byte, payload: seq<Byte>)
      requires Valid() && Buffered(io.Contents()) && (headerLen, dataLen) == Lengths(io.Contents())
      requires |io.Contents()| >= 2 && maskLen == MaskLen(io.Contents())
      modifies io.buf
      ensures Valid() && Message(wsbits, dataLen, payload) == HeadMessage(old(io.Contents()))
      ensures io.Contents()[FrameLen(old(io.Contents()))..] == old(io.Contents())[FrameLen(old(io.Contents()))..]
    {
      ghost var s := io.Contents();
      HeaderInside(s);
      wsbits := io.buf[0];
      if dataLen < 0 {
        return wsbits, [];
      }
      if maskLen > 0 {
        Unmask(headerLen, dataLen);
        UnmaskedParts(s, io.Contents(), headerLen, dataLen);
      }
      payload := io.buf[headerLen..headerLen + dataLen];
      SliceOfPrefix(io.buf[..], io.len, headerLen, headerLen + dataLen);
    }

    /** Delivers all the complete frames in the buffer. */
    method DeliverAll()
      requires Valid()
      modifies this, io, io.buf
      ensures Valid() && io.buf == old(io.buf)
      ensures delivered == old(delivered) + Messages(old(io.Contents()))
      ensures io.Contents() == Rest(old(io.Contents()))
    {
      var more := true;
      ghost var s0, s := io.Contents(), io.Contents();
      ghost var taken: seq<Message> := [];
      while more
        invariant Valid() && io.buf == old(io.buf) && s == io.Contents()
        invariant delivered == old(delivered) + taken && TakenSoFar(s0, s, taken)
        invariant !more ==> !Buffered(s)
        decreases |s|, more
      {
        more := DeliverFrame();
        if more {
          TakeOne(s0, s, taken);
          taken := taken + [HeadMessage(s)];
          s := s[FrameLen(s)..];
        }
      }
      assert taken + [] == taken;
    }
  }

  ghost predicate TakenSoFar(s0: seq<Byte>, s: seq<Byte>, taken: seq<Message>) {
    Messages(s0) == taken + Messages(s) && Rest(s0) == Rest(s)
  }

  lemma TakeOne(s0: seq<Byte>, s: seq<Byte>, taken: seq<Message>)
    requires TakenSoFar(s0, s, taken) && Buffered(s)
    ensures TakenSoFar(s0, s[FrameLen(s)..], taken + [HeadMessage(s)])
  {
  }

  /** Where the arithmetic of lengths stays when a frame is taken as buffered. */
  lemma HeaderInside(s: seq<Byte>)
    requires Buffered(s) && |s| <= MAX_INT
    ensures |s| >= 2 && FrameLen(s) == Lengths(s).0 + Lengths(s).1
    ensures Lengths(s).0 >= 2 + MaskLen(s)
  {
  }

  // ----- Round trip

  lemma {:induction false} BigEndianMod(x: nat, n: nat, k: nat)
    requires k < n
    ensures BigEndian(x, n)[n - 1 - k] == ByteOf(x, k)
  {
    if k == 0 {
    } else {
      BigEndianMod(x / 256, n - 1, k - 1);
    }
  }

  lemma U16BigEndian(x: nat, s: seq<Byte>)
    requires x <= 0xffff && |s| >= 4 && s[2..4] == BigEndian(x, 2)
    ensures U16(s, 2) == x
  {
    assert s[2] == BigEndian(x, 2)[0] && s[3] == BigEndian(x, 2)[1];
    BigEndianMod(x, 2, 0);
    BigEndianMod(x, 2, 1);
    assert ByteOf(x, 1) == x / 256;
  }

  lemma FourBytes(x: nat)
    requires x < 0x1_0000_0000
    ensures ByteOf(x, 3) * 0x100_0000 + ByteOf(x, 2) * 0x1_0000 + ByteOf(x, 1) as int * 256 + ByteOf(x, 0) == x
  {
    var a := x / 256;
    var b := a / 256;
    var c := b / 256;
    assert ByteOf(x, 1) == a % 256;
    assert ByteOf(x, 2) == ByteOf(a, 1) == b % 256;
    assert ByteOf(x, 3) == ByteOf(a, 2) == ByteOf(b, 1) == c % 256 == c;
    assert b == 256 * c + b % 256;
    assert a == 256 * b + a % 256;
  }

  lemma U32BigEndian(x: nat, s: seq<Byte>)
    requires x < 0x1_0000_0000 && |s| >= 10 && s[2..10] == BigEndian(x, 8)
    ensures U32(s, 6) == x
  {
    forall i | 0 <= i < 8 ensures s[2 + i] == BigEndian(x, 8)[i] {
      assert s[2 + i] == s[2..10][i];
    }
    BigEndianMod(x, 8, 0);
    BigEndianMod(x, 8, 1);
    BigEndianMod(x, 8, 2);
    BigEndianMod(x, 8, 3);
    FourBytes(x);
  }

  lemma MaskedTwice(payload: seq<Byte>, key: Key)
    ensures Masked(Masked(payload, key), key) == payload
  {
    forall i | 0 <= i < |payload| ensures Masked(Masked(payload, key), key)[i] == payload[i] {
      XorTwice(payload[i], key[i % 4]);
    }
  }

  /** What the reader looks at in a header. */
  ghost predicate IsHeader(h: seq<Byte>, n: nat, key: Option<Key>) {
    var flag := if key.Some? then 128 else 0;
    && |h| == (if n < 126 then 2 else if n <= 0xffff then 4 else 10) + (if key.Some? then 4 else 0)
    && h[1] == (if n < 126 then n else if n <= 0xffff then 126 else 127) + flag
    && (126 <= n <= 0xffff ==> h[2..4] == BigEndian(n, 2))
    && (n > 0xffff ==> h[2..10] == BigEndian(n, 8))
    && (key.Some? ==> h[|h| - 4..] == key.value)
  }

  lemma HeaderIsHeader(f: Frame)
    ensures IsHeader(Header(f), |f.payload|, f.key) && Header(f)[0] == f.wsbits
  {
  }

  /** From any buffer that begins with a header, the reader gets the header's length and the payload's. */
  lemma LengthsOfHeader(h: seq<Byte>, n: nat, key: Option<Key>, s: seq<Byte>)
    requires IsHeader(h, n, key) && h <= s && n < TWO_31
    ensures Lengths(s) == (|h|, n)
    ensures MaskLen(s) == if key.Some? then 4 else 0
  {
    assert s[1] == h[1];
    if 126 <= n <= 0xffff {
      assert s[2..4] == h[2..4];
      U16BigEndian(n, s);
    } else if n > 0xffff {
      assert s[2..10] == h[2..10];
      U32BigEndian(n, s);
    }
  }

  /** With only part of a header, no length is read, or a header length that reaches beyond the buffer. */
  lemma PartialHeader(h: seq<Byte>, n: nat, key: Option<Key>, s: seq<Byte>)
    requires IsHeader(h, n, key) && s < h
    ensures Lengths(s) == (0, 0) || (Lengths(s) == (|h|, n) && n < 126)
  {
    if |s| >= 2 {
      assert s[1] == h[1];
    }
  }

  lemma TooShort(s: seq<Byte>, headerLen: nat, dataLen: nat)
    requires Lengths(s) == (headerLen, dataLen) && headerLen <= 14 && dataLen < TWO_31
    requires |s| < headerLen + dataLen
    ensures !Buffered(s)
  {
  }

  lemma HeadAndBody(h: seq<Byte>, body: seq<Byte>, s: seq<Byte>)
    requires h + body <= s
    ensures h <= s && s[|h|..|h| + |body|] == body
  {
    assert s[..|h + body|] == h + body;
    assert s[|h|..|h| + |body|] == (h + body)[|h|..];
  }

  lemma BodyIsUnmasked(f: Frame, h: seq<Byte>, s: seq<Byte>)
    requires IsHeader(h, |f.payload|, f.key) && h[0] == f.wsbits
    requires h + Body(f) <= s && |s| <= MAX_INT
    ensures Buffered(s) && FrameLen(s) == |h| + |Body(f)| && HeadMessage(s) == Sent(f)
  {
    HeadAndBody(h, Body(f), s);
    LengthsOfHeader(h, |f.payload|, f.key, s);
    if f.key.Some? {
      assert s[|h| - 4..|h|] == h[|h| - 4..];
      MaskedTwice(f.payload, f.key.value);
    }
  }

  /** A complete frame at the head of the buffer is delivered as it was meant, and exactly its bytes are taken. */
  lemma HeadFrame(f: Frame, rest: seq<Byte>)
    requires |Encode(f) + rest| <= MAX_INT
    ensures Buffered(Encode(f) + rest) && FrameLen(Encode(f) + rest) == |Encode(f)|
    ensures HeadMessage(Encode(f) + rest) == Sent(f)
  {
    HeaderIsHeader(f);
    BodyIsUnmasked(f, Header(f), Encode(f) + rest);
  }

  /** Part of a frame whose end has not arrived. */
  ghost predicate IsIncomplete(s: seq<Byte>) {
    exists f: Frame :: |f.payload| < TWO_31 && s < Encode(f)
  }

  lemma PrefixOfConcat<T>(s: seq<T>, h: seq<T>, t: seq<T>)
    requires s < h + t
    ensures s < h || (h <= s && |s| < |h| + |t|)
  {
    if |h| <= |s| {
      assert s[..|h|] == (h + t)[..|h|] == h;
    } else {
      assert s == (h + t)[..|s|] == h[..|s|];
    }
  }

  lemma PartIsNotBuffered(h: seq<Byte>, n: nat, key: Option<Key>, s: seq<Byte>)
    requires IsHeader(h, n, key) && n < TWO_31
    requires s < h || (h <= s && |s| < |h| + n)
    ensures !Buffered(s)
  {
    if s < h {
      PartialHeader(h, n, key, s);
    } else {
      LengthsOfHeader(h, n, key, s);
    }
    if Lengths(s) != (0, 0) {
      TooShort(s, |h|, n);
    }
  }

  /** Nothing is delivered, or dropped, before the whole frame has arrived. */
  lemma IncompleteIsNotBuffered(s: seq<Byte>)
    requires IsIncomplete(s)
    ensures !Buffered(s)
  {
    var f: Frame :| |f.payload| < TWO_31 && s < Encode(f);
    PrefixOfConcat(s, Header(f), Body(f));
    HeaderIsHeader(f);
    PartIsNotBuffered(Header(f), |f.payload|, f.key, s);
  }

  lemma DecodeStep(f: Frame, rest: seq<Byte>)
    requires |Encode(f) + rest| <= MAX_INT
    ensures Messages(Encode(f) + rest) == [Sent(f)] + Messages(rest)
    ensures Rest(Encode(f) + rest) == Rest(rest)
  {
    HeadFrame(f, rest);
    assert (Encode(f) + rest)[|Encode(f)|..] == rest;
  }

  function SentAll(frames: seq<Frame>): seq<Message> {
    if frames == [] then [] else [Sent(frames[0])] + SentAll(frames[1..])
  }

  /**
   * The round trip: whatever frames are sent, masked or not, followed by the beginning of one more, the reader
   * delivers exactly those frames' payloads, in order, and leaves exactly the beginning of the last.
   */
  lemma {:induction false} RoundTrip(frames: seq<Frame>, tail: seq<Byte>)
    requires IsIncomplete(tail) && |EncodeAll(frames) + tail| <= MAX_INT
    ensures Messages(EncodeAll(frames) + tail) == SentAll(frames)
    ensures Rest(EncodeAll(frames) + tail) == tail
  {
    if frames == [] {
      assert EncodeAll(frames) + tail == tail;
      IncompleteIsNotBuffered(tail);
    } else {
      var first, rest := Encode(frames[0]), EncodeAll(frames[1..]) + tail;
      assert EncodeAll(frames) + tail == first + rest;
      DecodeStep(frames[0], rest);
      RoundTrip(frames[1..], tail);
    }
  }

  // ----- What unmasking does

  /**
   * A bit of a byte that a masked frame delivers differs from that bit as it lies in the buffer exactly when that bit is
   * set in the key byte for it: the four key bytes lie before the payload, and serve it in turn.
   */
  lemma DeliveredBit(s: seq<Byte>, header: nat, i: nat, k: nat)
    requires Buffered(s) && |s| <= MAX_INT && MaskLen(s) == 4 && header == Lengths(s).0
    requires i < |HeadMessage(s).payload| && k < 8
    ensures header >= 6 && header + i < |s|
    ensures HasBit(HeadMessage(s).payload[i], k) != HasBit(s[header + i], k) <==> HasBit(s[header - 4 + i % 4], k)
  {
    HeaderInside(s);
    XorBit(s[header + i], s[header - 4 + i % 4], k);
  }

  /** With a key of zeros, and without a key, the bytes are delivered as they lie in the buffer. */
  lemma UnmaskedDelivered(s: seq<Byte>, header: nat, dataLen: nat)
    requires Buffered(s) && |s| <= MAX_INT && Lengths(s) == (header, dataLen)
    requires MaskLen(s) == 4 ==> header >= 4 && s[header - 4..header] == [0, 0, 0, 0]
    ensures header + dataLen <= |s| && HeadMessage(s).payload == s[header..header + dataLen]
  {
    HeaderInside(s);
    if MaskLen(s) == 4 {
      forall i | 0 <= i < dataLen ensures HeadMessage(s).payload[i] == s[header..header + dataLen][i] {
        XorZero(s[header + i]);
      }
    }
  }

  /** The masked text message "Hello" of section 5.7 of RFC 6455. */
  lemma MaskedHello(s: seq<Byte>)
    requires s == [0x81, 0x85, 0x37, 0xfa, 0x21, 0x3d, 0x7f, 0x9f, 0x4d, 0x51, 0x58]
    ensures Buffered(s) && FrameLen(s) == |s| && HeadMessage(s) == Message(0x81, 5, [0x48, 0x65, 0x6c, 0x6c, 0x6f])
  {
    assert Lengths(s) == (6, 5);
    FiveUnmasked(s[6..11], s[2..6]);
    HelloXor();
  }

  lemma FiveUnmasked(p: seq<Byte>, key: Key)
    requires |p| == 5
    ensures Masked(p, key) ==
      [Xor(p[0], key[0]), Xor(p[1], key[1]), Xor(p[2], key[2]), Xor(p[3], key[3]), Xor(p[4], key[0])]
  {
  }

  lemma HelloXor()
    ensures Xor(0x7f, 0x37) == 0x48 && Xor(0x9f, 0xfa) == 0x65 && Xor(0x4d, 0x21) == 0x6c
    ensures Xor(0x51, 0x3d) == 0x6c && Xor(0x58, 0x37) == 0x6f
  {
  }

  // ----- Where the reader departs from the standard

  /** The 64-bit length field, when there is one. */
  function LongLength(s: seq<Byte>): nat
    requires |s| >= 10
  {
    U32(s, 2) * 0x1_0000_0000 + U32(s, 6)
  }

  /** The buffer starts with the whole header of a frame with a 64-bit length. */
  predicate HasLongHeader(s: seq<Byte>) {
    |s| >= 2 && s[1] % 128 == 127 && |s| >= 10 + MaskLen(s)
  }

  /**
   * Section 5.2 of RFC 6455 takes a frame with a 64-bit length as complete when the header and that many bytes are
   * there. The reader does the same exactly when the length is less than 2^31, or its low word is too large for what
   * follows the header, and not so close to 2^32 that, read as a negative int, it still leaves a part of the header.
   */
  lemma LongFrameAgreesIff(s: seq<Byte>)
    requires HasLongHeader(s) && |s| <= MAX_INT
    ensures
      var header, low := 10 + MaskLen(s), U32(s, 6);
      var complete := header + LongLength(s) <= |s|;
      (Buffered(s) <==> complete) <==>
        (LongLength(s) < TWO_31 || (|s| - header < low && low <= 0x1_0000_0000 - header))
  {
    var header, low := 10 + MaskLen(s), U32(s, 6);
    assert Lengths(s) == (header, WrapInt(low));
    if LongLength(s) < TWO_31 {
      assert U32(s, 2) == 0;
    } else {
      assert Buffered(s) <==> (low <= |s| - header || low > 0x1_0000_0000 - header);
    }
  }

  /** A frame announcing 2^32 bytes is delivered as an empty one, and its header taken off the buffer. */
  lemma LongFrameExample()
    ensures
      var s: seq<Byte> := [0x82, 127, 0, 0, 0, 1, 0, 0, 0, 0];
      HasLongHeader(s) && LongLength(s) == 0x1_0000_0000 && Messages(s) == [Message(0x82, 0, [])] && Rest(s) == []
  {
    var s: seq<Byte> := [0x82, 127, 0, 0, 0, 1, 0, 0, 0, 0];
    assert U32(s, 2) == 1 && U32(s, 6) == 0;
    assert FrameLen(s) == 10;
    assert s[10..] == [];
    assert HeadMessage(s).payload == [];
  }

  /** A frame announcing almost 2^32 bytes is delivered with a negative length, and one byte of its header taken off. */
  lemma NegativeLengthExample()
    ensures
      var s: seq<Byte> := [0x82, 127, 0, 0, 0, 0, 0xff, 0xff, 0xff, 0xf7];
      && HasLongHeader(s) && LongLength(s) == 0xffff_fff7
      && Buffered(s) && FrameLen(s) == 1 && HeadMessage(s) == Message(0x82, -9, [])
  {
    var s: seq<Byte> := [0x82, 127, 0, 0, 0, 0, 0xff, 0xff, 0xff, 0xf7];
    assert U32(s, 2) == 0 && U32(s, 6) == 0xffff_fff7;
  }

  // ----- The writer

  /** Frames `data` and appends the frame to the output; the flags say whether the two allocations succeed. */
  method WebSocketWrite(io: Iobuf, opcode: nat, data: seq<Byte>, allocatesCopy: bool, allocatesOutput: bool)
    returns (n: int)
    requires io.Valid() && io.len + |data| + 10 <= MAX_BUFFERED
    modifies io, io.buf
    ensures io.Valid() && (io.buf == old(io.buf) || fresh(io.buf))
    ensures
      var frame := Encode(Frame(0x80 + opcode % 16, data, None));
      && (n > 0 ==> n == |frame| && io.Contents() == old(io.Contents()) + frame)
      && (n <= 0 ==> io.Contents() == old(io.Contents()))
    ensures allocatesCopy && allocatesOutput ==> n > 0
    ensures n == -1 <==> !allocatesCopy
  {
    if !allocatesCopy {
      return -1;
    }
    var copy := new Byte[|data| + 10](_ => 0);
    var headerLen := PutHeader(copy, opcode, |data|, data);
    forall i | 0 <= i < |data| { copy[headerLen + i] := data[i]; }
    ghost var f := Frame(0x80 + opcode % 16, data, None);
    assert copy[..headerLen + |data|] == Header(f) + data;
    n := io.Spool(copy[..headerLen + |data|], allocatesOutput);
  }

  /** The frame header of an unmasked frame: 7-bit, 16-bit or 64-bit length. */
  method PutHeader(copy: array<Byte>, opcode: nat, dataLen: nat, ghost data: seq<Byte>) returns (headerLen: nat)
    requires copy.Length == dataLen + 10 && dataLen == |data| < TWO_31
    modifies copy
    ensures headerLen <= 10 && copy[..headerLen] == Header(Frame(0x80 + opcode % 16, data, None))
  {
    copy[0] := 0x80 + opcode % 16;
    if dataLen < 126 {
      copy[1] := dataLen;
      headerLen := 2;
    } else if dataLen <= 0xffff {
      copy[1] := 126;
      PutBigEndian(copy, 2, dataLen, 2);
      headerLen := 4;
      assert copy[..4] == copy[..2] + copy[2..4] && copy[..2] == [0x80 + opcode % 16, 126];
    } else {
      copy[1] := 127;
      PutBigEndian(copy, 2, dataLen / 0x1_0000_0000, 4);
      ghost var high := copy[..6];
      assert high == copy[..2] + copy[2..6] && copy[..2] == [0x80 + opcode % 16, 127];
      PutBigEndian(copy, 6, dataLen % 0x1_0000_0000, 4);
      headerLen := 10;
      assert copy[..10] == high + copy[6..10];
      BigEndianSplit(dataLen);
    }
  }

  /** The two words that the writer stores are the 64-bit length. */
  lemma BigEndianSplit(x: nat)
    requires x < 0x1_0000_0000
    ensures BigEndian(x, 8) == BigEndian(0, 4) + BigEndian(x, 4)
  {
    var a := x / 256;
    var b := a / 256;
    var c := b / 256;
    assert c / 256 == 0;
    assert BigEndian(x, 8) == BigEndian(a, 7) + [x % 256];
    assert BigEndian(a, 7) == BigEndian(b, 6) + [a % 256];
    assert BigEndian(b, 6) == BigEndian(c, 5) + [b % 256];
    assert BigEndian(c, 5) == BigEndian(0, 4) + [c % 256];
    assert BigEndian(x, 4) == BigEndian(a, 3) + [x % 256];
    assert BigEndian(a, 3) == BigEndian(b, 2) + [a % 256];
    assert BigEndian(b, 2) == BigEndian(c, 1) + [b % 256];
    assert BigEndian(c, 1) == [c % 256];
  }

  /** Stores `x` in network byte order. */
  method PutBigEndian(a: array<Byte>, at: nat, x: nat, n: nat)
    requires at + n <= a.Length
    modifies a
    ensures a[at..at + n] == BigEndian(x, n)
    ensures a[..at] == old(a[..at]) && a[at + n..] == old(a[at + n..])
  {
    if n > 0 {
      PutBigEndian(a, at, x / 256, n - 1);
      a[at + n - 1] := x % 256;
    }
  }
}
