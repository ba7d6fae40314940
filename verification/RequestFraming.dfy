/** Finding the end of a buffered HTTP request, however the input stream was cut into pieces. */
module RequestFraming {
  import opened Basics
  import opened Bytes
  import opened Iobuf

  const LF: Byte := 10
  const CR: Byte := 13

  /** Bytes that no request may contain: control characters other than CR and LF. */
  predicate Malformed(b: Byte) {
    b < 128 && !(32 <= b < 127) && b != CR && b != LF
  }

  /** How far the blank line that begins with the line feed at `i` reaches beyond it, or 0 if there is none. */
  function BlankLine(s: seq<Byte>, i: nat): nat
    requires i < |s|
  {
    if s[i] != LF then 0
    else if i + 1 < |s| && s[i + 1] == LF then 2
    else if i + 2 < |s| && s[i + 1] == CR && s[i + 2] == LF then 3
    else 0
  }

  /** Something is decided at `i`: a malformed byte, or the end of the request. */
  predicate Decides(s: seq<Byte>, i: nat)
    requires i < |s|
  {
    Malformed(s[i]) || BlankLine(s, i) > 0
  }

  function RequestLenFrom(s: seq<Byte>, i: nat): int
    requires i <= |s|
    decreases |s| - i
  {
    if i == |s| then 0
    else if Malformed(s[i]) then -1
    else if BlankLine(s, i) > 0 then i + BlankLine(s, i)
    else RequestLenFrom(s, i + 1)
  }

  /** -1 for a malformed request, 0 for one not yet complete, and otherwise its length with the blank line. */
  function RequestLen(s: seq<Byte>): int {
    RequestLenFrom(s, 0)
  }

  method GetRequestLen(buf: seq<Byte>) returns (n: int)
    ensures n == RequestLen(buf)
  {
    var i := 0;
    while i < |buf|
      invariant i <= |buf| && RequestLen(buf) == RequestLenFrom(buf, i)
    {
      if !(32 <= buf[i] < 127) && buf[i] != CR && buf[i] != LF && buf[i] < 128 {
        return -1;
      } else if buf[i] == LF && i + 1 < |buf| && buf[i + 1] == LF {
        return i + 2;
      } else if buf[i] == LF && i + 2 < |buf| && buf[i + 1] == CR && buf[i + 2] == LF {
        return i + 3;
      }
      i := i + 1;
    }
    return 0;
  }

  lemma {:induction false} FirstDecisionFrom(s: seq<Byte>, from: nat, i: nat)
    requires from <= i < |s| && Decides(s, i) && forall k :: from <= k < i ==> !Decides(s, k)
    ensures RequestLenFrom(s, from) == if Malformed(s[i]) then -1 else i + BlankLine(s, i)
    decreases i - from
  {
    if from == i {
    } else {
      assert !Decides(s, from);
      FirstDecisionFrom(s, from + 1, i);
    }
  }

  lemma {:induction false} NoDecisionFrom(s: seq<Byte>, from: nat)
    requires from <= |s| && forall k :: from <= k < |s| ==> !Decides(s, k)
    ensures RequestLenFrom(s, from) == 0
    decreases |s| - from
  {
    if from == |s| {
    } else {
      assert !Decides(s, from);
      NoDecisionFrom(s, from + 1);
    }
  }

  /** The answer is nonzero exactly when something is decided, and then the first decision gives it. */
  lemma {:induction false} NonzeroDecides(s: seq<Byte>, from: nat) returns (i: nat)
    requires from <= |s| && RequestLenFrom(s, from) != 0
    ensures from <= i < |s| && Decides(s, i) && forall k :: from <= k < i ==> !Decides(s, k)
    decreases |s| - from
  {
    if Decides(s, from) {
      i := from;
    } else {
      i := NonzeroDecides(s, from + 1);
    }
  }

  /** A length found is that of a prefix of well-formed bytes ending in the only blank line it contains. */
  lemma RequestLenIsFirstBlankLine(s: seq<Byte>)
    ensures -1 <= RequestLen(s) <= |s|
    ensures RequestLen(s) == 0 <==> forall i :: 0 <= i < |s| ==> !Decides(s, i)
    ensures RequestLen(s) > 0 ==> exists i: nat ::
      && i < |s| && BlankLine(s, i) > 0 && RequestLen(s) == i + BlankLine(s, i)
      && forall k :: 0 <= k < i ==> !Malformed(s[k]) && BlankLine(s, k) == 0
    ensures RequestLen(s) == -1 ==> exists i: nat ::
      i < |s| && Malformed(s[i]) && forall k :: 0 <= k < i ==> BlankLine(s, k) == 0
  {
    if RequestLen(s) == 0 {
      if i: nat :| i < |s| && Decides(s, i) {
        var j := FirstOf(s, i);
        FirstDecisionFrom(s, 0, j);
      }
    } else {
      var i := NonzeroDecides(s, 0);
      FirstDecisionFrom(s, 0, i);
      forall k | 0 <= k < i ensures !Malformed(s[k]) && BlankLine(s, k) == 0 {
        assert !Decides(s, k);
      }
      if Malformed(s[i]) {
        assert forall k :: 0 <= k < i ==> BlankLine(s, k) == 0;
      } else {
        assert BlankLine(s, i) > 0;
      }
    }
  }

  lemma {:induction false} FirstOf(s: seq<Byte>, i: nat) returns (j: nat)
    requires i < |s| && Decides(s, i)
    ensures j <= i && Decides(s, j) && forall k :: 0 <= k < j ==> !Decides(s, k)
  {
    j := 0;
    while !Decides(s, j)
      invariant j <= i && forall k :: 0 <= k < j ==> !Decides(s, k)
      decreases i - j
    {
      j := j + 1;
    }
  }

  // ----- The answer on the bytes

  /** The bytes end in two line feeds, or in two line feeds with a carriage return between them. */
  predicate EndsRequest(s: seq<Byte>) {
    || (|s| >= 2 && s[|s| - 2] == 10 && s[|s| - 1] == 10)
    || (|s| >= 3 && s[|s| - 3] == 10 && s[|s| - 2] == 13 && s[|s| - 1] == 10)
  }

  /** Text, line feeds, carriage returns, and everything outside ASCII. */
  predicate IsAllowed(b: Byte) {
    b == 10 || b == 13 || 32 <= b <= 126 || b >= 128
  }

  lemma AllowedIff(b: Byte)
    ensures IsAllowed(b) <==> !Malformed(b)
  {
  }

  lemma BlankLineEnds(s: seq<Byte>, i: nat, n: nat)
    requires i < |s| && BlankLine(s, i) > 0 && n == i + BlankLine(s, i)
    ensures n <= |s| && EndsRequest(s[..n]) && forall k :: i <= k < n ==> IsAllowed(s[k])
  {
  }

  lemma EndHasBlankLine(s: seq<Byte>, n: nat) returns (i: nat)
    requires n <= |s| && EndsRequest(s[..n])
    ensures i < n && BlankLine(s, i) > 0 && n == i + BlankLine(s, i)
  {
    i := if s[n - 2] == 10 then n - 2 else n - 3;
  }

  /** Of two blank lines, the one that begins first ends first. */
  lemma BlankLinesInOrder(s: seq<Byte>, i: nat, j: nat)
    requires i < j < |s| && BlankLine(s, i) > 0 && BlankLine(s, j) > 0
    ensures i + BlankLine(s, i) < j + BlankLine(s, j)
  {
  }

  /** No request ends within the first `n` bytes. */
  ghost predicate NoEndUpTo(s: seq<Byte>, n: nat)
    requires n <= |s|
  {
    forall m: nat :: m <= n ==> !EndsRequest(s[..m])
  }

  lemma NoEndBefore(s: seq<Byte>, i: nat)
    requires i < |s| && (forall k :: 0 <= k < i ==> BlankLine(s, k) == 0) && !IsAllowed(s[i])
    ensures NoEndUpTo(s, i)
  {
    forall m: nat | m <= i ensures !EndsRequest(s[..m]) {
      if EndsRequest(s[..m]) {
        var k := EndHasBlankLine(s, m);
      }
    }
  }

  lemma NoBlankLineBefore(s: seq<Byte>, i: nat)
    requires i < |s| && NoEndUpTo(s, i) && !IsAllowed(s[i])
    ensures forall k :: 0 <= k < i ==> BlankLine(s, k) == 0
  {
    forall k | 0 <= k < i ensures BlankLine(s, k) == 0 {
      if BlankLine(s, k) > 0 {
        BlankLineEnds(s, k, k + BlankLine(s, k));
      }
    }
  }

  /** A length is found exactly when that many bytes are allowed ones and the first to end in a blank line. */
  lemma LengthOnBytes(s: seq<Byte>, n: nat, before: nat)
    requires n <= |s| && n == before + 1
    ensures RequestLen(s) == n <==>
      EndsRequest(s[..n]) && NoEndUpTo(s, before) && forall k :: 0 <= k < n ==> IsAllowed(s[k])
  {
    if RequestLen(s) == n {
      FoundLengthEnds(s, n, before);
    }
    if EndsRequest(s[..n]) && NoEndUpTo(s, before) && forall k :: 0 <= k < n ==> IsAllowed(s[k]) {
      var i := EndHasBlankLine(s, n);
      forall k | 0 <= k < i ensures !Decides(s, k) {
        AllowedIff(s[k]);
        if BlankLine(s, k) > 0 {
          BlankLinesInOrder(s, k, i);
          BlankLineEnds(s, k, k + BlankLine(s, k));
        }
      }
      AllowedIff(s[i]);
      FirstDecisionFrom(s, 0, i);
    }
  }

  lemma FoundLengthEnds(s: seq<Byte>, n: nat, before: nat)
    requires n <= |s| && n == before + 1 && RequestLen(s) == n
    ensures EndsRequest(s[..n]) && NoEndUpTo(s, before) && forall k :: 0 <= k < n ==> IsAllowed(s[k])
  {
    RequestLenIsFirstBlankLine(s);
    var i: nat :| i < |s| && BlankLine(s, i) > 0 && n == i + BlankLine(s, i)
      && forall k :: 0 <= k < i ==> !Malformed(s[k]) && BlankLine(s, k) == 0;
    BlankLineEnds(s, i, n);
    forall k | 0 <= k < n ensures IsAllowed(s[k]) {
      AllowedIff(s[k]);
    }
    forall m: nat | m <= before ensures !EndsRequest(s[..m]) {
      if EndsRequest(s[..m]) {
        var j := EndHasBlankLine(s, m);
        if i < j {
          BlankLinesInOrder(s, i, j);
        }
      }
    }
  }

  /** A request is malformed exactly when it has a byte that is not allowed and no request ends before it. */
  lemma MalformedOnBytes(s: seq<Byte>)
    ensures RequestLen(s) == -1 <==> exists i: nat :: i < |s| && !IsAllowed(s[i]) && NoEndUpTo(s, i)
  {
    if RequestLen(s) == -1 {
      RequestLenIsFirstBlankLine(s);
      var i: nat :| i < |s| && Malformed(s[i]) && forall k :: 0 <= k < i ==> BlankLine(s, k) == 0;
      AllowedIff(s[i]);
      NoEndBefore(s, i);
    }
    if i: nat :| i < |s| && !IsAllowed(s[i]) && NoEndUpTo(s, i) {
      MalformedComesFirst(s, i);
    }
  }

  lemma MalformedComesFirst(s: seq<Byte>, i: nat)
    requires i < |s| && !IsAllowed(s[i]) && NoEndUpTo(s, i)
    ensures RequestLen(s) == -1
  {
    AllowedIff(s[i]);
    NoBlankLineBefore(s, i);
    assert Decides(s, i);
    var j := FirstOf(s, i);
    FirstDecisionFrom(s, 0, j);
    if j < i {
      assert BlankLine(s, j) == 0;
    }
  }

  /** Once an answer is given, further bytes do not change it. */
  lemma RequestLenIsStable(s: seq<Byte>, more: seq<Byte>)
    requires RequestLen(s) != 0
    ensures RequestLen(s + more) == RequestLen(s)
  {
    var i := NonzeroDecides(s, 0);
    var t := s + more;
    forall k | 0 <= k < i ensures !Decides(t, k) {
      assert !Decides(s, k);
      // A blank line that needed a byte beyond `s` would begin after `i`.
      assert i < k + 2 ==> i == k + 1;
    }
    FirstDecisionFrom(s, 0, i);
    FirstDecisionFrom(t, 0, i);
  }

  /** What a connection holds once it has received `stream`: the answer, the request taken out, and what is left. */
  function Framed(stream: seq<Byte>, parses: seq<Byte> -> bool): (r: (int, seq<Byte>, seq<Byte>))
    ensures r.1 + r.2 == stream
  {
    RequestLenIsFirstBlankLine(stream);
    var n := RequestLen(stream);
    if n <= 0 then (n, [], stream)
    else (if parses(stream[..n]) then n else -1, stream[..n], stream[n..])
  }

  class Connection {
    const io: Iobuf
    /** Whether parse_http_message accepts the text of a request. */
    const parses: seq<Byte> -> bool
    var requestLen: int
    var request: seq<Byte>
    /** All the bytes that the buffer has accepted. */
    ghost var received: seq<Byte>

    ghost predicate Valid()
      reads this, io, io.buf
    {
      io.Valid() && (requestLen, request, io.Contents()) == Framed(received, parses)
    }

    constructor (parses: seq<Byte> -> bool)
      ensures Valid() && fresh(io) && fresh(io.buf) && received == [] && this.parses == parses
    {
      io := new Iobuf();
      this.parses := parses;
      requestLen, request, received := 0, [], [];
      new;
      assert io.Contents() == [];
    }

    /** Takes the request out of the buffer as soon as it is complete. */
    method TryParse()
      requires io.Valid()
      requires requestLen == 0 ==> request == [] && received == io.Contents()
      requires requestLen != 0 ==> (requestLen, request, io.Contents()) == Framed(received, parses)
      modifies this, io, io.buf
      ensures Valid() && received == old(received) && io.buf == old(io.buf)
    {
      if requestLen == 0 {
        requestLen := GetRequestLen(io.buf[..io.len]);
        RequestLenIsFirstBlankLine(received);
        if requestLen > 0 {
          request := io.buf[..requestLen];
          assert request == received[..requestLen];
          io.DiscardLeading(requestLen);
          requestLen := if parses(request) then requestLen else -1;
        }
      }
    }

    /** One read from the socket. */
    method Receive(data: seq<Byte>, allocates: bool)
      requires Valid() && data != [] && io.len + |data| <= MAX_BUFFERED
      modifies this, io, io.buf
      ensures Valid() && (io.buf == old(io.buf) || fresh(io.buf))
      ensures received == old(received) + data || received == old(received)
      ensures allocates ==> received == old(received) + data
    {
      var n := io.Spool(data, allocates);
      if n > 0 {
        received := received + data;
        FramedGrows(old(received), data, parses);
      }
      TryParse();
    }
  }

  /** After an answer, new bytes only lengthen what is left. */
  lemma FramedGrows(stream: seq<Byte>, data: seq<Byte>, parses: seq<Byte> -> bool)
    ensures
      var (n, request, rest) := Framed(stream, parses);
      n != 0 ==> Framed(stream + data, parses) == (n, request, rest + data)
  {
    RequestLenIsFirstBlankLine(stream);
    var n := RequestLen(stream);
    if n != 0 {
      RequestLenIsStable(stream, data);
      if n > 0 {
        assert (stream + data)[..n] == stream[..n];
        assert (stream + data)[n..] == stream[n..] + data;
      }
    }
  }

  /** Cut a stream as you like: the first answer that some cut point gives is the answer for the whole stream. */
  lemma {:induction false} FirstAnswerIsFinal(chunks: seq<seq<Byte>>, k: nat)
    requires k <= |chunks| && RequestLen(Flatten(chunks[..k])) != 0
    ensures RequestLen(Flatten(chunks)) == RequestLen(Flatten(chunks[..k]))
  {
    if k == |chunks| {
      assert chunks[..k] == chunks;
    } else {
      var init := chunks[..|chunks| - 1];
      assert init[..k] == chunks[..k];
      FirstAnswerIsFinal(init, k);
      RequestLenIsStable(Flatten(init), chunks[|chunks| - 1]);
    }
  }

  lemma {:induction false} FlattenPrefixLength(chunks: seq<seq<Byte>>, k: nat)
    requires k <= |chunks|
    ensures |Flatten(chunks[..k])| <= |Flatten(chunks)|
  {
    if k == |chunks| {
      assert chunks[..k] == chunks;
    } else {
      assert chunks[..|chunks| - 1][..k] == chunks[..k];
      FlattenPrefixLength(chunks[..|chunks| - 1], k);
    }
  }

  /** A connection that reads a stream in pieces ends up as if it had read it at once. */
  method ReadAll(chunks: seq<seq<Byte>>, parses: seq<Byte> -> bool) returns (c: Connection)
    requires forall k :: 0 <= k < |chunks| ==> chunks[k] != []
    requires |Flatten(chunks)| <= MAX_BUFFERED
    ensures c.Valid() && c.received == Flatten(chunks)
    ensures (c.requestLen, c.request, c.io.Contents()) == Framed(Flatten(chunks), parses)
  {
    c := new Connection(parses);
    var i := 0;
    while i < |chunks|
      invariant i <= |chunks| && c.Valid() && c.received == Flatten(chunks[..i]) && c.parses == parses
      invariant fresh(c) && fresh(c.io) && fresh(c.io.buf)
    {
      assert chunks[..i + 1][..i] == chunks[..i];
      FlattenPrefixLength(chunks, i + 1);
      assert |c.io.Contents()| <= |c.received|;
      c.Receive(chunks[i], true);
      i := i + 1;
    }
    assert chunks[..i] == chunks;
  }
}
