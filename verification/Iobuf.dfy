/** The growable input and output buffers of a connection, and the framing of the request at the head of the input. */
module Iobuf {
  import opened Bytes

  /** The largest length whose grown capacity still fits a C int. */
  const MAX_BUFFERED: int := 1789569705

  class Iobuf {
    var buf: array<Byte>
    var size: int
    var len: int

    ghost predicate Valid()
      reads this
    {
      0 <= len <= size == buf.Length
    }

    ghost function Contents(): seq<Byte>
      requires Valid()
      reads this, buf
    {
      buf[..len]
    }

    constructor ()
      ensures Valid() && fresh(buf) && Contents() == []
    {
      buf := new Byte[0];
      size, len := 0, 0;
    }

    /** Appends `data`, reallocating when it fills the buffer; `allocates` says whether a reallocation succeeds. */
    method Spool(data: seq<Byte>, allocates: bool) returns (n: int)
      requires Valid() && len + |data| <= MAX_BUFFERED
      modifies this, buf
      ensures Valid() && (buf == old(buf) || fresh(buf))
      ensures n == if data == [] || old(len) + |data| < old(size) || allocates then |data| else 0
      ensures Contents() == if n > 0 then old(Contents()) + data else old(Contents())
    {
      if data == [] {
        return 0;
      }
      var newLen := len + |data|;
      if newLen < size {
        forall i | 0 <= i < |data| { buf[len + i] := data[i]; }
        len := newLen;
      } else if allocates {
        var grown := newLen * 6 / 5;
        var p := new Byte[grown](_ => 0);
        forall i | 0 <= i < len { p[i] := buf[i]; }
        buf := p;
        forall i | 0 <= i < |data| { buf[len + i] := data[i]; }
        len := newLen;
        size := grown;
      } else {
        return 0;
      }
      return |data|;
    }

    /** Drops the first `n` bytes, moving the others to the front; a count out of range drops nothing. */
    method DiscardLeading(n: int)
      requires Valid()
      modifies this, buf
      ensures Valid() && buf == old(buf)
      ensures Contents() == if 0 <= n <= old(len) then old(Contents())[n..] else old(Contents())
    {
      if n >= 0 && n <= len {
        forall i | 0 <= i < len - n { buf[i] := buf[i + n]; }
        len := len - n;
      }
    }
  }
}
