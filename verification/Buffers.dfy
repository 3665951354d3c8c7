/**
  The byte containers the parsers and printers work on.  A buffer is the bytes
  still to be read; a receive stream is the bytes still to come before the peer
  finished it; an output buffer is the bytes put so far.
 */
module Buffers {
  import opened Words

  class Buf {
    var data: seq<byte>

    constructor (data: seq<byte>)
      ensures this.data == data
    {
      this.data := data;
    }

    predicate HasRemaining()
      reads this
    {
      data != []
    }

    method GetU8() returns (b: byte)
      requires HasRemaining()
      modifies this
      ensures b == old(data)[0] && data == old(data)[1..]
    {
      b := data[0];
      data := data[1..];
    }

    /** Puts a peeked byte back in front, as chaining it with the rest does. */
    method Unread(b: byte)
      modifies this
      ensures data == [b] + old(data)
    {
      data := [b] + data;
    }

    method CopyToBytes(n: nat) returns (s: seq<byte>)
      requires n <= |data|
      modifies this
      ensures s == old(data)[..n] && data == old(data)[n..]
    {
      s := data[..n];
      data := data[n..];
    }

    method CopyToSlice(dst: array<byte>, lo: nat, hi: nat)
      requires lo <= hi <= dst.Length && hi - lo <= |data|
      modifies this, dst
      ensures data == old(data)[hi - lo..]
      ensures dst[..] == old(dst[..lo]) + old(data)[..hi - lo] + old(dst[hi..])
    {
      forall i | lo <= i < hi {
        dst[i] := data[i - lo];
      }
      data := data[hi - lo..];
    }
  }

  class RecvStream {
    var data: seq<byte>

    constructor (data: seq<byte>)
      ensures this.data == data
    {
      this.data := data;
    }

    /** Fills the slice, or reports that the stream finished first; the bytes it
        had are then gone. */
    method ReadExact(dst: array<byte>, lo: nat, hi: nat) returns (ok: bool)
      requires lo <= hi <= dst.Length
      modifies this, dst
      ensures ok == (hi - lo <= |old(data)|)
      ensures ok ==> data == old(data)[hi - lo..]
      ensures ok ==> dst[..] == old(dst[..lo]) + old(data)[..hi - lo] + old(dst[hi..])
      ensures !ok ==> data == []
    {
      ok := hi - lo <= |data|;
      if ok {
        forall i | lo <= i < hi {
          dst[i] := data[i - lo];
        }
        data := data[hi - lo..];
      } else {
        data := [];
      }
    }
  }

  class BufMut {
    var data: seq<byte>

    constructor ()
      ensures data == []
    {
      data := [];
    }

    method PutU8(b: byte)
      modifies this
      ensures data == old(data) + [b]
    {
      data := data + [b];
    }

    method PutSlice(s: seq<byte>)
      modifies this
      ensures data == old(data) + s
    {
      data := data + s;
    }
  }
}
