/** The byte stream a reader consumes and the destination a writer fills. */
module Streams {
  import opened Bytes

  /** An io.Reader at the front of the bytes that are still to come; the connection ends after them. */
  class ByteSource {
    var data: seq<byte>

    constructor (data: seq<byte>)
      ensures this.data == data
    {
      this.data := data;
    }

    /** ReadByte of an io.ByteReader. */
    method ReadByte() returns (ok: bool, b: byte)
      modifies this
      ensures ok == (old(data) != [])
      ensures ok ==> b == old(data)[0] && data == old(data)[1..]
      ensures !ok ==> data == old(data)
    {
      if data == [] {
        return false, 0;
      }
      ok, b, data := true, data[0], data[1..];
    }

    /** io.ReadFull into buf[from..to]: all of it, or whatever was left and an error. */
    method ReadFull(buf: array<byte>, from: nat, to: nat) returns (ok: bool)
      requires from <= to <= buf.Length
      modifies this, buf
      ensures ok == (to - from <= |old(data)|)
      ensures ok ==> buf[from..to] == old(data)[..to - from] && data == old(data)[to - from..]
      ensures !ok ==> data == []
      ensures buf[..from] == old(buf[..from]) && buf[to..] == old(buf[to..])
    {
      var n := Min(to - from, |data|);
      ok := n == to - from;
      forall k | 0 <= k < n {
        buf[from + k] := data[k];
      }
      data := data[n..];
    }
  }

  /** An io.Writer that accepts `room` more bytes and reports an error once they are used up. */
  class ByteSink {
    var written: seq<byte>
    var room: nat

    constructor (room: nat)
      ensures written == [] && this.room == room
    {
      this.written, this.room := [], room;
    }

    method Write(bytes: seq<byte>) returns (ok: bool)
      modifies this
      ensures ok == (|bytes| <= old(room))
      ensures written == old(written) + bytes[..Min(|bytes|, old(room))]
      ensures room == old(room) - Min(|bytes|, old(room))
    {
      var n := Min(|bytes|, room);
      ok := n == |bytes|;
      written, room := written + bytes[..n], room - n;
    }
  }
}
