/** PacketWriter of packet/packet.go: frames assembled in pooled buffers. */
module PacketWriting {
  import opened Bytes
  import opened Streams
  import opened VarInt
  import opened VarIntCodec
  import opened BufferPool
  import opened PacketFormat

  datatype Status = Sent | NotSent(error: Error)

  /** PutVarInt(buf[off:], num), as an extension of what precedes it. */
  method AppendVarInt(buf: array<byte>, off: nat, num: int32) returns (n: nat)
    requires off + VarIntLen(num) <= buf.Length
    modifies buf
    ensures n == VarIntLen(num) == |EncodeVarInt(num)|
    ensures buf[..off + n] == old(buf[..off]) + EncodeVarInt(num)
  {
    hide Leb128, VarIntLen;
    n := PutVarInt(buf, off, num);
    assert buf[..off + n] == buf[..off] + buf[off..off + n];
  }

  /** PutVarInt(buf[off:], id), then copy(buf[off+n:], data). */
  method PutPayload(buf: array<byte>, off: nat, id: int32, data: array<byte>, from: nat, to: nat) returns (end: nat)
    requires buf != data && from <= to <= data.Length && off + VarIntLen(id) + (to - from) <= buf.Length
    modifies buf
    ensures end == off + VarIntLen(id) + (to - from)
    ensures buf[..end] == old(buf[..off]) + Payload(Packet(id, data[from..to]))
    ensures |Payload(Packet(id, data[from..to]))| == VarIntLen(id) + (to - from)
  {
    hide Leb128, VarIntLen;
    var n := AppendVarInt(buf, off, id);
    CopyInto(buf, off + n, data[from..to]);
    end := off + n + (to - from);
    assert old(buf[..off]) + EncodeVarInt(id) + data[from..to] == old(buf[..off]) + (EncodeVarInt(id) + data[from..to]);
  }

  /** The length of the body, the length of the payload, and the compressed bytes. */
  method PutDeflated(buf: array<byte>, totalLen: nat, bodyLen: nat, c: seq<byte>)
    requires bodyLen == VarIntLen(Truncate32(totalLen)) + |c|
    requires VarIntLen(Truncate32(bodyLen)) + bodyLen <= buf.Length
    modifies buf
    ensures buf[..VarIntLen(Truncate32(bodyLen)) + bodyLen] == Framed(EncodeVarInt(Truncate32(totalLen)) + c)
  {
    hide Leb128, VarIntLen, Truncate32, EncodeVarInt;
    var n := AppendVarInt(buf, 0, Truncate32(bodyLen));
    var m := AppendVarInt(buf, n, Truncate32(totalLen));
    CopyInto(buf, n + m, c);
    ghost var a, b := EncodeVarInt(Truncate32(bodyLen)), EncodeVarInt(Truncate32(totalLen));
    assert buf[..n + m + |c|] == a + b + c == a + (b + c);
  }

  /** The length of the body, a zero data length, and the payload. */
  method PutUncompressed(buf: array<byte>, pktLen: nat, id: int32, data: array<byte>, from: nat, to: nat)
    requires buf != data && from <= to <= data.Length && pktLen == 1 + VarIntLen(id) + (to - from)
    requires VarIntLen(Truncate32(pktLen)) + pktLen <= buf.Length
    modifies buf
    ensures buf[..VarIntLen(Truncate32(pktLen)) + pktLen] ==
            Framed(EncodeVarInt(0) + Payload(Packet(id, data[from..to])))
  {
    hide Leb128, Truncate32, VarIntLen, EncodeVarInt, Payload;
    ZeroIsOneByte();
    var n := AppendVarInt(buf, 0, Truncate32(pktLen));
    var k := AppendVarInt(buf, n, 0);
    var end := PutPayload(buf, n + k, id, data, from, to);
    ghost var a, b, c := EncodeVarInt(Truncate32(pktLen)), EncodeVarInt(0), Payload(Packet(id, data[from..to]));
    assert buf[..end] == a + b + c == a + (b + c);
  }

  lemma ZeroIsOneByte()
    ensures VarIntLen(0) == 1
  {
  }

  class PacketWriter {
    const dst: ByteSink
    const pool: Pool
    const threshold: int
    const z: Zlib

    constructor (dst: ByteSink, pool: Pool, threshold: int, z: Zlib)
      ensures this.dst == dst && this.pool == pool && this.threshold == threshold && this.z == z
    {
      this.dst, this.pool, this.threshold, this.z := dst, pool, threshold, z;
    }

    /** What a frame does to the destination. */
    twostate predicate Wrote(frame: seq<byte>, r: Status)
      reads dst
    {
      && dst.written == old(dst.written) + frame[..Min(|frame|, old(dst.room))]
      && dst.room == old(dst.room) - Min(|frame|, old(dst.room))
      && r == if |frame| <= old(dst.room) then Sent else NotSent(WriteFailed)
    }

    /** Writes the frame of the packet; stale bytes of the pooled buffers never show. */
    method WritePacket(id: int32, data: array<byte>, from: nat, to: nat) returns (r: Status)
      requires pool.Valid() && data !in pool.free && from <= to <= data.Length
      modifies dst, pool, pool.free
      ensures PoolKept(pool) && pool.live == old(pool.live)
      ensures data[from..to] == old(data[from..to])
      ensures var f := Frame(Packet(id, data[from..to]), threshold, z);
              if f.Some? then Wrote(f.value, r)
              else r == NotSent(CompressionFailed) && dst.written == old(dst.written) && dst.room == old(dst.room)
    {
      hide Leb128, VarIntLen, Truncate32, EncodeVarInt;
      if threshold >= 0 {
        r := WriteCompressed(id, data, from, to);
        return;
      }
      var totalLen := VarIntLen(id) + (to - from);
      VarIntLenExact(Truncate32(totalLen));
      var pktLen := VarIntLen(Truncate32(totalLen)) + totalLen;
      var buf := pool.GetBuffer(pktLen);
      var n := AppendVarInt(buf, 0, Truncate32(totalLen));
      var end := PutPayload(buf, n, id, data, from, to);
      assert buf[..pktLen] == Framed(Payload(Packet(id, data[from..to])));
      r := Send(buf, pktLen);
    }

    /** dst.Write(buf[:n]), then the buffer goes back. */
    method Send(buf: array<byte>, n: nat) returns (r: Status)
      requires pool.Valid() && n <= buf.Length && buf in pool.live
      modifies dst, pool
      ensures pool.Valid() && pool.live == old(pool.live) - {buf}
      ensures forall i :: 0 <= i < |pool.free| ==> pool.free[i] in old(pool.free) || pool.free[i] == buf
      ensures Wrote(old(buf[..n]), r)
    {
      var ok := dst.Write(buf[..n]);
      pool.PutBuffer(buf);
      r := if ok then Sent else NotSent(WriteFailed);
    }

    method WriteCompressed(id: int32, data: array<byte>, from: nat, to: nat) returns (r: Status)
      requires pool.Valid() && data !in pool.free && from <= to <= data.Length && threshold >= 0
      modifies dst, pool, pool.free
      ensures PoolKept(pool) && pool.live == old(pool.live)
      ensures data[from..to] == old(data[from..to])
      ensures var f := Frame(Packet(id, data[from..to]), threshold, z);
              if f.Some? then Wrote(f.value, r)
              else r == NotSent(CompressionFailed) && dst.written == old(dst.written) && dst.room == old(dst.room)
    {
      VarIntLenExact(id);
      var totalLen := VarIntLen(id) + (to - from);
      if totalLen < threshold {
        r := WriteUncompressed(id, data, from, to);
      } else {
        r := WriteDeflated(id, data, from, to, totalLen);
      }
    }

    /** Below the threshold: a zero data length and the payload as it is. */
    method WriteUncompressed(id: int32, data: array<byte>, from: nat, to: nat) returns (r: Status)
      requires pool.Valid() && data !in pool.free && from <= to <= data.Length
      modifies dst, pool, pool.free
      ensures PoolKept(pool) && pool.live == old(pool.live)
      ensures data[from..to] == old(data[from..to])
      ensures Wrote(Framed(EncodeVarInt(0) + Payload(Packet(id, data[from..to]))), r)
    {
      hide Leb128, Truncate32, VarIntLen, EncodeVarInt, Payload;
      var pktLen := 1 + VarIntLen(id) + (to - from);
      var total := VarIntLen(Truncate32(pktLen)) + pktLen;
      var buf := pool.GetBuffer(total);
      PutUncompressed(buf, pktLen, id, data, from, to);
      r := Send(buf, total);
    }

    /** The payload is assembled in one pooled buffer, the frame in another. */
    method WriteDeflated(id: int32, data: array<byte>, from: nat, to: nat, totalLen: nat) returns (r: Status)
      requires pool.Valid() && data !in pool.free && from <= to <= data.Length
      requires totalLen == |EncodeVarInt(id)| + (to - from)
      modifies dst, pool, pool.free
      ensures PoolKept(pool) && pool.live == old(pool.live)
      ensures data[from..to] == old(data[from..to])
      ensures var payload := Payload(Packet(id, data[from..to]));
              var c := z.compress(payload);
              if c.Some? then Wrote(Framed(EncodeVarInt(Truncate32(|payload|)) + c.value), r)
              else r == NotSent(CompressionFailed) && dst.written == old(dst.written) && dst.room == old(dst.room)
    {
      hide Leb128, VarIntLen, Truncate32;
      var c := Deflate(id, data, from, to, totalLen);
      if c.None? {
        return NotSent(CompressionFailed);
      }
      r := SendDeflated(totalLen, c.value);
    }

    method SendDeflated(totalLen: nat, c: seq<byte>) returns (r: Status)
      requires pool.Valid()
      modifies dst, pool, pool.free
      ensures PoolKept(pool) && pool.live == old(pool.live)
      ensures Wrote(Framed(EncodeVarInt(Truncate32(totalLen)) + c), r)
    {
      hide Leb128, VarIntLen, Truncate32, EncodeVarInt;
      var bodyLen := VarIntLen(Truncate32(totalLen)) + |c|;
      var total := VarIntLen(Truncate32(bodyLen)) + bodyLen;
      var buf := pool.GetBuffer(total);
      PutDeflated(buf, totalLen, bodyLen, c);
      r := Send(buf, total);
    }

    method Deflate(id: int32, data: array<byte>, from: nat, to: nat, totalLen: nat) returns (c: Option<seq<byte>>)
      requires pool.Valid() && data !in pool.free && from <= to <= data.Length
      requires totalLen == |EncodeVarInt(id)| + (to - from)
      modifies pool, pool.free
      ensures PoolKept(pool) && pool.live == old(pool.live)
      ensures data[from..to] == old(data[from..to])
      ensures c == z.compress(Payload(Packet(id, data[from..to])))
      ensures data !in pool.free
    {
      hide Leb128, VarIntLen, EncodeVarInt, Payload;
      VarIntLenExact(id);
      var payload := pool.GetBuffer(totalLen);
      var end := PutPayload(payload, 0, id, data, from, to);
      assert payload[..end] == Payload(Packet(id, data[from..to]));
      c := z.compress(payload[..end]);
      pool.PutBuffer(payload);
    }
  }
}
