/** PacketReader of packet/packet.go: frames taken apart in pooled buffers. */
module PacketReading {
  import opened Bytes
  import opened Streams
  import opened VarInt
  import opened VarIntCodec
  import opened BufferPool
  import opened PacketFormat

  /** What a reader reports besides the data: the packet's id or an error. */
  datatype ReadStatus = ReadOk(id: int32) | ReadErr(error: Error)

  function ToOutcome(r: ReadStatus, data: seq<byte>): Outcome {
    match r
    case ReadOk(id) => Got(Packet(id, data))
    case ReadErr(e) => Failed(e)
  }

  /** What the reader's own VarInt loops take from a stream; unlike ReadVarInt they discard nothing. */
  function LengthFromStream(s: seq<byte>): (FromStream, seq<byte>) {
    match DecodeVarInt(s)
    case Ok(value, rest) => (Number(value), rest)
    case Err(e) =>
      if e == PacketTooShort then (NoNumber(EndOfStream), []) else (NoNumber(MalformedVarInt), s[MAX_VARINT_LEN..])
  }

  /** make([]byte, len(bytes)) and copy. */
  method NewFrom(bytes: seq<byte>) returns (data: array<byte>)
    ensures fresh(data) && data[..] == bytes
  {
    data := new byte[|bytes|](i requires 0 <= i < |bytes| => bytes[i]);
  }

  class PacketReader {
    const src: ByteSource
    const pool: Pool
    const threshold: int
    const z: Zlib

    constructor (src: ByteSource, pool: Pool, threshold: int, z: Zlib)
      ensures this.src == src && this.pool == pool && this.threshold == threshold && this.z == z
    {
      this.src, this.pool, this.threshold, this.z := src, pool, threshold, z;
    }

    /** readVarInt: one byte at a time through a one-byte buffer. */
    method ReadVarInt() returns (r: FromStream)
      modifies src
      ensures (r, src.data) == LengthFromStream(old(src.data))
    {
      hide Scan, Reading, Plus;
      var val: uint32 := 0;
      ghost var s := src.data;
      var i := 0;
      var buf := new byte[1];
      ReadingStart(s, 5);
      while true
        invariant 0 <= i < 5 && i <= |s| && Reading(s, i, val, 5) && src.data == s[i..]
        decreases 5 - i
      {
        var ok := src.ReadFull(buf, 0, 1);
        if !ok {
          ReadingEnd(s, i, val, 5);
          return NoNumber(EndOfStream);
        }
        var b := buf[0];
        assert b == buf[0..1][0] == s[i];
        if b < 128 {
          ReadingEnd(s, i, val, 5);
          return Number(Signed32(Accumulate32(val, b, i)));
        }
        if i + 1 >= 5 {
          ReadingEnd(s, i, val, 5);
          return NoNumber(MalformedVarInt);
        }
        ReadingStep(s, i, val, 5);
        val := Accumulate32(val, b, i);
        i := i + 1;
      }
    }

    /**
     * ReadPacket. The data is a new buffer the pool knows nothing of. Every exit offers back what it
     * took, except a negative announced data length, which panics with the body still out, and with it
     * the buffer that was at the front of the list.
     */
    method ReadPacket() returns (r: ReadStatus, data: array<byte>)
      requires pool.Valid()
      modifies src, pool, pool.free
      ensures PoolKept(pool)
      ensures (ToOutcome(r, data[..]), src.data) == Read(old(src.data), threshold, z)
      ensures if r == ReadErr(Panic) then old(pool.live) < pool.live else pool.live == old(pool.live)
      ensures forall b :: b in pool.live ==> b in old(pool.live) || b in old(pool.free) || fresh(b)
      ensures fresh(data) && data !in pool.free && data !in pool.live
    {
      hide Scan, DecodeVarInt, ParseCompressed;
      var h := ReadVarInt();
      if h.NoNumber? {
        data := new byte[0];
        return ReadErr(h.error), data;
      }
      var packetLen := h.value;
      if packetLen < 0 || packetLen > MAX_PACKET_SIZE {
        data := new byte[0];
        return ReadErr(PacketTooLarge), data;
      }
      r, data := ReadBody(packetLen);
    }

    /** The body in a pooled buffer, parsed in the mode the reader is in. */
    method ReadBody(packetLen: nat) returns (r: ReadStatus, data: array<byte>)
      requires pool.Valid()
      modifies src, pool, pool.free
      ensures PoolKept(pool)
      ensures if packetLen <= |old(src.data)|
              then && ToOutcome(r, data[..]) == ParseBody(old(src.data)[..packetLen], threshold, z)
                   && src.data == old(src.data)[packetLen..]
              else r == ReadErr(EndOfStream) && src.data == []
      ensures if r == ReadErr(Panic) then old(pool.live) < pool.live else pool.live == old(pool.live)
      ensures forall b :: b in pool.live ==> b in old(pool.live) || b in old(pool.free) || fresh(b)
      ensures fresh(data) && data !in pool.free && data !in pool.live
    {
      hide DecodeVarInt, ParseCompressed, ParsePayload;
      var body := pool.GetBuffer(packetLen);
      var ok := src.ReadFull(body, 0, packetLen);
      if !ok {
        pool.PutBuffer(body);
        data := new byte[0];
        return ReadErr(EndOfStream), data;
      }
      assert body[..packetLen] == body[0..packetLen];
      if threshold >= 0 {
        r, data := ReadCompressed(body, packetLen);
        return;
      }
      r, data := FinishPayload(body[..packetLen]);
      pool.PutBuffer(body);
    }

    /** ReadVarIntFromBytes for the id, then a copy of the rest. */
    method FinishPayload(payload: seq<byte>) returns (r: ReadStatus, data: array<byte>)
      ensures ToOutcome(r, data[..]) == ParsePayload(payload) && r != ReadErr(Panic)
      ensures fresh(data)
    {
      hide Scan;
      var d := ReadVarIntFromBytes(payload);
      if d.Err? {
        data := new byte[0];
        return ReadErr(d.error), data;
      }
      data := NewFrom(d.rest);
      r := ReadOk(d.value);
    }

    method ReadCompressed(body: array<byte>, len: nat) returns (r: ReadStatus, data: array<byte>)
      requires pool.Valid() && body in pool.live && len <= body.Length
      modifies pool, pool.free
      ensures pool.Valid()
      ensures forall i :: 0 <= i < |pool.free| ==>
                pool.free[i] in old(pool.free) || fresh(pool.free[i]) || pool.free[i] == body
      ensures ToOutcome(r, data[..]) == ParseCompressed(old(body[..len]), z)
      ensures pool.live == if r != ReadErr(Panic) then old(pool.live) - {body}
                           else if old(pool.free) == [] then old(pool.live) else old(pool.live) + {old(pool.free)[0]}
      ensures fresh(data) && data !in pool.free && data !in pool.live
    {
      hide Scan, DecodeVarInt;
      var d := ReadVarIntFromBytes(body[..len]);
      if d.Err? {
        pool.PutBuffer(body);
        data := new byte[0];
        return ReadErr(d.error), data;
      }
      var dataLen := d.value;
      if dataLen == 0 {
        r, data := FinishPayload(d.rest);
        pool.PutBuffer(body);
        return;
      }
      if dataLen > MAX_COMPRESSED_SIZE {
        pool.PutBuffer(body);
        data := new byte[0];
        return ReadErr(PacketTooLarge), data;
      }
      if dataLen < 0 {
        pool.GetNegative();
        data := new byte[0];
        return ReadErr(Panic), data;
      }
      r, data := ReadDeflated(d.rest, dataLen);
      pool.PutBuffer(body);
    }

    /** The decompressed payload passes through a second pooled buffer. */
    method ReadDeflated(deflated: seq<byte>, dataLen: nat) returns (r: ReadStatus, data: array<byte>)
      requires pool.Valid()
      modifies pool, pool.free
      ensures PoolKept(pool) && pool.live == old(pool.live)
      ensures ToOutcome(r, data[..]) ==
              match z.decompress(deflated, dataLen)
              case None => Failed(CompressionFailed)
              case Some(d) => ParsePayload(Fit(d, dataLen))
      ensures r != ReadErr(Panic)
      ensures fresh(data) && data !in pool.free && data !in pool.live
    {
      hide Scan, DecodeVarInt, ParsePayload, Fit;
      var decompressed := pool.GetBuffer(dataLen);
      var ok := DecompressPayload(deflated, decompressed, dataLen);
      if !ok {
        pool.PutBuffer(decompressed);
        data := new byte[0];
        return ReadErr(CompressionFailed), data;
      }
      r, data := FinishPayload(decompressed[..dataLen]);
      pool.PutBuffer(decompressed);
    }

    /** decompressPayload: what the result does not reach is zeroed, so no stale byte is parsed. */
    method DecompressPayload(deflated: seq<byte>, dst: array<byte>, n: nat) returns (ok: bool)
      requires n <= dst.Length
      modifies dst
      ensures ok == z.decompress(deflated, n).Some?
      ensures ok ==> dst[..n] == Fit(z.decompress(deflated, n).value, n)
    {
      var result := z.decompress(deflated, n);
      if result.None? {
        return false;
      }
      var k := Min(|result.value|, n);
      CopyInto(dst, 0, result.value[..k]);
      var i := k;
      while i < n
        invariant k <= i <= n
        invariant dst[..k] == result.value[..k]
        invariant forall j :: k <= j < i ==> dst[j] == 0
      {
        dst[i] := 0;
        i := i + 1;
      }
      return true;
    }

    /** readUntilVarInt: the bytes up to the first without continuation bit, into the buffer. */
    method ReadUntilVarInt(buf: array<byte>) returns (ok: bool, error: Error, n: nat)
      requires buf.Length >= MAX_VARINT_LEN
      modifies src, buf
      ensures match Scan(old(src.data), MAX_VARINT_LEN)
              case Value(_, used) => ok && n == used && buf[..n] == old(src.data)[..n] && src.data == old(src.data)[n..]
              case Short => !ok && error == EndOfStream && src.data == []
              case Malformed => !ok && error == MalformedVarInt && src.data == old(src.data)[MAX_VARINT_LEN..]
    {
      hide Scan, Plus, Resumed;
      ghost var s := src.data;
      ghost var val: nat := 0;
      ReadingStart(s, 5);
      var i := 0;
      while i < MAX_VARINT_LEN
        invariant 0 <= i <= 5 && i <= |s| && src.data == s[i..] && buf[..i] == s[..i]
        invariant if i < 5 then Reading(s, i, val, 5) else Scan(s, 5) == Malformed
      {
        ok := src.ReadFull(buf, i, i + 1);
        if !ok {
          ReadingEnd(s, i, val, 5);
          return false, EndOfStream, 0;
        }
        assert buf[i] == buf[i..i + 1][0] == s[i];
        assert buf[..i + 1] == s[..i + 1];
        if buf[i] < 128 {
          ReadingEnd(s, i, val, 5);
          return true, EndOfStream, i + 1;
        }
        if i + 1 < 5 {
          ReadingStep(s, i, val, 5);
        } else {
          ReadingEnd(s, i, val, 5);
        }
        val := Plus(val, s[i], i);
        i := i + 1;
      }
      return false, MalformedVarInt, 0;
    }

    /** The loop of ReadRawPacket that decodes the length it just stored. */
    method DecodeLength(buf: array<byte>, n: nat) returns (packetLen: int32)
      requires n <= buf.Length && Scan(buf[..n], MAX_VARINT_LEN).Value? && Scan(buf[..n], MAX_VARINT_LEN).used == n
      ensures packetLen == Signed32(Scan(buf[..n], MAX_VARINT_LEN).raw % TWO32)
    {
      hide Scan, Plus, Resumed;
      ghost var s := buf[..n];
      var val: uint32 := 0;
      ReadingStart(s, 5);
      var i := 0;
      while true
        invariant 0 <= i < 5 && i <= n && Reading(s, i, val, 5)
        decreases n - i
      {
        StillReading(s, i, val);
        if buf[i] < 128 {
          ReadingEnd(s, i, val, 5);
          return Signed32(Accumulate32(val, buf[i], i));
        }
        ReadingStep(s, i, val, 5);
        val := Accumulate32(val, buf[i], i);
        i := i + 1;
      }
    }

    /** ReadRawPacket: on success one pooled buffer stays out, inside the returned RawPacket. */
    method ReadRawPacket() returns (err: Option<Error>, raw: RawPacket)
      requires pool.Valid()
      modifies src, pool, pool.free
      ensures PoolKept(pool)
      ensures fresh(raw) && raw.pool == pool
      ensures err.None? == ReadRaw(old(src.data)).0.RawOk? && src.data == ReadRaw(old(src.data)).1
      ensures err.None? ==>
                && raw.buf != null && raw.len <= raw.buf.Length
                && raw.buf[..raw.len] == ReadRaw(old(src.data)).0.buf
                && raw.buf !in old(pool.live) && pool.live == old(pool.live) + {raw.buf}
                && (raw.buf in old(pool.free) || fresh(raw.buf))
      ensures err.Some? ==>
                && raw.buf == null && pool.live == old(pool.live)
                && ReadRaw(old(src.data)).0 == RawErr(err.value)
    {
      hide Scan, ReadRaw;
      ghost var s := src.data;
      RawCases(s);
      var buf := pool.GetBuffer(MAX_VARINT_LEN);
      var ok, error, n := ReadUntilVarInt(buf);
      if !ok {
        pool.PutBuffer(buf);
        raw := new RawPacket(pool, null, 0);
        return Some(error), raw;
      }
      ScanOfPrefix(s, MAX_VARINT_LEN);
      var packetLen := DecodeLength(buf, n);
      if packetLen < 0 || packetLen > MAX_PACKET_SIZE {
        pool.PutBuffer(buf);
        raw := new RawPacket(pool, null, 0);
        return Some(PacketTooLarge), raw;
      }
      err, raw := ReadRawBody(buf, n, packetLen);
    }

    /** The first n bytes go to a buffer of the total size, and the old buffer goes back. */
    method MoveToLarger(buf: array<byte>, n: nat, total: nat) returns (fullBuf: array<byte>)
      requires pool.Valid() && buf in pool.live && n <= buf.Length && n <= total
      modifies pool, pool.free
      ensures pool.Valid() && fullBuf !in pool.free
      ensures forall i :: 0 <= i < |pool.free| ==> pool.free[i] in old(pool.free) || pool.free[i] == buf
      ensures fullBuf.Length >= total && fullBuf[..n] == old(buf[..n])
      ensures fullBuf !in old(pool.live) && pool.live == old(pool.live) - {buf} + {fullBuf}
      ensures fullBuf in old(pool.free) || fresh(fullBuf)
    {
      fullBuf := pool.GetBuffer(total);
      CopyInto(fullBuf, 0, buf[..n]);
      pool.PutBuffer(buf);
    }

    /** The second half: the length bytes are copied to a buffer for the whole frame. */
    method ReadRawBody(buf: array<byte>, n: nat, packetLen: nat) returns (err: Option<Error>, raw: RawPacket)
      requires pool.Valid() && buf in pool.live && n <= buf.Length
      modifies src, pool, pool.free
      ensures pool.Valid()
      ensures forall i :: 0 <= i < |pool.free| ==>
                pool.free[i] in old(pool.free) || fresh(pool.free[i]) || pool.free[i] == buf
      ensures fresh(raw) && raw.pool == pool
      ensures if packetLen <= |old(src.data)|
              then && err == None && src.data == old(src.data)[packetLen..]
                   && raw.buf != null && raw.len == n + packetLen <= raw.buf.Length
                   && raw.buf[..raw.len] == old(buf[..n]) + old(src.data)[..packetLen]
                   && raw.buf !in old(pool.live) && pool.live == old(pool.live) - {buf} + {raw.buf}
                   && (raw.buf in old(pool.free) || fresh(raw.buf))
              else && err == Some(EndOfStream) && src.data == []
                   && raw.buf == null && pool.live == old(pool.live) - {buf}
    {
      var total := n + packetLen;
      ghost var prefix := buf[..n];
      var fullBuf := MoveToLarger(buf, n, total);
      var ok := src.ReadFull(fullBuf, n, total);
      if !ok {
        pool.PutBuffer(fullBuf);
        raw := new RawPacket(pool, null, 0);
        return Some(EndOfStream), raw;
      }
      assert fullBuf[..total] == prefix + fullBuf[n..total];
      raw := new RawPacket(pool, fullBuf, total);
      err := None;
    }
  }

  /** What a raw read makes of a stream after a length of `used` bytes that says n. */
  function RawAfter(s: seq<byte>, used: nat, n: int): (RawOutcome, seq<byte>)
    requires used <= |s|
  {
    if n < 0 || n > MAX_PACKET_SIZE then (RawErr(PacketTooLarge), s[used..])
    else if |s| - used < n then (RawErr(EndOfStream), [])
    else (RawOk(s[..used] + s[used..][..n]), s[used..][n..])
  }

  lemma RawCases(s: seq<byte>)
    ensures Scan(s, MAX_VARINT_LEN).Short? ==> ReadRaw(s) == (RawErr(EndOfStream), [])
    ensures Scan(s, MAX_VARINT_LEN).Malformed? ==> ReadRaw(s) == (RawErr(MalformedVarInt), s[MAX_VARINT_LEN..])
    ensures Scan(s, MAX_VARINT_LEN).Value? ==>
              ReadRaw(s) ==
              RawAfter(s, Scan(s, MAX_VARINT_LEN).used, Signed32(Scan(s, MAX_VARINT_LEN).raw % TWO32))
  {
    hide Scan;
  }

  /** A length prefix that is known to be whole ends exactly at its last byte. */
  lemma StillReading(s: seq<byte>, i: nat, val: nat)
    requires Reading(s, i, val, 5) && Scan(s, 5).Value? && Scan(s, 5).used == |s|
    ensures i < |s| && (s[i] >= 128 ==> i + 1 < 5)
  {
    if i == |s| || (s[i] >= 128 && i + 1 == 5) {
      ReadingEnd(s, i, val, 5);
    }
  }

  /** RawPacket: a frame in a pooled buffer that its holder releases. */
  class RawPacket {
    const pool: Pool
    var buf: array?<byte>
    var len: nat

    constructor (pool: Pool, buf: array?<byte>, len: nat)
      ensures this.pool == pool && this.buf == buf && this.len == len
    {
      this.pool, this.buf, this.len := pool, buf, len;
    }

    /** PacketID: the VarInt after the length. */
    method PacketID() returns (r: Decoded)
      requires buf != null ==> len <= buf.Length
      ensures r == RawPacketId(if buf == null then [] else buf[..len])
    {
      hide Scan;
      if buf == null || len == 0 {
        return Decoded.Err(PacketTooShort);
      }
      r := ReadVarIntFromBytes(buf[..len]);
      if r.Ok? {
        r := ReadVarIntFromBytes(r.rest);
      }
    }

    /** Release: the buffer goes back once, however often Release is called. */
    method Release()
      requires pool.Valid() && (buf != null ==> buf in pool.live)
      modifies this, pool
      ensures pool.Valid() && buf == null
      ensures pool.live == if old(buf) == null then old(pool.live) else old(pool.live) - {old(buf)}
      ensures forall i :: 0 <= i < |pool.free| ==> pool.free[i] in old(pool.free) || pool.free[i] == old(buf)
    {
      if buf != null {
        pool.PutBuffer(buf);
        buf := null;
      }
    }
  }
}
