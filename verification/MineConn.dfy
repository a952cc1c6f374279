/** MineConn of conn/conn.go: packet reader and writer, cipher pair, flow control and pooled buffers in one object. */
module MineConn {
  import opened Bytes
  import opened Streams
  import opened BufferPool
  import opened Cfb8
  import opened Cfb8Stream
  import opened Flow
  import opened PacketFormat
  import opened PacketReading
  import opened PacketWriting
  import opened ConnProtocol

  const DEFAULT_BUFFER_SIZE := 1024

  /** The value of a cipher object. */
  ghost function CipherOf(c: CFB8?): Option<Cipher>
    reads if c == null then {} else {c.iv}
  {
    if c == null then None else Some(Cipher(c.block, c.iv[..]))
  }

  class MineConn {
    const src: ByteSource
    const dst: ByteSink
    const pool: Pool
    const z: Zlib
    const flow: FlowController
    const readBuf: array<byte>
    const writeBuf: array<byte>
    var reader: PacketReader
    var writer: PacketWriter
    var threshold: int32
    var encrypt: CFB8?
    var decrypt: CFB8?
    var closed: bool
    var connClosed: nat  // calls of conn.Close

    /** A cipher's own arrays are nobody else's: not pooled, not lent out. */
    ghost predicate OwnCipher(c: CFB8?, de: bool)
      reads pool
    {
      c != null ==>
        && c.Valid() && c.de == de
        && c.iv !in pool.free && c.tmp !in pool.free && c.iv !in pool.live && c.tmp !in pool.live
    }

    ghost predicate Valid()
      reads this, pool, flow
    {
      && pool.Valid()
      && reader.src == src && reader.pool == pool && reader.z == z
      && writer.dst == dst && writer.pool == pool && writer.z == z
      && reader.threshold == writer.threshold
      && OwnCipher(encrypt, false) && OwnCipher(decrypt, true)
      && (encrypt != null && decrypt != null ==> {encrypt.iv, encrypt.tmp} !! {decrypt.iv, decrypt.tmp})
      && flow.maxBytes == MAX_PACKET_SIZE * 100
      // no write is in flight between calls, so nothing is granted
      && flow.current == 0
      // the connection's two buffers are out until Close offers them back, once
      && (if closed then connClosed == 1
          else connClosed == 0 && readBuf in pool.live && writeBuf in pool.live && readBuf != writeBuf)
    }

    ghost function WriteEnd(): End
      reads this, if encrypt == null then {} else {encrypt.iv}
    {
      End(writer.threshold, CipherOf(encrypt))
    }

    ghost function ReadEnd(): End
      reads this, if decrypt == null then {} else {decrypt.iv}
    {
      End(reader.threshold, CipherOf(decrypt))
    }

    /** NewMineConn: no compression, no cipher. The threshold field itself starts at 0. */
    constructor (src: ByteSource, dst: ByteSink, pool: Pool, z: Zlib)
      requires pool.Valid()
      modifies pool
      ensures Valid() && !closed
      ensures this.src == src && this.dst == dst && this.pool == pool && this.z == z
      ensures WriteEnd() == End(-1, None) && ReadEnd() == End(-1, None) && threshold == 0
      ensures pool.live == old(pool.live) + {readBuf, writeBuf}
      ensures readBuf !in old(pool.live) && writeBuf !in old(pool.live)
      ensures fresh(flow) && forall i :: 0 <= i < |pool.free| ==> pool.free[i] in old(pool.free)
    {
      this.src, this.dst, this.pool, this.z := src, dst, pool, z;
      reader := new PacketReader(src, pool, -1, z);
      writer := new PacketWriter(dst, pool, -1, z);
      var b := pool.GetBuffer(DEFAULT_BUFFER_SIZE);
      readBuf := b;
      b := pool.GetBuffer(DEFAULT_BUFFER_SIZE);
      writeBuf := b;
      flow := new FlowController(MAX_PACKET_SIZE * 100);
      threshold, encrypt, decrypt, closed, connClosed := 0, null, null, false, 0;
    }

    method SetThreshold(t: int)
      requires Valid()
      modifies this
      ensures Valid() && threshold == Truncate32(t)
      ensures WriteEnd() == old(WriteEnd()).(threshold := t) && ReadEnd() == old(ReadEnd()).(threshold := t)
      ensures closed == old(closed) && encrypt == old(encrypt) && decrypt == old(decrypt)
    {
      threshold := Truncate32(t);
      reader := new PacketReader(src, pool, t, z);
      writer := new PacketWriter(dst, pool, t, z);
    }

    method SetCipher(encrypt: CFB8?, decrypt: CFB8?)
      requires Valid() && OwnCipher(encrypt, false) && OwnCipher(decrypt, true)
      requires encrypt != null && decrypt != null ==> {encrypt.iv, encrypt.tmp} !! {decrypt.iv, decrypt.tmp}
      modifies this
      ensures Valid()
      ensures WriteEnd() == old(WriteEnd()).(cipher := CipherOf(encrypt))
      ensures ReadEnd() == old(ReadEnd()).(cipher := CipherOf(decrypt))
      ensures this.encrypt == encrypt && this.decrypt == decrypt
      ensures closed == old(closed) && threshold == old(threshold)
    {
      this.encrypt, this.decrypt := encrypt, decrypt;
    }

    /** Close: the buffers go back and the connection is closed once, however often Close is called. */
    method Close()
      requires Valid()
      modifies this, pool
      ensures Valid() && closed && connClosed == 1
      ensures pool.live == if old(closed) then old(pool.live) else old(pool.live) - {readBuf, writeBuf}
      ensures forall i :: 0 <= i < |pool.free| ==> pool.free[i] in old(pool.free) || pool.free[i] in {readBuf, writeBuf}
      ensures WriteEnd() == old(WriteEnd()) && ReadEnd() == old(ReadEnd())
      ensures encrypt == old(encrypt) && decrypt == old(decrypt)
    {
      if closed {
        return;
      }
      closed := true;
      pool.PutBuffer(readBuf);
      pool.PutBuffer(writeBuf);
      connClosed := connClosed + 1;
    }

    /** The arrays a cipher works in. */
    static ghost function Scratch(c: CFB8?): set<object> {
      if c == null then {} else {c.iv, c.tmp}
    }

    /** Cipher feedback by the output: what `data` becomes under `iv`, and the IV after it. */
    static ghost predicate Encrypts(b: Block, iv: seq<byte>, data: seq<byte>, c: seq<byte>, iv': seq<byte>) {
      && |iv| >= b.size
      && c == Cfb(b, iv[..b.size], data, false) && iv' == NextIv(b.size, iv, c)
    }

    /** Cipher feedback by the input. */
    static ghost predicate Decrypts(b: Block, iv: seq<byte>, c: seq<byte>, data: seq<byte>, iv': seq<byte>) {
      && |iv| >= b.size
      && data == Cfb(b, iv[..b.size], c, true) && iv' == NextIv(b.size, iv, c)
    }

    /** The frame of the packet went to the destination, as far as it accepts. */
    twostate predicate FrameSent(p: Packet, r: Status)
      reads this, dst
    {
      match Frame(p, writer.threshold, z)
      case Some(f) =>
        && dst.written == old(dst.written) + f[..Min(|f|, old(dst.room))]
        && dst.room == old(dst.room) - Min(|f|, old(dst.room))
        && r == if |f| <= old(dst.room) then Sent else NotSent(WriteFailed)
      case None => r == NotSent(CompressionFailed) && dst.written == old(dst.written) && dst.room == old(dst.room)
    }

    /** Encryption into a new slice, when a cipher is set. */
    method Encrypted(data: array<byte>) returns (enc: array<byte>)
      requires encrypt != null ==> encrypt.Valid() && !encrypt.de
      requires data !in Scratch(encrypt)
      modifies Scratch(encrypt)
      ensures if encrypt == null then enc == data else fresh(enc)
      ensures encrypt != null ==> Encrypts(encrypt.block, old(encrypt.iv[..]), old(data[..]), enc[..], encrypt.iv[..])
      ensures WriteEnd().threshold == old(WriteEnd().threshold) && ValidCipher(old(WriteEnd().cipher))
      ensures forall id: int32 ::
                (Packet(id, enc[..]), WriteEnd()) == Seal(old(WriteEnd()), Packet(id, old(data[..])))
    {
      hide Cfb8.Cfb, Cfb8.NextIv;
      enc := data;
      if encrypt != null {
        enc := new byte[data.Length];
        encrypt.XORKeyStream(enc, data);
        assert enc[..] == enc[..data.Length];
      }
    }

    /** Decryption into a new slice, when a cipher is set. */
    method Decrypted(data: array<byte>) returns (dec: array<byte>)
      requires decrypt != null ==> decrypt.Valid() && decrypt.de
      requires data !in Scratch(decrypt)
      modifies Scratch(decrypt)
      ensures if decrypt == null then dec == data else fresh(dec)
      ensures decrypt != null ==> Decrypts(decrypt.block, old(decrypt.iv[..]), old(data[..]), dec[..], decrypt.iv[..])
      ensures ReadEnd().threshold == old(ReadEnd().threshold) && ValidCipher(old(ReadEnd().cipher))
      ensures forall id: int32 ::
                (Packet(id, dec[..]), ReadEnd()) == Open(old(ReadEnd()), Packet(id, old(data[..])))
    {
      hide Cfb8.Cfb, Cfb8.NextIv;
      dec := data;
      if decrypt != null {
        dec := new byte[data.Length];
        decrypt.XORKeyStream(dec, data);
        assert dec[..] == dec[..data.Length];
      }
    }

    /** WritePacket: the sealed packet's frame goes out, and what was acquired from flow control is released. */
    method WritePacket(id: int32, data: array<byte>) returns (r: Status)
      requires Valid()
      requires data !in pool.free && data !in Scratch(encrypt) && data !in Scratch(decrypt)
      modifies dst, pool, pool.free, flow, Scratch(encrypt)
      ensures Valid() && PoolKept(pool) && pool.live == old(pool.live)
      ensures ReadEnd() == old(ReadEnd())
      ensures old(closed) ==>
                && r == NotSent(ConnectionClosed) && WriteEnd() == old(WriteEnd())
                && dst.written == old(dst.written) && dst.room == old(dst.room)
      ensures ValidCipher(old(WriteEnd().cipher))
      ensures !old(closed) ==>
                var (f, e) := Send(old(WriteEnd()), Packet(id, old(data[..])), z);
                && WriteEnd() == e
                && if f.Some? then writer.Wrote(f.value, r)
                   else r == NotSent(CompressionFailed) && dst.written == old(dst.written) && dst.room == old(dst.room)
      ensures !old(closed) && encrypt == null ==> FrameSent(Packet(id, old(data[..])), r)
      ensures !old(closed) && encrypt != null ==>
                var c := Cfb(encrypt.block, old(encrypt.iv[..])[..encrypt.block.size], old(data[..]), false);
                && FrameSent(Packet(id, c), r)
                && encrypt.iv[..] == NextIv(encrypt.block.size, old(encrypt.iv[..]), c)
    {
      hide Seal, Frame, Cfb8.Cfb, Cfb8.NextIv;
      if closed {
        return NotSent(ConnectionClosed);
      }
      var payload := Encrypted(data);
      r := WriteSealed(id, payload);
    }

    /** Flow control around the packet writer. */
    method WriteSealed(id: int32, payload: array<byte>) returns (r: Status)
      requires Valid() && !closed && payload !in pool.free
      modifies dst, pool, pool.free, flow
      ensures Valid() && PoolKept(pool) && pool.live == old(pool.live)
      ensures WriteEnd() == old(WriteEnd()) && ReadEnd() == old(ReadEnd())
      ensures FrameSent(Packet(id, old(payload[..])), r)
    {
      hide Frame;
      var granted := flow.Acquire(payload.Length, []);
      r := writer.WritePacket(id, payload, 0, payload.Length);
      assert payload[0..payload.Length] == old(payload[..]);
      flow.Release(payload.Length);
    }

    /** ReadPacket: a failed read closes the connection; a panic does not get that far. */
    method ReadPacket() returns (r: ReadStatus, data: array<byte>)
      requires Valid()
      modifies this, src, pool, pool.free, Scratch(decrypt)
      ensures Valid()
      ensures forall i :: 0 <= i < |pool.free| ==>
                pool.free[i] in old(pool.free) || fresh(pool.free[i]) || pool.free[i] in {readBuf, writeBuf}
      ensures WriteEnd() == old(WriteEnd()) && ValidCipher(old(ReadEnd().cipher))
      ensures encrypt == old(encrypt) && decrypt == old(decrypt)
      ensures old(closed) ==>
                && r == ReadErr(ConnectionClosed) && src.data == old(src.data)
                && ReadEnd() == old(ReadEnd()) && closed && pool.live == old(pool.live)
      ensures !old(closed) ==>
                && (ToOutcome(r, data[..]), src.data, ReadEnd()) == Receive(old(ReadEnd()), old(src.data), z)
                && closed == (r.ReadErr? && r.error != Panic)
      ensures !old(closed) ==>
                var o := Read(old(src.data), reader.threshold, z);
                && src.data == o.1 && r.ReadOk? == o.0.Got? && (r.ReadErr? ==> o.0 == Failed(r.error))
                && (r.ReadOk? ==> r.id == o.0.packet.id)
                && (r.ReadOk? && decrypt == null ==> data[..] == o.0.packet.data)
                && (r.ReadOk? && decrypt != null ==>
                      Decrypts(decrypt.block, old(decrypt.iv[..]), o.0.packet.data, data[..], decrypt.iv[..]))
      ensures r.ReadOk? ==> pool.live == old(pool.live)
      ensures !old(closed) && closed ==> pool.live == old(pool.live) - {readBuf, writeBuf}
      ensures fresh(data) && data !in pool.free && data !in pool.live
    {
      hide Read, Open, Cfb8.Cfb, Cfb8.NextIv;
      if closed {
        data := new byte[0];
        return ReadErr(ConnectionClosed), data;
      }
      r, data := reader.ReadPacket();
      if r.ReadErr? {
        if r.error != Panic {
          Close();
        }
        return;
      }
      data := Decrypted(data);
    }
  }
}
