/**
 * Two connection objects over one pool: the conversations of the protocol, carried out by the objects'
 * own methods.
 */
module ConnRuns {
  import opened Bytes
  import opened Streams
  import opened BufferPool
  import opened Cfb8
  import opened Cfb8Stream
  import opened PacketFormat
  import opened PacketReading
  import opened PacketWriting
  import opened ConnProtocol
  import opened MineConn

  /** The cipher object for a value, as CreateCipher makes it. */
  method NewStream(cipher: Option<Cipher>, de: bool) returns (s: CFB8?)
    requires ValidCipher(cipher)
    ensures CipherOf(s) == cipher
    ensures s != null ==> s.Valid() && s.de == de && fresh(s.iv) && fresh(s.tmp)
  {
    if cipher.None? {
      return null;
    }
    s := new CFB8(cipher.value.block, cipher.value.iv, de);
  }

  // ---------------------------------------------------------------- writing

  /** What one event puts on the wire, and the writing end afterwards. */
  ghost function Written(w: End, ev: Event, z: Zlib): (r: Option<(seq<byte>, End)>)
    requires ValidCipher(w.cipher) && ValidEvent(ev)
    ensures r.Some? ==> ValidCipher(r.value.1.cipher)
  {
    match ev
    case SetThresholds(t, _) => Some(([], w.(threshold := t)))
    case SetCiphers(c) => Some(([], w.(cipher := c)))
    case Transmit(p) =>
      match Send(w, p, z)
      case (Some(f), w') => Some((f, w'))
      case (None, _) => None
  }

  lemma WriteAllStep(w: End, evs: seq<Event>, z: Zlib)
    requires ValidCipher(w.cipher) && ValidEvents(evs) && evs != []
    requires WriteAll(w, evs, z).Some?
    ensures ValidEvent(evs[0]) && Written(w, evs[0], z).Some?
    ensures var (f, w') := Written(w, evs[0], z).value;
            WriteAll(w', evs[1..], z).Some? &&
            var (bytes, last) := WriteAll(w', evs[1..], z).value;
            WriteAll(w, evs, z).value == (f + bytes, last)
  {
    assert ValidEvent(evs[0]);
    if !evs[0].Transmit? {
      var bytes := WriteAll(w, evs, z).value.0;
      assert [] + bytes == bytes;
    }
  }

  /** One event of the writing side. */
  method WriteEvent(c: MineConn, ev: Event)
    requires c.Valid() && !c.closed && ValidEvent(ev) && ValidCipher(c.WriteEnd().cipher)
    requires Written(c.WriteEnd(), ev, c.z).Some?
    requires |Written(c.WriteEnd(), ev, c.z).value.0| <= c.dst.room
    modifies c, c.dst, c.pool, c.pool.free, c.flow, MineConn.Scratch(c.encrypt)
    ensures c.Valid() && !c.closed && PoolKept(c.pool) && c.pool.live == old(c.pool.live)
    ensures c.dst.written == old(c.dst.written) + old(Written(c.WriteEnd(), ev, c.z)).value.0
    ensures c.WriteEnd() == old(Written(c.WriteEnd(), ev, c.z)).value.1
    ensures c.dst.room == old(c.dst.room) - |old(Written(c.WriteEnd(), ev, c.z)).value.0|
    ensures MineConn.Scratch(c.encrypt) == old(MineConn.Scratch(c.encrypt)) || fresh(MineConn.Scratch(c.encrypt))
  {
    hide Send, Seal;
    match ev {
      case SetThresholds(t, _) =>
        c.SetThreshold(t);
      case SetCiphers(cipher) =>
        var s := NewStream(cipher, false);
        c.SetCipher(s, c.decrypt);
      case Transmit(p) =>
        var data := NewFrom(p.data);
        var r := c.WritePacket(p.id, data);
    }
  }

  /** The writing side of a conversation. */
  method WriteEvents(c: MineConn, evs: seq<Event>)
    requires c.Valid() && !c.closed && ValidEvents(evs) && ValidCipher(c.WriteEnd().cipher)
    requires WriteAll(c.WriteEnd(), evs, c.z).Some?
    requires |WriteAll(c.WriteEnd(), evs, c.z).value.0| <= c.dst.room
    modifies c, c.dst, c.pool, c.pool.free, c.flow, MineConn.Scratch(c.encrypt)
    ensures c.Valid() && !c.closed && PoolKept(c.pool) && c.pool.live == old(c.pool.live)
    ensures c.dst.written == old(c.dst.written) + old(WriteAll(c.WriteEnd(), evs, c.z)).value.0
    ensures c.WriteEnd() == old(WriteAll(c.WriteEnd(), evs, c.z)).value.1
    ensures forall o :: o in MineConn.Scratch(c.encrypt) ==> o in old(MineConn.Scratch(c.encrypt)) || fresh(o)
    decreases |evs|
  {
    hide Written;
    if evs == [] {
      return;
    }
    hide c.Valid, WriteAll;
    WriteAllStep(c.WriteEnd(), evs, c.z);
    ghost var out := c.dst.written;
    ghost var f := Written(c.WriteEnd(), evs[0], c.z).value.0;
    WriteEvent(c, evs[0]);
    ghost var bytes := WriteAll(c.WriteEnd(), evs[1..], c.z).value.0;
    WriteEvents(c, evs[1..]);
    Assoc(out, f, bytes);
  }

  // ---------------------------------------------------------------- reading

  /** What the reading end makes of one event: the packet, if it is one, the stream left and the end afterwards. */
  ghost function Received(r: End, s: seq<byte>, ev: Event, z: Zlib): (o: Option<(seq<Packet>, seq<byte>, End)>)
    requires ValidCipher(r.cipher) && ValidEvent(ev)
    ensures o.Some? ==> ValidCipher(o.value.2.cipher)
  {
    ReceiveKeepsCipher(r, s, z);
    match ev
    case SetThresholds(_, t) => Some(([], s, r.(threshold := t)))
    case SetCiphers(c) => Some(([], s, r.(cipher := c)))
    case Transmit(_) =>
      match Receive(r, s, z)
      case (Got(p), rest, r') => Some(([p], rest, r'))
      case (Failed(_), _, _) => None
  }

  lemma ReadAllStep(r: End, s: seq<byte>, evs: seq<Event>, z: Zlib)
    requires ValidCipher(r.cipher) && ValidEvents(evs) && evs != []
    requires ReadAll(r, s, evs, z).Some?
    ensures ValidEvent(evs[0]) && Received(r, s, evs[0], z).Some?
    ensures var (p, s', r') := Received(r, s, evs[0], z).value;
            ReadAll(r', s', evs[1..], z).Some? &&
            var (ps, rest, last) := ReadAll(r', s', evs[1..], z).value;
            ReadAll(r, s, evs, z).value == (p + ps, rest, last)
  {
    hide Receive;
    assert ValidEvent(evs[0]);
    ReceiveKeepsCipher(r, s, z);
    if !evs[0].Transmit? {
      var ps := ReadAll(r, s, evs, z).value.0;
      assert [] + ps == ps;
    }
  }

  /** One event of the reading side. */
  method ReadEvent(c: MineConn, ev: Event) returns (ps: seq<Packet>)
    requires c.Valid() && !c.closed && ValidEvent(ev) && ValidCipher(c.ReadEnd().cipher)
    requires Received(c.ReadEnd(), c.src.data, ev, c.z).Some?
    modifies c, c.src, c.pool, c.pool.free, MineConn.Scratch(c.decrypt)
    ensures c.Valid() && !c.closed && PoolKept(c.pool) && c.pool.live == old(c.pool.live)
    ensures (ps, c.src.data, c.ReadEnd()) == old(Received(c.ReadEnd(), c.src.data, ev, c.z)).value
    ensures MineConn.Scratch(c.decrypt) == old(MineConn.Scratch(c.decrypt)) || fresh(MineConn.Scratch(c.decrypt))
  {
    hide Receive;
    ps := [];
    match ev {
      case SetThresholds(_, t) =>
        c.SetThreshold(t);
      case SetCiphers(cipher) =>
        var s := NewStream(cipher, true);
        c.SetCipher(c.encrypt, s);
      case Transmit(_) =>
        var r, data := c.ReadPacket();
        ps := [Packet(r.id, data[..])];
    }
  }

  /** The reading side of a conversation. */
  method ReadEvents(c: MineConn, evs: seq<Event>) returns (ps: seq<Packet>)
    requires c.Valid() && !c.closed && ValidEvents(evs) && ValidCipher(c.ReadEnd().cipher)
    requires ReadAll(c.ReadEnd(), c.src.data, evs, c.z).Some?
    modifies c, c.src, c.pool, c.pool.free, MineConn.Scratch(c.decrypt)
    ensures c.Valid() && !c.closed && PoolKept(c.pool) && c.pool.live == old(c.pool.live)
    ensures (ps, c.src.data, c.ReadEnd()) == old(ReadAll(c.ReadEnd(), c.src.data, evs, c.z)).value
    decreases |evs|
  {
    hide Received;
    if evs == [] {
      return [];
    }
    hide ReadAll, c.Valid;
    ReadAllStep(c.ReadEnd(), c.src.data, evs, c.z);
    var first := ReadEvent(c, evs[0]);
    var later := ReadEvents(c, evs[1..]);
    ps := first + later;
  }

  // ---------------------------------------------------------------- both

  /** Connections that share the pool and nothing else they write to. */
  ghost predicate Apart(a: MineConn, b: MineConn)
    reads a, b
  {
    a != b && a.pool == b.pool && a.flow != b.flow && MineConn.Scratch(a.encrypt) !! MineConn.Scratch(b.decrypt)
  }

  method WriteBeside(a: MineConn, b: MineConn, evs: seq<Event>)
    requires Apart(a, b) && a.Valid() && b.Valid() && !a.closed && ValidEvents(evs) && ValidCipher(a.WriteEnd().cipher)
    requires WriteAll(a.WriteEnd(), evs, a.z).Some?
    requires |WriteAll(a.WriteEnd(), evs, a.z).value.0| <= a.dst.room
    modifies a, a.dst, a.pool, a.pool.free, a.flow, MineConn.Scratch(a.encrypt)
    ensures Apart(a, b) && a.Valid() && b.Valid() && !a.closed && PoolKept(a.pool) && a.pool.live == old(a.pool.live)
    ensures a.dst.written == old(a.dst.written) + old(WriteAll(a.WriteEnd(), evs, a.z)).value.0
    ensures a.WriteEnd() == old(WriteAll(a.WriteEnd(), evs, a.z)).value.1
    ensures b.ReadEnd() == old(b.ReadEnd())
    ensures forall o :: o in MineConn.Scratch(a.encrypt) ==> o in old(MineConn.Scratch(a.encrypt)) || fresh(o)
  {
    hide WriteAll;
    WriteEvents(a, evs);
  }

  method ReadBeside(a: MineConn, b: MineConn, evs: seq<Event>) returns (ps: seq<Packet>)
    requires Apart(a, b) && a.Valid() && b.Valid() && !b.closed && ValidEvents(evs) && ValidCipher(b.ReadEnd().cipher)
    requires ReadAll(b.ReadEnd(), b.src.data, evs, b.z).Some?
    modifies b, b.src, b.pool, b.pool.free, MineConn.Scratch(b.decrypt)
    ensures a.Valid() && b.Valid() && !b.closed && PoolKept(a.pool) && a.pool.live == old(a.pool.live)
    ensures (ps, b.src.data, b.ReadEnd()) == old(ReadAll(b.ReadEnd(), b.src.data, evs, b.z)).value
    ensures a.WriteEnd() == old(a.WriteEnd())
  {
    hide ReadAll;
    ps := ReadEvents(b, evs);
  }

  /**
   * Whatever one connection object writes in a conversation, the matched object at the other end returns,
   * packet for packet, although both work in buffers of the same pool; afterwards they are matched again
   * and every buffer is back.
   */
  method Exchange(a: MineConn, b: MineConn, evs: seq<Event>) returns (ps: seq<Packet>)
    requires Apart(a, b) && a.z == b.z && a.Valid() && b.Valid() && !a.closed && !b.closed
    requires b.src.data == []
    requires Lossless(a.z) && Matched(a.WriteEnd(), b.ReadEnd())
    requires ValidEvents(evs) && AllFit(a.WriteEnd(), evs, a.z)
    requires WriteAll(a.WriteEnd(), evs, a.z).Some? ==> |WriteAll(a.WriteEnd(), evs, a.z).value.0| <= a.dst.room
    modifies a, a.dst, a.flow, MineConn.Scratch(a.encrypt)
    modifies b, b.src, MineConn.Scratch(b.decrypt), a.pool, a.pool.free
    ensures a.Valid() && b.Valid() && !a.closed && !b.closed
    ensures ps == Packets(evs) && b.src.data == []
    ensures Matched(a.WriteEnd(), b.ReadEnd()) && a.pool.live == old(a.pool.live)
  {
    hide WriteAll, ReadAll, AllFit, Lossless, ValidEvents, Packets, a.Valid;
    EndToEnd(a.WriteEnd(), b.ReadEnd(), evs, a.z, []);
    ghost var bytes := WriteAll(a.WriteEnd(), evs, a.z).value.0;
    var sent := |a.dst.written|;
    WriteBeside(a, b, evs);
    b.src.data := a.dst.written[sent..];
    assert b.src.data == bytes == bytes + [];
    ps := ReadBeside(a, b, evs);
  }

  /**
   * The same of connections as they are made: two new ones over a new pool, any conversation that starts
   * plain and unciphered, and a destination with room for it.
   */
  method NewExchange(z: Zlib, evs: seq<Event>, room: nat) returns (ps: seq<Packet>)
    requires Lossless(z) && ValidEvents(evs) && AllFit(End(-1, None), evs, z)
    requires WriteAll(End(-1, None), evs, z).Some? ==> |WriteAll(End(-1, None), evs, z).value.0| <= room
    ensures ps == Packets(evs)
  {
    hide Lossless, ValidEvents, AllFit, WriteAll, Packets;
    var pool := new Pool();
    var toB := new ByteSink(room);
    var fromB := new ByteSource([]);
    var a := new MineConn(fromB, toB, pool, z);
    var toA := new ByteSink(room);
    var fromA := new ByteSource([]);
    var b := new MineConn(fromA, toA, pool, z);
    ps := Exchange(a, b, evs);
  }
}
