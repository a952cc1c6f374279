/**
 * Whole runs of reader and writer calls over one pool. A caller reads packets, reads raw packets, releases
 * them in any order and writes, and keeps everything it was given. Its run over recycled buffers is the run
 * over values that knows no buffers, and the buffers that are out are exactly those in its raw packets.
 */
module PoolRuns {
  import opened Bytes
  import opened Streams
  import opened BufferPool
  import opened PacketFormat
  import opened PacketReading
  import opened PacketWriting

  datatype Call =
    | ReadCall
    | RawCall
    | ReleaseCall(k: nat)                     // of the k-th raw packet; releasing twice is allowed
    | WriteCall(id: int32, data: seq<byte>)
    | ForwardCall(k: nat)                     // a write out of the k-th raw packet's own buffer, as the relay does

  /**
   * The run on values: what every read returned, packet or error, the frames of the raw packets not yet
   * released, and what every raw read and every write reported.
   */
  datatype World = World(
    input: seq<byte>,
    output: seq<byte>,
    room: nat,
    outcomes: seq<Outcome>,
    raws: seq<Option<seq<byte>>>,
    rawErrors: seq<Option<Error>>,
    sent: seq<Status>,
    panicked: bool)

  function NewWorld(input: seq<byte>, output: seq<byte>, room: nat): World {
    World(input, output, room, [], [], [], [], false)
  }

  /** The settings of the reader and the writer. */
  datatype Setup = Setup(readThreshold: int, writeThreshold: int, readZlib: Zlib, writeZlib: Zlib)

  function Reads(w: World, u: Setup): World {
    var (o, rest) := Read(w.input, u.readThreshold, u.readZlib);
    w.(input := rest, outcomes := w.outcomes + [o], panicked := o == Failed(Panic))
  }

  function ReadsRaw(w: World): World {
    var (o, rest) := ReadRaw(w.input);
    match o
    case RawOk(frame) => w.(input := rest, raws := w.raws + [Some(frame)], rawErrors := w.rawErrors + [None])
    case RawErr(e) => w.(input := rest, rawErrors := w.rawErrors + [Some(e)])
  }

  function Releases(w: World, k: nat): World {
    if k < |w.raws| then w.(raws := w.raws[k := None]) else w
  }

  function Writes(w: World, p: Packet, u: Setup): World {
    match Frame(p, u.writeThreshold, u.writeZlib)
    case None => w.(sent := w.sent + [NotSent(CompressionFailed)])
    case Some(f) =>
      w.(output := w.output + f[..Min(|f|, w.room)],
         room := w.room - Min(|f|, w.room),
         sent := w.sent + [if |f| <= w.room then Sent else NotSent(WriteFailed)])
  }

  /** The packet a relay makes of a frame: the first byte is its id, the rest its data. */
  function Relayed(frame: seq<byte>): Packet
    requires frame != []
  {
    Packet(frame[0], frame[1..])
  }

  /** Only a raw packet that is still held, and not empty, can be forwarded. */
  function Forwards(w: World, k: nat, u: Setup): World {
    if k < |w.raws| && w.raws[k].Some? && w.raws[k].value != [] then Writes(w, Relayed(w.raws[k].value), u) else w
  }

  /** One call; a panic ends the run. */
  function Next(w: World, c: Call, u: Setup): World {
    if w.panicked then w
    else match c
      case ReadCall => Reads(w, u)
      case RawCall => ReadsRaw(w)
      case ReleaseCall(k) => Releases(w, k)
      case WriteCall(id, data) => Writes(w, Packet(id, data), u)
      case ForwardCall(k) => Forwards(w, k, u)
  }

  function After(w: World, calls: seq<Call>, u: Setup): World {
    if calls == [] then w else Next(After(w, calls[..|calls| - 1], u), calls[|calls| - 1], u)
  }

  class Caller {
    const reader: PacketReader
    const writer: PacketWriter
    const pool: Pool
    ghost const lent: set<array<byte>>        // out before the run, in other hands
    var statuses: seq<ReadStatus>             // of the reads, in order
    var packets: seq<array<byte>>             // the data that came with them
    var raws: seq<RawPacket>
    var rawErrors: seq<Option<Error>>
    var sent: seq<Status>
    var panicked: bool

    constructor (reader: PacketReader, writer: PacketWriter)
      requires reader.pool == writer.pool && reader.pool.Valid()
      ensures this.reader == reader && this.writer == writer && this.pool == reader.pool
      ensures lent == pool.live && Owned()
      ensures Shows(NewWorld(reader.src.data, writer.dst.written, writer.dst.room))
    {
      this.reader, this.writer, this.pool, this.lent := reader, writer, reader.pool, reader.pool.live;
      statuses, packets, raws, rawErrors, sent, panicked := [], [], [], [], [], false;
    }

    ghost function Config(): Setup {
      Setup(reader.threshold, writer.threshold, reader.z, writer.z)
    }

    /** Each raw packet holds a buffer of its own that was lent to this caller, or none. */
    ghost predicate RawsOwned(live: set<array<byte>>)
      reads this`raws, raws
    {
      && (forall i :: 0 <= i < |raws| ==> raws[i].pool == pool)
      && (forall i :: 0 <= i < |raws| && raws[i].buf != null ==> raws[i].buf in live && raws[i].buf !in lent)
      && (forall i, j :: 0 <= i < j < |raws| ==> raws[i] != raws[j])
      && (forall i, j :: 0 <= i < j < |raws| && raws[i].buf != null ==> raws[i].buf != raws[j].buf)
    }

    /** The buffers inside raw packets that were not released. */
    ghost function Buffers(): set<array<byte>>
      reads this`raws, raws
    {
      set i | 0 <= i < |raws| && raws[i].buf != null :: raws[i].buf
    }

    /** What is out is what was out before and what the raw packets hold. */
    ghost predicate NothingLost(live: set<array<byte>>)
      reads this`raws, raws
    {
      live == lent + Buffers()
    }

    /** No packet's data is among the given buffers. */
    ghost predicate PacketsOwned(live: set<array<byte>>, free: seq<array<byte>>)
      reads this`packets
    {
      forall i :: 0 <= i < |packets| ==> packets[i] !in live && packets[i] !in free
    }

    /** The ownership of buffers; a panic is the one thing that loses some. */
    ghost predicate Owned()
      reads this, pool, raws
    {
      && reader.pool == pool && writer.pool == pool && pool.Valid()
      && RawsOwned(pool.live) && (!panicked ==> NothingLost(pool.live)) && PacketsOwned(pool.live, pool.free)
    }

    /** Id, data and error of every read are those of the run on values. */
    ghost predicate ShowsPackets(outcomes: seq<Outcome>)
      reads this`statuses, this`packets, packets
    {
      && |statuses| == |packets| == |outcomes|
      && forall i :: 0 <= i < |packets| ==> ToOutcome(statuses[i], packets[i][..]) == outcomes[i]
    }

    /** The caller's raw packets hold the frames the run on values says. */
    ghost predicate ShowsRaws(frames: seq<Option<seq<byte>>>)
      reads this`raws, raws, Buffers()
    {
      |raws| == |frames| && forall i :: 0 <= i < |raws| ==> ShowsRaw(raws[i], frames[i])
    }

    static ghost predicate ShowsRaw(raw: RawPacket, frame: Option<seq<byte>>)
      reads raw, if raw.buf == null then {} else {raw.buf}
    {
      match frame
      case None => raw.buf == null
      case Some(f) => raw.buf != null && raw.len <= raw.buf.Length && raw.buf[..raw.len] == f
    }

    ghost predicate ShowsStreams(w: World)
      reads reader.src, writer.dst
    {
      reader.src.data == w.input && writer.dst.written == w.output && writer.dst.room == w.room
    }

    ghost predicate Shows(w: World)
      reads this, reader.src, writer.dst, packets, raws, Buffers()
    {
      && ShowsStreams(w) && ShowsPackets(w.outcomes) && ShowsRaws(w.raws)
      && rawErrors == w.rawErrors && sent == w.sent && panicked == w.panicked
    }

    /** A call on the pool can write into none of the caller's buffers. */
    lemma HeldApart()
      requires Owned()
      ensures forall i :: 0 <= i < |pool.free| ==> pool.free[i] !in packets
      ensures forall i :: 0 <= i < |raws| && raws[i].buf != null ==> raws[i].buf !in pool.free
    {
    }

    lemma RawsOwnedMore(live: set<array<byte>>, more: set<array<byte>>)
      requires RawsOwned(live) && live <= more
      ensures RawsOwned(more)
    {
    }

    method WriteOne(ghost w: World, id: int32, data: seq<byte>)
      requires Owned() && Shows(w) && !panicked
      modifies this`sent, writer.dst, pool, pool.free
      ensures Owned() && Shows(Writes(w, Packet(id, data), Config())) && PoolKept(pool)
    {
      hide Frame, Writes, RawsOwned, NothingLost, ShowsPackets, ShowsRaw;
      var a := NewFrom(data);
      assert a[0..a.Length] == data;
      WriteSlice(w, id, a, 0, a.Length, data);
    }

    /** The k-th raw packet, if it is held, goes out again from where it lies. */
    method ForwardOne(ghost w: World, k: nat)
      requires Owned() && Shows(w) && !panicked
      modifies this`sent, writer.dst, pool, pool.free
      ensures Owned() && Shows(Forwards(w, k, Config())) && PoolKept(pool)
    {
      if k < |raws| && raws[k].buf != null && raws[k].len > 0 {
        assert ShowsRaw(raws[k], w.raws[k]);
        var buf, len := raws[k].buf, raws[k].len;
        assert buf[..len] == w.raws[k].value && buf[1..len] == buf[..len][1..];
        HeldApart();
        hide Owned, Shows, Frame, Writes;
        WriteSlice(w, buf[0], buf, 1, len, buf[1..len]);
      } else {
        assert k < |raws| ==> ShowsRaw(raws[k], w.raws[k]);
      }
    }

    /** A write of part of any array that the pool does not list. */
    method WriteSlice(ghost w: World, id: int32, a: array<byte>, from: nat, to: nat, ghost data: seq<byte>)
      requires Owned() && Shows(w) && !panicked
      requires a !in pool.free && from <= to <= a.Length && a[from..to] == data
      modifies this`sent, writer.dst, pool, pool.free
      ensures Owned() && Shows(Writes(w, Packet(id, data), Config())) && PoolKept(pool)
    {
      hide Frame, RawsOwned, NothingLost, ShowsPackets, ShowsRaw;
      HeldApart();
      var r := writer.WritePacket(id, a, from, to);
      assert PacketsOwned(pool.live, pool.free);
      assert RawsOwned(pool.live);
      assert NothingLost(pool.live);
      assert ShowsPackets(w.outcomes) && ShowsRaws(w.raws);
      sent := sent + [r];
    }

    method ReadOne(ghost w: World)
      requires Owned() && Shows(w) && !panicked
      modifies this`statuses, this`packets, this`panicked, reader.src, pool, pool.free
      ensures Owned() && Shows(Reads(w, Config())) && PoolKept(pool)
    {
      hide Read, RawsOwned, NothingLost, ShowsPackets, ShowsRaw;
      HeldApart();
      var r, data := reader.ReadPacket();
      RawsOwnedMore(old(pool.live), pool.live);
      assert ShowsPackets(w.outcomes) && ShowsRaws(w.raws);
      KeepPacket(w, r, data);
    }

    /** The bookkeeping after a read. */
    method KeepPacket(ghost w: World, r: ReadStatus, data: array<byte>)
      requires reader.pool == pool && writer.pool == pool && pool.Valid() && !panicked
      requires RawsOwned(pool.live) && (r != ReadErr(Panic) ==> NothingLost(pool.live))
      requires PacketsOwned(pool.live, pool.free) && data !in pool.live && data !in pool.free
      requires ShowsPackets(w.outcomes) && ShowsRaws(w.raws)
      modifies this`statuses, this`packets, this`panicked
      ensures Owned() && panicked == (r == ReadErr(Panic))
      ensures ShowsPackets(w.outcomes + [ToOutcome(r, data[..])]) && ShowsRaws(w.raws)
    {
      hide RawsOwned, NothingLost, ShowsRaw, Buffers;
      statuses, packets := statuses + [r], packets + [data];
      panicked := r == ReadErr(Panic);
    }

    method RawOne(ghost w: World)
      requires Owned() && Shows(w) && !panicked
      modifies this`raws, this`rawErrors, reader.src, pool, pool.free
      ensures Owned() && Shows(ReadsRaw(w)) && PoolKept(pool)
      ensures forall i :: 0 <= i < |raws| ==> raws[i] in old(raws) || fresh(raws[i])
      ensures forall b :: b in Buffers() ==> b in old(Buffers()) || b in old(pool.free) || fresh(b)
    {
      hide ReadRaw, RawsOwned, NothingLost, ShowsPackets, ShowsRaw;
      HeldApart();
      ghost var before := pool.live;
      var err, raw := reader.ReadRawPacket();
      assert ShowsPackets(w.outcomes) && ShowsRaws(w.raws);
      rawErrors := rawErrors + [err];
      hide ShowsRaws, Buffers;
      if err.None? {
        KeepRaw(w, raw, before);
      }
    }

    /** The bookkeeping after a successful raw read. */
    method KeepRaw(ghost w: World, raw: RawPacket, ghost before: set<array<byte>>)
      requires reader.pool == pool && writer.pool == pool && pool.Valid() && !panicked
      requires RawsOwned(before) && NothingLost(before) && PacketsOwned(pool.live, pool.free)
      requires raw.pool == pool && raw !in raws && raw.buf != null && raw.len <= raw.buf.Length
      requires raw.buf !in before && pool.live == before + {raw.buf}
      requires ShowsPackets(w.outcomes) && ShowsRaws(w.raws)
      modifies this`raws
      ensures Owned()
      ensures raws == old(raws) + [raw] && Buffers() == old(Buffers()) + {raw.buf}
      ensures ShowsPackets(w.outcomes) && ShowsRaws(w.raws + [Some(raw.buf[..raw.len])])
    {
      hide ShowsPackets, PacketsOwned;
      ghost var rs := raws;
      raws := raws + [raw];
      assert forall i :: 0 <= i < |rs| ==> raws[i] == rs[i];
      assert raws[|rs|] == raw;
      assert Buffers() == old(Buffers()) + {raw.buf} by {
        hide ShowsRaws, RawsOwned;
      }
      assert RawsOwned(pool.live) by {
        hide ShowsRaws, NothingLost, Buffers;
      }
      hide RawsOwned, Buffers;
    }

    method ReleaseOne(ghost w: World, k: nat)
      requires Owned() && Shows(w) && !panicked
      modifies pool, raws
      ensures Owned() && Shows(Releases(w, k))
      ensures forall i :: 0 <= i < |pool.free| ==> pool.free[i] in old(pool.free) || pool.free[i] in old(Buffers())
      ensures Buffers() <= old(Buffers())
    {
      hide ShowsPackets;
      if k < |raws| {
        ReleaseHeld(w, k);
      }
    }

    method ReleaseHeld(ghost w: World, k: nat)
      requires Owned() && !panicked && k < |raws| && ShowsRaws(w.raws)
      modifies pool, raws[k]
      ensures Owned() && ShowsRaws(w.raws[k := None])
      ensures forall i :: 0 <= i < |pool.free| ==> pool.free[i] in old(pool.free) || pool.free[i] in old(Buffers())
      ensures Buffers() <= old(Buffers())
    {
      hide ShowsRaw;
      var held := raws[k].buf;
      raws[k].Release();
      assert forall i :: 0 <= i < |raws| && i != k ==> raws[i].buf == old(raws[i].buf);
      assert Buffers() == if held == null then old(Buffers()) else old(Buffers()) - {held};
      NoFrame(raws[k]);
    }

    static lemma NoFrame(raw: RawPacket)
      requires raw.buf == null
      ensures ShowsRaw(raw, None)
    {
    }

    /** One call of any kind, unless a panic has ended the run. */
    method Step(ghost w: World, call: Call)
      requires Owned() && Shows(w)
      modifies this, reader.src, writer.dst, pool, pool.free, raws
      ensures Owned() && Shows(Next(w, call, Config()))
      ensures forall i :: 0 <= i < |pool.free| ==>
                pool.free[i] in old(pool.free) || pool.free[i] in old(Buffers()) || fresh(pool.free[i])
      ensures forall b :: b in Buffers() ==> b in old(Buffers()) || b in old(pool.free) || fresh(b)
      ensures forall i :: 0 <= i < |raws| ==> raws[i] in old(raws) || fresh(raws[i])
    {
      hide Owned, Shows, Buffers, Reads, ReadsRaw, Releases, Writes;
      if panicked {
        Stopped(w);
        return;
      }
      Going(w);
      match call {
        case ReadCall => ReadOne(w);
        case RawCall => RawOne(w);
        case ReleaseCall(k) => ReleaseOne(w, k);
        case WriteCall(id, data) => WriteOne(w, id, data);
        case ForwardCall(k) => ForwardOne(w, k);
      }
    }

    /** A run whose raw packets were all released has given back every buffer, whatever failed on the way. */
    lemma AllGivenBack(w: World)
      requires Owned() && Shows(w) && !panicked
      requires forall i :: 0 <= i < |w.raws| ==> w.raws[i] == None
      ensures pool.live == lent
    {
      assert forall i :: 0 <= i < |raws| ==> ShowsRaw(raws[i], w.raws[i]) && raws[i].buf == null;
    }

    lemma Stopped(w: World)
      requires Shows(w) && panicked
      ensures w.panicked
    {
    }

    lemma Going(w: World)
      requires Owned() && Shows(w) && !panicked
      ensures !w.panicked && pool.Valid()
    {
    }
  }

  /** Any run of calls over one pool. */
  method RunCalls(reader: PacketReader, writer: PacketWriter, calls: seq<Call>) returns (c: Caller)
    requires reader.pool == writer.pool && reader.pool.Valid()
    modifies reader.src, writer.dst, reader.pool, reader.pool.free
    ensures fresh(c) && c.reader == reader && c.writer == writer && c.pool == reader.pool
    ensures c.lent == old(reader.pool.live)
    ensures c.Owned()
    ensures var w := NewWorld(old(reader.src.data), old(writer.dst.written), old(writer.dst.room));
            c.Shows(After(w, calls, c.Config()))
  {
    hide Next;
    c := new Caller(reader, writer);
    ghost var w0 := NewWorld(reader.src.data, writer.dst.written, writer.dst.room);
    ghost var w := w0;
    assert calls[..0] == [];
    for i := 0 to |calls|
      invariant c.Owned() && c.Shows(w) && w == After(w0, calls[..i], c.Config())
      invariant forall k :: 0 <= k < |c.pool.free| ==> c.pool.free[k] in old(reader.pool.free) || fresh(c.pool.free[k])
      invariant forall b :: b in c.Buffers() ==> b in old(reader.pool.free) || fresh(b)
      invariant forall k :: 0 <= k < |c.raws| ==> fresh(c.raws[k])
    {
      hide c.Owned, c.Shows, c.Buffers;
      assert calls[..i + 1][..i] == calls[..i];
      c.Step(w, calls[i]);
      w := Next(w, calls[i], c.Config());
    }
    assert calls[..|calls|] == calls;
  }
}
