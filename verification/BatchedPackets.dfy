/** Packets through a batch writer: framing, batching and reading put together. */
module BatchedPackets {
  import opened Bytes
  import opened BatchProtocol
  import opened PacketFormat

  /**
   * A run of the batch writer whose accepted writes are the frames of a packet list, however the bytes
   * were cut into writes and whenever flushes and ticks happened: once the buffer is empty, as it is
   * after Close, the bytes delivered read back to exactly these packets.
   */
  lemma BatchedRoundTrip(size: nat, cap: nat, timed: bool, room: nat, evs: seq<Event>,
                         ps: seq<Packet>, threshold: int, threshold': int, z: Zlib)
    requires size <= cap
    requires IsRun(Init(size, cap, timed, room), evs) && AllSmooth(Init(size, cap, timed, room), evs)
    requires Lossless(z) && (threshold < 0 <==> threshold' < 0)
    requires forall p :: p in ps ==> WithinLimits(p, threshold, z)
    requires Frames(ps, threshold, z) == Some(Accepted(Init(size, cap, timed, room), evs))
    ensures var b := After(Init(size, cap, timed, room), evs);
            b.content == [] ==> ReadMany(b.out, |ps|, threshold', z) == Some((ps, []))
  {
    hide IsRun, AllSmooth, BatchProtocol.After, Accepted, Frames, ReadMany, Lossless, WithinLimits;
    var b0 := Init(size, cap, timed, room);
    BatchConservation(size, cap, timed, room, evs);
    StreamRoundTrip(ps, threshold, threshold', z, []);
    var b := BatchProtocol.After(b0, evs);
    assert b.out + [] == b.out;
    assert Accepted(b0, evs) + [] == Accepted(b0, evs);
  }
}
