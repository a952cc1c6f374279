/**
 * The packet format of packet/packet.go, on values: what a packet looks like on the wire for a given
 * compression threshold, and what a reader makes of an arbitrary byte stream.
 */
module PacketFormat {
  import opened Bytes
  import opened VarInt

  const MAX_PACKET_SIZE := 0x20_0000
  const MAX_COMPRESSED_SIZE := 0x20_0000

  datatype Packet = Packet(id: int32, data: seq<byte>)

  /** zlib, seen from outside. Decompress is given the number of bytes to produce at most. */
  datatype Zlib = Zlib(compress: seq<byte> -> Option<seq<byte>>, decompress: (seq<byte>, nat) -> Option<seq<byte>>)

  ghost predicate Lossless(z: Zlib) {
    forall x: seq<byte> :: z.compress(x).Some? ==> z.decompress(z.compress(x).value, |x|) == Some(x)
  }

  // ---------------------------------------------------------------- writing

  function Payload(p: Packet): (s: seq<byte>)
    ensures |s| > 0
  {
    EncodeVarInt(p.id) + p.data
  }

  /** A body preceded by its length; lengths are converted to 32 bits. */
  function Framed(body: seq<byte>): seq<byte> {
    EncodeVarInt(Truncate32(|body|)) + body
  }

  /** The body: plain, marked uncompressed by a zero, or compressed behind the payload's length. */
  function Body(p: Packet, threshold: int, z: Zlib): Option<seq<byte>> {
    var payload := Payload(p);
    if threshold < 0 then Some(payload)
    else if |payload| < threshold then Some(EncodeVarInt(0) + payload)
    else match z.compress(payload)
      case Some(c) => Some(EncodeVarInt(Truncate32(|payload|)) + c)
      case None => None
  }

  function Frame(p: Packet, threshold: int, z: Zlib): Option<seq<byte>> {
    match Body(p, threshold, z)
    case Some(body) => Some(Framed(body))
    case None => None
  }

  /**
   * A frame, part by part: its length, then id and data if compression is off; behind a zero byte if they are
   * together shorter than the threshold; and compressed behind their own length otherwise.
   */
  lemma FrameLayout(p: Packet, threshold: int, z: Zlib)
    ensures var payload := EncodeVarInt(p.id) + p.data;
            && (threshold < 0 ==> Frame(p, threshold, z) == Some(EncodeVarInt(Truncate32(|payload|)) + payload))
            && (0 <= |payload| < threshold ==>
                  Frame(p, threshold, z) == Some(EncodeVarInt(Truncate32(|payload| + 1)) + ([0] + payload)))
            && (0 <= threshold <= |payload| ==>
                  match z.compress(payload) {
                    case None => Frame(p, threshold, z) == None
                    case Some(c) =>
                      var body := EncodeVarInt(Truncate32(|payload|)) + c;
                      Frame(p, threshold, z) == Some(EncodeVarInt(Truncate32(|body|)) + body)
                  })
  {
    assert EncodeVarInt(0) == [0];
  }

  // ---------------------------------------------------------------- reading

  /** The bytes of one frame, split into length prefix and body, and the stream after it. */
  datatype FrameResult =
    | FrameOk(prefix: seq<byte>, body: seq<byte>, rest: seq<byte>)
    | FrameErr(error: Error, rest: seq<byte>)

  datatype Outcome = Got(packet: Packet) | Failed(error: Error)

  function TakeFrame(s: seq<byte>): FrameResult {
    match DecodeVarInt(s)
    case Err(e) => if e == PacketTooShort then FrameErr(EndOfStream, []) else FrameErr(e, s[MAX_VARINT_LEN..])
    case Ok(n, rest) =>
      if n < 0 || n > MAX_PACKET_SIZE then FrameErr(PacketTooLarge, rest)
      else if |rest| < n then FrameErr(EndOfStream, [])
      else FrameOk(s[..|s| - |rest|], rest[..n], rest[n..])
  }

  function ParsePayload(s: seq<byte>): Outcome {
    match DecodeVarInt(s)
    case Ok(id, data) => Got(Packet(id, data))
    case Err(e) => Failed(e)
  }

  /** copy(dst, result) into n bytes, zero-filling what the result does not reach. */
  function Fit(r: seq<byte>, n: nat): (s: seq<byte>)
    ensures |s| == n
    ensures |r| == n ==> s == r
    ensures forall i :: 0 <= i < n ==> s[i] == if i < |r| then r[i] else 0
  {
    r[..Min(|r|, n)] + seq(n - Min(|r|, n), _ => 0)
  }

  function ParseCompressed(body: seq<byte>, z: Zlib): Outcome {
    match DecodeVarInt(body)
    case Err(e) => Failed(e)
    case Ok(n, rest) =>
      if n == 0 then ParsePayload(rest)
      else if n > MAX_COMPRESSED_SIZE then Failed(PacketTooLarge)
      else if n < 0 then Failed(Panic)
      else match z.decompress(rest, n)
        case None => Failed(CompressionFailed)
        case Some(r) => ParsePayload(Fit(r, n))
  }

  function ParseBody(body: seq<byte>, threshold: int, z: Zlib): Outcome {
    if threshold >= 0 then ParseCompressed(body, z) else ParsePayload(body)
  }

  /** ReadPacket on a stream: the outcome and the stream it leaves. */
  function Read(s: seq<byte>, threshold: int, z: Zlib): (Outcome, seq<byte>) {
    match TakeFrame(s)
    case FrameOk(_, body, rest) => (ParseBody(body, threshold, z), rest)
    case FrameErr(e, rest) => (Failed(e), rest)
  }

  // ---------------------------------------------------------------- one packet there and back

  /** What the reader's limits ask of a packet. */
  predicate WithinLimits(p: Packet, threshold: int, z: Zlib) {
    match Body(p, threshold, z)
    case Some(body) =>
      && |body| <= MAX_PACKET_SIZE
      && (0 <= threshold <= |Payload(p)| ==> |Payload(p)| <= MAX_COMPRESSED_SIZE)
    case None => false
  }

  lemma TakeFramed(body: seq<byte>, rest: seq<byte>)
    requires |body| < TWO32
    ensures |body| <= MAX_PACKET_SIZE ==>
              TakeFrame(Framed(body) + rest) == FrameOk(EncodeVarInt(|body|), body, rest)
    ensures |body| > MAX_PACKET_SIZE ==>
              TakeFrame(Framed(body) + rest) == FrameErr(PacketTooLarge, body + rest)
  {
    hide Scan, Leb128;
    var v := Truncate32(|body|);
    var prefix := EncodeVarInt(v);
    var s := Framed(body) + rest;
    assert s == prefix + (body + rest);
    ScanEncodedBefore(v, body + rest);
    LengthBack(|body|);
    assert s[..|prefix|] == prefix && s[|prefix|..] == body + rest;
    assert (body + rest)[..|body|] == body && (body + rest)[|body|..] == rest;
  }

  lemma LengthBack(n: nat)
    requires n < TWO32
    ensures Signed32(Unsigned32(Truncate32(n)) % TWO32) == if n < TWO31 then n else n - TWO32
  {
  }

  lemma ScanEncodedBefore(v: int32, rest: seq<byte>)
    ensures Scan(EncodeVarInt(v) + rest, MAX_VARINT_LEN) == Value(Unsigned32(v), |EncodeVarInt(v)|)
  {
    hide Scan, Leb128;
    VarIntAtMost(v);
    ScanLeb(Unsigned32(v), rest, MAX_VARINT_LEN);
  }

  lemma ParseOwnPayload(p: Packet)
    ensures ParsePayload(Payload(p)) == Got(p)
  {
    VarIntRoundTrip(p.id, p.data);
  }

  /** A body within the limits is parsed to the packet, whatever the reader's own threshold is. */
  lemma ParseOwnBody(p: Packet, threshold: int, threshold': int, z: Zlib)
    requires Lossless(z) && (threshold < 0 <==> threshold' < 0)
    requires Body(p, threshold, z).Some? && |Payload(p)| < TWO32
    ensures ParseBody(Body(p, threshold, z).value, threshold', z) ==
            if 0 <= threshold <= |Payload(p)| && |Payload(p)| > MAX_COMPRESSED_SIZE
            then Failed(if |Payload(p)| < TWO31 then PacketTooLarge else Panic)
            else Got(p)
  {
    hide Scan, Leb128, DecodeVarInt;
    var payload := Payload(p);
    ParseOwnPayload(p);
    if threshold >= 0 {
      if |payload| < threshold {
        VarIntRoundTrip(0, payload);
      } else {
        var c := z.compress(payload).value;
        VarIntRoundTrip(Truncate32(|payload|), c);
      }
    }
  }

  /** A body too long for a 32-bit length is not taken whole. */
  lemma TakeFramedHuge(body: seq<byte>, rest: seq<byte>)
    requires |body| >= TWO32
    ensures var r := TakeFrame(Framed(body) + rest);
            r.FrameErr? || |r.rest| > |rest|
  {
    hide Scan, Leb128;
    var v := Truncate32(|body|);
    var prefix := EncodeVarInt(v);
    assert Framed(body) + rest == prefix + (body + rest);
    ScanEncodedBefore(v, body + rest);
    assert (prefix + (body + rest))[|prefix|..] == body + rest;
  }

  lemma ParsedIsSmaller(body: seq<byte>, threshold: int, z: Zlib)
    requires ParseBody(body, threshold, z).Got?
    ensures |ParseBody(body, threshold, z).packet.data| < |body|
            || |ParseBody(body, threshold, z).packet.data| < MAX_COMPRESSED_SIZE
  {
    hide Scan;
  }

  /** A compressed body cannot announce a payload too long for 32 bits either. */
  lemma HugePayloadLost(p: Packet, threshold: int, threshold': int, z: Zlib)
    requires threshold < 0 <==> threshold' < 0
    requires Body(p, threshold, z).Some? && |Body(p, threshold, z).value| <= MAX_PACKET_SIZE
    requires |Payload(p)| >= TWO32
    ensures ParseBody(Body(p, threshold, z).value, threshold', z) != Got(p)
    ensures 0 <= threshold <= |Payload(p)|
  {
    hide Scan, Leb128, DecodeVarInt;
    VarIntAtMost(p.id);
    var body := Body(p, threshold, z).value;
    if ParseBody(body, threshold', z).Got? {
      ParsedIsSmaller(body, threshold', z);
    }
  }

  /**
   * Writing and reading back one packet: the reader consumes exactly the frame and returns the packet
   * if and only if the packet is within the limits. The thresholds need only agree in being negative or not.
   */
  lemma FrameRoundTrip(p: Packet, threshold: int, threshold': int, z: Zlib, rest: seq<byte>)
    requires Lossless(z) && (threshold < 0 <==> threshold' < 0)
    requires Body(p, threshold, z).Some?
    ensures Read(Frame(p, threshold, z).value + rest, threshold', z) == (Got(p), rest)
            <==> WithinLimits(p, threshold, z)
    ensures |Body(p, threshold, z).value| <= MAX_PACKET_SIZE ==>
              Read(Frame(p, threshold, z).value + rest, threshold', z).1 == rest
  {
    hide TakeFrame, ParseBody, Body, Framed;
    var body := Body(p, threshold, z).value;
    if |body| >= TWO32 {
      TakeFramedHuge(body, rest);
    } else {
      TakeFramed(body, rest);
      if |body| <= MAX_PACKET_SIZE {
        if |Payload(p)| >= TWO32 {
          HugePayloadLost(p, threshold, threshold', z);
        } else {
          ParseOwnBody(p, threshold, threshold', z);
        }
      }
    }
  }

  /**
   * Which framing error a stream gives, and when none: its announced length is missing or malformed, out of
   * range, or longer than what follows.
   */
  lemma FramingExactly(s: seq<byte>, threshold: int, z: Zlib)
    ensures var d := DecodeVarInt(s);
            && (d == Err(PacketTooShort) ==> Read(s, threshold, z) == (Failed(EndOfStream), []))
            && (d == Err(MalformedVarInt) ==> Read(s, threshold, z) == (Failed(MalformedVarInt), s[5..]))
            && (d.Ok? && !(0 <= d.value <= 2_097_152) ==> Read(s, threshold, z) == (Failed(PacketTooLarge), d.rest))
            && (d.Ok? && |d.rest| < d.value <= 2_097_152 ==> Read(s, threshold, z) == (Failed(EndOfStream), []))
            && (d.Ok? && 0 <= d.value <= |d.rest| && d.value <= 2_097_152 ==>
                  Read(s, threshold, z) == (ParseBody(d.rest[..d.value], threshold, z), d.rest[d.value..]))
  {
    hide Scan;
  }

  /** A frame cut short anywhere is not taken for a packet, nor for anything but the end of the stream. */
  lemma TruncatedFrame(p: Packet, threshold: int, threshold': int, z: Zlib, n: nat)
    requires WithinLimits(p, threshold, z)
    requires Frame(p, threshold, z).Some? && n < |Frame(p, threshold, z).value|
    ensures Read(Frame(p, threshold, z).value[..n], threshold', z) == (Failed(EndOfStream), [])
  {
    hide Body, ParseBody, Leb128, Scan;
    var body := Body(p, threshold, z).value;
    var prefix := EncodeVarInt(|body|);
    var s := Framed(body)[..n];
    ScanEncodedBefore(|body|, []);
    assert prefix + [] == prefix;
    if n < |prefix| {
      assert s == prefix[..n];
      CutScan(prefix, n, MAX_VARINT_LEN);
    } else {
      assert s == prefix + body[..n - |prefix|];
      VarIntRoundTrip(|body|, body[..n - |prefix|]);
    }
  }

  lemma {:induction false} CutScan(s: seq<byte>, n: nat, limit: nat)
    requires limit > 0 && Scan(s, limit).Value? && n < Scan(s, limit).used
    ensures Scan(s[..n], limit) == Short
    decreases limit
  {
    if n > 0 {
      CutScan(s[1..], n - 1, limit - 1);
      assert s[..n][1..] == s[1..][..n - 1];
    }
  }

  // ---------------------------------------------------------------- lists of packets

  function Frames(ps: seq<Packet>, threshold: int, z: Zlib): Option<seq<byte>> {
    if ps == [] then Some([])
    else match (Frame(ps[0], threshold, z), Frames(ps[1..], threshold, z))
      case (Some(f), Some(fs)) => Some(f + fs)
      case _ => None
  }

  /** n calls of ReadPacket that all succeed. */
  function ReadMany(s: seq<byte>, n: nat, threshold: int, z: Zlib): Option<(seq<Packet>, seq<byte>)> {
    if n == 0 then Some(([], s))
    else match Read(s, threshold, z)
      case (Got(p), rest) =>
        (match ReadMany(rest, n - 1, threshold, z)
         case Some((ps, last)) => Some(([p] + ps, last))
         case None => None)
      case _ => None
  }

  /** Every packet list within the limits is read back, with nothing of the stream lost or taken. */
  lemma {:induction false} StreamRoundTrip(ps: seq<Packet>, threshold: int, threshold': int, z: Zlib, rest: seq<byte>)
    requires Lossless(z) && (threshold < 0 <==> threshold' < 0)
    requires forall p :: p in ps ==> WithinLimits(p, threshold, z)
    ensures Frames(ps, threshold, z).Some?
    ensures ReadMany(Frames(ps, threshold, z).value + rest, |ps|, threshold', z) == Some((ps, rest))
    decreases |ps|
  {
    hide Read, ReadMany, Frame, Body, WithinLimits, Lossless;
    if ps == [] {
      assert [] + rest == rest;
      ReadNone(rest, threshold', z);
    } else {
      var p, ps' := ps[0], ps[1..];
      FrameOfFitting(p, threshold, z);
      StreamRoundTrip(ps', threshold, threshold', z, rest);
      var f, fs := Frame(p, threshold, z).value, Frames(ps', threshold, z).value;
      FrameRoundTrip(p, threshold, threshold', z, fs + rest);
      assert (f + fs) + rest == f + (fs + rest);
      ReadManyStep((f + fs) + rest, |ps'|, threshold', z, p, fs + rest, ps', rest);
      assert ps == [p] + ps';
    }
  }

  lemma ReadNone(s: seq<byte>, threshold: int, z: Zlib)
    ensures ReadMany(s, 0, threshold, z) == Some(([], s))
  {
  }

  lemma ReadManyStep(s: seq<byte>, n: nat, threshold: int, z: Zlib,
                     p: Packet, s': seq<byte>, ps: seq<Packet>, rest: seq<byte>)
    requires Read(s, threshold, z) == (Got(p), s') && ReadMany(s', n, threshold, z) == Some((ps, rest))
    ensures ReadMany(s, n + 1, threshold, z) == Some(([p] + ps, rest))
  {
  }

  lemma FrameOfFitting(p: Packet, threshold: int, z: Zlib)
    requires WithinLimits(p, threshold, z)
    ensures Body(p, threshold, z).Some? && Frame(p, threshold, z).Some?
  {
  }

  /** A zero data length marks an uncompressed body and nothing else: a payload is never empty. */
  lemma ZeroMeansUncompressed(p: Packet, threshold: int, z: Zlib)
    requires threshold >= 0 && WithinLimits(p, threshold, z)
    ensures var d := DecodeVarInt(Body(p, threshold, z).value);
            && d.Ok?
            && (d.value == 0 <==> |Payload(p)| < threshold)
            && (d.value != 0 ==> d.value == |Payload(p)| && Some(d.rest) == z.compress(Payload(p)))
  {
    if |Payload(p)| < threshold {
      VarIntRoundTrip(0, Payload(p));
    } else {
      VarIntRoundTrip(|Payload(p)|, z.compress(Payload(p)).value);
    }
  }

  /** The reader panics on exactly one kind of input: a compressed body that announces a negative length. */
  lemma PanicExactly(s: seq<byte>, threshold: int, z: Zlib)
    ensures Read(s, threshold, z).0 == Failed(Panic) <==>
              && threshold >= 0 && TakeFrame(s).FrameOk?
              && DecodeVarInt(TakeFrame(s).body).Ok? && DecodeVarInt(TakeFrame(s).body).value < 0
  {
    hide Scan;
  }

  // ---------------------------------------------------------------- raw frames

  datatype RawOutcome = RawOk(buf: seq<byte>) | RawErr(error: Error)

  /** ReadRawPacket: the frame itself, undecoded. */
  function ReadRaw(s: seq<byte>): (RawOutcome, seq<byte>) {
    match TakeFrame(s)
    case FrameOk(prefix, body, rest) => (RawOk(prefix + body), rest)
    case FrameErr(e, rest) => (RawErr(e), rest)
  }

  /** RawPacket.PacketID: skip the length, read a VarInt. */
  function RawPacketId(buf: seq<byte>): Decoded {
    match DecodeVarInt(buf)
    case Ok(_, rest) => DecodeVarInt(rest)
    case Err(e) => Err(e)
  }

  /** A frame split off a stream is again a frame: its prefix announces its body. */
  lemma TakeFrameAgain(s: seq<byte>)
    requires TakeFrame(s).FrameOk?
    ensures var FrameOk(prefix, body, rest) := TakeFrame(s);
            && s == prefix + body + rest
            && DecodeVarInt(prefix + body) == Ok(|body|, body)
  {
    hide Scan;
    var FrameOk(prefix, body, rest) := TakeFrame(s);
    ScanOfPrefix(s, MAX_VARINT_LEN);
    ScanPrefix(prefix, body, MAX_VARINT_LEN);
    assert (prefix + body)[|prefix|..] == body;
  }

  lemma {:induction false} ScanOfPrefix(s: seq<byte>, limit: nat)
    requires limit > 0 && Scan(s, limit).Value?
    ensures Scan(s[..Scan(s, limit).used], limit) == Scan(s, limit)
    decreases limit
  {
    var used := Scan(s, limit).used;
    if s[0] >= 128 {
      ScanOfPrefix(s[1..], limit - 1);
      assert s[..used][1..] == s[1..][..used - 1];
    }
  }

  /**
   * ReadRawPacket takes from every stream exactly what ReadPacket takes, fails on framing exactly when
   * it does, and returns the bytes it took; on a plain stream the id it reports is the packet's, and on
   * a compressed stream it is the announced data length instead.
   */
  lemma RawAgreesWithPacket(s: seq<byte>, threshold: int, z: Zlib)
    ensures ReadRaw(s).1 == Read(s, threshold, z).1
    ensures ReadRaw(s).0.RawErr? ==> Read(s, threshold, z).0 == Failed(ReadRaw(s).0.error)
    ensures ReadRaw(s).0.RawOk? ==> s == ReadRaw(s).0.buf + ReadRaw(s).1
    ensures threshold < 0 && Read(s, threshold, z).0.Got? ==>
              && ReadRaw(s).0.RawOk?
              && RawPacketId(ReadRaw(s).0.buf).Ok?
              && RawPacketId(ReadRaw(s).0.buf).value == Read(s, threshold, z).0.packet.id
    ensures threshold >= 0 && Read(s, threshold, z).0.Got? ==>
              && ReadRaw(s).0.RawOk?
              && RawPacketId(ReadRaw(s).0.buf) == DecodeVarInt(TakeFrame(s).body)
  {
    if TakeFrame(s).FrameOk? {
      TakeFrameAgain(s);
    }
  }
}
