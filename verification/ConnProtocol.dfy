/**
 * What the two ends of a connection (conn/conn.go) do to a sequence of packets, on values. Only the
 * packet data is encrypted; the frame around it is not.
 */
module ConnProtocol {
  import opened Bytes
  import opened Cfb8
  import opened PacketFormat

  datatype Cipher = Cipher(block: Block, iv: seq<byte>)

  ghost predicate ValidCipher(c: Option<Cipher>) {
    c.Some? ==> |c.value.iv| >= c.value.block.size
  }

  /** One direction of a connection: its compression threshold and its cipher, if any. */
  datatype End = End(threshold: int, cipher: Option<Cipher>)

  /** The packet as it goes into the frame, and the sender afterwards. */
  function Seal(e: End, p: Packet): (r: (Packet, End))
    requires ValidCipher(e.cipher)
    ensures ValidCipher(r.1.cipher) && r.0.id == p.id && |r.0.data| == |p.data|
  {
    match e.cipher
    case None => (p, e)
    case Some(c) =>
      var (data, iv) := Encrypt(c.block, c.iv, p.data);
      (Packet(p.id, data), e.(cipher := Some(Cipher(c.block, iv))))
  }

  function Open(e: End, p: Packet): (r: (Packet, End))
    requires ValidCipher(e.cipher)
    ensures ValidCipher(r.1.cipher)
  {
    match e.cipher
    case None => (p, e)
    case Some(c) =>
      var (data, iv) := Decrypt(c.block, c.iv, p.data);
      (Packet(p.id, data), e.(cipher := Some(Cipher(c.block, iv))))
  }

  /** WritePacket: the frame, if compression succeeds, and the sender afterwards. */
  function Send(e: End, p: Packet, z: Zlib): (Option<seq<byte>>, End)
    requires ValidCipher(e.cipher)
  {
    var (sealed, e') := Seal(e, p);
    (Frame(sealed, e.threshold, z), e')
  }

  /** ReadPacket: the outcome, the stream left, and the receiver afterwards. */
  function Receive(e: End, s: seq<byte>, z: Zlib): (Outcome, seq<byte>, End)
    requires ValidCipher(e.cipher)
  {
    match Read(s, e.threshold, z)
    case (Failed(err), rest) => (Failed(err), rest, e)
    case (Got(sealed), rest) => var (p, e') := Open(e, sealed); (Got(p), rest, e')
  }

  // ---------------------------------------------------------------- whole conversations

  /** A packet, or a switch both ends make at this position. */
  datatype Event =
    | Transmit(packet: Packet)
    | SetThresholds(writer: int, reader: int)
    | SetCiphers(cipher: Option<Cipher>)

  /** The switches leave the two ends compatible. */
  ghost predicate ValidEvent(ev: Event) {
    match ev
    case Transmit(_) => true
    case SetThresholds(w, r) => w < 0 <==> r < 0
    case SetCiphers(c) => ValidCipher(c)
  }

  ghost predicate ValidEvents(evs: seq<Event>) {
    forall ev :: ev in evs ==> ValidEvent(ev)
  }

  /** Thresholds agree in being negative or not, and the ciphers agree, IV included. */
  ghost predicate Matched(w: End, r: End) {
    (w.threshold < 0 <==> r.threshold < 0) && w.cipher == r.cipher && ValidCipher(w.cipher)
  }

  /** The packets of a conversation. */
  function Packets(evs: seq<Event>): seq<Packet> {
    if evs == [] then []
    else if evs[0].Transmit? then [evs[0].packet] + Packets(evs[1..])
    else Packets(evs[1..])
  }

  /** Everything the writer puts on the wire, and the writer at the end. */
  ghost function WriteAll(w: End, evs: seq<Event>, z: Zlib): Option<(seq<byte>, End)>
    requires ValidCipher(w.cipher) && ValidEvents(evs)
    decreases |evs|
  {
    if evs == [] then Some(([], w))
    else
      assert ValidEvent(evs[0]);
      match evs[0]
      case SetThresholds(t, _) => WriteAll(w.(threshold := t), evs[1..], z)
      case SetCiphers(c) => WriteAll(w.(cipher := c), evs[1..], z)
      case Transmit(p) =>
        var (f, w') := Send(w, p, z);
        match (f, WriteAll(Seal(w, p).1, evs[1..], z))
        case (Some(frame), Some((bytes, last))) => Some((frame + bytes, last))
        case _ => None
  }

  /** The reader making its switches at the same positions; every read has to succeed. */
  ghost function ReadAll(r: End, s: seq<byte>, evs: seq<Event>, z: Zlib): Option<(seq<Packet>, seq<byte>, End)>
    requires ValidCipher(r.cipher) && ValidEvents(evs)
    decreases |evs|
  {
    if evs == [] then Some(([], s, r))
    else
      assert ValidEvent(evs[0]);
      match evs[0]
      case SetThresholds(_, t) => ReadAll(r.(threshold := t), s, evs[1..], z)
      case SetCiphers(c) => ReadAll(r.(cipher := c), s, evs[1..], z)
      case Transmit(_) =>
        match Receive(r, s, z)
        case (Failed(_), _, _) => None
        case (Got(p), rest, r') =>
          ReceiveKeepsCipher(r, s, z);
          match ReadAll(r', rest, evs[1..], z)
          case Some((ps, last, r'')) => Some(([p] + ps, last, r''))
          case None => None
  }

  lemma ReceiveKeepsCipher(r: End, s: seq<byte>, z: Zlib)
    requires ValidCipher(r.cipher)
    ensures ValidCipher(Receive(r, s, z).2.cipher)
  {
  }

  /** Every packet, once sealed, is within the reader's size limits. */
  ghost predicate AllFit(w: End, evs: seq<Event>, z: Zlib)
    requires ValidCipher(w.cipher) && ValidEvents(evs)
    decreases |evs|
  {
    if evs == [] then true
    else
      assert ValidEvent(evs[0]);
      match evs[0]
      case SetThresholds(t, _) => AllFit(w.(threshold := t), evs[1..], z)
      case SetCiphers(c) => AllFit(w.(cipher := c), evs[1..], z)
      case Transmit(p) => WithinLimits(Seal(w, p).0, w.threshold, z) && AllFit(Seal(w, p).1, evs[1..], z)
  }

  lemma OpenSeal(w: End, r: End, p: Packet)
    requires Matched(w, r)
    ensures Open(r, Seal(w, p).0).0 == p
    ensures Matched(Seal(w, p).1, Open(r, Seal(w, p).0).1)
    ensures Seal(w, p).1.threshold == w.threshold && Open(r, Seal(w, p).0).1.threshold == r.threshold
  {
    hide Encrypt, Decrypt;
    if w.cipher.Some? {
      DecryptEncrypt(w.cipher.value.block, w.cipher.value.iv, p.data);
    }
  }

  /**
   * What is on the wire: a reader without a cipher reads the packet with its data fed through the sender's
   * cipher, or unchanged if the sender has none, and only the IV of the sender moves.
   */
  lemma OnTheWire(w: End, p: Packet, z: Zlib, rest: seq<byte>)
    requires Lossless(z) && ValidCipher(w.cipher) && WithinLimits(Seal(w, p).0, w.threshold, z)
    ensures Send(w, p, z).0.Some?
    ensures var (f, w') := Send(w, p, z);
            match w.cipher
            case None => Read(f.value + rest, w.threshold, z) == (Got(p), rest) && w' == w
            case Some(c) =>
              var sent := Cfb(c.block, c.iv[..c.block.size], p.data, false);
              && Read(f.value + rest, w.threshold, z) == (Got(Packet(p.id, sent)), rest)
              && w' == End(w.threshold, Some(Cipher(c.block, NextIv(c.block.size, c.iv, sent))))
  {
    hide Read, Frame, WithinLimits, Cfb, NextIv;
    var sealed := Seal(w, p).0;
    FrameOfFitting(sealed, w.threshold, z);
    FrameRoundTrip(sealed, w.threshold, w.threshold, z, rest);
  }

  /** One packet across: the reader returns it, takes exactly its frame, and the IVs agree again. */
  lemma OnePacket(w: End, r: End, p: Packet, z: Zlib, rest: seq<byte>)
    requires Lossless(z) && Matched(w, r) && WithinLimits(Seal(w, p).0, w.threshold, z)
    ensures Send(w, p, z).0.Some?
    ensures var (f, w') := Send(w, p, z);
            var r' := Open(r, Seal(w, p).0).1;
            Receive(r, f.value + rest, z) == (Got(p), rest, r') && Matched(w', r')
  {
    hide Read, Frame, Seal, Open, WithinLimits;
    var sealed := Seal(w, p).0;
    FrameOfFitting(sealed, w.threshold, z);
    FrameRoundTrip(sealed, w.threshold, r.threshold, z, rest);
    OpenSeal(w, r, p);
  }

  /**
   * End to end. For every list of packets and of switches made at the same positions, a reader that
   * starts out compatible with the writer returns exactly the packets, leaves whatever follows them
   * on the wire, and ends compatible with the writer again.
   */
  lemma {:induction false} EndToEnd(w: End, r: End, evs: seq<Event>, z: Zlib, rest: seq<byte>)
    requires Lossless(z) && Matched(w, r) && ValidEvents(evs) && AllFit(w, evs, z)
    ensures WriteAll(w, evs, z).Some?
    ensures var (bytes, w') := WriteAll(w, evs, z).value;
            var res := ReadAll(r, bytes + rest, evs, z);
            && res.Some?
            && res.value.0 == Packets(evs) && res.value.1 == rest && Matched(w', res.value.2)
    decreases |evs|
  {
    hide Read, Frame, Seal, Open, WithinLimits, Send, Receive, Lossless;
    if evs == [] {
      assert [] + rest == rest;
    } else {
      assert ValidEvent(evs[0]);
      match evs[0]
      case SetThresholds(t, t') => EndToEnd(w.(threshold := t), r.(threshold := t'), evs[1..], z, rest);
      case SetCiphers(c) => EndToEnd(w.(cipher := c), r.(cipher := c), evs[1..], z, rest);
      case Transmit(p) => EndToEndPacket(w, r, evs, z, rest);
    }
  }

  lemma {:induction false} EndToEndPacket(w: End, r: End, evs: seq<Event>, z: Zlib, rest: seq<byte>)
    requires Lossless(z) && Matched(w, r) && ValidEvents(evs) && AllFit(w, evs, z)
    requires evs != [] && evs[0].Transmit?
    ensures WriteAll(w, evs, z).Some?
    ensures var (bytes, w') := WriteAll(w, evs, z).value;
            var res := ReadAll(r, bytes + rest, evs, z);
            && res.Some?
            && res.value.0 == Packets(evs) && res.value.1 == rest && Matched(w', res.value.2)
    decreases |evs|, 0
  {
    hide Read, Frame, Open, WithinLimits, Receive, Lossless, Encrypt, Seal;
    var p, tail := evs[0].packet, evs[1..];
    var (f, w1) := Send(w, p, z);
    SealMatched(w, r, p);
    OnePacket(w, r, p, z, []);
    var r1 := Open(r, Seal(w, p).0).1;
    EndToEnd(w1, r1, tail, z, rest);
    var (bytes, w2) := WriteAll(w1, tail, z).value;
    OnePacket(w, r, p, z, bytes + rest);
    assert (f.value + bytes) + rest == f.value + (bytes + rest);
  }

  lemma SealMatched(w: End, r: End, p: Packet)
    requires Matched(w, r)
    ensures Matched(Seal(w, p).1, Open(r, Seal(w, p).0).1)
  {
    OpenSeal(w, r, p);
  }
}
