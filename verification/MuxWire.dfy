/** The connection between two muxes carries bytes; what it carries is exactly the queue of messages. */
module MuxWire {
  import opened Bytes
  import opened Mux
  import MuxFrame

  /** Stream ids and chunk lengths are 32-bit on the wire. */
  predicate Fits(m: Msg) {
    match m
    case Data(id, chunk) => id < TWO32 && |chunk| < TWO32
    case Open(id) => id < TWO32
    case Close(id) => id < TWO32
    case _ => true
  }

  function ToFrame(m: Msg): (f: MuxFrame.Frame)
    requires Fits(m)
    ensures MuxFrame.WellFormed(f)
  {
    match m
    case Data(id, chunk) => MuxFrame.Frame(MuxFrame.MUX_DATA, id, chunk)
    case Open(id) => MuxFrame.Frame(MuxFrame.MUX_OPEN, id, [])
    case Close(id) => MuxFrame.Frame(MuxFrame.MUX_CLOSE, id, [])
    case Ping => MuxFrame.Frame(MuxFrame.MUX_PING, 0, [])
    case Pong => MuxFrame.Frame(MuxFrame.MUX_PONG, 0, [])
  }

  /** The bytes of a message: its kind, its stream, and for data the length and the bytes. */
  lemma MessageBytes(m: Msg)
    requires Fits(m)
    ensures var e := MuxFrame.Encode(ToFrame(m));
            && |e| == (if m.Data? then 9 + |m.chunk| else 5)
            && e[0] == (if m.Data? then 0 else if m.Open? then 1 else if m.Close? then 2 else if m.Ping? then 3 else 4)
            && MuxFrame.BytesAre(e[1..5], if m.Ping? || m.Pong? then 0 else m.id)
            && (m.Data? ==> MuxFrame.BytesAre(e[5..9], |m.chunk|) && e[9..] == m.chunk)
  {
    MuxFrame.FrameLayout(ToFrame(m));
    if m.Data? {
      var n := MuxFrame.LowLength(|m.chunk|);
    }
  }

  function ToFrames(ms: seq<Msg>): (fs: seq<MuxFrame.Frame>)
    requires forall m :: m in ms ==> Fits(m)
    ensures |fs| == |ms|
  {
    if ms == [] then [] else [ToFrame(ms[0])] + ToFrames(ms[1..])
  }

  /** Two messages with the same frame are the same message. */
  lemma ToFrameInjective(m: Msg, m': Msg)
    requires Fits(m) && Fits(m') && ToFrame(m) == ToFrame(m')
    ensures m == m'
  {
  }

  lemma {:induction false} ToFramesInjective(ms: seq<Msg>, ms': seq<Msg>)
    requires (forall m :: m in ms ==> Fits(m)) && (forall m :: m in ms' ==> Fits(m))
    requires ToFrames(ms) == ToFrames(ms')
    ensures ms == ms'
  {
    if ms != [] {
      assert ToFrames(ms)[1..] == ToFrames(ms[1..]) && ToFrames(ms')[1..] == ToFrames(ms'[1..]);
      ToFrameInjective(ms[0], ms'[0]);
      ToFramesInjective(ms[1..], ms'[1..]);
      assert ms == [ms[0]] + ms[1..] && ms' == [ms'[0]] + ms'[1..];
    }
  }

  lemma {:induction false} AllWellFormed(ms: seq<Msg>)
    requires forall m :: m in ms ==> Fits(m)
    ensures forall f :: f in ToFrames(ms) ==> MuxFrame.WellFormed(f)
  {
    if ms != [] { AllWellFormed(ms[1..]); }
  }

  /** Reading the bytes of the queued messages yields the messages in order, and no other queue has those bytes. */
  lemma WireCarriesMessages(ms: seq<Msg>, rest: seq<byte>)
    requires forall m :: m in ms ==> Fits(m)
    ensures MuxFrame.DecodeAll(MuxFrame.EncodeAll(ToFrames(ms)) + rest, |ms|) == Some((ToFrames(ms), rest))
    ensures forall ms': seq<Msg> | (forall m :: m in ms' ==> Fits(m)) && ToFrames(ms') == ToFrames(ms) :: ms' == ms
  {
    AllWellFormed(ms);
    MuxFrame.FramesRoundTrip(ToFrames(ms), rest);
    forall ms': seq<Msg> | (forall m :: m in ms' ==> Fits(m)) && ToFrames(ms') == ToFrames(ms)
      ensures ms' == ms
    {
      ToFramesInjective(ms', ms);
    }
  }
}
