/**
 * The multiplexer of tunnel/mux.go as a transition system. Each endpoint runs a read loop, a write loop,
 * at most one Mux.Close, any number of AcceptStream calls, and one user goroutine per stream; the steps
 * below are their atomic actions, so every interleaving of them is a run. A check of the mux's closed flag
 * that may be stale by the time it is acted on is left out, which only adds runs. Two actions stand for
 * pairs that nothing can come between: OpenStream's new id is named by nobody before its Open frame is
 * queued, and a frame the read loop has read is as good as one still on the wire.
 */
module Mux {
  import opened Bytes

  const CHANNEL_CAP := 256   // writeCh and readCh of a mux
  const STREAM_CAP := 64     // readCh of a stream

  datatype Msg =
    | Data(id: nat, chunk: seq<byte>)
    | Open(id: nat)
    | Close(id: nat)
    | Ping
    | Pong

  /** Who set the closed flag of a stream. */
  datatype Closer = Nobody | ByUser | ByReader | ByMux

  /** The goroutine that uses a stream: where in OpenStream, Write or Close it is. */
  datatype User =
    | Opening                      // OpenStream: the id is stored, the Open frame is still to be queued
    | Idle
    | Writing(chunk: seq<byte>)    // Write: past the closed check
    | CloseSending                 // Close: flag won, Close frame to be queued
    | CloseDeleting                // Close: map entry to be deleted
    | CloseEnding                  // Close: channel to be closed
    | Closed

  datatype Stream = Stream(
    queue: seq<seq<byte>>,         // readCh
    closer: Closer,
    chanCloses: nat,               // how often readCh was closed
    user: User,
    delivered: seq<seq<byte>>,     // chunks received from readCh by Read, in order
    returned: seq<seq<byte>>)      // what those Reads returned

  datatype ReadLoop =
    | Ready
    | Delivering(id: nat, chunk: seq<byte>)  // the stream is loaded, the send is next
    | ClosingStream(id: nat)                 // close(): the flag is next
    | ClosingChan(id: nat)                   // close(): flag won, the channel is next
    | Ponging
    | Stopped

  /**
   * The one Mux.Close that wins the flag, ranging over the streams in any order: `begun` are those registered
   * when it began, `ended` those of them still registered when it ended.
   */
  datatype CloseLoop =
    | NotClosing
    | Ranging(begun: set<nat>, visited: set<nat>)
    | RangingChan(begun: set<nat>, visited: set<nat>, id: nat)
    | Ended(ended: set<nat>)

  datatype Endpoint = Endpoint(
    nextID: nat,
    streams: map<nat, Stream>,     // every stream object, by id
    registered: set<nat>,          // keys of the sync.Map
    opens: seq<nat>,               // readCh: Open frames waiting for AcceptStream
    accepting: seq<nat>,           // taken by AcceptStream calls that have not stored the stream yet
    writeCh: seq<Msg>,             // the queued frames, the first one in the write loop's hand if it holds one
    holding: bool,
    reader: ReadLoop,
    writerStopped: bool,
    closing: CloseLoop,
    enqueued: seq<Msg>,            // everything ever put into writeCh
    transmitted: seq<Msg>)         // everything ever written to the connection

  /** An endpoint between the connection it reads from and the one it writes to. */
  datatype Net = Net(e: Endpoint, inbox: seq<Msg>, outbox: seq<Msg>)

  datatype Action =
    | OpenAlloc
    | OpenSend(id: nat)
    | AcceptTake
    | AcceptStore(i: nat)          // any of the calls goes on
    | WriteStart(id: nat, chunk: seq<byte>)
    | WriteSend(id: nat)
    | CloseStart(id: nat)
    | CloseSend(id: nat)
    | CloseDelete(id: nat)
    | CloseEnd(id: nat)
    | Read(id: nat, room: nat)
    | Receive
    | Deliver
    | ReaderFlag
    | ReaderChan
    | SendPong
    | ReaderStop
    | WriterTake
    | Transmit
    | WriterStop(dropping: bool)
    | MuxCloseStart
    | MuxCloseVisit(id: nat)
    | MuxCloseChan
    | MuxCloseEnd

  const FreshStream := Stream([], Nobody, 0, Idle, [], [])

  predicate UserAt(e: Endpoint, id: nat, u: User) {
    id in e.streams && e.streams[id].user == u
  }

  /** A frame in the write loop's hand has left its place in the channel. */
  function Capacity(e: Endpoint): nat {
    if e.holding then CHANNEL_CAP + 1 else CHANNEL_CAP
  }

  predicate CanQueue(e: Endpoint) {
    |e.writeCh| < Capacity(e)
  }

  /** The actions of the goroutines that use streams. */
  predicate UserAction(a: Action) {
    a.OpenAlloc? || a.OpenSend? || a.AcceptStore? || a.WriteStart? || a.WriteSend? || a.CloseStart? || a.CloseSend?
    || a.CloseDelete? || a.CloseEnd? || a.Read?
  }

  /** The actions of the read loop. */
  predicate ReaderAction(a: Action) {
    a.Receive? || a.Deliver? || a.ReaderFlag? || a.ReaderChan? || a.SendPong? || a.ReaderStop?
  }

  /** The actions of the write loop, of Mux.Close, and the receive of AcceptStream. */
  predicate MuxAction(a: Action) {
    !UserAction(a) && !ReaderAction(a)
  }

  predicate UserEnabled(e: Endpoint, a: Action)
    requires UserAction(a)
  {
    match a
    case OpenAlloc => e.nextID + 1 < TWO32
    case OpenSend(id) => UserAt(e, id, Opening) && CanQueue(e)
    case AcceptStore(i) => i < |e.accepting|
    case WriteStart(id, _) => UserAt(e, id, Idle) && e.streams[id].closer == Nobody
    case WriteSend(id) => id in e.streams && e.streams[id].user.Writing? && CanQueue(e)
    case CloseStart(id) => UserAt(e, id, Idle) && e.streams[id].closer == Nobody
    case CloseSend(id) => UserAt(e, id, CloseSending) && CanQueue(e)
    case CloseDelete(id) => UserAt(e, id, CloseDeleting)
    case CloseEnd(id) => UserAt(e, id, CloseEnding)
    case Read(id, _) => id in e.streams && e.streams[id].queue != []
  }

  predicate ReaderEnabled(e: Endpoint, inbox: seq<Msg>, a: Action)
    requires ReaderAction(a)
  {
    match a
    case Receive => e.reader == Ready && inbox != []
    case Deliver => e.reader.Delivering? && e.reader.id in e.streams
    case ReaderFlag => e.reader.ClosingStream? && e.reader.id in e.streams
    case ReaderChan => e.reader.ClosingChan? && e.reader.id in e.streams
    case SendPong => e.reader == Ponging && CanQueue(e)
    case ReaderStop => e.reader == Ready
  }

  /**
   * Range visits each stream at most once, and does not end before it has visited those registered all along;
   * it may have loaded one that was deleted since, so any stream object can be visited.
   */
  predicate MuxEnabled(e: Endpoint, a: Action)
    requires MuxAction(a)
  {
    match a
    case AcceptTake => e.opens != []
    case WriterTake => !e.writerStopped && !e.holding && e.writeCh != []
    case Transmit => !e.writerStopped && e.holding && e.writeCh != []
    // a frame in hand is dropped with the loop, which otherwise stops between frames
    case WriterStop(dropping) => !e.writerStopped && (if dropping then e.holding && e.writeCh != [] else !e.holding)
    case MuxCloseStart => e.closing == NotClosing
    case MuxCloseVisit(id) => e.closing.Ranging? && id in e.streams && id !in e.closing.visited
    case MuxCloseChan => e.closing.RangingChan? && e.closing.id in e.streams
    case MuxCloseEnd => e.closing.Ranging? && e.closing.begun * e.registered <= e.closing.visited
  }

  predicate Enabled(n: Net, a: Action) {
    if UserAction(a) then UserEnabled(n.e, a)
    else if ReaderAction(a) then ReaderEnabled(n.e, n.inbox, a)
    else MuxEnabled(n.e, a)
  }

  function Put(e: Endpoint, id: nat, s: Stream): Endpoint {
    e.(streams := e.streams[id := s])
  }

  /** m.writeCh <- frame. */
  function Enqueue(e: Endpoint, m: Msg): Endpoint {
    e.(writeCh := e.writeCh + [m], enqueued := e.enqueued + [m])
  }

  /** The dispatch of the read loop. */
  function Dispatch(e: Endpoint, m: Msg): Endpoint {
    match m
    case Data(id, chunk) => if id in e.registered then e.(reader := Delivering(id, chunk)) else e
    case Open(id) => if |e.opens| < CHANNEL_CAP then e.(opens := e.opens + [id]) else e
    case Close(id) =>
      if id in e.registered then e.(registered := e.registered - {id}, reader := ClosingStream(id)) else e
    case Ping => e.(reader := Ponging)
    case Pong => e
  }

  /** The send into the stream's channel: a closed channel panics, a full one drops. */
  function DeliverNext(e: Endpoint): Endpoint
    requires e.reader.Delivering? && e.reader.id in e.streams
  {
    var s := e.streams[e.reader.id];
    if s.chanCloses > 0 then e.(reader := Stopped)
    else if |s.queue| < STREAM_CAP then Put(e, e.reader.id, s.(queue := s.queue + [e.reader.chunk])).(reader := Ready)
    else e.(reader := Ready)
  }

  /** close() by the read loop or by Mux.Close: compare-and-swap on the flag. */
  function Flag(s: Stream, c: Closer): Stream {
    if s.closer == Nobody then s.(closer := c) else s
  }

  function CloseChannel(s: Stream): Stream {
    s.(chanCloses := s.chanCloses + 1)
  }

  /** Read into a buffer of `room` bytes: one chunk is taken, and what does not fit is lost. */
  function ReadNext(s: Stream, room: nat): Stream
    requires s.queue != []
  {
    var c := s.queue[0];
    s.(queue := s.queue[1..], delivered := s.delivered + [c], returned := s.returned + [c[..Min(room, |c|)]])
  }

  function UserNext(e: Endpoint, a: Action): Endpoint
    requires UserAction(a) && UserEnabled(e, a)
  {
    match a
    case OpenAlloc =>
      var id := e.nextID + 1;
      Put(e, id, FreshStream.(user := Opening)).(nextID := id, registered := e.registered + {id})
    case OpenSend(id) => Enqueue(Put(e, id, e.streams[id].(user := Idle)), Open(id))
    case AcceptStore(i) =>
      var id := e.accepting[i];
      Put(e, id, FreshStream).(accepting := Without(e.accepting, i), registered := e.registered + {id})
    case WriteStart(id, chunk) => Put(e, id, e.streams[id].(user := Writing(chunk)))
    case WriteSend(id) =>
      Enqueue(Put(e, id, e.streams[id].(user := Idle)), Data(id, e.streams[id].user.chunk))
    case CloseStart(id) => Put(e, id, e.streams[id].(closer := ByUser, user := CloseSending))
    case CloseSend(id) => Enqueue(Put(e, id, e.streams[id].(user := CloseDeleting)), Close(id))
    case CloseDelete(id) => Put(e, id, e.streams[id].(user := CloseEnding)).(registered := e.registered - {id})
    case CloseEnd(id) => Put(e, id, CloseChannel(e.streams[id]).(user := Closed))
    case Read(id, room) => Put(e, id, ReadNext(e.streams[id], room))
  }

  function ReaderNext(e: Endpoint, inbox: seq<Msg>, a: Action): Endpoint
    requires ReaderAction(a) && ReaderEnabled(e, inbox, a)
  {
    match a
    case Receive => Dispatch(e, inbox[0])
    case Deliver => DeliverNext(e)
    case ReaderFlag =>
      var s := e.streams[e.reader.id];
      Put(e, e.reader.id, Flag(s, ByReader)).(reader := if s.closer == Nobody then ClosingChan(e.reader.id) else Ready)
    case ReaderChan => Put(e, e.reader.id, CloseChannel(e.streams[e.reader.id])).(reader := Ready)
    case SendPong => Enqueue(e.(reader := Ready), Pong)
    case ReaderStop => e.(reader := Stopped)
  }

  function MuxNext(e: Endpoint, a: Action): Endpoint
    requires MuxAction(a) && MuxEnabled(e, a)
  {
    match a
    case AcceptTake => e.(opens := e.opens[1..], accepting := e.accepting + [e.opens[0]])
    case WriterTake => e.(holding := true)
    case Transmit => e.(writeCh := e.writeCh[1..], holding := false, transmitted := e.transmitted + [e.writeCh[0]])
    case WriterStop(dropping) =>
      e.(writerStopped := true, holding := false, writeCh := if dropping then e.writeCh[1..] else e.writeCh)
    case MuxCloseStart => e.(closing := Ranging(e.registered, {}))
    case MuxCloseVisit(id) =>
      var s := e.streams[id];
      var visited := e.closing.visited + {id};
      Put(e, id, Flag(s, ByMux)).(closing := if s.closer == Nobody then RangingChan(e.closing.begun, visited, id)
                                             else Ranging(e.closing.begun, visited))
    case MuxCloseChan =>
      Put(e, e.closing.id, CloseChannel(e.streams[e.closing.id]))
      .(closing := Ranging(e.closing.begun, e.closing.visited))
    case MuxCloseEnd => e.(closing := Ended(e.closing.begun * e.registered))
  }

  function EndpointNext(n: Net, a: Action): Endpoint
    requires Enabled(n, a)
  {
    if UserAction(a) then UserNext(n.e, a)
    else if ReaderAction(a) then ReaderNext(n.e, n.inbox, a)
    else MuxNext(n.e, a)
  }

  function Next(n: Net, a: Action): Net
    requires Enabled(n, a)
  {
    Net(EndpointNext(n, a),
        if a == Receive then n.inbox[1..] else n.inbox,
        if a == Transmit then n.outbox + [n.e.writeCh[0]] else n.outbox)
  }

  // ---------------------------------------------------------------- two endpoints

  /** A opens streams, B accepts them. */
  datatype System = System(a: Endpoint, b: Endpoint, toB: seq<Msg>, toA: seq<Msg>)

  const InitialEndpoint := Endpoint(0, map[], {}, [], [], [], false, Ready, false, NotClosing, [], [])
  const Initial := System(InitialEndpoint, InitialEndpoint, [], [])

  datatype Step = AtA(act: Action) | AtB(act: Action)

  function ViewA(s: System): Net { Net(s.a, s.toA, s.toB) }
  function ViewB(s: System): Net { Net(s.b, s.toB, s.toA) }

  /** One side opens: B takes every step but OpenStream's. */
  predicate StepEnabled(s: System, st: Step) {
    match st
    case AtA(act) => Enabled(ViewA(s), act)
    case AtB(act) => Enabled(ViewB(s), act) && act != OpenAlloc
  }

  function StepNext(s: System, st: Step): System
    requires StepEnabled(s, st)
  {
    match st
    case AtA(act) => var n := Next(ViewA(s), act); System(n.e, s.b, n.outbox, n.inbox)
    case AtB(act) => var n := Next(ViewB(s), act); System(s.a, n.e, n.inbox, n.outbox)
  }

  predicate IsRun(s: System, steps: seq<Step>)
    decreases |steps|
  {
    steps == [] || (StepEnabled(s, steps[0]) && IsRun(StepNext(s, steps[0]), steps[1..]))
  }

  function After(s: System, steps: seq<Step>): System
    requires IsRun(s, steps)
    decreases |steps|
  {
    if steps == [] then s else After(StepNext(s, steps[0]), steps[1..])
  }
}
