/** What every run of the multiplexer keeps. */
module MuxSafety {
  import opened Bytes
  import opened Subsequence
  import opened Mux

  // ---------------------------------------------------------------- what an action changes, field by field

  /** The message an action queues, if any. */
  function Queued(e: Endpoint, a: Action): seq<Msg> {
    match a
    case OpenSend(id) => [Open(id)]
    case WriteSend(id) =>
      if id in e.streams && e.streams[id].user.Writing? then [Data(id, e.streams[id].user.chunk)] else []
    case CloseSend(id) => [Close(id)]
    case SendPong => [Pong]
    case _ => []
  }

  /** The stream a user action is about. */
  function Subject(e: Endpoint, a: Action): nat
    requires UserAction(a) && UserEnabled(e, a)
  {
    match a
    case OpenAlloc => e.nextID + 1
    case AcceptStore(i) => e.accepting[i]
    case _ => a.id
  }

  /** That stream after the action. */
  function UserStream(e: Endpoint, a: Action): Stream
    requires UserAction(a) && UserEnabled(e, a)
  {
    match a
    case OpenAlloc => FreshStream.(user := Opening)
    case OpenSend(id) => e.streams[id].(user := Idle)
    case AcceptStore(_) => FreshStream
    case WriteStart(id, chunk) => e.streams[id].(user := Writing(chunk))
    case WriteSend(id) => e.streams[id].(user := Idle)
    case CloseStart(id) => e.streams[id].(closer := ByUser, user := CloseSending)
    case CloseSend(id) => e.streams[id].(user := CloseDeleting)
    case CloseDelete(id) => e.streams[id].(user := CloseEnding)
    case CloseEnd(id) => CloseChannel(e.streams[id]).(user := Closed)
    case Read(id, room) => ReadNext(e.streams[id], room)
  }

  /** A stream after the read loop's attempt to send it a chunk. */
  function Delivered(s: Stream, chunk: seq<byte>): Stream {
    if s.chanCloses == 0 && |s.queue| < STREAM_CAP then s.(queue := s.queue + [chunk]) else s
  }

  /** Stream `id` after an action of a loop or of Mux.Close, none of which makes one. */
  function LoopStream(e: Endpoint, a: Action, id: nat): Stream
    requires !UserAction(a) && id in e.streams
  {
    var s := e.streams[id];
    match a
    case Deliver => if e.reader.Delivering? && e.reader.id == id then Delivered(s, e.reader.chunk) else s
    case ReaderFlag => if e.reader.ClosingStream? && e.reader.id == id then Flag(s, ByReader) else s
    case ReaderChan => if e.reader.ClosingChan? && e.reader.id == id then CloseChannel(s) else s
    case MuxCloseVisit(v) => if v == id then Flag(s, ByMux) else s
    case MuxCloseChan => if e.closing.RangingChan? && e.closing.id == id then CloseChannel(s) else s
    case _ => s
  }

  lemma UserStreams(e: Endpoint, a: Action)
    requires UserAction(a) && UserEnabled(e, a)
    ensures UserNext(e, a).streams == e.streams[Subject(e, a) := UserStream(e, a)]
    ensures UserNext(e, a).registered <= e.registered + {Subject(e, a)}
  {
  }

  lemma UserFields(e: Endpoint, a: Action)
    requires UserAction(a) && UserEnabled(e, a)
    ensures var e' := UserNext(e, a);
            && e'.reader == e.reader && e'.closing == e.closing
            && e'.writerStopped == e.writerStopped && e'.transmitted == e.transmitted
            && e'.enqueued == e.enqueued + Queued(e, a) && e'.writeCh == e.writeCh + Queued(e, a)
            && e'.nextID == (if a == OpenAlloc then e.nextID + 1 else e.nextID)
            && e'.opens == e.opens && e'.holding == e.holding
            && e'.accepting == if a.AcceptStore? then Without(e.accepting, a.i) else e.accepting
  {
  }

  /** No stream appears or goes away, and each is as `LoopStream` says. */
  ghost predicate Passed(e: Endpoint, e': Endpoint, a: Action)
    requires !UserAction(a)
  {
    && e'.streams.Keys == e.streams.Keys && e'.registered <= e.registered
    && forall id :: id in e.streams ==> e'.streams[id] == LoopStream(e, a, id)
  }

  lemma DispatchStreams(e: Endpoint, m: Msg)
    ensures Dispatch(e, m).streams == e.streams && Dispatch(e, m).registered <= e.registered
  {
  }

  lemma DeliverStreams(e: Endpoint)
    requires e.reader.Delivering? && e.reader.id in e.streams
    ensures Passed(e, DeliverNext(e), Deliver)
  {
  }

  lemma ReaderClosesStreams(e: Endpoint, inbox: seq<Msg>, a: Action)
    requires (a == ReaderFlag || a == ReaderChan) && ReaderEnabled(e, inbox, a)
    ensures Passed(e, ReaderNext(e, inbox, a), a)
  {
    hide Flag, CloseChannel;
  }

  lemma ReaderStreams(e: Endpoint, inbox: seq<Msg>, a: Action)
    requires ReaderAction(a) && ReaderEnabled(e, inbox, a)
    ensures Passed(e, ReaderNext(e, inbox, a), a)
  {
    if a == ReaderFlag || a == ReaderChan {
      hide ReaderNext, LoopStream;
      ReaderClosesStreams(e, inbox, a);
    } else if a == Deliver {
      hide DeliverNext, LoopStream;
      DeliverStreams(e);
    } else {
      hide Dispatch;
      if a == Receive { DispatchStreams(e, inbox[0]); }
    }
  }

  lemma ReaderFields(e: Endpoint, inbox: seq<Msg>, a: Action)
    requires ReaderAction(a) && ReaderEnabled(e, inbox, a)
    ensures var e' := ReaderNext(e, inbox, a);
            && e'.closing == e.closing && e'.nextID == e.nextID
            && e'.accepting == e.accepting && e'.holding == e.holding
            && e'.writerStopped == e.writerStopped && e'.transmitted == e.transmitted
            && e'.enqueued == e.enqueued + Queued(e, a) && e'.writeCh == e.writeCh + Queued(e, a)
            && e'.opens ==
               if a == Receive && inbox[0].Open? && |e.opens| < CHANNEL_CAP then e.opens + [inbox[0].id] else e.opens
  {
    if a == Receive {
      hide DeliverNext;
      DispatchFields(e, inbox[0]);
      hide Dispatch;
    } else {
      hide Dispatch;
    }
  }

  lemma DispatchFields(e: Endpoint, m: Msg)
    ensures var e' := Dispatch(e, m);
            && e'.closing == e.closing && e'.nextID == e.nextID
            && e'.accepting == e.accepting && e'.holding == e.holding
            && e'.writerStopped == e.writerStopped && e'.transmitted == e.transmitted
            && e'.enqueued == e.enqueued && e'.writeCh == e.writeCh
            && e'.opens == if m.Open? && |e.opens| < CHANNEL_CAP then e.opens + [m.id] else e.opens
  {
  }

  lemma MuxStreams(e: Endpoint, a: Action)
    requires MuxAction(a) && MuxEnabled(e, a)
    ensures Passed(e, MuxNext(e, a), a)
  {
  }

  lemma MuxFields(e: Endpoint, a: Action)
    requires MuxAction(a) && MuxEnabled(e, a)
    ensures var e' := MuxNext(e, a);
            && e'.reader == e.reader && e'.nextID == e.nextID && e'.enqueued == e.enqueued
            && (a == AcceptTake ==> e.opens != [])
            && e'.opens == (if a == AcceptTake then e.opens[1..] else e.opens)
            && e'.accepting == (if a == AcceptTake then e.accepting + [e.opens[0]] else e.accepting)
            && e'.holding == (a == WriterTake || (e.holding && a != Transmit && !a.WriterStop?))
            && (a == Transmit || a == WriterStop(true) ==> e.writeCh != [])
            && e'.writeCh == (if a == Transmit || a == WriterStop(true) then e.writeCh[1..] else e.writeCh)
            && e'.transmitted == (if a == Transmit then e.transmitted + [e.writeCh[0]] else e.transmitted)
            && e'.writerStopped == (e.writerStopped || a.WriterStop?)
  {
  }

  /** The streams after any action: one made or changed by its user, or all of them passed over by a loop. */
  lemma StreamsAfter(n: Net, a: Action)
    requires Enabled(n, a)
    ensures UserAction(a) ==> Next(n, a).e.streams == n.e.streams[Subject(n.e, a) := UserStream(n.e, a)]
    ensures !UserAction(a) ==>
              && Next(n, a).e.streams.Keys == n.e.streams.Keys
              && forall id :: id in n.e.streams ==> Next(n, a).e.streams[id] == LoopStream(n.e, a, id)
  {
    hide UserNext, ReaderNext, MuxNext, UserEnabled, ReaderEnabled, MuxEnabled, Subject, UserStream, LoopStream;
    if UserAction(a) {
      UserStreams(n.e, a);
    } else if ReaderAction(a) {
      ReaderStreams(n.e, n.inbox, a);
    } else {
      MuxStreams(n.e, a);
    }
  }

  predicate Creates(a: Action) {
    a.OpenAlloc? || a.AcceptStore?
  }

  /** What a user action does to the chunks of its stream: Read moves one on, nothing else touches them. */
  lemma UserKeepsChunks(e: Endpoint, a: Action)
    requires UserAction(a) && UserEnabled(e, a)
    ensures var s' := UserStream(e, a);
            if Creates(a) then s'.delivered == [] && s'.queue == [] && s'.returned == []
            else
              && Subject(e, a) in e.streams
              && var s := e.streams[Subject(e, a)];
              && s'.delivered + s'.queue == s.delivered + s.queue && |s'.queue| <= |s.queue|
              && (ReadOk(s) ==> ReadOk(s'))
  {
    if a.Read? {
      var s := e.streams[a.id];
      assert s.delivered + s.queue == (s.delivered + [s.queue[0]]) + s.queue[1..];
    }
  }

  /** What a loop does to any stream: only Deliver touches the chunks, and nothing the user's place. */
  lemma LoopKeepsChunks(e: Endpoint, a: Action, id: nat)
    requires !UserAction(a) && id in e.streams
    ensures var s, s' := e.streams[id], LoopStream(e, a, id);
            && s'.user == s.user
            && (a != Deliver ==> s'.delivered == s.delivered && s'.queue == s.queue)
            && (|s.queue| <= STREAM_CAP ==> |s'.queue| <= STREAM_CAP)
            && (ReadOk(s) ==> ReadOk(s'))
  {
  }

  // ---------------------------------------------------------------- closing a stream's channel

  /** The stream as its three possible closers leave it: only the one that won the flag touches the channel. */
  ghost predicate CloseOk(e: Endpoint, id: nat)
    requires id in e.streams
  {
    var s := e.streams[id];
    var userClosing := s.user.CloseSending? || s.user.CloseDeleting? || s.user.CloseEnding?;
    var readerHas := e.reader == ClosingChan(id);
    var muxHas := e.closing.RangingChan? && e.closing.id == id;
    && (s.closer == ByUser <==> userClosing || s.user.Closed?)
    && (readerHas ==> s.closer == ByReader)
    && (muxHas ==> s.closer == ByMux)
    && s.chanCloses == (if s.closer == Nobody || userClosing || readerHas || muxHas then 0 else 1)
  }

  ghost predicate ClosesOk(e: Endpoint) {
    && (forall id :: id in e.streams ==> CloseOk(e, id))
    && (e.reader.Delivering? || e.reader.ClosingStream? || e.reader.ClosingChan? ==> e.reader.id in e.streams)
    && (e.closing.RangingChan? ==> e.closing.id in e.streams)
    && e.registered <= e.streams.Keys
  }

  /** A step that creates a stream object does not replace one. */
  predicate NoReplacement(n: Net, a: Action) {
    (a == OpenAlloc ==> n.e.nextID + 1 !in n.e.streams)
    && (a.AcceptStore? && a.i < |n.e.accepting| ==> n.e.accepting[a.i] !in n.e.streams)
  }

  /** The flag and the channel of stream `id`, against where the three closers are. */
  lemma UserKeepsCloseOk(e: Endpoint, a: Action, id: nat)
    requires UserAction(a) && UserEnabled(e, a) && id in UserNext(e, a).streams
    requires if id in e.streams then CloseOk(e, id)
             else e.reader != ClosingChan(id) && !(e.closing.RangingChan? && e.closing.id == id)
    requires Creates(a) ==> Subject(e, a) !in e.streams
    ensures CloseOk(UserNext(e, a), id)
  {
    UserStreams(e, a);
    UserFields(e, a);
    hide UserNext;
  }

  lemma ReaderKeepsCloseOk(e: Endpoint, inbox: seq<Msg>, a: Action, id: nat)
    requires ReaderAction(a) && ReaderEnabled(e, inbox, a) && id in e.streams && CloseOk(e, id)
    ensures id in ReaderNext(e, inbox, a).streams && CloseOk(ReaderNext(e, inbox, a), id)
  {
    if a == Receive {
      DispatchNotClosing(e, inbox[0]);
      hide Dispatch;
    } else if a == Deliver {
      DeliverNotClosing(e, id);
      hide DeliverNext;
    } else {
      hide Dispatch, DeliverNext;
    }
  }

  /** Dispatch and delivery close nothing. */
  lemma DispatchNotClosing(e: Endpoint, m: Msg)
    requires e.reader == Ready
    ensures var e' := Dispatch(e, m);
            e'.streams == e.streams && e'.closing == e.closing && !e'.reader.ClosingChan?
  {
  }

  lemma DeliverNotClosing(e: Endpoint, id: nat)
    requires e.reader.Delivering? && e.reader.id in e.streams && id in e.streams
    ensures var e' := DeliverNext(e);
            && id in e'.streams && e'.closing == e.closing && !e'.reader.ClosingChan?
            && e'.streams[id].user == e.streams[id].user && e'.streams[id].closer == e.streams[id].closer
            && e'.streams[id].chanCloses == e.streams[id].chanCloses
  {
  }

  lemma MuxKeepsCloseOk(e: Endpoint, a: Action, id: nat)
    requires MuxAction(a) && MuxEnabled(e, a) && id in e.streams && CloseOk(e, id)
    ensures id in MuxNext(e, a).streams && CloseOk(MuxNext(e, a), id)
  {
  }

  lemma UserKeepsCloses(e: Endpoint, a: Action)
    requires UserAction(a) && UserEnabled(e, a) && ClosesOk(e)
    requires Creates(a) ==> Subject(e, a) !in e.streams
    ensures ClosesOk(UserNext(e, a))
  {
    hide UserNext, UserStream, CloseOk, Subject, UserEnabled;
    UserStreams(e, a);
    UserFields(e, a);
    forall id | id in UserNext(e, a).streams
      ensures CloseOk(UserNext(e, a), id)
    {
      UserKeepsCloseOk(e, a, id);
    }
  }

  /** The read loop and Mux.Close only name streams that exist. */
  lemma ReaderNames(e: Endpoint, inbox: seq<Msg>, a: Action)
    requires ReaderAction(a) && ReaderEnabled(e, inbox, a) && e.registered <= e.streams.Keys
    ensures var r := ReaderNext(e, inbox, a).reader;
            r.Delivering? || r.ClosingStream? || r.ClosingChan? ==> r.id in e.streams
  {
  }

  lemma MuxNames(e: Endpoint, a: Action)
    requires MuxAction(a) && MuxEnabled(e, a) && (e.closing.RangingChan? ==> e.closing.id in e.streams)
    ensures var c := MuxNext(e, a).closing;
            c.RangingChan? ==> c.id in e.streams
  {
  }

  lemma ReaderKeepsCloses(e: Endpoint, inbox: seq<Msg>, a: Action)
    requires ReaderAction(a) && ReaderEnabled(e, inbox, a) && ClosesOk(e)
    ensures ClosesOk(ReaderNext(e, inbox, a))
  {
    hide ReaderNext, LoopStream, CloseOk, ReaderEnabled;
    ReaderStreams(e, inbox, a);
    ReaderFields(e, inbox, a);
    ReaderNames(e, inbox, a);
    forall id | id in e.streams
      ensures CloseOk(ReaderNext(e, inbox, a), id)
    {
      ReaderKeepsCloseOk(e, inbox, a, id);
    }
  }

  lemma MuxKeepsCloses(e: Endpoint, a: Action)
    requires MuxAction(a) && MuxEnabled(e, a) && ClosesOk(e)
    ensures ClosesOk(MuxNext(e, a))
  {
    hide MuxNext, LoopStream, CloseOk, MuxEnabled;
    MuxStreams(e, a);
    MuxFields(e, a);
    MuxNames(e, a);
    forall id | id in e.streams
      ensures CloseOk(MuxNext(e, a), id)
    {
      MuxKeepsCloseOk(e, a, id);
    }
  }

  lemma StepKeepsCloses(n: Net, a: Action)
    requires Enabled(n, a) && ClosesOk(n.e) && NoReplacement(n, a)
    ensures ClosesOk(Next(n, a).e)
  {
    hide ClosesOk, UserNext, ReaderNext, MuxNext, ReaderEnabled, MuxEnabled;
    if UserAction(a) {
      UserKeepsCloses(n.e, a);
    } else if ReaderAction(a) {
      ReaderKeepsCloses(n.e, n.inbox, a);
    } else {
      MuxKeepsCloses(n.e, a);
    }
  }

  // ---------------------------------------------------------------- views of a message sequence

  function DataIn(m: Msg, id: nat): seq<seq<byte>> {
    if m.Data? && m.id == id then [m.chunk] else []
  }

  /** The chunks sent on stream `id`. */
  function DataOf(ms: seq<Msg>, id: nat): seq<seq<byte>> {
    if ms == [] then [] else DataIn(ms[0], id) + DataOf(ms[1..], id)
  }

  predicate About(m: Msg, id: nat) {
    (m.Data? || m.Open? || m.Close?) && m.id == id
  }

  function IfAbout(m: Msg, id: nat): seq<Msg> {
    if About(m, id) then [m] else []
  }

  /** The messages of stream `id`. */
  function ForId(ms: seq<Msg>, id: nat): seq<Msg> {
    if ms == [] then [] else IfAbout(ms[0], id) + ForId(ms[1..], id)
  }

  /** The streams opened. */
  function OpenIds(ms: seq<Msg>): seq<nat> {
    if ms == [] then [] else IfOpen(ms[0]) + OpenIds(ms[1..])
  }

  function IfOpen(m: Msg): seq<nat> {
    if m.Open? then [m.id] else []
  }

  lemma {:induction false} DataOfAppend(a: seq<Msg>, b: seq<Msg>, id: nat)
    ensures DataOf(a + b, id) == DataOf(a, id) + DataOf(b, id)
  {
    if a == [] {
      assert a + b == b;
    } else {
      hide DataIn;
      var c := a + b;
      assert c[0] == a[0] && c[1..] == a[1..] + b;
      DataOfAppend(a[1..], b, id);
      Assoc(DataIn(a[0], id), DataOf(a[1..], id), DataOf(b, id));
    }
  }

  lemma {:induction false} ForIdAppend(a: seq<Msg>, b: seq<Msg>, id: nat)
    ensures ForId(a + b, id) == ForId(a, id) + ForId(b, id)
  {
    if a == [] {
      assert a + b == b;
    } else {
      hide IfAbout;
      var c := a + b;
      assert c[0] == a[0] && c[1..] == a[1..] + b;
      ForIdAppend(a[1..], b, id);
      Assoc(IfAbout(a[0], id), ForId(a[1..], id), ForId(b, id));
    }
  }

  lemma {:induction false} OpenIdsAppend(a: seq<Msg>, b: seq<Msg>)
    ensures OpenIds(a + b) == OpenIds(a) + OpenIds(b)
  {
    if a == [] {
      assert a + b == b;
    } else {
      hide IfOpen;
      var c := a + b;
      assert c[0] == a[0] && c[1..] == a[1..] + b;
      OpenIdsAppend(a[1..], b);
      Assoc(IfOpen(a[0]), OpenIds(a[1..]), OpenIds(b));
    }
  }

  // ---------------------------------------------------------------- the sending side

  /** What an action does between writeCh and the connection. */
  lemma SenderStep(n: Net, a: Action)
    requires Enabled(n, a)
    ensures var n' := Next(n, a);
            var q := Queued(n.e, a);
            && n'.e.enqueued == n.e.enqueued + q
            && if a == Transmit || a == WriterStop(true)
               then && n.e.writeCh != [] && n'.e.writeCh == n.e.writeCh[1..] && q == []
                    && n'.outbox == n.outbox + (if a == Transmit then [n.e.writeCh[0]] else [])
               else n'.e.writeCh == n.e.writeCh + q && n'.outbox == n.outbox
  {
    hide UserNext, ReaderNext, MuxNext, UserEnabled, ReaderEnabled, MuxEnabled;
    if UserAction(a) {
      UserFields(n.e, a);
    } else if ReaderAction(a) {
      ReaderFields(n.e, n.inbox, a);
    } else {
      MuxFields(n.e, a);
    }
  }

  // ---------------------------------------------------------------- the receiving side

  /** Chunks that reached stream `id`, read or not. */
  function Reached(e: Endpoint, id: nat): seq<seq<byte>> {
    if id in e.streams then e.streams[id].delivered + e.streams[id].queue else []
  }

  /** The chunk the read loop is about to send to stream `id`. */
  function InHand(e: Endpoint, id: nat): seq<seq<byte>> {
    if e.reader.Delivering? && e.reader.id == id then [e.reader.chunk] else []
  }

  /** Everything of stream `id` from the connection to the reader's hands, oldest first. */
  function Arriving(e: Endpoint, inbox: seq<Msg>, id: nat): seq<seq<byte>> {
    Reached(e, id) + InHand(e, id) + DataOf(inbox, id)
  }

  /** Chunks on their way to stream `id`, from the connection to the read loop's hand. */
  function Coming(e: Endpoint, inbox: seq<Msg>, id: nat): seq<seq<byte>> {
    InHand(e, id) + DataOf(inbox, id)
  }

  /**
   * The chunk for stream `id` that an action of the read loop does not pass on, if any: it was received while
   * the id was not registered, or its turn came with the stream's channel closed or holding 64 chunks.
   */
  function Refused(n: Net, a: Action, id: nat): seq<seq<byte>>
    requires Enabled(n, a)
  {
    match a
    case Receive => if n.inbox[0].Data? && n.inbox[0].id == id && id !in n.e.registered then [n.inbox[0].chunk] else []
    case Deliver =>
      if n.e.reader.id == id && (n.e.streams[id].chanCloses > 0 || |n.e.streams[id].queue| >= 64)
      then [n.e.reader.chunk] else []
    case _ => []
  }

  /**
   * A step of the receiver, exactly: the chunk it refuses is taken out right behind the ones that reached the
   * stream, and all others stay, in order.
   */
  lemma ReceiverStep(n: Net, a: Action, id: nat)
    requires Enabled(n, a) && NoReplacement(n, a)
    ensures Sub(Arriving(Next(n, a).e, Next(n, a).inbox, id), Arriving(n.e, n.inbox, id))
    ensures var all, r, lost := Arriving(n.e, n.inbox, id), |Reached(n.e, id)|, Refused(n, a, id);
            && r + |lost| <= |all| && all[r..r + |lost|] == lost
            && Arriving(Next(n, a).e, Next(n, a).inbox, id) == all[..r] + all[r + |lost|..]
  {
    hide Next, Enabled, NoReplacement, DataOf, Sub, Reached, InHand, Refused;
    var n' := Next(n, a);
    var x := ReceiverMoves(n, a, id);
    var r, c' := Reached(n.e, id), Coming(n'.e, n'.inbox, id);
    ArrivingSplits(n.e, n.inbox, id);
    ArrivingSplits(n'.e, n'.inbox, id);
    Assoc(r, x, c');
    if Refused(n, a, id) == [] && Reached(n'.e, id) == r + x {
      SubRefl(r + x + c');
    } else {
      SubDrop(r, x, c');
    }
  }

  lemma ArrivingSplits(e: Endpoint, inbox: seq<Msg>, id: nat)
    ensures Arriving(e, inbox, id) == Reached(e, id) + Coming(e, inbox, id)
  {
    hide Reached, InHand, DataOf;
    Assoc(Reached(e, id), InHand(e, id), DataOf(inbox, id));
  }

  /** What leaves the front of the chunks coming in either reached the stream or was refused. */
  lemma ReceiverMoves(n: Net, a: Action, id: nat) returns (x: seq<seq<byte>>)
    requires Enabled(n, a) && NoReplacement(n, a)
    ensures Coming(n.e, n.inbox, id) == x + Coming(Next(n, a).e, Next(n, a).inbox, id)
    ensures || (Reached(Next(n, a).e, id) == Reached(n.e, id) + x && Refused(n, a, id) == [])
            || (Reached(Next(n, a).e, id) == Reached(n.e, id) && Refused(n, a, id) == x)
  {
    hide UserNext, ReaderNext, MuxNext, DataOf, Reached;
    if a == Receive {
      x := Refused(n, a, id);
      ReceiveMoves(n, id);
    } else if a == Deliver {
      x := InHand(n.e, id);
      DeliverMoves(n, id);
    } else {
      x := [];
      OthersKeepReached(n, a, id);
      OthersKeepInHand(n, a, id);
      assert Reached(n.e, id) + [] == Reached(n.e, id);
    }
  }

  lemma OthersKeepReached(n: Net, a: Action, id: nat)
    requires Enabled(n, a) && NoReplacement(n, a) && a != Deliver
    ensures Reached(Next(n, a).e, id) == Reached(n.e, id)
  {
    StreamsAfter(n, a);
    hide EndpointNext, UserStream, LoopStream, ReaderEnabled, MuxEnabled;
    if UserAction(a) {
      UserKeepsChunks(n.e, a);
    } else if id in n.e.streams {
      LoopKeepsChunks(n.e, a, id);
    }
  }

  lemma OthersKeepInHand(n: Net, a: Action, id: nat)
    requires Enabled(n, a) && a != Deliver && a != Receive
    ensures InHand(Next(n, a).e, id) == InHand(n.e, id)
  {
    if UserAction(a) {
      hide UserNext;
      UserFields(n.e, a);
    } else if !ReaderAction(a) {
      hide MuxNext;
      MuxFields(n.e, a);
    }
  }

  lemma ReceiveMoves(n: Net, id: nat)
    requires Enabled(n, Receive)
    ensures Coming(n.e, n.inbox, id)
            == Refused(n, Receive, id) + Coming(Next(n, Receive).e, Next(n, Receive).inbox, id)
    ensures Reached(Next(n, Receive).e, id) == Reached(n.e, id)
  {
    hide DataOf, UserNext, MuxNext, Dispatch, Reached, InHand;
    var m, tail := n.inbox[0], n.inbox[1..];
    assert n.inbox == [m] + tail;
    DataOfAppend([m], tail, id);
    DataOfOne(m, id);
    DispatchReached(n.e, m, id);
    assert Next(n, Receive).e == Dispatch(n.e, m);
  }

  lemma DataOfOne(m: Msg, id: nat)
    ensures DataOf([m], id) == DataIn(m, id)
  {
  }

  lemma DispatchReached(e: Endpoint, m: Msg, id: nat)
    requires e.reader == Ready
    ensures InHand(e, id) == [] && Reached(Dispatch(e, m), id) == Reached(e, id)
    ensures InHand(Dispatch(e, m), id) == if id in e.registered then DataIn(m, id) else []
  {
  }

  lemma DeliverMoves(n: Net, id: nat)
    requires Enabled(n, Deliver)
    ensures Coming(n.e, n.inbox, id) == InHand(n.e, id) + Coming(Next(n, Deliver).e, Next(n, Deliver).inbox, id)
    ensures || (Reached(Next(n, Deliver).e, id) == Reached(n.e, id) + InHand(n.e, id) && Refused(n, Deliver, id) == [])
            || (Reached(Next(n, Deliver).e, id) == Reached(n.e, id) && Refused(n, Deliver, id) == InHand(n.e, id))
  {
    hide DataOf, UserNext, MuxNext, DeliverNext, Reached;
    assert Next(n, Deliver).e == DeliverNext(n.e);
    DeliverReached(n.e, id);
    if n.e.reader.id != id { assert Reached(n.e, id) + [] == Reached(n.e, id); }
  }

  lemma DeliverReached(e: Endpoint, id: nat)
    requires e.reader.Delivering? && e.reader.id in e.streams
    ensures InHand(DeliverNext(e), id) == []
    ensures var s := e.streams[e.reader.id];
            Reached(DeliverNext(e), id) ==
              if s.chanCloses == 0 && |s.queue| < 64 then Reached(e, id) + InHand(e, id) else Reached(e, id)
  {
    if id == e.reader.id {
      var s := e.streams[id];
      Assoc(s.delivered, s.queue, [e.reader.chunk]);
    } else {
      assert Reached(e, id) + [] == Reached(e, id);
    }
  }

  // ---------------------------------------------------------------- isolation

  /** What is under way on stream `id` from sender to receiver is part, in order, of what was written on it. */
  ghost predicate Piped(sender: Endpoint, wire: seq<Msg>, receiver: Endpoint, id: nat) {
    Sub(Arriving(receiver, wire, id) + DataOf(sender.writeCh, id), DataOf(sender.enqueued, id))
  }

  lemma PipeQueued<T>(r: seq<T>, c: seq<T>, q: seq<T>, d: seq<T>)
    requires Sub(r + c, d)
    ensures Sub(r + (c + q), d + q)
  {
    SubRefl(q);
    SubConcat(r + c, d, q, q);
    assert (r + c) + q == r + (c + q);
  }

  lemma PipeDropped<T>(r: seq<T>, x: seq<T>, c: seq<T>, d: seq<T>)
    requires Sub(r + (x + c), d)
    ensures Sub(r + c, d)
  {
    SubDrop(r, x, c);
    assert r + x + c == r + (x + c);
    SubTrans(r + c, r + x + c, d);
  }

  lemma SenderKeepsPipe(n: Net, a: Action, receiver: Endpoint, id: nat)
    requires Enabled(n, a) && Piped(n.e, n.outbox, receiver, id)
    ensures Piped(Next(n, a).e, Next(n, a).outbox, receiver, id)
  {
    hide Next, Enabled, DataOf, Sub, Reached, InHand;
    var n', q := Next(n, a), Queued(n.e, a);
    SenderStep(n, a);
    var r := Arriving(receiver, n.outbox, id);
    if a == Transmit || a == WriterStop(true) {
      var m, tail := n.e.writeCh[0], n'.e.writeCh;
      assert n.e.writeCh == [m] + tail && n'.e.enqueued == n.e.enqueued;
      DataOfAppend([m], tail, id);
      if a == Transmit {
        DataOfAppend(n.outbox, [m], id);
        assert Arriving(receiver, n'.outbox, id) == r + DataOf([m], id);
        assert (r + DataOf([m], id)) + DataOf(tail, id) == r + (DataOf([m], id) + DataOf(tail, id));
      } else {
        assert n'.outbox == n.outbox;
        PipeDropped(r, DataOf([m], id), DataOf(tail, id), DataOf(n.e.enqueued, id));
      }
    } else {
      DataOfAppend(n.e.writeCh, q, id);
      DataOfAppend(n.e.enqueued, q, id);
      PipeQueued(r, DataOf(n.e.writeCh, id), DataOf(q, id), DataOf(n.e.enqueued, id));
    }
  }

  lemma ReceiverKeepsPipe(sender: Endpoint, n: Net, a: Action, id: nat)
    requires Enabled(n, a) && NoReplacement(n, a) && Piped(sender, n.inbox, n.e, id)
    ensures Piped(sender, Next(n, a).inbox, Next(n, a).e, id)
  {
    hide Next, Enabled, NoReplacement, Arriving;
    ReceiverStep(n, a, id);
    var x, x' := Arriving(n.e, n.inbox, id), Arriving(Next(n, a).e, Next(n, a).inbox, id);
    var c := DataOf(sender.writeCh, id);
    SubRefl(c);
    SubConcat(x', x, c, c);
    SubTrans(x' + c, x + c, DataOf(sender.enqueued, id));
  }

  /** Every Read returned a prefix of the one chunk it took. */
  ghost predicate ReadsOk(e: Endpoint) {
    forall id :: id in e.streams ==> ReadOk(e.streams[id])
  }

  ghost predicate ReadOk(s: Stream) {
    |s.returned| == |s.delivered| && forall i :: 0 <= i < |s.returned| ==> s.returned[i] <= s.delivered[i]
  }

  lemma StepKeepsReads(n: Net, a: Action)
    requires Enabled(n, a) && ReadsOk(n.e)
    ensures ReadsOk(Next(n, a).e)
  {
    StreamsAfter(n, a);
    hide EndpointNext, Enabled, UserStream, LoopStream, Subject, ReadOk;
    if UserAction(a) {
      UserKeepsChunks(n.e, a);
      FreshReads(UserStream(n.e, a));
    } else {
      forall id | id in n.e.streams
        ensures ReadOk(LoopStream(n.e, a, id))
      {
        LoopKeepsChunks(n.e, a, id);
      }
    }
  }

  lemma FreshReads(s: Stream)
    ensures s.delivered == [] && s.returned == [] ==> ReadOk(s)
  {
  }

  /** No queue outgrows its channel. */
  ghost predicate BoundsOk(e: Endpoint) {
    && |e.writeCh| <= Capacity(e) && |e.opens| <= CHANNEL_CAP
    && forall id :: id in e.streams ==> |e.streams[id].queue| <= STREAM_CAP
  }

  lemma StepKeepsBounds(n: Net, a: Action)
    requires Enabled(n, a) && BoundsOk(n.e)
    ensures BoundsOk(Next(n, a).e)
  {
    StreamsAfter(n, a);
    hide EndpointNext, UserStream, LoopStream, Subject, ReadOk;
    ChannelsKept(n, a);
    hide Enabled;
    if UserAction(a) {
      UserKeepsChunks(n.e, a);
    } else {
      forall id | id in n.e.streams
        ensures |LoopStream(n.e, a, id).queue| <= STREAM_CAP
      {
        LoopKeepsChunks(n.e, a, id);
      }
    }
  }

  lemma ChannelsKept(n: Net, a: Action)
    requires Enabled(n, a) && |n.e.writeCh| <= Capacity(n.e) && |n.e.opens| <= CHANNEL_CAP
    ensures |Next(n, a).e.writeCh| <= Capacity(Next(n, a).e) && |Next(n, a).e.opens| <= CHANNEL_CAP
  {
    SenderStep(n, a);
    OpensAfter(n, a);
    HoldingAfter(n, a);
    hide EndpointNext;
  }

  lemma HoldingAfter(n: Net, a: Action)
    requires Enabled(n, a)
    ensures Next(n, a).e.holding == (a == WriterTake || (n.e.holding && a != Transmit && !a.WriterStop?))
  {
    hide UserNext, ReaderNext, MuxNext, UserEnabled, ReaderEnabled, MuxEnabled;
    if UserAction(a) {
      UserFields(n.e, a);
    } else if ReaderAction(a) {
      ReaderFields(n.e, n.inbox, a);
    } else {
      MuxFields(n.e, a);
    }
  }

  // ---------------------------------------------------------------- what goes out on a stream

  /** An optional Open, then data, then an optional Close. */
  predicate Conversation(log: seq<Msg>, started: bool, ended: bool) {
    var lo := if started then 1 else 0;
    var hi := if ended then |log| - 1 else |log|;
    && lo <= hi
    && (started ==> log[0].Open?)
    && (ended ==> log[hi].Close?)
    && forall i :: lo <= i < hi ==> log[i].Data?
  }

  predicate HasEnded(u: User) {
    u.CloseDeleting? || u.CloseEnding? || u.Closed?
  }

  /** The messages queued for a stream, as far as its user got. */
  ghost predicate LogOk(e: Endpoint, id: nat, opener: bool) {
    var log := ForId(e.enqueued, id);
    if id !in e.streams then log == []
    else if e.streams[id].user == Opening then log == [] && opener
    else Conversation(log, opener, HasEnded(e.streams[id].user))
  }

  ghost predicate LogsOk(e: Endpoint, opener: bool) {
    forall id: nat :: LogOk(e, id, opener)
  }

  /** The opener never accepts, the other side never opens. */
  predicate RoleOk(a: Action, opener: bool) {
    if opener then !a.AcceptStore? else a != OpenAlloc
  }

  lemma StepKeepsLogs(n: Net, a: Action, opener: bool)
    requires Enabled(n, a) && NoReplacement(n, a) && RoleOk(a, opener) && LogsOk(n.e, opener)
    ensures LogsOk(Next(n, a).e, opener)
  {
    forall id: nat
      ensures LogOk(Next(n, a).e, id, opener)
    {
      assert LogOk(n.e, id, opener);
      StepKeepsLog(n, a, opener, id);
    }
  }

  lemma StepKeepsLog(n: Net, a: Action, opener: bool, id: nat)
    requires Enabled(n, a) && NoReplacement(n, a) && RoleOk(a, opener) && LogOk(n.e, id, opener)
    ensures LogOk(Next(n, a).e, id, opener)
  {
    var e, q := n.e, Queued(n.e, a);
    SenderStep(n, a);
    StreamsAfter(n, a);
    ForIdAppend(e.enqueued, q, id);
    hide EndpointNext, Queued, ForId, Conversation, LoopStream, UserStream, ReadOk;
    var log := ForId(e.enqueued, id);
    assert log + [] == log;
    if UserAction(a) {
      NewIsNew(n, a);
      hide NoReplacement, Subject, Enabled;
      QueuedByUser(e, a, id);
      if Subject(e, a) == id {
        UserKeepsLog(e, a, opener);
      }
    } else {
      QueuedByLoop(e, a, id);
      if id in e.streams { LoopKeepsChunks(e, a, id); }
    }
  }

  lemma NewIsNew(n: Net, a: Action)
    requires Enabled(n, a) && NoReplacement(n, a) && UserAction(a)
    ensures UserEnabled(n.e, a) && (Creates(a) ==> Subject(n.e, a) !in n.e.streams)
  {
  }

  /** The conversation of the stream a user acts on. */
  lemma UserKeepsLog(e: Endpoint, a: Action, opener: bool)
    requires UserAction(a) && UserEnabled(e, a) && RoleOk(a, opener) && LogOk(e, Subject(e, a), opener)
    requires Creates(a) ==> Subject(e, a) !in e.streams
    ensures var log, u := ForId(e.enqueued, Subject(e, a)) + Queued(e, a), UserStream(e, a).user;
            if u == Opening then log == [] && opener else Conversation(log, opener, HasEnded(u))
  {
    hide ForId, Conversation;
    var log, q := ForId(e.enqueued, Subject(e, a)), Queued(e, a);
    assert log + [] == log;
    ConversationStart(log, opener);
    if q != [] { ConversationGrows(log, q[0], opener); }
  }

  /** A user queues messages of its own stream, a loop of none. */
  lemma QueuedByUser(e: Endpoint, a: Action, id: nat)
    requires UserAction(a) && UserEnabled(e, a)
    ensures ForId(Queued(e, a), id) == if Subject(e, a) == id then Queued(e, a) else []
  {
  }

  lemma QueuedByLoop(e: Endpoint, a: Action, id: nat)
    requires !UserAction(a)
    ensures ForId(Queued(e, a), id) == []
  {
  }

  lemma ConversationStart(log: seq<Msg>, opener: bool)
    ensures log == [] && !opener ==> Conversation(log, opener, false)
  {
  }

  lemma ConversationGrows(log: seq<Msg>, m: Msg, opener: bool)
    ensures log == [] && m.Open? && opener ==> Conversation(log + [m], opener, false)
    ensures Conversation(log, opener, false) && m.Data? ==> Conversation(log + [m], opener, false)
    ensures Conversation(log, opener, false) && m.Close? ==> Conversation(log + [m], opener, true)
  {
  }

  /** What reached the connection is a prefix of what was queued. */
  ghost predicate SentOk(e: Endpoint) {
    e.transmitted <= e.enqueued && (!e.writerStopped ==> e.transmitted + e.writeCh == e.enqueued)
  }

  lemma StepKeepsSent(n: Net, a: Action)
    requires Enabled(n, a) && SentOk(n.e)
    ensures SentOk(Next(n, a).e)
  {
    hide UserNext, ReaderNext, MuxNext, UserEnabled, ReaderEnabled, Queued;
    var e := n.e;
    if UserAction(a) {
      UserFields(e, a);
      QueueKeepsSent(e, Next(n, a).e, Queued(e, a));
    } else if ReaderAction(a) {
      ReaderFields(e, n.inbox, a);
      QueueKeepsSent(e, Next(n, a).e, Queued(e, a));
    } else {
      MuxFields(e, a);
      if a == Transmit {
        TransmitKeepsSent(e, Next(n, a).e);
      }
    }
  }

  lemma QueueKeepsSent(e: Endpoint, e': Endpoint, q: seq<Msg>)
    requires SentOk(e) && e'.transmitted == e.transmitted && e'.writerStopped == e.writerStopped
    requires e'.enqueued == e.enqueued + q && e'.writeCh == e.writeCh + q
    ensures SentOk(e')
  {
    Assoc(e.transmitted, e.writeCh, q);
  }

  lemma TransmitKeepsSent(e: Endpoint, e': Endpoint)
    requires SentOk(e) && !e.writerStopped && e.writeCh != []
    requires e'.transmitted == e.transmitted + [e.writeCh[0]] && e'.writeCh == e.writeCh[1..]
    requires e'.enqueued == e.enqueued && e'.writerStopped == e.writerStopped
    ensures SentOk(e')
  {
    assert e.writeCh == [e.writeCh[0]] + e.writeCh[1..];
    Assoc(e.transmitted, [e.writeCh[0]], e.writeCh[1..]);
  }

  // ---------------------------------------------------------------- each stream is accepted at most once

  /** Open frames an endpoint has received and not yet made streams of, oldest first. */
  function Waiting(e: Endpoint): seq<nat> {
    e.accepting + e.opens
  }

  /** Open frames on their way from A to AcceptStream's stores, oldest first. */
  function OpensUnderWay(s: System): seq<nat> {
    Waiting(s.b) + OpenIds(s.toB) + OpenIds(s.a.writeCh)
  }

  predicate Sent(e: Endpoint, id: nat) {
    id in e.streams && e.streams[id].user != Opening
  }

  ghost predicate OpensOk(s: System) {
    && Distinct(OpensUnderWay(s))
    && (forall id :: id in OpensUnderWay(s) ==> id !in s.b.streams && Sent(s.a, id))
    && (forall id :: id in s.b.streams ==> Sent(s.a, id) && s.b.streams[id].user != Opening)
    && (forall id :: id in s.a.streams ==> id <= s.a.nextID)
    && Waiting(s.a) == [] && OpenIds(s.toA) == [] && OpenIds(s.b.writeCh) == []
  }

  lemma OpensMeanNoReplacement(s: System, st: Step)
    requires OpensOk(s) && StepEnabled(s, st)
    ensures NoReplacement(if st.AtA? then ViewA(s) else ViewB(s), st.act)
    ensures RoleOk(st.act, st.AtA?)
  {
    if st.AtB? && st.act.AcceptStore? {
      assert s.b.accepting[st.act.i] == OpensUnderWay(s)[st.act.i];
    }
  }

  lemma DistinctDrop(a: seq<nat>, x: seq<nat>, b: seq<nat>)
    requires Distinct(a + x + b)
    ensures Distinct(a + b)
  {
    var s, t := a + x + b, a + b;
    forall i, j | 0 <= i < j < |t|
      ensures t[i] != t[j]
    {
      var i', j' := if i < |a| then i else i + |x|, if j < |a| then j else j + |x|;
      assert s[i'] == t[i] && s[j'] == t[j];
    }
  }

  lemma StepAtAKeepsOpens(s: System, act: Action)
    requires OpensOk(s) && StepEnabled(s, AtA(act))
    ensures OpensOk(StepNext(s, AtA(act)))
  {
    hide OpenIds, Distinct, OpensUnderWay, EndpointNext, Enabled, Waiting;
    var n := ViewA(s);
    AOutgoing(s, act);
    OpeningsKept(n, act);
    if act == Receive {
      AReceives(s);
    }
    if act.OpenSend? {
      AOpening(s, act);
      DistinctSnoc(OpensUnderWay(s), act.id);
    }
  }

  lemma AOpening(s: System, act: Action)
    requires StepEnabled(s, AtA(act)) && act.OpenSend?
    ensures UserAt(s.a, act.id, Opening)
  {
  }

  /** A receives no Open, so nothing is offered to its AcceptStream. */
  lemma AReceives(s: System)
    requires StepEnabled(s, AtA(Receive)) && Waiting(s.a) == [] && OpenIds(s.toA) == []
    ensures var s' := StepNext(s, AtA(Receive));
            Waiting(s'.a) == [] && OpenIds(s'.toA) == []
  {
    hide OpenIds, EndpointNext, Waiting;
    OpenIdsHead(s.toA);
    WaitingAfter(ViewA(s), Receive);
  }

  /** What A does to the Open frames under way: OpenStream adds its own, the write loop may drop one. */
  lemma AOutgoing(s: System, act: Action)
    requires Distinct(OpensUnderWay(s)) && StepEnabled(s, AtA(act))
    ensures var u, u' := OpensUnderWay(s), OpensUnderWay(StepNext(s, AtA(act)));
            if act.OpenSend? then u' == u + [act.id]
            else Distinct(u') && forall id :: id in u' ==> id in u
  {
    hide OpenIds, Distinct, Queued, Waiting;
    var s', q := StepNext(s, AtA(act)), Queued(s.a, act);
    SenderStep(ViewA(s), act);
    hide EndpointNext, Enabled;
    OpenIdsQueued(s.a, act);
    var p, w := Waiting(s.b) + OpenIds(s.toB), OpenIds(s.a.writeCh);
    if act == Transmit || act == WriterStop(true) {
      var m, tail := s.a.writeCh[0], s'.a.writeCh;
      assert s.a.writeCh == [m] + tail;
      OpenIdsAppend([m], tail);
      if act == Transmit {
        OpenIdsAppend(s.toB, [m]);
        assert OpensUnderWay(s') == OpensUnderWay(s);
      } else {
        assert OpensUnderWay(s) == p + OpenIds([m]) + OpenIds(tail);
        DistinctDrop(p, OpenIds([m]), OpenIds(tail));
      }
    } else {
      OpenIdsAppend(s.a.writeCh, q);
      Assoc(p, w, OpenIds(q));
      assert OpensUnderWay(s) + [] == OpensUnderWay(s);
    }
  }

  /** No action of the opener takes a stream back to Opening, and only OpenAlloc adds one. */
  lemma OpeningsKept(n: Net, a: Action)
    requires Enabled(n, a) && Waiting(n.e) == [] && forall id :: id in n.e.streams ==> id <= n.e.nextID
    ensures var e' := Next(n, a).e;
            && (forall id :: Sent(n.e, id) ==> Sent(e', id))
            && (a.OpenSend? ==> Sent(e', a.id))
            && (forall id :: id in e'.streams ==> id <= e'.nextID)
            && (a != Receive ==> Waiting(e') == [])
  {
    StreamsAfter(n, a);
    OpensAfter(n, a);
    WaitingAfter(n, a);
    hide EndpointNext, UserStream, LoopStream, ReaderEnabled, MuxEnabled, ReadOk;
    if UserAction(a) {
      UserPlace(n.e, a);
    } else {
      forall id | id in n.e.streams
        ensures LoopStream(n.e, a, id).user == n.e.streams[id].user
      {
        LoopKeepsChunks(n.e, a, id);
      }
    }
  }

  /** Only OpenAlloc puts a stream's user at Opening. */
  lemma UserPlace(e: Endpoint, a: Action)
    requires UserAction(a) && UserEnabled(e, a)
    ensures UserStream(e, a).user == Opening ==>
              a == OpenAlloc || (a.Read? && Subject(e, a) in e.streams && e.streams[Subject(e, a)].user == Opening)
    ensures a == OpenAlloc ==> UserStream(e, a).user == Opening
    ensures !Creates(a) ==> Subject(e, a) in e.streams
    ensures a.AcceptStore? ==> a.i < |e.accepting| && Subject(e, a) == e.accepting[a.i]
  {
  }

  lemma OpensAfter(n: Net, a: Action)
    requires Enabled(n, a)
    ensures Next(n, a).e.nextID == if a == OpenAlloc then n.e.nextID + 1 else n.e.nextID
    ensures a == AcceptTake ==> n.e.opens != []
    ensures a.AcceptStore? ==> a.i < |n.e.accepting|
    ensures Next(n, a).e.opens ==
            if a == AcceptTake then n.e.opens[1..]
            else if a == Receive && n.inbox[0].Open? && |n.e.opens| < CHANNEL_CAP then n.e.opens + [n.inbox[0].id]
            else n.e.opens
    ensures Next(n, a).e.accepting ==
            if a == AcceptTake then n.e.accepting + [n.e.opens[0]]
            else if a.AcceptStore? then Without(n.e.accepting, a.i)
            else n.e.accepting
  {
    hide UserNext, ReaderNext, MuxNext;
    if UserAction(a) {
      UserFields(n.e, a);
    } else if ReaderAction(a) {
      ReaderFields(n.e, n.inbox, a);
    } else {
      MuxFields(n.e, a);
    }
  }

  /** A store takes one of the waiting Opens, the read loop adds one or drops it, and a take only moves one on. */
  lemma WaitingAfter(n: Net, a: Action)
    requires Enabled(n, a)
    ensures a.AcceptStore? ==> a.i < |n.e.accepting|
    ensures Waiting(Next(n, a).e) ==
            if a.AcceptStore? then Without(Waiting(n.e), a.i)
            else if a == Receive && n.inbox[0].Open? && |n.e.opens| < CHANNEL_CAP then Waiting(n.e) + [n.inbox[0].id]
            else Waiting(n.e)
  {
    OpensAfter(n, a);
    hide EndpointNext, UserEnabled, MuxEnabled;
    var p, q := n.e.accepting, n.e.opens;
    if a.AcceptStore? {
      WithoutFront(p, q, a.i);
    } else if a == AcceptTake {
      assert q == [q[0]] + q[1..];
      Assoc(p, [q[0]], q[1..]);
    } else if a == Receive && n.inbox[0].Open? {
      Assoc(p, q, [n.inbox[0].id]);
    }
  }

  lemma WithoutFront(p: seq<nat>, q: seq<nat>, i: nat)
    requires i < |p|
    ensures Without(p + q, i) == Without(p, i) + q
  {
  }

  lemma OpenIdsHead(ms: seq<Msg>)
    requires ms != [] && OpenIds(ms) == []
    ensures !ms[0].Open? && OpenIds(ms[1..]) == []
  {
  }

  lemma OpenIdsQueued(e: Endpoint, a: Action)
    ensures OpenIds(Queued(e, a)) == if a.OpenSend? then [a.id] else []
  {
  }

  lemma DistinctSnoc(a: seq<nat>, x: nat)
    requires Distinct(a) && x !in a
    ensures Distinct(a + [x])
  {
  }

  lemma DistinctWithout(a: seq<nat>, i: nat)
    requires Distinct(a) && i < |a|
    ensures Distinct(Without(a, i)) && a[i] !in Without(a, i)
    ensures forall x :: x in Without(a, i) ==> x in a
  {
    assert a == a[..i] + [a[i]] + a[i + 1..];
    DistinctDrop(a[..i], [a[i]], a[i + 1..]);
  }

  lemma StepAtBKeepsOpens(s: System, act: Action)
    requires OpensOk(s) && StepEnabled(s, AtB(act))
    ensures OpensOk(StepNext(s, AtB(act)))
  {
    hide OpenIds, Distinct, OpensUnderWay, EndpointNext, Enabled, Waiting, Without;
    BOutgoing(s, act);
    BIncoming(s, act);
    BStreams(s, act);
    if act.AcceptStore? {
      DistinctWithout(OpensUnderWay(s), act.i);
    }
  }

  /** B gains a stream only from AcceptStream, and never one that is still opening. */
  lemma BStreams(s: System, act: Action)
    requires StepEnabled(s, AtB(act))
    requires forall id :: id in s.b.streams ==> s.b.streams[id].user != Opening
    ensures var b' := StepNext(s, AtB(act)).b;
            && (act.AcceptStore? ==> act.i < |s.b.accepting|)
            && b'.streams.Keys == s.b.streams.Keys + (if act.AcceptStore? then {s.b.accepting[act.i]} else {})
            && forall id :: id in b'.streams ==> b'.streams[id].user != Opening
  {
    hide EndpointNext, Enabled;
    if UserAction(act) {
      AccepterActs(ViewB(s), act);
    } else {
      AccepterLoops(ViewB(s), act);
    }
  }

  lemma AccepterActs(n: Net, a: Action)
    requires Enabled(n, a) && UserAction(a) && a != OpenAlloc
    requires forall id :: id in n.e.streams ==> n.e.streams[id].user != Opening
    ensures var e' := Next(n, a).e;
            && (a.AcceptStore? ==> a.i < |n.e.accepting|)
            && e'.streams.Keys == n.e.streams.Keys + (if a.AcceptStore? then {n.e.accepting[a.i]} else {})
            && forall id :: id in e'.streams ==> e'.streams[id].user != Opening
  {
    StreamsAfter(n, a);
    hide EndpointNext, UserStream, UserEnabled, ReadOk, Subject;
    UserPlace(n.e, a);
  }

  lemma AccepterLoops(n: Net, a: Action)
    requires Enabled(n, a) && !UserAction(a)
    requires forall id :: id in n.e.streams ==> n.e.streams[id].user != Opening
    ensures var e' := Next(n, a).e;
            e'.streams.Keys == n.e.streams.Keys && forall id :: id in e'.streams ==> e'.streams[id].user != Opening
  {
    StreamsAfter(n, a);
    hide EndpointNext, LoopStream, Enabled, ReadOk;
    forall id | id in n.e.streams
      ensures LoopStream(n.e, a, id).user == n.e.streams[id].user
    {
      LoopKeepsChunks(n.e, a, id);
    }
  }

  /** What B does to the Open frames under way: AcceptStream stores one, the read loop may drop one. */
  lemma BIncoming(s: System, act: Action)
    requires Distinct(OpensUnderWay(s)) && StepEnabled(s, AtB(act))
    ensures var u, u' := OpensUnderWay(s), OpensUnderWay(StepNext(s, AtB(act)));
            if act.AcceptStore?
            then act.i < |s.b.accepting| <= |u| && u[act.i] == s.b.accepting[act.i] && u' == Without(u, act.i)
            else Distinct(u') && forall id :: id in u' ==> id in u
  {
    hide OpenIds, Distinct, StepNext, StepEnabled, Waiting;
    BWaiting(s, act);
    BWire(s, act);
    var p, t, w := Waiting(s.b), OpenIds(s.toB), OpenIds(s.a.writeCh);
    if act == Receive {
      assert s.toB == [s.toB[0]] + s.toB[1..];
      OpenIdsOne(s.toB[0]);
      ReceiveOpens(p, s.toB[0], s.toB[1..], w, Waiting(StepNext(s, AtB(act)).b));
    } else if act.AcceptStore? {
      WithoutFront(p, t + w, act.i);
      Assoc(p, t, w);
      Assoc(Without(p, act.i), t, w);
    }
  }

  /** B's steps leave A alone and take from the wire only what the read loop receives. */
  lemma BWire(s: System, act: Action)
    requires StepEnabled(s, AtB(act))
    ensures act == Receive ==> s.toB != []
    ensures var s' := StepNext(s, AtB(act));
            s'.a == s.a && s'.toB == if act == Receive then s.toB[1..] else s.toB
  {
    hide EndpointNext, UserEnabled, MuxEnabled;
  }

  /** The read loop takes one message off the wire, and its Open goes to the channel or is dropped. */
  lemma ReceiveOpens(p: seq<nat>, m: Msg, tail: seq<Msg>, w: seq<nat>, p': seq<nat>)
    requires p' == p || p' == p + OpenIds([m])
    requires Distinct(p + OpenIds([m] + tail) + w)
    ensures var u, u' := p + OpenIds([m] + tail) + w, p' + OpenIds(tail) + w;
            Distinct(u') && forall id :: id in u' ==> id in u
  {
    hide OpenIds, Distinct;
    OpenIdsAppend([m], tail);
    var x, r := OpenIds([m]), OpenIds(tail) + w;
    assert p + (x + OpenIds(tail)) + w == p + x + r;
    if p' == p {
      DistinctDrop(p, x, r);
      assert p' + OpenIds(tail) + w == p + r;
    } else {
      assert p' + OpenIds(tail) + w == p + x + r;
    }
  }

  lemma BWaiting(s: System, act: Action)
    requires StepEnabled(s, AtB(act))
    ensures act == Receive ==> s.toB != []
    ensures act.AcceptStore? ==>
              act.i < |s.b.accepting| <= |Waiting(s.b)| && Waiting(s.b)[act.i] == s.b.accepting[act.i]
    ensures Waiting(StepNext(s, AtB(act)).b) ==
            if act.AcceptStore? then Without(Waiting(s.b), act.i)
            else if act == Receive && s.toB[0].Open? && |s.b.opens| < CHANNEL_CAP then Waiting(s.b) + [s.toB[0].id]
            else Waiting(s.b)
  {
    WaitingAfter(ViewB(s), act);
    hide EndpointNext;
  }

  lemma OpenIdsOne(m: Msg)
    ensures OpenIds([m]) == if m.Open? then [m.id] else []
  {
  }

  /** B sends no Open. */
  lemma BOutgoing(s: System, act: Action)
    requires OpensOk(s) && StepEnabled(s, AtB(act))
    ensures var s' := StepNext(s, AtB(act));
            OpenIds(s'.toA) == [] && OpenIds(s'.b.writeCh) == []
  {
    hide OpenIds, Distinct;
    var s', q := StepNext(s, AtB(act)), Queued(s.b, act);
    SenderStep(ViewB(s), act);
    OpenIdsQueued(s.b, act);
    if act == Transmit || act == WriterStop(true) {
      var m, tail := s.b.writeCh[0], s'.b.writeCh;
      OpenIdsHead(s.b.writeCh);
      OpenIdsOne(m);
      OpenIdsAppend(s.toA, [m]);
      assert s.toA + [] == s.toA;
    } else {
      OpenIdsAppend(s.b.writeCh, q);
    }
  }

  // ---------------------------------------------------------------- every run

  ghost predicate LocalOk(e: Endpoint, opener: bool) {
    ClosesOk(e) && ReadsOk(e) && BoundsOk(e) && LogsOk(e, opener) && SentOk(e)
  }

  ghost predicate PipesOk(s: System) {
    forall id: nat :: Piped(s.a, s.toB, s.b, id) && Piped(s.b, s.toA, s.a, id)
  }

  ghost predicate Invariant(s: System) {
    LocalOk(s.a, true) && LocalOk(s.b, false) && OpensOk(s) && PipesOk(s)
  }

  lemma InitialOk()
    ensures Invariant(Initial)
  {
    var e := InitialEndpoint;
    assert e.streams == map[] && e.enqueued == [];
  }

  lemma LocalStep(n: Net, a: Action, opener: bool)
    requires Enabled(n, a) && NoReplacement(n, a) && RoleOk(a, opener) && LocalOk(n.e, opener)
    ensures LocalOk(Next(n, a).e, opener)
  {
    hide Enabled, NoReplacement, RoleOk, ClosesOk, ReadsOk, BoundsOk, LogsOk, SentOk, Next;
    StepKeepsBounds(n, a);
    StepKeepsCloses(n, a);
    StepKeepsReads(n, a);
    StepKeepsLogs(n, a, opener);
    StepKeepsSent(n, a);
  }

  lemma StepKeepsPipes(s: System, st: Step)
    requires StepEnabled(s, st) && OpensOk(s) && PipesOk(s)
    ensures PipesOk(StepNext(s, st))
  {
    hide Enabled, OpensOk, Piped, Next, NoReplacement, RoleOk;
    OpensMeanNoReplacement(s, st);
    forall id: nat
      ensures var s' := StepNext(s, st);
              Piped(s'.a, s'.toB, s'.b, id) && Piped(s'.b, s'.toA, s'.a, id)
    {
      assert Piped(s.a, s.toB, s.b, id) && Piped(s.b, s.toA, s.a, id);
      match st
      case AtA(act) =>
        SenderKeepsPipe(ViewA(s), act, s.b, id);
        ReceiverKeepsPipe(s.b, ViewA(s), act, id);
      case AtB(act) =>
        SenderKeepsPipe(ViewB(s), act, s.a, id);
        ReceiverKeepsPipe(s.a, ViewB(s), act, id);
    }
  }

  lemma StepKeepsInvariant(s: System, st: Step)
    requires Invariant(s) && StepEnabled(s, st)
    ensures Invariant(StepNext(s, st))
  {
    hide Enabled, OpensOk, PipesOk, LocalOk, Next, NoReplacement, RoleOk;
    OpensMeanNoReplacement(s, st);
    StepKeepsPipes(s, st);
    match st
    case AtA(act) =>
      LocalStep(ViewA(s), act, true);
      StepAtAKeepsOpens(s, act);
    case AtB(act) =>
      LocalStep(ViewB(s), act, false);
      StepAtBKeepsOpens(s, act);
  }

  lemma {:induction false} RunKeepsInvariant(s: System, steps: seq<Step>)
    requires Invariant(s) && IsRun(s, steps)
    ensures Invariant(After(s, steps))
    decreases |steps|
  {
    hide Invariant, StepEnabled, StepNext;
    if steps != [] {
      StepKeepsInvariant(s, steps[0]);
      RunKeepsInvariant(StepNext(s, steps[0]), steps[1..]);
    }
  }

  /** What a receiver was given on a stream, against what its peer wrote on the stream with that id. */
  ghost predicate Isolated(receiver: Endpoint, sender: Endpoint) {
    forall id :: id in receiver.streams ==>
      && Sub(receiver.streams[id].delivered, DataOf(sender.enqueued, id))
      && ReadOk(receiver.streams[id])
  }

  /**
   * Isolation. In every run in which one side opens, the chunks delivered on a stream are a subsequence,
   * in order, of the chunks the peer wrote on the stream with the same id, and each Read returned a
   * prefix of one of them, in both directions and despite drops, late accepts and closes.
   */
  lemma MuxIsolation(steps: seq<Step>)
    requires IsRun(Initial, steps)
    ensures var s := After(Initial, steps);
            Isolated(s.b, s.a) && Isolated(s.a, s.b)
  {
    InitialOk();
    RunKeepsInvariant(Initial, steps);
    hide IsRun, After;
    var s := After(Initial, steps);
    PipeMeansIsolated(s.b, s.a, s.toB);
    PipeMeansIsolated(s.a, s.b, s.toA);
  }

  lemma {:induction false} DataOfMember(ms: seq<Msg>, id: nat, chunk: seq<byte>)
    ensures chunk in DataOf(ms, id) <==> Data(id, chunk) in ms
  {
    if ms != [] {
      DataOfMember(ms[1..], id, chunk);
      assert ms == [ms[0]] + ms[1..];
    }
  }

  /** What stream `id` of the receiver was given was written on that id, and no more of it than was written. */
  lemma IsolatedElements(receiver: Endpoint, sender: Endpoint, id: nat, chunk: seq<byte>)
    requires Isolated(receiver, sender) && id in receiver.streams
    ensures chunk in receiver.streams[id].delivered ==> Data(id, chunk) in sender.enqueued
    ensures |receiver.streams[id].delivered| <= |DataOf(sender.enqueued, id)|
  {
    hide Sub, DataOf;
    SubElements(receiver.streams[id].delivered, DataOf(sender.enqueued, id));
    DataOfMember(sender.enqueued, id, chunk);
  }

  /**
   * No chunk from nowhere: in every run, a chunk delivered on a stream of either side is one the peer's user
   * wrote on that very id, and there are never more of them than were written.
   */
  lemma DeliveredWasWritten(steps: seq<Step>, id: nat, chunk: seq<byte>)
    requires IsRun(Initial, steps)
    ensures var s := After(Initial, steps);
            && (id in s.b.streams ==>
                  && (chunk in s.b.streams[id].delivered ==> Data(id, chunk) in s.a.enqueued)
                  && |s.b.streams[id].delivered| <= |DataOf(s.a.enqueued, id)|)
            && (id in s.a.streams ==>
                  && (chunk in s.a.streams[id].delivered ==> Data(id, chunk) in s.b.enqueued)
                  && |s.a.streams[id].delivered| <= |DataOf(s.b.enqueued, id)|)
  {
    hide IsRun, After, Isolated, DataOf;
    MuxIsolation(steps);
    var s := After(Initial, steps);
    if id in s.b.streams { IsolatedElements(s.b, s.a, id, chunk); }
    if id in s.a.streams { IsolatedElements(s.a, s.b, id, chunk); }
  }

  lemma PipeMeansIsolated(receiver: Endpoint, sender: Endpoint, wire: seq<Msg>)
    requires ReadsOk(receiver) && forall id: nat :: Piped(sender, wire, receiver, id)
    ensures Isolated(receiver, sender)
  {
    hide Sub, DataOf;
    forall id | id in receiver.streams
      ensures Sub(receiver.streams[id].delivered, DataOf(sender.enqueued, id)) && ReadOk(receiver.streams[id])
    {
      assert Piped(sender, wire, receiver, id);
      var s := receiver.streams[id];
      FrontOf(s.delivered, s.queue, InHand(receiver, id), DataOf(wire, id),
              DataOf(sender.writeCh, id), DataOf(sender.enqueued, id));
    }
  }

  lemma FrontOf<T>(d: seq<T>, q: seq<T>, h: seq<T>, w: seq<T>, c: seq<T>, all: seq<T>)
    requires Sub((d + q) + h + w + c, all)
    ensures Sub(d, all)
  {
    var x := q + h + w + c;
    SubDrop(d, x, []);
    assert d + [] == d && d + x + [] == (d + q) + h + w + c;
    SubTrans(d, d + x + [], all);
  }

  /** A prefix of Open, Data*, Close. */
  predicate WireOk(log: seq<Msg>) {
    forall i :: 0 <= i < |log| ==> (i == 0 <==> log[i].Open?) && (log[i].Close? ==> i == |log| - 1)
  }

  /**
   * Wire discipline. In every run the opener's messages of each stream are, on the connection, a prefix
   * of Open, Data*, Close; every read channel is closed at most once, however Close, the peer's Close
   * and Mux.Close interleave; and no channel holds more than its capacity.
   */
  lemma MuxDiscipline(steps: seq<Step>, id: nat)
    requires IsRun(Initial, steps)
    ensures var s := After(Initial, steps);
            && WireOk(ForId(s.a.transmitted, id))
            && (id in s.a.streams ==> s.a.streams[id].chanCloses <= 1)
            && (id in s.b.streams ==> s.b.streams[id].chanCloses <= 1)
            && BoundsOk(s.a) && BoundsOk(s.b)
  {
    hide IsRun, After, Invariant;
    InitialOk();
    RunKeepsInvariant(Initial, steps);
    Disciplined(After(Initial, steps), id);
  }

  lemma Disciplined(s: System, id: nat)
    requires Invariant(s)
    ensures WireOk(ForId(s.a.transmitted, id))
    ensures id in s.a.streams ==> s.a.streams[id].chanCloses <= 1
    ensures id in s.b.streams ==> s.b.streams[id].chanCloses <= 1
    ensures BoundsOk(s.a) && BoundsOk(s.b)
  {
    hide OpensOk, PipesOk, ForId, BoundsOk, ReadsOk, Conversation;
    assert LogOk(s.a, id, true);
    assert id in s.a.streams ==> CloseOk(s.a, id);
    assert id in s.b.streams ==> CloseOk(s.b, id);
    var t := s.a.enqueued[|s.a.transmitted|..];
    assert s.a.enqueued == s.a.transmitted + t;
    ForIdAppend(s.a.transmitted, t, id);
    WirePrefix(ForId(s.a.transmitted, id), ForId(t, id));
  }

  lemma WirePrefix(a: seq<Msg>, b: seq<Msg>)
    requires a + b == [] || Conversation(a + b, true, true) || Conversation(a + b, true, false)
    ensures WireOk(a)
  {
    forall i | 0 <= i < |a|
      ensures (i == 0 <==> a[i].Open?) && (a[i].Close? ==> i == |a| - 1)
    {
      assert (a + b)[i] == a[i];
    }
  }

  /** Along every run, a step that stores a stream under an id finds no stream there. */
  lemma NeverReplaced(steps: seq<Step>, st: Step)
    requires IsRun(Initial, steps) && StepEnabled(After(Initial, steps), st)
    ensures var s := After(Initial, steps);
            && (st == AtA(OpenAlloc) ==> s.a.nextID + 1 !in s.a.streams)
            && (st.AtB? && st.act.AcceptStore? ==>
                  st.act.i < |s.b.accepting|
                  && s.b.accepting[st.act.i] !in s.b.streams && s.b.accepting[st.act.i] in s.a.streams)
            && (st.AtA? ==> !st.act.AcceptStore? && st.act != AcceptTake)
  {
    hide IsRun, After, StepEnabled, OpensOk, LocalOk, PipesOk;
    InitialOk();
    RunKeepsInvariant(Initial, steps);
    NotReplacedNow(After(Initial, steps), st);
  }

  lemma NotReplacedNow(s: System, st: Step)
    requires OpensOk(s) && StepEnabled(s, st)
    ensures st == AtA(OpenAlloc) ==> s.a.nextID + 1 !in s.a.streams
    ensures st.AtB? && st.act.AcceptStore? ==>
              && st.act.i < |s.b.accepting|
              && s.b.accepting[st.act.i] !in s.b.streams && s.b.accepting[st.act.i] in s.a.streams
    ensures st.AtA? ==> !st.act.AcceptStore? && st.act != AcceptTake
  {
    hide OpenIds, Distinct;
    if st.AtB? && st.act.AcceptStore? {
      assert OpensUnderWay(s)[st.act.i] == s.b.accepting[st.act.i];
    }
  }

  /** A new endpoint reading from a wire. */
  function NewNet(inbox: seq<Msg>): Net {
    Net(InitialEndpoint, inbox, [])
  }

  /** OpenStream from its first step to its frame in the write channel. */
  lemma OpenStreamQueues(n: Net)
    requires n.e.nextID + 1 < TWO32 && CanQueue(n.e)
    ensures var id := n.e.nextID + 1;
            && Enabled(n, OpenAlloc)
            && Enabled(Next(n, OpenAlloc), OpenSend(id))
            && var n' := Next(Next(n, OpenAlloc), OpenSend(id));
            && n'.e.writeCh == n.e.writeCh + [Open(id)]
            && n'.e.writerStopped == n.e.writerStopped && n'.e.holding == n.e.holding
            && n'.outbox == n.outbox
  {
    hide ReaderNext, MuxNext;
  }

  lemma TransmitsFront(n: Net)
    requires !n.e.writerStopped && !n.e.holding && n.e.writeCh != []
    ensures Enabled(n, WriterTake) && Enabled(Next(n, WriterTake), Transmit)
    ensures Next(Next(n, WriterTake), Transmit).outbox == n.outbox + [n.e.writeCh[0]]
  {
    hide UserNext, ReaderNext;
  }

  /** A new endpoint that opens a stream sends an Open frame with id 1. */
  lemma FirstOpen() returns (sent: seq<Action>)
    ensures Runs(NewNet([]), sent) && Reach(NewNet([]), sent).outbox == [Open(1)]
  {
    hide Runs, Reach, EndpointNext, Enabled;
    var a := NewNet([]);
    OpenStreamQueues(a);
    var a1 := Next(a, OpenAlloc);
    var a2 := Next(a1, OpenSend(1));
    TransmitsFront(a2);
    var a3 := Next(a2, WriterTake);
    NoSteps(Next(a3, Transmit));
    sent := [Transmit] + [];
    OneStep(a3, Transmit, []);
    OneStep(a2, WriterTake, sent);
    sent := [WriterTake] + sent;
    OneStep(a1, OpenSend(1), sent);
    sent := [OpenSend(1)] + sent;
    OneStep(a, OpenAlloc, sent);
    sent := [OpenAlloc] + sent;
  }

  /**
   * Both sides number their streams from 1. If both open, the accepting side finds its own stream under
   * the id of the Open frame and replaces it: from there on the old stream is cut off.
   */
  lemma BothSidesOpening() returns (sent: seq<Action>, met: seq<Action>, n: Net)
    ensures Runs(NewNet([]), sent)
    ensures var b := NewNet(Reach(NewNet([]), sent).outbox);
            Runs(b, met) && n == Reach(b, met)
    ensures Enabled(n, AcceptStore(0)) && !NoReplacement(n, AcceptStore(0))
    ensures 1 in n.e.streams && n.e.streams[1].user == Opening
    ensures Next(n, AcceptStore(0)).e.streams[1].user == Idle
  {
    hide Runs, Reach, EndpointNext, Enabled;
    sent := FirstOpen();
    var b := NewNet([Open(1)]);
    OpenStreamStores(b);
    var b1 := Next(b, OpenAlloc);
    TakenUp(b1);
    var b2 := Next(b1, Receive);
    n := Next(b2, AcceptTake);
    NoSteps(n);
    met := [AcceptTake] + [];
    OneStep(b2, AcceptTake, []);
    OneStep(b1, Receive, met);
    met := [Receive] + met;
    OneStep(b, OpenAlloc, met);
    met := [OpenAlloc] + met;
    Replaces(n);
  }

  lemma OpenStreamStores(n: Net)
    requires n.e.nextID + 1 < TWO32
    ensures Enabled(n, OpenAlloc)
    ensures var e', id := Next(n, OpenAlloc).e, n.e.nextID + 1;
            && id in e'.streams && e'.streams[id].user == Opening && Next(n, OpenAlloc).inbox == n.inbox
            && e'.reader == n.e.reader && e'.opens == n.e.opens && e'.accepting == n.e.accepting
  {
    hide ReaderNext, MuxNext;
  }

  /** A store under the id of a stream that is still opening. */
  lemma Replaces(n: Net)
    requires n.e.accepting == [1] && 1 in n.e.streams && n.e.streams[1].user == Opening
    ensures Enabled(n, AcceptStore(0)) && !NoReplacement(n, AcceptStore(0))
    ensures Next(n, AcceptStore(0)).e.streams[1].user == Idle
  {
    hide ReaderNext, MuxNext;
  }

  /** An Open frame at the front of the wire is received and taken by an AcceptStream. */
  lemma TakenUp(n: Net)
    requires n.e.reader == Ready && n.e.opens == [] && n.e.accepting == [] && n.inbox != [] && n.inbox[0].Open?
    ensures Enabled(n, Receive) && Enabled(Next(n, Receive), AcceptTake)
    ensures var n' := Next(Next(n, Receive), AcceptTake);
            n'.e.accepting == [n.inbox[0].id] && n'.e.streams == n.e.streams
  {
    hide UserNext;
  }

  lemma NoSteps(n: Net)
    ensures Runs(n, []) && Reach(n, []) == n
  {
  }

  lemma OneStep(n: Net, a: Action, acts: seq<Action>)
    requires Enabled(n, a) && Runs(Next(n, a), acts)
    ensures Runs(n, [a] + acts) && Reach(n, [a] + acts) == Reach(Next(n, a), acts)
  {
    hide EndpointNext, Enabled;
    assert ([a] + acts)[1..] == acts;
  }

  predicate Runs(n: Net, acts: seq<Action>)
    decreases |acts|
  {
    acts == [] || (Enabled(n, acts[0]) && Runs(Next(n, acts[0]), acts[1..]))
  }

  function Reach(n: Net, acts: seq<Action>): Net
    requires Runs(n, acts)
    decreases |acts|
  {
    if acts == [] then n else Reach(Next(n, acts[0]), acts[1..])
  }
}
