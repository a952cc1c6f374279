/**
 * A stream of the multiplexer and the connection between its ends, after any run, by the log of the run's
 * steps: what reads returned, when the channel is closed, when the id is registered, which Opens were stored.
 */
module MuxHistory {
  import opened Bytes
  import opened Mux
  import opened MuxSafety
  import opened MuxAccounting

  // ---------------------------------------------------------------- what each step asks for

  /** The room a Read of stream `id` offers. */
  function RoomAt(a: Action, id: nat): seq<nat> {
    if a.Read? && a.id == id then [a.room] else []
  }

  /** Somebody asks for stream `id` to be closed: its user, Mux.Close, or the peer while the id is registered. */
  predicate AsksClose(n: Net, a: Action, id: nat)
    requires Enabled(n, a)
  {
    || a == CloseStart(id) || a == MuxCloseVisit(id)
    || (a == Receive && n.inbox[0] == Close(id) && id in n.e.registered)
  }

  /** The id is taken out of the map, by the stream's own Close or for the peer's. */
  predicate Unregisters(n: Net, a: Action, id: nat)
    requires Enabled(n, a)
  {
    a == CloseDelete(id) || (a == Receive && n.inbox[0] == Close(id) && id in n.e.registered)
  }

  function Rooms(steps: seq<Step>, atA: bool, id: nat): seq<nat> {
    if steps == [] then []
    else (if steps[0].AtA? == atA then RoomAt(steps[0].act, id) else []) + Rooms(steps[1..], atA, id)
  }

  predicate Asked(s: System, steps: seq<Step>, atA: bool, id: nat)
    requires IsRun(s, steps)
    decreases |steps|
  {
    steps != []
    && ((steps[0].AtA? == atA && AsksClose(ViewOf(s, atA), steps[0].act, id))
        || Asked(StepNext(s, steps[0]), steps[1..], atA, id))
  }

  predicate Unregistered(s: System, steps: seq<Step>, atA: bool, id: nat)
    requires IsRun(s, steps)
    decreases |steps|
  {
    steps != []
    && ((steps[0].AtA? == atA && Unregisters(ViewOf(s, atA), steps[0].act, id))
        || Unregistered(StepNext(s, steps[0]), steps[1..], atA, id))
  }

  // ---------------------------------------------------------------- what a stream keeps of it

  /** Read number i took chunk number i and returned as much of it as there was room for. */
  ghost predicate ReadsCut(e: Endpoint, id: nat, rooms: seq<nat>) {
    if id !in e.streams then rooms == []
    else
      var s := e.streams[id];
      && |s.delivered| == |s.returned| == |rooms|
      && forall i :: 0 <= i < |rooms| ==> s.returned[i] == s.delivered[i][..Min(rooms[i], |s.delivered[i]|)]
  }

  /** The flag is won, or the read loop is about to try for it. */
  predicate Flagged(e: Endpoint, id: nat) {
    id in e.streams && (e.streams[id].closer != Nobody || e.reader == ClosingStream(id))
  }

  /** None of the three closers is at work on the stream. */
  predicate Settled(e: Endpoint, id: nat)
    requires id in e.streams
  {
    var u := e.streams[id].user;
    && !u.CloseSending? && !u.CloseDeleting? && !u.CloseEnding?
    && e.reader != ClosingStream(id) && e.reader != ClosingChan(id)
    && !(e.closing.RangingChan? && e.closing.id == id)
  }

  ghost predicate Recorded(e: Endpoint, id: nat, rooms: seq<nat>, asked: bool, unregistered: bool) {
    && ReadsCut(e, id, rooms)
    && (Flagged(e, id) <==> asked)
    && (unregistered ==> id in e.streams)
    && (id in e.registered <==> id in e.streams && !unregistered)
  }

  lemma StepCuts(n: Net, a: Action, id: nat, rooms: seq<nat>)
    requires Enabled(n, a) && NoReplacement(n, a) && ReadsCut(n.e, id, rooms)
    ensures ReadsCut(Next(n, a).e, id, rooms + RoomAt(a, id))
  {
    StreamsAfter(n, a);
    hide Next, ReaderEnabled, MuxEnabled;
    assert rooms + [] == rooms;
    if UserAction(a) {
      NewIsNew(n, a);
      if Subject(n.e, a) == id {
        hide NoReplacement;
        UserCuts(n.e, a, rooms);
      }
    } else if id in n.e.streams {
      LoopCuts(n.e, a, id);
    }
  }

  lemma UserCuts(e: Endpoint, a: Action, rooms: seq<nat>)
    requires UserAction(a) && UserEnabled(e, a) && (Creates(a) ==> Subject(e, a) !in e.streams)
    requires ReadsCut(e, Subject(e, a), rooms)
    ensures var s, rooms' := UserStream(e, a), rooms + RoomAt(a, Subject(e, a));
            && |s.delivered| == |s.returned| == |rooms'|
            && forall i :: 0 <= i < |rooms'| ==> s.returned[i] == s.delivered[i][..Min(rooms'[i], |s.delivered[i]|)]
  {
  }

  lemma LoopCuts(e: Endpoint, a: Action, id: nat)
    requires !UserAction(a) && id in e.streams
    ensures var s, s' := e.streams[id], LoopStream(e, a, id);
            s'.delivered == s.delivered && s'.returned == s.returned
  {
  }

  // ---------------------------------------------------------------- the flag

  lemma StepFlags(n: Net, a: Action, id: nat)
    requires Enabled(n, a) && NoReplacement(n, a) && ClosesOk(n.e)
    ensures Flagged(Next(n, a).e, id) <==> Flagged(n.e, id) || AsksClose(n, a, id)
  {
    hide CloseOk, Flagged;
    if UserAction(a) {
      NewIsNew(n, a);
      UserFlags(n.e, a, id);
      hide UserNext, UserEnabled;
    } else if ReaderAction(a) {
      ReaderFlags(n.e, n.inbox, a, id);
      hide ReaderNext;
    } else {
      MuxFlags(n.e, a, id);
      hide MuxNext, MuxEnabled;
    }
  }

  lemma UserFlags(e: Endpoint, a: Action, id: nat)
    requires UserAction(a) && UserEnabled(e, a) && (Creates(a) ==> Subject(e, a) !in e.streams)
    requires e.reader.ClosingStream? ==> e.reader.id in e.streams
    ensures Flagged(UserNext(e, a), id) <==> Flagged(e, id) || a == CloseStart(id)
  {
    UserStreams(e, a);
    UserFields(e, a);
    hide UserNext;
  }

  lemma MuxFlags(e: Endpoint, a: Action, id: nat)
    requires MuxAction(a) && MuxEnabled(e, a)
    ensures Flagged(MuxNext(e, a), id) <==> Flagged(e, id) || a == MuxCloseVisit(id)
  {
    MuxStreams(e, a);
    MuxFields(e, a);
    hide MuxNext;
  }

  lemma ReaderFlags(e: Endpoint, inbox: seq<Msg>, a: Action, id: nat)
    requires ReaderAction(a) && ReaderEnabled(e, inbox, a) && e.registered <= e.streams.Keys
    ensures Flagged(ReaderNext(e, inbox, a), id)
            <==> Flagged(e, id) || (a == Receive && inbox[0] == Close(id) && id in e.registered)
  {
  }

  // ---------------------------------------------------------------- the map

  lemma StepRegisters(n: Net, a: Action, id: nat)
    requires Enabled(n, a) && NoReplacement(n, a) && ClosesOk(n.e)
    ensures id in Next(n, a).e.registered
            <==> (id in n.e.registered || (id in Next(n, a).e.streams && id !in n.e.streams)) && !Unregisters(n, a, id)
    ensures Unregisters(n, a, id) ==> id in n.e.streams
    ensures id in n.e.streams ==> id in Next(n, a).e.streams
  {
    hide CloseOk;
    if UserAction(a) {
      UserRegisters(n.e, a);
    } else if ReaderAction(a) {
      ReaderRegisters(n.e, n.inbox, a, id);
      ReaderStreams(n.e, n.inbox, a);
      hide ReaderNext;
    } else {
      MuxStreams(n.e, a);
      MuxRegisters(n.e, a);
      hide MuxNext;
    }
  }

  lemma UserRegisters(e: Endpoint, a: Action)
    requires UserAction(a) && UserEnabled(e, a)
    ensures UserNext(e, a).registered ==
            if Creates(a) then e.registered + {Subject(e, a)}
            else if a.CloseDelete? then e.registered - {a.id} else e.registered
  {
  }

  lemma ReaderRegisters(e: Endpoint, inbox: seq<Msg>, a: Action, id: nat)
    requires ReaderAction(a) && ReaderEnabled(e, inbox, a)
    ensures id in ReaderNext(e, inbox, a).registered
            <==> id in e.registered && !(a == Receive && inbox[0] == Close(id) && id in e.registered)
  {
  }

  lemma MuxRegisters(e: Endpoint, a: Action)
    requires MuxAction(a) && MuxEnabled(e, a)
    ensures MuxNext(e, a).registered == e.registered
  {
  }

  // ---------------------------------------------------------------- every run, stream by stream

  lemma StepRecords(s: System, st: Step, atA: bool, id: nat, rooms: seq<nat>, asked: bool, gone: bool)
    requires Invariant(s) && StepEnabled(s, st) && Recorded(ViewOf(s, atA).e, id, rooms, asked, gone)
    ensures Enabled(ViewOf(s, st.AtA?), st.act)
    ensures var n := ViewOf(s, atA);
            if st.AtA? == atA
            then Recorded(ViewOf(StepNext(s, st), atA).e, id, rooms + RoomAt(st.act, id),
                          asked || AsksClose(n, st.act, id), gone || Unregisters(n, st.act, id))
            else ViewOf(StepNext(s, st), atA).e == n.e
  {
    EnabledThere(s, st);
    if st.AtA? == atA {
      var n := ViewOf(s, atA);
      assert ClosesOk(n.e);
      OpensMeanNoReplacement(s, st);
      hide Invariant, Enabled, NoReplacement, RoleOk, Next, AsksClose, Unregisters, Flagged, ReadsCut, ClosesOk;
      StepCuts(n, st.act, id, rooms);
      StepFlags(n, st.act, id);
      StepRegisters(n, st.act, id);
    } else {
      hide Invariant, Enabled, Next;
    }
  }

  lemma {:induction false} RunRecords(s: System, steps: seq<Step>, atA: bool, id: nat,
                                      rooms: seq<nat>, asked: bool, gone: bool)
    requires Invariant(s) && IsRun(s, steps) && Recorded(ViewOf(s, atA).e, id, rooms, asked, gone)
    ensures Recorded(ViewOf(After(s, steps), atA).e, id, rooms + Rooms(steps, atA, id),
                     asked || Asked(s, steps, atA, id), gone || Unregistered(s, steps, atA, id))
    decreases |steps|
  {
    hide Invariant, StepEnabled, StepNext, Recorded, ViewOf, Enabled, AsksClose, Unregisters, RoomAt;
    if steps == [] {
      assert rooms + [] == rooms;
    } else {
      var st, s', rest := steps[0], StepNext(s, steps[0]), steps[1..];
      StepKeepsInvariant(s, st);
      StepRecords(s, st, atA, id, rooms, asked, gone);
      if st.AtA? == atA {
        var n, x := ViewOf(s, atA), RoomAt(st.act, id);
        RunRecords(s', rest, atA, id, rooms + x,
                   asked || AsksClose(n, st.act, id), gone || Unregisters(n, st.act, id));
        Assoc(rooms, x, Rooms(rest, atA, id));
      } else {
        RunRecords(s', rest, atA, id, rooms, asked, gone);
        assert [] + Rooms(rest, atA, id) == Rooms(rest, atA, id);
      }
    }
  }

  /**
   * A stream in every run, by the log. Its i-th Read took its i-th chunk and returned as much of it as there was
   * room for. Its id is registered exactly as long as neither its own Close nor the peer's took it out. Its
   * channel, when no closer is at work on it, was closed exactly once if anybody asked, and never otherwise.
   */
  lemma StreamHistory(steps: seq<Step>, atA: bool, id: nat)
    requires IsRun(Initial, steps)
    ensures var e, rooms := ViewOf(After(Initial, steps), atA).e, Rooms(steps, atA, id);
            if id in e.streams then
              && ReadsCut(e, id, rooms)
              && (id in e.registered <==> !Unregistered(Initial, steps, atA, id))
              && (Settled(e, id) ==>
                    e.streams[id].chanCloses == if Asked(Initial, steps, atA, id) then 1 else 0)
            else
              rooms == [] && id !in e.registered && !Asked(Initial, steps, atA, id)
  {
    hide IsRun, After, Rooms, Asked, Unregistered, Invariant, ReadsCut, Settled;
    InitialOk();
    NothingRecorded(atA, id);
    RunKeepsInvariant(Initial, steps);
    RunRecords(Initial, steps, atA, id, [], false, false);
    assert [] + Rooms(steps, atA, id) == Rooms(steps, atA, id);
    NothingRead(ViewOf(After(Initial, steps), atA).e, id, Rooms(steps, atA, id));
    SettledCloses(After(Initial, steps), atA, id);
  }

  lemma NothingRecorded(atA: bool, id: nat)
    ensures Recorded(ViewOf(Initial, atA).e, id, [], false, false)
  {
  }

  lemma NothingRead(e: Endpoint, id: nat, rooms: seq<nat>)
    requires ReadsCut(e, id, rooms)
    ensures id !in e.streams ==> rooms == []
  {
  }

  lemma SettledCloses(s: System, atA: bool, id: nat)
    requires Invariant(s)
    ensures var e := ViewOf(s, atA).e;
            id in e.streams && Settled(e, id) ==> e.streams[id].chanCloses == if Flagged(e, id) then 1 else 0
  {
    var e := ViewOf(s, atA).e;
    assert ClosesOk(e);
    if id in e.streams { assert CloseOk(e, id); }
  }

  // ---------------------------------------------------------------- Mux.Close

  predicate IsFlagged(e: Endpoint, id: nat) {
    id in e.streams && e.streams[id].closer != Nobody
  }

  /** What Mux.Close has visited is flagged, and when it has ended that is all it had to visit. */
  ghost predicate RangeOk(e: Endpoint) {
    match e.closing
    case NotClosing => true
    case Ended(ended) => forall id :: id in ended ==> IsFlagged(e, id)
    case _ => forall id :: id in e.closing.visited ==> IsFlagged(e, id)
  }

  lemma StepKeepsRange(n: Net, a: Action)
    requires Enabled(n, a) && NoReplacement(n, a) && RangeOk(n.e)
    ensures RangeOk(Next(n, a).e)
  {
    forall id | IsFlagged(n.e, id)
      ensures IsFlagged(Next(n, a).e, id)
    {
      FlagStays(n, a, id);
    }
    hide NoReplacement;
    if UserAction(a) {
      UserFields(n.e, a);
      hide UserNext, IsFlagged;
    } else if ReaderAction(a) {
      ReaderFields(n.e, n.inbox, a);
      hide ReaderNext, IsFlagged;
    }
  }

  lemma FlagStays(n: Net, a: Action, id: nat)
    requires Enabled(n, a) && NoReplacement(n, a) && IsFlagged(n.e, id)
    ensures IsFlagged(Next(n, a).e, id)
  {
    StreamsAfter(n, a);
    hide Next, ReaderEnabled, MuxEnabled;
    if UserAction(a) { NewIsNew(n, a); }
  }

  lemma {:induction false} RunKeepsRange(s: System, steps: seq<Step>, atA: bool)
    requires Invariant(s) && IsRun(s, steps) && RangeOk(ViewOf(s, atA).e)
    ensures RangeOk(ViewOf(After(s, steps), atA).e)
    decreases |steps|
  {
    if steps != [] {
      var st := steps[0];
      StepKeepsInvariant(s, st);
      EnabledThere(s, st);
      OpensMeanNoReplacement(s, st);
      hide Invariant, RangeOk, Next, Enabled, NoReplacement, RoleOk;
      if st.AtA? == atA { StepKeepsRange(ViewOf(s, atA), st.act); }
      RunKeepsRange(StepNext(s, st), steps[1..], atA);
    }
  }

  /**
   * Mux.Close closes every stream: of those registered from its beginning to its end each is flagged when it has
   * ended, and its channel is closed, exactly once, unless the user or the read loop is still at it.
   */
  lemma MuxCloseClosesAll(steps: seq<Step>, atA: bool, id: nat)
    requires IsRun(Initial, steps)
    ensures var e := ViewOf(After(Initial, steps), atA).e;
            e.closing.Ended? && id in e.closing.ended ==>
              id in e.streams && e.streams[id].closer != Nobody && (Settled(e, id) ==> e.streams[id].chanCloses == 1)
  {
    hide IsRun, After, Invariant, Settled;
    InitialOk();
    RunKeepsInvariant(Initial, steps);
    RunKeepsRange(Initial, steps, atA);
    SettledCloses(After(Initial, steps), atA, id);
  }

  // ---------------------------------------------------------------- every Open

  /** How often an id occurs. */
  function Times(q: seq<nat>, id: nat): nat {
    multiset(q)[id]
  }

  lemma TimesAppend(a: seq<nat>, b: seq<nat>, id: nat)
    ensures Times(a + b, id) == Times(a, id) + Times(b, id)
  {
  }

  function If(b: bool): nat {
    if b then 1 else 0
  }

  /** An Open of stream `id` goes down with A's write loop, or is received by B with 256 others waiting. */
  predicate LosesOpen(s: System, st: Step, id: nat)
    requires StepEnabled(s, st)
  {
    || (st == AtA(WriterStop(true)) && s.a.writeCh[0] == Open(id))
    || (st == AtB(Receive) && s.toB[0] == Open(id) && |s.b.opens| >= 256)
  }

  /** AcceptStream makes a stream of an Open. */
  predicate Stores(s: System, st: Step, id: nat)
    requires StepEnabled(s, st)
  {
    st.AtB? && st.act.AcceptStore? && s.b.accepting[st.act.i] == id
  }

  function Opened(steps: seq<Step>, id: nat): nat {
    if steps == [] then 0 else If(steps[0] == AtA(OpenSend(id))) + Opened(steps[1..], id)
  }

  function LostOpens(s: System, steps: seq<Step>, id: nat): nat
    requires IsRun(s, steps)
    decreases |steps|
  {
    if steps == [] then 0
    else If(LosesOpen(s, steps[0], id)) + LostOpens(StepNext(s, steps[0]), steps[1..], id)
  }

  function Stored(s: System, steps: seq<Step>, id: nat): nat
    requires IsRun(s, steps)
    decreases |steps|
  {
    if steps == [] then 0 else If(Stores(s, steps[0], id)) + Stored(StepNext(s, steps[0]), steps[1..], id)
  }

  lemma UnderWayTimes(s: System, id: nat)
    ensures Times(OpensUnderWay(s), id)
            == Times(Waiting(s.b), id) + Times(OpenIds(s.toB), id) + Times(OpenIds(s.a.writeCh), id)
  {
    hide Waiting, OpenIds, Times;
    TimesAppend(Waiting(s.b) + OpenIds(s.toB), OpenIds(s.a.writeCh), id);
    TimesAppend(Waiting(s.b), OpenIds(s.toB), id);
  }

  lemma OpenTimes(m: Msg, id: nat)
    ensures Times(OpenIds([m]), id) == If(m == Open(id))
  {
  }

  /** One step: Opens move along, and each that leaves was lost or became a stream. */
  lemma StepBalancesOpens(s: System, st: Step, id: nat)
    requires Invariant(s) && StepEnabled(s, st)
    ensures Times(OpensUnderWay(StepNext(s, st)), id) + If(LosesOpen(s, st, id)) + If(Stores(s, st, id))
            == Times(OpensUnderWay(s), id) + If(st == AtA(OpenSend(id)))
    ensures id in StepNext(s, st).b.streams <==> id in s.b.streams || Stores(s, st, id)
  {
    hide Times, OpensUnderWay;
    match st
    case AtA(act) =>
      ABalances(s, act, id);
    case AtB(act) =>
      BBalances(s, act, id);
      assert OpensOk(s);
      BStreams(s, act);
      hide Next;
  }

  lemma ABalances(s: System, act: Action, id: nat)
    requires StepEnabled(s, AtA(act))
    ensures Times(OpensUnderWay(StepNext(s, AtA(act))), id) + If(LosesOpen(s, AtA(act), id))
            == Times(OpensUnderWay(s), id) + If(act == OpenSend(id))
  {
    AOut(s, act);
    ALoses(s, act, id);
    hide StepNext, StepEnabled, OpensUnderWay, Times, OpenIds, Waiting, Queued, LosesOpen, If;
    var s', q := StepNext(s, AtA(act)), Queued(s.a, act);
    UnderWayTimes(s, id);
    UnderWayTimes(s', id);
    QueuedTimes(s.a, act, id);
    if act == Transmit || act == WriterStop(true) {
      HeadTimes(s.a.writeCh, id);
      SnocTimes(s.toB, s.a.writeCh[0], id);
    } else {
      OpenIdsAppend(s.a.writeCh, q);
      TimesAppend(OpenIds(s.a.writeCh), OpenIds(q), id);
    }
  }

  lemma AOut(s: System, act: Action)
    requires StepEnabled(s, AtA(act))
    ensures var s', q := StepNext(s, AtA(act)), Queued(s.a, act);
            && s'.b == s.b
            && if act == Transmit || act == WriterStop(true)
               then && s.a.writeCh != [] && s'.a.writeCh == s.a.writeCh[1..] && q == []
                    && s'.toB == (if act == Transmit then s.toB + [s.a.writeCh[0]] else s.toB)
               else s'.a.writeCh == s.a.writeCh + q && s'.toB == s.toB
  {
    SenderStep(ViewA(s), act);
    hide EndpointNext, Enabled, Queued;
  }

  lemma ALoses(s: System, act: Action, id: nat)
    requires StepEnabled(s, AtA(act))
    ensures act == WriterStop(true) ==>
              s.a.writeCh != [] && If(LosesOpen(s, AtA(act), id)) == If(s.a.writeCh[0] == Open(id))
    ensures act != WriterStop(true) ==> If(LosesOpen(s, AtA(act), id)) == 0
    ensures (act == Transmit || act == WriterStop(true)) ==> If(act == OpenSend(id)) == 0
  {
  }

  lemma HeadTimes(ms: seq<Msg>, id: nat)
    requires ms != []
    ensures Times(OpenIds(ms), id) == If(ms[0] == Open(id)) + Times(OpenIds(ms[1..]), id)
  {
    hide OpenIds, Times, If;
    assert ms == [ms[0]] + ms[1..];
    OpenTimes(ms[0], id);
    OpenIdsAppend([ms[0]], ms[1..]);
    TimesAppend(OpenIds([ms[0]]), OpenIds(ms[1..]), id);
  }

  lemma SnocTimes(ms: seq<Msg>, m: Msg, id: nat)
    ensures Times(OpenIds(ms + [m]), id) == Times(OpenIds(ms), id) + If(m == Open(id))
  {
    hide OpenIds, Times, If;
    OpenTimes(m, id);
    OpenIdsAppend(ms, [m]);
    TimesAppend(OpenIds(ms), OpenIds([m]), id);
  }

  lemma QueuedTimes(e: Endpoint, a: Action, id: nat)
    ensures Times(OpenIds(Queued(e, a)), id) == If(a == OpenSend(id))
  {
    OpenIdsQueued(e, a);
  }

  lemma BBalances(s: System, act: Action, id: nat)
    requires StepEnabled(s, AtB(act))
    ensures var lost, stored := If(LosesOpen(s, AtB(act), id)), If(Stores(s, AtB(act), id));
            Times(OpensUnderWay(StepNext(s, AtB(act))), id) + lost + stored == Times(OpensUnderWay(s), id)
  {
    BWaiting(s, act);
    BWire(s, act);
    BLoses(s, act, id);
    hide StepNext, StepEnabled, OpensUnderWay, Times, OpenIds, Waiting, Without, LosesOpen, Stores, If;
    var s' := StepNext(s, AtB(act));
    UnderWayTimes(s, id);
    UnderWayTimes(s', id);
    if act == Receive {
      HeadTimes(s.toB, id);
      WaitTimes(Waiting(s.b), s.toB[0], id);
    } else if act.AcceptStore? {
      TimesWithout(Waiting(s.b), act.i, id);
    }
  }

  lemma BLoses(s: System, act: Action, id: nat)
    requires StepEnabled(s, AtB(act))
    ensures act == Receive ==>
              && s.toB != []
              && If(LosesOpen(s, AtB(act), id)) == If(s.toB[0] == Open(id) && |s.b.opens| >= CHANNEL_CAP)
    ensures act != Receive ==> If(LosesOpen(s, AtB(act), id)) == 0
    ensures act.AcceptStore? ==>
              act.i < |s.b.accepting| && If(Stores(s, AtB(act), id)) == If(s.b.accepting[act.i] == id)
    ensures !act.AcceptStore? ==> If(Stores(s, AtB(act), id)) == 0
    ensures If(false) == 0
  {
  }

  lemma WaitTimes(q: seq<nat>, m: Msg, id: nat)
    ensures m.Open? ==> Times(q + [m.id], id) == Times(q, id) + If(m == Open(id))
    ensures !m.Open? ==> If(m == Open(id)) == 0
  {
    if m.Open? { TimesAppend(q, [m.id], id); }
  }

  lemma TimesWithout(q: seq<nat>, i: nat, id: nat)
    requires i < |q|
    ensures Times(Without(q, i), id) + If(q[i] == id) == Times(q, id)
  {
    var a, b := q[..i], q[i + 1..];
    assert q == a + [q[i]] + b;
    TimesAppend(a + [q[i]], b, id);
    TimesAppend(a, [q[i]], id);
    TimesAppend(a, b, id);
  }

  lemma {:induction false} RunBalancesOpens(s: System, steps: seq<Step>, id: nat)
    requires Invariant(s) && IsRun(s, steps)
    ensures Times(OpensUnderWay(After(s, steps)), id) + LostOpens(s, steps, id) + Stored(s, steps, id)
            == Times(OpensUnderWay(s), id) + Opened(steps, id)
    ensures id in After(s, steps).b.streams <==> id in s.b.streams || Stored(s, steps, id) > 0
    decreases |steps|
  {
    hide Invariant, StepEnabled, StepNext, OpensUnderWay, LosesOpen, Stores, Times;
    if steps != [] {
      StepKeepsInvariant(s, steps[0]);
      StepBalancesOpens(s, steps[0], id);
      RunBalancesOpens(StepNext(s, steps[0]), steps[1..], id);
    }
  }

  /**
   * Every OpenStream in every run: its Open is still under way, was lost as `LosesOpen` says, or was stored by
   * AcceptStream; and B's streams are exactly the stored ones.
   */
  lemma EveryOpenAccounted(steps: seq<Step>, id: nat)
    requires IsRun(Initial, steps)
    ensures var s := After(Initial, steps);
            && Opened(steps, id)
               == Times(OpensUnderWay(s), id) + LostOpens(Initial, steps, id) + Stored(Initial, steps, id)
            && (id in s.b.streams <==> Stored(Initial, steps, id) > 0)
  {
    InitialOk();
    assert OpensUnderWay(Initial) == [];
    hide IsRun, After, Invariant;
    RunBalancesOpens(Initial, steps, id);
  }

  /** How many streams were opened. */
  function Allocated(steps: seq<Step>): nat {
    if steps == [] then 0 else If(steps[0] == AtA(OpenAlloc)) + Allocated(steps[1..])
  }

  ghost predicate Numbered(e: Endpoint, count: nat) {
    e.nextID == count && forall id: nat :: id in e.streams <==> 1 <= id <= count
  }

  lemma StepNumbers(s: System, st: Step, count: nat)
    requires Invariant(s) && StepEnabled(s, st) && Numbered(s.a, count)
    ensures Numbered(StepNext(s, st).a, count + If(st == AtA(OpenAlloc)))
  {
    assert Waiting(s.a) == [];
    hide Invariant, Next, Enabled, Numbered, Waiting;
    if st.AtA? { OpenerNumbers(ViewA(s), st.act, count); }
  }

  lemma OpenerNumbers(n: Net, a: Action, count: nat)
    requires Enabled(n, a) && Waiting(n.e) == [] && Numbered(n.e, count)
    ensures Numbered(Next(n, a).e, count + If(a == OpenAlloc))
  {
    hide Next, Enabled, Waiting;
    OpensAfter(n, a);
    OpenerKeys(n, a);
    assert forall id :: id in Next(n, a).e.streams <==> id in Next(n, a).e.streams.Keys;
  }

  lemma OpenerKeys(n: Net, a: Action)
    requires Enabled(n, a) && Waiting(n.e) == []
    ensures Next(n, a).e.streams.Keys == n.e.streams.Keys + (if a == OpenAlloc then {n.e.nextID + 1} else {})
  {
    StreamsAfter(n, a);
    hide EndpointNext, UserStream, LoopStream, ReaderEnabled, MuxEnabled, ReadOk;
    if UserAction(a) { UserPlace(n.e, a); }
  }

  lemma {:induction false} RunNumbers(s: System, steps: seq<Step>, count: nat)
    requires Invariant(s) && IsRun(s, steps) && Numbered(s.a, count)
    ensures Numbered(After(s, steps).a, count + Allocated(steps))
    decreases |steps|
  {
    hide Invariant, StepEnabled, StepNext, Numbered;
    if steps != [] {
      StepKeepsInvariant(s, steps[0]);
      StepNumbers(s, steps[0], count);
      RunNumbers(StepNext(s, steps[0]), steps[1..], count + If(steps[0] == AtA(OpenAlloc)));
    }
  }

  /** Streams are numbered from 1 in the order of their opening, without a gap. */
  lemma StreamsAreNumbered(steps: seq<Step>, id: nat)
    requires IsRun(Initial, steps)
    ensures var a := After(Initial, steps).a;
            a.nextID == Allocated(steps) && (id in a.streams <==> 1 <= id <= Allocated(steps))
  {
    hide IsRun, After, Invariant, Allocated;
    InitialOk();
    assert Numbered(Initial.a, 0);
    RunNumbers(Initial, steps, 0);
  }

  // ---------------------------------------------------------------- the connection

  /** What the read loop at one end took off the connection. */
  function Received(s: System, steps: seq<Step>, atA: bool): seq<Msg>
    requires IsRun(s, steps)
    decreases |steps|
  {
    if steps == [] then []
    else
      ReceivedAt(s, steps[0], atA) + Received(StepNext(s, steps[0]), steps[1..], atA)
  }

  function ReceivedAt(s: System, st: Step, atA: bool): seq<Msg>
    requires StepEnabled(s, st)
  {
    if st == AtA(Receive) && atA then [s.toA[0]] else if st == AtB(Receive) && !atA then [s.toB[0]] else []
  }

  lemma StepIsFifo(s: System, st: Step, fromA: bool, received: seq<Msg>)
    requires StepEnabled(s, st)
    requires ViewOf(s, fromA).e.transmitted == received + ViewOf(s, fromA).outbox
    ensures var n' := ViewOf(StepNext(s, st), fromA);
            n'.e.transmitted == received + ReceivedAt(s, st, !fromA) + n'.outbox
  {
    var n := ViewOf(s, st.AtA?);
    EnabledThere(s, st);
    TransmittedAfter(n, st.act);
    hide EndpointNext, UserEnabled, MuxEnabled;
    if st.AtA? == fromA {
      assert received + [] == received;
      if st.act == Transmit { Assoc(received, n.outbox, [n.e.writeCh[0]]); }
    } else if st.act == Receive {
      assert n.inbox == [n.inbox[0]] + n.inbox[1..];
      Assoc(received, [n.inbox[0]], n.inbox[1..]);
    } else {
      assert received + [] == received;
    }
  }

  lemma TransmittedAfter(n: Net, a: Action)
    requires Enabled(n, a)
    ensures a == Transmit ==> n.e.writeCh != []
    ensures Next(n, a).e.transmitted == if a == Transmit then n.e.transmitted + [n.e.writeCh[0]] else n.e.transmitted
  {
    hide UserNext, ReaderNext, MuxNext, UserEnabled, ReaderEnabled;
    if UserAction(a) {
      UserFields(n.e, a);
    } else if ReaderAction(a) {
      ReaderFields(n.e, n.inbox, a);
    } else {
      MuxFields(n.e, a);
    }
  }

  lemma {:induction false} RunIsFifo(s: System, steps: seq<Step>, fromA: bool, received: seq<Msg>)
    requires IsRun(s, steps) && ViewOf(s, fromA).e.transmitted == received + ViewOf(s, fromA).outbox
    ensures var n' := ViewOf(After(s, steps), fromA);
            n'.e.transmitted == received + Received(s, steps, !fromA) + n'.outbox
    decreases |steps|
  {
    hide StepEnabled, StepNext, ReceivedAt, ViewOf;
    if steps == [] {
      assert received + [] == received;
    } else {
      var s', x := StepNext(s, steps[0]), ReceivedAt(s, steps[0], !fromA);
      StepIsFifo(s, steps[0], fromA, received);
      RunIsFifo(s', steps[1..], fromA, received + x);
      Assoc(received, x, Received(s', steps[1..], !fromA));
    }
  }

  /** What one end transmitted is what the other received, in order, followed by what is on the connection. */
  lemma WireIsFifo(steps: seq<Step>, fromA: bool)
    requires IsRun(Initial, steps)
    ensures var n := ViewOf(After(Initial, steps), fromA);
            n.e.transmitted == Received(Initial, steps, !fromA) + n.outbox
  {
    RunIsFifo(Initial, steps, fromA, []);
    assert [] + Received(Initial, steps, !fromA) == Received(Initial, steps, !fromA);
  }
}
