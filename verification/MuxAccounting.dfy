/**
 * Nothing on a stream goes missing unaccounted: every run of the multiplexer against the log of its own
 * steps, what users asked for on one hand and the exact losses on the other.
 */
module MuxAccounting {
  import opened Bytes
  import opened Subsequence
  import opened Mux
  import opened MuxSafety

  function ViewOf(s: System, atA: bool): Net {
    if atA then ViewA(s) else ViewB(s)
  }

  // ---------------------------------------------------------------- one delivery

  /**
   * A received chunk goes to the stream with its id exactly when the id is registered at the receive and, at
   * the send, the stream's channel is open and holds fewer than 64 chunks; a closed channel stops the loop.
   */
  lemma DeliveryExactly(n: Net, a: Action, id: nat, chunk: seq<byte>)
    requires Enabled(n, a)
    ensures a == Receive && n.inbox[0] == Data(id, chunk) ==>
              && Next(n, a).inbox == n.inbox[1..]
              && Next(n, a).e == if id in n.e.registered then n.e.(reader := Delivering(id, chunk)) else n.e
    ensures a == Deliver && n.e.reader == Delivering(id, chunk) ==>
              var s, e' := n.e.streams[id], Next(n, a).e;
              var reaches := s.chanCloses == 0 && |s.queue| < 64;
              && e'.streams == (if reaches then n.e.streams[id := s.(queue := s.queue + [chunk])] else n.e.streams)
              && e'.reader == if s.chanCloses == 0 then Ready else Stopped
  {
  }

  // ---------------------------------------------------------------- the chunks of a stream

  /** The chunk a Write has in hand, past the closed check and not yet queued. */
  function Pending(e: Endpoint, id: nat): seq<seq<byte>> {
    if id in e.streams && e.streams[id].user.Writing? then [e.streams[id].user.chunk] else []
  }

  /** The chunk of a Write on stream `id` that begins. */
  function StartedAt(a: Action, id: nat): seq<seq<byte>> {
    if a.WriteStart? && a.id == id then [a.chunk] else []
  }

  /** The chunk of stream `id` that goes down with the write loop. */
  function DroppedAt(n: Net, a: Action, id: nat): seq<seq<byte>>
    requires Enabled(n, a)
  {
    if a == WriterStop(true) && n.e.writeCh[0].Data? && n.e.writeCh[0].id == id then [n.e.writeCh[0].chunk] else []
  }

  /** All that was ever written to stream `id` at one end, in order: the log of its user. */
  function Started(steps: seq<Step>, atA: bool, id: nat): seq<seq<byte>> {
    if steps == [] then []
    else (if steps[0].AtA? == atA then StartedAt(steps[0].act, id) else []) + Started(steps[1..], atA, id)
  }

  /** The log of the chunks the read loop at one end refused, each in a state that `Refused` describes. */
  function RefusedIn(s: System, steps: seq<Step>, atA: bool, id: nat): seq<seq<byte>>
    requires IsRun(s, steps)
    decreases |steps|
  {
    if steps == [] then []
    else
      (if steps[0].AtA? == atA then Refused(ViewOf(s, atA), steps[0].act, id) else [])
      + RefusedIn(StepNext(s, steps[0]), steps[1..], atA, id)
  }

  /** The log of the chunks that went down with the write loop at one end. */
  function DroppedIn(s: System, steps: seq<Step>, atA: bool, id: nat): seq<seq<byte>>
    requires IsRun(s, steps)
    decreases |steps|
  {
    if steps == [] then []
    else
      (if steps[0].AtA? == atA then DroppedAt(ViewOf(s, atA), steps[0].act, id) else [])
      + DroppedIn(StepNext(s, steps[0]), steps[1..], atA, id)
  }

  /** The chunks of stream `id` from the receiver's read loop back to the Write that has not queued its chunk. */
  function UnderWay(sender: Endpoint, wire: seq<Msg>, receiver: Endpoint, id: nat, dropped: seq<seq<byte>>)
    : seq<seq<byte>>
  {
    Coming(receiver, wire, id) + (dropped + (DataOf(sender.writeCh, id) + Pending(sender, id)))
  }

  /**
   * The account of a stream in one direction. What was written is what reached the stream merged with what was
   * refused, followed by what is still under way, with what was dropped where it was dropped.
   */
  ghost predicate Accounted(sender: Endpoint, wire: seq<Msg>, receiver: Endpoint, id: nat,
                            started: seq<seq<byte>>, refused: seq<seq<byte>>, dropped: seq<seq<byte>>) {
    && Balanced(started, Reached(receiver, id), refused, UnderWay(sender, wire, receiver, id, dropped))
    && (dropped != [] ==> sender.writerStopped)
  }

  /** All is the two merged, followed by the rest. */
  ghost predicate Balanced<T>(all: seq<T>, reached: seq<T>, refused: seq<T>, rest: seq<T>) {
    var k := |reached| + |refused|;
    k <= |all| && Merge(reached, refused, all[..k]) && all[k..] == rest
  }

  lemma BalanceGrows<T>(all: seq<T>, reached: seq<T>, refused: seq<T>, rest: seq<T>, x: seq<T>)
    requires Balanced(all, reached, refused, rest)
    ensures Balanced(all + x, reached, refused, rest + x)
  {
    hide Merge;
    var k := |reached| + |refused|;
    assert (all + x)[..k] == all[..k] && (all + x)[k..] == all[k..] + x;
  }

  lemma BalanceMoves<T>(all: seq<T>, reached: seq<T>, refused: seq<T>, x: seq<T>, rest: seq<T>)
    requires Balanced(all, reached, refused, x + rest)
    ensures Balanced(all, reached + x, refused, rest) && Balanced(all, reached, refused + x, rest)
  {
    hide Merge;
    var k := |reached| + |refused|;
    var c := all[..k];
    assert all == c + (x + rest);
    assert all[..k + |x|] == c + x && all[k + |x|..] == rest;
    MergeMore(reached, refused, c, x);
    MergeSwaps(reached, refused, c);
    MergeMore(refused, reached, c, x);
    MergeSwaps(refused + x, reached, c + x);
  }

  /** A write moves from the user's hand to the queue; a new stream has none. */
  lemma PendingMoves(n: Net, a: Action, id: nat)
    requires Enabled(n, a) && NoReplacement(n, a)
    ensures DataOf(Queued(n.e, a), id) + Pending(Next(n, a).e, id) == Pending(n.e, id) + StartedAt(a, id)
  {
    StreamsAfter(n, a);
    hide Next, UserStream, LoopStream, Subject, ReaderEnabled, MuxEnabled;
    if UserAction(a) {
      NewIsNew(n, a);
      UserMovesPending(n.e, a, id);
    } else {
      QueuedNoData(n.e, a, id);
      if id in n.e.streams { LoopKeepsChunks(n.e, a, id); }
    }
  }

  lemma QueuedNoData(e: Endpoint, a: Action, id: nat)
    requires !UserAction(a)
    ensures DataOf(Queued(e, a), id) == []
  {
  }

  lemma UserMovesPending(e: Endpoint, a: Action, id: nat)
    requires UserAction(a) && UserEnabled(e, a) && (Creates(a) ==> Subject(e, a) !in e.streams)
    ensures var u := UserStream(e, a).user;
            if id == Subject(e, a)
            then DataOf(Queued(e, a), id) + (if u.Writing? then [u.chunk] else []) == Pending(e, id) + StartedAt(a, id)
            else DataOf(Queued(e, a), id) == [] && StartedAt(a, id) == []
  {
  }

  /** The write loop stops once, and only its own steps need it running. */
  lemma StoppedAfter(n: Net, a: Action)
    requires Enabled(n, a)
    ensures Next(n, a).e.writerStopped == (n.e.writerStopped || a.WriterStop?)
    ensures a == Transmit || a.WriterStop? ==> !n.e.writerStopped
  {
    hide UserNext, ReaderNext, MuxNext, UserEnabled, ReaderEnabled;
    if UserAction(a) {
      UserFields(n.e, a);
    } else if ReaderAction(a) {
      ReaderFields(n.e, n.inbox, a);
    } else {
      MuxFields(n.e, a);
    }
  }

  /** A step of the sender adds what its user starts to write, and otherwise only moves chunks along. */
  lemma SenderExactly(n: Net, a: Action, receiver: Endpoint, id: nat, dropped: seq<seq<byte>>)
    requires Enabled(n, a) && NoReplacement(n, a) && (dropped != [] ==> n.e.writerStopped)
    ensures UnderWay(Next(n, a).e, Next(n, a).outbox, receiver, id, dropped + DroppedAt(n, a, id))
            == UnderWay(n.e, n.outbox, receiver, id, dropped) + StartedAt(a, id)
  {
    PendingMoves(n, a, id);
    hide Next, Enabled, NoReplacement, DataOf, Queued, Pending, StartedAt, InHand, DroppedAt, Coming;
    if a == Transmit || a == WriterStop(true) {
      WriterExactly(n, a, receiver, id, dropped);
    } else {
      SenderStep(n, a);
      DroppedIs(n, a, id);
      var n', q := Next(n, a), Queued(n.e, a);
      DataOfAppend(n.e.writeCh, q, id);
      QueueMoves(Coming(receiver, n.outbox, id), dropped, DataOf(n.e.writeCh, id), DataOf(q, id),
                 Pending(n'.e, id), Pending(n.e, id), StartedAt(a, id));
      assert dropped + [] == dropped;
    }
  }

  lemma WriterExactly(n: Net, a: Action, receiver: Endpoint, id: nat, dropped: seq<seq<byte>>)
    requires (a == Transmit || a == WriterStop(true)) && Enabled(n, a) && (dropped != [] ==> n.e.writerStopped)
    requires DataOf(Queued(n.e, a), id) + Pending(Next(n, a).e, id) == Pending(n.e, id) + StartedAt(a, id)
    ensures UnderWay(Next(n, a).e, Next(n, a).outbox, receiver, id, dropped + DroppedAt(n, a, id))
            == UnderWay(n.e, n.outbox, receiver, id, dropped) + StartedAt(a, id)
  {
    StoppedAfter(n, a);
    DroppedIs(n, a, id);
    SenderStep(n, a);
    hide Next, Enabled, DataOf, Queued, Pending, StartedAt, InHand, DroppedAt, UnderWay;
    NoData(id);
    var n', m, y := Next(n, a), n.e.writeCh[0], StartedAt(a, id);
    assert n.e.writeCh == [m] + n'.e.writeCh;
    assert Pending(n'.e, id) == Pending(n.e, id) + y;
    if a == Transmit {
      assert dropped + [] == [];
      Sending(n.e, n'.e, m, n.outbox, receiver, id, y);
    } else {
      assert n'.outbox == n.outbox;
      Dropping(n.e, n'.e, m, n.outbox, receiver, id, dropped, y);
    }
  }

  lemma Sending(e: Endpoint, e': Endpoint, m: Msg, wire: seq<Msg>, receiver: Endpoint, id: nat, y: seq<seq<byte>>)
    requires e.writeCh == [m] + e'.writeCh && Pending(e', id) == Pending(e, id) + y
    ensures UnderWay(e', wire + [m], receiver, id, []) == UnderWay(e, wire, receiver, id, []) + y
  {
    hide DataOf, Pending, InHand;
    DataOfAppend([m], e'.writeCh, id);
    DataOfAppend(wire, [m], id);
    HeadSent(InHand(receiver, id), DataOf(wire, id), DataOf([m], id), DataOf(e'.writeCh, id), Pending(e, id), y);
  }

  lemma Dropping(e: Endpoint, e': Endpoint, m: Msg, wire: seq<Msg>, receiver: Endpoint, id: nat,
                 dropped: seq<seq<byte>>, y: seq<seq<byte>>)
    requires e.writeCh == [m] + e'.writeCh && Pending(e', id) == Pending(e, id) + y
    ensures UnderWay(e', wire, receiver, id, dropped + DataOf([m], id)) == UnderWay(e, wire, receiver, id, dropped) + y
  {
    hide DataOf, Pending, Coming;
    DataOfAppend([m], e'.writeCh, id);
    HeadDropped(Coming(receiver, wire, id), dropped, DataOf([m], id), DataOf(e'.writeCh, id), Pending(e, id), y);
  }

  lemma HeadSent<T>(h: seq<T>, o: seq<T>, x: seq<T>, t: seq<T>, p: seq<T>, y: seq<T>)
    ensures (h + (o + x)) + ([] + (t + (p + y))) == (h + o) + ([] + ((x + t) + p)) + y
  {
  }

  lemma HeadDropped<T>(a: seq<T>, d: seq<T>, x: seq<T>, t: seq<T>, p: seq<T>, y: seq<T>)
    ensures a + ((d + x) + (t + (p + y))) == a + (d + ((x + t) + p)) + y
  {
  }

  lemma NoData(id: nat)
    ensures DataOf([], id) == []
  {
  }

  lemma DroppedIs(n: Net, a: Action, id: nat)
    requires Enabled(n, a)
    ensures a == WriterStop(true) ==> n.e.writeCh != [] && DroppedAt(n, a, id) == DataOf([n.e.writeCh[0]], id)
    ensures a != WriterStop(true) ==> DroppedAt(n, a, id) == []
  {
  }

  lemma QueueMoves<T>(c: seq<T>, d: seq<T>, w: seq<T>, q: seq<T>, p': seq<T>, p: seq<T>, x: seq<T>)
    requires q + p' == p + x
    ensures c + (d + ((w + q) + p')) == (c + (d + (w + p))) + x
  {
    Assoc(w, q, p');
    Assoc(w, p, x);
    Assoc(d, w + p, x);
    Assoc(c, d + (w + p), x);
  }

  lemma SenderAccounts(n: Net, a: Action, receiver: Endpoint, id: nat,
                       started: seq<seq<byte>>, refused: seq<seq<byte>>, dropped: seq<seq<byte>>)
    requires Enabled(n, a) && NoReplacement(n, a) && Accounted(n.e, n.outbox, receiver, id, started, refused, dropped)
    ensures Accounted(Next(n, a).e, Next(n, a).outbox, receiver, id,
                      started + StartedAt(a, id), refused, dropped + DroppedAt(n, a, id))
  {
    SenderExactly(n, a, receiver, id, dropped);
    StoppedAfter(n, a);
    DroppedIs(n, a, id);
    hide Next, Enabled, NoReplacement, StartedAt, Reached, Balanced, UnderWay, DroppedAt;
    BalanceGrows(started, Reached(receiver, id), refused, UnderWay(n.e, n.outbox, receiver, id, dropped),
                 StartedAt(a, id));
  }

  lemma ReceiverAccounts(sender: Endpoint, n: Net, a: Action, id: nat,
                         started: seq<seq<byte>>, refused: seq<seq<byte>>, dropped: seq<seq<byte>>)
    requires Enabled(n, a) && NoReplacement(n, a) && Accounted(sender, n.inbox, n.e, id, started, refused, dropped)
    ensures Accounted(sender, Next(n, a).inbox, Next(n, a).e, id, started, refused + Refused(n, a, id), dropped)
  {
    hide Next, Enabled, NoReplacement, Refused, Reached, Balanced, Coming, DataOf, Pending;
    var x := ReceiverMoves(n, a, id);
    var c' := Coming(Next(n, a).e, Next(n, a).inbox, id);
    var t := dropped + (DataOf(sender.writeCh, id) + Pending(sender, id));
    Assoc(x, c', t);
    BalanceMoves(started, Reached(n.e, id), refused, x, c' + t);
    assert refused + [] == refused;
  }

  /** Both ends of a direction: the sender at A, say, and the receiver at B. */
  ghost predicate AccountedAt(s: System, fromA: bool, id: nat,
                              started: seq<seq<byte>>, refused: seq<seq<byte>>, dropped: seq<seq<byte>>) {
    Accounted(ViewOf(s, fromA).e, ViewOf(s, fromA).outbox, ViewOf(s, !fromA).e, id, started, refused, dropped)
  }

  lemma StepAccounts(s: System, st: Step, fromA: bool, id: nat,
                     started: seq<seq<byte>>, refused: seq<seq<byte>>, dropped: seq<seq<byte>>)
    requires Invariant(s) && StepEnabled(s, st) && AccountedAt(s, fromA, id, started, refused, dropped)
    ensures if st.AtA? == fromA
            then AccountedAt(StepNext(s, st), fromA, id, started + StartedAt(st.act, id), refused,
                             dropped + DroppedAt(ViewOf(s, fromA), st.act, id))
            else AccountedAt(StepNext(s, st), fromA, id, started,
                             refused + Refused(ViewOf(s, !fromA), st.act, id), dropped)
  {
    hide Enabled, OpensOk, PipesOk, LocalOk, Next, NoReplacement, RoleOk, Accounted, Refused, DroppedAt, StartedAt;
    OpensMeanNoReplacement(s, st);
    if st.AtA? == fromA {
      SenderAccounts(ViewOf(s, fromA), st.act, ViewOf(s, !fromA).e, id, started, refused, dropped);
    } else {
      ReceiverAccounts(ViewOf(s, fromA).e, ViewOf(s, !fromA), st.act, id, started, refused, dropped);
    }
  }

  lemma EnabledThere(s: System, st: Step)
    requires StepEnabled(s, st)
    ensures Enabled(ViewOf(s, st.AtA?), st.act)
  {
  }

  lemma {:induction false} RunAccounts(s: System, steps: seq<Step>, fromA: bool, id: nat,
                                       started: seq<seq<byte>>, refused: seq<seq<byte>>, dropped: seq<seq<byte>>)
    requires Invariant(s) && IsRun(s, steps) && AccountedAt(s, fromA, id, started, refused, dropped)
    ensures AccountedAt(After(s, steps), fromA, id, started + Started(steps, fromA, id),
                        refused + RefusedIn(s, steps, !fromA, id), dropped + DroppedIn(s, steps, fromA, id))
    decreases |steps|
  {
    hide Invariant, StepEnabled, StepNext, AccountedAt, Refused, DroppedAt, StartedAt, ViewOf;
    if steps == [] {
      assert started + [] == started && refused + [] == refused && dropped + [] == dropped;
    } else {
      var st, s', rest := steps[0], StepNext(s, steps[0]), steps[1..];
      StepKeepsInvariant(s, st);
      EnabledThere(s, st);
      StepAccounts(s, st, fromA, id, started, refused, dropped);
      if st.AtA? == fromA {
        var x, z := StartedAt(st.act, id), DroppedAt(ViewOf(s, fromA), st.act, id);
        RunAccounts(s', rest, fromA, id, started + x, refused, dropped + z);
        Assoc(started, x, Started(rest, fromA, id));
        Assoc(dropped, z, DroppedIn(s', rest, fromA, id));
        assert [] + RefusedIn(s', rest, !fromA, id) == RefusedIn(s', rest, !fromA, id);
      } else {
        var y := Refused(ViewOf(s, !fromA), st.act, id);
        RunAccounts(s', rest, fromA, id, started, refused + y, dropped);
        Assoc(refused, y, RefusedIn(s', rest, !fromA, id));
        assert [] + Started(rest, fromA, id) == Started(rest, fromA, id);
        assert [] + DroppedIn(s', rest, fromA, id) == DroppedIn(s', rest, fromA, id);
      }
    }
  }

  /**
   * The account of every stream, in every run and both directions: the chunks its user ever wrote are the ones
   * that reached the peer's stream merged with the ones the peer refused, followed by those still under way in
   * order, with the one that went down with the write loop where it went down.
   */
  lemma MuxAccounts(steps: seq<Step>, fromA: bool, id: nat)
    requires IsRun(Initial, steps)
    ensures var s := After(Initial, steps);
            var sender, receiver := ViewOf(s, fromA), ViewOf(s, !fromA).e;
            var started, refused := Started(steps, fromA, id), RefusedIn(Initial, steps, !fromA, id);
            var k := |Reached(receiver, id)| + |refused|;
            && k <= |started| && Merge(Reached(receiver, id), refused, started[..k])
            && started[k..] == UnderWay(sender.e, sender.outbox, receiver, id, DroppedIn(Initial, steps, fromA, id))
  {
    hide IsRun, After, Started, RefusedIn, DroppedIn, Invariant, Merge, Reached, UnderWay, ViewOf;
    InitialOk();
    InitialAccount(fromA, id);
    RunAccounts(Initial, steps, fromA, id, [], [], []);
    assert [] + Started(steps, fromA, id) == Started(steps, fromA, id);
    assert [] + RefusedIn(Initial, steps, !fromA, id) == RefusedIn(Initial, steps, !fromA, id);
    assert [] + DroppedIn(Initial, steps, fromA, id) == DroppedIn(Initial, steps, fromA, id);
  }

  lemma InitialAccount(fromA: bool, id: nat)
    ensures AccountedAt(Initial, fromA, id, [], [], [])
  {
  }

  /** In a run that refuses and drops nothing, all that was written has reached the peer's stream or is under way. */
  lemma NothingLost(steps: seq<Step>, fromA: bool, id: nat)
    requires IsRun(Initial, steps)
    requires RefusedIn(Initial, steps, !fromA, id) == [] && DroppedIn(Initial, steps, fromA, id) == []
    ensures var s := After(Initial, steps);
            var sender, receiver := ViewOf(s, fromA), ViewOf(s, !fromA).e;
            Started(steps, fromA, id)
            == Reached(receiver, id) + (InHand(receiver, id) + DataOf(sender.outbox, id)
                                        + (DataOf(sender.e.writeCh, id) + Pending(sender.e, id)))
  {
    hide IsRun, After, Started, RefusedIn, DroppedIn, DataOf, InHand, Pending, Reached, Merge;
    MuxAccounts(steps, fromA, id);
    var s := After(Initial, steps);
    var sender, receiver := ViewOf(s, fromA), ViewOf(s, !fromA).e;
    var started, r := Started(steps, fromA, id), Reached(receiver, id);
    MergeKeeps(r, [], started[..|r|]);
    var w := DataOf(sender.e.writeCh, id) + Pending(sender.e, id);
    assert [] + w == w;
    assert started == started[..|r|] + started[|r|..];
  }

  /** As many as were written: each is on the stream, refused, dropped, or under way. */
  lemma EachAccountedOnce(steps: seq<Step>, fromA: bool, id: nat)
    requires IsRun(Initial, steps)
    ensures var s := After(Initial, steps);
            var sender, receiver := ViewOf(s, fromA), ViewOf(s, !fromA).e;
            multiset(Started(steps, fromA, id))
            == multiset(Reached(receiver, id)) + multiset(RefusedIn(Initial, steps, !fromA, id))
               + multiset(DroppedIn(Initial, steps, fromA, id)) + multiset(InHand(receiver, id))
               + multiset(DataOf(sender.outbox, id)) + multiset(DataOf(sender.e.writeCh, id))
               + multiset(Pending(sender.e, id))
  {
    hide IsRun, After, Started, RefusedIn, DroppedIn, DataOf, InHand, Pending, Reached, Merge;
    MuxAccounts(steps, fromA, id);
    var s := After(Initial, steps);
    var receiver := ViewOf(s, !fromA).e;
    var started, r, l := Started(steps, fromA, id), Reached(receiver, id), RefusedIn(Initial, steps, !fromA, id);
    var k := |r| + |l|;
    MergeKeeps(r, l, started[..k]);
    assert started == started[..k] + started[k..];
  }
}
