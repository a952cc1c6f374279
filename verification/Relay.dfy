/**
 * The shutdown protocol of tunnel/relay.go: two relay goroutines, each a read-and-forward loop with its
 * deferred closeBoth and wg.Done, as a transition system over their atomic actions. Whether a read or a
 * write fails, and with what, is free, so every point of failure is a run.
 */
module Relay {

  /** Where a relay goroutine is. */
  datatype Point =
    | Checking         // loop head: the closed flag is loaded
    | Reading
    | ReadError        // a read failed, not with EOF: the flag is loaded
    | ReadErrorCount   // the error is counted
    | Writing          // a raw packet is held
    | WriteError       // the write failed: the flag is loaded
    | WriteErrorCount
    | Dropping         // the raw packet is released before leaving
    | Counting         // the write succeeded: the direction's counter
    | Releasing        // the raw packet is released before the next round
    | Exiting          // closeBoth: compare-and-swap on the flag
    | ClosingClient    // won: client.Close() is next
    | ClosingServer    // then server.Close()
    | Finishing        // wg.Done() is next
    | Done

  /** A goroutine, with the number of raw packets it obtained, released and forwarded. */
  datatype Worker = Worker(at: Point, obtained: nat, released: nat, forwarded: nat)

  /** What the two goroutines share; `waiting` is the wait group's counter. */
  datatype Shared = Shared(closed: bool, waiting: int, clientCloses: nat, serverCloses: nat, errors: nat)

  datatype Relay = Relay(shared: Shared, toServer: Worker, toClient: Worker)

  /** What the environment answers: a read or write succeeds or fails; every other action is its own. */
  datatype Answer = Own | Success | Failure(eof: bool)

  datatype Step = ToServer(answer: Answer) | ToClient(answer: Answer)

  const NewWorker := Worker(Checking, 0, 0, 0)

  /** After Start. */
  const Started := Relay(Shared(false, 2, 0, 0, 0), NewWorker, NewWorker)

  predicate CanMove(p: Point, answer: Answer) {
    match p
    case Done => false
    case Reading => answer != Own
    case Writing => answer != Own
    case _ => answer == Own
  }

  /** The goroutine's next place. */
  function Goto(p: Point, closed: bool, answer: Answer): Point
    requires CanMove(p, answer)
  {
    match p
    case Checking => if closed then Exiting else Reading
    case Reading => if answer == Success then Writing else if answer.eof then Exiting else ReadError
    case ReadError => if closed then Exiting else ReadErrorCount
    case ReadErrorCount => Exiting
    case Writing => if answer == Success then Counting else WriteError
    case WriteError => if closed then Dropping else WriteErrorCount
    case WriteErrorCount => Dropping
    case Dropping => Exiting
    case Counting => Releasing
    case Releasing => Checking
    case Exiting => if closed then Finishing else ClosingClient
    case ClosingClient => ClosingServer
    case ClosingServer => Finishing
    case Finishing => Done
  }

  function One(b: bool): nat {
    if b then 1 else 0
  }

  function MoveWorker(g: Worker, closed: bool, answer: Answer): Worker
    requires CanMove(g.at, answer)
  {
    Worker(Goto(g.at, closed, answer),
           g.obtained + One(g.at == Reading && answer == Success),
           g.released + One(g.at == Dropping || g.at == Releasing),
           g.forwarded + One(g.at == Counting))
  }

  function MoveShared(s: Shared, p: Point): Shared {
    Shared(s.closed || p == Exiting,
           s.waiting - One(p == Finishing),
           s.clientCloses + One(p == ClosingClient),
           s.serverCloses + One(p == ClosingServer),
           s.errors + One(p == ReadErrorCount || p == WriteErrorCount))
  }

  predicate Enabled(r: Relay, st: Step) {
    match st
    case ToServer(answer) => CanMove(r.toServer.at, answer)
    case ToClient(answer) => CanMove(r.toClient.at, answer)
  }

  function Next(r: Relay, st: Step): Relay
    requires Enabled(r, st)
  {
    match st
    case ToServer(answer) =>
      Relay(MoveShared(r.shared, r.toServer.at), MoveWorker(r.toServer, r.shared.closed, answer), r.toClient)
    case ToClient(answer) =>
      Relay(MoveShared(r.shared, r.toClient.at), r.toServer, MoveWorker(r.toClient, r.shared.closed, answer))
  }

  predicate IsRun(r: Relay, steps: seq<Step>)
    decreases |steps|
  {
    steps == [] || (Enabled(r, steps[0]) && IsRun(Next(r, steps[0]), steps[1..]))
  }

  function After(r: Relay, steps: seq<Step>): Relay
    requires IsRun(r, steps)
    decreases |steps|
  {
    if steps == [] then r else After(Next(r, steps[0]), steps[1..])
  }

  // ---------------------------------------------------------------- what every step keeps

  predicate Left(p: Point) {
    p == ClosingClient || p == ClosingServer || p == Finishing || p == Done
  }

  predicate Holds(p: Point) {
    p == Writing || p == WriteError || p == WriteErrorCount || p == Dropping || p == Counting || p == Releasing
  }

  /** Past the place where this goroutine may have counted an error, which it does at most once. */
  predicate MayHaveErred(p: Point) {
    p == Dropping || p == Exiting || Left(p)
  }

  /** A raw packet is held only between its read and its release, and is forwarded unless it is the last. */
  predicate WorkerOk(g: Worker) {
    && g.obtained == g.released + One(Holds(g.at))
    && g.forwarded <= g.obtained <= g.forwarded + 1
    && (g.at == Checking || g.at == Reading || g.at == Releasing ==> g.obtained == g.forwarded)
    && (g.at == Writing || g.at == Counting ==> g.obtained == g.forwarded + 1)
  }

  /** The shared state against the places p and q of the two goroutines: each close is done or owed by one. */
  predicate SharedOk(s: Shared, p: Point, q: Point) {
    && s.waiting == One(p != Done) + One(q != Done)
    && s.errors <= One(MayHaveErred(p)) + One(MayHaveErred(q))
    && s.clientCloses + One(p == ClosingClient) + One(q == ClosingClient) == One(s.closed)
    && s.serverCloses + One(p == ClosingClient || p == ClosingServer)
                      + One(q == ClosingClient || q == ClosingServer) == One(s.closed)
    && (Left(p) || Left(q) ==> s.closed)
  }

  predicate Invariant(r: Relay) {
    WorkerOk(r.toServer) && WorkerOk(r.toClient) && SharedOk(r.shared, r.toServer.at, r.toClient.at)
  }

  lemma WorkerStep(g: Worker, closed: bool, answer: Answer)
    requires WorkerOk(g) && CanMove(g.at, answer)
    ensures WorkerOk(MoveWorker(g, closed, answer))
  {
  }

  lemma SharedStep(s: Shared, p: Point, q: Point, answer: Answer)
    requires SharedOk(s, p, q) && CanMove(p, answer)
    ensures SharedOk(MoveShared(s, p), Goto(p, s.closed, answer), q)
  {
  }

  lemma SharedSwap(s: Shared, p: Point, q: Point)
    requires SharedOk(s, p, q)
    ensures SharedOk(s, q, p)
  {
  }

  lemma StepKeepsInvariant(r: Relay, st: Step)
    requires Invariant(r) && Enabled(r, st)
    ensures Invariant(Next(r, st))
  {
    hide SharedOk, WorkerOk, Goto, CanMove, MoveShared;
    var p, q := r.toServer.at, r.toClient.at;
    match st {
      case ToServer(answer) =>
        WorkerStep(r.toServer, r.shared.closed, answer);
        SharedStep(r.shared, p, q, answer);
      case ToClient(answer) =>
        WorkerStep(r.toClient, r.shared.closed, answer);
        SharedSwap(r.shared, p, q);
        SharedStep(r.shared, q, p, answer);
        SharedSwap(MoveShared(r.shared, q), Goto(q, r.shared.closed, answer), p);
    }
  }

  lemma {:induction false} RunKeepsInvariant(r: Relay, steps: seq<Step>)
    requires Invariant(r) && IsRun(r, steps)
    ensures Invariant(After(r, steps))
    decreases |steps|
  {
    hide Invariant, Enabled, Next;
    if steps != [] {
      StepKeepsInvariant(r, steps[0]);
      RunKeepsInvariant(Next(r, steps[0]), steps[1..]);
    }
  }

  /** Wait has returned: everything is closed once, released, and counted at most once per direction. */
  predicate ShutDown(r: Relay) {
    && r.shared.closed && r.shared.clientCloses == 1 && r.shared.serverCloses == 1 && r.shared.errors <= 2
    && r.toServer.at == Done && r.toServer.released == r.toServer.obtained <= r.toServer.forwarded + 1
    && r.toClient.at == Done && r.toClient.released == r.toClient.obtained <= r.toClient.forwarded + 1
  }

  /**
   * For every interleaving and every point of failure: neither endpoint is ever closed twice, the wait
   * group never goes below zero, and once Wait returns both endpoints have been closed exactly once, the
   * flag is set, every raw packet was released, and each direction counted at most one error.
   */
  lemma RelayShutdown(steps: seq<Step>)
    requires IsRun(Started, steps)
    ensures var r := After(Started, steps);
            && r.shared.clientCloses <= 1 && r.shared.serverCloses <= 1 && r.shared.waiting >= 0
            && (r.shared.waiting == 0 <==> ShutDown(r))
  {
    hide *;
    StartedOk();
    RunKeepsInvariant(Started, steps);
    Final(After(Started, steps));
  }

  lemma StartedOk()
    ensures Invariant(Started)
  {
    hide WorkerOk, SharedOk;
    WorkerStart(NewWorker);
    SharedStart(Started.shared, Checking);
  }

  lemma WorkerStart(g: Worker)
    requires g.at == Checking && g.obtained == g.released == g.forwarded == 0
    ensures WorkerOk(g)
  {
  }

  lemma SharedStart(s: Shared, p: Point)
    requires p == Checking && !s.closed && s.waiting == 2
    requires s.clientCloses == 0 && s.serverCloses == 0 && s.errors == 0
    ensures SharedOk(s, p, p)
  {
  }

  lemma Final(r: Relay)
    requires Invariant(r)
    ensures r.shared.clientCloses <= 1 && r.shared.serverCloses <= 1 && r.shared.waiting >= 0
    ensures r.shared.waiting == 0 <==> ShutDown(r)
    ensures r.shared.waiting == 0 <==> r.toServer.at == Done && r.toClient.at == Done
  {
    var s, p, q := r.shared, r.toServer.at, r.toClient.at;
    assert s.waiting == One(p != Done) + One(q != Done);
    assert s.clientCloses <= One(s.closed) && s.serverCloses <= One(s.closed);
  }

  // ---------------------------------------------------------------- how it ends

  /** How many actions a goroutine has left, at most, once the flag is set. */
  function Rank(p: Point): nat {
    match p
    case Done => 0
    case Finishing => 1
    case Exiting => 2
    case ClosingServer => 2
    case ClosingClient => 3
    case Checking => 3
    case ReadErrorCount => 3
    case Dropping => 3
    case ReadError => 4
    case WriteErrorCount => 4
    case Releasing => 4
    case WriteError => 5
    case Counting => 5
    case Writing => 6
    case Reading => 7
  }

  /** Packets a goroutine has forwarded or may still forward once the flag is set. */
  function Reach(g: Worker): nat {
    g.forwarded + One(g.at == Reading || g.at == Writing || g.at == Counting)
  }

  lemma WorkerAfterClose(g: Worker, answer: Answer)
    requires CanMove(g.at, answer)
    ensures var g' := MoveWorker(g, true, answer);
            Rank(g'.at) < Rank(g.at) && Reach(g') <= Reach(g)
  {
  }

  /**
   * Once the flag is set the relay takes at most fourteen more steps, and each direction forwards at most
   * one more packet.
   */
  lemma {:induction false} RunAfterClose(r: Relay, steps: seq<Step>)
    requires r.shared.closed && IsRun(r, steps)
    ensures |steps| <= Rank(r.toServer.at) + Rank(r.toClient.at) <= 14
    ensures After(r, steps).toServer.forwarded <= Reach(r.toServer) <= r.toServer.forwarded + 1
    ensures After(r, steps).toClient.forwarded <= Reach(r.toClient) <= r.toClient.forwarded + 1
    decreases |steps|
  {
    hide CanMove, Goto;
    if steps != [] {
      WorkerAfterClose(if steps[0].ToServer? then r.toServer else r.toClient, steps[0].answer);
      RunAfterClose(Next(r, steps[0]), steps[1..]);
    }
  }

  /** The relay is stuck exactly when Wait returns: a reachable state has no step left iff it is shut down. */
  lemma StuckExactlyWhenDone(steps: seq<Step>)
    requires IsRun(Started, steps)
    ensures (forall st :: !Enabled(After(Started, steps), st)) <==> ShutDown(After(Started, steps))
  {
    hide After, IsRun, Next, Invariant, SharedOk, WorkerOk, ShutDown;
    var r := After(Started, steps);
    StartedOk();
    RunKeepsInvariant(Started, steps);
    Final(r);
    if forall st :: !Enabled(r, st) {
      assert !Enabled(r, ToServer(Own)) && !Enabled(r, ToServer(Success));
      assert !Enabled(r, ToClient(Own)) && !Enabled(r, ToClient(Success));
    }
  }

  // ---------------------------------------------------------------- what the environment answered

  /**
   * One direction's run from outside: the reads and writes that succeeded, the ones that failed, the times the
   * loop head found the flag set, and the failures whose handler found it unset.
   */
  datatype Log = Log(
    readsOk: nat, writesOk: nat, eofs: nat, readFailures: nat, writeFailures: nat, stops: nat, unforeseen: nat)

  const NoLog := Log(0, 0, 0, 0, 0, 0, 0)

  function Logged(l: Log, p: Point, closed: bool, answer: Answer): Log {
    Log(l.readsOk + One(p == Reading && answer == Success),
        l.writesOk + One(p == Writing && answer == Success),
        l.eofs + One(p == Reading && answer == Failure(true)),
        l.readFailures + One(p == Reading && answer == Failure(false)),
        l.writeFailures + One(p == Writing && answer.Failure?),
        l.stops + One(p == Checking && closed),
        l.unforeseen + One((p == ReadError || p == WriteError) && !closed))
  }

  function Logs(r: Relay, steps: seq<Step>, a: Log, b: Log): (Log, Log)
    requires IsRun(r, steps)
    decreases |steps|
  {
    if steps == [] then (a, b)
    else
      var closed := r.shared.closed;
      match steps[0]
      case ToServer(answer) =>
        Logs(Next(r, steps[0]), steps[1..], Logged(a, r.toServer.at, closed, answer), b)
      case ToClient(answer) =>
        Logs(Next(r, steps[0]), steps[1..], a, Logged(b, r.toClient.at, closed, answer))
  }

  function Failures(l: Log): nat {
    l.eofs + l.readFailures + l.writeFailures
  }

  predicate InLoop(p: Point) {
    p == Checking || p == Reading || p == Writing || p == Counting || p == Releasing
  }

  predicate AboutToCount(p: Point) {
    p == ReadErrorCount || p == WriteErrorCount
  }

  /**
   * A goroutine against its log: every packet read is forwarded unless its write failed, and the loop goes on
   * exactly as long as nothing failed and the flag was not found set.
   */
  predicate Tallies(g: Worker, l: Log) {
    && g.obtained == l.readsOk && g.forwarded + One(g.at == Counting) == l.writesOk
    && l.readsOk == l.writesOk + l.writeFailures + One(g.at == Writing)
    && Failures(l) + l.stops == One(!InLoop(g.at))
    && (g.at == ReadError || g.at == WriteError ==> l.unforeseen == 0)
    && (g.at == ReadError ==> l.readFailures == 1) && (g.at == WriteError ==> l.writeFailures == 1)
    && l.unforeseen <= l.readFailures + l.writeFailures
  }

  /** Errors are the unforeseen failures, and the flag is only ever set because something failed. */
  predicate SharedTallies(s: Shared, p: Point, q: Point, a: Log, b: Log) {
    && s.errors + One(AboutToCount(p)) + One(AboutToCount(q)) == a.unforeseen + b.unforeseen
    && (s.closed || a.stops + b.stops > 0 ==> Failures(a) + Failures(b) > 0)
  }

  lemma WorkerTallies(g: Worker, l: Log, closed: bool, answer: Answer)
    requires CanMove(g.at, answer) && Tallies(g, l)
    ensures Tallies(MoveWorker(g, closed, answer), Logged(l, g.at, closed, answer))
  {
  }

  lemma SharedTally(s: Shared, g: Worker, q: Point, a: Log, b: Log, answer: Answer)
    requires CanMove(g.at, answer) && Tallies(g, a) && SharedTallies(s, g.at, q, a, b)
    ensures SharedTallies(MoveShared(s, g.at), Goto(g.at, s.closed, answer), q,
                          Logged(a, g.at, s.closed, answer), b)
  {
  }

  lemma SharedTalliesSwap(s: Shared, p: Point, q: Point, a: Log, b: Log)
    requires SharedTallies(s, p, q, a, b)
    ensures SharedTallies(s, q, p, b, a)
  {
  }

  predicate AllTallies(r: Relay, a: Log, b: Log) {
    Tallies(r.toServer, a) && Tallies(r.toClient, b) && SharedTallies(r.shared, r.toServer.at, r.toClient.at, a, b)
  }

  lemma StepTallies(r: Relay, st: Step, a: Log, b: Log)
    requires Enabled(r, st) && AllTallies(r, a, b)
    ensures var closed := r.shared.closed;
            if st.ToServer? then AllTallies(Next(r, st), Logged(a, r.toServer.at, closed, st.answer), b)
            else AllTallies(Next(r, st), a, Logged(b, r.toClient.at, closed, st.answer))
  {
    hide Tallies, SharedTallies, Logged, Goto, CanMove, MoveShared;
    var s := r.shared;
    if st.ToServer? {
      WorkerTallies(r.toServer, a, s.closed, st.answer);
      SharedTally(s, r.toServer, r.toClient.at, a, b, st.answer);
    } else {
      var q := r.toClient.at;
      WorkerTallies(r.toClient, b, s.closed, st.answer);
      SharedTalliesSwap(s, r.toServer.at, q, a, b);
      SharedTally(s, r.toClient, r.toServer.at, b, a, st.answer);
      SharedTalliesSwap(MoveShared(s, q), Goto(q, s.closed, st.answer), r.toServer.at,
                        Logged(b, q, s.closed, st.answer), a);
    }
  }

  lemma {:induction false} RunTallies(r: Relay, steps: seq<Step>, a: Log, b: Log)
    requires IsRun(r, steps) && AllTallies(r, a, b)
    ensures var (a', b') := Logs(r, steps, a, b);
            AllTallies(After(r, steps), a', b')
    decreases |steps|
  {
    hide AllTallies, Enabled, Next, Logged;
    if steps != [] {
      StepTallies(r, steps[0], a, b);
      var closed := r.shared.closed;
      match steps[0]
      case ToServer(answer) =>
        RunTallies(Next(r, steps[0]), steps[1..], Logged(a, r.toServer.at, closed, answer), b);
      case ToClient(answer) =>
        RunTallies(Next(r, steps[0]), steps[1..], a, Logged(b, r.toClient.at, closed, answer));
    }
  }

  /**
   * Every run against what the environment answered. In each direction every packet read is forwarded unless
   * its write failed, and the loop is left exactly when something failed in it or it found the flag set; the
   * errors counted are the failures, EOF apart, whose handler found the flag unset; and as long as nothing
   * failed nothing is closed.
   */
  lemma RelayTallies(steps: seq<Step>)
    requires IsRun(Started, steps)
    ensures var r, (a, b) := After(Started, steps), Logs(Started, steps, NoLog, NoLog);
            && Tallies(r.toServer, a) && Tallies(r.toClient, b)
            && r.shared.errors + One(AboutToCount(r.toServer.at)) + One(AboutToCount(r.toClient.at))
               == a.unforeseen + b.unforeseen
            && (Failures(a) + Failures(b) == 0 ==>
                  && !r.shared.closed && r.shared.clientCloses == 0 && r.shared.serverCloses == 0
                  && InLoop(r.toServer.at) && InLoop(r.toClient.at))
  {
    hide *;
    StartedOk();
    NothingYet();
    RunKeepsInvariant(Started, steps);
    RunTallies(Started, steps, NoLog, NoLog);
    var (a, b) := Logs(Started, steps, NoLog, NoLog);
    Tallied(After(Started, steps), a, b);
  }

  lemma NothingYet()
    ensures AllTallies(Started, NoLog, NoLog)
  {
    hide Tallies, SharedTallies;
    TalliesStart(NewWorker, NoLog);
    SharedTalliesStart(Started.shared, Checking, NoLog);
  }

  lemma TalliesStart(g: Worker, l: Log)
    requires g.at == Checking && g.obtained + g.forwarded == 0
    requires l.readsOk + l.writesOk + Failures(l) + l.stops + l.unforeseen == 0
    ensures Tallies(g, l)
  {
  }

  lemma SharedTalliesStart(s: Shared, p: Point, l: Log)
    requires p == Checking && !s.closed && s.errors == 0 && l.stops == l.unforeseen == 0
    ensures SharedTallies(s, p, p, l, l)
  {
  }

  lemma Tallied(r: Relay, a: Log, b: Log)
    requires Invariant(r) && AllTallies(r, a, b)
    ensures Tallies(r.toServer, a) && Tallies(r.toClient, b)
    ensures r.shared.errors + One(AboutToCount(r.toServer.at)) + One(AboutToCount(r.toClient.at))
            == a.unforeseen + b.unforeseen
    ensures Failures(a) + Failures(b) == 0 ==>
              && !r.shared.closed && r.shared.clientCloses == 0 && r.shared.serverCloses == 0
              && InLoop(r.toServer.at) && InLoop(r.toClient.at)
  {
    assert Tallies(r.toServer, a) && Tallies(r.toClient, b);
    var p, q := r.toServer.at, r.toClient.at;
    assert SharedTallies(r.shared, p, q, a, b) && SharedOk(r.shared, p, q);
  }
}
