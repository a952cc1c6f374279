/**
 * The batch writer of conn/batch.go, on values: one step per critical section of its mutex and per move
 * of its timer. The buffer of `size` bytes is a slice of an array of `cap` bytes.
 */
module BatchProtocol {
  import opened Bytes

  datatype Batch = Batch(
    size: nat,            // len(buf)
    cap: nat,             // cap(buf)
    timed: bool,          // flush interval > 0
    content: seq<byte>,   // buf[:buffered]
    closed: bool,
    armed: bool,          // the timer is running
    ticked: bool,         // a tick waits in the timer's channel
    taken: bool,          // the flush loop has received a tick and not yet locked
    out: seq<byte>,       // everything the destination accepted
    room: nat)            // what it will still accept

  predicate Valid(b: Batch) {
    b.size <= b.cap && |b.content| <= b.size && (b.content == [] || |b.content| < b.size / 2)
  }

  function Init(size: nat, cap: nat, timed: bool, room: nat): Batch {
    Batch(size, cap, timed, [], false, false, false, false, [], room)
  }

  /** dst.Write. */
  function Deliver(b: Batch, bytes: seq<byte>): Batch {
    var n := Min(|bytes|, b.room);
    b.(out := b.out + bytes[..n], room := b.room - n)
  }

  predicate Accepts(b: Batch, bytes: seq<byte>) {
    |bytes| <= b.room
  }

  /** Stopping or resetting the timer also removes a tick that nobody received yet. */
  function StopTimer(b: Batch): Batch {
    if b.timed then b.(armed := false, ticked := false) else b
  }

  /** flushLocked: the buffer is emptied even if the destination fails. */
  function FlushLocked(b: Batch): Batch {
    if b.content == [] then b else StopTimer(Deliver(b, b.content).(content := []))
  }

  predicate FlushOk(b: Batch) {
    Accepts(b, b.content)
  }

  datatype Result = Wrote(n: nat) | Closed | Broken(n: nat)

  /** After making room: append what fits the slice, and flush or restart the timer. */
  function Append(b: Batch, data: seq<byte>): (Batch, Result)
    requires |b.content| <= b.size
  {
    var n := Min(|data|, b.size - |b.content|);
    var b1 := b.(content := b.content + data[..n]);
    if |b1.content| >= b.size / 2 then
      (FlushLocked(b1), if FlushOk(b1) then Wrote(|data|) else Broken(n))
    else if b.timed then
      (b1.(armed := true, ticked := false), Wrote(|data|))
    else
      (b1, Wrote(|data|))
  }

  function Write(b: Batch, data: seq<byte>): (Batch, Result)
    requires Valid(b)
  {
    if b.closed then (b, Closed)
    else
      var crowded := |data| > b.cap - |b.content|;
      var b1 := if crowded then FlushLocked(b) else b;
      if crowded && !FlushOk(b) then (b1, Broken(0))
      else if |data| > b.cap then
        (Deliver(b1, data), if Accepts(b1, data) then Wrote(|data|) else Broken(Min(|data|, b1.room)))
      else Append(b1, data)
  }

  function Close(b: Batch): Batch {
    FlushLocked(StopTimer(b.(closed := true)))
  }

  datatype Event =
    | WriteData(data: seq<byte>)
    | Flush
    | Fire          // the timer expires
    | Take          // the flush loop receives the tick
    | Tick          // the flush loop's critical section
    | CloseWriter

  predicate Enabled(b: Batch, ev: Event) {
    match ev
    case Fire => b.armed
    case Take => b.ticked && !b.taken
    case Tick => b.taken
    case _ => true
  }

  function Next(b: Batch, ev: Event): Batch
    requires Valid(b) && Enabled(b, ev)
  {
    match ev
    case WriteData(data) => Write(b, data).0
    case Flush => FlushLocked(b)
    case Fire => b.(armed := false, ticked := true)
    case Take => b.(ticked := false, taken := true)
    case Tick => (if !b.closed && b.content != [] then FlushLocked(b) else b).(taken := false)
    case CloseWriter => Close(b)
  }

  lemma FlushValid(b: Batch)
    requires b.size <= b.cap && |b.content| <= b.size
    ensures Valid(FlushLocked(b)) && SameShape(b, FlushLocked(b)) && FlushLocked(b).closed == b.closed
    ensures FlushLocked(b).content == []
  {
  }

  lemma AppendValid(b: Batch, data: seq<byte>)
    requires Valid(b)
    ensures Valid(Append(b, data).0) && SameShape(b, Append(b, data).0) && Append(b, data).0.closed == b.closed
  {
    hide FlushLocked;
    var b1 := b.(content := b.content + data[..Min(|data|, b.size - |b.content|)]);
    FlushValid(b1);
  }

  predicate SameShape(b: Batch, b': Batch) {
    b'.size == b.size && b'.cap == b.cap && b'.timed == b.timed
  }

  lemma WriteValid(b: Batch, data: seq<byte>)
    requires Valid(b)
    ensures Valid(Write(b, data).0) && SameShape(b, Write(b, data).0) && Write(b, data).0.closed == b.closed
  {
    hide FlushLocked, Append;
    FlushValid(b);
    AppendValid(b, data);
    AppendValid(FlushLocked(b), data);
  }

  lemma StepValid(b: Batch, ev: Event)
    requires Valid(b) && Enabled(b, ev)
    ensures Valid(Next(b, ev)) && SameShape(b, Next(b, ev))
  {
    hide FlushLocked, Write;
    if ev.WriteData? {
      WriteValid(b, ev.data);
    }
    FlushValid(b);
    FlushValid(StopTimer(b.(closed := true)));
  }

  // ---------------------------------------------------------------- one write

  /** Bytes are lost when the room test, made on the array, passes and the slice is too short. */
  predicate Lossy(b: Batch, data: seq<byte>) {
    var c := if |data| > b.cap - |b.content| then 0 else |b.content|;
    !b.closed && |data| <= b.cap && b.size - c < |data|
  }

  /** A write the destination does not fail loses bytes exactly in the lossy case. */
  lemma WriteConservesExactly(b: Batch, data: seq<byte>)
    requires Valid(b) && Write(b, data).1.Wrote?
    ensures Write(b, data).1 == Wrote(|data|)
    ensures var b' := Write(b, data).0;
            b'.out + b'.content == b.out + b.content + data <==> !Lossy(b, data)
  {
    var n := Kept(b, data);
    WriteMoves(b, data);
    hide Write;
    if n < |data| {
      assert |b.out + b.content + data[..n]| < |b.out + b.content + data|;
    } else {
      assert data[..n] == data;
    }
  }

  /**
   * Such writes happen: on any buffer whose array is longer than asked for, the first write of more than the
   * buffer's size and at most the array's reports success and keeps only the buffer's size.
   */
  lemma LossyWrite(size: nat, cap: nat, timed: bool, room: nat, data: seq<byte>)
    requires size < |data| <= cap && size <= room
    ensures var b := Init(size, cap, timed, room);
            && Valid(b) && Lossy(b, data) && Write(b, data).1 == Wrote(|data|)
            && Write(b, data).0.out + Write(b, data).0.content == data[..size]
  {
    var b := Init(size, cap, timed, room);
    var full := b.(content := b.content + data[..size]);
    assert full.content == data[..size];
    assert Write(b, data) == Append(b, data);
    if size == 0 {
      assert data[..size] == [];
    }
  }

  /** The write fits the buffer as it stands, or an emptied one, or goes past it. */
  predicate Fits(b: Batch, data: seq<byte>) {
    || |data| > b.cap
    || |b.content| + |data| <= b.size
    || (|b.content| + |data| > b.cap && |data| <= b.size)
  }

  /**
   * Below half the buffer's size nothing leaves, on sizes alone: the data joins what is buffered and the timer,
   * if there is one, starts anew.
   */
  lemma WriteHeld(b: Batch, data: seq<byte>)
    requires Valid(b) && !b.closed && |b.content| + |data| < b.size / 2
    ensures Write(b, data) == (b.(content := b.content + data, armed := b.armed || b.timed,
                                  ticked := b.ticked && !b.timed),
                               Wrote(|data|))
  {
    hide FlushLocked;
    assert data[..|data|] == data;
  }

  /**
   * From half the buffer's size on everything leaves, what was buffered first, and the timer stops if the
   * buffer had a part in it.
   */
  lemma WriteSent(b: Batch, data: seq<byte>)
    requires Valid(b) && !b.closed && Fits(b, data)
    requires b.size / 2 <= |b.content| + |data| <= b.room
    ensures var stops := b.timed && (b.content != [] || 0 < |data| <= b.cap);
            Write(b, data) == (b.(content := [], out := b.out + b.content + data,
                                  room := b.room - |b.content| - |data|,
                                  armed := b.armed && !stops, ticked := b.ticked && !stops),
                               Wrote(|data|))
  {
    hide Append;
    FlushExactly(b);
    var b1 := FlushLocked(b);
    hide FlushLocked;
    assert b.out + [] == b.out;
    if |data| > b.cap {
      assert data[..|data|] == data;
    } else if |data| > b.cap - |b.content| {
      assert b.out + b.content + [] == b.out + b.content;
      AppendSent(b1, data);
    } else {
      AppendSent(b, data);
    }
  }

  lemma AppendSent(b: Batch, data: seq<byte>)
    requires |b.content| <= b.size && b.size / 2 <= |b.content| + |data| <= b.size
    requires |b.content| + |data| <= b.room
    ensures var stops := b.timed && (b.content != [] || data != []);
            Append(b, data) == (b.(content := [], out := b.out + b.content + data,
                                   room := b.room - |b.content| - |data|,
                                   armed := b.armed && !stops, ticked := b.ticked && !stops),
                                Wrote(|data|))
  {
    assert data[..|data|] == data;
    var b1 := b.(content := b.content + data);
    FlushExactly(b1);
    assert Append(b, data) == (FlushLocked(b1), Wrote(|data|));
    hide FlushLocked, FlushOk, Append;
    assert b1.content == [] <==> b.content == [] && data == [] by { assert |b1.content| == |b.content| + |data|; }
    assert b.out + (b.content + data) == b.out + b.content + data;
    assert b1.content == [] ==> b.out + b1.content == b.out;
  }

  /** Both, in the fields a caller sees. */
  lemma WriteBySize(b: Batch, data: seq<byte>)
    requires Valid(b) && !b.closed
    ensures |b.content| + |data| < b.size / 2 ==>
              var (b', r) := Write(b, data);
              && r == Wrote(|data|) && b'.out == b.out && b'.room == b.room && b'.content == b.content + data
              && (b.timed ==> b'.armed && !b'.ticked)
    ensures b.size / 2 <= |b.content| + |data| <= b.room && Fits(b, data) ==>
              var (b', r) := Write(b, data);
              r == Wrote(|data|) && b'.out == b.out + b.content + data && b'.content == []
  {
    hide Write, Fits;
    if |b.content| + |data| < b.size / 2 {
      WriteHeld(b, data);
    } else if |b.content| + |data| <= b.room && Fits(b, data) {
      WriteSent(b, data);
    }
  }

  lemma AppendBySize(b: Batch, data: seq<byte>)
    requires |b.content| <= b.size <= b.cap
    ensures |b.content| + |data| < b.size / 2 ==>
              var (b', r) := Append(b, data);
              && r == Wrote(|data|) && b'.out == b.out && b'.room == b.room && b'.content == b.content + data
              && (b.timed ==> b'.armed && !b'.ticked)
    ensures b.size / 2 <= |b.content| + |data| <= b.size && |b.content| + |data| <= b.room ==>
              var (b', r) := Append(b, data);
              r == Wrote(|data|) && b'.out == b.out + b.content + data && b'.content == []
  {
    hide FlushLocked;
    assert data[..|data|] == data;
    if b.size / 2 <= |b.content| + |data| <= b.size && |b.content| + |data| <= b.room {
      AppendSent(b, data);
    }
  }

  /** A flush the destination takes: all of the buffer, in one piece, and the timer stops; an empty one is no flush. */
  lemma FlushExactly(b: Batch)
    requires |b.content| <= b.room
    ensures FlushOk(b)
    ensures b.content == [] ==> FlushLocked(b) == b
    ensures b.content != [] ==>
              FlushLocked(b) == b.(content := [], out := b.out + b.content, room := b.room - |b.content|,
                                   armed := b.armed && !b.timed, ticked := b.ticked && !b.timed)
  {
    assert b.content[..|b.content|] == b.content;
  }

  /**
   * A write the destination fails. It took what it had room for, of the buffered bytes and then the data; what
   * it did not take is gone, and nothing is left in the buffer.
   */
  lemma WriteFails(b: Batch, data: seq<byte>)
    requires Valid(b) && Write(b, data).1.Broken?
    ensures !b.closed && b.room < |b.content| + |data|
    ensures var b' := Write(b, data).0;
            b'.content == [] && b'.room == 0 && b'.out == b.out + (b.content + data)[..b.room]
  {
    if |data| <= b.cap - |b.content| {
      hide Append;
      AppendFails(b, data);
    } else if FlushOk(b) {
      FlushExactly(b);
      hide FlushLocked, Append, FlushOk;
      SecondFails(b, FlushLocked(b), data);
    } else {
      hide Append;
      assert (b.content + data)[..b.room] == b.content[..b.room];
    }
  }

  lemma SecondFails(b: Batch, b1: Batch, data: seq<byte>)
    requires b1.content == [] && b1.out == b.out + b.content && b.room == b1.room + |b.content|
    ensures |data| > b1.room ==>
              && Deliver(b1, data).room == 0
              && Deliver(b1, data).out == b.out + (b.content + data)[..b.room]
    ensures Append(b1, data).1.Broken? ==>
              var b' := Append(b1, data).0;
              && b1.room < |data| && b'.content == [] && b'.room == 0
              && b'.out == b.out + (b.content + data)[..b.room]
  {
    hide Append;
    var n := b1.room;
    if |data| > n {
      assert (b.content + data)[..b.room] == b.content + data[..n];
      assert b.out + (b.content + data[..n]) == b.out + b.content + data[..n];
      assert ([] + data)[..n] == data[..n];
    }
    if Append(b1, data).1.Broken? {
      AppendFails(b1, data);
    }
  }

  lemma AppendFails(b: Batch, data: seq<byte>)
    requires |b.content| <= b.size && Append(b, data).1.Broken?
    ensures b.room < |b.content| + |data|
    ensures var b' := Append(b, data).0;
            b'.content == [] && b'.room == 0 && b'.out == b.out + (b.content + data)[..b.room]
  {
    var n := Min(|data|, b.size - |b.content|);
    assert (b.content + data[..n])[..b.room] == (b.content + data)[..b.room];
  }

  /**
   * Flush, Close and a tick of the flush loop on an open writer all empty the buffer into the destination; a
   * tick on a closed one does nothing.
   */
  lemma FlushingEvents(b: Batch, ev: Event)
    requires Valid(b) && Enabled(b, ev) && |b.content| <= b.room
    ensures ev.Flush? || ev.CloseWriter? || (ev.Tick? && !b.closed) ==>
              && Next(b, ev).content == [] && Next(b, ev).out == b.out + b.content
              && Next(b, ev).room == b.room - |b.content|
              && (b.timed && (ev.CloseWriter? || b.content != []) ==> !Next(b, ev).armed && !Next(b, ev).ticked)
    ensures ev.Tick? ==> !Next(b, ev).taken && (b.closed ==> Next(b, ev) == b.(taken := false))
    ensures ev.Fire? ==> Next(b, ev) == b.(armed := false, ticked := true)
    ensures ev.Take? ==> Next(b, ev) == b.(ticked := false, taken := true)
    ensures Next(b, ev).closed == (b.closed || ev.CloseWriter?)
  {
    hide Write;
    FlushExactly(b);
    FlushExactly(StopTimer(b.(closed := true)));
    hide FlushLocked;
    if ev.WriteData? { WriteValid(b, ev.data); }
    assert b.out + [] == b.out;
  }

  /** How many bytes of the data a successful write keeps. */
  function Kept(b: Batch, data: seq<byte>): (n: nat)
    requires Valid(b)
    ensures n <= |data|
  {
    if |data| > b.cap then |data|
    else Min(|data|, b.size - (if |data| > b.cap - |b.content| then 0 else |b.content|))
  }

  lemma WriteMoves(b: Batch, data: seq<byte>)
    requires Valid(b) && Write(b, data).1.Wrote?
    ensures var b' := Write(b, data).0;
            b'.out + b'.content == b.out + b.content + data[..Kept(b, data)]
    ensures !b.closed && Write(b, data).1 == Wrote(|data|)
  {
    hide FlushLocked, Append;
    var b1 := if |data| > b.cap - |b.content| then FlushLocked(b) else b;
    if |data| > b.cap - |b.content| {
      FlushMoves(b);
    }
    FlushValid(b);
    if |data| > b.cap {
      assert data[..Min(|data|, b1.room)] == data;
      assert b1.content == [];
    } else {
      AppendMoves(b1, data);
    }
  }

  lemma AppendMoves(b: Batch, data: seq<byte>)
    requires |b.content| <= b.size && Append(b, data).1.Wrote?
    ensures var b' := Append(b, data).0;
            b'.out + b'.content == b.out + b.content + data[..Min(|data|, b.size - |b.content|)]
    ensures Append(b, data).1 == Wrote(|data|)
  {
    hide FlushLocked;
    var x := data[..Min(|data|, b.size - |b.content|)];
    var b1 := b.(content := b.content + x);
    if FlushOk(b1) {
      FlushMoves(b1);
    }
    assert b.out + (b.content + x) == (b.out + b.content) + x;
  }

  lemma FlushMoves(b: Batch)
    requires FlushOk(b)
    ensures var b' := FlushLocked(b);
            && b'.out + b'.content == b.out + b.content && b'.content == []
            && b'.room == b.room - |b.content|
  {
    assert b.content[..|b.content|] == b.content;
  }

  /** A buffer that fills its array never loses a byte, and neither does one that only gets short writes. */
  lemma NotLossy(b: Batch, data: seq<byte>)
    requires Valid(b)
    requires b.size == b.cap || |data| <= b.size - b.size / 2
    ensures !Lossy(b, data)
  {
  }

  // ---------------------------------------------------------------- every run

  predicate IsRun(b: Batch, evs: seq<Event>)
    requires Valid(b)
    decreases |evs|
  {
    evs == [] ||
    (Enabled(b, evs[0]) &&
     (StepValid(b, evs[0]);
      IsRun(Next(b, evs[0]), evs[1..])))
  }

  function After(b: Batch, evs: seq<Event>): (b': Batch)
    requires Valid(b) && IsRun(b, evs)
    ensures Valid(b')
    decreases |evs|
  {
    if evs == [] then b
    else
      StepValid(b, evs[0]);
      After(Next(b, evs[0]), evs[1..])
  }

  /** The destination does not fail in this step, and a write in it fits. */
  predicate Smooth(b: Batch, ev: Event)
    requires Valid(b)
  {
    Reliable(b, ev) && (ev.WriteData? ==> !Lossy(b, ev.data))
  }

  predicate AllSmooth(b: Batch, evs: seq<Event>)
    requires Valid(b) && IsRun(b, evs)
    decreases |evs|
  {
    evs == [] ||
    (Smooth(b, evs[0]) &&
     (StepValid(b, evs[0]);
      AllSmooth(Next(b, evs[0]), evs[1..])))
  }

  /** The data of a write that reported success. */
  function AcceptedIn(b: Batch, ev: Event): seq<byte>
    requires Valid(b)
  {
    if ev.WriteData? && Write(b, ev.data).1.Wrote? then ev.data else []
  }

  function Accepted(b: Batch, evs: seq<Event>): seq<byte>
    requires Valid(b) && IsRun(b, evs)
    decreases |evs|
  {
    if evs == [] then []
    else
      StepValid(b, evs[0]);
      AcceptedIn(b, evs[0]) + Accepted(Next(b, evs[0]), evs[1..])
  }

  lemma StepConserves(b: Batch, ev: Event)
    requires Valid(b) && Enabled(b, ev) && Smooth(b, ev)
    ensures var b' := Next(b, ev);
            b'.out + b'.content == b.out + b.content + AcceptedIn(b, ev)
  {
    hide FlushLocked, Append;
    match ev
    case WriteData(data) =>
      if Write(b, data).1.Wrote? {
        WriteConservesExactly(b, data);
      } else {
        WriteRefused(b, data);
      }
    case Flush => FlushMoves(b);
    case Tick => if !b.closed { FlushMoves(b); }
    case CloseWriter => FlushMoves(StopTimer(b.(closed := true)));
    case _ =>
  }

  lemma WriteRefused(b: Batch, data: seq<byte>)
    requires Valid(b) && Write(b, data).1.Closed?
    ensures Write(b, data).0 == b && b.closed
  {
  }

  lemma {:induction false} RunConserves(b: Batch, evs: seq<Event>)
    requires Valid(b) && IsRun(b, evs) && AllSmooth(b, evs)
    ensures After(b, evs).out + After(b, evs).content == b.out + b.content + Accepted(b, evs)
    decreases |evs|
  {
    hide Next, Smooth, AcceptedIn, Valid, Enabled;
    if evs == [] {
      assert b.out + b.content + [] == b.out + b.content;
    } else {
      StepValid(b, evs[0]);
      StepConserves(b, evs[0]);
      var b' := Next(b, evs[0]);
      RunConserves(b', evs[1..]);
      var x, y, z := b.out + b.content, AcceptedIn(b, evs[0]), Accepted(b', evs[1..]);
      assert (x + y) + z == x + (y + z);
    }
  }

  /**
   * Conservation. Over every interleaving of writes, flushes, timer moves and closes in which the
   * destination does not fail and no write is lossy, what was delivered followed by what is buffered
   * is the concatenation of the accepted writes.
   */
  lemma BatchConservation(size: nat, cap: nat, timed: bool, room: nat, evs: seq<Event>)
    requires size <= cap
    requires IsRun(Init(size, cap, timed, room), evs) && AllSmooth(Init(size, cap, timed, room), evs)
    ensures var b := After(Init(size, cap, timed, room), evs);
            b.out + b.content == Accepted(Init(size, cap, timed, room), evs)
  {
    var b := Init(size, cap, timed, room);
    RunConserves(b, evs);
    assert b.out + b.content + Accepted(b, evs) == Accepted(b, evs);
  }

  /** The destination does not fail in this step. */
  predicate Reliable(b: Batch, ev: Event)
    requires Valid(b)
  {
    match ev
    case WriteData(data) => !Write(b, data).1.Broken?
    case Flush => FlushOk(b)
    case Tick => b.closed || FlushOk(b)
    case CloseWriter => FlushOk(b)
    case _ => true
  }

  predicate AllReliable(b: Batch, evs: seq<Event>)
    requires Valid(b) && IsRun(b, evs)
    decreases |evs|
  {
    evs == [] ||
    (Reliable(b, evs[0]) &&
     (StepValid(b, evs[0]);
      AllReliable(Next(b, evs[0]), evs[1..])))
  }

  /** A write of at most half the buffer, rounded up. */
  predicate AtMostHalf(ev: Event, size: nat) {
    ev.WriteData? ==> |ev.data| <= size - size / 2
  }

  lemma {:induction false} ReliableIsSmooth(b: Batch, evs: seq<Event>)
    requires Valid(b) && IsRun(b, evs) && AllReliable(b, evs)
    requires b.size == b.cap || forall ev :: ev in evs ==> AtMostHalf(ev, b.size)
    ensures AllSmooth(b, evs)
    decreases |evs|
  {
    hide Next, Valid, Enabled, Write, Lossy;
    if evs != [] {
      StepValid(b, evs[0]);
      assert evs[0] in evs;
      if evs[0].WriteData? { NotLossy(b, evs[0].data); }
      ReliableIsSmooth(Next(b, evs[0]), evs[1..]);
    }
  }

  /**
   * Conservation on what a caller can see to: a destination that does not fail, and a buffer as long as its
   * array or writes of at most half the buffer.
   */
  lemma ReliableConservation(size: nat, cap: nat, timed: bool, room: nat, evs: seq<Event>)
    requires size <= cap && IsRun(Init(size, cap, timed, room), evs) && AllReliable(Init(size, cap, timed, room), evs)
    requires size == cap || forall ev :: ev in evs ==> AtMostHalf(ev, size)
    ensures var b := After(Init(size, cap, timed, room), evs);
            b.out + b.content == Accepted(Init(size, cap, timed, room), evs)
  {
    hide IsRun, After, Accepted, AllReliable, AllSmooth, AtMostHalf;
    ReliableIsSmooth(Init(size, cap, timed, room), evs);
    BatchConservation(size, cap, timed, room, evs);
  }

  /** Once closed, always closed; the buffer is empty and nothing more is delivered. */
  lemma ClosedStep(b: Batch, ev: Event)
    requires Valid(b) && Enabled(b, ev) && b.closed && b.content == []
    ensures var b' := Next(b, ev);
            b'.closed && b'.content == [] && b'.out == b.out && b'.room == b.room
  {
  }

  lemma {:induction false} ClosedStays(b: Batch, evs: seq<Event>)
    requires Valid(b) && b.closed && b.content == [] && IsRun(b, evs)
    ensures After(b, evs).out == b.out && After(b, evs).closed
    decreases |evs|
  {
    hide Next, Valid, Enabled;
    if evs != [] {
      StepValid(b, evs[0]);
      ClosedStep(b, evs[0]);
      ClosedStays(Next(b, evs[0]), evs[1..]);
    }
  }

  /** A closed writer holds nothing back. */
  predicate Emptied(b: Batch) {
    b.closed ==> b.content == []
  }

  lemma StepKeepsEmptied(b: Batch, ev: Event)
    requires Valid(b) && Enabled(b, ev) && Emptied(b)
    ensures Emptied(Next(b, ev))
  {
    hide Write;
    if ev.WriteData? {
      WriteValid(b, ev.data);
      if b.closed { ClosedStep(b, ev); }
    }
  }

  lemma {:induction false} RunKeepsEmptied(b: Batch, evs: seq<Event>)
    requires Valid(b) && Emptied(b) && IsRun(b, evs)
    ensures Emptied(After(b, evs))
    decreases |evs|
  {
    hide Next, Valid, Enabled, Emptied;
    if evs != [] {
      StepValid(b, evs[0]);
      StepKeepsEmptied(b, evs[0]);
      RunKeepsEmptied(Next(b, evs[0]), evs[1..]);
    }
  }

  /**
   * Whatever happened before, and whatever failed: a writer that is closed at some point of its life holds
   * nothing then, and delivers nothing and stays closed ever after.
   */
  lemma NothingAfterClose(size: nat, cap: nat, timed: bool, room: nat, before: seq<Event>, after: seq<Event>)
    requires size <= cap && IsRun(Init(size, cap, timed, room), before)
    requires var b := After(Init(size, cap, timed, room), before);
             b.closed && IsRun(b, after)
    ensures var b := After(Init(size, cap, timed, room), before);
            b.content == [] && After(b, after).out == b.out && After(b, after).closed
  {
    hide IsRun, After, Valid;
    InitValid(size, cap, timed, room);
    RunKeepsEmptied(Init(size, cap, timed, room), before);
    ClosedStays(After(Init(size, cap, timed, room), before), after);
  }

  lemma InitValid(size: nat, cap: nat, timed: bool, room: nat)
    requires size <= cap
    ensures Valid(Init(size, cap, timed, room))
  {
  }

  lemma CloseEmpties(b: Batch)
    requires Valid(b)
    ensures Close(b).closed && Close(b).content == []
  {
  }

  /** With a flush interval, buffered bytes are never forgotten: a timer runs, or a tick is under way. */
  predicate WillFlush(b: Batch) {
    b.timed && !b.closed && b.content != [] ==> b.armed || b.ticked || b.taken
  }

  lemma StepKeepsTimer(b: Batch, ev: Event)
    requires Valid(b) && Enabled(b, ev) && WillFlush(b)
    ensures WillFlush(Next(b, ev))
  {
    hide Write;
    if ev.WriteData? {
      WriteKeepsTimer(b, ev.data);
    }
  }

  lemma WriteKeepsTimer(b: Batch, data: seq<byte>)
    requires Valid(b) && WillFlush(b)
    ensures WillFlush(Write(b, data).0)
  {
    hide FlushLocked;
    FlushValid(b);
    var b1 := if |data| > b.cap - |b.content| then FlushLocked(b) else b;
    var b2 := b1.(content := b1.content + data[..Min(|data|, b1.size - |b1.content|)]);
    FlushValid(b2);
  }

  lemma {:induction false} RunKeepsTimer(b: Batch, evs: seq<Event>)
    requires Valid(b) && IsRun(b, evs) && WillFlush(b)
    ensures WillFlush(After(b, evs))
    decreases |evs|
  {
    hide Next, Valid, Enabled, WillFlush;
    if evs != [] {
      StepValid(b, evs[0]);
      StepKeepsTimer(b, evs[0]);
      RunKeepsTimer(Next(b, evs[0]), evs[1..]);
    }
  }

  /** In every run of a new writer with a flush interval. */
  lemma BufferedIsTimed(size: nat, cap: nat, timed: bool, room: nat, evs: seq<Event>)
    requires size <= cap && IsRun(Init(size, cap, timed, room), evs)
    ensures WillFlush(After(Init(size, cap, timed, room), evs))
  {
    hide IsRun, After, Valid;
    InitValid(size, cap, timed, room);
    RunKeepsTimer(Init(size, cap, timed, room), evs);
  }
}
