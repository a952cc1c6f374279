/**
 * The byte accounting of conn/flow.go. `FlowController` is the object as one caller sees it; `System`
 * is the same counter under any number of interleaved callers, whose check and addition are separate steps.
 */
module Flow {
  import opened Bytes

  function Total(amounts: seq<nat>): nat {
    if amounts == [] then 0 else amounts[0] + Total(amounts[1..])
  }

  function Net(changes: seq<int>): int {
    if changes == [] then 0 else changes[0] + Net(changes[1..])
  }

  /** The counter when the wait ends: after the first changes by others that leave it below the limit, if any do. */
  function AfterWait(current: int, maxBytes: int, changes: seq<int>): (c: Option<int>)
    ensures c.Some? ==> c.value < maxBytes
    decreases |changes|
  {
    if current < maxBytes then Some(current)
    else if changes == [] then None
    else AfterWait(current + changes[0], maxBytes, changes[1..])
  }

  /** The wait ends at the first look that finds the counter below the limit, and never if none does. */
  lemma {:induction false} AfterWaitExactly(current: int, maxBytes: int, changes: seq<int>) returns (i: nat)
    ensures i <= |changes| && forall j :: 0 <= j < i ==> current + Net(changes[..j]) >= maxBytes
    ensures var now := current + Net(changes[..i]);
            if now < maxBytes then AfterWait(current, maxBytes, changes) == Some(now)
            else AfterWait(current, maxBytes, changes) == None && i == |changes|
    decreases |changes|
  {
    if current < maxBytes || changes == [] {
      i := 0;
    } else {
      var rest := changes[1..];
      var k := AfterWaitExactly(current + changes[0], maxBytes, rest);
      forall j | 0 < j <= k + 1
        ensures Net(changes[..j]) == changes[0] + Net(rest[..j - 1])
      {
        assert changes[..j][1..] == rest[..j - 1];
      }
      i := k + 1;
    }
  }

  class FlowController {
    const maxBytes: int
    var current: int

    constructor (maxBytes: int)
      ensures this.maxBytes == maxBytes && current == 0
    {
      this.maxBytes, this.current := maxBytes, 0;
    }

    /**
     * Acquire. The wait loop looks again whenever it is woken; `changes` is what other goroutines do to the
     * counter before each look, releases and additions taken together. If it is never woken with the counter
     * below the limit, it waits for ever.
     */
    method Acquire(size: nat, changes: seq<int>) returns (granted: bool)
      modifies this
      ensures granted == AfterWait(old(current), maxBytes, changes).Some?
      ensures granted ==> current == AfterWait(old(current), maxBytes, changes).value + size
      ensures !granted ==> current == old(current) + Net(changes)
    {
      var i := 0;
      while current >= maxBytes
        invariant 0 <= i <= |changes|
        invariant AfterWait(old(current), maxBytes, changes) == AfterWait(current, maxBytes, changes[i..])
        invariant current == old(current) + Net(changes) - Net(changes[i..])
        decreases |changes| - i
      {
        if i == |changes| {
          return false;
        }
        assert changes[i..][1..] == changes[i + 1..];
        current := current + changes[i];
        i := i + 1;
      }
      current := current + size;
      granted := true;
    }

    method AcquireNonBlock(size: nat) returns (ok: bool)
      modifies this
      ensures ok <==> old(current) + size <= maxBytes
      ensures current == if ok then old(current) + size else old(current)
    {
      if current + size > maxBytes {
        return false;
      }
      current := current + size;
      ok := true;
    }

    method Release(size: nat)
      modifies this
      ensures current == old(current) - size
    {
      current := current - size;
    }
  }

  // ---------------------------------------------------------------- interleaved callers

  /** Where a caller is: outside, or between its check and its addition. */
  datatype Caller =
    | Idle
    | CheckedLocked(size: nat)   // in Acquire, holding the mutex
    | CheckedFree(size: nat)     // in AcquireNonBlock, no mutex

  /** The counter, the callers, and the grants not yet released; a caller may hold any number of them. */
  datatype System = System(maxBytes: nat, current: int, callers: seq<Caller>, grants: seq<nat>)

  datatype Step =
    | CheckAcquire(k: nat, size: nat)
    | CheckNonBlock(k: nat, size: nat)
    | Add(k: nat)
    | Release(g: nat)

  predicate MutexFree(s: System) {
    forall k :: 0 <= k < |s.callers| ==> !s.callers[k].CheckedLocked?
  }

  predicate IsIdle(s: System, k: nat) {
    k < |s.callers| && s.callers[k] == Idle
  }

  /** Whether the step can be taken now. A check that fails changes nothing and is not a step. */
  predicate Enabled(s: System, st: Step) {
    match st
    case CheckAcquire(k, size) => IsIdle(s, k) && MutexFree(s) && s.current < s.maxBytes
    case CheckNonBlock(k, size) => IsIdle(s, k) && s.current + size <= s.maxBytes
    case Add(k) => k < |s.callers| && s.callers[k] != Idle
    case Release(g) => g < |s.grants|
  }

  function Next(s: System, st: Step): System
    requires Enabled(s, st)
  {
    match st
    case CheckAcquire(k, size) => s.(callers := s.callers[k := CheckedLocked(size)])
    case CheckNonBlock(k, size) => s.(callers := s.callers[k := CheckedFree(size)])
    case Add(k) =>
      var size := s.callers[k].size;
      s.(current := s.current + size, callers := s.callers[k := Idle], grants := s.grants + [size])
    case Release(g) => s.(current := s.current - s.grants[g], grants := s.grants[..g] + s.grants[g + 1..])
  }

  function Init(maxBytes: nat, k: nat): System {
    System(maxBytes, 0, seq(k, _ => Idle), [])
  }

  /** A run that never takes a step that is not enabled. */
  predicate IsRun(s: System, steps: seq<Step>)
    decreases |steps|
  {
    steps == [] || (Enabled(s, steps[0]) && IsRun(Next(s, steps[0]), steps[1..]))
  }

  function After(s: System, steps: seq<Step>): System
    requires IsRun(s, steps)
    decreases |steps|
  {
    if steps == [] then s else After(Next(s, steps[0]), steps[1..])
  }

  /** What a caller is about to add. */
  function Pending(c: Caller): nat {
    if c == Idle then 0 else c.size
  }

  function Pendings(cs: seq<Caller>): nat {
    if cs == [] then 0 else Pending(cs[0]) + Pendings(cs[1..])
  }

  // ---------------------------------------------------------------- sums

  lemma {:induction false} TotalAppend(a: seq<nat>, b: seq<nat>)
    ensures Total(a + b) == Total(a) + Total(b)
  {
    if a == [] {
      assert a + b == b;
    } else {
      TotalAppend(a[1..], b);
      assert (a + b)[1..] == a[1..] + b;
    }
  }

  lemma TotalWithout(a: seq<nat>, g: nat)
    requires g < |a|
    ensures Total(a[..g] + a[g + 1..]) == Total(a) - a[g]
  {
    hide Total;
    var x, y := a[..g], a[g..];
    assert a == x + y;
    TotalAppend(x, y);
    TotalFirst(y);
    assert y[1..] == a[g + 1..];
    TotalAppend(x, y[1..]);
  }

  lemma TotalFirst(a: seq<nat>)
    requires a != []
    ensures Total(a) == a[0] + Total(a[1..])
  {
  }

  lemma {:induction false} PendingsUpdate(cs: seq<Caller>, k: nat, c: Caller)
    requires k < |cs|
    ensures Pendings(cs[k := c]) == Pendings(cs) - Pending(cs[k]) + Pending(c)
  {
    if k == 0 {
      assert cs[k := c][1..] == cs[1..];
    } else {
      PendingsUpdate(cs[1..], k - 1, c);
      assert cs[k := c][1..] == cs[1..][k - 1 := c];
    }
  }

  predicate SizesAtMost(cs: seq<Caller>, size: nat) {
    forall k :: 0 <= k < |cs| ==> Pending(cs[k]) <= size
  }

  lemma {:induction false} PendingsBound(cs: seq<Caller>, size: nat)
    requires SizesAtMost(cs, size)
    ensures Pendings(cs) <= |cs| * size
  {
    if cs != [] {
      PendingsBound(cs[1..], size);
      assert |cs| * size == size + |cs[1..]| * size;
    }
  }

  lemma {:induction false} PendingsZero(cs: seq<Caller>)
    requires forall k :: 0 <= k < |cs| ==> cs[k] == Idle
    ensures Pendings(cs) == 0
  {
    if cs != [] { PendingsZero(cs[1..]); }
  }

  // ---------------------------------------------------------------- the bound

  predicate StepSize(st: Step, size: nat) {
    match st
    case CheckAcquire(_, n) => n <= size
    case CheckNonBlock(_, n) => n <= size
    case _ => true
  }

  /** The counter and all that is about to be added to it. */
  function Load(s: System): int {
    s.current + Pendings(s.callers)
  }

  /** What the step lemmas of the bounds share: the counter is what was granted and not released. */
  ghost predicate Counted(s: System) {
    s.current == Total(s.grants)
  }

  lemma StepKeepsCount(s: System, st: Step)
    requires Counted(s) && Enabled(s, st)
    ensures Counted(Next(s, st))
    ensures st.Add? ==> Load(Next(s, st)) == Load(s)
    ensures st.Release? ==> Load(Next(s, st)) <= Load(s)
    ensures st.CheckAcquire? || st.CheckNonBlock? ==> Load(Next(s, st)) == Load(s) + st.size
  {
    match st
    case CheckAcquire(k, size) => PendingsUpdate(s.callers, k, CheckedLocked(size));
    case CheckNonBlock(k, size) => PendingsUpdate(s.callers, k, CheckedFree(size));
    case Add(k) =>
      PendingsUpdate(s.callers, k, Idle);
      TotalAppend(s.grants, [s.callers[k].size]);
      TotalFirst([s.callers[k].size]);
    case Release(g) => TotalWithout(s.grants, g);
  }

  /** Together with what is about to be added, the counter stays below the limit plus one request per caller. */
  ghost predicate Invariant(s: System, size: nat) {
    && Counted(s) && SizesAtMost(s.callers, size)
    && (Load(s) < s.maxBytes + |s.callers| * size || Load(s) == 0)
  }

  lemma StepKeepsInvariant(s: System, st: Step, size: nat)
    requires Invariant(s, size) && Enabled(s, st) && StepSize(st, size)
    ensures Invariant(Next(s, st), size)
  {
    hide Pendings, Total;
    var s' := Next(s, st);
    StepKeepsCount(s, st);
    if st.CheckAcquire? || st.CheckNonBlock? {
      OthersPending(s.callers, st.k, size);
      assert Load(s') == s.current + Pendings(s.callers) + st.size;
    }
  }

  /** An idle caller leaves the pending additions to the others. */
  lemma OthersPending(cs: seq<Caller>, k: nat, size: nat)
    requires k < |cs| && cs[k] == Idle && SizesAtMost(cs, size)
    ensures Pendings(cs) <= |cs| * size - size
  {
    var c := CheckedFree(size);
    PendingsUpdate(cs, k, c);
    PendingsBound(cs[k := c], size);
  }

  lemma {:induction false} RunKeepsInvariant(s: System, steps: seq<Step>, size: nat)
    requires Invariant(s, size) && IsRun(s, steps) && forall st :: st in steps ==> StepSize(st, size)
    ensures Invariant(After(s, steps), size)
    ensures After(s, steps).maxBytes == s.maxBytes && |After(s, steps).callers| == |s.callers|
    decreases |steps|
  {
    hide Invariant;
    if steps != [] {
      StepKeepsInvariant(s, steps[0], size);
      RunKeepsInvariant(Next(s, steps[0]), steps[1..], size);
    }
  }

  lemma InitCounted(maxBytes: nat, k: nat)
    ensures Counted(Init(maxBytes, k)) && Load(Init(maxBytes, k)) == 0
  {
    PendingsZero(Init(maxBytes, k).callers);
  }

  /**
   * Over every interleaving of k callers asking for at most `size` bytes each, and holding as many grants
   * as they like, the counter equals the outstanding grants and stays below the limit plus k requests,
   * the additions already under way included.
   */
  lemma FlowBound(maxBytes: nat, k: nat, steps: seq<Step>, size: nat)
    requires IsRun(Init(maxBytes, k), steps) && forall st :: st in steps ==> StepSize(st, size)
    ensures var s := After(Init(maxBytes, k), steps);
            && s.current == Total(s.grants) && (s.grants == [] ==> s.current == 0)
            && 0 <= s.current <= Load(s)
            && (Load(s) < maxBytes + k * size || Load(s) == 0)
  {
    InitCounted(maxBytes, k);
    RunKeepsInvariant(Init(maxBytes, k), steps, size);
  }

  // ---------------------------------------------------------------- callers of one kind

  /** Callers that only use Acquire are serialised by its mutex: the overshoot is one request, whatever k. */
  ghost predicate LockedInvariant(s: System, size: nat) {
    && Counted(s)
    && (forall k :: 0 <= k < |s.callers| ==> !s.callers[k].CheckedFree?)
    && (Load(s) < s.maxBytes + size || Load(s) == 0)
  }

  lemma StepKeepsLocked(s: System, st: Step, size: nat)
    requires LockedInvariant(s, size) && Enabled(s, st) && StepSize(st, size) && !st.CheckNonBlock?
    ensures LockedInvariant(Next(s, st), size)
  {
    hide Pendings, Total;
    StepKeepsCount(s, st);
    if st.CheckAcquire? {
      PendingsZero(s.callers);
    }
  }

  lemma {:induction false} RunKeepsLocked(s: System, steps: seq<Step>, size: nat)
    requires LockedInvariant(s, size) && IsRun(s, steps)
    requires forall st :: st in steps ==> StepSize(st, size) && !st.CheckNonBlock?
    ensures LockedInvariant(After(s, steps), size) && After(s, steps).maxBytes == s.maxBytes
    decreases |steps|
  {
    hide LockedInvariant;
    if steps != [] {
      StepKeepsLocked(s, steps[0], size);
      RunKeepsLocked(Next(s, steps[0]), steps[1..], size);
    }
  }

  /** Over every run of Acquire and Release, by any number of callers, the overshoot is below one request. */
  lemma AcquireOnlyBound(maxBytes: nat, k: nat, steps: seq<Step>, size: nat)
    requires IsRun(Init(maxBytes, k), steps)
    requires forall st :: st in steps ==> StepSize(st, size) && !st.CheckNonBlock?
    ensures var s := After(Init(maxBytes, k), steps);
            && s.current == Total(s.grants)
            && (Load(s) < maxBytes + size || Load(s) == 0)
  {
    InitCounted(maxBytes, k);
    RunKeepsLocked(Init(maxBytes, k), steps, size);
  }

  /** Callers that only use AcquireNonBlock: one of them keeps within the limit, the others may not. */
  ghost predicate FreeInvariant(s: System, size: nat) {
    && Counted(s) && SizesAtMost(s.callers, size)
    && Load(s) <= s.maxBytes + |s.callers| * size - size
  }

  lemma StepKeepsFree(s: System, st: Step, size: nat)
    requires FreeInvariant(s, size) && Enabled(s, st) && StepSize(st, size) && !st.CheckAcquire?
    ensures FreeInvariant(Next(s, st), size)
  {
    hide Pendings, Total;
    StepKeepsCount(s, st);
    if st.CheckNonBlock? {
      OthersPending(s.callers, st.k, size);
    }
  }

  lemma {:induction false} RunKeepsFree(s: System, steps: seq<Step>, size: nat)
    requires FreeInvariant(s, size) && IsRun(s, steps)
    requires forall st :: st in steps ==> StepSize(st, size) && !st.CheckAcquire?
    ensures FreeInvariant(After(s, steps), size)
    ensures After(s, steps).maxBytes == s.maxBytes && |After(s, steps).callers| == |s.callers|
    decreases |steps|
  {
    hide FreeInvariant;
    if steps != [] {
      StepKeepsFree(s, steps[0], size);
      RunKeepsFree(Next(s, steps[0]), steps[1..], size);
    }
  }

  /** Over every run of AcquireNonBlock and Release by k callers, the overshoot is at most k - 1 requests. */
  lemma NonBlockBound(maxBytes: nat, k: nat, steps: seq<Step>, size: nat)
    requires k > 0 && IsRun(Init(maxBytes, k), steps)
    requires forall st :: st in steps ==> StepSize(st, size) && !st.CheckAcquire?
    ensures Load(After(Init(maxBytes, k), steps)) <= maxBytes + (k - 1) * size
  {
    InitCounted(maxBytes, k);
    assert (k - 1) * size == k * size - size >= 0;
    RunKeepsFree(Init(maxBytes, k), steps, size);
  }

  // ---------------------------------------------------------------- both bounds are reached

  function Check(k: nat, size: nat, block: bool): Step {
    if block then CheckAcquire(k, size) else CheckNonBlock(k, size)
  }

  /** The steps form a run from s that ends with the counter at `goal`, no request above `size`. */
  ghost predicate Reaches(s: System, steps: seq<Step>, size: nat, block: bool, goal: int) {
    && IsRun(s, steps) && After(s, steps).current == goal
    && forall st :: st in steps ==> StepSize(st, size) && (!block ==> !st.CheckAcquire?)
  }

  lemma Prepend(s: System, st: Step, steps: seq<Step>, size: nat, block: bool, goal: int)
    requires Enabled(s, st) && StepSize(st, size) && (!block ==> !st.CheckAcquire?)
    requires Reaches(Next(s, st), steps, size, block, goal)
    ensures Reaches(s, [st] + steps, size, block, goal)
  {
    assert ([st] + steps)[1..] == steps;
  }

  /** Callers from a on, all past their checks, add one after the other. */
  lemma {:induction false} AddAll(s: System, a: nat, size: nat, block: bool) returns (steps: seq<Step>)
    requires a <= |s.callers| && forall i :: a <= i < |s.callers| ==> s.callers[i] == CheckedFree(size)
    ensures Reaches(s, steps, size, block, s.current + (|s.callers| - a) * size)
    decreases |s.callers| - a
  {
    if a == |s.callers| {
      steps := [];
    } else {
      var later := AddAll(Next(s, Add(a)), a + 1, size, block);
      assert (|s.callers| - a) * size == size + (|s.callers| - a - 1) * size;
      Prepend(s, Add(a), later, size, block, s.current + (|s.callers| - a) * size);
      steps := [Add(a)] + later;
    }
  }

  /** With all others past their checks, caller 0 fills up byte by byte, then asks for the full size once more. */
  lemma {:induction false} FillUp(s: System, size: nat, block: bool) returns (steps: seq<Step>)
    requires 0 < size && 0 < |s.callers| && s.callers[0] == Idle
    requires forall i :: 1 <= i < |s.callers| ==> s.callers[i] == CheckedFree(size)
    requires s.current <= s.maxBytes - if block then 1 else size
    ensures Reaches(s, steps, size, block, s.maxBytes - (if block then 1 else size) + |s.callers| * size)
    decreases s.maxBytes - s.current
  {
    var full := s.maxBytes - if block then 1 else size;
    var n := if s.current == full then size else 1;
    var s1 := Next(s, Check(0, n, block));
    var s2 := Next(s1, Add(0));
    var later;
    if s.current == full {
      later := AddAll(s2, 1, size, block);
      assert |s.callers| * size == size + (|s.callers| - 1) * size;
    } else {
      later := FillUp(s2, size, block);
    }
    var goal := full + |s.callers| * size;
    Prepend(s1, Add(0), later, size, block, goal);
    Prepend(s, Check(0, n, block), [Add(0)] + later, size, block, goal);
    steps := [Check(0, n, block)] + ([Add(0)] + later);
  }

  /** The callers from c on pass the non-blocking check while nothing is granted. */
  lemma {:induction false} CheckRest(s: System, c: nat, size: nat, block: bool) returns (steps: seq<Step>)
    requires 0 < size <= s.maxBytes && s.current == 0 && 1 <= c <= |s.callers| && s.callers[0] == Idle
    requires forall i :: 1 <= i < c ==> s.callers[i] == CheckedFree(size)
    requires forall i :: c <= i < |s.callers| ==> s.callers[i] == Idle
    ensures Reaches(s, steps, size, block, s.maxBytes - (if block then 1 else size) + |s.callers| * size)
    decreases |s.callers| - c
  {
    if c == |s.callers| {
      steps := FillUp(s, size, block);
    } else {
      var st := CheckNonBlock(c, size);
      var later := CheckRest(Next(s, st), c + 1, size, block);
      Prepend(s, st, later, size, block, s.maxBytes - (if block then 1 else size) + |s.callers| * size);
      steps := [st] + later;
    }
  }

  /**
   * For every limit, number of callers and request size up to the limit there is a run that takes the
   * counter itself to the last value the bound of mixed callers allows, and one without Acquire that
   * takes it to the bound of non-blocking callers.
   */
  lemma BoundsAreReached(maxBytes: nat, k: nat, size: nat, block: bool) returns (steps: seq<Step>)
    requires k > 0 && 0 < size <= maxBytes
    ensures IsRun(Init(maxBytes, k), steps)
    ensures forall st :: st in steps ==> StepSize(st, size) && (!block ==> !st.CheckAcquire?)
    ensures After(Init(maxBytes, k), steps).current ==
            if block then maxBytes + k * size - 1 else maxBytes + (k - 1) * size
  {
    assert (k - 1) * size == k * size - size;
    steps := CheckRest(Init(maxBytes, k), 1, size, block);
  }
}
