/** The multi-level queue of conn/priority.go, against one list of items in order of arrival. */
module Priority {
  import opened Bytes
  import opened PacketFormat

  datatype Item = Item(data: Packet, priority: nat, size: nat)

  /** Priorities beyond the last level share it. */
  function Level(x: Item, levels: nat): (l: nat)
    requires levels > 0
    ensures l < levels
  {
    if x.priority >= levels then levels - 1 else x.priority
  }

  // ---------------------------------------------------------------- the reference: a list in arrival order

  function AtLevel(q: seq<Item>, l: nat, levels: nat): seq<Item>
    requires levels > 0
  {
    if q == [] then [] else IfLevel(q[0], l, levels) + AtLevel(q[1..], l, levels)
  }

  function IfLevel(x: Item, l: nat, levels: nat): seq<Item>
    requires levels > 0
  {
    if Level(x, levels) == l then [x] else []
  }

  /** Item k is the oldest of the lowest non-empty level. */
  ghost predicate IsNext(q: seq<Item>, k: nat, levels: nat)
    requires levels > 0
  {
    && k < |q|
    && (forall j :: 0 <= j < |q| ==> Level(q[k], levels) <= Level(q[j], levels))
    && (forall j :: 0 <= j < k ==> Level(q[k], levels) < Level(q[j], levels))
  }

  /**
   * On the priorities themselves: no item waits with a lower one, and none that came earlier has an equal one,
   * where priorities from the last level on are all the same.
   */
  ghost predicate LowestAndOldest(q: seq<Item>, k: nat, levels: nat) {
    && k < |q|
    && (forall j :: 0 <= j < |q| ==> Min(q[k].priority, levels - 1) <= Min(q[j].priority, levels - 1))
    && (forall j :: 0 <= j < k ==> Min(q[k].priority, levels - 1) < Min(q[j].priority, levels - 1))
  }

  lemma NextIsLowest(q: seq<Item>, levels: nat)
    requires levels > 0
    ensures forall k: nat :: IsNext(q, k, levels) <==> LowestAndOldest(q, k, levels)
  {
    assert forall j :: 0 <= j < |q| ==> Level(q[j], levels) == Min(q[j].priority, levels - 1);
  }

  lemma NextIsUnique(q: seq<Item>, j: nat, k: nat, levels: nat)
    requires levels > 0 && IsNext(q, j, levels) && IsNext(q, k, levels)
    ensures j == k
  {
    assert Level(q[j], levels) <= Level(q[k], levels) <= Level(q[j], levels);
  }

  lemma {:induction false} AtLevelAppend(a: seq<Item>, b: seq<Item>, l: nat, levels: nat)
    requires levels > 0
    ensures AtLevel(a + b, l, levels) == AtLevel(a, l, levels) + AtLevel(b, l, levels)
  {
    if a == [] {
      assert a + b == b;
    } else {
      hide IfLevel;
      var c := a + b;
      assert c[0] == a[0] && c[1..] == a[1..] + b;
      AtLevelAppend(a[1..], b, l, levels);
      Assoc(IfLevel(a[0], l, levels), AtLevel(a[1..], l, levels), AtLevel(b, l, levels));
    }
  }

  lemma {:induction false} AtLevelEmpty(q: seq<Item>, l: nat, levels: nat)
    requires levels > 0
    ensures AtLevel(q, l, levels) == [] <==> forall j :: 0 <= j < |q| ==> Level(q[j], levels) != l
  {
    if q != [] {
      AtLevelEmpty(q[1..], l, levels);
      assert forall j :: 0 < j < |q| ==> q[j] == q[1..][j - 1];
    }
  }

  /** The first item of a level, by position in the arrival list. */
  lemma {:induction false} FirstOfLevel(q: seq<Item>, l: nat, levels: nat) returns (k: nat)
    requires levels > 0 && AtLevel(q, l, levels) != []
    ensures k < |q| && Level(q[k], levels) == l && q[k] == AtLevel(q, l, levels)[0]
    ensures forall j :: 0 <= j < k ==> Level(q[j], levels) != l
  {
    if Level(q[0], levels) == l {
      k := 0;
    } else {
      var k' := FirstOfLevel(q[1..], l, levels);
      k := k' + 1;
      assert forall j :: 0 < j < k ==> q[j] == q[1..][j - 1];
    }
  }

  /** Taking the first item of a level out of the arrival list takes it off that level and no other. */
  lemma AtLevelWithout(q: seq<Item>, k: nat, l: nat, levels: nat)
    requires levels > 0 && k < |q|
    requires forall j :: 0 <= j < k ==> Level(q[j], levels) != Level(q[k], levels)
    ensures if l == Level(q[k], levels)
            then AtLevel(q, l, levels) == [q[k]] + AtLevel(Without(q, k), l, levels)
            else AtLevel(q, l, levels) == AtLevel(Without(q, k), l, levels)
  {
    hide AtLevel;
    var a, x, b := q[..k], [q[k]], q[k + 1..];
    assert q == a + (x + b);
    AtLevelAppend(a, x + b, l, levels);
    AtLevelAppend(x, b, l, levels);
    AtLevelAppend(a, b, l, levels);
    AtLevelOne(q[k], l, levels);
    if l == Level(q[k], levels) {
      AtLevelEmpty(a, l, levels);
      assert AtLevel(a, l, levels) == [];
    }
  }

  lemma AtLevelOne(x: Item, l: nat, levels: nat)
    requires levels > 0
    ensures AtLevel([x], l, levels) == if Level(x, levels) == l then [x] else []
  {
  }

  // ---------------------------------------------------------------- the queue

  datatype PopResult = Popped(item: Item) | NotPopped(error: Error)

  class PriorityQueue {
    var levels: seq<seq<Item>>
    var closed: bool
    var notified: bool             // a token waits in notify
    ghost var arrival: seq<Item>   // the items in the queue, oldest first

    /** Every level holds its part of the arrival list, in order. */
    ghost predicate Valid()
      reads this
    {
      |levels| > 0 && forall l :: 0 <= l < |levels| ==> levels[l] == AtLevel(arrival, l, |levels|)
    }

    /** NewPriorityQueue. A queue without levels can be made and not used. */
    constructor (n: nat)
      ensures Valid() <==> n > 0
      ensures levels == seq(n, _ => []) && arrival == [] && !closed && !notified
    {
      levels := seq(n, _ => []);
      closed, notified, arrival := false, false, [];
    }

    method Push(item: Item) returns (ok: bool)
      requires Valid()
      modifies this
      ensures Valid() && |levels| == old(|levels|) && closed == old(closed)
      ensures ok == !closed
      ensures arrival == if ok then old(arrival) + [item] else old(arrival)
      ensures ok ==>
                var l := Min(item.priority, |levels| - 1);
                levels == old(levels)[l := old(levels)[l] + [item]]
      ensures notified == (old(notified) || ok)
    {
      hide AtLevel;
      if closed {
        return false;
      }
      var level := item.priority;
      if level >= |levels| {
        level := |levels| - 1;
      }
      forall l | 0 <= l < |levels|
        ensures AtLevel(arrival + [item], l, |levels|) == levels[l] + (if l == level then [item] else [])
      {
        AtLevelAppend(arrival, [item], l, |levels|);
        AtLevelOne(item, l, |levels|);
      }
      levels := levels[level := levels[level] + [item]];
      arrival := arrival + [item];
      notified := true;
      ok := true;
    }

    /** Pop: the oldest item of the lowest non-empty level; an empty queue reports whether it is closed. */
    method Pop() returns (r: PopResult)
      requires Valid()
      modifies this
      ensures Valid() && |levels| == old(|levels|) && closed == old(closed) && notified == old(notified)
      ensures old(arrival) == [] ==>
                arrival == [] && r == NotPopped(if closed then ConnectionClosed else QueueEmpty)
      ensures old(arrival) != [] ==>
                exists k: nat :: IsNext(old(arrival), k, |levels|)
                            && r == Popped(old(arrival)[k]) && arrival == Without(old(arrival), k)
                            && LowestAndOldest(old(arrival), k, |levels|)
    {
      hide AtLevel;
      var empty := true;
      var i := 0;
      while i < |levels|
        invariant 0 <= i <= |levels|
        invariant empty <==> forall l :: 0 <= l < i ==> levels[l] == []
      {
        if |levels[i]| > 0 {
          empty := false;
        }
        i := i + 1;
      }
      EmptyLevels();
      if closed && empty {
        return NotPopped(ConnectionClosed);
      }
      i := 0;
      while i < |levels|
        invariant 0 <= i <= |levels|
        invariant forall l :: 0 <= l < i ==> levels[l] == []
      {
        if |levels[i]| > 0 {
          NextIsLowest(arrival, |levels|);
          r := TakeFront(i);
          return;
        }
        i := i + 1;
      }
      return NotPopped(QueueEmpty);
    }

    /** l.Remove(l.Front()) on the first non-empty level. */
    method TakeFront(i: nat) returns (r: PopResult)
      requires Valid() && i < |levels| && levels[i] != []
      requires forall l :: 0 <= l < i ==> levels[l] == []
      modifies this`levels, this`arrival
      ensures Valid() && |levels| == old(|levels|)
      ensures exists k: nat :: IsNext(old(arrival), k, |levels|)
                          && r == Popped(old(arrival)[k]) && arrival == Without(old(arrival), k)
    {
      hide AtLevel;
      ghost var k := FirstOfLevel(arrival, i, |levels|);
      forall l | 0 <= l < |levels|
        ensures if l == i then levels[i] == [arrival[k]] + AtLevel(Without(arrival, k), i, |levels|)
                else levels[l] == AtLevel(Without(arrival, k), l, |levels|)
      {
        AtLevelWithout(arrival, k, l, |levels|);
      }
      assert IsNext(arrival, k, |levels|) by {
        forall j | 0 <= j < |arrival|
          ensures i <= Level(arrival[j], |levels|)
        {
          var l := Level(arrival[j], |levels|);
          AtLevelEmpty(arrival, l, |levels|);
          assert levels[l] != [];
        }
      }
      r := Popped(levels[i][0]);
      levels := levels[i := levels[i][1..]];
      arrival := Without(arrival, k);
    }

    lemma EmptyLevels()
      requires Valid()
      ensures arrival == [] <==> forall l :: 0 <= l < |levels| ==> levels[l] == []
    {
      if arrival != [] {
        var l := Level(arrival[0], |levels|);
        AtLevelEmpty(arrival, l, |levels|);
        assert levels[l] != [];
      }
    }

    /** Len: the sum over the levels is the number of items. */
    method Len() returns (total: nat)
      requires Valid()
      ensures total == |arrival|
    {
      hide AtLevel;
      total := 0;
      var i := 0;
      BelowNext(arrival, 0, |levels|);
      while i < |levels|
        invariant 0 <= i <= |levels|
        invariant total == Below(arrival, i, |levels|)
      {
        BelowNext(arrival, i, |levels|);
        total := total + |levels[i]|;
        i := i + 1;
      }
      BelowAll(arrival, |levels|);
    }
  }

  /** How many items lie below level l. */
  ghost function Below(q: seq<Item>, l: nat, levels: nat): nat
    requires levels > 0
  {
    if q == [] then 0 else (if Level(q[0], levels) < l then 1 else 0) + Below(q[1..], l, levels)
  }

  lemma {:induction false} BelowNext(q: seq<Item>, l: nat, levels: nat)
    requires levels > 0
    ensures Below(q, l + 1, levels) == Below(q, l, levels) + |AtLevel(q, l, levels)|
    ensures l == 0 ==> Below(q, l, levels) == 0
  {
    if q != [] { BelowNext(q[1..], l, levels); }
  }

  lemma {:induction false} BelowAll(q: seq<Item>, levels: nat)
    requires levels > 0
    ensures Below(q, levels, levels) == |q|
  {
    if q != [] { BelowAll(q[1..], levels); }
  }

  // ---------------------------------------------------------------- runs

  datatype Call = PushItem(item: Item) | PopItem

  /** A run on the arrival list: what was pushed, what was popped, and what is left. */
  datatype Run = Run(pushed: seq<Item>, popped: seq<Item>, left: seq<Item>)

  /** The item a Pop takes, as a position in the arrival list. */
  function NextIndex(q: seq<Item>, levels: nat): (k: nat)
    requires levels > 0 && q != []
    ensures IsNext(q, k, levels)
  {
    if |q| == 1 then 0
    else
      var k := NextIndex(q[1..], levels);
      assert forall j :: 0 < j < |q| ==> q[j] == q[1..][j - 1];
      if Level(q[0], levels) <= Level(q[k + 1], levels) then 0 else k + 1
  }

  function Step(r: Run, c: Call, levels: nat): Run
    requires levels > 0
  {
    match c
    case PushItem(x) => Run(r.pushed + [x], r.popped, r.left + [x])
    case PopItem =>
      if r.left == [] then r
      else
        var k := NextIndex(r.left, levels);
        Run(r.pushed, r.popped + [r.left[k]], Without(r.left, k))
  }

  function After(calls: seq<Call>, levels: nat): Run
    requires levels > 0
  {
    if calls == [] then Run([], [], [])
    else Step(After(calls[..|calls| - 1], levels), calls[|calls| - 1], levels)
  }

  /**
   * Over every run of pushes and pops: at each level, the items popped followed by the items left are
   * the items pushed, in order. Nothing is lost, duplicated or reordered within a level.
   */
  lemma {:induction false} RunKeepsLevels(calls: seq<Call>, levels: nat, l: nat)
    requires levels > 0
    ensures var r := After(calls, levels);
            AtLevel(r.popped, l, levels) + AtLevel(r.left, l, levels) == AtLevel(r.pushed, l, levels)
    decreases |calls|
  {
    if calls != [] {
      var r, c := After(calls[..|calls| - 1], levels), calls[|calls| - 1];
      RunKeepsLevels(calls[..|calls| - 1], levels, l);
      StepKeepsLevel(r, c, levels, l);
    }
  }

  lemma StepKeepsLevel(r: Run, c: Call, levels: nat, l: nat)
    requires levels > 0
    requires AtLevel(r.popped, l, levels) + AtLevel(r.left, l, levels) == AtLevel(r.pushed, l, levels)
    ensures var r' := Step(r, c, levels);
            AtLevel(r'.popped, l, levels) + AtLevel(r'.left, l, levels) == AtLevel(r'.pushed, l, levels)
  {
    hide AtLevel;
    var p, q, all := AtLevel(r.popped, l, levels), AtLevel(r.left, l, levels), AtLevel(r.pushed, l, levels);
    match c
    case PushItem(x) =>
      var y := AtLevel([x], l, levels);
      AtLevelAppend(r.pushed, [x], l, levels);
      AtLevelAppend(r.left, [x], l, levels);
      assert p + (q + y) == (p + q) + y;
    case PopItem =>
      if r.left != [] {
        var k := NextIndex(r.left, levels);
        var x := r.left[k];
        AtLevelWithout(r.left, k, l, levels);
        AtLevelAppend(r.popped, [x], l, levels);
        AtLevelOne(x, l, levels);
        var q' := AtLevel(Without(r.left, k), l, levels);
        assert (p + [x]) + q' == p + ([x] + q');
        assert p + [] == p;
      }
  }

  /** Pop until the queue is empty. */
  function Drain(q: seq<Item>, levels: nat): seq<Item>
    requires levels > 0
    decreases |q|
  {
    if q == [] then []
    else var k := NextIndex(q, levels); [q[k]] + Drain(Without(q, k), levels)
  }

  lemma {:induction false} DrainPermutes(q: seq<Item>, levels: nat)
    requires levels > 0
    ensures multiset(Drain(q, levels)) == multiset(q)
    decreases |q|
  {
    if q != [] {
      var k := NextIndex(q, levels);
      hide IsNext, NextIndex, Without;
      WithoutOne(q, k);
      DrainPermutes(Without(q, k), levels);
      assert multiset([q[k]]) == multiset{q[k]};
    }
  }

  lemma WithoutOne<T>(q: seq<T>, k: nat)
    requires k < |q|
    ensures |Without(q, k)| == |q| - 1 && multiset(q) == multiset{q[k]} + multiset(Without(q, k))
  {
    assert q == q[..k] + [q[k]] + q[k + 1..];
    assert multiset(Without(q, k)) == multiset(q[..k]) + multiset(q[k + 1..]);
  }

  lemma DrainSorts(q: seq<Item>, levels: nat)
    requires levels > 0
    ensures forall i, j :: 0 <= i < j < |Drain(q, levels)| ==>
              Level(Drain(q, levels)[i], levels) <= Level(Drain(q, levels)[j], levels)
  {
    hide Drain;
    var p := DrainOrder(q, levels);
    var d := Drain(q, levels);
    forall i, j | 0 <= i < j < |d|
      ensures Level(d[i], levels) <= Level(d[j], levels)
    {
      assert d[i] == q[p[i]] && d[j] == q[p[j]];
    }
  }

  lemma {:induction false} DrainKeepsLevel(q: seq<Item>, l: nat, levels: nat)
    requires levels > 0
    ensures AtLevel(Drain(q, levels), l, levels) == AtLevel(q, l, levels)
    decreases |q|
  {
    if q != [] {
      var k := NextIndex(q, levels);
      DrainKeepsLevel(Without(q, k), l, levels);
      DrainLevel(q, k, Drain(Without(q, k), levels), l, levels);
    }
  }

  /**
   * p lists the positions of q by priority, those from the last level on being all the same, and by arrival
   * among equals. The order is strict, so no position comes twice.
   */
  ghost predicate StableOrder(p: seq<nat>, q: seq<Item>, levels: nat) {
    && |p| == |q| && (forall i :: 0 <= i < |p| ==> p[i] < |q|)
    && (forall i, j :: 0 <= i < j < |p| ==>
          var x, y := Min(q[p[i]].priority, levels - 1), Min(q[p[j]].priority, levels - 1);
          x < y || (x == y && p[i] < p[j]))
  }

  /** d is q, read in the order p. */
  ghost predicate Reads(d: seq<Item>, p: seq<nat>, q: seq<Item>) {
    |d| == |p| && forall i :: 0 <= i < |p| ==> p[i] < |q| && d[i] == q[p[i]]
  }

  /** Where position i of Without(q, k) was in q. */
  function Before(i: nat, k: nat): nat {
    if i < k then i else i + 1
  }

  function AllBefore(p: seq<nat>, k: nat): (p': seq<nat>)
    ensures |p'| == |p| && forall i :: 0 <= i < |p| ==> p'[i] == Before(p[i], k)
  {
    if p == [] then [] else [Before(p[0], k)] + AllBefore(p[1..], k)
  }

  lemma {:induction false} DrainOrder(q: seq<Item>, levels: nat) returns (p: seq<nat>)
    requires levels > 0
    ensures StableOrder(p, q, levels) && Reads(Drain(q, levels), p, q)
    decreases |q|
  {
    if q == [] {
      p := [];
    } else {
      var k := NextIndex(q, levels);
      var d := Drain(Without(q, k), levels);
      assert Drain(q, levels) == [q[k]] + d;
      hide NextIndex, Drain, IsNext, StableOrder, Reads, AllBefore;
      var p' := DrainOrder(Without(q, k), levels);
      p := [k] + AllBefore(p', k);
      OrderFront(k, p', q, levels);
      ReadsFront(d, k, p', q);
    }
  }

  lemma OrderFront(k: nat, p': seq<nat>, q: seq<Item>, levels: nat)
    requires levels > 0 && IsNext(q, k, levels) && StableOrder(p', Without(q, k), levels)
    ensures StableOrder([k] + AllBefore(p', k), q, levels)
  {
    hide AllBefore;
    var rest, p := Without(q, k), [k] + AllBefore(p', k);
    NextIsLowest(q, levels);
    hide IsNext;
    assert forall i :: 0 <= i < |rest| ==> rest[i] == q[Before(i, k)];
    assert forall i :: 0 < i < |p| ==> p[i] == Before(p'[i - 1], k) && q[p[i]] == rest[p'[i - 1]];
  }

  lemma ReadsFront(d: seq<Item>, k: nat, p': seq<nat>, q: seq<Item>)
    requires k < |q| && Reads(d, p', Without(q, k))
    ensures Reads([q[k]] + d, [k] + AllBefore(p', k), q)
  {
    hide AllBefore;
    var rest := Without(q, k);
    assert forall i :: 0 <= i < |rest| ==> rest[i] == q[Before(i, k)];
  }

  /**
   * A drain is a stable sort by priority, the priorities from the last level on being all the same: its items
   * stand in StableOrder, so with every level's items in order of arrival, and are those of the queue.
   */
  lemma DrainIsStableSort(q: seq<Item>, levels: nat)
    requires levels > 0
    ensures exists p :: StableOrder(p, q, levels) && Reads(Drain(q, levels), p, q)
    ensures forall i, j :: 0 <= i < j < |Drain(q, levels)| ==>
              Level(Drain(q, levels)[i], levels) <= Level(Drain(q, levels)[j], levels)
    ensures forall l: nat :: AtLevel(Drain(q, levels), l, levels) == AtLevel(q, l, levels)
    ensures multiset(Drain(q, levels)) == multiset(q)
  {
    hide Drain, AtLevel, StableOrder, Reads;
    var p := DrainOrder(q, levels);
    DrainSorts(q, levels);
    DrainPermutes(q, levels);
    forall l: nat
      ensures AtLevel(Drain(q, levels), l, levels) == AtLevel(q, l, levels)
    {
      DrainKeepsLevel(q, l, levels);
    }
  }

  lemma DrainLevel(q: seq<Item>, k: nat, d: seq<Item>, l: nat, levels: nat)
    requires levels > 0 && IsNext(q, k, levels)
    requires AtLevel(d, l, levels) == AtLevel(Without(q, k), l, levels)
    ensures AtLevel([q[k]] + d, l, levels) == AtLevel(q, l, levels)
  {
    hide AtLevel;
    AtLevelAppend([q[k]], d, l, levels);
    AtLevelOne(q[k], l, levels);
    AtLevelWithout(q, k, l, levels);
    assert [] + AtLevel(d, l, levels) == AtLevel(d, l, levels);
  }

  /** One Pop, against the position the list functions compute. */
  method PopNext(q: PriorityQueue) returns (r: PopResult)
    requires q.Valid()
    modifies q
    ensures q.Valid() && |q.levels| == old(|q.levels|) && q.closed == old(q.closed)
    ensures old(q.arrival) == [] ==> r.NotPopped? && q.arrival == []
    ensures old(q.arrival) != [] ==>
              var k := NextIndex(old(q.arrival), |q.levels|);
              r == Popped(old(q.arrival)[k]) && q.arrival == Without(old(q.arrival), k)
  {
    hide NextIndex, AtLevel, Without;
    ghost var before := q.arrival;
    r := q.Pop();
    if before != [] {
      NextEverywhere(before, |q.levels|);
    }
  }

  lemma NextEverywhere(q: seq<Item>, levels: nat)
    requires levels > 0 && q != []
    ensures forall k: nat :: IsNext(q, k, levels) ==> k == NextIndex(q, levels)
  {
    hide NextIndex;
    forall k: nat | IsNext(q, k, levels)
      ensures k == NextIndex(q, levels)
    {
      NextIsUnique(q, k, NextIndex(q, levels), levels);
    }
  }

  /** Popping until nothing is left drains the queue: with the above, a stable sort by the object's own calls. */
  method PopAll(q: PriorityQueue) returns (items: seq<Item>)
    requires q.Valid()
    modifies q
    ensures q.Valid() && q.arrival == [] && |q.levels| == old(|q.levels|)
    ensures items == Drain(old(q.arrival), |q.levels|)
    ensures exists p :: StableOrder(p, old(q.arrival), |q.levels|) && Reads(items, p, old(q.arrival))
  {
    hide NextIndex, AtLevel, StableOrder, Reads;
    ghost var p := DrainOrder(q.arrival, |q.levels|);
    items := [];
    var r := PopNext(q);
    ghost var all := Drain(old(q.arrival), |q.levels|);
    while r.Popped?
      invariant q.Valid() && |q.levels| == old(|q.levels|)
      invariant all == items + (if r.Popped? then [r.item] else []) + Drain(q.arrival, |q.levels|)
      invariant r.NotPopped? ==> q.arrival == []
      decreases |q.arrival|, r.Popped?
    {
      items := items + [r.item];
      r := PopNext(q);
    }
  }

  /** Any run of calls on a new queue gives what the run on lists gives. */
  method RunCalls(calls: seq<Call>, levels: nat) returns (popped: seq<Item>, q: PriorityQueue)
    requires levels > 0
    ensures fresh(q) && q.Valid() && |q.levels| == levels
    ensures popped == After(calls, levels).popped && q.arrival == After(calls, levels).left
  {
    hide NextIndex, AtLevel;
    popped := [];
    q := new PriorityQueue(levels);
    assert calls[..0] == [];
    for i := 0 to |calls|
      invariant q.Valid() && |q.levels| == levels && !q.closed
      invariant popped == After(calls[..i], levels).popped && q.arrival == After(calls[..i], levels).left
    {
      assert calls[..i + 1][..i] == calls[..i];
      match calls[i] {
        case PushItem(x) =>
          var _ := q.Push(x);
        case PopItem =>
          var r := PopNext(q);
          if r.Popped? {
            popped := popped + [r.item];
          }
      }
    }
    assert calls[..|calls|] == calls;
  }

  // ---------------------------------------------------------------- PopBlock and its wake-up token

  /**
   * An open queue by its size, its token, and its PopBlock callers: about to look under the lock, past the
   * unlock and not yet receiving, or blocked in the receive.
   */
  datatype Waiting = Waiting(items: nat, token: bool, looking: nat, leaving: nat, blocked: nat)

  datatype Move = Pushed | PoppedByOther | CallPopBlock | Look | Receive

  predicate CanMove(w: Waiting, m: Move, consumers: nat) {
    match m
    case Pushed => true
    case PoppedByOther => w.items > 0
    case CallPopBlock => w.looking + w.leaving + w.blocked < consumers
    case Look => w.looking > 0
    case Receive => w.leaving > 0
  }

  /** A push hands its token to a blocked receiver if there is one, and leaves it in the channel otherwise. */
  function Moved(w: Waiting, m: Move, consumers: nat): Waiting
    requires CanMove(w, m, consumers)
  {
    match m
    case Pushed => if w.blocked > 0 then w.(items := w.items + 1, blocked := w.blocked - 1, looking := w.looking + 1)
                   else w.(items := w.items + 1, token := true)
    case PoppedByOther => w.(items := w.items - 1)
    case CallPopBlock => w.(looking := w.looking + 1)
    case Look => if w.items > 0 then w.(items := w.items - 1, looking := w.looking - 1)
                 else w.(looking := w.looking - 1, leaving := w.leaving + 1)
    case Receive => if w.token then w.(token := false, leaving := w.leaving - 1, looking := w.looking + 1)
                    else w.(leaving := w.leaving - 1, blocked := w.blocked + 1)
  }

  predicate Moves(w: Waiting, ms: seq<Move>, consumers: nat)
    decreases |ms|
  {
    ms == [] || (CanMove(w, ms[0], consumers) && Moves(Moved(w, ms[0], consumers), ms[1..], consumers))
  }

  function AfterMoves(w: Waiting, ms: seq<Move>, consumers: nat): Waiting
    requires Moves(w, ms, consumers)
    decreases |ms|
  {
    if ms == [] then w else AfterMoves(Moved(w, ms[0], consumers), ms[1..], consumers)
  }

  const Quiet := Waiting(0, false, 0, 0, 0)

  /** While an item waits, no consumer is blocked, and one about to receive finds a token. */
  predicate Awake(w: Waiting) {
    w.items > 0 ==> w.blocked == 0 && (w.leaving > 0 ==> w.token)
  }

  lemma {:induction false} OneConsumerWakes(w: Waiting, ms: seq<Move>)
    requires w.looking + w.leaving + w.blocked <= 1 && Awake(w) && Moves(w, ms, 1)
    ensures Awake(AfterMoves(w, ms, 1))
    decreases |ms|
  {
    if ms != [] {
      OneConsumerWakes(Moved(w, ms[0], 1), ms[1..]);
    }
  }

  /** The wake-up is never lost exactly when at most one consumer blocks on the queue. */
  lemma WakeUpExactly(consumers: nat)
    ensures (forall ms: seq<Move> | Moves(Quiet, ms, consumers) :: Awake(AfterMoves(Quiet, ms, consumers)))
            <==> consumers <= 1
  {
    if consumers <= 1 {
      forall ms: seq<Move> | Moves(Quiet, ms, consumers)
        ensures Awake(AfterMoves(Quiet, ms, consumers))
      {
        FewerConsumers(Quiet, ms, consumers);
        OneConsumerWakes(Quiet, ms);
      }
    } else {
      var ms := LostWakeUp(consumers);
      assert Moves(Quiet, ms, consumers) && !Awake(AfterMoves(Quiet, ms, consumers));
    }
  }

  lemma {:induction false} FewerConsumers(w: Waiting, ms: seq<Move>, consumers: nat)
    requires consumers <= 1 && Moves(w, ms, consumers)
    ensures Moves(w, ms, 1) && AfterMoves(w, ms, 1) == AfterMoves(w, ms, consumers)
    decreases |ms|
  {
    if ms != [] { FewerConsumers(Moved(w, ms[0], consumers), ms[1..], consumers); }
  }

  /**
   * Two consumers find the queue empty and are both between unlock and receive when two items arrive: the
   * second push finds the first one's token and leaves none. One consumer takes token and item, the other
   * blocks beside the second item.
   */
  lemma LostWakeUp(consumers: nat) returns (ms: seq<Move>)
    requires consumers >= 2
    ensures Moves(Quiet, ms, consumers) && AfterMoves(Quiet, ms, consumers) == Waiting(1, false, 0, 0, 1)
  {
    var w1, w2 := Waiting(0, false, 1, 0, 0), Waiting(0, false, 0, 1, 0);
    var w3, w4 := Waiting(0, false, 1, 1, 0), Waiting(0, false, 0, 2, 0);
    var w5, w6 := Waiting(1, true, 0, 2, 0), Waiting(2, true, 0, 2, 0);
    var w7, w8, w9 := Waiting(2, false, 1, 1, 0), Waiting(1, false, 0, 1, 0), Waiting(1, false, 0, 0, 1);
    var m9: seq<Move> := [];
    var m8 := [Receive] + m9;
    Prepend(w8, Receive, w9, m9, consumers);
    var m7 := [Look] + m8;
    Prepend(w7, Look, w8, m8, consumers);
    var m6 := [Receive] + m7;
    Prepend(w6, Receive, w7, m7, consumers);
    var m5 := [Pushed] + m6;
    Prepend(w5, Pushed, w6, m6, consumers);
    var m4 := [Pushed] + m5;
    Prepend(w4, Pushed, w5, m5, consumers);
    var m3 := [Look] + m4;
    Prepend(w3, Look, w4, m4, consumers);
    var m2 := [CallPopBlock] + m3;
    Prepend(w2, CallPopBlock, w3, m3, consumers);
    var m1 := [Look] + m2;
    Prepend(w1, Look, w2, m2, consumers);
    ms := [CallPopBlock] + m1;
    Prepend(Quiet, CallPopBlock, w1, m1, consumers);
  }

  lemma Prepend(w: Waiting, m: Move, w': Waiting, ms: seq<Move>, consumers: nat)
    requires CanMove(w, m, consumers) && Moved(w, m, consumers) == w' && Moves(w', ms, consumers)
    ensures Moves(w, [m] + ms, consumers)
    ensures AfterMoves(w, [m] + ms, consumers) == AfterMoves(w', ms, consumers)
  {
    assert ([m] + ms)[1..] == ms;
  }
}
