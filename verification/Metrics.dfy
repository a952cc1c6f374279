/** The latency statistics of conn/metrics.go: last sample, running average and histogram. */
module Metrics {
  import opened Bytes

  const BUCKETS := 10

  /** Division of 64-bit integers, which rounds toward zero; the divisor is positive. */
  function Quotient(a: int, b: int): int
    requires b > 0
  {
    if a >= 0 then a / b else -((-a) / b)
  }

  /** Addition and subtraction wrap at 64 bits. */
  function Wrap(x: int): (r: int64)
    ensures -TWO63 <= x < TWO63 ==> r == x
  {
    Signed64(x % TWO64)
  }

  /** The bucket a sample is counted in; the last two are never used. */
  function Bucket(ns: int64): (b: nat)
    ensures b < BUCKETS
  {
    if ns < 1_000 then 0
    else if ns < 10_000 then 1
    else if ns < 100_000 then 2
    else if ns < 1_000_000 then 3
    else if ns < 10_000_000 then 4
    else if ns < 100_000_000 then 5
    else if ns < 500_000_000 then 6
    else 7
  }

  datatype Stats = Stats(last: int64, average: int64, count: nat, hist: seq<nat>)

  const Fresh := Stats(0, 0, 0, [0, 0, 0, 0, 0, 0, 0, 0, 0, 0])

  function Record(s: Stats, ns: int64): (r: Stats)
    requires |s.hist| == BUCKETS
    ensures |r.hist| == BUCKETS
  {
    var b := Bucket(ns);
    Stats(ns, NextAverage(s.average, s.count, ns), s.count + 1, s.hist[b := s.hist[b] + 1])
  }

  function NextAverage(average: int64, count: nat, ns: int64): int64 {
    if count == 0 then ns else Wrap(average + Quotient(Wrap(ns - average), count + 1))
  }

  class Metrics {
    var lastLatency: int64
    var averageLatency: int64
    var sampleCount: nat
    const latencyHist: array<nat>

    ghost predicate Valid() {
      latencyHist.Length == BUCKETS
    }

    ghost function View(): Stats
      reads this, latencyHist
    {
      Stats(lastLatency, averageLatency, sampleCount, latencyHist[..])
    }

    constructor ()
      ensures Valid() && fresh(latencyHist) && View() == Fresh
    {
      lastLatency, averageLatency, sampleCount := 0, 0, 0;
      latencyHist := new nat[BUCKETS](_ => 0);
    }

    method RecordLatency(ns: int64)
      requires Valid() && sampleCount + 1 < TWO63
      modifies this, latencyHist
      ensures View() == Record(old(View()), ns)
    {
      lastLatency := ns;
      var count := sampleCount;
      if count == 0 {
        averageLatency := ns;
      } else {
        var avg := averageLatency;
        averageLatency := Wrap(avg + Quotient(Wrap(ns - avg), count + 1));
      }
      sampleCount := sampleCount + 1;

      var bucket := 0;
      if {
        case ns < 1_000 => bucket := 0;
        case 1_000 <= ns < 10_000 => bucket := 1;
        case 10_000 <= ns < 100_000 => bucket := 2;
        case 100_000 <= ns < 1_000_000 => bucket := 3;
        case 1_000_000 <= ns < 10_000_000 => bucket := 4;
        case 10_000_000 <= ns < 100_000_000 => bucket := 5;
        case 100_000_000 <= ns < 500_000_000 => bucket := 6;
        case 500_000_000 <= ns => bucket := 7;
      }
      latencyHist[bucket] := latencyHist[bucket] + 1;
    }
  }

  // ---------------------------------------------------------------- runs

  /** The statistics after the samples, recorded one at a time. */
  function AfterAll(samples: seq<int64>): (s: Stats)
    ensures |s.hist| == BUCKETS && s.count == |samples|
    ensures samples != [] ==> s.last == samples[|samples| - 1]
  {
    if samples == [] then Fresh else Record(AfterAll(samples[..|samples| - 1]), samples[|samples| - 1])
  }

  function Sum(samples: seq<int64>): int {
    if samples == [] then 0
    else
      var last: int := samples[|samples| - 1];
      Sum(samples[..|samples| - 1]) + last
  }

  predicate Within(samples: seq<int64>, lo: int, hi: int) {
    forall i :: 0 <= i < |samples| ==> lo <= samples[i] <= hi
  }

  /**
   * The quotient rounds toward zero: it moves toward the sample and never past it, and what it cuts off has the
   * dividend's sign and is less than the divisor.
   */
  lemma QuotientMoves(a: int, b: int)
    requires b > 0
    ensures var q := Quotient(a, b);
            && (a >= 0 ==> 0 <= q <= a && 0 <= a - b * q < b)
            && (a <= 0 ==> a <= q <= 0 && -b < a - b * q <= 0)
  {
    if a >= 0 {
      DivMoves(a, b);
    } else {
      DivMoves(-a, b);
      Negated(b, (-a) / b);
    }
  }

  lemma DivMoves(m: int, b: int)
    requires m >= 0 && b > 0
    ensures 0 <= m / b <= m && 0 <= m - b * (m / b) < b
  {
    var q, r := m / b, m % b;
    assert m == b * q + r;
    Grows(b, q);
  }

  lemma Negated(b: int, q: int)
    ensures b * (-q) == -(b * q)
  {
  }

  lemma Grows(b: int, q: int)
    requires b > 0
    ensures q >= 0 ==> q <= b * q
  {
  }

  /** One sample, when nothing wraps. */
  lemma AverageStep(average: int64, count: nat, ns: int64, lo: int, hi: int)
    requires count > 0 && lo <= average <= hi && lo <= ns <= hi && hi - lo < TWO63
    ensures var next := NextAverage(average, count, ns);
            lo <= next <= hi && 0 - count <= (count + 1) * next - count * average - ns <= count
  {
    hide Quotient, Wrap;
    var a: int, x: int := average, ns;
    var d, b := x - a, count + 1;
    QuotientMoves(d, b);
    var q := Quotient(d, b);
    assert Wrap(d) == d && Wrap(a + q) == a + q;
    Spread(count, a, q);
  }

  lemma Spread(n: int, a: int, q: int)
    ensures (n + 1) * (a + q) == n * a + a + (n + 1) * q
  {
  }

  /** Twice the accumulated rounding of n samples. */
  function Slack(n: nat): (t: nat)
    ensures t == n * (n - 1)
  {
    if n == 0 then 0 else Slack(n - 1) + 2 * (n - 1)
  }

  /**
   * Samples whose spread fits 64 bits, which all non-negative samples do: the average lies between any
   * bounds of the samples, and n times the average is off the true sum by at most n(n-1)/2.
   */
  lemma {:induction false} AverageOfRun(samples: seq<int64>, lo: int, hi: int)
    requires samples != [] && Within(samples, lo, hi) && hi - lo < TWO63
    ensures lo <= AfterAll(samples).average <= hi
    ensures var e := 2 * (|samples| * AfterAll(samples).average - Sum(samples));
            0 - Slack(|samples|) <= e <= Slack(|samples|)
  {
    hide NextAverage, Slack;
    var n := |samples| - 1;
    var before, x := samples[..n], samples[n];
    if n == 0 {
      FirstSample(samples);
    } else {
      AverageOfRun(before, lo, hi);
      AverageStep(AfterAll(before).average, n, x, lo, hi);
      SlackNext(n);
    }
  }

  lemma SlackNext(n: nat)
    ensures Slack(n + 1) == Slack(n) + 2 * n
  {
  }

  lemma FirstSample(samples: seq<int64>)
    requires |samples| == 1
    ensures AfterAll(samples).average == samples[0] == Sum(samples) && Slack(1) == 0
  {
    assert samples[..0] == [];
  }

  function Smallest(samples: seq<int64>): (m: int64)
    requires samples != []
    ensures m in samples && forall i :: 0 <= i < |samples| ==> m <= samples[i]
  {
    var x := samples[|samples| - 1];
    if |samples| == 1 || x < Smallest(samples[..|samples| - 1]) then x else Smallest(samples[..|samples| - 1])
  }

  function Largest(samples: seq<int64>): (m: int64)
    requires samples != []
    ensures m in samples && forall i :: 0 <= i < |samples| ==> samples[i] <= m
  {
    var x := samples[|samples| - 1];
    if |samples| == 1 || x > Largest(samples[..|samples| - 1]) then x else Largest(samples[..|samples| - 1])
  }

  /** Non-negative samples: between the smallest and the largest, and at most n(n-1)/2 off the sum. */
  lemma RunningAverage(samples: seq<int64>)
    requires samples != [] && forall i :: 0 <= i < |samples| ==> samples[i] >= 0
    ensures var n, average := |samples|, AfterAll(samples).average;
            && Smallest(samples) <= average <= Largest(samples)
            && -(n * (n - 1)) <= 2 * (n * average - Sum(samples)) <= n * (n - 1)
  {
    hide AfterAll, Sum, Smallest, Largest;
    var lo, hi := Smallest(samples), Largest(samples);
    assert lo >= 0;
    AverageOfRun(samples, lo, hi);
  }

  // ---------------------------------------------------------------- the histogram

  /** Lower bounds of the buckets in nanoseconds; below the first there is none. */
  const LIMITS: seq<int> := [1_000, 10_000, 100_000, 1_000_000, 10_000_000, 100_000_000, 500_000_000]

  /** Whether x belongs to bucket b: at least its lower limit and below its upper one. */
  predicate Belongs(x: int, b: nat) {
    b <= |LIMITS| && (b > 0 ==> LIMITS[b - 1] <= x) && (b < |LIMITS| ==> x < LIMITS[b])
  }

  lemma BelongsExactly(x: int64, b: nat)
    ensures Belongs(x, b) <==> b == Bucket(x)
  {
    assert forall i, j :: 0 <= i < j < |LIMITS| ==> LIMITS[i] < LIMITS[j];
  }

  function CountIn(samples: seq<int64>, b: nat): nat {
    if samples == [] then 0
    else CountIn(samples[..|samples| - 1], b) + if Belongs(samples[|samples| - 1], b) then 1 else 0
  }

  function Total(hist: seq<nat>): nat {
    if hist == [] then 0 else Total(hist[..|hist| - 1]) + hist[|hist| - 1]
  }

  lemma {:induction false} TotalUpdate(hist: seq<nat>, b: nat)
    requires b < |hist|
    ensures Total(hist[b := hist[b] + 1]) == Total(hist) + 1
  {
    var n := |hist| - 1;
    var h := hist[b := hist[b] + 1];
    if b == n {
      assert h[..n] == hist[..n];
    } else {
      TotalUpdate(hist[..n], b);
      assert h[..n] == hist[..n][b := hist[b] + 1];
    }
  }

  lemma {:induction false} TotalZero(hist: seq<nat>)
    requires forall i :: 0 <= i < |hist| ==> hist[i] == 0
    ensures Total(hist) == 0
  {
    if hist != [] { TotalZero(hist[..|hist| - 1]); }
  }

  /** Every bucket holds the number of samples in its range, whatever the samples, and together they hold all. */
  lemma {:induction false} Histogram(samples: seq<int64>)
    ensures forall b :: 0 <= b < BUCKETS ==> AfterAll(samples).hist[b] == CountIn(samples, b)
    ensures Total(AfterAll(samples).hist) == |samples|
  {
    hide Bucket, Belongs, NextAverage;
    if samples == [] {
      TotalZero(Fresh.hist);
    } else {
      var n := |samples| - 1;
      Histogram(samples[..n]);
      var before := AfterAll(samples[..n]).hist;
      TotalUpdate(before, Bucket(samples[n]));
      forall b | 0 <= b < BUCKETS
        ensures AfterAll(samples).hist[b] == CountIn(samples, b)
      {
        BelongsExactly(samples[n], b);
      }
    }
  }
}
