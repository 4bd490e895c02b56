/**
  The sweep line of the ninja build report (`SummarizeEntries`): start and stop records are sorted
  and scanned, each time slice being shared equally among the targets running in it. Times are reals.
 */
module BuildTime {
  import opened Wrappers
  import opened OrderedKeys

  datatype Span = Span(start: real, end: real)

  /** One task of the build log. */
  class Target {
    const start: real
    const end: real
    var weightedDuration: real

    constructor (start: real, end: real)
      ensures this.start == start && this.end == end && weightedDuration == 0.0
    {
      this.start, this.end, weightedDuration := start, end, 0.0;
    }

    function Duration(): real { end - start }

    method SetWeightedDuration(d: real)
      modifies this
      ensures weightedDuration == d
    {
      weightedDuration := d;
    }
  }

  ghost function Spans(entries: seq<Target>): (r: seq<Span>)
    ensures |r| == |entries|
    ensures forall i :: 0 <= i < |entries| ==> r[i] == Span(entries[i].start, entries[i].end)
  {
    if entries == [] then []
    else
      var last := entries[|entries| - 1];
      Spans(entries[..|entries| - 1]) + [Span(last.start, last.end)]
  }

  // ---------------------------------------------------------------------------------------
  // What the report should say, without events
  // ---------------------------------------------------------------------------------------

  /** The tasks running at instant `t`. */
  ghost function RunningAt(spans: seq<Span>, t: real): (r: set<nat>) {
    set i: nat | i < |spans| && spans[i].start <= t < spans[i].end
  }

  /** An equal part of a slice. */
  function PerTask(slice: real, n: nat): (r: real)
    requires n > 0
  {
    slice / n as real
  }

  /** What each running task receives for the slice that ends at `times[l]`. */
  ghost function Rate(spans: seq<Span>, times: seq<real>, l: nat): (r: real)
    requires 1 <= l < |times|
  {
    var running := RunningAt(spans, times[l - 1]);
    if running == {} then 0.0 else PerTask(times[l] - times[l - 1], |running|)
  }

  ghost function Rates(spans: seq<Span>, times: seq<real>): (r: seq<real>)
    ensures |r| == |times|
    ensures forall l :: 1 <= l < |times| ==> r[l] == Rate(spans, times, l)
  {
    seq(|times|, l requires 0 <= l < |times| => if l == 0 then 0.0 else Rate(spans, times, l))
  }

  /** The sum of the rates of the slices, up to `times[j - 1]`, in which task `i` runs. */
  ghost function Share(spans: seq<Span>, times: seq<real>, rates: seq<real>, i: nat, j: nat): (r: real)
    requires j <= |times| == |rates|
  {
    if j <= 1 then 0.0
    else
      Share(spans, times, rates, i, j - 1)
      + if i in RunningAt(spans, times[j - 2]) then rates[j - 1] else 0.0
  }

  /**
    The weighted duration of task `i`: each slice between consecutive instants is divided equally
    among the targets running in it.
   */
  ghost function FairShare(spans: seq<Span>, times: seq<real>, i: nat): (r: real) {
    Share(spans, times, Rates(spans, times), i, |times|)
  }

  /** The part of the time up to `times[j - 1]` during which at least one task runs. */
  ghost function Busy(spans: seq<Span>, times: seq<real>, j: nat): (r: real)
    requires j <= |times|
  {
    if j <= 1 then 0.0
    else
      Busy(spans, times, j - 1)
      + if RunningAt(spans, times[j - 2]) != {} then times[j - 1] - times[j - 2] else 0.0
  }

  ghost predicate Ascending(times: seq<real>) {
    forall k, l :: 0 <= k <= l < |times| ==> times[k] <= times[l]
  }

  /** Every start and end is among the instants. */
  ghost predicate Endpoints(spans: seq<Span>, times: seq<real>) {
    forall i :: 0 <= i < |spans| ==> spans[i].start in times && spans[i].end in times
  }

  /** Between consecutive instants the set of running tasks does not change. */
  lemma SliceUniform(spans: seq<Span>, times: seq<real>, j: nat, t: real)
    requires Ascending(times) && Endpoints(spans, times)
    requires 1 <= j < |times| && times[j - 1] <= t < times[j]
    ensures RunningAt(spans, t) == RunningAt(spans, times[j - 1])
  {
  }

  lemma NoInstantInside(times: seq<real>, j: nat, x: real)
    requires Ascending(times) && 1 <= j < |times| && x in times
    ensures x <= times[j - 1] || times[j] <= x
  {
  }

  // ---------------------------------------------------------------------------------------
  // Conservation: the shares add up to the busy time
  // ---------------------------------------------------------------------------------------

  ghost function SumShares(spans: seq<Span>, times: seq<real>, rates: seq<real>, n: nat, j: nat): real
    requires j <= |times| == |rates|
  {
    if n == 0 then 0.0 else SumShares(spans, times, rates, n - 1, j) + Share(spans, times, rates, n - 1, j)
  }

  ghost function Below(s: set<nat>, n: nat): set<nat> {
    set i | i in s && i < n
  }

  /** `c` added `m` times. */
  ghost function Scale(m: nat, c: real): real {
    if m == 0 then 0.0 else Scale(m - 1, c) + c
  }

  lemma {:induction false} ScaleIsProduct(m: nat, c: real)
    ensures Scale(m, c) == m as real * c
  {
    if m > 0 {
      ScaleIsProduct(m - 1, c);
    }
  }

  lemma BelowStep(s: set<nat>, n: nat)
    requires n > 0
    ensures |Below(s, n)| == |Below(s, n - 1)| + if n - 1 in s then 1 else 0
  {
    if n - 1 in s {
      assert Below(s, n) == Below(s, n - 1) + {n - 1};
    } else {
      assert Below(s, n) == Below(s, n - 1);
    }
  }

  lemma {:induction false} SumSharesStep(spans: seq<Span>, times: seq<real>, rates: seq<real>, n: nat, j: nat)
    requires 2 <= j <= |times| == |rates|
    ensures SumShares(spans, times, rates, n, j)
         == SumShares(spans, times, rates, n, j - 1) + Scale(|Below(RunningAt(spans, times[j - 2]), n)|, rates[j - 1])
  {
    var running := RunningAt(spans, times[j - 2]);
    if n == 0 {
      assert Below(running, 0) == {};
    } else {
      SumSharesStep(spans, times, rates, n - 1, j);
      BelowStep(running, n);
    }
  }

  /** Conservation: over all tasks the shares sum exactly to the busy time. */
  lemma {:induction false} SharesSumToBusy(spans: seq<Span>, times: seq<real>, j: nat)
    requires j <= |times|
    ensures SumShares(spans, times, Rates(spans, times), |spans|, j) == Busy(spans, times, j)
  {
    var rates := Rates(spans, times);
    if j <= 1 {
      SumSharesZero(spans, times, rates, |spans|, j);
    } else {
      SharesSumToBusy(spans, times, j - 1);
      SumSharesStep(spans, times, rates, |spans|, j);
      var running := RunningAt(spans, times[j - 2]);
      assert Below(running, |spans|) == running;
      RateTimesRunning(spans, times, j - 1);
    }
  }

  lemma RateTimesRunning(spans: seq<Span>, times: seq<real>, l: nat)
    requires 1 <= l < |times|
    ensures var running := RunningAt(spans, times[l - 1]);
            Scale(|running|, Rate(spans, times, l)) == if running == {} then 0.0 else times[l] - times[l - 1]
  {
    ScaleIsProduct(|RunningAt(spans, times[l - 1])|, Rate(spans, times, l));
  }

  lemma {:induction false} SumSharesZero(spans: seq<Span>, times: seq<real>, rates: seq<real>, n: nat, j: nat)
    requires j <= 1 && j <= |times| == |rates|
    ensures SumShares(spans, times, rates, n, j) == 0.0
  {
    if n > 0 {
      SumSharesZero(spans, times, rates, n - 1, j);
    }
  }

  /** A share is non-negative and at most the part of the target's own duration that has passed. */
  lemma {:induction false} ShareBounded(spans: seq<Span>, times: seq<real>, rates: seq<real>, i: nat, j: nat)
    requires Ascending(times) && Endpoints(spans, times) && |rates| == |times|
    requires forall l :: 1 <= l < |times| ==> 0.0 <= rates[l] <= times[l] - times[l - 1]
    requires i < |spans| && spans[i].start <= spans[i].end && 1 <= j <= |times|
    ensures var share := Share(spans, times, rates, i, j);
            && 0.0 <= share <= spans[i].end - spans[i].start
            && share <= if times[j - 1] <= spans[i].start then 0.0 else times[j - 1] - spans[i].start
  {
    if j > 1 {
      ShareBounded(spans, times, rates, i, j - 1);
      if i in RunningAt(spans, times[j - 2]) {
        NoInstantInside(times, j - 1, spans[i].end);
      }
    }
  }

  /** The documented promise: a weighted duration is the same as or shorter than the duration. */
  lemma FairShareBounded(spans: seq<Span>, times: seq<real>, i: nat)
    requires Ascending(times) && Endpoints(spans, times)
    requires i < |spans| && spans[i].start <= spans[i].end
    ensures 0.0 <= FairShare(spans, times, i) <= spans[i].end - spans[i].start
  {
    var rates := Rates(spans, times);
    forall l | 1 <= l < |times|
      ensures 0.0 <= rates[l] <= times[l] - times[l - 1]
    {
      RateBounded(spans, times, l);
    }
    if times != [] {
      ShareBounded(spans, times, rates, i, |times|);
    }
  }

  lemma RateBounded(spans: seq<Span>, times: seq<real>, l: nat)
    requires 1 <= l < |times| && times[l - 1] <= times[l]
    ensures 0.0 <= Rate(spans, times, l) <= times[l] - times[l - 1]
  {
    var running, slice := RunningAt(spans, times[l - 1]), times[l] - times[l - 1];
    if running != {} {
      QuotientBounded(slice, |running|);
    }
  }

  lemma QuotientBounded(x: real, n: nat)
    requires 0.0 <= x && 1 <= n
    ensures 0.0 <= PerTask(x, n) <= x
  {
  }

  /** The busy time never exceeds the elapsed time. */
  lemma {:induction false} BusyAtMostElapsed(spans: seq<Span>, times: seq<real>, j: nat)
    requires Ascending(times) && 1 <= j <= |times|
    ensures 0.0 <= Busy(spans, times, j) <= times[j - 1] - times[0]
    ensures Busy(spans, times, j) == times[j - 1] - times[0] <==>
              forall l :: 1 <= l < j && times[l - 1] < times[l] ==> RunningAt(spans, times[l - 1]) != {}
  {
    if j > 1 {
      BusyAtMostElapsed(spans, times, j - 1);
    }
  }

  /** At every instant from `lo` up to `hi` some task is running. */
  ghost predicate NoIdleGap(spans: seq<Span>, lo: real, hi: real) {
    forall t: real :: lo <= t < hi ==> RunningAt(spans, t) != {}
  }

  lemma {:induction false} FindSlice(times: seq<real>, n: nat, t: real) returns (j: nat)
    requires n < |times| && times[0] <= t < times[n]
    ensures 1 <= j <= n && times[j - 1] <= t < times[j]
  {
    if times[n - 1] <= t {
      j := n;
    } else {
      j := FindSlice(times, n - 1, t);
    }
  }

  /** The busy time is the whole elapsed time exactly when there is no idle gap. */
  lemma BusyIsElapsedIffNoGap(spans: seq<Span>, times: seq<real>)
    requires Ascending(times) && Endpoints(spans, times) && times != []
    ensures var n := |times|;
            Busy(spans, times, n) == times[n - 1] - times[0] <==> NoIdleGap(spans, times[0], times[n - 1])
  {
    var n := |times|;
    BusyAtMostElapsed(spans, times, n);
    if forall l :: 1 <= l < n && times[l - 1] < times[l] ==> RunningAt(spans, times[l - 1]) != {} {
      forall t: real | times[0] <= t < times[n - 1]
        ensures RunningAt(spans, t) != {}
      {
        var j := FindSlice(times, n - 1, t);
        SliceUniform(spans, times, j, t);
      }
    }
  }

  // ---------------------------------------------------------------------------------------
  // Busy time and shares do not depend on the instants
  // ---------------------------------------------------------------------------------------

  /** The instants cut time into slices: they ascend and every start and end is among them. */
  ghost predicate Instants(spans: seq<Span>, times: seq<real>) {
    Ascending(times) && Endpoints(spans, times)
  }

  /** What a slice contributes, given the tasks running in it and its length. */
  type Measure = (set<nat>, real) -> real

  /** The contribution is additive in the length, and nothing while no task runs. */
  ghost predicate AdditiveAt(m: Measure, running: set<nat>, d: real, e: real) {
    m(running, d) + m(running, e) == m(running, d + e) && m(running, 0.0) == 0.0 && m({}, d) == 0.0
  }

  ghost predicate Additive(m: Measure) {
    forall running, d, e :: AdditiveAt(m, running, d, e)
  }

  /** The time during which a task runs. */
  ghost function BusyMeasure(): (m: Measure)
    ensures Additive(m)
  {
    (running, d) => if running == {} then 0.0 else d
  }

  /** The share of task `i`. */
  ghost function ShareMeasure(i: nat): (m: Measure)
    ensures Additive(m)
  {
    var m: Measure := (running, d) => if i in running then PerTask(d, |running|) else 0.0;
    assert Additive(m) by {
      forall running: set<nat>, d, e
        ensures AdditiveAt(m, running, d, e)
      {
        if i in running {
          PerTaskAdditive(d, e, |running|);
        }
      }
    }
    m
  }

  lemma PerTaskAdditive(d: real, e: real, n: nat)
    requires n > 0
    ensures PerTask(d, n) + PerTask(e, n) == PerTask(d + e, n) && PerTask(0.0, n) == 0.0
  {
  }

  /** The measure summed over the slices up to `times[j - 1]`. */
  ghost function Integral(m: Measure, spans: seq<Span>, times: seq<real>, j: nat): (r: real)
    requires j <= |times|
  {
    if j <= 1 then 0.0
    else Integral(m, spans, times, j - 1) + m(RunningAt(spans, times[j - 2]), times[j - 1] - times[j - 2])
  }

  lemma {:induction false} BusyIsIntegral(spans: seq<Span>, times: seq<real>, j: nat)
    requires j <= |times|
    ensures Busy(spans, times, j) == Integral(BusyMeasure(), spans, times, j)
  {
    if j > 1 {
      BusyIsIntegral(spans, times, j - 1);
    }
  }

  lemma {:induction false} ShareIsIntegral(spans: seq<Span>, times: seq<real>, rates: seq<real>, i: nat, j: nat)
    requires j <= |times| && rates == Rates(spans, times)
    ensures Share(spans, times, rates, i, j) == Integral(ShareMeasure(i), spans, times, j)
  {
    if j > 1 {
      ShareIsIntegral(spans, times, rates, i, j - 1);
      assert rates[j - 1] == Rate(spans, times, j - 1);
    }
  }

  /** The measure up to the moment `x`, which need not be one of the instants. */
  ghost function UpTo(m: Measure, spans: seq<Span>, times: seq<real>, j: nat, x: real): (r: real)
    requires j <= |times|
  {
    if j == 0 then 0.0
    else if times[j - 1] >= x then UpTo(m, spans, times, j - 1, x)
    else Integral(m, spans, times, j) + m(RunningAt(spans, times[j - 1]), x - times[j - 1])
  }

  /** All starts and ends before `x` are among the first `j` instants. */
  ghost predicate KnownBefore(spans: seq<Span>, times: seq<real>, j: nat, x: real)
    requires j <= |times|
  {
    forall i :: 0 <= i < |spans| ==>
                  && (spans[i].start < x ==> spans[i].start in times[..j])
                  && (spans[i].end < x ==> spans[i].end in times[..j])
  }

  /** Up to one of the instants the measure is a sum of whole slices. */
  lemma {:induction false} IntegralIsUpTo(m: Measure, spans: seq<Span>, times: seq<real>, j: nat)
    requires Additive(m) && Ascending(times) && 1 <= j <= |times|
    ensures Integral(m, spans, times, j) == UpTo(m, spans, times, j - 1, times[j - 1])
  {
    if j > 1 && times[j - 2] >= times[j - 1] {
      IntegralIsUpTo(m, spans, times, j - 1);
      assert AdditiveAt(m, RunningAt(spans, times[j - 2]), 0.0, 0.0);
    }
  }

  /** Nothing is measured before the first start. */
  lemma {:induction false} NothingBefore(m: Measure, spans: seq<Span>, times: seq<real>, j: nat, x: real)
    requires Additive(m) && Ascending(times) && j <= |times| && forall i :: 0 <= i < |spans| ==> spans[i].start >= x
    ensures UpTo(m, spans, times, j, x) == 0.0
    ensures j > 0 && times[j - 1] < x ==> Integral(m, spans, times, j) == 0.0
  {
    if j > 0 {
      NothingBefore(m, spans, times, j - 1, x);
      if times[j - 1] < x {
        assert RunningAt(spans, times[j - 1]) == {};
        assert AdditiveAt(m, {}, x - times[j - 1], 0.0);
        if j > 1 {
          assert RunningAt(spans, times[j - 2]) == {};
          assert AdditiveAt(m, {}, times[j - 1] - times[j - 2], 0.0);
        }
      }
    }
  }

  lemma SameRunning(spans: seq<Span>, times: seq<real>, j: nat, y: real, x: real)
    requires Ascending(times) && 1 <= j <= |times| && times[j - 1] <= y < x && KnownBefore(spans, times, j, x)
    ensures RunningAt(spans, y) == RunningAt(spans, times[j - 1])
  {
    forall i | 0 <= i < |spans|
      ensures spans[i].start < x ==> spans[i].start <= times[j - 1]
      ensures spans[i].end < x ==> spans[i].end <= times[j - 1]
    {
    }
  }

  /** The measure between two moments after the last known instant. */
  lemma UpToLater(m: Measure, spans: seq<Span>, times: seq<real>, j: nat, y: real, x: real)
    requires Additive(m) && Ascending(times) && 1 <= j <= |times| && times[j - 1] <= y < x && KnownBefore(spans, times, j, x)
    ensures UpTo(m, spans, times, j, x) == UpTo(m, spans, times, j, y) + m(RunningAt(spans, y), x - y)
  {
    SameRunning(spans, times, j, y, x);
    assert AdditiveAt(m, RunningAt(spans, y), y - times[j - 1], x - y);
    if times[j - 1] == y {
      IntegralIsUpTo(m, spans, times, j);
    }
  }

  lemma KnownEarlier(spans: seq<Span>, times: seq<real>, j: nat, x: real)
    requires Ascending(times) && 1 <= j <= |times| && KnownBefore(spans, times, j, x)
    ensures times[j - 1] >= x ==> KnownBefore(spans, times, j - 1, x)
    ensures times[j - 1] < x ==> KnownBefore(spans, times, j - 1, times[j - 1])
  {
    assert times[..j] == times[..j - 1] + [times[j - 1]];
  }

  /** Beyond the later of the two last instants, `s[a - 1]`, both lists measure the same. */
  lemma AgreeBeyond(m: Measure, spans: seq<Span>, s: seq<real>, a: nat, t: seq<real>, b: nat, x: real)
    requires Additive(m) && Ascending(s) && Ascending(t) && 1 <= a <= |s| && 1 <= b <= |t|
    requires t[b - 1] <= s[a - 1] < x && KnownBefore(spans, t, b, x)
    requires UpTo(m, spans, s, a - 1, s[a - 1]) == UpTo(m, spans, t, b, s[a - 1])
    ensures UpTo(m, spans, s, a, x) == UpTo(m, spans, t, b, x)
  {
    IntegralIsUpTo(m, spans, s, a);
    UpToLater(m, spans, t, b, s[a - 1], x);
  }

  /** Two lists of instants that know all starts and ends before `x` measure the same up to `x`. */
  lemma {:induction false} UpToAgree(m: Measure, spans: seq<Span>, s: seq<real>, a: nat, t: seq<real>, b: nat, x: real)
    requires Additive(m) && Ascending(s) && Ascending(t) && a <= |s| && b <= |t|
    requires KnownBefore(spans, s, a, x) && KnownBefore(spans, t, b, x)
    ensures UpTo(m, spans, s, a, x) == UpTo(m, spans, t, b, x)
    decreases a + b
  {
    if a == 0 {
      NothingBefore(m, spans, t, b, x);
    } else if b == 0 {
      NothingBefore(m, spans, s, a, x);
    } else if s[a - 1] >= x {
      KnownEarlier(spans, s, a, x);
      UpToAgree(m, spans, s, a - 1, t, b, x);
    } else if t[b - 1] >= x {
      KnownEarlier(spans, t, b, x);
      UpToAgree(m, spans, s, a, t, b - 1, x);
    } else if t[b - 1] <= s[a - 1] {
      KnownEarlier(spans, s, a, x);
      UpToAgree(m, spans, s, a - 1, t, b, s[a - 1]);
      AgreeBeyond(m, spans, s, a, t, b, x);
    } else {
      KnownEarlier(spans, t, b, x);
      UpToAgree(m, spans, s, a, t, b - 1, t[b - 1]);
      AgreeBeyond(m, spans, t, b, s, a, x);
    }
  }

  /** After the last end nothing more is measured. */
  lemma IntegralIsAll(m: Measure, spans: seq<Span>, times: seq<real>, x: real)
    requires Additive(m) && Instants(spans, times) && (times != [] ==> times[|times| - 1] < x)
    ensures KnownBefore(spans, times, |times|, x)
    ensures Integral(m, spans, times, |times|) == UpTo(m, spans, times, |times|, x)
  {
    assert times[..|times|] == times;
    if times != [] {
      assert RunningAt(spans, times[|times| - 1]) == {};
      assert AdditiveAt(m, {}, x - times[|times| - 1], 0.0);
    }
  }

  /** Whichever instants cut the time, the measure is the same. */
  lemma IndependentOfInstants(m: Measure, spans: seq<Span>, s: seq<real>, t: seq<real>)
    requires Additive(m) && Instants(spans, s) && Instants(spans, t)
    ensures Integral(m, spans, s, |s|) == Integral(m, spans, t, |t|)
  {
    var lastS, lastT := if s == [] then 0.0 else s[|s| - 1], if t == [] then 0.0 else t[|t| - 1];
    var x := (if lastS < lastT then lastT else lastS) + 1.0;
    IntegralIsAll(m, spans, s, x);
    IntegralIsAll(m, spans, t, x);
    UpToAgree(m, spans, s, |s|, t, |t|, x);
  }

  /** `x` is the time during which at least one task runs, measured with any instants. */
  ghost predicate IsBusyTime(spans: seq<Span>, x: real) {
    forall times :: Instants(spans, times) ==> x == Busy(spans, times, |times|)
  }

  /** `x` is the fair share of task `i`, measured with any instants. */
  ghost predicate IsFairShare(spans: seq<Span>, i: nat, x: real) {
    forall times :: Instants(spans, times) ==> x == FairShare(spans, times, i)
  }

  lemma BusyIsIndependent(spans: seq<Span>, s: seq<real>)
    requires Instants(spans, s)
    ensures IsBusyTime(spans, Busy(spans, s, |s|))
  {
    forall t | Instants(spans, t)
      ensures Busy(spans, s, |s|) == Busy(spans, t, |t|)
    {
      IndependentOfInstants(BusyMeasure(), spans, s, t);
      BusyIsIntegral(spans, s, |s|);
      BusyIsIntegral(spans, t, |t|);
    }
  }

  lemma ShareIsIndependent(spans: seq<Span>, s: seq<real>, i: nat)
    requires Instants(spans, s)
    ensures IsFairShare(spans, i, FairShare(spans, s, i))
  {
    forall t | Instants(spans, t)
      ensures FairShare(spans, s, i) == FairShare(spans, t, i)
    {
      IndependentOfInstants(ShareMeasure(i), spans, s, t);
      ShareIsIntegral(spans, s, Rates(spans, s), i, |s|);
      ShareIsIntegral(spans, t, Rates(spans, t), i, |t|);
    }
  }

  // ---------------------------------------------------------------------------------------
  // The summed durations
  // ---------------------------------------------------------------------------------------

  ghost function TotalDuration(spans: seq<Span>): real {
    if spans == [] then 0.0
    else TotalDuration(spans[..|spans| - 1]) + (spans[|spans| - 1].end - spans[|spans| - 1].start)
  }

  lemma TotalDurationStep(spans: seq<Span>, n: nat)
    requires n < |spans|
    ensures TotalDuration(spans[..n + 1]) == TotalDuration(spans[..n]) + (spans[n].end - spans[n].start)
  {
    assert spans[..n + 1][..n] == spans[..n];
  }

  /** The work done in a slice: its length once for every running task. */
  ghost function WorkMeasure(): Measure {
    (running: set<nat>, d) => Scale(|running|, d)
  }

  /** `x` is the number of running tasks summed over time, measured with any instants. */
  ghost predicate IsWorkTime(spans: seq<Span>, x: real) {
    forall times :: Instants(spans, times) ==> x == Integral(WorkMeasure(), spans, times, |times|)
  }

  /** The lengths of the slices, each at the index of the instant that ends it. */
  ghost predicate Lengths(times: seq<real>, lens: seq<real>) {
    |lens| == |times| && forall l :: 1 <= l < |times| ==> lens[l] == times[l] - times[l - 1]
  }

  /** The slices in which a task runs add up to the part of its duration that has passed. */
  lemma {:induction false} OwnTime(spans: seq<Span>, times: seq<real>, lens: seq<real>, i: nat, j: nat)
    requires Instants(spans, times) && Lengths(times, lens) && 1 <= j <= |times|
    requires i < |spans| && spans[i].start <= spans[i].end
    ensures Share(spans, times, lens, i, j)
         == if times[j - 1] <= spans[i].start then 0.0
            else (if times[j - 1] <= spans[i].end then times[j - 1] else spans[i].end) - spans[i].start
  {
    if j > 1 {
      OwnTime(spans, times, lens, i, j - 1);
      NoInstantInside(times, j - 1, spans[i].start);
      NoInstantInside(times, j - 1, spans[i].end);
    }
  }

  lemma WholeDuration(spans: seq<Span>, times: seq<real>, lens: seq<real>, i: nat)
    requires Instants(spans, times) && Lengths(times, lens)
    requires i < |spans| && spans[i].start <= spans[i].end
    ensures Share(spans, times, lens, i, |times|) == spans[i].end - spans[i].start
  {
    OwnTime(spans, times, lens, i, |times|);
    assert spans[i].end <= times[|times| - 1];
  }

  lemma {:induction false} DurationsAdded(spans: seq<Span>, times: seq<real>, lens: seq<real>, n: nat)
    requires Instants(spans, times) && Lengths(times, lens) && n <= |spans|
    requires forall i :: 0 <= i < |spans| ==> spans[i].start <= spans[i].end
    ensures SumShares(spans, times, lens, n, |times|) == TotalDuration(spans[..n])
  {
    if n > 0 {
      DurationsAdded(spans, times, lens, n - 1);
      WholeDuration(spans, times, lens, n - 1);
      TotalDurationStep(spans, n - 1);
    }
  }

  lemma {:induction false} SliceWork(spans: seq<Span>, times: seq<real>, lens: seq<real>, j: nat)
    requires Lengths(times, lens) && j <= |times|
    ensures SumShares(spans, times, lens, |spans|, j) == Integral(WorkMeasure(), spans, times, j)
  {
    if j <= 1 {
      SumSharesZero(spans, times, lens, |spans|, j);
    } else {
      SliceWork(spans, times, lens, j - 1);
      SumSharesStep(spans, times, lens, |spans|, j);
      var running := RunningAt(spans, times[j - 2]);
      assert Below(running, |spans|) == running;
    }
  }

  /** Counted target by target or moment by moment, the work is the same. */
  lemma TotalIsWork(spans: seq<Span>)
    requires forall i :: 0 <= i < |spans| ==> spans[i].start <= spans[i].end
    ensures IsWorkTime(spans, TotalDuration(spans))
  {
    forall times | Instants(spans, times)
      ensures TotalDuration(spans) == Integral(WorkMeasure(), spans, times, |times|)
    {
      var lens := seq(|times|, l requires 0 <= l < |times| => if l == 0 then 0.0 else times[l] - times[l - 1]);
      DurationsAdded(spans, times, lens, |spans|);
      assert spans[..|spans|] == spans;
      SliceWork(spans, times, lens, |times|);
    }
  }

  // ---------------------------------------------------------------------------------------
  // The sorted start/stop records
  // ---------------------------------------------------------------------------------------

  datatype Event = Event(time: real, stop: bool, target: nat)

  function StartOf(spans: seq<Span>, i: nat): Event
    requires i < |spans|
  {
    Event(spans[i].start, false, i)
  }

  function StopOf(spans: seq<Span>, i: nat): Event
    requires i < |spans|
  {
    Event(spans[i].end, true, i)
  }

  /** The order of the sort key (time, 'start' < 'stop'). */
  predicate Leq(e: Event, f: Event) {
    e.time < f.time || (e.time == f.time && (!e.stop || f.stop))
  }

  ghost predicate Sorted(s: seq<Event>) {
    forall k, l :: 0 <= k < l < |s| ==> Leq(s[k], s[l])
  }

  function InsertEvent(s: seq<Event>, e: Event): (r: seq<Event>)
    ensures |r| == |s| + 1
    ensures forall x :: x in r <==> x in s || x == e
  {
    if s == [] || Leq(e, s[0]) then [e] + s
    else [s[0]] + InsertEvent(s[1..], e)
  }

  lemma {:induction false} InsertEventSorted(s: seq<Event>, e: Event)
    requires Sorted(s)
    ensures Sorted(InsertEvent(s, e))
    ensures Distinct(s) && e !in s ==> Distinct(InsertEvent(s, e))
  {
    if !(s == [] || Leq(e, s[0])) {
      InsertEventSorted(s[1..], e);
      var rest := InsertEvent(s[1..], e);
      assert forall x :: x in rest ==> Leq(s[0], x);
      if Distinct(s) && e !in s {
        assert s[0] !in s[1..] && s[0] !in rest;
      }
    } else if s != [] {
      assert forall k :: 0 < k < |s| ==> Leq(s[0], s[k]);
    }
  }

  /** `list.sort` on the records. */
  method SortEvents(events: seq<Event>) returns (r: seq<Event>)
    ensures Sorted(r) && |r| == |events|
    ensures forall x :: x in r <==> x in events
    ensures Distinct(events) ==> Distinct(r)
  {
    r := [];
    for k := 0 to |events|
      invariant Sorted(r) && |r| == k
      invariant forall x :: x in r <==> x in events[..k]
      invariant Distinct(events) ==> Distinct(r)
    {
      InsertEventSorted(r, events[k]);
      assert events[..k + 1] == events[..k] + [events[k]];
      assert Distinct(events) ==> events[k] !in events[..k];
      r := InsertEvent(r, events[k]);
    }
    assert events[..|events|] == events;
  }

  /** `ev` holds exactly one start and one stop record per task, in order. */
  ghost predicate Schedule(spans: seq<Span>, ev: seq<Event>) {
    && Sorted(ev) && Distinct(ev)
    && (forall k :: 0 <= k < |ev| ==> ev[k].target < |spans|
                                      && ev[k] == if ev[k].stop then StopOf(spans, ev[k].target) else StartOf(spans, ev[k].target))
    && (forall i: nat :: i < |spans| ==> StartOf(spans, i) in ev && StopOf(spans, i) in ev)
  }

  ghost function Times(ev: seq<Event>): (r: seq<real>)
    ensures |r| == |ev| && forall k :: 0 <= k < |ev| ==> r[k] == ev[k].time
  {
    seq(|ev|, k requires 0 <= k < |ev| => ev[k].time)
  }

  lemma ScheduleTimes(spans: seq<Span>, ev: seq<Event>)
    requires Schedule(spans, ev)
    ensures Ascending(Times(ev)) && Endpoints(spans, Times(ev))
  {
    forall k, l | 0 <= k <= l < |ev|
      ensures Times(ev)[k] <= Times(ev)[l]
    {
      assert k == l || Leq(ev[k], ev[l]);
    }
    forall i: nat | i < |spans|
      ensures spans[i].start in Times(ev) && spans[i].end in Times(ev)
    {
      TimeOf(ev, StartOf(spans, i));
      TimeOf(ev, StopOf(spans, i));
    }
  }

  lemma TimeOf(ev: seq<Event>, e: Event)
    requires e in ev
    ensures e.time in Times(ev)
  {
  }

  /** Tasks whose start record is among the first `k`. */
  ghost function Started(spans: seq<Span>, ev: seq<Event>, k: nat): set<nat>
    requires k <= |ev|
  {
    set i: nat | i < |spans| && StartOf(spans, i) in ev[..k]
  }

  /** Tasks whose stop record is among the first `k`. */
  ghost function Stopped(spans: seq<Span>, ev: seq<Event>, k: nat): set<nat>
    requires k <= |ev|
  {
    set i: nat | i < |spans| && StopOf(spans, i) in ev[..k]
  }

  /** On a slice of positive length the open tasks are the running ones. */
  lemma OpenIsRunning(spans: seq<Span>, ev: seq<Event>, j: nat)
    requires Schedule(spans, ev) && 1 <= j < |ev| && ev[j - 1].time < ev[j].time
    ensures Started(spans, ev, j) - Stopped(spans, ev, j) == RunningAt(spans, ev[j - 1].time)
  {
  }

  /** A stop record comes after its start record exactly when the target does not end before it starts. */
  lemma StopFindsStart(spans: seq<Span>, ev: seq<Event>, j: nat)
    requires Schedule(spans, ev) && j < |ev| && ev[j].stop
    ensures ev[j].target in Started(spans, ev, j) <==> spans[ev[j].target].start <= spans[ev[j].target].end
  {
  }

  // ---------------------------------------------------------------------------------------
  // The scan
  // ---------------------------------------------------------------------------------------

  ghost function Sum(s: seq<real>): real {
    if s == [] then 0.0 else Sum(s[..|s| - 1]) + s[|s| - 1]
  }

  lemma {:induction false} SumUpdate(s: seq<real>, i: nat, x: real)
    requires i < |s|
    ensures Sum(s[i := x]) == Sum(s) - s[i] + x
  {
    if i == |s| - 1 {
      assert s[i := x][..|s| - 1] == s[..|s| - 1];
    } else {
      assert s[i := x][..|s| - 1] == s[..|s| - 1][i := x];
      SumUpdate(s[..|s| - 1], i, x);
    }
  }

  lemma RateOfOpen(spans: seq<Span>, times: seq<real>, k: nat, open: set<nat>)
    requires 1 <= k < |times| && times[k - 1] <= times[k]
    requires times[k - 1] < times[k] ==> open == RunningAt(spans, times[k - 1])
    ensures Rate(spans, times, k) == 0.0 || open == RunningAt(spans, times[k - 1])
    ensures open != {} ==> Rate(spans, times, k) == PerTask(times[k] - times[k - 1], |open|)
  {
  }

  /**
    The state of the scan after `k` records: running tasks carry the weighted time at which they
    started, stopped tasks their gain, and the total is the sum of the gains.
   */
  ghost predicate ScanInv(spans: seq<Span>, times: seq<real>, rates: seq<real>, k: nat, started: set<nat>, stopped: set<nat>,
                          running: map<nat, real>, weighted: real, gains: seq<real>, total: real)
    requires k <= |times| == |rates|
  {
    && |gains| == |spans| && stopped <= started && running.Keys == started - stopped
    && (forall i :: i in started ==> i < |spans|)
    && (forall i :: i in running ==> weighted - running[i] == Share(spans, times, rates, i, k))
    && (forall i: nat :: i < |spans| && i !in started ==> Share(spans, times, rates, i, k) == 0.0)
    && (forall i: nat :: i < |spans| ==> gains[i] == if i in stopped then Share(spans, times, rates, i, k) else 0.0)
    && total == Sum(gains)
  }

  /** `rates[k]` is what the open tasks gain over the slice that ends at `times[k]`. */
  ghost predicate RateFor(spans: seq<Span>, times: seq<real>, rates: seq<real>, k: nat, open: set<nat>)
    requires k < |times| == |rates|
  {
    if k == 0 then open == {} else rates[k] == 0.0 || open == RunningAt(spans, times[k - 1])
  }

  /** The tasks that have started and those that have stopped. */
  datatype Progress = Progress(started: set<nat>, stopped: set<nat>)

  /**
    What record `k` does: it starts a task not started yet or stops one not stopped yet, and a stop
    finds its task started exactly when the target does not end before it starts.
   */
  ghost predicate Move(spans: seq<Span>, ev: seq<Event>, before: Progress, k: nat, after: Progress)
    requires k < |ev|
  {
    var i := ev[k].target;
    && i < |spans|
    && (ev[k].stop ==> i !in before.stopped && after == before.(stopped := before.stopped + {i})
                       && (i in before.started <==> spans[i].start <= spans[i].end))
    && (!ev[k].stop ==> i !in before.started && after == before.(started := before.started + {i}))
  }

  /** The slice that ends at record `k` pays `rates[k]` to each open task: the code's quotient. */
  ghost predicate Pays(spans: seq<Span>, ev: seq<Event>, rates: seq<real>, before: Progress, k: nat)
    requires k < |ev| == |rates|
  {
    var open := before.started - before.stopped;
    && RateFor(spans, Times(ev), rates, k, open)
    && (open != {} ==> rates[k] == PerTask(ev[k].time - ev[if k == 0 then 0 else k - 1].time, |open|))
  }

  /** The progress of the scan, record by record, until every task has stopped. */
  ghost predicate Trace(spans: seq<Span>, ev: seq<Event>, rates: seq<real>, trace: seq<Progress>) {
    && |rates| == |ev| && |trace| == |ev| + 1 && trace[0] == Progress({}, {})
    && (forall k: nat {:trigger Move(spans, ev, trace[k], k, trace[k + 1])} :: k < |ev| ==> Move(spans, ev, trace[k], k, trace[k + 1]))
    && (forall k: nat {:trigger Pays(spans, ev, rates, trace[k], k)} :: k < |ev| ==> Pays(spans, ev, rates, trace[k], k))
    && (forall i: nat :: i < |spans| ==> i in trace[|ev|].stopped)
  }

  ghost function ProgressAt(spans: seq<Span>, ev: seq<Event>, k: nat): Progress
    requires k <= |ev|
  {
    Progress(Started(spans, ev, k), Stopped(spans, ev, k))
  }

  lemma MoveAt(spans: seq<Span>, ev: seq<Event>, k: nat)
    requires Schedule(spans, ev) && k < |ev|
    ensures Move(spans, ev, ProgressAt(spans, ev, k), k, ProgressAt(spans, ev, k + 1))
  {
  }

  /** The open tasks of a slice of positive length are running; time does not go back. */
  lemma OpenAt(spans: seq<Span>, ev: seq<Event>, k: nat, open: set<nat>)
    requires Schedule(spans, ev) && 1 <= k < |ev|
    requires open == Started(spans, ev, k) - Stopped(spans, ev, k)
    ensures Times(ev)[k - 1] <= Times(ev)[k]
    ensures Times(ev)[k - 1] < Times(ev)[k] ==> open == RunningAt(spans, Times(ev)[k - 1])
  {
    assert Leq(ev[k - 1], ev[k]);
    if ev[k - 1].time < ev[k].time {
      OpenIsRunning(spans, ev, k);
    }
  }

  lemma PaysFrom(spans: seq<Span>, ev: seq<Event>, rates: seq<real>, before: Progress, k: nat)
    requires 1 <= k < |ev| == |rates| && rates[k] == Rate(spans, Times(ev), k)
    requires Times(ev)[k - 1] <= Times(ev)[k]
    requires Times(ev)[k - 1] < Times(ev)[k] ==> before.started - before.stopped == RunningAt(spans, Times(ev)[k - 1])
    ensures Pays(spans, ev, rates, before, k)
  {
    RateOfOpen(spans, Times(ev), k, before.started - before.stopped);
  }

  lemma PaysAt(spans: seq<Span>, ev: seq<Event>, rates: seq<real>, k: nat)
    requires Schedule(spans, ev) && k < |ev| == |rates|
    requires k > 0 ==> rates[k] == Rate(spans, Times(ev), k)
    ensures Pays(spans, ev, rates, ProgressAt(spans, ev, k), k)
  {
    if k > 0 {
      OpenAt(spans, ev, k, Started(spans, ev, k) - Stopped(spans, ev, k));
      PaysFrom(spans, ev, rates, ProgressAt(spans, ev, k), k);
    }
  }

  lemma ScheduleTrace(spans: seq<Span>, ev: seq<Event>, rates: seq<real>) returns (trace: seq<Progress>)
    requires Schedule(spans, ev) && rates == Rates(spans, Times(ev))
    ensures Trace(spans, ev, rates, trace)
  {
    trace := seq(|ev| + 1, k requires 0 <= k <= |ev| => ProgressAt(spans, ev, k));
    forall k: nat | k < |ev|
      ensures Move(spans, ev, trace[k], k, trace[k + 1]) && Pays(spans, ev, rates, trace[k], k)
    {
      MoveAt(spans, ev, k);
      PaysAt(spans, ev, rates, k);
    }
    assert ev[..|ev|] == ev;
  }

  lemma ScanStart(spans: seq<Span>, times: seq<real>, rates: seq<real>, k: nat, started: set<nat>, stopped: set<nat>,
                  running: map<nat, real>, weighted: real, gains: seq<real>, total: real, weighted': real, i: nat)
    requires k < |times| == |rates| && i < |spans| && i !in started
    requires ScanInv(spans, times, rates, k, started, stopped, running, weighted, gains, total)
    requires RateFor(spans, times, rates, k, running.Keys)
    requires weighted' == if running == map[] then weighted else weighted + rates[k]
    ensures ScanInv(spans, times, rates, k + 1, started + {i}, stopped, running[i := weighted'], weighted', gains, total)
  {
  }

  lemma ScanStop(spans: seq<Span>, times: seq<real>, rates: seq<real>, k: nat, started: set<nat>, stopped: set<nat>,
                 running: map<nat, real>, weighted: real, gains: seq<real>, total: real, weighted': real, i: nat)
    requires k < |times| == |rates| && i in running
    requires ScanInv(spans, times, rates, k, started, stopped, running, weighted, gains, total)
    requires RateFor(spans, times, rates, k, running.Keys)
    requires weighted' == if running == map[] then weighted else weighted + rates[k]
    ensures i < |spans|
    ensures var gained := weighted' - running[i];
            ScanInv(spans, times, rates, k + 1, started, stopped + {i}, running - {i}, weighted', gains[i := gained], total + gained)
  {
    SumUpdate(gains, i, weighted' - running[i]);
  }

  datatype SweepError = EmptyLog | TaskNotRunning(target: nat)

  /** Accumulate the weighted time up to record `k`. */
  method AdvanceTime(ev: seq<Event>, k: nat, last: real, running: map<nat, real>, weighted: real,
                     ghost spans: seq<Span>, ghost rates: seq<real>, ghost trace: seq<Progress>)
    returns (weighted': real)
    requires k < |ev| && Trace(spans, ev, rates, trace) && last == ev[if k == 0 then 0 else k - 1].time
    requires running.Keys == trace[k].started - trace[k].stopped
    ensures weighted' == if running == map[] then weighted else weighted + rates[k]
    ensures RateFor(spans, Times(ev), rates, k, running.Keys)
  {
    assert Pays(spans, ev, rates, trace[k], k);
    assert |running.Keys| == |running|;
    weighted' := if |running| > 0 then weighted + PerTask(ev[k].time - last, |running|) else weighted;
  }

  /** Start or stop the target of record `k`; false stands for the KeyError of a task not running. */
  method HandleRecord(entries: seq<Target>, ev: seq<Event>, k: nat, running: map<nat, real>, weighted': real, total: real,
                      ghost weighted: real, ghost rates: seq<real>, ghost before: Progress, ghost after: Progress, ghost gains: seq<real>)
    returns (ok: bool, running': map<nat, real>, total': real, ghost gains': seq<real>)
    requires k < |ev| == |rates| && Move(Spans(entries), ev, before, k, after)
    requires ScanInv(Spans(entries), Times(ev), rates, k, before.started, before.stopped, running, weighted, gains, total)
    requires RateFor(Spans(entries), Times(ev), rates, k, running.Keys)
    requires weighted' == if running == map[] then weighted else weighted + rates[k]
    modifies entries[ev[k].target]
    ensures var i := ev[k].target; ok <==> !ev[k].stop || entries[i].start <= entries[i].end
    ensures ok ==> ScanInv(Spans(entries), Times(ev), rates, k + 1, after.started, after.stopped, running', weighted', gains', total')
    ensures ok ==> var i := ev[k].target;
                   if ev[k].stop then gains' == gains[i := entries[i].weightedDuration]
                   else gains' == gains && unchanged(entries[i])
  {
    ghost var spans, times := Spans(entries), Times(ev);
    var i := ev[k].target;
    ok, running', total', gains' := true, running, total, gains;
    if !ev[k].stop {
      ScanStart(spans, times, rates, k, before.started, before.stopped, running, weighted, gains, total, weighted', i);
      running' := running[i := weighted'];
    } else if i in running {
      ScanStop(spans, times, rates, k, before.started, before.stopped, running, weighted, gains, total, weighted', i);
      var gained := weighted' - running[i];
      entries[i].SetWeightedDuration(gained);
      gains' := gains[i := gained];
      total' := total + gained;
      running' := running - {i};
    } else {
      ok := false;
    }
  }

  /** The scan over the sorted records, against given rates. */
  method ScanRecords(entries: seq<Target>, ev: seq<Event>, ghost rates: seq<real>, ghost trace: seq<Progress>)
    returns (r: Result<real, SweepError>)
    requires Distinct(entries) && ev != [] && Trace(Spans(entries), ev, rates, trace)
    modifies entries
    ensures r.Success? <==> forall i :: 0 <= i < |entries| ==> entries[i].start <= entries[i].end
    ensures r.Failure? ==> r.error.TaskNotRunning?
    ensures r.Success? ==> r.value == SumShares(Spans(entries), Times(ev), rates, |entries|, |ev|)
    ensures r.Success? ==> forall i :: 0 <= i < |entries| ==>
                             entries[i].weightedDuration == Share(Spans(entries), Times(ev), rates, i, |ev|)
  {
    ghost var spans, times := Spans(entries), Times(ev);
    ghost var gains := seq(|entries|, _ => 0.0);
    var running: map<nat, real> := map[];
    var weighted, total, last := 0.0, 0.0, ev[0].time;
    ScanInitially(spans, times, rates, gains);
    for k := 0 to |ev|
      invariant ScanInv(spans, times, rates, k, trace[k].started, trace[k].stopped, running, weighted, gains, total)
      invariant last == ev[if k == 0 then 0 else k - 1].time
      invariant forall i :: i in trace[k].stopped ==> i < |entries| && entries[i].start <= entries[i].end
      invariant forall i :: i in trace[k].stopped ==> entries[i].weightedDuration == gains[i]
    {
      assert Move(spans, ev, trace[k], k, trace[k + 1]);
      ghost var previous := weighted;
      weighted := AdvanceTime(ev, k, last, running, weighted, spans, rates, trace);
      var ok;
      ok, running, total, gains :=
        HandleRecord(entries, ev, k, running, weighted, total, previous, rates, trace[k], trace[k + 1], gains);
      if !ok {
        return Failure(TaskNotRunning(ev[k].target));
      }
      last := ev[k].time;
    }
    ScanEnd(spans, times, rates, trace[|ev|].started, trace[|ev|].stopped, running, weighted, gains, total);
    assert |running| == 0;
    r := Success(total);
  }

  lemma ScanInitially(spans: seq<Span>, times: seq<real>, rates: seq<real>, gains: seq<real>)
    requires |rates| == |times| && |gains| == |spans| && forall i :: 0 <= i < |gains| ==> gains[i] == 0.0
    ensures ScanInv(spans, times, rates, 0, {}, {}, map[], 0.0, gains, 0.0)
  {
    SumZero(gains);
  }

  lemma ScanEnd(spans: seq<Span>, times: seq<real>, rates: seq<real>, started: set<nat>, stopped: set<nat>,
                running: map<nat, real>, weighted: real, gains: seq<real>, total: real)
    requires |rates| == |times| && forall i: nat :: i < |spans| ==> i in stopped
    requires ScanInv(spans, times, rates, |times|, started, stopped, running, weighted, gains, total)
    ensures running == map[]
    ensures forall i: nat :: i < |spans| ==> gains[i] == Share(spans, times, rates, i, |times|)
    ensures total == SumShares(spans, times, rates, |spans|, |times|)
  {
    SumOfShares(spans, times, rates, gains, |spans|);
    assert gains[..|spans|] == gains;
  }

  lemma {:induction false} SumZero(s: seq<real>)
    requires forall i :: 0 <= i < |s| ==> s[i] == 0.0
    ensures Sum(s) == 0.0
  {
    if s != [] {
      SumZero(s[..|s| - 1]);
    }
  }

  lemma {:induction false} SumOfShares(spans: seq<Span>, times: seq<real>, rates: seq<real>, gains: seq<real>, n: nat)
    requires |rates| == |times| && n <= |gains|
    requires forall i: nat :: i < |gains| ==> gains[i] == Share(spans, times, rates, i, |times|)
    ensures Sum(gains[..n]) == SumShares(spans, times, rates, n, |times|)
  {
    if n > 0 {
      SumOfShares(spans, times, rates, gains, n - 1);
      assert gains[..n][..n - 1] == gains[..n - 1];
    }
  }

  // ---------------------------------------------------------------------------------------
  // The whole summary
  // ---------------------------------------------------------------------------------------

  /** The figures of the report; the reported length is `latest - earliest`. */
  datatype Summary = Summary(weightedTotal: real, earliest: real, latest: real, totalCpuTime: real)

  /** The records in log order: start of task `i` at `2 * i`, stop at `2 * i + 1`. */
  ghost predicate LogOrder(spans: seq<Span>, events: seq<Event>) {
    |events| == 2 * |spans|
    && forall i: nat :: i < |spans| ==> events[2 * i] == StartOf(spans, i) && events[2 * i + 1] == StopOf(spans, i)
  }

  lemma LogOrderStep(spans: seq<Span>, n: nat, events: seq<Event>)
    requires n < |spans| && LogOrder(spans[..n], events)
    ensures LogOrder(spans[..n + 1], events + [StartOf(spans, n), StopOf(spans, n)])
  {
  }

  ghost predicate LeastStart(spans: seq<Span>, lo: real) {
    (forall i :: 0 <= i < |spans| ==> lo <= spans[i].start) && exists i :: 0 <= i < |spans| && spans[i].start == lo
  }

  ghost predicate GreatestEnd(spans: seq<Span>, hi: real) {
    (forall i :: 0 <= i < |spans| ==> spans[i].end <= hi) && exists i :: 0 <= i < |spans| && spans[i].end == hi
  }

  /** `lo` is the first start and `hi` the last end. */
  ghost predicate Extent(spans: seq<Span>, lo: real, hi: real) {
    LeastStart(spans, lo) && GreatestEnd(spans, hi)
  }

  /**
    The logs whose first start is found although -1 stands for "none yet": no start is negative, or
    the last entry has the first start.
   */
  ghost predicate StartFound(spans: seq<Span>)
    requires spans != []
  {
    || (forall i :: 0 <= i < |spans| ==> 0.0 <= spans[i].start)
    || (forall i :: 0 <= i < |spans| ==> spans[|spans| - 1].start <= spans[i].start)
  }

  /** The logs whose last end is found although the search begins at 0. */
  ghost predicate EndFound(spans: seq<Span>) {
    exists i :: 0 <= i < |spans| && 0.0 <= spans[i].end
  }

  /** A negative value kept for the first start is overwritten by the next entry. */
  ghost predicate EarliestInv(spans: seq<Span>, lo: real) {
    if spans == [] then lo == -1.0
    else
      && lo <= spans[|spans| - 1].start && (lo < 0.0 ==> lo == spans[|spans| - 1].start)
      && (exists i :: 0 <= i < |spans| && spans[i].start == lo)
      && ((forall i :: 0 <= i < |spans| ==> 0.0 <= spans[i].start) ==> forall i :: 0 <= i < |spans| ==> lo <= spans[i].start)
  }

  lemma EarliestStep(spans: seq<Span>, n: nat, lo: real, lo': real)
    requires n < |spans| && EarliestInv(spans[..n], lo)
    requires lo' == if lo < 0.0 || spans[n].start < lo then spans[n].start else lo
    ensures EarliestInv(spans[..n + 1], lo')
  {
    assert spans[..n + 1] == spans[..n] + [spans[n]];
    if lo' == lo && n > 0 {
      var i :| 0 <= i < n && spans[..n][i].start == lo;
      assert spans[..n + 1][i].start == lo';
    } else {
      assert spans[..n + 1][n].start == lo';
    }
    assert forall i :: 0 <= i < n ==> spans[..n][i] == spans[..n + 1][i];
  }

  lemma EarliestIff(spans: seq<Span>, lo: real)
    requires spans != [] && EarliestInv(spans, lo)
    ensures LeastStart(spans, lo) <==> StartFound(spans)
  {
  }

  ghost predicate LatestInv(spans: seq<Span>, hi: real) {
    && 0.0 <= hi && (forall i :: 0 <= i < |spans| ==> spans[i].end <= hi)
    && (hi == 0.0 || exists i :: 0 <= i < |spans| && spans[i].end == hi)
  }

  lemma LatestStep(spans: seq<Span>, n: nat, hi: real, hi': real)
    requires n < |spans| && LatestInv(spans[..n], hi) && hi' == if spans[n].end > hi then spans[n].end else hi
    ensures LatestInv(spans[..n + 1], hi')
  {
    assert spans[..n + 1] == spans[..n] + [spans[n]];
  }

  lemma LatestIff(spans: seq<Span>, hi: real)
    requires LatestInv(spans, hi)
    ensures GreatestEnd(spans, hi) <==> EndFound(spans)
  {
    if EndFound(spans) {
      var i :| 0 <= i < |spans| && 0.0 <= spans[i].end;
      assert hi == 0.0 ==> spans[i].end == hi;
    }
  }

  /**
    Collects the records, the extent of the build and the summed durations; the extent is right
    exactly for the logs described by `StartFound` and `EndFound`.
   */
  method CollectRecords(entries: seq<Target>) returns (events: seq<Event>, earliest: real, latest: real, cpu: real)
    ensures LogOrder(Spans(entries), events)
    ensures cpu == TotalDuration(Spans(entries))
    ensures entries != [] ==> (LeastStart(Spans(entries), earliest) <==> StartFound(Spans(entries)))
    ensures GreatestEnd(Spans(entries), latest) <==> EndFound(Spans(entries))
  {
    ghost var spans := Spans(entries);
    events, earliest, latest, cpu := [], -1.0, 0.0, 0.0;
    for n := 0 to |entries|
      invariant LogOrder(spans[..n], events)
      invariant cpu == TotalDuration(spans[..n])
      invariant EarliestInv(spans[..n], earliest) && LatestInv(spans[..n], latest)
    {
      var target := entries[n];
      ghost var earliest0, latest0 := earliest, latest;
      earliest := if earliest < 0.0 || target.start < earliest then target.start else earliest;
      latest := if target.end > latest then target.end else latest;
      cpu := cpu + target.Duration();
      TotalDurationStep(spans, n);
      LogOrderStep(spans, n, events);
      EarliestStep(spans, n, earliest0, earliest);
      LatestStep(spans, n, latest0, latest);
      events := events + [Event(target.start, false, n), Event(target.end, true, n)];
    }
    assert spans[..|entries|] == spans;
    if entries != [] {
      EarliestIff(spans, earliest);
    }
    LatestIff(spans, latest);
  }

  lemma SortedIsSchedule(spans: seq<Span>, events: seq<Event>, ev: seq<Event>)
    requires LogOrder(spans, events) && Sorted(ev)
    requires (forall x :: x in ev <==> x in events) && (Distinct(events) ==> Distinct(ev))
    ensures Schedule(spans, ev)
  {
    forall k | 0 <= k < |events|
      ensures events[k].target == k / 2 && events[k].stop == (k % 2 == 1)
      ensures events[k] == if events[k].stop then StopOf(spans, k / 2) else StartOf(spans, k / 2)
    {
      assert events[2 * (k / 2)] == StartOf(spans, k / 2) && events[2 * (k / 2) + 1] == StopOf(spans, k / 2);
    }
    assert Distinct(events);
    forall k | 0 <= k < |ev|
      ensures ev[k].target < |spans|
           && ev[k] == if ev[k].stop then StopOf(spans, ev[k].target) else StartOf(spans, ev[k].target)
    {
      assert ev[k] in events;
      var l :| 0 <= l < |events| && events[l] == ev[k];
    }
    forall i: nat | i < |spans|
      ensures StartOf(spans, i) in ev && StopOf(spans, i) in ev
    {
      assert events[2 * i] in events && events[2 * i + 1] in events;
    }
  }

  /** The first and last record times are the extent of the build. */
  lemma ScheduleExtent(spans: seq<Span>, ev: seq<Event>, lo: real, hi: real)
    requires Schedule(spans, ev) && ev != [] && Extent(spans, lo, hi)
    requires forall i :: 0 <= i < |spans| ==> spans[i].start <= spans[i].end
    ensures Times(ev)[0] == lo && Times(ev)[|ev| - 1] == hi
  {
    var times := Times(ev);
    ScheduleTimes(spans, ev);
    EndpointsWithin(spans, times, lo, hi);
    RecordWithin(spans, ev, 0, lo, hi);
    RecordWithin(spans, ev, |ev| - 1, lo, hi);
  }

  lemma RecordWithin(spans: seq<Span>, ev: seq<Event>, k: nat, lo: real, hi: real)
    requires Schedule(spans, ev) && k < |ev| && Extent(spans, lo, hi)
    requires forall i :: 0 <= i < |spans| ==> spans[i].start <= spans[i].end
    ensures lo <= ev[k].time <= hi
  {
  }

  lemma EndpointsWithin(spans: seq<Span>, times: seq<real>, lo: real, hi: real)
    requires Ascending(times) && Endpoints(spans, times) && times != [] && Extent(spans, lo, hi)
    ensures times[0] <= lo && hi <= times[|times| - 1]
  {
  }

  /** The busy time against the extent of the build. */
  lemma BusyWithinExtent(spans: seq<Span>, ev: seq<Event>, lo: real, hi: real)
    requires Schedule(spans, ev) && ev != [] && Extent(spans, lo, hi)
    requires forall i :: 0 <= i < |spans| ==> spans[i].start <= spans[i].end
    ensures Busy(spans, Times(ev), |ev|) <= hi - lo
    ensures Busy(spans, Times(ev), |ev|) == hi - lo <==> NoIdleGap(spans, lo, hi)
  {
    ScheduleTimes(spans, ev);
    ScheduleExtent(spans, ev, lo, hi);
    BusyAtMostElapsed(spans, Times(ev), |ev|);
    BusyIsElapsedIffNoGap(spans, Times(ev));
  }

  /**
    The report: a log without entries and a task that ends before it starts are the only failures;
    otherwise every target holds its fair share, never more than its duration, the shares add up to
    the busy time, and the CPU time is the number of running targets summed over time. The reported length is that of the build exactly for the logs whose extent is
    found; the busy time then equals it exactly when there is no idle gap.
   */
  method SummarizeEntries(entries: seq<Target>) returns (r: Result<Summary, SweepError>)
    requires Distinct(entries)
    modifies entries
    ensures entries == [] <==> r == Failure(EmptyLog)
    ensures entries != [] ==> (r.Success? <==> forall i :: 0 <= i < |entries| ==> entries[i].start <= entries[i].end)
    ensures r.Success? ==> exists times :: Instants(Spans(entries), times)
    ensures r.Success? ==>
              && IsBusyTime(Spans(entries), r.value.weightedTotal)
              && r.value.totalCpuTime == TotalDuration(Spans(entries)) && IsWorkTime(Spans(entries), r.value.totalCpuTime)
              && (forall i :: 0 <= i < |entries| ==>
                    && IsFairShare(Spans(entries), i, entries[i].weightedDuration)
                    && 0.0 <= entries[i].weightedDuration <= entries[i].Duration())
    ensures r.Success? ==>
              (Extent(Spans(entries), r.value.earliest, r.value.latest) <==> StartFound(Spans(entries)) && EndFound(Spans(entries)))
    ensures r.Success? && StartFound(Spans(entries)) && EndFound(Spans(entries)) ==>
              var length := r.value.latest - r.value.earliest;
              && r.value.weightedTotal <= length
              && (r.value.weightedTotal == length <==> NoIdleGap(Spans(entries), r.value.earliest, r.value.latest))
  {
    var events, earliest, latest, cpu := CollectRecords(entries);
    if entries == [] {
      return Failure(EmptyLog);
    }
    var ev := SortEvents(events);
    ghost var spans, times := Spans(entries), Times(ev);
    SortedIsSchedule(spans, events, ev);
    ghost var rates := Rates(spans, times);
    ghost var trace := ScheduleTrace(spans, ev, rates);
    var total := ScanRecords(entries, ev, rates, trace);
    if total.Failure? {
      return Failure(total.error);
    }
    r := Success(Summary(total.value, earliest, latest, cpu));
    TotalIsWork(spans);
    SharesSumToBusy(spans, times, |ev|);
    ScheduleTimes(spans, ev);
    assert Instants(spans, times);
    BusyIsIndependent(spans, times);
    forall i | 0 <= i < |entries|
      ensures IsFairShare(spans, i, entries[i].weightedDuration)
      ensures 0.0 <= entries[i].weightedDuration <= entries[i].Duration()
    {
      ShareIsIndependent(spans, times, i);
      FairShareBounded(spans, times, i);
    }
    if StartFound(spans) && EndFound(spans) {
      BusyWithinExtent(spans, ev, earliest, latest);
    }
  }
}
