/**
 How often `evolve` of app/utils/model.py records an observation: after every
 step as written, since `observe_count` is never incremented, against every
 `observe_interval`-th step as the interval evidently means.
 */
module Cadence {
  import opened Lattice
  import opened IsingModel

  /** The steps after which `evolve` records, as written: the guard tests
      `observe_count % observe_interval`, and `observe_count` stays 0, so the
      guard holds after every step. */
  function RecordedSteps(n: nat, interval: int): (r: seq<nat>)
    requires interval >= 1
    decreases n
  {
    if n == 0 then []
    else RecordedSteps(n - 1, interval) + (if 0 % interval == 0 then [n - 1] else [])
  }

  /** As written, every step is recorded, in order. */
  lemma {:induction false} RecordedEveryStep(n: nat, interval: int)
    requires interval >= 1
    ensures |RecordedSteps(n, interval)| == n
    ensures forall k :: 0 <= k < n ==> RecordedSteps(n, interval)[k] == k
  {
    if n > 0 {
      RecordedEveryStep(n - 1, interval);
    }
  }

  /** As written, the records of any run are numbered by `RecordedSteps`:
      record k belongs to step k, whatever the interval. */
  lemma TraceFollowsRecordedSteps(g: Grid, ds: seq<Draw>, arr: array2<int>, interval: int)
    requires IsGrid(g) && DrawsFit(g, ds) && interval >= 1
    ensures |Trace(g, ds, arr)| == |RecordedSteps(|ds|, interval)|
    ensures forall k :: 0 <= k < |ds| ==> Trace(g, ds, arr)[k].step == RecordedSteps(|ds|, interval)[k]
  {
    RecordedEveryStep(|ds|, interval);
  }

  /** The steps after which `evolve` evidently means to record: every
      `observe_interval`-th step, starting with step 0. */
  function SampledSteps(n: nat, interval: int): (r: seq<nat>)
    requires interval >= 1
    ensures forall k :: k in r <==> 0 <= k < n && k % interval == 0
    ensures forall a, b :: 0 <= a < b < |r| ==> r[a] < r[b]
    ensures forall a :: 0 <= a < |r| ==> r[a] < n
    decreases n
  {
    if n == 0 then []
    else SampledSteps(n - 1, interval) + (if (n - 1) % interval == 0 then [n - 1] else [])
  }

  /** A step q * interval + r with 0 <= r < interval is a multiple of the
      interval exactly when r is 0. */
  lemma BlockRemainder(q: nat, interval: int, r: nat)
    requires interval >= 1 && r < interval
    ensures (q * interval + r) % interval == r
  {
    var x := q * interval + r;
    var d := x / interval - q;
    assert x == interval * (x / interval) + x % interval;
    assert interval * d == r - x % interval;
  }

  /** Sampling one more step adds it exactly when it is a multiple of the
      interval. */
  lemma SampledNext(n: nat, interval: int)
    requires interval >= 1
    ensures |SampledSteps(n + 1, interval)| == |SampledSteps(n, interval)| + (if n % interval == 0 then 1 else 0)
  {
  }

  lemma MulPred(q: int, interval: int)
    ensures (q - 1) * interval == q * interval - interval
  {
  }

  /** Sampling the first n = q * interval + r steps (0 <= r < interval)
      records q steps, and one more when r > 0: the ceiling of n / interval. */
  lemma {:induction false} SampledCount(n: nat, q: nat, interval: int, r: nat)
    requires interval >= 1 && r < interval && n == q * interval + r
    ensures |SampledSteps(n, interval)| == q + (if r > 0 then 1 else 0)
    decreases q, r
  {
    if r > 0 {
      SampledCount(n - 1, q, interval, r - 1);
      BlockRemainder(q, interval, r - 1);
      SampledNext(n - 1, interval);
    } else if q > 0 {
      MulPred(q, interval);
      SampledCount(n - 1, q - 1, interval, interval - 1);
      BlockRemainder(q - 1, interval, interval - 1);
      SampledNext(n - 1, interval);
    }
  }

  /** When `observe_counts` divides `steps`, sampling every
      `observe_interval`-th step records exactly `observe_counts` steps. */
  lemma SampledCountDivides(steps: nat, counts: int)
    requires 0 < counts <= steps && steps % counts == 0
    ensures |SampledSteps(steps, ObserveInterval(steps, counts))| == counts
  {
    var i := ObserveInterval(steps, counts);
    assert i == steps / counts;
    assert counts * i == steps;
    SampledCount(steps, counts, i, 0);
  }

  /** With the defaults (100 steps, 10 observations) the evident intent is 10
      records, one every 10 steps, but as written `evolve` records all 100. */
  lemma DefaultCadence(g: Grid, ds: seq<Draw>, arr: array2<int>)
    requires IsGrid(g) && DrawsFit(g, ds) && |ds| == 100
    ensures ObserveInterval(100, 10) == 10
    ensures |SampledSteps(100, ObserveInterval(100, 10))| == 10
    ensures |RecordedSteps(100, ObserveInterval(100, 10))| == 100 == |Trace(g, ds, arr)|
    ensures forall k :: 0 <= k < 100 ==> Trace(g, ds, arr)[k].step == RecordedSteps(100, 10)[k]
  {
    SampledCountDivides(100, 10);
    TraceFollowsRecordedSteps(g, ds, arr, 10);
  }
}
