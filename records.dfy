/**
 The records a metrics registry keeps per metric name, the pure functions that
 say how each handle operation changes a record, and what those operations
 guarantee when composed.
 */
module MetricRecords {

  /** A counter: an accumulated number and its help text. */
  datatype CounterRecord = CounterRecord(value: real, description: string)

  /** A gauge: a number that may be set, raised or lowered, and its help text. */
  datatype GaugeRecord = GaugeRecord(value: real, description: string)

  /** One histogram bucket: its upper bound and how many observations it caught. */
  datatype Bucket = Bucket(bound: real, hits: nat)

  /** A histogram: observation count, their sum, the buckets in declaration order. */
  datatype HistogramRecord = HistogramRecord(count: nat, sum: real, buckets: seq<Bucket>, description: string)

  /** The bucket bounds used when a histogram is registered without any. */
  const DefaultBounds: seq<real> := [0.1, 0.5, 1.0, 2.0, 5.0]

  predicate NoDuplicates(s: seq<real>)
  {
    forall i, j :: 0 <= i < j < |s| ==> s[i] != s[j]
  }

  /** Position of the first occurrence of `x` in `s`. */
  function FirstIndex(s: seq<real>, x: real): (k: nat)
    requires x in s
    ensures k < |s| && s[k] == x
    ensures forall i :: 0 <= i < k ==> s[i] != x
  {
    if s[0] == x then 0 else 1 + FirstIndex(s[1..], x)
  }

  /** Where `x` first occurs does not depend on what follows that occurrence. */
  lemma {:induction false} FirstIndexOfPrefix(s: seq<real>, n: nat, x: real)
    requires n <= |s| && x in s[..n]
    ensures FirstIndex(s, x) == FirstIndex(s[..n], x)
  {
    if s[0] != x {
      assert s[1..][..n - 1] == s[..n][1..];
      FirstIndexOfPrefix(s[1..], n - 1, x);
    }
  }

  /**
   The keys of a dictionary built by inserting `s` in order: every value once,
   placed where it first occurred.
   */
  function FirstOccurrences(s: seq<real>): (r: seq<real>)
    ensures NoDuplicates(r)
    ensures forall x :: x in r <==> x in s
  {
    if s == [] then []
    else
      var prev := FirstOccurrences(s[..|s| - 1]);
      assert s == s[..|s| - 1] + [s[|s| - 1]];
      if s[|s| - 1] in prev then prev else prev + [s[|s| - 1]]
  }

  /** Already distinct bounds are kept exactly as given. */
  lemma {:induction false} FirstOccurrencesOfDistinct(s: seq<real>)
    requires NoDuplicates(s)
    ensures FirstOccurrences(s) == s
  {
    if s != [] {
      var n := |s| - 1;
      FirstOccurrencesOfDistinct(s[..n]);
      assert s[n] !in s[..n];
      assert s == s[..n] + [s[n]];
    }
  }

  /** The kept values appear in the order of their first occurrence in `s`. */
  lemma {:induction false} FirstOccurrencesInOrder(s: seq<real>)
    ensures forall i, j :: 0 <= i < j < |FirstOccurrences(s)| ==>
              FirstIndex(s, FirstOccurrences(s)[i]) < FirstIndex(s, FirstOccurrences(s)[j])
  {
    if s != [] {
      var n := |s| - 1;
      var init := s[..n];
      var prev := FirstOccurrences(init);
      var r := FirstOccurrences(s);
      FirstOccurrencesInOrder(init);
      forall i | 0 <= i < |prev|
        ensures prev[i] in init && FirstIndex(s, prev[i]) == FirstIndex(init, prev[i]) < n
      {
        assert prev[i] in prev;
        FirstIndexOfPrefix(s, n, prev[i]);
      }
      if s[n] in prev {
        assert r == prev;
      } else {
        assert r == prev + [s[n]];
        assert s[n] !in init;
        assert FirstIndex(s, s[n]) == n;
        forall i, j | 0 <= i < j < |r|
          ensures FirstIndex(s, r[i]) < FirstIndex(s, r[j])
        {
          if j < |prev| {
            assert r[i] == prev[i] && r[j] == prev[j];
          } else {
            assert r[i] == prev[i] && r[j] == s[n];
          }
        }
      }
    }
  }

  /** The record `counter(name, description)` creates for a new name. */
  function NewCounter(description: string): (r: CounterRecord)
    ensures r.value == 0.0 && r.description == description
  {
    CounterRecord(0.0, description)
  }

  /** The record `gauge(name, description)` creates for a new name. */
  function NewGauge(description: string): (r: GaugeRecord)
    ensures r.value == 0.0 && r.description == description
  {
    GaugeRecord(0.0, description)
  }

  /** Bucket bounds of a histogram, in bucket order. */
  function Bounds(bs: seq<Bucket>): (r: seq<real>)
    ensures |r| == |bs| && forall i :: 0 <= i < |bs| ==> r[i] == bs[i].bound
  {
    seq(|bs|, i requires 0 <= i < |bs| => bs[i].bound)
  }

  /**
   The record `histogram(name, buckets, description)` creates for a new name:
   nothing observed, one empty bucket per distinct bound, in the given order.
   */
  function NewHistogram(bounds: seq<real>, description: string): (r: HistogramRecord)
    ensures r.count == 0 && r.sum == 0.0 && r.description == description
    ensures Bounds(r.buckets) == FirstOccurrences(bounds)
    ensures forall i :: 0 <= i < |r.buckets| ==> r.buckets[i].hits == 0
    ensures Consistent(r)
  {
    var keys := FirstOccurrences(bounds);
    HistogramRecord(0, 0.0, seq(|keys|, i requires 0 <= i < |keys| => Bucket(keys[i], 0)), description)
  }

  /** With distinct bounds a new histogram has exactly one empty bucket per given bound, in order. */
  lemma NewHistogramOfDistinct(bounds: seq<real>, description: string)
    requires NoDuplicates(bounds)
    ensures |NewHistogram(bounds, description).buckets| == |bounds|
    ensures forall i :: 0 <= i < |bounds| ==> NewHistogram(bounds, description).buckets[i] == Bucket(bounds[i], 0)
  {
    FirstOccurrencesOfDistinct(bounds);
  }

  /**
   What every histogram record satisfies: bounds are distinct, no bucket holds
   more than `count`, and a bucket with a higher bound holds at least as much
   as one with a lower bound, whatever their order.
   */
  ghost predicate Consistent(h: HistogramRecord)
  {
    && NoDuplicates(Bounds(h.buckets))
    && (forall i :: 0 <= i < |h.buckets| ==> h.buckets[i].hits <= h.count)
    && (forall i, j :: 0 <= i < |h.buckets| && 0 <= j < |h.buckets| && h.buckets[i].bound <= h.buckets[j].bound ==>
          h.buckets[i].hits <= h.buckets[j].hits)
  }

  /** A bucket after observing `v`: it catches `v` when `v` is at most its bound. */
  function Caught(b: Bucket, v: real): Bucket
  {
    if v <= b.bound then b.(hits := b.hits + 1) else b
  }

  /** A histogram record after `observe(v)`. */
  function Observed(h: HistogramRecord, v: real): (r: HistogramRecord)
    ensures r.count == h.count + 1 && r.sum == h.sum + v && r.description == h.description
    ensures |r.buckets| == |h.buckets| && Bounds(r.buckets) == Bounds(h.buckets)
    ensures forall i :: 0 <= i < |h.buckets| && v <= h.buckets[i].bound ==> r.buckets[i].hits == h.buckets[i].hits + 1
    ensures forall i :: 0 <= i < |h.buckets| && h.buckets[i].bound < v ==> r.buckets[i] == h.buckets[i]
  {
    h.(count := h.count + 1, sum := h.sum + v,
       buckets := seq(|h.buckets|, i requires 0 <= i < |h.buckets| => Caught(h.buckets[i], v)))
  }

  /** Observing keeps a histogram record consistent. */
  lemma ObservedKeepsConsistent(h: HistogramRecord, v: real)
    requires Consistent(h)
    ensures Consistent(Observed(h, v))
  {
  }

  /** A value above every bound is counted and summed but lands in no bucket. */
  lemma ObservedAboveAllBounds(h: HistogramRecord, v: real)
    requires forall i :: 0 <= i < |h.buckets| ==> h.buckets[i].bound < v
    ensures Observed(h, v).buckets == h.buckets
    ensures Observed(h, v).count == h.count + 1 && Observed(h, v).sum == h.sum + v
  {
  }

  predicate Ascending(s: seq<real>)
  {
    forall i, j :: 0 <= i < j < |s| ==> s[i] <= s[j]
  }

  /** With bounds declared in ascending order the buckets are cumulative. */
  lemma AscendingBoundsAreCumulative(h: HistogramRecord)
    requires Consistent(h) && Ascending(Bounds(h.buckets))
    ensures forall i, j :: 0 <= i < j < |h.buckets| ==> h.buckets[i].hits <= h.buckets[j].hits
  {
  }

  /** Sum of a sequence of numbers. */
  function Total(xs: seq<real>): real
  {
    if xs == [] then 0.0 else xs[0] + Total(xs[1..])
  }

  /** How many of `xs` are at most `bound`. */
  function AtMost(xs: seq<real>, bound: real): nat
  {
    if xs == [] then 0 else (if xs[0] <= bound then 1 else 0) + AtMost(xs[1..], bound)
  }

  lemma {:induction false} TotalAppend(xs: seq<real>, x: real)
    ensures Total(xs + [x]) == Total(xs) + x
  {
    if xs != [] {
      assert (xs + [x])[1..] == xs[1..] + [x];
      TotalAppend(xs[1..], x);
    }
  }

  lemma {:induction false} AtMostAppend(xs: seq<real>, x: real, bound: real)
    ensures AtMost(xs + [x], bound) == AtMost(xs, bound) + (if x <= bound then 1 else 0)
  {
    if xs != [] {
      assert (xs + [x])[1..] == xs[1..] + [x];
      AtMostAppend(xs[1..], x, bound);
    }
  }

  /** A histogram record after the observations `obs`, made in order. */
  function ObservedAll(h: HistogramRecord, obs: seq<real>): HistogramRecord
  {
    if obs == [] then h
    else Observed(ObservedAll(h, obs[..|obs| - 1]), obs[|obs| - 1])
  }

  /**
   A histogram registered with `bounds` agrees, after any sequence of
   observations, with a direct count: `count` is how many were observed,
   `sum` their total, and each bucket holds how many were at most its bound.
   */
  lemma {:induction false} ObservedAllMatchesCount(bounds: seq<real>, description: string, obs: seq<real>)
    ensures var h := ObservedAll(NewHistogram(bounds, description), obs);
      && h.count == |obs|
      && h.sum == Total(obs)
      && h.description == description
      && Bounds(h.buckets) == FirstOccurrences(bounds)
      && (forall i :: 0 <= i < |h.buckets| ==> h.buckets[i].hits == AtMost(obs, h.buckets[i].bound))
      && Consistent(h)
  {
    if obs != [] {
      var init, v := obs[..|obs| - 1], obs[|obs| - 1];
      assert obs == init + [v];
      ObservedAllMatchesCount(bounds, description, init);
      ObservedKeepsConsistent(ObservedAll(NewHistogram(bounds, description), init), v);
      TotalAppend(init, v);
      forall b: real { AtMostAppend(init, v, b); }
    }
  }

  /** A counter record after the increments `deltas`, applied in order. */
  function IncAll(r: CounterRecord, deltas: seq<real>): CounterRecord
  {
    if deltas == [] then r
    else
      var prev := IncAll(r, deltas[..|deltas| - 1]);
      prev.(value := prev.value + deltas[|deltas| - 1])
  }

  /** Successive increments add up: the value grows by their total. */
  lemma {:induction false} IncAllAddsTotal(r: CounterRecord, deltas: seq<real>)
    ensures IncAll(r, deltas) == r.(value := r.value + Total(deltas))
  {
    if deltas != [] {
      var init := deltas[..|deltas| - 1];
      assert deltas == init + [deltas[|deltas| - 1]];
      IncAllAddsTotal(r, init);
      TotalAppend(init, deltas[|deltas| - 1]);
    }
  }

  /** With no negative increment a counter never goes down. */
  lemma {:induction false} IncAllMonotone(r: CounterRecord, deltas: seq<real>)
    requires forall i :: 0 <= i < |deltas| ==> deltas[i] >= 0.0
    ensures IncAll(r, deltas).value >= r.value
  {
    if deltas != [] {
      IncAllMonotone(r, deltas[..|deltas| - 1]);
    }
  }
}
