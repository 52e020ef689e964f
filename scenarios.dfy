/**
 Client code of the registry, as the request handlers use it: what a caller
 can conclude from the handle contracts alone.
 */
module Scenarios {
  import opened MetricRecords
  import opened Metrics

  /**
   Raising and then lowering a gauge by the same amount restores the whole
   registry. This holds of exact values only: with floating point, a gauge at
   0.1 raised and lowered by 0.2 need not return to 0.1.
   */
  method GaugeIncThenDec(g: Gauge, v: real)
    requires g.collector.Valid() && g.name in g.collector.gauges
    modifies g.collector
    ensures g.collector.Valid()
    ensures g.collector.gauges == old(g.collector.gauges)
    ensures g.collector.counters == old(g.collector.counters) && g.collector.histograms == old(g.collector.histograms)
  {
    g.Inc(v);
    g.Dec(v);
  }

  /** Three default increments of a fresh counter leave it at 3. */
  method TransactionsTotal() returns (value: real, description: string)
    ensures value == 3.0 && description == "Total number of transactions processed"
  {
    var metrics := new Collector("fintech-app");
    var transactions := metrics.RegisterCounter("transactions_total", "Total number of transactions processed");
    transactions.Inc();
    transactions.Inc();
    transactions.Inc();
    value := metrics.counters["transactions_total"].value;
    description := metrics.counters["transactions_total"].description;
  }

  /** The bucket arithmetic of the example below, on records. */
  lemma ObserveOnDurationBounds()
    ensures Observed(NewHistogram([0.1, 0.5, 1.0], ""), 0.3).buckets == [Bucket(0.1, 0), Bucket(0.5, 1), Bucket(1.0, 1)]
  {
    NewHistogramOfDistinct([0.1, 0.5, 1.0], "");
    var after := Observed(NewHistogram([0.1, 0.5, 1.0], ""), 0.3).buckets;
    assert |after| == 3;
    assert after[0] == Caught(Bucket(0.1, 0), 0.3) == Bucket(0.1, 0);
    assert after[1] == Caught(Bucket(0.5, 0), 0.3) == Bucket(0.5, 1);
    assert after[2] == Caught(Bucket(1.0, 0), 0.3) == Bucket(1.0, 1);
  }

  /** Bounds [0.1, 0.5, 1.0], one observation of 0.3: only the two upper buckets catch it. */
  method DurationHistogram() returns (hits: seq<nat>, count: nat, sum: real)
    ensures hits == [0, 1, 1] && count == 1 && sum == 0.3
  {
    var metrics := new Collector("fintech-app");
    var duration := metrics.RegisterHistogram("transaction_duration_seconds", [0.1, 0.5, 1.0]);
    ObserveOnDurationBounds();
    duration.Observe(0.3);
    var h := metrics.histograms["transaction_duration_seconds"];
    assert h.buckets == [Bucket(0.1, 0), Bucket(0.5, 1), Bucket(1.0, 1)];
    hits := [h.buckets[0].hits, h.buckets[1].hits, h.buckets[2].hits];
    count, sum := h.count, h.sum;
  }

  /**
   Registering a name twice yields two handles on one record: the second
   registration resets nothing, and an increment through one handle is seen
   through the other.
   */
  method SharedCounter(d: real) returns (seen: real, description: string)
    ensures seen == 1.0 + d && description == "first"
  {
    var metrics := new Collector("app");
    var first := metrics.RegisterCounter("x", "first");
    first.Inc();
    var second := metrics.RegisterCounter("x", "second");
    second.Inc(d);
    seen := metrics.counters[first.name].value;
    description := metrics.counters[first.name].description;
  }

  /** Increments applied one after another through a handle add up to their total. */
  method IncEach(c: Counter, deltas: seq<real>)
    requires c.collector.Valid() && c.name in c.collector.counters
    modifies c.collector
    ensures c.collector.Valid()
    ensures c.collector.counters == old(c.collector.counters)[c.name := IncAll(old(c.collector.counters[c.name]), deltas)]
    ensures c.collector.counters[c.name].value == old(c.collector.counters[c.name].value) + Total(deltas)
    ensures c.collector.gauges == old(c.collector.gauges) && c.collector.histograms == old(c.collector.histograms)
  {
    var i := 0;
    while i < |deltas|
      invariant 0 <= i <= |deltas|
      invariant c.collector.Valid()
      invariant c.collector.counters == old(c.collector.counters)[c.name := IncAll(old(c.collector.counters[c.name]), deltas[..i])]
      invariant c.collector.gauges == old(c.collector.gauges) && c.collector.histograms == old(c.collector.histograms)
    {
      c.Inc(deltas[i]);
      assert deltas[..i + 1][..i] == deltas[..i];
      i := i + 1;
    }
    assert deltas[..i] == deltas;
    IncAllAddsTotal(old(c.collector.counters[c.name]), deltas);
  }

  /** Observations made one after another through a handle. */
  method ObserveEach(h: Histogram, obs: seq<real>)
    requires h.collector.Valid() && h.name in h.collector.histograms
    modifies h.collector
    ensures h.collector.Valid()
    ensures h.collector.histograms == old(h.collector.histograms)[h.name := ObservedAll(old(h.collector.histograms[h.name]), obs)]
    ensures h.collector.counters == old(h.collector.counters) && h.collector.gauges == old(h.collector.gauges)
  {
    var i := 0;
    while i < |obs|
      invariant 0 <= i <= |obs|
      invariant h.collector.Valid()
      invariant h.collector.histograms == old(h.collector.histograms)[h.name := ObservedAll(old(h.collector.histograms[h.name]), obs[..i])]
      invariant h.collector.counters == old(h.collector.counters) && h.collector.gauges == old(h.collector.gauges)
    {
      h.Observe(obs[i]);
      assert obs[..i + 1][..i] == obs[..i];
      i := i + 1;
    }
    assert obs[..i] == obs;
  }

  /**
   A histogram registered under a new name and then given `obs` holds exactly
   the direct count of `obs` per bucket.
   */
  method RegisterThenObserve(bounds: seq<real>, obs: seq<real>) returns (r: HistogramRecord)
    ensures r.count == |obs| && r.sum == Total(obs)
    ensures Bounds(r.buckets) == FirstOccurrences(bounds)
    ensures forall i :: 0 <= i < |r.buckets| ==> r.buckets[i].hits == AtMost(obs, r.buckets[i].bound)
  {
    var metrics := new Collector("app");
    var h := metrics.RegisterHistogram("latency", bounds);
    ObserveEach(h, obs);
    r := metrics.histograms["latency"];
    ObservedAllMatchesCount(bounds, "", obs);
  }
}
