/**
 The in-process metrics registry: a collector holding counters, gauges and
 histograms keyed by name, and the handles through which application code
 updates them. Every operation runs under the collector's lock in the source,
 so each method here is one atomic step.
 */
module Metrics {
  import opened MetricRecords

  class Collector {
    const appName: string
    const metricsDir: string
    var counters: map<string, CounterRecord>
    var gauges: map<string, GaugeRecord>
    var histograms: map<string, HistogramRecord>

    /** The registry invariant: every histogram record is consistent. */
    ghost predicate Valid()
      reads this
    {
      forall name :: name in histograms ==> Consistent(histograms[name])
    }

    /** A new collector, with nothing registered. */
    constructor (appName: string, metricsDir: string := "metrics")
      ensures Valid()
      ensures this.appName == appName && this.metricsDir == metricsDir
      ensures counters == map[] && gauges == map[] && histograms == map[]
    {
      this.appName := appName;
      this.metricsDir := metricsDir;
      counters, gauges, histograms := map[], map[], map[];
    }

    /**
     Registers a counter: a new name gets a zero record, a known name keeps
     its record untouched. Either way the handle is bound to `name`.
     */
    method RegisterCounter(name: string, description: string := "") returns (h: Counter)
      requires Valid()
      modifies this
      ensures Valid()
      ensures name in old(counters) ==> counters == old(counters)
      ensures name !in old(counters) ==> counters == old(counters)[name := NewCounter(description)]
      ensures gauges == old(gauges) && histograms == old(histograms)
      ensures fresh(h) && h.collector == this && h.name == name
    {
      if name !in counters {
        counters := counters[name := NewCounter(description)];
      }
      h := new Counter(this, name);
    }

    /** Registers a gauge, with the same rules as a counter. */
    method RegisterGauge(name: string, description: string := "") returns (h: Gauge)
      requires Valid()
      modifies this
      ensures Valid()
      ensures name in old(gauges) ==> gauges == old(gauges)
      ensures name !in old(gauges) ==> gauges == old(gauges)[name := NewGauge(description)]
      ensures counters == old(counters) && histograms == old(histograms)
      ensures fresh(h) && h.collector == this && h.name == name
    {
      if name !in gauges {
        gauges := gauges[name := NewGauge(description)];
      }
      h := new Gauge(this, name);
    }

    /**
     Registers a histogram: a new name gets empty buckets for the distinct
     `bounds` in the given order; a known name keeps its record and the new
     bounds are ignored.
     */
    method RegisterHistogram(name: string, bounds: seq<real> := DefaultBounds, description: string := "")
      returns (h: Histogram)
      requires Valid()
      modifies this
      ensures Valid()
      ensures name in old(histograms) ==> histograms == old(histograms)
      ensures name !in old(histograms) ==> histograms == old(histograms)[name := NewHistogram(bounds, description)]
      ensures counters == old(counters) && gauges == old(gauges)
      ensures fresh(h) && h.collector == this && h.name == name
    {
      if name !in histograms {
        histograms := histograms[name := NewHistogram(bounds, description)];
      }
      h := new Histogram(this, name);
    }
  }

  /** A handle on one counter of a collector. */
  class Counter {
    const collector: Collector
    const name: string

    constructor (collector: Collector, name: string)
      ensures this.collector == collector && this.name == name
    {
      this.collector := collector;
      this.name := name;
    }

    /** Adds `v` to this counter; every other metric is left as it was. */
    method Inc(v: real := 1.0)
      requires collector.Valid() && name in collector.counters
      modifies collector
      ensures collector.Valid()
      ensures collector.counters == old(collector.counters)[name := old(collector.counters[name]).(value := old(collector.counters[name].value) + v)]
      ensures v >= 0.0 ==> collector.counters[name].value >= old(collector.counters[name].value)
      ensures collector.gauges == old(collector.gauges) && collector.histograms == old(collector.histograms)
    {
      var r := collector.counters[name];
      collector.counters := collector.counters[name := r.(value := r.value + v)];
    }
  }

  /** A handle on one gauge of a collector. */
  class Gauge {
    const collector: Collector
    const name: string

    constructor (collector: Collector, name: string)
      ensures this.collector == collector && this.name == name
    {
      this.collector := collector;
      this.name := name;
    }

    /** Makes this gauge's value exactly `v`. */
    method Set(v: real)
      requires collector.Valid() && name in collector.gauges
      modifies collector
      ensures collector.Valid()
      ensures collector.gauges == old(collector.gauges)[name := old(collector.gauges[name]).(value := v)]
      ensures collector.counters == old(collector.counters) && collector.histograms == old(collector.histograms)
    {
      var r := collector.gauges[name];
      collector.gauges := collector.gauges[name := r.(value := v)];
    }

    /** Adds `v` to this gauge. */
    method Inc(v: real := 1.0)
      requires collector.Valid() && name in collector.gauges
      modifies collector
      ensures collector.Valid()
      ensures collector.gauges == old(collector.gauges)[name := old(collector.gauges[name]).(value := old(collector.gauges[name].value) + v)]
      ensures collector.counters == old(collector.counters) && collector.histograms == old(collector.histograms)
    {
      var r := collector.gauges[name];
      collector.gauges := collector.gauges[name := r.(value := r.value + v)];
    }

    /** Subtracts `v` from this gauge. */
    method Dec(v: real := 1.0)
      requires collector.Valid() && name in collector.gauges
      modifies collector
      ensures collector.Valid()
      ensures collector.gauges == old(collector.gauges)[name := old(collector.gauges[name]).(value := old(collector.gauges[name].value) - v)]
      ensures collector.counters == old(collector.counters) && collector.histograms == old(collector.histograms)
    {
      var r := collector.gauges[name];
      collector.gauges := collector.gauges[name := r.(value := r.value - v)];
    }
  }

  /** A handle on one histogram of a collector. */
  class Histogram {
    const collector: Collector
    const name: string

    constructor (collector: Collector, name: string)
      ensures this.collector == collector && this.name == name
    {
      this.collector := collector;
      this.name := name;
    }

    /**
     Records the observation `v`: one more observation, `v` more in the sum,
     and one more hit in every bucket whose bound is at least `v`, walking the
     buckets in place.
     */
    method Observe(v: real)
      requires collector.Valid() && name in collector.histograms
      modifies collector
      ensures collector.Valid()
      ensures collector.histograms == old(collector.histograms)[name := Observed(old(collector.histograms[name]), v)]
      ensures collector.counters == old(collector.counters) && collector.gauges == old(collector.gauges)
    {
      var c := collector;
      var rec := c.histograms[name];
      ObservedKeepsConsistent(rec, v);
      c.histograms := c.histograms[name := rec.(count := rec.count + 1, sum := rec.sum + v)];
      var i := 0;
      while i < |rec.buckets|
        invariant 0 <= i <= |rec.buckets|
        invariant name in c.histograms
        invariant c.histograms == old(c.histograms)[name := c.histograms[name]]
        invariant c.histograms[name].count == rec.count + 1 && c.histograms[name].sum == rec.sum + v
        invariant c.histograms[name].description == rec.description
        invariant |c.histograms[name].buckets| == |rec.buckets|
        invariant forall k :: 0 <= k < i ==> c.histograms[name].buckets[k] == Caught(rec.buckets[k], v)
        invariant forall k :: i <= k < |rec.buckets| ==> c.histograms[name].buckets[k] == rec.buckets[k]
        invariant c.counters == old(c.counters) && c.gauges == old(c.gauges)
      {
        var cur := c.histograms[name];
        var b := cur.buckets[i];
        if v <= b.bound {
          c.histograms := c.histograms[name := cur.(buckets := cur.buckets[i := b.(hits := b.hits + 1)])];
        }
        i := i + 1;
      }
      assert c.histograms[name] == Observed(rec, v);
    }
  }
}
