# Metrics registry model

A Dafny model of the in-process metrics registry of a small Flask monitoring
demo (`src/metrics.py`). A `MetricsCollector` keeps three dictionaries keyed by
metric name — counters, gauges and histograms — and hands out `Counter`,
`Gauge` and `Histogram` handles. A handle holds only the collector and a name.
Every update goes through the collector's shared dictionaries.

- `records.dfy` (module `MetricRecords`): the per-name records as datatypes,
  the record a registration creates, the record an observation leaves, and
  lemmas about sequences of increments and observations.
- `metrics.dfy` (module `Metrics`): the collector as a class with three `map`
  fields, and one class per handle. Each handle operation is a method with
  `modifies collector` whose `ensures` gives the whole new registry state.
  `Histogram.Observe` walks the buckets with a loop, as the source does.
- `scenarios.dfy` (module `Scenarios`): client code in the style of the
  request handlers, and what follows from the handle contracts alone.

Design choices:

- Numbers are Dafny `real`, not IEEE floats. Histogram `count` and bucket hits
  are `nat`.
- A histogram's buckets are a sequence of `(bound, hits)` pairs in the order
  their bounds first appear. This mirrors the insertion-ordered dict the source
  builds from the bound list; a repeated bound gets one bucket.
- The code validates nothing. A counter accepts any increment, negative ones
  included. Histogram bounds may come in any order and may repeat. No error is
  raised in either case.
- An observation above every bound increments `count` and `sum` and no bucket.
  There is no implicit top bucket.
- A handle on a name that is not registered would raise `KeyError` in the
  source. Handles only come from registration, so each handle method requires
  its name to be present.
- The invariant `Collector.Valid()` holds of every reachable registry. It says
  every histogram record is `Consistent`: bounds are distinct, no bucket holds
  more than `count`, and a bucket with a higher bound never holds less than one
  with a lower bound, in whatever order the bounds were declared.

## Model

| member | source | states |
|---|---|---|
| `MetricRecords.FirstOccurrences` | src/metrics.py:53 | the bucket keys built from a bound list have no duplicates and are exactly the values of the list |
| `MetricRecords.FirstOccurrencesOfDistinct` | src/metrics.py:53 | a bound list without repeats gives its buckets in exactly the given order |
| `MetricRecords.FirstOccurrencesInOrder` | src/metrics.py:53 | buckets appear in the order in which their bounds first occur in the list |
| `MetricRecords.NewCounter` | src/metrics.py:30-33 | a new counter record has value 0 and the given description |
| `MetricRecords.NewGauge` | src/metrics.py:40-43 | a new gauge record has value 0 and the given description |
| `MetricRecords.NewHistogram` | src/metrics.py:50-55 | a new histogram has count 0, sum 0, one zero bucket per distinct bound in first-occurrence order, the given description, and is consistent |
| `MetricRecords.NewHistogramOfDistinct` | src/metrics.py:53 | with distinct bounds a new histogram has exactly one empty bucket per given bound, in the given order |
| `MetricRecords.Observed` | src/metrics.py:105-111 | an observation of v adds 1 to count and v to sum, adds exactly 1 to every bucket with bound >= v, leaves every bucket with bound < v unchanged, and keeps the bounds |
| `MetricRecords.ObservedKeepsConsistent` | src/metrics.py:105-111 | observing preserves the histogram invariant: bounds distinct, every bucket <= count, higher bound never fewer hits |
| `MetricRecords.ObservedAboveAllBounds` | src/metrics.py:109-111 | a value above every bound changes no bucket but still adds 1 to count and v to sum |
| `MetricRecords.AscendingBoundsAreCumulative` | src/metrics.py:109-111 | with bounds declared ascending, bucket hits are non-decreasing along the bucket order |
| `MetricRecords.ObservedAllMatchesCount` | src/metrics.py:102-111 | after any sequence of observations on a new histogram, count is the number of observations, sum their total, and each bucket the number of observations at most its bound |
| `MetricRecords.IncAllAddsTotal` | src/metrics.py:76-78 | successive counter increments raise the value by exactly their total and keep the description |
| `MetricRecords.IncAllMonotone` | src/metrics.py:76-78 | with no negative increment a counter's value never decreases |
| `Metrics.Collector.constructor` | src/metrics.py:7-15 | a new collector has no counters, gauges or histograms, and satisfies the registry invariant |
| `Metrics.Collector.RegisterCounter` | src/metrics.py:26-34 | a new name gets a zero counter with the description; a known name keeps its record; gauges and histograms are unchanged; the handle is bound to this collector and the name |
| `Metrics.Collector.RegisterGauge` | src/metrics.py:36-44 | a new name gets a zero gauge with the description; a known name keeps its record; nothing else changes |
| `Metrics.Collector.RegisterHistogram` | src/metrics.py:46-56 | a new name gets the empty histogram for the given bounds (default 0.1, 0.5, 1.0, 2.0, 5.0); a known name keeps its record and ignores the new bounds; nothing else changes |
| `Metrics.Counter.constructor` | src/metrics.py:72-74 | a counter handle holds the collector and the name |
| `Metrics.Counter.Inc` | src/metrics.py:76-78 | the counter's value becomes old + v (default 1), its description is kept, it does not decrease when v >= 0, and every other metric is unchanged |
| `Metrics.Gauge.constructor` | src/metrics.py:81-83 | a gauge handle holds the collector and the name |
| `Metrics.Gauge.Set` | src/metrics.py:85-87 | the gauge's value becomes exactly v; everything else is unchanged |
| `Metrics.Gauge.Inc` | src/metrics.py:89-91 | the gauge's value becomes old + v (default 1); everything else is unchanged |
| `Metrics.Gauge.Dec` | src/metrics.py:93-95 | the gauge's value becomes old - v (default 1); everything else is unchanged |
| `Metrics.Histogram.constructor` | src/metrics.py:98-100 | a histogram handle holds the collector and the name |
| `Metrics.Histogram.Observe` | src/metrics.py:102-111 | the histogram's record becomes `Observed(old record, v)` via the in-place bucket walk; the registry invariant is kept; every other metric is unchanged |
| `Scenarios.GaugeIncThenDec` | src/metrics.py:89-95 | inc(v) followed by dec(v) leaves the whole registry as it was |
| `Scenarios.IncEach` | src/metrics.py:76-78 | increments made one after another through a handle raise the value by their total |
| `Scenarios.ObserveEach` | src/metrics.py:102-111 | observations made one after another through a handle leave the record the successive `Observed` steps describe |
| `Scenarios.RegisterThenObserve` | src/metrics.py:46-56 | registering a new histogram and observing a sequence gives count, sum and per-bucket hits equal to a direct count of the sequence |
| `Scenarios.TransactionsTotal` | src/monitored_app.py:19-53 | a fresh transactions counter incremented three times with the default step reads 3 and keeps its description |
| `Scenarios.DurationHistogram` | src/metrics.py:102-111 | bounds [0.1, 0.5, 1.0] after observing 0.3 hold hits [0, 1, 1], count 1 and sum 0.3 |
| `Scenarios.SharedCounter` | src/metrics.py:26-34 | registering a name twice shares one record: the second registration resets nothing and an increment through either handle is seen through the other |

## Left out

- The background save thread, the `running` flag, the ten-second sleep and `stop()` (src/metrics.py:20-24, 58-69): these concern threads and timing, not registry state.
- The lock (src/metrics.py:15 and each `with ... lock`): each operation is modelled as one atomic step, which is what the lock guarantees; interleavings of threads are not modelled.
- Writing the registry as JSON to `<metrics_dir>/<app_name>_metrics.json` and creating the directory (src/metrics.py:18, 62-63): file I/O. The collector keeps `appName` and `metricsDir` only as constants.
- Bucket keys as strings: the source keys buckets by `str(b)` and compares with `float(bucket)`. The model keys buckets by the numeric bound, so bounds that are numerically equal but print differently (`1` and `1.0`) share one bucket here and would be two in the source.
- Python's mix of `int` and `float` values and IEEE rounding (for example `0.1 + 0.2`): values are exact reals.
- An unknown name given to a handle (a `KeyError` in the source) is excluded by precondition, since handles only come from registration.
- src/monitored_app.py: Flask request handlers, sleeps and randomness. It is the only caller of the registry API (registration at lines 16-24, updates at lines 36, 53, 61 and 80-81); the scenarios reproduce its use of the handles.
- src/dashboard.py: chart plotting. It never calls the registry; it reads the saved JSON snapshot file and can write a sample file of its own.
- src/simulate_load.py, src/app.py and src/advanced_logging.py: an HTTP load generator, a separate Flask app and a logging wrapper. None of them uses the registry.
