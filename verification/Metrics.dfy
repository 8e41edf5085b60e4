/**
 Metric specifications and the three kinds of metric. `Metric` is the value of a metric at one moment;
 the classes hold that value in fields and update it in place.
 */
module Metrics {
  import opened Text
  import opened Numbers

  datatype MetricType = Counter | Gauge | Histogram | Unknown

  datatype MetricSpec = MetricSpec(
    name: string, typ: string, help: string, value: Num, labels: string, buckets: seq<Num>)

  const EMPTY_SPEC := MetricSpec("", "", "", ZERO, "", [])

  datatype Metric =
    | ACounter(name: string, help: string, labels: string, value: Num)
    | AGauge(name: string, help: string, labels: string, value: Num)
    | AHistogram(name: string, help: string, labels: string,
                 bounds: seq<Num>, counts: seq<nat>, sum: real, count: nat)

  function ParseMetricType(name: string): MetricType {
    var l := Lower(name);
    if l == "counter" then Counter
    else if l == "gauge" then Gauge
    else if l == "histogram" then Histogram
    else Unknown
  }

  function TypeOf(m: Metric): MetricType {
    match m
    case ACounter(_, _, _, _) => Counter
    case AGauge(_, _, _, _) => Gauge
    case AHistogram(_, _, _, _, _, _, _) => Histogram
  }

  function TypeName(t: MetricType): string {
    match t
    case Counter => "counter"
    case Gauge => "gauge"
    case Histogram => "histogram"
    case Unknown => "unknown"
  }

  lemma ParseTypeName(t: MetricType)
    ensures ParseMetricType(TypeName(t)) == t
  {
    assert Lower("counter") == "counter";
    assert Lower("gauge") == "gauge";
    assert Lower("histogram") == "histogram";
    assert Lower("unknown") == "unknown";
  }

  /** `s` spells the lower-case word `w`, in any mixture of cases. */
  predicate AnyCase(s: string, w: string) {
    |s| == |w| && forall i :: 0 <= i < |s| ==> s[i] == w[i] || s[i] as int + 32 == w[i] as int
  }

  lemma LowerSpells(s: string, w: string)
    requires forall i :: 0 <= i < |w| ==> 'a' <= w[i] <= 'z'
    ensures Lower(s) == w <==> AnyCase(s, w)
  {
    if |s| == |w| {
      forall i | 0 <= i < |s| ensures LowerChar(s[i]) == w[i] <==> s[i] == w[i] || s[i] as int + 32 == w[i] as int {}
      assert Lower(s) == w <==> forall i :: 0 <= i < |s| ==> Lower(s)[i] == w[i];
    }
  }

  /** The three type words, in any case, and nothing else. */
  lemma TypeWordIff(word: string)
    ensures ParseMetricType(word) == Counter <==> AnyCase(word, "counter")
    ensures ParseMetricType(word) == Gauge <==> AnyCase(word, "gauge")
    ensures ParseMetricType(word) == Histogram <==> AnyCase(word, "histogram")
    ensures ParseMetricType(word) == Unknown
            <==> !AnyCase(word, "counter") && !AnyCase(word, "gauge") && !AnyCase(word, "histogram")
  {
    hide Lower, AnyCase;
    LowerSpells(word, "counter");
    LowerSpells(word, "gauge");
    LowerSpells(word, "histogram");
  }

  lemma TypeIsWord(t: string)
    requires AnyCase(t, "counter") || AnyCase(t, "gauge") || AnyCase(t, "histogram")
    ensures t != "" && All(t, NotSpace)
  {
    forall i | 0 <= i < |t| ensures NotSpace(t[i]) {
      assert 'A' <= t[i] <= 'z';
    }
  }

  lemma TypeWordsApart(t: string)
    ensures !(AnyCase(t, "counter") && AnyCase(t, "histogram"))
    ensures !(AnyCase(t, "gauge") && AnyCase(t, "histogram")) && !(AnyCase(t, "gauge") && AnyCase(t, "counter"))
  {
    assert |"counter"| == 7 && |"gauge"| == 5 && |"histogram"| == 9;
  }

  /** `Metric::value()`: a histogram's value is its observation count. */
  function ValueOf(m: Metric): Num {
    if m.AHistogram? then Finite(m.count as real) else m.value
  }

  // ---------------------------------------------------------------- bucket bounds

  const DEFAULT_BOUNDS: seq<Num> :=
    [Finite(0.005), Finite(0.01), Finite(0.025), Finite(0.05), Finite(0.1), Finite(0.25), Finite(0.5),
     Finite(1.0), Finite(2.5), Finite(5.0), Finite(10.0)]

  /** `std::sort` on values with a NaN has no defined result. */
  ghost predicate Comparable(bs: seq<Num>) {
    forall i :: 0 <= i < |bs| ==> bs[i] != NaN
  }

  ghost predicate StrictlyIncreasing(bs: seq<Num>) {
    forall i, j :: 0 <= i < j < |bs| ==> NumLess(bs[i], bs[j])
  }

  ghost predicate Nondecreasing(bs: seq<Num>) {
    forall i, j :: 0 <= i < j < |bs| ==> NumLeq(bs[i], bs[j])
  }

  function Insert(b: Num, bs: seq<Num>): seq<Num> {
    if bs == [] || NumLeq(b, bs[0]) then [b] + bs else [bs[0]] + Insert(b, bs[1..])
  }

  function Sort(bs: seq<Num>): seq<Num> {
    if bs == [] then [] else Insert(bs[0], Sort(bs[1..]))
  }

  /** `std::unique` followed by `erase`. */
  function Unique(bs: seq<Num>): seq<Num> {
    if |bs| < 2 then bs
    else if bs[0] == bs[1] then Unique(bs[1..])
    else [bs[0]] + Unique(bs[1..])
  }

  lemma {:induction false} InsertElements(b: Num, bs: seq<Num>)
    ensures multiset(Insert(b, bs)) == multiset{b} + multiset(bs)
  {
    hide NumLeq;
    if bs != [] && !NumLeq(b, bs[0]) {
      InsertElements(b, bs[1..]);
      assert bs == [bs[0]] + bs[1..];
    }
  }

  lemma {:induction false} InsertSorted(b: Num, bs: seq<Num>)
    requires b != NaN && Comparable(bs) && Nondecreasing(bs)
    ensures Nondecreasing(Insert(b, bs)) && Comparable(Insert(b, bs))
  {
    if bs == [] {
    } else if NumLeq(b, bs[0]) {
      assert bs == [bs[0]] + bs[1..];
    } else {
      InsertSorted(b, bs[1..]);
      InsertElements(b, bs[1..]);
      var r := Insert(b, bs[1..]);
      forall i | 0 <= i < |r| ensures NumLeq(bs[0], r[i]) {
        assert r[i] in multiset(r);
      }
    }
  }

  lemma {:induction false} SortSorted(bs: seq<Num>)
    requires Comparable(bs)
    ensures Nondecreasing(Sort(bs)) && Comparable(Sort(bs))
    ensures multiset(Sort(bs)) == multiset(bs)
  {
    if bs != [] {
      SortSorted(bs[1..]);
      InsertSorted(bs[0], Sort(bs[1..]));
      InsertElements(bs[0], Sort(bs[1..]));
      assert bs == [bs[0]] + bs[1..];
    }
  }

  lemma {:induction false} UniqueIncreasing(bs: seq<Num>)
    requires Comparable(bs) && Nondecreasing(bs)
    ensures StrictlyIncreasing(Unique(bs)) && Comparable(Unique(bs))
    ensures forall b :: b in Unique(bs) <==> b in bs
  {
    if |bs| >= 2 {
      UniqueIncreasing(bs[1..]);
      assert bs == [bs[0]] + bs[1..];
      var r := Unique(bs[1..]);
      if bs[0] != bs[1] {
        forall i | 0 <= i < |r| ensures NumLess(bs[0], r[i]) {
          assert r[i] in bs[1..];
          var j :| 0 <= j < |bs[1..]| && bs[1..][j] == r[i];
          assert NumLess(bs[0], bs[1]);
          assert j == 0 || NumLeq(bs[1], bs[1 + j]);
        }
      }
    }
  }

  function NormalizedBounds(bs: seq<Num>): seq<Num> { Unique(Sort(bs)) }

  /** Whatever bounds are configured, the buckets end up strictly ordered, with none lost and none added. */
  lemma BoundsNormalized(bs: seq<Num>)
    requires Comparable(bs)
    ensures StrictlyIncreasing(NormalizedBounds(bs))
    ensures forall b :: b in NormalizedBounds(bs) <==> b in bs
  {
    SortSorted(bs);
    UniqueIncreasing(Sort(bs));
    assert forall b :: b in Sort(bs) <==> b in multiset(Sort(bs));
    assert forall b :: b in bs <==> b in multiset(bs);
  }

  // ---------------------------------------------------------------- construction and update

  function EmptyHistogram(name: string, help: string, labels: string, bounds: seq<Num>): Metric {
    var bs := NormalizedBounds(bounds);
    AHistogram(name, help, labels, bs, seq(|bs|, i => 0), 0.0, 0)
  }

  function MakeMetric(spec: MetricSpec): Option<Metric> {
    match ParseMetricType(spec.typ)
    case Counter =>
      Some(ACounter(spec.name, spec.help, spec.labels, if NumLess(spec.value, ZERO) then ZERO else spec.value))
    case Gauge => Some(AGauge(spec.name, spec.help, spec.labels, spec.value))
    case Histogram =>
      Some(EmptyHistogram(spec.name, spec.help, spec.labels, BoundsFor(spec)))
    case Unknown => None
  }

  function Observe(m: Metric, sample: real): Metric
    requires m.AHistogram?
  {
    m.(counts := seq(|m.counts|, i requires 0 <= i < |m.counts| =>
                   m.counts[i] + (if i < |m.bounds| && NumLeq(Finite(sample), m.bounds[i]) then 1 else 0)),
       sum := m.sum + sample, count := m.count + 1)
  }

  /** `Metric::setValue`; the flag is its result. */
  function SetMetric(m: Metric, v: Num): (Metric, bool) {
    if !v.Finite? then (m, false)
    else
      match m
      case ACounter(_, _, _, old') =>
        if v.v < 0.0 || NumLess(v, old') then (m, false) else (m.(value := v), true)
      case AGauge(_, _, _, _) => (m.(value := v), true)
      case AHistogram(_, _, _, _, _, _, _) => (Observe(m, v.v), true)
  }

  /** What every metric in a registry satisfies. */
  ghost predicate WellFormed(m: Metric) {
    match m
    case ACounter(_, _, _, v) => !NumLess(v, ZERO)
    case AGauge(_, _, _, _) => true
    case AHistogram(_, _, _, bounds, counts, _, count) =>
      && |counts| == |bounds|
      && (forall i, j :: 0 <= i < j < |counts| ==> counts[i] <= counts[j])
      && (forall i :: 0 <= i < |counts| ==> counts[i] <= count)
      && StrictlyIncreasing(bounds) && Comparable(bounds)
  }

  lemma DefaultBoundsComparable()
    ensures Comparable(DEFAULT_BOUNDS)
  {
  }

  lemma EmptyHistogramWellFormed(name: string, help: string, labels: string, bounds: seq<Num>)
    requires Comparable(bounds)
    ensures WellFormed(EmptyHistogram(name, help, labels, bounds))
  {
    SortSorted(bounds);
    UniqueIncreasing(Sort(bounds));
  }

  function BoundsFor(spec: MetricSpec): seq<Num> {
    if spec.buckets == [] then DEFAULT_BOUNDS else spec.buckets
  }

  lemma MakeMetricWellFormed(spec: MetricSpec)
    requires Comparable(spec.buckets)
    ensures MakeMetric(spec).Some? ==> WellFormed(MakeMetric(spec).value) && MakeMetric(spec).value.name == spec.name
  {
    DefaultBoundsComparable();
    EmptyHistogramWellFormed(spec.name, spec.help, spec.labels, BoundsFor(spec));
  }

  lemma SetMetricWellFormed(m: Metric, v: Num)
    requires WellFormed(m)
    ensures WellFormed(SetMetric(m, v).0)
    ensures SetMetric(m, v).0.name == m.name && TypeOf(SetMetric(m, v).0) == TypeOf(m)
  {
    if m.AHistogram? && v.Finite? { ObserveWellFormed(m, v.v); }
  }

  lemma ObserveWellFormed(m: Metric, sample: real)
    requires m.AHistogram? && WellFormed(m)
    ensures WellFormed(Observe(m, sample))
  {
    var r := Observe(m, sample);
    forall i, j | 0 <= i < j < |r.counts| ensures r.counts[i] <= r.counts[j] {
      assert NumLess(m.bounds[i], m.bounds[j]);
      assert m.counts[i] <= m.counts[j];
    }
  }

  // ---------------------------------------------------------------- classes

  class CounterMetric {
    const name: string
    const help: string
    const labels: string
    var value: Num

    ghost function View(): Metric
      reads this
    {
      ACounter(name, help, labels, value)
    }

    constructor (spec: MetricSpec)
      requires ParseMetricType(spec.typ) == Counter
      ensures Some(View()) == MakeMetric(spec)
    {
      name, help, labels := spec.name, spec.help, spec.labels;
      value := if NumLess(spec.value, ZERO) then ZERO else spec.value;
    }

    method SetValue(v: Num) returns (ok: bool)
      modifies this
      ensures (View(), ok) == SetMetric(old(View()), v)
    {
      if NumLess(v, ZERO) || !v.Finite? {
        return false;
      }
      if NumLess(v, value) {
        return false;
      }
      value := v;
      return true;
    }
  }

  class GaugeMetric {
    const name: string
    const help: string
    const labels: string
    var value: Num

    ghost function View(): Metric
      reads this
    {
      AGauge(name, help, labels, value)
    }

    constructor (spec: MetricSpec)
      requires ParseMetricType(spec.typ) == Gauge
      ensures Some(View()) == MakeMetric(spec)
    {
      name, help, labels := spec.name, spec.help, spec.labels;
      value := spec.value;
    }

    method SetValue(v: Num) returns (ok: bool)
      modifies this
      ensures (View(), ok) == SetMetric(old(View()), v)
    {
      if !v.Finite? {
        return false;
      }
      value := v;
      return true;
    }
  }

  class HistogramMetric {
    const name: string
    const help: string
    const labels: string
    var bounds: seq<Num>
    var counts: seq<nat>
    var sum: real
    var count: nat

    ghost function View(): Metric
      reads this
    {
      AHistogram(name, help, labels, bounds, counts, sum, count)
    }

    constructor (spec: MetricSpec, upperBounds: seq<Num>)
      requires Comparable(upperBounds)
      ensures View() == EmptyHistogram(spec.name, spec.help, spec.labels, upperBounds)
    {
      name, help, labels := spec.name, spec.help, spec.labels;
      var bs := Unique(Sort(upperBounds));
      bounds := bs;
      counts := seq(|bs|, i => 0);
      sum := 0.0;
      count := 0;
    }

    method ObserveSample(sample: Num)
      requires |counts| == |bounds|
      modifies this
      ensures View() == if sample.Finite? then Observe(old(View()), sample.v) else old(View())
    {
      if !sample.Finite? {
        return;
      }
      var i := 0;
      while i < |bounds|
        invariant 0 <= i <= |bounds|
        invariant bounds == old(bounds) && sum == old(sum) && count == old(count) && |counts| == |old(counts)|
        invariant forall k :: 0 <= k < i ==> counts[k] == Observe(old(View()), sample.v).counts[k]
        invariant forall k :: i <= k < |counts| ==> counts[k] == old(counts)[k]
      {
        if NumLeq(sample, bounds[i]) {
          counts := counts[i := counts[i] + 1];
        }
        i := i + 1;
      }
      sum := sum + sample.v;
      count := count + 1;
    }

    method SetValue(v: Num) returns (ok: bool)
      requires |counts| == |bounds|
      modifies this
      ensures (View(), ok) == SetMetric(old(View()), v)
    {
      if !v.Finite? {
        return false;
      }
      ObserveSample(v);
      return true;
    }
  }

  // ---------------------------------------------------------------- what construction and setting do

  lemma {:induction false} IncreasingIsNormal(bs: seq<Num>)
    requires Comparable(bs) && StrictlyIncreasing(bs)
    ensures Sort(bs) == bs && Unique(bs) == bs
  {
    if bs != [] {
      IncreasingIsNormal(bs[1..]);
      assert bs == [bs[0]] + bs[1..];
      if |bs| > 1 { assert NumLess(bs[0], bs[1]); }
    }
  }

  /** The buckets of a histogram for which none are configured. */
  lemma DefaultBuckets(name: string, help: string, labels: string)
    ensures EmptyHistogram(name, help, labels, DEFAULT_BOUNDS)
            == AHistogram(name, help, labels,
                          [Finite(0.005), Finite(0.01), Finite(0.025), Finite(0.05), Finite(0.1), Finite(0.25), Finite(0.5),
                           Finite(1.0), Finite(2.5), Finite(5.0), Finite(10.0)], [0, 0, 0, 0, 0, 0, 0, 0, 0, 0, 0], 0.0, 0)
  {
    hide Sort, Unique;
    IncreasingIsNormal(DEFAULT_BOUNDS);
  }

  /** The metric a specification becomes, by its type word. */
  lemma MadeByType(name: string, typ: string, help: string, value: Num, labels: string, buckets: seq<Num>)
    ensures var made := MakeMetric(MetricSpec(name, typ, help, value, labels, buckets));
            && (AnyCase(typ, "counter")
                ==> made == Some(ACounter(name, help, labels, if NumLess(value, Finite(0.0)) then Finite(0.0) else value)))
            && (AnyCase(typ, "gauge") ==> made == Some(AGauge(name, help, labels, value)))
            && (AnyCase(typ, "histogram")
                ==> made == Some(EmptyHistogram(name, help, labels, if buckets == [] then DEFAULT_BOUNDS else buckets)))
            && (made == None <==> !AnyCase(typ, "counter") && !AnyCase(typ, "gauge") && !AnyCase(typ, "histogram"))
  {
    hide AnyCase, ParseMetricType, EmptyHistogram;
    TypeWordIff(typ);
  }

  /**
   A set: nothing takes a value that is not finite; a counter takes nothing negative or below its value; a gauge takes
   the rest; a histogram adds it to its sum, its count and each bucket whose bound is not below it.
   */
  lemma SetLaw(name: string, help: string, labels: string, old': Num, v: Num, x: real)
    ensures v == PosInf || v == NegInf || v == NaN ==> forall m :: SetMetric(m, v) == (m, false)
    ensures SetMetric(AGauge(name, help, labels, old'), Finite(x)) == (AGauge(name, help, labels, Finite(x)), true)
    ensures x < 0.0 || NumLess(Finite(x), old')
            ==> SetMetric(ACounter(name, help, labels, old'), Finite(x)) == (ACounter(name, help, labels, old'), false)
    ensures x >= 0.0 && !NumLess(Finite(x), old')
            ==> SetMetric(ACounter(name, help, labels, old'), Finite(x)) == (ACounter(name, help, labels, Finite(x)), true)
    ensures forall m: Metric :: m.AHistogram? ==> SetMetric(m, Finite(x)) == (ObserveAll(m, [Finite(x)]), true)
  {
    forall m: Metric | m.AHistogram? ensures SetMetric(m, Finite(x)) == (ObserveAll(m, [Finite(x)]), true) {
      assert [Finite(x)][..0] == [];
      assert ObserveAll(m, []) == m;
    }
  }

  // ---------------------------------------------------------------- runs of observations

  function ObserveAll(m: Metric, samples: seq<Num>): (r: Metric)
    requires m.AHistogram?
    ensures r.AHistogram?
  {
    if samples == [] then m
    else
      var before := ObserveAll(m, samples[..|samples| - 1]);
      var s := samples[|samples| - 1];
      if s.Finite? then Observe(before, s.v) else before
  }

  lemma {:induction false} ObservedTexts(m: Metric, samples: seq<Num>)
    requires m.AHistogram?
    ensures var r := ObserveAll(m, samples); r.name == m.name && r.help == m.help && r.labels == m.labels
  {
    if samples != [] { ObservedTexts(m, samples[..|samples| - 1]); }
  }

  /** How many finite samples do not exceed `bound`. */
  function AtMost(samples: seq<Num>, bound: Num): nat {
    if samples == [] then 0
    else
      var s := samples[|samples| - 1];
      AtMost(samples[..|samples| - 1], bound) + (if s.Finite? && NumLeq(s, bound) then 1 else 0)
  }

  function SumFinite(samples: seq<Num>): real {
    if samples == [] then 0.0
    else
      var s := samples[|samples| - 1];
      SumFinite(samples[..|samples| - 1]) + (if s.Finite? then s.v else 0.0)
  }

  /** Buckets, count and sum are exactly the statistics of the finite samples seen. */
  lemma {:induction false} HistogramStatistics(m: Metric, bounds: seq<Num>, samples: seq<Num>)
    requires m.AHistogram? && m == EmptyHistogram(m.name, m.help, m.labels, bounds)
    ensures var r := ObserveAll(m, samples);
            && r.bounds == NormalizedBounds(bounds) && |r.counts| == |r.bounds|
            && (forall i :: 0 <= i < |r.counts| ==> r.counts[i] == AtMost(samples, r.bounds[i]))
            && r.count == AtMost(samples, PosInf) && r.sum == SumFinite(samples)
  {
    if samples != [] { HistogramStatistics(m, bounds, samples[..|samples| - 1]); }
  }

  /** The bucket counts a histogram exposes never decrease and end at its total count. */
  lemma {:induction false} HistogramCumulative(bounds: seq<Num>, name: string, help: string, labels: string, samples: seq<Num>)
    requires Comparable(bounds)
    ensures WellFormed(ObserveAll(EmptyHistogram(name, help, labels, bounds), samples))
  {
    var m := EmptyHistogram(name, help, labels, bounds);
    if samples == [] {
      EmptyHistogramWellFormed(name, help, labels, bounds);
    } else {
      HistogramCumulative(bounds, name, help, labels, samples[..|samples| - 1]);
      var s := samples[|samples| - 1];
      if s.Finite? { ObserveWellFormed(ObserveAll(m, samples[..|samples| - 1]), s.v); }
    }
  }
}
