/**
 The federation round trip over whole registries: exactly which metrics come back from merging a
 rendered registry into an empty one, and when nothing is lost.
 */
module Relay {
  import opened Text
  import opened Numbers
  import opened Metrics
  import opened Registry
  import opened Exposition
  import opened PrometheusText
  import opened Federation

  ghost predicate ExportableContents(c: Contents) {
    forall k :: k in c ==> Exportable(c[k])
  }

  // ---------------------------------------------------------------- the pass over the whole text

  function StateUpTo(ms: seq<Metric>, n: nat): PassState
    requires n <= |ms|
  {
    if n == 0 then START
    else
      var st := StateUpTo(ms, n - 1);
      Annotated(st, ms[n - 1]).(specs := st.specs + SpecsOf(ms[n - 1]))
  }

  function SpecsUpTo(ms: seq<Metric>, n: nat): seq<MetricSpec>
    requires n <= |ms|
  {
    if n == 0 then [] else SpecsUpTo(ms, n - 1) + SpecsOf(ms[n - 1])
  }

  /** Every comment seen belongs to one of the first `n` metrics. */
  lemma {:induction false} AnnotatedNames(ms: seq<Metric>, n: nat, name: string)
    requires n <= |ms|
    requires forall i :: 0 <= i < n ==> ms[i].name != name
    ensures Unannotated(StateUpTo(ms, n), name)
  {
    if n > 0 { AnnotatedNames(ms, n - 1, name); }
  }

  lemma {:induction false} StateSpecs(ms: seq<Metric>, n: nat)
    requires n <= |ms|
    ensures StateUpTo(ms, n).specs == SpecsUpTo(ms, n)
  {
    hide SpecsOf;
    if n > 0 { StateSpecs(ms, n - 1); }
  }

  lemma DerivedNamesLater(name: string)
    ensures Less(name, name + "_bucket") && Less(name, name + "_sum") && Less(name, name + "_count")
  {
    LessExtension(name, "_bucket");
    LessExtension(name, "_sum");
    LessExtension(name, "_count");
  }

  /** No comment among the first `n - 1` metrics names the next one or its derived series. */
  lemma NextIsFresh(ms: seq<Metric>, n: nat)
    requires 0 < n <= |ms| && SortedByName(ms)
    ensures Unannotated(StateUpTo(ms, n - 1), ms[n - 1].name) && Unflattened(StateUpTo(ms, n - 1), ms[n - 1])
  {
    hide Unannotated, StateUpTo, Less;
    var name := ms[n - 1].name;
    DerivedNamesLater(name);
    FreshName(ms, n, name);
    FreshName(ms, n, name + "_bucket");
    FreshName(ms, n, name + "_sum");
    FreshName(ms, n, name + "_count");
  }

  lemma FreshName(ms: seq<Metric>, n: nat, name: string)
    requires 0 < n <= |ms| && SortedByName(ms)
    requires name == ms[n - 1].name || Less(ms[n - 1].name, name)
    ensures Unannotated(StateUpTo(ms, n - 1), name)
  {
    hide StateUpTo, Less, Unannotated;
    LaterNameIsNew(ms, n - 1, name);
    AnnotatedNames(ms, n - 1, name);
  }

  lemma {:induction false} LinesPass(ms: seq<Metric>, n: nat)
    requires n <= |ms| && SortedByName(ms) && AllExportable(ms)
    ensures NewlineFree(LinesUpTo(ms, n, true))
    ensures Pass(START, LinesUpTo(ms, n, true)) == Ok(StateUpTo(ms, n))
  {
    hide Pass, MetricLines, SpecsOf, Annotated, Exportable, Unannotated, Unflattened, Less;
    if n == 0 {
      PassNothing(START);
    } else {
      var m := ms[n - 1];
      var st := StateUpTo(ms, n - 1);
      LinesPass(ms, n - 1);
      NextIsFresh(ms, n);
      MetricPass(st, m);
      PassAppend(START, LinesUpTo(ms, n - 1, true), MetricLines(m, true), st);
    }
  }

  lemma PassNothing(st: PassState)
    ensures Pass(st, []) == Ok(st)
  {
  }

  /** Rendered text parses, to exactly the flattened specifications in name order. */
  lemma ParseRendered(c: Contents)
    requires ValidContents(c) && ExportableContents(c)
    ensures ParseText(Render(c, true)) == Ok(SpecsUpTo(Listing(c), |Listing(c)|))
  {
    hide Pass, LinesUpTo, StateUpTo, SpecsUpTo, Exportable;
    var ms := Listing(c);
    var n := |ms|;
    forall i | 0 <= i < n ensures Exportable(ms[i]) { assert c[ms[i].name] == ms[i]; }
    LinesPass(ms, n);
    LinesUnlines(LinesUpTo(ms, n, true));
    StateSpecs(ms, n);
  }

  // ---------------------------------------------------------------- what the merge leaves behind

  /** A counter or gauge after one hop. */
  function Relayed(m: Metric): Metric
    requires !m.AHistogram?
  {
    m.(value := Round6(m.value))
  }

  /** `k` is a histogram of `c` extended by `suffix`. */
  predicate Derived(c: Contents, k: string, suffix: string) {
    |k| >= |suffix| && k[|k| - |suffix|..] == suffix && k[..|k| - |suffix|] in c && c[k[..|k| - |suffix|]].AHistogram?
  }

  function Base(c: Contents, k: string, suffix: string): Metric
    requires Derived(c, k, suffix)
  {
    c[k[..|k| - |suffix|]]
  }

  function BucketGauge(k: string, h: Metric): Metric
    requires h.AHistogram?
  {
    AGauge(k, "", JoinLabels(h.labels, INF_LABEL), Finite(h.count as real))
  }

  function SumGauge(k: string, h: Metric): Metric
    requires h.AHistogram?
  {
    AGauge(k, "", h.labels, Round6(Finite(h.sum)))
  }

  function CountGauge(k: string, h: Metric): Metric
    requires h.AHistogram?
  {
    AGauge(k, "", h.labels, Finite(h.count as real))
  }

  /**
   The metric named `k` after one hop: a counter or gauge of that name comes back as itself; failing that,
   a histogram one suffix shorter shows up as a gauge; failing that, nothing.
   */
  function Federated(c: Contents, k: string): Option<Metric> {
    if k in c && !c[k].AHistogram? then Some(Relayed(c[k]))
    else if Derived(c, k, "_bucket") then Some(BucketGauge(k, Base(c, k, "_bucket")))
    else if Derived(c, k, "_sum") then Some(SumGauge(k, Base(c, k, "_sum")))
    else if Derived(c, k, "_count") then Some(CountGauge(k, Base(c, k, "_count")))
    else None
  }

  lemma UpsertGauge(c: Contents, name: string, labels: string, x: Num)
    requires name != ""
    ensures Upserted(c, GaugeSpec(name, labels, x)) == c[name := AGauge(name, "", labels, x)]
  {
    GaugeIsKnown();
  }

  lemma UpsertScalar(c: Contents, m: Metric)
    requires !m.AHistogram? && m.name != "" && WellFormed(m)
    ensures Upserted(c, ScalarSpec(m)) == c[m.name := Relayed(m)]
  {
    ParseTypeName(TypeOf(m));
    Round6Sign(m.value);
  }

  lemma UpsertOne(c: Contents, specs: seq<MetricSpec>, spec: MetricSpec)
    ensures UpsertAll(c, specs + [spec]) == Upserted(UpsertAll(c, specs), spec)
  {
    hide Upserted;
    assert (specs + [spec])[..|specs|] == specs;
  }

  /** Bucket samples only touch `h_bucket`. */
  lemma {:induction false} UpsertBuckets(c: Contents, m: Metric, n: nat, k: string)
    requires m.AHistogram? && n <= |m.bounds| && k != m.name + "_bucket"
    ensures Find(UpsertAll(c, BucketSpecs(m, n)), k) == Find(c, k)
  {
    hide Upserted;
    if n > 0 {
      UpsertBuckets(c, m, n - 1, k);
      UpsertOne(c, BucketSpecs(m, n - 1), BucketSpec(m, n - 1));
      UpsertGauge(UpsertAll(c, BucketSpecs(m, n - 1)), m.name + "_bucket",
                  BucketSpec(m, n - 1).labels, BucketSpec(m, n - 1).value);
    }
  }

  /** A histogram's samples leave exactly its three gauges. */
  lemma UpsertHistogram(c: Contents, m: Metric, k: string)
    requires m.AHistogram?
    ensures Find(UpsertAll(c, SpecsOf(m)), k)
            == if k == m.name + "_bucket" then Some(BucketGauge(k, m))
               else if k == m.name + "_sum" then Some(SumGauge(k, m))
               else if k == m.name + "_count" then Some(CountGauge(k, m))
               else Find(c, k)
  {
    hide Upserted, UpsertAll, BucketSpecs;
    var b := BucketSpecs(m, |m.bounds|);
    if k != m.name + "_bucket" { UpsertBuckets(c, m, |m.bounds|, k); }
    assert SpecsOf(m) == b + [InfSpec(m)] + [SumSpec(m)] + [CountSpec(m)];
    UpsertOne(c, b, InfSpec(m));
    UpsertOne(c, b + [InfSpec(m)], SumSpec(m));
    UpsertOne(c, b + [InfSpec(m)] + [SumSpec(m)], CountSpec(m));
    UpsertGauge(UpsertAll(c, b), m.name + "_bucket", InfSpec(m).labels, InfSpec(m).value);
    UpsertGauge(UpsertAll(c, b + [InfSpec(m)]), m.name + "_sum", SumSpec(m).labels, SumSpec(m).value);
    UpsertGauge(UpsertAll(c, b + [InfSpec(m)] + [SumSpec(m)]), m.name + "_count", CountSpec(m).labels, CountSpec(m).value);
    SuffixesDiffer(m.name);
  }

  lemma SuffixesDiffer(name: string)
    ensures name + "_bucket" != name + "_sum" && name + "_bucket" != name + "_count" && name + "_sum" != name + "_count"
  {
    assert (name + "_bucket")[|name| + 1] == 'b';
    assert (name + "_sum")[|name| + 1] == 's';
    assert (name + "_count")[|name| + 1] == 'c';
  }

  // ---------------------------------------------------------------- growing the registry in name order

  /** Splitting a name at a suffix and joining it again. */
  lemma DerivedFrom(c: Contents, k: string, suffix: string, name: string)
    ensures k == name + suffix ==> |k| >= |suffix| && k[|k| - |suffix|..] == suffix && k[..|k| - |suffix|] == name
    ensures Derived(c, k, suffix) ==> k == k[..|k| - |suffix|] + suffix
  {
    if k == name + suffix {
      assert k[..|k| - |suffix|] == name;
      assert k[|k| - |suffix|..] == suffix;
    }
    if Derived(c, k, suffix) {
      assert k == k[..|k| - |suffix|] + k[|k| - |suffix|..];
    }
  }

  /** Adding a metric under a new name changes `Derived` only for that metric's own suffixed name. */
  lemma DerivedGrows(c: Contents, m: Metric, k: string, suffix: string)
    requires m.name !in c
    ensures Derived(c[m.name := m], k, suffix)
            <==> Derived(c, k, suffix) || (m.AHistogram? && k == m.name + suffix)
    ensures Derived(c, k, suffix) ==> k != m.name + suffix && Base(c[m.name := m], k, suffix) == Base(c, k, suffix)
    ensures m.AHistogram? && k == m.name + suffix ==> Base(c[m.name := m], k, suffix) == m
  {
    DerivedFrom(c, k, suffix, m.name);
    DerivedFrom(c[m.name := m], k, suffix, m.name);
  }

  /** The end of a derived name, counted from the back. */
  lemma SuffixChar(c: Contents, k: string, suffix: string, j: nat)
    requires Derived(c, k, suffix) && 1 <= j <= |suffix|
    ensures |k| >= j && k[|k| - j] == suffix[|suffix| - j]
  {
    assert k[|k| - |suffix|..][|suffix| - j] == k[|k| - j];
  }

  lemma SuffixExclusive(c: Contents, k: string)
    ensures Derived(c, k, "_bucket") ==> !Derived(c, k, "_sum") && !Derived(c, k, "_count")
    ensures Derived(c, k, "_sum") ==> !Derived(c, k, "_count")
  {
    hide Derived;
    if Derived(c, k, "_bucket") {
      SuffixChar(c, k, "_bucket", 1);
      SuffixChar(c, k, "_bucket", 2);
    }
    if Derived(c, k, "_sum") { SuffixChar(c, k, "_sum", 1); }
    if Derived(c, k, "_count") {
      SuffixChar(c, k, "_count", 1);
      SuffixChar(c, k, "_count", 2);
    }
  }

  /** Adding a counter or gauge that sorts last. */
  lemma FederatedScalarStep(c: Contents, m: Metric, k: string)
    requires m.name !in c && !m.AHistogram?
    ensures Federated(c[m.name := m], k) == if k == m.name then Some(Relayed(m)) else Federated(c, k)
  {
    hide Derived, Base;
    DerivedGrows(c, m, k, "_bucket");
    DerivedGrows(c, m, k, "_sum");
    DerivedGrows(c, m, k, "_count");
  }

  /** Adding a histogram that sorts last: its derived names are not taken by an earlier counter or gauge. */
  lemma FederatedHistogramStep(c: Contents, m: Metric, k: string)
    requires m.name !in c && m.AHistogram?
    requires m.name + "_bucket" !in c && m.name + "_sum" !in c && m.name + "_count" !in c
    ensures Federated(c[m.name := m], k)
            == if k == m.name + "_bucket" then Some(BucketGauge(k, m))
               else if k == m.name + "_sum" then Some(SumGauge(k, m))
               else if k == m.name + "_count" then Some(CountGauge(k, m))
               else Federated(c, k)
  {
    hide Derived, Base, BucketGauge, SumGauge, CountGauge;
    var d := c[m.name := m];
    DerivedGrows(c, m, k, "_bucket");
    DerivedGrows(c, m, k, "_sum");
    DerivedGrows(c, m, k, "_count");
    SuffixExclusive(d, k);
    NameIsNotDerived(m.name);
    SuffixesDiffer(m.name);
  }

  lemma UpsertNone(c: Contents)
    ensures UpsertAll(c, []) == c
  {
  }

  lemma MergeStep(before: Contents, c: Contents, m: Metric, k: string)
    requires Find(before, k) == Federated(c, k) && m.name != "" && WellFormed(m)
    requires m.name !in c && m.name + "_bucket" !in c && m.name + "_sum" !in c && m.name + "_count" !in c
    ensures Find(UpsertAll(before, SpecsOf(m)), k) == Federated(c[m.name := m], k)
  {
    hide Federated, SpecsOf, UpsertAll, Relayed, BucketGauge, SumGauge, CountGauge, WellFormed;
    if m.AHistogram? {
      UpsertHistogram(before, m, k);
      FederatedHistogramStep(c, m, k);
    } else {
      UpsertScalarSpecs(before, m);
      FederatedScalarStep(c, m, k);
    }
  }

  lemma {:induction false} MergeUpTo(ms: seq<Metric>, n: nat, k: string)
    requires n <= |ms| && SortedByName(ms)
    requires forall i :: 0 <= i < |ms| ==> ms[i].name != "" && WellFormed(ms[i])
    ensures Find(UpsertAll(map[], SpecsUpTo(ms, n)), k) == Federated(ContentsUpTo(ms, n), k)
  {
    hide Federated, SpecsOf, UpsertAll, WellFormed;
    if n == 0 {
      assert UpsertAll(map[], []) == map[] by { UpsertNone(map[]); }
      FederatedNothing(k);
    } else {
      var m := ms[n - 1];
      var c := ContentsUpTo(ms, n - 1);
      MergeUpTo(ms, n - 1, k);
      UpsertAllAppend(map[], SpecsUpTo(ms, n - 1), SpecsOf(m));
      NotYet(ms, n - 1, m.name);
      DerivedNamesLater(m.name);
      NotYet(ms, n - 1, m.name + "_bucket");
      NotYet(ms, n - 1, m.name + "_sum");
      NotYet(ms, n - 1, m.name + "_count");
      MergeStep(UpsertAll(map[], SpecsUpTo(ms, n - 1)), c, m, k);
    }
  }

  lemma FederatedNothing(k: string)
    ensures Federated(map[], k) == None
  {
  }

  lemma UpsertScalarSpecs(c: Contents, m: Metric)
    requires !m.AHistogram? && m.name != "" && WellFormed(m)
    ensures UpsertAll(c, SpecsOf(m)) == c[m.name := Relayed(m)]
  {
    UpsertScalar(c, m);
    assert SpecsOf(m)[..0] == [];
    assert UpsertAll(c, []) == c;
  }

  // ---------------------------------------------------------------- the theorems

  lemma ParsedIsValid(text: string)
    ensures ParseText(text).Ok? ==> ValidContents(UpsertAll(map[], ParseText(text).value))
  {
    hide Pass, Lines, UpsertAll, MakeMetric;
    PassBuildable(START, Lines(text));
    if ParseText(text).Ok? { UpsertAllValid(map[], ParseText(text).value); }
  }

  /** The registry that merging the rendering of `c` into an empty one produces. */
  ghost function AfterHop(c: Contents): (d: Contents)
    requires ValidContents(c)
    ensures ValidContents(d)
  {
    ParsedIsValid(Render(c, true));
    match ParseText(Render(c, true))
    case Err(e) => map[]
    case Ok(specs) => UpsertAll(map[], specs)
  }

  /** Every metric of the result, and nothing else: the exact outcome of one federation hop. */
  lemma FederationRoundTrip(c: Contents, k: string)
    requires ValidContents(c) && ExportableContents(c)
    ensures ParseText(Render(c, true)).Ok?
    ensures Find(AfterHop(c), k) == Federated(c, k)
  {
    hide Federated, Exportable, ParseText, Render, UpsertAll, SpecsUpTo, ContentsUpTo, WellFormed;
    var ms := Listing(c);
    ParseRendered(c);
    forall i | 0 <= i < |ms| ensures ms[i].name != "" && WellFormed(ms[i]) { assert c[ms[i].name] == ms[i]; }
    MergeUpTo(ms, |ms|, k);
    ContentsUpToAll(c);
  }

  /** A counter or gauge has the name `k`. */
  predicate ScalarAt(c: Contents, k: string) { k in c && !c[k].AHistogram? }

  lemma DerivedOf(c: Contents, h: string, suffix: string)
    requires h in c && c[h].AHistogram?
    ensures Derived(c, h + suffix, suffix) && Base(c, h + suffix, suffix) == c[h]
  {
    DerivedFrom(c, h + suffix, suffix, h);
  }

  /**
   A histogram is flattened: its own name disappears unless it is itself a suffixed name of another histogram, and
   its three derived names are there, as its gauges wherever no counter or gauge has that name already.
   */
  lemma HistogramFlattens(c: Contents, h: string)
    requires ValidContents(c) && ExportableContents(c) && h in c && c[h].AHistogram?
    ensures h !in AfterHop(c) <==> !Derived(c, h, "_bucket") && !Derived(c, h, "_sum") && !Derived(c, h, "_count")
    ensures Find(AfterHop(c), h + "_bucket")
            == Some(if ScalarAt(c, h + "_bucket") then Relayed(c[h + "_bucket"]) else BucketGauge(h + "_bucket", c[h]))
    ensures Find(AfterHop(c), h + "_sum")
            == Some(if ScalarAt(c, h + "_sum") then Relayed(c[h + "_sum"]) else SumGauge(h + "_sum", c[h]))
    ensures Find(AfterHop(c), h + "_count")
            == Some(if ScalarAt(c, h + "_count") then Relayed(c[h + "_count"]) else CountGauge(h + "_count", c[h]))
  {
    hide AfterHop, Exportable, WellFormed, Derived, Base, BucketGauge, SumGauge, CountGauge, Relayed;
    FederationRoundTrip(c, h);
    FederationRoundTrip(c, h + "_bucket");
    FederationRoundTrip(c, h + "_sum");
    FederationRoundTrip(c, h + "_count");
    DerivedOf(c, h, "_bucket");
    DerivedOf(c, h, "_sum");
    DerivedOf(c, h, "_count");
    SuffixExclusive(c, h + "_sum");
    SuffixExclusive(c, h + "_count");
  }

  ghost predicate NoHistograms(c: Contents) { forall k :: k in c ==> !c[k].AHistogram? }

  /** A hop gives back a counter or gauge unchanged exactly when six significant digits hold its value. */
  lemma ScalarSurvivesIff(c: Contents, k: string)
    requires ValidContents(c) && ExportableContents(c)
    requires k in c && !c[k].AHistogram?
    ensures k in AfterHop(c)
    ensures AfterHop(c)[k] == c[k] <==> Short(c[k].value)
  {
    hide AfterHop, Exportable, WellFormed;
    FederationRoundTrip(c, k);
    Round6Exact(c[k].value);
  }

  /** Without histograms a hop is the value-wise rounding of the registry. */
  lemma ScalarHop(c: Contents)
    requires ValidContents(c) && ExportableContents(c) && NoHistograms(c)
    ensures AfterHop(c) == map k | k in c :: Relayed(c[k])
  {
    hide AfterHop, Exportable, WellFormed, Relayed;
    forall k ensures Find(AfterHop(c), k) == if k in c then Some(Relayed(c[k])) else None {
      FederationRoundTrip(c, k);
    }
    assert forall k :: k in c ==> Find(AfterHop(c), k) == Some(Relayed(c[k]));
    assert forall k :: k in AfterHop(c) ==> Find(AfterHop(c), k).Some?;
    assert forall k :: k in c ==> k in AfterHop(c);
    assert forall k :: k in AfterHop(c) ==> k in c;
  }

  lemma RelayedWellFormed(m: Metric)
    requires !m.AHistogram? && WellFormed(m) && Exportable(m)
    ensures WellFormed(Relayed(m)) && Exportable(Relayed(m)) && Relayed(Relayed(m)) == Relayed(m)
  {
    Round6Sign(m.value);
    Round6Idempotent(m.value);
  }

  /** Relaying through a second daemon loses nothing more: the first hop already reached the fixed point. */
  lemma SecondHopIsLossless(c: Contents)
    requires ValidContents(c) && ExportableContents(c) && NoHistograms(c)
    ensures ValidContents(AfterHop(c)) && AfterHop(AfterHop(c)) == AfterHop(c)
  {
    hide AfterHop, Exportable, WellFormed, Relayed;
    ScalarHop(c);
    var d := AfterHop(c);
    forall k | k in d ensures k != "" && d[k].name == k && WellFormed(d[k]) && Exportable(d[k]) && !d[k].AHistogram? && Relayed(d[k]) == d[k] {
      RelayedWellFormed(c[k]);
      RelayedName(c[k]);
    }
    ScalarHop(d);
    assert (map k | k in d :: Relayed(d[k])) == d;
  }

  lemma RelayedName(m: Metric)
    requires !m.AHistogram?
    ensures Relayed(m).name == m.name && !Relayed(m).AHistogram?
  {
  }
}
