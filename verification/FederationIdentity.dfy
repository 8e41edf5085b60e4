/**
 Exactly which registries a federation hop gives back unchanged. Whatever text is merged, only metrics the exposition
 format can carry come out of it, so the conditions that suffice for a lossless hop are also necessary.
 */
module FederationIdentity {
  import opened Text
  import opened Numbers
  import opened Metrics
  import opened Registry
  import opened Exposition
  import opened PrometheusText
  import opened Federation
  import opened Relay

  ghost predicate HelpFits(help: string) { Trimmed(help) && All(help, NotNewline) }

  ghost predicate SpecFits(spec: MetricSpec) {
    && spec.name != "" && All(spec.name, IsNameChar)
    && All(spec.labels, NotCloseBrace) && All(spec.labels, NotNewline)
    && HelpFits(spec.help)
  }

  ghost predicate StateFits(st: PassState) {
    && (forall k :: k in st.helps ==> HelpFits(st.helps[k]))
    && (forall i :: 0 <= i < |st.specs| ==> SpecFits(st.specs[i]))
  }

  lemma NewlineFreeSlice(s: string, lo: nat, hi: nat)
    requires All(s, NotNewline) && lo <= hi <= |s|
    ensures All(s[lo..hi], NotNewline)
  {
  }

  lemma NewlineFreeTrim(s: string)
    requires All(s, NotNewline)
    ensures All(Trim(s), NotNewline)
  {
    var lo: nat, hi: nat :| lo <= hi <= |s| && Trim(s) == s[lo..hi];
    NewlineFreeSlice(s, lo, hi);
  }

  lemma NewlineFreeRest(s: string, p: char -> bool)
    requires All(s, NotNewline)
    ensures All(Take(s, p), NotNewline) && All(Rest(s, p), NotNewline)
  {
    NewlineFreeSlice(s, 0, Span(s, p));
    NewlineFreeSlice(s, Span(s, p), |s|);
  }

  lemma TakenFits(s: string, p: char -> bool)
    ensures All(Take(s, p), p)
  {
  }

  lemma HelpStepFits(st: PassState, comment: string)
    requires StateFits(st) && All(comment, NotNewline)
    ensures StateFits(HelpStep(st, comment))
  {
    hide Trim, SpecFits;
    var rest := Trim(comment);
    NewlineFreeTrim(comment);
    NewlineFreeRest(rest, NotBlank);
    var r := Rest(rest, NotBlank);
    if r != [] {
      NewlineFreeSlice(r, 1, |r|);
      assert r[1..|r|] == r[1..];
      NewlineFreeTrim(r[1..]);
    }
  }

  lemma LabelPartFits(r: string)
    requires All(r, NotNewline)
    ensures LabelPart(r).Ok? ==> All(LabelPart(r).value.0, NotCloseBrace) && All(LabelPart(r).value.0, NotNewline)
  {
    if r != [] {
      NewlineFreeSlice(r, 1, |r|);
      assert r[1..|r|] == r[1..];
      NewlineFreeRest(r[1..], NotCloseBrace);
      TakenFits(r[1..], NotCloseBrace);
    }
  }

  lemma SampleStepFits(st: PassState, line: string)
    requires StateFits(st) && All(line, NotNewline)
    ensures SampleStep(st, line).Ok? ==> StateFits(SampleStep(st, line).value)
  {
    hide LabelPart, ValuePart, HelpFits, ParseMetricType, Take, Rest;
    NewlineFreeRest(line, IsNameChar);
    TakenFits(line, IsNameChar);
    LabelPartFits(Rest(line, IsNameChar));
    NoHelpFits();
  }

  lemma NoHelpFits()
    ensures HelpFits("")
  {
  }

  lemma LineStepFits(st: PassState, line: string)
    requires StateFits(st) && All(line, NotNewline)
    ensures LineStep(st, line).Ok? ==> StateFits(LineStep(st, line).value)
  {
    hide StateFits, HelpStep, SampleStep, StartsWith;
    if StartsWith(line, HELP_PREFIX) || StartsWith(line, TYPE_PREFIX) {
      CommentFirst(line);
      NewlineFreeSlice(line, 7, |line|);
      assert line[7..|line|] == line[7..];
      HelpStepFits(st, line[7..]);
      TypeStepFits(st, line[7..]);
    }
    SampleStepFits(st, line);
  }

  lemma TypeStepFits(st: PassState, comment: string)
    requires StateFits(st)
    ensures StateFits(TypeStep(st, comment))
  {
    hide Trim, Word, AfterWord;
  }

  lemma {:induction false} PassFits(st: PassState, lines: seq<string>)
    requires StateFits(st) && NewlineFree(lines)
    ensures Pass(st, lines).Ok? ==> StateFits(Pass(st, lines).value)
    decreases |lines|
  {
    hide StateFits, LineStep, CleanLine;
    if lines != [] {
      CleanNewlineFree(lines[0]);
      LineStepFits(st, CleanLine(lines[0]));
      var next := LineStep(st, CleanLine(lines[0]));
      if next.Ok? { PassFits(next.value, lines[1..]); }
    }
  }

  /** Whatever is scraped, every sample is one the format can carry. */
  lemma ParsedFits(text: string)
    ensures ParseText(text).Ok? ==> forall i :: 0 <= i < |ParseText(text).value| ==> SpecFits(ParseText(text).value[i])
  {
    hide Pass, SpecFits, Lines;
    LinesNewlineFree(text);
    PassFits(START, Lines(text));
  }

  lemma MadeExportable(spec: MetricSpec)
    requires SpecFits(spec) && MakeMetric(spec).Some?
    ensures Exportable(MakeMetric(spec).value)
  {
    hide ParseMetricType, NormalizedBounds;
  }

  lemma {:induction false} MergedExportable(c: Contents, specs: seq<MetricSpec>)
    requires ExportableContents(c) && forall i :: 0 <= i < |specs| ==> SpecFits(specs[i])
    ensures ExportableContents(UpsertAll(c, specs))
  {
    hide SpecFits, MakeMetric, Exportable;
    if specs != [] {
      var last := specs[|specs| - 1];
      MergedExportable(c, specs[..|specs| - 1]);
      if Accepts(last) { MadeExportable(last); }
    }
  }

  // ---------------------------------------------------------------- further hops

  /** The outcome of a hop is again a registry that can be exported, without histograms. */
  lemma HopFits(c: Contents)
    requires ValidContents(c) && ExportableContents(c)
    ensures ExportableContents(AfterHop(c)) && NoHistograms(AfterHop(c))
  {
    hide ParseText, Render, UpsertAll, SpecFits, Exportable, WellFormed, Federated;
    FederationRoundTrip(c, "");
    ParsedFits(Render(c, true));
    NothingExportable();
    MergedExportable(map[], ParseText(Render(c, true)).value);
    forall k | k in AfterHop(c) ensures !AfterHop(c)[k].AHistogram? {
      FederationRoundTrip(c, k);
      FederatedIsScalar(c, k);
    }
  }

  /** A histogram of which a hop leaves the bucket or the count gauge. */
  predicate LeavesCount(c: Contents, h: string) {
    h in c && c[h].AHistogram? && (!ScalarAt(c, h + "_bucket") || !ScalarAt(c, h + "_count"))
  }

  /** Every such histogram has a count of at most six digits before its zeros. */
  ghost predicate CountsFit(c: Contents) {
    forall h :: LeavesCount(c, h) ==> FitsSix(c[h].count)
  }

  ghost predicate AllShort(c: Contents) {
    forall k :: k in c ==> Short(ValueOf(c[k]))
  }

  lemma CountGaugeShort(c: Contents, h: string)
    requires ValidContents(c) && ExportableContents(c) && LeavesCount(c, h)
    requires AllShort(AfterHop(c))
    ensures FitsSix(c[h].count)
  {
    hide AfterHop, Exportable, WellFormed, Short, Derived, Relayed, FitsSix, SumGauge;
    HistogramFlattens(c, h);
    CountShortIff(c[h].count);
    var k := if ScalarAt(c, h + "_bucket") then h + "_count" else h + "_bucket";
    assert Find(AfterHop(c), k).Some?;
  }

  lemma RoundedIsShort(x: Num)
    ensures Short(Round6(x))
  {
    Round6Idempotent(x);
    Round6Exact(Round6(x));
  }

  /** The value a hop leaves under `k`. */
  lemma HopValueShort(c: Contents, k: string)
    requires ValidContents(c) && ExportableContents(c) && k in AfterHop(c) && CountsFit(c)
    ensures Short(ValueOf(AfterHop(c)[k]))
  {
    hide AfterHop, Exportable, WellFormed, Short, FitsSix, Round6;
    FederationRoundTrip(c, k);
    if ScalarAt(c, k) {
      RoundedIsShort(c[k].value);
    } else if Derived(c, k, "_bucket") {
      DerivedFrom(c, k, "_bucket", "");
      CountShortIff(Base(c, k, "_bucket").count);
      assert LeavesCount(c, k[..|k| - |"_bucket"|]);
    } else if Derived(c, k, "_sum") {
      RoundedIsShort(Finite(Base(c, k, "_sum").sum));
    } else {
      DerivedFrom(c, k, "_count", "");
      CountShortIff(Base(c, k, "_count").count);
      assert LeavesCount(c, k[..|k| - |"_count"|]);
    }
  }

  lemma AllShortIsFixed(c: Contents)
    requires ValidContents(c) && ExportableContents(c) && NoHistograms(c)
    ensures AfterHop(c) == c <==> AllShort(c)
  {
    hide AfterHop, Exportable, WellFormed, Short;
    FederationIdentityIff(c);
  }

  /**
   A second hop changes nothing exactly when every histogram whose count gauges the first hop leaves has a count of at
   most six digits before its zeros: histograms print their counts in full, gauges print six digits.
   */
  lemma SecondHopIff(c: Contents)
    requires ValidContents(c) && ExportableContents(c)
    ensures AfterHop(AfterHop(c)) == AfterHop(c) <==> CountsFit(c)
  {
    hide AfterHop, Exportable, WellFormed, Short, LeavesCount, FitsSix, NoHistograms;
    HopFits(c);
    var d := AfterHop(c);
    AllShortIsFixed(d);
    if AllShort(d) {
      forall h | LeavesCount(c, h) ensures h in c && c[h].AHistogram? && FitsSix(c[h].count) {
        LeavesCountHas(c, h);
        CountGaugeShort(c, h);
      }
    }
    if CountsFit(c) {
      forall k | k in d ensures Short(ValueOf(d[k])) { HopValueShort(c, k); }
    }
  }

  lemma LeavesCountHas(c: Contents, h: string)
    requires LeavesCount(c, h)
    ensures h in c && c[h].AHistogram?
  {
  }

  /** From the second hop on nothing changes, whatever the registry holds. */
  lemma ThirdHopIsSecond(c: Contents)
    requires ValidContents(c) && ExportableContents(c)
    ensures AfterHop(AfterHop(AfterHop(c))) == AfterHop(AfterHop(c))
  {
    hide AfterHop, Exportable, WellFormed, NoHistograms;
    HopFits(c);
    SecondHopIsLossless(AfterHop(c));
  }

  /** One histogram of 1234567 samples. */
  function BusyHistogram(name: string): Contents {
    map[name := AHistogram(name, "", "", [Finite(1.0)], [1_234_567], 0.0, 1_234_567)]
  }

  /** Its count loses digits at the second hop. */
  lemma SecondHopLoses(name: string)
    requires name != "" && All(name, IsNameChar)
    ensures ValidContents(BusyHistogram(name)) && ExportableContents(BusyHistogram(name))
    ensures AfterHop(AfterHop(BusyHistogram(name))) != AfterHop(BusyHistogram(name))
  {
    hide AfterHop;
    var c := BusyHistogram(name);
    assert ValidContents(c) && ExportableContents(c);
    SecondHopIff(c);
    assert |name + "_bucket"| != |name|;
    assert LeavesCount(c, name);
    assert !FitsSix(1_234_567);
  }

  // ---------------------------------------------------------------- the identity

  lemma FederatedIsScalar(c: Contents, k: string)
    ensures Federated(c, k).Some? ==> !Federated(c, k).value.AHistogram?
  {
  }

  /** A hop into an empty registry gives the registry back exactly when it holds only exportable, short counters and gauges. */
  lemma FederationIdentityIff(c: Contents)
    requires ValidContents(c)
    ensures AfterHop(c) == c <==> forall k :: k in c ==> Exportable(c[k]) && !c[k].AHistogram? && Short(c[k].value)
  {
    hide ParseText, Render, UpsertAll, SpecFits, Exportable, WellFormed, Federated, Relayed, Short;
    if AfterHop(c) == c {
      ParsedFits(Render(c, true));
      NothingExportable();
      if ParseText(Render(c, true)).Ok? { MergedExportable(map[], ParseText(Render(c, true)).value); }
      forall k | k in c ensures !c[k].AHistogram? && Short(c[k].value) { IdenticalIsShort(c, k); }
    }
    if forall k :: k in c ==> Exportable(c[k]) && !c[k].AHistogram? && Short(c[k].value) {
      ScalarHop(c);
      forall k | k in c ensures Relayed(c[k]) == c[k] { ShortRelayed(c[k]); }
      assert (map k | k in c :: Relayed(c[k])) == c;
    }
  }

  lemma NothingExportable()
    ensures ExportableContents(map[])
  {
  }

  lemma ShortRelayed(m: Metric)
    requires !m.AHistogram?
    ensures Relayed(m) == m <==> Short(m.value)
  {
    Round6Exact(m.value);
  }

  lemma IdenticalIsShort(c: Contents, k: string)
    requires ValidContents(c) && ExportableContents(c) && AfterHop(c) == c && k in c
    ensures !c[k].AHistogram? && Short(c[k].value)
  {
    hide AfterHop, Exportable, WellFormed, Federated, Short;
    FederationRoundTrip(c, k);
    FederatedIsScalar(c, k);
    ScalarSurvivesIff(c, k);
  }
}
