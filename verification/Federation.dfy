/**
 One daemon scraping another: what merging a rendered registry gives back.
 Counters and gauges return with type, help and labels intact and their value rounded to six
 significant digits; a histogram `h` returns as the gauges `h_bucket`, `h_sum` and `h_count`.
 */
module Federation {
  import opened Text
  import opened Numbers
  import opened NumberText
  import opened Metrics
  import opened Exposition
  import opened PrometheusText

  /** Text that the exposition format can carry for this metric. */
  ghost predicate Exportable(m: Metric) {
    && m.name != "" && All(m.name, IsNameChar)
    && All(m.labels, NotCloseBrace) && All(m.labels, NotNewline)
    && Trimmed(m.help) && All(m.help, NotNewline)
  }

  ghost predicate AllExportable(ms: seq<Metric>) {
    forall i :: 0 <= i < |ms| ==> Exportable(ms[i])
  }

  // ---------------------------------------------------------------- single lines

  lemma CleanFixed(line: string)
    requires Trimmed(line)
    ensures CleanLine(line) == line
  {
    TrimFixed(line);
  }

  /** Text of a number as it stands in a sample line. */
  ghost predicate Numeral(v: string, x: Num) {
    v != [] && All(v, IsNumChar) && ParseNum(v) == Some(x)
  }

  lemma NumeralNum(x: Num)
    ensures Numeral(PrintNum(x), Round6(x))
  {
    PrintNumChars(x);
    ParsePrintNum(x);
  }

  lemma NumeralNat(n: nat)
    ensures Numeral(Digits(n), Finite(n as real))
  {
    ParsePrintNat(n);
    assert All(Digits(n), IsDigit);
  }

  lemma ValuePartOf(v: string, x: Num, r: string)
    requires Numeral(v, x) && r == " " + v
    ensures ValuePart(r) == Ok(x)
  {
    hide ParseNum;
    SpanIs(r, IsSpace, 1);
    assert r[1..] == v;
    TakeAll(v, NotSpace);
    assert DropSpace(r) == v;
    assert Take(v, NotSpace) == v;
  }

  lemma LabelPartOf(labels: string, tail: string, r: string)
    requires All(labels, NotCloseBrace)
    requires tail != [] && tail[0] == ' '
    requires r == Braced(labels) + tail
    ensures LabelPart(r) == Ok((labels, tail))
  {
    if labels == "" {
      assert r == tail;
    } else {
      assert r[1..] == labels + ("}" + tail);
      TakeSeam(labels, "}" + tail, NotCloseBrace);
      assert ("}" + tail)[1..] == tail;
    }
  }

  lemma ParseSampleLineText(line: string, name: string, labels: string, v: string, x: Num)
    requires line == SampleLine(name, labels, v)
    requires name != "" && All(name, IsNameChar) && All(labels, NotCloseBrace) && Numeral(v, x)
    ensures ParseSample(line) == Ok(Sample(name, labels, x))
  {
    hide LabelPart, ValuePart, Numeral;
    var tail := " " + v;
    var r := Braced(labels) + tail;
    assert line == name + r;
    TakeSeam(name, r, IsNameChar);
    LabelPartOf(labels, tail, r);
    ValuePartOf(v, x, tail);
  }

  lemma NewlineFreeAppend(a: string, b: string)
    requires All(a, NotNewline) && All(b, NotNewline)
    ensures All(a + b, NotNewline)
  {
  }

  lemma SampleLineShape(line: string, name: string, labels: string, v: string)
    requires line == SampleLine(name, labels, v)
    requires name != "" && All(name, IsNameChar) && All(labels, NotNewline)
    requires v != [] && All(v, IsNumChar)
    ensures Trimmed(line) && All(line, NotNewline)
    ensures line != [] && line[0] != '#'
    ensures !StartsWith(line, HELP_PREFIX) && !StartsWith(line, TYPE_PREFIX)
  {
    hide StartsWith;
    assert line[0] == name[0];
    assert line[|line| - 1] == v[|v| - 1];
    StartsWithFirst(line, HELP_PREFIX);
    StartsWithFirst(line, TYPE_PREFIX);
    assert All(Braced(labels), NotNewline);
    NewlineFreeAppend(name, Braced(labels));
    NewlineFreeAppend(name + Braced(labels), " ");
    NewlineFreeAppend(name + Braced(labels) + " ", v);
  }

  lemma SampleLineStep(st: PassState, name: string, labels: string, v: string, x: Num)
    requires name != "" && All(name, IsNameChar) && All(labels, NotCloseBrace) && All(labels, NotNewline)
    requires Numeral(v, x)
    ensures var line := SampleLine(name, labels, v);
            && All(line, NotNewline)
            && LineStep(st, CleanLine(line)) == Ok(st.(specs := st.specs + [SpecFor(st, Sample(name, labels, x))]))
  {
    hide SampleLine, ParseSample, CleanLine, SpecFor, StartsWith;
    var line := SampleLine(name, labels, v);
    SampleLineShape(line, name, labels, v);
    CleanFixed(line);
    ParseSampleLineText(line, name, labels, v, x);
  }

  lemma BlankFreeName(name: string)
    requires All(name, IsNameChar)
    ensures All(name, NotBlank) && All(name, NotSpace)
  {
  }

  /** A comment line keeps its shape through the clean-up. */
  lemma CommentLine(prefix: string, comment: string, line: string)
    requires |prefix| == 7 && prefix[0] == '#' && All(prefix, NotNewline)
    requires comment != [] && !IsSpace(comment[|comment| - 1]) && All(comment, NotNewline)
    requires line == prefix + comment
    ensures All(line, NotNewline) && CleanLine(line) == line
    ensures StartsWith(line, prefix) && line[7..] == comment
  {
    assert line[0] == '#' && line[|line| - 1] == comment[|comment| - 1];
    assert line[..7] == prefix;
    CleanFixed(line);
  }

  lemma HelpLineParts(name: string, help: string)
    ensures HelpLine(name, help) == HELP_PREFIX + (name + (" " + help))
  {
    assert HELP_PREFIX + name + " " + help == HELP_PREFIX + (name + (" " + help));
  }

  lemma HelpLineStep(st: PassState, name: string, help: string)
    requires name != "" && All(name, IsNameChar)
    requires help != "" && Trimmed(help) && All(help, NotNewline)
    ensures var line := HelpLine(name, help);
            && All(line, NotNewline)
            && LineStep(st, CleanLine(line)) == Ok(st.(helps := st.helps[name := help]))
  {
    hide HelpLine, CleanLine, HelpStep, StartsWith;
    var comment := name + (" " + help);
    HelpLineParts(name, help);
    assert comment[|comment| - 1] == help[|help| - 1];
    CommentLine(HELP_PREFIX, comment, HelpLine(name, help));
    HelpCommentStep(st, name, help, comment);
  }

  lemma HelpCommentStep(st: PassState, name: string, help: string, comment: string)
    requires name != "" && All(name, IsNameChar) && help != "" && Trimmed(help)
    requires comment == name + (" " + help)
    ensures HelpStep(st, comment) == st.(helps := st.helps[name := help])
  {
    assert comment[0] == name[0] && comment[|comment| - 1] == help[|help| - 1];
    TrimFixed(comment);
    BlankFreeName(name);
    TakeSeam(name, " " + help, NotBlank);
    assert (" " + help)[1..] == help;
    TrimFixed(help);
  }

  lemma TypeLineParts(name: string, typ: string)
    ensures TypeLine(name, typ) == TYPE_PREFIX + (name + (" " + typ))
  {
    assert TYPE_PREFIX + name + " " + typ == TYPE_PREFIX + (name + (" " + typ));
  }

  lemma TypeIsNotHelp(line: string)
    requires StartsWith(line, TYPE_PREFIX)
    ensures !StartsWith(line, HELP_PREFIX)
  {
    assert TYPE_PREFIX[2] == 'T' && HELP_PREFIX[2] == 'H';
    assert line[..7][2] == 'T';
  }

  lemma TypeNameShape(t: MetricType)
    ensures TypeName(t) != "" && All(TypeName(t), NotSpace)
  {
  }

  lemma TypeLineStep(st: PassState, name: string, t: MetricType)
    requires name != "" && All(name, IsNameChar)
    ensures var line := TypeLine(name, TypeName(t));
            && All(line, NotNewline)
            && LineStep(st, CleanLine(line)) == Ok(st.(types := st.types[name := TypeName(t)]))
  {
    hide TypeLine, CleanLine, TypeStep, StartsWith, TypeName;
    var typ := TypeName(t);
    var comment := name + (" " + typ);
    TypeNameShape(t);
    TypeLineParts(name, typ);
    assert comment[|comment| - 1] == typ[|typ| - 1];
    CommentLine(TYPE_PREFIX, comment, TypeLine(name, typ));
    TypeIsNotHelp(TypeLine(name, typ));
    TypeCommentStep(st, name, typ, comment);
  }

  lemma TypeCommentStep(st: PassState, name: string, typ: string, comment: string)
    requires name != "" && All(name, IsNameChar) && typ != "" && All(typ, NotSpace)
    requires comment == name + (" " + typ)
    ensures TypeStep(st, comment) == st.(types := st.types[name := typ])
  {
    assert comment[0] == name[0] && comment[|comment| - 1] == typ[|typ| - 1];
    TrimFixed(comment);
    BlankFreeName(name);
    WordSeam(name, " " + typ);
    WordSeam(typ, "");
    assert typ + "" == typ;
  }

  // ---------------------------------------------------------------- one metric

  /** The specification of a sample whose name has no TYPE or HELP comment. */
  function GaugeSpec(name: string, labels: string, x: Num): MetricSpec {
    MetricSpec(name, "gauge", "", x, labels, [])
  }

  function BucketSpec(m: Metric, i: nat): MetricSpec
    requires m.AHistogram? && i < |m.bounds|
  {
    GaugeSpec(m.name + "_bucket", JoinLabels(m.labels, BoundLabel(PrintNum(m.bounds[i]))),
              Finite(BucketCount(m, i) as real))
  }

  function BucketSpecs(m: Metric, n: nat): seq<MetricSpec>
    requires m.AHistogram? && n <= |m.bounds|
  {
    if n == 0 then [] else BucketSpecs(m, n - 1) + [BucketSpec(m, n - 1)]
  }

  function InfSpec(m: Metric): MetricSpec
    requires m.AHistogram?
  {
    GaugeSpec(m.name + "_bucket", JoinLabels(m.labels, INF_LABEL), Finite(m.count as real))
  }

  function SumSpec(m: Metric): MetricSpec
    requires m.AHistogram?
  {
    GaugeSpec(m.name + "_sum", m.labels, Round6(Finite(m.sum)))
  }

  function CountSpec(m: Metric): MetricSpec
    requires m.AHistogram?
  {
    GaugeSpec(m.name + "_count", m.labels, Finite(m.count as real))
  }

  function ScalarSpec(m: Metric): MetricSpec
    requires !m.AHistogram?
  {
    MetricSpec(m.name, TypeName(TypeOf(m)), m.help, Round6(m.value), m.labels, [])
  }

  /** The specifications one rendered metric is read as. */
  function SpecsOf(m: Metric): seq<MetricSpec> {
    if m.AHistogram? then BucketSpecs(m, |m.bounds|) + [InfSpec(m), SumSpec(m), CountSpec(m)]
    else [ScalarSpec(m)]
  }

  /** No comment seen so far talks about `name`. */
  predicate Unannotated(st: PassState, name: string) { name !in st.types && name !in st.helps }

  ghost predicate NewlineFree(lines: seq<string>) {
    forall i :: 0 <= i < |lines| ==> All(lines[i], NotNewline)
  }

  lemma PassSnoc(st: PassState, lines: seq<string>, line: string, mid: PassState, next: PassState)
    requires NewlineFree(lines) && Pass(st, lines) == Ok(mid)
    requires All(line, NotNewline) && LineStep(mid, CleanLine(line)) == Ok(next)
    ensures NewlineFree(lines + [line]) && Pass(st, lines + [line]) == Ok(next)
  {
    hide LineStep, CleanLine;
    PassAppend(st, lines, [line], mid);
    assert [line][1..] == [];
  }

  lemma JoinLabelsSafe(labels: string, extra: string)
    requires All(labels, NotCloseBrace) && All(labels, NotNewline)
    requires All(extra, NotCloseBrace) && All(extra, NotNewline)
    ensures All(JoinLabels(labels, extra), NotCloseBrace) && All(JoinLabels(labels, extra), NotNewline)
  {
  }

  lemma BoundLabelSafe(b: Num)
    ensures All(BoundLabel(PrintNum(b)), NotCloseBrace) && All(BoundLabel(PrintNum(b)), NotNewline)
  {
    hide PrintNum;
    PrintNumChars(b);
  }

  /** A sample of an unannotated series is read as a gauge. */
  lemma GaugeLineStep(st: PassState, name: string, labels: string, v: string, x: Num)
    requires name != "" && All(name, IsNameChar) && All(labels, NotCloseBrace) && All(labels, NotNewline)
    requires Numeral(v, x) && Unannotated(st, name)
    ensures var line := SampleLine(name, labels, v);
            && All(line, NotNewline)
            && LineStep(st, CleanLine(line)) == Ok(st.(specs := st.specs + [GaugeSpec(name, labels, x)]))
  {
    hide SampleLine, LineStep, CleanLine, Numeral;
    SampleLineStep(st, name, labels, v, x);
    GaugeIsKnown();
  }

  lemma SuffixName(name: string, suffix: string)
    requires All(name, IsNameChar) && All(suffix, IsNameChar) && suffix != ""
    ensures All(name + suffix, IsNameChar) && name + suffix != ""
  {
  }

  lemma BucketLineStep(st: PassState, m: Metric, i: nat)
    requires m.AHistogram? && Exportable(m) && i < |m.bounds|
    requires Unannotated(st, m.name + "_bucket")
    ensures var line := BucketLine(m, i);
            && All(line, NotNewline)
            && LineStep(st, CleanLine(line)) == Ok(st.(specs := st.specs + [BucketSpec(m, i)]))
  {
    hide SampleLine, LineStep, CleanLine, BoundLabel, JoinLabels, Digits, PrintNum, Numeral;
    SuffixName(m.name, "_bucket");
    BoundLabelSafe(m.bounds[i]);
    JoinLabelsSafe(m.labels, BoundLabel(PrintNum(m.bounds[i])));
    NumeralNat(BucketCount(m, i));
    GaugeLineStep(st, m.name + "_bucket", JoinLabels(m.labels, BoundLabel(PrintNum(m.bounds[i]))),
                  Digits(BucketCount(m, i)), Finite(BucketCount(m, i) as real));
  }

  lemma {:induction false} BucketLinesPass(st: PassState, m: Metric, n: nat)
    requires m.AHistogram? && Exportable(m) && n <= |m.bounds|
    requires Unannotated(st, m.name + "_bucket")
    ensures NewlineFree(BucketLines(m, n))
    ensures Pass(st, BucketLines(m, n)) == Ok(st.(specs := st.specs + BucketSpecs(m, n)))
  {
    hide BucketLine, BucketSpec, LineStep, CleanLine, Exportable;
    if n == 0 {
      assert st.specs + [] == st.specs;
    } else {
      BucketLinesPass(st, m, n - 1);
      var mid := st.(specs := st.specs + BucketSpecs(m, n - 1));
      BucketLineStep(mid, m, n - 1);
      PassSnoc(st, BucketLines(m, n - 1), BucketLine(m, n - 1), mid,
               mid.(specs := mid.specs + [BucketSpec(m, n - 1)]));
      assert st.specs + BucketSpecs(m, n) == mid.specs + [BucketSpec(m, n - 1)];
    }
  }

  lemma ClosingLineSteps(st: PassState, m: Metric)
    requires m.AHistogram? && Exportable(m)
    ensures All(InfLine(m), NotNewline) && All(SumLine(m), NotNewline) && All(CountLine(m), NotNewline)
    ensures Unannotated(st, m.name + "_bucket") ==>
              LineStep(st, CleanLine(InfLine(m))) == Ok(st.(specs := st.specs + [InfSpec(m)]))
    ensures Unannotated(st, m.name + "_sum") ==>
              LineStep(st, CleanLine(SumLine(m))) == Ok(st.(specs := st.specs + [SumSpec(m)]))
    ensures Unannotated(st, m.name + "_count") ==>
              LineStep(st, CleanLine(CountLine(m))) == Ok(st.(specs := st.specs + [CountSpec(m)]))
  {
    hide SampleLine, LineStep, CleanLine, JoinLabels, Digits, PrintNum, Numeral;
    SuffixName(m.name, "_bucket");
    SuffixName(m.name, "_sum");
    SuffixName(m.name, "_count");
    JoinLabelsSafe(m.labels, INF_LABEL);
    NumeralNat(m.count);
    NumeralNum(Finite(m.sum));
    ClosingLineStep(st, m.name + "_bucket", JoinLabels(m.labels, INF_LABEL), Digits(m.count), Finite(m.count as real));
    ClosingLineStep(st, m.name + "_sum", m.labels, PrintNum(Finite(m.sum)), Round6(Finite(m.sum)));
    ClosingLineStep(st, m.name + "_count", m.labels, Digits(m.count), Finite(m.count as real));
  }

  lemma ClosingLineStep(st: PassState, name: string, labels: string, v: string, x: Num)
    requires name != "" && All(name, IsNameChar) && All(labels, NotCloseBrace) && All(labels, NotNewline)
    requires Numeral(v, x)
    ensures All(SampleLine(name, labels, v), NotNewline)
    ensures Unannotated(st, name) ==>
              LineStep(st, CleanLine(SampleLine(name, labels, v))) == Ok(st.(specs := st.specs + [GaugeSpec(name, labels, x)]))
  {
    hide SampleLine, LineStep, CleanLine, Numeral;
    SampleLineStep(st, name, labels, v, x);
    if Unannotated(st, name) { GaugeLineStep(st, name, labels, v, x); }
  }

  /** The series a histogram is flattened into have no comments of their own yet. */
  predicate Unflattened(st: PassState, m: Metric) {
    Unannotated(st, m.name + "_bucket") && Unannotated(st, m.name + "_sum") && Unannotated(st, m.name + "_count")
  }

  /** The sample lines of a histogram and their specifications, piece by piece. */
  lemma ClosingParts(before: seq<MetricSpec>, m: Metric)
    requires m.AHistogram?
    ensures SampleLines(m) == BucketLines(m, |m.bounds|) + [InfLine(m)] + [SumLine(m)] + [CountLine(m)]
    ensures before + SpecsOf(m) == before + BucketSpecs(m, |m.bounds|) + [InfSpec(m)] + [SumSpec(m)] + [CountSpec(m)]
  {
    hide BucketLines, BucketSpecs, InfLine, SumLine, CountLine, InfSpec, SumSpec, CountSpec;
  }

  lemma HistogramSamplesPass(st: PassState, m: Metric)
    requires m.AHistogram? && Exportable(m) && Unflattened(st, m)
    ensures NewlineFree(SampleLines(m))
    ensures Pass(st, SampleLines(m)) == Ok(st.(specs := st.specs + SpecsOf(m)))
  {
    hide Pass, LineStep, CleanLine, InfLine, SumLine, CountLine, InfSpec, SumSpec, CountSpec, Exportable, SpecsOf, SampleLines;
    var n := |m.bounds|;
    BucketLinesPass(st, m, n);
    var s1 := st.(specs := st.specs + BucketSpecs(m, n));
    var s2 := s1.(specs := s1.specs + [InfSpec(m)]);
    var s3 := s2.(specs := s2.specs + [SumSpec(m)]);
    var s4 := s3.(specs := s3.specs + [CountSpec(m)]);
    ClosingLineSteps(s1, m);
    ClosingLineSteps(s2, m);
    ClosingLineSteps(s3, m);
    var l1 := BucketLines(m, n);
    PassSnoc(st, l1, InfLine(m), s1, s2);
    PassSnoc(st, l1 + [InfLine(m)], SumLine(m), s2, s3);
    PassSnoc(st, l1 + [InfLine(m)] + [SumLine(m)], CountLine(m), s3, s4);
    ClosingParts(st.specs, m);
  }

  lemma ScalarSamplesPass(st: PassState, m: Metric)
    requires !m.AHistogram? && Exportable(m)
    requires m.name in st.types && st.types[m.name] == TypeName(TypeOf(m))
    requires if m.help == "" then m.name !in st.helps else m.name in st.helps && st.helps[m.name] == m.help
    ensures NewlineFree(SampleLines(m))
    ensures Pass(st, SampleLines(m)) == Ok(st.(specs := st.specs + SpecsOf(m)))
  {
    hide SampleLine, LineStep, CleanLine, PrintNum, Numeral;
    NumeralNum(m.value);
    SampleLineStep(st, m.name, m.labels, PrintNum(m.value), Round6(m.value));
    ParseTypeName(TypeOf(m));
    var line := SampleLine(m.name, m.labels, PrintNum(m.value));
    assert Pass(st, []) == Ok(st);
    PassSnoc(st, [], line, st, st.(specs := st.specs + [ScalarSpec(m)]));
    assert [] + [line] == SampleLines(m);
  }

  /** The comments a metric leaves behind. */
  function Annotated(st: PassState, m: Metric): PassState {
    st.(helps := if m.help == "" then st.helps else st.helps[m.name := m.help],
        types := st.types[m.name := TypeName(TypeOf(m))])
  }

  lemma MetaLinesPass(st: PassState, m: Metric)
    requires Exportable(m)
    ensures NewlineFree(MetaLines(m))
    ensures Pass(st, MetaLines(m)) == Ok(Annotated(st, m))
  {
    hide HelpLine, TypeLine, LineStep, CleanLine;
    var lines: seq<string> := [];
    var mid := st;
    assert Pass(st, lines) == Ok(mid);
    if m.help != "" {
      HelpLineStep(st, m.name, m.help);
      mid := st.(helps := st.helps[m.name := m.help]);
      PassSnoc(st, lines, HelpLine(m.name, m.help), st, mid);
      lines := lines + [HelpLine(m.name, m.help)];
    }
    TypeLineStep(mid, m.name, TypeOf(m));
    PassSnoc(st, lines, TypeLine(m.name, TypeName(TypeOf(m))), mid, Annotated(st, m));
    assert lines + [TypeLine(m.name, TypeName(TypeOf(m)))] == MetaLines(m);
  }

  /** Reading one rendered metric, in a state that has not met its name or its derived series. */
  lemma MetricPass(st: PassState, m: Metric)
    requires Exportable(m) && Unannotated(st, m.name)
    requires m.AHistogram? ==> Unflattened(st, m)
    ensures NewlineFree(MetricLines(m, true))
    ensures Pass(st, MetricLines(m, true)) == Ok(Annotated(st, m).(specs := st.specs + SpecsOf(m)))
  {
    hide Pass, SpecsOf, SampleLines, MetaLines, Exportable;
    MetaLinesPass(st, m);
    var mid := Annotated(st, m);
    if m.AHistogram? {
      NameIsNotDerived(m.name);
      HistogramSamplesPass(mid, m);
    } else {
      ScalarSamplesPass(mid, m);
    }
    PassAppend(st, MetaLines(m), SampleLines(m), mid);
  }

  lemma NameIsNotDerived(name: string)
    ensures name != name + "_bucket" && name != name + "_sum" && name != name + "_count"
  {
    assert |name + "_bucket"| > |name| && |name + "_sum"| > |name| && |name + "_count"| > |name|;
  }
}
