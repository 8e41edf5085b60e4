/**
 What a reader of `/metrics` sees, in terms of the samples a histogram was given and of the registry's metrics.
 */
module ServedText {
  import opened Numbers
  import opened NumberText
  import opened Metrics
  import opened Exposition

  // ---------------------------------------------------------------- histograms

  lemma NumLeqTrans(a: Num, b: Num, c: Num)
    ensures NumLeq(a, b) && NumLeq(b, c) ==> NumLeq(a, c)
  {
  }

  lemma {:induction false} AtMostMono(samples: seq<Num>, a: Num, b: Num)
    requires NumLeq(a, b)
    ensures AtMost(samples, a) <= AtMost(samples, b)
  {
    hide NumLeq;
    if samples != [] {
      AtMostMono(samples[..|samples| - 1], a, b);
      NumLeqTrans(samples[|samples| - 1], a, b);
    }
  }

  lemma LessIsLeq(a: Num, b: Num)
    ensures NumLess(a, b) ==> NumLeq(a, b)
    ensures a != NaN ==> NumLeq(a, PosInf)
  {
  }

  /** The labels of a bucket sample: those of the metric, then the bound. */
  function BucketLabels(labels: string, bound: string): string {
    (if labels == "" then "" else labels + ",") + ("le=\"" + bound + "\"")
  }

  function Labelled(labels: string): string { if labels == "" then "" else "{" + labels + "}" }

  lemma {:induction false} BucketLineAt(m: Metric, n: nat, i: nat)
    requires m.AHistogram? && i < n <= |m.bounds| == |m.counts|
    ensures BucketLines(m, n)[i]
            == SampleLine(m.name + "_bucket", JoinLabels(m.labels, BoundLabel(PrintNum(m.bounds[i]))), Digits(m.counts[i]))
  {
    hide SampleLine, JoinLabels, BoundLabel, PrintNum, Digits;
    if i < n - 1 { BucketLineAt(m, n - 1, i); }
  }

  lemma BucketText(name: string, labels: string, bound: string, count: string)
    ensures SampleLine(name + "_bucket", JoinLabels(labels, "le=\"" + bound + "\""), count)
            == name + "_bucket{" + BucketLabels(labels, bound) + "} " + count
  {
    var le := "le=\"" + bound + "\"";
    var joined := JoinLabels(labels, le);
    assert |le| > 0;
    assert joined == BucketLabels(labels, bound) by {
      if labels == "" { assert "" + le == le; } else { assert labels + "," + le == (labels + ",") + le; }
    }
    BracesJoin(name, joined, count);
  }

  lemma BracesJoin(name: string, joined: string, count: string)
    requires joined != ""
    ensures SampleLine(name + "_bucket", joined, count) == name + "_bucket{" + joined + "} " + count
  {
    assert (name + "_bucket") + ("{" + joined + "}") + " " + count == name + "_bucket{" + joined + "} " + count;
  }

  lemma SumText(name: string, suffix: string, labels: string, value: string)
    ensures SampleLine(name + suffix, labels, value) == name + suffix + Labelled(labels) + " " + value
  {
  }

  /**
   The samples of a histogram as served: one line a bound with the number of finite samples not above it, then the
   number, the sum and again the number of all finite samples.
   */
  lemma {:induction false} BucketsServed(name: string, help: string, labels: string, bounds: seq<Num>, samples: seq<Num>)
    ensures var m := ObserveAll(EmptyHistogram(name, help, labels, bounds), samples);
            var bs := NormalizedBounds(bounds);
            var lines := SampleLines(m);
            && |lines| == |bs| + 3
            && (forall i :: 0 <= i < |bs| ==>
                  lines[i] == name + "_bucket{" + BucketLabels(labels, PrintNum(bs[i])) + "} " + Digits(AtMost(samples, bs[i])))
            && lines[|bs|] == name + "_bucket{" + BucketLabels(labels, "+Inf") + "} " + Digits(AtMost(samples, PosInf))
            && lines[|bs| + 1] == name + "_sum" + Labelled(labels) + " " + PrintNum(Finite(SumFinite(samples)))
            && lines[|bs| + 2] == name + "_count" + Labelled(labels) + " " + Digits(AtMost(samples, PosInf))
  {
    hide SampleLine, JoinLabels, PrintNum, Digits, BucketLabels, Labelled, AtMost, SumFinite, NormalizedBounds, ObserveAll;
    var start := EmptyHistogram(name, help, labels, bounds);
    var m := ObserveAll(start, samples);
    var bs := NormalizedBounds(bounds);
    HistogramStatistics(start, bounds, samples);
    ObservedTexts(start, samples);
    forall i | 0 <= i < |bs|
      ensures SampleLines(m)[i] == name + "_bucket{" + BucketLabels(labels, PrintNum(bs[i])) + "} " + Digits(AtMost(samples, bs[i]))
    {
      BucketLineAt(m, |bs|, i);
      BucketText(name, labels, PrintNum(bs[i]), Digits(AtMost(samples, bs[i])));
    }
    BucketText(name, labels, "+Inf", Digits(AtMost(samples, PosInf)));
    assert INF_LABEL == "le=\"" + "+Inf" + "\"";
    SumText(name, "_sum", labels, PrintNum(Finite(SumFinite(samples))));
    SumText(name, "_count", labels, Digits(AtMost(samples, PosInf)));
  }

  /** The numbers on the bucket lines never decrease, and none exceeds the one on the `+Inf` line. */
  lemma {:induction false} ServedCountsGrow(bounds: seq<Num>, samples: seq<Num>, i: nat, j: nat)
    requires Comparable(bounds) && i <= j < |NormalizedBounds(bounds)|
    ensures var bs := NormalizedBounds(bounds);
            AtMost(samples, bs[i]) <= AtMost(samples, bs[j]) <= AtMost(samples, PosInf)
  {
    var bs := NormalizedBounds(bounds);
    BoundsNormalized(bounds);
    assert bs[j] in bs && bs[j] in bounds;
    LessIsLeq(bs[i], bs[j]);
    LessIsLeq(bs[j], PosInf);
    if i < j { AtMostMono(samples, bs[i], bs[j]); }
    AtMostMono(samples, bs[j], PosInf);
  }

  // ---------------------------------------------------------------- the whole text

  /** The lines of the `i`-th metric stand together in the text. */
  lemma {:induction false} MetricServed(ms: seq<Metric>, n: nat, i: nat, metadata: bool)
    requires i < n <= |ms|
    ensures exists before: seq<string>, after: seq<string> ::
              LinesUpTo(ms, n, metadata) == before + MetricLines(ms[i], metadata) + after
              && before == LinesUpTo(ms, i, metadata)
  {
    hide MetricLines;
    var before := LinesUpTo(ms, i, metadata);
    if i == n - 1 {
      var none: seq<string> := [];
      assert LinesUpTo(ms, n, metadata) == before + MetricLines(ms[i], metadata) + none;
    } else {
      MetricServed(ms, n - 1, i, metadata);
      var b: seq<string>, after: seq<string> :|
        LinesUpTo(ms, n - 1, metadata) == b + MetricLines(ms[i], metadata) + after && b == before;
      var more := after + MetricLines(ms[n - 1], metadata);
      assert LinesUpTo(ms, n, metadata) == before + MetricLines(ms[i], metadata) + more;
    }
  }

  /** The lines that are no comments. */
  function SamplesOnly(lines: seq<string>): seq<string> {
    if lines == [] then []
    else
      var init := SamplesOnly(lines[..|lines| - 1]);
      var last := lines[|lines| - 1];
      if last != "" && last[0] == '#' then init else init + [last]
  }

  lemma {:induction false} SamplesOnlyAppend(a: seq<string>, b: seq<string>)
    ensures SamplesOnly(a + b) == SamplesOnly(a) + SamplesOnly(b)
  {
    if b == [] {
      assert a + b == a;
    } else {
      SamplesOnlyAppend(a, b[..|b| - 1]);
      assert (a + b)[..|a + b| - 1] == a + b[..|b| - 1];
    }
  }

  lemma {:induction false} AllSamples(lines: seq<string>)
    requires forall i :: 0 <= i < |lines| ==> lines[i] != "" && lines[i][0] != '#'
    ensures SamplesOnly(lines) == lines
  {
    if lines != [] { AllSamples(lines[..|lines| - 1]); }
  }

  lemma SampleStarts(name: string, labels: string, value: string)
    requires name != ""
    ensures SampleLine(name, labels, value) != "" && SampleLine(name, labels, value)[0] == name[0]
  {
  }

  lemma SuffixStarts(name: string, suffix: string)
    requires name != ""
    ensures name + suffix != "" && (name + suffix)[0] == name[0]
  {
  }

  lemma {:induction false} BucketsStart(m: Metric, n: nat)
    requires m.AHistogram? && n <= |m.bounds| && m.name != ""
    ensures forall i :: 0 <= i < n ==> BucketLines(m, n)[i] != "" && BucketLines(m, n)[i][0] == m.name[0]
  {
    hide SampleLine;
    if n > 0 {
      BucketsStart(m, n - 1);
      SuffixStarts(m.name, "_bucket");
      SampleStarts(m.name + "_bucket", JoinLabels(m.labels, BoundLabel(PrintNum(m.bounds[n - 1]))), Digits(BucketCount(m, n - 1)));
    }
  }

  lemma SamplesStart(m: Metric)
    requires m.name != ""
    ensures forall i :: 0 <= i < |SampleLines(m)| ==> SampleLines(m)[i] != "" && SampleLines(m)[i][0] == m.name[0]
  {
    hide SampleLine, JoinLabels;
    if m.AHistogram? {
      BucketsStart(m, |m.bounds|);
      SuffixStarts(m.name, "_bucket");
      SuffixStarts(m.name, "_sum");
      SuffixStarts(m.name, "_count");
      SampleStarts(m.name + "_bucket", JoinLabels(m.labels, INF_LABEL), Digits(m.count));
      SampleStarts(m.name + "_sum", m.labels, PrintNum(Finite(m.sum)));
      SampleStarts(m.name + "_count", m.labels, Digits(m.count));
    } else {
      SampleStarts(m.name, m.labels, PrintNum(m.value));
    }
  }

  lemma MetaAreComments(m: Metric)
    ensures SamplesOnly(MetaLines(m)) == []
  {
    var lines := MetaLines(m);
    assert forall i :: 0 <= i < |lines| ==> lines[i] != "" && lines[i][0] == '#';
    AllComments(lines);
  }

  lemma {:induction false} AllComments(lines: seq<string>)
    requires forall i :: 0 <= i < |lines| ==> lines[i] != "" && lines[i][0] == '#'
    ensures SamplesOnly(lines) == []
  {
    if lines != [] { AllComments(lines[..|lines| - 1]); }
  }

  /** Without metadata the text is the same text without its comment lines. */
  lemma {:induction false} WithoutMetadata(ms: seq<Metric>, n: nat)
    requires n <= |ms| && forall i :: 0 <= i < |ms| ==> ms[i].name != "" && ms[i].name[0] != '#'
    ensures LinesUpTo(ms, n, false) == SamplesOnly(LinesUpTo(ms, n, true))
  {
    hide SampleLines, MetaLines;
    if n > 0 {
      var m := ms[n - 1];
      WithoutMetadata(ms, n - 1);
      SamplesOnlyAppend(LinesUpTo(ms, n - 1, true), MetricLines(m, true));
      SamplesOnlyAppend(MetaLines(m), SampleLines(m));
      MetaAreComments(m);
      SamplesStart(m);
      AllSamples(SampleLines(m));
      assert [] + SampleLines(m) == SampleLines(m);
    }
  }
}
