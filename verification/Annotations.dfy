/**
 Which type and help a scraped sample gets, read off the lines of the text alone: the last comments for its name
 that stand before it.
 */
module Annotations {
  import opened Text
  import opened Numbers
  import opened Metrics
  import opened Registry
  import opened Confluence
  import opened PrometheusText

  // ---------------------------------------------------------------- comments

  /** The name and the type of a `# TYPE` line. */
  function TypeComment(raw: string): Option<(string, string)> {
    var line := CleanLine(raw);
    if !StartsWith(line, "# TYPE ") then None
    else
      var name := Word(Trim(line[7..]));
      var typ := Word(AfterWord(Trim(line[7..])));
      if name == "" || typ == "" then None else Some((name, typ))
  }

  /** The name and the text of a `# HELP` line: the name ends at the first blank. */
  function HelpComment(raw: string): Option<(string, string)> {
    var line := CleanLine(raw);
    if !StartsWith(line, "# HELP ") then None
    else
      var text := Trim(line[7..]);
      if Rest(text, NotBlank) == "" then None
      else Some((Take(text, NotBlank), Trim(Rest(text, NotBlank)[1..])))
  }

  /** The type of the last `# TYPE` line for `name` among the first `n` lines. */
  function LastType(lines: seq<string>, n: nat, name: string): Option<string>
    requires n <= |lines|
  {
    if n == 0 then None
    else
      match TypeComment(lines[n - 1])
      case Some((k, typ)) => if k == name then Some(typ) else LastType(lines, n - 1, name)
      case None => LastType(lines, n - 1, name)
  }

  /** The text of the last `# HELP` line for `name` among the first `n` lines. */
  function LastHelp(lines: seq<string>, n: nat, name: string): Option<string>
    requires n <= |lines|
  {
    if n == 0 then None
    else
      match HelpComment(lines[n - 1])
      case Some((k, help)) => if k == name then Some(help) else LastHelp(lines, n - 1, name)
      case None => LastHelp(lines, n - 1, name)
  }

  /** A type word the registry knows. */
  predicate KnownWord(typ: string) { AnyCase(typ, "counter") || AnyCase(typ, "gauge") || AnyCase(typ, "histogram") }

  /** The type word of a sample on line `p`: that of the last comment, if it is known, and `gauge` otherwise. */
  function TypeAt(lines: seq<string>, p: nat, name: string): string
    requires p <= |lines|
  {
    match LastType(lines, p, name)
    case Some(typ) => if KnownWord(typ) then typ else "gauge"
    case None => "gauge"
  }

  function HelpAt(lines: seq<string>, p: nat, name: string): string
    requires p <= |lines|
  {
    match LastHelp(lines, p, name)
    case Some(help) => help
    case None => ""
  }

  // ---------------------------------------------------------------- the pass

  /** What the pass knows after `n` lines is what the comments among them say. */
  ghost predicate Knows(st: PassState, lines: seq<string>, n: nat)
    requires n <= |lines|
  {
    && (forall k :: (if k in st.types then Some(st.types[k]) else None) == LastType(lines, n, k))
    && (forall k :: (if k in st.helps then Some(st.helps[k]) else None) == LastHelp(lines, n, k))
  }

  lemma PrefixesApart(line: string)
    ensures !(StartsWith(line, "# TYPE ") && StartsWith(line, "# HELP "))
  {
    StartsWithAt(line, "# TYPE ", 2);
    StartsWithAt(line, "# HELP ", 2);
    assert "# TYPE "[2] == 'T' && "# HELP "[2] == 'H';
  }

  /** One line, comment or not. */
  lemma LineKnows(st: PassState, lines: seq<string>, n: nat)
    requires n < |lines| && Knows(st, lines, n)
    requires LineStep(st, CleanLine(lines[n])).Ok?
    ensures Knows(LineStep(st, CleanLine(lines[n])).value, lines, n + 1)
  {
    hide CleanLine, ParseSample, StartsWith, Trim, Take, Rest, Word, AfterWord, SpecFor;
    var line := CleanLine(lines[n]);
    var t := LineStep(st, line).value;
    PrefixesApart(line);
    if StartsWith(line, HELP_PREFIX) || StartsWith(line, TYPE_PREFIX) { CommentFirst(line); }
    forall k ensures (if k in t.types then Some(t.types[k]) else None) == LastType(lines, n + 1, k)
             ensures (if k in t.helps then Some(t.helps[k]) else None) == LastHelp(lines, n + 1, k)
    {
      assert (if k in st.types then Some(st.types[k]) else None) == LastType(lines, n, k);
      assert (if k in st.helps then Some(st.helps[k]) else None) == LastHelp(lines, n, k);
    }
  }

  /** The state of a successful pass after `n` lines. */
  lemma {:induction false} PassUpTo(lines: seq<string>, n: nat)
    requires Pass(START, lines).Ok? && n <= |lines|
    ensures Pass(START, lines[..n]).Ok?
    ensures Pass(Pass(START, lines[..n]).value, lines[n..]) == Pass(START, lines)
    ensures Knows(Pass(START, lines[..n]).value, lines, n)
    ensures |Pass(START, lines[..n]).value.specs| == DataLines(lines[..n])
  {
    hide LineStep, CleanLine, Knows, DataLines;
    if n == 0 {
      assert lines[..0] == [] && lines[0..] == lines;
      NothingKnown(lines);
      NoLines();
    } else {
      PassUpTo(lines, n - 1);
      var st := Pass(START, lines[..n - 1]).value;
      var rest := lines[n - 1..];
      assert rest[0] == lines[n - 1] && rest[1..] == lines[n..];
      var next := LineStep(st, CleanLine(lines[n - 1]));
      assert next.Ok? && Pass(next.value, lines[n..]) == Pass(START, lines);
      assert lines[..n] == lines[..n - 1] + [lines[n - 1]];
      PassAppend(START, lines[..n - 1], [lines[n - 1]], st);
      assert [lines[n - 1]][1..] == [];
      assert Pass(START, lines[..n]) == next;
      LineKnows(st, lines, n - 1);
      PassCounts(START, lines[..n]);
    }
  }

  lemma NothingKnown(lines: seq<string>)
    ensures Knows(START, lines, 0)
  {
  }

  lemma NoLines()
    ensures DataLines([]) == 0
  {
  }

  /** Specifications once made stay where they are. */
  lemma {:induction false} PassExtends(st: PassState, lines: seq<string>)
    ensures Pass(st, lines).Ok? ==> st.specs <= Pass(st, lines).value.specs
    decreases |lines|
  {
    hide CleanLine;
    if lines != [] {
      var next := LineStep(st, CleanLine(lines[0]));
      if next.Ok? {
        StepExtends(st, CleanLine(lines[0]));
        PassExtends(next.value, lines[1..]);
      }
    }
  }

  lemma StepExtends(st: PassState, line: string)
    ensures LineStep(st, line).Ok? ==> st.specs <= LineStep(st, line).value.specs
  {
    hide ParseSample, SpecFor, HelpStep, TypeStep, StartsWith;
    if StartsWith(line, HELP_PREFIX) || StartsWith(line, TYPE_PREFIX) {
      CommentFirst(line);
      CommentsAddNoSample(st, line[7..]);
    }
  }

  lemma DataLineIsSample(st: PassState, raw: string)
    requires IsDataLine(raw)
    ensures LineStep(st, CleanLine(raw)) == SampleStep(st, CleanLine(raw))
  {
    hide CleanLine, SampleStep, HelpStep, TypeStep, StartsWith;
    var line := CleanLine(raw);
    if StartsWith(line, HELP_PREFIX) || StartsWith(line, TYPE_PREFIX) { CommentFirst(line); }
  }

  /** The specification made for a sample in a state that knows the comments before it. */
  lemma SpecAt(st: PassState, lines: seq<string>, n: nat, s: Sample)
    requires n <= |lines| && Knows(st, lines, n)
    ensures SpecFor(st, s) == MetricSpec(s.name, TypeAt(lines, n, s.name), HelpAt(lines, n, s.name), s.value, s.labels, [])
  {
    hide ParseMetricType, LastType, LastHelp, AnyCase;
    assert (if s.name in st.types then Some(st.types[s.name]) else None) == LastType(lines, n, s.name);
    assert (if s.name in st.helps then Some(st.helps[s.name]) else None) == LastHelp(lines, n, s.name);
    if s.name in st.types { TypeWordIff(st.types[s.name]); }
    TypeWordIff("gauge");
    assert AnyCase("gauge", "gauge") by { SpellsItself(); }
  }

  lemma SpellsItself()
    ensures AnyCase("gauge", "gauge") && AnyCase("counter", "counter") && AnyCase("histogram", "histogram")
  {
  }

  /**
   In a text that parses, the sample on line `p` becomes the specification whose number is that of the data lines before
   it: with its own name, labels and value, and the type and help of the last comments before it.
   */
  lemma {:induction false} CommentsDecide(lines: seq<string>, p: nat)
    requires Pass(START, lines).Ok? && p < |lines| && IsDataLine(lines[p])
    ensures ParseSample(CleanLine(lines[p])).Ok?
    ensures var specs := Pass(START, lines).value.specs;
            var q := DataLines(lines[..p]);
            var s := ParseSample(CleanLine(lines[p])).value;
            && q < |specs| == DataLines(lines)
            && specs[q] == MetricSpec(s.name, TypeAt(lines, p, s.name), HelpAt(lines, p, s.name), s.value, s.labels, [])
  {
    hide CleanLine, ParseSample, Knows, IsDataLine, TypeAt, HelpAt, LineStep, DataLines;
    PassUpTo(lines, p);
    var st := Pass(START, lines[..p]).value;
    assert lines[p..][0] == lines[p] && lines[p..][1..] == lines[p + 1..];
    DataLineIsSample(st, lines[p]);
    var s := ParseSample(CleanLine(lines[p])).value;
    var next := LineStep(st, CleanLine(lines[p])).value;
    SpecAt(st, lines, p, s);
    assert next.specs == st.specs + [SpecFor(st, s)];
    PassExtends(next, lines[p + 1..]);
    PassCounts(START, lines);
    assert Pass(START, lines).value.specs[|st.specs|] == next.specs[|st.specs|];
  }

  // ---------------------------------------------------------------- the registry after a merge

  /** The metric a sample leaves behind. */
  function SampleMetric(typ: string, name: string, help: string, labels: string, value: Num): Metric {
    if AnyCase(typ, "counter") then ACounter(name, help, labels, if NumLess(value, Finite(0.0)) then Finite(0.0) else value)
    else if AnyCase(typ, "histogram") then EmptyHistogram(name, help, labels, DEFAULT_BOUNDS)
    else AGauge(name, help, labels, value)
  }

  /** No data line after `p` has the sample name `name`. */
  ghost predicate LastOf(lines: seq<string>, p: nat, name: string) {
    forall r :: p < r < |lines| && IsDataLine(lines[r]) && ParseSample(CleanLine(lines[r])).Ok?
                ==> ParseSample(CleanLine(lines[r])).value.name != name
  }

  lemma {:induction false} OnlyEarlier(specs: seq<MetricSpec>, n: nat, k: string)
    requires n <= |specs| && forall i :: n <= i < |specs| ==> specs[i].name != k
    ensures Only(specs, k) == Only(specs[..n], k)
    decreases |specs|
  {
    hide Accepts;
    if n == |specs| {
      assert specs[..n] == specs;
    } else {
      OnlyEarlier(specs[..|specs| - 1], n, k);
      assert specs[..|specs| - 1][..n] == specs[..n];
    }
  }

  /** Every specification comes from a data line. */
  lemma {:induction false} LineOfSpec(lines: seq<string>, i: nat) returns (p: nat)
    requires i < DataLines(lines)
    ensures p < |lines| && IsDataLine(lines[p]) && DataLines(lines[..p]) == i
  {
    hide IsDataLine;
    DataLinesSnoc(lines);
    var n := |lines| - 1;
    if IsDataLine(lines[n]) && i == DataLines(lines[..n]) {
      p := n;
    } else {
      p := LineOfSpec(lines[..n], i);
      assert lines[..n][..p] == lines[..p];
    }
  }

  lemma {:induction false} DataLinesAppend(a: seq<string>, b: seq<string>)
    ensures DataLines(a + b) == DataLines(a) + DataLines(b)
  {
    hide IsDataLine;
    if a == [] {
      assert a + b == b;
    } else {
      DataLinesAppend(a[1..], b);
      assert (a + b)[1..] == a[1..] + b;
    }
  }

  lemma DataLinesSnoc(lines: seq<string>)
    ensures lines == [] ==> DataLines(lines) == 0
    ensures lines != [] ==>
              DataLines(lines) == DataLines(lines[..|lines| - 1]) + (if IsDataLine(lines[|lines| - 1]) then 1 else 0)
  {
    hide IsDataLine;
    if lines != [] {
      var n := |lines| - 1;
      assert lines == lines[..n] + [lines[n]];
      DataLinesAppend(lines[..n], [lines[n]]);
      assert [lines[n]][1..] == [];
    }
  }

  /** Later data lines have larger numbers. */
  lemma DataLinesMono(lines: seq<string>, p: nat, r: nat)
    requires p <= r <= |lines|
    ensures DataLines(lines[..p]) <= DataLines(lines[..r])
  {
    assert lines[..r] == lines[..p] + lines[p..r];
    DataLinesAppend(lines[..p], lines[p..r]);
  }

  /**
   Merging a text that parses leaves, under the name of each last sample, the metric its last comments make of it; in
   particular a sample whose type is missing or unknown leaves a gauge.
   */
  lemma {:induction false} MergedSample(c: Contents, text: string, p: nat)
    requires ParseText(text).Ok? && p < |Lines(text)| && IsDataLine(Lines(text)[p])
    requires ParseSample(CleanLine(Lines(text)[p])).Ok? ==> LastOf(Lines(text), p, ParseSample(CleanLine(Lines(text)[p])).value.name)
    ensures ParseSample(CleanLine(Lines(text)[p])).Ok?
    ensures var s := ParseSample(CleanLine(Lines(text)[p])).value;
            Find(UpsertAll(c, ParseText(text).value), s.name)
            == Some(SampleMetric(TypeAt(Lines(text), p, s.name), s.name, HelpAt(Lines(text), p, s.name), s.labels, s.value))
  {
    hide Lines, Pass, CleanLine, ParseSample, IsDataLine, TypeAt, HelpAt, DataLines, UpsertAll, LastOf, MakeMetric;
    var lines := Lines(text);
    var specs := ParseText(text).value;
    CommentsDecide(lines, p);
    var s := ParseSample(CleanLine(lines[p])).value;
    var q := DataLines(lines[..p]);
    forall i | q < i < |specs| ensures specs[i].name != s.name { LaterSpec(lines, p, i, s.name); }
    OnlyEarlier(specs, q + 1, s.name);
    assert specs[..q + 1][..q] == specs[..q];
    UpsertsByName(c, specs, s.name);
    MadeKnown(s.name, TypeAt(lines, p, s.name), HelpAt(lines, p, s.name), s.value, s.labels) by { TypeAtKnown(lines, p, s.name); }
    PassBuildable(START, lines);
    assert Buildable(specs[q]);
  }

  lemma LaterSpec(lines: seq<string>, p: nat, i: nat, name: string)
    requires Pass(START, lines).Ok? && p < |lines| && LastOf(lines, p, name)
    requires DataLines(lines[..p]) < i < |Pass(START, lines).value.specs|
    ensures Pass(START, lines).value.specs[i].name != name
  {
    hide Pass, CleanLine, ParseSample, IsDataLine, DataLines, TypeAt, HelpAt;
    PassCounts(START, lines);
    var r := LineOfSpec(lines, i);
    if r <= p { DataLinesMono(lines, r, p); }
    CommentsDecide(lines, r);
  }

  lemma TypeAtKnown(lines: seq<string>, p: nat, name: string)
    requires p <= |lines|
    ensures KnownWord(TypeAt(lines, p, name))
  {
    hide AnyCase, LastType;
    SpellsItself();
  }

  lemma MadeKnown(name: string, typ: string, help: string, value: Num, labels: string)
    requires KnownWord(typ)
    ensures MakeMetric(MetricSpec(name, typ, help, value, labels, [])) == Some(SampleMetric(typ, name, help, labels, value))
  {
    hide AnyCase, EmptyHistogram, MakeMetric;
    MadeByType(name, typ, help, value, labels, []);
    TypeWordsApart(typ);
  }

  /** A sample whose comments name no known type is merged as a gauge. */
  lemma {:induction false} UnknownTypeIsGauge(c: Contents, text: string, p: nat)
    requires ParseText(text).Ok? && p < |Lines(text)| && IsDataLine(Lines(text)[p])
    requires ParseSample(CleanLine(Lines(text)[p])).Ok?
    requires var name := ParseSample(CleanLine(Lines(text)[p])).value.name;
             && LastOf(Lines(text), p, name)
             && (LastType(Lines(text), p, name).Some? ==> !KnownWord(LastType(Lines(text), p, name).value))
    ensures var s := ParseSample(CleanLine(Lines(text)[p])).value;
            Find(UpsertAll(c, ParseText(text).value), s.name)
            == Some(AGauge(s.name, HelpAt(Lines(text), p, s.name), s.labels, s.value))
  {
    hide Lines, Pass, CleanLine, ParseSample, IsDataLine, HelpAt, UpsertAll, LastOf, LastType, AnyCase, ParseText;
    MergedSample(c, text, p);
    TypeWordsApart("gauge");
    SpellsItself();
  }
}
