/**
 Reading Prometheus text back: one pass over the lines that remembers HELP and TYPE comments and
 turns every sample line into a metric specification, then a merge into the registry.
 */
module PrometheusText {
  import opened Text
  import opened Numbers
  import opened NumberText
  import opened Metrics
  import opened Registry

  // ---------------------------------------------------------------- sample lines

  datatype Sample = Sample(name: string, labels: string, value: Num)

  /** The label set after the name, and what follows it. */
  function LabelPart(r: string): Result<(string, string)> {
    if r == [] || r[0] != '{' then Ok(("", r))
    else if Rest(r[1..], NotCloseBrace) == [] then Err("unclosed label set")
    else Ok((Take(r[1..], NotCloseBrace), Rest(r[1..], NotCloseBrace)[1..]))
  }

  function ValuePart(r: string): Result<Num> {
    var v := DropSpace(r);
    if v == [] then Err("missing sample value")
    else
      match ParseNum(Take(v, NotSpace))
      case None => Err("invalid sample value")
      case Some(x) => Ok(x)
  }

  function ParseSample(line: string): Result<Sample> {
    var name := Take(line, IsNameChar);
    if name == [] then Err("missing metric name")
    else
      match LabelPart(Rest(line, IsNameChar))
      case Err(e) => Err(e)
      case Ok((labels, r)) =>
        match ValuePart(r)
        case Err(e) => Err(e)
        case Ok(x) => Ok(Sample(name, labels, x))
  }

  // ---------------------------------------------------------------- the line pass

  datatype PassState = PassState(types: map<string, string>, helps: map<string, string>, specs: seq<MetricSpec>)

  const START := PassState(map[], map[], [])

  const HELP_PREFIX: string := "# HELP "
  const TYPE_PREFIX: string := "# TYPE "

  function DropReturn(raw: string): string {
    if raw != [] && raw[|raw| - 1] == '\r' then raw[..|raw| - 1] else raw
  }

  function CleanLine(raw: string): string { Trim(DropReturn(raw)) }

  lemma CleanLineSlice(raw: string) returns (lo: nat, hi: nat)
    ensures lo <= hi <= |raw| && CleanLine(raw) == raw[lo..hi]
  {
    var d := DropReturn(raw);
    lo, hi :| lo <= hi <= |d| && Trim(d) == d[lo..hi];
    assert d == raw[..|d|];
  }

  lemma CleanNewlineFree(raw: string)
    requires All(raw, NotNewline)
    ensures All(CleanLine(raw), NotNewline)
  {
    var lo, hi := CleanLineSlice(raw);
  }

  /** The specification a sample becomes, given the comments seen so far. */
  function SpecFor(st: PassState, s: Sample): MetricSpec {
    var typ := if s.name in st.types then st.types[s.name] else "gauge";
    MetricSpec(s.name,
               if ParseMetricType(typ) == Unknown then "gauge" else typ,
               if s.name in st.helps then st.helps[s.name] else "",
               s.value, s.labels, [])
  }

  function HelpStep(st: PassState, comment: string): PassState {
    var rest := Trim(comment);
    if Rest(rest, NotBlank) == [] then st
    else st.(helps := st.helps[Take(rest, NotBlank) := Trim(Rest(rest, NotBlank)[1..])])
  }

  function TypeStep(st: PassState, comment: string): PassState {
    var rest := Trim(comment);
    if Word(rest) == "" || Word(AfterWord(rest)) == "" then st
    else st.(types := st.types[Word(rest) := Word(AfterWord(rest))])
  }

  function SampleStep(st: PassState, line: string): Result<PassState> {
    match ParseSample(line)
    case Err(e) => Err(e)
    case Ok(s) => Ok(st.(specs := st.specs + [SpecFor(st, s)]))
  }

  /** A trimmed line. */
  function LineStep(st: PassState, line: string): Result<PassState> {
    if line == [] then Ok(st)
    else if StartsWith(line, HELP_PREFIX) then Ok(HelpStep(st, line[7..]))
    else if StartsWith(line, TYPE_PREFIX) then Ok(TypeStep(st, line[7..]))
    else if line[0] == '#' then Ok(st)
    else SampleStep(st, line)
  }

  function Pass(st: PassState, lines: seq<string>): Result<PassState>
    decreases |lines|
  {
    if lines == [] then Ok(st)
    else
      match LineStep(st, CleanLine(lines[0]))
      case Err(e) => Err(e)
      case Ok(st') => Pass(st', lines[1..])
  }

  function ParseText(text: string): Result<seq<MetricSpec>> {
    match Pass(START, Lines(text))
    case Err(e) => Err(e)
    case Ok(st) => Ok(st.specs)
  }

  /** Passing over a concatenation is passing over its parts in turn. */
  lemma {:induction false} PassAppend(st: PassState, a: seq<string>, b: seq<string>, mid: PassState)
    requires Pass(st, a) == Ok(mid)
    ensures Pass(st, a + b) == Pass(mid, b)
    decreases |a|
  {
    hide LineStep, CleanLine;
    if a == [] {
      assert a + b == b;
    } else {
      var next := LineStep(st, CleanLine(a[0])).value;
      PassAppend(next, a[1..], b, mid);
      assert (a + b)[1..] == a[1..] + b;
    }
  }

  // ---------------------------------------------------------------- what a pass can produce

  /** Specifications produced by the pass can always be built, and carry no bucket bounds. */
  ghost predicate Buildable(spec: MetricSpec) {
    Accepts(spec) && spec.buckets == []
  }

  ghost predicate AllBuildable(specs: seq<MetricSpec>) {
    forall i :: 0 <= i < |specs| ==> Buildable(specs[i])
  }

  lemma GaugeIsKnown()
    ensures ParseMetricType("gauge") == Gauge
  {
    ParseTypeName(Gauge);
  }

  lemma SpecForBuildable(st: PassState, s: Sample)
    requires s.name != ""
    ensures Buildable(SpecFor(st, s))
  {
    GaugeIsKnown();
  }

  lemma LineStepBuildable(st: PassState, line: string)
    requires AllBuildable(st.specs)
    ensures LineStep(st, line).Ok? ==> AllBuildable(LineStep(st, line).value.specs)
  {
    if ParseSample(line).Ok? { SpecForBuildable(st, ParseSample(line).value); }
  }

  lemma {:induction false} PassBuildable(st: PassState, lines: seq<string>)
    requires AllBuildable(st.specs)
    ensures Pass(st, lines).Ok? ==> AllBuildable(Pass(st, lines).value.specs)
    decreases |lines|
  {
    hide LineStep, CleanLine;
    if lines != [] {
      LineStepBuildable(st, CleanLine(lines[0]));
      var r := LineStep(st, CleanLine(lines[0]));
      if r.Ok? { PassBuildable(r.value, lines[1..]); }
    }
  }

  /** A trimmed line that must hold a sample. */
  predicate IsDataLine(raw: string) {
    CleanLine(raw) != [] && CleanLine(raw)[0] != '#'
  }

  function DataLines(lines: seq<string>): nat {
    if lines == [] then 0 else (if IsDataLine(lines[0]) then 1 else 0) + DataLines(lines[1..])
  }

  lemma CommentFirst(line: string)
    requires StartsWith(line, HELP_PREFIX) || StartsWith(line, TYPE_PREFIX)
    ensures |line| >= 7 && line[0] == '#'
  {
    assert HELP_PREFIX[0] == '#' && TYPE_PREFIX[0] == '#';
  }

  lemma CommentsAddNoSample(st: PassState, comment: string)
    ensures HelpStep(st, comment).specs == TypeStep(st, comment).specs == st.specs
  {
  }

  lemma LineStepCounts(st: PassState, line: string)
    requires LineStep(st, line).Ok?
    ensures |LineStep(st, line).value.specs| == |st.specs| + (if line != [] && line[0] != '#' then 1 else 0)
  {
    hide ParseSample, SpecFor, HelpStep, TypeStep, StartsWith;
    if StartsWith(line, HELP_PREFIX) || StartsWith(line, TYPE_PREFIX) {
      CommentFirst(line);
      CommentsAddNoSample(st, line[7..]);
    }
  }

  lemma LineStepError(st: PassState, line: string)
    requires LineStep(st, line).Err?
    ensures LineStep(st, line).error != ""
  {
  }

  /** A successful pass yields exactly one specification per data line. */
  lemma {:induction false} PassCounts(st: PassState, lines: seq<string>)
    requires Pass(st, lines).Ok?
    ensures |Pass(st, lines).value.specs| == |st.specs| + DataLines(lines)
    decreases |lines|
  {
    hide LineStep, CleanLine;
    if lines != [] {
      LineStepCounts(st, CleanLine(lines[0]));
      PassCounts(LineStep(st, CleanLine(lines[0])).value, lines[1..]);
    }
  }

  lemma {:induction false} PassError(st: PassState, lines: seq<string>)
    requires Pass(st, lines).Err?
    ensures Pass(st, lines).error != ""
    decreases |lines|
  {
    hide LineStep, CleanLine;
    if lines != [] {
      var r := LineStep(st, CleanLine(lines[0]));
      if r.Ok? { PassError(r.value, lines[1..]); } else { LineStepError(st, CleanLine(lines[0])); }
    }
  }

  // ---------------------------------------------------------------- the parser

  method ParseSampleLine(line: string) returns (r: Result<Sample>)
    ensures r == ParseSample(line)
  {
    hide ParseNum;
    var pos := 0;
    while pos < |line| && IsNameChar(line[pos])
      invariant 0 <= pos <= |line|
      invariant forall i :: 0 <= i < pos ==> IsNameChar(line[i])
    {
      pos := pos + 1;
    }
    SpanIs(line, IsNameChar, pos);
    if pos == 0 {
      return Err("missing metric name");
    }
    var name := line[..pos];
    var labels := "";
    assert line[pos..] == Rest(line, IsNameChar);
    if pos < |line| && line[pos] == '{' {
      var end := Span(line[pos + 1..], NotCloseBrace);
      assert line[pos..][1..] == line[pos + 1..];
      if pos + 1 + end == |line| {
        return Err("unclosed label set");
      }
      labels := line[pos + 1..pos + 1 + end];
      assert labels == Take(line[pos..][1..], NotCloseBrace);
      pos := pos + 1 + end + 1;
    }
    assert LabelPart(Rest(line, IsNameChar)) == Ok((labels, line[pos..]));
    r := ParseValueAt(line, pos);
    if r.Ok? {
      r := Ok(Sample(name, labels, r.value.value));
    }
  }

  /** The second half of the sample parser: skip blanks, take a token, convert it. */
  method ParseValueAt(line: string, start: nat) returns (r: Result<Sample>)
    requires start <= |line|
    ensures match ValuePart(line[start..])
            case Err(e) => r == Err(e)
            case Ok(x) => r == Ok(Sample("", "", x))
  {
    hide ParseNum, Span;
    var pos := start;
    while pos < |line| && IsSpace(line[pos])
      invariant start <= pos <= |line|
      invariant forall i :: start <= i < pos ==> IsSpace(line[i])
    {
      pos := pos + 1;
    }
    SpanIs(line[start..], IsSpace, pos - start);
    assert line[pos..] == DropSpace(line[start..]);
    if pos >= |line| {
      return Err("missing sample value");
    }
    var valueEnd := pos;
    while valueEnd < |line| && !IsSpace(line[valueEnd])
      invariant pos <= valueEnd <= |line|
      invariant forall i :: pos <= i < valueEnd ==> !IsSpace(line[i])
    {
      valueEnd := valueEnd + 1;
    }
    SpanIs(line[pos..], NotSpace, valueEnd - pos);
    assert line[pos..valueEnd] == Take(line[pos..], NotSpace);
    match ParseNum(line[pos..valueEnd])
    case None => r := Err("invalid sample value");
    case Some(x) => r := Ok(Sample("", "", x));
  }

  /** One non-blank line of the loop: a HELP or TYPE comment, another comment, or a sample. */
  method ProcessLine(st: PassState, line: string) returns (r: Result<PassState>)
    requires line != []
    ensures r == LineStep(st, line)
  {
    hide ParseSample;
    if StartsWith(line, HELP_PREFIX) {
      var rest := Trim(line[7..]);
      var sp := Span(rest, NotBlank);
      if sp == |rest| {
        return Ok(st);
      }
      assert rest[sp..][1..] == rest[sp + 1..];
      return Ok(st.(helps := st.helps[rest[..sp] := Trim(rest[sp + 1..])]));
    }
    if StartsWith(line, TYPE_PREFIX) {
      var rest := Trim(line[7..]);
      var name := Word(rest);
      var typ := Word(AfterWord(rest));
      if name != "" && typ != "" {
        return Ok(st.(types := st.types[name := typ]));
      }
      return Ok(st);
    }
    if line[0] == '#' {
      return Ok(st);
    }
    var sample := ParseSampleLine(line);
    if sample.Err? {
      return Err(sample.error);
    }
    var s := sample.value;
    var spec := MetricSpec(s.name, if s.name in st.types then st.types[s.name] else "gauge", "", s.value, s.labels, []);
    if ParseMetricType(spec.typ) == Unknown {
      spec := spec.(typ := "gauge");
    }
    if s.name in st.helps {
      spec := spec.(help := st.helps[s.name]);
    }
    r := Ok(st.(specs := st.specs + [spec]));
  }

  method ParsePrometheusText(text: string) returns (r: Result<seq<MetricSpec>>)
    ensures r == ParseText(text)
  {
    hide LineStep, CleanLine;
    var st := START;
    var rest := text;
    while rest != []
      invariant Pass(START, Lines(text)) == Pass(st, Lines(rest))
      decreases |rest|
    {
      var line := CleanLine(FirstLine(rest));
      assert Lines(rest)[0] == FirstLine(rest) && Lines(rest)[1..] == Lines(AfterLine(rest));
      rest := AfterLine(rest);
      if line == [] {
        BlankStep(st);
        continue;
      }
      var next := ProcessLine(st, line);
      if next.Err? {
        return Err(next.error);
      }
      st := next.value;
    }
    r := Ok(st.specs);
  }

  lemma BlankStep(st: PassState)
    ensures LineStep(st, []) == Ok(st)
  {
  }

  // ---------------------------------------------------------------- the merge

  /** `mergePrometheusText`: all samples are upserted in order, or nothing happens at all. */
  method MergePrometheusText(registry: MetricRegistry, text: string) returns (merged: nat, error: string)
    requires registry.Valid()
    modifies registry
    ensures registry.Valid() && fresh(registry.Repr - old(registry.Repr))
    ensures match ParseText(text)
            case Err(e) => registry.Contents() == old(registry.Contents()) && merged == 0 && error == e != ""
            case Ok(specs) => registry.Contents() == UpsertAll(old(registry.Contents()), specs)
                              && merged == |specs| == DataLines(Lines(text)) && error == ""
  {
    hide Pass, Lines, MakeMetric, Upserted, DataLines;
    var r := ParsePrometheusText(text);
    if r.Err? {
      PassError(START, Lines(text));
      return 0, r.error;
    }
    var specs := r.value;
    PassBuildable(START, Lines(text));
    PassCounts(START, Lines(text));
    merged, error := 0, "";
    for i := 0 to |specs|
      invariant registry.Valid() && fresh(registry.Repr - old(registry.Repr))
      invariant registry.Contents() == UpsertAll(old(registry.Contents()), specs[..i])
      invariant merged == i
    {
      var ok := registry.Upsert(specs[i]);
      if ok {
        merged := merged + 1;
      }
      assert specs[..i + 1][..i] == specs[..i];
    }
    assert specs[..|specs|] == specs;
  }
}
