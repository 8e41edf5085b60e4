/**
 The push endpoint: a body with Prometheus markers is merged as a whole; any other body is taken line
 by line, each line either `name type value` or a single Prometheus sample.
 */
module Ingest {
  import opened Text
  import opened NumberText
  import opened Metrics
  import opened Registry
  import opened PrometheusText

  function ThirdWord(line: string): string { Word(AfterWord(AfterWord(line))) }

  function SecondWord(line: string): string { Word(AfterWord(line)) }

  predicate LooksLikeSimpleLine(line: string) {
    && Word(line) != "" && SecondWord(line) != "" && ThirdWord(line) != ""
    && ParseMetricType(SecondWord(line)) != Unknown
    && ParseNum(ThirdWord(line)).Some?
  }

  function SimpleSpec(line: string): MetricSpec
    requires LooksLikeSimpleLine(line)
  {
    MetricSpec(Word(line), SecondWord(line), "", ParseNum(ThirdWord(line)).value, "", [])
  }

  predicate PrefersPrometheus(body: string) {
    Contains(body, TYPE_PREFIX) || Contains(body, HELP_PREFIX) || Contains(body, "{")
  }

  datatype Outcome = Outcome(contents: Contents, accepted: nat, rejected: nat, lastError: string)

  function Accepted(o: Outcome, spec: MetricSpec): Outcome {
    o.(contents := Upserted(o.contents, spec), accepted := o.accepted + 1)
  }

  /** One line of the line-by-line path. */
  function LineOutcome(o: Outcome, raw: string): Outcome {
    var line := CleanLine(raw);
    if !IsDataLine(raw) then o
    else if LooksLikeSimpleLine(line) then Accepted(o, SimpleSpec(line))
    else
      match ParseText(line + "\n")
      case Err(e) => o.(rejected := o.rejected + 1, lastError := e)
      case Ok(specs) =>
        if specs == [] then o.(rejected := o.rejected + 1, lastError := "unrecognized ingest line")
        else Accepted(o, specs[0])
  }

  function LinePath(o: Outcome, lines: seq<string>): Outcome
    decreases |lines|
  {
    if lines == [] then o else LinePath(LineOutcome(o, lines[0]), lines[1..])
  }

  function WholePath(c: Contents, body: string): Outcome {
    match ParseText(body)
    case Err(e) => Outcome(c, 0, 1, e)
    case Ok(specs) => Outcome(UpsertAll(c, specs), |specs|, 0, "")
  }

  function IngestOutcome(c: Contents, body: string): Outcome {
    if PrefersPrometheus(body) then WholePath(c, body) else LinePath(Outcome(c, 0, 0, ""), Lines(body))
  }

  // ---------------------------------------------------------------- a single line on its own

  lemma CleanTwice(raw: string)
    ensures CleanLine(CleanLine(raw)) == CleanLine(raw)
  {
    var line := CleanLine(raw);
    assert Trimmed(line);
    assert DropReturn(line) == line;
    TrimFixed(line);
  }

  lemma PassOne(st: PassState, raw: string)
    ensures Pass(st, [raw]) == LineStep(st, CleanLine(raw))
  {
    hide LineStep, CleanLine;
    assert [raw][1..] == [];
  }

  /** Parsing one cleaned line alone is one step of the pass from its start. */
  lemma ParseSingle(raw: string)
    requires All(raw, NotNewline)
    ensures ParseText(CleanLine(raw) + "\n")
            == (match LineStep(START, CleanLine(raw)) case Err(e) => Err(e) case Ok(st) => Ok(st.specs))
  {
    hide LineStep, CleanLine;
    var line := CleanLine(raw);
    CleanNewlineFree(raw);
    CleanTwice(raw);
    assert Unlines([line][1..]) == "";
    assert Unlines([line]) == line + "\n" + "" == line + "\n";
    LinesUnlines([line]);
    PassOne(START, line);
  }

  /** A data line yields its one sample or its parse error. */
  lemma DataLineStep(st: PassState, raw: string)
    requires IsDataLine(raw)
    ensures LineStep(st, CleanLine(raw)) == SampleStep(st, CleanLine(raw))
  {
    hide SampleStep, HelpStep, TypeStep, StartsWith;
    var line := CleanLine(raw);
    if StartsWith(line, HELP_PREFIX) || StartsWith(line, TYPE_PREFIX) { CommentFirst(line); }
  }

  lemma LineOutcomeCases(o: Outcome, raw: string)
    requires All(raw, NotNewline) && IsDataLine(raw) && !LooksLikeSimpleLine(CleanLine(raw))
    ensures match ParseSample(CleanLine(raw))
            case Err(e) => LineOutcome(o, raw) == o.(rejected := o.rejected + 1, lastError := e)
            case Ok(s) => LineOutcome(o, raw) == Accepted(o, SpecFor(START, s))
  {
    hide ParseText, LineStep, ParseSample, SpecFor, CleanLine, IsDataLine, LooksLikeSimpleLine, Accepted;
    ParseSingle(raw);
    DataLineStep(START, raw);
    match ParseSample(CleanLine(raw))
    case Err(e) =>
    case Ok(s) =>
      assert START.specs + [SpecFor(START, s)] == [SpecFor(START, s)];
  }

  // ---------------------------------------------------------------- accounting

  /** A data line the line-by-line path can use. */
  predicate Usable(raw: string) {
    IsDataLine(raw) && (LooksLikeSimpleLine(CleanLine(raw)) || ParseSample(CleanLine(raw)).Ok?)
  }

  function UsableLines(lines: seq<string>): nat {
    if lines == [] then 0 else (if Usable(lines[0]) then 1 else 0) + UsableLines(lines[1..])
  }

  /** Every usable line is accepted, every other data line is rejected, blank and comment lines count for nothing. */
  lemma {:induction false} LineAccounting(o: Outcome, lines: seq<string>)
    requires forall i :: 0 <= i < |lines| ==> All(lines[i], NotNewline)
    ensures LinePath(o, lines).accepted == o.accepted + UsableLines(lines)
    ensures LinePath(o, lines).accepted + LinePath(o, lines).rejected == o.accepted + o.rejected + DataLines(lines)
    decreases |lines|
  {
    hide CleanLine, IsDataLine, LooksLikeSimpleLine, ParseSample, SpecFor, Upserted, SimpleSpec, ParseText;
    if lines != [] {
      var raw := lines[0];
      if IsDataLine(raw) && !LooksLikeSimpleLine(CleanLine(raw)) { LineOutcomeCases(o, raw); }
      LineAccounting(LineOutcome(o, raw), lines[1..]);
    }
  }

  /** The counts an ingest reports, in either mode. */
  lemma IngestAccounting(c: Contents, body: string)
    ensures var r := IngestOutcome(c, body);
            if PrefersPrometheus(body) then
              if ParseText(body).Ok? then
                r.accepted == DataLines(Lines(body)) && r.rejected == 0 && r.lastError == ""
                && r.contents == UpsertAll(c, ParseText(body).value)
              else r.accepted == 0 && r.rejected == 1 && r.contents == c && r.lastError != ""
            else
              r.accepted == UsableLines(Lines(body)) && r.accepted + r.rejected == DataLines(Lines(body))
  {
    hide Lines, LinePath, Pass, PrefersPrometheus, DataLines, UsableLines;
    if PrefersPrometheus(body) {
      if ParseText(body).Ok? { PassCounts(START, Lines(body)); } else { PassError(START, Lines(body)); }
    } else {
      LinesNewlineFree(body);
      LineAccounting(Outcome(c, 0, 0, ""), Lines(body));
    }
  }

  // ---------------------------------------------------------------- the two paths compared

  /** A line that both paths treat as a plain Prometheus sample, or skip. */
  ghost predicate PlainLine(raw: string) {
    && All(raw, NotNewline)
    && !StartsWith(CleanLine(raw), HELP_PREFIX) && !StartsWith(CleanLine(raw), TYPE_PREFIX)
    && (IsDataLine(raw) ==> !LooksLikeSimpleLine(CleanLine(raw)))
  }

  ghost predicate PlainLines(lines: seq<string>) {
    forall i :: 0 <= i < |lines| ==> PlainLine(lines[i])
  }

  predicate Parses(raw: string) { IsDataLine(raw) ==> ParseSample(CleanLine(raw)).Ok? }

  ghost predicate AllParse(lines: seq<string>) {
    forall i :: 0 <= i < |lines| ==> Parses(lines[i])
  }

  ghost predicate NoneParse(lines: seq<string>) {
    forall i :: 0 <= i < |lines| ==> IsDataLine(lines[i]) ==> !Parses(lines[i])
  }

  /** A pass that has met no comments. */
  function Bare(specs: seq<MetricSpec>): PassState { PassState(map[], map[], specs) }

  lemma BareStep(specs: seq<MetricSpec>, raw: string)
    requires PlainLine(raw)
    ensures LineStep(Bare(specs), CleanLine(raw))
            == if !IsDataLine(raw) then Ok(Bare(specs))
               else match ParseSample(CleanLine(raw))
                    case Err(e) => Err(e)
                    case Ok(s) => Ok(Bare(specs + [SpecFor(START, s)]))
  {
    hide ParseSample, CleanLine, LooksLikeSimpleLine, StartsWith;
  }

  /** Where every data line parses, the paths run in step. */
  lemma {:induction false} PathsInStep(c: Contents, specs: seq<MetricSpec>, o: Outcome, lines: seq<string>)
    requires PlainLines(lines) && AllParse(lines)
    requires o.contents == UpsertAll(c, specs)
    ensures Pass(Bare(specs), lines).Ok?
    ensures LinePath(o, lines).contents == UpsertAll(c, Pass(Bare(specs), lines).value.specs)
    ensures LinePath(o, lines).rejected == o.rejected
    decreases |lines|
  {
    hide ParseSample, CleanLine, LooksLikeSimpleLine, StartsWith, LineStep, IsDataLine, SpecFor, Upserted, LineOutcome;
    if lines != [] {
      var raw := lines[0];
      assert PlainLine(raw) && Parses(raw);
      BareStep(specs, raw);
      if IsDataLine(raw) {
        var s := ParseSample(CleanLine(raw)).value;
        LineOutcomeCases(o, raw);
        assert (specs + [SpecFor(START, s)])[..|specs|] == specs;
        PathsInStep(c, specs + [SpecFor(START, s)], LineOutcome(o, raw), lines[1..]);
      } else {
        SkippedLine(o, raw);
        PathsInStep(c, specs, o, lines[1..]);
      }
    }
  }

  lemma SkippedLine(o: Outcome, raw: string)
    requires !IsDataLine(raw)
    ensures LineOutcome(o, raw) == o
  {
  }

  lemma {:induction false} PassFailsWhenLineFails(specs: seq<MetricSpec>, lines: seq<string>)
    requires PlainLines(lines) && !AllParse(lines)
    ensures Pass(Bare(specs), lines).Err?
    decreases |lines|
  {
    hide ParseSample, CleanLine, LooksLikeSimpleLine, StartsWith, LineStep, IsDataLine, SpecFor, PlainLine;
    var raw := lines[0];
    assert PlainLine(raw);
    BareStep(specs, raw);
    if Parses(raw) {
      assert !AllParse(lines[1..]) by {
        var i :| 0 <= i < |lines| && !Parses(lines[i]);
        assert lines[1..][i - 1] == lines[i];
      }
      PassFailsWhenLineFails(LineStep(Bare(specs), CleanLine(raw)).value.specs, lines[1..]);
    }
  }

  lemma {:induction false} UsableCount(lines: seq<string>)
    requires PlainLines(lines)
    ensures UsableLines(lines) == 0 <==> NoneParse(lines)
  {
    hide ParseSample, CleanLine, LooksLikeSimpleLine, StartsWith, IsDataLine;
    if lines != [] {
      UsableCount(lines[1..]);
      assert PlainLine(lines[0]);
      assert NoneParse(lines) <==> (IsDataLine(lines[0]) ==> !Parses(lines[0])) && NoneParse(lines[1..]) by {
        assert forall i :: 0 < i < |lines| ==> lines[1..][i - 1] == lines[i];
      }
    }
  }

  /** A body without Prometheus markers whose data lines are all plain samples. */
  ghost predicate PlainBody(body: string) {
    && !PrefersPrometheus(body)
    && forall i :: 0 <= i < |Lines(body)| && IsDataLine(Lines(body)[i]) ==> !LooksLikeSimpleLine(CleanLine(Lines(body)[i]))
  }

  lemma LinesUnfold(text: string)
    requires text != []
    ensures Lines(text) == [FirstLine(text)] + Lines(AfterLine(text))
  {
  }

  lemma LinesContain(text: string, i: nat, key: string)
    requires text != [] && i < |Lines(text)| && Contains(Lines(text)[i], key)
    ensures Contains(text, key)
    decreases |text|
  {
    hide Lines, Contains;
    LinesUnfold(text);
    var n := Span(text, NotNewline);
    if i == 0 {
      ContainsSlice(text, 0, n, key);
    } else {
      if AfterLine(text) == [] { LinesOfNothing(); }
      LinesContain(AfterLine(text), i - 1, key);
      assert AfterLine(text) == text[n + 1..|text|];
      ContainsSlice(text, n + 1, |text|, key);
    }
  }

  lemma PlainBodyLines(body: string)
    requires PlainBody(body)
    ensures PlainLines(Lines(body))
  {
    hide LooksLikeSimpleLine, Lines, CleanLine, Contains, StartsWith, IsDataLine;
    LinesNewlineFree(body);
    if body == [] { LinesOfNothing(); }
    forall i | 0 <= i < |Lines(body)| ensures PlainLine(Lines(body)[i]) {
      var raw := Lines(body)[i];
      if StartsWith(CleanLine(raw), HELP_PREFIX) { MarkerInside(raw, HELP_PREFIX); LinesContain(body, i, HELP_PREFIX); }
      if StartsWith(CleanLine(raw), TYPE_PREFIX) { MarkerInside(raw, TYPE_PREFIX); LinesContain(body, i, TYPE_PREFIX); }
    }
  }

  lemma MarkerInside(raw: string, key: string)
    requires StartsWith(CleanLine(raw), key)
    ensures Contains(raw, key)
  {
    hide CleanLine;
    var lo, hi := CleanLineSlice(raw);
    assert CleanLine(raw)[0..] == CleanLine(raw);
    StartsWithInside(CleanLine(raw), 0, key);
    ContainsSlice(raw, lo, hi, key);
  }

  /** When every data line is a sample, taking the body line by line equals merging it whole. */
  lemma PathsEquivalent(c: Contents, body: string)
    requires PlainBody(body) && AllParse(Lines(body))
    ensures IngestOutcome(c, body) == WholePath(c, body)
  {
    hide Lines, LinePath, Pass, AllParse, DataLines, PrefersPrometheus, UsableLines;
    PlainBodyLines(body);
    var o := Outcome(c, 0, 0, "");
    UpsertNothing(c);
    PathsInStep(c, [], o, Lines(body));
    PassCounts(START, Lines(body));
    LinesNewlineFree(body);
    LineAccounting(o, Lines(body));
    NoErrorWithoutRejection(o, Lines(body));
  }

  lemma UpsertNothing(c: Contents)
    ensures UpsertAll(c, []) == c
  {
  }

  /** The last error is only ever set together with a rejection. */
  lemma {:induction false} NoErrorWithoutRejection(o: Outcome, lines: seq<string>)
    ensures LinePath(o, lines).rejected >= o.rejected
    ensures LinePath(o, lines).rejected == o.rejected ==> LinePath(o, lines).lastError == o.lastError
    decreases |lines|
  {
    hide CleanLine, LooksLikeSimpleLine, ParseText, IsDataLine, SimpleSpec, Upserted;
    if lines != [] { NoErrorWithoutRejection(LineOutcome(o, lines[0]), lines[1..]); }
  }

  /** For plain bodies the two paths accept the same number of lines exactly when all data lines parse or none does. */
  lemma PathsAcceptAlikeIff(c: Contents, body: string)
    requires PlainBody(body)
    ensures IngestOutcome(c, body).accepted == WholePath(c, body).accepted
            <==> AllParse(Lines(body)) || NoneParse(Lines(body))
  {
    hide Lines, LinePath, Pass, DataLines, UsableLines, PrefersPrometheus, AllParse, NoneParse, PlainLine, LooksLikeSimpleLine;
    PlainBodyLines(body);
    IngestAccounting(c, body);
    UsableCount(Lines(body));
    if AllParse(Lines(body)) {
      PathsEquivalent(c, body);
    } else {
      PassFailsWhenLineFails([], Lines(body));
    }
  }

  lemma {:induction false} NoDataLines(o: Outcome, lines: seq<string>)
    requires DataLines(lines) == 0
    ensures LinePath(o, lines) == o
    decreases |lines|
  {
    hide IsDataLine, LineOutcome;
    if lines != [] {
      SkippedLine(o, lines[0]);
      NoDataLines(o, lines[1..]);
    }
  }

  /** A single data line that does not parse is the whole story on both paths. */
  lemma {:induction false} OneBadLine(o: Outcome, lines: seq<string>)
    requires PlainLines(lines) && DataLines(lines) == 1 && !AllParse(lines)
    ensures Pass(Bare([]), lines).Err?
    ensures LinePath(o, lines) == o.(rejected := o.rejected + 1, lastError := Pass(Bare([]), lines).error)
    decreases |lines|
  {
    hide ParseSample, CleanLine, LooksLikeSimpleLine, StartsWith, LineStep, IsDataLine, SpecFor, LineOutcome, AllParse;
    var raw := lines[0];
    assert PlainLine(raw);
    BareStep([], raw);
    NotAllParse(lines);
    if IsDataLine(raw) {
      BadFirst(lines);
      LineOutcomeCases(o, raw);
      NoDataLines(LineOutcome(o, raw), lines[1..]);
    } else {
      SkippedLine(o, raw);
      OneBadLine(o, lines[1..]);
    }
  }

  lemma NotAllParse(lines: seq<string>)
    requires lines != [] && !AllParse(lines)
    ensures Parses(lines[0]) ==> !AllParse(lines[1..])
    ensures !IsDataLine(lines[0]) ==> Parses(lines[0])
  {
    hide IsDataLine, Parses;
    var i :| 0 <= i < |lines| && !Parses(lines[i]);
    if i > 0 { assert lines[1..][i - 1] == lines[i]; }
    NonDataParses(lines[0]);
  }

  lemma NonDataParses(raw: string)
    ensures !IsDataLine(raw) ==> Parses(raw)
  {
  }

  lemma {:induction false} NoDataAllParse(lines: seq<string>)
    requires DataLines(lines) == 0
    ensures AllParse(lines)
    decreases |lines|
  {
    hide IsDataLine, ParseSample;
    if lines != [] {
      NoDataAllParse(lines[1..]);
      forall i | 0 <= i < |lines| ensures Parses(lines[i]) {
        if i > 0 { assert lines[i] == lines[1..][i - 1]; }
      }
    }
  }

  /** With one data line, the first line is the bad one when it is a data line. */
  lemma BadFirst(lines: seq<string>)
    requires lines != [] && DataLines(lines) == 1 && IsDataLine(lines[0]) && !AllParse(lines)
    ensures DataLines(lines[1..]) == 0 && !Parses(lines[0])
  {
    hide IsDataLine, AllParse, Parses;
    NoDataAllParse(lines[1..]);
    NotAllParse(lines);
  }

  /**
   For plain bodies the two paths have the same outcome, registry, counts and error, exactly when every data line parses
   or there is only one data line.
   */
  lemma {:induction false} PathsEqualIff(c: Contents, body: string)
    requires PlainBody(body)
    ensures IngestOutcome(c, body) == WholePath(c, body) <==> AllParse(Lines(body)) || DataLines(Lines(body)) == 1
  {
    hide Lines, LinePath, Pass, DataLines, UsableLines, PrefersPrometheus, AllParse, NoneParse, PlainLine, LooksLikeSimpleLine;
    PlainBodyLines(body);
    IngestAccounting(c, body);
    UsableCount(Lines(body));
    if AllParse(Lines(body)) {
      PathsEquivalent(c, body);
    } else {
      PassFailsWhenLineFails([], Lines(body));
      if DataLines(Lines(body)) == 1 { OneBadLine(Outcome(c, 0, 0, ""), Lines(body)); }
    }
  }

  // ---------------------------------------------------------------- the endpoint

  /** `ingestBody`. */
  method IngestBody(registry: MetricRegistry, body: string) returns (accepted: nat, rejected: nat, lastError: string)
    requires registry.Valid()
    modifies registry
    ensures registry.Valid() && fresh(registry.Repr - old(registry.Repr))
    ensures Outcome(registry.Contents(), accepted, rejected, lastError) == IngestOutcome(old(registry.Contents()), body)
  {
    hide Lines, Pass, MakeMetric, DataLines, LineOutcome, Contains;
    accepted, rejected, lastError := 0, 0, "";
    if Contains(body, TYPE_PREFIX) || Contains(body, HELP_PREFIX) || Contains(body, "{") {
      var merged, error := MergePrometheusText(registry, body);
      if error != "" {
        return 0, 1, error;
      }
      return merged, 0, "";
    }
    ghost var start := Outcome(registry.Contents(), 0, 0, "");
    var rest := body;
    while rest != []
      invariant registry.Valid() && fresh(registry.Repr - old(registry.Repr))
      invariant LinePath(start, Lines(body))
                == LinePath(Outcome(registry.Contents(), accepted, rejected, lastError), Lines(rest))
      decreases |rest|
    {
      var raw := FirstLine(rest);
      LinesUnfold(rest);
      rest := AfterLine(rest);
      accepted, rejected, lastError := IngestLine(registry, raw, accepted, rejected, lastError);
    }
    LinesOfNothing();
  }

  lemma LinesOfNothing()
    ensures Lines("") == []
  {
  }

  /** `ingestSimpleLine`, for a line that looks simple: building and storing it cannot fail. */
  method IngestSimpleLine(registry: MetricRegistry, line: string)
    requires registry.Valid() && LooksLikeSimpleLine(line)
    modifies registry
    ensures registry.Valid() && fresh(registry.Repr - old(registry.Repr))
    ensures registry.Contents() == Upserted(old(registry.Contents()), SimpleSpec(line))
  {
    hide MakeMetric, ParseNum;
    SimpleAccepted(line);
    var spec := MetricSpec(Word(line), SecondWord(line), "", ParseNum(ThirdWord(line)).value, "", []);
    var ok := registry.Upsert(spec);
  }

  /** The fallback: the line as a one-line Prometheus text. */
  method IngestSampleLine(registry: MetricRegistry, line: string) returns (error: string)
    requires registry.Valid()
    modifies registry
    ensures registry.Valid() && fresh(registry.Repr - old(registry.Repr))
    ensures match ParseText(line + "\n")
            case Err(e) => error == e != "" && registry.Contents() == old(registry.Contents())
            case Ok(specs) =>
              if specs == [] then error == "unrecognized ingest line" && registry.Contents() == old(registry.Contents())
              else error == "" && registry.Contents() == Upserted(old(registry.Contents()), specs[0])
  {
    hide Pass, MakeMetric, Upserted, Lines;
    var r := ParsePrometheusText(line + "\n");
    if r.Err? {
      PassError(START, Lines(line + "\n"));
      return r.error;
    }
    if r.value == [] {
      return "unrecognized ingest line";
    }
    PassBuildable(START, Lines(line + "\n"));
    var ok := registry.Upsert(r.value[0]);
    return "";
  }

  /** One turn of the line loop. */
  method IngestLine(registry: MetricRegistry, raw: string, accepted0: nat, rejected0: nat, lastError0: string)
    returns (accepted: nat, rejected: nat, lastError: string)
    requires registry.Valid()
    modifies registry
    ensures registry.Valid() && fresh(registry.Repr - old(registry.Repr))
    ensures Outcome(registry.Contents(), accepted, rejected, lastError)
            == LineOutcome(Outcome(old(registry.Contents()), accepted0, rejected0, lastError0), raw)
  {
    hide ParseText, CleanLine, Upserted, SimpleSpec, LooksLikeSimpleLine;
    accepted, rejected, lastError := accepted0, rejected0, lastError0;
    var line := CleanLine(raw);
    if line == [] || line[0] == '#' {
      return;
    }
    if LooksLikeSimpleLine(line) {
      IngestSimpleLine(registry, line);
      accepted := accepted + 1;
      return;
    }
    var error := IngestSampleLine(registry, line);
    if error != "" {
      rejected, lastError := rejected + 1, error;
    } else {
      accepted := accepted + 1;
    }
  }

  /** A line that looks simple can always be stored. */
  lemma SimpleAccepted(line: string)
    requires LooksLikeSimpleLine(line)
    ensures Accepts(SimpleSpec(line))
  {
  }
}
