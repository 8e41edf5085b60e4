/**
 The snapshot file: one line per metric, `name type value [labels=...] [help=...]`, and its parser.
 */
module Snapshot {
  import opened Text
  import opened Numbers
  import opened NumberText
  import opened Metrics

  // ---------------------------------------------------------------- the field grammar

  const HELP_KEY: string := "help="
  const LABELS_KEY: string := "labels="
  const VALUE_KEY: string := "value="

  datatype Fields = Fields(spec: MetricSpec, haveValue: bool)

  /** A help text stops in front of a field key that follows white space. */
  predicate CutAt(body: string, i: nat)
    requires i < |body|
  {
    i > 0 && IsSpace(body[i - 1]) && (StartsWith(body[i..], LABELS_KEY) || StartsWith(body[i..], VALUE_KEY))
  }

  /** Where a help text that has been read up to `i` ends. */
  function HelpEnd(body: string, i: nat): (n: nat)
    requires i <= |body|
    ensures i <= n <= |body|
    ensures forall j :: i <= j < n ==> !CutAt(body, j)
    ensures n < |body| ==> CutAt(body, n)
    decreases |body| - i
  {
    if i == |body| || CutAt(body, i) then i else HelpEnd(body, i + 1)
  }

  function WithHelp(f: Fields, help: string): Fields { f.(spec := f.spec.(help := help)) }

  function WithLabels(f: Fields, labels: string): Fields { f.(spec := f.spec.(labels := labels)) }

  function WithValue(f: Fields, x: Num): Fields { Fields(f.spec.(value := x), true) }

  /** The scan over the trailing fields, from a position whose remaining text is `s`. */
  function ScanFields(s: string, f: Fields): Result<Fields>
    decreases |s|
  {
    var t := DropSpace(s);
    if t == [] then Ok(f)
    else if StartsWith(t, HELP_KEY) then
      var n := HelpEnd(t[5..], 0);
      ScanFields(t[5..][n..], WithHelp(f, Trim(t[5..][..n])))
    else if StartsWith(t, LABELS_KEY) then
      ScanFields(Rest(t[7..], NotSpace), WithLabels(f, Take(t[7..], NotSpace)))
    else if StartsWith(t, VALUE_KEY) then
      match ParseNum(Take(t[6..], NotSpace))
      case None => Err("invalid value=")
      case Some(x) => ScanFields(Rest(t[6..], NotSpace), WithValue(f, x))
    else
      match ParseNum(Take(t, NotSpace))
      case None => Err("snapshot trailing field must be a number or help=/labels=/value=")
      case Some(x) => ScanFields(Rest(t, NotSpace), WithValue(f, x))
  }

  /** The part of a line after its first two words, up to a newline, trimmed. */
  function FieldText(line: string): string { Trim(FirstLine(AfterWord(AfterWord(line)))) }

  function StartFields(line: string): Fields {
    Fields(EMPTY_SPEC.(name := Word(line), typ := Word(AfterWord(line))), false)
  }

  function ParseSnapshotLine(line: string): Result<MetricSpec> {
    if Word(line) == "" || Word(AfterWord(line)) == "" then Err("snapshot line needs name and type")
    else
      match ScanFields(FieldText(line), StartFields(line))
      case Err(e) => Err(e)
      case Ok(f) =>
        if !f.haveValue then Err("snapshot line missing value")
        else if ParseMetricType(f.spec.typ) == Unknown then Err("unknown metric type: " + f.spec.typ)
        else Ok(f.spec)
  }

  // ---------------------------------------------------------------- the parser

  method TokenEnd(rest: string, start: nat) returns (end: nat)
    requires start <= |rest|
    ensures start <= end <= |rest|
    ensures rest[start..end] == Take(rest[start..], NotSpace) && rest[end..] == Rest(rest[start..], NotSpace)
  {
    hide Span;
    end := start;
    while end < |rest| && !IsSpace(rest[end])
      invariant start <= end <= |rest|
      invariant forall i :: start <= i < end ==> !IsSpace(rest[i])
    {
      end := end + 1;
    }
    SpanIs(rest[start..], NotSpace, end - start);
  }

  method SkipSpace(rest: string, start: nat) returns (pos: nat)
    requires start <= |rest|
    ensures start <= pos <= |rest|
    ensures rest[pos..] == DropSpace(rest[start..])
    ensures pos < |rest| ==> !IsSpace(rest[pos])
  {
    hide Span;
    pos := start;
    while pos < |rest| && IsSpace(rest[pos])
      invariant start <= pos <= |rest|
      invariant forall i :: start <= i < pos ==> IsSpace(rest[i])
    {
      pos := pos + 1;
    }
    SpanIs(rest[start..], IsSpace, pos - start);
    assert pos < |rest| ==> rest[pos..][0] == rest[pos];
  }

  /** The loop that looks for the end of a help text starting at `pos`. */
  method HelpScan(rest: string, pos: nat) returns (end: nat)
    requires pos <= |rest|
    ensures pos <= end <= |rest| && end == pos + HelpEnd(rest[pos..], 0)
  {
    end := pos;
    ghost var body := rest[pos..];
    while end < |rest|
      invariant pos <= end <= |rest|
      invariant HelpEnd(body, 0) == HelpEnd(body, end - pos)
    {
      assert body[end - pos..] == rest[end..];
      if end > pos && IsSpace(rest[end - 1]) && (StartsWith(rest[end..], LABELS_KEY) || StartsWith(rest[end..], VALUE_KEY)) {
        return;
      }
      end := end + 1;
    }
  }

  /** One turn of the outer loop at a non-space position; `next` is where the following turn starts. */
  method FieldStep(rest: string, pos: nat, f: Fields) returns (r: Result<Fields>, next: nat)
    requires pos < |rest| && !IsSpace(rest[pos])
    ensures next <= |rest|
    ensures r.Ok? ==> pos < next && ScanFields(rest[pos..], f) == ScanFields(rest[next..], r.value)
    ensures r.Err? ==> ScanFields(rest[pos..], f) == r
  {
    hide ParseNum, Span, Trim;
    ghost var t := rest[pos..];
    SpanStops(t);
    if StartsWith(rest[pos..], HELP_KEY) {
      var end := HelpScan(rest, pos + 5);
      assert t[5..] == rest[pos + 5..];
      assert t[5..][..end - pos - 5] == rest[pos + 5..end] && t[5..][end - pos - 5..] == rest[end..];
      return Ok(WithHelp(f, Trim(rest[pos + 5..end]))), end;
    }
    if StartsWith(rest[pos..], LABELS_KEY) {
      var end := TokenEnd(rest, pos + 7);
      assert t[7..] == rest[pos + 7..];
      return Ok(WithLabels(f, rest[pos + 7..end])), end;
    }
    if StartsWith(rest[pos..], VALUE_KEY) {
      var end := TokenEnd(rest, pos + 6);
      assert t[6..] == rest[pos + 6..];
      match ParseNum(rest[pos + 6..end])
      case None => return Err("invalid value="), end;
      case Some(x) => return Ok(WithValue(f, x)), end;
    }
    var end := TokenEnd(rest, pos);
    TokenNonempty(t);
    match ParseNum(rest[pos..end])
    case None => return Err("snapshot trailing field must be a number or help=/labels=/value="), end;
    case Some(x) => return Ok(WithValue(f, x)), end;
  }

  lemma SpanStops(t: string)
    requires t != [] && !IsSpace(t[0])
    ensures DropSpace(t) == t
  {
    SpanIs(t, IsSpace, 0);
  }

  lemma TokenNonempty(t: string)
    requires t != [] && !IsSpace(t[0])
    ensures |Take(t, NotSpace)| > 0
  {
  }

  /** The outer loop; every turn strictly advances the cursor. */
  method ScanLoop(rest: string, start: Fields) returns (r: Result<Fields>)
    ensures r == ScanFields(rest, start)
  {
    hide ScanFields, DropSpace;
    var f := start;
    var pos := 0;
    assert rest[0..] == rest;
    while pos < |rest|
      invariant 0 <= pos <= |rest|
      invariant ScanFields(rest, start) == ScanFields(rest[pos..], f)
    {
      ghost var before := pos;
      pos := SkipSpace(rest, pos);
      ScanSkips(rest[before..], f);
      if pos >= |rest| {
        break;
      }
      var step, next := FieldStep(rest, pos, f);
      if step.Err? {
        return Err(step.error);
      }
      f := step.value;
      pos := next;
    }
    assert rest[pos..] == [];
    ScanNothing(f);
    return Ok(f);
  }

  /** `parseSnapshotLine`. */
  method ParseLine(line: string) returns (r: Result<MetricSpec>)
    ensures r == ParseSnapshotLine(line)
  {
    hide ScanFields, Trim, Word, AfterWord, FirstLine, ParseMetricType;
    var name := Word(line);
    var typ := Word(AfterWord(line));
    if name == "" || typ == "" {
      return Err("snapshot line needs name and type");
    }
    var rest := Trim(FirstLine(AfterWord(AfterWord(line))));
    var scan := ScanLoop(rest, Fields(EMPTY_SPEC.(name := name, typ := typ), false));
    if scan.Err? {
      return Err(scan.error);
    }
    var f := scan.value;
    if !f.haveValue {
      return Err("snapshot line missing value");
    }
    if ParseMetricType(f.spec.typ) == Unknown {
      return Err("unknown metric type: " + f.spec.typ);
    }
    return Ok(f.spec);
  }

  lemma ScanSkips(s: string, f: Fields)
    ensures ScanFields(s, f) == ScanFields(DropSpace(s), f)
  {
    hide ParseNum, StartsWith, HelpEnd, Trim;
    var t := DropSpace(s);
    if t != [] { SpanStops(t); }
  }

  lemma ScanNothing(f: Fields)
    ensures ScanFields([], f) == Ok(f)
  {
  }
}
