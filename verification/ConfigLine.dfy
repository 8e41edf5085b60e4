/**
 The `metric =` line of the configuration file, a near twin of the snapshot line, and the proof of
 how far the two parsers agree.
 */
module ConfigLine {
  import opened Text
  import opened Numbers
  import opened NumberText
  import opened Metrics
  import Snapshot

  const HELP_KEY: string := "help="
  const LABELS_KEY: string := "labels="
  const VALUE_KEY: string := "value="
  const BUCKETS_KEY: string := "buckets="

  predicate CutAt(body: string, i: nat)
    requires i < |body|
  {
    i > 0 && IsSpace(body[i - 1])
    && (StartsWith(body[i..], LABELS_KEY) || StartsWith(body[i..], VALUE_KEY) || StartsWith(body[i..], BUCKETS_KEY))
  }

  function HelpEnd(body: string, i: nat): (n: nat)
    requires i <= |body|
    ensures i <= n <= |body|
    ensures forall j :: i <= j < n ==> !CutAt(body, j)
    ensures n < |body| ==> CutAt(body, n)
    decreases |body| - i
  {
    if i == |body| || CutAt(body, i) then i else HelpEnd(body, i + 1)
  }

  /** The comma-separated bounds of `buckets=`; blank pieces are skipped. */
  function ParseBounds(list: string): Option<seq<Num>>
    decreases |list|
  {
    if list == [] then Some([])
    else
      var token := Trim(Take(list, NotComma));
      var tail := if Rest(list, NotComma) == [] then [] else Rest(list, NotComma)[1..];
      match ParseBounds(tail)
      case None => None
      case Some(more) =>
        if token == "" then Some(more)
        else
          match ParseNum(token)
          case None => None
          case Some(x) => Some([x] + more)
  }

  /** The specification built so far, and how many value tokens were read. */
  datatype Fields = Fields(spec: MetricSpec, values: nat)

  function WithHelp(f: Fields, help: string): Fields { f.(spec := f.spec.(help := help)) }

  function WithLabels(f: Fields, labels: string): Fields { f.(spec := f.spec.(labels := labels)) }

  function WithBuckets(f: Fields, bounds: seq<Num>): Fields { f.(spec := f.spec.(buckets := bounds)) }

  function WithValue(f: Fields, x: Num): Fields { Fields(f.spec.(value := x), f.values + 1) }

  function ScanFields(s: string, f: Fields): Result<Fields>
    decreases |s|
  {
    var t := DropSpace(s);
    if t == [] then Ok(f)
    else if StartsWith(t, HELP_KEY) then
      var n := HelpEnd(t[5..], 0);
      ScanFields(t[5..][n..], WithHelp(f, Trim(t[5..][..n])))
    else if StartsWith(t, LABELS_KEY) then
      ScanFields(Rest(t[7..], NotSpace), WithLabels(f, Take(t[7..], NotSpace)))
    else if StartsWith(t, BUCKETS_KEY) then
      match ParseBounds(Take(t[8..], NotSpace))
      case None => Err("invalid buckets=")
      case Some(bounds) =>
        if bounds == [] then Err("buckets= requires at least one bound")
        else ScanFields(Rest(t[8..], NotSpace), WithBuckets(f, bounds))
    else if StartsWith(t, VALUE_KEY) then
      match ParseNum(Take(t[6..], NotSpace))
      case None => Err("invalid value=")
      case Some(x) => ScanFields(Rest(t[6..], NotSpace), WithValue(f, x))
    else
      match ParseNum(Take(t, NotSpace))
      case None => Err("metric trailing field must be a number or help=/labels=/value=/buckets=")
      case Some(x) => ScanFields(Rest(t, NotSpace), WithValue(f, x))
  }

  function FieldText(line: string): string { Trim(FirstLine(AfterWord(AfterWord(line)))) }

  function StartFields(line: string): Fields {
    Fields(EMPTY_SPEC.(name := Word(line), typ := Word(AfterWord(line))), 0)
  }

  function ParseMetricLine(line: string): Result<Fields> {
    if Word(line) == "" || Word(AfterWord(line)) == "" then Err("metric needs name and type")
    else
      match ScanFields(FieldText(line), StartFields(line))
      case Err(e) => Err(e)
      case Ok(f) =>
        if ParseMetricType(f.spec.typ) == Unknown then Err("unknown metric type: " + f.spec.typ) else Ok(f)
  }

  // ---------------------------------------------------------------- the parser

  method HelpScan(rest: string, pos: nat) returns (end: nat)
    requires pos <= |rest|
    ensures pos <= end <= |rest| && end == pos + HelpEnd(rest[pos..], 0)
  {
    end := pos;
    ghost var body := rest[pos..];
    while end < |rest|
      invariant pos <= end <= |rest|
      invariant HelpEnd(body, 0) == HelpEnd(body, end - pos)
    {
      assert body[end - pos..] == rest[end..];
      if end > pos && IsSpace(rest[end - 1])
         && (StartsWith(rest[end..], LABELS_KEY) || StartsWith(rest[end..], VALUE_KEY) || StartsWith(rest[end..], BUCKETS_KEY)) {
        return;
      }
      end := end + 1;
    }
  }

  function Prefixed(done: seq<Num>, more: Option<seq<Num>>): Option<seq<Num>> {
    if more.None? then None else Some(done + more.value)
  }

  /** What is left of the list once the first piece and its comma are gone. */
  function AfterComma(list: string): string {
    if Rest(list, NotComma) == [] then [] else Rest(list, NotComma)[1..]
  }

  lemma PrefixNothing(more: Option<seq<Num>>)
    ensures Prefixed([], more) == more
  {
    if more.Some? { assert [] + more.value == more.value; }
  }

  lemma PrefixMore(done: seq<Num>, x: Num, more: Option<seq<Num>>)
    ensures Prefixed(done, Prefixed([x], more)) == Prefixed(done + [x], more)
  {
    if more.Some? { assert done + ([x] + more.value) == (done + [x]) + more.value; }
  }

  /** One piece of the list. */
  lemma BoundsUnfold(list: string)
    requires list != []
    ensures var token := Trim(Take(list, NotComma));
            var more := ParseBounds(AfterComma(list));
            ParseBounds(list) == if token == "" then more
                                 else if ParseNum(token).None? then None
                                 else Prefixed([ParseNum(token).value], more)
  {
    hide ParseNum, Trim, Span;
  }

  /** The loop over the comma-separated bounds, which walks past each comma. */
  method BoundsLoop(list: string) returns (r: Option<seq<Num>>)
    ensures r == ParseBounds(list)
  {
    hide ParseNum, Trim, Span, ParseBounds, Prefixed;
    var buckets: seq<Num> := [];
    var left := list;
    PrefixNothing(ParseBounds(list));
    while left != []
      invariant ParseBounds(list) == Prefixed(buckets, ParseBounds(left))
      decreases |left|
    {
      BoundsUnfold(left);
      var token := Trim(Take(left, NotComma));
      ghost var more := ParseBounds(AfterComma(left));
      if token != "" {
        match ParseNum(token) {
          case None =>
            PrefixFailed(buckets);
            return None;
          case Some(x) =>
            PrefixMore(buckets, x, more);
            buckets := buckets + [x];
        }
      }
      left := AfterComma(left);
    }
    BoundsDone(buckets);
    return Some(buckets);
  }

  lemma PrefixFailed(done: seq<Num>)
    ensures Prefixed(done, None) == None
  {
  }

  lemma BoundsDone(done: seq<Num>)
    ensures Prefixed(done, ParseBounds([])) == Some(done)
  {
    assert done + [] == done;
  }

  method FieldStep(rest: string, pos: nat, f: Fields) returns (r: Result<Fields>, next: nat)
    requires pos < |rest| && !IsSpace(rest[pos])
    ensures next <= |rest|
    ensures r.Ok? ==> pos < next && ScanFields(rest[pos..], f) == ScanFields(rest[next..], r.value)
    ensures r.Err? ==> ScanFields(rest[pos..], f) == r
  {
    hide ParseNum, Span, Trim, ParseBounds;
    ghost var t := rest[pos..];
    Snapshot.SpanStops(t);
    if StartsWith(rest[pos..], HELP_KEY) {
      var end := HelpScan(rest, pos + 5);
      assert t[5..] == rest[pos + 5..];
      assert t[5..][..end - pos - 5] == rest[pos + 5..end] && t[5..][end - pos - 5..] == rest[end..];
      return Ok(WithHelp(f, Trim(rest[pos + 5..end]))), end;
    }
    if StartsWith(rest[pos..], LABELS_KEY) {
      var end := Snapshot.TokenEnd(rest, pos + 7);
      assert t[7..] == rest[pos + 7..];
      return Ok(WithLabels(f, rest[pos + 7..end])), end;
    }
    if StartsWith(rest[pos..], BUCKETS_KEY) {
      var end := Snapshot.TokenEnd(rest, pos + 8);
      assert t[8..] == rest[pos + 8..];
      var bounds := BoundsLoop(rest[pos + 8..end]);
      if bounds.None? {
        return Err("invalid buckets="), end;
      }
      if bounds.value == [] {
        return Err("buckets= requires at least one bound"), end;
      }
      return Ok(WithBuckets(f, bounds.value)), end;
    }
    if StartsWith(rest[pos..], VALUE_KEY) {
      var end := Snapshot.TokenEnd(rest, pos + 6);
      assert t[6..] == rest[pos + 6..];
      match ParseNum(rest[pos + 6..end])
      case None => return Err("invalid value="), end;
      case Some(x) => return Ok(WithValue(f, x)), end;
    }
    var end := Snapshot.TokenEnd(rest, pos);
    Snapshot.TokenNonempty(t);
    match ParseNum(rest[pos..end])
    case None => return Err("metric trailing field must be a number or help=/labels=/value=/buckets="), end;
    case Some(x) => return Ok(WithValue(f, x)), end;
  }

  /** The outer loop; every turn strictly advances the cursor. */
  method ScanLoop(rest: string, start: Fields) returns (r: Result<Fields>)
    ensures r == ScanFields(rest, start)
  {
    hide ScanFields, DropSpace;
    var f := start;
    var pos := 0;
    assert rest[0..] == rest;
    while pos < |rest|
      invariant 0 <= pos <= |rest|
      invariant ScanFields(rest, start) == ScanFields(rest[pos..], f)
    {
      ghost var before := pos;
      pos := Snapshot.SkipSpace(rest, pos);
      ScanSkips(rest[before..], f);
      if pos >= |rest| {
        break;
      }
      var step, next := FieldStep(rest, pos, f);
      if step.Err? {
        return Err(step.error);
      }
      f := step.value;
      pos := next;
    }
    assert rest[pos..] == [];
    ScanNothing(f);
    return Ok(f);
  }

  /** `parseMetricLine`. */
  method ParseLine(line: string) returns (r: Result<Fields>)
    ensures r == ParseMetricLine(line)
  {
    hide ScanFields, Trim, Word, AfterWord, FirstLine, ParseMetricType;
    var name := Word(line);
    var typ := Word(AfterWord(line));
    if name == "" || typ == "" {
      return Err("metric needs name and type");
    }
    var rest := Trim(FirstLine(AfterWord(AfterWord(line))));
    r := ScanLoop(rest, Fields(EMPTY_SPEC.(name := name, typ := typ), 0));
    if r.Ok? && ParseMetricType(r.value.spec.typ) == Unknown {
      return Err("unknown metric type: " + r.value.spec.typ);
    }
  }

  lemma ScanSkips(s: string, f: Fields)
    ensures ScanFields(s, f) == ScanFields(DropSpace(s), f)
  {
    hide ParseNum, StartsWith, HelpEnd, Trim, ParseBounds;
    var t := DropSpace(s);
    if t != [] { Snapshot.SpanStops(t); }
  }

  lemma ScanNothing(f: Fields)
    ensures ScanFields([], f) == Ok(f)
  {
  }
}
