/**
 Whole snapshot files: the text a save writes, what a load makes of it, and exactly which metrics survive.
 */
module SnapshotFile {
  import opened Text
  import opened Numbers
  import opened NumberText
  import opened Metrics
  import opened Registry
  import opened Exposition
  import opened Snapshot

  // ---------------------------------------------------------------- writing

  const HEADER: string := "# simple-metricd registry snapshot"

  function LabelsField(labels: string): string { if labels == "" then "" else " labels=" + labels }

  function HelpField(help: string): string { if help == "" then "" else " help=" + help }

  /** The fields after the type: value, labels, help. */
  function FieldsOf(m: Metric): string {
    PrintNum(ValueOf(m)) + (LabelsField(m.labels) + HelpField(m.help))
  }

  function SnapshotLine(m: Metric): string {
    m.name + (" " + (TypeName(TypeOf(m)) + (" " + FieldsOf(m))))
  }

  function SnapshotLines(ms: seq<Metric>, n: nat): seq<string>
    requires n <= |ms|
  {
    if n == 0 then [HEADER] else SnapshotLines(ms, n - 1) + [SnapshotLine(ms[n - 1])]
  }

  /** The complete file for a registry. */
  ghost function SaveText(c: Contents): string
    requires ValidContents(c)
  {
    Unlines(SnapshotLines(Listing(c), |Listing(c)|))
  }

  // ---------------------------------------------------------------- reading

  /** A line without its comment, trimmed. */
  function Uncommented(raw: string): string { Trim(Take(raw, NotHash)) }

  /** The specification a line contributes, if any: blank, commented and malformed lines are skipped. */
  function LoadedSpec(raw: string): Option<MetricSpec> {
    var line := Uncommented(raw);
    if line == "" then None
    else
      match ParseSnapshotLine(line)
      case Err(_) => None
      case Ok(spec) => Some(spec)
  }

  function LoadLine(c: Contents, raw: string): Contents {
    match LoadedSpec(raw)
    case None => c
    case Some(spec) => Upserted(c, spec)
  }

  function LoadLines(c: Contents, lines: seq<string>): Contents
    decreases |lines|
  {
    if lines == [] then c else LoadLines(LoadLine(c, lines[0]), lines[1..])
  }

  function LoadText(c: Contents, text: string): Contents { LoadLines(c, Lines(text)) }

  lemma {:induction false} LoadAppend(c: Contents, a: seq<string>, b: seq<string>)
    ensures LoadLines(c, a + b) == LoadLines(LoadLines(c, a), b)
    decreases |a|
  {
    hide LoadLine;
    if a == [] {
      assert a + b == b;
    } else {
      LoadAppend(LoadLine(c, a[0]), a[1..], b);
      assert (a + b)[1..] == a[1..] + b;
    }
  }

  lemma LoadSnoc(c: Contents, lines: seq<string>, line: string)
    ensures LoadLines(c, lines + [line]) == LoadLine(LoadLines(c, lines), line)
  {
    hide LoadLine;
    LoadAppend(c, lines, [line]);
    assert [line][1..] == [];
  }

  /** Specifications read from a snapshot carry no bucket bounds. */
  lemma {:induction false} ScanKeepsBuckets(s: string, f: Fields)
    ensures ScanFields(s, f).Ok? ==> ScanFields(s, f).value.spec.buckets == f.spec.buckets
                                     && ScanFields(s, f).value.spec.name == f.spec.name
                                     && ScanFields(s, f).value.spec.typ == f.spec.typ
    decreases |s|
  {
    hide ParseNum, StartsWith, HelpEnd, Trim;
    var t := DropSpace(s);
    if t == [] {
    } else if StartsWith(t, HELP_KEY) {
      KeyFits(t);
      ScanKeepsBuckets(t[5..][HelpEnd(t[5..], 0)..], WithHelp(f, Trim(t[5..][..HelpEnd(t[5..], 0)])));
    } else if StartsWith(t, LABELS_KEY) {
      KeyFits(t);
      ScanKeepsBuckets(Rest(t[7..], NotSpace), WithLabels(f, Take(t[7..], NotSpace)));
    } else {
      KeyFits(t);
      var body := if StartsWith(t, VALUE_KEY) then t[6..] else t;
      if body == t { TokenNonempty(t); }
      match ParseNum(Take(body, NotSpace))
      case None =>
      case Some(x) => ScanKeepsBuckets(Rest(body, NotSpace), WithValue(f, x));
    }
  }

  lemma KeyFits(t: string)
    ensures StartsWith(t, HELP_KEY) ==> |t| >= 5
    ensures StartsWith(t, LABELS_KEY) ==> |t| >= 7
    ensures StartsWith(t, VALUE_KEY) ==> |t| >= 6
  {
  }

  lemma LoadedSpecPlain(raw: string)
    ensures LoadedSpec(raw).Some? ==> LoadedSpec(raw).value.buckets == [] && Accepts(LoadedSpec(raw).value)
  {
    hide ScanFields, FieldText, Word, AfterWord;
    var line := Uncommented(raw);
    ScanKeepsBuckets(FieldText(line), StartFields(line));
  }

  // ---------------------------------------------------------------- safe text

  ghost predicate OneWord(s: string) { All(s, NotSpace) && All(s, NotHash) }

  /** Help text that the field grammar hands back whole. */
  ghost predicate HelpSafe(help: string) {
    Trimmed(help) && All(help, NotHash) && HelpEnd(help, 0) == |help|
  }

  /** A one-word name, and no line break anywhere: the metric has a line of its own, under its own name. */
  ghost predicate OneLine(m: Metric) {
    m.name != "" && OneWord(m.name) && All(m.labels, NotNewline) && All(m.help, NotNewline)
  }

  /** And labels the line grammar can carry. */
  ghost predicate Writable(m: Metric) { OneLine(m) && OneWord(m.labels) }

  /** In words: no white space directly followed by a field key. */
  lemma HelpSafeMeaning(help: string)
    ensures HelpSafe(help) <==>
              Trimmed(help) && All(help, NotHash) && forall i :: 0 <= i < |help| ==> !CutAt(help, i)
  {
  }

  // ---------------------------------------------------------------- one line, read back

  /** What the comment and trim rules leave of a trailing help text. */
  function KeptHelp(help: string): string { DropSpaceRight(Take(help, NotHash)) }

  lemma {:induction false} DropSpaceRightAfter(p: string, h: string)
    requires p != "" && !IsSpace(p[|p| - 1])
    ensures DropSpaceRight(p + h) == p + DropSpaceRight(h)
    decreases |h|
  {
    if h == "" {
      assert p + h == p;
    } else if IsSpace(h[|h| - 1]) {
      assert (p + h)[..|p + h| - 1] == p + h[..|h| - 1];
      DropSpaceRightAfter(p, h[..|h| - 1]);
    }
  }

  lemma TakeAfter(p: string, h: string)
    requires All(p, NotHash)
    ensures Take(p + h, NotHash) == p + Take(h, NotHash)
  {
    var n := Span(h, NotHash);
    assert forall i :: 0 <= i < n ==> (p + h)[|p| + i] == h[i];
    assert n < |h| ==> (p + h)[|p| + n] == h[n];
    SpanIs(p + h, NotHash, |p| + n);
  }

  /** A line that ends in arbitrary help text, after comment stripping and trimming. */
  lemma UncommentedLine(p: string, h: string)
    requires p != "" && !IsSpace(p[0]) && !IsSpace(p[|p| - 1]) && All(p, NotHash)
    ensures Uncommented(p + h) == p + KeptHelp(h)
  {
    TakeAfter(p, h);
    var t := p + Take(h, NotHash);
    assert t[0] == p[0];
    SpanIs(t, IsSpace, 0);
    assert DropSpace(t) == t;
    DropSpaceRightAfter(p, Take(h, NotHash));
  }

  /** A numeral cannot be mistaken for a field key. */
  lemma NumeralIsNoKey(v: string, rest: string)
    requires v != [] && All(v, IsNumChar)
    ensures !StartsWith(v + rest, HELP_KEY) && !StartsWith(v + rest, LABELS_KEY) && !StartsWith(v + rest, VALUE_KEY)
  {
    var t := v + rest;
    assert t[0] == v[0];
    StartsWithFirst(t, HELP_KEY);
    StartsWithFirst(t, LABELS_KEY);
    StartsWithFirst(t, VALUE_KEY);
  }

  lemma ScanValue(v: string, x: Num, rest: string, f: Fields)
    requires v != [] && All(v, IsNumChar) && ParseNum(v) == Some(x)
    requires rest == [] || IsSpace(rest[0])
    ensures ScanFields(v + rest, f) == ScanFields(rest, WithValue(f, x))
  {
    hide ParseNum, StartsWith, HelpEnd;
    var t := v + rest;
    assert t[0] == v[0];
    SpanStops(t);
    NumeralIsNoKey(v, rest);
    TakeSeam(v, rest, NotSpace);
  }

  lemma SpaceThen(s: string)
    requires s != [] && !IsSpace(s[0])
    ensures DropSpace(" " + s) == s
  {
    assert (" " + s)[1..] == s;
    SpanIs(" " + s, IsSpace, 1);
  }

  lemma StartsWithKey(key: string, rest: string, n: nat)
    requires |key| == n
    ensures StartsWith(key + rest, key) && (key + rest)[n..] == rest
  {
  }

  lemma LabelsAreNotHelp(rest: string)
    ensures !StartsWith(LABELS_KEY + rest, HELP_KEY)
  {
    assert (LABELS_KEY + rest)[0] == 'l';
    StartsWithFirst(LABELS_KEY + rest, HELP_KEY);
  }

  lemma ScanLabels(labels: string, rest: string, f: Fields)
    requires All(labels, NotSpace)
    requires rest == [] || IsSpace(rest[0])
    ensures ScanFields(LabelsField(labels) + rest, f)
            == ScanFields(rest, if labels == "" then f else WithLabels(f, labels))
  {
    hide ScanFields, StartsWith;
    if labels == "" {
      assert LabelsField(labels) + rest == rest;
    } else {
      var t := LABELS_KEY + (labels + rest);
      assert LabelsField(labels) + rest == " " + t;
      assert t[0] == 'l';
      SpaceThen(t);
      ScanSkips(" " + t, f);
      ScanLabelsKey(t, labels, rest, f);
    }
  }

  lemma ScanLabelsKey(t: string, labels: string, rest: string, f: Fields)
    requires t == LABELS_KEY + (labels + rest)
    requires All(labels, NotSpace) && (rest == [] || IsSpace(rest[0]))
    ensures ScanFields(t, f) == ScanFields(rest, WithLabels(f, labels))
  {
    hide StartsWith, HelpEnd, ParseNum;
    assert t[0] == 'l';
    SpanStops(t);
    StartsWithKey(LABELS_KEY, labels + rest, 7);
    LabelsAreNotHelp(labels + rest);
    TakeSeam(labels, rest, NotSpace);
  }

  /** The scan at a help field that runs to the end of the line. */
  lemma ScanHelp(h: string, f: Fields)
    ensures ScanFields(" help=" + h, f) == ScanFields(h[HelpEnd(h, 0)..], WithHelp(f, Trim(h[..HelpEnd(h, 0)])))
  {
    hide StartsWith, ParseNum, HelpEnd, Trim;
    var t := HELP_KEY + h;
    assert " help=" + h == " " + t;
    assert t[0] == 'h';
    SpaceThen(t);
    SpanStops(t);
    StartsWithKey(HELP_KEY, h, 5);
  }

  /** A later help field can only hold less text than is left. */
  lemma {:induction false} LaterHelpIsShorter(s: string, f: Fields)
    ensures ScanFields(s, f).Ok? ==> ScanFields(s, f).value.spec.help == f.spec.help
                                     || |ScanFields(s, f).value.spec.help| < |s|
    decreases |s|
  {
    hide ParseNum, StartsWith, HelpEnd;
    var t := DropSpace(s);
    KeyFits(t);
    if t == [] {
    } else if StartsWith(t, HELP_KEY) {
      LaterHelpIsShorter(t[5..][HelpEnd(t[5..], 0)..], WithHelp(f, Trim(t[5..][..HelpEnd(t[5..], 0)])));
    } else if StartsWith(t, LABELS_KEY) {
      LaterHelpIsShorter(Rest(t[7..], NotSpace), WithLabels(f, Take(t[7..], NotSpace)));
    } else {
      var body := if StartsWith(t, VALUE_KEY) then t[6..] else t;
      if body == t { TokenNonempty(t); }
      match ParseNum(Take(body, NotSpace))
      case None =>
      case Some(x) => LaterHelpIsShorter(Rest(body, NotSpace), WithValue(f, x));
    }
  }

  lemma TrimShorter(s: string)
    requires s != "" && IsSpace(s[|s| - 1])
    ensures |Trim(s)| < |s|
  {
    var d := DropSpace(s);
    if d != [] { assert d[|d| - 1] == s[|s| - 1]; }
  }

  lemma KeptHelpFixed(h: string)
    ensures |KeptHelp(h)| <= |h|
    ensures KeptHelp(h) == h <==> All(h, NotHash) && (h == "" || !IsSpace(h[|h| - 1]))
  {
    if All(h, NotHash) { TakeAll(h, NotHash); }
    if KeptHelp(h) == h { assert |Take(h, NotHash)| == |h| && Span(h, NotHash) == |h|; }
  }

  /** The scan of the kept help gives the written help back exactly when that help is safe. */
  lemma HelpSurvivesIff(h: string, f: Fields)
    requires h != "" && f.spec.help == ""
    ensures (ScanFields(" help=" + KeptHelp(h), f).Ok?
             && ScanFields(" help=" + KeptHelp(h), f).value.spec.help == h) <==> HelpSafe(h)
    ensures HelpSafe(h) ==> ScanFields(" help=" + KeptHelp(h), f) == Ok(WithHelp(f, h))
  {
    hide ScanFields, Trim;
    var k := KeptHelp(h);
    var n := HelpEnd(k, 0);
    KeptHelpFixed(h);
    ScanHelp(k, f);
    var g := WithHelp(f, Trim(k[..n]));
    if n == |k| {
      assert k[n..] == [] && k[..n] == k;
      ScanNothing(g);
      if Trim(k) == h { assert |Trim(k)| <= |k| <= |h|; TrimSameLength(k); }
      if HelpSafe(h) { TrimFixed(h); }
    } else {
      assert CutAt(k, n);
      assert k[..n][n - 1] == k[n - 1];
      TrimShorter(k[..n]);
      LaterHelpIsShorter(k[n..], g);
    }
  }

  lemma TrimSameLength(s: string)
    ensures |Trim(s)| == |s| ==> Trim(s) == s
  {
    var lo: nat, hi: nat :| lo <= hi <= |s| && Trim(s) == s[lo..hi];
  }

  /** A help text of nothing but dropped characters still leaves a readable line. */
  function SpecWithHelp(m: Metric, help: string): MetricSpec {
    MetricSpec(m.name, TypeName(TypeOf(m)), help, Round6(ValueOf(m)), m.labels, [])
  }

  /** Everything before the help text of a line. */
  function LineHead(m: Metric): string {
    m.name + (" " + (TypeName(TypeOf(m)) + (" " + (PrintNum(ValueOf(m)) + LabelsField(m.labels)))))
  }

  lemma LineParts(m: Metric)
    ensures m.help != "" ==> SnapshotLine(m) == (LineHead(m) + " help=") + m.help
    ensures m.help == "" ==> SnapshotLine(m) == LineHead(m) + ""
  {
    hide PrintNum, LabelsField, TypeName;
    var n, t, v, l := m.name, TypeName(TypeOf(m)), PrintNum(ValueOf(m)), LabelsField(m.labels);
    if m.help != "" {
      FoldRight(n, t, v, l, " help=" + m.help);
      assert LineHead(m) + (" help=" + m.help) == (LineHead(m) + " help=") + m.help;
    } else {
      assert v + (l + "") == v + l;
    }
  }

  lemma FoldRight(n: string, t: string, v: string, l: string, h: string)
    ensures n + (" " + (t + (" " + (v + (l + h))))) == (n + (" " + (t + (" " + (v + l))))) + h
  {
    assert v + (l + h) == (v + l) + h;
    assert t + (" " + ((v + l) + h)) == (t + (" " + (v + l))) + h;
    assert n + (" " + ((t + (" " + (v + l))) + h)) == (n + (" " + (t + (" " + (v + l))))) + h;
  }

  lemma LineHeadShape(m: Metric)
    requires Writable(m)
    ensures LineHead(m) != "" && !IsSpace(LineHead(m)[0]) && !IsSpace(LineHead(m)[|LineHead(m)| - 1])
    ensures All(LineHead(m), NotHash) && All(LineHead(m), NotNewline)
  {
    hide PrintNum, TypeName, LabelsField;
    PrintNumChars(ValueOf(m));
    TypeNameSafe(TypeOf(m));
    LabelsFieldShape(m.labels);
    HeadShape(m.name, TypeName(TypeOf(m)), PrintNum(ValueOf(m)), LabelsField(m.labels));
  }

  lemma HeadShape(n: string, t: string, v: string, l: string)
    requires n != "" && OneWord(n) && All(t, NotHash) && All(t, NotNewline)
    requires v != "" && All(v, IsNumChar)
    requires All(l, NotHash) && All(l, NotNewline) && (l != "" ==> !IsSpace(l[|l| - 1]))
    ensures var s := n + (" " + (t + (" " + (v + l))));
            s != "" && !IsSpace(s[0]) && !IsSpace(s[|s| - 1]) && All(s, NotHash) && All(s, NotNewline)
  {
    var tail := v + l;
    var s := n + (" " + (t + (" " + tail)));
    assert tail[|tail| - 1] == if l == "" then v[|v| - 1] else l[|l| - 1];
    assert s[0] == n[0] && s[|s| - 1] == tail[|tail| - 1];
    SafeAppend(v, l);
    SafeAppend(" ", tail);
    SafeAppend(t, " " + tail);
    SafeAppend(" ", t + (" " + tail));
    SafeAppend(n, " " + (t + (" " + tail)));
  }

  lemma SafeAppend(a: string, b: string)
    requires All(a, NotHash) && All(a, NotNewline) && All(b, NotHash) && All(b, NotNewline)
    ensures All(a + b, NotHash) && All(a + b, NotNewline)
  {
  }

  lemma LabelsFieldShape(labels: string)
    requires OneWord(labels)
    ensures All(LabelsField(labels), NotHash) && All(LabelsField(labels), NotNewline)
    ensures LabelsField(labels) != "" ==> !IsSpace(LabelsField(labels)[|LabelsField(labels)| - 1])
  {
    if labels != "" { assert LabelsField(labels)[|LabelsField(labels)| - 1] == labels[|labels| - 1]; }
  }

  lemma TypeNameSafe(t: MetricType)
    ensures TypeName(t) != "" && All(TypeName(t), NotSpace) && All(TypeName(t), NotHash) && All(TypeName(t), NotNewline)
  {
  }

  /** The words of a line whose field text is `fields`. */
  lemma LineWords(line: string, name: string, typ: string, fields: string)
    requires line == name + (" " + (typ + (" " + fields)))
    requires name != "" && All(name, NotSpace) && typ != "" && All(typ, NotSpace)
    requires fields != "" && Trimmed(fields) && All(fields, NotNewline)
    ensures Word(line) == name && Word(AfterWord(line)) == typ && FieldText(line) == fields
  {
    hide Word, AfterWord, Trim;
    WordSeam(name, " " + (typ + (" " + fields)));
    WordSeam(typ, " " + fields);
    TakeAll(" " + fields, NotNewline);
    TrimLeading(fields);
  }

  lemma TrimLeading(fields: string)
    requires fields != "" && Trimmed(fields)
    ensures Trim(" " + fields) == fields
  {
    SpaceThen(fields);
    TrimFixed(fields);
    SpanStops(fields);
  }

  /** The scan of a written line's fields, whatever help text ends it. */
  lemma ScanWritten(m: Metric, help: string, f: Fields)
    requires OneWord(m.labels)
    requires help == "" || help[0] == ' '
    ensures ScanFields(PrintNum(ValueOf(m)) + (LabelsField(m.labels) + help), f)
            == ScanFields(help, if m.labels == "" then WithValue(f, Round6(ValueOf(m)))
                                else WithLabels(WithValue(f, Round6(ValueOf(m))), m.labels))
  {
    hide ScanFields, PrintNum, ParseNum;
    var v := PrintNum(ValueOf(m));
    PrintNumChars(ValueOf(m));
    ParsePrintNum(ValueOf(m));
    assert LabelsField(m.labels) + help == [] || IsSpace((LabelsField(m.labels) + help)[0]);
    ScanValue(v, Round6(ValueOf(m)), LabelsField(m.labels) + help, f);
    ScanLabels(m.labels, help, WithValue(f, Round6(ValueOf(m))));
  }

  /** The fields known when the scan of a written line reaches its help text. */
  function FieldsBeforeHelp(m: Metric): Fields {
    var f := WithValue(Fields(EMPTY_SPEC.(name := m.name, typ := TypeName(TypeOf(m))), false), Round6(ValueOf(m)));
    if m.labels == "" then f else WithLabels(f, m.labels)
  }

  lemma FieldsBeforeHelpSpec(m: Metric)
    ensures FieldsBeforeHelp(m).haveValue && FieldsBeforeHelp(m).spec == SpecWithHelp(m, "")
  {
  }

  lemma KnownType(m: Metric)
    ensures ParseMetricType(TypeName(TypeOf(m))) != Unknown
  {
    ParseTypeName(TypeOf(m));
  }

  /** A written line whose (already cleaned) help part is `help`. */
  lemma ParseWritten(m: Metric, line: string, help: string)
    requires Writable(m)
    requires line == LineHead(m) + help
    requires help == "" || (help[0] == ' ' && !IsSpace(help[|help| - 1]) && All(help, NotNewline))
    ensures ParseSnapshotLine(line)
            == match ScanFields(help, FieldsBeforeHelp(m))
               case Err(e) => Err(e)
               case Ok(f) => if !f.haveValue then Err("snapshot line missing value")
                             else if ParseMetricType(f.spec.typ) == Unknown then Err("unknown metric type: " + f.spec.typ)
                             else Ok(f.spec)
  {
    hide ScanFields, PrintNum, LabelsField, TypeName, ParseMetricType, FieldText, Word, AfterWord;
    var n, t, v, l := m.name, TypeName(TypeOf(m)), PrintNum(ValueOf(m)), LabelsField(m.labels);
    var fields := v + (l + help);
    FoldRight(n, t, v, l, help);
    TypeNameSafe(TypeOf(m));
    FieldsShape(m, help);
    LineWords(line, n, t, fields);
    ScanWritten(m, help, StartFields(line));
  }

  lemma FieldsShape(m: Metric, help: string)
    requires Writable(m)
    requires help == "" || (!IsSpace(help[|help| - 1]) && All(help, NotNewline))
    ensures var fields := PrintNum(ValueOf(m)) + (LabelsField(m.labels) + help);
            fields != "" && Trimmed(fields) && All(fields, NotNewline)
  {
    hide PrintNum;
    PrintNumChars(ValueOf(m));
    var v, l := PrintNum(ValueOf(m)), LabelsField(m.labels);
    var fields := v + (l + help);
    assert fields[0] == v[0];
    assert fields[|fields| - 1] == if help != "" then help[|help| - 1]
                                   else if l != "" then m.labels[|m.labels| - 1] else v[|v| - 1];
    assert All(l, NotNewline);
  }

  lemma HelpMarkerShape(head: string, h: string)
    requires head != "" && !IsSpace(head[0]) && All(head, NotHash)
    ensures var p := head + " help=";
            p != "" && !IsSpace(p[0]) && !IsSpace(p[|p| - 1]) && All(p, NotHash)
    ensures (head + " help=") + h == head + (" help=" + h)
  {
    var p := head + " help=";
    assert p[0] == head[0] && p[|p| - 1] == '=';
    assert All(" help=", NotHash);
  }

  lemma UncommentedWithHelp(m: Metric)
    requires Writable(m) && m.help != ""
    ensures Uncommented(SnapshotLine(m)) == LineHead(m) + (" help=" + KeptHelp(m.help))
  {
    hide LineHead, Uncommented, KeptHelp;
    LineParts(m);
    LineHeadShape(m);
    HelpMarkerShape(LineHead(m), KeptHelp(m.help));
    UncommentedLine(LineHead(m) + " help=", m.help);
  }

  lemma UncommentedPlain(m: Metric)
    requires Writable(m) && m.help == ""
    ensures Uncommented(SnapshotLine(m)) == LineHead(m) + ""
  {
    hide LineHead;
    LineParts(m);
    LineHeadShape(m);
    assert LineHead(m) + "" == LineHead(m);
    UncommentedLine(LineHead(m), "");
    assert KeptHelp("") == "";
  }

  lemma HelpTailShape(h: string)
    requires All(h, NotNewline)
    ensures var tail := " help=" + KeptHelp(h);
            tail[0] == ' ' && !IsSpace(tail[|tail| - 1]) && All(tail, NotNewline)
  {
    var k := KeptHelp(h);
    var tail := " help=" + k;
    assert tail[|tail| - 1] == if k == "" then '=' else k[|k| - 1];
  }

  /** A saved line gives its help text back exactly when that text is safe, and then it gives everything back. */
  lemma LineReloadsIff(m: Metric)
    requires Writable(m)
    ensures LoadedSpec(SnapshotLine(m)).Some? && LoadedSpec(SnapshotLine(m)).value.help == m.help <==> HelpSafe(m.help)
    ensures HelpSafe(m.help) ==> LoadedSpec(SnapshotLine(m)) == Some(SpecWithHelp(m, m.help))
  {
    hide ScanFields, SnapshotLine, LineHead, Uncommented, FieldsBeforeHelp, KeptHelp, ParseSnapshotLine, ParseMetricType, HelpSafe;
    var f := FieldsBeforeHelp(m);
    FieldsBeforeHelpSpec(m);
    KnownType(m);
    LineHeadShape(m);
    if m.help == "" {
      UncommentedPlain(m);
      ParseWritten(m, LineHead(m) + "", "");
      ScanNothing(f);
      NoHelpIsSafe();
    } else {
      var tail := " help=" + KeptHelp(m.help);
      UncommentedWithHelp(m);
      HelpTailShape(m.help);
      ParseWritten(m, LineHead(m) + tail, tail);
      HelpSurvivesIff(m.help, f);
    }
  }

  lemma NoHelpIsSafe()
    ensures HelpSafe("")
  {
  }

  // ---------------------------------------------------------------- the whole file, read back

  ghost predicate SnapshotSafe(c: Contents) {
    forall k :: k in c ==> Writable(c[k]) && HelpSafe(c[k].help)
  }

  /** What a metric is after a save and a load: a histogram comes back empty, with the default buckets. */
  function Reloaded(m: Metric): Metric {
    if m.AHistogram? then EmptyHistogram(m.name, m.help, m.labels, DEFAULT_BOUNDS)
    else m.(value := Round6(m.value))
  }

  function ReloadedAll(c: Contents): Contents { map k | k in c :: Reloaded(c[k]) }

  lemma HeaderSkipped(c: Contents)
    ensures LoadLine(c, HEADER) == c
  {
    SpanIs(HEADER, NotHash, 0);
    assert Uncommented(HEADER) == "";
  }

  // ---------------------------------------------------------------- any labels, any help text

  /** A line up to its value. */
  function ValueHead(m: Metric): string {
    m.name + (" " + (TypeName(TypeOf(m)) + (" " + PrintNum(ValueOf(m)))))
  }

  function TailFields(m: Metric): string { LabelsField(m.labels) + HelpField(m.help) }

  lemma LineAtValue(m: Metric)
    ensures SnapshotLine(m) == ValueHead(m) + TailFields(m)
  {
    hide PrintNum, LabelsField, HelpField, TypeName;
    var n, t, v, f := m.name, TypeName(TypeOf(m)), PrintNum(ValueOf(m)), TailFields(m);
    FoldRight(n, t, v, "", f);
    assert v + ("" + f) == v + f && v + "" == v;
  }

  lemma ValueHeadShape(m: Metric)
    requires OneLine(m)
    ensures var h := ValueHead(m);
            h != "" && !IsSpace(h[0]) && !IsSpace(h[|h| - 1]) && All(h, NotHash) && All(h, NotNewline)
  {
    hide PrintNum, TypeName;
    PrintNumChars(ValueOf(m));
    TypeNameSafe(TypeOf(m));
    var v := PrintNum(ValueOf(m));
    assert v + "" == v;
    HeadShape(m.name, TypeName(TypeOf(m)), v, "");
  }

  lemma SnapshotLineNewlineFree(m: Metric)
    requires OneLine(m)
    ensures All(SnapshotLine(m), NotNewline)
  {
    hide ValueHead, SnapshotLine;
    LineAtValue(m);
    ValueHeadShape(m);
    assert All(LabelsField(m.labels), NotNewline) && All(HelpField(m.help), NotNewline);
  }

  lemma {:induction false} SnapshotLinesNewlineFree(ms: seq<Metric>, n: nat)
    requires n <= |ms| && forall i :: 0 <= i < |ms| ==> OneLine(ms[i])
    ensures forall i :: 0 <= i < |SnapshotLines(ms, n)| ==> All(SnapshotLines(ms, n)[i], NotNewline)
  {
    hide SnapshotLine, OneLine;
    if n == 0 {
      assert All(HEADER, NotNewline);
    } else {
      SnapshotLinesNewlineFree(ms, n - 1);
      SnapshotLineNewlineFree(ms[n - 1]);
    }
  }

  lemma ValueHeadWord(m: Metric, kept: string)
    requires OneLine(m)
    ensures Word(ValueHead(m) + kept) == m.name
  {
    hide Word, PrintNum, TypeName;
    var rest := " " + (TypeName(TypeOf(m)) + (" " + PrintNum(ValueOf(m))));
    assert ValueHead(m) + kept == m.name + (rest + kept);
    WordSeam(m.name, rest + kept);
  }

  /** Whatever its labels and help text, a written line is read under its own name or not at all. */
  lemma WrittenKeepsName(m: Metric)
    requires OneLine(m)
    ensures LoadedSpec(SnapshotLine(m)).Some? ==> LoadedSpec(SnapshotLine(m)).value.name == m.name
  {
    hide ScanFields, SnapshotLine, ValueHead, TailFields, Uncommented, KeptHelp, ParseMetricType, FieldText, Word, AfterWord;
    LineAtValue(m);
    ValueHeadShape(m);
    UncommentedLine(ValueHead(m), TailFields(m));
    var line := ValueHead(m) + KeptHelp(TailFields(m));
    ValueHeadWord(m, KeptHelp(TailFields(m)));
    ScanKeepsBuckets(FieldText(line), StartFields(line));
  }

  /** A help text without a key boundary, once its comment is cut off, costs the line nothing but itself. */
  lemma UncutHelpIsRead(m: Metric)
    requires Writable(m) && HelpEnd(KeptHelp(m.help), 0) == |KeptHelp(m.help)|
    ensures LoadedSpec(SnapshotLine(m)) == Some(SpecWithHelp(m, Trim(KeptHelp(m.help))))
  {
    hide ScanFields, SnapshotLine, LineHead, Uncommented, FieldsBeforeHelp, KeptHelp, ParseSnapshotLine, ParseMetricType, HelpEnd, Trim;
    var f := FieldsBeforeHelp(m);
    FieldsBeforeHelpSpec(m);
    KnownType(m);
    LineHeadShape(m);
    var k := KeptHelp(m.help);
    if m.help == "" {
      UncommentedPlain(m);
      ParseWritten(m, LineHead(m) + "", "");
      ScanNothing(f);
      NothingKept();
    } else {
      UncommentedWithHelp(m);
      HelpTailShape(m.help);
      ParseWritten(m, LineHead(m) + (" help=" + k), " help=" + k);
      ScanHelp(k, f);
      assert k[..|k|] == k && k[|k|..] == [];
      ScanNothing(WithHelp(f, Trim(k)));
    }
  }

  lemma NothingKept()
    ensures KeptHelp("") == "" && Trim("") == ""
  {
  }

  /** What a load over `before` leaves under `k` when `c` was saved: the metric read from its line, if it can be read. */
  function LoadedOver(before: Contents, c: Contents, k: string): Option<Metric> {
    if k in c && LoadedSpec(SnapshotLine(c[k])).Some? then MakeMetric(LoadedSpec(SnapshotLine(c[k])).value)
    else Find(before, k)
  }

  lemma LoadWrittenLine(c: Contents, m: Metric, k: string)
    requires OneLine(m)
    ensures Find(LoadLine(c, SnapshotLine(m)), k)
            == if k == m.name && LoadedSpec(SnapshotLine(m)).Some? then MakeMetric(LoadedSpec(SnapshotLine(m)).value)
               else Find(c, k)
  {
    hide LoadedSpec, MakeMetric, SnapshotLine;
    WrittenKeepsName(m);
    LoadedSpecPlain(SnapshotLine(m));
  }

  lemma {:induction false} LoadWrittenUpTo(c: Contents, ms: seq<Metric>, n: nat, k: string)
    requires n <= |ms| && SortedByName(ms) && forall i :: 0 <= i < |ms| ==> OneLine(ms[i])
    ensures Find(LoadLines(c, SnapshotLines(ms, n)), k) == LoadedOver(c, ContentsUpTo(ms, n), k)
  {
    hide LoadLine, LoadedSpec, MakeMetric, SnapshotLine, OneLine;
    if n == 0 {
      HeaderSkipped(c);
      assert [HEADER][1..] == [];
    } else {
      var m := ms[n - 1];
      LoadWrittenUpTo(c, ms, n - 1, k);
      LoadSnoc(c, SnapshotLines(ms, n - 1), SnapshotLine(m));
      LoadWrittenLine(LoadLines(c, SnapshotLines(ms, n - 1)), m, k);
      NotYet(ms, n - 1, m.name);
    }
  }

  /** Loading a saved registry of one-line metrics, whatever their labels and help texts, name by name. */
  lemma ReloadWritten(before: Contents, c: Contents, k: string)
    requires ValidContents(c) && forall j :: j in c ==> OneLine(c[j])
    ensures Find(LoadText(before, SaveText(c)), k) == LoadedOver(before, c, k)
  {
    hide LoadLines, SnapshotLines, LoadedOver, WellFormed, OneLine, Lines, Unlines;
    var ms := Listing(c);
    forall i | 0 <= i < |ms| ensures OneLine(ms[i]) { assert c[ms[i].name] == ms[i]; }
    SnapshotLinesNewlineFree(ms, |ms|);
    LinesUnlines(SnapshotLines(ms, |ms|));
    LoadWrittenUpTo(before, ms, |ms|, k);
    ContentsUpToAll(c);
  }

  lemma MadeReloaded(m: Metric)
    requires WellFormed(m)
    ensures MakeMetric(SpecWithHelp(m, m.help)) == Some(Reloaded(m))
  {
    hide EmptyHistogram;
    ParseTypeName(TypeOf(m));
    Round6Sign(ValueOf(m));
  }

  /** Loading a saved registry over any registry replaces exactly the saved names, each by its reloaded form. */
  lemma ReloadExact(before: Contents, c: Contents)
    requires ValidContents(c) && SnapshotSafe(c)
    ensures LoadText(before, SaveText(c)) == before + ReloadedAll(c)
  {
    hide LoadText, SaveText, LoadedSpec, SnapshotLine, MakeMetric, Reloaded, HelpSafe, WellFormed;
    forall k ensures Find(LoadText(before, SaveText(c)), k) == Find(before + ReloadedAll(c), k) {
      ReloadWritten(before, c, k);
      if k in c {
        LineReloadsIff(c[k]);
        MadeReloaded(c[k]);
      }
    }
    SameByName(LoadText(before, SaveText(c)), before + ReloadedAll(c));
  }

  /** A histogram is saved as one line that holds, of all it has seen, the number of its finite samples. */
  lemma {:induction false} HistogramSavedByCount(name: string, help: string, labels: string, bounds: seq<Num>, samples: seq<Num>)
    ensures SnapshotLine(ObserveAll(EmptyHistogram(name, help, labels, bounds), samples))
            == name + (" histogram " + (PrintNum(Finite(AtMost(samples, PosInf) as real))
                       + ((if labels == "" then "" else " labels=" + labels) + (if help == "" then "" else " help=" + help))))
  {
    hide PrintNum, ObserveAll, NormalizedBounds, AtMost, SumFinite;
    var start := EmptyHistogram(name, help, labels, bounds);
    var m := ObserveAll(start, samples);
    HistogramStatistics(start, bounds, samples);
    ObservedTexts(start, samples);
    CountJoins(FieldsOf(m));
  }

  lemma CountJoins(fields: string)
    ensures " " + ("histogram" + (" " + fields)) == " histogram " + fields
  {
  }

  // ---------------------------------------------------------------- lossless metrics

  /** A histogram as the daemon creates it when no buckets are configured, before any observation. */
  ghost predicate Pristine(m: Metric)
    requires m.AHistogram?
  {
    m == EmptyHistogram(m.name, m.help, m.labels, DEFAULT_BOUNDS)
  }

  /** A metric survives a save and a load exactly when its value is short, or it is a pristine histogram. */
  lemma ReloadedIff(m: Metric)
    ensures Reloaded(m) == m <==> if m.AHistogram? then Pristine(m) else Short(m.value)
  {
    hide EmptyHistogram;
    if !m.AHistogram? { Round6Exact(m.value); }
  }

  // ---------------------------------------------------------------- keeping the registry valid

  lemma {:induction false} LoadLinesValid(c: Contents, lines: seq<string>)
    requires ValidContents(c)
    ensures ValidContents(LoadLines(c, lines))
    decreases |lines|
  {
    hide LoadedSpec, MakeMetric, WellFormed;
    if lines != [] {
      LoadedSpecPlain(lines[0]);
      if LoadedSpec(lines[0]).Some? { UpsertedValid(c, LoadedSpec(lines[0]).value); }
      LoadLinesValid(LoadLine(c, lines[0]), lines[1..]);
    }
  }

  /** Loading never removes a name. */
  lemma {:induction false} LoadLinesKeeps(c: Contents, lines: seq<string>)
    ensures c.Keys <= LoadLines(c, lines).Keys
    decreases |lines|
  {
    hide LoadedSpec, MakeMetric;
    if lines != [] { LoadLinesKeeps(LoadLine(c, lines[0]), lines[1..]); }
  }
}
