/**
 Exactly which registries a snapshot brings back unchanged. Whatever a file holds, a load can only produce
 metrics the line grammar can carry, so the conditions that suffice for a lossless snapshot are also necessary.
 */
module SnapshotIdentity {
  import opened Text
  import opened Numbers
  import opened NumberText
  import opened Metrics
  import opened Registry
  import opened Snapshot
  import opened SnapshotFile

  ghost predicate Clean(s: string) { All(s, NotHash) && All(s, NotNewline) }

  /** Field values that a line can carry. */
  ghost predicate Carried(labels: string, help: string) {
    OneWord(labels) && HelpSafe(help) && All(help, NotNewline)
  }

  lemma CleanSlice(s: string, lo: nat, hi: nat)
    requires Clean(s) && lo <= hi <= |s|
    ensures Clean(s[lo..hi])
  {
  }

  lemma CleanDropSpace(s: string)
    requires Clean(s)
    ensures Clean(DropSpace(s))
  {
    var n := Span(s, IsSpace);
    CleanSlice(s, n, |s|);
  }

  lemma CleanTake(s: string, p: char -> bool)
    requires Clean(s)
    ensures Clean(Take(s, p)) && Clean(Rest(s, p))
  {
    CleanSlice(s, 0, Span(s, p));
    CleanSlice(s, Span(s, p), |s|);
  }

  /** A slice of a text holds a key boundary only where the text does. */
  lemma CutInside(body: string, lo: nat, hi: nat, i: nat)
    requires lo <= hi <= |body| && i < hi - lo
    requires CutAt(body[lo..hi], i)
    ensures CutAt(body, lo + i)
  {
    var s := body[lo..hi];
    assert s[i - 1] == body[lo + i - 1];
    StartsWithSlice(body, lo, hi, i, LABELS_KEY);
    StartsWithSlice(body, lo, hi, i, VALUE_KEY);
  }

  lemma StartsWithSlice(body: string, lo: nat, hi: nat, i: nat, key: string)
    requires lo <= hi <= |body| && i < hi - lo
    ensures StartsWith(body[lo..hi][i..], key) ==> StartsWith(body[lo + i..], key)
  {
    var s := body[lo..hi];
    if StartsWith(s[i..], key) {
      assert s[i..][..|key|] == s[i..i + |key|] == body[lo + i..lo + i + |key|];
      assert body[lo + i..][..|key|] == body[lo + i..lo + i + |key|];
    }
  }

  /** The help text a scan stores is always safe. */
  lemma ScannedHelpSafe(body: string)
    requires Clean(body)
    ensures var help := Trim(body[..HelpEnd(body, 0)]);
            HelpSafe(help) && All(help, NotNewline)
  {
    var n := HelpEnd(body, 0);
    var cut := body[..n];
    var lo: nat, hi: nat :| lo <= hi <= |cut| && Trim(cut) == cut[lo..hi];
    var help := Trim(cut);
    assert help == body[lo..hi];
    CleanSlice(body, lo, hi);
    forall i | 0 <= i < |help| ensures !CutAt(help, i) {
      if CutAt(help, i) { CutInside(body, lo, hi, i); }
    }
    HelpSafeMeaning(help);
  }

  lemma {:induction false} ScanCarried(s: string, f: Fields)
    requires Clean(s) && Carried(f.spec.labels, f.spec.help)
    ensures ScanFields(s, f).Ok? ==> Carried(ScanFields(s, f).value.spec.labels, ScanFields(s, f).value.spec.help)
    decreases |s|
  {
    hide ParseNum, StartsWith, HelpEnd, Trim, HelpSafe, Clean, OneWord, Take, Rest, DropSpace;
    var t := DropSpace(s);
    CleanDropSpace(s);
    KeyFits(t);
    if t == [] {
    } else if StartsWith(t, HELP_KEY) {
      ScanCarriedHelp(t, f);
      var n := HelpEnd(t[5..], 0);
      ScanCarried(t[5..][n..], WithHelp(f, Trim(t[5..][..n])));
    } else if StartsWith(t, LABELS_KEY) {
      ScanCarriedWord(t, 7);
      ScanCarried(Rest(t[7..], NotSpace), WithLabels(f, Take(t[7..], NotSpace)));
    } else if StartsWith(t, VALUE_KEY) {
      ScanCarriedWord(t, 6);
      match ParseNum(Take(t[6..], NotSpace))
      case None =>
      case Some(x) => ScanCarried(Rest(t[6..], NotSpace), WithValue(f, x));
    } else {
      ScanCarriedWord(t, 0);
      TokenNonempty(t);
      match ParseNum(Take(t, NotSpace))
      case None =>
      case Some(x) => ScanCarried(Rest(t, NotSpace), WithValue(f, x));
    }
  }

  lemma ScanCarriedHelp(t: string, f: Fields)
    requires Clean(t) && |t| >= 5
    ensures var n := HelpEnd(t[5..], 0);
            var help := Trim(t[5..][..n]);
            HelpSafe(help) && All(help, NotNewline) && Clean(t[5..][n..]) && |t[5..][n..]| < |t|
  {
    hide Trim;
    CleanSlice(t, 5, |t|);
    assert t[5..|t|] == t[5..];
    ScannedHelpSafe(t[5..]);
    var n := HelpEnd(t[5..], 0);
    CleanSlice(t[5..], n, |t[5..]|);
  }

  lemma ScanCarriedWord(t: string, k: nat)
    requires Clean(t) && |t| >= k
    ensures OneWord(Take(t[k..], NotSpace)) && Clean(Rest(t[k..], NotSpace))
    ensures t[0..] == t
  {
    CleanSlice(t, k, |t|);
    assert t[k..|t|] == t[k..];
    CleanTake(t[k..], NotSpace);
  }

  /** Anything a line loads is something a line can carry. */
  lemma LoadedIsCarried(raw: string)
    requires All(raw, NotNewline)
    ensures LoadedSpec(raw).Some? ==>
              var spec := LoadedSpec(raw).value;
              spec.name != "" && OneWord(spec.name) && Carried(spec.labels, spec.help)
  {
    hide ScanFields, ParseMetricType, Trim, Take, Rest, DropSpace, HelpSafe;
    var line := Uncommented(raw);
    UncommentedClean(raw);
    LineWordsClean(line);
    NoHelpIsSafe();
    ScanCarried(FieldText(line), StartFields(line));
    ScanKeepsBuckets(FieldText(line), StartFields(line));
  }

  lemma UncommentedClean(raw: string)
    requires All(raw, NotNewline)
    ensures Clean(Uncommented(raw))
  {
    var t := Take(raw, NotHash);
    assert Clean(t);
    var lo: nat, hi: nat :| lo <= hi <= |t| && Trim(t) == t[lo..hi];
    CleanSlice(t, lo, hi);
  }

  lemma LineWordsClean(line: string)
    requires Clean(line)
    ensures OneWord(Word(line)) && Clean(FieldText(line))
  {
    hide Trim, Take, Rest, DropSpace, Clean;
    CleanDropSpace(line);
    CleanTake(DropSpace(line), NotSpace);
    WordIsWord(DropSpace(line));
    var a := AfterWord(line);
    CleanDropSpace(a);
    CleanTake(DropSpace(a), NotSpace);
    CleanTake(AfterWord(a), NotNewline);
    TrimClean(FirstLine(AfterWord(a)));
  }

  lemma WordIsWord(s: string)
    requires Clean(Take(s, NotSpace))
    ensures OneWord(Take(s, NotSpace))
  {
  }

  lemma TrimClean(s: string)
    requires Clean(s)
    ensures Clean(Trim(s))
  {
    var lo: nat, hi: nat :| lo <= hi <= |s| && Trim(s) == s[lo..hi];
    CleanSlice(s, lo, hi);
  }

  // ---------------------------------------------------------------- every loaded registry

  /** What a load can produce. */
  ghost predicate CarriedMetric(m: Metric) {
    Writable(m) && HelpSafe(m.help) && (m.AHistogram? ==> Pristine(m))
  }

  lemma MadeIsCarried(raw: string)
    requires All(raw, NotNewline) && LoadedSpec(raw).Some?
    ensures var spec := LoadedSpec(raw).value;
            Accepts(spec) && CarriedMetric(MakeMetric(spec).value) && MakeMetric(spec).value.name == spec.name
  {
    hide LoadedSpec, HelpSafe, NormalizedBounds, ParseMetricType;
    LoadedIsCarried(raw);
    LoadedSpecPlain(raw);
  }

  lemma {:induction false} LoadedRegistryCarried(c: Contents, lines: seq<string>)
    requires forall k :: k in c ==> c[k].name == k && CarriedMetric(c[k])
    requires forall i :: 0 <= i < |lines| ==> All(lines[i], NotNewline)
    ensures forall k :: k in LoadLines(c, lines) ==> CarriedMetric(LoadLines(c, lines)[k])
    decreases |lines|
  {
    hide LoadedSpec, MakeMetric, CarriedMetric;
    if lines != [] {
      if LoadedSpec(lines[0]).Some? { MadeIsCarried(lines[0]); }
      LoadedRegistryCarried(LoadLine(c, lines[0]), lines[1..]);
    }
  }

  /** A metric comes through a snapshot unchanged. */
  ghost predicate Lossless(m: Metric) {
    Writable(m) && HelpSafe(m.help) && (if m.AHistogram? then Pristine(m) else Short(m.value))
  }

  /** A saved registry loads back as itself exactly when every metric in it is lossless. */
  lemma SnapshotIdentityIff(c: Contents)
    requires ValidContents(c)
    ensures LoadText(map[], SaveText(c)) == c <==> forall k :: k in c ==> Lossless(c[k])
  {
    hide LoadLines, SaveText, HelpSafe, Writable, WellFormed, Lines, Reloaded, Pristine, Short;
    var text := SaveText(c);
    if LoadText(map[], text) == c {
      LinesNewlineFree(text);
      LoadedRegistryCarried(map[], Lines(text));
    }
    if forall k :: k in c ==> Writable(c[k]) && HelpSafe(c[k].help) {
      ReloadExact(map[], c);
      forall k | k in c ensures Reloaded(c[k]) == c[k] <==> (if c[k].AHistogram? then Pristine(c[k]) else Short(c[k].value)) {
        ReloadedIff(c[k]);
      }
      assert map[] + ReloadedAll(c) == ReloadedAll(c);
    }
  }

  /** One written line gives its specification back exactly when the grammar can carry its labels and its help. */
  lemma LineIdentityIff(m: Metric)
    requires OneLine(m)
    ensures LoadedSpec(SnapshotLine(m)) == Some(SpecWithHelp(m, m.help)) <==> OneWord(m.labels) && HelpSafe(m.help)
  {
    hide LoadedSpec, SnapshotLine, HelpSafe;
    SnapshotLineNewlineFree(m);
    LoadedIsCarried(SnapshotLine(m));
    if OneWord(m.labels) { LineReloadsIff(m); }
  }

  // ---------------------------------------------------------------- labels that are not one word

  /** Labels with white space or a comment mark never come back, whatever the rest of the registry holds. */
  lemma SpacedLabelsAreLost(c: Contents, k: string)
    requires ValidContents(c) && k in c && !OneWord(c[k].labels)
    ensures var r := LoadText(map[], SaveText(c)); k !in r || r[k].labels != c[k].labels
  {
    hide LoadLines, SaveText, HelpSafe, WellFormed, Lines;
    LinesNewlineFree(SaveText(c));
    LoadedRegistryCarried(map[], Lines(SaveText(c)));
  }

  /** A word that is no field of its own. */
  predicate NoKey(b: string) {
    b != "" && !StartsWith(b, HELP_KEY) && !StartsWith(b, LABELS_KEY) && !StartsWith(b, VALUE_KEY)
  }

  lemma LabelsFieldJoins(a: string, rest: string)
    requires a != ""
    ensures LabelsField(a + rest) == LabelsField(a) + rest
  {
    assert |a + rest| > 0;
    JoinAssociates(" labels=", a, rest);
  }

  lemma JoinAssociates(p: string, a: string, b: string)
    ensures p + (a + b) == (p + a) + b
  {
  }

  lemma WordEnds(p: string, b: string)
    requires b != "" && OneWord(b)
    ensures var s := p + (" " + b); s != "" && !IsSpace(s[|s| - 1])
    ensures All(b, NotHash) && All(b, NotNewline)
  {
    var s := p + (" " + b);
    assert s[|s| - 1] == b[|b| - 1];
  }

  lemma TwoWordTail(a: string, b: string)
    requires a != "" && OneWord(a) && OneWord(b) && b != ""
    ensures var tail := LabelsField(a) + (" " + b);
            && LabelsField(a + (" " + b)) == tail && tail != "" && !IsSpace(tail[|tail| - 1])
            && All(tail, NotHash) && All(tail, NotNewline)
  {
    LabelsFieldJoins(a, " " + b);
    WordEnds(LabelsField(a), b);
    LabelsFieldShape(a);
    hide OneWord, LabelsField;
    SafeAppend(" ", b);
    SafeAppend(LabelsField(a), " " + b);
  }

  /** The line, and how its fields read. */
  lemma TwoWordLine(m: Metric, tail: string)
    requires OneLine(m) && TailFields(m) == tail
    requires tail != "" && !IsSpace(tail[|tail| - 1]) && All(tail, NotHash) && All(tail, NotNewline)
    ensures Uncommented(SnapshotLine(m)) == SnapshotLine(m)
    ensures SnapshotLine(m) == m.name + (" " + (TypeName(TypeOf(m)) + (" " + (PrintNum(ValueOf(m)) + tail))))
  {
    hide PrintNum, TypeName, Uncommented, KeptHelp, SnapshotLine, TailFields;
    var v := PrintNum(ValueOf(m));
    LineAtValue(m);
    ValueHeadShape(m);
    UncommentedLine(ValueHead(m), tail);
    KeptHelpFixed(tail);
    FoldRight(m.name, TypeName(TypeOf(m)), v, "", tail);
    assert v + ("" + tail) == v + tail && v + "" == v;
  }

  lemma ValueThenTail(v: string, tail: string)
    requires v != "" && All(v, IsNumChar) && tail != "" && !IsSpace(tail[|tail| - 1]) && All(tail, NotNewline)
    ensures var fields := v + tail; fields != "" && Trimmed(fields) && All(fields, NotNewline)
  {
    var fields := v + tail;
    assert fields[0] == v[0] && fields[|fields| - 1] == tail[|tail| - 1];
    assert All(v, NotNewline);
  }

  lemma TwoWordFields(m: Metric, a: string, b: string)
    requires OneLine(m) && m.help == "" && m.labels == a + (" " + b)
    requires a != "" && OneWord(a) && OneWord(b) && b != ""
    ensures Uncommented(SnapshotLine(m)) == SnapshotLine(m)
    ensures Word(SnapshotLine(m)) == m.name && Word(AfterWord(SnapshotLine(m))) == TypeName(TypeOf(m))
    ensures FieldText(SnapshotLine(m)) == PrintNum(ValueOf(m)) + (LabelsField(a) + (" " + b))
  {
    hide PrintNum, TypeName, Uncommented, SnapshotLine, LabelsField, Word, AfterWord, FieldText;
    var tail := LabelsField(a) + (" " + b);
    TwoWordTail(a, b);
    assert TailFields(m) == tail + "" == tail;
    TwoWordLine(m, tail);
    PrintNumChars(ValueOf(m));
    TypeNameSafe(TypeOf(m));
    ValueThenTail(PrintNum(ValueOf(m)), tail);
    LineWords(SnapshotLine(m), m.name, TypeName(TypeOf(m)), PrintNum(ValueOf(m)) + tail);
  }

  lemma ScanSecondWord(b: string, f: Fields)
    requires OneWord(b) && NoKey(b)
    ensures Snapshot.ScanFields(" " + b, f)
            == match ParseNum(b)
               case None => Err("snapshot trailing field must be a number or help=/labels=/value=")
               case Some(x) => Ok(WithValue(f, x))
  {
    hide ParseNum, StartsWith, HelpEnd, Trim;
    SpaceThen(b);
    SpanStops(b);
    TakeAll(b, NotSpace);
    match ParseNum(b)
    case None =>
    case Some(x) => ScanNothing(WithValue(f, x));
  }

  /**
   Labels of two words: the second is read as the value when it starts like a number, and otherwise the whole metric
   is unreadable.
   */
  lemma {:induction false} TwoWordLabels(m: Metric, a: string, b: string)
    requires OneLine(m) && m.help == "" && m.labels == a + (" " + b)
    requires a != "" && OneWord(a) && OneWord(b) && NoKey(b)
    ensures LoadedSpec(SnapshotLine(m))
            == match ParseNum(b)
               case None => None
               case Some(x) => Some(MetricSpec(m.name, TypeName(TypeOf(m)), "", x, a, []))
  {
    hide ScanFields, PrintNum, ParseNum, TypeName, SnapshotLine, Uncommented, FieldText, Word, AfterWord, LabelsField, ParseMetricType, StartsWith;
    TwoWordFields(m, a, b);
    TwoWordStart(m);
    var f := StartFields(SnapshotLine(m));
    PrintNumChars(ValueOf(m));
    ParsePrintNum(ValueOf(m));
    LabelsFieldStart(a, " " + b);
    ScanValue(PrintNum(ValueOf(m)), Round6(ValueOf(m)), LabelsField(a) + (" " + b), f);
    ScanLabels(a, " " + b, WithValue(f, Round6(ValueOf(m))));
    ScanSecondWord(b, WithLabels(WithValue(f, Round6(ValueOf(m))), a));
    KnownType(m);
    TypeNameSafe(TypeOf(m));
  }

  lemma LabelsFieldStart(a: string, rest: string)
    requires rest != "" && IsSpace(rest[0])
    ensures IsSpace((LabelsField(a) + rest)[0])
  {
  }

  lemma TwoWordStart(m: Metric)
    requires OneLine(m)
    ensures SnapshotLine(m) != ""
  {
    hide ValueHead;
    LineAtValue(m);
    ValueHeadShape(m);
  }

  /** A registry of one gauge. */
  function OneGauge(labels: string, x: real): Contents { map["x" := AGauge("x", "", labels, Finite(x))] }

  lemma OneGaugeReloads(labels: string, a: string, b: string, x: real)
    requires labels == a + (" " + b) && a != "" && OneWord(a) && OneWord(b) && NoKey(b)
    ensures ValidContents(OneGauge(labels, x))
    ensures LoadText(map[], SaveText(OneGauge(labels, x)))
            == match ParseNum(b) case None => map[] case Some(y) => map["x" := AGauge("x", "", a, y)]
  {
    hide LoadText, SaveText, LoadedSpec, SnapshotLine, ParseNum, NoKey;
    var c := OneGauge(labels, x);
    var m := c["x"];
    var r := match ParseNum(b) case None => map[] case Some(y) => map["x" := AGauge("x", "", a, y)];
    TwoWordLabels(m, a, b);
    ParseTypeName(Gauge);
    forall k ensures Find(LoadText(map[], SaveText(c)), k) == Find(r, k) { ReloadWritten(map[], c, k); }
    SameByName(LoadText(map[], SaveText(c)), r);
  }

  /** A gauge of value 7 labelled `range="1 2"` comes back with value 2. */
  lemma SpacedLabelChangesValue()
    ensures ValidContents(OneGauge("range=\"1 2\"", 7.0))
    ensures LoadText(map[], SaveText(OneGauge("range=\"1 2\"", 7.0))) == map["x" := AGauge("x", "", "range=\"1", Finite(2.0))]
  {
    hide LoadText, SaveText, ParseNum;
    var a, b := "range=\"1", "2\"";
    assert "range=\"1 2\"" == a + (" " + b);
    NoKeyFirst(b);
    TwoThenQuote();
    OneGaugeReloads("range=\"1 2\"", a, b, 7.0);
  }

  /** A gauge labelled `a="b c"` does not come back at all. */
  lemma SpacedLabelDropsMetric()
    ensures ValidContents(OneGauge("a=\"b c\"", 7.0))
    ensures LoadText(map[], SaveText(OneGauge("a=\"b c\"", 7.0))) == map[]
  {
    hide LoadText, SaveText, ParseNum;
    var a, b := "a=\"b", "c\"";
    assert "a=\"b c\"" == a + (" " + b);
    NoKeyFirst(b);
    LetterThenQuote();
    OneGaugeReloads("a=\"b c\"", a, b, 7.0);
  }

  lemma NoKeyFirst(b: string)
    requires b != "" && b[0] != 'h' && b[0] != 'l' && b[0] != 'v'
    ensures NoKey(b)
  {
    StartsWithFirst(b, HELP_KEY);
    StartsWithFirst(b, LABELS_KEY);
    StartsWithFirst(b, VALUE_KEY);
  }

  /** `std::stod` stops at the quote. */
  lemma TwoThenQuote()
    ensures ParseNum("2\"") == Some(Finite(2.0))
  {
    var s := "2\"";
    SpanIs(s, IsSpace, 0);
    assert DropSpace(s) == s;
    assert !StartsWithIgnoringCase(s, "inf") && !StartsWithIgnoringCase(s, "nan");
    SpanIs(s, IsDigit, 1);
    assert Take(s, IsDigit) == "2" && Rest(s, IsDigit) == "\"";
    assert FractionOf("\"") == "" && AfterFraction("\"") == "\"" && ParseExponent("\"") == 0;
    assert "2" + "" == "2";
    assert NatOf("2") == 2 by { assert NatOf("") == 0; assert "2"[..0] == ""; }
    assert ParseDecimal(s) == Some(Decimal(2, 0));
    assert Pow10(0) == 1.0;
  }

  lemma LetterThenQuote()
    ensures ParseNum("c\"") == None
  {
    var s := "c\"";
    SpanIs(s, IsSpace, 0);
    assert DropSpace(s) == s;
    assert !StartsWithIgnoringCase(s, "inf") && !StartsWithIgnoringCase(s, "nan");
    SpanIs(s, IsDigit, 0);
    assert Take(s, IsDigit) == "" && Rest(s, IsDigit) == s;
  }
}
