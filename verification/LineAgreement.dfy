/**
 The snapshot line and the `metric` line of the configuration share a grammar except for `buckets=`. This module says
 exactly on which lines the two parsers agree.
 */
module LineAgreement {
  import opened Text
  import opened Numbers
  import opened NumberText
  import opened Metrics
  import opened ConfigLine
  import Snapshot
  import SnapshotFile

  /** What the snapshot parser remembers of the same scan. */
  function Flagged(f: Fields): Snapshot.Fields { Snapshot.Fields(f.spec, f.values > 0) }

  lemma HelpFits(t: string)
    requires StartsWith(t, HELP_KEY)
    ensures |t| >= 5
  {
  }

  lemma ValueFits(t: string)
    requires StartsWith(t, VALUE_KEY)
    ensures |t| >= 6
  {
  }

  lemma LabelsFit(t: string)
    requires StartsWith(t, LABELS_KEY)
    ensures |t| >= 7
  {
  }

  lemma BucketsFit(t: string)
    requires StartsWith(t, BUCKETS_KEY)
    ensures |t| >= 8
  {
  }

  // ---------------------------------------------------------------- where a scan meets the key

  /**
   How a scan first meets `buckets=`: not at all, as a field of its own, or inside what the snapshot parser takes for
   help text. In the last case, what follows that longer help text, and the fields known there.
   */
  datatype Meeting = NoBuckets | AtField | InHelp(rest: string, f: Fields)

  function Meets(s: string, f: Fields): (m: Meeting)
    ensures m.InHelp? ==> |m.rest| < |s|
    decreases |s|
  {
    var t := DropSpace(s);
    if t == [] then NoBuckets
    else if StartsWith(t, HELP_KEY) then
      var n, whole := HelpEnd(t[5..], 0), Snapshot.HelpEnd(t[5..], 0);
      if n == whole then Meets(t[5..][n..], WithHelp(f, Trim(t[5..][..n])))
      else InHelp(t[5..][whole..], WithHelp(f, Trim(t[5..][..whole])))
    else if StartsWith(t, LABELS_KEY) then
      Meets(Rest(t[7..], NotSpace), WithLabels(f, Take(t[7..], NotSpace)))
    else if StartsWith(t, BUCKETS_KEY) then AtField
    else if StartsWith(t, VALUE_KEY) then
      match ParseNum(Take(t[6..], NotSpace))
      case None => NoBuckets
      case Some(x) => Meets(Rest(t[6..], NotSpace), WithValue(f, x))
    else
      match ParseNum(Take(t, NotSpace))
      case None => NoBuckets
      case Some(x) => Meets(Rest(t, NotSpace), WithValue(f, x))
  }

  lemma HelpEndsEarlier(body: string, i: nat)
    requires i <= |body|
    ensures HelpEnd(body, i) <= Snapshot.HelpEnd(body, i)
    ensures HelpEnd(body, i) < Snapshot.HelpEnd(body, i) ==> StartsWith(body[HelpEnd(body, i)..], BUCKETS_KEY)
    decreases |body| - i
  {
    hide StartsWith;
    if i < |body| && !CutAt(body, i) { HelpEndsEarlier(body, i + 1); }
  }

  /** Bounds that have been set stay set. */
  lemma {:induction false} BoundsStay(s: string, f: Fields)
    requires f.spec.buckets != []
    ensures ScanFields(s, f).Ok? ==> ScanFields(s, f).value.spec.buckets != []
    decreases |s|
  {
    hide ParseNum, StartsWith, HelpEnd, Trim, ParseBounds;
    var t := DropSpace(s);
    if t == [] {
    } else if StartsWith(t, HELP_KEY) {
      HelpFits(t);
      BoundsStay(t[5..][HelpEnd(t[5..], 0)..], WithHelp(f, Trim(t[5..][..HelpEnd(t[5..], 0)])));
    } else if StartsWith(t, LABELS_KEY) {
      LabelsFit(t);
      BoundsStay(Rest(t[7..], NotSpace), WithLabels(f, Take(t[7..], NotSpace)));
    } else if StartsWith(t, BUCKETS_KEY) {
      BucketsFit(t);
      match ParseBounds(Take(t[8..], NotSpace))
      case None =>
      case Some(bounds) => if bounds != [] { BoundsStay(Rest(t[8..], NotSpace), WithBuckets(f, bounds)); }
    } else {
      if StartsWith(t, VALUE_KEY) { ValueFits(t); }
      var body := if StartsWith(t, VALUE_KEY) then t[6..] else t;
      if body == t { Snapshot.TokenNonempty(t); }
      match ParseNum(Take(body, NotSpace))
      case None =>
      case Some(x) => BoundsStay(Rest(body, NotSpace), WithValue(f, x));
    }
  }

  /** Text that starts with the key leaves bounds behind, or fails. */
  lemma KeySetsBounds(s: string, f: Fields)
    requires StartsWith(s, BUCKETS_KEY)
    ensures ScanFields(s, f).Ok? ==> ScanFields(s, f).value.spec.buckets != []
  {
    hide ParseNum, ParseBounds, HelpEnd, Trim;
    KeyIsField(s);
    BucketsFit(s);
    match ParseBounds(Take(s[8..], NotSpace))
    case None =>
    case Some(bounds) => if bounds != [] { BoundsStay(Rest(s[8..], NotSpace), WithBuckets(f, bounds)); }
  }

  lemma KeyIsField(s: string)
    requires StartsWith(s, BUCKETS_KEY)
    ensures DropSpace(s) == s && s != [] && s[0] == 'b'
    ensures !StartsWith(s, HELP_KEY) && !StartsWith(s, LABELS_KEY) && !StartsWith(s, VALUE_KEY)
  {
    StartsWithFirst(s, BUCKETS_KEY);
    StartsWithFirst(s, HELP_KEY);
    StartsWithFirst(s, LABELS_KEY);
    StartsWithFirst(s, VALUE_KEY);
    Snapshot.SpanStops(s);
  }

  /** The snapshot parser takes the key for a value and fails. */
  lemma SnapshotRefusesKey(s: string, f: Fields)
    requires StartsWith(s, BUCKETS_KEY)
    ensures Snapshot.ScanFields(s, Flagged(f)).Err?
  {
    hide ParseNum, Snapshot.HelpEnd, Trim;
    KeyIsField(s);
    Snapshot.TokenNonempty(s);
    assert Take(s, NotSpace)[0] == 'b';
    NotANumber(Take(s, NotSpace));
  }

  lemma NotANumber(token: string)
    requires token != "" && token[0] == 'b'
    ensures ParseNum(token) == None
  {
    SpanIs(token, IsSpace, 0);
    assert DropSpace(token) == token;
    assert !StartsWithIgnoringCase(token, "inf") && !StartsWithIgnoringCase(token, "nan");
    SpanIs(token, IsDigit, 0);
    assert Take(token, IsDigit) == "" && Rest(token, IsDigit) == token;
  }

  /** At a valid `buckets=` field the configuration parser goes on and the snapshot parser gives up. */
  lemma BucketsDisagree(t: string, f: Fields, bounds: seq<Num>)
    requires StartsWith(t, BUCKETS_KEY)
    requires ParseBounds(Take(t[8..], NotSpace)) == Some(bounds) && bounds != []
    ensures ScanFields(t, f) == ScanFields(Rest(t[8..], NotSpace), WithBuckets(f, bounds))
    ensures Snapshot.ScanFields(t, Flagged(f)).Err?
  {
    hide ParseNum, ParseBounds, HelpEnd, Trim, Snapshot.ScanFields;
    KeyIsField(t);
    SnapshotRefusesKey(t, f);
  }

  /** Both scans, from the place where they meet the key. */
  ghost predicate Outcomes(c: Result<Fields>, s: Result<Snapshot.Fields>, m: Meeting, before: seq<Num>) {
    match m
    case NoBuckets =>
      && (c.Ok? <==> s.Ok?)
      && (c.Ok? ==> s == Ok(Flagged(c.value)) && c.value.spec.buckets == before)
    case AtField => s.Err? && (c.Ok? ==> c.value.spec.buckets != [])
    case InHelp(rest, f) => s == Snapshot.ScanFields(rest, Flagged(f)) && (c.Ok? ==> c.value.spec.buckets != [])
  }

  lemma {:induction false} ScanOutcomes(s: string, f: Fields)
    ensures Outcomes(ScanFields(s, f), Snapshot.ScanFields(s, Flagged(f)), Meets(s, f), f.spec.buckets)
    decreases |s|, 1
  {
    hide StartsWith, Trim, ParseNum, HelpEnd, Snapshot.HelpEnd, ParseBounds;
    var t := DropSpace(s);
    ScanSkips(s, f);
    Snapshot.ScanSkips(s, Flagged(f));
    if t == [] {
    } else if StartsWith(t, HELP_KEY) {
      HelpOutcomes(s, t, f);
    } else if StartsWith(t, LABELS_KEY) {
      LabelsFit(t);
      ScanOutcomes(Rest(t[7..], NotSpace), WithLabels(f, Take(t[7..], NotSpace)));
    } else if StartsWith(t, BUCKETS_KEY) {
      KeySetsBounds(t, f);
      SnapshotRefusesKey(t, f);
    } else {
      ValueOutcomes(s, t, f);
    }
  }

  lemma HelpOutcomes(s: string, t: string, f: Fields)
    requires t == DropSpace(s) && t != [] && StartsWith(t, HELP_KEY)
    ensures Outcomes(ScanFields(s, f), Snapshot.ScanFields(s, Flagged(f)), Meets(s, f), f.spec.buckets)
    decreases |s|, 0
  {
    hide StartsWith, Trim, ParseNum, HelpEnd, Snapshot.HelpEnd, ParseBounds;
    HelpFits(t);
    HelpEndsEarlier(t[5..], 0);
    var n := HelpEnd(t[5..], 0);
    var g := WithHelp(f, Trim(t[5..][..n]));
    if n == Snapshot.HelpEnd(t[5..], 0) {
      ScanOutcomes(t[5..][n..], g);
    } else {
      KeySetsBounds(t[5..][n..], g);
    }
  }

  lemma ValueOutcomes(s: string, t: string, f: Fields)
    requires t == DropSpace(s) && t != []
    requires !StartsWith(t, HELP_KEY) && !StartsWith(t, LABELS_KEY) && !StartsWith(t, BUCKETS_KEY)
    ensures Outcomes(ScanFields(s, f), Snapshot.ScanFields(s, Flagged(f)), Meets(s, f), f.spec.buckets)
    decreases |s|, 0
  {
    hide StartsWith, Trim, ParseNum, HelpEnd, Snapshot.HelpEnd, ParseBounds;
    if StartsWith(t, VALUE_KEY) { ValueFits(t); }
    var body := if StartsWith(t, VALUE_KEY) then t[6..] else t;
    if body == t { Snapshot.TokenNonempty(t); }
    match ParseNum(Take(body, NotSpace))
    case None =>
    case Some(x) => ScanOutcomes(Rest(body, NotSpace), WithValue(f, x));
  }

  // ---------------------------------------------------------------- whole lines

  lemma SameFieldText(line: string)
    ensures FieldText(line) == Snapshot.FieldText(line)
  {
  }

  function LineMeets(line: string): Meeting { Meets(FieldText(line), StartFields(line)) }

  lemma LineOutcomes(line: string)
    ensures Outcomes(ScanFields(FieldText(line), StartFields(line)),
                     Snapshot.ScanFields(Snapshot.FieldText(line), Snapshot.StartFields(line)), LineMeets(line), [])
  {
    hide ScanFields, Snapshot.ScanFields, Meets, FieldText, Snapshot.FieldText, Word, AfterWord;
    SameFieldText(line);
    ScanOutcomes(FieldText(line), StartFields(line));
  }

  /** Snapshot specifications carry no bounds. */
  lemma SnapshotHasNoBounds(line: string)
    ensures Snapshot.ParseSnapshotLine(line).Ok? ==> Snapshot.ParseSnapshotLine(line).value.buckets == []
  {
    hide Snapshot.ScanFields, Snapshot.FieldText, ParseMetricType, Word, AfterWord;
    SnapshotFile.ScanKeepsBuckets(Snapshot.FieldText(line), Snapshot.StartFields(line));
  }

  /**
   On a line the configuration parser accepts, the snapshot parser builds the same specification exactly when a value
   was read and no bounds were set.
   */
  lemma {:induction false} ParsersAgreeIff(line: string)
    requires ParseMetricLine(line).Ok?
    ensures Snapshot.ParseSnapshotLine(line) == Ok(ParseMetricLine(line).value.spec)
            <==> ParseMetricLine(line).value.values > 0 && ParseMetricLine(line).value.spec.buckets == []
  {
    hide ScanFields, Snapshot.ScanFields, FieldText, Snapshot.FieldText, ParseMetricType, Word, AfterWord, Meets;
    LineOutcomes(line);
    SnapshotHasNoBounds(line);
  }

  /**
   The fields suit the snapshot parser, in terms of the configuration scan and the key alone: the scan never meets the
   key outside help text, and the last stretch, behind the last help text that holds it, scans and has read a value.
   */
  predicate Survives(s: string, f: Fields)
    decreases |s|
  {
    match Meets(s, f)
    case NoBuckets => ScanFields(s, f).Ok? && ScanFields(s, f).value.values > 0
    case AtField => false
    case InHelp(rest, g) => Survives(rest, g)
  }

  lemma {:induction false} SurvivesIff(s: string, f: Fields)
    ensures Survives(s, f) <==> Snapshot.ScanFields(s, Flagged(f)).Ok? && Snapshot.ScanFields(s, Flagged(f)).value.haveValue
    decreases |s|
  {
    hide ScanFields, Snapshot.ScanFields, Meets;
    ScanOutcomes(s, f);
    match Meets(s, f)
    case NoBuckets =>
    case AtField =>
    case InHelp(rest, g) => SurvivesIff(rest, g);
  }

  /** On every line, whatever the configuration parser says of it, the snapshot parser accepts exactly when its fields survive. */
  lemma {:induction false} SnapshotAcceptsIff(line: string)
    ensures Snapshot.ParseSnapshotLine(line).Ok?
            <==> Word(line) != "" && Word(AfterWord(line)) != "" && ParseMetricType(Word(AfterWord(line))) != Unknown
                 && Survives(FieldText(line), StartFields(line))
  {
    hide ScanFields, Snapshot.ScanFields, FieldText, Snapshot.FieldText, ParseMetricType, Word, AfterWord, Survives;
    SameFieldText(line);
    SurvivesIff(FieldText(line), StartFields(line));
    SnapshotFile.ScanKeepsBuckets(Snapshot.FieldText(line), Snapshot.StartFields(line));
  }

  /**
   On a line the configuration parser rejects, the snapshot parser accepts exactly when the type is known, the key
   first turns up inside a help text, and the fields behind that help text survive.
   */
  lemma {:induction false} RejectedLineIff(line: string)
    requires ParseMetricLine(line).Err?
    ensures Snapshot.ParseSnapshotLine(line).Ok?
            <==> Word(line) != "" && Word(AfterWord(line)) != "" && ParseMetricType(Word(AfterWord(line))) != Unknown
                 && LineMeets(line).InHelp? && Survives(LineMeets(line).rest, LineMeets(line).f)
  {
    hide ScanFields, Snapshot.ScanFields, FieldText, Snapshot.FieldText, ParseMetricType, Word, AfterWord, Meets;
    SnapshotAcceptsIff(line);
    TypeStays(FieldText(line), StartFields(line));
  }

  /** A scan keeps the type it started with, whatever fields follow. */
  lemma {:induction false} TypeStays(s: string, f: Fields)
    ensures ScanFields(s, f).Ok? ==> ScanFields(s, f).value.spec.typ == f.spec.typ
    decreases |s|
  {
    hide ParseNum, StartsWith, HelpEnd, Trim, ParseBounds;
    var t := DropSpace(s);
    if t == [] {
    } else if StartsWith(t, HELP_KEY) {
      HelpFits(t);
      TypeStays(t[5..][HelpEnd(t[5..], 0)..], WithHelp(f, Trim(t[5..][..HelpEnd(t[5..], 0)])));
    } else if StartsWith(t, LABELS_KEY) {
      LabelsFit(t);
      TypeStays(Rest(t[7..], NotSpace), WithLabels(f, Take(t[7..], NotSpace)));
    } else if StartsWith(t, BUCKETS_KEY) {
      BucketsFit(t);
      match ParseBounds(Take(t[8..], NotSpace))
      case None =>
      case Some(bounds) => if bounds != [] { TypeStays(Rest(t[8..], NotSpace), WithBuckets(f, bounds)); }
    } else {
      if StartsWith(t, VALUE_KEY) { ValueFits(t); }
      var body := if StartsWith(t, VALUE_KEY) then t[6..] else t;
      if body == t { Snapshot.TokenNonempty(t); }
      match ParseNum(Take(body, NotSpace))
      case None =>
      case Some(x) => TypeStays(Rest(body, NotSpace), WithValue(f, x));
    }
  }

  // ---------------------------------------------------------------- lines without the key

  lemma NoKeyInTail(s: string, i: nat, key: string)
    requires i <= |s|
    ensures Contains(s[i..], key) ==> Contains(s, key)
  {
    if Contains(s[i..], key) { assert s[i..] == s[i..|s|]; ContainsSlice(s, i, |s|, key); }
  }

  lemma FieldTextContains(line: string, key: string)
    requires Contains(FieldText(line), key)
    ensures Contains(line, key)
  {
    hide Contains;
    var a := AfterWord(line);
    var b := AfterWord(a);
    TrimContains(FirstLine(b), key);
    ContainsSlice(b, 0, Span(b, NotNewline), key);
    AfterWordContains(a, key);
    AfterWordContains(line, key);
  }

  lemma AfterWordContains(s: string, key: string)
    ensures Contains(AfterWord(s), key) ==> Contains(s, key)
  {
    hide Contains;
    var i := Span(s, IsSpace) + Span(DropSpace(s), NotSpace);
    assert AfterWord(s) == s[i..|s|];
    if Contains(AfterWord(s), key) { ContainsSlice(s, i, |s|, key); }
  }

  lemma SameHelpEnd(body: string)
    requires !Contains(body, BUCKETS_KEY)
    ensures HelpEnd(body, 0) == Snapshot.HelpEnd(body, 0)
  {
    hide Contains, StartsWith, HelpEnd, Snapshot.HelpEnd;
    HelpEndsEarlier(body, 0);
    var n := HelpEnd(body, 0);
    if StartsWith(body[n..], BUCKETS_KEY) { StartsWithInside(body, n, BUCKETS_KEY); }
  }

  lemma NotBuckets(t: string)
    requires !Contains(t, BUCKETS_KEY)
    ensures !StartsWith(t, BUCKETS_KEY)
  {
    hide Contains;
    assert t[0..] == t;
    if StartsWith(t, BUCKETS_KEY) { StartsWithInside(t, 0, BUCKETS_KEY); }
  }

  lemma {:induction false} NoKeyNoMeeting(s: string, f: Fields)
    requires !Contains(s, BUCKETS_KEY)
    ensures Meets(s, f) == NoBuckets
    decreases |s|
  {
    hide Contains, StartsWith, Trim, ParseNum, HelpEnd, Snapshot.HelpEnd;
    var t := DropSpace(s);
    NoKeyInTail(s, Span(s, IsSpace), BUCKETS_KEY);
    NotBuckets(t);
    if t == [] {
    } else if StartsWith(t, HELP_KEY) {
      HelpFits(t);
      var n := HelpEnd(t[5..], 0);
      NoKeyInTail(t, 5, BUCKETS_KEY);
      SameHelpEnd(t[5..]);
      NoKeyInTail(t[5..], n, BUCKETS_KEY);
      NoKeyNoMeeting(t[5..][n..], WithHelp(f, Trim(t[5..][..n])));
    } else if StartsWith(t, LABELS_KEY) {
      LabelsFit(t);
      NoKeyInTail(t, 7, BUCKETS_KEY);
      NoKeyInTail(t[7..], Span(t[7..], NotSpace), BUCKETS_KEY);
      NoKeyNoMeeting(Rest(t[7..], NotSpace), WithLabels(f, Take(t[7..], NotSpace)));
    } else {
      if StartsWith(t, VALUE_KEY) { ValueFits(t); }
      var body := if StartsWith(t, VALUE_KEY) then t[6..] else t;
      if body == t { Snapshot.TokenNonempty(t); }
      NoKeyInTail(t, |t| - |body|, BUCKETS_KEY);
      NoKeyInTail(body, Span(body, NotSpace), BUCKETS_KEY);
      match ParseNum(Take(body, NotSpace))
      case None =>
      case Some(x) => NoKeyNoMeeting(Rest(body, NotSpace), WithValue(f, x));
    }
  }

  /**
   On every string without `buckets=`, the snapshot parser accepts exactly what the configuration parser
   accepts with at least one value token, and then both build the same specification.
   */
  lemma ParsersAgree(line: string)
    requires !Contains(line, BUCKETS_KEY)
    ensures Snapshot.ParseSnapshotLine(line).Ok? <==> ParseMetricLine(line).Ok? && ParseMetricLine(line).value.values > 0
    ensures Snapshot.ParseSnapshotLine(line).Ok? ==> Snapshot.ParseSnapshotLine(line).value == ParseMetricLine(line).value.spec
  {
    hide ScanFields, Snapshot.ScanFields, FieldText, Snapshot.FieldText, Contains, ParseMetricType, Word, AfterWord, Meets;
    if Contains(FieldText(line), BUCKETS_KEY) { FieldTextContains(line, BUCKETS_KEY); }
    NoKeyNoMeeting(FieldText(line), StartFields(line));
    LineOutcomes(line);
  }

  // ---------------------------------------------------------------- the key inside a help text

  /** The fields of `h gauge 1 help=a buckets=...`. */
  function HelpedFields(bounds: string): string { "1 help=a buckets=" + bounds }

  function HelpedLine(bounds: string): string { "h gauge 1 help=a buckets=" + bounds }

  lemma HelpedLineWords(bounds: string)
    requires bounds != "" && All(bounds, NotSpace)
    ensures Word(HelpedLine(bounds)) == "h" && Word(AfterWord(HelpedLine(bounds))) == "gauge"
    ensures FieldText(HelpedLine(bounds)) == HelpedFields(bounds)
  {
    var fields := HelpedFields(bounds);
    assert fields[0] == '1' && fields[|fields| - 1] == bounds[|bounds| - 1];
    assert HelpedLine(bounds) == "h" + (" " + ("gauge" + (" " + fields)));
    SnapshotFile.LineWords(HelpedLine(bounds), "h", "gauge", fields);
    SameFieldText(HelpedLine(bounds));
  }

  lemma OneIsOne()
    ensures ParseNum("1") == Some(Finite(1.0)) && All("1", IsNumChar)
  {
    assert Digits(1) == "1";
    ParsePrintNat(1);
  }

  /** The value token in front. */
  lemma HelpedValue(bounds: string, f: Fields)
    ensures ScanFields(HelpedFields(bounds), f) == ScanFields(" help=a buckets=" + bounds, WithValue(f, Finite(1.0)))
    ensures Snapshot.ScanFields(HelpedFields(bounds), Flagged(f))
            == Snapshot.ScanFields(" help=a buckets=" + bounds, Flagged(WithValue(f, Finite(1.0))))
  {
    hide ParseNum, StartsWith, HelpEnd, Trim, ParseBounds, Snapshot.HelpEnd;
    var rest := " help=a buckets=" + bounds;
    var t := HelpedFields(bounds);
    assert t == "1" + rest && t[0] == '1';
    OneIsOne();
    SnapshotFile.ScanValue("1", Finite(1.0), rest, Flagged(f));
    Snapshot.SpanStops(t);
    SnapshotFile.NumeralIsNoKey("1", rest);
    StartsWithFirst(t, BUCKETS_KEY);
    TakeSeam("1", rest, NotSpace);
  }

  /** Where the two parsers end the help text. */
  lemma HelpedEnds(bounds: string)
    requires All(bounds, NotSpace)
    ensures var body := "a buckets=" + bounds;
            HelpEnd(body, 0) == 2 && Snapshot.HelpEnd(body, 0) == |body|
  {
    hide StartsWith;
    var body := "a buckets=" + bounds;
    assert body[0] == 'a' && body[1] == ' ' && body[2..][0] == 'b';
    assert body[2..] == BUCKETS_KEY + bounds;
    SnapshotFile.StartsWithKey(BUCKETS_KEY, bounds, 8);
    StartsWithFirst(body[2..], LABELS_KEY);
    StartsWithFirst(body[2..], VALUE_KEY);
    assert !CutAt(body, 0) && !CutAt(body, 1) && CutAt(body, 2);
    forall i | 0 <= i < |body| ensures !Snapshot.CutAt(body, i) {
      if i > 2 { assert NotSpace(body[i - 1]) by { assert i - 1 >= 10 ==> body[i - 1] == bounds[i - 11]; } }
    }
  }

  /** The configuration parser's scan at a help field. */
  lemma ScanHelp(h: string, f: Fields)
    ensures ScanFields(" help=" + h, f) == ScanFields(h[HelpEnd(h, 0)..], WithHelp(f, Trim(h[..HelpEnd(h, 0)])))
  {
    hide StartsWith, ParseNum, HelpEnd, Trim, ParseBounds;
    var t := HELP_KEY + h;
    assert " help=" + h == " " + t;
    assert t[0] == 'h';
    SnapshotFile.SpaceThen(t);
    Snapshot.SpanStops(t);
    SnapshotFile.StartsWithKey(HELP_KEY, h, 5);
  }

  /** The configuration parser ends the help text at the key. */
  lemma HelpedScan(bounds: string, f: Fields)
    requires All(bounds, NotSpace) && bounds != ""
    ensures ScanFields(" help=a buckets=" + bounds, f) == ScanFields(BUCKETS_KEY + bounds, WithHelp(f, "a"))
  {
    hide ScanFields, Trim, HelpEnd, Snapshot.HelpEnd;
    var body := "a buckets=" + bounds;
    assert " help=a buckets=" + bounds == " help=" + body;
    HelpedEnds(bounds);
    assert body[..2] == "a " && body[2..] == BUCKETS_KEY + bounds;
    HelpedTrims(body);
    ScanHelp(body, f);
  }

  /** The snapshot parser takes all of it for help text. */
  lemma HelpedSnapshotScan(bounds: string, f: Snapshot.Fields)
    requires All(bounds, NotSpace) && bounds != ""
    ensures Snapshot.ScanFields(" help=a buckets=" + bounds, f) == Ok(Snapshot.WithHelp(f, "a buckets=" + bounds))
  {
    hide Snapshot.ScanFields, Trim, Snapshot.HelpEnd, HelpEnd;
    var body := "a buckets=" + bounds;
    assert " help=a buckets=" + bounds == " help=" + body;
    HelpedEnds(bounds);
    assert body[..|body|] == body && body[|body|..] == [];
    HelpedTrims(body);
    SnapshotFile.ScanHelp(body, f);
    Snapshot.ScanNothing(Snapshot.WithHelp(f, body));
  }

  lemma HelpedTrims(body: string)
    requires Trimmed(body)
    ensures Trim(body) == body && Trim("a ") == "a"
  {
    TrimFixed(body);
    Snapshot.SpanStops("a ");
    assert "a "[..1] == "a";
  }

  lemma KeyAtEnd(bounds: string, f: Fields)
    requires All(bounds, NotSpace)
    ensures ScanFields(BUCKETS_KEY + bounds, f)
            == match ParseBounds(bounds)
               case None => Err("invalid buckets=")
               case Some(bs) => if bs == [] then Err("buckets= requires at least one bound") else Ok(WithBuckets(f, bs))
  {
    hide ParseNum, StartsWith, HelpEnd, Trim, ParseBounds;
    var t := BUCKETS_KEY + bounds;
    SnapshotFile.StartsWithKey(BUCKETS_KEY, bounds, 8);
    KeyIsField(t);
    TakeAll(bounds, NotSpace);
    match ParseBounds(bounds)
    case None =>
    case Some(bs) => ScanNothing(WithBuckets(f, bs));
  }

  /** What the two parsers make of `h gauge 1 help=a buckets=...`, whatever follows the key. */
  lemma HelpedLineBothWays(bounds: string)
    requires bounds != "" && All(bounds, NotSpace)
    ensures Snapshot.ParseSnapshotLine(HelpedLine(bounds))
            == Ok(MetricSpec("h", "gauge", "a buckets=" + bounds, Finite(1.0), "", []))
    ensures match ParseBounds(bounds)
            case None => ParseMetricLine(HelpedLine(bounds)).Err?
            case Some(bs) =>
              if bs == [] then ParseMetricLine(HelpedLine(bounds)).Err?
              else ParseMetricLine(HelpedLine(bounds)) == Ok(Fields(MetricSpec("h", "gauge", "a", Finite(1.0), "", bs), 1))
  {
    hide ScanFields, Snapshot.ScanFields, FieldText, Snapshot.FieldText, ParseBounds, Word, AfterWord, HelpedLine, HelpedFields;
    var line := HelpedLine(bounds);
    HelpedLineWords(bounds);
    SameFieldText(line);
    ParseTypeName(Gauge);
    var f := StartFields(line);
    HelpedValue(bounds, f);
    HelpedScan(bounds, WithValue(f, Finite(1.0)));
    HelpedSnapshotScan(bounds, Flagged(WithValue(f, Finite(1.0))));
    KeyAtEnd(bounds, WithHelp(WithValue(f, Finite(1.0)), "a"));
  }

  /** Both parsers accept this line, and build different specifications. */
  lemma AcceptedApart()
    ensures var line := "h gauge 1 help=a buckets=2";
            && ParseMetricLine(line) == Ok(Fields(MetricSpec("h", "gauge", "a", Finite(1.0), "", [Finite(2.0)]), 1))
            && Snapshot.ParseSnapshotLine(line) == Ok(MetricSpec("h", "gauge", "a buckets=2", Finite(1.0), "", []))
  {
    hide ParseMetricLine, Snapshot.ParseSnapshotLine, ParseNum, Trim;
    var bounds := "2";
    assert HelpedLine(bounds) == "h gauge 1 help=a buckets=2" && "a buckets=" + bounds == "a buckets=2";
    HelpedLineBothWays(bounds);
    assert Digits(2) == "2";
    ParsePrintNat(2);
    SinglePiece(bounds);
  }

  /** The configuration parser rejects this line, and the snapshot parser accepts it. */
  lemma RejectedApart()
    ensures var line := "h gauge 1 help=a buckets=x";
            && ParseMetricLine(line).Err?
            && Snapshot.ParseSnapshotLine(line) == Ok(MetricSpec("h", "gauge", "a buckets=x", Finite(1.0), "", []))
  {
    hide ParseMetricLine, Snapshot.ParseSnapshotLine, ParseNum, Trim;
    var bounds := "x";
    assert HelpedLine(bounds) == "h gauge 1 help=a buckets=x" && "a buckets=" + bounds == "a buckets=x";
    HelpedLineBothWays(bounds);
    LetterIsNoNumber();
    SinglePiece(bounds);
  }

  lemma LetterIsNoNumber()
    ensures ParseNum("x") == None
  {
    SpanIs("x", IsSpace, 0);
    assert DropSpace("x") == "x";
    assert !StartsWithIgnoringCase("x", "inf") && !StartsWithIgnoringCase("x", "nan");
    SpanIs("x", IsDigit, 0);
    assert Take("x", IsDigit) == "" && Rest("x", IsDigit) == "x";
  }

  /** A list of one piece. */
  lemma SinglePiece(list: string)
    requires list != "" && All(list, NotComma) && Trimmed(list)
    ensures ParseBounds(list) == match ParseNum(list) case None => None case Some(x) => Some([x])
  {
    hide ParseNum, Trim;
    TakeAll(list, NotComma);
    TrimFixed(list);
    BoundsUnfold(list);
    assert ParseBounds([]) == Some([]);
    match ParseNum(list)
    case None =>
    case Some(x) => assert [x] + [] == [x];
  }
}
