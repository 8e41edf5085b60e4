/**
 The trailing fields of a snapshot line and of a configured metric: any sequence of written fields is read back field
 by field, later ones over earlier ones.
 */
module FieldGrammar {
  import opened Text
  import opened Numbers
  import opened NumberText
  import opened Metrics
  import opened ConfigLine
  import opened LineAgreement
  import Snapshot
  import SnapshotFile

  datatype Field =
    | ValueField(keyed: bool, x: Num)
    | LabelsField(labels: string)
    | HelpField(help: string)
    | BucketsField(bounds: seq<Num>)

  // ---------------------------------------------------------------- written fields

  function BoundsText(bounds: seq<Num>): string
    requires bounds != []
  {
    if |bounds| == 1 then PrintNum(bounds[0]) else PrintNum(bounds[0]) + ("," + BoundsText(bounds[1..]))
  }

  /** A field without bounds has a text. */
  predicate Printable(field: Field) { field.BucketsField? ==> field.bounds != [] }

  function FieldText(field: Field): string
    requires Printable(field)
  {
    match field
    case ValueField(keyed, x) => (if keyed then "value=" else "") + PrintNum(x)
    case LabelsField(labels) => "labels=" + labels
    case HelpField(help) => "help=" + help
    case BucketsField(bounds) => "buckets=" + BoundsText(bounds)
  }

  /** Help text that ends where the next field begins. */
  ghost predicate HelpEndsAlone(help: string) {
    Trimmed(help) && forall i :: 0 <= i < |help| ==> !CutAt(help, i)
  }

  /**
   A sequence of fields that can be told apart: labels are one word, help text is trimmed and holds no key, and behind it
   stands a field with a key that ends help text.
   */
  ghost predicate Separable(fields: seq<Field>) {
    fields != [] ==>
      && Printable(fields[0])
      && (fields[0].LabelsField? ==> All(fields[0].labels, NotSpace))
      && (fields[0].HelpField? ==>
            HelpEndsAlone(fields[0].help)
            && (|fields| > 1 ==> !fields[1].HelpField? && (fields[1].ValueField? ==> fields[1].keyed)))
      && Separable(fields[1..])
  }

  lemma SeparableFirst(fields: seq<Field>)
    requires Separable(fields) && fields != []
    ensures Printable(fields[0]) && Separable(fields[1..])
  {
  }

  /** The fields one after another, a blank in front of each. */
  ghost function FieldsText(fields: seq<Field>): string
    requires Separable(fields)
  {
    if fields == [] then "" else " " + (FieldText(fields[0]) + FieldsText(fields[1..]))
  }

  /** What a field says. */
  function Said(f: Fields, field: Field): Fields {
    match field
    case ValueField(_, x) => Fields(f.spec.(value := Round6(x)), f.values + 1)
    case LabelsField(labels) => f.(spec := f.spec.(labels := labels))
    case HelpField(help) => f.(spec := f.spec.(help := help))
    case BucketsField(bounds) => f.(spec := f.spec.(buckets := seq(|bounds|, i requires 0 <= i < |bounds| => Round6(bounds[i]))))
  }

  function SaidAll(f: Fields, fields: seq<Field>): Fields
    decreases |fields|
  {
    if fields == [] then f else SaidAll(Said(f, fields[0]), fields[1..])
  }

  // ---------------------------------------------------------------- bounds

  lemma NumberHasNoComma(x: Num)
    ensures PrintNum(x) != "" && All(PrintNum(x), NotComma) && All(PrintNum(x), NotSpace) && Trimmed(PrintNum(x))
  {
    hide PrintNum;
    PrintNumChars(x);
  }

  lemma OnePiece(x: Num, list: string, tail: string)
    requires list == PrintNum(x) + tail && (tail == "" || tail[0] == ',')
    ensures ParseBounds(list)
            == match ParseBounds(if tail == "" then "" else tail[1..])
               case None => None
               case Some(more) => Some([Round6(x)] + more)
  {
    hide PrintNum, ParseNum, Trim, Take, Rest, ParseBounds;
    NumberHasNoComma(x);
    ParsePrintNum(x);
    TakeSeam(PrintNum(x), tail, NotComma);
    TrimFixed(PrintNum(x));
    BoundsUnfold(list);
  }

  function RoundedAll(bounds: seq<Num>): seq<Num> { seq(|bounds|, i requires 0 <= i < |bounds| => Round6(bounds[i])) }

  lemma {:induction false} BoundsRead(bounds: seq<Num>)
    requires bounds != []
    ensures ParseBounds(BoundsText(bounds)) == Some(RoundedAll(bounds))
    ensures All(BoundsText(bounds), NotSpace) && BoundsText(bounds) != "" && All(BoundsText(bounds), NotNewline)
  {
    hide PrintNum, ParseBounds, Round6;
    var p := PrintNum(bounds[0]);
    NumberHasNoComma(bounds[0]);
    WordIsOneLine(p);
    NoBounds();
    if |bounds| == 1 {
      assert p + "" == p;
      OnePiece(bounds[0], p, "");
      assert [Round6(bounds[0])] + [] == RoundedAll(bounds);
    } else {
      BoundsRead(bounds[1..]);
      var tail := "," + BoundsText(bounds[1..]);
      assert tail[1..] == BoundsText(bounds[1..]);
      OnePiece(bounds[0], p + tail, tail);
      assert [Round6(bounds[0])] + RoundedAll(bounds[1..]) == RoundedAll(bounds);
    }
  }

  lemma NoBounds()
    ensures ParseBounds("") == Some([])
  {
  }

  lemma WordIsOneLine(s: string)
    requires All(s, NotSpace)
    ensures All(s, NotNewline)
  {
  }

  // ---------------------------------------------------------------- one field

  lemma KeyedWord(key: string, w: string, rest: string)
    requires All(w, NotSpace) && (rest == "" || IsSpace(rest[0]))
    ensures var t := key + (w + rest);
            && StartsWith(t, key) && t[|key|..] == w + rest && Take(w + rest, NotSpace) == w && Rest(w + rest, NotSpace) == rest
  {
    TakeSeam(w, rest, NotSpace);
  }

  /** The first letter tells the keys apart. */
  lemma KeyByLetter(t: string, c: char)
    requires t != "" && t[0] == c
    ensures c != 'h' ==> !StartsWith(t, HELP_KEY)
    ensures c != 'l' ==> !StartsWith(t, LABELS_KEY)
    ensures c != 'b' ==> !StartsWith(t, BUCKETS_KEY)
    ensures c != 'v' ==> !StartsWith(t, VALUE_KEY)
  {
    StartsWithFirst(t, HELP_KEY);
    StartsWithFirst(t, LABELS_KEY);
    StartsWithFirst(t, BUCKETS_KEY);
    StartsWithFirst(t, VALUE_KEY);
  }

  lemma ReadLabels(t: string, w: string, rest: string, f: Fields)
    requires t == "labels=" + (w + rest) && All(w, NotSpace) && (rest == "" || IsSpace(rest[0]))
    ensures ScanFields(t, f) == ScanFields(rest, WithLabels(f, w))
  {
    hide StartsWith, HelpEnd, ParseNum, ParseBounds, Trim, Take, Rest;
    assert t[0] == 'l';
    Snapshot.SpanStops(t);
    KeyByLetter(t, 'l');
    KeyedWord("labels=", w, rest);
  }

  lemma ReadKeyedValue(t: string, v: string, x: Num, rest: string, f: Fields)
    requires t == "value=" + (v + rest) && All(v, NotSpace) && (rest == "" || IsSpace(rest[0])) && ParseNum(v) == Some(x)
    ensures ScanFields(t, f) == ScanFields(rest, WithValue(f, x))
  {
    hide StartsWith, HelpEnd, ParseNum, ParseBounds, Trim, Take, Rest;
    assert t[0] == 'v';
    Snapshot.SpanStops(t);
    KeyByLetter(t, 'v');
    KeyedWord("value=", v, rest);
  }

  lemma ReadValue(v: string, x: Num, rest: string, f: Fields)
    requires v != "" && All(v, IsNumChar) && (rest == "" || IsSpace(rest[0])) && ParseNum(v) == Some(x)
    ensures ScanFields(v + rest, f) == ScanFields(rest, WithValue(f, x))
  {
    hide StartsWith, HelpEnd, ParseNum, ParseBounds, Trim, Take, Rest;
    var t := v + rest;
    assert t[0] == v[0];
    Snapshot.SpanStops(t);
    SnapshotFile.NumeralIsNoKey(v, rest);
    StartsWithFirst(t, BUCKETS_KEY);
    TakeSeam(v, rest, NotSpace);
  }

  lemma ReadBuckets(t: string, w: string, bounds: seq<Num>, rest: string, f: Fields)
    requires t == "buckets=" + (w + rest) && All(w, NotSpace) && (rest == "" || IsSpace(rest[0]))
    requires ParseBounds(w) == Some(bounds) && bounds != []
    ensures ScanFields(t, f) == ScanFields(rest, WithBuckets(f, bounds))
  {
    hide StartsWith, HelpEnd, ParseNum, ParseBounds, Trim, Take, Rest;
    assert t[0] == 'b';
    Snapshot.SpanStops(t);
    KeyByLetter(t, 'b');
    KeyedWord("buckets=", w, rest);
  }

  // ---------------------------------------------------------------- help text

  /** `next` is empty or begins with a blank and a key that ends help text. */
  ghost predicate CutsHelp(next: string) {
    next != "" ==>
      next[0] == ' ' && (StartsWith(next[1..], LABELS_KEY) || StartsWith(next[1..], VALUE_KEY) || StartsWith(next[1..], BUCKETS_KEY))
  }

  /** A key that begins inside the help text lies inside it. */
  lemma KeyStaysInside(help: string, next: string, key: string, i: nat)
    requires i < |help| && (next == "" || next[0] == ' ') && key != "" && (forall j :: 0 <= j < |key| ==> key[j] != ' ')
    ensures StartsWith((help + next)[i..], key) ==> StartsWith(help[i..], key)
  {
    var t := (help + next)[i..];
    if next != "" && |help| - i < |key| {
      assert t[|help| - i] == ' ';
      StartsWithAt(t, key, |help| - i);
    }
    if StartsWith(t, key) { assert t[..|key|] == help[i..][..|key|]; }
  }

  lemma KeysHaveNoBlank()
    ensures forall j :: 0 <= j < |LABELS_KEY| ==> LABELS_KEY[j] != ' '
    ensures forall j :: 0 <= j < |VALUE_KEY| ==> VALUE_KEY[j] != ' '
    ensures forall j :: 0 <= j < |BUCKETS_KEY| ==> BUCKETS_KEY[j] != ' '
  {
  }

  lemma BlankStartsNoKey(t: string, key: string)
    requires t != "" && t[0] == ' ' && key != "" && key[0] != ' '
    ensures !StartsWith(t, key)
  {
    StartsWithFirst(t, key);
  }

  lemma NoCutBefore(help: string, next: string, i: nat)
    requires HelpEndsAlone(help) && CutsHelp(next) && i <= |help| && i < |help + next|
    ensures !CutAt(help + next, i)
  {
    hide StartsWith;
    var body := help + next;
    KeysHaveNoBlank();
    if i < |help| {
      KeyStaysInside(help, next, LABELS_KEY, i);
      KeyStaysInside(help, next, VALUE_KEY, i);
      KeyStaysInside(help, next, BUCKETS_KEY, i);
      assert i > 0 ==> body[i - 1] == help[i - 1];
      assert !CutAt(help, i);
    } else {
      assert body[i..] == next;
      BlankStartsNoKey(next, LABELS_KEY);
      BlankStartsNoKey(next, VALUE_KEY);
      BlankStartsNoKey(next, BUCKETS_KEY);
    }
  }

  /** The help text ends in front of the next key. */
  lemma HelpEndRead(help: string, next: string)
    requires HelpEndsAlone(help) && CutsHelp(next)
    ensures HelpEnd(help + next, 0) == if next == "" then |help| else |help| + 1
  {
    hide StartsWith, CutAt, HelpEndsAlone;
    var body := help + next;
    var n := HelpEnd(body, 0);
    forall i | 0 <= i <= |help| && i < |body| ensures !CutAt(body, i) { NoCutBefore(help, next, i); }
    if next != "" { CutAfterBlank(help, next); }
  }

  lemma CutAfterBlank(help: string, next: string)
    requires CutsHelp(next) && next != ""
    ensures |help| + 1 <= |help + next| && (|help| + 1 < |help + next| ==> CutAt(help + next, |help| + 1))
    ensures |help| + 1 < |help + next|
  {
    var body := help + next;
    assert body[|help|] == ' ' && body[|help| + 1..] == next[1..];
    StartsWithFirst(next[1..], LABELS_KEY);
    StartsWithFirst(next[1..], VALUE_KEY);
    StartsWithFirst(next[1..], BUCKETS_KEY);
  }

  lemma BlankTrims(help: string)
    requires Trimmed(help)
    ensures Trim(help) == help && Trim(help + " ") == help
  {
    hide Trim;
    TrimFixed(help);
    if help == "" {
      BlankIsNothing();
      assert help + " " == " ";
    } else {
      TrimExact("", help, " ");
      assert "" + help + " " == help + " ";
    }
  }

  lemma BlankIsNothing()
    ensures Trim(" ") == ""
  {
    SpanIs(" ", IsSpace, 1);
    assert DropSpace(" ") == "";
  }

  lemma ReadHelp(help: string, next: string, f: Fields)
    requires HelpEndsAlone(help) && CutsHelp(next)
    ensures ScanFields(" help=" + (help + next), f) == ScanFields(next, WithHelp(f, help))
  {
    hide StartsWith, HelpEnd, Trim, ScanFields, DropSpace;
    var body := help + next;
    HelpEndRead(help, next);
    ScanHelp(body, f);
    BlankTrims(help);
    if next == "" {
      assert body == help && body[..|help|] == help && body[|help|..] == next;
    } else {
      assert body[..|help| + 1] == help + " " && body[|help| + 1..] == next[1..];
      BlankDropped(next, WithHelp(f, help));
    }
  }

  lemma BlankDropped(next: string, f: Fields)
    requires next != "" && next[0] == ' '
    ensures ScanFields(next[1..], f) == ScanFields(next, f)
  {
    hide ScanFields;
    ScanSkips(next, f);
    ScanSkips(next[1..], f);
    assert IsSpace(next[0]);
    assert DropSpace(next) == DropSpace(next[1..]);
  }

  // ---------------------------------------------------------------- all fields

  lemma TextStarts(fields: seq<Field>)
    requires Separable(fields)
    ensures FieldsText(fields) == "" || FieldsText(fields)[0] == ' '
  {
  }

  lemma NextCuts(fields: seq<Field>)
    requires Separable(fields)
    requires fields != [] ==> !fields[0].HelpField? && (fields[0].ValueField? ==> fields[0].keyed)
    ensures CutsHelp(FieldsText(fields))
  {
    if fields != [] {
      var t := FieldText(fields[0]) + FieldsText(fields[1..]);
      assert FieldsText(fields)[1..] == t;
      match fields[0]
      case ValueField(_, x) => KeyInFront("value=", PrintNum(x), FieldsText(fields[1..]));
      case LabelsField(labels) => KeyInFront("labels=", labels, FieldsText(fields[1..]));
      case BucketsField(bounds) => KeyInFront("buckets=", BoundsText(bounds), FieldsText(fields[1..]));
    }
  }

  lemma KeyInFront(key: string, w: string, rest: string)
    ensures StartsWith((key + w) + rest, key) && (key + w) + rest == key + (w + rest)
  {
    assert (key + w) + rest == key + (w + rest);
  }

  lemma FirstBlank(t: string, f: Fields)
    ensures ScanFields(" " + t, f) == ScanFields(t, f)
  {
    hide ScanFields;
    assert (" " + t)[1..] == t;
    BlankDropped(" " + t, f);
  }

  lemma ReadFirstValue(keyed: bool, x: Num, rest: string, f: Fields)
    requires rest == "" || IsSpace(rest[0])
    ensures ScanFields(FieldText(ValueField(keyed, x)) + rest, f) == ScanFields(rest, Said(f, ValueField(keyed, x)))
  {
    hide ScanFields, PrintNum, ParseNum, Round6;
    PrintNumChars(x);
    NumberHasNoComma(x);
    ParsePrintNum(x);
    if keyed {
      KeyInFront("value=", PrintNum(x), rest);
      ReadKeyedValue("value=" + (PrintNum(x) + rest), PrintNum(x), Round6(x), rest, f);
    } else {
      assert "" + PrintNum(x) == PrintNum(x);
      ReadValue(PrintNum(x), Round6(x), rest, f);
    }
  }

  lemma ReadFirstBounds(bounds: seq<Num>, rest: string, f: Fields)
    requires bounds != [] && (rest == "" || IsSpace(rest[0]))
    ensures ScanFields(FieldText(BucketsField(bounds)) + rest, f) == ScanFields(rest, Said(f, BucketsField(bounds)))
  {
    hide ScanFields, PrintNum, ParseBounds, Round6, BoundsText;
    BoundsRead(bounds);
    KeyInFront("buckets=", BoundsText(bounds), rest);
    ReadBuckets("buckets=" + (BoundsText(bounds) + rest), BoundsText(bounds), RoundedAll(bounds), rest, f);
  }

  lemma ReadFirstHelp(help: string, next: string, f: Fields)
    requires HelpEndsAlone(help) && CutsHelp(next)
    ensures ScanFields(" " + (FieldText(HelpField(help)) + next), f) == ScanFields(next, Said(f, HelpField(help)))
  {
    hide ScanFields, HelpEndsAlone, CutsHelp;
    KeyInFront("help=", help, next);
    KeyInFront(" ", "help=", help + next);
    assert " help=" + (help + next) == " " + ("help=" + (help + next));
    ReadHelp(help, next, f);
  }

  lemma ReadFirstLabels(labels: string, rest: string, f: Fields)
    requires All(labels, NotSpace) && (rest == "" || IsSpace(rest[0]))
    ensures ScanFields(FieldText(LabelsField(labels)) + rest, f) == ScanFields(rest, Said(f, LabelsField(labels)))
  {
    hide ScanFields;
    KeyInFront("labels=", labels, rest);
    ReadLabels("labels=" + (labels + rest), labels, rest, f);
  }

  /** The scan of the first field. */
  lemma ReadFirst(fields: seq<Field>, f: Fields)
    requires Separable(fields) && fields != []
    ensures ScanFields(FieldsText(fields), f) == ScanFields(FieldsText(fields[1..]), Said(f, fields[0]))
  {
    hide ScanFields, FieldText, Said, HelpEndsAlone, CutsHelp;
    var rest := FieldsText(fields[1..]);
    TextStarts(fields[1..]);
    FirstBlank(FieldText(fields[0]) + rest, f);
    match fields[0]
    case ValueField(keyed, x) => ReadFirstValue(keyed, x, rest, f);
    case LabelsField(labels) => ReadFirstLabels(labels, rest, f);
    case HelpField(help) =>
      NextCuts(fields[1..]);
      ReadFirstHelp(help, rest, f);
    case BucketsField(bounds) => ReadFirstBounds(bounds, rest, f);
  }

  /** Any separable fields, in any order and any number, are read back: each says what it says over what was said before. */
  lemma {:induction false} FieldsRead(fields: seq<Field>, f: Fields)
    requires Separable(fields)
    ensures ScanFields(FieldsText(fields), f) == Ok(SaidAll(f, fields))
    decreases |fields|
  {
    hide ScanFields, Said, FieldText;
    if fields == [] {
      ScanNothing(f);
    } else {
      ReadFirst(fields, f);
      FieldsRead(fields[1..], Said(f, fields[0]));
    }
  }

  ghost predicate WithoutBounds(fields: seq<Field>) { forall i :: 0 <= i < |fields| ==> !fields[i].BucketsField? }

  lemma {:induction false} NoBucketsSaid(f: Fields, fields: seq<Field>)
    requires WithoutBounds(fields)
    ensures SaidAll(f, fields).spec.buckets == f.spec.buckets
    decreases |fields|
  {
    if fields != [] {
      assert forall i :: 0 <= i < |fields[1..]| ==> fields[1..][i] == fields[i + 1];
      NoBucketsSaid(Said(f, fields[0]), fields[1..]);
    }
  }

  /** The snapshot parser reads fields without bounds the same way. */
  lemma {:induction false} SnapshotFieldsRead(fields: seq<Field>, f: Fields)
    requires Separable(fields) && WithoutBounds(fields) && f.spec.buckets == []
    ensures Snapshot.ScanFields(FieldsText(fields), Flagged(f)) == Ok(Flagged(SaidAll(f, fields)))
  {
    hide ScanFields, Snapshot.ScanFields, Meets, SaidAll, FieldsText, Separable, WithoutBounds;
    FieldsRead(fields, f);
    NoBucketsSaid(f, fields);
    ScanOutcomes(FieldsText(fields), f);
  }

  // ---------------------------------------------------------------- whole lines

  ghost predicate OneLineField(field: Field) {
    match field
    case LabelsField(labels) => All(labels, NotNewline)
    case HelpField(help) => All(help, NotNewline)
    case _ => true
  }

  /** The text of the fields is a single line that does not end in white space. */
  lemma {:induction false} TextIsOneLine(fields: seq<Field>)
    requires Separable(fields) && forall i :: 0 <= i < |fields| ==> OneLineField(fields[i])
    ensures All(FieldsText(fields), NotNewline)
    ensures fields != [] ==> !IsSpace(FieldsText(fields)[|FieldsText(fields)| - 1])
    decreases |fields|
  {
    hide PrintNum, BoundsText, OneLineField;
    if fields != [] {
      assert forall i :: 0 <= i < |fields[1..]| ==> fields[1..][i] == fields[i + 1];
      TextIsOneLine(fields[1..]);
      FieldShape(fields[0]);
      var t, rest := FieldText(fields[0]), FieldsText(fields[1..]);
      assert FieldsText(fields) == " " + (t + rest);
      assert FieldsText(fields)[|FieldsText(fields)| - 1] == if rest == "" then t[|t| - 1] else rest[|rest| - 1];
    }
  }

  lemma FieldShape(field: Field)
    requires Printable(field) && OneLineField(field)
    requires field.LabelsField? ==> All(field.labels, NotSpace)
    requires field.HelpField? ==> Trimmed(field.help)
    ensures FieldText(field) != "" && !IsSpace(FieldText(field)[|FieldText(field)| - 1]) && All(FieldText(field), NotNewline)
  {
    hide PrintNum, BoundsText, All, Trimmed, Ends;
    match field
    case ValueField(keyed, x) => ValueShape(keyed, x);
    case LabelsField(labels) => WordEnds(labels); LastOf("labels=", labels);
    case HelpField(help) => TrimmedEnds(help); LastOf("help=", help);
    case BucketsField(bounds) =>
      BoundsRead(bounds);
      WordEnds(BoundsText(bounds));
      LastOf("buckets=", BoundsText(bounds));
  }

  ghost predicate Ends(w: string) { w == "" || !IsSpace(w[|w| - 1]) }

  lemma WordEnds(w: string)
    requires All(w, NotSpace)
    ensures Ends(w) && All(w, NotNewline)
  {
  }

  lemma TrimmedEnds(w: string)
    requires Trimmed(w)
    ensures Ends(w)
  {
  }

  lemma ValueShape(keyed: bool, x: Num)
    ensures var t := (if keyed then "value=" else "") + PrintNum(x);
            t != "" && !IsSpace(t[|t| - 1]) && All(t, NotNewline)
  {
    hide PrintNum, All, Ends;
    NumberHasNoComma(x);
    WordEnds(PrintNum(x));
    if keyed {
      LastOf("value=", PrintNum(x));
    } else {
      assert "" + PrintNum(x) == PrintNum(x);
      EndsMeans(PrintNum(x));
    }
  }

  lemma EndsMeans(w: string)
    requires Ends(w) && w != ""
    ensures !IsSpace(w[|w| - 1])
  {
  }

  lemma LastOf(key: string, w: string)
    requires key == "labels=" || key == "help=" || key == "buckets=" || key == "value="
    requires All(w, NotNewline) && Ends(w)
    ensures key + w != "" && !IsSpace((key + w)[|key + w| - 1]) && All(key + w, NotNewline)
  {
    if w == "" { assert key + w == key; } else { assert (key + w)[|key + w| - 1] == w[|w| - 1]; }
  }

  lemma LineOfFields(name: string, typ: string, text: string)
    requires name != "" && All(name, NotSpace) && typ != "" && All(typ, NotSpace)
    requires text == "" || (text[0] == ' ' && !IsSpace(text[|text| - 1]) && All(text, NotNewline))
    ensures var line := name + (" " + (typ + text));
            && Word(line) == name && Word(AfterWord(line)) == typ
            && (forall f :: ScanFields(ConfigLine.FieldText(line), f) == ScanFields(text, f))
  {
    hide Word, AfterWord, ScanFields, Trim;
    var line := name + (" " + (typ + text));
    WordSeam(name, " " + (typ + text));
    WordSeam(typ, text);
    TakeAll(text, NotNewline);
    TrimsToDrop(text);
    forall f ensures ScanFields(ConfigLine.FieldText(line), f) == ScanFields(text, f) { ScanSkips(text, f); }
  }

  lemma TrimsToDrop(text: string)
    requires text == "" || !IsSpace(text[|text| - 1])
    ensures Trim(text) == DropSpace(text)
  {
    var d := DropSpace(text);
    if d != "" { assert d[|d| - 1] == text[|text| - 1]; }
  }

  /**
   A whole line of the configuration: a one-word name, a known type in any case and any separable fields are read as
   exactly that.
   */
  lemma {:induction false} LineRead(name: string, typ: string, fields: seq<Field>)
    requires name != "" && All(name, NotSpace)
    requires AnyCase(typ, "counter") || AnyCase(typ, "gauge") || AnyCase(typ, "histogram")
    requires Separable(fields) && forall i :: 0 <= i < |fields| ==> OneLineField(fields[i])
    ensures ParseMetricLine(name + (" " + (typ + FieldsText(fields))))
            == Ok(SaidAll(Fields(MetricSpec(name, typ, "", Finite(0.0), "", []), 0), fields))
  {
    hide ScanFields, Word, AfterWord, AnyCase, ParseMetricType, ConfigLine.FieldText, SaidAll, FieldsText, Separable, OneLineField;
    var text := FieldsText(fields);
    var line := name + (" " + (typ + text));
    TypeIsWord(typ);
    TextIsOneLine(fields);
    TextStarts(fields);
    NoFieldsNoText(fields);
    LineOfFields(name, typ, text);
    var f := Fields(MetricSpec(name, typ, "", Finite(0.0), "", []), 0);
    FieldsRead(fields, f);
    SaidKeepsType(f, fields);
    TypeWordIff(typ);
    assert StartFields(line) == f;
  }

  lemma NoFieldsNoText(fields: seq<Field>)
    requires Separable(fields)
    ensures fields == [] ==> FieldsText(fields) == ""
  {
  }

  lemma {:induction false} SaidKeepsType(f: Fields, fields: seq<Field>)
    ensures SaidAll(f, fields).spec.typ == f.spec.typ
    decreases |fields|
  {
    if fields != [] { SaidKeepsType(Said(f, fields[0]), fields[1..]); }
  }

  /** The same line, without bounds, in a snapshot: accepted when it has a value, and read the same. */
  lemma {:induction false} SnapshotLineRead(name: string, typ: string, fields: seq<Field>)
    requires name != "" && All(name, NotSpace)
    requires AnyCase(typ, "counter") || AnyCase(typ, "gauge") || AnyCase(typ, "histogram")
    requires Separable(fields) && WithoutBounds(fields) && forall i :: 0 <= i < |fields| ==> OneLineField(fields[i])
    ensures var said := SaidAll(Fields(MetricSpec(name, typ, "", Finite(0.0), "", []), 0), fields);
            var line := name + (" " + (typ + FieldsText(fields)));
            && (Snapshot.ParseSnapshotLine(line).Ok? <==> said.values > 0)
            && (said.values > 0 ==> Snapshot.ParseSnapshotLine(line) == Ok(said.spec))
  {
    hide ParseMetricLine, Snapshot.ParseSnapshotLine, SaidAll, FieldsText, Separable, WithoutBounds, OneLineField, AnyCase;
    var f := Fields(MetricSpec(name, typ, "", Finite(0.0), "", []), 0);
    LineRead(name, typ, fields);
    NoBucketsSaid(f, fields);
    var line := name + (" " + (typ + FieldsText(fields)));
    ParsersAgreeIff(line);
    if Snapshot.ParseSnapshotLine(line).Ok? { SnapshotNeedsValue(line); }
  }

  /** On a line both parsers accept without bounds, the snapshot parser has read a value. */
  lemma {:induction false} SnapshotNeedsValue(line: string)
    requires ParseMetricLine(line).Ok? && ParseMetricLine(line).value.spec.buckets == []
    requires Snapshot.ParseSnapshotLine(line).Ok?
    ensures ParseMetricLine(line).value.values > 0
  {
    hide ScanFields, Snapshot.ScanFields, ConfigLine.FieldText, Snapshot.FieldText, ParseMetricType, Word, AfterWord, Meets;
    LineOutcomes(line);
  }
}
