/**
 What a pushed `name type value` line stores, and which bodies are read line by line.
 */
module SimpleLines {
  import opened Text
  import opened Numbers
  import opened NumberText
  import opened Metrics
  import opened Registry
  import opened PrometheusText
  import opened Ingest

  // ---------------------------------------------------------------- markers

  /** Where the key starts, it ends before the newline. */
  lemma KeyEndsBefore(line: string, key: string, i: nat)
    requires key != "" && All(key, NotNewline) && i <= |line| + 1
    ensures StartsWith((line + "\n")[i..], key) ==> i + |key| <= |line|
  {
    var s := line + "\n";
    if i <= |line| && |line| - i < |key| {
      assert s[i..][|line| - i] == '\n';
      assert key[|line| - i] != '\n';
      StartsWithAt(s[i..], key, |line| - i);
    }
  }

  /** A key without a newline in a terminated line is in the line. */
  lemma MarkerInLine(line: string, key: string)
    requires key != "" && All(key, NotNewline)
    ensures Contains(line + "\n", key) <==> Contains(line, key)
  {
    var s := line + "\n";
    if Contains(s, key) {
      var i :| 0 <= i <= |s| && StartsWith(s[i..], key);
      KeyEndsBefore(line, key, i);
      assert s[i..][..|key|] == line[i..][..|key|];
    }
    if Contains(line, key) {
      assert s[0..|line|] == line;
      ContainsSlice(s, 0, |line|, key);
    }
  }

  lemma NoMarkersTerminated(line: string)
    requires !PrefersPrometheus(line)
    ensures !PrefersPrometheus(line + "\n")
  {
    hide Contains;
    MarkerInLine(line, TYPE_PREFIX);
    MarkerInLine(line, HELP_PREFIX);
    MarkerInLine(line, "{");
  }

  /** A body that holds a marker anywhere is merged whole: all of it or nothing. */
  lemma {:induction false} MarkersDecide(c: Contents, a: string, marker: string, b: string)
    requires marker == "# TYPE " || marker == "# HELP " || marker == "{"
    ensures var body := a + marker + b;
            && (ParseText(body).Ok? ==>
                  IngestOutcome(c, body) == Outcome(UpsertAll(c, ParseText(body).value), |ParseText(body).value|, 0, ""))
            && (ParseText(body).Err? ==> IngestOutcome(c, body) == Outcome(c, 0, 1, ParseText(body).error))
  {
    hide ParseText, Lines, LinePath;
    var body := a + marker + b;
    assert body[|a|..] == marker + b;
    assert StartsWith(marker + b, marker);
    assert Contains(body, marker);
  }

  // ---------------------------------------------------------------- one line

  /** The words of `name type value ...`. */
  lemma SimpleWords(line: string, n: string, t: string, v: string, tail: string)
    requires line == n + (" " + (t + (" " + (v + tail))))
    requires n != "" && All(n, NotSpace) && t != "" && All(t, NotSpace) && v != "" && All(v, NotSpace)
    requires tail == "" || IsSpace(tail[0])
    ensures Word(line) == n && SecondWord(line) == t && ThirdWord(line) == v
  {
    hide Word, AfterWord;
    WordSeam(n, " " + (t + (" " + (v + tail))));
    WordSeam(t, " " + (v + tail));
    WordSeam(v, tail);
  }

  lemma NumberIsWord(x: Num)
    ensures PrintNum(x) != "" && All(PrintNum(x), NotSpace)
  {
    hide PrintNum;
    PrintNumChars(x);
  }

  /** The metric stored for a name, a type word and a printed value: no help, no labels. */
  function Stored(n: string, t: string, x: Num): Metric {
    if AnyCase(t, "counter") then ACounter(n, "", "", if NumLess(x, Finite(0.0)) then Finite(0.0) else Round6(x))
    else if AnyCase(t, "gauge") then AGauge(n, "", "", Round6(x))
    else
      AHistogram(n, "", "",
                 [Finite(0.005), Finite(0.01), Finite(0.025), Finite(0.05), Finite(0.1), Finite(0.25), Finite(0.5),
                  Finite(1.0), Finite(2.5), Finite(5.0), Finite(10.0)], [0, 0, 0, 0, 0, 0, 0, 0, 0, 0, 0], 0.0, 0)
  }

  lemma MadeStored(n: string, t: string, x: Num)
    requires AnyCase(t, "counter") || AnyCase(t, "gauge") || AnyCase(t, "histogram")
    ensures MakeMetric(MetricSpec(n, t, "", Round6(x), "", [])) == Some(Stored(n, t, x))
  {
    hide AnyCase, MakeMetric, EmptyHistogram, Round6;
    MadeByType(n, t, "", Round6(x), "", []);
    DefaultBuckets(n, "", "");
    Round6Sign(x);
    TypeWordsApart(t);
  }

  /** A cleaned line of that shape looks simple and carries just these three words. */
  lemma SimpleOutcome(o: Outcome, raw: string, n: string, t: string, x: Num, tail: string)
    requires CleanLine(raw) == n + (" " + (t + (" " + (PrintNum(x) + tail))))
    requires n != "" && All(n, NotSpace) && n[0] != '#'
    requires AnyCase(t, "counter") || AnyCase(t, "gauge") || AnyCase(t, "histogram")
    requires tail == "" || IsSpace(tail[0])
    ensures LineOutcome(o, raw) == o.(contents := o.contents[n := Stored(n, t, x)], accepted := o.accepted + 1)
  {
    hide CleanLine, PrintNum, ParseNum, AnyCase, MakeMetric, Stored, Word, AfterWord, ParseMetricType, ParseText, Round6;
    var line := CleanLine(raw);
    NumberIsWord(x);
    TypeIsWord(t);
    SimpleWords(line, n, t, PrintNum(x), tail);
    ParsePrintNum(x);
    TypeWordIff(t);
    MadeStored(n, t, x);
    assert line[0] == n[0];
  }

  /** The outcome of a body of one line, with or without its newline. */
  lemma OneLineBody(c: Contents, raw: string, body: string)
    requires raw != "" && All(raw, NotNewline) && !PrefersPrometheus(raw)
    requires body == raw || body == raw + "\n"
    ensures IngestOutcome(c, body) == LineOutcome(Outcome(c, 0, 0, ""), raw)
  {
    hide LineOutcome, LinePath, Contains, Unlines;
    NoMarkersTerminated(raw);
    var none: seq<string> := [];
    if body == raw {
      LinesUnterminated(none, raw);
      assert Unlines(none) + raw == raw by { NothingUnlined(); }
      assert none + [raw] == [raw];
    } else {
      LinesUnlines([raw]);
      assert Unlines([raw]) == raw + "\n" by { OneUnlined(raw); }
    }
    assert Lines(body) == [raw];
    OneLinePath(Outcome(c, 0, 0, ""), raw);
  }

  lemma NothingUnlined()
    ensures Unlines([]) == ""
  {
  }

  lemma OneUnlined(raw: string)
    ensures Unlines([raw]) == raw + "\n"
  {
    assert [raw][1..] == [];
  }

  /**
   A pushed line `name type value`, whatever white space and words are around it: one line accepted, nothing rejected, and
   under the name the metric of that type with that value; every other name as it was.
   */
  lemma {:induction false} SimpleLineStored(c: Contents, raw: string, body: string, n: string, t: string, x: Num, tail: string)
    requires All(raw, NotNewline) && CleanLine(raw) == n + (" " + (t + (" " + (PrintNum(x) + tail))))
    requires n != "" && All(n, NotSpace) && n[0] != '#'
    requires AnyCase(t, "counter") || AnyCase(t, "gauge") || AnyCase(t, "histogram")
    requires tail == "" || IsSpace(tail[0])
    requires !Contains(raw, "{") && !Contains(raw, "# TYPE ") && !Contains(raw, "# HELP ")
    requires body == raw || body == raw + "\n"
    ensures IngestOutcome(c, body) == Outcome(c[n := Stored(n, t, x)], 1, 0, "")
  {
    hide CleanLine, PrintNum, AnyCase, Stored, Contains, LineOutcome, LinePath, Lines;
    if raw == "" { NothingCleaned(); }
    OneLineBody(c, raw, body);
    SimpleOutcome(Outcome(c, 0, 0, ""), raw, n, t, x, tail);
  }

  lemma NothingCleaned()
    ensures CleanLine("") == ""
  {
  }

  // ---------------------------------------------------------------- the plain line

  /** The markers need a `#`, a blank and a word that no type word starts like. */
  lemma PlainHasNoMarkers(n: string, t: string, v: string)
    requires n != "" && All(n, NotSpace) && n[0] != '#' && All(n, NoBrace)
    requires AnyCase(t, "counter") || AnyCase(t, "gauge") || AnyCase(t, "histogram")
    requires v != "" && All(v, IsNumChar)
    ensures var line := n + (" " + (t + (" " + v)));
            !Contains(line, "{") && !Contains(line, "# TYPE ") && !Contains(line, "# HELP ")
  {
    var line := n + (" " + (t + (" " + v)));
    TypeLetters(t);
    forall i | 0 <= i < |line| ensures line[i] != '{' {
      LineChar(n, t, v, i);
    }
    ContainsFirst(line, "{");
    NoCommentKey(n, t, v, "# TYPE ");
    NoCommentKey(n, t, v, "# HELP ");
  }

  predicate NoBrace(c: char) { c != '{' }

  lemma TypeLetters(t: string)
    requires AnyCase(t, "counter") || AnyCase(t, "gauge") || AnyCase(t, "histogram")
    ensures t != "" && (forall i :: 0 <= i < |t| ==> t[i] != '{' && t[i] != '#' && t[i] != ' ')
    ensures t[0] != 'T' && (t[0] == 'H' ==> |t| > 1 && t[1] != 'E')
  {
    forall i | 0 <= i < |t| ensures t[i] != '{' && t[i] != '#' && t[i] != ' ' {
      assert 'A' <= t[i] <= 'z';
    }
    if AnyCase(t, "histogram") { assert "histogram"[1] == 'i'; }
  }

  /** Where each character of the line comes from. */
  lemma LineChar(n: string, t: string, v: string, i: nat)
    requires i < |n| + |t| + |v| + 2
    ensures var line := n + (" " + (t + (" " + v)));
            && |line| == |n| + |t| + |v| + 2
            && line[i] == if i < |n| then n[i] else if i == |n| then ' '
                          else if i < |n| + 1 + |t| then t[i - |n| - 1]
                          else if i == |n| + 1 + |t| then ' ' else v[i - |n| - |t| - 2]
  {
  }

  lemma NoCommentKey(n: string, t: string, v: string, key: string)
    requires n != "" && All(n, NotSpace) && n[0] != '#' && v != "" && All(v, IsNumChar)
    requires t != "" && (forall i :: 0 <= i < |t| ==> t[i] != '#' && t[i] != ' ')
    requires t[0] != 'T' && (t[0] == 'H' ==> |t| > 1 && t[1] != 'E')
    requires key == "# TYPE " || key == "# HELP "
    ensures !Contains(n + (" " + (t + (" " + v))), key)
  {
    var line := n + (" " + (t + (" " + v)));
    forall i | 0 <= i <= |line| ensures !StartsWith(line[i..], key) { NoKeyAt(n, t, v, key, i); }
  }

  lemma NoKeyAt(n: string, t: string, v: string, key: string, i: nat)
    requires n != "" && All(n, NotSpace) && n[0] != '#' && v != "" && All(v, IsNumChar)
    requires t != "" && (forall j :: 0 <= j < |t| ==> t[j] != '#' && t[j] != ' ')
    requires t[0] != 'T' && (t[0] == 'H' ==> |t| > 1 && t[1] != 'E')
    requires key == "# TYPE " || key == "# HELP "
    requires i <= |n + (" " + (t + (" " + v)))|
    ensures !StartsWith((n + (" " + (t + (" " + v))))[i..], key)
  {
    var line := n + (" " + (t + (" " + v)));
    KeyChars(line, i, key);
    if i + 7 <= |line| {
      LineChar(n, t, v, i);
      LineChar(n, t, v, i + 1);
      LineChar(n, t, v, i + 2);
      LineChar(n, t, v, i + 3);
    }
  }

  lemma KeyChars(line: string, i: nat, key: string)
    requires key == "# TYPE " || key == "# HELP "
    requires i <= |line|
    ensures StartsWith(line[i..], key) ==>
              i + 7 <= |line| && line[i] == '#' && line[i + 1] == ' '
              && (line[i + 2] == 'T' || (line[i + 2] == 'H' && line[i + 3] == 'E'))
  {
    StartsWithAt(line[i..], key, 0);
    StartsWithAt(line[i..], key, 1);
    StartsWithAt(line[i..], key, 2);
    StartsWithAt(line[i..], key, 3);
    assert |key| == 7;
  }

  lemma PlainCleans(n: string, t: string, v: string)
    requires n != "" && All(n, NotSpace) && v != "" && All(v, NotSpace) && All(t, NotNewline)
    ensures var line := n + (" " + (t + (" " + v)));
            CleanLine(line) == line && All(line, NotNewline)
  {
    var line := n + (" " + (t + (" " + v)));
    LineChar(n, t, v, 0);
    LineChar(n, t, v, |line| - 1);
    assert DropReturn(line) == line;
    TrimFixed(line);
    forall i | 0 <= i < |line| ensures NotNewline(line[i]) { LineChar(n, t, v, i); }
  }

  /** The plain case: any one-word name without `{`, a type word in any case, and any printed value. */
  lemma {:induction false} PlainLineStored(c: Contents, body: string, n: string, t: string, x: Num)
    requires n != "" && All(n, NotSpace) && n[0] != '#' && All(n, NoBrace)
    requires AnyCase(t, "counter") || AnyCase(t, "gauge") || AnyCase(t, "histogram")
    requires var line := n + (" " + (t + (" " + PrintNum(x)))); body == line || body == line + "\n"
    ensures IngestOutcome(c, body) == Outcome(c[n := Stored(n, t, x)], 1, 0, "")
  {
    hide PrintNum, AnyCase, Stored, CleanLine, Contains, IngestOutcome;
    var v := PrintNum(x);
    var line := n + (" " + (t + (" " + v)));
    NumberIsWord(x);
    PrintNumChars(x);
    TypeIsWord(t);
    PlainCleans(n, t, v);
    PlainHasNoMarkers(n, t, v);
    assert v + "" == v;
    SimpleLineStored(c, line, body, n, t, x, "");
  }

  // ---------------------------------------------------------------- several lines

  /** Lines are taken one after another. */
  lemma {:induction false} LinePathAppend(o: Outcome, a: seq<string>, b: seq<string>)
    ensures LinePath(o, a + b) == LinePath(LinePath(o, a), b)
    decreases |a|
  {
    hide LineOutcome;
    if a == [] {
      assert a + b == b;
    } else {
      LinePathAppend(LineOutcome(o, a[0]), a[1..], b);
      assert (a + b)[1..] == a[1..] + b;
    }
  }

  /** Lines that are all usable, blank or comments leave the last error as it was. */
  lemma {:induction false} UsableKeepError(o: Outcome, lines: seq<string>)
    requires forall i :: 0 <= i < |lines| ==> All(lines[i], NotNewline) && (IsDataLine(lines[i]) ==> Usable(lines[i]))
    ensures LinePath(o, lines).lastError == o.lastError
    decreases |lines|
  {
    hide IsDataLine, LooksLikeSimpleLine, CleanLine, ParseText, ParseSample, SpecFor, Upserted, SimpleSpec;
    if lines != [] {
      var raw := lines[0];
      if IsDataLine(raw) && !LooksLikeSimpleLine(CleanLine(raw)) { LineOutcomeCases(o, raw); }
      UsableKeepError(LineOutcome(o, raw), lines[1..]);
    }
  }

  /** The error reported is that of the last line that could not be used. */
  lemma {:induction false} LastErrorReported(o: Outcome, a: seq<string>, bad: string, b: seq<string>)
    requires All(bad, NotNewline) && IsDataLine(bad) && !Usable(bad)
    requires forall i :: 0 <= i < |b| ==> All(b[i], NotNewline) && (IsDataLine(b[i]) ==> Usable(b[i]))
    ensures ParseSample(CleanLine(bad)).Err?
    ensures LinePath(o, a + [bad] + b).lastError == ParseSample(CleanLine(bad)).error
  {
    hide IsDataLine, LooksLikeSimpleLine, CleanLine, ParseText, ParseSample, SpecFor, Upserted, SimpleSpec, LinePath;
    LinePathAppend(o, a + [bad], b);
    LinePathAppend(o, a, [bad]);
    var before := LinePath(o, a);
    LineOutcomeCases(before, bad);
    OneLinePath(before, bad);
    UsableKeepError(LinePath(o, a + [bad]), b);
  }

  lemma OneLinePath(o: Outcome, raw: string)
    ensures LinePath(o, [raw]) == LineOutcome(o, raw)
  {
    hide LineOutcome;
    assert [raw][1..] == [];
  }
}
