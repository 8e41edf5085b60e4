/**
 The snapshot store: a save writes a temporary file line by line and renames it over the snapshot,
 a load upserts every readable line. The disk records each state a crash could leave behind.
 */
module SnapshotStore {
  import opened Text
  import opened Numbers
  import opened NumberText
  import opened Metrics
  import opened Registry
  import opened Exposition
  import opened Snapshot
  import opened SnapshotFile

  type Files = map<string, string>

  // ---------------------------------------------------------------- the disk

  /** As much of `text` as fits in `room` characters. */
  function Clip(text: string, room: nat): (t: string)
    ensures |t| <= room && t <= text
  {
    if |text| <= room then text else text[..room]
  }

  /** A flat file system. `history` holds the state after every operation, oldest first. */
  class Disk {
    var files: Files
    ghost var history: seq<Files>

    constructor (files: Files)
      ensures this.files == files && history == []
    {
      this.files := files;
      history := [];
    }

    method Truncate(path: string)
      modifies this
      ensures files == old(files)[path := ""]
      ensures history == old(history) + [files]
    {
      files := files[path := ""];
      history := history + [files];
    }

    /** Append to an open file with `room` characters left on the device. */
    method Append(path: string, text: string, room: nat) returns (left: nat)
      requires path in files
      modifies this
      ensures files == old(files)[path := old(files)[path] + Clip(text, room)]
      ensures history == old(history) + [files]
      ensures left == room - |Clip(text, room)|
    {
      files := files[path := files[path] + Clip(text, room)];
      history := history + [files];
      left := room - |Clip(text, room)|;
    }

    /** Atomic replacement. */
    method Rename(from: string, to: string)
      requires from in files && from != to
      modifies this
      ensures files == old(files)[to := old(files)[from]] - {from}
      ensures history == old(history) + [files]
    {
      files := files[to := files[from]] - {from};
      history := history + [files];
    }
  }

  // ---------------------------------------------------------------- one save, as a list of disk states

  /** What can go wrong: opening, running out of space, the final flush, the rename. */
  datatype Faults = Faults(openOk: bool, room: nat, closeOk: bool, renameOk: bool)

  function TempPath(path: string): string { path + ".tmp" }

  predicate Commits(path: string, lines: seq<string>, faults: Faults) {
    path != "" && faults.openOk && |Unlines(lines)| <= faults.room && faults.closeOk && faults.renameOk
  }

  function Committed(files: Files, path: string, text: string): Files {
    files[path := text] - {TempPath(path)}
  }

  /** The disk after the first `n` lines have been written to the temporary file. */
  function Partial(files: Files, path: string, lines: seq<string>, n: nat, room: nat): Files
    requires n <= |lines|
  {
    files[TempPath(path) := Clip(Unlines(lines[..n]), room)]
  }

  /** The first `n` states of writing the temporary file. */
  function PartialStates(files: Files, path: string, lines: seq<string>, n: nat, room: nat): seq<Files>
    requires n <= |lines| + 1
  {
    seq(n, k requires 0 <= k < n => Partial(files, path, lines, k, room))
  }

  /** Every disk state a save goes through. */
  function SaveStates(files: Files, path: string, lines: seq<string>, faults: Faults): seq<Files> {
    if path == "" || !faults.openOk then []
    else
      PartialStates(files, path, lines, |lines| + 1, faults.room)
      + (if Commits(path, lines, faults) then [Committed(files, path, Unlines(lines))] else [])
  }

  ghost function FileLines(c: Contents): seq<string>
    requires ValidContents(c)
  {
    SnapshotLines(Listing(c), |Listing(c)|)
  }

  // ---------------------------------------------------------------- what every state keeps

  ghost predicate SameAt(a: Files, b: Files, path: string) {
    (path in a <==> path in b) && (path in a ==> a[path] == b[path])
  }

  lemma TempDiffers(path: string)
    ensures TempPath(path) != path
  {
    assert |TempPath(path)| == |path| + 4;
  }

  /** At every step of a save the snapshot is the old file or the complete new one, and no other file changes. */
  lemma SaveIsAtomic(files: Files, path: string, lines: seq<string>, faults: Faults, i: nat)
    requires i < |SaveStates(files, path, lines, faults)|
    ensures var s := SaveStates(files, path, lines, faults)[i];
            && (SameAt(s, files, path) || (path in s && s[path] == Unlines(lines)))
            && (forall q :: q != path && q != path + ".tmp" ==> SameAt(s, files, q))
            && (path in s && s[path] == Unlines(lines) && !SameAt(s, files, path)
                ==> Commits(path, lines, faults) && i == |lines| + 1)
  {
    TempDiffers(path);
  }

  // ---------------------------------------------------------------- the store

  lemma {:induction false} UnlinesOneMore(lines: seq<string>, n: nat)
    requires n < |lines|
    ensures Unlines(lines[..n + 1]) == Unlines(lines[..n]) + (lines[n] + "\n")
  {
    assert lines[..n + 1] == lines[..n] + [lines[n]];
    UnlinesAppend(lines[..n], [lines[n]]);
    assert [lines[n]][1..] == [];
    assert Unlines([lines[n]]) == lines[n] + "\n";
  }

  lemma ClipAppend(a: string, b: string, room: nat)
    ensures Clip(a, room) + Clip(b, room - |Clip(a, room)|) == Clip(a + b, room)
  {
    if |a| > room {
      assert (a + b)[..room] == a[..room];
    } else if |a + b| > room {
      assert (a + b)[..room] == a + b[..room - |a|];
    }
  }

  lemma {:induction false} SnapshotLinesAt(ms: seq<Metric>, n: nat, i: nat)
    requires i <= n <= |ms|
    ensures |SnapshotLines(ms, n)| == n + 1
    ensures SnapshotLines(ms, n)[i] == if i == 0 then HEADER else SnapshotLine(ms[i - 1])
  {
    hide SnapshotLine;
    if n > 0 {
      if i < n { SnapshotLinesAt(ms, n - 1, i); } else { SnapshotLinesAt(ms, n - 1, n - 1); }
    }
  }

  /** The stream insertions of one line. */
  method FormatLine(name: string, typ: string, value: string, labels: string, help: string) returns (line: string)
    ensures line == name + (" " + (typ + (" " + (value + (LabelsField(labels) + HelpField(help))))))
  {
    ghost var start := name + " " + typ + " " + value;
    line := name + " " + typ + " " + value;
    if labels != "" {
      line := line + " labels=" + labels;
      Regroup(start, " labels=", labels);
    }
    assert line == start + LabelsField(labels);
    if help != "" {
      line := line + " help=" + help;
      Regroup(start + LabelsField(labels), " help=", help);
    }
    LineAssociates(name, typ, value, LabelsField(labels), HelpField(help));
  }

  lemma Regroup(a: string, b: string, c: string)
    ensures a + b + c == a + (b + c)
  {
  }

  lemma LineAssociates(n: string, t: string, v: string, l: string, h: string)
    ensures n + " " + t + " " + v + l + h == n + (" " + (t + (" " + (v + (l + h)))))
  {
  }

  /** The line written for one metric: a histogram is saved by its count alone. */
  method LineFor(ref: MetricRef) returns (line: string)
    ensures line == SnapshotLine(ref.View())
  {
    hide PrintNum, LabelsField, HelpField;
    match ref {
      case CounterRef(c) => line := FormatLine(c.name, "counter", PrintNum(c.value), c.labels, c.help);
      case GaugeRef(g) => line := FormatLine(g.name, "gauge", PrintNum(g.value), g.labels, g.help);
      case HistogramRef(h) => line := FormatLine(h.name, "histogram", PrintNum(Finite(h.count as real)), h.labels, h.help);
    }
  }

  /** Where a save stands once `n` lines are in the temporary file of a disk that held `files`. */
  ghost predicate Written(now: Files, files: Files, path: string, lines: seq<string>, n: nat, room: nat, left: nat, good: bool)
    requires n <= |lines|
  {
    && now == Partial(files, path, lines, n, room)
    && left == room - |Clip(Unlines(lines[..n]), room)| && good == (|Unlines(lines[..n])| <= room)
  }

  lemma WrittenStart(files: Files, path: string, lines: seq<string>, room: nat)
    ensures Written(files[TempPath(path) := ""], files, path, lines, 0, room, room, true)
  {
    assert lines[..0] == [];
  }

  lemma PartialStatesSnoc(files: Files, path: string, lines: seq<string>, n: nat, room: nat)
    requires n <= |lines|
    ensures PartialStates(files, path, lines, n + 1, room) == PartialStates(files, path, lines, n, room) + [Partial(files, path, lines, n, room)]
  {
    hide Partial;
  }

  lemma StartsHistory(files: Files, path: string, lines: seq<string>, room: nat)
    ensures PartialStates(files, path, lines, 1, room) == [files[TempPath(path) := ""]]
  {
    assert lines[..0] == [];
  }

  lemma AllWritten(now: Files, files: Files, path: string, lines: seq<string>, room: nat, left: nat, good: bool)
    requires Written(now, files, path, lines, |lines|, room, left, good)
    ensures now == Partial(files, path, lines, |lines|, room) && good == (|Unlines(lines)| <= room)
  {
    assert lines[..|lines|] == lines;
  }

  lemma RefsApart(registry: MetricRegistry, disk: Disk, refs: seq<MetricRef>)
    requires registry.Valid() && disk as object !in registry.Repr
    requires EntriesOf(refs, registry)
    ensures forall i :: 0 <= i < |refs| ==> refs[i].Obj() != disk
  {
  }

  /** The rename, as a change of the disk. */
  lemma RenameCommits(files: Files, path: string, lines: seq<string>, room: nat)
    requires |Unlines(lines)| <= room
    ensures var now := Partial(files, path, lines, |lines|, room);
            && TempPath(path) in now
            && now[path := now[TempPath(path)]] - {TempPath(path)} == Committed(files, path, Unlines(lines))
  {
    hide Unlines;
    TempDiffers(path);
    assert lines[..|lines|] == lines;
  }

  class SnapshotStore {
    const path: string
    var running: bool

    constructor (path: string)
      ensures this.path == path && !running
    {
      this.path := path;
      running := false;
    }

    /** Write the temporary file: the header and one line a metric. `good` is the state of the stream. */
    method WriteTemp(disk: Disk, registry: MetricRegistry, room: nat) returns (good: bool)
      requires registry.Valid() && disk as object !in registry.Repr && path != ""
      modifies disk
      ensures var lines := FileLines(registry.Contents());
              && disk.history == old(disk.history) + PartialStates(old(disk.files), path, lines, |lines| + 1, room)
              && disk.files == Partial(old(disk.files), path, lines, |lines|, room)
              && good == (|Unlines(lines)| <= room)
    {
      hide SnapshotLine, SnapshotLines, Unlines, Clip, Partial, PartialStates, Written, WellFormed, IsListing;
      ghost var files, h := disk.files, disk.history;
      ghost var c := registry.Contents();
      ghost var ms := Listing(c);
      SnapshotLinesAt(ms, |ms|, 0);
      var left: nat;
      left, good := WriteHeader(disk, files, h, SnapshotLines(ms, |ms|), room);
      assert registry.Valid() && registry.Contents() == c;
      good := WriteMetrics(disk, registry, ms, files, h, room, left, good);
    }

    /** The lines after the header, in name order. */
    method WriteMetrics(disk: Disk, registry: MetricRegistry, ghost ms: seq<Metric>, ghost files: Files, ghost h: seq<Files>,
                        ghost room: nat, left: nat, good: bool)
      returns (good': bool)
      requires registry.Valid() && disk as object !in registry.Repr && ms == Listing(registry.Contents())
      requires |SnapshotLines(ms, |ms|)| == |ms| + 1
      requires Written(disk.files, files, path, SnapshotLines(ms, |ms|), 1, room, left, good)
      requires disk.history == h + PartialStates(files, path, SnapshotLines(ms, |ms|), 2, room)
      modifies disk
      ensures var lines := SnapshotLines(ms, |ms|);
              && disk.history == h + PartialStates(files, path, lines, |lines| + 1, room)
              && disk.files == Partial(files, path, lines, |lines|, room)
              && good' == (|Unlines(lines)| <= room)
    {
      hide SnapshotLines, Unlines, Clip, Partial, PartialStates, Written, WellFormed, IsListing;
      var refs := SortedList(registry);
      RefsApart(registry, disk, refs);
      var left';
      left', good' := WriteLines(disk, refs, ms, files, h, room, left, good);
      AllWritten(disk.files, files, path, SnapshotLines(ms, |ms|), room, left', good');
    }

    method WriteHeader(disk: Disk, ghost files: Files, ghost h: seq<Files>, ghost lines: seq<string>, room: nat)
      returns (left: nat, good: bool)
      requires lines != [] && lines[0] == HEADER && disk.files == files && disk.history == h
      modifies disk
      ensures Written(disk.files, files, path, lines, 1, room, left, good)
      ensures disk.history == h + PartialStates(files, path, lines, 2, room)
    {
      hide Partial, PartialStates, Written;
      disk.Truncate(path + ".tmp");
      WrittenStart(files, path, lines, room);
      StartsHistory(files, path, lines, room);
      left, good := WriteLine(disk, HEADER, files, h, lines, 0, room, room, true);
    }

    /** The loop over the sorted metrics. */
    method WriteLines(disk: Disk, refs: seq<MetricRef>, ghost ms: seq<Metric>, ghost files: Files, ghost h: seq<Files>,
                      ghost room: nat, left: nat, good: bool)
      returns (left': nat, good': bool)
      requires |refs| == |ms| && forall i :: 0 <= i < |refs| ==> refs[i].Obj() != disk && refs[i].View() == ms[i]
      requires |SnapshotLines(ms, |ms|)| == |ms| + 1
      requires Written(disk.files, files, path, SnapshotLines(ms, |ms|), 1, room, left, good)
      requires disk.history == h + PartialStates(files, path, SnapshotLines(ms, |ms|), 2, room)
      modifies disk
      ensures Written(disk.files, files, path, SnapshotLines(ms, |ms|), |ms| + 1, room, left', good')
      ensures disk.history == h + PartialStates(files, path, SnapshotLines(ms, |ms|), |ms| + 2, room)
    {
      hide SnapshotLine, SnapshotLines, PartialStates, Written;
      left', good' := left, good;
      ghost var lines := SnapshotLines(ms, |ms|);
      for i := 0 to |refs|
        invariant forall k :: 0 <= k < |refs| ==> refs[k].View() == ms[k]
        invariant Written(disk.files, files, path, lines, i + 1, room, left', good')
        invariant disk.history == h + PartialStates(files, path, lines, i + 2, room)
      {
        var line := LineFor(refs[i]);
        SnapshotLinesAt(ms, |ms|, i + 1);
        left', good' := WriteLine(disk, line, files, h, lines, i + 1, room, left', good');
      }
    }

    /** One insertion into the stream; a stream that has failed has no room left. */
    method WriteLine(disk: Disk, line: string, ghost files: Files, ghost h: seq<Files>, ghost lines: seq<string>,
                     ghost n: nat, ghost room: nat, left: nat, good: bool)
      returns (left': nat, good': bool)
      requires n < |lines| && line == lines[n]
      requires Written(disk.files, files, path, lines, n, room, left, good)
      requires disk.history == h + PartialStates(files, path, lines, n + 1, room)
      modifies disk
      ensures Written(disk.files, files, path, lines, n + 1, room, left', good')
      ensures disk.history == h + PartialStates(files, path, lines, n + 2, room)
    {
      hide Unlines, PartialStates;
      UnlinesOneMore(lines, n);
      ClipAppend(Unlines(lines[..n]), line + "\n", room);
      good' := good && |line + "\n"| <= left;
      left' := disk.Append(path + ".tmp", line + "\n", left);
      PartialStatesSnoc(files, path, lines, n + 1, room);
    }

    method Save(disk: Disk, registry: MetricRegistry, faults: Faults) returns (ok: bool)
      requires registry.Valid() && disk as object !in registry.Repr
      modifies disk
      ensures var lines := FileLines(registry.Contents());
              && disk.history == old(disk.history) + SaveStates(old(disk.files), path, lines, faults)
              && ok == (path == "" || (faults.openOk && |Unlines(lines)| <= faults.room && faults.closeOk && faults.renameOk))
              && disk.files == if Commits(path, lines, faults) then Committed(old(disk.files), path, SaveText(registry.Contents()))
                               else if path == "" || !faults.openOk then old(disk.files)
                               else Partial(old(disk.files), path, lines, |lines|, faults.room)
    {
      hide Unlines, SnapshotLines, Partial, PartialStates, Committed, WellFormed, IsListing;
      if path == "" {
        return true;
      }
      if !faults.openOk {
        return false;
      }
      ghost var lines := FileLines(registry.Contents());
      ghost var files := disk.files;
      var good := WriteTemp(disk, registry, faults.room);
      good := good && faults.closeOk;
      if !good {
        return false;
      }
      if !faults.renameOk {
        return false;
      }
      TempDiffers(path);
      RenameCommits(files, path, lines, faults.room);
      disk.Rename(path + ".tmp", path);
      return true;
    }

    method Load(disk: Disk, registry: MetricRegistry) returns (ok: bool)
      requires registry.Valid()
      modifies registry
      ensures registry.Valid() && fresh(registry.Repr - old(registry.Repr)) && ok
      ensures registry.Contents() == if path == "" || path !in disk.files then old(registry.Contents())
                                     else LoadText(old(registry.Contents()), disk.files[path])
    {
      hide LoadLine;
      if path == "" {
        return true;
      }
      if path !in disk.files {
        return true;
      }
      var rest := disk.files[path];
      while rest != []
        invariant registry.Valid() && fresh(registry.Repr - old(registry.Repr))
        invariant LoadText(registry.Contents(), rest) == LoadText(old(registry.Contents()), disk.files[path])
        decreases |rest|
      {
        var raw := FirstLine(rest);
        assert Lines(rest)[0] == raw && Lines(rest)[1..] == Lines(AfterLine(rest));
        rest := AfterLine(rest);
        LoadOne(registry, raw);
      }
      return true;
    }

    /** The body of the load loop. */
    method LoadOne(registry: MetricRegistry, raw: string)
      requires registry.Valid()
      modifies registry
      ensures registry.Valid() && fresh(registry.Repr - old(registry.Repr))
      ensures registry.Contents() == LoadLine(old(registry.Contents()), raw)
    {
      hide MakeMetric, WellFormed, ParseSnapshotLine, Trim, Take;
      var line := Trim(Take(raw, NotHash));
      if line == [] {
        return;
      }
      var r := Snapshot.ParseLine(line);
      if r.Err? {
        return;
      }
      LoadedSpecPlain(raw);
      var ok := registry.Upsert(r.value);
    }

    method Start() returns (ok: bool)
      modifies this
      ensures ok && running == (old(running) || path != "")
    {
      if path != "" {
        running := true;
      }
      return true;
    }

    /** Only a store that is running writes a final snapshot. */
    method Stop(disk: Disk, registry: MetricRegistry, faults: Faults)
      requires registry.Valid() && disk as object !in registry.Repr && disk as object != this && this !in registry.Repr
      modifies this, disk
      ensures !running
      ensures disk.history == old(disk.history)
                + (if old(running) then SaveStates(old(disk.files), path, FileLines(registry.Contents()), faults) else [])
      ensures !old(running) ==> disk.files == old(disk.files)
      ensures !old(running) || !Commits(path, FileLines(registry.Contents()), faults)
              ==> forall q :: q != TempPath(path) ==> SameAt(disk.files, old(disk.files), q)
      ensures old(running) && Commits(path, FileLines(registry.Contents()), faults)
              ==> disk.files == Committed(old(disk.files), path, SaveText(registry.Contents()))
    {
      if !running {
        return;
      }
      running := false;
      var _ := Save(disk, registry, faults);
    }
  }

  // ---------------------------------------------------------------- crashes, over any number of saves

  /** A save of registry `c` that is cut off after `steps` disk operations, if it has that many. */
  datatype Attempt = Attempt(c: Contents, faults: Faults, steps: nat)

  ghost predicate ValidAttempts(attempts: seq<Attempt>) {
    forall i :: 0 <= i < |attempts| ==> ValidContents(attempts[i].c)
  }

  ghost function AfterAttempt(files: Files, path: string, a: Attempt): Files
    requires ValidContents(a.c)
  {
    var states := SaveStates(files, path, FileLines(a.c), a.faults);
    if states == [] || a.steps == 0 then files
    else states[(if a.steps <= |states| then a.steps else |states|) - 1]
  }

  /** The attempt got as far as the rename. */
  ghost predicate Completed(path: string, a: Attempt)
    requires ValidContents(a.c)
  {
    Commits(path, FileLines(a.c), a.faults) && a.steps >= |FileLines(a.c)| + 2
  }

  ghost function AfterAttempts(files: Files, path: string, attempts: seq<Attempt>): Files
    requires ValidAttempts(attempts)
  {
    if attempts == [] then files
    else AfterAttempt(AfterAttempts(files, path, attempts[..|attempts| - 1]), path, attempts[|attempts| - 1])
  }

  /** The last registry whose save completed. */
  ghost function LastCompleted(path: string, attempts: seq<Attempt>): Option<Contents>
    requires ValidAttempts(attempts)
  {
    if attempts == [] then None
    else if Completed(path, attempts[|attempts| - 1]) then Some(attempts[|attempts| - 1].c)
    else LastCompleted(path, attempts[..|attempts| - 1])
  }

  lemma AttemptIsAtomic(files: Files, path: string, a: Attempt)
    requires ValidContents(a.c)
    ensures var after := AfterAttempt(files, path, a);
            if Completed(path, a) then path in after && after[path] == SaveText(a.c) else SameAt(after, files, path)
  {
    hide Unlines, SnapshotLines;
    TempDiffers(path);
  }

  /** However saves fail or are cut off, the snapshot is the text of the last save that completed. */
  lemma {:induction false} CrashConsistency(files: Files, path: string, attempts: seq<Attempt>)
    requires ValidAttempts(attempts)
    ensures var after := AfterAttempts(files, path, attempts);
            match LastCompleted(path, attempts)
            case None => SameAt(after, files, path)
            case Some(c) => ValidContents(c) && path in after && after[path] == SaveText(c)
  {
    hide AfterAttempt, Completed, ValidContents, SaveText;
    if attempts != [] {
      var init := attempts[..|attempts| - 1];
      CrashConsistency(files, path, init);
      AttemptIsAtomic(AfterAttempts(files, path, init), path, attempts[|attempts| - 1]);
    }
  }

  /** So a load after any crash brings back that whole registry and nothing of an unfinished save. */
  lemma CrashRecovery(files: Files, path: string, attempts: seq<Attempt>, before: Contents)
    requires ValidAttempts(attempts)
    requires LastCompleted(path, attempts).Some? && SnapshotSafe(LastCompleted(path, attempts).value)
    ensures var after := AfterAttempts(files, path, attempts);
            path in after && LoadText(before, after[path]) == before + ReloadedAll(LastCompleted(path, attempts).value)
  {
    hide LoadText, SaveText, ReloadedAll, SnapshotSafe, ValidContents, AfterAttempts, LastCompleted;
    CrashConsistency(files, path, attempts);
    ReloadExact(before, LastCompleted(path, attempts).value);
  }
}
