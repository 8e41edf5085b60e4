/**
 The daemon's life: registering configured metrics, loading the snapshot, serving, and the stop that saves
 the snapshot before the scraper drains.
 */
module Daemon {
  import opened Text
  import opened Numbers
  import opened Metrics
  import opened Registry
  import opened Confluence
  import opened Exposition
  import opened SnapshotFile
  import opened SnapshotIdentity
  import opened Store = SnapshotStore

  // ---------------------------------------------------------------- initialisation

  /** `valid` and `tlsOk` are the outcomes of configuration validation and of loading the TLS files. */
  datatype Config = Config(valid: bool, metrics: seq<MetricSpec>, tlsOk: bool, snapshotFile: string)

  ghost predicate ComparableConfig(config: Config) {
    forall i :: 0 <= i < |config.metrics| ==> Comparable(config.metrics[i].buckets)
  }

  /** The registration loop: it stops at the first spec that is refused. */
  function RegisterAll(c: Contents, specs: seq<MetricSpec>): (Contents, bool)
    decreases |specs|
  {
    if specs == [] then (c, true)
    else
      var (d, ok) := Registered(c, specs[0]);
      if ok then RegisterAll(d, specs[1..]) else (d, false)
  }

  function Initial(before: Contents, config: Config, files: Files): (Contents, bool) {
    if !config.valid then (before, false)
    else
      var (c, ok) := RegisterAll(map[], config.metrics);
      if !ok || !config.tlsOk then (c, false)
      else if config.snapshotFile == "" || config.snapshotFile !in files then (c, true)
      else (LoadText(c, files[config.snapshotFile]), true)
  }

  ghost predicate DistinctNames(specs: seq<MetricSpec>) {
    forall i, j :: 0 <= i < j < |specs| ==> specs[i].name != specs[j].name
  }

  function NamesOf(specs: seq<MetricSpec>): set<string> { set i | 0 <= i < |specs| :: specs[i].name }

  /** The configured metrics register exactly when each can be built and no name occurs twice. */
  lemma {:induction false} RegisterAllIff(c: Contents, specs: seq<MetricSpec>)
    ensures RegisterAll(c, specs).1 <==>
              (forall i :: 0 <= i < |specs| ==> Accepts(specs[i]) && specs[i].name !in c) && DistinctNames(specs)
    ensures RegisterAll(c, specs).1 ==>
              forall i :: 0 <= i < |specs| ==>
                Accepts(specs[i]) && specs[i].name in RegisterAll(c, specs).0
                && RegisterAll(c, specs).0[specs[i].name] == MakeMetric(specs[i]).value
    ensures RegisterAll(c, specs).1 ==> RegisterAll(c, specs).0.Keys == c.Keys + NamesOf(specs)
    ensures forall k :: k in c ==> k in RegisterAll(c, specs).0 && RegisterAll(c, specs).0[k] == c[k]
    decreases |specs|
  {
    hide MakeMetric, NamesOf;
    if specs == [] {
      assert NamesOf(specs) == {} by { NoNames(); }
    } else {
      var (d, ok) := Registered(c, specs[0]);
      if ok {
        RegisterAllIff(d, specs[1..]);
        assert forall i :: 1 <= i < |specs| ==> specs[i] == specs[1..][i - 1];
        assert forall i :: 0 <= i < |specs[1..]| ==> specs[1..][i] == specs[i + 1];
        NamesOfCons(specs);
      }
    }
  }

  lemma NoNames()
    ensures NamesOf([]) == {}
  {
  }

  lemma NamesOfCons(specs: seq<MetricSpec>)
    requires specs != []
    ensures NamesOf(specs) == {specs[0].name} + NamesOf(specs[1..])
  {
    var rest := specs[1..];
    forall k | k in NamesOf(specs) ensures k in {specs[0].name} + NamesOf(rest) {
      var i :| 0 <= i < |specs| && specs[i].name == k;
      if i > 0 { assert rest[i - 1].name == k; }
    }
    forall k | k in NamesOf(rest) ensures k in NamesOf(specs) {
      var i :| 0 <= i < |rest| && rest[i].name == k;
      assert specs[i + 1].name == k;
    }
  }

  lemma {:induction false} RegisterAllValid(c: Contents, specs: seq<MetricSpec>)
    requires ValidContents(c) && forall i :: 0 <= i < |specs| ==> Comparable(specs[i].buckets)
    ensures ValidContents(RegisterAll(c, specs).0)
    decreases |specs|
  {
    hide MakeMetric, WellFormed;
    if specs != [] {
      var (d, ok) := Registered(c, specs[0]);
      if ok {
        UpsertedValid(c, specs[0]);
        RegisterAllValid(d, specs[1..]);
      }
    }
  }

  lemma EmptyIsValid()
    ensures ValidContents(map[])
  {
  }

  lemma InitialValid(before: Contents, config: Config, files: Files)
    requires ValidContents(before) && ComparableConfig(config)
    ensures ValidContents(Initial(before, config, files).0)
  {
    hide RegisterAll, LoadLines, WellFormed, Lines;
    RegisterAllValid(map[], config.metrics);
    var c := RegisterAll(map[], config.metrics).0;
    if config.snapshotFile in files { LoadLinesValid(c, Lines(files[config.snapshotFile])); }
  }

  /**
   Initialisation succeeds exactly for a valid configuration whose metrics can all be built under distinct names and whose
   TLS files load; whatever the registry held before is gone; and without a snapshot to load the registry is then
   exactly the configured metrics.
   */
  lemma {:induction false} InitialIff(before: Contents, config: Config, files: Files)
    ensures Initial(before, config, files).1
            <==> config.valid && config.tlsOk && (forall i :: 0 <= i < |config.metrics| ==> Accepts(config.metrics[i]))
                 && DistinctNames(config.metrics)
    ensures config.valid ==> Initial(before, config, files) == Initial(map[], config, files)
    ensures !config.valid ==> Initial(before, config, files).0 == before
    ensures Initial(before, config, files).1 && (config.snapshotFile == "" || config.snapshotFile !in files) ==>
              && Initial(before, config, files).0.Keys == NamesOf(config.metrics)
              && (forall i :: 0 <= i < |config.metrics| ==>
                    config.metrics[i].name in Initial(before, config, files).0
                    && Some(Initial(before, config, files).0[config.metrics[i].name]) == MakeMetric(config.metrics[i]))
  {
    hide RegisterAll, LoadText, MakeMetric, NamesOf;
    RegisterAllIff(map[], config.metrics);
    var none: Contents := map[];
    assert none.Keys + NamesOf(config.metrics) == NamesOf(config.metrics);
  }

  // ---------------------------------------------------------------- serving

  /** What pushes, scrapes and embedding code do to the registry. */
  datatype Operation = UpsertOp(spec: MetricSpec) | SetOp(name: string, v: Num) | IncrementOp(name: string, v: Num)

  ghost predicate ComparableOps(ops: seq<Operation>) {
    forall i :: 0 <= i < |ops| ==> ops[i].UpsertOp? ==> Comparable(ops[i].spec.buckets)
  }

  function Applied(c: Contents, op: Operation): Contents {
    match op
    case UpsertOp(spec) => Upserted(c, spec)
    case SetOp(name, v) => ValueSet(c, name, v).0
    case IncrementOp(name, v) => Incremented(c, name, v).0
  }

  function AppliedAll(c: Contents, ops: seq<Operation>): Contents {
    if ops == [] then c else Applied(AppliedAll(c, ops[..|ops| - 1]), ops[|ops| - 1])
  }

  lemma AppliedValid(c: Contents, op: Operation)
    requires ValidContents(c) && (op.UpsertOp? ==> Comparable(op.spec.buckets))
    ensures ValidContents(Applied(c, op)) && c.Keys <= Applied(c, op).Keys
  {
    hide MakeMetric, SetMetric, WellFormed;
    match op
    case UpsertOp(spec) => UpsertedValid(c, spec);
    case SetOp(name, v) => if name in c { SetMetricWellFormed(c[name], v); }
    case IncrementOp(name, v) =>
      if name in c && c[name].ACounter? { SetMetricWellFormed(c[name], NumAdd(c[name].value, v)); }
  }

  /** No operation removes a name or breaks the registry. */
  lemma {:induction false} AppliedAllValid(c: Contents, ops: seq<Operation>)
    requires ValidContents(c) && ComparableOps(ops)
    ensures ValidContents(AppliedAll(c, ops)) && c.Keys <= AppliedAll(c, ops).Keys
  {
    hide ValidContents, Applied;
    if ops != [] {
      AppliedAllValid(c, ops[..|ops| - 1]);
      AppliedValid(AppliedAll(c, ops[..|ops| - 1]), ops[|ops| - 1]);
    }
  }

  // ---------------------------------------------------------------- restart

  lemma InitialKeepsConfigured(before: Contents, config: Config, files: Files)
    requires Initial(before, config, files).1
    ensures RegisterAll(map[], config.metrics).1 && config.tlsOk && config.valid
    ensures RegisterAll(map[], config.metrics).0.Keys <= Initial(before, config, files).0.Keys
  {
    hide RegisterAll, LoadLines, Lines;
    var c := RegisterAll(map[], config.metrics).0;
    if config.snapshotFile in files { LoadLinesKeeps(c, Lines(files[config.snapshotFile])); }
  }

  /**
   A daemon starts, serves any operations, saves, and a fresh daemon starts from the same configuration: it has
   the same names, each metric in its reloaded form, and nothing differs exactly when every metric is lossless.
   */
  lemma RestartPreservation(config: Config, files: Files, ops: seq<Operation>, c: Contents, after: Files)
    requires ComparableConfig(config) && ComparableOps(ops) && config.snapshotFile != ""
    requires Initial(map[], config, files).1 && c == AppliedAll(Initial(map[], config, files).0, ops)
    requires ValidContents(c) && SnapshotSafe(c)
    requires config.snapshotFile in after && after[config.snapshotFile] == SaveText(c)
    ensures Initial(map[], config, after) == (ReloadedAll(c), true)
    ensures ReloadedAll(c).Keys == c.Keys
    ensures Initial(map[], config, after).0 == c <==> forall k :: k in c ==> Lossless(c[k])
  {
    hide RegisterAll, LoadLines, Lines, SaveText, ValidContents, SnapshotSafe, ComparableOps, AppliedAll, Reloaded, Lossless;
    EmptyIsValid();
    InitialValid(map[], config, files);
    InitialKeepsConfigured(map[], config, files);
    AppliedAllValid(Initial(map[], config, files).0, ops);
    var start := RegisterAll(map[], config.metrics).0;
    ReloadExact(start, c);
    assert start.Keys <= c.Keys;
    assert start + ReloadedAll(c) == ReloadedAll(c);
    LosslessIff(c);
  }

  lemma LosslessIff(c: Contents)
    requires SnapshotSafe(c)
    ensures ReloadedAll(c) == c <==> forall k :: k in c ==> Lossless(c[k])
  {
    hide HelpSafe, Writable, Reloaded, Pristine, Short;
    forall k | k in c ensures Reloaded(c[k]) == c[k] <==> Lossless(c[k]) { ReloadedIff(c[k]); }
  }

  lemma ReloadedTwice(m: Metric)
    requires Writable(m) && HelpSafe(m.help) && WellFormed(m)
    ensures Reloaded(Reloaded(m)) == Reloaded(m)
    ensures Writable(Reloaded(m)) && HelpSafe(Reloaded(m).help) && WellFormed(Reloaded(m)) && Reloaded(m).name == m.name
  {
    hide NormalizedBounds, HelpSafe, OneLine;
    DefaultBoundsComparable();
    EmptyHistogramWellFormed(m.name, m.help, m.labels, DEFAULT_BOUNDS);
    if !m.AHistogram? {
      Round6Idempotent(m.value);
      Round6Sign(m.value);
    }
    ReloadedLine(m);
  }

  lemma ReloadedLine(m: Metric)
    ensures OneLine(m) ==> OneLine(Reloaded(m))
  {
    hide NormalizedBounds;
  }

  lemma ReloadedAllTwice(c: Contents)
    requires ValidContents(c) && SnapshotSafe(c)
    ensures ReloadedAll(ReloadedAll(c)) == ReloadedAll(c)
    ensures ValidContents(ReloadedAll(c)) && SnapshotSafe(ReloadedAll(c))
  {
    hide Reloaded, Writable, HelpSafe, WellFormed;
    forall k | k in c
      ensures Reloaded(Reloaded(c[k])) == Reloaded(c[k]) && Writable(Reloaded(c[k])) && HelpSafe(Reloaded(c[k]).help)
              && WellFormed(Reloaded(c[k])) && Reloaded(c[k]).name == k
    {
      ReloadedTwice(c[k]);
    }
  }

  /** From the first restart on nothing changes: saving what it found and restarting again finds the same registry. */
  lemma {:induction false} SecondRestartIsFirst(config: Config, files: Files, ops: seq<Operation>, c: Contents, after: Files, later: Files)
    requires ComparableConfig(config) && ComparableOps(ops) && config.snapshotFile != ""
    requires Initial(map[], config, files).1 && c == AppliedAll(Initial(map[], config, files).0, ops)
    requires ValidContents(c) && SnapshotSafe(c)
    requires config.snapshotFile in after && after[config.snapshotFile] == SaveText(c)
    requires ValidContents(Initial(map[], config, after).0)
    requires config.snapshotFile in later && later[config.snapshotFile] == SaveText(Initial(map[], config, after).0)
    ensures Initial(map[], config, later) == Initial(map[], config, after)
  {
    hide Initial, SaveText, ValidContents, SnapshotSafe, ReloadedAll, ComparableConfig, Lossless;
    RestartPreservation(config, files, ops, c, after);
    ReloadedAllTwice(c);
    RestartPreservation(config, after, [], ReloadedAll(c), later);
  }

  ghost predicate OneLineContents(c: Contents) { forall k :: k in c ==> OneLine(c[k]) }

  /**
   The same life whatever the labels and help texts, as long as names are words and no text breaks a line: under each
   name a restart finds what is read from its saved line, and failing that the configured metric; so the names that
   survive are the configured and the readable ones.
   */
  lemma {:induction false} RestartByName(config: Config, files: Files, ops: seq<Operation>, c: Contents, after: Files, k: string)
    requires ComparableConfig(config) && ComparableOps(ops) && config.snapshotFile != ""
    requires Initial(map[], config, files).1 && c == AppliedAll(Initial(map[], config, files).0, ops)
    requires ValidContents(c) && OneLineContents(c)
    requires config.snapshotFile in after && after[config.snapshotFile] == SaveText(c)
    ensures Initial(map[], config, after).1
    ensures Find(Initial(map[], config, after).0, k) == LoadedOver(RegisterAll(map[], config.metrics).0, c, k)
    ensures k in Initial(map[], config, after).0
            <==> k in NamesOf(config.metrics) || (k in c && LoadedSpec(SnapshotLine(c[k])).Some?)
  {
    hide RegisterAll, LoadText, SaveText, ValidContents, AppliedAll, LoadedSpec, SnapshotLine, NamesOf, MakeMetric;
    InitialKeepsConfigured(map[], config, files);
    var start := RegisterAll(map[], config.metrics).0;
    RegisterAllIff(map[], config.metrics);
    assert start.Keys == NamesOf(config.metrics);
    ReloadWritten(start, c, k);
    if k in c { LoadedSpecBuilds(c[k]); }
  }

  lemma LoadedSpecBuilds(m: Metric)
    ensures LoadedSpec(SnapshotLine(m)).Some? ==> MakeMetric(LoadedSpec(SnapshotLine(m)).value).Some?
  {
    hide LoadedSpec, SnapshotLine, MakeMetric;
    LoadedSpecPlain(SnapshotLine(m));
  }

  /**
   The stop saves first and lets the scraper finish afterwards, so what a restart finds does not depend on the late
   scrapes at all. It has the names the daemon ended with exactly when they added none.
   */
  lemma {:induction false} LateScrapesAreLost(config: Config, files: Files, ops: seq<Operation>, c: Contents, after: Files, late: seq<MetricSpec>)
    requires ComparableConfig(config) && ComparableOps(ops) && config.snapshotFile != ""
    requires Initial(map[], config, files).1 && c == AppliedAll(Initial(map[], config, files).0, ops)
    requires ValidContents(c) && SnapshotSafe(c)
    requires config.snapshotFile in after && after[config.snapshotFile] == SaveText(c)
    ensures Initial(map[], config, after).0.Keys == UpsertAll(c, late).Keys
            <==> forall i :: 0 <= i < |late| && Accepts(late[i]) ==> late[i].name in c
  {
    hide ValidContents, SnapshotSafe, SaveText, AppliedAll, Initial, ComparableOps, Accepts;
    RestartPreservation(config, files, ops, c, after);
    UpsertAllKeys(c, late);
  }

  /**
   And it is the registry the daemon ended with exactly when every name a late scrape wrote already had, reloaded, the
   metric it wrote, and every other metric is lossless.
   */
  lemma {:induction false} LateScrapesKeptIff(config: Config, files: Files, ops: seq<Operation>, c: Contents, after: Files, late: seq<MetricSpec>)
    requires ComparableConfig(config) && ComparableOps(ops) && config.snapshotFile != ""
    requires Initial(map[], config, files).1 && c == AppliedAll(Initial(map[], config, files).0, ops)
    requires ValidContents(c) && SnapshotSafe(c)
    requires config.snapshotFile in after && after[config.snapshotFile] == SaveText(c)
    ensures Initial(map[], config, after).0 == UpsertAll(c, late)
            <==> forall k :: Find(ReloadedAll(c), k) == if FinalWrite(late, k).Some? then FinalWrite(late, k) else Find(c, k)
    ensures Initial(map[], config, after).0 == UpsertAll(c, late)
            <==> forall k :: if FinalWrite(late, k).Some? then k in c && Some(Reloaded(c[k])) == FinalWrite(late, k)
                             else k in c ==> Lossless(c[k])
  {
    hide ValidContents, SnapshotSafe, SaveText, AppliedAll, Initial, ComparableOps, ReloadedAll, UpsertAll, FinalWrite, Reloaded, Lossless;
    RestartPreservation(config, files, ops, c, after);
    LateByName(c, late);
    LateByMetric(c, late);
  }

  lemma {:induction false} LateByName(c: Contents, late: seq<MetricSpec>)
    ensures ReloadedAll(c) == UpsertAll(c, late)
            <==> forall k :: Find(ReloadedAll(c), k) == if FinalWrite(late, k).Some? then FinalWrite(late, k) else Find(c, k)
  {
    hide ReloadedAll, UpsertAll, FinalWrite;
    forall k ensures Find(UpsertAll(c, late), k) == if FinalWrite(late, k).Some? then FinalWrite(late, k) else Find(c, k) {
      WrittenLast(c, late, k);
    }
    if forall k :: Find(ReloadedAll(c), k) == if FinalWrite(late, k).Some? then FinalWrite(late, k) else Find(c, k) {
      SameByName(ReloadedAll(c), UpsertAll(c, late));
    }
  }

  lemma {:induction false} LateByMetric(c: Contents, late: seq<MetricSpec>)
    requires SnapshotSafe(c)
    ensures (forall k :: Find(ReloadedAll(c), k) == if FinalWrite(late, k).Some? then FinalWrite(late, k) else Find(c, k))
            <==> forall k :: if FinalWrite(late, k).Some? then k in c && Some(Reloaded(c[k])) == FinalWrite(late, k)
                             else k in c ==> Lossless(c[k])
  {
    hide FinalWrite, Reloaded, HelpSafe, Writable, Pristine, Short;
    forall k ensures (Find(ReloadedAll(c), k) == if FinalWrite(late, k).Some? then FinalWrite(late, k) else Find(c, k))
                     <==> (if FinalWrite(late, k).Some? then k in c && Some(Reloaded(c[k])) == FinalWrite(late, k)
                           else k in c ==> Lossless(c[k]))
    {
      if k in c { ReloadedIff(c[k]); }
    }
  }

  // ---------------------------------------------------------------- two losses

  /** A configuration of one metric and a snapshot file. */
  function OneMetric(spec: MetricSpec, file: string): Config { Config(true, [spec], true, file) }

  lemma OneMetricStart(spec: MetricSpec, file: string)
    requires Accepts(spec)
    ensures Initial(map[], OneMetric(spec, file), map[]) == (map[spec.name := MakeMetric(spec).value], true)
  {
    hide MakeMetric;
    var specs := [spec];
    assert specs[1..] == [];
    assert RegisterAll(map[spec.name := MakeMetric(spec).value], []) == (map[spec.name := MakeMetric(spec).value], true);
  }

  function GaugeOf(x: real): MetricSpec { MetricSpec("x", "gauge", "", Finite(x), "", []) }

  lemma GaugeMade(x: real)
    ensures MakeMetric(GaugeOf(x)) == Some(AGauge("x", "", "", Finite(x))) && Accepts(GaugeOf(x))
  {
    ParseTypeName(Gauge);
  }

  lemma PlainIsSafe(m: Metric)
    requires m.name == "x" && m.help == "" && m.labels == ""
    ensures Writable(m) && HelpSafe(m.help)
  {
    NoHelpIsSafe();
  }

  /** A gauge configured as 1 and scraped as 2 during the stop is 1 again after the restart. */
  lemma LateValueIsLost(file: string)
    requires file != ""
    ensures var config := OneMetric(GaugeOf(1.0), file);
            var c := Initial(map[], config, map[]).0;
            && ValidContents(c)
            && Initial(map[], config, map[file := SaveText(c)]).0 == map["x" := AGauge("x", "", "", Finite(1.0))]
            && UpsertAll(c, [GaugeOf(2.0)]) == map["x" := AGauge("x", "", "", Finite(2.0))]
  {
    hide LoadText, SaveText, RegisterAll, MakeMetric, Accepts;
    var config := OneMetric(GaugeOf(1.0), file);
    GaugeMade(1.0);
    GaugeMade(2.0);
    OneMetricStart(GaugeOf(1.0), file);
    var c := Initial(map[], config, map[]).0;
    PlainIsSafe(c["x"]);
    RestartPreservation(config, map[], [], c, map[file := SaveText(c)]);
    assert ShortForm(1.0, 1, 0);
    Round6Exact(Finite(1.0));
    assert [GaugeOf(2.0)][..0] == [];
    assert UpsertAll(c, []) == c;
  }

  /** A histogram configured with one bucket has the default buckets after a restart. */
  lemma ConfiguredBucketsAreLost(file: string, bound: real)
    requires file != ""
    ensures var spec := MetricSpec("x", "histogram", "", ZERO, "", [Finite(bound)]);
            var c := Initial(map[], OneMetric(spec, file), map[]).0;
            && ValidContents(c) && c == map["x" := EmptyHistogram("x", "", "", [Finite(bound)])]
            && Initial(map[], OneMetric(spec, file), map[file := SaveText(c)]).0
               == map["x" := EmptyHistogram("x", "", "", DEFAULT_BOUNDS)]
  {
    hide LoadText, SaveText, RegisterAll, NormalizedBounds;
    var spec := MetricSpec("x", "histogram", "", ZERO, "", [Finite(bound)]);
    var config := OneMetric(spec, file);
    ParseTypeName(Histogram);
    OneMetricStart(spec, file);
    InitialValid(map[], config, map[]);
    var c := Initial(map[], config, map[]).0;
    PlainIsSafe(c["x"]);
    RestartPreservation(config, map[], [], c, map[file := SaveText(c)]);
  }

  lemma {:induction false} UpsertAllKeys(c: Contents, specs: seq<MetricSpec>)
    ensures c.Keys <= UpsertAll(c, specs).Keys
    ensures forall i :: 0 <= i < |specs| && Accepts(specs[i]) ==> specs[i].name in UpsertAll(c, specs)
    ensures forall k :: k in UpsertAll(c, specs) && k !in c ==> exists i :: 0 <= i < |specs| && Accepts(specs[i]) && specs[i].name == k
  {
    hide MakeMetric;
    if specs != [] {
      var init := specs[..|specs| - 1];
      UpsertAllKeys(c, init);
      forall k | k in UpsertAll(c, specs) && k !in c
        ensures exists i :: 0 <= i < |specs| && Accepts(specs[i]) && specs[i].name == k
      {
        if k in UpsertAll(c, init) {
          var i :| 0 <= i < |init| && Accepts(init[i]) && init[i].name == k;
          assert specs[i] == init[i];
        } else {
          assert specs[|specs| - 1].name == k;
        }
      }
      forall i | 0 <= i < |specs| && Accepts(specs[i]) ensures specs[i].name in UpsertAll(c, specs) {
        if i < |specs| - 1 { assert init[i] == specs[i]; }
      }
    }
  }

  // ---------------------------------------------------------------- the daemon

  class MetricDaemon {
    const config: Config
    const registry: MetricRegistry
    var store: SnapshotStore?
    var initialized: bool
    var running: bool

    ghost predicate Valid()
      reads this, store, registry, registry.Repr
    {
      && registry.Valid() && this !in registry.Repr
      && (store != null ==> store.path == config.snapshotFile != "" && store !in registry.Repr && store as object != this)
      && (initialized ==> (store == null <==> config.snapshotFile == ""))
    }

    constructor (config: Config)
      ensures Valid() && this.config == config && !initialized && !running && store == null
      ensures registry.Contents() == map[] && fresh(registry) && fresh(registry.Repr)
    {
      this.config := config;
      registry := new MetricRegistry();
      store := null;
      initialized, running := false, false;
    }

    method RegisterConfigured() returns (ok: bool)
      requires Valid() && ComparableConfig(config)
      modifies registry
      ensures Valid() && fresh(registry.Repr - old(registry.Repr))
      ensures (registry.Contents(), ok) == RegisterAll(map[], config.metrics)
    {
      hide Registered, WellFormed;
      registry.Clear();
      var i := 0;
      while i < |config.metrics|
        invariant 0 <= i <= |config.metrics|
        invariant Valid() && fresh(registry.Repr - old(registry.Repr))
        invariant RegisterAll(registry.Contents(), config.metrics[i..]) == RegisterAll(map[], config.metrics)
      {
        assert config.metrics[i..][1..] == config.metrics[i + 1..];
        ok := registry.RegisterMetric(config.metrics[i]);
        if !ok {
          return;
        }
        i := i + 1;
      }
      return true;
    }

    /** Create the snapshot store and load its file. */
    method OpenSnapshot(disk: Disk) returns (ok: bool)
      requires Valid() && config.snapshotFile != ""
      modifies this, registry
      ensures Valid() && fresh(registry.Repr - old(registry.Repr)) && ok
      ensures store != null && fresh(store) && !store.running && initialized == old(initialized) && running == old(running)
      ensures registry.Contents() == if config.snapshotFile !in disk.files then old(registry.Contents())
                                     else LoadText(old(registry.Contents()), disk.files[config.snapshotFile])
    {
      hide WellFormed, LoadLines, Lines;
      store := new SnapshotStore(config.snapshotFile);
      ok := store.Load(disk, registry);
    }

    method Initialize(disk: Disk) returns (ok: bool)
      requires Valid() && ComparableConfig(config)
      modifies this, registry
      ensures Valid() && fresh(registry.Repr - old(registry.Repr))
      ensures old(initialized) ==> ok && registry.Contents() == old(registry.Contents()) && initialized && store == old(store)
      ensures !old(initialized) ==> (registry.Contents(), ok) == Initial(old(registry.Contents()), config, disk.files)
      ensures !old(initialized) ==> initialized == ok && (store == old(store) || (fresh(store) && !store.running))
      ensures running == old(running)
    {
      hide RegisterAll, WellFormed, LoadLines, Lines;
      if initialized {
        return true;
      }
      if !config.valid {
        return false;
      }
      ok := RegisterConfigured();
      if !ok {
        return;
      }
      if !config.tlsOk {
        return false;
      }
      if config.snapshotFile != "" {
        ok := OpenSnapshot(disk);
      }
      initialized := true;
      return true;
    }

    /** `up`: the sockets, the listener, the privilege drop and the scraper all came up. */
    method Start(disk: Disk, up: bool) returns (ok: bool)
      requires Valid() && ComparableConfig(config)
      requires store == null || !store.running
      modifies this, registry, store
      ensures Valid() && fresh(registry.Repr - old(registry.Repr))
      ensures registry.Contents() == if old(initialized) then old(registry.Contents())
                                     else Initial(old(registry.Contents()), config, disk.files).0
      ensures ok == (up && (old(initialized) || Initial(old(registry.Contents()), config, disk.files).1))
      ensures ok ==> running && initialized && (store == null <==> config.snapshotFile == "") && (store != null ==> store.running)
      ensures !ok ==> store == null || !store.running
      ensures store == old(store) || fresh(store)
    {
      hide Initial, WellFormed, ComparableConfig;
      ok := Initialize(disk);
      if !ok {
        return;
      }
      ok := Launch(up);
    }

    /** Everything `start` does once the daemon is initialised. */
    method Launch(up: bool) returns (ok: bool)
      requires Valid() && initialized && (store == null || !store.running)
      modifies this, store
      ensures Valid() && registry.Contents() == old(registry.Contents()) && registry.Repr == old(registry.Repr)
      ensures ok == up && store == old(store) && initialized
      ensures ok ==> running && (store != null ==> store.running)
      ensures !ok ==> store == null || !store.running
    {
      hide WellFormed;
      if !up {
        return false;
      }
      if store != null {
        ok := store.Start();
      }
      running := true;
      return true;
    }

    /** One call on the registry by a push, a scrape or embedding code. */
    method Serve(op: Operation)
      requires Valid() && (op.UpsertOp? ==> Comparable(op.spec.buckets))
      requires store == null || store !in registry.Repr
      modifies registry, registry.Repr
      ensures Valid() && fresh(registry.Repr - old(registry.Repr))
      ensures registry.Contents() == Applied(old(registry.Contents()), op)
    {
      hide WellFormed, Upserted, ValueSet, Incremented;
      match op
      case UpsertOp(spec) => var _ := registry.Upsert(spec);
      case SetOp(name, v) => var _ := registry.SetValue(name, v);
      case IncrementOp(name, v) => var _ := registry.Increment(name, v);
    }

    method ServeAll(ops: seq<Operation>)
      requires Valid() && ComparableOps(ops)
      modifies registry, registry.Repr
      ensures Valid() && fresh(registry.Repr - old(registry.Repr))
      ensures registry.Contents() == AppliedAll(old(registry.Contents()), ops)
    {
      hide WellFormed, Applied;
      for i := 0 to |ops|
        invariant Valid() && fresh(registry.Repr - old(registry.Repr))
        invariant registry.Contents() == AppliedAll(old(registry.Contents()), ops[..i])
      {
        Serve(ops[i]);
        assert ops[..i + 1][..i] == ops[..i];
      }
      assert ops[..|ops|] == ops;
    }

    /** The stop: the snapshot is saved, and only then do the draining scrapes make their `late` upserts. */
    method Stop(disk: Disk, faults: Faults, late: seq<MetricSpec>)
      requires Valid() && disk as object !in registry.Repr && disk as object != this && disk as object != store
      requires forall i :: 0 <= i < |late| ==> Comparable(late[i].buckets)
      modifies this, store, disk, registry
      ensures Valid() && fresh(registry.Repr - old(registry.Repr)) && !running
      ensures registry.Contents() == UpsertAll(old(registry.Contents()), late)
      ensures old(store != null && store.running) && Commits(config.snapshotFile, FileLines(old(registry.Contents())), faults)
              ==> disk.files == Committed(old(disk.files), config.snapshotFile, SaveText(old(registry.Contents())))
      ensures !(old(store != null && store.running) && Commits(config.snapshotFile, FileLines(old(registry.Contents())), faults))
              ==> forall q :: q != TempPath(config.snapshotFile) ==> SameAt(disk.files, old(disk.files), q)
      ensures !old(store != null && store.running) ==> disk.files == old(disk.files)
    {
      hide WellFormed, Upserted, Commits, Committed, IsListing, SaveStates, SnapshotLines, Unlines, UpsertAll;
      running := false;
      if store != null {
        store.Stop(disk, registry, faults);
      }
      DrainScrapes(late);
    }

    method DrainScrapes(late: seq<MetricSpec>)
      requires Valid() && forall i :: 0 <= i < |late| ==> Comparable(late[i].buckets)
      modifies registry
      ensures Valid() && fresh(registry.Repr - old(registry.Repr))
      ensures registry.Contents() == UpsertAll(old(registry.Contents()), late)
    {
      hide WellFormed, Upserted;
      for i := 0 to |late|
        invariant Valid() && fresh(registry.Repr - old(registry.Repr))
        invariant registry.Contents() == UpsertAll(old(registry.Contents()), late[..i])
      {
        var _ := registry.Upsert(late[i]);
        assert late[..i + 1][..i] == late[..i];
      }
      assert late[..|late|] == late;
    }
  }

  /** A whole life and the initialisation after it, on one disk. */
  method LifeAndRestart(config: Config, disk: Disk, ops: seq<Operation>, faults: Faults, late: seq<MetricSpec>)
    returns (next: MetricDaemon, ok: bool)
    requires ComparableConfig(config) && ComparableOps(ops) && config.snapshotFile != ""
    requires forall i :: 0 <= i < |late| ==> Comparable(late[i].buckets)
    requires Initial(map[], config, disk.files).1
    requires var c := AppliedAll(Initial(map[], config, disk.files).0, ops);
             ValidContents(c) && SnapshotSafe(c) && Commits(config.snapshotFile, FileLines(c), faults)
    modifies disk
    ensures next.Valid() && ok
    ensures next.registry.Contents() == ReloadedAll(AppliedAll(Initial(map[], config, old(disk.files)).0, ops))
  {
    hide Initial, AppliedAll, ComparableOps, ComparableConfig, IsListing, Commits, SaveText, SnapshotSafe, ReloadedAll, WellFormed;
    ghost var files := disk.files;
    ghost var start := Initial(map[], config, files).0;
    var daemon := new MetricDaemon(config);
    ok := daemon.Start(disk, true);
    daemon.ServeAll(ops);
    ghost var c := AppliedAll(start, ops);
    daemon.Stop(disk, faults, late);
    TempDiffers(config.snapshotFile);
    RestartPreservation(config, files, ops, c, disk.files);
    next := new MetricDaemon(config);
    ok := next.Initialize(disk);
  }
}
