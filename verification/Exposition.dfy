/**
 The text served at `/metrics`: Prometheus text exposition format 0.0.4, metrics sorted by name,
 histograms flattened to cumulative `_bucket` samples, `_sum` and `_count`.
 */
module Exposition {
  import opened Text
  import opened Numbers
  import opened NumberText
  import opened Metrics
  import opened Registry

  // ---------------------------------------------------------------- lines of one metric

  function JoinLabels(labels: string, extra: string): string {
    if labels == "" then extra else if extra == "" then labels else labels + "," + extra
  }

  function Braced(labels: string): string {
    if labels == "" then "" else "{" + labels + "}"
  }

  function HelpLine(name: string, help: string): string { "# HELP " + name + " " + help }

  function TypeLine(name: string, typ: string): string { "# TYPE " + name + " " + typ }

  function SampleLine(name: string, labels: string, value: string): string {
    name + Braced(labels) + " " + value
  }

  function BoundLabel(bound: string): string { "le=\"" + bound + "\"" }

  const INF_LABEL: string := "le=\"+Inf\""

  function MetaLinesFor(name: string, help: string, typ: string): seq<string> {
    (if help == "" then [] else [HelpLine(name, help)]) + [TypeLine(name, typ)]
  }

  function MetaLines(m: Metric): seq<string> { MetaLinesFor(m.name, m.help, TypeName(TypeOf(m))) }

  function BucketCount(m: Metric, i: nat): nat
    requires m.AHistogram?
  {
    if i < |m.counts| then m.counts[i] else 0
  }

  function BucketLine(m: Metric, i: nat): string
    requires m.AHistogram? && i < |m.bounds|
  {
    SampleLine(m.name + "_bucket", JoinLabels(m.labels, BoundLabel(PrintNum(m.bounds[i]))), Digits(BucketCount(m, i)))
  }

  /** The first `n` bucket samples. */
  function BucketLines(m: Metric, n: nat): (lines: seq<string>)
    requires m.AHistogram? && n <= |m.bounds|
    ensures |lines| == n
  {
    if n == 0 then [] else BucketLines(m, n - 1) + [BucketLine(m, n - 1)]
  }

  function InfLine(m: Metric): string
    requires m.AHistogram?
  {
    SampleLine(m.name + "_bucket", JoinLabels(m.labels, INF_LABEL), Digits(m.count))
  }

  function SumLine(m: Metric): string
    requires m.AHistogram?
  {
    SampleLine(m.name + "_sum", m.labels, PrintNum(Finite(m.sum)))
  }

  function CountLine(m: Metric): string
    requires m.AHistogram?
  {
    SampleLine(m.name + "_count", m.labels, Digits(m.count))
  }

  function SampleLines(m: Metric): seq<string>
  {
    if m.AHistogram? then BucketLines(m, |m.bounds|) + [InfLine(m), SumLine(m), CountLine(m)]
    else [SampleLine(m.name, m.labels, PrintNum(m.value))]
  }

  function MetricLines(m: Metric, metadata: bool): seq<string>
  {
    (if metadata then MetaLines(m) else []) + SampleLines(m)
  }

  ghost predicate AllWellFormed(ms: seq<Metric>) {
    forall i :: 0 <= i < |ms| ==> WellFormed(ms[i])
  }

  /** The lines of the first `n` metrics. */
  function LinesUpTo(ms: seq<Metric>, n: nat, metadata: bool): seq<string>
    requires n <= |ms|
  {
    if n == 0 then [] else LinesUpTo(ms, n - 1, metadata) + MetricLines(ms[n - 1], metadata)
  }

  // ---------------------------------------------------------------- the sorted listing

  ghost predicate SortedByName(ms: seq<Metric>) {
    forall i, j :: 0 <= i < j < |ms| ==> Less(ms[i].name, ms[j].name)
  }

  /** `ms` lists every metric of `c` once, in name order. */
  ghost predicate IsListing(ms: seq<Metric>, c: Contents) {
    && SortedByName(ms)
    && (forall i :: 0 <= i < |ms| ==> ms[i].name in c && c[ms[i].name] == ms[i])
    && (forall k :: k in c ==> c[k] in ms)
  }

  ghost predicate NamedByKey(c: Contents) {
    forall k :: k in c ==> c[k].name == k
  }

  lemma ListingDropLast(ms: seq<Metric>, c: Contents)
    requires IsListing(ms, c) && ms != [] && NamedByKey(c)
    ensures IsListing(ms[..|ms| - 1], c - {ms[|ms| - 1].name})
  {
    var last := ms[|ms| - 1];
    var init := ms[..|ms| - 1];
    forall i | 0 <= i < |init| ensures init[i].name != last.name {
      LessIrrefl(last.name);
      assert Less(ms[i].name, ms[|ms| - 1].name);
    }
    forall k | k in c && k != last.name ensures c[k] in init {
      assert c[k] in ms && c[k] != last;
    }
  }

  lemma LastIsGreatest(ms: seq<Metric>, m: Metric)
    requires SortedByName(ms) && m in ms
    ensures m == ms[|ms| - 1] || Less(m.name, ms[|ms| - 1].name)
  {
  }

  lemma NothingListed(c: Contents)
    requires IsListing([], c)
    ensures forall k :: k !in c
  {
  }

  lemma ListedName(ms: seq<Metric>, c: Contents)
    requires IsListing(ms, c)
    ensures ms != [] ==> ms[0].name in c
  {
  }

  /** The sorted listing does not depend on the order the hash table yields metrics in. */
  lemma {:induction false} ListingUnique(a: seq<Metric>, b: seq<Metric>, c: Contents)
    requires NamedByKey(c) && IsListing(a, c) && IsListing(b, c)
    ensures a == b
  {
    if a == [] {
      NothingListed(c);
      ListedName(b, c);
    } else {
      var la := a[|a| - 1];
      assert la in b;
      var lb := b[|b| - 1];
      assert lb in a;
      LastIsGreatest(a, lb);
      LastIsGreatest(b, la);
      if la != lb {
        LessTrans(la.name, lb.name, la.name);
        LessIrrefl(la.name);
      }
      ListingDropLast(a, c);
      ListingDropLast(b, c);
      ListingUnique(a[..|a| - 1], b[..|b| - 1], c - {la.name});
      assert a == a[..|a| - 1] + [la];
      assert b == b[..|b| - 1] + [lb];
    }
  }

  /** Strictly sorted by the name `key` gives each element. */
  ghost predicate SortedBy<T>(xs: seq<T>, key: T -> string) {
    forall i, j :: 0 <= i < j < |xs| ==> Less(key(xs[i]), key(xs[j]))
  }

  function InsertBy<T>(x: T, xs: seq<T>, key: T -> string): seq<T> {
    if xs == [] || Less(key(x), key(xs[0])) then [x] + xs else [xs[0]] + InsertBy(x, xs[1..], key)
  }

  /** `std::sort` of a vector by a name. */
  function SortBy<T>(xs: seq<T>, key: T -> string): seq<T> {
    if xs == [] then [] else InsertBy(xs[0], SortBy(xs[1..], key), key)
  }

  lemma {:induction false} InsertBySorted<T>(x: T, xs: seq<T>, key: T -> string)
    requires SortedBy(xs, key)
    requires forall i :: 0 <= i < |xs| ==> key(xs[i]) != key(x)
    ensures SortedBy(InsertBy(x, xs, key), key)
    ensures x in InsertBy(x, xs, key)
    ensures forall y :: y in InsertBy(x, xs, key) ==> y == x || y in xs
    ensures forall y :: y in xs ==> y in InsertBy(x, xs, key)
  {
    if xs == [] {
    } else if Less(key(x), key(xs[0])) {
      forall i | 0 <= i < |xs| ensures Less(key(x), key(xs[i])) {
        if i > 0 { LessTrans(key(x), key(xs[0]), key(xs[i])); }
      }
    } else {
      LessTotal(key(x), key(xs[0]));
      InsertBySorted(x, xs[1..], key);
      assert xs == [xs[0]] + xs[1..];
      var r := InsertBy(x, xs[1..], key);
      forall i | 0 <= i < |r| ensures Less(key(xs[0]), key(r[i])) {
        assert r[i] in r;
        if r[i] != x {
          assert r[i] in xs[1..];
        }
      }
    }
  }

  lemma {:induction false} SortBySorted<T>(xs: seq<T>, key: T -> string)
    requires forall i, j :: 0 <= i < j < |xs| ==> key(xs[i]) != key(xs[j])
    ensures SortedBy(SortBy(xs, key), key)
    ensures forall y :: y in SortBy(xs, key) ==> y in xs
    ensures forall y :: y in xs ==> y in SortBy(xs, key)
  {
    if xs != [] {
      SortBySorted(xs[1..], key);
      var s := SortBy(xs[1..], key);
      forall i | 0 <= i < |s| ensures key(s[i]) != key(xs[0]) {
        assert s[i] in s && s[i] in xs[1..];
      }
      InsertBySorted(xs[0], s, key);
      assert xs == [xs[0]] + xs[1..];
    }
  }

  function MetricName(m: Metric): string { m.name }

  function RefName(r: MetricRef): string { r.Name() }

  lemma {:induction false} ListingExists(c: Contents)
    requires NamedByKey(c)
    ensures exists ms :: IsListing(ms, c)
    decreases |c|
  {
    if c == map[] {
      assert IsListing([], c);
    } else {
      var k :| k in c;
      var rest := c - {k};
      assert |rest.Keys| < |c.Keys| by { assert rest.Keys == c.Keys - {k}; }
      ListingExists(rest);
      var ms :| IsListing(ms, rest);
      InsertBySorted(c[k], ms, MetricName);
      var r := InsertBy(c[k], ms, MetricName);
      forall i | 0 <= i < |r| ensures r[i].name in c && c[r[i].name] == r[i] { assert r[i] in r; }
      forall j | j in c ensures c[j] in r {
        if j != k { assert rest[j] in ms; }
      }
      assert IsListing(r, c);
    }
  }

  ghost function Listing(c: Contents): (ms: seq<Metric>)
    requires NamedByKey(c)
    ensures IsListing(ms, c)
  {
    ListingExists(c);
    var ms :| IsListing(ms, c);
    ms
  }

  /** Sorting any enumeration of the registry gives the one listing. */
  lemma {:induction false} SortGivesListing(ms: seq<Metric>, c: Contents)
    requires NamedByKey(c)
    requires forall i, j :: 0 <= i < j < |ms| ==> ms[i].name != ms[j].name
    requires forall i :: 0 <= i < |ms| ==> ms[i].name in c && c[ms[i].name] == ms[i]
    requires forall k :: k in c ==> c[k] in ms
    ensures SortBy(ms, MetricName) == Listing(c)
  {
    SortBySorted(ms, MetricName);
    var s := SortBy(ms, MetricName);
    forall i | 0 <= i < |s| ensures s[i].name in c && c[s[i].name] == s[i] { assert s[i] in s; }
    ListingUnique(s, Listing(c), c);
  }

  /** A name at or after the next metric in the order is not the name of an earlier one. */
  lemma LaterNameIsNew(ms: seq<Metric>, n: nat, name: string)
    requires SortedByName(ms) && n < |ms|
    requires name == ms[n].name || Less(ms[n].name, name)
    ensures forall i :: 0 <= i < n ==> ms[i].name != name
  {
    forall i | 0 <= i < n ensures ms[i].name != name {
      LessIrrefl(name);
      if Less(ms[n].name, name) { LessTrans(ms[i].name, ms[n].name, name); }
    }
  }

  /** The registry made of the first `n` metrics. */
  function ContentsUpTo(ms: seq<Metric>, n: nat): Contents
    requires n <= |ms|
  {
    if n == 0 then map[] else ContentsUpTo(ms, n - 1)[ms[n - 1].name := ms[n - 1]]
  }

  lemma {:induction false} ContentsUpToKeys(ms: seq<Metric>, n: nat, k: string)
    requires n <= |ms| && SortedByName(ms)
    ensures k in ContentsUpTo(ms, n) <==> exists i :: 0 <= i < n && ms[i].name == k
    ensures forall i :: 0 <= i < n && ms[i].name == k ==> k in ContentsUpTo(ms, n) && ContentsUpTo(ms, n)[k] == ms[i]
  {
    if n > 0 {
      ContentsUpToKeys(ms, n - 1, k);
      LaterNameIsNew(ms, n - 1, ms[n - 1].name);
    }
  }

  lemma ContentsUpToAll(c: Contents)
    requires NamedByKey(c)
    ensures ContentsUpTo(Listing(c), |Listing(c)|) == c
  {
    var ms := Listing(c);
    var d := ContentsUpTo(ms, |ms|);
    forall k ensures k in d <==> k in c {
      ContentsUpToKeys(ms, |ms|, k);
      if k in c { assert c[k] in ms; }
    }
    forall k | k in c ensures d[k] == c[k] {
      ContentsUpToKeys(ms, |ms|, k);
      assert c[k] in ms;
    }
  }

  lemma NotYet(ms: seq<Metric>, n: nat, name: string)
    requires SortedByName(ms) && n < |ms|
    requires name == ms[n].name || Less(ms[n].name, name)
    ensures name !in ContentsUpTo(ms, n)
  {
    LaterNameIsNew(ms, n, name);
    ContentsUpToKeys(ms, n, name);
  }

  /** The whole exposition of a registry. */
  ghost function Render(c: Contents, metadata: bool): string
    requires ValidContents(c)
  {
    Unlines(LinesUpTo(Listing(c), |Listing(c)|, metadata))
  }

  // ---------------------------------------------------------------- the writers

  /** Appending one terminated line to text that already holds `lines`. */
  lemma Emit(text: string, lines: seq<string>, line: string)
    ensures text + Unlines(lines) + line + "\n" == text + Unlines(lines + [line])
  {
    UnlinesAppend(lines, [line]);
    assert [line][1..] == [];
    assert Unlines([line]) == line + "\n";
  }

  method WriteMetadata(name: string, help: string, typ: string, text: string) returns (out: string)
    ensures out == text + Unlines(MetaLinesFor(name, help, typ))
  {
    out := text;
    ghost var lines: seq<string> := [];
    assert out == text + Unlines(lines);
    if help != "" {
      out := out + HelpLine(name, help) + "\n";
      Emit(text, lines, HelpLine(name, help));
      lines := lines + [HelpLine(name, help)];
    }
    out := out + TypeLine(name, typ) + "\n";
    Emit(text, lines, TypeLine(name, typ));
    assert lines + [TypeLine(name, typ)] == MetaLinesFor(name, help, typ);
  }

  lemma UnlinesTwo(text: string, a: seq<string>, b: seq<string>)
    ensures text + Unlines(a) + Unlines(b) == text + Unlines(a + b)
  {
    UnlinesAppend(a, b);
  }

  /** The sample lines of a histogram: the bucket loop, then the three closing lines. */
  method WriteSamples(h: HistogramMetric, text: string) returns (out: string)
    requires WellFormed(h.View())
    ensures out == text + Unlines(SampleLines(h.View()))
  {
    assert Unlines([]) == "";
    hide SampleLine, JoinLabels, BoundLabel, Unlines, InfLine, SumLine, CountLine;
    ghost var m := h.View();
    out := text;
    var i := 0;
    assert out == text + Unlines(BucketLines(m, 0));
    while i < |h.bounds|
      invariant 0 <= i <= |h.bounds|
      invariant out == text + Unlines(BucketLines(m, i))
    {
      var le := BoundLabel(PrintNum(h.bounds[i]));
      var line := SampleLine(h.name + "_bucket", JoinLabels(h.labels, le), Digits(h.counts[i]));
      assert line == BucketLine(m, i);
      Emit(text, BucketLines(m, i), line);
      out := out + line + "\n";
      i := i + 1;
    }
    out := WriteClosing(h, text, BucketLines(m, i), out);
  }

  /** The `+Inf` bucket, the sum and the count. */
  method WriteClosing(h: HistogramMetric, ghost text: string, ghost lines: seq<string>, sofar: string) returns (out: string)
    requires sofar == text + Unlines(lines)
    ensures out == text + Unlines(lines + [InfLine(h.View()), SumLine(h.View()), CountLine(h.View())])
  {
    hide SampleLine, JoinLabels;
    var infLine := SampleLine(h.name + "_bucket", JoinLabels(h.labels, INF_LABEL), Digits(h.count));
    var sumLine := SampleLine(h.name + "_sum", h.labels, PrintNum(Finite(h.sum)));
    var countLine := SampleLine(h.name + "_count", h.labels, Digits(h.count));
    out := sofar + infLine + "\n";
    Emit(text, lines, infLine);
    out := out + sumLine + "\n";
    Emit(text, lines + [infLine], sumLine);
    out := out + countLine + "\n";
    Emit(text, lines + [infLine] + [sumLine], countLine);
    assert lines + [infLine] + [sumLine] + [countLine] == lines + [infLine, sumLine, countLine];
  }

  /** `HistogramMetric::writeExposition`, appending to `text`. */
  method WriteHistogram(h: HistogramMetric, metadata: bool, text: string) returns (out: string)
    requires WellFormed(h.View())
    ensures out == text + Unlines(MetricLines(h.View(), metadata))
  {
    ghost var m := h.View();
    out := text;
    if metadata {
      out := WriteMetadata(h.name, h.help, "histogram", out);
    }
    ghost var meta := if metadata then MetaLines(m) else [];
    assert out == text + Unlines(meta);
    out := WriteSamples(h, out);
    UnlinesTwo(text, meta, SampleLines(m));
  }

  /** The body of the rendering loop for a counter or gauge with the given current value. */
  method WriteScalar(m: Metric, metadata: bool, text: string) returns (out: string)
    requires !m.AHistogram?
    ensures out == text + Unlines(MetricLines(m, metadata))
  {
    out := text;
    if metadata {
      out := WriteMetadata(m.name, m.help, TypeName(TypeOf(m)), out);
    }
    ghost var meta := if metadata then MetaLines(m) else [];
    assert out == text + Unlines(meta);
    var line := SampleLine(m.name, m.labels, PrintNum(m.value));
    out := out + line + "\n";
    Emit(text, meta, line);
  }

  /** What a sequence of references shows. */
  ghost function Views(refs: seq<MetricRef>): (ms: seq<Metric>)
    reads set r | r in refs :: r.Obj()
    ensures |ms| == |refs| && forall i :: 0 <= i < |refs| ==> ms[i] == refs[i].View()
  {
    if refs == [] then [] else Views(refs[..|refs| - 1]) + [refs[|refs| - 1].View()]
  }

  /** `refs` are the registry's own entries. */
  ghost predicate EntriesOf(refs: seq<MetricRef>, registry: MetricRegistry)
    reads registry
  {
    forall i :: 0 <= i < |refs| ==> refs[i].Name() in registry.metrics && refs[i] == registry.metrics[refs[i].Name()]
  }

  lemma SortKeepsEntries(registry: MetricRegistry, list: seq<MetricRef>)
    requires EntriesOf(list, registry)
    requires forall i, j :: 0 <= i < j < |list| ==> list[i].Name() != list[j].Name()
    ensures var refs := SortBy(list, RefName);
            && EntriesOf(refs, registry)
            && (forall i, j :: 0 <= i < j < |refs| ==> Less(refs[i].Name(), refs[j].Name()))
            && (forall r :: r in list ==> r in refs)
  {
    var refs := SortBy(list, RefName);
    SortBySorted(list, RefName);
    forall i | 0 <= i < |refs| ensures refs[i].Name() in registry.metrics && refs[i] == registry.metrics[refs[i].Name()] {
      assert refs[i] in refs && refs[i] in list;
    }
    forall i, j | 0 <= i < j < |refs| ensures Less(refs[i].Name(), refs[j].Name()) {
      assert Less(RefName(refs[i]), RefName(refs[j]));
    }
  }

  /** Metrics taken from `c` by sorted names that leave none out. */
  lemma NamedListing(c: Contents, names: seq<string>, ms: seq<Metric>)
    requires NamedByKey(c) && |names| == |ms|
    requires forall i :: 0 <= i < |names| ==> names[i] in c && c[names[i]] == ms[i]
    requires forall i, j :: 0 <= i < j < |names| ==> Less(names[i], names[j])
    requires forall k :: k in c ==> k in names
    ensures ms == Listing(c)
  {
    hide Less;
    forall i | 0 <= i < |ms| ensures ms[i].name == names[i] { assert c[names[i]] == ms[i]; }
    forall k | k in c ensures c[k] in ms {
      var i :| 0 <= i < |names| && names[i] == k;
      assert ms[i] == c[k];
    }
    OnlyListing(ms, c);
  }

  lemma ContentsAt(registry: MetricRegistry, k: string)
    requires registry.Valid()
    ensures k in registry.Contents() <==> k in registry.metrics
    ensures k in registry.metrics ==> registry.metrics[k].Name() == k && registry.Contents()[k] == registry.metrics[k].View()
  {
    hide WellFormed;
  }

  function NamesOfRefs(refs: seq<MetricRef>): (names: seq<string>)
    ensures |names| == |refs| && forall i :: 0 <= i < |refs| ==> names[i] == refs[i].Name()
  {
    seq(|refs|, i requires 0 <= i < |refs| => refs[i].Name())
  }

  lemma EntriesView(registry: MetricRegistry, refs: seq<MetricRef>, i: nat)
    requires registry.Valid() && EntriesOf(refs, registry) && i < |refs|
    ensures refs[i].Name() in registry.Contents() && registry.Contents()[refs[i].Name()] == refs[i].View()
  {
    hide MetricRegistry.Valid, MetricRegistry.Contents;
    ContentsAt(registry, refs[i].Name());
  }

  lemma EntriesCover(registry: MetricRegistry, refs: seq<MetricRef>, k: string)
    requires registry.Valid() && k in registry.Contents()
    requires forall j :: j in registry.metrics ==> registry.metrics[j] in refs
    ensures k in NamesOfRefs(refs)
  {
    hide MetricRegistry.Valid, MetricRegistry.Contents, NamesOfRefs;
    ContentsAt(registry, k);
    var i :| 0 <= i < |refs| && refs[i] == registry.metrics[k];
    assert NamesOfRefs(refs)[i] == k;
  }

  /** Sorted entries that leave none out show the listing. */
  lemma EntriesShowListing(registry: MetricRegistry, refs: seq<MetricRef>)
    requires registry.Valid() && EntriesOf(refs, registry)
    requires forall i, j :: 0 <= i < j < |refs| ==> Less(refs[i].Name(), refs[j].Name())
    requires forall k :: k in registry.metrics ==> registry.metrics[k] in refs
    ensures Views(refs) == Listing(registry.Contents())
  {
    hide WellFormed, Less, Views, EntriesOf, NamesOfRefs, MetricRegistry.Valid, MetricRegistry.Contents;
    var c, names, ms := registry.Contents(), NamesOfRefs(refs), Views(refs);
    forall i | 0 <= i < |names| ensures names[i] in c && c[names[i]] == ms[i] { EntriesView(registry, refs, i); }
    forall k | k in c ensures k in names { EntriesCover(registry, refs, k); }
    NamedListing(c, names, ms);
  }

  lemma OnlyListing(ms: seq<Metric>, c: Contents)
    requires NamedByKey(c) && IsListing(ms, c)
    ensures ms == Listing(c)
  {
    hide IsListing;
    ListingUnique(ms, Listing(c), c);
  }

  /** `registry.list()` followed by the sort: the listing, whatever order the hash table has. */
  method SortedList(registry: MetricRegistry) returns (refs: seq<MetricRef>)
    requires registry.Valid()
    ensures EntriesOf(refs, registry)
    ensures Views(refs) == Listing(registry.Contents())
  {
    hide SortBy, Views;
    var list := registry.List();
    refs := SortBy(list, RefName);
    SortKeepsEntries(registry, list);
    EntriesShowListing(registry, refs);
  }

  /** One turn of the rendering loop, at a metric whose value is `m`. */
  method WriteMetric(ref: MetricRef, ghost m: Metric, metadata: bool, text: string) returns (out: string)
    requires ref.View() == m && WellFormed(m)
    ensures out == text + Unlines(MetricLines(m, metadata))
  {
    match ref
    case HistogramRef(h) => out := WriteHistogram(h, metadata, text);
    case CounterRef(c) => out := WriteScalar(ACounter(c.name, c.help, c.labels, c.value), metadata, text);
    case GaugeRef(g) => out := WriteScalar(AGauge(g.name, g.help, g.labels, g.value), metadata, text);
  }

  /** The text of the first `n` metrics. */
  function TextUpTo(ms: seq<Metric>, n: nat, metadata: bool): string
    requires n <= |ms|
  {
    if n == 0 then "" else TextUpTo(ms, n - 1, metadata) + Unlines(MetricLines(ms[n - 1], metadata))
  }

  lemma {:induction false} TextUpToLines(ms: seq<Metric>, n: nat, metadata: bool)
    requires n <= |ms|
    ensures TextUpTo(ms, n, metadata) == Unlines(LinesUpTo(ms, n, metadata))
  {
    hide MetricLines;
    if n > 0 {
      TextUpToLines(ms, n - 1, metadata);
      UnlinesAppend(LinesUpTo(ms, n - 1, metadata), MetricLines(ms[n - 1], metadata));
    }
  }

  /** The rendering loop over the sorted pointers. */
  method WriteAll(refs: seq<MetricRef>, metadata: bool, ghost ms: seq<Metric>) returns (out: string)
    requires |refs| == |ms| && AllWellFormed(ms)
    requires forall i :: 0 <= i < |refs| ==> refs[i].View() == ms[i]
    ensures out == TextUpTo(ms, |ms|, metadata)
  {
    hide MetricLines;
    out := "";
    for i := 0 to |refs|
      invariant out == TextUpTo(ms, i, metadata)
    {
      out := WriteMetric(refs[i], ms[i], metadata, out);
    }
  }

  method RenderPrometheusText(registry: MetricRegistry, metadata: bool) returns (out: string)
    requires registry.Valid()
    ensures out == Render(registry.Contents(), metadata)
  {
    hide MetricLines, WellFormed, IsListing, TextUpTo, LinesUpTo, MetricRegistry.Valid, MetricRegistry.Contents;
    var refs := SortedList(registry);
    ghost var ms := Listing(registry.Contents());
    ListingWellFormed(registry.Contents());
    TextUpToLines(ms, |ms|, metadata);
    out := WriteAll(refs, metadata, ms);
  }

  lemma ListingWellFormed(c: Contents)
    requires ValidContents(c)
    ensures AllWellFormed(Listing(c))
  {
    hide WellFormed;
  }
}
