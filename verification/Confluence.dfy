/**
 Concurrent scrapes upsert into one registry, one critical section per sample. The order in which
 workers interleave matters only between samples of the same name.
 */
module Confluence {
  import opened Text
  import opened Metrics
  import opened Registry
  import opened PrometheusText

  /** The upserts that can touch the metric named `k`, in order. */
  function Only(specs: seq<MetricSpec>, k: string): seq<MetricSpec> {
    if specs == [] then []
    else
      var rest := Only(specs[..|specs| - 1], k);
      var last := specs[|specs| - 1];
      if last.name == k && Accepts(last) then rest + [last] else rest
  }

  /** What a sequence of upserts leaves under `k`: the metric of the last one that names it. */
  function LastWrite(c: Contents, writes: seq<MetricSpec>, k: string): Option<Metric> {
    if writes == [] then Find(c, k) else MakeMetric(writes[|writes| - 1])
  }

  lemma {:induction false} UpsertsByName(c: Contents, specs: seq<MetricSpec>, k: string)
    ensures Find(UpsertAll(c, specs), k) == LastWrite(c, Only(specs, k), k)
  {
    hide MakeMetric;
    if specs != [] {
      UpsertsByName(c, specs[..|specs| - 1], k);
    }
  }

  /** Two schedules that order the samples of every single name alike leave the same registry. */
  lemma SameOrderPerName(c: Contents, v: seq<MetricSpec>, w: seq<MetricSpec>)
    requires forall k :: Only(v, k) == Only(w, k)
    ensures UpsertAll(c, v) == UpsertAll(c, w)
  {
    hide UpsertAll, Only, MakeMetric;
    forall k ensures Find(UpsertAll(c, v), k) == Find(UpsertAll(c, w), k) {
      UpsertsByName(c, v, k);
      UpsertsByName(c, w, k);
    }
    SameByName(UpsertAll(c, v), UpsertAll(c, w));
  }

  /** `w` runs the upserts of `a` and of `b`, each in its own order. */
  predicate Interleaves(w: seq<MetricSpec>, a: seq<MetricSpec>, b: seq<MetricSpec>)
    decreases |w|
  {
    if w == [] then a == [] && b == []
    else
      var last := w[|w| - 1];
      var init := w[..|w| - 1];
      || (a != [] && last == a[|a| - 1] && Interleaves(init, a[..|a| - 1], b))
      || (b != [] && last == b[|b| - 1] && Interleaves(init, a, b[..|b| - 1]))
  }

  ghost predicate DisjointNames(a: seq<MetricSpec>, b: seq<MetricSpec>) {
    forall i, j :: 0 <= i < |a| && 0 <= j < |b| ==> a[i].name != b[j].name
  }

  ghost predicate Mentions(specs: seq<MetricSpec>, k: string) {
    exists i :: 0 <= i < |specs| && specs[i].name == k
  }

  lemma {:induction false} OnlyUnmentioned(specs: seq<MetricSpec>, k: string)
    requires !Mentions(specs, k)
    ensures Only(specs, k) == []
  {
    if specs != [] { OnlyUnmentioned(specs[..|specs| - 1], k); }
  }

  lemma {:induction false} OnlyInterleaved(w: seq<MetricSpec>, a: seq<MetricSpec>, b: seq<MetricSpec>, k: string)
    requires Interleaves(w, a, b)
    ensures !Mentions(b, k) ==> Only(w, k) == Only(a, k)
    ensures !Mentions(a, k) ==> Only(w, k) == Only(b, k)
    decreases |w|
  {
    hide Accepts;
    if w != [] {
      var last := w[|w| - 1];
      var init := w[..|w| - 1];
      if a != [] && last == a[|a| - 1] && Interleaves(init, a[..|a| - 1], b) {
        OnlyInterleaved(init, a[..|a| - 1], b, k);
        assert last.name == k ==> Mentions(a, k);
        MentionsPrefix(a, k);
      } else {
        OnlyInterleaved(init, a, b[..|b| - 1], k);
        assert last.name == k ==> Mentions(b, k);
        MentionsPrefix(b, k);
      }
    }
  }

  lemma MentionsPrefix(specs: seq<MetricSpec>, k: string)
    requires specs != []
    ensures Mentions(specs[..|specs| - 1], k) ==> Mentions(specs, k)
  {
    if Mentions(specs[..|specs| - 1], k) {
      var i :| 0 <= i < |specs| - 1 && specs[..|specs| - 1][i].name == k;
      assert specs[i].name == k;
    }
  }

  lemma {:induction false} OnlyAppend(a: seq<MetricSpec>, b: seq<MetricSpec>, k: string)
    ensures Only(a + b, k) == Only(a, k) + Only(b, k)
  {
    hide Accepts;
    if b == [] {
      assert a + b == a;
    } else {
      OnlyAppend(a, b[..|b| - 1], k);
      assert (a + b)[..|a + b| - 1] == a + b[..|b| - 1];
    }
  }

  /** Every interleaving of two scrapes over disjoint names ends like running one after the other, in either order. */
  lemma InterleavingConfluence(c: Contents, w: seq<MetricSpec>, a: seq<MetricSpec>, b: seq<MetricSpec>)
    requires Interleaves(w, a, b) && DisjointNames(a, b)
    ensures UpsertAll(c, w) == UpsertAll(UpsertAll(c, a), b) == UpsertAll(UpsertAll(c, b), a)
  {
    hide UpsertAll, Only, Interleaves;
    forall k ensures Only(w, k) == Only(a + b, k) == Only(b + a, k) {
      OnlyAppend(a, b, k);
      OnlyAppend(b, a, k);
      OnlyInterleaved(w, a, b, k);
      if Mentions(a, k) {
        DisjointMentions(a, b, k);
        OnlyUnmentioned(b, k);
      } else {
        OnlyUnmentioned(a, k);
      }
    }
    SameOrderPerName(c, w, a + b);
    SameOrderPerName(c, w, b + a);
    UpsertAllAppend(c, a, b);
    UpsertAllAppend(c, b, a);
  }

  lemma DisjointMentions(a: seq<MetricSpec>, b: seq<MetricSpec>, k: string)
    requires DisjointNames(a, b) && Mentions(a, k)
    ensures !Mentions(b, k)
  {
  }

  // ---------------------------------------------------------------- a whole pool of workers

  /** One upsert of the scrape of target `target`. */
  datatype Write = Write(target: nat, spec: MetricSpec)

  function Specs(schedule: seq<Write>): seq<MetricSpec> {
    if schedule == [] then [] else Specs(schedule[..|schedule| - 1]) + [schedule[|schedule| - 1].spec]
  }

  /** The upserts of one target's scrape, in their own order. */
  function Projected(schedule: seq<Write>, target: nat): seq<MetricSpec> {
    if schedule == [] then []
    else
      var last := schedule[|schedule| - 1];
      Projected(schedule[..|schedule| - 1], target) + (if last.target == target then [last.spec] else [])
  }

  /** No two targets export the same name. */
  ghost predicate OwnNames(schedule: seq<Write>) {
    forall i, j :: 0 <= i < |schedule| && 0 <= j < |schedule| && schedule[i].spec.name == schedule[j].spec.name
                   ==> schedule[i].target == schedule[j].target
  }

  /** All writes to `k` come from its owner. */
  lemma {:induction false} OnlyOwner(schedule: seq<Write>, k: string, owner: nat)
    requires forall i :: 0 <= i < |schedule| && schedule[i].spec.name == k ==> schedule[i].target == owner
    ensures Only(Specs(schedule), k) == Only(Projected(schedule, owner), k)
  {
    hide Only;
    if schedule != [] {
      var n := |schedule| - 1;
      var last := schedule[n];
      OnlyOwner(schedule[..n], k, owner);
      OnlyAppend(Specs(schedule[..n]), [last.spec], k);
      if last.target == owner {
        OnlyAppend(Projected(schedule[..n], owner), [last.spec], k);
      } else {
        OnlySkips(last.spec, k);
        assert Projected(schedule, owner) == Projected(schedule[..n], owner);
      }
    }
  }

  lemma OnlySkips(spec: MetricSpec, k: string)
    ensures spec.name != k ==> Only([spec], k) == []
  {
  }

  lemma {:induction false} NoWriteTo(schedule: seq<Write>, k: string)
    requires forall i :: 0 <= i < |schedule| ==> schedule[i].spec.name != k
    ensures Only(Specs(schedule), k) == []
  {
    hide Accepts;
    if schedule != [] { NoWriteTo(schedule[..|schedule| - 1], k); }
  }

  lemma {:induction false} ProjectedHas(schedule: seq<Write>, target: nat, i: nat)
    requires i < |schedule| && schedule[i].target == target
    ensures schedule[i].spec in Projected(schedule, target)
  {
    var n := |schedule| - 1;
    if i < n { ProjectedHas(schedule[..n], target, i); }
  }

  lemma {:induction false} ProjectedFrom(schedule: seq<Write>, target: nat, spec: MetricSpec)
    requires spec in Projected(schedule, target)
    ensures exists i :: 0 <= i < |schedule| && schedule[i] == Write(target, spec)
  {
    var n := |schedule| - 1;
    if spec in Projected(schedule[..n], target) {
      ProjectedFrom(schedule[..n], target, spec);
      var i :| 0 <= i < n && schedule[..n][i] == Write(target, spec);
      assert schedule[i] == Write(target, spec);
    } else {
      assert schedule[n] == Write(target, spec);
    }
  }

  /** Any number of workers: if no name is exported by two targets, every interleaving of the same scrapes ends alike. */
  lemma WorkerOrderIrrelevant(c: Contents, v: seq<Write>, w: seq<Write>)
    requires OwnNames(v) && forall t :: Projected(v, t) == Projected(w, t)
    ensures UpsertAll(c, Specs(v)) == UpsertAll(c, Specs(w))
  {
    hide UpsertAll, Only, Projected, Specs;
    forall k ensures Only(Specs(v), k) == Only(Specs(w), k) {
      if i :| 0 <= i < |v| && v[i].spec.name == k {
        var t := v[i].target;
        forall j | 0 <= j < |w| && w[j].spec.name == k ensures w[j].target == t {
          ProjectedHas(w, w[j].target, j);
          ProjectedFrom(v, w[j].target, w[j].spec);
        }
        OnlyOwner(v, k, t);
        OnlyOwner(w, k, t);
      } else {
        forall j | 0 <= j < |w| ensures w[j].spec.name != k {
          ProjectedHas(w, w[j].target, j);
          ProjectedFrom(v, w[j].target, w[j].spec);
        }
        NoWriteTo(v, k);
        NoWriteTo(w, k);
      }
    }
    SameOrderPerName(c, Specs(v), Specs(w));
  }

  // ---------------------------------------------------------------- when names are shared

  /** What a scrape ends up writing under `k`, if anything. */
  function FinalWrite(specs: seq<MetricSpec>, k: string): Option<Metric> {
    LastWrite(map[], Only(specs, k), k)
  }

  lemma OnlyBuilds(specs: seq<MetricSpec>, k: string)
    ensures forall i :: 0 <= i < |Only(specs, k)| ==> MakeMetric(Only(specs, k)[i]).Some?
  {
    hide MakeMetric;
    if specs != [] { OnlyBuilds(specs[..|specs| - 1], k); }
  }

  lemma TwoMerges(c: Contents, a: seq<MetricSpec>, b: seq<MetricSpec>, k: string)
    ensures Find(UpsertAll(UpsertAll(c, a), b), k)
            == if FinalWrite(b, k).Some? then FinalWrite(b, k)
               else if FinalWrite(a, k).Some? then FinalWrite(a, k) else Find(c, k)
  {
    hide MakeMetric, UpsertAll, Only;
    UpsertsByName(c, a, k);
    UpsertsByName(UpsertAll(c, a), b, k);
    OnlyBuilds(a, k);
    OnlyBuilds(b, k);
  }

  /** A merge leaves its final writes, and everything else as it was. */
  lemma WrittenLast(c: Contents, a: seq<MetricSpec>, k: string)
    ensures Find(UpsertAll(c, a), k) == if FinalWrite(a, k).Some? then FinalWrite(a, k) else Find(c, k)
  {
    hide UpsertAll, FinalWrite;
    TwoMerges(c, [], a, k);
    NoWrites(c, k);
  }

  /** Two whole merges commute exactly when they agree on every name both of them write. */
  lemma {:induction false} OrderMattersIff(c: Contents, a: seq<MetricSpec>, b: seq<MetricSpec>)
    ensures UpsertAll(UpsertAll(c, a), b) == UpsertAll(UpsertAll(c, b), a)
            <==> forall k :: FinalWrite(a, k).Some? && FinalWrite(b, k).Some? ==> FinalWrite(a, k) == FinalWrite(b, k)
  {
    hide UpsertAll, FinalWrite;
    var x := UpsertAll(UpsertAll(c, a), b);
    var y := UpsertAll(UpsertAll(c, b), a);
    forall k ensures FinalWrite(a, k).Some? && FinalWrite(b, k).Some? ==>
                       (Find(x, k) == Find(y, k) <==> FinalWrite(a, k) == FinalWrite(b, k))
             ensures !(FinalWrite(a, k).Some? && FinalWrite(b, k).Some?) ==> Find(x, k) == Find(y, k)
    {
      TwoMerges(c, a, b, k);
      TwoMerges(c, b, a, k);
    }
    if forall k :: FinalWrite(a, k).Some? && FinalWrite(b, k).Some? ==> FinalWrite(a, k) == FinalWrite(b, k) {
      SameByName(x, y);
    }
  }

  /** Merging the same samples again changes nothing. */
  lemma MergeIdempotent(c: Contents, a: seq<MetricSpec>)
    ensures UpsertAll(UpsertAll(c, a), a) == UpsertAll(c, a)
  {
    hide UpsertAll, FinalWrite;
    forall k ensures Find(UpsertAll(UpsertAll(c, a), a), k) == Find(UpsertAll(c, a), k) {
      TwoMerges(c, a, a, k);
      TwoMerges(c, [], a, k);
      NoWrites(c, k);
    }
    SameByName(UpsertAll(UpsertAll(c, a), a), UpsertAll(c, a));
  }

  lemma NoWrites(c: Contents, k: string)
    ensures UpsertAll(c, []) == c && FinalWrite([], k) == None
  {
  }

  /** The statement for two scraped bodies, whatever the workers' timing. */
  lemma ScrapesCommute(c: Contents, text1: string, text2: string, w: seq<MetricSpec>)
    requires ParseText(text1).Ok? && ParseText(text2).Ok?
    requires DisjointNames(ParseText(text1).value, ParseText(text2).value)
    requires Interleaves(w, ParseText(text1).value, ParseText(text2).value)
    ensures UpsertAll(c, w) == UpsertAll(UpsertAll(c, ParseText(text1).value), ParseText(text2).value)
    ensures UpsertAll(c, w) == UpsertAll(UpsertAll(c, ParseText(text2).value), ParseText(text1).value)
  {
    hide ParseText;
    InterleavingConfluence(c, w, ParseText(text1).value, ParseText(text2).value);
  }
}
