/**
 The name-keyed metric registry. `Contents` is its abstract value; the class keeps one heap object per
 metric, so that a set or an increment updates one `Metric` in place, and every operation is one critical section.
 */
module Registry {
  import opened Text
  import opened Numbers
  import opened Metrics

  type Contents = map<string, Metric>

  // ---------------------------------------------------------------- operations on contents

  /** A spec the registry can build a metric from. */
  predicate Accepts(spec: MetricSpec) {
    spec.name != "" && MakeMetric(spec).Some?
  }

  function Registered(c: Contents, spec: MetricSpec): (Contents, bool) {
    if !Accepts(spec) || spec.name in c then (c, false)
    else (c[spec.name := MakeMetric(spec).value], true)
  }

  function Find(c: Contents, k: string): Option<Metric> {
    if k in c then Some(c[k]) else None
  }

  lemma SameByName(a: Contents, b: Contents)
    requires forall k :: Find(a, k) == Find(b, k)
    ensures a == b
  {
    forall k ensures k in a <==> k in b { assert Find(a, k) == Find(b, k); }
    forall k | k in a ensures a[k] == b[k] { assert Find(a, k) == Find(b, k); }
  }

  /** Insert or replace. */
  function Upserted(c: Contents, spec: MetricSpec): Contents {
    if Accepts(spec) then c[spec.name := MakeMetric(spec).value] else c
  }

  function ValueSet(c: Contents, name: string, v: Num): (Contents, bool) {
    if name !in c then (c, false)
    else
      var (m, ok) := SetMetric(c[name], v);
      (c[name := m], ok)
  }

  /** IEEE addition. */
  function NumAdd(a: Num, b: Num): Num {
    match (a, b)
    case (Finite(x), Finite(y)) => Finite(x + y)
    case (Finite(_), _) => b
    case (_, Finite(_)) => a
    case _ => if a == b then a else NaN
  }

  function Incremented(c: Contents, name: string, delta: Num): (Contents, bool) {
    if NumLess(delta, ZERO) || name !in c || !c[name].ACounter? then (c, false)
    else ValueSet(c, name, NumAdd(c[name].value, delta))
  }

  /** Keys are the names of the metrics they hold, and every metric is well formed. */
  ghost predicate ValidContents(c: Contents) {
    forall k :: k in c ==> k != "" && c[k].name == k && WellFormed(c[k])
  }

  lemma UpsertedValid(c: Contents, spec: MetricSpec)
    requires ValidContents(c) && Comparable(spec.buckets)
    ensures ValidContents(Upserted(c, spec))
  {
    MakeMetricWellFormed(spec);
  }

  /** An increment of a counter adds; it leaves every other name alone and is refused for everything else. */
  lemma IncrementLaw(c: Contents, k: string, d: real)
    ensures k in c && c[k].ACounter? && c[k].value.Finite? && c[k].value.v >= 0.0 && d >= 0.0
            ==> Incremented(c, k, Finite(d))
                == (c[k := ACounter(c[k].name, c[k].help, c[k].labels, Finite(c[k].value.v + d))], true)
    ensures d < 0.0 || k !in c || !c[k].ACounter? ==> Incremented(c, k, Finite(d)) == (c, false)
    ensures Incremented(c, k, PosInf) == (c, false) && Incremented(c, k, NegInf) == (c, false)
    ensures Incremented(c, k, NaN) == (c, false)
  {
    if k in c { assert c[k := c[k]] == c; }
  }

  // ---------------------------------------------------------------- folds of upserts

  function UpsertAll(c: Contents, specs: seq<MetricSpec>): Contents {
    if specs == [] then c else Upserted(UpsertAll(c, specs[..|specs| - 1]), specs[|specs| - 1])
  }

  lemma {:induction false} UpsertAllAppend(c: Contents, a: seq<MetricSpec>, b: seq<MetricSpec>)
    ensures UpsertAll(c, a + b) == UpsertAll(UpsertAll(c, a), b)
  {
    if b == [] {
      assert a + b == a;
    } else {
      UpsertAllAppend(c, a, b[..|b| - 1]);
      assert (a + b)[..|a + b| - 1] == a + b[..|b| - 1];
    }
  }

  lemma {:induction false} UpsertAllValid(c: Contents, specs: seq<MetricSpec>)
    requires ValidContents(c) && forall i :: 0 <= i < |specs| ==> Comparable(specs[i].buckets)
    ensures ValidContents(UpsertAll(c, specs))
  {
    if specs != [] {
      UpsertAllValid(c, specs[..|specs| - 1]);
      UpsertedValid(UpsertAll(c, specs[..|specs| - 1]), specs[|specs| - 1]);
    }
  }

  // ---------------------------------------------------------------- the class

  /** A polymorphic `Metric*`. */
  datatype MetricRef = CounterRef(c: CounterMetric) | GaugeRef(g: GaugeMetric) | HistogramRef(h: HistogramMetric) {
    function Obj(): object {
      match this
      case CounterRef(c) => c
      case GaugeRef(g) => g
      case HistogramRef(h) => h
    }

    function Name(): string {
      match this
      case CounterRef(c) => c.name
      case GaugeRef(g) => g.name
      case HistogramRef(h) => h.name
    }

    ghost function View(): (m: Metric)
      reads Obj()
      ensures m.name == Name()
    {
      match this
      case CounterRef(c) => c.View()
      case GaugeRef(g) => g.View()
      case HistogramRef(h) => h.View()
    }
  }

  /** No two entries share an object. */
  ghost predicate Apart(metrics: map<string, MetricRef>) {
    forall k, l :: k in metrics && l in metrics && k != l ==> metrics[k].Obj() != metrics[l].Obj()
  }

  lemma ApartInsert(metrics: map<string, MetricRef>, name: string, ref: MetricRef)
    requires Apart(metrics) && forall k :: k in metrics ==> metrics[k].Obj() != ref.Obj()
    ensures Apart(metrics[name := ref])
  {
  }

  class MetricRegistry {
    var metrics: map<string, MetricRef>
    ghost var Repr: set<object>

    ghost predicate Valid()
      reads this, Repr
    {
      && this in Repr
      && (forall k :: k in metrics ==> metrics[k].Obj() in Repr && metrics[k].Obj() != this)
      && Apart(metrics)
      && (forall k :: k in metrics ==> k != "" && metrics[k].Name() == k && WellFormed(metrics[k].View()))
    }

    ghost function Contents(): (c: Contents)
      requires Valid()
      reads this, Repr
      ensures ValidContents(c)
    {
      map k | k in metrics :: metrics[k].View()
    }

    constructor ()
      ensures Valid() && fresh(Repr) && Contents() == map[]
    {
      metrics := map[];
      Repr := {this};
    }

    /** `makeMetric` for a spec that has a known type. */
    static method Make(spec: MetricSpec) returns (ref: MetricRef)
      requires Accepts(spec) && Comparable(spec.buckets)
      ensures fresh(ref.Obj()) && Some(ref.View()) == MakeMetric(spec)
      ensures WellFormed(ref.View()) && ref.Name() == spec.name
    {
      MakeMetricWellFormed(spec);
      DefaultBoundsComparable();
      match ParseMetricType(spec.typ)
      case Counter =>
        var c := new CounterMetric(spec);
        ref := CounterRef(c);
      case Gauge =>
        var g := new GaugeMetric(spec);
        ref := GaugeRef(g);
      case Histogram =>
        var h := new HistogramMetric(spec, if spec.buckets == [] then DEFAULT_BOUNDS else spec.buckets);
        ref := HistogramRef(h);
    }

    /** Put a freshly made metric under its name. */
    method Store(spec: MetricSpec)
      requires Valid() && Accepts(spec) && Comparable(spec.buckets)
      modifies this
      ensures Valid() && fresh(Repr - old(Repr))
      ensures Contents() == old(Contents())[spec.name := MakeMetric(spec).value]
    {
      hide MakeMetric, WellFormed;
      ghost var before := Contents();
      var ref := Make(spec);
      assert Valid() && Contents() == before;
      Insert(ref);
    }

    /** `metrics_[name] = metric` for an object that no entry holds yet. */
    method Insert(ref: MetricRef)
      requires Valid() && ref.Obj() !in Repr && ref.Name() != "" && WellFormed(ref.View())
      modifies this
      ensures Valid() && Repr == old(Repr) + {ref.Obj()}
      ensures Contents() == old(Contents())[ref.Name() := ref.View()]
    {
      metrics := metrics[ref.Name() := ref];
      Repr := Repr + {ref.Obj()};
      Inserted(ref);
    }

    /** Only the table and the new entry have changed. */
    twostate lemma Inserted(ref: MetricRef)
      requires old(Valid()) && ref.Obj() !in old(Repr) && ref.Name() != "" && WellFormed(ref.View())
      requires metrics == old(metrics)[ref.Name() := ref] && Repr == old(Repr) + {ref.Obj()}
      requires forall o: object :: o in Repr && o != this ==> unchanged(o)
      ensures Valid() && Contents() == old(Contents())[ref.Name() := ref.View()]
    {
      hide WellFormed, Apart;
      ApartInsert(old(metrics), ref.Name(), ref);
      forall k | k in metrics && k != ref.Name()
        ensures metrics[k].View() == old(metrics[k].View()) && metrics[k].Obj() in old(Repr) && metrics[k].Obj() != this
      {
        assert k in old(metrics) && metrics[k].Obj() in old(Repr);
      }
    }

    method RegisterMetric(spec: MetricSpec) returns (ok: bool)
      requires Valid() && Comparable(spec.buckets)
      modifies this
      ensures Valid() && fresh(Repr - old(Repr))
      ensures Contents() == Registered(old(Contents()), spec).0
      ensures ok == Registered(old(Contents()), spec).1
    {
      ok := spec.name != "" && ParseMetricType(spec.typ) != Unknown && spec.name !in metrics;
      if ok {
        Store(spec);
      }
    }

    method Upsert(spec: MetricSpec) returns (ok: bool)
      requires Valid() && Comparable(spec.buckets)
      modifies this
      ensures Valid() && fresh(Repr - old(Repr))
      ensures Contents() == Upserted(old(Contents()), spec) && ok == Accepts(spec)
    {
      ok := spec.name != "" && ParseMetricType(spec.typ) != Unknown;
      if ok {
        Store(spec);
      }
    }

    /** The virtual call `metric->setValue(v)`. */
    static method Dispatch(ref: MetricRef, v: Num) returns (ok: bool)
      requires WellFormed(ref.View())
      modifies ref.Obj()
      ensures ref.View() == SetMetric(old(ref.View()), v).0
      ensures ok == SetMetric(old(ref.View()), v).1
      ensures WellFormed(ref.View())
    {
      SetMetricWellFormed(ref.View(), v);
      match ref
      case CounterRef(c) => ok := c.SetValue(v);
      case GaugeRef(g) => ok := g.SetValue(v);
      case HistogramRef(h) => ok := h.SetValue(v);
    }

    method SetValue(name: string, v: Num) returns (ok: bool)
      requires Valid()
      modifies Repr
      ensures Valid() && Repr == old(Repr)
      ensures Contents() == ValueSet(old(Contents()), name, v).0
      ensures ok == ValueSet(old(Contents()), name, v).1
    {
      hide SetMetric, WellFormed;
      if name !in metrics {
        return false;
      }
      ghost var before := Contents();
      SetMetricWellFormed(before[name], v);
      label Before:
      ok := Dispatch(metrics[name], v);
      OthersUnchanged@Before(name);
    }

    /** Changing the object of one metric leaves every other metric as it was. */
    twostate lemma OthersUnchanged(name: string)
      requires old(Valid()) && name in metrics && metrics == old(metrics) && Repr == old(Repr)
      requires forall o: object :: o in Repr && o != metrics[name].Obj() ==> unchanged(o)
      requires WellFormed(metrics[name].View())
      ensures Valid() && Contents() == old(Contents())[name := metrics[name].View()]
    {
      hide WellFormed, Apart;
      forall k | k in metrics && k != name ensures metrics[k].View() == old(metrics[k].View()) {
        assert metrics[k].Obj() in Repr && metrics[k].Obj() != metrics[name].Obj();
      }
    }

    method Increment(name: string, delta: Num) returns (ok: bool)
      requires Valid()
      modifies Repr
      ensures Valid() && Repr == old(Repr)
      ensures Contents() == Incremented(old(Contents()), name, delta).0
      ensures ok == Incremented(old(Contents()), name, delta).1
    {
      if NumLess(delta, ZERO) {
        return false;
      }
      if name !in metrics {
        return false;
      }
      match metrics[name]
      case CounterRef(c) => ok := SetValue(name, NumAdd(c.value, delta));
      case _ => return false;
    }

    /** The metrics in the order of the hash table: any order, each exactly once. */
    method List() returns (out: seq<MetricRef>)
      requires Valid()
      ensures forall i :: 0 <= i < |out| ==> out[i].Name() in metrics && out[i] == metrics[out[i].Name()]
      ensures forall i, j :: 0 <= i < j < |out| ==> out[i].Name() != out[j].Name()
      ensures forall k :: k in metrics ==> metrics[k] in out
    {
      out := [];
      var left := metrics.Keys;
      while left != {}
        invariant left <= metrics.Keys
        invariant forall i :: 0 <= i < |out| ==> out[i].Name() in metrics.Keys - left && out[i] == metrics[out[i].Name()]
        invariant forall i, j :: 0 <= i < j < |out| ==> out[i].Name() != out[j].Name()
        invariant forall k :: k in metrics && k !in left ==> metrics[k] in out
      {
        var k :| k in left;
        out := out + [metrics[k]];
        left := left - {k};
      }
    }

    method Size() returns (n: nat)
      requires Valid()
      ensures n == |Contents()|
    {
      n := |metrics|;
      assert metrics.Keys == Contents().Keys;
      assert |metrics| == |metrics.Keys| && |Contents()| == |Contents().Keys|;
    }

    method Clear()
      requires Valid()
      modifies this
      ensures Valid() && Repr == old(Repr) && Contents() == map[]
    {
      metrics := map[];
    }
  }
}
