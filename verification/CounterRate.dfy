/**
 The rate helper for counters: units per second between successive observations, re-baselined
 when the counter decreases. Time is the tick count of the steady clock, in nanoseconds.
 */
module Rates {
  import opened Text
  import opened Numbers

  const TICKS_PER_SECOND: real := 1_000_000_000.0

  datatype Baseline = Baseline(value: real, time: int)

  datatype RateState = RateState(prev: Option<Baseline>, lastRate: Option<real>)

  const INITIAL := RateState(None, None)

  datatype Observation = Observation(value: Num, time: int)

  function Elapsed(from: int, to: int): real { (to - from) as real / TICKS_PER_SECOND }

  function Rate(b: Baseline, v: real, now: int): real
    requires now > b.time
  {
    (v - b.value) / Elapsed(b.time, now)
  }

  /** What one observation does to the helper; the second part is what it returns. */
  function Step(s: RateState, o: Observation): (RateState, Option<real>) {
    if !o.value.Finite? then (s, None)
    else
      var v := o.value.v;
      if s.prev.None? || v < s.prev.value.value then
        (RateState(Some(Baseline(v, o.time)), None), None)
      else if o.time <= s.prev.value.time then (s, s.lastRate)
      else
        var r := Rate(s.prev.value, v, o.time);
        (RateState(Some(Baseline(v, o.time)), Some(r)), Some(r))
  }

  class CounterRate {
    var havePrev: bool
    var prevValue: real
    var prevTime: int
    var lastRate: Option<real>

    ghost function Abs(): RateState
      reads this
    {
      RateState(if havePrev then Some(Baseline(prevValue, prevTime)) else None, lastRate)
    }

    constructor ()
      ensures Abs() == INITIAL
    {
      havePrev := false;
      prevValue := 0.0;
      prevTime := 0;
      lastRate := None;
    }

    method Observe(counterValue: Num, now: int) returns (r: Option<real>)
      modifies this
      ensures (Abs(), r) == Step(old(Abs()), Observation(counterValue, now))
    {
      if !counterValue.Finite? {
        return None;
      }
      var v := counterValue.v;
      if !havePrev {
        prevValue, prevTime, havePrev, lastRate := v, now, true, None;
        return None;
      }
      if v < prevValue {
        prevValue, prevTime, lastRate := v, now, None;
        return None;
      }
      var elapsed := Elapsed(prevTime, now);
      if elapsed <= 0.0 {
        return lastRate;
      }
      lastRate := Some((v - prevValue) / elapsed);
      prevValue, prevTime := v, now;
      return lastRate;
    }

    method Reset()
      modifies this
      ensures Abs() == INITIAL
    {
      havePrev := false;
      prevValue := 0.0;
      lastRate := None;
    }
  }

  // ---------------------------------------------------------------- runs

  function After(obs: seq<Observation>): RateState {
    if obs == [] then INITIAL else Step(After(obs[..|obs| - 1]), obs[|obs| - 1]).0
  }

  /** This observation measured a rate, as opposed to repeating the last one or none. */
  predicate Measures(s: RateState, o: Observation) {
    o.value.Finite? && s.prev.Some? && o.value.v >= s.prev.value.value && o.time > s.prev.value.time
  }

  /** This observation is a detected decrease. */
  predicate Resets(s: RateState, o: Observation) {
    o.value.Finite? && s.prev.Some? && o.value.v < s.prev.value.value
  }

  /** Sum over the run of every measured rate times the time it was measured over. */
  function Credited(obs: seq<Observation>): real {
    if obs == [] then 0.0
    else
      var s := After(obs[..|obs| - 1]);
      var o := obs[|obs| - 1];
      Credited(obs[..|obs| - 1])
      + (if Measures(s, o) then Times(Rate(s.prev.value, o.value.v, o.time), Elapsed(s.prev.value.time, o.time)) else 0.0)
  }

  /** Sum over the run of every detected decrease. */
  function Dropped(obs: seq<Observation>): real {
    if obs == [] then 0.0
    else
      var s := After(obs[..|obs| - 1]);
      var o := obs[|obs| - 1];
      Dropped(obs[..|obs| - 1]) + (if Resets(s, o) then s.prev.value.value - o.value.v else 0.0)
  }

  /** The first finite value of the run. */
  function First(obs: seq<Observation>): Option<real> {
    if obs == [] then None
    else if obs[0].value.Finite? then Some(obs[0].value.v)
    else First(obs[1..])
  }

  lemma {:induction false} FirstSnoc(obs: seq<Observation>, o: Observation)
    ensures First(obs + [o]) == if First(obs).Some? then First(obs) else if o.value.Finite? then Some(o.value.v) else None
  {
    if obs == [] {
      assert obs + [o] == [o];
    } else {
      FirstSnoc(obs[1..], o);
      assert (obs + [o])[1..] == obs[1..] + [o];
    }
  }

  lemma RateTimesElapsed(b: Baseline, v: real, now: int)
    requires now > b.time
    ensures Times(Rate(b, v, now), Elapsed(b.time, now)) == v - b.value
    ensures v >= b.value ==> Rate(b, v, now) >= 0.0
    ensures Elapsed(b.time, now) == (now - b.time) as real / 1_000_000_000.0
  {
    var e := Elapsed(b.time, now);
    assert e > 0.0;
  }

  /**
   Conservation over every run: the growth the reported rates account for is exactly the
   movement of the baseline plus what the counter lost at detected decreases.
   */
  lemma {:induction false} Conservation(obs: seq<Observation>)
    ensures After(obs).prev.Some? <==> First(obs).Some?
    ensures First(obs).Some? ==> Credited(obs) == After(obs).prev.value.value - First(obs).value + Dropped(obs)
    ensures First(obs).None? ==> Credited(obs) == 0.0 && Dropped(obs) == 0.0
  {
    if obs != [] {
      var before := obs[..|obs| - 1];
      var o := obs[|obs| - 1];
      Conservation(before);
      FirstSnoc(before, o);
      assert obs == before + [o];
      if Measures(After(before), o) { RateTimesElapsed(After(before).prev.value, o.value.v, o.time); }
    }
  }

  /** Finite observations at strictly increasing times that never decrease. */
  ghost predicate Monotone(obs: seq<Observation>) {
    && (forall i :: 0 <= i < |obs| ==> obs[i].value.Finite?)
    && (forall i, j :: 0 <= i < j < |obs| ==> obs[i].time < obs[j].time && obs[i].value.v <= obs[j].value.v)
  }

  /** On a monotone run the rates telescope: together they account for last minus first. */
  lemma {:induction false} Telescoping(obs: seq<Observation>)
    requires Monotone(obs) && obs != []
    ensures var last := obs[|obs| - 1];
            && After(obs).prev == Some(Baseline(last.value.v, last.time))
            && Dropped(obs) == 0.0
            && Credited(obs) == last.value.v - obs[0].value.v
  {
    Conservation(obs);
    if |obs| > 1 {
      Telescoping(obs[..|obs| - 1]);
      assert obs[|obs| - 2].value.v <= obs[|obs| - 1].value.v;
    } else {
      assert obs[..0] == [];
    }
  }

  /** `obs[i]` and `obs[j]` are the two ends of the measurement `r`, with no decrease since `obs[i]`. */
  ghost predicate MeasuredBy(obs: seq<Observation>, r: real, i: int, j: int) {
    && 0 <= i < j < |obs|
    && obs[i].value.Finite? && obs[j].value.Finite? && obs[i].time < obs[j].time
    && Times(r, (obs[j].time - obs[i].time) as real / 1_000_000_000.0) == obs[j].value.v - obs[i].value.v
    && r >= 0.0
    && (forall k :: i < k <= j && obs[k].value.Finite? ==> obs[k].value.v >= obs[i].value.v)
    && (forall k :: j < k < |obs| && obs[k].value.Finite? ==> obs[k].value.v >= obs[j].value.v && obs[k].time <= obs[j].time)
  }

  /** The baseline is the observation `obs[i]`, and nothing finite after it went below it or later than it. */
  ghost predicate BaselineAt(obs: seq<Observation>, b: Baseline, i: int) {
    && 0 <= i < |obs|
    && obs[i] == Observation(Finite(b.value), b.time)
    && (forall k :: i < k < |obs| && obs[k].value.Finite? ==> obs[k].value.v >= b.value && obs[k].time <= b.time)
  }

  lemma {:induction false} BaselineExists(obs: seq<Observation>)
    ensures After(obs).prev.Some? ==> exists i :: BaselineAt(obs, After(obs).prev.value, i)
  {
    if obs != [] && After(obs).prev.Some? {
      var before := obs[..|obs| - 1];
      BaselineExists(before);
      if After(obs).prev == After(before).prev {
        var i :| BaselineAt(before, After(before).prev.value, i);
        if BaselineAt(obs, After(obs).prev.value, i) {
        } else {
          assert BaselineAt(obs, After(obs).prev.value, |obs| - 1);
        }
      } else {
        assert BaselineAt(obs, After(obs).prev.value, |obs| - 1);
      }
    }
  }

  /** What the helper returns is what it holds, except that a value that is not finite returns nothing. */
  lemma ReturnsHeld(obs: seq<Observation>, o: Observation)
    ensures Step(After(obs), o).1 == if o.value.Finite? then After(obs + [o]).lastRate else None
  {
    assert (obs + [o])[..|obs|] == obs;
  }

  /** On a monotone run each observation after the first returns the growth per second since the one before. */
  lemma {:induction false} MonotoneRate(obs: seq<Observation>)
    requires Monotone(obs) && |obs| >= 2
    ensures var a, b := obs[|obs| - 2], obs[|obs| - 1];
            var r := Step(After(obs[..|obs| - 1]), b).1;
            && r.Some? && Times(r.value, (b.time - a.time) as real / 1_000_000_000.0) == b.value.v - a.value.v
  {
    var init := obs[..|obs| - 1];
    Telescoping(init);
    assert init[|init| - 1] == obs[|obs| - 2];
    RateTimesElapsed(After(init).prev.value, obs[|obs| - 1].value.v, obs[|obs| - 1].time);
  }

  /** A first finite value, and a value below every finite one before it, return nothing. */
  lemma {:induction false} NothingToMeasure(obs: seq<Observation>, o: Observation)
    requires forall i :: 0 <= i < |obs| && obs[i].value.Finite? && o.value.Finite? ==> o.value.v < obs[i].value.v
    ensures Step(After(obs), o).1 == None
  {
    BaselineExists(obs);
  }

  /** The rate the helper holds is the measurement from `obs[i]` to `obs[j]`, and `obs[j]` is its baseline. */
  ghost predicate HeldRate(obs: seq<Observation>, s: RateState, i: int, j: int) {
    && s.lastRate.Some?
    && MeasuredBy(obs, s.lastRate.value, i, j)
    && s.prev == Some(Baseline(obs[j].value.v, obs[j].time))
  }

  lemma NewMeasurement(obs: seq<Observation>, s: RateState, i: int)
    requires obs != [] && s == After(obs[..|obs| - 1]) && s.prev.Some?
    requires Measures(s, obs[|obs| - 1])
    requires BaselineAt(obs[..|obs| - 1], s.prev.value, i)
    ensures HeldRate(obs, After(obs), i, |obs| - 1)
  {
    hide Times, Rate, Elapsed;
    var b := s.prev.value;
    var o := obs[|obs| - 1];
    assert forall k :: 0 <= k < |obs| - 1 ==> obs[..|obs| - 1][k] == obs[k];
    assert After(obs) == RateState(Some(Baseline(o.value.v, o.time)), Some(Rate(b, o.value.v, o.time)));
    RateTimesElapsed(b, o.value.v, o.time);
  }

  lemma KeptMeasurement(obs: seq<Observation>, s: RateState, i: int, j: int)
    requires obs != []
    requires HeldRate(obs[..|obs| - 1], s, i, j)
    requires var o := obs[|obs| - 1];
             o.value.Finite? ==> o.value.v >= s.prev.value.value && o.time <= s.prev.value.time
    ensures HeldRate(obs, s, i, j)
  {
    assert forall k :: 0 <= k < |obs| - 1 ==> obs[..|obs| - 1][k] == obs[k];
  }

  /** Every rate the helper holds was measured between two real observations, across no detected decrease. */
  lemma {:induction false} RateIsMeasured(obs: seq<Observation>)
    ensures After(obs).lastRate.Some? ==> exists i, j :: HeldRate(obs, After(obs), i, j)
  {
    if obs != [] && After(obs).lastRate.Some? {
      var before := obs[..|obs| - 1];
      var s := After(before);
      if Measures(s, obs[|obs| - 1]) {
        BaselineExists(before);
        var i :| BaselineAt(before, s.prev.value, i);
        NewMeasurement(obs, s, i);
      } else {
        RateIsMeasured(before);
        var i, j :| HeldRate(before, s, i, j);
        KeptMeasurement(obs, s, i, j);
      }
    }
  }
}
