/**
 The scrape scheduler as a step machine. One event is one critical section or atomic access: the dispatcher reads
 the running flag or makes a pass, a worker takes a target, records its result or releases the target, and `stop`
 sets the flag and, once every thread has ended, clears the queue.
 */
module Scheduler {

  /** The clock counts nanoseconds. */
  const SECOND: int := 1_000_000_000

  /** Where the dispatcher thread is. `Off`: there is none. */
  datatype Dispatcher = Off | Checking | Passing | Finished

  /** Where a worker thread is: before the queue, scraping, between the statistics and the release, or ended. */
  datatype Worker = Waiting | Scraping(target: nat) | Recorded(target: nat) | Exited

  /**
   `interval`, `inFlight` and `nextDue` are the targets. The last two fields are history: the targets queued by a
   pass that ran after every worker had ended, and those that a final clear has dropped from the queue.
   */
  datatype State = State(
    interval: seq<int>, inFlight: seq<bool>, nextDue: seq<int>,
    queue: seq<nat>, running: bool, success: nat, failure: nat,
    dispatcher: Dispatcher, workers: seq<Worker>, clock: int,
    late: seq<nat>, stranded: set<nat>)

  datatype Event =
    | Start(count: nat)
    | Check
    | Pass(now: int)
    | Pop(w: nat)
    | Exit(w: nat)
    | Record(w: nat, ok: bool)
    | Reset(w: nat, now: int)
    | StopFlag
    | Clear

  function Constructed(interval: seq<int>, now: int): State {
    State(interval, seq(|interval|, i => false), seq(|interval|, i => now),
          [], false, 0, 0, Off, [], now, [], {})
  }

  // ---------------------------------------------------------------- steps

  predicate Sized(s: State) {
    |s.inFlight| == |s.nextDue| == |s.interval|
  }

  function Targets(s: State): nat { |s.interval| }

  predicate AllExited(ws: seq<Worker>) {
    forall w :: 0 <= w < |ws| ==> ws[w] == Exited
  }

  /** The targets below `n` that a pass at `now` pushes, in order. */
  function Due(inFlight: seq<bool>, nextDue: seq<int>, now: int, n: nat): seq<nat>
    requires n <= |inFlight| && n <= |nextDue|
  {
    if n == 0 then []
    else Due(inFlight, nextDue, now, n - 1) + (if inFlight[n - 1] || now < nextDue[n - 1] then [] else [n - 1])
  }

  function Pushes(s: State, now: int): seq<nat>
    requires Sized(s)
  {
    Due(s.inFlight, s.nextDue, now, Targets(s))
  }

  /** The flags of the first `n` targets after a pass has looked at them. */
  function Marked(inFlight: seq<bool>, nextDue: seq<int>, now: int, n: nat): seq<bool>
    requires n <= |inFlight| == |nextDue|
  {
    seq(|inFlight|, i requires 0 <= i < |inFlight| => inFlight[i] || (i < n && now >= nextDue[i]))
  }

  function NextDue(interval: int, now: int): int {
    now + (if interval < 1 then 1 else interval) * SECOND
  }

  predicate Enabled(s: State, e: Event) {
    && Sized(s)
    && match e
       case Start(n) => s.dispatcher == Off && Targets(s) > 0 && n > 0
       case Check => s.dispatcher == Checking
       case Pass(now) => s.dispatcher == Passing && now >= s.clock
       case Pop(w) => w < |s.workers| && s.workers[w] == Waiting && s.queue != []
       case Exit(w) => w < |s.workers| && s.workers[w] == Waiting && !s.running && s.queue == []
       case Record(w, _) => w < |s.workers| && s.workers[w].Scraping?
       case Reset(w, now) =>
         w < |s.workers| && s.workers[w].Recorded? && s.workers[w].target < Targets(s) && now >= s.clock
       case StopFlag => s.running
       case Clear => !s.running && s.dispatcher == Finished && AllExited(s.workers)
  }

  function Next(s: State, e: Event): State
    requires Enabled(s, e)
  {
    match e
    case Start(n) => s.(running := true, dispatcher := Checking, workers := seq(n, i => Waiting))
    case Check => s.(dispatcher := if s.running then Passing else Finished)
    case Pass(now) =>
      s.(inFlight := Marked(s.inFlight, s.nextDue, now, Targets(s)),
         queue := s.queue + Pushes(s, now),
         dispatcher := Checking, clock := now,
         late := if AllExited(s.workers) then s.late + Pushes(s, now) else s.late)
    case Pop(w) => s.(queue := s.queue[1..], workers := s.workers[w := Scraping(s.queue[0])])
    case Exit(w) => s.(workers := s.workers[w := Exited])
    case Record(w, ok) =>
      s.(success := s.success + (if ok then 1 else 0), failure := s.failure + (if ok then 0 else 1),
         workers := s.workers[w := Recorded(s.workers[w].target)])
    case Reset(w, now) =>
      var i := s.workers[w].target;
      s.(inFlight := s.inFlight[i := false], nextDue := s.nextDue[i := NextDue(s.interval[i], now)],
         workers := s.workers[w := Waiting], clock := now)
    case StopFlag => s.(running := false)
    case Clear =>
      s.(dispatcher := Off, workers := [], queue := [],
         late := [], stranded := s.stranded + (set i | i in s.queue))
  }

  // ---------------------------------------------------------------- the invariant

  function Holds(w: Worker, i: nat): nat {
    if (w.Scraping? || w.Recorded?) && w.target == i then 1 else 0
  }

  /** How many workers hold target `i`. */
  function Held(ws: seq<Worker>, i: nat): nat {
    if ws == [] then 0 else Held(ws[..|ws| - 1], i) + Holds(ws[|ws| - 1], i)
  }

  /** How often target `i` is queued or held. */
  function Active(s: State, i: nat): nat { multiset(s.queue)[i] + Held(s.workers, i) }

  /** Every target is queued or held as often as its flag says, at most once. */
  ghost predicate FlagsMatch(s: State)
    requires Sized(s)
  {
    forall i: nat :: Active(s, i) == if i < Targets(s) && s.inFlight[i] && i !in s.stranded then 1 else 0
  }

  ghost predicate Inv(s: State) {
    && Sized(s)
    && FlagsMatch(s)
    && (forall i :: i in s.stranded ==> i < Targets(s) && s.inFlight[i])
    && (s.dispatcher == Off ==> !s.running && s.queue == [] && s.workers == [])
    && (s.dispatcher != Off ==> s.workers != [])
    && (s.dispatcher == Finished ==> !s.running)
    && (forall w :: 0 <= w < |s.workers| && s.workers[w] == Exited ==> !s.running)
    && (if AllExited(s.workers) then s.queue == s.late else s.late == [])
  }

  // ---------------------------------------------------------------- preservation

  lemma {:induction false} HeldUpdate(ws: seq<Worker>, w: nat, x: Worker, i: nat)
    requires w < |ws|
    ensures Held(ws[w := x], i) + Holds(ws[w], i) == Held(ws, i) + Holds(x, i)
  {
    hide Holds;
    var n := |ws| - 1;
    if w == n {
      assert ws[w := x][..n] == ws[..n];
    } else {
      HeldUpdate(ws[..n], w, x, i);
      assert ws[w := x][..n] == ws[..n][w := x];
    }
  }

  lemma {:induction false} NobodyHolds(ws: seq<Worker>, i: nat)
    requires forall w :: 0 <= w < |ws| ==> ws[w] == Waiting || ws[w] == Exited
    ensures Held(ws, i) == 0
  {
    if ws != [] { NobodyHolds(ws[..|ws| - 1], i); }
  }

  lemma CountAppend(a: seq<nat>, b: seq<nat>, i: nat)
    ensures multiset(a + b)[i] == multiset(a)[i] + multiset(b)[i]
  {
  }

  lemma NothingDue(inFlight: seq<bool>, nextDue: seq<int>, now: int)
    ensures Due(inFlight, nextDue, now, 0) == []
  {
  }

  lemma DueSnoc(inFlight: seq<bool>, nextDue: seq<int>, now: int, n: nat, i: nat)
    requires 0 < n <= |inFlight| && n <= |nextDue|
    ensures multiset(Due(inFlight, nextDue, now, n))[i]
            == multiset(Due(inFlight, nextDue, now, n - 1))[i]
               + (if i == n - 1 && !inFlight[i] && now >= nextDue[i] then 1 else 0)
  {
    hide Due;
    if inFlight[n - 1] || now < nextDue[n - 1] {
      DueSkips(inFlight, nextDue, now, n);
    } else {
      DueTakes(inFlight, nextDue, now, n);
      CountAppend(Due(inFlight, nextDue, now, n - 1), [n - 1], i);
      CountSingle(n - 1, i);
    }
  }

  lemma DueSkips(inFlight: seq<bool>, nextDue: seq<int>, now: int, n: nat)
    requires 0 < n <= |inFlight| && n <= |nextDue| && (inFlight[n - 1] || now < nextDue[n - 1])
    ensures Due(inFlight, nextDue, now, n) == Due(inFlight, nextDue, now, n - 1)
  {
    assert Due(inFlight, nextDue, now, n) == Due(inFlight, nextDue, now, n - 1) + [];
  }

  lemma DueTakes(inFlight: seq<bool>, nextDue: seq<int>, now: int, n: nat)
    requires 0 < n <= |inFlight| && n <= |nextDue| && !(inFlight[n - 1] || now < nextDue[n - 1])
    ensures Due(inFlight, nextDue, now, n) == Due(inFlight, nextDue, now, n - 1) + [n - 1]
  {
  }

  lemma CountSingle(x: nat, i: nat)
    ensures multiset([x])[i] == if x == i then 1 else 0
  {
  }

  lemma {:induction false} DueOnce(inFlight: seq<bool>, nextDue: seq<int>, now: int, n: nat, i: nat)
    requires n <= |inFlight| && n <= |nextDue|
    ensures multiset(Due(inFlight, nextDue, now, n))[i] == if i < n && !inFlight[i] && now >= nextDue[i] then 1 else 0
  {
    hide Due;
    if n == 0 {
      NothingDue(inFlight, nextDue, now);
    } else {
      DueOnce(inFlight, nextDue, now, n - 1, i);
      DueSnoc(inFlight, nextDue, now, n, i);
    }
  }

  lemma CountHead(q: seq<nat>, i: nat)
    requires q != []
    ensures multiset(q)[i] == (if q[0] == i then 1 else 0) + multiset(q[1..])[i]
  {
    assert q == [q[0]] + q[1..];
    CountAppend([q[0]], q[1..], i);
  }

  /** One worker changes and the queue keeps its elements. */
  lemma WorkerMoves(s: State, t: State, w: nat, x: Worker)
    requires Inv(s) && Sized(t) && w < |s.workers| && t.workers == s.workers[w := x]
    requires t.queue == s.queue && t.inFlight == s.inFlight && t.interval == s.interval && t.stranded == s.stranded
    requires forall i: nat :: Holds(x, i) == Holds(s.workers[w], i)
    ensures FlagsMatch(t)
  {
    forall i: nat ensures Active(t, i) == Active(s, i) {
      HeldUpdate(s.workers, w, x, i);
    }
  }

  lemma PassActive(s: State, now: int, i: nat)
    requires Inv(s) && Enabled(s, Pass(now))
    ensures var t := Next(s, Pass(now));
            Active(t, i) == if i < Targets(t) && t.inFlight[i] && i !in t.stranded then 1 else 0
  {
    hide Due, AllExited;
    var t := Next(s, Pass(now));
    DueOnce(s.inFlight, s.nextDue, now, Targets(s), i);
    CountAppend(s.queue, Pushes(s, now), i);
    assert Active(s, i) <= 1;
  }

  lemma PassKeepsFlags(s: State, now: int)
    requires Inv(s) && Enabled(s, Pass(now))
    ensures FlagsMatch(Next(s, Pass(now)))
  {
    hide Due, Active;
    var t := Next(s, Pass(now));
    forall i: nat
      ensures Active(t, i) == if i < Targets(t) && t.inFlight[i] && i !in t.stranded then 1 else 0
    {
      PassActive(s, now, i);
    }
  }

  lemma ResetKeepsFlags(s: State, w: nat, now: int)
    requires Inv(s) && Enabled(s, Reset(w, now))
    ensures FlagsMatch(Next(s, Reset(w, now)))
    ensures s.workers[w].target !in s.stranded && s.inFlight[s.workers[w].target]
  {
    var t := Next(s, Reset(w, now));
    var i := s.workers[w].target;
    HeldHas(s.workers, w, i);
    assert Active(s, i) == 1;
    forall j: nat
      ensures Active(t, j) == if j < Targets(t) && t.inFlight[j] && j !in t.stranded then 1 else 0
    {
      HeldUpdate(s.workers, w, Waiting, j);
      assert Active(s, j) == if j < Targets(s) && s.inFlight[j] && j !in s.stranded then 1 else 0;
    }
  }

  lemma ClearKeepsFlags(s: State)
    requires Inv(s) && Enabled(s, Clear)
    ensures FlagsMatch(Next(s, Clear))
    ensures forall i :: i in s.queue ==> i < Targets(s) && s.inFlight[i] && i !in s.stranded
  {
    forall i: nat ensures Active(s, i) == multiset(s.queue)[i] { NobodyHolds(s.workers, i); }
    forall i | i in s.queue ensures i < Targets(s) && s.inFlight[i] && i !in s.stranded {
      assert multiset(s.queue)[i] > 0;
    }
    var t := Next(s, Clear);
    forall i: nat
      ensures Active(t, i) == if i < Targets(t) && t.inFlight[i] && i !in t.stranded then 1 else 0
    {
      assert Active(s, i) == if i < Targets(s) && s.inFlight[i] && i !in s.stranded then 1 else 0;
      assert multiset(s.queue)[i] > 0 <==> i in s.queue;
    }
  }

  lemma PopKeepsFlags(s: State, w: nat)
    requires Inv(s) && Enabled(s, Pop(w))
    ensures FlagsMatch(Next(s, Pop(w)))
  {
    var t := Next(s, Pop(w));
    forall i: nat ensures Active(t, i) == Active(s, i) {
      CountHead(s.queue, i);
      HeldUpdate(s.workers, w, Scraping(s.queue[0]), i);
    }
  }

  lemma StartKeepsFlags(s: State, n: nat)
    requires Inv(s) && Enabled(s, Start(n))
    ensures FlagsMatch(Next(s, Start(n)))
  {
    var t := Next(s, Start(n));
    forall i: nat ensures Active(t, i) == Active(s, i) { NobodyHolds(t.workers, i); }
  }

  lemma SameFlags(s: State, t: State)
    requires Sized(s) && FlagsMatch(s) && Sized(t) && t.queue == s.queue && t.workers == s.workers
    requires t.inFlight == s.inFlight && t.interval == s.interval && t.stranded == s.stranded
    ensures FlagsMatch(t)
  {
    assert forall i: nat :: Active(t, i) == Active(s, i);
  }

  lemma StepKeepsFlags(s: State, e: Event)
    requires Inv(s) && Enabled(s, e)
    ensures FlagsMatch(Next(s, e))
  {
    hide FlagsMatch;
    var t := Next(s, e);
    match e
    case Start(n) => StartKeepsFlags(s, n);
    case Check => SameFlags(s, t);
    case Pass(now) => PassKeepsFlags(s, now);
    case Pop(w) => PopKeepsFlags(s, w);
    case Exit(w) => WorkerMoves(s, t, w, Exited);
    case Record(w, ok) => WorkerMoves(s, t, w, Recorded(s.workers[w].target));
    case Reset(w, now) => ResetKeepsFlags(s, w, now);
    case StopFlag => SameFlags(s, t);
    case Clear => ClearKeepsFlags(s);
  }

  /** A worker that has not ended keeps `AllExited` false. */
  lemma NotAllExited(ws: seq<Worker>, w: nat)
    requires w < |ws| && ws[w] != Exited
    ensures !AllExited(ws)
  {
  }

  lemma ConstructedInv(interval: seq<int>, now: int)
    ensures Inv(Constructed(interval, now))
  {
  }

  /** Every step keeps the invariant. */
  lemma StepKeepsInv(s: State, e: Event)
    requires Inv(s) && Enabled(s, e)
    ensures Inv(Next(s, e))
  {
    hide FlagsMatch, Due;
    var t := Next(s, e);
    StepKeepsFlags(s, e);
    match e
    case Start(n) => NotAllExited(t.workers, 0);
    case Check =>
    case Pass(now) =>
    case Pop(w) => NotAllExited(s.workers, w); NotAllExited(t.workers, w);
    case Exit(w) => NotAllExited(s.workers, w);
    case Record(w, ok) => NotAllExited(s.workers, w); NotAllExited(t.workers, w);
    case Reset(w, now) =>
      ResetKeepsFlags(s, w, now);
      NotAllExited(s.workers, w);
      NotAllExited(t.workers, w);
    case StopFlag =>
    case Clear => ClearKeepsFlags(s);
  }

  // ---------------------------------------------------------------- what the invariant says

  lemma {:induction false} HeldHas(ws: seq<Worker>, w: nat, i: nat)
    requires w < |ws|
    ensures Holds(ws[w], i) <= Held(ws, i)
  {
    var n := |ws| - 1;
    if w < n {
      HeldHas(ws[..n], w, i);
      assert ws[..n][w] == ws[w];
    }
  }

  lemma {:induction false} HeldHasBoth(ws: seq<Worker>, v: nat, w: nat, i: nat)
    requires v < w < |ws|
    ensures Holds(ws[v], i) + Holds(ws[w], i) <= Held(ws, i)
  {
    hide Holds;
    var n := |ws| - 1;
    assert ws[..n][v] == ws[v];
    if w < n {
      HeldHasBoth(ws[..n], v, w, i);
      assert ws[..n][w] == ws[w];
    } else {
      HeldHas(ws[..n], v, i);
    }
  }

  lemma {:induction false} HeldHolder(ws: seq<Worker>, i: nat)
    requires Held(ws, i) > 0
    ensures exists w :: 0 <= w < |ws| && Holds(ws[w], i) == 1
  {
    var n := |ws| - 1;
    if Holds(ws[n], i) == 0 {
      HeldHolder(ws[..n], i);
      var w :| 0 <= w < n && Holds(ws[..n][w], i) == 1;
      assert ws[..n][w] == ws[w];
    }
  }

  /** The targets the workers hold, in worker order. */
  function HeldTargets(ws: seq<Worker>): seq<nat> {
    if ws == [] then []
    else
      var w := ws[|ws| - 1];
      HeldTargets(ws[..|ws| - 1]) + (if w.Scraping? || w.Recorded? then [w.target] else [])
  }

  /** How many workers are busy. */
  function Busy(ws: seq<Worker>): nat { |HeldTargets(ws)| }

  lemma {:induction false} HeldTargetsCount(ws: seq<Worker>, i: nat)
    ensures multiset(HeldTargets(ws))[i] == Held(ws, i)
  {
    if ws != [] { HeldTargetsCount(ws[..|ws| - 1], i); }
  }

  lemma {:induction false} AtMostOnceBound(m: multiset<nat>, n: nat)
    requires forall i :: i in m ==> i < n && m[i] == 1
    ensures |m| <= n
  {
    if n == 0 {
      assert m == multiset{};
    } else {
      var rest := m[n - 1 := 0];
      AtMostOnceBound(rest, n - 1);
      assert |rest| + m[n - 1] == |m|;
    }
  }

  lemma TwiceInSeq(q: seq<nat>, j: nat, k: nat)
    requires j < k < |q|
    ensures q[j] == q[k] ==> multiset(q)[q[j]] >= 2
  {
    assert q == q[..k] + [q[k]] + q[k + 1..];
    assert q[j] == q[..k][j] && q[j] in multiset(q[..k]);
    CountAppend(q[..k], [q[k]], q[j]);
    CountAppend(q[..k] + [q[k]], q[k + 1..], q[j]);
  }

  lemma QueueDistinct(s: State, j: nat, k: nat)
    requires Inv(s) && j < k < |s.queue|
    ensures s.queue[j] != s.queue[k]
  {
    assert Active(s, s.queue[j]) <= 1;
    TwiceInSeq(s.queue, j, k);
  }

  lemma QueueInRange(s: State, j: nat)
    requires Inv(s) && j < |s.queue|
    ensures s.queue[j] < Targets(s) && s.inFlight[s.queue[j]] && s.queue[j] !in s.stranded
  {
    assert s.queue[j] in multiset(s.queue);
    assert Active(s, s.queue[j]) >= 1;
  }

  /** Target `i` is not queued, and no worker other than `v` holds it. */
  ghost predicate HeldAlone(s: State, v: nat, i: nat) {
    i !in s.queue && forall w :: 0 <= w < |s.workers| && w != v ==> Holds(s.workers[w], i) == 0
  }

  lemma HolderIsAlone(s: State, v: nat, i: nat)
    requires Inv(s) && v < |s.workers| && Holds(s.workers[v], i) == 1
    ensures HeldAlone(s, v, i) && i < Targets(s) && s.inFlight[i] && i !in s.stranded
  {
    HeldHas(s.workers, v, i);
    assert Active(s, i) == 1;
    assert i in s.queue ==> i in multiset(s.queue);
    forall w | 0 <= w < |s.workers| && w != v ensures Holds(s.workers[w], i) == 0 {
      if v < w { HeldHasBoth(s.workers, v, w, i); } else { HeldHasBoth(s.workers, w, v, i); }
    }
  }

  lemma FlagMeaning(s: State, i: nat)
    requires Inv(s) && i < Targets(s)
    ensures s.inFlight[i] <==>
              i in s.queue || (exists w :: 0 <= w < |s.workers| && Holds(s.workers[w], i) == 1) || i in s.stranded
  {
    assert Active(s, i) == multiset(s.queue)[i] + Held(s.workers, i);
    assert i in s.queue <==> i in multiset(s.queue);
    if Held(s.workers, i) > 0 { HeldHolder(s.workers, i); }
    if w :| 0 <= w < |s.workers| && Holds(s.workers[w], i) == 1 { HeldHas(s.workers, w, i); }
  }

  /** Never more work is outstanding than there are targets. */
  lemma OutstandingBound(s: State)
    requires Inv(s)
    ensures |s.queue| + Busy(s.workers) <= Targets(s)
  {
    var all: multiset<nat> := multiset(s.queue + HeldTargets(s.workers));
    forall i: nat | i in all ensures i < Targets(s) && all[i] == 1 {
      CountAppend(s.queue, HeldTargets(s.workers), i);
      HeldTargetsCount(s.workers, i);
      assert Active(s, i) == all[i];
    }
    AtMostOnceBound(all, Targets(s));
  }

  /**
   In words: the queue has no duplicates, no target is held twice or both queued and held, a flag is set exactly
   for the queued, the held and the stranded, never more work is outstanding than there are targets, and every queued
   or held index is a target's.
   */
  lemma InvMeaning(s: State)
    requires Inv(s)
    ensures forall j, k :: 0 <= j < k < |s.queue| ==> s.queue[j] != s.queue[k]
    ensures forall v, i: nat :: 0 <= v < |s.workers| && Holds(s.workers[v], i) == 1 ==> HeldAlone(s, v, i)
    ensures forall i: nat :: i < Targets(s) ==>
              (s.inFlight[i] <==>
                 i in s.queue || (exists w :: 0 <= w < |s.workers| && Holds(s.workers[w], i) == 1) || i in s.stranded)
    ensures |s.queue| + Busy(s.workers) <= Targets(s)
    ensures forall j :: 0 <= j < |s.queue| ==> s.queue[j] < Targets(s)
    ensures forall v, i: nat :: 0 <= v < |s.workers| && Holds(s.workers[v], i) == 1 ==> i < Targets(s)
  {
    hide FlagsMatch;
    forall j | 0 <= j < |s.queue| ensures s.queue[j] < Targets(s) { QueueInRange(s, j); }
    forall j, k | 0 <= j < k < |s.queue| ensures s.queue[j] != s.queue[k] { QueueDistinct(s, j, k); }
    forall v, i: nat | 0 <= v < |s.workers| && Holds(s.workers[v], i) == 1 ensures HeldAlone(s, v, i) && i < Targets(s) {
      HolderIsAlone(s, v, i);
    }
    forall i: nat | i < Targets(s)
      ensures s.inFlight[i] <==>
                i in s.queue || (exists w :: 0 <= w < |s.workers| && Holds(s.workers[w], i) == 1) || i in s.stranded
    {
      FlagMeaning(s, i);
    }
    OutstandingBound(s);
  }
}
