/**
 Laws of every run of the scheduler, over all interleavings of the dispatcher, the workers and `start`/`stop`.
 */
module SchedulerRuns {
  import opened Scheduler

  // ---------------------------------------------------------------- runs

  /** The state after the events of `es` that were enabled in turn. */
  function After(s: State, es: seq<Event>): State {
    if es == [] then s
    else
      var t := After(s, es[..|es| - 1]);
      if Enabled(t, es[|es| - 1]) then Next(t, es[|es| - 1]) else t
  }

  /** Every event of `es` is enabled when its turn comes. */
  ghost predicate Runs(s: State, es: seq<Event>) {
    es != [] ==> Runs(s, es[..|es| - 1]) && Enabled(After(s, es[..|es| - 1]), es[|es| - 1])
  }

  lemma {:induction false} RunsPrefix(s: State, es: seq<Event>, k: nat)
    requires Runs(s, es) && k <= |es|
    ensures Runs(s, es[..k])
    ensures k < |es| ==> Enabled(After(s, es[..k]), es[k]) && After(s, es[..k + 1]) == Next(After(s, es[..k]), es[k])
  {
    hide Enabled, Next;
    if k == |es| {
      assert es[..k] == es;
    } else {
      var init := es[..|es| - 1];
      assert es[..k + 1][..k] == es[..k];
      if k < |init| {
        RunsPrefix(s, init, k);
        assert init[..k] == es[..k] && init[..k + 1] == es[..k + 1];
      } else {
        assert es[..k] == init && es[..k + 1] == es;
      }
    }
  }

  /** Every state a run reaches satisfies the invariant. */
  lemma {:induction false} RunKeepsInv(s: State, es: seq<Event>)
    requires Inv(s) && Runs(s, es)
    ensures Inv(After(s, es)) && After(s, es).interval == s.interval
  {
    hide Inv, Enabled;
    if es != [] {
      var t := After(s, es[..|es| - 1]);
      RunKeepsInv(s, es[..|es| - 1]);
      StepKeepsInv(t, es[|es| - 1]);
    }
  }

  /** In particular every state reachable from construction. */
  lemma ReachableStates(interval: seq<int>, now: int, es: seq<Event>)
    requires Runs(Constructed(interval, now), es)
    ensures Inv(After(Constructed(interval, now), es))
  {
    hide Inv, Runs, After;
    ConstructedInv(interval, now);
    RunKeepsInv(Constructed(interval, now), es);
  }

  ghost predicate NoClear(es: seq<Event>) {
    forall i :: 0 <= i < |es| ==> !es[i].Clear?
  }

  ghost predicate NoStart(es: seq<Event>) {
    forall i :: 0 <= i < |es| ==> !es[i].Start?
  }

  // ---------------------------------------------------------------- logs

  datatype Kind = Pushed | Popped | Dropped | Completed

  /** The targets one event pushes, pops, drops or completes. */
  function Entry(k: Kind, s: State, e: Event): seq<nat>
    requires Enabled(s, e)
  {
    match (k, e)
    case (Pushed, Pass(now)) => Pushes(s, now)
    case (Popped, Pop(_)) => [s.queue[0]]
    case (Dropped, Clear) => s.queue
    case (Completed, Reset(w, _)) => [s.workers[w].target]
    case _ => []
  }

  function Log(k: Kind, s: State, es: seq<Event>): seq<nat> {
    if es == [] then []
    else
      var t := After(s, es[..|es| - 1]);
      Log(k, s, es[..|es| - 1]) + (if Enabled(t, es[|es| - 1]) then Entry(k, t, es[|es| - 1]) else [])
  }

  lemma RunSnoc(s: State, init: seq<Event>, t: State, e: Event, es: seq<Event>)
    requires Runs(s, init) && After(s, init) == t && Enabled(t, e) && es == init + [e]
    ensures Runs(s, es) && After(s, es) == Next(t, e)
    ensures forall k :: Log(k, s, es) == Log(k, s, init) + Entry(k, t, e)
  {
    hide Enabled, Next, Entry;
    assert es[..|es| - 1] == init;
  }

  lemma EmptyRun(s: State)
    ensures Runs(s, []) && After(s, []) == s && forall k :: Log(k, s, []) == []
  {
  }

  // ---------------------------------------------------------------- first in, first out

  lemma FifoStep(s: State, e: Event)
    requires Enabled(s, e) && !e.Clear?
    ensures s.queue + Entry(Pushed, s, e) == Entry(Popped, s, e) + Next(s, e).queue
  {
  }

  /** What is popped, then what is still queued, is what was queued, then what was pushed. */
  lemma {:induction false} QueueIsFifo(s: State, es: seq<Event>)
    requires Runs(s, es) && NoClear(es)
    ensures s.queue + Log(Pushed, s, es) == Log(Popped, s, es) + After(s, es).queue
  {
    hide Enabled, Next, Entry;
    if es != [] {
      var init := es[..|es| - 1];
      var t, e := After(s, init), es[|es| - 1];
      QueueIsFifo(s, init);
      FifoStep(t, e);
      Shuffle(s.queue, Log(Pushed, s, init), Log(Popped, s, init), t.queue,
              Entry(Pushed, t, e), Entry(Popped, t, e), Next(t, e).queue);
    }
  }

  lemma Shuffle(q: seq<nat>, push: seq<nat>, pop: seq<nat>, q': seq<nat>, p1: seq<nat>, p2: seq<nat>, q'': seq<nat>)
    requires q + push == pop + q' && q' + p1 == p2 + q''
    ensures q + (push + p1) == (pop + p2) + q''
  {
    assert q + (push + p1) == (q + push) + p1;
    assert (pop + q') + p1 == pop + (q' + p1);
    assert pop + (p2 + q'') == (pop + p2) + q'';
  }

  /**
   Fair scheduling: whatever the interleaving, a target at position `k` is popped after exactly `k` other pops,
   no other target is popped twice before it, and it moves up one place with each.
   */
  lemma {:induction false} BoundedBypass(s: State, es: seq<Event>, k: nat)
    requires Inv(s) && Runs(s, es) && NoClear(es) && k < |s.queue|
    ensures k < Targets(s)
    ensures var pops := Log(Popped, s, es);
            var left := After(s, es).queue;
            && (|pops| <= k ==> k - |pops| < |left| && left[k - |pops|] == s.queue[k])
            && (|pops| > k ==> pops[k] == s.queue[k])
            && (forall i, j :: 0 <= i < j < |pops| && j <= k ==> pops[i] != pops[j])
  {
    hide Inv, Runs, After, Log;
    QueueIsFifo(s, es);
    OutstandingBound(s);
    var pops, left := Log(Popped, s, es), After(s, es).queue;
    assert (s.queue + Log(Pushed, s, es))[k] == s.queue[k];
    assert (pops + left)[k] == s.queue[k];
    forall i, j | 0 <= i < j < |pops| && j <= k ensures pops[i] != pops[j] {
      assert (pops + left)[i] == (s.queue + Log(Pushed, s, es))[i] == s.queue[i];
      assert (pops + left)[j] == (s.queue + Log(Pushed, s, es))[j] == s.queue[j];
      QueueDistinct(s, i, j);
    }
  }

  // ---------------------------------------------------------------- slow scrapes do not block others

  /** The event is a step of a worker in `stuck`. */
  predicate StepOf(e: Event, stuck: set<nat>) {
    match e
    case Pop(w) => w in stuck
    case Exit(w) => w in stuck
    case Record(w, _) => w in stuck
    case Reset(w, _) => w in stuck
    case _ => false
  }

  /** A run up to the next clear in which no worker of `stuck` moves. */
  ghost predicate WithoutThem(es: seq<Event>, stuck: set<nat>) {
    NoClear(es) && forall i :: 0 <= i < |es| ==> !StepOf(es[i], stuck)
  }

  /** Some run without steps of `stuck` scrapes everything that is queued now. */
  ghost predicate ServedWithout(s: State, stuck: set<nat>) {
    exists es :: Serves(s, es, stuck)
  }

  ghost predicate Serves(s: State, es: seq<Event>, stuck: set<nat>) {
    Runs(s, es) && WithoutThem(es, stuck) && forall i :: i in s.queue ==> i in Log(Completed, s, es)
  }

  ghost predicate SomeOtherAlive(s: State, stuck: set<nat>) {
    exists w :: 0 <= w < |s.workers| && w !in stuck && s.workers[w] != Exited
  }

  /** What one worker does with the first `n` queued targets at one instant. */
  function ServeRun(w: nat, n: nat, now: int): seq<Event> {
    if n == 0 then [] else ServeRun(w, n - 1, now) + [Pop(w)] + [Record(w, true)] + [Reset(w, now)]
  }

  lemma {:induction false} ServeRunEvents(w: nat, n: nat, now: int)
    ensures forall i :: 0 <= i < |ServeRun(w, n, now)| ==>
              ServeRun(w, n, now)[i] in {Pop(w), Record(w, true), Reset(w, now)}
  {
    if n > 0 { ServeRunEvents(w, n - 1, now); }
  }

  /** A free worker alone scrapes the whole queue, in order. */
  lemma {:induction false} OneWorkerServes(s: State, w: nat, n: nat)
    requires Inv(s) && w < |s.workers| && s.workers[w] == Waiting && n <= |s.queue|
    ensures var es := ServeRun(w, n, s.clock);
            && Runs(s, es) && Log(Completed, s, es) == s.queue[..n]
            && After(s, es).queue == s.queue[n..] && After(s, es).workers == s.workers && After(s, es).clock == s.clock
            && After(s, es).interval == s.interval && Inv(After(s, es))
  {
    hide Inv, Runs, After, Log;
    if n == 0 {
      EmptyRun(s);
      assert s.queue[..0] == [] && s.queue[0..] == s.queue;
    } else {
      var es := ServeRun(w, n - 1, s.clock);
      OneWorkerServes(s, w, n - 1);
      var t := After(s, es);
      assert t.queue[0] == s.queue[n - 1] && t.queue[1..] == s.queue[n..];
      ServeOne(s, es, t, w);
      assert s.queue[..n] == s.queue[..n - 1] + [s.queue[n - 1]];
    }
  }

  /** Pop, record, release: one scrape of the target at the front. */
  lemma ServeOne(s: State, es: seq<Event>, t: State, w: nat)
    requires Runs(s, es) && After(s, es) == t && Inv(t)
    requires w < |t.workers| && t.workers[w] == Waiting && t.queue != []
    ensures var all := es + [Pop(w)] + [Record(w, true)] + [Reset(w, t.clock)];
            && Runs(s, all) && Log(Completed, s, all) == Log(Completed, s, es) + [t.queue[0]]
            && After(s, all).queue == t.queue[1..] && After(s, all).workers == t.workers && After(s, all).clock == t.clock
            && After(s, all).interval == t.interval && Inv(After(s, all))
  {
    hide Inv, Runs, After, Log;
    QueueInRange(t, 0);
    Dimensions(t);
    var t1 := Next(t, Pop(w));
    RunSnoc(s, es, t, Pop(w), es + [Pop(w)]);
    StepKeepsInv(t, Pop(w));
    var t2 := Next(t1, Record(w, true));
    RunSnoc(s, es + [Pop(w)], t1, Record(w, true), es + [Pop(w)] + [Record(w, true)]);
    StepKeepsInv(t1, Record(w, true));
    Dimensions(t2);
    var t3 := Next(t2, Reset(w, t.clock));
    RunSnoc(s, es + [Pop(w)] + [Record(w, true)], t2, Reset(w, t.clock),
            es + [Pop(w)] + [Record(w, true)] + [Reset(w, t.clock)]);
    StepKeepsInv(t2, Reset(w, t.clock));
    assert t3.workers == t.workers;
  }

  lemma Dimensions(s: State)
    requires Inv(s)
    ensures Sized(s)
  {
  }

  /** While only workers of `stuck` are left, nothing is completed without them. */
  lemma {:induction false} NobodyElse(s: State, es: seq<Event>, stuck: set<nat>)
    requires Runs(s, es) && WithoutThem(es, stuck) && s.dispatcher != Off && !SomeOtherAlive(s, stuck)
    ensures Log(Completed, s, es) == [] && After(s, es).dispatcher != Off && !SomeOtherAlive(After(s, es), stuck)
  {
    if es != [] {
      var init := es[..|es| - 1];
      assert forall i :: 0 <= i < |init| ==> init[i] == es[i];
      NobodyElse(s, init, stuck);
      NobodyElseStep(After(s, init), es[|es| - 1], stuck);
    }
  }

  lemma NobodyElseStep(s: State, e: Event, stuck: set<nat>)
    requires Enabled(s, e) && !e.Clear? && !StepOf(e, stuck) && s.dispatcher != Off && !SomeOtherAlive(s, stuck)
    ensures Entry(Completed, s, e) == [] && Next(s, e).dispatcher != Off && !SomeOtherAlive(Next(s, e), stuck)
  {
    hide Due, SomeOtherAlive;
    var t := Next(s, e);
    match e
    case Start(_) =>
    case Clear =>
    case Pop(w) => AliveWorker(s, w, stuck);
    case Exit(w) => AliveWorker(s, w, stuck);
    case Record(w, _) => AliveWorker(s, w, stuck);
    case Reset(w, _) => AliveWorker(s, w, stuck);
    case _ => SameWorkers(s, t, stuck);
  }

  lemma AliveWorker(s: State, w: nat, stuck: set<nat>)
    ensures w < |s.workers| && w !in stuck && s.workers[w] != Exited ==> SomeOtherAlive(s, stuck)
  {
  }

  lemma SameWorkers(s: State, t: State, stuck: set<nat>)
    requires s.workers == t.workers
    ensures SomeOtherAlive(s, stuck) <==> SomeOtherAlive(t, stuck)
  {
  }

  lemma {:induction false} RunsConcat(s: State, a: seq<Event>, b: seq<Event>)
    requires Runs(s, a) && Runs(After(s, a), b)
    ensures Runs(s, a + b) && After(s, a + b) == After(After(s, a), b)
    ensures forall k :: Log(k, s, a + b) == Log(k, s, a) + Log(k, After(s, a), b)
  {
    hide Enabled, Next, Entry;
    if b == [] {
      assert a + b == a;
    } else {
      var n := |b| - 1;
      RunsConcat(s, a, b[..n]);
      var t := After(s, a + b[..n]);
      assert a + b == (a + b[..n]) + [b[n]];
      RunSnoc(s, a + b[..n], t, b[n], a + b);
      assert b == b[..n] + [b[n]];
      RunSnoc(After(s, a), b[..n], t, b[n], b);
    }
  }

  /** A worker that has not ended can finish what it holds. */
  lemma FreeWorker(s: State, w: nat) returns (es: seq<Event>)
    requires Inv(s) && w < |s.workers| && s.workers[w] != Exited
    ensures Runs(s, es) && forall i :: 0 <= i < |es| ==> es[i] in {Record(w, true), Reset(w, s.clock)}
    ensures var t := After(s, es); Inv(t) && w < |t.workers| && t.workers[w] == Waiting && t.queue == s.queue && t.clock == s.clock
  {
    hide Inv, Runs, After, Log;
    EmptyRun(s);
    Dimensions(s);
    match s.workers[w]
    case Waiting => es := [];
    case Recorded(i) =>
      HeldInRange(s, w);
      es := [Reset(w, s.clock)];
      RunSnoc(s, [], s, Reset(w, s.clock), es);
      StepKeepsInv(s, Reset(w, s.clock));
    case Scraping(i) =>
      HeldInRange(s, w);
      var t := Next(s, Record(w, true));
      RunSnoc(s, [], s, Record(w, true), [Record(w, true)]);
      StepKeepsInv(s, Record(w, true));
      Dimensions(t);
      es := [Record(w, true), Reset(w, s.clock)];
      RunSnoc(s, [Record(w, true)], t, Reset(w, s.clock), es);
      StepKeepsInv(t, Reset(w, s.clock));
  }

  lemma OneAliveServes(s: State, w: nat, stuck: set<nat>)
    requires Inv(s) && w < |s.workers| && s.workers[w] != Exited && w !in stuck
    ensures ServedWithout(s, stuck)
  {
    hide Inv, Runs, After, Log;
    var a := FreeWorker(s, w);
    var t := After(s, a);
    var b := ServeRun(w, |t.queue|, t.clock);
    OneWorkerServes(t, w, |t.queue|);
    ServeRunEvents(w, |t.queue|, t.clock);
    RunsConcat(s, a, b);
    assert t.queue[..|t.queue|] == t.queue;
    OnlyStepsOf(a + b, w, s.clock, stuck);
    assert Serves(s, a + b, stuck);
  }

  lemma OnlyStepsOf(es: seq<Event>, w: nat, now: int, stuck: set<nat>)
    requires w !in stuck
    requires forall i :: 0 <= i < |es| ==> es[i] in {Pop(w), Record(w, true), Reset(w, now)}
    ensures WithoutThem(es, stuck)
  {
  }

  /**
   A slow scrape does not block others, stated exactly: whatever is queued can be scraped without a step of the slow
   workers if and only if some other worker has not ended. A pool of one worker does block.
   */
  lemma {:induction false} SlowScrapesBlockIff(s: State, stuck: set<nat>)
    requires Inv(s) && s.queue != []
    ensures ServedWithout(s, stuck) <==> SomeOtherAlive(s, stuck)
  {
    hide Runs, After, Log, FlagsMatch;
    if SomeOtherAlive(s, stuck) {
      var w :| 0 <= w < |s.workers| && w !in stuck && s.workers[w] != Exited;
      OneAliveServes(s, w, stuck);
    } else if ServedWithout(s, stuck) {
      var es :| Serves(s, es, stuck);
      NobodyElse(s, es, stuck);
      FrontIsQueued(s);
    }
  }

  lemma FrontIsQueued(s: State)
    requires s.queue != []
    ensures s.queue[0] in s.queue
  {
  }

  // ---------------------------------------------------------------- conservation of work

  function Bit(b: bool): nat { if b then 1 else 0 }

  predicate InFlight(s: State, i: nat) { i < |s.inFlight| && s.inFlight[i] }

  lemma ConservationStep(s: State, e: Event, i: nat)
    requires Inv(s) && Enabled(s, e)
    ensures multiset(Entry(Pushed, s, e))[i] + Bit(InFlight(s, i))
            == multiset(Entry(Completed, s, e))[i] + Bit(InFlight(Next(s, e), i))
  {
    hide Due, FlagsMatch;
    match e
    case Pass(now) => DueOnce(s.inFlight, s.nextDue, now, Targets(s), i);
    case Reset(w, now) =>
      ResetKeepsFlags(s, w, now);
      assert multiset([s.workers[w].target])[i] == if s.workers[w].target == i then 1 else 0;
    case _ =>
  }

  /** Per target: pushes are completions, give or take the one that is in flight. */
  lemma {:induction false} TargetConservation(s: State, es: seq<Event>, i: nat)
    requires Inv(s) && Runs(s, es)
    ensures multiset(Log(Pushed, s, es))[i] + Bit(InFlight(s, i))
            == multiset(Log(Completed, s, es))[i] + Bit(InFlight(After(s, es), i))
  {
    hide Enabled, Next, Entry, Inv, InFlight, Bit;
    if es != [] {
      var init := es[..|es| - 1];
      var t, e := After(s, init), es[|es| - 1];
      TargetConservation(s, init, i);
      RunKeepsInv(s, init);
      ConservationStep(t, e, i);
      CountAppend(Log(Pushed, s, init), Entry(Pushed, t, e), i);
      CountAppend(Log(Completed, s, init), Entry(Completed, t, e), i);
    }
  }

  /** Workers between their statistics and their release. */
  function Recordeds(ws: seq<Worker>): nat {
    if ws == [] then 0 else Recordeds(ws[..|ws| - 1]) + Bit(ws[|ws| - 1].Recorded?)
  }

  lemma {:induction false} RecordedsUpdate(ws: seq<Worker>, w: nat, x: Worker)
    requires w < |ws|
    ensures Recordeds(ws[w := x]) + Bit(ws[w].Recorded?) == Recordeds(ws) + Bit(x.Recorded?)
  {
    hide Bit;
    var n := |ws| - 1;
    if w == n {
      assert ws[w := x][..n] == ws[..n];
    } else {
      RecordedsUpdate(ws[..n], w, x);
      assert ws[w := x][..n] == ws[..n][w := x];
    }
  }

  lemma {:induction false} NobodyRecorded(ws: seq<Worker>)
    requires forall w :: 0 <= w < |ws| ==> ws[w] == Waiting || ws[w] == Exited
    ensures Recordeds(ws) == 0 && Busy(ws) == 0
  {
    if ws != [] { NobodyRecorded(ws[..|ws| - 1]); }
  }

  lemma {:induction false} BusyUpdate(ws: seq<Worker>, w: nat, x: Worker)
    requires w < |ws|
    ensures Busy(ws[w := x]) + Bit(ws[w].Scraping? || ws[w].Recorded?) == Busy(ws) + Bit(x.Scraping? || x.Recorded?)
  {
    var n := |ws| - 1;
    if w == n {
      assert ws[w := x][..n] == ws[..n];
    } else {
      BusyUpdate(ws[..n], w, x);
      assert ws[w := x][..n] == ws[..n][w := x];
    }
  }

  lemma StatsStep(s: State, e: Event)
    requires Inv(s) && Enabled(s, e)
    ensures var t := Next(s, e);
            t.success + t.failure + Recordeds(s.workers)
            == s.success + s.failure + |Entry(Completed, s, e)| + Recordeds(t.workers)
    ensures var t := Next(s, e);
            |Entry(Pushed, s, e)| + |s.queue| + Busy(s.workers)
            == |Entry(Completed, s, e)| + |Entry(Dropped, s, e)| + |t.queue| + Busy(t.workers)
  {
    hide Due, FlagsMatch, Recordeds, Busy;
    var t := Next(s, e);
    match e
    case Start(n) => NobodyRecorded(t.workers); NobodyRecorded(s.workers);
    case Pop(w) => CountsUpdate(s.workers, w, t.workers[w]);
    case Exit(w) => CountsUpdate(s.workers, w, t.workers[w]);
    case Record(w, _) => CountsUpdate(s.workers, w, t.workers[w]);
    case Reset(w, _) => CountsUpdate(s.workers, w, t.workers[w]);
    case Clear => NobodyRecorded(s.workers); NobodyRecorded(t.workers);
    case _ =>
  }

  lemma CountsUpdate(ws: seq<Worker>, w: nat, x: Worker)
    requires w < |ws|
    ensures Recordeds(ws[w := x]) + Bit(ws[w].Recorded?) == Recordeds(ws) + Bit(x.Recorded?)
    ensures Busy(ws[w := x]) + Bit(ws[w].Scraping? || ws[w].Recorded?) == Busy(ws) + Bit(x.Scraping? || x.Recorded?)
  {
    hide Recordeds, Busy;
    RecordedsUpdate(ws, w, x);
    BusyUpdate(ws, w, x);
  }

  /**
   Whole runs, restarts included: every push is queued, held, completed or dropped; every counted result belongs to
   a completed scrape or to a worker about to release its target.
   */
  lemma {:induction false} WorkConservation(s: State, es: seq<Event>)
    requires Inv(s) && Runs(s, es)
    ensures var t := After(s, es);
            |Log(Pushed, s, es)| + |s.queue| + Busy(s.workers)
            == |Log(Completed, s, es)| + |Log(Dropped, s, es)| + |t.queue| + Busy(t.workers)
    ensures var t := After(s, es);
            t.success + t.failure + Recordeds(s.workers)
            == s.success + s.failure + |Log(Completed, s, es)| + Recordeds(t.workers)
  {
    hide Enabled, Next, Entry, Inv, Busy, Recordeds;
    if es != [] {
      var init := es[..|es| - 1];
      WorkConservation(s, init);
      RunKeepsInv(s, init);
      StatsStep(After(s, init), es[|es| - 1]);
    }
  }

  // ---------------------------------------------------------------- the counters and restarts

  /** How many scrapes of a run were counted as successes, or as failures. */
  function Results(es: seq<Event>, ok: bool): nat {
    if es == [] then 0
    else Results(es[..|es| - 1], ok) + (if es[|es| - 1].Record? && es[|es| - 1].ok == ok then 1 else 0)
  }

  lemma CounterStep(s: State, e: Event)
    requires Enabled(s, e)
    ensures Next(s, e).success == s.success + (if e.Record? && e.ok == true then 1 else 0)
    ensures Next(s, e).failure == s.failure + (if e.Record? && e.ok == false then 1 else 0)
  {
    hide Due, AllExited;
  }

  lemma {:induction false} CountersAdd(s: State, es: seq<Event>)
    requires Runs(s, es)
    ensures After(s, es).success == s.success + Results(es, true)
    ensures After(s, es).failure == s.failure + Results(es, false)
  {
    hide Enabled, Next;
    if es != [] {
      CountersAdd(s, es[..|es| - 1]);
      CounterStep(After(s, es[..|es| - 1]), es[|es| - 1]);
    }
  }

  /**
   The counters are documented as counts since start. For a run from a stopped scheduler each of them is that exactly
   when it was zero at the start, and together they count the finished scrapes exactly when both were.
   */
  lemma {:induction false} CountersSinceStartIff(s: State, es: seq<Event>)
    requires Inv(s) && s.dispatcher == Off && Runs(s, es)
    ensures After(s, es).success == Results(es, true) <==> s.success == 0
    ensures After(s, es).failure == Results(es, false) <==> s.failure == 0
    ensures After(s, es).success + After(s, es).failure == |Log(Completed, s, es)| + Recordeds(After(s, es).workers)
            <==> s.success == 0 && s.failure == 0
  {
    hide Runs, After, Log, Results;
    CountersAdd(s, es);
    WorkConservation(s, es);
    OffIsEmpty(s);
    NobodyRecorded(s.workers);
  }

  /** One scrape by one worker, up to the end of the stop. */
  function FirstLife(now: int, ok: bool): seq<Event> {
    [Start(1), Check, Pass(now), Pop(0), Record(0, ok), Reset(0, now), StopFlag, Check, Exit(0), Clear]
  }

  /** A single target pushed and popped by a single worker, with its result counted. */
  lemma OneScrape(interval: int, now: int, ok: bool)
    ensures var s := Constructed([interval], now);
            Runs(s, FirstLife(now, ok)[..5])
            && After(s, FirstLife(now, ok)[..5])
               == s.(inFlight := [true], running := true, dispatcher := Checking, workers := [Recorded(0)],
                     success := if ok then 1 else 0, failure := if ok then 0 else 1)
  {
    hide After, Runs, Log, Due, Marked, AllExited;
    var s := Constructed([interval], now);
    assert s.inFlight == [false] && s.nextDue == [now];
    EmptyRun(s);
    var s1 := s.(running := true, dispatcher := Checking, workers := [Waiting]);
    assert Next(s, Start(1)) == s1;
    RunSnoc(s, [], s, Start(1), [Start(1)]);
    var s2 := s1.(dispatcher := Passing);
    RunSnoc(s, [Start(1)], s1, Check, [Start(1), Check]);
    var s3 := s1.(inFlight := [true], queue := [0]);
    FirstPass(s2, now);
    RunSnoc(s, [Start(1), Check], s2, Pass(now), [Start(1), Check, Pass(now)]);
    var s4 := s3.(queue := [], workers := [Scraping(0)]);
    assert Next(s3, Pop(0)) == s4;
    RunSnoc(s, [Start(1), Check, Pass(now)], s3, Pop(0), [Start(1), Check, Pass(now), Pop(0)]);
    RunSnoc(s, [Start(1), Check, Pass(now), Pop(0)], s4, Record(0, ok), FirstLife(now, ok)[..5]);
  }

  lemma FirstPass(s: State, now: int)
    requires s.inFlight == [false] && s.nextDue == [now] && |s.interval| == 1 && s.queue == []
    requires s.dispatcher == Passing && s.clock == now && s.workers == [Waiting]
    ensures Enabled(s, Pass(now))
    ensures Next(s, Pass(now)) == s.(inFlight := [true], queue := [0], dispatcher := Checking)
  {
    assert Due([false], [now], now, 0) == [];
    assert s.workers[0] != Exited;
    assert Marked(s.inFlight, s.nextDue, now, 1) == [true];
  }

  /** The counter of the first scrape is still there after the next start, before anything has been scraped. */
  lemma CountersOutliveRestart(interval: int, now: int, ok: bool)
    ensures var s := Constructed([interval], now);
            var t := After(s, FirstLife(now, ok));
            && Runs(s, FirstLife(now, ok)) && t.dispatcher == Off && Enabled(t, Start(1))
            && Next(t, Start(1)).running
            && (if ok then Next(t, Start(1)).success == 1 else Next(t, Start(1)).failure == 1)
  {
    hide After, Runs, Log;
    var s := Constructed([interval], now);
    var es := FirstLife(now, ok);
    OneScrape(interval, now, ok);
    var s5 := After(s, es[..5]);
    var s6 := Next(s5, Reset(0, now));
    RunSnoc(s, es[..5], s5, Reset(0, now), es[..6]);
    assert s6.workers == [Waiting];
    var s7 := s6.(running := false);
    RunSnoc(s, es[..6], s6, StopFlag, es[..7]);
    var s8 := s7.(dispatcher := Finished);
    RunSnoc(s, es[..7], s7, Check, es[..8]);
    var s9 := s8.(workers := [Exited]);
    assert Next(s8, Exit(0)) == s9;
    RunSnoc(s, es[..8], s8, Exit(0), es[..9]);
    RunSnoc(s, es[..9], s9, Clear, es);
  }

  // ---------------------------------------------------------------- spacing

  lemma DueMember(s: State, now: int, i: nat)
    requires Sized(s)
    ensures i in Pushes(s, now) <==> i < Targets(s) && !s.inFlight[i] && now >= s.nextDue[i]
  {
    DueOnce(s.inFlight, s.nextDue, now, Targets(s), i);
    assert i in Pushes(s, now) <==> multiset(Pushes(s, now))[i] > 0;
  }

  /** `i` is not due before `due`, and the clock has reached `since`. */
  ghost predicate NotBefore(s: State, i: nat, since: int) {
    Sized(s) && i < Targets(s) && s.clock >= since && s.nextDue[i] >= NextDue(s.interval[i], since)
  }

  lemma NotBeforeStep(s: State, e: Event, i: nat, since: int)
    requires Enabled(s, e) && NotBefore(s, i, since)
    ensures NotBefore(Next(s, e), i, since) && Next(s, e).interval == s.interval
  {
  }

  lemma ResetNotBefore(s: State, w: nat, now: int)
    requires Enabled(s, Reset(w, now))
    ensures var t := Next(s, Reset(w, now)); NotBefore(t, s.workers[w].target, now) && t.interval == s.interval
  {
  }

  lemma {:induction false} NotBeforeRuns(s: State, es: seq<Event>, a: nat, k: nat)
    requires Runs(s, es) && a < k <= |es| && es[a].Reset? && Enabled(After(s, es[..a]), es[a])
    ensures NotBefore(After(s, es[..k]), After(s, es[..a]).workers[es[a].w].target, es[a].now)
    ensures After(s, es[..k]).interval == After(s, es[..a]).interval
    decreases k
  {
    hide Runs, After, Next, NotBefore;
    RunsPrefix(s, es, k - 1);
    var i := After(s, es[..a]).workers[es[a].w].target;
    if k == a + 1 {
      ResetNotBefore(After(s, es[..a]), es[a].w, es[a].now);
    } else {
      NotBeforeRuns(s, es, a, k - 1);
      NotBeforeStep(After(s, es[..k - 1]), es[k - 1], i, es[a].now);
    }
  }

  /** After a scrape of a target is released, the target is not queued again for at least its interval, or a second. */
  lemma Spacing(s: State, es: seq<Event>, a: nat, b: nat)
    requires Runs(s, es) && a < b < |es|
    requires es[a].Reset? && Enabled(After(s, es[..a]), es[a])
    requires es[b].Pass? && Enabled(After(s, es[..b]), es[b])
    requires After(s, es[..a]).workers[es[a].w].target in Pushes(After(s, es[..b]), es[b].now)
    ensures var i := After(s, es[..a]).workers[es[a].w].target;
            es[b].now >= es[a].now + 1_000_000_000
            && es[b].now >= es[a].now + After(s, es[..a]).interval[i] * 1_000_000_000
  {
    hide Runs, After;
    NotBeforeRuns(s, es, a, b);
    DueMember(After(s, es[..b]), es[b].now, After(s, es[..a]).workers[es[a].w].target);
  }

  /** No pass between the events `a` and `b` of a run pushed `i`. */
  ghost predicate UnpushedBetween(s: State, es: seq<Event>, a: nat, b: nat, i: nat)
    requires b <= |es|
  {
    forall p :: a < p < b && es[p].Pass? && Enabled(After(s, es[..p]), es[p]) ==> i !in Pushes(After(s, es[..p]), es[p].now)
  }

  /** Target `i` rests: it is in no queue and in no worker, and becomes due at `due`. */
  ghost predicate Resting(s: State, i: nat, due: int) {
    Sized(s) && i < Targets(s) && !s.inFlight[i] && s.nextDue[i] == due
  }

  lemma RestingStep(s: State, e: Event, i: nat, due: int)
    requires Inv(s) && Enabled(s, e) && Resting(s, i, due)
    requires e.Pass? ==> i !in Pushes(s, e.now)
    ensures Resting(Next(s, e), i, due) && Next(s, e).interval == s.interval
  {
    hide Due, FlagsMatch;
    match e
    case Pass(now) => DueMember(s, now, i);
    case Reset(w, now) => ResetKeepsFlags(s, w, now);
    case _ =>
  }

  lemma ResetRests(s: State, w: nat, now: int)
    requires Enabled(s, Reset(w, now))
    ensures var i := s.workers[w].target;
            i < Targets(s)
            && Resting(Next(s, Reset(w, now)), i, now + (if s.interval[i] < 1 then 1 else s.interval[i]) * 1_000_000_000)
  {
  }

  lemma {:induction false} RestingRuns(s: State, es: seq<Event>, a: nat, k: nat, i: nat, due: int)
    requires Inv(s) && Runs(s, es) && a < k <= |es| && UnpushedBetween(s, es, a, k, i)
    requires Resting(After(s, es[..a + 1]), i, due)
    ensures Resting(After(s, es[..k]), i, due)
    decreases k
  {
    hide Runs, After, Next, Resting, Inv, Enabled, Pushes;
    if k > a + 1 {
      RestingRuns(s, es, a, k - 1, i, due);
      RunsPrefix(s, es, k - 1);
      RunKeepsInv(s, es[..k - 1]);
      RestingStep(After(s, es[..k - 1]), es[k - 1], i, due);
    }
  }

  /**
   The exact rhythm of a target: as long as no pass has pushed it since its release, a pass pushes it if and only if its
   interval, at least a second, has gone by since the release.
   */
  lemma {:induction false} SpacingIff(s: State, es: seq<Event>, a: nat, b: nat)
    requires Inv(s) && Runs(s, es) && a < b < |es|
    requires es[a].Reset? && Enabled(After(s, es[..a]), es[a])
    requires es[b].Pass? && Enabled(After(s, es[..b]), es[b])
    requires UnpushedBetween(s, es, a, b, After(s, es[..a]).workers[es[a].w].target)
    ensures var i := After(s, es[..a]).workers[es[a].w].target;
            i in Pushes(After(s, es[..b]), es[b].now)
            <==> es[b].now >= es[a].now
                              + (if After(s, es[..a]).interval[i] < 1 then 1 else After(s, es[..a]).interval[i]) * 1_000_000_000
  {
    hide Runs, After, UnpushedBetween, Inv, Pushes, Next;
    var t := After(s, es[..a]);
    var i := t.workers[es[a].w].target;
    RunsPrefix(s, es, a);
    ResetRests(t, es[a].w, es[a].now);
    RestingRuns(s, es, a, b, i, es[a].now + (if t.interval[i] < 1 then 1 else t.interval[i]) * 1_000_000_000);
    DueMember(After(s, es[..b]), es[b].now, i);
  }

  /** Nothing has been pushed yet, and every target became due at the construction. */
  ghost predicate Untouched(s: State, interval: seq<int>, start: int) {
    && s.interval == interval && Sized(s) && s.clock >= start && s.queue == []
    && (forall i :: 0 <= i < |interval| ==> !s.inFlight[i] && s.nextDue[i] == start)
  }

  lemma UntouchedStep(s: State, e: Event, interval: seq<int>, start: int)
    requires Inv(s) && Enabled(s, e) && !e.Pass? && Untouched(s, interval, start)
    ensures Untouched(Next(s, e), interval, start)
  {
    hide Due, FlagsMatch;
    match e
    case Reset(w, now) => ResetKeepsFlags(s, w, now);
    case _ =>
  }

  lemma {:induction false} UntouchedRuns(interval: seq<int>, start: int, es: seq<Event>)
    requires Runs(Constructed(interval, start), es) && forall p :: 0 <= p < |es| ==> !es[p].Pass?
    ensures Untouched(After(Constructed(interval, start), es), interval, start)
  {
    hide Inv, Enabled, Next, Constructed;
    if es == [] {
      ConstructedUntouched(interval, start);
    } else {
      var init := es[..|es| - 1];
      assert forall p :: 0 <= p < |init| ==> init[p] == es[p];
      UntouchedRuns(interval, start, init);
      ReachableStates(interval, start, init);
      UntouchedStep(After(Constructed(interval, start), init), es[|es| - 1], interval, start);
    }
  }

  lemma ConstructedUntouched(interval: seq<int>, start: int)
    ensures Untouched(Constructed(interval, start), interval, start)
  {
  }

  lemma {:induction false} AllDue(inFlight: seq<bool>, nextDue: seq<int>, now: int, n: nat)
    requires n <= |inFlight| && n <= |nextDue| && forall i :: 0 <= i < n ==> !inFlight[i] && nextDue[i] <= now
    ensures Due(inFlight, nextDue, now, n) == seq(n, i => i)
  {
    if n > 0 { AllDue(inFlight, nextDue, now, n - 1); }
  }

  /** The first pass after construction queues every target, in order, however long it takes to come. */
  lemma {:induction false} FirstPassPushesAll(interval: seq<int>, start: int, es: seq<Event>, now: int)
    requires Runs(Constructed(interval, start), es) && forall p :: 0 <= p < |es| ==> !es[p].Pass?
    requires Enabled(After(Constructed(interval, start), es), Pass(now))
    ensures Pushes(After(Constructed(interval, start), es), now) == seq(|interval|, i => i)
    ensures Next(After(Constructed(interval, start), es), Pass(now)).queue == seq(|interval|, i => i)
  {
    hide Runs, After, Due;
    UntouchedRuns(interval, start, es);
    var t := After(Constructed(interval, start), es);
    AllDue(t.inFlight, t.nextDue, now, |interval|);
  }

  // ---------------------------------------------------------------- shutdown

  function Rank(w: Worker): nat {
    match w
    case Scraping(_) => 3
    case Recorded(_) => 2
    case Waiting => 1
    case Exited => 0
  }

  function RankSum(ws: seq<Worker>): nat {
    if ws == [] then 0 else RankSum(ws[..|ws| - 1]) + Rank(ws[|ws| - 1])
  }

  lemma {:induction false} RankUpdate(ws: seq<Worker>, w: nat, x: Worker)
    requires w < |ws|
    ensures RankSum(ws[w := x]) + Rank(ws[w]) == RankSum(ws) + Rank(x)
  {
    hide Rank;
    var n := |ws| - 1;
    if w == n {
      assert ws[w := x][..n] == ws[..n];
    } else {
      RankUpdate(ws[..n], w, x);
      assert ws[w := x][..n] == ws[..n][w := x];
    }
  }

  lemma {:induction false} RankBound(ws: seq<Worker>)
    ensures RankSum(ws) <= 2 * Busy(ws) + |ws|
  {
    if ws != [] { RankBound(ws[..|ws| - 1]); }
  }

  /** What is left to do once the flag is down. */
  function Measure(s: State): nat {
    4 * |s.queue| + RankSum(s.workers)
    + match s.dispatcher
      case Passing => 4 * Targets(s) + 3
      case Checking => 2
      case Finished => 1
      case Off => 0
  }

  lemma {:induction false} DueLength(inFlight: seq<bool>, nextDue: seq<int>, now: int, n: nat)
    requires n <= |inFlight| && n <= |nextDue|
    ensures |Due(inFlight, nextDue, now, n)| <= n
  {
    if n > 0 { DueLength(inFlight, nextDue, now, n - 1); }
  }

  lemma {:induction false} RankExited(ws: seq<Worker>)
    requires AllExited(ws)
    ensures RankSum(ws) == 0
  {
    if ws != [] { RankExited(ws[..|ws| - 1]); }
  }

  /** Every step after the stop request makes progress, and none puts the flag back up. */
  lemma StopStep(s: State, e: Event)
    requires Enabled(s, e) && !s.running && !e.Start?
    ensures Measure(Next(s, e)) < Measure(s) && !Next(s, e).running
    ensures e.Pass? ==> s.dispatcher == Passing
    ensures Next(s, e).dispatcher == Passing ==> s.dispatcher == Passing && !e.Pass?
  {
    hide Due, AllExited;
    var t := Next(s, e);
    match e
    case Pass(now) => DueLength(s.inFlight, s.nextDue, now, Targets(s));
    case Pop(w) => RankUpdate(s.workers, w, t.workers[w]);
    case Exit(w) => RankUpdate(s.workers, w, t.workers[w]);
    case Record(w, _) => RankUpdate(s.workers, w, t.workers[w]);
    case Reset(w, _) => RankUpdate(s.workers, w, t.workers[w]);
    case Check =>
    case Clear =>
  }

  function Passes(es: seq<Event>): nat {
    if es == [] then 0 else Passes(es[..|es| - 1]) + Bit(es[|es| - 1].Pass?)
  }

  lemma {:induction false} ShutdownShrinks(s: State, es: seq<Event>)
    requires Runs(s, es) && NoStart(es) && !s.running
    ensures |es| + Measure(After(s, es)) <= Measure(s) && !After(s, es).running
    ensures Passes(es) + Bit(After(s, es).dispatcher == Passing) <= Bit(s.dispatcher == Passing)
  {
    hide Enabled, Next, Measure;
    if es != [] {
      ShutdownShrinks(s, es[..|es| - 1]);
      StopStep(After(s, es[..|es| - 1]), es[|es| - 1]);
    }
  }

  /** Until the clear, some thread can always take a step. */
  lemma ShutdownProgress(s: State)
    requires Inv(s) && !s.running && s.dispatcher != Off
    ensures exists e :: Enabled(s, e) && !e.Start?
  {
    hide FlagsMatch;
    if s.dispatcher == Checking {
      assert Enabled(s, Check);
    } else if s.dispatcher == Passing {
      assert Enabled(s, Pass(s.clock));
    } else if AllExited(s.workers) {
      assert Enabled(s, Clear);
    } else {
      var w :| 0 <= w < |s.workers| && s.workers[w] != Exited;
      match s.workers[w]
      case Waiting => if s.queue == [] { assert Enabled(s, Exit(w)); } else { assert Enabled(s, Pop(w)); }
      case Scraping(i) => assert Enabled(s, Record(w, true));
      case Recorded(i) =>
        HeldInRange(s, w);
        assert Enabled(s, Reset(w, s.clock));
    }
  }

  lemma HeldInRange(s: State, w: nat)
    requires Inv(s) && w < |s.workers| && (s.workers[w].Scraping? || s.workers[w].Recorded?)
    ensures s.workers[w].target < Targets(s)
  {
    HolderIsAlone(s, w, s.workers[w].target);
  }

  /**
   Once the flag is down: at most one more pass, at most eight steps a target, one a worker and three more in all;
   and a run that cannot go on has cleared the queue, ended every thread and left nothing held.
   */
  lemma ShutdownDrains(s: State, es: seq<Event>)
    requires Inv(s) && !s.running && Runs(s, es) && NoStart(es)
    ensures |es| <= 8 * Targets(s) + |s.workers| + 3 && Passes(es) <= 1
    ensures var t := After(s, es);
            (forall e :: Enabled(t, e) ==> e.Start?) ==> t.dispatcher == Off && t.queue == [] && t.workers == []
  {
    hide Runs, After, Inv, Enabled, Passes;
    ShutdownShrinks(s, es);
    RankBound(s.workers);
    OutstandingBound(s);
    RunKeepsInv(s, es);
    if After(s, es).dispatcher != Off {
      ShutdownProgress(After(s, es));
    } else {
      OffIsEmpty(After(s, es));
    }
  }

  lemma OffIsEmpty(s: State)
    requires Inv(s) && s.dispatcher == Off
    ensures s.queue == [] && s.workers == [] && !s.running
  {
  }

  // ---------------------------------------------------------------- what the final clear drops

  /** Event `p` is a pass that ran after every worker had ended, and it pushed `i`. */
  ghost predicate LatePush(s: State, es: seq<Event>, p: nat, i: nat)
    requires p < |es|
  {
    var t := After(s, es[..p]);
    es[p].Pass? && Enabled(t, es[p]) && AllExited(t.workers) && i in Pushes(t, es[p].now)
  }

  lemma LateStep(s: State, e: Event, i: nat)
    requires Enabled(s, e) && !e.Clear?
    ensures Sized(s)
    ensures i in Next(s, e).late <==> i in s.late || (e.Pass? && AllExited(s.workers) && i in Pushes(s, e.now))
  {
  }

  lemma {:induction false} LateIff(s: State, es: seq<Event>, i: nat)
    requires Runs(s, es) && NoClear(es) && s.late == []
    ensures i in After(s, es).late <==> exists p :: 0 <= p < |es| && LatePush(s, es, p, i)
  {
    hide Enabled, Next, AllExited, Pushes;
    if es != [] {
      var n := |es| - 1;
      var init := es[..n];
      LateIff(s, init, i);
      LateStep(After(s, init), es[n], i);
      assert forall p :: 0 <= p < n ==> init[..p] == es[..p];
      assert forall p :: 0 <= p < n ==> (LatePush(s, init, p, i) <==> LatePush(s, es, p, i));
      assert LatePush(s, es, n, i) <==> es[n].Pass? && AllExited(After(s, init).workers) && i in Pushes(After(s, init), es[n].now);
    }
  }

  /** The final clear drops a target exactly when the last pass ran after every worker had ended and pushed it. */
  lemma {:induction false} DroppedIff(s: State, es: seq<Event>, i: nat)
    requires Inv(s) && s.late == [] && Runs(s, es) && NoClear(es) && Enabled(After(s, es), Clear)
    ensures i in Next(After(s, es), Clear).stranded
            <==> i in After(s, es).stranded || exists p :: 0 <= p < |es| && LatePush(s, es, p, i)
  {
    hide Runs, After, LatePush, FlagsMatch;
    RunKeepsInv(s, es);
    LateIff(s, es, i);
  }

  lemma StrandedStep(s: State, e: Event, i: nat)
    requires Inv(s) && Enabled(s, e) && i in s.stranded
    ensures i in Next(s, e).stranded && i !in Entry(Pushed, s, e) && i !in Entry(Completed, s, e)
  {
    match e
    case Pass(now) => DueMember(s, now, i);
    case Reset(w, now) => ResetKeepsFlags(s, w, now);
    case _ =>
  }

  /** A dropped target stays in flight for good: no later start ever queues it again. */
  lemma {:induction false} StrandedForever(s: State, es: seq<Event>, i: nat)
    requires Inv(s) && Runs(s, es) && i in s.stranded
    ensures i in After(s, es).stranded && i !in Log(Pushed, s, es) && i !in Log(Completed, s, es)
  {
    hide Enabled, Next, Entry, Inv;
    if es != [] {
      var init := es[..|es| - 1];
      StrandedForever(s, init, i);
      RunKeepsInv(s, init);
      StrandedStep(After(s, init), es[|es| - 1], i);
    }
  }

  /** After a restart the first pass queues a due target exactly when no clear has dropped it. */
  lemma RestartServes(s: State, n: nat, now: int, i: nat)
    requires Inv(s) && s.dispatcher == Off && Targets(s) > 0 && n > 0 && now >= s.clock && i < Targets(s)
    ensures Runs(s, [Start(n), Check, Pass(now)])
    ensures i in Log(Pushed, s, [Start(n), Check, Pass(now)]) <==> now >= s.nextDue[i] && i !in s.stranded
  {
    hide FlagsMatch, Due, After, Runs, Log;
    EmptyRun(s);
    var s1 := Next(s, Start(n));
    RunSnoc(s, [], s, Start(n), [Start(n)]);
    var s2 := Next(s1, Check);
    RunSnoc(s, [Start(n)], s1, Check, [Start(n), Check]);
    RunSnoc(s, [Start(n), Check], s2, Pass(now), [Start(n), Check, Pass(now)]);
    DueMember(s2, now, i);
    FlagMeaning(s, i);
  }

  /** One target, one worker: the worker ends between the dispatcher's check and its pass. */
  function LosingRun(now: int): seq<Event> {
    [Start(1), Check, StopFlag, Exit(0), Pass(now), Check, Clear]
  }

  /** The losing interleaving exists, for every interval and time of construction. */
  lemma StrandingHappens(interval: int, now: int)
    ensures Runs(Constructed([interval], now), LosingRun(now))
    ensures After(Constructed([interval], now), LosingRun(now)).stranded == {0}
  {
    hide After, Runs, Log;
    var s := Constructed([interval], now);
    assert s.inFlight == [false] && s.nextDue == [now];
    EmptyRun(s);
    var s1 := s.(running := true, dispatcher := Checking, workers := [Waiting]);
    assert Next(s, Start(1)) == s1;
    RunSnoc(s, [], s, Start(1), [Start(1)]);
    var s2 := s1.(dispatcher := Passing);
    RunSnoc(s, [Start(1)], s1, Check, [Start(1), Check]);
    var s3 := s2.(running := false);
    RunSnoc(s, [Start(1), Check], s2, StopFlag, [Start(1), Check, StopFlag]);
    var s4 := s3.(workers := [Exited]);
    assert Next(s3, Exit(0)) == s4;
    RunSnoc(s, [Start(1), Check, StopFlag], s3, Exit(0), [Start(1), Check, StopFlag, Exit(0)]);
    LastPass(s4, now);
    var s5 := Next(s4, Pass(now));
    RunSnoc(s, [Start(1), Check, StopFlag, Exit(0)], s4, Pass(now), [Start(1), Check, StopFlag, Exit(0), Pass(now)]);
    var s6 := s5.(dispatcher := Finished);
    RunSnoc(s, [Start(1), Check, StopFlag, Exit(0), Pass(now)], s5, Check, LosingRun(now)[..6]);
    RunSnoc(s, LosingRun(now)[..6], s6, Clear, LosingRun(now));
  }

  lemma LastPass(s: State, now: int)
    requires s.inFlight == [false] && s.nextDue == [now] && |s.interval| == 1 && s.queue == []
    requires s.dispatcher == Passing && s.clock == now
    ensures Enabled(s, Pass(now)) && Next(s, Pass(now)).queue == [0]
  {
    assert Due([false], [now], now, 0) == [];
  }
}
