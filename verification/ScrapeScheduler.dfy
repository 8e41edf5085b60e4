/**
 The scheduler object: each method is one critical section of a thread, updates the fields in place, and refines
 one step of the machine. A schedule of such steps refines a run.
 */
module ScrapeScheduling {
  import opened Metrics
  import opened Registry
  import opened PrometheusText
  import opened Scheduler
  import opened SchedulerRuns

  datatype TargetState = TargetState(interval: int, nextDue: int, inFlight: bool)

  /** What a scrape's HTTP request came back with; a failed connection has a status other than 200. */
  datatype Response = Response(status: int, body: string)

  predicate Succeeds(r: Response) { r.status == 200 && ParseText(r.body).Ok? }

  /** `configured`, or when that is zero a count from the hardware and the number of targets. */
  function WorkerCount(configured: nat, hardware: nat, targets: nat): nat {
    var hw := if hardware < 2 then 2 else hardware;
    var cap := if hw < 8 then hw else 8;
    var workers := if configured != 0 then configured else if targets < cap then targets else cap;
    if workers < 1 then 1 else workers
  }

  /**
   The pool: a configured size is taken as it is. Otherwise it is the largest size that does not exceed the number of
   targets, eight, or the hardware's threads (of which at least two are assumed), and never less than one.
   */
  lemma PoolSize(configured: nat, hardware: nat, targets: nat, n: nat)
    ensures configured > 0 ==> WorkerCount(configured, hardware, targets) == configured
    ensures configured == 0 ==>
              (n <= WorkerCount(configured, hardware, targets)
               <==> n <= 1 || (n <= targets && n <= 8 && (n <= hardware || n <= 2)))
  {
  }

  class ScrapeScheduler {
    var targets: seq<TargetState>
    var queue: seq<nat>
    var running: bool
    var success: nat
    var failure: nat
    var dispatcher: Dispatcher
    var workers: seq<Worker>
    ghost var clock: int
    ghost var late: seq<nat>
    ghost var stranded: set<nat>

    ghost function View(): State
      reads this
    {
      State(seq(|targets|, i requires 0 <= i < |targets| reads this => targets[i].interval),
            seq(|targets|, i requires 0 <= i < |targets| reads this => targets[i].inFlight),
            seq(|targets|, i requires 0 <= i < |targets| reads this => targets[i].nextDue),
            queue, running, success, failure, dispatcher, workers, clock, late, stranded)
    }

    constructor (intervals: seq<int>, now: int)
      ensures View() == Constructed(intervals, now)
    {
      targets := seq(|intervals|, i requires 0 <= i < |intervals| => TargetState(intervals[i], now, false));
      queue, running, success, failure := [], false, 0, 0;
      dispatcher, workers := Off, [];
      clock, late, stranded := now, [], {};
    }

    /** A start while a stop is still joining is the caller's error. */
    method Start(configured: nat, hardware: nat) returns (ok: bool)
      requires running || dispatcher == Off
      modifies this
      ensures ok
      ensures var e := Event.Start(WorkerCount(configured, hardware, Targets(old(View()))));
              View() == if !old(running) && Enabled(old(View()), e) then Next(old(View()), e) else old(View())
      ensures !old(running) && targets != [] ==> running && |workers| == WorkerCount(configured, hardware, |targets|)
    {
      if targets == [] {
        return true;
      }
      if running {
        return true;
      }
      StartThreads(WorkerCount(configured, hardware, |targets|));
      return true;
    }

    method DispatcherCheck()
      requires Enabled(View(), Check)
      modifies this
      ensures View() == Next(old(View()), Check)
    {
      dispatcher := if running then Passing else Finished;
    }

    /** One pass over the targets, under the mutex. */
    method DispatcherPass(now: int)
      requires Enabled(View(), Pass(now))
      modifies this
      ensures View() == Next(old(View()), Pass(now))
    {
      hide AllExited, Due;
      ghost var s := View();
      var i := 0;
      DueNone(s, now);
      while i < |targets|
        invariant 0 <= i <= |targets| == Targets(s)
        invariant queue == s.queue + Due(s.inFlight, s.nextDue, now, i)
        invariant forall k :: 0 <= k < |targets| ==>
                    targets[k] == TargetState(s.interval[k], s.nextDue[k], s.inFlight[k] || (k < i && now >= s.nextDue[k]))
        invariant running == s.running && success == s.success && failure == s.failure && dispatcher == s.dispatcher
        invariant workers == s.workers && clock == s.clock && late == s.late && stranded == s.stranded
      {
        DueNext(s, now, i);
        if targets[i].inFlight || now < targets[i].nextDue {
          i := i + 1;
          continue;
        }
        targets := targets[i := targets[i].(inFlight := true)];
        queue := queue + [i];
        i := i + 1;
      }
      dispatcher := Checking;
      clock := now;
      if AllExited(workers) { late := late + Pushes(s, now); }
      assert View().inFlight == Marked(s.inFlight, s.nextDue, now, Targets(s));
      assert View().interval == s.interval && View().nextDue == s.nextDue;
    }

    lemma DueNone(s: State, now: int)
      requires Sized(s)
      ensures s.queue + Due(s.inFlight, s.nextDue, now, 0) == s.queue
    {
    }

    lemma DueNext(s: State, now: int, i: nat)
      requires Sized(s) && i < Targets(s)
      ensures s.queue + Due(s.inFlight, s.nextDue, now, i + 1)
              == s.queue + Due(s.inFlight, s.nextDue, now, i) + (if s.inFlight[i] || now < s.nextDue[i] then [] else [i])
    {
    }

    /** What a worker does once its wait is over: take the front of the queue, or end. */
    method WorkerTake(w: nat)
      requires Sized(View()) && w < |workers| && workers[w] == Waiting && (!running || queue != [])
      modifies this
      ensures var e := if old(queue) == [] then Exit(w) else Pop(w);
              Enabled(old(View()), e) && View() == Next(old(View()), e)
    {
      if !running && queue == [] {
        workers := workers[w := Exited];
        return;
      }
      var index := queue[0];
      queue := queue[1..];
      workers := workers[w := Scraping(index)];
    }

    method RecordResult(w: nat, ok: bool)
      requires Enabled(View(), Record(w, ok))
      modifies this
      ensures View() == Next(old(View()), Record(w, ok))
      ensures success == old(success) + (if ok then 1 else 0) && failure == old(failure) + (if ok then 0 else 1)
    {
      if ok {
        success := success + 1;
      } else {
        failure := failure + 1;
      }
      workers := workers[w := Recorded(workers[w].target)];
    }

    /** Merge the body of a good response. */
    method MergeResponse(response: Response, registry: MetricRegistry) returns (ok: bool)
      requires registry.Valid()
      modifies registry
      ensures registry.Valid() && fresh(registry.Repr - old(registry.Repr)) && ok == Succeeds(response)
      ensures registry.Contents() == if ok then UpsertAll(old(registry.Contents()), ParseText(response.body).value)
                                     else old(registry.Contents())
    {
      hide ParseText, UpsertAll, WellFormed;
      if response.status != 200 {
        return false;
      }
      var merged, error := MergePrometheusText(registry, response.body);
      return error == "";
    }

    /** The scrape proper: merge, then count the result. */
    method WorkerScrape(w: nat, response: Response, registry: MetricRegistry)
      requires Enabled(View(), Record(w, Succeeds(response)))
      requires registry.Valid() && this !in registry.Repr
      modifies this, registry
      ensures registry.Valid() && fresh(registry.Repr - old(registry.Repr))
      ensures View() == Next(old(View()), Record(w, Succeeds(response)))
      ensures registry.Contents() == if Succeeds(response)
                                     then UpsertAll(old(registry.Contents()), ParseText(response.body).value)
                                     else old(registry.Contents())
      ensures response.status != 200 || ParseText(response.body).Err?
              ==> registry.Contents() == old(registry.Contents()) && failure == old(failure) + 1 && success == old(success)
      ensures response.status == 200 && ParseText(response.body).Ok?
              ==> registry.Contents() == UpsertAll(old(registry.Contents()), ParseText(response.body).value)
                  && success == old(success) + 1 && failure == old(failure)
    {
      hide ParseText, UpsertAll, WellFormed, Next;
      var ok := MergeResponse(response, registry);
      RecordResult(w, ok);
    }

    method WorkerRelease(w: nat, now: int)
      requires Enabled(View(), Reset(w, now))
      modifies this
      ensures View() == Next(old(View()), Reset(w, now))
    {
      ghost var s := View();
      var i := workers[w].target;
      targets := targets[i := TargetState(targets[i].interval, NextDue(targets[i].interval, now), false)];
      workers := workers[w := Waiting];
      clock := now;
      assert View().inFlight == s.inFlight[i := false];
      assert View().nextDue == s.nextDue[i := NextDue(s.interval[i], now)];
      assert View().interval == s.interval;
    }

    /** The first half of `stop`; `was` tells whether there was anything to stop. */
    method RequestStop() returns (was: bool)
      modifies this
      ensures was == old(running)
      ensures View() == old(View()).(running := false)
    {
      was := running;
      running := false;
    }

    /** The second half of `stop`, after the threads have been joined. */
    method FinishStop()
      requires Enabled(View(), Clear)
      modifies this
      ensures View() == Next(old(View()), Clear)
    {
      stranded := stranded + (set i | i in queue);
      late := [];
      dispatcher := Off;
      workers := [];
      queue := [];
    }

    /** One event of a schedule. */
    method Perform(e: Event)
      requires Enabled(View(), e)
      modifies this
      ensures View() == Next(old(View()), e)
    {
      match e
      case Start(n) => StartThreads(n);
      case Check => DispatcherCheck();
      case Pass(now) => DispatcherPass(now);
      case Pop(w) => WorkerTake(w);
      case Exit(w) => WorkerTake(w);
      case Record(w, ok) => RecordResult(w, ok);
      case Reset(w, now) => WorkerRelease(w, now);
      case StopFlag => var _ := RequestStop();
      case Clear => FinishStop();
    }

    method StartThreads(n: nat)
      requires Enabled(View(), Event.Start(n))
      modifies this
      ensures View() == Next(old(View()), Event.Start(n))
      ensures targets == old(targets) && running && |workers| == n
    {
      running := true;
      workers := seq(n, i => Waiting);
      dispatcher := Checking;
    }

    /** Any interleaving of the threads' critical sections is a run of the machine. */
    method Interleave(es: seq<Event>)
      requires Runs(View(), es)
      modifies this
      ensures View() == After(old(View()), es)
    {
      hide Next, Enabled;
      ghost var s := View();
      assert es[..0] == [];
      for k := 0 to |es|
        invariant View() == After(s, es[..k])
      {
        RunsPrefix(s, es, k);
        Perform(es[k]);
      }
      assert es[..|es|] == es;
    }
  }
}
