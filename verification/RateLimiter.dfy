/**
 The per-client fixed-window rate limiter. Time is the tick count of the steady clock, in nanoseconds.
 */
module RateLimiting {
  const WINDOW: int := 60_000_000_000

  datatype Bucket = Bucket(start: int, count: nat)

  const UNOPENED := Bucket(0, 0)

  datatype State = State(limit: nat, buckets: map<string, Bucket>)

  datatype Call = Call(client: string, at: int)

  function BucketOf(s: State, client: string): Bucket {
    if client in s.buckets then s.buckets[client] else UNOPENED
  }

  /** The bucket a call at `now` is counted in: the current one, or a new one once it has expired. */
  function Opened(b: Bucket, now: int): Bucket {
    if b.start == 0 || now - b.start >= WINDOW then Bucket(now, 0) else b
  }

  predicate Decision(s: State, c: Call) {
    s.limit == 0 || Opened(BucketOf(s, c.client), c.at).count < s.limit
  }

  function Step(s: State, c: Call): State {
    if s.limit == 0 then s
    else
      var b := Opened(BucketOf(s, c.client), c.at);
      s.(buckets := s.buckets[c.client := if b.count < s.limit then Bucket(b.start, b.count + 1) else b])
  }

  class RateLimiter {
    var maxPerMinute: nat
    var buckets: map<string, Bucket>

    ghost function Abs(): State
      reads this
    {
      State(maxPerMinute, buckets)
    }

    constructor (max: nat)
      ensures Abs() == Fresh(max)
    {
      maxPerMinute := max;
      buckets := map[];
    }

    method SetMaxPerMinute(max: nat)
      modifies this
      ensures Abs() == Fresh(max)
    {
      maxPerMinute := max;
      buckets := map[];
    }

    method Allow(client: string, now: int) returns (allowed: bool)
      modifies this
      ensures allowed == Decision(old(Abs()), Call(client, now))
      ensures Abs() == Step(old(Abs()), Call(client, now))
      ensures old(maxPerMinute) == 0 ==> allowed && buckets == old(buckets)
    {
      if maxPerMinute == 0 {
        return true;
      }
      if client !in buckets {
        buckets := buckets[client := UNOPENED];
      }
      var bucket := buckets[client];
      if bucket.start == 0 || now - bucket.start >= WINDOW {
        bucket := Bucket(now, 0);
      }
      buckets := buckets[client := bucket];
      if bucket.count >= maxPerMinute {
        return false;
      }
      buckets := buckets[client := Bucket(bucket.start, bucket.count + 1)];
      return true;
    }
  }

  // ---------------------------------------------------------------- runs

  function Fresh(limit: nat): State { State(limit, map[]) }

  /** The state after a run of calls on a fresh limiter. */
  function After(limit: nat, calls: seq<Call>): State {
    if calls == [] then Fresh(limit) else Step(After(limit, calls[..|calls| - 1]), calls[|calls| - 1])
  }

  /** A positive, nondecreasing clock. */
  ghost predicate Clocked(calls: seq<Call>) {
    && (forall i :: 0 <= i < |calls| ==> calls[i].at > 0)
    && (forall i, j :: 0 <= i < j < |calls| ==> calls[i].at <= calls[j].at)
  }

  predicate Within(c: Call, client: string, from: int, to: int) {
    c.client == client && from <= c.at < to
  }

  /** How many calls of `client` were admitted in the half-open interval `[from, to)`. */
  function Admitted(limit: nat, calls: seq<Call>, client: string, from: int, to: int): nat {
    if calls == [] then 0
    else
      var before := calls[..|calls| - 1];
      var c := calls[|calls| - 1];
      Admitted(limit, before, client, from, to)
      + (if Within(c, client, from, to) && Decision(After(limit, before), c) then 1 else 0)
  }

  // ---------------------------------------------------------------- what a decision means

  /** Start of the client's current window, from call times alone; 0 when it never called. */
  function WindowStart(calls: seq<Call>, client: string): int {
    if calls == [] then 0
    else
      var w := WindowStart(calls[..|calls| - 1], client);
      var c := calls[|calls| - 1];
      if c.client != client then w
      else if w == 0 || c.at - w >= 60_000_000_000 then c.at
      else w
  }

  /** How many times the client called at or after `since`, admitted or not. */
  function CallsSince(calls: seq<Call>, client: string, since: int): nat {
    if calls == [] then 0
    else
      var c := calls[|calls| - 1];
      CallsSince(calls[..|calls| - 1], client, since) + (if c.client == client && c.at >= since then 1 else 0)
  }

  function Min(a: nat, b: nat): nat { if a < b then a else b }

  lemma ClockedPrefix(calls: seq<Call>)
    requires Clocked(calls) && calls != []
    ensures Clocked(calls[..|calls| - 1])
  {
  }

  lemma {:induction false} NoCallsLater(calls: seq<Call>, client: string, since: int)
    requires forall i :: 0 <= i < |calls| && calls[i].client == client ==> calls[i].at < since
    ensures CallsSince(calls, client, since) == 0
  {
    if calls != [] { NoCallsLater(calls[..|calls| - 1], client, since); }
  }

  lemma {:induction false} WindowCovers(calls: seq<Call>, client: string)
    requires Clocked(calls)
    ensures WindowStart(calls, client) >= 0
    ensures forall i :: 0 <= i < |calls| && calls[i].client == client ==>
              0 < WindowStart(calls, client) && calls[i].at < WindowStart(calls, client) + WINDOW
    ensures WindowStart(calls, client) == 0 || exists i :: 0 <= i < |calls| && calls[i].at == WindowStart(calls, client)
  {
    if calls != [] {
      var before := calls[..|calls| - 1];
      ClockedPrefix(calls);
      WindowCovers(before, client);
      assert calls == before + [calls[|calls| - 1]];
      if WindowStart(before, client) != 0 {
        var i :| 0 <= i < |before| && before[i].at == WindowStart(before, client);
        assert calls[i].at == WindowStart(before, client);
      }
    }
  }

  /** The limiter's bookkeeping, read off the client's call times alone. */
  lemma {:induction false} BucketMeaning(limit: nat, calls: seq<Call>, client: string)
    requires limit > 0 && Clocked(calls)
    ensures After(limit, calls).limit == limit
    ensures var w := WindowStart(calls, client);
            BucketOf(After(limit, calls), client)
            == if w == 0 then UNOPENED else Bucket(w, Min(limit, CallsSince(calls, client, w)))
  {
    if calls != [] {
      var before := calls[..|calls| - 1];
      var c := calls[|calls| - 1];
      ClockedPrefix(calls);
      BucketMeaning(limit, before, client);
      WindowCovers(before, client);
      if c.client == client && WindowStart(calls, client) != WindowStart(before, client) {
        NoCallsLater(before, client, c.at);
      }
    }
  }

  /**
   A call is admitted exactly when fewer than `limit` calls of the same client precede it in its window:
   denied means the window is already full.
   */
  lemma AdmittedIff(limit: nat, calls: seq<Call>, c: Call)
    requires limit > 0 && Clocked(calls + [c])
    ensures Decision(After(limit, calls), c)
            <==> CallsSince(calls, c.client, WindowStart(calls + [c], c.client)) < limit
  {
    var all := calls + [c];
    ClockedPrefix(all);
    assert all[..|all| - 1] == calls;
    BucketMeaning(limit, calls, c.client);
    WindowCovers(calls, c.client);
    var w := WindowStart(calls, c.client);
    if w == 0 || c.at - w >= WINDOW {
      assert forall i :: 0 <= i < |calls| ==> all[i] == calls[i];
      NoCallsLater(calls, c.client, c.at);
    }
  }

  // ---------------------------------------------------------------- the limit 0

  /** How many calls of `client` there were in `[from, to)`. */
  function CallsIn(calls: seq<Call>, client: string, from: int, to: int): nat {
    if calls == [] then 0
    else
      CallsIn(calls[..|calls| - 1], client, from, to) + (if Within(calls[|calls| - 1], client, from, to) then 1 else 0)
  }

  /** A limit of 0 switches the limiter off: every call of every run is admitted, whatever the clock does. */
  lemma {:induction false} DisabledAdmitsAll(calls: seq<Call>, c: Call, client: string, from: int, to: int)
    ensures Decision(After(0, calls), c)
    ensures Admitted(0, calls, client, from, to) == CallsIn(calls, client, from, to)
    ensures After(0, calls) == State(0, map[])
  {
    if calls != [] { DisabledAdmitsAll(calls[..|calls| - 1], calls[|calls| - 1], client, from, to); }
  }

  // ---------------------------------------------------------------- isolation

  /** The calls of one client. */
  function Project(calls: seq<Call>, client: string): seq<Call> {
    if calls == [] then []
    else
      var rest := Project(calls[..|calls| - 1], client);
      if calls[|calls| - 1].client == client then rest + [calls[|calls| - 1]] else rest
  }

  /** Deleting every other client's calls does not change a client's bucket, so it changes no decision. */
  lemma {:induction false} Isolation(limit: nat, calls: seq<Call>, c: Call)
    ensures After(limit, calls).limit == After(limit, Project(calls, c.client)).limit
    ensures BucketOf(After(limit, calls), c.client) == BucketOf(After(limit, Project(calls, c.client)), c.client)
    ensures Decision(After(limit, calls), c) == Decision(After(limit, Project(calls, c.client)), c)
  {
    if calls != [] {
      var before := calls[..|calls| - 1];
      Isolation(limit, before, c);
      var p := Project(calls, c.client);
      if calls[|calls| - 1].client == c.client {
        assert p[..|p| - 1] == Project(before, c.client);
      }
    }
  }

  // ---------------------------------------------------------------- the sliding bound

  /** Bound on what was admitted in `[from, from + WINDOW)` given where the current window started. */
  function Allowance(limit: nat, b: Bucket, from: int): int {
    if b == UNOPENED then 0
    else if b.start < from then b.count - 1
    else if b.start < from + WINDOW then limit - 1 + b.count
    else 2 * limit - 1
  }

  lemma {:induction false} AdmittedAllowance(limit: nat, calls: seq<Call>, client: string, from: int)
    requires limit > 0 && Clocked(calls)
    ensures var b := BucketOf(After(limit, calls), client);
            && After(limit, calls).limit == limit
            && (b == UNOPENED || (b.start > 0 && 1 <= b.count <= limit))
            && (b != UNOPENED ==> exists i :: 0 <= i < |calls| && calls[i].at == b.start)
            && (calls == [] || calls[|calls| - 1].at < from ==> Admitted(limit, calls, client, from, from + WINDOW) == 0)
            && Admitted(limit, calls, client, from, from + WINDOW) <= Allowance(limit, b, from)
  {
    if calls != [] {
      var before := calls[..|calls| - 1];
      var c := calls[|calls| - 1];
      ClockedPrefix(calls);
      AdmittedAllowance(limit, before, client, from);
      var b := BucketOf(After(limit, before), client);
      if b != UNOPENED {
        var i :| 0 <= i < |before| && before[i].at == b.start;
        assert calls[i].at == b.start && b.start <= c.at;
      }
      assert calls[|calls| - 1].at == c.at;
    }
  }

  /** No 60-second interval, wherever it starts, sees more than `2 * limit - 1` admitted calls of one client. */
  lemma SlidingBound(limit: nat, calls: seq<Call>, client: string, from: int)
    requires limit > 0 && Clocked(calls)
    ensures Admitted(limit, calls, client, from, from + 60_000_000_000) <= 2 * limit - 1
  {
    AdmittedAllowance(limit, calls, client, from);
  }

  function Repeat(c: Call, n: nat): seq<Call> {
    if n == 0 then [] else Repeat(c, n - 1) + [c]
  }

  /** One more call at an instant when the client's window has room. */
  lemma BurstStep(limit: nat, calls: seq<Call>, c: Call, b: Bucket, from: int, all: seq<Call>)
    requires limit > 0 && After(limit, calls).limit == limit
    requires Opened(BucketOf(After(limit, calls), c.client), c.at) == b
    requires b.start > 0 && c.at - b.start < WINDOW && b.count < limit
    requires from <= c.at < from + WINDOW
    requires all == calls + [c]
    ensures After(limit, all).limit == limit
    ensures Opened(BucketOf(After(limit, all), c.client), c.at) == Bucket(b.start, b.count + 1)
    ensures Admitted(limit, all, c.client, from, from + WINDOW)
            == Admitted(limit, calls, c.client, from, from + WINDOW) + 1
  {
    assert all[..|calls|] == calls;
  }

  /** Repeated calls at one instant are all admitted while the window has room. */
  lemma {:induction false} Burst(limit: nat, calls: seq<Call>, c: Call, n: nat, b: Bucket, from: int)
    requires limit > 0 && After(limit, calls).limit == limit
    requires Opened(BucketOf(After(limit, calls), c.client), c.at) == b
    requires b.start > 0 && c.at - b.start < WINDOW && b.count + n <= limit
    requires from <= c.at < from + WINDOW
    ensures After(limit, calls + Repeat(c, n)).limit == limit
    ensures Opened(BucketOf(After(limit, calls + Repeat(c, n)), c.client), c.at) == Bucket(b.start, b.count + n)
    ensures Admitted(limit, calls + Repeat(c, n), c.client, from, from + WINDOW)
            == Admitted(limit, calls, c.client, from, from + WINDOW) + n
  {
    if n == 0 {
      assert calls + Repeat(c, 0) == calls;
    } else {
      Burst(limit, calls, c, n - 1, b, from);
      assert calls + Repeat(c, n) == (calls + Repeat(c, n - 1)) + [c];
      BurstStep(limit, calls + Repeat(c, n - 1), c, Bucket(b.start, b.count + n - 1), from, calls + Repeat(c, n));
    }
  }

  /** A window opened at time 1 and filled at its very end. */
  function FilledWindow(limit: nat, client: string): seq<Call>
    requires limit > 0
  {
    [Call(client, 1)] + Repeat(Call(client, WINDOW), limit - 1)
  }

  /** The run that reaches the bound: fill a window at its very end and the next one at once. */
  function WorstCase(limit: nat, client: string): seq<Call>
    requires limit > 0
  {
    FilledWindow(limit, client) + Repeat(Call(client, WINDOW + 1), limit)
  }

  lemma OneCall(limit: nat, client: string)
    requires limit > 0
    ensures After(limit, [Call(client, 1)]) == State(limit, map[client := Bucket(1, 1)])
    ensures Admitted(limit, [Call(client, 1)], client, WINDOW, WINDOW + WINDOW) == 0
  {
    assert [Call(client, 1)][..0] == [];
    assert After(limit, [Call(client, 1)]) == Step(Fresh(limit), Call(client, 1));
  }

  lemma FilledWindowState(limit: nat, client: string)
    requires limit > 0
    ensures After(limit, FilledWindow(limit, client)).limit == limit
    ensures BucketOf(After(limit, FilledWindow(limit, client)), client) == Bucket(1, limit)
    ensures Admitted(limit, FilledWindow(limit, client), client, WINDOW, WINDOW + WINDOW) == limit - 1
  {
    OneCall(limit, client);
    Burst(limit, [Call(client, 1)], Call(client, WINDOW), limit - 1, Bucket(1, 1), WINDOW);
  }

  lemma WorstCaseClocked(limit: nat, client: string)
    requires limit > 0
    ensures Clocked(WorstCase(limit, client))
  {
    RepeatAll(Call(client, WINDOW), limit - 1);
    RepeatAll(Call(client, WINDOW + 1), limit);
  }

  /** The bound is tight for every limit. */
  lemma SlidingBoundTight(limit: nat, client: string)
    requires limit > 0
    ensures Clocked(WorstCase(limit, client))
    ensures Admitted(limit, WorstCase(limit, client), client, 60_000_000_000, 120_000_000_000) == 2 * limit - 1
  {
    WorstCaseClocked(limit, client);
    FilledWindowState(limit, client);
    Burst(limit, FilledWindow(limit, client), Call(client, WINDOW + 1), limit, Bucket(WINDOW + 1, 0), WINDOW);
  }

  /** No minute of any run admits more than `limit` calls of one client. */
  ghost predicate KeepsItsLimit(limit: nat) {
    forall calls, client, from :: Clocked(calls) ==> AdmittedInMinute(limit, calls, client, from) <= limit
  }

  function AdmittedInMinute(limit: nat, calls: seq<Call>, client: string, from: int): nat {
    Admitted(limit, calls, client, from, from + 60_000_000_000)
  }

  /** A single call of a limiter that is switched off. */
  lemma DisabledExceeds()
    ensures AdmittedInMinute(0, [Call("", 1)], "", 1) == 1
  {
    var calls := [Call("", 1)];
    DisabledAdmitsAll(calls, calls[0], "", 1, 60_000_000_001);
    assert calls[..0] == [];
  }

  /** The fixed window enforces its limit over every minute exactly when that limit is one. */
  lemma LimitKeptIff(limit: nat)
    ensures KeepsItsLimit(limit) <==> limit == 1
  {
    hide Admitted;
    if limit == 0 {
      DisabledExceeds();
      assert Clocked([Call("", 1)]);
    } else if limit == 1 {
      forall calls, client, from | Clocked(calls) ensures AdmittedInMinute(limit, calls, client, from) <= limit {
        SlidingBound(limit, calls, client, from);
      }
    } else {
      SlidingBoundTight(limit, "");
      assert AdmittedInMinute(limit, WorstCase(limit, ""), "", WINDOW) == 2 * limit - 1;
    }
  }

  lemma {:induction false} RepeatAll(c: Call, n: nat)
    ensures |Repeat(c, n)| == n && forall i :: 0 <= i < n ==> Repeat(c, n)[i] == c
  {
    if n > 0 { RepeatAll(c, n - 1); }
  }
}
