/** How often a candidate is fetched: the configured maximum is a bound exactly as long as no restart interrupts the
    last permitted fetch of a row. */
module CandidateAttempts {
  import opened Wrappers
  import opened Candidates
  import opened CandidateSafety

  // ---- When the maximum holds ----

  /** Some row is in the middle of its last permitted fetch, or of a later one. */
  ghost predicate LastFetchUnderway(lim: Limits, rows: Rows) {
    exists k :: k in rows && rows[k].state == Fetching && rows[k].attempts >= lim.maxAttempts
  }

  /** No restart of the run comes at such a moment. */
  ghost predicate RestartsSpare(lim: Limits, s: System, acts: seq<Action>)
    decreases |acts|
  {
    acts == [] || ((acts[0].DoRestart? ==> !LastFetchUnderway(lim, s.rows))
                   && RestartsSpare(lim, Apply(lim, s, acts[0]), acts[1..]))
  }

  /** Safe without counting the restarts so far: rows are within the configured maximum itself. */
  ghost predicate WithinMaximum(lim: Limits, s: System) {
    Safe(lim, s.(restarts := 0))
  }

  /** The number of restarts is history: no step looks at it. */
  lemma RestartsUnread(lim: Limits, s: System, a: Action)
    ensures Apply(lim, s.(restarts := 0), a).(restarts := 0) == Apply(lim, s, a).(restarts := 0)
  {
    hide Submit, Recover, Work;
    if !a.DoSubmit? && !a.DoRestart? && a.w in s.workers { WorkUnread(lim, s, a); }
  }

  lemma WorkUnread(lim: Limits, s: System, a: Action)
    requires !a.DoSubmit? && !a.DoRestart? && a.w in s.workers
    ensures Work(lim, s.(restarts := 0), a).(restarts := 0) == Work(lim, s, a).(restarts := 0)
  {
    hide Finish, UpsertSeen, MarkFetching, MarkFetchFailed, MarkComplete, NextAttempt, MayFetch;
  }

  lemma SparedRestart(lim: Limits, s: System, now: int)
    requires WithinMaximum(lim, s) && !LastFetchUnderway(lim, s.rows)
    ensures WithinMaximum(lim, Apply(lim, s, DoRestart(now)))
  {
    forall k | k in s.rows ensures SparedRow(lim, s.rows[k]) {
      assert WithinBudget(lim, 0, s.rows[k]);
    }
    var t := Apply(lim, s, DoRestart(now)).(restarts := 0);
    assert forall k :: !Held(t, k);
    hide WithinMaximum, LastFetchUnderway, Held;
    forall k | k in t.rows ensures t.rows[k].state != Fetching && WithinBudget(lim, 0, t.rows[k]) {
      assert SparedRow(lim, s.rows[k]);
    }
  }

  /** A row within the maximum, with an attempt left if it is being fetched. */
  ghost predicate SparedRow(lim: Limits, row: Row) {
    WithinBudget(lim, 0, row) && (row.state == Fetching ==> row.attempts < lim.maxAttempts)
  }

  lemma SparedStep(lim: Limits, s: System, a: Action)
    requires WithinMaximum(lim, s) && (a.DoRestart? ==> !LastFetchUnderway(lim, s.rows))
    ensures WithinMaximum(lim, Apply(lim, s, a))
  {
    hide Safe;
    if a.DoRestart? {
      SparedRestart(lim, s, a.now);
    } else {
      RestartsUnread(lim, s, a);
      ApplySafe(lim, s.(restarts := 0), a);
      RestartsOnlyCount(lim, s.(restarts := 0), a);
    }
  }

  lemma RestartsOnlyCount(lim: Limits, s: System, a: Action)
    requires !a.DoRestart?
    ensures Apply(lim, s, a).restarts == s.restarts
  {
  }

  /** Every run in which no restart interrupts the last permitted fetch of a row keeps the configured maximum, however
      many restarts there are. */
  lemma {:induction false} MaximumHolds(lim: Limits, s: System, acts: seq<Action>)
    requires WithinMaximum(lim, s) && RestartsSpare(lim, s, acts)
    ensures var t := Run(lim, s, acts);
            && WithinMaximum(lim, t)
            && forall k :: k in t.rows ==> t.rows[k].attempts <= lim.maxAttempts
    decreases |acts|
  {
    if acts != [] {
      SparedStep(lim, s, acts[0]);
      MaximumHolds(lim, Apply(lim, s, acts[0]), acts[1..]);
    }
  }

  // ---- When it does not ----

  /** The steps from a submission to the start of the fetch, on worker w. */
  function FetchSteps(w: nat, k: Key, source: string, retry: bool, now: int): seq<Action> {
    [DoSubmit(k, source, None, retry, now, now), DoTake(w), DoUpsert(w, now, now, now), DoDecide(w, now),
     DoMarkFetching(w)]
  }

  lemma RunOne(lim: Limits, s: System, a: Action)
    ensures Run(lim, s, [a]) == Apply(lim, s, a)
  {
    assert [a][1..] == [];
  }

  lemma RunFive(lim: Limits, s: System, a: Action, b: Action, c: Action, d: Action, e: Action)
    ensures Run(lim, s, [a, b, c, d, e])
            == Apply(lim, Apply(lim, Apply(lim, Apply(lim, Apply(lim, s, a), b), c), d), e)
  {
    hide Apply;
    var s1 := Apply(lim, s, a);
    assert [a, b, c, d, e][1..] == [b, c, d, e];
    assert Run(lim, s, [a, b, c, d, e]) == Run(lim, s1, [b, c, d, e]);
    var s2 := Apply(lim, s1, b);
    assert [b, c, d, e][1..] == [c, d, e];
    assert Run(lim, s1, [b, c, d, e]) == Run(lim, s2, [c, d, e]);
    var s3 := Apply(lim, s2, c);
    assert [c, d, e][1..] == [d, e];
    assert Run(lim, s2, [c, d, e]) == Run(lim, s3, [d, e]);
    var s4 := Apply(lim, s3, d);
    assert [d, e][1..] == [e];
    RunOne(lim, s4, e);
  }

  lemma {:induction false} RunConcat(lim: Limits, s: System, a: seq<Action>, b: seq<Action>)
    ensures Run(lim, s, a + b) == Run(lim, Run(lim, s, a), b)
    decreases |a|
  {
    hide Apply;
    if a == [] {
      assert a + b == b;
    } else {
      assert (a + b)[0] == a[0] && (a + b)[1..] == a[1..] + b;
      RunConcat(lim, Apply(lim, s, a[0]), a[1..], b);
    }
  }

  lemma SubmittedAlone(lim: Limits, s: System, k: Key, source: string, retry: bool, now: int)
    requires s.mgr == Manager([], map[], []) && lim.queueSize > 0 && |k| == 20
    ensures var t := Apply(lim, s, DoSubmit(k, source, None, retry, now, now));
            t.mgr.queue == [k] && t.workers == s.workers && t.rows == s.rows && t.restarts == s.restarts
            && t.abandoned == s.abandoned
  {
  }

  /** From an empty manager with worker w idle, one submitted key is fetched: its row gains one attempt. */
  /** The first three steps of a fetch: the key goes through the queue to the worker, which reads its row. */
  lemma SeenAlone(lim: Limits, s: System, w: nat, k: Key, source: string, retry: bool, now: int)
    requires s.mgr == Manager([], map[], []) && w in s.workers && s.workers[w].Idle? && lim.queueSize > 0 && |k| == 20
    ensures var t := Apply(lim, Apply(lim, Apply(lim, s, DoSubmit(k, source, None, retry, now, now)), DoTake(w)),
                           DoUpsert(w, now, now, now));
            && t.rows == UpsertSeen(s.rows, k, now, now) && t.workers == s.workers[w := Seen(k, t.rows[k], now)]
            && t.mgr.queue == [] && t.restarts == s.restarts && t.abandoned == s.abandoned
  {
    SubmittedAlone(lim, s, k, source, retry, now);
    hide Submit, UpsertSeen;
    var s1 := Apply(lim, s, DoSubmit(k, source, None, retry, now, now));
    var s2 := Apply(lim, s1, DoTake(w));
    assert s2.workers == s.workers[w := Got(k)] && s2.mgr.queue == [] && s2.rows == s.rows;
  }

  lemma FetchOnce(lim: Limits, s: System, w: nat, k: Key, source: string, retry: bool, now: int)
    requires s.mgr == Manager([], map[], []) && w in s.workers && s.workers[w].Idle? && lim.queueSize > 0 && |k| == 20
    requires k in s.rows ==> MayFetch(s.rows[k], now)
    ensures var t := Run(lim, s, FetchSteps(w, k, source, retry, now));
            && k in t.rows && t.rows[k].state == Fetching && t.rows[k].nextAttempt == None
            && t.rows[k].attempts == (if k in s.rows then s.rows[k].attempts else 0) + 1
            && t.workers.Keys == s.workers.Keys && t.restarts == s.restarts
  {
    var acts := FetchSteps(w, k, source, retry, now);
    RunFive(lim, s, acts[0], acts[1], acts[2], acts[3], acts[4]);
    SeenAlone(lim, s, w, k, source, retry, now);
    hide Run, Submit;
    var s3 := Apply(lim, Apply(lim, Apply(lim, s, acts[0]), acts[1]), acts[2]);
    var s4 := Apply(lim, s3, acts[3]);
    assert s4.workers == s.workers[w := Cleared(k, now)] && s4.rows == s3.rows;
    var s5 := Apply(lim, s4, acts[4]);
  }

  /** A restart in the middle of any fetch, then a retry of that key. */
  function RestartAndRetry(w: nat, k: Key, now: int): seq<Action> {
    [DoRestart(now)] + FetchSteps(w, k, "durable_retry", true, now)
  }

  lemma RestartThenFetch(lim: Limits, s: System, w: nat, k: Key, now: int)
    requires w in s.workers && lim.queueSize > 0 && |k| == 20
    requires k in s.rows && s.rows[k].state == Fetching && s.rows[k].nextAttempt == None
    ensures var t := Run(lim, s, RestartAndRetry(w, k, now));
            && k in t.rows && t.rows[k].state == Fetching && t.rows[k].nextAttempt == None
            && t.rows[k].attempts == s.rows[k].attempts + 1
            && t.workers.Keys == s.workers.Keys && t.restarts == s.restarts + 1
  {
    var steps := FetchSteps(w, k, "durable_retry", true, now);
    RunConcat(lim, s, [DoRestart(now)], steps);
    RunOne(lim, s, DoRestart(now));
    hide Run, FetchSteps;
    var s1 := Apply(lim, s, DoRestart(now));
    FetchOnce(lim, s1, w, k, "durable_retry", true, now);
  }

  /** For every maximum: a restart that does interrupt the last permitted fetch of a row, or a later one, makes it due
      at once, and the retry goes beyond the maximum. */
  lemma MaximumBroken(lim: Limits, s: System, w: nat, k: Key, now: int)
    requires Safe(lim, s) && w in s.workers && lim.queueSize > 0 && |k| == 20
    requires k in s.rows && s.rows[k].state == Fetching && s.rows[k].attempts >= lim.maxAttempts
    ensures var t := Run(lim, s, RestartAndRetry(w, k, now));
            k in t.rows && t.rows[k].attempts > lim.maxAttempts
  {
    assert WithinBudget(lim, s.restarts, s.rows[k]);
    hide Safe, Run, RestartAndRetry;
    RestartThenFetch(lim, s, w, k, now);
  }

  /** Every key the system knows is a 20-byte infohash. */
  ghost predicate KeysOk(s: System) {
    && (forall k :: k in s.mgr.queue ==> |k| == 20)
    && (forall w :: w in s.workers && !s.workers[w].Idle? ==> |s.workers[w].key| == 20)
    && (forall k :: k in s.rows ==> |k| == 20)
  }

  lemma StepKeepsKeys(lim: Limits, s: System, a: Action)
    requires KeysOk(s)
    ensures KeysOk(Apply(lim, s, a))
  {
    hide Prune, Merge, Touch, Work;
    if !a.DoSubmit? && !a.DoRestart? && a.w in s.workers {
      WorkKeepsKeys(lim, s, a);
      hide KeysOk;
    }
  }

  lemma WorkKeepsKeys(lim: Limits, s: System, a: Action)
    requires KeysOk(s) && !a.DoSubmit? && !a.DoRestart? && a.w in s.workers
    ensures KeysOk(Work(lim, s, a))
  {
    hide Prune, Merge, Touch, NextAttempt, MayFetch, Submit, Recover;
  }

  lemma {:induction false} RunKeepsKeys(lim: Limits, s: System, acts: seq<Action>)
    requires KeysOk(s)
    ensures KeysOk(Run(lim, s, acts))
    decreases |acts|
  {
    if acts != [] {
      StepKeepsKeys(lim, s, acts[0]);
      RunKeepsKeys(lim, Apply(lim, s, acts[0]), acts[1..]);
    }
  }

  lemma FetchStepsSpare(lim: Limits, s: System, w: nat, k: Key, source: string, retry: bool, now: int)
    ensures RestartsSpare(lim, s, FetchSteps(w, k, source, retry, now))
  {
    NoRestartsSpare(lim, s, FetchSteps(w, k, source, retry, now));
  }

  lemma {:induction false} NoRestartsSpare(lim: Limits, s: System, acts: seq<Action>)
    requires forall a :: a in acts ==> !a.DoRestart?
    ensures RestartsSpare(lim, s, acts)
    decreases |acts|
  {
    if acts != [] {
      assert acts[0] in acts;
      NoRestartsSpare(lim, Apply(lim, s, acts[0]), acts[1..]);
    }
  }

  /** The exact condition: while rows are within the maximum, restarting now keeps it in every continuation without a
      further restart at a bad moment if and only if no row is in the middle of its last permitted fetch. */
  lemma MaximumExactly(lim: Limits, s: System, w: nat, now: int)
    requires WithinMaximum(lim, s) && KeysOk(s) && w in s.workers && lim.queueSize > 0
    ensures (forall acts :: RestartsSpare(lim, Apply(lim, s, DoRestart(now)), acts) ==>
               forall k :: k in Run(lim, Apply(lim, s, DoRestart(now)), acts).rows ==>
                 Run(lim, Apply(lim, s, DoRestart(now)), acts).rows[k].attempts <= lim.maxAttempts)
        <==> !LastFetchUnderway(lim, s.rows)
  {
    var s' := Apply(lim, s, DoRestart(now));
    if LastFetchUnderway(lim, s.rows) {
      var k :| k in s.rows && s.rows[k].state == Fetching && s.rows[k].attempts >= lim.maxAttempts;
      var acts := FetchSteps(w, k, "durable_retry", true, now);
      assert s.rows[k].nextAttempt == None by { assert WithinBudget(lim, 0, s.rows[k]); }
      hide WithinMaximum, FetchSteps, Run;
      FetchOnce(lim, s', w, k, "durable_retry", true, now);
      FetchStepsSpare(lim, s', w, k, "durable_retry", true, now);
    } else {
      SparedRestart(lim, s, now);
      forall acts | RestartsSpare(lim, s', acts)
        ensures forall k :: k in Run(lim, s', acts).rows ==> Run(lim, s', acts).rows[k].attempts <= lim.maxAttempts
      {
        MaximumHolds(lim, s', acts);
      }
    }
  }

  /** Nothing else bounds the attempts: n restarts, each in the middle of a fetch. */
  function Interrupted(w: nat, k: Key, now: int, n: nat): seq<Action> {
    if n == 0 then FetchSteps(w, k, "get_peers", false, now)
    else Interrupted(w, k, now, n - 1) + RestartAndRetry(w, k, now)
  }

  /** Whatever the maximum, n restarts can bring a row to n + 1 attempts. */
  lemma {:induction false} RestartGrantsAttempt(lim: Limits, workers: set<nat>, w: nat, k: Key, now: int, n: nat)
    requires lim.queueSize > 0 && |k| == 20 && w in workers
    ensures var t := Run(lim, Init(workers), Interrupted(w, k, now, n));
            && k in t.rows && t.rows[k].state == Fetching && t.rows[k].nextAttempt == None
            && t.rows[k].attempts == n + 1 && t.restarts == n && t.workers.Keys == workers
  {
    var s := Init(workers);
    if n == 0 {
      FetchOnce(lim, s, w, k, "get_peers", false, now);
    } else {
      RestartGrantsAttempt(lim, workers, w, k, now, n - 1);
      var before := Interrupted(w, k, now, n - 1);
      RunConcat(lim, s, before, RestartAndRetry(w, k, now));
      hide Run, RestartAndRetry;
      RestartThenFetch(lim, Run(lim, s, before), w, k, now);
    }
  }
}
