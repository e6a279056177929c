/** Safety of the candidate life cycle over every interleaving, exception and restart. */
module CandidateSafety {
  import opened Wrappers
  import opened XorMetric
  import opened Candidates

  // ---- The invariant ----

  ghost predicate Held(s: System, k: Key) {
    exists w :: w in s.workers && s.workers[w].Holds(k)
  }

  /** No key is queued twice, queued while held, or held twice; the reserved keys are exactly the queued, the
      held and the abandoned ones. */
  ghost predicate Exclusive(s: System) {
    && (forall i, j :: 0 <= i < j < |s.mgr.queue| ==> s.mgr.queue[i] != s.mgr.queue[j])
    && (forall w, v :: w in s.workers && v in s.workers && w != v && !s.workers[w].Idle? ==>
        !s.workers[v].Holds(s.workers[w].key))
    && (forall w :: w in s.workers && !s.workers[w].Idle? ==>
        s.workers[w].key !in s.mgr.queue && s.workers[w].key !in s.abandoned)
    && (forall k :: k in s.abandoned ==> k !in s.mgr.queue)
    && (forall k :: k in s.mgr.states <==> k in s.mgr.queue || k in s.abandoned || Held(s, k))
  }

  /** What a worker's position says about the row of its key. */
  ghost predicate PhaseOk(ph: Phase, rows: Rows) {
    match ph
    case Idle => true
    case Got(k) => k in rows ==> rows[k].state != Fetching
    case Seen(k, row, _) => k in rows && rows[k] == row && row.state != Fetching
    case Cleared(k, _) => k in rows && rows[k].state != Fetching && !rows[k].Settled()
    case Marked(k, ok) => k in rows && ok && rows[k].state == Fetching
    case Busy(k) => k in rows && rows[k].state == Fetching
    case ReadBack(k, latest) => k in rows && rows[k].state == Fetching && latest == Some(rows[k])
    case Settling(k) => k in rows && (rows[k].state == Complete || rows[k].state == FetchFailed)
  }

  /** The attempts a row may have made so far. */
  ghost predicate WithinBudget(lim: Limits, restarts: nat, row: Row) {
    && row.attempts <= lim.maxAttempts + restarts
    && (row.state != Fetching && !row.Settled() ==> row.attempts < lim.maxAttempts + restarts)
    && (row.state == New ==> row.attempts == 0)
    && (row.state == Fetching ==> row.nextAttempt == None)
  }

  ghost predicate RowsOk(lim: Limits, s: System) {
    && (forall k :: k in s.rows ==> WithinBudget(lim, s.restarts, s.rows[k]))
    && (forall k :: k in s.rows && s.rows[k].state == Fetching ==> k in s.abandoned || Held(s, k))
    && (forall w :: w in s.workers ==> PhaseOk(s.workers[w], s.rows))
  }

  ghost predicate Safe(lim: Limits, s: System) {
    lim.maxAttempts > 0 && Exclusive(s) && RowsOk(lim, s)
  }

  lemma InitSafe(lim: Limits, workers: set<nat>)
    requires lim.maxAttempts > 0
    ensures Safe(lim, Init(workers))
  {
  }

  /** The process starts on a database that an earlier process left behind: its rows are within the budget of the starts
      so far, and the fetches it was busy with are recovered. */
  lemma StartSafe(lim: Limits, workers: set<nat>, rows: Rows, starts: nat, now: int)
    requires lim.maxAttempts > 0 && forall k :: k in rows ==> WithinBudget(lim, starts, rows[k])
    ensures Safe(lim, System(Manager([], map[], []), Recover(rows, now), map w | w in workers :: Idle, starts + 1, {}))
  {
  }

  // ---- Every step keeps it ----

  lemma SubmitSafe(lim: Limits, s: System, k: Key, source: string, hint: Option<Hint>, retry: bool, now: int, wall: int)
    requires Safe(lim, s)
    ensures Safe(lim, s.(mgr := Submit(lim, s.mgr, k, source, hint, retry, now, wall).0))
  {
    hide Prune, Merge, WithinBudget;
    var m' := Submit(lim, s.mgr, k, source, hint, retry, now, wall).0;
    var s' := s.(mgr := m');
    assert forall x :: Held(s', x) <==> Held(s, x);
    if k in s.mgr.states || m'.queue == s.mgr.queue {
    } else {
      assert m'.queue == s.mgr.queue + [k];
      assert forall x :: x in m'.queue <==> x in s.mgr.queue || x == k;
    }
  }

  lemma RestartSafe(lim: Limits, s: System, now: int)
    requires Safe(lim, s)
    ensures Safe(lim, Apply(lim, s, DoRestart(now)))
  {
    var s' := Apply(lim, s, DoRestart(now));
    assert forall k :: !Held(s', k);
  }

  /** Moving a worker between two positions on the same key holds the same keys. */
  lemma SameHolder(s: System, w: nat, ph: Phase)
    requires w in s.workers && !s.workers[w].Idle? && ph.Holds(s.workers[w].key)
    ensures forall k :: Held(At(s, w, ph), k) <==> Held(s, k)
  {
    var s' := At(s, w, ph);
    forall k ensures Held(s', k) <==> Held(s, k) {
      if Held(s, k) { var v :| v in s.workers && s.workers[v].Holds(k); assert s'.workers[v].Holds(k); }
      if Held(s', k) { var v :| v in s'.workers && s'.workers[v].Holds(k); assert s.workers[v].Holds(k); }
    }
  }

  /** A worker moves on with its key, writing at most the row of that key. */
  lemma AdvanceSafe(lim: Limits, s: System, w: nat, ph: Phase, rows: Rows)
    requires Safe(lim, s) && w in s.workers && !s.workers[w].Idle? && ph.Holds(s.workers[w].key)
    requires var k := s.workers[w].key;
             && k in rows
             && (forall x :: x != k ==> (x in rows <==> x in s.rows) && (x in rows ==> rows[x] == s.rows[x]))
             && WithinBudget(lim, s.restarts, rows[k]) && PhaseOk(ph, rows)
    ensures Safe(lim, At(s, w, ph).(rows := rows))
  {
    SameHolder(s, w, ph);
    var s' := At(s, w, ph).(rows := rows);
    assert forall x :: Held(s', x) <==> Held(At(s, w, ph), x);
    AdvanceExclusive(s, w, ph, rows);
    AdvanceRows(lim, s, w, ph, rows);
    hide Exclusive, RowsOk;
  }

  lemma AdvanceExclusive(s: System, w: nat, ph: Phase, rows: Rows)
    requires Exclusive(s) && w in s.workers && !s.workers[w].Idle? && ph.Holds(s.workers[w].key)
    requires forall x :: Held(At(s, w, ph).(rows := rows), x) <==> Held(s, x)
    ensures Exclusive(At(s, w, ph).(rows := rows))
  {
    hide Held;
  }

  lemma AdvanceRows(lim: Limits, s: System, w: nat, ph: Phase, rows: Rows)
    requires Exclusive(s) && RowsOk(lim, s) && w in s.workers && !s.workers[w].Idle? && ph.Holds(s.workers[w].key)
    requires var k := s.workers[w].key;
             && k in rows
             && (forall x :: x != k ==> (x in rows <==> x in s.rows) && (x in rows ==> rows[x] == s.rows[x]))
             && WithinBudget(lim, s.restarts, rows[k]) && PhaseOk(ph, rows)
    requires forall x :: Held(At(s, w, ph).(rows := rows), x) <==> Held(s, x)
    ensures RowsOk(lim, At(s, w, ph).(rows := rows))
  {
    hide WithinBudget;
    var k := s.workers[w].key;
    assert s.workers[w].Holds(k);
    assert Held(s, k);
    var s' := At(s, w, ph).(rows := rows);
    forall v | v in s'.workers
      ensures PhaseOk(s'.workers[v], rows)
    {
      if v != w { assert PhaseOk(s.workers[v], s.rows) && (s.workers[v].Idle? || s.workers[v].key != k); }
    }
  }

  /** A worker lets go of its key, which `finish` unreserves; its row must not say that a fetch is going on. */
  lemma ReleaseSafe(lim: Limits, s: System, w: nat, now: int)
    requires Safe(lim, s) && w in s.workers && !s.workers[w].Idle?
    requires s.workers[w].key in s.rows && s.rows[s.workers[w].key].state != Fetching
    ensures Safe(lim, Release(lim, s, w, now))
  {
    hide WithinBudget, Finish, PhaseOk;
    var s' := Release(lim, s, w, now);
    FinishUnreserves(lim, s.mgr, s.workers[w].key, now);
    LetGo(s, w, s');
    ReleaseRows(lim, s, w, s');
    ReleaseExclusive(s, w, s');
  }

  lemma FinishUnreserves(lim: Limits, m: Manager, k: Key, now: int)
    ensures var m' := Finish(lim, m, k, now); m'.queue == m.queue && m'.states.Keys == m.states.Keys - {k}
  {
  }

  lemma ReleaseRows(lim: Limits, s: System, w: nat, s': System)
    requires RowsOk(lim, s) && w in s.workers && !s.workers[w].Idle? && s'.workers == s.workers[w := Idle]
    requires s'.rows == s.rows && s'.restarts == s.restarts && s'.abandoned == s.abandoned
    requires s.workers[w].key in s.rows ==> s.rows[s.workers[w].key].state != Fetching
    requires forall k :: Held(s', k) <==> Held(s, k) && k != s.workers[w].key
    ensures RowsOk(lim, s')
  {
    hide WithinBudget, Held;
    assert PhaseOk(Idle, s'.rows);
  }

  lemma ReleaseExclusive(s: System, w: nat, s': System)
    requires Exclusive(s) && w in s.workers && !s.workers[w].Idle? && s'.workers == s.workers[w := Idle]
    requires s'.mgr.queue == s.mgr.queue && s'.abandoned == s.abandoned
    requires s'.mgr.states.Keys == s.mgr.states.Keys - {s.workers[w].key}
    requires forall k :: Held(s', k) <==> Held(s, k) && k != s.workers[w].key
    ensures Exclusive(s')
  {
    hide Held;
    forall k ensures k in s'.mgr.states <==> k in s'.mgr.queue || k in s'.abandoned || Held(s', k) {
      assert k in s'.mgr.states <==> k in s'.mgr.states.Keys;
      assert k in s.mgr.states <==> k in s.mgr.states.Keys;
    }
  }

  /** After worker w has become idle, the keys held are those of the others. */
  lemma LetGo(s: System, w: nat, s': System)
    requires w in s.workers && !s.workers[w].Idle? && s'.workers == s.workers[w := Idle]
    requires forall v :: v in s.workers && v != w ==> !s.workers[v].Holds(s.workers[w].key)
    ensures forall k :: Held(s', k) <==> Held(s, k) && k != s.workers[w].key
  {
    forall k ensures Held(s', k) <==> Held(s, k) && k != s.workers[w].key {
      if Held(s, k) && k != s.workers[w].key {
        var v :| v in s.workers && s.workers[v].Holds(k);
        assert s'.workers[v].Holds(k);
      }
      if Held(s', k) {
        var v :| v in s'.workers && s'.workers[v].Holds(k);
        assert s.workers[v].Holds(k);
      }
    }
  }

  lemma RaiseSafe(lim: Limits, s: System, w: nat)
    requires Safe(lim, s) && w in s.workers && !s.workers[w].Idle?
    ensures Safe(lim, At(s, w, Idle).(abandoned := s.abandoned + {s.workers[w].key}))
  {
    var s' := At(s, w, Idle).(abandoned := s.abandoned + {s.workers[w].key});
    LetGo(s, w, s');
    assert s.workers[w].Holds(s.workers[w].key);
    assert Held(s, s.workers[w].key);
    RaiseExclusive(s, w, s');
    RaiseRows(lim, s, w, s');
  }

  lemma RaiseExclusive(s: System, w: nat, s': System)
    requires Exclusive(s) && w in s.workers && !s.workers[w].Idle? && Held(s, s.workers[w].key)
    requires s' == At(s, w, Idle).(abandoned := s.abandoned + {s.workers[w].key})
    requires forall k :: Held(s', k) <==> Held(s, k) && k != s.workers[w].key
    ensures Exclusive(s')
  {
    hide Held;
  }

  lemma RaiseRows(lim: Limits, s: System, w: nat, s': System)
    requires RowsOk(lim, s) && w in s.workers && !s.workers[w].Idle?
    requires s' == At(s, w, Idle).(abandoned := s.abandoned + {s.workers[w].key})
    requires forall k :: Held(s', k) <==> Held(s, k) && k != s.workers[w].key
    ensures RowsOk(lim, s')
  {
    hide Held, WithinBudget;
  }

  lemma TakeSafe(lim: Limits, s: System, w: nat)
    requires Safe(lim, s) && w in s.workers && s.workers[w].Idle? && s.mgr.queue != []
    ensures Safe(lim, At(s, w, Got(s.mgr.queue[0])).(mgr := s.mgr.(queue := s.mgr.queue[1..])))
  {
    hide WithinBudget;
    var k := s.mgr.queue[0];
    var s' := At(s, w, Got(k)).(mgr := s.mgr.(queue := s.mgr.queue[1..]));
    assert !Held(s, k);
    TakeHolds(s, w, s');
    assert k !in s.abandoned && (k in s.rows ==> s.rows[k].state != Fetching);
    TakeExclusive(s, w, s');
    TakeRows(lim, s, w, s');
  }

  lemma TakeExclusive(s: System, w: nat, s': System)
    requires Exclusive(s) && w in s.workers && s.workers[w].Idle? && s.mgr.queue != [] && !Held(s, s.mgr.queue[0])
    requires s' == At(s, w, Got(s.mgr.queue[0])).(mgr := s.mgr.(queue := s.mgr.queue[1..]))
    requires forall x :: Held(s', x) <==> Held(s, x) || x == s.mgr.queue[0]
    ensures Exclusive(s')
  {
    assert forall x :: x in s.mgr.queue <==> x == s.mgr.queue[0] || x in s'.mgr.queue;
    assert forall v :: v in s.workers && s.workers[v].Holds(s.mgr.queue[0]) ==> Held(s, s.mgr.queue[0]);
    hide Held;
  }

  lemma TakeRows(lim: Limits, s: System, w: nat, s': System)
    requires RowsOk(lim, s) && w in s.workers && s.mgr.queue != []
    requires s' == At(s, w, Got(s.mgr.queue[0])).(mgr := s.mgr.(queue := s.mgr.queue[1..]))
    requires forall x :: Held(s', x) <==> Held(s, x) || x == s.mgr.queue[0]
    requires s.mgr.queue[0] in s.rows ==> s.rows[s.mgr.queue[0]].state != Fetching
    ensures RowsOk(lim, s')
  {
    hide WithinBudget, Held;
  }

  lemma TakeHolds(s: System, w: nat, s': System)
    requires w in s.workers && s.workers[w].Idle? && s.mgr.queue != []
    requires s'.workers == s.workers[w := Got(s.mgr.queue[0])]
    ensures forall x :: Held(s', x) <==> Held(s, x) || x == s.mgr.queue[0]
  {
    var k := s.mgr.queue[0];
    forall x ensures Held(s', x) <==> Held(s, x) || x == k {
      if Held(s, x) { var v :| v in s.workers && s.workers[v].Holds(x); assert s'.workers[v].Holds(x); }
      if x == k { assert s'.workers[w].Holds(k); }
      if Held(s', x) && x != k { var v :| v in s'.workers && s'.workers[v].Holds(x); assert s.workers[v].Holds(x); }
    }
  }

  /** What is known about a worker and the row of its key. */
  lemma WorkerRow(lim: Limits, s: System, w: nat)
    requires Safe(lim, s) && w in s.workers
    ensures lim.maxAttempts > 0 && PhaseOk(s.workers[w], s.rows)
    ensures !s.workers[w].Idle? && s.workers[w].key in s.rows ==>
            WithinBudget(lim, s.restarts, s.rows[s.workers[w].key])
  {
  }

  /** The steps that let a worker go on with its key. */
  lemma AdvancesSafe(lim: Limits, s: System, a: Action)
    requires Safe(lim, s) && !a.DoSubmit? && !a.DoRestart? && a.w in s.workers
    requires a.DoUpsert? || a.DoDecide? || a.DoMarkFetching? || a.DoResume?
    ensures Safe(lim, Work(lim, s, a))
  {
    hide Safe, Finish, NextAttempt, Submit, Recover, MarkComplete, MarkFetchFailed;
    var w := a.w;
    WorkerRow(lim, s, w);
    match (s.workers[w], a)
    case (Got(k), DoUpsert(_, first, last, now)) =>
      var rows := UpsertSeen(s.rows, k, first, last);
      assert WithinBudget(lim, s.restarts, rows[k]);
      AdvanceSafe(lim, s, w, Seen(k, rows[k], now), rows);
    case (Seen(k, row, t), DoDecide(_, now)) =>
      if MayFetch(row, t) {
        AdvanceSafe(lim, s, w, Cleared(k, t), s.rows);
      } else {
        ReleaseSafe(lim, s, w, now);
      }
    case (Cleared(k, t), DoMarkFetching(_)) =>
      var (rows, ok) := MarkFetching(s.rows, k, t);
      assert WithinBudget(lim, s.restarts, rows[k]);
      AdvanceSafe(lim, s, w, Marked(k, ok), rows);
    case (Marked(k, ok), DoResume(_, now)) => AdvanceSafe(lim, s, w, Busy(k), s.rows);
    case _ =>
  }

  lemma FailureInBudget(lim: Limits, s: System, k: Key, error: string, now: int)
    requires k in s.rows && s.rows[k].state == Fetching && WithinBudget(lim, s.restarts, s.rows[k])
    ensures var rows := MarkFetchFailed(lim, s.rows, k, error, now, NextAttempt(lim, Some(s.rows[k]), now));
            k in rows && WithinBudget(lim, s.restarts, rows[k])
  {
  }

  /** The steps after the fetch. */
  lemma OutcomesSafe(lim: Limits, s: System, a: Action)
    requires Safe(lim, s) && !a.DoSubmit? && !a.DoRestart? && a.w in s.workers
    requires a.DoPersist? || a.DoReadBack? || a.DoMarkFailed? || a.DoFinish?
    ensures Safe(lim, Work(lim, s, a))
  {
    hide Safe, Finish, NextAttempt, Submit, Recover, UpsertSeen, MarkFetching;
    var w := a.w;
    WorkerRow(lim, s, w);
    match (s.workers[w], a)
    case (Busy(k), DoPersist(_)) =>
      var rows := MarkComplete(s.rows, k);
      assert WithinBudget(lim, s.restarts, rows[k]);
      AdvanceSafe(lim, s, w, Settling(k), rows);
    case (Busy(k), DoReadBack(_)) => AdvanceSafe(lim, s, w, ReadBack(k, Some(s.rows[k])), s.rows);
    case (ReadBack(k, latest), DoMarkFailed(_, error, now)) =>
      FailureInBudget(lim, s, k, error, now);
      AdvanceSafe(lim, s, w, Settling(k), MarkFetchFailed(lim, s.rows, k, error, now, NextAttempt(lim, latest, now)));
    case (Settling(k), DoFinish(_, now)) => ReleaseSafe(lim, s, w, now);
    case _ =>
  }

  lemma WorkSafe(lim: Limits, s: System, a: Action)
    requires Safe(lim, s) && !a.DoSubmit? && !a.DoRestart? && a.w in s.workers
    ensures Safe(lim, Work(lim, s, a))
  {
    hide Safe;
    match a
    case DoTake(w) => if s.workers[w].Idle? && s.mgr.queue != [] { TakeSafe(lim, s, w); }
    case DoRaise(w) => if !s.workers[w].Idle? { RaiseSafe(lim, s, w); }
    case DoUpsert(_, _, _, _) => AdvancesSafe(lim, s, a);
    case DoDecide(_, _) => AdvancesSafe(lim, s, a);
    case DoMarkFetching(_) => AdvancesSafe(lim, s, a);
    case DoResume(_, _) => AdvancesSafe(lim, s, a);
    case _ => OutcomesSafe(lim, s, a);
  }

  lemma ApplySafe(lim: Limits, s: System, a: Action)
    requires Safe(lim, s)
    ensures Safe(lim, Apply(lim, s, a))
  {
    match a
    case DoSubmit(k, source, hint, retry, now, wall) => SubmitSafe(lim, s, k, source, hint, retry, now, wall);
    case DoRestart(now) => RestartSafe(lim, s, now);
    case _ => if a.w in s.workers { WorkSafe(lim, s, a); }
  }

  // ---- Whole runs ----

  function Run(lim: Limits, s: System, acts: seq<Action>): System
    decreases |acts|
  {
    if acts == [] then s else Run(lim, Apply(lim, s, acts[0]), acts[1..])
  }

  /** Over every run from an empty database: the candidate bookkeeping is exclusive, reservations are exact, and no
      row has more attempts than the configured maximum plus the number of restarts. */
  lemma {:induction false} EveryRunIsSafe(lim: Limits, s: System, acts: seq<Action>)
    requires Safe(lim, s)
    ensures var t := Run(lim, s, acts);
            && Safe(lim, t)
            && forall k :: k in t.rows ==> t.rows[k].attempts <= lim.maxAttempts + t.restarts
    decreases |acts|
  {
    if acts != [] {
      ApplySafe(lim, s, acts[0]);
      EveryRunIsSafe(lim, Apply(lim, s, acts[0]), acts[1..]);
    }
  }

  /** The row of a key that is complete or exhausted, up to the time it was last seen. */
  ghost predicate StillSettled(before: Row, after: Row) {
    before.Settled() && after == before.(lastSeen := after.lastSeen)
  }

  lemma WorkKeepsSettled(lim: Limits, s: System, a: Action, k: Key)
    requires !a.DoSubmit? && !a.DoRestart? && a.w in s.workers && PhaseOk(s.workers[a.w], s.rows)
    requires k in s.rows && s.rows[k].Settled()
    ensures k in Work(lim, s, a).rows && StillSettled(s.rows[k], Work(lim, s, a).rows[k])
  {
    hide Finish, NextAttempt, Submit, Recover, MayFetch;
    match (s.workers[a.w], a)
    case (Got(_), DoUpsert(_, _, _, _)) => hide MarkFetching, MarkFetchFailed, MarkComplete;
    case (Cleared(_, _), DoMarkFetching(_)) => hide UpsertSeen, MarkFetchFailed, MarkComplete;
    case (Busy(_), DoPersist(_)) => hide UpsertSeen, MarkFetching, MarkFetchFailed;
    case (ReadBack(_, _), DoMarkFailed(_, _, _)) => hide UpsertSeen, MarkFetching, MarkComplete;
    case _ =>
  }

  lemma StepKeepsSettled(lim: Limits, s: System, a: Action, k: Key)
    requires Safe(lim, s) && k in s.rows && s.rows[k].Settled()
    ensures k in Apply(lim, s, a).rows && StillSettled(s.rows[k], Apply(lim, s, a).rows[k])
  {
    if !a.DoSubmit? && !a.DoRestart? && a.w in s.workers {
      assert PhaseOk(s.workers[a.w], s.rows);
      WorkKeepsSettled(lim, s, a, k);
    }
    hide Safe, Submit, Work;
  }

  /** A complete or exhausted candidate is never fetched again, whatever is submitted and however often the process
      is restarted: its row keeps its state, its attempts and its schedule. */
  lemma {:induction false} SettledIsForever(lim: Limits, s: System, acts: seq<Action>, k: Key)
    requires Safe(lim, s) && k in s.rows && s.rows[k].Settled()
    ensures k in Run(lim, s, acts).rows && StillSettled(s.rows[k], Run(lim, s, acts).rows[k])
    decreases |acts|
  {
    if acts != [] {
      StepKeepsSettled(lim, s, acts[0], k);
      ApplySafe(lim, s, acts[0]);
      SettledIsForever(lim, Apply(lim, s, acts[0]), acts[1..], k);
    }
  }

  /** A key whose worker left through an exception stays reserved until the next restart: no submission enqueues it. */
  lemma {:induction false} AbandonedUntilRestart(lim: Limits, s: System, acts: seq<Action>, k: Key)
    requires Safe(lim, s) && k in s.abandoned && forall a :: a in acts ==> !a.DoRestart?
    ensures var t := Run(lim, s, acts); k in t.abandoned && k in t.mgr.states && k !in t.mgr.queue && !Held(t, k)
    decreases |acts|
  {
    if acts == [] {
      assert !Held(s, k);
    } else {
      assert acts[0] in acts;
      ApplySafe(lim, s, acts[0]);
      assert k in Apply(lim, s, acts[0]).abandoned;
      AbandonedUntilRestart(lim, Apply(lim, s, acts[0]), acts[1..], k);
    }
  }

  /** Without exceptions, the reserved keys are exactly the queued and the held ones. */
  lemma ReservationExact(lim: Limits, s: System)
    requires Safe(lim, s)
    ensures (forall k :: k in s.mgr.states <==> k in s.mgr.queue || Held(s, k)) <==> s.abandoned == {}
  {
    if k :| k in s.abandoned {
      assert k in s.mgr.states && !Held(s, k);
    }
  }

  /** A fetch starts only on a key that is reserved, and uses up one attempt of a row that had some left. */
  lemma FetchUsesAttempt(lim: Limits, s: System, w: nat)
    requires Safe(lim, s) && w in s.workers && s.workers[w].Cleared?
    ensures var k := s.workers[w].key;
            var s' := Apply(lim, s, DoMarkFetching(w));
            && k in s.mgr.states && k in s.rows && !s.rows[k].Settled()
            && s.rows[k].attempts < lim.maxAttempts + s.restarts
            && s'.rows[k].state == Fetching && s'.rows[k].attempts == s.rows[k].attempts + 1
            && s'.workers[w] == Marked(k, true)
  {
    assert PhaseOk(s.workers[w], s.rows);
    assert s.workers[w].Holds(s.workers[w].key);
    assert Held(s, s.workers[w].key);
  }

  // ---- Hints and delays ----

  /** No reservation holds a hint twice or more hints than configured. */
  ghost predicate HintsOk(lim: Limits, m: Manager) {
    forall k :: k in m.states ==> HintList(lim, m.states[k].hints)
  }

  ghost predicate HintList(lim: Limits, hints: seq<Hint>) {
    |hints| <= lim.maxHints && forall i, j :: 0 <= i < j < |hints| ==> hints[i] != hints[j]
  }

  lemma SubmitKeepsHints(lim: Limits, m: Manager, k: Key, source: string, hint: Option<Hint>, retry: bool, now: int,
                         wall: int)
    requires lim.maxHints > 0 && HintsOk(lim, m)
    ensures HintsOk(lim, Submit(lim, m, k, source, hint, retry, now, wall).0)
  {
    hide Prune;
    var m' := Submit(lim, m, k, source, hint, retry, now, wall).0;
    forall x | x in m'.states ensures HintList(lim, m'.states[x].hints) {
      assert x != k ==> x in m.states && m'.states[x] == m.states[x];
    }
  }

  /** Over every run the hints of every reservation are distinct and bounded. */
  lemma {:induction false} HintsStayBounded(lim: Limits, s: System, acts: seq<Action>)
    requires lim.maxHints > 0 && HintsOk(lim, s.mgr)
    ensures HintsOk(lim, Run(lim, s, acts).mgr)
    decreases |acts|
  {
    if acts != [] {
      StepKeepsHints(lim, s, acts[0]);
      HintsStayBounded(lim, Apply(lim, s, acts[0]), acts[1..]);
    }
  }

  lemma StepKeepsHints(lim: Limits, s: System, a: Action)
    requires lim.maxHints > 0 && HintsOk(lim, s.mgr)
    ensures HintsOk(lim, Apply(lim, s, a).mgr)
  {
    hide HintList, Submit, Prune, NextAttempt, MayFetch;
    match a
    case DoSubmit(k, source, hint, retry, now, wall) => SubmitKeepsHints(lim, s.mgr, k, source, hint, retry, now, wall);
    case _ =>
  }

  /** The delay after failed attempts starts at the base, never shrinks, at most doubles, and never exceeds the
      maximum; below the maximum and up to 31 attempts it exactly doubles. */
  lemma Backoff(attempt: int, base: int, maximum: int)
    requires 0 < base <= maximum && attempt >= 1
    ensures RetryDelay(1, base, maximum) == base
    ensures RetryDelay(attempt, base, maximum) <= RetryDelay(attempt + 1, base, maximum) <= maximum
    ensures RetryDelay(attempt + 1, base, maximum) <= 2 * RetryDelay(attempt, base, maximum)
    ensures attempt <= 30 && RetryDelay(attempt + 1, base, maximum) < maximum
            ==> RetryDelay(attempt + 1, base, maximum) == 2 * RetryDelay(attempt, base, maximum)
  {
    var e: nat := if attempt - 1 > 30 then 30 else attempt - 1;
    var e': nat := if attempt > 30 then 30 else attempt;
    assert Pow2(0) == 1 && (e' == e + 1 ==> Pow2(e') == 2 * Pow2(e));
    Scaled(base, Pow2(e));
    hide Pow2;
    assert RetryDelay(attempt, base, maximum) == if maximum < base * Pow2(e) then maximum else base * Pow2(e);
    assert RetryDelay(attempt + 1, base, maximum) == if maximum < base * Pow2(e') then maximum else base * Pow2(e');
  }

  lemma Scaled(base: int, x: nat)
    requires base > 0 && x > 0
    ensures base * x > 0 && base * (2 * x) == 2 * (base * x)
  {
  }
}
