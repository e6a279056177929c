/** Whether work on a stored candidate can get lost: a row that is not settled is in some worker's hands, waits for the
    next start after an exception, or is scheduled; the one gap is a row that a restart finds new. */
module CandidateProgress {
  import opened Wrappers
  import opened Candidates
  import opened CandidateSafety
  import opened CandidateAttempts

  /** The rows that the retry scan selects, sooner or later. */
  predicate Scheduled(row: Row) {
    row.state == FetchFailed && row.nextAttempt.Some?
  }

  /** What the retry scan at this time selects. */
  predicate Due(row: Row, now: int) {
    Scheduled(row) && row.nextAttempt.value <= now
  }

  ghost predicate InHand(s: System, k: Key) {
    Held(s, k) || k in s.abandoned
  }

  /** Nobody has this row, and no scan will ever select it as it is. */
  ghost predicate Lost(s: System, k: Key) {
    k in s.rows && !s.rows[k].Settled() && !InHand(s, k) && !Scheduled(s.rows[k])
  }

  /** Only a new row can be lost. */
  lemma LostIsNew(lim: Limits, s: System, k: Key)
    requires Safe(lim, s) && k in s.rows
    ensures Lost(s, k) <==> s.rows[k].state == New && !InHand(s, k)
  {
    hide Exclusive;
  }

  ghost predicate NothingLost(s: System) {
    forall k :: k in s.rows ==> !Lost(s, k)
  }

  ghost predicate NewRow(s: System) {
    exists k :: k in s.rows && s.rows[k].state == New
  }

  /** Moving a worker between two positions on the same key keeps the same keys in hand. */
  lemma AdvanceLosesNothing(lim: Limits, s: System, w: nat, ph: Phase, rows: Rows)
    requires Safe(lim, s) && NothingLost(s) && w in s.workers && !s.workers[w].Idle? && ph.Holds(s.workers[w].key)
    requires forall x :: x != s.workers[w].key ==> (x in rows <==> x in s.rows) && (x in rows ==> rows[x] == s.rows[x])
    ensures NothingLost(At(s, w, ph).(rows := rows))
  {
    SameHolder(s, w, ph);
    hide Safe;
    var s' := At(s, w, ph).(rows := rows);
    assert forall x :: Held(s', x) <==> Held(At(s, w, ph), x);
    assert s.workers[w].Holds(s.workers[w].key);
    forall k | k in s'.rows ensures !Lost(s', k) {
      if k != s.workers[w].key { assert !Lost(s, k); }
    }
  }

  /** A worker lets go of its key only when the row is settled or scheduled. */
  lemma ReleaseLosesNothing(lim: Limits, s: System, w: nat, s': System)
    requires Safe(lim, s) && NothingLost(s) && w in s.workers && !s.workers[w].Idle?
    requires s'.workers == s.workers[w := Idle] && s'.rows == s.rows && s'.abandoned == s.abandoned
    requires s.workers[w].key in s.rows && (s.rows[s.workers[w].key].Settled() || Scheduled(s.rows[s.workers[w].key]))
    ensures NothingLost(s')
  {
    LetGo(s, w, s');
    hide Safe;
    forall k | k in s'.rows ensures !Lost(s', k) {
      assert !Lost(s, k);
    }
  }

  lemma RaiseLosesNothing(lim: Limits, s: System, w: nat)
    requires Safe(lim, s) && NothingLost(s) && w in s.workers && !s.workers[w].Idle?
    ensures NothingLost(At(s, w, Idle).(abandoned := s.abandoned + {s.workers[w].key}))
  {
    var s' := At(s, w, Idle).(abandoned := s.abandoned + {s.workers[w].key});
    LetGo(s, w, s');
    hide Safe;
    forall k | k in s'.rows ensures !Lost(s', k) {
      assert !Lost(s, k);
    }
  }

  lemma TakeLosesNothing(s: System, w: nat)
    requires NothingLost(s) && w in s.workers && s.workers[w].Idle? && s.mgr.queue != []
    ensures NothingLost(At(s, w, Got(s.mgr.queue[0])).(mgr := s.mgr.(queue := s.mgr.queue[1..])))
  {
    var s' := At(s, w, Got(s.mgr.queue[0])).(mgr := s.mgr.(queue := s.mgr.queue[1..]));
    forall k | k in s'.rows ensures !Lost(s', k) {
      assert !Lost(s, k);
      if Held(s, k) {
        var v :| v in s.workers && s.workers[v].Holds(k);
        assert s'.workers[v].Holds(k);
      }
    }
  }

  /** The steps that let a worker go on with its key. */
  lemma AdvancesLoseNothing(lim: Limits, s: System, a: Action)
    requires Safe(lim, s) && NothingLost(s) && !a.DoSubmit? && !a.DoRestart? && a.w in s.workers
    requires a.DoUpsert? || a.DoDecide? || a.DoMarkFetching? || a.DoResume?
    ensures NothingLost(Work(lim, s, a))
  {
    hide Safe, NothingLost, Finish, NextAttempt, Submit, Recover, MarkComplete, MarkFetchFailed;
    var w, ph := a.w, s.workers[a.w];
    WorkerRow(lim, s, w);
    match (ph, a)
    case (Got(k), DoUpsert(_, first, last, now)) =>
      var rows := UpsertSeen(s.rows, k, first, last);
      AdvanceLosesNothing(lim, s, w, Seen(k, rows[k], now), rows);
    case (Seen(k, row, t), DoDecide(_, now)) =>
      if MayFetch(row, t) { AdvanceLosesNothing(lim, s, w, Cleared(k, t), s.rows); }
      else { ReleaseLosesNothing(lim, s, w, Release(lim, s, w, now)); }
    case (Cleared(k, t), DoMarkFetching(_)) =>
      AdvanceLosesNothing(lim, s, w, Marked(k, MarkFetching(s.rows, k, t).1), MarkFetching(s.rows, k, t).0);
    case (Marked(k, ok), DoResume(_, now)) => AdvanceLosesNothing(lim, s, w, Busy(k), s.rows);
    case _ =>
  }

  /** The steps after the fetch. */
  lemma OutcomesLoseNothing(lim: Limits, s: System, a: Action)
    requires Safe(lim, s) && NothingLost(s) && !a.DoSubmit? && !a.DoRestart? && a.w in s.workers
    requires a.DoPersist? || a.DoReadBack? || a.DoMarkFailed? || a.DoFinish?
    ensures NothingLost(Work(lim, s, a))
  {
    hide Safe, NothingLost, Finish, NextAttempt, Submit, Recover, UpsertSeen, MarkFetching;
    var w, ph := a.w, s.workers[a.w];
    WorkerRow(lim, s, w);
    match (ph, a)
    case (Busy(k), DoPersist(_)) => AdvanceLosesNothing(lim, s, w, Settling(k), MarkComplete(s.rows, k));
    case (Busy(k), DoReadBack(_)) =>
      AdvanceLosesNothing(lim, s, w, ReadBack(k, if k in s.rows then Some(s.rows[k]) else None), s.rows);
    case (ReadBack(k, latest), DoMarkFailed(_, error, now)) =>
      var next := NextAttempt(lim, latest, now);
      AdvanceLosesNothing(lim, s, w, Settling(k), MarkFetchFailed(lim, s.rows, k, error, now, next));
    case (Settling(k), DoFinish(_, now)) => ReleaseLosesNothing(lim, s, w, Release(lim, s, w, now));
    case _ =>
  }

  /** Every step of a worker. */
  lemma WorkLosesNothing(lim: Limits, s: System, a: Action)
    requires Safe(lim, s) && NothingLost(s) && !a.DoSubmit? && !a.DoRestart? && a.w in s.workers
    ensures NothingLost(Work(lim, s, a))
  {
    hide Safe, NothingLost;
    match a
    case DoTake(w) => if s.workers[w].Idle? && s.mgr.queue != [] { TakeLosesNothing(s, w); }
    case DoRaise(w) => if !s.workers[w].Idle? { RaiseLosesNothing(lim, s, w); }
    case DoUpsert(_, _, _, _) => AdvancesLoseNothing(lim, s, a);
    case DoDecide(_, _) => AdvancesLoseNothing(lim, s, a);
    case DoMarkFetching(_) => AdvancesLoseNothing(lim, s, a);
    case DoResume(_, _) => AdvancesLoseNothing(lim, s, a);
    case _ => OutcomesLoseNothing(lim, s, a);
  }

  lemma RestartLoses(lim: Limits, s: System, now: int)
    requires Safe(lim, s)
    ensures var s' := Apply(lim, s, DoRestart(now));
            forall k :: k in s'.rows ==> (Lost(s', k) <==> s.rows[k].state == New)
  {
    var s' := Apply(lim, s, DoRestart(now));
    hide Exclusive;
    assert forall k :: !Held(s', k);
  }

  /** The exact condition: a step loses something if and only if it is a restart that finds a new row. */
  lemma LosesExactly(lim: Limits, s: System, a: Action)
    requires Safe(lim, s) && NothingLost(s)
    ensures !NothingLost(Apply(lim, s, a)) <==> a.DoRestart? && NewRow(s)
  {
    match a
    case DoSubmit(k, source, hint, retry, now, wall) =>
      var s' := Apply(lim, s, a);
      assert forall x :: Held(s', x) <==> Held(s, x);
      forall k | k in s'.rows ensures !Lost(s', k) { assert !Lost(s, k); }
    case DoRestart(now) =>
      RestartLoses(lim, s, now);
      hide Safe, Lost;
      var s' := Apply(lim, s, a);
      assert s'.rows.Keys == s.rows.Keys;
      if NewRow(s) {
        var k :| k in s.rows && s.rows[k].state == New;
        assert k in s'.rows && Lost(s', k);
      }
    case _ =>
      if a.w in s.workers { WorkLosesNothing(lim, s, a); }
  }

  /** No restart of the run finds a new row. */
  ghost predicate RestartsFindNoneNew(lim: Limits, s: System, acts: seq<Action>)
    decreases |acts|
  {
    acts == [] || ((acts[0].DoRestart? ==> !NewRow(s)) && RestartsFindNoneNew(lim, Apply(lim, s, acts[0]), acts[1..]))
  }

  /** Over every such run, each stored row is settled, in hand or scheduled. */
  lemma {:induction false} EveryRunLosesNothing(lim: Limits, s: System, acts: seq<Action>)
    requires Safe(lim, s) && NothingLost(s) && RestartsFindNoneNew(lim, s, acts)
    ensures var t := Run(lim, s, acts);
            forall k :: k in t.rows ==> t.rows[k].Settled() || InHand(t, k) || Scheduled(t.rows[k])
    decreases |acts|
  {
    hide Safe;
    if acts != [] {
      LosesExactly(lim, s, acts[0]);
      ApplySafe(lim, s, acts[0]);
      EveryRunLosesNothing(lim, Apply(lim, s, acts[0]), acts[1..]);
      hide Apply, InHand, Scheduled;
      assert Run(lim, s, acts) == Run(lim, Apply(lim, s, acts[0]), acts[1..]);
    } else {
      assert forall k :: k in s.rows ==> !Lost(s, k);
    }
  }

  /** The gap: a restart between the first upsert of a key and its fetch leaves a new row that nobody has and that no
      scan ever selects. */
  lemma RestartLosesNewRow(lim: Limits, k: Key, source: string, now: int)
    requires lim.queueSize > 0 && |k| == 20
    ensures var t := Run(lim, Init({0}), [DoSubmit(k, source, None, false, now, now), DoTake(0),
                                          DoUpsert(0, now, now, now), DoRestart(now)]);
            Lost(t, k) && t.mgr.queue == [] && forall later :: !Due(t.rows[k], later)
  {
    var s := Init({0});
    var a, b, c, d := DoSubmit(k, source, None, false, now, now), DoTake(0), DoUpsert(0, now, now, now), DoRestart(now);
    RunFour(lim, s, a, b, c, d);
    SeenAlone(lim, s, 0, k, source, false, now);
    var s3 := Apply(lim, Apply(lim, Apply(lim, s, a), b), c);
    assert k in s3.rows && s3.rows[k].state == New;
    hide *;
    RestartDrops(lim, s3, k, now);
  }

  lemma RestartDrops(lim: Limits, s: System, k: Key, now: int)
    requires k in s.rows && s.rows[k].state == New
    ensures var t := Apply(lim, s, DoRestart(now));
            Lost(t, k) && t.mgr.queue == [] && forall later :: !Due(t.rows[k], later)
  {
    var t := Apply(lim, s, DoRestart(now));
    assert forall x :: !Held(t, x);
  }

  lemma RunFour(lim: Limits, s: System, a: Action, b: Action, c: Action, d: Action)
    ensures Run(lim, s, [a, b, c, d]) == Apply(lim, Apply(lim, Apply(lim, Apply(lim, s, a), b), c), d)
  {
    hide Apply;
    assert [a, b, c, d][1..] == [b, c, d];
    assert [b, c, d][1..] == [c, d];
    assert [c, d][1..] == [d];
    var s1 := Apply(lim, s, a);
    assert Run(lim, s, [a, b, c, d]) == Run(lim, s1, [b, c, d]);
    var s2 := Apply(lim, s1, b);
    assert Run(lim, s1, [b, c, d]) == Run(lim, s2, [c, d]);
    var s3 := Apply(lim, s2, c);
    assert Run(lim, s2, [c, d]) == Run(lim, s3, [d]);
    RunOne(lim, s3, d);
  }

  /** A lost row is not out of reach: the next sighting of its key leads to a fetch. */
  lemma SightingRecovers(lim: Limits, s: System, w: nat, k: Key, source: string, now: int)
    requires s.mgr == Manager([], map[], []) && w in s.workers && s.workers[w].Idle? && lim.queueSize > 0 && |k| == 20
    requires Lost(s, k) && s.rows[k].state == New
    ensures var t := Run(lim, s, FetchSteps(w, k, source, false, now)); k in t.rows && t.rows[k].state == Fetching
  {
    FetchOnce(lim, s, w, k, source, false, now);
  }
}
