/** When a failed candidate is fetched again: the exact time that a failure writes into its row, and that no worker
    fetches the row before that time, however the program goes on. */
module CandidateTiming {
  import opened Wrappers
  import opened XorMetric
  import opened Candidates
  import opened CandidateSafety
  import opened CandidateAttempts
  import opened CandidateProgress

  /** The delay after so many attempts, in nanoseconds: base times a power of two, at most the maximum. */
  function Delay(lim: Limits, attempts: nat): int {
    var doublings: nat := if attempts == 0 then 0 else if attempts <= 31 then attempts - 1 else 30;
    var seconds := lim.retryBase * Pow2(doublings);
    1_000_000_000 * if seconds <= lim.retryMax then seconds else lim.retryMax
  }

  /** A failure at time t writes the time of the next attempt, or none when the attempts are used up; it keeps the
      attempts and the sightings and at most the configured length of the error. */
  lemma FailureSchedules(lim: Limits, s: System, w: nat, error: string, t: int)
    requires Safe(lim, s) && w in s.workers && s.workers[w].ReadBack?
    ensures var k := s.workers[w].key;
            && k in s.rows
            && (var row, row' := s.rows[k], Apply(lim, s, DoMarkFailed(w, error, t)).rows[k];
                && row'.state == FetchFailed && row'.attempts == row.attempts && row'.lastAttempt == Some(t)
                && row'.firstSeen == row.firstSeen && row'.lastSeen == row.lastSeen
                && row'.nextAttempt == (if row.attempts >= lim.maxAttempts then None
                                        else Some(t + Delay(lim, row.attempts)))
                && row'.lastError.Some? && row'.lastError.value <= error
                && |row'.lastError.value| == if |error| <= lim.maxText then |error| else lim.maxText)
  {
    WorkerRow(lim, s, w);
  }

  // ---- No fetch before the time ----

  /** Row k has failed, its next attempt is at `due` if there is one, and no worker that has the key can start a
      fetch on what it has read. */
  ghost predicate Resting(lim: Limits, s: System, k: Key, attempts: nat, due: Option<int>) {
    && Safe(lim, s) && k in s.rows && s.rows[k].state == FetchFailed
    && s.rows[k].attempts == attempts && s.rows[k].nextAttempt == due
    && forall w :: w in s.workers && s.workers[w].Holds(k) ==> Harmless(s.workers[w], due)
  }

  predicate Harmless(ph: Phase, due: Option<int>) {
    match ph
    case Seen(_, _, t) => Early(t, due)
    case Cleared(_, _) => false
    case _ => true
  }

  predicate Early(t: int, due: Option<int>) {
    due.None? || t < due.value
  }

  /** The clock readings that decide about fetches are all before the time. */
  ghost predicate EarlyReadings(acts: seq<Action>, due: Option<int>) {
    forall a :: a in acts && a.DoUpsert? ==> Early(a.now, due)
  }

  lemma RestingStep(lim: Limits, s: System, a: Action, k: Key, attempts: nat, due: Option<int>)
    requires Resting(lim, s, k, attempts, due) && (a.DoUpsert? ==> Early(a.now, due))
    ensures Resting(lim, Apply(lim, s, a), k, attempts, due)
  {
    ApplySafe(lim, s, a);
    if !a.DoSubmit? && !a.DoRestart? && a.w in s.workers {
      WorkerRow(lim, s, a.w);
      hide Safe;
      RestingWork(lim, s, a, k, due);
    }
    hide Safe, Work, Submit;
  }

  lemma RestingWork(lim: Limits, s: System, a: Action, k: Key, due: Option<int>)
    requires !a.DoSubmit? && !a.DoRestart? && a.w in s.workers && PhaseOk(s.workers[a.w], s.rows)
    requires k in s.rows && s.rows[k].state == FetchFailed && s.rows[k].nextAttempt == due
    requires forall w :: w in s.workers && s.workers[w].Holds(k) ==> Harmless(s.workers[w], due)
    requires a.DoUpsert? ==> Early(a.now, due)
    ensures var s' := Work(lim, s, a);
            && k in s'.rows && s'.rows[k].state == FetchFailed
            && s'.rows[k].attempts == s.rows[k].attempts && s'.rows[k].nextAttempt == due
            && forall w :: w in s'.workers && s'.workers[w].Holds(k) ==> Harmless(s'.workers[w], due)
  {
    hide Finish, NextAttempt;
    assert s.workers[a.w].Holds(k) ==> Harmless(s.workers[a.w], due);
  }

  lemma {:induction false} RestingRun(lim: Limits, s: System, acts: seq<Action>, k: Key, attempts: nat,
                                      due: Option<int>)
    requires Resting(lim, s, k, attempts, due) && EarlyReadings(acts, due)
    ensures Resting(lim, Run(lim, s, acts), k, attempts, due)
    decreases |acts|
  {
    hide Resting, Apply;
    if acts != [] {
      RestingStep(lim, s, acts[0], k, attempts, due);
      RestingRun(lim, Apply(lim, s, acts[0]), acts[1..], k, attempts, due);
    }
  }

  /** After a failure at time t the row keeps state, attempts and schedule as long as every worker reads the clock
      before the next attempt is due, whatever is submitted and however often the process restarts; with its
      attempts used up it keeps them forever. The retry scan does not select it before that time either. */
  lemma RetryWaits(lim: Limits, s: System, w: nat, error: string, t: int, later: seq<Action>)
    requires Safe(lim, s) && w in s.workers && s.workers[w].ReadBack?
    requires var k := s.workers[w].key;
             k in s.rows && (s.rows[k].attempts < lim.maxAttempts ==>
                               EarlyReadings(later, Some(t + Delay(lim, s.rows[k].attempts))))
    ensures var k := s.workers[w].key;
            var a := s.rows[k].attempts;
            var end := Run(lim, Apply(lim, s, DoMarkFailed(w, error, t)), later);
            && k in end.rows && end.rows[k].state == FetchFailed && end.rows[k].attempts == a
            && end.rows[k].nextAttempt == (if a >= lim.maxAttempts then None else Some(t + Delay(lim, a)))
            && forall n :: Due(end.rows[k], n) ==> a < lim.maxAttempts && n >= t + Delay(lim, a)
  {
    var k, s' := s.workers[w].key, Apply(lim, s, DoMarkFailed(w, error, t));
    FailureSchedules(lim, s, w, error, t);
    ApplySafe(lim, s, DoMarkFailed(w, error, t));
    OthersElsewhere(lim, s, w);
    hide Safe, Delay;
    var due := if s.rows[k].attempts >= lim.maxAttempts then None else Some(t + Delay(lim, s.rows[k].attempts));
    assert s'.workers == s.workers[w := Settling(k)];
    assert Resting(lim, s', k, s.rows[k].attempts, due);
    RestingRun(lim, s', later, k, s.rows[k].attempts, due);
    hide Run;
  }

  lemma OthersElsewhere(lim: Limits, s: System, w: nat)
    requires Safe(lim, s) && w in s.workers && !s.workers[w].Idle?
    ensures forall v :: v in s.workers && v != w ==> !s.workers[v].Holds(s.workers[w].key)
  {
  }

  // ---- The fetch at the time ----

  /** A worker goes on with a row if and only if it is new, or has failed and is due by the reading it took;
      otherwise it finishes the key. */
  lemma DecidesExactly(lim: Limits, s: System, w: nat, now: int)
    requires Safe(lim, s) && w in s.workers && s.workers[w].Seen?
    ensures var k, t := s.workers[w].key, s.workers[w].now;
            var s' := Apply(lim, s, DoDecide(w, now));
            && k in s.rows
            && s'.workers[w] == (if s.rows[k].state == New || Due(s.rows[k], t) then Cleared(k, t) else Idle)
            && (s'.workers[w].Idle? ==> k !in s'.mgr.states)
  {
    WorkerRow(lim, s, w);
    hide Safe, Prune, Touch;
  }

  /** What the retry scan selects is fetched, where nothing is reserved and a worker is idle. */
  lemma DueIsFetched(lim: Limits, s: System, w: nat, k: Key, now: int)
    requires s.mgr == Manager([], map[], []) && w in s.workers && s.workers[w].Idle? && lim.queueSize > 0 && |k| == 20
    requires k in s.rows && Due(s.rows[k], now)
    ensures var t := Run(lim, s, FetchSteps(w, k, "durable_retry", true, now));
            k in t.rows && t.rows[k].state == Fetching && t.rows[k].attempts == s.rows[k].attempts + 1
  {
    FetchOnce(lim, s, w, k, "durable_retry", true, now);
  }
}
