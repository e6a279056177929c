/** The life of a discovered infohash: the in-memory candidate manager, the durable candidate rows and the
    workers that move a key from the queue to a stored torrent, as one transition system in which every
    await of the program is a point where anything else may happen. */
module Candidates {
  import opened Wrappers
  import opened Bytes
  import opened XorMetric
  import L = Lru

  type Key = bytes

  datatype Limits = Limits(queueSize: nat, recentSize: nat, recentTtl: int, maxHints: nat,
                           maxAttempts: nat, retryBase: int, retryMax: int, maxText: nat)

  // ---- The candidate manager ----

  datatype Hint = Hint(ip: string, port: int, implied: bool)

  datatype CandidateState = CandidateState(sources: set<string>, hints: seq<Hint>, firstSeen: int, lastSeen: int)

  /** `recent` is an ordered dictionary: keys in the order of their last insertion. */
  datatype Manager = Manager(queue: seq<Key>, states: map<Key, CandidateState>, recent: seq<(Key, int)>)

  /** `_prune_recent`: drop from the front what is too old or too many. */
  function Prune(lim: Limits, recent: seq<(Key, int)>, now: int): seq<(Key, int)> {
    if recent == [] || (recent[0].1 >= now - lim.recentTtl && |recent| <= lim.recentSize) then recent
    else Prune(lim, recent[1..], now)
  }

  /** Assign `key` in an ordered dictionary and move it to the end. */
  function Touch(recent: seq<(Key, int)>, key: Key, now: int): seq<(Key, int)> {
    L.Drop(recent, key) + [(key, now)]
  }

  function Merge(lim: Limits, s: CandidateState, source: string, hint: Option<Hint>, wall: int): CandidateState {
    var s' := s.(sources := s.sources + {source}, lastSeen := wall);
    if hint.Some? && hint.value !in s.hints && |s.hints| < lim.maxHints then
      s'.(hints := s.hints + [hint.value])
    else s'
  }

  /** `submit`, and whether it accepted the key. */
  function Submit(lim: Limits, m: Manager, key: Key, source: string, hint: Option<Hint>, retry: bool, now: int,
                  wall: int): (Manager, bool) {
    if |key| != 20 then (m, false)
    else
      var m1 := m.(recent := Prune(lim, m.recent, now));
      if key in m1.states then
        (m1.(states := m1.states[key := Merge(lim, m1.states[key], source, hint, wall)]), true)
      else if !retry && L.Holds(m1.recent, key) then (m1, false)
      else if |m1.queue| >= lim.queueSize then (m1, false)
      else
        var s := CandidateState({source}, if hint.Some? then [hint.value] else [], wall, wall);
        (m1.(states := m1.states[key := s], queue := m1.queue + [key]), true)
  }

  /** `finish` with `recent=True`, the only way it is called. */
  function Finish(lim: Limits, m: Manager, key: Key, now: int): Manager {
    m.(states := m.states - {key}, recent := Prune(lim, Touch(m.recent, key, now), now))
  }

  // ---- The durable rows ----

  datatype RowState = New | Fetching | FetchFailed | Complete | Unsupported

  /** `torrent` says that the row names a stored torrent. */
  datatype Row = Row(state: RowState, firstSeen: int, lastSeen: int, attempts: nat,
                     lastAttempt: Option<int>, nextAttempt: Option<int>, lastError: Option<string>, torrent: bool)
  {
    /** No later fetch is due, ever. */
    predicate Settled() {
      state == Complete || state == Unsupported || (state == FetchFailed && nextAttempt == None)
    }
  }

  type Rows = map<Key, Row>

  /** `upsert_candidate_seen` */
  function UpsertSeen(rows: Rows, key: Key, first: int, last: int): Rows {
    if key in rows then
      rows[key := rows[key].(lastSeen := if rows[key].lastSeen < last then last else rows[key].lastSeen)]
    else rows[key := Row(New, first, last, 0, None, None, None, false)]
  }

  /** The stored torrents, by infohash, with the time each was last seen. */
  type Torrents = map<Key, int>

  /** What `upsert_candidate_seen` does to the torrent that the row names. */
  function SeeTorrent(torrents: Torrents, row: Row, key: Key, last: int): Torrents {
    if row.torrent && key in torrents then torrents[key := if torrents[key] < last then last else torrents[key]]
    else torrents
  }

  /** `mark_fetching`, and whether it changed a row. */
  function MarkFetching(rows: Rows, key: Key, now: int): (Rows, bool) {
    if key in rows && rows[key].state != Complete && rows[key].state != Unsupported then
      (rows[key := rows[key].(state := Fetching, attempts := rows[key].attempts + 1, lastAttempt := Some(now),
                              nextAttempt := None, lastError := None)], true)
    else (rows, false)
  }

  /** `mark_fetch_failed`, which cuts the error text to the configured length. */
  function MarkFetchFailed(lim: Limits, rows: Rows, key: Key, error: string, now: int, next: Option<int>): Rows {
    if key in rows && rows[key].state != Complete then
      var text := if lim.maxText < |error| then error[..lim.maxText] else error;
      rows[key := rows[key].(state := FetchFailed, lastAttempt := Some(now), nextAttempt := next,
                             lastError := Some(text))]
    else rows
  }

  /** What `persist_torrent` does to the candidate row. */
  function MarkComplete(rows: Rows, key: Key): Rows {
    if key in rows then
      rows[key := rows[key].(state := Complete, nextAttempt := None, lastError := None, torrent := true)]
    else rows
  }

  /** The recovery of interrupted fetches when the database is opened at start. */
  function Recover(rows: Rows, now: int): Rows {
    map k | k in rows ::
      if rows[k].state == Fetching then
        rows[k].(state := FetchFailed,
                 nextAttempt := if rows[k].nextAttempt.Some? then rows[k].nextAttempt else Some(now),
                 lastError := if rows[k].lastError.Some? then rows[k].lastError else Some("interrupted by restart"))
      else rows[k]
  }

  /** `_retry_delay`, in seconds */
  function RetryDelay(attempt: int, base: int, maximum: int): int {
    var e := attempt - 1;
    var exponent: nat := if e > 30 then 30 else if e < 0 then 0 else e;
    var d := base * Pow2(exponent);
    if maximum < d then maximum else d
  }

  // ---- Workers ----

  /** Where a worker stands in `_process_candidate`, between two awaits. */
  datatype Phase =
    | Idle
    | Got(key: Key)                       // taken from the queue
    | Seen(key: Key, row: Row, now: int)  // the row was upserted and read
    | Cleared(key: Key, now: int)         // the row allows a fetch
    | Marked(key: Key, ok: bool)          // mark_fetching was executed
    | Busy(key: Key)                      // hints, lookup and peers
    | ReadBack(key: Key, latest: Option<Row>)
    | Settling(key: Key)                  // the row was written, finish is next
  {
    predicate Holds(k: Key) {
      !Idle? && key == k
    }
  }

  /** `restarts` and `abandoned` are history: the process starts after the first one, and the keys whose worker
      left through an exception since the last start. */
  datatype System = System(mgr: Manager, rows: Rows, workers: map<nat, Phase>, restarts: nat, abandoned: set<Key>)

  function Init(workers: set<nat>): System {
    System(Manager([], map[], []), map[], map w | w in workers :: Idle, 0, {})
  }

  datatype Action =
    | DoSubmit(k: Key, source: string, hint: Option<Hint>, retry: bool, now: int, wall: int)
    | DoTake(w: nat)
    | DoUpsert(w: nat, first: int, last: int, now: int)
    | DoDecide(w: nat, now: int)
    | DoMarkFetching(w: nat)
    | DoResume(w: nat, now: int)
    | DoPersist(w: nat)
    | DoReadBack(w: nat)
    | DoMarkFailed(w: nat, error: string, now: int)
    | DoFinish(w: nat, now: int)
    | DoRaise(w: nat)
    | DoRestart(now: int)

  /** The check of the upserted row: whether a fetch may go ahead. */
  predicate MayFetch(row: Row, now: int) {
    && row.state != Complete && row.state != Unsupported
    && (row.state == FetchFailed ==> row.nextAttempt.Some? && row.nextAttempt.value <= now)
  }

  function At(s: System, w: nat, ph: Phase): System {
    s.(workers := s.workers[w := ph])
  }

  /** The worker finishes its key and waits for the next. */
  function Release(lim: Limits, s: System, w: nat, now: int): System
    requires w in s.workers && !s.workers[w].Idle?
  {
    At(s, w, Idle).(mgr := Finish(lim, s.mgr, s.workers[w].key, now))
  }

  /** One step; an action that is not possible changes nothing. */
  function Apply(lim: Limits, s: System, a: Action): System {
    match a
    case DoSubmit(k, source, hint, retry, now, wall) =>
      s.(mgr := Submit(lim, s.mgr, k, source, hint, retry, now, wall).0)
    case DoRestart(now) =>
      System(Manager([], map[], []), Recover(s.rows, now), map w | w in s.workers :: Idle, s.restarts + 1, {})
    case _ => if a.w in s.workers then Work(lim, s, a) else s
  }

  /** A step of one worker. */
  function Work(lim: Limits, s: System, a: Action): System
    requires !a.DoSubmit? && !a.DoRestart? && a.w in s.workers
  {
    var w := a.w;
    match (s.workers[w], a)
    case (Idle, DoTake(_)) =>
      if s.mgr.queue == [] then s
      else At(s, w, Got(s.mgr.queue[0])).(mgr := s.mgr.(queue := s.mgr.queue[1..]))
    case (Got(k), DoUpsert(_, first, last, now)) =>
      var rows := UpsertSeen(s.rows, k, first, last);
      At(s, w, Seen(k, rows[k], now)).(rows := rows)
    case (Seen(k, row, t), DoDecide(_, now)) =>
      if MayFetch(row, t) then At(s, w, Cleared(k, t)) else Release(lim, s, w, now)
    case (Cleared(k, t), DoMarkFetching(_)) =>
      var (rows, ok) := MarkFetching(s.rows, k, t);
      At(s, w, Marked(k, ok)).(rows := rows)
    case (Marked(k, ok), DoResume(_, now)) =>
      if ok then At(s, w, Busy(k)) else Release(lim, s, w, now)
    case (Busy(k), DoPersist(_)) => At(s, w, Settling(k)).(rows := MarkComplete(s.rows, k))
    case (Busy(k), DoReadBack(_)) => At(s, w, ReadBack(k, if k in s.rows then Some(s.rows[k]) else None))
    case (ReadBack(k, latest), DoMarkFailed(_, error, now)) =>
      At(s, w, Settling(k)).(rows := MarkFetchFailed(lim, s.rows, k, error, now, NextAttempt(lim, latest, now)))
    case (Settling(k), DoFinish(_, now)) => Release(lim, s, w, now)
    case (Idle, DoRaise(_)) => s
    case (_, DoRaise(_)) => At(s, w, Idle).(abandoned := s.abandoned + {s.workers[w].key})
    case _ => s
  }

  /** When the next attempt is due after a failure: never again once the attempts are used up. */
  function NextAttempt(lim: Limits, latest: Option<Row>, now: int): Option<int> {
    var attempts := if latest.Some? then latest.value.attempts else 1;
    if attempts >= lim.maxAttempts then None
    else Some(now + RetryDelay(attempts, lim.retryBase, lim.retryMax) * 1_000_000_000)
  }
}
