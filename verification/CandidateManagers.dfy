/** The two objects of the candidate life cycle that are updated in place: the manager with its queue, its
    reservations and its cache of recent keys, and the table of candidate rows. */
module CandidateManagers {
  import opened Wrappers
  import C = Candidates
  import L = Lru

  class CandidateManager {
    const lim: C.Limits
    var queue: seq<C.Key>
    var states: map<C.Key, C.CandidateState>
    var recent: seq<(C.Key, int)>

    constructor (lim: C.Limits)
      ensures this.lim == lim && View() == C.Manager([], map[], [])
    {
      this.lim := lim;
      queue, states, recent := [], map[], [];
    }

    ghost function View(): C.Manager
      reads this
    {
      C.Manager(queue, states, recent)
    }

    /** `_prune_recent` */
    method PruneRecent(now: int)
      modifies this`recent
      ensures recent == C.Prune(lim, old(recent), now)
    {
      var cutoff := now - lim.recentTtl;
      while recent != []
        invariant C.Prune(lim, recent, now) == C.Prune(lim, old(recent), now)
        decreases |recent|
      {
        if recent[0].1 >= cutoff && |recent| <= lim.recentSize { break; }
        recent := recent[1..];
      }
    }

    /** `submit`: reserve, then enqueue, and roll the reservation back when the queue is full. */
    method Submit(key: C.Key, source: string, hint: Option<C.Hint>, retry: bool, now: int, wall: int)
        returns (accepted: bool)
      modifies this
      ensures View() == C.Submit(lim, old(View()), key, source, hint, retry, now, wall).0
      ensures accepted == C.Submit(lim, old(View()), key, source, hint, retry, now, wall).1
    {
      if |key| != 20 { return false; }
      PruneRecent(now);
      hide C.Prune;
      if key in states {
        var s := states[key];
        s := s.(sources := s.sources + {source}, lastSeen := wall);
        if hint.Some? && hint.value !in s.hints && |s.hints| < lim.maxHints {
          s := s.(hints := s.hints + [hint.value]);
        }
        states := states[key := s];
        return true;
      }
      if !retry && L.Holds(recent, key) { return false; }
      var s := C.CandidateState({source}, [], wall, wall);
      if hint.Some? {
        s := s.(hints := s.hints + [hint.value]);
      }
      assert s.hints == if hint.Some? then [hint.value] else [];
      label Reserve:
      states := states[key := s];
      if |queue| >= lim.queueSize {
        states := states - {key};
        assert states == old@Reserve(states);
        return false;
      }
      queue := queue + [key];
      return true;
    }

    /** `finish` */
    method Finish(key: C.Key, now: int)
      modifies this
      ensures View() == C.Finish(lim, old(View()), key, now)
    {
      states := states - {key};
      recent := C.Touch(recent, key, now);
      PruneRecent(now);
    }
  }

  /** The `torrent_candidates` table; every method is one committed statement. */
  class CandidateTable {
    const lim: C.Limits
    var rows: C.Rows
    var torrents: C.Torrents

    constructor (lim: C.Limits)
      ensures this.lim == lim && rows == map[] && torrents == map[]
    {
      this.lim, rows, torrents := lim, map[], map[];
    }

    method UpsertSeen(key: C.Key, first: int, last: int) returns (row: C.Row)
      modifies this
      ensures rows == C.UpsertSeen(old(rows), key, first, last) && key in rows && row == rows[key]
      ensures torrents == C.SeeTorrent(old(torrents), row, key, last)
    {
      if key in rows {
        var r := rows[key];
        rows := rows[key := r.(lastSeen := if r.lastSeen < last then last else r.lastSeen)];
      } else {
        rows := rows[key := C.Row(C.New, first, last, 0, None, None, None, false)];
      }
      row := rows[key];
      if row.torrent && key in torrents && torrents[key] < last {
        torrents := torrents[key := last];
      }
    }

    method MarkFetching(key: C.Key, now: int) returns (changed: bool)
      modifies this`rows
      ensures (rows, changed) == C.MarkFetching(old(rows), key, now)
    {
      changed := key in rows && rows[key].state != C.Complete && rows[key].state != C.Unsupported;
      if changed {
        var r := rows[key];
        rows := rows[key := r.(state := C.Fetching, attempts := r.attempts + 1, lastAttempt := Some(now),
                               nextAttempt := None, lastError := None)];
      }
    }

    method MarkFetchFailed(key: C.Key, error: string, now: int, next: Option<int>)
      modifies this`rows
      ensures rows == C.MarkFetchFailed(lim, old(rows), key, error, now, next)
    {
      var text := error;
      if lim.maxText < |text| { text := text[..lim.maxText]; }
      if key in rows && rows[key].state != C.Complete {
        rows := rows[key := rows[key].(state := C.FetchFailed, lastAttempt := Some(now), nextAttempt := next,
                                       lastError := Some(text))];
      }
    }

    /** `persist_torrent`: the torrent and its candidate row, in one transaction. */
    method Persist(key: C.Key, now: int)
      modifies this
      ensures rows == C.MarkComplete(old(rows), key) && torrents == old(torrents)[key := now]
    {
      torrents := torrents[key := now];
      if key in rows {
        rows := rows[key := rows[key].(state := C.Complete, nextAttempt := None, lastError := None, torrent := true)];
      }
    }

    /** The recovery of interrupted fetches when the process starts: row after row. */
    method Recover(now: int)
      modifies this`rows
      ensures rows == C.Recover(old(rows), now)
    {
      var left := rows.Keys;
      while left != {}
        invariant left <= rows.Keys == old(rows).Keys
        invariant forall k :: k in rows ==> rows[k] == if k in left then old(rows)[k] else C.Recover(old(rows), now)[k]
        decreases left
      {
        var k :| k in left;
        var r := rows[k];
        if r.state == C.Fetching {
          rows := rows[k := r.(state := C.FetchFailed,
                               nextAttempt := if r.nextAttempt.Some? then r.nextAttempt else Some(now),
                               lastError := if r.lastError.Some? then r.lastError else Some("interrupted by restart"))];
        }
        left := left - {k};
      }
    }
  }
}
