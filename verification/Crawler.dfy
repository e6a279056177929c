/** The process that owns the candidate manager, the candidate table and the workers: every step of the transition
    system, carried out on the objects. */
module Crawlers {
  import opened Wrappers
  import opened Candidates
  import opened CandidateSafety
  import opened CandidateManagers

  /** A complete row, and no other, names a torrent; that torrent is stored. */
  ghost predicate Stored(rows: Rows, torrents: Torrents) {
    forall k :: k in rows ==> (rows[k].torrent <==> rows[k].state == Complete) && (rows[k].torrent ==> k in torrents)
  }

  lemma StatementsKeepStored(lim: Limits, rows: Rows, torrents: Torrents, k: Key, first: int, last: int, error: string,
                             now: int, next: Option<int>)
    requires Stored(rows, torrents)
    ensures Stored(UpsertSeen(rows, k, first, last), torrents)
    ensures Stored(MarkFetching(rows, k, now).0, torrents)
    ensures Stored(MarkFetchFailed(lim, rows, k, error, now, next), torrents)
    ensures Stored(MarkComplete(rows, k), torrents[k := now])
    ensures Stored(Recover(rows, now), torrents)
  {
  }

  lemma SeeKeepsStored(rows: Rows, torrents: Torrents, row: Row, k: Key, last: int)
    requires Stored(rows, torrents)
    ensures Stored(rows, SeeTorrent(torrents, row, k, last))
  {
  }

  class Crawler {
    const lim: Limits
    const table: CandidateTable
    var manager: CandidateManager
    var workers: map<nat, Phase>
    ghost var restarts: nat
    ghost var abandoned: set<Key>

    ghost function View(): System
      reads this, manager, table
    {
      System(manager.View(), table.rows, workers, restarts, abandoned)
    }

    ghost predicate Valid()
      reads this, manager, table
    {
      manager.lim == lim && table.lim == lim && Safe(lim, View()) && Stored(table.rows, table.torrents)
    }

    constructor (lim: Limits, ids: set<nat>)
      requires lim.maxAttempts > 0
      ensures Valid() && fresh(manager) && fresh(table) && this.lim == lim && View() == Init(ids)
    {
      this.lim := lim;
      table := new CandidateTable(lim);
      manager := new CandidateManager(lim);
      workers := map w | w in ids :: Idle;
      restarts, abandoned := 0, {};
      new;
      InitSafe(lim, ids);
    }

    /** The process starts on the table that an earlier one left behind, after `starts` starts. */
    constructor Reopen(table: CandidateTable, ids: set<nat>, starts: nat, now: int)
      requires table.lim.maxAttempts > 0 && Stored(table.rows, table.torrents)
      requires forall k :: k in table.rows ==> WithinBudget(table.lim, starts, table.rows[k])
      modifies table`rows
      ensures Valid() && fresh(manager) && this.table == table && lim == table.lim
      ensures View() == System(Manager([], map[], []), Recover(old(table.rows), now),
                               map w | w in ids :: Idle, starts + 1, {})
    {
      hide Safe, Stored, WithinBudget;
      this.lim, this.table := table.lim, table;
      manager := new CandidateManager(table.lim);
      workers := map w | w in ids :: Idle;
      restarts, abandoned := starts + 1, {};
      new;
      StartSafe(lim, ids, table.rows, starts, now);
      StatementsKeepStored(lim, table.rows, table.torrents, [], 0, 0, "", now, None);
      table.Recover(now);
    }

    method Submit(k: Key, source: string, hint: Option<Hint>, retry: bool, now: int, wall: int) returns (accepted: bool)
      requires Valid()
      modifies manager
      ensures Valid() && View() == Apply(lim, old(View()), DoSubmit(k, source, hint, retry, now, wall))
      ensures accepted == Candidates.Submit(lim, old(View()).mgr, k, source, hint, retry, now, wall).1
    {
      hide Safe, Candidates.Submit, Stored;
      ApplySafe(lim, View(), DoSubmit(k, source, hint, retry, now, wall));
      accepted := manager.Submit(k, source, hint, retry, now, wall);
    }

    /** A worker waits for the next key. */
    method Take(w: nat)
      requires Valid() && w in workers && workers[w].Idle? && manager.queue != []
      modifies this`workers, manager
      ensures Valid() && View() == Apply(lim, old(View()), DoTake(w))
    {
      hide Safe, Stored;
      ApplySafe(lim, View(), DoTake(w));
      workers := workers[w := Got(manager.queue[0])];
      manager.queue := manager.queue[1..];
    }

    method Upsert(w: nat, first: int, last: int, now: int)
      requires Valid() && w in workers && workers[w].Got?
      modifies this`workers, table
      ensures Valid() && View() == Apply(lim, old(View()), DoUpsert(w, first, last, now))
    {
      hide Safe, Stored;
      StatementsKeepStored(lim, table.rows, table.torrents, workers[w].key, first, last, "", 0, None);
      ApplySafe(lim, View(), DoUpsert(w, first, last, now));
      ghost var torrents := table.torrents;
      var row := table.UpsertSeen(workers[w].key, first, last);
      SeeKeepsStored(table.rows, torrents, row, workers[w].key, last);
      workers := workers[w := Seen(workers[w].key, row, now)];
    }

    method Decide(w: nat, now: int)
      requires Valid() && w in workers && workers[w].Seen?
      modifies this`workers, manager
      ensures Valid() && View() == Apply(lim, old(View()), DoDecide(w, now))
    {
      hide Safe, Candidates.Finish, Stored;
      ApplySafe(lim, View(), DoDecide(w, now));
      var ph := workers[w];
      if ph.row.state == Complete || ph.row.state == Unsupported {
        manager.Finish(ph.key, now);
        workers := workers[w := Idle];
      } else if ph.row.state == FetchFailed && (ph.row.nextAttempt == None || ph.row.nextAttempt.value > ph.now) {
        manager.Finish(ph.key, now);
        workers := workers[w := Idle];
      } else {
        workers := workers[w := Cleared(ph.key, ph.now)];
      }
    }

    method MarkFetching(w: nat)
      requires Valid() && w in workers && workers[w].Cleared?
      modifies this`workers, table`rows
      ensures Valid() && View() == Apply(lim, old(View()), DoMarkFetching(w))
    {
      hide Safe, Stored;
      StatementsKeepStored(lim, table.rows, table.torrents, workers[w].key, 0, 0, "", workers[w].now, None);
      ApplySafe(lim, View(), DoMarkFetching(w));
      var changed := table.MarkFetching(workers[w].key, workers[w].now);
      workers := workers[w := Marked(workers[w].key, changed)];
    }

    method Resume(w: nat, now: int)
      requires Valid() && w in workers && workers[w].Marked?
      modifies this`workers, manager
      ensures Valid() && View() == Apply(lim, old(View()), DoResume(w, now))
    {
      hide Safe, Candidates.Finish, Stored;
      ApplySafe(lim, View(), DoResume(w, now));
      var ph := workers[w];
      if !ph.ok {
        manager.Finish(ph.key, now);
        workers := workers[w := Idle];
      } else {
        workers := workers[w := Busy(ph.key)];
      }
    }

    /** The fetch succeeded. */
    method Persist(w: nat, now: int)
      requires Valid() && w in workers && workers[w].Busy?
      modifies this`workers, table
      ensures Valid() && View() == Apply(lim, old(View()), DoPersist(w))
    {
      hide Safe, Stored;
      StatementsKeepStored(lim, table.rows, table.torrents, workers[w].key, 0, 0, "", now, None);
      ApplySafe(lim, View(), DoPersist(w));
      table.Persist(workers[w].key, now);
      workers := workers[w := Settling(workers[w].key)];
    }

    /** The fetch failed: the attempts are read back. */
    method GiveUp(w: nat)
      requires Valid() && w in workers && workers[w].Busy?
      modifies this`workers
      ensures Valid() && View() == Apply(lim, old(View()), DoReadBack(w))
    {
      hide Safe, Stored;
      ApplySafe(lim, View(), DoReadBack(w));
      var k := workers[w].key;
      workers := workers[w := ReadBack(k, if k in table.rows then Some(table.rows[k]) else None)];
    }

    method MarkFailed(w: nat, error: string, now: int)
      requires Valid() && w in workers && workers[w].ReadBack?
      modifies this`workers, table`rows
      ensures Valid() && View() == Apply(lim, old(View()), DoMarkFailed(w, error, now))
    {
      hide Safe, Stored;
      StatementsKeepStored(lim, table.rows, table.torrents, workers[w].key, 0, 0, error, now,
                           NextAttempt(lim, workers[w].latest, now));
      ApplySafe(lim, View(), DoMarkFailed(w, error, now));
      var ph := workers[w];
      var attempts := if ph.latest.Some? then ph.latest.value.attempts else 1;
      if attempts >= lim.maxAttempts {
        table.MarkFetchFailed(ph.key, error, now, None);
      } else {
        var delay := RetryDelay(attempts, lim.retryBase, lim.retryMax);
        table.MarkFetchFailed(ph.key, error, now, Some(now + delay * 1_000_000_000));
      }
      workers := workers[w := Settling(ph.key)];
    }

    method Finish(w: nat, now: int)
      requires Valid() && w in workers && workers[w].Settling?
      modifies this`workers, manager
      ensures Valid() && View() == Apply(lim, old(View()), DoFinish(w, now))
    {
      hide Safe, Candidates.Finish, Stored;
      ApplySafe(lim, View(), DoFinish(w, now));
      manager.Finish(workers[w].key, now);
      workers := workers[w := Idle];
    }

    /** An exception leaves `_process_candidate`: the worker goes on, the reservation stays. */
    method Raise(w: nat)
      requires Valid() && w in workers && !workers[w].Idle?
      modifies this`workers, this`abandoned
      ensures Valid() && View() == Apply(lim, old(View()), DoRaise(w))
    {
      hide Safe, Stored;
      ApplySafe(lim, View(), DoRaise(w));
      abandoned := abandoned + {workers[w].key};
      workers := workers[w := Idle];
    }

    /** The process ends and starts again: only the table survives. */
    method Restart(now: int)
      requires Valid()
      modifies this`manager, this`workers, this`restarts, this`abandoned, table`rows
      ensures Valid() && fresh(manager) && View() == Apply(lim, old(View()), DoRestart(now))
    {
      hide Safe, Stored;
      StatementsKeepStored(lim, table.rows, table.torrents, [], 0, 0, "", now, None);
      ApplySafe(lim, View(), DoRestart(now));
      table.Recover(now);
      manager := new CandidateManager(lim);
      workers := map w | w in workers :: Idle;
      restarts, abandoned := restarts + 1, {};
    }
  }
}
