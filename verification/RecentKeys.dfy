/** The cache of recently finished keys, against the log of everything that was ever finished: over every run, a
    submission is refused as recent exactly when the log says so. */
module RecentKeys {
  import opened Wrappers
  import opened Lru
  import C = Candidates

  datatype Call =
    | CallSubmit(key: C.Key, source: string, hint: Option<C.Hint>, retry: bool, now: int, wall: int)
    | CallTake
    | CallFinish(key: C.Key, now: int)

  function After(lim: C.Limits, m: C.Manager, c: Call): C.Manager {
    match c
    case CallSubmit(key, source, hint, retry, now, wall) => C.Submit(lim, m, key, source, hint, retry, now, wall).0
    case CallTake => if m.queue == [] then m else m.(queue := m.queue[1..])
    case CallFinish(key, now) => C.Finish(lim, m, key, now)
  }

  function Run(lim: C.Limits, m: C.Manager, cs: seq<Call>): C.Manager
    decreases |cs|
  {
    if cs == [] then m else After(lim, Run(lim, m, cs[..|cs| - 1]), cs[|cs| - 1])
  }

  /** The keys finished in a run, with their times. */
  function Finished(cs: seq<Call>): Cache<C.Key> {
    if cs == [] then []
    else Finished(cs[..|cs| - 1]) + match cs[|cs| - 1] case CallFinish(key, now) => [(key, now)] case _ => []
  }

  /** The clock readings of a run, the last of which is `latest`, never decrease. */
  predicate Ordered(cs: seq<Call>, latest: int)
    decreases |cs|
  {
    cs == [] || match cs[|cs| - 1]
                case CallTake => Ordered(cs[..|cs| - 1], latest)
                case CallSubmit(_, _, _, _, now, _) => now <= latest && Ordered(cs[..|cs| - 1], now)
                case CallFinish(_, now) => now <= latest && Ordered(cs[..|cs| - 1], now)
  }

  ghost predicate SortedTimes(s: Cache<C.Key>) {
    forall i, j :: 0 <= i < j < |s| ==> s[i].1 <= s[j].1
  }

  lemma {:induction false} ExpireNothing(s: Cache<C.Key>, cutoff: int)
    requires forall i :: 0 <= i < |s| ==> s[i].1 >= cutoff
    ensures Expire(s, cutoff) == s
    decreases |s|
  {
    if s != [] { ExpireNothing(s[1..], cutoff); }
  }

  /** Dropping from the front what is too old or too many: what remains is the newest, none of it expired. */
  lemma {:induction false} PruneIsExpire(lim: C.Limits, s: Cache<C.Key>, now: int)
    requires SortedTimes(s) && |s| <= lim.recentSize
    ensures C.Prune(lim, s, now) == Expire(s, now - lim.recentTtl)
    decreases |s|
  {
    if s != [] && s[0].1 < now - lim.recentTtl {
      assert SortedTimes(s[1..]);
      hide SortedTimes;
      PruneIsExpire(lim, s[1..], now);
    } else {
      ExpireNothing(s, now - lim.recentTtl);
      hide SortedTimes, Expire;
    }
  }

  lemma ExactSorted(s: Cache<C.Key>, log: Cache<C.Key>, cutoff: int, cap: nat)
    requires Exact(s, log, cutoff, cap)
    ensures SortedTimes(s)
  {
    forall i, j | 0 <= i < j < |s| ensures s[i].1 <= s[j].1 {
      LaterTime(log, s[i].0, s[j].0);
    }
  }

  lemma PruneTracks(lim: C.Limits, s: Cache<C.Key>, log: Cache<C.Key>, cutoff: int, now: int)
    requires Exact(s, log, cutoff, lim.recentSize) && cutoff <= now - lim.recentTtl
    ensures Exact(C.Prune(lim, s, now), log, now - lim.recentTtl, lim.recentSize)
  {
    hide Exact;
    ExactSorted(s, log, cutoff, lim.recentSize);
    CacheBounded(s, log, cutoff, lim.recentSize);
    PruneIsExpire(lim, s, now);
    ExpireExact(s, log, cutoff, now - lim.recentTtl, lim.recentSize);
  }

  lemma FinishTracks(lim: C.Limits, s: Cache<C.Key>, log: Cache<C.Key>, cutoff: int, key: C.Key, now: int)
    requires Exact(s, log, cutoff, lim.recentSize) && cutoff <= now - lim.recentTtl && cutoff <= now
             && lim.recentSize > 0
    requires forall i :: 0 <= i < |log| ==> log[i].1 <= now
    ensures Exact(C.Prune(lim, C.Touch(s, key, now), now), log + [(key, now)], now - lim.recentTtl, lim.recentSize)
  {
    hide Exact, Drop;
    CacheBounded(s, log, cutoff, lim.recentSize);
    DropShrinks(s, key);
    TouchExact(s, log, cutoff, lim.recentSize, key, now);
    PruneTracks(lim, Touch(s, key, now, lim.recentSize), log + [(key, now)], cutoff, now);
  }

  lemma {:induction false} FinishedTimes(cs: seq<Call>, latest: int)
    requires Ordered(cs, latest)
    ensures forall i :: 0 <= i < |Finished(cs)| ==> Finished(cs)[i].1 <= latest
    decreases |cs|
  {
    if cs != [] {
      var c := cs[|cs| - 1];
      FinishedTimes(cs[..|cs| - 1], if c.CallTake? then latest else c.now);
    }
  }

  const EMPTY := C.Manager([], map[], [])

  /** What a call does to the cache. */
  lemma RecentAfter(lim: C.Limits, m: C.Manager, c: Call)
    ensures After(lim, m, c).recent ==
            if c.CallFinish? then C.Prune(lim, C.Touch(m.recent, c.key, c.now), c.now)
            else if c.CallSubmit? && |c.key| == 20 then C.Prune(lim, m.recent, c.now)
            else m.recent
  {
    hide C.Prune, C.Touch, Holds, C.Merge;
  }

  /** After every run the cache is exactly the part of the log that was alive at the last pruning. */
  lemma {:induction false} RunTracks(lim: C.Limits, cs: seq<Call>, latest: int) returns (cutoff: int)
    requires lim.recentSize > 0 && lim.recentTtl >= 0 && Ordered(cs, latest)
    ensures cutoff <= latest - lim.recentTtl
    ensures Exact(Run(lim, EMPTY, cs).recent, Finished(cs), cutoff, lim.recentSize)
    decreases |cs|
  {
    hide Exact, After, C.Prune, C.Touch;
    if cs == [] {
      cutoff := latest - lim.recentTtl;
      EmptyExact<C.Key>(cutoff, lim.recentSize);
    } else {
      var c, before := cs[|cs| - 1], cs[..|cs| - 1];
      var m := Run(lim, EMPTY, before);
      RecentAfter(lim, m, c);
      assert !c.CallFinish? ==> Finished(cs) == Finished(before);
      match c
      case CallTake =>
        cutoff := RunTracks(lim, before, latest);
      case CallSubmit(key, source, hint, retry, now, wall) =>
        cutoff := RunTracks(lim, before, now);
        if |key| == 20 {
          PruneTracks(lim, m.recent, Finished(before), cutoff, now);
          cutoff := now - lim.recentTtl;
        }
      case CallFinish(key, now) =>
        cutoff := RunTracks(lim, before, now);
        FinishedTimes(before, now);
        FinishTracks(lim, m.recent, Finished(before), cutoff, key, now);
        cutoff := now - lim.recentTtl;
    }
  }

  /** A key that is not reserved, with room in the queue: a submission is refused exactly if it is not a retry and
      the key was last finished within the lifetime, with fewer than the cache size of other keys finished since. */
  lemma RefusedExactly(lim: C.Limits, cs: seq<Call>, key: C.Key, source: string, hint: Option<C.Hint>, retry: bool,
                       now: int, wall: int)
    requires lim.recentSize > 0 && lim.recentTtl >= 0 && Ordered(cs, now) && |key| == 20
    requires key !in Run(lim, EMPTY, cs).states && |Run(lim, EMPTY, cs).queue| < lim.queueSize
    ensures C.Submit(lim, Run(lim, EMPTY, cs), key, source, hint, retry, now, wall).1
       <==> retry || !Alive(Finished(cs), key, now - lim.recentTtl, lim.recentSize)
  {
    var m := Run(lim, EMPTY, cs);
    var cutoff := RunTracks(lim, cs, now);
    PruneTracks(lim, m.recent, Finished(cs), cutoff, now);
    var r := C.Prune(lim, m.recent, now);
    assert Holds(r, key) <==> Alive(Finished(cs), key, now - lim.recentTtl, lim.recentSize) by {
      HoldsIsAlive(r, Finished(cs), now - lim.recentTtl, lim.recentSize, key);
    }
  }
}
