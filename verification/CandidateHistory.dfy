/** What a candidate row and a reservation say, read off the steps of the program alone. */
module CandidateHistory {
  import opened Wrappers
  import opened Candidates
  import opened CandidateSafety
  import opened CandidateTiming
  import L = Lru

  // ---- The story of a row ----

  /** What is written into the row of a key. */
  datatype Event =
    | Saw(first: int, last: int)
    | Began(at: int)
    | Stored
    | Broke(error: string, at: int)
    | Cut(at: int)

  /** What a step writes into the row of key k: a worker that stands where the step takes it from, with that key, or a
      restart in the middle of a fetch. */
  ghost function Wrote(s: System, a: Action, k: Key): seq<Event> {
    if a.DoRestart? then
      if k in s.rows && s.rows[k].state == Fetching then [Cut(a.now)] else []
    else if a.DoSubmit? || a.w !in s.workers || !s.workers[a.w].Holds(k) then []
    else
      match (s.workers[a.w], a)
      case (Got(_), DoUpsert(_, first, last, _)) => [Saw(first, last)]
      case (Cleared(_, t), DoMarkFetching(_)) => [Began(t)]
      case (Busy(_), DoPersist(_)) => [Stored]
      case (ReadBack(_, _), DoMarkFailed(_, error, now)) => [Broke(error, now)]
      case _ => []
  }

  ghost function Story(lim: Limits, s: System, acts: seq<Action>, k: Key): seq<Event>
    decreases |acts|
  {
    if acts == [] then [] else Wrote(s, acts[0], k) + Story(lim, Apply(lim, s, acts[0]), acts[1..], k)
  }

  predicate Outcome(e: Event) { !e.Saw? }

  predicate Timed(e: Event) { e.Began? || e.Broke? }

  /** The position of the last event of a kind, or -1. */
  function Last(h: seq<Event>, kind: Event -> bool): (i: int)
    ensures -1 <= i < |h|
    ensures 0 <= i ==> kind(h[i])
    ensures forall j :: i < j < |h| ==> !kind(h[j])
    decreases |h|
  {
    if h == [] then -1 else if kind(h[|h| - 1]) then |h| - 1 else Last(h[..|h| - 1], kind)
  }

  /** The number of fetches begun. */
  function Fetches(h: seq<Event>): nat
    decreases |h|
  {
    if h == [] then 0 else Fetches(h[..|h| - 1]) + if h[|h| - 1].Began? then 1 else 0
  }

  function Shortened(lim: Limits, error: string): string {
    if |error| <= lim.maxText then error else error[..lim.maxText]
  }

  /** State, error and schedule that an outcome leaves, after so many fetches. */
  ghost predicate Left(lim: Limits, row: Row, e: Event, fetches: nat) {
    match e
    case Saw(_, _) => true
    case Began(_) => row.state == Fetching && row.nextAttempt == None && row.lastError == None
    case Stored => row.state == Complete && row.nextAttempt == None && row.lastError == None
    case Broke(error, t) =>
      && row.state == FetchFailed && row.lastError == Some(Shortened(lim, error))
      && row.nextAttempt == (if fetches >= lim.maxAttempts then None else Some(t + Delay(lim, fetches)))
    case Cut(t) =>
      row.state == FetchFailed && row.lastError == Some("interrupted by restart") && row.nextAttempt == Some(t)
  }

  /** What a row has to say, given its story: the first sighting is the one that made it, the last one the latest ever;
      attempts are the fetches begun; the rest is what the last outcome left. */
  ghost predicate Tells(lim: Limits, row: Row, h: seq<Event>) {
    SightingsTell(row, h) && OutcomesTell(lim, row, h)
  }

  ghost predicate SightingsTell(row: Row, h: seq<Event>) {
    && h != [] && h[0].Saw? && row.firstSeen == h[0].first
    && (forall e :: e in h && e.Saw? ==> e.last <= row.lastSeen)
    && (exists e :: e in h && e.Saw? && e.last == row.lastSeen)
  }

  ghost predicate OutcomesTell(lim: Limits, row: Row, h: seq<Event>) {
    var outcome, timed := Last(h, Outcome), Last(h, Timed);
    && row.attempts == Fetches(h)
    && row.lastAttempt == (if timed < 0 then None else Some(h[timed].at))
    && (row.torrent <==> Stored in h)
    && (if outcome < 0 then row.state == New && row.nextAttempt == None && row.lastError == None
        else Left(lim, row, h[outcome], Fetches(h)))
  }

  // ---- What a step does to a row ----

  /** What an event makes of a row. */
  ghost predicate Becomes(lim: Limits, row: Row, e: Event, row': Row) {
    match e
    case Saw(_, last) => row' == row.(lastSeen := if row.lastSeen < last then last else row.lastSeen)
    case Began(t) => row' == row.(state := Fetching, attempts := row.attempts + 1, lastAttempt := Some(t),
                                  nextAttempt := None, lastError := None)
    case Stored =>
      && row.state == Fetching
      && row' == row.(state := Complete, nextAttempt := None, lastError := None, torrent := true)
    case Broke(error, t) =>
      && row.state == Fetching
      && row' == row.(state := FetchFailed, lastAttempt := Some(t), lastError := Some(Shortened(lim, error)),
                   nextAttempt := if row.attempts >= lim.maxAttempts then None else Some(t + Delay(lim, row.attempts)))
    case Cut(t) =>
      && row.state == Fetching
      && row' == row.(state := FetchFailed,
                   nextAttempt := if row.nextAttempt.Some? then row.nextAttempt else Some(t),
                   lastError := if row.lastError.Some? then row.lastError else Some("interrupted by restart"))
  }

  lemma Append(h: seq<Event>, e: Event)
    ensures Last(h + [e], Outcome) == if Outcome(e) then |h| else Last(h, Outcome)
    ensures Last(h + [e], Timed) == if Timed(e) then |h| else Last(h, Timed)
    ensures Fetches(h + [e]) == Fetches(h) + if e.Began? then 1 else 0
    ensures forall x :: x in h + [e] <==> x in h || x == e
    ensures forall i :: 0 <= i < |h| ==> (h + [e])[i] == h[i]
  {
    assert (h + [e])[..|h|] == h;
  }

  lemma EventTells(lim: Limits, row: Row, h: seq<Event>, e: Event, row': Row)
    requires Tells(lim, row, h) && Becomes(lim, row, e, row')
    ensures Tells(lim, row', h + [e])
  {
    hide SightingsTell, OutcomesTell, Becomes;
    EventSighted(lim, row, h, e, row');
    EventOutcome(lim, row, h, e, row');
  }

  lemma EventSighted(lim: Limits, row: Row, h: seq<Event>, e: Event, row': Row)
    requires SightingsTell(row, h) && Becomes(lim, row, e, row')
    ensures SightingsTell(row', h + [e])
  {
    hide Delay, Shortened;
    assert forall x :: x in h + [e] <==> x in h || x == e;
    var w :| w in h && w.Saw? && w.last == row.lastSeen;
    if e.Saw? && row.lastSeen < e.last { assert e in h + [e]; } else { assert w in h + [e]; }
  }

  lemma EventOutcome(lim: Limits, row: Row, h: seq<Event>, e: Event, row': Row)
    requires OutcomesTell(lim, row, h) && Becomes(lim, row, e, row')
    ensures OutcomesTell(lim, row', h + [e])
  {
    Append(h, e);
    hide Last, Fetches, Delay, Shortened;
  }

  /** A step writes at most one event into the row of a key; without one the row stays as it is. */
  lemma StepWrites(lim: Limits, s: System, a: Action, k: Key)
    requires Safe(lim, s)
    ensures var s', h := Apply(lim, s, a), Wrote(s, a, k);
            && |h| <= 1
            && (h == [] ==> (k in s'.rows <==> k in s.rows) && (k in s.rows ==> s'.rows[k] == s.rows[k]))
            && (h != [] ==>
                  && k in s'.rows
                  && (k in s.rows ==> Becomes(lim, s.rows[k], h[0], s'.rows[k]))
                  && (k !in s.rows ==>
                        h[0].Saw? && s'.rows[k] == Row(New, h[0].first, h[0].last, 0, None, None, None, false)))
  {
    hide Submit;
    if !a.DoSubmit? && !a.DoRestart? && a.w in s.workers {
      WorkerRow(lim, s, a.w);
      hide Safe;
      WorkWrites(lim, s, a, k);
    }
    hide Safe, Work, Becomes;
    if a.DoRestart? { RestartWrites(lim, s, a.now, k); }
  }

  lemma RestartWrites(lim: Limits, s: System, now: int, k: Key)
    ensures var s', h := Apply(lim, s, DoRestart(now)), Wrote(s, DoRestart(now), k);
            && (k in s'.rows <==> k in s.rows)
            && (k in s.rows ==> if h == [] then s'.rows[k] == s.rows[k] else Becomes(lim, s.rows[k], h[0], s'.rows[k]))
  {
  }

  lemma WorkWrites(lim: Limits, s: System, a: Action, k: Key)
    requires !a.DoSubmit? && !a.DoRestart? && a.w in s.workers && PhaseOk(s.workers[a.w], s.rows)
    ensures var s', h := Work(lim, s, a), Wrote(s, a, k);
            && |h| <= 1
            && (h == [] ==> (k in s'.rows <==> k in s.rows) && (k in s.rows ==> s'.rows[k] == s.rows[k]))
            && (h != [] ==>
                  && k in s'.rows
                  && (k in s.rows ==> Becomes(lim, s.rows[k], h[0], s'.rows[k]))
                  && (k !in s.rows ==>
                        h[0].Saw? && s'.rows[k] == Row(New, h[0].first, h[0].last, 0, None, None, None, false)))
  {
    hide Finish, MayFetch;
  }

  /** Over every run, from any safe state in which the key has no row or one that tells its story, the key has a
      row if and only if something was written, and then the row says exactly what its story tells. */
  lemma {:induction false} EveryRowTells(lim: Limits, s: System, acts: seq<Action>, k: Key, h: seq<Event>)
    requires Safe(lim, s)
    requires if k in s.rows then Tells(lim, s.rows[k], h) else h == []
    ensures var t, h' := Run(lim, s, acts), h + Story(lim, s, acts, k);
            if k in t.rows then Tells(lim, t.rows[k], h') else h' == []
    decreases |acts|
  {
    hide *;
    RunAndStory(lim, s, acts, k);
    if acts == [] {
      assert h + [] == h;
    } else {
      var a, e := acts[0], Wrote(s, acts[0], k);
      ApplySafe(lim, s, a);
      StepWrites(lim, s, a, k);
      if e == [] {
        assert h + e == h;
      } else {
        assert e == [e[0]];
        if k in s.rows { EventTells(lim, s.rows[k], h, e[0], Apply(lim, s, a).rows[k]); }
        else { FirstTells(lim, e[0]); assert h + e == e; }
      }
      EveryRowTells(lim, Apply(lim, s, a), acts[1..], k, h + e);
      assert h + e + Story(lim, Apply(lim, s, a), acts[1..], k) == h + Story(lim, s, acts, k);
    }
  }

  lemma FirstTells(lim: Limits, e: Event)
    requires e.Saw?
    ensures Tells(lim, Row(New, e.first, e.last, 0, None, None, None, false), [e])
  {
    assert [e][..0] == [];
    assert e in [e];
  }

  lemma RunAndStory(lim: Limits, s: System, acts: seq<Action>, k: Key)
    ensures acts == [] ==> Run(lim, s, acts) == s && Story(lim, s, acts, k) == []
    ensures acts != [] ==>
              var s' := Apply(lim, s, acts[0]);
              && Run(lim, s, acts) == Run(lim, s', acts[1..])
              && Story(lim, s, acts, k) == Wrote(s, acts[0], k) + Story(lim, s', acts[1..], k)
  {
    hide Apply, Wrote;
  }

  // ---- The story of a reservation ----

  /** The submissions of a key since it was reserved, whatever became of it then. */
  ghost function Mentions(lim: Limits, s: System, acts: seq<Action>, k: Key, sofar: seq<Action>): seq<Action>
    decreases |acts|
  {
    if acts == [] then sofar
    else
      var s' := Apply(lim, s, acts[0]);
      Mentions(lim, s', acts[1..], k, NextMentions(s', acts[0], k, sofar))
  }

  ghost function NextMentions(after: System, a: Action, k: Key, sofar: seq<Action>): seq<Action> {
    if k !in after.mgr.states then [] else sofar + if a.DoSubmit? && a.k == k && |k| == 20 then [a] else []
  }

  function Hints(ms: seq<Action>): (r: seq<Hint>)
    requires forall a :: a in ms ==> a.DoSubmit?
    decreases |ms|
  {
    if ms == [] then []
    else
      var a := ms[|ms| - 1];
      assert a in ms;
      Hints(ms[..|ms| - 1]) + if a.hint.Some? then [a.hint.value] else []
  }

  /** The position of the first occurrence, or |s|. */
  function First(s: seq<Hint>, h: Hint): (i: nat)
    ensures i <= |s|
    ensures i < |s| ==> s[i] == h
    ensures forall j :: 0 <= j < i ==> s[j] != h
  {
    if s == [] || s[0] == h then 0 else 1 + First(s[1..], h)
  }

  /** `kept` are the hints that were offered first, each once, in the order of their first offer; one is missing
      only when there is no room for it. */
  ghost predicate FirstOffered(kept: seq<Hint>, offered: seq<Hint>, room: nat) {
    && (forall i :: 0 <= i < |kept| ==> kept[i] in offered)
    && (forall i, j :: 0 <= i < j < |kept| ==> First(offered, kept[i]) < First(offered, kept[j]))
    && (forall h :: h in offered && h !in kept ==>
          |kept| >= room && forall i :: 0 <= i < |kept| ==> First(offered, kept[i]) < First(offered, h))
  }

  /** What a reservation has to say: all sources, first and last submission, and the hints offered first. */
  ghost predicate Gathered(lim: Limits, c: CandidateState, ms: seq<Action>) {
    && ms != [] && (forall a :: a in ms ==> a.DoSubmit?)
    && SourcesOf(c.sources, ms)
    && c.firstSeen == ms[0].wall && c.lastSeen == ms[|ms| - 1].wall
    && FirstOffered(c.hints, Hints(ms), lim.maxHints)
  }

  lemma {:induction false} FirstAppend(s: seq<Hint>, h: Hint, x: Hint)
    ensures First(s + [h], x) == if x in s then First(s, x) else if x == h then |s| else |s| + 1
  {
    if s != [] {
      assert (s + [h])[1..] == s[1..] + [h];
      FirstAppend(s[1..], h, x);
    }
  }

  lemma FirstInside(s: seq<Hint>, x: Hint)
    ensures First(s, x) < |s| <==> x in s
  {
    if x in s { var i :| 0 <= i < |s| && s[i] == x; }
  }

  lemma FirstOfMore(s: seq<Hint>, h: Hint)
    ensures forall x :: x in s + [h] <==> x in s || x == h
    ensures forall x :: x in s ==> First(s + [h], x) == First(s, x) < |s|
    ensures h !in s ==> First(s + [h], h) == |s|
  {
    forall x | x in s ensures First(s + [h], x) == First(s, x) < |s| {
      FirstAppend(s, h, x);
      FirstInside(s, x);
    }
    FirstAppend(s, h, h);
  }

  /** One more offer: a new hint is kept when there is room. */
  lemma OfferOne(kept: seq<Hint>, offered: seq<Hint>, room: nat, h: Hint)
    requires FirstOffered(kept, offered, room)
    ensures FirstOffered(if h !in kept && |kept| < room then kept + [h] else kept, offered + [h], room)
  {
    if h !in kept && |kept| < room { OfferKept(kept, offered, room, h); } else { OfferLeft(kept, offered, room, h); }
    hide FirstOffered;
  }

  lemma OfferKept(kept: seq<Hint>, offered: seq<Hint>, room: nat, h: Hint)
    requires FirstOffered(kept, offered, room) && h !in kept && |kept| < room
    ensures FirstOffered(kept + [h], offered + [h], room)
  {
    hide First;
    FirstOfMore(offered, h);
    assert h !in offered;
    var kept' := kept + [h];
    forall x | x in offered + [h] ensures x in kept' {
      if x != h {
        assert x in kept;
        var i :| 0 <= i < |kept| && kept[i] == x;
        assert kept'[i] == x;
      } else {
        assert kept'[|kept|] == h;
      }
    }
  }

  lemma OfferLeft(kept: seq<Hint>, offered: seq<Hint>, room: nat, h: Hint)
    requires FirstOffered(kept, offered, room) && (h in kept || |kept| >= room)
    ensures FirstOffered(kept, offered + [h], room)
  {
    hide First;
    FirstOfMore(offered, h);
  }

  lemma HintsAppend(ms: seq<Action>, a: Action)
    requires (forall x :: x in ms ==> x.DoSubmit?) && a.DoSubmit?
    ensures forall x :: x in ms + [a] ==> x.DoSubmit?
    ensures Hints(ms + [a]) == Hints(ms) + if a.hint.Some? then [a.hint.value] else []
  {
    assert (ms + [a])[..|ms|] == ms;
  }

  lemma MergeGathers(lim: Limits, c: CandidateState, ms: seq<Action>, a: Action)
    requires Gathered(lim, c, ms) && a.DoSubmit?
    ensures Gathered(lim, Merge(lim, c, a.source, a.hint, a.wall), ms + [a])
  {
    hide FirstOffered, Hints;
    HintsAppend(ms, a);
    if a.hint.Some? { OfferOne(c.hints, Hints(ms), lim.maxHints, a.hint.value); }
    assert Hints(ms) + [] == Hints(ms);
    SourcesAppend(c.sources, ms, a);
  }

  ghost predicate SourcesOf(sources: set<string>, ms: seq<Action>)
    requires forall a :: a in ms ==> a.DoSubmit?
  {
    forall x :: x in sources <==> exists a :: a in ms && a.source == x
  }

  lemma SourcesAppend(sources: set<string>, ms: seq<Action>, a: Action)
    requires (forall x :: x in ms ==> x.DoSubmit?) && a.DoSubmit? && SourcesOf(sources, ms)
    ensures (forall x :: x in ms + [a] ==> x.DoSubmit?) && SourcesOf(sources + {a.source}, ms + [a])
  {
    assert forall b :: b in ms + [a] <==> b in ms || b == a;
    forall x ensures x in sources + {a.source} <==> exists b :: b in ms + [a] && b.source == x {
      if x in sources {
        var b :| b in ms && b.source == x;
        assert b in ms + [a];
      } else if x == a.source {
        assert a in ms + [a];
      }
    }
  }

  lemma NewGathers(lim: Limits, a: Action)
    requires a.DoSubmit?
    ensures Gathered(lim, CandidateState({a.source}, if a.hint.Some? then [a.hint.value] else [], a.wall, a.wall), [a])
  {
    assert [] + [a] == [a];
    HintsAppend([], a);
    assert a in [a];
  }

  lemma SubmitGathers(lim: Limits, s: System, a: Action, k: Key, ms: seq<Action>)
    requires a.DoSubmit? && (if k in s.mgr.states then Gathered(lim, s.mgr.states[k], ms) else ms == [])
    ensures var s' := Apply(lim, s, a);
            if k in s'.mgr.states then Gathered(lim, s'.mgr.states[k], NextMentions(s', a, k, ms))
              else k !in s.mgr.states
  {
    hide Gathered, Merge, Prune, L.Holds;
    if |k| != 20 {
      assert ms + [] == ms;
    } else if k == a.k && k in s.mgr.states {
      MergeGathers(lim, s.mgr.states[k], ms, a);
    } else if k == a.k {
      NewGathers(lim, a);
      assert ms + [a] == [a];
    } else {
      assert ms + [] == ms;
    }
  }

  lemma WorkKeepsReservations(lim: Limits, s: System, a: Action, k: Key)
    requires !a.DoSubmit? && !a.DoRestart? && a.w in s.workers
    ensures var s' := Work(lim, s, a);
            k in s'.mgr.states ==> k in s.mgr.states && s'.mgr.states[k] == s.mgr.states[k]
  {
    hide Prune, Touch, MayFetch, UpsertSeen, MarkFetching, MarkFetchFailed, MarkComplete, NextAttempt;
  }

  lemma StepGathers(lim: Limits, s: System, a: Action, k: Key, ms: seq<Action>)
    requires if k in s.mgr.states then Gathered(lim, s.mgr.states[k], ms) else ms == []
    ensures var s' := Apply(lim, s, a);
            var ms' := NextMentions(s', a, k, ms);
            if k in s'.mgr.states then Gathered(lim, s'.mgr.states[k], ms') else ms' == []
  {
    if a.DoSubmit? {
      SubmitGathers(lim, s, a, k, ms);
    } else if !a.DoRestart? && a.w in s.workers {
      WorkKeepsReservations(lim, s, a, k);
    }
    assert ms + [] == ms;
    hide Gathered, Work, Submit, Recover;
  }

  /** Over every run, every reservation has gathered the sources of all submissions since the key was reserved, the
      times of the first and the last one, and the hints offered first. */
  lemma {:induction false} EveryReservationGathers(lim: Limits, s: System, acts: seq<Action>, k: Key, ms: seq<Action>)
    requires if k in s.mgr.states then Gathered(lim, s.mgr.states[k], ms) else ms == []
    ensures var t, ms' := Run(lim, s, acts), Mentions(lim, s, acts, k, ms);
            if k in t.mgr.states then Gathered(lim, t.mgr.states[k], ms') else ms' == []
    decreases |acts|
  {
    hide Gathered, Apply, NextMentions;
    if acts != [] {
      var s' := Apply(lim, s, acts[0]);
      StepGathers(lim, s, acts[0], k, ms);
      EveryReservationGathers(lim, s', acts[1..], k, NextMentions(s', acts[0], k, ms));
    }
  }

  lemma HoldsEntry(s: L.Cache<Key>, key: Key)
    ensures L.Holds(s, key) <==> exists x :: x in s && x.0 == key
  {
    if L.Holds(s, key) {
      var i :| 0 <= i < |s| && s[i].0 == key;
      assert s[i] in s;
    }
  }

  /** A submission is accepted if the key is reserved, or if there is room and it is a retry or not recent; what is
      accepted is reserved, what is not changes no reservation. */
  lemma AcceptsExactly(lim: Limits, m: Manager, key: Key, source: string, hint: Option<Hint>, retry: bool, now: int,
                       wall: int)
    ensures var (m', ok) := Submit(lim, m, key, source, hint, retry, now, wall);
            && (ok <==> |key| == 20 &&
                        (key in m.states || (|m.queue| < lim.queueSize
                                             && (retry || forall x :: x in Prune(lim, m.recent, now) ==> x.0 != key))))
            && (ok ==> m'.states.Keys == m.states.Keys + {key})
            && (!ok ==> m'.states == m.states)
            && m'.queue == if ok && key !in m.states then m.queue + [key] else m.queue
  {
    hide Prune, Merge;
    var r := Prune(lim, m.recent, now);
    HoldsEntry(r, key);
    hide L.Holds;
  }

  // ---- Stored torrents ----

  /** A sighting moves the last sighting of the torrent that the row names forward, never backwards, and no other. */
  lemma SeesExactly(torrents: Torrents, row: Row, k: Key, last: int, x: Key)
    ensures var after := SeeTorrent(torrents, row, k, last);
            && after.Keys == torrents.Keys
            && (x in torrents ==> torrents[x] <= after[x] && (after[x] == torrents[x] || (x == k && after[x] == last)))
            && (x in torrents && x == k && row.torrent ==> last <= after[x])
            && (x in torrents && (x != k || !row.torrent) ==> after[x] == torrents[x])
  {
  }

  // ---- First come, first served ----

  /** The key that a submission newly reserves. */
  ghost function Enters(s: System, a: Action, s': System): seq<Key> {
    if a.DoSubmit? && a.k !in s.mgr.states && a.k in s'.mgr.states then [a.k] else []
  }

  /** The key that an idle worker comes to hold. */
  ghost function Leaves(s: System, a: Action, s': System): seq<Key> {
    if a.DoTake? && a.w in s.workers && a.w in s'.workers && s.workers[a.w].Idle? && !s'.workers[a.w].Idle?
    then [s'.workers[a.w].key] else []
  }

  ghost function Accepted(lim: Limits, s: System, acts: seq<Action>): seq<Key>
    decreases |acts|
  {
    if acts == [] then []
    else var s' := Apply(lim, s, acts[0]); Enters(s, acts[0], s') + Accepted(lim, s', acts[1..])
  }

  ghost function Taken(lim: Limits, s: System, acts: seq<Action>): seq<Key>
    decreases |acts|
  {
    if acts == [] then []
    else var s' := Apply(lim, s, acts[0]); Leaves(s, acts[0], s') + Taken(lim, s', acts[1..])
  }

  /** Without a restart, keys are taken exactly in the order in which they were accepted, and none is skipped. */
  lemma {:induction false} FirstComeFirstServed(lim: Limits, s: System, acts: seq<Action>)
    requires forall a :: a in acts ==> !a.DoRestart?
    ensures s.mgr.queue + Accepted(lim, s, acts) == Taken(lim, s, acts) + Run(lim, s, acts).mgr.queue
    decreases |acts|
  {
    if acts != [] {
      var s' := Apply(lim, s, acts[0]);
      assert acts[0] in acts;
      QueueStep(lim, s, acts[0]);
      hide Apply, Enters, Leaves;
      FirstComeFirstServed(lim, s', acts[1..]);
      Regroup(s.mgr.queue, Enters(s, acts[0], s'), Leaves(s, acts[0], s'), s'.mgr.queue,
              Accepted(lim, s', acts[1..]), Taken(lim, s', acts[1..]), Run(lim, s', acts[1..]).mgr.queue);
    }
  }

  lemma Regroup(q: seq<Key>, x: seq<Key>, y: seq<Key>, q': seq<Key>, x': seq<Key>, y': seq<Key>, q'': seq<Key>)
    requires q + x == y + q' && q' + x' == y' + q''
    ensures q + (x + x') == y + y' + q''
  {
    assert q + (x + x') == (q + x) + x' == y + (q' + x');
  }

  lemma QueueStep(lim: Limits, s: System, a: Action)
    requires !a.DoRestart?
    ensures var s' := Apply(lim, s, a); s.mgr.queue + Enters(s, a, s') == Leaves(s, a, s') + s'.mgr.queue
  {
    hide Prune, Merge, Touch, UpsertSeen, MarkFetching, MarkFetchFailed, MarkComplete, NextAttempt, MayFetch;
  }
}
