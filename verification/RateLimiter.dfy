/** The query rate limiter: a token bucket shared by callers of three priorities.

    `acquire` is modelled by its three atomic steps: coming in, one attempt under the lock, and being cancelled
    between attempts. A granted attempt leaves at once. */
module RateLimiter {

  datatype Config = Config(rate: real, capacity: real) {
    predicate Valid() { rate > 0.0 && capacity >= 1.0 }
  }

  /** `waiters[p]` callers of priority `p` are inside `acquire`; 0 is the most urgent. */
  datatype State = State(tokens: real, updated: real, waiters: seq<nat>)

  datatype Action = Enter(priority: int) | Attempt(priority: int, now: real) | Cancel(priority: int)

  /** The nearest of the three priorities. */
  function Clamp(priority: int): (p: nat)
    ensures p < 3 && (0 <= priority <= 2 ==> p == priority)
    ensures (priority < 0 ==> p == 0) && (priority > 2 ==> p == 2)
  {
    if priority > 2 then 2 else if priority < 0 then 0 else priority
  }

  function Initial(cfg: Config, now: real): State {
    State(cfg.capacity, now, [0, 0, 0])
  }

  /** What the rate brings in over a stretch of time. */
  function Earned(cfg: Config, stretch: real): real {
    stretch * cfg.rate
  }

  lemma EarnedIs(cfg: Config, stretch: real)
    ensures Earned(cfg, stretch) == cfg.rate * stretch
  {
  }

  lemma EarnedAdds(cfg: Config, a: real, b: real)
    ensures Earned(cfg, a) + Earned(cfg, b) == Earned(cfg, a + b)
  {
  }

  lemma EarnedGrows(cfg: Config, a: real, b: real)
    requires cfg.Valid() && a <= b
    ensures Earned(cfg, a) <= Earned(cfg, b) && Earned(cfg, 0.0) == 0.0
  {
    EarnedAdds(cfg, a, b - a);
    assert (b - a) * cfg.rate >= 0.0;
  }

  function Refilled(cfg: Config, s: State, now: real): real {
    var t := s.tokens + Earned(cfg, now - s.updated);
    if cfg.capacity <= t then cfg.capacity else t
  }

  predicate HigherWaiting(s: State, p: nat)
    requires |s.waiters| == 3 && p < 3
  {
    exists q :: 0 <= q < p && s.waiters[q] > 0
  }

  predicate Granted(cfg: Config, s: State, a: Action)
    requires |s.waiters| == 3
  {
    a.Attempt? && Refilled(cfg, s, a.now) >= 1.0 && !HigherWaiting(s, Clamp(a.priority))
  }

  /** Only a caller inside can attempt or be cancelled, and the clock is monotonic. */
  predicate Possible(s: State, a: Action) {
    && |s.waiters| == 3
    && (!a.Enter? ==> s.waiters[Clamp(a.priority)] > 0)
    && (a.Attempt? ==> s.updated <= a.now)
  }

  function Step(cfg: Config, s: State, a: Action): State
    requires Possible(s, a)
  {
    var p := Clamp(a.priority);
    match a
    case Enter(_) => s.(waiters := s.waiters[p := s.waiters[p] + 1])
    case Cancel(_) => s.(waiters := s.waiters[p := s.waiters[p] - 1])
    case Attempt(_, now) =>
      if Granted(cfg, s, a) then State(Refilled(cfg, s, now) - 1.0, now, s.waiters[p := s.waiters[p] - 1])
      else State(Refilled(cfg, s, now), now, s.waiters)
  }

  // ---- Runs ----

  predicate Runs(cfg: Config, s: State, acts: seq<Action>)
    decreases |acts|
  {
    acts == [] || (Possible(s, acts[0]) && Runs(cfg, Step(cfg, s, acts[0]), acts[1..]))
  }

  function End(cfg: Config, s: State, acts: seq<Action>): State
    requires Runs(cfg, s, acts)
    decreases |acts|
  {
    if acts == [] then s else End(cfg, Step(cfg, s, acts[0]), acts[1..])
  }

  function Grants(cfg: Config, s: State, acts: seq<Action>): nat
    requires Runs(cfg, s, acts)
    decreases |acts|
  {
    if acts == [] then 0
    else (if Granted(cfg, s, acts[0]) then 1 else 0) + Grants(cfg, Step(cfg, s, acts[0]), acts[1..])
  }

  /** How many callers of priority `p` came in and have neither been granted nor cancelled, read off the run alone. */
  function Inside(cfg: Config, s: State, acts: seq<Action>, p: nat): int
    requires Runs(cfg, s, acts)
    decreases |acts|
  {
    if acts == [] then 0
    else
      (if Clamp(acts[0].priority) != p then 0
       else if acts[0].Enter? then 1
       else if acts[0].Cancel? || Granted(cfg, s, acts[0]) then -1
       else 0) + Inside(cfg, Step(cfg, s, acts[0]), acts[1..], p)
  }

  predicate InBounds(cfg: Config, s: State) {
    |s.waiters| == 3 && 0.0 <= s.tokens <= cfg.capacity
  }

  lemma RefillGrows(cfg: Config, s: State, now: real)
    requires cfg.Valid() && InBounds(cfg, s) && s.updated <= now
    ensures s.tokens <= Refilled(cfg, s, now) <= cfg.capacity
    ensures Refilled(cfg, s, now) <= s.tokens + Earned(cfg, now - s.updated)
  {
    EarnedGrows(cfg, 0.0, now - s.updated);
  }

  lemma {:induction false} RunInBounds(cfg: Config, s: State, acts: seq<Action>)
    requires cfg.Valid() && InBounds(cfg, s) && Runs(cfg, s, acts)
    ensures InBounds(cfg, End(cfg, s, acts)) && s.updated <= End(cfg, s, acts).updated
    decreases |acts|
  {
    if acts != [] {
      if acts[0].Attempt? { RefillGrows(cfg, s, acts[0].now); }
      RunInBounds(cfg, Step(cfg, s, acts[0]), acts[1..]);
    }
  }

  lemma FirstStep(cfg: Config, s: State, acts: seq<Action>)
    requires acts != [] && Runs(cfg, s, acts)
    ensures Grants(cfg, s, acts) as real + Step(cfg, s, acts[0]).tokens
         == Grants(cfg, Step(cfg, s, acts[0]), acts[1..]) as real
            + (if acts[0].Attempt? then Refilled(cfg, s, acts[0].now) else s.tokens)
    ensures Step(cfg, s, acts[0]).updated == if acts[0].Attempt? then acts[0].now else s.updated
  {
    hide Refilled;
    var g := if Granted(cfg, s, acts[0]) then 1 else 0;
    assert Grants(cfg, s, acts) == g + Grants(cfg, Step(cfg, s, acts[0]), acts[1..]);
  }

  /** Every token spent was there at the start or came in since. */
  lemma {:induction false} GrantsArePaid(cfg: Config, s: State, acts: seq<Action>)
    requires cfg.Valid() && InBounds(cfg, s) && Runs(cfg, s, acts)
    ensures Grants(cfg, s, acts) as real + End(cfg, s, acts).tokens
         <= s.tokens + Earned(cfg, End(cfg, s, acts).updated - s.updated)
    decreases |acts|
  {
    EarnedGrows(cfg, 0.0, 0.0);
    hide Earned, Refilled;
    if acts != [] {
      var s', e := Step(cfg, s, acts[0]), End(cfg, s, acts);
      FirstStep(cfg, s, acts);
      if acts[0].Attempt? {
        RefillGrows(cfg, s, acts[0].now);
        EarnedAdds(cfg, acts[0].now - s.updated, e.updated - acts[0].now);
        assert acts[0].now - s.updated + (e.updated - acts[0].now) == e.updated - s.updated;
      }
      GrantsArePaid(cfg, s', acts[1..]);
    }
  }

  /** In every window of time, whatever happened before it: at most the burst plus what the rate brings in. */
  lemma {:induction false} WindowBound(cfg: Config, s: State, acts: seq<Action>, from: real, to: real)
    requires cfg.Valid() && InBounds(cfg, s) && Runs(cfg, s, acts) && from <= to
    requires forall i :: 0 <= i < |acts| && acts[i].Attempt? ==> from <= acts[i].now <= to
    ensures Grants(cfg, s, acts) as real <= cfg.capacity + Earned(cfg, to - from)
    decreases |acts|
  {
    hide Earned, Refilled;
    EarnedGrows(cfg, 0.0, to - from);
    if acts != [] {
      var s' := Step(cfg, s, acts[0]);
      FirstStep(cfg, s, acts);
      if acts[0].Attempt? {
        var now := acts[0].now;
        RefillGrows(cfg, s, now);
        GrantsArePaid(cfg, s', acts[1..]);
        RunInBounds(cfg, s', acts[1..]);
        LastUpdate(cfg, s', acts[1..], to);
        var e := End(cfg, s', acts[1..]);
        EarnedGrows(cfg, e.updated - now, to - from);
      } else {
        WindowBound(cfg, s', acts[1..], from, to);
      }
    }
  }

  lemma {:induction false} LastUpdate(cfg: Config, s: State, acts: seq<Action>, to: real)
    requires Runs(cfg, s, acts) && s.updated <= to
    requires forall i :: 0 <= i < |acts| && acts[i].Attempt? ==> acts[i].now <= to
    ensures End(cfg, s, acts).updated <= to
    decreases |acts|
  {
    if acts != [] {
      LastUpdate(cfg, Step(cfg, s, acts[0]), acts[1..], to);
    }
  }

  lemma EveryWindowIsBounded(cfg: Config, start: real, before: seq<Action>, window: seq<Action>, from: real, to: real)
    requires cfg.Valid() && from <= to && Runs(cfg, Initial(cfg, start), before)
    requires Runs(cfg, End(cfg, Initial(cfg, start), before), window)
    requires forall i :: 0 <= i < |window| && window[i].Attempt? ==> from <= window[i].now <= to
    ensures Grants(cfg, End(cfg, Initial(cfg, start), before), window) as real <= cfg.capacity + cfg.rate * (to - from)
  {
    EarnedIs(cfg, to - from);
    hide Earned, Runs, End, Grants;
    RunInBounds(cfg, Initial(cfg, start), before);
    WindowBound(cfg, End(cfg, Initial(cfg, start), before), window, from, to);
  }

  lemma {:induction false} WaitersCount(cfg: Config, s: State, acts: seq<Action>, p: nat)
    requires Runs(cfg, s, acts) && |s.waiters| == 3 && p < 3
    ensures |End(cfg, s, acts).waiters| == 3 && End(cfg, s, acts).waiters[p] == s.waiters[p] + Inside(cfg, s, acts, p)
    decreases |acts|
  {
    if acts != [] {
      WaitersCount(cfg, Step(cfg, s, acts[0]), acts[1..], p);
    }
  }

  /** After any run, an attempt is granted exactly when a token is there and no caller of higher priority is inside. */
  lemma GrantedByPriority(cfg: Config, start: real, acts: seq<Action>, a: Action)
    requires cfg.Valid() && Runs(cfg, Initial(cfg, start), acts)
    requires a.Attempt? && Possible(End(cfg, Initial(cfg, start), acts), a)
    ensures var s := End(cfg, Initial(cfg, start), acts);
            Granted(cfg, s, a) <==>
            && s.tokens + cfg.rate * (a.now - s.updated) >= 1.0
            && forall q :: 0 <= q < Clamp(a.priority) ==> Inside(cfg, Initial(cfg, start), acts, q) == 0
  {
    var s := End(cfg, Initial(cfg, start), acts);
    EarnedIs(cfg, a.now - s.updated);
    assert Refilled(cfg, s, a.now) >= 1.0 <==> s.tokens + cfg.rate * (a.now - s.updated) >= 1.0;
    forall q | 0 <= q < 3 ensures s.waiters[q] == Inside(cfg, Initial(cfg, start), acts, q) {
      WaitersCount(cfg, Initial(cfg, start), acts, q);
    }
    hide Refilled, Inside;
    var p := Clamp(a.priority);
    if HigherWaiting(s, p) {
      var q :| 0 <= q < p && s.waiters[q] > 0;
      assert Inside(cfg, Initial(cfg, start), acts, q) > 0;
    } else {
      forall q | 0 <= q < p ensures Inside(cfg, Initial(cfg, start), acts, q) == 0 {
        assert s.waiters[q] == 0;
      }
    }
  }

  // ---- The burst comes back ----

  /** An attempt fills the bucket up to the capacity at the rate, and takes one token if it is granted; nothing else
      touches the tokens. */
  lemma TokensExactly(cfg: Config, s: State, a: Action)
    requires Possible(s, a)
    ensures var s', level := Step(cfg, s, a), s.tokens + cfg.rate * (if a.Attempt? then a.now - s.updated else 0.0);
            && (!a.Attempt? ==> s'.tokens == s.tokens && s'.updated == s.updated && !Granted(cfg, s, a))
            && (a.Attempt? ==>
                  && s'.updated == a.now
                  && s'.tokens == (if level < cfg.capacity then level else cfg.capacity)
                                  - (if Granted(cfg, s, a) then 1.0 else 0.0))
  {
    if a.Attempt? { EarnedIs(cfg, a.now - s.updated); }
  }

  function Least(a: real, b: real): real {
    if a < b then a else b
  }

  /** Over every run nothing that the rate brings in is lost below the capacity: it was granted or is still there. */
  lemma NothingIsWasted(cfg: Config, s: State, acts: seq<Action>)
    requires cfg.Valid() && InBounds(cfg, s) && Runs(cfg, s, acts)
    ensures var e := End(cfg, s, acts);
            e.tokens + Grants(cfg, s, acts) as real
            >= Least(s.tokens + cfg.rate * (e.updated - s.updated), cfg.capacity)
  {
    hide Earned, Runs, End, Grants;
    AllIsThere(cfg, s, acts);
    var stretch := End(cfg, s, acts).updated - s.updated;
    EarnedIs(cfg, stretch);
    var e := End(cfg, s, acts);
    assert cfg.rate * stretch == cfg.rate * (e.updated - s.updated);
  }

  lemma {:induction false} AllIsThere(cfg: Config, s: State, acts: seq<Action>)
    requires cfg.Valid() && InBounds(cfg, s) && Runs(cfg, s, acts)
    ensures var e := End(cfg, s, acts);
            e.tokens + Grants(cfg, s, acts) as real
            >= Least(s.tokens + Earned(cfg, e.updated - s.updated), cfg.capacity)
    decreases |acts|
  {
    if acts == [] {
      EarnedGrows(cfg, 0.0, 0.0);
    } else {
      hide Runs, End, Grants, Step, Earned, Granted, Refilled, Possible;
      var s', e := Step(cfg, s, acts[0]), End(cfg, s, acts);
      HeadOfRun(cfg, s, acts);
      AllIsThere(cfg, s', acts[1..]);
      RunInBounds(cfg, s', acts[1..]);
      EarnedGrows(cfg, 0.0, e.updated - s'.updated);
      EarnedAdds(cfg, s'.updated - s.updated, e.updated - s'.updated);
      assert s'.updated - s.updated + (e.updated - s'.updated) == e.updated - s.updated;
    }
  }

  /** The first step of a run: what it leaves and grants is what was there and came in, up to the capacity. */
  lemma HeadOfRun(cfg: Config, s: State, acts: seq<Action>)
    requires cfg.Valid() && InBounds(cfg, s) && acts != [] && Runs(cfg, s, acts)
    ensures var s', rest := Step(cfg, s, acts[0]), acts[1..];
            && InBounds(cfg, s') && Runs(cfg, s', rest) && s.updated <= s'.updated
            && End(cfg, s, acts) == End(cfg, s', rest) && Grants(cfg, s, acts) >= Grants(cfg, s', rest)
            && s'.tokens + (Grants(cfg, s, acts) - Grants(cfg, s', rest)) as real
               == Least(s.tokens + Earned(cfg, s'.updated - s.updated), cfg.capacity)
  {
    FirstStep(cfg, s, acts);
    EarnedGrows(cfg, 0.0, 0.0);
    if acts[0].Attempt? { RefillGrows(cfg, s, acts[0].now); }
    hide Earned, HigherWaiting;
  }

  /** k attempts of one priority at one time. */
  function Burst(priority: int, now: real, k: nat): (r: seq<Action>)
    ensures |r| == k && forall i :: 0 <= i < k ==> r[i] == Attempt(priority, now)
  {
    seq(k, _ => Attempt(priority, now))
  }

  /** After an idle time the whole burst is there again: as many callers as the capacity allows and the rate has brought
      in, attempting at one time with nobody of higher priority inside, are all granted. */
  lemma {:induction false} BurstIsGranted(cfg: Config, s: State, priority: int, now: real, k: nat)
    requires cfg.Valid() && InBounds(cfg, s) && s.updated <= now
    requires s.waiters[Clamp(priority)] >= k && forall q :: 0 <= q < Clamp(priority) ==> s.waiters[q] == 0
    requires k as real <= cfg.capacity && k as real <= s.tokens + cfg.rate * (now - s.updated)
    ensures Runs(cfg, s, Burst(priority, now, k)) && Grants(cfg, s, Burst(priority, now, k)) == k
    decreases k
  {
    if k > 0 {
      var a := Attempt(priority, now);
      assert Possible(s, a);
      EarnedIs(cfg, now - s.updated);
      RefillGrows(cfg, s, now);
      assert Granted(cfg, s, a);
      var s' := Step(cfg, s, a);
      assert Burst(priority, now, k)[1..] == Burst(priority, now, k - 1);
      BurstIsGranted(cfg, s', priority, now, k - 1);
    }
  }

  /** Refused for want of a token, a caller that then waits the computed delay undisturbed finds one. */
  lemma DelaySuffices(cfg: Config, s: State, now: real, later: real)
    requires cfg.Valid() && InBounds(cfg, s) && s.updated <= now && Refilled(cfg, s, now) < 1.0
    requires later >= now + (1.0 - Refilled(cfg, s, now)) / cfg.rate
    ensures Refilled(cfg, s.(tokens := Refilled(cfg, s, now), updated := now), later) >= 1.0
  {
    var missing := 1.0 - Refilled(cfg, s, now);
    DivideBack(missing, cfg.rate);
    EarnedGrows(cfg, missing / cfg.rate, later - now);
  }

  lemma DivideBack(x: real, y: real)
    requires y != 0.0
    ensures x / y * y == x
  {
  }

  // ---- The limiter itself ----

  class TokenBucket {
    const cfg: Config
    var tokens: real
    var updated: real
    const waiters: array<nat>

    ghost predicate Valid()
      reads this, waiters
    {
      cfg.Valid() && waiters.Length == 3 && InBounds(cfg, View())
    }

    ghost function View(): State
      reads this, waiters
    {
      State(tokens, updated, waiters[..])
    }

    constructor (cfg: Config, now: real)
      requires cfg.Valid()
      ensures Valid() && fresh(waiters) && this.cfg == cfg && View() == Initial(cfg, now)
    {
      this.cfg, tokens, updated := cfg, cfg.capacity, now;
      waiters := new nat[3](_ => 0);
    }

    method Arrive(priority: int)
      requires Valid()
      modifies waiters
      ensures Valid() && View() == Step(cfg, old(View()), Enter(priority))
    {
      var p := Clamp(priority);
      waiters[p] := waiters[p] + 1;
    }

    method Leave(priority: int)
      requires Valid() && Possible(View(), Cancel(priority))
      modifies waiters
      ensures Valid() && View() == Step(cfg, old(View()), Cancel(priority))
    {
      var p := Clamp(priority);
      waiters[p] := waiters[p] - 1;
    }

    method Try(priority: int, now: real) returns (ok: bool)
      requires Valid() && Possible(View(), Attempt(priority, now))
      modifies this, waiters
      ensures Valid() && View() == Step(cfg, old(View()), Attempt(priority, now))
      ensures ok == Granted(cfg, old(View()), Attempt(priority, now))
    {
      ghost var s := View();
      RefillGrows(cfg, s, now);
      var p := Clamp(priority);
      tokens := tokens + Earned(cfg, now - updated);
      if cfg.capacity < tokens { tokens := cfg.capacity; }
      updated := now;
      assert waiters[..] == s.waiters && tokens == Refilled(cfg, s, now);
      var higher := false;
      for q := 0 to p
        invariant View() == State(Refilled(cfg, s, now), now, s.waiters)
        invariant higher <==> exists i :: 0 <= i < q && waiters[i] > 0
      {
        higher := higher || waiters[q] > 0;
      }
      assert higher <==> HigherWaiting(s, p) by { assert forall i :: 0 <= i < 3 ==> waiters[i] == s.waiters[i]; }
      ok := tokens >= 1.0 && !higher;
      if ok {
        tokens := tokens - 1.0;
        waiters[p] := waiters[p] - 1;
      }
    }
  }
}
