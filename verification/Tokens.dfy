/** Announce tokens under two rotating secrets, and the time window in which a token is accepted.

    A secret is the number of the draw that produced it, so every draw is new; a token is the pair it is
    derived from, so the derivation is injective. */
module Tokens {

  type Secret = nat

  datatype Token = Token(secret: Secret, ip: string)

  /** The two configured durations, in the clock's unit. */
  datatype Times = Times(interval: int, validity: int) {
    predicate Valid() {
      0 < interval && validity <= 2 * interval
    }
  }

  /** `drawn` secrets have been drawn so far. */
  datatype State = State(current: Secret, previous: Secret, currentCreated: int, previousCreated: int, rotated: int,
                         drawn: nat)

  function Initial(now: int): State {
    State(0, 1, now, now, now, 2)
  }

  /** `_rotate_if_due` */
  function Rotate(tm: Times, s: State, now: int): State
    requires tm.Valid()
  {
    var elapsed := now - s.rotated;
    if elapsed < tm.interval then s
    else if elapsed / tm.interval <= 1 then
      State(s.drawn, s.current, now, s.currentCreated, now, s.drawn + 1)
    else
      State(s.drawn + 1, s.drawn, now, now, now, s.drawn + 2)
  }

  function IssueToken(tm: Times, s: State, ip: string, now: int): (State, Token)
    requires tm.Valid()
  {
    var s' := Rotate(tm, s, now);
    (s', Token(s'.current, ip))
  }

  /** `validate` reads the clock twice: `now` to rotate, `later` to compare. */
  function ValidateToken(tm: Times, s: State, ip: string, token: Token, now: int, later: int): (State, bool)
    requires tm.Valid()
  {
    var s' := Rotate(tm, s, now);
    (s', (later - s'.currentCreated <= tm.validity && token == Token(s'.current, ip))
         || (later - s'.previousCreated <= tm.validity && token == Token(s'.previous, ip)))
  }

  class TokenManager {
    const tm: Times
    var current: Secret
    var previous: Secret
    var currentCreated: int
    var previousCreated: int
    var rotated: int
    var drawn: nat

    constructor (tm: Times, now: int)
      ensures this.tm == tm && View() == Initial(now)
    {
      this.tm := tm;
      current, previous, drawn := 0, 1, 2;
      currentCreated, previousCreated, rotated := now, now, now;
    }

    ghost function View(): State
      reads this
    {
      State(current, previous, currentCreated, previousCreated, rotated, drawn)
    }

    method Draw() returns (s: Secret)
      modifies this`drawn
      ensures s == old(drawn) && drawn == old(drawn) + 1
    {
      s := drawn;
      drawn := drawn + 1;
    }

    method RotateIfDue(now: int)
      requires tm.Valid()
      modifies this
      ensures View() == Rotate(tm, old(View()), now)
    {
      var elapsed := now - rotated;
      if elapsed < tm.interval { return; }
      var rotations := if elapsed / tm.interval > 1 then elapsed / tm.interval else 1;
      if rotations == 1 {
        previous := current;
        previousCreated := currentCreated;
      } else {
        previous := Draw();
        previousCreated := now;
      }
      current := Draw();
      currentCreated := now;
      rotated := now;
    }

    method Issue(ip: string, now: int) returns (token: Token)
      requires tm.Valid()
      modifies this
      ensures View() == IssueToken(tm, old(View()), ip, now).0 && token == IssueToken(tm, old(View()), ip, now).1
    {
      RotateIfDue(now);
      token := Token(current, ip);
    }

    method Validate(ip: string, token: Token, now: int, later: int) returns (ok: bool)
      requires tm.Valid()
      modifies this
      ensures View() == ValidateToken(tm, old(View()), ip, token, now, later).0
      ensures ok == ValidateToken(tm, old(View()), ip, token, now, later).1
    {
      RotateIfDue(now);
      if later - currentCreated <= tm.validity && token == Token(current, ip) { return true; }
      ok := later - previousCreated <= tm.validity && token == Token(previous, ip);
    }
  }

  // ---- Runs ----

  datatype Call = CallIssue(ip: string, now: int) | CallValidate(ip: string, token: Token, now: int, later: int)

  function After(tm: Times, s: State, c: Call): State
    requires tm.Valid()
  {
    match c
    case CallIssue(ip, now) => IssueToken(tm, s, ip, now).0
    case CallValidate(ip, token, now, later) => ValidateToken(tm, s, ip, token, now, later).0
  }

  function Run(tm: Times, s: State, cs: seq<Call>): State
    requires tm.Valid()
    decreases |cs|
  {
    if cs == [] then s else Run(tm, After(tm, s, cs[0]), cs[1..])
  }

  /** The clock never goes back: the calls read it in order, from `start` to at most `end`. */
  predicate Ordered(cs: seq<Call>, start: int, end: int)
    decreases |cs|
  {
    if cs == [] then start <= end
    else start <= cs[0].now && Ordered(cs[1..], cs[0].now, end)
  }

  /** The secrets in use are drawn, different, and at most as old as the clock says. */
  predicate Consistent(s: State, now: int) {
    && s.current < s.drawn && s.previous < s.drawn && s.current != s.previous
    && s.rotated == s.currentCreated <= now
    && s.previousCreated <= s.currentCreated
  }

  lemma {:induction false} RunConsistent(tm: Times, s: State, cs: seq<Call>, start: int, end: int)
    requires tm.Valid() && Consistent(s, start) && Ordered(cs, start, end)
    ensures Consistent(Run(tm, s, cs), end)
    decreases |cs|
  {
    if cs != [] {
      RunConsistent(tm, After(tm, s, cs[0]), cs[1..], cs[0].now, end);
    }
  }

  /** Where the secret x, first used at time c, is: current, previous, or gone; it is gone only two intervals later. */
  predicate Tracked(tm: Times, s: State, x: Secret, c: int, now: int) {
    || (s.current == x && s.currentCreated == c)
    || (s.previous == x && s.previousCreated == c && s.current != x && c + tm.interval <= s.currentCreated)
    || Gone(tm, s, x, c, now)
  }

  predicate Gone(tm: Times, s: State, x: Secret, c: int, now: int) {
    s.current != x && s.previous != x && c + 2 * tm.interval <= now
  }

  lemma QuotientTwo(elapsed: int, interval: int)
    requires 0 < interval <= elapsed
    ensures elapsed / interval <= 1 <==> elapsed < 2 * interval
  {
    var q := elapsed / interval;
    assert elapsed == interval * q + elapsed % interval;
    if q >= 2 { assert interval * q >= interval * 2; }
    if q <= 1 { assert interval * q <= interval; }
  }

  lemma RotateTracks(tm: Times, s: State, x: Secret, c: int, before: int, now: int)
    requires tm.Valid() && Consistent(s, before) && before <= now && x < s.drawn && Tracked(tm, s, x, c, before)
    ensures Consistent(Rotate(tm, s, now), now) && x < Rotate(tm, s, now).drawn
            && Tracked(tm, Rotate(tm, s, now), x, c, now)
  {
    if now - s.rotated >= tm.interval { QuotientTwo(now - s.rotated, tm.interval); }
  }

  lemma {:induction false} RunTracks(tm: Times, s: State, cs: seq<Call>, x: Secret, c: int, start: int, end: int)
    requires tm.Valid() && Consistent(s, start) && x < s.drawn && Tracked(tm, s, x, c, start) && Ordered(cs, start, end)
    ensures var t := Run(tm, s, cs); Consistent(t, end) && x < t.drawn && Tracked(tm, t, x, c, end)
    decreases |cs|
  {
    if cs != [] {
      RotateTracks(tm, s, x, c, start, cs[0].now);
      RunTracks(tm, After(tm, s, cs[0]), cs[1..], x, c, cs[0].now, end);
    }
  }

  /** The acceptance window, over every sequence of calls since the manager was made. A token issued at t, presented
      by the same address after any calls in between, is accepted up to t + (validity - interval) and rejected
      after t + validity, however many rotations were missed; less than two intervals after its secret was
      made it is accepted exactly while that secret is no older than the validity. No other address can use it. */
  lemma AcceptanceWindow(tm: Times, start: int, earlier: seq<Call>, before: int, ip: string, t: int, cs: seq<Call>,
                         now: int, later: int)
    requires tm.Valid() && Ordered(earlier, start, before) && before <= t && Ordered(cs, t, now) && now <= later
    ensures var (s1, token) := IssueToken(tm, Run(tm, Initial(start), earlier), ip, t);
            var (_, ok) := ValidateToken(tm, Run(tm, s1, cs), ip, token, now, later);
            && (later <= t + (tm.validity - tm.interval) ==> ok)
            && (later > t + tm.validity ==> !ok)
            && (now < s1.currentCreated + 2 * tm.interval ==> (ok <==> later <= s1.currentCreated + tm.validity))
            && t - tm.interval < s1.currentCreated <= t
            && forall ip' :: ip' != ip ==> !ValidateToken(tm, Run(tm, s1, cs), ip', token, now, later).1
  {
    var s := Run(tm, Initial(start), earlier);
    RunConsistent(tm, Initial(start), earlier, start, before);
    var (s1, token) := IssueToken(tm, s, ip, t);
    var x, c := s1.current, s1.currentCreated;
    if t - s.rotated >= tm.interval { QuotientTwo(t - s.rotated, tm.interval); }
    RunTracks(tm, s1, cs, x, c, t, now);
    RotateTracks(tm, Run(tm, s1, cs), x, c, now, now);
  }
}
