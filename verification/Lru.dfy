/** An ordered dictionary used as a least-recently-used cache whose entries also expire, against the log of
    everything that was ever put into it. */
module Lru {
  import opened Sets

  /** Keys with the time of their last use, oldest first. */
  type Cache<K> = seq<(K, int)>

  function Drop<K(==)>(s: Cache<K>, k: K): Cache<K> {
    if s == [] then [] else (if s[0].0 == k then [] else [s[0]]) + Drop(s[1..], k)
  }

  /** Use `k` at time `t`: it moves to the end, and the oldest entry goes if there are too many. */
  function Touch<K(==)>(s: Cache<K>, k: K, t: int, cap: nat): Cache<K> {
    var d := Drop(s, k) + [(k, t)];
    if |d| > cap then d[1..] else d
  }

  /** Remove what was last used before `cutoff`. */
  function Expire<K>(s: Cache<K>, cutoff: int): Cache<K> {
    if s == [] then [] else (if s[0].1 < cutoff then [] else [s[0]]) + Expire(s[1..], cutoff)
  }

  // ---- The log ----

  ghost predicate Logged<K>(log: Cache<K>, k: K) {
    exists i :: 0 <= i < |log| && log[i].0 == k
  }

  /** The position of the last use of `k`. */
  ghost function LastIndex<K>(log: Cache<K>, k: K): (i: nat)
    requires Logged(log, k)
    ensures i < |log| && log[i].0 == k && forall j :: i < j < |log| ==> log[j].0 != k
    decreases |log|
  {
    var n := |log| - 1;
    if log[n].0 == k then n
    else
      assert Logged(log[..n], k) by {
        var i :| 0 <= i < |log| && log[i].0 == k;
        assert log[..n][i].0 == k;
      }
      LastIndex(log[..n], k)
  }

  ghost function LastTime<K>(log: Cache<K>, k: K): int
    requires Logged(log, k)
  {
    log[LastIndex(log, k)].1
  }

  /** The other keys used since `k` was last used. */
  ghost function Since<K>(log: Cache<K>, k: K): set<K>
    requires Logged(log, k)
  {
    set j | LastIndex(log, k) < j < |log| :: log[j].0
  }

  ghost predicate InOrder<K>(log: Cache<K>) {
    forall i, j :: 0 <= i < j < |log| ==> log[i].1 <= log[j].1
  }

  /** Last used no earlier than the cutoff, and fewer than `cap` other keys used since. */
  ghost predicate Alive<K>(log: Cache<K>, k: K, cutoff: int, cap: nat) {
    Logged(log, k) && LastTime(log, k) >= cutoff && |Since(log, k)| < cap
  }

  predicate Holds<K(==)>(s: Cache<K>, k: K) {
    exists i :: 0 <= i < |s| && s[i].0 == k
  }

  /** Entries carry the time of their last use and are sorted by it; in particular no key occurs twice. */
  ghost predicate Ordered<K>(s: Cache<K>, log: Cache<K>) {
    && (forall i :: 0 <= i < |s| ==> Logged(log, s[i].0) && s[i].1 == LastTime(log, s[i].0))
    && (forall i, j :: 0 <= i < j < |s| ==> LastIndex(log, s[i].0) < LastIndex(log, s[j].0))
  }

  /** The cache is exactly the part of the log that is alive, each key once, in the order of last use. */
  ghost predicate Exact<K(!new)>(s: Cache<K>, log: Cache<K>, cutoff: int, cap: nat) {
    && InOrder(log) && Ordered(s, log)
    && (forall k :: Holds(s, k) <==> Alive(log, k, cutoff, cap))
  }

  lemma EmptyExact<K(!new)>(cutoff: int, cap: nat)
    ensures Exact<K>([], [], cutoff, cap)
  {
  }

  lemma HoldsIsAlive<K(!new)>(s: Cache<K>, log: Cache<K>, cutoff: int, cap: nat, k: K)
    requires Exact(s, log, cutoff, cap)
    ensures Holds(s, k) <==> Alive(log, k, cutoff, cap)
  {
  }

  // ---- Expiry ----

  lemma {:induction false} ExpireContents<K>(s: Cache<K>, cutoff: int)
    ensures forall e :: e in Expire(s, cutoff) <==> e in s && e.1 >= cutoff
    decreases |s|
  {
    forall e ensures e in Expire(s, cutoff) <==> e in s && e.1 >= cutoff {
      ExpireMember(s, cutoff, e);
    }
  }

  lemma {:induction false} ExpireMember<K>(s: Cache<K>, cutoff: int, e: (K, int))
    ensures e in Expire(s, cutoff) <==> e in s && e.1 >= cutoff
    decreases |s|
  {
    if s != [] {
      ExpireMember(s[1..], cutoff, e);
      assert e in s <==> e == s[0] || e in s[1..];
    }
  }

  lemma {:induction false} ExpireOrdered<K>(s: Cache<K>, log: Cache<K>, cutoff: int)
    requires Ordered(s, log)
    ensures Ordered(Expire(s, cutoff), log)
    decreases |s|
  {
    hide LastIndex, LastTime, Logged;
    if s != [] {
      TailOrdered(s, log, 1);
      ExpireOrdered(s[1..], log, cutoff);
      var part := Expire(s[1..], cutoff);
      forall e | e in part ensures e in s[1..] { ExpireMember(s[1..], cutoff, e); }
      PrependOrdered(s, log, part);
    }
  }

  lemma PrependOrdered<K>(s: Cache<K>, log: Cache<K>, part: Cache<K>)
    requires s != [] && Ordered(s, log) && Ordered(part, log) && forall e :: e in part ==> e in s[1..]
    ensures Ordered([s[0]] + part, log)
  {
    hide LastIndex, LastTime, Logged;
    var r := [s[0]] + part;
    forall j | 1 <= j < |r|
      ensures Logged(log, r[0].0) && Logged(log, r[j].0) && LastIndex(log, r[0].0) < LastIndex(log, r[j].0)
    {
      assert part[j - 1] in part;
      var i :| 0 <= i < |s| - 1 && s[1..][i] == part[j - 1];
      assert s[i + 1] == r[j];
    }
  }

  lemma ExpireExact<K(!new)>(s: Cache<K>, log: Cache<K>, cutoff: int, cutoff': int, cap: nat)
    requires Exact(s, log, cutoff, cap) && cutoff <= cutoff'
    ensures Exact(Expire(s, cutoff'), log, cutoff', cap)
  {
    hide LastIndex, Since, InOrder;
    var t := Expire(s, cutoff');
    ExpireOrdered(s, log, cutoff');
    ExpireContents(s, cutoff');
    forall k
      ensures Holds(t, k) <==> Alive(log, k, cutoff', cap)
    {
      if Holds(t, k) {
        var i :| 0 <= i < |t| && t[i].0 == k;
        assert t[i] in t;
        var j :| 0 <= j < |s| && s[j] == t[i];
        assert Holds(s, k);
      }
      if Alive(log, k, cutoff', cap) {
        assert Alive(log, k, cutoff, cap) && Holds(s, k);
        var j :| 0 <= j < |s| && s[j].0 == k;
        assert s[j] in t;
        var i :| 0 <= i < |t| && t[i] == s[j];
      }
    }
  }

  // ---- Use ----

  lemma AppendLog<K>(log: Cache<K>, k: K, t: int, j: K)
    ensures Logged(log + [(k, t)], j) <==> Logged(log, j) || j == k
    ensures Logged(log + [(k, t)], k) && LastIndex(log + [(k, t)], k) == |log|
    ensures Logged(log, j) && j != k ==> LastIndex(log + [(k, t)], j) == LastIndex(log, j)
  {
    var l := log + [(k, t)];
    assert l[|log|].0 == k;
    if Logged(log, j) {
      var i :| 0 <= i < |log| && log[i].0 == j;
      assert l[i].0 == j;
      if j != k {
        var a, b := LastIndex(l, j), LastIndex(log, j);
        assert l[b].0 == j && a < |log|;
        assert log[a].0 == j;
      }
    }
    if Logged(l, j) && j != k {
      var i :| 0 <= i < |l| && l[i].0 == j;
      assert log[i].0 == j;
    }
  }

  lemma AppendSince<K>(log: Cache<K>, k: K, t: int, j: K)
    requires Logged(log, j) && j != k
    ensures Logged(log + [(k, t)], j) && Since(log + [(k, t)], j) == Since(log, j) + {k}
    ensures LastTime(log + [(k, t)], j) == LastTime(log, j)
  {
    var l := log + [(k, t)];
    AppendLog(log, k, t, j);
    forall x ensures x in Since(l, j) <==> x in Since(log, j) || x == k {
      if x in Since(log, j) {
        var i :| LastIndex(log, j) < i < |log| && log[i].0 == x;
        assert l[i].0 == x;
      }
      if x == k { assert l[|log|].0 == x; }
      if x in Since(l, j) && x != k {
        var i :| LastIndex(l, j) < i < |l| && l[i].0 == x;
        assert log[i].0 == x;
      }
    }
  }

  /** What is used after the last use of m was used after the earlier last use of j; and m itself was. */
  lemma SinceNested<K>(log: Cache<K>, j: K, m: K)
    requires Logged(log, j) && Logged(log, m) && LastIndex(log, j) < LastIndex(log, m)
    ensures Since(log, m) + {m} <= Since(log, j) && m !in Since(log, m) && |Since(log, m)| < |Since(log, j)|
  {
    assert log[LastIndex(log, m)].0 == m;
    SubsetSize(Since(log, m) + {m}, Since(log, j));
  }

  lemma LaterTime<K>(log: Cache<K>, j: K, m: K)
    requires InOrder(log) && Logged(log, j) && Logged(log, m) && LastIndex(log, j) < LastIndex(log, m)
    ensures LastTime(log, j) <= LastTime(log, m)
  {
  }

  /** Whatever was used after a cached key is cached too, behind it. */
  lemma SinceCached<K(!new)>(s: Cache<K>, log: Cache<K>, cutoff: int, cap: nat, i: nat, m: K)
    requires Exact(s, log, cutoff, cap) && i < |s| && m in Since(log, s[i].0)
    ensures exists j :: i < j < |s| && s[j].0 == m
  {
    var k := s[i].0;
    assert Holds(s, k);
    var x :| LastIndex(log, k) < x < |log| && log[x].0 == m;
    assert Logged(log, m) && LastIndex(log, m) >= x;
    SinceNested(log, k, m);
    LaterTime(log, k, m);
    assert Alive(log, m, cutoff, cap);
    var j :| 0 <= j < |s| && s[j].0 == m;
    assert LastIndex(log, s[i].0) < LastIndex(log, s[j].0);
  }

  /** So the number of keys used since is the number of entries behind. */
  lemma SinceCount<K(!new)>(s: Cache<K>, log: Cache<K>, cutoff: int, cap: nat, i: nat)
    requires Exact(s, log, cutoff, cap) && i < |s|
    ensures |Since(log, s[i].0)| == |s| - 1 - i
    ensures Since(log, s[i].0) == KeysOf(s[i + 1..])
  {
    var behind := s[i + 1..];
    forall m ensures m in Since(log, s[i].0) <==> m in KeysOf(behind) {
      if m in Since(log, s[i].0) {
        SinceCached(s, log, cutoff, cap, i, m);
        var j :| i < j < |s| && s[j].0 == m;
        assert behind[j - i - 1].0 == m;
      }
      if m in KeysOf(behind) {
        BehindIsSince(s, log, i, m);
      }
    }
    assert Since(log, s[i].0) == KeysOf(behind);
    TailOrdered(s, log, i + 1);
    DistinctKeys(behind, log);
  }

  lemma BehindIsSince<K(!new)>(s: Cache<K>, log: Cache<K>, i: nat, m: K)
    requires Ordered(s, log) && i < |s| && m in KeysOf(s[i + 1..])
    ensures m in Since(log, s[i].0)
  {
    var behind := s[i + 1..];
    var j :| 0 <= j < |behind| && behind[j].0 == m;
    assert s[i + 1 + j].0 == m;
    assert log[LastIndex(log, m)].0 == m;
  }

  lemma TailOrdered<K>(s: Cache<K>, log: Cache<K>, n: nat)
    requires Ordered(s, log) && n <= |s|
    ensures Ordered(s[n..], log)
  {
    hide LastIndex, LastTime, Logged;
    var t := s[n..];
    assert forall i :: 0 <= i < |t| ==> t[i] == s[n + i];
  }

  ghost function KeysOf<K>(s: Cache<K>): set<K> {
    set i | 0 <= i < |s| :: s[i].0
  }

  lemma DistinctEntries<K>(s: Cache<K>, log: Cache<K>)
    requires Ordered(s, log)
    ensures forall i, j :: 0 <= i < j < |s| ==> s[i].0 != s[j].0
  {
  }

  lemma KeysAppend<K>(s: Cache<K>, e: (K, int))
    ensures KeysOf(s + [e]) == KeysOf(s) + {e.0}
  {
    var r := s + [e];
    forall x | x in KeysOf(s) ensures x in KeysOf(r) {
      var i :| 0 <= i < |s| && s[i].0 == x;
      assert r[i].0 == x;
    }
    assert r[|s|].0 == e.0;
  }

  lemma {:induction false} CountKeys<K>(s: Cache<K>)
    requires forall i, j :: 0 <= i < j < |s| ==> s[i].0 != s[j].0
    ensures |KeysOf(s)| == |s|
    decreases |s|
  {
    if s != [] {
      var t, e := s[..|s| - 1], s[|s| - 1];
      CountKeys(t);
      KeysAppend(t, e);
      assert s == t + [e];
    }
  }

  lemma DistinctKeys<K(!new)>(s: Cache<K>, log: Cache<K>)
    requires Ordered(s, log)
    ensures |KeysOf(s)| == |s|
  {
    DistinctEntries(s, log);
    CountKeys(s);
  }

  lemma {:induction false} DropMember<K>(s: Cache<K>, k: K, e: (K, int))
    ensures e in Drop(s, k) <==> e in s && e.0 != k
    decreases |s|
  {
    if s != [] {
      DropMember(s[1..], k, e);
      assert e in s <==> e == s[0] || e in s[1..];
    }
  }

  lemma {:induction false} DropOrdered<K>(s: Cache<K>, log: Cache<K>, k: K)
    requires Ordered(s, log)
    ensures Ordered(Drop(s, k), log)
    decreases |s|
  {
    hide LastIndex, LastTime, Logged, Ordered;
    if s == [] {
      assert Drop(s, k) == s;
    } else {
      TailOrdered(s, log, 1);
      DropOrdered(s[1..], log, k);
      var part := Drop(s[1..], k);
      forall e | e in part ensures e in s[1..] { DropMember(s[1..], k, e); }
      PrependOrdered(s, log, part);
      assert Drop(s, k) == if s[0].0 == k then part else [s[0]] + part;
    }
  }

  lemma DropContents<K>(s: Cache<K>, log: Cache<K>, k: K)
    requires Ordered(s, log)
    ensures Ordered(Drop(s, k), log)
    ensures forall e :: e in Drop(s, k) <==> e in s && e.0 != k
  {
    DropOrdered(s, log, k);
    forall e ensures e in Drop(s, k) <==> e in s && e.0 != k { DropMember(s, k, e); }
  }

  lemma {:induction false} DropAbsent<K>(s: Cache<K>, k: K)
    requires forall i :: 0 <= i < |s| ==> s[i].0 != k
    ensures Drop(s, k) == s
    decreases |s|
  {
    if s != [] {
      DropAbsent(s[1..], k);
    }
  }

  lemma {:induction false} DropShrinks<K>(s: Cache<K>, k: K)
    ensures |Drop(s, k)| <= |s|
    decreases |s|
  {
    if s != [] { DropShrinks(s[1..], k); }
  }

  lemma HoldsTail<K>(s: Cache<K>, k: K)
    requires s != [] && s[0].0 != k
    ensures Holds(s, k) <==> Holds(s[1..], k)
  {
    if Holds(s, k) { var i :| 0 <= i < |s| && s[i].0 == k; assert s[1..][i - 1].0 == k; }
    if Holds(s[1..], k) { var i :| 0 <= i < |s| - 1 && s[1..][i].0 == k; assert s[i + 1].0 == k; }
  }

  lemma {:induction false} DropLength<K>(s: Cache<K>, log: Cache<K>, k: K)
    requires Ordered(s, log)
    ensures |Drop(s, k)| == if Holds(s, k) then |s| - 1 else |s|
    decreases |s|
  {
    if s != [] {
      TailOrdered(s, log, 1);
      DropLength(s[1..], log, k);
      if s[0].0 == k {
        assert Holds(s, k);
        assert forall j :: 0 < j < |s| ==> LastIndex(log, s[0].0) < LastIndex(log, s[j].0);
        DropAbsent(s[1..], k);
      } else {
        HoldsTail(s, k);
      }
    }
  }

  lemma HoldsMember<K>(s: Cache<K>, k: K)
    ensures Holds(s, k) <==> exists e :: e in s && e.0 == k
  {
    if Holds(s, k) { var i :| 0 <= i < |s| && s[i].0 == k; assert s[i] in s; }
    if e :| e in s && e.0 == k { var i :| 0 <= i < |s| && s[i] == e; }
  }

  /** After a use, the entries keep their place in the longer log. */
  lemma UsedOrdered<K(!new)>(s: Cache<K>, log: Cache<K>, k: K, t: int)
    requires Ordered(s, log)
    ensures Ordered(Drop(s, k) + [(k, t)], log + [(k, t)])
  {
    hide Since, Drop;
    DropContents(s, log, k);
    var d0, l := Drop(s, k), log + [(k, t)];
    AppendLog(log, k, t, k);
    forall i | 0 <= i < |d0|
      ensures d0[i].0 != k && Logged(l, d0[i].0) && LastTime(l, d0[i].0) == LastTime(log, d0[i].0)
      ensures LastIndex(l, d0[i].0) == LastIndex(log, d0[i].0) < |log|
    {
      assert d0[i] in d0;
      AppendLog(log, k, t, d0[i].0);
      AppendSince(log, k, t, d0[i].0);
    }
    hide LastIndex, Logged;
    AppendOrdered(d0, log, l, k, t);
  }

  lemma AppendOrdered<K>(d0: Cache<K>, log: Cache<K>, l: Cache<K>, k: K, t: int)
    requires Ordered(d0, log) && Logged(l, k) && LastTime(l, k) == t && LastIndex(l, k) == |log|
    requires forall i :: 0 <= i < |d0| ==> Logged(l, d0[i].0) && LastTime(l, d0[i].0) == d0[i].1
    requires forall i :: 0 <= i < |d0| ==> LastIndex(l, d0[i].0) == LastIndex(log, d0[i].0) < |log|
    ensures Ordered(d0 + [(k, t)], l)
  {
    hide LastIndex, Logged, LastTime;
    var d := d0 + [(k, t)];
    assert forall i :: 0 <= i < |d0| ==> d[i] == d0[i];
  }

  lemma CacheBounded<K(!new)>(s: Cache<K>, log: Cache<K>, cutoff: int, cap: nat)
    requires Exact(s, log, cutoff, cap)
    ensures |s| <= cap
  {
    if s != [] {
      SinceCount(s, log, cutoff, cap, 0);
      assert Holds(s, s[0].0);
    }
  }

  /** Whether another key survives the use of k. */
  lemma Survives<K(!new)>(s: Cache<K>, log: Cache<K>, cutoff: int, cap: nat, k: K, t: int, i: nat)
    requires Exact(s, log, cutoff, cap) && i < |s| && s[i].0 != k && cap > 0
    ensures Alive(log + [(k, t)], s[i].0, cutoff, cap) <==> Holds(s, k) || |s| < cap || i > 0
  {
    var j := s[i].0;
    assert Holds(s, j);
    CacheBounded(s, log, cutoff, cap);
    SinceCount(s, log, cutoff, cap, i);
    AppendSince(log, k, t, j);
    if k in Since(log, j) {
      SinceCached(s, log, cutoff, cap, i, k);
      assert Since(log, j) + {k} == Since(log, j);
      assert Holds(s, k);
    } else {
      assert |Since(log, j) + {k}| == |Since(log, j)| + 1;
      forall q | i < q < |s| ensures s[q].0 != k {
        assert s[i + 1..][q - i - 1].0 in KeysOf(s[i + 1..]);
      }
    }
  }

  lemma TouchExact<K(!new)>(s: Cache<K>, log: Cache<K>, cutoff: int, cap: nat, k: K, t: int)
    requires Exact(s, log, cutoff, cap) && cap > 0 && cutoff <= t && forall i :: 0 <= i < |log| ==> log[i].1 <= t
    ensures Exact(Touch(s, k, t, cap), log + [(k, t)], cutoff, cap)
  {
    var l := log + [(k, t)];
    var d := Drop(s, k) + [(k, t)];
    var r := Touch(s, k, t, cap);
    UsedOrdered(s, log, k, t);
    TailOrdered(d, l, 1);
    DropLength(s, log, k);
    CacheBounded(s, log, cutoff, cap);
    forall j
      ensures Holds(r, j) <==> Alive(l, j, cutoff, cap)
    {
      if j == k {
        AppendLog(log, k, t, k);
        assert Since(l, k) == {};
        assert r[|r| - 1].0 == k;
      } else {
        OtherKey(s, log, cutoff, cap, k, t, j);
      }
    }
  }

  lemma OtherKey<K(!new)>(s: Cache<K>, log: Cache<K>, cutoff: int, cap: nat, k: K, t: int, j: K)
    requires Exact(s, log, cutoff, cap) && cap > 0 && j != k
    ensures Holds(Touch(s, k, t, cap), j) <==> Alive(log + [(k, t)], j, cutoff, cap)
  {
    if Holds(s, j) {
      HeldKey(s, log, cutoff, cap, k, t, j);
    } else {
      AbsentKey(s, log, cutoff, cap, k, t, j);
    }
  }

  /** A use of k evicts nothing if k was cached or there is room, else exactly the oldest entry. */
  lemma TouchContents<K(!new)>(s: Cache<K>, log: Cache<K>, cap: nat, k: K, t: int)
    requires Ordered(s, log) && |s| <= cap
    ensures Touch(s, k, t, cap) == if Holds(s, k) || |s| < cap then Drop(s, k) + [(k, t)] else (s + [(k, t)])[1..]
  {
    DropLength(s, log, k);
    if !Holds(s, k) { DropAbsent(s, k); }
  }

  lemma HeldKey<K(!new)>(s: Cache<K>, log: Cache<K>, cutoff: int, cap: nat, k: K, t: int, j: K)
    requires Exact(s, log, cutoff, cap) && cap > 0 && j != k && Holds(s, j)
    ensures Holds(Touch(s, k, t, cap), j) <==> Alive(log + [(k, t)], j, cutoff, cap)
  {
    hide Alive, Touch, Drop, Logged;
    CacheBounded(s, log, cutoff, cap);
    TouchContents(s, log, cap, k, t);
    var i :| 0 <= i < |s| && s[i].0 == j;
    Survives(s, log, cutoff, cap, k, t, i);
    if Holds(s, k) || |s| < cap {
      KeptKey(s, k, t, i);
    } else {
      EvictionSpares(s, log, k, t, i);
    }
  }

  lemma KeptKey<K>(s: Cache<K>, k: K, t: int, i: nat)
    requires i < |s| && s[i].0 != k
    ensures Holds(Drop(s, k) + [(k, t)], s[i].0)
  {
    DropMember(s, k, s[i]);
    var q :| 0 <= q < |Drop(s, k)| && Drop(s, k)[q] == s[i];
    assert (Drop(s, k) + [(k, t)])[q].0 == s[i].0;
  }

  lemma EvictionSpares<K>(s: Cache<K>, log: Cache<K>, k: K, t: int, i: nat)
    requires Ordered(s, log) && i < |s| && s[i].0 != k
    ensures Holds((s + [(k, t)])[1..], s[i].0) <==> i > 0
  {
    var r := (s + [(k, t)])[1..];
    if i > 0 {
      assert r[i - 1].0 == s[i].0;
    }
    if Holds(r, s[i].0) {
      var q :| 0 <= q < |r| && r[q].0 == s[i].0;
      assert q < |s| - 1 && s[q + 1].0 == s[i].0;
      DistinctEntries(s, log);
    }
  }

  lemma AbsentKey<K(!new)>(s: Cache<K>, log: Cache<K>, cutoff: int, cap: nat, k: K, t: int, j: K)
    requires Exact(s, log, cutoff, cap) && cap > 0 && j != k && !Holds(s, j)
    ensures !Holds(Touch(s, k, t, cap), j) && !Alive(log + [(k, t)], j, cutoff, cap)
  {
    AppendLog(log, k, t, j);
    if Logged(log, j) {
      AppendSince(log, k, t, j);
      SubsetSize(Since(log, j), Since(log + [(k, t)], j));
    }
    DropContents(s, log, k);
    HoldsMember(s, j);
    HoldsMember(Touch(s, k, t, cap), j);
    var d := Drop(s, k) + [(k, t)];
    assert forall e :: e in d ==> e in s || e == (k, t);
    assert forall e :: e in Touch(s, k, t, cap) ==> e in d;
  }
}
