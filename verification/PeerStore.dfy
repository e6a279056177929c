/** The store of announced peers: an ordered dictionary of ordered dictionaries, both bounded and expiring. */
module PeerStores {
  import opened Endpoints
  import opened Lru

  datatype Entry = Entry(key: nat, peers: Cache<Endpoint>)

  datatype Limits = Limits(ttl: int, maxInfohashes: nat, maxPeers: nat) {
    predicate Valid() { 0 < maxInfohashes && 0 < maxPeers && 0 < ttl }
  }

  /** One call of `add`: the clock is read once to prune and once more to stamp. */
  datatype Announcement = Announcement(key: nat, endpoint: Endpoint, pruned: int, stamped: int)

  // ---- What the log of announcements says ----

  function KeyLog(log: seq<Announcement>): (r: Cache<nat>)
    ensures |r| == |log| && forall i :: 0 <= i < |log| ==> r[i] == (log[i].key, log[i].stamped)
  {
    seq(|log|, i requires 0 <= i < |log| => (log[i].key, log[i].stamped))
  }

  /** Announcements of `key` since it was last absent when announced. */
  ghost function Residence(lim: Limits, log: seq<Announcement>, key: nat): Cache<Endpoint> {
    if log == [] then []
    else
      var before, a := log[..|log| - 1], log[|log| - 1];
      if a.key != key then Residence(lim, before, key)
      else
        (if Alive(KeyLog(before), key, a.pruned - lim.ttl, lim.maxInfohashes) then Residence(lim, before, key) else [])
        + [(a.endpoint, a.stamped)]
  }

  /** The clock never runs backwards, and `latest` is at or after its last reading. */
  ghost predicate Timely(log: seq<Announcement>, latest: int) {
    && (forall i :: 0 <= i < |log| ==> log[i].pruned <= log[i].stamped <= latest)
    && (forall i, j :: 0 <= i < j < |log| ==> log[i].stamped <= log[j].pruned)
  }

  lemma TimelyLater(log: seq<Announcement>, latest: int, now: int)
    requires Timely(log, latest) && latest <= now
    ensures Timely(log, now)
  {
  }

  lemma {:induction false} ResidenceTimes(lim: Limits, log: seq<Announcement>, latest: int, key: nat)
    requires Timely(log, latest)
    ensures forall i :: 0 <= i < |Residence(lim, log, key)| ==> Residence(lim, log, key)[i].1 <= latest
    decreases |log|
  {
    if log != [] {
      ResidenceTimes(lim, log[..|log| - 1], latest, key);
    }
  }

  lemma KeyLogAppend(log: seq<Announcement>, a: Announcement)
    ensures KeyLog(log + [a]) == KeyLog(log) + [(a.key, a.stamped)]
  {
  }

  lemma ResidenceAppend(lim: Limits, log: seq<Announcement>, a: Announcement, key: nat)
    ensures a.key != key ==> Residence(lim, log + [a], key) == Residence(lim, log, key)
    ensures Residence(lim, log + [a], a.key)
         == (if Alive(KeyLog(log), a.key, a.pruned - lim.ttl, lim.maxInfohashes) then Residence(lim, log, a.key)
             else [])
            + [(a.endpoint, a.stamped)]
  {
    assert (log + [a])[..|log|] == log;
  }

  // ---- What the store says ----

  ghost predicate NonEmpty(store: seq<Entry>) {
    forall i :: 0 <= i < |store| ==> store[i].peers != []
  }

  /** Every key with the time its last peer was stamped. */
  ghost function Outer(store: seq<Entry>): (r: Cache<nat>)
    requires NonEmpty(store)
    ensures |r| == |store|
    ensures forall i :: 0 <= i < |store| ==> r[i] == (store[i].key, store[i].peers[|store[i].peers| - 1].1)
  {
    seq(|store|, i requires 0 <= i < |store| => (store[i].key, store[i].peers[|store[i].peers| - 1].1))
  }

  /** The store agrees with the log: both levels are exactly what the log says is alive at `cutoff`. */
  ghost predicate Agrees(lim: Limits, store: seq<Entry>, log: seq<Announcement>, cutoff: int) {
    && NonEmpty(store)
    && Exact(Outer(store), KeyLog(log), cutoff, lim.maxInfohashes)
    && forall i :: 0 <= i < |store| ==>
         Exact(store[i].peers, Residence(lim, log, store[i].key), cutoff, lim.maxPeers)
  }

  // ---- Pruning ----

  /** Remove expired peers, then the keys left without any. */
  function Pruned(store: seq<Entry>, cutoff: int): seq<Entry> {
    if store == [] then []
    else
      var peers := Expire(store[0].peers, cutoff);
      (if peers == [] then [] else [Entry(store[0].key, peers)]) + Pruned(store[1..], cutoff)
  }

  /** Times that never decrease end with the largest, so a key goes exactly when its last stamp has expired. */
  lemma {:induction false} ExpireLast<K>(s: Cache<K>, cutoff: int)
    requires s != [] && forall i :: 0 <= i < |s| ==> s[i].1 <= s[|s| - 1].1
    ensures Expire(s, cutoff) == [] <==> s[|s| - 1].1 < cutoff
    ensures Expire(s, cutoff) != [] ==> Expire(s, cutoff)[|Expire(s, cutoff)| - 1] == s[|s| - 1]
    decreases |s|
  {
    if |s| > 1 {
      assert s[1..][|s| - 2] == s[|s| - 1];
      ExpireLast(s[1..], cutoff);
    } else {
      assert Expire(s[1..], cutoff) == [];
    }
  }

  lemma LastIsLatest<K(!new)>(s: Cache<K>, log: Cache<K>, cutoff: int, cap: nat)
    requires Exact(s, log, cutoff, cap) && s != []
    ensures forall i :: 0 <= i < |s| ==> s[i].1 <= s[|s| - 1].1
  {
    forall i | 0 <= i < |s| - 1 ensures s[i].1 <= s[|s| - 1].1 {
      LaterTime(log, s[i].0, s[|s| - 1].0);
    }
  }

  ghost predicate Sorted<K>(s: Cache<K>) {
    forall i :: 0 <= i < |s| ==> s[i].1 <= s[|s| - 1].1
  }

  lemma OuterCons(e: Entry, rest: seq<Entry>)
    requires e.peers != [] && NonEmpty(rest)
    ensures NonEmpty([e] + rest) && Outer([e] + rest) == [(e.key, e.peers[|e.peers| - 1].1)] + Outer(rest)
  {
  }

  lemma {:induction false} PrunedOuter(store: seq<Entry>, cutoff: int)
    requires NonEmpty(store) && forall i :: 0 <= i < |store| ==> Sorted(store[i].peers)
    ensures NonEmpty(Pruned(store, cutoff)) && Outer(Pruned(store, cutoff)) == Expire(Outer(store), cutoff)
    decreases |store|
  {
    if store == [] {
      assert Outer(store) == [];
    } else {
      hide Outer;
      var e, rest := store[0], Pruned(store[1..], cutoff);
      PrunedOuter(store[1..], cutoff);
      ExpireLast(e.peers, cutoff);
      assert store == [e] + store[1..];
      OuterCons(e, store[1..]);
      var o := (e.key, e.peers[|e.peers| - 1].1);
      assert ([o] + Outer(store[1..]))[1..] == Outer(store[1..]);
      var peers := Expire(e.peers, cutoff);
      if peers != [] {
        OuterCons(Entry(e.key, peers), rest);
      }
    }
  }

  lemma {:induction false} PrunedMember(store: seq<Entry>, cutoff: int, e: Entry)
    requires e in Pruned(store, cutoff)
    ensures exists i :: 0 <= i < |store| && e == Entry(store[i].key, Expire(store[i].peers, cutoff))
    decreases |store|
  {
    if e in Pruned(store[1..], cutoff) {
      PrunedMember(store[1..], cutoff, e);
      var i :| 0 <= i < |store| - 1 && e == Entry(store[1..][i].key, Expire(store[1..][i].peers, cutoff));
      assert e == Entry(store[i + 1].key, Expire(store[i + 1].peers, cutoff));
    } else {
      assert e == Entry(store[0].key, Expire(store[0].peers, cutoff));
    }
  }

  lemma PruneAgrees(lim: Limits, store: seq<Entry>, log: seq<Announcement>, cutoff: int, cutoff': int)
    requires Agrees(lim, store, log, cutoff) && cutoff <= cutoff'
    ensures Agrees(lim, Pruned(store, cutoff'), log, cutoff')
  {
    hide Exact, Residence, KeyLog;
    forall i | 0 <= i < |store| ensures Sorted(store[i].peers) {
      LastIsLatest(store[i].peers, Residence(lim, log, store[i].key), cutoff, lim.maxPeers);
    }
    PrunedOuter(store, cutoff');
    ExpireExact(Outer(store), KeyLog(log), cutoff, cutoff', lim.maxInfohashes);
    var r := Pruned(store, cutoff');
    forall q | 0 <= q < |r| ensures Exact(r[q].peers, Residence(lim, log, r[q].key), cutoff', lim.maxPeers) {
      assert r[q] in r;
      PrunedMember(store, cutoff', r[q]);
      var i :| 0 <= i < |store| && r[q] == Entry(store[i].key, Expire(store[i].peers, cutoff'));
      ExpireExact(store[i].peers, Residence(lim, log, store[i].key), cutoff, cutoff', lim.maxPeers);
    }
  }

  // ---- Adding ----

  lemma DistinctStore(lim: Limits, store: seq<Entry>, log: seq<Announcement>, cutoff: int)
    requires Agrees(lim, store, log, cutoff)
    ensures forall i, j :: 0 <= i < j < |store| ==> store[i].key != store[j].key
    ensures |store| <= lim.maxInfohashes
  {
    DistinctEntries(Outer(store), KeyLog(log));
    CacheBounded(Outer(store), KeyLog(log), cutoff, lim.maxInfohashes);
    forall i, j | 0 <= i < j < |store| ensures store[i].key != store[j].key {
      assert Outer(store)[i].0 != Outer(store)[j].0;
    }
  }

  /** The peers a key has before an announcement of it: none if it is absent. */
  function PeersOf(store: seq<Entry>, key: nat): Cache<Endpoint> {
    if store == [] then [] else if store[0].key == key then store[0].peers else PeersOf(store[1..], key)
  }

  function Without(store: seq<Entry>, key: nat): seq<Entry> {
    if store == [] then [] else (if store[0].key == key then [] else [store[0]]) + Without(store[1..], key)
  }

  /** The store after the announcement `a`, the pruning done: the key moves to the end, and a new one may evict the
      oldest. */
  function Added(lim: Limits, store: seq<Entry>, a: Announcement): seq<Entry> {
    var peers := Touch(PeersOf(store, a.key), a.endpoint, a.stamped, lim.maxPeers);
    var kept := Without(store, a.key) + [Entry(a.key, peers)];
    if |kept| > lim.maxInfohashes then kept[1..] else kept
  }

  lemma OuterAppend(store: seq<Entry>, e: Entry)
    requires e.peers != [] && NonEmpty(store)
    ensures NonEmpty(store + [e]) && Outer(store + [e]) == Outer(store) + [(e.key, e.peers[|e.peers| - 1].1)]
  {
  }

  lemma OuterTail(store: seq<Entry>)
    requires store != [] && NonEmpty(store)
    ensures NonEmpty(store[1..]) && Outer(store[1..]) == Outer(store)[1..]
  {
  }

  lemma {:induction false} WithoutOuter(store: seq<Entry>, key: nat)
    requires NonEmpty(store)
    ensures NonEmpty(Without(store, key)) && Outer(Without(store, key)) == Drop(Outer(store), key)
    decreases |store|
  {
    if store == [] {
      assert Outer(store) == [];
    } else {
      hide Outer;
      var e, rest := store[0], Without(store[1..], key);
      WithoutOuter(store[1..], key);
      assert store == [e] + store[1..];
      OuterCons(e, store[1..]);
      var o := (e.key, e.peers[|e.peers| - 1].1);
      assert ([o] + Outer(store[1..]))[1..] == Outer(store[1..]);
      if e.key != key {
        OuterCons(e, rest);
      }
    }
  }

  lemma {:induction false} WithoutMember(store: seq<Entry>, key: nat, e: Entry)
    requires e in Without(store, key)
    ensures e in store && e.key != key
    decreases |store|
  {
    if e in Without(store[1..], key) {
      WithoutMember(store[1..], key, e);
    }
  }

  lemma {:induction false} PeersFound(store: seq<Entry>, key: nat)
    requires NonEmpty(store)
    ensures if Holds(Outer(store), key)
            then exists i :: 0 <= i < |store| && store[i].key == key && PeersOf(store, key) == store[i].peers
            else PeersOf(store, key) == []
    decreases |store|
  {
    if store != [] {
      PeersFound(store[1..], key);
      OuterTail(store);
      if store[0].key == key {
        assert Outer(store)[0].0 == key;
        assert Holds(Outer(store), key);
      } else {
        HoldsTail(Outer(store), key);
        if Holds(Outer(store), key) {
          var i :| 0 <= i < |store| - 1 && store[1..][i].key == key && PeersOf(store[1..], key) == store[1..][i].peers;
          assert store[i + 1].key == key && PeersOf(store, key) == store[i + 1].peers;
        }
      }
    }
  }

  /** The peers of the announced key afterwards are what its residence says, whether it continues or begins here. */
  lemma AddedPeers(lim: Limits, store: seq<Entry>, log: seq<Announcement>, a: Announcement)
    requires lim.Valid() && Agrees(lim, store, log, a.pruned - lim.ttl) && Timely(log, a.pruned)
             && a.pruned <= a.stamped
    ensures Exact(Touch(PeersOf(store, a.key), a.endpoint, a.stamped, lim.maxPeers),
                  Residence(lim, log + [a], a.key), a.pruned - lim.ttl, lim.maxPeers)
  {
    hide Exact, Residence, KeyLog, Touch, Alive;
    var cutoff := a.pruned - lim.ttl;
    var before := PeersOf(store, a.key);
    assert Holds(Outer(store), a.key) <==> Alive(KeyLog(log), a.key, cutoff, lim.maxInfohashes) by {
      HoldsIsAlive(Outer(store), KeyLog(log), cutoff, lim.maxInfohashes, a.key);
    }
    PeersFound(store, a.key);
    ResidenceAppend(lim, log, a, a.key);
    var inner := if Holds(Outer(store), a.key) then Residence(lim, log, a.key) else [];
    ResidenceTimes(lim, log, a.pruned, a.key);
    EmptyExact<Endpoint>(cutoff, lim.maxPeers);
    assert Exact(before, inner, cutoff, lim.maxPeers);
    TouchExact(before, inner, cutoff, lim.maxPeers, a.endpoint, a.stamped);
  }

  lemma AddedOuter(lim: Limits, store: seq<Entry>, log: seq<Announcement>, a: Announcement)
    requires lim.Valid() && Agrees(lim, store, log, a.pruned - lim.ttl)
    ensures NonEmpty(Added(lim, store, a))
            && Outer(Added(lim, store, a)) == Touch(Outer(store), a.key, a.stamped, lim.maxInfohashes)
  {
    hide Exact, Residence, KeyLog, Outer, Drop;
    var peers := Touch(PeersOf(store, a.key), a.endpoint, a.stamped, lim.maxPeers);
    assert peers != [] && peers[|peers| - 1] == (a.endpoint, a.stamped);
    WithoutOuter(store, a.key);
    OuterAppend(Without(store, a.key), Entry(a.key, peers));
    OuterTail(Without(store, a.key) + [Entry(a.key, peers)]);
  }

  lemma AddAgrees(lim: Limits, store: seq<Entry>, log: seq<Announcement>, a: Announcement)
    requires lim.Valid() && Agrees(lim, store, log, a.pruned - lim.ttl) && Timely(log, a.pruned)
             && a.pruned <= a.stamped
    ensures Agrees(lim, Added(lim, store, a), log + [a], a.pruned - lim.ttl)
    ensures Timely(log + [a], a.stamped)
  {
    hide Exact, Residence, Touch;
    var cutoff, r := a.pruned - lim.ttl, Added(lim, store, a);
    AddedOuter(lim, store, log, a);
    AddedPeers(lim, store, log, a);
    KeyLogAppend(log, a);
    TouchExact(Outer(store), KeyLog(log), cutoff, lim.maxInfohashes, a.key, a.stamped);
    forall q | 0 <= q < |r| ensures Exact(r[q].peers, Residence(lim, log + [a], r[q].key), cutoff, lim.maxPeers) {
      var kept := Without(store, a.key);
      assert r[q] in kept || r[q] == Entry(a.key, Touch(PeersOf(store, a.key), a.endpoint, a.stamped, lim.maxPeers));
      if r[q] in kept {
        WithoutMember(store, a.key, r[q]);
        ResidenceAppend(lim, log, a, r[q].key);
      }
    }
  }

  // ---- The store itself ----

  /** The key is alive, and within its current residence so is the peer. */
  ghost predicate StoredPeer(lim: Limits, log: seq<Announcement>, key: nat, e: Endpoint, cutoff: int) {
    Alive(KeyLog(log), key, cutoff, lim.maxInfohashes) && Alive(Residence(lim, log, key), e, cutoff, lim.maxPeers)
  }

  lemma {:induction false} EntryAt(store: seq<Entry>, key: nat, i: nat)
    requires i < |store| && store[i].key == key && forall j, k :: 0 <= j < k < |store| ==> store[j].key != store[k].key
    ensures PeersOf(store, key) == store[i].peers && Without(store, key) == store[..i] + store[i + 1..]
    decreases i
  {
    if i == 0 {
      NoEntry(store[1..], key);
    } else {
      EntryAt(store[1..], key, i - 1);
      assert [store[0]] + store[1..][..i - 1] == store[..i];
    }
  }

  lemma {:induction false} NoEntry(store: seq<Entry>, key: nat)
    requires forall i :: 0 <= i < |store| ==> store[i].key != key
    ensures PeersOf(store, key) == [] && Without(store, key) == store
    decreases |store|
  {
    if store != [] { NoEntry(store[1..], key); }
  }

  method ExpirePeers(peers: Cache<Endpoint>, cutoff: int) returns (r: Cache<Endpoint>)
    ensures r == Expire(peers, cutoff)
  {
    r := [];
    for i := 0 to |peers|
      invariant r + Expire(peers[i..], cutoff) == Expire(peers, cutoff)
    {
      if peers[i].1 >= cutoff { r := r + [peers[i]]; }
    }
  }

  method PruneEntries(store: seq<Entry>, cutoff: int) returns (kept: seq<Entry>)
    ensures kept == Pruned(store, cutoff)
  {
    kept := [];
    for i := 0 to |store|
      invariant kept + Pruned(store[i..], cutoff) == Pruned(store, cutoff)
    {
      assert store[i..][1..] == store[i + 1..];
      var peers := ExpirePeers(store[i].peers, cutoff);
      if peers != [] { kept := kept + [Entry(store[i].key, peers)]; }
    }
  }

  method MoveToEnd(peers: Cache<Endpoint>, endpoint: Endpoint, now: int) returns (r: Cache<Endpoint>)
    ensures r == Drop(peers, endpoint) + [(endpoint, now)]
  {
    r := [];
    for i := 0 to |peers|
      invariant r + Drop(peers[i..], endpoint) == Drop(peers, endpoint)
    {
      if peers[i].0 != endpoint { r := r + [peers[i]]; }
    }
    r := r + [(endpoint, now)];
  }

  class PeerStore {
    const lim: Limits
    var store: seq<Entry>
    ghost var log: seq<Announcement>
    ghost var cutoff: int
    ghost var latest: int

    ghost predicate Valid()
      reads this
    {
      lim.Valid() && Agrees(lim, store, log, cutoff) && Timely(log, latest) && cutoff <= latest - lim.ttl
    }

    constructor (lim: Limits, ghost now: int)
      requires lim.Valid()
      ensures Valid() && this.lim == lim && log == [] && latest == now
    {
      this.lim, store, log, cutoff, latest := lim, [], [], now - lim.ttl, now;
    }

    /** `_prune` */
    method Prune(now: int)
      requires Valid() && latest <= now
      modifies this
      ensures Valid() && log == old(log) && latest == now && cutoff == now - lim.ttl
    {
      hide Agrees, Timely, Pruned;
      PruneAgrees(lim, store, log, cutoff, now - lim.ttl);
      TimelyLater(log, latest, now);
      var kept := PruneEntries(store, now - lim.ttl);
      store, cutoff, latest := kept, now - lim.ttl, now;
    }

    method IndexOf(key: nat) returns (i: nat)
      ensures i <= |store| && (i < |store| ==> store[i].key == key) && forall j :: 0 <= j < i ==> store[j].key != key
    {
      i := 0;
      while i < |store| && store[i].key != key
        invariant i <= |store| && forall j :: 0 <= j < i ==> store[j].key != key
      {
        i := i + 1;
      }
    }

    method Add(key: nat, endpoint: Endpoint, now: int, later: int)
      requires Valid() && latest <= now <= later
      modifies this
      ensures Valid() && log == old(log) + [Announcement(key, endpoint, now, later)]
      ensures latest == later && cutoff == now - lim.ttl
    {
      Prune(now);
      ghost var a := Announcement(key, endpoint, now, later);
      AddAgrees(lim, store, log, a);
      Place(key, endpoint, later, a);
      log, latest := log + [a], later;
    }

    /** What `add` does after pruning. */
    method Place(key: nat, endpoint: Endpoint, later: int, ghost a: Announcement)
      requires Valid() && cutoff == a.pruned - lim.ttl && a.key == key && a.endpoint == endpoint && a.stamped == later
      modifies this`store
      ensures store == Added(lim, old(store), a)
    {
      DistinctStore(lim, store, log, cutoff);
      PeersBounded(lim, store, log, a);
      hide Agrees, Timely;
      var i := IndexOf(key);
      var peers: Cache<Endpoint> := [];
      if i == |store| {
        NoEntry(store, key);
        if |store| >= lim.maxInfohashes { store := store[1..]; }
      } else {
        EntryAt(store, key, i);
        peers := store[i].peers;
        store := store[..i] + store[i + 1..];
      }
      peers := MoveToEnd(peers, endpoint, later);
      while |peers| > lim.maxPeers
        invariant peers == Drop(PeersOf(old(store), key), endpoint) + [(endpoint, later)]
               || peers == Touch(PeersOf(old(store), key), endpoint, later, lim.maxPeers)
        decreases |peers|
      {
        peers := peers[1..];
      }
      store := store + [Entry(key, peers)];
    }

    /** `get`: the endpoints alive in the current residence of the key, the least recently announced first. */
    method Get(key: nat, now: int) returns (r: seq<Endpoint>)
      requires Valid() && latest <= now
      modifies this
      ensures Valid() && log == old(log) && latest == now && cutoff == now - lim.ttl
      ensures forall e :: e in r <==> StoredPeer(lim, log, key, e, cutoff)
      ensures ByLastUse(r, Residence(lim, log, key))
    {
      Prune(now);
      var i := IndexOf(key);
      HoldsIsAlive(Outer(store), KeyLog(log), cutoff, lim.maxInfohashes, key);
      r := [];
      if i == |store| {
        assert !Holds(Outer(store), key);
      } else {
        assert Outer(store)[i].0 == key;
        r := KeysInOrder(store[i].peers, Residence(lim, log, key), cutoff, lim.maxPeers);
      }
    }

    method Keys(now: int) returns (r: seq<nat>)
      requires Valid() && latest <= now
      modifies this
      ensures Valid() && log == old(log) && latest == now && cutoff == now - lim.ttl
      ensures forall k :: k in r <==> Alive(KeyLog(log), k, cutoff, lim.maxInfohashes)
      ensures ByLastUse(r, KeyLog(log)) && |r| <= lim.maxInfohashes
    {
      Prune(now);
      r := [];
      for i := 0 to |store|
        invariant |r| == i && forall j :: 0 <= j < i ==> r[j] == store[j].key
      {
        r := r + [store[i].key];
      }
      OrderedKeys(Outer(store), KeyLog(log), cutoff, lim.maxInfohashes, r);
      CacheBounded(Outer(store), KeyLog(log), cutoff, lim.maxInfohashes);
    }
  }

  /** Used at some time, each later than the one before it; in particular no key occurs twice. */
  ghost predicate ByLastUse<K>(r: seq<K>, log: Cache<K>) {
    && (forall i :: 0 <= i < |r| ==> Logged(log, r[i]))
    && (forall i, j :: 0 <= i < j < |r| ==> LastIndex(log, r[i]) < LastIndex(log, r[j]))
  }

  lemma OrderedKeys<K(!new)>(s: Cache<K>, log: Cache<K>, cutoff: int, cap: nat, r: seq<K>)
    requires Exact(s, log, cutoff, cap) && |r| == |s| && forall i :: 0 <= i < |s| ==> r[i] == s[i].0
    ensures ByLastUse(r, log) && forall k :: k in r <==> Alive(log, k, cutoff, cap)
  {
    hide Alive, LastIndex, LastTime, InOrder, Logged;
    forall k ensures k in r <==> Alive(log, k, cutoff, cap) {
      if k in r { var i :| 0 <= i < |r| && r[i] == k; assert s[i].0 == k; }
      if Holds(s, k) { var i :| 0 <= i < |s| && s[i].0 == k; assert r[i] == k; }
    }
  }

  method KeysInOrder(s: Cache<Endpoint>, ghost log: Cache<Endpoint>, ghost cutoff: int, ghost cap: nat)
    returns (r: seq<Endpoint>)
    requires Exact(s, log, cutoff, cap)
    ensures ByLastUse(r, log) && forall e :: e in r <==> Alive(log, e, cutoff, cap)
  {
    r := [];
    for i := 0 to |s|
      invariant |r| == i && forall j :: 0 <= j < i ==> r[j] == s[j].0
    {
      r := r + [s[i].0];
    }
    OrderedKeys(s, log, cutoff, cap, r);
  }

  lemma PeersBounded(lim: Limits, store: seq<Entry>, log: seq<Announcement>, a: Announcement)
    requires lim.Valid() && Agrees(lim, store, log, a.pruned - lim.ttl)
    ensures |Drop(PeersOf(store, a.key), a.endpoint)| <= lim.maxPeers
  {
    hide Exact, Residence, KeyLog, Outer, Drop, PeersOf;
    PeersFound(store, a.key);
    if Holds(Outer(store), a.key) {
      var i :| 0 <= i < |store| && store[i].key == a.key && PeersOf(store, a.key) == store[i].peers;
      CacheBounded(store[i].peers, Residence(lim, log, a.key), a.pruned - lim.ttl, lim.maxPeers);
    }
    DropShrinks(PeersOf(store, a.key), a.endpoint);
  }
}
