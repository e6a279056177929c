/** Writing the routing table out at shutdown and reading it back at the next start. */
module Snapshots {
  import opened Wrappers
  import opened Bytes
  import opened Sets
  import opened XorMetric
  import opened Tilings
  import opened RoutingModel
  import opened RoutingProperties
  import opened Nearest

  /** A snapshot line; a field is None when it is absent or does not convert. */
  datatype Record = Record(event: string, nodeId: Option<bytes>, ip: Option<string>, port: Option<int>,
                           state: Option<NodeState>)

  function HeaderRecord(): Record {
    Record("header", None, None, None, None)
  }

  function ContactRecord(p: Params, c: ContactInfo, now: int): Record {
    Record("contact", Some(ToBytes(c.id, p.bits / 8)), Some(c.ip), Some(c.port), Some(c.State(p, now)))
  }

  function ContactRecords(p: Params, cs: seq<ContactInfo>, now: int): (r: seq<Record>)
    ensures |r| == |cs|
    ensures forall i :: 0 <= i < |cs| ==> r[i] == ContactRecord(p, cs[i], now)
  {
    seq(|cs|, i requires 0 <= i < |cs| => ContactRecord(p, cs[i], now))
  }

  function SnapshotRecords(p: Params, bs: Table, now: int): seq<Record> {
    [HeaderRecord()] + ContactRecords(p, AllContacts(bs), now)
  }

  function Unverified(id: nat, ip: string, port: int, now: int): Sighting {
    Sighting(id, ip, port, false, false, false, None, now)
  }

  /** One round of the loop in `restore_contacts`. */
  function RestoreOne(p: Params, bs: Table, r: Record, now: int): Table
    requires Inv(p, bs)
  {
    if r.event != "contact" || r.nodeId.None? || r.ip.None? || r.port.None? then bs
    else if 8 * |r.nodeId.value| != p.bits then bs
    else
      FromBytesRange(r.nodeId.value);
      Observe(p, bs, Unverified(FromBytes(r.nodeId.value), r.ip.value, r.port.value, now)).0
  }

  lemma InvRestoreOne(p: Params, bs: Table, r: Record, now: int)
    requires Inv(p, bs)
    ensures Inv(p, RestoreOne(p, bs, r, now))
  {
    if r.nodeId.Some? && r.ip.Some? && r.port.Some? && 8 * |r.nodeId.value| == p.bits {
      FromBytesRange(r.nodeId.value);
      InvObserve(p, bs, Unverified(FromBytes(r.nodeId.value), r.ip.value, r.port.value, now));
    }
  }

  /** `times[i]` is the clock reading while record i is restored. */
  function Restore(p: Params, bs: Table, rs: seq<Record>, times: seq<int>): (r: Table)
    requires Inv(p, bs) && |times| == |rs|
    ensures Inv(p, r)
    decreases |rs|
  {
    if rs == [] then bs
    else
      var n := |rs| - 1;
      var before := Restore(p, bs, rs[..n], times[..n]);
      InvRestoreOne(p, before, rs[n], times[n]);
      RestoreOne(p, before, rs[n], times[n])
  }

  /** A new table that is fed the records of a snapshot. */
  function Restart(p: Params, start: int, rs: seq<Record>, times: seq<int>): (r: Table)
    requires p.Valid() && |times| == |rs|
    ensures Inv(p, r)
  {
    InvFresh(p, start);
    Restore(p, Fresh(p, start), rs, times)
  }

  // ---- What a restored table looks like ----

  ghost function Endpoints(bs: Table): set<(nat, string, int)> {
    set b, c | b in bs && c in b.contacts :: (c.id, c.ip, c.port)
  }

  ghost function KnownIds(bs: Table): set<nat> {
    set b, c | b in bs && c in b.contacts :: c.id
  }

  ghost predicate Plain(c: ContactInfo) {
    c.failures == 0 && c.lastResponse == None && !c.everResponded && c.lastQuery == None && !c.readOnly
  }

  ghost predicate Unproven(bs: Table) {
    && (forall c :: Holds(bs, c) ==> Plain(c))
    && (forall b :: b in bs ==> b.replacements == [])
  }

  /** The number of identifiers closer than 2^e to the local one. */
  ghost function NearCount(ids: set<nat>, local: nat, e: nat): nat {
    |NearSet(ids, local, e)|
  }

  ghost function NearSet(ids: set<nat>, local: nat, e: nat): set<nat> {
    set x | x in ids && Xor(x, local) < Pow2(e)
  }

  /** The local bucket is as wide as it can be with at most K contacts. */
  ghost predicate Coarsest(p: Params, bs: Table)
    requires Inv(p, bs)
  {
    LocalExponent(p, bs) == p.bits || NearCount(KnownIds(bs), p.local, LocalExponent(p, bs) + 1) > K
  }

  lemma HoldsKnown(bs: Table, c: ContactInfo)
    requires Holds(bs, c)
    ensures c.id in KnownIds(bs) && (c.id, c.ip, c.port) in Endpoints(bs)
  {
    var k :| 0 <= k < |bs| && c in bs[k].contacts;
    assert bs[k] in bs;
  }

  lemma KnownHolds(bs: Table, id: nat)
    ensures id in KnownIds(bs) <==> Known(bs, id)
    ensures id in KnownIds(bs) <==> exists c :: Holds(bs, c) && c.id == id
  {
    if id in KnownIds(bs) {
      var b, c :| b in bs && c in b.contacts && c.id == id;
      var k :| 0 <= k < |bs| && bs[k] == b;
      assert Holds(bs, c);
      assert id in Ids(b.contacts);
    }
    if Known(bs, id) {
      var b :| b in bs && id in Ids(b.contacts);
    }
    if c :| Holds(bs, c) && c.id == id {
      HoldsKnown(bs, c);
    }
  }

  lemma EndpointHolds(bs: Table, e: (nat, string, int))
    requires e in Endpoints(bs)
    ensures exists c :: Holds(bs, c) && (c.id, c.ip, c.port) == e
  {
    var b, c :| b in bs && c in b.contacts && (c.id, c.ip, c.port) == e;
    var k :| 0 <= k < |bs| && bs[k] == b;
    assert Holds(bs, c);
  }

  lemma SameHoldsSameEndpoints(bs: Table, bs': Table)
    requires forall c :: Holds(bs, c) <==> Holds(bs', c)
    ensures Endpoints(bs) == Endpoints(bs') && KnownIds(bs) == KnownIds(bs')
  {
    forall e ensures e in Endpoints(bs) <==> e in Endpoints(bs') {
      if e in Endpoints(bs) {
        EndpointHolds(bs, e);
        var c :| Holds(bs, c) && (c.id, c.ip, c.port) == e;
        HoldsKnown(bs', c);
      }
      if e in Endpoints(bs') {
        EndpointHolds(bs', e);
        var c :| Holds(bs', c) && (c.id, c.ip, c.port) == e;
        HoldsKnown(bs, c);
      }
    }
    forall x ensures x in KnownIds(bs) <==> x in KnownIds(bs') {
      KnownHolds(bs, x);
      KnownHolds(bs', x);
    }
  }

  // ---- No bucket overflows while restoring ----

  /** A bucket of the restored table that covers the same range as one of the original table is not full
      while some identifier of that range is still to come. */
  lemma RoomFor(p: Params, orig: Table, m: nat, b: BucketInfo, id: nat)
    requires Inv(p, orig) && m < |orig| && b.Range() == orig[m].Range()
    requires GoodBucket(p, b) && Ids(b.contacts) <= KnownIds(orig)
    requires p.Foreign(id) && id in KnownIds(orig) && b.Has(id) && id !in Ids(b.contacts)
    ensures |b.contacts| < K
  {
    assert orig[m] in orig;
    forall x | x in Ids(b.contacts) + {id}
      ensures x in Ids(orig[m].contacts)
    {
      KnownHolds(orig, x);
      var b' :| b' in orig && x in Ids(b'.contacts);
      var j :| 0 <= j < |orig| && orig[j] == b';
      assert b.Has(x) && b'.Has(x);
      InvPartition(p, orig);
      assert orig[j].Range().Has(x) && orig[m].Range().Has(x);
      PartitionUnique(Ranges(orig), 0, Pow2(p.bits), x, j, m);
    }
    DistinctCount(b.contacts);
    DistinctCount(orig[m].contacts);
    SubsetSize(Ids(b.contacts) + {id}, Ids(orig[m].contacts));
  }

  /** A non-local bucket of a coarser table is a bucket of the finer table too. */
  lemma SameShell(p: Params, orig: Table, bs: Table, k: nat) returns (m: nat)
    requires Inv(p, orig) && Inv(p, bs) && |bs| <= |orig| && k < |bs|
    requires !bs[k].Has(p.local) || |bs| == |orig|
    ensures m < |orig| && orig[m].Range() == bs[k].Range()
  {
    var r := Ranges(bs)[k];
    assert r == bs[k].Range();
    if |bs| == |orig| {
      m := k;
      assert Ranges(orig)[m] == r;
    } else {
      FinerKeepsShells(p.local, 0, p.bits, LocalExponent(p, orig), LocalExponent(p, bs), r);
      m :| 0 <= m < |orig| && Ranges(orig)[m] == r;
    }
  }

  lemma RoomLeft(p: Params, orig: Table, bs: Table, k: nat, id: nat)
    requires Inv(p, orig) && Inv(p, bs) && |bs| <= |orig| && k < |bs| && bs[k].Has(id)
    requires !bs[k].Has(p.local) || |bs| == |orig|
    requires p.Foreign(id) && id in KnownIds(orig) && !Known(bs, id) && KnownIds(bs) <= KnownIds(orig)
    ensures |bs[k].contacts| < K
  {
    assert bs[k] in bs && id !in Ids(bs[k].contacts);
    forall x | x in Ids(bs[k].contacts) ensures x in KnownIds(orig) { KnownHolds(bs, x); }
    var m := SameShell(p, orig, bs, k);
    hide KnownIds;
    RoomFor(p, orig, m, bs[k], id);
  }

  lemma {:induction false} RestoreSplit(p: Params, orig: Table, bs: Table, id: nat, now: int)
    requires Inv(p, orig) && Inv(p, bs) && |bs| <= |orig| && Unproven(bs)
    requires p.Foreign(id) && id in KnownIds(orig) && !Known(bs, id) && KnownIds(bs) <= KnownIds(orig)
    ensures var r := SplitWhileFull(p, bs, id, now);
            && |r| <= |orig|
            && Unproven(r)
            && |r[BucketIndex(r, id)].contacts| < K
    decreases LocalExponent(p, bs)
  {
    hide BucketIndex;
    BucketCovers(p, bs, id);
    var k := BucketIndex(bs, id);
    if |bs[k].contacts| >= K {
      if !bs[k].Has(p.local) || |bs| == |orig| {
        RoomLeft(p, orig, bs, k, id);
        assert false;
      } else {
        InvSplit(p, bs, k, id, now);
        SplitHolds(p, bs, k, now);
        SameHoldsSameEndpoints(bs, SplitAt(bs, k, now));
        RestoreSplit(p, orig, SplitAt(bs, k, now), id, now);
      }
    }
  }

  // ---- The restored partition is a function of the contacts ----

  lemma CountGrows(small: set<nat>, large: set<nat>, local: nat, e: nat, e': nat)
    requires small <= large && e <= e'
    ensures NearCount(small, local, e) <= NearCount(large, local, e')
  {
    Pow2Grows(e, e');
    SubsetSize(NearSet(small, local, e), NearSet(large, local, e'));
  }

  /** The identifiers of the local bucket are those inside its ball. */
  lemma LocalBucketCount(p: Params, bs: Table, k: nat)
    requires Inv(p, bs) && k < |bs| && bs[k].Has(p.local)
    ensures Ids(bs[k].contacts) == NearSet(KnownIds(bs), p.local, LocalExponent(p, bs))
    ensures NearCount(KnownIds(bs), p.local, LocalExponent(p, bs)) == |bs[k].contacts|
  {
    var i := LocalExponent(p, bs);
    assert bs[k] in bs;
    var j := TilingShells(p.local, 0, p.bits, i, k);
    var r := bs[k].Range();
    assert r == Ranges(bs)[k] && IsBall(p.local, r, i);
    forall x: nat
      ensures x in Ids(bs[k].contacts) <==> x in KnownIds(bs) && Xor(x, p.local) < Pow2(i)
    {
      KnownHolds(bs, x);
      if x in Ids(bs[k].contacts) {
        assert r.Has(x);
      }
      if x in KnownIds(bs) && Xor(x, p.local) < Pow2(i) {
        assert r.Has(x);
        var b :| b in bs && x in Ids(b.contacts);
        var m :| 0 <= m < |bs| && bs[m] == b;
        assert bs[m].Range().Has(x);
        InvPartition(p, bs);
        PartitionUnique(Ranges(bs), 0, Pow2(p.bits), x, k, m);
      }
    }
    DistinctCount(bs[k].contacts);
  }

  lemma CountOneMore(ids: set<nat>, local: nat, e: nat, id: nat)
    requires Xor(id, local) < Pow2(e) && id !in NearSet(ids, local, e)
    ensures NearCount(ids + {id}, local, e) == NearCount(ids, local, e) + 1
  {
    assert NearSet(ids + {id}, local, e) == NearSet(ids, local, e) + {id};
  }

  /** Where a split applies, the ball it halves holds more than K identifiers once `id` is counted. */
  lemma BallOverflows(p: Params, bs: Table, k: nat, id: nat)
    requires Inv(p, bs) && k < |bs| && bs[k].Has(p.local) && |bs[k].contacts| >= K
    requires bs[k].Has(id) && id !in Ids(bs[k].contacts)
    ensures NearCount(KnownIds(bs) + {id}, p.local, LocalExponent(p, bs)) > K
  {
    LocalBucketCount(p, bs, k);
    LocalBucketBall(p, bs, k, id);
    CountOneMore(KnownIds(bs), p.local, LocalExponent(p, bs), id);
  }

  lemma LocalBucketBall(p: Params, bs: Table, k: nat, id: nat)
    requires Inv(p, bs) && k < |bs| && bs[k].Has(p.local)
    ensures bs[k].Has(id) <==> Xor(id, p.local) < Pow2(LocalExponent(p, bs))
  {
    var j := TilingShells(p.local, 0, p.bits, LocalExponent(p, bs), k);
    assert bs[k].Range() == Ranges(bs)[k];
    assert bs[k].Has(id) <==> bs[k].Range().Has(id);
  }

  /** A table that has just been split holds too many identifiers for the ball that was halved. */
  ghost predicate JustSplit(p: Params, ids: set<nat>, before: int, after: int) {
    after == before || (0 <= p.bits + 2 - after && NearCount(ids, p.local, p.bits + 2 - after) > K)
  }

  lemma SplitOnce(p: Params, bs: Table, k: nat, id: nat, now: int)
    requires Inv(p, bs) && p.Foreign(id) && !Known(bs, id) && k == BucketIndex(bs, id) < |bs|
    requires |bs[k].contacts| >= K && bs[k].Has(p.local)
    ensures var bs' := SplitAt(bs, k, now);
            && Inv(p, bs') && !Known(bs', id)
            && KnownIds(bs') == KnownIds(bs)
            && SplitWhileFull(p, bs, id, now) == SplitWhileFull(p, bs', id, now)
            && |bs'| == |bs| + 1
            && JustSplit(p, KnownIds(bs) + {id}, |bs|, |bs'|)
  {
    InvSplit(p, bs, k, id, now);
    SplitKeepsIds(p, bs, k, now);
    BallOverflows(p, bs, k, id) by { assert bs[k] in bs; }
    assert p.bits + 2 - (|bs| + 1) == LocalExponent(p, bs);
  }

  lemma JustSplitChain(p: Params, ids: set<nat>, a: int, b: int, c: int)
    requires JustSplit(p, ids, a, b) && JustSplit(p, ids, b, c)
    ensures JustSplit(p, ids, a, c)
  {
  }

  lemma {:induction false} SplitCoarsest(p: Params, bs: Table, id: nat, now: int)
    requires Inv(p, bs) && p.Foreign(id) && !Known(bs, id)
    ensures JustSplit(p, KnownIds(bs) + {id}, |bs|, |SplitWhileFull(p, bs, id, now)|)
    decreases LocalExponent(p, bs)
  {
    BucketCovers(p, bs, id);
    var k := BucketIndex(bs, id);
    if |bs[k].contacts| >= K && bs[k].Has(p.local) {
      SplitOnce(p, bs, k, id, now);
      var bs' := SplitAt(bs, k, now);
      SplitCoarsest(p, bs', id, now);
      JustSplitChain(p, KnownIds(bs) + {id}, |bs|, |bs'|, |SplitWhileFull(p, bs', id, now)|);
    }
  }

  lemma SplitKeepsIds(p: Params, bs: Table, k: nat, now: int)
    requires Inv(p, bs) && k < |bs|
    ensures KnownIds(SplitAt(bs, k, now)) == KnownIds(bs)
  {
    SplitHolds(p, bs, k, now);
    SameHoldsSameEndpoints(bs, SplitAt(bs, k, now));
  }

  /** Two coarsest tables with the same identifiers have the same buckets. */
  lemma CoarsestIsUnique(p: Params, a: Table, b: Table)
    requires Inv(p, a) && Inv(p, b) && Coarsest(p, a) && Coarsest(p, b) && KnownIds(a) == KnownIds(b)
    ensures Ranges(a) == Ranges(b)
  {
    CoarsestNotFiner(p, a, b);
    CoarsestNotFiner(p, b, a);
  }

  lemma CoarsestNotFiner(p: Params, a: Table, b: Table)
    requires Inv(p, a) && Inv(p, b) && Coarsest(p, b) && KnownIds(a) == KnownIds(b)
    ensures |b| <= |a|
  {
    if |b| > |a| {
      BucketCovers(p, a, p.local);
      var k := BucketIndex(a, p.local);
      assert a[k] in a;
      LocalBucketCount(p, a, k);
      CountGrows(KnownIds(b), KnownIds(a), p.local, LocalExponent(p, b) + 1, LocalExponent(p, a));
      assert false;
    }
  }

  // ---- One record ----

  /** The state of a restore: `done` are the endpoints of the records restored so far. */
  ghost predicate Restored(p: Params, orig: Table, bs: Table, done: set<(nat, string, int)>) {
    && Inv(p, orig) && Inv(p, bs)
    && |bs| <= |orig|
    && Unproven(bs)
    && Endpoints(bs) == done
    && done <= Endpoints(orig)
    && Coarsest(p, bs)
  }

  lemma PlainPlace(bs: Table, k: nat, p: Params, c: ContactInfo, now: int)
    requires k < |bs| && Unproven(bs) && |bs[k].contacts| < K && Plain(c)
    ensures var bs' := bs[k := Place(p, bs[k], c, now)];
            && Unproven(bs')
            && Endpoints(bs') == Endpoints(bs) + {(c.id, c.ip, c.port)}
            && KnownIds(bs') == KnownIds(bs) + {c.id}
  {
    var b := Place(p, bs[k], c, now);
    var bs' := bs[k := b];
    assert b.contacts == bs[k].contacts + [c];
    forall d ensures Holds(bs', d) <==> Holds(bs, d) || d == c {
      UpdateHolds(bs, k, b);
      assert c == b.contacts[|b.contacts| - 1];
      if d in bs[k].contacts { assert d in b.contacts; }
      if d in b.contacts && d != c { assert d in bs[k].contacts; }
    }
    forall e ensures e in Endpoints(bs') <==> e in Endpoints(bs) || e == (c.id, c.ip, c.port) {
      if e in Endpoints(bs') {
        EndpointHolds(bs', e);
        var d :| Holds(bs', d) && (d.id, d.ip, d.port) == e;
        if d != c { HoldsKnown(bs, d); }
      }
      if e in Endpoints(bs) {
        EndpointHolds(bs, e);
        var d :| Holds(bs, d) && (d.id, d.ip, d.port) == e;
        HoldsKnown(bs', d);
      }
      HoldsKnown(bs', c);
    }
    forall x ensures x in KnownIds(bs') <==> x in KnownIds(bs) || x == c.id {
      KnownHolds(bs', x);
      KnownHolds(bs, x);
      HoldsKnown(bs', c);
    }
  }

  lemma EndpointsIds(p: Params, orig: Table, bs: Table)
    requires Endpoints(bs) <= Endpoints(orig)
    ensures KnownIds(bs) <= KnownIds(orig)
  {
    forall x | x in KnownIds(bs) ensures x in KnownIds(orig) {
      KnownHolds(bs, x);
      var c :| Holds(bs, c) && c.id == x;
      HoldsKnown(bs, c);
      EndpointHolds(orig, (c.id, c.ip, c.port));
      var d :| Holds(orig, d) && (d.id, d.ip, d.port) == (c.id, c.ip, c.port);
      HoldsKnown(orig, d);
    }
  }

  lemma NotYetKnown(p: Params, bs: Table, id: nat)
    requires Inv(p, bs) && p.Foreign(id) && forall e :: e in Endpoints(bs) ==> e.0 != id
    ensures !Known(bs, id)
    ensures var k := BucketIndex(bs, id); k < |bs| && FindId(bs[k].contacts, id) == |bs[k].contacts|
  {
    KnownHolds(bs, id);
    assert !Known(bs, id) by {
      if d :| Holds(bs, d) && d.id == id { HoldsKnown(bs, d); }
    }
    BucketCovers(p, bs, id);
    var k := BucketIndex(bs, id);
    var i := FindId(bs[k].contacts, id);
    assert bs[k] in bs;
    assert id !in Ids(bs[k].contacts);
    assert forall j :: 0 <= j < |bs[k].contacts| ==> bs[k].contacts[j] in bs[k].contacts;
  }

  /** What a new, unverified sighting that finds room does. */
  lemma ObserveUnverified(p: Params, orig: Table, bs: Table, id: nat, ip: string, port: int, now: int)
    requires Inv(p, orig) && Inv(p, bs) && |bs| <= |orig| && Unproven(bs) && KnownIds(bs) <= KnownIds(orig)
    requires p.Foreign(id) && id in KnownIds(orig) && forall e :: e in Endpoints(bs) ==> e.0 != id
    ensures var r := Observe(p, bs, Unverified(id, ip, port, now)).0;
            && |bs| <= |r| <= |orig|
            && Unproven(r)
            && Endpoints(r) == Endpoints(bs) + {(id, ip, port)}
            && KnownIds(r) == KnownIds(bs) + {id}
            && JustSplit(p, KnownIds(r), |bs|, |r|)
  {
    NotYetKnown(p, bs, id);
    RestoreSplit(p, orig, bs, id, now);
    RoundsAddBuckets(p, bs, id, now);
    SplitWhileFullHolds(p, bs, id, now);
    SplitCoarsest(p, bs, id, now);
    var bs1 := SplitWhileFull(p, bs, id, now);
    SameHoldsSameEndpoints(bs, bs1);
    PlainPlace(bs1, BucketIndex(bs1, id), p, Candidate(Unverified(id, ip, port, now)), now);
  }

  lemma RestoreContact(p: Params, orig: Table, bs: Table, done: set<(nat, string, int)>, c: ContactInfo, now: int)
    requires Restored(p, orig, bs, done) && Holds(orig, c) && forall e :: e in done ==> e.0 != c.id
    ensures p.Foreign(c.id)
    ensures Restored(p, orig, Observe(p, bs, Unverified(c.id, c.ip, c.port, now)).0, done + {(c.id, c.ip, c.port)})
  {
    HoldsKnown(orig, c);
    HeldIsForeign(p, orig, c);
    EndpointsIds(p, orig, bs);
    InvObserve(p, bs, Unverified(c.id, c.ip, c.port, now));
    ObserveUnverified(p, orig, bs, c.id, c.ip, c.port, now);
    var r := Observe(p, bs, Unverified(c.id, c.ip, c.port, now)).0;
    CoarsestStep(p, bs, r);
  }

  lemma CoarsestStep(p: Params, bs: Table, r: Table)
    requires Inv(p, bs) && Inv(p, r) && Coarsest(p, bs) && KnownIds(bs) <= KnownIds(r)
    requires JustSplit(p, KnownIds(r), |bs|, |r|)
    ensures Coarsest(p, r)
  {
    if |r| == |bs| && LocalExponent(p, r) != p.bits {
      CountGrows(KnownIds(bs), KnownIds(r), p.local, LocalExponent(p, r) + 1, LocalExponent(p, r) + 1);
    }
  }

  lemma HeldIsForeign(p: Params, bs: Table, c: ContactInfo)
    requires Inv(p, bs) && Holds(bs, c)
    ensures p.Foreign(c.id)
  {
    var k :| 0 <= k < |bs| && c in bs[k].contacts;
    assert bs[k] in bs;
    InvPartition(p, bs);
    assert bs[k].Range() == Ranges(bs)[k];
    if k < |bs| - 1 { PartitionOrdered(Ranges(bs), 0, Pow2(p.bits), k, |bs| - 1); }
  }

  // ---- Any order of the records ----

  /** `s` and `t` list the same elements, in any order. */
  ghost predicate AnyOrder<T>(s: seq<T>, t: seq<T>) {
    multiset(s) == multiset(t)
  }

  lemma {:induction false} CountInNoDuplicates<T>(s: seq<T>, x: T)
    requires Distinct(s)
    ensures multiset(s)[x] <= 1
  {
    if s != [] {
      CountInNoDuplicates(s[1..], x);
      assert s == [s[0]] + s[1..];
      if s[0] == x { assert x !in s[1..]; }
    }
  }

  lemma CountTwice<T>(s: seq<T>, i: nat, j: nat)
    requires i < j < |s| && s[i] == s[j]
    ensures multiset(s)[s[i]] >= 2
  {
    assert s == s[..j] + [s[j]] + s[j + 1..];
    assert s[i] in s[..j];
    assert multiset(s) == multiset(s[..j]) + multiset{s[j]} + multiset(s[j + 1..]);
  }

  lemma NoDuplicatesInAnyOrder<T>(s: seq<T>, t: seq<T>)
    requires Distinct(s) && AnyOrder(t, s)
    ensures Distinct(t)
  {
    forall i, j | 0 <= i < j < |t|
      ensures t[i] != t[j]
    {
      CountInNoDuplicates(s, t[i]);
      if t[i] == t[j] { CountTwice(t, i, j); }
    }
  }

  lemma RecordsDistinct(p: Params, bs: Table, now: int)
    requires Inv(p, bs) && p.bits % 8 == 0
    ensures Distinct(SnapshotRecords(p, bs, now))
  {
    var cs := AllContacts(bs);
    InvDistinct(p, bs);
    AllContactsDistinct(bs);
    forall i, j | 0 <= i < j < |cs|
      ensures ContactRecord(p, cs[i], now) != ContactRecord(p, cs[j], now)
    {
      AllContactsHolds(bs, cs[i]);
      AllContactsHolds(bs, cs[j]);
      RecordNamesContact(p, bs, cs[i]);
      RecordNamesContact(p, bs, cs[j]);
    }
  }

  lemma RecordNamesContact(p: Params, bs: Table, c: ContactInfo)
    requires Inv(p, bs) && p.bits % 8 == 0 && Holds(bs, c)
    ensures FromBytes(ToBytes(c.id, p.bits / 8)) == c.id
  {
    HeldIsForeign(p, bs, c);
    FromToBytes(c.id, p.bits / 8);
  }

  /** What a snapshot says: a header, and one record for each contact with its identifier, endpoint and state. */
  lemma SnapshotReads(p: Params, bs: Table, now: int, i: nat)
    requires Inv(p, bs) && p.bits % 8 == 0 && i < |AllContacts(bs)|
    ensures var rs, c := SnapshotRecords(p, bs, now), AllContacts(bs)[i];
            && |rs| == |AllContacts(bs)| + 1 && rs[0].event == "header" && rs[0].nodeId == None
            && rs[i + 1].event == "contact"
            && rs[i + 1].nodeId.Some? && |rs[i + 1].nodeId.value| == p.bits / 8
            && FromBytes(rs[i + 1].nodeId.value) == c.id
            && rs[i + 1].ip == Some(c.ip) && rs[i + 1].port == Some(c.port)
            && rs[i + 1].state == Some(c.State(p, now))
  {
    AllContactsHolds(bs, AllContacts(bs)[i]);
    RecordNamesContact(p, bs, AllContacts(bs)[i]);
    hide Inv, AllContacts, FromBytes, ToBytes;
  }

  /** A record that is not a contact record, lacks a field or has an identifier of another length restores nothing; any
      other is an indirect sighting, whatever state it saved. */
  lemma RestoresExactly(p: Params, bs: Table, r: Record, now: int)
    requires Inv(p, bs)
    ensures if r.event == "contact" && r.nodeId.Some? && 8 * |r.nodeId.value| == p.bits && r.ip.Some? && r.port.Some?
            then exists s: Sighting ::
              && s.id < Pow2(p.bits) && s.id == FromBytes(r.nodeId.value)
              && s.ip == r.ip.value && s.port == r.port.value && s.now == now
              && !s.direct && !s.incoming && !s.readOnly && s.clientVersion == None
              && RestoreOne(p, bs, r, now) == Observe(p, bs, s).0
            else RestoreOne(p, bs, r, now) == bs
  {
    if r.nodeId.Some? && 8 * |r.nodeId.value| == p.bits && r.ip.Some? && r.port.Some? {
      FromBytesRange(r.nodeId.value);
      var s := Sighting(FromBytes(r.nodeId.value), r.ip.value, r.port.value, false, false, false, None, now);
      if r.event == "contact" { assert RestoreOne(p, bs, r, now) == Observe(p, bs, s).0; }
    }
    hide Inv, Observe;
  }

  /** The endpoints named by the contact records of `rs`. */
  ghost function Named(rs: seq<Record>): set<(nat, string, int)> {
    set r | r in rs && r.event == "contact" && r.nodeId.Some? && r.ip.Some? && r.port.Some?
      :: (FromBytes(r.nodeId.value), r.ip.value, r.port.value)
  }

  lemma NamedAppend(rs: seq<Record>, r: Record)
    ensures Named(rs + [r]) ==
            if r.event == "contact" && r.nodeId.Some? && r.ip.Some? && r.port.Some?
            then Named(rs) + {(FromBytes(r.nodeId.value), r.ip.value, r.port.value)} else Named(rs)
  {
    assert forall q :: q in rs + [r] <==> q in rs || q == r;
  }

  /** Different records of one snapshot name different identifiers. */
  lemma NamedOthers(p: Params, orig: Table, rs: seq<Record>, c: ContactInfo, saved: int)
    requires Inv(p, orig) && p.bits % 8 == 0 && Holds(orig, c) && ContactRecord(p, c, saved) !in rs
    requires forall q :: q in rs ==> q in SnapshotRecords(p, orig, saved)
    ensures forall e :: e in Named(rs) ==> e.0 != c.id
  {
    forall e | e in Named(rs)
      ensures e.0 != c.id
    {
      var q :| q in rs && q.event == "contact" && q.nodeId.Some? && q.ip.Some? && q.port.Some?
               && e == (FromBytes(q.nodeId.value), q.ip.value, q.port.value);
      var d := RecordContact(p, orig, q, saved);
      RecordNamesContact(p, orig, d);
      if d.id == c.id { SameContact(p, orig, c, d); }
    }
  }

  lemma RestoreStep(p: Params, orig: Table, bs: Table, rs: seq<Record>, r: Record, now: int, saved: int)
    requires p.bits % 8 == 0 && Restored(p, orig, bs, Named(rs)) && r !in rs
    requires forall q :: q in rs + [r] ==> q in SnapshotRecords(p, orig, saved)
    ensures Restored(p, orig, RestoreOne(p, bs, r, now), Named(rs + [r]))
  {
    hide Inv, SnapshotRecords, Named;
    NamedAppend(rs, r);
    if r.event == "contact" {
      assert r in rs + [r];
      var c := RecordContact(p, orig, r, saved);
      RecordNamesContact(p, orig, c);
      assert forall q :: q in rs ==> q in rs + [r];
      NamedOthers(p, orig, rs, c, saved);
      RestoreContact(p, orig, bs, Named(rs), c, now);
    } else {
      assert r in rs + [r];
    }
  }

  lemma RestoreNothing(p: Params, orig: Table, start: int)
    requires Inv(p, orig)
    ensures Restored(p, orig, Restart(p, start, [], []), {})
  {
    InvFresh(p, start);
    assert Fresh(p, start)[0].contacts == [];
  }

  lemma {:induction false} RestorePrefix(p: Params, orig: Table, start: int, rs: seq<Record>, times: seq<int>,
                                         saved: int)
    requires Inv(p, orig) && p.bits % 8 == 0 && |times| == |rs|
    requires Distinct(rs) && forall r :: r in rs ==> r in SnapshotRecords(p, orig, saved)
    ensures Restored(p, orig, Restart(p, start, rs, times), Named(rs))
    decreases |rs|
  {
    if rs == [] {
      RestoreNothing(p, orig, start);
      assert times == [] && Named(rs) == {};
    } else {
      var n := |rs| - 1;
      assert rs == rs[..n] + [rs[n]];
      RestorePrefix(p, orig, start, rs[..n], times[..n], saved);
      RestoreStep(p, orig, Restart(p, start, rs[..n], times[..n]), rs[..n], rs[n], times[n], saved);
    }
  }

  lemma RecordContact(p: Params, orig: Table, r: Record, saved: int) returns (c: ContactInfo)
    requires r in SnapshotRecords(p, orig, saved) && r.event == "contact"
    ensures Holds(orig, c) && r == ContactRecord(p, c, saved)
  {
    var cs := AllContacts(orig);
    var i :| 0 <= i < |SnapshotRecords(p, orig, saved)| && SnapshotRecords(p, orig, saved)[i] == r;
    assert i > 0;
    c := cs[i - 1];
    AllContactsHolds(orig, c);
  }

  /** A fresh table with the same local identifier, fed the records of a snapshot in any order, holds exactly
      the same identifiers at the same endpoints, all of them QUESTIONABLE, with no replacements, in buckets
      that are those of the original table or unions of them. */
  lemma RestoreLosesNothing(p: Params, orig: Table, saved: int, rs: seq<Record>, start: int, times: seq<int>)
    requires Inv(p, orig) && p.bits % 8 == 0
    requires AnyOrder(rs, SnapshotRecords(p, orig, saved)) && |times| == |rs|
    ensures var r := Restart(p, start, rs, times);
            && Endpoints(r) == Endpoints(orig)
            && (forall c, now :: Holds(r, c) ==> c.State(p, now) == Questionable)
            && (forall c :: Holds(r, c) ==>
                  c.failures == 0 && c.lastResponse == None && c.lastQuery == None && !c.readOnly)
            && (forall b :: b in r ==> b.replacements == [])
            && (forall b :: b in orig ==> exists b' :: b' in r && b'.low <= b.low && b.high <= b'.high)
            && Coarsest(p, r)
  {
    RestoreInAnyOrder(p, orig, saved, rs, start, times);
    var r := Restart(p, start, rs, times);
    forall b | b in orig
      ensures exists b' :: b' in r && b'.low <= b.low && b.high <= b'.high
    {
      var k :| 0 <= k < |orig| && orig[k] == b;
      assert Ranges(orig)[k] == b.Range();
      var c := FinerInsideCoarser(p.local, 0, p.bits, LocalExponent(p, orig), LocalExponent(p, r), b.Range());
      var m :| 0 <= m < |r| && Ranges(r)[m] == c;
      assert r[m] in r;
    }
  }

  lemma SameElements<T>(s: seq<T>, t: seq<T>)
    requires AnyOrder(s, t)
    ensures forall x :: x in s <==> x in t
  {
    forall x ensures x in s <==> x in t {
      assert x in s <==> x in multiset(s);
      assert x in t <==> x in multiset(t);
    }
  }

  lemma EverythingNamed(p: Params, orig: Table, saved: int, rs: seq<Record>)
    requires Inv(p, orig) && p.bits % 8 == 0
    requires forall r :: r in SnapshotRecords(p, orig, saved) ==> r in rs
    ensures Endpoints(orig) <= Named(rs)
  {
    hide *;
    forall e | e in Endpoints(orig)
      ensures e in Named(rs)
    {
      EndpointHolds(orig, e);
      var c :| Holds(orig, c) && (c.id, c.ip, c.port) == e;
      HeldIsRecorded(p, orig, c, saved);
      RecordNamesContact(p, orig, c);
      RecordIsNamed(p, c, saved, rs);
    }
  }

  lemma HeldIsRecorded(p: Params, bs: Table, c: ContactInfo, saved: int)
    requires Holds(bs, c)
    ensures ContactRecord(p, c, saved) in SnapshotRecords(p, bs, saved)
  {
    AllContactsHolds(bs, c);
    hide Holds, AllContacts, ContactRecord;
    var i :| 0 <= i < |AllContacts(bs)| && AllContacts(bs)[i] == c;
    assert SnapshotRecords(p, bs, saved)[i + 1] == ContactRecord(p, c, saved);
  }

  lemma RecordIsNamed(p: Params, c: ContactInfo, saved: int, rs: seq<Record>)
    requires ContactRecord(p, c, saved) in rs && FromBytes(ToBytes(c.id, p.bits / 8)) == c.id
    ensures (c.id, c.ip, c.port) in Named(rs)
  {
    hide FromBytes, ToBytes;
    assert ContactRecord(p, c, saved).event == "contact";
  }

  lemma RestoreInAnyOrder(p: Params, orig: Table, saved: int, rs: seq<Record>, start: int, times: seq<int>)
    requires Inv(p, orig) && p.bits % 8 == 0
    requires AnyOrder(rs, SnapshotRecords(p, orig, saved)) && |times| == |rs|
    ensures Restored(p, orig, Restart(p, start, rs, times), Endpoints(orig))
  {
    var snap := SnapshotRecords(p, orig, saved);
    RecordsDistinct(p, orig, saved);
    NoDuplicatesInAnyOrder(snap, rs);
    SameElements(rs, snap);
    RestorePrefix(p, orig, start, rs, times, saved);
    EverythingNamed(p, orig, saved, rs);
  }

  lemma SameEndpointsSameBuckets(p: Params, a: Table, b: Table, r: Table, q: Table)
    requires Restored(p, a, r, Endpoints(a)) && Restored(p, b, q, Endpoints(b)) && Endpoints(a) == Endpoints(b)
    ensures Ranges(r) == Ranges(q)
  {
    EndpointsIds(p, r, q);
    EndpointsIds(p, q, r);
    CoarsestIsUnique(p, r, q);
  }

  /** The restored buckets do not depend on the order of the records, nor on the buckets the contacts had before. */
  lemma RestoreOrderIrrelevant(p: Params, a: Table, b: Table, savedA: int, savedB: int,
                               rs: seq<Record>, qs: seq<Record>, start: int, times: seq<int>, times': seq<int>)
    requires Inv(p, a) && Inv(p, b) && Endpoints(a) == Endpoints(b) && p.bits % 8 == 0
    requires AnyOrder(rs, SnapshotRecords(p, a, savedA)) && |times| == |rs|
    requires AnyOrder(qs, SnapshotRecords(p, b, savedB)) && |times'| == |qs|
    ensures Ranges(Restart(p, start, rs, times)) == Ranges(Restart(p, start, qs, times'))
  {
    RestoreInAnyOrder(p, a, savedA, rs, start, times);
    RestoreInAnyOrder(p, b, savedB, qs, start, times');
    SameEndpointsSameBuckets(p, a, b, Restart(p, start, rs, times), Restart(p, start, qs, times'));
  }
}
