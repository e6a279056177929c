/** What a sighting of a new identifier does to the order of its bucket, and what the stamp of a bucket means. */
module RoutingEffects {
  import opened Wrappers
  import opened XorMetric
  import opened Tilings
  import opened RoutingModel
  import opened RoutingProperties
  import opened RoutingHistory

  // ---- Newcomers ----

  /** The list without its oldest entry, if it is full. */
  function MakeRoom(cs: seq<ContactInfo>): seq<ContactInfo> {
    if |cs| < K then cs else cs[|cs| + 1 - K..]
  }

  ghost function Home(p: Params, bs: Table, id: nat): BucketInfo
    requires Inv(p, bs) && id < Pow2(p.bits)
  {
    BucketCovers(p, bs, id);
    bs[BucketIndex(bs, id)]
  }

  lemma {:induction false} SplitKeepsQueue(p: Params, bs: Table, id: nat, now: int)
    requires Inv(p, bs) && p.Foreign(id) && !Known(bs, id)
    ensures Home(p, SplitWhileFull(p, bs, id, now), id).replacements == Home(p, bs, id).replacements
    decreases LocalExponent(p, bs)
  {
    BucketCovers(p, bs, id);
    var k := BucketIndex(bs, id);
    if |bs[k].contacts| >= K && bs[k].Has(p.local) {
      InvSplit(p, bs, k, id, now);
      var bs' := SplitAt(bs, k, now);
      var h := if bs'[k].Has(id) then k else k + 1;
      assert bs'[h].Has(id) && bs'[h].replacements == [];
      BucketCovers(p, bs', id);
      SplitKeepsQueue(p, bs', id, now);
    }
  }

  /** A newcomer goes to the end of its bucket's contacts, which stamps the bucket, or to the end of its queue, where it
      pushes out the oldest replacement of a full queue. */
  lemma NewcomerComesLast(p: Params, bs: Table, s: Sighting)
    requires Inv(p, bs) && p.Foreign(s.id) && !Stored(bs, s.id) && !s.readOnly
    ensures Inv(p, Observe(p, bs, s).0)
    ensures var b, b' := Home(p, bs, s.id), Home(p, Observe(p, bs, s).0, s.id);
            if Known(Observe(p, bs, s).0, s.id)
            then b'.contacts != [] && b'.contacts[|b'.contacts| - 1] == Candidate(s) && b'.lastChanged == s.now
            else b'.replacements == MakeRoom(b.replacements) + [Candidate(s)]
  {
    hide Place, FindBad, FindId;
    InvObserve(p, bs, s);
    NewIsPlaced(p, bs, s);
    SplitKeepsQueue(p, bs, s.id, s.now);
    SplitWhileFullWaits(p, bs, s.id, s.now);
    var bs1, bs' := SplitWhileFull(p, bs, s.id, s.now), Observe(p, bs, s).0;
    var k := BucketIndex(bs1, s.id);
    WaitsIds(bs, bs1, s.id);
    WaitsInBucket(p, bs1, s.id, k);
    assert bs1[k] in bs1;
    PlaceAtEnd(p, bs1[k], Candidate(s), s.now);
    hide Place, SplitWhileFull, Observe;
    assert bs'[k].Has(s.id);
    BucketCovers(p, bs', s.id);
    KnownHere(p, bs', s.id, k);
  }

  lemma KnownHere(p: Params, bs: Table, id: nat, k: nat)
    requires Inv(p, bs) && k < |bs| && bs[k].Has(id)
    ensures Known(bs, id) <==> id in Ids(bs[k].contacts)
  {
    assert bs[k] in bs;
    if Known(bs, id) {
      var b :| b in bs && id in Ids(b.contacts);
      var j :| 0 <= j < |bs| && bs[j] == b;
      OneBucket(p, bs, j, k, id);
    }
  }

  lemma NotListed(cs: seq<ContactInfo>, id: nat)
    requires id !in Ids(cs)
    ensures FindId(cs, id) == |cs|
  {
    assert forall j :: 0 <= j < |cs| ==> cs[j] in cs;
  }

  lemma PlaceAtEnd(p: Params, b: BucketInfo, c: ContactInfo, now: int)
    requires GoodBucket(p, b) && b.Has(c.id) && c.id !in Ids(b.contacts) && c.id !in Ids(b.replacements)
    ensures var b' := Place(p, b, c, now);
            && b'.Range() == b.Range()
            && if c.id in Ids(b'.contacts)
               then b'.contacts != [] && b'.contacts[|b'.contacts| - 1] == c && b'.lastChanged == now
               else b'.replacements == MakeRoom(b.replacements) + [c] && b'.contacts == b.contacts
                    && b'.lastChanged == b.lastChanged
  {
    var b' := Place(p, b, c, now);
    NotListed(b.replacements, c.id);
    if b'.contacts != b.contacts { assert b'.contacts[|b'.contacts| - 1] in b'.contacts; }
  }

  /** What `observe` returns: the contact that the table now has for the identifier, or else one that says what this
      sighting tells. */
  lemma ObserveReturns(p: Params, bs: Table, s: Sighting)
    requires Inv(p, bs) && s.id < Pow2(p.bits)
    ensures var (bs', r) := Observe(p, bs, s);
            if s.id == p.local then r == None
            else
              && r.Some? && r.value.id == s.id
              && if Known(bs', s.id) then Holds(bs', r.value) else Tells(r.value, [Sighted(s)])
  {
    if s.id != p.local {
      KnownIsFound(p, bs, s.id);
      CandidateTells(s);
      if Known(bs, s.id) {
        var k := BucketIndex(bs, s.id);
        var i := FindId(bs[k].contacts, s.id);
        var cs := bs[k].contacts[i := Refresh(bs[k].contacts[i], s)];
        UpdateHolds(bs, k, bs[k].(contacts := cs));
        RefreshRemembered(p, bs, s);
        assert cs[i] in cs;
      } else {
        hide Tells;
        NewReturned(p, bs, s);
      }
    }
  }

  lemma RefreshRemembered(p: Params, bs: Table, s: Sighting)
    requires Inv(p, bs) && p.Foreign(s.id) && Known(bs, s.id)
    ensures Known(Observe(p, bs, s).0, s.id)
  {
    ObserveRemembers(p, bs, s);
  }

  lemma NewReturned(p: Params, bs: Table, s: Sighting)
    requires Inv(p, bs) && p.Foreign(s.id) && !Known(bs, s.id)
    ensures Observe(p, bs, s).1 == Some(Candidate(s))
    ensures Known(Observe(p, bs, s).0, s.id) ==> Holds(Observe(p, bs, s).0, Candidate(s))
  {
    KnownIsFound(p, bs, s.id);
    if !s.readOnly {
      if Waiting(bs, s.id) {
        ReplacementHearsNothing(p, bs, s);
      } else {
        NewcomerComesLast(p, bs, s);
        var bs' := Observe(p, bs, s).0;
        BucketCovers(p, bs', s.id);
        var k := BucketIndex(bs', s.id);
        hide Inv, Candidate, Known, Observe, Waiting;
        assert Home(p, bs', s.id) == bs'[k];
        if bs'[k].contacts != [] { assert bs'[k].contacts[|bs'[k].contacts| - 1] in bs'[k].contacts; }
      }
    }
  }

  // ---- Stamps ----

  /** Two buckets over one range with the same contacts, whatever their fields. */
  ghost predicate SameMembers(b: BucketInfo, b': BucketInfo) {
    b.Range() == b'.Range() && Ids(b.contacts) == Ids(b'.contacts)
  }

  /** The stamp of a bucket after an operation is the old one, if it was there before with the same members, and
      the time of the operation, if it was not. */
  ghost predicate Stamped(bs: Table, b': BucketInfo, now: int) {
    && (forall b :: b in bs && SameMembers(b, b') ==> b'.lastChanged == b.lastChanged)
    && ((forall b :: b in bs ==> !SameMembers(b, b')) ==> b'.lastChanged == now)
  }

  lemma OneRange(p: Params, bs: Table, b: BucketInfo, k: nat)
    requires Inv(p, bs) && k < |bs| && b in bs && b.Range() == bs[k].Range()
    ensures b == bs[k]
  {
    var j :| 0 <= j < |bs| && bs[j] == b;
    RangeNotEmpty(p, bs, k);
    OneBucket(p, bs, j, k, bs[k].low);
  }

  lemma RangeNotEmpty(p: Params, bs: Table, k: nat)
    requires Inv(p, bs) && k < |bs|
    ensures 0 <= bs[k].low < bs[k].high
  {
    InvPartition(p, bs);
    assert Ranges(bs)[k] == bs[k].Range();
    if k > 0 { PartitionOrdered(Ranges(bs), 0, Pow2(p.bits), 0, k); }
  }

  /** A bucket that keeps range and stamp, and its members or its stamp says so. */
  lemma StampedFrom(p: Params, bs: Table, k: nat, b': BucketInfo, now: int)
    requires Inv(p, bs) && k < |bs| && b'.Range() == bs[k].Range()
    requires if Ids(b'.contacts) == Ids(bs[k].contacts) then b'.lastChanged == bs[k].lastChanged
             else b'.lastChanged == now
    ensures Stamped(bs, b', now)
  {
    forall b | b in bs && SameMembers(b, b') ensures b == bs[k] {
      OneRange(p, bs, b, k);
    }
  }

  /** A bucket that came out of splits: an old one, or a freshly stamped strict part of an old one. */
  ghost predicate FromSplit(bs: Table, b': BucketInfo, now: int) {
    b' in bs || (b'.lastChanged == now && StrictPart(bs, b'))
  }

  ghost predicate StrictPart(bs: Table, b': BucketInfo) {
    exists b :: b in bs && b.low <= b'.low < b'.high <= b.high && b'.high - b'.low < b.high - b.low
  }

  lemma {:induction false} SplitStamps(p: Params, bs: Table, id: nat, now: int, b': BucketInfo)
    requires Inv(p, bs) && p.Foreign(id) && !Known(bs, id) && b' in SplitWhileFull(p, bs, id, now)
    ensures FromSplit(bs, b', now)
    decreases LocalExponent(p, bs)
  {
    hide SplitAt, FromSplit, Inv, Known, BucketIndex;
    BucketCovers(p, bs, id);
    var k := BucketIndex(bs, id);
    if |bs[k].contacts| >= K && bs[k].Has(p.local) {
      InvSplit(p, bs, k, id, now);
      NotAmong(bs, k, id);
      OneMore(bs, k, now);
      SplitWidth(p, bs, k, id);
      SplitStamps(p, SplitAt(bs, k, now), id, now, b');
      HalfFromSplit(bs, k, now);
      FromSplitAgain(bs, SplitAt(bs, k, now), b', now);
    } else {
      FromOld(bs, b', now);
    }
  }

  lemma OneMore(bs: Table, k: nat, now: int)
    requires k < |bs|
    ensures |SplitAt(bs, k, now)| == |bs| + 1
  {
  }

  lemma NotAmong(bs: Table, k: nat, id: nat)
    requires k < |bs| && !Known(bs, id)
    ensures id !in Ids(bs[k].contacts)
  {
    assert bs[k] in bs;
  }

  lemma FromOld(bs: Table, b: BucketInfo, now: int)
    requires b in bs
    ensures FromSplit(bs, b, now)
  {
  }

  /** A part of a part is a part. */
  lemma FromSplitAgain(bs: Table, bs1: Table, b': BucketInfo, now: int)
    requires FromSplit(bs1, b', now) && forall b :: b in bs1 ==> FromSplit(bs, b, now)
    ensures FromSplit(bs, b', now)
  {
    if b' !in bs1 {
      var b1 :| b1 in bs1 && b1.low <= b'.low < b'.high <= b1.high && b'.high - b'.low < b1.high - b1.low;
      if b1 !in bs {
        var b :| b in bs && b.low <= b1.low < b1.high <= b.high && b1.high - b1.low < b.high - b.low;
      }
    }
  }

  lemma HalfFromSplit(bs: Table, k: nat, now: int)
    requires k < |bs| && bs[k].high - bs[k].low >= 16
    ensures forall b1 :: b1 in SplitAt(bs, k, now) ==> FromSplit(bs, b1, now)
  {
    forall b1 | b1 in SplitAt(bs, k, now) ensures FromSplit(bs, b1, now) {
      assert b1 in bs || b1 == LeftHalf(bs[k], now) || b1 == RightHalf(bs[k], now);
      assert bs[k] in bs;
    }
  }

  lemma FromSplitStamped(p: Params, bs: Table, b': BucketInfo, now: int)
    requires Inv(p, bs) && FromSplit(bs, b', now)
    ensures Stamped(bs, b', now)
  {
    if b' in bs {
      var k :| 0 <= k < |bs| && bs[k] == b';
      StampedFrom(p, bs, k, b', now);
    } else {
      var a :| a in bs && a.low <= b'.low < b'.high <= a.high && b'.high - b'.low < a.high - a.low;
      var j :| 0 <= j < |bs| && bs[j] == a;
      forall b | b in bs ensures b.Range() != b'.Range() {
        var k :| 0 <= k < |bs| && bs[k] == b;
        RangeNotEmpty(p, bs, j);
        if b.Range() == b'.Range() { OneBucket(p, bs, j, k, b'.low); }
      }
    }
  }

  lemma SameMembersStamped(bs: Table, b': BucketInfo, b'': BucketInfo, now: int)
    requires Stamped(bs, b', now) && SameMembers(b', b'') && b'.lastChanged == b''.lastChanged
    ensures Stamped(bs, b'', now)
  {
    assert forall b :: SameMembers(b, b') <==> SameMembers(b, b'');
  }

  lemma NewStamps(p: Params, bs: Table, s: Sighting, b': BucketInfo)
    requires Inv(p, bs) && p.Foreign(s.id) && !Known(bs, s.id) && !s.readOnly && b' in Observe(p, bs, s).0
    ensures Stamped(bs, b', s.now)
  {
    NewIsPlaced(p, bs, s);
    var bs1 := SplitWhileFull(p, bs, s.id, s.now);
    var k := BucketIndex(bs1, s.id);
    var b := Place(p, bs1[k], Candidate(s), s.now);
    PlaceStamps(p, bs1[k], Candidate(s), s.now);
    hide Place, SplitWhileFull, Observe, Inv;
    if b' == b {
      if s.id in Ids(b.contacts) {
        assert forall d :: d in bs ==> s.id !in Ids(d.contacts);
      } else {
        assert bs1[k] in bs1;
        SplitStamps(p, bs, s.id, s.now, bs1[k]);
        FromSplitStamped(p, bs, bs1[k], s.now);
        SameMembersStamped(bs, bs1[k], b, s.now);
      }
    } else {
      assert b' in bs1;
      SplitStamps(p, bs, s.id, s.now, b');
      FromSplitStamped(p, bs, b', s.now);
    }
  }

  lemma PlaceStamps(p: Params, b: BucketInfo, c: ContactInfo, now: int)
    ensures var b' := Place(p, b, c, now);
            && b'.Range() == b.Range()
            && (c.id in Ids(b'.contacts) && c.id !in Ids(b.contacts) ==> b'.lastChanged == now)
            && (c.id !in Ids(b'.contacts) ==> b'.contacts == b.contacts && b'.lastChanged == b.lastChanged)
  {
    var b' := Place(p, b, c, now);
    if b'.contacts != b.contacts { assert b'.contacts[|b'.contacts| - 1] in b'.contacts; }
  }

  /** Only additions, evictions, promotions and splits stamp a bucket, with the time of the operation. */
  lemma StampsTell(p: Params, bs: Table, op: Op, b': BucketInfo)
    requires Inv(p, bs) && OpOk(p, op) && !op.DoRefreshStamp? && b' in Apply(p, bs, op)
    ensures Stamped(bs, b', if op.DoObserve? then op.s.now else op.now)
  {
    if b' in bs {
      var k :| 0 <= k < |bs| && bs[k] == b';
      StampedFrom(p, bs, k, b', if op.DoObserve? then op.s.now else op.now);
    } else {
      match op
      case DoObserve(s) =>
        KnownIsFound(p, bs, s.id);
        var k := BucketIndex(bs, s.id);
        var i := FindId(bs[k].contacts, s.id);
        if Known(bs, s.id) {
          SameIds(bs[k].contacts, i, Refresh(bs[k].contacts[i], s));
          StampedFrom(p, bs, k, b', s.now);
        } else {
          NewStamps(p, bs, s, b');
        }
      case DoMarkFailure(id, now) => MissStamps(p, bs, id, now, b');
    }
  }

  lemma MissStamps(p: Params, bs: Table, id: nat, now: int, b': BucketInfo)
    requires Inv(p, bs) && id < Pow2(p.bits) && b' in MarkFailure(p, bs, id, now) && b' !in bs
    ensures Stamped(bs, b', now)
  {
    BucketCovers(p, bs, id);
    var k := BucketIndex(bs, id);
    var cs, rs := bs[k].contacts, bs[k].replacements;
    var i := FindId(cs, id);
    assert bs[k] in bs && i < |cs|;
    SameIds(cs, i, Failed(cs[i]));
    if b'.replacements != rs {
      assert RemoveAt(cs[i := Failed(cs[i])], i) == RemoveAt(cs, i);
      RemoveAtIds(cs, i);
      AppendIds(RemoveAt(cs, i), rs[|rs| - 1]);
      assert cs[i] in cs && rs[|rs| - 1] in rs;
      assert id in Ids(cs) && rs[|rs| - 1].id in Ids(rs);
      assert id !in Ids(b'.contacts);
    }
    hide Inv, MarkFailure;
    StampedFrom(p, bs, k, b', now);
  }
}
