/** What every run of the routing table keeps, what one operation may change,
    and what `closest` returns. */
module RoutingProperties {
  import opened Wrappers
  import opened XorMetric
  import opened Tilings
  import opened RoutingModel

  // ---- Runs ----

  /** Everything the program ever does to a routing table. */
  datatype Op =
    | DoObserve(s: Sighting)
    | DoMarkFailure(id: nat, now: int)
    | DoRefreshStamp(k: nat, now: int)

  ghost predicate OpOk(p: Params, op: Op) {
    match op
    case DoObserve(s) => s.id < Pow2(p.bits)
    case DoMarkFailure(id, _) => id < Pow2(p.bits)
    case DoRefreshStamp(_, _) => true
  }

  /** `maintenance_once` restamps a stale bucket. */
  function Restamp(bs: Table, k: nat, now: int): Table {
    if k < |bs| then bs[k := bs[k].(lastChanged := now)] else bs
  }

  ghost function Apply(p: Params, bs: Table, op: Op): Table
    requires Inv(p, bs) && OpOk(p, op)
  {
    match op
    case DoObserve(s) => Observe(p, bs, s).0
    case DoMarkFailure(id, now) => MarkFailure(p, bs, id, now)
    case DoRefreshStamp(k, now) => Restamp(bs, k, now)
  }

  lemma InvApply(p: Params, bs: Table, op: Op)
    requires Inv(p, bs) && OpOk(p, op)
    ensures Inv(p, Apply(p, bs, op))
  {
    match op
    case DoObserve(s) => InvObserve(p, bs, s);
    case DoMarkFailure(id, now) => InvMarkFailure(p, bs, id, now);
    case DoRefreshStamp(k, now) =>
      if k < |bs| {
        assert bs[k] in bs;
        InvReplaceBucket(p, bs, k, bs[k].(lastChanged := now));
      }
  }

  ghost predicate OpsOk(p: Params, ops: seq<Op>) {
    forall op :: op in ops ==> OpOk(p, op)
  }

  /** The table after any run that started from the empty table. That every operation of the run is defined at all rests
      on the invariant, which the operations before it have kept. */
  ghost function Run(p: Params, start: int, ops: seq<Op>): (r: Table)
    requires p.Valid() && OpsOk(p, ops)
    ensures Inv(p, r)
    decreases |ops|
  {
    if ops == [] then
      InvFresh(p, start);
      Fresh(p, start)
    else
      var last := |ops| - 1;
      var before := Run(p, start, ops[..last]);
      InvApply(p, before, ops[last]);
      Apply(p, before, ops[last])
  }

  /** Whether two positions, in contact or replacement lists, hold the same identifier. */
  ghost predicate AllIdsDistinct(bs: Table) {
    && (forall b :: b in bs ==> DistinctIds(b.contacts) && DistinctIds(b.replacements)
                                && Ids(b.contacts) !! Ids(b.replacements))
    && (forall j, k :: 0 <= j < k < |bs| ==>
          Ids(bs[j].contacts) + Ids(bs[j].replacements) !! Ids(bs[k].contacts) + Ids(bs[k].replacements))
  }

  lemma InvDistinct(p: Params, bs: Table)
    requires Inv(p, bs)
    ensures AllIdsDistinct(bs)
  {
    InvPartition(p, bs);
    forall j, k | 0 <= j < k < |bs|
      ensures Ids(bs[j].contacts) + Ids(bs[j].replacements) !! Ids(bs[k].contacts) + Ids(bs[k].replacements)
    {
      PartitionOrdered(Ranges(bs), 0, Pow2(p.bits), j, k);
      assert bs[j] in bs && bs[k] in bs;
      assert bs[j].Range().high <= bs[k].Range().low;
    }
  }

  /** The structure that the program relies on without checking, after every run. */
  lemma EveryRunKeepsTheInvariant(p: Params, start: int, ops: seq<Op>)
    requires p.Valid() && OpsOk(p, ops)
    ensures var bs := Run(p, start, ops);
            && Partition(Ranges(bs), 0, Pow2(p.bits))
            && AllIdsDistinct(bs)
            && (forall b, c :: b in bs && (c in b.contacts || c in b.replacements) ==> b.Has(c.id) && c.id != p.local)
            && (forall b :: b in bs ==> |b.contacts| <= K && |b.replacements| <= K)
            && (forall b :: b in bs && b.replacements != [] ==>
                  |b.contacts| == K && !b.Has(p.local) && forall c :: c in b.contacts ==> c.failures < p.badAfter)
  {
    var bs := Run(p, start, ops);
    hide Run;
    InvPartition(p, bs);
    InvDistinct(p, bs);
  }

  // ---- Shells and bounds ----

  /** The exponent of the width of bucket k. */
  ghost predicate ShellOf(p: Params, b: BucketInfo, j: nat) {
    && b.high - b.low == Pow2(j)
    && if b.Has(p.local) then IsBall(p.local, b.Range(), j) else IsShell(p.local, b.Range(), j)
  }

  /** Integer-midpoint buckets are exclusive-or shells: the bucket of the local identifier is a ball
      2^i, every other bucket is a shell 2^j with i <= j, and no two buckets share an exponent
      unless one of them is the local bucket. */
  lemma BucketsAreShells(p: Params, bs: Table) returns (js: seq<nat>)
    requires Inv(p, bs)
    ensures |js| == |bs|
    ensures forall k :: 0 <= k < |bs| ==> ShellOf(p, bs[k], js[k])
    ensures forall k :: 0 <= k < |bs| ==>
                          if bs[k].Has(p.local) then js[k] == LocalExponent(p, bs)
                          else LocalExponent(p, bs) <= js[k] < p.bits
    ensures forall k, m :: 0 <= k < m < |bs| && !bs[k].Has(p.local) && !bs[m].Has(p.local) ==> js[k] != js[m]
  {
    hide *;
    js := [];
    while |js| < |bs|
      invariant |js| <= |bs|
      invariant forall k :: 0 <= k < |js| ==> ShellOf(p, bs[k], js[k])
      invariant forall k :: 0 <= k < |js| ==>
                              if bs[k].Has(p.local) then js[k] == LocalExponent(p, bs)
                              else LocalExponent(p, bs) <= js[k] < p.bits
    {
      var j := ShellAt(p, bs, |js|);
      js := js + [j];
    }
    forall k, m | 0 <= k < m < |bs| && !bs[k].Has(p.local) && !bs[m].Has(p.local)
      ensures js[k] != js[m]
    {
      BucketsOrdered(p, bs, k, m);
      ShellsDiffer(p, bs[k], bs[m], js[k], js[m]);
    }
  }

  lemma ShellAt(p: Params, bs: Table, k: nat) returns (j: nat)
    requires Inv(p, bs) && k < |bs|
    ensures ShellOf(p, bs[k], j)
    ensures if bs[k].Has(p.local) then j == LocalExponent(p, bs) else LocalExponent(p, bs) <= j < p.bits
  {
    InvPartition(p, bs);
    hide GoodBucket;
    assert bs[k].Range() == Ranges(bs)[k];
    j := TilingShells(p.local, 0, p.bits, LocalExponent(p, bs), k);
  }

  lemma BucketsOrdered(p: Params, bs: Table, k: nat, m: nat)
    requires Inv(p, bs) && k < m < |bs|
    ensures 0 <= bs[k].low < bs[k].high <= bs[m].low
  {
    InvPartition(p, bs);
    hide Inv, Tiling;
    assert bs[k].Range() == Ranges(bs)[k] && bs[m].Range() == Ranges(bs)[m];
    PartitionOrdered(Ranges(bs), 0, Pow2(p.bits), k, m);
    if k > 0 { PartitionOrdered(Ranges(bs), 0, Pow2(p.bits), 0, k); }
  }

  lemma ShellsDiffer(p: Params, b: BucketInfo, c: BucketInfo, i: nat, j: nat)
    requires ShellOf(p, b, i) && ShellOf(p, c, j) && !b.Has(p.local) && !c.Has(p.local)
    requires 0 <= b.low < b.high <= c.low
    ensures i != j
  {
    hide Xor, Pow2;
    var x: nat := b.low;
    assert b.Range().Has(x) && !c.Range().Has(x);
  }

  /** With 160-digit identifiers there are never more than 158 buckets, and no bucket of a split table is narrower
      than 8. */
  lemma BucketBound(p: Params, bs: Table)
    requires Inv(p, bs) && p.bits == 160
    ensures |bs| <= 158
    ensures |bs| > 1 ==> forall b :: b in bs ==> b.high - b.low >= 8
  {
    if |bs| > 1 {
      var js := BucketsAreShells(p, bs);
      forall b | b in bs
        ensures b.high - b.low >= 8
      {
        var k :| 0 <= k < |bs| && bs[k] == b;
        assert Pow2(3) == 8;
        Pow2Grows(3, js[k]);
      }
    }
  }

  /** How often the split loop goes round. */
  ghost function Rounds(p: Params, bs: Table, id: nat, now: int): nat
    requires Inv(p, bs) && p.Foreign(id) && !Known(bs, id)
    decreases LocalExponent(p, bs)
  {
    BucketCovers(p, bs, id);
    var k := BucketIndex(bs, id);
    if |bs[k].contacts| >= K && bs[k].Has(p.local) then
      InvSplit(p, bs, k, id, now);
      1 + Rounds(p, SplitAt(bs, k, now), id, now)
    else 0
  }

  /** Every round of the loop adds one bucket. */
  lemma {:induction false} RoundsAddBuckets(p: Params, bs: Table, id: nat, now: int)
    requires Inv(p, bs) && p.Foreign(id) && !Known(bs, id)
    ensures |SplitWhileFull(p, bs, id, now)| == |bs| + Rounds(p, bs, id, now)
    decreases LocalExponent(p, bs)
  {
    BucketCovers(p, bs, id);
    var k := BucketIndex(bs, id);
    if |bs[k].contacts| >= K && bs[k].Has(p.local) {
      InvSplit(p, bs, k, id, now);
      RoundsAddBuckets(p, SplitAt(bs, k, now), id, now);
    }
  }

  /** The splits of one operation: only the sighting of a new identifier that is not read-only enters the loop. */
  ghost function SplitsOf(p: Params, bs: Table, op: Op): nat
    requires Inv(p, bs) && OpOk(p, op)
  {
    if !op.DoObserve? || op.s.id == p.local || op.s.readOnly || Known(bs, op.s.id) then 0
    else Rounds(p, bs, op.s.id, op.s.now)
  }

  lemma KnownIsFound(p: Params, bs: Table, id: nat)
    requires Inv(p, bs) && id < Pow2(p.bits)
    ensures BucketIndex(bs, id) < |bs|
    ensures Known(bs, id) <==> FindId(bs[BucketIndex(bs, id)].contacts, id) < |bs[BucketIndex(bs, id)].contacts|
  {
    BucketCovers(p, bs, id);
    var k := BucketIndex(bs, id);
    var i := FindId(bs[k].contacts, id);
    if i < |bs[k].contacts| {
      assert bs[k].contacts[i] in bs[k].contacts && bs[k] in bs;
      assert id in Ids(bs[k].contacts);
    } else {
      NotFoundUnknown(p, bs, id);
    }
  }

  lemma OperationAddsItsSplits(p: Params, bs: Table, op: Op)
    requires Inv(p, bs) && OpOk(p, op)
    ensures |Apply(p, bs, op)| == |bs| + SplitsOf(p, bs, op)
  {
    match op
    case DoObserve(s) =>
      KnownIsFound(p, bs, s.id);
      hide Rounds, SplitWhileFull, Known, Inv, Place, Refresh;
      if s.id != p.local && !s.readOnly && !Known(bs, s.id) {
        RoundsAddBuckets(p, bs, s.id, s.now);
      }
    case DoMarkFailure(id, now) => BucketCovers(p, bs, id);
    case DoRefreshStamp(k, now) =>
  }

  /** All the splits of a run. */
  ghost function Splits(p: Params, start: int, ops: seq<Op>): nat
    requires p.Valid() && OpsOk(p, ops)
    decreases |ops|
  {
    if ops == [] then 0
    else
      var last := |ops| - 1;
      Splits(p, start, ops[..last]) + SplitsOf(p, Run(p, start, ops[..last]), ops[last])
  }

  /** A table is split once for every bucket after the first: with 160-digit identifiers at most 157 times, ever. */
  lemma {:induction false} SplitsOfARun(p: Params, start: int, ops: seq<Op>)
    requires p.Valid() && OpsOk(p, ops)
    ensures Splits(p, start, ops) == |Run(p, start, ops)| - 1
    ensures p.bits == 160 ==> Splits(p, start, ops) <= 157
    decreases |ops|
  {
    if ops != [] {
      var last := |ops| - 1;
      SplitsOfARun(p, start, ops[..last]);
      OperationAddsItsSplits(p, Run(p, start, ops[..last]), ops[last]);
    }
    if p.bits == 160 { BucketBound(p, Run(p, start, ops)); }
  }

  // ---- What one operation may change ----

  ghost predicate Holds(bs: Table, c: ContactInfo) {
    exists k :: 0 <= k < |bs| && c in bs[k].contacts
  }

  /** A split moves every contact and drops none. */
  lemma SplitHolds(p: Params, bs: Table, k: nat, now: int)
    requires Inv(p, bs) && k < |bs|
    ensures forall c :: Holds(SplitAt(bs, k, now), c) <==> Holds(bs, c)
  {
    assert bs[k] in bs;
    forall c
      ensures Holds(SplitAt(bs, k, now), c) <==> Holds(bs, c)
    {
      SplitHoldsContact(bs, k, now, c);
    }
  }

  lemma HalvesShare(b: BucketInfo, now: int, c: ContactInfo)
    requires DistinctIds(b.contacts)
    ensures c in b.contacts <==> c in LeftHalf(b, now).contacts || c in RightHalf(b, now).contacts
  {
    InsideSplit(b.contacts, Tilings.Range(b.low, (b.low + b.high) / 2));
  }

  lemma SplitHoldsContact(bs: Table, k: nat, now: int, c: ContactInfo)
    requires k < |bs| && DistinctIds(bs[k].contacts)
    ensures Holds(SplitAt(bs, k, now), c) <==> Holds(bs, c)
  {
    HalvesShare(bs[k], now, c);
    hide LeftHalf, RightHalf, DistinctIds;
    var bs' := SplitAt(bs, k, now);
    assert bs'[k] == LeftHalf(bs[k], now) && bs'[k + 1] == RightHalf(bs[k], now);
    assert forall j :: 0 <= j < k ==> bs'[j] == bs[j];
    assert forall j :: k + 1 < j < |bs'| ==> bs'[j] == bs[j - 1];
    if Holds(bs, c) {
      var j :| 0 <= j < |bs| && c in bs[j].contacts;
      assert j > k ==> bs'[j + 1] == bs[j];
    }
    if Holds(bs', c) {
      var j :| 0 <= j < |bs'| && c in bs'[j].contacts;
    }
  }

  lemma {:induction false} SplitWhileFullHolds(p: Params, bs: Table, id: nat, now: int)
    requires Inv(p, bs) && p.Foreign(id) && !Known(bs, id)
    ensures forall c :: Holds(SplitWhileFull(p, bs, id, now), c) <==> Holds(bs, c)
    decreases LocalExponent(p, bs)
  {
    BucketCovers(p, bs, id);
    var k := BucketIndex(bs, id);
    if |bs[k].contacts| >= K && bs[k].Has(p.local) {
      InvSplit(p, bs, k, id, now);
      SplitHolds(p, bs, k, now);
      SplitWhileFullHolds(p, SplitAt(bs, k, now), id, now);
    }
  }

  lemma UpdateHolds(bs: Table, k: nat, b: BucketInfo)
    requires k < |bs|
    ensures forall c :: c in b.contacts ==> Holds(bs[k := b], c)
    ensures forall c :: Holds(bs[k := b], c) ==> c in b.contacts || Holds(bs, c)
    ensures forall c :: Holds(bs, c) ==> c in bs[k].contacts || Holds(bs[k := b], c)
  {
    var bs' := bs[k := b];
    assert bs'[k] == b;
    forall c | Holds(bs, c)
      ensures c in bs[k].contacts || Holds(bs', c)
    {
      var j :| 0 <= j < |bs| && c in bs[j].contacts;
      assert bs'[j] == if j == k then b else bs[j];
    }
  }

  /** A sighting adds at most the sighted identifier and never loses a contact that is not BAD;
      at most one contact, which was BAD, leaves the table. */
  lemma ObserveConserves(p: Params, bs: Table, s: Sighting)
    requires Inv(p, bs) && s.id < Pow2(p.bits)
    ensures var bs' := Observe(p, bs, s).0;
            && (forall c :: Holds(bs', c) ==> Holds(bs, c) || c.id == s.id)
            && (forall c :: Holds(bs, c) && c.id != s.id && c.failures < p.badAfter ==> Holds(bs', c))
            && (forall c, d ::
                  (Holds(bs, c) && c.id != s.id && !Holds(bs', c) && Holds(bs, d) && d.id != s.id && !Holds(bs', d))
                  ==> c == d)
  {
    if s.id != p.local {
      BucketCovers(p, bs, s.id);
      var k := BucketIndex(bs, s.id);
      var i := FindId(bs[k].contacts, s.id);
      if i < |bs[k].contacts| {
        var cs := bs[k].contacts[i := Refresh(bs[k].contacts[i], s)];
        UpdateHolds(bs, k, bs[k].(contacts := cs));
        forall c | c in bs[k].contacts && c.id != s.id ensures c in cs {
          var j :| 0 <= j < |cs| && bs[k].contacts[j] == c;
          assert cs[j] == c;
        }
        forall c | c in cs ensures c.id == s.id || c in bs[k].contacts {}
        forall c | c in bs[k].contacts ensures Holds(bs, c) {}
      } else if !s.readOnly {
        NotFoundUnknown(p, bs, s.id);
        SplitWhileFullHolds(p, bs, s.id, s.now);
        PlaceConserves(p, SplitWhileFull(p, bs, s.id, s.now), BucketIndex(SplitWhileFull(p, bs, s.id, s.now), s.id),
                       Candidate(s), s.now);
      }
    }
  }

  lemma PlaceConserves(p: Params, bs: Table, k: nat, c: ContactInfo, now: int)
    requires k < |bs|
    ensures var bs' := bs[k := Place(p, bs[k], c, now)];
            && (forall d :: Holds(bs', d) ==> Holds(bs, d) || d == c)
            && (forall d :: Holds(bs, d) && d.failures < p.badAfter ==> Holds(bs', d))
            && (forall d, e :: Holds(bs, d) && Holds(bs, e) && !Holds(bs', d) && !Holds(bs', e) ==> d == e)
  {
    var b, b' := bs[k], Place(p, bs[k], c, now);
    UpdateHolds(bs, k, b');
    var f := FindBad(p, b.contacts);
    forall d | d in b.contacts
      ensures Holds(bs, d)
      ensures d in b'.contacts || (|b.contacts| >= K && f < |b.contacts| && d == b.contacts[f])
    {
      var j :| 0 <= j < |b.contacts| && b.contacts[j] == d;
      if |b.contacts| < K {
        assert b'.contacts[j] == d;
      } else if f < |b.contacts| && j != f {
        assert b'.contacts[if j < f then j else j - 1] == d;
      }
    }
    forall d | d in b'.contacts ensures d == c || d in b.contacts {}
  }

  /** A counted failure changes one contact only; that contact leaves exactly when it has turned BAD
      and its bucket has a replacement, and then the most recent replacement takes its place. */
  lemma MarkFailureEffect(p: Params, bs: Table, id: nat, now: int)
    requires Inv(p, bs) && id < Pow2(p.bits)
    ensures var bs' := MarkFailure(p, bs, id, now);
            var k := BucketIndex(bs, id);
            && k < |bs| == |bs'|
            && (forall j :: 0 <= j < |bs| && j != k ==> bs'[j] == bs[j])
            && (!Known(bs, id) ==> bs' == bs)
            && forall c :: c in bs[k].contacts && c.id == id ==>
                 if c.failures + 1 >= p.badAfter && bs[k].replacements != [] then
                   && Ids(bs'[k].contacts)
                      == Ids(bs[k].contacts) - {id} + {bs[k].replacements[|bs[k].replacements| - 1].id}
                   && bs'[k].replacements == bs[k].replacements[..|bs[k].replacements| - 1]
                   && bs[k].replacements[|bs[k].replacements| - 1] in bs'[k].contacts
                 else
                   && Ids(bs'[k].contacts) == Ids(bs[k].contacts)
                   && Failed(c) in bs'[k].contacts
                   && bs'[k].replacements == bs[k].replacements
  {
    hide BucketIndex, FindId;
    BucketCovers(p, bs, id);
    var k := BucketIndex(bs, id);
    var b := bs[k];
    assert b in bs;
    var i := FindId(b.contacts, id);
    if i < |b.contacts| {
      assert b.contacts[i] in b.contacts && id in Ids(b.contacts);
      var cs := b.contacts[i := Failed(b.contacts[i])];
      SameIds(b.contacts, i, Failed(b.contacts[i]));
      assert cs[i] in cs;
      assert forall c :: c in b.contacts && c.id == id ==> c == b.contacts[i];
      hide Inv, GoodBucket, BucketIndex;
      if b.replacements != [] {
        var last := |b.replacements| - 1;
        assert RemoveAt(cs, i) == RemoveAt(b.contacts, i);
        RemoveAtIds(b.contacts, i);
        AppendIds(RemoveAt(b.contacts, i), b.replacements[last]);
        var ds := RemoveAt(cs, i) + [b.replacements[last]];
        assert ds[|ds| - 1] in ds;
      }
    }
  }

  /** A sighting of a foreign identifier is never lost: the identifier ends up among the contacts or
      the replacements of its bucket, unless it is new and read-only, when nothing changes. */
  lemma ObserveRemembers(p: Params, bs: Table, s: Sighting)
    requires Inv(p, bs) && p.Foreign(s.id)
    ensures var bs' := Observe(p, bs, s).0;
            var k := BucketIndex(bs', s.id);
            && k < |bs'|
            && (if s.readOnly && !Known(bs, s.id) then bs' == bs
                else s.id in Ids(bs'[k].contacts) + Ids(bs'[k].replacements))
            && (Known(bs, s.id) ==> Ranges(bs') == Ranges(bs) && Known(bs', s.id))
  {
    InvObserve(p, bs, s);
    BucketCovers(p, Observe(p, bs, s).0, s.id);
    KnownIsFound(p, bs, s.id);
    if Known(bs, s.id) {
      RefreshRemembers(p, bs, s);
    } else if !s.readOnly {
      NewRemembered(p, bs, s);
    }
  }

  lemma RefreshRemembers(p: Params, bs: Table, s: Sighting)
    requires Inv(p, bs) && p.Foreign(s.id) && Known(bs, s.id)
    requires var bs' := Observe(p, bs, s).0; BucketIndex(bs', s.id) < |bs'| && UniqueBucket(bs', s.id)
    ensures var bs' := Observe(p, bs, s).0;
            && s.id in Ids(bs'[BucketIndex(bs', s.id)].contacts)
            && Ranges(bs') == Ranges(bs) && Known(bs', s.id)
  {
    KnownIsFound(p, bs, s.id);
    var bs' := Observe(p, bs, s).0;
    var k := BucketIndex(bs, s.id);
    var i := FindId(bs[k].contacts, s.id);
    var b' := bs[k].(contacts := bs[k].contacts[i := Refresh(bs[k].contacts[i], s)]);
    assert bs' == bs[k := b'];
    hide Inv, Observe, Known;
    assert bs'[k] == b' && b' in bs';
    assert b'.contacts[i] in b'.contacts && s.id in Ids(b'.contacts);
    assert b'.Has(s.id);
    assert Ranges(bs') == Ranges(bs);
    IsKnown(bs', b', s.id);
  }

  lemma IsKnown(bs: Table, b: BucketInfo, id: nat)
    requires b in bs && id in Ids(b.contacts)
    ensures Known(bs, id)
  {
  }

  ghost predicate UniqueBucket(bs: Table, id: nat) {
    forall j :: 0 <= j < |bs| && bs[j].Has(id) ==> j == BucketIndex(bs, id)
  }

  lemma NewIsPlaced(p: Params, bs: Table, s: Sighting)
    requires Inv(p, bs) && p.Foreign(s.id) && !Known(bs, s.id) && !s.readOnly
    ensures var bs1 := SplitWhileFull(p, bs, s.id, s.now);
            var k := BucketIndex(bs1, s.id);
            && k < |bs1| && bs1[k].Has(s.id)
            && Observe(p, bs, s).0 == bs1[k := Place(p, bs1[k], Candidate(s), s.now)]
  {
    KnownIsFound(p, bs, s.id);
    BucketCovers(p, SplitWhileFull(p, bs, s.id, s.now), s.id);
    hide Place, Known, GoodBucket, SplitWhileFull;
  }

  lemma NewRemembered(p: Params, bs: Table, s: Sighting)
    requires Inv(p, bs) && p.Foreign(s.id) && !Known(bs, s.id) && !s.readOnly
    requires var bs' := Observe(p, bs, s).0; BucketIndex(bs', s.id) < |bs'| && UniqueBucket(bs', s.id)
    ensures var bs' := Observe(p, bs, s).0;
            var k := BucketIndex(bs', s.id);
            s.id in Ids(bs'[k].contacts) + Ids(bs'[k].replacements)
  {
    NewIsPlaced(p, bs, s);
    hide Inv, Observe, SplitWhileFull, Known, GoodBucket, Place, BucketIndex;
    var bs1 := SplitWhileFull(p, bs, s.id, s.now);
    var k1 := BucketIndex(bs1, s.id);
    var bs' := Observe(p, bs, s).0;
    PlaceRemembers(p, bs1[k1], Candidate(s), s.now);
    assert bs'[k1].Has(s.id);
  }

  lemma PlaceRemembers(p: Params, b: BucketInfo, c: ContactInfo, now: int)
    ensures var b' := Place(p, b, c, now);
            b'.Range() == b.Range() && c.id in Ids(b'.contacts) + Ids(b'.replacements)
  {
    var b' := Place(p, b, c, now);
    var f := FindId(b.replacements, c.id);
    if |b'.contacts| > 0 { assert b'.contacts[|b'.contacts| - 1] in b'.contacts; }
    if f < |b.replacements| { assert b.replacements[f] in b.replacements; }
    else if b'.replacements != [] { assert b'.replacements[|b'.replacements| - 1] in b'.replacements; }
  }

  // ---- What GOOD means ----

  /** Sighting `s` is a direct answer by contact `c` from the endpoint the table stores for it. */
  predicate Answered(s: Sighting, c: ContactInfo) {
    s.direct && s.id == c.id && s.ip == c.ip && s.port == c.port && c.lastResponse == Some(s.now)
  }

  ghost predicate Backed(c: ContactInfo, log: set<Sighting>) {
    && (c.everResponded ==> c.lastResponse.Some?)
    && (c.lastResponse.Some? ==> exists s :: s in log && Answered(s, c))
  }

  ghost predicate BackedTable(bs: Table, log: set<Sighting>) {
    forall b, c :: b in bs && (c in b.contacts || c in b.replacements) ==> Backed(c, log)
  }

  ghost function Sightings(ops: seq<Op>): set<Sighting> {
    set op | op in ops && op.DoObserve? :: op.s
  }

  lemma SplitAtBacked(p: Params, bs: Table, k: nat, now: int, log: set<Sighting>)
    requires Inv(p, bs) && k < |bs| && bs[k].replacements == [] && BackedTable(bs, log)
    ensures BackedTable(SplitAt(bs, k, now), log)
  {
    assert bs[k] in bs;
    InsideSplit(bs[k].contacts, Tilings.Range(bs[k].low, (bs[k].low + bs[k].high) / 2));
    forall b, c | b in SplitAt(bs, k, now) && (c in b.contacts || c in b.replacements)
      ensures Backed(c, log)
    {
      if b !in bs {
        assert b == LeftHalf(bs[k], now) || b == RightHalf(bs[k], now);
        assert c in bs[k].contacts;
      }
    }
  }

  lemma {:induction false} SplitBacked(p: Params, bs: Table, id: nat, now: int, log: set<Sighting>)
    requires Inv(p, bs) && p.Foreign(id) && !Known(bs, id) && BackedTable(bs, log)
    ensures BackedTable(SplitWhileFull(p, bs, id, now), log)
    decreases LocalExponent(p, bs)
  {
    BucketCovers(p, bs, id);
    var k := BucketIndex(bs, id);
    if |bs[k].contacts| >= K && bs[k].Has(p.local) {
      InvSplit(p, bs, k, id, now);
      SplitAtBacked(p, bs, k, now, log);
      SplitBacked(p, SplitAt(bs, k, now), id, now, log);
    }
  }

  lemma UpdateBacked(bs: Table, k: nat, b: BucketInfo, log: set<Sighting>)
    requires k < |bs| && BackedTable(bs, log)
    requires forall c :: c in b.contacts || c in b.replacements ==> Backed(c, log)
    ensures BackedTable(bs[k := b], log)
  {
  }

  lemma ObserveBacked(p: Params, bs: Table, s: Sighting, log: set<Sighting>)
    requires Inv(p, bs) && s.id < Pow2(p.bits) && BackedTable(bs, log) && s in log
    ensures BackedTable(Observe(p, bs, s).0, log)
  {
    hide Inv, SplitWhileFull, Known, BucketIndex, FindId;
    if s.id != p.local {
      BucketCovers(p, bs, s.id);
      var k := BucketIndex(bs, s.id);
      var b := bs[k];
      assert b in bs;
      var i := FindId(b.contacts, s.id);
      if i < |b.contacts| {
        assert b.contacts[i] in b.contacts;
        RefreshBacked(b.contacts[i], s, log);
        UpdateBacked(bs, k, b.(contacts := b.contacts[i := Refresh(b.contacts[i], s)]), log);
      } else if !s.readOnly {
        NotFoundUnknown(p, bs, s.id);
        SplitBacked(p, bs, s.id, s.now, log);
        var bs' := SplitWhileFull(p, bs, s.id, s.now);
        var k' := BucketIndex(bs', s.id);
        assert bs'[k'] in bs';
        assert s.direct ==> Answered(s, Candidate(s));
        UpdateBacked(bs', k', Place(p, bs'[k'], Candidate(s), s.now), log);
      }
    }
  }

  lemma MarkFailureBacked(p: Params, bs: Table, id: nat, now: int, log: set<Sighting>)
    requires Inv(p, bs) && id < Pow2(p.bits) && BackedTable(bs, log)
    ensures BackedTable(MarkFailure(p, bs, id, now), log)
  {
    BucketCovers(p, bs, id);
    var k := BucketIndex(bs, id);
    var b := bs[k];
    assert b in bs;
    var i := FindId(b.contacts, id);
    if i < |b.contacts| {
      var c := b.contacts[i];
      assert c in b.contacts && Backed(c, log);
      forall s | Answered(s, c) ensures Answered(s, Failed(c)) {}
      assert Backed(Failed(c), log);
      UpdateBacked(bs, k, MarkFailure(p, bs, id, now)[k], log);
    }
  }

  lemma ApplyBacked(p: Params, bs: Table, op: Op, log: set<Sighting>)
    requires Inv(p, bs) && OpOk(p, op) && BackedTable(bs, log)
    requires op.DoObserve? ==> op.s in log
    ensures BackedTable(Apply(p, bs, op), log)
  {
    match op
    case DoObserve(s) => ObserveBacked(p, bs, s, log);
    case DoMarkFailure(id, now) => MarkFailureBacked(p, bs, id, now, log);
    case DoRefreshStamp(k, now) =>
      if k < |bs| {
        assert bs[k] in bs;
        UpdateBacked(bs, k, bs[k].(lastChanged := now), log);
      }
  }

  lemma RefreshBacked(c: ContactInfo, s: Sighting, log: set<Sighting>)
    requires Backed(c, log) && s in log && s.id == c.id
    ensures Backed(Refresh(c, s), log)
  {
    var c' := Refresh(c, s);
    if s.direct {
      assert Answered(s, c');
    } else if c.lastResponse.Some? {
      var t :| t in log && Answered(t, c);
      assert Answered(t, c');
    }
  }

  /** Over every run, a contact or replacement is GOOD only if a direct answer from exactly the endpoint
      stored for it was seen, at its recorded response time; hearsay never makes a contact GOOD. */
  lemma GoodMeansAnswered(p: Params, start: int, ops: seq<Op>, b: BucketInfo, c: ContactInfo, now: int)
    requires p.Valid() && OpsOk(p, ops)
    requires b in Run(p, start, ops) && (c in b.contacts || c in b.replacements) && c.State(p, now) == Good
    ensures exists s :: DoObserve(s) in ops && Answered(s, c)
  {
    RunBacked(p, start, ops, Sightings(ops));
    hide Run;
    assert Backed(c, Sightings(ops));
    var s :| s in Sightings(ops) && Answered(s, c);
    assert DoObserve(s) in ops;
  }

  lemma {:induction false} RunBacked(p: Params, start: int, ops: seq<Op>, log: set<Sighting>)
    requires p.Valid() && OpsOk(p, ops) && Sightings(ops) <= log
    ensures BackedTable(Run(p, start, ops), log)
    decreases |ops|
  {
    if ops != [] {
      var last := |ops| - 1;
      assert Sightings(ops[..last]) <= Sightings(ops);
      RunBacked(p, start, ops[..last], log);
      assert ops[last] in ops;
      assert ops[last].DoObserve? ==> ops[last].s in Sightings(ops);
      ApplyBacked(p, Run(p, start, ops[..last]), ops[last], log);
    }
  }
}
