/** The routing table as a value: what `observe`, `mark_failure` and the split loop compute,
    and the invariant that every run keeps. `RoutingTable.dfy` ties the mutable table to it.

    Identifiers are `bits` binary digits long; the table itself uses 160. */
module RoutingModel {
  import opened Bytes
  import opened Wrappers
  import opened XorMetric
  import opened Tilings

  const K := 8

  /** The configuration and the identity a table is built with. */
  datatype Params = Params(bits: nat, local: nat, badAfter: nat, goodTtl: int) {
    predicate Valid() {
      local < Pow2(bits) && badAfter > 0
    }

    /** An identifier other than the local one. */
    predicate Foreign(id: nat) {
      id < Pow2(bits) && id != local
    }
  }

  datatype NodeState = Good | Questionable | Bad

  datatype ContactInfo = ContactInfo(
    id: nat, ip: string, port: int, firstSeen: int,
    lastResponse: Option<int>, lastQuery: Option<int>, failures: nat,
    everResponded: bool, readOnly: bool, clientVersion: Option<bytes>)
  {
    function State(p: Params, now: int): NodeState {
      if failures >= p.badAfter then Bad
      else if Within(lastResponse, p, now) || (everResponded && Within(lastQuery, p, now)) then Good
      else Questionable
    }

    static predicate Within(seen: Option<int>, p: Params, now: int) {
      seen.Some? && now - seen.value <= p.goodTtl
    }
  }

  datatype BucketInfo = BucketInfo(
    low: int, high: int, contacts: seq<ContactInfo>, replacements: seq<ContactInfo>, lastChanged: int)
  {
    function Range(): Range {
      Tilings.Range(low, high)
    }

    predicate Has(id: int) {
      low <= id < high
    }
  }

  type Table = seq<BucketInfo>

  /** One call of `observe`, with the clock reading it sees. */
  datatype Sighting = Sighting(
    id: nat, ip: string, port: int, direct: bool, incoming: bool,
    readOnly: bool, clientVersion: Option<bytes>, now: int)

  function Fresh(p: Params, now: int): Table {
    [BucketInfo(0, Pow2(p.bits), [], [], now)]
  }

  // ---- Searching ----

  /** The first bucket that contains `id`, or |bs|. */
  function BucketIndex(bs: Table, id: int): (k: nat)
    ensures k <= |bs|
    ensures k < |bs| ==> bs[k].Has(id)
    ensures forall j :: 0 <= j < k ==> !bs[j].Has(id)
  {
    if bs == [] then 0 else if bs[0].Has(id) then 0 else 1 + BucketIndex(bs[1..], id)
  }

  /** The first contact with identifier `id`, or |cs|. */
  function FindId(cs: seq<ContactInfo>, id: nat): (k: nat)
    ensures k <= |cs|
    ensures k < |cs| ==> cs[k].id == id
    ensures forall j :: 0 <= j < k ==> cs[j].id != id
  {
    if cs == [] then 0 else if cs[0].id == id then 0 else 1 + FindId(cs[1..], id)
  }

  /** The first contact in state BAD, or |cs|. */
  function FindBad(p: Params, cs: seq<ContactInfo>): (k: nat)
    ensures k <= |cs|
    ensures k < |cs| ==> cs[k].failures >= p.badAfter
    ensures forall j :: 0 <= j < k ==> cs[j].failures < p.badAfter
  {
    if cs == [] then 0 else if cs[0].failures >= p.badAfter then 0 else 1 + FindBad(p, cs[1..])
  }

  function RemoveAt<T>(s: seq<T>, k: nat): seq<T>
    requires k < |s|
  {
    s[..k] + s[k + 1..]
  }

  // ---- Splitting ----

  function Inside(cs: seq<ContactInfo>, r: Range): seq<ContactInfo> {
    if cs == [] then []
    else (if r.Has(cs[0].id) then [cs[0]] else []) + Inside(cs[1..], r)
  }

  function Outside(cs: seq<ContactInfo>, r: Range): seq<ContactInfo> {
    if cs == [] then []
    else (if r.Has(cs[0].id) then [] else [cs[0]]) + Outside(cs[1..], r)
  }

  function AtMostK(cs: seq<ContactInfo>): seq<ContactInfo> {
    if |cs| <= K then cs else cs[..K]
  }

  function LeftHalf(b: BucketInfo, now: int): BucketInfo {
    var r := Tilings.Range(b.low, (b.low + b.high) / 2);
    BucketInfo(r.low, r.high, Inside(b.contacts, r), AtMostK(Inside(b.replacements, r)), now)
  }

  function RightHalf(b: BucketInfo, now: int): BucketInfo {
    var r := Tilings.Range(b.low, (b.low + b.high) / 2);
    BucketInfo(r.high, b.high, Outside(b.contacts, r), AtMostK(Outside(b.replacements, r)), now)
  }

  function SplitAt(bs: Table, k: nat, now: int): Table
    requires k < |bs|
  {
    bs[..k] + [LeftHalf(bs[k], now), RightHalf(bs[k], now)] + bs[k + 1..]
  }

  // ---- The invariant ----

  ghost function Ids(cs: seq<ContactInfo>): set<nat> {
    set c | c in cs :: c.id
  }

  ghost predicate DistinctIds(cs: seq<ContactInfo>) {
    forall i, j :: 0 <= i < j < |cs| ==> cs[i].id != cs[j].id
  }

  ghost predicate GoodBucket(p: Params, b: BucketInfo) {
    && |b.contacts| <= K
    && |b.replacements| <= K
    && (forall c :: c in b.contacts ==> b.Has(c.id) && c.id != p.local)
    && (forall c :: c in b.replacements ==> b.Has(c.id) && c.id != p.local && c.failures == 0)
    && DistinctIds(b.contacts)
    && DistinctIds(b.replacements)
    && Ids(b.contacts) !! Ids(b.replacements)
    && (b.replacements != [] ==>
          && |b.contacts| == K
          && !b.Has(p.local)
          && forall c :: c in b.contacts ==> c.failures < p.badAfter)
  }

  function Ranges(bs: Table): (r: seq<Range>)
    ensures |r| == |bs| && forall k :: 0 <= k < |bs| ==> r[k] == bs[k].Range()
  {
    seq(|bs|, k requires 0 <= k < |bs| => bs[k].Range())
  }

  /** The exponent of the width of the bucket that holds the local identifier. */
  function LocalExponent(p: Params, bs: Table): int {
    p.bits + 1 - |bs|
  }

  ghost predicate Inv(p: Params, bs: Table) {
    && p.Valid()
    && (|bs| == 1 || 1 < |bs| <= p.bits - 2)
    && Ranges(bs) == Tiling(p.local, 0, p.bits, LocalExponent(p, bs))
    && forall b :: b in bs ==> GoodBucket(p, b)
  }

  lemma InvFresh(p: Params, now: int)
    requires p.Valid()
    ensures Inv(p, Fresh(p, now))
  {
    assert Ranges(Fresh(p, now)) == [Tilings.Range(0, Pow2(p.bits))];
  }

  lemma InvPartition(p: Params, bs: Table)
    requires Inv(p, bs)
    ensures Partition(Ranges(bs), 0, Pow2(p.bits))
  {
    TilingPartition(p.local, 0, p.bits, LocalExponent(p, bs));
  }

  /** Exactly one bucket covers an identifier. */
  lemma BucketCovers(p: Params, bs: Table, id: nat)
    requires Inv(p, bs) && id < Pow2(p.bits)
    ensures var k := BucketIndex(bs, id);
            && k < |bs|
            && forall j :: 0 <= j < |bs| && bs[j].Has(id) ==> j == k
  {
    InvPartition(p, bs);
    var i := PartitionCovers(Ranges(bs), 0, Pow2(p.bits), id);
    assert bs[i].Range().Has(id);
    var k := BucketIndex(bs, id);
    forall j | 0 <= j < |bs| && bs[j].Has(id)
      ensures j == k
    {
      assert bs[j].Range().Has(id) && bs[k].Range().Has(id);
      PartitionUnique(Ranges(bs), 0, Pow2(p.bits), id, j, k);
    }
  }

  // ---- Counting ----

  lemma {:induction false} DistinctCount(cs: seq<ContactInfo>)
    requires DistinctIds(cs)
    ensures |Ids(cs)| == |cs|
  {
    if cs != [] {
      var rest := cs[1..];
      DistinctCount(rest);
      assert cs == [cs[0]] + rest;
      assert Ids(cs) == {cs[0].id} + Ids(rest);
      assert cs[0].id !in Ids(rest);
    }
  }

  lemma {:induction false} Pigeonhole(s: set<nat>, lo: int, hi: int)
    requires forall x :: x in s ==> lo <= x < hi
    requires lo <= hi
    ensures |s| <= hi - lo
    decreases hi - lo
  {
    if lo < hi {
      var t := s - {hi - 1};
      Pigeonhole(t, lo, hi - 1);
      assert s <= t + {hi - 1};
    } else {
      assert s == {};
    }
  }

  /** A full bucket that holds the local identifier and has room for one more is at least 16 wide:
      the pigeonhole step behind termination of the split loop. */
  lemma SplitWidth(p: Params, bs: Table, k: nat, id: nat)
    requires Inv(p, bs) && k < |bs| && bs[k].Has(p.local) && |bs[k].contacts| >= K
    requires p.Foreign(id) && bs[k].Has(id) && id !in Ids(bs[k].contacts)
    ensures LocalExponent(p, bs) >= 4
    ensures bs[k].high == bs[k].low + Pow2(LocalExponent(p, bs))
    ensures bs[k].high - bs[k].low >= 16
  {
    var b := bs[k];
    var i := LocalExponent(p, bs);
    assert b.Range() == Ranges(bs)[k];
    TilingLocalWidth(p.local, 0, p.bits, i, k);
    assert b in bs;
    var s := Ids(b.contacts) + {p.local, id};
    DistinctCount(b.contacts);
    assert |{p.local, id}| == 2;
    assert Ids(b.contacts) !! {p.local, id};
    assert |s| == K + 2;
    Pigeonhole(s, b.low, b.high);
    if i < 4 {
      assert Pow2(3) == 8;
      Pow2Grows(i, 3);
    } else {
      assert Pow2(4) == 16;
      Pow2Grows(4, i);
    }
  }

  lemma {:induction false} Pow2Grows(a: nat, b: nat)
    requires a <= b
    ensures Pow2(a) <= Pow2(b)
    decreases b
  {
    if a < b {
      Pow2Grows(a, b - 1);
    }
  }

  // ---- A split keeps the invariant ----

  lemma {:induction false} InsideSplit(cs: seq<ContactInfo>, r: Range)
    requires DistinctIds(cs)
    ensures forall c :: c in Inside(cs, r) <==> c in cs && r.Has(c.id)
    ensures forall c :: c in Outside(cs, r) <==> c in cs && !r.Has(c.id)
    ensures DistinctIds(Inside(cs, r)) && DistinctIds(Outside(cs, r))
    ensures |Inside(cs, r)| + |Outside(cs, r)| == |cs|
  {
    if cs != [] {
      InsideSplit(cs[1..], r);
      assert forall c :: c in cs <==> c == cs[0] || c in cs[1..];
    }
  }

  lemma SplitRanges(bs: Table, k: nat, now: int)
    requires k < |bs|
    ensures Ranges(SplitAt(bs, k, now)) == Halve(Ranges(bs), k)
  {
  }

  ghost predicate Known(bs: Table, id: nat) {
    exists b :: b in bs && id in Ids(b.contacts)
  }

  lemma HalvesGood(p: Params, b: BucketInfo, now: int)
    requires GoodBucket(p, b) && b.Has(p.local)
    ensures GoodBucket(p, LeftHalf(b, now)) && GoodBucket(p, RightHalf(b, now))
    ensures Ids(LeftHalf(b, now).contacts) <= Ids(b.contacts)
    ensures Ids(RightHalf(b, now).contacts) <= Ids(b.contacts)
  {
    InsideSplit(b.contacts, Tilings.Range(b.low, (b.low + b.high) / 2));
    assert LeftHalf(b, now).replacements == [] && RightHalf(b, now).replacements == [];
  }

  lemma InvSplit(p: Params, bs: Table, k: nat, id: nat, now: int)
    requires Inv(p, bs) && k < |bs| && bs[k].Has(p.local) && |bs[k].contacts| >= K
    requires p.Foreign(id) && bs[k].Has(id) && !Known(bs, id)
    ensures Inv(p, SplitAt(bs, k, now)) && !Known(SplitAt(bs, k, now), id)
    ensures bs[k].replacements == []
    ensures LocalExponent(p, bs) >= 4
  {
    var b := bs[k];
    assert b in bs;
    SplitWidth(p, bs, k, id);
    var i := LocalExponent(p, bs);
    SplitRanges(bs, k, now);
    assert b.Range() == Ranges(bs)[k];
    TilingSplit(p.local, 0, p.bits, i, k);
    HalvesGood(p, b, now);
    var bs' := SplitAt(bs, k, now);
    forall b' | b' in bs'
      ensures GoodBucket(p, b') && id !in Ids(b'.contacts)
    {
      assert b' in bs || b' == LeftHalf(b, now) || b' == RightHalf(b, now);
    }
  }

  /** The loop of `observe`: split while the bucket of `id` is full and holds the local identifier. */
  function SplitWhileFull(p: Params, bs: Table, id: nat, now: int): (r: Table)
    requires Inv(p, bs) && p.Foreign(id) && !Known(bs, id)
    ensures Inv(p, r) && !Known(r, id)
    ensures var k := BucketIndex(r, id); k < |r| && (|r[k].contacts| < K || !r[k].Has(p.local))
    decreases LocalExponent(p, bs)
  {
    BucketCovers(p, bs, id);
    var k := BucketIndex(bs, id);
    if |bs[k].contacts| >= K && bs[k].Has(p.local) then
      InvSplit(p, bs, k, id, now);
      SplitWhileFull(p, SplitAt(bs, k, now), id, now)
    else bs
  }

  // ---- The operations ----

  /** What a sighting does to a contact that is already known. */
  function Refresh(c: ContactInfo, s: Sighting): ContactInfo {
    var c1 := if s.direct || (c.ip == s.ip && c.port == s.port) then c.(ip := s.ip, port := s.port) else c;
    var c2 := if s.direct then c1.(lastResponse := Some(s.now), everResponded := true, failures := 0) else c1;
    var c3 := if s.incoming then c2.(lastQuery := Some(s.now)) else c2;
    c3.(readOnly := s.readOnly,
        clientVersion := if s.clientVersion.Some? && s.clientVersion.value != [] then s.clientVersion
                         else c.clientVersion)
  }

  function Candidate(s: Sighting): ContactInfo {
    ContactInfo(s.id, s.ip, s.port, s.now,
                if s.direct then Some(s.now) else None,
                if s.incoming then Some(s.now) else None,
                0, s.direct, s.readOnly, s.clientVersion)
  }

  /** Where a new contact goes in its bucket once no split applies. */
  function Place(p: Params, b: BucketInfo, c: ContactInfo, now: int): BucketInfo {
    if |b.contacts| < K then
      b.(contacts := b.contacts + [c], lastChanged := now)
    else
      var k := FindBad(p, b.contacts);
      if k < |b.contacts| then
        b.(contacts := RemoveAt(b.contacts, k) + [c], lastChanged := now)
      else if FindId(b.replacements, c.id) == |b.replacements| then
        b.(replacements := (if |b.replacements| >= K then b.replacements[1..] else b.replacements) + [c])
      else b
  }

  function Observe(p: Params, bs: Table, s: Sighting): (r: (Table, Option<ContactInfo>))
    requires Inv(p, bs) && s.id < Pow2(p.bits)
  {
    if s.id == p.local then (bs, None)
    else
      BucketCovers(p, bs, s.id);
      var k := BucketIndex(bs, s.id);
      var i := FindId(bs[k].contacts, s.id);
      if i < |bs[k].contacts| then
        var c := Refresh(bs[k].contacts[i], s);
        (bs[k := bs[k].(contacts := bs[k].contacts[i := c])], Some(c))
      else
        var c := Candidate(s);
        if s.readOnly then (bs, Some(c))
        else
          NotFoundUnknown(p, bs, s.id);
          var bs' := SplitWhileFull(p, bs, s.id, s.now);
          var k' := BucketIndex(bs', s.id);
          (bs'[k' := Place(p, bs'[k'], c, s.now)], Some(c))
  }

  function Failed(c: ContactInfo): ContactInfo {
    c.(failures := c.failures + 1)
  }

  function MarkFailure(p: Params, bs: Table, id: nat, now: int): Table
    requires Inv(p, bs) && id < Pow2(p.bits)
  {
    BucketCovers(p, bs, id);
    var k := BucketIndex(bs, id);
    var b := bs[k];
    var i := FindId(b.contacts, id);
    if i == |b.contacts| then bs
    else
      var c := Failed(b.contacts[i]);
      var cs := b.contacts[i := c];
      if c.failures >= p.badAfter && b.replacements != [] then
        var last := |b.replacements| - 1;
        bs[k := b.(contacts := RemoveAt(cs, i) + [b.replacements[last]],
                   replacements := b.replacements[..last],
                   lastChanged := now)]
      else bs[k := b.(contacts := cs)]
  }

  lemma NotFoundUnknown(p: Params, bs: Table, id: nat)
    requires Inv(p, bs) && id < Pow2(p.bits)
    requires BucketIndex(bs, id) < |bs|
             && FindId(bs[BucketIndex(bs, id)].contacts, id) == |bs[BucketIndex(bs, id)].contacts|
    ensures !Known(bs, id)
  {
    BucketCovers(p, bs, id);
    forall b | b in bs
      ensures id !in Ids(b.contacts)
    {
      var j :| 0 <= j < |bs| && bs[j] == b;
      assert b.Has(id) ==> j == BucketIndex(bs, id);
    }
  }

  // ---- Every operation keeps the invariant ----

  lemma InvReplaceBucket(p: Params, bs: Table, k: nat, b: BucketInfo)
    requires Inv(p, bs) && k < |bs| && b.Range() == bs[k].Range() && GoodBucket(p, b)
    ensures Inv(p, bs[k := b])
  {
    assert Ranges(bs[k := b]) == Ranges(bs);
  }

  lemma PlaceKeepsBucket(p: Params, b: BucketInfo, c: ContactInfo, now: int)
    requires p.Valid() && GoodBucket(p, b) && b.Has(c.id) && c.id != p.local && c.failures == 0
    requires c.id !in Ids(b.contacts)
    requires |b.contacts| < K || !b.Has(p.local)
    ensures GoodBucket(p, Place(p, b, c, now))
  {
    assert Ids([]) == {};
    hide FindBad, FindId, Ids, DistinctIds, RemoveAt;
    var k := FindBad(p, b.contacts);
    if |b.contacts| < K {
      AppendIds(b.contacts, c);
    } else if k < |b.contacts| {
      EvictKeepsBucket(p, b, k, c, now);
      hide GoodBucket;
    } else {
      assert forall d :: d in b.contacts ==> d.failures < p.badAfter;
      EnqueueKeepsBucket(p, b, c);
      hide GoodBucket;
    }
  }

  lemma EvictKeepsBucket(p: Params, b: BucketInfo, k: nat, c: ContactInfo, now: int)
    requires p.Valid() && GoodBucket(p, b) && b.Has(c.id) && c.id != p.local && c.failures == 0
    requires c.id !in Ids(b.contacts) && k < |b.contacts| == K && b.contacts[k].failures >= p.badAfter
    ensures GoodBucket(p, b.(contacts := RemoveAt(b.contacts, k) + [c], lastChanged := now))
  {
    assert Ids([]) == {} && |RemoveAt(b.contacts, k)| == K - 1;
    hide Ids, DistinctIds, RemoveAt;
    assert b.contacts[k] in b.contacts;
    assert b.replacements == [];
    RemoveAtIds(b.contacts, k);
    AppendIds(RemoveAt(b.contacts, k), c);
  }

  lemma EnqueueKeepsBucket(p: Params, b: BucketInfo, c: ContactInfo)
    requires p.Valid() && GoodBucket(p, b) && b.Has(c.id) && c.id != p.local && c.failures == 0
    requires c.id !in Ids(b.contacts) && |b.contacts| == K && !b.Has(p.local)
    requires forall d :: d in b.contacts ==> d.failures < p.badAfter
    ensures FindId(b.replacements, c.id) == |b.replacements| ==>
      GoodBucket(p, b.(replacements := (if |b.replacements| >= K then b.replacements[1..] else b.replacements) + [c]))
  {
    if FindId(b.replacements, c.id) == |b.replacements| {
      var kept := if |b.replacements| >= K then b.replacements[1..] else b.replacements;
      assert forall d :: d in kept ==> d in b.replacements;
      assert DistinctIds(kept) && c.id !in Ids(kept);
      AppendIds(kept, c);
      hide FindId, Ids, DistinctIds;
    }
  }

  lemma PlaceRange(p: Params, b: BucketInfo, c: ContactInfo, now: int)
    ensures Place(p, b, c, now).low == b.low && Place(p, b, c, now).high == b.high
  {
  }

  lemma InvObserve(p: Params, bs: Table, s: Sighting)
    requires Inv(p, bs) && s.id < Pow2(p.bits)
    ensures Inv(p, Observe(p, bs, s).0)
  {
    hide SplitWhileFull, Place, BucketIndex, FindId;
    if s.id != p.local {
      BucketCovers(p, bs, s.id);
      var k := BucketIndex(bs, s.id);
      var b := bs[k];
      assert b in bs;
      var i := FindId(b.contacts, s.id);
      if i < |b.contacts| {
        RefreshKeepsBucket(p, b, i, Refresh(b.contacts[i], s));
        InvReplaceBucket(p, bs, k, b.(contacts := b.contacts[i := Refresh(b.contacts[i], s)]));
      } else if !s.readOnly {
        NotFoundUnknown(p, bs, s.id);
        var bs' := SplitWhileFull(p, bs, s.id, s.now);
        var k' := BucketIndex(bs', s.id);
        assert bs'[k'] in bs';
        PlaceKeepsBucket(p, bs'[k'], Candidate(s), s.now);
        PlaceRange(p, bs'[k'], Candidate(s), s.now);
        InvReplaceBucket(p, bs', k', Place(p, bs'[k'], Candidate(s), s.now));
      }
    }
  }

  lemma SameIds(cs: seq<ContactInfo>, i: nat, c: ContactInfo)
    requires i < |cs| && c.id == cs[i].id
    ensures Ids(cs[i := c]) == Ids(cs)
  {
    var ds := cs[i := c];
    forall x ensures x in Ids(ds) <==> x in Ids(cs) {
      if x in Ids(cs) {
        var j :| 0 <= j < |cs| && cs[j].id == x;
        assert ds[j] in ds && ds[j].id == x;
      }
      if x in Ids(ds) {
        var j :| 0 <= j < |ds| && ds[j].id == x;
        assert cs[j] in cs && cs[j].id == x;
      }
    }
  }

  lemma RefreshKeepsBucket(p: Params, b: BucketInfo, i: nat, c: ContactInfo)
    requires p.Valid() && GoodBucket(p, b) && i < |b.contacts| && c.id == b.contacts[i].id
    requires c.failures <= b.contacts[i].failures || c.failures < p.badAfter || b.replacements == []
    ensures GoodBucket(p, b.(contacts := b.contacts[i := c]))
  {
    SameIds(b.contacts, i, c);
  }

  lemma RemoveAtIds(cs: seq<ContactInfo>, k: nat)
    requires k < |cs| && DistinctIds(cs)
    ensures Ids(RemoveAt(cs, k)) == Ids(cs) - {cs[k].id}
    ensures DistinctIds(RemoveAt(cs, k))
    ensures forall c :: c in RemoveAt(cs, k) ==> c in cs
  {
    var ds := RemoveAt(cs, k);
    forall x ensures x in Ids(ds) <==> x in Ids(cs) && x != cs[k].id {
      if x in Ids(cs) && x != cs[k].id {
        var j :| 0 <= j < |cs| && cs[j].id == x;
        assert cs[j] == ds[if j < k then j else j - 1];
      }
    }
  }

  lemma AppendIds(cs: seq<ContactInfo>, c: ContactInfo)
    ensures Ids(cs + [c]) == Ids(cs) + {c.id}
    ensures DistinctIds(cs) && c.id !in Ids(cs) ==> DistinctIds(cs + [c])
  {
    assert forall d :: d in cs + [c] <==> d in cs || d == c;
    forall d | d in cs ensures d.id in Ids(cs) {}
  }

  lemma PromoteKeepsBucket(p: Params, b: BucketInfo, i: nat, c: ContactInfo, now: int)
    requires p.Valid() && GoodBucket(p, b) && i < |b.contacts| && c.id == b.contacts[i].id && b.replacements != []
    ensures var last := |b.replacements| - 1;
            GoodBucket(p, b.(contacts := RemoveAt(b.contacts[i := c], i) + [b.replacements[last]],
                             replacements := b.replacements[..last],
                             lastChanged := now))
  {
    var last := |b.replacements| - 1;
    var r := b.replacements[last];
    assert r in b.replacements;
    assert RemoveAt(b.contacts[i := c], i) == RemoveAt(b.contacts, i);
    assert RemoveAt(b.replacements, last) == b.replacements[..last];
    RemoveAtIds(b.contacts, i);
    RemoveAtIds(b.replacements, last);
    AppendIds(RemoveAt(b.contacts, i), r);
  }

  lemma InvMarkFailure(p: Params, bs: Table, id: nat, now: int)
    requires Inv(p, bs) && id < Pow2(p.bits)
    ensures Inv(p, MarkFailure(p, bs, id, now))
  {
    BucketCovers(p, bs, id);
    var k := BucketIndex(bs, id);
    var b := bs[k];
    assert b in bs;
    var i := FindId(b.contacts, id);
    if i < |b.contacts| {
      var c := Failed(b.contacts[i]);
      var last := |b.replacements| - 1;
      if c.failures >= p.badAfter && b.replacements != [] {
        var b' := b.(contacts := RemoveAt(b.contacts[i := c], i) + [b.replacements[last]],
                     replacements := b.replacements[..last], lastChanged := now);
        assert GoodBucket(p, b') by { PromoteKeepsBucket(p, b, i, c, now); }
        InvReplaceBucket(p, bs, k, b');
        assert MarkFailure(p, bs, id, now) == bs[k := b'];
      } else {
        var b' := b.(contacts := b.contacts[i := c]);
        assert GoodBucket(p, b') by { RefreshKeepsBucket(p, b, i, c); }
        InvReplaceBucket(p, bs, k, b');
        assert MarkFailure(p, bs, id, now) == bs[k := b'];
      }
    }
  }
}
