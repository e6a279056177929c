/** `closest`: the contacts nearest a target in the exclusive-or metric. */
module Nearest {
  import opened NearestFirst
  import opened XorMetric
  import opened Tilings
  import opened RoutingModel
  import opened RoutingProperties

  function AllContacts(bs: Table): seq<ContactInfo> {
    if bs == [] then [] else bs[0].contacts + AllContacts(bs[1..])
  }

  /** What `closest` filters for. */
  predicate Eligible(p: Params, c: ContactInfo, goodOnly: bool, now: int) {
    !c.readOnly && (goodOnly ==> c.State(p, now) == Good)
  }

  function Select(p: Params, cs: seq<ContactInfo>, goodOnly: bool, now: int): seq<ContactInfo> {
    if cs == [] then []
    else (if Eligible(p, cs[0], goodOnly, now) then [cs[0]] else []) + Select(p, cs[1..], goodOnly, now)
  }

  /** The sort key of `closest`. */
  function DistanceTo(target: nat): ContactInfo -> nat {
    (c: ContactInfo) => Xor(c.id, target)
  }

  function Closest(p: Params, bs: Table, target: nat, limit: nat, goodOnly: bool, now: int): seq<ContactInfo> {
    Take(SortNear(Select(p, AllContacts(bs), goodOnly, now), DistanceTo(target)), limit)
  }

  // ---- What it means to be the nearest ----

  /** The eligible contacts of a table. */
  ghost function Offered(p: Params, bs: Table, goodOnly: bool, now: int): set<ContactInfo> {
    set b, c | b in bs && c in b.contacts && Eligible(p, c, goodOnly, now) :: c
  }

  ghost predicate IsNearest(p: Params, bs: Table, target: nat, limit: nat, goodOnly: bool, now: int,
                            q: seq<ContactInfo>) {
    NearestOf(q, Offered(p, bs, goodOnly, now), DistanceTo(target), limit)
  }

  lemma OfferedHolds(p: Params, bs: Table, goodOnly: bool, now: int, c: ContactInfo)
    ensures c in Offered(p, bs, goodOnly, now) <==> Holds(bs, c) && Eligible(p, c, goodOnly, now)
  {
    if Holds(bs, c) {
      var k :| 0 <= k < |bs| && c in bs[k].contacts;
      assert bs[k] in bs;
    }
  }

  lemma {:induction false} AllContactsHolds(bs: Table, c: ContactInfo)
    ensures c in AllContacts(bs) <==> Holds(bs, c)
  {
    if bs != [] {
      AllContactsHolds(bs[1..], c);
      if Holds(bs[1..], c) {
        var k :| 0 <= k < |bs| - 1 && c in bs[1..][k].contacts;
        assert c in bs[k + 1].contacts;
      }
      if Holds(bs, c) && c !in bs[0].contacts {
        var k :| 0 <= k < |bs| && c in bs[k].contacts;
        assert c in bs[1..][k - 1].contacts;
      }
    }
  }

  lemma {:induction false} AllContactsDistinct(bs: Table)
    requires AllIdsDistinct(bs)
    ensures DistinctIds(AllContacts(bs))
  {
    if bs != [] {
      var rest := bs[1..];
      assert AllIdsDistinct(rest) by {
        assert forall k :: 0 <= k < |rest| ==> rest[k] == bs[k + 1];
      }
      AllContactsDistinct(rest);
      var h := bs[0].contacts;
      var t := AllContacts(rest);
      assert bs[0] in bs;
      var all: seq<ContactInfo> := h + t;
      forall i, j | 0 <= i < j < |all|
        ensures all[i].id != all[j].id
      {
        if i < |h| <= j {
          var d := t[j - |h|];
          assert d in t;
          AllContactsHolds(rest, d);
          var k :| 0 <= k < |rest| && d in rest[k].contacts;
          assert h[i].id in Ids(bs[0].contacts) && d.id in Ids(bs[k + 1].contacts);
        }
      }
    }
  }

  lemma {:induction false} SelectContents(p: Params, cs: seq<ContactInfo>, goodOnly: bool, now: int)
    ensures forall c :: c in Select(p, cs, goodOnly, now) <==> c in cs && Eligible(p, c, goodOnly, now)
    ensures DistinctIds(cs) ==> DistinctIds(Select(p, cs, goodOnly, now))
  {
    hide Eligible;
    if cs != [] {
      SelectContents(p, cs[1..], goodOnly, now);
      assert forall c :: c in cs <==> c == cs[0] || c in cs[1..];
      if DistinctIds(cs) {
        assert DistinctIds(cs[1..]);
        PrependDistinct(cs[0], cs[1..], Select(p, cs[1..], goodOnly, now));
      }
    }
  }

  lemma PrependDistinct(c: ContactInfo, cs: seq<ContactInfo>, part: seq<ContactInfo>)
    requires DistinctIds([c] + cs) && DistinctIds(part) && forall d :: d in part ==> d in cs
    ensures DistinctIds([c] + part)
  {
    forall j | 0 <= j < |part|
      ensures part[j].id != c.id
    {
      assert part[j] in part;
      var k :| 0 <= k < |cs| && cs[k] == part[j];
      assert ([c] + cs)[k + 1] == cs[k] && ([c] + cs)[0] == c;
    }
  }

  lemma DistinctIdsApart(cs: seq<ContactInfo>, target: nat)
    requires DistinctIds(cs)
    ensures DistinctDistances(cs, DistanceTo(target))
  {
    hide Xor;
    forall i, j | 0 <= i < j < |cs| ensures Xor(cs[i].id, target) != Xor(cs[j].id, target) {
      if Xor(cs[i].id, target) == Xor(cs[j].id, target) { XorInjective(cs[i].id, cs[j].id, target); }
    }
  }

  lemma ClosestIsNearest(p: Params, bs: Table, target: nat, limit: nat, goodOnly: bool, now: int)
    requires Inv(p, bs)
    ensures IsNearest(p, bs, target, limit, goodOnly, now, Closest(p, bs, target, limit, goodOnly, now))
  {
    var all := AllContacts(bs);
    var sel := Select(p, all, goodOnly, now);
    InvDistinct(p, bs);
    AllContactsDistinct(bs);
    SelectContents(p, all, goodOnly, now);
    DistinctIdsApart(sel, target);
    hide Inv, Select, SortNear, AllContacts, AllIdsDistinct, DistinctIds, Eligible, Holds, Xor, DistanceTo, Offered;
    SortNearSorted(sel, DistanceTo(target));
    var sorted := SortNear(sel, DistanceTo(target));
    forall c
      ensures c in Offered(p, bs, goodOnly, now) <==> c in sorted
    {
      OfferedHolds(p, bs, goodOnly, now, c);
      AllContactsHolds(bs, c);
      SortNearMember(sel, DistanceTo(target), c);
    }
    TakeIsNearest(sorted, Offered(p, bs, goodOnly, now), DistanceTo(target), limit);
  }

  /** The nearest list is unique, so `closest` returns the one and only list that `IsNearest` describes. */
  lemma ClosestIsTheOnlyNearest(p: Params, bs: Table, target: nat, limit: nat, goodOnly: bool, now: int,
                                q: seq<ContactInfo>)
    requires Inv(p, bs)
    ensures IsNearest(p, bs, target, limit, goodOnly, now, q) <==> q == Closest(p, bs, target, limit, goodOnly, now)
  {
    ClosestIsNearest(p, bs, target, limit, goodOnly, now);
    if IsNearest(p, bs, target, limit, goodOnly, now, q) {
      var pool := Offered(p, bs, goodOnly, now);
      forall c, d | c in pool && d in pool && DistanceTo(target)(c) == DistanceTo(target)(d) ensures c == d {
        OfferedHolds(p, bs, goodOnly, now, c);
        OfferedHolds(p, bs, goodOnly, now, d);
        XorInjective(c.id, d.id, target);
        SameContact(p, bs, c, d);
      }
      NearestUnique(q, Closest(p, bs, target, limit, goodOnly, now), pool, DistanceTo(target), limit);
    }
  }

  /** One identifier, one contact. */
  lemma SameContact(p: Params, bs: Table, c: ContactInfo, d: ContactInfo)
    requires Inv(p, bs) && Holds(bs, c) && Holds(bs, d) && c.id == d.id
    ensures c == d
  {
    var j :| 0 <= j < |bs| && c in bs[j].contacts;
    var k :| 0 <= k < |bs| && d in bs[k].contacts;
    assert bs[j] in bs && bs[k] in bs;
    assert bs[j].Has(c.id) && bs[k].Has(c.id);
    BucketCovers(p, bs, c.id) by { HeldInSpace(p, bs, j, c.id); }
    assert j == k;
    OneId(bs[j].contacts, c, d) by { assert GoodBucket(p, bs[j]); }
  }

  lemma HeldInSpace(p: Params, bs: Table, k: nat, id: nat)
    requires Inv(p, bs) && k < |bs| && bs[k].Has(id)
    ensures id < Pow2(p.bits)
  {
    InvPartition(p, bs);
    assert bs[k].Range() == Ranges(bs)[k];
    if k < |bs| - 1 { PartitionOrdered(Ranges(bs), 0, Pow2(p.bits), k, |bs| - 1); }
  }

  lemma OneId(cs: seq<ContactInfo>, c: ContactInfo, d: ContactInfo)
    requires DistinctIds(cs) && c in cs && d in cs && c.id == d.id
    ensures c == d
  {
  }

  /** The same in terms of the metric and the states: `closest` returns contacts that are not read-only and GOOD if
      that is asked for, strictly ascending in distance; whoever is left out is farther than all of them, and is
      left out only when the limit is reached. */
  lemma ClosestByXor(p: Params, bs: Table, target: nat, limit: nat, goodOnly: bool, now: int)
    requires Inv(p, bs)
    ensures var q := Closest(p, bs, target, limit, goodOnly, now);
            && |q| <= limit
            && (forall i, j :: 0 <= i < j < |q| ==> Xor(q[i].id, target) < Xor(q[j].id, target))
            && (forall c :: c in q ==> Holds(bs, c) && !c.readOnly && (goodOnly ==> c.State(p, now) == Good))
            && (forall c :: Holds(bs, c) && !c.readOnly && (goodOnly ==> c.State(p, now) == Good) && c !in q ==>
                  |q| == limit && forall d :: d in q ==> Xor(d.id, target) < Xor(c.id, target))
  {
    ClosestIsNearest(p, bs, target, limit, goodOnly, now);
    var q, dist := Closest(p, bs, target, limit, goodOnly, now), DistanceTo(target);
    hide Closest, Inv, Xor, Offered;
    forall c ensures c in Offered(p, bs, goodOnly, now) <==>
                     Holds(bs, c) && !c.readOnly && (goodOnly ==> c.State(p, now) == Good) {
      OfferedHolds(p, bs, goodOnly, now, c);
    }
    assert forall c :: dist(c) == Xor(c.id, target);
  }
}
