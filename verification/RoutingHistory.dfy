/** What an entry of the routing table says, read off the operations of the run alone: which answers, queries and
    failures of its identifier count, and what they make of it. */
module RoutingHistory {
  import opened Wrappers
  import opened XorMetric
  import opened Tilings
  import opened RoutingModel
  import opened RoutingProperties
  import opened NearestFirst
  import N = Nearest

  // ---- The story of an identifier ----

  datatype Event = Sighted(s: Sighting) | Missed

  ghost predicate Waiting(bs: Table, id: nat) {
    exists b :: b in bs && id in Ids(b.replacements)
  }

  ghost predicate Stored(bs: Table, id: nat) {
    Known(bs, id) || Waiting(bs, id)
  }

  /** What an operation says about an identifier. */
  ghost function Said(op: Op, id: nat): seq<Event> {
    match op
    case DoObserve(s) => if s.id == id then [Sighted(s)] else []
    case DoMarkFailure(x, _) => if x == id then [Missed] else []
    case DoRefreshStamp(_, _) => []
  }

  /** The sighting that stored an identifier the last time, and what was said about it afterwards while it was a
      contact; a waiting replacement hears nothing. */
  ghost function Story(p: Params, start: int, ops: seq<Op>, id: nat): seq<Event>
    requires p.Valid() && OpsOk(p, ops)
    decreases |ops|
  {
    if ops == [] then []
    else
      var last := |ops| - 1;
      var before := Run(p, start, ops[..last]);
      if !Stored(Run(p, start, ops), id) then []
      else if !Stored(before, id) then Said(ops[last], id)
      else Story(p, start, ops[..last], id) + if Known(before, id) then Said(ops[last], id) else []
  }

  predicate Direct(e: Event) { e.Sighted? && e.s.direct }

  predicate Incoming(e: Event) { e.Sighted? && e.s.incoming }

  predicate AnySighting(e: Event) { e.Sighted? }

  predicate Named(e: Event) { e.Sighted? && e.s.clientVersion.Some? && e.s.clientVersion.value != [] }

  /** The position of the last event of a kind, or -1. */
  function Last(h: seq<Event>, kind: Event -> bool): (i: int)
    ensures -1 <= i < |h|
    ensures 0 <= i ==> kind(h[i])
    ensures forall j :: i < j < |h| ==> !kind(h[j])
    decreases |h|
  {
    if h == [] then -1 else if kind(h[|h| - 1]) then |h| - 1 else Last(h[..|h| - 1], kind)
  }

  /** The failures behind position i. */
  function MissesAfter(h: seq<Event>, i: int): nat
    requires -1 <= i
    decreases |h|
  {
    if |h| - 1 <= i then 0 else MissesAfter(h[..|h| - 1], i) + if h[|h| - 1].Missed? then 1 else 0
  }

  /** What an entry has to say, given its story: failures count from the last direct answer, response and query times
      are the last ones, the endpoint is that of the last direct answer or else the first one seen. */
  ghost predicate Tells(c: ContactInfo, h: seq<Event>) {
    var answer, query, sight, name := Last(h, Direct), Last(h, Incoming), Last(h, AnySighting), Last(h, Named);
    && h != [] && h[0].Sighted? && h[0].s.id == c.id && c.firstSeen == h[0].s.now
    && c.failures == MissesAfter(h, answer)
    && c.lastResponse == (if answer < 0 then None else Some(h[answer].s.now))
    && (c.everResponded <==> answer >= 0)
    && c.lastQuery == (if query < 0 then None else Some(h[query].s.now))
    && (c.ip, c.port) == (var s := h[if answer < 0 then 0 else answer].s; (s.ip, s.port))
    && c.readOnly == h[sight].s.readOnly
    && c.clientVersion == h[if name < 0 then 0 else name].s.clientVersion
  }

  // ---- What one event does to an entry ----

  lemma LastAppend(h: seq<Event>, e: Event, kind: Event -> bool)
    ensures Last(h + [e], kind) == if kind(e) then |h| else Last(h, kind)
  {
    assert (h + [e])[..|h|] == h;
  }

  lemma MissesAppend(h: seq<Event>, e: Event, i: int)
    requires -1 <= i
    ensures MissesAfter(h + [e], i) == if |h| <= i then 0 else MissesAfter(h, i) + if e.Missed? then 1 else 0
  {
    assert (h + [e])[..|h|] == h;
  }

  lemma Append(h: seq<Event>, e: Event)
    ensures Last(h + [e], Direct) == if Direct(e) then |h| else Last(h, Direct)
    ensures Last(h + [e], Incoming) == if Incoming(e) then |h| else Last(h, Incoming)
    ensures Last(h + [e], AnySighting) == if AnySighting(e) then |h| else Last(h, AnySighting)
    ensures Last(h + [e], Named) == if Named(e) then |h| else Last(h, Named)
    ensures forall i :: 0 <= i < |h| ==> (h + [e])[i] == h[i]
  {
    LastAppend(h, e, Direct);
    LastAppend(h, e, Incoming);
    LastAppend(h, e, AnySighting);
    LastAppend(h, e, Named);
  }

  lemma RefreshTells(c: ContactInfo, h: seq<Event>, s: Sighting)
    requires Tells(c, h) && s.id == c.id
    ensures Tells(Refresh(c, s), h + [Sighted(s)])
  {
    Append(h, Sighted(s));
    MissesAppend(h, Sighted(s), Last(h + [Sighted(s)], Direct));
    hide Last, MissesAfter;
  }

  lemma FailedTells(c: ContactInfo, h: seq<Event>)
    requires Tells(c, h)
    ensures Tells(Failed(c), h + [Missed])
  {
    Append(h, Missed);
    MissesAppend(h, Missed, Last(h, Direct));
    hide Last, MissesAfter;
  }

  lemma CandidateTells(s: Sighting)
    ensures Tells(Candidate(s), [Sighted(s)])
  {
    assert [Sighted(s)][..0] == [];
  }

  // ---- Where the entries of a table come from ----

  ghost predicate Waits(bs: Table, c: ContactInfo) {
    exists b :: b in bs && c in b.replacements
  }

  /** What a contact becomes by an operation. */
  function Heard(c: ContactInfo, op: Op): ContactInfo {
    match op
    case DoObserve(s) => if s.id == c.id then Refresh(c, s) else c
    case DoMarkFailure(id, _) => if id == c.id then Failed(c) else c
    case DoRefreshStamp(_, _) => c
  }

  /** The operation sees an identifier that is not stored. */
  ghost predicate Enters(bs: Table, op: Op, c: ContactInfo) {
    !Stored(bs, c.id) && op.DoObserve? && op.s.id == c.id && c == Candidate(op.s)
  }

  ghost predicate ContactFrom(bs: Table, op: Op, c: ContactInfo) {
    (exists d :: Holds(bs, d) && c == Heard(d, op)) || Waits(bs, c) || Enters(bs, op, c)
  }

  /** Every entry after an operation comes from an entry before it, or from the sighting itself. */
  ghost predicate Explained(bs: Table, op: Op, bs': Table) {
    && (forall c :: Holds(bs', c) ==> ContactFrom(bs, op, c))
    && (forall c :: Waits(bs', c) ==> Waits(bs, c) || Enters(bs, op, c))
  }

  lemma HeldInBucket(p: Params, bs: Table, c: ContactInfo, k: nat)
    requires Inv(p, bs) && k < |bs|
    requires Holds(bs, c) && bs[k].Has(c.id)
    ensures c in bs[k].contacts
  {
    var j :| 0 <= j < |bs| && c in bs[j].contacts;
    assert bs[j] in bs && bs[j].Has(c.id);
    OneBucket(p, bs, j, k, c.id);
  }

  lemma WaitsInBucket(p: Params, bs: Table, id: nat, k: nat)
    requires Inv(p, bs) && k < |bs| && bs[k].Has(id)
    ensures Waiting(bs, id) <==> id in Ids(bs[k].replacements)
  {
    assert bs[k] in bs;
    if Waiting(bs, id) {
      var b :| b in bs && id in Ids(b.replacements);
      var j :| 0 <= j < |bs| && bs[j] == b;
      OneBucket(p, bs, j, k, id);
    }
  }

  lemma OneBucket(p: Params, bs: Table, j: nat, k: nat, id: nat)
    requires Inv(p, bs) && j < |bs| && k < |bs| && bs[j].Has(id) && bs[k].Has(id)
    ensures j == k
  {
    InvPartition(p, bs);
    hide Inv;
    assert bs[j].Range().Has(id) && bs[k].Range().Has(id);
    PartitionUnique(Ranges(bs), 0, Pow2(p.bits), id, j, k);
  }

  lemma SplitAtWaits(p: Params, bs: Table, k: nat, now: int)
    requires Inv(p, bs) && k < |bs| && bs[k].replacements == []
    ensures forall c :: Waits(SplitAt(bs, k, now), c) <==> Waits(bs, c)
  {
    forall c ensures Waits(SplitAt(bs, k, now), c) <==> Waits(bs, c) {
      SplitAtWaitsContact(bs, k, now, c);
    }
  }

  lemma SplitAtWaitsContact(bs: Table, k: nat, now: int, c: ContactInfo)
    requires k < |bs| && bs[k].replacements == []
    ensures Waits(SplitAt(bs, k, now), c) <==> Waits(bs, c)
  {
    var bs' := SplitAt(bs, k, now);
    assert bs'[k].replacements == [] && bs'[k + 1].replacements == [];
    hide LeftHalf, RightHalf;
    if Waits(bs, c) {
      var b :| b in bs && c in b.replacements;
      var j :| 0 <= j < |bs| && bs[j] == b;
      assert bs'[if j < k then j else j + 1] == b;
    }
    if Waits(bs', c) {
      var b :| b in bs' && c in b.replacements;
      var j :| 0 <= j < |bs'| && bs'[j] == b;
      assert bs[if j < k then j else j - 1] == b;
    }
  }

  lemma {:induction false} SplitWhileFullWaits(p: Params, bs: Table, id: nat, now: int)
    requires Inv(p, bs) && p.Foreign(id) && !Known(bs, id)
    ensures forall c :: Waits(SplitWhileFull(p, bs, id, now), c) <==> Waits(bs, c)
    decreases LocalExponent(p, bs)
  {
    BucketCovers(p, bs, id);
    var k := BucketIndex(bs, id);
    if |bs[k].contacts| >= K && bs[k].Has(p.local) {
      InvSplit(p, bs, k, id, now);
      SplitAtWaits(p, bs, k, now);
      SplitWhileFullWaits(p, SplitAt(bs, k, now), id, now);
    }
  }

  lemma WaitsIds(bs: Table, bs': Table, id: nat)
    requires forall c :: Waits(bs, c) <==> Waits(bs', c)
    ensures Waiting(bs, id) <==> Waiting(bs', id)
  {
    if Waiting(bs, id) {
      var b :| b in bs && id in Ids(b.replacements);
      var c :| c in b.replacements && c.id == id;
      assert Waits(bs', c);
    }
    if Waiting(bs', id) {
      var b :| b in bs' && id in Ids(b.replacements);
      var c :| c in b.replacements && c.id == id;
      assert Waits(bs, c);
    }
  }

  /** Bucket k becomes b, all others stay. */
  lemma ReplacedEntries(bs: Table, k: nat, b: BucketInfo)
    requires k < |bs|
    ensures forall c :: Holds(bs[k := b], c) ==>
            c in b.contacts || exists j :: 0 <= j < |bs| && j != k && c in bs[j].contacts
    ensures forall c :: Waits(bs[k := b], c) ==> c in b.replacements || Waits(bs, c)
  {
    var bs' := bs[k := b];
    forall c | Holds(bs', c)
      ensures c in b.contacts || exists j :: 0 <= j < |bs| && j != k && c in bs[j].contacts
    {
      var j :| 0 <= j < |bs'| && c in bs'[j].contacts;
    }
  }

  lemma RefreshExplained(p: Params, bs: Table, s: Sighting)
    requires Inv(p, bs) && p.Foreign(s.id) && Known(bs, s.id)
    ensures Explained(bs, DoObserve(s), Observe(p, bs, s).0)
  {
    KnownIsFound(p, bs, s.id);
    var k := BucketIndex(bs, s.id);
    var i := FindId(bs[k].contacts, s.id);
    var b := bs[k].(contacts := bs[k].contacts[i := Refresh(bs[k].contacts[i], s)]);
    assert Observe(p, bs, s).0 == bs[k := b];
    UpdatedExplained(p, bs, k, i, b, DoObserve(s));
  }

  /** Contact i of bucket k hears an operation about it; nothing else changes. */
  lemma UpdatedExplained(p: Params, bs: Table, k: nat, i: nat, b: BucketInfo, op: Op)
    requires Inv(p, bs) && k < |bs| && i < |bs[k].contacts| && b.replacements == bs[k].replacements
    requires b.contacts == bs[k].contacts[i := Heard(bs[k].contacts[i], op)]
    requires forall c: ContactInfo :: c.id != bs[k].contacts[i].id ==> Heard(c, op) == c
    ensures Explained(bs, op, bs[k := b])
  {
    assert bs[k] in bs;
    var cs := bs[k].contacts;
    ReplacedEntries(bs, k, b);
    forall c | Holds(bs[k := b], c) ensures ContactFrom(bs, op, c) {
      if c in b.contacts {
        var j :| 0 <= j < |b.contacts| && b.contacts[j] == c;
        assert Holds(bs, cs[j]);
        assert c == Heard(cs[j], op);
      } else {
        var j :| 0 <= j < |bs| && j != k && c in bs[j].contacts;
        OtherId(p, bs, k, i, j, c);
        assert Holds(bs, c) && c == Heard(c, op);
      }
    }
  }

  lemma OtherId(p: Params, bs: Table, k: nat, i: nat, j: nat, c: ContactInfo)
    requires Inv(p, bs) && k < |bs| && i < |bs[k].contacts| && j < |bs| && j != k && c in bs[j].contacts
    ensures c.id != bs[k].contacts[i].id
  {
    assert bs[j] in bs && bs[k] in bs && bs[k].contacts[i] in bs[k].contacts;
    if c.id == bs[k].contacts[i].id { OneBucket(p, bs, j, k, c.id); }
  }

  lemma NewExplained(p: Params, bs: Table, s: Sighting)
    requires Inv(p, bs) && p.Foreign(s.id) && !Known(bs, s.id) && !s.readOnly
    ensures Explained(bs, DoObserve(s), Observe(p, bs, s).0)
  {
    NewIsPlaced(p, bs, s);
    SplitWhileFullHolds(p, bs, s.id, s.now);
    SplitWhileFullWaits(p, bs, s.id, s.now);
    var bs1 := SplitWhileFull(p, bs, s.id, s.now);
    var k := BucketIndex(bs1, s.id);
    WaitsIds(bs, bs1, s.id);
    WaitsInBucket(p, bs1, s.id, k);
    PlaceSources(p, bs1[k], Candidate(s), s.now) by { assert bs1[k] in bs1; }
    var b := Place(p, bs1[k], Candidate(s), s.now);
    hide Inv, SplitWhileFull, Place, Observe, Waiting, Refresh;
    ReplacedEntries(bs1, k, b);
    forall c | Holds(bs1[k := b], c) ensures ContactFrom(bs, DoObserve(s), c) {
      if c in b.contacts && c == Candidate(s) {
        assert Enters(bs, DoObserve(s), c);
      } else {
        assert Holds(bs1, c);
        assert Holds(bs, c);
        if c.id == s.id { HeldIsKnown(bs, c); }
        assert c == Heard(c, DoObserve(s));
      }
    }
    assert forall c :: c in bs1[k].replacements ==> Waits(bs1, c);
  }

  lemma HeldIsKnown(bs: Table, c: ContactInfo)
    requires Holds(bs, c)
    ensures Known(bs, c.id)
  {
    var k :| 0 <= k < |bs| && c in bs[k].contacts;
    assert bs[k] in bs;
  }

  /** A new contact enters the contacts or the replacements of its bucket only when it does not wait there. */
  lemma PlaceSources(p: Params, b: BucketInfo, c: ContactInfo, now: int)
    requires GoodBucket(p, b)
    ensures var b' := Place(p, b, c, now);
            && (forall d :: d in b'.contacts ==> d in b.contacts || (d == c && c.id !in Ids(b.replacements)))
            && (forall d :: d in b'.replacements ==> d in b.replacements || (d == c && c.id !in Ids(b.replacements)))
  {
    var k := FindBad(p, b.contacts);
    if k < |b.contacts| { assert b.contacts[k] in b.contacts; }
  }

  lemma MissExplained(p: Params, bs: Table, id: nat, now: int)
    requires Inv(p, bs) && id < Pow2(p.bits)
    ensures Explained(bs, DoMarkFailure(id, now), MarkFailure(p, bs, id, now))
  {
    BucketCovers(p, bs, id);
    var op := DoMarkFailure(id, now);
    var k := BucketIndex(bs, id);
    var i := FindId(bs[k].contacts, id);
    if i == |bs[k].contacts| {
      NotFoundUnknown(p, bs, id);
      forall c | Holds(bs, c) ensures ContactFrom(bs, op, c) {
        if c.id == id { HeldIsKnown(bs, c); }
        assert c == Heard(c, op);
      }
    } else {
      var c := Failed(bs[k].contacts[i]);
      var cs := bs[k].contacts[i := c];
      if c.failures >= p.badAfter && bs[k].replacements != [] {
        PromotedExplained(p, bs, k, i, op, MarkFailure(p, bs, id, now)[k]);
      } else {
        UpdatedExplained(p, bs, k, i, bs[k].(contacts := cs), op);
      }
    }
  }

  lemma PromotedExplained(p: Params, bs: Table, k: nat, i: nat, op: Op, b: BucketInfo)
    requires Inv(p, bs) && k < |bs| && i < |bs[k].contacts| && bs[k].replacements != []
    requires op.DoMarkFailure? && op.id == bs[k].contacts[i].id
    requires var last := |bs[k].replacements| - 1;
             && b.contacts == RemoveAt(bs[k].contacts[i := Failed(bs[k].contacts[i])], i) + [bs[k].replacements[last]]
             && b.replacements == bs[k].replacements[..last]
    ensures Explained(bs, op, bs[k := b])
  {
    var cs, rs := bs[k].contacts, bs[k].replacements;
    assert bs[k] in bs;
    assert RemoveAt(cs[i := Failed(cs[i])], i) == RemoveAt(cs, i);
    ReplacedEntries(bs, k, b);
    forall c | Holds(bs[k := b], c) ensures ContactFrom(bs, op, c) {
      if c in b.contacts {
        if c != rs[|rs| - 1] {
          var j :| 0 <= j < |cs| && j != i && cs[j] == c;
          assert Holds(bs, c) && c == Heard(c, op);
        } else {
          assert Waits(bs, c);
        }
      } else {
        var j :| 0 <= j < |bs| && j != k && c in bs[j].contacts;
        OtherId(p, bs, k, i, j, c);
        assert Holds(bs, c) && c == Heard(c, op);
      }
    }
    forall c | Waits(bs[k := b], c) ensures Waits(bs, c) {
      assert forall d :: d in b.replacements ==> d in rs;
    }
  }

  lemma StepExplained(p: Params, bs: Table, op: Op)
    requires Inv(p, bs) && OpOk(p, op)
    ensures Explained(bs, op, Apply(p, bs, op))
  {
    match op
    case DoObserve(s) =>
      if s.id == p.local || (s.readOnly && !Known(bs, s.id)) {
        if s.id != p.local { KnownIsFound(p, bs, s.id); }
        forall c | Holds(bs, c) ensures ContactFrom(bs, op, c) {
          HeldIsKnown(bs, c);
          ForeignHeld(p, bs, c);
          assert c == Heard(c, op);
        }
      } else if Known(bs, s.id) {
        RefreshExplained(p, bs, s);
      } else {
        NewExplained(p, bs, s);
      }
    case DoMarkFailure(id, now) => MissExplained(p, bs, id, now);
    case DoRefreshStamp(k, now) =>
      if k < |bs| { ReplacedEntries(bs, k, bs[k].(lastChanged := now)); }
      forall c | Holds(Apply(p, bs, op), c) ensures ContactFrom(bs, op, c) {
        assert Holds(bs, c) && c == Heard(c, op);
      }
  }

  lemma ForeignHeld(p: Params, bs: Table, c: ContactInfo)
    requires Inv(p, bs) && Holds(bs, c)
    ensures c.id != p.local
  {
    var k :| 0 <= k < |bs| && c in bs[k].contacts;
    assert bs[k] in bs;
  }

  // ---- Over a run ----

  ghost predicate Entry(bs: Table, c: ContactInfo) {
    Holds(bs, c) || Waits(bs, c)
  }

  lemma EntryStored(bs: Table, c: ContactInfo)
    requires Entry(bs, c)
    ensures Stored(bs, c.id)
    ensures Holds(bs, c) ==> Known(bs, c.id)
    ensures Waits(bs, c) ==> Waiting(bs, c.id)
  {
    if Holds(bs, c) { HeldIsKnown(bs, c); }
    if Waits(bs, c) {
      var b :| b in bs && c in b.replacements;
      assert c.id in Ids(b.replacements);
    }
  }

  /** No identifier is a contact and waits as well. */
  lemma WaitingUnknown(p: Params, bs: Table, id: nat)
    requires Inv(p, bs) && Waiting(bs, id)
    ensures !Known(bs, id)
  {
    var b :| b in bs && id in Ids(b.replacements);
    if Known(bs, id) {
      var d :| d in bs && id in Ids(d.contacts);
      var j :| 0 <= j < |bs| && bs[j] == b;
      var k :| 0 <= k < |bs| && bs[k] == d;
      OneBucket(p, bs, j, k, id);
    }
  }

  /** After every run, every contact and every replacement says exactly what its story tells. */
  lemma {:induction false} EveryEntryTells(p: Params, start: int, ops: seq<Op>, c: ContactInfo)
    requires p.Valid() && OpsOk(p, ops) && Entry(Run(p, start, ops), c)
    ensures Tells(c, Story(p, start, ops, c.id))
    decreases |ops|
  {
    hide *;
    NothingAtFirst(p, start, ops, c);
    PrefixOk(p, ops);
    var last := |ops| - 1;
    var before, op := Run(p, start, ops[..last]), ops[last];
    RunStep(p, start, ops);
    StepExplained(p, before, op);
    EntryStored(Run(p, start, ops), c);
    StoryGoesOn(p, start, ops, c);
    SourceOf(before, op, Run(p, start, ops), c);
    if Enters(before, op, c) {
      EnteredTells(before, op, c);
    } else if Waits(before, c) {
      WaitsIsEntry(before, c);
      EveryEntryTells(p, start, ops[..last], c);
    } else {
      var d :| Holds(before, d) && c == Heard(d, op);
      HeldIsEntry(before, d);
      EveryEntryTells(p, start, ops[..last], d);
      HeardTells(d, op, Story(p, start, ops[..last], d.id));
    }
  }

  lemma NothingAtFirst(p: Params, start: int, ops: seq<Op>, c: ContactInfo)
    requires p.Valid() && OpsOk(p, ops) && Entry(Run(p, start, ops), c)
    ensures ops != []
  {
    hide *;
    if ops == [] { FreshHoldsNothing(p, start); }
  }

  lemma FreshHoldsNothing(p: Params, start: int)
    requires p.Valid()
    ensures forall c :: !Entry(Run(p, start, []), c)
  {
    assert forall b :: b in Run(p, start, []) ==> b.contacts == [] && b.replacements == [];
  }

  lemma PrefixOk(p: Params, ops: seq<Op>)
    requires OpsOk(p, ops) && ops != []
    ensures OpsOk(p, ops[..|ops| - 1])
  {
  }

  lemma RunStep(p: Params, start: int, ops: seq<Op>)
    requires p.Valid() && OpsOk(p, ops) && ops != []
    ensures var last := |ops| - 1;
            && OpsOk(p, ops[..last]) && OpOk(p, ops[last])
            && Run(p, start, ops) == Apply(p, Run(p, start, ops[..last]), ops[last])
  {
  }

  lemma SourceOf(before: Table, op: Op, after: Table, c: ContactInfo)
    requires Explained(before, op, after) && Entry(after, c)
    ensures Enters(before, op, c) || Waits(before, c) || exists d :: Holds(before, d) && c == Heard(d, op)
  {
    hide Holds, Waits, Enters, Heard;
  }

  lemma EnteredTells(before: Table, op: Op, c: ContactInfo)
    requires Enters(before, op, c)
    ensures op.DoObserve? && Tells(c, [Sighted(op.s)])
  {
    hide Tells;
    CandidateTells(op.s);
  }

  lemma WaitsIsEntry(bs: Table, c: ContactInfo)
    requires Waits(bs, c)
    ensures Entry(bs, c)
  {
  }

  lemma HeldIsEntry(bs: Table, c: ContactInfo)
    requires Holds(bs, c)
    ensures Entry(bs, c) && Known(bs, c.id)
  {
    HeldIsKnown(bs, c);
  }

  lemma HeardTells(d: ContactInfo, op: Op, h: seq<Event>)
    requires Tells(d, h)
    ensures Heard(d, op).id == d.id && Tells(Heard(d, op), h + Said(op, d.id))
  {
    hide Tells;
    assert h + [] == h;
    match op
    case DoObserve(s) => if s.id == d.id { RefreshTells(d, h, s); }
    case DoMarkFailure(id, _) => if id == d.id { FailedTells(d, h); }
    case DoRefreshStamp(_, _) =>
  }

  lemma StoryGoesOn(p: Params, start: int, ops: seq<Op>, c: ContactInfo)
    requires p.Valid() && OpsOk(p, ops) && ops != [] && Stored(Run(p, start, ops), c.id)
    ensures var last := |ops| - 1;
            var before, op := Run(p, start, ops[..last]), ops[last];
            var h := Story(p, start, ops[..last], c.id);
            && (Enters(before, op, c) ==> Story(p, start, ops, c.id) == [Sighted(op.s)])
            && (Waits(before, c) ==> Story(p, start, ops, c.id) == h)
            && (Known(before, c.id) ==> Story(p, start, ops, c.id) == h + Said(op, c.id))
  {
    var last := |ops| - 1;
    var before := Run(p, start, ops[..last]);
    if Waits(before, c) {
      EntryStored(before, c);
      WaitingUnknown(p, before, c.id);
    }
    hide Run, Known, Waiting, Said;
  }

  // ---- What GOOD and BAD mean over a run ----

  /** Fewer failures than allowed since the last direct answer, and that answer or the last query is recent. */
  predicate GoodStory(p: Params, h: seq<Event>, now: int) {
    var answer, query := Last(h, Direct), Last(h, Incoming);
    && answer >= 0
    && MissesAfter(h, answer) < p.badAfter
    && (now - h[answer].s.now <= p.goodTtl || (query >= 0 && now - h[query].s.now <= p.goodTtl))
  }

  /** GOOD and BAD, exactly, in terms of what was said about the identifier. */
  lemma StateExactly(p: Params, start: int, ops: seq<Op>, c: ContactInfo, now: int)
    requires p.Valid() && OpsOk(p, ops) && Entry(Run(p, start, ops), c)
    ensures var h := Story(p, start, ops, c.id);
            && (c.State(p, now) == Good <==> GoodStory(p, h, now))
            && (c.State(p, now) == Bad <==> MissesAfter(h, Last(h, Direct)) >= p.badAfter)
  {
    EveryEntryTells(p, start, ops, c);
    hide Story, Last, MissesAfter, Run;
  }

  /** What `closest` chooses from, in the same terms: contacts whose last sighting was not read-only and, if asked for,
      that are GOOD. */
  lemma ClosestOverARun(p: Params, start: int, ops: seq<Op>, target: nat, limit: nat, goodOnly: bool, now: int,
                        pool: set<ContactInfo>)
    requires p.Valid() && OpsOk(p, ops)
    requires forall c :: c in pool <==>
               && Holds(Run(p, start, ops), c)
               && (var h := Story(p, start, ops, c.id);
                   && Last(h, AnySighting) >= 0 && !h[Last(h, AnySighting)].s.readOnly
                   && (goodOnly ==> GoodStory(p, h, now)))
    ensures NearestOf(N.Closest(p, Run(p, start, ops), target, limit, goodOnly, now), pool, N.DistanceTo(target), limit)
  {
    var bs := Run(p, start, ops);
    forall c ensures c in pool <==> c in N.Offered(p, bs, goodOnly, now) {
      N.OfferedHolds(p, bs, goodOnly, now, c);
      if Holds(bs, c) {
        ReadOnlyExactly(p, start, ops, c);
        StateExactly(p, start, ops, c, now);
        hide Story, GoodStory, Run;
      }
    }
    assert pool == N.Offered(p, bs, goodOnly, now);
    hide Run, Story, GoodStory;
    N.ClosestIsNearest(p, bs, target, limit, goodOnly, now);
  }

  lemma ReadOnlyExactly(p: Params, start: int, ops: seq<Op>, c: ContactInfo)
    requires p.Valid() && OpsOk(p, ops) && Entry(Run(p, start, ops), c)
    ensures var h := Story(p, start, ops, c.id);
            Last(h, AnySighting) >= 0 && c.readOnly == h[Last(h, AnySighting)].s.readOnly
  {
    EveryEntryTells(p, start, ops, c);
    hide Story, MissesAfter, Run;
  }

  // ---- What a replacement does not hear ----

  /** A sighting of a waiting replacement changes nothing, be it a direct answer: the answer is lost. */
  lemma ReplacementHearsNothing(p: Params, bs: Table, s: Sighting)
    requires Inv(p, bs) && p.Foreign(s.id) && Waiting(bs, s.id)
    ensures Observe(p, bs, s).0 == bs
  {
    WaitingUnknown(p, bs, s.id);
    KnownIsFound(p, bs, s.id);
    var k := BucketIndex(bs, s.id);
    WaitsInBucket(p, bs, s.id, k);
    assert bs[k] in bs;
    var b := bs[k];
    var j := FindId(b.replacements, s.id);
    if !s.readOnly {
      assert SplitWhileFull(p, bs, s.id, s.now) == bs;
      NoneBad(p, b.contacts);
      assert Place(p, b, Candidate(s), s.now) == b;
      assert bs[k := b] == bs;
    }
  }

  lemma NoneBad(p: Params, cs: seq<ContactInfo>)
    requires forall c :: c in cs ==> c.failures < p.badAfter
    ensures FindBad(p, cs) == |cs|
  {
    assert forall j :: 0 <= j < |cs| ==> cs[j] in cs;
  }

  /** So a replacement that had not answered when it came to wait is not GOOD, whatever it answers until it is
      promoted. */
  lemma PromotedUnproven(p: Params, start: int, ops: seq<Op>, c: ContactInfo, s: Sighting, now: int)
    requires p.Valid() && OpsOk(p, ops) && Waits(Run(p, start, ops), c)
    requires Last(Story(p, start, ops, c.id), Direct) < 0
    requires s.id == c.id && s.direct && s.id < Pow2(p.bits) && OpsOk(p, ops + [DoObserve(s)])
    ensures Run(p, start, ops + [DoObserve(s)]) == Run(p, start, ops)
    ensures Waits(Run(p, start, ops + [DoObserve(s)]), c) && c.State(p, now) != Good
  {
    var bs := Run(p, start, ops);
    EntryStored(bs, c);
    var b :| b in bs && c in b.replacements;
    assert c.id != p.local;
    ReplacementHearsNothing(p, bs, s);
    StateExactly(p, start, ops, c, now);
    assert (ops + [DoObserve(s)])[..|ops|] == ops;
  }
}
