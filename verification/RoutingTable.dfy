/** The routing table as the program keeps it: contacts and buckets are objects that are updated in
    place. The ghost field `model` is the value of the table; every method computes the function of the
    same name in `RoutingModel.dfy` on it.

    No two list positions may hold one object, or an update would reach several of them. That is not
    stored anywhere: it follows from the distinct identifiers of the invariant. */
module RoutingTables {
  import opened Wrappers
  import opened Bytes
  import opened NearestFirst
  import opened XorMetric
  import opened Tilings
  import M = RoutingModel
  import opened RoutingProperties
  import N = Nearest
  import S = Snapshots

  class Contact {
    const id: nat
    var ip: string
    var port: int
    const firstSeen: int
    var lastResponse: Option<int>
    var lastQuery: Option<int>
    var failures: nat
    var everResponded: bool
    var readOnly: bool
    var clientVersion: Option<bytes>

    constructor (s: M.Sighting)
      ensures View() == M.Candidate(s)
    {
      id, ip, port, firstSeen := s.id, s.ip, s.port, s.now;
      failures, readOnly, clientVersion := 0, s.readOnly, s.clientVersion;
      lastResponse, everResponded := if s.direct then Some(s.now) else None, s.direct;
      lastQuery := if s.incoming then Some(s.now) else None;
    }

    function View(): M.ContactInfo
      reads this
    {
      M.ContactInfo(id, ip, port, firstSeen, lastResponse, lastQuery, failures, everResponded, readOnly, clientVersion)
    }

    /** What a sighting does to a known contact. */
    method Refresh(s: M.Sighting)
      modifies this
      ensures View() == M.Refresh(old(View()), s)
    {
      if s.direct || (ip == s.ip && port == s.port) {
        ip, port := s.ip, s.port;
      }
      if s.direct {
        lastResponse := Some(s.now);
        everResponded := true;
        failures := 0;
      }
      if s.incoming {
        lastQuery := Some(s.now);
      }
      readOnly := s.readOnly;
      if s.clientVersion.Some? && s.clientVersion.value != [] {
        clientVersion := s.clientVersion;
      }
    }
  }

  /** The objects of a list have these values. */
  ghost predicate Show(cs: seq<Contact>, vs: seq<M.ContactInfo>)
    reads cs
  {
    |cs| == |vs| && forall i :: 0 <= i < |cs| ==> cs[i].View() == vs[i]
  }

  class Bucket {
    const low: int
    const high: int
    var contacts: seq<Contact>
    var replacements: seq<Contact>
    var lastChanged: int

    constructor (low: int, high: int, contacts: seq<Contact>, replacements: seq<Contact>, now: int)
      ensures this.low == low && this.high == high && lastChanged == now
      ensures this.contacts == contacts && this.replacements == replacements
    {
      this.low, this.high, this.lastChanged := low, high, now;
      this.contacts, this.replacements := contacts, replacements;
    }

    predicate Has(id: int) {
      low <= id < high
    }

    ghost predicate Shows(b: M.BucketInfo)
      reads this, contacts, replacements
    {
      && low == b.low && high == b.high && lastChanged == b.lastChanged
      && Show(contacts, b.contacts) && Show(replacements, b.replacements)
    }
  }

  /** The equality of two dataclass instances: all fields are equal. */
  predicate SameFields(a: Bucket, b: Bucket)
    reads a, a.contacts, a.replacements, b, b.contacts, b.replacements
  {
    && a.low == b.low && a.high == b.high && a.lastChanged == b.lastChanged
    && SameList(a.contacts, b.contacts) && SameList(a.replacements, b.replacements)
  }

  predicate SameList(cs: seq<Contact>, ds: seq<Contact>)
    reads cs, ds
  {
    |cs| == |ds| && forall i :: 0 <= i < |cs| ==> cs[i].View() == ds[i].View()
  }

  // ---- Searching lists of contacts ----

  /** The first contact with this identifier, or |cs|. */
  method IndexOfId(cs: seq<Contact>, id: nat, ghost vs: seq<M.ContactInfo>) returns (i: nat)
    requires Show(cs, vs)
    ensures i == M.FindId(vs, id)
  {
    i := 0;
    while i < |cs| && cs[i].id != id
      invariant i <= |cs|
      invariant forall j :: 0 <= j < i ==> vs[j].id != id
    {
      assert cs[i].View() == vs[i];
      i := i + 1;
    }
    assert i < |cs| ==> cs[i].View() == vs[i];
  }

  /** The first contact in state BAD, or |cs|. */
  method IndexOfBad(p: M.Params, cs: seq<Contact>, ghost vs: seq<M.ContactInfo>) returns (i: nat)
    requires Show(cs, vs)
    ensures i == M.FindBad(p, vs)
  {
    i := 0;
    while i < |cs| && cs[i].failures < p.badAfter
      invariant i <= |cs|
      invariant forall j :: 0 <= j < i ==> vs[j].failures < p.badAfter
    {
      assert cs[i].View() == vs[i];
      i := i + 1;
    }
    assert i < |cs| ==> cs[i].View() == vs[i];
  }

  /** `list.remove`: the first contact that is equal in every field goes. Where identifiers are distinct
      that is the intended object. */
  method RemoveEqual(cs: seq<Contact>, k: nat, ghost vs: seq<M.ContactInfo>) returns (r: seq<Contact>)
    requires Show(cs, vs) && k < |cs| && M.DistinctIds(vs)
    ensures r == M.RemoveAt(cs, k)
  {
    var j := 0;
    while cs[j].View() != cs[k].View()
      invariant j <= k
      decreases k - j
    {
      j := j + 1;
    }
    assert vs[j] == vs[k];
    r := cs[..j] + cs[j + 1..];
  }

  // ---- Distributing a list over two halves ----

  lemma NoneInside(r: Range)
    ensures M.Inside([], r) == [] && M.Outside([], r) == []
  {
  }

  lemma {:induction false} InsideAppend(cs: seq<M.ContactInfo>, c: M.ContactInfo, r: Range)
    ensures M.Inside(cs + [c], r) == M.Inside(cs, r) + if r.Has(c.id) then [c] else []
    ensures M.Outside(cs + [c], r) == M.Outside(cs, r) + if r.Has(c.id) then [] else [c]
  {
    if cs != [] {
      assert (cs + [c])[1..] == cs[1..] + [c];
      InsideAppend(cs[1..], c, r);
    }
  }

  /** The loop over the contacts in `_split`. */
  method DistributeContacts(cs: seq<Contact>, r: Range, ghost vs: seq<M.ContactInfo>)
      returns (left: seq<Contact>, right: seq<Contact>)
    requires Show(cs, vs)
    ensures Show(left, M.Inside(vs, r)) && Show(right, M.Outside(vs, r))
    ensures forall c :: c in left || c in right ==> c in cs
  {
    hide M.Inside, M.Outside;
    left, right := [], [];
    NoneInside(r);
    var i := 0;
    while i < |cs|
      invariant 0 <= i <= |cs|
      invariant forall c :: c in left || c in right ==> c in cs
      invariant Show(left, M.Inside(vs[..i], r)) && Show(right, M.Outside(vs[..i], r))
    {
      var c := cs[i];
      assert c.View() == vs[i];
      InsideAppend(vs[..i], vs[i], r);
      assert vs[..i + 1] == vs[..i] + [vs[i]];
      if r.Has(c.id) {
        left := left + [c];
      } else {
        right := right + [c];
      }
      i := i + 1;
    }
    assert vs[..i] == vs;
  }

  /** The loop over the replacements in `_split`, which stops filling a half at K. */
  method DistributeReplacements(cs: seq<Contact>, r: Range, ghost vs: seq<M.ContactInfo>)
      returns (left: seq<Contact>, right: seq<Contact>)
    requires Show(cs, vs)
    ensures Show(left, M.AtMostK(M.Inside(vs, r))) && Show(right, M.AtMostK(M.Outside(vs, r)))
    ensures forall c :: c in left || c in right ==> c in cs
  {
    hide M.Inside, M.Outside;
    left, right := [], [];
    NoneInside(r);
    var i := 0;
    while i < |cs|
      invariant 0 <= i <= |cs|
      invariant forall c :: c in left || c in right ==> c in cs
      invariant Show(left, M.AtMostK(M.Inside(vs[..i], r))) && Show(right, M.AtMostK(M.Outside(vs[..i], r)))
    {
      var c := cs[i];
      assert c.View() == vs[i];
      InsideAppend(vs[..i], vs[i], r);
      assert vs[..i + 1] == vs[..i] + [vs[i]];
      if r.Has(c.id) {
        if |left| < M.K { left := left + [c]; }
      } else {
        if |right| < M.K { right := right + [c]; }
      }
      i := i + 1;
    }
    assert vs[..i] == vs;
  }

  class RoutingTable {
    const p: M.Params
    var buckets: seq<Bucket>
    ghost var model: M.Table
    ghost var Repr: set<object>

    ghost predicate Closed()
      reads this, Repr
    {
      && this in Repr
      && (forall b :: b in buckets ==> b in Repr)
      && (forall b :: b in buckets ==> (forall c :: c in b.contacts ==> c in Repr)
                                       && (forall c :: c in b.replacements ==> c in Repr))
    }

    /** The objects have the values of `model`. */
    ghost predicate Shown()
      requires Closed()
      reads this, Repr
    {
      |buckets| == |model| && forall k :: 0 <= k < |buckets| ==> buckets[k].Shows(model[k])
    }

    ghost predicate Valid()
      reads this, Repr
    {
      Closed() && Shown() && M.Inv(p, model)
    }

    constructor (localId: bytes, badAfter: nat, goodTtl: int, now: int)
      requires |localId| == 20 && badAfter > 0
      ensures Valid() && fresh(Repr)
      ensures p == M.Params(160, FromBytes(localId), badAfter, goodTtl) && model == M.Fresh(p, now)
    {
      FromBytesRange(localId);
      hide Pow2, FromBytes;
      p := M.Params(160, FromBytes(localId), badAfter, goodTtl);
      var b := new Bucket(0, Pow2(160), [], [], now);
      buckets := [b];
      new;
      Repr := {this, b};
      model := M.Fresh(p, now);
      M.InvFresh(p, now);
      hide M.Inv;
    }

    // ---- No object is shared ----

    ghost predicate BucketsUnshared()
      reads this
    {
      forall j, k :: 0 <= j < k < |buckets| ==> buckets[j] != buckets[k]
    }

    /** Contact i of bucket k sits nowhere else. */
    ghost predicate ContactUnshared(k: nat, i: nat)
      requires k < |buckets| && i < |buckets[k].contacts|
      reads this, buckets
    {
      && (forall j, m :: 0 <= j < |buckets| && 0 <= m < |buckets[j].contacts| && (j != k || m != i)
            ==> buckets[j].contacts[m] != buckets[k].contacts[i])
      && (forall j, m :: 0 <= j < |buckets| && 0 <= m < |buckets[j].replacements|
            ==> buckets[j].replacements[m] != buckets[k].contacts[i])
    }

    lemma ValidBucketsUnshared()
      requires Valid()
      ensures BucketsUnshared()
    {
      M.InvPartition(p, model);
      hide M.Inv, Show;
      forall j, k | 0 <= j < k < |buckets|
        ensures buckets[j] != buckets[k]
      {
        PartitionOrdered(M.Ranges(model), 0, Pow2(p.bits), j, k);
        assert M.Ranges(model)[j] == model[j].Range() && M.Ranges(model)[k] == model[k].Range();
        assert buckets[j].Shows(model[j]) && buckets[k].Shows(model[k]);
      }
    }

    lemma ValidContactUnshared(k: nat, i: nat)
      requires Valid() && k < |buckets| && i < |buckets[k].contacts|
      ensures ContactUnshared(k, i)
    {
      hide M.Inv, AllIdsDistinct;
      InvDistinct(p, model);
      assert buckets[k].Shows(model[k]);
      forall j, m | 0 <= j < |buckets| && 0 <= m < |buckets[j].contacts| && (j != k || m != i)
        ensures buckets[j].contacts[m] != buckets[k].contacts[i]
      {
        assert buckets[j].Shows(model[j]);
        DifferentIds(model, k, i, j, m);
      }
      forall j, m | 0 <= j < |buckets| && 0 <= m < |buckets[j].replacements|
        ensures buckets[j].replacements[m] != buckets[k].contacts[i]
      {
        assert buckets[j].Shows(model[j]);
        ReplacementDiffers(model, k, i, j, m);
      }
    }

    static lemma DifferentIds(t: M.Table, j: nat, i: nat, k: nat, m: nat)
      requires AllIdsDistinct(t) && j < |t| && i < |t[j].contacts| && k < |t| && m < |t[k].contacts|
               && (j != k || i != m)
      ensures t[j].contacts[i].id != t[k].contacts[m].id
    {
      assert t[j].contacts[i].id in M.Ids(t[j].contacts) && t[k].contacts[m].id in M.Ids(t[k].contacts);
      assert t[j] in t;
    }

    static lemma ReplacementDiffers(t: M.Table, j: nat, i: nat, k: nat, m: nat)
      requires AllIdsDistinct(t) && j < |t| && i < |t[j].contacts| && k < |t| && m < |t[k].replacements|
      ensures t[j].contacts[i].id != t[k].replacements[m].id
    {
      assert t[j].contacts[i].id in M.Ids(t[j].contacts) && t[k].replacements[m].id in M.Ids(t[k].replacements);
      assert t[j] in t;
    }

    // ---- Steps of the operations ----

    /** The bucket that covers an identifier; the assertion of the source cannot fail. */
    method BucketFor(id: nat) returns (k: nat)
      requires Valid() && id < Pow2(p.bits)
      ensures k < |buckets| && k == M.BucketIndex(model, id)
      ensures |buckets[k].contacts| == |model[k].contacts| && buckets[k].low == model[k].low
              && buckets[k].high == model[k].high
    {
      M.BucketCovers(p, model, id);
      hide M.Inv;
      k := 0;
      while !buckets[k].Has(id)
        invariant k <= M.BucketIndex(model, id)
        decreases |buckets| - k
      {
        assert buckets[k].Shows(model[k]);
        k := k + 1;
      }
      assert buckets[k].Shows(model[k]);
    }

    /** Refresh contact i of bucket k in place. */
    method RefreshKnown(k: nat, i: nat, s: M.Sighting)
      requires Valid() && k < |buckets| && i < |buckets[k].contacts|
      modifies this`model, buckets[k].contacts[i]
      ensures Closed() && Shown() && |old(model)[k].contacts| == |buckets[k].contacts|
      ensures model == old(model)[k := old(model)[k].(contacts :=
                         old(model)[k].contacts[i := M.Refresh(old(model)[k].contacts[i], s)])]
    {
      hide M.Inv, M.Refresh;
      ValidContactUnshared(k, i);
      var c := buckets[k].contacts[i];
      assert buckets[k].Shows(model[k]) && c.View() == model[k].contacts[i];
      label L:
      c.Refresh(s);
      model := model[k := model[k].(contacts := model[k].contacts[i := c.View()])];
      forall j | 0 <= j < |buckets|
        ensures buckets[j].Shows(model[j])
      {
        assert old@L(buckets[j].Shows(model[j]));
      }
    }

    lemma LowsDiffer(k: nat)
      requires Valid() && k < |buckets|
      ensures forall j :: 0 <= j < k ==> buckets[j].low != buckets[k].low
    {
      M.InvPartition(p, model);
      forall j | 0 <= j < k
        ensures buckets[j].low != buckets[k].low
      {
        PartitionOrdered(M.Ranges(model), 0, Pow2(p.bits), j, k);
        assert M.Ranges(model)[j] == model[j].Range() && M.Ranges(model)[k] == model[k].Range();
        assert buckets[j].Shows(model[j]) && buckets[k].Shows(model[k]);
      }
    }

    /** `list.index`: the first bucket that is equal in every field, which is the intended one. */
    method IndexOfEqual(k: nat) returns (idx: nat)
      requires Valid() && k < |buckets|
      ensures idx == k
    {
      LowsDiffer(k);
      idx := 0;
      while !SameFields(buckets[idx], buckets[k])
        invariant idx <= k
        decreases k - idx
      {
        idx := idx + 1;
      }
    }

    /** The two halves of a bucket, with its contacts shared out. */
    static method Halves(bucket: Bucket, now: int, ghost b: M.BucketInfo) returns (left: Bucket, right: Bucket)
      requires bucket.Shows(b)
      ensures fresh(left) && fresh(right)
      ensures left.Shows(M.LeftHalf(b, now)) && right.Shows(M.RightHalf(b, now))
      ensures forall c :: c in left.contacts || c in right.contacts ==> c in bucket.contacts
      ensures forall c :: c in left.replacements || c in right.replacements ==> c in bucket.replacements
    {
      hide M.Inside, M.Outside, Show;
      var midpoint := (bucket.low + bucket.high) / 2;
      var r := Range(bucket.low, midpoint);
      var lc, rc := DistributeContacts(bucket.contacts, r, b.contacts);
      var lr, rr := DistributeReplacements(bucket.replacements, r, b.replacements);
      left := new Bucket(bucket.low, midpoint, lc, lr, now);
      right := new Bucket(midpoint, bucket.high, rc, rr, now);
    }

    /** Put two buckets that share out the objects of bucket k in its place. */
    method Replace(k: nat, left: Bucket, right: Bucket, ghost t: M.Table)
      requires Closed() && Shown() && k < |buckets|
      requires forall c :: c in left.contacts || c in right.contacts ==> c in buckets[k].contacts
      requires forall c :: c in left.replacements || c in right.replacements ==> c in buckets[k].replacements
      requires |t| == |model| + 1 && left.Shows(t[k]) && right.Shows(t[k + 1])
      requires t[..k] == model[..k] && t[k + 2..] == model[k + 1..]
      modifies this`buckets, this`model, this`Repr
      ensures Closed() && Shown() && Repr == old(Repr) + {left, right} && model == t
    {
      hide Show, Bucket.Shows;
      assert buckets[k] in buckets;
      label L:
      buckets := buckets[..k] + [left, right] + buckets[k + 1..];
      Repr := Repr + {left, right};
      model := t;
      forall j | 0 <= j < |buckets| && j != k && j != k + 1
        ensures buckets[j].Shows(model[j])
      {
        var i := if j < k then j else j - 1;
        assert old@L(buckets[i].Shows(model[i]));
        assert t[j] == if j < k then t[..k][j] else t[k + 2..][j - k - 2];
      }
    }

    /** Cut bucket k at its midpoint. */
    method Split(k: nat, now: int)
      requires Valid() && k < |buckets|
      modifies this`buckets, this`model, this`Repr
      ensures Closed() && Shown() && fresh(Repr - old(Repr))
      ensures model == M.SplitAt(old(model), k, now)
    {
      hide M.Inv, M.LeftHalf, M.RightHalf, Bucket.Shows;
      assert buckets[k].Shows(model[k]);
      var left, right := Halves(buckets[k], now, model[k]);
      var idx := IndexOfEqual(k);
      Replace(idx, left, right, M.SplitAt(model, k, now));
    }

    /** The split loop of `observe`. */
    method SplitWhileFull(id: nat, now: int) returns (k: nat)
      requires Valid() && p.Foreign(id) && !M.Known(model, id)
      modifies this`buckets, this`model, this`Repr
      ensures Valid() && fresh(Repr - old(Repr))
      ensures model == M.SplitWhileFull(p, old(model), id, now)
      ensures k < |buckets| && k == M.BucketIndex(model, id)
    {
      hide M.Inv, M.Known, Show, Bucket.Shows;
      k := BucketFor(id);
      while |buckets[k].contacts| >= M.K && buckets[k].Has(p.local)
        invariant Valid() && fresh(Repr - old(Repr)) && !M.Known(model, id)
        invariant M.SplitWhileFull(p, model, id, now) == M.SplitWhileFull(p, old(model), id, now)
        invariant k < |buckets| && k == M.BucketIndex(model, id)
        invariant |buckets[k].contacts| == |model[k].contacts| && buckets[k].low == model[k].low
                  && buckets[k].high == model[k].high
        decreases M.LocalExponent(p, model)
      {
        M.InvSplit(p, model, k, id, now);
        Split(k, now);
        k := BucketFor(id);
      }
    }

    /** Give bucket k new lists. */
    method Store(k: nat, contacts: seq<Contact>, replacements: seq<Contact>, lastChanged: int, ghost b: M.BucketInfo)
      requires Closed() && Shown() && k < |buckets|
      requires forall j :: 0 <= j < |buckets| && j != k ==> buckets[j] != buckets[k]
      requires b.low == model[k].low && b.high == model[k].high && b.lastChanged == lastChanged
      requires Show(contacts, b.contacts) && Show(replacements, b.replacements)
      requires forall c :: c in contacts || c in replacements ==> c in Repr
      modifies this`model, buckets[k]
      ensures Closed() && Shown() && model == old(model)[k := b]
    {
      hide M.Inv;
      var bucket := buckets[k];
      label L:
      bucket.contacts, bucket.replacements, bucket.lastChanged := contacts, replacements, lastChanged;
      model := model[k := b];
      assert bucket.Shows(b);
      forall j | 0 <= j < |buckets| && j != k
        ensures buckets[j].Shows(model[j])
      {
        assert old@L(buckets[j].Shows(model[j]));
        assert buckets[j] != bucket;
      }
    }

    /** The lists of a bucket after a new contact has entered it, once no split applies. */
    static method ChoosePlace(p: M.Params, bucket: Bucket, candidate: Contact, now: int, ghost b: M.BucketInfo)
        returns (contacts: seq<Contact>, replacements: seq<Contact>, changed: int)
      requires bucket.Shows(b) && M.DistinctIds(b.contacts)
      ensures var b' := M.Place(p, b, candidate.View(), now);
              Show(contacts, b'.contacts) && Show(replacements, b'.replacements) && changed == b'.lastChanged
      ensures forall c :: c in contacts ==> c in bucket.contacts || c == candidate
      ensures forall c :: c in replacements ==> c in bucket.replacements || c == candidate
    {
      hide M.DistinctIds, M.FindBad, M.FindId, Contact.View;
      contacts, replacements, changed := bucket.contacts, bucket.replacements, bucket.lastChanged;
      if |bucket.contacts| < M.K {
        contacts, changed := bucket.contacts + [candidate], now;
        return;
      }
      var bad := IndexOfBad(p, bucket.contacts, b.contacts);
      if bad < |bucket.contacts| {
        var rest := RemoveEqual(bucket.contacts, bad, b.contacts);
        contacts, changed := rest + [candidate], now;
      } else {
        replacements := Enqueue(bucket.replacements, candidate, b.replacements);
      }
    }

    /** The replacement list keeps the K most recent new identifiers. */
    static method Enqueue(cs: seq<Contact>, candidate: Contact, ghost vs: seq<M.ContactInfo>) returns (r: seq<Contact>)
      requires Show(cs, vs)
      ensures var c := candidate.View();
              Show(r, if M.FindId(vs, c.id) < |vs| then vs
                      else (if |vs| >= M.K then vs[1..] else vs) + [c])
      ensures forall c :: c in r ==> c in cs || c == candidate
    {
      r := cs;
      var i := IndexOfId(cs, candidate.id, vs);
      if i == |cs| {
        if |r| >= M.K { r := r[1..]; }
        r := r + [candidate];
      }
    }

    method Adopt(c: Contact)
      requires Closed() && Shown()
      modifies this`Repr
      ensures Closed() && Shown() && Repr == old(Repr) + {c}
    {
      Repr := Repr + {c};
    }

    /** A new contact enters its bucket, once no split applies. */
    method PlaceNew(k: nat, candidate: Contact, now: int)
      requires Valid() && k < |buckets|
      modifies this`model, this`Repr, buckets[k]
      ensures Closed() && Shown() && Repr == old(Repr) + {candidate}
      ensures model == old(model)[k := M.Place(p, old(model)[k], candidate.View(), now)]
    {
      hide M.Inv, M.DistinctIds, M.Place, Show, Bucket.Shows;
      ValidBucketsUnshared();
      BucketAt(k);
      M.PlaceRange(p, model[k], candidate.View(), now);
      assert buckets[k].Shows(model[k]);
      assert forall c :: c in buckets[k].contacts || c in buckets[k].replacements ==> c in Repr;
      hide Closed, Shown;
      var contacts, replacements, changed := ChoosePlace(p, buckets[k], candidate, now, model[k]);
      Adopt(candidate);
      Store(k, contacts, replacements, changed, M.Place(p, model[k], candidate.View(), now));
    }

    /** `observe`, on the bytes of the identifier. */
    static ghost function Observed(p: M.Params, t: M.Table, nodeId: bytes, s: M.Sighting)
        : (M.Table, Option<M.ContactInfo>)
      requires M.Inv(p, t)
    {
      if 8 * |nodeId| != p.bits then (t, None)
      else
        FromBytesRange(nodeId);
        M.Observe(p, t, s.(id := FromBytes(nodeId)))
    }

    /** `observe`: `s` carries the other arguments and the clock reading. */
    method Observe(nodeId: bytes, s: M.Sighting) returns (r: Contact?)
      requires Valid()
      modifies Repr
      ensures Valid() && fresh(Repr - old(Repr))
      ensures model == Observed(p, old(model), nodeId, s).0
      ensures r == null <==> 8 * |nodeId| != p.bits || FromBytes(nodeId) == p.local
      ensures match Observed(p, old(model), nodeId, s).1
              case None => r == null
              case Some(c) => r != null && r.View() == c
    {
      if 8 * |nodeId| != p.bits || FromBytes(nodeId) == p.local { return null; }
      FromBytesRange(nodeId);
      r := ObserveForeign(s.(id := FromBytes(nodeId)));
    }

    method ObserveForeign(s: M.Sighting) returns (r: Contact)
      requires Valid() && p.Foreign(s.id)
      modifies Repr
      ensures Valid() && fresh(Repr - old(Repr))
      ensures model == M.Observe(p, old(model), s).0 && Some(r.View()) == M.Observe(p, old(model), s).1
    {
      hide M.Inv, M.Place, M.Refresh, M.SplitWhileFull, M.Known, Show;
      M.InvObserve(p, model, s);
      var k := BucketFor(s.id);
      assert buckets[k].Shows(model[k]);
      var i := IndexOfId(buckets[k].contacts, s.id, model[k].contacts);
      if i < |buckets[k].contacts| {
        r := ObserveKnown(k, i, s);
      } else {
        r := new Contact(s);
        if !s.readOnly {
          M.NotFoundUnknown(p, model, s.id);
          AddNew(r, s.now);
        }
      }
    }

    method ObserveKnown(k: nat, i: nat, s: M.Sighting) returns (r: Contact)
      requires Valid() && k < |buckets| && i < |buckets[k].contacts|
      modifies this`model, buckets[k].contacts[i]
      ensures Closed() && Shown() && |old(model)[k].contacts| == |buckets[k].contacts|
      ensures r.View() == M.Refresh(old(model)[k].contacts[i], s)
      ensures model == old(model)[k := old(model)[k].(contacts := old(model)[k].contacts[i := r.View()])]
    {
      hide M.Inv, M.Refresh;
      r := buckets[k].contacts[i];
      RefreshKnown(k, i, s);
      assert buckets[k].Shows(model[k]);
    }

    method AddNew(candidate: Contact, now: int)
      requires Valid() && p.Foreign(candidate.id) && !M.Known(model, candidate.id)
      modifies Repr
      ensures Closed() && Shown() && fresh(Repr - old(Repr) - {candidate})
      ensures candidate.View() == old(candidate.View())
      ensures var t := M.SplitWhileFull(p, old(model), candidate.id, now);
              var k := M.BucketIndex(t, candidate.id);
              k < |t| && model == t[k := M.Place(p, t[k], candidate.View(), now)]
    {
      hide M.Inv, M.Place, M.SplitWhileFull, M.Known, Show, Bucket.Shows;
      var k := SplitWhileFull(candidate.id, now);
      assert buckets[k] in buckets;
      PlaceNew(k, candidate, now);
    }

    // ---- Failures ----

    /** Count a failure on contact i of bucket k, in place. */
    method FailKnown(k: nat, i: nat)
      requires Valid() && k < |buckets| && i < |buckets[k].contacts|
      modifies this`model, buckets[k].contacts[i]
      ensures Closed() && Shown() && |old(model)[k].contacts| == |buckets[k].contacts|
      ensures buckets[k].contacts[i].failures == old(buckets[k].contacts[i].failures) + 1
      ensures model == old(model)[k := old(model)[k].(contacts :=
                         old(model)[k].contacts[i := M.Failed(old(model)[k].contacts[i])])]
    {
      hide M.Inv;
      ValidContactUnshared(k, i);
      var c := buckets[k].contacts[i];
      assert buckets[k].Shows(model[k]) && c.View() == model[k].contacts[i];
      label L:
      c.failures := c.failures + 1;
      model := model[k := model[k].(contacts := model[k].contacts[i := c.View()])];
      forall j | 0 <= j < |buckets|
        ensures buckets[j].Shows(model[j])
      {
        assert old@L(buckets[j].Shows(model[j]));
      }
    }

    /** The most recent replacement of bucket k takes the place of contact i. */
    method Promote(k: nat, i: nat, now: int)
      requires Closed() && Shown() && BucketsUnshared() && k < |buckets|
      requires i < |buckets[k].contacts| && buckets[k].replacements != []
      requires |model[k].contacts| == |buckets[k].contacts| && |model[k].replacements| == |buckets[k].replacements|
      requires M.DistinctIds(model[k].contacts)
      modifies this`model, buckets[k]
      ensures Closed() && Shown()
      ensures var b := old(model)[k];
              var last := |b.replacements| - 1;
              model == old(model)[k := b.(contacts := M.RemoveAt(b.contacts, i) + [b.replacements[last]],
                                          replacements := b.replacements[..last],
                                          lastChanged := now)]
    {
      var bucket := buckets[k];
      ghost var b := model[k];
      assert bucket.Shows(b) && bucket in buckets;
      var last := |bucket.replacements| - 1;
      var replacement := bucket.replacements[last];
      var rest := RemoveEqual(bucket.contacts, i, b.contacts);
      Store(k, rest + [replacement], bucket.replacements[..last], now,
            b.(contacts := M.RemoveAt(b.contacts, i) + [b.replacements[last]],
               replacements := b.replacements[..last], lastChanged := now));
    }

    /** `mark_failure` */
    method MarkFailure(id: nat, now: int)
      requires Valid() && id < Pow2(p.bits)
      modifies Repr
      ensures Valid() && fresh(Repr - old(Repr))
      ensures model == M.MarkFailure(p, old(model), id, now)
    {
      hide M.Inv, M.DistinctIds, Show, Bucket.Shows;
      M.InvMarkFailure(p, model, id, now);
      ValidBucketsUnshared();
      var k := BucketFor(id);
      BucketAt(k);
      var i := IndexOfId(buckets[k].contacts, id, model[k].contacts);
      if i < |buckets[k].contacts| {
        FailAt(k, i, now);
      }
    }

    lemma BucketAt(k: nat)
      requires Valid() && k < |buckets|
      ensures M.DistinctIds(model[k].contacts) && buckets[k] in buckets
      ensures Show(buckets[k].contacts, model[k].contacts) && Show(buckets[k].replacements, model[k].replacements)
      ensures |model[k].contacts| == |buckets[k].contacts| && |model[k].replacements| == |buckets[k].replacements|
    {
      assert buckets[k].Shows(model[k]) && model[k] in model;
    }

    /** What `mark_failure` does to the contact it has found. */
    method FailAt(k: nat, i: nat, now: int)
      requires Valid() && BucketsUnshared() && k < |buckets| && i < |buckets[k].contacts|
      requires M.DistinctIds(model[k].contacts) && |model[k].contacts| == |buckets[k].contacts|
      requires |model[k].replacements| == |buckets[k].replacements|
      modifies this`model, buckets[k], buckets[k].contacts[i]
      ensures Closed() && Shown()
      ensures var b := old(model)[k];
              var c := M.Failed(b.contacts[i]);
              var cs := b.contacts[i := c];
              var last := |b.replacements| - 1;
              model == old(model)[k := if c.failures >= p.badAfter && b.replacements != [] then
                                         b.(contacts := M.RemoveAt(cs, i) + [b.replacements[last]],
                                            replacements := b.replacements[..last], lastChanged := now)
                                       else b.(contacts := cs)]
    {
      hide M.Inv, M.DistinctIds;
      StillDistinct(model[k].contacts, i, M.Failed(model[k].contacts[i]));
      FailKnown(k, i);
      assert buckets[k].Shows(model[k]);
      if buckets[k].contacts[i].failures >= p.badAfter && buckets[k].replacements != [] {
        Promote(k, i, now);
      }
    }

    static lemma StillDistinct(cs: seq<M.ContactInfo>, i: nat, c: M.ContactInfo)
      requires M.DistinctIds(cs) && i < |cs| && c.id == cs[i].id
      ensures M.DistinctIds(cs[i := c])
    {
    }

    // ---- Reading the table ----

    static lemma {:induction false} AllContactsAppend(t: M.Table, b: M.BucketInfo)
      ensures N.AllContacts(t + [b]) == N.AllContacts(t) + b.contacts
    {
      if t == [] {
        assert t + [b] == [b];
        assert N.AllContacts([b]) == b.contacts + N.AllContacts([]);
      } else {
        assert (t + [b])[1..] == t[1..] + [b];
        AllContactsAppend(t[1..], b);
      }
    }

    /** `all_contacts` */
    method AllContacts() returns (cs: seq<Contact>)
      requires Valid()
      ensures Show(cs, N.AllContacts(model))
    {
      hide M.Inv, N.AllContacts;
      cs := [];
      var k := 0;
      assert N.AllContacts([]) == [] by { NoContacts(); }
      assert model[..0] == [];
      while k < |buckets|
        invariant 0 <= k <= |buckets|
        invariant Show(cs, N.AllContacts(model[..k]))
      {
        assert buckets[k].Shows(model[k]);
        AllContactsAppend(model[..k], model[k]);
        assert model[..k + 1] == model[..k] + [model[k]];
        cs := cs + buckets[k].contacts;
        k := k + 1;
      }
      assert model[..k] == model;
    }

    static lemma NoContacts()
      ensures N.AllContacts([]) == []
    {
    }

    static lemma {:induction false} SelectAppend(p: M.Params, vs: seq<M.ContactInfo>, v: M.ContactInfo, goodOnly: bool,
                                                 now: int)
      ensures N.Select(p, vs + [v], goodOnly, now)
              == N.Select(p, vs, goodOnly, now) + if N.Eligible(p, v, goodOnly, now) then [v] else []
    {
      if vs != [] {
        assert (vs + [v])[1..] == vs[1..] + [v];
        SelectAppend(p, vs[1..], v, goodOnly, now);
      }
    }

    /** The filters of `closest`. */
    static method SelectFrom(p: M.Params, cs: seq<Contact>, goodOnly: bool, now: int, ghost vs: seq<M.ContactInfo>)
        returns (r: seq<Contact>)
      requires Show(cs, vs)
      ensures Show(r, N.Select(p, vs, goodOnly, now))
    {
      r := [];
      var i := 0;
      while i < |cs|
        invariant 0 <= i <= |cs|
        invariant Show(r, N.Select(p, vs[..i], goodOnly, now))
      {
        assert cs[i].View() == vs[i];
        SelectAppend(p, vs[..i], vs[i], goodOnly, now);
        assert vs[..i + 1] == vs[..i] + [vs[i]];
        if N.Eligible(p, cs[i].View(), goodOnly, now) {
          r := r + [cs[i]];
        }
        i := i + 1;
      }
      assert vs[..i] == vs;
    }

    /** The sort key of `closest`; an identifier never changes. */
    static function DistanceTo(target: nat): Contact -> nat {
      (c: Contact) => Xor(c.id, target)
    }

    static lemma {:induction false} InsertShows(c: Contact, v: M.ContactInfo, cs: seq<Contact>, vs: seq<M.ContactInfo>,
                                                target: nat)
      requires Show(cs, vs) && c.View() == v
      ensures Show(InsertNear(c, cs, DistanceTo(target)), InsertNear(v, vs, N.DistanceTo(target)))
      decreases |cs|
    {
      hide Xor;
      if cs != [] {
        assert cs[0].View() == vs[0];
        InsertShows(c, v, cs[1..], vs[1..], target);
      }
    }

    static lemma {:induction false} SortShows(cs: seq<Contact>, vs: seq<M.ContactInfo>, target: nat)
      requires Show(cs, vs)
      ensures Show(SortNear(cs, DistanceTo(target)), SortNear(vs, N.DistanceTo(target)))
      decreases |cs|
    {
      hide InsertNear;
      if cs != [] {
        assert cs[0].View() == vs[0];
        SortShows(cs[1..], vs[1..], target);
        InsertShows(cs[0], vs[0], SortNear(cs[1..], DistanceTo(target)), SortNear(vs[1..], N.DistanceTo(target)),
                    target);
      }
    }

    /** `closest` */
    method Closest(target: nat, limit: nat, goodOnly: bool, now: int) returns (r: seq<Contact>)
      requires Valid()
      ensures Show(r, N.Closest(p, model, target, limit, goodOnly, now))
      ensures exists q :: Show(r, q) && N.IsNearest(p, model, target, limit, goodOnly, now, q)
    {
      N.ClosestIsNearest(p, model, target, limit, goodOnly, now);
      hide M.Inv, N.IsNearest, SortNear;
      var all := AllContacts();
      var selected := SelectFrom(p, all, goodOnly, now, N.AllContacts(model));
      SortShows(selected, N.Select(p, N.AllContacts(model), goodOnly, now), target);
      var sorted := SortNear(selected, DistanceTo(target));
      r := if limit < |sorted| then sorted[..limit] else sorted;
    }

    // ---- Snapshots ----

    /** `snapshot_records` */
    method SnapshotRecords(now: int) returns (rs: seq<S.Record>)
      requires Valid()
      ensures rs == S.SnapshotRecords(p, model, now)
    {
      var all := AllContacts();
      hide M.Inv, N.AllContacts;
      hide S.ContactRecord;
      ghost var vs := N.AllContacts(model);
      rs := [S.HeaderRecord()];
      var i := 0;
      while i < |all|
        invariant 0 <= i <= |all| && |rs| == i + 1 && rs[0] == S.HeaderRecord()
        invariant forall j :: 0 <= j < i ==> rs[j + 1] == S.ContactRecord(p, vs[j], now)
      {
        assert all[i].View() == vs[i];
        rs := rs + [S.ContactRecord(p, all[i].View(), now)];
        i := i + 1;
      }
      assert rs[1..] == S.ContactRecords(p, vs, now);
    }

    /** `restore_contacts`, with the clock reading of every round. */
    method RestoreContacts(rs: seq<S.Record>, times: seq<int>)
      requires Valid() && |times| == |rs|
      modifies Repr
      ensures Valid() && fresh(Repr - old(Repr))
      ensures model == S.Restore(p, old(model), rs, times)
    {
      hide M.Inv, S.RestoreOne, Show, Bucket.Shows;
      var i := 0;
      while i < |rs|
        invariant 0 <= i <= |rs|
        invariant Valid() && fresh(Repr - old(Repr))
        invariant model == S.Restore(p, old(model), rs[..i], times[..i])
      {
        var r := rs[i];
        RestoreRound(old(model), rs, times, i);
        RestoreIsObserve(p, model, r, times[i]);
        if r.event == "contact" && r.nodeId.Some? && r.ip.Some? && r.port.Some? {
          var c := Observe(r.nodeId.value, S.Unverified(0, r.ip.value, r.port.value, times[i]));
        }
        i := i + 1;
      }
      assert rs[..i] == rs && times[..i] == times;
    }

    lemma RestoreRound(t: M.Table, rs: seq<S.Record>, times: seq<int>, i: nat)
      requires M.Inv(p, t) && |times| == |rs| && i < |rs|
      ensures S.Restore(p, t, rs[..i + 1], times[..i + 1])
              == S.RestoreOne(p, S.Restore(p, t, rs[..i], times[..i]), rs[i], times[i])
    {
      assert rs[..i + 1][..i] == rs[..i] && times[..i + 1][..i] == times[..i];
    }

    static lemma RestoreIsObserve(p: M.Params, t: M.Table, r: S.Record, now: int)
      requires M.Inv(p, t)
      ensures S.RestoreOne(p, t, r, now) ==
              if r.event == "contact" && r.nodeId.Some? && r.ip.Some? && r.port.Some?
              then Observed(p, t, r.nodeId.value, S.Unverified(0, r.ip.value, r.port.value, now)).0 else t
    {
    }
  }
}
