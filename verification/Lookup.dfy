/** The iterative get_peers lookup against responders that may answer anything.

    What the lookup cannot control is an oracle: the replies, which returned nodes the routing table
    accepts, the endpoint a contact object holds in each round (other tasks may move it), and the clock. */
module Lookup {
  import opened Endpoints
  import opened NearestFirst
  import opened Sets
  import opened Wrappers
  import opened XorMetric

  datatype Node = Node(id: nat, endpoint: Endpoint)

  /** `values` holds None where an entry does not parse; a query that fails or times out is `NoReply`. */
  datatype Reply = NoReply | Reply(values: seq<Option<Endpoint>>, nodes: seq<Node>)

  datatype Env = Env(
    key: nat,
    allowed: Endpoint -> bool,
    endpointAt: (nat, nat) -> Endpoint,
    reply: (nat, nat) -> Reply,
    accepted: (nat, Node) -> bool,
    late: nat -> bool,
    k: nat, parallel: nat, maxQueries: nat, maxPeers: nat)
  {
    predicate Valid() {
      k > 0 && parallel > 0 && maxQueries > 0 && maxPeers > 0
    }

    /** Node `id` may be asked in this round. */
    predicate MayAsk(round: nat, id: nat) {
      allowed(endpointAt(round, id))
    }
  }

  datatype Exit = Deadline | QueryLimit | PeerLimit | Exhausted | Converged

  // ---- Nearest first ----

  /** The sort key of the lookup. */
  function Distance(key: nat): nat -> nat {
    (x: nat) => Xor(x, key)
  }

  ghost function Members(s: seq<nat>): set<nat> {
    set x | x in s
  }

  /** The shortlist in the order of distance. */
  function Ordered(ids: seq<nat>, key: nat): seq<nat> {
    SortNear(ids, Distance(key))
  }

  /** The nearest nodes known. */
  function Frontier(env: Env, known: seq<nat>): seq<nat> {
    Take(Ordered(known, env.key), env.k)
  }

  lemma OrderedAscends(ids: seq<nat>, key: nat)
    requires Distinct(ids)
    ensures Ascending(Ordered(ids, key), Distance(key)) && forall x :: x in Ordered(ids, key) <==> x in ids
  {
    hide Xor;
    forall i, j | 0 <= i < j < |ids| ensures Distance(key)(ids[i]) != Distance(key)(ids[j]) {
      if Xor(ids[i], key) == Xor(ids[j], key) { XorInjective(ids[i], ids[j], key); }
    }
    SortNearSorted(ids, Distance(key));
    forall x ensures x in Ordered(ids, key) <==> x in ids {
      SortNearMember(ids, Distance(key), x);
    }
  }

  lemma FrontierIsNearest(env: Env, known: seq<nat>)
    requires Distinct(known)
    ensures NearestOf(Frontier(env, known), Members(known), Distance(env.key), env.k)
  {
    OrderedAscends(known, env.key);
    TakeIsNearest(Ordered(known, env.key), Members(known), Distance(env.key), env.k);
  }

  /** There is only one list of the nearest nodes. */
  lemma NearestNodesUnique(a: seq<nat>, b: seq<nat>, pool: set<nat>, key: nat, limit: nat)
    requires NearestOf(a, pool, Distance(key), limit) && NearestOf(b, pool, Distance(key), limit)
    ensures a == b
  {
    forall x, y | x in pool && y in pool && Distance(key)(x) == Distance(key)(y) ensures x == y {
      XorInjective(x, y, key);
    }
    NearestUnique(a, b, pool, Distance(key), limit);
  }

  /** Filter an ascending list and keep the first `limit` entries. */
  method TakeNearest(ordered: seq<nat>, want: nat -> bool, key: nat, limit: nat) returns (batch: seq<nat>)
    requires Ascending(ordered, Distance(key))
    ensures NearestOf(batch, (set x | x in ordered && want(x)), Distance(key), limit)
  {
    hide Distance;
    var dist := Distance(key);
    batch := [];
    var i := 0;
    while i < |ordered| && |batch| < limit
      invariant 0 <= i <= |ordered| && |batch| <= limit
      invariant Ascending(batch, dist)
      invariant forall x :: x in batch <==> x in ordered[..i] && want(x)
    {
      assert forall x :: x in ordered[..i + 1] <==> x in ordered[..i] || x == ordered[i];
      if want(ordered[i]) {
        forall j | 0 <= j < |batch| ensures dist(batch[j]) < dist(ordered[i]) {
          assert batch[j] in batch;
        }
        batch := batch + [ordered[i]];
      }
      i := i + 1;
    }
    forall x | x in ordered && want(x) && x !in batch
      ensures |batch| == limit && forall y :: y in batch ==> dist(y) < dist(x)
    {
      var j :| 0 <= j < |ordered| && ordered[j] == x;
      assert ordered[..i] + ordered[i..] == ordered;
      assert x !in ordered[..i];
    }
  }

  // ---- One reply ----

  /** The endpoints of a reply that are worth keeping. */
  ghost predicate Offered(env: Env, values: seq<Option<Endpoint>>, e: Endpoint) {
    Some(e) in values && env.allowed(e)
  }

  /** The loop over `values`: it stops after the entry that reaches the limit. */
  method AbsorbValues(env: Env, values: seq<Option<Endpoint>>, peers: seq<Endpoint>) returns (r: seq<Endpoint>)
    requires Distinct(peers)
    ensures Distinct(r) && peers <= r
    ensures forall e :: e in r ==> e in peers || Offered(env, values, e)
    ensures |r| < env.maxPeers ==> forall e :: Offered(env, values, e) ==> e in r
  {
    r := peers;
    var i := 0;
    while i < |values|
      invariant 0 <= i <= |values| && Distinct(r) && peers <= r
      invariant forall e :: e in r ==> e in peers || Offered(env, values[..i], e)
      invariant forall e :: Offered(env, values[..i], e) ==> e in r
    {
      assert forall v :: v in values[..i + 1] <==> v in values[..i] || v == values[i];
      if values[i].Some? && env.allowed(values[i].value) && values[i].value !in r {
        r := r + [values[i].value];
        if |r| >= env.maxPeers {
          assert forall v :: v in values[..i + 1] ==> v in values;
          return;
        }
      }
      i := i + 1;
    }
    assert values[..i] == values;
  }

  /** A node of a reply that enters the shortlist. */
  ghost predicate Learned(env: Env, round: nat, nodes: seq<Node>, id: nat) {
    exists n :: n in nodes && n.id == id && env.allowed(n.endpoint) && env.accepted(round, n)
  }

  method AbsorbNodes(env: Env, round: nat, nodes: seq<Node>, known: seq<nat>) returns (r: seq<nat>)
    requires Distinct(known)
    ensures Distinct(r) && known <= r
    ensures forall x :: x in r <==> x in known || Learned(env, round, nodes, x)
  {
    r := known;
    var i := 0;
    while i < |nodes|
      invariant 0 <= i <= |nodes| && Distinct(r) && known <= r
      invariant forall x :: x in r <==> x in known || Learned(env, round, nodes[..i], x)
    {
      ghost var before := r;
      assert forall n :: n in nodes[..i + 1] <==> n in nodes[..i] || n == nodes[i];
      if env.allowed(nodes[i].endpoint) && env.accepted(round, nodes[i]) && nodes[i].id !in r {
        r := r + [nodes[i].id];
      }
      forall x ensures x in r <==> x in known || Learned(env, round, nodes[..i + 1], x) {
        LearnedStep(env, round, nodes, i, x);
        assert x in r <==>
               x in before || (x == nodes[i].id && env.allowed(nodes[i].endpoint) && env.accepted(round, nodes[i]));
      }
      i := i + 1;
    }
    assert nodes[..i] == nodes;
  }

  lemma LearnedStep(env: Env, round: nat, nodes: seq<Node>, i: nat, x: nat)
    requires i < |nodes|
    ensures Learned(env, round, nodes[..i + 1], x) <==>
            Learned(env, round, nodes[..i], x)
            || (nodes[i].id == x && env.allowed(nodes[i].endpoint) && env.accepted(round, nodes[i]))
  {
    assert nodes[i] in nodes[..i + 1];
    assert forall n :: n in nodes[..i + 1] <==> n in nodes[..i] || n == nodes[i];
  }

  // ---- The record of a lookup ----

  /** One query that was sent: in which round, to which node. */
  datatype Query = Query(round: nat, id: nat)

  /** What a round started from, and whom it asked. */
  datatype Round = Round(known: seq<nat>, asked: seq<Query>, peers: seq<Endpoint>, batch: seq<nat>)

  function Queries(round: nat, batch: seq<nat>): (qs: seq<Query>)
    ensures |qs| == |batch| && forall i :: 0 <= i < |batch| ==> qs[i] == Query(round, batch[i])
  {
    seq(|batch|, i requires 0 <= i < |batch| => Query(round, batch[i]))
  }

  /** All queries of these rounds, in order. */
  function Sent(rounds: seq<Round>): seq<Query> {
    if rounds == [] then []
    else
      var n := |rounds| - 1;
      Sent(rounds[..n]) + Queries(n, rounds[n].batch)
  }

  ghost predicate WasAsked(asked: seq<Query>, id: nat) {
    exists q :: q in asked && q.id == id
  }

  /** The nodes that may be asked in a round. */
  ghost function Askable(env: Env, round: nat, known: seq<nat>, asked: seq<Query>): set<nat> {
    set x | x in known && !WasAsked(asked, x) && env.MayAsk(round, x)
  }

  /** The batch of a round is the nearest allowed nodes not asked before. */
  ghost predicate NextRound(env: Env, round: nat, known: seq<nat>, asked: seq<Query>, batch: seq<nat>) {
    batch != [] && NearestOf(batch, Askable(env, round, known, asked), Distance(env.key), env.parallel)
  }

  ghost predicate OncePerNode(asked: seq<Query>) {
    forall i, j :: 0 <= i < j < |asked| ==> asked[i].id != asked[j].id
  }

  /** The shortlist is what the lookup started from and what the replies taught. */
  ghost predicate KnownExact(env: Env, start: seq<nat>, asked: seq<Query>, known: seq<nat>) {
    forall x :: x in known <==> x in start || exists q :: q in asked && Taught(env, q, x)
  }

  ghost predicate Taught(env: Env, q: Query, x: nat) {
    env.reply(q.round, q.id).Reply? && Learned(env, q.round, env.reply(q.round, q.id).nodes, x)
  }

  ghost predicate Gave(env: Env, q: Query, e: Endpoint) {
    env.reply(q.round, q.id).Reply? && Offered(env, env.reply(q.round, q.id).values, e)
  }

  /** Peers are distinct, allowed and came from replies; short of the limit, none that was offered is missing. */
  ghost predicate PeersExact(env: Env, asked: seq<Query>, peers: seq<Endpoint>) {
    && Distinct(peers)
    && (forall e :: e in peers ==> exists q :: q in asked && Gave(env, q, e))
    && (|peers| < env.maxPeers ==> forall q, e :: q in asked && Gave(env, q, e) ==> e in peers)
  }

  /** A round started in time and below both limits, knowing exactly what the rounds before it had asked and learned. */
  ghost predicate StartedFrom(env: Env, start: seq<nat>, rounds: seq<Round>, i: nat)
    requires i < |rounds|
  {
    var r := rounds[i];
    && !env.late(i) && |r.asked| < env.maxQueries && |r.peers| < env.maxPeers
    && r.asked == Sent(rounds[..i]) && Stop(env, i, Previous(env, rounds[..i]), r.known, r.asked) == None
    && KnownExact(env, start, r.asked, r.known) && PeersExact(env, r.asked, r.peers)
  }

  /** The rounds are the whole lookup: the queries sent are theirs and no others. */
  ghost predicate Recorded(env: Env, start: seq<nat>, rounds: seq<Round>, asked: seq<Query>) {
    && asked == Sent(rounds)
    && forall i :: 0 <= i < |rounds| ==> StartedFrom(env, start, rounds, i)
  }

  lemma RecordRound(env: Env, start: seq<nat>, rounds: seq<Round>, asked: seq<Query>, r: Round, asked': seq<Query>)
    requires Recorded(env, start, rounds, asked) && r.asked == asked
    requires !env.late(|rounds|) && |asked| < env.maxQueries && |r.peers| < env.maxPeers
    requires KnownExact(env, start, asked, r.known) && PeersExact(env, asked, r.peers)
    requires Stop(env, |rounds|, Previous(env, rounds), r.known, asked) == None
    requires asked' == asked + Queries(|rounds|, r.batch)
    ensures Recorded(env, start, rounds + [r], asked')
  {
    hide KnownExact, PeersExact, Stop, Previous;
    var rs := rounds + [r];
    assert rs[..|rounds|] == rounds;
    forall i | 0 <= i < |rs| ensures StartedFrom(env, start, rs, i) {
      if i < |rounds| {
        assert rs[..i] == rounds[..i];
        assert StartedFrom(env, start, rounds, i);
      }
    }
  }

  /** No allowed node among the k nearest known is left unasked. */
  ghost predicate FrontierAsked(env: Env, round: nat, known: seq<nat>, asked: seq<Query>) {
    forall frontier :: NearestOf(frontier, Members(known), Distance(env.key), env.k) ==>
      forall x :: x in frontier && env.MayAsk(round, x) ==> WasAsked(asked, x)
  }

  lemma FrontierIs(env: Env, round: nat, known: seq<nat>, asked: seq<Query>, frontier: seq<nat>)
    requires NearestOf(frontier, Members(known), Distance(env.key), env.k)
    requires forall x :: x in frontier && env.MayAsk(round, x) ==> WasAsked(asked, x)
    ensures FrontierAsked(env, round, known, asked)
  {
    forall other | NearestOf(other, Members(known), Distance(env.key), env.k)
      ensures forall x :: x in other && env.MayAsk(round, x) ==> WasAsked(asked, x)
    {
      NearestNodesUnique(other, frontier, Members(known), env.key, env.k);
    }
  }

  /** The batch of a round in terms of the metric: no node that may be asked and was not is as near as one that is asked
      now, and there is one only when the batch is as large as may be. */
  lemma BatchByXor(env: Env, round: nat, known: seq<nat>, asked: seq<Query>, batch: seq<nat>)
    requires NextRound(env, round, known, asked, batch)
    ensures |batch| <= env.parallel
    ensures forall i, j :: 0 <= i < j < |batch| ==> Xor(batch[i], env.key) < Xor(batch[j], env.key)
    ensures forall x :: x in batch ==> x in known && !WasAsked(asked, x) && env.allowed(env.endpointAt(round, x))
    ensures forall x, y :: x in batch && y in known && y !in batch && !WasAsked(asked, y)
                           && env.allowed(env.endpointAt(round, y)) ==>
              |batch| == env.parallel && Xor(x, env.key) < Xor(y, env.key)
  {
    hide Xor, WasAsked;
    var pool, dist := Askable(env, round, known, asked), Distance(env.key);
    assert forall x :: dist(x) == Xor(x, env.key);
  }

  // ---- The lookup ----

  /** One round's replies, in the order of the batch. */
  method AskBatch(env: Env, round: nat, batch: seq<nat>, start: seq<nat>, known: seq<nat>, peers: seq<Endpoint>,
                  ghost asked: seq<Query>)
      returns (known': seq<nat>, peers': seq<Endpoint>, ghost asked': seq<Query>)
    requires Distinct(known) && KnownExact(env, start, asked, known) && PeersExact(env, asked, peers)
    ensures Distinct(known') && known <= known' && KnownExact(env, start, asked', known')
            && PeersExact(env, asked', peers')
    ensures asked' == asked + Queries(round, batch)
  {
    known', peers', asked' := known, peers, asked;
    var i := 0;
    while i < |batch|
      invariant 0 <= i <= |batch|
      invariant Distinct(known') && known <= known' && KnownExact(env, start, asked', known')
                && PeersExact(env, asked', peers')
      invariant |asked'| == |asked| + i && asked'[..|asked|] == asked
      invariant forall j :: 0 <= j < i ==> asked'[|asked| + j] == Query(round, batch[j])
    {
      ghost var q := Query(round, batch[i]);
      ghost var before, knew, had := asked', known', peers';
      asked' := asked' + [q];
      var r := env.reply(round, batch[i]);
      if r.Reply? {
        peers' := AbsorbValues(env, r.values, peers');
        known' := AbsorbNodes(env, round, r.nodes, known');
      }
      KnownStep(env, start, before, q, knew, known');
      PeersStep(env, before, q, had, peers');
      i := i + 1;
    }
  }

  lemma KnownStep(env: Env, start: seq<nat>, asked: seq<Query>, q: Query, knew: seq<nat>, known: seq<nat>)
    requires KnownExact(env, start, asked, knew)
    requires forall x :: x in known <==> x in knew || Taught(env, q, x)
    ensures KnownExact(env, start, asked + [q], known)
  {
    hide Taught;
    assert forall p :: p in asked + [q] <==> p in asked || p == q;
  }

  lemma PeersStep(env: Env, asked: seq<Query>, q: Query, had: seq<Endpoint>, peers: seq<Endpoint>)
    requires PeersExact(env, asked, had) && Distinct(peers) && had <= peers
    requires forall e :: e in peers ==> e in had || Gave(env, q, e)
    requires |peers| < env.maxPeers ==> forall e :: Gave(env, q, e) ==> e in peers
    ensures PeersExact(env, asked + [q], peers)
  {
    hide Gave;
    assert forall p :: p in asked + [q] <==> p in asked || p == q;
  }

  /** The list of queries after a batch of new nodes asks each node once. */
  lemma BatchOnce(asked: seq<Query>, round: nat, batch: seq<nat>, key: nat, asked': seq<Query>)
    requires OncePerNode(asked) && Ascending(batch, Distance(key)) && forall x :: x in batch ==> !WasAsked(asked, x)
    requires asked' == asked + Queries(round, batch)
    ensures OncePerNode(asked')
    ensures forall x :: WasAsked(asked', x) <==> WasAsked(asked, x) || x in batch
  {
    hide Distance;
    var n := |asked|;
    assert forall i :: 0 <= i < n ==> asked'[i] == asked[i];
    forall i, j | 0 <= i < j < |asked'|
      ensures asked'[i].id != asked'[j].id
    {
      if i < n <= j {
        assert batch[j - n] in batch && asked[i] in asked;
      } else if n <= i {
        assert Distance(key)(batch[i - n]) < Distance(key)(batch[j - n]);
      }
    }
    forall x
      ensures WasAsked(asked', x) <==> WasAsked(asked, x) || x in batch
    {
      if x in batch {
        var i :| 0 <= i < |batch| && batch[i] == x;
        assert asked'[n + i] in asked';
      }
      if WasAsked(asked, x) {
        var q :| q in asked && q.id == x;
        var i :| 0 <= i < n && asked[i] == q;
        assert asked'[i] in asked';
      }
      if WasAsked(asked', x) {
        var q :| q in asked' && q.id == x;
        var i :| 0 <= i < |asked'| && asked'[i] == q;
        if i < n { assert asked[i] in asked; } else { assert batch[i - n] in batch; }
      }
    }
  }

  /** The next batch: the nearest nodes that may be asked and have not been. */
  method NextBatch(env: Env, round: nat, ordered: seq<nat>, queried: set<nat>, ghost known: seq<nat>,
                   ghost asked: seq<Query>) returns (batch: seq<nat>)
    requires Ascending(ordered, Distance(env.key)) && (forall x :: x in ordered <==> x in known)
             && (forall x :: x in queried <==> WasAsked(asked, x))
    ensures NearestOf(batch, Askable(env, round, known, asked), Distance(env.key), env.parallel)
    ensures Ascending(batch, Distance(env.key)) && |batch| <= env.parallel
    ensures forall x :: x in batch ==> !WasAsked(asked, x)
  {
    hide Distance, Ascending, WasAsked;
    batch := TakeNearest(ordered, (x: nat) => x !in queried && env.MayAsk(round, x), env.key, env.parallel);
    assert (set x | x in ordered && x !in queried && env.MayAsk(round, x)) == Askable(env, round, known, asked);
  }

  /** With nothing left to ask, nothing is left unasked. */
  lemma NothingLeft(env: Env, round: nat, known: seq<nat>, asked: seq<Query>)
    requires Askable(env, round, known, asked) == {}
    ensures FrontierAsked(env, round, known, asked)
  {
    hide Distance, Ascending;
    forall frontier, x | NearestOf(frontier, Members(known), Distance(env.key), env.k) && x in frontier
      && env.MayAsk(round, x)
      ensures WasAsked(asked, x)
    {
      assert x in Askable(env, round, known, asked) || WasAsked(asked, x);
    }
  }

  /** Distinct, allowed, given by a reply and within the limit; below it, nothing that was given is missing. */
  ghost predicate Returnable(env: Env, asked: seq<Query>, peers: seq<Endpoint>) {
    && Distinct(peers) && |peers| <= env.maxPeers
    && (forall e :: e in peers ==> env.allowed(e) && exists q :: q in asked && Gave(env, q, e))
    && (|peers| < env.maxPeers ==> forall q, e :: q in asked && Gave(env, q, e) ==> e in peers)
  }

  /** What is returned of the peers found. */
  lemma Truncated(env: Env, asked: seq<Query>, found: seq<Endpoint>, peers: seq<Endpoint>)
    requires PeersExact(env, asked, found) && peers == if env.maxPeers < |found| then found[..env.maxPeers] else found
    ensures Returnable(env, asked, peers)
    ensures Distinct(peers) && |peers| <= env.maxPeers && forall e :: e in peers ==> env.allowed(e)
  {
    assert forall e :: e in peers ==> e in found;
  }

  /** The frontier has not moved since the previous round, and all of it has been asked. */
  ghost predicate Settled(env: Env, previous: Option<seq<nat>>, known: seq<nat>, asked: seq<Query>) {
    previous == Some(Frontier(env, known)) && forall x :: x in Frontier(env, known) ==> WasAsked(asked, x)
  }

  /** Whether a round stops the lookup: nobody left to ask anywhere, or the frontier is settled. */
  ghost function Stop(env: Env, round: nat, previous: Option<seq<nat>>, known: seq<nat>,
                      asked: seq<Query>): Option<Exit> {
    if Askable(env, round, known, asked) == {} then Some(Exhausted)
    else if Settled(env, previous, known, asked) then Some(Converged)
    else None
  }

  /** The frontier that the round after these compares with. */
  function Previous(env: Env, rounds: seq<Round>): Option<seq<nat>> {
    if rounds == [] then None else Some(Frontier(env, rounds[|rounds| - 1].known))
  }

  lemma StopMeansAsked(env: Env, round: nat, previous: Option<seq<nat>>, known: seq<nat>, asked: seq<Query>)
    requires Distinct(known) && Stop(env, round, previous, known, asked).Some?
    ensures FrontierAsked(env, round, known, asked)
    ensures var stop := Stop(env, round, previous, known, asked); stop == Some(Exhausted) || stop == Some(Converged)
  {
    if Askable(env, round, known, asked) == {} {
      NothingLeft(env, round, known, asked);
    } else {
      FrontierIsNearest(env, known);
      hide NearestOf, Members, Frontier;
      FrontierIs(env, round, known, asked, Frontier(env, known));
    }
  }

  /** The decision at the head of a round: stop, or whom to ask. */
  method Plan(env: Env, round: nat, shortlist: seq<nat>, queried: set<nat>, previous: Option<seq<nat>>,
              ghost asked: seq<Query>)
      returns (batch: seq<nat>, frontier: seq<nat>, stop: Option<Exit>)
    requires env.Valid() && Distinct(shortlist) && forall x :: x in queried <==> WasAsked(asked, x)
    ensures stop == Stop(env, round, previous, shortlist, asked)
    ensures frontier == Frontier(env, shortlist)
    ensures stop.None? ==> NextRound(env, round, shortlist, asked, batch)
    ensures stop.None? ==> Ascending(batch, Distance(env.key)) && 0 < |batch| <= env.parallel
    ensures stop.None? ==> forall x :: x in batch ==> !WasAsked(asked, x)
  {
    hide Distance, Ascending, NearestOf, WasAsked, Distinct, Askable, SortNear;
    OrderedAscends(shortlist, env.key);
    var ordered := SortNear(shortlist, Distance(env.key));
    frontier := Take(ordered, env.k);
    batch := NextBatch(env, round, ordered, queried, shortlist, asked);
    NobodyToAsk(env, round, shortlist, asked, batch);
    stop := None;
    if batch == [] {
      stop := Some(Exhausted);
    } else if previous == Some(frontier) && forall x :: x in frontier ==> x in queried {
      stop := Some(Converged);
    }
  }

  lemma NobodyToAsk(env: Env, round: nat, known: seq<nat>, asked: seq<Query>, batch: seq<nat>)
    requires env.Valid() && NearestOf(batch, Askable(env, round, known, asked), Distance(env.key), env.parallel)
    ensures batch == [] <==> Askable(env, round, known, asked) == {}
  {
    hide Askable;
    if batch != [] { assert batch[0] in batch; }
  }

  lemma NothingAsked(env: Env, start: seq<nat>)
    ensures KnownExact(env, start, [], start) && PeersExact(env, [], []) && OncePerNode([])
            && Recorded(env, start, [], [])
    ensures forall x :: !WasAsked([], x)
  {
  }

  /** `iterative_get_peers`, starting from the contacts `start` that the routing table offers. */
  method GetPeers(env: Env, start: seq<nat>) returns (peers: seq<Endpoint>, ghost exit: Exit, ghost rounds: seq<Round>,
                                                      ghost asked: seq<Query>, ghost known: seq<nat>)
    requires env.Valid() && Distinct(start)
    ensures Distinct(peers) && |peers| <= env.maxPeers && forall e :: e in peers ==> env.allowed(e)
    ensures Returnable(env, asked, peers)
    ensures OncePerNode(asked) && |asked| <= env.maxQueries + env.parallel - 1
    ensures Recorded(env, start, rounds, asked)
    ensures forall i :: 0 <= i < |rounds| ==> NextRound(env, i, rounds[i].known, rounds[i].asked, rounds[i].batch)
    ensures KnownExact(env, start, asked, known)
    ensures exit.Exhausted? || exit.Converged? ==>
              && Stop(env, |rounds|, Previous(env, rounds), known, asked) == Some(exit)
              && FrontierAsked(env, |rounds|, known, asked)
    ensures exit.Deadline? ==> env.late(|rounds|)
    ensures exit.QueryLimit? ==> |asked| >= env.maxQueries
    ensures exit.PeerLimit? ==> |peers| == env.maxPeers
  {
    hide Distance, Ascending, KnownExact, PeersExact, Gave, FrontierAsked, WasAsked, OncePerNode, NextRound, Recorded;
    hide Queries, Distinct, Returnable, Frontier, Stop;
    var shortlist := start;
    var queried: set<nat> := {};
    var found: seq<Endpoint> := [];
    var queryCount: nat, round: nat := 0, 0;
    var previous: Option<seq<nat>> := None;
    rounds, asked := [], [];
    exit := Deadline;
    NothingAsked(env, start);
    while !env.late(round) && queryCount < env.maxQueries && |found| < env.maxPeers
      invariant Distinct(shortlist) && KnownExact(env, start, asked, shortlist) && PeersExact(env, asked, found)
      invariant OncePerNode(asked) && queryCount == |asked| <= env.maxQueries + env.parallel - 1
      invariant forall x :: x in queried <==> WasAsked(asked, x)
      invariant round == |rounds| && Recorded(env, start, rounds, asked) && previous == Previous(env, rounds)
      invariant forall i :: 0 <= i < |rounds| ==> NextRound(env, i, rounds[i].known, rounds[i].asked, rounds[i].batch)
      invariant exit == Deadline
      decreases env.maxQueries - queryCount
    {
      var batch, frontier, stop := Plan(env, round, shortlist, queried, previous, asked);
      if stop.Some? {
        StopMeansAsked(env, round, previous, shortlist, asked);
        exit := stop.value;
        break;
      }
      previous := Some(frontier);
      ghost var r := Round(shortlist, asked, found, batch);
      queried := queried + set x | x in batch;
      queryCount := queryCount + |batch|;
      ghost var before := asked;
      shortlist, found, asked := AskBatch(env, round, batch, start, shortlist, found, asked);
      BatchOnce(before, round, batch, env.key, asked);
      RecordRound(env, start, rounds, before, r, asked);
      rounds, round := rounds + [r], round + 1;
    }
    known := shortlist;
    if exit == Deadline && !env.late(round) {
      exit := if queryCount >= env.maxQueries then QueryLimit else PeerLimit;
    }
    peers := if env.maxPeers < |found| then found[..env.maxPeers] else found;
    Truncated(env, asked, found, peers);
  }
}
