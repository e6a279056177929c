/** Replies that fit into one datagram: how the encoded size of a reply grows with its lists, and the loops
    that fill or trim them. */
module Packing {
  import opened Bytes
  import opened Decimal
  import opened Bencode
  import BP = BencodeProofs
  import BencodeEncoder

  const MAX_RESPONSE: nat := 1024

  // ---- The size of an encoded dictionary ----

  ghost function Size(v: Value): nat {
    |Encode(v)|
  }

  ghost function SizeUnder(v: Value, ks: set<bytes>): nat
    requires v.Dict? && ks <= v.entries.Keys
    decreases ks
  {
    if ks == {} then 0 else var k :| k in ks; |EncodeStr(k)| + Size(v.entries[k]) + SizeUnder(v, ks - {k})
  }

  lemma {:induction false} SizeUnderPick(v: Value, ks: set<bytes>, k: bytes)
    requires v.Dict? && ks <= v.entries.Keys && k in ks
    ensures SizeUnder(v, ks) == |EncodeStr(k)| + Size(v.entries[k]) + SizeUnder(v, ks - {k})
    decreases |ks|
  {
    hide Size, EncodeStr;
    var j :| j in ks && SizeUnder(v, ks) == |EncodeStr(j)| + Size(v.entries[j]) + SizeUnder(v, ks - {j});
    if j != k {
      SizeUnderPick(v, ks - {j}, k);
      SizeUnderPick(v, ks - {k}, j);
      assert ks - {j} - {k} == ks - {k} - {j};
    }
  }

  lemma {:induction false} EntriesSize(v: Value, ks: seq<bytes>)
    requires v.Dict? && Ascending(ks) && forall k :: k in ks ==> k in v.entries
    ensures |EncodeEntries(v, ks)| == SizeUnder(v, KeySet(ks))
    decreases |ks|
  {
    hide Encode, EncodeStr;
    if ks == [] {
      assert KeySet(ks) == {};
    } else {
      BP.LessTotal(ks[0], ks[0]);
      assert forall j :: j in ks <==> j == ks[0] || j in ks[1..];
      assert KeySet(ks) - {ks[0]} == KeySet(ks[1..]);
      SizeUnderPick(v, KeySet(ks), ks[0]);
      EntriesSize(v, ks[1..]);
    }
  }

  lemma DictSize(v: Value)
    requires v.Dict?
    ensures Size(v) == 2 + SizeUnder(v, v.entries.Keys)
  {
    var ks := SortedKeys(v.entries.Keys);
    BP.SortedAscending(v.entries.Keys);
    assert KeySet(ks) == v.entries.Keys;
    EntriesSize(v, ks);
  }

  lemma {:induction false} SameEntriesSameSize(v: Value, w: Value, ks: set<bytes>)
    requires v.Dict? && w.Dict? && ks <= v.entries.Keys && ks <= w.entries.Keys
    requires forall k :: k in ks ==> v.entries[k] == w.entries[k]
    ensures SizeUnder(v, ks) == SizeUnder(w, ks)
    decreases |ks|
  {
    hide Size, EncodeStr;
    if ks != {} {
      var k :| k in ks;
      SizeUnderPick(v, ks, k);
      SizeUnderPick(w, ks, k);
      SameEntriesSameSize(v, w, ks - {k});
    }
  }

  /** A new entry adds exactly its encoded key and value. */
  lemma EntrySize(m: map<bytes, Value>, k: bytes, x: Value)
    requires k !in m
    ensures Size(Dict(m[k := x])) == Size(Dict(m)) + |EncodeStr(k)| + Size(x)
  {
    hide Size, EncodeStr;
    var v, w := Dict(m), Dict(m[k := x]);
    DictSize(v);
    DictSize(w);
    assert w.entries.Keys - {k} == m.Keys;
    SizeUnderPick(w, w.entries.Keys, k);
    SameEntriesSameSize(v, w, m.Keys);
  }

  lemma EmptyDictSize()
    ensures Size(Dict(map[])) == 2
  {
    var none: map<bytes, Value> := map[];
    DictSize(Dict(none));
    assert none.Keys == {};
  }

  /** Replacing an entry by a longer one lengthens the dictionary by the difference. */
  lemma EntryGrows(m: map<bytes, Value>, k: bytes, x: Value, y: Value)
    requires k !in m
    ensures Size(Dict(m[k := y])) - Size(Dict(m[k := x])) == Size(y) - Size(x)
  {
    hide Size, EncodeStr;
    EntrySize(m, k, x);
    EntrySize(m, k, y);
  }

  // ---- Sizes of numerals, strings and lists ----

  lemma {:induction false} NatStrGrows(a: nat, b: nat)
    requires a <= b
    ensures |NatStr(a)| <= |NatStr(b)|
    decreases b
  {
    if a >= 10 {
      NatStrGrows(a / 10, b / 10);
    }
  }

  lemma StrSize(s: bytes)
    ensures Size(Str(s)) == |NatStr(|s|)| + 1 + |s|
  {
  }

  lemma {:induction false} AllSizeAppend(vs: seq<Value>, x: Value)
    ensures |EncodeAll(vs + [x])| == |EncodeAll(vs)| + Size(x)
  {
    hide Encode;
    if vs == [] {
      assert EncodeAll([x]) == Encode(x) + EncodeAll([]) by { assert [x][1..] == []; }
      assert vs + [x] == [x];
    } else {
      assert (vs + [x])[1..] == vs[1..] + [x] && (vs + [x])[0] == vs[0];
      AllSizeAppend(vs[1..], x);
      assert EncodeAll(vs + [x]) == Encode(vs[0]) + EncodeAll(vs[1..] + [x]);
      assert EncodeAll(vs) == Encode(vs[0]) + EncodeAll(vs[1..]);
    }
  }

  lemma ListGrows(vs: seq<Value>, x: Value)
    ensures Size(List(vs + [x])) == Size(List(vs)) + Size(x) && Size(x) > 0
  {
    AllSizeAppend(vs, x);
    BP.EncodeHead(x);
  }

  // ---- Replies ----

  /** A reply to the query with transaction number `tid`. */
  function Message(tid: bytes, version: bytes, r: Value): Value {
    Dict(map[Ascii("t") := Str(tid), Ascii("y") := Str(Ascii("r")), Ascii("v") := Str(version)][Ascii("r") := r])
  }

  /** The trial reply: a two-byte transaction number stands in for the one of the query. */
  function Envelope(version: bytes, r: Value): Value {
    Message(Ascii("aa"), version, r)
  }

  ghost predicate FitsReply(version: bytes, r: Value) {
    Size(Envelope(version, r)) <= MAX_RESPONSE
  }

  lemma MessageSize(tid: bytes, version: bytes, r: Value)
    requires |version| == 4
    ensures Size(Message(tid, version, r)) == 23 + Size(Str(tid)) + Size(r)
  {
    var t, y, v, k := Ascii("t"), Ascii("y"), Ascii("v"), Ascii("r");
    assert t[0] == 116 && y[0] == 121 && v[0] == 118 && k[0] == 114;
    EmptyDictSize();
    var none: map<bytes, Value> := map[];
    EntrySize(none, t, Str(tid));
    EntrySize(none[t := Str(tid)], y, Str(Ascii("r")));
    EntrySize(none[t := Str(tid)][y := Str(Ascii("r"))], v, Str(version));
    var m := map[t := Str(tid), y := Str(Ascii("r")), v := Str(version)];
    assert m == none[t := Str(tid)][y := Str(Ascii("r"))][v := Str(version)];
    EntrySize(m, k, r);
    KeySizes(t, y, v, k);
    StrSize(Ascii("r"));
    StrSize(version);
  }

  /** How much the envelope adds does not depend on the reply. */
  lemma EnvelopeSize(version: bytes, r: Value)
    requires |version| == 4
    ensures Size(Envelope(version, r)) == 27 + Size(r)
  {
    MessageSize(Ascii("aa"), version, r);
    StrSize(Ascii("aa"));
  }

  /** Whether the real reply passes the last size check: exactly when the transaction number takes no more room than
      the trial left. Up to two bytes it always passes. */
  lemma SentExactly(tid: bytes, version: bytes, r: Value)
    requires |version| == 4 && FitsReply(version, r)
    ensures Size(Message(tid, version, r)) <= MAX_RESPONSE <==>
            Size(Str(tid)) <= 4 + (MAX_RESPONSE - Size(Envelope(version, r)))
    ensures |tid| <= 2 ==> Size(Message(tid, version, r)) <= MAX_RESPONSE
  {
    MessageSize(tid, version, r);
    EnvelopeSize(version, r);
    StrSize(tid);
  }

  /** A reply that passes every trial can still be refused: a query with a 1000-byte transaction number gets none. */
  lemma LongTransactionRefused(tid: bytes, version: bytes, r: Value)
    requires |version| == 4 && |tid| == 1000
    ensures Size(Message(tid, version, r)) > MAX_RESPONSE
  {
    MessageSize(tid, version, r);
    StrSize(tid);
    assert Size(r) >= 1 by { BP.EncodeHead(r); }
  }

  lemma KeySizes(t: bytes, y: bytes, v: bytes, k: bytes)
    requires |t| == |y| == |v| == |k| == 1
    ensures |EncodeStr(t)| == |EncodeStr(y)| == |EncodeStr(v)| == |EncodeStr(k)| == 3
  {
  }

  /** `len(bencode.encode(trial)) > MAX_DHT_RESPONSE_BYTES`, negated. */
  method Fits(version: bytes, r: Value) returns (ok: bool)
    ensures ok <==> FitsReply(version, r)
  {
    BencodeEncoder.LiftIsPlain(Envelope(version, r));
    var encoded := BencodeEncoder.EncodeValue(BencodeEncoder.Lift(Envelope(version, r)));
    ok := |encoded.out| <= MAX_RESPONSE;
  }

  /** A reply under construction: fixed entries and one that varies. */
  function With(base: map<bytes, Value>, k: bytes, x: Value): Value {
    Dict(base[k := x])
  }

  /** Of two replies that differ in one entry, the one with the longer entry is longer. */
  lemma FitsAntitone(version: bytes, base: map<bytes, Value>, k: bytes, x: Value, y: Value)
    requires |version| == 4 && k !in base && Size(x) <= Size(y) && FitsReply(version, With(base, k, y))
    ensures FitsReply(version, With(base, k, x))
  {
    hide Size;
    EnvelopeSize(version, With(base, k, x));
    EnvelopeSize(version, With(base, k, y));
    EntryGrows(base, k, x, y);
  }

  // ---- get_peers: values ----

  /** The compact forms of the allowed peers, in the order of the store. */
  function Allowed(peers: seq<(bytes, bool)>): seq<Value> {
    if peers == [] then []
    else Allowed(peers[..|peers| - 1]) + if peers[|peers| - 1].1 then [Str(peers[|peers| - 1].0)] else []
  }

  /** `vs` are the compact forms of the peers at these ascending positions, which are all the allowed ones. */
  ghost predicate Chosen(peers: seq<(bytes, bool)>, vs: seq<Value>, at: seq<nat>) {
    && |at| == |vs| && (forall i, j :: 0 <= i < j < |at| ==> at[i] < at[j])
    && (forall i :: 0 <= i < |at| ==> at[i] < |peers| && peers[at[i]].1 && vs[i] == Str(peers[at[i]].0))
    && (forall j: nat :: j < |peers| && peers[j].1 ==> j in at)
  }

  lemma ChooseNext(peers: seq<(bytes, bool)>, vs: seq<Value>, at: seq<nat>, p: (bytes, bool))
    requires Chosen(peers, vs, at)
    ensures p.1 ==> Chosen(peers + [p], vs + [Str(p.0)], at + [|peers|])
    ensures !p.1 ==> Chosen(peers + [p], vs, at)
  {
    if p.1 {
      var at' := at + [|peers|];
      forall j: nat | j < |peers| + 1 && (peers + [p])[j].1 ensures j in at' {
        if j == |peers| { assert at'[|at|] == j; }
      }
    }
  }

  /** The entries are exactly the allowed peers, in the order of the store. */
  lemma {:induction false} AllowedExactly(peers: seq<(bytes, bool)>) returns (at: seq<nat>)
    ensures Chosen(peers, Allowed(peers), at)
    decreases |peers|
  {
    if peers == [] {
      at := [];
    } else {
      hide Chosen;
      var last := |peers| - 1;
      at := AllowedExactly(peers[..last]);
      ChooseNext(peers[..last], Allowed(peers[..last]), at, peers[last]);
      assert peers[..last] + [peers[last]] == peers;
      assert Allowed(peers[..last]) + [] == Allowed(peers[..last]);
      if peers[last].1 { at := at + [last]; }
    }
  }

  lemma {:induction false} ListMonotone(vs: seq<Value>, n: nat, m: nat)
    requires n <= m <= |vs|
    ensures Size(List(vs[..n])) <= Size(List(vs[..m]))
    decreases m
  {
    hide Size;
    if n < m {
      ListMonotone(vs, n, m - 1);
      assert vs[..m] == vs[..m - 1] + [vs[m - 1]];
      ListGrows(vs[..m - 1], vs[m - 1]);
    }
  }

  /** `values` is the longest prefix of `all` that fits as entry k. */
  ghost predicate LongestList(version: bytes, base: map<bytes, Value>, k: bytes, values: seq<Value>, all: seq<Value>) {
    && values <= all
    && FitsReply(version, With(base, k, List(values)))
    && forall n :: |values| < n <= |all| ==> !FitsReply(version, With(base, k, List(all[..n])))
  }

  lemma {:induction false} AllowedGrows(peers: seq<(bytes, bool)>, i: nat)
    requires i <= |peers|
    ensures Allowed(peers[..i]) <= Allowed(peers)
    decreases |peers| - i
  {
    if i < |peers| {
      AllowedGrows(peers, i + 1);
      assert peers[..i + 1][..i] == peers[..i];
    } else {
      assert peers[..i] == peers;
    }
  }

  lemma StopsThere(version: bytes, base: map<bytes, Value>, k: bytes, all: seq<Value>, n: nat)
    requires |version| == 4 && k !in base && n < |all| && !FitsReply(version, With(base, k, List(all[..n + 1])))
    ensures forall m :: n < m <= |all| ==> !FitsReply(version, With(base, k, List(all[..m])))
  {
    forall m | n < m <= |all|
      ensures !FitsReply(version, With(base, k, List(all[..m])))
    {
      ListMonotone(all, n + 1, m);
      if FitsReply(version, With(base, k, List(all[..m]))) {
        FitsAntitone(version, base, k, List(all[..n + 1]), List(all[..m]));
      }
    }
  }

  /** The loop over the stored peers: skip what is not allowed, stop at the first that does not fit. */
  method PackValues(version: bytes, base: map<bytes, Value>, k: bytes, peers: seq<(bytes, bool)>)
      returns (values: seq<Value>)
    requires |version| == 4 && k !in base && FitsReply(version, With(base, k, List([])))
    ensures LongestList(version, base, k, values, Allowed(peers))
  {
    hide FitsReply, With;
    values := [];
    var i := 0;
    while i < |peers|
      invariant 0 <= i <= |peers| && values == Allowed(peers[..i])
      invariant FitsReply(version, With(base, k, List(values)))
    {
      assert peers[..i + 1][..i] == peers[..i];
      if peers[i].1 {
        var candidate := values + [Str(peers[i].0)];
        var ok := Fits(version, With(base, k, List(candidate)));
        AllowedGrows(peers, i + 1);
        if !ok {
          AllowedGrows(peers, i);
          assert candidate == Allowed(peers[..i + 1]) == Allowed(peers)[..|values| + 1];
          StopsThere(version, base, k, Allowed(peers), |values|);
          return;
        }
        values := candidate;
      }
      i := i + 1;
    }
    assert peers[..i] == peers;
  }

  // ---- get_peers and sample_infohashes: nodes ----

  function Join(parts: seq<bytes>): bytes {
    if parts == [] then [] else Join(parts[..|parts| - 1]) + parts[|parts| - 1]
  }

  /** Joined parts follow one another. */
  lemma {:induction false} JoinConcat(a: seq<bytes>, b: seq<bytes>)
    ensures Join(a + b) == Join(a) + Join(b) && forall s :: Join([s]) == s
    decreases |b|
  {
    forall s ensures Join([s]) == s { assert [s][..0] == []; }
    if b == [] {
      assert a + b == a;
    } else {
      var n := |b| - 1;
      assert (a + b)[..|a| + n] == a + b[..n];
      JoinConcat(a, b[..n]);
    }
  }

  lemma {:induction false} JoinMonotone(parts: seq<bytes>, n: nat, m: nat)
    requires n <= m <= |parts|
    ensures |Join(parts[..n])| <= |Join(parts[..m])|
    decreases m
  {
    if n < m {
      JoinMonotone(parts, n, m - 1);
      assert parts[..m][..m - 1] == parts[..m - 1];
    }
  }

  lemma StrMonotone(s: bytes, t: bytes)
    requires |s| <= |t|
    ensures Size(Str(s)) <= Size(Str(t))
  {
    NatStrGrows(|s|, |t|);
  }

  /** The first n parts, joined, are the longest run that fits as entry k (or n is 0). */
  ghost predicate LongestJoin(version: bytes, base: map<bytes, Value>, k: bytes, n: nat, parts: seq<bytes>) {
    && n <= |parts|
    && (n > 0 ==> FitsReply(version, With(base, k, Str(Join(parts[..n])))))
    && forall m :: n < m <= |parts| ==> !FitsReply(version, With(base, k, Str(Join(parts[..m]))))
  }

  lemma JoinStopsThere(version: bytes, base: map<bytes, Value>, k: bytes, parts: seq<bytes>, n: nat)
    requires |version| == 4 && k !in base && n < |parts|
             && !FitsReply(version, With(base, k, Str(Join(parts[..n + 1]))))
    ensures forall m :: n < m <= |parts| ==> !FitsReply(version, With(base, k, Str(Join(parts[..m]))))
  {
    forall m | n < m <= |parts|
      ensures !FitsReply(version, With(base, k, Str(Join(parts[..m]))))
    {
      JoinMonotone(parts, n + 1, m);
      StrMonotone(Join(parts[..n + 1]), Join(parts[..m]));
      if FitsReply(version, With(base, k, Str(Join(parts[..m])))) {
        FitsAntitone(version, base, k, Str(Join(parts[..n + 1])), Str(Join(parts[..m])));
      }
    }
  }

  /** The loop over the nearest contacts. */
  method PackNodes(version: bytes, base: map<bytes, Value>, k: bytes, parts: seq<bytes>)
      returns (nodes: bytes, ghost n: nat)
    requires |version| == 4 && k !in base
    ensures n <= |parts| && LongestJoin(version, base, k, n, parts) && nodes == Join(parts[..n])
    ensures nodes == [] || FitsReply(version, With(base, k, Str(nodes)))
  {
    hide FitsReply, With;
    nodes, n := [], 0;
    var i := 0;
    while i < |parts|
      invariant 0 <= i <= |parts| && n == i && nodes == Join(parts[..i])
      invariant i > 0 ==> FitsReply(version, With(base, k, Str(nodes)))
    {
      assert parts[..i + 1][..i] == parts[..i];
      var candidate := nodes + parts[i];
      var ok := Fits(version, With(base, k, Str(candidate)));
      if !ok {
        JoinStopsThere(version, base, k, parts, i);
        return;
      }
      nodes := candidate;
      n := n + 1;
      i := i + 1;
    }
  }

  // ---- The get_peers reply ----

  function PeersBase(id: bytes, token: bytes): map<bytes, Value> {
    map[Ascii("id") := Str(id), Ascii("token") := Str(token)]
  }

  lemma PeersBaseSize(id: bytes, token: bytes)
    requires |id| == 20 && |token| == 8
    ensures Size(Dict(PeersBase(id, token))) == 46
    ensures Ascii("values") !in PeersBase(id, token) && Ascii("nodes") !in PeersBase(id, token)
  {
    var i, t, n := Ascii("id"), Ascii("token"), Ascii("nodes");
    assert |i| == 2 && |t| == 5 && t[0] == 116 && n[0] == 110;
    var none: map<bytes, Value> := map[];
    EmptyDictSize();
    EntrySize(none, i, Str(id));
    EntrySize(none[i := Str(id)], t, Str(token));
    assert PeersBase(id, token) == none[i := Str(id)][t := Str(token)];
    StrSize(id);
    StrSize(token);
    StrSize(i);
    StrSize(t);
    assert NatStr(20) == NatStr(2) + [Digit(0)];
  }

  lemma PeersReplyFits(version: bytes, id: bytes, token: bytes)
    requires |version| == 4 && |id| == 20 && |token| == 8
    ensures FitsReply(version, With(PeersBase(id, token), Ascii("values"), List([])))
    ensures FitsReply(version, With(PeersBase(id, token), Ascii("nodes"), Str([])))
  {
    hide Size;
    var v, n := Ascii("values"), Ascii("nodes");
    PeersBaseSize(id, token);
    EntrySize(PeersBase(id, token), v, List([]));
    EntrySize(PeersBase(id, token), n, Str([]));
    EnvelopeSize(version, With(PeersBase(id, token), v, List([])));
    EnvelopeSize(version, With(PeersBase(id, token), n, Str([])));
    StrSize(v);
    StrSize(n);
    StrSize([]);
    EmptyListSize();
    assert Size(Str(v)) == |EncodeStr(v)| && Size(Str(n)) == |EncodeStr(n)| by { StrIsStr(v); StrIsStr(n); }
  }

  lemma StrIsStr(s: bytes)
    ensures Size(Str(s)) == |EncodeStr(s)|
  {
  }

  lemma EmptyListSize()
    ensures Size(List([])) == 2
  {
  }

  /** `_incoming_get_peers`: stored peers if there are any, else the nearest contacts; either way the longest
      prefix that fits, and a reply of at most 1024 bytes. */
  method GetPeersReply(version: bytes, id: bytes, token: bytes, peers: seq<(bytes, bool)>, contacts: seq<bytes>)
      returns (r: Value)
    requires |version| == 4 && |id| == 20 && |token| == 8
    ensures FitsReply(version, r)
    ensures peers != [] ==> exists values ::
              r == With(PeersBase(id, token), Ascii("values"), List(values))
              && LongestList(version, PeersBase(id, token), Ascii("values"), values, Allowed(peers))
    ensures peers == [] ==> exists n: nat ::
              LongestJoin(version, PeersBase(id, token), Ascii("nodes"), n, contacts)
              && r == With(PeersBase(id, token), Ascii("nodes"), Str(Join(contacts[..n])))
  {
    PeersBaseSize(id, token);
    PeersReplyFits(version, id, token);
    hide FitsReply;
    var base := PeersBase(id, token);
    if peers != [] {
      var values := PackValues(version, base, Ascii("values"), peers);
      r := With(base, Ascii("values"), List(values));
    } else {
      ghost var n;
      var nodes;
      nodes, n := PackNodes(version, base, Ascii("nodes"), contacts);
      r := With(base, Ascii("nodes"), Str(nodes));
    }
  }

  // ---- The sample_infohashes reply ----

  function SamplesBase(id: bytes, interval: nat, num: nat): map<bytes, Value> {
    map[Ascii("id") := Str(id), Ascii("interval") := Int(interval), Ascii("num") := Int(num)]
  }

  function SamplesReply(id: bytes, interval: nat, num: nat, samples: bytes, nodes: bytes): Value {
    Dict(SamplesBase(id, interval, num)[Ascii("samples") := Str(samples)][Ascii("nodes") := Str(nodes)])
  }

  /** The base without samples and nodes is small as long as the two numbers are not absurdly long. */
  ghost predicate ShortNumbers(interval: nat, num: nat) {
    |NatStr(interval)| + |NatStr(num)| <= 900
  }

  lemma SampleKeys()
    ensures var i, v, n, s, o := Ascii("id"), Ascii("interval"), Ascii("num"), Ascii("samples"), Ascii("nodes");
            i != v && i != n && i != s && i != o && v != n && v != s && v != o && n != s && n != o && s != o
  {
  }

  lemma SamplesSize(version: bytes, id: bytes, interval: nat, num: nat, samples: bytes, nodes: bytes)
    requires |version| == 4 && |id| == 20
    ensures Size(Envelope(version, SamplesReply(id, interval, num, samples, nodes)))
            == 91 + |NatStr(interval)| + |NatStr(num)| + Size(Str(samples)) + Size(Str(nodes))
  {
    hide Size;
    SampleKeys();
    var i, v, n, s, o := Ascii("id"), Ascii("interval"), Ascii("num"), Ascii("samples"), Ascii("nodes");
    var none: map<bytes, Value> := map[];
    var m := SamplesBase(id, interval, num);
    assert m == none[i := Str(id)][v := Int(interval)][n := Int(num)];
    EmptyDictSize();
    EntrySize(none, i, Str(id));
    EntrySize(none[i := Str(id)], v, Int(interval));
    EntrySize(none[i := Str(id)][v := Int(interval)], n, Int(num));
    EntrySize(m, s, Str(samples));
    EntrySize(m[s := Str(samples)], o, Str(nodes));
    EnvelopeSize(version, SamplesReply(id, interval, num, samples, nodes));
    KeySize(i, v, n, s, o);
    StrSize(id);
    assert NatStr(20) == NatStr(2) + [Digit(0)];
    IntSize(interval);
    IntSize(num);
  }

  lemma IntSize(i: nat)
    ensures Size(Int(i)) == 2 + |NatStr(i)|
  {
  }

  lemma KeySize(i: bytes, v: bytes, n: bytes, s: bytes, o: bytes)
    requires |i| == 2 && |v| == 8 && |n| == 3 && |s| == 7 && |o| == 5
    ensures |EncodeStr(i)| == 4 && |EncodeStr(v)| == 10 && |EncodeStr(n)| == 5 && |EncodeStr(s)| == 9
            && |EncodeStr(o)| == 7
  {
  }

  lemma NodesNotYet(id: bytes, interval: nat, num: nat, samples: Value)
    ensures Ascii("nodes") !in SamplesBase(id, interval, num)[Ascii("samples") := samples]
  {
    SampleKeys();
  }

  /** `_incoming_sample_infohashes` for a cached sample: nodes are added while they fit beside the whole sample, then
      the sample is trimmed. It stays the longest prefix that fits with the chosen nodes. */
  method SampleReply(version: bytes, id: bytes, interval: nat, num: nat, cached: seq<bytes>, contacts: seq<bytes>)
      returns (r: Value, ghost kept: nat, ghost n: nat)
    requires |version| == 4 && |id| == 20
    ensures kept <= |cached| && n <= |contacts|
    ensures r == SamplesReply(id, interval, num, Join(cached[..kept]), Join(contacts[..n]))
    ensures LongestJoin(version, SamplesBase(id, interval, num)[Ascii("samples") := Str(Join(cached))], Ascii("nodes"),
                        n, contacts)
    ensures forall m :: kept < m <= |cached| ==>
            !FitsReply(version, SamplesReply(id, interval, num, Join(cached[..m]), Join(contacts[..n])))
    ensures FitsReply(version, r) || kept == 0
    ensures ShortNumbers(interval, num) ==> FitsReply(version, r)
  {
    hide *;
    var base := SamplesBase(id, interval, num)[Ascii("samples") := Str(Join(cached))];
    NodesNotYet(id, interval, num, Str(Join(cached)));
    var nodes;
    nodes, n := PackNodes(version, base, Ascii("nodes"), contacts);
    var samples := cached;
    kept := |cached|;
    r := SamplesReply(id, interval, num, Join(samples), nodes);
    assert cached[..kept] == cached;
    var ok := Fits(version, r);
    while !ok && samples != []
      invariant kept <= |cached| && samples == cached[..kept]
      invariant r == SamplesReply(id, interval, num, Join(samples), nodes) && (ok <==> FitsReply(version, r))
      invariant forall m :: kept < m <= |cached| ==>
                !FitsReply(version, SamplesReply(id, interval, num, Join(cached[..m]), nodes))
      decreases |samples|
    {
      samples := samples[..|samples| - 1];
      kept := kept - 1;
      assert samples == cached[..kept];
      r := SamplesReply(id, interval, num, Join(samples), nodes);
      ok := Fits(version, r);
    }
    if ShortNumbers(interval, num) && !ok {
      TrimmedFits(version, id, interval, num, cached, contacts, n);
    }
  }

  /** With the sample trimmed away the reply fits: nodes were only added beside the whole sample. */
  lemma TrimmedFits(version: bytes, id: bytes, interval: nat, num: nat, cached: seq<bytes>, contacts: seq<bytes>,
                    n: nat)
    requires |version| == 4 && |id| == 20 && ShortNumbers(interval, num) && n <= |contacts|
    requires LongestJoin(version, SamplesBase(id, interval, num)[Ascii("samples") := Str(Join(cached))], Ascii("nodes"),
                         n, contacts)
    ensures FitsReply(version, SamplesReply(id, interval, num, Join(cached[..0]), Join(contacts[..n])))
  {
    hide Size;
    var nodes := Join(contacts[..n]);
    SamplesSize(version, id, interval, num, Join(cached), nodes);
    SamplesSize(version, id, interval, num, [], nodes);
    StrMonotone([], Join(cached));
    StrSize([]);
    if n == 0 {
      assert nodes == [];
    }
  }
}
