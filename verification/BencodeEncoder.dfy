/** The encoder: everything a Python caller may pass, and the sorted dictionary loop. */
module BencodeEncoder {
  import opened Bytes
  import opened Wrappers
  import opened Decimal
  import opened Bencode
  import BP = BencodeProofs

  /** A dictionary key; a string is the bytes of its UTF-8 form. */
  datatype PyKey = KeyBytes(s: bytes) | KeyStr(utf8: bytes) | KeyOther(id: nat)

  /** What `encode` distinguishes by type; `PyOther` stands for a value of any further type. */
  datatype PyValue =
    | PyBool(b: bool)
    | PyInt(i: int)
    | PyBytes(s: bytes)
    | PyByteArray(s: bytes)
    | PyStr(utf8: bytes)
    | PyList(items: seq<PyValue>)
    | PyTuple(items: seq<PyValue>)
    | PyDict(entries: map<PyKey, PyValue>)
    | PyOther

  datatype Encoded = EncodedAs(out: bytes) | DuplicateKeys | BadType

  /** The bytes under which a key is written. */
  function Name(k: PyKey): bytes {
    match k
    case KeyBytes(s) => s
    case KeyStr(s) => s
    case KeyOther(_) => []
  }

  /** No value or key of an unsupported type anywhere. */
  ghost predicate Typed(v: PyValue)
    decreases v
  {
    match v
    case PyList(items) => forall x :: x in items ==> Typed(x)
    case PyTuple(items) => forall x :: x in items ==> Typed(x)
    case PyDict(entries) => forall k :: k in entries ==> !k.KeyOther? && Typed(entries[k])
    case PyOther => false
    case _ => true
  }

  /** No dictionary anywhere has a string key and a bytes key that are written alike. */
  ghost predicate Unambiguous(v: PyValue)
    decreases v
  {
    match v
    case PyList(items) => forall x :: x in items ==> Unambiguous(x)
    case PyTuple(items) => forall x :: x in items ==> Unambiguous(x)
    case PyDict(entries) =>
      && (forall k :: k in entries ==> Unambiguous(entries[k]))
      && DistinctNames(entries.Keys)
    case _ => true
  }

  ghost predicate DistinctNames(ks: set<PyKey>) {
    forall k, l :: k in ks && l in ks && k != l && !k.KeyOther? && !l.KeyOther? ==> Name(k) != Name(l)
  }

  ghost predicate Plain(v: PyValue) {
    Typed(v) && Unambiguous(v)
  }

  /** The key that is written as n: where names are distinct there is only one. */
  function KeyNamed(entries: map<PyKey, PyValue>, n: bytes): PyKey {
    if KeyBytes(n) in entries then KeyBytes(n) else KeyStr(n)
  }

  lemma NameFindsKey(v: PyValue, k: PyKey)
    requires v.PyDict? && Plain(v) && k in v.entries
    ensures KeyNamed(v.entries, Name(k)) == k
  {
    assert KeyBytes(Name(k)) in v.entries && KeyBytes(Name(k)) != k ==> Name(KeyBytes(Name(k))) != Name(k);
  }

  /** The value that is encoded. */
  ghost function Normal(v: PyValue): Value
    requires Plain(v)
    decreases v
  {
    match v
    case PyBool(b) => Int(if b then 1 else 0)
    case PyInt(i) => Int(i)
    case PyBytes(s) => Str(s)
    case PyByteArray(s) => Str(s)
    case PyStr(s) => Str(s)
    case PyList(items) => List(seq(|items|, i requires 0 <= i < |items| => Normal(items[i])))
    case PyTuple(items) => List(seq(|items|, i requires 0 <= i < |items| => Normal(items[i])))
    case PyDict(entries) =>
      var names := set k | k in entries :: Name(k);
      Dict(map n | n in names :: Normal(entries[KeyNamed(entries, n)]))
  }

  lemma NormalEntries(v: PyValue)
    requires v.PyDict? && Plain(v)
    ensures Normal(v).Dict?
    ensures forall k :: k in v.entries ==> Plain(v.entries[k]) && Name(k) in Normal(v).entries
                                           && Normal(v).entries[Name(k)] == Normal(v.entries[k])
    ensures forall n :: n in Normal(v).entries ==> exists k :: k in v.entries && Name(k) == n
  {
    hide Encode;
    forall k | k in v.entries
      ensures Plain(v.entries[k]) && Name(k) in Normal(v).entries && Normal(v).entries[Name(k)] == Normal(v.entries[k])
    {
      NameFindsKey(v, k);
    }
  }

  /** A decoded value, as the Python value it is. */
  function Lift(v: Value): PyValue
    decreases v
  {
    match v
    case Int(i) => PyInt(i)
    case Str(s) => PyBytes(s)
    case List(items) => PyList(seq(|items|, i requires 0 <= i < |items| => Lift(items[i])))
    case Dict(entries) =>
      var keys := set k | k in entries :: KeyBytes(k);
      PyDict(map k | k in keys :: Lift(entries[k.s]))
  }

  /** Decoded values are plain, and stand for themselves. */
  lemma {:induction false} LiftIsPlain(v: Value)
    ensures Plain(Lift(v)) && Normal(Lift(v)) == v
    decreases v
  {
    match v
    case Int(_) =>
    case Str(_) =>
    case List(items) =>
      forall i | 0 <= i < |items| ensures Plain(Lift(items[i])) && Normal(Lift(items[i])) == items[i] {
        LiftIsPlain(items[i]);
      }
    case Dict(entries) =>
      forall k | k in entries ensures Plain(Lift(entries[k])) && Normal(Lift(entries[k])) == entries[k] {
        LiftIsPlain(entries[k]);
      }
      LiftIsPlainDict(entries);
  }

  lemma LiftedKeys(entries: map<bytes, Value>)
    ensures Lift(Dict(entries)).PyDict?
    ensures var lifted := Lift(Dict(entries)).entries;
            && (forall k :: k in lifted ==> k.KeyBytes? && k.s in entries && lifted[k] == Lift(entries[k.s]))
            && (forall k :: k in entries ==> KeyBytes(k) in lifted)
  {
  }

  lemma LiftIsPlainDict(entries: map<bytes, Value>)
    requires forall k :: k in entries ==> Plain(Lift(entries[k])) && Normal(Lift(entries[k])) == entries[k]
    ensures Plain(Lift(Dict(entries))) && Normal(Lift(Dict(entries))) == Dict(entries)
  {
    hide *;
    LiftedKeys(entries);
    var v := Lift(Dict(entries));
    BytesKeysPlain(v);
    NormalEntries(v);
    var back := Normal(v).entries;
    forall k | k in entries ensures k in back && back[k] == entries[k] {
      NameOfBytes(k);
      assert KeyBytes(k) in v.entries;
    }
    forall n | n in back ensures n in entries {
      var k :| k in v.entries && Name(k) == n;
      NameOfBytes(k.s);
    }
    SameMap(back, entries);
  }

  lemma SameMap(a: map<bytes, Value>, b: map<bytes, Value>)
    requires (forall k :: k in a ==> k in b) && forall k :: k in b ==> k in a && a[k] == b[k]
    ensures a == b
  {
  }

  lemma NameOfBytes(s: bytes)
    ensures Name(KeyBytes(s)) == s
  {
  }

  lemma BytesKeysPlain(v: PyValue)
    requires v.PyDict? && forall k :: k in v.entries ==> k.KeyBytes? && Plain(v.entries[k])
    ensures Plain(v)
  {
  }

  // ---- The loops ----

  ghost predicate Sorted(ks: seq<PyKey>) {
    forall i, j :: 0 <= i < j < |ks| ==> !Less(Name(ks[j]), Name(ks[i]))
  }

  function InsertByName(k: PyKey, ks: seq<PyKey>): (r: seq<PyKey>)
    ensures multiset(r) == multiset(ks) + multiset{k}
  {
    if ks == [] || !Less(Name(ks[0]), Name(k)) then [k] + ks
    else
      assert ks == [ks[0]] + ks[1..];
      [ks[0]] + InsertByName(k, ks[1..])
  }

  lemma {:induction false} InsertMember(k: PyKey, ks: seq<PyKey>, x: PyKey)
    ensures x in InsertByName(k, ks) <==> x == k || x in ks
    decreases |ks|
  {
    assert x in InsertByName(k, ks) <==> x in multiset(ks) + multiset{k};
  }

  lemma {:induction false} InsertSorted(k: PyKey, ks: seq<PyKey>)
    requires Sorted(ks)
    ensures Sorted(InsertByName(k, ks))
    decreases |ks|
  {
    hide Less, Name;
    if ks != [] && Less(Name(ks[0]), Name(k)) {
      InsertSorted(k, ks[1..]);
      var r := InsertByName(k, ks[1..]);
      forall j | 0 <= j < |r| ensures !Less(Name(r[j]), Name(ks[0])) {
        assert r[j] in r;
        InsertMember(k, ks[1..], r[j]);
        BP.LessTotal(Name(ks[0]), Name(k));
      }
    } else {
      forall j | 0 <= j < |ks| ensures !Less(Name(ks[j]), Name(k)) {
        NotBelow(k, ks, j);
      }
    }
  }

  lemma NotBelow(k: PyKey, ks: seq<PyKey>, j: nat)
    requires Sorted(ks) && j < |ks| && !Less(Name(ks[0]), Name(k))
    ensures !Less(Name(ks[j]), Name(k))
  {
    hide Less, Name;
    var a, b, c := Name(ks[j]), Name(ks[0]), Name(k);
    if j > 0 && Less(a, c) {
      BP.LessTotal(b, c);
      BP.LessTotal(a, b);
      if b != c && a != b {
        BP.LessTransitive(c, b, a);
        BP.LessTotal(a, c);
      }
    }
  }

  /** The keys in the order of their names, or the discovery that one is neither a string nor bytes. */
  method SortKeys(keys: set<PyKey>) returns (ok: bool, ks: seq<PyKey>)
    ensures ok <==> forall k :: k in keys ==> !k.KeyOther?
    ensures ok ==> Sorted(ks) && multiset(ks) == multiset(keys)
  {
    var left := keys;
    ks := [];
    ok := true;
    while left != {}
      invariant left <= keys && forall k :: k in keys - left ==> !k.KeyOther?
      invariant Sorted(ks) && multiset(ks) == multiset(keys - left)
      invariant ok
      decreases left
    {
      var k :| k in left;
      if k.KeyOther? { return false, ks; }
      InsertSorted(k, ks);
      assert multiset(keys - (left - {k})) == multiset(keys - left) + multiset{k} by {
        assert keys - (left - {k}) == (keys - left) + {k};
      }
      ks := InsertByName(k, ks);
      left := left - {k};
    }
    assert keys - left == keys;
  }

  function Names(ks: seq<PyKey>): (r: seq<bytes>)
    ensures |r| == |ks| && forall i :: 0 <= i < |ks| ==> r[i] == Name(ks[i])
  {
    seq(|ks|, i requires 0 <= i < |ks| => Name(ks[i]))
  }

  method EncodeValue(v: PyValue) returns (r: Encoded)
    ensures r.EncodedAs? <==> Plain(v)
    ensures r.EncodedAs? ==> r.out == Encode(Normal(v))
    ensures r.BadType? ==> !Typed(v)
    ensures r.DuplicateKeys? ==> !Unambiguous(v)
    decreases v, 1
  {
    match v
    case PyBool(b) => r := EncodedAs([MARK_I] + IntStr(if b then 1 else 0) + [MARK_E]);
    case PyInt(i) => r := EncodedAs([MARK_I] + IntStr(i) + [MARK_E]);
    case PyBytes(s) => r := EncodedAs(NatStr(|s|) + [COLON] + s);
    case PyByteArray(s) => r := EncodedAs(NatStr(|s|) + [COLON] + s);
    case PyStr(s) => r := EncodedAs(NatStr(|s|) + [COLON] + s);
    case PyList(items) => r := EncodeItems(v, items);
    case PyTuple(items) => r := EncodeItems(v, items);
    case PyDict(_) => r := EncodeDict(v);
    case PyOther => r := BadType;
  }

  /** The items of a list or a tuple. */
  method EncodeItems(ghost v: PyValue, items: seq<PyValue>) returns (r: Encoded)
    requires (v.PyList? || v.PyTuple?) && v.items == items
    ensures r.EncodedAs? <==> Plain(v)
    ensures r.EncodedAs? ==> r.out == Encode(Normal(v))
    ensures r.BadType? ==> !Typed(v)
    ensures r.DuplicateKeys? ==> !Unambiguous(v)
    decreases v, 0
  {
    hide *;
    var out := [MARK_L];
    ghost var done: seq<Value> := [];
    NoItems();
    for i := 0 to |items|
      invariant |done| == i && forall j :: 0 <= j < i ==> Plain(items[j]) && done[j] == Normal(items[j])
      invariant out == [MARK_L] + EncodeAll(done)
    {
      assert items[i] in items;
      var x := EncodeValue(items[i]);
      if !x.EncodedAs? {
        ItemFails(v, items[i]);
        return x;
      }
      out := out + x.out;
      AllAppend(done, Normal(items[i]));
      done := done + [Normal(items[i])];
    }
    ItemsDone(v, done);
    r := EncodedAs(out + [MARK_E]);
  }

  lemma NoItems()
    ensures EncodeAll([]) == []
  {
  }

  lemma ItemFails(v: PyValue, x: PyValue)
    requires (v.PyList? || v.PyTuple?) && x in v.items
    ensures !Typed(x) ==> !Typed(v)
    ensures !Unambiguous(x) ==> !Unambiguous(v)
    ensures !Plain(x) ==> !Plain(v)
  {
  }

  lemma ItemsDone(v: PyValue, done: seq<Value>)
    requires (v.PyList? || v.PyTuple?) && |done| == |v.items|
    requires forall j :: 0 <= j < |done| ==> Plain(v.items[j]) && done[j] == Normal(v.items[j])
    ensures Plain(v) && Encode(Normal(v)) == [MARK_L] + EncodeAll(done) + [MARK_E]
  {
    hide EncodeAll;
    assert forall x :: x in v.items ==> Plain(x);
    assert Normal(v) == List(done);
  }

  lemma {:induction false} AllAppend(vs: seq<Value>, x: Value)
    ensures EncodeAll(vs + [x]) == EncodeAll(vs) + Encode(x)
    decreases |vs|
  {
    hide Encode;
    if vs == [] {
      assert vs + [x] == [x] && [x][1..] == [];
    } else {
      assert (vs + [x])[0] == vs[0] && (vs + [x])[1..] == vs[1..] + [x];
      AllAppend(vs[1..], x);
    }
  }

  lemma KeysListed(keys: set<PyKey>, ks: seq<PyKey>)
    requires multiset(ks) == multiset(keys)
    ensures forall k :: k in ks <==> k in keys
    ensures forall i, j :: 0 <= i < j < |ks| ==> ks[i] != ks[j]
  {
    forall k ensures k in ks <==> k in keys {
      assert k in ks <==> k in multiset(ks);
    }
    forall i, j | 0 <= i < j < |ks| ensures ks[i] != ks[j] {
      assert ks == ks[..i] + [ks[i]] + ks[i + 1..j] + [ks[j]] + ks[j + 1..];
      assert multiset(ks)[ks[i]] >= if ks[i] == ks[j] then 2 else 1;
    }
  }

  /** The first i keys are written, each under its own name, with the values of `done`. */
  ghost predicate Written(v: PyValue, ks: seq<PyKey>, i: nat, done: map<bytes, Value>) {
    && v.PyDict? && i <= |ks|
    && Ascending(Names(ks[..i]))
    && (forall n :: n in Names(ks[..i]) <==> n in done)
    && (forall j :: 0 <= j < i ==> ks[j] in v.entries && Plain(v.entries[ks[j]]))
    && (forall j :: 0 <= j < i ==> Name(ks[j]) in done && done[Name(ks[j])] == Normal(v.entries[ks[j]]))
  }

  lemma {:induction false} EntriesSame(v: Value, w: Value, ns: seq<bytes>)
    requires v.Dict? && w.Dict?
    requires forall n :: n in ns ==> n in v.entries && n in w.entries && v.entries[n] == w.entries[n]
    ensures EncodeEntries(v, ns) == EncodeEntries(w, ns)
    decreases |ns|
  {
    if ns != [] { EntriesSame(v, w, ns[1..]); }
  }

  lemma {:induction false} EntriesAppend(v: Value, ns: seq<bytes>, n: bytes)
    requires v.Dict? && n in v.entries && forall x :: x in ns ==> x in v.entries
    ensures EncodeEntries(v, ns + [n]) == EncodeEntries(v, ns) + EncodeStr(n) + Encode(v.entries[n])
    decreases |ns|
  {
    hide Encode, EncodeStr;
    if ns == [] {
      assert ns + [n] == [n] && [n][1..] == [];
      assert EncodeEntries(v, []) == [];
    } else {
      assert (ns + [n])[0] == ns[0] && (ns + [n])[1..] == ns[1..] + [n];
      EntriesAppend(v, ns[1..], n);
    }
  }

  /** A name that differs from the one before it is new. */
  lemma NextName(ks: seq<PyKey>, i: nat)
    requires Sorted(ks) && i < |ks| && Ascending(Names(ks[..i])) && (i > 0 ==> Name(ks[i - 1]) != Name(ks[i]))
    ensures Names(ks[..i + 1]) == Names(ks[..i]) + [Name(ks[i])]
    ensures Name(ks[i]) !in Names(ks[..i]) && Ascending(Names(ks[..i + 1]))
  {
    hide Less, Name;
    var ns, n := Names(ks[..i]), Name(ks[i]);
    forall j | 0 <= j < i ensures Less(ns[j], n) {
      var m := ns[i - 1];
      BP.LessTotal(m, n);
      if j < i - 1 { BP.LessTransitive(ns[j], m, n); }
    }
    forall j | 0 <= j < i ensures ns[j] != n { BP.LessTotal(ns[j], n); }
  }

  lemma WriteEntry(v: PyValue, ks: seq<PyKey>, i: nat, done: map<bytes, Value>, out: bytes)
    requires Sorted(ks) && Written(v, ks, i, done) && i < |ks| && ks[i] in v.entries && Plain(v.entries[ks[i]])
    requires (i > 0 ==> Name(ks[i - 1]) != Name(ks[i])) && EntriesOut(out, ks, i, done)
    ensures var n, x := Name(ks[i]), Normal(v.entries[ks[i]]);
            && Written(v, ks, i + 1, done[n := x])
            && EntriesOut(out + (EncodeStr(n) + Encode(x)), ks, i + 1, done[n := x])
  {
    assert Ascending(Names(ks[..i])) by { hide Plain, Normal, Less, Ascending, Sorted; }
    hide *;
    NextName(ks, i);
    WrittenNext(v, ks, i, done);
    EntriesNext(ks, i, done, out, Normal(v.entries[ks[i]]));
  }

  lemma WrittenNext(v: PyValue, ks: seq<PyKey>, i: nat, done: map<bytes, Value>)
    requires Written(v, ks, i, done) && i < |ks| && ks[i] in v.entries && Plain(v.entries[ks[i]])
    requires Names(ks[..i + 1]) == Names(ks[..i]) + [Name(ks[i])]
    requires Name(ks[i]) !in Names(ks[..i]) && Ascending(Names(ks[..i + 1]))
    ensures Written(v, ks, i + 1, done[Name(ks[i]) := Normal(v.entries[ks[i]])])
  {
    hide Plain, Normal, Less, Ascending, Name;
    var n, ns := Name(ks[i]), Names(ks[..i]);
    forall j | 0 <= j < i ensures Name(ks[j]) != n { assert ns[j] == Name(ks[j]); }
  }

  lemma EntriesNext(ks: seq<PyKey>, i: nat, done: map<bytes, Value>, out: bytes, x: Value)
    requires i < |ks| && EntriesOut(out, ks, i, done)
    requires Names(ks[..i + 1]) == Names(ks[..i]) + [Name(ks[i])] && Name(ks[i]) !in Names(ks[..i])
    ensures EntriesOut(out + (EncodeStr(Name(ks[i])) + Encode(x)), ks, i + 1, done[Name(ks[i]) := x])
  {
    hide Encode, EncodeStr, EncodeEntries, Name;
    var n, ns := Name(ks[i]), Names(ks[..i]);
    var done' := done[n := x];
    EntriesSame(Dict(done), Dict(done'), ns);
    EntriesAppend(Dict(done'), ns, n);
    var before, key, value := EncodeEntries(Dict(done), ns), EncodeStr(n), Encode(x);
    assert [MARK_D] + before + (key + value) == [MARK_D] + (before + key + value);
  }

  lemma SameNeighbours(v: PyValue, ks: seq<PyKey>, i: nat)
    requires v.PyDict? && 0 < i < |ks| && (forall k :: k in ks ==> k in v.entries && !k.KeyOther?)
    requires Name(ks[i - 1]) == Name(ks[i]) && ks[i - 1] != ks[i]
    ensures !Unambiguous(v) && !Plain(v)
  {
    assert ks[i - 1] in ks && ks[i] in ks;
  }

  lemma OtherKey(v: PyValue, k: PyKey)
    requires v.PyDict? && k in v.entries && k.KeyOther?
    ensures !Typed(v) && !Plain(v)
  {
  }

  lemma AllWritten(v: PyValue, ks: seq<PyKey>, done: map<bytes, Value>, out: bytes)
    requires v.PyDict? && Written(v, ks, |ks|, done) && (forall k :: k in ks <==> k in v.entries)
    requires forall k :: k in v.entries ==> !k.KeyOther?
    requires EntriesOut(out, ks, |ks|, done)
    ensures Plain(v) && out + [MARK_E] == Encode(Normal(v))
  {
    AllPlain(v, ks, done);
    NormalIs(v, ks, done);
    hide Plain, Normal, Encode, EncodeEntries, Less, Ascending, Name;
    assert ks[..|ks|] == ks;
    BP.SortedKeysUnique(Names(ks), done.Keys);
    EncodeOfDict(done, Names(ks));
  }

  lemma EncodeOfDict(m: map<bytes, Value>, ns: seq<bytes>)
    requires ns == SortedKeys(m.Keys)
    ensures Encode(Dict(m)) == [MARK_D] + EncodeEntries(Dict(m), ns) + [MARK_E]
  {
  }

  lemma AllPlain(v: PyValue, ks: seq<PyKey>, done: map<bytes, Value>)
    requires v.PyDict? && Written(v, ks, |ks|, done) && (forall k :: k in ks <==> k in v.entries)
    requires forall k :: k in v.entries ==> !k.KeyOther?
    ensures Plain(v)
  {
    assert Ascending(Names(ks[..|ks|])) by { hide Plain, Normal, Less, Ascending; }
    hide *;
    forall k | k in v.entries ensures Plain(v.entries[k]) {
      WrittenKey(v, ks, done, k);
    }
    forall k, l | k in v.entries && l in v.entries && k != l ensures Name(k) != Name(l) {
      NamesDiffer(ks, k, l);
    }
    PlainDict(v);
  }

  lemma NamesDiffer(ks: seq<PyKey>, k: PyKey, l: PyKey)
    requires Ascending(Names(ks[..|ks|])) && k in ks && l in ks && k != l
    ensures Name(k) != Name(l)
  {
    hide Less, Name;
    var ns := Names(ks[..|ks|]);
    var i :| 0 <= i < |ks| && ks[i] == k;
    var j :| 0 <= j < |ks| && ks[j] == l;
    assert ns[i] == Name(k) && ns[j] == Name(l);
    BP.LessTotal(ns[i], ns[j]);
  }

  lemma PlainDict(v: PyValue)
    requires v.PyDict? && forall k :: k in v.entries ==> !k.KeyOther? && Plain(v.entries[k])
    requires forall k, l :: k in v.entries && l in v.entries && k != l ==> Name(k) != Name(l)
    ensures Plain(v)
  {
  }

  lemma WrittenKey(v: PyValue, ks: seq<PyKey>, done: map<bytes, Value>, k: PyKey)
    requires v.PyDict? && Written(v, ks, |ks|, done) && k in ks
    ensures k in v.entries && Plain(v.entries[k]) && Name(k) in done && done[Name(k)] == Normal(v.entries[k])
  {
    hide Plain, Normal, Name, Ascending;
    var j :| 0 <= j < |ks| && ks[j] == k;
  }

  lemma WrittenName(v: PyValue, ks: seq<PyKey>, done: map<bytes, Value>, n: bytes) returns (k: PyKey)
    requires v.PyDict? && Written(v, ks, |ks|, done) && n in done
    ensures k in ks && Name(k) == n
  {
    hide Plain, Normal, Name, Ascending;
    var ns := Names(ks[..|ks|]);
    var j :| 0 <= j < |ns| && ns[j] == n;
    k := ks[j];
  }

  lemma NormalIs(v: PyValue, ks: seq<PyKey>, done: map<bytes, Value>)
    requires v.PyDict? && Plain(v) && Written(v, ks, |ks|, done) && (forall k :: k in ks <==> k in v.entries)
    ensures Normal(v) == Dict(done)
  {
    hide *;
    NormalEntries(v);
    var m := Normal(v).entries;
    forall n | n in m ensures n in done && m[n] == done[n] {
      var k :| k in v.entries && Name(k) == n;
      WrittenKey(v, ks, done, k);
    }
    forall n | n in done ensures n in m {
      var k := WrittenName(v, ks, done, n);
    }
    SameMap(m, done);
  }

  /** What has been put out for the first i keys. */
  ghost predicate EntriesOut(out: bytes, ks: seq<PyKey>, i: nat, done: map<bytes, Value>) {
    && i <= |ks| && (forall n :: n in Names(ks[..i]) ==> n in done)
    && out == [MARK_D] + EncodeEntries(Dict(done), Names(ks[..i]))
  }

  lemma NothingWritten(v: PyValue, ks: seq<PyKey>)
    requires v.PyDict?
    ensures Written(v, ks, 0, map[]) && EntriesOut([MARK_D], ks, 0, map[])
  {
  }

  lemma PartFails(v: PyValue, k: PyKey)
    requires v.PyDict? && k in v.entries
    ensures !Typed(v.entries[k]) ==> !Typed(v)
    ensures !Unambiguous(v.entries[k]) ==> !Unambiguous(v)
    ensures !Plain(v.entries[k]) ==> !Plain(v)
  {
  }

  /** The dictionary loop. Its check for equal neighbours finds every two keys that are written alike. */
  method EncodeDict(v: PyValue) returns (r: Encoded)
    requires v.PyDict?
    ensures r.EncodedAs? <==> Plain(v)
    ensures r.EncodedAs? ==> r.out == Encode(Normal(v))
    ensures r.BadType? ==> !Typed(v)
    ensures r.DuplicateKeys? ==> !Unambiguous(v)
    decreases v, 0
  {
    hide *;
    var ok, ks := SortKeys(v.entries.Keys);
    if !ok {
      ghost var k :| k in v.entries && k.KeyOther?;
      OtherKey(v, k);
      return BadType;
    }
    var out := [MARK_D];
    var previous: Option<bytes> := None;
    ghost var done: map<bytes, Value> := map[];
    KeysListed(v.entries.Keys, ks);
    NothingWritten(v, ks);
    for i := 0 to |ks|
      invariant previous == if i == 0 then None else Some(Name(ks[i - 1]))
      invariant Written(v, ks, i, done)
      invariant EntriesOut(out, ks, i, done)
    {
      var k := ks[i];
      assert k in ks && k in v.entries;
      if previous == Some(Name(k)) {
        SameNeighbours(v, ks, i);
        return DuplicateKeys;
      }
      previous := Some(Name(k));
      var x := EncodeValue(v.entries[k]);
      if !x.EncodedAs? {
        PartFails(v, k);
        return x;
      }
      WriteEntry(v, ks, i, done, out);
      out := out + (EncodeStr(Name(k)) + x.out);
      done := done[Name(k) := Normal(v.entries[k])];
    }
    AllWritten(v, ks, done, out);
    r := EncodedAs(out + [MARK_E]);
  }
}
