/** Theorems about the bencode printer and parser. */
module BencodeProofs {
  import opened Wrappers
  import opened Bytes
  import opened Decimal
  import opened Bencode
  import opened Sets

  // ---- Key order ----

  lemma {:induction false} LessTotal(a: bytes, b: bytes)
    ensures !(Less(a, b) && Less(b, a))
    ensures a != b ==> Less(a, b) || Less(b, a)
    ensures a == b ==> !Less(a, b)
  {
    if a != [] && b != [] && a[0] == b[0] {
      LessTotal(a[1..], b[1..]);
      assert a == [a[0]] + a[1..] && b == [b[0]] + b[1..];
    }
  }

  lemma {:induction false} LessTransitive(a: bytes, b: bytes, c: bytes)
    requires Less(a, b) && Less(b, c)
    ensures Less(a, c)
  {
    if a != [] && a[0] == b[0] && b[0] == c[0] {
      LessTransitive(a[1..], b[1..], c[1..]);
    }
  }

  lemma {:induction false} InsertAscending(k: bytes, ks: seq<bytes>)
    requires Ascending(ks) && k !in ks
    ensures Ascending(InsertKey(k, ks))
  {
    var r := InsertKey(k, ks);
    if ks == [] {
    } else if !Less(ks[0], k) {
      LessTotal(ks[0], k);
      forall j | 0 < j < |r| ensures Less(k, r[j]) {
        if j > 1 { LessTransitive(k, ks[0], r[j]); }
      }
    } else {
      assert forall x :: x in ks[1..] ==> x in ks;
      InsertAscending(k, ks[1..]);
      forall j | 0 < j < |r| ensures Less(ks[0], r[j]) {
        assert r[j] in InsertKey(k, ks[1..]);
      }
    }
  }

  lemma {:induction false} SortedAscending(s: set<bytes>)
    ensures Ascending(SortedKeys(s))
  {
    if s != {} {
      var k :| k in s && SortedKeys(s) == InsertKey(k, SortedKeys(s - {k}));
      SortedAscending(s - {k});
      InsertAscending(k, SortedKeys(s - {k}));
    }
  }

  /** There is only one ascending list of the elements of a set. */
  lemma {:induction false} AscendingUnique(a: seq<bytes>, b: seq<bytes>)
    requires Ascending(a) && Ascending(b) && forall x :: x in a <==> x in b
    ensures a == b
  {
    if a == [] {
      assert forall i :: 0 <= i < |b| ==> b[i] in b;
    } else {
      assert a[0] in a && a[0] in b;
      assert b[0] in b && b[0] in a;
      HeadLeast(a, b[0]);
      HeadLeast(b, a[0]);
      LessTotal(a[0], b[0]);
      assert a == [a[0]] + a[1..] && b == [b[0]] + b[1..];
      LessTotal(a[0], a[0]);
      assert a[0] !in a[1..] && b[0] !in b[1..];
      forall x ensures x in a[1..] <==> x in b[1..] {
        assert x in a <==> x == a[0] || x in a[1..];
        assert x in b <==> x == b[0] || x in b[1..];
      }
      AscendingUnique(a[1..], b[1..]);
    }
  }

  lemma HeadLeast(a: seq<bytes>, x: bytes)
    requires Ascending(a) && x in a
    ensures x == a[0] || Less(a[0], x)
  {
  }

  lemma SortedKeysUnique(ks: seq<bytes>, s: set<bytes>)
    requires Ascending(ks) && forall x :: x in ks <==> x in s
    ensures ks == SortedKeys(s)
  {
    SortedAscending(s);
    AscendingUnique(ks, SortedKeys(s));
  }

  // ---- Counting ----

  lemma {:induction false} ItemsUnderPick(v: Value, ks: set<bytes>, k: bytes)
    requires v.Dict? && ks <= v.entries.Keys && k in ks
    ensures ItemsUnder(v, ks) == 1 + Items(v.entries[k]) + ItemsUnder(v, ks - {k})
    decreases |ks|
  {
    var j :| j in ks && ItemsUnder(v, ks) == 1 + Items(v.entries[j]) + ItemsUnder(v, ks - {j});
    if j != k {
      ItemsUnderPick(v, ks - {j}, k);
      ItemsUnderPick(v, ks - {k}, j);
      assert ks - {j} - {k} == ks - {k} - {j};
    }
  }

  lemma ItemsPositive(v: Value)
    ensures Items(v) >= 1
  {
  }

  // ---- Atoms ----

  /** The bytes of `data` at `pos` are `part`. */
  ghost predicate At(data: bytes, pos: nat, part: bytes) {
    pos + |part| <= |data| && data[pos..pos + |part|] == part
  }

  lemma AtSplit(data: bytes, pos: nat, a: bytes, b: bytes)
    ensures At(data, pos, a + b) <==> At(data, pos, a) && At(data, pos + |a|, b)
  {
    if pos + |a| + |b| <= |data| {
      var whole := data[pos..pos + |a| + |b|];
      assert whole[..|a|] == data[pos..pos + |a|] && whole[|a|..] == data[pos + |a|..pos + |a| + |b|];
      assert (a + b)[..|a|] == a && (a + b)[|a|..] == b;
      assert whole == whole[..|a|] + whole[|a|..];
    }
  }

  lemma AtByte(data: bytes, pos: nat, b: byte, part: bytes)
    requires At(data, pos, part) && part != []
    ensures pos < |data| && data[pos] == part[0]
  {
    assert data[pos..pos + |part|][0] == data[pos];
  }

  lemma FindAt(data: bytes, from: nat, b: byte, part: bytes)
    requires At(data, from, part + [b]) && b !in part
    ensures Find(data, b, from) == from + |part|
  {
    AtSplit(data, from, part, [b]);
    var k := Find(data, b, from);
    assert data[from + |part|..from + |part| + 1][0] == data[from + |part|];
    forall j | from <= j < from + |part| ensures data[j] != b {
      assert data[from..from + |part|][j - from] == part[j - from];
    }
  }

  lemma NoMarkInDigits(s: bytes)
    requires AllDigits(s)
    ensures MARK_E !in s && COLON !in s && MINUS !in s
  {
  }

  lemma DigitsAccepted(ds: bytes)
    requires Canonical(ds)
    ensures IntError(ds).None? && IntOf(ds) == Some(NatVal(ds)) && MARK_E !in ds
  {
    hide NatVal;
    NoMarkInDigits(ds);
    assert IsDigit(ds[0]);
  }

  lemma NegativeAccepted(ds: bytes)
    requires Canonical(ds) && ds[0] != ZERO
    ensures IntError([MINUS] + ds).None? && IntOf([MINUS] + ds) == Some(-(NatVal(ds) as int)) && MARK_E !in [MINUS] + ds
  {
    hide NatVal;
    NoMarkInDigits(ds);
    var raw := [MINUS] + ds;
    assert raw[1..] == ds && raw[0] == MINUS && raw[1] == ds[0];
  }

  lemma IntStrAccepted(i: int)
    ensures IntError(IntStr(i)).None? && IntOf(IntStr(i)) == Some(i) && MARK_E !in IntStr(i)
  {
    hide NatStr, NatVal, IntError, IntOf, Canonical;
    var n: nat := if i < 0 then -i else i;
    NatValStr(n);
    NatStrCanonical(n);
    if i < 0 { NegativeAccepted(NatStr(n)); } else { DigitsAccepted(NatStr(n)); }
  }

  lemma IntOfCanonical(raw: bytes)
    requires IntError(raw).None?
    ensures IntOf(raw).Some? && IntStr(IntOf(raw).value) == raw
  {
    if raw[0] == MINUS {
      var ds := raw[1..];
      assert raw == [MINUS] + ds;
      NatStrVal(ds);
      NatValPositive(ds);
    } else {
      NatStrVal(raw);
    }
  }

  /** What lies between a position and the next terminator. */
  lemma DelimitedAt(data: bytes, pos: nat, part: bytes, b: byte)
    requires At(data, pos, part + [b]) && b !in part
    ensures Find(data, b, pos) == pos + |part| < |data|
    ensures data[pos..Find(data, b, pos)] == part
  {
    FindAt(data, pos, b, part);
    AtSplit(data, pos, part, [b]);
  }

  lemma ParseIntAt(inp: Input, pos: nat, i: int, items: int)
    requires At(inp.data, pos, Encode(Int(i)))
    ensures ParseInt(inp, pos, items) == Ok(Int(i), pos + |Encode(Int(i))|, items)
  {
    var raw := IntStr(i);
    assert Encode(Int(i)) == [MARK_I] + (raw + [MARK_E]) by { hide IntStr; }
    hide IntStr, IntError, IntOf, At, Encode;
    IntStrAccepted(i);
    AtSplit(inp.data, pos, [MARK_I], raw + [MARK_E]);
    DelimitedAt(inp.data, pos + 1, raw, MARK_E);
  }

  lemma NatStrAccepted(n: nat)
    ensures AllDigits(NatStr(n)) && !(|NatStr(n)| > 1 && NatStr(n)[0] == ZERO) && NatVal(NatStr(n)) == n
    ensures COLON !in NatStr(n)
  {
    NatValStr(n);
    NoMarkInDigits(NatStr(n));
  }

  lemma ParseStrAt(inp: Input, pos: nat, s: bytes)
    requires At(inp.data, pos, EncodeStr(s))
    ensures ParseStr(inp, pos)
            == if |s| <= inp.lim.maxString then StrOk(s, pos + |EncodeStr(s)|) else StrErr(StringTooLong)
    ensures EncodeStr(s) != [] && IsDigit(EncodeStr(s)[0])
  {
    var raw := NatStr(|s|);
    NatStrAccepted(|s|);
    AtSplit(inp.data, pos, raw + [COLON], s);
    DelimitedAt(inp.data, pos, raw, COLON);
    assert EncodeStr(s)[0] == raw[0];
  }

  lemma {:induction false} EncodeHead(v: Value)
    ensures |Encode(v)| > 0 && Encode(v)[0] != MARK_E
  {
    match v
    case Int(_) =>
    case Str(s) => NatStrCanonical(|s|);
    case List(_) =>
    case Dict(_) =>
  }

  // ---- Printing, then parsing ----

  /** What parsing at the start of an encoding gives: the value, exactly when it fits the limits. */
  ghost predicate ParsesTo(r: Parsed, fits: bool, v: Value, pos: nat, items: int) {
    if fits then r == Ok(v, pos, items) else r.Err?
  }

  lemma {:induction false} ParseEncoded(inp: Input, pos: nat, v: Value, depth: int, items: int)
    requires At(inp.data, pos, Encode(v))
    ensures ParsesTo(Parse(inp, pos, depth, items), Fits(v, inp.lim, depth, items), v, pos + |Encode(v)|,
                     items + Items(v))
    decreases v, 2
  {
    hide *;
    EncodeHead(v);
    AtByte(inp.data, pos, 0, Encode(v));
    if depth > inp.lim.maxDepth || items + 1 > inp.lim.maxItems {
      ParseRefused(inp, pos, v, depth, items);
    } else {
      match v
      case Int(i) => ParseEncodedInt(inp, pos, v, depth, items);
      case Str(s) => ParseEncodedStr(inp, pos, v, depth, items);
      case List(vs) =>
        ParseEncodedList(inp, pos, v, depth, items);
        ListRead(inp, pos, v, depth, items);
        ListFits(v, inp.lim, depth, items);
      case Dict(m) =>
        ParseEncodedDict(inp, pos, v, depth, items);
        DictRead(inp, pos, v, depth, items);
        DictFits(v, SortedKeys(v.entries.Keys), inp.lim, depth, items);
    }
  }

  lemma ParseRefused(inp: Input, pos: nat, v: Value, depth: int, items: int)
    requires pos < |inp.data| && (depth > inp.lim.maxDepth || items + 1 > inp.lim.maxItems)
    ensures ParsesTo(Parse(inp, pos, depth, items), Fits(v, inp.lim, depth, items), v, pos + |Encode(v)|,
                     items + Items(v))
  {
    hide Encode, StringsWithin, ParseInt, ParseStr, ParseItems, ParseEntries;
    ItemsPositive(v);
  }

  lemma ParseEncodedInt(inp: Input, pos: nat, v: Value, depth: int, items: int)
    requires v.Int? && At(inp.data, pos, Encode(v)) && depth <= inp.lim.maxDepth && items + 1 <= inp.lim.maxItems
    ensures ParsesTo(Parse(inp, pos, depth, items), Fits(v, inp.lim, depth, items), v, pos + |Encode(v)|,
                     items + Items(v))
  {
    ParseIntAt(inp, pos, v.i, items + 1);
    AtByte(inp.data, pos, MARK_I, Encode(v));
    hide ParseInt, IntStr, At;
    assert Encode(v)[0] == MARK_I;
  }

  lemma ParseEncodedStr(inp: Input, pos: nat, v: Value, depth: int, items: int)
    requires v.Str? && At(inp.data, pos, Encode(v)) && depth <= inp.lim.maxDepth && items + 1 <= inp.lim.maxItems
    ensures ParsesTo(Parse(inp, pos, depth, items), Fits(v, inp.lim, depth, items), v, pos + |Encode(v)|,
                     items + Items(v))
  {
    hide EncodeStr, ParseStr, At;
    assert Encode(v) == EncodeStr(v.s);
    ParseStrAt(inp, pos, v.s);
    AtByte(inp.data, pos, 0, EncodeStr(v.s));
  }

  lemma ListRead(inp: Input, pos: nat, v: Value, depth: int, items: int)
    requires v.List? && At(inp.data, pos, Encode(v)) && depth <= inp.lim.maxDepth && items + 1 <= inp.lim.maxItems
    ensures pos < |inp.data| && Parse(inp, pos, depth, items) == ParseItems(inp, pos + 1, depth, items + 1, [])
  {
    hide EncodeAll, ParseItems, At;
    assert Encode(v)[0] == MARK_L;
    AtByte(inp.data, pos, MARK_L, Encode(v));
  }

  lemma DictRead(inp: Input, pos: nat, v: Value, depth: int, items: int)
    requires v.Dict? && At(inp.data, pos, Encode(v)) && depth <= inp.lim.maxDepth && items + 1 <= inp.lim.maxItems
    ensures pos < |inp.data|
            && Parse(inp, pos, depth, items) == ParseEntries(inp, pos + 1, depth, items + 1, map[], None)
  {
    hide EncodeEntries, ParseEntries, At, SortedKeys;
    assert Encode(v)[0] == MARK_D;
    AtByte(inp.data, pos, MARK_D, Encode(v));
  }

  lemma ListFits(v: Value, lim: Limits, depth: int, items: int)
    requires v.List? && depth <= lim.maxDepth
    ensures Fits(v, lim, depth, items) <==> AllFit(v.items, lim, depth, items + 1)
  {
    hide ItemsAll;
  }

  lemma DictFits(v: Value, ks: seq<bytes>, lim: Limits, depth: int, items: int)
    requires v.Dict? && depth <= lim.maxDepth && KeySet(ks) == v.entries.Keys
    ensures forall k :: k in ks ==> k in v.entries
    ensures Fits(v, lim, depth, items) <==> EntriesFit(v, ks, lim, depth, items + 1)
  {
    hide ItemsUnder;
    assert forall k :: k in ks <==> k in KeySet(ks);
  }

  lemma {:induction false} ParseEncodedList(inp: Input, pos: nat, v: Value, depth: int, items: int)
    requires v.List? && At(inp.data, pos, Encode(v)) && items + 1 <= inp.lim.maxItems
    ensures pos + 1 <= |inp.data|
    ensures ParsesTo(ParseItems(inp, pos + 1, depth, items + 1, []), AllFit(v.items, inp.lim, depth, items + 1),
                     v, pos + |Encode(v)|, items + Items(v))
    decreases v, 1
  {
    var body := EncodeAll(v.items) + [MARK_E];
    assert Encode(v) == [MARK_L] + body;
    AtSplit(inp.data, pos, [MARK_L], body);
    ParseEncodedItems(inp, pos + 1, v.items, depth, items + 1, []);
    assert [] + v.items == v.items;
  }

  lemma {:induction false} ParseEncodedDict(inp: Input, pos: nat, v: Value, depth: int, items: int)
    requires v.Dict? && At(inp.data, pos, Encode(v)) && items + 1 <= inp.lim.maxItems
    ensures pos + 1 <= |inp.data|
    ensures ParsesTo(ParseEntries(inp, pos + 1, depth, items + 1, map[], None),
                     EntriesFit(v, SortedKeys(v.entries.Keys), inp.lim, depth, items + 1),
                     v, pos + |Encode(v)|, items + Items(v))
    ensures KeySet(SortedKeys(v.entries.Keys)) == v.entries.Keys
    decreases v, 1
  {
    hide *;
    var ks := SortedKeys(v.entries.Keys);
    SortedAscending(v.entries.Keys);
    AscendingDistinct(ks);
    EncodedDict(v);
    AtSplit(inp.data, pos, [MARK_D], EncodeEntries(v, ks) + [MARK_E]);
    AfterMark(inp.data, pos, EncodeEntries(v, ks) + [MARK_E]);
    ParseEncodedEntries(inp, pos + 1, v, ks, depth, items + 1, map[], None);
  }

  lemma EncodedDict(v: Value)
    requires v.Dict?
    ensures KeySet(SortedKeys(v.entries.Keys)) == v.entries.Keys
    ensures Encode(v) == [MARK_D] + (EncodeEntries(v, SortedKeys(v.entries.Keys)) + [MARK_E])
    ensures |Encode(v)| == 2 + |EncodeEntries(v, SortedKeys(v.entries.Keys))|
    ensures Items(v) == 1 + ItemsUnder(v, v.entries.Keys)
  {
  }

  lemma AfterMark(data: bytes, pos: nat, part: bytes)
    requires At(data, pos + 1, part)
    ensures pos + 1 <= |data|
  {
  }

  /** The part of `Fits` that the list loop still has to check. */
  ghost predicate AllFit(vs: seq<Value>, lim: Limits, depth: int, items: int) {
    && items + ItemsAll(vs) <= lim.maxItems
    && forall x :: x in vs ==> DepthWithin(x, lim.maxDepth - depth - 1) && StringsWithin(x, lim.maxString)
  }

  lemma {:induction false} ParseEncodedItems(inp: Input, pos: nat, vs: seq<Value>, depth: int, items: int,
                                             out: seq<Value>)
    requires At(inp.data, pos, EncodeAll(vs) + [MARK_E]) && items <= inp.lim.maxItems
    ensures ParsesTo(ParseItems(inp, pos, depth, items, out), AllFit(vs, inp.lim, depth, items),
                     List(out + vs), pos + |EncodeAll(vs)| + 1, items + ItemsAll(vs))
    decreases vs
  {
    hide *;
    if vs == [] {
      ItemsEnd(inp, pos, vs, depth, items, out);
    } else {
      var x, rest := vs[0], EncodeAll(vs[1..]) + [MARK_E];
      FirstItem(vs);
      EncodeHead(x);
      AtSplit(inp.data, pos, Encode(x), rest);
      AtByte(inp.data, pos, 0, Encode(x));
      ParseEncoded(inp, pos, x, depth + 1, items);
      AllFitStep(vs, inp.lim, depth, items);
      if Fits(x, inp.lim, depth + 1, items) {
        FitsCounts(x, inp.lim, depth + 1, items);
        ParsedOk(Parse(inp, pos, depth + 1, items), x, pos + |Encode(x)|, items + Items(x));
        ParseEncodedItems(inp, pos + |Encode(x)|, vs[1..], depth, items + Items(x), out + [x]);
        assert out + [x] + vs[1..] == out + vs;
      } else {
        ParsedErr(Parse(inp, pos, depth + 1, items), x, pos + |Encode(x)|, items + Items(x));
      }
      ItemRound(inp, pos, depth, items, out);
      if !Fits(x, inp.lim, depth + 1, items) {
        ParsesToErr(ParseItems(inp, pos, depth, items, out), AllFit(vs, inp.lim, depth, items),
                    List(out + vs), pos + |EncodeAll(vs)| + 1, items + ItemsAll(vs));
      }
    }
  }

  lemma ParsedOk(r: Parsed, v: Value, pos: nat, items: int)
    requires ParsesTo(r, true, v, pos, items)
    ensures r == Ok(v, pos, items)
  {
  }

  lemma ParsedErr(r: Parsed, v: Value, pos: nat, items: int)
    requires ParsesTo(r, false, v, pos, items)
    ensures r.Err?
  {
  }

  lemma ParsesToErr(r: Parsed, fits: bool, v: Value, pos: nat, items: int)
    requires r.Err? && !fits
    ensures ParsesTo(r, fits, v, pos, items)
  {
  }

  lemma FitsCounts(v: Value, lim: Limits, depth: int, items: int)
    requires Fits(v, lim, depth, items)
    ensures items + Items(v) <= lim.maxItems
  {
  }

  lemma FirstItem(vs: seq<Value>)
    requires vs != []
    ensures EncodeAll(vs) + [MARK_E] == Encode(vs[0]) + (EncodeAll(vs[1..]) + [MARK_E])
    ensures |EncodeAll(vs)| == |Encode(vs[0])| + |EncodeAll(vs[1..])|
            && ItemsAll(vs) == Items(vs[0]) + ItemsAll(vs[1..])
  {
    hide Encode, Items;
  }

  lemma ItemsEnd(inp: Input, pos: nat, vs: seq<Value>, depth: int, items: int, out: seq<Value>)
    requires vs == [] && At(inp.data, pos, EncodeAll(vs) + [MARK_E]) && items <= inp.lim.maxItems
    ensures ParsesTo(ParseItems(inp, pos, depth, items, out), AllFit(vs, inp.lim, depth, items),
                     List(out + vs), pos + |EncodeAll(vs)| + 1, items + ItemsAll(vs))
  {
    hide Parse, Encode;
    assert EncodeAll(vs) + [MARK_E] == [MARK_E];
    assert inp.data[pos] == inp.data[pos..pos + 1][0];
    assert out + vs == out;
  }

  lemma AllFitStep(vs: seq<Value>, lim: Limits, depth: int, items: int)
    requires vs != []
    ensures AllFit(vs, lim, depth, items)
       <==> Fits(vs[0], lim, depth + 1, items) && AllFit(vs[1..], lim, depth, items + Items(vs[0]))
  {
    FirstItem(vs);
    hide Items, ItemsAll, DepthWithin, StringsWithin, Encode;
    assert forall y :: y in vs <==> y == vs[0] || y in vs[1..];
  }

  /** One round of the list loop. */
  lemma ItemRound(inp: Input, pos: nat, depth: int, items: int, out: seq<Value>)
    requires pos < |inp.data| && inp.data[pos] != MARK_E
    ensures var r, c := ParseItems(inp, pos, depth, items, out), Parse(inp, pos, depth + 1, items);
            && (c.Err? ==> r.Err?)
            && (c.Ok? ==> r == ParseItems(inp, c.pos, depth, c.items, out + [c.value]))
  {
    hide Parse;
  }

  /** The part of `Fits` that the dictionary loop still has to check. */
  ghost predicate EntriesFit(v: Value, ks: seq<bytes>, lim: Limits, depth: int, items: int)
    requires v.Dict? && forall k :: k in ks ==> k in v.entries
  {
    && items + ItemsUnder(v, KeySet(ks)) <= lim.maxItems
    && forall k :: k in ks ==> |k| <= lim.maxString && DepthWithin(v.entries[k], lim.maxDepth - depth - 1)
                               && StringsWithin(v.entries[k], lim.maxString)
  }

  lemma EntriesFitStep(v: Value, ks: seq<bytes>, lim: Limits, depth: int, items: int)
    requires v.Dict? && Distinct(ks) && ks != [] && forall k :: k in ks ==> k in v.entries
    ensures KeySet(ks) == KeySet(ks[1..]) + {ks[0]} && ks[0] !in ks[1..]
    ensures var x := v.entries[ks[0]];
            && ItemsUnder(v, KeySet(ks)) == 1 + Items(x) + ItemsUnder(v, KeySet(ks[1..]))
            && (EntriesFit(v, ks, lim, depth, items) <==>
                  |ks[0]| <= lim.maxString && Fits(x, lim, depth + 1, items + 1)
                  && EntriesFit(v, ks[1..], lim, depth, items + 1 + Items(x)))
  {
    var k := ks[0];
    assert forall j :: j in ks <==> j == k || j in ks[1..];
    assert KeySet(ks) - {k} == KeySet(ks[1..]);
    ItemsUnderPick(v, KeySet(ks), k);
  }

  /** One round of the dictionary loop on a key that it accepts. */
  lemma EntryStep(inp: Input, pos: nat, depth: int, items: int, out: map<bytes, Value>, previous: Option<bytes>,
                  k: bytes, p: nat)
    requires pos < |inp.data| && inp.data[pos] != MARK_E && items + 1 <= inp.lim.maxItems
    requires ParseStr(inp, pos) == StrOk(k, p) && k !in out
    requires !(inp.strict && previous.Some? && Less(k, previous.value))
    ensures var r := ParseEntries(inp, pos, depth, items, out, previous);
            var c := Parse(inp, p, depth + 1, items + 1);
            && (c.Err? ==> r.Err?)
            && (c.Ok? ==> r == ParseEntries(inp, c.pos, depth, c.items, out[k := c.value], Some(k)))
  {
  }

  /** One round of the dictionary loop on a key that is too long or one too many. */
  lemma EntryRefused(inp: Input, pos: nat, depth: int, items: int, out: map<bytes, Value>, previous: Option<bytes>)
    requires pos < |inp.data| && inp.data[pos] != MARK_E
    requires items + 1 > inp.lim.maxItems || ParseStr(inp, pos).StrErr?
    ensures ParseEntries(inp, pos, depth, items, out, previous).Err?
  {
  }

  lemma EntriesAt(inp: Input, pos: nat, v: Value, ks: seq<bytes>)
    requires v.Dict? && ks != [] && forall k :: k in ks ==> k in v.entries
    requires At(inp.data, pos, EncodeEntries(v, ks) + [MARK_E])
    ensures var x := v.entries[ks[0]];
            var p := pos + |EncodeStr(ks[0])|;
            && pos < |inp.data| && IsDigit(inp.data[pos])
            && ParseStr(inp, pos) == (if |ks[0]| <= inp.lim.maxString then StrOk(ks[0], p) else StrErr(StringTooLong))
            && At(inp.data, p, Encode(x))
            && At(inp.data, p + |Encode(x)|, EncodeEntries(v, ks[1..]) + [MARK_E])
            && |EncodeEntries(v, ks)| == |EncodeStr(ks[0])| + |Encode(x)| + |EncodeEntries(v, ks[1..])|
  {
    hide Encode, ParseStr, EncodeStr;
    var k, x := ks[0], v.entries[ks[0]];
    var tail := EncodeEntries(v, ks[1..]) + [MARK_E];
    assert EncodeEntries(v, ks) + [MARK_E] == EncodeStr(k) + (Encode(x) + tail);
    AtSplit(inp.data, pos, EncodeStr(k), Encode(x) + tail);
    AtSplit(inp.data, pos + |EncodeStr(k)|, Encode(x), tail);
    ParseStrAt(inp, pos, k);
    AtByte(inp.data, pos, 0, EncodeStr(k));
  }

  lemma AscendingDistinct(ks: seq<bytes>)
    requires Ascending(ks)
    ensures Distinct(ks)
  {
    forall i, j | 0 <= i < j < |ks| ensures ks[i] != ks[j] { LessTotal(ks[i], ks[j]); }
  }

  /** The keys may come in any order, unless parsing is strict. */
  lemma {:induction false} ParseEncodedEntries(inp: Input, pos: nat, v: Value, ks: seq<bytes>, depth: int, items: int,
                                               out: map<bytes, Value>, previous: Option<bytes>)
    requires v.Dict? && Distinct(ks) && forall k :: k in ks ==> k in v.entries
    requires inp.strict ==> Ascending(ks)
    requires forall k :: k in out <==> k in v.entries && k !in ks
    requires forall k :: k in out ==> out[k] == v.entries[k]
    requires inp.strict && previous.Some? && ks != [] ==> !Less(ks[0], previous.value)
    requires At(inp.data, pos, EncodeEntries(v, ks) + [MARK_E]) && items <= inp.lim.maxItems
    ensures ParsesTo(ParseEntries(inp, pos, depth, items, out, previous), EntriesFit(v, ks, inp.lim, depth, items),
                     v, pos + |EncodeEntries(v, ks)| + 1, items + ItemsUnder(v, KeySet(ks)))
    decreases v, 0, |ks|
  {
    hide ParseEntries, Parse, ParseStr, Encode, EncodeEntries, EncodeStr, DepthWithin, StringsWithin, Items, ItemsUnder,
         EntriesFit, At;
    if ks == [] {
      EntriesEnd(inp, pos, v, ks, depth, items, out, previous);
    } else {
      var k, x := ks[0], v.entries[ks[0]];
      EntriesFitStep(v, ks, inp.lim, depth, items);
      EntriesAt(inp, pos, v, ks);
      var p := pos + |EncodeStr(k)|;
      var fit := EntriesFit(v, ks, inp.lim, depth, items);
      var end := pos + |EncodeEntries(v, ks)| + 1;
      var total := items + ItemsUnder(v, KeySet(ks));
      if |k| > inp.lim.maxString || items + 1 > inp.lim.maxItems {
        EntryRefused(inp, pos, depth, items, out, previous);
      } else {
        EntryStep(inp, pos, depth, items, out, previous, k, p);
        ParseEncoded(inp, p, x, depth + 1, items + 1);
        var c := Parse(inp, p, depth + 1, items + 1);
        if Fits(x, inp.lim, depth + 1, items + 1) {
          assert c == Ok(x, p + |Encode(x)|, items + 1 + Items(x));
          if inp.strict && |ks| > 1 { LessTotal(ks[1], k); }
          var p', n := p + |Encode(x)|, items + 1 + Items(x);
          ParseEncodedEntries(inp, p', v, ks[1..], depth, n, out[k := x], Some(k));
          assert ParsesTo(ParseEntries(inp, p', depth, n, out[k := x], Some(k)), fit, v, end, total);
        } else {
          assert !fit && c.Err?;
        }
      }
      assert ParsesTo(ParseEntries(inp, pos, depth, items, out, previous), fit, v, end, total);
    }
  }

  lemma EntriesEnd(inp: Input, pos: nat, v: Value, ks: seq<bytes>, depth: int, items: int,
                   out: map<bytes, Value>, previous: Option<bytes>)
    requires v.Dict? && items <= inp.lim.maxItems && ks == []
    requires forall k :: k in out <==> k in v.entries
    requires forall k :: k in out ==> out[k] == v.entries[k]
    requires At(inp.data, pos, EncodeEntries(v, ks) + [MARK_E])
    ensures ParsesTo(ParseEntries(inp, pos, depth, items, out, previous), EntriesFit(v, ks, inp.lim, depth, items),
                     v, pos + |EncodeEntries(v, ks)| + 1, items + ItemsUnder(v, KeySet(ks)))
  {
    assert out == v.entries;
    assert EncodeEntries(v, ks) + [MARK_E] == [MARK_E];
    AtByte(inp.data, pos, MARK_E, [MARK_E]);
    assert KeySet(ks) == {};
  }
}
