/** What the parser accepts: canonical bytes only in strict mode, and always within its limits. */
module BencodeCanonical {
  import opened Wrappers
  import opened Bytes
  import opened Decimal
  import opened Bencode
  import opened BencodeProofs
  import opened Sets

  // ---- Strict parsing accepts only what the printer writes ----

  lemma ByteAt(data: bytes, pos: nat)
    requires pos < |data|
    ensures At(data, pos, [data[pos]])
  {
  }

  lemma AtConcat(data: bytes, pos: nat, a: bytes, b: bytes)
    requires At(data, pos, a) && At(data, pos + |a|, b)
    ensures At(data, pos, a + b)
  {
    AtSplit(data, pos, a, b);
  }

  lemma CanonicalInt(inp: Input, pos: nat, items: int)
    requires pos < |inp.data| && inp.data[pos] == MARK_I && ParseInt(inp, pos, items).Ok?
    ensures var r := ParseInt(inp, pos, items); At(inp.data, pos, Encode(r.value)) && r.pos == pos + |Encode(r.value)|
  {
    hide IntError, IntOf, IntStr;
    var end := Find(inp.data, MARK_E, pos + 1);
    var raw := inp.data[pos + 1..end];
    IntOfCanonical(raw);
    var v := ParseInt(inp, pos, items).value;
    assert v == Int(IntOf(raw).value);
    assert Encode(v) == [MARK_I] + IntStr(v.i) + [MARK_E];
    assert inp.data[pos..end + 1] == [MARK_I] + raw + [MARK_E];
  }

  lemma CanonicalStr(inp: Input, pos: nat)
    requires pos <= |inp.data| && ParseStr(inp, pos).StrOk?
    ensures var r := ParseStr(inp, pos);
            At(inp.data, pos, EncodeStr(r.s)) && r.pos == pos + |EncodeStr(r.s)| && |r.s| <= inp.lim.maxString
  {
    hide NatStr, NatVal;
    var colon := Find(inp.data, COLON, pos);
    var raw := inp.data[pos..colon];
    NatStrVal(raw);
    var r := ParseStr(inp, pos);
    assert EncodeStr(r.s) == raw + [COLON] + r.s;
    assert inp.data[pos..r.pos] == raw + [COLON] + r.s;
  }

  lemma {:induction false} CanonicalValue(inp: Input, pos: nat, depth: int, items: int)
    requires inp.strict && pos <= |inp.data| && Parse(inp, pos, depth, items).Ok?
    ensures var r := Parse(inp, pos, depth, items);
            At(inp.data, pos, Encode(r.value)) && r.pos == pos + |Encode(r.value)|
    decreases |inp.data| - pos, 1
  {
    hide ParseStr, ParseInt, ParseItems, ParseEntries, EncodeStr, EncodeAll, EncodeEntries, At;
    var r := Parse(inp, pos, depth, items);
    var marker := inp.data[pos];
    ByteAt(inp.data, pos);
    if marker == MARK_I {
      CanonicalInt(inp, pos, items + 1);
    } else if marker == MARK_L {
      CanonicalItems(inp, pos + 1, depth, items + 1, []);
      assert r.value.items[0..] == r.value.items;
      AtConcat(inp.data, pos, [MARK_L], EncodeAll(r.value.items) + [MARK_E]);
      assert Encode(r.value) == [MARK_L] + (EncodeAll(r.value.items) + [MARK_E]);
    } else if marker == MARK_D {
      var ks := CanonicalEntries(inp, pos + 1, depth, items + 1, map[], None);
      SortedKeysUnique(ks, r.value.entries.Keys);
      AtConcat(inp.data, pos, [MARK_D], EncodeEntries(r.value, ks) + [MARK_E]);
      assert Encode(r.value) == [MARK_D] + (EncodeEntries(r.value, ks) + [MARK_E]);
    } else {
      CanonicalStr(inp, pos);
    }
  }

  lemma {:induction false} CanonicalItems(inp: Input, pos: nat, depth: int, items: int, out: seq<Value>)
    requires inp.strict && pos <= |inp.data| && ParseItems(inp, pos, depth, items, out).Ok?
    ensures var r := ParseItems(inp, pos, depth, items, out);
            && r.value.List? && out <= r.value.items
            && At(inp.data, pos, EncodeAll(r.value.items[|out|..]) + [MARK_E])
            && r.pos == pos + |EncodeAll(r.value.items[|out|..])| + 1
    decreases |inp.data| - pos, 2
  {
    hide Parse, Encode;
    var r := ParseItems(inp, pos, depth, items, out);
    if inp.data[pos] == MARK_E {
      ByteAt(inp.data, pos);
      assert r.value.items[|out|..] == [];
      assert EncodeAll([]) + [MARK_E] == [MARK_E];
    } else {
      var c := Parse(inp, pos, depth + 1, items);
      CanonicalValue(inp, pos, depth + 1, items);
      CanonicalItems(inp, c.pos, depth, c.items, out + [c.value]);
      var vs := r.value.items[|out|..];
      assert vs == [c.value] + r.value.items[|out| + 1..];
      var tail := EncodeAll(vs[1..]) + [MARK_E];
      AtConcat(inp.data, pos, Encode(c.value), tail);
      assert EncodeAll(vs) + [MARK_E] == Encode(c.value) + tail;
    }
  }

  /** Every key so far is at most the previous one. */
  ghost predicate UpTo(out: map<bytes, Value>, previous: Option<bytes>) {
    if previous.None? then out == map[]
    else previous.value in out && forall k :: k in out ==> k == previous.value || Less(k, previous.value)
  }

  lemma {:induction false} CanonicalEntries(inp: Input, pos: nat, depth: int, items: int,
                                            out: map<bytes, Value>, previous: Option<bytes>) returns (ks: seq<bytes>)
    requires inp.strict && pos <= |inp.data| && ParseEntries(inp, pos, depth, items, out, previous).Ok?
    requires UpTo(out, previous)
    ensures var r := ParseEntries(inp, pos, depth, items, out, previous);
            && r.value.Dict?
            && Ascending(ks) && (previous.Some? ==> forall k :: k in ks ==> Less(previous.value, k))
            && (forall k :: k in r.value.entries <==> k in out || k in ks)
            && (forall k :: k in out ==> r.value.entries[k] == out[k])
            && At(inp.data, pos, EncodeEntries(r.value, ks) + [MARK_E])
            && r.pos == pos + |EncodeEntries(r.value, ks)| + 1
    decreases |inp.data| - pos, 2
  {
    hide ParseEntries, Parse, Encode, EncodeStr, ParseStr, EncodeEntries, At;
    var r := ParseEntries(inp, pos, depth, items, out, previous);
    EntriesRound(inp, pos, depth, items, out, previous);
    if inp.data[pos] == MARK_E {
      ks := [];
      EntriesNone(inp.data, pos, r.value);
    } else {
      var s := ParseStr(inp, pos);
      CanonicalStr(inp, pos);
      var k := s.s;
      if previous.Some? { LessTotal(k, previous.value); }
      var c := Parse(inp, s.pos, depth + 1, items + 1);
      CanonicalValue(inp, s.pos, depth + 1, items + 1);
      UpToExtends(out, previous, k, c.value);
      var ks' := CanonicalEntries(inp, c.pos, depth, c.items, out[k := c.value], Some(k));
      ks := [k] + ks';
      if previous.Some? { LessThrough(previous.value, k, ks'); }
      assert r.value.entries[k] == c.value;
      assert ks[1..] == ks';
      EntriesConcat(inp.data, pos, r.value, ks);
    }
  }

  /** One round of the dictionary loop that succeeds. */
  lemma EntriesRound(inp: Input, pos: nat, depth: int, items: int, out: map<bytes, Value>, previous: Option<bytes>)
    requires pos <= |inp.data| && ParseEntries(inp, pos, depth, items, out, previous).Ok?
    ensures var r := ParseEntries(inp, pos, depth, items, out, previous);
            && pos < |inp.data|
            && if inp.data[pos] == MARK_E then r == Ok(Dict(out), pos + 1, items)
               else
                 var s := ParseStr(inp, pos);
                 && items + 1 <= inp.lim.maxItems
                 && s.StrOk? && s.s !in out
                 && (inp.strict && previous.Some? ==> !Less(s.s, previous.value))
                 && var c := Parse(inp, s.pos, depth + 1, items + 1);
                    c.Ok? && r == ParseEntries(inp, c.pos, depth, c.items, out[s.s := c.value], Some(s.s))
  {
    hide Parse, ParseStr;
  }

  lemma EntriesNone(data: bytes, pos: nat, v: Value)
    requires v.Dict? && pos < |data| && data[pos] == MARK_E
    ensures At(data, pos, EncodeEntries(v, []) + [MARK_E]) && |EncodeEntries(v, [])| == 0
  {
    assert EncodeEntries(v, []) + [MARK_E] == [MARK_E];
  }

  lemma EntriesConcat(data: bytes, pos: nat, v: Value, ks: seq<bytes>)
    requires v.Dict? && ks != [] && forall k :: k in ks ==> k in v.entries
    requires At(data, pos, EncodeStr(ks[0]))
    requires At(data, pos + |EncodeStr(ks[0])|, Encode(v.entries[ks[0]]))
    requires At(data, pos + |EncodeStr(ks[0])| + |Encode(v.entries[ks[0]])|, EncodeEntries(v, ks[1..]) + [MARK_E])
    ensures At(data, pos, EncodeEntries(v, ks) + [MARK_E])
    ensures |EncodeEntries(v, ks)| == |EncodeStr(ks[0])| + |Encode(v.entries[ks[0]])| + |EncodeEntries(v, ks[1..])|
  {
    hide Encode, EncodeStr, At;
    var k, x, tail := EncodeStr(ks[0]), Encode(v.entries[ks[0]]), EncodeEntries(v, ks[1..]) + [MARK_E];
    AtConcat(data, pos + |k|, x, tail);
    AtConcat(data, pos, k, x + tail);
    assert EncodeEntries(v, ks) + [MARK_E] == k + (x + tail);
  }

  lemma UpToExtends(out: map<bytes, Value>, previous: Option<bytes>, k: bytes, x: Value)
    requires UpTo(out, previous) && (previous.Some? ==> Less(previous.value, k))
    ensures UpTo(out[k := x], Some(k))
  {
    forall j | j in out
      ensures j == k || Less(j, k)
    {
      if j != previous.value { LessTransitive(j, previous.value, k); }
    }
  }

  lemma LessThrough(a: bytes, b: bytes, ks: seq<bytes>)
    requires Less(a, b) && forall k :: k in ks ==> Less(b, k)
    ensures forall k :: k in ks ==> Less(a, k)
  {
    forall k | k in ks ensures Less(a, k) { LessTransitive(a, b, k); }
  }

  // ---- Parsed values are within the limits, and the counter counts them ----

  lemma {:induction false} CountedValue(inp: Input, pos: nat, depth: int, items: int)
    requires pos <= |inp.data| && Parse(inp, pos, depth, items).Ok?
    ensures var r := Parse(inp, pos, depth, items);
            Fits(r.value, inp.lim, depth, items) && r.items == items + Items(r.value)
    decreases |inp.data| - pos, 1
  {
    hide ParseStr, ParseItems, ParseEntries, DepthWithin, StringsWithin, Items, ItemsUnder, ItemsAll;
    var r := Parse(inp, pos, depth, items);
    var marker := inp.data[pos];
    if marker == MARK_I {
      FitsAtom(r.value, inp.lim, depth, items);
    } else if marker == MARK_L {
      CountedItems(inp, pos + 1, depth, items + 1, []);
      assert r.value.items[0..] == r.value.items;
      FitsList(r.value, inp.lim, depth, items);
    } else if marker == MARK_D {
      CountedEntries(inp, pos + 1, depth, items + 1, map[], None);
      var none: map<bytes, Value> := map[];
      assert r.value.entries.Keys - none.Keys == r.value.entries.Keys;
      FitsDict(r.value, inp.lim, depth, items);
    } else {
      CanonicalStr(inp, pos);
      FitsAtom(r.value, inp.lim, depth, items);
    }
  }

  lemma FitsAtom(v: Value, lim: Limits, depth: int, items: int)
    requires v.Int? || (v.Str? && |v.s| <= lim.maxString)
    requires depth <= lim.maxDepth && items + 1 <= lim.maxItems
    ensures Items(v) == 1 && Fits(v, lim, depth, items)
  {
  }

  lemma FitsList(v: Value, lim: Limits, depth: int, items: int)
    requires v.List? && depth <= lim.maxDepth && AllFit(v.items, lim, depth, items + 1)
    ensures Items(v) == 1 + ItemsAll(v.items) && Fits(v, lim, depth, items)
  {
  }

  lemma FitsDict(v: Value, lim: Limits, depth: int, items: int)
    requires v.Dict? && depth <= lim.maxDepth && UnderFits(v, v.entries.Keys, lim, depth)
    requires items + 1 + ItemsUnder(v, v.entries.Keys) <= lim.maxItems
    ensures Items(v) == 1 + ItemsUnder(v, v.entries.Keys) && Fits(v, lim, depth, items)
  {
  }

  lemma {:induction false} CountedItems(inp: Input, pos: nat, depth: int, items: int, out: seq<Value>)
    requires pos <= |inp.data| && items <= inp.lim.maxItems && ParseItems(inp, pos, depth, items, out).Ok?
    ensures var r := ParseItems(inp, pos, depth, items, out);
            && r.value.List? && out <= r.value.items
            && AllFit(r.value.items[|out|..], inp.lim, depth, items)
            && r.items == items + ItemsAll(r.value.items[|out|..])
    decreases |inp.data| - pos, 2
  {
    hide Parse, DepthWithin, StringsWithin, Items;
    var r := ParseItems(inp, pos, depth, items, out);
    if inp.data[pos] == MARK_E {
      assert r.value.items[|out|..] == [];
    } else {
      var c := Parse(inp, pos, depth + 1, items);
      CountedValue(inp, pos, depth + 1, items);
      CountedItems(inp, c.pos, depth, c.items, out + [c.value]);
      var vs := r.value.items[|out|..];
      assert vs == [c.value] + r.value.items[|out| + 1..];
      assert vs[1..] == r.value.items[|out| + 1..];
      assert forall x :: x in vs <==> x == c.value || x in vs[1..];
    }
  }

  /** The entries under `ks` are within the limits. */
  ghost predicate UnderFits(v: Value, ks: set<bytes>, lim: Limits, depth: int)
    requires v.Dict? && ks <= v.entries.Keys
  {
    forall k :: k in ks ==> |k| <= lim.maxString && DepthWithin(v.entries[k], lim.maxDepth - depth - 1)
                            && StringsWithin(v.entries[k], lim.maxString)
  }

  lemma {:induction false} CountedEntries(inp: Input, pos: nat, depth: int, items: int,
                                          out: map<bytes, Value>, previous: Option<bytes>)
    requires pos <= |inp.data| && items <= inp.lim.maxItems && ParseEntries(inp, pos, depth, items, out, previous).Ok?
    ensures var r := ParseEntries(inp, pos, depth, items, out, previous);
            && r.value.Dict? && out.Keys <= r.value.entries.Keys
            && (forall k :: k in out ==> r.value.entries[k] == out[k])
            && UnderFits(r.value, r.value.entries.Keys - out.Keys, inp.lim, depth)
            && r.items == items + ItemsUnder(r.value, r.value.entries.Keys - out.Keys)
            && r.items <= inp.lim.maxItems
    decreases |inp.data| - pos, 2
  {
    hide ParseEntries, Parse, DepthWithin, StringsWithin, Items, ParseStr, ItemsUnder;
    var r := ParseEntries(inp, pos, depth, items, out, previous);
    EntriesRound(inp, pos, depth, items, out, previous);
    if inp.data[pos] == MARK_E {
      assert r.value.entries.Keys - out.Keys == {};
      NoItems(r.value);
    } else {
      var s := ParseStr(inp, pos);
      CanonicalStr(inp, pos);
      var k := s.s;
      var c := Parse(inp, s.pos, depth + 1, items + 1);
      CountedValue(inp, s.pos, depth + 1, items + 1);
      var out' := out[k := c.value];
      CountedEntries(inp, c.pos, depth, c.items, out', Some(k));
      var new' := r.value.entries.Keys - out'.Keys;
      assert r.value.entries[k] == c.value;
      assert r.value.entries.Keys - out.Keys == new' + {k};
      assert new' + {k} - {k} == new';
      ItemsUnderPick(r.value, new' + {k}, k);
    }
  }

  lemma NoItems(v: Value)
    requires v.Dict?
    ensures ItemsUnder(v, {}) == 0
  {
  }

  // ---- Tolerant parsing extends strict parsing ----

  lemma {:induction false} TolerantAgrees(inp: Input, pos: nat, depth: int, items: int)
    requires inp.strict && pos <= |inp.data| && Parse(inp, pos, depth, items).Ok?
    ensures Parse(inp.(strict := false), pos, depth, items) == Parse(inp, pos, depth, items)
    decreases |inp.data| - pos, 1
  {
    var marker := inp.data[pos];
    if marker == MARK_L {
      TolerantItems(inp, pos + 1, depth, items + 1, []);
    } else if marker == MARK_D {
      TolerantEntries(inp, pos + 1, depth, items + 1, map[], None);
    }
  }

  lemma {:induction false} TolerantItems(inp: Input, pos: nat, depth: int, items: int, out: seq<Value>)
    requires inp.strict && pos <= |inp.data| && ParseItems(inp, pos, depth, items, out).Ok?
    ensures ParseItems(inp.(strict := false), pos, depth, items, out) == ParseItems(inp, pos, depth, items, out)
    decreases |inp.data| - pos, 2
  {
    hide Parse;
    if inp.data[pos] != MARK_E {
      var c := Parse(inp, pos, depth + 1, items);
      TolerantAgrees(inp, pos, depth + 1, items);
      TolerantItems(inp, c.pos, depth, c.items, out + [c.value]);
    }
  }

  lemma {:induction false} TolerantEntries(inp: Input, pos: nat, depth: int, items: int,
                                           out: map<bytes, Value>, previous: Option<bytes>)
    requires inp.strict && pos <= |inp.data| && ParseEntries(inp, pos, depth, items, out, previous).Ok?
    ensures ParseEntries(inp.(strict := false), pos, depth, items, out, previous)
            == ParseEntries(inp, pos, depth, items, out, previous)
    decreases |inp.data| - pos, 2
  {
    hide ParseEntries, Parse, ParseStr;
    EntriesRound(inp, pos, depth, items, out, previous);
    if inp.data[pos] == MARK_E {
      TolerantEnd(inp, pos, depth, items, out, previous);
    } else {
      var s := ParseStr(inp, pos);
      var c := Parse(inp, s.pos, depth + 1, items + 1);
      TolerantAgrees(inp, s.pos, depth + 1, items + 1);
      TolerantRound(inp, pos, depth, items, out, previous);
      TolerantEntries(inp, c.pos, depth, c.items, out[s.s := c.value], Some(s.s));
    }
  }

  lemma TolerantEnd(inp: Input, pos: nat, depth: int, items: int, out: map<bytes, Value>, previous: Option<bytes>)
    requires pos < |inp.data| && inp.data[pos] == MARK_E
    ensures ParseEntries(inp.(strict := false), pos, depth, items, out, previous) == Ok(Dict(out), pos + 1, items)
  {
  }

  lemma TolerantRound(inp: Input, pos: nat, depth: int, items: int, out: map<bytes, Value>, previous: Option<bytes>)
    requires pos < |inp.data| && inp.data[pos] != MARK_E && items + 1 <= inp.lim.maxItems
    requires ParseStr(inp, pos).StrOk? && ParseStr(inp, pos).s !in out
    requires Parse(inp.(strict := false), ParseStr(inp, pos).pos, depth + 1, items + 1).Ok?
    ensures var inp' := inp.(strict := false);
            var s := ParseStr(inp, pos);
            var c := Parse(inp', s.pos, depth + 1, items + 1);
            ParseEntries(inp', pos, depth, items, out, previous)
            == ParseEntries(inp', c.pos, depth, c.items, out[s.s := c.value], Some(s.s))
  {
    hide Parse;
    assert ParseStr(inp.(strict := false), pos) == ParseStr(inp, pos);
  }

  // ---- The theorems ----

  /** Tolerant decoding takes the entries of a dictionary in any order: whatever list of its keys they are written
      in, the result is the dictionary, if and only if it is within the limits. */
  lemma TolerantAnyOrder(v: Value, ks: seq<bytes>, lim: Limits)
    requires v.Dict? && Distinct(ks) && KeySet(ks) == v.entries.Keys
    requires forall k :: k in ks ==> k in v.entries
    ensures var r := Decode([MARK_D] + (EncodeEntries(v, ks) + [MARK_E]), lim, false);
            && (r.Ok? <==> Fits(v, lim, 0, 0))
            && (r.Ok? ==> r.value == v)
  {
    hide *;
    var data := [MARK_D] + (EncodeEntries(v, ks) + [MARK_E]);
    var inp := Input(data, lim, false);
    DecodeOfDict(data, lim);
    ItemsPositive(v);
    if 0 <= lim.maxDepth && 1 <= lim.maxItems {
      DictFits(v, ks, lim, 0, 0);
      AtTail(data, [MARK_D], EncodeEntries(v, ks) + [MARK_E]);
      NothingMissing(v, ks);
      ParseEncodedEntries(inp, 1, v, ks, 0, 1, map[], None);
      ParsedWhole(inp, v, ks);
    } else {
      TooBig(v, lim);
    }
  }

  lemma NothingMissing(v: Value, ks: seq<bytes>)
    requires v.Dict? && KeySet(ks) == v.entries.Keys
    ensures forall k :: !(k in v.entries && k !in ks)
  {
    assert forall k :: k in v.entries ==> k in KeySet(ks);
  }

  lemma AtTail(data: bytes, a: bytes, b: bytes)
    requires data == a + b
    ensures At(data, |a|, b)
  {
  }

  lemma DecodeOfDict(data: bytes, lim: Limits)
    requires data != [] && data[0] == MARK_D
    ensures Decode(data, lim, false) ==
            if 0 > lim.maxDepth then Err(TooDeep)
            else if 1 > lim.maxItems then Err(TooManyItems)
            else
              var r := ParseEntries(Input(data, lim, false), 1, 0, 1, map[], None);
              if r.Ok? && r.pos != |data| then Err(TrailingData) else r
  {
    hide ParseEntries;
  }

  lemma ParsedWhole(inp: Input, v: Value, ks: seq<bytes>)
    requires v.Dict? && forall k :: k in ks ==> k in v.entries
    requires inp.data == [MARK_D] + (EncodeEntries(v, ks) + [MARK_E])
    requires ParsesTo(ParseEntries(inp, 1, 0, 1, map[], None), EntriesFit(v, ks, inp.lim, 0, 1),
                      v, 1 + |EncodeEntries(v, ks)| + 1, 1 + ItemsUnder(v, KeySet(ks)))
    ensures var r := ParseEntries(inp, 1, 0, 1, map[], None);
            (r.Ok? <==> EntriesFit(v, ks, inp.lim, 0, 1)) && (r.Ok? ==> r.value == v && r.pos == |inp.data|)
  {
    hide ParseEntries, EntriesFit, EncodeEntries, ItemsUnder;
  }

  lemma TooBig(v: Value, lim: Limits)
    requires v.Dict? && (0 > lim.maxDepth || 1 > lim.maxItems)
    ensures !Fits(v, lim, 0, 0)
  {
    hide StringsWithin;
    ItemsPositive(v);
  }

  /** Decoding a prefix that is an encoding gives the encoded value and its exact length, whatever follows it,
      if and only if nesting depth, item count and longest string are within the limits. */
  lemma DecodePrefixOfEncoding(v: Value, suffix: bytes, lim: Limits, strict: bool)
    ensures var r := DecodePrefix(Encode(v) + suffix, lim, strict);
            if Fits(v, lim, 0, 0) then r == Ok(v, |Encode(v)|, Items(v)) else r.Err?
  {
    hide *;
    var inp := Input(Encode(v) + suffix, lim, strict);
    AtStart(Encode(v), suffix);
    ParseEncoded(inp, 0, v, 0, 0);
    DecodePrefixIs(Encode(v) + suffix, lim, strict);
    ParsesToIs(Parse(inp, 0, 0, 0), Fits(v, lim, 0, 0), v, |Encode(v)|, Items(v));
  }

  lemma AtStart(a: bytes, b: bytes)
    ensures At(a + b, 0, a)
  {
    assert (a + b)[..|a|] == a;
  }

  lemma DecodePrefixIs(data: bytes, lim: Limits, strict: bool)
    ensures DecodePrefix(data, lim, strict) == Parse(Input(data, lim, strict), 0, 0, 0)
  {
    hide Parse;
  }

  lemma ParsesToIs(r: Parsed, fits: bool, v: Value, pos: nat, items: int)
    requires ParsesTo(r, fits, v, pos, items)
    ensures if fits then r == Ok(v, pos, items) else r.Err?
  {
  }

  /** The round trip, with its exact condition. */
  lemma RoundTrip(v: Value, lim: Limits, strict: bool)
    ensures var r := Decode(Encode(v), lim, strict);
            && (r.Ok? <==> Fits(v, lim, 0, 0))
            && (r.Ok? ==> r.value == v)
  {
    DecodePrefixOfEncoding(v, [], lim, strict);
    assert Encode(v) + [] == Encode(v);
  }

  /** Strict decoding accepts exactly the canonical encodings of the values within the limits. */
  lemma StrictIsCanonical(data: bytes, v: Value, lim: Limits)
    ensures (Decode(data, lim, true).Ok? && Decode(data, lim, true).value == v) <==>
            (data == Encode(v) && Fits(v, lim, 0, 0))
  {
    RoundTrip(v, lim, true);
    var r := DecodePrefix(data, lim, true);
    if r.Ok? && r.pos == |data| {
      CanonicalValue(Input(data, lim, true), 0, 0, 0);
      CountedValue(Input(data, lim, true), 0, 0, 0);
      assert data[0..|data|] == data;
    }
  }

  /** Two byte strings that strictly decode to one value are the same, under any limits. */
  lemma StrictIsInjective(a: bytes, b: bytes, lim: Limits, lim': Limits)
    requires Decode(a, lim, true).Ok? && Decode(b, lim', true).Ok?
    requires Decode(a, lim, true).value == Decode(b, lim', true).value
    ensures a == b
  {
    StrictIsCanonical(a, Decode(a, lim, true).value, lim);
    StrictIsCanonical(b, Decode(b, lim', true).value, lim');
  }

  /** Tolerant decoding agrees with strict decoding wherever that succeeds; what it accepts beyond that
      re-encodes to bytes that decode strictly, under the same limits, to the same value. */
  lemma TolerantRefinesStrict(data: bytes, lim: Limits)
    ensures Decode(data, lim, true).Ok? ==> Decode(data, lim, false) == Decode(data, lim, true)
    ensures Decode(data, lim, false).Ok? ==>
              var v := Decode(data, lim, false).value;
              Decode(Encode(v), lim, true).Ok? && Decode(Encode(v), lim, true).value == v
  {
    if Decode(data, lim, true).Ok? {
      TolerantAgrees(Input(data, lim, true), 0, 0, 0);
    }
    if Decode(data, lim, false).Ok? {
      CountedValue(Input(data, lim, false), 0, 0, 0);
      RoundTrip(Decode(data, lim, false).value, lim, true);
    }
  }
}
