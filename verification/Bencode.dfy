/** The bencode printer and the bounded recursive parser, as functions. `BencodeCodec.dfy` has the
    imperative decoder and `BencodeEncoder.dfy` the encoder that compute them, `BencodeProofs.dfy` the theorems. */
module Bencode {
  import opened Wrappers
  import opened Bytes
  import opened Decimal

  /** A Python value that bencode can carry. A dictionary is a map: its insertion order is not observable
      through `==`. */
  datatype Value =
    | Int(i: int)
    | Str(s: bytes)
    | List(items: seq<Value>)
    | Dict(entries: map<bytes, Value>)

  const MARK_I: byte := 105
  const MARK_L: byte := 108
  const MARK_D: byte := 100
  const MARK_E: byte := 101
  const COLON: byte := 58

  // ---- Key order ----

  /** Python's `<` on byte strings. */
  predicate Less(a: bytes, b: bytes) {
    if b == [] then false
    else if a == [] then true
    else a[0] < b[0] || (a[0] == b[0] && Less(a[1..], b[1..]))
  }

  ghost predicate Ascending(ks: seq<bytes>) {
    forall i, j :: 0 <= i < j < |ks| ==> Less(ks[i], ks[j])
  }

  /** Insertion keeps an ascending list ascending. */
  function InsertKey(k: bytes, ks: seq<bytes>): (r: seq<bytes>)
    ensures forall x :: x in r <==> x == k || x in ks
  {
    if ks == [] || !Less(ks[0], k) then [k] + ks else [ks[0]] + InsertKey(k, ks[1..])
  }

  /** The keys of a dictionary in ascending order; `SortedKeysUnique` shows that there is only one such list. */
  ghost function SortedKeys(s: set<bytes>): (r: seq<bytes>)
    ensures forall x :: x in r <==> x in s
  {
    if s == {} then [] else var k :| k in s; InsertKey(k, SortedKeys(s - {k}))
  }

  ghost function KeySet(ks: seq<bytes>): set<bytes> {
    set k | k in ks
  }

  // ---- The printer ----

  ghost function Encode(v: Value): bytes
    decreases v
  {
    match v
    case Int(i) => [MARK_I] + IntStr(i) + [MARK_E]
    case Str(s) => EncodeStr(s)
    case List(items) => [MARK_L] + EncodeAll(items) + [MARK_E]
    case Dict(entries) =>
      var ks := SortedKeys(entries.Keys);
      [MARK_D] + EncodeEntries(v, ks) + [MARK_E]
  }

  function EncodeStr(s: bytes): bytes {
    NatStr(|s|) + [COLON] + s
  }

  ghost function EncodeAll(vs: seq<Value>): bytes
    decreases vs
  {
    if vs == [] then [] else Encode(vs[0]) + EncodeAll(vs[1..])
  }

  ghost function EncodeEntries(v: Value, ks: seq<bytes>): bytes
    requires v.Dict? && forall k :: k in ks ==> k in v.entries
    decreases v, |ks|
  {
    if ks == [] then []
    else EncodeStr(ks[0]) + Encode(v.entries[ks[0]]) + EncodeEntries(v, ks[1..])
  }

  // ---- The parser ----

  datatype Limits = Limits(maxDepth: int, maxItems: int, maxString: int)

  datatype Error =
    | TooManyItems | TooDeep | UnexpectedEnd | UnterminatedList | UnterminatedDict
    | DuplicateKey | UnsortedKeys | InvalidMarker | UnterminatedInt | EmptyInt | NonCanonicalInt
    | InvalidInt | InvalidDigits | MissingColon | InvalidLength | NonCanonicalLength
    | StringTooLong | TruncatedString | TrailingData

  /** A result, the position behind it and the item count after it. */
  datatype Parsed = Ok(value: Value, pos: nat, items: int) | Err(error: Error)

  datatype ParsedStr = StrOk(s: bytes, pos: nat) | StrErr(error: Error)

  /** What the decoder object is built with. */
  datatype Input = Input(data: bytes, lim: Limits, strict: bool)

  /** The first index of `b` at or after `from`, or |data|. */
  function Find(data: bytes, b: byte, from: nat): (k: nat)
    requires from <= |data|
    ensures from <= k <= |data|
    ensures k < |data| ==> data[k] == b
    ensures forall j :: from <= j < k ==> data[j] != b
    decreases |data| - from
  {
    if from == |data| || data[from] == b then from else Find(data, b, from + 1)
  }

  /** The checks of `_parse_int` on the bytes between the marker and the terminator. */
  function IntOf(raw: bytes): (r: Option<int>)
  {
    if IntError(raw).Some? then None
    else if raw[0] == MINUS then Some(-(NatVal(raw[1..]) as int))
    else Some(NatVal(raw))
  }

  function IntError(raw: bytes): (r: Option<Error>)
    ensures r.None? ==> raw != [] && if raw[0] == MINUS then AllDigits(raw[1..]) else AllDigits(raw)
  {
    if raw == [] then Some(EmptyInt)
    else if raw == [MINUS, ZERO] || (raw[0] == ZERO && |raw| > 1)
            || (|raw| > 2 && raw[0] == MINUS && raw[1] == ZERO) then Some(NonCanonicalInt)
    else if raw == [MINUS] then Some(InvalidInt)
    else if !AllDigits(if raw[0] == MINUS then raw[1..] else raw) then Some(InvalidDigits)
    else None
  }

  function ParseInt(inp: Input, pos: nat, items: int): (r: Parsed)
    requires pos < |inp.data|
    ensures r.Ok? ==> pos < r.pos <= |inp.data|
  {
    var end := Find(inp.data, MARK_E, pos + 1);
    if end == |inp.data| then Err(UnterminatedInt)
    else
      var raw := inp.data[pos + 1..end];
      var e := IntError(raw);
      if e.Some? then Err(e.value) else Ok(Int(IntOf(raw).value), end + 1, items)
  }

  function ParseStr(inp: Input, pos: nat): (r: ParsedStr)
    requires pos <= |inp.data|
    ensures r.StrOk? ==> pos < r.pos <= |inp.data|
  {
    var colon := Find(inp.data, COLON, pos);
    if colon == |inp.data| then StrErr(MissingColon)
    else
      var raw := inp.data[pos..colon];
      if !AllDigits(raw) then StrErr(InvalidLength)
      else if |raw| > 1 && raw[0] == ZERO then StrErr(NonCanonicalLength)
      else
        var size := NatVal(raw);
        if size > inp.lim.maxString then StrErr(StringTooLong)
        else if colon + 1 + size > |inp.data| then StrErr(TruncatedString)
        else StrOk(inp.data[colon + 1..colon + 1 + size], colon + 1 + size)
  }

  function Parse(inp: Input, pos: nat, depth: int, items: int): (r: Parsed)
    requires pos <= |inp.data|
    ensures r.Ok? ==> pos < r.pos <= |inp.data|
    decreases |inp.data| - pos, 1
  {
    if depth > inp.lim.maxDepth then Err(TooDeep)
    else if pos == |inp.data| then Err(UnexpectedEnd)
    else if items + 1 > inp.lim.maxItems then Err(TooManyItems)
    else
      var marker := inp.data[pos];
      if marker == MARK_I then ParseInt(inp, pos, items + 1)
      else if marker == MARK_L then ParseItems(inp, pos + 1, depth, items + 1, [])
      else if marker == MARK_D then ParseEntries(inp, pos + 1, depth, items + 1, map[], None)
      else if IsDigit(marker) then
        match ParseStr(inp, pos)
        case StrErr(e) => Err(e)
        case StrOk(s, p) => Ok(Str(s), p, items + 1)
      else Err(InvalidMarker)
  }

  /** The list loop: `out` holds the values before `pos`. */
  function ParseItems(inp: Input, pos: nat, depth: int, items: int, out: seq<Value>): (r: Parsed)
    requires pos <= |inp.data|
    ensures r.Ok? ==> pos < r.pos <= |inp.data|
    decreases |inp.data| - pos, 2
  {
    if pos == |inp.data| then Err(UnterminatedList)
    else if inp.data[pos] == MARK_E then Ok(List(out), pos + 1, items)
    else
      match Parse(inp, pos, depth + 1, items)
      case Err(e) => Err(e)
      case Ok(v, p, n) => ParseItems(inp, p, depth, n, out + [v])
  }

  /** The dictionary loop: `out` holds the entries before `pos`, `previous` the last key. */
  function ParseEntries(inp: Input, pos: nat, depth: int, items: int, out: map<bytes, Value>,
                        previous: Option<bytes>): (r: Parsed)
    requires pos <= |inp.data|
    ensures r.Ok? ==> pos < r.pos <= |inp.data|
    decreases |inp.data| - pos, 2
  {
    if pos == |inp.data| then Err(UnterminatedDict)
    else if inp.data[pos] == MARK_E then Ok(Dict(out), pos + 1, items)
    else if items + 1 > inp.lim.maxItems then Err(TooManyItems)
    else
      match ParseStr(inp, pos)
      case StrErr(e) => Err(e)
      case StrOk(key, p) =>
        if key in out then Err(DuplicateKey)
        else if inp.strict && previous.Some? && Less(key, previous.value) then Err(UnsortedKeys)
        else
          match Parse(inp, p, depth + 1, items + 1)
          case Err(e) => Err(e)
          case Ok(v, p', n) => ParseEntries(inp, p', depth, n, out[key := v], Some(key))
  }

  /** `decode_prefix`: one value and the number of bytes it took. */
  function DecodePrefix(data: bytes, lim: Limits, strict: bool): Parsed {
    Parse(Input(data, lim, strict), 0, 0, 0)
  }

  /** `decode`: exactly one value. */
  function Decode(data: bytes, lim: Limits, strict: bool): Parsed {
    match DecodePrefix(data, lim, strict)
    case Err(e) => Err(e)
    case Ok(v, p, n) => if p != |data| then Err(TrailingData) else Ok(v, p, n)
  }

  // ---- The three resources the limits bound ----

  /** Values nest at most `room` levels deep. */
  ghost predicate DepthWithin(v: Value, room: int)
    decreases v
  {
    && room >= 0
    && (v.List? ==> forall x :: x in v.items ==> DepthWithin(x, room - 1))
    && (v.Dict? ==> forall k :: k in v.entries ==> DepthWithin(v.entries[k], room - 1))
  }

  /** No string or key is longer than `max`. */
  ghost predicate StringsWithin(v: Value, max: int)
    decreases v
  {
    match v
    case Int(_) => true
    case Str(s) => |s| <= max
    case List(items) => forall x :: x in items ==> StringsWithin(x, max)
    case Dict(entries) => forall k :: k in entries ==> |k| <= max && StringsWithin(entries[k], max)
  }

  /** Nodes plus dictionary keys. */
  ghost function Items(v: Value): nat
    decreases v
  {
    match v
    case Int(_) => 1
    case Str(_) => 1
    case List(items) => 1 + ItemsAll(items)
    case Dict(entries) => 1 + ItemsUnder(v, entries.Keys)
  }

  ghost function ItemsAll(vs: seq<Value>): nat
    decreases vs
  {
    if vs == [] then 0 else Items(vs[0]) + ItemsAll(vs[1..])
  }

  ghost function ItemsUnder(v: Value, ks: set<bytes>): nat
    requires v.Dict? && ks <= v.entries.Keys
    decreases v, ks
  {
    if ks == {} then 0 else var k :| k in ks; 1 + Items(v.entries[k]) + ItemsUnder(v, ks - {k})
  }

  /** A value within the limits when parsing starts at this depth and item count. */
  ghost predicate Fits(v: Value, lim: Limits, depth: int, items: int) {
    DepthWithin(v, lim.maxDepth - depth) && items + Items(v) <= lim.maxItems && StringsWithin(v, lim.maxString)
  }
}
