/** The decoder object with its running item count and its loops: it computes the parser functions of `Bencode.dfy`. */
module BencodeCodec {
  import opened Wrappers
  import opened Bytes
  import opened Decimal
  import opened Bencode

  /** What a parsing method returns or raises. */
  datatype Outcome<T> = Done(value: T, pos: nat) | Raised(error: Error)

  class Decoder {
    const data: bytes
    const lim: Limits
    const strict: bool
    var items: int

    constructor (data: bytes, lim: Limits, strict: bool)
      ensures this.data == data && this.lim == lim && this.strict == strict && items == 0
    {
      this.data, this.lim, this.strict, this.items := data, lim, strict, 0;
    }

    function Inp(): Input {
      Input(data, lim, strict)
    }

    /** `r` and the item count are what the parser function says. */
    ghost predicate Agrees(r: Outcome<Value>, p: Parsed)
      reads this
    {
      match p
      case Err(e) => r == Raised(e)
      case Ok(v, pos, n) => r == Done(v, pos) && items == n
    }

    method Count() returns (ok: bool)
      modifies this`items
      ensures items == old(items) + 1 && (ok <==> items <= lim.maxItems)
    {
      items := items + 1;
      ok := items <= lim.maxItems;
    }

    method ParseValue(start: nat, depth: int) returns (r: Outcome<Value>)
      requires start <= |data|
      modifies this`items
      ensures Agrees(r, Parse(Inp(), start, depth, old(items)))
      decreases |data| - start, 1
    {
      if depth > lim.maxDepth { return Raised(TooDeep); }
      if start >= |data| { return Raised(UnexpectedEnd); }
      var ok := Count();
      if !ok { return Raised(TooManyItems); }
      var marker := data[start];
      if marker == MARK_I {
        r := ParseInteger(start);
      } else if marker == MARK_L {
        r := ParseList(start + 1, depth);
      } else if marker == MARK_D {
        r := ParseDict(start + 1, depth);
      } else if IsDigit(marker) {
        var s := ParseBytes(start);
        r := if s.Raised? then Raised(s.error) else Done(Str(s.value), s.pos);
      } else {
        r := Raised(InvalidMarker);
      }
    }

    method ParseList(start: nat, depth: int) returns (r: Outcome<Value>)
      requires start <= |data|
      modifies this`items
      ensures Agrees(r, ParseItems(Inp(), start, depth, old(items), []))
      decreases |data| - start, 2
    {
      hide Parse, ParseStr;
      var pos := start;
      var out: seq<Value> := [];
      while true
        invariant start <= pos <= |data|
        invariant ParseItems(Inp(), start, depth, old(items), []) == ParseItems(Inp(), pos, depth, items, out)
        decreases |data| - pos
      {
        if pos >= |data| { return Raised(UnterminatedList); }
        if data[pos] == MARK_E { return Done(List(out), pos + 1); }
        var x := ParseValue(pos, depth + 1);
        if x.Raised? { return Raised(x.error); }
        out := out + [x.value];
        pos := x.pos;
      }
    }

    method ParseDict(start: nat, depth: int) returns (r: Outcome<Value>)
      requires start <= |data|
      modifies this`items
      ensures Agrees(r, ParseEntries(Inp(), start, depth, old(items), map[], None))
      decreases |data| - start, 2
    {
      hide Parse, ParseStr;
      var pos := start;
      var out: map<bytes, Value> := map[];
      var previous: Option<bytes> := None;
      while true
        invariant start <= pos <= |data|
        invariant ParseEntries(Inp(), start, depth, old(items), map[], None)
                  == ParseEntries(Inp(), pos, depth, items, out, previous)
        decreases |data| - pos
      {
        if pos >= |data| { return Raised(UnterminatedDict); }
        if data[pos] == MARK_E { return Done(Dict(out), pos + 1); }
        var ok := Count();
        if !ok { return Raised(TooManyItems); }
        var key := ParseBytes(pos);
        if key.Raised? { return Raised(key.error); }
        if key.value in out { return Raised(DuplicateKey); }
        if strict && previous.Some? && Less(key.value, previous.value) { return Raised(UnsortedKeys); }
        previous := Some(key.value);
        var x := ParseValue(key.pos, depth + 1);
        if x.Raised? { return Raised(x.error); }
        out := out[key.value := x.value];
        pos := x.pos;
      }
    }

    method ParseInteger(pos: nat) returns (r: Outcome<Value>)
      requires pos < |data|
      ensures Agrees(r, ParseInt(Inp(), pos, items))
    {
      var end := Find(data, MARK_E, pos + 1);
      if end == |data| { return Raised(UnterminatedInt); }
      var raw := data[pos + 1..end];
      if |raw| == 0 { return Raised(EmptyInt); }
      if raw == [MINUS, ZERO] || (raw[0] == ZERO && |raw| > 1) || (|raw| > 2 && raw[0] == MINUS && raw[1] == ZERO) {
        return Raised(NonCanonicalInt);
      }
      var digits := raw;
      if raw[0] == MINUS {
        digits := raw[1..];
        if |digits| == 0 {
          assert raw == [MINUS];
          return Raised(InvalidInt);
        }
      }
      if !AllDigits(digits) { return Raised(InvalidDigits); }
      r := Done(Int(if raw[0] == MINUS then -(NatVal(digits) as int) else NatVal(digits)), end + 1);
    }

    method ParseBytes(pos: nat) returns (r: Outcome<bytes>)
      requires pos <= |data|
      ensures match ParseStr(Inp(), pos)
              case StrErr(e) => r == Raised(e)
              case StrOk(s, p) => r == Done(s, p)
    {
      var colon := Find(data, COLON, pos);
      if colon == |data| { return Raised(MissingColon); }
      var rawLen := data[pos..colon];
      if !AllDigits(rawLen) { return Raised(InvalidLength); }
      if |rawLen| > 1 && rawLen[0] == ZERO { return Raised(NonCanonicalLength); }
      var size := NatVal(rawLen);
      if size > lim.maxString { return Raised(StringTooLong); }
      var from := colon + 1;
      if from + size > |data| { return Raised(TruncatedString); }
      r := Done(data[from..from + size], from + size);
    }
  }

  method DecodePrefixOf(data: bytes, lim: Limits, strict: bool) returns (r: Outcome<Value>)
    ensures match DecodePrefix(data, lim, strict)
            case Err(e) => r == Raised(e)
            case Ok(v, p, _) => r == Done(v, p)
  {
    var d := new Decoder(data, lim, strict);
    r := d.ParseValue(0, 0);
  }

  method DecodeAll(data: bytes, lim: Limits, strict: bool) returns (r: Outcome<Value>)
    ensures match Decode(data, lim, strict)
            case Err(e) => r == Raised(e)
            case Ok(v, p, _) => r == Done(v, p)
  {
    r := DecodePrefixOf(data, lim, strict);
    if r.Done? && r.pos != |data| {
      r := Raised(TrailingData);
    }
  }
}
