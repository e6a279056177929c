/** What an encoding looks like: its markers, its numerals digit by digit and the order of its keys byte by byte. */
module BencodeForm {
  import X = XorMetric
  import opened Bytes
  import opened Decimal
  import opened Bencode
  import opened BencodeProofs

  // ---- Key order ----

  /** The two agree on n bytes; then a is at its end or has the smaller byte. */
  predicate FirstDifference(a: bytes, b: bytes, n: nat) {
    n <= |a| && n < |b| && a[..n] == b[..n] && (n == |a| || a[n] < b[n])
  }

  /** a is a proper prefix of b, or has the smaller byte where they first differ. */
  ghost predicate Before(a: bytes, b: bytes) {
    exists n: nat :: FirstDifference(a, b, n)
  }

  lemma SameStart(a: bytes, b: bytes, n: nat)
    requires FirstDifference(a, b, n) && n > 0
    ensures a != [] && b != [] && a[0] == b[0]
  {
    assert a[..n][0] == b[..n][0];
  }

  lemma {:induction false} LessIsBytewise(a: bytes, b: bytes)
    ensures Less(a, b) <==> Before(a, b)
  {
    if b != [] && a != [] && a[0] == b[0] {
      LessIsBytewise(a[1..], b[1..]);
      forall n: nat | FirstDifference(a[1..], b[1..], n) ensures FirstDifference(a, b, n + 1) {
        assert a[..n + 1] == [a[0]] + a[1..][..n] && b[..n + 1] == [b[0]] + b[1..][..n];
      }
      forall n: nat | FirstDifference(a, b, n) ensures n > 0 && FirstDifference(a[1..], b[1..], n - 1) {
        assert a[1..][..n - 1] == a[..n][1..] && b[1..][..n - 1] == b[..n][1..];
      }
    } else if Less(a, b) {
      assert FirstDifference(a, b, 0);
    } else {
      forall n: nat ensures !FirstDifference(a, b, n) {
        if FirstDifference(a, b, n) && n > 0 { SameStart(a, b, n); }
      }
    }
  }

  // ---- Numerals ----

  function Pow10(n: nat): (r: nat)
    ensures r > 0
  {
    if n == 0 then 1 else 10 * Pow10(n - 1)
  }

  /** The digit that stands k places from the right. */
  lemma {:induction false} DigitAt(n: nat, k: nat)
    requires k < |NatStr(n)|
    ensures NatStr(n)[|NatStr(n)| - 1 - k] as int == '0' as int + n / Pow10(k) % 10
    decreases n
  {
    assert Pow10(0) == 1;
    if n >= 10 && k > 0 {
      DigitAt(n / 10, k - 1);
      X.DivideTwice(n, 10, Pow10(k - 1));
    }
  }

  /** A numeral has just enough digits. */
  lemma {:induction false} DigitCount(n: nat)
    ensures n < Pow10(|NatStr(n)|) && (n > 0 ==> Pow10(|NatStr(n)| - 1) <= n)
  {
    assert Pow10(0) == 1 && Pow10(1) == 10;
    if n >= 10 { DigitCount(n / 10); }
  }

  // ---- Encodings ----

  /** A list of keys, each before the next. */
  ghost predicate KeysInOrder(ks: seq<bytes>) {
    forall i :: 0 <= i < |ks| - 1 ==> Before(ks[i], ks[i + 1])
  }

  /** Every dictionary is written with all its keys, each before the next, each followed by its value. */
  lemma DictForm(v: Value) returns (ks: seq<bytes>)
    requires v.Dict?
    ensures KeySet(ks) == v.entries.Keys && KeysInOrder(ks)
    ensures Encode(v) == Ascii("d") + EncodeEntries(v, ks) + Ascii("e")
  {
    ks := SortedKeys(v.entries.Keys);
    SortedAscending(v.entries.Keys);
    forall i | 0 <= i < |ks| - 1 ensures Before(ks[i], ks[i + 1]) {
      LessIsBytewise(ks[i], ks[i + 1]);
    }
    assert Ascii("d") == [MARK_D] && Ascii("e") == [MARK_E];
  }

  lemma Colon()
    ensures Ascii(":") == [COLON]
  {
  }

  lemma EntryForm(v: Value, ks: seq<bytes>)
    requires v.Dict? && ks != [] && forall k :: k in ks ==> k in v.entries
    ensures EncodeEntries(v, ks)
            == NatStr(|ks[0]|) + Ascii(":") + ks[0] + Encode(v.entries[ks[0]]) + EncodeEntries(v, ks[1..])
  {
    hide Encode, NatStr, Ascii;
    Colon();
  }

  lemma IntForm(i: int)
    ensures Encode(Int(i)) == Ascii("i") + (if i < 0 then Ascii("-") + NatStr(-i) else NatStr(i)) + Ascii("e")
  {
    assert Ascii("i") == [MARK_I] && Ascii("-") == [MINUS] && Ascii("e") == [MARK_E];
  }

  lemma TextForm(s: bytes)
    ensures EncodeStr(s) == NatStr(|s|) + Ascii(":") + s
  {
    hide NatStr, Ascii;
    Colon();
  }

  lemma StrForm(s: bytes)
    ensures Encode(Str(s)) == NatStr(|s|) + Ascii(":") + s
  {
    hide NatStr, EncodeStr;
    TextForm(s);
  }

  lemma ListForm(vs: seq<Value>)
    ensures Encode(List(vs)) == Ascii("l") + EncodeAll(vs) + Ascii("e")
    ensures vs != [] ==> EncodeAll(vs) == Encode(vs[0]) + EncodeAll(vs[1..])
  {
    assert Ascii("l") == [MARK_L] && Ascii("e") == [MARK_E];
  }
}
