/** ASCII decimal numerals, as Python's `str` writes them and `int` reads them. */
module Decimal {
  import opened Bytes

  const ZERO: byte := 48
  const NINE: byte := 57
  const MINUS: byte := 45

  predicate IsDigit(b: byte) {
    ZERO <= b <= NINE
  }

  /** Python's `bytes.isdigit`. */
  predicate AllDigits(s: bytes) {
    s != [] && forall i :: 0 <= i < |s| ==> IsDigit(s[i])
  }

  function Digit(n: nat): (b: byte)
    requires n < 10
    ensures IsDigit(b)
  {
    ZERO + n as byte
  }

  function NatStr(n: nat): bytes {
    if n < 10 then [Digit(n)] else NatStr(n / 10) + [Digit(n % 10)]
  }

  function NatVal(s: bytes): nat
    requires forall i :: 0 <= i < |s| ==> IsDigit(s[i])
  {
    if s == [] then 0 else assert IsDigit(s[|s| - 1]); 10 * NatVal(s[..|s| - 1]) + (s[|s| - 1] as nat - 48)
  }

  function IntStr(n: int): bytes {
    if n < 0 then [MINUS] + NatStr(-n) else NatStr(n)
  }

  /** No superfluous leading zero. */
  predicate Canonical(s: bytes) {
    AllDigits(s) && (s[0] == ZERO ==> |s| == 1)
  }

  lemma {:induction false} NatStrCanonical(n: nat)
    ensures Canonical(NatStr(n))
    ensures NatStr(n)[0] == ZERO ==> n == 0
  {
    if n >= 10 {
      NatStrCanonical(n / 10);
    }
  }

  lemma {:induction false} NatValStr(n: nat)
    ensures Canonical(NatStr(n)) && NatVal(NatStr(n)) == n
  {
    NatStrCanonical(n);
    if n >= 10 {
      NatValStr(n / 10);
      assert NatStr(n)[..|NatStr(n)| - 1] == NatStr(n / 10);
    }
  }

  lemma {:induction false} NatValPositive(s: bytes)
    requires AllDigits(s) && s[0] != ZERO
    ensures NatVal(s) > 0
  {
    if |s| == 1 {
      assert s[..0] == [];
    } else {
      NatValPositive(s[..|s| - 1]);
    }
  }

  lemma {:induction false} NatStrVal(s: bytes)
    requires Canonical(s)
    ensures NatStr(NatVal(s)) == s
  {
    var t := s[..|s| - 1];
    var d := s[|s| - 1];
    assert s == t + [d];
    if |s| == 1 {
      assert t == [] && NatVal(t) == 0;
    } else {
      NatStrVal(t);
      NatValPositive(t);
      assert NatVal(s) / 10 == NatVal(t) && NatVal(s) % 10 == d as nat - 48;
    }
  }
}
