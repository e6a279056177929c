/** The Kademlia distance (bitwise exclusive or) on non-negative integers, and how it
    relates to the integer ranges that the routing table uses as buckets. */
module XorMetric {

  function Pow2(n: nat): (r: nat)
    ensures r > 0
  {
    if n == 0 then 1 else 2 * Pow2(n - 1)
  }

  /** Python's `a ^ b` on non-negative integers, one binary digit at a time. */
  function Xor(a: nat, b: nat): nat
    decreases a + b
  {
    if a == 0 && b == 0 then 0
    else (if a % 2 == b % 2 then 0 else 1) + 2 * Xor(a / 2, b / 2)
  }

  lemma {:induction false} XorInjective(a: nat, b: nat, t: nat)
    requires Xor(a, t) == Xor(b, t)
    ensures a == b
    decreases a + b + t
  {
    if a + b + t > 0 {
      assert Xor(0, 0) == 0;
      assert Xor(a / 2, t / 2) == Xor(a, t) / 2;
      assert Xor(b / 2, t / 2) == Xor(b, t) / 2;
      XorInjective(a / 2, b / 2, t / 2);
      assert a % 2 == b % 2;
    }
  }

  lemma {:induction false} XorZero(a: nat, b: nat)
    ensures Xor(a, b) == 0 <==> a == b
    decreases a + b
  {
    if a + b > 0 {
      XorZero(a / 2, b / 2);
    }
  }

  lemma MultipleBound(d: int, k: int)
    requires d > 0
    ensures k >= 1 ==> d * k >= d
    ensures k <= -1 ==> d * k <= -d
  {
    if k >= 1 { assert d * k == d + d * (k - 1) && d * (k - 1) >= 0; }
    if k <= -1 { assert d * k == -d + d * (k + 1) && d * (k + 1) <= 0; }
  }

  lemma DivModUnique(a: nat, d: nat, q: nat, r: nat)
    requires d > 0 && a == d * q + r && r < d
    ensures a / d == q
  {
    MultipleBound(d, a / d - q);
    assert d * (a / d - q) == d * (a / d) - d * q;
  }

  lemma Regroup(c: nat, d: nat, q: nat, r: nat)
    ensures c * (d * q + r) == (c * d) * q + c * r
  {
    assert c * (d * q + r) == c * (d * q) + c * r;
    assert c * (d * q) == (c * d) * q;
  }

  lemma TimesLess(c: nat, r: nat, d: nat)
    requires r < d
    ensures c * r + c <= c * d
  {
    assert c * d == c * r + c * (d - r);
    if c > 0 { MultipleBound(c, d - r); }
  }

  /** Dividing by a product is dividing by one factor and then by the other. */
  lemma DivideTwice(a: nat, c: nat, d: nat)
    requires c > 0 && d > 0
    ensures c * d > 0 && a / (c * d) == a / c / d
  {
    var q, r := a / c / d, a / c % d;
    assert a / c == d * q + r;
    assert a == c * (a / c) + a % c;
    Regroup(c, d, q, r);
    TimesLess(c, r, d);
    TimesLess(c, 0, d);
    DivModUnique(a, c * d, q, c * r + a % c);
  }

  lemma XorHalves(a: nat, b: nat)
    ensures 2 * Xor(a / 2, b / 2) <= Xor(a, b) <= 2 * Xor(a / 2, b / 2) + 1
  {
  }

  /** Two numbers are closer than 2^k exactly when they agree above the k lowest binary digits. */
  lemma {:induction false} XorBelow(a: nat, b: nat, k: nat)
    ensures Xor(a, b) < Pow2(k) <==> a / Pow2(k) == b / Pow2(k)
    decreases k
  {
    if k == 0 {
      XorZero(a, b);
    } else {
      XorBelow(a / 2, b / 2, k - 1);
      XorHalves(a, b);
      hide Xor;
      DivideTwice(a, 2, Pow2(k - 1));
      DivideTwice(b, 2, Pow2(k - 1));
    }
  }

  /** Each binary digit of the distance says whether the two digits there differ. */
  lemma {:induction false} XorBit(a: nat, b: nat, k: nat)
    ensures Xor(a, b) / Pow2(k) % 2 == if a / Pow2(k) % 2 == b / Pow2(k) % 2 then 0 else 1
    decreases k
  {
    if k > 0 {
      XorBit(a / 2, b / 2, k - 1);
      assert Xor(a, b) / 2 == Xor(a / 2, b / 2);
      hide Xor;
      DivideTwice(Xor(a, b), 2, Pow2(k - 1));
      DivideTwice(a, 2, Pow2(k - 1));
      DivideTwice(b, 2, Pow2(k - 1));
    }
  }

  lemma BlockQuotient(lo: nat, x: nat, k: nat)
    requires lo % Pow2(k) == 0 && lo <= x < lo + Pow2(k)
    ensures x / Pow2(k) == lo / Pow2(k)
  {
    var d := Pow2(k);
    assert lo == d * (lo / d);
    DivModUnique(x, d, lo / d, x - lo);
  }

  lemma SameQuotient(lo: nat, x: nat, d: nat)
    requires d > 0 && lo % d == 0 && x / d == lo / d
    ensures lo <= x < lo + d
  {
    var q := lo / d;
    assert lo == d * q;
    assert x == d * q + x % d;
  }

  /** An aligned block of 2^k numbers is a ball of the exclusive-or metric around any of its members. */
  lemma XorBall(lo: nat, a: nat, x: nat, k: nat)
    requires lo % Pow2(k) == 0 && lo <= a < lo + Pow2(k)
    ensures Xor(x, a) < Pow2(k) <==> lo <= x < lo + Pow2(k)
  {
    XorBelow(x, a, k);
    BlockQuotient(lo, a, k);
    var d := Pow2(k);
    if lo <= x < lo + d {
      BlockQuotient(lo, x, k);
    }
    if x / d == lo / d {
      SameQuotient(lo, x, d);
    }
  }
}
