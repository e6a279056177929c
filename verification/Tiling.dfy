/** How midpoint splits around one local identifier tile an identifier space.

    `Tiling(local, lo, e, i)` is what is left of the block [lo, lo + 2^e) after the part that
    holds `local` has been halved until it is 2^i wide. */
module Tilings {
  import opened XorMetric

  datatype Range = Range(low: int, high: int) {
    predicate Has(x: int) {
      low <= x < high
    }
  }

  function Tiling(local: nat, lo: nat, e: nat, i: nat): seq<Range>
    requires i <= e
    decreases e
  {
    if e == i then [Range(lo, lo + Pow2(e))]
    else
      var mid := lo + Pow2(e - 1);
      if local < mid then Tiling(local, lo, e - 1, i) + [Range(mid, lo + Pow2(e))]
      else [Range(lo, mid)] + Tiling(local, mid, e - 1, i)
  }

  /** Contiguous, sorted and gap free. */
  predicate Partition(t: seq<Range>, lo: int, hi: int) {
    && |t| > 0
    && t[0].low == lo
    && t[|t| - 1].high == hi
    && (forall k :: 0 <= k < |t| ==> t[k].low < t[k].high)
    && (forall k :: 0 < k < |t| ==> t[k - 1].high == t[k].low)
  }

  lemma {:induction false} PartitionOrdered(t: seq<Range>, lo: int, hi: int, j: nat, k: nat)
    requires Partition(t, lo, hi) && j < k < |t|
    ensures t[j].high <= t[k].low
    decreases k
  {
    if j + 1 < k {
      PartitionOrdered(t, lo, hi, j, k - 1);
      assert t[k - 1].high == t[k].low;
    }
  }

  lemma PartitionOne(lo: int, hi: int)
    requires lo < hi
    ensures Partition([Range(lo, hi)], lo, hi)
  {
  }

  lemma PartitionJoin(t: seq<Range>, u: seq<Range>, lo: int, mid: int, hi: int)
    requires Partition(t, lo, mid) && Partition(u, mid, hi)
    ensures Partition(t + u, lo, hi)
  {
  }

  lemma PartitionInside(t: seq<Range>, lo: int, hi: int, r: Range)
    requires Partition(t, lo, hi) && r in t
    ensures lo <= r.low && r.high <= hi
  {
    var k :| 0 <= k < |t| && t[k] == r;
    if k > 0 { PartitionOrdered(t, lo, hi, 0, k); }
    if k < |t| - 1 { PartitionOrdered(t, lo, hi, k, |t| - 1); }
  }

  lemma PartitionUnique(t: seq<Range>, lo: int, hi: int, x: int, j: nat, k: nat)
    requires Partition(t, lo, hi) && j < |t| && k < |t| && t[j].Has(x) && t[k].Has(x)
    ensures j == k
  {
    if j < k { PartitionOrdered(t, lo, hi, j, k); }
    if k < j { PartitionOrdered(t, lo, hi, k, j); }
  }

  lemma {:induction false} PartitionCovers(t: seq<Range>, lo: int, hi: int, x: int) returns (k: nat)
    requires Partition(t, lo, hi) && lo <= x < hi
    ensures k < |t| && t[k].Has(x)
    decreases |t|
  {
    if x < t[0].high {
      k := 0;
    } else {
      var k' := PartitionCovers(t[1..], t[0].high, hi, x);
      k := k' + 1;
    }
  }

  lemma {:induction false} TilingPartition(local: nat, lo: nat, e: nat, i: nat)
    requires i <= e
    ensures |Tiling(local, lo, e, i)| == e - i + 1
    ensures Partition(Tiling(local, lo, e, i), lo, lo + Pow2(e))
    decreases e
  {
    hide *;
    if e == i {
      TilingWhole(local, lo, e);
      PartitionOne(lo, lo + Pow2(e));
    } else {
      TilingStep(local, lo, e, i);
      var mid, hi := lo + Pow2(e - 1), lo + Pow2(e);
      if local < mid {
        TilingPartition(local, lo, e - 1, i);
        PartitionOne(mid, hi);
        PartitionJoin(Tiling(local, lo, e - 1, i), [Range(mid, hi)], lo, mid, hi);
      } else {
        TilingPartition(local, mid, e - 1, i);
        PartitionOne(lo, mid);
        PartitionJoin([Range(lo, mid)], Tiling(local, mid, e - 1, i), lo, mid, hi);
      }
    }
  }

  lemma TilingWhole(local: nat, lo: nat, e: nat)
    ensures Tiling(local, lo, e, e) == [Range(lo, lo + Pow2(e))]
  {
  }

  lemma TilingStep(local: nat, lo: nat, e: nat, i: nat)
    requires i < e
    ensures Pow2(e) == Pow2(e - 1) + Pow2(e - 1)
    ensures var mid := lo + Pow2(e - 1);
            Tiling(local, lo, e, i) ==
            if local < mid then Tiling(local, lo, e - 1, i) + [Range(mid, lo + Pow2(e))]
            else [Range(lo, mid)] + Tiling(local, mid, e - 1, i)
  {
  }

  /** The ranges after the k-th one is cut at its integer midpoint. */
  function Halve(t: seq<Range>, k: nat): seq<Range>
    requires k < |t|
  {
    var mid := (t[k].low + t[k].high) / 2;
    t[..k] + [Range(t[k].low, mid), Range(mid, t[k].high)] + t[k + 1..]
  }

  lemma HalveLeft(t: seq<Range>, k: nat, after: seq<Range>)
    requires k < |t|
    ensures Halve(t + after, k) == Halve(t, k) + after
  {
    var u := t + after;
    assert u[..k] == t[..k] && u[k + 1..] == t[k + 1..] + after && u[k] == t[k];
  }

  lemma HalveRight(t: seq<Range>, k: nat, before: seq<Range>)
    requires k < |t|
    ensures Halve(before + t, |before| + k) == before + Halve(t, k)
  {
    var u := before + t;
    assert u[..|before| + k] == before + t[..k] && u[|before| + k + 1..] == t[k + 1..] && u[|before| + k] == t[k];
  }

  lemma WholeSplit(local: nat, lo: nat, i: nat)
    requires i > 0
    ensures Tiling(local, lo, i, i - 1) == Halve(Tiling(local, lo, i, i), 0)
  {
    var p := Pow2(i - 1);
    assert (lo + (lo + 2 * p)) / 2 == lo + p;
    assert Halve([Range(lo, lo + 2 * p)], 0) == [Range(lo, lo + p), Range(lo + p, lo + 2 * p)];
  }

  /** The part that holds `local` is 2^i wide. */
  lemma {:induction false} TilingLocalWidth(local: nat, lo: nat, e: nat, i: nat, k: nat)
    requires i <= e && lo <= local < lo + Pow2(e)
    requires k < |Tiling(local, lo, e, i)| && Tiling(local, lo, e, i)[k].Has(local)
    ensures Tiling(local, lo, e, i)[k].high == Tiling(local, lo, e, i)[k].low + Pow2(i)
    decreases e
  {
    if e > i {
      var mid := lo + Pow2(e - 1);
      if local < mid {
        TilingLocalWidth(local, lo, e - 1, i, k);
      } else {
        TilingLocalWidth(local, mid, e - 1, i, k - 1);
      }
    }
  }

  /** Halving the part that holds `local` gives the next finer tiling. */
  lemma {:induction false} TilingSplit(local: nat, lo: nat, e: nat, i: nat, k: nat)
    requires 0 < i <= e && lo <= local < lo + Pow2(e)
    requires k < |Tiling(local, lo, e, i)| && Tiling(local, lo, e, i)[k].Has(local)
    ensures Tiling(local, lo, e, i - 1) == Halve(Tiling(local, lo, e, i), k)
    decreases e
  {
    hide Tiling, Halve, Pow2;
    if e == i {
      TilingWhole(local, lo, e);
      WholeSplit(local, lo, i);
    } else {
      TilingStep(local, lo, e, i);
      TilingStep(local, lo, e, i - 1);
      var mid := lo + Pow2(e - 1);
      if local < mid {
        var s, r := Tiling(local, lo, e - 1, i), [Range(mid, lo + Pow2(e))];
        assert k < |s|;
        TilingSplit(local, lo, e - 1, i, k);
        HalveLeft(s, k, r);
      } else {
        var s, l := Tiling(local, mid, e - 1, i), [Range(lo, mid)];
        assert k > 0;
        TilingSplit(local, mid, e - 1, i, k - 1);
        HalveRight(s, k - 1, l);
      }
    }
  }

  /** A range is the shell of distances [2^j, 2^(j+1)) around `local`. */
  ghost predicate IsShell(local: nat, r: Range, j: nat) {
    forall x: nat :: r.Has(x) <==> Pow2(j) <= Xor(x, local) < Pow2(j + 1)
  }

  /** A range is the ball of distances below 2^j around `local`. */
  ghost predicate IsBall(local: nat, r: Range, j: nat) {
    forall x: nat :: r.Has(x) <==> Xor(x, local) < Pow2(j)
  }

  lemma BlockIsBall(local: nat, lo: nat, e: nat)
    requires lo % Pow2(e) == 0 && lo <= local < lo + Pow2(e)
    ensures IsBall(local, Range(lo, lo + Pow2(e)), e)
  {
    forall x: nat ensures Range(lo, lo + Pow2(e)).Has(x) <==> Xor(x, local) < Pow2(e) {
      XorBall(lo, local, x, e);
    }
  }

  lemma AlignedHalves(lo: nat, e: nat)
    requires e > 0 && lo % Pow2(e) == 0
    ensures lo % Pow2(e - 1) == 0 && (lo + Pow2(e - 1)) % Pow2(e - 1) == 0
  {
    var p := Pow2(e - 1);
    var q := lo / Pow2(e);
    assert lo == Pow2(e) * q + lo % Pow2(e);
    assert lo == p * (2 * q);
    MultipleMod(p, 2 * q);
    MultipleMod(p, 2 * q + 1);
    assert lo + p == p * (2 * q + 1);
  }

  lemma MultipleMod(p: nat, k: nat)
    requires p > 0
    ensures (p * k) % p == 0
  {
    DivModUnique(p * k, p, k, 0);
  }

  /** The half of an aligned block that does not hold `local` is a shell. */
  lemma SiblingIsShell(local: nat, lo: nat, e: nat)
    requires e > 0 && lo % Pow2(e) == 0 && lo <= local < lo + Pow2(e)
    ensures var mid := lo + Pow2(e - 1);
            IsShell(local, if local < mid then Range(mid, lo + Pow2(e)) else Range(lo, mid), e - 1)
  {
    var mid := lo + Pow2(e - 1);
    AlignedHalves(lo, e);
    BlockIsBall(local, lo, e);
    BlockIsBall(local, if local < mid then lo else mid, e - 1);
    forall x: nat
      ensures (if local < mid then Range(mid, lo + Pow2(e)) else Range(lo, mid)).Has(x)
              <==> Pow2(e - 1) <= Xor(x, local) < Pow2(e)
    {
      var inner := if local < mid then Range(lo, lo + Pow2(e - 1)) else Range(mid, mid + Pow2(e - 1));
      assert inner.Has(x) <==> Xor(x, local) < Pow2(e - 1);
      assert Range(lo, lo + Pow2(e)).Has(x) <==> Xor(x, local) < Pow2(e);
    }
  }

  /** Every part of a tiling is the ball 2^i or a shell 2^j with i <= j < e; its width says which. */
  lemma {:induction false} TilingShells(local: nat, lo: nat, e: nat, i: nat, k: nat) returns (j: nat)
    requires i <= e && lo % Pow2(e) == 0 && lo <= local < lo + Pow2(e)
    requires k < |Tiling(local, lo, e, i)|
    ensures var r := Tiling(local, lo, e, i)[k];
            && 0 <= r.low
            && r.high - r.low == Pow2(j)
            && (if r.Has(local) then j == i && IsBall(local, r, i) else i <= j < e && IsShell(local, r, j))
    decreases e
  {
    var t := Tiling(local, lo, e, i);
    if e == i {
      BlockIsBall(local, lo, e);
      j := i;
    } else {
      var mid := lo + Pow2(e - 1);
      AlignedHalves(lo, e);
      SiblingIsShell(local, lo, e);
      if local < mid {
        if k == |t| - 1 { j := e - 1; }
        else { j := TilingShells(local, lo, e - 1, i, k); }
      } else {
        if k == 0 { j := e - 1; }
        else { j := TilingShells(local, mid, e - 1, i, k - 1); }
      }
    }
  }

  /** A finer tiling keeps every part of a coarser one except the part that holds `local`. */
  lemma {:induction false} FinerKeepsShells(local: nat, lo: nat, e: nat, i: nat, i': nat, r: Range)
    requires i <= i' <= e && lo <= local < lo + Pow2(e)
    requires r in Tiling(local, lo, e, i') && !r.Has(local)
    ensures r in Tiling(local, lo, e, i)
    decreases e
  {
    if e > i' {
      var mid := lo + Pow2(e - 1);
      var sub := if local < mid then lo else mid;
      if r in Tiling(local, sub, e - 1, i') {
        FinerKeepsShells(local, sub, e - 1, i, i', r);
      }
    }
  }

  /** Every part of the finer tiling lies inside one part of the coarser tiling. */
  lemma {:induction false} FinerInsideCoarser(local: nat, lo: nat, e: nat, i: nat, i': nat, r: Range) returns (c: Range)
    requires i <= i' <= e && lo <= local < lo + Pow2(e)
    requires r in Tiling(local, lo, e, i)
    ensures c in Tiling(local, lo, e, i') && c.low <= r.low && r.high <= c.high
    decreases e
  {
    if e == i' {
      TilingPartition(local, lo, e, i);
      PartitionInside(Tiling(local, lo, e, i), lo, lo + Pow2(e), r);
      c := Range(lo, lo + Pow2(e));
    } else {
      var mid := lo + Pow2(e - 1);
      var sub := if local < mid then lo else mid;
      if r in Tiling(local, sub, e - 1, i) {
        c := FinerInsideCoarser(local, sub, e - 1, i, i', r);
      } else {
        c := r;
      }
    }
  }
}
