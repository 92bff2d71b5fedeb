/** The 64-bit combo bitmaps that the agent publishes and the data plane tests, as numbers. */
module Bits {

  function Pow2(n: nat): (p: nat)
    ensures p > 0
  {
    if n == 0 then 1 else 2 * Pow2(n - 1)
  }

  /** `(w >> i) & 1` is 1, which is what `w & (1 << i)` tests. */
  predicate Bit(w: nat, i: nat) {
    if i == 0 then w % 2 == 1 else Bit(w / 2, i - 1)
  }

  /** The bits of the first n counters that are positive. */
  ghost function BitmapOf(counts: seq<int>, n: nat): nat
    requires n <= |counts|
  {
    if n == 0 then 0
    else BitmapOf(counts, n - 1) + (if counts[n - 1] > 0 then Pow2(n - 1) else 0)
  }

  /** Adding a bit above all the others sets it and changes no lower one. */
  lemma {:induction false} AddHighBit(w: nat, n: nat, i: nat)
    requires w < Pow2(n) && i <= n
    ensures Bit(w + Pow2(n), i) <==> (i == n || Bit(w, i))
    ensures !Bit(w, n)
  {
    if n > 0 {
      assert (w + Pow2(n)) / 2 == w / 2 + Pow2(n - 1);
      AddHighBit(w / 2, n - 1, if i == 0 then 0 else i - 1);
    }
  }

  lemma {:induction false} NoBits(i: nat)
    ensures !Bit(0, i)
  {
    if i > 0 {
      NoBits(i - 1);
    }
  }

  /** The rebuilt bitmap has exactly the bits of the positive counters. */
  lemma {:induction false} BitmapBits(counts: seq<int>, n: nat)
    requires n <= |counts|
    ensures BitmapOf(counts, n) < Pow2(n)
    ensures forall i: nat :: i < n ==> (Bit(BitmapOf(counts, n), i) <==> counts[i] > 0)
  {
    if n > 0 {
      BitmapBits(counts, n - 1);
      var w := BitmapOf(counts, n - 1);
      assert Pow2(n) == 2 * Pow2(n - 1);
      forall i: nat | i < n
        ensures Bit(BitmapOf(counts, n), i) <==> counts[i] > 0
      {
        AddHighBit(w, n - 1, i);
      }
    }
  }

  /** The rebuild loop of the publish functions. */
  method RebuildBitmap(counts: seq<int>) returns (w: nat)
    ensures w == BitmapOf(counts, |counts|)
    ensures forall i: nat :: i < |counts| ==> (Bit(w, i) <==> counts[i] > 0)
  {
    w := 0;
    for i := 0 to |counts|
      invariant w == BitmapOf(counts, i)
    {
      if counts[i] > 0 {
        w := w + Pow2(i);
      }
    }
    BitmapBits(counts, |counts|);
  }
}
