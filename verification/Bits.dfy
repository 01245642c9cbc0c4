/** Single bits of a machine word: `(w >> k) & 1`, `w | 1 << k` and `w & ~(1 << k)`. */
module Bits {
  function Pow2(n: nat): (p: nat)
    ensures p > 0
  {
    if n == 0 then 1 else 2 * Pow2(n - 1)
  }

  predicate TestBit(w: nat, k: nat)
    decreases k
  {
    if k == 0 then w % 2 == 1 else TestBit(w / 2, k - 1)
  }

  function SetBit(w: nat, k: nat): nat
    decreases k
  {
    if k == 0 then w / 2 * 2 + 1 else SetBit(w / 2, k - 1) * 2 + w % 2
  }

  function ClearBit(w: nat, k: nat): nat
    decreases k
  {
    if k == 0 then w / 2 * 2 else ClearBit(w / 2, k - 1) * 2 + w % 2
  }

  /** OR-ing in one bit sets it and leaves the rest. */
  lemma {:induction false} TestSet(w: nat, k: nat, j: nat)
    ensures TestBit(SetBit(w, k), j) <==> j == k || TestBit(w, j)
    decreases k
  {
    if k == 0 {
      if j > 0 {
        assert SetBit(w, 0) / 2 == w / 2;
      }
    } else {
      assert SetBit(w, k) / 2 == SetBit(w / 2, k - 1);
      if j > 0 {
        TestSet(w / 2, k - 1, j - 1);
      }
    }
  }

  lemma {:induction false} TestClear(w: nat, k: nat, j: nat)
    ensures TestBit(ClearBit(w, k), j) <==> j != k && TestBit(w, j)
    decreases k
  {
    if k == 0 {
      if j > 0 {
        assert ClearBit(w, 0) / 2 == w / 2;
      }
    } else {
      assert ClearBit(w, k) / 2 == ClearBit(w / 2, k - 1);
      if j > 0 {
        TestClear(w / 2, k - 1, j - 1);
      }
    }
  }

  lemma {:induction false} SetBound(w: nat, k: nat, n: nat)
    requires w < Pow2(n) && k < n
    ensures SetBit(w, k) < Pow2(n)
    decreases k
  {
    if k > 0 {
      SetBound(w / 2, k - 1, n - 1);
    }
  }

  lemma {:induction false} ClearBound(w: nat, k: nat, n: nat)
    requires w < Pow2(n)
    ensures ClearBit(w, k) < Pow2(n)
    decreases k
  {
    if k > 0 && n > 0 {
      ClearBound(w / 2, k - 1, n - 1);
    }
    if k > 0 && n == 0 {
      ClearBound(0, k - 1, 0);
    }
  }

  lemma {:induction false} TestZero(k: nat)
    ensures !TestBit(0, k)
    decreases k
  {
    if k > 0 {
      TestZero(k - 1);
    }
  }

  /** Every bit of a word of n ones is set. */
  lemma {:induction false} OnesSet(n: nat, k: nat)
    requires k < n
    ensures TestBit(Pow2(n) - 1, k)
    decreases k
  {
    if k > 0 {
      OnesSet(n - 1, k - 1);
      assert (Pow2(n) - 1) / 2 == Pow2(n - 1) - 1;
    }
  }

  /** A word with n bits set out of n is all ones. */
  lemma {:induction false} OnlyOnes(w: nat, n: nat)
    requires w < Pow2(n) && forall k :: 0 <= k < n ==> TestBit(w, k)
    ensures w == Pow2(n) - 1
    decreases n
  {
    if n > 0 {
      assert TestBit(w, 0);
      forall k | 0 <= k < n - 1
        ensures TestBit(w / 2, k)
      {
        assert TestBit(w, k + 1);
      }
      OnlyOnes(w / 2, n - 1);
    }
  }

  /** Bit k of a word is the parity of its quotient by 2 to the k. */
  lemma {:induction false} TestBitMeans(w: nat, k: nat, high: nat, low: nat)
    requires w == Pow2(k) * high + low && low < Pow2(k)
    ensures TestBit(w, k) <==> high % 2 == 1
    decreases k
  {
    if k == 0 {
      assert Pow2(0) == 1;
    } else {
      var p := Pow2(k - 1) * high;
      assert Pow2(k) * high == 2 * p;
      assert w / 2 == p + low / 2;
      TestBitMeans(w / 2, k - 1, high, low / 2);
    }
  }
}
