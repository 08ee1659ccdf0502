/** Bits of non-negative integers, numbered from the least significant one. */
module Bits {
  function Pow2(k: nat): (p: nat)
    ensures p > 0
  {
    if k == 0 then 1 else 2 * Pow2(k - 1)
  }

  lemma Pow2Values()
    ensures Pow2(8) == 0x100 && Pow2(16) == 0x1_0000
  {
    assert Pow2(4) == 16;
    assert Pow2(8) == 0x100;
    assert Pow2(12) == 0x1000;
  }

  /** (w >> k) & 1, as a boolean. */
  predicate BitAt(w: nat, k: nat)
  {
    if k == 0 then w % 2 == 1 else BitAt(w / 2, k - 1)
  }

  /** w | (1 << k). */
  function SetAt(w: nat, k: nat): nat
  {
    if k == 0 then w / 2 * 2 + 1 else SetAt(w / 2, k - 1) * 2 + w % 2
  }

  lemma {:induction false} SetAtBits(w: nat, k: nat, j: nat)
    ensures BitAt(SetAt(w, k), j) <==> BitAt(w, j) || j == k
  {
    if k > 0 && j > 0 {
      SetAtBits(w / 2, k - 1, j - 1);
    }
  }

  lemma {:induction false} SetAtRange(w: nat, k: nat, n: nat)
    requires w < Pow2(n) && k < n
    ensures SetAt(w, k) < Pow2(n)
  {
    if k > 0 {
      SetAtRange(w / 2, k - 1, n - 1);
    }
  }

  lemma {:induction false} NoBitsOfZero(k: nat)
    ensures !BitAt(0, k)
  {
    if k > 0 {
      NoBitsOfZero(k - 1);
    }
  }

  /** Numbers below 2^n are determined by their n bits. */
  lemma {:induction false} SameBits(v: nat, w: nat, n: nat)
    requires v < Pow2(n) && w < Pow2(n) && forall k: nat | k < n :: BitAt(v, k) <==> BitAt(w, k)
    ensures v == w
  {
    if n > 0 {
      assert BitAt(v, 0) <==> BitAt(w, 0);
      forall k: nat | k < n - 1
        ensures BitAt(v / 2, k) <==> BitAt(w / 2, k)
      {
        assert BitAt(v, k + 1) <==> BitAt(w, k + 1);
      }
      SameBits(v / 2, w / 2, n - 1);
    }
  }

  lemma {:induction false} Pow2Bits(k: nat, j: nat)
    ensures BitAt(Pow2(k), j) <==> j == k
  {
    if j == 0 {
    } else if k == 0 {
      NoBitsOfZero(j - 1);
    } else {
      Pow2Bits(k - 1, j - 1);
    }
  }

  /** A number that is not zero has a bit. */
  lemma {:induction false} SomeBit(w: nat, n: nat) returns (k: nat)
    requires 0 < w < Pow2(n)
    ensures k < n && BitAt(w, k)
  {
    if w % 2 == 1 {
      k := 0;
    } else {
      k := SomeBit(w / 2, n - 1);
      k := k + 1;
    }
  }

  lemma {:induction false} Pow2Monotone(j: nat, k: nat)
    requires j < k
    ensures Pow2(j) < Pow2(k)
  {
    if j < k - 1 {
      Pow2Monotone(j, k - 1);
    }
  }
}
