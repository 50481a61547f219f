/**
 * Integer facts the Hamming layout rests on: exact powers of two (the
 * source's Math.pow(2, k) for k >= 0), the bits of a non-negative integer,
 * and the test "is a power of two" that tells parity positions apart from
 * data positions.
 */
module BitMath {

  /** 2^k, exactly. */
  function Pow2(k: nat): (r: nat)
    ensures r >= 1
  {
    if k == 0 then 1 else 2 * Pow2(k - 1)
  }

  /** Bit j of i, counting the least significant bit as bit 0. */
  function Bit(i: nat, j: nat): bool
  {
    if j == 0 then i % 2 == 1 else Bit(i / 2, j - 1)
  }

  /** Floor of the base-2 logarithm. */
  function Log2(i: nat): nat
    requires i >= 1
  {
    if i == 1 then 0 else 1 + Log2(i / 2)
  }

  /** i is 1 or an even number whose half is a power of two. */
  predicate IsPow2(i: int)
    decreases if i < 0 then 0 else i
  {
    if i < 1 then false else if i == 1 then true else i % 2 == 0 && IsPow2(i / 2)
  }

  lemma {:induction false} Pow2Monotone(a: nat, b: nat)
    requires a < b
    ensures Pow2(a) < Pow2(b)
  {
    if b - 1 > a {
      Pow2Monotone(a, b - 1);
    }
  }

  /** An exponent whose power does not exceed 2^(p-1) lies below p. */
  lemma Pow2Below(k: nat, p: nat)
    requires 1 <= p && Pow2(k) <= Pow2(p - 1)
    ensures k < p
  {
    if k >= p {
      Pow2Monotone(p - 1, k);
    }
  }

  /** An exponent k <= p whose power exceeds 2^(p-1) (or p = 0) is p itself. */
  lemma Pow2Exit(k: nat, p: nat)
    requires k <= p && !(p >= 1 && Pow2(k) <= Pow2(p - 1))
    ensures k == p
  {
    if k + 1 < p {
      Pow2Monotone(k, p - 1);
    }
  }

  /** Powers of two outgrow k: 2^k >= k + 1, and 2^k >= 2k. */
  lemma {:induction false} Pow2Grows(k: nat)
    ensures Pow2(k) >= k + 1
    ensures Pow2(k) >= 2 * k
  {
    if k > 0 {
      Pow2Grows(k - 1);
    }
  }

  lemma {:induction false} Log2Bounds(i: nat)
    requires i >= 1
    ensures Pow2(Log2(i)) <= i < Pow2(Log2(i) + 1)
  {
    if i > 1 {
      Log2Bounds(i / 2);
    }
  }

  /** Log2 is determined by the interval [2^k, 2^(k+1)) the number lies in. */
  lemma Log2Unique(i: nat, k: nat)
    requires Pow2(k) <= i < Pow2(k + 1)
    ensures Log2(i) == k
  {
    Log2Bounds(i);
    if Log2(i) < k {
      Pow2Monotone(Log2(i) + 1, k);
      assert false;
    } else if Log2(i) > k {
      Pow2Monotone(k + 1, Log2(i));
      assert false;
    }
  }

  lemma {:induction false} PowIsPow2(k: nat)
    ensures IsPow2(Pow2(k))
    ensures Log2(Pow2(k)) == k
  {
    if k > 0 {
      PowIsPow2(k - 1);
      assert Pow2(k) / 2 == Pow2(k - 1);
    }
  }

  /** A power of two is 2 raised to its logarithm. */
  lemma {:induction false} Pow2OfLog(i: int)
    requires IsPow2(i)
    ensures Pow2(Log2(i)) == i
  {
    if i > 1 {
      Pow2OfLog(i / 2);
    }
  }

  /** No number strictly between two consecutive powers of two is a power of two. */
  lemma NotPow2Between(i: nat, k: nat)
    requires Pow2(k) < i < Pow2(k + 1)
    ensures !IsPow2(i)
  {
    Log2Unique(i, k);
    if IsPow2(i) {
      Pow2OfLog(i);
    }
  }

  lemma {:induction false} BitZero(j: nat)
    ensures !Bit(0, j)
  {
    if j > 0 {
      BitZero(j - 1);
    }
  }

  /** A power of two has exactly one bit set. */
  lemma {:induction false} BitOfPow2(k: nat, j: nat)
    ensures Bit(Pow2(k), j) <==> k == j
  {
    if j == 0 {
    } else if k == 0 {
      BitZero(j - 1);
    } else {
      assert Pow2(k) / 2 == Pow2(k - 1);
      BitOfPow2(k - 1, j - 1);
    }
  }

  /** A number with bit j set is at least 2^j. */
  lemma {:induction false} BitBelow(i: nat, j: nat)
    requires Bit(i, j)
    ensures i >= Pow2(j)
  {
    if j > 0 {
      BitBelow(i / 2, j - 1);
    }
  }

  /** Two numbers below 2^p that differ have a differing bit below p. */
  lemma {:induction false} DifferingBit(a: nat, b: nat, p: nat) returns (j: nat)
    requires a < Pow2(p) && b < Pow2(p) && a != b
    ensures j < p && Bit(a, j) != Bit(b, j)
  {
    if a % 2 != b % 2 {
      j := 0;
      if p == 0 {
        assert false;
      }
    } else {
      assert p > 0 && a / 2 < Pow2(p - 1) && b / 2 < Pow2(p - 1) && a / 2 != b / 2;
      var j' := DifferingBit(a / 2, b / 2, p - 1);
      j := j' + 1;
    }
  }

  /** A positive number below 2^p has some bit below p set. */
  lemma NonzeroBit(a: nat, p: nat) returns (j: nat)
    requires 1 <= a < Pow2(p)
    ensures j < p && Bit(a, j)
  {
    j := DifferingBit(a, 0, p);
    BitZero(j);
  }
}
