/** Bit operations on non-negative integers, written out the way C# evaluates
    `x >> s`, `x & y` and `x | y` on non-negative `int`s.  The jump tables of
    the trie rely on them: a dispatch slot is `(c >> shift) & mask` and the
    case-insensitive transform is `c | 32`. */
module Bits {

  /** 2^k */
  function Pow2(k: nat): (r: nat)
    ensures r >= 1
  {
    if k == 0 then 1 else 2 * Pow2(k - 1)
  }

  /** `x >> s` for non-negative x: s halvings. */
  function Shr(x: nat, s: nat): (r: nat)
    ensures r <= x
  {
    if s == 0 then x else Shr(x / 2, s - 1)
  }

  /** `x & y`, bit by bit from the least significant bit. */
  function BitAnd(x: nat, y: nat): (r: nat)
    ensures r <= x && r <= y
  {
    if x == 0 || y == 0 then 0
    else 2 * BitAnd(x / 2, y / 2) + (if x % 2 == 1 && y % 2 == 1 then 1 else 0)
  }

  /** `x | y`, bit by bit from the least significant bit. */
  function BitOr(x: nat, y: nat): (r: nat)
    ensures x <= r && y <= r && r <= x + y
  {
    if x == 0 then y
    else if y == 0 then x
    else 2 * BitOr(x / 2, y / 2) + (if x % 2 == 1 || y % 2 == 1 then 1 else 0)
  }

  /** Bit k of x. */
  predicate BitSet(x: nat, k: nat) {
    Shr(x, k) % 2 == 1
  }

  /** A value below 2^k is unchanged by the mask 2^k - 1. */
  lemma {:induction false} AndLowMask(x: nat, k: nat)
    requires x < Pow2(k)
    ensures BitAnd(x, Pow2(k) - 1) == x
  {
    if k > 0 && x > 0 {
      assert (Pow2(k) - 1) / 2 == Pow2(k - 1) - 1;
      assert (Pow2(k) - 1) % 2 == 1;
      AndLowMask(x / 2, k - 1);
    }
  }

  /** The conjunction of two all-ones masks is the shorter mask. */
  lemma {:induction false} AndAllOnes(j: nat, k: nat)
    ensures BitAnd(Pow2(j) - 1, Pow2(k) - 1) == Pow2(if j <= k then j else k) - 1
  {
    if j > 0 && k > 0 {
      assert (Pow2(j) - 1) / 2 == Pow2(j - 1) - 1 && (Pow2(j) - 1) % 2 == 1;
      assert (Pow2(k) - 1) / 2 == Pow2(k - 1) - 1 && (Pow2(k) - 1) % 2 == 1;
      AndAllOnes(j - 1, k - 1);
    }
  }

  /** Under an all-ones mask, anything at most 2^j - 1 lands at most where
      2^j - 1 lands. */
  lemma AndAllOnesMonotone(a: nat, j: nat, k: nat)
    requires a <= Pow2(j) - 1
    ensures BitAnd(a, Pow2(k) - 1) <= BitAnd(Pow2(j) - 1, Pow2(k) - 1)
  {
    AndAllOnes(j, k);
    if j <= k {
      PowMonotone(j, k);
    } else {
      PowMonotone(k, j);
    }
  }

  lemma {:induction false} PowMonotone(j: nat, k: nat)
    requires j <= k
    ensures Pow2(j) <= Pow2(k)
  {
    if j < k {
      PowMonotone(j, k - 1);
    }
  }

  lemma {:induction false} ShrMonotone(a: nat, b: nat, s: nat)
    requires a <= b
    ensures Shr(a, s) <= Shr(b, s)
  {
    if s > 0 {
      ShrMonotone(a / 2, b / 2, s - 1);
    }
  }

  /** Shifting the all-ones value 2^j - 1 right by s gives 2^(j-s) - 1. */
  lemma {:induction false} ShrAllOnes(j: nat, s: nat)
    requires s <= j
    ensures Shr(Pow2(j) - 1, s) == Pow2(j - s) - 1
  {
    if s > 0 {
      assert (Pow2(j) - 1) / 2 == Pow2(j - 1) - 1;
      ShrAllOnes(j - 1, s - 1);
    }
  }

  /** Setting bit k adds 2^k exactly when that bit was clear. */
  lemma {:induction false} OrPow2(x: nat, k: nat)
    ensures BitOr(x, Pow2(k)) == if BitSet(x, k) then x else x + Pow2(k)
  {
    if k == 0 {
      if x > 0 {
        assert BitOr(x / 2, 0) == x / 2;
      }
    } else if x > 0 {
      assert Pow2(k) / 2 == Pow2(k - 1) && Pow2(k) % 2 == 0;
      OrPow2(x / 2, k - 1);
    }
  }

  lemma {:induction false} ShrAddPow2(x: nat, k: nat)
    ensures Shr(x + Pow2(k), k) == Shr(x, k) + 1
  {
    if k > 0 {
      assert (x + Pow2(k)) / 2 == x / 2 + Pow2(k - 1);
      ShrAddPow2(x / 2, k - 1);
    }
  }

  /** Setting a bit twice is setting it once. */
  lemma OrPow2Idempotent(x: nat, k: nat)
    ensures BitOr(BitOr(x, Pow2(k)), Pow2(k)) == BitOr(x, Pow2(k))
  {
    var y := BitOr(x, Pow2(k));
    OrPow2(x, k);
    if !BitSet(x, k) {
      assert y == x + Pow2(k);
      ShrAddPow2(x, k);
      assert BitSet(y, k);
      OrPow2(y, k);
    }
  }

  lemma ShrFive(x: nat)
    ensures Shr(x, 5) == x / 32
  {
    calc {
      Shr(x, 5);
      Shr(x / 2, 4);
      Shr(x / 2 / 2, 3);
      Shr(x / 2 / 2 / 2, 2);
      Shr(x / 2 / 2 / 2 / 2, 1);
      Shr(x / 2 / 2 / 2 / 2 / 2, 0);
    }
  }

  /** No bit of 0 is set. */
  lemma {:induction false} NoBitOfZero(j: nat)
    ensures !BitSet(0, j)
  {
    if j > 0 {
      NoBitOfZero(j - 1);
    }
  }

  /** `x | (1 << k)` has exactly the bits of x and bit k. */
  lemma {:induction false} BitSetOrPow2(x: nat, k: nat, j: nat)
    ensures BitSet(BitOr(x, Pow2(k)), j) <==> (BitSet(x, j) || j == k)
  {
    var r := BitOr(x, Pow2(k));
    if k == 0 {
      if x == 0 {
        assert r == 1;
        NoBitOfZero(j);
        if j > 0 {
          NoBitOfZero(j - 1);
          assert Shr(1, j) == Shr(0, j - 1);
        }
      } else {
        assert r == 2 * (x / 2) + 1;
        if j > 0 {
          assert r / 2 == x / 2;
        }
      }
    } else {
      assert Pow2(k) / 2 == Pow2(k - 1) && Pow2(k) % 2 == 0;
      if x == 0 {
        assert r == Pow2(k);
        NoBitOfZero(j);
        BitSetPow2(k, j);
      } else {
        assert r == 2 * BitOr(x / 2, Pow2(k - 1)) + x % 2;
        if j > 0 {
          assert r / 2 == BitOr(x / 2, Pow2(k - 1));
          BitSetOrPow2(x / 2, k - 1, j - 1);
        }
      }
    }
  }

  /** 2^k has bit k only. */
  lemma {:induction false} BitSetPow2(k: nat, j: nat)
    ensures BitSet(Pow2(k), j) <==> j == k
  {
    if k == 0 {
      if j > 0 {
        NoBitOfZero(j - 1);
      }
    } else if j == 0 {
      assert Pow2(k) % 2 == 0;
    } else {
      assert Pow2(k) / 2 == Pow2(k - 1);
      BitSetPow2(k - 1, j - 1);
    }
  }

  /** `(x & (1 << k)) != 0` tests bit k. */
  lemma {:induction false} AndPow2TestsBit(x: nat, k: nat)
    ensures BitAnd(x, Pow2(k)) != 0 <==> BitSet(x, k)
  {
    if x == 0 {
      NoBitOfZero(k);
    } else if k == 0 {
      assert BitAnd(x, 1) == 2 * BitAnd(x / 2, 0) + (if x % 2 == 1 then 1 else 0);
    } else {
      assert Pow2(k) / 2 == Pow2(k - 1) && Pow2(k) % 2 == 0;
      assert BitAnd(x, Pow2(k)) == 2 * BitAnd(x / 2, Pow2(k - 1));
      AndPow2TestsBit(x / 2, k - 1);
    }
  }

  /** Adding 2^k does not change the bits below k. */
  lemma {:induction false} AndMaskAddPow2(x: nat, k: nat)
    ensures BitAnd(x + Pow2(k), Pow2(k) - 1) == BitAnd(x, Pow2(k) - 1)
  {
    if k > 0 {
      assert (Pow2(k) - 1) / 2 == Pow2(k - 1) - 1 && (Pow2(k) - 1) % 2 == 1;
      assert (x + Pow2(k)) / 2 == x / 2 + Pow2(k - 1) && (x + Pow2(k)) % 2 == x % 2;
      AndMaskAddPow2(x / 2, k - 1);
      if x == 0 {
        assert BitAnd(0, Pow2(k - 1) - 1) == 0;
      }
    }
  }

  /** `x & 63` is `x % 64` for a non-negative x. */
  lemma {:induction false} LowSixBits(x: nat)
    ensures BitAnd(x, 63) == x % 64
    decreases x
  {
    assert Pow2(6) == 64;
    if x < 64 {
      AndLowMask(x, 6);
    } else {
      var y: nat := x - 64;
      LowSixBits(y);
      AndMaskAddPow2(y, 6);
      assert (y + 64) % 64 == y % 64;
    }
  }
}
