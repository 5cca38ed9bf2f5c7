/** A linear congruential mangling of an `int`, reduced by a power-of-two
    mask. The fields are read-only and set once by the constructor. */
module Lcg {
  import opened Numeric

  datatype LinearCongruentialGenerator = LinearCongruentialGenerator(a: I32, c: I32, mmask: I32)

  /** C#'s `1 << n` on `int`: the shift count is `n & 31` and the result wraps. */
  function ShiftOne(n: I32): I32 {
    ToInt32(Pow2(And32(n, 31)))
  }

  /** The constructor: `mmask = (1 << mlog2) - 1` in wrapping `int` arithmetic. */
  function New(a: I32, c: I32, mlog2: I32): (g: LinearCongruentialGenerator)
    ensures g.a == a && g.c == c
    ensures g.mmask == Pow2(mlog2 % 32) - 1
    ensures 0 <= mlog2 <= 30 ==> g.mmask == Pow2(mlog2) - 1
  {
    var mmask := ToInt32(ShiftOne(mlog2) - 1);
    assert mmask == Pow2(mlog2 % 32) - 1 by {
      ShiftCount(mlog2);
      MaskOfShift(mlog2 % 32, Pow2(mlog2 % 32));
    }
    assert 0 <= mlog2 <= 30 ==> mlog2 % 32 == mlog2 by {
      if 0 <= mlog2 <= 30 { ModUnique(mlog2, 32, 0, mlog2); }
    }
    LinearCongruentialGenerator(a, c, mmask)
  }

  /** The shift count of `1 << n` is `n` modulo 32. */
  lemma ShiftCount(n: I32)
    ensures And32(n, 31) == n % 32
  {
    AndLowMask(n, 5);
    assert Pow2(5) == 32;
  }

  /** `(1 << k) - 1` is `2^k - 1` for every count `k`, `p` standing for
      `2^k`; also for `k == 31`, where `1 << 31` wraps to the most negative
      `int` and subtracting one wraps back to the largest. */
  lemma MaskOfShift(k: nat, p: int)
    requires k < 32 && p == Pow2(k)
    ensures ToInt32(ToInt32(p) - 1) == p - 1
  {
    assert 1 <= p <= TWO31 by {
      Pow2Monotone(k, 31);
      Pow2Of31();
    }
    if p < TWO31 {
      ToInt32Id(p);
      ToInt32Id(p - 1);
    } else {
      assert ToInt32(TWO31) == -TWO31 by {
        ModUnique(TWO31, TWO32, 0, TWO31);
      }
      assert ToInt32(-TWO31 - 1) == TWO31 - 1 by {
        ModUnique(-TWO31 - 1, TWO32, -1, TWO31 - 1);
      }
    }
  }

  /** `(x * a + c) & mmask` with wrapping multiplication and addition. */
  function Shuffle(g: LinearCongruentialGenerator, x: I32): I32 {
    var v := ToInt32(ToInt32(x * g.a) + g.c);
    var r := And32(v, g.mmask);
    assert r <= g.mmask || g.mmask < 0 by {
      if g.mmask >= 0 { assert g.mmask % TWO32 == g.mmask by { ModUnique(g.mmask, TWO32, 0, g.mmask); } }
    }
    ToInt32(r)
  }

  /** The shuffled value is the exact `x * a + c` reduced modulo the bound
      `2^(mlog2 & 31)`: wrap-around in the 32-bit arithmetic never shows. */
  lemma ShuffleIsResidue(a: I32, c: I32, mlog2: I32, x: I32)
    ensures var k := mlog2 % 32;
      Shuffle(New(a, c, mlog2), x) == (x * a + c) % Pow2(k)
  {
    var g := New(a, c, mlog2);
    var k: nat := mlog2 % 32;
    var p := Pow2(k);
    var inner := ToInt32(x * a);
    var v := ToInt32(inner + c);
    assert g.mmask == p - 1;
    assert And32(v, g.mmask) == v % p by { AndLowMask(v, k); }
    assert v % p == (x * a + c) % p by { WrappedResidue(x * a, c, k); }
    assert ToInt32(v % p) == v % p by {
      Pow2Of32();
      Pow2Monotone(k, 31);
      ToInt32Id(v % p);
    }
  }

  /** Wrapping a product and then a sum keeps their residue modulo `2^k`. */
  lemma WrappedResidue(m: int, c: int, k: nat)
    requires k <= 32
    ensures ToInt32(ToInt32(m) + c) % Pow2(k) == (m + c) % Pow2(k)
  {
    var p := Pow2(k);
    var inner := ToInt32(m);
    assert ToInt32(inner + c) % p == (inner + c) % p by { ToInt32Residue(inner + c, k); }
    assert (inner + c) % p == (inner % p + c) % p by { ModAdd(inner, c, p); }
    assert inner % p == m % p by { ToInt32Residue(m, k); }
    assert (m % p + c) % p == (m + c) % p by { ModAdd(m, c, p); }
  }

  /** For `0 <= mlog2 <= 30` the result lies in `[0, 2^mlog2 - 1]`, and with
      `mlog2 == 0` it is always 0. */
  lemma ShuffleBounds(a: I32, c: I32, mlog2: I32, x: I32)
    requires 0 <= mlog2 <= 30
    ensures 0 <= Shuffle(New(a, c, mlog2), x) <= Pow2(mlog2) - 1
    ensures mlog2 == 0 ==> Shuffle(New(a, c, mlog2), x) == 0
  {
    ShuffleIsResidue(a, c, mlog2, x);
  }
}
