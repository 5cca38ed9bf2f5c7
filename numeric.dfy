/** Integer helpers shared by every sampler: powers of two, 32-bit
    reinterpretation (two's complement), and bitwise AND, defined bit by bit
    so that the masks of the C# code can be modelled literally. */
module Numeric {

  /** An unsigned 32-bit value (C# `uint`) as a mathematical integer. */
  type U32 = v: int | 0 <= v < 0x1_0000_0000

  /** A signed 32-bit value (C# `int`) as a mathematical integer. */
  type I32 = v: int | -0x8000_0000 <= v < 0x8000_0000

  const TWO32: int := 0x1_0000_0000
  const TWO31: int := 0x8000_0000

  function Pow2(n: nat): (r: nat)
    ensures r >= 1
  {
    if n == 0 then 1 else 2 * Pow2(n - 1)
  }

  lemma {:induction false} Pow2Add(a: nat, b: nat)
    ensures Pow2(a + b) == Pow2(a) * Pow2(b)
  {
    if a > 0 {
      Pow2Add(a - 1, b);
      assert Pow2(a + b) == 2 * Pow2(a - 1 + b);
    }
  }

  lemma {:induction false} Pow2Monotone(a: nat, b: nat)
    requires a <= b
    ensures Pow2(a) <= Pow2(b)
  {
    if a < b {
      Pow2Monotone(a, b - 1);
    }
  }

  lemma Pow2Of32()
    ensures Pow2(8) == 256
    ensures Pow2(15) == 0x8000
    ensures Pow2(16) == 0x1_0000
    ensures Pow2(32) == TWO32
  {
    assert Pow2(4) == 16;
    assert Pow2(8) == 256 by { Pow2Add(4, 4); }
    assert Pow2(16) == 0x1_0000 by { Pow2Add(8, 8); }
    assert Pow2(15) == 0x8000;
    Pow2Add(16, 16);
  }

  lemma Pow2Of31()
    ensures Pow2(30) == 0x4000_0000
    ensures Pow2(31) == TWO31
  {
    Pow2Of32();
    Pow2Add(15, 15);
    Pow2Add(15, 16);
  }

  /** `Pow2(k)` divides `Pow2(n)` for `k <= n`. */
  lemma Pow2Divides(k: nat, n: nat)
    requires k <= n
    ensures Pow2(n) == Pow2(k) * Pow2(n - k)
    ensures Pow2(n) % Pow2(k) == 0
  {
    Pow2Add(k, n - k);
    MulMod(Pow2(n - k), Pow2(k));
  }

  lemma MulMod(q: int, d: int)
    requires d > 0
    ensures (d * q) % d == 0
  {
    ModUnique(d * q, d, q, 0);
  }

  /** A positive multiple of a positive number is at least that number. */
  lemma MulAtLeast(d: int, k: int)
    requires d > 0 && k >= 1
    ensures d * k >= d
  {
    var j := k - 1;
    assert d * k == d * j + d;
    assert d * j >= 0;
  }

  /** Uniqueness of Euclidean division: the quotient and remainder are determined. */
  lemma ModUnique(u: int, d: int, q: int, r: int)
    requires d > 0 && 0 <= r < d && u == d * q + r
    ensures u / d == q && u % d == r
  {
    var q', r' := u / d, u % d;
    assert u == d * q' + r';
    if q' < q {
      assert d * (q - q') == r' - r;
      MulAtLeast(d, q - q');
    } else if q' > q {
      assert d * (q' - q) == r - r';
      MulAtLeast(d, q' - q);
    }
  }

  /** Reducing modulo a multiple of `d` does not change the residue modulo `d`. */
  lemma ModOfMod(u: int, d: int, m: int)
    requires d > 0 && m > 0
    ensures (u % (d * m)) % d == u % d
  {
    var q, r := u / (d * m), u % (d * m);
    assert u == (d * m) * q + r;
    var q2, r2 := r / d, r % d;
    assert r == d * q2 + r2;
    assert u == d * (m * q + q2) + r2;
    ModUnique(u, d, m * q + q2, r2);
  }

  lemma MulMonotone(c: int, x: int, y: int)
    requires c >= 0 && x <= y
    ensures c * x <= c * y
  {
    assert c * y - c * x == c * (y - x);
  }

  /** `(u / a) / b == u / (a * b)` for positive divisors. */
  lemma DivDiv(u: int, a: int, b: int)
    requires a > 0 && b > 0
    ensures (u / a) / b == u / (a * b)
  {
    var q1, r1 := u / a, u % a;
    var q2, r2 := q1 / b, q1 % b;
    assert u == a * q1 + r1;
    assert q1 == b * q2 + r2;
    assert a * q1 == (a * b) * q2 + a * r2 by {
      assert a * (b * q2 + r2) == a * (b * q2) + a * r2;
      assert a * (b * q2) == (a * b) * q2;
    }
    MulMonotone(a, r2, b - 1);
    assert a * (b - 1) == a * b - a;
    ModUnique(u, a * b, q2, a * r2 + r1);
  }

  /** Adding a multiple of the modulus does not change the residue. */
  lemma DivMod(u: int, d: int)
    requires d > 0
    ensures u == d * (u / d) + u % d
  {
  }

  lemma MulSub(a: int, b: int, c: int)
    ensures a * (b - c) == a * b - a * c
  {
  }

  lemma ModAddMultiple(x: int, m: int, k: int)
    requires m > 0
    ensures (x + m * k) % m == x % m
  {
    var q, r := x / m, x % m;
    assert x + m * k == m * (q + k) + r;
    ModUnique(x + m * k, m, q + k, r);
  }

  /** Residues are compatible with multiplication. */
  lemma ModMul(a: int, b: int, m: int)
    requires m > 0
    ensures ((a % m) * b) % m == (a * b) % m
  {
    var q, r := a / m, a % m;
    assert a * b == r * b + m * (q * b);
    ModAddMultiple(r * b, m, q * b);
  }

  /** Residues are compatible with addition. */
  lemma ModAdd(a: int, b: int, m: int)
    requires m > 0
    ensures ((a % m) + b) % m == (a + b) % m
  {
    var q, r := a / m, a % m;
    assert a + b == (r + b) + m * q;
    ModAddMultiple(r + b, m, q);
  }

  /** The C# reinterpretation `(uint)v` of an integer's low 32 bits. */
  function ToUInt32(v: int): U32 {
    v % TWO32
  }

  /** The C# reinterpretation `(int)v`, or the result of `unchecked` int
      arithmetic, of an integer's low 32 bits. */
  function ToInt32(v: int): I32 {
    var u := ToUInt32(v);
    if u < TWO31 then u else u - TWO32
  }

  /** `(uint)v` differs from `v` by a multiple of 2^32. */
  lemma ToUInt32Wraps(v: int)
    ensures (ToUInt32(v) - v) % TWO32 == 0
  {
    assert ToUInt32(v) - v == TWO32 * -(v / TWO32);
    MulMod(-(v / TWO32), TWO32);
  }

  /** `(int)v` keeps the low 32 bits of `v`. */
  lemma ToInt32Wraps(v: int)
    ensures ToUInt32(ToInt32(v)) == ToUInt32(v)
  {
    var u := ToUInt32(v);
    ModUnique(ToInt32(v), TWO32, if u < TWO31 then 0 else -1, u);
  }

  /** Values with the same low 32 bits reinterpret to the same `int`. */
  lemma ToInt32Congruent(a: int, b: int)
    requires ToUInt32(a) == ToUInt32(b)
    ensures ToInt32(a) == ToInt32(b)
  {
  }

  /** A value already in the `int` range is its own reinterpretation. */
  lemma ToInt32Id(v: int)
    requires -TWO31 <= v < TWO31
    ensures ToInt32(v) == v
  {
    if v >= 0 {
      ModUnique(v, TWO32, 0, v);
    } else {
      ModUnique(v, TWO32, -1, v + TWO32);
    }
  }

  /** Two's-complement reinterpretation keeps the residue modulo any power of
      two up to 2^32. */
  lemma ToInt32Residue(v: int, k: int)
    requires 0 <= k <= 32
    ensures ToInt32(v) % Pow2(k) == v % Pow2(k)
  {
    Pow2Of32();
    Pow2Divides(k, 32);
    var p, p2 := Pow2(k), Pow2(32 - k);
    assert p * p2 == TWO32;
    var w := ToInt32(v);
    ToInt32Wraps(v);
    assert w % TWO32 == v % TWO32;
    ModOfMod(w, p, p2);
    ModOfMod(v, p, p2);
  }

  /** `Math.Max` */
  function Max(a: int, b: int): (m: int)
    ensures m >= a && m >= b
    ensures m == a || m == b
  {
    if a >= b then a else b
  }

  /** `Math.Min` */
  function Min(a: int, b: int): (m: int)
    ensures m <= a && m <= b
    ensures m == a || m == b
  {
    if a <= b then a else b
  }

  function Abs(a: int): (m: int)
    ensures m >= 0 && (m == a || m == -a)
  {
    if a < 0 then -a else a
  }

  /** C#'s `/` on `int`s: the quotient of the magnitudes, negated when the
      signs differ, so it rounds towards zero. */
  function DivT(a: int, b: int): (q: int)
    requires b != 0
  {
    var m := Abs(a) / Abs(b);
    if (a < 0) == (b < 0) then m else -m
  }

  /** `DivT` is truncating division: `q * b` lies between 0 and `a`, less
      than one divisor away from `a`; on non-negative operands it agrees
      with `/`. */
  lemma DivTowardZero(a: int, b: int)
    requires b != 0
    ensures var q := DivT(a, b);
      (0 <= q * b <= a || a <= q * b <= 0) && Abs(a - q * b) < Abs(b)
    ensures a >= 0 && b > 0 ==> DivT(a, b) == a / b
  {
    var m := Abs(a) / Abs(b);
    var p := Abs(b) * m;
    MagnitudeDiv(Abs(a), Abs(b));
    assert DivT(a, b) * b == (if a < 0 then -p else p) by {
      if b > 0 { NegMul(m, b); } else { NegMul(m, -b); }
    }
  }

  /** The quotient of magnitudes leaves a remainder below the divisor. */
  lemma MagnitudeDiv(na: int, nb: int)
    requires na >= 0 && nb > 0
    ensures 0 <= nb * (na / nb) <= na < nb * (na / nb) + nb
  {
    DivMod(na, nb);
    MulMonotone(nb, 0, na / nb);
  }

  lemma NegMul(m: int, b: int)
    ensures (-m) * b == -(b * m) && m * b == b * m && (-m) * (-b) == b * m && m * (-b) == -(b * m)
  {
  }

  /** Bitwise AND of the low `n` bits of `u` and `v`. */
  function BitAnd(u: nat, v: nat, n: nat): (r: nat)
    ensures r < Pow2(n)
    ensures r <= u && r <= v
  {
    if n == 0 then 0
    else (if u % 2 == 1 && v % 2 == 1 then 1 else 0) + 2 * BitAnd(u / 2, v / 2, n - 1)
  }

  /** The C# `&` on 32-bit operands (signed or unsigned), as the unsigned
      bit pattern of the result. */
  function And32(u: int, v: int): (r: U32)
  {
    Pow2Of32();
    BitAnd(u % TWO32, v % TWO32, 32)
  }

  /** Bitwise exclusive OR of the low `n` bits of `u` and `v`. */
  function BitXor(u: nat, v: nat, n: nat): (r: nat)
    ensures r < Pow2(n)
  {
    if n == 0 then 0
    else (if u % 2 != v % 2 then 1 else 0) + 2 * BitXor(u / 2, v / 2, n - 1)
  }

  /** The C# `^` on 32-bit operands, as the unsigned bit pattern of the result. */
  function Xor32(u: int, v: int): (r: U32)
  {
    Pow2Of32();
    BitXor(u % TWO32, v % TWO32, 32)
  }

  lemma {:induction false} BitAndZero(u: nat, n: nat)
    ensures BitAnd(u, 0, n) == 0
  {
  }

  /** The low-bit split of the remainder by a power of two. */
  lemma ModTwice(u: nat, p: nat)
    requires p > 0
    ensures u % (2 * p) == u % 2 + 2 * ((u / 2) % p)
  {
    var b, q := u % 2, u / 2;
    var t, s := q / p, q % p;
    assert u == 2 * q + b;
    assert q == p * t + s;
    assert u == (2 * p) * t + (2 * s + b);
    ModUnique(u, 2 * p, t, 2 * s + b);
  }

  /** ANDing with a mask of `k` low one-bits keeps the residue modulo `2^k`. */
  lemma {:induction false} BitAndLowMask(u: nat, k: nat, n: nat)
    requires k <= n
    ensures BitAnd(u, Pow2(k) - 1, n) == u % Pow2(k)
  {
    if k == 0 {
      BitAndZero(u, n);
      assert Pow2(k) == 1;
    } else {
      var half := Pow2(k - 1);
      assert Pow2(k) == 2 * half;
      BitAndLowMask(u / 2, k - 1, n - 1);
      BitAndOddStep(u, Pow2(k) - 1, n, half);
    }
  }

  /** ANDing with a mask `m` whose low `k` of `n` bits are zero and the
      rest one clears the residue modulo `2^k`. */
  lemma {:induction false} BitAndHighMask(u: nat, m: nat, k: nat, n: nat)
    requires k <= n && u < Pow2(n) && m + Pow2(k) == Pow2(n)
    ensures BitAnd(u, m, n) == u - u % Pow2(k)
  {
    if k == 0 {
      BitAndAllOnes(u, m, n);
    } else {
      var half := Pow2(k - 1);
      assert m / 2 + half == Pow2(n - 1);
      BitAndHighMask(u / 2, m / 2, k - 1, n - 1);
      BitAndEvenStep(u, m, n, half);
    }
  }

  lemma BitAndAllOnes(u: nat, m: nat, n: nat)
    requires u < Pow2(n) && m + 1 == Pow2(n)
    ensures BitAnd(u, m, n) == u - u % Pow2(0)
  {
    BitAndLowMask(u, n, n);
    ModUnique(u, Pow2(n), 0, u);
    assert Pow2(0) == 1;
  }

  /** One step of `BitAndLowMask`: an odd mask keeps the low bit. */
  lemma BitAndOddStep(u: nat, m: nat, n: nat, half: nat)
    requires n > 0 && half > 0 && m == 2 * (half - 1) + 1
    requires BitAnd(u / 2, half - 1, n - 1) == (u / 2) % half
    ensures BitAnd(u, m, n) == u % (2 * half)
  {
    assert m / 2 == half - 1;
    ModTwice(u, half);
  }

  /** One step of `BitAndHighMask`: an even mask contributes no low bit. */
  lemma BitAndEvenStep(u: nat, m: nat, n: nat, half: nat)
    requires n > 0 && half > 0 && m % 2 == 0
    requires BitAnd(u / 2, m / 2, n - 1) == u / 2 - (u / 2) % half
    ensures BitAnd(u, m, n) == u - u % (2 * half)
  {
    ModTwice(u, half);
  }

  /** Masking never exceeds a non-negative mask. */
  lemma AndBelowMask(u: int, m: int)
    requires 0 <= m < TWO32
    ensures And32(u, m) <= m
  {
    ModUnique(m, TWO32, 0, m);
  }

  /** `x & (2^k - 1)` on 32-bit operands is `x` modulo `2^k`, for any sign of `x`. */
  lemma AndLowMask(u: int, k: nat)
    requires k <= 32
    ensures And32(u, Pow2(k) - 1) == u % Pow2(k)
  {
    Pow2Of32();
    Pow2Monotone(k, 32);
    var p, m := Pow2(k), Pow2(k) - 1;
    ModUnique(m, TWO32, 0, m);
    var w := u % TWO32;
    assert And32(u, m) == BitAnd(w, m, 32);
    BitAndLowMask(w, k, 32);
    Pow2Divides(k, 32);
    var p2 := Pow2(32 - k);
    assert p * p2 == TWO32;
    ModOfMod(u, p, p2);
    assert w % p == u % p;
  }

  /** `x & ~(2^k - 1)` on an `int` rounds `x` down to a multiple of `2^k`. */
  lemma AndHighMask(u: I32, k: nat)
    requires k <= 31
    ensures ToInt32(And32(u, -(Pow2(k) as int))) == u - u % Pow2(k)
  {
    var p := Pow2(k);
    var d := u - u % p;
    var a := And32(u, -(p as int));
    var b := u % TWO32 - u % p;
    assert a == b by {
      AndNegPow2(u, k);
      ResidueOfResidue(u, k);
    }
    assert ToInt32(b) == ToInt32(d) by {
      SameResidue(u, u % TWO32, u % p);
      ToInt32Congruent(b, d);
    }
    assert ToInt32(d) == d by {
      MinInt32Multiple(k);
      DownToMultiple(u, p, -TWO31);
      ToInt32Id(d);
    }
  }

  lemma AndNegPow2(u: int, k: nat)
    requires k <= 31
    ensures And32(u, -(Pow2(k) as int)) == u % TWO32 - (u % TWO32) % Pow2(k)
  {
    var p := Pow2(k);
    var m := TWO32 - p;
    var w := u % TWO32;
    assert (-(p as int)) % TWO32 == m by {
      Pow2Monotone(k, 32);
      Pow2Of32();
      ModUnique(-p, TWO32, -1, m);
    }
    assert BitAnd(w, m, 32) == w - w % p by {
      Pow2Monotone(k, 32);
      Pow2Of32();
      BitAndHighMask(w, m, k, 32);
    }
  }

  /** Reducing modulo 2^32 keeps the residue modulo `2^k`. */
  lemma ResidueOfResidue(u: int, k: nat)
    requires k <= 32
    ensures (u % TWO32) % Pow2(k) == u % Pow2(k)
  {
    Pow2Of32();
    Pow2Divides(k, 32);
    var p, p2 := Pow2(k), Pow2(32 - k);
    assert p * p2 == TWO32;
    ModOfMod(u, p, p2);
  }

  /** -2^31 is a multiple of `2^k`. */
  lemma MinInt32Multiple(k: nat)
    requires k <= 31
    ensures (-TWO31) % Pow2(k) == 0
  {
    var p, p2 := Pow2(k), Pow2(31 - k);
    assert p * p2 == TWO31 by {
      Pow2Divides(k, 31);
      Pow2Of32();
      Pow2Add(15, 16);
    }
    assert p * -(p2 as int) == -TWO31;
    MulMod(-(p2 as int), p);
  }

  lemma SameResidue(u: int, w: int, t: int)
    requires w == u % TWO32
    ensures ToUInt32(w - t) == ToUInt32(u - t)
  {
    var q := u / TWO32;
    assert w - t == (u - t) + TWO32 * -q;
    ModAddMultiple(u - t, TWO32, -q);
  }

  /** Rounding down to a multiple of `p` never passes a smaller multiple of `p`. */
  lemma DownToMultiple(u: int, p: int, m: int)
    requires p > 0 && m % p == 0 && m <= u
    ensures m <= u - u % p
  {
    var q, qm := u / p, m / p;
    assert u - u % p == p * q;
    assert m == p * qm;
    assert u < p * (q + 1);
    assert qm <= q by {
      if qm >= q + 1 {
        MulMonotone(p, q + 1, qm);
      }
    }
    MulMonotone(p, qm, q);
  }


  /** Bit 1 of `u ^ v` on 32-bit operands is clear exactly when `u` and `v`
      agree in bit 1, for either sign. */
  lemma XorBitOne(u: int, v: int)
    ensures And32(Xor32(u, v), 2) == 0 <==> (u / 2) % 2 == (v / 2) % 2
  {
    Pow2Of32();
    var a, b := u % TWO32, v % TWO32;
    var x := BitXor(a, b, 32);
    assert Xor32(u, v) == x;
    assert And32(x, 2) == BitAnd(x, 2, 32) by {
      ModUnique(x, TWO32, 0, x);
      ModUnique(2, TWO32, 0, 2);
    }
    BitAndTwo(x);
    BitXorBitOne(a, b);
    BitOneOfResidue(u);
    BitOneOfResidue(v);
  }

  lemma BitAndTwo(x: nat)
    ensures BitAnd(x, 2, 32) == 2 * ((x / 2) % 2)
  {
    assert BitAnd(x, 2, 32) == 2 * BitAnd(x / 2, 1, 31);
    assert BitAnd(x / 2, 1, 31) == (if (x / 2) % 2 == 1 then 1 else 0) + 2 * BitAnd(x / 2 / 2, 0, 30);
    BitAndZero(x / 2 / 2, 30);
  }

  lemma BitXorBitOne(a: nat, b: nat)
    ensures (BitXor(a, b, 32) / 2) % 2 == if (a / 2) % 2 != (b / 2) % 2 then 1 else 0
  {
    var e0 := if a % 2 != b % 2 then 1 else 0;
    var e1 := if (a / 2) % 2 != (b / 2) % 2 then 1 else 0;
    var rest := BitXor(a / 2 / 2, b / 2 / 2, 30);
    assert BitXor(a / 2, b / 2, 31) == e1 + 2 * rest;
    assert BitXor(a, b, 32) == e0 + 2 * (e1 + 2 * rest);
    ModUnique(BitXor(a, b, 32), 2, e1 + 2 * rest, e0);
    ModUnique(e1 + 2 * rest, 2, rest, e1);
  }

  /** Bit 1 of an `int` survives reduction modulo 2^32. */
  lemma BitOneOfResidue(v: int)
    ensures ((v % TWO32) / 2) % 2 == (v / 2) % 2
  {
    var w, q := v % TWO32, v / TWO32;
    assert v == 2 * (TWO31 * q + w / 2) + w % 2;
    ModUnique(v, 2, TWO31 * q + w / 2, w % 2);
    ModAddMultiple(w / 2, 2, 0x4000_0000 * q);
  }
}
