/** Exact arithmetic on non-negative integers read as bit strings: powers of
    two, the BigInt shifts `>>` and `<<`, and bitwise `&` and `|`. `AndBit`
    and `OrBit` are the statements that `And` and `Or` act bit by bit, as
    JavaScript's `&` and `|` do on non-negative BigInts; the mask and block
    lemmas use the arithmetic forms instead. */
module Bits {

  /** 2 to the power n. */
  function Pow2(n: nat): (r: nat)
    ensures r >= 1
  {
    if n == 0 then 1 else 2 * Pow2(n - 1)
  }

  /** `x >> k` on a non-negative BigInt. */
  function ShiftRight(x: nat, k: nat): nat
  {
    var d := Pow2(k);
    DivNonNegative(x, d);
    x / d
  }

  /** Dividing a natural by a positive number gives a natural. */
  lemma DivNonNegative(x: nat, d: nat)
    requires d >= 1
    ensures x / d >= 0
  {
  }

  /** `x << k` on a non-negative BigInt. */
  function ShiftLeft(x: nat, k: nat): nat
  {
    x * Pow2(k)
  }

  /** Bitwise `&`, one bit at a time from the least significant end. */
  function And(a: nat, b: nat): nat
    decreases a
  {
    if a == 0 || b == 0 then 0
    else 2 * And(a / 2, b / 2) + (if a % 2 == 1 && b % 2 == 1 then 1 else 0)
  }

  /** Bitwise `|`, one bit at a time from the least significant end. */
  function Or(a: nat, b: nat): nat
    decreases a + b
  {
    if a == 0 then b
    else if b == 0 then a
    else 2 * Or(a / 2, b / 2) + (if a % 2 == 1 || b % 2 == 1 then 1 else 0)
  }

  /** Bit i of x, bit 0 being the least significant. */
  function Bit(x: nat, i: nat): bool
  {
    if i == 0 then x % 2 == 1 else Bit(x / 2, i - 1)
  }

  lemma {:induction false} ZeroHasNoBits(i: nat)
    ensures !Bit(0, i)
  {
    if i > 0 {
      ZeroHasNoBits(i - 1);
    }
  }

  /** `&` keeps exactly the bits set in both operands. */
  lemma {:induction false} AndBit(a: nat, b: nat, i: nat)
    ensures Bit(And(a, b), i) == (Bit(a, i) && Bit(b, i))
  {
    if a == 0 || b == 0 {
      ZeroHasNoBits(i);
    } else if i > 0 {
      AndBit(a / 2, b / 2, i - 1);
    }
  }

  /** `|` keeps exactly the bits set in either operand. */
  lemma {:induction false} OrBit(a: nat, b: nat, i: nat)
    ensures Bit(Or(a, b), i) == (Bit(a, i) || Bit(b, i))
    decreases a + b
  {
    if a == 0 || b == 0 {
      ZeroHasNoBits(i);
    } else if i > 0 {
      OrBit(a / 2, b / 2, i - 1);
    }
  }

  lemma {:induction false} Pow2Add(a: nat, b: nat)
    ensures Pow2(a + b) == Pow2(a) * Pow2(b)
  {
    if a > 0 {
      Pow2Add(a - 1, b);
    }
  }

  /** A smaller power of two divides a larger one. */
  lemma Pow2Divides(a: nat, b: nat)
    requires a <= b
    ensures Pow2(a) <= Pow2(b)
    ensures Pow2(b) == Pow2(b - a) * Pow2(a)
  {
    Pow2Add(b - a, a);
  }

  /** Quotient and remainder are the unique pair with `x == d * q + r`, `0 <= r < d`. */
  lemma DivModUnique(x: nat, d: nat, q: nat, r: nat)
    requires 0 <= r < d
    requires x == d * q + r
    ensures x / d == q && x % d == r
  {
    var q', r' := x / d, x % d;
    if q' < q {
      MulAtLeast(d, q - q');
    } else if q' > q {
      MulAtLeast(d, q' - q);
    }
  }

  lemma MulAtLeast(d: nat, k: nat)
    requires k >= 1
    ensures d * k >= d
  {
    assert d * k == d * (k - 1) + d;
  }

  /** Halving, then dividing by 2^(h-1), is dividing by 2^h. */
  lemma DivHalf(v: nat, h: nat)
    requires h > 0
    ensures (v / 2) / Pow2(h - 1) == v / Pow2(h)
  {
    var p := Pow2(h - 1);
    var q := v / 2;
    var s, t := q / p, q % p;
    assert v == 2 * p * s + (2 * t + v % 2);
    DivModUnique(v, 2 * p, s, 2 * t + v % 2);
  }

  /** `v & (2^n - 1) == v` for v below 2^n. */
  lemma {:induction false} AndLowOnes(v: nat, n: nat)
    requires v < Pow2(n)
    ensures And(v, Pow2(n) - 1) == v
  {
    if n > 0 && v > 0 {
      var half := Pow2(n - 1);
      var m := Pow2(n) - 1;
      assert m == 2 * (half - 1) + 1;
      assert m / 2 == half - 1 && m % 2 == 1;
      assert v / 2 < half;
      AndLowOnes(v / 2, n - 1);
      assert And(v, m) == 2 * And(v / 2, m / 2) + v % 2;
    }
  }

  /** Masking with `2^n - 2^h` clears the h low bits of v. */
  lemma {:induction false} AndHighMask(v: nat, m: nat, n: nat, h: nat)
    requires h <= n && v < Pow2(n)
    requires m + Pow2(h) == Pow2(n)
    ensures And(v, m) == (v / Pow2(h)) * Pow2(h)
  {
    if h == 0 {
      AndLowOnes(v, n);
    } else {
      HalfHighMask(m, n, h);
      var p' := Pow2(h - 1);
      var m': nat := Pow2(n - 1) - p';
      AndHighMask(v / 2, m', n - 1, h - 1);
      AndEven(v, m');
      DivHalf(v, h);
      DoubleMul(v / Pow2(h), p');
    }
  }

  /** `2^n - 2^h` is twice `2^(n-1) - 2^(h-1)`. */
  lemma HalfHighMask(m: nat, n: nat, h: nat)
    requires 0 < h <= n
    requires m + Pow2(h) == Pow2(n)
    ensures Pow2(h - 1) <= Pow2(n - 1) && m == 2 * (Pow2(n - 1) - Pow2(h - 1))
    ensures Pow2(h) == 2 * Pow2(h - 1) && Pow2(n) == 2 * Pow2(n - 1)
  {
  }

  /** ANDing with an even mask shifts the AND of the halves one place up. */
  lemma AndEven(v: nat, m: nat)
    ensures And(v, 2 * m) == 2 * And(v / 2, m)
  {
    if v != 0 && m != 0 {
      assert (2 * m) / 2 == m && (2 * m) % 2 == 0;
    }
  }

  /** `|` with a value below 2^h adds it to a multiple of 2^h. */
  lemma {:induction false} OrLowBits(k: nat, h: nat, b: nat)
    requires b < Pow2(h)
    ensures Or(k * Pow2(h), b) == k * Pow2(h) + b
  {
    if h > 0 && k * Pow2(h) != 0 && b != 0 {
      assert k * Pow2(h) == 2 * (k * Pow2(h - 1));
      OrLowBits(k, h - 1, b / 2);
    }
  }

  /** `2^n - 2^h` has bits h .. n-1 set and bits 0 .. h-1 clear. */
  lemma {:induction false} HighMaskBit(m: nat, n: nat, h: nat, i: nat)
    requires h <= n && i < n
    requires m + Pow2(h) == Pow2(n)
    ensures Bit(m, i) == (i >= h)
  {
    if i > 0 {
      if h == 0 {
        HighMaskBit(m / 2, n - 1, 0, i - 1);
      } else {
        HighMaskBit(m / 2, n - 1, h - 1, i - 1);
      }
    }
  }

  /** Shifting an all-ones word right then left by h clears its h low bits. */
  lemma ShiftedOnes(n: nat, h: nat)
    requires h <= n
    ensures ShiftLeft(ShiftRight(Pow2(n) - 1, h), h) + Pow2(h) == Pow2(n)
  {
    Pow2Divides(h, n);
    var p, q := Pow2(h), Pow2(n - h);
    assert Pow2(n) == q * p;
    var k: nat := q - 1;
    MulSucc(k, p);
    DivModUnique(Pow2(n) - 1, p, k, p - 1);
    assert ShiftRight(Pow2(n) - 1, h) == k;
  }

  lemma DoubleMul(q: nat, p: nat)
    ensures 2 * (q * p) == q * (2 * p)
  {
  }

  lemma MulSucc(k: nat, p: nat)
    ensures (k + 1) * p == k * p + p
  {
  }

  lemma MulLe(a: nat, b: nat, c: nat)
    requires a <= b
    ensures a * c <= b * c
  {
    assert b * c == a * c + (b - a) * c;
  }

  /** The aligned block of 2^h values holding v ends inside [0, 2^n). */
  lemma BlockEnd(v: nat, n: nat, h: nat)
    requires h <= n && v < Pow2(n)
    ensures (v / Pow2(h)) * Pow2(h) + Pow2(h) <= Pow2(n)
  {
    Pow2Divides(h, n);
    BlockEndArith(v, Pow2(h), Pow2(n - h));
  }

  lemma BlockEndArith(v: nat, p: nat, q: nat)
    requires p >= 1 && v < q * p
    ensures (v / p) * p + p <= q * p
  {
    var k := v / p;
    assert k * p <= v;
    if k >= q {
      MulLe(q, k, p);
    } else {
      MulLe(k + 1, q, p);
      MulSucc(k, p);
    }
  }

  /** Multiples of 2^h are exactly the values with no bit below h. */
  lemma AlignedMod(k: nat, h: nat)
    ensures (k * Pow2(h)) % Pow2(h) == 0
    ensures (k * Pow2(h)) / Pow2(h) == k
  {
    DivModUnique(k * Pow2(h), Pow2(h), k, 0);
  }

  /** `(v / p) * p` is the multiple of p at or just below v. */
  lemma FloorMultiple(v: nat, p: nat)
    requires p >= 1
    ensures (v / p) * p <= v < (v / p) * p + p
  {
    assert v == p * (v / p) + v % p;
  }

  /** Two multiples of p, the first below the second, are at least p apart. */
  lemma AlignedGap(x: nat, y: nat, p: nat)
    requires p >= 1 && x % p == 0 && y % p == 0 && x < y
    ensures x + p <= y
  {
    var i, j := x / p, y / p;
    assert x == p * i && y == p * j;
    if i >= j {
      MulLe(j, i, p);
    } else {
      MulLe(i + 1, j, p);
      MulSucc(i, p);
    }
  }

  /** A multiple of 2^a is a multiple of every smaller power 2^b. */
  lemma AlignedCoarser(x: nat, a: nat, b: nat)
    requires b <= a && x % Pow2(a) == 0
    ensures x % Pow2(b) == 0
  {
    Pow2Divides(b, a);
    DividesTransitive(x, Pow2(a), Pow2(b), Pow2(a - b));
  }

  lemma DividesTransitive(x: nat, pa: nat, pb: nat, q: nat)
    requires pb >= 1 && pa >= 1 && pa == q * pb && x % pa == 0
    ensures x % pb == 0
  {
    var k := x / pa;
    assert x == pa * k;
    assert x == pb * (q * k);
    DivModUnique(x, pb, q * k, 0);
  }

  /** Concrete powers used by the address families and the examples. */
  lemma Pow2Values()
    ensures Pow2(8) == 0x100
    ensures Pow2(32) == 0x1_0000_0000
    ensures Pow2(128) == 0x1_0000_0000_0000_0000_0000_0000_0000_0000
  {
    assert Pow2(1) == 2;
    Pow2Add(1, 1);
    assert Pow2(2) == 4;
    Pow2Add(2, 2);
    assert Pow2(4) == 16;
    Pow2Add(4, 4);
    assert Pow2(8) == 0x100;
    Pow2Add(8, 8);
    assert Pow2(16) == 0x1_0000;
    Pow2Add(16, 16);
    assert Pow2(32) == 0x1_0000_0000;
    Pow2Add(32, 32);
    assert Pow2(64) == 0x1_0000_0000_0000_0000;
    Pow2Add(64, 64);
  }

  /** A multiple of p is recovered by dividing and multiplying by p. */
  lemma ExactMultiple(x: nat, p: nat)
    requires p >= 1 && x % p == 0
    ensures (x / p) * p == x
  {
    assert x == p * (x / p) + x % p;
  }

  /** At most one multiple of p lies in any window (v - p, v]. */
  lemma UniqueAligned(x: nat, y: nat, v: nat, p: nat)
    requires p >= 1 && x % p == 0 && y % p == 0
    requires x <= v < x + p && y <= v < y + p
    ensures x == y
  {
    if x < y {
      AlignedGap(x, y, p);
    } else if y < x {
      AlignedGap(y, x, p);
    }
  }

  /** Two aligned blocks [na, na + pa) and [nb, nb + pb), the first at least
      as large, that overlap: the second lies inside the first. */
  lemma NestedBlocks(na: nat, pa: nat, nb: nat, pb: nat, q: nat)
    requires pb >= 1 && pa == q * pb && q >= 1
    requires na % pa == 0 && nb % pb == 0
    requires (na <= nb < na + pa) || (nb <= na < nb + pb)
    ensures na <= nb && nb + pb <= na + pa
  {
    MulLe(1, q, pb);
    var i := na / pa;
    assert na == pa * i;
    assert na == pb * (q * i);
    DivModUnique(na, pb, q * i, 0);
    assert na + pa == pb * (q * i + q);
    DivModUnique(na + pa, pb, q * i + q, 0);
    if na <= nb < na + pa {
      AlignedGap(nb, na + pa, pb);
    } else if nb < na {
      AlignedGap(nb, na, pb);
    }
  }
}
