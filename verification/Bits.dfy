/** Bitwise AND on two's-complement integers of unbounded width, and the closed
    forms of the masks the SPARC routines use. */
module Bits {

  function Pow2(k: nat): (p: int)
    ensures p > 0
  {
    if k == 0 then 1 else 2 * Pow2(k - 1)
  }

  /** AND of the infinite two's-complement expansions: `/` and `%` by 2 are the
      arithmetic right shift and the lowest bit, for negative operands too. */
  function And(a: int, b: int): int
    decreases if a < 0 then -a else a
  {
    if a == 0 || b == 0 then 0
    else if a == -1 then b
    else (a % 2) * (b % 2) + 2 * And(a / 2, b / 2)
  }

  lemma {:induction false} AndMinusOne(x: int)
    ensures And(x, -1) == x
    decreases if x < 0 then -x else x
  {
    if x != 0 && x != -1 {
      AndMinusOne(x / 2);
    }
  }

  /** One bit of the expansion, for a mask whose lowest bit is `low`. */
  lemma AndDouble(x: int, b: int, low: int)
    requires b != 0 && 0 <= low <= 1
    ensures And(x, 2 * b + low) == x % 2 * low + 2 * And(x / 2, b)
  {
    assert (2 * b + low) % 2 == low && (2 * b + low) / 2 == b;
    if x == 0 || x == -1 {
      assert x % 2 == -x && x / 2 == x;
    }
  }

  /** x & -(2^k) clears the k lowest bits. */
  lemma {:induction false} AndHighMask(x: int, k: nat)
    ensures And(x, -Pow2(k)) == x - x % Pow2(k)
    decreases k
  {
    if k == 0 {
      AndMinusOne(x);
    } else {
      var p, h := Pow2(k - 1), x / 2;
      var r := h % p;
      assert x % Pow2(k) == 2 * r + x % 2 by { ModDouble(x, p); }
      assert And(h, -p) == h - r by { AndHighMask(h, k - 1); }
      assert And(x, -Pow2(k)) == 2 * And(h, -p) by { AndDouble(x, -p, 0); }
    }
  }

  lemma AndMinusTwo(x: int)
    ensures And(x, -2) == x - x % 2
  {
    AndHighMask(x, 1);
  }

  /** x & (2^k - 1) keeps exactly the k lowest bits. */
  lemma {:induction false} AndLowMask(x: int, k: nat)
    ensures And(x, Pow2(k) - 1) == x % Pow2(k)
    decreases k
  {
    if k == 1 {
      assert x == 0 || x == -1 || And(x / 2, 0) == 0;
    } else if k > 1 {
      var p, h := Pow2(k - 1), x / 2;
      var r := h % p;
      assert x % Pow2(k) == 2 * r + x % 2 by { ModDouble(x, p); }
      assert And(h, p - 1) == r by { AndLowMask(h, k - 1); }
      assert And(x, Pow2(k) - 1) == x % 2 + 2 * And(h, p - 1) by { AndDouble(x, p - 1, 1); }
    }
  }

  function Or(a: nat, b: nat): (r: nat)
  {
    if a == 0 then b else if b == 0 then a
    else (if a % 2 == 1 || b % 2 == 1 then 1 else 0) + 2 * Or(a / 2, b / 2)
  }

  /** x | y << k is the sum when x has only k bits. */
  lemma {:induction false} OrShifted(x: nat, y: nat, k: nat)
    requires x < Pow2(k)
    ensures 0 <= y * Pow2(k) && Or(x, y * Pow2(k)) == x + y * Pow2(k)
  {
    if x != 0 && y != 0 {
      var z := y * Pow2(k - 1);
      assert y * Pow2(k) == 2 * z;
      assert z > 0 by { MulBound(Pow2(k - 1), y); }
      OrShifted(x / 2, y, k - 1);
      OrEven(x, z);
    }
  }

  lemma OrEven(x: nat, z: nat)
    requires x != 0 && z != 0
    ensures Or(x, 2 * z) == x % 2 + 2 * Or(x / 2, z)
  {
    assert 2 * z % 2 == 0 && 2 * z / 2 == z;
  }

  lemma ModUnique(x: int, m: int, q: int, r: int)
    requires m > 0 && x == m * q + r && 0 <= r < m
    ensures x % m == r && x / m == q
  {
    var d := x / m - q;
    assert m * d == r - x % m;
    MulBound(m, d);
  }

  lemma ModPlus(y: int, d: int, c: int)
    requires d > 0
    ensures (y + d * c) % d == y % d
  {
    assert d * (y / d + c) == d * (y / d) + d * c;
    ModUnique(y + d * c, d, y / d + c, y % d);
  }

  lemma MulBound(m: int, d: int)
    requires m > 0
    ensures d >= 1 ==> m * d >= m
    ensures d <= -1 ==> m * d <= -m
  {
  }

  lemma ModDouble(x: int, p: int)
    requires p > 0
    ensures x % (2 * p) == 2 * (x / 2 % p) + x % 2
    ensures x / (2 * p) == x / 2 / p
  {
    var h := x / 2;
    assert h == p * (h / p) + h % p;
    assert x == 2 * h + x % 2;
    assert x == 2 * (p * (h / p)) + 2 * (h % p) + x % 2;
    assert 2 * (p * (h / p)) == (2 * p) * (h / p);
    ModUnique(x, 2 * p, h / p, 2 * (h % p) + x % 2);
  }
}
