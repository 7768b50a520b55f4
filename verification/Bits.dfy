/**
 Bitwise arithmetic on naturals. The source masks 8-, 32-, 64- and 128-bit words; defining `&`
 and `|` by recursion on the binary digits lets one lemma serve every width.
 */
module Bits {
  type byte = n: int | 0 <= n < 256

  function Pow2(n: nat): (r: nat)
    ensures 0 < r
  {
    if n == 0 then 1 else 2 * Pow2(n - 1)
  }

  function And(a: nat, b: nat): nat {
    if a == 0 || b == 0 then 0
    else 2 * And(a / 2, b / 2) + (if a % 2 == 1 && b % 2 == 1 then 1 else 0)
  }

  function Or(a: nat, b: nat): nat {
    if a == 0 then b
    else if b == 0 then a
    else 2 * Or(a / 2, b / 2) + (if a % 2 == 1 || b % 2 == 1 then 1 else 0)
  }

  /** `uW::MAX << s` in a `w`-bit word: the bits shifted out are lost. */
  function MaxShl(w: nat, s: nat): nat {
    ((Pow2(w) - 1) * Pow2(s)) % Pow2(w)
  }

  lemma {:induction false} Pow2Add(a: nat, b: nat)
    ensures Pow2(a + b) == Pow2(a) * Pow2(b)
  {
    if a > 0 {
      Pow2Add(a - 1, b);
      assert a - 1 + b == a + b - 1;
    }
  }

  lemma {:induction false} Pow2Monotone(a: nat, b: nat)
    requires a <= b
    ensures Pow2(a) <= Pow2(b)
  {
    if a < b { Pow2Monotone(a, b - 1); }
  }

  lemma Pow2Reflects(a: nat, b: nat)
    requires Pow2(a) < Pow2(b)
    ensures a < b
  {
    if b <= a { Pow2Monotone(b, a); }
  }

  lemma Pow2Square(n: nat, v: nat)
    requires Pow2(n) == v
    ensures Pow2(2 * n) == v * v
  {
    Pow2Add(n, n);
  }

  lemma Pow2Words()
    ensures Pow2(8) == 0x100
    ensures Pow2(31) == 0x8000_0000
    ensures Pow2(32) == 0x1_0000_0000
    ensures Pow2(64) == 0x1_0000_0000_0000_0000
    ensures Pow2(128) == 0x1_0000_0000_0000_0000_0000_0000_0000_0000
  {
    Pow2Square(4, 16);
    Pow2Square(8, 0x100);
    Pow2Square(16, 0x1_0000);
    Pow2Square(32, 0x1_0000_0000);
    Pow2Square(64, 0x1_0000_0000_0000_0000);
  }

  /** Dividing by a product is dividing twice, and the remainder splits accordingly. */
  lemma DivModSplit(x: nat, a: nat, b: nat)
    requires 0 < a && 0 < b
    ensures 0 < a * b
    ensures x / (a * b) == x / a / b
    ensures x % (a * b) == x % a + a * (x / a % b)
  {
    var q, r := x / a / b, x / a % b;
    assert x / a == b * q + r;
    assert x == a * (x / a) + x % a;
    var low := x % a + a * r;
    assert x == (a * b) * q + low by {
      assert a * (b * q + r) == (a * b) * q + a * r by { Distribute(a, b, q, r); }
    }
    assert a * r <= a * (b - 1) by { MulMonotone(a, r, b - 1); }
    assert a * (b - 1) == a * b - a by { Distribute(a, b, 1, -1); }
    QuotientUnique(x, a * b, q, low);
  }

  lemma Distribute(a: int, b: int, q: int, r: int)
    ensures a * (b * q + r) == (a * b) * q + a * r
  {
  }

  lemma MulMonotone(a: nat, x: int, y: int)
    requires x <= y
    ensures a * x <= a * y
  {
  }

  lemma QuotientUnique(x: int, d: int, q: int, r: int)
    requires 0 < d && x == d * q + r && 0 <= r < d
    ensures x / d == q && x % d == r
  {
    var q', r' := x / d, x % d;
    assert d * (q - q') == r' - r by {
      assert d * (q - q') == d * q - d * q';
    }
    if q > q' {
      MulMonotone(d, 1, q - q');
    } else if q < q' {
      MulMonotone(d, q - q', -1);
    }
  }

  lemma DivNonNegative(x: nat, d: nat)
    requires 0 < d
    ensures 0 <= x / d
  {
  }

  lemma ShiftedMax(m: nat, k: nat)
    requires 0 < k <= m
    ensures ((m - 1) * k) % m == m - k
  {
    assert (m - 1) * k == m * (k - 1) + (m - k);
    QuotientUnique((m - 1) * k, m, k - 1, m - k);
  }

  lemma MaxShlIsHighBits(w: nat, s: nat)
    requires s <= w
    ensures Pow2(s) <= Pow2(w)
    ensures MaxShl(w, s) == Pow2(w) - Pow2(s)
  {
    Pow2Monotone(s, w);
    ShiftedMax(Pow2(w), Pow2(s));
  }

  lemma {:induction false} AndAllOnes(x: nat, w: nat)
    requires x < Pow2(w)
    ensures And(x, Pow2(w) - 1) == x
  {
    if x != 0 {
      AndAllOnes(x / 2, w - 1);
      assert (Pow2(w) - 1) / 2 == Pow2(w - 1) - 1;
    }
  }

  lemma AndEven(x: nat, m: nat)
    ensures And(x, 2 * m) == 2 * And(x / 2, m)
  {
    if x != 0 && m != 0 {
      assert 2 * m / 2 == m && 2 * m % 2 == 0;
    }
  }

  /** Masking with the high bits of a word clears exactly the low `s` bits. */
  lemma {:induction false} AndHighBits(x: nat, w: nat, s: nat)
    requires s <= w && x < Pow2(w)
    ensures Pow2(s) <= Pow2(w)
    ensures And(x, Pow2(w) - Pow2(s)) == x - x % Pow2(s)
    decreases s
  {
    Pow2Monotone(s, w);
    if s == 0 {
      AndAllOnes(x, w);
    } else {
      AndHighBits(x / 2, w - 1, s - 1);
      AndEven(x, Pow2(w - 1) - Pow2(s - 1));
      DivModSplit(x, 2, Pow2(s - 1));
    }
  }

  lemma OrEven(a: nat, m: nat)
    ensures Or(a, 2 * m) == 2 * Or(a / 2, m) + a % 2
  {
    if a != 0 && m != 0 {
      assert 2 * m / 2 == m && 2 * m % 2 == 0;
    }
  }

  /** Or-ing in bits above everything already set is addition. */
  lemma {:induction false} OrDisjoint(a: nat, b: nat, k: nat)
    requires a < Pow2(k)
    ensures Or(a, b * Pow2(k)) == a + b * Pow2(k)
    decreases k
  {
    if k > 0 && a != 0 && b != 0 {
      OrDisjoint(a / 2, b, k - 1);
      OrEven(a, b * Pow2(k - 1));
      Distribute(2, Pow2(k - 1), b, 0);
    }
  }
}
