/** Powers of two and the few facts about division and remainder by them that the
    bit-level reasoning of the decoder needs. */
module Pow2Arith {

  function Pow2(n: nat): (r: nat)
    ensures r >= 1
  {
    if n == 0 then 1 else 2 * Pow2(n - 1)
  }

  lemma {:induction false} Pow2Add(a: nat, b: nat)
    ensures Pow2(a + b) == Pow2(a) * Pow2(b)
  {
    if a > 0 {
      Pow2Add(a - 1, b);
      assert Pow2(a + b) == 2 * (Pow2(a - 1) * Pow2(b));
    }
  }

  lemma {:induction false} Pow2Small()
    ensures Pow2(5) == 32 && Pow2(8) == 256
  {
  }

  lemma {:induction false} Pow2Of32()
    ensures Pow2(32) == 0x1_0000_0000
  {
    Pow2Small();
    Pow2Add(8, 8);
    Pow2Add(16, 16);
  }

  lemma {:induction false} Pow2Plus5(n: nat)
    ensures Pow2(n + 5) == 32 * Pow2(n)
  {
    Pow2Add(n, 5);
    Pow2Small();
  }

  lemma {:induction false} Pow2Plus8(n: nat)
    ensures Pow2(n + 8) == 256 * Pow2(n)
  {
    Pow2Add(n, 8);
    Pow2Small();
  }

  /** The low k bits of x, that is x modulo 2^k, one bit at a time. */
  function Low(x: nat, k: nat): (r: nat)
    ensures r < Pow2(k)
  {
    if k == 0 then 0 else 2 * Low(x / 2, k - 1) + x % 2
  }

  /** x without its low k bits, that is x divided by 2^k, one bit at a time. */
  function High(x: nat, k: nat): nat
  {
    if k == 0 then x else High(x / 2, k - 1)
  }

  /** The arithmetic of one halving step: x is twice its half plus its last bit. */
  lemma {:induction false} HalvingStep(x: nat, h: int, p: int, l: int)
    requires x / 2 == h * p + l
    ensures x == h * (2 * p) + (2 * l + x % 2)
  {
    assert h * (2 * p) == 2 * (h * p);
  }

  /** x is its high part shifted up by k, plus its low k bits. */
  lemma {:induction false} LowHighSplit(x: nat, k: nat)
    ensures x == High(x, k) * Pow2(k) + Low(x, k)
  {
    if k > 0 {
      var h, p, l := High(x / 2, k - 1), Pow2(k - 1), Low(x / 2, k - 1);
      assert High(x, k) == h && Low(x, k) == 2 * l + x % 2 && Pow2(k) == 2 * p;
      LowHighSplit(x / 2, k - 1);
      HalvingStep(x, h, p, l);
    }
  }

  /** Low and High are the remainder and the quotient by 2^k. */
  lemma {:induction false} LowHigh(x: nat, k: nat)
    ensures Low(x, k) == x % Pow2(k) && High(x, k) == x / Pow2(k)
  {
    LowHighSplit(x, k);
    DivModUnique(x, Pow2(k), High(x, k), Low(x, k));
  }

  /** Quotient and remainder are unique. */
  lemma {:induction false} DivModUnique(x: int, m: int, q: int, r: int)
    requires m > 0 && 0 <= r < m && x == q * m + r
    ensures x / m == q && x % m == r
  {
    var d := q - x / m;
    assert d * m == x % m - r by {
      assert x == (x / m) * m + x % m;
    }
  }

  /** Reducing modulo m * n and then modulo m is reducing modulo m. */
  lemma {:induction false} ModOfMod(x: int, m: int, n: int)
    requires m > 0 && n > 0
    ensures (x % (m * n)) % m == x % m
  {
    var y := x % (m * n);
    var q := x / (m * n);
    assert x == q * (m * n) + y;
    assert x == (q * n + y / m) * m + y % m by {
      assert y == (y / m) * m + y % m;
    }
    DivModUnique(x, m, q * n + y / m, y % m);
  }

  /** Regrouping a product. */
  lemma {:induction false} Regroup(q: int, m: int, n: int, s: int, t: int)
    ensures q * (m * n) + (s * m + t) == (q * n + s) * m + t
  {
    assert q * (m * n) == (q * n) * m;
    assert (q * n) * m + s * m == (q * n + s) * m;
  }

  /** Bits m.. of x, truncated to n, are the bits m.. of x reduced modulo m * n. */
  lemma {:induction false} DivThenMod(x: int, m: int, n: int)
    requires m > 0 && n > 0
    ensures (x / m) % n == (x % (m * n)) / m
  {
    var mn := m * n;
    assert mn > 0;
    var y, q := x % mn, x / mn;
    var s, t := y / m, y % m;
    assert x == q * mn + y;
    assert y == s * m + t;
    assert 0 <= s < n by {
      DivBelow(y, m, n);
    }
    Regroup(q, m, n, s, t);
    DivModUnique(x, m, q * n + s, t);
    DivModUnique(q * n + s, n, q, s);
  }

  /** Below m * n, the quotient by m is below n. */
  lemma {:induction false} DivBelow(x: int, m: int, n: int)
    requires m > 0 && 0 <= x < m * n
    ensures 0 <= x / m < n
  {
    var q := x / m;
    assert x == q * m + x % m;
    assert (n - q) * m > 0;
  }

  /** 2^k and 2^(n - k) multiply to 2^n. */
  lemma {:induction false} Pow2Split(k: nat, n: nat)
    requires k <= n
    ensures Pow2(k) * Pow2(n - k) == Pow2(n)
  {
    Pow2Add(k, n - k);
  }

  /** The number just below a multiple of a leaves remainder a - 1. */
  lemma {:induction false} JustBelowMultiple(a: int, b: int, x: int)
    requires a >= 1 && b >= 1 && x == a * b
    ensures (x - 1) % a == a - 1
  {
    assert x - 1 == (b - 1) * a + (a - 1);
    DivModUnique(x - 1, a, b - 1, a - 1);
  }

  /** Scaling both sides of a remainder. */
  lemma {:induction false} ScaleMod(x: int, m: int, c: int)
    requires m > 0 && c > 0
    ensures (x * c) % (m * c) == (x % m) * c
  {
    var q, r := x / m, x % m;
    assert x == q * m + r;
    assert x * c == q * (m * c) + r * c;
    assert (m - r) * c > 0;
    DivModUnique(x * c, m * c, q, r * c);
  }

  /** Adding below the modulus to a known remainder. */
  lemma {:induction false} AddToRemainder(y: int, p: int, i: int)
    requires p > 0 && i >= 0 && y % p + i < p
    ensures (y + i) % p == y % p + i
  {
    DivModUnique(y + i, p, y / p, y % p + i);
  }
}
