/** Powers of two, masks and division on naturals. */
module Naturals {
  type Byte = b: nat | b < 256

  function Max(a: nat, b: nat): nat {
    if a < b then b else a
  }

  function Min(a: int, b: int): int {
    if a < b then a else b
  }

  /** Division rounded up. */
  function CeilDiv(a: nat, b: nat): nat
    requires b > 0
  {
    if a % b == 0 then a / b else a / b + 1
  }

  /** It is the least number of times b that covers a. */
  lemma CeilDivCovers(a: nat, b: nat, s: nat)
    requires b > 0
    ensures CeilDiv(a, b) <= s <==> a <= s * b
  {
    var q, r := a / b, a % b;
    assert a == q * b + r;
    if s <= q {
      Monotone(s, q, b);
      if s < q {
        Monotone(s + 1, q, b);
        assert (s + 1) * b == s * b + b;
      }
    } else {
      Monotone(q + 1, s, b);
      assert (q + 1) * b == q * b + b;
    }
  }

  lemma Monotone(a: int, b: int, c: nat)
    requires a <= b
    ensures a * c <= b * c
  {
  }

  /** The remainder of a division, by repeated subtraction. */
  function Remainder(a: nat, n: nat): (r: nat)
    requires n > 0
    ensures r < n
  {
    if a < n then a else Remainder(a - n, n)
  }

  /** Bitwise conjunction of two naturals. */
  function And(a: nat, b: nat): nat {
    if a == 0 || b == 0 then 0
    else 2 * And(a / 2, b / 2) + (if a % 2 == 1 && b % 2 == 1 then 1 else 0)
  }

  predicate IsPowerOfTwo(n: nat) {
    n == 1 || (n > 1 && n % 2 == 0 && IsPowerOfTwo(n / 2))
  }

  /** The exponent of the largest power of two not above n. */
  function FloorLog2(n: nat): nat
    requires n > 0
  {
    if n == 1 then 0 else 1 + FloorLog2(n / 2)
  }

  /** The least power of two that is at least n. */
  function CeilPowerOfTwo(n: nat): (r: nat)
    requires n > 0
    ensures IsPowerOfTwo(r) && n <= r < 2 * n
  {
    if n == 1 then 1
    else
      var half := CeilPowerOfTwo((n + 1) / 2);
      assert 2 * half / 2 == half;
      2 * half
  }

  /** A multiple of d strictly between -d and d is zero. */
  lemma SmallMultiple(x: int, d: int)
    requires -d < x * d < d
    ensures x == 0
  {
  }

  /** A quotient and a remainder in range are the quotient and the remainder. */
  lemma DivModUnique(a: nat, d: nat, q: nat, r: nat)
    requires a == q * d + r && r < d
    ensures a / d == q && a % d == r
  {
    assert a == a / d * d + a % d;
    assert (q - a / d) * d == a % d - r;
    SmallMultiple(q - a / d, d);
  }

  lemma {:induction false} RemainderIsMod(a: nat, n: nat)
    requires n > 0
    ensures Remainder(a, n) == a % n
  {
    if a >= n {
      RemainderIsMod(a - n, n);
      assert (a - n) == (a - n) / n * n + (a - n) % n;
      DivModUnique(a, n, (a - n) / n + 1, (a - n) % n);
    } else {
      DivModUnique(a, n, 0, a);
    }
  }

  lemma Divided(h: nat, n: nat)
    requires n > 0
    ensures h == h / n * n + h % n
  {
  }

  /** Numbers less than n apart have different remainders. */
  lemma RemaindersDiffer(a: nat, b: nat, n: nat)
    requires a < b < a + n
    ensures Remainder(a, n) != Remainder(b, n)
  {
    RemainderIsMod(a, n);
    RemainderIsMod(b, n);
    Divided(a, n);
    Divided(b, n);
    Congruent(a / n, b / n, a % n, b % n, n, a, b);
  }

  lemma Congruent(p: nat, q: nat, r: nat, t: nat, n: nat, a: nat, b: nat)
    requires a == p * n + r && b == q * n + t && a < b < a + n
    ensures r != t
  {
    if r == t {
      assert (q - p) * n == b - a;
      SmallMultiple(q - p, n);
    }
  }

  /** The remainder by an even number, from the remainder of the half. */
  lemma DoubleMod(h: nat, m: nat)
    requires m > 0
    ensures 2 * (h / 2 % m) + h % 2 == h % (2 * m)
  {
    var q, r := h / 2 / m, h / 2 % m;
    assert h / 2 == q * m + r;
    assert q * (2 * m) == 2 * (q * m);
    DivModUnique(h, 2 * m, q, 2 * r + h % 2);
  }

  /** Masking with a power of two less one is the remainder. */
  lemma {:induction false} MaskIsMod(h: nat, n: nat)
    requires IsPowerOfTwo(n)
    ensures And(h, n - 1) == h % n
  {
    if n > 1 {
      var m := n / 2;
      MaskIsMod(h / 2, m);
      DoubleMod(h, m);
      assert (n - 1) / 2 == m - 1 && (n - 1) % 2 == 1;
    }
  }

  /** No power of two lies between n and the one chosen for it. */
  lemma {:induction false} CeilPowerOfTwoIsLeast(n: nat, p: nat)
    requires n > 0 && IsPowerOfTwo(p) && n <= p
    ensures CeilPowerOfTwo(n) <= p
  {
    if n > 1 {
      CeilPowerOfTwoIsLeast((n + 1) / 2, p / 2);
    }
  }

  /** A number below 2^64 has fewer than 64 binary digits after the first. */
  lemma LogBound(n: nat)
    requires 0 < n < 0x1_0000_0000_0000_0000
    ensures FloorLog2(n) <= 63
  {
    assert Pow2(4) == 16;
    PowSum(4, 4);
    PowSum(8, 8);
    PowSum(16, 16);
    PowSum(32, 32);
    LogBelow(n, 64);
  }

  function Pow2(k: nat): (r: nat)
    ensures r > 0
  {
    if k == 0 then 1 else 2 * Pow2(k - 1)
  }

  lemma {:induction false} PowSum(a: nat, b: nat)
    ensures Pow2(a + b) == Pow2(a) * Pow2(b)
  {
    if a > 0 {
      PowSum(a - 1, b);
    }
  }

  lemma {:induction false} LogBelow(n: nat, k: nat)
    requires 0 < n < Pow2(k)
    ensures FloorLog2(n) < k
  {
    if n > 1 {
      LogBelow(n / 2, k - 1);
    }
  }
}
