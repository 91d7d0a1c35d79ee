/** 64-bit words as naturals below 2^64, with the bit tricks used for table sizes. */
module Words {
  import opened Naturals

  const WORD := 0x1_0000_0000_0000_0000
  const TOP := 0x8000_0000_0000_0000

  /** 64-bit wrap-around. */
  function Wrap(x: int): (r: nat)
    ensures r < WORD
    ensures 0 <= x < WORD ==> r == x
  {
    x % WORD
  }

  /** Halving n times. */
  function ShiftRight(v: nat, n: nat): nat {
    if n == 0 then v else ShiftRight(v / 2, n - 1)
  }

  /** Bitwise disjunction. */
  function Or(a: nat, b: nat): nat {
    if a == 0 then b
    else if b == 0 then a
    else 2 * Or(a / 2, b / 2) + (if a % 2 == 1 || b % 2 == 1 then 1 else 0)
  }

  ghost predicate Bit(v: nat, i: nat) {
    if i == 0 then v % 2 == 1 else Bit(v / 2, i - 1)
  }

  // ----- bits of the operations

  lemma {:induction false} OrBit(a: nat, b: nat, i: nat)
    ensures Bit(Or(a, b), i) <==> Bit(a, i) || Bit(b, i)
    decreases i
  {
    if a == 0 {
      ZeroBit(i);
    } else if b == 0 {
      ZeroBit(i);
    } else if i > 0 {
      OrBit(a / 2, b / 2, i - 1);
    }
  }

  lemma {:induction false} ZeroBit(i: nat)
    ensures !Bit(0, i)
  {
    if i > 0 {
      ZeroBit(i - 1);
    }
  }

  lemma {:induction false} ShiftBit(v: nat, n: nat, i: nat)
    ensures Bit(ShiftRight(v, n), i) <==> Bit(v, i + n)
    decreases n
  {
    if n > 0 {
      ShiftBit(v / 2, n - 1, i);
    }
  }

  // ----- smearing the highest bit down

  /** Some bit of v lies less than w places above i. */
  ghost predicate Near(v: nat, i: nat, w: nat) {
    exists j: nat :: i <= j < i + w && Bit(v, j)
  }

  /** The bits of a are those less than w places below a bit of v. */
  ghost predicate Smeared(v: nat, a: nat, w: nat) {
    forall i: nat :: Bit(a, i) <==> Near(v, i, w)
  }

  lemma NearTwice(v: nat, i: nat, w: nat)
    ensures Near(v, i, 2 * w) <==> Near(v, i, w) || Near(v, i + w, w)
  {
    if Near(v, i, 2 * w) {
      var j: nat :| i <= j < i + 2 * w && Bit(v, j);
      assert j < i + w || i + w <= j < i + w + w;
    }
  }

  /** One step of smearing doubles the reach. */
  lemma SmearStep(v: nat, a: nat, w: nat)
    requires Smeared(v, a, w)
    ensures Smeared(v, Or(a, ShiftRight(a, w)), 2 * w)
  {
    forall i: nat ensures Bit(Or(a, ShiftRight(a, w)), i) <==> Near(v, i, 2 * w) {
      OrBit(a, ShiftRight(a, w), i);
      ShiftBit(a, w, i);
      NearTwice(v, i, w);
    }
  }

  /** The highest bit of a number is the one its logarithm names. */
  lemma {:induction false} HighestBit(v: nat, i: nat)
    requires v > 0
    ensures i == FloorLog2(v) ==> Bit(v, i)
    ensures i > FloorLog2(v) ==> !Bit(v, i)
    decreases i
  {
    if v == 1 {
      if i > 0 {
        ZeroBit(i - 1);
      }
    } else if i > 0 {
      HighestBit(v / 2, i - 1);
    }
  }

  /** A number whose bits are exactly those below k is one less than a power of two. */
  lemma {:induction false} AllOnes(s: nat, k: nat)
    requires forall i: nat :: Bit(s, i) <==> i < k
    ensures s == Pow2(k) - 1
    decreases s
  {
    if s > 0 {
      if k == 0 {
        HighestBit(s, FloorLog2(s));
        assert false;
      }
      forall i: nat ensures Bit(s / 2, i) <==> i < k - 1 {
        assert Bit(s, i + 1) <==> i + 1 < k;
      }
      AllOnes(s / 2, k - 1);
      assert Bit(s, 0) <==> 0 < k;
    } else if k > 0 {
      ZeroBit(0);
      assert false;
    }
  }

  /** Fully smeared, a word is one less than the next power of two above it. */
  lemma SmearedFull(v: nat, s: nat)
    requires 0 < v < WORD && Smeared(v, s, 64)
    ensures s == Pow2(FloorLog2(v) + 1) - 1
  {
    var k := FloorLog2(v);
    LogBound(v);
    HighestBit(v, k);
    forall i: nat ensures Bit(s, i) <==> i < k + 1 {
      if i > k && Near(v, i, 64) {
        var j: nat :| i <= j < i + 64 && Bit(v, j);
        HighestBit(v, j);
      }
    }
    AllOnes(s, k + 1);
  }

  /** The six unrolled steps. */
  method Smear(v: nat) returns (s: nat)
    requires v < WORD
    ensures v == 0 ==> s == 0
    ensures v > 0 ==> s == Pow2(FloorLog2(v) + 1) - 1
  {
    s := v;
    assert Smeared(v, s, 1);
    s := Or(s, ShiftRight(s, 1));
    SmearStep(v, v, 1);
    ghost var a := s;
    s := Or(s, ShiftRight(s, 2));
    SmearStep(v, a, 2);
    a := s;
    s := Or(s, ShiftRight(s, 4));
    SmearStep(v, a, 4);
    a := s;
    s := Or(s, ShiftRight(s, 8));
    SmearStep(v, a, 8);
    a := s;
    s := Or(s, ShiftRight(s, 16));
    SmearStep(v, a, 16);
    a := s;
    s := Or(s, ShiftRight(s, 32));
    SmearStep(v, a, 32);
    if v > 0 {
      SmearedFull(v, s);
    } else {
      SmearedZero(s);
    }
  }

  lemma SmearedZero(s: nat)
    requires Smeared(0, s, 64)
    ensures s == 0
  {
    forall i: nat ensures !Bit(s, i) {
      if Near(0, i, 64) {
        var j: nat :| i <= j < i + 64 && Bit(0, j);
        ZeroBit(j);
      }
    }
    AllOnes(s, 0);
  }

  // ----- the power of two at or above a number

  /** For a number above one, it is twice the highest power of two below the number. */
  lemma {:induction false} CeilIsShift(v: nat)
    requires v > 1
    ensures CeilPowerOfTwo(v) == Pow2(FloorLog2(v - 1) + 1)
  {
    if v > 2 {
      CeilIsShift((v + 1) / 2);
      assert (v - 1) / 2 == (v + 1) / 2 - 1;
    }
  }

  lemma TopIsPower()
    ensures Pow2(63) == TOP && Pow2(64) == WORD
  {
    SmallPowers();
    hide Pow2;
    PowSum(8, 8);
    PowSum(16, 16);
    PowSum(32, 32);
    PowSum(63, 1);
  }

  lemma {:induction false} PowIsPower(k: nat)
    ensures IsPowerOfTwo(Pow2(k))
  {
    if k > 0 {
      PowIsPower(k - 1);
    }
  }

  lemma SmallPowers()
    ensures Pow2(0) == 1 && Pow2(1) == 2 && Pow2(2) == 4 && Pow2(3) == 8
    ensures Pow2(4) == 16 && Pow2(5) == 32 && Pow2(6) == 64 && Pow2(7) == 128 && Pow2(8) == 256
  {
  }

  lemma {:induction false} PowMonotone(a: nat, b: nat)
    requires a <= b
    ensures Pow2(a) <= Pow2(b)
  {
    if a < b {
      PowMonotone(a, b - 1);
    }
  }

  lemma {:induction false} LogSpan(v: nat)
    requires v > 0
    ensures Pow2(FloorLog2(v)) <= v < Pow2(FloorLog2(v) + 1)
  {
    if v > 1 {
      LogSpan(v / 2);
    }
  }

  /** What both forms of rounding up give: the least power of two for every number up to the
      top one, and 0, the wrapped power, for all others. */
  lemma RoundedUp(v: nat)
    requires 0 < v < WORD
    ensures v <= TOP ==> Wrap((if v == 1 then 0 else Pow2(FloorLog2(v - 1) + 1) - 1) + 1) == CeilPowerOfTwo(v)
    ensures v > TOP ==> Pow2(FloorLog2(v - 1) + 1) == WORD
  {
    TopIsPower();
    if v > 1 {
      CeilIsShift(v);
      LogSpan(v - 1);
      LogBound(v - 1);
      var k := FloorLog2(v - 1);
      if v <= TOP {
        if k >= 63 {
          PowMonotone(63, k);
        }
        PowMonotone(k + 1, 63);
      } else if k < 63 {
        PowMonotone(k + 1, 63);
      }
    }
  }

  /** The unrolled form. It rounds up exactly for the numbers from 1 to 2^63. */
  method NextPowerOfTwo(v: nat) returns (r: nat)
    requires v < WORD
    ensures 1 <= v <= TOP ==> r == CeilPowerOfTwo(v)
    ensures !(1 <= v <= TOP) ==> r == 0
  {
    var i := Wrap(v - 1);
    i := Smear(i);
    r := Wrap(i + 1);
    if v == 0 {
      TopIsPower();
      LogSpan(WORD - 1);
      LogBound(WORD - 1);
      if FloorLog2(WORD - 1) < 63 {
        PowMonotone(FloorLog2(WORD - 1) + 1, 63);
      }
    } else {
      RoundedUp(v);
    }
  }

  // ----- the same by a loop

  lemma {:induction false} AndSelf(v: nat)
    ensures And(v, v) == v
  {
    if v > 0 {
      AndSelf(v / 2);
    }
  }

  /** Clearing the lowest bit leaves nothing exactly for a power of two. */
  lemma {:induction false} PowerByMask(v: nat)
    requires v > 0
    ensures And(v, v - 1) == 0 <==> IsPowerOfTwo(v)
  {
    if v % 2 == 1 {
      AndSelf(v / 2);
    } else {
      PowerByMask(v / 2);
      assert (v - 1) / 2 == v / 2 - 1;
    }
  }

  lemma {:induction false} CeilOfPower(v: nat)
    requires IsPowerOfTwo(v)
    ensures CeilPowerOfTwo(v) == v
  {
    if v > 1 {
      CeilOfPower(v / 2);
    }
  }

  /** The form with a loop: the same results, but 1 for 0. */
  method RoundUpToPowerOfTwo(v: nat) returns (r: nat)
    requires v < WORD
    ensures v == 0 ==> r == 1
    ensures 1 <= v <= TOP ==> r == CeilPowerOfTwo(v)
    ensures v > TOP ==> r == 0
  {
    hide Smeared, Or, ShiftRight, And;
    if v == 0 {
      return 1;
    }
    PowerByMask(v);
    if And(v, v - 1) == 0 {
      CeilOfPower(v);
      PowersBelowTop(v);
      return v;
    }
    var value: nat := v - 1;
    var i: nat := 1;
    SmearedOnce(v - 1);
    while i < 64
      invariant i in {1, 2, 4, 8, 16, 32, 64}
      invariant Smeared(v - 1, value, i)
    {
      SmearStep(v - 1, value, i);
      value := Or(value, ShiftRight(value, i));
      i := i * 2;
    }
    SmearedFull(v - 1, value);
    RoundedUp(v);
    r := Wrap(value + 1);
  }

  lemma SmearedOnce(v: nat)
    ensures Smeared(v, v, 1)
  {
  }

  /** No word above the top power of two is a power of two. */
  lemma PowersBelowTop(v: nat)
    requires IsPowerOfTwo(v) && v < WORD
    ensures v <= TOP
  {
    if v > TOP {
      CeilOfPower(v);
      CeilIsShift(v);
      RoundedUp(v);
      assert false;
    }
  }

  // ----- the logarithm by multiplication

  const MULTIPLIER := 0x07EDD5E59A4E28C2

  function LogTable(i: nat): nat
    requires i < 64
  {
    if i < 8 then [63, 0, 58, 1, 59, 47, 53, 2][i] else
    if i < 16 then [60, 39, 48, 27, 54, 33, 42, 3][i - 8] else
    if i < 24 then [61, 51, 37, 40, 49, 18, 28, 20][i - 16] else
    if i < 32 then [55, 30, 34, 11, 43, 14, 22, 4][i - 24] else
    if i < 40 then [62, 57, 46, 52, 38, 26, 32, 41][i - 32] else
    if i < 48 then [50, 36, 17, 19, 29, 10, 13, 21][i - 40] else
    if i < 56 then [56, 45, 25, 31, 35, 16, 9, 12][i - 48] else
    [44, 24, 15, 8, 23, 7, 6, 5][i - 56]
  }

  /** The top six bits of a word. */
  function TopSix(w: nat): (r: nat)
    requires w < WORD
    ensures r < 64
  {
    w / 0x400_0000_0000_0000
  }

  /** The entry of the table for a power of two. */
  function LogEntry(p: nat): nat {
    LogTable(TopSix(Wrap(p * MULTIPLIER)))
  }

  lemma WrapMultiple(t: nat, r: nat)
    ensures Wrap(r + t * WORD) == Wrap(r)
  {
  }

  lemma WrapTimes(c: nat, x: nat)
    ensures Wrap(c * Wrap(x)) == Wrap(c * x)
  {
    var q := x / WORD;
    assert c * x == c * Wrap(x) + (c * q) * WORD;
    WrapMultiple(c * q, c * Wrap(x));
  }

  /** The entry for a power of two, from where the multiplier stands when shifted by whole bytes. */
  lemma EntryFrom(k: nat, w: nat, j: nat)
    requires w == Wrap(Pow2(k) * MULTIPLIER)
    ensures LogEntry(Pow2(k + j)) == LogTable(TopSix(Wrap(Pow2(j) * w)))
    ensures Wrap(Pow2(k + j) * MULTIPLIER) == Wrap(Pow2(j) * w)
  {
    hide LogTable, TopSix;
    PowSum(j, k);
    assert Pow2(j) * (Pow2(k) * MULTIPLIER) == Pow2(k + j) * MULTIPLIER;
    WrapTimes(Pow2(j), Pow2(k) * MULTIPLIER);
  }

  /** Eight entries of the table: w is the multiplier shifted by k, and a to h are the top six
      bits of w shifted by none to seven. */
  lemma LogRow(k: nat, w: nat, a: nat, b: nat, c: nat, d: nat, e: nat, f: nat, g: nat, h: nat)
    requires w == Wrap(Pow2(k) * MULTIPLIER)
    requires a == TopSix(w) && b == TopSix(Wrap(2 * w)) && c == TopSix(Wrap(4 * w)) && d == TopSix(Wrap(8 * w))
    requires e == TopSix(Wrap(16 * w)) && f == TopSix(Wrap(32 * w)) && g == TopSix(Wrap(64 * w)) && h == TopSix(Wrap(128 * w))
    requires LogTable(a) == k && LogTable(b) == k + 1 && LogTable(c) == k + 2 && LogTable(d) == k + 3
    requires LogTable(e) == k + 4 && LogTable(f) == k + 5 && LogTable(g) == k + 6 && LogTable(h) == k + 7
    ensures forall j :: k <= j < k + 8 ==> LogEntry(Pow2(j)) == j
    ensures Wrap(Pow2(k + 8) * MULTIPLIER) == Wrap(256 * w)
  {
    SmallPowers();
    hide Pow2, LogTable, TopSix, LogEntry, Wrap;
    forall j | k <= j < k + 8 ensures LogEntry(Pow2(j)) == j {
      EntryFrom(k, w, j - k);
    }
    EntryFrom(k, w, 8);
  }

  lemma MultiplierStarts()
    ensures Wrap(Pow2(0) * MULTIPLIER) == 0x07EDD5E59A4E28C2
  {
  }

  lemma LogRowsFrom0()
    ensures forall k :: 0 <= k < 16 ==> LogEntry(Pow2(k)) == k
    ensures Wrap(Pow2(16) * MULTIPLIER) == 0xD5E59A4E28C20000
  {
    MultiplierStarts();
    hide Pow2, LogEntry;
    LogRow(0, 0x07EDD5E59A4E28C2, 1, 3, 7, 15, 31, 63, 62, 61);
    LogRow(8, 0xEDD5E59A4E28C200, 59, 54, 45, 27, 55, 46, 29, 58);
  }

  lemma LogRowsFrom16()
    requires Wrap(Pow2(16) * MULTIPLIER) == 0xD5E59A4E28C20000
    ensures forall k :: 16 <= k < 32 ==> LogEntry(Pow2(k)) == k
    ensures Wrap(Pow2(32) * MULTIPLIER) == 0x9A4E28C200000000
  {
    hide Pow2, LogEntry;
    LogRow(16, 0xD5E59A4E28C20000, 53, 42, 21, 43, 23, 47, 30, 60);
    LogRow(24, 0xE59A4E28C2000000, 57, 50, 37, 11, 22, 44, 25, 51);
  }

  lemma LogRowsFrom32()
    requires Wrap(Pow2(32) * MULTIPLIER) == 0x9A4E28C200000000
    ensures forall k :: 32 <= k < 48 ==> LogEntry(Pow2(k)) == k
    ensures Wrap(Pow2(48) * MULTIPLIER) == 0x28C2000000000000
  {
    hide Pow2, LogEntry;
    LogRow(32, 0x9A4E28C200000000, 38, 13, 26, 52, 41, 18, 36, 9);
    LogRow(40, 0x4E28C20000000000, 19, 39, 14, 28, 56, 49, 34, 5);
  }

  lemma LogRowsFrom48()
    requires Wrap(Pow2(48) * MULTIPLIER) == 0x28C2000000000000
    ensures forall k :: 48 <= k < 64 ==> LogEntry(Pow2(k)) == k
  {
    hide Pow2, LogEntry;
    LogRow(48, 0x28C2000000000000, 10, 20, 40, 17, 35, 6, 12, 24);
    LogRow(56, 0xC200000000000000, 48, 33, 2, 4, 8, 16, 32, 0);
  }

  /** The table undoes the multiplication: it finds the exponent of every power of two. */
  lemma LogOfPower(k: nat)
    requires k < 64
    ensures LogEntry(Pow2(k)) == k
  {
    LogRowsFrom0();
    LogRowsFrom16();
    LogRowsFrom32();
    LogRowsFrom48();
  }

  /** Of a word with all bits set up to the k-th, only that one is left. */
  lemma TopBit(k: nat)
    ensures Pow2(k + 1) - 1 - ShiftRight(Pow2(k + 1) - 1, 1) == Pow2(k)
  {
  }

  lemma LogOfZero()
    ensures ShiftRight(0, 1) == 0 && LogEntry(0) == 63
  {
  }

  /** The logarithm by smearing, multiplying and looking up; of 0 it gives 63. */
  method Log2(v: nat) returns (r: nat)
    requires v < WORD
    ensures v > 0 ==> r == FloorLog2(v)
    ensures v == 0 ==> r == 63
  {
    hide LogEntry;
    var value := Smear(v);
    var p := Wrap(value - ShiftRight(value, 1));
    r := LogEntry(p);
    if v > 0 {
      var k := FloorLog2(v);
      LogBound(v);
      TopIsPower();
      PowMonotone(k, 63);
      TopBit(k);
      LogOfPower(k);
    } else {
      LogOfZero();
    }
  }
}
