/** The growth policy that keeps the bucket count a power of two. */
module GrowthPolicy {
  import opened Naturals
  import opened Slots
  import opened Words

  lemma {:induction false} PowerTimesPower(a: nat, b: nat)
    requires IsPowerOfTwo(a) && IsPowerOfTwo(b)
    ensures IsPowerOfTwo(a * b)
  {
    if a > 1 {
      PowerTimesPower(a / 2, b);
      assert a * b == 2 * (a / 2 * b);
    }
  }

  lemma Regroup(q: nat, n: nat, g: nat, a: nat, b: nat)
    ensures q * (n * g) + (a * n + b) == (q * g + a) * n + b
  {
    assert q * (n * g) == (q * g) * n;
  }

  lemma ProductPositive(a: nat, b: nat)
    ensures a * b >= 0 && (a > 0 && b > 0 ==> a * b > 0)
  {
  }

  /** Reducing by a multiple first changes nothing: what is left by m = n * g, and q and a
      are the quotients. */
  lemma ModOfModBy(h: nat, n: nat, g: nat, m: nat, q: nat, r: nat)
    requires n > 0 && m == n * g && h == q * m + r
    ensures r % n == h % n
  {
    var a, b := r / n, r % n;
    Divided(r, n);
    Regroup(q, n, g, a, b);
    ProductPositive(q, g);
    DivModUnique(h, n, q * g + a, b);
  }

  lemma ModOfMod(h: nat, n: nat, g: nat)
    requires n > 0 && g > 0
    ensures n * g > 0 && h % (n * g) % n == h % n
  {
    ProductPositive(n, g);
    var m := n * g;
    Divided(h, m);
    ModOfModBy(h, n, g, m, h / m, h % m);
  }

  class PowerOfTwoGrowth {
    const growthFactor: nat
    var mask: nat

    ghost predicate Valid()
      reads this
    {
      && IsPowerOfTwo(growthFactor) && growthFactor >= 2
      && IsPowerOfTwo(mask + 1) && mask + 1 <= TOP
    }

    /** The state a policy has before it is given a bucket count, and after it is cleared. */
    constructor (growthFactor: nat)
      requires IsPowerOfTwo(growthFactor) && growthFactor >= 2
      ensures Valid() && mask == 0 && this.growthFactor == growthFactor
    {
      this.growthFactor, mask := growthFactor, 0;
    }

    /** Takes a minimal bucket count and gives the one to use: the least power of two that is
        large enough, 0 for 0; too large a count is an error. */
    method Configure(minBucketCount: nat) returns (count: Option<nat>)
      requires Valid() && minBucketCount < WORD
      modifies this
      ensures Valid()
      ensures count.None? <==> minBucketCount > TOP
      ensures count.None? ==> mask == old(mask)
      ensures count.Some? && minBucketCount == 0 ==> count.value == 0 && mask == 0
      ensures count.Some? && minBucketCount > 0 ==> count.value == CeilPowerOfTwo(minBucketCount) == mask + 1
    {
      if minBucketCount > TOP {
        return None;
      }
      if minBucketCount > 0 {
        var n := RoundUpToPowerOfTwo(minBucketCount);
        TopIsPower();
        PowIsPower(63);
        CeilPowerOfTwoIsLeast(minBucketCount, TOP);
        mask := n - 1;
        count := Some(n);
      } else {
        mask := 0;
        count := Some(0);
      }
    }

    /** The bucket of a hash is its remainder by the bucket count. */
    function BucketForHash(hash: nat): (r: nat)
      requires Valid()
      reads this
      ensures r == hash % (mask + 1)
    {
      MaskIsMod(hash, mask + 1);
      And(hash, mask)
    }

    /** The bucket count to grow to, unless it would exceed the largest one; it is a power of
        two again, and the new buckets refine the old ones. */
    method NextBucketCount() returns (count: Option<nat>)
      requires Valid()
      ensures count.None? <==> (mask + 1) * growthFactor > TOP
      ensures count.Some? ==>
                && count.value == (mask + 1) * growthFactor && IsPowerOfTwo(count.value) && count.value <= TOP
                && forall hash: nat :: hash % count.value % (mask + 1) == BucketForHash(hash)
    {
      var n := mask + 1;
      if n > TOP / growthFactor {
        TooLarge(n, growthFactor);
        return None;
      }
      Fits(n, growthFactor);
      PowerTimesPower(n, growthFactor);
      forall hash: nat ensures n * growthFactor > 0 && hash % (n * growthFactor) % n == BucketForHash(hash) {
        ModOfMod(hash, n, growthFactor);
      }
      count := Some(n * growthFactor);
    }

    method Clear()
      requires Valid()
      modifies this
      ensures Valid() && mask == 0
      ensures forall hash: nat :: BucketForHash(hash) == 0
    {
      mask := 0;
    }
  }

  lemma TooLarge(n: nat, g: nat)
    requires g > 0 && n > TOP / g
    ensures n * g > TOP
  {
    assert TOP == TOP / g * g + TOP % g;
    assert n * g >= (TOP / g + 1) * g;
  }

  lemma Fits(n: nat, g: nat)
    requires g > 0 && n <= TOP / g
    ensures n * g <= TOP
  {
    assert TOP == TOP / g * g + TOP % g;
    assert n * g <= TOP / g * g;
  }
}
