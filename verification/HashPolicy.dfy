/** The two ways the tables map a hash to a slot: modulo a prime, or a mask of a
    power of two. */
module HashPolicy {
  import opened Naturals

  /** The hash function of a table: the same key always has the same hash. */
  datatype Hasher<!K> = Hasher(f: K -> nat)
  {
    function Of(key: K): nat {
      f(key)
    }
  }

  /** How far a table of this many slots can still grow. */
  ghost function Room(limit: nat, slots: nat): nat {
    if slots <= limit then limit + 1 - slots else 0
  }

  /** `modulus` names the modulo function last committed; 0 stands for the one that
      maps everything to slot 0, in force before the first commit. */
  datatype Policy =
    | Prime(primes: seq<nat>, modulus: nat)
    | PowerOfTwo
  {
    /** The list of primes is increasing and starts above one. */
    ghost predicate WellFormed() {
      Prime? ==>
        && |primes| > 0
        && (forall i :: 0 <= i < |primes| ==> primes[i] > 1)
        && (forall i, j :: 0 <= i < j < |primes| ==> primes[i] < primes[j])
    }

    /** The policy is set up for a table of this many slots. */
    ghost predicate Fits(slots: nat) {
      && slots > 0
      && (Prime? ==> modulus == slots || (modulus == 0 && slots == 1))
      && (PowerOfTwo? ==> IsPowerOfTwo(slots))
    }

    /** The largest size `NextSizeOver` can round up to. */
    ghost predicate CanServe(size: nat) {
      Prime? ==> |primes| > 0 && size < primes[|primes| - 1]
    }

    /** Applies the committed modulo function. */
    function Modulo(h: nat): nat
      requires Prime?
    {
      if modulus == 0 then 0 else h % modulus
    }

    /** The home slot of a hash: whichever policy, the remainder by the slot count. */
    function IndexForHash(h: nat, slotsMinusOne: nat): (r: nat)
      requires Fits(slotsMinusOne + 1)
      ensures r == Remainder(h, slotsMinusOne + 1)
    {
      RemainderIsMod(h, slotsMinusOne + 1);
      match this
      case Prime(_, _) => Modulo(h)
      case PowerOfTwo => MaskIsMod(h, slotsMinusOne + 1); And(h, slotsMinusOne)
    }

    /** Wraps an index that may have jumped past the end; the same remainder, so a
        walk by `IndexForHash` and a walk by `KeepInRange` visit the same slots. */
    function KeepInRange(index: nat, slotsMinusOne: nat): (r: nat)
      requires Fits(slotsMinusOne + 1)
      ensures r == Remainder(index, slotsMinusOne + 1)
    {
      match this
      case Prime(_, _) =>
        if index > slotsMinusOne then RemainderIsMod(index, slotsMinusOne + 1); Modulo(index)
        else index
      case PowerOfTwo => IndexForHash(index, slotsMinusOne)
    }

    /** The first listed prime that is large enough, or the last one. */
    function LowerBound(size: nat, from: nat): (p: nat)
      requires Prime? && WellFormed() && from < |primes|
      requires forall i :: 0 <= i < from ==> primes[i] < size
      ensures p in primes
      ensures size <= p || p == primes[|primes| - 1]
      ensures forall i :: 0 <= i < |primes| && size <= primes[i] ==> p <= primes[i]
      decreases |primes| - from
    {
      if from == |primes| - 1 || size <= primes[from] then primes[from]
      else LowerBound(size, from + 1)
    }

    /** The table size used when `size` slots are asked for: the least listed prime, or the
        least power of two, that is large enough. Sizes from 1 to 2^63 are rounded to a power of
        two by `Words.NextPowerOfTwo`. */
    function NextSizeOver(size: nat): (r: nat)
      requires WellFormed() && size > 0
      ensures r > 0 && (PowerOfTwo? ==> size <= r && IsPowerOfTwo(r))
      ensures PowerOfTwo? ==> forall p :: IsPowerOfTwo(p) && size <= p ==> r <= p
      ensures Prime? ==> r in primes && (size <= r || r == primes[|primes| - 1])
      ensures Prime? ==> forall i :: 0 <= i < |primes| && size <= primes[i] ==> r <= primes[i]
      ensures forall limit: nat :: CanServe(limit) && r <= limit ==> size <= r
    {
      assert PowerOfTwo? ==> forall p :: IsPowerOfTwo(p) && size <= p ==> CeilPowerOfTwo(size) <= p by {
        forall p | IsPowerOfTwo(p) && size <= p ensures CeilPowerOfTwo(size) <= p {
          CeilPowerOfTwoIsLeast(size, p);
        }
      }
      match this
      case Prime(_, _) => LowerBound(size, 0)
      case PowerOfTwo => CeilPowerOfTwo(size)
    }

    /** The slot count a rehash for so many items settles on, in a table of `count` elements. */
    ghost function SlotsFor(items: nat, count: nat, loadNum: nat, loadDen: nat): (r: nat)
      requires WellFormed() && loadNum > 0
      ensures r > 0 && (PowerOfTwo? ==> IsPowerOfTwo(r))
    {
      var wanted := Max(items, CeilDiv(count * loadDen, loadNum));
      if wanted == 0 then 1 else NextSizeOver(wanted)
    }

    /** It is the least size of the policy that has room for the items and keeps the elements
        within the maximal load; 1 when there is nothing to keep. */
    lemma SlotsForIsLeast(items: nat, count: nat, loadNum: nat, loadDen: nat)
      requires WellFormed() && loadNum > 0
      ensures var r := SlotsFor(items, count, loadNum, loadDen);
              && (items == 0 && count == 0 ==> r == 1)
              && (PowerOfTwo? ==>
                    && IsPowerOfTwo(r) && items <= r && count * loadDen <= r * loadNum
                    && forall p: nat :: IsPowerOfTwo(p) && items <= p && count * loadDen <= p * loadNum ==> r <= p)
              && (Prime? && (items > 0 || count * loadDen > 0) ==>
                    && r in primes
                    && (r == primes[|primes| - 1] || (items <= r && count * loadDen <= r * loadNum))
                    && forall i :: 0 <= i < |primes| && items <= primes[i] && count * loadDen <= primes[i] * loadNum ==>
                                     r <= primes[i])
    {
      var need := CeilDiv(count * loadDen, loadNum);
      var wanted := Max(items, need);
      var r := SlotsFor(items, count, loadNum, loadDen);
      CeilDivCovers(count * loadDen, loadNum, 0);
      CeilDivCovers(count * loadDen, loadNum, r);
      hide CeilDiv, IsPowerOfTwo;
      forall p: nat ensures count * loadDen <= p * loadNum <==> need <= p {
        CeilDivCovers(count * loadDen, loadNum, p);
      }
    }

    function Commit(slots: nat): (p: Policy)
      requires WellFormed() && slots > 0 && (PowerOfTwo? ==> IsPowerOfTwo(slots))
      ensures p.WellFormed() && p.Fits(slots)
      ensures forall limit: nat :: CanServe(limit) ==> p.CanServe(limit)
    {
      match this
      case Prime(ps, _) => Prime(ps, slots)
      case PowerOfTwo => PowerOfTwo
    }

    function Reset(): (p: Policy)
      requires WellFormed()
      ensures p.WellFormed() && p.Fits(1)
      ensures forall limit: nat :: CanServe(limit) ==> p.CanServe(limit)
    {
      match this
      case Prime(ps, _) => Prime(ps, 0)
      case PowerOfTwo => PowerOfTwo
    }
  }
}
