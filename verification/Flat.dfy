/** The flat hash table: Robin Hood open addressing with a bounded probe length and a
    sentinel behind the last slot. */
module Flat {
  import opened Naturals
  import opened Slots
  import opened HashPolicy
  import opened FlatProbe
  import opened FlatGrowth
  import Words

  const MIN_LOOKUPS := 4

  /** Where the walk from a key's home ended, and how far from it. */
  datatype Probe =
    | Found(slot: nat)
    | Missing(slot: nat, distance: nat)

  class Table<K(==,!new), V> {
    const hash: Hasher<K>
    /** The largest slot count the allocator serves; beyond it allocation fails. */
    const limit: nat
    /** The maximal load factor, as a fraction. */
    const loadNum: nat
    const loadDen: nat

    var policy: Policy
    var dist: array<int>
    var data: array<Option<(K, V)>>
    var slotsMinusOne: nat
    var maxLookups: nat
    var numElements: nat

    /** The map the table stands for. */
    ghost function Contents(): map<K, V>
      reads this, data
    {
      ToMap(data[..])
    }

    /** The sizes fit together; every distance fits a signed byte. */
    ghost predicate Fixed()
      reads this
    {
      && loadNum > 0 && loadDen > 0
      && policy.WellFormed() && policy.Fits(slotsMinusOne + 1) && policy.CanServe(limit)
      && slotsMinusOne < limit < 0x1_0000_0000_0000_0000
      && MIN_LOOKUPS - 1 <= maxLookups <= 63 && LookupsFit(slotsMinusOne + 1, maxLookups)
      && dist.Length == data.Length == slotsMinusOne + 1 + maxLookups
      && dist as object != data as object
    }

    /** Everything but the distances: what also holds when an insertion has given up, and
        all that a rehash relies on. */
    ghost predicate Loose()
      reads this, dist, data
    {
      Fixed() && Stored(dist[..], data[..]) && numElements == |Contents()|
    }

    /** A table at rest. */
    ghost predicate Valid()
      reads this, dist, data
    {
      && Fixed()
      && AtRest(dist[..], data[..], slotsMinusOne + 1, maxLookups, hash)
      && numElements == |Contents()|
    }

    /** The home slot of a key. */
    function HomeOf(key: K): (r: nat)
      reads this
      requires policy.Fits(slotsMinusOne + 1)
      ensures r == Remainder(hash.Of(key), slotsMinusOne + 1)
    {
      policy.IndexForHash(hash.Of(key), slotsMinusOne)
    }

    /** The position past the last element: the sentinel's. */
    function End(): nat
      reads this
    {
      slotsMinusOne + maxLookups
    }

    /** So many elements do not exceed the maximal load. */
    predicate HasRoomFor(count: nat)
      reads this`slotsMinusOne
    {
      count * loadDen <= (slotsMinusOne + 1) * loadNum
    }

    constructor (hash: Hasher<K>, policy: Policy, limit: nat, loadNum: nat, loadDen: nat)
      requires policy.WellFormed() && policy.Fits(1) && policy.CanServe(limit)
      requires 0 < limit < 0x1_0000_0000_0000_0000 && loadNum > 0 && loadDen > 0
      ensures Valid() && Contents() == map[] && fresh(dist) && fresh(data)
      ensures this.hash == hash && this.limit == limit
    {
      hide Remainder, IsPowerOfTwo, GrowthNeeded, ProbeEnd, Overflows, Crowding;
      this.hash, this.policy, this.limit := hash, policy, limit;
      this.loadNum, this.loadDen := loadNum, loadDen;
      dist := new int[4](i => if i == 3 then 0 else -1);
      data := new Option<(K, V)>[4](_ => None);
      slotsMinusOne, maxLookups, numElements := 0, MIN_LOOKUPS - 1, 0;
      new;
      EmptyAtRest(dist[..], data[..], 1, maxLookups, hash);
    }

    // ----- writes to one slot

    /** Stores an element with its distance, or destroys one. */
    method SetEntry(i: nat, distance: int, e: Option<(K, V)>)
      requires i < dist.Length == data.Length && dist as object != data as object
      modifies dist, data
      ensures dist[..] == old(dist[..])[i := distance]
      ensures data[..] == old(data[..])[i := e]
    {
      dist[i] := distance;
      data[i] := e;
    }

    /** Stores an element and leaves the slot's distance as it is. */
    method SetElement(i: nat, e: Option<(K, V)>)
      requires i < data.Length
      modifies data
      ensures data[..] == old(data[..])[i := e]
    {
      data[i] := e;
    }

    /** Moves an element to an earlier slot. */
    method MoveEntry(from: nat, to: nat, distance: int)
      requires from < dist.Length == data.Length && to < dist.Length && dist as object != data as object
      modifies dist, data
      ensures dist[..] == old(dist[..])[to := distance][from := -1]
      ensures data[..] == old(data[..])[to := old(data[from])][from := None]
    {
      SetEntry(to, distance, data[from]);
      SetEntry(from, -1, None);
    }

    /** Records the new count. */
    method Commit(count: nat)
      requires Fixed() && AtRest(dist[..], data[..], slotsMinusOne + 1, maxLookups, hash)
      requires count == |ToMap(data[..])|
      modifies this`numElements
      ensures Valid()
    {
      hide Remainder, IsPowerOfTwo, LookupsFit;
      numElements := count;
    }

    // ----- lookup

    /** The walk common to lookup and insertion. It stops before the sentinel is compared
        and within maxLookups + 1 slots. */
    method Locate(key: K) returns (r: Probe)
      requires Valid()
      ensures r.slot < data.Length
      ensures r.Found? <==> key in Contents()
      ensures r.Found? ==>
                data[r.slot] == Some((key, Contents()[key])) && HomeOf(key) <= r.slot < HomeOf(key) + maxLookups
      ensures r.Missing? ==>
                && r.distance == ProbeEnd(dist[..], HomeOf(key), 0)
                && r.distance <= maxLookups && r.slot == HomeOf(key) + r.distance
                && dist[r.slot] < r.distance
                && (r.distance > 0 ==> r.distance <= dist[r.slot - 1] + 1)
    {
      hide Remainder, IsPowerOfTwo, LookupsFit, GrowthNeeded, Overflows, Crowding;
      hide AtRest, Probing;
      ghost var n, most, h, s, d := slotsMinusOne + 1, maxLookups, hash, dist[..], data[..];
      ProbeStart(s, d, n, most, h, key);
      RestStores(s, d, n, most, h);
      var it: nat := policy.IndexForHash(hash.Of(key), slotsMinusOne);
      var distance: nat := 0;
      while dist[it] >= distance
        invariant it < dist.Length && distance <= maxLookups
        invariant Probing(s, d, n, h, key, it, distance)
        invariant ProbeEnd(s, HomeOf(key), 0) == ProbeEnd(s, HomeOf(key), distance) && it == HomeOf(key) + distance
        decreases dist.Length - it
      {
        ProbeStep(s, d, n, most, h, key, it, distance);
        if data[it].value.0 == key {
          Lookup(d, it);
          ProbePlace(s, d, n, h, key, it, distance);
          return Found(it);
        }
        it, distance := it + 1, distance + 1;
      }
      ProbeEnds(s, d, n, most, h, key, it, distance);
      ProbePlace(s, d, n, h, key, it, distance);
      r := Missing(it, distance);
    }

    /** The key's slot, or nothing: exactly when the key is in the map. */
    method Find(key: K) returns (r: Option<nat>)
      requires Valid()
      ensures r.Some? <==> key in Contents()
      ensures r.Some? ==> r.value < data.Length && data[r.value] == Some((key, Contents()[key]))
    {
      var p := Locate(key);
      r := if p.Found? then Some(p.slot) else None;
    }

    // ----- insertion

    /** The slot count the table asks for when it has to grow. */
    ghost function GrownSize(): nat
      reads this
      requires loadNum > 0 && policy.WellFormed()
    {
      NewSlots(Max(4, 2 * (slotsMinusOne + 1)))
    }

    /** That count fits what the allocator serves. */
    ghost predicate CanGrow()
      reads this
      requires Fixed()
    {
      GrownSize() <= limit
    }

    /** A new key does not fit the table as it is. */
    ghost predicate NeedsGrowth(key: K)
      reads this, dist
      requires Fixed()
    {
      GrowthNeeded(dist[..], slotsMinusOne + 1, maxLookups, HomeOf(key), numElements, loadNum, loadDen)
    }

    /** A table of n slots that holds some of the keys may have no room for another of them. */
    ghost predicate Crowds(n: nat, ks: set<K>) {
      Crowding(hash, loadNum, loadDen, n, ks)
    }

    /** Both arrays are the old ones, or both are new. */
    twostate predicate SameOrFresh()
      reads this
    {
      (dist == old(dist) && data == old(data)) || (fresh(dist) && fresh(data))
    }

    twostate predicate Kept()
      reads this
    {
      dist == old(dist) && data == old(data) && slotsMinusOne == old(slotsMinusOne)
    }

    /** What a successful insertion of the key means. */
    twostate predicate Emplaced(key: K, value: V, r: Placement)
      reads this, dist, data
    {
      && r.Placed?
      && Valid() && SameOrFresh()
      && slotsMinusOne >= old(slotsMinusOne)
      && Contents() == AddIfAbsent(old(Contents()), key, value)
      && r.inserted == (key !in old(Contents()))
      && r.slot < data.Length && key in Contents() && data[r.slot] == Some((key, Contents()[key]))
    }

    /** Where a new key goes that fits. */
    ghost function PlaceFor(key: K): nat
      reads this, dist
      requires Fixed()
    {
      HomeOf(key) + ProbeEnd(dist[..], HomeOf(key), 0)
    }

    /** The outcome of growing to n slots for these keys: a refusal if that is beyond the limit, and
        otherwise just that size, unless the keys crowd a table of it. */
    ghost predicate GrownTo(n: nat, ks: set<K>, placed: bool)
      reads this
    {
      if n > limit then !placed else (placed && slotsMinusOne + 1 == n) || Crowds(n, ks)
    }

    /** Inserts a key unless it is there. It fails only when the table cannot grow. */
    method Emplace(key: K, value: V) returns (r: Placement)
      requires Valid()
      modifies this, dist, data
      ensures if r.OutOfMemory? then Fixed() && !CanGrow() else Emplaced(key, value, r)
      ensures key !in old(Contents()) && !old(NeedsGrowth(key)) ==> r == Placed(old(PlaceFor(key)), true) && Kept()
      ensures key !in old(Contents()) && old(NeedsGrowth(key)) ==> GrownTo(old(GrownSize()), old(Contents()).Keys + {key}, r.Placed?)
      ensures key !in old(Contents()) && r.Placed? ==> HasRoomFor(numElements)
      ensures old(Contents()) == map[] && old(NeedsGrowth(key)) && 1 < old(GrownSize()) <= limit
              && loadDen <= old(GrownSize()) * loadNum ==>
                r.Placed? && slotsMinusOne + 1 == old(GrownSize())
      ensures key in old(Contents()) ==>
                r.Placed? && unchanged(this) && dist[..] == old(dist[..]) && data[..] == old(data[..])
      decreases Room(limit, slotsMinusOne + 1), 3
    {
      hide Remainder, IsPowerOfTwo, LookupsFit, ProbeEnd, HomeOf, GrownSize, NeedsGrowth, PlaceFor, HasRoomFor, Crowds, ToMap;
      FirstKey(key);
      var p := Locate(key);
      match p
      case Found(i) =>
        r := Placed(i, false);
      case Missing(i, distance) =>
        r := EmplaceNewKey(i, distance, key, value);
    }

    /** What the walk for an absent key has found out. */
    lemma WhetherItFits(slot: nat, distance: nat, key: K)
      requires Fixed() && distance == ProbeEnd(dist[..], HomeOf(key), 0) && slot == HomeOf(key) + distance
      ensures PlaceFor(key) == slot
      ensures NeedsGrowth(key) <==>
              slotsMinusOne == 0 || distance == maxLookups || !HasRoomFor(numElements + 1) || Overflows(dist[..], maxLookups, slot)
    {
      hide Remainder, IsPowerOfTwo, LookupsFit, ProbeEnd, Overflows;
    }

    /** As many keys as there are lookups crowd no table that may hold them. */
    lemma FewFit(n: nat, ks: set<K>)
      requires n > 1 && |ks| <= Max(MIN_LOOKUPS, FloorLog2(n)) && |ks| * loadDen <= n * loadNum
      ensures !Crowds(n, ks)
    {
      FewKeysFit(hash, loadNum, loadDen, n, ks);
    }

    /** Twice the present size, not below 4, with the elements within the maximal load. */
    ghost predicate GrowsEnough(n: nat)
      reads this
    {
      4 <= n && 2 * (slotsMinusOne + 1) <= n && numElements * loadDen <= n * loadNum
    }

    /** Growing asks for the least size of the policy that grows enough. */
    lemma GrownSizeIsLeast()
      requires loadNum > 0 && policy.WellFormed()
      ensures policy.PowerOfTwo? ==>
                && IsPowerOfTwo(GrownSize()) && GrowsEnough(GrownSize())
                && forall p: nat :: IsPowerOfTwo(p) && GrowsEnough(p) ==> GrownSize() <= p
      ensures policy.Prime? ==>
                && GrownSize() in policy.primes
                && (GrowsEnough(GrownSize()) || GrownSize() == policy.primes[|policy.primes| - 1])
                && forall p :: p in policy.primes && GrowsEnough(p) ==> GrownSize() <= p
    {
      policy.SlotsForIsLeast(Max(4, 2 * (slotsMinusOne + 1)), numElements, loadNum, loadDen);
    }

    /** If a key does not fit, the table shows that the keys crowd its size. */
    lemma CrowdedHere(key: K, all: set<K>)
      requires Valid() && NeedsGrowth(key)
      requires Contents().Keys <= all && key in all && key !in Contents()
      ensures Crowds(slotsMinusOne + 1, all)
    {
      hide Remainder, IsPowerOfTwo, LookupsFit, GrowthNeeded, Crowding, AtRest, ToMap;
      CrowdedFrom(dist[..], data[..], slotsMinusOne + 1, maxLookups, hash, loadNum, loadDen, key, all);
    }

    lemma CrowdsMore(n: nat, some: set<K>, all: set<K>)
      requires some <= all
      ensures Crowds(n, some) ==> Crowds(n, all)
    {
      if Crowds(n, some) {
        CrowdingGrows(hash, loadNum, loadDen, n, some, all);
      }
    }

    /** One key alone crowds no table that may hold one element. */
    lemma FirstKey(key: K)
      requires Fixed()
      ensures Contents() == map[] && 1 < GrownSize() && loadDen <= GrownSize() * loadNum ==>
                !Crowds(GrownSize(), Contents().Keys + {key})
    {
      if Contents() == map[] && 1 < GrownSize() && loadDen <= GrownSize() * loadNum {
        assert Contents().Keys + {key} == {key};
        FirstKeyFits(hash, loadNum, loadDen, GrownSize(), key);
      }
    }

    /** Adds a key that is not stored. */
    method EmplaceNewKey(slot: nat, distance: nat, key: K, value: V) returns (r: Placement)
      requires Valid() && key !in Contents()
      requires distance <= maxLookups && slot == HomeOf(key) + distance && slot < dist.Length
      requires distance == ProbeEnd(dist[..], HomeOf(key), 0)
      requires dist[slot] < distance && (distance > 0 ==> distance <= dist[slot - 1] + 1)
      modifies this, dist, data
      ensures if r.OutOfMemory? then Fixed() && !CanGrow() else Emplaced(key, value, r)
      ensures !old(NeedsGrowth(key)) ==> r == Placed(old(PlaceFor(key)), true) && Kept()
      ensures old(NeedsGrowth(key)) ==> GrownTo(old(GrownSize()), old(Contents()).Keys + {key}, r.Placed?)
      ensures r.Placed? ==> HasRoomFor(numElements)
      decreases Room(limit, slotsMinusOne + 1), 2
    {
      hide Remainder, IsPowerOfTwo, LookupsFit, NeedsGrowth, PlaceFor, HasRoomFor, Crowds, AtRest, Stored, ToMap;
      var ok := TryEmplace(slot, distance, key, value);
      if ok {
        r := Placed(slot, true);
      } else {
        r := GrowAndEmplace(key, value);
      }
    }

    /** Adds a key that is not stored, if it fits the table as it is. */
    method TryEmplace(slot: nat, distance: nat, key: K, value: V) returns (ok: bool)
      requires Valid() && key !in Contents()
      requires distance <= maxLookups && slot == HomeOf(key) + distance && slot < dist.Length
      requires distance == ProbeEnd(dist[..], HomeOf(key), 0)
      requires dist[slot] < distance && (distance > 0 ==> distance <= dist[slot - 1] + 1)
      modifies this`numElements, dist, data
      ensures ok <==> !old(NeedsGrowth(key))
      ensures ok ==> Valid() && slot == old(PlaceFor(key)) && HasRoomFor(numElements)
      ensures ok ==> Contents() == old(Contents())[key := value] && data[slot] == Some((key, value))
      ensures !ok ==> Loose() && Contents() == old(Contents())
      ensures numElements == old(numElements) + if ok then 1 else 0
    {
      hide Remainder, IsPowerOfTwo, LookupsFit, NeedsGrowth, GrowthNeeded, ProbeEnd, PlaceFor, HasRoomFor, Overflows;
      hide AtRest, Stored, ToMap;
      WhetherItFits(slot, distance, key);
      if slotsMinusOne == 0 || distance == maxLookups || !HasRoomFor(numElements + 1) {
        ValidIsLoose();
        return false;
      }
      assert Carrying(dist[..], data[..], slotsMinusOne + 1, maxLookups, hash, slot, distance, (key, value));
      hide Carrying;
      ok := PlaceOrDisplace(slot, distance, key, value);
    }

    /** Puts the new element into its slot, displacing what is there. It gives up exactly when
        that pushes some element too far. */
    method PlaceOrDisplace(slot: nat, distance: nat, key: K, value: V) returns (ok: bool)
      requires Fixed() && numElements == |Contents()|
      requires Carrying(dist[..], data[..], slotsMinusOne + 1, maxLookups, hash, slot, distance, (key, value))
      requires slot < dist.Length && dist[slot] < distance
      modifies this`numElements, dist, data
      ensures ok <==> !old(Overflows(dist[..], maxLookups, slot))
      ensures ok ==> Valid() && Contents() == old(Contents())[key := value] && data[slot] == Some((key, value))
      ensures !ok ==> Loose() && Contents() == old(Contents())
      ensures numElements == old(numElements) + if ok then 1 else 0
    {
      hide Remainder, IsPowerOfTwo, LookupsFit, Overflows, Carrying, AtRest, ToMap;
      if dist[slot] < 0 {
        EmptyNeverOverflows(dist[..], maxLookups, slot);
        PlaceNew(slot, distance, (key, value));
        ok := true;
      } else {
        ok := Displace(slot, distance, key, value);
      }
    }

    /** Puts the carried element into an empty slot. */
    method PlaceNew(cur: nat, c: nat, e: (K, V))
      requires Fixed() && numElements == |Contents()|
      requires Carrying(dist[..], data[..], slotsMinusOne + 1, maxLookups, hash, cur, c, e)
      requires cur < dist.Length && dist[cur] < 0
      modifies this`numElements, dist, data
      ensures Valid() && data[..] == old(data[..])[cur := Some(e)]
      ensures Contents() == old(Contents())[e.0 := e.1] && numElements == old(numElements) + 1
    {
      hide Remainder, IsPowerOfTwo, LookupsFit;
      PlaceCarried(dist[..], data[..], slotsMinusOne + 1, maxLookups, hash, cur, c, e);
      SetEntry(cur, c, Some(e));
      Commit(numElements + 1);
    }

    /** Swaps the carried element with a stored one that is closer to its home. */
    method SwapWith(cur: nat, c: nat, e: (K, V)) returns (c': nat, e': (K, V))
      requires Fixed()
      requires Carrying(dist[..], data[..], slotsMinusOne + 1, maxLookups, hash, cur, c, e)
      requires cur < dist.Length && 0 <= dist[cur] < c
      modifies dist, data
      ensures Carrying(dist[..], data[..], slotsMinusOne + 1, maxLookups, hash, cur + 1, c', e')
      ensures data[..] == old(data[..])[cur := Some(e)]
      ensures dist[..] == old(dist[..])[cur := c] && c' == old(dist[cur]) + 1
      ensures Contents()[e'.0 := e'.1] == old(Contents())[e.0 := e.1] && |Contents()| == old(|Contents()|)
    {
      hide Remainder, IsPowerOfTwo, LookupsFit;
      ghost var n, most, h := slotsMinusOne + 1, maxLookups, hash;
      ghost var s, d := dist[..], data[..];
      DisplaceNext(s, d, n, most, h, cur, c, e);
      c', e' := dist[cur] + 1, data[cur].value;
      ghost var s', d' := s[cur := c], d[cur := Some(e)];
      SetEntry(cur, c, Some(e));
      assert dist[..] == s' && data[..] == d';
      assert Carrying(s', d', n, most, h, cur + 1, c', e');
    }

    /** The insertion of (key, value) into a table that held m is under way: the new element is
        in slot `result`, and e, which was displaced, is being carried to slot cur. */
    ghost predicate Inserting(result: nat, cur: nat, c: nat, e: (K, V), key: K, value: V, m: map<K, V>)
      reads this, dist, data
    {
      && Fixed() && numElements == |Contents()|
      && Carrying(dist[..], data[..], slotsMinusOne + 1, maxLookups, hash, cur, c, e)
      && result < cur < dist.Length - 1 && data[result] == Some((key, value))
      && Contents()[e.0 := e.1] == m[key := value]
    }

    /** Carries an element past one at least as far from its home, unless that would take it
        too far: then it takes the place of the new element, with a distance that need not be
        its own, and the insertion gives up. */
    method PassOrPutBack(result: nat, cur: nat, c: nat, e: (K, V), key: K, value: V, ghost m: map<K, V>) returns (ok: bool)
      requires Inserting(result, cur, c, e, key, value, m) && key !in m
      requires c <= dist[cur]
      modifies data
      ensures ok <==> c + 1 != maxLookups
      ensures ok ==> Inserting(result, cur + 1, c + 1, e, key, value, m)
      ensures !ok ==> Loose() && Contents() == m
    {
      hide Remainder, IsPowerOfTwo, LookupsFit;
      if c + 1 == maxLookups {
        PutBack(dist[..], data[..], result, e, key, value, m);
        SetElement(result, Some(e));
        return false;
      }
      ghost var n, most, h, s, d := slotsMinusOne + 1, maxLookups, hash, dist[..], data[..];
      PassNext(s, d, n, most, h, cur, c, e);
      BeforeSentinel(s, d, n, most, h, cur + 1, c + 1, e);
      assert Carrying(s, d, n, most, h, cur + 1, c + 1, e);
      ok := true;
    }

    /** Swaps the carried element with a stored one that is closer to its home. */
    method SwapOnward(result: nat, cur: nat, c: nat, e: (K, V), key: K, value: V, ghost m: map<K, V>) returns (c': nat, e': (K, V))
      requires Inserting(result, cur, c, e, key, value, m)
      requires 0 <= dist[cur] < c
      modifies dist, data
      ensures Inserting(result, cur + 1, c', e', key, value, m)
      ensures dist[..] == old(dist[..])[cur := c] && c' == old(dist[cur]) + 1
    {
      hide Remainder, IsPowerOfTwo, LookupsFit, AtRest, ToMap;
      ghost var n, most, h := slotsMinusOne + 1, maxLookups, hash;
      c', e' := SwapWith(cur, c, e);
      ghost var s, d := dist[..], data[..];
      assert Carrying(s, d, n, most, h, cur + 1, c', e');
      BeforeSentinel(s, d, n, most, h, cur + 1, c', e');
    }

    /** Gives the slot to the new element and carries the displaced one on until an empty
        slot is found. It gives up exactly when the run of occupied slots holds an element that
        is already as far from its home as allowed. */
    method Displace(result: nat, distance: nat, key: K, value: V) returns (ok: bool)
      requires Fixed() && numElements == |Contents()|
      requires Carrying(dist[..], data[..], slotsMinusOne + 1, maxLookups, hash, result, distance, (key, value))
      requires result < dist.Length && 0 <= dist[result] < distance
      modifies this`numElements, dist, data
      ensures ok <==> !old(Overflows(dist[..], maxLookups, result))
      ensures numElements == old(numElements) + if ok then 1 else 0
      ensures ok ==> Valid() && Contents() == old(Contents())[key := value] && data[result] == Some((key, value))
      ensures !ok ==> Loose() && Contents() == old(Contents())
    {
      hide Remainder, IsPowerOfTwo, LookupsFit;
      ghost var m := Contents();
      ghost var n, most, h := slotsMinusOne + 1, maxLookups, hash;
      ghost var s0 := dist[..];
      CarriedAtRest(s0, data[..], n, most, h, result, distance, (key, value));
      DisplacingStarts(s0, n, most, result, distance);
      var c: nat, e := SwapWith(result, distance, (key, value));
      var cur: nat := result + 1;
      ghost var s, d := dist[..], data[..];
      assert Carrying(s, d, n, most, h, cur, c, e);
      BeforeSentinel(s, d, n, most, h, cur, c, e);
      ok := CarryOn(result, cur, c, e, key, value, m, s0);
    }

    method CarryOn(result: nat, first: nat, distance: nat, displaced: (K, V), key: K, value: V,
                   ghost m: map<K, V>, ghost s0: seq<int>) returns (ok: bool)
      requires Inserting(result, first, distance, displaced, key, value, m) && key !in m
      requires Displacing(s0, dist[..], slotsMinusOne + 1, maxLookups, result, first, distance)
      modifies this`numElements, dist, data
      ensures ok <==> !Overflows(s0, maxLookups, result)
      ensures numElements == old(numElements) + if ok then 1 else 0
      ensures ok ==> Valid() && Contents() == m[key := value] && data[result] == Some((key, value))
      ensures !ok ==> Loose() && Contents() == m
    {
      hide Remainder, IsPowerOfTwo, LookupsFit;
      hide Displacing, Overflows, AtRest, ToMap, Stored;
      ghost var n, most := slotsMinusOne + 1, maxLookups;
      var cur, c, e := first, distance, displaced;
      while dist[cur] >= 0
        invariant Inserting(result, cur, c, e, key, value, m)
        invariant Displacing(s0, dist[..], n, most, result, cur, c)
        decreases dist.Length - cur
      {
        ok, c, e := CarryPast(result, cur, c, e, key, value, m, s0);
        if !ok {
          return;
        }
        cur := cur + 1;
      }
      DisplacingEnds(s0, dist[..], n, most, result, cur, c);
      PlaceNew(cur, c, e);
      ok := true;
    }

    /** Carries an element past one slot, by a swap or not. It gives up where the element there is
        already as far from its home as allowed. */
    method CarryPast(result: nat, cur: nat, c: nat, e: (K, V), key: K, value: V, ghost m: map<K, V>, ghost s0: seq<int>)
      returns (ok: bool, c': nat, e': (K, V))
      requires Inserting(result, cur, c, e, key, value, m) && key !in m && dist[cur] >= 0
      requires Displacing(s0, dist[..], slotsMinusOne + 1, maxLookups, result, cur, c)
      modifies dist, data
      ensures ok ==> Inserting(result, cur + 1, c', e', key, value, m)
      ensures ok ==> Displacing(s0, dist[..], slotsMinusOne + 1, maxLookups, result, cur + 1, c')
      ensures !ok ==> Loose() && Contents() == m && Overflows(s0, maxLookups, result)
    {
      hide Remainder, IsPowerOfTwo, LookupsFit, Displacing, Overflows, AtRest, ToMap, Stored;
      ghost var n, most, s := slotsMinusOne + 1, maxLookups, dist[..];
      DisplacingOn(s0, s, n, most, result, cur, c);
      if dist[cur] < c {
        c', e' := SwapOnward(result, cur, c, e, key, value, m);
        ok := true;
      } else {
        ok := PassOrPutBack(result, cur, c, e, key, value, m);
        if !ok {
          DisplacingFails(s0, s, n, most, result, cur, c);
        }
        c', e' := c + 1, e;
      }
    }

    /** Makes the table larger and starts over. */
    method GrowAndEmplace(key: K, value: V) returns (r: Placement)
      requires Loose() && key !in Contents()
      modifies this
      ensures if r.OutOfMemory? then Fixed() && !CanGrow() else Emplaced(key, value, r)
      ensures GrownTo(old(GrownSize()), old(Contents()).Keys + {key}, r.Placed?)
      ensures r.Placed? ==> HasRoomFor(numElements)
      decreases Room(limit, slotsMinusOne + 1), 1
    {
      hide Remainder, IsPowerOfTwo, GrownSize, LookupsFit, NeedsGrowth, PlaceFor, HasRoomFor, Crowds, AtRest, Stored, ToMap;
      ghost var n, all := GrownSize(), Contents().Keys;
      var ok := Grow();
      CrowdsMore(n, all, all + {key});
      if !ok {
        return OutOfMemory;
      }
      if NeedsGrowth(key) {
        CrowdedHere(key, all + {key});
      }
      r := Emplace(key, value);
    }

    // ----- growth

    /** The slot count a rehash for this many buckets settles on. */
    ghost function NewSlots(numBuckets: nat): (r: nat)
      reads this
      requires loadNum > 0 && policy.WellFormed()
      ensures r > 0
    {
      policy.SlotsFor(numBuckets, numElements, loadNum, loadDen)
    }

    /** The longest probe allowed in a table of this many slots. */
    method ComputeMaxLookups(slots: nat) returns (r: nat)
      requires 0 < slots < 0x1_0000_0000_0000_0000
      ensures MIN_LOOKUPS <= r <= 63 && FloorLog2(slots) <= r
      ensures (r == MIN_LOOKUPS || r == FloorLog2(slots)) && LookupsFit(slots, r)
    {
      LogBound(slots);
      var desired := Words.Log2(slots);
      r := Max(MIN_LOOKUPS, desired);
    }

    /** Replaces the arrays by empty ones. */
    method Allocate(slots: nat, lookups: nat, committed: Policy)
      requires loadNum > 0 && loadDen > 0
      requires 0 < slots <= limit < 0x1_0000_0000_0000_0000 && MIN_LOOKUPS - 1 <= lookups <= 63
      requires committed.WellFormed() && committed.Fits(slots) && committed.CanServe(limit)
      requires LookupsFit(slots, lookups)
      modifies this
      ensures Valid() && Contents() == map[] && fresh(dist) && fresh(data)
      ensures slotsMinusOne + 1 == slots
    {
      hide Remainder, IsPowerOfTwo, LookupsFit, AtRest, ToMap;
      var newDist := new int[slots + lookups](i => if i == slots + lookups - 1 then 0 else -1);
      var newData := new Option<(K, V)>[slots + lookups](_ => None);
      ghost var s, d := newDist[..], newData[..];
      EmptyAtRest(s, d, slots, lookups, hash);
      dist, data := newDist, newData;
      slotsMinusOne, maxLookups, numElements := slots - 1, lookups, 0;
      policy := committed;
      assert dist[..] == s && data[..] == d;
    }

    /** Moves the elements into a table of another size. It reads no distance of the old one
        but for its sign, so it also repairs a table left behind by `Displace`. */
    method Rehash(numBuckets: nat) returns (ok: bool)
      requires Loose()
      modifies this
      ensures ok ==> Contents() == old(Contents())
      ensures ok ==> unchanged(this) || (Valid() && fresh(dist) && fresh(data))
      ensures ok && old(NewSlots(numBuckets)) != old(slotsMinusOne) + 1 ==>
                Valid() && fresh(dist) && fresh(data) && old(NewSlots(numBuckets)) <= slotsMinusOne + 1
      ensures !ok ==> Fixed() && ((old(NewSlots(numBuckets)) > limit && unchanged(this)) || !CanGrow())
      ensures GrownTo(old(NewSlots(numBuckets)), old(Contents()).Keys, ok)
      ensures old(NewSlots(numBuckets)) == old(slotsMinusOne) + 1 && (numBuckets > 0 || old(numElements) > 0) ==>
                unchanged(this)
      decreases Room(limit, NewSlots(numBuckets)), 7
    {
      var wanted := Max(numBuckets, CeilDiv(numElements * loadDen, loadNum));
      if wanted == 0 {
        assert Contents() == map[];
        Allocate(1, MIN_LOOKUPS - 1, policy.Reset());
        return true;
      }
      var slots := policy.NextSizeOver(wanted);
      if slots == slotsMinusOne + 1 {
        return true;
      }
      if slots > limit {
        return false;
      }
      ok := Rebuild(slots);
    }

    /** Allocates another table and moves the elements over. */
    method Rebuild(slots: nat) returns (ok: bool)
      requires Loose() && 0 < slots <= limit && (policy.PowerOfTwo? ==> IsPowerOfTwo(slots))
      modifies this
      ensures ok ==> Valid() && Contents() == old(Contents()) && fresh(dist) && fresh(data)
      ensures ok ==> slots <= slotsMinusOne + 1
      ensures !ok ==> Fixed() && !CanGrow()
      ensures (ok && slotsMinusOne + 1 == slots) || Crowds(slots, old(Contents()).Keys)
      decreases Room(limit, slots), 6
    {
      var oldDist, oldData, oldEnd := dist, data, End();
      ghost var m := BeforeSentinelIsAll();
      hide Remainder, IsPowerOfTwo, LookupsFit, Crowds, AtRest, Stored, ToMap;
      var lookups := ComputeMaxLookups(slots);
      Allocate(slots, lookups, policy.Commit(slots));
      ok := Refill(oldDist, oldData, oldEnd);
    }

    lemma BeforeSentinelIsAll() returns (m: map<K, V>)
      requires Loose()
      ensures m == Contents() == ToMap(data[..End()])
    {
      m := Contents();
      LastIsNone(data[..]);
      assert data[..][..End()] == data[..End()];
    }

    /** Inserts what the old arrays hold before the sentinel. */
    method Refill(oldDist: array<int>, oldData: array<Option<(K, V)>>, oldEnd: nat) returns (ok: bool)
      requires Valid() && Contents() == map[]
      requires oldEnd + 1 == oldDist.Length && Stored(oldDist[..], oldData[..])
      requires {oldDist as object, oldData as object} !! {this, dist as object, data as object}
      modifies this, dist, data
      ensures ok ==> Valid() && SameOrFresh() && Contents() == ToMap(oldData[..oldEnd])
      ensures ok ==> old(slotsMinusOne) <= slotsMinusOne
      ensures !ok ==> Fixed() && !CanGrow()
      ensures (ok && slotsMinusOne == old(slotsMinusOne)) ||
              Crowds(old(slotsMinusOne) + 1, ToMap(old(oldData[..oldEnd])).Keys)
      decreases Room(limit, slotsMinusOne + 1), 5
    {
      hide Remainder, IsPowerOfTwo, HasRoomFor, Crowds, AtRest, LookupsFit;
      for i := 0 to oldEnd
        invariant Valid() && SameOrFresh() && old(slotsMinusOne) <= slotsMinusOne
        invariant oldDist[..] == old(oldDist[..]) && oldData[..] == old(oldData[..])
        invariant {oldDist as object, oldData as object} !! {this, dist as object, data as object}
        invariant Contents() == ToMap(oldData[..i])
        invariant slotsMinusOne == old(slotsMinusOne) || Crowds(old(slotsMinusOne) + 1, ToMap(old(oldData[..oldEnd])).Keys)
      {
        ghost var d := oldData[..oldEnd];
        assert d[..i] == oldData[..i] && d[..i + 1] == oldData[..i + 1] && oldData[..i + 1][..i] == oldData[..i];
        if oldDist[i] >= 0 {
          var e := oldData[i].value;
          ok := EmplaceNext(e.0, e.1, d, i, old(slotsMinusOne) + 1);
          if !ok {
            return;
          }
        }
      }
      ok := true;
    }

    /** Inserts the i-th of the old elements into a table that holds those before it. If that makes
        it larger than n slots, the keys crowd a table of n. */
    method EmplaceNext(key: K, value: V, ghost d: seq<Option<(K, V)>>, ghost i: nat, ghost n: nat) returns (ok: bool)
      requires Valid() && i < |d| && d[i] == Some((key, value)) && DistinctKeys(d) && Contents() == ToMap(d[..i])
      requires n > 0 && (slotsMinusOne + 1 == n || Crowds(n, ToMap(d).Keys))
      modifies this, dist, data
      ensures ok ==> Valid() && SameOrFresh() && Contents() == ToMap(d[..i + 1]) && old(slotsMinusOne) <= slotsMinusOne
      ensures (ok && slotsMinusOne + 1 == n) || Crowds(n, ToMap(d).Keys)
      ensures !ok ==> Fixed() && !CanGrow()
      decreases Room(limit, slotsMinusOne + 1), 4
    {
      hide Remainder, IsPowerOfTwo, HomeOf, NeedsGrowth, PlaceFor, HasRoomFor, GrownSize, Crowds, AtRest, LookupsFit;
      assert d[..i + 1][..i] == d[..i];
      CrowdedAt(d, i);
      var r := Emplace(key, value);
      ok := r.Placed?;
    }

    /** If the next of these elements does not fit, the keys crowd the table. */
    lemma CrowdedAt(d: seq<Option<(K, V)>>, i: nat)
      requires Valid() && i < |d| && d[i].Some? && DistinctKeys(d)
      requires Contents() == ToMap(d[..i])
      ensures d[i].value.0 !in Contents()
      ensures NeedsGrowth(d[i].value.0) ==> Crowds(slotsMinusOne + 1, ToMap(d).Keys)
    {
      hide Remainder, IsPowerOfTwo, LookupsFit, NeedsGrowth, Crowds, AtRest, ToMap;
      var k := d[i].value.0;
      if k in ToMap(d[..i]) {
        var j := Origin(d[..i], k);
        assert false;
      }
      Lookup(d, i);
      PrefixKeys(d, i);
      if NeedsGrowth(k) {
        CrowdedHere(k, ToMap(d).Keys);
      }
    }

    method Grow() returns (ok: bool)
      requires Loose()
      modifies this
      ensures ok ==> Valid() && Contents() == old(Contents()) && fresh(dist) && fresh(data)
      ensures ok ==> slotsMinusOne > old(slotsMinusOne)
      ensures !ok ==> Fixed() && !CanGrow()
      ensures GrownTo(old(GrownSize()), old(Contents()).Keys, ok)
      decreases Room(limit, slotsMinusOne + 1), 0
    {
      ok := Rehash(Max(4, 2 * (slotsMinusOne + 1)));
    }

    // ----- removal

    /** Empties a slot. */
    method Destroy(i: nat)
      requires Valid() && i < data.Length && data[i].Some?
      modifies dist, data
      ensures Hole(dist[..], data[..], slotsMinusOne + 1, maxLookups, hash, i)
      ensures Contents() == old(Contents()) - {old(data[i]).value.0} && |Contents()| == numElements - 1
    {
      hide Remainder, IsPowerOfTwo, LookupsFit;
      OpenHole(dist[..], data[..], slotsMinusOne + 1, maxLookups, hash, i);
      SetEntry(i, -1, None);
    }

    /** Moves the element behind the hole into it. */
    method ShiftBack(hole: nat)
      requires Fixed() && Hole(dist[..], data[..], slotsMinusOne + 1, maxLookups, hash, hole)
      requires hole + 1 < dist.Length && dist[hole + 1] > 0
      modifies dist, data
      ensures hole + 2 < dist.Length && Hole(dist[..], data[..], slotsMinusOne + 1, maxLookups, hash, hole + 1)
      ensures Contents() == old(Contents())
    {
      hide Remainder, IsPowerOfTwo, LookupsFit;
      ghost var n, most, h, s, d := slotsMinusOne + 1, maxLookups, hash, dist[..], data[..];
      ShiftHole(s, d, n, most, h, hole);
      ghost var s', d' := s[hole := s[hole + 1] - 1][hole + 1 := -1], d[hole := d[hole + 1]][hole + 1 := None];
      MoveEntry(hole + 1, hole, dist[hole + 1] - 1);
      assert dist[..] == s' && data[..] == d';
      assert Hole(s', d', n, most, h, hole + 1);
    }

    /** Shifts the displaced elements behind the hole back by one. It ends at the sentinel at
        the latest. */
    method CloseUp(hole: nat)
      requires Fixed() && Hole(dist[..], data[..], slotsMinusOne + 1, maxLookups, hash, hole)
      modifies dist, data
      ensures AtRest(dist[..], data[..], slotsMinusOne + 1, maxLookups, hash)
      ensures Contents() == old(Contents())
    {
      hide Remainder, IsPowerOfTwo, LookupsFit;
      hide Hole, AtRest;
      var cur: nat := hole;
      ghost var n, most, h := slotsMinusOne + 1, maxLookups, hash;
      HoleInside(dist[..], data[..], n, most, h, cur);
      while dist[cur + 1] > 0
        invariant Fixed() && cur + 1 < dist.Length && Contents() == old(Contents())
        invariant Hole(dist[..], data[..], slotsMinusOne + 1, maxLookups, hash, cur)
        decreases dist.Length - cur
      {
        ShiftBack(cur);
        cur := cur + 1;
      }
      ghost var s, d := dist[..], data[..];
      CloseHole(s, d, n, most, h, cur);
      assert AtRest(s, d, n, most, h);
    }

    /** Removes the element of slot i and no other, shifting the displaced elements behind it
        back by one. */
    method Erase(i: nat)
      requires Valid() && i < data.Length && data[i].Some?
      modifies this`numElements, dist, data
      ensures Valid()
      ensures Contents() == old(Contents()) - {old(data[i]).value.0}
    {
      hide Remainder, IsPowerOfTwo, LookupsFit;
      Destroy(i);
      CloseUp(i);
      Commit(numElements - 1);
    }

    method EraseKey(key: K) returns (removed: nat)
      requires Valid()
      modifies this`numElements, dist, data
      ensures Valid() && Contents() == old(Contents()) - {key}
      ensures removed == if key in old(Contents()) then 1 else 0
    {
      hide Remainder, IsPowerOfTwo, LookupsFit;
      var found := Find(key);
      if found.None? {
        return 0;
      }
      Erase(found.value);
      removed := 1;
    }

    // ----- removal of a range

    /** A position an iterator may have: an element, or the sentinel. */
    ghost predicate IsPosition(i: nat)
      reads this, dist
    {
      i < dist.Length && dist[i] >= 0
    }

    /** Destroys the element of a slot, if there is one. */
    method DestroyIfAny(it: nat, ghost s: seq<int>, ghost d: seq<Option<(K, V)>>, ghost lo: nat)
      requires Fixed() && numElements == |Contents()| && lo <= it < dist.Length - 1
      requires Dropped(s, d, dist[..], data[..], lo, it) && Stored(s, d) && s[it] >= -1
      modifies this`numElements, dist, data
      ensures Fixed() && numElements == |Contents()|
      ensures Dropped(s, d, dist[..], data[..], lo, it + 1)
    {
      hide Remainder, IsPowerOfTwo, LookupsFit;
      hide Dropped, Stored;
      DropIfAny(s, d, dist[..], data[..], lo, it);
      if dist[it] >= 0 {
        ghost var s', d' := dist[..][it := -1], data[..][it := None];
        SetEntry(it, -1, None);
        assert dist[..] == s' && data[..] == d';
        numElements := numElements - 1;
      }
    }

    /** Destroys the elements of a range of slots. */
    method DestroyRange(lo: nat, hi: nat)
      requires Valid() && lo <= hi < dist.Length
      modifies this`numElements, dist, data
      ensures numElements == |Contents()|
      ensures Dropped(old(dist[..]), old(data[..]), dist[..], data[..], lo, hi)
    {
      hide Remainder, IsPowerOfTwo, LookupsFit, AtRest, Dropped, Stored, ToMap, DistinctKeys;
      ghost var s, d := dist[..], data[..];
      RestStores(s, d, slotsMinusOne + 1, maxLookups, hash);
      StoredDistinct(s, d);
      DropNothing(s, d, lo);
      var it: nat := lo;
      while it < hi
        invariant Fixed() && numElements == |Contents()| && lo <= it <= hi
        invariant Dropped(s, d, dist[..], data[..], lo, it)
      {
        DestroyIfAny(it, s, d, lo);
        it := it + 1;
      }
    }

    /** Moves one element back by m slots, then empties the slot it was in. */
    method ShiftOver(it: nat, m: int, ghost v: nat, ghost s0: seq<int>, ghost d0: seq<Option<(K, V)>>, ghost first: nat, ghost r: int)
      requires Fixed() && it < dist.Length && dist[it] > 0 && m == Min(dist[it], v)
      requires Closing(s0, d0, dist[..], data[..], slotsMinusOne + 1, maxLookups, hash, first, it, v, r)
      modifies dist, data
      ensures m >= 0 && it + 1 < dist.Length && (v > 0 <==> m > 0)
      ensures Closing(s0, d0, dist[..], data[..], slotsMinusOne + 1, maxLookups, hash, first, it + 1, m, r)
    {
      hide Remainder, IsPowerOfTwo, LookupsFit, Closing;
      ghost var n, most, h, s, d := slotsMinusOne + 1, maxLookups, hash, dist[..], data[..];
      ClosingStep(s0, d0, s, d, n, most, h, first, it, v, r, m);
      ghost var s', d' := s[it - m := s[it] - m][it := -1], d[it - m := d[it]][it := None];
      MoveEntry(it, it - m, dist[it] - m);
      assert dist[..] == s' && data[..] == d';
    }

    /** Moves the run of displaced elements from `first` on back over the `width` empty slots
        before it, each as far as it may. Over no slots at all they are moved onto themselves
        and then destroyed. */
    method CloseGapAt(first: nat, width: nat) returns (r: int)
      requires Fixed() && IsPosition(first)
      requires Closing(dist[..], data[..], dist[..], data[..], slotsMinusOne + 1, maxLookups, hash, first, first, width,
                       first - Min(dist[first], width))
      modifies dist, data
      ensures width > 0 ==>
                && AtRest(dist[..], data[..], slotsMinusOne + 1, maxLookups, hash) && Contents() == old(Contents())
                && 0 <= r < data.Length && data[r] == old(data[first])
      ensures r == first - Min(old(dist[first]), width) && old(dist[dist.Length - 1]) <= 0
      ensures width == 0 ==>
                Dropped(old(dist[..]), old(data[..]), dist[..], data[..], first, RunEnd(old(dist[..]), first))
    {
      hide Remainder, IsPowerOfTwo, LookupsFit, Closing;
      ghost var n, most, h, s0, d0 := slotsMinusOne + 1, maxLookups, hash, dist[..], data[..];
      var it: nat, numToMove := first, Min(dist[first], width);
      r := first - numToMove;
      ghost var v: nat := width;
      while dist[it] > 0
        invariant Fixed() && it < dist.Length && numToMove == Min(dist[it], v) && (v > 0 <==> width > 0)
        invariant Closing(s0, d0, dist[..], data[..], n, most, h, first, it, v, r)
        decreases dist.Length - it
      {
        ShiftOver(it, numToMove, v, s0, d0, first, r);
        v := numToMove;
        it := it + 1;
        numToMove := Min(dist[it], numToMove);
      }
      ClosingEnds(s0, d0, dist[..], data[..], n, most, h, first, it, v, r);
    }

    /** Destroys a range of elements and closes the gap, unless it reaches the end. */
    method EraseSlots(first: nat, last: nat) returns (r: int)
      requires Valid() && IsPosition(first) && IsPosition(last) && first <= last
      modifies this`numElements, dist, data
      ensures Fixed() && old(dist[dist.Length - 1]) <= 0
      ensures numElements == |old(Contents()) - KeysBetween(old(data[..]), first, last)|
      ensures RangeErased(old(dist[..]), old(data[..]), dist[..], data[..], slotsMinusOne + 1, maxLookups, hash, first, last, r)
    {
      hide Remainder, IsPowerOfTwo, LookupsFit, AtRest, Dropped, Closing, RangeErased, KeysBetween, ToMap, RunEnd;
      ghost var n, most, h, s0, d0 := slotsMinusOne + 1, maxLookups, hash, dist[..], data[..];
      DestroyRange(first, last);
      ghost var s1, d1 := dist[..], data[..];
      ClosingStarts(s0, d0, s1, d1, n, most, h, first, last);
      if last == End() {
        ClosingEnds(s1, d1, s1, d1, n, most, h, last, last, last - first, last - Min(s1[last], last - first));
        r := last;
      } else {
        r := CloseGapAt(last, last - first);
      }
      RangeErasedAfter(s0, d0, s1, d1, dist[..], data[..], n, most, h, first, last, r);
    }

    /** Removes the elements from `first` up to but excluding `last`, and no others; the result
        is where the element at `last` has gone. This holds for every non-empty range, and for
        an empty one if and only if it does not stand before a displaced element: before one,
        that element and the displaced ones behind it are lost, and the count is off. */
    method EraseRange(first: nat, last: nat) returns (r: int)
      requires Valid() && IsPosition(first) && IsPosition(last) && first <= last
      modifies this`numElements, dist, data
      ensures (first < last || old(dist[last]) == 0) ==>
                && Valid()
                && Contents() == old(Contents()) - KeysBetween(old(data[..]), first, last)
                && r == last - Min(old(dist[last]), last - first) && (last == End() ==> r == last)
                && 0 <= r < data.Length && data[r] == old(data[last])
      ensures first == last && old(dist[last]) > 0 ==>
                && !Valid()
                && old(dist[dist.Length - 1]) <= 0
                && Contents() == old(Contents()) - KeysBetween(old(data[..]), last, RunEnd(old(dist[..]), last))
                && old(data[last]).Some? && old(data[last]).value.0 !in Contents()
    {
      hide Remainder, IsPowerOfTwo, LookupsFit, AtRest, RangeErased, KeysBetween, ToMap, RunEnd;
      ghost var n, most, h, s, d := slotsMinusOne + 1, maxLookups, hash, dist[..], data[..];
      r := EraseSlots(first, last);
      ghost var s', d' := dist[..], data[..];
      if first == last && s[last] > 0 {
        RangeLost(s, d, s', d', n, most, h, last, r);
      } else {
        RangeKept(s, d, s', d', n, most, h, first, last, r);
      }
    }

    /** Removes all elements. */
    method Clear()
      requires Valid()
      modifies this`numElements, dist, data
      ensures Valid() && Contents() == map[]
    {
      hide Remainder, IsPowerOfTwo, LookupsFit;
      ghost var n, most, h := slotsMinusOne + 1, maxLookups, hash;
      Wipe();
      ghost var s, d := dist[..], data[..];
      EmptyAtRest(s, d, n, most, h);
      Commit(0);
    }

    /** Empties every slot before the sentinel. */
    method Wipe()
      requires Valid()
      modifies dist, data
      ensures forall i :: 0 <= i < dist.Length ==> dist[i] == (if i == dist.Length - 1 then 0 else -1) && data[i].None?
    {
      hide Remainder, IsPowerOfTwo, LookupsFit;
      for i := 0 to End()
        invariant forall k :: 0 <= k < i ==> dist[k] == -1 && data[k].None?
        invariant forall k :: i <= k < dist.Length ==> dist[k] == old(dist[k]) && data[k] == old(data[k])
      {
        if dist[i] >= 0 {
          dist[i] := -1;
          data[i] := None;
        }
      }
    }

    // ----- iteration, from the first slot to the sentinel

    /** r is the first position from i on. */
    ghost predicate IsNext(i: nat, r: nat)
      reads this, dist
    {
      i <= r && IsPosition(r) && forall k :: i <= k < r && k < dist.Length ==> dist[k] < 0
    }

    /** Skips empty slots; the sentinel stops it. */
    method SkipEmpty(i: nat) returns (r: nat)
      requires Valid() && i < dist.Length
      ensures IsNext(i, r)
    {
      hide Remainder, IsPowerOfTwo, LookupsFit;
      r := i;
      while dist[r] < 0
        invariant i <= r < dist.Length
        invariant forall k :: i <= k < r ==> dist[k] < 0
        decreases dist.Length - r
      {
        r := r + 1;
      }
    }

    method Begin() returns (r: nat)
      requires Valid()
      ensures IsNext(0, r)
    {
      r := SkipEmpty(0);
    }

    /** A full iteration visits every element exactly once. */
    method Iterate() returns (visited: seq<nat>)
      requires Valid()
      ensures forall i, j :: 0 <= i < j < |visited| ==> visited[i] < visited[j]
      ensures forall i: nat :: i in visited <==> i < data.Length && data[i].Some?
    {
      hide Remainder, IsPowerOfTwo, LookupsFit, AtRest, Stored;
      RestStores(dist[..], data[..], slotsMinusOne + 1, maxLookups, hash);
      visited := [];
      var it := Begin();
      while it != End()
        invariant IsPosition(it)
        invariant forall i, j :: 0 <= i < j < |visited| ==> visited[i] < visited[j]
        invariant forall i :: 0 <= i < |visited| ==> visited[i] < it
        invariant forall i: nat :: i in visited <==> i < it && dist[i] >= 0
        decreases dist.Length - it
      {
        visited := visited + [it];
        it := SkipEmpty(it + 1);
      }
    }

    // ----- whole runs

    /** The element count is the number of slots in use. */
    lemma SizeIsCount()
      requires Valid()
      ensures numElements == Count(data[..])
    {
      CountIsSize(data[..]);
    }

    /** The operation's positions are positions of this table, and not an empty range before a displaced element. */
    predicate InPlace(op: Op<K, V>)
      reads this, dist, data
    {
      match op
      case DropAt(i) => i < data.Length && data[i].Some?
      case DropRange(lo, hi) => lo <= hi < dist.Length && dist[lo] >= 0 && dist[hi] >= 0 && (lo < hi || dist[hi] == 0)
      case _ => true
    }

    /** An operation fails only on a position it must not be given, or on a size the allocator
        does not serve. */
    ghost predicate Refused(op: Op<K, V>)
      reads this, dist, data
      requires Fixed()
    {
      !InPlace(op) || !CanGrow() || (op.Resize? && NewSlots(op.size) > limit)
    }

    /** Erasing by position removes what the slot holds. */
    method EraseAt(i: nat)
      requires Valid() && i < data.Length && data[i].Some?
      modifies this`numElements, dist, data
      ensures Valid() && Contents() == old(Contents()) - KeysBetween(old(data[..]), i, i + 1)
    {
      hide Remainder, IsPowerOfTwo, LookupsFit, AtRest;
      KeysOfOne(data[..], i);
      hide ToMap, KeysBetween;
      Erase(i);
    }

    method RemoveAt(op: Op<K, V>)
      requires Valid() && InPlace(op) && ByPosition(op)
      modifies this`numElements, dist, data
      ensures Valid() && Contents() == Apply(old(data[..]), op)
    {
      hide Remainder, IsPowerOfTwo, LookupsFit, AtRest, ToMap, KeysBetween;
      match op
      case DropAt(i) => EraseAt(i);
      case DropRange(lo, hi) => var r := EraseRange(lo, hi);
    }

    lemma ValidIsLoose()
      requires Valid()
      ensures Loose()
    {
      RestStores(dist[..], data[..], slotsMinusOne + 1, maxLookups, hash);
    }

    method PutKey(key: K, value: V) returns (ok: bool)
      requires Valid()
      modifies this, dist, data
      ensures ok ==> Valid() && SameOrFresh() && Contents() == AddIfAbsent(old(Contents()), key, value)
      ensures !ok ==> Fixed() && !CanGrow()
    {
      hide Remainder, IsPowerOfTwo, LookupsFit, NeedsGrowth, PlaceFor, HasRoomFor, Crowds, AtRest, ToMap, GrownTo, GrownSize;
      var r := Emplace(key, value);
      ok := r.Placed?;
    }

    /** An operation does to the table what it does to a map. */
    method Perform(op: Op<K, V>) returns (ok: bool)
      requires Valid() && InPlace(op)
      modifies this, dist, data
      ensures ok ==> Valid() && SameOrFresh() && Contents() == Apply(old(data[..]), op)
      ensures !ok ==> Fixed() && Refused(op)
    {
      ValidIsLoose();
      hide Remainder, IsPowerOfTwo, LookupsFit, NeedsGrowth, PlaceFor, HasRoomFor, Crowds, AtRest, Stored, ToMap, KeysBetween, GrownTo, InPlace;
      ok := true;
      match op
      case Put(key, value) =>
        ok := PutKey(key, value);
      case Drop(key) =>
        var removed := EraseKey(key);
      case Wipe =>
        Clear();
      case Resize(size) =>
        ok := Rehash(size);
      case _ =>
        RemoveAt(op);
    }

    /** So does every sequence of operations, whatever it grows, displaces and moves inside:
        operations by position remove what the slots hold at that moment, and those by key mean
        the same wherever the elements are. */
    method Run(ops: seq<Op<K, V>>) returns (ok: bool, ghost h: seq<seq<Option<(K, V)>>>)
      requires Valid()
      modifies this, dist, data
      ensures ok ==> Valid() && IsHistory(h, ops) && h[0] == old(data[..]) && h[|ops|] == data[..]
      ensures ok && (forall op :: op in ops ==> !ByPosition(op)) ==> Contents() == ApplyAll(old(Contents()), ops)
      ensures !ok ==> Fixed() && exists i :: 0 <= i < |ops| && Refused(ops[i])
    {
      hide Remainder, IsPowerOfTwo, LookupsFit;
      h := [data[..]];
      for i := 0 to |ops|
        invariant Valid() && SameOrFresh()
        invariant IsHistory(h, ops[..i]) && h[0] == old(data[..]) && h[i] == data[..]
      {
        if !InPlace(ops[i]) {
          return false, h;
        }
        ok := Perform(ops[i]);
        if !ok {
          return;
        }
        HistoryGrows(h, ops[..i], ops[i], data[..]);
        assert ops[..i] + [ops[i]] == ops[..i + 1];
        h := h + [data[..]];
      }
      assert ops[..|ops|] == ops;
      if forall op :: op in ops ==> !ByPosition(op) {
        HistoryByKey(h, ops);
      }
      ok := true;
    }
  }
}
