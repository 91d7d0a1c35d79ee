/** The bytell hash table: open addressing whose collision chains are threaded
    through one control byte per slot. */
module Bytell {
  import opened Naturals
  import opened Slots
  import opened HashPolicy
  import opened BytellChains
  import opened BytellSteps
  import opened BytellGrowth
  import opened BytellJumps

  /** Where the walk along a key's chain ended. */
  datatype Probe =
    | Found(slot: nat)
    | NoChain(slot: nat)
    | EndOfChain(slot: nat)

  /** A slot together with its distance from the head of its chain. */
  type Ranked = (nat, nat)

  ghost predicate NoRepeats(s: seq<Ranked>) {
    forall i, j :: 0 <= i < j < |s| ==> s[i] != s[j]
  }

  ghost predicate SortedByDepth(s: seq<Ranked>) {
    forall i, j :: 0 <= i < j < |s| ==> s[i].0 <= s[j].0
  }

  lemma RepeatCounts(s: seq<Ranked>, i: nat, j: nat)
    requires i < j < |s| && s[i] == s[j]
    ensures multiset(s)[s[i]] >= 2
  {
    assert s == s[..j] + [s[j]] + s[j + 1..];
    assert s[i] in s[..j];
  }

  lemma {:induction false} NoRepeatsCounts(s: seq<Ranked>, x: Ranked)
    requires NoRepeats(s)
    ensures multiset(s)[x] <= 1
  {
    if s != [] {
      var last := |s| - 1;
      assert s == s[..last] + [s[last]];
      NoRepeatsCounts(s[..last], x);
    }
  }

  /** Reordering introduces no repetition. */
  lemma ReorderNoRepeats(s: seq<Ranked>, r: seq<Ranked>)
    requires multiset(s) == multiset(r) && NoRepeats(s)
    ensures NoRepeats(r)
  {
    forall i, j | 0 <= i < j < |r| ensures r[i] != r[j] {
      if r[i] == r[j] {
        RepeatCounts(r, i, j);
        NoRepeatsCounts(s, r[i]);
        assert false;
      }
    }
  }

  /** The keys stored in the listed slots. */
  ghost function KeysIn<K, V>(d: seq<Option<(K, V)>>, s: seq<Ranked>): set<K> {
    set j | 0 <= j < |s| && s[j].1 < |d| && d[s[j].1].Some? :: d[s[j].1].value.0
  }

  lemma KeysInStep<K, V>(d: seq<Option<(K, V)>>, s: seq<Ranked>, k: nat)
    requires k < |s| && s[k].1 < |d| && d[s[k].1].Some?
    ensures KeysIn(d, s[k..]) == KeysIn(d, s[k + 1..]) + {d[s[k].1].value.0}
  {
    var t, t' := s[k..], s[k + 1..];
    assert t == [s[k]] + t';
    forall x | x in KeysIn(d, t') + {d[s[k].1].value.0} ensures x in KeysIn(d, t) {
      if x in KeysIn(d, t') {
        var j :| 0 <= j < |t'| && t'[j].1 < |d| && d[t'[j].1].Some? && d[t'[j].1].value.0 == x;
        assert t[j + 1] == t'[j];
      } else {
        assert t[0] == s[k];
      }
    }
  }

  lemma KeysInReorder<K, V>(d: seq<Option<(K, V)>>, s: seq<Ranked>, r: seq<Ranked>)
    requires multiset(s) == multiset(r)
    ensures forall x :: x in s <==> x in r
    ensures KeysIn(d, s) == KeysIn(d, r)
  {
    assert forall x :: (x in s <==> x in multiset(s)) && (x in r <==> x in multiset(r));
    forall i | 0 <= i < |s| ensures s[i] in r {
      assert s[i] in multiset(s);
    }
    forall i | 0 <= i < |r| ensures r[i] in s {
      assert r[i] in multiset(r);
    }
  }

  /** The first k listed slots hold what they held in d. */
  ghost predicate Untouched<K, V>(s: seq<Ranked>, k: nat, d: seq<Option<(K, V)>>, now: seq<Option<(K, V)>>) {
    && k <= |s| && |now| == |d|
    && forall j :: 0 <= j < k ==> s[j].1 < |d| && now[s[j].1] == d[s[j].1]
  }

  /** Giving up a slot at least as deep as the listed ones leaves these alone. */
  lemma UntouchedStep<K, V>(s: seq<Ranked>, k: nat, depth: seq<nat>, d: seq<Option<(K, V)>>, now: seq<Option<(K, V)>>, i: nat, vacated: nat)
    requires NoRepeats(s) && SortedByDepth(s) && k < |s| && Untouched(s, k + 1, d, now)
    requires |depth| == |d| && (forall x :: x in s ==> x.1 < |d| && x.0 == depth[x.1])
    requires i == s[k].1 && vacated < |d| && (vacated == i || depth[vacated] > depth[i])
    ensures Untouched(s, k, d, now[i := now[vacated]][vacated := None])
  {
    forall j | 0 <= j < k ensures s[j].1 != i && s[j].1 != vacated {
      assert s[j] in s && s[k] in s;
    }
  }

  /** Putting x where it belongs keeps the order. */
  lemma InsertKeepsOrder(s: seq<Ranked>, k: nat, x: Ranked)
    requires SortedByDepth(s) && k <= |s|
    requires forall j :: 0 <= j < k ==> s[j].0 <= x.0
    requires forall j :: k <= j < |s| ==> x.0 <= s[j].0
    ensures SortedByDepth(s[..k] + [x] + s[k..])
    ensures multiset(s[..k] + [x] + s[k..]) == multiset(s) + multiset{x}
  {
    var r := s[..k] + [x] + s[k..];
    assert s == s[..k] + s[k..];
    forall i, j | 0 <= i < j < |r| ensures r[i].0 <= r[j].0 {
      assert r[i] == if i < k then s[i] else if i == k then x else s[i - 1];
      assert r[j] == if j < k then s[j] else if j == k then x else s[j - 1];
    }
  }

  method InsertByDepth(s: seq<Ranked>, x: Ranked) returns (r: seq<Ranked>)
    requires SortedByDepth(s)
    ensures SortedByDepth(r) && multiset(r) == multiset(s) + multiset{x}
  {
    var k := |s|;
    while k > 0 && s[k - 1].0 > x.0
      invariant 0 <= k <= |s|
      invariant forall j :: k <= j < |s| ==> s[j].0 > x.0
    {
      k := k - 1;
    }
    InsertKeepsOrder(s, k, x);
    r := s[..k] + [x] + s[k..];
  }

  /** Orders the slots by depth, in whatever order where depths agree. */
  method SortByDepth(s: seq<Ranked>) returns (r: seq<Ranked>)
    ensures SortedByDepth(r) && multiset(r) == multiset(s)
  {
    r := [];
    for i := 0 to |s|
      invariant SortedByDepth(r) && multiset(r) == multiset(s[..i])
    {
      r := InsertByDepth(r, s[i]);
      assert s[..i + 1] == s[..i] + [s[i]];
    }
    assert s[..|s|] == s;
  }

  class Table<K(==,!new), V> {
    const hash: Hasher<K>
    const jumps: seq<nat>
    /** The largest slot count the allocator serves; beyond it allocation fails. */
    const limit: nat
    /** The maximal load factor, as a fraction. */
    const loadNum: nat
    const loadDen: nat

    var policy: Policy
    var ctrl: array<Byte>
    var data: array<Option<(K, V)>>
    var slotsMinusOne: nat
    var numElements: nat
    ghost var chains: Chains

    /** The map the table stands for. */
    ghost function Contents(): map<K, V>
      reads this, data
    {
      ToMap(data[..])
    }

    /** The sizes fit together. */
    ghost predicate Fixed()
      reads this
    {
      && |jumps| == NUM_JUMP_DISTANCES
      && loadNum > 0 && loadDen > 0
      && policy.WellFormed() && policy.Fits(slotsMinusOne + 1) && policy.CanServe(limit)
      && slotsMinusOne < limit
      && ctrl.Length == data.Length == slotsMinusOne + 1
      && ctrl as object != data as object
    }

    /** Everything but the links: what also holds while an insertion is relocating a
        chain, and all that a rehash relies on. */
    ghost predicate Loose()
      reads this, ctrl, data
    {
      && Fixed()
      && Stored(ctrl[..], data[..])
      && numElements == |Contents()|
    }

    /** The home slot of a key. */
    function HomeOf(key: K): (r: nat)
      reads this
      requires policy.Fits(slotsMinusOne + 1)
      ensures r == Remainder(hash.Of(key), slotsMinusOne + 1)
    {
      policy.IndexForHash(hash.Of(key), slotsMinusOne)
    }

    /** A table at rest. */
    ghost predicate Valid()
      reads this, ctrl, data
    {
      && Fixed()
      && chains.jumps == jumps
      && Settled(chains, ctrl[..], data[..], hash, -1)
      && numElements == |Contents()|
    }

    constructor (hash: Hasher<K>, policy: Policy, limit: nat, loadNum: nat, loadDen: nat)
      requires policy.WellFormed() && policy.Fits(1) && policy.CanServe(limit)
      requires limit > 0 && loadNum > 0 && loadDen > 0
      ensures Valid() && Contents() == map[] && fresh(ctrl) && fresh(data)
      ensures this.hash == hash && this.limit == limit && jumps == JumpDistances()
    {
      this.hash, this.policy, this.limit := hash, policy, limit;
      this.loadNum, this.loadDen := loadNum, loadDen;
      jumps := JumpDistances();
      ctrl := new Byte[1](_ => EMPTY);
      data := new Option<(K, V)>[1](_ => None);
      slotsMinusOne, numElements := 0, 0;
      new;
      chains := EmptySettles(jumps, ctrl[..], data[..], hash);
    }

    // ----- writes to one slot

    method SetMetadata(i: nat, b: Byte)
      requires i < ctrl.Length
      modifies ctrl
      ensures ctrl[..] == old(ctrl[..])[i := b]
    {
      ctrl[i] := b;
    }

    method SetNext(i: nat, jump: nat)
      requires i < ctrl.Length && jump < NUM_JUMP_DISTANCES
      modifies ctrl
      ensures ctrl[..] == old(ctrl[..])[i := WithJump(old(ctrl[i]), jump)]
    {
      ctrl[i] := WithJump(ctrl[i], jump);
    }

    method SetElement(i: nat, e: Option<(K, V)>)
      requires i < data.Length
      modifies data
      ensures data[..] == old(data[..])[i := e]
    {
      data[i] := e;
    }

    /** Records the new count and the new links. */
    method Commit(count: nat, ghost c: Chains)
      requires Fixed() && c.jumps == jumps
      requires Settled(c, ctrl[..], data[..], hash, -1) && count == |ToMap(data[..])|
      modifies this`numElements, this`chains
      ensures Valid() && chains == c
    {
      numElements := count;
      chains := c;
    }

    method WriteLink(parent: nat, jump: nat, f: nat, e: (K, V))
      requires ctrl.Length == data.Length && ctrl as object != data as object
      requires parent < ctrl.Length && f < ctrl.Length && parent != f && jump < NUM_JUMP_DISTANCES
      modifies ctrl, data
      ensures data[..] == old(data[..])[f := Some(e)]
      ensures ctrl[..] == old(ctrl[..])[parent := WithJump(old(ctrl[parent]), jump)][f := LIST_ENTRY]
    {
      ghost var s := ctrl[..];
      SetElement(f, Some(e));
      SetMetadata(f, LIST_ENTRY);
      SetNext(parent, jump);
      assert ctrl[..] == s[parent := WithJump(s[parent], jump)][f := LIST_ENTRY];
    }

    method WriteVacated(i: nat, prev: nat, last: nat)
      requires ctrl.Length == data.Length && ctrl as object != data as object
      requires i < ctrl.Length && prev < ctrl.Length && last < ctrl.Length && prev != last
      modifies ctrl, data
      ensures data[..] == old(data[..])[i := old(data[last])][last := None]
      ensures ctrl[..] == old(ctrl[..])[prev := WithJump(old(ctrl[prev]), 0)][last := EMPTY]
    {
      SetElement(i, data[last]);
      SetElement(last, None);
      SetMetadata(last, EMPTY);
      SetNext(prev, 0);
      assert ctrl[..] == old(ctrl[..])[prev := WithJump(old(ctrl[prev]), 0)][last := EMPTY];
    }

    /** The slot a link leads to, as the list cursor computes it. */
    method NextLink(i: nat) returns (r: nat)
      requires Valid() && chains.Used(i)
      ensures r == chains.Next(i)
    {
      r := policy.KeepInRange(i + jumps[JumpIndex(ctrl[i])], slotsMinusOne);
    }

    /** The slot a link leads to, as lookup computes it: the same one. */
    method NextProbe(i: nat) returns (r: nat)
      requires Valid() && chains.Used(i)
      ensures r == chains.Next(i)
    {
      r := policy.IndexForHash(i + jumps[JumpIndex(ctrl[i])], slotsMinusOne);
    }

    /** The walk common to lookup and insertion: along the chain of the key's home. */
    method Locate(key: K) returns (r: Probe)
      requires Valid()
      ensures r.slot < ctrl.Length
      ensures r.Found? <==> key in Contents()
      ensures r.Found? ==> data[r.slot] == Some((key, Contents()[key]))
      ensures r.NoChain? ==> r.slot == HomeOf(key) && !IsDirectHit(ctrl[r.slot])
      ensures r.EndOfChain? ==>
                && chains.Used(r.slot) && JumpIndex(ctrl[r.slot]) == 0
                && chains.home[r.slot] == HomeOf(key)
    {
      var index := policy.IndexForHash(hash.Of(key), slotsMinusOne);
      ghost var c, d := chains, data[..];
      if !IsDirectHit(ctrl[index]) {
        AbsentWithoutChain(c, d, hash, key);
        return NoChain(index);
      }
      assert c.SlotOk(-1, index);
      DepthBound(c, index);
      while true
        invariant index < ctrl.Length && c.Used(index) && c.home[index] == HomeOf(key)
        invariant c.depth[index] < ctrl.Length
        invariant NotAbove(c, d, c.home[index], index, key)
        decreases ctrl.Length - c.depth[index]
      {
        if data[index].value.0 == key {
          Lookup(d, index);
          return Found(index);
        }
        PassLink(c, d, hash, index, key);
        if JumpIndex(ctrl[index]) == 0 {
          return EndOfChain(index);
        }
        index := NextProbe(index);
      }
    }

    /** The key's slot, or nothing: exactly when the key is in the map. */
    method Find(key: K) returns (r: Option<nat>)
      requires Valid()
      ensures r.Some? <==> key in Contents()
      ensures r.Some? ==> r.value < data.Length && data[r.value] == Some((key, Contents()[key]))
    {
      var p := Locate(key);
      r := if p.Found? then Some(p.slot) else None;
    }

    /** The first jump from `parent` that leads to an empty slot; 0 if there is none. */
    method FindFreeIndex(parent: nat) returns (jump: nat, slot: nat)
      requires Fixed() && parent < ctrl.Length
      ensures jump < NUM_JUMP_DISTANCES
      ensures jump != 0 ==>
                && slot < ctrl.Length && ctrl[slot] == EMPTY
                && slot == Target(ctrl.Length, parent, jumps[jump])
      ensures forall j :: 0 < j < (if jump == 0 then NUM_JUMP_DISTANCES else jump) ==>
                            ctrl[Target(ctrl.Length, parent, jumps[j])] != EMPTY
    {
      jump := 1;
      while jump < NUM_JUMP_DISTANCES
        invariant 1 <= jump <= NUM_JUMP_DISTANCES
        invariant forall j :: 0 < j < jump ==> ctrl[Target(ctrl.Length, parent, jumps[j])] != EMPTY
      {
        slot := policy.KeepInRange(parent + jumps[jump], slotsMinusOne);
        if ctrl[slot] == EMPTY {
          return;
        }
        jump := jump + 1;
      }
      jump, slot := 0, 0;
    }

    /** The link before a list entry, found by walking from the entry's home. */
    method FindParentBlock(child: nat) returns (parent: nat)
      requires Valid() && chains.Used(child) && !IsDirectHit(ctrl[child])
      ensures parent == chains.parent[child] && chains.HasNext(parent)
    {
      ghost var c := chains;
      parent := policy.IndexForHash(hash.Of(data[child].value.0), slotsMinusOne);
      HomeIsHead(c, child);
      while true
        invariant c.Used(parent) && c.home[parent] == c.home[child] && c.depth[parent] < c.depth[child]
        decreases c.depth[child] - c.depth[parent]
      {
        Descend(c, parent, child);
        NextIsDeeper(c, parent);
        var next := NextLink(parent);
        if next == child {
          return;
        }
        parent := next;
      }
    }

    function BucketCount(): nat
      reads this
    {
      if slotsMinusOne == 0 then 0 else slotsMinusOne + 1
    }

    /** So many elements do not exceed the maximal load. */
    predicate HasRoomFor(count: nat)
      reads this`slotsMinusOne
    {
      count * loadDen <= (slotsMinusOne + 1) * loadNum
    }

    predicate IsFull()
      reads this
    {
      slotsMinusOne == 0 || !HasRoomFor(numElements + 1)
    }

    /** The slot count a rehash for this many items settles on. */
    ghost function NewSlots(numItems: nat): (r: nat)
      reads this
      requires loadNum > 0 && policy.WellFormed()
      ensures r > 0
    {
      policy.SlotsFor(numItems, numElements, loadNum, loadDen)
    }

    /** The slot count the table asks for when it has to grow. */
    ghost function GrownSize(): (r: nat)
      reads this
      requires loadNum > 0 && policy.WellFormed()
      ensures r > 0
    {
      NewSlots(Max(10, 2 * BucketCount()))
    }

    /** That count fits what the allocator serves. */
    ghost predicate CanGrow()
      reads this
      requires Fixed()
    {
      GrownSize() <= limit
    }

    /** A new key does not fit the table as it is. */
    ghost predicate NeedsGrowth(key: K)
      reads this, ctrl, data
      requires Valid()
    {
      GrowthNeeded(chains, HomeOf(key), numElements, loadNum, loadDen)
    }

    /** Where a new key goes that fits. */
    ghost predicate PlaceFor(key: K, slot: nat)
      reads this, ctrl, data
      requires Valid()
    {
      GoesTo(chains, HomeOf(key), slot)
    }

    /** A table of n slots that holds some of the keys may have no room for another of them. */
    ghost predicate Crowds(n: nat, ks: set<K>)
      requires n > 0
    {
      Crowding(jumps, hash, loadNum, loadDen, n, ks)
    }

    /** The outcome of growing to n slots for these keys: a refusal if that is beyond the limit, and
        otherwise just that size, unless the keys crowd a table of it. */
    ghost predicate GrownTo(n: nat, ks: set<K>, placed: bool)
      reads this
      requires n > 0
    {
      if n > limit then !placed else (placed && slotsMinusOne + 1 == n) || Crowds(n, ks)
    }

    twostate predicate Kept()
      reads this
    {
      ctrl == old(ctrl) && data == old(data) && slotsMinusOne == old(slotsMinusOne)
    }

    /** Both arrays are the old ones, or both are new. */
    twostate predicate SameOrFresh()
      reads this
    {
      (ctrl == old(ctrl) && data == old(data)) || (fresh(ctrl) && fresh(data))
    }

    /** What a successful insertion of the key means. */
    twostate predicate Emplaced(key: K, value: V, r: Placement)
      reads this, ctrl, data
    {
      && r.Placed?
      && Valid() && SameOrFresh()
      && slotsMinusOne >= old(slotsMinusOne)
      && Contents() == AddIfAbsent(old(Contents()), key, value)
      && r.inserted == (key !in old(Contents()))
      && r.slot < data.Length && key in Contents() && data[r.slot] == Some((key, Contents()[key]))
    }

    /** Inserts a key unless it is there. It fails only when the table cannot grow. */
    method Emplace(key: K, value: V) returns (r: Placement)
      requires Valid()
      modifies this, ctrl, data
      ensures if r.OutOfMemory? then Fixed() && !CanGrow() else Emplaced(key, value, r)
      ensures key !in old(Contents()) && !old(NeedsGrowth(key)) ==>
                r.Placed? && r.inserted && old(PlaceFor(key, r.slot)) && Kept()
      ensures key !in old(Contents()) && old(NeedsGrowth(key)) ==> GrownTo(old(GrownSize()), old(Contents()).Keys + {key}, r.Placed?)
      ensures key !in old(Contents()) && r.Placed? ==> HasRoomFor(numElements)
      ensures old(Contents()) == map[] && old(NeedsGrowth(key)) && old(GrownSize()) <= limit
              && loadDen <= old(GrownSize()) * loadNum ==>
                r.Placed? && slotsMinusOne + 1 == old(GrownSize())
      ensures key in old(Contents()) ==>
                r.Placed? && unchanged(this) && ctrl[..] == old(ctrl[..]) && data[..] == old(data[..])
      decreases Room(limit, slotsMinusOne + 1), 3
    {
      FirstKey(key);
      var p := Locate(key);
      match p
      case Found(i) =>
        r := Placed(i, false);
      case NoChain(i) =>
        r := EmplaceDirectHit(i, key, value);
      case EndOfChain(i) =>
        r := EmplaceNewKey(i, key, value);
    }

    /** One key alone crowds no table that may hold one element. */
    lemma FirstKey(key: K)
      requires Fixed()
      ensures Contents() == map[] && loadDen <= GrownSize() * loadNum ==> !Crowds(GrownSize(), Contents().Keys + {key})
    {
      if Contents() == map[] && loadDen <= GrownSize() * loadNum {
        assert Contents().Keys + {key} == {key};
        GrownAboveOne();
        FirstKeyFits(jumps, hash, loadNum, loadDen, GrownSize(), key);
      }
    }

    lemma GrownAboveOne()
      requires Fixed()
      ensures GrownSize() > 1
    {
      policy.SlotsForIsLeast(Max(10, 2 * BucketCount()), numElements, loadNum, loadDen);
    }

    /** Up to fifteen keys, and fewer than the slots, crowd no table that may hold them. */
    lemma FewFit(n: nat, ks: set<K>)
      requires jumps == JumpDistances() && n > 1 && |ks| < Min(16, n) && |ks| * loadDen <= n * loadNum
      ensures !Crowds(n, ks)
    {
      JumpsAreTriangular();
      FewKeysFit(jumps, hash, loadNum, loadDen, n, ks);
    }

    /** Twice the present size, not below 10, with the elements within the maximal load. */
    ghost predicate GrowsEnough(n: nat)
      reads this
    {
      10 <= n && 2 * (if slotsMinusOne == 0 then 0 else slotsMinusOne + 1) <= n && numElements * loadDen <= n * loadNum
    }

    /** Growing asks for the least size of the policy that grows enough. */
    lemma GrownSizeIsLeast()
      requires loadNum > 0 && policy.WellFormed()
      ensures policy.PowerOfTwo? ==>
                && IsPowerOfTwo(GrownSize()) && GrowsEnough(GrownSize())
                && forall p: nat :: IsPowerOfTwo(p) && GrowsEnough(p) ==> GrownSize() <= p
      ensures policy.Prime? ==>
                && GrownSize() in policy.primes
                && (GrowsEnough(GrownSize()) || GrownSize() == policy.primes[|policy.primes| - 1])
                && forall p :: p in policy.primes && GrowsEnough(p) ==> GrownSize() <= p
    {
      policy.SlotsForIsLeast(Max(10, 2 * (if slotsMinusOne == 0 then 0 else slotsMinusOne + 1)), numElements, loadNum, loadDen);
    }

    /** If a key does not fit, the table shows that the keys crowd its size. */
    lemma CrowdedHere(key: K, all: set<K>)
      requires Valid() && NeedsGrowth(key)
      requires Contents().Keys <= all && key in all && key !in Contents()
      ensures Crowds(slotsMinusOne + 1, all)
    {
      hide Remainder, GrowthNeeded, Crowding, ToMap;
      CrowdedFrom(chains, data[..], hash, loadNum, loadDen, key, all);
    }

    lemma CrowdsMore(n: nat, some: set<K>, all: set<K>)
      requires n > 0 && some <= all
      ensures Crowds(n, some) ==> Crowds(n, all)
    {
      if Crowds(n, some) {
        CrowdingGrows(jumps, hash, loadNum, loadDen, n, some, all);
      }
    }

    lemma ValidIsLoose()
      requires Valid()
      ensures Loose()
    {
      SettledStores(chains, ctrl[..], data[..], hash, -1);
    }

    /** Makes the table larger and starts over. */
    method GrowAndEmplace(key: K, value: V) returns (r: Placement)
      requires Loose() && key !in Contents()
      modifies this
      ensures if r.OutOfMemory? then Fixed() && !CanGrow() else Emplaced(key, value, r)
      ensures GrownTo(old(GrownSize()), old(Contents()).Keys + {key}, r.Placed?)
      ensures r.Placed? ==> HasRoomFor(numElements)
      decreases Room(limit, slotsMinusOne + 1), 1
    {
      hide Remainder, IsPowerOfTwo, GrownSize, BucketCount, HomeOf, NeedsGrowth, PlaceFor, HasRoomFor, Crowds, Settled, Stored, ToMap;
      ghost var n, all := GrownSize(), Contents().Keys;
      var ok := Grow();
      CrowdsMore(n, all, all + {key});
      if !ok {
        return OutOfMemory;
      }
      if NeedsGrowth(key) {
        CrowdedHere(key, all + {key});
      }
      r := Emplace(key, value);
    }

    /** Adds a key whose home heads a chain, behind the end of that chain. */
    method EmplaceNewKey(parent: nat, key: K, value: V) returns (r: Placement)
      requires Valid() && key !in Contents()
      requires chains.Used(parent) && JumpIndex(ctrl[parent]) == 0 && chains.home[parent] == HomeOf(key)
      modifies this, ctrl, data
      ensures if r.OutOfMemory? then Fixed() && !CanGrow() else Emplaced(key, value, r)
      ensures !old(NeedsGrowth(key)) ==>
                r.Placed? && r.inserted && old(PlaceFor(key, r.slot)) && Kept()
      ensures old(NeedsGrowth(key)) ==> GrownTo(old(GrownSize()), old(Contents()).Keys + {key}, r.Placed?)
      ensures r.Placed? ==> HasRoomFor(numElements)
      decreases Room(limit, slotsMinusOne + 1), 2
    {
      hide Remainder, NeedsGrowth, PlaceFor, HasRoomFor, Crowds, Settled, Stored, ToMap;
      var f := TryLink(parent, key, value);
      if f.Some? {
        r := Placed(f.value, true);
      } else {
        r := GrowAndEmplace(key, value);
      }
    }

    /** Links a new element behind the end of its chain, if it fits the table as it is. */
    method TryLink(parent: nat, key: K, value: V) returns (f: Option<nat>)
      requires Valid() && key !in Contents()
      requires chains.Used(parent) && JumpIndex(ctrl[parent]) == 0 && chains.home[parent] == HomeOf(key)
      modifies this`numElements, this`chains, ctrl, data
      ensures f.Some? <==> !old(NeedsGrowth(key))
      ensures f.Some? ==> Valid() && old(PlaceFor(key, f.value)) && HasRoomFor(numElements)
      ensures f.Some? ==> Contents() == old(Contents())[key := value] && f.value < data.Length && data[f.value] == Some((key, value))
      ensures f.None? ==> Loose() && Contents() == old(Contents())
      ensures numElements == old(numElements) + if f.Some? then 1 else 0
    {
      LinkFits(parent, key);
      hide Remainder, NeedsGrowth, PlaceFor, HasRoomFor, ToMap, Settled, Stored;
      if IsFull() {
        ValidIsLoose();
        return None;
      }
      var jump, slot := FindFreeIndex(parent);
      FirstFreeIs(jumps, ctrl[..], parent, 1, jump);
      if jump == 0 {
        ValidIsLoose();
        return None;
      }
      LinkNew(parent, jump, slot, key, value);
      f := Some(slot);
    }

    /** When a key fits behind the end of its chain, and where. */
    lemma LinkFits(parent: nat, key: K)
      requires Valid() && IsEnd(chains, parent, HomeOf(key))
      ensures var jump := FirstFree(jumps, ctrl[..], parent, 1);
              && (NeedsGrowth(key) <==> IsFull() || jump == 0)
              && (jump < NUM_JUMP_DISTANCES ==> PlaceFor(key, Target(ctrl.Length, parent, jumps[jump])))
      ensures chains.Sound() && chains.ctrl == ctrl[..] && chains.jumps == jumps
    {
      HomeIsHead(chains, parent);
      forall p | IsEnd(chains, p, HomeOf(key)) ensures p == parent {
        OneEnd(chains, p, parent, HomeOf(key));
      }
    }

    /** Stores the element in the free slot f and links it behind `parent`. */
    method LinkNew(parent: nat, jump: nat, f: nat, key: K, value: V)
      requires Valid() && slotsMinusOne > 0 && key !in Contents()
      requires Appendable(chains, -1, parent, f, jump) && chains.home[parent] == HomeOf(key)
      modifies this`numElements, this`chains, ctrl, data
      ensures Valid() && data[f] == Some((key, value))
      ensures Contents() == old(Contents())[key := value] && numElements == old(numElements) + 1
    {
      ghost var c, d := chains, data[..];
      ghost var c' := c.Append(parent, f, jump);
      LinkSettles(c, ctrl[..], d, hash, parent, f, jump, key, value);
      WriteLink(parent, jump, f, (key, value));
      Commit(numElements + 1, c');
    }

    /** Moves the element of slot `it` to slot f behind p, empties `it` and keeps
        `block` reserved while links remain; -1 when none does. */
    method MoveElement(it: nat, p: nat, f: nat, jump: nat, block: nat) returns (next: int)
      requires ctrl.Length == data.Length == slotsMinusOne + 1 && ctrl as object != data as object
      requires policy.Fits(slotsMinusOne + 1) && |jumps| == NUM_JUMP_DISTANCES
      requires it < ctrl.Length && p < ctrl.Length && f < ctrl.Length && block < ctrl.Length
      requires it != p && it != f && p != f && block != p && block != f
      requires jump < NUM_JUMP_DISTANCES && JumpIndex(ctrl[it]) < NUM_JUMP_DISTANCES
      modifies ctrl, data
      ensures data[..] == old(data[..])[f := old(data[it])][it := None]
      ensures ctrl[..] == Moved(old(ctrl[..]), it, p, f, jump, block)
      ensures next == if JumpIndex(old(ctrl[it])) == 0 then -1
                      else Target(ctrl.Length, it, jumps[JumpIndex(old(ctrl[it]))])
    {
      var j := JumpIndex(ctrl[it]);
      SetElement(f, data[it]);
      SetElement(it, None);
      SetNext(p, jump);
      SetMetadata(f, LIST_ENTRY);
      SetMetadata(it, EMPTY);
      if j == 0 {
        next := -1;
      } else {
        next := policy.KeepInRange(it + jumps[j], slotsMinusOne);
        SetMetadata(block, RESERVED);
      }
    }

    /** Moves one link of an evicted chain. */
    method RelocateLink(it: nat, p: nat, f: nat, jump: nat, block: nat, ghost c: Chains, ghost bound: nat)
      returns (next: int, ghost c': Chains)
      requires Fixed() && c.jumps == jumps
      requires Evicting(c, ctrl[..], data[..], hash, p, it, block)
      requires f < ctrl.Length && ctrl[f] == EMPTY
      requires 0 < jump < NUM_JUMP_DISTANCES && Target(ctrl.Length, p, jumps[jump]) == f
      requires forall i :: 0 <= i < |c.depth| ==> c.depth[i] <= bound
      modifies ctrl, data
      ensures Contents() == old(Contents())
      ensures ctrl[..] == Moved(old(ctrl[..]), it, p, f, jump, block) && JumpIndex(old(ctrl[it])) < NUM_JUMP_DISTANCES
      ensures next == if JumpIndex(old(ctrl[it])) == 0 then -1
                      else Target(ctrl.Length, it, jumps[JumpIndex(old(ctrl[it]))])
      ensures c'.jumps == jumps && forall i :: 0 <= i < |c'.depth| ==> c'.depth[i] <= bound
      ensures next == -1 ==> Settled(c', ctrl[..], data[..], hash, block) && !InUse(ctrl[block])
      ensures next != -1 ==>
                && 0 <= next < ctrl.Length && Evicting(c', ctrl[..], data[..], hash, f, next, block)
                && c'.depth[next] == c.depth[it] + 1
    {
      hide Target, Settled, Describes, DistinctKeys, ToMap, Remainder, IsPowerOfTwo;
      c' := EvictionStep(c, ctrl[..], data[..], hash, it, p, f, jump, block);
      next := MoveElement(it, p, f, jump, block);
    }

    /** Moves the links from `block` on elsewhere, so that `block` becomes free. If no
        slot is left half-way it gives up with all elements still in the table: then no jump
        from `stop`, the last link of the part still linked, leads to an empty slot. */
    method EvictTail(block: nat) returns (ok: bool, ghost c: Chains, ghost stop: nat)
      requires Valid() && chains.Used(block) && !IsDirectHit(ctrl[block])
      modifies ctrl, data
      ensures Stored(ctrl[..], data[..]) && Contents() == old(Contents())
      ensures ok <==> old(Evictable(jumps, ctrl[..], chains.parent[block], block))
      ensures ok ==> c.jumps == jumps && Settled(c, ctrl[..], data[..], hash, block) && !InUse(ctrl[block])
      ensures !ok ==>
                && (exists it: nat :: Evicting(c, ctrl[..], data[..], hash, stop, it, block))
                && forall j :: 0 < j < NUM_JUMP_DISTANCES ==> ctrl[Target(ctrl.Length, stop, jumps[j])] != EMPTY
    {
      hide Evictable, MoveSome, Moved, Remainder, Stored, ToMap, DistinctKeys, Describes, Target, Chains.SlotOk;
      var parent: nat := FindParentBlock(block);
      ghost var e0, k := Eviction(ctrl[..], parent, block), 0;
      EvictionStarts(jumps, e0, block);
      c := BeginEviction(chains, ctrl[..], data[..], hash, block);
      var jump: nat, f: nat := FindFreeIndex(parent);
      if jump == 0 {
        EvictionStuck(jumps, e0, block, k, ctrl[..], parent, block);
        EvictingStores(c, ctrl[..], data[..], hash, parent, block, block);
        return false, c, parent;
      }
      ghost var bound := Deepest(c.depth);
      var it: nat := block;
      while true
        invariant Fixed() && Contents() == old(Contents())
        invariant c.jumps == jumps && Evicting(c, ctrl[..], data[..], hash, parent, it, block)
        invariant 0 < jump < NUM_JUMP_DISTANCES && f < ctrl.Length && ctrl[f] == EMPTY
        invariant Target(ctrl.Length, parent, jumps[jump]) == f
        invariant forall j :: 0 < j < jump ==> ctrl[Target(ctrl.Length, parent, jumps[j])] != EMPTY
        invariant MoveSome(jumps, block, e0, k) == Eviction(ctrl[..], parent, it)
        invariant forall i :: 0 <= i < |c.depth| ==> c.depth[i] <= bound
        decreases bound - c.depth[it]
      {
        var next;
        EvictionMoves(jumps, e0, block, k, ctrl[..], parent, it, jump);
        next, c := RelocateLink(it, parent, f, jump, block, c, bound);
        k := k + 1;
        if next == -1 {
          EvictionDone(jumps, e0, block, k);
          SettledStores(c, ctrl[..], data[..], hash, block);
          return true, c, f;
        }
        it, parent := next, f;
        jump, f := FindFreeIndex(parent);
        if jump == 0 {
          EvictionStuck(jumps, e0, block, k, ctrl[..], parent, it);
          EvictingStores(c, ctrl[..], data[..], hash, parent, it, block);
          return false, c, parent;
        }
      }
    }

    /** Adds a key whose home heads no chain. */
    method EmplaceDirectHit(block: nat, key: K, value: V) returns (r: Placement)
      requires Valid() && key !in Contents()
      requires block == HomeOf(key) && !IsDirectHit(ctrl[block])
      modifies this, ctrl, data
      ensures if r.OutOfMemory? then Fixed() && !CanGrow() else Emplaced(key, value, r)
      ensures !old(NeedsGrowth(key)) ==>
                r.Placed? && r.inserted && old(PlaceFor(key, r.slot)) && Kept()
      ensures old(NeedsGrowth(key)) ==> GrownTo(old(GrownSize()), old(Contents()).Keys + {key}, r.Placed?)
      ensures r.Placed? ==> HasRoomFor(numElements)
      decreases Room(limit, slotsMinusOne + 1), 2
    {
      hide Remainder, NeedsGrowth, PlaceFor, HasRoomFor, Crowds, Settled, Stored, ToMap;
      var ok := TryPlant(block, key, value);
      if ok {
        r := Placed(block, true);
      } else {
        r := GrowAndEmplace(key, value);
      }
    }

    /** Stores a new element in its home, if it fits the table as it is, after moving a foreign
        tail out of the way. */
    method TryPlant(block: nat, key: K, value: V) returns (ok: bool)
      requires Valid() && key !in Contents()
      requires block == HomeOf(key) && !IsDirectHit(ctrl[block])
      modifies this`numElements, this`chains, ctrl, data
      ensures ok <==> !old(NeedsGrowth(key))
      ensures ok ==> Valid() && old(PlaceFor(key, block)) && HasRoomFor(numElements)
      ensures ok ==> Contents() == old(Contents())[key := value] && data[block] == Some((key, value))
      ensures !ok ==> Loose() && Contents() == old(Contents())
      ensures numElements == old(numElements) + if ok then 1 else 0
    {
      hide Remainder, NeedsGrowth, PlaceFor, HasRoomFor, Evictable, ToMap, Settled, Stored;
      PlantFits(block, key);
      if IsFull() {
        ValidIsLoose();
        return false;
      }
      ghost var c := chains;
      if ctrl[block] == EMPTY {
        SettledAnyway(c, ctrl[..], data[..], hash, block);
      } else {
        ghost var stop;
        ok, c, stop := EvictTail(block);
        if !ok {
          return;
        }
      }
      PlantNew(block, key, value, c);
      ok := true;
    }

    /** When a key whose home heads no chain fits. */
    lemma PlantFits(block: nat, key: K)
      requires Valid() && block == HomeOf(key) && !IsDirectHit(ctrl[block])
      ensures PlaceFor(key, block)
      ensures ctrl[block] != EMPTY ==> chains.Used(block)
      ensures NeedsGrowth(key) <==>
              IsFull() || (ctrl[block] != EMPTY && !Evictable(jumps, ctrl[..], chains.parent[block], block))
    {
      hide Evictable;
    }

    /** Stores the element in its home as the head of a new chain. */
    method PlantNew(block: nat, key: K, value: V, ghost c: Chains)
      requires Fixed() && slotsMinusOne > 0 && numElements == |Contents()|
      requires c.jumps == jumps && Settled(c, ctrl[..], data[..], hash, block)
      requires key !in Contents() && block == HomeOf(key) && !InUse(ctrl[block])
      modifies this`numElements, this`chains, ctrl, data
      ensures Valid() && data[block] == Some((key, value))
      ensures Contents() == old(Contents())[key := value] && numElements == old(numElements) + 1
    {
      ghost var d, c' := data[..], c.Plant(block);
      PlantSettles(c, ctrl[..], d, hash, block, key, value);
      SetElement(block, Some((key, value)));
      SetMetadata(block, DIRECT_HIT);
      Commit(numElements + 1, c');
    }

    /** Replaces the arrays by empty ones of this many slots. */
    method Allocate(slots: nat, committed: Policy)
      requires |jumps| == NUM_JUMP_DISTANCES && loadNum > 0 && loadDen > 0
      requires 0 < slots <= limit
      requires committed.WellFormed() && committed.Fits(slots) && committed.CanServe(limit)
      modifies this
      ensures Valid() && Contents() == map[] && fresh(ctrl) && fresh(data)
      ensures slotsMinusOne + 1 == slots
    {
      ctrl := new Byte[slots](_ => EMPTY);
      data := new Option<(K, V)>[slots](_ => None);
      slotsMinusOne, numElements := slots - 1, 0;
      policy := committed;
      chains := EmptySettles(jumps, ctrl[..], data[..], hash);
    }

    /** Moves the elements into a table of another size. It reads no link of the old
        one, so it also repairs a table whose chains are half evicted. */
    method Rehash(numItems: nat) returns (ok: bool)
      requires Loose()
      modifies this
      ensures ok ==> Contents() == old(Contents())
      ensures ok ==> unchanged(this) || (Valid() && fresh(ctrl) && fresh(data))
      ensures ok && old(NewSlots(numItems)) != old(slotsMinusOne) + 1 ==>
                Valid() && fresh(ctrl) && fresh(data) && old(NewSlots(numItems)) <= slotsMinusOne + 1
      ensures !ok ==> Fixed() && ((old(NewSlots(numItems)) > limit && unchanged(this)) || !CanGrow())
      ensures GrownTo(old(NewSlots(numItems)), old(Contents()).Keys, ok)
      ensures old(NewSlots(numItems)) == old(slotsMinusOne) + 1 && (numItems > 0 || old(numElements) > 0) ==>
                unchanged(this)
      decreases Room(limit, NewSlots(numItems)), 7
    {
      var wanted := Max(numItems, CeilDiv(numElements * loadDen, loadNum));
      if wanted == 0 {
        AllEmpty();
        Allocate(1, policy.Reset());
        return true;
      }
      var slots := policy.NextSizeOver(wanted);
      if slots == slotsMinusOne + 1 {
        return true;
      }
      if slots > limit {
        return false;
      }
      ok := Rebuild(slots);
    }

    /** Allocates another table and moves the elements over. */
    method Rebuild(slots: nat) returns (ok: bool)
      requires Loose() && 0 < slots <= limit && (policy.PowerOfTwo? ==> IsPowerOfTwo(slots))
      modifies this
      ensures ok ==> Valid() && Contents() == old(Contents()) && fresh(ctrl) && fresh(data)
      ensures ok ==> slots <= slotsMinusOne + 1
      ensures !ok ==> Fixed() && !CanGrow()
      ensures (ok && slotsMinusOne + 1 == slots) || Crowds(slots, old(Contents()).Keys)
      decreases Room(limit, slots), 6
    {
      hide Remainder, IsPowerOfTwo, Crowds, Settled, Stored, ToMap;
      var oldCtrl, oldData, oldSlots := ctrl, data, BucketCount();
      ghost var m := BucketsAreAll();
      Allocate(slots, policy.Commit(slots));
      ok := Refill(oldCtrl, oldData, oldSlots);
    }

    lemma BucketsAreAll() returns (m: map<K, V>)
      requires Loose()
      ensures BucketCount() <= data.Length && m == Contents() == ToMap(data[..BucketCount()])
    {
      m := Contents();
      if slotsMinusOne == 0 {
        LastIsNone(data[..]);
        assert data[..][..0] == data[..0];
      } else {
        assert data[..BucketCount()] == data[..];
      }
    }

    /** Inserts what the old arrays hold; reserved slots hold nothing. */
    method Refill(oldCtrl: array<Byte>, oldData: array<Option<(K, V)>>, oldSlots: nat) returns (ok: bool)
      requires Valid() && Contents() == map[]
      requires oldSlots <= oldCtrl.Length && Stored(oldCtrl[..], oldData[..])
      requires {oldCtrl as object, oldData as object} !! {this, ctrl as object, data as object}
      modifies this, ctrl, data
      ensures ok ==> Valid() && SameOrFresh() && Contents() == ToMap(oldData[..oldSlots])
      ensures ok ==> old(slotsMinusOne) <= slotsMinusOne
      ensures !ok ==> Fixed() && !CanGrow()
      ensures (ok && slotsMinusOne == old(slotsMinusOne)) ||
              Crowds(old(slotsMinusOne) + 1, ToMap(old(oldData[..oldSlots])).Keys)
      decreases Room(limit, slotsMinusOne + 1), 5
    {
      hide Remainder, IsPowerOfTwo, HomeOf, BucketCount, GrownSize, HasRoomFor, Crowds, Settled;
      for i := 0 to oldSlots
        invariant Valid() && SameOrFresh() && old(slotsMinusOne) <= slotsMinusOne
        invariant oldCtrl[..] == old(oldCtrl[..]) && oldData[..] == old(oldData[..])
        invariant {oldCtrl as object, oldData as object} !! {this, ctrl as object, data as object}
        invariant Contents() == ToMap(oldData[..i])
        invariant slotsMinusOne == old(slotsMinusOne) || Crowds(old(slotsMinusOne) + 1, ToMap(old(oldData[..oldSlots])).Keys)
      {
        ghost var d := oldData[..oldSlots];
        assert d[..i] == oldData[..i] && d[..i + 1] == oldData[..i + 1] && oldData[..i + 1][..i] == oldData[..i];
        if InUse(oldCtrl[i]) {
          var e := oldData[i].value;
          ok := EmplaceNext(e.0, e.1, d, i, old(slotsMinusOne) + 1);
          if !ok {
            return;
          }
        }
      }
      ok := true;
    }

    /** Inserts the i-th of the old elements into a table that holds those before it. If that makes
        it larger than n slots, the keys crowd a table of n. */
    method EmplaceNext(key: K, value: V, ghost d: seq<Option<(K, V)>>, ghost i: nat, ghost n: nat) returns (ok: bool)
      requires Valid() && i < |d| && d[i] == Some((key, value)) && DistinctKeys(d) && Contents() == ToMap(d[..i])
      requires n > 0 && (slotsMinusOne + 1 == n || Crowds(n, ToMap(d).Keys))
      modifies this, ctrl, data
      ensures ok ==> Valid() && SameOrFresh() && Contents() == ToMap(d[..i + 1]) && old(slotsMinusOne) <= slotsMinusOne
      ensures (ok && slotsMinusOne + 1 == n) || Crowds(n, ToMap(d).Keys)
      ensures !ok ==> Fixed() && !CanGrow()
      decreases Room(limit, slotsMinusOne + 1), 4
    {
      hide Remainder, IsPowerOfTwo, HomeOf, NeedsGrowth, PlaceFor, HasRoomFor, GrownSize, Crowds, Settled;
      assert d[..i + 1][..i] == d[..i];
      CrowdedAt(d, i);
      var r := Emplace(key, value);
      ok := r.Placed?;
    }

    /** If the next of these elements does not fit, the keys crowd the table. */
    lemma CrowdedAt(d: seq<Option<(K, V)>>, i: nat)
      requires Valid() && i < |d| && d[i].Some? && DistinctKeys(d)
      requires Contents() == ToMap(d[..i])
      ensures d[i].value.0 !in Contents()
      ensures NeedsGrowth(d[i].value.0) ==> Crowds(slotsMinusOne + 1, ToMap(d).Keys)
    {
      hide Remainder, NeedsGrowth, Crowds, Settled, ToMap;
      var k := d[i].value.0;
      if k in ToMap(d[..i]) {
        var j := Origin(d[..i], k);
        assert false;
      }
      Lookup(d, i);
      PrefixKeys(d, i);
      if NeedsGrowth(k) {
        CrowdedHere(k, ToMap(d).Keys);
      }
    }

    method Grow() returns (ok: bool)
      requires Loose()
      modifies this
      ensures ok ==> Valid() && Contents() == old(Contents()) && fresh(ctrl) && fresh(data)
      ensures ok ==> slotsMinusOne > old(slotsMinusOne)
      ensures !ok ==> Fixed() && !CanGrow()
      ensures GrownTo(old(GrownSize()), old(Contents()).Keys, ok)
      decreases Room(limit, slotsMinusOne + 1), 0
    {
      ok := Rehash(Max(10, 2 * BucketCount()));
    }

    lemma AllEmpty()
      requires Loose() && numElements == 0
      ensures Contents() == map[]
    {
    }

    // ----- removal

    /** Empties slot `last`, the end of a chain, moving its element to slot i. */
    method VacateLast(i: nat, prev: nat, last: nat)
      requires Valid() && chains.Used(i) && chains.Used(last) && chains.home[i] == chains.home[last]
      requires !IsDirectHit(ctrl[last]) && JumpIndex(ctrl[last]) == 0 && prev == chains.parent[last]
      modifies this`numElements, this`chains, ctrl, data
      ensures Valid()
      ensures chains.depth == old(chains.depth) && chains.home == old(chains.home)
      ensures data[..] == old(data[..])[i := old(data[last])][last := None]
      ensures Contents() == old(Contents()) - {old(data[i]).value.0}
    {
      ghost var c, d := chains, data[..];
      VacateLastSettles(c, ctrl[..], d, hash, i, last);
      ghost var c', d' := c.Cut(prev).Drop(last, EMPTY), d[i := d[last]][last := None];
      WriteVacated(i, prev, last);
      Commit(numElements - 1, c');
    }

    /** Empties a head without further links. */
    method VacateHead(i: nat)
      requires Valid() && chains.Used(i) && IsDirectHit(ctrl[i]) && JumpIndex(ctrl[i]) == 0
      modifies this`numElements, this`chains, ctrl, data
      ensures Valid()
      ensures chains.depth == old(chains.depth) && chains.home == old(chains.home)
      ensures data[..] == old(data[..])[i := None]
      ensures Contents() == old(Contents()) - {old(data[i]).value.0}
    {
      ghost var c, d := chains, data[..];
      VacateHeadSettles(c, ctrl[..], d, hash, i);
      SetElement(i, None);
      SetMetadata(i, EMPTY);
      Commit(numElements - 1, c.Drop(i, EMPTY));
    }

    /** The last two links of the chain below slot i. */
    method LastLink(i: nat) returns (prev: nat, last: nat)
      requires Valid() && chains.HasNext(i)
      ensures chains.Used(last) && !IsDirectHit(ctrl[last]) && JumpIndex(ctrl[last]) == 0
      ensures chains.home[last] == chains.home[i] && chains.depth[last] > chains.depth[i]
      ensures prev == chains.parent[last]
    {
      ghost var c := chains;
      NextIsDeeper(c, i);
      prev := i;
      last := NextLink(i);
      DepthBound(c, last);
      while JumpIndex(ctrl[last]) != 0
        invariant c.Used(last) && !IsDirectHit(ctrl[last]) && c.home[last] == c.home[i]
        invariant c.parent[last] == prev && c.depth[i] < c.depth[last] < ctrl.Length
        decreases ctrl.Length - c.depth[last]
      {
        NextIsDeeper(c, last);
        DepthBound(c, c.Next(last));
        prev := last;
        last := NextLink(last);
      }
    }

    /** Removes the element of slot i and no other. The slot given up is i itself or one
        deeper on the same chain; all others keep their element. */
    method Erase(i: nat) returns (ghost vacated: nat)
      requires Valid() && chains.Used(i)
      modifies this`numElements, this`chains, ctrl, data
      ensures Valid()
      ensures chains.depth == old(chains.depth)
      ensures vacated < data.Length && (vacated == i || chains.depth[vacated] > chains.depth[i])
      ensures data[..] == old(data[..])[i := old(data[vacated])][vacated := None]
      ensures Contents() == old(Contents()) - {old(data[i]).value.0}
    {
      if JumpIndex(ctrl[i]) != 0 {
        var prev, last := LastLink(i);
        VacateLast(i, prev, last);
        vacated := last;
      } else if !IsDirectHit(ctrl[i]) {
        var parent := FindParentBlock(i);
        VacateLast(i, parent, i);
        vacated := i;
      } else {
        VacateHead(i);
        vacated := i;
      }
    }

    method EraseKey(key: K) returns (removed: nat)
      requires Valid()
      modifies this`numElements, this`chains, ctrl, data
      ensures Valid() && Contents() == old(Contents()) - {key}
      ensures removed == if key in old(Contents()) then 1 else 0
    {
      var found := Find(key);
      if found.None? {
        return 0;
      }
      ghost var vacated := Erase(found.value);
      removed := 1;
    }

    /** Empties every slot. */
    method Wipe()
      requires ctrl.Length == data.Length && ctrl as object != data as object
      requires forall i :: 0 <= i < ctrl.Length && ctrl[i] == EMPTY ==> data[i].None?
      modifies ctrl, data
      ensures forall i :: 0 <= i < ctrl.Length ==> ctrl[i] == EMPTY && data[i].None?
    {
      for i := 0 to ctrl.Length
        invariant forall k :: 0 <= k < i ==> ctrl[k] == EMPTY && data[k].None?
        invariant forall k :: i <= k < ctrl.Length && ctrl[k] == EMPTY ==> data[k].None?
      {
        if ctrl[i] != EMPTY {
          data[i] := None;
          ctrl[i] := EMPTY;
        }
      }
    }

    /** Removes all elements. */
    method Clear()
      requires Valid()
      modifies this`numElements, this`chains, ctrl, data
      ensures Valid() && Contents() == map[]
      ensures forall i :: !chains.Used(i)
    {
      if slotsMinusOne == 0 {
        Vacant(data[..]);
        return;
      }
      Wipe();
      ghost var c := EmptySettles(jumps, ctrl[..], data[..], hash);
      Commit(0, c);
    }

    // ----- iteration, from the last slot down to -1

    /** A position an iterator may have: an element, or past the last one. */
    ghost predicate IsPosition(i: int)
      reads this
    {
      i == -1 || chains.Used(i)
    }

    /** r is the next element below i, or -1. */
    ghost predicate IsNext(i: int, r: int)
      reads this
    {
      && -1 <= r < i && IsPosition(r)
      && forall k :: r < k < i ==> !chains.Used(k)
    }

    method Advance(i: nat) returns (r: int)
      requires Valid() && i <= ctrl.Length
      ensures i > 0 ==> IsNext(i, r)
      ensures i == 0 ==> r == -1
    {
      r := i - 1;
      while r >= 0 && ctrl[r] == EMPTY
        invariant -1 <= r < i
        invariant forall k :: r < k < i ==> !chains.Used(k)
      {
        r := r - 1;
      }
    }

    method Begin() returns (r: int)
      requires Valid()
      ensures IsNext(ctrl.Length, r)
    {
      r := Advance(if slotsMinusOne == 0 then 0 else slotsMinusOne + 1);
    }

    /** A full iteration visits every element exactly once. */
    method Iterate() returns (visited: seq<nat>)
      requires Valid()
      ensures forall i, j :: 0 <= i < j < |visited| ==> visited[i] > visited[j]
      ensures forall i: nat :: i in visited <==> i < data.Length && data[i].Some?
    {
      visited := [];
      var it := Begin();
      while it != -1
        invariant IsPosition(it)
        invariant forall i, j :: 0 <= i < j < |visited| ==> visited[i] > visited[j]
        invariant forall i :: 0 <= i < |visited| ==> visited[i] > it
        invariant forall i: nat :: i in visited <==> i > it && chains.Used(i)
        decreases it
      {
        visited := visited + [it];
        it := Advance(it);
      }
    }

    /** The position to go on from after an erasure at slot i. */
    method Settle(i: nat) returns (r: int)
      requires Valid() && i < ctrl.Length
      ensures IsNext(i + 1, r)
    {
      if ctrl[i] == EMPTY {
        r := Advance(i);
      } else {
        r := i;
      }
    }

    // ----- removal of a range

    /** The distance of a slot from the head of its chain, by walking. */
    method DepthInChain(i: nat) returns (distance: nat)
      requires Valid() && chains.Used(i)
      ensures distance == chains.depth[i]
    {
      ghost var c := chains;
      HomeIsHead(c, i);
      if IsDirectHit(ctrl[i]) {
        return 0;
      }
      var root: nat := policy.IndexForHash(hash.Of(data[i].value.0), slotsMinusOne);
      distance := 1;
      while true
        invariant c.Used(root) && c.home[root] == c.home[i] && c.depth[root] < c.depth[i]
        invariant distance == c.depth[root] + 1
        decreases c.depth[i] - c.depth[root]
      {
        Descend(c, root, i);
        var next := NextLink(root);
        if next == i {
          return;
        }
        distance := distance + 1;
        root := next;
      }
    }

    /** The collected slots hold the keys of the range. */
    lemma CollectedKeys(s: seq<Ranked>, first: int, last: int)
      requires Valid() && AreRanked(s) && -1 <= last
      requires forall x :: x in s ==> last < x.1 <= first
      requires forall i: nat :: last < i <= first && chains.Used(i) ==> (chains.depth[i], i) in s
      ensures KeysIn(data[..], s) == KeysBetween(data[..], last + 1, first + 1)
    {
      ghost var d := data[..];
      forall x | x in KeysIn(d, s) ensures x in KeysBetween(d, last + 1, first + 1) {
        var j :| 0 <= j < |s| && s[j].1 < |d| && d[s[j].1].Some? && d[s[j].1].value.0 == x;
        assert s[j] in s;
      }
      forall x | x in KeysBetween(d, last + 1, first + 1) ensures x in KeysIn(d, s) {
        var i :| 0 <= i < |d| && last + 1 <= i < first + 1 && d[i].Some? && d[i].value.0 == x;
        assert chains.Used(i);
        var j :| 0 <= j < |s| && s[j] == (chains.depth[i], i);
      }
    }

    /** An element without another one before `last` is the whole range. */
    lemma SingleKey(first: nat, last: int)
      requires Valid() && chains.Used(first) && IsNext(first, last)
      ensures KeysBetween(data[..], last + 1, first + 1) == {data[first].value.0}
    {
      ghost var d := data[..];
      ghost var ks := KeysBetween(d, last + 1, first + 1);
      forall x | x in ks ensures x == d[first].value.0 {
        var i :| 0 <= i < |d| && last + 1 <= i < first + 1 && d[i].Some? && d[i].value.0 == x;
        assert chains.Used(i);
      }
    }

    /** From the first element to the end is everything. */
    lemma AllKeys(first: int)
      requires Valid() && IsNext(ctrl.Length, first)
      ensures Contents() - KeysBetween(data[..], 0, first + 1) == map[]
    {
      ghost var d := data[..];
      forall x | x in Contents() ensures x in KeysBetween(d, 0, first + 1) {
        var i := Origin(d, x);
        assert chains.Used(i);
      }
    }

    /** The listed slots are elements, listed once, with their depths. */
    ghost predicate AreRanked(s: seq<Ranked>)
      reads this
    {
      && NoRepeats(s)
      && |chains.depth| == |chains.ctrl|
      && forall x :: x in s ==> chains.Used(x.1) && x.0 == chains.depth[x.1]
    }

    /** The elements from `first` up to but excluding `last`, with their depths. */
    method CollectRange(first: int, last: int) returns (s: seq<Ranked>)
      requires Valid() && IsPosition(first) && IsPosition(last) && last <= first
      ensures AreRanked(s)
      ensures forall x :: x in s ==> last < x.1 <= first
      ensures forall i: nat :: last < i <= first && chains.Used(i) ==> (chains.depth[i], i) in s
    {
      s := [];
      var it := first;
      while it != last
        invariant IsPosition(it) && last <= it <= first
        invariant AreRanked(s)
        invariant forall x :: x in s ==> it < x.1 <= first
        invariant forall i: nat :: it < i <= first && chains.Used(i) ==> (chains.depth[i], i) in s
        decreases it - last
      {
        var distance := DepthInChain(it);
        ghost var before, from := s, it;
        s := s + [(distance, it)];
        it := Advance(it);
        CollectedMore(before, from, it, first);
      }
    }

    /** With the element of slot `it` collected, those down to the next one are. */
    lemma CollectedMore(s: seq<Ranked>, it: nat, next: int, first: int)
      requires Valid() && chains.Used(it) && next < it
      requires forall k :: next < k < it ==> !chains.Used(k)
      requires forall i: nat :: it < i <= first && chains.Used(i) ==> (chains.depth[i], i) in s
      ensures forall i: nat :: next < i <= first && chains.Used(i) ==> (chains.depth[i], i) in s + [(chains.depth[it], it)]
    {
      var s' := s + [(chains.depth[it], it)];
      assert s'[|s|] == (chains.depth[it], it);
    }

    /** Erasing slots deepest first removes exactly the elements they held at the start:
        an erasure only touches the slot itself and one deeper than it. */
    method EraseDeepestFirst(s: seq<Ranked>)
      requires Valid() && AreRanked(s) && SortedByDepth(s)
      modifies this`numElements, this`chains, ctrl, data
      ensures Valid() && Contents() == old(Contents()) - KeysIn(old(data[..]), s)
    {
      ghost var d := data[..];
      var k := |s|;
      assert s[|s|..] == [];
      forall x | x in s ensures x.1 < |d| && d[x.1].Some? {
        assert chains.Used(x.1);
      }
      while k > 0
        invariant 0 <= k <= |s| && Valid() && |d| == data.Length
        invariant chains.depth == old(chains.depth)
        invariant Untouched(s, k, d, data[..])
        invariant Contents() == old(Contents()) - KeysIn(d, s[k..])
      {
        k := k - 1;
        EraseNext(s, k, d, old(Contents()));
      }
      assert s[0..] == s;
    }

    /** One round of the above. */
    method EraseNext(s: seq<Ranked>, k: nat, ghost d: seq<Option<(K, V)>>, ghost m: map<K, V>)
      requires Valid() && NoRepeats(s) && SortedByDepth(s) && k < |s|
      requires forall x :: x in s ==> x.1 < |d| && d[x.1].Some? && x.1 < |chains.depth| && x.0 == chains.depth[x.1]
      requires Untouched(s, k + 1, d, data[..])
      requires Contents() == m - KeysIn(d, s[k + 1..])
      modifies this`numElements, this`chains, ctrl, data
      ensures Valid() && chains.depth == old(chains.depth)
      ensures Untouched(s, k, d, data[..])
      ensures Contents() == m - KeysIn(d, s[k..])
    {
      assert s[k] in s;
      var i := s[k].1;
      ghost var vacated := Erase(i);
      UntouchedStep(s, k, chains.depth, d, old(data[..]), i, vacated);
      KeysInStep(d, s, k);
      MinusOneMore(m, KeysIn(d, s[k + 1..]), d[i].value.0);
    }

    /** Removes the elements from `first` up to but excluding `last`, and no others; the
        result is where an iteration goes on. */
    method EraseRange(first: int, last: int) returns (r: int)
      requires Valid() && IsPosition(first) && IsPosition(last) && last <= first
      modifies this`numElements, this`chains, ctrl, data
      ensures Valid()
      ensures Contents() == old(Contents()) - KeysBetween(old(data[..]), last + 1, first + 1)
      ensures IsNext(first + 1, r)
    {
      if first == last {
        return first;
      }
      RemoveRange(first, last);
      r := Settle(first);
    }

    /** The three ways of removing a non-empty range. */
    method RemoveRange(first: nat, last: int)
      requires Valid() && IsPosition(first) && IsPosition(last) && last < first
      modifies this`numElements, this`chains, ctrl, data
      ensures Valid()
      ensures Contents() == old(Contents()) - KeysBetween(old(data[..]), last + 1, first + 1)
    {
      var next := Advance(first);
      var begin := Begin();
      if next == last {
        SingleKey(first, last);
        ghost var vacated := Erase(first);
      } else if first == begin && last == -1 {
        AllKeys(first);
        Clear();
      } else {
        EraseCollected(first, last);
      }
    }

    method EraseCollected(first: int, last: int)
      requires Valid() && IsPosition(first) && IsPosition(last) && last <= first
      modifies this`numElements, this`chains, ctrl, data
      ensures Valid()
      ensures Contents() == old(Contents()) - KeysBetween(old(data[..]), last + 1, first + 1)
    {
      var s := CollectRange(first, last);
      CollectedKeys(s, first, last);
      var sorted := SortByDepth(s);
      ReorderNoRepeats(s, sorted);
      KeysInReorder(data[..], s, sorted);
      EraseDeepestFirst(sorted);
    }

    // ----- whole runs

    /** The element count is the number of slots in use. */
    lemma SizeIsCount()
      requires Valid()
      ensures numElements == Count(data[..])
    {
      CountIsSize(data[..]);
    }

    /** Every element lies on exactly one chain, the one headed by its key's home. */
    lemma StoredOnOwnChain(i: nat)
      requires Valid() && i < data.Length && data[i].Some?
      ensures chains.ctrl == ctrl[..] && chains.Used(HomeOf(data[i].value.0)) && IsDirectHit(ctrl[HomeOf(data[i].value.0)])
      ensures forall r: nat, t: nat :: chains.Used(r) && IsDirectHit(ctrl[r]) ==>
                (chains.Walk(r, t) == i <==> r == HomeOf(data[i].value.0) && t == chains.depth[i])
    {
      OnExactlyOneChain(chains, i);
    }

    /** The operation's positions are positions of this table. */
    predicate InPlace(op: Op<K, V>)
      reads this, ctrl, data
    {
      match op
      case DropAt(i) => i < data.Length && data[i].Some?
      case DropRange(lo, hi) => lo < hi <= data.Length && data[hi - 1].Some? && (lo == 0 || data[lo - 1].Some?)
      case _ => true
    }

    /** An operation fails only on a position it must not be given, or on a size the allocator
        does not serve. */
    ghost predicate Refused(op: Op<K, V>)
      reads this, ctrl, data
      requires Fixed()
    {
      !InPlace(op) || !CanGrow() || (op.Resize? && NewSlots(op.size) > limit)
    }

    /** Erasing by position removes what the slot holds. */
    method EraseAt(i: nat)
      requires Valid() && InPlace(DropAt(i))
      modifies this`numElements, this`chains, ctrl, data
      ensures Valid() && Contents() == old(Contents()) - KeysBetween(old(data[..]), i, i + 1)
    {
      SettledStores(chains, ctrl[..], data[..], hash, -1);
      KeysOfOne(data[..], i);
      hide Settled, ToMap, KeysBetween;
      ghost var vacated := Erase(i);
    }

    /** Erasing the slots from lo up to but excluding hi. */
    method EraseBetween(lo: nat, hi: nat)
      requires Valid() && InPlace(DropRange(lo, hi))
      modifies this`numElements, this`chains, ctrl, data
      ensures Valid() && Contents() == old(Contents()) - KeysBetween(old(data[..]), lo, hi)
    {
      SettledStores(chains, ctrl[..], data[..], hash, -1);
      hide Settled, ToMap, KeysBetween;
      var r := EraseRange(hi - 1, lo - 1);
    }

    method RemoveAt(op: Op<K, V>)
      requires Valid() && InPlace(op) && ByPosition(op)
      modifies this`numElements, this`chains, ctrl, data
      ensures Valid() && Contents() == Apply(old(data[..]), op)
    {
      hide Settled, Stored, ToMap, KeysBetween;
      match op
      case DropAt(i) => EraseAt(i);
      case DropRange(lo, hi) => EraseBetween(lo, hi);
    }

    /** An operation does to the table what it does to a map. */
    method Perform(op: Op<K, V>) returns (ok: bool)
      requires Valid() && InPlace(op)
      modifies this, ctrl, data
      ensures ok ==> Valid() && SameOrFresh() && Contents() == Apply(old(data[..]), op)
      ensures !ok ==> Fixed() && Refused(op)
    {
      ValidIsLoose();
      hide Settled, Stored, ToMap, KeysBetween, Remainder;
      ok := true;
      match op
      case Put(key, value) =>
        var r := Emplace(key, value);
        ok := r.Placed?;
      case Drop(key) =>
        var removed := EraseKey(key);
      case Wipe =>
        Clear();
      case Resize(size) =>
        ok := Rehash(size);
      case _ =>
        RemoveAt(op);
    }

    /** So does every sequence of operations, whatever it grows, displaces and moves inside:
        operations by position remove what the slots hold at that moment, and those by key mean
        the same wherever the elements are. */
    method Run(ops: seq<Op<K, V>>) returns (ok: bool, ghost h: seq<seq<Option<(K, V)>>>)
      requires Valid()
      modifies this, ctrl, data
      ensures ok ==> Valid() && IsHistory(h, ops) && h[0] == old(data[..]) && h[|ops|] == data[..]
      ensures ok && (forall op :: op in ops ==> !ByPosition(op)) ==> Contents() == ApplyAll(old(Contents()), ops)
      ensures !ok ==> Fixed() && exists i :: 0 <= i < |ops| && Refused(ops[i])
    {
      hide Remainder, IsPowerOfTwo;
      h := [data[..]];
      for i := 0 to |ops|
        invariant Valid() && SameOrFresh()
        invariant IsHistory(h, ops[..i]) && h[0] == old(data[..]) && h[i] == data[..]
      {
        if !InPlace(ops[i]) {
          return false, h;
        }
        ok := Perform(ops[i]);
        if !ok {
          return;
        }
        HistoryGrows(h, ops[..i], ops[i], data[..]);
        assert ops[..i] + [ops[i]] == ops[..i + 1];
        h := h + [data[..]];
      }
      assert ops[..|ops|] == ops;
      if forall op :: op in ops ==> !ByPosition(op) {
        HistoryByKey(h, ops);
      }
      ok := true;
    }
  }
}
