/** When an insertion into the bytell table has to make the table larger: a condition on its
    chains and control bytes before it. */
module BytellGrowth {
  import opened Naturals
  import opened Slots
  import opened HashPolicy
  import opened BytellChains
  import opened BytellSteps

  /** The first jump from slot p that leads to an empty slot, 0 if there is none. */
  ghost function FirstFree(jumps: seq<nat>, ctrl: seq<Byte>, p: nat, from: nat): nat
    requires |jumps| == NUM_JUMP_DISTANCES && |ctrl| > 0
    decreases NUM_JUMP_DISTANCES - from
  {
    if from >= NUM_JUMP_DISTANCES then 0
    else if ctrl[Target(|ctrl|, p, jumps[from])] == EMPTY then from
    else FirstFree(jumps, ctrl, p, from + 1)
  }

  lemma {:induction false} FirstFreeIs(jumps: seq<nat>, ctrl: seq<Byte>, p: nat, from: nat, jump: nat)
    requires |jumps| == NUM_JUMP_DISTANCES && |ctrl| > 0 && 0 < from
    requires jump == 0 || from <= jump < NUM_JUMP_DISTANCES
    requires jump != 0 ==> ctrl[Target(|ctrl|, p, jumps[jump])] == EMPTY
    requires forall j :: from <= j < (if jump == 0 then NUM_JUMP_DISTANCES else jump) ==>
                           ctrl[Target(|ctrl|, p, jumps[j])] != EMPTY
    ensures FirstFree(jumps, ctrl, p, from) == jump
    decreases NUM_JUMP_DISTANCES - from
  {
    if from < NUM_JUMP_DISTANCES && from != jump {
      FirstFreeIs(jumps, ctrl, p, from + 1, jump);
    }
  }

  lemma {:induction false} FirstFreeRange(jumps: seq<nat>, ctrl: seq<Byte>, p: nat, from: nat)
    requires |jumps| == NUM_JUMP_DISTANCES && |ctrl| > 0
    ensures FirstFree(jumps, ctrl, p, from) < NUM_JUMP_DISTANCES
    decreases NUM_JUMP_DISTANCES - from
  {
    if from < NUM_JUMP_DISTANCES {
      FirstFreeRange(jumps, ctrl, p, from + 1);
    }
  }

  // ----- the eviction of a chain tail, on the control bytes alone

  /** `it` heads what is still to be moved behind p, -1 when nothing is. */
  datatype Eviction = Eviction(ctrl: seq<Byte>, p: nat, it: int)

  /** One more link is moved, to the first free slot behind p; nothing happens without one. */
  ghost function MoveOne(jumps: seq<nat>, block: nat, e: Eviction): Eviction
    requires |jumps| == NUM_JUMP_DISTANCES
  {
    var n := |e.ctrl|;
    if !(0 <= e.it < n && e.p < n && block < n && JumpIndex(e.ctrl[e.it]) < NUM_JUMP_DISTANCES) then e
    else
      var jump := FirstFree(jumps, e.ctrl, e.p, 1);
      FirstFreeRange(jumps, e.ctrl, e.p, 1);
      if jump == 0 then e
      else
        var f, last := Target(n, e.p, jumps[jump]), JumpIndex(e.ctrl[e.it]);
        Eviction(Moved(e.ctrl, e.it, e.p, f, jump, block), f, if last == 0 then -1 else Target(n, e.it, jumps[last]))
  }

  ghost function MoveSome(jumps: seq<nat>, block: nat, e: Eviction, k: nat): Eviction
    requires |jumps| == NUM_JUMP_DISTANCES
  {
    if k == 0 then e else MoveOne(jumps, block, MoveSome(jumps, block, e, k - 1))
  }

  lemma {:induction false} MoveNoMore(jumps: seq<nat>, block: nat, e: Eviction, k: nat, m: nat)
    requires |jumps| == NUM_JUMP_DISTANCES && k <= m
    requires MoveOne(jumps, block, MoveSome(jumps, block, e, k)) == MoveSome(jumps, block, e, k)
    ensures MoveSome(jumps, block, e, m) == MoveSome(jumps, block, e, k)
    decreases m
  {
    if k < m {
      MoveNoMore(jumps, block, e, k, m - 1);
    }
  }

  /** Moving links one by one ends with none left. */
  ghost predicate Evictable(jumps: seq<nat>, ctrl: seq<Byte>, p: nat, block: nat)
    requires |jumps| == NUM_JUMP_DISTANCES
  {
    exists k: nat :: MoveSome(jumps, block, Eviction(ctrl, p, block), k).it == -1
  }

  /** An eviction that has got stuck with links left never ends. */
  lemma StuckForGood(jumps: seq<nat>, ctrl: seq<Byte>, p: nat, block: nat, k: nat)
    requires |jumps| == NUM_JUMP_DISTANCES
    requires var e := MoveSome(jumps, block, Eviction(ctrl, p, block), k); e.it != -1 && MoveOne(jumps, block, e) == e
    ensures !Evictable(jumps, ctrl, p, block)
  {
    var e := Eviction(ctrl, p, block);
    forall m: nat ensures MoveSome(jumps, block, e, m).it != -1 {
      if k <= m {
        MoveNoMore(jumps, block, e, k, m);
      } else if MoveSome(jumps, block, e, m).it == -1 {
        MoveNoMore(jumps, block, e, m, k);
        assert false;
      }
    }
  }

  lemma EvictionStarts(jumps: seq<nat>, e: Eviction, block: nat)
    requires |jumps| == NUM_JUMP_DISTANCES
    ensures MoveSome(jumps, block, e, 0) == e
  {
  }

  /** A round of the eviction is one more link moved. */
  lemma EvictionMoves(jumps: seq<nat>, e: Eviction, block: nat, k: nat, s: seq<Byte>, p: nat, it: nat, jump: nat)
    requires |jumps| == NUM_JUMP_DISTANCES && MoveSome(jumps, block, e, k) == Eviction(s, p, it)
    requires it < |s| && p < |s| && block < |s| && JumpIndex(s[it]) < NUM_JUMP_DISTANCES
    requires 0 < jump < NUM_JUMP_DISTANCES && s[Target(|s|, p, jumps[jump])] == EMPTY
    requires forall j :: 0 < j < jump ==> s[Target(|s|, p, jumps[j])] != EMPTY
    ensures MoveSome(jumps, block, e, k + 1) ==
            Eviction(Moved(s, it, p, Target(|s|, p, jumps[jump]), jump, block), Target(|s|, p, jumps[jump]),
                     if JumpIndex(s[it]) == 0 then -1 else Target(|s|, it, jumps[JumpIndex(s[it])]))
  {
    FirstFreeIs(jumps, s, p, 1, jump);
    hide Moved, Remainder;
  }

  lemma EvictionDone(jumps: seq<nat>, e: Eviction, block: nat, k: nat)
    requires |jumps| == NUM_JUMP_DISTANCES && MoveSome(jumps, block, e, k).it == -1 && e.it == block
    ensures Evictable(jumps, e.ctrl, e.p, block)
  {
  }

  lemma EvictionStuck(jumps: seq<nat>, e: Eviction, block: nat, k: nat, s: seq<Byte>, p: nat, it: nat)
    requires |jumps| == NUM_JUMP_DISTANCES && MoveSome(jumps, block, e, k) == Eviction(s, p, it) && e.it == block
    requires |s| > 0 && forall j :: 0 < j < NUM_JUMP_DISTANCES ==> s[Target(|s|, p, jumps[j])] != EMPTY
    ensures !Evictable(jumps, e.ctrl, e.p, block)
  {
    FirstFreeIs(jumps, s, p, 1, 0);
    StuckForGood(jumps, e.ctrl, e.p, block, k);
  }

  /** A link is moved exactly if some jump from the link before it leads to an empty slot. */
  lemma MovesExactly(jumps: seq<nat>, block: nat, e: Eviction)
    requires |jumps| == NUM_JUMP_DISTANCES
    requires 0 <= e.it < |e.ctrl| && e.p < |e.ctrl| && block < |e.ctrl|
    requires JumpIndex(e.ctrl[e.it]) < NUM_JUMP_DISTANCES && InUse(e.ctrl[e.p])
    ensures MoveOne(jumps, block, e) != e <==>
            exists j :: 0 < j < NUM_JUMP_DISTANCES && e.ctrl[Target(|e.ctrl|, e.p, jumps[j])] == EMPTY
  {
    FirstFreeFinds(jumps, e.ctrl, e.p, 1);
  }

  lemma {:induction false} FirstFreeFinds(jumps: seq<nat>, ctrl: seq<Byte>, p: nat, from: nat)
    requires |jumps| == NUM_JUMP_DISTANCES && |ctrl| > 0 && from > 0
    ensures var j := FirstFree(jumps, ctrl, p, from);
            if j == 0 then forall i :: from <= i < NUM_JUMP_DISTANCES ==> ctrl[Target(|ctrl|, p, jumps[i])] != EMPTY
            else
              && from <= j < NUM_JUMP_DISTANCES && ctrl[Target(|ctrl|, p, jumps[j])] == EMPTY
              && forall i :: from <= i < j ==> ctrl[Target(|ctrl|, p, jumps[i])] != EMPTY
    decreases NUM_JUMP_DISTANCES - from
  {
    if from < NUM_JUMP_DISTANCES {
      FirstFreeFinds(jumps, ctrl, p, from + 1);
    }
  }

  /** A tail of one link can be moved exactly if some jump from its parent is free. */
  lemma OneLinkEvictable(jumps: seq<nat>, ctrl: seq<Byte>, p: nat, block: nat)
    requires |jumps| == NUM_JUMP_DISTANCES && p < |ctrl| && block < |ctrl|
    requires InUse(ctrl[p]) && JumpIndex(ctrl[block]) == 0
    ensures Evictable(jumps, ctrl, p, block) <==>
            exists j :: 0 < j < NUM_JUMP_DISTANCES && ctrl[Target(|ctrl|, p, jumps[j])] == EMPTY
  {
    var e := Eviction(ctrl, p, block);
    MovesExactly(jumps, block, e);
    if MoveOne(jumps, block, e) == e {
      assert MoveSome(jumps, block, e, 0) == e;
      StuckForGood(jumps, ctrl, p, block, 0);
    } else {
      assert MoveSome(jumps, block, e, 1) == MoveOne(jumps, block, MoveSome(jumps, block, e, 0));
      assert MoveSome(jumps, block, e, 1).it == -1;
    }
  }

  // ----- when an insertion needs a larger table

  /** The last link of the chain of a home. */
  ghost predicate IsEnd(c: Chains, p: nat, home: nat) {
    c.Used(p) && JumpIndex(c.ctrl[p]) == 0 && p < |c.home| && c.home[p] == home
  }

  /** A chain has one end. */
  lemma OneEnd(c: Chains, p: nat, q: nat, home: nat)
    requires c.Sound() && IsEnd(c, p, home) && IsEnd(c, q, home)
    ensures p == q
  {
    if c.depth[p] < c.depth[q] {
      Descend(c, p, q);
    } else if c.depth[q] < c.depth[p] {
      Descend(c, q, p);
    } else {
      Unique(c, p, q);
    }
  }

  /** A new key of this home does not fit: the table has one slot, one more element exceeds the
      maximal load, no jump from the end of the home's chain is free, or a foreign tail in the
      home cannot be moved away. */
  ghost predicate GrowthNeeded(c: Chains, home: nat, count: nat, loadNum: nat, loadDen: nat)
    requires c.Sound() && home < |c.ctrl|
  {
    || |c.ctrl| == 1 || (count + 1) * loadDen > |c.ctrl| * loadNum
    || (IsDirectHit(c.ctrl[home]) && exists p :: IsEnd(c, p, home) && FirstFree(c.jumps, c.ctrl, p, 1) == 0)
    || (InUse(c.ctrl[home]) && !IsDirectHit(c.ctrl[home]) && !Evictable(c.jumps, c.ctrl, c.parent[home], home))
  }

  /** Where a new key goes that fits: into its home, or behind the end of the chain there. */
  ghost predicate GoesTo(c: Chains, home: nat, slot: nat)
    requires c.Sound() && home < |c.ctrl|
  {
    if IsDirectHit(c.ctrl[home]) then
      exists p :: IsEnd(c, p, home) && FirstFree(c.jumps, c.ctrl, p, 1) < NUM_JUMP_DISTANCES
                  && slot == Target(|c.ctrl|, p, c.jumps[FirstFree(c.jumps, c.ctrl, p, 1)])
    else slot == home
  }

  // ----- tables of a given size that are too crowded

  /** The chains and the slots d are a table at rest of exactly these keys, which has no room for k. */
  ghost predicate CrowdedTable<K(!new)>(jumps: seq<nat>, hash: Hasher<K>, loadNum: nat, loadDen: nat, n: nat, ks: set<K>, k: K,
                                        c: Chains, d: seq<Option<(K, ())>>)
    requires n > 0
  {
    && c.jumps == jumps && |d| == n && Settled(c, c.ctrl, d, hash, -1) && ToMap(d).Keys == ks
    && GrowthNeeded(c, Remainder(hash.Of(k), n), |ks|, loadNum, loadDen)
  }

  /** Some table of n slots at rest, with exactly these keys, has no room for key k. */
  ghost predicate CrowdedBy<K(!new)>(jumps: seq<nat>, hash: Hasher<K>, loadNum: nat, loadDen: nat, n: nat, ks: set<K>, k: K)
    requires n > 0
  {
    exists c: Chains, d: seq<Option<(K, ())>> :: CrowdedTable(jumps, hash, loadNum, loadDen, n, ks, k, c, d)
  }

  /** Of these keys, ks fill a table of n slots so that k has no room. */
  ghost predicate CrowdOut<K(!new)>(jumps: seq<nat>, hash: Hasher<K>, loadNum: nat, loadDen: nat, n: nat,
                                    all: set<K>, ks: set<K>, k: K)
    requires n > 0
  {
    ks <= all && k in all && k !in ks && CrowdedBy(jumps, hash, loadNum, loadDen, n, ks, k)
  }

  /** Some of the keys crowd a table of n slots, so that another of them has no room. */
  ghost predicate Crowding<K(!new)>(jumps: seq<nat>, hash: Hasher<K>, loadNum: nat, loadDen: nat, n: nat, all: set<K>)
    requires n > 0
  {
    exists ks: set<K>, k: K :: CrowdOut(jumps, hash, loadNum, loadDen, n, all, ks, k)
  }

  lemma BareSettled<K(!new), V>(c: Chains, d: seq<Option<(K, V)>>, hash: Hasher<K>)
    requires Settled(c, c.ctrl, d, hash, -1)
    ensures Settled(c, c.ctrl, Bare(d), hash, -1) && ToMap(Bare(d)).Keys == ToMap(d).Keys
  {
    BareKeys(d);
    hide ToMap, Remainder, DistinctKeys;
  }

  lemma CrowdedFrom<K(!new), V>(c: Chains, d: seq<Option<(K, V)>>, hash: Hasher<K>, loadNum: nat, loadDen: nat, k: K, all: set<K>)
    requires Settled(c, c.ctrl, d, hash, -1)
    requires GrowthNeeded(c, Remainder(hash.Of(k), |d|), |ToMap(d)|, loadNum, loadDen)
    requires ToMap(d).Keys <= all && k in all && k !in ToMap(d)
    ensures |d| > 0 && Crowding(c.jumps, hash, loadNum, loadDen, |d|, all)
  {
    BareSettled(c, d, hash);
    hide ToMap, Remainder, GrowthNeeded;
    assert |ToMap(d).Keys| == |ToMap(d)|;
    assert CrowdedTable(c.jumps, hash, loadNum, loadDen, |d|, ToMap(d).Keys, k, c, Bare(d));
    assert CrowdedBy(c.jumps, hash, loadNum, loadDen, |d|, ToMap(d).Keys, k);
    assert CrowdOut(c.jumps, hash, loadNum, loadDen, |d|, all, ToMap(d).Keys, k);
  }

  lemma CrowdingGrows<K(!new)>(jumps: seq<nat>, hash: Hasher<K>, loadNum: nat, loadDen: nat, n: nat, some: set<K>, all: set<K>)
    requires n > 0 && Crowding(jumps, hash, loadNum, loadDen, n, some) && some <= all
    ensures Crowding(jumps, hash, loadNum, loadDen, n, all)
  {
    var ks: set<K>, k: K :| CrowdOut(jumps, hash, loadNum, loadDen, n, some, ks, k);
    assert CrowdOut(jumps, hash, loadNum, loadDen, n, all, ks, k);
  }

  lemma EmptyHasRoom<K(!new)>(c: Chains, d: seq<Option<(K, ())>>, hash: Hasher<K>, home: nat, loadNum: nat, loadDen: nat)
    requires Settled(c, c.ctrl, d, hash, -1) && ToMap(d) == map[] && home < |d|
    requires |d| > 1 && loadDen <= |d| * loadNum
    ensures !GrowthNeeded(c, home, 0, loadNum, loadDen)
  {
    if d[home].Some? {
      Lookup(d, home);
      assert false;
    }
  }

  /** A table without elements has room for any key, if one element does not exceed its load. */
  lemma FirstKeyFits<K(!new)>(jumps: seq<nat>, hash: Hasher<K>, loadNum: nat, loadDen: nat, n: nat, k: K)
    requires n > 1 && loadDen <= n * loadNum
    ensures !Crowding(jumps, hash, loadNum, loadDen, n, {k})
  {
    hide GrowthNeeded, ToMap, Remainder;
    if Crowding(jumps, hash, loadNum, loadDen, n, {k}) {
      var ks: set<K>, x: K :| CrowdOut(jumps, hash, loadNum, loadDen, n, {k}, ks, x);
      assert ks == {};
      var c: Chains, d: seq<Option<(K, ())>> :| CrowdedTable(jumps, hash, loadNum, loadDen, n, ks, x, c, d);
      assert ToMap(d) == map[];
      EmptyHasRoom(c, d, hash, Remainder(hash.Of(x), n), loadNum, loadDen);
      assert false;
    }
  }

  // ----- few keys always fit

  /** The first jumps lead to the slots that follow. */
  ghost predicate StartsNear(jumps: seq<nat>) {
    |jumps| == NUM_JUMP_DISTANCES && forall j :: 0 <= j < 16 ==> jumps[j] == j
  }

  /** The m slots from p on. */
  ghost function Window(n: nat, p: nat, m: nat): set<int>
    requires n > 0
  {
    if m == 0 then {} else Window(n, p, m - 1) + {Target(n, p, m - 1)}
  }

  lemma {:induction false} WindowHas(n: nat, p: nat, m: nat, i: int) returns (j: nat)
    requires n > 0 && i in Window(n, p, m)
    ensures j < m && i == Target(n, p, j)
  {
    if i == Target(n, p, m - 1) {
      j := m - 1;
    } else {
      j := WindowHas(n, p, m - 1, i);
    }
  }

  lemma {:induction false} WindowSize(n: nat, p: nat, m: nat)
    requires m <= n && n > 0
    ensures |Window(n, p, m)| == m
  {
    if m > 0 {
      WindowSize(n, p, m - 1);
      if Target(n, p, m - 1) in Window(n, p, m - 1) {
        var j := WindowHas(n, p, m - 1, Target(n, p, m - 1));
        RemaindersDiffer(p + j, p + m - 1, n);
        assert false;
      }
    }
  }

  /** If no jump from a link is free, all slots close behind it but the reserved one hold elements. */
  lemma BlockedMeansMany<K(!new), V>(jumps: seq<nat>, ctrl: seq<Byte>, d: seq<Option<(K, V)>>, p: nat, block: nat)
    requires StartsNear(jumps) && Stored(ctrl, d) && p < |ctrl| && InUse(ctrl[p])
    requires forall i :: 0 <= i < |ctrl| && ctrl[i] == RESERVED ==> i == block
    requires FirstFree(jumps, ctrl, p, 1) == 0
    ensures Min(16, |ctrl|) <= |ToMap(d)| + 1
  {
    var n := |ctrl|;
    var m: nat := Min(16, n);
    FirstFreeFinds(jumps, ctrl, p, 1);
    WindowSize(n, p, m);
    var used := Window(n, p, m) - {block as int};
    forall i | i in used ensures 0 <= i < n && d[i].Some? {
      var j := WindowHas(n, p, m, i);
      assert jumps[j] == j;
      assert j == 0 ==> i == p;
    }
    SlotsHold(d, used, n);
    DropOne(Window(n, p, m), block);
  }

  lemma DropOne(s: set<int>, x: int)
    ensures |s| <= |s - {x}| + 1
  {
    if x in s {
      assert s == (s - {x}) + {x};
    } else {
      assert s - {x} == s;
    }
  }

  /** One more link of an eviction in progress is moved. */
  lemma EvictOnce<K(!new), V>(c: Chains, ctrl: seq<Byte>, d: seq<Option<(K, V)>>, hash: Hasher<K>, p: nat, it: nat, block: nat,
                              e: Eviction, k: nat)
    returns (c': Chains, ctrl': seq<Byte>, d': seq<Option<(K, V)>>, f: nat, it': int)
    requires Evicting(c, ctrl, d, hash, p, it, block) && |c.jumps| == NUM_JUMP_DISTANCES
    requires MoveSome(c.jumps, block, e, k) == Eviction(ctrl, p, it) && FirstFree(c.jumps, ctrl, p, 1) != 0
    ensures MoveSome(c.jumps, block, e, k + 1) == Eviction(ctrl', f, it')
    ensures |ctrl'| == |ctrl| && ToMap(d') == ToMap(d)
    ensures c'.jumps == c.jumps && f < |c.depth| && it < |c.depth| && c'.depth == c.depth[f := c.depth[it]]
    ensures it' != -1 ==>
              && 0 <= it' < |c'.depth| && c'.depth[it'] == c.depth[it] + 1
              && Evicting(c', ctrl', d', hash, f, it', block)
  {
    var jumps := c.jumps;
    var jump := FirstFree(jumps, ctrl, p, 1);
    FirstFreeFinds(jumps, ctrl, p, 1);
    f := Target(|ctrl|, p, jumps[jump]);
    c' := EvictionStep(c, ctrl, d, hash, it, p, f, jump, block);
    EvictionMoves(jumps, e, block, k, ctrl, p, it, jump);
    MovedSize(ctrl, it, p, f, jump, block);
    hide MoveSome, Moved, Remainder, Target, ToMap, FirstFree;
    ctrl', d' := Moved(ctrl, it, p, f, jump, block), d[f := d[it]][it := None];
    it' := if JumpIndex(ctrl[it]) == 0 then -1 else Target(|ctrl|, it, jumps[JumpIndex(ctrl[it])]);
  }

  /** With few elements every eviction in progress comes to its end. */
  lemma {:induction false} FewAreEvictable<K(!new), V>(c: Chains, ctrl: seq<Byte>, d: seq<Option<(K, V)>>, hash: Hasher<K>,
                                                       p: nat, it: nat, block: nat, e: Eviction, k: nat, bound: nat)
    requires Evicting(c, ctrl, d, hash, p, it, block) && StartsNear(c.jumps) && it < |c.depth|
    requires e.it == block && MoveSome(c.jumps, block, e, k) == Eviction(ctrl, p, it)
    requires |ToMap(d)| + 1 < Min(16, |ctrl|) && forall i :: 0 <= i < |c.depth| ==> c.depth[i] <= bound
    ensures Evictable(c.jumps, e.ctrl, e.p, block)
    decreases bound - c.depth[it]
  {
    EvictingStores(c, ctrl, d, hash, p, it, block);
    if FirstFree(c.jumps, ctrl, p, 1) == 0 {
      BlockedMeansMany(c.jumps, ctrl, d, p, block);
      assert false;
    }
    hide MoveSome, Evictable, Evicting, ToMap, Stored, FirstFree;
    var c', ctrl', d', f, it' := EvictOnce(c, ctrl, d, hash, p, it, block, e, k);
    if it' == -1 {
      EvictionDone(c.jumps, e, block, k + 1);
    } else {
      FewAreEvictable(c', ctrl', d', hash, f, it', block, e, k + 1, bound);
    }
  }

  lemma MovedSize(ctrl: seq<Byte>, it: nat, p: nat, f: nat, jump: nat, block: nat)
    requires it < |ctrl| && p < |ctrl| && f < |ctrl| && block < |ctrl| && jump < NUM_JUMP_DISTANCES
    ensures |Moved(ctrl, it, p, f, jump, block)| == |ctrl|
  {
  }

  lemma FewHaveRoom<K(!new)>(c: Chains, d: seq<Option<(K, ())>>, hash: Hasher<K>, home: nat, loadNum: nat, loadDen: nat)
    requires Settled(c, c.ctrl, d, hash, -1) && home < |d| && |d| > 1 && StartsNear(c.jumps)
    requires |ToMap(d)| + 1 < Min(16, |d|) && (|ToMap(d)| + 1) * loadDen <= |d| * loadNum
    ensures !GrowthNeeded(c, home, |ToMap(d)|, loadNum, loadDen)
  {
    SettledStores(c, c.ctrl, d, hash, -1);
    if IsDirectHit(c.ctrl[home]) {
      forall p | IsEnd(c, p, home) ensures FirstFree(c.jumps, c.ctrl, p, 1) != 0 {
        if FirstFree(c.jumps, c.ctrl, p, 1) == 0 {
          BlockedMeansMany(c.jumps, c.ctrl, d, p, p);
          assert false;
        }
      }
    } else if InUse(c.ctrl[home]) {
      assert c.SlotOk(-1, home);
      var c' := BeginEviction(c, c.ctrl, d, hash, home);
      var e := Eviction(c.ctrl, c.parent[home], home);
      EvictionStarts(c.jumps, e, home);
      FewAreEvictable(c', c.ctrl, d, hash, c.parent[home], home, home, e, 0, Deepest(c'.depth));
    }
  }

  lemma FewNotCrowded<K(!new)>(jumps: seq<nat>, hash: Hasher<K>, loadNum: nat, loadDen: nat, n: nat, ks: set<K>, k: K,
                               c: Chains, d: seq<Option<(K, ())>>)
    requires StartsNear(jumps) && n > 1 && |ks| + 1 < Min(16, n) && (|ks| + 1) * loadDen <= n * loadNum
    ensures !CrowdedTable(jumps, hash, loadNum, loadDen, n, ks, k, c, d)
  {
    hide GrowthNeeded, ToMap, Remainder;
    if CrowdedTable(jumps, hash, loadNum, loadDen, n, ks, k, c, d) {
      assert |ToMap(d)| == |ToMap(d).Keys|;
      FewHaveRoom(c, d, hash, Remainder(hash.Of(k), n), loadNum, loadDen);
      assert false;
    }
  }

  /** Up to fifteen keys, and fewer than there are slots, never crowd a table whose load they keep,
      whatever the hash function: such a table takes them all in without growing. */
  lemma FewKeysFit<K(!new)>(jumps: seq<nat>, hash: Hasher<K>, loadNum: nat, loadDen: nat, n: nat, all: set<K>)
    requires StartsNear(jumps) && n > 1 && |all| < Min(16, n) && |all| * loadDen <= n * loadNum
    ensures !Crowding(jumps, hash, loadNum, loadDen, n, all)
  {
    hide CrowdedTable, StartsNear;
    if Crowding(jumps, hash, loadNum, loadDen, n, all) {
      var ks: set<K>, k: K :| CrowdOut(jumps, hash, loadNum, loadDen, n, all, ks, k);
      var c: Chains, d: seq<Option<(K, ())>> :| CrowdedTable(jumps, hash, loadNum, loadDen, n, ks, k, c, d);
      ProperSize(ks, all, k);
      Monotone(|ks| + 1, |all|, loadDen);
      FewNotCrowded(jumps, hash, loadNum, loadDen, n, ks, k, c, d);
      assert false;
    }
  }
}
