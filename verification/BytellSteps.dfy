/** The stored elements of a bytell table together with the chains that link them:
    what each edit of the table does to both. */
module BytellSteps {
  import opened Naturals
  import opened Slots
  import opened HashPolicy
  import opened BytellChains

  /** A slot is in use exactly when it holds an element, no key is stored twice, and a
      table of one slot stores nothing. */
  ghost predicate Stored<K(!new), V>(ctrl: seq<Byte>, d: seq<Option<(K, V)>>) {
    && |ctrl| == |d|
    && (forall i :: 0 <= i < |d| ==> (InUse(ctrl[i]) <==> d[i].Some?))
    && DistinctKeys(d)
    && (|d| == 1 ==> ctrl[0] == EMPTY)
  }

  /** The links describe the stored elements: a slot is in use exactly when it holds
      one, and the home recorded for it is the home of its key. */
  ghost predicate Describes<K(!new), V>(c: Chains, d: seq<Option<(K, V)>>, hash: Hasher<K>) {
    && |c.ctrl| == |c.home| == |d| > 0
    && (forall i :: 0 <= i < |d| ==> (InUse(c.ctrl[i]) <==> d[i].Some?))
    && (forall i :: 0 <= i < |d| && d[i].Some? ==> c.home[i] == Remainder(hash.Of(d[i].value.0), |d|))
  }

  /** Everything is linked, and only the slot `spare` may still be reserved. */
  ghost predicate Settled<K(!new), V>(c: Chains, ctrl: seq<Byte>, d: seq<Option<(K, V)>>, hash: Hasher<K>, spare: int) {
    && c.ctrl == ctrl && c.Sound()
    && Describes(c, d, hash) && DistinctKeys(d)
    && (forall i :: 0 <= i < |ctrl| && ctrl[i] == RESERVED ==> i == spare)
    && (|d| == 1 ==> ctrl[0] == EMPTY)
  }

  /** The key is not among the links above slot i on the chain of `home`. */
  ghost predicate NotAbove<K(!new), V>(c: Chains, d: seq<Option<(K, V)>>, home: nat, i: nat, key: K)
    requires c.Sound() && |c.ctrl| == |d| && i < |d|
  {
    forall k :: c.Used(k) && c.home[k] == home && c.depth[k] < c.depth[i] ==> d[k].Some? ==> d[k].value.0 != key
  }

  /** Without a chain at its home a key is not stored. */
  lemma AbsentWithoutChain<K(!new), V>(c: Chains, d: seq<Option<(K, V)>>, hash: Hasher<K>, key: K)
    requires c.Sound() && Describes(c, d, hash)
    requires !IsDirectHit(c.ctrl[Remainder(hash.Of(key), |d|)])
    ensures key !in ToMap(d)
  {
    if key in ToMap(d) {
      var i := Origin(d, key);
      HomeIsHead(c, i);
      assert false;
    }
  }

  /** Having passed slot i, either go on to the next link or the key is not stored. */
  lemma PassLink<K(!new), V>(c: Chains, d: seq<Option<(K, V)>>, hash: Hasher<K>, i: nat, key: K)
    requires c.Sound() && Describes(c, d, hash)
    requires c.Used(i) && c.home[i] == Remainder(hash.Of(key), |d|) && d[i].value.0 != key
    requires NotAbove(c, d, c.home[i], i, key)
    ensures c.HasNext(i) ==>
              && c.Used(c.Next(i)) && c.home[c.Next(i)] == c.home[i]
              && c.depth[i] < c.depth[c.Next(i)] < |d|
              && NotAbove(c, d, c.home[i], c.Next(i), key)
    ensures !c.HasNext(i) ==> key !in ToMap(d)
  {
    forall k | c.Used(k) && c.home[k] == c.home[i] && c.depth[k] <= c.depth[i]
      ensures d[k].value.0 != key
    {
      if c.depth[k] == c.depth[i] {
        Unique(c, k, i);
      }
    }
    if c.HasNext(i) {
      NextIsDeeper(c, i);
      DepthBound(c, c.Next(i));
    } else if key in ToMap(d) {
      var k := Origin(d, key);
      Descend(c, i, k);
      assert false;
    }
  }

  // ----- the edits of the links and of the elements go together

  lemma DescribeAppend<K(!new), V>(c: Chains, d: seq<Option<(K, V)>>, hash: Hasher<K>, p: nat, f: nat, jump: nat, e: (K, V))
    requires c.Shape() && Describes(c, d, hash)
    requires c.Used(p) && f < |d| && !c.Used(f) && jump < NUM_JUMP_DISTANCES
    requires Remainder(hash.Of(e.0), |d|) == c.home[p]
    ensures Describes(c.Append(p, f, jump), d[f := Some(e)], hash)
  {
    JumpOnly(c.ctrl[p], jump);
  }

  lemma DescribeDrop<K(!new), V>(c: Chains, d: seq<Option<(K, V)>>, hash: Hasher<K>, i: nat, b: Byte)
    requires Describes(c, d, hash) && i < |d| && !InUse(b)
    ensures Describes(c.Drop(i, b), d[i := None], hash)
  {
  }

  lemma DescribePlant<K(!new), V>(c: Chains, d: seq<Option<(K, V)>>, hash: Hasher<K>, i: nat, e: (K, V))
    requires c.Shape() && Describes(c, d, hash) && i < |d| && !c.Used(i)
    requires Remainder(hash.Of(e.0), |d|) == i
    ensures Describes(c.Plant(i), d[i := Some(e)], hash)
  {
  }

  /** While a chain is being evicted the slots in use still are those with an element. */
  lemma EvictingStores<K(!new), V>(c: Chains, ctrl: seq<Byte>, d: seq<Option<(K, V)>>, hash: Hasher<K>, p: nat, it: nat, block: nat)
    requires Evicting(c, ctrl, d, hash, p, it, block)
    ensures Stored(ctrl, d)
  {
    JumpOnly(ctrl[p], 0);
  }

  /** Settled links describe where the elements are. */
  lemma SettledStores<K(!new), V>(c: Chains, ctrl: seq<Byte>, d: seq<Option<(K, V)>>, hash: Hasher<K>, spare: int)
    requires Settled(c, ctrl, d, hash, spare)
    ensures Stored(ctrl, d)
  {
  }

  lemma SettledAnyway<K(!new), V>(c: Chains, ctrl: seq<Byte>, d: seq<Option<(K, V)>>, hash: Hasher<K>, spare: int)
    requires Settled(c, ctrl, d, hash, -1)
    ensures Settled(c, ctrl, d, hash, spare)
  {
  }

  /** One step of an eviction: the detached entry `it` moves to the free slot f behind
      p, and what it linked to becomes the detached entry. No element is lost. */
  lemma RelocateStep<K(!new), V>(c: Chains, d: seq<Option<(K, V)>>, hash: Hasher<K>, p: nat, it: nat, f: nat, jump: nat, b: Byte)
    requires Appendable(c, it, p, f, jump) && Describes(c, d, hash) && DistinctKeys(d)
    requires c.home[p] == c.home[it] && c.depth[it] == c.depth[p] + 1 && !InUse(b)
    ensures var c' := c.Append(p, f, jump).Drop(it, b);
            var d' := d[f := d[it]][it := None];
            && Describes(c', d', hash) && DistinctKeys(d') && ToMap(d') == ToMap(d)
            && c'.depth == c.depth[f := c.depth[it]] && c'.jumps == c.jumps
            && c'.WellLinked(if c.HasNext(it) then c.Next(it) else -1)
            && (c.HasNext(it) ==>
                  && c'.Used(f) && c.Next(it) != f && c.Next(it) != it
                  && c'.home[c.Next(it)] == c'.home[f] && c'.depth[c.Next(it)] == c'.depth[f] + 1)
  {
    assert c.SlotOk(it, it);
    if c.HasNext(it) {
      assert c.SlotOk(it, c.Next(it));
    }
    var c1 := c.Append(p, f, jump);
    AppendLinks(c, it, p, f, jump);
    JumpOnly(c.ctrl[p], jump);
    assert c1.HasNext(it) == c.HasNext(it) && (c.HasNext(it) ==> c1.Next(it) == c.Next(it));
    DropPassesOn(c1, it, b);
    DescribeAppend(c, d, hash, p, f, jump, d[it].value);
    DescribeDrop(c1, d[f := d[it]], hash, it, b);
    Move(d, it, f);
  }

  /** Erasing slot i: its element is replaced by that of `last`, a slot of the same
      chain, which is vacated. Exactly the key of slot i goes. */
  lemma EraseElement<K(!new), V>(c: Chains, d: seq<Option<(K, V)>>, hash: Hasher<K>, i: nat, last: nat)
    requires Describes(c, d, hash) && DistinctKeys(d)
    requires c.Used(i) && c.Used(last) && c.home[i] == c.home[last]
    ensures var d' := d[i := d[last]][last := None];
            && Describes(c.Drop(last, EMPTY), d', hash) && DistinctKeys(d')
            && d[i].value.0 in ToMap(d)
            && ToMap(d') == ToMap(d) - {d[i].value.0} && |ToMap(d')| == |ToMap(d)| - 1
  {
    Remove(d, i);
    if i == last {
      assert d[i := d[last]][last := None] == d[i := None];
    } else {
      Move(d[i := None], last, i);
      assert d[i := None][i := d[last]][last := None] == d[i := d[last]][last := None];
    }
  }

  /** A chain is being evicted from `block`: p ends the part still linked (its old link
      counts as cut), `it` heads the rest, and `block` is kept reserved. */
  ghost predicate Evicting<K(!new), V>(c: Chains, ctrl: seq<Byte>, d: seq<Option<(K, V)>>, hash: Hasher<K>, p: nat, it: nat, block: nat) {
    && p < |ctrl| && it < |ctrl| && block < |ctrl|
    && InUse(ctrl[p]) && JumpIndex(ctrl[p]) < NUM_JUMP_DISTANCES
    && c.ctrl == ctrl[p := WithJump(ctrl[p], 0)]
    && c.WellLinked(it) && c.Used(p)
    && c.home[p] == c.home[it] && c.depth[it] == c.depth[p] + 1
    && Describes(c, d, hash) && DistinctKeys(d)
    && (it == block || ctrl[block] == RESERVED)
    && (forall i :: 0 <= i < |ctrl| && ctrl[i] == RESERVED ==> i == block)
  }

  /** The control bytes after one element has been moved. */
  ghost function Moved(ctrl: seq<Byte>, it: nat, p: nat, f: nat, jump: nat, block: nat): seq<Byte>
    requires it < |ctrl| && p < |ctrl| && f < |ctrl| && block < |ctrl| && jump < NUM_JUMP_DISTANCES
  {
    var s := ctrl[p := WithJump(ctrl[p], jump)][f := LIST_ENTRY][it := EMPTY];
    if JumpIndex(ctrl[it]) == 0 then s else s[block := RESERVED]
  }

  /** The slots involved in a round of the eviction loop are distinct. */
  lemma EvictionSlots<K(!new), V>(c: Chains, ctrl: seq<Byte>, d: seq<Option<(K, V)>>, hash: Hasher<K>,
                                  it: nat, p: nat, f: nat, block: nat)
    requires Evicting(c, ctrl, d, hash, p, it, block)
    requires f < |ctrl| && ctrl[f] == EMPTY
    ensures it != p && it != f && p != f && block != p && block != f
    ensures c.ctrl[it] == ctrl[it] && JumpIndex(ctrl[it]) < NUM_JUMP_DISTANCES
    ensures JumpIndex(c.ctrl[p]) == 0 && !c.Used(f)
  {
    JumpOnly(ctrl[p], 0);
  }

  /** A round of the eviction loop writes the bytes of a relocation. */
  lemma EvictionBytes(c: Chains, ctrl: seq<Byte>, it: nat, p: nat, f: nat, jump: nat, block: nat, b: Byte)
    requires c.Shape() && jump < NUM_JUMP_DISTANCES
    requires it < |ctrl| && p < |ctrl| && f < |ctrl| && block < |ctrl|
    requires c.ctrl == ctrl[p := WithJump(ctrl[p], 0)]
    requires it != p && it != f && p != f && block != p && block != f
    requires it == block || ctrl[block] == RESERVED
    requires b == if it == block && JumpIndex(ctrl[it]) != 0 then RESERVED else EMPTY
    ensures c.Append(p, f, jump).Drop(it, b).ctrl == Moved(ctrl, it, p, f, jump, block)
  {
    var s: seq<Byte> := ctrl[p := WithJump(ctrl[p], jump)];
    assert WithJump(c.ctrl[p], jump) == WithJump(ctrl[p], jump);
    assert c.ctrl[p := WithJump(c.ctrl[p], jump)] == s;
    assert it != block ==> s[f := LIST_ENTRY][it := EMPTY][block := RESERVED] == s[f := LIST_ENTRY][it := EMPTY];
    assert it == block ==> s[f := LIST_ENTRY][it := EMPTY][block := RESERVED] == s[f := LIST_ENTRY][it := RESERVED];
  }

  /** The links after a round. */
  ghost function Relocated(c: Chains, ctrl: seq<Byte>, it: nat, p: nat, f: nat, jump: nat, block: nat): Chains
    requires c.Shape() && |c.ctrl| == |ctrl|
    requires it < |ctrl| && p < |ctrl| && f < |ctrl| && jump < NUM_JUMP_DISTANCES
  {
    c.Append(p, f, jump).Drop(it, if it == block && JumpIndex(ctrl[it]) != 0 then RESERVED else EMPTY)
  }

  ghost predicate Round<K(!new), V>(c: Chains, ctrl: seq<Byte>, d: seq<Option<(K, V)>>, hash: Hasher<K>, it: nat, p: nat, f: nat, jump: nat, block: nat) {
    && Evicting(c, ctrl, d, hash, p, it, block)
    && 0 < jump < NUM_JUMP_DISTANCES && f < |ctrl| && ctrl[f] == EMPTY
    && Target(|ctrl|, p, c.jumps[jump]) == f
  }

  /** The last round completes the eviction. */
  lemma EvictionEnds<K(!new), V>(c: Chains, ctrl: seq<Byte>, d: seq<Option<(K, V)>>, hash: Hasher<K>, it: nat, p: nat, f: nat, jump: nat, block: nat)
    requires Round(c, ctrl, d, hash, it, p, f, jump, block) && JumpIndex(ctrl[it]) == 0
    ensures var ctrl', d' := Moved(ctrl, it, p, f, jump, block), d[f := d[it]][it := None];
            && ToMap(d') == ToMap(d) && !InUse(ctrl'[block])
            && Settled(Relocated(c, ctrl, it, p, f, jump, block), ctrl', d', hash, block)
  {
    EvictionSlots(c, ctrl, d, hash, it, p, f, block);
    RelocateStep(c, d, hash, p, it, f, jump, EMPTY);
    EvictionBytes(c, ctrl, it, p, f, jump, block, EMPTY);
  }

  /** Any other round leaves the eviction one link further on. */
  lemma EvictionGoesOn<K(!new), V>(c: Chains, ctrl: seq<Byte>, d: seq<Option<(K, V)>>, hash: Hasher<K>, it: nat, p: nat, f: nat, jump: nat, block: nat)
    requires Round(c, ctrl, d, hash, it, p, f, jump, block) && 0 < JumpIndex(ctrl[it]) < NUM_JUMP_DISTANCES
    ensures var ctrl', d' := Moved(ctrl, it, p, f, jump, block), d[f := d[it]][it := None];
            && ToMap(d') == ToMap(d)
            && Evicting(Relocated(c, ctrl, it, p, f, jump, block), ctrl', d', hash, f,
                        Target(|ctrl|, it, c.jumps[JumpIndex(ctrl[it])]), block)
  {
    hide Remainder, ToMap, DistinctKeys;
    EvictionSlots(c, ctrl, d, hash, it, p, f, block);
    var b := if it == block then RESERVED else EMPTY;
    RelocateStep(c, d, hash, p, it, f, jump, b);
    EvictionBytes(c, ctrl, it, p, f, jump, block, b);
    var ctrl' := Moved(ctrl, it, p, f, jump, block);
    assert ctrl'[f] == LIST_ENTRY;
    assert ctrl'[f := WithJump(ctrl'[f], 0)] == ctrl';
  }

  /** Each round of the eviction loop keeps every element and the links of all others,
      and either completes the eviction or leaves it one link further on. */
  lemma EvictionStep<K(!new), V>(c: Chains, ctrl: seq<Byte>, d: seq<Option<(K, V)>>, hash: Hasher<K>,
                                 it: nat, p: nat, f: nat, jump: nat, block: nat) returns (c': Chains)
    requires Round(c, ctrl, d, hash, it, p, f, jump, block)
    ensures it != p && it != f && p != f && block != p && block != f
    ensures c'.jumps == c.jumps && c'.depth == c.depth[f := c.depth[it]]
    ensures JumpIndex(ctrl[it]) < NUM_JUMP_DISTANCES
    ensures var ctrl' := Moved(ctrl, it, p, f, jump, block);
            var d' := d[f := d[it]][it := None];
            && ToMap(d') == ToMap(d)
            && if JumpIndex(ctrl[it]) == 0 then Settled(c', ctrl', d', hash, block) && !InUse(ctrl'[block])
               else Evicting(c', ctrl', d', hash, f, Target(|ctrl|, it, c.jumps[JumpIndex(ctrl[it])]), block)
  {
    EvictionSlots(c, ctrl, d, hash, it, p, f, block);
    c' := Relocated(c, ctrl, it, p, f, jump, block);
    if JumpIndex(ctrl[it]) == 0 {
      EvictionEnds(c, ctrl, d, hash, it, p, f, jump, block);
    } else {
      EvictionGoesOn(c, ctrl, d, hash, it, p, f, jump, block);
    }
  }

  /** Nothing has moved yet, the link into `block` counts as cut. */
  lemma BeginEviction<K(!new), V>(c: Chains, ctrl: seq<Byte>, d: seq<Option<(K, V)>>, hash: Hasher<K>, block: nat) returns (c': Chains)
    requires Settled(c, ctrl, d, hash, -1) && c.Used(block) && !IsDirectHit(ctrl[block])
    ensures Evicting(c', ctrl, d, hash, c.parent[block], block, block) && c'.jumps == c.jumps
  {
    CutDetaches(c, block);
    assert c.SlotOk(-1, block);
    JumpOnly(ctrl[c.parent[block]], 0);
    c' := c.Cut(c.parent[block]);
  }

  // ----- each completed edit leaves the table settled

  lemma LinkSettles<K(!new), V>(c: Chains, ctrl: seq<Byte>, d: seq<Option<(K, V)>>, hash: Hasher<K>, p: nat, f: nat, jump: nat, key: K, value: V)
    requires Settled(c, ctrl, d, hash, -1) && |d| > 1
    requires Appendable(c, -1, p, f, jump) && c.home[p] == Remainder(hash.Of(key), |d|) && key !in ToMap(d)
    ensures var c', d' := c.Append(p, f, jump), d[f := Some((key, value))];
            && Settled(c', c'.ctrl, d', hash, -1)
            && ToMap(d') == ToMap(d)[key := value] && |ToMap(d')| == |ToMap(d)| + 1
  {
    AppendLinks(c, -1, p, f, jump);
    DescribeAppend(c, d, hash, p, f, jump, (key, value));
    Insert(d, f, key, value);
    JumpOnly(ctrl[p], jump);
  }

  lemma PlantSettles<K(!new), V>(c: Chains, ctrl: seq<Byte>, d: seq<Option<(K, V)>>, hash: Hasher<K>, block: nat, key: K, value: V)
    requires Settled(c, ctrl, d, hash, block) && |d| > 1
    requires block == Remainder(hash.Of(key), |d|) && !c.Used(block) && key !in ToMap(d)
    ensures var c', d' := c.Plant(block), d[block := Some((key, value))];
            && Settled(c', c'.ctrl, d', hash, -1)
            && ToMap(d') == ToMap(d)[key := value] && |ToMap(d')| == |ToMap(d)| + 1
  {
    PlantIsSound(c, block);
    DescribePlant(c, d, hash, block, (key, value));
    Insert(d, block, key, value);
  }

  lemma VacateLastSettles<K(!new), V>(c: Chains, ctrl: seq<Byte>, d: seq<Option<(K, V)>>, hash: Hasher<K>, i: nat, last: nat)
    requires Settled(c, ctrl, d, hash, -1)
    requires c.Used(i) && c.Used(last) && c.home[i] == c.home[last]
    requires !IsDirectHit(ctrl[last]) && JumpIndex(ctrl[last]) == 0
    ensures c.HasNext(c.parent[last])
    ensures var c', d' := c.Cut(c.parent[last]).Drop(last, EMPTY), d[i := d[last]][last := None];
            && Settled(c', c'.ctrl, d', hash, -1)
            && ToMap(d') == ToMap(d) - {d[i].value.0} && |ToMap(d')| == |ToMap(d)| - 1
  {
    DropLastIsSound(c, last);
    assert c.SlotOk(-1, last);
    JumpOnly(ctrl[c.parent[last]], 0);
    EraseElement(c.Cut(c.parent[last]), d, hash, i, last);
  }

  lemma VacateHeadSettles<K(!new), V>(c: Chains, ctrl: seq<Byte>, d: seq<Option<(K, V)>>, hash: Hasher<K>, i: nat)
    requires Settled(c, ctrl, d, hash, -1)
    requires c.Used(i) && IsDirectHit(ctrl[i]) && JumpIndex(ctrl[i]) == 0
    ensures var c', d' := c.Drop(i, EMPTY), d[i := None];
            && Settled(c', c'.ctrl, d', hash, -1)
            && ToMap(d') == ToMap(d) - {d[i].value.0} && |ToMap(d')| == |ToMap(d)| - 1
  {
    DropHeadIsSound(c, i);
    DescribeDrop(c, d, hash, i, EMPTY);
    Remove(d, i);
  }

  /** A table without elements is settled. */
  lemma EmptySettles<K(!new), V>(jumps: seq<nat>, ctrl: seq<Byte>, d: seq<Option<(K, V)>>, hash: Hasher<K>) returns (c: Chains)
    requires |jumps| == NUM_JUMP_DISTANCES && |ctrl| == |d| > 0
    requires forall i :: 0 <= i < |ctrl| ==> ctrl[i] == EMPTY && d[i].None?
    ensures c.jumps == jumps && Settled(c, ctrl, d, hash, -1) && ToMap(d) == map[]
  {
    var zeros := seq(|ctrl|, _ => 0);
    c := Chains(jumps, ctrl, zeros, zeros, zeros);
    forall i: nat | i < |ctrl| ensures c.SlotOk(-1, i) {
    }
    Vacant(d);
  }
}
