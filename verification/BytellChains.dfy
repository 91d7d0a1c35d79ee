/** The collision chains that the bytell table keeps inside its control bytes.

    A control byte is empty, reserved, or marks an element as the head of a chain
    (a direct hit) or as a later link of one (a list entry); the low seven bits give
    the jump to the next link, 0 ending the chain. */
module BytellChains {
  import opened Naturals

  const EMPTY: Byte := 0xFF
  const RESERVED: Byte := 0xFE
  const DIRECT_HIT: Byte := 0x00
  const LIST_ENTRY: Byte := 0x80
  const NUM_JUMP_DISTANCES := 126

  /** Neither of the two bytes that stand for "no element here". */
  predicate InUse(b: Byte) {
    b != EMPTY && b != RESERVED
  }

  /** The top bit is clear. */
  predicate IsDirectHit(b: Byte) {
    b < 0x80
  }

  /** The low seven bits. */
  function JumpIndex(b: Byte): nat {
    b % 0x80
  }

  /** The byte with its low seven bits replaced. */
  function WithJump(b: Byte, jump: nat): Byte
    requires jump < 0x80
  {
    b - b % 0x80 + jump
  }

  /** The slot a jump leads to. */
  function Target(slots: nat, i: nat, distance: nat): (r: nat)
    requires slots > 0
    ensures r < slots
  {
    Remainder(i + distance, slots)
  }

  /** The control bytes together with what they mean: the home slot of each element
      in use, its distance from the head of its chain and the link before it. */
  datatype Chains = Chains(
    jumps: seq<nat>,
    ctrl: seq<Byte>,
    home: seq<nat>,
    depth: seq<nat>,
    parent: seq<nat>)
  {
    ghost predicate Shape() {
      && |jumps| == NUM_JUMP_DISTANCES
      && |ctrl| > 0
      && |home| == |depth| == |parent| == |ctrl|
      && forall i :: 0 <= i < |ctrl| && InUse(ctrl[i]) ==> JumpIndex(ctrl[i]) < NUM_JUMP_DISTANCES
    }

    ghost predicate Used(i: int) {
      0 <= i < |ctrl| && InUse(ctrl[i])
    }

    ghost predicate HasNext(i: int) {
      Used(i) && JumpIndex(ctrl[i]) != 0
    }

    ghost function Next(i: nat): (r: nat)
      requires Shape() && Used(i)
      ensures r < |ctrl|
    {
      Target(|ctrl|, i, jumps[JumpIndex(ctrl[i])])
    }

    /** What holds of one slot in use. `detached` is the one list entry that no link
        leads to, or -1. */
    ghost predicate SlotOk(detached: int, i: nat)
      requires Shape() && i < |ctrl|
    {
      Used(i) ==>
        && home[i] < |ctrl| && IsDirectHit(ctrl[home[i]])
        && (IsDirectHit(ctrl[i]) ==> home[i] == i && depth[i] == 0)
        && (!IsDirectHit(ctrl[i]) && i != detached ==>
              && HasNext(parent[i]) && Next(parent[i]) == i
              && home[parent[i]] == home[i]
              && depth[i] == depth[parent[i]] + 1)
        && (HasNext(i) ==>
              && Used(Next(i)) && !IsDirectHit(ctrl[Next(i)])
              && Next(i) != detached
              && parent[Next(i)] == i)
    }

    ghost predicate WellLinked(detached: int) {
      && Shape()
      && (detached == -1 || (Used(detached) && !IsDirectHit(ctrl[detached])))
      && forall i: nat :: i < |ctrl| ==> SlotOk(detached, i)
    }

    /** The chain invariant of a table at rest: every list entry is linked. */
    ghost predicate Sound() {
      WellLinked(-1)
    }

    /** The slot reached from i after t links, -1 past the end. */
    ghost function Walk(i: nat, t: nat): int
      requires Shape()
    {
      if t == 0 then i
      else
        var w := Walk(i, t - 1);
        if w >= 0 && HasNext(w) then Next(w) else -1
    }

    // ----- the edits the table makes

    /** The link out of p is removed. */
    ghost function Cut(p: nat): Chains
      requires p < |ctrl|
    {
      this.(ctrl := ctrl[p := WithJump(ctrl[p], 0)])
    }

    /** Slot f becomes the next link after p. */
    ghost function Append(p: nat, f: nat, jump: nat): Chains
      requires Shape() && p < |ctrl| && f < |ctrl| && jump < NUM_JUMP_DISTANCES
    {
      Chains(jumps,
             ctrl[p := WithJump(ctrl[p], jump)][f := LIST_ENTRY],
             home[f := home[p]],
             depth[f := depth[p] + 1],
             parent[f := p])
    }

    /** Slot i stops holding an element. */
    ghost function Drop(i: nat, b: Byte): Chains
      requires i < |ctrl|
    {
      this.(ctrl := ctrl[i := b])
    }

    /** Slot i becomes the head of a new chain. */
    ghost function Plant(i: nat): Chains
      requires Shape() && i < |ctrl|
    {
      this.(ctrl := ctrl[i := DIRECT_HIT], home := home[i := i], depth := depth[i := 0])
    }
  }

  /** A bound on every depth. */
  ghost function Deepest(depth: seq<nat>): (r: nat)
    ensures forall i :: 0 <= i < |depth| ==> depth[i] <= r
  {
    if depth == [] then 0
    else
      var r, last := Deepest(depth[..|depth| - 1]), depth[|depth| - 1];
      if r < last then last else r
  }

  // ----- each edit keeps the chains well linked

  /** Cutting the link into i leaves i as the only detached entry. */
  lemma CutDetaches(c: Chains, i: nat)
    requires c.Sound() && c.Used(i) && !IsDirectHit(c.ctrl[i])
    ensures c.HasNext(c.parent[i]) && c.Cut(c.parent[i]).WellLinked(i)
  {
    assert c.SlotOk(-1, i);
    var p := c.parent[i];
    JumpOnly(c.ctrl[p], 0);
    var c' := c.Cut(p);
    forall k: nat | k < |c'.ctrl| ensures c'.SlotOk(i, k) {
      assert c.SlotOk(-1, k);
    }
  }

  /** Changing the jump of a byte in use changes nothing else about it. */
  lemma JumpOnly(b: Byte, jump: nat)
    requires InUse(b) && JumpIndex(b) < NUM_JUMP_DISTANCES && jump < NUM_JUMP_DISTANCES
    ensures InUse(WithJump(b, jump)) && JumpIndex(WithJump(b, jump)) == jump
    ensures IsDirectHit(WithJump(b, jump)) == IsDirectHit(b)
  {
  }

  ghost predicate Appendable(c: Chains, detached: int, p: nat, f: nat, jump: nat) {
    && c.WellLinked(detached)
    && c.Used(p) && JumpIndex(c.ctrl[p]) == 0
    && f < |c.ctrl| && !InUse(c.ctrl[f])
    && 0 < jump < NUM_JUMP_DISTANCES && Target(|c.ctrl|, p, c.jumps[jump]) == f
  }

  lemma AppendOthers(c: Chains, detached: int, p: nat, f: nat, jump: nat, k: nat)
    requires Appendable(c, detached, p, f, jump)
    requires k < |c.ctrl| && k != p && k != f
    requires c.Append(p, f, jump).Shape()
    ensures c.Append(p, f, jump).SlotOk(detached, k)
  {
    JumpOnly(c.ctrl[p], jump);
    var c' := c.Append(p, f, jump);
    assert c.SlotOk(detached, k);
    if c.Used(k) {
      assert c'.HasNext(k) == c.HasNext(k) && c'.Next(k) == c.Next(k);
      if !IsDirectHit(c.ctrl[k]) && k != detached {
        var q := c.parent[k];
        assert q != p && q != f;
        assert c'.HasNext(q) && c'.Next(q) == k;
      }
    }
  }

  /** Linking an empty slot behind the end of a chain keeps everything linked. */
  lemma AppendLinks(c: Chains, detached: int, p: nat, f: nat, jump: nat)
    requires Appendable(c, detached, p, f, jump)
    ensures c.Append(p, f, jump).WellLinked(detached)
  {
    JumpOnly(c.ctrl[p], jump);
    var c' := c.Append(p, f, jump);
    assert c'.Shape();
    assert c.SlotOk(detached, p);
    assert c'.HasNext(p) && c'.Next(p) == f;
    forall k: nat | k < |c'.ctrl| ensures c'.SlotOk(detached, k) {
      if k != p && k != f {
        AppendOthers(c, detached, p, f, jump, k);
      }
    }
  }

  /** Vacating the detached entry leaves the entry it linked to as the detached one. */
  lemma DropPassesOn(c: Chains, i: nat, b: Byte)
    requires c.WellLinked(i) && !InUse(b)
    ensures c.Drop(i, b).WellLinked(if c.HasNext(i) then c.Next(i) else -1)
  {
    assert c.SlotOk(i, i);
    var c' := c.Drop(i, b);
    var d := if c.HasNext(i) then c.Next(i) else -1;
    forall k: nat | k < |c'.ctrl| ensures c'.SlotOk(d, k) {
      assert c.SlotOk(i, k);
    }
  }

  /** A slot without an element may become the head of a chain. */
  lemma PlantIsSound(c: Chains, i: nat)
    requires c.Sound() && i < |c.ctrl| && !InUse(c.ctrl[i])
    ensures c.Plant(i).Sound()
  {
    var c' := c.Plant(i);
    forall k: nat | k < |c'.ctrl| ensures c'.SlotOk(-1, k) {
      assert c.SlotOk(-1, k);
    }
  }

  /** A head without further links may be vacated. */
  lemma DropHeadIsSound(c: Chains, i: nat)
    requires c.Sound() && c.Used(i) && IsDirectHit(c.ctrl[i]) && JumpIndex(c.ctrl[i]) == 0
    ensures c.Drop(i, EMPTY).Sound()
  {
    assert c.SlotOk(-1, i);
    var c' := c.Drop(i, EMPTY);
    forall k: nat | k < |c'.ctrl| ensures c'.SlotOk(-1, k) {
      assert c.SlotOk(-1, k);
      if c.Used(k) && c.home[k] == i && k != i {
        Descend(c, i, k);
      }
    }
  }

  /** The last link of a chain may be vacated. */
  lemma DropLastIsSound(c: Chains, i: nat)
    requires c.Sound() && c.Used(i) && !IsDirectHit(c.ctrl[i]) && JumpIndex(c.ctrl[i]) == 0
    ensures c.HasNext(c.parent[i]) && c.Cut(c.parent[i]).Drop(i, EMPTY).Sound()
  {
    CutDetaches(c, i);
    assert c.SlotOk(-1, i);
    DropPassesOn(c.Cut(c.parent[i]), i, EMPTY);
  }

  // ----- what the local invariant says of whole chains

  /** The home of an element is the head of its chain; other elements lie deeper. */
  lemma HomeIsHead(c: Chains, i: nat)
    requires c.Sound() && c.Used(i)
    ensures c.Used(c.home[i]) && IsDirectHit(c.ctrl[c.home[i]])
    ensures c.home[c.home[i]] == c.home[i] && c.depth[c.home[i]] == 0
    ensures IsDirectHit(c.ctrl[i]) <==> c.depth[i] == 0
  {
    assert c.SlotOk(-1, i) && c.SlotOk(-1, c.home[i]);
  }

  /** Home and depth determine the slot: chains do not fork. */
  lemma {:induction false} Unique(c: Chains, a: nat, b: nat)
    requires c.Sound() && c.Used(a) && c.Used(b)
    requires c.home[a] == c.home[b] && c.depth[a] == c.depth[b]
    ensures a == b
    decreases c.depth[a]
  {
    assert c.SlotOk(-1, a) && c.SlotOk(-1, b);
    if c.depth[a] > 0 {
      Unique(c, c.parent[a], c.parent[b]);
    }
  }

  /** A slot above another one of the same home has a next link, one step closer. */
  lemma {:induction false} Descend(c: Chains, a: nat, b: nat)
    requires c.Sound() && c.Used(a) && c.Used(b)
    requires c.home[a] == c.home[b] && c.depth[a] < c.depth[b]
    ensures c.HasNext(a) && c.Used(c.Next(a))
    ensures c.home[c.Next(a)] == c.home[a] && c.depth[c.Next(a)] == c.depth[a] + 1
    ensures c.depth[c.Next(a)] == c.depth[b] ==> c.Next(a) == b
    decreases c.depth[b]
  {
    assert c.SlotOk(-1, b);
    var p := c.parent[b];
    if c.depth[p] == c.depth[a] {
      Unique(c, p, a);
    } else {
      Descend(c, a, p);
    }
    assert c.SlotOk(-1, a) && c.SlotOk(-1, c.Next(a));
  }

  /** The next link has the same home and lies one deeper. */
  lemma NextIsDeeper(c: Chains, i: nat)
    requires c.Sound() && c.HasNext(i)
    ensures c.Used(c.Next(i)) && !IsDirectHit(c.ctrl[c.Next(i)]) && c.parent[c.Next(i)] == i
    ensures c.home[c.Next(i)] == c.home[i] && c.depth[c.Next(i)] == c.depth[i] + 1
  {
    assert c.SlotOk(-1, i) && c.SlotOk(-1, c.Next(i));
  }

  /** The walk from a head stays on its chain. */
  lemma {:induction false} WalkStaysHome(c: Chains, r: nat, t: nat)
    requires c.Sound() && c.Used(r) && IsDirectHit(c.ctrl[r]) && c.Walk(r, t) >= 0
    ensures c.Used(c.Walk(r, t))
    ensures c.home[c.Walk(r, t)] == r && c.depth[c.Walk(r, t)] == t
  {
    assert c.SlotOk(-1, r);
    if t > 0 {
      WalkStaysHome(c, r, t - 1);
      NextIsDeeper(c, c.Walk(r, t - 1));
    }
  }

  /** The walk from an element's home reaches it. */
  lemma {:induction false} WalkReaches(c: Chains, i: nat)
    requires c.Sound() && c.Used(i)
    ensures c.home[i] < |c.ctrl| && c.Walk(c.home[i], c.depth[i]) == i
    decreases c.depth[i]
  {
    assert c.SlotOk(-1, i);
    if !IsDirectHit(c.ctrl[i]) {
      WalkReaches(c, c.parent[i]);
    }
  }

  /** Every element lies on exactly one chain, at exactly one place: the chain whose
      head is the element's own home. */
  lemma OnExactlyOneChain(c: Chains, i: nat)
    requires c.Sound() && c.Used(i)
    ensures c.Used(c.home[i]) && IsDirectHit(c.ctrl[c.home[i]])
    ensures forall r: nat, t: nat ::
              c.Used(r) && IsDirectHit(c.ctrl[r]) ==>
                (c.Walk(r, t) == i <==> r == c.home[i] && t == c.depth[i])
  {
    assert c.SlotOk(-1, i);
    WalkReaches(c, i);
    forall r: nat, t: nat | c.Used(r) && IsDirectHit(c.ctrl[r]) && c.Walk(r, t) == i
      ensures r == c.home[i] && t == c.depth[i]
    {
      WalkStaysHome(c, r, t);
    }
  }

  /** The slots from the head of i's chain down to i. */
  ghost function Above(c: Chains, i: nat): set<int>
    requires c.Sound() && c.Used(i)
    decreases c.depth[i]
  {
    assert c.SlotOk(-1, i);
    if IsDirectHit(c.ctrl[i]) then {i as int} else Above(c, c.parent[i]) + {i as int}
  }

  lemma {:induction false} AboveCounts(c: Chains, i: nat)
    requires c.Sound() && c.Used(i)
    ensures |Above(c, i)| == c.depth[i] + 1
    ensures forall k :: k in Above(c, i) ==> c.Used(k) && c.depth[k] <= c.depth[i]
    decreases c.depth[i]
  {
    assert c.SlotOk(-1, i);
    if !IsDirectHit(c.ctrl[i]) {
      AboveCounts(c, c.parent[i]);
    }
  }

  lemma {:induction false} RangeSize(s: set<int>, n: nat)
    requires forall k :: k in s ==> 0 <= k < n
    ensures |s| <= n
  {
    if n > 0 {
      RangeSize(s - {n - 1}, n - 1);
    } else {
      assert forall k :: k !in s;
    }
  }

  /** Chains are shorter than the table, so a walk along one is bounded. */
  lemma DepthBound(c: Chains, i: nat)
    requires c.Sound() && c.Used(i)
    ensures c.depth[i] < |c.ctrl|
  {
    AboveCounts(c, i);
    RangeSize(Above(c, i), |c.ctrl|);
  }

  /** Every chain ends: some link reached from its head has jump index 0. */
  lemma {:induction false} ChainEnds(c: Chains, i: nat) returns (t: nat)
    requires c.Sound() && c.Used(i)
    ensures t < |c.ctrl| && c.Walk(c.home[i], t) >= 0
    ensures c.Used(c.Walk(c.home[i], t)) && JumpIndex(c.ctrl[c.Walk(c.home[i], t)]) == 0
    decreases |c.ctrl| - c.depth[i]
  {
    WalkReaches(c, i);
    DepthBound(c, i);
    if c.HasNext(i) {
      NextIsDeeper(c, i);
      DepthBound(c, c.Next(i));
      t := ChainEnds(c, c.Next(i));
    } else {
      t := c.depth[i];
    }
  }
}
