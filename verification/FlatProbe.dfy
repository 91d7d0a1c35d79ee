/** Robin Hood probing: what the distances of the flat table say about where its keys
    are, and what each step of an insertion or a removal does to them. */
module FlatProbe {
  import opened Naturals
  import opened Slots
  import opened HashPolicy

  /** The distances of a table of n buckets with lookups shorter than `most`: -1 marks an
      empty slot, the last entry is the sentinel, and along the array a distance grows
      by at most one. */
  ghost predicate InOrder(dist: seq<int>, n: nat, most: nat) {
    && n > 0 && most > 0 && |dist| == n + most
    && dist[0] <= 0 && dist[|dist| - 1] == 0
    && (forall i :: 0 <= i < |dist| - 1 ==> -1 <= dist[i] < most)
    && (forall i, j :: 0 <= i < j < |dist| && j <= i + 1 ==> dist[j] <= dist[i] + 1)
  }

  /** Every element lies its distance behind its home; the sentinel holds none. */
  ghost predicate AtHome<K(!new), V>(dist: seq<int>, d: seq<Option<(K, V)>>, n: nat, hash: Hasher<K>) {
    && n > 0 && |d| == |dist| > 0
    && d[|d| - 1].None?
    && (forall i :: 0 <= i < |d| - 1 ==> (d[i].Some? <==> dist[i] >= 0))
    && (forall i :: 0 <= i < |d| && d[i].Some? ==> i - dist[i] == Remainder(hash.Of(d[i].value.0), n))
  }

  /** A table at rest. */
  ghost predicate AtRest<K(!new), V>(dist: seq<int>, d: seq<Option<(K, V)>>, n: nat, most: nat, hash: Hasher<K>) {
    && InOrder(dist, n, most) && AtHome(dist, d, n, hash) && DistinctKeys(d)
  }

  /** The part of the invariant a rehash relies on: which slots hold an element. */
  ghost predicate Stored<K(!new), V>(dist: seq<int>, d: seq<Option<(K, V)>>) {
    && |d| == |dist| > 0 && d[|d| - 1].None?
    && (forall i :: 0 <= i < |d| - 1 ==> (d[i].Some? <==> dist[i] >= 0))
    && DistinctKeys(d)
  }

  /** Over several slots a distance grows by at most their number. */
  lemma {:induction false} GrowsSlowly(dist: seq<int>, n: nat, most: nat, i: nat, j: nat)
    requires InOrder(dist, n, most) && i <= j < |dist|
    ensures dist[j] <= dist[i] + (j - i)
    decreases j
  {
    if i < j {
      GrowsSlowly(dist, n, most, i, j - 1);
    }
  }

  // ----- lookup

  /** The key is not in the slots from its home up to i. */
  ghost predicate NotBefore<K, V>(d: seq<Option<(K, V)>>, home: nat, i: nat, key: K) {
    forall k :: home <= k < i && k < |d| && d[k].Some? ==> d[k].value.0 != key
  }

  /** A lookup may stop at the first slot whose distance is below the probe's. */
  lemma AbsentBeyond<K(!new), V>(dist: seq<int>, d: seq<Option<(K, V)>>, n: nat, most: nat, hash: Hasher<K>, key: K, i: nat)
    requires AtRest(dist, d, n, most, hash)
    requires Remainder(hash.Of(key), n) <= i < |d| && dist[i] < i - Remainder(hash.Of(key), n)
    requires NotBefore(d, Remainder(hash.Of(key), n), i, key)
    ensures key !in ToMap(d)
  {
    if key in ToMap(d) {
      var k := Origin(d, key);
      if k >= i {
        GrowsSlowly(dist, n, most, i, k);
      }
      assert false;
    }
  }

  /** Where a lookup for the key stands: it has passed slots at least as far from home. */
  ghost predicate Probing<K(!new), V>(dist: seq<int>, d: seq<Option<(K, V)>>, n: nat, hash: Hasher<K>, key: K, it: nat, distance: nat) {
    && n > 0 && it < |dist| && it == Remainder(hash.Of(key), n) + distance
    && (distance > 0 ==> distance <= dist[it - 1] + 1)
    && NotBefore(d, it - distance, it, key)
  }

  /** A slot that is not closer to its home than the probe holds an element before the sentinel,
      and if it is not the key the probe goes on. */
  lemma ProbeStep<K(!new), V>(dist: seq<int>, d: seq<Option<(K, V)>>, n: nat, most: nat, hash: Hasher<K>, key: K, it: nat, distance: nat)
    requires AtRest(dist, d, n, most, hash) && Probing(dist, d, n, hash, key, it, distance) && dist[it] >= distance
    ensures it + 1 < |dist| == |d| && d[it].Some? && distance < most
    ensures d[it].value.0 != key ==> Probing(dist, d, n, hash, key, it + 1, distance + 1)
  {
    hide Remainder;
  }

  lemma ProbeStart<K(!new), V>(dist: seq<int>, d: seq<Option<(K, V)>>, n: nat, most: nat, hash: Hasher<K>, key: K)
    requires AtRest(dist, d, n, most, hash)
    ensures Probing(dist, d, n, hash, key, Remainder(hash.Of(key), n), 0)
  {
    hide Remainder;
  }

  lemma ProbeEnds<K(!new), V>(dist: seq<int>, d: seq<Option<(K, V)>>, n: nat, most: nat, hash: Hasher<K>, key: K, it: nat, distance: nat)
    requires AtRest(dist, d, n, most, hash) && Probing(dist, d, n, hash, key, it, distance) && dist[it] < distance
    ensures key !in ToMap(d)
  {
    hide Remainder;
    AbsentBeyond(dist, d, n, most, hash, key, it);
  }

  lemma ProbePlace<K(!new), V>(dist: seq<int>, d: seq<Option<(K, V)>>, n: nat, hash: Hasher<K>, key: K, it: nat, distance: nat)
    requires Probing(dist, d, n, hash, key, it, distance)
    ensures it < |dist| && it == Remainder(hash.Of(key), n) + distance
    ensures distance > 0 ==> distance <= dist[it - 1] + 1
  {
  }

  // ----- insertion

  /** The element e is being carried to slot cur, c slots behind its home, and may go
      there as far as the order is concerned. */
  ghost predicate Carrying<K(!new), V>(dist: seq<int>, d: seq<Option<(K, V)>>, n: nat, most: nat, hash: Hasher<K>,
                                       cur: nat, c: nat, e: (K, V)) {
    && AtRest(dist, d, n, most, hash)
    && c < most && cur == Remainder(hash.Of(e.0), n) + c
    && (c > 0 ==> cur <= |dist| && c <= dist[cur - 1] + 1)
    && e.0 !in ToMap(d)
  }

  lemma CarriedAtRest<K(!new), V>(dist: seq<int>, d: seq<Option<(K, V)>>, n: nat, most: nat, hash: Hasher<K>,
                                  cur: nat, c: nat, e: (K, V))
    requires Carrying(dist, d, n, most, hash, cur, c, e)
    ensures InOrder(dist, n, most) && c < most && cur < |dist| - 1
  {
  }

  /** The carried element never reaches the sentinel. */
  lemma BeforeSentinel<K(!new), V>(dist: seq<int>, d: seq<Option<(K, V)>>, n: nat, most: nat, hash: Hasher<K>,
                                   cur: nat, c: nat, e: (K, V))
    requires Carrying(dist, d, n, most, hash, cur, c, e)
    ensures cur < |dist| - 1
  {
  }

  /** Writing the carried element's distance keeps the order. */
  lemma RaiseInOrder(dist: seq<int>, n: nat, most: nat, cur: nat, c: nat)
    requires InOrder(dist, n, most) && cur < |dist| - 1
    requires dist[cur] < c < most && c <= cur
    requires c > 0 ==> c <= dist[cur - 1] + 1
    ensures InOrder(dist[cur := c], n, most)
  {
  }

  lemma WriteAtHome<K(!new), V>(dist: seq<int>, d: seq<Option<(K, V)>>, n: nat, hash: Hasher<K>, cur: nat, c: nat, e: (K, V))
    requires AtHome(dist, d, n, hash) && cur < |d| - 1 && cur == Remainder(hash.Of(e.0), n) + c
    ensures AtHome(dist[cur := c], d[cur := Some(e)], n, hash)
  {
  }

  /** The carried element goes into an empty slot: the key is added. */
  lemma PlaceCarried<K(!new), V>(dist: seq<int>, d: seq<Option<(K, V)>>, n: nat, most: nat, hash: Hasher<K>,
                                 cur: nat, c: nat, e: (K, V))
    requires Carrying(dist, d, n, most, hash, cur, c, e) && cur < |dist| && dist[cur] < 0
    ensures var d' := d[cur := Some(e)];
            && AtRest(dist[cur := c], d', n, most, hash)
            && ToMap(d') == ToMap(d)[e.0 := e.1] && |ToMap(d')| == |ToMap(d)| + 1
  {
    BeforeSentinel(dist, d, n, most, hash, cur, c, e);
    RaiseInOrder(dist, n, most, cur, c);
    WriteAtHome(dist, d, n, hash, cur, c, e);
    Insert(d, cur, e.0, e.1);
  }

  /** Replacing one element by another: what is carried plus what is stored is the same. */
  lemma SwapStored<K, V>(d: seq<Option<(K, V)>>, i: nat, e: (K, V))
    requires DistinctKeys(d) && i < |d| && d[i].Some? && e.0 !in ToMap(d)
    ensures var d', e' := d[i := Some(e)], d[i].value;
            && DistinctKeys(d') && e'.0 !in ToMap(d') && e.0 in ToMap(d')
            && ToMap(d')[e'.0 := e'.1] == ToMap(d)[e.0 := e.1] && |ToMap(d')| == |ToMap(d)|
  {
    var e' := d[i].value;
    Lookup(d, i);
    Remove(d, i);
    Insert(d[i := None], i, e.0, e.1);
    assert d[i := None][i := Some(e)] == d[i := Some(e)];
    assert (ToMap(d) - {e'.0})[e.0 := e.1][e'.0 := e'.1] == ToMap(d)[e.0 := e.1];
  }

  /** The carried element displaces one that is closer to its own home. */
  lemma DisplaceNext<K(!new), V>(dist: seq<int>, d: seq<Option<(K, V)>>, n: nat, most: nat, hash: Hasher<K>,
                                 cur: nat, c: nat, e: (K, V))
    requires Carrying(dist, d, n, most, hash, cur, c, e) && cur < |dist| && 0 <= dist[cur] < c
    ensures d[cur].Some?
    ensures var d', e' := d[cur := Some(e)], d[cur].value;
            && Carrying(dist[cur := c], d', n, most, hash, cur + 1, dist[cur] + 1, e')
            && ToMap(d')[e'.0 := e'.1] == ToMap(d)[e.0 := e.1] && |ToMap(d')| == |ToMap(d)|
  {
    BeforeSentinel(dist, d, n, most, hash, cur, c, e);
    RaiseInOrder(dist, n, most, cur, c);
    WriteAtHome(dist, d, n, hash, cur, c, e);
    SwapStored(d, cur, e);
  }

  /** The carried element moves past one at least as far from its home. */
  lemma PassNext<K(!new), V>(dist: seq<int>, d: seq<Option<(K, V)>>, n: nat, most: nat, hash: Hasher<K>,
                             cur: nat, c: nat, e: (K, V))
    requires Carrying(dist, d, n, most, hash, cur, c, e) && cur < |dist| && c <= dist[cur] && c + 1 < most
    ensures Carrying(dist, d, n, most, hash, cur + 1, c + 1, e)
  {
    BeforeSentinel(dist, d, n, most, hash, cur, c, e);
  }

  /** On overflow the carried element takes the place of the new one, whose distance stays
      behind: the elements are the old ones again. */
  lemma PutBack<K(!new), V>(dist: seq<int>, d: seq<Option<(K, V)>>, r: nat, e: (K, V), key: K, value: V, m: map<K, V>)
    requires Stored(dist, d) && r < |d| && d[r] == Some((key, value)) && e.0 !in ToMap(d)
    requires key !in m && ToMap(d)[e.0 := e.1] == m[key := value]
    ensures Stored(dist, d[r := Some(e)])
    ensures ToMap(d[r := Some(e)]) == m && |ToMap(d[r := Some(e)])| == |ToMap(d)|
  {
    SwapStored(d, r, e);
    var m' := ToMap(d[r := Some(e)]);
    assert m'[key := value] == m[key := value] && key !in m';
    assert m' == m'[key := value] - {key};
    assert m == m[key := value] - {key};
  }

  // ----- removal by shifting back

  /** An element moved back by some slots is that much closer to its home. */
  lemma MoveBack<K(!new), V>(dist: seq<int>, d: seq<Option<(K, V)>>, n: nat, hash: Hasher<K>, from: nat, to: nat)
    requires AtHome(dist, d, n, hash) && to < from < |d| - 1
    requires d[from].Some? && dist[to] < 0 && from - to <= dist[from]
    ensures AtHome(dist[to := dist[from] - (from - to)][from := -1], d[to := d[from]][from := None], n, hash)
  {
  }

  /** The order holds but for the empty slot `hole`: the element behind it, if displaced,
      may move into it. */
  ghost predicate HoleInOrder(dist: seq<int>, n: nat, most: nat, hole: nat) {
    && n > 0 && most > 0 && |dist| == n + most && hole < |dist| - 1
    && dist[0] <= 0 && dist[|dist| - 1] == 0
    && (forall i :: 0 <= i < |dist| - 1 ==> -1 <= dist[i] < most)
    && (forall i, j :: 0 <= i < j < |dist| && j <= i + 1 && i != hole ==> dist[j] <= dist[i] + 1)
    && dist[hole] == -1 && dist[hole + 1] <= (if hole == 0 then 1 else dist[hole - 1] + 2)
  }

  lemma OpenHoleOrder(dist: seq<int>, n: nat, most: nat, i: nat)
    requires InOrder(dist, n, most) && i < |dist| - 1
    ensures HoleInOrder(dist[i := -1], n, most, i)
  {
    assert i > 0 ==> dist[i] <= dist[i - 1] + 1;
    assert dist[i + 1] <= dist[i] + 1;
  }

  lemma ShiftHoleOrder(dist: seq<int>, n: nat, most: nat, hole: nat)
    requires HoleInOrder(dist, n, most, hole) && dist[hole + 1] > 0
    ensures hole + 1 < |dist| - 1
    ensures HoleInOrder(dist[hole := dist[hole + 1] - 1][hole + 1 := -1], n, most, hole + 1)
  {
    assert dist[hole + 2] <= dist[hole + 1] + 1;
  }

  ghost predicate Hole<K(!new), V>(dist: seq<int>, d: seq<Option<(K, V)>>, n: nat, most: nat, hash: Hasher<K>, hole: nat) {
    && HoleInOrder(dist, n, most, hole) && AtHome(dist, d, n, hash) && DistinctKeys(d)
  }

  lemma OpenHole<K(!new), V>(dist: seq<int>, d: seq<Option<(K, V)>>, n: nat, most: nat, hash: Hasher<K>, i: nat)
    requires AtRest(dist, d, n, most, hash) && i < |d| && d[i].Some?
    ensures var d' := d[i := None];
            && Hole(dist[i := -1], d', n, most, hash, i)
            && ToMap(d') == ToMap(d) - {d[i].value.0} && |ToMap(d')| == |ToMap(d)| - 1
  {
    hide Remainder;
    Remove(d, i);
    OpenHoleOrder(dist, n, most, i);
  }

  lemma ShiftHole<K(!new), V>(dist: seq<int>, d: seq<Option<(K, V)>>, n: nat, most: nat, hash: Hasher<K>, hole: nat)
    requires Hole(dist, d, n, most, hash, hole) && dist[hole + 1] > 0
    ensures hole + 1 < |dist| - 1 && d[hole + 1].Some?
    ensures var dist', d' := dist[hole := dist[hole + 1] - 1][hole + 1 := -1], d[hole := d[hole + 1]][hole + 1 := None];
            Hole(dist', d', n, most, hash, hole + 1) && ToMap(d') == ToMap(d)
  {
    ShiftHoleOrder(dist, n, most, hole);
    MoveBack(dist, d, n, hash, hole + 1, hole);
    Move(d, hole + 1, hole);
  }

  lemma HoleInside<K(!new), V>(dist: seq<int>, d: seq<Option<(K, V)>>, n: nat, most: nat, hash: Hasher<K>, hole: nat)
    requires Hole(dist, d, n, most, hash, hole)
    ensures hole + 1 < |dist|
  {
  }

  lemma CloseHole<K(!new), V>(dist: seq<int>, d: seq<Option<(K, V)>>, n: nat, most: nat, hash: Hasher<K>, hole: nat)
    requires Hole(dist, d, n, most, hash, hole) && hole + 1 < |dist| && dist[hole + 1] <= 0
    ensures AtRest(dist, d, n, most, hash)
  {
  }

  // ----- removal of a range

  /** The order holds but for the w empty slots before `it`: the element at `it` may move
      back over as many of them as its distance allows. */
  ghost predicate GapInOrder(dist: seq<int>, n: nat, most: nat, it: nat, w: nat) {
    && n > 0 && most > 0 && |dist| == n + most && 0 < w <= it < |dist|
    && dist[0] <= 0 && dist[|dist| - 1] == 0
    && (forall i :: 0 <= i < |dist| - 1 ==> -1 <= dist[i] < most)
    && (forall i, j :: 0 <= i < j < |dist| && j <= i + 1 && j != it ==> dist[j] <= dist[i] + 1)
    && (forall i :: it - w <= i < it ==> dist[i] == -1)
    && dist[it] <= w + (if it == w then 0 else dist[it - w - 1] + 1)
  }

  lemma ShiftGapOrder(dist: seq<int>, n: nat, most: nat, it: nat, w: nat, m: nat)
    requires GapInOrder(dist, n, most, it, w) && dist[it] > 0 && m == Min(dist[it], w)
    ensures it < |dist| - 1
    ensures GapInOrder(dist[it - m := dist[it] - m][it := -1], n, most, it + 1, m)
  {
    var dist' := dist[it - m := dist[it] - m][it := -1];
    assert m < w ==> dist[it - m - 1] == -1;
  }

  ghost predicate Gap<K(!new), V>(dist: seq<int>, d: seq<Option<(K, V)>>, n: nat, most: nat, hash: Hasher<K>, it: nat, w: nat) {
    && GapInOrder(dist, n, most, it, w) && AtHome(dist, d, n, hash) && DistinctKeys(d)
  }

  /** Moving the element at `it` back by m slots, always into an empty one. */
  lemma ShiftGap<K(!new), V>(dist: seq<int>, d: seq<Option<(K, V)>>, n: nat, most: nat, hash: Hasher<K>, it: nat, w: nat, m: nat)
    requires Gap(dist, d, n, most, hash, it, w) && dist[it] > 0 && m == Min(dist[it], w)
    ensures it < |dist| - 1 && dist[it - m] == -1 && d[it - m].None? && d[it].Some?
    ensures var dist', d' := dist[it - m := dist[it] - m][it := -1], d[it - m := d[it]][it := None];
            Gap(dist', d', n, most, hash, it + 1, m) && ToMap(d') == ToMap(d)
  {
    ShiftGapOrder(dist, n, most, it, w, m);
    MoveBack(dist, d, n, hash, it, it - m);
    Move(d, it, it - m);
  }

  lemma CloseGap<K(!new), V>(dist: seq<int>, d: seq<Option<(K, V)>>, n: nat, most: nat, hash: Hasher<K>, it: nat, w: nat)
    requires Gap(dist, d, n, most, hash, it, w) && dist[it] <= 0
    ensures AtRest(dist, d, n, most, hash)
  {
  }

  /** The sequence with the elements from lo up to but excluding hi replaced. */
  ghost function Blank<T>(s: seq<T>, lo: nat, hi: nat, x: T): (r: seq<T>)
    requires lo <= hi <= |s|
    ensures |r| == |s| && forall i :: 0 <= i < |s| ==> r[i] == if lo <= i < hi then x else s[i]
  {
    seq(|s|, i requires 0 <= i < |s| => if lo <= i < hi then x else s[i])
  }

  lemma BlankGapOrder(dist: seq<int>, n: nat, most: nat, lo: nat, hi: nat)
    requires InOrder(dist, n, most) && lo < hi < |dist|
    ensures GapInOrder(Blank(dist, lo, hi, -1), n, most, hi, hi - lo)
  {
    GrowsSlowly(dist, n, most, if lo == 0 then 0 else lo - 1, hi);
  }

  lemma BlankAtHome<K(!new), V>(dist: seq<int>, d: seq<Option<(K, V)>>, n: nat, hash: Hasher<K>, lo: nat, hi: nat)
    requires AtHome(dist, d, n, hash) && DistinctKeys(d) && lo < hi < |d|
    ensures AtHome(Blank(dist, lo, hi, -1), Blank(d, lo, hi, None), n, hash) && DistinctKeys(Blank(d, lo, hi, None))
  {
    hide Remainder;
  }

  /** Blanking a non-empty range leaves a gap that can be closed. */
  lemma BlankGap<K(!new), V>(dist: seq<int>, d: seq<Option<(K, V)>>, n: nat, most: nat, hash: Hasher<K>, lo: nat, hi: nat)
    requires AtRest(dist, d, n, most, hash) && lo < hi < |d|
    ensures Gap(Blank(dist, lo, hi, -1), Blank(d, lo, hi, None), n, most, hash, hi, hi - lo)
  {
    hide Remainder;
    BlankGapOrder(dist, n, most, lo, hi);
    BlankAtHome(dist, d, n, hash, lo, hi);
  }

  /** The end of the run of displaced elements that starts at slot i. */
  ghost function RunEnd(dist: seq<int>, i: nat): (r: nat)
    requires i < |dist| && dist[|dist| - 1] <= 0
    ensures i <= r < |dist| && dist[r] <= 0 && (forall k :: i <= k < r ==> dist[k] > 0)
    decreases |dist| - i
  {
    if dist[i] <= 0 then i else RunEnd(dist, i + 1)
  }

  /** The elements of slots lo up to it have been dropped, nothing else has changed. */
  ghost predicate Dropped<K(!new), V>(dist0: seq<int>, d0: seq<Option<(K, V)>>, dist: seq<int>, d: seq<Option<(K, V)>>, lo: nat, it: nat) {
    && |dist| == |dist0| == |d| == |d0| && lo <= it < |d|
    && dist == Blank(dist0, lo, it, -1) && d == Blank(d0, lo, it, None)
    && DistinctKeys(d0) && DistinctKeys(d)
    && ToMap(d) == ToMap(d0) - KeysBetween(d0, lo, it)
  }

  lemma DropNothing<K(!new), V>(dist: seq<int>, d: seq<Option<(K, V)>>, lo: nat)
    requires |dist| == |d| && lo < |d| && DistinctKeys(d)
    ensures Dropped(dist, d, dist, d, lo, lo)
  {
    assert KeysBetween(d, lo, lo) == {};
    assert Blank(dist, lo, lo, -1) == dist && Blank(d, lo, lo, None) == d;
  }

  lemma DropOneMore<K(!new), V>(dist0: seq<int>, d0: seq<Option<(K, V)>>, dist: seq<int>, d: seq<Option<(K, V)>>, lo: nat, it: nat)
    requires Dropped(dist0, d0, dist, d, lo, it) && d0[it].Some? && it + 1 < |d|
    ensures Dropped(dist0, d0, dist[it := -1], d[it := None], lo, it + 1)
    ensures |ToMap(d[it := None])| == |ToMap(d)| - 1
  {
    assert Blank(dist0, lo, it + 1, -1) == dist[it := -1];
    assert Blank(d0, lo, it + 1, None) == d[it := None];
    Remove(d, it);
    KeysOneMore(d0, lo, it);
    MinusOneMore(ToMap(d0), KeysBetween(d0, lo, it), d0[it].value.0);
  }

  lemma SkipOneMore<K(!new), V>(dist0: seq<int>, d0: seq<Option<(K, V)>>, dist: seq<int>, d: seq<Option<(K, V)>>, lo: nat, it: nat)
    requires Dropped(dist0, d0, dist, d, lo, it) && d0[it].None? && dist0[it] == -1 && it + 1 < |d|
    ensures Dropped(dist0, d0, dist, d, lo, it + 1)
  {
    KeysOneMore(d0, lo, it);
    assert Blank(dist0, lo, it + 1, -1) == dist;
    assert Blank(d0, lo, it + 1, None) == d;
  }

  /** Dropping whatever a slot holds. */
  lemma DropIfAny<K(!new), V>(dist0: seq<int>, d0: seq<Option<(K, V)>>, dist: seq<int>, d: seq<Option<(K, V)>>, lo: nat, it: nat)
    requires |dist| == |d| && it + 1 < |d|
    requires Dropped(dist0, d0, dist, d, lo, it) && Stored(dist0, d0) && dist0[it] >= -1
    ensures dist[it] >= 0 ==>
              && Dropped(dist0, d0, dist[it := -1], d[it := None], lo, it + 1)
              && |ToMap(d[it := None])| == |ToMap(d)| - 1
    ensures dist[it] < 0 ==> Dropped(dist0, d0, dist, d, lo, it + 1)
  {
    if dist[it] >= 0 {
      DropOneMore(dist0, d0, dist, d, lo, it);
    } else {
      SkipOneMore(dist0, d0, dist, d, lo, it);
    }
  }

  /** What the loop that closes a gap has done when it is at slot `it`. With a gap of v > 0
      slots the table is in order up to it, and the first element of the run has gone to
      slot r; without one every element passed is gone. */
  ghost predicate Closing<K(!new), V>(dist0: seq<int>, d0: seq<Option<(K, V)>>, dist: seq<int>, d: seq<Option<(K, V)>>,
                                      n: nat, most: nat, hash: Hasher<K>, first: nat, it: nat, v: nat, r: int)
    requires it < |dist| == |d|
  {
    && first <= it && |dist| == |dist0| == |d0|
    && (forall k :: it <= k < |dist| ==> dist[k] == dist0[k] && d[k] == d0[k])
    && (forall k :: first <= k < it ==> dist0[k] > 0)
    && if v > 0 then
         && Gap(dist, d, n, most, hash, it, v) && ToMap(d) == ToMap(d0)
         && if it == first then r == first - Min(dist0[first], v)
            else 0 <= r < it - v && d[r] == d0[first]
       else AtRest(dist0, d0, n, most, hash) && Dropped(dist0, d0, dist, d, first, it)
  }

  lemma ClosingShift<K(!new), V>(dist0: seq<int>, d0: seq<Option<(K, V)>>, dist: seq<int>, d: seq<Option<(K, V)>>,
                                 n: nat, most: nat, hash: Hasher<K>, first: nat, it: nat, v: nat, r: int, m: nat)
    requires it < |dist| == |d|
    requires Closing(dist0, d0, dist, d, n, most, hash, first, it, v, r) && dist[it] > 0 && m == Min(dist[it], v) && v > 0
    ensures 0 < m <= it && it + 1 < |dist|
    ensures Closing(dist0, d0, dist[it - m := dist[it] - m][it := -1], d[it - m := d[it]][it := None],
                    n, most, hash, first, it + 1, m, r)
  {
    hide Remainder;
    ShiftGap(dist, d, n, most, hash, it, v, m);
  }

  lemma ClosingLoss<K(!new), V>(dist0: seq<int>, d0: seq<Option<(K, V)>>, dist: seq<int>, d: seq<Option<(K, V)>>,
                                n: nat, most: nat, hash: Hasher<K>, first: nat, it: nat, r: int)
    requires it < |dist| == |d|
    requires Closing(dist0, d0, dist, d, n, most, hash, first, it, 0, r) && dist[it] > 0
    ensures it + 1 < |dist|
    ensures Closing(dist0, d0, dist[it := -1], d[it := None], n, most, hash, first, it + 1, 0, r)
  {
    hide Remainder, ToMap, KeysBetween;
    DropOneMore(dist0, d0, dist, d, first, it);
  }

  /** One round of that loop, whatever the gap. */
  lemma ClosingStep<K(!new), V>(dist0: seq<int>, d0: seq<Option<(K, V)>>, dist: seq<int>, d: seq<Option<(K, V)>>,
                                n: nat, most: nat, hash: Hasher<K>, first: nat, it: nat, v: nat, r: int, m: int)
    requires it < |dist| == |d|
    requires Closing(dist0, d0, dist, d, n, most, hash, first, it, v, r) && dist[it] > 0 && m == Min(dist[it], v)
    ensures 0 <= m <= it && it + 1 < |dist| && (v > 0 <==> m > 0)
    ensures Closing(dist0, d0, dist[it - m := dist[it] - m][it := -1], d[it - m := d[it]][it := None],
                    n, most, hash, first, it + 1, m, r)
  {
    hide Closing;
    if v > 0 {
      ClosingShift(dist0, d0, dist, d, n, most, hash, first, it, v, r, m);
    } else {
      ClosingLoss(dist0, d0, dist, d, n, most, hash, first, it, r);
      assert dist[it := dist[it]][it := -1] == dist[it := -1];
      assert d[it := d[it]][it := None] == d[it := None];
    }
  }

  /** The loop ends at the first element that is not displaced, or the sentinel. */
  lemma ClosingEnds<K(!new), V>(dist0: seq<int>, d0: seq<Option<(K, V)>>, dist: seq<int>, d: seq<Option<(K, V)>>,
                                n: nat, most: nat, hash: Hasher<K>, first: nat, it: nat, v: nat, r: int)
    requires it < |dist| == |d|
    requires Closing(dist0, d0, dist, d, n, most, hash, first, it, v, r) && dist[it] <= 0 && dist0[first] >= 0
    ensures first < |dist0| && dist0[|dist0| - 1] <= 0
    ensures v > 0 ==> AtRest(dist, d, n, most, hash) && ToMap(d) == ToMap(d0) && 0 <= r < |d| && d[r] == d0[first]
    ensures v == 0 ==> Dropped(dist0, d0, dist, d, first, RunEnd(dist0, first))
  {
    hide Remainder;
    if v > 0 {
      CloseGap(dist, d, n, most, hash, it, v);
    } else {
      assert RunEnd(dist0, first) == it;
    }
  }

  /** Having destroyed the elements from lo to hi, the loop can start. */
  lemma ClosingStarts<K(!new), V>(dist0: seq<int>, d0: seq<Option<(K, V)>>, dist: seq<int>, d: seq<Option<(K, V)>>,
                                  n: nat, most: nat, hash: Hasher<K>, lo: nat, hi: nat)
    requires AtRest(dist0, d0, n, most, hash) && lo <= hi < |d0| && Dropped(dist0, d0, dist, d, lo, hi)
    ensures |dist| == |d| == |d0| == |dist0| == n + most && dist[hi] == dist0[hi] && d[hi] == d0[hi]
    ensures dist0[|d0| - 1] == dist[|d0| - 1] == 0
    ensures ToMap(d) == ToMap(d0) - KeysBetween(d0, lo, hi)
    ensures Closing(dist, d, dist, d, n, most, hash, hi, hi, hi - lo, hi - Min(dist[hi], hi - lo))
  {
    hide Remainder;
    if lo < hi {
      BlankGap(dist0, d0, n, most, hash, lo, hi);
    } else {
      assert dist == dist0 && d == d0;
      DropNothing(dist, d, lo);
    }
  }

  lemma NothingDropped<K(!new), V>(dist0: seq<int>, d0: seq<Option<(K, V)>>, dist: seq<int>, d: seq<Option<(K, V)>>, lo: nat)
    requires Dropped(dist0, d0, dist, d, lo, lo)
    ensures dist == dist0 && d == d0 && KeysBetween(d0, lo, lo) == {}
  {
  }

  /** Dropping a stored element makes the map smaller. */
  lemma LossIsReal<K(!new), V>(dist0: seq<int>, d0: seq<Option<(K, V)>>, dist: seq<int>, d: seq<Option<(K, V)>>, lo: nat, hi: nat)
    requires lo < hi && lo < |d0| && d0[lo].Some? && Dropped(dist0, d0, dist, d, lo, hi)
    ensures d0[lo].value.0 !in ToMap(d) && |ToMap(d)| < |ToMap(d0)|
    ensures ToMap(d) == ToMap(d0) - KeysBetween(d0, lo, hi) && ToMap(d0) == ToMap(d0) - KeysBetween(d0, lo, lo)
  {
    hide Blank;
    var k, m := d0[lo].value.0, ToMap(d);
    Lookup(d0, lo);
    assert k in KeysBetween(d0, lo, hi);
    assert m.Keys <= ToMap(d0).Keys - {k};
    assert KeysBetween(d0, lo, lo) == {};
    SubsetSize(m.Keys, ToMap(d0).Keys - {k});
  }

  /** The outcome of erasing the range from lo to hi: what was asked for, but for an empty
      range before a displaced element, where the run of displaced elements is dropped. */
  ghost predicate RangeErased<K(!new), V>(dist0: seq<int>, d0: seq<Option<(K, V)>>, dist: seq<int>, d: seq<Option<(K, V)>>,
                                          n: nat, most: nat, hash: Hasher<K>, lo: nat, hi: nat, r: int) {
    && |d0| == |dist0| > 0 && lo <= hi < |d0| && dist0[|d0| - 1] <= 0
    && if lo < hi || dist0[hi] == 0 then
         && AtRest(dist, d, n, most, hash) && ToMap(d) == ToMap(d0) - KeysBetween(d0, lo, hi)
         && r == hi - Min(dist0[hi], hi - lo) && 0 <= r < |d| && d[r] == d0[hi]
       else Dropped(dist0, d0, dist, d, hi, RunEnd(dist0, hi))
  }

  /** The loop that closes the gap, started behind the destroyed range (dist1, d1) and ended
      with (dist, d), brings the outcome about. */
  lemma RangeErasedAfter<K(!new), V>(dist0: seq<int>, d0: seq<Option<(K, V)>>, dist1: seq<int>, d1: seq<Option<(K, V)>>,
                                     dist: seq<int>, d: seq<Option<(K, V)>>, n: nat, most: nat, hash: Hasher<K>, lo: nat, hi: nat, r: int)
    requires AtRest(dist0, d0, n, most, hash) && lo <= hi < |d0| && dist0[hi] >= 0
    requires Dropped(dist0, d0, dist1, d1, lo, hi) && |dist1| > 0 && dist1[|dist1| - 1] <= 0
    requires lo < hi ==>
               && AtRest(dist, d, n, most, hash) && ToMap(d) == ToMap(d1)
               && 0 <= r < |d| && d[r] == d1[hi]
    requires lo == hi ==> Dropped(dist1, d1, dist, d, hi, RunEnd(dist1, hi))
    requires r == hi - Min(dist1[hi], hi - lo)
    ensures RangeErased(dist0, d0, dist, d, n, most, hash, lo, hi, r)
  {
    hide Remainder;
    if lo == hi {
      NothingDropped(dist0, d0, dist1, d1, lo);
      if dist0[hi] == 0 {
        NothingDropped(dist1, d1, dist, d, hi);
      }
    }
  }

  lemma DisplacedIsStored<K(!new), V>(dist: seq<int>, d: seq<Option<(K, V)>>, n: nat, most: nat, hash: Hasher<K>, i: nat)
    requires AtRest(dist, d, n, most, hash) && i < |dist| == |d| && dist[i] > 0
    ensures d[i].Some? && dist[|dist| - 1] <= 0
  {
  }

  /** What a range that is not empty, or stands before an element in its home, comes to. */
  lemma RangeKept<K(!new), V>(dist0: seq<int>, d0: seq<Option<(K, V)>>, dist: seq<int>, d: seq<Option<(K, V)>>,
                              n: nat, most: nat, hash: Hasher<K>, lo: nat, hi: nat, r: int)
    requires RangeErased(dist0, d0, dist, d, n, most, hash, lo, hi, r) && (lo < hi || dist0[hi] == 0)
    ensures AtRest(dist, d, n, most, hash) && ToMap(d) == ToMap(d0) - KeysBetween(d0, lo, hi)
    ensures r == hi - Min(dist0[hi], hi - lo) && 0 <= r < |d| && d[r] == d0[hi]
  {
    hide AtRest, Dropped, KeysBetween, ToMap, RunEnd;
  }

  /** What an empty range before a displaced element comes to. */
  lemma RangeLost<K(!new), V>(dist0: seq<int>, d0: seq<Option<(K, V)>>, dist: seq<int>, d: seq<Option<(K, V)>>,
                              n: nat, most: nat, hash: Hasher<K>, hi: nat, r: int)
    requires AtRest(dist0, d0, n, most, hash)
    requires RangeErased(dist0, d0, dist, d, n, most, hash, hi, hi, r) && dist0[hi] > 0
    ensures d0[hi].Some? && d0[hi].value.0 !in ToMap(d)
    ensures |ToMap(d)| < |ToMap(d0) - KeysBetween(d0, hi, hi)|
    ensures ToMap(d) == ToMap(d0) - KeysBetween(d0, hi, RunEnd(dist0, hi))
  {
    hide AtRest, Dropped, KeysBetween, ToMap;
    DisplacedIsStored(dist0, d0, n, most, hash, hi);
    LossIsReal(dist0, d0, dist, d, hi, RunEnd(dist0, hi));
  }

  const CROWDED_DIST: seq<int> := [0, 1, -1, -1, -1, -1, -1, 0]
  const CROWDED_DATA: seq<Option<(nat, nat)>> := [Some((0, 10)), Some((4, 14)), None, None, None, None, None, None]
  const IDENTITY: Hasher<nat> := Hasher((k: nat) => k)

  lemma CrowdedAtRest()
    ensures AtRest(CROWDED_DIST, CROWDED_DATA, 4, 4, IDENTITY)
  {
    assert Remainder(4, 4) == Remainder(0, 4) == 0;
    hide Remainder;
    assert InOrder(CROWDED_DIST, 4, 4);
  }

  lemma CrowdedHolds()
    ensures ToMap(CROWDED_DATA) == map[0 := 10, 4 := 14]
  {
    hide ToMap;
    assert CROWDED_DATA[0] == Some((0, 10)) && CROWDED_DATA[1] == Some((4, 14));
    Characterize(CROWDED_DATA, map[0 := 10, 4 := 14]);
  }

  /** The failing case occurs: 0 and 4 share the first of four slots, and erasing the empty range
      before the displaced 4 loses it. */
  lemma EmptyRangeExample(dist: seq<int>, d: seq<Option<(nat, nat)>>, r: int)
    requires RangeErased(CROWDED_DIST, CROWDED_DATA, dist, d, 4, 4, IDENTITY, 1, 1, r)
    ensures AtRest(CROWDED_DIST, CROWDED_DATA, 4, 4, IDENTITY)
    ensures ToMap(CROWDED_DATA) == map[0 := 10, 4 := 14] && ToMap(d) == map[0 := 10]
  {
    CrowdedAtRest();
    CrowdedHolds();
    hide ToMap, AtRest;
    assert RunEnd(CROWDED_DIST, 1) == 2;
    assert KeysBetween(CROWDED_DATA, 1, 2) == {4} by {
      assert CROWDED_DATA[1].value.0 == 4;
    }
  }

  lemma StoredDistinct<K(!new), V>(dist: seq<int>, d: seq<Option<(K, V)>>)
    requires Stored(dist, d)
    ensures |dist| == |d| && DistinctKeys(d)
  {
  }

  /** What a table at rest says of its slots, without the order. */
  lemma RestStores<K(!new), V>(dist: seq<int>, d: seq<Option<(K, V)>>, n: nat, most: nat, hash: Hasher<K>)
    requires AtRest(dist, d, n, most, hash)
    ensures Stored(dist, d) && |dist| == n + most && dist[|dist| - 1] == 0
    ensures forall i :: 0 <= i < |dist| ==> dist[i] >= -1
    ensures forall i :: 0 <= i < |dist| ==> (d[i].Some? <==> i < |dist| - 1 && dist[i] >= 0)
  {
    hide Remainder;
  }

  /** A table without elements. */
  lemma EmptyAtRest<K(!new), V>(dist: seq<int>, d: seq<Option<(K, V)>>, n: nat, most: nat, hash: Hasher<K>)
    requires n > 0 && most > 0 && |dist| == |d| == n + most
    requires forall i :: 0 <= i < |dist| ==> dist[i] == (if i == |dist| - 1 then 0 else -1) && d[i].None?
    ensures AtRest(dist, d, n, most, hash) && ToMap(d) == map[]
  {
    Vacant(d);
  }
}
