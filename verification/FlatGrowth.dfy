/** When an insertion into the flat table has to make the table larger: a condition on the
    distances before it. */
module FlatGrowth {
  import opened Naturals
  import opened Slots
  import opened HashPolicy
  import opened FlatProbe

  /** How far from its home the walk for a new key stops. */
  ghost function ProbeEnd(dist: seq<int>, home: nat, from: nat): nat
    decreases |dist| - home - from
  {
    if home + from >= |dist| || dist[home + from] < from then from else ProbeEnd(dist, home, from + 1)
  }

  /** It stops at the first slot that is closer to its own home than the probe. */
  lemma {:induction false} ProbeEndIsFirst(dist: seq<int>, home: nat, from: nat, distance: nat)
    requires from <= distance && home + distance < |dist|
    ensures ProbeEnd(dist, home, from) == distance <==>
            dist[home + distance] < distance
            && forall j :: home + from <= j < home + distance ==> dist[j] >= j - home
    decreases distance - from
  {
    if dist[home + from] >= from {
      if from < distance {
        ProbeEndIsFirst(dist, home, from + 1, distance);
      } else {
        ProbeEndBeyond(dist, home, from + 1);
      }
    } else if from < distance {
      assert dist[home + from] < from;
    }
  }

  lemma {:induction false} ProbeEndBeyond(dist: seq<int>, home: nat, from: nat)
    ensures ProbeEnd(dist, home, from) >= from
    decreases |dist| - home - from
  {
    if !(home + from >= |dist| || dist[home + from] < from) {
      ProbeEndBeyond(dist, home, from + 1);
    }
  }

  /** Displacing the element of slot `result` pushes some element too far: in the run of occupied
      slots behind it there is one whose distance is already the largest allowed. */
  ghost predicate Overflows(dist: seq<int>, most: nat, result: nat) {
    exists k :: result < k < |dist| && dist[k] == most - 1 && forall j :: result <= j <= k ==> dist[j] >= 0
  }

  /** A new key of this home does not fit: the table has one slot, the walk for the key is as long
      as allowed, one more element exceeds the maximal load, or an element would be pushed too far. */
  ghost predicate GrowthNeeded(dist: seq<int>, n: nat, most: nat, home: nat, count: nat, loadNum: nat, loadDen: nat) {
    var distance := ProbeEnd(dist, home, 0);
    n == 1 || distance == most || (count + 1) * loadDen > n * loadNum || Overflows(dist, most, home + distance)
  }

  /** The bound on lookups that belongs to a number of slots. */
  ghost predicate LookupsFit(n: nat, most: nat) {
    n > 0 && (if n == 1 && most == 3 then true else most == Max(4, FloorLog2(n)))
  }

  // ----- the displacement loop against the distances at its start

  /** The loop, started at slot `result` of s0, carries an element to slot cur, c slots from its
      home: one more than the old distance of the slot before. */
  ghost predicate Displacing(s0: seq<int>, s: seq<int>, n: nat, most: nat, result: nat, cur: nat, c: nat) {
    && InOrder(s0, n, most) && |s| == |s0|
    && result < cur < |s0| && c == s0[cur - 1] + 1 && c < most
    && (forall j :: cur <= j < |s0| ==> s[j] == s0[j])
    && (forall j :: result <= j < cur ==> 0 <= s0[j] < most - 1)
  }

  lemma DisplacingStarts(s0: seq<int>, n: nat, most: nat, result: nat, distance: nat)
    requires InOrder(s0, n, most) && result < |s0| - 1 && 0 <= s0[result] < distance < most
    ensures Displacing(s0, s0[result := distance], n, most, result, result + 1, s0[result] + 1)
  {
  }

  /** The loop goes on, by a swap or past an element; the carried distance follows the old ones. */
  lemma DisplacingOn(s0: seq<int>, s: seq<int>, n: nat, most: nat, result: nat, cur: nat, c: nat)
    requires Displacing(s0, s, n, most, result, cur, c) && 0 <= s[cur] && cur + 1 < |s|
    ensures s[cur] <= c && (s[cur] < most - 1 ==> Displacing(s0, s, n, most, result, cur + 1, s[cur] + 1))
    ensures s[cur] < most - 1 ==> Displacing(s0, s[cur := c], n, most, result, cur + 1, s[cur] + 1)
  {
  }

  lemma DisplacingFails(s0: seq<int>, s: seq<int>, n: nat, most: nat, result: nat, cur: nat, c: nat)
    requires Displacing(s0, s, n, most, result, cur, c) && s[cur] == most - 1
    ensures Overflows(s0, most, result)
  {
  }

  lemma DisplacingEnds(s0: seq<int>, s: seq<int>, n: nat, most: nat, result: nat, cur: nat, c: nat)
    requires Displacing(s0, s, n, most, result, cur, c) && s[cur] < 0
    ensures !Overflows(s0, most, result)
  {
    assert s0[cur] < 0;
  }

  /** An empty slot displaces nothing. */
  lemma EmptyNeverOverflows(dist: seq<int>, most: nat, result: nat)
    requires result < |dist| && dist[result] < 0
    ensures !Overflows(dist, most, result)
  {
  }

  // ----- tables of a given size that are too crowded

  /** Some table of n slots at rest, with exactly these keys, has no room for key k. */
  ghost predicate CrowdedBy<K(!new)>(hash: Hasher<K>, loadNum: nat, loadDen: nat, n: nat, ks: set<K>, k: K) {
    exists dist: seq<int>, d: seq<Option<(K, ())>>, most: nat ::
      && AtRest(dist, d, n, most, hash) && LookupsFit(n, most) && ToMap(d).Keys == ks
      && GrowthNeeded(dist, n, most, Remainder(hash.Of(k), n), |ks|, loadNum, loadDen)
  }

  /** Of these keys, ks fill a table of n slots so that k has no room. */
  ghost predicate CrowdOut<K(!new)>(hash: Hasher<K>, loadNum: nat, loadDen: nat, n: nat, all: set<K>, ks: set<K>, k: K) {
    ks <= all && k in all && k !in ks && CrowdedBy(hash, loadNum, loadDen, n, ks, k)
  }

  /** Some of the keys crowd a table of n slots, so that another of them has no room. */
  ghost predicate Crowding<K(!new)>(hash: Hasher<K>, loadNum: nat, loadDen: nat, n: nat, all: set<K>) {
    exists ks: set<K>, k: K :: CrowdOut(hash, loadNum, loadDen, n, all, ks, k)
  }

  lemma CrowdedFrom<K(!new), V>(dist: seq<int>, d: seq<Option<(K, V)>>, n: nat, most: nat, hash: Hasher<K>,
                                loadNum: nat, loadDen: nat, k: K, all: set<K>)
    requires AtRest(dist, d, n, most, hash) && LookupsFit(n, most)
    requires GrowthNeeded(dist, n, most, Remainder(hash.Of(k), n), |ToMap(d)|, loadNum, loadDen)
    requires ToMap(d).Keys <= all && k in all && k !in ToMap(d)
    ensures Crowding(hash, loadNum, loadDen, n, all)
  {
    BareAtRest(dist, d, n, most, hash);
    hide ToMap, Remainder, AtRest, GrowthNeeded, LookupsFit;
    assert |ToMap(d).Keys| == |ToMap(d)|;
    assert CrowdedBy(hash, loadNum, loadDen, n, ToMap(d).Keys, k);
    assert CrowdOut(hash, loadNum, loadDen, n, all, ToMap(d).Keys, k);
  }

  lemma BareAtRest<K(!new), V>(dist: seq<int>, d: seq<Option<(K, V)>>, n: nat, most: nat, hash: Hasher<K>)
    requires AtRest(dist, d, n, most, hash)
    ensures AtRest(dist, Bare(d), n, most, hash) && ToMap(Bare(d)).Keys == ToMap(d).Keys
  {
    BareKeys(d);
    hide ToMap, Remainder, InOrder, DistinctKeys;
  }

  lemma CrowdingGrows<K(!new)>(hash: Hasher<K>, loadNum: nat, loadDen: nat, n: nat, some: set<K>, all: set<K>)
    requires Crowding(hash, loadNum, loadDen, n, some) && some <= all
    ensures Crowding(hash, loadNum, loadDen, n, all)
  {
    var ks: set<K>, k: K :| CrowdOut(hash, loadNum, loadDen, n, some, ks, k);
    assert CrowdOut(hash, loadNum, loadDen, n, all, ks, k);
  }

  /** The slots of a run of m. */
  ghost function Run(first: int, m: nat): set<int> {
    if m == 0 then {} else Run(first, m - 1) + {first + m - 1}
  }

  lemma {:induction false} RunSize(first: int, m: nat)
    ensures |Run(first, m)| == m && forall i :: i in Run(first, m) <==> first <= i < first + m
  {
    if m > 0 {
      RunSize(first, m - 1);
    }
  }

  /** A key that does not fit for its distance, or for that of an element it pushes on, meets as
      many elements as lookups are allowed. */
  lemma FarMeansMany<K(!new), V>(dist: seq<int>, d: seq<Option<(K, V)>>, n: nat, most: nat, hash: Hasher<K>, home: nat)
    requires AtRest(dist, d, n, most, hash) && home < n
    requires ProbeEnd(dist, home, 0) == most || Overflows(dist, most, home + ProbeEnd(dist, home, 0))
    ensures most <= |ToMap(d)|
  {
    hide ToMap, Remainder;
    var distance := ProbeEnd(dist, home, 0);
    var first: nat;
    if distance == most {
      first := home;
      ProbeEndIsFirst(dist, home, 0, most);
    } else {
      var k :| home + distance < k < |dist| && dist[k] == most - 1 && forall j :: home + distance <= j <= k ==> dist[j] >= 0;
      GrowsSlowly(dist, n, most, 0, k);
      first := k - (most - 1);
      forall j | first <= j < first + most ensures dist[j] >= 0 {
        GrowsSlowly(dist, n, most, j, k);
      }
    }
    RunSize(first, most);
    SlotsHold(d, Run(first, most), |d|);
  }

  lemma FewHaveRoom<K(!new)>(dist: seq<int>, d: seq<Option<(K, ())>>, n: nat, most: nat, hash: Hasher<K>, home: nat,
                             loadNum: nat, loadDen: nat)
    requires AtRest(dist, d, n, most, hash) && home < n && n > 1
    requires |ToMap(d)| < most && (|ToMap(d)| + 1) * loadDen <= n * loadNum
    ensures !GrowthNeeded(dist, n, most, home, |ToMap(d)|, loadNum, loadDen)
  {
    hide ToMap, AtRest, Overflows, ProbeEnd;
    if ProbeEnd(dist, home, 0) == most || Overflows(dist, most, home + ProbeEnd(dist, home, 0)) {
      FarMeansMany(dist, d, n, most, hash, home);
      assert false;
    }
  }

  lemma LoadGrows(a: nat, b: nat, loadNum: nat, loadDen: nat, n: nat)
    requires a <= b && b * loadDen <= n * loadNum
    ensures a * loadDen <= n * loadNum
  {
    Monotone(a, b, loadDen);
  }

  /** As many keys as there are lookups never crowd a table whose load they keep, whatever the
      hash function: such a table takes them all in without growing. */
  lemma FewKeysFit<K(!new)>(hash: Hasher<K>, loadNum: nat, loadDen: nat, n: nat, all: set<K>)
    requires n > 1 && |all| <= Max(4, FloorLog2(n)) && |all| * loadDen <= n * loadNum
    ensures !Crowding(hash, loadNum, loadDen, n, all)
  {
    hide AtRest, GrowthNeeded, ToMap, Remainder, FloorLog2, Max;
    if Crowding(hash, loadNum, loadDen, n, all) {
      var ks: set<K>, k: K :| CrowdOut(hash, loadNum, loadDen, n, all, ks, k);
      var dist: seq<int>, d: seq<Option<(K, ())>>, most: nat :|
        && AtRest(dist, d, n, most, hash) && LookupsFit(n, most) && ToMap(d).Keys == ks
        && GrowthNeeded(dist, n, most, Remainder(hash.Of(k), n), |ks|, loadNum, loadDen);
      ProperSize(ks, all, k);
      LoadGrows(|ks| + 1, |all|, loadNum, loadDen, n);
      assert |ToMap(d)| == |ToMap(d).Keys|;
      FewHaveRoom(dist, d, n, most, hash, Remainder(hash.Of(k), n), loadNum, loadDen);
      assert false;
    }
  }

  /** A single key, in particular. */
  lemma FirstKeyFits<K(!new)>(hash: Hasher<K>, loadNum: nat, loadDen: nat, n: nat, k: K)
    requires n > 1 && loadDen <= n * loadNum
    ensures !Crowding(hash, loadNum, loadDen, n, {k})
  {
    FewKeysFit(hash, loadNum, loadDen, n, {k});
  }
}
