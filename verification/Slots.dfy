/** What an array of optional key/value pairs means: the finite map it holds.
    Both hash tables keep their elements in such an array; every proof about a
    table's contents goes through the lemmas of this module. */
module Slots {

  datatype Option<+T> = None | Some(value: T)

  /** The outcome of an operation that may have to allocate: the slot that holds
      the key and whether it was added now, or the allocator's refusal. */
  datatype Placement = Placed(slot: nat, inserted: bool) | OutOfMemory

  /** No key is stored twice. */
  ghost predicate DistinctKeys<K, V>(s: seq<Option<(K, V)>>) {
    forall i, j :: 0 <= i < j < |s| && s[i].Some? && s[j].Some? ==> s[i].value.0 != s[j].value.0
  }

  /** The map held by the slots. */
  ghost function ToMap<K, V>(s: seq<Option<(K, V)>>): map<K, V> {
    if s == [] then map[]
    else
      var m := ToMap(s[..|s| - 1]);
      match s[|s| - 1]
      case None => m
      case Some(e) => m[e.0 := e.1]
  }

  /** The number of slots in use. */
  ghost function Count<K, V>(s: seq<Option<(K, V)>>): nat {
    if s == [] then 0
    else Count(s[..|s| - 1]) + if s[|s| - 1].Some? then 1 else 0
  }

  /** The keys stored in the slots from lo up to but excluding hi. */
  ghost function KeysBetween<K, V>(s: seq<Option<(K, V)>>, lo: int, hi: int): set<K> {
    set i | 0 <= i < |s| && lo <= i < hi && s[i].Some? :: s[i].value.0
  }

  /** Insertion that keeps a value already present. */
  ghost function AddIfAbsent<K, V>(m: map<K, V>, k: K, v: V): map<K, V> {
    if k in m then m else m[k := v]
  }

  /** The operations of a table's interface that change it. Positions are slots: DropAt erases
      one element, DropRange those of the slots from lo up to but excluding hi. */
  datatype Op<K, V> =
    | Put(key: K, value: V)
    | Drop(key: K)
    | DropAt(slot: nat)
    | DropRange(lo: nat, hi: nat)
    | Wipe
    | Resize(size: nat)

  /** What an operation means for a map that is kept in these slots. */
  ghost function Apply<K, V>(s: seq<Option<(K, V)>>, op: Op<K, V>): map<K, V> {
    match op
    case Put(k, v) => AddIfAbsent(ToMap(s), k, v)
    case Drop(k) => ToMap(s) - {k}
    case DropAt(i) => ToMap(s) - KeysBetween(s, i, i + 1)
    case DropRange(lo, hi) => ToMap(s) - KeysBetween(s, lo, hi)
    case Wipe => map[]
    case Resize(_) => ToMap(s)
  }

  /** The slots before the first operation and after each: every one of them keeps what its
      operation makes of the map before. */
  ghost predicate IsHistory<K, V>(h: seq<seq<Option<(K, V)>>>, ops: seq<Op<K, V>>) {
    && |h| == |ops| + 1
    && forall i :: 0 <= i < |ops| ==> ToMap(h[i + 1]) == Apply(h[i], ops[i])
  }

  lemma HistoryGrows<K, V>(h: seq<seq<Option<(K, V)>>>, ops: seq<Op<K, V>>, op: Op<K, V>, s: seq<Option<(K, V)>>)
    requires IsHistory(h, ops) && ToMap(s) == Apply(h[|ops|], op)
    ensures IsHistory(h + [s], ops + [op])
  {
    var h', ops' := h + [s], ops + [op];
    forall i | 0 <= i < |ops'| ensures ToMap(h'[i + 1]) == Apply(h'[i], ops'[i]) {
      if i < |ops| {
        assert h'[i + 1] == h[i + 1] && h'[i] == h[i];
      }
    }
  }

  ghost predicate ByPosition<K, V>(op: Op<K, V>) {
    op.DropAt? || op.DropRange?
  }

  /** What operations by key mean, wherever the elements are kept. */
  ghost function ApplyAll<K, V>(m: map<K, V>, ops: seq<Op<K, V>>): map<K, V> {
    if ops == [] then m
    else
      var m' := ApplyAll(m, ops[..|ops| - 1]);
      match ops[|ops| - 1]
      case Put(k, v) => AddIfAbsent(m', k, v)
      case Drop(k) => m' - {k}
      case Wipe => map[]
      case _ => m'
  }

  /** For operations by key the history does not matter. */
  lemma {:induction false} HistoryByKey<K, V>(h: seq<seq<Option<(K, V)>>>, ops: seq<Op<K, V>>)
    requires IsHistory(h, ops) && forall op :: op in ops ==> !ByPosition(op)
    ensures ToMap(h[|ops|]) == ApplyAll(ToMap(h[0]), ops)
  {
    if ops != [] {
      var n := |ops| - 1;
      assert ops[n] in ops;
      forall op | op in ops[..n] ensures !ByPosition(op) {
        assert op in ops;
      }
      HistoryByKey(h[..n + 1], ops[..n]);
    }
  }

  /** The keys of a layout, without their values. */
  ghost function Bare<K, V>(s: seq<Option<(K, V)>>): (r: seq<Option<(K, ())>>)
    ensures |r| == |s|
    ensures forall i :: 0 <= i < |s| ==> r[i] == if s[i].Some? then Some((s[i].value.0, ())) else None
  {
    seq(|s|, i requires 0 <= i < |s| => if s[i].Some? then Some((s[i].value.0, ())) else None)
  }

  lemma BareKeys<K, V>(s: seq<Option<(K, V)>>)
    requires DistinctKeys(s)
    ensures DistinctKeys(Bare(s)) && ToMap(Bare(s)).Keys == ToMap(s).Keys
  {
    var r := Bare(s);
    forall k | k in ToMap(s) ensures k in ToMap(r) {
      var i := Origin(s, k);
      Lookup(r, i);
    }
    forall k | k in ToMap(r) ensures k in ToMap(s) {
      var i := Origin(r, k);
      Lookup(s, i);
    }
  }

  lemma {:induction false} PrefixKeys<K, V>(s: seq<Option<(K, V)>>, i: nat)
    requires i <= |s|
    ensures ToMap(s[..i]).Keys <= ToMap(s).Keys
  {
    if i < |s| {
      assert s[..|s| - 1][..i] == s[..i];
      PrefixKeys(s[..|s| - 1], i);
    } else {
      assert s[..i] == s;
    }
  }

  lemma {:induction false} SubsetSize<T>(a: set<T>, b: set<T>)
    requires a <= b
    ensures |a| <= |b|
  {
    if a != {} {
      var x :| x in a;
      SubsetSize(a - {x}, b - {x});
    }
  }

  lemma ProperSize<T>(a: set<T>, b: set<T>, x: T)
    requires a <= b && x in b && x !in a
    ensures |a| < |b|
  {
    SubsetSize(a, b - {x});
  }

  /** So many slots in use hold so many keys. */
  lemma {:induction false} SlotsHold<K, V>(s: seq<Option<(K, V)>>, used: set<int>, n: nat)
    requires DistinctKeys(s) && n <= |s| && forall i :: i in used ==> 0 <= i < n && s[i].Some?
    ensures |used| <= |ToMap(s)|
    decreases n
  {
    if n > 0 {
      if n - 1 in used {
        Remove(s, n - 1);
        SlotsHold(s[n - 1 := None], used - {n - 1}, n - 1);
      } else {
        SlotsHold(s, used, n - 1);
      }
    } else {
      assert forall i :: i !in used;
    }
  }

  lemma LastIsNone<K, V>(s: seq<Option<(K, V)>>)
    requires s != [] && s[|s| - 1].None?
    ensures ToMap(s[..|s| - 1]) == ToMap(s)
  {
  }

  lemma KeysOfOne<K, V>(s: seq<Option<(K, V)>>, i: nat)
    requires i < |s| && s[i].Some?
    ensures KeysBetween(s, i, i + 1) == {s[i].value.0}
  {
    KeysOneMore(s, i, i);
    assert KeysBetween(s, i, i) == {};
  }

  lemma {:induction false} Lookup<K, V>(s: seq<Option<(K, V)>>, i: nat)
    requires DistinctKeys(s) && i < |s| && s[i].Some?
    ensures s[i].value.0 in ToMap(s) && ToMap(s)[s[i].value.0] == s[i].value.1
  {
    if i < |s| - 1 {
      Lookup(s[..|s| - 1], i);
    }
  }

  lemma {:induction false} Origin<K, V>(s: seq<Option<(K, V)>>, k: K) returns (i: nat)
    requires k in ToMap(s)
    ensures i < |s| && s[i] == Some((k, ToMap(s)[k]))
  {
    var last := |s| - 1;
    if s[last].Some? && s[last].value.0 == k {
      i := last;
    } else {
      i := Origin(s[..last], k);
    }
  }

  /** A map that agrees with the slots in both directions is the map they hold. */
  lemma Characterize<K, V>(s: seq<Option<(K, V)>>, m: map<K, V>)
    requires DistinctKeys(s)
    requires forall i :: 0 <= i < |s| && s[i].Some? ==> s[i].value.0 in m && m[s[i].value.0] == s[i].value.1
    requires forall k :: k in m ==> Some((k, m[k])) in s
    ensures ToMap(s) == m
  {
    forall k | k in ToMap(s) ensures k in m && m[k] == ToMap(s)[k] {
      var i := Origin(s, k);
    }
    forall k | k in m ensures k in ToMap(s) {
      var i :| 0 <= i < |s| && s[i] == Some((k, m[k]));
      Lookup(s, i);
    }
  }

  /** Filling an unused slot with a new key adds exactly that key. */
  lemma Insert<K, V>(s: seq<Option<(K, V)>>, i: nat, k: K, v: V)
    requires DistinctKeys(s) && i < |s| && s[i].None? && k !in ToMap(s)
    ensures DistinctKeys(s[i := Some((k, v))])
    ensures ToMap(s[i := Some((k, v))]) == ToMap(s)[k := v]
    ensures |ToMap(s[i := Some((k, v))])| == |ToMap(s)| + 1
  {
    var s', m := s[i := Some((k, v))], ToMap(s);
    var m' := m[k := v];
    forall j | 0 <= j < |s| && s[j].Some?
      ensures s[j].value.0 in m && m[s[j].value.0] == s[j].value.1
    {
      Lookup(s, j);
    }
    forall x | x in m' ensures Some((x, m'[x])) in s' {
      if x == k {
        assert s'[i] == Some((k, v));
      } else {
        var j := Origin(s, x);
        assert s'[j] == s[j];
      }
    }
    Characterize(s', m');
    assert m == m' - {k};
  }

  /** Emptying a slot removes exactly its key. */
  lemma Remove<K, V>(s: seq<Option<(K, V)>>, i: nat)
    requires DistinctKeys(s) && i < |s| && s[i].Some?
    ensures DistinctKeys(s[i := None])
    ensures s[i].value.0 in ToMap(s)
    ensures ToMap(s[i := None]) == ToMap(s) - {s[i].value.0}
    ensures |ToMap(s[i := None])| == |ToMap(s)| - 1
  {
    var s', m, k := s[i := None], ToMap(s), s[i].value.0;
    Lookup(s, i);
    forall j | 0 <= j < |s| && s[j].Some?
      ensures s[j].value.0 in m && m[s[j].value.0] == s[j].value.1
    {
      Lookup(s, j);
    }
    var m' := m - {k};
    forall x | x in m' ensures Some((x, m'[x])) in s' {
      var j := Origin(s, x);
      assert s'[j] == s[j];
    }
    Characterize(s', m');
    assert m == m'[k := m[k]];
  }

  /** Moving an element to an unused slot changes nothing in the map. */
  lemma Move<K, V>(s: seq<Option<(K, V)>>, from: nat, to: nat)
    requires DistinctKeys(s) && from < |s| && to < |s| && s[from].Some? && s[to].None?
    ensures DistinctKeys(s[to := s[from]][from := None])
    ensures ToMap(s[to := s[from]][from := None]) == ToMap(s)
  {
    var k, v := s[from].value.0, s[from].value.1;
    Lookup(s, from);
    Remove(s, from);
    Insert(s[from := None], to, k, v);
    assert s[to := s[from]][from := None] == s[from := None][to := Some((k, v))];
    assert (ToMap(s) - {k})[k := v] == ToMap(s);
  }

  /** The slots in use are as many as the keys held. */
  lemma {:induction false} CountIsSize<K, V>(s: seq<Option<(K, V)>>)
    requires DistinctKeys(s)
    ensures Count(s) == |ToMap(s)|
  {
    if s != [] {
      var last := |s| - 1;
      CountIsSize(s[..last]);
      if s[last].Some? {
        var k := s[last].value.0;
        if k in ToMap(s[..last]) {
          var i := Origin(s[..last], k);
          assert false;
        }
      }
    }
  }

  /** Taking out one key after others is taking them out together. */
  lemma MinusOneMore<K, V>(m: map<K, V>, ks: set<K>, k: K)
    ensures (m - ks) - {k} == m - (ks + {k})
  {
  }

  /** The keys of a range with one more slot. */
  lemma KeysOneMore<K, V>(s: seq<Option<(K, V)>>, lo: nat, hi: nat)
    requires lo <= hi < |s|
    ensures KeysBetween(s, lo, hi + 1) ==
            KeysBetween(s, lo, hi) + (if s[hi].Some? then {s[hi].value.0} else {})
  {
    forall x | x in KeysBetween(s, lo, hi) ensures x in KeysBetween(s, lo, hi + 1) {
      var i :| 0 <= i < |s| && lo <= i < hi && s[i].Some? && s[i].value.0 == x;
    }
  }

  /** Slots without an element hold the empty map. */
  lemma {:induction false} Vacant<K, V>(s: seq<Option<(K, V)>>)
    requires forall i :: 0 <= i < |s| ==> s[i].None?
    ensures ToMap(s) == map[]
  {
    if s != [] {
      Vacant(s[..|s| - 1]);
    }
  }
}
