/**
 * A Ruby `Hash` as the list of its entries in insertion order. Ruby hashes
 * remember insertion order, and `Hash#key` answers with the FIRST entry that
 * holds a value, so the order is part of the behaviour modelled here.
 */
module RubyHash {
  import opened Wrappers

  type Hash<K, V> = seq<(K, V)>

  /** `h.keys`: the keys in insertion order. */
  function Keys<K, V>(h: Hash<K, V>): (ks: seq<K>)
    ensures |ks| == |h|
    ensures forall i :: 0 <= i < |h| ==> ks[i] == h[i].0
  {
    seq(|h|, i requires 0 <= i < |h| => h[i].0)
  }

  /** `h.values`: the values in insertion order. */
  function Values<K, V>(h: Hash<K, V>): (vs: seq<V>)
    ensures |vs| == |h|
    ensures forall i :: 0 <= i < |h| ==> vs[i] == h[i].1
  {
    seq(|h|, i requires 0 <= i < |h| => h[i].1)
  }

  /** `h.key?(k)`, the same as `h.keys.include?(k)` (`KeysMember`). */
  predicate HasKey<K(==), V>(h: Hash<K, V>, k: K) {
    exists i :: 0 <= i < |h| && h[i].0 == k
  }

  /** `h.value?(v)`, the same as `h.values.include?(v)` (`ValuesMember`). */
  predicate HasValue<K, V(==)>(h: Hash<K, V>, v: V) {
    exists i :: 0 <= i < |h| && h[i].1 == v
  }

  /** `h.keys.include?(k)` is `h.key?(k)`. */
  lemma KeysMember<K, V>(h: Hash<K, V>, k: K)
    ensures k in Keys(h) <==> HasKey(h, k)
  {
  }

  /** `h.values.include?(v)` is `h.value?(v)`. */
  lemma ValuesMember<K, V>(h: Hash<K, V>, v: V)
    ensures v in Values(h) <==> HasValue(h, v)
  {
  }

  /** No key occurs twice (every Ruby hash has this property). */
  ghost predicate UniqueKeys<K, V>(h: Hash<K, V>) {
    forall i, j :: 0 <= i < j < |h| ==> h[i].0 != h[j].0
  }

  /** No value occurs twice: the hash is a bijection onto its values. */
  ghost predicate UniqueValues<K, V>(h: Hash<K, V>) {
    forall i, j :: 0 <= i < j < |h| ==> h[i].1 != h[j].1
  }

  /** `h[k]`: the value stored under `k`, `nil` when `k` is absent. */
  function Get<K(==), V(==)>(h: Hash<K, V>, k: K): (r: Option<V>)
    ensures r.Some? <==> HasKey(h, k)
    ensures r.Some? ==> (k, r.value) in h
  {
    if h == [] then None
    else if h[0].0 == k then Some(h[0].1)
    else Get(h[1..], k)
  }

  /** `h.key(v)`: the key of the first entry holding `v` (`KeyOfFirst`), `nil`
      when none does. */
  function KeyOf<K(==), V(==)>(h: Hash<K, V>, v: V): (r: Option<K>)
    ensures r.Some? <==> HasValue(h, v)
    ensures r.Some? ==> (r.value, v) in h
  {
    if h == [] then None
    else if h[0].1 == v then Some(h[0].0)
    else KeyOf(h[1..], v)
  }

  /** `h.key(v)` answers with the first entry that holds `v`: no entry before
      it holds `v`. */
  lemma {:induction false} KeyOfFirst<K, V>(h: Hash<K, V>, v: V)
    requires HasValue(h, v)
    ensures exists i :: 0 <= i < |h| && h[i] == (KeyOf(h, v).value, v) && !HasValue(h[..i], v)
  {
    if h[0].1 == v {
      assert h[0] == (KeyOf(h, v).value, v) && !HasValue(h[..0], v);
    } else {
      HasValueCons(h[0], h[1..], v);
      assert h == [h[0]] + h[1..];
      KeyOfFirst(h[1..], v);
      var i :| 0 <= i < |h[1..]| && h[1..][i] == (KeyOf(h[1..], v).value, v) && !HasValue(h[1..][..i], v);
      assert h[i + 1] == (KeyOf(h, v).value, v);
      assert h[..i + 1] == [h[0]] + h[1..][..i];
      HasValueCons(h[0], h[1..][..i], v);
    }
  }

  /** A value is in a hash with one more entry in front exactly when that entry
      or the rest holds it. */
  lemma HasValueCons<K, V>(e: (K, V), h: Hash<K, V>, v: V)
    ensures HasValue([e] + h, v) <==> e.1 == v || HasValue(h, v)
  {
    if HasValue([e] + h, v) {
      var i :| 0 <= i < |[e] + h| && ([e] + h)[i].1 == v;
      if i > 0 {
        assert h[i - 1].1 == v;
      }
    }
    if e.1 == v {
      assert ([e] + h)[0].1 == v;
    }
    if HasValue(h, v) {
      var i :| 0 <= i < |h| && h[i].1 == v;
      assert ([e] + h)[i + 1].1 == v;
    }
  }

  /** `a.merge(b)`: the entries of `a` in order, each taking `b`'s value when
      `b` has its key, followed by the entries of `b` whose key `a` lacks. */
  function Merge<K(==), V(==)>(a: Hash<K, V>, b: Hash<K, V>): Hash<K, V> {
    Override(a, b) + Added(a, b)
  }

  function Override<K(==), V(==)>(a: Hash<K, V>, b: Hash<K, V>): (r: Hash<K, V>)
    ensures |r| == |a| && forall i :: 0 <= i < |a| ==> r[i].0 == a[i].0
  {
    if a == [] then []
    else [(a[0].0, Get(b, a[0].0).GetOr(a[0].1))] + Override(a[1..], b)
  }

  function Added<K(==), V(==)>(a: Hash<K, V>, b: Hash<K, V>): Hash<K, V> {
    if b == [] then []
    else if HasKey(a, b[0].0) then Added(a, b[1..])
    else [b[0]] + Added(a, b[1..])
  }

  /** Looking a key up in two hashes laid end to end finds it in the first one
      that has it. */
  lemma {:induction false} GetAppend<K, V>(x: Hash<K, V>, y: Hash<K, V>, k: K)
    ensures Get(x + y, k) == if HasKey(x, k) then Get(x, k) else Get(y, k)
  {
    if x != [] {
      assert (x + y)[1..] == x[1..] + y;
      if x[0].0 != k {
        GetAppend(x[1..], y, k);
      }
    } else {
      assert x + y == y;
    }
  }

  lemma {:induction false} GetOverride<K, V>(a: Hash<K, V>, b: Hash<K, V>, k: K)
    ensures Get(Override(a, b), k) ==
      if !HasKey(a, k) then None else if HasKey(b, k) then Get(b, k) else Get(a, k)
  {
    if a != [] {
      GetOverride(a[1..], b, k);
    }
  }

  lemma {:induction false} GetAdded<K, V>(a: Hash<K, V>, b: Hash<K, V>, k: K)
    ensures Get(Added(a, b), k) == if HasKey(a, k) then None else Get(b, k)
  {
    if b != [] {
      GetAdded(a, b[1..], k);
      if !HasKey(a, b[0].0) {
        assert Added(a, b) == [b[0]] + Added(a, b[1..]);
      }
    }
  }

  /** `a.merge(b)[k]` is `b[k]` when `b` has `k`, and `a[k]` otherwise. */
  lemma MergeGet<K, V>(a: Hash<K, V>, b: Hash<K, V>, k: K)
    ensures Get(Merge(a, b), k) == if HasKey(b, k) then Get(b, k) else Get(a, k)
  {
    GetAppend(Override(a, b), Added(a, b), k);
    GetOverride(a, b, k);
    GetAdded(a, b, k);
  }

  /** Merging hashes whose keys are disjoint lays them end to end. */
  lemma {:induction false} MergeDisjoint<K, V>(a: Hash<K, V>, b: Hash<K, V>)
    requires forall i :: 0 <= i < |a| ==> !HasKey(b, a[i].0)
    ensures Merge(a, b) == a + b
  {
    OverrideDisjoint(a, b);
    AddedDisjoint(a, b);
  }

  lemma {:induction false} OverrideDisjoint<K, V>(a: Hash<K, V>, b: Hash<K, V>)
    requires forall i :: 0 <= i < |a| ==> !HasKey(b, a[i].0)
    ensures Override(a, b) == a
  {
    if a != [] {
      OverrideDisjoint(a[1..], b);
      assert a == [a[0]] + a[1..];
    }
  }

  lemma {:induction false} AddedDisjoint<K, V>(a: Hash<K, V>, b: Hash<K, V>)
    requires forall i :: 0 <= i < |a| ==> !HasKey(b, a[i].0)
    ensures Added(a, b) == b
  {
    if b != [] {
      assert HasKey(b, b[0].0);
      AddedDisjoint(a, b[1..]);
      assert b == [b[0]] + b[1..];
    }
  }

  /** When no key repeats, `h[k]` is the value of the one entry with key `k`. */
  lemma {:induction false} GetAt<K, V>(h: Hash<K, V>, i: nat)
    requires UniqueKeys(h)
    requires i < |h|
    ensures Get(h, h[i].0) == Some(h[i].1)
  {
    if i > 0 {
      assert UniqueKeys(h[1..]) by {
        forall a, b | 0 <= a < b < |h[1..]| ensures h[1..][a].0 != h[1..][b].0 {
          assert h[1..][a] == h[a + 1] && h[1..][b] == h[b + 1];
        }
      }
      GetAt(h[1..], i - 1);
    }
  }

  /** When no value repeats, `h.key(h[k])` is `k` again. */
  lemma {:induction false} KeyOfGet<K, V>(h: Hash<K, V>, k: K)
    requires UniqueValues(h)
    requires HasKey(h, k)
    ensures Get(h, k).Some? && KeyOf(h, Get(h, k).value) == Some(k)
  {
    if h[0].0 != k {
      assert UniqueValues(h[1..]) by {
        forall i, j | 0 <= i < j < |h[1..]| ensures h[1..][i].1 != h[1..][j].1 {
          assert h[1..][i] == h[i + 1] && h[1..][j] == h[j + 1];
        }
      }
      KeyOfGet(h[1..], k);
      var v := Get(h, k).value;
      assert (k, v) in h[1..];
      assert h[0].1 != v;
    }
  }

  /** When no key repeats, `h[h.key(v)]` is `v` again. */
  lemma {:induction false} GetKeyOf<K, V>(h: Hash<K, V>, v: V)
    requires UniqueKeys(h)
    requires HasValue(h, v)
    ensures KeyOf(h, v).Some? && Get(h, KeyOf(h, v).value) == Some(v)
  {
    if h[0].1 != v {
      assert UniqueKeys(h[1..]) by {
        forall i, j | 0 <= i < j < |h[1..]| ensures h[1..][i].0 != h[1..][j].0 {
          assert h[1..][i] == h[i + 1] && h[1..][j] == h[j + 1];
        }
      }
      GetKeyOf(h[1..], v);
      var k := KeyOf(h, v).value;
      assert (k, v) in h[1..];
      assert h[0].0 != k;
    }
  }
}
