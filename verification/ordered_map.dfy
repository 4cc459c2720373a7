/** An insertion-ordered map with the semantics of a JavaScript `Map`: iteration
    visits entries in the order their keys were first set, `set` on a present key
    replaces the value in place and `set` on a new key appends an entry. */
module OrderedMaps {
  import opened Wrappers

  datatype OrderedMap<K, V> = OrderedMap(entries: seq<(K, V)>)

  /** The keys in iteration order. */
  function Keys<K, V>(m: OrderedMap<K, V>): seq<K>
  {
    seq(|m.entries|, i requires 0 <= i < |m.entries| => m.entries[i].0)
  }

  /** No key occurs in two entries: what every map built by `Set` satisfies. */
  ghost predicate Valid<K, V>(m: OrderedMap<K, V>) {
    forall i, j :: 0 <= i < j < |m.entries| ==> m.entries[i].0 != m.entries[j].0
  }

  /** `new Map()`. */
  function Empty<K, V>(): (m: OrderedMap<K, V>)
    ensures Valid(m)
    ensures Keys(m) == []
  {
    OrderedMap([])
  }

  /** `Map.prototype.get`: the value stored under `k`, or `None` (`undefined`). */
  function Get<K(==), V>(m: OrderedMap<K, V>, k: K): (r: Option<V>)
    ensures r.None? <==> k !in Keys(m)
    ensures r.Some? ==> exists i :: 0 <= i < |m.entries| && m.entries[i] == (k, r.value)
    decreases |m.entries|
  {
    if |m.entries| == 0 then None
    else if m.entries[0].0 == k then
      assert Keys(m)[0] == k;
      Some(m.entries[0].1)
    else
      assert Keys(OrderedMap(m.entries[1..])) == Keys(m)[1..];
      Get(OrderedMap(m.entries[1..]), k)
  }

  /** In a valid map, looking up the key of any entry yields that entry's value. */
  lemma GetEntry<K, V>(m: OrderedMap<K, V>, i: int)
    requires Valid(m)
    requires 0 <= i < |m.entries|
    ensures Get(m, m.entries[i].0) == Some(m.entries[i].1)
  {
    assert Keys(m)[i] == m.entries[i].0;
  }

  /** `Map.prototype.set`: a present key keeps its position and gets the new value;
      a new key is appended at the end of the iteration order. */
  function Set<K(==), V>(m: OrderedMap<K, V>, k: K, v: V): (r: OrderedMap<K, V>)
    ensures k !in Keys(m) ==> r.entries == m.entries + [(k, v)]
    ensures k in Keys(m) ==> Keys(r) == Keys(m)
    decreases |m.entries|
  {
    if |m.entries| == 0 then OrderedMap([(k, v)])
    else if m.entries[0].0 == k then
      assert Keys(m)[0] == k;
      OrderedMap([(k, v)] + m.entries[1..])
    else
      var rest := Set(OrderedMap(m.entries[1..]), k, v);
      assert Keys(OrderedMap(m.entries[1..])) == Keys(m)[1..];
      OrderedMap([m.entries[0]] + rest.entries)
  }

  /** Setting a key never introduces a duplicate key. */
  lemma SetPreservesValid<K, V>(m: OrderedMap<K, V>, k: K, v: V)
    requires Valid(m)
    ensures Valid(Set(m, k, v))
  {
    var r := Set(m, k, v);
    if k in Keys(m) {
      forall i | 0 <= i < |r.entries|
        ensures r.entries[i].0 == m.entries[i].0
      {
        assert Keys(r)[i] == Keys(m)[i];
      }
    } else {
      forall i | 0 <= i < |m.entries|
        ensures m.entries[i].0 != k
      {
        assert Keys(m)[i] == m.entries[i].0;
      }
    }
  }

  /** After `set(k, v)`, `get(k)` yields `v`. */
  lemma {:induction false} GetSetSame<K, V>(m: OrderedMap<K, V>, k: K, v: V)
    ensures Get(Set(m, k, v), k) == Some(v)
    decreases |m.entries|
  {
    if |m.entries| > 0 && m.entries[0].0 != k {
      var tail := OrderedMap(m.entries[1..]);
      GetSetSame(tail, k, v);
      assert Set(m, k, v).entries[1..] == Set(tail, k, v).entries;
    }
  }

  /** `set(k, v)` leaves the value under every other key unchanged. */
  lemma {:induction false} GetSetOther<K, V>(m: OrderedMap<K, V>, k: K, v: V, k': K)
    requires k' != k
    ensures Get(Set(m, k, v), k') == Get(m, k')
    decreases |m.entries|
  {
    if |m.entries| == 0 {
      assert Set(m, k, v).entries[1..] == [];
    } else if m.entries[0].0 == k {
      assert Set(m, k, v).entries[1..] == m.entries[1..];
    } else {
      var tail := OrderedMap(m.entries[1..]);
      GetSetOther(tail, k, v, k');
      assert Set(m, k, v).entries[1..] == Set(tail, k, v).entries;
    }
  }
}
