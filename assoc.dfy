/** A JavaScript `Map`, modelled as its entries in insertion order. */
module Assoc {
  import opened Wrappers
  import opened Seqs

  /** The keys in insertion order, as `Array.from(map.keys())` lists them. */
  function Keys<K, V>(m: seq<(K, V)>): (ks: seq<K>)
    ensures |ks| == |m|
    ensures forall i :: 0 <= i < |m| ==> ks[i] == m[i].0
  {
    seq(|m|, i requires 0 <= i < |m| => m[i].0)
  }

  /** The values in insertion order, as `Array.from(map.values())` lists them. */
  function Values<K, V>(m: seq<(K, V)>): (vs: seq<V>)
    ensures |vs| == |m|
    ensures forall i :: 0 <= i < |m| ==> vs[i] == m[i].1
  {
    seq(|m|, i requires 0 <= i < |m| => m[i].1)
  }

  /** `map.get(k)`. */
  function Get<K(==), V>(m: seq<(K, V)>, k: K): (r: Option<V>)
    ensures r.Some? <==> k in Keys(m)
    ensures r.Some? ==> (k, r.value) in m
  {
    if m == [] then None
    else if m[0].0 == k then Some(m[0].1)
    else
      var r := Get(m[1..], k);
      assert Keys(m) == [m[0].0] + Keys(m[1..]);
      r
  }

  lemma KeysCons<K, V>(x: (K, V), m: seq<(K, V)>)
    ensures Keys([x] + m) == [x.0] + Keys(m)
  {
  }

  /** `map.set(k, v)`: replaces the value of an existing key in place, otherwise
      appends a new entry at the end. */
  function Put<K(==), V>(m: seq<(K, V)>, k: K, v: V): (r: seq<(K, V)>)
    ensures Keys(r) == if k in Keys(m) then Keys(m) else Keys(m) + [k]
  {
    if m == [] then [(k, v)]
    else
      var rest := m[1..];
      KeysCons(m[0], rest);
      assert m == [m[0]] + rest;
      if m[0].0 == k then
        KeysCons((k, v), rest);
        [(k, v)] + rest
      else
        var p := Put(rest, k, v);
        KeysCons(m[0], p);
        [m[0]] + p
  }

  /** After `map.set(k, v)`, `k` maps to `v` and every other key is unchanged. */
  lemma {:induction false} GetPut<K, V>(m: seq<(K, V)>, k: K, v: V, k': K)
    ensures Get(Put(m, k, v), k') == if k' == k then Some(v) else Get(m, k')
  {
    if m != [] && m[0].0 != k {
      GetPut(m[1..], k, v, k');
    }
  }

  /** On a map whose keys are distinct, `set` replaces the entry of an existing key
      where it stands and appends a new key at the end. */
  lemma {:induction false} PutEntries<K, V>(m: seq<(K, V)>, k: K, v: V)
    requires NoDuplicates(Keys(m))
    ensures k !in Keys(m) ==> Put(m, k, v) == m + [(k, v)]
    ensures k in Keys(m) ==> |Put(m, k, v)| == |m|
    ensures k in Keys(m) ==> forall i :: 0 <= i < |m| ==>
              Put(m, k, v)[i] == if m[i].0 == k then (k, v) else m[i]
    ensures NoDuplicates(Keys(Put(m, k, v)))
  {
    if m != [] {
      var rest := m[1..];
      assert Keys(m) == [m[0].0] + Keys(rest);
      assert NoDuplicates(Keys(rest)) by {
        forall i, j | 0 <= i < j < |rest| ensures rest[i].0 != rest[j].0 {
          assert rest[i] == m[i + 1] && rest[j] == m[j + 1];
        }
      }
      if m[0].0 != k {
        PutEntries(rest, k, v);
        assert k in Keys(m) <==> k in Keys(rest);
      } else {
        forall i | 1 <= i < |m| ensures m[i].0 != k {
          assert m[i].0 == Keys(m)[i];
        }
      }
    }
  }

  /** On a map whose keys are distinct, `get` of the key of an entry finds that entry's value. */
  lemma GetAt<K, V>(m: seq<(K, V)>, i: nat)
    requires NoDuplicates(Keys(m)) && i < |m|
    ensures Get(m, m[i].0) == Some(m[i].1)
  {
    var k := m[i].0;
    assert Keys(m)[i] == k;
    var r := Get(m, k);
    var j :| 0 <= j < |m| && m[j] == (k, r.value);
    assert Keys(m)[j] == k;
  }

  /** The values after `set` of an existing key: that key's value replaced where it stands. */
  lemma ValuesPutExisting<K, V>(m: seq<(K, V)>, k: K, v: V, j: nat)
    requires NoDuplicates(Keys(m)) && j < |m| && m[j].0 == k
    ensures Values(Put(m, k, v)) == Values(m)[j := v]
  {
    var vs := Values(Put(m, k, v));
    PutAt(m, k, v, j, j);
    forall i | 0 <= i < |vs| ensures vs[i] == Values(m)[j := v][i] {
      PutAt(m, k, v, j, i);
    }
  }

  lemma PutAt<K, V>(m: seq<(K, V)>, k: K, v: V, j: nat, i: nat)
    requires NoDuplicates(Keys(m)) && j < |m| && m[j].0 == k && i < |m|
    ensures |Put(m, k, v)| == |m|
    ensures Put(m, k, v)[i] == if i == j then (k, v) else m[i]
  {
    assert Keys(m)[j] == k;
    PutEntries(m, k, v);
    if i != j {
      assert Keys(m)[i] != Keys(m)[j];
    }
  }

  /** The values after `set` of a new key: the new value appended. */
  lemma ValuesPutNew<K, V>(m: seq<(K, V)>, k: K, v: V)
    requires NoDuplicates(Keys(m)) && k !in Keys(m)
    ensures Values(Put(m, k, v)) == Values(m) + [v]
  {
    PutEntries(m, k, v);
  }

  /** On a map whose keys are distinct, `set` changes a sum over the values by the new
      value less the value it replaces (nothing, for a new key). */
  lemma SumOfPut<K, V>(m: seq<(K, V)>, k: K, v: V, g: V -> nat)
    requires NoDuplicates(Keys(m))
    ensures k in Keys(m) ==>
              SumOf(Values(Put(m, k, v)), g) + g(Get(m, k).value) == SumOf(Values(m), g) + g(v)
    ensures k !in Keys(m) ==> SumOf(Values(Put(m, k, v)), g) == SumOf(Values(m), g) + g(v)
  {
    var vs0 := Values(m);
    if k in Keys(m) {
      var j :| 0 <= j < |m| && Keys(m)[j] == k;
      GetAt(m, j);
      ValuesPutExisting(m, k, v, j);
      SumOfUpdate(vs0, j, v, g);
    } else {
      ValuesPutNew(m, k, v);
      var vs := vs0 + [v];
      assert vs[..|vs| - 1] == vs0;
    }
  }
}
