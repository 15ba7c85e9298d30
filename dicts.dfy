/** Python dictionaries, whose iteration order is the order in which keys were
    first inserted.  A `Dict` pairs that key order with the finite map. */
module Dicts {
  import opened Wrappers

  predicate Distinct<T(==)>(s: seq<T>) {
    forall i, j :: 0 <= i < j < |s| ==> s[i] != s[j]
  }

  datatype Dict<K(==,!new), V> = Dict(keys: seq<K>, items: map<K, V>) {
    /** The key order lists every key exactly once. */
    ghost predicate Valid() {
      Distinct(keys) && (forall k :: k in items <==> k in keys)
    }

    /** `d[k] = v`: an existing key keeps its position, a new one goes last. */
    function Put(k: K, v: V): (d: Dict<K, V>)
      ensures d.items == items[k := v]
    {
      if k in items then Dict(keys, items[k := v]) else Dict(keys + [k], items[k := v])
    }

    /** `d.get(k)` */
    function Get(k: K): Option<V> {
      if k in items then Some(items[k]) else None
    }
  }

  function Empty<K(==,!new), V>(): (d: Dict<K, V>)
    ensures d.Valid() && d.keys == []
  {
    Dict([], map[])
  }

  /** Writing a key keeps a well-formed dictionary well-formed and puts a new
      key after all the others. */
  lemma PutValid<K(!new), V>(d: Dict<K, V>, k: K, v: V)
    requires d.Valid()
    ensures d.Put(k, v).Valid()
    ensures k in d.keys ==> d.Put(k, v).keys == d.keys
    ensures k !in d.keys ==> d.Put(k, v).keys == d.keys + [k]
  {
  }

  lemma DistinctAppend<T>(s: seq<T>, x: T)
    requires Distinct(s) && x !in s
    ensures Distinct(s + [x])
  {
  }

  /** A sequence is duplicate-free exactly when no element occurs twice. */
  lemma {:induction false} DistinctMultiset<T>(s: seq<T>)
    ensures Distinct(s) <==> forall x :: multiset(s)[x] <= 1
    decreases |s|
  {
    if s != [] {
      var n := |s| - 1;
      var init, last := s[..n], s[n];
      DistinctMultiset(init);
      assert s == init + [last];
      assert multiset(s) == multiset(init) + multiset{last};
      if Distinct(s) {
        assert last !in init;
        assert Distinct(init) by {
          forall i, j | 0 <= i < j < n ensures init[i] != init[j] {
            assert s[i] != s[j];
          }
        }
      } else {
        var i, j :| 0 <= i < j < |s| && s[i] == s[j];
        if j == n {
          assert init[i] == last;
          assert multiset(s)[last] >= 2;
        } else {
          assert init[i] == init[j];
          var x :| multiset(init)[x] > 1;
          assert multiset(s)[x] >= multiset(init)[x];
        }
      }
    }
  }

  /** Reordering keeps a sequence duplicate-free. */
  lemma DistinctPermutation<T>(a: seq<T>, b: seq<T>)
    requires Distinct(a) && multiset(a) == multiset(b)
    ensures Distinct(b)
  {
    DistinctMultiset(a);
    DistinctMultiset(b);
  }

  /** `list.remove(x)`: drop the first occurrence, ValueError when absent. */
  function Remove<T(==)>(s: seq<T>, x: T): (r: Result<seq<T>>)
    ensures r.Err? <==> x !in s
    ensures r.Ok? ==> r.value == s[..Position(s, x)] + s[Position(s, x) + 1..]
  {
    if x in s then
      var i := Position(s, x);
      Ok(s[..i] + s[i + 1..])
    else Err(ValueError)
  }

  function Position<T(==)>(s: seq<T>, x: T): (i: nat)
    requires x in s
    ensures i < |s| && s[i] == x && x !in s[..i]
  {
    if s[0] == x then 0
    else
      var j := Position(s[1..], x);
      assert s[..j + 1] == [s[0]] + s[1..][..j];
      j + 1
  }

  /** Removing an element of a duplicate-free sequence keeps it duplicate-free
      and takes away exactly that element. */
  lemma RemoveDistinct<T>(s: seq<T>, x: T)
    requires Distinct(s) && x in s
    ensures Distinct(Remove(s, x).value)
    ensures forall y :: y in Remove(s, x).value <==> y in s && y != x
    ensures |Remove(s, x).value| == |s| - 1
  {
    var i := Position(s, x);
    var r := s[..i] + s[i + 1..];
    assert forall k :: 0 <= k < |r| ==> r[k] == (if k < i then s[k] else s[k + 1]);
    forall y
      ensures y in r <==> y in s && y != x
    {
      if y in r {
        var k :| 0 <= k < |r| && r[k] == y;
      }
      if y in s && y != x {
        var k :| 0 <= k < |s| && s[k] == y;
        assert k != i;
        if k < i { assert r[k] == y; } else { assert r[k - 1] == y; }
      }
    }
  }

  /** `dict(pairs)`: a key maps to the value of its last pair. */
  function ToMap<K(==), V>(pairs: seq<(K, V)>): map<K, V>
    decreases |pairs|
  {
    if pairs == [] then map[]
    else ToMap(pairs[..|pairs| - 1])[pairs[|pairs| - 1].0 := pairs[|pairs| - 1].1]
  }

  /** The keys of `dict(pairs)` are the keys of the pairs, and each one maps
      to the value of the last pair with that key. */
  lemma {:induction false} ToMapLast<K, V>(pairs: seq<(K, V)>, k: K)
    ensures k in ToMap(pairs) <==> exists i :: 0 <= i < |pairs| && pairs[i].0 == k
    ensures k in ToMap(pairs) ==>
              exists i :: 0 <= i < |pairs| && pairs[i].0 == k && ToMap(pairs)[k] == pairs[i].1 &&
                (forall j :: i < j < |pairs| ==> pairs[j].0 != k)
    decreases |pairs|
  {
    if pairs != [] {
      var n := |pairs| - 1;
      var init := pairs[..n];
      ToMapLast(init, k);
      if pairs[n].0 != k && k in ToMap(init) {
        var i :| 0 <= i < |init| && init[i].0 == k && ToMap(init)[k] == init[i].1 &&
                 forall j :: i < j < |init| ==> init[j].0 != k;
        assert pairs[i] == init[i];
        assert forall j :: i < j < n ==> pairs[j] == init[j];
      }
      if exists i :: 0 <= i < |pairs| && pairs[i].0 == k {
        var i :| 0 <= i < |pairs| && pairs[i].0 == k;
        if i < n {
          assert init[i] == pairs[i];
        }
      }
    }
  }
}
