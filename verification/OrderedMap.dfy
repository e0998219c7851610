/** JavaScript's Map: entries in insertion order, one per key. */
module OrderedMap {
  import opened Texts

  type Entries<K, V> = seq<(K, V)>

  predicate DistinctKeys<K(==), V>(m: Entries<K, V>) {
    forall i, j :: 0 <= i < j < |m| ==> m[i].0 != m[j].0
  }

  function Keys<K, V>(m: Entries<K, V>): (ks: seq<K>)
    ensures |ks| == |m| && forall i :: 0 <= i < |m| ==> ks[i] == m[i].0
  {
    seq(|m|, i requires 0 <= i < |m| => m[i].0)
  }

  /** `get` and `has` in one. */
  function Find<K(==), V>(m: Entries<K, V>, k: K): Option<V> {
    if m == [] then None else if m[0].0 == k then Some(m[0].1) else Find(m[1..], k)
  }

  /** `set`: a known key keeps its place, a new one goes to the end. */
  function Put<K(==), V>(m: Entries<K, V>, k: K, v: V): Entries<K, V> {
    if m == [] then [(k, v)] else if m[0].0 == k then [(k, v)] + m[1..] else [m[0]] + Put(m[1..], k, v)
  }

  /** `delete`. */
  function Remove<K(==), V>(m: Entries<K, V>, k: K): Entries<K, V> {
    if m == [] then [] else if m[0].0 == k then m[1..] else [m[0]] + Remove(m[1..], k)
  }

  lemma {:induction false} FindSpec<K, V>(m: Entries<K, V>, k: K)
    ensures Find(m, k).Some? ==> exists i :: 0 <= i < |m| && m[i] == (k, Find(m, k).value)
    ensures Find(m, k) == None <==> forall i :: 0 <= i < |m| ==> m[i].0 != k
  {
    if m == [] {
    } else {
      FindSpec(m[1..], k);
      if m[0].0 == k {
        assert m[0] == (k, m[0].1);
      } else if Find(m, k).Some? {
        var i :| 0 <= i < |m[1..]| && m[1..][i] == (k, Find(m[1..], k).value);
        assert m[i + 1] == (k, Find(m, k).value);
      }
    }
  }

  lemma {:induction false} FindInConcat<K, V>(a: Entries<K, V>, b: Entries<K, V>, k: K)
    ensures Find(a + b, k) == if Find(a, k).Some? then Find(a, k) else Find(b, k)
  {
    if a == [] {
      assert a + b == b;
    } else {
      FindInConcat(a[1..], b, k);
      assert (a + b)[1..] == a[1..] + b;
    }
  }

  lemma {:induction false} FindAt<K, V>(m: Entries<K, V>, i: nat)
    requires DistinctKeys(m) && i < |m|
    ensures Find(m, m[i].0) == Some(m[i].1)
  {
    if i == 0 {
    } else {
      FindAt(m[1..], i - 1);
    }
  }

  lemma {:induction false} PutFinds<K, V>(m: Entries<K, V>, k: K, v: V, k': K)
    ensures Find(Put(m, k, v), k') == if k' == k then Some(v) else Find(m, k')
  {
    var p := Put(m, k, v);
    if m == [] {
      assert p[1..] == [];
    } else if m[0].0 == k {
      assert p[1..] == m[1..];
    } else {
      PutFinds(m[1..], k, v, k');
      assert p[1..] == Put(m[1..], k, v);
    }
  }

  /** A known key keeps its place and the keys stay as they are; a new one comes last. */
  lemma {:induction false} PutShape<K, V>(m: Entries<K, V>, k: K, v: V)
    ensures Find(m, k) == None ==> Put(m, k, v) == m + [(k, v)]
    ensures Find(m, k).Some? ==> |Put(m, k, v)| == |m| && forall i :: 0 <= i < |m| ==> Put(m, k, v)[i].0 == m[i].0
  {
    if m == [] || m[0].0 == k {
    } else {
      PutShape(m[1..], k, v);
      assert m == [m[0]] + m[1..];
      var p := Put(m, k, v);
      forall i | 0 <= i < |m| && Find(m, k).Some?
        ensures p[i].0 == m[i].0
      {
        if i > 0 { assert p[i] == Put(m[1..], k, v)[i - 1]; }
      }
    }
  }

  lemma {:induction false} PutSpec<K, V>(m: Entries<K, V>, k: K, v: V)
    requires DistinctKeys(m)
    ensures DistinctKeys(Put(m, k, v))
    ensures forall k' :: Find(Put(m, k, v), k') == if k' == k then Some(v) else Find(m, k')
    ensures |Put(m, k, v)| == |m| + if Find(m, k) == None then 1 else 0
    ensures forall i :: 0 <= i < |Put(m, k, v)| ==>
      Put(m, k, v)[i].0 == k || exists j :: 0 <= j < |m| && m[j].0 == Put(m, k, v)[i].0
    ensures Find(m, k) == None ==> Put(m, k, v) == m + [(k, v)]
  {
    hide Put, Find;
    PutShape(m, k, v);
    FindSpec(m, k);
    forall k'
      ensures Find(Put(m, k, v), k') == if k' == k then Some(v) else Find(m, k')
    {
      PutFinds(m, k, v, k');
    }
  }

  /** `r` is `m` without its i-th entry, which is that of `k`. */
  predicate CutAt<K(==), V(==)>(m: Entries<K, V>, k: K, r: Entries<K, V>, i: int) {
    0 <= i < |m| && m[i].0 == k && r == m[..i] + m[i + 1..]
  }

  lemma {:induction false} CutLater<K, V>(m: Entries<K, V>, k: K, r: Entries<K, V>, i: int)
    requires m != [] && CutAt(m[1..], k, r, i)
    ensures CutAt(m, k, [m[0]] + r, i + 1)
  {
    assert m[..i + 1] == [m[0]] + m[1..][..i] && m[i + 2..] == m[1..][i + 1..];
  }

  /** A known key loses its one place, an unknown one changes nothing. */
  lemma {:induction false} RemoveShape<K, V>(m: Entries<K, V>, k: K)
    ensures Find(m, k) == None ==> Remove(m, k) == m
    ensures Find(m, k).Some? ==> exists i :: CutAt(m, k, Remove(m, k), i)
  {
    hide CutAt;
    if m == [] {
    } else if m[0].0 == k {
      CutFirst(m, k);
      assert CutAt(m, k, Remove(m, k), 0);
    } else {
      RemoveShape(m[1..], k);
      assert m == [m[0]] + m[1..];
      if Find(m, k).Some? {
        var i :| CutAt(m[1..], k, Remove(m[1..], k), i);
        CutLater(m, k, Remove(m[1..], k), i);
        assert CutAt(m, k, Remove(m, k), i + 1);
      }
    }
  }

  lemma {:induction false} CutFirst<K, V>(m: Entries<K, V>, k: K)
    requires m != [] && m[0].0 == k
    ensures CutAt(m, k, m[1..], 0)
  {
    assert m[..0] + m[1..] == m[1..];
  }

  lemma {:induction false} RemoveFinds<K, V>(m: Entries<K, V>, k: K, k': K)
    requires DistinctKeys(m)
    ensures Find(Remove(m, k), k') == if k' == k then None else Find(m, k')
  {
    if m == [] {
    } else if m[0].0 == k {
      FindSpec(m[1..], k);
    } else {
      RemoveFinds(m[1..], k, k');
      assert Remove(m, k)[1..] == Remove(m[1..], k);
    }
  }

  /** The entries of `r` are entries of `m` with keys other than `k`. */
  predicate KeptFrom<K(==), V(==)>(m: Entries<K, V>, k: K, r: Entries<K, V>) {
    forall i :: 0 <= i < |r| ==> r[i].0 != k && exists j :: 0 <= j < |m| && m[j] == r[i]
  }

  lemma {:induction false} RemoveSpec<K, V>(m: Entries<K, V>, k: K)
    requires DistinctKeys(m)
    ensures DistinctKeys(Remove(m, k))
    ensures forall k' :: Find(Remove(m, k), k') == if k' == k then None else Find(m, k')
    ensures |Remove(m, k)| == |m| - if Find(m, k) == None then 0 else 1
    ensures KeptFrom(m, k, Remove(m, k))
  {
    hide Remove, Find, KeptFrom;
    forall k'
      ensures Find(Remove(m, k), k') == if k' == k then None else Find(m, k')
    {
      RemoveFinds(m, k, k');
    }
    RemoveKeeps(m, k);
  }

  lemma {:induction false} RemoveKeeps<K, V>(m: Entries<K, V>, k: K)
    requires DistinctKeys(m)
    ensures DistinctKeys(Remove(m, k))
    ensures |Remove(m, k)| == |m| - if Find(m, k) == None then 0 else 1
    ensures KeptFrom(m, k, Remove(m, k))
  {
    hide Remove, Find, CutAt, DistinctKeys, KeptFrom;
    RemoveShape(m, k);
    if Find(m, k).Some? {
      var i :| CutAt(m, k, Remove(m, k), i);
      CutKeeps(m, k, Remove(m, k), i);
    } else {
      FindSpec(m, k);
      KeepsAll(m, k, Remove(m, k));
    }
  }

  lemma {:induction false} KeepsAll<K, V>(m: Entries<K, V>, k: K, r: Entries<K, V>)
    requires r == m && forall i :: 0 <= i < |m| ==> m[i].0 != k
    ensures KeptFrom(m, k, r)
  {
    forall i | 0 <= i < |r|
      ensures exists j :: 0 <= j < |m| && m[j] == r[i]
    {
      assert m[i] == r[i];
    }
  }

  lemma {:induction false} CutKeeps<K, V>(m: Entries<K, V>, k: K, r: Entries<K, V>, i: int)
    requires DistinctKeys(m) && CutAt(m, k, r, i)
    ensures DistinctKeys(r) && |r| == |m| - 1
    ensures KeptFrom(m, k, r)
  {
    forall j | 0 <= j < |r|
      ensures r[j] == m[if j < i then j else j + 1]
    {
    }
  }
}
