/** The names the Redis adapter stores given keys under, and what batches answer about given keys. */
module RedisKeys {
  import opened Texts
  import opened RedisCluster

  /** The namespace and the separator stand in front of the key; without a namespace the key is stored as it is. */
  lemma {:induction false} StoredNames(key: string, ns: string, separator: string)
    ensures KeyPrefix(key, "", separator) == key
    ensures ns != "" ==> KeyPrefix(key, ns, separator) == ns + separator + key
  {
  }

  /** Two keys have the same name exactly if they are equal. */
  lemma {:induction false} SameNameIff(k: string, l: string, ns: string, separator: string)
    ensures KeyPrefix(k, ns, separator) == KeyPrefix(l, ns, separator) <==> k == l
  {
    var p := ns + separator;
    assert (p + k)[|p|..] == k && (p + l)[|p|..] == l;
  }

  /** Two namespaces share a name exactly if one, the separator added, begins with the other, and the keys make up
      the difference. */
  lemma {:induction false} NamespacesShareIff(k: string, a: string, l: string, b: string, separator: string)
    requires a != "" && b != ""
    ensures KeyPrefix(k, a, separator) == KeyPrefix(l, b, separator) <==>
      (exists rest :: a + separator + rest == b + separator && k == rest + l) ||
      (exists rest :: b + separator + rest == a + separator && l == rest + k)
  {
    var p, q := a + separator, b + separator;
    assert (p + k)[|p|..] == k && (q + l)[|q|..] == l;
    assert forall rest: string :: p + rest + l == p + (rest + l) && q + rest + k == q + (rest + k);
    if p + k == q + l {
      if |p| <= |q| {
        var rest := q[|p|..];
        assert (p + k)[..|p|] == p && (q + l)[..|q|] == q;
        assert p + rest == q;
        assert p + k == p + (rest + l);
        assert (p + (rest + l))[|p|..] == rest + l;
      } else {
        var rest := p[|q|..];
        assert (p + k)[..|p|] == p && (q + l)[..|q|] == q;
        assert q + rest == p;
        assert q + l == q + (rest + k);
        assert (q + (rest + k))[|q|..] == rest + k;
      }
    }
  }

  /** Nothing after position `i` in the batch writes its key. */
  predicate IsLast(entries: seq<Entry>, accepts: seq<bool>, i: nat)
    requires |accepts| == |entries|
  {
    i < |entries| && accepts[i] && forall j :: i < j < |entries| && accepts[j] ==> entries[j].key != entries[i].key
  }

  /** What a batch leaves under the key of an entry that nothing after it overwrites: its value, and its lifetime if
      that is positive. */
  lemma {:induction false} ApplyLeaves(store: Store, entries: seq<Entry>, accepts: Verdict, i: nat)
    requires IsLast(entries, seq(|entries|, j requires 0 <= j < |entries| => accepts(entries[j])), i)
    ensures var after := Apply(store, entries, accepts);
      entries[i].key in after && after[entries[i].key].value == entries[i].value
    ensures var px := Apply(store, entries, accepts)[entries[i].key].px;
      forall n :: px == Some(n) <==> entries[i].ttl == Some(n) && n > 0
  {
    var n := |entries| - 1;
    if i < n {
      assert entries[..n][i] == entries[i];
      assert forall j :: 0 <= j < n ==> entries[..n][j] == entries[j];
      ApplyLeaves(store, entries[..n], accepts, i);
    }
  }

  /** Whatever the slots and their order, standalone or not: an entry reported as set, and not overwritten later in
      the batch, is read back with its own value. */
  method SetManyGetMany(r: StorelyRedis, given: seq<Entry>, slot: SlotFunction, accepts: Verdict, up: nat -> bool)
      returns (results: seq<bool>, values: seq<Option<string>>)
    modifies r`store
    ensures |results| == |values| == |given|
    ensures (forall e :: accepts(e)) && (forall s :: up(s)) ==> forall i :: 0 <= i < |given| ==> results[i]
    ensures forall i :: 0 <= i < |given| && IsLast(given, results, i) ==> values[i] == Some(given[i].value)
  {
    hide Apply, KeyPrefix;
    ghost var before, ns, separator := r.store, r.namespace, r.separator;
    ghost var entries := PrefixedEntries(given, ns, separator);
    ghost var slots: SlotFunction := if r.cluster then slot else SlotZero;
    results := r.SetMany(given, slot, accepts, up);
    var keys := seq(|given|, i requires 0 <= i < |given| => given[i].key);
    values := r.GetMany(keys, slot, up);
    forall i | 0 <= i < |given| && IsLast(given, results, i)
      ensures values[i] == Some(given[i].value)
    {
      forall j | 0 <= j < |given|
        ensures Prefixed(keys, ns, separator)[j] == entries[j].key
        ensures entries[j].key == entries[i].key <==> given[j].key == given[i].key
        ensures up(slots(entries[j].key)) && results[j] == accepts(entries[j])
      {
        SameNameIff(given[j].key, given[i].key, ns, separator);
      }
      ApplyLeaves(before, entries, accepts, i);
      assert AllUp(Prefixed(keys, ns, separator), slots, up);
    }
  }

  /** Deleting keys: none of them is read any more, every other key answers as before. */
  method DeleteManyGetMany(r: StorelyRedis, given: seq<string>, asked: seq<string>, slot: SlotFunction)
      returns (earlier: seq<Option<string>>, later: seq<Option<string>>)
    modifies r`store
    ensures |earlier| == |later| == |asked|
    ensures forall i :: 0 <= i < |asked| ==> later[i] == if asked[i] in given then None else earlier[i]
  {
    hide KeyPrefix;
    ghost var ns, separator := r.namespace, r.separator;
    earlier := r.GetMany(asked, slot, _ => true);
    var _ := r.DeleteMany(given, slot, _ => true);
    later := r.GetMany(asked, slot, _ => true);
    forall i | 0 <= i < |asked|
      ensures KeyPrefix(asked[i], ns, separator) in Prefixed(given, ns, separator) <==> asked[i] in given
    {
      NamesAmong(given, asked[i], ns, separator);
    }
  }

  /** `deleteMany` reports the keys that were there and are listed once; none of them is there any more. */
  method DeleteManyHasMany(r: StorelyRedis, given: seq<string>, slot: SlotFunction)
      returns (before: seq<bool>, deleted: seq<bool>, after: seq<bool>)
    modifies r`store
    ensures |before| == |deleted| == |after| == |given|
    ensures forall i :: 0 <= i < |given| ==>
      (deleted[i] <==> before[i] && forall j :: 0 <= j < |given| && given[j] == given[i] ==> j == i)
    ensures forall i :: 0 <= i < |given| ==> !after[i]
  {
    hide KeyPrefix, Unlinked;
    ghost var start, keys := r.store, Prefixed(given, r.namespace, r.separator);
    before := r.HasMany(given, slot, _ => true);
    deleted := r.DeleteMany(given, slot, _ => true);
    after := r.HasMany(given, slot, _ => true);
    forall i | 0 <= i < |given|
      ensures deleted[i] <==> before[i] && forall j :: 0 <= j < |given| && given[j] == given[i] ==> j == i
    {
      forall j | 0 <= j < |given|
        ensures keys[j] == keys[i] <==> given[j] == given[i]
      {
        SameNameIff(given[j], given[i], r.namespace, r.separator);
      }
      DeleteAnswersIff(start, keys, i);
      if Unlinked(start, keys, keys[i]) { UnlinkedOnlyPresent(start, keys, keys[i]); }
    }
  }

  lemma {:induction false} UnlinkedOnlyPresent(store: Store, keys: seq<string>, key: string)
    requires Unlinked(store, keys, key)
    ensures key in store
  {
  }

  lemma {:induction false} NamesAmong(given: seq<string>, key: string, ns: string, separator: string)
    ensures KeyPrefix(key, ns, separator) in Prefixed(given, ns, separator) <==> key in given
  {
    hide KeyPrefix;
    forall i | 0 <= i < |given|
      ensures Prefixed(given, ns, separator)[i] == KeyPrefix(key, ns, separator) <==> given[i] == key
    {
      SameNameIff(given[i], key, ns, separator);
    }
  }
}
