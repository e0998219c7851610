/** Which given keys stand for the same row, and what reads answer after writes and deletes under given keys. */
module SqliteKeys {
  import opened Texts
  import opened SqliteTable
  import opened Sqlite

  /** The row that a key given to an adapter stands for. */
  function RowOf(key: string, ns: Option<string>): Id {
    Id(StripPrefix(key, ns), NamespaceValue(ns))
  }

  /** A namespace's prefix is taken off once; any other key is its own row key. */
  lemma {:induction false} RowKeys(key: string, ns: string)
    ensures RowOf(key, None) == RowOf(key, Some("")) == Id(key, "")
    ensures ns != "" ==> RowOf(ns + ":" + key, Some(ns)) == Id(key, ns)
    ensures !(ns + ":" <= key) ==> RowOf(key, Some(ns)) == Id(key, ns)
  {
    var p := ns + ":";
    assert (p + key)[|p|..] == key;
  }

  /** `k` is `l` with the namespace in front, and `l` has it not. */
  predicate IsPrefixed(k: string, l: string, ns: string) {
    ns != "" && k == ns + ":" + l && !(ns + ":" <= l)
  }

  predicate SameNamespace(a: Option<string>, b: Option<string>) {
    a == b || (a in {None, Some("")} && b in {None, Some("")})
  }

  predicate SameKey(k: string, a: Option<string>, l: string, b: Option<string>) {
    SameNamespace(a, b) && (k == l || (a.Some? && (IsPrefixed(k, l, a.value) || IsPrefixed(l, k, a.value))))
  }

  /** Keys given to two adapters share a row exactly if the namespaces are the same and the keys are equal, or one
      is the other with the namespace in front. */
  lemma {:induction false} SameRowIff(k: string, a: Option<string>, l: string, b: Option<string>)
    ensures RowOf(k, a) == RowOf(l, b) <==> SameKey(k, a, l, b)
  {
    if SameNamespace(a, b) && a.Some? && a.value != "" {
      var p := a.value + ":";
      assert (p + k)[|p|..] == k && (p + l)[|p|..] == l;
      assert p <= k ==> k == p + k[|p|..];
      assert p <= l ==> l == p + l[|p|..];
    }
  }

  /** A text that is past the deadline it carries. */
  predicate Over(value: string, now: int) {
    ExpiresOf(value).Some? && ExpiresOf(value).value <= now as real
  }

  /** The last entry of a batch under a key, by the keys as they are given. */
  function LastValue(entries: seq<Entry>, a: Option<string>, key: string, b: Option<string>): Option<string> {
    if entries == [] then None
    else
      var last := entries[|entries| - 1];
      if SameKey(last.key, a, key, b) then Some(last.value) else LastValue(entries[..|entries| - 1], a, key, b)
  }

  /** After a batch through one adapter, a key read through another, or the same, answers the last value written
      under it, and what it answered before if there is none. */
  lemma {:induction false} ReadsLastWrite(t: Table, entries: seq<Entry>, a: Option<string>, key: string,
      b: Option<string>, now: int)
    ensures var id, after := RowOf(key, b), Upsert(t, WritesOf(entries, a), NamespaceValue(a));
      Lookup(after, id.key, id.ns, now) ==
        match LastValue(entries, a, key, b)
        case None => Lookup(t, id.key, id.ns, now)
        case Some(value) => if Over(value, now) then None else Some(value)
  {
    hide StripPrefix, NamespaceValue, ExpiresOf, SameKey;
    if entries == [] {
    } else {
      var n := |entries| - 1;
      ReadsLastWrite(t, entries[..n], a, key, b, now);
      assert WritesOf(entries, a)[..n] == WritesOf(entries[..n], a);
      SameRowIff(entries[n].key, a, key, b);
    }
  }

  /** After a batch delete, exactly the keys listed answer nothing; the others answer as before. */
  lemma {:induction false} ReadsAfterDelete(t: Table, keys: seq<string>, a: Option<string>, key: string,
      b: Option<string>, now: int)
    ensures var id, after := RowOf(key, b), DeleteIn(t, Strip(keys, a), NamespaceValue(a));
      Lookup(after, id.key, id.ns, now) ==
        if exists i :: 0 <= i < |keys| && SameKey(keys[i], a, key, b) then None else Lookup(t, id.key, id.ns, now)
  {
    hide StripPrefix, NamespaceValue, SameKey;
    forall i | 0 <= i < |keys|
      ensures RowOf(keys[i], a) == RowOf(key, b) <==> SameKey(keys[i], a, key, b)
    {
      SameRowIff(keys[i], a, key, b);
    }
    var id, stripped := RowOf(key, b), Strip(keys, a);
    assert forall i :: 0 <= i < |keys| ==> RowOf(keys[i], a) == Id(stripped[i], NamespaceValue(a));
    assert id.ns == NamespaceValue(a) && id.key in stripped <==> exists i :: 0 <= i < |keys| && RowOf(keys[i], a) == id;
  }

  /** A key that is written is there to be deleted; nothing else makes it so. */
  lemma {:induction false} PresentAfterWrites(t: Table, entries: seq<Entry>, a: Option<string>, key: string,
      b: Option<string>)
    ensures RowOf(key, b) in Upsert(t, WritesOf(entries, a), NamespaceValue(a)) <==>
      RowOf(key, b) in t || exists i :: 0 <= i < |entries| && SameKey(entries[i].key, a, key, b)
  {
    hide StripPrefix, NamespaceValue, ExpiresOf, SameKey;
    if entries == [] {
    } else {
      var n := |entries| - 1;
      PresentAfterWrites(t, entries[..n], a, key, b);
      assert WritesOf(entries, a)[..n] == WritesOf(entries[..n], a);
      assert entries == entries[..n] + [entries[n]];
      SameRowIff(entries[n].key, a, key, b);
      assert RowOf(key, b) in Upsert(t, WritesOf(entries, a), NamespaceValue(a)) <==>
        SameKey(entries[n].key, a, key, b) || RowOf(key, b) in Upsert(t, WritesOf(entries[..n], a), NamespaceValue(a));
    }
  }

  /** Two keys set through the adapter: each `get` answers its own value, unless they are the same key. */
  method SetTwoGetBoth(db: StorelySqlite, k: string, v: string, l: string, w: string, now: int)
      returns (first: Option<string>, second: Option<string>)
    modifies db`rows
    ensures second == if Over(w, now) then None else Some(w)
    ensures first ==
      if SameKey(k, db.namespace, l, db.namespace) then second else if Over(v, now) then None else Some(v)
  {
    hide StripPrefix, NamespaceValue, ExpiresOf, SameKey;
    ghost var before, ns := db.rows, db.namespace;
    var _ := db.Set(k, v, true);
    ReadsLastWrite(before, [Entry(k, v)], ns, k, ns, now);
    ReadsLastWrite(db.rows, [Entry(l, w)], ns, k, ns, now);
    ReadsLastWrite(db.rows, [Entry(l, w)], ns, l, ns, now);
    assert SameKey(k, ns, k, ns) && SameKey(l, ns, l, ns) by { SameRowIff(k, ns, k, ns); SameRowIff(l, ns, l, ns); }
    SameRowIff(l, ns, k, ns);
    SameRowIff(k, ns, l, ns);
    OneWrite(k, v, ns);
    OneWrite(l, w, ns);
    var _ := db.Set(l, w, true);
    first := db.Get(k, now, t => t);
    ghost var read := db.rows;
    second := db.Get(l, now, t => t);
  }

  lemma {:induction false} OneWrite(k: string, v: string, ns: Option<string>)
    ensures WritesOf([Entry(k, v)], ns) == [WriteOf(Entry(k, v), ns)]
  {
  }
}
