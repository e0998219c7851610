/** The SQLite table and what each SQL statement of the adapter does to it. */
module SqliteTable {
  import opened Texts

  // ---------- the binary collation ----------

  /** Lexicographic order on keys, by code point. */
  predicate Less(a: string, b: string) {
    if b == "" then false
    else if a == "" then true
    else a[0] < b[0] || (a[0] == b[0] && Less(a[1..], b[1..]))
  }

  lemma {:induction false} LessIsTotal(a: string, b: string)
    ensures !(Less(a, b) && Less(b, a))
    ensures Less(a, b) || Less(b, a) || a == b
    ensures a == b ==> !Less(a, b)
  {
    if a == "" || b == "" || a[0] != b[0] {
    } else {
      LessIsTotal(a[1..], b[1..]);
      if a[1..] == b[1..] { assert a == [a[0]] + a[1..] && b == [b[0]] + b[1..]; }
    }
  }

  lemma {:induction false} LessIsTransitive(a: string, b: string, c: string)
    requires Less(a, b) && Less(b, c)
    ensures Less(a, c)
  {
    if a == "" || a[0] != b[0] || b[0] != c[0] {
    } else {
      LessIsTransitive(a[1..], b[1..], c[1..]);
    }
  }

  predicate IsLeast(s: set<string>, m: string) {
    m in s && forall k :: k in s ==> k == m || Less(m, k)
  }

  lemma {:induction false} HasOneLeast(s: set<string>)
    requires s != {}
    ensures exists m :: IsLeast(s, m)
    ensures forall m, m' :: IsLeast(s, m) && IsLeast(s, m') ==> m == m'
    decreases s
  {
    var m :| m in s;
    if s == {m} {
      assert IsLeast(s, m);
    } else {
      HasOneLeast(s - {m});
      var m' :| IsLeast(s - {m}, m');
      LessIsTotal(m, m');
      var least := if Less(m, m') then m else m';
      forall k | k in s
        ensures k == least || Less(least, k)
      {
        if k != m && Less(m, m') && k != m' { LessIsTransitive(m, m', k); }
      }
      assert IsLeast(s, least);
    }
    forall m, m' | IsLeast(s, m) && IsLeast(s, m')
      ensures m == m'
    {
      LessIsTotal(m, m');
    }
  }

  function Least(s: set<string>): (m: string)
    requires s != {}
    ensures IsLeast(s, m)
  {
    HasOneLeast(s);
    var m :| IsLeast(s, m);
    m
  }

  predicate Increasing(ks: seq<string>) {
    forall i, j :: 0 <= i < j < |ks| ==> Less(ks[i], ks[j])
  }

  /** The keys of a set in ascending order: `ORDER BY key`. */
  function Ascending(s: set<string>): (ks: seq<string>)
    ensures Increasing(ks)
    ensures forall k :: k in ks <==> k in s
    ensures |ks| == |s|
  {
    if s == {} then [] else [Least(s)] + Ascending(s - {Least(s)})
  }

  // ---------- rows and statements ----------

  datatype Id = Id(key: string, ns: string)

  datatype Row = Row(value: string, expires: Option<real>)

  type Table = map<Id, Row>

  predicate Dead(r: Row, now: int) {
    r.expires.Some? && r.expires.value <= now as real
  }

  /** The value a live row holds under `key` in `ns`. */
  function Lookup(t: Table, key: string, ns: string, now: int): Option<string> {
    if Id(key, ns) in t && !Dead(t[Id(key, ns)], now) then Some(t[Id(key, ns)].value) else None
  }

  /** `DELETE ... WHERE key IN (...) AND namespace = ?` */
  function DeleteIn(t: Table, keys: seq<string>, ns: string): Table {
    map id | id in t && !(id.ns == ns && id.key in keys) :: t[id]
  }

  /** `DELETE ... WHERE namespace = ?` */
  function DeleteNamespace(t: Table, ns: string): Table {
    map id | id in t && id.ns != ns :: t[id]
  }

  /** `DELETE ... WHERE expires IS NOT NULL AND expires < ?` */
  function DeleteExpired(t: Table, now: int): Table {
    map id | id in t && !(t[id].expires.Some? && t[id].expires.value < now as real) :: t[id]
  }

  /** What the lazy deletes of a read of `keys` leave: the rows asked for and found expired are gone. */
  function Sweep(t: Table, keys: seq<string>, ns: string, now: int): Table {
    map id | id in t && !(id.ns == ns && id.key in keys && Dead(t[id], now)) :: t[id]
  }

  /** What a lazy DELETE leaves of a table, when the rows asked for were found expired in the table seen before. */
  function DropDead(seen: Table, t: Table, keys: seq<string>, ns: string, now: int): Table {
    map id | id in t && !(id.ns == ns && id.key in keys && id in seen && Dead(seen[id], now)) :: t[id]
  }

  /** One row of an upsert: the key, the value and the deadline extracted from it. */
  datatype Write = Write(key: string, row: Row)

  /** `INSERT ... VALUES (...), (...) ON CONFLICT DO UPDATE`: the rows in order, later ones win. */
  function Upsert(t: Table, writes: seq<Write>, ns: string): Table {
    if writes == [] then t
    else
      var last := writes[|writes| - 1];
      Upsert(t, writes[..|writes| - 1], ns)[Id(last.key, ns) := last.row]
  }

  lemma {:induction false} UpsertAppend(t: Table, a: seq<Write>, b: seq<Write>, ns: string)
    ensures Upsert(t, a + b, ns) == Upsert(Upsert(t, a, ns), b, ns)
  {
    if b == [] {
      assert a + b == a;
    } else {
      var front := b[..|b| - 1];
      UpsertAppend(t, a, front, ns);
      assert (a + b)[..|a + b| - 1] == a + front;
    }
  }

  /** `SELECT ... WHERE namespace = ? [AND key > ?] AND (expires IS NULL OR expires > ?) ORDER BY key LIMIT ?` */
  function SelectPage(t: Table, ns: string, after: Option<string>, now: int, limit: nat): (page: seq<(string, string)>)
    ensures |page| <= limit
  {
    var ks := Ascending(LiveAfter(t, ns, after, now));
    var n := if |ks| < limit then |ks| else limit;
    seq(n, i requires 0 <= i < n =>
      assert ks[i] in LiveAfter(t, ns, after, now);
      (ks[i], t[Id(ks[i], ns)].value))
  }

  function LiveAfter(t: Table, ns: string, after: Option<string>, now: int): set<string> {
    set id | id in t && id.ns == ns && (after == None || Less(after.value, id.key)) && !Dead(t[id], now) :: id.key
  }

  /** What a page is, whatever the table: strictly increasing live keys past the cursor with their values;
      a live key past the cursor that it leaves out lies beyond its last key, and then it is full. */
  lemma {:induction false} PageSpec(t: Table, ns: string, after: Option<string>, now: int, limit: nat)
    ensures var page := SelectPage(t, ns, after, now, limit);
      && (forall i, j :: 0 <= i < j < |page| ==> Less(page[i].0, page[j].0))
      && (forall i :: 0 <= i < |page| ==> Lookup(t, page[i].0, ns, now) == Some(page[i].1))
      && (after.Some? ==> forall i :: 0 <= i < |page| ==> Less(after.value, page[i].0))
    ensures var page := SelectPage(t, ns, after, now, limit);
      forall k :: Lookup(t, k, ns, now).Some? && (after.Some? ==> Less(after.value, k)) ==>
        (exists i :: 0 <= i < |page| && page[i].0 == k) ||
        (|page| == limit && forall i :: 0 <= i < |page| ==> Less(page[i].0, k))
  {
    var live := LiveAfter(t, ns, after, now);
    var ks := Ascending(live);
    var page := SelectPage(t, ns, after, now, limit);
    forall i | 0 <= i < |page|
      ensures page[i].0 == ks[i] && ks[i] in live
    {
    }
    forall k | Lookup(t, k, ns, now).Some? && (after.Some? ==> Less(after.value, k))
      ensures (exists i :: 0 <= i < |page| && page[i].0 == k) ||
        (|page| == limit && forall i :: 0 <= i < |page| ==> Less(page[i].0, k))
    {
      assert Id(k, ns).key in live;
      assert k in ks;
      var i :| 0 <= i < |ks| && ks[i] == k;
      if i < |page| { assert page[i].0 == k; }
    }
  }
}
