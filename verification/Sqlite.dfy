/** The SQLite storage adapter: single-key and batch operations over the table. */
module Sqlite {
  import opened Texts
  import opened SqliteTable
  import J = Json

  const MAX_PARAMS := 999
  const BATCH := 998
  const WRITE_BATCH := 249

  // ---------- pure helpers ----------

  /** `removeKeyPrefix`: a key that already carries the namespace prefix is stored without it. */
  function StripPrefix(key: string, ns: Option<string>): string {
    if ns.Some? && ns.value != "" && ns.value + ":" <= key then key[|ns.value| + 1..] else key
  }

  function NamespaceValue(ns: Option<string>): string {
    if ns.Some? then ns.value else ""
  }

  function Strip(keys: seq<string>, ns: Option<string>): (r: seq<string>)
    ensures |r| == |keys|
  {
    seq(|keys|, i requires 0 <= i < |keys| => StripPrefix(keys[i], ns))
  }

  function FindMember(members: seq<J.Member>, name: string): Option<J.Json> {
    if members == [] then None
    else if members[0].name == name then Some(members[0].value)
    else FindMember(members[1..], name)
  }

  /** `getExpiresFromValue`: the number under `expires` when the text is a JSON object, else null. */
  function ExpiresOf(value: string): Option<real> {
    match J.Parse(value)
    case Some(Obj(members)) =>
      (match FindMember(members, "expires")
       case Some(Num(n)) => if J.IsNumeral(n) then Some(J.NumeralValue(n)) else None
       case _ => None)
    case _ => None
  }

  datatype Entry = Entry(key: string, value: string)

  function WriteOf(e: Entry, ns: Option<string>): Write {
    Write(StripPrefix(e.key, ns), Row(e.value, ExpiresOf(e.value)))
  }

  function WritesOf(entries: seq<Entry>, ns: Option<string>): (w: seq<Write>)
    ensures |w| == |entries|
  {
    seq(|entries|, i requires 0 <= i < |entries| => WriteOf(entries[i], ns))
  }

  /** The entries a batch write got through: those whose position succeeded, in order. */
  function Succeeded(entries: seq<Entry>, ok: seq<bool>): seq<Entry>
    requires |entries| == |ok|
  {
    if entries == [] then []
    else
      var n := |entries| - 1;
      Succeeded(entries[..n], ok[..n]) + if ok[n] then [entries[n]] else []
  }

  // ---------- what the operations do ----------

  function Answers(t: Table, keys: seq<string>, ns: string, now: int): (r: seq<Option<string>>)
    ensures |r| == |keys|
  {
    seq(|keys|, i requires 0 <= i < |keys| => Lookup(t, keys[i], ns, now))
  }

  function Presence(t: Table, keys: seq<string>, ns: string): (r: seq<bool>)
    ensures |r| == |keys|
  {
    seq(|keys|, i requires 0 <= i < |keys| => Id(keys[i], ns) in t)
  }

  function Lives(answers: seq<Option<string>>): (r: seq<bool>)
    ensures |r| == |answers|
  {
    seq(|answers|, i requires 0 <= i < |answers| => answers[i].Some?)
  }

  lemma {:induction false} KeysFit(keys: seq<string>, some: set<string>)
    requires forall k :: k in some ==> k in keys
    ensures |some| <= |keys|
    decreases keys
  {
    if keys == [] {
    } else {
      var rest := some - {keys[0]};
      forall k | k in rest
        ensures k in keys[1..]
      {
        var i :| 0 <= i < |keys| && keys[i] == k;
        assert keys[1..][i - 1] == k;
      }
      KeysFit(keys[1..], rest);
      assert |some| <= |rest| + 1;
    }
  }

  lemma {:induction false} SweepSplit(t: Table, a: seq<string>, b: seq<string>, ns: string, now: int)
    ensures Sweep(Sweep(t, a, ns, now), b, ns, now) == Sweep(t, a + b, ns, now)
  {
  }

  // ---------- batch reads among other actors ----------

  /** What other actors do to the table before the n-th statement of a call: anything. */
  type Others = (nat, Table) -> Table

  ghost predicate Alone(others: Others) {
    forall n, t :: others(n, t) == t
  }

  function Chunk(keys: seq<string>, p: nat): seq<string>
    requires p * BATCH <= |keys|
  {
    keys[p * BATCH..if |keys| - p * BATCH < BATCH then |keys| else p * BATCH + BATCH]
  }

  /** The table when the SELECT of chunk `p` runs ... */
  function SeenAt(t: Table, keys: seq<string>, ns: string, now: int, others: Others, p: nat): Table
    requires p * BATCH <= |keys|
    decreases p, 1
  {
    others(2 * p, LeftAt(t, keys, ns, now, others, p))
  }

  /** ... and what the chunks before it leave. */
  function LeftAt(t: Table, keys: seq<string>, ns: string, now: int, others: Others, p: nat): Table
    requires (p - 1) * BATCH <= |keys|
    decreases p, 0
  {
    if p == 0 then t
    else
      var seen := SeenAt(t, keys, ns, now, others, p - 1);
      DropDead(seen, others(2 * p - 1, seen), Chunk(keys, p - 1), ns, now)
  }

  /** A key's value where it is listed last, among the first `n` keys, with a live row for its chunk's SELECT. */
  function LastSeen(t: Table, keys: seq<string>, ns: string, now: int, others: Others, key: string,
      n: nat): Option<string>
    requires n <= |keys|
  {
    if n == 0 then None
    else
      var here :=
        if keys[n - 1] == key then Lookup(SeenAt(t, keys, ns, now, others, (n - 1) / BATCH), key, ns, now) else None;
      if here.Some? then here else LastSeen(t, keys, ns, now, others, key, n - 1)
  }

  function Chunks(n: nat): nat { (n + BATCH - 1) / BATCH }

  /** One chunk more. */
  lemma {:induction false} LastSeenChunk(t: Table, keys: seq<string>, ns: string, now: int, others: Others,
      key: string, p: nat, n: nat)
    requires p * BATCH <= n <= |keys| && n <= p * BATCH + BATCH
    ensures var here := Lookup(SeenAt(t, keys, ns, now, others, p), key, ns, now);
      LastSeen(t, keys, ns, now, others, key, n) ==
        if key in keys[p * BATCH..n] && here.Some? then here else LastSeen(t, keys, ns, now, others, key, p * BATCH)
    decreases n
  {
    hide Lookup, SeenAt;
    if n == p * BATCH {
    } else {
      LastSeenChunk(t, keys, ns, now, others, key, p, n - 1);
      assert (n - 1) / BATCH == p;
      assert keys[p * BATCH..n] == keys[p * BATCH..n - 1] + [keys[n - 1]];
    }
  }

  lemma {:induction false} AloneLeft(t: Table, keys: seq<string>, ns: string, now: int, others: Others, p: nat)
    requires Alone(others) && (p - 1) * BATCH <= |keys|
    ensures LeftAt(t, keys, ns, now, others, p) ==
      Sweep(t, keys[..if p * BATCH <= |keys| then p * BATCH else |keys|], ns, now)
  {
    if p == 0 {
      assert Sweep(t, [], ns, now) == t;
    } else {
      AloneLeft(t, keys, ns, now, others, p - 1);
      var start, chunk := (p - 1) * BATCH, Chunk(keys, p - 1);
      var u := Sweep(t, keys[..start], ns, now);
      SweepSplit(t, keys[..start], chunk, ns, now);
      assert keys[..start] + chunk == keys[..start + |chunk|];
      assert DropDead(u, u, chunk, ns, now) == Sweep(u, chunk, ns, now);
    }
  }

  /** With nobody else at work the answers are those of the starting table. */
  lemma {:induction false} AloneSeen(t: Table, keys: seq<string>, ns: string, now: int, others: Others, key: string,
      n: nat)
    requires Alone(others) && n <= |keys|
    ensures LastSeen(t, keys, ns, now, others, key, n) == if key in keys[..n] then Lookup(t, key, ns, now) else None
  {
    hide SeenAt;
    if n == 0 {
    } else {
      AloneSeen(t, keys, ns, now, others, key, n - 1);
      assert keys[..n] == keys[..n - 1] + [keys[n - 1]];
      var p := (n - 1) / BATCH;
      assert p * BATCH <= n - 1;
      SeenAlone(t, keys, ns, now, others, p);
    }
  }

  lemma {:induction false} SeenAlone(t: Table, keys: seq<string>, ns: string, now: int, others: Others, p: nat)
    requires Alone(others) && p * BATCH <= |keys|
    ensures SeenAt(t, keys, ns, now, others, p) == Sweep(t, keys[..p * BATCH], ns, now)
  {
    hide LeftAt;
    AloneLeft(t, keys, ns, now, others, p);
  }

  lemma {:induction false} NothingSeen(t: Table, keys: seq<string>, ns: string, now: int, others: Others)
    ensures Chunks(0) == 0 && LeftAt(t, keys, ns, now, others, 0) == t
    ensures forall k {:trigger LastSeen(t, keys, ns, now, others, k, 0)} ::
      LastSeen(t, keys, ns, now, others, k, 0) == None
  {
  }

  /** What a batch read does with its next chunk. */
  lemma {:induction false} NextChunk(t: Table, keys: seq<string>, ns: string, now: int, others: Others, p: nat,
      next: nat)
    requires p * BATCH < |keys|
    requires next == if p * BATCH + BATCH < |keys| then p * BATCH + BATCH else |keys|
    ensures Chunks(next) == p + 1
    ensures var seen, batch := SeenAt(t, keys, ns, now, others, p), keys[p * BATCH..next];
      && seen == others(2 * p, LeftAt(t, keys, ns, now, others, p))
      && LeftAt(t, keys, ns, now, others, p + 1) == DropDead(seen, others(2 * p + 1, seen), batch, ns, now)
      && forall k {:trigger LastSeen(t, keys, ns, now, others, k, next)} ::
           LastSeen(t, keys, ns, now, others, k, next) ==
             if k in batch && Lookup(seen, k, ns, now).Some? then Lookup(seen, k, ns, now)
             else LastSeen(t, keys, ns, now, others, k, p * BATCH)
  {
    hide Lookup, DropDead, LastSeen;
    forall k
      ensures var seen := SeenAt(t, keys, ns, now, others, p);
        LastSeen(t, keys, ns, now, others, k, next) ==
          if k in keys[p * BATCH..next] && Lookup(seen, k, ns, now).Some? then Lookup(seen, k, ns, now)
          else LastSeen(t, keys, ns, now, others, k, p * BATCH)
    {
      LastSeenChunk(t, keys, ns, now, others, k, p, next);
    }
  }

  lemma {:induction false} AloneMany(t: Table, keys: seq<string>, ns: string, now: int, others: Others)
    requires Alone(others)
    ensures LeftAt(t, keys, ns, now, others, Chunks(|keys|)) == Sweep(t, keys, ns, now)
    ensures forall m :: 0 <= m < |keys| ==>
      LastSeen(t, keys, ns, now, others, keys[m], |keys|) == Answers(t, keys, ns, now)[m]
  {
    hide LeftAt, LastSeen, Lookup, Sweep, Alone;
    assert keys[..|keys|] == keys;
    AloneLeft(t, keys, ns, now, others, Chunks(|keys|));
    forall m | 0 <= m < |keys|
      ensures LastSeen(t, keys, ns, now, others, keys[m], |keys|) == Answers(t, keys, ns, now)[m]
    {
      AloneSeen(t, keys, ns, now, others, keys[m], |keys|);
    }
  }

  /** Deleting exactly the expired ones among the keys read. */
  lemma {:induction false} DeleteExpiredKeysIsDrop(seen: Table, t: Table, batch: seq<string>, expired: seq<string>,
      ns: string, now: int)
    requires forall k :: k in expired <==> k in batch && Id(k, ns) in seen && Dead(seen[Id(k, ns)], now)
    ensures DeleteIn(t, expired, ns) == DropDead(seen, t, batch, ns, now)
  {
  }

  // ---------- batch deletes among other actors ----------

  /** The table when the SELECT of chunk `p` of a batch delete runs ... */
  function FoundAt(t: Table, keys: seq<string>, ns: string, others: Others, p: nat): Table
    requires p * BATCH <= |keys|
    decreases p, 1
  {
    others(2 * p, DeletedAt(t, keys, ns, others, p))
  }

  /** ... and what the DELETEs of the chunks before it leave. */
  function DeletedAt(t: Table, keys: seq<string>, ns: string, others: Others, p: nat): Table
    requires (p - 1) * BATCH <= |keys|
    decreases p, 0
  {
    if p == 0 then t
    else DeleteIn(others(2 * p - 1, FoundAt(t, keys, ns, others, p - 1)), Chunk(keys, p - 1), ns)
  }

  /** Chunk `p` lists the key and its SELECT finds it. */
  predicate Finds(t: Table, keys: seq<string>, ns: string, others: Others, p: nat, key: string) {
    p * BATCH < |keys| && key in Chunk(keys, p) && Id(key, ns) in FoundAt(t, keys, ns, others, p)
  }

  lemma {:induction false} NoChunks(t: Table, keys: seq<string>, ns: string, others: Others)
    ensures Chunks(0) == 0 && DeletedAt(t, keys, ns, others, 0) == t
  {
  }

  /** What a batch delete does with its next chunk. */
  lemma {:induction false} NextDeleted(t: Table, keys: seq<string>, ns: string, others: Others, p: nat, next: nat)
    requires p * BATCH < |keys|
    requires next == if p * BATCH + BATCH < |keys| then p * BATCH + BATCH else |keys|
    ensures Chunks(next) == p + 1
    ensures var found, batch := FoundAt(t, keys, ns, others, p), keys[p * BATCH..next];
      && found == others(2 * p, DeletedAt(t, keys, ns, others, p))
      && DeletedAt(t, keys, ns, others, p + 1) == DeleteIn(others(2 * p + 1, found), batch, ns)
      && forall k :: Finds(t, keys, ns, others, p, k) <==> k in batch && Id(k, ns) in found
  {
  }

  lemma {:induction false} AloneDeleted(t: Table, keys: seq<string>, ns: string, others: Others, p: nat)
    requires Alone(others) && (p - 1) * BATCH <= |keys|
    ensures DeletedAt(t, keys, ns, others, p) ==
      DeleteIn(t, keys[..if p * BATCH <= |keys| then p * BATCH else |keys|], ns)
  {
    if p == 0 {
      assert DeleteIn(t, [], ns) == t;
    } else {
      AloneDeleted(t, keys, ns, others, p - 1);
      var start, chunk := (p - 1) * BATCH, Chunk(keys, p - 1);
      assert keys[..start] + chunk == keys[..start + |chunk|];
    }
  }

  /** With nobody else at work the chunks find what the starting table holds. */
  lemma {:induction false} AloneFinds(t: Table, keys: seq<string>, ns: string, others: Others, key: string, p: nat)
    requires Alone(others) && (p - 1) * BATCH <= |keys|
    ensures (exists q: nat :: q < p && Finds(t, keys, ns, others, q, key)) <==>
      key in keys[..if p * BATCH <= |keys| then p * BATCH else |keys|] && Id(key, ns) in t
  {
    hide Finds;
    if p == 0 {
    } else {
      AloneFinds(t, keys, ns, others, key, p - 1);
      var start := (p - 1) * BATCH;
      var next := if start + BATCH <= |keys| then start + BATCH else |keys|;
      assert keys[..next] == keys[..start] + keys[start..next];
      FindsAlone(t, keys, ns, others, key, p - 1, next);
    }
  }

  lemma {:induction false} FindsAlone(t: Table, keys: seq<string>, ns: string, others: Others, key: string, p: nat,
      next: nat)
    requires Alone(others) && p * BATCH <= |keys|
    requires next == if p * BATCH + BATCH <= |keys| then p * BATCH + BATCH else |keys|
    ensures Finds(t, keys, ns, others, p, key) <==>
      key in keys[p * BATCH..next] && Id(key, ns) in t && key !in keys[..p * BATCH]
  {
    hide DeletedAt;
    AloneDeleted(t, keys, ns, others, p);
  }

  lemma {:induction false} AloneDeleteMany(t: Table, keys: seq<string>, ns: string, others: Others)
    requires Alone(others)
    ensures DeletedAt(t, keys, ns, others, Chunks(|keys|)) == DeleteIn(t, keys, ns)
    ensures forall m :: 0 <= m < |keys| ==>
      ((exists p: nat :: Finds(t, keys, ns, others, p, keys[m])) <==> Presence(t, keys, ns)[m])
  {
    hide DeletedAt, Finds, Alone;
    assert keys[..|keys|] == keys;
    AloneDeleted(t, keys, ns, others, Chunks(|keys|));
    forall m | 0 <= m < |keys|
      ensures (exists p: nat :: Finds(t, keys, ns, others, p, keys[m])) <==> Presence(t, keys, ns)[m]
    {
      AloneFinds(t, keys, ns, others, keys[m], Chunks(|keys|));
      FindsEarly(t, keys, ns, others, keys[m]);
    }
  }

  lemma {:induction false} FindsEarly(t: Table, keys: seq<string>, ns: string, others: Others, key: string)
    ensures forall p: nat :: Finds(t, keys, ns, others, p, key) ==> p < Chunks(|keys|)
  {
    hide FoundAt;
  }

  /** At an input: a row that another actor writes between the SELECT and the DELETE is gone and reported false. */
  lemma {:induction false} DeleteTakesUnseen(row: Row)
    ensures var id := Id("k", "");
      var others: Others := (n, t: Table) => if n == 1 then t[id := row] else t;
      && others(1, FoundAt(map[], ["k"], "", others, 0)) == map[id := row]
      && DeletedAt(map[], ["k"], "", others, 1) == map[]
      && forall p: nat :: !Finds(map[], ["k"], "", others, p, "k")
  {
    var id := Id("k", "");
    var others: Others := (n, t: Table) => if n == 1 then t[id := row] else t;
    assert Chunk(["k"], 0) == ["k"];
    assert FoundAt(map[], ["k"], "", others, 0) == map[];
  }

  class StorelySqlite {
    var rows: Table
    var namespace: Option<string>

    constructor (namespace: Option<string>)
      ensures rows == map[] && this.namespace == namespace
    {
      rows := map[];
      this.namespace := namespace;
    }

    // ---------- statements; each one demands that its parameters fit ----------

    /** `SELECT ... WHERE key IN (...) AND namespace = ?`, in some order. */
    method SelectIn(keys: seq<string>, ns: string) returns (found: seq<string>)
      requires |keys| + 1 <= MAX_PARAMS
      ensures forall k :: k in found <==> k in keys && Id(k, ns) in rows
      ensures |found| <= |keys|
    {
      var present := set k | k in keys && Id(k, ns) in rows;
      KeysFit(keys, present);
      found := Ascending(present);
    }

    method DeleteRows(keys: seq<string>, ns: string)
      requires |keys| + 1 <= MAX_PARAMS
      modifies this`rows
      ensures rows == DeleteIn(old(rows), keys, ns)
    {
      rows := DeleteIn(rows, keys, ns);
    }

    /** The multi-row upsert, four parameters a row; a failed statement changes nothing. */
    method UpsertRows(writes: seq<Write>, ns: string, succeeds: bool)
      requires 4 * |writes| <= MAX_PARAMS
      modifies this`rows
      ensures rows == if succeeds then Upsert(old(rows), writes, ns) else old(rows)
    {
      if succeeds { rows := Upsert(rows, writes, ns); }
    }

    // ---------- single keys ----------

    /** `get`; `between` is what other actors do between its SELECT and its DELETE. */
    method Get(key: string, now: int, between: Table -> Table) returns (value: Option<string>)
      modifies this`rows
      ensures value == Lookup(old(rows), StripPrefix(key, namespace), NamespaceValue(namespace), now)
      ensures rows ==
        DropDead(old(rows), between(old(rows)), [StripPrefix(key, namespace)], NamespaceValue(namespace), now)
      ensures between(old(rows)) == old(rows) ==>
        rows == Sweep(old(rows), [StripPrefix(key, namespace)], NamespaceValue(namespace), now)
    {
      var stripped := StripPrefix(key, namespace);
      var ns := NamespaceValue(namespace);
      ghost var seen := rows;
      var row := if Id(stripped, ns) in rows then Some(rows[Id(stripped, ns)]) else None;
      rows := between(rows);
      if row == None {
        assert DropDead(seen, rows, [stripped], ns, now) == rows;
        return None;
      }
      if Dead(row.value, now) {
        DeleteExpiredKeysIsDrop(seen, rows, [stripped], [stripped], ns, now);
        DeleteRows([stripped], ns);
        return None;
      }
      assert DropDead(seen, rows, [stripped], ns, now) == rows;
      value := Some(row.value.value);
    }

    method Has(key: string, now: int, between: Table -> Table) returns (found: bool)
      modifies this`rows
      ensures found == Lookup(old(rows), StripPrefix(key, namespace), NamespaceValue(namespace), now).Some?
      ensures rows ==
        DropDead(old(rows), between(old(rows)), [StripPrefix(key, namespace)], NamespaceValue(namespace), now)
      ensures between(old(rows)) == old(rows) ==>
        rows == Sweep(old(rows), [StripPrefix(key, namespace)], NamespaceValue(namespace), now)
    {
      var stripped := StripPrefix(key, namespace);
      var ns := NamespaceValue(namespace);
      ghost var seen := rows;
      var row := if Id(stripped, ns) in rows then Some(rows[Id(stripped, ns)]) else None;
      rows := between(rows);
      if row == None {
        assert DropDead(seen, rows, [stripped], ns, now) == rows;
        return false;
      }
      if Dead(row.value, now) {
        DeleteExpiredKeysIsDrop(seen, rows, [stripped], [stripped], ns, now);
        DeleteRows([stripped], ns);
        return false;
      }
      assert DropDead(seen, rows, [stripped], ns, now) == rows;
      found := true;
    }

    method Set(key: string, value: string, succeeds: bool) returns (ok: bool)
      modifies this`rows
      ensures ok == succeeds
      ensures rows ==
        if succeeds then Upsert(old(rows), [WriteOf(Entry(key, value), namespace)], NamespaceValue(namespace))
        else old(rows)
    {
      UpsertRows([WriteOf(Entry(key, value), namespace)], NamespaceValue(namespace), succeeds);
      ok := succeeds;
    }

    method Delete(key: string) returns (deleted: bool)
      modifies this`rows
      ensures deleted == (Id(StripPrefix(key, namespace), NamespaceValue(namespace)) in old(rows))
      ensures rows == DeleteIn(old(rows), [StripPrefix(key, namespace)], NamespaceValue(namespace))
    {
      var stripped := StripPrefix(key, namespace);
      deleted := Id(stripped, NamespaceValue(namespace)) in rows;
      DeleteRows([stripped], NamespaceValue(namespace));
    }

    method Clear()
      modifies this`rows
      ensures rows == DeleteNamespace(old(rows), NamespaceValue(namespace))
      ensures forall id :: id in rows <==> id in old(rows) && id.ns != NamespaceValue(namespace)
      ensures forall key, now :: Lookup(rows, key, NamespaceValue(namespace), now) == None
      ensures forall key, ns, now :: ns != NamespaceValue(namespace) ==>
        Lookup(rows, key, ns, now) == Lookup(old(rows), key, ns, now)
    {
      rows := DeleteNamespace(rows, NamespaceValue(namespace));
    }

    method ClearExpired(now: int)
      modifies this`rows
      ensures rows == DeleteExpired(old(rows), now)
      ensures forall id :: id in rows ==>
        id in old(rows) && (rows[id].expires.Some? ==> rows[id].expires.value >= now as real)
      ensures forall key, ns, later :: later >= now ==>
        Lookup(rows, key, ns, later) == Lookup(old(rows), key, ns, later)
    {
      rows := DeleteExpired(rows, now);
    }

    // ---------- batches ----------

    /** One chunk of a batch read: the live rows found, and after what others do the DELETE of the expired ones. */
    method ReadChunk(batch: seq<string>, ns: string, now: int, between: Table -> Table)
        returns (live: map<string, string>)
      requires |batch| + 1 <= MAX_PARAMS
      modifies this`rows
      ensures live == map k | k in batch && Lookup(old(rows), k, ns, now).Some? :: Lookup(old(rows), k, ns, now).value
      ensures rows == DropDead(old(rows), between(old(rows)), batch, ns, now)
    {
      var found := SelectIn(batch, ns);
      var expired: seq<string> := [];
      live := map[];
      for j := 0 to |found|
        invariant |expired| <= j
        invariant forall k :: k in expired <==> k in found[..j] && Dead(rows[Id(k, ns)], now)
        invariant live == map k | k in found[..j] && Lookup(rows, k, ns, now).Some? :: Lookup(rows, k, ns, now).value
      {
        var key := found[j];
        assert found[..j + 1] == found[..j] + [key];
        if Dead(rows[Id(key, ns)], now) {
          expired := expired + [key];
        } else {
          live := live[key := rows[Id(key, ns)].value];
        }
      }
      assert found[..|found|] == found;
      ghost var seen := rows;
      rows := between(rows);
      DeleteExpiredKeysIsDrop(seen, rows, batch, expired, ns, now);
      if |expired| > 0 {
        DeleteRows(expired, ns);
      } else {
        assert DeleteIn(rows, expired, ns) == rows;
      }
    }

    /** `getMany` among other actors: each key's value where it is last seen live; the expired rows seen are deleted. */
    method GetMany(keys: seq<string>, now: int, others: Others) returns (values: seq<Option<string>>)
      modifies this`rows
      ensures var stripped, ns := Strip(keys, namespace), NamespaceValue(namespace);
        && |values| == |keys|
        && (forall m :: 0 <= m < |keys| ==>
              values[m] == LastSeen(old(rows), stripped, ns, now, others, stripped[m], |keys|))
        && rows == LeftAt(old(rows), stripped, ns, now, others, Chunks(|keys|))
        && (Alone(others) ==>
              values == Answers(old(rows), stripped, ns, now) && rows == Sweep(old(rows), stripped, ns, now))
    {
      hide SeenAt, LastSeen, Lookup, Alone, Chunk, Chunks, Sweep, DropDead;
      var stripped := Strip(keys, namespace);
      var ns := NamespaceValue(namespace);
      var validMap: map<string, string> := map[];
      var i, p := 0, 0;
      NothingSeen(rows, stripped, ns, now, others);
      while i < |stripped|
        invariant 0 <= i <= |stripped| && p == Chunks(i)
        invariant i < |stripped| ==> i == p * BATCH
        invariant (p - 1) * BATCH <= |stripped|
        invariant rows == LeftAt(old(rows), stripped, ns, now, others, p)
        invariant forall k ::
          (if k in validMap then Some(validMap[k]) else None) == LastSeen(old(rows), stripped, ns, now, others, k, i)
        decreases |stripped| - i
      {
        var next := if i + BATCH < |stripped| then i + BATCH else |stripped|;
        var batch := stripped[i..next];
        NextChunk(old(rows), stripped, ns, now, others, p, next);
        rows := others(2 * p, rows);
        var gap := 2 * p + 1;
        var live := ReadChunk(batch, ns, now, t => others(gap, t));
        validMap := validMap + live;
        i, p := next, p + 1;
      }
      values := seq(|stripped|, m requires 0 <= m < |stripped| =>
        if stripped[m] in validMap then Some(validMap[stripped[m]]) else None);
      if Alone(others) { AloneMany(old(rows), stripped, ns, now, others); }
    }

    /** `hasMany` among other actors. */
    method HasMany(keys: seq<string>, now: int, others: Others) returns (found: seq<bool>)
      modifies this`rows
      ensures var stripped, ns := Strip(keys, namespace), NamespaceValue(namespace);
        && |found| == |keys|
        && (forall m :: 0 <= m < |keys| ==>
              found[m] == LastSeen(old(rows), stripped, ns, now, others, stripped[m], |keys|).Some?)
        && rows == LeftAt(old(rows), stripped, ns, now, others, Chunks(|keys|))
        && (Alone(others) ==>
              found == Lives(Answers(old(rows), stripped, ns, now)) && rows == Sweep(old(rows), stripped, ns, now))
    {
      hide SeenAt, LastSeen, Lookup, Alone, Chunk, Chunks, Sweep, DropDead;
      var stripped := Strip(keys, namespace);
      var ns := NamespaceValue(namespace);
      var validKeys: set<string> := {};
      var i, p := 0, 0;
      NothingSeen(rows, stripped, ns, now, others);
      while i < |stripped|
        invariant 0 <= i <= |stripped| && p == Chunks(i)
        invariant i < |stripped| ==> i == p * BATCH
        invariant (p - 1) * BATCH <= |stripped|
        invariant rows == LeftAt(old(rows), stripped, ns, now, others, p)
        invariant forall k :: k in validKeys <==> LastSeen(old(rows), stripped, ns, now, others, k, i).Some?
        decreases |stripped| - i
      {
        var next := if i + BATCH < |stripped| then i + BATCH else |stripped|;
        var batch := stripped[i..next];
        NextChunk(old(rows), stripped, ns, now, others, p, next);
        rows := others(2 * p, rows);
        var gap := 2 * p + 1;
        var live := ReadChunk(batch, ns, now, t => others(gap, t));
        validKeys := validKeys + live.Keys;
        i, p := next, p + 1;
      }
      found := seq(|stripped|, m requires 0 <= m < |stripped| => stripped[m] in validKeys);
      if Alone(others) { AloneMany(old(rows), stripped, ns, now, others); }
    }

    /** `deleteMany` among other actors: true exactly for the keys that the SELECT of some chunk found. */
    method DeleteMany(keys: seq<string>, others: Others) returns (deleted: seq<bool>)
      modifies this`rows
      ensures var stripped, ns := Strip(keys, namespace), NamespaceValue(namespace);
        && |deleted| == |keys|
        && (forall m :: 0 <= m < |keys| ==>
              (deleted[m] <==> exists p: nat :: Finds(old(rows), stripped, ns, others, p, stripped[m])))
        && rows == DeletedAt(old(rows), stripped, ns, others, Chunks(|keys|))
        && (Alone(others) ==> deleted == Presence(old(rows), stripped, ns) && rows == DeleteIn(old(rows), stripped, ns))
    {
      hide FoundAt, DeletedAt, Finds, Alone, Chunk, Chunks, DeleteIn;
      var stripped := Strip(keys, namespace);
      var ns := NamespaceValue(namespace);
      NoChunks(rows, stripped, ns, others);
      var existed: set<string> := {};
      var i, p := 0, 0;
      while i < |stripped|
        invariant 0 <= i <= |stripped| && p == Chunks(i)
        invariant i < |stripped| ==> i == p * BATCH
        invariant (p - 1) * BATCH <= |stripped|
        invariant rows == DeletedAt(old(rows), stripped, ns, others, p)
        invariant forall k :: k in existed <==> exists q: nat :: q < p && Finds(old(rows), stripped, ns, others, q, k)
        decreases |stripped| - i
      {
        var next := if i + BATCH < |stripped| then i + BATCH else |stripped|;
        var batch := stripped[i..next];
        NextDeleted(old(rows), stripped, ns, others, p, next);
        rows := others(2 * p, rows);
        var present := SelectIn(batch, ns);
        existed := existed + set k | k in present;
        rows := others(2 * p + 1, rows);
        DeleteRows(batch, ns);
        i, p := next, p + 1;
      }
      deleted := seq(|stripped|, m requires 0 <= m < |stripped| => stripped[m] in existed);
      forall k
        ensures k in existed <==> exists q: nat :: Finds(old(rows), stripped, ns, others, q, k)
      {
        FindsEarly(old(rows), stripped, ns, others, k);
      }
      if Alone(others) { AloneDeleteMany(old(rows), stripped, ns, others); }
    }

    /** `succeeds(c)` says whether the statement of chunk `c` goes through. */
    method SetMany(entries: seq<Entry>, succeeds: nat -> bool) returns (results: seq<bool>)
      modifies this`rows
      ensures results == Outcomes(|entries|, succeeds)
      ensures rows == Upsert(old(rows), WritesOf(Succeeded(entries, results), namespace), NamespaceValue(namespace))
    {
      hide WriteOf, ExpiresOf, StripPrefix, WritesOf, Upsert, Succeeded, Outcomes;
      var ns := NamespaceValue(namespace);
      results := seq(|entries|, _ => false);
      var i := 0;
      var chunk := 0;
      NoWrites(rows, namespace, succeeds);
      while i < |entries|
        invariant 0 <= i <= |entries|
        invariant i == |entries| || i == chunk * WRITE_BATCH
        invariant results == Outcomes(i, succeeds) + seq(|entries| - i, _ => false)
        invariant rows == Upsert(old(rows), WritesOf(Succeeded(entries[..i], Outcomes(i, succeeds)), namespace), ns)
        decreases |entries| - i
      {
        var next := if i + WRITE_BATCH < |entries| then i + WRITE_BATCH else |entries|;
        var ok := succeeds(chunk);
        UpsertRows(WritesOf(entries[i..next], namespace), ns, ok);
        if ok {
          results := results[..i] + seq(next - i, _ => true) + results[next..];
        }
        OutcomesChunk(i, next, chunk, succeeds);
        assert results == Outcomes(next, succeeds) + seq(|entries| - next, _ => false);
        ChunkWritten(old(rows), entries[..i], entries[i..next], Outcomes(i, succeeds), ok, namespace);
        assert entries[..next] == entries[..i] + entries[i..next];
        i := next;
        chunk := chunk + 1;
      }
      assert entries[..|entries|] == entries && results == Outcomes(|entries|, succeeds);
    }
  }

  /** A position succeeds when the statement of its chunk does. */
  function Outcomes(n: nat, succeeds: nat -> bool): (r: seq<bool>)
    ensures |r| == n
  {
    seq(n, m requires 0 <= m < n => succeeds(m / WRITE_BATCH))
  }

  lemma {:induction false} OutcomesChunk(i: nat, next: nat, chunk: nat, succeeds: nat -> bool)
    requires i == chunk * WRITE_BATCH && i <= next <= i + WRITE_BATCH
    ensures Outcomes(next, succeeds) == Outcomes(i, succeeds) + seq(next - i, _ => succeeds(chunk))
  {
    forall m | i <= m < next
      ensures m / WRITE_BATCH == chunk
    {
      assert m == chunk * WRITE_BATCH + (m - i);
    }
  }

  lemma {:induction false} NoWrites(t: Table, ns: Option<string>, succeeds: nat -> bool)
    ensures Outcomes(0, succeeds) == []
    ensures Upsert(t, WritesOf(Succeeded([], []), ns), NamespaceValue(ns)) == t
  {
  }

  lemma {:induction false} SucceededChunk(a: seq<Entry>, x: seq<bool>, b: seq<Entry>, y: seq<bool>, ok: bool)
    requires |a| == |x| && |b| == |y| && forall m :: 0 <= m < |y| ==> y[m] == ok
    ensures Succeeded(a + b, x + y) == Succeeded(a, x) + if ok then b else []
    decreases b
  {
    if b == [] {
      assert a + b == a && x + y == x;
    } else {
      var n := |b| - 1;
      SucceededChunk(a, x, b[..n], y[..n], ok);
      assert (a + b)[..|a| + n] == a + b[..n] && (x + y)[..|a| + n] == x + y[..n];
      assert b == b[..n] + [b[n]];
    }
  }

  /** One more chunk after the writes of the earlier ones. */
  lemma {:induction false} ChunkWritten(t: Table, earlier: seq<Entry>, batch: seq<Entry>, done: seq<bool>, ok: bool,
      ns: Option<string>)
    requires |earlier| == |done|
    ensures var outcome := seq(|batch|, _ => ok);
      var table := Upsert(t, WritesOf(Succeeded(earlier, done), ns), NamespaceValue(ns));
      Upsert(t, WritesOf(Succeeded(earlier + batch, done + outcome), ns), NamespaceValue(ns)) ==
        if ok then Upsert(table, WritesOf(batch, ns), NamespaceValue(ns)) else table
  {
    hide WriteOf, Upsert, Succeeded, StripPrefix;
    SucceededChunk(earlier, done, batch, seq(|batch|, _ => ok), ok);
    var kept := Succeeded(earlier, done);
    if ok {
      assert WritesOf(kept + batch, ns) == WritesOf(kept, ns) + WritesOf(batch, ns);
      UpsertAppend(t, WritesOf(kept, ns), WritesOf(batch, ns), NamespaceValue(ns));
    } else {
      assert kept + [] == kept;
    }
  }
}
