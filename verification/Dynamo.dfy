/** The DynamoDB adapter: deadlines in whole seconds, and batch reads that ask again for what the server left
    unanswered. */
module Dynamo {
  import opened Texts
  import opened KeyFormat

  datatype Item<V> = Item(value: Option<V>, expiresAt: Option<int>)

  type Table<V> = map<string, Item<V>>

  /** One answer to a batch read of pending ids: those answered, in the server's order, and those left. */
  datatype Response = Rejected | Answered(ids: seq<string>, rest: seq<string>)

  /** Any server, asked the n-th time, that answers something whenever it does not reject. */
  type Server = (nat, seq<string>) -> Response

  ghost predicate Progresses(server: Server) {
    forall n: nat, pending: seq<string> :: pending != [] && server(n, pending).Answered? ==>
      server(n, pending).ids != [] &&
        multiset(server(n, pending).ids) + multiset(server(n, pending).rest) == multiset(pending)
  }

  ghost predicate NeverRejects(server: Server) {
    forall n: nat, pending: seq<string> :: server(n, pending).Answered?
  }

  /** Asking for one chunk until nothing is left: the number of calls made so far, if none was rejected. */
  ghost function ChunkAnswered(server: Server, calls: nat, pending: seq<string>): Option<nat>
    requires Progresses(server)
    decreases |pending|
  {
    if pending == [] then Some(calls)
    else
      match server(calls, pending)
      case Rejected => None
      case Answered(ids, rest) =>
        SplitCovers(pending, ids, rest);
        ChunkAnswered(server, calls + 1, rest)
  }

  const CHUNK := 100

  /** All chunks, a hundred ids each. */
  ghost function AllAnswered(server: Server, calls: nat, ids: seq<string>): Option<nat>
    requires Progresses(server)
    decreases |ids|
  {
    if ids == [] then Some(calls)
    else
      var n := if |ids| < CHUNK then |ids| else CHUNK;
      match ChunkAnswered(server, calls, ids[..n])
      case None => None
      case Some(more) => AllAnswered(server, more, ids[n..])
  }

  lemma {:induction false} ChunkIsAnswered(server: Server, calls: nat, pending: seq<string>)
    requires Progresses(server) && NeverRejects(server)
    ensures ChunkAnswered(server, calls, pending).Some?
    decreases |pending|
  {
    if pending == [] {
    } else {
      SplitCovers(pending, server(calls, pending).ids, server(calls, pending).rest);
      ChunkIsAnswered(server, calls + 1, server(calls, pending).rest);
    }
  }

  /** A server that rejects nothing and always answers something answers everything in the end. */
  lemma {:induction false} EverythingIsAnswered(server: Server, calls: nat, ids: seq<string>)
    requires Progresses(server) && NeverRejects(server)
    ensures AllAnswered(server, calls, ids).Some?
    decreases |ids|
  {
    if ids == [] {
    } else {
      var n := if |ids| < CHUNK then |ids| else CHUNK;
      ChunkIsAnswered(server, calls, ids[..n]);
      EverythingIsAnswered(server, ChunkAnswered(server, calls, ids[..n]).value, ids[n..]);
    }
  }

  // ---------- deadlines ----------

  function ExpiresAt(now: int, ttl: real): int {
    ((now as real + (ttl + 1000.0)) / 1000.0).Floor
  }

  predicate Expired<V>(item: Item<V>, now: int) {
    item.expiresAt.Some? && item.expiresAt.value - 1 <= now / 1000
  }

  /** A row counts as expired from its deadline rounded down to a whole second: never after the deadline, and
      less than a second before it. The server's own expiry, at `expiresAt` seconds, comes after the deadline. */
  lemma {:induction false} ExpiredFromWholeSecond<V>(value: Option<V>, now: int, ttl: real, t: int)
    ensures var item := Item(value, Some(ExpiresAt(now, ttl)));
      var deadline := now as real + ttl;
      && (Expired(item, t) <==> t >= (deadline / 1000.0).Floor * 1000)
      && (t as real >= deadline ==> Expired(item, t))
      && (Expired(item, t) ==> t as real > deadline - 1000.0)
      && deadline < (item.expiresAt.value * 1000) as real <= deadline + 1000.0
  {
    var seconds := (now as real + ttl) / 1000.0;
    assert (now as real + (ttl + 1000.0)) / 1000.0 == seconds + 1.0;
    assert ExpiresAt(now, ttl) == seconds.Floor + 1;
    assert seconds.Floor <= t / 1000 <==> t >= seconds.Floor * 1000;
  }

  /** So a TTL below a second may be over at once: exactly when no whole second falls into it. */
  lemma {:induction false} DeadOnArrivalIff<V>(value: Option<V>, now: int, ttl: real)
    ensures Expired(Item(value, Some(ExpiresAt(now, ttl))), now) <==>
      !exists second: int :: now < second * 1000 && (second * 1000) as real <= now as real + ttl
    ensures ttl >= 1000.0 ==> !Expired(Item(value, Some(ExpiresAt(now, ttl))), now)
  {
    ExpiredFromWholeSecond(value, now, ttl, now);
    var last := ((now as real + ttl) / 1000.0).Floor;
    assert (last * 1000) as real <= now as real + ttl;
    forall second: int | now < second * 1000 && (second * 1000) as real <= now as real + ttl
      ensures second <= last
    {
    }
  }

  /** At an input: half a second, given 100 ms after a whole one, is over at once. */
  lemma {:induction false} HalfSecondIsOver<V>(value: Option<V>)
    ensures ExpiresAt(1100, 500.0) == 2 && Expired(Item(value, Some(ExpiresAt(1100, 500.0))), 1100)
  {
    assert (1100.0 + (500.0 + 1000.0)) / 1000.0 == 2.6;
  }

  // ---------- what a read answers ----------

  function Answer<V>(table: Table<V>, id: string, now: int): Option<V> {
    if id in table && !Expired(table[id], now) then table[id].value else None
  }

  /** `get` and `has` delete the row they find expired. */
  function Swept<V>(table: Table<V>, id: string, now: int): Table<V> {
    if id in table && Expired(table[id], now) then table - {id} else table
  }

  predicate ExpiredRow<V>(table: Table<V>, id: string, now: int) {
    id in table && Expired(table[id], now)
  }

  /** `hasMany` looks at the value first and leaves expired rows without one alone. */
  predicate ExpiredValue<V>(table: Table<V>, id: string, now: int) {
    ExpiredRow(table, id, now) && table[id].value.Some?
  }

  /** Deleting any rows expired at one moment changes no later answer. */
  lemma {:induction false} DeletingExpiredIsInvisible<V>(table: Table<V>, gone: set<string>, now: int, id: string,
      t: int)
    requires now <= t && forall i :: i in gone && i in table ==> Expired(table[i], now)
    ensures Answer(table - gone, id, t) == Answer(table, id, t)
  {
    assert now / 1000 <= t / 1000;
  }

  /** Single reads one after the other. */
  function GetsInTurn<V>(table: Table<V>, ids: seq<string>, now: int): (Table<V>, seq<Option<V>>) {
    if ids == [] then (table, [])
    else
      var n := |ids| - 1;
      var (before, values) := GetsInTurn(table, ids[..n], now);
      (Swept(before, ids[n], now), values + [Answer(before, ids[n], now)])
  }

  ghost function ExpiredIds<V>(table: Table<V>, ids: seq<string>, now: int): set<string> {
    set i | i in ids && ExpiredRow(table, i, now)
  }

  ghost function ExpiredValues<V>(table: Table<V>, ids: seq<string>, now: int): set<string> {
    set i | i in ids && ExpiredValue(table, i, now)
  }

  /** Their answers are those of the starting table, duplicates included. */
  lemma {:induction false} GetsInTurnAre<V>(table: Table<V>, ids: seq<string>, now: int)
    ensures var (after, values) := GetsInTurn(table, ids, now);
      && after == table - ExpiredIds(table, ids, now)
      && |values| == |ids|
      && forall i :: 0 <= i < |ids| ==> values[i] == Answer(table, ids[i], now)
  {
    if ids == [] {
    } else {
      var n := |ids| - 1;
      GetsInTurnAre(table, ids[..n], now);
      DeletingExpiredIsInvisible(table, ExpiredIds(table, ids[..n], now), now, ids[n], now);
      assert ids == ids[..n] + [ids[n]];
      assert GetsInTurn(table, ids, now).0 == table - ExpiredIds(table, ids, now);
    }
  }

  /** `hasMany` leaves the table of single `has` calls exactly when no asked row is expired without a value. */
  lemma {:induction false} HasManyLeavesTheTableIff<V>(table: Table<V>, ids: seq<string>, now: int)
    ensures table - ExpiredValues(table, ids, now) == table - ExpiredIds(table, ids, now) <==>
      forall id :: id in ids && ExpiredRow(table, id, now) ==> table[id].value.Some?
  {
    var fewer, more := table - ExpiredValues(table, ids, now), table - ExpiredIds(table, ids, now);
    if fewer == more {
      forall id | id in ids && ExpiredRow(table, id, now)
        ensures table[id].value.Some?
      {
        assert id !in more.Keys && (id in fewer.Keys <==> id !in ExpiredValues(table, ids, now));
      }
    } else {
      assert ExpiredValues(table, ids, now) != ExpiredIds(table, ids, now);
    }
  }

  /** At an input: an expired row without a value. */
  lemma {:induction false} HasManyLeavesValueless()
    ensures var table: Table<string> := map["k" := Item(None, Some(1))];
      table - ExpiredValues(table, ["k"], 1000) == table && table - ExpiredIds(table, ["k"], 1000) == map[]
  {
    var table: Table<string> := map["k" := Item(None, Some(1))];
    assert "k" in ["k"];
    assert ExpiredIds(table, ["k"], 1000) == {"k"} && ExpiredValues(table, ["k"], 1000) == {};
  }

  // ---------- the adapter ----------

  class StorelyDynamo<V(==, !new)> {
    var names: Names
    var defaultTtl: Option<real>
    /** The rows on the server. */
    var table: Table<V>

    constructor (names: Names, defaultTtl: Option<real>)
      ensures this.names == names && this.defaultTtl == defaultTtl && table == map[]
    {
      this.names, this.defaultTtl, table := names, defaultTtl, map[];
    }

    method Set(key: string, value: Option<V>, ttl: Option<real>, now: int) returns (ok: bool)
      modifies this`table
      ensures ok && table == old(table)[FormatKey(names, key) := Item(value,
        var effective := if ttl.Some? then ttl else defaultTtl;
        if effective.Some? then Some(ExpiresAt(now, effective.value)) else None)]
      ensures var effective := if ttl.Some? then ttl else defaultTtl;
        forall key', t :: Answer(table, FormatKey(names, key'), t) ==
          if FormatKey(names, key') != FormatKey(names, key) then Answer(old(table), FormatKey(names, key'), t)
          else if effective.Some? && t >= ((now as real + effective.value) / 1000.0).Floor * 1000 then None
          else value
    {
      var effectiveTtl := if ttl.Some? then ttl else defaultTtl;
      var expiresAt := if effectiveTtl.Some? then Some(ExpiresAt(now, effectiveTtl.value)) else None;
      table := table[FormatKey(names, key) := Item(value, expiresAt)];
      ok := true;
      if effectiveTtl.Some? {
        forall t
          ensures Expired(Item(value, expiresAt), t) <==>
            t >= ((now as real + effectiveTtl.value) / 1000.0).Floor * 1000
        {
          ExpiredFromWholeSecond(value, now, effectiveTtl.value, t);
        }
      }
    }

    method Get(key: string, now: int) returns (value: Option<V>)
      modifies this`table
      ensures value == Answer(old(table), FormatKey(names, key), now)
      ensures table == Swept(old(table), FormatKey(names, key), now)
    {
      var id := FormatKey(names, key);
      if id !in table {
        return None;
      }
      var item := table[id];
      if Expired(item, now) {
        var _ := Delete(key);
        return None;
      }
      value := item.value;
    }

    method Has(key: string, now: int) returns (present: bool)
      modifies this`table
      ensures present == Answer(old(table), FormatKey(names, key), now).Some?
      ensures table == Swept(old(table), FormatKey(names, key), now)
    {
      var id := FormatKey(names, key);
      if id !in table {
        return false;
      }
      var item := table[id];
      if Expired(item, now) {
        var _ := Delete(key);
        return false;
      }
      present := item.value.Some?;
    }

    method Delete(key: string) returns (existed: bool)
      modifies this`table
      ensures existed == (FormatKey(names, key) in old(table))
      ensures table == old(table) - {FormatKey(names, key)}
    {
      existed := FormatKey(names, key) in table;
      table := table - {FormatKey(names, key)};
    }

    /** `deleteMany`, one delete after the other. */
    method DeleteMany(keys: seq<string>) returns (results: seq<bool>)
      modifies this`table
      ensures table == old(table) - set k | k in keys :: FormatKey(names, k)
      ensures |results| == |keys|
      ensures forall i :: 0 <= i < |keys| ==>
        results[i] == (FormatKey(names, keys[i]) in old(table) &&
          forall j :: 0 <= j < i ==> FormatKey(names, keys[j]) != FormatKey(names, keys[i]))
    {
      results := [];
      ghost var gone: set<string> := {};
      for i := 0 to |keys|
        invariant gone == set j | 0 <= j < i :: FormatKey(names, keys[j])
        invariant table == old(table) - gone
        invariant |results| == i
        invariant forall m :: 0 <= m < i ==>
          results[m] == (FormatKey(names, keys[m]) in old(table) &&
            forall j :: 0 <= j < m ==> FormatKey(names, keys[j]) != FormatKey(names, keys[m]))
      {
        var existed := Delete(keys[i]);
        results := results + [existed];
        gone := gone + {FormatKey(names, keys[i])};
      }
      assert gone == set k | k in keys :: FormatKey(names, k);
    }

    /** The rows of one chunk, asking again for what was left unanswered. */
    method FetchChunk(chunk: seq<string>, server: Server, before: nat)
        returns (items: Option<seq<(string, Item<V>)>>, calls: nat)
      requires Progresses(server)
      ensures items == None <==> ChunkAnswered(server, before, chunk) == None
      ensures items.Some? ==> ChunkAnswered(server, before, chunk) == Some(calls)
      ensures items.Some? ==> forall e :: e in items.value <==> e.0 in chunk && e.0 in table && e.1 == table[e.0]
    {
      hide ItemsOf;
      var fetched: seq<(string, Item<V>)> := [];
      var pending := chunk;
      calls := before;
      while pending != []
        invariant ChunkAnswered(server, before, chunk) == ChunkAnswered(server, calls, pending)
        invariant forall id :: id in pending ==> id in chunk
        invariant forall e :: e in fetched ==> e.0 in chunk && e.0 in table && e.1 == table[e.0]
        invariant forall id :: id in chunk && id in table ==> id in pending || (id, table[id]) in fetched
        decreases |pending|
      {
        var response := server(calls, pending);
        calls := calls + 1;
        if response.Rejected? {
          return None, calls;
        }
        SplitCovers(pending, response.ids, response.rest);
        fetched := fetched + ItemsOf(response.ids);
        pending := response.rest;
      }
      items := Some(fetched);
    }

    /** The rows of all ids, in chunks of a hundred. */
    method FetchAll(ids: seq<string>, server: Server) returns (fetched: Option<map<string, Item<V>>>)
      requires Progresses(server)
      ensures fetched.Some? <==> AllAnswered(server, 0, ids).Some?
      ensures fetched.Some? ==> fetched.value == map id | id in ids && id in table :: table[id]
    {
      hide MapOf, ChunkAnswered;
      var allItems: seq<(string, Item<V>)> := [];
      var calls: nat := 0;
      var i := 0;
      while i < |ids|
        invariant 0 <= i <= |ids|
        invariant AllAnswered(server, 0, ids) == AllAnswered(server, calls, ids[i..])
        invariant forall e :: e in allItems ==> e.0 in ids && e.0 in table && e.1 == table[e.0]
        invariant forall id :: id in ids[..i] && id in table ==> (id, table[id]) in allItems
      {
        var end := if |ids| - i < CHUNK then |ids| else i + CHUNK;
        var chunk := ids[i..end];
        assert ids[..end] == ids[..i] + chunk;
        assert chunk == ids[i..][..end - i] && ids[end..] == ids[i..][end - i..];
        var items, more := FetchChunk(chunk, server, calls);
        if items == None {
          return None;
        }
        allItems := allItems + items.value;
        calls := more;
        i := end;
      }
      assert ids[..|ids|] == ids;
      var itemMap := MapOf(allItems);
      fetched := Some(itemMap);
    }

    /** The rows the server has for the ids it answers. */
    function ItemsOf(ids: seq<string>): (items: seq<(string, Item<V>)>)
      reads this`table
      ensures forall e :: e in items <==> e.0 in ids && e.0 in table && e.1 == table[e.0]
    {
      if ids == [] then []
      else (if ids[0] in table then [(ids[0], table[ids[0]])] else []) + ItemsOf(ids[1..])
    }

    /** `getMany`: however the server splits the request, the answers are those of single reads, and the expired
        rows found are deleted. A rejected request answers nothing. */
    method GetMany(keys: seq<string>, server: Server, now: int) returns (values: seq<Option<V>>)
      requires Progresses(server)
      modifies this`table
      ensures |values| == |keys|
      ensures var ids := FormatAll(names, keys);
        if AllAnswered(server, 0, ids).Some?
        then (forall i :: 0 <= i < |keys| ==> values[i] == Answer(old(table), ids[i], now))
          && table == old(table) - ExpiredIds(old(table), ids, now)
        else table == old(table) && forall i :: 0 <= i < |keys| ==> values[i] == None
    {
      hide FormatKey, FormatAll, AllAnswered, Expired;
      var ids := FormatAll(names, keys);
      var fetched := FetchAll(ids, server);
      if fetched == None {
        return seq(|keys|, _ => None);
      }
      values := [];
      var expiredKeys: seq<string> := [];
      for i := 0 to |ids|
        invariant |values| == i
        invariant forall j :: 0 <= j < i ==> values[j] == Answer(table, ids[j], now)
        invariant forall id :: id in expiredKeys <==> id in ids[..i] && ExpiredRow(table, id, now)
      {
        var id := ids[i];
        if id !in fetched.value {
          values := values + [None];
        } else if Expired(fetched.value[id], now) {
          expiredKeys := expiredKeys + [id];
          values := values + [None];
        } else {
          values := values + [fetched.value[id].value];
        }
      }
      assert ids[..|ids|] == ids;
      var _ := DeleteMany(expiredKeys);
      FormattedStays(names, keys, expiredKeys);
      assert (set k | k in expiredKeys :: FormatKey(names, k)) == ExpiredIds(old(table), ids, now);
    }

    method HasMany(keys: seq<string>, server: Server, now: int) returns (results: seq<bool>)
      requires Progresses(server)
      modifies this`table
      ensures |results| == |keys|
      ensures var ids := FormatAll(names, keys);
        if AllAnswered(server, 0, ids).Some?
        then (forall i :: 0 <= i < |keys| ==> results[i] == Answer(old(table), ids[i], now).Some?)
          && table == old(table) - ExpiredValues(old(table), ids, now)
        else table == old(table) && forall i :: 0 <= i < |keys| ==> !results[i]
    {
      hide FormatKey, FormatAll, AllAnswered, Expired;
      var ids := FormatAll(names, keys);
      var fetched := FetchAll(ids, server);
      if fetched == None {
        return seq(|keys|, _ => false);
      }
      results := [];
      var expiredKeys: seq<string> := [];
      for i := 0 to |ids|
        invariant |results| == i
        invariant forall j :: 0 <= j < i ==> results[j] == Answer(table, ids[j], now).Some?
        invariant forall id :: id in expiredKeys <==> id in ids[..i] && ExpiredValue(table, id, now)
      {
        var id := ids[i];
        if id !in fetched.value || fetched.value[id].value == None {
          results := results + [false];
        } else if Expired(fetched.value[id], now) {
          expiredKeys := expiredKeys + [id];
          results := results + [false];
        } else {
          results := results + [true];
        }
      }
      assert ids[..|ids|] == ids;
      var _ := DeleteMany(expiredKeys);
      FormattedStays(names, keys, expiredKeys);
      assert (set k | k in expiredKeys :: FormatKey(names, k)) == ExpiredValues(old(table), ids, now);
    }
  }

  function FormatAll(names: Names, keys: seq<string>): (ids: seq<string>)
    ensures |ids| == |keys|
  {
    seq(|keys|, i requires 0 <= i < |keys| => FormatKey(names, keys[i]))
  }

  /** The map a list of pairs makes, the last pair of a key winning. */
  function MapOf<V(!new)>(items: seq<(string, Item<V>)>): (m: map<string, Item<V>>)
    ensures forall id :: id in m ==> (id, m[id]) in items
    ensures forall e :: e in items ==> e.0 in m
  {
    if items == [] then map[]
    else
      var n := |items| - 1;
      assert items == items[..n] + [items[n]];
      MapOf(items[..n])[items[n].0 := items[n].1]
  }

  lemma {:induction false} SplitCovers(pending: seq<string>, ids: seq<string>, rest: seq<string>)
    requires ids != [] && multiset(ids) + multiset(rest) == multiset(pending)
    ensures |rest| < |pending|
    ensures forall id :: id in pending <==> id in ids || id in rest
  {
    assert |multiset(ids)| + |multiset(rest)| == |multiset(pending)|;
    forall id
      ensures id in pending <==> id in ids || id in rest
    {
      assert id in pending <==> id in multiset(pending);
      assert id in ids <==> id in multiset(ids);
      assert id in rest <==> id in multiset(rest);
    }
  }

  /** Ids handed back to `deleteMany` are formatted a second time, which leaves them as they are. */
  lemma {:induction false} FormattedStays(names: Names, keys: seq<string>, ids: seq<string>)
    requires forall id :: id in ids ==> id in FormatAll(names, keys)
    ensures forall id :: id in ids ==> FormatKey(names, id) == id
  {
    forall id | id in ids
      ensures FormatKey(names, id) == id
    {
      var i :| 0 <= i < |keys| && FormatAll(names, keys)[i] == id;
      FormatIsIdempotent(names, keys[i]);
    }
  }
}
