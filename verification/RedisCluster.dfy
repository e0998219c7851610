/** Redis batches: grouped by hash slot, one transaction per slot in any order, answers scattered back. */
module RedisCluster {
  import opened Texts

  /** What a SET leaves under a key: the value and the PX argument, if any. */
  datatype Cell = Cell(value: string, px: Option<int>)

  type Store = map<string, Cell>

  datatype Entry = Entry(key: string, value: string, ttl: Option<int>)

  /** The hash slot of a key, and whether the server accepts a SET: any deterministic functions. */
  type SlotFunction = string -> nat
  type Verdict = Entry -> bool

  function KeyPrefix(key: string, ns: string, separator: string): string {
    if ns != "" then ns + separator + key else key
  }

  function Px(ttl: Option<int>): Option<int> {
    if ttl.Some? && ttl.value > 0 then ttl else None
  }

  /** One SET, on the store of prefixed keys. */
  function ApplyOne(store: Store, e: Entry, accepts: Verdict): Store {
    if accepts(e) then store[e.key := Cell(e.value, Px(e.ttl))] else store
  }

  /** The entries one after another. */
  function Apply(store: Store, entries: seq<Entry>, accepts: Verdict): Store {
    if entries == [] then store
    else
      var n := |entries| - 1;
      ApplyOne(Apply(store, entries[..n], accepts), entries[n], accepts)
  }

  function At(store: Store, key: string): Option<Cell> {
    if key in store then Some(store[key]) else None
  }

  // ---------- slot groups ----------

  /** An entry of a batch with its position. */
  datatype Placed = Placed(entry: Entry, index: nat)

  /** The entries of one slot with their positions, in input order. */
  function Group(entries: seq<Entry>, slot: SlotFunction, s: nat): seq<Placed> {
    if entries == [] then []
    else
      var n := |entries| - 1;
      Group(entries[..n], slot, s) + if slot(entries[n].key) == s then [Placed(entries[n], n)] else []
  }

  lemma {:induction false} GroupUnfolds(entries: seq<Entry>, slot: SlotFunction, s: nat)
    ensures Group([], slot, s) == []
    ensures entries != [] ==>
      var n := |entries| - 1;
      Group(entries, slot, s) ==
        if slot(entries[n].key) == s then Group(entries[..n], slot, s) + [Placed(entries[n], n)]
        else Group(entries[..n], slot, s)
  {
  }

  lemma {:induction false} GroupInOrder(entries: seq<Entry>, slot: SlotFunction, s: nat)
    ensures var g := Group(entries, slot, s);
      && (forall i, j :: 0 <= i < j < |g| ==> g[i].index < g[j].index)
      && (forall j :: 0 <= j < |g| ==> slot(g[j].entry.key) == s)
      && (forall j :: 0 <= j < |g| ==> g[j].index < |entries| && g[j].entry == entries[g[j].index])
  {
    hide Group;
    GroupUnfolds(entries, slot, s);
    if entries == [] {
    } else {
      GroupInOrder(entries[..|entries| - 1], slot, s);
    }
  }

  lemma {:induction false} GroupHolds(entries: seq<Entry>, slot: SlotFunction, i: nat)
    requires i < |entries|
    ensures var g := Group(entries, slot, slot(entries[i].key)); exists j :: 0 <= j < |g| && g[j].index == i
  {
    hide Group;
    var n, s := |entries| - 1, slot(entries[i].key);
    GroupUnfolds(entries, slot, s);
    var g, front := Group(entries, slot, s), Group(entries[..n], slot, s);
    if i < n {
      GroupHolds(entries[..n], slot, i);
      var j :| 0 <= j < |front| && front[j].index == i;
      assert g[j].index == i;
    } else {
      assert g[|g| - 1].index == n;
    }
  }

  /** The groups partition the positions: position `i` lies in the group of its own slot and in no other,
      at one place; each group keeps the input order. */
  lemma {:induction false} GroupsPartition(entries: seq<Entry>, slot: SlotFunction, s: nat)
    ensures var g := Group(entries, slot, s); forall i, j :: 0 <= i < j < |g| ==> g[i].index < g[j].index
    ensures var g := Group(entries, slot, s);
      forall i :: 0 <= i < |entries| ==>
        (slot(entries[i].key) == s <==> exists j :: 0 <= j < |g| && g[j].index == i)
    ensures var g := Group(entries, slot, s);
      forall j :: 0 <= j < |g| ==> g[j].index < |entries| && g[j].entry == entries[g[j].index]
  {
    hide Group;
    GroupInOrder(entries, slot, s);
    forall i | 0 <= i < |entries| && slot(entries[i].key) == s
      ensures exists j :: 0 <= j < |Group(entries, slot, s)| && Group(entries, slot, s)[j].index == i
    {
      GroupHolds(entries, slot, i);
    }
  }

  function Entries(g: seq<Placed>): (r: seq<Entry>)
    ensures |r| == |g|
  {
    seq(|g|, j requires 0 <= j < |g| => g[j].entry)
  }

  /** A key's cell depends on its own cell and on the entries of its slot only. */
  lemma {:induction false} ApplyByKey(a: Store, b: Store, entries: seq<Entry>, accepts: Verdict, slot: SlotFunction,
      s: nat, key: string)
    requires At(a, key) == At(b, key)
    ensures var g := Entries(Group(entries, slot, s));
      At(Apply(a, g, accepts), key) == if slot(key) == s then At(Apply(b, entries, accepts), key) else At(a, key)
  {
    hide Group, Apply;
    GroupUnfolds(entries, slot, s);
    if entries == [] {
      ApplyEmpty(a, accepts);
      ApplyEmpty(b, accepts);
    } else {
      var n := |entries| - 1;
      ApplyByKey(a, b, entries[..n], accepts, slot, s, key);
      var front := Group(entries[..n], slot, s);
      assert entries == entries[..n] + [entries[n]];
      ApplyLast(b, entries[..n], entries[n], accepts);
      if slot(entries[n].key) == s {
        ApplyLast(a, Entries(front), entries[n], accepts);
        assert Entries(Group(entries, slot, s)) == Entries(front) + [entries[n]];
      }
    }
  }

  lemma {:induction false} ApplyEmpty(store: Store, accepts: Verdict)
    ensures Apply(store, [], accepts) == store
  {
  }

  lemma {:induction false} ApplyLast(store: Store, entries: seq<Entry>, e: Entry, accepts: Verdict)
    ensures Apply(store, entries + [e], accepts) == ApplyOne(Apply(store, entries, accepts), e, accepts)
  {
    assert (entries + [e])[..|entries|] == entries;
  }

  lemma {:induction false} SameCells(a: Store, b: Store)
    requires forall k :: At(a, k) == At(b, k)
    ensures a == b
  {
    forall k
      ensures k in a <==> k in b
      ensures k in a ==> a[k] == b[k]
    {
      assert At(a, k) == At(b, k);
    }
  }

  // ---------- key groups ----------

  /** `getSlotMap`: the keys of one slot in input order. */
  function KeyGroup(keys: seq<string>, slot: SlotFunction, s: nat): seq<string> {
    if keys == [] then []
    else
      var n := |keys| - 1;
      KeyGroup(keys[..n], slot, s) + if slot(keys[n]) == s then [keys[n]] else []
  }

  lemma {:induction false} KeyGroupNext(keys: seq<string>, slot: SlotFunction, s: nat, i: nat)
    requires i < |keys|
    ensures KeyGroup(keys[..i + 1], slot, s) ==
      if slot(keys[i]) == s then KeyGroup(keys[..i], slot, s) + [keys[i]] else KeyGroup(keys[..i], slot, s)
  {
    assert keys[..i + 1][..i] == keys[..i];
  }

  lemma {:induction false} NoKeyGroup(slot: SlotFunction, s: nat)
    ensures KeyGroup([], slot, s) == []
  {
  }

  lemma {:induction false} KeyGroupHolds(keys: seq<string>, slot: SlotFunction, s: nat, k: string)
    ensures k in KeyGroup(keys, slot, s) <==> k in keys && slot(k) == s
    ensures slot(k) == s ==> multiset(KeyGroup(keys, slot, s))[k] == multiset(keys)[k]
  {
    if keys == [] {
    } else {
      var n := |keys| - 1;
      KeyGroupHolds(keys[..n], slot, s, k);
      assert keys == keys[..n] + [keys[n]];
    }
  }

  function Prefixed(keys: seq<string>, ns: string, separator: string): (r: seq<string>)
    ensures |r| == |keys|
  {
    seq(|keys|, i requires 0 <= i < |keys| => KeyPrefix(keys[i], ns, separator))
  }

  function PrefixedEntries(entries: seq<Entry>, ns: string, separator: string): (r: seq<Entry>)
    ensures |r| == |entries|
  {
    seq(|entries|, i requires 0 <= i < |entries| => entries[i].(key := KeyPrefix(entries[i].key, ns, separator)))
  }

  function Value(store: Store, key: string): Option<string> {
    if key in store then Some(store[key].value) else None
  }

  function Without(store: Store, keys: seq<string>): Store {
    map k | k in store && k !in keys :: store[k]
  }

  /** The servers of all slots the keys fall into answer. */
  predicate AllUp(keys: seq<string>, slot: SlotFunction, up: nat -> bool) {
    forall i :: 0 <= i < |keys| ==> up(slot(keys[i]))
  }

  /** What a batch delete leaves when some slots are down: their keys, and all that were not listed. */
  function DeletedWhereUp(store: Store, keys: seq<string>, slot: SlotFunction, up: nat -> bool): Store {
    map k | k in store && !(k in keys && up(slot(k))) :: store[k]
  }

  lemma {:induction false} AllUpDeletes(store: Store, keys: seq<string>, slot: SlotFunction, up: nat -> bool)
    requires AllUp(keys, slot, up)
    ensures DeletedWhereUp(store, keys, slot, up) == Without(store, keys)
  {
    forall k | k in keys
      ensures up(slot(k))
    {
      var i :| 0 <= i < |keys| && keys[i] == k;
    }
  }

  /** Trying a failed batch delete again, with every slot up, takes the rest of the keys; it reports none of those
      the failed one took, which reported nothing either. */
  lemma {:induction false} RetryReportsTheRest(store: Store, keys: seq<string>, slot: SlotFunction, up: nat -> bool,
      key: string)
    requires key in keys
    ensures var left := DeletedWhereUp(store, keys, slot, up);
      Without(left, keys) == Without(store, keys) &&
      (Unlinked(left, keys, key) <==> Unlinked(store, keys, key) && !up(slot(key)))
  {
  }

  /** What `deleteMany` reports for a key: the reply to its last UNLINK, so a repeated key reads as absent. */
  predicate Unlinked(store: Store, keys: seq<string>, key: string) {
    key in store && multiset(keys)[key] == 1
  }

  lemma {:induction false} UnlinkedNext(store: Store, keys: seq<string>, i: nat, key: string)
    requires i < |keys|
    ensures Unlinked(store, keys[..i + 1], key) ==
      if key == keys[i] then key in store && key !in keys[..i] else Unlinked(store, keys[..i], key)
  {
    assert keys[..i + 1] == keys[..i] + [keys[i]];
    assert key in keys[..i] <==> multiset(keys[..i])[key] > 0;
  }

  /** That is the answer of a single delete exactly for the keys that are absent or listed once. */
  lemma {:induction false} DeleteAnswersIff(store: Store, keys: seq<string>, i: nat)
    requires i < |keys|
    ensures Unlinked(store, keys, keys[i]) == (keys[i] in store) <==>
      keys[i] !in store || forall j :: 0 <= j < |keys| && keys[j] == keys[i] ==> j == i
  {
    var k := keys[i];
    var front, back := keys[..i], keys[i + 1..];
    assert keys == front + [k] + back;
    assert multiset(keys)[k] == multiset(front)[k] + 1 + multiset(back)[k];
    forall j | 0 <= j < |keys| && j != i
      ensures keys[j] == k ==> multiset(keys)[k] > 1
    {
      if j < i { assert front[j] == keys[j]; } else { assert back[j - i - 1] == keys[j]; }
    }
    if multiset(keys)[k] > 1 {
      if k in front {
        var j :| 0 <= j < |front| && front[j] == k;
        assert keys[j] == k;
      } else {
        assert k in back;
        var j :| 0 <= j < |back| && back[j] == k;
        assert keys[i + 1 + j] == k;
      }
    }
  }

  /** At an input: a present key listed twice reads as absent. */
  lemma {:induction false} RepeatedKeyReadsAbsent(cell: Cell)
    ensures var store := map["k" := cell];
      Unlinked(store, ["k"], "k") && !Unlinked(store, ["k", "k"], "k")
  {
    assert multiset(["k"])["k"] == 1;
    assert multiset(["k", "k"])["k"] == 2;
  }

  // ---------- progress over the slots ----------

  /** The transactions of the slots in `done` have run, those that are up took effect. */
  ghost predicate SetsDone(store: Store, before: Store, final: Store, slot: SlotFunction, up: nat -> bool,
      done: set<nat>) {
    forall k :: At(store, k) == if slot(k) in done && up(slot(k)) then At(final, k) else At(before, k)
  }

  ghost predicate ResultsDone(results: seq<bool>, entries: seq<Entry>, slot: SlotFunction, accepts: Verdict,
      up: nat -> bool, done: set<nat>) {
    |results| == |entries| &&
    forall i :: 0 <= i < |entries| && slot(entries[i].key) in done && up(slot(entries[i].key)) ==>
      results[i] == accepts(entries[i])
  }

  lemma {:induction false} SetsDoneStep(store: Store, before: Store, entries: seq<Entry>, slot: SlotFunction,
      accepts: Verdict, up: nat -> bool, done: set<nat>, s: nat)
    requires SetsDone(store, before, Apply(before, entries, accepts), slot, up, done) && s !in done && up(s)
    ensures SetsDone(Apply(store, Entries(Group(entries, slot, s)), accepts), before, Apply(before, entries, accepts),
      slot, up, done + {s})
  {
    hide Apply, Group, Entries;
    forall k
      ensures At(Apply(store, Entries(Group(entries, slot, s)), accepts), k) ==
        if slot(k) in done + {s} && up(slot(k)) then At(Apply(before, entries, accepts), k) else At(before, k)
    {
      if slot(k) == s {
        ApplyByKey(store, before, entries, accepts, slot, s, k);
      } else {
        ApplyByKey(store, store, entries, accepts, slot, s, k);
      }
    }
  }

  /** With every slot of the batch done and up, the store is that of the entries in input order. */
  lemma {:induction false} AllSetsDone(store: Store, before: Store, entries: seq<Entry>, slot: SlotFunction,
      accepts: Verdict, up: nat -> bool, done: set<nat>)
    requires SetsDone(store, before, Apply(before, entries, accepts), slot, up, done)
    requires forall i :: 0 <= i < |entries| ==> slot(entries[i].key) in done
    ensures forall k :: At(store, k) == if up(slot(k)) then At(Apply(before, entries, accepts), k) else At(before, k)
    ensures (forall i :: 0 <= i < |entries| ==> up(slot(entries[i].key))) ==> store == Apply(before, entries, accepts)
  {
    hide Apply, Group;
    forall k | slot(k) !in done
      ensures At(Apply(before, entries, accepts), k) == At(before, k)
    {
      UntouchedCell(before, entries, accepts, k);
    }
    if forall i :: 0 <= i < |entries| ==> up(slot(entries[i].key)) {
      forall k | !up(slot(k))
        ensures At(Apply(before, entries, accepts), k) == At(before, k)
      {
        UntouchedCell(before, entries, accepts, k);
      }
      SameCells(store, Apply(before, entries, accepts));
    }
  }

  lemma {:induction false} UntouchedCell(store: Store, entries: seq<Entry>, accepts: Verdict, key: string)
    requires forall i :: 0 <= i < |entries| ==> entries[i].key != key
    ensures At(Apply(store, entries, accepts), key) == At(store, key)
  {
    if entries == [] {
    } else {
      UntouchedCell(store, entries[..|entries| - 1], accepts, key);
    }
  }

  /** The transactions of the slots in `done` that are up have deleted their keys and recorded the answers. */
  ghost predicate DeletesDone(store: Store, before: Store, keys: seq<string>, slot: SlotFunction, up: nat -> bool,
      done: set<nat>, answers: map<string, bool>) {
    && (forall k :: At(store, k) == if k in keys && slot(k) in done && up(slot(k)) then None else At(before, k))
    && (forall k :: k in answers <==> k in keys && slot(k) in done && up(slot(k)))
    && (forall k :: k in answers ==> answers[k] == Unlinked(before, keys, k))
  }

  lemma {:induction false} DeletesDoneStep(store: Store, before: Store, keys: seq<string>, slot: SlotFunction,
      up: nat -> bool, done: set<nat>, answers: map<string, bool>, s: nat, more: map<string, bool>)
    requires DeletesDone(store, before, keys, slot, up, done, answers) && s !in done && up(s)
    requires var group := KeyGroup(keys, slot, s);
      && more.Keys == answers.Keys + (set k | k in group)
      && forall k :: k in more ==> more[k] == if k in group then Unlinked(store, group, k) else answers[k]
    ensures DeletesDone(Without(store, KeyGroup(keys, slot, s)), before, keys, slot, up, done + {s}, more)
  {
    hide KeyGroup, Unlinked;
    var group := KeyGroup(keys, slot, s);
    forall k
      ensures k in group <==> k in keys && slot(k) == s
      ensures k in group ==> Unlinked(store, group, k) == Unlinked(before, keys, k)
    {
      KeyGroupHolds(keys, slot, s, k);
      assert slot(k) == s ==> At(store, k) == At(before, k);
      if slot(k) == s { SameUnlinked(store, before, group, keys, k); }
    }
  }

  lemma {:induction false} AllDeletesDone(store: Store, before: Store, keys: seq<string>, slot: SlotFunction,
      up: nat -> bool, done: set<nat>, answers: map<string, bool>)
    requires DeletesDone(store, before, keys, slot, up, done, answers)
    requires forall i :: 0 <= i < |keys| ==> slot(keys[i]) in done
    ensures store == DeletedWhereUp(before, keys, slot, up)
    ensures forall k :: k in keys && up(slot(k)) ==> k in answers && answers[k] == Unlinked(before, keys, k)
  {
    hide Unlinked;
    forall k
      ensures At(store, k) == At(DeletedWhereUp(before, keys, slot, up), k)
    {
      assert k in keys ==> slot(k) in done;
    }
    SameCells(store, DeletedWhereUp(before, keys, slot, up));
  }

  class StorelyRedis {
    var store: Store
    var namespace: string
    var separator: string
    var cluster: bool

    constructor (namespace: string, separator: string, cluster: bool)
      ensures store == map[] && this.namespace == namespace && this.separator == separator && this.cluster == cluster
    {
      store := map[];
      this.namespace := namespace;
      this.separator := separator;
      this.cluster := cluster;
    }

    // ---------- transactions: one step of the server each, with a reply to every command ----------

    method ExecSets(commands: seq<Entry>, accepts: Verdict) returns (replies: seq<bool>)
      modifies this`store
      ensures store == Apply(old(store), commands, accepts)
      ensures |replies| == |commands| && forall j :: 0 <= j < |commands| ==> replies[j] == accepts(commands[j])
    {
      replies := [];
      for j := 0 to |commands|
        invariant store == Apply(old(store), commands[..j], accepts)
        invariant |replies| == j && forall m :: 0 <= m < j ==> replies[m] == accepts(commands[m])
      {
        assert commands[..j + 1][..j] == commands[..j];
        store := ApplyOne(store, commands[j], accepts);
        replies := replies + [accepts(commands[j])];
      }
      assert commands[..|commands|] == commands;
    }

    /** UNLINKs: each reply is the number of keys that command removed. */
    method ExecUnlinks(keys: seq<string>) returns (replies: seq<nat>)
      modifies this`store
      ensures store == Without(old(store), keys)
      ensures |replies| == |keys|
      ensures forall j :: 0 <= j < |keys| ==>
        replies[j] == if keys[j] in old(store) && keys[j] !in keys[..j] then 1 else 0
    {
      replies := [];
      for j := 0 to |keys|
        invariant store == Without(old(store), keys[..j])
        invariant |replies| == j
        invariant forall m :: 0 <= m < j ==>
          replies[m] == if keys[m] in old(store) && keys[m] !in keys[..m] then 1 else 0
      {
        assert keys[..j + 1] == keys[..j] + [keys[j]];
        replies := replies + [if keys[j] in store then 1 else 0];
        store := store - {keys[j]};
      }
      assert keys[..|keys|] == keys;
    }

    // ---------- setMany ----------

    /** `setMany`. `up(s)` says whether the transaction of slot `s` gets through (slot 0 stands for the one
        transaction of a standalone server); if one does not, the caller is told that nothing was set. */
    method SetMany(given: seq<Entry>, slot: SlotFunction, accepts: Verdict, up: nat -> bool)
        returns (results: seq<bool>)
      modifies this`store
      ensures |results| == |given|
      ensures var entries := PrefixedEntries(given, namespace, separator);
        var slots: SlotFunction := if cluster then slot else SlotZero;
        var allUp := forall i :: 0 <= i < |given| ==> up(slots(entries[i].key));
        && (forall i :: 0 <= i < |given| ==> results[i] == (allUp && accepts(entries[i])))
        && (allUp ==> store == Apply(old(store), entries, accepts))
        && (forall k :: At(store, k) ==
              if up(slots(k)) then At(Apply(old(store), entries, accepts), k) else At(old(store), k))
    {
      var entries := PrefixedEntries(given, namespace, separator);
      if cluster {
        results := SetManyBySlot(entries, slot, accepts, up);
      } else if up(0) {
        results := ExecSets(entries, accepts);
      } else {
        results := seq(|given|, _ => false);
        if entries != [] { assert !up(SlotZero(entries[0].key)); }
      }
    }

    method SetManyBySlot(entries: seq<Entry>, slot: SlotFunction, accepts: Verdict, up: nat -> bool)
        returns (results: seq<bool>)
      modifies this`store
      ensures |results| == |entries|
      ensures var allUp := forall i :: 0 <= i < |entries| ==> up(slot(entries[i].key));
        && (forall i :: 0 <= i < |entries| ==> results[i] == (allUp && accepts(entries[i])))
        && (allUp ==> store == Apply(old(store), entries, accepts))
      ensures forall k ::
        At(store, k) == if up(slot(k)) then At(Apply(old(store), entries, accepts), k) else At(old(store), k)
    {
      hide Apply, Group, SetsDone;
      var slotMap := GroupEntries(entries, slot);
      results := seq(|entries|, _ => false);
      var failed := false;
      var done: set<nat> := {};
      NoSetsDone(store, Apply(store, entries, accepts), slot, up);
      // the order of the transactions is arbitrary
      while slotMap.Keys - done != {}
        invariant done <= slotMap.Keys
        invariant SetsDone(store, old(store), Apply(old(store), entries, accepts), slot, up, done)
        invariant ResultsDone(results, entries, slot, accepts, up, done)
        invariant failed <==> exists s :: s in done && !up(s)
        decreases slotMap.Keys - done
      {
        var s :| s in slotMap.Keys - done;
        if up(s) {
          SetsDoneStep(store, old(store), entries, slot, accepts, up, done, s);
          var replies := ExecSets(Entries(slotMap[s]), accepts);
          results := ScatterReplies(results, entries, slot, accepts, up, done, s, replies);
        } else {
          SetsDownStep(store, old(store), Apply(old(store), entries, accepts), slot, up, done, s);
          failed := true;
        }
        done := done + {s};
      }
      AllSetsDone(store, old(store), entries, slot, accepts, up, done);
      if failed {
        var s :| s in done && !up(s);
        SomeEntry(entries, slot, s);
        results := seq(|entries|, _ => false);
      } else {
        assert forall i :: 0 <= i < |entries| ==> slot(entries[i].key) in done;
      }
    }

    method GroupEntries(entries: seq<Entry>, slot: SlotFunction) returns (slotMap: map<nat, seq<Placed>>)
      ensures forall s :: s in slotMap ==> slotMap[s] == Group(entries, slot, s) && slotMap[s] != []
      ensures forall i :: 0 <= i < |entries| ==> slot(entries[i].key) in slotMap
    {
      hide Group;
      slotMap := map[];
      forall s {:trigger Group([], slot, s)}
        ensures Group([], slot, s) == []
      {
        GroupUnfolds([], slot, s);
      }
      for i := 0 to |entries|
        invariant forall s :: s in slotMap ==> slotMap[s] == Group(entries[..i], slot, s) && slotMap[s] != []
        invariant forall s :: s !in slotMap ==> Group(entries[..i], slot, s) == []
        invariant forall j :: 0 <= j < i ==> slot(entries[j].key) in slotMap
      {
        var s := slot(entries[i].key);
        var group := if s in slotMap then slotMap[s] else [];
        assert entries[..i + 1][..i] == entries[..i];
        forall s
          ensures Group(entries[..i + 1], slot, s) ==
            if slot(entries[i].key) == s then Group(entries[..i], slot, s) + [Placed(entries[i], i)]
              else Group(entries[..i], slot, s)
        {
          GroupUnfolds(entries[..i + 1], slot, s);
        }
        slotMap := slotMap[s := group + [Placed(entries[i], i)]];
      }
      assert entries[..|entries|] == entries;
    }

    // ---------- keys ----------

    method GroupKeys(keys: seq<string>, slot: SlotFunction) returns (slotMap: map<nat, seq<string>>)
      ensures forall s :: s in slotMap ==> slotMap[s] == KeyGroup(keys, slot, s)
      ensures forall s :: s in slotMap <==> exists i :: 0 <= i < |keys| && slot(keys[i]) == s
    {
      hide KeyGroup;
      slotMap := map[];
      forall s {:trigger KeyGroup([], slot, s)}
        ensures KeyGroup([], slot, s) == []
      {
        NoKeyGroup(slot, s);
      }
      for i := 0 to |keys|
        invariant forall s :: s in slotMap ==> slotMap[s] == KeyGroup(keys[..i], slot, s)
        invariant forall s :: s !in slotMap ==> KeyGroup(keys[..i], slot, s) == []
        invariant forall s :: s in slotMap <==> exists j :: 0 <= j < i && slot(keys[j]) == s
      {
        var s := slot(keys[i]);
        forall s
          ensures KeyGroup(keys[..i + 1], slot, s) ==
            if slot(keys[i]) == s then KeyGroup(keys[..i], slot, s) + [keys[i]] else KeyGroup(keys[..i], slot, s)
        {
          KeyGroupNext(keys, slot, s, i);
        }
        slotMap := slotMap[s := (if s in slotMap then slotMap[s] else []) + [keys[i]]];
      }
      assert keys[..|keys|] == keys;
    }

    /** MGET of one group, its values recorded by key. */
    method FetchGroup(group: seq<string>, valueMap: map<string, Option<string>>)
        returns (values: map<string, Option<string>>)
      ensures values.Keys == valueMap.Keys + (set k | k in group)
      ensures forall k :: k in values ==> values[k] == if k in group then Value(store, k) else valueMap[k]
    {
      values := valueMap;
      for index := 0 to |group|
        invariant values.Keys == valueMap.Keys + (set k | k in group[..index])
        invariant forall k :: k in values ==> values[k] == if k in group[..index] then Value(store, k) else valueMap[k]
      {
        assert group[..index + 1] == group[..index] + [group[index]];
        values := values[group[index] := Value(store, group[index])];
      }
      assert group[..|group|] == group;
    }

    /** `mget`: the values of prefixed keys, one MGET per slot in any order; an error if one of them fails. */
    method Mget(keys: seq<string>, slot: SlotFunction, up: nat -> bool) returns (values: Option<seq<Option<string>>>)
      ensures values.Some? <==> AllUp(keys, if cluster then slot else SlotZero, up)
      ensures values.Some? ==>
        |values.value| == |keys| && forall i :: 0 <= i < |keys| ==> values.value[i] == Value(store, keys[i])
    {
      hide KeyGroup, Value;
      var valueMap: map<string, Option<string>> := map[];
      if cluster {
        var slotMap := GroupKeys(keys, slot);
        var failed := false;
        var done: set<nat> := {};
        while slotMap.Keys - done != {}
          invariant done <= slotMap.Keys
          invariant forall i :: 0 <= i < |keys| && slot(keys[i]) in done && up(slot(keys[i])) ==> keys[i] in valueMap
          invariant forall k :: k in valueMap ==> valueMap[k] == Value(store, k)
          invariant failed <==> exists s :: s in done && !up(s)
          decreases slotMap.Keys - done
        {
          var s :| s in slotMap.Keys - done;
          if up(s) {
            valueMap := FetchGroup(slotMap[s], valueMap);
            forall i | 0 <= i < |keys| && slot(keys[i]) == s
              ensures keys[i] in slotMap[s]
            {
              KeyGroupHolds(keys, slot, s, keys[i]);
            }
          } else {
            failed := true;
          }
          done := done + {s};
        }
        assert failed <==> !AllUp(keys, slot, up);
        if failed { return None; }
      } else if !up(0) && keys != [] {
        assert !up(SlotZero(keys[0]));
        return None;
      } else {
        valueMap := FetchGroup(keys, valueMap);
      }
      values := Some(seq(|keys|, i requires 0 <= i < |keys| =>
        if keys[i] in valueMap then valueMap[keys[i]] else None));
    }

    /** `getMany`; a failing slot makes every value undefined. */
    method GetMany(given: seq<string>, slot: SlotFunction, up: nat -> bool) returns (values: seq<Option<string>>)
      ensures var keys := Prefixed(given, namespace, separator);
        && |values| == |given|
        && forall i :: 0 <= i < |given| ==>
             values[i] ==
               if AllUp(keys, if cluster then slot else SlotZero, up) then Value(store, keys[i]) else None
    {
      var found := Mget(Prefixed(given, namespace, separator), slot, up);
      values := if found.Some? then found.value else seq(|given|, _ => None);
    }

    /** EXISTS of one group, the answers recorded by key. */
    method ProbeGroup(group: seq<string>, resultMap: map<string, bool>) returns (results: map<string, bool>)
      ensures results.Keys == resultMap.Keys + (set k | k in group)
      ensures forall k :: k in results ==> results[k] == if k in group then k in store else resultMap[k]
    {
      results := resultMap;
      for index := 0 to |group|
        invariant results.Keys == resultMap.Keys + (set k | k in group[..index])
        invariant forall k :: k in results ==> results[k] == if k in group[..index] then k in store else resultMap[k]
      {
        assert group[..index + 1] == group[..index] + [group[index]];
        results := results[group[index] := group[index] in store];
      }
      assert group[..|group|] == group;
    }

    /** `hasMany`: one transaction of EXISTS per slot in any order; a failing one makes every answer false. */
    method HasMany(given: seq<string>, slot: SlotFunction, up: nat -> bool) returns (found: seq<bool>)
      ensures var keys := Prefixed(given, namespace, separator);
        && |found| == |given|
        && forall i :: 0 <= i < |given| ==>
             found[i] == (AllUp(keys, if cluster then slot else SlotZero, up) && keys[i] in store)
    {
      hide KeyGroup;
      var keys := Prefixed(given, namespace, separator);
      if !cluster {
        var current, answers := store, up(0);
        if keys != [] { assert answers == up(SlotZero(keys[0])); }
        return seq(|keys|, i requires 0 <= i < |keys| => answers && keys[i] in current);
      }
      var slotMap := GroupKeys(keys, slot);
      var resultMap: map<string, bool> := map[];
      var failed := false;
      var done: set<nat> := {};
      while slotMap.Keys - done != {}
        invariant done <= slotMap.Keys
        invariant forall i :: 0 <= i < |keys| && slot(keys[i]) in done && up(slot(keys[i])) ==> keys[i] in resultMap
        invariant forall k :: k in resultMap ==> resultMap[k] == (k in store)
        invariant failed <==> exists s :: s in done && !up(s)
        decreases slotMap.Keys - done
      {
        var s :| s in slotMap.Keys - done;
        if up(s) {
          resultMap := ProbeGroup(slotMap[s], resultMap);
          forall i | 0 <= i < |keys| && slot(keys[i]) == s
            ensures keys[i] in slotMap[s]
          {
            KeyGroupHolds(keys, slot, s, keys[i]);
          }
        } else {
          failed := true;
        }
        done := done + {s};
      }
      assert failed <==> !AllUp(keys, slot, up);
      if failed { return seq(|keys|, _ => false); }
      found := seq(|keys|, i requires 0 <= i < |keys| => keys[i] in resultMap && resultMap[keys[i]]);
    }

    /** UNLINK of one group in one transaction, one answer kept per key string. */
    method DeleteGroup(group: seq<string>, resultMap: map<string, bool>) returns (results: map<string, bool>)
      modifies this`store
      ensures store == Without(old(store), group)
      ensures results.Keys == resultMap.Keys + (set k | k in group)
      ensures forall k :: k in results ==>
        results[k] == if k in group then Unlinked(old(store), group, k) else resultMap[k]
    {
      hide Unlinked, Without;
      var replies := ExecUnlinks(group);
      results := resultMap;
      for index := 0 to |group|
        invariant results.Keys == resultMap.Keys + (set k | k in group[..index])
        invariant forall k :: k in results ==>
          results[k] == if k in group[..index] then Unlinked(old(store), group[..index], k) else resultMap[k]
      {
        assert group[..index + 1] == group[..index] + [group[index]];
        ghost var earlier := results;
        results := results[group[index] := replies[index] > 0];
        forall k | k in results
          ensures results[k] ==
            if k in group[..index + 1] then Unlinked(old(store), group[..index + 1], k) else resultMap[k]
        {
          UnlinkedNext(old(store), group, index, k);
          if k != group[index] { assert k in earlier && results[k] == earlier[k]; }
        }
      }
      assert group[..|group|] == group;
    }

    /** `deleteMany`: one transaction per slot in any order. If one fails every answer is false, but the keys of
        the others are gone. */
    method DeleteMany(given: seq<string>, slot: SlotFunction, up: nat -> bool) returns (deleted: seq<bool>)
      modifies this`store
      ensures var keys := Prefixed(given, namespace, separator);
        var slots: SlotFunction := if cluster then slot else SlotZero;
        && store == DeletedWhereUp(old(store), keys, slots, up)
        && (AllUp(keys, slots, up) ==> store == Without(old(store), keys))
        && |deleted| == |given|
        && forall i :: 0 <= i < |given| ==>
             deleted[i] == (AllUp(keys, slots, up) && Unlinked(old(store), keys, keys[i]))
    {
      hide KeyGroup, Unlinked;
      var keys := Prefixed(given, namespace, separator);
      if cluster {
        deleted := DeleteBySlot(keys, slot, up);
      } else if up(0) {
        var resultMap := DeleteGroup(keys, map[]);
        deleted := seq(|keys|, i requires 0 <= i < |keys| => keys[i] in resultMap && resultMap[keys[i]]);
      } else {
        deleted := seq(|keys|, _ => false);
        if keys != [] { assert !up(SlotZero(keys[0])); }
      }
      if AllUp(keys, if cluster then slot else SlotZero, up) {
        AllUpDeletes(old(store), keys, if cluster then slot else SlotZero, up);
      }
    }

    method DeleteBySlot(keys: seq<string>, slot: SlotFunction, up: nat -> bool) returns (deleted: seq<bool>)
      modifies this`store
      ensures store == DeletedWhereUp(old(store), keys, slot, up)
      ensures |deleted| == |keys|
      ensures forall i :: 0 <= i < |keys| ==>
        deleted[i] == (AllUp(keys, slot, up) && Unlinked(old(store), keys, keys[i]))
    {
      hide KeyGroup, Unlinked, DeletesDone, DeletedWhereUp, Without;
      var slotMap := GroupKeys(keys, slot);
      var resultMap: map<string, bool> := map[];
      var failed := false;
      var done: set<nat> := {};
      NoDeletesDone(store, keys, slot, up);
      while slotMap.Keys - done != {}
        invariant done <= slotMap.Keys
        invariant DeletesDone(store, old(store), keys, slot, up, done, resultMap)
        invariant failed <==> exists s :: s in done && !up(s)
        decreases slotMap.Keys - done
      {
        var s :| s in slotMap.Keys - done;
        if up(s) {
          ghost var before, answers := store, resultMap;
          resultMap := DeleteGroup(slotMap[s], resultMap);
          DeletesDoneStep(before, old(store), keys, slot, up, done, answers, s, resultMap);
        } else {
          DeletesDownStep(store, old(store), keys, slot, up, done, resultMap, s);
          failed := true;
        }
        done := done + {s};
      }
      AllDeletesDone(store, old(store), keys, slot, up, done, resultMap);
      assert failed <==> !AllUp(keys, slot, up);
      if failed { return seq(|keys|, _ => false); }
      deleted := seq(|keys|, i requires 0 <= i < |keys| => keys[i] in resultMap && resultMap[keys[i]]);
    }
  }

  lemma {:induction false} NoDeletesDone(store: Store, keys: seq<string>, slot: SlotFunction, up: nat -> bool)
    ensures DeletesDone(store, store, keys, slot, up, {}, map[])
  {
  }

  lemma {:induction false} DeletesDownStep(store: Store, before: Store, keys: seq<string>, slot: SlotFunction,
      up: nat -> bool, done: set<nat>, answers: map<string, bool>, s: nat)
    requires DeletesDone(store, before, keys, slot, up, done, answers) && !up(s)
    ensures DeletesDone(store, before, keys, slot, up, done + {s}, answers)
  {
  }

  lemma {:induction false} SameUnlinked(before: Store, start: Store, group: seq<string>, keys: seq<string>, k: string)
    requires k in before <==> k in start
    requires multiset(group)[k] == multiset(keys)[k]
    ensures Unlinked(before, group, k) == Unlinked(start, keys, k)
  {
  }

  function SlotZero(key: string): nat { 0 }

  lemma {:induction false} NoSetsDone(store: Store, final: Store, slot: SlotFunction, up: nat -> bool)
    ensures SetsDone(store, store, final, slot, up, {})
  {
  }

  lemma {:induction false} SetsDownStep(store: Store, before: Store, final: Store, slot: SlotFunction,
      up: nat -> bool, done: set<nat>, s: nat)
    requires SetsDone(store, before, final, slot, up, done) && !up(s)
    ensures SetsDone(store, before, final, slot, up, done + {s})
  {
  }

  lemma {:induction false} SomeEntry(entries: seq<Entry>, slot: SlotFunction, s: nat)
    requires Group(entries, slot, s) != []
    ensures exists i :: 0 <= i < |entries| && slot(entries[i].key) == s
  {
    GroupInOrder(entries, slot, s);
    var g := Group(entries, slot, s);
    assert g[0].entry == entries[g[0].index];
  }

  /** Writing the replies of a group back to the positions of its entries. */
  method ScatterReplies(results: seq<bool>, entries: seq<Entry>, slot: SlotFunction, accepts: Verdict,
      up: nat -> bool, ghost done: set<nat>, s: nat, replies: seq<bool>) returns (scattered: seq<bool>)
    requires ResultsDone(results, entries, slot, accepts, up, done)
    requires |replies| == |Group(entries, slot, s)|
    requires forall j :: 0 <= j < |replies| ==> replies[j] == accepts(Group(entries, slot, s)[j].entry)
    ensures ResultsDone(scattered, entries, slot, accepts, up, done + {s})
  {
    hide Group;
    var group := Group(entries, slot, s);
    GroupsPartition(entries, slot, s);
    scattered := results;
    for j := 0 to |group|
      invariant |scattered| == |entries|
      invariant forall m :: 0 <= m < j ==> scattered[group[m].index] == accepts(entries[group[m].index])
      invariant forall i :: 0 <= i < |results| && scattered[i] != results[i] ==>
        exists m :: 0 <= m < j && group[m].index == i
    {
      ghost var earlier := scattered;
      scattered := scattered[group[j].index := replies[j]];
      forall i | 0 <= i < |results| && scattered[i] != results[i]
        ensures exists m :: 0 <= m < j + 1 && group[m].index == i
      {
        if i != group[j].index {
          var m :| 0 <= m < j && group[m].index == i;
        }
      }
    }
  }
}
