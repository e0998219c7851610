/** The in-memory adapter: namespaced entries with deadlines inside a Map that several adapters may share. */
module Memory {
  import opened Texts
  import opened OrderedMap

  datatype Entry<V> = Entry(value: V, expires: Option<real>)

  type Store<V> = Entries<string, Entry<V>>

  // ---------- what one call does to the shared map ----------

  /** What every key of an adapter starts with: nothing without a namespace. */
  function PrefixOf(namespace: string, separator: string): string {
    if namespace == "" then "" else namespace + separator
  }

  predicate Dead<V>(e: Entry<V>, now: real) {
    e.expires.Some? && now > e.expires.value
  }

  function Fresh<V>(value: V, ttl: Option<real>, now: real): Entry<V> {
    Entry(value, if ttl.Some? && ttl.value != 0.0 then Some(now + ttl.value) else None)
  }

  /** The map without what `key` holds, if that is dead. */
  function Swept<V>(m: Store<V>, key: string, now: real): Store<V> {
    var e := Find(m, key);
    if e.Some? && Dead(e.value, now) then Remove(m, key) else m
  }

  function Lookup<V>(m: Store<V>, key: string, now: real): Option<V> {
    var e := Find(m, key);
    if e.Some? && !Dead(e.value, now) then Some(e.value.value) else None
  }

  /** The entries whose key starts with `prefix`, in order. */
  function View<V>(m: Store<V>, prefix: string): Store<V> {
    if m == [] then [] else if prefix <= m[0].0 then [m[0]] + View(m[1..], prefix) else View(m[1..], prefix)
  }

  /** The other entries. */
  function Without<V>(m: Store<V>, prefix: string): Store<V> {
    if m == [] then [] else if prefix <= m[0].0 then Without(m[1..], prefix) else [m[0]] + Without(m[1..], prefix)
  }

  /** The map without the dead entries under `prefix`. */
  function Reaped<V>(m: Store<V>, prefix: string, now: real): Store<V> {
    if m == [] then []
    else if prefix <= m[0].0 && Dead(m[0].1, now) then Reaped(m[1..], prefix, now)
    else [m[0]] + Reaped(m[1..], prefix, now)
  }

  /** What an iteration yields: the live entries under `prefix`, their keys without it. */
  function Listing<V>(m: Store<V>, prefix: string, now: real): seq<(string, V)> {
    if m == [] then []
    else if prefix <= m[0].0 && !Dead(m[0].1, now) then
      [(m[0].0[|prefix|..], m[0].1.value)] + Listing(m[1..], prefix, now)
    else Listing(m[1..], prefix, now)
  }

  datatype Action<V> =
    | Gets(key: string)
    | Sets(key: string, value: V, ttl: Option<real>)
    | Deletes(key: string)
    | Asks(key: string)
    | Clears
    | Iterates

  datatype Answer<V> = Found(value: Option<V>) | Flag(flag: bool) | Pairs(pairs: seq<(string, V)>) | Done

  function Perform<V>(m: Store<V>, prefix: string, action: Action<V>, now: real): (Store<V>, Answer<V>) {
    match action
    case Gets(key) => (Swept(m, prefix + key, now), Found(Lookup(m, prefix + key, now)))
    case Sets(key, value, ttl) => (Put(m, prefix + key, Fresh(value, ttl, now)), Flag(true))
    case Deletes(key) => (Remove(m, prefix + key), Flag(Find(m, prefix + key).Some?))
    case Asks(key) => (Swept(m, prefix + key, now), Flag(Lookup(m, prefix + key, now).Some?))
    case Clears => (Without(m, prefix), Done)
    case Iterates => (Reaped(m, prefix, now), Pairs(Listing(m, prefix, now)))
  }

  function PerformAll<V>(m: Store<V>, prefix: string, actions: seq<Action<V>>, now: real): (Store<V>, seq<Answer<V>>) {
    if actions == [] then (m, [])
    else
      var n := |actions| - 1;
      var (before, answers) := PerformAll(m, prefix, actions[..n], now);
      var (after, answer) := Perform(before, prefix, actions[n], now);
      (after, answers + [answer])
  }

  // ---------- the map while an iterator is open ----------

  /** The map cut at the position of an iterator: what it has passed, and what lies ahead. */
  datatype Walk<V> = Walk(done: Store<V>, todo: Store<V>) {
    function All(): Store<V> { done + todo }
  }

  /** A known key keeps its place, a new one lies ahead. */
  function PutIn<V>(w: Walk<V>, key: string, e: Entry<V>): Walk<V> {
    if Find(w.done, key).Some? then Walk(Put(w.done, key, e), w.todo) else Walk(w.done, Put(w.todo, key, e))
  }

  function RemoveIn<V>(w: Walk<V>, key: string): Walk<V> {
    if Find(w.done, key).Some? then Walk(Remove(w.done, key), w.todo) else Walk(w.done, Remove(w.todo, key))
  }

  function SweptIn<V>(w: Walk<V>, key: string, now: real): Walk<V> {
    var e := Find(w.All(), key);
    if e.Some? && Dead(e.value, now) then RemoveIn(w, key) else w
  }

  /** A call while an iterator is open. */
  function PerformIn<V>(w: Walk<V>, prefix: string, action: Action<V>, now: real): (Walk<V>, Answer<V>) {
    match action
    case Gets(key) => (SweptIn(w, prefix + key, now), Found(Lookup(w.All(), prefix + key, now)))
    case Sets(key, value, ttl) => (PutIn(w, prefix + key, Fresh(value, ttl, now)), Flag(true))
    case Deletes(key) => (RemoveIn(w, prefix + key), Flag(Find(w.All(), prefix + key).Some?))
    case Asks(key) => (SweptIn(w, prefix + key, now), Flag(Lookup(w.All(), prefix + key, now).Some?))
    case Clears => (Walk(Without(w.done, prefix), Without(w.todo, prefix)), Done)
    case Iterates => (Walk(Reaped(w.done, prefix, now), Reaped(w.todo, prefix, now)),
      Pairs(Listing(w.All(), prefix, now)))
  }

  lemma {:induction false} PutInIsPut<V>(w: Walk<V>, key: string, e: Entry<V>)
    ensures PutIn(w, key, e).All() == Put(w.All(), key, e)
    decreases |w.done|
  {
    if w.done == [] {
      assert w.All() == w.todo && [] + Put(w.todo, key, e) == Put(w.todo, key, e);
    } else {
      var rest := Walk(w.done[1..], w.todo);
      PutInIsPut(rest, key, e);
      assert w.All()[1..] == rest.All() && w.All()[0] == w.done[0];
    }
  }

  lemma {:induction false} RemoveInIsRemove<V>(w: Walk<V>, key: string)
    ensures RemoveIn(w, key).All() == Remove(w.All(), key)
    decreases |w.done|
  {
    if w.done == [] {
      assert w.All() == w.todo && [] + Remove(w.todo, key) == Remove(w.todo, key);
    } else {
      var rest := Walk(w.done[1..], w.todo);
      RemoveInIsRemove(rest, key);
      assert w.All()[1..] == rest.All() && w.All()[0] == w.done[0];
    }
  }

  // ---------- adapters that do not see each other ----------

  /** Neither prefix starts with the other. */
  predicate Apart(a: string, b: string) {
    !(a <= b) && !(b <= a)
  }

  lemma {:induction false} PrefixesOfOne(a: string, b: string, whole: string)
    requires a <= whole && b <= whole
    ensures a <= b || b <= a
  {
    assert whole[..|a|] == a && whole[..|b|] == b;
  }

  /** Exactly then no full key belongs to both. */
  lemma {:induction false} ApartMeansNoSharedKey(a: string, b: string)
    ensures Apart(a, b) <==> !exists k, l :: a + k == b + l
  {
    if a <= b { assert a + b[|a|..] == b + ""; }
    if b <= a { assert a + "" == b + a[|b|..]; }
    forall k: string, l: string | a + k == b + l
      ensures !Apart(a, b)
    {
      var whole := a + k;
      assert whole[..|a|] == a && whole[..|b|] == b;
    }
  }

  lemma {:induction false} ViewOfMine<V>(m: Store<V>, prefix: string, key: string)
    requires prefix <= key
    ensures Find(View(m, prefix), key) == Find(m, key)
    ensures View(Remove(m, key), prefix) == Remove(View(m, prefix), key)
  {
    if m == [] {
    } else {
      ViewOfMine(m[1..], prefix, key);
      if prefix <= m[0].0 { assert View(m, prefix)[1..] == View(m[1..], prefix); }
      if m[0].0 != key { assert Remove(m, key)[1..] == Remove(m[1..], key); }
    }
  }

  lemma {:induction false} ViewOfMyWrite<V>(m: Store<V>, prefix: string, key: string, e: Entry<V>)
    requires prefix <= key
    ensures View(Put(m, key, e), prefix) == Put(View(m, prefix), key, e)
  {
    if m == [] {
      assert Put(m, key, e)[1..] == [];
    } else {
      ViewOfMyWrite(m[1..], prefix, key, e);
      if prefix <= m[0].0 { assert View(m, prefix)[1..] == View(m[1..], prefix); }
      assert Put(m, key, e)[1..] == if m[0].0 == key then m[1..] else Put(m[1..], key, e);
    }
  }

  lemma {:induction false} ViewOfOthers<V>(m: Store<V>, prefix: string, key: string)
    requires !(prefix <= key)
    ensures View(Remove(m, key), prefix) == View(m, prefix)
  {
    if m == [] {
    } else {
      ViewOfOthers(m[1..], prefix, key);
      if m[0].0 != key { assert Remove(m, key)[1..] == Remove(m[1..], key); }
    }
  }

  lemma {:induction false} ViewOfOthersWrite<V>(m: Store<V>, prefix: string, key: string, e: Entry<V>)
    requires !(prefix <= key)
    ensures View(Put(m, key, e), prefix) == View(m, prefix)
  {
    if m == [] {
      assert Put(m, key, e)[1..] == [];
    } else {
      ViewOfOthersWrite(m[1..], prefix, key, e);
      assert Put(m, key, e)[1..] == if m[0].0 == key then m[1..] else Put(m[1..], key, e);
    }
  }

  /** Scans under one prefix leave what is under another alone ... */
  lemma {:induction false} ScansOfOthers<V>(m: Store<V>, other: string, prefix: string, now: real)
    requires Apart(other, prefix)
    ensures View(Without(m, other), prefix) == View(m, prefix)
    ensures View(Reaped(m, other, now), prefix) == View(m, prefix)
  {
    if m == [] {
    } else {
      ScansOfOthers(m[1..], other, prefix, now);
      if other <= m[0].0 {
        assert !(prefix <= m[0].0) by {
          if prefix <= m[0].0 { PrefixesOfOne(prefix, other, m[0].0); }
        }
      } else {
        assert Without(m, other)[1..] == Without(m[1..], other);
      }
      if !(other <= m[0].0 && Dead(m[0].1, now)) {
        assert Reaped(m, other, now)[1..] == Reaped(m[1..], other, now);
      }
    }
  }

  /** ... and under their own see nothing else. */
  lemma {:induction false} ScansOfMine<V>(m: Store<V>, prefix: string, now: real)
    ensures View(Without(m, prefix), prefix) == [] == Without(View(m, prefix), prefix)
    ensures View(Reaped(m, prefix, now), prefix) == Reaped(View(m, prefix), prefix, now)
    ensures Listing(View(m, prefix), prefix, now) == Listing(m, prefix, now)
  {
    if m == [] {
    } else {
      ScansOfMine(m[1..], prefix, now);
      if prefix <= m[0].0 {
        assert View(m, prefix)[1..] == View(m[1..], prefix);
      } else {
        assert Without(m, prefix)[1..] == Without(m[1..], prefix);
      }
      if !(prefix <= m[0].0 && Dead(m[0].1, now)) {
        assert Reaped(m, prefix, now)[1..] == Reaped(m[1..], prefix, now);
      }
    }
  }

  /** A call of an adapter answers from its own entries alone and changes them as if they were all. */
  lemma {:induction false} MineIsLocal<V>(m: Store<V>, prefix: string, action: Action<V>, now: real)
    ensures var (after, answer) := Perform(m, prefix, action, now);
      Perform(View(m, prefix), prefix, action, now) == (View(after, prefix), answer)
  {
    match action
    case Sets(key, value, ttl) => ViewOfMyWrite(m, prefix, prefix + key, Fresh(value, ttl, now));
    case Clears => ScansOfMine(m, prefix, now);
    case Iterates => ScansOfMine(m, prefix, now);
    case _ => ViewOfMine(m, prefix, prefix + action.key);
  }

  /** A call of another adapter does not touch them. */
  lemma {:induction false} OthersAreInvisible<V>(m: Store<V>, other: string, prefix: string, action: Action<V>,
      now: real)
    requires Apart(other, prefix)
    ensures View(Perform(m, other, action, now).0, prefix) == View(m, prefix)
  {
    ApartMeansNoSharedKey(other, prefix);
    match action
    case Sets(key, value, ttl) =>
      NotMine(other, prefix, key); ViewOfOthersWrite(m, prefix, other + key, Fresh(value, ttl, now));
    case Clears => ScansOfOthers(m, other, prefix, now);
    case Iterates => ScansOfOthers(m, other, prefix, now);
    case _ => NotMine(other, prefix, action.key); ViewOfOthers(m, prefix, other + action.key);
  }

  lemma {:induction false} NotMine(other: string, prefix: string, key: string)
    requires Apart(other, prefix)
    ensures !(prefix <= other + key)
  {
    assert other <= other + key;
    if prefix <= other + key { PrefixesOfOne(prefix, other, other + key); }
  }

  // ---------- whole runs ----------

  /** One call of the adapter with this prefix, at this moment. */
  datatype Step<V> = Step(prefix: string, action: Action<V>, now: real)

  /** What the adapter with prefix `mine` is answered in a run of all adapters. */
  function Answers<V>(m: Store<V>, mine: string, steps: seq<Step<V>>): seq<Answer<V>>
    decreases |steps|
  {
    if steps == [] then []
    else
      var (after, answer) := Perform(m, steps[0].prefix, steps[0].action, steps[0].now);
      if steps[0].prefix == mine then [answer] + Answers(after, mine, steps[1..]) else Answers(after, mine, steps[1..])
  }

  /** The calls of that adapter alone. */
  function Own<V>(mine: string, steps: seq<Step<V>>): seq<Step<V>> {
    if steps == [] then []
    else if steps[0].prefix == mine then [steps[0]] + Own(mine, steps[1..])
    else Own(mine, steps[1..])
  }

  /** Whatever other adapters do to the shared map, an adapter is answered as if it were alone with its own
      entries, provided no other prefix starts with its own or the other way round. */
  lemma {:induction false} RunsDoNotInterfere<V>(m: Store<V>, mine: string, steps: seq<Step<V>>)
    requires forall i :: 0 <= i < |steps| ==> steps[i].prefix == mine || Apart(steps[i].prefix, mine)
    ensures Answers(m, mine, steps) == Answers(View(m, mine), mine, Own(mine, steps))
    decreases |steps|
  {
    if steps == [] {
    } else {
      var s := steps[0];
      var after := Perform(m, s.prefix, s.action, s.now).0;
      RunsDoNotInterfere(after, mine, steps[1..]);
      if s.prefix == mine {
        MineIsLocal(m, mine, s.action, s.now);
        assert Own(mine, steps)[1..] == Own(mine, steps[1..]);
      } else {
        OthersAreInvisible(m, s.prefix, mine, s.action, s.now);
      }
    }
  }

  /** The condition is exact: without it some write of the other adapter changes what this one reads. */
  lemma {:induction false} InterferenceIff<V(!new)>(a: string, b: string, v: V)
    ensures Apart(a, b) <==>
      forall m: Store<V>, action, key, now ::
        Perform(Perform(m, a, action, now).0, b, Gets(key), now).1 == Perform(m, b, Gets(key), now).1
  {
    if Apart(a, b) {
      forall m: Store<V>, action, key, now
        ensures Perform(Perform(m, a, action, now).0, b, Gets(key), now).1 == Perform(m, b, Gets(key), now).1
      {
        OthersAreInvisible(m, a, b, action, now);
        MineIsLocal(m, b, Gets(key), now);
        MineIsLocal(Perform(m, a, action, now).0, b, Gets(key), now);
      }
    } else {
      ApartMeansNoSharedKey(a, b);
      var k, l :| a + k == b + l;
      var action := Sets(k, v, None);
      assert Perform(Perform([], a, action, 0.0).0, b, Gets(l), 0.0).1 != Perform([], b, Gets(l), 0.0).1;
    }
  }

  // ---------- namespaces without the separator ----------

  predicate OccursAt(s: string, part: string, i: int) {
    0 <= i <= |s| - |part| && s[i..i + |part|] == part
  }

  ghost predicate Contains(s: string, part: string) {
    exists i :: OccursAt(s, part, i)
  }

  /** No proper beginning of the separator is also its end; so for any separator of one character. */
  predicate Unbordered(separator: string) {
    forall o :: 0 < o < |separator| ==> separator[..o] != separator[|separator| - o..]
  }

  /** Namespaces that do not contain the separator are kept apart, if it cannot overlap itself ... */
  lemma {:induction false} SeparatorFreeApart(a: string, b: string, separator: string)
    requires a != b && a != "" && b != "" && separator != "" && Unbordered(separator)
    requires !Contains(a, separator) && !Contains(b, separator)
    ensures Apart(PrefixOf(a, separator), PrefixOf(b, separator))
  {
    if a + separator <= b + separator { NoOverlap(a, b, separator); }
    if b + separator <= a + separator { NoOverlap(b, a, separator); }
  }

  lemma {:induction false} NoOverlap(a: string, b: string, separator: string)
    requires separator != "" && Unbordered(separator) && !Contains(b, separator)
    requires a + separator <= b + separator
    ensures a == b
  {
    if |a| < |b| {
      OccurrenceOverlaps(a, b, separator);
    } else {
      assert (a + separator)[..|a|] == a && (b + separator)[..|b|] == b;
    }
  }

  lemma {:induction false} OccurrenceOverlaps(a: string, b: string, separator: string)
    requires a + separator <= b + separator && |a| < |b|
    ensures Contains(b, separator) || !Unbordered(separator)
  {
    var n, long := |separator|, b + separator;
    assert long[|a|..|a| + n] == (a + separator)[|a|..] == separator;
    if |a| + n <= |b| {
      assert b[|a|..|a| + n] == separator;
      assert OccursAt(b, separator, |a|);
    } else {
      var o := |a| + n - |b|;
      assert long[|b|..|b| + o] == separator[..o];
      assert long[|a|..|a| + n][n - o..] == long[|b|..|b| + o];
    }
  }

  /** ... and only then: a separator like `::` lets `x` and `x:` collide. */
  lemma {:induction false} SeparatorFreeIff(separator: string)
    requires separator != ""
    ensures Unbordered(separator) <==>
      forall a: string, b: string ::
        a != b && a != "" && b != "" && !Contains(a, separator) && !Contains(b, separator) ==>
          Apart(PrefixOf(a, separator), PrefixOf(b, separator))
  {
    if Unbordered(separator) {
      forall a: string, b: string |
        a != b && a != "" && b != "" && !Contains(a, separator) && !Contains(b, separator)
        ensures Apart(PrefixOf(a, separator), PrefixOf(b, separator))
      {
        SeparatorFreeApart(a, b, separator);
      }
    } else {
      var o :| 0 < o < |separator| && separator[..o] == separator[|separator| - o..];
      BorderedCollide(separator, o);
    }
  }

  lemma {:induction false} BorderedCollide(separator: string, o: nat)
    requires 0 < o < |separator| && separator[..o] == separator[|separator| - o..]
    ensures exists a: string, b: string ::
      && a != b && a != "" && b != "" && !Contains(a, separator) && !Contains(b, separator)
      && !Apart(PrefixOf(a, separator), PrefixOf(b, separator))
  {
    var n := |separator|;
    var c := if separator[0] == 'x' then 'y' else 'x';
    var a, b := [c], [c] + separator[..n - o];
    forall i
      ensures !OccursAt(b, separator, i)
    {
      if 0 <= i <= |b| - n { assert b[i..i + n][0] == b[0] == c; }
    }
    assert separator == separator[..n - o] + separator[n - o..] == separator[..o] + separator[o..];
    assert b + separator == a + separator + separator[o..];
    assert a + separator <= b + separator;
    assert !Contains(a, separator) && !Contains(b, separator);
  }

  // ---------- iteration ----------

  /** An iteration yields each live key of the adapter, as it was given, with its value, and nothing else. */
  lemma {:induction false} ListingIsTheLiveEntries<V(!new)>(m: Store<V>, prefix: string, now: real)
    requires DistinctKeys(m)
    ensures forall k, v :: (k, v) in Listing(m, prefix, now) <==> Lookup(m, prefix + k, now) == Some(v)
    ensures DistinctKeys(Listing(m, prefix, now))
  {
    if m == [] {
    } else {
      ListingIsTheLiveEntries(m[1..], prefix, now);
      var e, rest, all := m[0], Listing(m[1..], prefix, now), Listing(m, prefix, now);
      FindSpec(m[1..], e.0);
      forall k, v
        ensures (k, v) in all <==> Lookup(m, prefix + k, now) == Some(v)
      {
        assert (prefix + k)[|prefix|..] == k;
        if prefix <= e.0 { assert e.0 == prefix + e.0[|prefix|..]; }
      }
      if prefix <= e.0 && !Dead(e.1, now) {
        assert prefix + e.0[|prefix|..] == e.0;
        forall j | 0 < j < |all|
          ensures all[j].0 != all[0].0
        {
          assert (all[j].0, all[j].1) == rest[j - 1];
          assert (all[j].0, all[j].1) in rest;
        }
        assert all[1..] == rest;
      }
    }
  }

  // ---------- calls of others in between ----------

  /** What a run of calls, of whichever adapters, makes of the map. */
  function Meanwhile<V>(w: Walk<V>, steps: seq<Step<V>>): Walk<V> {
    if steps == [] then w
    else
      var last := steps[|steps| - 1];
      PerformIn(Meanwhile(w, steps[..|steps| - 1]), last.prefix, last.action, last.now).0
  }

  /** Asking for one key after the other, the n-th at its own time and after the n-th run of other calls. */
  function AskedAmong<V>(w: Walk<V>, prefix: string, keys: seq<string>, times: nat -> real,
      others: nat -> seq<Step<V>>): (Walk<V>, seq<bool>) {
    if keys == [] then (w, [])
    else
      var n := |keys| - 1;
      var (before, answers) := AskedAmong(w, prefix, keys[..n], times, others);
      var here := Meanwhile(before, others(n));
      (SweptIn(here, prefix + keys[n], times(n)),
       answers + [Lookup(here.All(), prefix + keys[n], times(n)).Some?])
  }

  lemma {:induction false} AskedAmongNext<V>(w: Walk<V>, prefix: string, keys: seq<string>, times: nat -> real,
      others: nat -> seq<Step<V>>, i: nat)
    requires i < |keys|
    ensures var (before, answers) := AskedAmong(w, prefix, keys[..i], times, others);
      var here := Meanwhile(before, others(i));
      AskedAmong(w, prefix, keys[..i + 1], times, others) ==
        (SweptIn(here, prefix + keys[i], times(i)),
         answers + [Lookup(here.All(), prefix + keys[i], times(i)).Some?])
  {
    hide SweptIn, Lookup, Meanwhile;
    assert keys[..i + 1][..i] == keys[..i];
  }

  /** With nobody else at work and at one instant that is a batch of calls in turn. */
  lemma {:induction false} AskedAlone<V>(w: Walk<V>, prefix: string, keys: seq<string>, times: nat -> real,
      others: nat -> seq<Step<V>>, now: real)
    requires forall n :: 0 <= n < |keys| ==> times(n) == now && others(n) == []
    ensures var (after, answers) := AskedAmong(w, prefix, keys, times, others);
      (after.All(), Flags(answers)) == PerformAll(w.All(), prefix, Asking(keys), now)
  {
    hide Lookup, SweptIn, Meanwhile, Perform;
    if keys == [] {
      assert Flags<V>([]) == [] && Asking<V>([]) == [];
    } else {
      var n := |keys| - 1;
      AskedAlone(w, prefix, keys[..n], times, others, now);
      assert Asking<V>(keys)[..n] == Asking(keys[..n]) && Asking<V>(keys)[n] == Asks(keys[n]);
      var (before, answers) := AskedAmong(w, prefix, keys[..n], times, others);
      assert others(n) == [] && times(n) == now;
      AskedOnce(before, prefix, keys[n], now);
      var live := Lookup(before.All(), prefix + keys[n], now).Some?;
      assert Flags<V>(answers + [live]) == Flags(answers) + [Flag(live)];
    }
  }

  lemma {:induction false} AskedOnce<V>(w: Walk<V>, prefix: string, key: string, now: real)
    ensures Meanwhile(w, []) == w
    ensures Perform(w.All(), prefix, Asks(key), now) ==
      (SweptIn(w, prefix + key, now).All(), Flag(Lookup(w.All(), prefix + key, now).Some?))
  {
    hide Find, Remove, RemoveIn;
    RemoveInIsRemove(w, prefix + key);
  }

  lemma {:induction false} WithoutConcat<V>(a: Store<V>, b: Store<V>, prefix: string)
    ensures Without(a + b, prefix) == Without(a, prefix) + Without(b, prefix)
  {
    if a == [] {
      assert a + b == b;
    } else {
      WithoutConcat(a[1..], b, prefix);
      assert (a + b)[1..] == a[1..] + b && (a + b)[0] == a[0];
      var rest, more := Without(a[1..], prefix), Without(b, prefix);
      assert [a[0]] + (rest + more) == [a[0]] + rest + more;
    }
  }

  lemma {:induction false} ReapedConcat<V>(a: Store<V>, b: Store<V>, prefix: string, now: real)
    ensures Reaped(a + b, prefix, now) == Reaped(a, prefix, now) + Reaped(b, prefix, now)
  {
    if a == [] {
      assert a + b == b;
    } else {
      ReapedConcat(a[1..], b, prefix, now);
      assert (a + b)[1..] == a[1..] + b && (a + b)[0] == a[0];
      var rest, more := Reaped(a[1..], prefix, now), Reaped(b, prefix, now);
      assert [a[0]] + (rest + more) == [a[0]] + rest + more;
    }
  }

  lemma {:induction false} FirstApart<V>(m: Store<V>)
    requires DistinctKeys(m)
    ensures m == [] ==> DistinctKeys<string, Entry<V>>([])
    ensures m != [] ==> DistinctKeys(m[1..]) && forall e :: e in m[1..] ==> e.0 != m[0].0
  {
    if m != [] {
      forall e | e in m[1..]
        ensures e.0 != m[0].0
      {
        var i :| 0 <= i < |m[1..]| && m[1..][i] == e;
        assert m[i + 1] == e;
      }
    }
  }

  lemma {:induction false} FirstAdded<V>(first: (string, Entry<V>), rest: Store<V>)
    requires DistinctKeys(rest)
    ensures (forall e :: e in rest ==> e.0 != first.0) ==> DistinctKeys([first] + rest)
  {
    var m := [first] + rest;
    assert forall i :: 1 <= i < |m| ==> m[i] == rest[i - 1] && rest[i - 1] in rest;
  }

  lemma {:induction false} WithoutKeepsDistinct<V>(m: Store<V>, prefix: string)
    requires DistinctKeys(m)
    ensures DistinctKeys(Without(m, prefix))
    ensures forall e :: e in Without(m, prefix) ==> e in m
  {
    hide DistinctKeys;
    if m == [] {
      FirstApart(m);
    } else {
      FirstApart(m);
      WithoutKeepsDistinct(m[1..], prefix);
      FirstAdded(m[0], Without(m[1..], prefix));
      assert m == [m[0]] + m[1..];
    }
  }

  lemma {:induction false} ReapedKeepsDistinct<V>(m: Store<V>, prefix: string, now: real)
    requires DistinctKeys(m)
    ensures DistinctKeys(Reaped(m, prefix, now))
    ensures forall e :: e in Reaped(m, prefix, now) ==> e in m
  {
    hide DistinctKeys;
    if m == [] {
      FirstApart(m);
    } else {
      FirstApart(m);
      ReapedKeepsDistinct(m[1..], prefix, now);
      FirstAdded(m[0], Reaped(m[1..], prefix, now));
      assert m == [m[0]] + m[1..];
    }
  }

  lemma {:induction false} CallKeepsDistinct<V>(w: Walk<V>, prefix: string, action: Action<V>, now: real)
    requires DistinctKeys(w.All())
    ensures DistinctKeys(PerformIn(w, prefix, action, now).0.All())
  {
    hide DistinctKeys, Find, Put, Remove, PutIn, RemoveIn, Without, Reaped, Listing;
    match action
    case Clears => WithoutConcat(w.done, w.todo, prefix); WithoutKeepsDistinct(w.All(), prefix);
    case Iterates => ReapedConcat(w.done, w.todo, prefix, now); ReapedKeepsDistinct(w.All(), prefix, now);
    case Sets(key, value, ttl) =>
      PutInIsPut(w, prefix + key, Fresh(value, ttl, now));
      PutSpec(w.All(), prefix + key, Fresh(value, ttl, now));
    case _ => RemoveInIsRemove(w, prefix + action.key); RemoveSpec(w.All(), prefix + action.key);
  }

  lemma {:induction false} CallsKeepDistinct<V>(w: Walk<V>, steps: seq<Step<V>>)
    requires DistinctKeys(w.All())
    ensures DistinctKeys(Meanwhile(w, steps).All())
  {
    hide DistinctKeys, PerformIn;
    if steps == [] {
    } else {
      var last := steps[|steps| - 1];
      CallsKeepDistinct(w, steps[..|steps| - 1]);
      CallKeepsDistinct(Meanwhile(w, steps[..|steps| - 1]), last.prefix, last.action, last.now);
    }
  }

  // ---------- the adapter ----------

  class JsMap<V> {
    var entries: Store<V>
    /** The position of the open iterator: deletions before it move it back, as the language has it. */
    var cursor: nat

    ghost predicate Valid()
      reads this
    {
      DistinctKeys(entries) && cursor <= |entries|
    }

    ghost function Halves(): Walk<V>
      reads this
      requires Valid()
    {
      Walk(entries[..cursor], entries[cursor..])
    }

    constructor ()
      ensures Valid() && entries == []
    {
      entries, cursor := [], 0;
    }

    method Set(key: string, e: Entry<V>)
      requires Valid()
      modifies this
      ensures Valid() && entries == Put(old(entries), key, e)
      ensures Halves() == PutIn(old(Halves()), key, e)
    {
      PutSpec(entries, key, e);
      HalvesMake(entries, cursor);
      PutInIsPut(Halves(), key, e);
      PutShape(entries[..cursor], key, e);
      ghost var after := PutIn(Halves(), key, e);
      entries := Put(entries, key, e);
      assert |after.done| == cursor && after.All()[..cursor] == after.done && after.All()[cursor..] == after.todo;
    }

    method Delete(key: string) returns (existed: bool)
      requires Valid()
      modifies this
      ensures Valid() && entries == Remove(old(entries), key) && existed == Find(old(entries), key).Some?
      ensures Halves() == RemoveIn(old(Halves()), key)
    {
      hide Find, Remove, RemoveIn, KeptFrom;
      existed := Find(entries, key).Some?;
      RemoveSpec(entries, key);
      HalvesAfterDelete(entries, cursor, key);
      if Find(entries[..cursor], key).Some? {
        cursor := cursor - 1;
      }
      entries := Remove(entries, key);
    }

    method Clear()
      modifies this
      ensures Valid() && entries == [] && cursor == 0
    {
      entries, cursor := [], 0;
    }

    /** Calls of whichever adapters on this map. */
    method Await(steps: seq<Step<V>>)
      requires Valid()
      modifies this
      ensures Valid() && Halves() == Meanwhile(old(Halves()), steps)
    {
      HalvesMake(entries, cursor);
      CallsKeepDistinct(Walk(entries[..cursor], entries[cursor..]), steps);
      var after := Meanwhile(Walk(entries[..cursor], entries[cursor..]), steps);
      entries, cursor := after.All(), |after.done|;
      assert entries[..cursor] == after.done && entries[cursor..] == after.todo;
    }
  }

  /** A deletion before the cursor moves it back. */
  lemma {:induction false} HalvesAfterDelete<V>(m: Store<V>, cursor: nat, key: string)
    requires DistinctKeys(m) && cursor <= |m|
    ensures var r := Remove(m, key);
      var moved := if Find(m[..cursor], key).Some? then cursor - 1 else cursor;
      0 <= moved <= |r| && Walk(r[..moved], r[moved..]) == RemoveIn(Walk(m[..cursor], m[cursor..]), key)
  {
    hide Find, Remove, KeptFrom;
    var w := Walk(m[..cursor], m[cursor..]);
    HalvesMake(m, cursor);
    DistinctHalves(w);
    RemoveInIsRemove(w, key);
    RemoveSpec(w.done, key);
    var after := RemoveIn(w, key);
    assert after.All()[..|after.done|] == after.done && after.All()[|after.done|..] == after.todo;
  }

  lemma {:induction false} NobodyAsked<V>(w: Walk<V>, prefix: string, times: nat -> real, others: nat -> seq<Step<V>>)
    ensures AskedAmong(w, prefix, [], times, others) == (w, [])
  {
  }

  lemma {:induction false} HalvesMake<V>(m: Store<V>, cursor: nat)
    requires cursor <= |m|
    ensures Walk(m[..cursor], m[cursor..]).All() == m
  {
  }

  /** The entries whose key is not in `gone`. */
  ghost function Excluding<V>(m: Store<V>, gone: set<string>): Store<V> {
    if m == [] then [] else if m[0].0 in gone then Excluding(m[1..], gone) else [m[0]] + Excluding(m[1..], gone)
  }

  lemma {:induction false} ExcludingNothing<V>(m: Store<V>)
    ensures Excluding(m, {}) == m
  {
    if m == [] {
    } else {
      ExcludingNothing(m[1..]);
    }
  }

  lemma {:induction false} ExcludingUnseen<V>(m: Store<V>, gone: set<string>, key: string)
    requires forall i :: 0 <= i < |m| ==> m[i].0 != key
    ensures Excluding(m, gone + {key}) == Excluding(m, gone)
    ensures Remove(Excluding(m, gone), key) == Excluding(m, gone)
  {
    if m == [] {
    } else {
      ExcludingUnseen(m[1..], gone, key);
      if m[0].0 !in gone { assert Excluding(m, gone)[1..] == Excluding(m[1..], gone); }
    }
  }

  lemma {:induction false} ExcludingOneMore<V>(m: Store<V>, gone: set<string>, key: string)
    requires DistinctKeys(m)
    ensures Remove(Excluding(m, gone), key) == Excluding(m, gone + {key})
  {
    if m == [] {
    } else {
      if m[0].0 == key {
        ExcludingUnseen(m[1..], gone, key);
        if key !in gone { assert Excluding(m, gone)[1..] == Excluding(m[1..], gone); }
      } else {
        ExcludingOneMore(m[1..], gone, key);
        if m[0].0 !in gone { assert Excluding(m, gone)[1..] == Excluding(m[1..], gone); }
      }
    }
  }

  lemma {:induction false} ExcludingPrefixed<V>(m: Store<V>, prefix: string, gone: set<string>)
    requires forall i :: 0 <= i < |m| ==> (m[i].0 in gone <==> prefix <= m[i].0)
    ensures Excluding(m, gone) == Without(m, prefix)
  {
    if m == [] {
    } else {
      ExcludingPrefixed(m[1..], prefix, gone);
    }
  }

  lemma {:induction false} ExcludingDead<V>(m: Store<V>, prefix: string, now: real, gone: set<string>)
    requires forall i :: 0 <= i < |m| ==> (m[i].0 in gone <==> prefix <= m[i].0 && Dead(m[i].1, now))
    ensures Excluding(m, gone) == Reaped(m, prefix, now)
  {
    if m == [] {
    } else {
      ExcludingDead(m[1..], prefix, now, gone);
    }
  }

  lemma {:induction false} ListingSnoc<V>(m: Store<V>, e: (string, Entry<V>), prefix: string, now: real)
    ensures Listing(m + [e], prefix, now) ==
      Listing(m, prefix, now) + if prefix <= e.0 && !Dead(e.1, now) then [(e.0[|prefix|..], e.1.value)] else []
  {
    if m == [] {
      assert (m + [e])[1..] == [];
    } else {
      assert (m + [e])[1..] == m[1..] + [e];
      ListingSnoc(m[1..], e, prefix, now);
    }
  }

  lemma {:induction false} NothingWithoutPrefix<V>(m: Store<V>)
    ensures Without(m, "") == []
  {
    if m == [] {
    } else {
      NothingWithoutPrefix(m[1..]);
    }
  }

  lemma {:induction false} ExcludingInHalves<V>(w: Walk<V>, gone: set<string>, key: string)
    requires DistinctKeys(w.All())
    ensures var more := gone + {key};
      RemoveIn(Walk(Excluding(w.done, gone), Excluding(w.todo, gone)), key) ==
        Walk(Excluding(w.done, more), Excluding(w.todo, more))
  {
    hide Excluding, Find, Remove;
    DistinctHalves(w);
    FindSpec(w.done, key);
    FindSpec(w.todo, key);
    ExcludingOneMore(w.done, gone, key);
    ExcludingOneMore(w.todo, gone, key);
    RemoveShape(Excluding(w.done, gone), key);
    if Find(w.done, key) == None {
      ExcludingUnseen(w.done, gone, key);
      ExcludingFinds(w.done, gone, key);
    } else {
      ExcludingUnseen(w.todo, gone, key);
    }
  }

  lemma {:induction false} ExcludingFinds<V>(m: Store<V>, gone: set<string>, key: string)
    requires Find(m, key) == None
    ensures Find(Excluding(m, gone), key) == None
  {
    if m == [] {
    } else {
      ExcludingFinds(m[1..], gone, key);
      if m[0].0 !in gone { assert Excluding(m, gone)[1..] == Excluding(m[1..], gone); }
    }
  }

  lemma {:induction false} DistinctHalves<V>(w: Walk<V>)
    requires DistinctKeys(w.All())
    ensures DistinctKeys(w.done) && DistinctKeys(w.todo)
    ensures forall i, j :: 0 <= i < |w.done| && 0 <= j < |w.todo| ==> w.done[i].0 != w.todo[j].0
  {
    var m, n := w.All(), |w.done|;
    assert forall i :: 0 <= i < n ==> w.done[i].0 == m[i].0;
    assert forall j :: 0 <= j < |w.todo| ==> w.todo[j].0 == m[n + j].0;
  }

  function Getting<V>(keys: seq<string>): seq<Action<V>> { seq(|keys|, i requires 0 <= i < |keys| => Gets(keys[i])) }

  function Asking<V>(keys: seq<string>): seq<Action<V>> { seq(|keys|, i requires 0 <= i < |keys| => Asks(keys[i])) }

  function Deleting<V>(keys: seq<string>): seq<Action<V>> {
    seq(|keys|, i requires 0 <= i < |keys| => Deletes(keys[i]))
  }

  function Setting<V>(entries: seq<(string, V, Option<real>)>): seq<Action<V>> {
    seq(|entries|, i requires 0 <= i < |entries| => Sets(entries[i].0, entries[i].1, entries[i].2))
  }

  function Flags<V>(flags: seq<bool>): seq<Answer<V>> { seq(|flags|, i requires 0 <= i < |flags| => Flag(flags[i])) }

  function Values<V>(values: seq<Option<V>>): seq<Answer<V>> {
    seq(|values|, i requires 0 <= i < |values| => Found(values[i]))
  }

  lemma {:induction false} NothingPerformed<V>(m: Store<V>, prefix: string, now: real)
    ensures PerformAll(m, prefix, [], now) == (m, [])
    ensures Getting<V>([]) == []
  {
  }

  lemma {:induction false} GettingNext<V>(m: Store<V>, prefix: string, keys: seq<string>, i: nat, now: real)
    requires i < |keys|
    ensures var (before, answers) := PerformAll(m, prefix, Getting(keys[..i]), now);
      PerformAll(m, prefix, Getting(keys[..i + 1]), now) ==
        (Swept(before, prefix + keys[i], now), answers + [Found(Lookup(before, prefix + keys[i], now))])
  {
    hide Swept, Lookup;
    assert Getting<V>(keys[..i + 1])[..i] == Getting(keys[..i]);
  }

  class StorelyMemoryAdapter<V> {
    var store: JsMap<V>
    var namespace: string
    var keySeparator: string

    ghost predicate Valid()
      reads this, store
    {
      store.Valid()
    }

    constructor (store: JsMap<V>, namespace: string, keySeparator: string)
      requires store.Valid()
      ensures Valid() && this.store == store && this.namespace == namespace
      ensures this.keySeparator == if keySeparator == "" then ":" else keySeparator
    {
      this.store, this.namespace := store, namespace;
      this.keySeparator := if keySeparator == "" then ":" else keySeparator;
    }

    function Prefix(): string
      reads this
    {
      PrefixOf(namespace, keySeparator)
    }

    /** `getKeyPrefix`. */
    function KeyPrefix(key: string): (full: string)
      reads this
      ensures full == Prefix() + key
    {
      if namespace != "" then namespace + keySeparator + key else key
    }

    /** `getKeyPrefixData`: undoes `getKeyPrefix`, and leaves foreign keys alone. */
    function KeyPrefixData(full: string): (r: (string, string))
      reads this
      ensures Prefix() <= full ==> KeyPrefix(r.1) == full && r.0 == namespace
      ensures !(Prefix() <= full) ==> r == ("", full)
    {
      if namespace != "" && namespace + keySeparator <= full
        then (namespace, full[|namespace| + |keySeparator|..])
      else ("", full)
    }

    method Get(key: string, now: real) returns (value: Option<V>)
      requires Valid()
      modifies store
      ensures Valid()
      ensures (store.entries, Found(value)) == Perform(old(store.entries), Prefix(), Gets(key), now)
      ensures (store.Halves(), Found(value)) == PerformIn(old(store.Halves()), Prefix(), Gets(key), now)
    {
      HalvesMake(store.entries, store.cursor);
      var full := KeyPrefix(key);
      var entry := Find(store.entries, full);
      if entry == None {
        return None;
      }
      if entry.value.expires.Some? && now > entry.value.expires.value {
        var _ := store.Delete(full);
        return None;
      }
      value := Some(entry.value.value);
    }

    method Set(key: string, value: V, ttl: Option<real>, now: real) returns (ok: bool)
      requires Valid()
      modifies store
      ensures Valid()
      ensures (store.entries, Flag(ok)) == Perform(old(store.entries), Prefix(), Sets(key, value, ttl), now)
      ensures (store.Halves(), Flag(ok)) == PerformIn(old(store.Halves()), Prefix(), Sets(key, value, ttl), now)
    {
      store.Set(KeyPrefix(key), Fresh(value, ttl, now));
      ok := true;
    }

    method Delete(key: string) returns (existed: bool)
      requires Valid()
      modifies store
      ensures Valid()
      ensures forall now :: (store.entries, Flag(existed)) == Perform(old(store.entries), Prefix(), Deletes(key), now)
      ensures forall now ::
        (store.Halves(), Flag(existed)) == PerformIn(old(store.Halves()), Prefix(), Deletes(key), now)
    {
      HalvesMake(store.entries, store.cursor);
      existed := store.Delete(KeyPrefix(key));
    }

    method Has(key: string, now: real) returns (live: bool)
      requires Valid()
      modifies store
      ensures Valid()
      ensures (store.entries, Flag(live)) == Perform(old(store.entries), Prefix(), Asks(key), now)
      ensures (store.Halves(), Flag(live)) == PerformIn(old(store.Halves()), Prefix(), Asks(key), now)
    {
      HalvesMake(store.entries, store.cursor);
      var full := KeyPrefix(key);
      var entry := Find(store.entries, full);
      if entry == None {
        return false;
      }
      if entry.value.expires.Some? && now > entry.value.expires.value {
        var _ := store.Delete(full);
        return false;
      }
      live := true;
    }

    method SetMany(entries: seq<(string, V, Option<real>)>, now: real) returns (results: seq<bool>)
      requires Valid()
      modifies store
      ensures Valid() && store == old(store)
      ensures (store.entries, Flags(results)) == PerformAll(old(store.entries), Prefix(), Setting(entries), now)
    {
      results := [];
      assert Flags<V>([]) == [];
      for i := 0 to |entries|
        invariant Valid()
        invariant (store.entries, Flags(results)) ==
          PerformAll(old(store.entries), Prefix(), Setting(entries[..i]), now)
      {
        store.Set(KeyPrefix(entries[i].0), Fresh(entries[i].1, entries[i].2, now));
        assert Setting<V>(entries[..i + 1])[..i] == Setting(entries[..i]);
        assert Flags<V>(results + [true]) == Flags(results) + [Flag(true)];
        results := results + [true];
      }
      assert entries[..|entries|] == entries;
    }

    /** `hasMany` awaits each `has`: `others(n)` is what runs before the n-th, which comes at `times(n)`. */
    method HasMany(keys: seq<string>, times: nat -> real, others: nat -> seq<Step<V>>) returns (results: seq<bool>)
      requires Valid()
      modifies store
      ensures Valid()
      ensures (store.Halves(), results) == AskedAmong(old(store.Halves()), Prefix(), keys, times, others)
      ensures forall now: real {:trigger PerformAll(old(store.entries), Prefix(), Asking(keys), now)} ::
        (forall n :: 0 <= n < |keys| ==> times(n) == now && others(n) == []) ==>
          (store.entries, Flags(results)) == PerformAll(old(store.entries), Prefix(), Asking(keys), now)
    {
      hide AskedAmong, Meanwhile, PerformAll, SweptIn, Lookup;
      results := [];
      ghost var before := store.Halves();
      NobodyAsked(before, Prefix(), times, others);
      for i := 0 to |keys|
        invariant Valid()
        invariant (store.Halves(), results) == AskedAmong(before, Prefix(), keys[..i], times, others)
      {
        AskedAmongNext(before, Prefix(), keys, times, others, i);
        store.Await(others(i));
        HalvesMake(store.entries, store.cursor);
        var live := Has(keys[i], times(i));
        results := results + [live];
      }
      assert keys[..|keys|] == keys;
      HalvesMake(store.entries, store.cursor);
      forall now: real | forall n :: 0 <= n < |keys| ==> times(n) == now && others(n) == []
        ensures (store.entries, Flags(results)) == PerformAll(old(store.entries), Prefix(), Asking(keys), now)
      {
        HalvesMake(old(store.entries), old(store.cursor));
        AskedAlone(before, Prefix(), keys, times, others, now);
      }
    }

    method GetMany(keys: seq<string>, now: real) returns (values: seq<Option<V>>)
      requires Valid()
      modifies store
      ensures Valid()
      ensures (store.entries, Values(values)) == PerformAll(old(store.entries), Prefix(), Getting(keys), now)
    {
      hide Find, Remove, DistinctKeys, PerformAll;
      values := [];
      assert Values<V>([]) == [];
      NothingPerformed(store.entries, Prefix(), now);
      for i := 0 to |keys|
        invariant Valid()
        invariant (store.entries, Values(values)) == PerformAll(old(store.entries), Prefix(), Getting(keys[..i]), now)
      {
        var full := KeyPrefix(keys[i]);
        GettingNext(old(store.entries), Prefix(), keys, i, now);
        var entry := Find(store.entries, full);
        var value := None;
        if entry.Some? {
          if entry.value.expires.Some? && now > entry.value.expires.value {
            var _ := store.Delete(full);
          } else {
            value := Some(entry.value.value);
          }
        }
        assert Values(values + [value]) == Values(values) + [Found(value)];
        values := values + [value];
      }
      assert keys[..|keys|] == keys;
    }

    method DeleteMany(keys: seq<string>, now: real) returns (results: seq<bool>)
      requires Valid()
      modifies store
      ensures Valid()
      ensures (store.entries, Flags(results)) == PerformAll(old(store.entries), Prefix(), Deleting(keys), now)
    {
      results := [];
      assert Flags<V>([]) == [];
      for i := 0 to |keys|
        invariant Valid()
        invariant (store.entries, Flags(results)) == PerformAll(old(store.entries), Prefix(), Deleting(keys[..i]), now)
      {
        var existed := store.Delete(KeyPrefix(keys[i]));
        assert Deleting<V>(keys[..i + 1])[..i] == Deleting(keys[..i]);
        assert Flags<V>(results + [existed]) == Flags(results) + [Flag(existed)];
        results := results + [existed];
      }
      assert keys[..|keys|] == keys;
    }

    method Clear()
      requires Valid()
      modifies store
      ensures Valid()
      ensures forall now :: store.entries == Perform(old(store.entries), Prefix(), Clears, now).0
      ensures forall now :: store.Halves() == PerformIn(old(store.Halves()), Prefix(), Clears, now).0
    {
      hide Without, Excluding, Find, Remove, DistinctKeys;
      ghost var was, halves := store.entries, store.Halves();
      HalvesMake(was, store.cursor);
      if namespace == "" {
        ExcludingPrefixed(was, "", set e | e in was :: e.0);
        AllExcluded(was, set e | e in was :: e.0);
        NothingWithoutPrefix(halves.done);
        NothingWithoutPrefix(halves.todo);
        store.Clear();
        return;
      }
      var prefix := namespace + keySeparator;
      var keysToDelete: seq<string> := [];
      for i := 0 to |store.entries|
        invariant store.entries == was
        invariant forall j :: 0 <= j < i ==> (was[j].0 in keysToDelete <==> prefix <= was[j].0)
        invariant forall k :: k in keysToDelete ==> prefix <= k
      {
        if prefix <= store.entries[i].0 {
          keysToDelete := keysToDelete + [store.entries[i].0];
        }
      }
      ghost var gone: set<string> := {};
      ExcludingNothing(was);
      ExcludingNothing(halves.done);
      ExcludingNothing(halves.todo);
      for i := 0 to |keysToDelete|
        invariant Valid()
        invariant gone == set k | k in keysToDelete[..i]
        invariant store.entries == Excluding(was, gone)
        invariant store.Halves() == Walk(Excluding(halves.done, gone), Excluding(halves.todo, gone))
      {
        ExcludingOneMore(was, gone, keysToDelete[i]);
        ExcludingInHalves(halves, gone, keysToDelete[i]);
        var _ := store.Delete(keysToDelete[i]);
        gone := gone + {keysToDelete[i]};
      }
      assert keysToDelete[..|keysToDelete|] == keysToDelete;
      ExcludingPrefixed(was, prefix, gone);
      assert was == halves.done + halves.todo;
      ExcludingPrefixed(halves.done, prefix, gone);
      ExcludingPrefixed(halves.todo, prefix, gone);
    }

    /** One uninterrupted iteration: dead entries of the namespace are deleted as they are met. */
    method Iterate(now: real) returns (yielded: seq<(string, V)>)
      requires Valid()
      modifies store
      ensures Valid()
      ensures (store.entries, Pairs(yielded)) == Perform(old(store.entries), Prefix(), Iterates, now)
    {
      hide Find, Remove, RemoveIn, Excluding, Listing, Reaped;
      var was := store.entries;
      var prefix := Prefix();
      yielded := [];
      ghost var gone: set<string> := {};
      ExcludingNothing(was);
      NothingListed<V>(prefix, now);
      for i := 0 to |was|
        invariant Valid()
        invariant yielded == Listing(was[..i], prefix, now)
        invariant store.entries == Excluding(was, gone)
        invariant gone == set j | 0 <= j < i && prefix <= was[j].0 && Dead(was[j].1, now) :: was[j].0
      {
        var (key, entry) := was[i];
        assert was[..i + 1] == was[..i] + [was[i]];
        ListingSnoc(was[..i], was[i], prefix, now);
        if prefix <= key {
          if entry.expires.Some? && now > entry.expires.value {
            ExcludingOneMore(was, gone, key);
            var _ := store.Delete(key);
            gone := gone + {key};
          } else {
            yielded := yielded + [(key[|prefix|..], entry.value)];
          }
        }
      }
      assert was[..|was|] == was;
      ExcludingDead(was, prefix, now, gone);
    }
  }

  lemma {:induction false} NothingListed<V>(prefix: string, now: real)
    ensures Listing<V>([], prefix, now) == []
  {
  }

  lemma {:induction false} AllExcluded<V>(m: Store<V>, gone: set<string>)
    requires forall i :: 0 <= i < |m| ==> m[i].0 in gone
    ensures Excluding(m, gone) == []
  {
    if m == [] {
    } else {
      AllExcluded(m[1..], gone);
    }
  }
}
