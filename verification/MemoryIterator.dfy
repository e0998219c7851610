/** The generator of the in-memory adapter, step by step, while the adapters that share the map go on working. */
module MemoryIterator {
  import opened Texts
  import opened OrderedMap
  import opened Memory

  /** `next()`: foreign entries are passed over, dead ones deleted, the first live one is yielded. */
  function NextOf<V>(w: Walk<V>, prefix: string, now: real): (Walk<V>, Option<(string, V)>)
    decreases |w.todo|
  {
    if w.todo == [] then (w, None)
    else
      var e := w.todo[0];
      var past := Walk(w.done + [e], w.todo[1..]);
      if !(prefix <= e.0) then NextOf(past, prefix, now)
      else if Dead(e.1, now) then NextOf(Walk(w.done, w.todo[1..]), prefix, now)
      else (past, Some((e.0[|prefix|..], e.1.value)))
  }

  /** What an adapter does while one generator is open: a call, opening it, or asking it for the next entry. The
      generators of the other adapters only ever delete entries of theirs, which are calls of theirs here. */
  datatype Deed<V> = Calls(action: Action<V>) | Opens | Nexts

  datatype Step<V> = Step(prefix: string, deed: Deed<V>, now: real)

  function Perform<V>(w: Walk<V>, mine: string, s: Step<V>): (Walk<V>, Answer<V>) {
    match s.deed
    case Calls(action) => PerformIn(w, s.prefix, action, s.now)
    case Opens => (if s.prefix == mine then Walk([], w.All()) else w, Done)
    case Nexts =>
      if s.prefix != mine then (w, Done)
      else
        var (after, item) := NextOf(w, mine, s.now);
        (after, Pairs(if item.Some? then [item.value] else []))
  }

  function Answers<V>(w: Walk<V>, mine: string, steps: seq<Step<V>>): seq<Answer<V>>
    decreases |steps|
  {
    if steps == [] then []
    else
      var (after, answer) := Perform(w, mine, steps[0]);
      if steps[0].prefix == mine then [answer] + Answers(after, mine, steps[1..]) else Answers(after, mine, steps[1..])
  }

  function Own<V>(mine: string, steps: seq<Step<V>>): seq<Step<V>> {
    if steps == [] then []
    else if steps[0].prefix == mine then [steps[0]] + Own(mine, steps[1..])
    else Own(mine, steps[1..])
  }

  // ---------- both halves show an adapter its own entries ----------

  function ViewIn<V>(w: Walk<V>, prefix: string): Walk<V> {
    Walk(View(w.done, prefix), View(w.todo, prefix))
  }

  lemma {:induction false} ViewConcat<V>(a: Store<V>, b: Store<V>, prefix: string)
    ensures View(a + b, prefix) == View(a, prefix) + View(b, prefix)
  {
    if a == [] {
      assert a + b == b;
    } else {
      ViewConcat(a[1..], b, prefix);
      assert (a + b)[1..] == a[1..] + b && (a + b)[0] == a[0];
      var rest, more := View(a[1..], prefix), View(b, prefix);
      assert [a[0]] + (rest + more) == [a[0]] + rest + more;
    }
  }

  lemma {:induction false} ViewInAll<V>(w: Walk<V>, prefix: string)
    ensures ViewIn(w, prefix).All() == View(w.All(), prefix)
  {
    ViewConcat(w.done, w.todo, prefix);
  }

  lemma {:induction false} MyCallIsLocal<V>(w: Walk<V>, prefix: string, action: Action<V>, now: real)
    ensures var (after, answer) := PerformIn(w, prefix, action, now);
      PerformIn(ViewIn(w, prefix), prefix, action, now) == (ViewIn(after, prefix), answer)
  {
    hide View, Find, Put, Remove, Without, Reaped, Listing;
    ViewInAll(w, prefix);
    match action
    case Clears => ScansOfMine(w.done, prefix, now); ScansOfMine(w.todo, prefix, now);
    case Iterates =>
      ScansOfMine(w.done, prefix, now);
      ScansOfMine(w.todo, prefix, now);
      ScansOfMine(w.All(), prefix, now);
    case Sets(key, value, ttl) =>
      ViewOfMine(w.done, prefix, prefix + key);
      ViewOfMyWrite(w.done, prefix, prefix + key, Fresh(value, ttl, now));
      ViewOfMyWrite(w.todo, prefix, prefix + key, Fresh(value, ttl, now));
    case _ =>
      ViewOfMine(w.done, prefix, prefix + action.key);
      ViewOfMine(w.todo, prefix, prefix + action.key);
      ViewOfMine(w.All(), prefix, prefix + action.key);
  }

  lemma {:induction false} OthersCallIsInvisible<V>(w: Walk<V>, other: string, prefix: string, action: Action<V>,
      now: real)
    requires Apart(other, prefix)
    ensures ViewIn(PerformIn(w, other, action, now).0, prefix) == ViewIn(w, prefix)
  {
    hide View, Find, Put, Remove, Without, Reaped, Listing;
    match action
    case Clears => ScansOfOthers(w.done, other, prefix, now); ScansOfOthers(w.todo, other, prefix, now);
    case Iterates => ScansOfOthers(w.done, other, prefix, now); ScansOfOthers(w.todo, other, prefix, now);
    case Sets(key, value, ttl) =>
      NotMine(other, prefix, key);
      ViewOfOthersWrite(w.done, prefix, other + key, Fresh(value, ttl, now));
      ViewOfOthersWrite(w.todo, prefix, other + key, Fresh(value, ttl, now));
    case _ =>
      NotMine(other, prefix, action.key);
      ViewOfOthers(w.done, prefix, other + action.key);
      ViewOfOthers(w.todo, prefix, other + action.key);
  }

  /** The generator sees no entry but its own. */
  lemma {:induction false} NextIsLocal<V>(w: Walk<V>, prefix: string, now: real)
    ensures var (after, item) := NextOf(w, prefix, now);
      NextOf(ViewIn(w, prefix), prefix, now) == (ViewIn(after, prefix), item)
    decreases |w.todo|
  {
    if w.todo == [] {
    } else {
      var e := w.todo[0];
      var past := Walk(w.done + [e], w.todo[1..]);
      ViewConcat(w.done, [e], prefix);
      assert [e][1..] == [] && View([e], prefix) == if prefix <= e.0 then [e] else [];
      var view := View(w.todo, prefix);
      if !(prefix <= e.0) {
        NextIsLocal(past, prefix, now);
        assert View(w.done, prefix) + [] == View(w.done, prefix);
      } else {
        assert view[0] == e && view[1..] == View(w.todo[1..], prefix);
        if Dead(e.1, now) { NextIsLocal(Walk(w.done, w.todo[1..]), prefix, now); }
      }
    }
  }

  /** Over every interleaved run of calls, with a generator opened and advanced anywhere in it, an adapter is
      answered, and its generator yields, as if it were alone with its own entries. */
  lemma {:induction false} GeneratorsDoNotInterfere<V>(w: Walk<V>, mine: string, steps: seq<Step<V>>)
    requires forall i :: 0 <= i < |steps| ==> steps[i].prefix == mine || Apart(steps[i].prefix, mine)
    ensures Answers(w, mine, steps) == Answers(ViewIn(w, mine), mine, Own(mine, steps))
    decreases |steps|
  {
    hide PerformIn, NextOf, ViewIn;
    if steps == [] {
    } else {
      var s := steps[0];
      var after := Perform(w, mine, s).0;
      GeneratorsDoNotInterfere(after, mine, steps[1..]);
      if s.prefix == mine {
        MyStepIsLocal(w, mine, s);
        assert Own(mine, steps)[1..] == Own(mine, steps[1..]);
      } else if s.deed.Calls? {
        OthersCallIsInvisible(w, s.prefix, mine, s.deed.action, s.now);
      }
    }
  }

  lemma {:induction false} MyStepIsLocal<V>(w: Walk<V>, mine: string, s: Step<V>)
    requires s.prefix == mine
    ensures var (after, answer) := Perform(w, mine, s);
      Perform(ViewIn(w, mine), mine, s) == (ViewIn(after, mine), answer)
  {
    hide PerformIn, NextOf, View;
    match s.deed
    case Calls(action) => MyCallIsLocal(w, mine, action, s.now);
    case Opens => ViewInAll(w, mine); EmptyView<V>(mine);
    case Nexts => NextIsLocal(w, mine, s.now);
  }

  lemma {:induction false} EmptyView<V>(prefix: string)
    ensures View<V>([], prefix) == []
  {
  }

  // ---------- a batch of awaited calls ----------

  lemma {:induction false} OthersCallsAreInvisible<V>(w: Walk<V>, prefix: string, steps: seq<Memory.Step<V>>)
    requires forall i :: 0 <= i < |steps| ==> Apart(steps[i].prefix, prefix)
    ensures ViewIn(Meanwhile(w, steps), prefix) == ViewIn(w, prefix)
  {
    hide PerformIn, ViewIn;
    if steps == [] {
    } else {
      var last := steps[|steps| - 1];
      OthersCallsAreInvisible(w, prefix, steps[..|steps| - 1]);
      OthersCallIsInvisible(Meanwhile(w, steps[..|steps| - 1]), last.prefix, prefix, last.action, last.now);
    }
  }

  /** `hasMany` answers, whatever other adapters do between its keys, as if its adapter were alone. */
  lemma {:induction false} HasManyIsLocal<V>(w: Walk<V>, prefix: string, keys: seq<string>, times: nat -> real,
      others: nat -> seq<Memory.Step<V>>)
    requires forall n, i :: 0 <= n < |keys| && 0 <= i < |others(n)| ==> Apart(others(n)[i].prefix, prefix)
    ensures var (after, answers) := AskedAmong(w, prefix, keys, times, others);
      AskedAmong(ViewIn(w, prefix), prefix, keys, times, _ => []) == (ViewIn(after, prefix), answers)
  {
    hide Meanwhile, SweptIn, Lookup, ViewIn;
    if keys == [] {
    } else {
      var n := |keys| - 1;
      HasManyIsLocal(w, prefix, keys[..n], times, others);
      var before := AskedAmong(w, prefix, keys[..n], times, others).0;
      OthersCallsAreInvisible(before, prefix, others(n));
      NothingMeanwhile(ViewIn(before, prefix));
      var here := Meanwhile(before, others(n));
      MyCallIsLocal(here, prefix, Asks(keys[n]), times(n));
    }
  }

  lemma {:induction false} NothingMeanwhile<V>(w: Walk<V>)
    ensures Meanwhile(w, []) == w
  {
  }

  // ---------- what one step of the generator does ----------

  /** A yielded pair is live under its own key at that moment, and the step deletes dead entries of the adapter
      only; every live entry ahead is yielded, or still ahead, and the end comes with nothing ahead. */
  lemma {:induction false} NextYieldsLive<V>(w: Walk<V>, prefix: string, now: real)
    requires DistinctKeys(w.All())
    ensures var (after, item) := NextOf(w, prefix, now);
      && (item.Some? ==> Lookup(w.All(), prefix + item.value.0, now) == Some(item.value.1))
      && (item == None ==> after.todo == [])
      && (forall e :: e in after.todo ==> e in w.todo)
      && (forall e :: e in w.todo && prefix <= e.0 && !Dead(e.1, now) ==>
            e in after.todo || (item.Some? && e.0 == prefix + item.value.0))
      && (forall e :: e in w.done + w.todo && !(prefix <= e.0 && Dead(e.1, now)) ==> e in after.done + after.todo)
    decreases |w.todo|
  {
    hide Lookup, Find;
    if w.todo == [] {
    } else {
      var e := w.todo[0];
      var past := Walk(w.done + [e], w.todo[1..]);
      assert w.todo == [e] + w.todo[1..];
      assert past.All() == w.All();
      if !(prefix <= e.0) {
        NextYieldsLive(past, prefix, now);
      } else if Dead(e.1, now) {
        var rest := Walk(w.done, w.todo[1..]);
        WithoutHead(w);
        NextYieldsLive(rest, prefix, now);
        var item := NextOf(rest, prefix, now).1;
        if item.Some? { LookupWithoutHead(w, prefix + item.value.0, now, item.value.1); }
      } else {
        assert prefix + e.0[|prefix|..] == e.0;
        assert w.All()[|w.done|] == e;
        FindAt(w.All(), |w.done|);
        LiveLookup(w.All(), e.0, e.1, now);
      }
    }
  }

  lemma {:induction false} LiveLookup<V>(m: Store<V>, key: string, e: Entry<V>, now: real)
    requires Find(m, key) == Some(e) && !Dead(e, now)
    ensures Lookup(m, key, now) == Some(e.value)
  {
  }

  lemma {:induction false} WithoutHead<V>(w: Walk<V>)
    requires DistinctKeys(w.All()) && w.todo != []
    ensures DistinctKeys(Walk(w.done, w.todo[1..]).All())
  {
    var m, r, n := w.All(), Walk(w.done, w.todo[1..]).All(), |w.done|;
    assert forall i :: 0 <= i < |r| ==> r[i] == m[if i < n then i else i + 1];
  }

  lemma {:induction false} LookupWithoutHead<V>(w: Walk<V>, key: string, now: real, value: V)
    requires DistinctKeys(w.All()) && w.todo != []
    requires Lookup(Walk(w.done, w.todo[1..]).All(), key, now) == Some(value)
    ensures Lookup(w.All(), key, now) == Some(value)
  {
    var m, r, n := w.All(), Walk(w.done, w.todo[1..]).All(), |w.done|;
    FindSpec(r, key);
    var i :| 0 <= i < |r| && r[i] == (key, Find(r, key).value);
    FindAt(m, if i < n then i else i + 1);
  }

  // ---------- the generator ----------

  /** Opening a generator. */
  method Open<V>(adapter: StorelyMemoryAdapter<V>)
    requires adapter.Valid()
    modifies adapter.store
    ensures adapter.Valid() && adapter.store.entries == old(adapter.store.entries)
    ensures adapter.store.Halves() == Walk([], old(adapter.store.Halves()).All())
  {
    HalvesMake(adapter.store.entries, adapter.store.cursor);
    adapter.store.cursor := 0;
  }

  /** Its next entry: the loop from one yield to the next. */
  method Next<V>(adapter: StorelyMemoryAdapter<V>, now: real) returns (item: Option<(string, V)>)
    requires adapter.Valid()
    modifies adapter.store
    ensures adapter.Valid()
    ensures (adapter.store.Halves(), item) == NextOf(old(adapter.store.Halves()), adapter.Prefix(), now)
  {
    var store, prefix := adapter.store, adapter.Prefix();
    while store.cursor < |store.entries|
      invariant store.Valid()
      invariant NextOf(store.Halves(), prefix, now) == NextOf(old(adapter.store.Halves()), prefix, now)
      decreases |store.entries| - store.cursor
    {
      var (key, entry) := store.entries[store.cursor];
      ghost var w := store.Halves();
      NextHalves(store.entries, store.cursor);
      if !(prefix <= key) {
        store.cursor := store.cursor + 1;
      } else if Dead(entry, now) {
        HeadIsRemoved(w);
        RemoveLength(store.entries, key);
        var _ := store.Delete(key);
      } else {
        store.cursor := store.cursor + 1;
        return Some((key[|prefix|..], entry.value));
      }
    }
    assert store.entries[store.cursor..] == [];
    item := None;
  }

  lemma {:induction false} NextHalves<V>(m: Store<V>, cursor: nat)
    requires cursor < |m|
    ensures m[cursor..][0] == m[cursor] && m[cursor..][1..] == m[cursor + 1..]
    ensures m[..cursor + 1] == m[..cursor] + [m[cursor]]
    ensures Walk(m[..cursor], m[cursor..]).All() == m
  {
  }

  lemma {:induction false} HeadIsRemoved<V>(w: Walk<V>)
    requires DistinctKeys(w.All()) && w.todo != []
    ensures RemoveIn(w, w.todo[0].0) == Walk(w.done, w.todo[1..])
  {
    DistinctHalves(w);
    FindSpec(w.done, w.todo[0].0);
  }

  lemma {:induction false} RemoveLength<V>(m: Store<V>, key: string)
    requires DistinctKeys(m) && exists i :: 0 <= i < |m| && m[i].0 == key
    ensures |Remove(m, key)| == |m| - 1
  {
    RemoveSpec(m, key);
    FindSpec(m, key);
  }
}
