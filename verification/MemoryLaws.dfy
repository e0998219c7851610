/** What `get` answers in a shared map after a `set`, whatever runs in between. */
module MemoryLaws {
  import opened Texts
  import opened OrderedMap
  import opened Memory

  /** The call writes, deletes or clears what is stored under a full key. */
  predicate Touches<V>(step: Step<V>, full: string) {
    match step.action
    case Sets(key, _, _) => step.prefix + key == full
    case Deletes(key) => step.prefix + key == full
    case Clears => step.prefix <= full
    case _ => false
  }

  /** The entry is there, or a read has deleted it because it was dead by then. */
  ghost predicate Holds<V>(m: Store<V>, full: string, e: Entry<V>, now: real) {
    Find(m, full) == Some(e) || (Find(m, full) == None && Dead(e, now))
  }

  lemma {:induction false} FindWithout<V>(m: Store<V>, prefix: string, full: string)
    requires !(prefix <= full)
    ensures Find(Without(m, prefix), full) == Find(m, full)
  {
    if m == [] {
    } else {
      FindWithout(m[1..], prefix, full);
      assert ([m[0]] + Without(m[1..], prefix))[1..] == Without(m[1..], prefix);
    }
  }

  lemma {:induction false} FindReaped<V>(m: Store<V>, prefix: string, now: real, full: string)
    requires DistinctKeys(m)
    ensures Find(Reaped(m, prefix, now), full) ==
      if prefix <= full && Find(m, full).Some? && Dead(Find(m, full).value, now) then None else Find(m, full)
  {
    if m == [] {
    } else {
      FindReaped(m[1..], prefix, now, full);
      assert ([m[0]] + Reaped(m[1..], prefix, now))[1..] == Reaped(m[1..], prefix, now);
      if m[0].0 == full { FindSpec(m[1..], full); }
    }
  }

  lemma {:induction false} StepHolds<V>(m: Store<V>, step: Step<V>, full: string, e: Entry<V>, now: real)
    requires DistinctKeys(m) && Holds(m, full, e, now) && !Touches(step, full) && step.now <= now
    ensures Holds(Perform(m, step.prefix, step.action, step.now).0, full, e, now)
  {
    hide Find, Put, Remove, Without, Reaped, Listing, DistinctKeys;
    match step.action
    case Sets(key, value, ttl) => PutFinds(m, step.prefix + key, Fresh(value, ttl, step.now), full);
    case Deletes(key) => RemoveFinds(m, step.prefix + key, full);
    case Gets(key) => RemoveFinds(m, step.prefix + key, full);
    case Asks(key) => RemoveFinds(m, step.prefix + key, full);
    case Clears => FindWithout(m, step.prefix, full);
    case Iterates => FindReaped(m, step.prefix, step.now, full);
  }

  function Run<V>(m: Store<V>, steps: seq<Step<V>>): Store<V>
    decreases |steps|
  {
    if steps == [] then m else Run(Perform(m, steps[0].prefix, steps[0].action, steps[0].now).0, steps[1..])
  }

  lemma {:induction false} PerformKeepsDistinct<V>(m: Store<V>, prefix: string, action: Action<V>, now: real)
    requires DistinctKeys(m)
    ensures DistinctKeys(Perform(m, prefix, action, now).0)
  {
    hide DistinctKeys, Find, Put, Remove, Without, Reaped, Listing, KeptFrom;
    match action
    case Clears => WithoutKeepsDistinct(m, prefix);
    case Iterates => ReapedKeepsDistinct(m, prefix, now);
    case Sets(key, value, ttl) => PutSpec(m, prefix + key, Fresh(value, ttl, now));
    case _ => RemoveSpec(m, prefix + action.key);
  }

  lemma {:induction false} RunHolds<V>(m: Store<V>, steps: seq<Step<V>>, full: string, e: Entry<V>, now: real)
    requires DistinctKeys(m) && Holds(m, full, e, now)
    requires forall i :: 0 <= i < |steps| ==> !Touches(steps[i], full) && steps[i].now <= now
    ensures DistinctKeys(Run(m, steps)) && Holds(Run(m, steps), full, e, now)
    decreases |steps|
  {
    hide DistinctKeys, Holds, Touches, Perform;
    if steps == [] {
    } else {
      StepHolds(m, steps[0], full, e, now);
      PerformKeepsDistinct(m, steps[0].prefix, steps[0].action, steps[0].now);
      RunHolds(Perform(m, steps[0].prefix, steps[0].action, steps[0].now).0, steps[1..], full, e, now);
    }
  }

  /** After a `set`, any calls of any adapters that do not touch the full key, and no later than the read: `get` and
      `has` find the value while it has no lifetime, or zero, or the time is not past it, and nothing afterwards. */
  lemma {:induction false} SetThenGet<V>(m: Store<V>, prefix: string, key: string, value: V, ttl: Option<real>,
      setAt: real, steps: seq<Step<V>>, now: real)
    requires DistinctKeys(m)
    requires forall i :: 0 <= i < |steps| ==> !Touches(steps[i], prefix + key) && steps[i].now <= now
    ensures var later := Run(Perform(m, prefix, Sets(key, value, ttl), setAt).0, steps);
      var there := ttl == None || ttl.value == 0.0 || now <= setAt + ttl.value;
      && Perform(later, prefix, Gets(key), now).1 == Found(if there then Some(value) else None)
      && Perform(later, prefix, Asks(key), now).1 == Flag(there)
  {
    hide DistinctKeys, Touches, Find, Put;
    var e := Fresh(value, ttl, setAt);
    var written := Perform(m, prefix, Sets(key, value, ttl), setAt).0;
    PerformKeepsDistinct(m, prefix, Sets(key, value, ttl), setAt);
    PutFinds(m, prefix + key, e, prefix + key);
    RunHolds(written, steps, prefix + key, e, now);
  }

  /** A deleted or cleared key is not found until it is set again. */
  lemma {:induction false} DeleteThenGet<V>(m: Store<V>, prefix: string, key: string, at: real, steps: seq<Step<V>>,
      now: real)
    requires DistinctKeys(m)
    requires forall i :: 0 <= i < |steps| ==>
      !(steps[i].action.Sets? && steps[i].prefix + steps[i].action.key == prefix + key)
    ensures Perform(m, prefix, Deletes(key), at).1 == Flag(Find(m, prefix + key).Some?)
    ensures Perform(Run(Perform(m, prefix, Deletes(key), at).0, steps), prefix, Gets(key), now).1 == Found(None)
    ensures Perform(Run(Perform(m, prefix, Clears, at).0, steps), prefix, Gets(key), now).1 == Found(None)
  {
    hide DistinctKeys, Find, Remove, Without;
    PerformKeepsDistinct(m, prefix, Deletes(key), at);
    PerformKeepsDistinct(m, prefix, Clears, at);
    RemoveFinds(m, prefix + key, prefix + key);
    WithoutFinds(m, prefix, prefix + key);
    RunLacks(Perform(m, prefix, Deletes(key), at).0, steps, prefix + key);
    RunLacks(Perform(m, prefix, Clears, at).0, steps, prefix + key);
  }

  lemma {:induction false} WithoutFinds<V>(m: Store<V>, prefix: string, full: string)
    requires prefix <= full
    ensures Find(Without(m, prefix), full) == None
  {
    if m == [] {
    } else {
      WithoutFinds(m[1..], prefix, full);
      assert ([m[0]] + Without(m[1..], prefix))[1..] == Without(m[1..], prefix);
    }
  }

  lemma {:induction false} RunLacks<V>(m: Store<V>, steps: seq<Step<V>>, full: string)
    requires DistinctKeys(m) && Find(m, full) == None
    requires forall i :: 0 <= i < |steps| ==> !(steps[i].action.Sets? && steps[i].prefix + steps[i].action.key == full)
    ensures Find(Run(m, steps), full) == None
    decreases |steps|
  {
    hide DistinctKeys, Find, Perform;
    if steps == [] {
    } else {
      StepLacks(m, steps[0], full);
      PerformKeepsDistinct(m, steps[0].prefix, steps[0].action, steps[0].now);
      RunLacks(Perform(m, steps[0].prefix, steps[0].action, steps[0].now).0, steps[1..], full);
    }
  }

  lemma {:induction false} StepLacks<V>(m: Store<V>, step: Step<V>, full: string)
    requires DistinctKeys(m) && Find(m, full) == None
    requires !(step.action.Sets? && step.prefix + step.action.key == full)
    ensures Find(Perform(m, step.prefix, step.action, step.now).0, full) == None
  {
    hide Find, Put, Remove, Without, Reaped, Listing, DistinctKeys;
    match step.action
    case Sets(key, value, ttl) => PutFinds(m, step.prefix + key, Fresh(value, ttl, step.now), full);
    case Clears =>
      if step.prefix <= full { WithoutFinds(m, step.prefix, full); } else { FindWithout(m, step.prefix, full); }
    case Iterates => FindReaped(m, step.prefix, step.now, full);
    case _ => RemoveFinds(m, step.prefix + step.action.key, full);
  }

  /** Namespace, separator and key, in this order; without a namespace the key alone. */
  lemma {:induction false} FullKeys(namespace: string, separator: string)
    ensures PrefixOf("", separator) == ""
    ensures namespace != "" ==> PrefixOf(namespace, separator) == namespace + separator
  {
  }
}
