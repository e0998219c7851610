/** The telemetry statistics: counters, counts per key, and the listeners that feed them. */
module Stats {
  import opened Texts
  import opened OrderedMap
  import opened Recency

  datatype Event = Hit | Miss | Put | Delete | Error

  function Events(): (events: set<Event>)
    ensures Hit in events
  {
    {Hit, Miss, Put, Delete, Error}
  }

  lemma {:induction false} IsEvent(e: Event)
    ensures e in Events()
  {
    match e { case Hit => case Miss => case Put => case Delete => case Error => }
  }

  /** A handler on an emitter: each subscription registers fresh closures, told apart by its number. */
  datatype Handler = Handler(emitter: nat, event: Event, subscription: nat)

  /** `buildKeyEventName`; an absent key or namespace is the empty one. */
  function KeyName(ns: string, key: string): string {
    if ns != "" && key != "" then ns + ":" + key else key
  }

  /** An event is counted under its namespace, a colon and its key, under the key alone without a namespace, and not
      at all without a key; within a namespace different keys have different names. */
  lemma {:induction false} EventNames(ns: string, k: string, l: string)
    ensures KeyName(ns, "") == "" && KeyName("", k) == k
    ensures ns != "" && k != "" ==> KeyName(ns, k) == ns + ":" + k
    ensures KeyName(ns, k) == KeyName(ns, l) <==> k == l
  {
    var p := ns + ":";
    assert (p + k)[|p|..] == k && (p + l)[|p|..] == l;
    assert k != "" ==> |p + k| > 0;
  }

  /** The events of one kind that a map of counts takes note of. */
  function Named(names: seq<string>): seq<string> {
    if names == [] then []
    else
      var n := |names| - 1;
      Named(names[..n]) + if names[n] != "" then [names[n]] else []
  }

  lemma {:induction false} NamedFits(names: seq<string>)
    ensures |Named(names)| <= |names|
    ensures |Named(names)| == |names| <==> "" !in names
  {
    if names == [] {
    } else {
      var n := |names| - 1;
      NamedFits(names[..n]);
      assert names == names[..n] + [names[n]];
    }
  }

  /** The counts of a map never exceed its event counter; they agree with it exactly if no event lacked a
      key and the distinct keys all fit, so that none was ever pushed out. */
  lemma {:induction false} CountsAgainstCounter(names: seq<string>, max: nat)
    requires max > 0
    ensures Sum(Counts(Named(names), max)) <= |names|
    ensures Sum(Counts(Named(names), max)) == |names| <==> "" !in names && |LastUses(Named(names))| <= max
  {
    UsesAreAccountedFor(Named(names), max);
    NothingLostIff(Named(names), max);
    NamedFits(names);
  }

  /** The state of one counter and its map after the events of some key names. */
  ghost predicate Counting(counter: nat, counts: Entries<string, int>, names: seq<string>, max: nat) {
    counter == |names| && counts == if max > 0 then Counts(Named(names), max) else []
  }

  lemma {:induction false} CountingNext(counter: nat, counts: Entries<string, int>, names: seq<string>, max: nat,
      name: string)
    requires Counting(counter, counts, names, max)
    ensures var grown := if max == 0 || name == "" then counts else Count(counts, name, max);
      Counting(counter + 1, grown, names + [name], max)
  {
    hide Counts, Count, Named;
    NamedSnoc(names, name);
    if max > 0 { CountKeepsRecent(Named(names), name, max); }
  }

  /** One event more for one of several counters and maps. */
  lemma {:induction false} CountingAll(events: set<Event>, counters: map<Event, nat>,
      maps: map<Event, Entries<string, int>>, histories: map<Event, seq<string>>, max: nat, e: Event, name: string)
    requires counters.Keys == maps.Keys == histories.Keys == events && e in events
    requires forall d :: d in events ==> Counting(counters[d], maps[d], histories[d], max)
    ensures var counters', maps', histories' := counters[e := counters[e] + 1],
        maps[e := if max == 0 || name == "" then maps[e] else Count(maps[e], name, max)],
          histories[e := histories[e] + [name]];
      && counters'.Keys == maps'.Keys == histories'.Keys == events
      && forall d :: d in events ==> Counting(counters'[d], maps'[d], histories'[d], max)
  {
    hide Counting, Count;
    CountingNext(counters[e], maps[e], histories[e], max, name);
  }

  /** The handlers registered: one for each event on the current emitter, or none. */
  ghost predicate Wiring(handlers: set<Handler>, listeners: map<Event, nat>, emitter: Option<nat>, subscriptions: nat) {
    && (listeners.Keys == {} || listeners.Keys == Events())
    && (listeners.Keys != {} ==> emitter.Some?)
    && handlers == (set e | e in listeners.Keys && emitter.Some? :: Handler(emitter.value, e, listeners[e]))
    && forall h :: h in handlers ==> h.subscription < subscriptions
  }

  lemma {:induction false} WiringOf(source: nat, token: nat)
    ensures var listeners := map e | e in Events() :: token;
      listeners.Keys == Events() &&
        Wiring(set e | e in Events() :: Handler(source, e, token), listeners, Some(source), token + 1)
  {
  }

  class StorelyStats {
    var counters: map<Event, nat>
    var maps: map<Event, Entries<string, int>>
    var enabled: bool
    var emitter: Option<nat>
    var listeners: map<Event, nat>
    const maxEntries: nat

    /** Every emitter's handlers that belong to this object. */
    var handlers: set<Handler>
    var subscriptions: nat

    /** The key names of the events counted since the last reset. */
    ghost var history: map<Event, seq<string>>

    ghost predicate Counted()
      reads this`counters, this`maps, this`history
    {
      && counters.Keys == maps.Keys == history.Keys == Events()
      && forall e :: e in Events() ==>
           Counting(counters[e], maps[e], history[e], maxEntries)
    }

    /** Handlers sit on the current emitter only, one for each event, or nowhere. */
    ghost predicate Wired()
      reads this`handlers, this`listeners, this`emitter, this`subscriptions
    {
      Wiring(handlers, listeners, emitter, subscriptions)
    }

    ghost predicate Valid()
      reads this
    {
      Counted() && Wired()
    }

    ghost predicate ListeningOn(source: nat)
      reads this`listeners, this`emitter
    {
      emitter == Some(source) && listeners.Keys == Events()
    }

    constructor (maxEntries: nat, enabled: bool, source: Option<nat>)
      ensures Valid() && this.maxEntries == maxEntries && this.enabled == enabled
      ensures counters == map e | e in Events() :: 0
      ensures forall s: nat :: ListeningOn(s) <==> enabled && source == Some(s)
    {
      this.maxEntries := maxEntries;
      this.enabled := enabled;
      counters := map e | e in Events() :: 0;
      maps := map e | e in Events() :: [];
      history := map e | e in Events() :: [];
      listeners, handlers, subscriptions, emitter := map[], {}, 0, None;
      new;
      NothingCounted(maxEntries);
      hide Named, Counts, Events;
      if source.Some? {
        if enabled { Subscribe(source.value); } else { emitter := source; }
      }
    }

    method Reset()
      requires Valid()
      modifies this`counters, this`maps, this`history
      ensures Valid() && counters == map e | e in Events() :: 0
      ensures forall e :: e in Events() ==> maps[e] == []
    {
      hide Named, Counts, Events;
      counters := map e | e in Events() :: 0;
      maps := map e | e in Events() :: [];
      history := map e | e in Events() :: [];
      NothingCounted(maxEntries);
    }

    method Unsubscribe()
      requires Valid()
      modifies this`handlers, this`listeners, this`emitter
      ensures Valid() && handlers == {} && listeners == map[] && emitter == None
    {
      hide Counted;
      if emitter == None {
        return;
      }
      var source, pending := emitter.value, listeners.Keys;
      while pending != {}
        invariant pending <= listeners.Keys
        invariant handlers == set e | e in pending :: Handler(source, e, listeners[e])
        decreases pending
      {
        var e :| e in pending;
        handlers := handlers - {Handler(source, e, listeners[e])};
        pending := pending - {e};
      }
      listeners := map[];
      emitter := None;
    }

    method Subscribe(source: nat)
      requires Valid()
      modifies this`handlers, this`listeners, this`emitter, this`subscriptions
      ensures Valid() && ListeningOn(source)
    {
      hide Counted, Wiring;
      Unsubscribe();
      emitter := Some(source);
      var token := subscriptions;
      subscriptions := subscriptions + 1;
      listeners := map e | e in Events() :: token;
      WiringOf(source, token);
      handlers := handlers + set e | e in Events() :: Handler(source, e, token);
      assert handlers == set e | e in Events() :: Handler(source, e, token);
      assert Wired();
    }

    /** The `enabled` setter. */
    method SetEnabled(value: bool)
      requires Valid()
      modifies this`enabled, this`handlers, this`listeners, this`emitter, this`subscriptions
      ensures Valid() && enabled == value && emitter == old(emitter)
      ensures forall s: nat :: ListeningOn(s) <==> value && old(emitter) == Some(s)
    {
      hide Counted;
      enabled := value;
      if !enabled && listeners != map[] {
        var source := emitter;
        Unsubscribe();
        emitter := source;
      } else if enabled && emitter.Some? && listeners == map[] {
        Subscribe(emitter.value);
      }
    }

    /** `incrementKeys`. */
    method IncrementKeys(e: Event, name: string)
      requires maps.Keys == Events()
      modifies this`maps
      ensures maps == old(maps)[e :=
        if maxEntries == 0 || name == "" then old(maps[e]) else Count(old(maps[e]), name, maxEntries)]
    {
      if maxEntries == 0 || name == "" {
        assert maps == maps[e := maps[e]];
        return;
      }
      var found := Find(maps[e], name);
      var current: int := if found.Some? then found.value else 0;
      var grown := OrderedMap.Put(Remove(maps[e], name), name, current + 1);
      if |grown| > maxEntries {
        grown := grown[1..];
      }
      maps := maps[e := grown];
    }

    /** The listener of an event: the counter and the map of the event take note of the key. */
    method Listen(e: Event, name: string)
      requires Counted()
      modifies this`counters, this`maps, this`history
      ensures Counted()
      ensures counters == old(counters)[e := old(counters)[e] + 1]
      ensures history == old(history)[e := old(history)[e] + [name]]
    {
      hide Counting, Count, Events;
      IsEvent(e);
      CountingAll(Events(), counters, maps, history, maxEntries, e, name);
      counters := counters[e := counters[e] + 1];
      IncrementKeys(e, name);
      history := history[e := history[e] + [name]];
    }

    /** An emitter fires an event: every handler registered on it for that event runs. It is counted once if
        this object listens there, and not at all otherwise. */
    method Emit(source: nat, e: Event, ns: string, key: string)
      requires Valid()
      modifies this`counters, this`maps, this`history
      ensures Valid()
      ensures ListeningOn(source) ==> counters == old(counters)[e := old(counters)[e] + 1]
      ensures ListeningOn(source) ==> history == old(history)[e := old(history)[e] + [KeyName(ns, key)]]
      ensures !ListeningOn(source) ==> unchanged(`counters) && unchanged(`maps)
    {
      hide Counted, Wired;
      IsEvent(e);
      CountedKeys();
      MatchingHandlers(source, e);
      var all := set h | h in handlers && h.emitter == source && h.event == e;
      var pending := all;
      while pending != {}
        invariant Counted() && (pending == {} || pending == all)
        invariant pending == all ==> unchanged(`counters) && unchanged(`maps) && unchanged(`history)
        invariant pending != all ==> counters == old(counters)[e := old(counters)[e] + 1]
        invariant pending != all ==> history == old(history)[e := old(history)[e] + [KeyName(ns, key)]]
        decreases pending
      {
        var h :| h in pending;
        Listen(e, KeyName(ns, key));
        pending := pending - {h};
      }
    }

    /** On the emitter listened to there is one handler for the event, elsewhere none. */
    lemma {:induction false} MatchingHandlers(source: nat, e: Event)
      requires Wired()
      ensures e in Events()
      ensures ListeningOn(source) ==>
        e in listeners &&
        (set h | h in handlers && h.emitter == source && h.event == e) == {Handler(source, e, listeners[e])}
      ensures !ListeningOn(source) ==> (set h | h in handlers && h.emitter == source && h.event == e) == {}
    {
    }

    lemma {:induction false} CountedKeys()
      requires Counted()
      ensures counters.Keys == maps.Keys == history.Keys == Events()
    {
    }
  }

  lemma {:induction false} NothingCounted(max: nat)
    ensures Named([]) == [] && Counts(Named([]), max) == []
  {
    NothingKept<string>(max);
  }

  lemma {:induction false} NamedSnoc(names: seq<string>, name: string)
    ensures Named(names + [name]) == if name != "" then Named(names) + [name] else Named(names)
  {
    assert (names + [name])[..|names|] == names;
  }
}
