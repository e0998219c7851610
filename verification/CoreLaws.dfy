/** What a caller of the core can rely on over any plain store: what was set is answered until its lifetime is
    over, what was deleted is gone, and other keys are left alone; on either path, singly and in batches. */
module CoreLaws {
  import opened Texts
  import opened Storely
  import opened BatchReads

  /** A plain store that also writes and deletes exactly what it is told. */
  ghost predicate PlainStore<S(!new)>(a: Adapter<S>, rows: S -> Rows) {
    && Plain(a, rows)
    && (forall s, k, raw, ttl, now :: rows(a.write(s, k, raw, ttl, now).0) == rows(s)[k := raw] &&
          a.write(s, k, raw, ttl, now).1 == Returned(true))
    && (forall s, k, now :: rows(a.remove(s, k, now).0) == rows(s) - {k} &&
          a.remove(s, k, now).1 == Returned(k in rows(s)))
    && (forall s, k, now :: rows(a.contains(s, k, now).0) == rows(s) &&
          a.contains(s, k, now).1 == Returned(k in rows(s)))
    && (forall s, keys, now :: rows(a.containsMany(s, keys, now).0) == rows(s) &&
          a.containsMany(s, keys, now).1 == Returned(AmongRows(rows(s), keys)))
    && (forall s, entries, now :: rows(a.writeMany(s, entries, now).0) == WrittenAll(rows(s), entries))
  }

  function AmongRows(m: Rows, keys: seq<string>): (r: seq<bool>)
    ensures |r| == |keys|
  {
    seq(|keys|, i requires 0 <= i < |keys| => keys[i] in m)
  }

  lemma {:induction false} MapIsPlainStore()
    ensures PlainStore(MapAdapter(), s => s)
  {
    MapIsPlain();
  }

  // ---------- what a read answers ----------

  /** A row is answered unless the core checks and the deadline is over. */
  predicate Visible(c: Config, e: Envelope, now: int) {
    !(c.checkExpired && e.expires.Some? && now as real > e.expires.value)
  }

  function Answer(c: Config, m: Rows, key: string, now: int): Value {
    match FoundIn(c, m, key)
    case None => UNDEFINED
    case Some(e) => if Visible(c, e, now) then e.value else UNDEFINED
  }

  /** `get` and `getMany` answer from the row of each key. */
  lemma {:induction false} ReadsAnswer<S(!new)>(c: Config, a: Adapter<S>, rows: S -> Rows, s: S, given: string,
      batch: seq<string>, now: int)
    requires PlainStore(a, rows)
    ensures FullGet(c, a, s, given, now).result ==
      if Clean(c, given) == "" then UNDEFINED else Answer(c, rows(s), Clean(c, given), now)
    ensures OneRowEach(a, s, CleanAll(c, batch), now)
    ensures var many := FullGetMany(c, a, s, batch, now).result;
      && many.Returned? && |many.value| == |batch|
      && forall i :: 0 <= i < |batch| ==> many.value[i] == Answer(c, rows(s), Clean(c, batch[i]), now)
  {
  }

  /** `has` and `hasMany` answer whether the key has a row; when the core checks, whether it can be decoded and is in
      time. */
  lemma {:induction false} PresenceAnswers<S(!new)>(c: Config, a: Adapter<S>, rows: S -> Rows, s: S, given: string,
      batch: seq<string>, now: int)
    requires PlainStore(a, rows)
    ensures FullHas(c, a, s, given, now).result <==> Clean(c, given) != "" && Here(c, rows(s), Clean(c, given), now)
    ensures OneRowEach(a, s, CleanAll(c, batch), now)
    ensures var many := FullHasMany(c, a, s, batch, now).result;
      && |many| == |batch|
      && forall i :: 0 <= i < |batch| ==> (many[i] <==> Here(c, rows(s), Clean(c, batch[i]), now))
  {
  }

  predicate Here(c: Config, m: Rows, key: string, now: int) {
    if c.checkExpired then FoundIn(c, m, key).Some? && Visible(c, FoundIn(c, m, key).value, now) else key in m
  }

  // ---------- set ----------

  /** A lifetime is the one given, else the core's own. It is none if it is not positive. */
  function EnvelopeFor(c: Config, value: Value, ttl: Option<real>, setAt: int): Envelope {
    var lifetime := if ttl.Some? then ttl else c.ttl;
    Envelope(value, if lifetime.Some? && lifetime.value > 0.0 then Some(setAt as real + lifetime.value) else None)
  }

  /** The pipeline gives the envelope back as it was. */
  predicate Keeps(c: Config, e: Envelope) {
    Encode(c, e).Returned? && DecodeRaw(c, Encode(c, e).value).0 == Some(e)
  }

  /** `set` stores the value with its deadline under the cleaned key and touches no other row, on either path. */
  lemma {:induction false} SetLeaves<S(!new)>(c: Config, a: Adapter<S>, rows: S -> Rows, s: S, given: string,
      value: Value, ttl: Option<real>, setAt: int)
    requires PlainStore(a, rows) && Clean(c, given) != "" && !value.Symbol?
    requires Keeps(c, EnvelopeFor(c, value, ttl, setAt))
    ensures var o, key := FullSet(c, a, s, given, value, ttl, setAt), Clean(c, given);
      && o.result && o.errors == []
      && FoundIn(c, rows(o.store), key) == Some(EnvelopeFor(c, value, ttl, setAt))
      && rows(o.store) - {key} == rows(s) - {key}
    ensures TrivialPipeline(c, a) ==>
      FastSet(c, a, s, given, value, ttl, setAt) == FullSet(c, a, s, given, value, ttl, setAt)
  {
    if TrivialPipeline(c, a) { FastRefinesFull(c, a, s, given, value, ttl, setAt); }
    var key := Clean(c, given);
    var raw := Encode(c, EnvelopeFor(c, value, ttl, setAt)).value;
    assert rows(FullSet(c, a, s, given, value, ttl, setAt).store) == rows(s)[key := raw];
    assert rows(s)[key := raw] - {key} == rows(s) - {key};
  }

  /** What was set is answered, in every way of asking, as long as the core does not check, or it has no lifetime, or
      that is not positive, or not over; and not afterwards. */
  lemma {:induction false} SetThenRead<S(!new)>(c: Config, a: Adapter<S>, rows: S -> Rows, s: S, given: string,
      value: Value, ttl: Option<real>, setAt: int, now: int)
    requires PlainStore(a, rows) && Clean(c, given) != "" && !value.Symbol?
    requires Keeps(c, EnvelopeFor(c, value, ttl, setAt))
    ensures var after := FullSet(c, a, s, given, value, ttl, setAt).store;
      var lifetime := if ttl.Some? then ttl else c.ttl;
      var there := !c.checkExpired || lifetime == None || lifetime.value <= 0.0 ||
        now as real <= setAt as real + lifetime.value;
      && OneRowEach(a, after, CleanAll(c, [given]), now)
      && FullGet(c, a, after, given, now).result == (if there then value else UNDEFINED)
      && FullGetMany(c, a, after, [given], now).result == Returned([if there then value else UNDEFINED])
      && FullHas(c, a, after, given, now).result == there
      && FullHasMany(c, a, after, [given], now).result == [there]
  {
    hide PlainStore, FullGet, FullGetMany, FullHas, FullHasMany, FullSet, Clean, DecodeRaw, Keeps;
    var key := Clean(c, given);
    SetLeaves(c, a, rows, s, given, value, ttl, setAt);
    var after := FullSet(c, a, s, given, value, ttl, setAt).store;
    ReadsAnswer(c, a, rows, after, given, [given], now);
    PresenceAnswers(c, a, rows, after, given, [given], now);
    var many := FullGetMany(c, a, after, [given], now).result.value;
    assert many == [many[0]];
    var flags := FullHasMany(c, a, after, [given], now).result;
    assert flags == [flags[0]];
  }

  /** At an input: a core that checks, over a map, one second given at time 0. */
  lemma {:induction false} OneSecond(value: Value)
    requires !value.Symbol? && value != UNDEFINED
    ensures var c := Config(None, None, None, Sanitizer(false, k => k), true, None);
      var after := FullSet(c, MapAdapter(), map[], "k", value, Some(1000.0), 0).store;
      && FullGet(c, MapAdapter(), after, "k", 1000).result == value
      && FullGet(c, MapAdapter(), after, "k", 1001).result == UNDEFINED
  {
    var c := Config(None, None, None, Sanitizer(false, k => k), true, None);
    MapIsPlainStore();
    hide PlainStore, FullGet, FullSet;
    SetThenRead(c, MapAdapter(), s => s, map[], "k", value, Some(1000.0), 0, 1000);
    SetThenRead(c, MapAdapter(), s => s, map[], "k", value, Some(1000.0), 0, 1001);
  }

  /** The store is told the lifetime in effect, if it is positive, on either path; an empty key or a symbol never
      reaches it. */
  lemma {:induction false} SetTells<S>(c: Config, a: Adapter<S>, s: S, given: string, value: Value, ttl: Option<real>,
      now: int)
    ensures var lifetime := if ttl.Some? then ttl else c.ttl;
      var told := if lifetime.Some? && lifetime.value > 0.0 then lifetime else None;
      var raw := Encode(c, EnvelopeFor(c, value, ttl, now));
      FullSet(c, a, s, given, value, ttl, now).store ==
        if Clean(c, given) == "" || value.Symbol? || raw.Threw? then s
        else a.write(s, Clean(c, given), raw.value, told, now).0
    ensures TrivialPipeline(c, a) ==>
      FastSet(c, a, s, given, value, ttl, now) == FullSet(c, a, s, given, value, ttl, now)
    ensures value.Symbol? ==> !FullSet(c, a, s, given, value, ttl, now).result
  {
    if TrivialPipeline(c, a) { FastRefinesFull(c, a, s, given, value, ttl, now); }
  }

  /** What `setMany` sends for an entry: the cleaned key, the encoded envelope, and the lifetime in effect. */
  lemma {:induction false} SetManyTells(c: Config, e: Entry, now: int)
    ensures var lifetime := if e.ttl.Some? then e.ttl else c.ttl;
      var told := if lifetime.Some? && lifetime.value > 0.0 then lifetime else None;
      var raw := Encode(c, EnvelopeFor(c, e.value, e.ttl, now));
      SerializeOne(c, e, now).0 ==
        if e.value.Symbol? || raw.Threw? then None else Some(Encoded(Clean(c, e.key), raw.value, told))
  {
  }

  /** The fast path is on exactly while nothing is serialized, compressed, encrypted, checked or cleaned and the store
      is in memory, as of the last setter; a default lifetime that is not positive is none. */
  lemma {:induction false} SettersDecide<S>(m: Machine<S>, codec: Option<Codec>, compression: Option<Transform>,
      encryption: Option<Transform>, sanitizer: Sanitizer, ttl: Option<real>)
    ensures var c, a := m.config, m.adapter;
      && (Perform(m, UseSerialization(codec), true).0.fastPath <==>
            codec == None && c.compression == None && c.encryption == None && !c.checkExpired &&
            !c.sanitizer.enabled && a.inMemory)
      && (Perform(m, UseCompression(compression), true).0.fastPath <==>
            c.serialization == None && compression == None && c.encryption == None && !c.checkExpired &&
            !c.sanitizer.enabled && a.inMemory)
      && (Perform(m, UseEncryption(encryption), true).0.fastPath <==>
            c.serialization == None && c.compression == None && encryption == None && !c.checkExpired &&
            !c.sanitizer.enabled && a.inMemory)
      && (Perform(m, UseSanitizer(sanitizer), true).0.fastPath <==>
            c.serialization == None && c.compression == None && c.encryption == None && !c.checkExpired &&
            !sanitizer.enabled && a.inMemory)
    ensures Perform(m, UseTtl(ttl), true).0.config.ttl == if ttl.Some? && ttl.value > 0.0 then ttl else None
  {
  }

  // ---------- delete ----------

  /** `delete` answers whether the cleaned key had a row and takes that row, on either path; an empty key has none. */
  lemma {:induction false} DeleteTakes<S(!new)>(c: Config, a: Adapter<S>, rows: S -> Rows, s: S, given: string,
      now: int)
    requires PlainStore(a, rows)
    ensures var o, key := FullDelete(c, a, s, given, now), Clean(c, given);
      && o.errors == []
      && o.result == (key != "" && key in rows(s))
      && rows(o.store) == if key == "" then rows(s) else rows(s) - {key}
    ensures TrivialPipeline(c, a) ==> FastDelete(c, a, s, given, now) == FullDelete(c, a, s, given, now)
  {
    if TrivialPipeline(c, a) { FastRefinesFull(c, a, s, given, UNDEFINED, None, now); }
  }

  /** A deleted key is not found in any way of asking. */
  lemma {:induction false} DeleteThenRead<S(!new)>(c: Config, a: Adapter<S>, rows: S -> Rows, s: S, given: string,
      deletedAt: int, now: int)
    requires PlainStore(a, rows) && Clean(c, given) != ""
    ensures var after := FullDelete(c, a, s, given, deletedAt).store;
      && OneRowEach(a, after, CleanAll(c, [given]), now)
      && FullGet(c, a, after, given, now).result == UNDEFINED
      && FullGetMany(c, a, after, [given], now).result == Returned([UNDEFINED])
      && !FullHas(c, a, after, given, now).result
      && FullHasMany(c, a, after, [given], now).result == [false]
      && !FullDelete(c, a, after, given, now).result
  {
    hide PlainStore, FullGet, FullGetMany, FullHas, FullHasMany, FullDelete, Clean;
    DeleteTakes(c, a, rows, s, given, deletedAt);
    var after := FullDelete(c, a, s, given, deletedAt).store;
    DeleteTakes(c, a, rows, after, given, now);
    ReadsAnswer(c, a, rows, after, given, [given], now);
    PresenceAnswers(c, a, rows, after, given, [given], now);
    var many := FullGetMany(c, a, after, [given], now).result.value;
    assert many == [many[0]];
    var flags := FullHasMany(c, a, after, [given], now).result;
    assert flags == [flags[0]];
  }

  // ---------- failures ----------

  /** An error of the store or the pipeline is one `error` event and a call without effect for its caller: nothing
      found, nothing set, nothing deleted. `getMany` alone lets the store's error through. */
  lemma {:induction false} FailuresAreReported<S>(c: Config, a: Adapter<S>, s: S, given: string, value: Value,
      ttl: Option<real>, now: int)
    requires Clean(c, given) != ""
    ensures var reply := a.read(s, Clean(c, given), now).1;
      reply.Threw? ==>
        var o := FullGet(c, a, s, given, now); o.result == UNDEFINED && o.errors == [reply.error]
    ensures var reply := a.remove(s, Clean(c, given), now).1;
      reply.Threw? ==>
        var o := FullDelete(c, a, s, given, now); !o.result && o.errors == [reply.error]
    ensures var reply := a.read(s, Clean(c, given), now).1;
      reply.Threw? && c.checkExpired ==>
        var o := FullHas(c, a, s, given, now); !o.result && o.errors == [reply.error]
    ensures var reply := a.contains(s, Clean(c, given), now).1;
      reply.Threw? && !c.checkExpired ==>
        var o := FullHas(c, a, s, given, now); !o.result && o.errors == [reply.error]
    ensures var raw := Encode(c, EnvelopeFor(c, value, ttl, now));
      raw.Threw? && !value.Symbol? ==>
        FullSet(c, a, s, given, value, ttl, now) == Outcome(s, false, [raw.error])
    ensures FullSet(c, a, s, given, Symbol, ttl, now) == Outcome(s, false, ["symbol cannot be serialized"])
  {
  }

  lemma {:induction false} RefusedWriteIsReported<S>(c: Config, a: Adapter<S>, s: S, given: string, value: Value,
      ttl: Option<real>, now: int)
    requires Clean(c, given) != "" && !value.Symbol? && Encode(c, EnvelopeFor(c, value, ttl, now)).Returned?
    ensures var lifetime := if ttl.Some? then ttl else c.ttl;
      var told := if lifetime.Some? && lifetime.value > 0.0 then lifetime else None;
      var reply := a.write(s, Clean(c, given), Encode(c, EnvelopeFor(c, value, ttl, now)).value, told, now).1;
      var o := FullSet(c, a, s, given, value, ttl, now);
      if reply.Threw? then !o.result && o.errors == [reply.error] else o.result == reply.value && o.errors == []
  {
  }

  lemma {:induction false} BatchFailuresAreReported<S>(c: Config, a: Adapter<S>, s: S, given: seq<string>, now: int)
    requires OneRowEach(a, s, CleanAll(c, given), now)
    ensures var reply := a.readMany(s, CleanAll(c, given), now).1;
      reply.Threw? ==>
        && FullGetMany(c, a, s, given, now).result == Threw(reply.error)
        && (c.checkExpired ==>
              var o := FullHasMany(c, a, s, given, now);
              o.result == seq(|given|, _ => false) && o.errors == [reply.error])
    ensures var reply := a.containsMany(s, CleanAll(c, given), now).1;
      reply.Threw? && !c.checkExpired ==>
        var o := FullHasMany(c, a, s, given, now);
        o.result == seq(|given|, _ => false) && o.errors == [reply.error]
  {
  }

  // ---------- whole runs ----------

  /** A call on a key that neither cleans to this one nor, cleaned again, is this one. */
  predicate OnOtherKey<S>(c: Config, step: Step<S>, key: string) {
    (step.Gets? || step.Sets? || step.Deletes? || step.Asks?) &&
    Clean(c, step.key) != key && Clean(c, Clean(c, step.key)) != key
  }

  lemma {:induction false} StepLeavesKey<S(!new)>(m: Machine<S>, rows: S -> Rows, step: Step<S>, key: string)
    requires PlainStore(m.adapter, rows) && OnOtherKey(m.config, step, key)
    ensures var after := Perform(m, step, false).0;
      && after.adapter == m.adapter && after.config == m.config
      && FoundIn(m.config, rows(after.store), key) == FoundIn(m.config, rows(m.store), key)
  {
    hide DecodeRaw;
    var c, a, s := m.config, m.adapter, m.store;
    match step
    case Gets(given, now) => ReadLeavesKey(c, a, rows, s, given, now, key);
    case Asks(given, now) => ReadLeavesKey(c, a, rows, s, given, now, key);
    case Deletes(given, now) => DeleteTakes(c, a, rows, s, given, now);
    case Sets(given, value, ttl, now) => WriteLeavesKey(c, a, rows, s, given, value, ttl, now, key);
  }

  lemma {:induction false} ReadLeavesKey<S(!new)>(c: Config, a: Adapter<S>, rows: S -> Rows, s: S, given: string,
      now: int, key: string)
    requires PlainStore(a, rows) && Clean(c, given) != key && Clean(c, Clean(c, given)) != key
    ensures FoundIn(c, rows(FullGet(c, a, s, given, now).store), key) == FoundIn(c, rows(s), key)
    ensures FoundIn(c, rows(FullHas(c, a, s, given, now).store), key) == FoundIn(c, rows(s), key)
  {
    if c.checkExpired && Clean(c, given) != "" && ReadsExpired(c, a, s, Clean(c, given), now) {
      ExpiredReadDeletes(c, a, rows, s, given, now);
    }
  }

  lemma {:induction false} WriteLeavesKey<S(!new)>(c: Config, a: Adapter<S>, rows: S -> Rows, s: S, given: string,
      value: Value, ttl: Option<real>, now: int, key: string)
    requires PlainStore(a, rows) && Clean(c, given) != key
    ensures FoundIn(c, rows(FullSet(c, a, s, given, value, ttl, now).store), key) == FoundIn(c, rows(s), key)
  {
    hide DecodeRaw, Encode;
  }

  lemma {:induction false} RunLeavesKey<S(!new)>(m: Machine<S>, rows: S -> Rows, steps: seq<Step<S>>, key: string)
    requires PlainStore(m.adapter, rows)
    requires forall i :: 0 <= i < |steps| ==> OnOtherKey(m.config, steps[i], key)
    ensures var after := Run(m, steps, false).0;
      && after.adapter == m.adapter && after.config == m.config
      && FoundIn(m.config, rows(after.store), key) == FoundIn(m.config, rows(m.store), key)
    decreases |steps|
  {
    hide PlainStore, Perform, OnOtherKey, FoundIn;
    if steps == [] {
    } else {
      StepLeavesKey(m, rows, steps[0], key);
      RunLeavesKey(Perform(m, steps[0], false).0, rows, steps[1..], key);
    }
  }

  /** Through the core as it runs, fast path or not: `set`, any calls on other keys, `get`. The value comes back
      unless the core checks and the lifetime is over. */
  lemma {:induction false} SetRunGet<S(!new)>(m: Machine<S>, rows: S -> Rows, given: string, value: Value,
      ttl: Option<real>, setAt: int, steps: seq<Step<S>>, now: int)
    requires PlainStore(m.adapter, rows) && Sound(m) && Clean(m.config, given) != "" && !value.Symbol?
    requires Keeps(m.config, EnvelopeFor(m.config, value, ttl, setAt))
    requires forall i :: 0 <= i < |steps| ==> OnOtherKey(m.config, steps[i], Clean(m.config, given))
    ensures var written := Perform(m, Sets(given, value, ttl, setAt), true).0;
      var seen := Perform(Run(written, steps, true).0, Gets(given, now), true).1;
      var lifetime := if ttl.Some? then ttl else m.config.ttl;
      seen.Got? && seen.value ==
        if !m.config.checkExpired || lifetime == None || lifetime.value <= 0.0 ||
          now as real <= setAt as real + lifetime.value
        then value else UNDEFINED
  {
    hide PlainStore, FullGet, FullSet, FastGet, FastSet, OnOtherKey, FoundIn, Keeps, Clean;
    var c, a := m.config, m.adapter;
    SetLeaves(c, a, rows, m.store, given, value, ttl, setAt);
    StepsAgree(m, Sets(given, value, ttl, setAt));
    var written := Perform(m, Sets(given, value, ttl, setAt), true).0;
    RunsAgree(written, steps);
    RunLeavesKey(written, rows, steps, Clean(c, given));
    var last := Run(written, steps, true).0;
    StepsAgree(last, Gets(given, now));
    ReadsAnswer(c, a, rows, last.store, given, [], now);
  }

  // ---------- batch writes ----------

  /** The last entry of a batch that is stored under a cleaned key. */
  function LastEntry(c: Config, entries: seq<Entry>, key: string): Option<Entry> {
    if entries == [] then None
    else
      var last := entries[|entries| - 1];
      if !last.value.Symbol? && Clean(c, last.key) == key then Some(last)
      else LastEntry(c, entries[..|entries| - 1], key)
  }

  /** `setMany` leaves under each key the last value given for it, with its own deadline, and all other keys alone. */
  lemma {:induction false} SetManyLeaves<S(!new)>(c: Config, a: Adapter<S>, rows: S -> Rows, s: S, entries: seq<Entry>,
      now: int, key: string)
    requires PlainStore(a, rows)
    requires forall i :: 0 <= i < |entries| && !entries[i].value.Symbol? ==>
      Keeps(c, EnvelopeFor(c, entries[i].value, entries[i].ttl, now))
    ensures var sent := Compacted(SerializeAll(c, entries, now));
      FoundIn(c, rows(a.writeMany(s, sent, now).0), key) ==
        match LastEntry(c, entries, key)
        case None => FoundIn(c, rows(s), key)
        case Some(e) => Some(EnvelopeFor(c, e.value, e.ttl, now))
    ensures var sent := Compacted(SerializeAll(c, entries, now));
      sent == [] <==> forall i :: 0 <= i < |entries| ==> entries[i].value.Symbol?
  {
    SentLeaves(c, rows(s), entries, now, key);
  }

  lemma {:induction false} SentLeaves(c: Config, m: Rows, entries: seq<Entry>, now: int, key: string)
    requires forall i :: 0 <= i < |entries| && !entries[i].value.Symbol? ==>
      Keeps(c, EnvelopeFor(c, entries[i].value, entries[i].ttl, now))
    ensures var sent := Compacted(SerializeAll(c, entries, now));
      FoundIn(c, WrittenAll(m, sent), key) ==
        match LastEntry(c, entries, key)
        case None => FoundIn(c, m, key)
        case Some(e) => Some(EnvelopeFor(c, e.value, e.ttl, now))
    ensures var sent := Compacted(SerializeAll(c, entries, now));
      sent == [] <==> forall i :: 0 <= i < |entries| ==> entries[i].value.Symbol?
  {
    hide Clean, Keeps, DecodeRaw, SerializeOne, EnvelopeFor, FoundIn, Compacted, WrittenAll;
    NothingSent(c, m, now);
    if entries == [] {
    } else {
      var n := |entries| - 1;
      SentLeaves(c, m, entries[..n], now, key);
      OneSent(c, entries[n], now);
      OneMoreSent(c, m, entries, now, key);
    }
  }

  lemma {:induction false} NothingSent(c: Config, m: Rows, now: int)
    ensures Compacted(SerializeAll(c, [], now)) == [] && WrittenAll(m, []) == m
  {
  }

  lemma {:induction false} OneMoreSent(c: Config, m: Rows, entries: seq<Entry>, now: int, key: string)
    requires entries != []
    ensures var sent := Compacted(SerializeAll(c, entries[..|entries| - 1], now));
      var one := SerializeOne(c, entries[|entries| - 1], now).0;
      var all := Compacted(SerializeAll(c, entries, now));
      && (all == [] <==> sent == [] && one == None)
      && FoundIn(c, WrittenAll(m, all), key) ==
        if one.Some? && one.value.key == key then DecodeRaw(c, one.value.value).0
        else FoundIn(c, WrittenAll(m, sent), key)
  {
    hide SerializeOne, DecodeRaw;
    var n := |entries| - 1;
    assert SerializeAll(c, entries, now)[..n] == SerializeAll(c, entries[..n], now);
    var sent, one := Compacted(SerializeAll(c, entries[..n], now)), SerializeOne(c, entries[n], now).0;
    if one.Some? {
      assert (sent + [one.value])[..|sent|] == sent;
    } else {
      assert sent + [] == sent;
    }
  }

  lemma {:induction false} OneSent(c: Config, e: Entry, now: int)
    requires !e.value.Symbol? ==> Keeps(c, EnvelopeFor(c, e.value, e.ttl, now))
    ensures var one := SerializeOne(c, e, now).0;
      && one.Some? == !e.value.Symbol?
      && (one.Some? ==> one.value.key == Clean(c, e.key))
      && (one.Some? ==> DecodeRaw(c, one.value.value).0 == Some(EnvelopeFor(c, e.value, e.ttl, now)))
  {
  }

  /** As many set events as positions that succeeded, each with the cleaned key of one of them, none left out. */
  lemma {:induction false} OneEventEach(c: Config, entries: seq<Entry>, results: seq<bool>)
    requires |entries| == |results|
    ensures var events := SetEvents(entries, c, results);
      && |events| == |set i | 0 <= i < |results| && results[i]|
      && forall e :: e in events <==> Succeeds(c, entries, results, e)
  {
    EventsCount(c, entries, results);
    forall e
      ensures e in SetEvents(entries, c, results) <==> Succeeds(c, entries, results, e)
    {
      EventsAre(c, entries, results, e);
    }
  }

  predicate Succeeds(c: Config, entries: seq<Entry>, results: seq<bool>, key: string)
    requires |entries| == |results|
  {
    exists i :: 0 <= i < |results| && results[i] && key == Clean(c, entries[i].key)
  }

  lemma {:induction false} EventsAre(c: Config, entries: seq<Entry>, results: seq<bool>, key: string)
    requires |entries| == |results|
    ensures key in SetEvents(entries, c, results) <==> Succeeds(c, entries, results, key)
  {
    hide Clean;
    if entries == [] {
    } else {
      var n := |entries| - 1;
      EventsAre(c, entries[..n], results[..n], key);
      SucceedsNext(c, entries, results, key);
    }
  }

  lemma {:induction false} SucceedsNext(c: Config, entries: seq<Entry>, results: seq<bool>, key: string)
    requires |entries| == |results| > 0
    ensures var n := |entries| - 1;
      Succeeds(c, entries, results, key) <==>
        Succeeds(c, entries[..n], results[..n], key) || (results[n] && key == Clean(c, entries[n].key))
  {
    hide Clean;
    var n := |entries| - 1;
    if Succeeds(c, entries[..n], results[..n], key) {
      var i :| 0 <= i < n && results[..n][i] && key == Clean(c, entries[..n][i].key);
      assert results[i] && entries[i] == entries[..n][i];
    }
    if Succeeds(c, entries, results, key) && !(results[n] && key == Clean(c, entries[n].key)) {
      var i :| 0 <= i < |results| && results[i] && key == Clean(c, entries[i].key);
      assert i < n && results[..n][i] && entries[..n][i] == entries[i];
    }
  }

  lemma {:induction false} EventsCount(c: Config, entries: seq<Entry>, results: seq<bool>)
    requires |entries| == |results|
    ensures |SetEvents(entries, c, results)| == |set i | 0 <= i < |results| && results[i]|
  {
    hide Clean;
    if entries == [] {
    } else {
      var n := |entries| - 1;
      EventsCount(c, entries[..n], results[..n]);
      var before, after := set i | 0 <= i < n && results[..n][i], set i | 0 <= i < |results| && results[i];
      assert after == if results[n] then before + {n} else before;
    }
  }
}
