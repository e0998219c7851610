/** The Storely core: one key at a time through the fast or the full path, and batch writes. Hooks and
    listeners are absent, except that telemetry of sets is recorded for batches. */
module Storely {
  import opened Texts
  import Sanitize
  import S = JsonSerializer

  /** A user value: a symbol, or a tree a serializer may take. */
  datatype Value = Symbol | Tree(tree: S.Js)

  const UNDEFINED := Tree(S.Undefined)

  datatype Envelope = Envelope(value: Value, expires: Option<real>)

  /** What a storage adapter gives back for a key: undefined, null, a text, or a stored object. */
  datatype Raw = Absent | Nil | Text(s: string) | Object(envelope: Envelope)

  /** The outcome of a call that may throw. */
  datatype Reply<+T> = Returned(value: T) | Threw(error: string)

  /** An encoded entry of a batch. */
  datatype Encoded = Encoded(key: string, value: Raw, ttl: Option<real>)

  /** The answer to a batch write: a list whose positions may be missing, anything else, or an error. */
  datatype BatchReply = Flags(flags: seq<Option<bool>>) | NoList | Failed(error: string)

  /** Any storage adapter, as a machine over its own state. */
  datatype Adapter<!S> = Adapter(
    inMemory: bool,
    read: (S, string, int) -> (S, Reply<Raw>),
    write: (S, string, Raw, Option<real>, int) -> (S, Reply<bool>),
    remove: (S, string, int) -> (S, Reply<bool>),
    contains: (S, string, int) -> (S, Reply<bool>),
    writeMany: (S, seq<Encoded>, int) -> (S, BatchReply),
    removeMany: (S, seq<string>, int) -> (S, Reply<seq<bool>>),
    readMany: (S, seq<string>, int) -> (S, Reply<seq<Raw>>),
    containsMany: (S, seq<string>, int) -> (S, Reply<seq<bool>>))

  datatype Codec = Codec(stringify: Envelope -> Reply<string>, parse: string -> Reply<Envelope>)

  /** Compression or encryption: a text transformation and the one that undoes it. */
  datatype Transform = Transform(forward: string -> Reply<string>, backward: string -> Reply<string>)

  datatype Sanitizer = Sanitizer(enabled: bool, cleanKey: string -> string)

  datatype Config = Config(
    serialization: Option<Codec>,
    compression: Option<Transform>,
    encryption: Option<Transform>,
    sanitizer: Sanitizer,
    checkExpired: bool,
    ttl: Option<real>)

  /** The state of the store afterwards, what the caller gets, and the `error` events in order. */
  datatype Outcome<S, R> = Outcome(store: S, result: R, errors: seq<string>)

  // ---------- helpers of the core ----------

  function Clean(c: Config, key: string): string {
    if c.sanitizer.enabled then c.sanitizer.cleanKey(key) else key
  }

  function ResolveTtl(ttl: Option<real>, fallback: Option<real>): Option<real> {
    var resolved := if ttl.Some? then ttl else fallback;
    if resolved.Some? && resolved.value > 0.0 then resolved else None
  }

  function CalculateExpires(ttl: Option<real>, now: int): Option<real> {
    if ttl.Some? && ttl.value > 0.0 then Some(now as real + ttl.value) else None
  }

  predicate IsDataExpired(e: Envelope, now: int) {
    e.expires.Some? && now as real > e.expires.value
  }

  function Then(r: Reply<string>, t: Option<Transform>, backward: bool): Reply<string> {
    match (r, t)
    case (Returned(s), Some(f)) => if backward then f.backward(s) else f.forward(s)
    case _ => r
  }

  /** `encode`: serialize, compress, encrypt; without a serializer the envelope itself. */
  function Encode(c: Config, e: Envelope): Reply<Raw> {
    match c.serialization
    case None => Returned(Object(e))
    case Some(codec) =>
      match Then(Then(codec.stringify(e), c.compression, false), c.encryption, false)
      case Returned(s) => Returned(Text(s))
      case Threw(x) => Threw(x)
  }

  /** `decode` of a text: decrypt, decompress, parse; an error is reported and gives nothing. */
  function Decode(c: Config, s: string): (Option<Envelope>, seq<string>) {
    match c.serialization
    case None => (None, [])
    case Some(codec) =>
      match Then(Then(Returned(s), c.encryption, true), c.compression, true)
      case Threw(x) => (None, [x])
      case Returned(t) =>
        match codec.parse(t)
        case Returned(e) => (Some(e), [])
        case Threw(x) => (None, [x])
  }

  function DecodeRaw(c: Config, raw: Raw): (Option<Envelope>, seq<string>) {
    match raw
    case Text(s) => Decode(c, s)
    case Object(e) => (Some(e), [])
    case _ => (None, [])
  }

  /** A transformation undoes itself on one text. */
  predicate Undoes(t: Option<Transform>, text: Reply<string>) {
    t.Some? && text.Returned? ==>
      t.value.forward(text.value).Returned? ==>
        t.value.backward(t.value.forward(text.value).value) == text
  }

  /** What is read of an encoded envelope is what the serializer alone makes of its own text: the later stages
      undo each other, in the opposite order, on the texts they are given. */
  lemma {:induction false} PipelineRoundTrip(c: Config, e: Envelope)
    requires Encode(c, e).Returned?
    requires c.serialization.Some? ==>
      var s := c.serialization.value.stringify(e);
      Undoes(c.compression, s) && Undoes(c.encryption, Then(s, c.compression, false))
    ensures DecodeRaw(c, Encode(c, e).value) ==
      match c.serialization
      case None => (Some(e), [])
      case Some(codec) =>
        match codec.parse(codec.stringify(e).value)
        case Returned(back) => (Some(back), [])
        case Threw(x) => (None, [x])
  {
    if c.serialization.Some? {
      var s := c.serialization.value.stringify(e);
      var t := Then(s, c.compression, false);
      var u := Then(t, c.encryption, false);
      assert Then(Returned(u.value), c.encryption, true) == t;
      assert Then(t, c.compression, true) == s;
    }
  }

  // ---------- the full path ----------

  function CleanAll(c: Config, keys: seq<string>): (r: seq<string>)
    ensures |r| == |keys|
  {
    seq(|keys|, i requires 0 <= i < |keys| => Clean(c, keys[i]))
  }

  /** `deleteMany` as the expiry check calls it: through the core, which cleans the keys once more. */
  function DeleteExpired<S>(c: Config, a: Adapter<S>, s: S, keys: seq<string>, now: int): (S, seq<string>) {
    var (s', reply) := a.removeMany(s, CleanAll(c, keys), now);
    (s', if reply.Threw? then [reply.error] else [])
  }

  /** Decoding one row, dropping and deleting it when it is checked and found expired. */
  function Opened<S>(c: Config, a: Adapter<S>, s: S, key: string, raw: Raw, now: int): Outcome<S, Option<Envelope>> {
    var (data, errors) := DecodeRaw(c, raw);
    if c.checkExpired && data.Some? && IsDataExpired(data.value, now) then
      var (s', more) := DeleteExpired(c, a, s, [key], now);
      Outcome(s', None, errors + more)
    else Outcome(s, data, errors)
  }

  function FullGet<S>(c: Config, a: Adapter<S>, s: S, given: string, now: int): Outcome<S, Value> {
    var key := Clean(c, given);
    if key == "" then Outcome(s, UNDEFINED, [])
    else
      var (s', reply) := a.read(s, key, now);
      var raw := if reply.Returned? then reply.value else Absent;
      var errors := if reply.Threw? then [reply.error] else [];
      var found := Opened(c, a, s', key, raw, now);
      Outcome(found.store, if found.result.Some? then found.result.value.value else UNDEFINED, errors + found.errors)
  }

  function FullSet<S>(c: Config, a: Adapter<S>, s: S, given: string, value: Value, ttl: Option<real>,
      now: int): Outcome<S, bool> {
    var key := Clean(c, given);
    if key == "" then Outcome(s, false, [])
    else if value.Symbol? then Outcome(s, false, ["symbol cannot be serialized"])
    else
      var resolved := ResolveTtl(ttl, c.ttl);
      match Encode(c, Envelope(value, CalculateExpires(resolved, now)))
      case Threw(x) => Outcome(s, false, [x])
      case Returned(raw) =>
        match a.write(s, key, raw, resolved, now)
        case (s', Returned(ok)) => Outcome(s', ok, [])
        case (s', Threw(x)) => Outcome(s', false, [x])
  }

  function FullDelete<S>(c: Config, a: Adapter<S>, s: S, given: string, now: int): Outcome<S, bool> {
    var key := Clean(c, given);
    if key == "" then Outcome(s, false, [])
    else
      match a.remove(s, key, now)
      case (s', Returned(ok)) => Outcome(s', ok, [])
      case (s', Threw(x)) => Outcome(s', false, [x])
  }

  function FullHas<S>(c: Config, a: Adapter<S>, s: S, given: string, now: int): Outcome<S, bool> {
    var key := Clean(c, given);
    if key == "" then Outcome(s, false, [])
    else if c.checkExpired then
      match a.read(s, key, now) {
        case (s', Threw(x)) => Outcome(s', false, [x])
        case (s', Returned(raw)) =>
          var found := Opened(c, a, s', key, raw, now);
          Outcome(found.store, found.result.Some?, found.errors)
      }
    else
      match a.contains(s, key, now)
      case (s', Returned(ok)) => Outcome(s', ok, [])
      case (s', Threw(x)) => Outcome(s', false, [x])
  }

  /** With the check on, no row past its deadline is returned or reported present. */
  lemma {:induction false} CheckedReadsNeverExpired<S>(c: Config, a: Adapter<S>, s: S, given: string, now: int)
    requires c.checkExpired
    ensures ReadsExpired(c, a, s, Clean(c, given), now) ==>
      FullGet(c, a, s, given, now).result == UNDEFINED && !FullHas(c, a, s, given, now).result
  {
  }

  /** What the store gives for a key decodes to an envelope past its deadline. */
  predicate ReadsExpired<S>(c: Config, a: Adapter<S>, s: S, key: string, now: int) {
    var reply := a.read(s, key, now).1;
    reply.Returned? &&
    var data := DecodeRaw(c, reply.value).0;
    data.Some? && IsDataExpired(data.value, now)
  }

  // ---------- what the deletion of an expired row hits ----------

  /** A batch delete of the store takes exactly the rows listed; `rows` are the rows of a state. */
  ghost predicate RemovesListed<S(!new)>(a: Adapter<S>, rows: S -> map<string, Raw>) {
    forall s, keys, now :: rows(a.removeMany(s, keys, now).0) == rows(s) - set k | k in keys
  }

  /** A checked read of an expired row deletes the row of the key cleaned a second time. */
  lemma {:induction false} ExpiredReadDeletes<S(!new)>(
    c: Config, a: Adapter<S>, rows: S -> map<string, Raw>, s: S, given: string, now: int)
    requires RemovesListed(a, rows) && c.checkExpired && Clean(c, given) != ""
    requires ReadsExpired(c, a, s, Clean(c, given), now)
    ensures var left := rows(a.read(s, Clean(c, given), now).0) - {Clean(c, Clean(c, given))};
      rows(FullGet(c, a, s, given, now).store) == left == rows(FullHas(c, a, s, given, now).store)
  {
    var key := Clean(c, given);
    var s' := a.read(s, key, now).0;
    assert CleanAll(c, [key]) == [Clean(c, key)];
    assert (set k | k in [Clean(c, key)]) == {Clean(c, key)};
    assert rows(DeleteExpired(c, a, s', [key], now).0) == rows(s') - {Clean(c, key)};
  }

  /** That is the expired row, and no other, exactly when cleaning the cleaned key changes nothing, or neither key
      has a row any more. */
  lemma {:induction false} ExpiredReadIsRightIff<S(!new)>(
    c: Config, a: Adapter<S>, rows: S -> map<string, Raw>, s: S, given: string, now: int)
    requires RemovesListed(a, rows) && c.checkExpired && Clean(c, given) != ""
    requires ReadsExpired(c, a, s, Clean(c, given), now)
    ensures var key := Clean(c, given);
      var before := rows(a.read(s, key, now).0);
      rows(FullGet(c, a, s, given, now).store) == before - {key} <==>
        Clean(c, key) == key || (key !in before && Clean(c, key) !in before)
  {
    ExpiredReadDeletes(c, a, rows, s, given, now);
    TakingOneOfTwo(rows(a.read(s, Clean(c, given), now).0), Clean(c, given), Clean(c, Clean(c, given)));
  }

  /** And the row of another key is lost exactly when cleaning changes the cleaned key to one that has a row. */
  lemma {:induction false} ExpiredReadLosesOtherIff<S(!new)>(
    c: Config, a: Adapter<S>, rows: S -> map<string, Raw>, s: S, given: string, now: int)
    requires RemovesListed(a, rows) && c.checkExpired && Clean(c, given) != ""
    requires ReadsExpired(c, a, s, Clean(c, given), now)
    ensures var key := Clean(c, given);
      var before := rows(a.read(s, key, now).0);
      (exists other :: other != key && other in before && other !in rows(FullGet(c, a, s, given, now).store)) <==>
        Clean(c, key) != key && Clean(c, key) in before
  {
    ExpiredReadDeletes(c, a, rows, s, given, now);
  }

  lemma {:induction false} TakingOneOfTwo<K, V>(m: map<K, V>, k: K, l: K)
    ensures m - {l} == m - {k} <==> l == k || (k !in m && l !in m)
  {
    assert k in m - {l} <==> k in m && k != l;
    assert l in m - {k} <==> l in m && k != l;
    if k !in m && l !in m { assert m - {l} == m == m - {k}; }
  }

  /** A plain in-memory store. */
  function MapAdapter(): Adapter<map<string, Raw>> {
    Adapter(true,
      (m: map<string, Raw>, k, now) => (m, Returned(if k in m then m[k] else Absent)),
      (m: map<string, Raw>, k, raw, ttl, now) => (m[k := raw], Returned(true)),
      (m: map<string, Raw>, k, now) => (m - {k}, Returned(k in m)),
      (m: map<string, Raw>, k, now) => (m, Returned(k in m)),
      (m: map<string, Raw>, entries: seq<Encoded>, now) => (WrittenAll(m, entries), NoList),
      (m: map<string, Raw>, keys: seq<string>, now) =>
        (m - (set k | k in keys), Returned(seq(|keys|, i requires 0 <= i < |keys| => keys[i] in m))),
      (m: map<string, Raw>, keys: seq<string>, now) =>
        (m, Returned(seq(|keys|, i requires 0 <= i < |keys| => if keys[i] in m then m[keys[i]] else Absent))),
      (m: map<string, Raw>, keys: seq<string>, now) =>
        (m, Returned(seq(|keys|, i requires 0 <= i < |keys| => keys[i] in m))))
  }

  function WrittenAll(m: map<string, Raw>, entries: seq<Encoded>): map<string, Raw> {
    if entries == [] then m
    else
      var last := entries[|entries| - 1];
      WrittenAll(m, entries[..|entries| - 1])[last.key := last.value]
  }

  /** With the patterns against SQL and escapes on, at an input: reading `-`, line break, `-x` finds the row of
      `--x` expired, keeps it, and deletes the live row of `x`. */
  lemma {:induction false} ExpiredReadLosesLiveRow(value: Value, other: Value)
    ensures var clean := (key: string) => Sanitize.ApplyPatterns(Sanitize.Patterns(true, false, true, false), key);
      var c := Config(None, None, None, Sanitizer(true, clean), true, None);
      var expired, live := Object(Envelope(value, Some(0.0))), Object(Envelope(other, None));
      var read := FullGet(c, MapAdapter(), map["--x" := expired, "x" := live], "-\n-x", 1);
      read.result == UNDEFINED && read.store == map["--x" := expired]
  {
    var clean := (key: string) => Sanitize.ApplyPatterns(Sanitize.Patterns(true, false, true, false), key);
    var c := Config(None, None, None, Sanitizer(true, clean), true, None);
    var m := map["--x" := Object(Envelope(value, Some(0.0))), "x" := Object(Envelope(other, None))];
    Sanitize.CleaningIsNotIdempotent();
    hide Sanitize.ApplyPatterns;
    assert Clean(c, "-\n-x") == "--x" && Clean(c, "--x") == "x";
    assert RemovesListed(MapAdapter(), (s: map<string, Raw>) => s);
    ExpiredReadDeletes(c, MapAdapter(), s => s, m, "-\n-x", 1);
    assert m - {"x"} == map["--x" := Object(Envelope(value, Some(0.0)))];
  }

  // ---------- the fast path ----------

  /** The pipeline the fast path stands for. The sanitizer is not part of it: keys are cleaned before. */
  predicate TrivialPipeline<S>(c: Config, a: Adapter<S>) {
    c.serialization == None && c.compression == None && c.encryption == None && !c.checkExpired && a.inMemory
  }

  function FastGet<S>(c: Config, a: Adapter<S>, s: S, given: string, now: int): Outcome<S, Value> {
    var key := Clean(c, given);
    if key == "" then Outcome(s, UNDEFINED, [])
    else
      match a.read(s, key, now)
      case (s', Threw(x)) => Outcome(s', UNDEFINED, [x])
      case (s', Returned(Object(e))) => Outcome(s', e.value, [])
      case (s', Returned(_)) => Outcome(s', UNDEFINED, [])
  }

  function FastSet<S>(c: Config, a: Adapter<S>, s: S, given: string, value: Value, ttl: Option<real>,
      now: int): Outcome<S, bool> {
    var key := Clean(c, given);
    if key == "" then Outcome(s, false, [])
    else if value.Symbol? then Outcome(s, false, ["symbol cannot be serialized"])
    else
      var resolved := ResolveTtl(ttl, c.ttl);
      match a.write(s, key, Object(Envelope(value, CalculateExpires(resolved, now))), resolved, now)
      case (s', Returned(ok)) => Outcome(s', ok, [])
      case (s', Threw(x)) => Outcome(s', false, [x])
  }

  function FastDelete<S>(c: Config, a: Adapter<S>, s: S, given: string, now: int): Outcome<S, bool> {
    var key := Clean(c, given);
    if key == "" then Outcome(s, false, [])
    else
      match a.remove(s, key, now)
      case (s', Returned(ok)) => Outcome(s', ok, [])
      case (s', Threw(x)) => Outcome(s', false, [x])
  }

  function FastHas<S>(c: Config, a: Adapter<S>, s: S, given: string, now: int): Outcome<S, bool> {
    var key := Clean(c, given);
    if key == "" then Outcome(s, false, [])
    else
      match a.contains(s, key, now)
      case (s', Returned(ok)) => Outcome(s', ok, [])
      case (s', Threw(x)) => Outcome(s', false, [x])
  }

  /** The fast path refines the full one: same result, same store, same errors, for every adapter, however
      it throws, and whatever the sanitizer does. */
  lemma {:induction false} FastRefinesFull<S>(c: Config, a: Adapter<S>, s: S, given: string, value: Value,
      ttl: Option<real>, now: int)
    requires TrivialPipeline(c, a)
    ensures FastGet(c, a, s, given, now) == FullGet(c, a, s, given, now)
    ensures FastSet(c, a, s, given, value, ttl, now) == FullSet(c, a, s, given, value, ttl, now)
    ensures FastDelete(c, a, s, given, now) == FullDelete(c, a, s, given, now)
    ensures FastHas(c, a, s, given, now) == FullHas(c, a, s, given, now)
  {
    var (s', reply) := a.read(s, Clean(c, given), now);
    if reply.Threw? { assert [reply.error] + [] == [reply.error]; }
  }

  // ---------- whole runs of setters and calls ----------

  datatype Machine<!S> = Machine(adapter: Adapter<S>, store: S, config: Config, fastPath: bool)

  datatype Step<!S> =
    | UseStore(adapter: Adapter<S>, store: S)
    | UseSerialization(codec: Option<Codec>)
    | UseCompression(transform: Option<Transform>)
    | UseEncryption(transform: Option<Transform>)
    | UseSanitizer(sanitizer: Sanitizer)
    /** The sanitizer object changes its own options; the core is not told. */
    | SanitizerChanges(sanitizer: Sanitizer)
    | UseTtl(ttl: Option<real>)
    | Gets(key: string, now: int)
    | Sets(key: string, value: Value, ttl: Option<real>, now: int)
    | Deletes(key: string, now: int)
    | Asks(key: string, now: int)

  /** What a caller and the listeners of `error` see of one step. */
  datatype Seen = Got(value: Value, errors: seq<string>) | Flag(flag: bool, errors: seq<string>) | Nothing

  /** `recomputeFastPath`. */
  function FastPathOf<S>(c: Config, a: Adapter<S>): bool {
    TrivialPipeline(c, a) && !c.sanitizer.enabled
  }

  function Configured<S>(m: Machine<S>, c: Config): Machine<S> {
    Machine(m.adapter, m.store, c, FastPathOf(c, m.adapter))
  }

  /** One step of a core that takes the fast path when its flag is set, if it may. */
  function Perform<S>(m: Machine<S>, step: Step<S>, mayBeFast: bool): (Machine<S>, Seen) {
    var fast := mayBeFast && m.fastPath;
    match step
    case UseStore(a, s) => (Configured(m.(adapter := a, store := s), m.config), Nothing)
    case UseSerialization(codec) => (Configured(m, m.config.(serialization := codec)), Nothing)
    case UseCompression(t) => (Configured(m, m.config.(compression := t)), Nothing)
    case UseEncryption(t) => (Configured(m, m.config.(encryption := t)), Nothing)
    case UseSanitizer(s) => (Configured(m, m.config.(sanitizer := s)), Nothing)
    case SanitizerChanges(s) => (m.(config := m.config.(sanitizer := s)), Nothing)
    case UseTtl(ttl) => (m.(config := m.config.(ttl := if ttl.Some? && ttl.value <= 0.0 then None else ttl)), Nothing)
    case Gets(key, now) =>
      var o := if fast then FastGet(m.config, m.adapter, m.store, key, now)
        else FullGet(m.config, m.adapter, m.store, key, now);
      (m.(store := o.store), Got(o.result, o.errors))
    case Sets(key, value, ttl, now) =>
      var o := if fast then FastSet(m.config, m.adapter, m.store, key, value, ttl, now)
        else FullSet(m.config, m.adapter, m.store, key, value, ttl, now);
      (m.(store := o.store), Flag(o.result, o.errors))
    case Deletes(key, now) =>
      var o := if fast then FastDelete(m.config, m.adapter, m.store, key, now)
        else FullDelete(m.config, m.adapter, m.store, key, now);
      (m.(store := o.store), Flag(o.result, o.errors))
    case Asks(key, now) =>
      var o := if fast then FastHas(m.config, m.adapter, m.store, key, now)
        else FullHas(m.config, m.adapter, m.store, key, now);
      (m.(store := o.store), Flag(o.result, o.errors))
  }

  function Run<S>(m: Machine<S>, steps: seq<Step<S>>, mayBeFast: bool): (Machine<S>, seq<Seen>)
    decreases |steps|
  {
    if steps == [] then (m, [])
    else
      var (next, seen) := Perform(m, steps[0], mayBeFast);
      var (last, rest) := Run(next, steps[1..], mayBeFast);
      (last, [seen] + rest)
  }

  /** The flag is trusted only while nothing is serialized, compressed, encrypted or checked and the store is in
      memory. */
  predicate Sound<S>(m: Machine<S>) {
    m.fastPath ==> TrivialPipeline(m.config, m.adapter)
  }

  /** Over every run of setters, sanitizers changing in place and calls, a core that takes the fast path is
      indistinguishable from one that never does: same answers, same errors, same stores. */
  lemma {:induction false} RunsAgree<S>(m: Machine<S>, steps: seq<Step<S>>)
    requires Sound(m)
    ensures Run(m, steps, true) == Run(m, steps, false)
    ensures Sound(Run(m, steps, true).0)
    decreases |steps|
  {
    if steps == [] {
    } else {
      StepsAgree(m, steps[0]);
      RunsAgree(Perform(m, steps[0], true).0, steps[1..]);
    }
  }

  lemma {:induction false} StepsAgree<S>(m: Machine<S>, step: Step<S>)
    requires Sound(m)
    ensures Perform(m, step, true) == Perform(m, step, false)
    ensures Sound(Perform(m, step, true).0)
  {
    hide FastGet, FastSet, FastDelete, FastHas, FullGet, FullSet, FullHas, FullDelete;
    if m.fastPath {
      match step
      case Gets(key, now) => FastRefinesFull(m.config, m.adapter, m.store, key, UNDEFINED, None, now);
      case Sets(key, value, ttl, now) => FastRefinesFull(m.config, m.adapter, m.store, key, value, ttl, now);
      case Deletes(key, now) => FastRefinesFull(m.config, m.adapter, m.store, key, UNDEFINED, None, now);
      case Asks(key, now) => FastRefinesFull(m.config, m.adapter, m.store, key, UNDEFINED, None, now);
      case _ =>
    }
  }

  // ---------- batch reads ----------

  function ExpiredKeys(keys: seq<string>, data: seq<Option<Envelope>>, now: int): seq<string>
    requires |keys| == |data|
  {
    if data == [] then []
    else
      var n := |data| - 1;
      ExpiredKeys(keys[..n], data[..n], now) +
      if data[n].Some? && IsDataExpired(data[n].value, now) then [keys[n]] else []
  }

  /** The rows of a batch with the expired ones cleared. */
  function Unexpired(data: seq<Option<Envelope>>, now: int): (r: seq<Option<Envelope>>)
    ensures |r| == |data|
  {
    seq(|data|, i requires 0 <= i < |data| =>
      if data[i].Some? && IsDataExpired(data[i].value, now) then None else data[i])
  }

  function DecodeAll(c: Config, raws: seq<Raw>): (data: seq<Option<Envelope>>)
    ensures |data| == |raws|
  {
    seq(|raws|, i requires 0 <= i < |raws| => DecodeRaw(c, raws[i]).0)
  }

  function DecodeErrors(c: Config, raws: seq<Raw>): seq<string> {
    if raws == [] then []
    else DecodeErrors(c, raws[..|raws| - 1]) + DecodeRaw(c, raws[|raws| - 1]).1
  }

  /** Decoding the rows of a batch; the expired ones are cleared and deleted in one call, if there are any. */
  function OpenedAll<S>(c: Config, a: Adapter<S>, s: S, keys: seq<string>, raws: seq<Raw>,
      now: int): Outcome<S, seq<Option<Envelope>>>
    requires |keys| == |raws|
  {
    var data, errors := DecodeAll(c, raws), DecodeErrors(c, raws);
    if !c.checkExpired then Outcome(s, data, errors)
    else
      var expired := ExpiredKeys(keys, data, now);
      var (s', more) := if expired == [] then (s, []) else DeleteExpired(c, a, s, expired, now);
      Outcome(s', Unexpired(data, now), errors + more)
  }

  /** The store answers a batch read with one row per key, if it answers. */
  predicate OneRowEach<S>(a: Adapter<S>, s: S, keys: seq<string>, now: int) {
    var reply := a.readMany(s, keys, now).1;
    reply.Returned? ==> |reply.value| == |keys|
  }

  function ValueOf(found: Option<Envelope>): Value {
    if found.Some? then found.value.value else UNDEFINED
  }

  function ValuesOf(found: seq<Option<Envelope>>): (r: seq<Value>)
    ensures |r| == |found|
  {
    seq(|found|, i requires 0 <= i < |found| => ValueOf(found[i]))
  }

  function Kept(found: seq<Option<Envelope>>): (r: seq<bool>)
    ensures |r| == |found|
  {
    seq(|found|, i requires 0 <= i < |found| => found[i].Some?)
  }

  /** `getMany`; an error of the store is the caller's. */
  function FullGetMany<S>(c: Config, a: Adapter<S>, s: S, given: seq<string>, now: int): Outcome<S, Reply<seq<Value>>>
    requires OneRowEach(a, s, CleanAll(c, given), now)
  {
    var keys := CleanAll(c, given);
    match a.readMany(s, keys, now)
    case (s', Threw(x)) => Outcome(s', Threw(x), [])
    case (s', Returned(raws)) =>
      var found := OpenedAll(c, a, s', keys, raws, now);
      Outcome(found.store, Returned(ValuesOf(found.result)), found.errors)
  }

  function FullHasMany<S>(c: Config, a: Adapter<S>, s: S, given: seq<string>, now: int): Outcome<S, seq<bool>>
    requires OneRowEach(a, s, CleanAll(c, given), now)
  {
    var keys := CleanAll(c, given);
    if c.checkExpired then
      match a.readMany(s, keys, now) {
        case (s', Threw(x)) => Outcome(s', seq(|keys|, _ => false), [x])
        case (s', Returned(raws)) =>
          var found := OpenedAll(c, a, s', keys, raws, now);
          Outcome(found.store, Kept(found.result), found.errors)
      }
    else
      match a.containsMany(s, keys, now)
      case (s', Returned(flags)) => Outcome(s', flags, [])
      case (s', Threw(x)) => Outcome(s', seq(|keys|, _ => false), [x])
  }

  /** `deleteExpiredKeys` up to its one call: the rows found expired are cleared in place, their keys collected. */
  method CollectExpired(keys: seq<string>, data: array<Option<Envelope>>, now: int) returns (expired: seq<string>)
    requires |keys| == data.Length
    modifies data
    ensures expired == ExpiredKeys(keys, old(data[..]), now)
    ensures data[..] == Unexpired(old(data[..]), now)
  {
    expired := [];
    for index := 0 to data.Length
      invariant expired == ExpiredKeys(keys[..index], old(data[..])[..index], now)
      invariant forall i :: 0 <= i < index ==>
        data[i] == var row := old(data[i]); if row.Some? && IsDataExpired(row.value, now) then None else row
      invariant forall i :: index <= i < data.Length ==> data[i] == old(data[i])
    {
      var row := data[index];
      assert keys[..index + 1][..index] == keys[..index];
      assert old(data[..])[..index + 1][..index] == old(data[..])[..index];
      if row.Some? && IsDataExpired(row.value, now) {
        expired := expired + [keys[index]];
        data[index] := None;
      }
    }
    assert keys[..data.Length] == keys && old(data[..])[..data.Length] == old(data[..]);
  }

  // ---------- batch writes ----------

  datatype Entry = Entry(key: string, value: Value, ttl: Option<real>)

  /** `serializeOne`, with the `error` event it may emit. */
  function SerializeOne(c: Config, e: Entry, now: int): (Option<Encoded>, seq<string>) {
    var ttl := ResolveTtl(e.ttl, c.ttl);
    if e.value.Symbol? then (None, ["symbol cannot be serialized"])
    else
      match Encode(c, Envelope(e.value, CalculateExpires(ttl, now)))
      case Threw(x) => (None, [x])
      case Returned(raw) => (Some(Encoded(Clean(c, e.key), raw, ttl)), [])
  }

  function SerializeAll(c: Config, entries: seq<Entry>, now: int): (encoded: seq<Option<Encoded>>)
    ensures |encoded| == |entries|
  {
    seq(|entries|, i requires 0 <= i < |entries| => SerializeOne(c, entries[i], now).0)
  }

  function SerializeErrors(c: Config, entries: seq<Entry>, now: int): seq<string> {
    if entries == [] then []
    else SerializeErrors(c, entries[..|entries| - 1], now) + SerializeOne(c, entries[|entries| - 1], now).1
  }

  /** The entries that could be encoded, in order: what the store receives. */
  function Compacted(encoded: seq<Option<Encoded>>): seq<Encoded> {
    if encoded == [] then []
    else
      var n := |encoded| - 1;
      Compacted(encoded[..n]) + if encoded[n].Some? then [encoded[n].value] else []
  }

  /** The position of entry `i` among the encodable ones. */
  function CompactedPosition(encoded: seq<Option<Encoded>>, i: nat): nat
    requires i <= |encoded|
  {
    |Compacted(encoded[..i])|
  }

  /** Whether the store reported success at a compacted position; a missing answer counts as success. */
  predicate Accepted(reply: BatchReply, position: nat) {
    match reply
    case Failed(_) => false
    case NoList => true
    case Flags(flags) => position < |flags| && flags[position].Some? ==> flags[position].value
  }

  lemma {:induction false} CompactedNext(encoded: seq<Option<Encoded>>, i: nat)
    requires i < |encoded|
    ensures Compacted(encoded[..i + 1]) ==
      if encoded[i].Some? then Compacted(encoded[..i]) + [encoded[i].value] else Compacted(encoded[..i])
    ensures CompactedPosition(encoded, i) == |Compacted(encoded[..i])|
  {
    assert encoded[..i + 1][..i] == encoded[..i];
  }

  lemma {:induction false} SerializeErrorsNext(c: Config, entries: seq<Entry>, now: int, i: nat)
    requires i < |entries|
    ensures SerializeErrors(c, entries[..i + 1], now) ==
      SerializeErrors(c, entries[..i], now) + SerializeOne(c, entries[i], now).1
  {
    hide SerializeOne;
    assert entries[..i + 1][..i] == entries[..i];
  }

  /** An encodable entry stands at its compacted position. */
  lemma {:induction false} CompactedAt(encoded: seq<Option<Encoded>>, i: nat)
    requires i < |encoded| && encoded[i].Some?
    ensures CompactedPosition(encoded, i) < |Compacted(encoded)|
    ensures Compacted(encoded)[CompactedPosition(encoded, i)] == encoded[i].value
  {
    var n := |encoded| - 1;
    if i == n {
    } else {
      CompactedAt(encoded[..n], i);
      assert encoded[..n][..i] == encoded[..i];
    }
  }

  /** ... and no other entry does. */
  lemma {:induction false} CompactedApart(encoded: seq<Option<Encoded>>, i: nat, j: nat)
    requires i < j < |encoded| && encoded[i].Some?
    ensures CompactedPosition(encoded, i) < CompactedPosition(encoded, j)
  {
    CompactedAt(encoded[..j], i);
    assert encoded[..j][..i] == encoded[..i];
  }

  /** The keys whose write succeeded, in order: one set event each. */
  function SetEvents(entries: seq<Entry>, c: Config, results: seq<bool>): seq<string>
    requires |entries| == |results|
  {
    if entries == [] then []
    else
      var n := |entries| - 1;
      SetEvents(entries[..n], c, results[..n]) + if results[n] then [Clean(c, entries[n].key)] else []
  }

  class Core<S> {
    var adapter: Adapter<S>
    var store: S
    var config: Config
    var fastPath: bool
    /** The `error` events and the telemetry of sets, oldest first. */
    var errors: seq<string>
    var setEvents: seq<string>

    ghost function Snapshot(): Machine<S>
      reads this
    {
      Machine(adapter, store, config, fastPath)
    }

    ghost predicate Valid()
      reads this
    {
      Sound(Snapshot())
    }

    constructor (adapter: Adapter<S>, store: S, config: Config)
      ensures Valid() && this.adapter == adapter && this.store == store && this.config == config
      ensures fastPath == FastPathOf(config, adapter)
      ensures errors == [] && setEvents == []
    {
      this.adapter, this.store, this.config := adapter, store, config;
      errors, setEvents, fastPath := [], [], false;
      new;
      RecomputeFastPath();
    }

    method RecomputeFastPath()
      modifies this`fastPath
      ensures Valid() && fastPath == FastPathOf(config, adapter)
    {
      fastPath := config.serialization == None && config.compression == None && config.encryption == None &&
        !config.checkExpired && !config.sanitizer.enabled && adapter.inMemory;
    }

    method SetStore(adapter: Adapter<S>, store: S)
      modifies this`adapter, this`store, this`fastPath
      ensures Valid() && Snapshot() == Perform(old(Snapshot()), UseStore(adapter, store), true).0
    {
      this.adapter, this.store := adapter, store;
      RecomputeFastPath();
    }

    method SetSerialization(codec: Option<Codec>)
      modifies this`config, this`fastPath
      ensures Valid() && Snapshot() == Perform(old(Snapshot()), UseSerialization(codec), true).0
    {
      config := config.(serialization := codec);
      RecomputeFastPath();
    }

    method SetCompression(t: Option<Transform>)
      modifies this`config, this`fastPath
      ensures Valid() && Snapshot() == Perform(old(Snapshot()), UseCompression(t), true).0
    {
      config := config.(compression := t);
      RecomputeFastPath();
    }

    method SetEncryption(t: Option<Transform>)
      modifies this`config, this`fastPath
      ensures Valid() && Snapshot() == Perform(old(Snapshot()), UseEncryption(t), true).0
    {
      config := config.(encryption := t);
      RecomputeFastPath();
    }

    method SetSanitizer(s: Sanitizer)
      modifies this`config, this`fastPath
      ensures Valid() && Snapshot() == Perform(old(Snapshot()), UseSanitizer(s), true).0
    {
      config := config.(sanitizer := s);
      RecomputeFastPath();
    }

    /** The sanitizer object is reconfigured behind the core's back: nothing is recomputed. */
    method ReconfigureSanitizer(s: Sanitizer)
      requires Valid()
      modifies this`config
      ensures Valid() && Snapshot() == Perform(old(Snapshot()), SanitizerChanges(s), true).0
    {
      config := config.(sanitizer := s);
    }

    method SetTtl(ttl: Option<real>)
      requires Valid()
      modifies this`config
      ensures Valid() && Snapshot() == Perform(old(Snapshot()), UseTtl(ttl), true).0
    {
      config := config.(ttl := if ttl.Some? && ttl.value <= 0.0 then None else ttl);
    }

    /** `get`, whichever path is taken. */
    method Get(given: string, now: int) returns (result: Value)
      requires Valid()
      modifies this`store, this`errors
      ensures var o := FullGet(config, adapter, old(store), given, now);
        store == o.store && result == o.result && errors == old(errors) + o.errors
    {
      if fastPath { FastRefinesFull(config, adapter, store, given, UNDEFINED, None, now); }
      var key := if config.sanitizer.enabled then config.sanitizer.cleanKey(given) else given;
      if key == "" {
        return UNDEFINED;
      }
      var (s, reply) := adapter.read(store, key, now);
      store := s;
      if fastPath {
        match reply {
          case Threw(x) => errors := errors + [x]; return UNDEFINED;
          case Returned(Object(e)) => return e.value;
          case Returned(_) => return UNDEFINED;
        }
      }
      var raw := Absent;
      match reply {
        case Threw(x) => errors := errors + [x];
        case Returned(r) => raw := r;
      }
      var found := Opened(config, adapter, store, key, raw, now);
      store, errors := found.store, errors + found.errors;
      result := if found.result.Some? then found.result.value.value else UNDEFINED;
    }

    method Set(given: string, value: Value, ttl: Option<real>, now: int) returns (result: bool)
      requires Valid()
      modifies this`store, this`errors
      ensures var o := FullSet(config, adapter, old(store), given, value, ttl, now);
        store == o.store && result == o.result && errors == old(errors) + o.errors
    {
      if fastPath { FastRefinesFull(config, adapter, store, given, value, ttl, now); }
      var key := if config.sanitizer.enabled then config.sanitizer.cleanKey(given) else given;
      if key == "" {
        return false;
      }
      if value.Symbol? {
        errors := errors + ["symbol cannot be serialized"];
        return false;
      }
      var resolved := ResolveTtl(ttl, config.ttl);
      var envelope := Envelope(value, CalculateExpires(resolved, now));
      var raw := Object(envelope);
      if !fastPath {
        match Encode(config, envelope) {
          case Threw(x) => errors := errors + [x]; return false;
          case Returned(r) => raw := r;
        }
      }
      var (s, reply) := adapter.write(store, key, raw, resolved, now);
      store := s;
      match reply {
        case Returned(ok) => result := ok;
        case Threw(x) => errors := errors + [x]; result := false;
      }
    }

    method Delete(given: string, now: int) returns (result: bool)
      requires Valid()
      modifies this`store, this`errors
      ensures var o := FullDelete(config, adapter, old(store), given, now);
        store == o.store && result == o.result && errors == old(errors) + o.errors
    {
      var key := if config.sanitizer.enabled then config.sanitizer.cleanKey(given) else given;
      if key == "" {
        return false;
      }
      var (s, reply) := adapter.remove(store, key, now);
      store := s;
      if fastPath {
        match reply {
          case Returned(ok) => return ok;
          case Threw(x) => errors := errors + [x]; return false;
        }
      }
      result := true;
      match reply {
        case Returned(ok) => result := ok;
        case Threw(x) => errors := errors + [x]; result := false;
      }
    }

    method Has(given: string, now: int) returns (result: bool)
      requires Valid()
      modifies this`store, this`errors
      ensures var o := FullHas(config, adapter, old(store), given, now);
        store == o.store && result == o.result && errors == old(errors) + o.errors
    {
      var key := if config.sanitizer.enabled then config.sanitizer.cleanKey(given) else given;
      if key == "" {
        return false;
      }
      if !fastPath && config.checkExpired {
        var (s, reply) := adapter.read(store, key, now);
        store := s;
        match reply {
          case Threw(x) => errors := errors + [x]; return false;
          case Returned(raw) =>
            var found := Opened(config, adapter, store, key, raw, now);
            store, errors := found.store, errors + found.errors;
            return found.result.Some?;
        }
      }
      var (s, reply) := adapter.contains(store, key, now);
      store := s;
      match reply {
        case Returned(ok) => result := ok;
        case Threw(x) => errors := errors + [x]; result := false;
      }
    }

    method DecodeRows(raws: seq<Raw>) returns (data: array<Option<Envelope>>)
      modifies this`errors
      ensures fresh(data) && data[..] == DecodeAll(config, raws)
      ensures errors == old(errors) + DecodeErrors(config, raws)
    {
      hide DecodeRaw;
      data := new Option<Envelope>[|raws|](_ => None);
      for i := 0 to |raws|
        invariant data[..i] == DecodeAll(config, raws[..i])
        invariant errors == old(errors) + DecodeErrors(config, raws[..i])
      {
        var (row, problems) := DecodeRaw(config, raws[i]);
        assert raws[..i + 1][..i] == raws[..i];
        data[i] := row;
        errors := errors + problems;
      }
      assert raws[..|raws|] == raws;
    }

    /** `decodeWithExpire` over the rows of a batch; nothing is deleted when nothing is checked. */
    method OpenAll(keys: seq<string>, raws: seq<Raw>, now: int) returns (found: seq<Option<Envelope>>)
      requires |keys| == |raws|
      modifies this`store, this`errors
      ensures var o := OpenedAll(config, adapter, old(store), keys, raws, now);
        store == o.store && found == o.result && errors == old(errors) + o.errors
    {
      hide DecodeAll, DecodeErrors, ExpiredKeys, Unexpired, DeleteExpired;
      var data := DecodeRows(raws);
      if config.checkExpired {
        var expired := CollectExpired(keys, data, now);
        if |expired| > 0 {
          var (s, problems) := DeleteExpired(config, adapter, store, expired, now);
          store, errors := s, errors + problems;
        } else {
          assert errors == errors + [];
        }
      }
      found := data[..];
    }

    method GetMany(given: seq<string>, now: int) returns (result: Reply<seq<Value>>)
      requires OneRowEach(adapter, store, CleanAll(config, given), now)
      modifies this`store, this`errors
      ensures var o := FullGetMany(config, adapter, old(store), given, now);
        store == o.store && result == o.result && errors == old(errors) + o.errors
    {
      var keys := CleanAll(config, given);
      var (s, reply) := adapter.readMany(store, keys, now);
      store := s;
      match reply {
        case Threw(x) =>
          assert errors == errors + [];
          return Threw(x);
        case Returned(raws) =>
          var found := OpenAll(keys, raws, now);
          result := Returned(ValuesOf(found));
      }
    }

    method HasMany(given: seq<string>, now: int) returns (result: seq<bool>)
      requires OneRowEach(adapter, store, CleanAll(config, given), now)
      modifies this`store, this`errors
      ensures var o := FullHasMany(config, adapter, old(store), given, now);
        store == o.store && result == o.result && errors == old(errors) + o.errors
    {
      var keys := CleanAll(config, given);
      if config.checkExpired {
        var (s, reply) := adapter.readMany(store, keys, now);
        store := s;
        match reply {
          case Threw(x) => errors := errors + [x]; result := seq(|keys|, _ => false);
          case Returned(raws) =>
            var found := OpenAll(keys, raws, now);
            result := Kept(found);
        }
        return;
      }
      var (s, reply) := adapter.containsMany(store, keys, now);
      store := s;
      match reply {
        case Returned(flags) => result := flags;
        case Threw(x) => errors := errors + [x]; result := seq(|keys|, _ => false);
      }
    }

    /** Encoding entry by entry: the encodable ones with their original positions, in order. */
    method EncodeEntries(entries: seq<Entry>, now: int) returns (surviving: seq<Encoded>, originalIndex: seq<nat>)
      modifies this`errors
      ensures var encoded := SerializeAll(config, entries, now);
        && surviving == Compacted(encoded)
        && |originalIndex| == |surviving|
        && (forall j :: 0 <= j < |surviving| ==>
              originalIndex[j] < |entries| && encoded[originalIndex[j]] == Some(surviving[j]) &&
              CompactedPosition(encoded, originalIndex[j]) == j)
      ensures errors == old(errors) + SerializeErrors(config, entries, now)
    {
      hide SerializeOne, SerializeErrors, Compacted, CompactedPosition;
      NothingSerialized(config, now);
      ghost var encoded := SerializeAll(config, entries, now);
      surviving, originalIndex := [], [];
      for i := 0 to |entries|
        invariant surviving == Compacted(encoded[..i])
        invariant |originalIndex| == |surviving|
        invariant forall j :: 0 <= j < |surviving| ==>
          originalIndex[j] < i && encoded[originalIndex[j]] == Some(surviving[j]) &&
            CompactedPosition(encoded, originalIndex[j]) == j
        invariant errors == old(errors) + SerializeErrors(config, entries[..i], now)
      {
        var (one, problem) := SerializeOne(config, entries[i], now);
        SerializeErrorsNext(config, entries, now, i);
        CompactedNext(encoded, i);
        errors := errors + problem;
        if one.Some? {
          surviving := surviving + [one.value];
          originalIndex := originalIndex + [i];
        }
      }
      assert entries[..|entries|] == entries && encoded[..|entries|] == encoded;
    }

    lemma {:induction false} KeysAreCleaned(entries: seq<Entry>, now: int)
      ensures var encoded := SerializeAll(config, entries, now);
        forall i :: 0 <= i < |entries| && encoded[i].Some? ==> encoded[i].value.key == Clean(config, entries[i].key)
    {
      hide Encode, Clean;
    }

    /** `setMany`. The store receives exactly the encodable entries in order; result `i` is true exactly when
        entry `i` encoded and the store did not report failure at its compacted position; one set event for
        each true position. */
    method SetMany(entries: seq<Entry>, now: int) returns (results: seq<bool>)
      modifies this`store, this`errors, this`setEvents
      ensures var encoded := SerializeAll(config, entries, now);
        var sent := Compacted(encoded);
        var (s, reply) := if sent == [] then (old(store), NoList) else adapter.writeMany(old(store), sent, now);
        && store == s
        && |results| == |entries|
        && (forall i :: 0 <= i < |entries| ==>
              results[i] == (encoded[i].Some? && Accepted(reply, CompactedPosition(encoded, i))))
        && setEvents == old(setEvents) + SetEvents(entries, config, results)
        && errors == old(errors) + SerializeErrors(config, entries, now) + if reply.Failed? then [reply.error] else []
    {
      hide SerializeOne, Compacted, CompactedPosition, SetEvents, SerializeErrors;
      ghost var encoded := SerializeAll(config, entries, now);
      var surviving, originalIndex := EncodeEntries(entries, now);
      KeysAreCleaned(entries, now);
      results := seq(|entries|, _ => false);
      NoSetEvents(entries, config, results);
      if surviving == [] {
        forall i | 0 <= i < |entries|
          ensures encoded[i] == None
        {
          if encoded[i].Some? { CompactedAt(encoded, i); }
        }
        assert errors == errors + [] && setEvents == old(setEvents) + [];
        return;
      }
      var (s, reply) := adapter.writeMany(store, surviving, now);
      store := s;
      if reply.Failed? {
        errors := errors + [reply.error];
        assert setEvents == old(setEvents) + [];
        return;
      }
      results, setEvents := MapBack(entries, encoded, surviving, originalIndex, reply, setEvents);
    }

    /** Mapping the answers of the store back to the positions of the entries. */
    method MapBack(entries: seq<Entry>, ghost encoded: seq<Option<Encoded>>, surviving: seq<Encoded>,
        originalIndex: seq<nat>, reply: BatchReply, before: seq<string>)
        returns (results: seq<bool>, events: seq<string>)
      requires |encoded| == |entries| && surviving == Compacted(encoded) && !reply.Failed?
      requires forall i :: 0 <= i < |entries| && encoded[i].Some? ==>
        encoded[i].value.key == Clean(config, entries[i].key)
      requires |originalIndex| == |surviving|
      requires forall j :: 0 <= j < |surviving| ==>
        originalIndex[j] < |entries| && encoded[originalIndex[j]] == Some(surviving[j]) &&
          CompactedPosition(encoded, originalIndex[j]) == j
      ensures |results| == |entries|
      ensures forall i :: 0 <= i < |entries| ==>
        results[i] == (encoded[i].Some? && Accepted(reply, CompactedPosition(encoded, i)))
      ensures events == before + SetEvents(entries, config, results)
    {
      results, events := seq(|entries|, _ => false), before;
      ghost var verdicts := Verdicts(encoded, reply);
      NoSetEvents(entries, config, results);
      for j := 0 to |surviving|
        invariant |results| == |entries|
        invariant forall i :: 0 <= i < |entries| ==>
          results[i] == (verdicts[i] && CompactedPosition(encoded, i) < j)
        invariant events == before + SetEvents(entries, config, results)
      {
        var success := match reply
          case Flags(flags) => (if j < |flags| && flags[j].Some? then flags[j].value else true)
          case _ => true;
        var i := originalIndex[j];
        ghost var earlier := results;
        results := results[i := success];
        forall m | 0 <= m < |entries| && m != i && encoded[m].Some?
          ensures CompactedPosition(encoded, m) != j
        {
          if m < i { CompactedApart(encoded, m, i); } else { CompactedApart(encoded, i, m); }
        }
        if success {
          forall m | i < m < |entries|
            ensures !earlier[m]
          {
            if encoded[m].Some? { CompactedApart(encoded, i, m); }
          }
          SetEventsAppend(entries, config, earlier, i);
          events := events + [surviving[j].key];
        } else {
          assert results == earlier;
        }
      }
      forall i | 0 <= i < |entries| && encoded[i].Some?
        ensures CompactedPosition(encoded, i) < |surviving|
      {
        CompactedAt(encoded, i);
      }
    }
  }

  function Verdicts(encoded: seq<Option<Encoded>>, reply: BatchReply): (v: seq<bool>)
    ensures |v| == |encoded|
  {
    seq(|encoded|, i requires 0 <= i < |encoded| => encoded[i].Some? && Accepted(reply, CompactedPosition(encoded, i)))
  }

  lemma {:induction false} NothingSerialized(c: Config, now: int)
    ensures Compacted([]) == [] && SerializeErrors(c, [], now) == []
  {
  }

  lemma {:induction false} NoSetEvents(entries: seq<Entry>, c: Config, results: seq<bool>)
    requires |entries| == |results| && forall i :: 0 <= i < |results| ==> !results[i]
    ensures SetEvents(entries, c, results) == []
  {
    if entries == [] {
    } else {
      NoSetEvents(entries[..|entries| - 1], c, results[..|entries| - 1]);
    }
  }

  /** Turning on a position after all those that are on adds its key at the end. */
  lemma {:induction false} SetEventsAppend(entries: seq<Entry>, c: Config, results: seq<bool>, i: nat)
    requires |entries| == |results| && i < |results|
    requires !results[i] && forall m :: i < m < |results| ==> !results[m]
    ensures SetEvents(entries, c, results[i := true]) == SetEvents(entries, c, results) + [Clean(c, entries[i].key)]
  {
    var n := |entries| - 1;
    if i < n {
      SetEventsAppend(entries[..n], c, results[..n], i);
      assert results[i := true][..n] == results[..n][i := true];
    } else {
      assert results[i := true][..n] == results[..n];
    }
  }
}
