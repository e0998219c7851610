/** Storely over SQLite with the default serializer, from the value handed to `set` to the value `get` returns. */
module EndToEnd {
  import opened Texts
  import opened SqliteTable
  import opened Sqlite
  import opened SqliteRuns
  import C = Storely
  import J = Json
  import S = JsonSerializer

  /** The text Storely stores for a value with an optional deadline. */
  function Encoded(value: S.Js, expires: Option<string>): string
    requires S.ValidEnvelope(value, expires)
  {
    S.EnvelopeRoundTrip(value, expires);
    S.Stringify(S.Envelope(value, expires)).value
  }

  function DeadlineOf(expires: Option<string>): Option<real>
    requires expires.Some? ==> J.IsNumeral(expires.value)
  {
    if expires == None then None else Some(J.NumeralValue(expires.value))
  }

  /** The envelope with a deadline is printed as an object whose `expires` is that number. */
  lemma {:induction false} EnvelopeMembers(value: S.Js, expires: Option<string>)
    requires S.ValidEnvelope(value, expires)
    ensures var o := S.Envelope(value, expires);
      S.Prepared(S.Prepare(o)) && S.Serialize(S.Prepare(o)).Some? && S.Serialize(S.Prepare(o)).value.Obj? &&
      var found := FindMember(S.Serialize(S.Prepare(o)).value.members, "expires");
      found == if expires == None then None else Some(J.Num(expires.value))
  {
    hide FindMember, S.SerializeProps, S.PrepareProps;
    var o := S.Envelope(value, expires);
    S.EnvelopeFields(value, expires);
    PropsFind(o.props, "expires");
    assert "expires"[0] != S.PROTO[0];
  }

  /** Serializing keeps the names apart: a member is found as the property is. */
  lemma {:induction false} PropsFind(props: seq<S.Prop>, name: string)
    requires S.Distinct(props) && (forall i :: 0 <= i < |props| ==> S.Valid(props[i].value)) && name != S.PROTO
    ensures S.Prepared(S.Prepare(S.Obj(props))) && S.Serialize(S.Prepare(S.Obj(props))).Some?
    ensures S.Serialize(S.Prepare(S.Obj(props))).value.Obj?
    ensures var found := FindMember(S.Serialize(S.Prepare(S.Obj(props))).value.members, name);
      (S.PrepareIsPrepared(S.Lookup(props, name)); found == S.Serialize(S.Prepare(S.Lookup(props, name))))
    decreases props
  {
    S.PreparedProps(props);
    if props == [] {
    } else {
      S.ReviveSerialize(props[0].value);
      PropsFind(props[1..], name);
      S.PreparedProps(props[1..]);
      var ms := S.SerializeProps(S.PrepareProps(props[1..]));
      if props[0].value == S.Undefined || props[0].name == S.PROTO {
        if props[0].name == name { FindAbsent(props[1..], name); }
      } else {
        var ps := S.PrepareProps(props);
        assert ps[1..] == S.PrepareProps(props[1..]);
        assert S.SerializeProps(ps)[1..] == ms;
      }
    }
  }

  lemma {:induction false} FindAbsent(props: seq<S.Prop>, name: string)
    requires forall i :: 0 <= i < |props| ==> props[i].name != name
    ensures S.Lookup(props, name) == S.Undefined
  {
    if props == [] {
    } else {
      FindAbsent(props[1..], name);
    }
  }

  /** The `expires` column is exactly the envelope's deadline or NULL, whatever the value looks like. */
  lemma {:induction false} ColumnIsDeadline(value: S.Js, expires: Option<string>)
    requires S.ValidEnvelope(value, expires)
    ensures ExpiresOf(Encoded(value, expires)) == DeadlineOf(expires)
  {
    hide S.Prepare, S.Serialize, J.Parse, J.Print, J.NumeralValue, J.IsNumeral;
    var o := S.Envelope(value, expires);
    S.EnvelopeFields(value, expires);
    S.FormsDoNotCollide(o);
    S.EnvelopeRoundTrip(value, expires);
    var text := Encoded(value, expires);
    if S.Sentinel(o) {
      J.StarIsNotJson(text);
    } else {
      S.ReviveSerialize(o);
      EnvelopeMembers(value, expires);
      J.RoundTrip(S.Serialize(S.Prepare(o)).value);
    }
  }

  // ---------- one key ----------

  /** The table after `storely.set(key, value)` with that deadline. */
  function Stored(t: Table, key: string, value: S.Js, expires: Option<string>, ns: Option<string>): Table
    requires S.ValidEnvelope(value, expires)
  {
    Upsert(t, [WriteOf(Entry(key, Encoded(value, expires)), ns)], NamespaceValue(ns))
  }

  /** `storely.get(key)`: what the decoded envelope holds under `value`; undefined when nothing is found. */
  function Retrieved(t: Table, key: string, ns: Option<string>, now: int): S.Js {
    match Lookup(t, StripPrefix(key, ns), NamespaceValue(ns), now)
    case None => S.Undefined
    case Some(text) =>
      match S.Parse(text)
      case None => S.Undefined
      case Some(envelope) => if envelope.Obj? then S.Get(envelope, "value") else S.Undefined
  }

  predicate InTime(expires: Option<string>, now: int)
    requires expires.Some? ==> J.IsNumeral(expires.value)
  {
    expires == None || (now as real) < J.NumeralValue(expires.value)
  }

  // ---------- after any run that leaves the key alone ----------

  /** The call writes, deletes or clears the row. */
  predicate Touches(c: Call, id: Id) {
    CallFate(c, id) != Untouched
  }

  lemma {:induction false} UntouchedFate(script: seq<Call>, id: Id)
    requires forall i :: 0 <= i < |script| ==> !Touches(script[i], id)
    ensures FateIn(script, id) == Untouched
  {
    hide CallFate;
    if script == [] {
    } else {
      assert !Touches(script[0], id);
      UntouchedFate(script[1..], id);
    }
  }

  /** A row nobody touches stays readable as long as it lives, whatever else runs. */
  lemma {:induction false} UntouchedRun(t: Table, script: seq<Call>, since: int, id: Id, later: int)
    requires Monotone(script, since) && End(script, since) <= later
    requires forall i :: 0 <= i < |script| ==> !Touches(script[i], id)
    ensures LiveRow(Final(t, script), id, later) == LiveRow(t, id, later)
  {
    UntouchedFate(script, id);
    FateDecides(t, script, since, id, later);
  }

  /** The text the table holds before the deadline, and nothing from then on. */
  lemma {:induction false} FoundText(t: Table, key: string, value: S.Js, expires: Option<string>, ns: Option<string>,
      script: seq<Call>, since: int, now: int)
    requires S.ValidEnvelope(value, expires)
    requires Monotone(script, since) && End(script, since) <= now
    requires forall i :: 0 <= i < |script| ==> !Touches(script[i], Id(StripPrefix(key, ns), NamespaceValue(ns)))
    ensures Lookup(Final(Stored(t, key, value, expires, ns), script), StripPrefix(key, ns), NamespaceValue(ns), now) ==
      if InTime(expires, now) then Some(Encoded(value, expires)) else None
  {
    hide ExpiresOf, S.Parse, S.Stringify, S.Normalize, S.ValidEnvelope, J.NumeralValue, J.IsNumeral, StripPrefix;
    ColumnIsDeadline(value, expires);
    var id := Id(StripPrefix(key, ns), NamespaceValue(ns));
    UntouchedRun(Stored(t, key, value, expires, ns), script, since, id, now);
    var text := Encoded(value, expires);
    StoredRow(t, id, Row(text, ExpiresOf(text)));
  }

  lemma {:induction false} StoredRow(t: Table, id: Id, row: Row)
    ensures id in Upsert(t, [Write(id.key, row)], id.ns) && Upsert(t, [Write(id.key, row)], id.ns)[id] == row
  {
  }

  /** A stored value comes back in normal form before its deadline and not at all from then on, after any
      run of calls through any adapters that do not write, delete or clear its row. */
  lemma {:induction false} ReadBack(t: Table, key: string, value: S.Js, expires: Option<string>, ns: Option<string>,
      script: seq<Call>, since: int, now: int)
    requires S.ValidEnvelope(value, expires)
    requires Monotone(script, since) && End(script, since) <= now
    requires forall i :: 0 <= i < |script| ==> !Touches(script[i], Id(StripPrefix(key, ns), NamespaceValue(ns)))
    ensures var u := Final(Stored(t, key, value, expires, ns), script);
      Retrieved(u, key, ns, now) == if InTime(expires, now) then S.Normalize(value) else S.Undefined
  {
    hide S.Parse, S.Stringify, S.Normalize, S.ValidEnvelope, J.NumeralValue, J.IsNumeral, StripPrefix, Lookup, Stored;
    S.EnvelopeRoundTrip(value, expires);
    FoundText(t, key, value, expires, ns, script, since, now);
  }

  /** A value JSON can carry is read back unchanged exactly while it has no deadline or the time is before it. */
  lemma {:induction false} ReadBackUnchangedIff(t: Table, key: string, value: S.Js, expires: Option<string>,
      ns: Option<string>, script: seq<Call>, since: int, now: int)
    requires S.ValidEnvelope(value, expires) && S.Faithful(value)
    requires Monotone(script, since) && End(script, since) <= now
    requires forall i :: 0 <= i < |script| ==> !Touches(script[i], Id(StripPrefix(key, ns), NamespaceValue(ns)))
    ensures Retrieved(Final(Stored(t, key, value, expires, ns), script), key, ns, now) == value <==>
      InTime(expires, now)
  {
    ReadBack(t, key, value, expires, ns, script, since, now);
    S.NormalizeKeepsExactlyFaithful(value);
  }

  /** With a TTL: the deadline `now + ttl` is the integer the column holds. */
  lemma {:induction false} TtlDeadline(setAt: nat, ttl: nat, now: int)
    ensures J.IsNumeral(Decimal(setAt + ttl))
    ensures InTime(Some(Decimal(setAt + ttl)), now) <==> now < setAt + ttl
  {
    J.DecimalIsNumeral(setAt + ttl);
  }

  // ---------- the core over this adapter and this serializer ----------

  /** The default serializer as the core calls it; `show` prints a deadline as a number's `toString` does. */
  function JsonCodec(show: real -> string): C.Codec {
    C.Codec(e => StringifyEnvelope(show, e), text => ParseEnvelope(text))
  }

  function StringifyEnvelope(show: real -> string, e: C.Envelope): C.Reply<string> {
    match e.value
    case Symbol => C.Threw("symbol cannot be serialized")
    case Tree(tree) =>
      match S.Stringify(S.Envelope(tree, Shown(show, e.expires)))
      case None => C.Threw("nothing to store")
      case Some(text) => C.Returned(text)
  }

  function Shown(show: real -> string, deadline: Option<real>): Option<string> {
    if deadline == None then None else Some(show(deadline.value))
  }

  function ParseEnvelope(text: string): C.Reply<C.Envelope> {
    match S.Parse(text)
    case None => C.Threw("unreadable text")
    case Some(o) => C.Returned(EnvelopeOf(o))
  }

  /** An object's `value` and numeric `expires`; anything else has neither. */
  function EnvelopeOf(o: S.Js): C.Envelope {
    if !o.Obj? then C.Envelope(C.UNDEFINED, None)
    else C.Envelope(C.Tree(S.Get(o, "value")),
      match S.Get(o, "expires")
      case Num(n) => if J.IsNumeral(n) then Some(J.NumeralValue(n)) else None
      case _ => None)
  }

  /** The SQLite adapter as the core calls it: its operations on the table, as they are specified for the class.
      A value that is not a text cannot be bound, and its statement fails. */
  function SqliteAdapter(ns: Option<string>): C.Adapter<Table> {
    C.Adapter(false,
      (t, k, now) => ReadText(t, k, ns, now),
      (t, k, raw: C.Raw, ttl, now) =>
        if raw.Text? then (Upsert(t, [WriteOf(Entry(k, raw.s), ns)], NamespaceValue(ns)), C.Returned(true))
        else (t, C.Returned(false)),
      (t, k, now) =>
        (DeleteIn(t, [StripPrefix(k, ns)], NamespaceValue(ns)),
          C.Returned(Id(StripPrefix(k, ns), NamespaceValue(ns)) in t)),
      (t, k, now) =>
        (Sweep(t, [StripPrefix(k, ns)], NamespaceValue(ns), now),
         C.Returned(Lookup(t, StripPrefix(k, ns), NamespaceValue(ns), now).Some?)),
      (t, entries, now) => WriteTexts(t, entries, ns),
      (t, keys, now) =>
        (DeleteIn(t, Strip(keys, ns), NamespaceValue(ns)),
          C.Returned(Presence(t, Strip(keys, ns), NamespaceValue(ns)))),
      (t, keys, now) => (Sweep(t, Strip(keys, ns), NamespaceValue(ns), now), C.Returned(ReadTexts(t, keys, ns, now))),
      (t, keys, now) =>
        (Sweep(t, Strip(keys, ns), NamespaceValue(ns), now),
         C.Returned(Lives(Answers(t, Strip(keys, ns), NamespaceValue(ns), now)))))
  }

  function ReadTexts(t: Table, keys: seq<string>, ns: Option<string>, now: int): (r: seq<C.Raw>)
    ensures |r| == |keys|
  {
    var texts := Answers(t, Strip(keys, ns), NamespaceValue(ns), now);
    seq(|keys|, i requires 0 <= i < |keys| => if texts[i].Some? then C.Text(texts[i].value) else C.Absent)
  }

  function ReadText(t: Table, key: string, ns: Option<string>, now: int): (Table, C.Reply<C.Raw>) {
    var stripped := StripPrefix(key, ns);
    (Sweep(t, [stripped], NamespaceValue(ns), now),
     match Lookup(t, stripped, NamespaceValue(ns), now)
     case None => C.Returned(C.Absent)
     case Some(text) => C.Returned(C.Text(text)))
  }

  /** The chunks that hold texts only go through. */
  function WriteTexts(t: Table, entries: seq<C.Encoded>, ns: Option<string>): (Table, C.BatchReply) {
    var texts := seq(|entries|, i requires 0 <= i < |entries| =>
      Entry(entries[i].key, if entries[i].value.Text? then entries[i].value.s else ""));
    var ok := Outcomes(|entries|, chunk =>
      forall i :: 0 <= i < |entries| && i / WRITE_BATCH == chunk ==> entries[i].value.Text?);
    (Upsert(t, WritesOf(Succeeded(texts, ok), ns), NamespaceValue(ns)),
     C.Flags(seq(|entries|, i requires 0 <= i < |entries| => Some(ok[i]))))
  }

  /** The serializer is the default one, and its text goes to the store as it is. */
  ghost predicate PlainJson(c: C.Config, show: real -> string) {
    c.serialization == Some(JsonCodec(show)) && c.compression == None && c.encryption == None
  }

  predicate ShowsWell(show: real -> string, deadline: Option<real>) {
    deadline.Some? ==> S.IsNumberText(show(deadline.value)) && J.NumeralValue(show(deadline.value)) == deadline.value
  }

  /** The deadline the core computes for a `set`. */
  function Deadline(c: C.Config, ttl: Option<real>, setAt: int): Option<real> {
    C.CalculateExpires(C.ResolveTtl(ttl, c.ttl), setAt)
  }

  /** `set` stores the envelope's text under the cleaned key. */
  lemma {:induction false} SetStores(c: C.Config, show: real -> string, ns: Option<string>, t: Table, given: string,
      tree: S.Js, ttl: Option<real>, setAt: int)
    requires PlainJson(c, show) && C.Clean(c, given) != "" && S.Valid(tree) && ShowsWell(show, Deadline(c, ttl, setAt))
    ensures C.FullSet(c, SqliteAdapter(ns), t, given, C.Tree(tree), ttl, setAt) ==
      C.Outcome(Stored(t, C.Clean(c, given), tree, Shown(show, Deadline(c, ttl, setAt)), ns), true, [])
  {
    hide S.Valid, Upsert, WriteOf, C.Encode, Encoded, Shown, ShowsWell, PlainJson;
    EncodesText(c, show, tree, Deadline(c, ttl, setAt));
  }

  lemma {:induction false} EncodesText(c: C.Config, show: real -> string, tree: S.Js, deadline: Option<real>)
    requires PlainJson(c, show) && S.Valid(tree) && ShowsWell(show, deadline)
    ensures C.Encode(c, C.Envelope(C.Tree(tree), deadline)) == C.Returned(C.Text(Encoded(tree, Shown(show, deadline))))
  {
    hide S.Stringify, S.Valid, S.Envelope, S.IsNumberText, J.NumeralValue;
    S.EnvelopeRoundTrip(tree, Shown(show, deadline));
  }

  /** `get` returns what the live text in the table holds unless that is checked and found expired; a text that
      the serializer cannot read is reported and answered with nothing. */
  lemma {:induction false} GetRetrieves(c: C.Config, show: real -> string, ns: Option<string>, t: Table,
      given: string, now: int)
    requires PlainJson(c, show) && C.Clean(c, given) != ""
    ensures var o := C.FullGet(c, SqliteAdapter(ns), t, given, now);
      match Lookup(t, StripPrefix(C.Clean(c, given), ns), NamespaceValue(ns), now)
      case None => o.result == C.UNDEFINED && o.errors == []
      case Some(text) =>
        match S.Parse(text)
        case None => o.result == C.UNDEFINED && o.errors == ["unreadable text"]
        case Some(found) =>
          o.errors == [] &&
          o.result ==
            if c.checkExpired && C.IsDataExpired(EnvelopeOf(found), now) then C.UNDEFINED
            else C.Tree(Retrieved(t, C.Clean(c, given), ns, now))
  {
    hide S.Parse, StripPrefix, Lookup, Sweep, J.NumeralValue, J.IsNumeral;
    var key := C.Clean(c, given);
    var (t', reply) := SqliteAdapter(ns).read(t, key, now);
    assert (t', reply) == ReadText(t, key, ns, now);
    var text := Lookup(t, StripPrefix(key, ns), NamespaceValue(ns), now);
    if text == None {
      assert reply == C.Returned(C.Absent);
    } else {
      assert reply == C.Returned(C.Text(text.value));
      DecodesText(c, show, text.value);
      DeletesWithoutError(c, ns, t', key, now);
      hide C.DeleteExpired, C.DecodeRaw, C.Clean, EnvelopeOf, C.IsDataExpired, SqliteAdapter;
    }
  }

  lemma {:induction false} DecodesText(c: C.Config, show: real -> string, text: string)
    requires PlainJson(c, show)
    ensures C.DecodeRaw(c, C.Text(text)) ==
      match S.Parse(text)
      case None => (None, ["unreadable text"])
      case Some(o) => (Some(EnvelopeOf(o)), [])
  {
    hide S.Parse, EnvelopeOf;
  }

  lemma {:induction false} DeletesWithoutError(c: C.Config, ns: Option<string>, t: Table, key: string, now: int)
    ensures C.DeleteExpired(c, SqliteAdapter(ns), t, [key], now).1 == []
  {
  }

  /** From `set` to `get` through the core: whatever runs in between without touching the row, the value comes back
      in normal form while its lifetime, the one given or else the core's own, is none or not positive or not over,
      and not at all from then on. */
  lemma {:induction false} SetThenGet(c: C.Config, show: real -> string, ns: Option<string>, t: Table, given: string,
      tree: S.Js, ttl: Option<real>, setAt: int, script: seq<Call>, now: int)
    requires PlainJson(c, show) && C.Clean(c, given) != "" && S.Valid(tree)
    requires var lifetime := if ttl.Some? then ttl else c.ttl;
      lifetime.Some? && lifetime.value > 0.0 ==> ShowsWell(show, Some(setAt as real + lifetime.value))
    requires Monotone(script, setAt) && End(script, setAt) <= now
    requires forall i :: 0 <= i < |script| ==>
      !Touches(script[i], Id(StripPrefix(C.Clean(c, given), ns), NamespaceValue(ns)))
    ensures var written := C.FullSet(c, SqliteAdapter(ns), t, given, C.Tree(tree), ttl, setAt);
      var read := C.FullGet(c, SqliteAdapter(ns), Final(written.store, script), given, now);
      var lifetime := if ttl.Some? then ttl else c.ttl;
      && written.result && written.errors == [] == read.errors
      && read.result ==
        if lifetime == None || lifetime.value <= 0.0 || (now as real) < setAt as real + lifetime.value
        then C.Tree(S.Normalize(tree)) else C.UNDEFINED
  {
    hide C.FullSet, C.FullGet, S.Parse, S.Normalize, S.Valid, StripPrefix, J.NumeralValue, J.IsNumeral, S.IsNumberText;
    var key, deadline := C.Clean(c, given), Deadline(c, ttl, setAt);
    var shown := Shown(show, deadline);
    SetStores(c, show, ns, t, given, tree, ttl, setAt);
    NumberTextIsNumeral(show, deadline);
    ReadBack(t, key, tree, shown, ns, script, setAt, now);
    var u := Final(Stored(t, key, tree, shown, ns), script);
    FoundText(t, key, tree, shown, ns, script, setAt, now);
    S.EnvelopeRoundTrip(tree, shown);
    S.EnvelopeFields(tree, shown);
    GetRetrieves(c, show, ns, u, given, now);
  }

  lemma {:induction false} NumberTextIsNumeral(show: real -> string, deadline: Option<real>)
    requires ShowsWell(show, deadline)
    ensures deadline.Some? ==> J.IsNumeral(show(deadline.value))
  {
  }
}
