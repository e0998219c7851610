/** The default serializer: JSON with tagged bigints and bytes, escaped strings and a sentinel form. */
module JsonSerializer {
  import opened Texts
  import Base64
  import J = Json

  /** A JavaScript value tree. `Undefined` also stands for functions and symbols, which JSON drops in the
      same way; a number is kept as the text `toString` gives for it. */
  datatype Js =
    | Undefined
    | Null
    | Bool(b: bool)
    | Num(numeral: string)
    | NegativeZero
    | NonFinite
    | Str(s: string)
    | BigInt(i: int)
    | Bytes(bytes: seq<Base64.Byte>)
    | Arr(items: seq<Js>)
    | Obj(props: seq<Prop>)

  datatype Prop = Prop(name: string, value: Js)

  const PROTO := "__proto__"
  const BIGINT_TAG := ":bigint:"
  const BASE64_TAG := ":base64:"

  /** A numeral that some number prints as: minus zero prints as `0`. */
  predicate IsNumberText(n: string) {
    J.IsNumeral(n) && (n[0] == '-' ==> J.NumeralValue(n) != 0.0)
  }

  /** The trees a program can build: numbers print as numerals, property names are distinct. */
  predicate Valid(v: Js) {
    match v
    case Num(n) => IsNumberText(n)
    case Arr(items) => forall i :: 0 <= i < |items| ==> Valid(items[i])
    case Obj(props) => Distinct(props) && forall i :: 0 <= i < |props| ==> Valid(props[i].value)
    case _ => true
  }

  predicate Distinct(props: seq<Prop>) {
    forall i, j :: 0 <= i < j < |props| ==> props[i].name != props[j].name
  }

  // ---------- writing ----------

  function EscapeText(s: string): string {
    if ":" <= s then ":" + s else s
  }

  /** `prepare`: bytes and bigints become tagged strings, strings that begin with a colon are escaped,
      undefined properties are skipped; assigning `__proto__` defines no property. */
  function Prepare(v: Js): Js
    decreases v, 1
  {
    match v
    case Bytes(b) => Str(BASE64_TAG + Base64.Encode(b))
    case BigInt(i) => Str(BIGINT_TAG + IntText(i))
    case Str(s) => Str(EscapeText(s))
    case Arr(items) => Arr(PrepareItems(items))
    case Obj(props) => Obj(PrepareProps(props))
    case _ => v
  }

  function PrepareItems(items: seq<Js>): seq<Js>
    decreases items, 0
  {
    if items == [] then [] else [Prepare(items[0])] + PrepareItems(items[1..])
  }

  function PrepareProps(props: seq<Prop>): seq<Prop>
    decreases props, 0
  {
    if props == [] then []
    else if props[0].value == Undefined || props[0].name == PROTO then PrepareProps(props[1..])
    else [Prop(props[0].name, Prepare(props[0].value))] + PrepareProps(props[1..])
  }

  /** A prepared tree holds no bigint and no bytes. */
  predicate Prepared(v: Js) {
    match v
    case BigInt(_) => false
    case Bytes(_) => false
    case Arr(items) => forall i :: 0 <= i < |items| ==> Prepared(items[i])
    case Obj(props) => forall i :: 0 <= i < |props| ==> Prepared(props[i].value)
    case _ => true
  }

  /** What `JSON.stringify` makes of a prepared tree; `None` is the result `undefined`. */
  function Serialize(v: Js): Option<J.Json>
    requires Prepared(v)
    decreases v, 1
  {
    match v
    case Undefined => None
    case Null => Some(J.Null)
    case Bool(b) => Some(J.Bool(b))
    case Num(n) => Some(J.Num(n))
    case NegativeZero => Some(J.Num("0"))
    case NonFinite => Some(J.Null)
    case Str(s) => Some(J.Str(s))
    case Arr(items) => Some(J.Arr(SerializeItems(items)))
    case Obj(props) => Some(J.Obj(SerializeProps(props)))
  }

  function SerializeItems(items: seq<Js>): seq<J.Json>
    requires forall i :: 0 <= i < |items| ==> Prepared(items[i])
    decreases items, 0
  {
    if items == [] then []
    else
      [match Serialize(items[0]) case None => J.Null case Some(j) => j] + SerializeItems(items[1..])
  }

  function SerializeProps(props: seq<Prop>): seq<J.Member>
    requires forall i :: 0 <= i < |props| ==> Prepared(props[i].value)
    decreases props, 0
  {
    if props == [] then []
    else
      match Serialize(props[0].value)
      case None => SerializeProps(props[1..])
      case Some(j) => [J.Member(props[0].name, j)] + SerializeProps(props[1..])
  }

  /** A property of an object, `Undefined` when it is absent. */
  function Get(v: Js, name: string): Js
    requires v.Obj?
  {
    Lookup(v.props, name)
  }

  function Lookup(props: seq<Prop>, name: string): Js {
    if props == [] then Undefined
    else if props[0].name == name then props[0].value
    else Lookup(props[1..], name)
  }

  predicate Has(v: Js, name: string)
    requires v.Obj?
  {
    exists i :: 0 <= i < |v.props| && v.props[i].name == name
  }

  /** The test of the sentinel form: an object with a `value`, no `expires`, and a value JSON can print. */
  predicate Sentinel(o: Js) {
    o.Obj? && Has(o, "value") && Get(o, "expires") == Undefined &&
    (PrepareIsPrepared(Get(o, "value")); Serialize(Prepare(Get(o, "value"))).Some?)
  }

  /** `stringify`; `None` is the result `undefined`. */
  function Stringify(o: Js): Option<string> {
    if Sentinel(o) then
      PrepareIsPrepared(Get(o, "value"));
      Some("*" + J.Print(Serialize(Prepare(Get(o, "value"))).value))
    else
      PrepareIsPrepared(o);
      match Serialize(Prepare(o))
      case None => None
      case Some(j) => Some(J.Print(j))
  }

  lemma {:induction false} PrepareIsPrepared(v: Js)
    ensures Prepared(Prepare(v))
    decreases v, 1
  {
    match v
    case Arr(items) => PreparedItems(items);
    case Obj(props) => PreparedProps(props);
    case _ =>
  }

  lemma {:induction false} PreparedItems(items: seq<Js>)
    ensures |PrepareItems(items)| == |items|
    ensures forall i :: 0 <= i < |items| ==> Prepared(PrepareItems(items)[i])
    decreases items, 0
  {
    if items == [] {
    } else {
      PrepareIsPrepared(items[0]);
      PreparedItems(items[1..]);
    }
  }

  lemma {:induction false} PreparedProps(props: seq<Prop>)
    ensures forall i :: 0 <= i < |PrepareProps(props)| ==> Prepared(PrepareProps(props)[i].value)
    decreases props, 0
  {
    if props == [] {
    } else {
      PrepareIsPrepared(props[0].value);
      PreparedProps(props[1..]);
    }
  }

  // ---------- reading ----------

  function ReviveText(s: string): Option<Js> {
    if BIGINT_TAG <= s then
      (match ParseInt(s[8..]) case None => None case Some(i) => Some(BigInt(i)))
    else if BASE64_TAG <= s then
      (match Base64.Decode(s[8..]) case None => None case Some(b) => Some(Bytes(b)))
    else if ":" <= s then Some(Str(s[1..]))
    else Some(Str(s))
  }

  /** `JSON.parse` with the reviver; `None` is the error a malformed tag raises. */
  function Revive(j: J.Json): Option<Js>
    decreases j, 1
  {
    match j
    case Null => Some(Null)
    case Bool(b) => Some(Bool(b))
    case Num(n) => Some(Num(n))
    case Str(s) => ReviveText(s)
    case Arr(items) => (match ReviveItems(items) case None => None case Some(vs) => Some(Arr(vs)))
    case Obj(members) => (match ReviveMembers(members) case None => None case Some(ps) => Some(Obj(ps)))
  }

  function ReviveItems(items: seq<J.Json>): Option<seq<Js>>
    decreases items, 0
  {
    if items == [] then Some([])
    else
      match (Revive(items[0]), ReviveItems(items[1..]))
      case (Some(v), Some(vs)) => Some([v] + vs)
      case _ => None
  }

  function ReviveMembers(members: seq<J.Member>): Option<seq<Prop>>
    decreases members, 0
  {
    if members == [] then Some([])
    else
      match (Revive(members[0].value), ReviveMembers(members[1..]))
      case (Some(v), Some(ps)) => Some([Prop(members[0].name, v)] + ps)
      case _ => None
  }

  function ParseTree(text: string): Option<Js> {
    match J.Parse(text)
    case None => None
    case Some(j) => Revive(j)
  }

  /** `parse`; `None` stands for a thrown error. */
  function Parse(data: string): Option<Js> {
    if data != "" && data[0] == '*' then
      match ParseTree(data[1..])
      case None => None
      case Some(v) => Some(Obj([Prop("value", v), Prop("expires", Undefined)]))
    else ParseTree(data)
  }

  // ---------- what survives the round trip ----------

  /** The tree that comes back: minus zero is zero, non-finite numbers and undefined items are null,
      undefined and `__proto__` properties are gone, everything else is unchanged. */
  function Normalize(v: Js): Js
    decreases v, 1
  {
    match v
    case NegativeZero => Num("0")
    case NonFinite => Null
    case Arr(items) => Arr(NormalizeItems(items))
    case Obj(props) => Obj(NormalizeProps(props))
    case _ => v
  }

  function NormalizeItems(items: seq<Js>): seq<Js>
    decreases items, 0
  {
    if items == [] then []
    else [if items[0] == Undefined then Null else Normalize(items[0])] + NormalizeItems(items[1..])
  }

  function NormalizeProps(props: seq<Prop>): seq<Prop>
    decreases props, 0
  {
    if props == [] then []
    else if props[0].value == Undefined || props[0].name == PROTO then NormalizeProps(props[1..])
    else [Prop(props[0].name, Normalize(props[0].value))] + NormalizeProps(props[1..])
  }

  /** A tree JSON can carry: no undefined, no minus zero, no non-finite number and no `__proto__` in it. */
  predicate Faithful(v: Js) {
    match v
    case Undefined => false
    case NegativeZero => false
    case NonFinite => false
    case Arr(items) => forall i :: 0 <= i < |items| ==> Faithful(items[i])
    case Obj(props) => forall i :: 0 <= i < |props| ==> props[i].name != PROTO && Faithful(props[i].value)
    case _ => true
  }

  /** Exactly the faithful trees come back unchanged. */
  lemma {:induction false} NormalizeKeepsExactlyFaithful(v: Js)
    ensures v != Undefined ==> (Normalize(v) == v <==> Faithful(v))
    decreases v, 1
  {
    match v
    case Arr(items) => NormalizeItemsKeeps(items);
    case Obj(props) => NormalizePropsKeeps(props);
    case _ =>
  }

  lemma {:induction false} NormalizeItemsKeeps(items: seq<Js>)
    ensures |NormalizeItems(items)| == |items|
    ensures NormalizeItems(items) == items <==> forall i :: 0 <= i < |items| ==> Faithful(items[i])
    decreases items, 0
  {
    if items == [] {
    } else {
      NormalizeKeepsExactlyFaithful(items[0]);
      NormalizeItemsKeeps(items[1..]);
      assert items == [items[0]] + items[1..];
      assert NormalizeItems(items)[1..] == NormalizeItems(items[1..]);
    }
  }

  lemma {:induction false} NormalizePropsKeeps(props: seq<Prop>)
    ensures |NormalizeProps(props)| <= |props|
    ensures NormalizeProps(props) == props <==>
      forall i :: 0 <= i < |props| ==> props[i].name != PROTO && Faithful(props[i].value)
    decreases props, 0
  {
    if props == [] {
    } else {
      NormalizeKeepsExactlyFaithful(props[0].value);
      NormalizePropsKeeps(props[1..]);
      assert props == [props[0]] + props[1..];
      if !(props[0].value == Undefined || props[0].name == PROTO) {
        assert NormalizeProps(props)[1..] == NormalizeProps(props[1..]);
      }
    }
  }

  lemma {:induction false} TextRoundTrip(s: string)
    ensures ReviveText(EscapeText(s)) == Some(Str(s))
  {
    var t := EscapeText(s);
    if ":" <= s {
      assert t[0] == ':' && t[1] == s[0] == ':';
      assert t[1..] == s;
      assert !(BIGINT_TAG <= t) && !(BASE64_TAG <= t);
    }
  }

  lemma {:induction false} ReviveTagged(t: string)
    ensures ReviveText(BIGINT_TAG + t) == match ParseInt(t) case None => None case Some(i) => Some(BigInt(i))
    ensures ReviveText(BASE64_TAG + t) == match Base64.Decode(t) case None => None case Some(b) => Some(Bytes(b))
  {
    hide ParseInt, Base64.Decode;
    var i, b := BIGINT_TAG + t, BASE64_TAG + t;
    assert i[8..] == t && b[8..] == t;
    assert i[2] == 'i' && b[2] == 'a';
  }

  lemma {:induction false} TagRoundTrip(i: int, b: seq<Base64.Byte>)
    ensures ReviveText(BIGINT_TAG + IntText(i)) == Some(BigInt(i))
    ensures ReviveText(BASE64_TAG + Base64.Encode(b)) == Some(Bytes(b))
  {
    hide IntText, ParseInt, Base64.Encode, Base64.Decode;
    IntRoundTrip(i);
    Base64.RoundTrip(b);
    ReviveTagged(IntText(i));
    ReviveTagged(Base64.Encode(b));
  }

  /** Preparing, serializing and reviving a value gives its normal form. */
  lemma {:induction false} ReviveSerialize(v: Js)
    requires Valid(v)
    ensures Prepared(Prepare(v))
    ensures Serialize(Prepare(v)) == None <==> v == Undefined
    ensures v != Undefined ==>
      var j := Serialize(Prepare(v)).value; J.WellFormed(j) && Revive(j) == Some(Normalize(v))
    decreases v, 1
  {
    PrepareIsPrepared(v);
    match v
    case Str(s) => TextRoundTrip(s);
    case BigInt(i) => TagRoundTrip(i, []);
    case Bytes(b) => TagRoundTrip(0, b);
    case Arr(items) => ReviveSerializeItems(items);
    case Obj(props) => ReviveSerializeProps(props);
    case NegativeZero =>
      assert J.Run("0", IsDigit) == 1;
    case _ =>
  }

  lemma {:induction false} ReviveSerializeItems(items: seq<Js>)
    requires forall i :: 0 <= i < |items| ==> Valid(items[i])
    ensures forall i :: 0 <= i < |PrepareItems(items)| ==> Prepared(PrepareItems(items)[i])
    ensures var js := SerializeItems(PrepareItems(items));
      && (forall i :: 0 <= i < |js| ==> J.WellFormed(js[i]))
      && ReviveItems(js) == Some(NormalizeItems(items))
    decreases items, 0
  {
    PreparedItems(items);
    if items == [] {
    } else {
      ReviveSerialize(items[0]);
      ReviveSerializeItems(items[1..]);
      var ps := PrepareItems(items);
      assert ps[1..] == PrepareItems(items[1..]);
      var js := SerializeItems(ps);
      assert js[1..] == SerializeItems(ps[1..]);
    }
  }

  lemma {:induction false} ReviveSerializeProps(props: seq<Prop>)
    requires Distinct(props) && forall i :: 0 <= i < |props| ==> Valid(props[i].value)
    ensures forall i :: 0 <= i < |PrepareProps(props)| ==> Prepared(PrepareProps(props)[i].value)
    ensures var ms := SerializeProps(PrepareProps(props));
      && (forall m :: m in ms ==> J.WellFormed(m.value) && exists i :: 0 <= i < |props| && props[i].name == m.name)
      && J.Distinct(ms)
      && ReviveMembers(ms) == Some(NormalizeProps(props))
    decreases props, 0
  {
    hide Normalize, Prepare, Serialize, Revive, Valid, Prepared, J.WellFormed;
    PreparedProps(props);
    if props == [] {
    } else {
      ReviveSerialize(props[0].value);
      ReviveSerializeProps(props[1..]);
      var rest := SerializeProps(PrepareProps(props[1..]));
      if props[0].value != Undefined && props[0].name != PROTO {
        var ps := PrepareProps(props);
        assert ps[1..] == PrepareProps(props[1..]);
        var ms := SerializeProps(ps);
        assert ms[1..] == rest;
        assert ms == [ms[0]] + rest;
      }
    }
  }

  // ---------- the envelope ----------

  /** What Storely hands to the serializer: the value and the optional deadline. */
  function Envelope(value: Js, expires: Option<string>): Js {
    Obj([Prop("value", value), Prop("expires", if expires == None then Undefined else Num(expires.value))])
  }

  predicate ValidEnvelope(value: Js, expires: Option<string>) {
    Valid(value) && (expires.Some? ==> IsNumberText(expires.value))
  }

  /** Reading a printed tree gives its normal form. */
  lemma {:induction false} TreeRoundTrip(v: Js)
    requires Valid(v) && v != Undefined
    ensures Prepared(Prepare(v)) && Serialize(Prepare(v)).Some?
    ensures ParseTree(J.Print(Serialize(Prepare(v)).value)) == Some(Normalize(v))
    ensures J.Print(Serialize(Prepare(v)).value) != "" && J.Print(Serialize(Prepare(v)).value)[0] != '*'
  {
    ReviveSerialize(v);
    var j := Serialize(Prepare(v)).value;
    J.RoundTrip(j);
    J.PrintStarts(j);
  }

  lemma {:induction false} LookupValid(props: seq<Prop>, name: string)
    requires forall i :: 0 <= i < |props| ==> Valid(props[i].value)
    ensures Valid(Lookup(props, name))
  {
    if props == [] {
    } else {
      LookupValid(props[1..], name);
    }
  }

  /** What comes back from a round trip of any object: the normal form, or for the sentinel form an
      envelope around the normal form of the value. */
  function Returned(o: Js): Js {
    if Sentinel(o) then Envelope(Normalize(Get(o, "value")), None) else Normalize(o)
  }

  /** The round trip on every value, envelope or not. */
  lemma {:induction false} RoundTrip(o: Js)
    requires Valid(o) && o != Undefined
    ensures Stringify(o).Some? && Parse(Stringify(o).value) == Some(Returned(o))
  {
    if Sentinel(o) {
      var v := Get(o, "value");
      LookupValid(o.props, "value");
      ReviveSerialize(v);
      TreeRoundTrip(v);
      var t := Stringify(o).value;
      assert t[1..] == J.Print(Serialize(Prepare(v)).value);
    } else {
      TreeRoundTrip(o);
    }
  }

  /** Exactly these values come back equal: bare envelopes around a faithful value, and faithful values
      that do not look like an envelope without deadline. */
  lemma {:induction false} UnchangedExactly(o: Js)
    requires Valid(o) && o != Undefined
    ensures Stringify(o).Some?
    ensures Parse(Stringify(o).value) == Some(o) <==>
      if Sentinel(o) then o == Envelope(Get(o, "value"), None) && Faithful(Get(o, "value")) else Faithful(o)
  {
    RoundTrip(o);
    NormalizeKeepsExactlyFaithful(o);
    if Sentinel(o) {
      var v := Get(o, "value");
      LookupValid(o.props, "value");
      ReviveSerialize(v);
      NormalizeKeepsExactlyFaithful(v);
      assert Get(Envelope(Normalize(v), None), "value") == Normalize(v);
    }
  }

  /** The envelope comes back: the value in normal form, the deadline as it was. */
  lemma {:induction false} EnvelopeRoundTrip(value: Js, expires: Option<string>)
    requires ValidEnvelope(value, expires)
    ensures var text := Stringify(Envelope(value, expires));
      text.Some? &&
      var back := Parse(text.value);
      back.Some? && back.value.Obj? && Get(back.value, "value") == Normalize(value) &&
      Get(back.value, "expires") == Get(Envelope(value, expires), "expires")
  {
    var o := Envelope(value, expires);
    EnvelopeFields(value, expires);
    RoundTrip(o);
    ReviveSerialize(value);
    EnvelopeNormal(value, expires);
  }

  lemma {:induction false} EnvelopeFields(value: Js, expires: Option<string>)
    ensures var o := Envelope(value, expires);
      && Get(o, "value") == value && Has(o, "value")
      && Get(o, "expires") == (if expires == None then Undefined else Num(expires.value))
      && (ValidEnvelope(value, expires) ==> Valid(o))
  {
    var o := Envelope(value, expires);
    assert "value"[0] != "expires"[0];
    LookupInTwo(o.props[0], o.props[1]);
    assert o.props == [o.props[0], o.props[1]];
    assert o.props[0].name == "value";
  }

  lemma {:induction false} NormalizeTwo(p: Prop, q: Prop)
    requires p.name != PROTO && q.name != PROTO
    ensures NormalizeProps([p, q]) ==
      (if p.value == Undefined then [] else [Prop(p.name, Normalize(p.value))]) +
      (if q.value == Undefined then [] else [Prop(q.name, Normalize(q.value))])
  {
    assert [p, q][1..] == [q] && [q][1..] == [];
    var ps := if p.value == Undefined then [] else [Prop(p.name, Normalize(p.value))];
    var qs := if q.value == Undefined then [] else [Prop(q.name, Normalize(q.value))];
    assert NormalizeProps([q]) == qs;
    assert NormalizeProps([p, q]) == ps + qs;
  }

  lemma {:induction false} LookupInTwo(p: Prop, q: Prop)
    requires p.name != q.name
    ensures Lookup([p, q], p.name) == p.value && Lookup([p, q], q.name) == q.value
    ensures Lookup([p], p.name) == p.value && Lookup([p], q.name) == Undefined
    ensures Lookup([q], q.name) == q.value && Lookup([q], p.name) == Undefined
  {
    assert [p, q][1..] == [q] && [q][1..] == [] && [p][1..] == [];
  }

  lemma {:induction false} EnvelopeNormal(value: Js, expires: Option<string>)
    ensures var n := Normalize(Envelope(value, expires));
      && Get(n, "value") == Normalize(value)
      && Get(n, "expires") == Get(Envelope(value, expires), "expires")
  {
    var o := Envelope(value, expires);
    EnvelopeFields(value, expires);
    assert "value"[0] != "expires"[0] && |PROTO| != |"value"| && |PROTO| != |"expires"|;
    NormalizeTwo(o.props[0], o.props[1]);
    assert o.props == [o.props[0], o.props[1]];
    var p, q := Prop("value", Normalize(value)), o.props[1];
    LookupInTwo(p, q);
    var n := Normalize(o);
    if value == Undefined {
      assert n.props == if q.value == Undefined then [] else [q];
    } else {
      assert n.props == if q.value == Undefined then [p] else [p, q];
    }
  }

  /** An envelope whose value JSON can carry is read back unchanged; no other defined value is. */
  lemma {:induction false} ValueUnchangedExactly(value: Js, expires: Option<string>)
    requires ValidEnvelope(value, expires)
    ensures var text := Stringify(Envelope(value, expires));
      text.Some? && Parse(text.value).Some? && Parse(text.value).value.Obj? &&
      (Get(Parse(text.value).value, "value") == value <==> value == Undefined || Faithful(value))
  {
    EnvelopeRoundTrip(value, expires);
    NormalizeKeepsExactlyFaithful(value);
  }

  /** The two forms never collide: the sentinel is the first character of one and of no JSON text. */
  lemma {:induction false} FormsDoNotCollide(o: Js)
    requires Valid(o) && o != Undefined
    ensures Stringify(o).Some? && Stringify(o).value != ""
    ensures Stringify(o).value[0] == '*' <==> Sentinel(o)
  {
    if !Sentinel(o) { TreeRoundTrip(o); }
  }

  /** Two envelopes with the same text carry the same normal value and the same deadline. */
  lemma {:induction false} TextsDetermineEnvelopes(v: Js, e: Option<string>, w: Js, f: Option<string>)
    requires ValidEnvelope(v, e) && ValidEnvelope(w, f)
    requires Stringify(Envelope(v, e)) == Stringify(Envelope(w, f))
    ensures Normalize(v) == Normalize(w) && e == f
  {
    EnvelopeRoundTrip(v, e);
    EnvelopeRoundTrip(w, f);
    EnvelopeFields(v, e);
    EnvelopeFields(w, f);
  }

  // ---------- the object-building loop ----------

  lemma {:induction false} PreparePropsSnoc(props: seq<Prop>, p: Prop)
    ensures PrepareProps(props + [p]) == PrepareProps(props) +
      (if p.value == Undefined || p.name == PROTO then [] else [Prop(p.name, Prepare(p.value))])
  {
    hide Prepare;
    if props == [] {
      assert [p][1..] == [];
    } else {
      PreparePropsSnoc(props[1..], p);
      assert (props + [p])[1..] == props[1..] + [p];
    }
  }

  lemma {:induction false} PrepareItemsSnoc(items: seq<Js>, v: Js)
    ensures PrepareItems(items + [v]) == PrepareItems(items) + [Prepare(v)]
  {
    hide Prepare;
    if items == [] {
      assert [v][1..] == [];
    } else {
      PrepareItemsSnoc(items[1..], v);
      assert (items + [v])[1..] == items[1..] + [v];
    }
  }

  /** The traversal as it runs: arrays mapped item by item, objects rebuilt property by property. */
  method PrepareTree(v: Js, hasBuffer: bool) returns (p: Js)
    ensures p == Prepare(v)
    decreases v
  {
    match v {
      case Bytes(b) =>
        var text := Base64.BytesToBase64(b, hasBuffer);
        p := Str(BASE64_TAG + text);
      case BigInt(i) => p := Str(BIGINT_TAG + IntText(i));
      case Str(s) => p := Str(EscapeText(s));
      case Arr(items) =>
        var mapped := [];
        for k := 0 to |items|
          invariant mapped == PrepareItems(items[..k])
        {
          var q := PrepareTree(items[k], hasBuffer);
          PrepareItemsSnoc(items[..k], items[k]);
          assert items[..k + 1] == items[..k] + [items[k]];
          mapped := mapped + [q];
        }
        assert items[..|items|] == items;
        p := Arr(mapped);
      case Obj(props) =>
        var result := [];
        for k := 0 to |props|
          invariant result == PrepareProps(props[..k])
        {
          PreparePropsSnoc(props[..k], props[k]);
          assert props[..k + 1] == props[..k] + [props[k]];
          if props[k].value != Undefined && props[k].name != PROTO {
            var q := PrepareTree(props[k].value, hasBuffer);
            result := result + [Prop(props[k].name, q)];
          }
        }
        assert props[..|props|] == props;
        p := Obj(result);
      case _ => p := v;
    }
  }
}
