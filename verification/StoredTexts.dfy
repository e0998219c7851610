/** The texts the serializer stores. */
module StoredTexts {
  import opened Texts
  import opened JsonSerializer
  import Base64
  import J = Json
  import JsonText

  /** Bigints and bytes become tagged texts; a text that begins with a colon gets one more. */
  lemma {:induction false} TagsAre(i: int, b: seq<Base64.Byte>, s: string)
    ensures Prepare(BigInt(i)) == Str(":bigint:" + IntText(i))
    ensures Prepare(Bytes(b)) == Str(":base64:" + Base64.Encode(b))
    ensures Prepare(Str(":" + s)) == Str("::" + s)
    ensures s == "" || s[0] != ':' ==> Prepare(Str(s)) == Str(s)
  {
    assert ":" + (":" + s) == "::" + s;
  }

  /** What a value is printed as, if it is not dropped. */
  function ValueText(value: Js): Option<string> {
    PrepareIsPrepared(value);
    match Serialize(Prepare(value))
    case None => None
    case Some(j) => Some(J.Print(j))
  }

  /** The plain values; undefined is dropped, a number that is not finite is null, minus zero loses its sign. */
  lemma {:induction false} PlainTexts(b: bool, numeral: string)
    ensures ValueText(Undefined) == None && ValueText(Null) == ValueText(NonFinite) == Some("null")
    ensures ValueText(Bool(b)) == Some(if b then "true" else "false")
    ensures ValueText(Num(numeral)) == Some(numeral) && ValueText(NegativeZero) == Some("0")
    ensures ValueText(Arr([])) == Some("[]") && ValueText(Obj([])) == Some("{}")
  {
  }

  /** In an array undefined is null ... */
  lemma {:induction false} ItemTexts(value: Js)
    ensures ValueText(Arr([value])) == Some("[" + (match ValueText(value) case None => "null" case Some(t) => t) + "]")
  {
    hide J.Print;
    PrepareIsPrepared(value);
    PrepareIsPrepared(Arr([value]));
    JsonText.WordsPrint("");
    assert [value][1..] == [] && [Prepare(value)][1..] == [];
    assert PrepareItems([value]) == [Prepare(value)];
    var j := match Serialize(Prepare(value)) case None => J.Null case Some(j) => j;
    assert SerializeItems([Prepare(value)]) == [j];
    JsonText.ItemsPrint(j, []);
  }

  /** ... and in an object it is dropped, like the name `__proto__`. */
  lemma {:induction false} PropTexts(name: string, value: Js)
    ensures value == Undefined || name == "__proto__" ==> ValueText(Obj([Prop(name, value)])) == Some("{}")
    ensures value != Undefined && name != "__proto__" ==>
      ValueText(value).Some? &&
      ValueText(Obj([Prop(name, value)])) == Some("{" + J.Print(J.Str(name)) + ":" + ValueText(value).value + "}")
  {
    hide J.Print;
    PrepareIsPrepared(value);
    PrepareIsPrepared(Obj([Prop(name, value)]));
    DroppedValue(value);
    JsonText.WordsPrint("");
    assert [Prop(name, value)][1..] == [];
    if value == Undefined || name == "__proto__" {
      assert PrepareProps([Prop(name, value)]) == [];
    } else {
      var p, j := Prop(name, Prepare(value)), Serialize(Prepare(value)).value;
      assert PrepareProps([Prop(name, value)]) == [p] && [p][1..] == [];
      assert SerializeProps([p]) == [J.Member(name, j)];
      JsonText.MembersPrint(name, j, []);
    }
  }

  /** The text of an envelope: a star and the value's text if there is no deadline, and an object with the value, if
      that is not dropped, and the deadline otherwise. */
  lemma {:induction false} EnvelopeTexts(value: Js, deadline: string)
    ensures Stringify(Envelope(value, None)) == Some(match ValueText(value) case None => "{}" case Some(t) => "*" + t)
    ensures Stringify(Envelope(value, Some(deadline))) ==
      Some(match ValueText(value)
        case None => "{\"expires\":" + deadline + "}"
        case Some(t) => "{\"value\":" + t + ",\"expires\":" + deadline + "}")
  {
    hide J.Print, Serialize, Prepare;
    PrepareIsPrepared(value);
    EnvelopeJson(value, None);
    EnvelopeJson(value, Some(deadline));
    PrepareIsPrepared(Envelope(value, None));
    PrepareIsPrepared(Envelope(value, Some(deadline)));
    JsonText.WordsPrint("");
    var none: seq<J.Member>, last := [], [J.Member("expires", J.Num(deadline))];
    assert none + none == none && none + last == last;
    if Serialize(Prepare(value)).Some? {
      var first := J.Member("value", Serialize(Prepare(value)).value);
      assert [first] + last == [first, last[0]];
      TwoMembersPrint(Serialize(Prepare(value)).value, deadline);
    } else {
      OneMemberPrints(deadline);
    }
  }

  /** Only undefined is dropped. */
  lemma {:induction false} DroppedValue(value: Js)
    ensures Prepared(Prepare(value)) && (Serialize(Prepare(value)) == None <==> value == Undefined)
  {
    PrepareIsPrepared(value);
  }

  lemma {:induction false} EnvelopeJson(value: Js, expires: Option<string>)
    ensures Prepared(Prepare(value)) && Prepared(Prepare(Envelope(value, expires)))
    ensures Sentinel(Envelope(value, expires)) <==> expires == None && Serialize(Prepare(value)).Some?
    ensures Get(Envelope(value, expires), "value") == value
    ensures Serialize(Prepare(Envelope(value, expires))) ==
      Some(J.Obj((match Serialize(Prepare(value)) case None => [] case Some(j) => [J.Member("value", j)]) +
        (if expires == None then [] else [J.Member("expires", J.Num(expires.value))])))
  {
    var o := Envelope(value, expires);
    PrepareIsPrepared(value);
    PrepareIsPrepared(o);
    DroppedValue(value);
    var p, q := o.props[0], o.props[1];
    assert o.props[1..] == [q] && [q][1..] == [];
    assert Has(o, "value") by { assert o.props[0].name == "value"; }
    assert Lookup([q], "expires") == q.value && Lookup(o.props, "expires") == Lookup([q], "expires");
    EnvelopeProps(value, expires);
  }

  lemma {:induction false} EnvelopeProps(value: Js, expires: Option<string>)
    ensures Prepared(Prepare(value))
    ensures var props := PrepareProps(Envelope(value, expires).props);
      && (forall i :: 0 <= i < |props| ==> Prepared(props[i].value))
      && SerializeProps(props) ==
          (match Serialize(Prepare(value)) case None => [] case Some(j) => [J.Member("value", j)]) +
          (if expires == None then [] else [J.Member("expires", J.Num(expires.value))])
  {
    hide Serialize, Prepare;
    PrepareIsPrepared(value);
    DroppedValue(value);
    var o := Envelope(value, expires);
    var p, q := o.props[0], o.props[1];
    assert o.props[1..] == [q] && [q][1..] == [];
    var second := PrepareProps([q]);
    LastProp(expires);
    var props := PrepareProps(o.props);
    if value == Undefined {
      assert props == second;
    } else {
      assert props == [Prop("value", Prepare(value))] + second;
      assert props[0].value == Prepare(value) && props[1..] == second;
    }
  }

  lemma {:induction false} LastProp(expires: Option<string>)
    ensures var second := PrepareProps([Prop("expires", if expires == None then Undefined else Num(expires.value))]);
      && (forall i :: 0 <= i < |second| ==> Prepared(second[i].value))
      && SerializeProps(second) == if expires == None then [] else [J.Member("expires", J.Num(expires.value))]
  {
    var q := Prop("expires", if expires == None then Undefined else Num(expires.value));
    assert [q][1..] == [];
    if expires.Some? {
      assert PrepareProps([q]) == [q];
    }
  }

  lemma {:induction false} TwoMembersPrint(j: J.Json, deadline: string)
    ensures J.Print(J.Obj([J.Member("value", j), J.Member("expires", J.Num(deadline))])) ==
      "{\"value\":" + J.Print(j) + ",\"expires\":" + deadline + "}"
  {
    hide J.Print;
    var expires := J.Member("expires", J.Num(deadline));
    OneMemberPrints(deadline);
    NamePrints("value");
    JsonText.MembersPrint("value", j, [expires]);
    assert [J.Member("value", j)] + [expires] == [J.Member("value", j), expires];
    assert ("{\"expires\":" + deadline + "}")[1..] == "\"expires\":" + deadline + "}";
    var t := J.Print(j);
    assert "{" + "\"value\"" + ":" + t + "," + ("\"expires\":" + deadline + "}") ==
      "{\"value\":" + t + ",\"expires\":" + deadline + "}";
  }

  lemma {:induction false} OneMemberPrints(deadline: string)
    ensures J.Print(J.Obj([J.Member("expires", J.Num(deadline))])) == "{\"expires\":" + deadline + "}"
  {
    hide J.Print;
    JsonText.WordsPrint(deadline);
    NamePrints("expires");
    JsonText.MembersPrint("expires", J.Num(deadline), []);
  }

  lemma {:induction false} NamePrints(name: string)
    requires forall i :: 0 <= i < |name| ==> 'a' <= name[i] <= 'z'
    ensures J.Print(J.Str(name)) == "\"" + name + "\""
  {
    if name == "" {
      JsonText.CharPrints('a');
    } else {
      NamePrints(name[1..]);
      JsonText.CharPrints(name[0]);
      JsonText.StringPrints([name[0]], name[1..]);
      assert name == [name[0]] + name[1..];
    }
  }
}
