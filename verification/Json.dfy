/** JSON texts (RFC 8259): the tree `JSON.stringify` prints and `JSON.parse` reads. A number is kept as
    the numeral that denotes it; a string is a sequence of Unicode scalar values. */
module Json {
  import opened Texts

  datatype Json =
    | Null
    | Bool(b: bool)
    | Num(numeral: string)
    | Str(s: string)
    | Arr(items: seq<Json>)
    | Obj(members: seq<Member>)

  datatype Member = Member(name: string, value: Json)

  // ---------- numerals ----------

  predicate IsNumberChar(c: char) { IsDigit(c) || c in "+-.eE" }

  /** The length of the run of characters satisfying `p` at the head of `s`. */
  function Run(s: string, p: char -> bool): (n: nat)
    ensures n <= |s| && (n < |s| ==> !p(s[n]))
    ensures forall i :: 0 <= i < n ==> p(s[i])
  {
    if s == "" || !p(s[0]) then 0
    else
      var n := Run(s[1..], p);
      assert forall i :: 1 <= i < n + 1 ==> s[i] == s[1..][i - 1];
      1 + n
  }

  predicate IsExponent(s: string) {
    s == "" ||
    ((s[0] == 'e' || s[0] == 'E') &&
     var d := if |s| > 1 && (s[1] == '+' || s[1] == '-') then s[2..] else s[1..];
     d != "" && AllDigits(d))
  }

  /** The number grammar of section 6: an optional minus, an integer part without leading zeros, an
      optional fraction and an optional exponent. */
  predicate IsNumeral(s: string) {
    var u := if s != "" && s[0] == '-' then s[1..] else s;
    var n := Run(u, IsDigit);
    n > 0 && (u[0] == '0' ==> n == 1) &&
    IsFractionAndExponent(u[n..])
  }

  predicate IsFractionAndExponent(t: string) {
    if t != "" && t[0] == '.' then
      var f := Run(t[1..], IsDigit);
      f > 0 && IsExponent(t[1..][f..])
    else IsExponent(t)
  }

  function Pow10(e: nat): (r: real)
    ensures r >= 1.0
  {
    if e == 0 then 1.0 else 10.0 * Pow10(e - 1)
  }

  function ExponentValue(s: string): real
    requires IsExponent(s)
  {
    if s == "" then 1.0
    else if s[1] == '-' then 1.0 / Pow10(DigitsValue(s[2..]))
    else if s[1] == '+' then Pow10(DigitsValue(s[2..]))
    else Pow10(DigitsValue(s[1..]))
  }

  /** The number a numeral denotes. */
  function NumeralValue(s: string): real
    requires IsNumeral(s)
  {
    var negative := s[0] == '-';
    var u := if negative then s[1..] else s;
    var n := Run(u, IsDigit);
    var t := u[n..];
    var whole := DigitsValue(u[..n]) as real;
    var f := if t != "" && t[0] == '.' then Run(t[1..], IsDigit) else 0;
    var e := if t != "" && t[0] == '.' then t[1..][f..] else t;
    var fraction := if f == 0 then 0.0 else DigitsValue(t[1..][..f]) as real / Pow10(f);
    var magnitude := (whole + fraction) * ExponentValue(e);
    if negative then -magnitude else magnitude
  }

  /** The decimal text of a natural number is a numeral and denotes that number. */
  lemma {:induction false} DecimalIsNumeral(n: nat)
    ensures IsNumeral(Decimal(n)) && NumeralValue(Decimal(n)) == n as real
  {
    var s := Decimal(n);
    RunStopsAt(s, "", IsDigit);
    assert s + "" == s && s[|s|..] == "" && s[..|s|] == s;
    DecimalRoundTrip(n);
  }

  lemma {:induction false} RunStopsAt(p: string, rest: string, f: char -> bool)
    requires forall i :: 0 <= i < |p| ==> f(p[i])
    requires rest == "" || !f(rest[0])
    ensures Run(p + rest, f) == |p|
  {
    if p == "" {
      assert p + rest == rest;
    } else {
      RunStopsAt(p[1..], rest, f);
      assert (p + rest)[1..] == p[1..] + rest;
    }
  }

  lemma {:induction false} NumeralChars(s: string)
    requires IsNumeral(s)
    ensures s != "" && (s[0] == '-' || IsDigit(s[0]))
    ensures forall i :: 0 <= i < |s| ==> IsNumberChar(s[i])
  {
    if s[0] == '-' {
      UnsignedChars(s[1..]);
      assert s == [s[0]] + s[1..];
    } else {
      UnsignedChars(s);
    }
  }

  lemma {:induction false} UnsignedChars(u: string)
    requires Run(u, IsDigit) > 0 && IsFractionAndExponent(u[Run(u, IsDigit)..])
    ensures u != "" && IsDigit(u[0]) && forall i :: 0 <= i < |u| ==> IsNumberChar(u[i])
  {
    hide IsFractionAndExponent;
    var n := Run(u, IsDigit);
    FractionChars(u[n..]);
    assert u == u[..n] + u[n..];
  }

  lemma {:induction false} FractionChars(t: string)
    requires IsFractionAndExponent(t)
    ensures forall i :: 0 <= i < |t| ==> IsNumberChar(t[i])
  {
    if t != "" && t[0] == '.' {
      var u := t[1..];
      var f := Run(u, IsDigit);
      ExponentChars(u[f..]);
      forall i | 0 <= i < |t|
        ensures IsNumberChar(t[i])
      {
        if i > f + 1 { assert t[i] == u[f..][i - 1 - f]; } else if i > 0 { assert t[i] == u[i - 1]; }
      }
    } else {
      ExponentChars(t);
    }
  }

  lemma {:induction false} ExponentChars(s: string)
    requires IsExponent(s)
    ensures forall i :: 0 <= i < |s| ==> IsNumberChar(s[i])
  {
    if s != "" {
      if |s| > 1 && (s[1] == '+' || s[1] == '-') {
        assert s == [s[0], s[1]] + s[2..];
      } else {
        assert s == [s[0]] + s[1..];
      }
    }
  }

  // ---------- printing ----------

  const BACKSPACE: char := 8 as char
  const FORM_FEED: char := 12 as char

  function HexChar(n: nat): char
    requires n < 16
  {
    if n < 10 then (n + '0' as int) as char else (n - 10 + 'a' as int) as char
  }

  /** One character inside a JSON string, escaped as `JSON.stringify` does (section 7). */
  function EscapeChar(c: char): (s: string)
    ensures s != ""
  {
    if c == '\"' then "\\\"" else if c == '\\' then "\\\\"
    else if c == BACKSPACE then "\\b" else if c == FORM_FEED then "\\f"
    else if c == '\n' then "\\n" else if c == '\r' then "\\r" else if c == '\t' then "\\t"
    else if c as int < 32 then "\\u00" + [HexChar(c as int / 16), HexChar(c as int % 16)]
    else [c]
  }

  function Escape(s: string): string {
    if s == "" then "" else EscapeChar(s[0]) + Escape(s[1..])
  }

  function PrintString(s: string): string {
    "\"" + Escape(s) + "\""
  }

  function Print(j: Json): string
    decreases j, 1
  {
    match j
    case Null => "null"
    case Bool(b) => if b then "true" else "false"
    case Num(n) => n
    case Str(s) => PrintString(s)
    case Arr(items) => if items == [] then "[]" else "[" + PrintItems(items) + "]"
    case Obj(members) => if members == [] then "{}" else "{" + PrintMembers(members) + "}"
  }

  function PrintItems(items: seq<Json>): string
    requires items != []
    decreases items, 0
  {
    if |items| == 1 then Print(items[0]) else Print(items[0]) + "," + PrintItems(items[1..])
  }

  function PrintMembers(members: seq<Member>): string
    requires members != []
    decreases members, 0
  {
    if |members| == 1 then PrintMember(members[0]) else PrintMember(members[0]) + "," + PrintMembers(members[1..])
  }

  function PrintMember(m: Member): string
    decreases m, 0
  {
    PrintString(m.name) + ":" + Print(m.value)
  }

  // ---------- parsing ----------

  datatype Parsed<+T> = Fail | Ok(value: T, rest: string)

  predicate IsBlank(c: char) { c == ' ' || c == '\t' || c == '\n' || c == '\r' }

  function SkipBlanks(s: string): (r: string)
    ensures |r| <= |s|
  {
    if s != "" && IsBlank(s[0]) then SkipBlanks(s[1..]) else s
  }

  function HexOf(c: char): Option<nat> {
    if IsDigit(c) then Some(DigitOf(c))
    else if 'a' <= c <= 'f' then Some(c as int - 'a' as int + 10)
    else if 'A' <= c <= 'F' then Some(c as int - 'A' as int + 10)
    else None
  }

  /** The character four hexadecimal digits name; surrogate code units are outside the model. */
  function HexEscape(s: string): Option<char>
    requires |s| == 4
  {
    if forall i :: 0 <= i < 4 ==> HexOf(s[i]).Some? then
      var n := HexOf(s[0]).value * 4096 + HexOf(s[1]).value * 256 + HexOf(s[2]).value * 16 + HexOf(s[3]).value;
      if n < 0xD800 || 0xE000 <= n < 0x10000 then Some(n as char) else None
    else None
  }

  /** One character of a string's content: the character and what follows it. */
  function ParseChar(s: string): (r: Parsed<char>)
    requires s != ""
    ensures r.Ok? ==> |r.rest| < |s|
  {
    if s[0] as int < 32 || s[0] == '\"' then Fail
    else if s[0] != '\\' then Ok(s[0], s[1..])
    else if |s| < 2 then Fail
    else
      match s[1]
      case '\"' => Ok('\"', s[2..])
      case '\\' => Ok('\\', s[2..])
      case '/' => Ok('/', s[2..])
      case 'b' => Ok(BACKSPACE, s[2..])
      case 'f' => Ok(FORM_FEED, s[2..])
      case 'n' => Ok('\n', s[2..])
      case 'r' => Ok('\r', s[2..])
      case 't' => Ok('\t', s[2..])
      case 'u' =>
        if |s| < 6 then Fail
        else (match HexEscape(s[2..6]) case None => Fail case Some(c) => Ok(c, s[6..]))
      case _ => Fail
  }

  /** The rest of a string whose opening quote has been read. */
  function ParseChars(s: string): (r: Parsed<string>)
    ensures r.Ok? ==> |r.rest| < |s|
    decreases |s|
  {
    if s == "" then Fail
    else if s[0] == '\"' then Ok("", s[1..])
    else
      match ParseChar(s)
      case Fail => Fail
      case Ok(c, t) =>
        match ParseChars(t)
        case Fail => Fail
        case Ok(u, rest) => Ok([c] + u, rest)
  }

  function ParseNumber(s: string): (r: Parsed<Json>)
    ensures r.Ok? ==> |r.rest| < |s|
  {
    var n := Run(s, IsNumberChar);
    if IsNumeral(s[..n]) then Ok(Num(s[..n]), s[n..]) else Fail
  }

  /** The value at the head of a text with no leading blank. */
  function ParseValue(s: string): (r: Parsed<Json>)
    ensures r.Ok? ==> |r.rest| < |s|
    decreases |s|, 0
  {
    if s == "" then Fail
    else if "null" <= s then Ok(Null, s[4..])
    else if "true" <= s then Ok(Bool(true), s[4..])
    else if "false" <= s then Ok(Bool(false), s[5..])
    else if s[0] == '\"' then
      (match ParseChars(s[1..]) case Fail => Fail case Ok(t, rest) => Ok(Str(t), rest))
    else if s[0] == '[' then
      var t := SkipBlanks(s[1..]);
      if t != "" && t[0] == ']' then Ok(Arr([]), t[1..])
      else (match ParseItems(t) case Fail => Fail case Ok(items, rest) => Ok(Arr(items), rest))
    else if s[0] == '{' then
      var t := SkipBlanks(s[1..]);
      if t != "" && t[0] == '}' then Ok(Obj([]), t[1..])
      else (match ParseMembers(t) case Fail => Fail case Ok(members, rest) => Ok(Obj(Merge(members)), rest))
    else ParseNumber(s)
  }

  /** The values up to and including the closing bracket. */
  function ParseItems(s: string): (r: Parsed<seq<Json>>)
    ensures r.Ok? ==> |r.rest| < |s|
    decreases |s|, 1
  {
    match ParseValue(s)
    case Fail => Fail
    case Ok(v, t) =>
      var u := SkipBlanks(t);
      if u == "" then Fail
      else if u[0] == ']' then Ok([v], u[1..])
      else if u[0] != ',' then Fail
      else
        match ParseItems(SkipBlanks(u[1..]))
        case Fail => Fail
        case Ok(vs, rest) => Ok([v] + vs, rest)
  }

  /** A name, a colon and a value. */
  function ParseMember(s: string): (r: Parsed<Member>)
    ensures r.Ok? ==> |r.rest| < |s|
    decreases |s|, 1
  {
    if s == "" || s[0] != '\"' then Fail
    else
      match ParseChars(s[1..])
      case Fail => Fail
      case Ok(name, t) =>
        var c := SkipBlanks(t);
        if c == "" || c[0] != ':' then Fail
        else
          match ParseValue(SkipBlanks(c[1..]))
          case Fail => Fail
          case Ok(v, rest) => Ok(Member(name, v), rest)
  }

  /** The members up to and including the closing brace. */
  function ParseMembers(s: string): (r: Parsed<seq<Member>>)
    ensures r.Ok? ==> |r.rest| < |s|
    decreases |s|, 2
  {
    match ParseMember(s)
    case Fail => Fail
    case Ok(m, t) =>
      var u := SkipBlanks(t);
      if u == "" then Fail
      else if u[0] == '}' then Ok([m], u[1..])
      else if u[0] != ',' then Fail
      else
        match ParseMembers(SkipBlanks(u[1..]))
        case Fail => Fail
        case Ok(ms, rest) => Ok([m] + ms, rest)
  }

  /** Defining a property on an object: a name keeps its place and takes the later value. */
  function Define(members: seq<Member>, name: string, value: Json): seq<Member> {
    if members == [] then [Member(name, value)]
    else if members[0].name == name then [Member(name, value)] + members[1..]
    else [members[0]] + Define(members[1..], name, value)
  }

  /** The object a list of members denotes when a name may occur more than once. */
  function Merge(members: seq<Member>): seq<Member> {
    if members == [] then []
    else Define(Merge(members[..|members| - 1]), members[|members| - 1].name, members[|members| - 1].value)
  }

  /** `JSON.parse`: `None` is its SyntaxError. */
  function Parse(text: string): Option<Json> {
    match ParseValue(SkipBlanks(text))
    case Fail => None
    case Ok(j, rest) => if SkipBlanks(rest) == "" then Some(j) else None
  }

  // ---------- round trip ----------

  predicate Distinct(members: seq<Member>) {
    forall i, j :: 0 <= i < j < |members| ==> members[i].name != members[j].name
  }

  /** The trees that denote JSON values: every numeral is one, and no object repeats a name. */
  predicate WellFormed(j: Json) {
    match j
    case Num(n) => IsNumeral(n)
    case Arr(items) => forall i :: 0 <= i < |items| ==> WellFormed(items[i])
    case Obj(members) => Distinct(members) && forall i :: 0 <= i < |members| ==> WellFormed(members[i].value)
    case _ => true
  }

  lemma {:induction false} DefineFresh(members: seq<Member>, name: string, value: Json)
    requires forall i :: 0 <= i < |members| ==> members[i].name != name
    ensures Define(members, name, value) == members + [Member(name, value)]
  {
    if members == [] {
    } else {
      DefineFresh(members[1..], name, value);
      assert members == [members[0]] + members[1..];
    }
  }

  lemma {:induction false} MergeDistinct(members: seq<Member>)
    requires Distinct(members)
    ensures Merge(members) == members
  {
    if members == [] {
    } else {
      var front, last := members[..|members| - 1], members[|members| - 1];
      MergeDistinct(front);
      DefineFresh(front, last.name, last.value);
      assert members == front + [last];
    }
  }

  lemma {:induction false} HexRoundTrip(c: char)
    requires c as int < 32
    ensures HexEscape("00" + [HexChar(c as int / 16), HexChar(c as int % 16)]) == Some(c)
  {
    var s := "00" + [HexChar(c as int / 16), HexChar(c as int % 16)];
    assert HexOf(s[0]) == Some(0) && HexOf(s[1]) == Some(0);
    assert HexOf(s[2]) == Some(c as int / 16) && HexOf(s[3]) == Some(c as int % 16);
  }

  lemma {:induction false} CharRoundTrip(c: char, rest: string)
    ensures ParseChar(EscapeChar(c) + rest) == Ok(c, rest)
    ensures EscapeChar(c)[0] != '\"'
  {
    var s := EscapeChar(c) + rest;
    if c as int < 32 && c != BACKSPACE && c != FORM_FEED && c != '\n' && c != '\r' && c != '\t' {
      HexRoundTrip(c);
      assert s[2..6] == "00" + [HexChar(c as int / 16), HexChar(c as int % 16)];
      assert s[6..] == rest;
    } else if |EscapeChar(c)| == 2 {
      assert s[2..] == rest;
    } else {
      assert s[1..] == rest;
    }
  }

  lemma {:induction false} StringRoundTrip(s: string, rest: string)
    ensures ParseChars(Escape(s) + "\"" + rest) == Ok(s, rest)
  {
    hide EscapeChar, ParseChar;
    if s == "" {
      assert Escape(s) + "\"" + rest == "\"" + rest;
      assert ("\"" + rest)[1..] == rest;
    } else {
      hide ParseChars;
      var more := Escape(s[1..]) + "\"" + rest;
      assert Escape(s) + "\"" + rest == EscapeChar(s[0]) + more;
      CharRoundTrip(s[0], more);
      StringRoundTrip(s[1..], rest);
      NextChar(EscapeChar(s[0]) + more, s[0], more, s[1..], rest);
      assert s == [s[0]] + s[1..];
    }
  }

  lemma {:induction false} NextChar(s: string, c: char, more: string, u: string, rest: string)
    requires s != "" && s[0] != '\"' && ParseChar(s) == Ok(c, more) && ParseChars(more) == Ok(u, rest)
    ensures ParseChars(s) == Ok([c] + u, rest)
  {
    hide ParseChar;
  }

  /** How a printed value can begin. */
  predicate StartsValue(c: char) { c in "ntf\"[{-" || IsDigit(c) }

  /** No JSON text begins with `*`: a printed value begins with one of eight kinds of characters. */
  lemma {:induction false} PrintStarts(j: Json)
    requires WellFormed(j)
    ensures Print(j) != "" && StartsValue(Print(j)[0])
    ensures Print(j)[0] != '*' && !IsBlank(Print(j)[0]) && Print(j)[0] != ']' && Print(j)[0] != '}'
  {
    if j.Num? { NumeralChars(j.numeral); }
  }

  /** ... and no text that begins with `*` is accepted by the parser, whoever wrote it. */
  lemma {:induction false} StarIsNotJson(text: string)
    requires text != "" && text[0] == '*'
    ensures Parse(text) == None
  {
    assert Run(text, IsNumberChar) == 0;
    assert !IsNumeral(text[..0]);
  }

  predicate EndsNumber(rest: string) { rest == "" || !IsNumberChar(rest[0]) }

  lemma {:induction false} ValueRoundTrip(j: Json, rest: string)
    requires WellFormed(j) && EndsNumber(rest)
    ensures ParseValue(Print(j) + rest) == Ok(j, rest)
    decreases j, 1
  {
    hide ParseValue, PrintItems, PrintMembers, IsNumeral, PrintString;
    match j
    case Null => WordTexts(rest);
    case Bool(b) => WordTexts(rest);
    case Num(n) => NumberText(n, rest);
    case Str(t) => StringText(t, rest);
    case Arr(items) =>
      if items != [] { ItemsRoundTrip(items, rest); }
      ArrayText(items, rest);
    case Obj(members) =>
      if members != [] { MembersRoundTrip(members, rest); }
      ObjectText(members, rest);
  }

  lemma {:induction false} WordTexts(rest: string)
    ensures ParseValue("null" + rest) == Ok(Null, rest)
    ensures ParseValue("true" + rest) == Ok(Bool(true), rest)
    ensures ParseValue("false" + rest) == Ok(Bool(false), rest)
  {
    var n, t, f := "null" + rest, "true" + rest, "false" + rest;
    assert n[0] == 'n' && t[0] == 't' && f[0] == 'f';
    assert n[..4] == "null" && t[..4] == "true" && f[..5] == "false";
    assert n[4..] == rest && t[4..] == rest && f[5..] == rest;
  }

  lemma {:induction false} StringText(t: string, rest: string)
    ensures ParseValue(PrintString(t) + rest) == Ok(Str(t), rest)
  {
    hide ParseChars, Escape, ParseItems, ParseMembers, ParseNumber;
    var s := PrintString(t) + rest;
    StringRoundTrip(t, rest);
    assert s[0] == '\"' && s[1..] == Escape(t) + "\"" + rest;
  }

  lemma {:induction false} NumberText(n: string, rest: string)
    requires IsNumeral(n) && EndsNumber(rest)
    ensures ParseValue(n + rest) == Ok(Num(n), rest)
  {
    hide IsNumeral;
    NumeralChars(n);
    RunStopsAt(n, rest, IsNumberChar);
    var s := n + rest;
    assert s[..|n|] == n && s[|n|..] == rest;
    assert ParseNumber(s) == Ok(Num(n), rest);
    assert s[0] == n[0];
  }

  lemma {:induction false} PrintItemsStarts(items: seq<Json>)
    requires items != [] && Print(items[0]) != ""
    ensures PrintItems(items) != "" && PrintItems(items)[0] == Print(items[0])[0]
  {
    hide Print;
  }

  lemma {:induction false} ArrayText(items: seq<Json>, rest: string)
    requires forall i :: 0 <= i < |items| ==> WellFormed(items[i])
    requires items != [] ==> ParseItems(PrintItems(items) + "]" + rest) == Ok(items, rest)
    ensures ParseValue(Print(Arr(items)) + rest) == Ok(Arr(items), rest)
  {
    hide ParseItems, ParseNumber, ParseMembers, PrintItems, WellFormed, IsNumeral;
    var s := Print(Arr(items)) + rest;
    assert s[0] == '[';
    if items == [] {
      assert s[1..] == "]" + rest;
    } else {
      assert s[1..] == PrintItems(items) + "]" + rest;
      PrintStarts(items[0]);
      PrintItemsStarts(items);
      assert s[1] == Print(items[0])[0];
      assert SkipBlanks(s[1..]) == s[1..];
    }
  }

  lemma {:induction false} ObjectText(members: seq<Member>, rest: string)
    requires Distinct(members)
    requires members != [] ==> ParseMembers(PrintMembers(members) + "}" + rest) == Ok(members, rest)
    ensures ParseValue(Print(Obj(members)) + rest) == Ok(Obj(members), rest)
  {
    hide ParseMembers, ParseNumber, ParseItems, Merge;
    var s := Print(Obj(members)) + rest;
    assert s[0] == '{';
    if members == [] {
      assert s[1..] == "}" + rest;
    } else {
      MergeDistinct(members);
      assert s[1..] == PrintMembers(members) + "}" + rest;
      MemberStarts(members[0]);
      assert s[1] == PrintMember(members[0])[0];
      assert SkipBlanks(s[1..]) == s[1..];
    }
  }

  lemma {:induction false} ItemsRoundTrip(items: seq<Json>, rest: string)
    requires items != [] && forall i :: 0 <= i < |items| ==> WellFormed(items[i])
    ensures ParseItems(PrintItems(items) + "]" + rest) == Ok(items, rest)
    decreases items, 0
  {
    hide ParseValue, ParseItems, SkipBlanks, Print, WellFormed, StartsValue;
    if |items| == 1 {
      ValueRoundTrip(items[0], "]" + rest);
      assert PrintItems(items) + "]" + rest == Print(items[0]) + ("]" + rest);
      LastItem(items[0], rest);
      assert items == [items[0]];
    } else {
      var more := PrintItems(items[1..]) + "]" + rest;
      ValueRoundTrip(items[0], "," + more);
      ItemsRoundTrip(items[1..], rest);
      assert PrintItems(items) + "]" + rest == Print(items[0]) + ("," + more);
      PrintStarts(items[1]);
      assert more[0] == Print(items[1])[0];
      NextItem(items[0], items[1..], more, rest);
      assert items == [items[0]] + items[1..];
    }
  }

  lemma {:induction false} LastItem(item: Json, rest: string)
    requires ParseValue(Print(item) + ("]" + rest)) == Ok(item, "]" + rest)
    ensures ParseItems(Print(item) + ("]" + rest)) == Ok([item], rest)
  {
    hide ParseValue, Print;
    assert ("]" + rest)[1..] == rest;
  }

  lemma {:induction false} NextItem(item: Json, items: seq<Json>, more: string, rest: string)
    requires ParseValue(Print(item) + ("," + more)) == Ok(item, "," + more)
    requires more != "" && !IsBlank(more[0])
    requires ParseItems(more) == Ok(items, rest)
    ensures ParseItems(Print(item) + ("," + more)) == Ok([item] + items, rest)
  {
    hide ParseValue, Print;
    assert ("," + more)[1..] == more;
  }

  lemma {:induction false} MemberRoundTrip(m: Member, rest: string)
    requires WellFormed(m.value)
    requires ParseValue(Print(m.value) + rest) == Ok(m.value, rest)
    ensures ParseMember(PrintMember(m) + rest) == Ok(m, rest)
  {
    hide ParseValue, ParseChars, Print, Escape, EscapeChar;
    var s := PrintMember(m) + rest;
    var value := Print(m.value) + rest;
    assert s[1..] == Escape(m.name) + "\"" + (":" + value);
    StringRoundTrip(m.name, ":" + value);
    assert (":" + value)[1..] == value;
    PrintStarts(m.value);
  }

  lemma {:induction false} MembersRoundTrip(members: seq<Member>, rest: string)
    requires members != [] && forall i :: 0 <= i < |members| ==> WellFormed(members[i].value)
    ensures ParseMembers(PrintMembers(members) + "}" + rest) == Ok(members, rest)
    decreases members, 0
  {
    hide ParseMember, ParseMembers, PrintMember, WellFormed, Print;
    var m := members[0];
    if |members| == 1 {
      ValueRoundTrip(m.value, "}" + rest);
      MemberRoundTrip(m, "}" + rest);
      assert PrintMembers(members) + "}" + rest == PrintMember(m) + ("}" + rest);
      LastMember(m, rest);
      assert members == [m];
    } else {
      var more := PrintMembers(members[1..]) + "}" + rest;
      ValueRoundTrip(m.value, "," + more);
      MemberRoundTrip(m, "," + more);
      MembersRoundTrip(members[1..], rest);
      MembersText(members, rest);
      NextMember(m, members[1..], more, rest);
      assert members == [m] + members[1..];
    }
  }

  lemma {:induction false} MembersText(members: seq<Member>, rest: string)
    requires |members| > 1
    ensures var more := PrintMembers(members[1..]) + "}" + rest;
      PrintMembers(members) + "}" + rest == PrintMember(members[0]) + ("," + more) && more[0] == '\"'
  {
    hide PrintMember;
    var more := PrintMembers(members[1..]) + "}" + rest;
    assert PrintMembers(members) + "}" + rest == PrintMember(members[0]) + ("," + more);
    MemberStarts(members[1]);
    assert more[0] == PrintMember(members[1])[0];
  }

  lemma {:induction false} MemberStarts(m: Member)
    ensures PrintMember(m) != "" && PrintMember(m)[0] == '\"'
  {
  }

  lemma {:induction false} LastMember(m: Member, rest: string)
    requires ParseMember(PrintMember(m) + ("}" + rest)) == Ok(m, "}" + rest)
    ensures ParseMembers(PrintMember(m) + ("}" + rest)) == Ok([m], rest)
  {
    hide ParseMember, PrintMember;
    assert ("}" + rest)[1..] == rest;
  }

  lemma {:induction false} NextMember(m: Member, members: seq<Member>, more: string, rest: string)
    requires ParseMember(PrintMember(m) + ("," + more)) == Ok(m, "," + more)
    requires more != "" && !IsBlank(more[0])
    requires ParseMembers(more) == Ok(members, rest)
    ensures ParseMembers(PrintMember(m) + ("," + more)) == Ok([m] + members, rest)
  {
    hide ParseMember, PrintMember;
    assert ("," + more)[1..] == more;
  }

  /** Printing and parsing undo each other on every JSON value. */
  lemma {:induction false} RoundTrip(j: Json)
    requires WellFormed(j)
    ensures Parse(Print(j)) == Some(j)
  {
    PrintStarts(j);
    ValueRoundTrip(j, "");
    assert Print(j) + "" == Print(j);
  }
}
