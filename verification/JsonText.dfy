/** What the printed and the accepted texts are: the escapes of section 7 of RFC 8259, character by character, and
    the marks of sections 2 to 5 on an example. */
module JsonText {
  import opened Texts
  import opened Json

  const HEX := "0123456789abcdef"
  const HEX_UPPER := "0123456789ABCDEF"

  // ---------- reading ----------

  /** The eight short escapes. */
  lemma {:induction false} ShortEscapesRead(rest: string)
    ensures ParseChar("\\\"" + rest) == Ok('\"', rest)
    ensures ParseChar("\\\\" + rest) == Ok('\\', rest)
    ensures ParseChar("\\/" + rest) == Ok('/', rest)
    ensures ParseChar("\\b" + rest) == Ok(8 as char, rest)
    ensures ParseChar("\\f" + rest) == Ok(12 as char, rest)
    ensures ParseChar("\\n" + rest) == Ok(10 as char, rest)
    ensures ParseChar("\\r" + rest) == Ok(13 as char, rest)
    ensures ParseChar("\\t" + rest) == Ok(9 as char, rest)
  {
    forall c: char
      ensures ("\\" + [c] + rest)[0] == '\\' && ("\\" + [c] + rest)[1] == c && ("\\" + [c] + rest)[2..] == rest
    {
    }
    assert "\\\"" + rest == "\\" + ['\"'] + rest && "\\\\" + rest == "\\" + ['\\'] + rest;
    assert "\\/" + rest == "\\" + ['/'] + rest && "\\b" + rest == "\\" + ['b'] + rest;
    assert "\\f" + rest == "\\" + ['f'] + rest && "\\n" + rest == "\\" + ['n'] + rest;
    assert "\\r" + rest == "\\" + ['r'] + rest && "\\t" + rest == "\\" + ['t'] + rest;
  }

  /** No other character stands behind a backslash, but `u` with four digits. */
  lemma {:induction false} OtherEscapesFail(c: char, rest: string)
    requires c !in "\"\\/bfnrtu"
    ensures ParseChar("\\" + [c] + rest) == Fail
  {
    var s := "\\" + [c] + rest;
    assert s[0] == '\\' && s[1] == c;
    assert '\"' in "\"\\/bfnrtu" && '\\' in "\"\\/bfnrtu" && '/' in "\"\\/bfnrtu" && 'b' in "\"\\/bfnrtu";
    assert 'f' in "\"\\/bfnrtu" && 'n' in "\"\\/bfnrtu" && 'r' in "\"\\/bfnrtu" && 't' in "\"\\/bfnrtu";
    assert 'u' in "\"\\/bfnrtu";
  }

  lemma {:induction false} DigitRead(i: nat)
    requires i < 16
    ensures HexOf(HEX[i]) == HexOf(HEX_UPPER[i]) == Some(i)
  {
  }

  /** Four hexadecimal digits, of either case, name the character of that number; those of a surrogate none. */
  lemma {:induction false} UnicodeEscapeReads(i: nat, j: nat, k: nat, l: nat, upper: bool, rest: string)
    requires i < 16 && j < 16 && k < 16 && l < 16
    ensures var hex := if upper then HEX_UPPER else HEX;
      var code := i * 0x1000 + j * 0x100 + k * 0x10 + l;
      ParseChar("\\u" + [hex[i], hex[j], hex[k], hex[l]] + rest) ==
        if 0xD800 <= code < 0xE000 then Fail else Ok(code as char, rest)
  {
    hide HexOf;
    var hex := if upper then HEX_UPPER else HEX;
    DigitRead(i);
    DigitRead(j);
    DigitRead(k);
    DigitRead(l);
    var digits := [hex[i], hex[j], hex[k], hex[l]];
    var s := "\\u" + digits + rest;
    assert s[0] == '\\' && s[1] == 'u' && s[2..6] == digits && s[6..] == rest;
  }

  /** Anything else from the blank up, except quote and backslash, stands for itself; controls are not allowed. */
  lemma {:induction false} PlainCharsRead(c: char, rest: string)
    requires c != '\"' && c != '\\'
    ensures ParseChar([c] + rest) == if c as int < 32 then Fail else Ok(c, rest)
  {
    assert ([c] + rest)[1..] == rest;
  }

  /** A string's text is read character by character up to the closing quote. */
  lemma {:induction false} StringReads(one: string, c: char, more: string, value: string, rest: string)
    requires one != "" && one[0] != '\"' && ParseChar(one + more) == Ok(c, more)
    requires ParseChars(more) == Ok(value, rest)
    ensures ParseChars(one + more) == Ok([c] + value, rest)
    ensures ParseChars("\"" + rest) == Ok("", rest)
  {
    assert (one + more)[0] == one[0];
    assert ("\"" + rest)[1..] == rest;
  }

  /** One character in quotes, read as a document. */
  lemma {:induction false} CharDocument(one: string, c: char)
    requires one != "" && one[0] != '\"' && ParseChar(one + "\"") == Ok(c, "\"")
    ensures Parse("\"" + one + "\"") == Some(Str([c]))
  {
    var s := "\"" + one + "\"";
    assert s[0] == '\"' && s[1..] == one + "\"";
    assert ParseChars("\"") == Ok("", "") by { assert "\""[1..] == ""; }
    StringReads(one, c, "\"", "", "");
    assert [c] + "" == [c];
    assert ParseValue(s) == Ok(Str([c]), "");
  }

  lemma {:induction false} ControlsRead()
    ensures Parse("\"\\n\"") == Some(Str([10 as char]))
    ensures Parse("\"\\t\"") == Some(Str([9 as char]))
  {
    hide Parse, ParseChar;
    ShortEscapesRead("\"");
    CharDocument("\\n", 10 as char);
    CharDocument("\\t", 9 as char);
    assert "\"" + "\\n" + "\"" == "\"\\n\"" && "\"" + "\\t" + "\"" == "\"\\t\"";
  }

  // ---------- printing ----------

  /** The text of one character in quotes: the seven short escapes in use, four digits for the other controls, and
      itself from the blank up. */
  lemma {:induction false} CharPrints(c: char)
    ensures Print(Str("")) == "\"\""
    ensures c == '\"' ==> Print(Str([c])) == "\"\\\"\""
    ensures c == '\\' ==> Print(Str([c])) == "\"\\\\\""
    ensures c as int == 8 ==> Print(Str([c])) == "\"\\b\""
    ensures c as int == 9 ==> Print(Str([c])) == "\"\\t\""
    ensures c as int == 10 ==> Print(Str([c])) == "\"\\n\""
    ensures c as int == 12 ==> Print(Str([c])) == "\"\\f\""
    ensures c as int == 13 ==> Print(Str([c])) == "\"\\r\""
    ensures c as int < 32 && c as int !in {8, 9, 10, 12, 13} ==>
      Print(Str([c])) == "\"\\u00" + [HEX[c as int / 16], HEX[c as int % 16]] + "\""
    ensures c as int >= 32 && c != '\"' && c != '\\' ==> Print(Str([c])) == "\"" + [c] + "\""
  {
    hide Escape, Print;
    QuotedChar(c);
  }

  lemma {:induction false} QuotedChar(c: char)
    ensures Print(Str("")) == "\"\"" && Print(Str([c])) == "\"" + EscapeChar(c) + "\""
  {
    hide EscapeChar;
    assert [c][1..] == "" && Escape("") == "";
    assert Escape([c]) == EscapeChar(c) + "" == EscapeChar(c);
  }

  /** A string's text is those of its characters in order. */
  lemma {:induction false} StringPrints(s: string, t: string)
    ensures var u, v := Print(Str(s)), Print(Str(t));
      |u| >= 2 && |v| >= 2 && Print(Str(s + t)) == u[..|u| - 1] + v[1..]
  {
    hide Escape;
    EscapesJoin(s, t);
    QuotedJoin(Escape(s), Escape(t));
  }

  lemma {:induction false} QuotedJoin(s: string, t: string)
    ensures var u, v := "\"" + s + "\"", "\"" + t + "\"";
      |u| >= 2 && |v| >= 2 && "\"" + (s + t) + "\"" == u[..|u| - 1] + v[1..]
  {
    var u, v := "\"" + s + "\"", "\"" + t + "\"";
    assert u[..|u| - 1] == "\"" + s && v[1..] == t + "\"";
  }

  lemma {:induction false} EscapesJoin(s: string, t: string)
    ensures Escape(s + t) == Escape(s) + Escape(t)
  {
    hide EscapeChar;
    if s == "" {
      assert s + t == t;
    } else {
      EscapesJoin(s[1..], t);
      assert (s + t)[0] == s[0] && (s + t)[1..] == s[1..] + t;
    }
  }

  lemma {:induction false} WordsPrint(numeral: string)
    ensures Print(Null) == "null" && Print(Bool(true)) == "true" && Print(Bool(false)) == "false"
    ensures Print(Num(numeral)) == numeral
    ensures Print(Arr([])) == "[]" && Print(Obj([])) == "{}"
  {
  }

  /** Brackets around the items, commas between them. */
  lemma {:induction false} ItemsPrint(item: Json, more: seq<Json>)
    ensures Print(Arr([item])) == "[" + Print(item) + "]"
    ensures more != [] ==> Print(Arr([item] + more)) == "[" + Print(item) + "," + Print(Arr(more))[1..]
  {
    if more != [] {
      var all := [item] + more;
      assert all[1..] == more && all[0] == item;
      assert Print(Arr(more))[1..] == PrintItems(more) + "]";
      assert PrintItems(all) == Print(item) + "," + PrintItems(more);
    }
  }

  /** Braces around the members, each a name in quotes, a colon and a value. */
  lemma {:induction false} MembersPrint(name: string, value: Json, more: seq<Member>)
    ensures Print(Obj([Member(name, value)])) == "{" + Print(Str(name)) + ":" + Print(value) + "}"
    ensures more != [] ==>
      Print(Obj([Member(name, value)] + more)) ==
        "{" + Print(Str(name)) + ":" + Print(value) + "," + Print(Obj(more))[1..]
  {
    hide Print, PrintMembers;
    var first := Member(name, value);
    OneMember(name, value);
    ObjectPrints([first]);
    Joined("{", Print(Str(name)), ":", Print(value), "}");
    if more != [] {
      ObjectPrints(more);
      ObjectPrints([first] + more);
      MoreMembers(first, more);
      assert Print(Obj(more))[1..] == PrintMembers(more) + "}";
      Joined("{", Print(Str(name)), ":", Print(value), "," + (PrintMembers(more) + "}"));
      assert PrintMember(first) + "," + PrintMembers(more) + "}" ==
        PrintMember(first) + ("," + (PrintMembers(more) + "}"));
    }
  }

  lemma {:induction false} Joined(a: string, b: string, c: string, d: string, e: string)
    ensures a + (b + c + d + e) == a + b + c + d + e
  {
  }

  lemma {:induction false} ObjectPrints(members: seq<Member>)
    requires members != []
    ensures Print(Obj(members)) == "{" + PrintMembers(members) + "}"
  {
  }

  lemma {:induction false} OneMember(name: string, value: Json)
    ensures PrintMembers([Member(name, value)]) == PrintMember(Member(name, value))
    ensures PrintMember(Member(name, value)) == Print(Str(name)) + ":" + Print(value)
  {
  }

  lemma {:induction false} MoreMembers(first: Member, more: seq<Member>)
    requires more != []
    ensures PrintMembers([first] + more) == PrintMember(first) + "," + PrintMembers(more)
  {
    assert ([first] + more)[1..] == more;
  }

  /** Of members with one name the last gives the value. */
  lemma {:induction false} LaterMemberWins(members: seq<Member>, name: string, value: Json)
    ensures var merged := Merge(members + [Member(name, value)]);
      && Distinct(merged)
      && Member(name, value) in merged
      && forall m: Member :: m.name != name ==> (m in merged <==> m in Merge(members))
  {
    assert (members + [Member(name, value)])[..|members|] == members;
    MergesDistinct(members);
    DefineSets(Merge(members), name, value);
    DefineKeepsDistinct(Merge(members), name, value);
  }

  lemma {:induction false} MergesDistinct(members: seq<Member>)
    ensures Distinct(Merge(members))
  {
    if members == [] {
    } else {
      var last := members[|members| - 1];
      MergesDistinct(members[..|members| - 1]);
      DefineKeepsDistinct(Merge(members[..|members| - 1]), last.name, last.value);
    }
  }

  lemma {:induction false} DefineSets(members: seq<Member>, name: string, value: Json)
    ensures var r := Define(members, name, value);
      && Member(name, value) in r
      && forall m: Member :: m.name != name ==> (m in r <==> m in members)
  {
    if members == [] {
    } else {
      DefineSets(members[1..], name, value);
      assert members == [members[0]] + members[1..];
    }
  }

  lemma {:induction false} DefineKeepsDistinct(members: seq<Member>, name: string, value: Json)
    requires Distinct(members)
    ensures Distinct(Define(members, name, value))
  {
    hide Distinct;
    FirstApart(members);
    if members == [] {
      FirstAdded(Member(name, value), []);
      assert [Member(name, value)] + [] == [Member(name, value)];
    } else {
      var first, rest := members[0], members[1..];
      if first.name == name {
        FirstAdded(Member(name, value), rest);
      } else {
        DefineKeepsDistinct(rest, name, value);
        DefineSets(rest, name, value);
        FirstAdded(first, Define(rest, name, value));
      }
    }
  }

  lemma {:induction false} FirstApart(members: seq<Member>)
    requires Distinct(members)
    ensures members != [] ==> Distinct(members[1..]) && forall m :: m in members[1..] ==> m.name != members[0].name
    ensures members == [] ==> Distinct([])
  {
    if members != [] {
      forall m | m in members[1..]
        ensures m.name != members[0].name
      {
        var i :| 0 <= i < |members[1..]| && members[1..][i] == m;
        assert members[i + 1] == m;
      }
    }
  }

  lemma {:induction false} FirstAdded(first: Member, rest: seq<Member>)
    requires (rest == [] || Distinct(rest)) && forall m :: m in rest ==> m.name != first.name
    ensures Distinct([first] + rest)
  {
    var all := [first] + rest;
    assert forall i :: 1 <= i < |all| ==> all[i] == rest[i - 1] && rest[i - 1] in rest;
  }

  predicate AllBlank(s: string) { forall i :: 0 <= i < |s| ==> s[i] in " \t\n\r" }

  /** Blanks around a printed value do not matter; these four are blanks. */
  lemma {:induction false} BlanksAround(before: string, j: Json, after: string)
    requires WellFormed(j) && AllBlank(before) && AllBlank(after)
    ensures Parse(before + Print(j) + after) == Some(j)
  {
    hide Print, ParseValue, WellFormed;
    PrintStarts(j);
    SkipsBlanks(before, Print(j) + after);
    assert before + Print(j) + after == before + (Print(j) + after);
    SkipsBlanks(after, "");
    assert after + "" == after;
    ValueRoundTrip(j, after);
  }

  lemma {:induction false} SkipsBlanks(blanks: string, rest: string)
    requires AllBlank(blanks) && (rest == "" || rest[0] !in " \t\n\r")
    ensures SkipBlanks(blanks + rest) == rest
  {
    if blanks == "" {
      assert "" + rest == rest;
    } else {
      SkipsBlanks(blanks[1..], rest);
      assert (blanks + rest)[1..] == blanks[1..] + rest;
    }
  }
}
