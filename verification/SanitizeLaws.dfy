/** Which option strips which pattern. */
module SanitizeLaws {
  import opened Texts
  import opened Sanitize

  const SQL := [";", "--", "/*"]
  const ESCAPE := ["\0", "\r", "\n"]
  const PATH := ["../", "..\\"]

  predicate Letters(s: string) { forall i :: 0 <= i < |s| ==> 'a' <= s[i] <= 'z' }

  predicate NoLetters(s: string) { s != "" && forall i :: 0 <= i < |s| ==> !('a' <= s[i] <= 'z') }

  predicate Within(literal: string, s: string) {
    exists i :: 0 <= i < |s| && literal <= s[i..]
  }

  lemma {:induction false} RemoveNowhere(s: string, literal: string)
    requires literal != "" && !Within(literal, s)
    ensures RemoveAll(s, literal) == s
  {
    if s == "" {
    } else {
      assert s[0..] == s;
      forall i | 0 <= i < |s[1..]|
        ensures !(literal <= s[1..][i..])
      {
        assert s[1..][i..] == s[i + 1..];
      }
      RemoveNowhere(s[1..], literal);
      assert s == [s[0]] + s[1..];
    }
  }

  /** A match in a text with letters around lies in what they are around. */
  lemma {:induction false} MatchesBetween(x: string, w: string, y: string, literal: string, i: nat)
    requires Letters(x) && Letters(y) && NoLetters(literal)
    requires i < |x + w + y| && literal <= (x + w + y)[i..]
    ensures |x| <= i < |x + w| && literal <= w[i - |x|..]
  {
    var s, n := x + w + y, |literal|;
    assert forall k :: 0 <= k < |x| ==> s[k] == x[k];
    assert forall k :: |x + w| <= k < |s| ==> s[k] == y[k - |x + w|];
    assert s[i..][..n] == literal && s[i] == literal[0] && s[i + n - 1] == literal[n - 1];
    assert w == s[|x|..|x + w|];
    assert w[i - |x|..][..n] == s[i..i + n] == literal;
  }

  lemma {:induction false} RemoveBetween(x: string, w: string, y: string, literal: string)
    requires Letters(x) && Letters(y) && NoLetters(literal) && (w == literal || !Within(literal, w))
    ensures RemoveAll(x + w + y, literal) == if w == literal then x + y else x + w + y
  {
    if w == literal {
      RemoveHere(x, w, y);
    } else {
      forall i | 0 <= i < |x + w + y|
        ensures !(literal <= (x + w + y)[i..])
      {
        if literal <= (x + w + y)[i..] { MatchesBetween(x, w, y, literal, i); }
      }
      RemoveNowhere(x + w + y, literal);
    }
  }

  lemma {:induction false} RemoveHere(x: string, w: string, y: string)
    requires Letters(x) && Letters(y) && NoLetters(w)
    ensures RemoveAll(x + w + y, w) == x + y
  {
    hide RemoveAll;
    if x == "" {
      assert x + w + y == w + y && x + y == y;
      RemoveFront(w, y);
      RemoveAbsent(y, w);
    } else {
      var rest := x[1..] + w + y;
      RemoveHere(x[1..], w, y);
      assert x + w + y == [x[0]] + rest;
      assert ([x[0]] + rest)[0] != w[0];
      RemoveFrom(x[0], rest, w);
      assert [x[0]] + (x[1..] + y) == x + y;
    }
  }

  lemma {:induction false} RemoveFront(w: string, y: string)
    requires w != ""
    ensures RemoveAll(w + y, w) == RemoveAll(y, w)
  {
    assert (w + y)[|w|..] == y && w <= w + y;
  }

  lemma {:induction false} NoDollars(s: string)
    requires '$' !in s
    ensures RemoveBraceDollars(s) == s
  {
    if s == "" {
    } else {
      SkipsOnly(s[1..]);
      NoDollars(s[1..]);
      assert s == [s[0]] + s[1..];
    }
  }

  lemma {:induction false} SkipsOnly(s: string)
    ensures forall c :: c in SkipSpaces(s) ==> c in s
  {
    if s != "" && IsSpace(s[0]) { SkipsOnly(s[1..]); }
  }

  /** None of the patterns is part of another. */
  lemma {:induction false} PatternsApart(w: string, literal: string)
    requires w in SQL + ESCAPE + PATH && literal in SQL + ESCAPE + PATH
    ensures NoLetters(w) && '$' !in w && w[0] != '$' && (w == literal || !Within(literal, w))
  {
    forall i | 0 <= i < |w|
      ensures w != literal ==> !(literal <= w[i..])
    {
      if |w| > 1 && i > 0 { assert w[i..][0] == w[i]; }
    }
  }

  /** Stripping one literal from a text that is letters around a pattern, or letters alone. */
  lemma {:induction false} OnePass(x: string, w: string, y: string, literal: string)
    requires Letters(x) && Letters(y) && w in SQL + ESCAPE + PATH && literal in SQL + ESCAPE + PATH
    ensures literal != "" && RemoveAll(x + w + y, literal) == if w == literal then x + y else x + w + y
    ensures RemoveAll(x + y, literal) == x + y
  {
    PatternsApart(w, literal);
    PatternsApart(literal, w);
    RemoveBetween(x, w, y, literal);
    RemoveAbsent(x + y, literal);
  }

  /** A pattern of the SQL, escape or path category between letters is stripped exactly if its category is on; an
      option left out is on. */
  lemma {:induction false} OptionsSwitch(sql: Option<bool>, mongo: Option<bool>, escape: Option<bool>,
      path: Option<bool>, x: string, w: string, y: string)
    requires Letters(x) && Letters(y) && w in SQL + ESCAPE + PATH
    ensures ApplyPatterns(Resolve(Chosen(sql, mongo, escape, path)), x + w + y) ==
      if (w in SQL && sql != Some(false)) || (w in ESCAPE && escape != Some(false)) ||
        (w in PATH && path != Some(false))
      then x + y else x + w + y
    ensures ApplyPatterns(Resolve(On), x + w + y) == x + y
    ensures ApplyPatterns(Resolve(Off), x + w + y) == x + w + y
  {
    forall p: Patterns
      ensures ApplyPatterns(p, x + w + y) ==
        if (w in SQL && p.sql) || (w in ESCAPE && p.escape) || (w in PATH && p.path) then x + y else x + w + y
    {
      PatternsStrip(p, x, w, y);
    }
    hide ApplyPatterns;
  }

  lemma {:induction false} PatternsStrip(p: Patterns, x: string, w: string, y: string)
    requires Letters(x) && Letters(y) && w in SQL + ESCAPE + PATH
    ensures ApplyPatterns(p, x + w + y) ==
      if (w in SQL && p.sql) || (w in ESCAPE && p.escape) || (w in PATH && p.path) then x + y else x + w + y
  {
    hide RemoveAll, RemoveBraceDollars, Letters;
    SqlStage(x, w, y);
    EscapeStage(x, w, y);
    PathStage(x, w, y);
    MongoPasses(x, w, y);
  }

  lemma {:induction false} SqlStage(x: string, w: string, y: string)
    requires Letters(x) && Letters(y) && w in SQL + ESCAPE + PATH
    ensures var s, u := x + w + y, x + y;
      && RemoveAll(RemoveAll(RemoveAll(s, ";"), "--"), "/*") == (if w in SQL then u else s)
      && RemoveAll(RemoveAll(RemoveAll(u, ";"), "--"), "/*") == u
  {
    hide RemoveAll;
    OnePass(x, w, y, SQL[0]);
    OnePass(x, w, y, SQL[1]);
    OnePass(x, w, y, SQL[2]);
  }

  lemma {:induction false} EscapeStage(x: string, w: string, y: string)
    requires Letters(x) && Letters(y) && w in SQL + ESCAPE + PATH
    ensures var s, u := x + w + y, x + y;
      && RemoveAll(RemoveAll(RemoveAll(s, "\0"), "\r"), "\n") == (if w in ESCAPE then u else s)
      && RemoveAll(RemoveAll(RemoveAll(u, "\0"), "\r"), "\n") == u
  {
    hide RemoveAll;
    OnePass(x, w, y, ESCAPE[0]);
    OnePass(x, w, y, ESCAPE[1]);
    OnePass(x, w, y, ESCAPE[2]);
  }

  lemma {:induction false} PathStage(x: string, w: string, y: string)
    requires Letters(x) && Letters(y) && w in SQL + ESCAPE + PATH
    ensures var s, u := x + w + y, x + y;
      && RemoveAll(RemoveAll(s, "../"), "..\\") == (if w in PATH then u else s)
      && RemoveAll(RemoveAll(u, "../"), "..\\") == u
  {
    hide RemoveAll;
    OnePass(x, w, y, PATH[0]);
    OnePass(x, w, y, PATH[1]);
  }

  /** Texts without a dollar are left alone by the patterns against operators. */
  lemma {:induction false} MongoPasses(x: string, w: string, y: string)
    requires Letters(x) && Letters(y) && w in SQL + ESCAPE + PATH
    ensures RemoveBraceDollars(x + w + y) == x + w + y && RemoveBraceDollars(x + y) == x + y
    ensures x + w + y != "" && (x + w + y)[0] != '$' && (x + y != "" ==> (x + y)[0] != '$')
  {
    PatternsApart(w, w);
    NoDollars(x + w + y);
    NoDollars(x + y);
  }

  /** A leading dollar, and a dollar behind a brace and blanks, go exactly if the operator category is on; a dollar
      elsewhere stays. */
  lemma {:induction false} OperatorsSwitch(sql: Option<bool>, mongo: Option<bool>, escape: Option<bool>,
      path: Option<bool>, x: string, blanks: string, y: string)
    requires Letters(x) && Letters(y) && Blanks(blanks) && '\r' !in blanks && '\n' !in blanks
    ensures var p := Resolve(Chosen(sql, mongo, escape, path));
      && ApplyPatterns(p, "$" + y) == (if mongo != Some(false) then y else "$" + y)
      && ApplyPatterns(p, x + "{" + blanks + "$" + y) ==
            (if mongo != Some(false) then x + y else x + "{" + blanks + "$" + y)
      && (x != "" ==> ApplyPatterns(p, x + "$" + y) == x + "$" + y)
  {
    hide ApplyPatterns, RemoveBraceDollars, SkipSpaces;
    var on := mongo != Some(false);
    OperatorStage(sql, mongo, escape, path, "$" + y);
    OperatorStage(sql, mongo, escape, path, x + "{" + blanks + "$" + y);
    OperatorStage(sql, mongo, escape, path, x + "$" + y);
    NoDollars(y);
    BraceDollarGoes(x, blanks, y);
    LoneDollarStays(x, y);
    assert ("$" + y)[1..] == y;
    assert (x + "{" + blanks + "$" + y)[0] != '$';
  }

  lemma {:induction false} OperatorStage(sql: Option<bool>, mongo: Option<bool>, escape: Option<bool>,
      path: Option<bool>, s: string)
    requires forall i :: 0 <= i < |s| ==> Plain(s[i])
    ensures ApplyPatterns(Resolve(Chosen(sql, mongo, escape, path)), s) ==
      if mongo == Some(false) then s
      else RemoveBraceDollars(if s != "" && s[0] == '$' then s[1..] else s)
  {
    hide RemoveAll, RemoveBraceDollars;
    PassesOthers(Resolve(Chosen(sql, mongo, escape, path)), s);
  }

  /** What the language takes for white space: tab to carriage return, the blank, and those of the other planes. */
  predicate Blanks(s: string) {
    forall i :: 0 <= i < |s| ==>
      s[i] as int in {
        0x9, 0xa, 0xb, 0xc, 0xd, 0x20, 0xa0, 0x1680, 0x2000, 0x2001, 0x2002, 0x2003, 0x2004, 0x2005, 0x2006, 0x2007,
        0x2008, 0x2009, 0x200a, 0x2028, 0x2029, 0x202f, 0x205f, 0x3000, 0xfeff}
  }

  /** The other categories do nothing to letters, braces, blanks and dollars. */
  lemma {:induction false} PassesOthers(p: Patterns, s: string)
    requires forall i :: 0 <= i < |s| ==> Plain(s[i])
    ensures ApplyPatterns(p, s) == ApplyPatterns(p.(sql := false, escape := false, path := false), s)
  {
    hide RemoveAll;
    Untouched(s);
    var b := if p.mongo then RemoveBraceDollars(if s != "" && s[0] == '$' then s[1..] else s) else s;
    BraceDollarsKeep(if s != "" && s[0] == '$' then s[1..] else s);
    Untouched(b);
  }

  predicate Plain(c: char) { c !in ";-/.\0\r\n" }

  lemma {:induction false} BraceDollarsKeep(s: string)
    ensures forall c :: c in RemoveBraceDollars(s) ==> c in s
    decreases |s|
  {
    if s == "" {
    } else {
      var t := SkipSpaces(s[1..]);
      SkipsOnly(s[1..]);
      assert s == [s[0]] + s[1..];
      if s[0] == '{' && t != "" && t[0] == '$' {
        BraceDollarsKeep(t[1..]);
        assert t == [t[0]] + t[1..];
      } else {
        BraceDollarsKeep(s[1..]);
      }
    }
  }

  lemma {:induction false} Untouched(s: string)
    requires forall c :: c in s ==> Plain(c)
    ensures RemoveAll(s, ";") == RemoveAll(s, "--") == RemoveAll(s, "/*") == s
    ensures RemoveAll(s, "\0") == RemoveAll(s, "\r") == RemoveAll(s, "\n") == s
    ensures RemoveAll(s, "../") == RemoveAll(s, "..\\") == s
  {
    RemoveAbsent(s, ";");
    RemoveAbsent(s, "--");
    RemoveAbsent(s, "/*");
    RemoveAbsent(s, "\0");
    RemoveAbsent(s, "\r");
    RemoveAbsent(s, "\n");
    RemoveAbsent(s, "../");
    RemoveAbsent(s, "..\\");
  }

  lemma {:induction false} BraceDollarGoes(x: string, blanks: string, y: string)
    requires Letters(x) && Letters(y) && Blanks(blanks)
    ensures RemoveBraceDollars(x + "{" + blanks + "$" + y) == x + y
  {
    var s := x + "{" + blanks + "$" + y;
    if x == "" {
      assert s[0] == '{' && s[1..] == blanks + ("$" + y);
      SkipsBlanks(blanks, "$" + y);
      assert ("$" + y)[1..] == y && x + y == y;
      NoDollars(y);
    } else {
      BraceDollarGoes(x[1..], blanks, y);
      assert s[0] == x[0] && s[1..] == x[1..] + "{" + blanks + "$" + y;
      assert [x[0]] + (x[1..] + y) == x + y;
    }
  }

  lemma {:induction false} SkipsBlanks(blanks: string, rest: string)
    requires Blanks(blanks) && rest != "" && rest[0] == '$'
    ensures SkipSpaces(blanks + rest) == rest
  {
    if blanks == "" {
      assert "" + rest == rest;
    } else {
      SkipsBlanks(blanks[1..], rest);
      assert (blanks + rest)[0] == blanks[0] && (blanks + rest)[1..] == blanks[1..] + rest;
    }
  }

  lemma {:induction false} LoneDollarStays(x: string, y: string)
    requires Letters(x) && Letters(y)
    ensures RemoveBraceDollars(x + "$" + y) == x + "$" + y
  {
    var s := x + "$" + y;
    if x == "" {
      assert s[0] == '$' && s[1..] == y;
      NoDollars(y);
    } else {
      LoneDollarStays(x[1..], y);
      assert s[0] == x[0] && s[1..] == x[1..] + "$" + y;
    }
  }
}
