/** The key and namespace sanitizer with its two memos. */
module Sanitize {
  import opened Texts
  import opened OrderedMap
  import opened Recency

  const CACHE_MAX: nat := 10000

  /** The categories of patterns to strip. */
  datatype Patterns = Patterns(sql: bool, mongo: bool, escape: bool, path: bool)

  /** An option as the caller gives it: absent or false, true, or category by category. */
  datatype Scope = Off | On | Chosen(sql: Option<bool>, mongo: Option<bool>, escape: Option<bool>, path: Option<bool>)

  predicate Any(p: Patterns) { p.sql || p.mongo || p.escape || p.path }

  function Resolve(scope: Scope): Patterns {
    match scope
    case Off => Patterns(false, false, false, false)
    case On => Patterns(true, true, true, true)
    case Chosen(s, m, e, p) => Patterns(s != Some(false), m != Some(false), e != Some(false), p != Some(false))
  }

  /** `buildPatterns`: nothing to run when no category is on. */
  function Build(p: Patterns): Option<Patterns> {
    if Any(p) then Some(p) else None
  }

  /** Stripping the matches of the enabled patterns: any deterministic function of text and patterns. */
  type Strip = (Patterns, string) -> string

  // ---------- the patterns themselves ----------

  /** `replace(/literal/g, "")`. */
  function RemoveAll(s: string, literal: string): string
    requires literal != ""
  {
    if |s| < |literal| then s
    else if literal <= s then RemoveAll(s[|literal|..], literal)
    else [s[0]] + RemoveAll(s[1..], literal)
  }

  predicate IsSpace(c: char) {
    var n := c as int;
    0x9 <= n <= 0xd || 0x2000 <= n <= 0x200a ||
      n in {0x20, 0xa0, 0x1680, 0x2028, 0x2029, 0x202f, 0x205f, 0x3000, 0xfeff}
  }

  function SkipSpaces(s: string): (r: string)
    ensures |r| <= |s|
  {
    if s != "" && IsSpace(s[0]) then SkipSpaces(s[1..]) else s
  }

  /** `replace(/\{\s*\$/g, "")`: a brace, blanks and a dollar. */
  function RemoveBraceDollars(s: string): string
    decreases |s|
  {
    if s == "" then ""
    else
      var t := SkipSpaces(s[1..]);
      if s[0] == '{' && t != "" && t[0] == '$' then RemoveBraceDollars(t[1..])
      else [s[0]] + RemoveBraceDollars(s[1..])
  }

  /** `applyPatterns` with the patterns of the enabled categories, one after the other. */
  function ApplyPatterns(p: Patterns, s: string): string {
    var a := if p.sql then RemoveAll(RemoveAll(RemoveAll(s, ";"), "--"), "/*") else s;
    var b := if p.mongo then RemoveBraceDollars(if a != "" && a[0] == '$' then a[1..] else a) else a;
    var c := if p.escape then RemoveAll(RemoveAll(RemoveAll(b, "\0"), "\r"), "\n") else b;
    if p.path then RemoveAll(RemoveAll(c, "../"), "..\\") else c
  }

  lemma {:induction false} RemoveAbsent(s: string, literal: string)
    requires literal != "" && literal[0] !in s
    ensures RemoveAll(s, literal) == s
  {
    if s == "" {
    } else {
      assert s == [s[0]] + s[1..] && s[0] != literal[0];
      RemoveAbsent(s[1..], literal);
    }
  }

  /** A first character at which no match begins stays. */
  lemma {:induction false} RemoveFrom(first: char, rest: string, literal: string)
    requires literal != "" && !(literal <= [first] + rest)
    ensures RemoveAll([first] + rest, literal) == [first] + RemoveAll(rest, literal)
  {
    var s := [first] + rest;
    assert s[1..] == rest;
  }

  lemma {:induction false} DashesStay()
    ensures RemoveAll("-\n-x", "--") == "-\n-x"
  {
    hide RemoveAll;
    RemoveAbsent("x", "--");
    assert ['-'] + "x" == "-x" && "-x"[1] != '-';
    RemoveFrom('-', "x", "--");
    assert ['\n'] + "-x" == "\n-x" && "\n-x"[0] != '-';
    RemoveFrom('\n', "-x", "--");
    assert ['-'] + "\n-x" == "-\n-x" && "-\n-x"[1] != '-';
    RemoveFrom('-', "\n-x", "--");
  }

  lemma {:induction false} LineBreakGoes()
    ensures RemoveAll("-\n-x", "\n") == "--x"
  {
    RemoveAbsent("-x", "\n");
    assert "\n-x"[1..] == "-x" && "\n" <= "\n-x";
    assert RemoveAll("\n-x", "\n") == "-x";
    assert ['-'] + "\n-x" == "-\n-x" && "-\n-x"[0] != '\n';
    RemoveFrom('-', "\n-x", "\n");
  }

  lemma {:induction false} DashesGo()
    ensures RemoveAll("--x", "--") == "x"
  {
    RemoveAbsent("x", "--");
    assert "--x"[2..] == "x" && "--" <= "--x";
  }

  /** Cleaning twice is not cleaning once: removing a line break can bring two dashes together. */
  lemma {:induction false} CleaningIsNotIdempotent()
    ensures var p := Patterns(true, false, true, false);
      ApplyPatterns(p, "-\n-x") == "--x" && ApplyPatterns(p, "--x") == "x"
  {
    hide RemoveAll;
    var raw, once, twice := "-\n-x", "--x", "x";
    DashesStay();
    LineBreakGoes();
    DashesGo();
    RemoveAbsent(raw, ";");
    RemoveAbsent(raw, "/*");
    RemoveAbsent(raw, "\0");
    RemoveAbsent(raw, "\r");
    RemoveAbsent(once, ";");
    RemoveAbsent(twice, "/*");
    RemoveAbsent(twice, "\0");
    RemoveAbsent(twice, "\r");
    RemoveAbsent(twice, "\n");
  }

  /** What cleaning means, memo or not. */
  function Cleaned(strip: Strip, p: Option<Patterns>, s: string): string {
    match p
    case None => s
    case Some(q) => strip(q, s)
  }

  /** The memo after a history of cleaned texts. */
  function Memo(strip: Strip, p: Option<Patterns>, history: seq<string>, max: nat): Entries<string, string> {
    Pairs(Kept(history, max), s => Cleaned(strip, p, s))
  }

  class StorelySanitize {
    var keys: Patterns
    var namespace: Patterns
    var keyPatterns: Option<Patterns>
    var namespacePatterns: Option<Patterns>
    var enabled: bool
    var cacheKeys: Entries<string, string>
    var cacheNamespaces: Entries<string, string>
    const strip: Strip

    /** The texts cleaned with patterns on since the memos were last cleared. */
    ghost var keyHistory: seq<string>
    ghost var namespaceHistory: seq<string>

    ghost predicate Valid()
      reads this
    {
      && keyPatterns == Build(keys)
      && namespacePatterns == Build(namespace)
      && enabled == (Any(keys) || Any(namespace))
      && cacheKeys == Memo(strip, keyPatterns, keyHistory, CACHE_MAX)
      && cacheNamespaces == Memo(strip, namespacePatterns, namespaceHistory, CACHE_MAX)
    }

    constructor (strip: Strip)
      ensures Valid() && !enabled && keyHistory == namespaceHistory == [] && this.strip == strip
    {
      this.strip := strip;
      keys, namespace := Resolve(Off), Resolve(Off);
      keyPatterns, namespacePatterns, enabled := None, None, false;
      cacheKeys, cacheNamespaces := [], [];
      keyHistory, namespaceHistory := [], [];
      new;
      NothingKept<string>(CACHE_MAX);
    }

    method UpdateOptions(keyScope: Scope, namespaceScope: Scope)
      modifies this
      ensures Valid() && keyHistory == namespaceHistory == []
      ensures keys == Resolve(keyScope) && namespace == Resolve(namespaceScope)
    {
      keys := Resolve(keyScope);
      namespace := Resolve(namespaceScope);
      enabled := Any(keys) || Any(namespace);
      keyPatterns := Build(keys);
      namespacePatterns := Build(namespace);
      cacheKeys, cacheNamespaces := [], [];
      keyHistory, namespaceHistory := [], [];
      NothingKept<string>(CACHE_MAX);
    }

    method ClearCache()
      requires Valid()
      modifies this`cacheKeys, this`cacheNamespaces, this`keyHistory, this`namespaceHistory
      ensures Valid() && keyHistory == namespaceHistory == []
    {
      cacheKeys, cacheNamespaces := [], [];
      keyHistory, namespaceHistory := [], [];
      NothingKept<string>(CACHE_MAX);
    }

    /** One lookup: a hit is deleted and set again, a miss is computed, set, and may push out the first entry. */
    method Lookup(cache: Entries<string, string>, p: Patterns, s: string, ghost history: seq<string>)
      returns (result: string, updated: Entries<string, string>)
      requires cache == Memo(strip, Some(p), history, CACHE_MAX)
      ensures result == strip(p, s)
      ensures updated == Memo(strip, Some(p), history + [s], CACHE_MAX)
    {
      hide Kept, Put, Remove;
      ghost var f := t => Cleaned(strip, Some(p), t);
      KeptDistinct(history, CACHE_MAX);
      PairsMap(Kept(history, CACHE_MAX), f, s);
      RecallKeepsRecent(history, s, f, CACHE_MAX);
      assert cache == Pairs(Kept(history, CACHE_MAX), f);
      assert Memo(strip, Some(p), history + [s], CACHE_MAX) == Pairs(Kept(history + [s], CACHE_MAX), f);
      var cached := Find(cache, s);
      if cached.Some? {
        return cached.value, Put(Remove(cache, s), s, cached.value);
      }
      result := strip(p, s);
      updated := Put(cache, s, result);
      if |updated| > CACHE_MAX {
        updated := updated[1..];
      }
    }

    /** The answer is always that of the current patterns on the raw key. */
    method CleanKey(key: string) returns (result: string)
      requires Valid()
      modifies this`cacheKeys, this`keyHistory
      ensures Valid() && result == Cleaned(strip, Build(keys), key)
      ensures keyHistory == if Any(keys) then old(keyHistory) + [key] else old(keyHistory)
    {
      if keyPatterns == None {
        return key;
      }
      result, cacheKeys := Lookup(cacheKeys, keyPatterns.value, key, keyHistory);
      keyHistory := keyHistory + [key];
    }

    method CleanKeys(given: seq<string>) returns (results: seq<string>)
      requires Valid()
      modifies this`cacheKeys, this`keyHistory
      ensures Valid() && |results| == |given|
      ensures forall i :: 0 <= i < |given| ==> results[i] == Cleaned(strip, Build(keys), given[i])
      ensures keyHistory == if Any(keys) then old(keyHistory) + given else old(keyHistory)
    {
      hide Memo, Kept;
      if keyPatterns == None {
        return given;
      }
      results := [];
      for i := 0 to |given|
        invariant Valid() && |results| == i
        invariant forall j :: 0 <= j < i ==> results[j] == Cleaned(strip, Build(keys), given[j])
        invariant keyHistory == old(keyHistory) + given[..i]
      {
        var result := CleanKey(given[i]);
        assert given[..i + 1] == given[..i] + [given[i]];
        results := results + [result];
      }
      assert given[..|given|] == given;
    }

    method CleanNamespace(ns: string) returns (result: string)
      requires Valid()
      modifies this`cacheNamespaces, this`namespaceHistory
      ensures Valid() && result == Cleaned(strip, Build(namespace), ns)
      ensures namespaceHistory == if Any(namespace) then old(namespaceHistory) + [ns] else old(namespaceHistory)
    {
      if namespacePatterns == None {
        return ns;
      }
      result, cacheNamespaces := Lookup(cacheNamespaces, namespacePatterns.value, ns, namespaceHistory);
      namespaceHistory := namespaceHistory + [ns];
    }
  }
}
