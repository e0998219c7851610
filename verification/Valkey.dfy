/** The Valkey adapter, standalone: writes and deletes that keep a set of the keys they touch, and transactions
    whose replies are read back by stride. */
module Valkey {
  import opened Texts

  // ---------- names ----------

  datatype Scope = Scope(namespace: string, useSets: bool) {
    function SetKey(): string {
      if namespace != "" then "sets:" + namespace else "sets"
    }

    function KeyPrefix(): string {
      if useSets then SetKey() else if namespace != "" then "namespace:" + namespace else ""
    }

    function KeyName(key: string): string {
      if KeyPrefix() != "" then KeyPrefix() + ":" + key else key
    }

    /** Where versions before the sixth kept the set. */
    function OldSetKey(): string { "namespace:" + namespace }

    predicate Owns(name: string) {
      if KeyPrefix() != "" then KeyPrefix() + ":" <= name else true
    }
  }

  /** The names of the documentation. */
  lemma {:induction false} StoredNames(ns: string, key: string)
    requires ns != ""
    ensures Scope(ns, true).KeyName(key) == "sets:" + ns + ":" + key && Scope(ns, true).SetKey() == "sets:" + ns
    ensures Scope("", true).KeyName(key) == "sets:" + key && Scope("", true).SetKey() == "sets"
    ensures Scope(ns, false).KeyName(key) == "namespace:" + ns + ":" + key && Scope("", false).KeyName(key) == key
    ensures Scope(ns, true).OldSetKey() == "namespace:" + ns
  {
  }

  /** A tracking set never shares its key with data of its own namespace; with data of another adapter it does
      exactly when that is tracked and its namespace and key spell this namespace, or when it stores keys as they
      are and is given the set's key. */
  lemma {:induction false} SetKeyCollidesIff(mine: Scope, other: Scope, key: string)
    requires mine.useSets
    ensures mine.KeyName(key) != mine.SetKey()
    ensures other.KeyName(key) == mine.SetKey() <==>
      if other.useSets then
        mine.namespace != "" && mine.namespace == if other.namespace != "" then other.namespace + ":" + key else key
      else other.namespace == "" && key == mine.SetKey()
  {
    hide *;
    OwnNameIsNoSetKey(mine, key);
    if other.useSets { TrackedNeighbour(mine, other, key); } else { UntrackedNeighbour(mine, other, key); }
  }

  lemma {:induction false} OwnNameIsNoSetKey(mine: Scope, key: string)
    requires mine.useSets
    ensures mine.KeyName(key) != mine.SetKey()
  {
    assert |mine.KeyName(key)| > |mine.SetKey()|;
  }

  lemma {:induction false} TrackedNeighbour(mine: Scope, other: Scope, key: string)
    requires mine.useSets && other.useSets
    ensures other.KeyName(key) == mine.SetKey() <==>
      mine.namespace != "" && mine.namespace == if other.namespace != "" then other.namespace + ":" + key else key
  {
    var rest := if other.namespace != "" then other.namespace + ":" + key else key;
    var name, list := other.KeyName(key), mine.SetKey();
    assert name == "sets:" + rest && name[5..] == rest;
    if mine.namespace == "" {
      assert |name| > |list|;
    } else {
      assert list == "sets:" + mine.namespace && list[5..] == mine.namespace;
    }
  }

  lemma {:induction false} UntrackedNeighbour(mine: Scope, other: Scope, key: string)
    requires mine.useSets && !other.useSets
    ensures other.KeyName(key) == mine.SetKey() <==> other.namespace == "" && key == mine.SetKey()
  {
    if other.namespace != "" { assert other.KeyName(key)[0] == 'n' && mine.SetKey()[0] == 's'; }
  }

  /** Both kinds of neighbours, at an input. */
  lemma {:induction false} SetKeyCollisions()
    ensures Scope("a", true).KeyName("b") == Scope("a:b", true).SetKey()
    ensures Scope("", false).KeyName("sets:ns") == Scope("ns", true).SetKey()
  {
    assert "sets:" + "a" + ":" + "b" == "sets:" + "a:b";
    assert "sets:" + "ns" == "sets:ns";
  }

  // ---------- the server ----------

  /** What stands under a key: a text with the end of its lifetime, or a set. */
  datatype Cell<V> = Str(value: V, until: Option<int>) | Members(names: set<string>)

  type Server<V> = map<string, Cell<V>>

  datatype Command<V> =
    | SetValue(key: string, value: V, ttl: Option<int>)
    | Track(list: string, key: string)
    | Unlink(key: string)
    | Untrack(list: string, key: string)

  datatype Reply = Okay | Count(n: nat) | Failure

  /** What a command finds: a text whose time is over is gone. */
  function Present<V>(s: Server<V>, key: string, now: int): Option<Cell<V>> {
    if key in s && !(s[key].Str? && s[key].until.Some? && s[key].until.value <= now) then Some(s[key]) else None
  }

  predicate Live<V>(s: Server<V>, key: string, now: int) {
    Present(s, key, now).Some?
  }

  /** A set without members is no key at all. */
  function Keep<V>(s: Server<V>, list: string, names: set<string>): Server<V> {
    if names == {} then s - {list} else s[list := Members(names)]
  }

  /** The server refuses a lifetime that is not positive. */
  predicate Accepts(ttl: Option<int>) {
    ttl.Some? ==> ttl.value > 0
  }

  /** One command; a set command on a text is an error reply. */
  function Execute<V>(s: Server<V>, c: Command<V>, now: int): (Server<V>, Reply) {
    match c
    case SetValue(key, value, ttl) =>
      if Accepts(ttl) then (s[key := Str(value, if ttl.Some? then Some(now + ttl.value) else None)], Okay)
      else (s, Failure)
    case Track(list, key) =>
      (match Present(s, list, now)
       case None => (s[list := Members({key})], Count(1))
       case Some(Members(names)) => (s[list := Members(names + {key})], Count(if key in names then 0 else 1))
       case Some(Str(_, _)) => (s, Failure))
    case Unlink(key) => (s - {key}, Count(if Live(s, key, now) then 1 else 0))
    case Untrack(list, key) =>
      (match Present(s, list, now)
       case None => (s, Count(0))
       case Some(Members(names)) => (Keep(s, list, names - {key}), Count(if key in names then 1 else 0))
       case Some(Str(_, _)) => (s, Failure))
  }

  /** A transaction: the commands in order, one reply each. */
  function Exec<V>(s: Server<V>, commands: seq<Command<V>>, now: int): (r: (Server<V>, seq<Reply>))
    ensures |r.1| == |commands|
  {
    if commands == [] then (s, [])
    else
      var n := |commands| - 1;
      var (before, replies) := Exec(s, commands[..n], now);
      var (after, reply) := Execute(before, commands[n], now);
      (after, replies + [reply])
  }

  lemma {:induction false} ExecAppend<V>(s: Server<V>, commands: seq<Command<V>>, c: Command<V>, now: int)
    ensures Exec(s, commands + [c], now) ==
      (Execute(Exec(s, commands, now).0, c, now).0,
        Exec(s, commands, now).1 + [Execute(Exec(s, commands, now).0, c, now).1])
  {
    assert (commands + [c])[..|commands|] == commands;
  }

  // ---------- one key at a time ----------

  function SetOne<V>(s: Server<V>, scope: Scope, name: string, value: V, ttl: Option<int>, now: int): Server<V> {
    var (written, _) := Execute(s, SetValue(name, value, ttl), now);
    if scope.useSets then Execute(written, Track(scope.SetKey(), name), now).0 else written
  }

  function DeleteOne<V>(s: Server<V>, scope: Scope, name: string, now: int): (Server<V>, bool) {
    var (unlinked, _) := Execute(s, Unlink(name), now);
    (if scope.useSets then Execute(unlinked, Untrack(scope.SetKey(), name), now).0 else unlinked, Live(s, name, now))
  }

  datatype Write<V> = Write(key: string, value: Option<V>, ttl: Option<int>)

  /** `set`, for each entry in order. */
  function SetsInTurn<V>(s: Server<V>, scope: Scope, writes: seq<Write<V>>, now: int): Server<V> {
    if writes == [] then s
    else
      var n := |writes| - 1;
      var before := SetsInTurn(s, scope, writes[..n], now);
      if writes[n].value.Some?
      then SetOne(before, scope, scope.KeyName(writes[n].key), writes[n].value.value, writes[n].ttl, now)
      else before
  }

  /** `delete`, for each key in order. */
  function DeletesInTurn<V>(s: Server<V>, scope: Scope, keys: seq<string>, now: int): (r: (Server<V>, seq<bool>))
    ensures |r.1| == |keys|
  {
    if keys == [] then (s, [])
    else
      var n := |keys| - 1;
      var (before, answers) := DeletesInTurn(s, scope, keys[..n], now);
      var (after, answer) := DeleteOne(before, scope, scope.KeyName(keys[n]), now);
      (after, answers + [answer])
  }

  lemma {:induction false} NothingDeleted<V>(s: Server<V>, scope: Scope, now: int)
    ensures DeletesInTurn(s, scope, [], now) == (s, [])
  {
  }

  lemma {:induction false} DeletesSnoc<V>(s: Server<V>, scope: Scope, keys: seq<string>, key: string, now: int)
    ensures var (before, answers) := DeletesInTurn(s, scope, keys, now);
      var (after, answer) := DeleteOne(before, scope, scope.KeyName(key), now);
      DeletesInTurn(s, scope, keys + [key], now) == (after, answers + [answer])
  {
    assert (keys + [key])[..|keys|] == keys;
  }

  lemma {:induction false} DeletesConcat<V>(s: Server<V>, scope: Scope, keys: seq<string>, more: seq<string>, now: int)
    ensures var (mid, first) := DeletesInTurn(s, scope, keys, now);
      var (end, second) := DeletesInTurn(mid, scope, more, now);
      DeletesInTurn(s, scope, keys + more, now) == (end, first + second)
  {
    hide DeletesInTurn, DeleteOne;
    var (mid, first) := DeletesInTurn(s, scope, keys, now);
    if more == [] {
      NothingDeleted(mid, scope, now);
      assert keys + more == keys && first + [] == first;
    } else {
      var n := |more| - 1;
      DeletesConcat(s, scope, keys, more[..n], now);
      DeletesSnoc(s, scope, keys + more[..n], more[n], now);
      DeletesSnoc(mid, scope, more[..n], more[n], now);
      assert more == more[..n] + [more[n]];
      assert keys + more == keys + more[..n] + [more[n]];
      var second := DeletesInTurn(mid, scope, more[..n], now).1;
      var answer := DeletesInTurn(mid, scope, more, now).1[n];
      assert first + second + [answer] == first + (second + [answer]);
    }
  }

  lemma {:induction false} NamesDiffer(scope: Scope, k: string, l: string)
    ensures scope.KeyName(k) == scope.KeyName(l) <==> k == l
    ensures scope.Owns(scope.KeyName(k))
    ensures scope.useSets ==> !scope.Owns(scope.SetKey()) && scope.KeyName(k) != scope.SetKey()
  {
    var p := scope.KeyPrefix() + ":";
    assert (p + k)[|p|..] == k && (p + l)[|p|..] == l;
    assert |p + k| > |scope.KeyPrefix()|;
  }

  /** Everything but the adapter's own tracking set. */
  predicate IsData(scope: Scope, name: string) {
    scope.useSets ==> name != scope.SetKey()
  }

  /** An accepted write is found while it has no lifetime or that is not over, and changes no other data. */
  lemma {:induction false} WriteIsFound<V>(s: Server<V>, scope: Scope, key: string, value: V, ttl: Option<int>,
      now: int, other: string, t: int)
    ensures var name, after := scope.KeyName(key), SetOne(s, scope, scope.KeyName(key), value, ttl, now);
      && (ttl == None || ttl.value > 0 ==>
            if ttl == None || t < now + ttl.value then
              Present(after, name, t).Some? && Present(after, name, t).value.Str? &&
                Present(after, name, t).value.value == value
            else Present(after, name, t) == None)
      && (ttl.Some? && ttl.value <= 0 ==> (name in after <==> name in s) && (name in s ==> after[name] == s[name]))
      && (IsData(scope, other) && other != name ==>
            (other in after <==> other in s) && (other in s ==> after[other] == s[other]))
  {
    NamesDiffer(scope, key, "");
  }

  /** The last write of a batch under a key that the server takes. */
  function LastTaken<V>(writes: seq<Write<V>>, key: string): (w: Option<Write<V>>)
    ensures w.Some? ==> w.value.value.Some? && w.value.key == key
  {
    if writes == [] then None
    else
      var last := writes[|writes| - 1];
      if last.key == key && last.value.Some? && (last.ttl == None || last.ttl.value > 0) then Some(last)
      else LastTaken(writes[..|writes| - 1], key)
  }

  /** What a batch leaves under a key: the last value given and taken, with its own end, or what was there before. */
  lemma {:induction false} SetsLeave<V>(s: Server<V>, scope: Scope, writes: seq<Write<V>>, now: int, key: string)
    ensures var name, after := scope.KeyName(key), SetsInTurn(s, scope, writes, now);
      match LastTaken(writes, key)
      case None => (name in after <==> name in s) && (name in s ==> after[name] == s[name])
      case Some(w) =>
        name in after && after[name] == Str(w.value.value, if w.ttl == None then None else Some(now + w.ttl.value))
  {
    hide Scope.KeyName, SetOne, Execute;
    if writes == [] {
      NothingSet(s, scope, now);
    } else {
      var n := |writes| - 1;
      SetsLeave(s, scope, writes[..n], now, key);
      var last := writes[n];
      if last.value.Some? {
        SetOneLeaves(SetsInTurn(s, scope, writes[..n], now), scope, last.key, last.value.value, last.ttl, now, key);
      }
    }
  }

  lemma {:induction false} SetOneLeaves<V>(s: Server<V>, scope: Scope, key: string, value: V, ttl: Option<int>,
      now: int, other: string)
    ensures var name, after := scope.KeyName(other), SetOne(s, scope, scope.KeyName(key), value, ttl, now);
      if other == key && (ttl == None || ttl.value > 0) then
        name in after && after[name] == Str(value, if ttl == None then None else Some(now + ttl.value))
      else (name in after <==> name in s) && (name in s ==> after[name] == s[name])
  {
    NamesDiffer(scope, key, other);
    NamesDiffer(scope, other, key);
  }

  /** One delete takes one key; its answer is whether the key was live. */
  lemma {:induction false} DeleteOneTakes<V>(s: Server<V>, scope: Scope, key: string, now: int, name: string)
    requires IsData(scope, name)
    ensures var (after, answer) := DeleteOne(s, scope, scope.KeyName(key), now);
      && (name in after <==> name in s && name != scope.KeyName(key))
      && (name in after ==> after[name] == s[name])
      && answer == Live(s, scope.KeyName(key), now)
  {
    NamesDiffer(scope, key, "");
  }

  /** An answer is true for a live key that does not occur earlier; no deleted key is left. */
  lemma {:induction false} DeletesInTurnAre<V>(s: Server<V>, scope: Scope, keys: seq<string>, now: int)
    ensures var (after, answers) := DeletesInTurn(s, scope, keys, now);
      && (forall i :: 0 <= i < |keys| ==>
            (answers[i] <==> Live(s, scope.KeyName(keys[i]), now) && keys[i] !in keys[..i]))
      && (forall name :: IsData(scope, name) ==>
            (name in after <==> name in s && !exists i :: 0 <= i < |keys| && scope.KeyName(keys[i]) == name))
      && (forall name :: IsData(scope, name) && name in after ==> after[name] == s[name])
  {
    hide DeletesInTurn, DeleteOne, Scope.KeyName, IsData;
    if keys == [] {
      NothingDeleted(s, scope, now);
    } else {
      var n := |keys| - 1;
      assert keys == keys[..n] + [keys[n]];
      DeletesSnoc(s, scope, keys[..n], keys[n], now);
      DeletesInTurnAre(s, scope, keys[..n], now);
      var (before, earlier) := DeletesInTurn(s, scope, keys[..n], now);
      forall i | 0 <= i < n
        ensures keys[..n][..i] == keys[..i]
      {
      }
      forall i | 0 <= i < n
        ensures scope.KeyName(keys[i]) == scope.KeyName(keys[n]) <==> keys[i] == keys[n]
      {
        NamesDiffer(scope, keys[i], keys[n]);
      }
      OwnNamesAreData(scope, keys[n]);
      DeleteOneTakes(before, scope, keys[n], now, scope.KeyName(keys[n]));
      assert Live(before, scope.KeyName(keys[n]), now) <==>
        Live(s, scope.KeyName(keys[n]), now) && keys[n] !in keys[..n];
      forall name | IsData(scope, name)
        ensures var after := DeleteOne(before, scope, scope.KeyName(keys[n]), now).0;
          && (name in after <==> name in before && name != scope.KeyName(keys[n]))
          && (name in after ==> after[name] == before[name])
      {
        DeleteOneTakes(before, scope, keys[n], now, name);
      }
    }
  }

  lemma {:induction false} OwnNamesAreData(scope: Scope, key: string)
    ensures IsData(scope, scope.KeyName(key))
  {
    NamesDiffer(scope, key, "");
  }

  // ---------- neighbours ----------

  /** Nothing an adapter with the scope `other` stores or tracks meets the set or the keys of `mine`. */
  ghost predicate Spares(other: Scope, mine: Scope) {
    && (forall key :: other.KeyName(key) != mine.SetKey() && !mine.Owns(other.KeyName(key)))
    && (other.useSets ==> other.SetKey() != mine.SetKey() && !mine.Owns(other.SetKey()))
  }

  /** One of the two texts begins with the other. */
  predicate Comparable(a: string, b: string) { a <= b || b <= a }

  /** Harmless are exactly the neighbours with a namespace that either do not track, or are such that neither of
      the two namespaces, a colon added, begins with the other. */
  lemma {:induction false} SparesIff(other: Scope, mine: Scope)
    requires mine.useSets
    ensures Spares(other, mine) <==>
      other.namespace != "" &&
      (other.useSets ==> mine.namespace != "" && !Comparable(other.namespace + ":", mine.namespace + ":"))
  {
    if other.useSets {
      TrackedSparesIff(other, mine);
      PrefixesComparableIff(other, mine);
    } else if other.namespace == "" {
      assert other.KeyName(mine.SetKey()) == mine.SetKey();
    } else {
      UntrackedSpares(other, mine);
    }
  }

  lemma {:induction false} UntrackedSpares(other: Scope, mine: Scope)
    requires mine.useSets && !other.useSets && other.namespace != ""
    ensures Spares(other, mine)
  {
    var prefix := mine.KeyPrefix() + ":";
    assert prefix[0] == 's' && mine.SetKey()[0] == 's';
    forall key
      ensures other.KeyName(key)[0] == 'n'
    {
    }
  }

  lemma {:induction false} TrackedSparesIff(other: Scope, mine: Scope)
    requires mine.useSets && other.useSets
    ensures Spares(other, mine) <==> !Comparable(other.SetKey() + ":", mine.SetKey() + ":")
  {
    var p, list := other.SetKey() + ":", mine.SetKey();
    var own := list + ":";
    if own <= p {
      assert other.KeyName("") == p + "" == p;
    } else if p <= own {
      assert |p| < |own| && own[..|list|] == list && p <= list;
      assert other.KeyName(list[|p|..]) == p + list[|p|..] == list;
    } else {
      forall key
        ensures other.KeyName(key) != list && !mine.Owns(other.KeyName(key))
      {
        var name := other.KeyName(key);
        assert name == p + key && p <= name;
        assert p <= own || name != list;
      }
      assert other.SetKey() <= p;
    }
  }

  lemma {:induction false} PrefixesComparableIff(other: Scope, mine: Scope)
    ensures Comparable(other.SetKey() + ":", mine.SetKey() + ":") <==>
      other.namespace == "" || mine.namespace == "" || Comparable(other.namespace + ":", mine.namespace + ":")
  {
    var p, q := other.SetKey() + ":", mine.SetKey() + ":";
    var a, b := other.namespace + ":", mine.namespace + ":";
    assert p == if other.namespace == "" then "sets:" else "sets:" + a;
    assert q == if mine.namespace == "" then "sets:" else "sets:" + b;
    if other.namespace != "" && mine.namespace != "" {
      assert p[5..] == a && q[5..] == b;
      SamePrefix("sets:", a, b);
      SamePrefix("sets:", b, a);
    }
  }

  lemma {:induction false} SamePrefix(p: string, a: string, b: string)
    ensures p + a <= p + b <==> a <= b
  {
    if p + a <= p + b { assert (p + a)[|p|..] == a && (p + b)[|p|..] == b; }
    if a <= b { assert p + b == p + a + b[|a|..]; }
  }

  // ---------- whole runs ----------

  datatype Action<V> =
    | Sets(write: Write<V>)
    | SetsMany(writes: seq<Write<V>>)
    | Deletes(key: string)
    | DeletesMany(keys: seq<string>)
    | Clears
    /** The server drops some keys whose time is over. */
    | Expires(dropped: set<string>)
    /** Somebody else leaves a cell under any key; a set without members there is a key deleted. */
    | Foreign(name: string, cell: Cell<V>)

  function Placed<V>(s: Server<V>, name: string, cell: Cell<V>): Server<V> {
    if cell.Str? then s[name := cell] else Keep(s, name, cell.names)
  }

  /** The members of the set under a key; a text or nothing has none. */
  function Names<V>(s: Server<V>, list: string, now: int): set<string> {
    match Present(s, list, now)
    case Some(Members(names)) => names
    case _ => {}
  }

  /** Unlinking the members of a set and removing them from it. */
  function Emptied<V>(s: Server<V>, list: string, now: int): Server<V> {
    if Names(s, list, now) == {} then s else s - Names(s, list, now) - {list}
  }

  /** `clear`; false is the error of SMEMBERS on a text, which leaves everything as it is. */
  function Cleared<V>(s: Server<V>, scope: Scope, now: int): (Server<V>, bool) {
    var cell := Present(s, scope.SetKey(), now);
    if cell.Some? && cell.value.Str? then (s, false)
    else
      var kept := Emptied(s, scope.SetKey(), now);
      var former := Present(kept, scope.OldSetKey(), now);
      if scope.namespace != "" && former.Some? && former.value.Members?
        then (Emptied(kept, scope.OldSetKey(), now) - {scope.OldSetKey()}, true)
      else (kept, true)
  }

  function Perform<V>(s: Server<V>, scope: Scope, action: Action<V>, now: int): Server<V> {
    match action
    case Sets(write) => SetsInTurn(s, scope, [write], now)
    case SetsMany(writes) => SetsInTurn(s, scope, writes, now)
    case Deletes(key) => DeleteOne(s, scope, scope.KeyName(key), now).0
    case DeletesMany(keys) => DeletesInTurn(s, scope, keys, now).0
    case Clears => Cleared(s, scope, now).0
    case Expires(dropped) => map k | k in s && (k !in dropped || Live(s, k, now)) :: s[k]
    case Foreign(name, cell) => Placed(s, name, cell)
  }

  /** What one of the adapters on the server does. */
  datatype Step<V> = Step(scope: Scope, action: Action<V>, now: int)

  function Run<V>(s: Server<V>, steps: seq<Step<V>>): Server<V>
    decreases |steps|
  {
    if steps == [] then s else Run(Perform(s, steps[0].scope, steps[0].action, steps[0].now), steps[1..])
  }

  /** What the set under the adapter's set key names, if it is a set. */
  function Tracked<V>(s: Server<V>, scope: Scope): set<string> {
    if scope.SetKey() in s && s[scope.SetKey()].Members? then s[scope.SetKey()].names else {}
  }

  /** The set key holds a set or nothing, every key of the namespace on the server is tracked, and nothing else
      is. */
  ghost predicate Tracking<V>(s: Server<V>, scope: Scope) {
    && (scope.SetKey() in s ==> s[scope.SetKey()].Members?)
    && (forall k :: k in s && scope.Owns(k) ==> k in Tracked(s, scope))
    && (forall k :: k in Tracked(s, scope) ==> scope.Owns(k))
  }

  lemma {:induction false} SetKeepsTracking<V>(s: Server<V>, scope: Scope, key: string, value: V, ttl: Option<int>,
      now: int)
    requires scope.useSets && Tracking(s, scope)
    ensures Tracking(SetOne(s, scope, scope.KeyName(key), value, ttl, now), scope)
  {
    NamesDiffer(scope, key, "");
    hide Scope.KeyName, Scope.SetKey, Scope.Owns;
    var name, list := scope.KeyName(key), scope.SetKey();
    var written := Execute(s, SetValue(name, value, ttl), now).0;
    assert list in written ==> written[list] == s[list];
    if list !in s { assert Tracked(s, scope) + {name} == {name}; }
    assert SetOne(s, scope, name, value, ttl, now) == written[list := Members(Tracked(s, scope) + {name})];
  }

  lemma {:induction false} DeleteKeepsTracking<V>(s: Server<V>, scope: Scope, key: string, now: int)
    requires scope.useSets && Tracking(s, scope)
    ensures Tracking(DeleteOne(s, scope, scope.KeyName(key), now).0, scope)
  {
    NamesDiffer(scope, key, "");
    hide Scope.KeyName, Scope.SetKey, Scope.Owns;
    var name, list := scope.KeyName(key), scope.SetKey();
    var unlinked := s - {name};
    var after := DeleteOne(s, scope, name, now).0;
    assert after == if list in s then Keep(unlinked, list, Tracked(s, scope) - {name}) else unlinked;
    assert Tracked(after, scope) == Tracked(s, scope) - {name};
  }

  lemma {:induction false} SetsKeepTracking<V>(s: Server<V>, scope: Scope, writes: seq<Write<V>>, now: int)
    requires scope.useSets && Tracking(s, scope)
    ensures Tracking(SetsInTurn(s, scope, writes, now), scope)
  {
    hide Tracking, SetOne;
    if writes == [] {
      NothingSet(s, scope, now);
    } else {
      var last := writes[|writes| - 1];
      SetsKeepTracking(s, scope, writes[..|writes| - 1], now);
      if last.value.Some? {
        SetKeepsTracking(SetsInTurn(s, scope, writes[..|writes| - 1], now), scope, last.key, last.value.value,
          last.ttl, now);
      }
    }
  }

  lemma {:induction false} DeletesKeepTracking<V>(s: Server<V>, scope: Scope, keys: seq<string>, now: int)
    requires scope.useSets && Tracking(s, scope)
    ensures Tracking(DeletesInTurn(s, scope, keys, now).0, scope)
  {
    hide Tracking, DeleteOne;
    if keys == [] {
      NothingDeleted(s, scope, now);
    } else {
      DeletesKeepTracking(s, scope, keys[..|keys| - 1], now);
      DeleteKeepsTracking(DeletesInTurn(s, scope, keys[..|keys| - 1], now).0, scope, keys[|keys| - 1], now);
    }
  }

  /** A clear of a tracked namespace goes through and takes its keys, the set, and what the old-format set names. */
  lemma {:induction false} ClearTakes<V>(s: Server<V>, scope: Scope, now: int, key: string)
    requires scope.useSets && Tracking(s, scope)
    ensures Cleared(s, scope, now).1
    ensures var former := if scope.namespace != "" then Names(s, scope.OldSetKey(), now) else {};
      key in Cleared(s, scope, now).0 ==>
        key in s && !scope.Owns(key) && key !in former && Cleared(s, scope, now).0[key] == s[key]
    ensures var former := if scope.namespace != "" then Names(s, scope.OldSetKey(), now) else {};
      key in s && !scope.Owns(key) && key !in former && key != scope.SetKey() && key != scope.OldSetKey() ==>
        key in Cleared(s, scope, now).0
  {
    NamesDiffer(scope, "", "");
    OldSetIsNotOwn(scope);
    hide Scope.KeyName, Scope.SetKey, Scope.Owns, Scope.OldSetKey;
  }

  lemma {:induction false} OldSetIsNotOwn(scope: Scope)
    requires scope.useSets
    ensures scope.OldSetKey() != scope.SetKey() && !scope.Owns(scope.OldSetKey())
  {
    var prefix := scope.KeyPrefix() + ":";
    assert scope.OldSetKey()[0] == 'n' && scope.SetKey()[0] == 's' && prefix[0] == 's';
  }

  lemma {:induction false} ClearKeepsTracking<V>(s: Server<V>, scope: Scope, now: int)
    requires scope.useSets && Tracking(s, scope)
    ensures Tracking(Cleared(s, scope, now).0, scope)
  {
    NamesDiffer(scope, "", "");
    forall k
      ensures k in Cleared(s, scope, now).0 ==> !scope.Owns(k) && k in s && Cleared(s, scope, now).0[k] == s[k]
    {
      ClearTakes(s, scope, now, k);
    }
  }

  /** The foreign steps that end tracking: what they leave under the set's key is a text, misses a key of the
      namespace or names another; or they leave something under a key of the namespace that is not tracked. */
  ghost predicate EndsTracking<V>(s: Server<V>, scope: Scope, action: Action<V>) {
    action.Foreign? &&
    if action.name == scope.SetKey() then
      action.cell.Str? || (exists k :: k in s && scope.Owns(k) && k !in action.cell.names) ||
        exists k :: k in action.cell.names && !scope.Owns(k)
    else action.cell != Members({}) && scope.Owns(action.name) && action.name !in Tracked(s, scope)
  }

  /** Exactly those steps end tracking. */
  lemma {:induction false} StepKeepsTrackingIff<V>(s: Server<V>, scope: Scope, action: Action<V>, now: int)
    requires scope.useSets && Tracking(s, scope)
    ensures Tracking(Perform(s, scope, action, now), scope) <==> !EndsTracking(s, scope, action)
  {
    NamesDiffer(scope, "", "");
    match action
    case Sets(write) => SetsKeepTracking(s, scope, [write], now);
    case SetsMany(writes) => SetsKeepTracking(s, scope, writes, now);
    case Deletes(key) => DeleteKeepsTracking(s, scope, key, now);
    case DeletesMany(keys) => DeletesKeepTracking(s, scope, keys, now);
    case Clears => ClearKeepsTracking(s, scope, now);
    case Expires(dropped) => ExpiryKeepsTracking(s, scope, dropped, now);
    case Foreign(name, cell) => ForeignKeepsTrackingIff(s, scope, name, cell, now);
  }

  lemma {:induction false} ExpiryKeepsTracking<V>(s: Server<V>, scope: Scope, dropped: set<string>, now: int)
    requires Tracking(s, scope)
    ensures Tracking(Perform(s, scope, Expires(dropped), now), scope)
  {
    hide Scope.SetKey, Scope.Owns;
    assert Tracked(Perform(s, scope, Expires(dropped), now), scope) == Tracked(s, scope);
  }

  lemma {:induction false} ForeignKeepsTrackingIff<V>(s: Server<V>, scope: Scope, name: string, cell: Cell<V>, now: int)
    requires scope.useSets && Tracking(s, scope)
    ensures Tracking(Perform(s, scope, Foreign(name, cell), now), scope) <==>
      !EndsTracking(s, scope, Foreign(name, cell))
  {
    NamesDiffer(scope, "", "");
    hide Scope.SetKey, Scope.Owns;
    var after := Perform(s, scope, Foreign(name, cell), now);
    if name != scope.SetKey() {
      assert Tracked(after, scope) == Tracked(s, scope);
      assert name in after <==> cell != Members({});
    } else if cell.Members? {
      assert Tracked(after, scope) == cell.names;
      forall k | scope.Owns(k)
        ensures k in after <==> k in s
      {
      }
    }
  }

  /** Neither the keys an adapter with the scope `other` stores nor its set have this name. */
  ghost predicate Avoids(other: Scope, name: string) {
    (forall key :: other.KeyName(key) != name) && IsData(other, name)
  }

  lemma {:induction false} SetsPassBy<V>(s: Server<V>, other: Scope, writes: seq<Write<V>>, now: int, name: string)
    requires Avoids(other, name)
    ensures var after := SetsInTurn(s, other, writes, now);
      (name in after <==> name in s) && (name in after ==> after[name] == s[name])
  {
    if writes == [] {
      NothingSet(s, other, now);
    } else {
      SetsPassBy(s, other, writes[..|writes| - 1], now, name);
    }
  }

  /** What an adapter sets and deletes changes only cells under its own keys and its set's key. */
  lemma {:induction false} StepPassesBy<V>(s: Server<V>, other: Scope, action: Action<V>, now: int, name: string)
    requires Avoids(other, name) && !action.Clears? && !action.Expires? && !action.Foreign?
    ensures var after := Perform(s, other, action, now);
      (name in after <==> name in s) && (name in after ==> after[name] == s[name])
  {
    hide Scope.KeyName, SetsInTurn, DeletesInTurn;
    match action
    case Sets(write) => SetsPassBy(s, other, [write], now, name);
    case SetsMany(writes) => SetsPassBy(s, other, writes, now, name);
    case Deletes(key) => DeleteOneTakes(s, other, key, now, name);
    case DeletesMany(keys) => DeletesInTurnAre(s, other, keys, now);
  }

  /** A harmless neighbour keeps a set complete that is not its own. */
  lemma {:induction false} NeighbourKeepsTracking<V>(s: Server<V>, mine: Scope, other: Scope, action: Action<V>,
      now: int)
    requires mine.useSets && Tracking(s, mine) && Spares(other, mine)
    requires !action.Clears? && !action.Expires? && !action.Foreign?
    ensures Tracking(Perform(s, other, action, now), mine)
  {
    hide Scope.KeyName, Scope.SetKey, Scope.Owns, Perform;
    var after := Perform(s, other, action, now);
    forall name | name == mine.SetKey() || mine.Owns(name)
      ensures (name in after <==> name in s) && (name in after ==> after[name] == s[name])
    {
      StepPassesBy(s, other, action, now, name);
    }
    assert Tracked(after, mine) == Tracked(s, mine);
  }

  /** The steps that leave the set of an adapter and the keys of its namespace to it: its own, those of harmless
      neighbours, and foreign ones that neither touch the set's key nor leave anything under a key of the namespace.
      A neighbour's `clear` deletes whatever its sets name: it is given by the foreign deletions it comes to. */
  ghost predicate LeavesAlone<V>(step: Step<V>, mine: Scope) {
    match step.action
    case Foreign(name, cell) => name != mine.SetKey() && (mine.Owns(name) ==> cell == Members({}))
    case Expires(_) => true
    case Clears => step.scope == mine
    case _ => step.scope == mine || Spares(step.scope, mine)
  }

  /** On a run of such steps every key of the namespace is tracked in every reachable state. */
  lemma {:induction false} RunKeepsTracking<V>(s: Server<V>, mine: Scope, steps: seq<Step<V>>)
    requires mine.useSets && Tracking(s, mine)
    requires forall i :: 0 <= i < |steps| ==> LeavesAlone(steps[i], mine)
    ensures Tracking(Run(s, steps), mine)
    decreases |steps|
  {
    hide Tracking, Perform, Spares, EndsTracking;
    if steps == [] {
    } else {
      forall i | 0 <= i < |steps[1..]|
        ensures LeavesAlone(steps[1..][i], mine)
      {
        assert steps[1..][i] == steps[i + 1];
      }
      StepLeavesTracking(s, mine, steps[0]);
      RunKeepsTracking(Perform(s, steps[0].scope, steps[0].action, steps[0].now), mine, steps[1..]);
    }
  }

  lemma {:induction false} StepLeavesTracking<V>(s: Server<V>, mine: Scope, step: Step<V>)
    requires mine.useSets && Tracking(s, mine) && LeavesAlone(step, mine)
    ensures Tracking(Perform(s, step.scope, step.action, step.now), mine)
  {
    hide Tracking, Spares;
    if step.scope == mine || step.action.Expires? || step.action.Foreign? {
      assert Perform(s, step.scope, step.action, step.now) == Perform(s, mine, step.action, step.now);
      StepKeepsTrackingIff(s, mine, step.action, step.now);
    } else {
      NeighbourKeepsTracking(s, mine, step.scope, step.action, step.now);
    }
  }

  /** After any such run, `clear` leaves no key of the namespace, and every other key but those the old-format set
      names and that set itself. */
  lemma {:induction false} ClearLeavesNone<V>(s: Server<V>, scope: Scope, steps: seq<Step<V>>, now: int, key: string)
    requires scope.useSets && Tracking(s, scope)
    requires forall i :: 0 <= i < |steps| ==> LeavesAlone(steps[i], scope)
    ensures var before := Run(s, steps);
      var former := if scope.namespace != "" then Names(before, scope.OldSetKey(), now) else {};
      && Cleared(before, scope, now).1
      && (scope.Owns(key) ==> key !in Cleared(before, scope, now).0)
      && (!scope.Owns(key) && key !in former && key != scope.SetKey() && key != scope.OldSetKey() ==>
            (key in Cleared(before, scope, now).0 <==> key in before))
  {
    RunKeepsTracking(s, scope, steps);
    ClearTakes(Run(s, steps), scope, now, key);
  }

  /** Once a text stands under the set's key, `clear` fails and leaves every key, whatever the state before. */
  lemma {:induction false} TextUnderSetKeyStopsClear<V>(s: Server<V>, scope: Scope, value: V, at: int, now: int)
    requires scope.useSets
    ensures var hit := Perform(s, scope, Foreign(scope.SetKey(), Str(value, None)), at);
      Cleared(hit, scope, now) == (hit, false)
  {
    NamesDiffer(scope, "", "");
  }

  lemma {:induction false} OneSet<V>(s: Server<V>, scope: Scope, key: string, value: V, now: int)
    ensures Perform(s, scope, Sets(Write(key, Some(value), None)), now) ==
      SetOne(s, scope, scope.KeyName(key), value, None, now)
  {
    var writes := [Write(key, Some(value), None)];
    assert writes[..1] == writes && writes[..0] == [];
    SetsAppend(s, scope, writes, 0, now);
    NothingSet(s, scope, now);
  }

  /** At an input: through namespace `a:b` a key is set, then `b` through namespace `a`. Tracking is lost, `clear`
      of `a:b` fails and the key stays. */
  lemma {:induction false} NeighbourStopsClear<V>(value: V, now: int)
    ensures var mine, other := Scope("a:b", true), Scope("a", true);
      var first := Perform(map[], mine, Sets(Write("k", Some(value), None)), now);
      var hit := Perform(first, other, Sets(Write("b", Some(value), None)), now);
      && Cleared(hit, mine, now) == (hit, false)
      && Live(hit, mine.KeyName("k"), now)
      && !Tracking(hit, mine)
  {
    var mine, other := Scope("a:b", true), Scope("a", true);
    SetKeyCollisions();
    NamesDiffer(mine, "k", "");
    OneSet<V>(map[], mine, "k", value, now);
    var first := Perform(map[], mine, Sets(Write("k", Some(value), None)), now);
    OneSet(first, other, "b", value, now);
    assert |mine.KeyName("k")| > |mine.SetKey()| > |other.SetKey()|;
  }

  /** The other way round: a key set through namespace `a:b` is one of namespace `a` that its set does not name.
      Tracking of `a` is lost, its `clear` goes through, and the key stays. */
  lemma {:induction false} NeighbourEscapesClear<V>(value: V, now: int)
    ensures var mine, other := Scope("a", true), Scope("a:b", true);
      var hit := Perform(map[], other, Sets(Write("k", Some(value), None)), now);
      && mine.KeyName("b:k") == other.KeyName("k")
      && Tracking<V>(map[], mine) && !Tracking(hit, mine)
      && Cleared(hit, mine, now).1
      && Live(Cleared(hit, mine, now).0, mine.KeyName("b:k"), now)
  {
    var mine, other := Scope("a", true), Scope("a:b", true);
    var name := mine.KeyName("b:k");
    assert name == "sets:a:b:k" == other.KeyName("k");
    NamesDiffer(mine, "b:k", "");
    OneSet<V>(map[], other, "k", value, now);
    assert |name| > |other.SetKey()| > |mine.SetKey()|;
    OldSetIsNotOwn(mine);
    OldSetIsNotOwn(other);
    var hit := Perform(map[], other, Sets(Write("k", Some(value), None)), now);
    assert mine.SetKey() !in hit;
    assert mine.OldSetKey()[0] == 'n' && name[0] == 's';
    assert mine.OldSetKey() !in hit;
  }

  /** Among other adapters, exactly the harmless neighbours never end tracking by a write. */
  lemma {:induction false} HarmlessIff<V(!new)>(mine: Scope, other: Scope, value: V)
    requires mine.useSets && other != mine
    ensures Spares(other, mine) <==>
      forall s, key, now :: Tracking(s, mine) ==>
        Tracking(Perform(s, other, Sets(Write(key, Some(value), None)), now), mine)
  {
    hide Tracking, Perform, Spares;
    if Spares(other, mine) {
      forall s, key, now | Tracking(s, mine)
        ensures Tracking(Perform(s, other, Sets(Write(key, Some(value), None)), now), mine)
      {
        NeighbourKeepsTracking(s, mine, other, Sets(Write(key, Some(value), None)), now);
      }
    } else {
      var key := WriteThatHits(mine, other, value);
    }
  }

  /** On an empty server some write through a neighbour that is not harmless ends tracking. */
  lemma {:induction false} WriteThatHits<V>(mine: Scope, other: Scope, value: V) returns (key: string)
    requires mine.useSets && other != mine && !Spares(other, mine)
    ensures Tracking<V>(map[], mine)
    ensures !Tracking(Perform(map[], other, Sets(Write(key, Some(value), None)), 0), mine)
  {
    key := "";
    if k :| other.KeyName(k) == mine.SetKey() || mine.Owns(other.KeyName(k)) { key := k; }
    OneSet<V>(map[], other, key, value, 0);
    NamesDiffer(mine, "", "");
    NamesDiffer(other, key, "");
    if other.useSets { SetKeysDiffer(mine, other); }
    hide Scope.KeyName, Scope.SetKey, Scope.Owns;
    assert mine.SetKey() !in SetOne(map[], other, other.KeyName(key), value, None, 0) ||
      other.KeyName(key) == mine.SetKey();
  }

  lemma {:induction false} SetKeysDiffer(mine: Scope, other: Scope)
    requires mine.useSets && other.useSets && other != mine
    ensures other.SetKey() != mine.SetKey()
  {
    var p, q := "sets:" + mine.namespace, "sets:" + other.namespace;
    assert p[5..] == mine.namespace && q[5..] == other.namespace;
  }

  // ---------- replies by stride ----------

  /** Where the reply to the j-th write or unlink stands: with tracking every second reply is the set's. */
  function ReplyAt(useSets: bool, j: nat): nat { if useSets then 2 * j else j }

  datatype Resolved<V> = Resolved(name: string, value: V, ttl: Option<int>, originalIndex: nat)

  function Folded<V>(s: Server<V>, scope: Scope, group: seq<Resolved<V>>, now: int): Server<V> {
    if group == [] then s
    else
      var last := group[|group| - 1];
      SetOne(Folded(s, scope, group[..|group| - 1], now), scope, last.name, last.value, last.ttl, now)
  }

  function WriteCommands<V>(scope: Scope, group: seq<Resolved<V>>): (commands: seq<Command<V>>)
    ensures |commands| == ReplyAt(scope.useSets, |group|)
  {
    if group == [] then []
    else
      var last := group[|group| - 1];
      WriteCommands(scope, group[..|group| - 1]) + [SetValue(last.name, last.value, last.ttl)] +
      if scope.useSets then [Track(scope.SetKey(), last.name)] else []
  }

  lemma {:induction false} ExecTwo<V>(s: Server<V>, commands: seq<Command<V>>, one: Command<V>, two: Command<V>,
      now: int)
    ensures var (before, replies) := Exec(s, commands, now);
      var (mid, first) := Execute(before, one, now);
      var (after, second) := Execute(mid, two, now);
      Exec(s, commands + [one] + [two], now) == (after, replies + [first] + [second])
  {
    ExecAppend(s, commands, one, now);
    ExecAppend(s, commands + [one], two, now);
  }

  /** One entry more in a write transaction: its reply comes after those of the entries before it. */
  lemma {:induction false} ExecOneWrite<V>(s: Server<V>, scope: Scope, group: seq<Resolved<V>>, now: int)
    requires group != []
    ensures var n := |group| - 1;
      var (before, replies) := Exec(s, WriteCommands(scope, group[..n]), now);
      var (after, more) := Exec(s, WriteCommands(scope, group), now);
      && after == SetOne(before, scope, group[n].name, group[n].value, group[n].ttl, now)
      && |replies| == ReplyAt(scope.useSets, n) < |more|
      && more[..|replies|] == replies
      && (more[|replies|] == Okay <==> Accepts(group[n].ttl))
  {
    hide Exec;
    var n := |group| - 1;
    var last := group[n];
    var earlier, write := WriteCommands(scope, group[..n]), SetValue(last.name, last.value, last.ttl);
    if scope.useSets {
      ExecTwo(s, earlier, write, Track(scope.SetKey(), last.name), now);
    } else {
      ExecAppend(s, earlier, write, now);
      assert earlier + [write] + [] == earlier + [write];
    }
  }

  /** The transaction of a group writes its entries one after the other, and the strided replies say which were
      accepted. */
  lemma {:induction false} ExecWrites<V>(s: Server<V>, scope: Scope, group: seq<Resolved<V>>, now: int)
    ensures var (after, replies) := Exec(s, WriteCommands(scope, group), now);
      && after == Folded(s, scope, group, now)
      && forall l :: 0 <= l < |group| ==> (replies[ReplyAt(scope.useSets, l)] == Okay <==> Accepts(group[l].ttl))
  {
    hide Exec, SetOne, WriteCommands, Accepts;
    if group == [] {
      NothingToWrite<V>(scope);
      EmptyExec(s, now);
    } else {
      var n := |group| - 1;
      ExecWrites(s, scope, group[..n], now);
      ExecOneWrite(s, scope, group, now);
      var replies := Exec(s, WriteCommands(scope, group[..n]), now).1;
      var more := Exec(s, WriteCommands(scope, group), now).1;
      forall l | 0 <= l < n
        ensures more[ReplyAt(scope.useSets, l)] == Okay <==> Accepts(group[l].ttl)
      {
        assert more[..|replies|][ReplyAt(scope.useSets, l)] == replies[ReplyAt(scope.useSets, l)];
        assert group[..n][l] == group[l];
      }
    }
  }

  lemma {:induction false} NothingToWrite<V>(scope: Scope)
    ensures WriteCommands<V>(scope, []) == []
  {
  }

  lemma {:induction false} FoldedAppend<V>(s: Server<V>, scope: Scope, group: seq<Resolved<V>>, one: Resolved<V>,
      now: int)
    ensures Folded(s, scope, group + [one], now) ==
      SetOne(Folded(s, scope, group, now), scope, one.name, one.value, one.ttl, now)
  {
    assert (group + [one])[..|group|] == group;
  }

  lemma {:induction false} SetsAppend<V>(s: Server<V>, scope: Scope, writes: seq<Write<V>>, i: nat, now: int)
    requires i < |writes|
    ensures SetsInTurn(s, scope, writes[..i + 1], now) ==
      if writes[i].value == None then SetsInTurn(s, scope, writes[..i], now)
      else SetOne(SetsInTurn(s, scope, writes[..i], now), scope, scope.KeyName(writes[i].key), writes[i].value.value,
        writes[i].ttl, now)
  {
    assert writes[..i + 1][..i] == writes[..i];
  }

  lemma {:induction false} NothingSet<V>(s: Server<V>, scope: Scope, now: int)
    ensures SetsInTurn(s, scope, [], now) == s
  {
  }

  lemma {:induction false} EmptyFold<V>(s: Server<V>, scope: Scope, now: int)
    ensures Folded(s, scope, [], now) == s
  {
  }

  lemma {:induction false} EmptyExec<V>(s: Server<V>, now: int)
    ensures Exec(s, [], now) == (s, [])
  {
  }

  function DeleteCommands<V>(scope: Scope, keys: seq<string>): (commands: seq<Command<V>>)
    ensures |commands| == ReplyAt(scope.useSets, |keys|)
  {
    if keys == [] then []
    else
      var name := scope.KeyName(keys[|keys| - 1]);
      DeleteCommands<V>(scope, keys[..|keys| - 1]) + [Unlink(name)] +
      if scope.useSets then [Untrack(scope.SetKey(), name)] else []
  }

  lemma {:induction false} DeleteOneCommands<V>(s: Server<V>, scope: Scope, name: string, now: int)
    ensures var (unlinked, reply) := Execute(s, Unlink(name), now);
      var (after, answer) := DeleteOne(s, scope, name, now);
      && after == (if scope.useSets then Execute(unlinked, Untrack(scope.SetKey(), name), now).0 else unlinked)
      && reply == Count(if answer then 1 else 0)
  {
  }

  /** The transaction of a chunk deletes its keys one after the other, and the strided replies are the answers. */
  lemma {:induction false} ExecDeletes<V>(s: Server<V>, scope: Scope, keys: seq<string>, now: int)
    ensures var (after, replies) := Exec(s, DeleteCommands(scope, keys), now);
      var (deleted, answers) := DeletesInTurn(s, scope, keys, now);
      && after == deleted
      && forall l :: 0 <= l < |keys| ==> replies[ReplyAt(scope.useSets, l)] == Count(if answers[l] then 1 else 0)
  {
    hide Exec, DeletesInTurn, DeleteOne, Execute, Scope.KeyName, Scope.SetKey;
    if keys == [] {
      EmptyExec(s, now);
      NothingDeleted(s, scope, now);
    } else {
      var n := |keys| - 1;
      assert keys == keys[..n] + [keys[n]];
      DeletesSnoc(s, scope, keys[..n], keys[n], now);
      var earlier := DeleteCommands<V>(scope, keys[..n]);
      var unlink: Command<V> := Unlink(scope.KeyName(keys[n]));
      ExecDeletes(s, scope, keys[..n], now);
      DeleteOneCommands(DeletesInTurn(s, scope, keys[..n], now).0, scope, scope.KeyName(keys[n]), now);
      if scope.useSets {
        var untrack: Command<V> := Untrack(scope.SetKey(), scope.KeyName(keys[n]));
        ExecTwo(s, earlier, unlink, untrack, now);
        assert DeleteCommands<V>(scope, keys) == earlier + [unlink] + [untrack];
      } else {
        ExecAppend(s, earlier, unlink, now);
        assert DeleteCommands<V>(scope, keys) == earlier + [unlink] + [] == earlier + [unlink];
      }
      hide DeleteCommands;
      assert DeletesInTurn(s, scope, keys, now).1[..n] == DeletesInTurn(s, scope, keys[..n], now).1;
    }
  }

  // ---------- the adapter ----------

  class StorelyValkey<V> {
    const scope: Scope
    var server: Server<V>

    constructor (scope: Scope, server: Server<V>)
      ensures this.scope == scope && this.server == server
    {
      this.scope, this.server := scope, server;
    }

    method Transaction(commands: seq<Command<V>>, now: int) returns (replies: seq<Reply>)
      modifies this`server
      ensures (server, replies) == Exec(old(server), commands, now)
    {
      replies := Exec(server, commands, now).1;
      server := Exec(server, commands, now).0;
    }

    /** `set`. With tracking the reply inside the transaction is not looked at. */
    method Set(key: string, value: Option<V>, ttl: Option<int>, now: int) returns (ok: bool)
      modifies this`server
      ensures server == SetsInTurn(old(server), scope, [Write(key, value, ttl)], now)
      ensures ok <==> value.Some? && (scope.useSets || Accepts(ttl))
    {
      assert [Write(key, value, ttl)][..0] == [];
      if value == None {
        return false;
      }
      var name := scope.KeyName(key);
      var write := SetValue(name, value.value, ttl);
      ExecAppend(server, [], write, now);
      assert [] + [write] == [write];
      if scope.useSets {
        ExecAppend(server, [write], Track(scope.SetKey(), name), now);
        assert [write] + [Track(scope.SetKey(), name)] == [write, Track(scope.SetKey(), name)];
        var _ := Transaction([write, Track(scope.SetKey(), name)], now);
        ok := true;
      } else {
        var replies := Transaction([write], now);
        ok := replies[0] == Okay;
      }
    }

    /** `setMany`: undefined values are skipped and reported true, the others true exactly if accepted. */
    method SetMany(entries: seq<Write<V>>, now: int) returns (results: seq<bool>)
      modifies this`server
      ensures server == SetsInTurn(old(server), scope, entries, now)
      ensures |results| == |entries|
      ensures forall i :: 0 <= i < |entries| ==> (results[i] <==> entries[i].value.Some? ==> Accepts(entries[i].ttl))
    {
      hide SetsInTurn, Folded, Accepts;
      ghost var before := server;
      var resolved, skipped := Resolve(before, entries, now);
      results := skipped;
      if resolved == [] {
        EmptyFold(before, scope, now);
        return;
      }
      var flags := WriteGroup(resolved, now);
      for j := 0 to |resolved|
        invariant |results| == |entries|
        invariant forall m :: 0 <= m < |entries| && entries[m].value == None ==> results[m]
        invariant forall l :: 0 <= l < j ==> (results[resolved[l].originalIndex] <==> Accepts(resolved[l].ttl))
      {
        results := results[resolved[j].originalIndex := flags[j]];
      }
    }

    /** The entries with a value, under their full names and with their positions; the others are done. */
    method Resolve(ghost s: Server<V>, entries: seq<Write<V>>, ghost now: int)
        returns (resolved: seq<Resolved<V>>, results: seq<bool>)
      ensures Folded(s, scope, resolved, now) == SetsInTurn(s, scope, entries, now)
      ensures |results| == |entries| && forall m :: 0 <= m < |entries| ==> (results[m] <==> entries[m].value == None)
      ensures forall j :: 0 <= j < |resolved| ==>
        resolved[j].originalIndex < |entries| && entries[resolved[j].originalIndex].value.Some? &&
        resolved[j].ttl == entries[resolved[j].originalIndex].ttl
      ensures forall j, l :: 0 <= j < l < |resolved| ==> resolved[j].originalIndex < resolved[l].originalIndex
      ensures forall m :: 0 <= m < |entries| && entries[m].value.Some? ==>
        exists j :: 0 <= j < |resolved| && resolved[j].originalIndex == m
    {
      hide SetOne, Folded, SetsInTurn;
      results := seq(|entries|, _ => false);
      resolved := [];
      EmptyFold(s, scope, now);
      NothingSet(s, scope, now);
      for i := 0 to |entries|
        invariant |results| == |entries|
        invariant forall m :: 0 <= m < |entries| ==> (results[m] <==> m < i && entries[m].value == None)
        invariant forall j :: 0 <= j < |resolved| ==>
          resolved[j].originalIndex < i && entries[resolved[j].originalIndex].value.Some? &&
          resolved[j].ttl == entries[resolved[j].originalIndex].ttl
        invariant forall j, l :: 0 <= j < l < |resolved| ==> resolved[j].originalIndex < resolved[l].originalIndex
        invariant forall m :: 0 <= m < i && entries[m].value.Some? ==>
          exists j :: 0 <= j < |resolved| && resolved[j].originalIndex == m
        invariant Folded(s, scope, resolved, now) == SetsInTurn(s, scope, entries[..i], now)
      {
        SetsAppend(s, scope, entries, i, now);
        if entries[i].value == None {
          results := results[i := true];
        } else {
          var one := Resolved(scope.KeyName(entries[i].key), entries[i].value.value, entries[i].ttl, i);
          FoldedAppend(s, scope, resolved, one, now);
          forall m | 0 <= m < i && entries[m].value.Some?
            ensures exists j :: 0 <= j < |resolved + [one]| && (resolved + [one])[j].originalIndex == m
          {
            var j :| 0 <= j < |resolved| && resolved[j].originalIndex == m;
            assert (resolved + [one])[j].originalIndex == m;
          }
          assert (resolved + [one])[|resolved|].originalIndex == i;
          resolved := resolved + [one];
        }
      }
      assert entries[..|entries|] == entries;
    }

    /** One transaction for a group; with tracking every second reply belongs to a write. */
    method WriteGroup(group: seq<Resolved<V>>, now: int) returns (flags: seq<bool>)
      modifies this`server
      ensures server == Folded(old(server), scope, group, now)
      ensures |flags| == |group|
      ensures forall j :: 0 <= j < |group| ==> (flags[j] <==> Accepts(group[j].ttl))
    {
      hide WriteCommands, Folded, Exec, Accepts;
      var commands := BuildWrites(group);
      ExecWrites(server, scope, group, now);
      var execResults := Transaction(commands, now);
      flags := [];
      for j := 0 to |group|
        invariant |flags| == j
        invariant forall l :: 0 <= l < j ==> (flags[l] <==> Accepts(group[l].ttl))
      {
        flags := flags + [execResults[ReplyAt(scope.useSets, j)] == Okay];
      }
    }

    method BuildWrites(group: seq<Resolved<V>>) returns (commands: seq<Command<V>>)
      ensures commands == WriteCommands(scope, group)
    {
      commands := [];
      for j := 0 to |group|
        invariant commands == WriteCommands(scope, group[..j])
      {
        assert group[..j + 1][..j] == group[..j];
        commands := commands + [SetValue(group[j].name, group[j].value, group[j].ttl)];
        if scope.useSets {
          commands := commands + [Track(scope.SetKey(), group[j].name)];
        }
      }
      assert group[..|group|] == group;
    }

    method Delete(key: string, now: int) returns (removed: bool)
      modifies this`server
      ensures (server, removed) == DeleteOne(old(server), scope, scope.KeyName(key), now)
    {
      var name := scope.KeyName(key);
      var unlink: Command<V> := Unlink(name);
      ExecAppend(server, [], unlink, now);
      assert [] + [unlink] == [unlink];
      if scope.useSets {
        ExecAppend(server, [unlink], Untrack(scope.SetKey(), name), now);
        assert [unlink] + [Untrack(scope.SetKey(), name)] == [unlink, Untrack(scope.SetKey(), name)];
        var r := Transaction([unlink, Untrack(scope.SetKey(), name)], now);
        removed := r[0].n > 0;
      } else {
        var r := Transaction([unlink], now);
        removed := r[0].n > 0;
      }
    }

    /** `deleteMany`: chunks of a thousand keys, each one transaction; the table and the answers are those of
        deleting one key at a time. */
    method DeleteMany(keys: seq<string>, now: int) returns (results: array<bool>)
      modifies this`server
      ensures fresh(results)
      ensures (server, results[..]) == DeletesInTurn(old(server), scope, keys, now)
    {
      hide DeletesInTurn;
      results := new bool[|keys|];
      var i := 0;
      NothingDeleted(server, scope, now);
      while i < |keys|
        invariant 0 <= i <= |keys|
        invariant (server, results[..i]) == DeletesInTurn(old(server), scope, keys[..i], now)
      {
        var end := if |keys| - i < 1000 then |keys| else i + 1000;
        ghost var done := results[..i];
        var chunk := keys[i..end];
        DeletesConcat(old(server), scope, keys[..i], chunk, now);
        assert keys[..i] + chunk == keys[..end];
        RunPipeline(chunk, i, results, now);
        assert results[..end] == done + results[i..i + |chunk|];
        i := end;
      }
      assert keys[..|keys|] == keys && results[..|keys|] == results[..];
    }

    method RunPipeline(chunk: seq<string>, first: nat, results: array<bool>, now: int)
      requires first + |chunk| <= results.Length
      modifies this`server, results
      ensures (server, results[first..first + |chunk|]) == DeletesInTurn(old(server), scope, chunk, now)
      ensures forall i :: 0 <= i < first ==> results[i] == old(results[i])
    {
      hide Exec, DeletesInTurn, DeleteCommands;
      var commands := BuildDeletes(chunk);
      ExecDeletes(server, scope, chunk, now);
      ghost var (after, answers) := DeletesInTurn(server, scope, chunk, now);
      var replies := Transaction(commands, now);
      ghost var before := results[..];
      for j := 0 to |chunk|
        invariant forall l :: 0 <= l < j ==> results[first + l] == answers[l]
        invariant forall i :: 0 <= i < first ==> results[i] == before[i]
        invariant server == after
      {
        var reply := replies[ReplyAt(scope.useSets, j)];
        results[first + j] := reply.n > 0;
      }
      assert results[first..first + |chunk|] == answers;
    }

    method BuildDeletes(chunk: seq<string>) returns (commands: seq<Command<V>>)
      ensures commands == DeleteCommands(scope, chunk)
    {
      commands := [];
      for j := 0 to |chunk|
        invariant commands == DeleteCommands(scope, chunk[..j])
      {
        assert chunk[..j + 1][..j] == chunk[..j];
        commands := commands + [Unlink(scope.KeyName(chunk[j]))];
        if scope.useSets {
          commands := commands + [Untrack(scope.SetKey(), scope.KeyName(chunk[j]))];
        }
      }
      assert chunk[..|chunk|] == chunk;
    }

    /** `clear` with tracking; false is a rejected SMEMBERS. */
    method Clear(now: int) returns (ok: bool)
      requires scope.useSets
      modifies this`server
      ensures (server, ok) == Cleared(old(server), scope, now)
    {
      var members := SMembers(scope.SetKey(), now);
      if members == None {
        return false;
      }
      if members.value != {} {
        server := server - members.value;
        server := server - {scope.SetKey()};
      }
      if scope.namespace != "" {
        var oldSetKey := scope.OldSetKey();
        var cell := Present(server, oldSetKey, now);
        if cell.Some? && cell.value.Members? {
          var oldMembers := SMembers(oldSetKey, now);
          if oldMembers.value != {} {
            server := server - oldMembers.value;
            server := server - {oldSetKey};
          }
          server := server - {oldSetKey};
        }
      }
      ok := true;
    }

    /** SMEMBERS: an error on a text. */
    method SMembers(list: string, now: int) returns (members: Option<set<string>>)
      ensures var cell := Present(server, list, now);
        members == if cell.Some? && cell.value.Str? then None else Some(Names(server, list, now))
    {
      members := match Present(server, list, now)
        case None => Some({})
        case Some(Members(names)) => Some(names)
        case Some(Str(_, _)) => None;
    }
  }
}
