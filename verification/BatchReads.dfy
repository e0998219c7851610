/** Checked batch reads of the core: what they answer, what their one deletion takes, and when they are single
    reads in turn. */
module BatchReads {
  import opened Texts
  import opened Storely
  import Sanitize

  type Rows = map<string, Raw>

  // ---------- a key on the rows of a store ----------

  function FoundIn(c: Config, m: Rows, key: string): Option<Envelope> {
    if key in m then DecodeRaw(c, m[key]).0 else None
  }

  predicate ExpiredIn(c: Config, m: Rows, key: string, now: int) {
    FoundIn(c, m, key).Some? && IsDataExpired(FoundIn(c, m, key).value, now)
  }

  function LiveValue(c: Config, m: Rows, key: string, now: int): Value {
    if ExpiredIn(c, m, key, now) then UNDEFINED else ValueOf(FoundIn(c, m, key))
  }

  /** A store that answers from its rows, which reads leave alone and a batch delete takes exactly as listed. */
  ghost predicate Plain<S(!new)>(a: Adapter<S>, rows: S -> Rows) {
    && RemovesListed(a, rows)
    && (forall s, k, now :: rows(a.read(s, k, now).0) == rows(s) &&
          a.read(s, k, now).1 == Returned(if k in rows(s) then rows(s)[k] else Absent))
    && (forall s, keys, now :: rows(a.readMany(s, keys, now).0) == rows(s) &&
          a.readMany(s, keys, now).1 == Returned(RowsAt(rows(s), keys)))
  }

  function RowsAt(m: Rows, keys: seq<string>): (r: seq<Raw>)
    ensures |r| == |keys|
  {
    seq(|keys|, i requires 0 <= i < |keys| => if keys[i] in m then m[keys[i]] else Absent)
  }

  // ---------- one batch ----------

  /** The keys of the rows a batch read finds expired. */
  function ExpiredAmong(c: Config, m: Rows, keys: seq<string>, now: int): set<string> {
    set k | k in keys && ExpiredIn(c, m, k, now)
  }

  function CleanedAgain(c: Config, keys: set<string>): set<string> {
    set k | k in keys :: Clean(c, k)
  }

  lemma {:induction false} ExpiredKeysAre(c: Config, m: Rows, keys: seq<string>, now: int)
    ensures forall k ::
      k in ExpiredKeys(keys, DecodeAll(c, RowsAt(m, keys)), now) <==> k in ExpiredAmong(c, m, keys, now)
  {
    if keys == [] {
    } else {
      var n := |keys| - 1;
      ExpiredKeysAre(c, m, keys[..n], now);
      assert DecodeAll(c, RowsAt(m, keys))[..n] == DecodeAll(c, RowsAt(m, keys[..n]));
      assert keys == keys[..n] + [keys[n]];
    }
  }

  /** A checked batch read answers every live key with its value, or its presence, and every other with nothing, and
      deletes the rows of the expired keys cleaned a second time. */
  lemma {:induction false} CheckedBatch<S(!new)>(c: Config, a: Adapter<S>, rows: S -> Rows, s: S, given: seq<string>,
      now: int)
    requires Plain(a, rows) && c.checkExpired
    ensures OneRowEach(a, s, CleanAll(c, given), now)
    ensures var m, keys, o := rows(s), CleanAll(c, given), FullGetMany(c, a, s, given, now);
      && o.result.Returned? && |o.result.value| == |given|
      && (forall i :: 0 <= i < |given| ==> o.result.value[i] == LiveValue(c, m, keys[i], now))
      && rows(o.store) == m - CleanedAgain(c, ExpiredAmong(c, m, keys, now))
    ensures var m, keys, o := rows(s), CleanAll(c, given), FullHasMany(c, a, s, given, now);
      && |o.result| == |given|
      && (forall i :: 0 <= i < |given| ==>
            (o.result[i] <==> FoundIn(c, m, keys[i]).Some? && !ExpiredIn(c, m, keys[i], now)))
      && o.store == FullGetMany(c, a, s, given, now).store
  {
    var m, keys := rows(s), CleanAll(c, given);
    var s' := a.readMany(s, keys, now).0;
    var expired := ExpiredKeys(keys, DecodeAll(c, RowsAt(m, keys)), now);
    ExpiredKeysAre(c, m, keys, now);
    assert (set k | k in CleanAll(c, expired)) == CleanedAgain(c, ExpiredAmong(c, m, keys, now)) by {
      forall i | 0 <= i < |expired|
        ensures CleanAll(c, expired)[i] in CleanedAgain(c, ExpiredAmong(c, m, keys, now))
      {
        assert expired[i] in expired;
      }
      forall k | k in expired
        ensures Clean(c, k) in CleanAll(c, expired)
      {
        var i :| 0 <= i < |expired| && expired[i] == k;
        assert CleanAll(c, expired)[i] == Clean(c, k);
      }
    }
    if expired == [] {
      assert CleanedAgain(c, ExpiredAmong(c, m, keys, now)) == {};
    } else {
      assert rows(DeleteExpired(c, a, s', expired, now).0) == m - CleanedAgain(c, ExpiredAmong(c, m, keys, now));
    }
  }

  /** That leaves the store without exactly the expired rows if and only if every expired key is also some expired
      key cleaned again, and cleaning the expired keys again hits no other row. */
  lemma {:induction false} CheckedBatchIsRightIff<S(!new)>(c: Config, a: Adapter<S>, rows: S -> Rows, s: S,
      given: seq<string>, now: int)
    requires Plain(a, rows) && c.checkExpired && OneRowEach(a, s, CleanAll(c, given), now)
    ensures var m, keys := rows(s), CleanAll(c, given);
      var expired := ExpiredAmong(c, m, keys, now);
      rows(FullGetMany(c, a, s, given, now).store) == m - expired <==>
        (forall k :: k in expired ==> exists l :: l in expired && Clean(c, l) == k) &&
        (forall l :: l in expired && Clean(c, l) in m ==> Clean(c, l) in expired)
  {
    CheckedBatch(c, a, rows, s, given, now);
    hide *;
    CleaningHits(c, rows(s), CleanAll(c, given), now);
  }

  lemma {:induction false} CleaningHits(c: Config, m: Rows, keys: seq<string>, now: int)
    ensures var expired := ExpiredAmong(c, m, keys, now);
      m - CleanedAgain(c, expired) == m - expired <==>
        (forall k :: k in expired ==> exists l :: l in expired && Clean(c, l) == k) &&
        (forall l :: l in expired && Clean(c, l) in m ==> Clean(c, l) in expired)
  {
    hide DecodeRaw, Clean;
    var expired := ExpiredAmong(c, m, keys, now);
    var again := CleanedAgain(c, expired);
    TakingEither(m, again, expired);
    assert forall l :: l in expired ==> Clean(c, l) in again;
  }

  lemma {:induction false} TakingEither<K, V>(m: map<K, V>, some: set<K>, others: set<K>)
    ensures m - some == m - others <==> forall k :: k in m ==> (k in some <==> k in others)
  {
    if m - some == m - others {
      forall k | k in m
        ensures k in some <==> k in others
      {
        assert k in m - some <==> k in m - others;
      }
    }
  }

  // ---------- single reads in turn ----------

  function GetsInTurn<S>(c: Config, a: Adapter<S>, s: S, given: seq<string>, now: int): (r: (S, seq<Value>))
    ensures |r.1| == |given|
  {
    if given == [] then (s, [])
    else
      var n := |given| - 1;
      var (before, values) := GetsInTurn(c, a, s, given[..n], now);
      var last := FullGet(c, a, before, given[n], now);
      (last.store, values + [last.result])
  }

  /** The rows that the first `n` of the single reads delete. */
  function Taken(c: Config, m: Rows, keys: seq<string>, now: int, n: nat): set<string>
    requires n <= |keys|
  {
    if n == 0 then {}
    else
      var earlier := Taken(c, m, keys, now, n - 1);
      var key := keys[n - 1];
      if key != "" && key !in earlier && ExpiredIn(c, m, key, now) then earlier + {Clean(c, key)} else earlier
  }

  lemma {:induction false} GetOnRows<S(!new)>(c: Config, a: Adapter<S>, rows: S -> Rows, s: S, given: string, now: int)
    requires Plain(a, rows) && c.checkExpired
    ensures var m, key, o := rows(s), Clean(c, given), FullGet(c, a, s, given, now);
      && o.result == (if key == "" then UNDEFINED else LiveValue(c, m, key, now))
      && rows(o.store) == if key != "" && ExpiredIn(c, m, key, now) then m - {Clean(c, key)} else m
  {
    var key := Clean(c, given);
    if key != "" && ExpiredIn(c, rows(s), key, now) { ExpiredReadDeletes(c, a, rows, s, given, now); }
  }

  lemma {:induction false} TakenPrefix(c: Config, m: Rows, keys: seq<string>, more: seq<string>, now: int, n: nat)
    requires n <= |keys| <= |more| && keys == more[..|keys|]
    ensures Taken(c, m, keys, now, n) == Taken(c, m, more, now, n)
  {
    if n == 0 {
    } else {
      TakenPrefix(c, m, keys, more, now, n - 1);
    }
  }

  /** In turn, a key is answered unless a read before it has deleted its row. */
  lemma {:induction false} GetsInTurnAre<S(!new)>(c: Config, a: Adapter<S>, rows: S -> Rows, s: S, given: seq<string>,
      now: int)
    requires Plain(a, rows) && c.checkExpired
    ensures var m, keys := rows(s), CleanAll(c, given);
      var (after, values) := GetsInTurn(c, a, s, given, now);
      && rows(after) == m - Taken(c, m, keys, now, |keys|)
      && forall i :: 0 <= i < |given| ==>
           values[i] ==
             if keys[i] == "" || keys[i] in Taken(c, m, keys, now, i) then UNDEFINED else LiveValue(c, m, keys[i], now)
  {
    hide FullGet, Plain, DecodeRaw;
    var m, keys := rows(s), CleanAll(c, given);
    if given == [] {
    } else {
      var n := |given| - 1;
      GetsInTurnAre(c, a, rows, s, given[..n], now);
      assert CleanAll(c, given[..n]) == keys[..n];
      forall i | 0 <= i <= n
        ensures Taken(c, m, keys[..n], now, i) == Taken(c, m, keys, now, i)
      {
        TakenPrefix(c, m, keys[..n], keys, now, i);
      }
      GetOnRows(c, a, rows, GetsInTurn(c, a, s, given[..n], now).0, given[n], now);
      var taken := Taken(c, m, keys, now, n);
      assert keys[n] in m - taken <==> keys[n] in m && keys[n] !in taken;
      assert m - taken - {Clean(c, keys[n])} == m - (taken + {Clean(c, keys[n])});
    }
  }

  /** A batch read answers as single reads in turn exactly if no key with a live value is empty or taken, in turn,
      by the deletion of an expired one listed before it. */
  lemma {:induction false} BatchIsGetsInTurnIff<S(!new)>(c: Config, a: Adapter<S>, rows: S -> Rows, s: S,
      given: seq<string>, now: int)
    requires Plain(a, rows) && c.checkExpired && OneRowEach(a, s, CleanAll(c, given), now)
    ensures var m, keys := rows(s), CleanAll(c, given);
      FullGetMany(c, a, s, given, now).result == Returned(GetsInTurn(c, a, s, given, now).1) <==>
        forall i :: 0 <= i < |keys| && LiveValue(c, m, keys[i], now) != UNDEFINED ==>
          keys[i] != "" && keys[i] !in Taken(c, m, keys, now, i)
  {
    hide FullGet, FullGetMany, Plain, DecodeRaw, GetsInTurn;
    CheckedBatch(c, a, rows, s, given, now);
    GetsInTurnAre(c, a, rows, s, given, now);
    var batch, inTurn := FullGetMany(c, a, s, given, now).result.value, GetsInTurn(c, a, s, given, now).1;
    if forall i :: 0 <= i < |given| ==> batch[i] == inTurn[i] {
      assert batch == inTurn;
    }
  }

  /** If cleaning changes no cleaned key and none is empty, answers and rows are the same. */
  lemma {:induction false} BatchIsGetsInTurn<S(!new)>(c: Config, a: Adapter<S>, rows: S -> Rows, s: S,
      given: seq<string>, now: int)
    requires Plain(a, rows) && c.checkExpired && OneRowEach(a, s, CleanAll(c, given), now)
    requires forall i :: 0 <= i < |given| ==>
      Clean(c, given[i]) != "" && Clean(c, Clean(c, given[i])) == Clean(c, given[i])
    ensures var batch, inTurn := FullGetMany(c, a, s, given, now), GetsInTurn(c, a, s, given, now);
      batch.result == Returned(inTurn.1) && rows(batch.store) == rows(inTurn.0)
  {
    hide FullGet, FullGetMany, Plain, DecodeRaw, GetsInTurn;
    var m, keys := rows(s), CleanAll(c, given);
    CheckedBatch(c, a, rows, s, given, now);
    GetsInTurnAre(c, a, rows, s, given, now);
    forall i | 0 <= i <= |keys|
      ensures Taken(c, m, keys, now, i) == ExpiredAmong(c, m, keys[..i], now)
    {
      TakenAreExpired(c, m, keys, now, i);
    }
    assert keys[..|keys|] == keys;
    BatchIsGetsInTurnIff(c, a, rows, s, given, now);
    assert CleanedAgain(c, ExpiredAmong(c, m, keys, now)) == ExpiredAmong(c, m, keys, now);
  }

  lemma {:induction false} TakenAreExpired(c: Config, m: Rows, keys: seq<string>, now: int, n: nat)
    requires n <= |keys| && forall i :: 0 <= i < |keys| ==> keys[i] != "" && Clean(c, keys[i]) == keys[i]
    ensures Taken(c, m, keys, now, n) == ExpiredAmong(c, m, keys[..n], now)
  {
    hide ExpiredIn, Clean;
    if n == 0 {
    } else {
      TakenAreExpired(c, m, keys, now, n - 1);
      assert keys[..n] == keys[..n - 1] + [keys[n - 1]];
    }
  }

  /** At an input: the batch of `-`, line break, `-x` and `x` answers `x` and deletes its live row; single reads in
      turn do not find it. */
  lemma {:induction false} BatchReturnsWhatItDeletes(value: Value, other: Value)
    requires other != UNDEFINED
    ensures var clean := (key: string) => Sanitize.ApplyPatterns(Sanitize.Patterns(true, false, true, false), key);
      var c := Config(None, None, None, Sanitizer(true, clean), true, None);
      var expired, live := Object(Envelope(value, Some(0.0))), Object(Envelope(other, None));
      var m, given := map["--x" := expired, "x" := live], ["-\n-x", "x"];
      && OneRowEach(MapAdapter(), m, CleanAll(c, given), 1)
      && FullGetMany(c, MapAdapter(), m, given, 1).result == Returned([UNDEFINED, other])
      && FullGetMany(c, MapAdapter(), m, given, 1).store == map["--x" := expired]
      && GetsInTurn(c, MapAdapter(), m, given, 1).1 == [UNDEFINED, UNDEFINED]
  {
    var clean := (key: string) => Sanitize.ApplyPatterns(Sanitize.Patterns(true, false, true, false), key);
    var c := Config(None, None, None, Sanitizer(true, clean), true, None);
    Sanitize.CleaningIsNotIdempotent();
    CleanX();
    hide Sanitize.ApplyPatterns, FullGetMany, GetsInTurn, MapAdapter;
    SecondIsTaken(c, value, other);
  }

  lemma {:induction false} SecondIsTaken(c: Config, value: Value, other: Value)
    requires c.checkExpired && other != UNDEFINED
    requires Clean(c, "-\n-x") == "--x" && Clean(c, "--x") == "x" && Clean(c, "x") == "x"
    ensures var expired, live := Object(Envelope(value, Some(0.0))), Object(Envelope(other, None));
      var m, given := map["--x" := expired, "x" := live], ["-\n-x", "x"];
      && OneRowEach(MapAdapter(), m, CleanAll(c, given), 1)
      && FullGetMany(c, MapAdapter(), m, given, 1).result == Returned([UNDEFINED, other])
      && FullGetMany(c, MapAdapter(), m, given, 1).store == map["--x" := expired]
      && GetsInTurn(c, MapAdapter(), m, given, 1).1 == [UNDEFINED, UNDEFINED]
  {
    var expired, live := Object(Envelope(value, Some(0.0))), Object(Envelope(other, None));
    var m, given := map["--x" := expired, "x" := live], ["-\n-x", "x"];
    hide FullGet, FullGetMany, GetsInTurn, Clean;
    var keys := CleanAll(c, given);
    assert keys == ["--x", "x"];
    MapIsPlain();
    CheckedBatch(c, MapAdapter(), s => s, m, given, 1);
    GetsInTurnAre(c, MapAdapter(), s => s, m, given, 1);
    assert ExpiredAmong(c, m, keys, 1) == {"--x"};
    assert CleanedAgain(c, {"--x"}) == {"x"};
    assert m - {"x"} == map["--x" := expired];
    assert Taken(c, m, keys, 1, 1) == {"x"};
    var batch := FullGetMany(c, MapAdapter(), m, given, 1).result.value;
    var inTurn := GetsInTurn(c, MapAdapter(), m, given, 1).1;
    assert batch == [batch[0], batch[1]] && inTurn == [inTurn[0], inTurn[1]];
  }

  lemma {:induction false} MapIsPlain()
    ensures Plain(MapAdapter(), s => s)
  {
  }

  lemma {:induction false} CleanX()
    ensures Sanitize.ApplyPatterns(Sanitize.Patterns(true, false, true, false), "x") == "x"
  {
    hide Sanitize.RemoveAll;
    Sanitize.RemoveAbsent("x", ";");
    Sanitize.RemoveAbsent("x", "--");
    Sanitize.RemoveAbsent("x", "/*");
    Sanitize.RemoveAbsent("x", "\0");
    Sanitize.RemoveAbsent("x", "\r");
    Sanitize.RemoveAbsent("x", "\n");
  }
}
