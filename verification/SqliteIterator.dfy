/** The keyset-paginated iterator of the SQLite adapter while other actors change the table between its pages. */
module SqliteIterator {
  import Division
  import opened Texts
  import opened SqliteTable

  /** The table and the clock at the moment of one page query. */
  datatype Snapshot = Snapshot(table: Table, now: int)

  /** What the iterator meets: `world(p)` is the snapshot of its query `p`, `None` when that query throws. Nothing
      relates one snapshot to the next. */
  type World = nat -> Option<Snapshot>

  datatype Status = Running | Ended | Failed

  /** The iterator between two queries: its cursor, what it has yielded, and the queries made. */
  datatype Cursor = Cursor(after: Option<string>, yielded: seq<(string, string)>, status: Status, queries: nat)

  function PageLimit(iterationLimit: int): (limit: nat)
    ensures limit > 0
  {
    if iterationLimit > 0 then iterationLimit else 10
  }

  /** One pass of the loop. */
  function Step(c: Cursor, world: World, ns: string, limit: nat): Cursor
    requires limit > 0
  {
    if c.status != Running then c
    else
      match world(c.queries)
      case None => c.(status := Failed, queries := c.queries + 1)
      case Some(s) =>
        var page := SelectPage(s.table, ns, c.after, s.now, limit);
        if |page| == 0 then c.(status := Ended, queries := c.queries + 1)
        else
          Cursor(Some(page[|page| - 1].0), c.yielded + page,
            if |page| < limit then Ended else Running, c.queries + 1)
  }

  /** The iterator after at most `n` queries. */
  function Run(world: World, ns: string, limit: nat, n: nat): Cursor
    requires limit > 0
  {
    if n == 0 then Cursor(None, [], Running, 0) else Step(Run(world, ns, limit, n - 1), world, ns, limit)
  }

  lemma {:induction false} RunUnfolds(world: World, ns: string, limit: nat, n: nat)
    requires limit > 0
    ensures Run(world, ns, limit, 0) == Cursor(None, [], Running, 0)
    ensures Run(world, ns, limit, n + 1) == Step(Run(world, ns, limit, n), world, ns, limit)
  {
  }

  function Live(world: World, p: nat, ns: string, key: string): Option<string> {
    match world(p)
    case None => None
    case Some(s) => Lookup(s.table, key, ns, s.now)
  }

  predicate Yielded(c: Cursor, key: string) {
    exists i :: 0 <= i < |c.yielded| && c.yielded[i].0 == key
  }

  predicate Ahead(c: Cursor, key: string) {
    c.after == None || Less(c.after.value, key)
  }

  /** Live at every query made so far. */
  predicate LiveThroughout(world: World, ns: string, key: string, queries: nat) {
    forall p :: 0 <= p < queries ==> Live(world, p, ns, key).Some?
  }

  /** Yielded keys increase strictly, and the cursor stands on the last of them. */
  predicate Ordered(c: Cursor) {
    (forall i, j :: 0 <= i < j < |c.yielded| ==> Less(c.yielded[i].0, c.yielded[j].0)) &&
    (if c.yielded == [] then c.after == None else c.after == Some(c.yielded[|c.yielded| - 1].0))
  }

  lemma {:induction false} StepOrdered(c: Cursor, world: World, ns: string, limit: nat)
    requires limit > 0 && Ordered(c)
    ensures Ordered(Step(c, world, ns, limit))
  {
    hide SelectPage, Less;
    if c.status == Running && world(c.queries).Some? {
      var s := world(c.queries).value;
      PageSpec(s.table, ns, c.after, s.now, limit);
      var page := SelectPage(s.table, ns, c.after, s.now, limit);
      forall i, j | 0 <= i < j < |c.yielded + page|
        ensures Less((c.yielded + page)[i].0, (c.yielded + page)[j].0)
      {
        if i < |c.yielded| <= j {
          var last := c.yielded[|c.yielded| - 1].0;
          assert Less(last, page[j - |c.yielded|].0);
          if i < |c.yielded| - 1 { LessIsTransitive(c.yielded[i].0, last, page[j - |c.yielded|].0); }
        }
      }
    }
  }

  /** The keys come out strictly increasing, so none is ever repeated, whatever happens in between. */
  lemma {:induction false} KeysIncrease(world: World, ns: string, limit: nat, n: nat)
    requires limit > 0
    ensures Ordered(Run(world, ns, limit, n))
  {
    if n == 0 {
    } else {
      KeysIncrease(world, ns, limit, n - 1);
      StepOrdered(Run(world, ns, limit, n - 1), world, ns, limit);
    }
  }

  /** A pass after which the iterator goes on has yielded a full page. */
  lemma {:induction false} FullStep(c: Cursor, world: World, ns: string, limit: nat)
    requires limit > 0
    ensures var d := Step(c, world, ns, limit);
      d.status == Running ==> c.status == Running && d.queries == c.queries + 1 && |d.yielded| == |c.yielded| + limit
  {
    hide SelectPage;
  }

  /** While it runs, every query so far has given a full page. */
  lemma {:induction false} FullPages(world: World, ns: string, limit: nat, n: nat)
    requires limit > 0 && Run(world, ns, limit, n).status == Running
    ensures var c := Run(world, ns, limit, n); c.queries == n && |c.yielded| == n * limit
  {
    hide Run, Step;
    if n == 0 {
      RunUnfolds(world, ns, limit, 0);
    } else {
      RunUnfolds(world, ns, limit, n - 1);
      FullStep(Run(world, ns, limit, n - 1), world, ns, limit);
      FullPages(world, ns, limit, n - 1);
      assert n * limit == (n - 1) * limit + limit;
    }
  }

  /** Every pair was live, with that value, when its own page was read: pair `i` by query `i / limit`. */
  lemma {:induction false} PairsWereLive(world: World, ns: string, limit: nat, n: nat, i: nat)
    requires limit > 0 && i < |Run(world, ns, limit, n).yielded|
    ensures var c := Run(world, ns, limit, n);
      i / limit < c.queries && Live(world, i / limit, ns, c.yielded[i].0) == Some(c.yielded[i].1)
  {
    hide SelectPage, Less, Run, Step;
    RunUnfolds(world, ns, limit, if n > 0 then n - 1 else 0);
    var b := Run(world, ns, limit, n - 1);
    StepYields(b, world, ns, limit, i);
    if i < |b.yielded| {
      PairsWereLive(world, ns, limit, n - 1, i);
    } else {
      FullPages(world, ns, limit, n - 1);
      PageOf(i, limit, n - 1);
    }
  }

  lemma {:induction false} PairWasLive(world: World, ns: string, limit: nat, n: nat, i: nat)
    requires limit > 0 && i < |Run(world, ns, limit, n).yielded|
    ensures var pair := Run(world, ns, limit, n).yielded[i]; exists p: nat :: Live(world, p, ns, pair.0) == Some(pair.1)
  {
    hide Run, Live;
    PairsWereLive(world, ns, limit, n, i);
  }

  /** A pass keeps the pairs so far; a new pair is live for its query, and at most a page of them comes. */
  lemma {:induction false} StepYields(c: Cursor, world: World, ns: string, limit: nat, i: nat)
    requires limit > 0
    ensures var d := Step(c, world, ns, limit);
      && c.queries <= d.queries
      && |c.yielded| <= |d.yielded|
      && (i < |c.yielded| ==> d.yielded[i] == c.yielded[i])
      && (|c.yielded| <= i < |d.yielded| ==>
            && c.status == Running && d.queries == c.queries + 1 && i < |c.yielded| + limit
            && Live(world, c.queries, ns, d.yielded[i].0) == Some(d.yielded[i].1))
  {
    hide SelectPage, Less;
    if c.status == Running && world(c.queries).Some? {
      var s := world(c.queries).value;
      PageSpec(s.table, ns, c.after, s.now, limit);
    }
  }

  lemma {:induction false} PageOf(i: nat, limit: nat, p: nat)
    requires p * limit <= i < p * limit + limit
    ensures i / limit == p
  {
    var q := i / limit;
    assert i == limit * q + i % limit;
    assert limit * (q - p) == i - p * limit - i % limit;
    Division.NotBetween(limit, q - p);
  }

  lemma {:induction false} StepCovers(c: Cursor, world: World, ns: string, limit: nat, key: string)
    requires limit > 0 && c.status == Running && Ordered(c)
    requires Live(world, c.queries, ns, key).Some?
    requires Yielded(c, key) || Ahead(c, key)
    ensures var d := Step(c, world, ns, limit);
      (Yielded(d, key) || (d.status == Running && Ahead(d, key))) && d.status != Failed
  {
    hide SelectPage, Less;
    var s := world(c.queries).value;
    PageSpec(s.table, ns, c.after, s.now, limit);
    var page := SelectPage(s.table, ns, c.after, s.now, limit);
    var d := Step(c, world, ns, limit);
    if Yielded(c, key) {
      var i :| 0 <= i < |c.yielded| && c.yielded[i].0 == key;
      assert d.yielded[i].0 == key;
    } else if i :| 0 <= i < |page| && page[i].0 == key {
      assert d.yielded[|c.yielded| + i].0 == key;
    } else {
      assert |page| == limit;
      assert Less(page[|page| - 1].0, key);
    }
  }

  /** A key live at every query is yielded or still lies ahead; once the iterator has ended it is yielded. */
  lemma {:induction false} LiveKeysAreCovered(world: World, ns: string, limit: nat, n: nat, key: string)
    requires limit > 0
    requires LiveThroughout(world, ns, key, Run(world, ns, limit, n).queries)
    ensures var c := Run(world, ns, limit, n);
      c.status != Failed && (Yielded(c, key) || (c.status == Running && Ahead(c, key)))
  {
    hide SelectPage, Less, Ordered, Live, Yielded;
    if n == 0 {
    } else {
      var b := Run(world, ns, limit, n - 1);
      assert b.queries <= Run(world, ns, limit, n).queries;
      LiveKeysAreCovered(world, ns, limit, n - 1, key);
      KeysIncrease(world, ns, limit, n - 1);
      if b.status == Running {
        StepCovers(b, world, ns, limit, key);
      }
    }
  }

  /** On a table nobody touches, a finished iteration yields exactly the live pairs. */
  lemma {:induction false} StillTableIsListed(world: World, ns: string, limit: nat, n: nat, s: Snapshot, key: string)
    requires limit > 0 && (forall p :: world(p) == Some(s))
    requires Run(world, ns, limit, n).status == Ended
    ensures Yielded(Run(world, ns, limit, n), key) <==> Lookup(s.table, key, ns, s.now).Some?
  {
    var c := Run(world, ns, limit, n);
    if Yielded(c, key) {
      var i :| 0 <= i < |c.yielded| && c.yielded[i].0 == key;
      PairWasLive(world, ns, limit, n, i);
    } else if Lookup(s.table, key, ns, s.now).Some? {
      assert LiveThroughout(world, ns, key, c.queries);
      LiveKeysAreCovered(world, ns, limit, n, key);
    }
  }

  // ---------- termination ----------

  /** Only keys of `universe` are ever in the namespace. */
  ghost predicate Confined(world: World, ns: string, universe: set<string>) {
    forall p: nat, key :: Live(world, p, ns, key).Some? ==> key in universe
  }

  lemma {:induction false} DistinctKeysFit(yielded: seq<(string, string)>, universe: set<string>)
    requires forall i, j :: 0 <= i < j < |yielded| ==> Less(yielded[i].0, yielded[j].0)
    requires forall i :: 0 <= i < |yielded| ==> yielded[i].0 in universe
    ensures |yielded| <= |universe|
    decreases yielded
  {
    if yielded == [] {
    } else {
      var n := |yielded| - 1;
      forall i | 0 <= i < n
        ensures yielded[i].0 != yielded[n].0
      {
        LessIsTotal(yielded[i].0, yielded[n].0);
      }
      DistinctKeysFit(yielded[..n], universe - {yielded[n].0});
    }
  }

  /** With finitely many keys the iterator still runs after `n` queries only if `n` full pages fit. */
  lemma {:induction false} RunningIsBounded(world: World, ns: string, limit: nat, n: nat, universe: set<string>)
    requires limit > 0 && Confined(world, ns, universe)
    requires Run(world, ns, limit, n).status == Running
    ensures n * limit <= |universe| && n <= |universe|
  {
    hide Run, Step, Live, Less;
    var c := Run(world, ns, limit, n);
    FullPages(world, ns, limit, n);
    KeysIncrease(world, ns, limit, n);
    forall i | 0 <= i < |c.yielded|
      ensures c.yielded[i].0 in universe
    {
      PairWasLive(world, ns, limit, n, i);
    }
    DistinctKeysFit(c.yielded, universe);
    assert n <= n * limit;
  }

  /** The loop of the adapter. It ends when only finitely many keys ever occur, after at most one query more
      than there are full pages of them. */
  method Iterate(world: World, ns: string, iterationLimit: int, ghost universe: set<string>)
    returns (yielded: seq<(string, string)>, failed: bool, queries: nat)
    requires Confined(world, ns, universe)
    ensures var c := Run(world, ns, PageLimit(iterationLimit), queries);
      c.yielded == yielded && c.queries == queries && c.status == if failed then Failed else Ended
    ensures (queries - 1) * PageLimit(iterationLimit) <= |universe|
  {
    hide SelectPage, Confined, Run;
    var limit := PageLimit(iterationLimit);
    var lastKey: Option<string> := None;
    yielded, failed, queries := [], false, 0;
    RunUnfolds(world, ns, limit, 0);
    while true
      invariant Run(world, ns, limit, queries) == Cursor(lastKey, yielded, Running, queries)
      decreases |universe| - queries
    {
      RunningIsBounded(world, ns, limit, queries, universe);
      RunUnfolds(world, ns, limit, queries);
      var answer := world(queries);
      queries := queries + 1;
      if answer == None {
        return yielded, true, queries;
      }
      var entries := SelectPage(answer.value.table, ns, lastKey, answer.value.now, limit);
      if |entries| == 0 {
        return yielded, false, queries;
      }
      yielded := yielded + entries;
      lastKey := Some(entries[|entries| - 1].0);
      if |entries| < limit {
        return yielded, false, queries;
      }
      RunningIsBounded(world, ns, limit, queries, universe);
    }
  }

  // ---------- without the bound it need not end ----------

  function Repeat(n: nat): string {
    if n == 0 then "" else Repeat(n - 1) + "a"
  }

  /** An actor that always inserts one key just past the cursor. */
  function Chaser(p: nat): Option<Snapshot> {
    Some(Snapshot(map[Id(Repeat(p + 1), "") := Row("v", None)], 0))
  }

  lemma {:induction false} LessThanLonger(a: string, b: string)
    requires b != ""
    ensures Less(a, a + b)
  {
    if a != "" {
      LessThanLonger(a[1..], b);
      assert (a + b)[1..] == a[1..] + b;
    } else {
      assert a + b == b;
    }
  }

  /** Against endless insertions past the cursor, a page size of one is never done. */
  lemma {:induction false} EndlessInsertionsAreChased(n: nat)
    ensures Run(Chaser, "", 1, n).status == Running && Run(Chaser, "", 1, n).queries == n
    ensures Run(Chaser, "", 1, n).after == if n == 0 then None else Some(Repeat(n))
  {
    hide SelectPage, Run, Less;
    if n == 0 {
      RunUnfolds(Chaser, "", 1, 0);
    } else {
      EndlessInsertionsAreChased(n - 1);
      RunUnfolds(Chaser, "", 1, n - 1);
      LessThanLonger(Repeat(n - 1), "a");
      OneRowPage(Repeat(n), Run(Chaser, "", 1, n - 1).after);
    }
  }

  lemma {:induction false} OneRowPage(key: string, after: Option<string>)
    requires after.Some? ==> Less(after.value, key)
    ensures SelectPage(map[Id(key, "") := Row("v", None)], "", after, 0, 1) == [(key, "v")]
  {
    hide SelectPage, Less;
    var t := map[Id(key, "") := Row("v", None)];
    PageSpec(t, "", after, 0, 1);
    var page := SelectPage(t, "", after, 0, 1);
    assert Lookup(t, key, "", 0) == Some("v");
    assert |page| == 1;
    assert Lookup(t, page[0].0, "", 0) == Some(page[0].1);
  }
}
