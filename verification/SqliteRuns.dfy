/** Whole runs over the SQLite table: removing expired rows is invisible, and batches are loops of single calls. */
module SqliteRuns {
  import opened Texts
  import opened SqliteTable
  import opened Sqlite

  // ---------- runs ----------

  /** A call of the adapter; keys are already stripped of their prefix, `Set` and `SetMany` are a list of writes. */
  datatype Op =
    | Get(key: string)
    | Has(key: string)
    | GetMany(keys: seq<string>)
    | HasMany(keys: seq<string>)
    | Page(after: Option<string>, limit: nat)
    | SetMany(writes: seq<Write>)
    | DeleteMany(keys: seq<string>)
    | Clear
    | ClearExpired

  /** A call through the adapter of some namespace at some time. */
  datatype Call = Call(ns: string, op: Op, now: int)

  /** What the caller sees, but for the booleans of deletes. */
  datatype Seen = Values(values: seq<Option<string>>) | Flags(flags: seq<bool>) | Rows(rows: seq<(string, string)>)
    | Done

  function See(t: Table, c: Call): Seen {
    match c.op
    case Get(k) => Values(Answers(t, [k], c.ns, c.now))
    case Has(k) => Flags(Lives(Answers(t, [k], c.ns, c.now)))
    case GetMany(ks) => Values(Answers(t, ks, c.ns, c.now))
    case HasMany(ks) => Flags(Lives(Answers(t, ks, c.ns, c.now)))
    case Page(after, limit) => Rows(SelectPage(t, c.ns, after, c.now, limit))
    case _ => Done
  }

  function Apply(t: Table, c: Call): Table {
    match c.op
    case Get(k) => Sweep(t, [k], c.ns, c.now)
    case Has(k) => Sweep(t, [k], c.ns, c.now)
    case GetMany(ks) => Sweep(t, ks, c.ns, c.now)
    case HasMany(ks) => Sweep(t, ks, c.ns, c.now)
    case Page(_, _) => t
    case SetMany(ws) => Upsert(t, ws, c.ns)
    case DeleteMany(ks) => DeleteIn(t, ks, c.ns)
    case Clear => DeleteNamespace(t, c.ns)
    case ClearExpired => DeleteExpired(t, c.now)
  }

  /** The calls that only read or purge: they may remove rows, but only expired ones. */
  predicate Quiet(op: Op) {
    op.Get? || op.Has? || op.GetMany? || op.HasMany? || op.Page? || op.ClearExpired?
  }

  function Observe(t: Table, script: seq<Call>): (seen: seq<Seen>)
    ensures |seen| == |script|
    decreases script
  {
    if script == [] then [] else [See(t, script[0])] + Observe(Apply(t, script[0]), script[1..])
  }

  function Final(t: Table, script: seq<Call>): Table
    decreases script
  {
    if script == [] then t else Final(Apply(t, script[0]), script[1..])
  }

  /** The clock never runs backwards. */
  predicate Monotone(script: seq<Call>, since: int) {
    script != [] ==> since <= script[0].now && Monotone(script[1..], script[0].now)
  }

  /** The elements at the positions marked to be kept. */
  function Kept<T>(s: seq<T>, keep: seq<bool>): seq<T>
    requires |s| == |keep|
  {
    if s == [] then [] else (if keep[0] then [s[0]] else []) + Kept(s[1..], keep[1..])
  }

  // ---------- tables that agree on live rows ----------

  function LiveRow(t: Table, id: Id, now: int): Option<Row> {
    if id in t && !Dead(t[id], now) then Some(t[id]) else None
  }

  ghost predicate SameLive(t: Table, u: Table, now: int) {
    forall id :: LiveRow(t, id, now) == LiveRow(u, id, now)
  }

  lemma {:induction false} SameLiveLater(t: Table, u: Table, now: int, later: int)
    requires SameLive(t, u, now) && now <= later
    ensures SameLive(t, u, later)
  {
    forall id
      ensures LiveRow(t, id, later) == LiveRow(u, id, later)
    {
      assert LiveRow(t, id, now) == LiveRow(u, id, now);
    }
  }

  lemma {:induction false} SameAnswers(t: Table, u: Table, keys: seq<string>, ns: string, now: int)
    requires SameLive(t, u, now)
    ensures Answers(t, keys, ns, now) == Answers(u, keys, ns, now)
  {
    forall i | 0 <= i < |keys|
      ensures Lookup(t, keys[i], ns, now) == Lookup(u, keys[i], ns, now)
    {
      assert LiveRow(t, Id(keys[i], ns), now) == LiveRow(u, Id(keys[i], ns), now);
    }
  }

  lemma {:induction false} SamePage(t: Table, u: Table, ns: string, after: Option<string>, now: int, limit: nat)
    requires SameLive(t, u, now)
    ensures SelectPage(t, ns, after, now, limit) == SelectPage(u, ns, after, now, limit)
  {
    hide LiveAfter, Ascending;
    LiveAfterFollows(t, u, ns, after, now);
    LiveAfterFollows(u, t, ns, after, now);
    var live := LiveAfter(t, ns, after, now);
    assert live == LiveAfter(u, ns, after, now);
    assert forall k :: k in Ascending(live) ==> k in live;
  }

  lemma {:induction false} LiveAfterFollows(t: Table, u: Table, ns: string, after: Option<string>, now: int)
    requires SameLive(t, u, now)
    ensures LiveAfter(t, ns, after, now) <= LiveAfter(u, ns, after, now)
    ensures forall k :: k in LiveAfter(t, ns, after, now) ==>
      Id(k, ns) in t && Id(k, ns) in u && t[Id(k, ns)] == u[Id(k, ns)]
  {
    forall k | k in LiveAfter(t, ns, after, now)
      ensures k in LiveAfter(u, ns, after, now) && Id(k, ns) in t && Id(k, ns) in u && t[Id(k, ns)] == u[Id(k, ns)]
    {
      assert LiveRow(t, Id(k, ns), now) == LiveRow(u, Id(k, ns), now);
      assert Id(k, ns) in u && Id(k, ns).key == k;
    }
  }

  /** Tables that agree on live rows look the same to every call. */
  lemma {:induction false} SameSeen(t: Table, u: Table, c: Call)
    requires SameLive(t, u, c.now)
    ensures See(t, c) == See(u, c)
  {
    hide SelectPage, Answers, SameLive;
    match c.op
    case Get(k) => SameAnswers(t, u, [k], c.ns, c.now);
    case Has(k) => SameAnswers(t, u, [k], c.ns, c.now);
    case GetMany(ks) => SameAnswers(t, u, ks, c.ns, c.now);
    case HasMany(ks) => SameAnswers(t, u, ks, c.ns, c.now);
    case Page(after, limit) => SamePage(t, u, c.ns, after, c.now, limit);
    case _ =>
  }

  lemma {:induction false} UpsertSameLive(t: Table, u: Table, writes: seq<Write>, ns: string, now: int)
    requires SameLive(t, u, now)
    ensures SameLive(Upsert(t, writes, ns), Upsert(u, writes, ns), now)
  {
    if writes == [] {
    } else {
      var front := writes[..|writes| - 1];
      UpsertSameLive(t, u, front, ns, now);
      forall id
        ensures LiveRow(Upsert(t, writes, ns), id, now) == LiveRow(Upsert(u, writes, ns), id, now)
      {
        assert LiveRow(Upsert(t, front, ns), id, now) == LiveRow(Upsert(u, front, ns), id, now);
      }
    }
  }

  /** Every call keeps tables that agree on live rows in agreement. */
  lemma {:induction false} ApplySameLive(t: Table, u: Table, c: Call)
    requires SameLive(t, u, c.now)
    ensures SameLive(Apply(t, c), Apply(u, c), c.now)
  {
    if c.op.SetMany? {
      UpsertSameLive(t, u, c.op.writes, c.ns, c.now);
    } else {
      forall id
        ensures LiveRow(Apply(t, c), id, c.now) == LiveRow(Apply(u, c), id, c.now)
      {
        assert LiveRow(t, id, c.now) == LiveRow(u, id, c.now);
      }
    }
  }

  /** A quiet call removes only rows that are already dead. */
  lemma {:induction false} QuietSameLive(t: Table, c: Call)
    requires Quiet(c.op)
    ensures SameLive(Apply(t, c), t, c.now)
  {
  }

  lemma {:induction false} SameLiveTransitive(t: Table, u: Table, v: Table, now: int)
    requires SameLive(t, u, now) && SameLive(u, v, now)
    ensures SameLive(t, v, now)
  {
    forall id
      ensures LiveRow(t, id, now) == LiveRow(v, id, now)
    {
      assert LiveRow(t, id, now) == LiveRow(u, id, now);
    }
  }

  /** The time of the last call. */
  function End(script: seq<Call>, since: int): int {
    if script == [] then since else End(script[1..], script[0].now)
  }

  lemma {:induction false} SimulateRun(t: Table, u: Table, script: seq<Call>, keep: seq<bool>, since: int)
    requires |keep| == |script| && Monotone(script, since) && SameLive(t, u, since)
    requires forall i :: 0 <= i < |script| ==> keep[i] || Quiet(script[i].op)
    ensures Kept(Observe(t, script), keep) == Observe(u, Kept(script, keep))
    ensures SameLive(Final(t, script), Final(u, Kept(script, keep)), End(script, since))
    decreases script
  {
    hide SameLive, Apply, See;
    if script == [] {
    } else {
      var c := script[0];
      SameLiveLater(t, u, since, c.now);
      var t' := Apply(t, c);
      var seen := Observe(t, script);
      assert seen[1..] == Observe(t', script[1..]);
      if keep[0] {
        SameSeen(t, u, c);
        ApplySameLive(t, u, c);
        SimulateRun(t', Apply(u, c), script[1..], keep[1..], c.now);
        var kept := Kept(script, keep);
        assert kept[0] == c && kept[1..] == Kept(script[1..], keep[1..]);
      } else {
        QuietSameLive(t, c);
        SameLiveTransitive(t', t, u, c.now);
        SimulateRun(t', u, script[1..], keep[1..], c.now);
        assert Kept(script, keep) == Kept(script[1..], keep[1..]);
        assert Kept(seen, keep) == Kept(seen[1..], keep[1..]);
      }
    }
  }

  /** Purges and reads are invisible over whole runs: dropping any of them, wherever they stand, changes
      nothing that any other call sees. The iterator sees the table through its pages only. */
  lemma {:induction false} PurgesAndReadsAreInvisible(t: Table, script: seq<Call>, keep: seq<bool>, since: int)
    requires |keep| == |script| && Monotone(script, since)
    requires forall i :: 0 <= i < |script| ==> keep[i] || Quiet(script[i].op)
    ensures Kept(Observe(t, script), keep) == Observe(t, Kept(script, keep))
    ensures SameLive(Final(t, script), Final(t, Kept(script, keep)), End(script, since))
  {
    SimulateRun(t, t, script, keep, since);
  }

  /** Only the booleans of deletes can tell the tables apart, and only for a key that is dead in both. */
  lemma {:induction false} DeletesDifferOnlyOnDead(t: Table, u: Table, keys: seq<string>, ns: string, now: int, i: nat)
    requires SameLive(t, u, now) && i < |keys|
    requires Presence(t, keys, ns)[i] != Presence(u, keys, ns)[i]
    ensures Lookup(t, keys[i], ns, now) == Lookup(u, keys[i], ns, now) == None
  {
    assert LiveRow(t, Id(keys[i], ns), now) == LiveRow(u, Id(keys[i], ns), now);
  }

  /** They do differ: a purge before a delete of an expired row changes its answer. */
  lemma {:induction false} DeleteCanTell()
    ensures exists t: Table, key: string, now: int ::
      Presence(t, [key], "")[0] && !Presence(DeleteExpired(t, now), [key], "")[0]
  {
    var t: Table := map[Id("k", "") := Row("v", Some(1.0))];
    assert Presence(t, ["k"], "")[0] && !Presence(DeleteExpired(t, 2), ["k"], "")[0];
  }

  // ---------- a lazy delete that comes late ----------

  /** What the calls of a script leave of a row in the end: untouched, removed, or written last. */
  datatype Fate = Untouched | Removed | Written(row: Row)

  function LastWrite(writes: seq<Write>, key: string): Option<Row> {
    if writes == [] then None
    else
      var last := writes[|writes| - 1];
      if last.key == key then Some(last.row) else LastWrite(writes[..|writes| - 1], key)
  }

  function CallFate(c: Call, id: Id): Fate {
    if c.ns != id.ns then Untouched
    else
      match c.op
      case SetMany(ws) => (match LastWrite(ws, id.key) case None => Untouched case Some(row) => Written(row))
      case DeleteMany(ks) => if id.key in ks then Removed else Untouched
      case Clear => Removed
      case _ => Untouched
  }

  function FateIn(script: seq<Call>, id: Id): Fate {
    if script == [] then Untouched
    else if FateIn(script[1..], id) != Untouched then FateIn(script[1..], id)
    else CallFate(script[0], id)
  }

  /** The row a fate leaves live. */
  function FateRow(fate: Fate, before: Option<Row>, now: int): Option<Row> {
    match fate
    case Untouched => before
    case Removed => None
    case Written(row) => if Dead(row, now) then None else Some(row)
  }

  lemma {:induction false} UpsertRow(t: Table, writes: seq<Write>, ns: string, id: Id)
    ensures var u := Upsert(t, writes, ns);
      var row := if ns == id.ns then LastWrite(writes, id.key) else None;
      (id in u <==> row.Some? || id in t) && (id in u ==> u[id] == if row.Some? then row.value else t[id])
  {
    if writes == [] {
    } else {
      UpsertRow(t, writes[..|writes| - 1], ns, id);
    }
  }

  lemma {:induction false} CallDecides(t: Table, c: Call, id: Id, later: int)
    requires c.now <= later
    ensures LiveRow(Apply(t, c), id, later) == FateRow(CallFate(c, id), LiveRow(t, id, later), later)
  {
    if c.op.SetMany? { UpsertRow(t, c.op.writes, c.ns, id); }
  }

  lemma {:induction false} EndIsLast(script: seq<Call>, since: int)
    requires Monotone(script, since)
    ensures since <= End(script, since)
  {
    if script == [] {
    } else {
      EndIsLast(script[1..], script[0].now);
    }
  }

  /** The last call that touches a row decides whether it is live in the end. */
  lemma {:induction false} FateDecides(t: Table, script: seq<Call>, since: int, id: Id, later: int)
    requires Monotone(script, since) && End(script, since) <= later
    ensures LiveRow(Final(t, script), id, later) == FateRow(FateIn(script, id), LiveRow(t, id, later), later)
    decreases script
  {
    hide LiveRow, Apply, CallFate;
    if script == [] {
    } else {
      EndIsLast(script[1..], script[0].now);
      CallDecides(t, script[0], id, later);
      FateDecides(Apply(t, script[0]), script[1..], script[0].now, id, later);
    }
  }

  /** The calls end with a write of the row that is still live. */
  predicate LeftAlive(script: seq<Call>, id: Id, now: int) {
    FateIn(script, id).Written? && !Dead(FateIn(script, id).row, now)
  }

  /** The keys a read finds expired. */
  predicate FoundDead(t: Table, key: string, ns: string, now: int) {
    Id(key, ns) in t && Dead(t[Id(key, ns)], now)
  }

  lemma {:induction false} LateDeleteSameLiveIff(t: Table, keys: seq<string>, ns: string, since: int,
      script: seq<Call>, now: int)
    requires Monotone(script, since) && End(script, since) <= now
    ensures var u := Final(t, script);
      SameLive(DropDead(t, u, keys, ns, since), u, now) <==>
        forall k :: k in keys && FoundDead(t, k, ns, since) ==> !LeftAlive(script, Id(k, ns), now)
  {
    hide LeftAlive, LiveRow;
    EndIsLast(script, since);
    var u := Final(t, script);
    forall k | k in keys && FoundDead(t, k, ns, since)
      ensures LiveRow(u, Id(k, ns), now).Some? <==> LeftAlive(script, Id(k, ns), now)
    {
      DeadStays(t, k, ns, since, script, now);
    }
    var after := DropDead(t, u, keys, ns, since);
    forall id
      ensures LiveRow(after, id, now) ==
        if id.ns == ns && id.key in keys && FoundDead(t, id.key, ns, since) then None else LiveRow(u, id, now)
    {
      DroppedRow(t, u, keys, ns, since, id, now);
    }
    if k :| k in keys && FoundDead(t, k, ns, since) && LeftAlive(script, Id(k, ns), now) {
      assert LiveRow(after, Id(k, ns), now) != LiveRow(u, Id(k, ns), now);
    }
  }

  lemma {:induction false} DroppedRow(t: Table, u: Table, keys: seq<string>, ns: string, since: int, id: Id, now: int)
    ensures LiveRow(DropDead(t, u, keys, ns, since), id, now) ==
      if id.ns == ns && id.key in keys && FoundDead(t, id.key, ns, since) then None else LiveRow(u, id, now)
  {
    assert Id(id.key, id.ns) == id;
  }

  lemma {:induction false} DeadStays(t: Table, key: string, ns: string, since: int, script: seq<Call>, now: int)
    requires Monotone(script, since) && End(script, since) <= now && FoundDead(t, key, ns, since)
    ensures LiveRow(Final(t, script), Id(key, ns), now).Some? <==> LeftAlive(script, Id(key, ns), now)
  {
    EndIsLast(script, since);
    FateDecides(t, script, since, Id(key, ns), now);
  }

  /** A read sends its DELETE after its SELECT, and any calls may run in between. No later call, whatever it is,
      can tell that the DELETE was sent, exactly when those calls do not end with a still live write of a key the
      SELECT found expired. */
  lemma {:induction false} LateDeleteInvisibleIff(t: Table, keys: seq<string>, ns: string, since: int,
      script: seq<Call>, now: int)
    requires Monotone(script, since) && End(script, since) <= now
    ensures var u := Final(t, script);
      (forall later :: Monotone(later, now) ==>
        Observe(DropDead(t, u, keys, ns, since), later) == Observe(u, later)) <==>
        forall k :: k in keys && FoundDead(t, k, ns, since) ==> !LeftAlive(script, Id(k, ns), now)
  {
    hide SameLive, Observe, LeftAlive, FoundDead;
    var u := Final(t, script);
    var after := DropDead(t, u, keys, ns, since);
    LateDeleteSameLiveIff(t, keys, ns, since, script, now);
    if SameLive(after, u, now) {
      forall later | Monotone(later, now)
        ensures Observe(after, later) == Observe(u, later)
      {
        SimulateRun(after, u, later, seq(|later|, _ => true), now);
        AllKept(later);
        AllKept(Observe(after, later));
      }
    } else {
      DifferenceIsSeen(after, u, now);
    }
  }

  lemma {:induction false} AllKept<T>(s: seq<T>)
    ensures Kept(s, seq(|s|, _ => true)) == s
  {
    if s == [] {
    } else {
      AllKept(s[1..]);
      assert seq(|s|, _ => true)[1..] == seq(|s[1..]|, _ => true);
      assert s == [s[0]] + s[1..];
    }
  }

  /** Tables that differ in a live value, and only by leaving rows out, are told apart by a `get`. */
  lemma {:induction false} DifferenceIsSeen(t: Table, u: Table, now: int)
    requires !SameLive(t, u, now) && forall id :: id in t ==> id in u && t[id] == u[id]
    ensures exists later :: Monotone(later, now) && Observe(t, later) != Observe(u, later)
  {
    var id :| LiveRow(t, id, now) != LiveRow(u, id, now);
    var later := [Call(id.ns, Get(id.key), now)];
    assert Id(id.key, id.ns) == id;
    assert Answers(t, [id.key], id.ns, now)[0] != Answers(u, [id.key], id.ns, now)[0];
    assert Observe(t, later)[0] == See(t, later[0]) && Observe(u, later)[0] == See(u, later[0]);
    assert Monotone(later, now) by { assert later[1..] == []; }
  }

  /** At an input: the row of `k` is expired, another actor sets `k` anew, and the late DELETE takes the new row. */
  lemma {:induction false} LateDeleteLosesWrite()
    ensures var t: Table := map[Id("k", "") := Row("old", Some(1.0))];
      var script := [Call("", SetMany([Write("k", Row("new", None))]), 2)];
      var u := Final(t, script);
      && Lookup(u, "k", "", 2) == Some("new")
      && Lookup(DropDead(t, u, ["k"], "", 2), "k", "", 2) == None
  {
    var t: Table := map[Id("k", "") := Row("old", Some(1.0))];
    var writes := [Write("k", Row("new", None))];
    var script := [Call("", SetMany(writes), 2)];
    assert writes[..0] == [] && script[1..] == [];
    assert Final(t, script) == Apply(t, script[0]) == t[Id("k", "") := Row("new", None)];
  }

  // ---------- batches are loops of single calls ----------

  /** The answers and the table after one `get` at a time. */
  function GetsInTurn(t: Table, keys: seq<string>, ns: string, now: int): (seq<Option<string>>, Table) {
    if keys == [] then ([], t)
    else
      var n := |keys| - 1;
      var (answers, u) := GetsInTurn(t, keys[..n], ns, now);
      (answers + [Lookup(u, keys[n], ns, now)], Sweep(u, [keys[n]], ns, now))
  }

  lemma {:induction false} GetManyIsGetsInTurn(t: Table, keys: seq<string>, ns: string, now: int)
    ensures GetsInTurn(t, keys, ns, now) == (Answers(t, keys, ns, now), Sweep(t, keys, ns, now))
  {
    if keys == [] {
      assert Sweep(t, keys, ns, now) == t;
    } else {
      var n := |keys| - 1;
      GetManyIsGetsInTurn(t, keys[..n], ns, now);
      assert Lookup(Sweep(t, keys[..n], ns, now), keys[n], ns, now) == Lookup(t, keys[n], ns, now);
      assert Answers(t, keys, ns, now) == Answers(t, keys[..n], ns, now) + [Lookup(t, keys[n], ns, now)];
      SweepSplit(t, keys[..n], [keys[n]], ns, now);
      assert keys == keys[..n] + [keys[n]];
    }
  }

  /** The booleans and the table after one `delete` at a time. */
  function DeletesInTurn(t: Table, keys: seq<string>, ns: string): (seq<bool>, Table) {
    if keys == [] then ([], t)
    else
      var n := |keys| - 1;
      var (flags, u) := DeletesInTurn(t, keys[..n], ns);
      (flags + [Id(keys[n], ns) in u], DeleteIn(u, [keys[n]], ns))
  }

  /** A key counts again in a batch, but only the first time one by one; the table is the same. */
  lemma {:induction false} DeletesInTurnAre(t: Table, keys: seq<string>, ns: string)
    ensures var (flags, u) := DeletesInTurn(t, keys, ns);
      && u == DeleteIn(t, keys, ns)
      && |flags| == |keys|
      && forall i :: 0 <= i < |keys| ==> flags[i] == (Id(keys[i], ns) in t && keys[i] !in keys[..i])
  {
    if keys == [] {
      assert DeleteIn(t, keys, ns) == t;
    } else {
      var n := |keys| - 1;
      var front := keys[..n];
      DeletesInTurnAre(t, front, ns);
      assert keys == front + [keys[n]];
      assert DeleteIn(DeleteIn(t, front, ns), [keys[n]], ns) == DeleteIn(t, keys, ns);
      forall i | 0 <= i < n
        ensures keys[..i] == front[..i]
      {
      }
    }
  }

  /** `deleteMany` answers like deletes in turn exactly when no key of a present row is listed twice. */
  lemma {:induction false} DeleteManyIsDeletesInTurnIff(t: Table, keys: seq<string>, ns: string)
    ensures DeletesInTurn(t, keys, ns).1 == DeleteIn(t, keys, ns)
    ensures DeletesInTurn(t, keys, ns).0 == Presence(t, keys, ns) <==>
      forall i, j :: 0 <= i < j < |keys| && Id(keys[i], ns) in t ==> keys[i] != keys[j]
  {
    DeletesInTurnAre(t, keys, ns);
    var flags, batch := DeletesInTurn(t, keys, ns).0, Presence(t, keys, ns);
    if flags == batch {
      forall i, j | 0 <= i < j < |keys| && Id(keys[i], ns) in t
        ensures keys[i] != keys[j]
      {
        assert flags[j] == batch[j];
        assert keys[..j][i] == keys[i];
      }
    } else {
      var j :| 0 <= j < |keys| && flags[j] != batch[j];
      var i :| 0 <= i < j && keys[..j][i] == keys[j];
      assert keys[i] == keys[j] && Id(keys[i], ns) in t;
    }
  }

  /** At an input: a key listed twice counts twice in a batch and once in turn. */
  lemma {:induction false} RepeatedKeyCountsTwice(row: Row)
    ensures var t: Table, keys := map[Id("k", "") := row], ["k", "k"];
      Presence(t, keys, "") == [true, true] && DeletesInTurn(t, keys, "").0 == [true, false]
  {
    var t: Table, keys := map[Id("k", "") := row], ["k", "k"];
    DeletesInTurnAre(t, keys, "");
    var flags := DeletesInTurn(t, keys, "").0;
    assert flags == [flags[0], flags[1]];
    assert keys[..1][0] == "k";
  }

  /** `setMany` with every chunk through is one `set` at a time, whatever the chunks. */
  lemma {:induction false} SetManyIsSetsInTurn(t: Table, entries: seq<Entry>, e: Entry, ns: Option<string>)
    ensures Upsert(t, WritesOf(entries + [e], ns), NamespaceValue(ns)) ==
      Upsert(Upsert(t, WritesOf(entries, ns), NamespaceValue(ns)), [WriteOf(e, ns)], NamespaceValue(ns))
  {
    hide WriteOf;
    assert WritesOf(entries + [e], ns) == WritesOf(entries, ns) + [WriteOf(e, ns)];
    UpsertAppend(t, WritesOf(entries, ns), [WriteOf(e, ns)], NamespaceValue(ns));
  }
}
