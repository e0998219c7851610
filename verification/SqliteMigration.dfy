/** Migrating a table of the old schema, whose keys carry their namespace, to the new one. */
module SqliteMigration {
  import opened Texts
  import opened SqliteTable
  import opened Sqlite

  /** `INSTR(key, ':')`, counted from one; 0 when there is no colon. */
  function Instr(key: string): (n: nat)
    ensures n <= |key|
    ensures n == 0 <==> ':' !in key
    ensures n > 0 ==> key[n - 1] == ':' && ':' !in key[..n - 1]
  {
    if key == "" then 0
    else if key[0] == ':' then 1
    else
      var n := Instr(key[1..]);
      if n == 0 then 0
      else
        assert key[..n] == [key[0]] + key[1..][..n - 1];
        n + 1
  }

  /** The row an old key moves to: split at the first colon, or no namespace without one. */
  function Split(key: string): Id {
    var n := Instr(key);
    if n > 0 then Id(key[n..], key[..n - 1]) else Id(key, "")
  }

  datatype OldRow = OldRow(key: string, value: string)

  /** `INSERT OR IGNORE INTO ... SELECT ...`, the old rows in some order: an occupied id keeps its row. */
  function Migrate(legacy: seq<OldRow>): Table {
    if legacy == [] then map[]
    else
      var n := |legacy| - 1;
      var t := Migrate(legacy[..n]);
      if Split(legacy[n].key) in t then t else t[Split(legacy[n].key) := Row(legacy[n].value, None)]
  }

  /** Keys are unique in the old table. */
  predicate DistinctKeys(legacy: seq<OldRow>) {
    forall i, j :: 0 <= i < j < |legacy| ==> legacy[i].key != legacy[j].key
  }

  predicate HasKey(legacy: seq<OldRow>, key: string) {
    exists i :: 0 <= i < |legacy| && legacy[i].key == key
  }

  /** Two keys collide only as `k` and `:k`, with `k` free of colons. */
  lemma {:induction false} CollisionsAre(a: string, b: string)
    requires a != b
    ensures Split(a) == Split(b) <==>
      (':' !in a && b == ":" + a) || (':' !in b && a == ":" + b)
  {
    var n, m := Instr(a), Instr(b);
    if n > 0 { assert a == a[..n - 1] + ":" + a[n..]; }
    if m > 0 { assert b == b[..m - 1] + ":" + b[m..]; }
    assert "" + ":" + a == ":" + a && "" + ":" + b == ":" + b;
    SplitOfPrefixed("", a);
    SplitOfPrefixed("", b);
  }

  /** Splitting is injective on keys that do not start with a colon. */
  lemma {:induction false} SplitInjective(a: string, b: string)
    requires !(":" <= a) && !(":" <= b) && Split(a) == Split(b)
    ensures a == b
  {
    assert ":" <= ":" + a && ":" <= ":" + b;
    if a != b { CollisionsAre(a, b); }
  }

  /** What the migration leaves under an id: the first old row that splits to it. */
  lemma {:induction false} MigrateKeepsFirst(legacy: seq<OldRow>, id: Id)
    ensures id in Migrate(legacy) <==> exists i :: 0 <= i < |legacy| && Split(legacy[i].key) == id
    ensures id in Migrate(legacy) ==>
      exists i :: 0 <= i < |legacy| && Split(legacy[i].key) == id && Migrate(legacy)[id] == Row(legacy[i].value, None)
        && forall j :: 0 <= j < i ==> Split(legacy[j].key) != id
  {
    hide Split;
    if legacy == [] {
    } else {
      var n := |legacy| - 1;
      var front := legacy[..n];
      MigrateKeepsFirst(front, id);
      if id in Migrate(front) {
        var i :| 0 <= i < |front| && Split(front[i].key) == id && Migrate(front)[id] == Row(front[i].value, None)
          && forall j :: 0 <= j < i ==> Split(front[j].key) != id;
        assert legacy[i] == front[i];
        forall j | 0 <= j < i
          ensures Split(legacy[j].key) != id
        {
          assert legacy[j] == front[j];
        }
      } else {
        forall j | 0 <= j < n
          ensures Split(legacy[j].key) != id
        {
          assert legacy[j] == front[j];
        }
      }
    }
  }

  /** No row is lost: every old row's value is found under the id its key splits to. */
  predicate NothingLost(legacy: seq<OldRow>) {
    forall i :: 0 <= i < |legacy| ==>
      Split(legacy[i].key) in Migrate(legacy) && Migrate(legacy)[Split(legacy[i].key)] == Row(legacy[i].value, None)
  }

  /** Each old row gets a row of its own. */
  predicate EachItsOwn(legacy: seq<OldRow>) {
    forall i, j :: 0 <= i < j < |legacy| ==> Split(legacy[i].key) != Split(legacy[j].key)
  }

  /** A colon-free key and the same key after a colon, both present. */
  predicate Collides(legacy: seq<OldRow>, key: string) {
    ':' !in key && HasKey(legacy, key) && HasKey(legacy, ":" + key)
  }

  /** The migration drops no row exactly when no colon-free `k` stands beside `:k`, in whatever order the
      rows are read. */
  lemma {:induction false} LossIffCollision(legacy: seq<OldRow>)
    requires DistinctKeys(legacy)
    ensures EachItsOwn(legacy) <==> forall key :: !Collides(legacy, key)
    ensures EachItsOwn(legacy) ==> NothingLost(legacy) && |Migrate(legacy)| == |legacy|
    ensures !EachItsOwn(legacy) ==> |Migrate(legacy)| < |legacy|
  {
    hide Split, Migrate;
    if key :| Collides(legacy, key) {
      var i :| 0 <= i < |legacy| && legacy[i].key == key;
      var j :| 0 <= j < |legacy| && legacy[j].key == ":" + key;
      CollisionsAre(key, ":" + key);
      assert !EachItsOwn(legacy);
    }
    if !EachItsOwn(legacy) {
      var i, j :| 0 <= i < j < |legacy| && Split(legacy[i].key) == Split(legacy[j].key);
      CollisionsAre(legacy[i].key, legacy[j].key);
      var key := if ':' !in legacy[i].key && legacy[j].key == ":" + legacy[i].key then legacy[i].key else legacy[j].key;
      assert Collides(legacy, key);
    } else {
      forall i | 0 <= i < |legacy|
        ensures Split(legacy[i].key) in Migrate(legacy) &&
          Migrate(legacy)[Split(legacy[i].key)] == Row(legacy[i].value, None)
      {
        MigrateKeepsFirst(legacy, Split(legacy[i].key));
      }
    }
    MigrateCounts(legacy);
  }

  lemma {:induction false} MigrateCounts(legacy: seq<OldRow>)
    ensures |Migrate(legacy)| <= |legacy|
    ensures |Migrate(legacy)| == |legacy| <==> EachItsOwn(legacy)
  {
    hide Split;
    if legacy == [] {
    } else {
      var n := |legacy| - 1;
      var front := legacy[..n];
      MigrateCounts(front);
      MigrateKeepsFirst(front, Split(legacy[n].key));
      if EachItsOwn(front) && Split(legacy[n].key) !in Migrate(front) {
        forall i, j | 0 <= i < j < |legacy|
          ensures Split(legacy[i].key) != Split(legacy[j].key)
        {
          assert legacy[i] == front[i];
          if j < n { assert legacy[j] == front[j]; }
        }
      } else if Split(legacy[n].key) in Migrate(front) {
        var i :| 0 <= i < |front| && Split(front[i].key) == Split(legacy[n].key);
        assert legacy[i] == front[i];
        assert !EachItsOwn(legacy);
      } else {
        var i, j :| 0 <= i < j < |front| && Split(front[i].key) == Split(front[j].key);
        assert legacy[i] == front[i] && legacy[j] == front[j];
        assert !EachItsOwn(legacy);
      }
    }
  }

  /** Looking up `k` in a colon-free namespace finds the old value of `ns:k`; in the empty one, that of a
      colon-free `k`. */
  lemma {:induction false} LookupAfterMigration(legacy: seq<OldRow>, key: string, ns: string, i: nat, now: int)
    requires DistinctKeys(legacy) && (forall k :: !Collides(legacy, k)) && i < |legacy|
    requires ':' !in ns
    requires legacy[i].key == ns + ":" + key || (ns == "" && ':' !in key && legacy[i].key == key)
    ensures Lookup(Migrate(legacy), key, ns, now) == Some(legacy[i].value)
  {
    LossIffCollision(legacy);
    SplitOfPrefixed(ns, key);
    assert Split(legacy[i].key) == Id(key, ns);
  }

  lemma {:induction false} InstrIs(s: string, p: nat)
    requires p < |s| && s[p] == ':' && ':' !in s[..p]
    ensures Instr(s) == p + 1
  {
    if p == 0 {
    } else {
      assert s[0] == s[..p][0];
      assert s[..p] == [s[0]] + s[1..][..p - 1];
      InstrIs(s[1..], p - 1);
    }
  }

  lemma {:induction false} SplitOfPrefixed(ns: string, key: string)
    requires ':' !in ns
    ensures Split(ns + ":" + key) == Id(key, ns)
  {
    var s := ns + ":" + key;
    assert s[..|ns|] == ns && s[|ns| + 1..] == key;
    InstrIs(s, |ns|);
  }

  /** A namespace that contains a colon finds nothing afterwards: its keys were split too early. */
  lemma {:induction false} ColonNamespacesFindNothing(legacy: seq<OldRow>, key: string, ns: string, now: int)
    requires ':' in ns
    ensures Lookup(Migrate(legacy), key, ns, now) == None
  {
    MigrateKeepsFirst(legacy, Id(key, ns));
    forall i | 0 <= i < |legacy|
      ensures Split(legacy[i].key) != Id(key, ns)
    {
    }
  }

  /** Through the adapter: after the migration of a table without collisions, reading the prefixed key in
      its namespace gives the old value, and no time makes it expire. */
  lemma {:induction false} AdapterReadsMigrated(legacy: seq<OldRow>, key: string, ns: string, i: nat, now: int)
    requires DistinctKeys(legacy) && (forall k :: !Collides(legacy, k)) && i < |legacy|
    requires ns != "" && ':' !in ns && legacy[i].key == ns + ":" + key
    ensures Lookup(Migrate(legacy), StripPrefix(ns + ":" + key, Some(ns)), NamespaceValue(Some(ns)), now) ==
      Some(legacy[i].value)
  {
    LookupAfterMigration(legacy, key, ns, i, now);
    assert (ns + ":" + key)[|ns| + 1..] == key;
    assert ns + ":" <= ns + ":" + key;
  }
}
