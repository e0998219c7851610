/** The adapter that the core's theorems are about does what the class does, call by call. */
module AdapterIsClass {
  import opened Texts
  import opened SqliteTable
  import opened Sqlite
  import opened EndToEnd
  import C = Storely

  method Reads(db: StorelySqlite, key: string, now: int) returns (value: Option<string>)
    modifies db`rows
    ensures SqliteAdapter(db.namespace).read(old(db.rows), key, now) ==
      (db.rows, C.Returned(if value.Some? then C.Text(value.value) else C.Absent))
  {
    value := db.Get(key, now, t => t);
  }

  method Writes(db: StorelySqlite, key: string, raw: C.Raw, ttl: Option<real>, now: int) returns (ok: bool)
    modifies db`rows
    ensures SqliteAdapter(db.namespace).write(old(db.rows), key, raw, ttl, now) == (db.rows, C.Returned(ok))
  {
    ok := db.Set(key, if raw.Text? then raw.s else "", raw.Text?);
  }

  method Removes(db: StorelySqlite, key: string, now: int) returns (deleted: bool)
    modifies db`rows
    ensures SqliteAdapter(db.namespace).remove(old(db.rows), key, now) == (db.rows, C.Returned(deleted))
  {
    deleted := db.Delete(key);
  }

  method Contains(db: StorelySqlite, key: string, now: int) returns (found: bool)
    modifies db`rows
    ensures SqliteAdapter(db.namespace).contains(old(db.rows), key, now) == (db.rows, C.Returned(found))
  {
    found := db.Has(key, now, t => t);
  }

  method RemovesMany(db: StorelySqlite, keys: seq<string>, now: int) returns (deleted: seq<bool>)
    modifies db`rows
    ensures SqliteAdapter(db.namespace).removeMany(old(db.rows), keys, now) == (db.rows, C.Returned(deleted))
  {
    var alone: Others := (n, t) => t;
    assert Alone(alone);
    deleted := db.DeleteMany(keys, alone);
  }

  method ReadsMany(db: StorelySqlite, keys: seq<string>, now: int) returns (values: seq<Option<string>>)
    modifies db`rows
    ensures |values| == |keys|
    ensures SqliteAdapter(db.namespace).readMany(old(db.rows), keys, now) ==
      (db.rows, C.Returned(seq(|keys|, i requires 0 <= i < |keys| =>
        if values[i].Some? then C.Text(values[i].value) else C.Absent)))
  {
    var alone: Others := (n, t) => t;
    assert Alone(alone);
    values := db.GetMany(keys, now, alone);
    assert values == Answers(old(db.rows), Strip(keys, db.namespace), NamespaceValue(db.namespace), now);
    assert ReadTexts(old(db.rows), keys, db.namespace, now) ==
      seq(|keys|, i requires 0 <= i < |keys| => if values[i].Some? then C.Text(values[i].value) else C.Absent);
  }

  method ContainsMany(db: StorelySqlite, keys: seq<string>, now: int) returns (found: seq<bool>)
    modifies db`rows
    ensures SqliteAdapter(db.namespace).containsMany(old(db.rows), keys, now) == (db.rows, C.Returned(found))
  {
    var alone: Others := (n, t) => t;
    assert Alone(alone);
    found := db.HasMany(keys, now, alone);
  }

  /** A chunk with something other than a text fails as a whole. */
  method WritesMany(db: StorelySqlite, entries: seq<C.Encoded>, now: int) returns (results: seq<bool>)
    modifies db`rows
    ensures |results| == |entries|
    ensures SqliteAdapter(db.namespace).writeMany(old(db.rows), entries, now) ==
      (db.rows, C.Flags(seq(|entries|, i requires 0 <= i < |entries| => Some(results[i]))))
    ensures forall i :: 0 <= i < |entries| ==>
      (results[i] <==> forall j :: 0 <= j < |entries| && j / 249 == i / 249 ==> entries[j].value.Text?)
  {
    var texts := seq(|entries|, i requires 0 <= i < |entries| =>
      Entry(entries[i].key, if entries[i].value.Text? then entries[i].value.s else ""));
    results := db.SetMany(texts, chunk =>
      forall i :: 0 <= i < |entries| && i / WRITE_BATCH == chunk ==> entries[i].value.Text?);
  }
}
