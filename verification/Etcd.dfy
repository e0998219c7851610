/** The etcd adapter: values with a deadline inside, attached to leases that many keys share. */
module Etcd {
  import opened Texts
  import opened KeyFormat

  /** A lease of `bucket` seconds; it ends on the server, with all keys attached to it. */
  datatype Lease = Lease(bucket: int, createdAt: int) {
    function End(): int { createdAt + bucket * 1000 }

    predicate LiveAt(t: int) { createdAt <= t < End() }
  }

  /** A stored text: the adapter's envelope (`v` is missing when the value was undefined) or a foreign text. */
  datatype Raw<V> = Envelope(v: Option<V>, e: Option<real>) | Legacy(text: string)

  datatype Row<V> = Row(raw: Raw<V>, lease: Option<Lease>)

  /** What a read gives: nothing, the value, or the stored text as it is. */
  datatype Reading<V> = Missing | Value(value: V) | AsStored(raw: Raw<V>)

  datatype State<V> = State(buckets: map<int, Lease>, granted: seq<Lease>, rows: map<string, Row<V>>)

  // ---------- leases ----------

  function Ceil(x: real): (c: int)
    ensures c as real - 1.0 < x <= c as real
  {
    -((-x).Floor)
  }

  /** The bucket of a TTL in milliseconds: whole seconds, at least one. */
  function Bucket(ttl: real): int {
    Ceil(if ttl / 1000.0 > 1.0 then ttl / 1000.0 else 1.0)
  }

  predicate Reusable(buckets: map<int, Lease>, bucket: int, now: int) {
    bucket in buckets && (now - buckets[bucket].createdAt) * 2 < bucket * 1000
  }

  function LeaseFor(buckets: map<int, Lease>, bucket: int, now: int): Lease {
    if Reusable(buckets, bucket, now) then buckets[bucket] else Lease(bucket, now)
  }

  /** What is known of the leases at `clock`, in every reachable state. */
  ghost predicate Leases<V>(s: State<V>, clock: int) {
    && (forall b :: b in s.buckets ==> b >= 1 && s.buckets[b].bucket == b && s.buckets[b].createdAt <= clock)
    && (forall i :: 0 <= i < |s.granted| ==>
          s.granted[i].bucket in s.buckets && s.granted[i].createdAt <= s.buckets[s.granted[i].bucket].createdAt)
    && (forall i, j :: 0 <= i < j < |s.granted| && s.granted[i].bucket == s.granted[j].bucket ==>
          s.granted[i].createdAt * 2 + s.granted[i].bucket * 1000 <= s.granted[j].createdAt * 2)
  }

  // ---------- calls ----------

  datatype Action<V> = Sets(key: string, value: Option<V>, ttl: Option<real>) | Reads(key: string) | Asks(key: string)
    | Deletes(key: string)

  /** The row the server still has at `now`. */
  function Present<V>(s: State<V>, id: string, now: int): Option<Row<V>> {
    if id in s.rows && (s.rows[id].lease.Some? ==> s.rows[id].lease.value.LiveAt(now)) then Some(s.rows[id]) else None
  }

  predicate Expired<V>(raw: Raw<V>, now: int) {
    raw.Envelope? && raw.v.Some? && raw.e.Some? && now as real > raw.e.value
  }

  function Read<V>(s: State<V>, id: string, now: int): Reading<V> {
    match Present(s, id, now)
    case None => Missing
    case Some(row) =>
      if Expired(row.raw, now) then Missing
      else if row.raw.Envelope? && row.raw.v.Some? then Value(row.raw.v.value)
      else AsStored(row.raw)
  }

  /** Reads delete a row whose deadline has passed. */
  function Swept<V>(s: State<V>, id: string, now: int): State<V> {
    var row := Present(s, id, now);
    if row.Some? && Expired(row.value.raw, now) then s.(rows := s.rows - {id}) else s
  }

  function Perform<V>(s: State<V>, names: Names, action: Action<V>, now: int): State<V> {
    match action
    case Sets(key, value, ttl) =>
      var id := FormatKey(names, key);
      if ttl == None then s.(rows := s.rows[id := Row(Envelope(value, None), None)])
      else
        var b := Bucket(ttl.value);
        var lease := LeaseFor(s.buckets, b, now);
        State(s.buckets[b := lease],
              if Reusable(s.buckets, b, now) then s.granted else s.granted + [lease],
              s.rows[id := Row(Envelope(value, Some(now as real + ttl.value)), Some(lease))])
    case Reads(key) => Swept(s, FormatKey(names, key), now)
    case Asks(key) => Swept(s, FormatKey(names, key), now)
    case Deletes(key) => s.(rows := s.rows - {FormatKey(names, key)})
  }

  datatype Step<V> = Step(action: Action<V>, now: int)

  predicate Ordered<V>(steps: seq<Step<V>>, from: int, to: int) {
    if steps == [] then from <= to else from <= steps[0].now && Ordered(steps[1..], steps[0].now, to)
  }

  function Run<V>(s: State<V>, names: Names, steps: seq<Step<V>>): State<V>
    decreases |steps|
  {
    if steps == [] then s else Run(Perform(s, names, steps[0].action, steps[0].now), names, steps[1..])
  }

  // ---------- what leases guarantee ----------

  lemma {:induction false} BucketCovers(ttl: real)
    ensures Bucket(ttl) >= 1 && ttl <= (Bucket(ttl) * 1000) as real
  {
  }

  /** Every lease handed out has more than half of its period left, and at most all of it. */
  lemma {:induction false} HandedOutHasHalf<V>(s: State<V>, bucket: int, now: int)
    requires Leases(s, now) && bucket >= 1
    ensures var lease := LeaseFor(s.buckets, bucket, now);
      lease.bucket == bucket && bucket * 1000 < (lease.End() - now) * 2 <= bucket * 2000
  {
  }

  lemma {:induction false} StepKeepsLeases<V>(s: State<V>, names: Names, action: Action<V>, clock: int, now: int)
    requires Leases(s, clock) && clock <= now
    ensures Leases(Perform(s, names, action, now), now)
  {
    if action.Sets? && action.ttl.Some? {
      var b := Bucket(action.ttl.value);
      BucketCovers(action.ttl.value);
      var after := Perform(s, names, action, now);
      forall i, j | 0 <= i < j < |after.granted| && after.granted[i].bucket == after.granted[j].bucket
        ensures after.granted[i].createdAt * 2 + after.granted[i].bucket * 1000 <= after.granted[j].createdAt * 2
      {
        if j == |s.granted| { assert s.granted[i].createdAt <= s.buckets[b].createdAt; }
      }
    }
  }

  lemma {:induction false} RunKeepsLeases<V>(s: State<V>, names: Names, steps: seq<Step<V>>, from: int, to: int)
    requires Leases(s, from) && Ordered(steps, from, to)
    ensures Leases(Run(s, names, steps), to)
    decreases |steps|
  {
    if steps == [] {
    } else {
      StepKeepsLeases(s, names, steps[0].action, from, steps[0].now);
      RunKeepsLeases(Perform(s, names, steps[0].action, steps[0].now), names, steps[1..], steps[0].now, to);
    }
  }

  function Initial<V>(): State<V> { State(map[], [], map[]) }

  /** However many keys are set, at any instant at most two leases of a bucket are alive. */
  lemma {:induction false} AtMostTwoLeases<V>(names: Names, steps: seq<Step<V>>, from: int, to: int, t: int, i: nat,
      j: nat, k: nat)
    requires Ordered(steps, from, to)
    requires i < j < k < |Run(Initial<V>(), names, steps).granted|
    ensures var granted := Run(Initial<V>(), names, steps).granted;
      granted[i].bucket == granted[j].bucket == granted[k].bucket ==>
        !(granted[i].LiveAt(t) && granted[j].LiveAt(t) && granted[k].LiveAt(t))
  {
    RunKeepsLeases(Initial<V>(), names, steps, from, to);
  }

  // ---------- how long a key is readable ----------

  predicate Touches<V>(names: Names, action: Action<V>, id: string) {
    (action.Sets? || action.Deletes?) && FormatKey(names, action.key) == id
  }

  /** The row is still there, or was deleted by a read after its deadline. */
  ghost predicate Holds<V>(s: State<V>, id: string, row: Row<V>, clock: int) {
    if id in s.rows then s.rows[id] == row else Expired(row.raw, clock)
  }

  lemma {:induction false} UntouchedHolds<V>(s: State<V>, names: Names, steps: seq<Step<V>>, id: string, row: Row<V>,
      from: int, to: int)
    requires Ordered(steps, from, to) && Holds(s, id, row, from)
    requires forall i :: 0 <= i < |steps| ==> !Touches(names, steps[i].action, id)
    ensures Holds(Run(s, names, steps), id, row, to)
    decreases |steps|
  {
    if steps == [] {
    } else {
      UntouchedHolds(Perform(s, names, steps[0].action, steps[0].now), names, steps[1..], id, row, steps[0].now, to);
    }
  }

  /** The lease a key set with this TTL is attached to. */
  function LeaseOf<V>(s: State<V>, ttl: real, now: int): Lease { LeaseFor(s.buckets, Bucket(ttl), now) }

  /** The exact answer at any later time, whatever happens to other keys and however often this one is read: the
      value until its deadline or the end of its lease. An undefined value never reaches its deadline check. */
  lemma {:induction false} ReadAfterSet<V>(s: State<V>, names: Names, key: string, value: Option<V>, ttl: real,
      now: int, steps: seq<Step<V>>, t: int)
    requires Leases(s, now) && Ordered(steps, now, t)
    requires forall i :: 0 <= i < |steps| ==> !Touches(names, steps[i].action, FormatKey(names, key))
    ensures var written := Perform(s, names, Sets(key, value, Some(ttl)), now);
      Read(Run(written, names, steps), FormatKey(names, key), t) ==
        if t >= LeaseOf(s, ttl, now).End() then Missing
        else if value == None then AsStored(Envelope(None, Some(now as real + ttl)))
        else if t as real > now as real + ttl then Missing
        else Value(value.value)
  {
    var id := FormatKey(names, key);
    var row := Row(Envelope(value, Some(now as real + ttl)), Some(LeaseOf(s, ttl, now)));
    var written := Perform(s, names, Sets(key, value, Some(ttl)), now);
    UntouchedHolds(written, names, steps, id, row, now, t);
    OrderedEnds(steps, now, t);
    BucketCovers(ttl);
    HandedOutHasHalf(s, Bucket(ttl), now);
  }

  /** Without a lifetime the value has no lease and no deadline: it is read at any later time. */
  lemma {:induction false} ReadAfterLastingSet<V>(s: State<V>, names: Names, key: string, value: Option<V>,
      now: int, steps: seq<Step<V>>, t: int)
    requires Ordered(steps, now, t)
    requires forall i :: 0 <= i < |steps| ==> !Touches(names, steps[i].action, FormatKey(names, key))
    ensures var written := Perform(s, names, Sets(key, value, None), now);
      && Read(Run(written, names, steps), FormatKey(names, key), t) ==
          (if value == None then AsStored(Envelope(None, None)) else Value(value.value))
      && written.buckets == s.buckets && written.granted == s.granted
  {
    var id, row := FormatKey(names, key), Row(Envelope(value, None), None);
    UntouchedHolds(Perform(s, names, Sets(key, value, None), now), names, steps, id, row, now, t);
  }

  /** A deleted row is missing until it is written again. */
  lemma {:induction false} ReadAfterDelete<V>(s: State<V>, names: Names, key: string, now: int, steps: seq<Step<V>>,
      t: int)
    requires forall i :: 0 <= i < |steps| ==>
      !(steps[i].action.Sets? && FormatKey(names, steps[i].action.key) == FormatKey(names, key))
    ensures Read(Run(Perform(s, names, Deletes(key), now), names, steps), FormatKey(names, key), t) == Missing
  {
    AbsentStays(Perform(s, names, Deletes(key), now), names, steps, FormatKey(names, key));
  }

  lemma {:induction false} AbsentStays<V>(s: State<V>, names: Names, steps: seq<Step<V>>, id: string)
    requires id !in s.rows
    requires forall i :: 0 <= i < |steps| ==>
      !(steps[i].action.Sets? && FormatKey(names, steps[i].action.key) == id)
    ensures id !in Run(s, names, steps).rows
    decreases |steps|
  {
    if steps == [] {
    } else {
      AbsentStays(Perform(s, names, steps[0].action, steps[0].now), names, steps[1..], id);
    }
  }

  lemma {:induction false} OrderedEnds<V>(steps: seq<Step<V>>, from: int, to: int)
    requires Ordered(steps, from, to)
    ensures from <= to
  {
    if steps == [] {
    } else {
      OrderedEnds(steps[1..], steps[0].now, to);
    }
  }

  /** A value set with a positive TTL in any reachable state is readable through at least half the TTL and
      never after it. */
  lemma {:induction false} ReadableForHalfItsTtl<V>(names: Names, before: seq<Step<V>>, from: int, key: string,
      value: V, ttl: real, now: int, steps: seq<Step<V>>, t: int)
    requires Ordered(before, from, now) && Ordered(steps, now, t) && ttl > 0.0
    requires forall i :: 0 <= i < |steps| ==> !Touches(names, steps[i].action, FormatKey(names, key))
    ensures var s := Run(Initial<V>(), names, before);
      var reading := Read(Run(Perform(s, names, Sets(key, Some(value), Some(ttl)), now), names, steps),
        FormatKey(names, key), t);
      && ((t - now) as real <= ttl / 2.0 ==> reading == Value(value))
      && ((t - now) as real > ttl ==> reading == Missing)
  {
    RunKeepsLeases(Initial<V>(), names, before, from, now);
    var s := Run(Initial<V>(), names, before);
    ReadAfterSet(s, names, key, Some(value), ttl, now, steps, t);
    BucketCovers(ttl);
    HandedOutHasHalf(s, Bucket(ttl), now);
  }

  /** It is readable up to its deadline exactly when the cached lease, if it is young enough to be reused, ends after
      the deadline, and otherwise when the lifetime is below the whole seconds of a fresh lease. */
  lemma {:induction false} FullTtlIff<V>(s: State<V>, names: Names, key: string, value: V, ttl: real, now: int)
    requires Leases(s, now) && ttl > 0.0
    ensures (forall t :: now <= t && t as real <= now as real + ttl ==>
        Read(Perform(s, names, Sets(key, Some(value), Some(ttl)), now), FormatKey(names, key), t) == Value(value))
      <==>
        var b := Bucket(ttl);
        if Reusable(s.buckets, b, now) then (s.buckets[b].createdAt + b * 1000) as real > now as real + ttl
        else (b * 1000) as real > ttl
  {
    var written := Perform(s, names, Sets(key, Some(value), Some(ttl)), now);
    forall t | now <= t
      ensures Read(written, FormatKey(names, key), t) ==
        if t >= LeaseOf(s, ttl, now).End() || t as real > now as real + ttl then Missing else Value(value)
    {
      ReadAfterSet(s, names, key, Some(value), ttl, now, [], t);
    }
    BucketCovers(ttl);
    HandedOutHasHalf(s, Bucket(ttl), now);
    var end := LeaseOf(s, ttl, now).End();
    if end as real <= now as real + ttl {
      assert Read(written, FormatKey(names, key), end) == Missing;
    }
  }

  /** A fresh lease of whole seconds ends with the deadline itself, so the last millisecond is lost. */
  lemma {:induction false} WholeSecondsEndEarly<V>(s: State<V>, names: Names, key: string, value: V, seconds: nat,
      now: int)
    requires Leases(s, now) && seconds >= 1 && !Reusable(s.buckets, seconds, now)
    ensures var ttl := (seconds * 1000) as real;
      Read(Perform(s, names, Sets(key, Some(value), Some(ttl)), now), FormatKey(names, key), now + seconds * 1000) ==
        Missing
  {
    var ttl := (seconds * 1000) as real;
    assert ttl / 1000.0 == seconds as real;
    assert Bucket(ttl) == seconds;
    ReadAfterSet(s, names, key, Some(value), ttl, now, [], now + seconds * 1000);
  }

  /** Reuse does not promise the lifetime either: of two keys set 400 ms apart for one second each, the second is gone
      after 600 ms. */
  lemma {:induction false} ReuseCutsTtl(v: int)
    ensures var names := Names("", ":");
      var s := Run(Initial<int>(), names,
        [Step(Sets("a", Some(v), Some(1000.0)), 0), Step(Sets("b", Some(v), Some(1000.0)), 400)]);
      Read(s, "b", 999) == Value(v) && Read(s, "b", 1000) == Missing
  {
    var names := Names("", ":");
    var first := Step(Sets("a", Some(v), Some(1000.0)), 0);
    var second := Step(Sets("b", Some(v), Some(1000.0)), 400);
    var one := Perform(Initial<int>(), names, first.action, 0);
    assert one.buckets == map[1 := Lease(1, 0)];
    assert Run(Initial<int>(), names, [first, second]) == Perform(one, names, second.action, 400) by {
      assert [first, second][1..] == [second] && [second][1..] == [];
      assert Run(one, names, [second]) == Perform(one, names, second.action, 400);
    }
  }

  // ---------- the adapter ----------

  class StorelyEtcd<V> {
    var names: Names
    var leaseBuckets: map<int, Lease>
    /** The rows on the server. */
    var rows: map<string, Row<V>>
    /** Every lease ever granted, oldest first. */
    ghost var granted: seq<Lease>

    ghost function Snapshot(): State<V>
      reads this
    {
      State(leaseBuckets, granted, rows)
    }

    constructor (names: Names)
      ensures Snapshot() == Initial() && this.names == names
    {
      this.names, leaseBuckets, rows, granted := names, map[], map[], [];
    }

    /** `getOrCreateLeaseForTtl`. */
    method GetOrCreateLeaseForTtl(ttlSeconds: real, now: int) returns (lease: Lease)
      modifies this`leaseBuckets, this`granted
      ensures var b := Ceil(ttlSeconds);
        && lease == LeaseFor(old(leaseBuckets), b, now)
        && leaseBuckets == old(leaseBuckets)[b := lease]
        && granted == old(granted) + if Reusable(old(leaseBuckets), b, now) then [] else [lease]
    {
      var bucket := Ceil(ttlSeconds);
      if bucket in leaseBuckets {
        var cached := leaseBuckets[bucket];
        if (now - cached.createdAt) as real < (bucket * 1000) as real / 2.0 {
          assert leaseBuckets[bucket := cached] == leaseBuckets;
          return cached;
        }
      }
      lease := Lease(bucket, now);
      leaseBuckets := leaseBuckets[bucket := lease];
      granted := granted + [lease];
    }

    method Set(key: string, value: Option<V>, ttl: Option<real>, now: int) returns (ok: bool)
      modifies this`leaseBuckets, this`granted, this`rows
      ensures ok && Snapshot() == Perform(old(Snapshot()), names, Sets(key, value, ttl), now)
    {
      var lease := None;
      if ttl.Some? {
        var seconds := ttl.value / 1000.0;
        var l := GetOrCreateLeaseForTtl(if seconds > 1.0 then seconds else 1.0, now);
        lease := Some(l);
      }
      var expires := if ttl.Some? then Some(now as real + ttl.value) else None;
      rows := rows[FormatKey(names, key) := Row(Envelope(value, expires), lease)];
      ok := true;
    }

    method Get(key: string, now: int) returns (reading: Reading<V>)
      modifies this`rows
      ensures reading == Read(old(Snapshot()), FormatKey(names, key), now)
      ensures Snapshot() == Perform(old(Snapshot()), names, Reads(key), now)
    {
      var id := FormatKey(names, key);
      var raw := ServerGet(id, now);
      if raw == None {
        return Missing;
      }
      if Expired(raw.value, now) {
        var _ := Delete(key, now);
        return Missing;
      }
      reading := if raw.value.Envelope? && raw.value.v.Some? then Value(raw.value.v.value) else AsStored(raw.value);
    }

    method Has(key: string, now: int) returns (present: bool)
      modifies this`rows
      ensures present <==> Read(old(Snapshot()), FormatKey(names, key), now) != Missing
      ensures Snapshot() == Perform(old(Snapshot()), names, Asks(key), now)
    {
      var id := FormatKey(names, key);
      var raw := ServerGet(id, now);
      if raw == None {
        return false;
      }
      if Expired(raw.value, now) {
        var _ := Delete(key, now);
        return false;
      }
      present := true;
    }

    method Delete(key: string, now: int) returns (deleted: bool)
      modifies this`rows
      ensures deleted == Present(old(Snapshot()), FormatKey(names, key), now).Some?
      ensures Snapshot() == Perform(old(Snapshot()), names, Deletes(key), now)
    {
      var raw := ServerGet(FormatKey(names, key), now);
      deleted := raw.Some?;
      rows := rows - {FormatKey(names, key)};
    }

    /** The server drops the keys of a lease that has ended. */
    method ServerGet(id: string, now: int) returns (raw: Option<Raw<V>>)
      ensures var row := Present(Snapshot(), id, now); raw == if row.Some? then Some(row.value.raw) else None
    {
      if id in rows && (rows[id].lease.Some? ==> rows[id].lease.value.LiveAt(now)) {
        raw := Some(rows[id].raw);
      } else {
        raw := None;
      }
    }
  }
}
