/** The sharded map: an array of Maps behind one Map interface. */
module BigMap {
  import opened Texts
  import opened Bits
  import opened OrderedMap

  /** A string as UTF-16 code units. */
  type CodeUnit = c: nat | c < 0x1_0000
  type Text = seq<CodeUnit>

  /** `charCodeAt`, with the NaN of a position outside the text read as the 0 that `imul` makes of it. */
  function CodeAt(k: Text, i: int): nat {
    if 0 <= i < |k| then k[i] else 0
  }

  /** The sampled and mixed 32-bit hash. */
  function Mixed(k: Text): nat {
    var sum := (Imul(|k|, 0x9e3779b9) + Imul(CodeAt(k, 0), 0x85ebca6b) + Imul(CodeAt(k, |k| - 1), 0xc2b2ae35)
      + Imul(CodeAt(k, |k| / 2), 0x27d4eb2f) + Imul(CodeAt(k, |k| / 4), 0x165667b1)) % TWO32;
    var spread := Imul(Xor(sum, sum / 0x1_0000), 0x85ebca6b);
    Xor(spread, spread / 0x2000) % TWO32
  }

  /** `defaultHashFunction`. */
  function DefaultHash(k: Text, storeSize: nat): int
    requires 0 < storeSize < TWO32
  {
    if PowerTest(storeSize) then And32(Mixed(k), storeSize - 1) else Mixed(k) % storeSize
  }

  /** Masked or not, the default hash is the mixed hash modulo the number of shards. */
  lemma {:induction false} DefaultHashIsMod(k: Text, storeSize: nat)
    requires 0 < storeSize < TWO32
    ensures DefaultHash(k, storeSize) == Mixed(k) % storeSize
  {
    Mask32IsMod(Mixed(k), storeSize);
  }

  /** The hash of one text whose five sampled positions all differ in what they add. */
  lemma {:induction false} HashOfFiveLetters()
    ensures Mixed([0x61, 0x62, 0x63, 0x64, 0x65]) == 0xf664d1e9
  {
    hide Xor;
    var k: Text := [0x61, 0x62, 0x63, 0x64, 0x65];
    assert CodeAt(k, 0) == 0x61 && CodeAt(k, 4) == 0x65 && CodeAt(k, 2) == 0x63 && CodeAt(k, 1) == 0x62;
    FirstMix();
    SecondMix();
  }

  lemma {:induction false} FirstMix()
    ensures Xor(0x9a567300, 0x9a56) == 0x9a56e956
  {
    DigitXors();
    XorZero(0);
    XorDigit(0x0, 0x0, 0x9, 0x0);
    XorDigit(0x9, 0x0, 0xa, 0x0);
    XorDigit(0x9a, 0x0, 0x5, 0x0);
    XorDigit(0x9a5, 0x0, 0x6, 0x0);
    XorDigit(0x9a56, 0x0, 0x7, 0x9);
    XorDigit(0x9a567, 0x9, 0x3, 0xa);
    XorDigit(0x9a5673, 0x9a, 0x0, 0x5);
    XorDigit(0x9a56730, 0x9a5, 0x0, 0x6);
  }

  lemma {:induction false} SecondMix()
    ensures Xor(0xf66362f2, 0x7b31b) == 0xf664d1e9
  {
    DigitXors();
    XorZero(0);
    XorDigit(0x0, 0x0, 0xf, 0x0);
    XorDigit(0xf, 0x0, 0x6, 0x0);
    XorDigit(0xf6, 0x0, 0x6, 0x0);
    XorDigit(0xf66, 0x0, 0x3, 0x7);
    XorDigit(0xf663, 0x7, 0x6, 0xb);
    XorDigit(0xf6636, 0x7b, 0x2, 0x3);
    XorDigit(0xf66362, 0x7b3, 0xf, 0x1);
    XorDigit(0xf66362f, 0x7b31, 0x2, 0xb);
  }

  lemma {:induction false} DigitXors()
    ensures Xor(2, 3) == 1
    ensures Xor(2, 11) == 9
    ensures Xor(3, 7) == 4
    ensures Xor(3, 10) == 9
    ensures Xor(6, 11) == 13
    ensures Xor(7, 9) == 14
    ensures Xor(15, 1) == 14
  {
    hide Xor;
    XorZero(0);
    XorPair(0, 0, 2, 3);
    XorPair(0, 2, 2, 3);
    XorPair(0, 0, 0, 2);
    XorPair(0, 1, 3, 3);
    XorPair(0, 0, 0, 1);
    XorPair(0, 2, 3, 2);
    XorPair(1, 2, 2, 3);
    XorPair(0, 0, 1, 2);
    XorPair(1, 2, 3, 1);
    XorPair(3, 0, 3, 1);
    XorPair(0, 0, 3, 0);
  }

  datatype Hash = Default | Custom(f: (Text, nat) -> real)

  /** The shard of a text: the default hash, or the custom one floored, made positive and reduced. */
  function Index(h: Hash, k: Text, storeSize: nat): (i: nat)
    requires 0 < storeSize < TWO32
    ensures i < storeSize
  {
    if storeSize == 1 then 0
    else
      match h
      case Default => DefaultHashIsMod(k, storeSize); DefaultHash(k, storeSize)
      case Custom(f) => var raw := f(k, storeSize).Floor; (if raw < 0 then -raw else raw) % storeSize
  }

  // ---------- all shards as one list ----------

  function Flat<K, V>(shards: seq<Entries<K, V>>): Entries<K, V> {
    if shards == [] then [] else shards[0] + Flat(shards[1..])
  }

  /** Every shard holds distinct keys, each routed to that shard. */
  ghost predicate Routed<K(!new), V(!new)>(shards: seq<Entries<K, V>>, route: K -> nat, offset: nat) {
    forall i :: 0 <= i < |shards| ==>
      DistinctKeys(shards[i]) && forall j :: 0 <= j < |shards[i]| ==> route(shards[i][j].0) == offset + i
  }

  lemma {:induction false} RoutedRest<K(!new), V(!new)>(shards: seq<Entries<K, V>>, route: K -> nat, offset: nat)
    requires Routed(shards, route, offset) && shards != []
    ensures Routed(shards[1..], route, offset + 1)
  {
    var rest := shards[1..];
    forall i | 0 <= i < |rest|
      ensures DistinctKeys(rest[i]) && forall j :: 0 <= j < |rest[i]| ==> route(rest[i][j].0) == offset + 1 + i
    {
      assert rest[i] == shards[i + 1];
    }
  }

  /** The flattened list repeats no key. */
  lemma {:induction false} FlatDistinct<K(!new), V(!new)>(shards: seq<Entries<K, V>>, route: K -> nat, offset: nat)
    requires Routed(shards, route, offset)
    ensures DistinctKeys(Flat(shards))
    ensures forall j :: 0 <= j < |Flat(shards)| ==> offset <= route(Flat(shards)[j].0) < offset + |shards|
    decreases |shards|
  {
    if shards == [] {
    } else {
      RoutedRest(shards, route, offset);
      FlatDistinct(shards[1..], route, offset + 1);
    }
  }

  /** A key is found in its own shard only. */
  lemma {:induction false} FlatFinds<K(!new), V(!new)>(shards: seq<Entries<K, V>>, route: K -> nat, offset: nat, k: K)
    requires Routed(shards, route, offset)
    ensures Find(Flat(shards), k) ==
      if offset <= route(k) < offset + |shards| then Find(shards[route(k) - offset], k) else None
    decreases |shards|
  {
    if shards == [] {
    } else {
      RoutedRest(shards, route, offset);
      FlatFinds(shards[1..], route, offset + 1, k);
      FindInConcat(shards[0], Flat(shards[1..]), k);
      FindSpec(shards[0], k);
    }
  }

  /** A list of distinct keys has as many entries as the map it denotes. */
  lemma {:induction false} CountEntries<K(!new), V(!new)>(m: Entries<K, V>, c: map<K, V>)
    requires DistinctKeys(m)
    requires forall k :: k in c <==> Find(m, k).Some?
    ensures |m| == |c|
  {
    if m == [] {
      assert forall k :: Find(m, k) == None;
      assert c == map[];
    } else {
      var n := |m| - 1;
      var front, k := m[..n], m[n].0;
      assert m == front + [m[n]];
      assert [m[n]][1..] == [];
      forall k'
        ensures k' in c - {k} <==> Find(front, k').Some?
      {
        FindInConcat(front, [m[n]], k');
        FindSpec(front, k');
      }
      FindInConcat(front, [m[n]], k);
      assert k in c;
      CountEntries(front, c - {k});
      assert c.Keys == (c - {k}).Keys + {k};
      assert |c.Keys| == |(c - {k}).Keys| + 1;
    }
  }

  class BigMap<K(==,!new), V(!new)> {
    var store: array<Entries<K, V>>
    var storeSize: nat
    var isPowerOf2: bool
    var hash: Hash
    const text: K -> Text

    /** The plain map this one stands for. */
    ghost var contents: map<K, V>

    ghost predicate Shaped()
      reads this
    {
      0 < storeSize < TWO32 && store.Length == storeSize && isPowerOf2 == PowerTest(storeSize)
    }

    /** Each shard holds distinct keys, all routed to it by the current hash. */
    ghost predicate WellRouted()
      reads this, store
    {
      && Shaped()
      && forall i :: 0 <= i < store.Length ==>
           DistinctKeys(store[i]) && forall j :: 0 <= j < |store[i]| ==>
             Index(hash, text(store[i][j].0), storeSize) == i
    }

    ghost predicate Valid()
      reads this, store
    {
      && WellRouted()
      && forall k :: Find(store[Index(hash, text(k), storeSize)], k) ==
           if k in contents then Some(contents[k]) else None
    }

    constructor (size: nat, hash: Hash, text: K -> Text)
      requires 1 <= size < TWO32
      ensures Valid() && fresh(store) && contents == map[]
      ensures storeSize == size && this.hash == hash && this.text == text
    {
      this.text := text;
      this.hash := hash;
      storeSize := size;
      isPowerOf2 := PowerTest(size);
      store := new Entries<K, V>[size](_ => []);
      contents := map[];
    }

    /** `_resolve` behind the single-shard shortcut: the default hash is inlined, the test for a power of two
        was made when the size was set. */
    method Resolve(key: K) returns (i: nat)
      requires Shaped()
      ensures i < store.Length && i == Index(hash, text(key), storeSize)
    {
      if storeSize == 1 {
        return 0;
      }
      var k := text(key);
      if hash.Default? {
        var c0, c1, c2, c3 := CodeAt(k, 0), CodeAt(k, |k| - 1), CodeAt(k, |k| / 2), CodeAt(k, |k| / 4);
        var h := (Imul(|k|, 0x9e3779b9) + Imul(c0, 0x85ebca6b) + Imul(c1, 0xc2b2ae35) + Imul(c2, 0x27d4eb2f) +
          Imul(c3, 0x165667b1)) % TWO32;
        h := Xor(h, h / 0x1_0000);
        h := Imul(h, 0x85ebca6b);
        h := Xor(h, h / 0x2000) % TWO32;
        assert h == Mixed(k);
        DefaultHashIsMod(k, storeSize);
        return if isPowerOf2 then And32(h, storeSize - 1) else h % storeSize;
      }
      var raw := hash.f(k, storeSize).Floor;
      return (if raw < 0 then -raw else raw) % storeSize;
    }

    method Get(key: K) returns (value: Option<V>)
      requires Shaped()
      ensures value == Find(store[Index(hash, text(key), storeSize)], key)
      ensures Valid() ==> value == if key in contents then Some(contents[key]) else None
    {
      var i := Resolve(key);
      value := Find(store[i], key);
    }

    method Has(key: K) returns (found: bool)
      requires Shaped()
      ensures found == Find(store[Index(hash, text(key), storeSize)], key).Some?
      ensures Valid() ==> found == (key in contents)
    {
      var i := Resolve(key);
      found := Find(store[i], key).Some?;
    }

    method Set(key: K, value: V)
      requires Valid()
      modifies this`contents, store
      ensures Valid() && contents == old(contents)[key := value]
    {
      hide Index, DistinctKeys, Put;
      var i := Resolve(key);
      PutSpec(store[i], key, value);
      assert forall j :: 0 <= j < |store[i]| ==> Index(hash, text(store[i][j].0), storeSize) == i;
      store[i] := Put(store[i], key, value);
      contents := contents[key := value];
    }

    method Delete(key: K) returns (deleted: bool)
      requires Valid()
      modifies this`contents, store
      ensures Valid() && contents == old(contents) - {key} && deleted == (key in old(contents))
    {
      hide Index, DistinctKeys, Remove, Find;
      var i := Resolve(key);
      RemoveSpec(store[i], key);
      RemoveRouted(store[i], key, i);
      deleted := Find(store[i], key).Some?;
      store[i] := Remove(store[i], key);
      contents := contents - {key};
    }

    /** What is left of a shard still belongs to it. */
    lemma {:induction false} RemoveRouted(shard: Entries<K, V>, key: K, i: nat)
      requires DistinctKeys(shard) && 0 < storeSize < TWO32
      requires forall j :: 0 <= j < |shard| ==> Index(hash, text(shard[j].0), storeSize) == i
      ensures forall j :: 0 <= j < |Remove(shard, key)| ==> Index(hash, text(Remove(shard, key)[j].0), storeSize) == i
    {
      hide Index, DistinctKeys, Remove, Find;
      RemoveSpec(shard, key);
    }

    method Clear()
      requires Valid()
      modifies this`contents, store
      ensures Valid() && contents == map[]
    {
      for i := 0 to store.Length
        invariant forall j :: 0 <= j < i ==> store[j] == []
      {
        store[i] := [];
      }
      contents := map[];
    }

    /** The `storeSize` setter: a new array of empty shards, or an error for a size below one. */
    method Resize(size: int) returns (ok: bool)
      requires Valid() && size < TWO32
      modifies this`storeSize, this`isPowerOf2, this`store, this`contents
      ensures ok == (size >= 1)
      ensures ok ==> Valid() && fresh(store) && contents == map[] && storeSize == size
      ensures !ok ==> unchanged(this)
    {
      if size < 1 {
        return false;
      }
      storeSize := size;
      isPowerOf2 := PowerTest(size);
      store := new Entries<K, V>[size](_ => []);
      contents := map[];
      ok := true;
    }

    lemma {:induction false} InNoOtherShard(key: K, i: nat)
      requires Valid() && i < store.Length && i != Index(hash, text(key), storeSize)
      ensures Find(store[i], key) == None
    {
      hide Index, Find, DistinctKeys;
      FindSpec(store[i], key);
    }

    /** The `storeHashFunction` setter moves no entry: the map stays consistent exactly if the new hash routes
        every present key to the shard it is in. */
    method SetHash(newHash: Hash)
      requires Valid()
      modifies this`hash
      ensures Shaped() && hash == newHash && contents == old(contents)
      ensures Valid() <==>
        forall k :: k in contents ==> Index(newHash, text(k), storeSize) == Index(old(hash), text(k), storeSize)
    {
      hide Index;
      hash := newHash;
      MovedKeys(old(hash));
    }

    /** The shards as they are, seen with an earlier hash under which they were valid. */
    lemma {:induction false} MovedKeys(before: Hash)
      requires 0 < storeSize < TWO32 && store.Length == storeSize && isPowerOf2 == PowerTest(storeSize)
      requires forall i :: 0 <= i < store.Length ==>
        DistinctKeys(store[i]) && forall j :: 0 <= j < |store[i]| ==> Index(before, text(store[i][j].0), storeSize) == i
      requires forall k ::
        Find(store[Index(before, text(k), storeSize)], k) == if k in contents then Some(contents[k]) else None
      ensures Valid() <==>
        forall k :: k in contents ==> Index(hash, text(k), storeSize) == Index(before, text(k), storeSize)
    {
      hide Index, DistinctKeys, Find;
      if forall k :: k in contents ==> Index(hash, text(k), storeSize) == Index(before, text(k), storeSize) {
        forall i, j | 0 <= i < store.Length && 0 <= j < |store[i]|
          ensures Index(hash, text(store[i][j].0), storeSize) == i
        {
          FindAt(store[i], j);
        }
        forall k
          ensures Find(store[Index(hash, text(k), storeSize)], k) == if k in contents then Some(contents[k]) else None
        {
          if k !in contents { FindSpec(store[Index(hash, text(k), storeSize)], k); }
        }
      } else if Valid() {
        forall k | k in contents
          ensures Index(hash, text(k), storeSize) == Index(before, text(k), storeSize)
        {
          var i := Index(before, text(k), storeSize);
          FindSpec(store[i], k);
          var j :| 0 <= j < |store[i]| && store[i][j] == (k, contents[k]);
        }
      }
    }

    /** What every iteration and the size rest on: the shards one after another list the plain map. */
    lemma {:induction false} ListsContents()
      requires Valid()
      ensures DistinctKeys(Flat(store[..])) && |Flat(store[..])| == |contents|
      ensures forall k :: Find(Flat(store[..]), k) == if k in contents then Some(contents[k]) else None
    {
      hide Index, DistinctKeys, Find, Flat;
      var h, n, f := hash, storeSize, text;
      var route := (k: K) => if 0 < n < TWO32 then Index(h, f(k), n) else 0;
      var shards := store[..];
      assert Routed(shards, route, 0);
      FlatDistinct(shards, route, 0);
      forall k
        ensures Find(Flat(shards), k) == if k in contents then Some(contents[k]) else None
      {
        FlatFinds(shards, route, 0, k);
        assert route(k) < |shards|;
      }
      CountEntries(Flat(shards), contents);
    }

    /** `size`, summed over the shards. */
    method Size() returns (total: nat)
      requires Valid()
      ensures total == |contents|
    {
      hide Index, DistinctKeys, Find;
      total := 0;
      for i := 0 to storeSize
        invariant total == |Flat(store[..i])|
      {
        FlatSnoc(store[..i], store[i]);
        assert store[..i + 1] == store[..i] + [store[i]];
        total := total + |store[i]|;
      }
      assert store[..storeSize] == store[..];
      ListsContents();
    }

    /** `entries`, and with it `keys`, `values` and `forEach`: shard by shard, every entry once. */
    method AllEntries() returns (all: Entries<K, V>)
      requires Valid()
      ensures DistinctKeys(all) && |all| == |contents|
      ensures forall k :: Find(all, k) == if k in contents then Some(contents[k]) else None
    {
      hide Index, DistinctKeys, Find;
      all := [];
      for i := 0 to store.Length
        invariant all == Flat(store[..i])
      {
        FlatSnoc(store[..i], store[i]);
        assert store[..i + 1] == store[..i] + [store[i]];
        all := all + store[i];
      }
      assert store[..store.Length] == store[..];
      ListsContents();
    }
  }

  lemma {:induction false} FlatSnoc<K, V>(shards: seq<Entries<K, V>>, last: Entries<K, V>)
    ensures Flat(shards + [last]) == Flat(shards) + last
  {
    if shards == [] {
      assert [last][1..] == [];
    } else {
      FlatSnoc(shards[1..], last);
      assert (shards + [last])[1..] == shards[1..] + [last];
    }
  }

  function Constant(shard: real): Hash { Custom((k, n) => shard) }

  lemma {:induction false} ConstantShards()
    ensures Index(Constant(0.0), [], 2) == 0 && Index(Constant(1.0), [], 2) == 1
  {
    assert 0.0.Floor == 0 && 1.0.Floor == 1;
  }

  /** At an input: two shards, one key, and a new hash that points to the other shard. */
  method NewHashHidesKey<V(!new)>(value: V) returns (before: Option<V>, after: Option<V>)
    ensures before == Some(value) && after == None
  {
    hide Index, Find, DistinctKeys, Constant;
    ConstantShards();
    var m := new BigMap<Text, V>(2, Constant(0.0), k => k);
    m.Set([], value);
    before := m.Get([]);
    m.InNoOtherShard([], 1);
    m.SetHash(Constant(1.0));
    after := m.Get([]);
  }

  /** With more than one shard, a custom hash is rounded down, made positive and reduced. */
  lemma {:induction false} CustomShards(f: (Text, nat) -> real, k: Text, storeSize: nat, whole: nat)
    requires 1 < storeSize < TWO32
    ensures whole as real <= f(k, storeSize) < whole as real + 1.0 ==>
      Index(Custom(f), k, storeSize) == whole % storeSize
    ensures -(whole as real) <= f(k, storeSize) < -(whole as real) + 1.0 ==>
      Index(Custom(f), k, storeSize) == whole % storeSize
    ensures Index(Custom(f), k, 1) == Index(Default, k, 1) == 0
  {
    var raw := f(k, storeSize);
    assert raw.Floor as real <= raw < raw.Floor as real + 1.0;
  }
}
