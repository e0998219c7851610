/** Least-recently-used maps, described by the history of uses. */
module Recency {
  import opened Texts
  import opened OrderedMap

  /** The distinct keys of a history, each at its last use. */
  function LastUses<K(==)>(h: seq<K>): seq<K> {
    if h == [] then [] else if h[0] in h[1..] then LastUses(h[1..]) else [h[0]] + LastUses(h[1..])
  }

  /** The `max` most recently used distinct keys, least recent first. */
  function Kept<K(==)>(h: seq<K>, max: nat): (ks: seq<K>)
    ensures |ks| <= max
  {
    var ks := LastUses(h);
    if |ks| <= max then ks else ks[|ks| - max..]
  }

  function Without<K(==)>(ks: seq<K>, k: K): seq<K> {
    if ks == [] then [] else if ks[0] == k then Without(ks[1..], k) else [ks[0]] + Without(ks[1..], k)
  }

  predicate Distinct<K(==)>(ks: seq<K>) {
    forall i, j :: 0 <= i < j < |ks| ==> ks[i] != ks[j]
  }

  lemma {:induction false} LastUsesSpec<K>(h: seq<K>)
    ensures Distinct(LastUses(h))
    ensures forall k :: k in LastUses(h) <==> k in h
  {
    if h == [] {
    } else {
      LastUsesSpec(h[1..]);
      assert h == [h[0]] + h[1..];
    }
  }

  lemma {:induction false} WithoutSpec<K>(ks: seq<K>, k: K)
    ensures forall k' :: k' in Without(ks, k) <==> k' in ks && k' != k
    ensures k !in ks ==> Without(ks, k) == ks
    ensures Distinct(ks) ==> Distinct(Without(ks, k))
    ensures Distinct(ks) && k in ks ==> |Without(ks, k)| == |ks| - 1
  {
    if ks == [] {
    } else {
      WithoutSpec(ks[1..], k);
      assert ks == [ks[0]] + ks[1..];
      if Distinct(ks) {
        assert ks[0] !in ks[1..];
        assert Distinct(ks[1..]);
      }
    }
  }

  lemma {:induction false} WithoutConcat<K>(a: seq<K>, b: seq<K>, k: K)
    ensures Without(a + b, k) == Without(a, k) + Without(b, k)
  {
    if a == [] {
      assert a + b == b;
    } else {
      WithoutConcat(a[1..], b, k);
      assert (a + b)[1..] == a[1..] + b;
      assert (a + b)[0] == a[0];
      var rest, more := Without(a[1..], k), Without(b, k);
      assert [a[0]] + (rest + more) == [a[0]] + rest + more;
    }
  }

  /** A use moves its key to the end. */
  lemma {:induction false} LastUsesSnoc<K>(h: seq<K>, k: K)
    ensures LastUses(h + [k]) == Without(LastUses(h), k) + [k]
  {
    if h == [] {
      assert LastUses([k]) == [k] by { assert [k][1..] == []; }
      assert h + [k] == [k];
    } else {
      LastUsesSnoc(h[1..], k);
      assert (h + [k])[1..] == h[1..] + [k];
    }
  }

  /** The end of a sequence without a key: what is left of the end if the key stands there, one more from before
      if it stands before, the end as it is if it is new. */
  lemma {:induction false} WithoutEnd<K>(ks: seq<K>, cut: nat, k: K)
    requires Distinct(ks) && cut <= |ks|
    ensures k in ks[cut..] ==> Without(ks, k) == ks[..cut] + Without(ks[cut..], k)
    ensures k in ks[..cut] ==> Without(ks, k) == Without(ks[..cut], k) + ks[cut..] && |Without(ks[..cut], k)| == cut - 1
    ensures k !in ks ==> Without(ks, k) == ks
  {
    hide Without;
    var older, recent := ks[..cut], ks[cut..];
    assert ks == older + recent;
    WithoutConcat(older, recent, k);
    WithoutSpec(ks, k);
    WithoutSpec(older, k);
    WithoutSpec(recent, k);
    if k in recent {
      var i :| 0 <= i < |recent| && recent[i] == k;
      assert ks[cut + i] == k;
    }
  }

  /** ... and pushes the oldest key out when the key is new and the map full. */
  lemma {:induction false} KeptSnoc<K>(h: seq<K>, k: K, max: nat)
    requires max > 0
    ensures Kept(h + [k], max) ==
      (if k in Kept(h, max) then Without(Kept(h, max), k)
       else if |Kept(h, max)| == max then Kept(h, max)[1..]
       else Kept(h, max)) + [k]
  {
    hide *;
    LastUsesSnoc(h, k);
    LastUsesSpec(h);
    KeptAre(h, max);
    KeptAre(h + [k], max);
    if |LastUses(h)| > max { KeptLong(LastUses(h), k, max); } else { KeptShort(LastUses(h), k, max); }
  }

  lemma {:induction false} KeptAre<K>(h: seq<K>, max: nat)
    ensures Kept(h, max) == var ks := LastUses(h); if |ks| <= max then ks else ks[|ks| - max..]
  {
    hide LastUses;
  }

  lemma {:induction false} KeptShort<K>(ks: seq<K>, k: K, max: nat)
    requires max > 0 && Distinct(ks) && |ks| <= max
    ensures var left := Without(ks, k) + [k];
      if k in ks then |left| == |ks| && left == Without(ks, k) + [k]
      else left == ks + [k] && (|ks| == max ==> left[1..] == ks[1..] + [k])
  {
    hide Without, Distinct;
    WithoutSpec(ks, k);
  }

  lemma {:induction false} KeptLong<K>(ks: seq<K>, k: K, max: nat)
    requires max > 0 && Distinct(ks) && |ks| > max
    ensures var cut, left := |ks| - max, Without(ks, k) + [k];
      |left| >= max &&
      left[|left| - max..] == (if k in ks[cut..] then Without(ks[cut..], k) else ks[cut..][1..]) + [k]
  {
    hide Without, Distinct;
    var cut := |ks| - max;
    WithoutEnd(ks, cut, k);
    WithoutSpec(ks, k);
    if k in ks[cut..] {
    } else if k in ks {
      assert ks == ks[..cut] + ks[cut..];
    } else {
      assert ks[cut..][1..] == ks[cut + 1..];
    }
  }

  /** The kept keys paired with what `f` gives for them. */
  function Pairs<K, V>(ks: seq<K>, f: K -> V): (m: Entries<K, V>)
    ensures |m| == |ks| && forall i :: 0 <= i < |ks| ==> m[i] == (ks[i], f(ks[i]))
  {
    seq(|ks|, i requires 0 <= i < |ks| => (ks[i], f(ks[i])))
  }

  lemma {:induction false} PairsMap<K, V>(ks: seq<K>, f: K -> V, k: K)
    requires Distinct(ks)
    ensures Find(Pairs(ks, f), k) == if k in ks then Some(f(k)) else None
    ensures Remove(Pairs(ks, f), k) == Pairs(Without(ks, k), f)
  {
    if ks == [] {
    } else {
      PairsMap(ks[1..], f, k);
      var m := Pairs(ks, f);
      assert m[1..] == Pairs(ks[1..], f);
      assert ks == [ks[0]] + ks[1..];
      if ks[0] == k {
        WithoutSpec(ks[1..], k);
        assert Without(ks, k) == ks[1..];
      } else {
        assert Pairs(Without(ks, k), f) == [m[0]] + Pairs(Without(ks[1..], k), f);
      }
    }
  }

  lemma {:induction false} PutNew<K, V>(m: Entries<K, V>, k: K, v: V)
    requires forall i :: 0 <= i < |m| ==> m[i].0 != k
    ensures Put(m, k, v) == m + [(k, v)]
  {
    if m == [] {
    } else {
      PutNew(m[1..], k, v);
    }
  }

  // ---------- the memo ----------

  /** One lookup in a memo of `f`: a hit moves to the end, a miss is added and may push the oldest out. */
  function Recall<K(==), V>(m: Entries<K, V>, k: K, f: K -> V, max: nat): Entries<K, V> {
    match Find(m, k)
    case Some(v) => Put(Remove(m, k), k, v)
    case None =>
      var grown := Put(m, k, f(k));
      if |grown| > max then grown[1..] else grown
  }

  /** The memo after any history holds the most recently used distinct keys, in recency order. */
  lemma {:induction false} RecallKeepsRecent<K, V>(h: seq<K>, k: K, f: K -> V, max: nat)
    requires max > 0
    ensures Recall(Pairs(Kept(h, max), f), k, f, max) == Pairs(Kept(h + [k], max), f)
  {
    hide LastUses, Kept, Find, Remove, Put, Without;
    var ks := Kept(h, max);
    KeptDistinct(h, max);
    KeptSnoc(h, k, max);
    PairsMap(ks, f, k);
    WithoutSpec(ks, k);
    if k in ks {
      PutNew(Pairs(Without(ks, k), f), k, f(k));
    } else {
      PutNew(Pairs(ks, f), k, f(k));
    }
  }

  lemma {:induction false} KeptDistinct<K>(h: seq<K>, max: nat)
    ensures Distinct(Kept(h, max))
  {
    hide LastUses;
    LastUsesSpec(h);
  }

  // ---------- counts ----------

  /** One count in a map of counts: the key's entry is removed and put back, the oldest leaves a full map. */
  function Count<K(==)>(m: Entries<K, int>, k: K, max: nat): Entries<K, int> {
    var current: int := match Find(m, k) case Some(n) => n case None => 0;
    var grown := Put(Remove(m, k), k, current + 1);
    if |grown| > max then grown[1..] else grown
  }

  /** The uses of `k` since it last entered the map: back to the latest moment at which it was not kept. */
  function Streak<K(==)>(h: seq<K>, k: K, max: nat): nat {
    if h == [] || k !in Kept(h, max) then 0
    else
      var n := |h| - 1;
      (if h[n] == k then 1 else 0) + Streak(h[..n], k, max)
  }

  /** The map of counts after a history. */
  function Counts<K(==)>(h: seq<K>, max: nat): Entries<K, int> {
    var ks := Kept(h, max);
    seq(|ks|, i requires 0 <= i < |ks| => (ks[i], Streak(h, ks[i], max) as int))
  }

  lemma {:induction false} StreakSnoc<K>(h: seq<K>, k: K, max: nat, k': K)
    requires max > 0
    ensures Streak(h + [k], k', max) ==
      if k' == k then Streak(h, k, max) + 1
      else if k' in Kept(h + [k], max) then Streak(h, k', max) else 0
  {
    assert (h + [k])[..|h|] == h;
    KeptSnoc(h, k, max);
  }

  /** The map after any history holds the most recently used distinct keys, each with its count since it
      last entered. */
  lemma {:induction false} CountKeepsRecent<K>(h: seq<K>, k: K, max: nat)
    requires max > 0
    ensures Count(Counts(h, max), k, max) == Counts(h + [k], max)
  {
    hide LastUses, Kept, Find, Remove, Put, Without, Streak;
    var ks := Kept(h, max);
    var f: K -> int := x => Streak(h, x, max);
    var g: K -> int := x => Streak(h + [k], x, max);
    assert Counts(h, max) == Pairs(ks, f);
    KeptDistinct(h, max);
    KeptSnoc(h, k, max);
    PairsMap(ks, f, k);
    WithoutSpec(ks, k);
    PutNew(Pairs(Without(ks, k), f), k, (if k in ks then f(k) else 0) + 1);
    StreakSnoc(h, k, max, k);
    if k !in ks { NotKept(h, k, max); }
    var ks' := Kept(h + [k], max);
    forall i | 0 <= i < |ks'|
      ensures g(ks'[i]) == if ks'[i] == k then f(k) + 1 else f(ks'[i])
    {
      StreakSnoc(h, k, max, ks'[i]);
    }
    assert Counts(h + [k], max) == Pairs(ks', g);
  }

  lemma {:induction false} NotKept<K>(h: seq<K>, k: K, max: nat)
    requires k !in Kept(h, max)
    ensures Streak(h, k, max) == 0
  {
  }

  function Sum<K>(m: Entries<K, int>): int {
    if m == [] then 0 else m[0].1 + Sum(m[1..])
  }

  /** What has left the map with the keys pushed out of it. */
  function Lost<K(==)>(h: seq<K>, max: nat): nat {
    if h == [] then 0
    else
      var n := |h| - 1;
      var ks := Kept(h[..n], max);
      Lost(h[..n], max) + if h[n] !in ks && |ks| == max && max > 0 then Streak(h[..n], ks[0], max) else 0
  }

  lemma {:induction false} SumConcat<K>(a: Entries<K, int>, b: Entries<K, int>)
    ensures Sum(a + b) == Sum(a) + Sum(b)
  {
    if a == [] {
      assert a + b == b;
    } else {
      SumConcat(a[1..], b);
      assert (a + b)[1..] == a[1..] + b;
    }
  }

  lemma {:induction false} SumRemove<K>(m: Entries<K, int>, k: K)
    ensures Sum(Remove(m, k)) == Sum(m) - match Find(m, k) case Some(n) => n case None => 0
  {
    if m == [] || m[0].0 == k {
    } else {
      SumRemove(m[1..], k);
      assert Remove(m, k)[1..] == Remove(m[1..], k);
    }
  }

  /** Every use is counted by a kept key or left with one that was pushed out. */
  lemma {:induction false} UsesAreAccountedFor<K>(h: seq<K>, max: nat)
    requires max > 0
    ensures Sum(Counts(h, max)) + Lost(h, max) == |h|
  {
    hide LastUses, Kept, Find, Remove, Put, Without, Streak;
    if h == [] {
      NothingKept<K>(max);
    } else {
      var n := |h| - 1;
      var front, k := h[..n], h[n];
      UsesAreAccountedFor(front, max);
      assert h == front + [k];
      CountKeepsRecent(front, k, max);
      CountSum(front, k, max);
    }
  }

  lemma {:induction false} NothingKept<K>(max: nat)
    ensures Kept<K>([], max) == []
  {
  }

  lemma {:induction false} NoUses<K>()
    ensures LastUses<K>([]) == []
  {
  }

  lemma {:induction false} CountSum<K>(h: seq<K>, k: K, max: nat)
    requires max > 0
    ensures Sum(Count(Counts(h, max), k, max)) ==
      Sum(Counts(h, max)) + 1 -
      if k !in Kept(h, max) && |Kept(h, max)| == max then Streak(h, Kept(h, max)[0], max) else 0
  {
    hide LastUses, Kept, Find, Remove, Put, Without, Streak;
    var ks := Kept(h, max);
    var f: K -> int := x => Streak(h, x, max);
    var m := Counts(h, max);
    assert m == Pairs(ks, f);
    KeptDistinct(h, max);
    PairsMap(ks, f, k);
    WithoutSpec(ks, k);
    SumRemove(m, k);
    var current: int := if k in ks then f(k) else 0;
    PutNew(Remove(m, k), k, current + 1);
    var grown := Remove(m, k) + [(k, current + 1)];
    SumConcat(Remove(m, k), [(k, current + 1)]);
    assert Sum([(k, current + 1)]) == current + 1 by { assert [(k, current + 1)][1..] == []; }
    if |grown| > max {
      assert k !in ks && |ks| == max;
      assert grown[0] == m[0];
    }
  }

  lemma {:induction false} KeptIsCounted<K>(h: seq<K>, k: K, max: nat)
    requires k in Kept(h, max)
    ensures Streak(h, k, max) > 0
  {
    hide LastUses, Kept, Without;
    if h == [] {
      NothingKept<K>(max);
    } else {
      var n := |h| - 1;
      assert h == h[..n] + [h[n]];
      if h[n] != k {
        KeptSnoc(h[..n], h[n], max);
        WithoutSpec(Kept(h[..n], max), h[n]);
        KeptIsCounted(h[..n], k, max);
      }
    }
  }

  /** Nothing is lost exactly while the distinct keys ever used fit into the map. */
  lemma {:induction false} NothingLostIff<K>(h: seq<K>, max: nat)
    requires max > 0
    ensures Lost(h, max) == 0 <==> |LastUses(h)| <= max
  {
    hide LastUses, Without, Streak;
    if h == [] {
      NoUses<K>();
    } else {
      var n := |h| - 1;
      var front, k := h[..n], h[n];
      NothingLostIff(front, max);
      assert h == front + [k];
      LastUsesSnoc(front, k);
      LastUsesSpec(front);
      WithoutSpec(LastUses(front), k);
      var ks := Kept(front, max);
      if k !in ks && |ks| == max {
        KeptIsCounted(front, ks[0], max);
      }
    }
  }
}
