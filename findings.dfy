/**
 * Three places where the table's code does something its authors evidently
 * did not intend, each modelled as written beside the corrected behaviour
 * the rest of the model uses.
 *
 * 1. The home index is `hash(key) % capacity` with Go's truncating `%`;
 *    the hash is a signed 64-bit value, and when it is negative and not a
 *    multiple of the capacity the index is negative and the bucket access
 *    panics. The corrected index is `Probe.Bucket`, which adds `capacity`
 *    to a negative remainder.
 *
 * 2. Removed entries become a shared sentinel entry whose key is the
 *    string "tombstone", and the lookup compares keys without first ruling
 *    the sentinel out. Looking up or removing the key "tombstone" therefore
 *    stops at any tombstone on its probe. The corrected lookup,
 *    `Probe.FindLoop`, matches live entries only.
 *
 * 3. The lookup gives up after visiting `size` buckets, but `size` does not
 *    count tombstones, which the probe also has to step over: a live key
 *    behind a tombstone can be reported absent. The corrected lookup,
 *    `Probe.FindSpec`, may visit every bucket once.
 */
module Findings {
  import opened Wrappers
  import Fnv
  import opened Probe

  // ---------------------------------------------------------------------
  // 1. A negative home index
  // ---------------------------------------------------------------------

  /** The key "haa". */
  const Haa: Key := [0x68, 0x61, 0x61]

  /** A byte step evaluated from its parts: the new low byte, the xored value, and the wrapped product. */
  lemma RoundIs(h: int, b: bv8, low: int, x: int, r: int)
    requires Fnv.LowXor(h, b) == low && x == (h / 256) * 256 + low && Fnv.Wrap(x * Fnv.Prime) == r
    ensures Fnv.Round(h, b) == r
  {
  }

  lemma HashOfH()
    ensures Fnv.Hash([0x68]) == 36342608486479703
  {
    assert Fnv.LowXor(Fnv.OffsetBasis, 0x68) == 173;
    assert Fnv.Wrap(2166136237 * Fnv.Prime) == 36342608486479703;
    RoundIs(Fnv.OffsetBasis, 0x68, 173, 2166136237, 36342608486479703);
    Fnv.HashSnoc([], 0x68);
    assert [] + [0x68 as bv8] == [0x68];
  }

  lemma HashOfHa()
    ensures Fnv.Hash([0x68, 0x61]) == 3760039927035390466
  {
    HashOfH();
    assert Fnv.LowXor(36342608486479703, 0x61) == 54;
    assert Fnv.Wrap(36342608486479670 * Fnv.Prime) == 3760039927035390466;
    RoundIs(36342608486479703, 0x61, 54, 36342608486479670, 3760039927035390466);
    Fnv.HashSnoc([0x68], 0x61);
    assert [0x68 as bv8] + [0x61] == [0x68, 0x61];
  }

  /** The last byte step of "haa". */
  lemma RoundOfHa()
    ensures Fnv.Round(3760039927035390466, 0x61) == -8550821742715668007
  {
    assert Fnv.LowXor(3760039927035390466, 0x61) == 99;
    assert Fnv.Wrap(3760039927035390563 * Fnv.Prime) == -8550821742715668007;
    RoundIs(3760039927035390466, 0x61, 99, 3760039927035390563, -8550821742715668007);
  }

  /** The hash of "haa" is negative. */
  lemma HashOfHaa()
    ensures Fnv.Hash(Haa) == -8550821742715668007
  {
    HashOfHa();
    RoundOfHa();
    Fnv.HashSnoc([0x68, 0x61], 0x61);
    assert [0x68 as bv8, 0x61] + [0x61] == Haa;
  }

  /**
   * As written: in a table of three buckets the source computes the index
   * -1 for "haa", which is outside the bucket slice. The corrected home
   * bucket is 2.
   */
  lemma NegativeIndex()
    ensures GoRem(Fnv.Hash(Haa), 3) == -1
    ensures Bucket(Fnv.Hash(Haa), 3) == 2
  {
    HashOfHaa();
  }

  /**
   * Corrected: the home bucket is the Euclidean remainder of the hash, so
   * it is always a bucket, and it is the source's index whenever that one
   * is not negative.
   */
  lemma BucketIsEuclidean(h: int, n: nat)
    requires n > 0
    ensures Bucket(h, n) == h % n
    ensures GoRem(h, n) >= 0 ==> Bucket(h, n) == GoRem(h, n)
    ensures GoRem(h, n) < 0 ==> Bucket(h, n) == GoRem(h, n) + n
  {
    if h < 0 {
      var q, r := (-h) / n, (-h) % n;
      assert -h == q * n + r;
      if r == 0 {
        ModUnique(h, n, -q, 0);
      } else {
        ModUnique(h, n, -q - 1, n - r);
      }
    }
  }

  /** A product of a positive factor and at least one is at least that factor. */
  lemma MulAtLeast(k: int, n: int)
    requires k >= 1 && n > 0
    ensures k * n >= n
  {
  }

  /** The Euclidean remainder is fixed by any split into a multiple of `n` and a remainder in range. */
  lemma ModUnique(a: int, n: int, q: int, r: int)
    requires n > 0 && 0 <= r < n && a == q * n + r
    ensures a % n == r
  {
    var k := q - a / n;
    assert a == (a / n) * n + a % n;
    assert k * n == a % n - r;
    if k >= 1 {
      MulAtLeast(k, n);
    } else if k <= -1 {
      MulAtLeast(-k, n);
    }
  }

  // ---------------------------------------------------------------------
  // 2. The tombstone sentinel's key
  // ---------------------------------------------------------------------

  /** The key "tombstone" that the shared sentinel entry carries. */
  const TombstoneKey: Key := [0x74, 0x6f, 0x6d, 0x62, 0x73, 0x74, 0x6f, 0x6e, 0x65]

  /** As written: the probe stops at a bucket whose entry has the key, and the sentinel has one too. */
  predicate MatchesAsWritten<V>(slot: Slot<V>, key: Key)
  {
    (slot.Occupied? && slot.key == key) || (slot.Tombstone? && key == TombstoneKey)
  }

  /** The probe loop of `find` and `Remove` as written. */
  function FindLoopAsWritten<V>(s: seq<Slot<V>>, key: Key, index: nat, visited: nat, size: nat): (r: Option<nat>)
    requires index < |s| && visited <= size
    ensures r.Some? ==> r.value < |s| && MatchesAsWritten(s[r.value], key)
    decreases size - visited
  {
    if visited == size then None
    else if s[index].Empty? then None
    else if MatchesAsWritten(s[index], key) then Some(index)
    else FindLoopAsWritten(s, key, Next(index, |s|), visited + 1, size)
  }

  /** `find` as written for the probe bound and the sentinel match, from the corrected home bucket `Home`. */
  function FindAsWritten<V>(s: seq<Slot<V>>, key: Key, size: nat): (r: Option<nat>)
    requires size > 0 ==> |s| > 0
    ensures r.Some? ==> r.value < |s| && MatchesAsWritten(s[r.value], key)
    ensures size == 0 ==> r == None
  {
    if size == 0 then None else FindLoopAsWritten(s, key, Home(key, |s|), 0, size)
  }

  /** `Remove` as written, on the bucket array and the size: the bucket found becomes a tombstone and the size drops. */
  function RemoveAsWritten<V>(s: seq<Slot<V>>, size: nat, key: Key): (r: (seq<Slot<V>>, nat))
    requires size > 0 ==> |s| > 0
    ensures |r.0| == |s|
    ensures FindAsWritten(s, key, size).None? ==> r == (s, size)
    ensures FindAsWritten(s, key, size).Some? ==>
              size > 0 && r == (s[FindAsWritten(s, key, size).value := Tombstone], size - 1)
  {
    match FindAsWritten(s, key, size)
    case None => (s, size)
    case Some(i) => (s[i := Tombstone], size - 1)
  }

  /**
   * The three-bucket table that `Set("g")`, `Set("a")`, `Remove("g")` leave
   * behind: the tombstone in the home bucket of "tombstone", the entry of a
   * key other than "tombstone" in the bucket after it, and the third bucket
   * empty. Three buckets is the capacity the second `Set` grows the table to.
   */
  function ThreeBuckets<V>(key: Key, v: V): (s: seq<Slot<V>>)
    ensures |s| == 3
    ensures var h := Home(TombstoneKey, 3);
      && s[h].Tombstone? && s[Next(h, 3)] == Occupied(key, v)
      && forall i :: 0 <= i < 3 && i != h && i != Next(h, 3) ==> s[i].Empty?
  {
    var h := Home(TombstoneKey, 3);
    [Empty, Empty, Empty][h := Tombstone][Next(h, 3) := Occupied(key, v)]
  }

  /**
   * That table is well formed when the key's home bucket is the tombstone's
   * bucket or its own, as it is for the key "a" after `Remove("g")`.
   */
  lemma ThreeBucketsWf<V>(key: Key, v: V)
    requires var h := Home(TombstoneKey, 3); Home(key, 3) == h || Home(key, 3) == Next(h, 3)
    ensures var s := ThreeBuckets(key, v);
      var j := Next(Home(TombstoneKey, 3), 3);
      && Wf(s, 1, map[key := v], map[key := j], map[key := Home(key, 3)])
      && HomesAt(map[key := Home(key, 3)], 3)
      && !NoTombstones(s)
  {
    var s := ThreeBuckets(key, v);
    var h := Home(TombstoneKey, 3);
    var j := Next(h, 3);
    assert Occupancy(s) == {j};
    var hk := Home(key, 3);
    if hk != j {
      assert Dist(hk, j, 3) == 1 && Idx(hk, 0, 3) == h;
    }
    assert ChainOpen(s, hk, j);
  }

  /**
   * As written, removing "tombstone" from that table, which never stored it,
   * hits the tombstone: the size drops to 0 while the other key is still in
   * its bucket, so the size no longer counts the live entries and the key
   * can no longer be found.
   */
  lemma SentinelKeyBreaksSize<V>(key: Key, v: V)
    requires key != TombstoneKey
    ensures var s := ThreeBuckets(key, v);
      var r := RemoveAsWritten(s, 1, TombstoneKey);
      && r.1 == 0 && |Occupancy(r.0)| == 1
      && FindSpec(r.0, key, r.1) == None
  {
    var s := ThreeBuckets(key, v);
    var h := Home(TombstoneKey, 3);
    assert MatchesAsWritten(s[h], TombstoneKey);
    assert FindAsWritten(s, TombstoneKey, 1) == Some(h);
    var r := RemoveAsWritten(s, 1, TombstoneKey);
    assert r.0 == s;
    assert Occupancy(s) == {Next(h, 3)};
  }

  /** As written, `Has("tombstone")` holds on that table, which never stored the key. */
  lemma SentinelKeyFound<V>(key: Key, v: V)
    requires key != TombstoneKey
    ensures FindAsWritten(ThreeBuckets(key, v), TombstoneKey, 1).Some?
    ensures TombstoneKey !in map[key := v]
  {
    var h := Home(TombstoneKey, 3);
    assert MatchesAsWritten(ThreeBuckets(key, v)[h], TombstoneKey);
  }

  /**
   * Corrected: where the two lookups differ, the as-written one has stopped
   * at a tombstone for the key "tombstone"; for every other key, and for
   * every key on a table without tombstones, they agree.
   */
  lemma {:induction false} AsWrittenAgreesElsewhere<V>(s: seq<Slot<V>>, key: Key, index: nat, visited: nat, size: nat)
    requires index < |s| && visited <= size && (key != TombstoneKey || NoTombstones(s))
    ensures FindLoopAsWritten(s, key, index, visited, size) == FindLoop(s, key, index, visited, size)
    decreases size - visited
  {
    if visited < size && !s[index].Empty? && !MatchesAsWritten(s[index], key) {
      AsWrittenAgreesElsewhere(s, key, Next(index, |s|), visited + 1, size);
    }
  }

  // ---------------------------------------------------------------------
  // An insert probe with nowhere to stop
  // ---------------------------------------------------------------------

  /**
   * Three buckets holding one live entry and two tombstones form a
   * well-formed table of size 1. The load check of the next `Set` does not
   * fire (two entries against the integer three quarters of three buckets,
   * which is 2), yet no bucket is empty and no bucket holds another key, so
   * the insert probe for that key would go round the table for ever. The
   * model's `Set` therefore requires room, which the interner always has.
   */
  lemma TombstonesStallInsert<V>(k: Key, v: V, key: Key)
    requires key != k
    ensures var s := [Occupied(k, v), Tombstone, Tombstone];
      && Wf(s, 1, map[k := v], map[k := 0], map[k := Home(k, 3)])
      && HomesAt(map[k := Home(k, 3)], 3)
      && !(1 + 1 > 3 * 3 / 4)
      && !HasEmpty(s)
      && !NoTombstones(s)
      && forall j :: 0 <= j < |s| ==> !StopsHere(s[j], key)
  {
    var s: seq<Slot<V>> := [Occupied(k, v), Tombstone, Tombstone];
    assert Occupancy(s) == {0};
    var h := Home(k, 3);
    assert ChainOpen(s, h, 0);
    assert s[1].Tombstone?;
  }

  // ---------------------------------------------------------------------
  // 3. The probe bound
  // ---------------------------------------------------------------------

  /**
   * The size bound of src/hashtable/hashtable.go, line 107, in isolation,
   * with live-only matching: `find` and `Remove` give up once `size` buckets
   * have been visited.
   */
  function FindSizeBounded<V>(s: seq<Slot<V>>, key: Key, size: nat): (r: Option<nat>)
    requires size > 0 ==> |s| > 0
    ensures r.Some? ==> r.value < |s| && s[r.value].Occupied? && s[r.value].key == key
    ensures size == 0 ==> r == None
  {
    if size == 0 then None else FindLoop(s, key, Home(key, |s|), 0, size)
  }

  /**
   * As written: with the key's home bucket holding a tombstone and the key
   * itself in the next bucket, a well-formed table of size 1 reports the key
   * absent, since the tombstone uses up the one visit. The corrected lookup
   * finds it.
   */
  lemma SizeBoundMissesKey<V>(key: Key, v: V, n: nat)
    requires n >= 2
    ensures var h := Home(key, n);
      var s := seq(n, i requires 0 <= i < n =>
        if i == h then Tombstone else if i == Next(h, n) then Occupied(key, v) else Empty);
      && Wf(s, 1, map[key := v], map[key := Next(h, n)], map[key := h])
      && HomesAt(map[key := h], n)
      && FindSizeBounded(s, key, 1) == None
      && FindSpec(s, key, 1) == Some(Next(h, n))
  {
    var h := Home(key, n);
    var s := seq(n, i requires 0 <= i < n =>
      if i == h then Tombstone else if i == Next(h, n) then Occupied(key, v) else Empty);
    assert Occupancy(s) == {Next(h, n)};
    assert Dist(h, Next(h, n), n) == 1;
    assert ChainOpen(s, h, Next(h, n));
    assert s[h].Tombstone? && s[Next(h, n)] == Occupied(key, v);
    assert FindLoop(s, key, Next(h, n), 1, n) == Some(Next(h, n));
  }

  /**
   * Corrected: the size-bounded lookup is sound, and without tombstones it
   * agrees with the corrected one, since the live keys then fill every
   * bucket the probe passes.
   */
  lemma SizeBoundedAgrees<V>(s: seq<Slot<V>>, size: nat, contents: map<Key, V>, index: map<Key, nat>,
                             homes: map<Key, nat>, key: Key)
    requires Wf(s, size, contents, index, homes) && HomesAt(homes, |s|)
    ensures size > 0 ==> |s| > 0
    ensures FindSizeBounded(s, key, size).Some? ==> FindSizeBounded(s, key, size) == FindSpec(s, key, size)
    ensures NoTombstones(s) ==> FindSizeBounded(s, key, size) == FindSpec(s, key, size)
  {
    FindOnlyLive(s, size, contents, index, homes, key);
    if key in contents {
      FindComplete(s, size, contents, index, homes, key);
      if NoTombstones(s) {
        FindFrom(s, size, contents, index, key, homes[key]);
      }
    }
  }

  /**
   * Without tombstones every bucket on the probe from `h` to a live key's
   * own bucket `t` holds a different live key, so the probe finds it in
   * fewer than `size` steps.
   */
  lemma FindFrom<V>(s: seq<Slot<V>>, size: nat, contents: map<Key, V>, index: map<Key, nat>,
                    key: Key, h: nat)
    requires Counted(s, size, contents) && Placed(s, contents, index) && NoTombstones(s)
    requires key in contents && h < |s| && ChainOpen(s, h, index[key])
    ensures FindLoop(s, key, h, 0, size) == Some(index[key])
  {
    var n, t := |s|, index[key];
    var D := Dist(h, t, n);
    forall d | 0 <= d < D
      ensures s[Idx(h, d, n)].Occupied? && s[Idx(h, d, n)].key != key
    {
      var i := Idx(h, d, n);
      DistOfIdx(h, d, n);
      assert i != t;
      assert !s[i].Empty? && !s[i].Tombstone?;
      assert index[s[i].key] == i;
    }
    forall i | i in Probed(h, D, n)
      ensures i in Occupancy(s)
    {
      if Dist(h, i, n) < D {
        assert s[Idx(h, Dist(h, i, n), n)].Occupied?;
      }
    }
    ProbedCard(h, D, n);
    SubsetCard(Probed(h, D, n), Occupancy(s));
    FindLoopReaches(s, key, size, h, 0, t);
  }

  /**
   * On a well-formed table without tombstones, such as the interner's, the
   * lookup as written, with its size bound and its sentinel match, returns
   * exactly what the corrected lookup returns.
   */
  lemma AsWrittenFindWithoutTombstones<V>(s: seq<Slot<V>>, size: nat, contents: map<Key, V>, index: map<Key, nat>,
                                          homes: map<Key, nat>, key: Key)
    requires Wf(s, size, contents, index, homes) && HomesAt(homes, |s|) && NoTombstones(s)
    ensures size > 0 ==> |s| > 0
    ensures FindAsWritten(s, key, size) == FindSpec(s, key, size)
  {
    SizeBoundedAgrees(s, size, contents, index, homes, key);
    if size > 0 {
      AsWrittenAgreesElsewhere(s, key, Home(key, |s|), 0, size);
    }
  }
}
