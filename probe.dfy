/**
 * The bucket array of the hash table, as a sequence of slots, and the
 * linear probe over it: the home bucket of a key, the size-bounded lookup
 * that `find` and `Remove` perform, and the invariant a table keeps
 * between operations. Everything here is a value; the class in module
 * Hashtable holds the array and proves its methods against these
 * definitions.
 */
module Probe {
  import opened Wrappers
  import Fnv

  type Key = Fnv.Bytes

  /**
   * A bucket: never used (Go's nil), a removed entry (the shared
   * tombstone), or a live entry.
   */
  datatype Slot<V> = Empty | Tombstone | Occupied(key: Key, value: V)

  // ---------------------------------------------------------------------
  // Bucket indices
  // ---------------------------------------------------------------------

  /**
   * Go's `%` on `int`: the remainder truncated toward zero, signed like `a`.
   * The source's index `hash(key) % table.capacity` is this remainder, which
   * is negative when the hash is negative and not a multiple of the capacity.
   */
  function GoRem(a: int, n: int): (r: int)
    requires n > 0
    ensures -n < r < n
    ensures a >= 0 ==> 0 <= r
    ensures a <= 0 ==> r <= 0
  {
    if a >= 0 then a % n else -((-a) % n)
  }

  /**
   * The home bucket of a hash in a table of `n` buckets: the source's index,
   * moved into range by adding `n` when it is negative.
   */
  function Bucket(h: int, n: nat): (i: nat)
    requires n > 0
    ensures i < n
    ensures GoRem(h, n) >= 0 ==> i == GoRem(h, n)
  {
    var g := GoRem(h, n);
    if g < 0 then g + n else g
  }

  function Home(key: Key, n: nat): (i: nat)
    requires n > 0
    ensures i < n
  {
    Bucket(Fnv.Hash(key), n)
  }

  /** One probe step, `(index + 1) % capacity`, for an index in range. */
  function Next(i: nat, n: nat): (j: nat)
    requires i < n
    ensures j < n
  {
    if i + 1 < n then i + 1 else 0
  }

  lemma NextIsRem(i: nat, n: nat)
    requires i < n
    ensures Next(i, n) == (i + 1) % n
  {
  }

  /** The bucket reached from `h` after `d` probe steps. */
  function Idx(h: nat, d: nat, n: nat): (i: nat)
    requires h < n && d < n
    ensures i < n
  {
    if h + d < n then h + d else h + d - n
  }

  /** The number of probe steps from `h` to `i`. */
  function Dist(h: nat, i: nat, n: nat): (d: nat)
    requires h < n && i < n
    ensures d < n && Idx(h, d, n) == i
  {
    if h <= i then i - h else i + n - h
  }

  lemma DistOfIdx(h: nat, d: nat, n: nat)
    requires h < n && d < n
    ensures Dist(h, Idx(h, d, n), n) == d
  {
  }

  lemma NextIdx(h: nat, d: nat, n: nat)
    requires h < n && d + 1 < n
    ensures Next(Idx(h, d, n), n) == Idx(h, d + 1, n)
  {
  }

  // ---------------------------------------------------------------------
  // Slot-array predicates
  // ---------------------------------------------------------------------

  ghost predicate NoTombstones<V>(s: seq<Slot<V>>)
  {
    forall i :: 0 <= i < |s| ==> !s[i].Tombstone?
  }

  ghost predicate HasEmpty<V>(s: seq<Slot<V>>)
  {
    exists i :: 0 <= i < |s| && s[i].Empty?
  }

  /** The indices of the live entries. */
  ghost function Occupancy<V>(s: seq<Slot<V>>): set<nat>
  {
    set i: nat | i < |s| && s[i].Occupied?
  }

  /** No bucket on the probe from `h` up to, but not including, `t` is empty. */
  ghost predicate ChainOpen<V>(s: seq<Slot<V>>, h: nat, t: nat)
    requires h < |s| && t < |s|
  {
    forall d {:trigger s[Idx(h, d, |s|)]} :: 0 <= d < Dist(h, t, |s|) ==> !s[Idx(h, d, |s|)].Empty?
  }

  /** `size` is both the number of keys and the number of live slots; tombstones are not counted. */
  ghost predicate Counted<V>(s: seq<Slot<V>>, size: nat, contents: map<Key, V>)
  {
    size == |contents| && size == |Occupancy(s)|
  }

  /**
   * Each key of `contents` sits, under its value, in the one live slot
   * `index` names, and every live slot is so named: keys are distinct.
   */
  ghost predicate Placed<V>(s: seq<Slot<V>>, contents: map<Key, V>, index: map<Key, nat>)
  {
    && index.Keys == contents.Keys
    && (forall k :: k in index ==>
          index[k] < |s| && s[index[k]].Occupied? && s[index[k]].key == k && s[index[k]].value == contents[k])
    && (forall i :: 0 <= i < |s| && s[i].Occupied? ==> s[i].key in index && index[s[i].key] == i)
  }

  /** Every live key is reached from its home bucket `homes[k]` without crossing an empty bucket. */
  ghost predicate Reachable<V>(s: seq<Slot<V>>, index: map<Key, nat>, homes: map<Key, nat>)
  {
    && homes.Keys == index.Keys
    && forall k :: k in index ==> index[k] < |s| && homes[k] < |s| && ChainOpen(s, homes[k], index[k])
  }

  /**
   * The table invariant. `contents` is the abstract map the table stands
   * for, `index` says where each key lives and `homes` where its probe starts.
   */
  ghost predicate Wf<V>(s: seq<Slot<V>>, size: nat, contents: map<Key, V>, index: map<Key, nat>,
                        homes: map<Key, nat>)
  {
    Counted(s, size, contents) && Placed(s, contents, index) && Reachable(s, index, homes)
  }

  /** The recorded home buckets are the keys' home buckets in a table of `n` buckets. */
  ghost predicate HomesAt(homes: map<Key, nat>, n: nat)
  {
    && (homes.Keys != {} ==> n > 0)
    && forall k {:trigger Home(k, n)} :: k in homes ==> homes[k] == Home(k, n)
  }

  // ---------------------------------------------------------------------
  // Lookup: the loop of `find` and `Remove`
  // ---------------------------------------------------------------------

  /**
   * The probe loop: give up once `bound` buckets have been visited or at an
   * empty bucket, stop at a live entry for `key`, and step over everything
   * else (tombstones and other keys).
   */
  function FindLoop<V>(s: seq<Slot<V>>, key: Key, index: nat, visited: nat, bound: nat): (r: Option<nat>)
    requires index < |s| && visited <= bound
    ensures r.Some? ==> r.value < |s| && s[r.value].Occupied? && s[r.value].key == key
    decreases bound - visited
  {
    if visited == bound then None
    else if s[index].Empty? then None
    else if s[index].Occupied? && s[index].key == key then Some(index)
    else FindLoop(s, key, Next(index, |s|), visited + 1, bound)
  }

  /**
   * `find`, with the probe bounded by the number of buckets: nothing on an
   * empty table, otherwise the probe from the key's home bucket that visits
   * each bucket at most once. The source bounds it by `size` instead, which
   * misses keys behind tombstones; that version is `Findings.FindSizeBounded`.
   */
  function FindSpec<V>(s: seq<Slot<V>>, key: Key, size: nat): (r: Option<nat>)
    requires size > 0 ==> |s| > 0
    ensures r.Some? ==> r.value < |s| && s[r.value].Occupied? && s[r.value].key == key
    ensures size == 0 ==> r == None
  {
    if size == 0 then None else FindLoop(s, key, Home(key, |s|), 0, |s|)
  }

  /** On a well-formed table, a non-zero size means there are buckets. */
  lemma NonEmptyHasBuckets<V>(s: seq<Slot<V>>, size: nat, contents: map<Key, V>)
    requires Counted(s, size, contents) && size > 0
    ensures |s| > 0
  {
    assert Occupancy(s) != {};
    var i :| i in Occupancy(s);
  }

  /** Whatever the lookup returns is the slot of a live key, with that key's value. */
  lemma FindOnlyLive<V>(s: seq<Slot<V>>, size: nat, contents: map<Key, V>, index: map<Key, nat>,
                        homes: map<Key, nat>, key: Key)
    requires Wf(s, size, contents, index, homes)
    ensures size > 0 ==> |s| > 0
    ensures FindSpec(s, key, size).Some? ==>
      key in contents && index[key] == FindSpec(s, key, size).value
      && s[index[key]].value == contents[key]
  {
    if size > 0 {
      NonEmptyHasBuckets(s, size, contents);
    }
  }

  lemma SubsetCard(a: set<nat>, b: set<nat>)
    requires a <= b
    ensures |a| <= |b|
  {
    assert b == a + (b - a);
  }

  /** The buckets within `D` probe steps of `h`. */
  ghost function Probed(h: nat, D: nat, n: nat): set<nat>
    requires h < n
  {
    set i: nat | i < n && Dist(h, i, n) <= D
  }

  lemma {:induction false} ProbedCard(h: nat, D: nat, n: nat)
    requires h < n && D < n
    ensures |Probed(h, D, n)| == D + 1
    decreases D
  {
    if D == 0 {
      assert Probed(h, 0, n) == {h};
    } else {
      ProbedCard(h, D - 1, n);
      var x := Idx(h, D, n);
      DistOfIdx(h, D, n);
      assert Probed(h, D, n) == Probed(h, D - 1, n) + {x};
    }
  }

  /**
   * From probe step `j` on, a probe that neither meets an empty bucket nor
   * another live copy of the key before step `Dist(h, t)`, and may still
   * take that many steps, stops at the key's bucket `t`.
   */
  lemma {:induction false} FindLoopReaches<V>(s: seq<Slot<V>>, key: Key, bound: nat, h: nat, j: nat, t: nat)
    requires h < |s| && t < |s|
    requires j <= Dist(h, t, |s|) < bound
    requires s[t].Occupied? && s[t].key == key
    requires forall d :: j <= d < Dist(h, t, |s|) ==>
      !s[Idx(h, d, |s|)].Empty? && !(s[Idx(h, d, |s|)].Occupied? && s[Idx(h, d, |s|)].key == key)
    ensures FindLoop(s, key, Idx(h, j, |s|), j, bound) == Some(t)
    decreases Dist(h, t, |s|) - j
  {
    if j < Dist(h, t, |s|) {
      NextIdx(h, j, |s|);
      FindLoopReaches(s, key, bound, h, j + 1, t);
    }
  }

  /**
   * The lookup finds every live key: the probe from its home bucket crosses
   * no empty bucket and no other live copy of the key before reaching it,
   * and that takes fewer steps than there are buckets.
   */
  lemma FindComplete<V>(s: seq<Slot<V>>, size: nat, contents: map<Key, V>, index: map<Key, nat>,
                        homes: map<Key, nat>, key: Key)
    requires Wf(s, size, contents, index, homes) && HomesAt(homes, |s|)
    requires key in contents
    ensures FindSpec(s, key, size) == Some(index[key])
  {
    NonEmptyHasBuckets(s, size, contents);
    var n, h, t := |s|, homes[key], index[key];
    forall d | 0 <= d < Dist(h, t, n)
      ensures !s[Idx(h, d, n)].Empty? && !(s[Idx(h, d, n)].Occupied? && s[Idx(h, d, n)].key == key)
    {
      var i := Idx(h, d, n);
      DistOfIdx(h, d, n);
      if s[i].Occupied? {
        assert index[s[i].key] == i != t;
      }
    }
    FindLoopReaches(s, key, n, h, 0, t);
  }

  // ---------------------------------------------------------------------
  // Counting and emptiness
  // ---------------------------------------------------------------------

  /** All buckets empty: the table is well formed and holds nothing. */
  lemma AllEmptyWf<V>(s: seq<Slot<V>>)
    requires forall i :: 0 <= i < |s| ==> s[i].Empty?
    ensures Wf(s, 0, map[], map[], map[]) && HomesAt(map[], |s|) && NoTombstones(s)
  {
    assert Occupancy(s) == {};
  }

  /** Fewer live entries than buckets and no tombstones: some bucket is empty. */
  lemma NotFullHasEmpty<V>(s: seq<Slot<V>>)
    requires NoTombstones(s) && |Occupancy(s)| < |s|
    ensures HasEmpty(s)
  {
    var n := |s|;
    var all := Probed(0, n - 1, n);
    ProbedCard(0, n - 1, n);
    SubsetCard(all * Occupancy(s), Occupancy(s));
    assert all == (all - Occupancy(s)) + (all * Occupancy(s));
    assert all - Occupancy(s) != {};
    var i :| i in all - Occupancy(s);
    assert s[i].Empty?;
  }

  /** Live entries never outnumber the buckets. */
  lemma SizeAtMostCapacity<V>(s: seq<Slot<V>>, size: nat, contents: map<Key, V>)
    requires Counted(s, size, contents)
    ensures size <= |s|
  {
    if |s| > 0 {
      ProbedCard(0, |s| - 1, |s|);
      SubsetCard(Occupancy(s), Probed(0, |s| - 1, |s|));
    } else {
      assert Occupancy(s) == {};
    }
  }

  // ---------------------------------------------------------------------
  // What an update does to the invariant
  // ---------------------------------------------------------------------

  lemma ChainStable<V>(s: seq<Slot<V>>, s': seq<Slot<V>>, h: nat, t: nat)
    requires |s| == |s'| && h < |s| && t < |s|
    requires forall i :: 0 <= i < |s| && !s[i].Empty? ==> !s'[i].Empty?
    requires ChainOpen(s, h, t)
    ensures ChainOpen(s', h, t)
  {
  }

  /** Chains survive any update that empties no bucket. */
  lemma ReachableStable<V>(s: seq<Slot<V>>, s': seq<Slot<V>>, index: map<Key, nat>, homes: map<Key, nat>)
    requires |s| == |s'| && Reachable(s, index, homes)
    requires forall i :: 0 <= i < |s| && !s[i].Empty? ==> !s'[i].Empty?
    ensures Reachable(s', index, homes)
  {
    forall k | k in index
      ensures ChainOpen(s', homes[k], index[k])
    {
      ChainStable(s, s', homes[k], index[k]);
    }
  }

  /** The buckets the insert probe stops at: an empty one, or the key's own. */
  ghost predicate StopsHere<V>(slot: Slot<V>, key: Key)
  {
    slot.Empty? || (slot.Occupied? && slot.key == key)
  }

  /** A bucket the insert probe steps over: a tombstone, or another key's entry. */
  ghost predicate Passes<V>(slot: Slot<V>, key: Key)
  {
    slot.Tombstone? || (slot.Occupied? && slot.key != key)
  }

  /** The probe as `insert` runs it, from home bucket `h`, stops at bucket `j`: everything before it is skipped. */
  ghost predicate Stops<V>(s: seq<Slot<V>>, key: Key, h: nat, j: nat)
  {
    && h < |s| && j < |s|
    && StopsHere(s[j], key)
    && forall d {:trigger s[Idx(h, d, |s|)]} :: 0 <= d < Dist(h, j, |s|) ==> Passes(s[Idx(h, d, |s|)], key)
  }

  /** A stop found by the insert probe lies on an open chain from `h`. */
  lemma StopsOpen<V>(s: seq<Slot<V>>, key: Key, h: nat, j: nat)
    requires Stops(s, key, h, j)
    ensures ChainOpen(s, h, j)
  {
  }

  /**
   * Where the insert probe from the key's home bucket `h` stops: at an empty
   * bucket exactly when the key is absent, and otherwise at the key's own
   * bucket, since every bucket before that one is non-empty and holds no
   * other copy of the key.
   */
  lemma StopsAtKey<V>(s: seq<Slot<V>>, contents: map<Key, V>, index: map<Key, nat>, homes: map<Key, nat>,
                      key: Key, h: nat, j: nat)
    requires Placed(s, contents, index) && Reachable(s, index, homes)
    requires key in homes ==> homes[key] == h
    requires Stops(s, key, h, j)
    ensures s[j].Occupied? <==> key in contents
    ensures key in contents ==> j == index[key]
  {
    if key in contents {
      var n, t := |s|, index[key];
      assert s[Idx(h, Dist(h, t, n), n)] == Occupied(key, contents[key]);
      assert s[Idx(h, Dist(h, j, n), n)] == s[j];
    }
  }

  /** Filling an empty bucket on an open chain from `h` adds exactly the new key, with home `h`. */
  lemma InsertNewWf<V>(s: seq<Slot<V>>, size: nat, contents: map<Key, V>, index: map<Key, nat>,
                       homes: map<Key, nat>, key: Key, v: V, h: nat, j: nat)
    requires Wf(s, size, contents, index, homes)
    requires j < |s| && h < |s| && s[j].Empty? && key !in contents
    requires ChainOpen(s, h, j)
    ensures Wf(s[j := Occupied(key, v)], size + 1, contents[key := v], index[key := j], homes[key := h])
  {
    InsertCounted(s, size, contents, key, v, j);
    InsertPlaced(s, contents, index, key, v, j);
    InsertReachable(s, index, homes, key, v, h, j);
  }

  lemma InsertReachable<V>(s: seq<Slot<V>>, index: map<Key, nat>, homes: map<Key, nat>, key: Key, v: V,
                           h: nat, j: nat)
    requires Reachable(s, index, homes)
    requires j < |s| && h < |s| && ChainOpen(s, h, j)
    ensures Reachable(s[j := Occupied(key, v)], index[key := j], homes[key := h])
  {
    var s' := s[j := Occupied(key, v)];
    ReachableStable(s, s', index, homes);
    ChainStable(s, s', h, j);
  }

  lemma InsertCounted<V>(s: seq<Slot<V>>, size: nat, contents: map<Key, V>, key: Key, v: V, j: nat)
    requires Counted(s, size, contents)
    requires j < |s| && s[j].Empty? && key !in contents
    ensures Counted(s[j := Occupied(key, v)], size + 1, contents[key := v])
  {
    assert Occupancy(s[j := Occupied(key, v)]) == Occupancy(s) + {j};
    assert |contents[key := v]| == |contents| + 1;
  }

  lemma InsertPlaced<V>(s: seq<Slot<V>>, contents: map<Key, V>, index: map<Key, nat>, key: Key, v: V, j: nat)
    requires Placed(s, contents, index)
    requires j < |s| && s[j].Empty? && key !in contents
    ensures Placed(s[j := Occupied(key, v)], contents[key := v], index[key := j])
  {
  }

  /** Overwriting the value of a live key changes nothing else. */
  lemma OverwriteWf<V>(s: seq<Slot<V>>, size: nat, contents: map<Key, V>, index: map<Key, nat>,
                       homes: map<Key, nat>, key: Key, v: V)
    requires Wf(s, size, contents, index, homes) && key in contents
    ensures Wf(s[index[key] := Occupied(key, v)], size, contents[key := v], index, homes)
  {
    var s' := s[index[key] := Occupied(key, v)];
    OverwriteCounted(s, size, contents, index, key, v);
    OverwritePlaced(s, contents, index, key, v);
    ReachableStable(s, s', index, homes);
  }

  lemma OverwriteCounted<V>(s: seq<Slot<V>>, size: nat, contents: map<Key, V>, index: map<Key, nat>,
                            key: Key, v: V)
    requires Counted(s, size, contents) && Placed(s, contents, index) && key in contents
    ensures Counted(s[index[key] := Occupied(key, v)], size, contents[key := v])
  {
    assert Occupancy(s[index[key] := Occupied(key, v)]) == Occupancy(s);
  }

  lemma OverwritePlaced<V>(s: seq<Slot<V>>, contents: map<Key, V>, index: map<Key, nat>, key: Key, v: V)
    requires Placed(s, contents, index) && key in contents
    ensures Placed(s[index[key] := Occupied(key, v)], contents[key := v], index)
  {
  }

  /** Turning a live key's bucket into a tombstone removes exactly that key. */
  lemma RemoveWf<V>(s: seq<Slot<V>>, size: nat, contents: map<Key, V>, index: map<Key, nat>,
                    homes: map<Key, nat>, key: Key)
    requires Wf(s, size, contents, index, homes) && key in contents
    ensures size > 0
    ensures Wf(s[index[key] := Tombstone], size - 1, contents - {key}, index - {key}, homes - {key})
  {
    RemoveCounted(s, size, contents, index, key);
    RemovePlaced(s, contents, index, key);
    RemoveReachable(s, index, homes, key);
  }

  lemma RemoveCounted<V>(s: seq<Slot<V>>, size: nat, contents: map<Key, V>, index: map<Key, nat>, key: Key)
    requires Counted(s, size, contents) && Placed(s, contents, index) && key in contents
    ensures size > 0 && Counted(s[index[key] := Tombstone], size - 1, contents - {key})
  {
    assert Occupancy(s[index[key] := Tombstone]) == Occupancy(s) - {index[key]};
    assert (contents - {key}).Keys == contents.Keys - {key};
  }

  lemma RemoveReachable<V>(s: seq<Slot<V>>, index: map<Key, nat>, homes: map<Key, nat>, key: Key)
    requires Reachable(s, index, homes) && key in index
    ensures Reachable(s[index[key] := Tombstone], index - {key}, homes - {key})
  {
    ReachableStable(s, s[index[key] := Tombstone], index, homes);
  }

  lemma RemovePlaced<V>(s: seq<Slot<V>>, contents: map<Key, V>, index: map<Key, nat>, key: Key)
    requires Placed(s, contents, index) && key in contents
    ensures Placed(s[index[key] := Tombstone], contents - {key}, index - {key})
  {
  }

  /** Removing an absent key from a map leaves it as it is. */
  lemma RemoveAbsent<K, W>(m: map<K, W>, k: K)
    requires k !in m
    ensures m - {k} == m
  {
  }

  /** Removing a key keeps the recorded homes right. */
  lemma HomesAtRemove(homes: map<Key, nat>, n: nat, key: Key)
    requires HomesAt(homes, n)
    ensures HomesAt(homes - {key}, n)
  {
    forall k | k in homes - {key}
      ensures (homes - {key})[k] == Home(k, n)
    {
      assert k in homes;
    }
  }

  // ---------------------------------------------------------------------
  // Re-inserting the live entries of an old bucket array
  // ---------------------------------------------------------------------

  /** The entries whose bucket comes before `i`. */
  ghost function Below<V>(contents: map<Key, V>, index: map<Key, nat>, i: nat): map<Key, V>
  {
    map k | k in contents && k in index && index[k] < i :: contents[k]
  }

  /** Passing bucket `i` adds its live entry, if any, and nothing else. */
  lemma BelowStep<V>(s: seq<Slot<V>>, contents: map<Key, V>, index: map<Key, nat>, i: nat)
    requires Placed(s, contents, index) && i < |s|
    ensures s[i].Occupied? ==>
              && s[i].key !in Below(contents, index, i)
              && Below(contents, index, i + 1) == Below(contents, index, i)[s[i].key := s[i].value]
    ensures !s[i].Occupied? ==> Below(contents, index, i + 1) == Below(contents, index, i)
  {
    if s[i].Occupied? {
      assert index[s[i].key] == i;
    } else {
      forall k | k in contents
        ensures index[k] != i
      {
        assert s[index[k]].Occupied?;
      }
    }
  }

  /** Past the last bucket, every entry has been seen. */
  lemma BelowAll<V>(s: seq<Slot<V>>, contents: map<Key, V>, index: map<Key, nat>)
    requires Placed(s, contents, index)
    ensures Below(contents, index, |s|) == contents
  {
  }

  /** Recording a key's own home bucket keeps the recorded homes right. */
  lemma InsertHomesAt(homes: map<Key, nat>, n: nat, key: Key)
    requires HomesAt(homes, n) && n > 0
    ensures HomesAt(homes[key := Home(key, n)], n)
  {
    forall k | k in homes[key := Home(key, n)]
      ensures homes[key := Home(key, n)][k] == Home(k, n)
    {
      if k != key {
        assert k in homes;
      }
    }
  }
}
