/**
 * The hash table object: an open-addressing table with linear probing over
 * an array of buckets, tombstones for removed entries, and growth to
 * `2 * capacity + 1` buckets once the next entry would fill three quarters
 * of them. Values are of a type parameter. The ghost fields record what the
 * bucket array stands for: the abstract map `Contents`, the bucket of each
 * key (`Index`) and the bucket its probe starts from (`Homes`).
 */
module Hashtable {
  import opened Wrappers
  import Fnv
  import opened Probe

  class Table<V> {
    var size: nat
    var capacity: nat
    var buckets: array<Slot<V>>
    ghost var Contents: map<Key, V>
    ghost var Index: map<Key, nat>
    ghost var Homes: map<Key, nat>

    ghost predicate Valid()
      reads this, buckets
    {
      && buckets.Length == capacity
      && Wf(buckets[..], size, Contents, Index, Homes)
      && HomesAt(Homes, capacity)
    }

    /** `New`: no buckets at all, nothing stored. */
    constructor ()
      ensures Valid() && fresh(buckets)
      ensures size == 0 && capacity == 0 && Contents == map[]
      ensures NoTombstones(buckets[..])
    {
      size := 0;
      capacity := 0;
      buckets := new Slot<V>[0];
      Contents, Index, Homes := map[], map[], map[];
      new;
      AllEmptyWf(buckets[..]);
    }

    /**
     * The load check, with the integer `capacity * 3 / 4` in place of the
     * floating-point product: the next entry would take the table past three
     * quarters of its buckets.
     */
    function WillExceedCapacity(): (r: bool)
      reads this
      ensures r <==> 4 * (size + 1) > 3 * capacity
    {
      size + 1 > capacity * 3 / 4
    }

    function Size(): (n: nat)
      reads this, buckets
      requires Valid()
      ensures n == |Contents|
    {
      size
    }

    function IsEmpty(): (r: bool)
      reads this, buckets
      requires Valid()
      ensures r <==> Contents == map[]
    {
      Size() == 0
    }

    /**
     * `find`: the bucket of a live entry for `key`, found by the probe from
     * the key's home bucket that gives up at an empty bucket or once it has
     * visited every bucket. The index computation divides by `capacity`, so
     * a non-empty table must have buckets.
     */
    method Find(key: Key) returns (r: Option<nat>)
      requires buckets.Length == capacity && (size > 0 ==> capacity > 0)
      ensures r == FindSpec(buckets[..], key, size)
      ensures r.Some? ==> r.value < capacity && buckets[r.value] == Occupied(key, buckets[r.value].value)
    {
      if size == 0 {
        return None;
      }
      ghost var s := buckets[..];
      var hv := Fnv.ComputeHash(key);
      var index: nat := Bucket(hv, capacity);
      var visited: nat := 0;
      while true
        invariant index < capacity && visited <= capacity
        invariant FindLoop(s, key, index, visited, capacity) == FindSpec(s, key, size)
        decreases capacity - visited
      {
        if visited == capacity {
          return None;
        }
        var entry := buckets[index];
        if entry.Empty? {
          return None;
        }
        if entry.Occupied? && entry.key == key {
          return Some(index);
        }
        visited := visited + 1;
        index := Next(index, capacity);
      }
    }

    /** `Has`: whether the lookup finds the key, that is, whether it is stored. */
    method Has(key: Key) returns (b: bool)
      requires Valid()
      ensures b <==> key in Contents
    {
      LookupFacts(key);
      var entry := Find(key);
      b := entry.Some?;
    }

    /** `Get`: the stored value, or None where the source returns nil. */
    method Get(key: Key) returns (r: Option<V>)
      requires Valid()
      ensures key in Contents ==> r == Some(Contents[key])
      ensures key !in Contents ==> r == None
    {
      LookupFacts(key);
      var entry := Find(key);
      if entry.None? {
        return None;
      }
      r := Some(buckets[entry.value].value);
    }

    /** What the lookup means on a valid table: it finds exactly the stored keys, each in its own bucket. */
    lemma LookupFacts(key: Key)
      requires Valid()
      ensures size > 0 ==> capacity > 0
      ensures FindSpec(buckets[..], key, size).Some? <==> key in Contents
      ensures key in Contents ==>
                FindSpec(buckets[..], key, size) == Some(Index[key]) && buckets[Index[key]].value == Contents[key]
    {
      FindOnlyLive(buckets[..], size, Contents, Index, Homes, key);
      if key in Contents {
        FindComplete(buckets[..], size, Contents, Index, Homes, key);
      }
    }

    /**
     * `Remove`: the same probe as `find`; if it finds the key, that bucket
     * becomes a tombstone and `size` drops by one, otherwise nothing changes.
     * The source repeats the probe loop of `find` inline; here it is the call.
     */
    method Remove(key: Key)
      requires Valid()
      modifies this, buckets
      ensures Valid()
      ensures buckets == old(buckets) && capacity == old(capacity)
      ensures Contents == old(Contents) - {key}
      ensures key !in old(Contents) ==> size == old(size) && buckets[..] == old(buckets[..])
      ensures key in old(Contents) ==>
                size == old(size) - 1 && buckets[..] == old(buckets[..])[old(Index)[key] := Tombstone]
    {
      LookupFacts(key);
      var found := Find(key);
      if found.Some? {
        PutTombstone(key, found.value);
      } else {
        RemoveAbsent(Contents, key);
      }
    }

    /** The bucket `i` of the live key `key` becomes the tombstone. */
    method PutTombstone(key: Key, i: nat)
      requires Valid() && key in Contents && i == Index[key]
      requires i < buckets.Length && size > 0
      modifies this, buckets
      ensures Valid()
      ensures buckets == old(buckets) && capacity == old(capacity)
      ensures Contents == old(Contents) - {key} && size == old(size) - 1
      ensures buckets[..] == old(buckets[..])[i := Tombstone]
    {
      buckets[i] := Tombstone;
      size := size - 1;
      Contents, Index, Homes := Contents - {key}, Index - {key}, Homes - {key};
      TombstoneValid(old(buckets[..]), old(size), old(Contents), old(Index), old(Homes), key);
    }

    /** A live key's bucket is in range, and the table is not empty. */
    lemma LiveBucket(key: Key)
      requires Valid() && key in Contents
      ensures Index[key] < buckets.Length && size > 0
    {
      RemoveWf(buckets[..], size, Contents, Index, Homes, key);
    }

    /** The state after a tombstone replaces the bucket of `key` in the state `(s, size0, c, ix, hs)`. */
    lemma TombstoneValid(s: seq<Slot<V>>, size0: nat, c: map<Key, V>, ix: map<Key, nat>, hs: map<Key, nat>,
                         key: Key)
      requires Wf(s, size0, c, ix, hs) && HomesAt(hs, |s|) && key in c
      requires buckets.Length == |s| == capacity && buckets[..] == s[ix[key] := Tombstone]
      requires size0 > 0 && size == size0 - 1
      requires Contents == c - {key} && Index == ix - {key} && Homes == hs - {key}
      ensures Valid()
    {
      RemoveWf(s, size0, c, ix, hs, key);
      HomesAtRemove(hs, capacity, key);
    }

    /**
     * The probe loop of `insert`: from the key's home bucket, past
     * tombstones and other keys, to the first empty bucket or the key's own
     * bucket. The loop has no bound, so some bucket must be one it stops at.
     */
    method InsertProbe(key: Key) returns (index: nat)
      requires buckets.Length == capacity
      requires exists t :: 0 <= t < buckets.Length && StopsHere(buckets[t], key)
      ensures capacity > 0 && Stops(buckets[..], key, Home(key, capacity), index)
    {
      ghost var s := buckets[..];
      ghost var t: nat :| t < |s| && StopsHere(s[t], key);
      var hv := Fnv.ComputeHash(key);
      index := Bucket(hv, capacity);
      ghost var h := index;
      assert h == Home(key, capacity);
      ghost var d: nat := 0;
      while true
        invariant d <= Dist(h, t, capacity) && index == Idx(h, d, capacity)
        invariant forall e :: 0 <= e < d ==> Passes(s[Idx(h, e, capacity)], key)
        decreases Dist(h, t, capacity) - d
      {
        var entry := buckets[index];
        if entry.Empty? || (entry.Occupied? && entry.key == key) {
          return;
        }
        assert d < Dist(h, t, capacity);
        NextIdx(h, d, capacity);
        index := Next(index, capacity);
        d := d + 1;
      }
    }

    /** The insert probe has somewhere to stop: the key's own bucket, or an empty one. */
    lemma ProbeCanStop(key: Key)
      requires Valid() && (key in Contents || HasEmpty(buckets[..]))
      ensures exists t :: 0 <= t < buckets.Length && StopsHere(buckets[t], key)
    {
      if key in Contents {
        assert StopsHere(buckets[Index[key]], key);
      } else {
        var e :| 0 <= e < buckets.Length && buckets[..][e].Empty?;
        assert StopsHere(buckets[e], key);
      }
    }

    /** Where the insert probe stops on a valid table: an empty bucket exactly when the key is absent. */
    lemma ProbeStop(key: Key, j: nat)
      requires Valid() && capacity > 0 && Stops(buckets[..], key, Home(key, capacity), j)
      ensures j < buckets.Length
      ensures buckets[j].Empty? <==> key !in Contents
      ensures key in Contents ==> j == Index[key]
    {
      StopsAtKey(buckets[..], Contents, Index, Homes, key, Home(key, capacity), j);
    }

    /**
     * `insert`: an empty stop receives a new entry and `size` grows by one;
     * the key's own bucket gets the new value.
     */
    method Insert(key: Key, value: V)
      requires Valid()
      requires key in Contents || HasEmpty(buckets[..])
      modifies this, buckets
      ensures Valid()
      ensures buckets == old(buckets) && capacity == old(capacity) && capacity > 0
      ensures Contents == old(Contents)[key := value]
      ensures key in old(Contents) ==>
                && size == old(size)
                && buckets[..] == old(buckets[..])[old(Index)[key] := Occupied(key, value)]
      ensures key !in old(Contents) ==>
                && size == old(size) + 1
                && exists j: nat :: Stops(old(buckets[..]), key, Home(key, capacity), j)
                                 && buckets[..] == old(buckets[..])[j := Occupied(key, value)]
      ensures NoTombstones(old(buckets[..])) ==> NoTombstones(buckets[..])
    {
      ProbeCanStop(key);
      var index := InsertProbe(key);
      ProbeStop(key, index);
      if buckets[index].Empty? {
        Fill(key, value, index);
      } else {
        Overwrite(key, value, index);
      }
    }

    /** A new entry goes into the empty bucket `j` where the insert probe for `key` stopped. */
    method Fill(key: Key, value: V, j: nat)
      requires Valid() && key !in Contents && capacity > 0
      requires Stops(buckets[..], key, Home(key, capacity), j) && buckets[j].Empty?
      modifies this, buckets
      ensures Valid()
      ensures buckets == old(buckets) && capacity == old(capacity)
      ensures Contents == old(Contents)[key := value] && size == old(size) + 1
      ensures buckets[..] == old(buckets[..])[j := Occupied(key, value)]
      ensures NoTombstones(old(buckets[..])) ==> NoTombstones(buckets[..])
    {
      buckets[j] := Occupied(key, value);
      size := size + 1;
      Contents, Index, Homes := Contents[key := value], Index[key := j], Homes[key := Home(key, capacity)];
      FillValid(old(buckets[..]), old(size), old(Contents), old(Index), old(Homes), key, value, j);
    }

    /** The state after `key` fills the empty bucket `j` of the state `(s, size0, c, ix, hs)`. */
    lemma FillValid(s: seq<Slot<V>>, size0: nat, c: map<Key, V>, ix: map<Key, nat>, hs: map<Key, nat>,
                    key: Key, value: V, j: nat)
      requires Wf(s, size0, c, ix, hs) && HomesAt(hs, |s|) && key !in c
      requires |s| > 0 && Stops(s, key, Home(key, |s|), j) && s[j].Empty?
      requires buckets.Length == |s| == capacity && buckets[..] == s[j := Occupied(key, value)]
      requires size == size0 + 1
      requires Contents == c[key := value] && Index == ix[key := j] && Homes == hs[key := Home(key, capacity)]
      ensures Valid()
      ensures NoTombstones(s) ==> NoTombstones(buckets[..])
    {
      StopsOpen(s, key, Home(key, |s|), j);
      InsertNewWf(s, size0, c, ix, hs, key, value, Home(key, |s|), j);
      InsertHomesAt(hs, capacity, key);
    }

    /** The live bucket `j` of `key` takes the new value. */
    method Overwrite(key: Key, value: V, j: nat)
      requires Valid() && key in Contents && j == Index[key]
      modifies this, buckets
      ensures Valid()
      ensures buckets == old(buckets) && capacity == old(capacity)
      ensures Contents == old(Contents)[key := value] && size == old(size)
      ensures buckets[..] == old(buckets[..])[j := Occupied(key, value)]
      ensures NoTombstones(old(buckets[..])) ==> NoTombstones(buckets[..])
    {
      LiveBucket(key);
      buckets[j] := Occupied(key, value);
      Contents := Contents[key := value];
      OverwriteValid(old(buckets[..]), old(Contents), key, value);
    }

    /** The state after the live bucket of `key` in `s` takes a new value. */
    lemma OverwriteValid(s: seq<Slot<V>>, c: map<Key, V>, key: Key, value: V)
      requires Wf(s, size, c, Index, Homes) && HomesAt(Homes, |s|) && key in c
      requires buckets.Length == |s| == capacity && buckets[..] == s[Index[key] := Occupied(key, value)]
      requires Contents == c[key := value]
      ensures Valid()
      ensures NoTombstones(s) ==> NoTombstones(buckets[..])
    {
      OverwriteWf(s, size, c, Index, Homes, key, value);
    }

    /**
     * `doubleCapacity`: a fresh array of `2 * capacity + 1` empty buckets,
     * into which every live entry of the old array is inserted again in
     * bucket order; tombstones are dropped.
     */
    method DoubleCapacity()
      requires Valid()
      modifies this
      ensures Valid() && fresh(buckets)
      ensures capacity == 2 * old(capacity) + 1
      ensures Contents == old(Contents) && size == old(size)
      ensures NoTombstones(buckets[..]) && HasEmpty(buckets[..])
    {
      var previous := buckets;
      ghost var c, ix := Contents, Index;
      OldPlaced();
      Clear(2 * capacity + 1);
      ReinsertAll(previous, c, ix);
    }

    /** A fresh array of `n` empty buckets, and nothing stored. */
    method Clear(n: nat)
      modifies this
      ensures Valid() && NoTombstones(buckets[..]) && fresh(buckets)
      ensures capacity == n && size == 0 && Contents == map[]
    {
      size := 0;
      capacity := n;
      buckets := new Slot<V>[n](_ => Empty);
      Contents, Index, Homes := map[], map[], map[];
      EmptyValid();
    }

    /** The loop of `doubleCapacity`: every bucket of the old array `previous`, in order, goes through `Reinsert`. */
    method ReinsertAll(previous: array<Slot<V>>, ghost c: map<Key, V>, ghost ix: map<Key, nat>)
      requires Valid() && NoTombstones(buckets[..]) && size == 0 && Contents == map[]
      requires previous != buckets && capacity == 2 * previous.Length + 1
      requires Placed(previous[..], c, ix)
      modifies this, buckets
      ensures Valid() && NoTombstones(buckets[..])
      ensures buckets == old(buckets) && capacity == old(capacity)
      ensures Contents == c && size == |c| && HasEmpty(buckets[..])
    {
      ghost var s := previous[..];
      for i := 0 to previous.Length
        invariant previous[..] == s && buckets == old(buckets)
        invariant Valid() && NoTombstones(buckets[..])
        invariant capacity == 2 * |s| + 1 && size <= i
        invariant Contents == Below(c, ix, i)
      {
        BelowStep(s, c, ix, i);
        Reinsert(previous[i]);
      }
      Regrown(s, c, ix);
    }

    /** The valid state's entries sit where its index says. */
    lemma OldPlaced()
      requires Valid()
      ensures Placed(buckets[..], Contents, Index) && size == |Contents|
    {
    }

    /** A table whose buckets are all empty is valid and holds nothing. */
    lemma EmptyValid()
      requires buckets.Length == capacity && forall i :: 0 <= i < buckets.Length ==> buckets[i].Empty?
      requires size == 0 && Contents == map[] && Index == map[] && Homes == map[]
      ensures Valid() && NoTombstones(buckets[..])
    {
      AllEmptyWf(buckets[..]);
    }

    /** Once every bucket of the old array `s` is re-inserted, the table holds the old entries and has room. */
    lemma Regrown(s: seq<Slot<V>>, c: map<Key, V>, ix: map<Key, nat>)
      requires Placed(s, c, ix)
      requires Valid() && NoTombstones(buckets[..]) && capacity == 2 * |s| + 1 && size <= |s|
      requires Contents == Below(c, ix, |s|)
      ensures Contents == c && size == |c| && HasEmpty(buckets[..])
    {
      BelowAll(s, c, ix);
      NotFullHasEmpty(buckets[..]);
    }

    /** One bucket of the old array during `doubleCapacity`: a live entry is inserted, anything else dropped. */
    method Reinsert(slot: Slot<V>)
      requires Valid() && NoTombstones(buckets[..]) && size < capacity
      requires slot.Occupied? ==> slot.key !in Contents
      modifies this, buckets
      ensures Valid() && NoTombstones(buckets[..])
      ensures buckets == old(buckets) && capacity == old(capacity)
      ensures slot.Occupied? ==> Contents == old(Contents)[slot.key := slot.value] && size == old(size) + 1
      ensures !slot.Occupied? ==> Contents == old(Contents) && size == old(size)
    {
      if slot.Occupied? {
        NotFullHasEmpty(buckets[..]);
        Insert(slot.key, slot.value);
      }
    }

    /**
     * `Set`: grow first if the load check fires, then insert. Without a grow
     * the probe must end somewhere, so the key must be present or an empty
     * bucket must exist; tombstones can otherwise make `insert` run forever.
     */
    method Set(key: Key, value: V)
      requires Valid()
      requires WillExceedCapacity() || key in Contents || HasEmpty(buckets[..])
      modifies this, buckets
      ensures Valid()
      ensures Contents == old(Contents)[key := value]
      ensures size == if key in old(Contents) then old(size) else old(size) + 1
      ensures old(WillExceedCapacity()) ==> fresh(buckets) && capacity == 2 * old(capacity) + 1
      ensures !old(WillExceedCapacity()) ==> buckets == old(buckets) && capacity == old(capacity)
      ensures old(WillExceedCapacity()) || NoTombstones(old(buckets[..])) ==> NoTombstones(buckets[..])
      ensures !old(WillExceedCapacity()) && key in old(Contents) ==>
                buckets[..] == old(buckets[..])[old(Index)[key] := Occupied(key, value)]
      ensures !old(WillExceedCapacity()) && key !in old(Contents) ==>
                exists j: nat :: Stops(old(buckets[..]), key, Home(key, capacity), j)
                              && buckets[..] == old(buckets[..])[j := Occupied(key, value)]
    {
      if WillExceedCapacity() {
        DoubleCapacity();
      }
      Insert(key, value);
    }

    /**
     * Without tombstones every `Set` has room: either the load check grows
     * the table or an empty bucket is left for a new key to land in.
     */
    lemma RoomToInsert()
      requires Valid() && NoTombstones(buckets[..])
      ensures WillExceedCapacity() || HasEmpty(buckets[..])
    {
      if !WillExceedCapacity() {
        NotFullHasEmpty(buckets[..]);
      }
    }
  }

  /** A fresh table grows to one bucket on its first `Set`. */
  lemma FirstSetGrows<V>(t: Table<V>)
    requires t.size == 0 && t.capacity == 0
    ensures t.WillExceedCapacity() && 2 * t.capacity + 1 == 1
  {
  }
}
