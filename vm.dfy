/**
 * The string interner of the interpreter's runtime: a table from string
 * contents to the one `String` object that stands for them, so that
 * strings with equal contents are the same object and can be compared by
 * reference.
 */
module Vm {
  import opened Wrappers
  import opened Probe
  import opened Hashtable

  /** A runtime string: its length and its bytes. */
  class String {
    const len: nat
    const chars: Key

    /** `newString`. */
    constructor (s: Key)
      ensures len == |s| && chars == s
    {
      len := |s|;
      chars := s;
    }
  }

  class VM {
    const strings: Table<String>

    /**
     * The intern table is a valid table that only ever grows, so it holds
     * no tombstones, and it maps each string to a `String` with exactly
     * those contents.
     */
    ghost predicate Valid()
      reads this, strings, strings.buckets
    {
      && strings.Valid()
      && NoTombstones(strings.buckets[..])
      && forall k :: k in strings.Contents ==> strings.Contents[k].chars == k && strings.Contents[k].len == |k|
    }

    /** `New`: an empty intern table. */
    constructor ()
      ensures Valid() && fresh(strings) && fresh(strings.buckets)
      ensures strings.Contents == map[] && strings.size == 0 && strings.capacity == 0
    {
      strings := new Table<String>();
    }

    /**
     * `intern`: the `String` already recorded for `s`, or else a new one,
     * recorded for `s` and returned by the lookup that follows the `Set`.
     */
    method Intern(s: Key) returns (r: String)
      requires Valid()
      modifies strings, strings.buckets
      ensures Valid() && (strings.buckets == old(strings.buckets) || fresh(strings.buckets))
      ensures r.chars == s && r.len == |s|
      ensures s in strings.Contents && strings.Contents[s] == r
      ensures s in old(strings.Contents) ==> r == old(strings.Contents[s]) && strings.Contents == old(strings.Contents)
      ensures s in old(strings.Contents) ==>
        && strings.buckets == old(strings.buckets) && strings.buckets[..] == old(strings.buckets[..])
        && strings.size == old(strings.size) && strings.capacity == old(strings.capacity)
      ensures s !in old(strings.Contents) ==> fresh(r) && strings.Contents == old(strings.Contents)[s := r]
    {
      var found := strings.Get(s);
      if found.Some? {
        return found.value;
      }
      strings.RoomToInsert();
      var created := new String(s);
      strings.Set(s, created);
      var again := strings.Get(s);
      r := again.value;
    }

    /** `String`, the runtime's entry point for creating a string. */
    method String(s: Key) returns (r: String)
      requires Valid()
      modifies strings, strings.buckets
      ensures Valid() && (strings.buckets == old(strings.buckets) || fresh(strings.buckets))
      ensures r.chars == s && r.len == |s|
      ensures s in strings.Contents && strings.Contents[s] == r
      ensures s in old(strings.Contents) ==> r == old(strings.Contents[s]) && strings.Contents == old(strings.Contents)
      ensures s in old(strings.Contents) ==>
        && strings.buckets == old(strings.buckets) && strings.buckets[..] == old(strings.buckets[..])
        && strings.size == old(strings.size) && strings.capacity == old(strings.capacity)
      ensures s !in old(strings.Contents) ==> fresh(r) && strings.Contents == old(strings.Contents)[s := r]
    {
      r := Intern(s);
    }

    /** Interned strings are the same object exactly when their contents are equal. */
    lemma SameObjectIffSameContents(a: Key, b: Key)
      requires Valid() && a in strings.Contents && b in strings.Contents
      ensures strings.Contents[a] == strings.Contents[b] <==> a == b
    {
    }
  }
}
