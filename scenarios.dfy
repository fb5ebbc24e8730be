/**
 * The repository's tests, as methods whose postconditions state what each
 * test asserts. The tables and the runtime are created locally, so the
 * methods change nothing outside themselves.
 */
module Scenarios {
  import opened Wrappers
  import opened Probe
  import opened Hashtable
  import opened Vm

  /** The values the tests store: a struct with an `x` field, a string, a number. */
  datatype Value = Record(x: int) | Text(s: string) | Number(n: int)

  /**
   * `Set` on a table that has never had an entry removed: the key maps to
   * the value afterwards, the size counts it if it is new, and still no
   * tombstone is left.
   */
  method Put<V>(t: Table<V>, key: Key, v: V)
    requires t.Valid() && NoTombstones(t.buckets[..])
    modifies t, t.buckets
    ensures t.Valid() && NoTombstones(t.buckets[..])
    ensures t.Contents == old(t.Contents)[key := v]
    ensures |t.Contents| == if key in old(t.Contents) then |old(t.Contents)| else |old(t.Contents)| + 1
    ensures t.buckets == old(t.buckets) || fresh(t.buckets)
  {
    t.RoomToInsert();
    t.Set(key, v);
  }

  /** `Remove`, seen from the contents: the key is gone and the size counts what is left. */
  method Delete<V>(t: Table<V>, key: Key)
    requires t.Valid()
    modifies t, t.buckets
    ensures t.Valid() && t.buckets == old(t.buckets)
    ensures t.Contents == old(t.Contents) - {key}
    ensures |t.Contents| == if key in old(t.Contents) then |old(t.Contents)| - 1 else |old(t.Contents)|
  {
    t.Remove(key);
  }

  /**
   * The `Size` test, for any three distinct keys in place of "abc", "foo"
   * and "keythatdoesnotexist": the size after each step.
   */
  method SizeTest(abc: Key, foo: Key, missing: Key) returns (s0: nat, s1: nat, s2: nat, s3: nat, s4: nat, s5: nat, s6: nat)
    requires abc != foo && missing != abc && missing != foo
    ensures s0 == 0 && s1 == 1 && s2 == 2 && s3 == 1 && s4 == 1 && s5 == 0 && s6 == 0
  {
    var table;
    table, s0, s1, s2 := SizeTestSets(abc, foo);
    s3, s4 := SizeTestRemoveFoo(table, abc, foo);
    s5, s6 := SizeTestRemoveRest(table, abc, missing);
  }

  /** The two `Set`s of the `Size` test, from a new table. */
  method SizeTestSets(abc: Key, foo: Key) returns (table: Table<Value>, s0: nat, s1: nat, s2: nat)
    requires abc != foo
    ensures fresh(table) && fresh(table.buckets)
    ensures table.Valid() && NoTombstones(table.buckets[..])
    ensures |table.Contents| == 2 && abc in table.Contents && foo in table.Contents
    ensures forall k :: k in table.Contents ==> k == abc || k == foo
    ensures s0 == 0 && s1 == 1 && s2 == 2
  {
    table := new Table<Value>();
    s0 := table.Size();
    Put(table, abc, Record(1));
    s1 := table.Size();
    Put(table, foo, Text("hello"));
    s2 := table.Size();
  }

  /** The first two `Remove`s of the `Size` test: "foo", twice. */
  method SizeTestRemoveFoo(table: Table<Value>, abc: Key, foo: Key) returns (s3: nat, s4: nat)
    requires abc != foo
    requires table.Valid()
    requires |table.Contents| == 2 && abc in table.Contents && foo in table.Contents
    requires forall k :: k in table.Contents ==> k == abc || k == foo
    modifies table, table.buckets
    ensures table.Valid() && table.buckets == old(table.buckets)
    ensures |table.Contents| == 1 && forall k :: k in table.Contents ==> k == abc
    ensures s3 == 1 && s4 == 1
  {
    Delete(table, foo);
    s3 := table.Size();
    Delete(table, foo);
    s4 := table.Size();
  }

  /** The last two `Remove`s of the `Size` test: "abc", then a key never stored. */
  method SizeTestRemoveRest(table: Table<Value>, abc: Key, missing: Key) returns (s5: nat, s6: nat)
    requires missing != abc
    requires table.Valid() && |table.Contents| == 1 && forall k :: k in table.Contents ==> k == abc
    modifies table, table.buckets
    ensures s5 == 0 && s6 == 0
  {
    Delete(table, abc);
    s5 := table.Size();
    Delete(table, missing);
    s6 := table.Size();
  }

  /** The `IsEmpty` test, for any two distinct keys in place of "a" and "b". */
  method IsEmptyTest(a: Key, b: Key) returns (e0: bool, e1: bool, e2: bool, e3: bool)
    requires a != b
    ensures e0 && !e1 && !e2 && e3
  {
    var table := new Table<Value>();
    e0 := table.IsEmpty();
    Put(table, a, Number(1));
    e1 := table.IsEmpty();
    Delete(table, b);
    assert a in table.Contents;
    e2 := table.IsEmpty();
    Delete(table, a);
    assert table.Contents.Keys == {};
    e3 := table.IsEmpty();
  }

  /** The `Has` test, for any two distinct keys in place of "hello" and "hell". */
  method HasTest(hello: Key, hell: Key) returns (h0: bool, h1: bool, h2: bool, h3: bool)
    requires hello != hell
    ensures !h0 && h1 && !h2 && !h3
  {
    var table := new Table<Value>();
    h0 := table.Has(hello);
    Put(table, hello, Text("world"));
    h1 := table.Has(hello);
    h2 := table.Has(hell);
    Delete(table, hello);
    h3 := table.Has(hello);
  }

  /** The `Get` test, for any two distinct keys in place of "a" and "b". */
  method GetTest(a: Key, b: Key) returns (g0: Option<Value>, g1: Option<Value>, g2: Option<Value>, g3: Option<Value>)
    requires a != b
    ensures g0 == None && g1 == Some(Number(1)) && g2 == None && g3 == None
  {
    var table := new Table<Value>();
    g0 := table.Get(a);
    Put(table, a, Number(1));
    g1 := table.Get(a);
    g2 := table.Get(b);
    Delete(table, a);
    g3 := table.Get(a);
  }

  /**
   * The runtime's test, for any two distinct strings in place of "hello"
   * and "hello 1": equal contents give the same object, different contents
   * different ones.
   */
  method StringTest(s: Key, s1: Key) returns (hello: String, again: String, hello1: String, again1: String)
    requires s != s1
    ensures hello == again && hello1 == again1 && hello != hello1
  {
    var vm := new VM();
    hello := vm.String(s);
    again := vm.String(s);
    hello1 := vm.String(s1);
    again1 := vm.String(s1);
  }
}
