# String interning on an open-addressing hash table

This project models the core of a small Go program. A runtime interns strings so that two strings with the same contents are the same object, and equality can then be checked by comparing references. The intern table is a hash table of the program's own:

- open addressing over an array of buckets, with linear probing;
- the 32-bit FNV-1a hash, computed in Go's 64-bit `int`;
- removal that leaves a shared tombstone entry in the bucket;
- growth to `2 * capacity + 1` buckets, just before an insert that would take the table past three quarters of its capacity.

Modules:

- `Fnv` — the hash. The accumulator is the mathematical value of the Go `int`, kept in [-2^63, 2^63). `Wrap` writes out the 64-bit two's-complement wrap-around. `XorByte` writes out the xor with a byte, which only changes the low eight bits. `ComputeHash` is the loop of `hash`, proved equal to the reference definition `Hash`.
- `Probe` — the bucket array as a sequence of slots (`Empty`, `Tombstone`, `Occupied(key, value)`), with:
  - the home bucket;
  - the probe step;
  - the lookup loop of `find`/`Remove`;
  - the stopping rule of `insert`'s probe;
  - the table invariant `Wf`, with one lemma per operation showing that operation keeps it. `Wf` says:
    - `size` counts the live entries and the keys;
    - each key sits in exactly one live bucket;
    - each key is reachable from its home bucket without crossing an empty bucket.
- `Hashtable` — class `Table<V>`. Its fields are `size`, `capacity` and `buckets` (an array). Ghost fields record the abstract map (`Contents`), each key's bucket (`Index`) and each key's home bucket (`Homes`). Every state-changing operation of the source is a method, and so is every loop: the probe of `find` and of `insert`, and the re-insertion loop of `doubleCapacity`. Each is proved against `Contents` and against the invariant.
- `Vm` — class `String` (length and contents) and class `VM`, which holds the intern table. `Intern` returns the recorded object for known contents. For new contents it creates, records and returns a fresh object.
- `Findings` — three places where the code does something its authors evidently did not intend. Each is modelled as written and exhibited, beside the corrected behaviour that the rest of the model uses.
- `Scenarios` — the repository's tests as methods whose postconditions are the tests' assertions. Each test is stated for any distinct keys in place of the literal ones.

Where the model departs from the code:

- **Home bucket.** The code computes `hash(key) % capacity` with Go's truncating `%`, so the index is negative, and the bucket access panics, when the hash is negative and not a multiple of the capacity. The model uses the non-negative remainder (`Probe.Bucket`). It equals the code's index whenever that index is not negative.
- **Probe bound.** The code bounds the probe by `size`. The model bounds it by the number of buckets (`Probe.FindSpec`). The size bound of line 107 is kept in isolation, with live-only matching, as `Findings.FindSizeBounded`. `Findings.FindAsWritten` is the lookup as written for the probe bound and the sentinel match, from the corrected home bucket `Home`.
- **Tombstone matching.** The code's lookup matches the tombstone for the key "tombstone". The model matches only live entries.

All three are listed under Findings. Nothing here was executed.

## Model

| member | source | states |
|---|---|---|
| Fnv.Wrap | src/hashtable/hashtable.go:59-62 | the result is a Go `int` congruent to the exact value modulo 2^64, and a value already in range is unchanged |
| Fnv.XorByte | src/hashtable/hashtable.go:60 | xoring a byte into a Go `int` keeps every bit above the low byte, sets the low byte to the xor of the two bytes, and stays a Go `int` |
| Fnv.Round | src/hashtable/hashtable.go:59-62 | one byte step yields a Go `int` |
| Fnv.Hash | src/hashtable/hashtable.go:56-65 | the hash of any string is a Go `int` |
| Fnv.ComputeHash | src/hashtable/hashtable.go:56-65 | the loop returns the reference hash of its input |
| Fnv.HashOfEmpty | src/hashtable/hashtable.go:57 | the hash of the empty string is the offset basis 2166136261 |
| Fnv.HashSnoc | src/hashtable/hashtable.go:59-62 | appending a byte applies exactly one xor-and-multiply step to the hash of the prefix |
| Probe.GoRem | src/hashtable/hashtable.go:102 | the code's index: Go's `%` lies strictly between `-n` and `n` and takes the sign of the dividend |
| Probe.Bucket | src/hashtable/hashtable.go:102 | the home bucket is a bucket, and it is the code's index whenever that is not negative |
| Probe.Home | src/hashtable/hashtable.go:102 | a key's home bucket lies inside the table |
| Probe.Next | src/hashtable/hashtable.go:121 | a probe step stays inside the table |
| Probe.NextIsRem | src/hashtable/hashtable.go:121 | the probe step is `(index + 1) % capacity` |
| Probe.FindLoop | src/hashtable/hashtable.go:104-122 | a bucket the probe loop returns holds a live entry for the key |
| Probe.FindSpec | src/hashtable/hashtable.go:97-123 | `find` returns nothing on an empty table, and otherwise only a live bucket holding the key |
| Probe.NonEmptyHasBuckets | src/hashtable/hashtable.go:98-102 | a table with live entries has buckets, so the index computation never divides by zero |
| Probe.FindOnlyLive | src/hashtable/hashtable.go:111-118 | on a well-formed table, whatever the lookup returns is the stored key's bucket, holding the stored value |
| Probe.FindLoopReaches | src/hashtable/hashtable.go:104-122 | a probe that meets neither an empty bucket nor another copy of the key, and has steps left, stops at the key's bucket |
| Probe.FindComplete | src/hashtable/hashtable.go:97-123 | on a well-formed table, the lookup finds every stored key in its own bucket, tombstones or not |
| Probe.AllEmptyWf | src/hashtable/hashtable.go:80-82 | an array of empty buckets is a well-formed empty table without tombstones |
| Probe.NotFullHasEmpty | src/hashtable/hashtable.go:181-188 | without tombstones, fewer live entries than buckets leaves an empty bucket for `insert` to use |
| Probe.SizeAtMostCapacity | src/hashtable/hashtable.go:48-50 | the live entries never outnumber the buckets |
| Probe.ChainStable | src/hashtable/hashtable.go:181-191 | a probe chain free of empty buckets stays so under any update that empties no bucket |
| Probe.ReachableStable | src/hashtable/hashtable.go:181-191 | every key stays reachable from its home bucket under any update that empties no bucket |
| Probe.StopsOpen | src/hashtable/hashtable.go:180-195 | the buckets that `insert`'s probe steps over are not empty |
| Probe.StopsAtKey | src/hashtable/hashtable.go:180-195 | `insert`'s probe stops at a live bucket exactly when the key is stored, and then at the key's own bucket |
| Probe.InsertNewWf | src/hashtable/hashtable.go:181-188 | filling the empty stop with a new key keeps the table well formed, with the key added and the size one larger |
| Probe.InsertCounted | src/hashtable/hashtable.go:187 | the new entry and the incremented size agree |
| Probe.InsertPlaced | src/hashtable/hashtable.go:182-185 | the new key sits in the filled bucket and every other key stays where it was |
| Probe.InsertReachable | src/hashtable/hashtable.go:181-186 | the new key is reachable from its home bucket and the other keys stay reachable |
| Probe.InsertHomesAt | src/hashtable/hashtable.go:178 | the new key's recorded home is its home bucket |
| Probe.OverwriteWf | src/hashtable/hashtable.go:189-191 | replacing a stored key's value keeps the table well formed and changes only that value |
| Probe.OverwriteCounted | src/hashtable/hashtable.go:190 | replacing a value keeps the size and the live entries |
| Probe.OverwritePlaced | src/hashtable/hashtable.go:190 | replacing a value keeps every key in its bucket, with the new value |
| Probe.RemoveWf | src/hashtable/hashtable.go:166-168 | turning a stored key's bucket into a tombstone keeps the table well formed, with exactly that key removed and the size one smaller |
| Probe.RemoveCounted | src/hashtable/hashtable.go:167-168 | the size was positive and drops with the live entry |
| Probe.RemovePlaced | src/hashtable/hashtable.go:167 | the other keys stay in their buckets |
| Probe.RemoveReachable | src/hashtable/hashtable.go:167 | a tombstone does not block the other keys' probes |
| Probe.HomesAtRemove | src/hashtable/hashtable.go:166-168 | the recorded homes of the remaining keys stay right |
| Probe.BelowStep | src/hashtable/hashtable.go:84-90 | passing one old bucket adds its live entry, if any, to the entries re-inserted so far |
| Probe.BelowAll | src/hashtable/hashtable.go:84-90 | after the last old bucket, every entry has been re-inserted |
| Hashtable.Table.constructor | src/hashtable/hashtable.go:213-220 | a new table is valid and empty, with no buckets and no tombstones |
| Hashtable.Table.WillExceedCapacity | src/hashtable/hashtable.go:67-72 | the load check fires exactly when `4 * (size + 1) > 3 * capacity` |
| Hashtable.Table.Size | src/hashtable/hashtable.go:209-211 | the size is the number of stored keys |
| Hashtable.Table.IsEmpty | src/hashtable/hashtable.go:93-95 | the table is empty exactly when nothing is stored |
| Hashtable.Table.Find | src/hashtable/hashtable.go:97-123 | the probe loop returns the lookup's result, a bucket holding a live entry for the key |
| Hashtable.Table.LookupFacts | src/hashtable/hashtable.go:97-123 | the lookup finds a key exactly when it is stored, in its own bucket, which holds its value |
| Hashtable.Table.Has | src/hashtable/hashtable.go:125-130 | `Has` holds exactly for the stored keys |
| Hashtable.Table.Get | src/hashtable/hashtable.go:132-142 | `Get` returns the stored value of a stored key and nothing for any other key |
| Hashtable.Table.Remove | src/hashtable/hashtable.go:144-175 | the key is no longer stored; a stored key's bucket becomes a tombstone and the size drops by one; otherwise the buckets and size are unchanged |
| Hashtable.Table.PutTombstone | src/hashtable/hashtable.go:166-168 | the key's bucket becomes the tombstone, the size drops by one and the key leaves the contents |
| Hashtable.Table.LiveBucket | src/hashtable/hashtable.go:166-168 | a stored key's bucket exists and the size is positive |
| Hashtable.Table.TombstoneValid | src/hashtable/hashtable.go:166-168 | the state after tombstoning a stored key is valid |
| Hashtable.Table.InsertProbe | src/hashtable/hashtable.go:178-195 | `insert`'s probe loop ends at the first bucket from the key's home that is empty or holds the key |
| Hashtable.Table.ProbeCanStop | src/hashtable/hashtable.go:180-195 | if the key is stored or a bucket is empty, some bucket stops the probe |
| Hashtable.Table.ProbeStop | src/hashtable/hashtable.go:180-195 | the probe stops at an empty bucket exactly when the key is absent, and otherwise at the key's bucket |
| Hashtable.Table.Insert | src/hashtable/hashtable.go:177-196 | the key maps to the value; a stored key keeps its bucket and the size; a new key fills the first empty stop and the size grows by one; no tombstone is created |
| Hashtable.Table.Fill | src/hashtable/hashtable.go:181-188 | the empty stop receives the new entry, the size grows by one and the table stays valid |
| Hashtable.Table.FillValid | src/hashtable/hashtable.go:181-188 | the state after filling the empty stop is valid |
| Hashtable.Table.Overwrite | src/hashtable/hashtable.go:189-191 | the key's bucket gets the new value, nothing else changes and the table stays valid |
| Hashtable.Table.OverwriteValid | src/hashtable/hashtable.go:189-191 | the state after overwriting a value is valid |
| Hashtable.Table.DoubleCapacity | src/hashtable/hashtable.go:74-91 | the table has `2 * capacity + 1` fresh buckets, the same contents and size, no tombstone, and an empty bucket |
| Hashtable.Table.Clear | src/hashtable/hashtable.go:78-82 | a fresh array of `n` empty buckets holding nothing |
| Hashtable.Table.ReinsertAll | src/hashtable/hashtable.go:84-90 | re-inserting every live entry of the old array rebuilds the old contents in the new buckets |
| Hashtable.Table.Reinsert | src/hashtable/hashtable.go:85-89 | a live old entry is inserted as a new key; an empty bucket or a tombstone is skipped |
| Hashtable.Table.OldPlaced | src/hashtable/hashtable.go:78 | the old array places every stored key and its size counts them |
| Hashtable.Table.EmptyValid | src/hashtable/hashtable.go:82 | the freshly made array is a valid empty table |
| Hashtable.Table.Regrown | src/hashtable/hashtable.go:84-90 | after the loop the contents are the old ones, and the larger table has an empty bucket |
| Hashtable.Table.Set | src/hashtable/hashtable.go:198-207 | the key maps to the value and the size counts it once; the table grows exactly when the load check fires; without growth, a stored key's bucket gets the new value in place and a new key fills the insert probe's empty stop, every other bucket unchanged; no tombstone is created |
| Hashtable.Table.RoomToInsert | src/hashtable/hashtable.go:199-206 | without tombstones, either the load check fires or an empty bucket is left, so `Set` always ends |
| Hashtable.FirstSetGrows | src/hashtable/hashtable.go:67-82 | the first `Set` on a new table grows it to one bucket |
| Vm.String.constructor | src/vm/vm.go:54-59 | a new string records the length and the contents it is made from |
| Vm.VM.constructor | src/vm/vm.go:76-80 | a new runtime has an empty intern table, of size 0 and capacity 0 |
| Vm.VM.Intern | src/vm/vm.go:61-70 | the result has the given contents and is the table's entry for them; known contents return the recorded object and leave the table as it was: the contents, size, capacity and bucket array are unchanged; new contents return a fresh object, now recorded |
| Vm.VM.String | src/vm/vm.go:72-74 | the same as interning, the unchanged table on a hit included |
| Vm.VM.SameObjectIffSameContents | src/vm/vm.go:61-70 | two interned strings are the same object exactly when their contents are equal |
| Findings.HashOfH | src/hashtable/hashtable.go:56-65 | the hash of "h" is 36342608486479703 |
| Findings.HashOfHa | src/hashtable/hashtable.go:56-65 | the hash of "ha" is 3760039927035390466 |
| Findings.HashOfHaa | src/hashtable/hashtable.go:56-65 | the hash of "haa" is negative: -8550821742715668007 |
| Findings.NegativeIndex | src/hashtable/hashtable.go:102 | as written, the index of "haa" in three buckets is -1; its home bucket is 2 |
| Findings.BucketIsEuclidean | src/hashtable/hashtable.go:102 | the corrected home bucket is the Euclidean remainder of the hash, the code's index when that is not negative, and the index plus `n` otherwise |
| Findings.FindLoopAsWritten | src/hashtable/hashtable.go:104-122 | the probe loop as written returns a bucket whose entry has the key, the tombstone included for the key "tombstone" |
| Findings.FindAsWritten | src/hashtable/hashtable.go:97-123 | `find` as written for the probe bound and the sentinel match, from the corrected home bucket: nothing on an empty table, and otherwise such a bucket |
| Findings.RemoveAsWritten | src/hashtable/hashtable.go:144-175 | `Remove` as written for the probe bound and the sentinel match, from the corrected home bucket, tombstones the bucket it finds and decrements the size, and otherwise changes nothing |
| Findings.ThreeBucketsWf | src/hashtable/hashtable.go:37-40 | the three-bucket table that `Set("g")`, `Set("a")`, `Remove("g")` leave, with the tombstone in the home bucket of "tombstone" and the live key after it, is well formed |
| Findings.SentinelKeyBreaksSize | src/hashtable/hashtable.go:152-169 | as written, removing "tombstone", which was never stored, drops the size to 0 while a live entry remains, and that entry is then not found |
| Findings.SentinelKeyFound | src/hashtable/hashtable.go:111-118 | as written, the lookup reports "tombstone" present in a table that never stored it |
| Findings.AsWrittenAgreesElsewhere | src/hashtable/hashtable.go:116 | for every key other than "tombstone", and for every key on a table without tombstones, the as-written probe loop and the corrected one agree |
| Findings.FindSizeBounded | src/hashtable/hashtable.go:104-109 | the size bound of line 107 in isolation, with live-only matching: it returns only live buckets holding the key, and nothing on an empty table |
| Findings.SizeBoundMissesKey | src/hashtable/hashtable.go:107 | as written, a well-formed table of size 1 with a tombstone in the key's home bucket reports the key absent; the corrected lookup finds it |
| Findings.SizeBoundedAgrees | src/hashtable/hashtable.go:107 | the size-bounded lookup never finds a wrong bucket, and without tombstones it agrees with the corrected lookup |
| Findings.FindFrom | src/hashtable/hashtable.go:104-122 | without tombstones, the size-bounded probe reaches every stored key |
| Findings.AsWrittenFindWithoutTombstones | src/hashtable/hashtable.go:97-123 | on a well-formed table without tombstones, such as the interner's, the lookup as written returns exactly what the corrected lookup returns |
| Findings.TombstonesStallInsert | src/hashtable/hashtable.go:180-195 | a well-formed table of one live entry and two tombstones passes the load check, yet no bucket stops `insert`'s probe for another key |
| Scenarios.Put | src/hashtable/hashtable.go:198-207 | on a table without tombstones, `Set` maps the key to the value, counts a new key once and leaves no tombstone |
| Scenarios.Delete | src/hashtable/hashtable.go:144-175 | `Remove` takes the key out and the size counts what is left |
| Scenarios.SizeTest | src/hashtable/hashtable_test.go:12-42 | the sizes are 0, 1, 2, 1, 1, 0, 0 |
| Scenarios.SizeTestSets | src/hashtable/hashtable_test.go:15-25 | after the two `Set`s the sizes are 0, 1, 2 and both keys are stored |
| Scenarios.SizeTestRemoveFoo | src/hashtable/hashtable_test.go:27-33 | removing "foo" twice leaves size 1 both times |
| Scenarios.SizeTestRemoveRest | src/hashtable/hashtable_test.go:35-41 | removing "abc", then a key never stored, leaves size 0 both times |
| Scenarios.IsEmptyTest | src/hashtable/hashtable_test.go:44-62 | `IsEmpty` is true, false, false, true |
| Scenarios.HasTest | src/hashtable/hashtable_test.go:64-80 | `Has` is false, true, false, false |
| Scenarios.GetTest | src/hashtable/hashtable_test.go:82-98 | `Get` returns nothing, 1, nothing, nothing |
| Scenarios.StringTest | src/vm/vm_test.go:13-21 | equal contents give the same object twice, and different contents different objects |

## Left out

- The read/write mutex and everything about concurrency, including the load check `Set` makes before it takes the lock, and the empty-table check `Remove` makes before it takes the lock. Each operation is modelled as one atomic step.
- The floating-point product `float64(capacity) * 0.75` is the integer `capacity * 3 / 4`. The truncating conversion makes the two agree for every capacity a real program can reach.
- Capacities and sizes are unbounded integers. An overflow of `2 * capacity + 1` or of `size` is not modelled.
- Values are a type parameter `V` in place of `interface{}`. The runtime's table holds only `String` objects, so the type assertion in `intern` cannot fail and is left out.
- Vm.String.constructor: `chars` holds the contents rather than an `unsafe.Pointer` to a local string header. The pointer's aliasing is not modelled.
- Entries are bucket values, not pointers to heap entries. Overwriting a value in place is a bucket update. The shared sentinel's identity is the `Tombstone` slot.
- The code's `insert` also stops at the tombstone for the key "tombstone" and writes the value into the shared sentinel. The model's `insert` steps over tombstones for every key (part of the second finding).
- Hashtable.Table.Set: requires that the load check fires, the key is stored, or an empty bucket exists. Otherwise the code's `insert` probe never stops (`Findings.TombstonesStallInsert`). The runtime never removes strings, so it always meets this requirement (`Hashtable.Table.RoomToInsert`).
- Hashtable.Table.Insert: requires that the key is stored or that an empty bucket exists, for the same reason.
- Scenarios: the tests' literal keys are replaced by any keys that are pairwise distinct. The tests' values (a struct with an `x` field, a string, an integer) are the datatype `Value`.
- `main.go`, the demonstration program, is not part of this model.

## Findings

| source | as written | input that shows it | evidently intended | confidence | as-written member | corrected member |
|---|---|---|---|---|---|---|
| src/hashtable/hashtable.go:102 | `hash(key) % table.capacity` uses Go's truncating `%` on a signed hash, so the index is negative when the hash is negative and not a multiple of the capacity | `Set("a")` then `Set("haa")`: the second `Set` grows the table to 3 buckets; "haa" hashes to -8550821742715668007, giving index -1, and the bucket access panics | the home bucket is the non-negative remainder, bucket 2 for "haa" | not executed | Findings.NegativeIndex | Findings.BucketIsEuclidean |
| src/hashtable/hashtable.go:116 | the probe compares `entry.key == key` also on the shared tombstone, whose key is "tombstone" | `Set("g")`, `Set("a")`, `Remove("g")` leaves the tombstone in bucket 1, the home bucket of "tombstone"; `Has("tombstone")` is then true, and `Remove("tombstone")` drops the size to 0 while "a" is still stored | tombstones never match a key | not executed | Findings.SentinelKeyBreaksSize | Probe.FindOnlyLive |
| src/hashtable/hashtable.go:107 | the probe gives up after visiting `size` buckets, and `size` does not count the tombstones it steps over | `Set("a")`, `Set("b")` (both home to bucket 2 of 3, so "b" goes to bucket 0), `Remove("a")`: the probe for "b" spends its one visit on the tombstone, and `Has("b")` is false | the probe may visit every bucket once, so every stored key is found | not executed | Findings.SizeBoundMissesKey | Probe.FindComplete |
