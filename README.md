# Policy-configured hash table and order-event replay, in Dafny

This project models the hash table that the jrl utility tests define in
`test/test_hash_table.cpp`, together with the order-event support code of the
probabilistic hash-map test in `test/hash_test_support.h`.

The table is a sequence of buckets. Each bucket is a sequence of (key, value)
pairs, and the table also keeps an entry count. Three policies are chosen when
a table is built:

- **Hash policy:** any function from keys to hash values. Two are modelled.
  - The trivial pass-through cast, for `size_t` keys.
  - The test's own string hash, wrapped as a free function. It packs up to
    eight characters big-endian into a `size_t` and throws for longer keys.
    The free-function wrapper only calls the function it holds, so the
    model passes that function to the table directly.
- **Length policy:** one of two small objects that choose the bucket of a
  hash and grow the table.
  - *prime length* walks a fixed table of 38 primes, starting at 131, and
    takes the remainder.
  - *power of two* starts at 128, masks the low bits and doubles.
- **Rehash policy:** load factor above 1.5, above 1.0, or never.

`insert` overwrites a present key in place. Otherwise it appends the entry to
its bucket and rehashes for as long as the rehash policy asks. `rehash` grows
the length policy, rebuilds an empty table and re-inserts every old entry
with `insert`.

Modules:

- `Bits` (`bits.dfy`): powers of two, the `size_t` modulus, bitwise AND/OR
  and left shift on naturals, with the mask and disjoint-OR facts the
  policies rely on.
- `Wrappers` (`wrappers.dfy`): `Option` and `Result`. The error carries the
  C++ exception class (`runtime_error` or `logic_error`).
- `HashPolicies` (`hash_policies.dfy`): the trivial hash and
  `weird_string_hash_function`.
- `LengthPolicies` (`length_policies.dfy`): the two length policies.
  - Each is a class whose fields `grow` updates in place.
  - A `TableStyle` value holds whichever one a table owns.
- `RehashPolicies` (`rehash_policies.dfy`): the three load-factor tests and
  the facts that make one rehash per insertion enough.
- `HashTables` (`hash_table.dfy`): the `hash_table` class.
  - The table carries a ghost `Contents` map, the abstract key→value map the
    buckets represent.
  - The invariant `WellFormed` holds when:
    - every entry sits in the bucket its hash selects;
    - no key occurs twice;
    - every entry is a pair of `Contents`;
    - the bucket lengths add up to `|Contents|`.
  - The invariant `Valid` is `WellFormed` plus the load-factor bound.
  - Rehash's re-insertions are shown to insert new keys only, through the
    rank of every entry in the order the rehash visits it.
- `ConfiguredTables` (`configured_tables.dfy`): the two tables the tests
  build with these hash policies, both with the power-of-two length policy.
  - Their constructors.
  - Where each key is stored: its hash masked with `buckets() - 1`.
  - The string-hash table takes keys of at most eight characters, the keys
    for which the string hash does not throw.
- `OrderEvents` (`order_events.dfy`): the unit-safe order records, the
  order-id hashers, the time ordering of prioritized events, the argument
  guard of the event generator, and `processSequencedOrderEvents`. The replay
  is related to a declarative reference definition of which orders are live.

## Model

| member | source | states |
|---|---|---|
| Bits.AndLowMask | test/test_hash_table.cpp:174-178 | masking a hash with 2^k - 1 keeps exactly its remainder modulo 2^k |
| Bits.OrDisjoint | test/test_hash_table.cpp:184-185 | OR of a multiple of 2^k with a number below 2^k is their sum, so shifting the mask left and OR-ing in 1 adds one |
| Bits.ShiftLeft | test/test_hash_table.cpp:183 | a size_t left shift stays below 2^64 and is the exact product when that product fits |
| LengthPolicies.PrimesAscending | test/test_hash_table.cpp:148-154 | the prime table strictly increases, so every later entry is a larger bucket count |
| LengthPolicies.PrimeLengthTableStyle.constructor | test/test_hash_table.cpp:114-117 | a new policy is at index 7 of the prime table |
| LengthPolicies.PrimeLengthTableStyle.InitialBucketCount | test/test_hash_table.cpp:119-123 | the initial bucket count is primes_[7] = 131 |
| LengthPolicies.PrimeLengthTableStyle.Length | test/test_hash_table.cpp:141-146 | the current length is never below the initial 131 |
| LengthPolicies.PrimeLengthTableStyle.HashToBucket | test/test_hash_table.cpp:125-129 | the bucket is the hash modulo the current prime, hence below the length, and a hash already below the length is its own bucket |
| LengthPolicies.PrimeLengthTableStyle.NextLength | test/test_hash_table.cpp:131-136 | the length after a grow is strictly larger than the current one |
| LengthPolicies.PrimeLengthTableStyle.Grow | test/test_hash_table.cpp:131-136 | grow advances the index by one, keeps it inside the table, and returns the new length |
| LengthPolicies.PowerOfTwoLengthTableStyle.constructor | test/test_hash_table.cpp:162-166 | a new policy has count 128 and mask 127 |
| LengthPolicies.PowerOfTwoLengthTableStyle.InitialBucketCount | test/test_hash_table.cpp:168-172 | the initial bucket count is 2^7 = 128 |
| LengthPolicies.PowerOfTwoLengthTableStyle.Length | test/test_hash_table.cpp:193-194 | the length is at least 128 and equals mask + 1 |
| LengthPolicies.PowerOfTwoLengthTableStyle.HashToBucket | test/test_hash_table.cpp:174-178 | hash & mask is the hash modulo the count, hence below it |
| LengthPolicies.PowerOfTwoLengthTableStyle.NextLength | test/test_hash_table.cpp:183 | the next length is twice the current one |
| LengthPolicies.PowerOfTwoLengthTableStyle.Grow | test/test_hash_table.cpp:180-188 | grow doubles the count and keeps mask == count - 1, the claim of the assert the return makes unreachable |
| LengthPolicies.InitialBucketCount | test/test_hash_table.cpp:323-324 | either policy starts with at least 128 buckets |
| LengthPolicies.TableStyle.HashToBucket | test/test_hash_table.cpp:396 | whatever the policy, the bucket is the hash modulo the length, so the bucket index is in range |
| LengthPolicies.TableStyle.Grow | test/test_hash_table.cpp:416 | growing the owned policy returns its new length, which is its previous next length |
| RehashPolicies.NeedsRehashIsLoadFactor | test/test_hash_table.cpp:202-220 | the integer tests 2e > 3b and e > b hold exactly when entries / buckets exceeds 1.5 and 1.0 |
| RehashPolicies.NeedsRehash | test/test_hash_table.cpp:205-209 | the threshold policies compare entries / buckets with 1.5 or 1.0 (multiplied out), so a rehash is asked for only when there are more entries than buckets; no_rehash (lines 250-254) never asks |
| RehashPolicies.BoundMonotone | test/test_hash_table.cpp:205-209 | fewer entries or more buckets keep a satisfied load-factor bound satisfied |
| RehashPolicies.GrowthRestoresBound | test/test_hash_table.cpp:359-361 | after one insertion into a table within its bound, any larger bucket count restores the bound |
| HashTables.TotalLengthUpdate | test/test_hash_table.cpp:357-358 | replacing one bucket changes the entry total by the difference of the bucket lengths |
| HashTables.KeysOfCard | test/test_hash_table.cpp:432-433 | a table whose keys sit in their hash buckets without repeats holds as many distinct keys as entries |
| HashTables.WellFormedKeys | test/test_hash_table.cpp:432-433 | the keys stored in a well-formed table are exactly the keys of its map |
| HashTables.WellFormedFind | test/test_hash_table.cpp:393-406 | a key is in the map exactly when it is stored in the bucket of its hash |
| HashTables.WellFormedEmpty | test/test_hash_table.cpp:324 | n empty buckets represent the empty map |
| HashTables.WellFormedAppend | test/test_hash_table.cpp:355-358 | appending an absent key to its bucket represents the map with that key added |
| HashTables.WellFormedOverwrite | test/test_hash_table.cpp:349-352 | overwriting a stored entry in place represents the map updated at that key |
| HashTables.KeysUnique | test/test_hash_table.cpp:344-363 | across a well-formed table no key is stored at two positions |
| HashTables.FlattenIndex | test/test_hash_table.cpp:422-423 | entry i of bucket b is visited at position TotalLength(t[..b]) + i of the rehash order |
| HashTables.RanksOfBucket | test/test_hash_table.cpp:422-426 | in a well-formed table every stored key has as rank its one position in the rehash order |
| HashTables.HashTable.constructor | test/test_hash_table.cpp:323-326 | a new table has the policy's initial number of buckets, all empty, size 0, and satisfies the invariant |
| HashTables.HashTable.Size | test/test_hash_table.cpp:328-332 | size() is the number of keys of the map the table represents |
| HashTables.HashTable.Buckets | test/test_hash_table.cpp:334-338 | buckets() is the length policy's current length, never 0 |
| HashTables.HashTable.FindEntry | test/test_hash_table.cpp:393-406 | the index is hash_to_bucket(hash(key)) and is below the bucket count; an entry is found exactly when the key is present, and it is that key's entry |
| HashTables.HashTable.Get | test/test_hash_table.cpp:368-377 | get returns the stored value of a present key and nullopt for an absent one |
| HashTables.HashTable.Insert | test/test_hash_table.cpp:344-363 | the map gains key ↦ value; a present key is overwritten in place with size unchanged; an absent one adds 1 to size and is appended to its bucket unless the table grows; the load-factor bound holds afterwards; no_rehash never changes buckets() |
| HashTables.HashTable.InsertNew | test/test_hash_table.cpp:354-362 | appending an absent key and rehashing while the policy asks grows the table at most once, to the policy's next length, and restores the bound |
| HashTables.HashTable.OverwriteEntry | test/test_hash_table.cpp:349-353 | the value of a stored entry is replaced in place; the map is updated at its key and the count is unchanged |
| HashTables.HashTable.AppendEntry | test/test_hash_table.cpp:355-358 | the entry goes to the end of its bucket, the map gains it and the count grows by one |
| HashTables.HashTable.Rehash | test/test_hash_table.cpp:412-430 | rehash moves to the policy's next length and keeps the whole key→value map and the entry count, so the logic_error check never fires; the bound holds afterwards |
| HashTables.HashTable.ReinsertAll | test/test_hash_table.cpp:422-426 | re-inserting all old entries, bucket by bucket, never grows the table, counts every old entry once and inserts only pairs of the old map |
| HashTables.HashTable.ReinsertBucket | test/test_hash_table.cpp:423-425 | re-inserting one old bucket adds its length to the count without growing the table |
| HashTables.HashTable.ReinsertEntry | test/test_hash_table.cpp:424 | re-inserting one old entry adds it to the map without growing the table |
| HashPolicies.ToSizeT | test/test_hash_table.cpp:463 | static_cast to size_t keeps a value that fits and sign-extends a negative one to 2^64 + x |
| HashPolicies.TrivialHash | test/test_hash_table.cpp:90-103 | the trivial hash returns the key itself when it fits a size_t |
| HashPolicies.TrivialHashInjective | test/test_hash_table.cpp:97-101 | two keys that fit a size_t get the same trivial hash only when they are equal |
| HashPolicies.WeirdStringHash | test/test_hash_table.cpp:454-470 | a key longer than 8 characters throws runtime_error; otherwise the result is the OR-packing of the characters, below 2^64, and for characters that are not negative it is the big-endian base-256 value, 0 for the empty key |
| HashPolicies.PackedIsBigEndian | test/test_hash_table.cpp:461-468 | for at most 8 non-negative characters, the first i packing steps give the big-endian value of the first i characters shifted up by the bytes still to come |
| HashPolicies.PackNext | test/test_hash_table.cpp:463-467 | one loop step shifts the next character without loss and ORs it in as the next base-256 digit |
| ConfiguredTables.ShortKeyHash | test/test_hash_table.cpp:454-470 | on a key of at most 8 characters the string hash does not throw; its value is the OR-packing `Packed` of all its characters (what WeirdStringHash returns), below 2^64, and the big-endian value for characters that are not negative |
| ConfiguredTables.NewTrivialTable | test/test_hash_table.cpp:531-535 | the trivial-hash table of size_t keys is a newly allocated table that starts empty and valid with 128 buckets, and hashes every key to itself |
| ConfiguredTables.TrivialTableFirstInsert | test/test_hash_table.cpp:537-543 | after inserting 20010911 into a new trivial-hash table, looking it up gives "foo" and the size is 1 |
| ConfiguredTables.NewWeirdStringTable | test/test_hash_table.cpp:474-484 | the table hashed by the free-function wrapper around the string hash is newly allocated and starts empty and valid with 128 buckets, and hashes every key as the string hash does |
| ConfiguredTables.PowerOfTwoPlacement | test/test_hash_table.cpp:396-397 | in a power-of-two table a key's bucket is hash & (buckets() - 1), equal to hash % buckets(), and the key is present exactly when that bucket stores it, with its value |
| ConfiguredTables.TrivialTablePlacement | test/test_hash_table.cpp:90-103 | in the trivial-hash table key k is present exactly when bucket k & (buckets() - 1), which is k % buckets(), stores it |
| ConfiguredTables.WeirdStringTablePlacement | test/test_hash_table.cpp:73-84 | in the string-hash table a key is present exactly when the bucket of its packing masked with buckets() - 1 stores it; for a key without negative characters that bucket is its big-endian value modulo buckets() |
| OrderEvents.Hasher | test/hash_test_support.h:95-102 | the order-id hasher returns a value below 2^64 |
| OrderEvents.UnitSafeTrivialHash | test/hash_test_support.h:110-118 | the unit-safe hasher returns a value below 2^64 |
| OrderEvents.HashersExact | test/hash_test_support.h:95-118 | both hashers return the underlying integer unchanged, so they agree and never collide |
| OrderEvents.EventLess | test/hash_test_support.h:123-126 | lhs < rhs compares the time components only, so two events at the same time are never ordered |
| OrderEvents.EventLessStrictWeakOrder | test/hash_test_support.h:123-126 | the event ordering compares times only and is a strict weak order; events at the same time are equivalent |
| OrderEvents.GenerateEventsGuard | test/hash_test_support.h:159-163 | a negative event count throws runtime_error; any other is cast to unsigned, unchanged when it fits |
| OrderEvents.ArrivedState | test/hash_test_support.h:205-207 | the record ARRIVE stores is all zero (SELL is direction 0) except ordId, which is the event's id |
| OrderEvents.Apply | test/hash_test_support.h:203-214 | ARRIVE makes the id present, with the zeroed record if it was absent; DEPART makes it absent; no other id changes |
| OrderEvents.ProcessSequencedOrderEvents | test/hash_test_support.h:195-221 | the loop yields the events applied one by one, in list order |
| OrderEvents.ReplayAppend | test/hash_test_support.h:199-220 | replaying two lists in a row is replaying their concatenation |
| OrderEvents.ReplayMembership | test/hash_test_support.h:195-221 | after the replay an id is present exactly when it arrived and never departed since, or was present before and never departed |
| OrderEvents.ReplayValue | test/hash_test_support.h:203-209 | a present id holds its old record if it was never departed, and otherwise the zeroed record with its own id |
| OrderEvents.ReplayKeysAgree | test/test_hash_map.cpp:164-181 | replaying the same events into two maps with the same keys gives equal key sets and sizes; from empty maps, exactly the ids that arrived and did not depart afterwards |

## Left out

- The body of `generateEvents` is not modelled, only its negative-count guard. The body draws exponential float delays from a seeded random engine and sorts the events through `std::priority_queue`.
- `test/cmdline.cpp` and the benchmark harness are not part of this model. They are console I/O and timing code.
- RehashPolicies.NeedsRehash: the source divides in single-precision floating point. The model compares the exact ratio, and float rounding is not modelled.
- `std::hash<KeyType>` is the default hasher and a library call. The table takes any hash function `K -> nat` as a parameter.
- Exceptions thrown by a hash function inside `insert` or `get` are not modelled. The table's hash is total. The string-hash table is therefore built over keys of at most eight characters, and a longer key reaching the table, which would throw `runtime_error` out of `insert` or `get`, is not modelled.
- The policy-binder macros and the `static_assert` policy-count check are compile-time template code. A table is built with its three policies given as values.
- `rehash_default_load_factor_threshold_policy_new` is not modelled, because no binder selects it.
- HashTables.HashTable.Insert requires that a rehash it causes is possible (`CanGrow`). The source gives no guarantee there:
  - growing past the last prime indexes outside the prime table;
  - doubling a power-of-two count of 2^63 overflows `size_t`.
- `vector` allocation failure is not modelled.
- HashTables.HashTable.Rehash states the new table only up to the order of entries within a bucket. It does not say that entries keep their relative order.
- The `hash_map`/`hash_set` adapters are not part of this model. This covers the `hash_map` the probabilistic test replays events into, and its `emplace` and `erase`. OrderEvents.ReplayKeysAgree relates two maps that both follow `std::unordered_map` semantics: `emplace` keeps an existing entry, and `erase` ignores an absent key.
- OrderEvents.ProcessSequencedOrderEvents takes the map as an input and returns the updated map, rather than updating a reference parameter.
- The `runtime_error` for an unknown order event is unreachable in the model. `OrderEvent` has exactly the two constructors ARRIVE and DEPART.
- HashPolicies.WeirdStringHash assumes a signed `char`, as on x86, and models a character as a signed byte (`int8`). Where `char` is unsigned, as on ARM, the cast to `size_t` never sign-extends. The model does not cover that platform.
- HashPolicies.WeirdStringHash: the big-endian property is stated for keys without negative characters. A negative `char` is sign-extended and sets every higher bit. For such keys the result is stated as the OR-packing (`Packed`) only.
- LengthPolicies.PrimesAscending: that the entries of the prime table are prime is not proved. Only their order matters to the table.
- The other test files, and the test cases of `test/test_hash_table.cpp` themselves, are not part of this model. They exercise headers outside it.
