# LongMapImpl in Dafny

A model of `LongMapImpl<V>`. This class is a separately chained hash table from Java `long` keys to values.

**How the table is stored.** The table is an array of bucket heads. Each non-null slot starts a singly linked list of `Entry` nodes. The class declares nine fields (lines 20-28). The model keeps six of them:

| field | meaning |
|---|---|
| `_capacity` | the capacity used to compute bucket indexes |
| `_size` | the number of nodes |
| `_bucketsNumber` | the number of non-null slots |
| `_entries` | the bucket array |
| `_doRehash` | whether the growth step may rebuild the array |
| `_doDecreasing` | whether the shrink step may run |

The model leaves out the three `float` load fields `_maxLoad`, `_minLoad` and `_currentLoad`. The "## Left out" section says what replaces them.

**Operations.** The public operations are:

- `put`, `get`, `remove`
- `containsKey`, `containsValue`
- `keys`, `values`
- `size`, `isEmpty`, `clear`
- three constructors

The private helpers are `checkInitCapcity`, `getHash`, `calcCurrentLoad`, `rehash`, `increaseCapacity` and `decreaseCapacity`.

## Modules

**`JavaInts`** (`java_ints.dfy`) holds the Java integer semantics the class relies on:

- the `int` and `long` ranges, and the narrowing cast `(int)`, which is also `int` wrap-around;
- the truncating `/` and `%` of section 15.17 of the Java Language Specification;
- `Long.hashCode`, which is `(int)(value ^ (value >>> 32))`, written with an arithmetic XOR.

**`Chains`** (`chains.dfy`) models one collision chain as the sequence of its nodes in link order. The empty sequence stands for a `null` slot. The module also defines:

- `Updated`, which is what `setValue` does to a chain;
- `Without`, which is what promoting the next node or splicing with `setNext` does.

Both have contracts of their own. `Updated` keeps the length and every key, and it changes a node only into the new pair. `Without` removes at most one node and adds none.

**`Tables`** (`tables.dfy`) treats the bucket array as a value. It defines:

- `Slot`: the bucket index of a key;
- `Inv`: the well-formedness invariant;
- `Flatten`, `Occupied` and `Resize`: read-outs and the rebuild.

The invariant has three parts:

- keys are unique;
- each node sits in the slot its key hashes to;
- slots at or past `_capacity` are empty.

The module also defines which key/value map a table represents. Its lemmas show that each single-chain change keeps the invariant and changes the represented map in the expected way.

**`LongMaps`** (`long_map.dfy`) holds the class `LongMapImpl` itself:

- its fields, with the bucket array as `array<seq<Entry<V>>>`;
- a ghost `Contents` map;
- the class invariant `Valid()`: the array represents `Contents`, `size` counts the nodes, and `bucketsNumber` counts the non-empty slots.

Each method is proved against `Contents` and the per-slot chains `Bucket(b)`. Java exceptions are results of the form `Threw(fault)`.

**`LongMapScenarios`** (`scenarios.dfy`) holds the unit-test fixture of `LongMapImplTest` and the edge cases below, each stated as a contract on concrete calls. The fixture stores five authors in a default map.

The behaviour below follows what the code does, not what its helpers and comments suggest:

- the Javadoc speaks of a load factor of 0.75 (lines 33-35, 43-46) and of decreasing below `_minLoad` (lines 59-63);
- `increaseCapacity` and `decreaseCapacity` compute a doubled and a halved capacity (lines 345, 354);
- `checkInitCapcity` prints that an oversized capacity is being reduced to `MAX_CAPACITY` (line 262).

The code behaves as follows, and the model keeps each point:

- **Capacity never changes.** `increaseCapacity` and `decreaseCapacity` change only their own parameter. So the growth step rebuilds the array at the same capacity, and every chain lands in its old slot, in its old order.
- **Growth fires exactly when each of the first `_capacity` slots is occupied.** The load `_bucketsNumber / _capacity` is an `int` quotient, so growth happens when `_bucketsNumber >= _capacity`. The rebuilt array has `_capacity` slots, which after `clear()` can be fewer than before: a capacity-4 map is cleared to 16 slots, and once slots 0 to 3 are occupied the next `put` rebuilds it with 4 slots.
- **The capacity clamp has no effect.** `checkInitCapcity` clamps only its local variable. A capacity above `MAX_CAPACITY` is kept, and capacity 0 is accepted. With capacity 0, every `put` divides by zero, and so does every `get`, `remove` and `containsKey`.
- **The shrink flag is ignored.** The two-argument constructor never stores `doDecreasing`, so the shrink branch of `remove` never runs.
- **`clear` leaves capacity and array length mismatched.** It installs a 16-slot array but keeps `_capacity`. A key whose slot is 16 or more then has no slot, and indexing it throws.
- **A negative hash can give a negative bucket index.** Java's `%` keeps the sign of the hash. Key `2^31 + 1` gets index -15, and the array access throws. A negative hash that is a multiple of the capacity still gives slot 0, as key `2^32 - 16` does.
- **Removing an absent key from an occupied slot throws.** The walk in `remove` reaches the null at the end of the chain and calls `getNext()` on it, so it throws `NullPointerException` instead of returning `null`.

## Model

Source paths are relative to the repository root. `LongMapImpl.java` is `src/main/java/de/comparus/opensource/longmap/LongMapImpl.java`. `LongMapImplTest.java` is `src/test/java/de/comparus/opensource/longmap/LongMapImplTest.java`.

| member | source | states |
|---|---|---|
| JavaInts.ToInt | src/main/java/de/comparus/opensource/longmap/LongMapImpl.java:345 | the `int` result differs from the exact value by a multiple of 2^32, and values already in the `int` range are unchanged |
| JavaInts.JavaRem | src/main/java/de/comparus/opensource/longmap/LongMapImpl.java:88 | Java's `%`: the remainder is smaller in magnitude than the divisor and, when non-zero, has the sign of the dividend |
| JavaInts.DivRemIdentity | src/main/java/de/comparus/opensource/longmap/LongMapImpl.java:322 | Java's truncating `/` and `%` satisfy `(a / b) * b + a % b == a` |
| JavaInts.JavaOfNonNegative | src/main/java/de/comparus/opensource/longmap/LongMapImpl.java:322 | for a non-negative dividend and a positive divisor, Java's `/` and `%` are the mathematical quotient and remainder |
| JavaInts.JavaDiv | src/main/java/de/comparus/opensource/longmap/LongMapImpl.java:322 | Java's `/` on `int`: the quotient's magnitude is the floor of the magnitudes' quotient, and a non-zero quotient is negative exactly when the operands' signs differ (rounding toward zero) |
| JavaInts.LongHashCode | src/main/java/de/comparus/opensource/longmap/LongMapImpl.java:274-276 | `getHash`, that is `Long.hashCode`: keys in [0, 2^31) hash to themselves, keys in [2^31, 2^32) to the negative `key - 2^32` |
| JavaInts.HashOfComplement | src/main/java/de/comparus/opensource/longmap/LongMapImpl.java:274-276 | for every `long` key, `~key` has the same hash as `key`, because complementing both halves leaves their XOR unchanged |
| JavaInts.XorComplement | src/main/java/de/comparus/opensource/longmap/LongMapImpl.java:274-276 | complementing both operands of a bitwise XOR leaves the result unchanged |
| JavaInts.HashOfEqualHalves | src/main/java/de/comparus/opensource/longmap/LongMapImpl.java:274-276 | a key whose two 32-bit halves are equal hashes to 0 |
| Chains.Updated | src/main/java/de/comparus/opensource/longmap/LongMapImpl.java:94-106 | `setValue` on the node of a key keeps the chain's length and every node's key, and each node is either unchanged or the new pair |
| Chains.Without | src/main/java/de/comparus/opensource/longmap/LongMapImpl.java:141-162 | unlinking a key's node, by promoting the next node or splicing with `setNext`, removes at most one node and adds none |
| Chains.UpdatedAt | src/main/java/de/comparus/opensource/longmap/LongMapImpl.java:94-106 | setting the value of the first node holding the key rewrites exactly that node and keeps every other node in place |
| Chains.WithoutAt | src/main/java/de/comparus/opensource/longmap/LongMapImpl.java:141-162 | unlinking the first node holding the key drops exactly that node and keeps the order of the rest |
| Chains.AbsentKeyUntouched | src/main/java/de/comparus/opensource/longmap/LongMapImpl.java:95-101 | a chain without the key is unchanged by both the value update and the unlinking |
| Chains.SpliceMembers | src/main/java/de/comparus/opensource/longmap/LongMapImpl.java:160-162 | a chain with one node spliced out keeps distinct keys and holds exactly the nodes with the other keys |
| Chains.ReplaceMembers | src/main/java/de/comparus/opensource/longmap/LongMapImpl.java:105-106 | overwriting one node with a node of the same key keeps the keys distinct and every other node |
| Tables.Slot | src/main/java/de/comparus/opensource/longmap/LongMapImpl.java:88 | the bucket index lies strictly between `-_capacity` and `_capacity`; it is non-negative for a non-negative hash and non-positive for a negative hash |
| Tables.SlotOfSmallKey | src/main/java/de/comparus/opensource/longmap/LongMapImpl.java:88 | a key in [0, 2^31) goes to the slot `key mod _capacity` |
| Tables.ResizeKeepsChains | src/main/java/de/comparus/opensource/longmap/LongMapImpl.java:329-341 | rebuilding a well-placed table at its own capacity leaves every slot's chain, in or out of range, as it was |
| Tables.ResizeStep | src/main/java/de/comparus/opensource/longmap/LongMapImpl.java:334-340 | copying old slot `i` into the new array extends the rebuilt prefix by one slot; an empty slot adds nothing |
| Tables.FlattenPrefix | src/main/java/de/comparus/opensource/longmap/LongMapImpl.java:206-215 | the nodes of the first slots never outnumber the nodes of the table, so the `keys()`/`values()` cursor stays in bounds |
| Tables.FlattenStep | src/main/java/de/comparus/opensource/longmap/LongMapImpl.java:207-215 | scanning one more slot appends its chain to the node list and adds one to the occupied count when the slot is not null |
| Tables.FlattenUpdate | src/main/java/de/comparus/opensource/longmap/LongMapImpl.java:89-163 | replacing one chain changes the node count by the change in that chain's length |
| Tables.OccupiedUpdate | src/main/java/de/comparus/opensource/longmap/LongMapImpl.java:89-145 | replacing one chain changes the occupied count only when the slot turns null or non-null |
| Tables.EmptyTail | src/main/java/de/comparus/opensource/longmap/LongMapImpl.java:329-341 | trailing null slots add no nodes and no occupied slots |
| Tables.AllEmpty | src/main/java/de/comparus/opensource/longmap/LongMapImpl.java:240-244 | an array of null slots holds no nodes and no occupied slot |
| Tables.RepresentsUnique | src/main/java/de/comparus/opensource/longmap/LongMapImpl.java:329-341 | a table represents at most one map, so the rebuilt table stands for the same pairs |
| Tables.ResizeKeeps | src/main/java/de/comparus/opensource/longmap/LongMapImpl.java:329-341 | rebuilding at the capacity keeps the invariant, the node sequence and the occupied count |
| Tables.NodeInContents | src/main/java/de/comparus/opensource/longmap/LongMapImpl.java:122-128 | a node found by the walk of `get`, `containsKey` or `containsValue` is a stored pair |
| Tables.AbsentFromChain | src/main/java/de/comparus/opensource/longmap/LongMapImpl.java:117-127 | when the key's own slot has no node with the key, the key is not stored anywhere |
| Tables.InsertKeepsInv | src/main/java/de/comparus/opensource/longmap/LongMapImpl.java:89-102 | appending a node for a new key at the tail of its slot keeps the invariant, adds exactly that pair and grows the map by one |
| Tables.UpdateKeepsInv | src/main/java/de/comparus/opensource/longmap/LongMapImpl.java:94-106 | the node found for a key holds its stored value, and setting its value keeps the invariant and rebinds only that key |
| Tables.RemoveKeepsInv | src/main/java/de/comparus/opensource/longmap/LongMapImpl.java:141-162 | unlinking the node of a key keeps the invariant, removes exactly that pair and shrinks the map by one |
| Tables.FlattenKeysDistinct | src/main/java/de/comparus/opensource/longmap/LongMapImpl.java:204-217 | keys are distinct across the whole table, not only within each chain |
| Tables.FlattenKeys | src/main/java/de/comparus/opensource/longmap/LongMapImpl.java:204-217 | the keys of the table's nodes are exactly the stored keys |
| Tables.FlattenValues | src/main/java/de/comparus/opensource/longmap/LongMapImpl.java:219-233 | the values of the table's nodes are exactly the stored values |
| Tables.FlattenCount | src/main/java/de/comparus/opensource/longmap/LongMapImpl.java:235-237 | a well-formed table has one node per stored pair |
| Tables.KeyCount | src/main/java/de/comparus/opensource/longmap/LongMapImpl.java:204-217 | a node list with distinct keys covering the map's keys has the map's size |
| Tables.ValueAbsent | src/main/java/de/comparus/opensource/longmap/LongMapImpl.java:189-202 | when no node holds the value, no key is bound to it |
| LongMaps.LongMapImpl.CalcCurrentLoad | src/main/java/de/comparus/opensource/longmap/LongMapImpl.java:321-323 | the `int` load `_bucketsNumber / _capacity` exceeds 0.75 exactly when `_bucketsNumber >= _capacity`, and is below 0.35 exactly when it is not |
| LongMaps.LoadThresholds | src/main/java/de/comparus/opensource/longmap/LongMapImpl.java:321-323 | the `int` load exceeds 0.75 exactly when `_bucketsNumber >= _capacity`, that is when each of the first `_capacity` slots is occupied, and is below 0.35 exactly when `_bucketsNumber < _capacity` |
| LongMaps.CheckInitCapacity | src/main/java/de/comparus/opensource/longmap/LongMapImpl.java:257-265 | a negative capacity throws `IllegalArgumentException`; any other capacity, including one above `MAX_CAPACITY`, passes through unchanged |
| LongMaps.LongMapImpl.constructor | src/main/java/de/comparus/opensource/longmap/LongMapImpl.java:38-41 | a fresh valid empty map with capacity 16 and 16 null slots, growth allowed and shrinking off |
| LongMaps.LongMapImpl.Sized | src/main/java/de/comparus/opensource/longmap/LongMapImpl.java:53-57 | a fresh valid empty map whose capacity and array length are the given non-negative capacity |
| LongMaps.LongMapImpl.WithCapacity | src/main/java/de/comparus/opensource/longmap/LongMapImpl.java:53-57 | throws `IllegalArgumentException` exactly for a negative capacity; otherwise builds an empty valid map with that capacity, including 0 and values above `MAX_CAPACITY` |
| LongMaps.LongMapImpl.WithCapacityAndShrink | src/main/java/de/comparus/opensource/longmap/LongMapImpl.java:66-70 | the same as the one-argument constructor; the shrink flag is false whatever is passed |
| LongMaps.LongMapImpl.IncreaseCapacity | src/main/java/de/comparus/opensource/longmap/LongMapImpl.java:344-350 | only `_doRehash` changes, and it turns false exactly when the wrapped double of the argument exceeds `MAX_CAPACITY` |
| LongMaps.LongMapImpl.DecreaseCapacity | src/main/java/de/comparus/opensource/longmap/LongMapImpl.java:352-355 | only `_doRehash` changes, and it becomes true |
| LongMaps.LongMapImpl.Rehash | src/main/java/de/comparus/opensource/longmap/LongMapImpl.java:329-342 | a fresh array of `_capacity` slots holds every chain in its old slot and order, with the same pairs, counters, capacity and flags; after `clear()` this length can differ from the old array's |
| LongMaps.LongMapImpl.ReinsertChain | src/main/java/de/comparus/opensource/longmap/LongMapImpl.java:334-340 | putting the nodes of one old chain in link order rebuilds that chain in its empty slot, grows `_size` by its length and `_bucketsNumber` by one |
| LongMaps.LongMapImpl.PutAt | src/main/java/de/comparus/opensource/longmap/LongMapImpl.java:88-110 | returns the previous value or none; the key maps to the new value; an existing node is updated in place, otherwise a node is appended at the tail or becomes the head; `_size` grows only for a new key and `_bucketsNumber` only for a null slot |
| LongMaps.LongMapImpl.Grow | src/main/java/de/comparus/opensource/longmap/LongMapImpl.java:78-86 | growth fires exactly when `_bucketsNumber >= _capacity`; it may clear `_doRehash` and rebuild the array, but keeps every chain, the pairs, the counters and the capacity |
| LongMaps.LongMapImpl.Put | src/main/java/de/comparus/opensource/longmap/LongMapImpl.java:75-111 | throws for capacity 0 or for an index outside the array; otherwise returns the previous value, binds the key, updates only the key's own slot, and keeps the counters in step |
| LongMaps.LongMapImpl.Get | src/main/java/de/comparus/opensource/longmap/LongMapImpl.java:116-130 | returns the stored value or none, or throws for capacity 0 or an index outside the array; nothing changes |
| LongMaps.LongMapImpl.ContainsKey | src/main/java/de/comparus/opensource/longmap/LongMapImpl.java:173-187 | true exactly when the key is stored, with the same throws as `get`; nothing changes |
| LongMaps.LongMapImpl.Unlink | src/main/java/de/comparus/opensource/longmap/LongMapImpl.java:141-163 | dropping the node of a key removes exactly that pair, returns its value, lowers `_size` by one and `_bucketsNumber` only when the slot becomes null |
| LongMaps.LongMapImpl.Remove | src/main/java/de/comparus/opensource/longmap/LongMapImpl.java:132-167 | returns none for a null slot, throws `NullPointerException` for a key missing from an occupied slot, and otherwise unlinks the key's node and returns its value, keeping the other pairs and the chain order |
| LongMaps.LongMapImpl.ContainsValue | src/main/java/de/comparus/opensource/longmap/LongMapImpl.java:189-202 | true exactly when some key is bound to the value |
| LongMaps.LongMapImpl.Keys | src/main/java/de/comparus/opensource/longmap/LongMapImpl.java:204-217 | a fresh array of `_size` keys in bucket-then-chain order: each stored key exactly once |
| LongMaps.LongMapImpl.Values | src/main/java/de/comparus/opensource/longmap/LongMapImpl.java:219-233 | a fresh array of `_size` values in the same order as `keys()`, holding exactly the stored values |
| LongMaps.LongMapImpl.Size | src/main/java/de/comparus/opensource/longmap/LongMapImpl.java:235-237 | the number of stored pairs |
| LongMaps.LongMapImpl.IsEmpty | src/main/java/de/comparus/opensource/longmap/LongMapImpl.java:169-171 | true exactly when nothing is stored |
| LongMaps.LongMapImpl.Clear | src/main/java/de/comparus/opensource/longmap/LongMapImpl.java:240-244 | the map is empty, both counters are 0, and a fresh array of 16 null slots is installed while the capacity and flags stay |
| LongMaps.LongMapImpl.Reset | src/main/java/de/comparus/opensource/longmap/LongMapImpl.java:330-333 | a fresh array of null slots of the given length with zero counters and no pairs; capacity and flags stay |
| LongMapScenarios.FixtureFirstTwo | src/test/java/de/comparus/opensource/longmap/LongMapImplTest.java:24-27 | after keys 12 and 21 the default map holds two pairs in slots 12 and 5 |
| LongMapScenarios.FixtureFirstFour | src/test/java/de/comparus/opensource/longmap/LongMapImplTest.java:24-29 | key 524 is chained behind key 12 in slot 12, and key 17 takes slot 1 |
| LongMapScenarios.Fixture | src/test/java/de/comparus/opensource/longmap/LongMapImplTest.java:22-37 | the test fixture holds the five authors in four slots of a 16-slot map, and slot 10 is empty |
| LongMapScenarios.FixtureSize | src/test/java/de/comparus/opensource/longmap/LongMapImplTest.java:39-44 | the fixture has size 5 and is not empty |
| LongMapScenarios.FixtureGet | src/test/java/de/comparus/opensource/longmap/LongMapImplTest.java:46-56 | `get(21)` is "Asimov" and `get(10)` is null |
| LongMapScenarios.FixtureContainsKey | src/test/java/de/comparus/opensource/longmap/LongMapImplTest.java:58-66 | key 21 is present and key 10 is not |
| LongMapScenarios.FixtureContainsValue | src/test/java/de/comparus/opensource/longmap/LongMapImplTest.java:143-151 | "Asimov" is a stored value and "Hoffman" is not |
| LongMapScenarios.FixtureRemoveExisting | src/test/java/de/comparus/opensource/longmap/LongMapImplTest.java:68-88 | removing key 21 returns "Asimov" and leaves size 4 |
| LongMapScenarios.FixtureRemoveIntoEmptySlot | src/test/java/de/comparus/opensource/longmap/LongMapImplTest.java:76-96 | removing key 10, whose slot is null, returns null and leaves size 5 |
| LongMapScenarios.FixtureRemoveIntoOccupiedSlot | src/main/java/de/comparus/opensource/longmap/LongMapImpl.java:152-156 | removing the absent key 28, whose slot 12 is occupied, throws `NullPointerException` and leaves size 5 |
| LongMapScenarios.FixturePutExisting | src/test/java/de/comparus/opensource/longmap/LongMapImplTest.java:117-129 | putting key 21 again returns "Asimov" and keeps size 5 |
| LongMapScenarios.FixturePutMissing | src/test/java/de/comparus/opensource/longmap/LongMapImplTest.java:109-135 | putting the new key 10 returns null and gives size 6 |
| LongMapScenarios.EmptyMaps | src/test/java/de/comparus/opensource/longmap/LongMapImplTest.java:98-141 | a new map is empty, and so is the fixture after `clear()` |
| LongMapScenarios.FixtureKeys | src/test/java/de/comparus/opensource/longmap/LongMapImplTest.java:153-160 | `keys()` returns the five fixture keys, each once |
| LongMapScenarios.FixtureValues | src/test/java/de/comparus/opensource/longmap/LongMapImplTest.java:162-171 | `values()` returns five values, which are exactly the five fixture values |
| LongMapScenarios.NegativeSlot | src/main/java/de/comparus/opensource/longmap/LongMapImpl.java:88 | key 2^31 + 1 gets bucket index -15 in a 16-slot table |
| LongMapScenarios.NegativeHashSlotZero | src/main/java/de/comparus/opensource/longmap/LongMapImpl.java:88 | key 2^32 - 16 hashes to -16, yet Java's `-16 % 16` is 0, so it lands in slot 0 of a 16-slot table |
| LongMapScenarios.NegativeBucketIndex | src/main/java/de/comparus/opensource/longmap/LongMapImpl.java:88-89 | `put` of key 2^31 + 1 into a default map throws `ArrayIndexOutOfBoundsException` |
| LongMapScenarios.ClearedLargeMap | src/main/java/de/comparus/opensource/longmap/LongMapImpl.java:240-244 | after `clear()` a capacity-32 map has only 16 slots, so `put` of key 20 throws `ArrayIndexOutOfBoundsException` |
| LongMapScenarios.ClearedSmallMap | src/main/java/de/comparus/opensource/longmap/LongMapImpl.java:240-244 | a capacity-4 map keeps `_capacity` 4 but has 16 slots after `clear()`, and keys 0 to 3 then occupy 4 slots |
| LongMapScenarios.ClearedSmallMapGrowth | src/main/java/de/comparus/opensource/longmap/LongMapImpl.java:78-86 | a capacity-4 map cleared to 16 slots, with keys 0 to 3 stored, is rebuilt by the next `put` into an array of 4 slots, and key 4 is stored |
| LongMapScenarios.ZeroAndNegativeCapacity | src/main/java/de/comparus/opensource/longmap/LongMapImpl.java:257-260 | capacity 0 is accepted and `put` then throws `ArithmeticException`; capacity -1 throws `IllegalArgumentException` |
| LongMapScenarios.FullTable | src/main/java/de/comparus/opensource/longmap/LongMapImpl.java:88-92 | putting keys 0 to 15 into a default map fills every slot with one node |
| LongMapScenarios.FullTableKeepsCapacity | src/main/java/de/comparus/opensource/longmap/LongMapImpl.java:78-86 | the 17th `put` into a full default map runs the growth step, but capacity and array length stay 16 and key 16 is chained behind key 0 |

## Left out

- `Main.java` is a demo driver that prints to the console. It is not part of this model.
- `LongMap.java` only declares signatures. It is not part of this model. Its `values()` returns a `List` and its `size()` an `int`, while the class returns `V[]` and `long`. The model follows the class. The keys and values tests compare the results as sorted collections; the scenarios state the same thing as membership.
- Console output is left out: the warning in `put` when rehashing is forbidden, and the message in `checkInitCapcity`.
- `_maxLoad`, `_minLoad` and `_currentLoad` are floats in the class. The model does not store them. Since the load is an `int` quotient, the float comparisons are replaced by the exact comparisons `4 * load > 3` and `20 * load < 7`.
- LongMaps.LongMapImpl.Rehash: the class's `rehash` calls `put`, and that `put` can re-enter the growth step and `rehash` again. The model uses one straight reinsertion loop instead. Nested rebuilds at the same capacity end in the same array, chains, counters and flag, and the nested rebuilds themselves are not modelled. Their cost is not modelled either: in a full table, every node after the first of the last slot's chain starts another `rehash`, so the number of reinsertion passes grows exponentially with that chain's length.
- LongMaps.LongMapImpl.ContainsValue: values are compared with Dafny equality, while line 194 compares Java references with `!=`. Null values are not modelled; every stored value is a value of `V`.
- `_size` is an `int` field (line 21); only `size()` returns a `long` (line 235). The model keeps `_size` as an unbounded integer, so the wrap-around of `_size++` is left out. That wrap needs 2^31 nodes.
- Chain nodes are values in a sequence, not heap objects. The model therefore leaves out node identity and aliasing between old and new arrays during `rehash`; `put` allocates new nodes there, so nothing is shared.
- The memory limits of Java arrays are left out. This covers an array of `MAX_CAPACITY` or more slots, and `new long[_size]` failing.
- JavaInts.LongHashCode: the contract states the hash exactly only for keys in [0, 2^32). `HashOfComplement` extends this to [-2^32, 0). `HashOfEqualHalves` and `HashOfComplement` hold for all keys, but no lemma gives the hash of an arbitrary key in closed form beyond the XOR definition itself.
- The shrink step is modelled as written, but it never runs: `_doDecreasing` is never set to true (lines 66-70). `Remove`'s contract states the branch anyway.
