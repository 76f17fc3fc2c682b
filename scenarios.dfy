// Concrete runs of the map, each stated as a contract about the values the
// operations return: the fixture of LongMapImplTest (five authors in a
// default map), and the edge cases where the class throws or keeps its
// capacity.
//
// Slots in a 16-slot table: 12 -> 12, 21 -> 5, 524 -> 12, 17 -> 1,
// 163 -> 3; key 10 falls into the empty slot 10 and key 28 into the
// occupied slot 12.

module LongMapScenarios {
  import opened JavaInts
  import opened Chains
  import opened Tables
  import opened LongMaps

  /** The first two insertions of the fixture. */
  method FixtureFirstTwo() returns (m: LongMapImpl<string>)
    ensures fresh(m) && fresh(m.entries) && m.Valid()
    ensures m.Contents == map[12 := "Heinlein", 21 := "Asimov"]
    ensures m.capacity == 16 && m.entries.Length == 16 && m.size == 2 && m.bucketsNumber == 2
    ensures m.Bucket(1) == [] && m.Bucket(3) == [] && m.Bucket(5) == [Entry(21, "Asimov")] && m.Bucket(10) == []
    ensures m.Bucket(12) == [Entry(12, "Heinlein")]
  {
    m := new LongMapImpl<string>();
    SlotOfSmallKey(12, 16);
    SlotOfSmallKey(21, 16);
    var r := m.Put(12, "Heinlein");
    assert m.Contents == map[12 := "Heinlein"] && m.size == 1 && m.bucketsNumber == 1;
    assert m.Bucket(5) == [] && m.Bucket(12) == [Entry(12, "Heinlein")];
    r := m.Put(21, "Asimov");
  }

  /** The next two: key 524 joins key 12 in slot 12, key 17 takes slot 1. */
  method FixtureFirstFour() returns (m: LongMapImpl<string>)
    ensures fresh(m) && fresh(m.entries) && m.Valid()
    ensures m.Contents == map[12 := "Heinlein", 21 := "Asimov", 524 := "Bradbury", 17 := "Lem"]
    ensures m.capacity == 16 && m.entries.Length == 16 && m.size == 4 && m.bucketsNumber == 3
    ensures m.Bucket(3) == [] && m.Bucket(5) == [Entry(21, "Asimov")] && m.Bucket(10) == []
    ensures m.Bucket(12) == [Entry(12, "Heinlein"), Entry(524, "Bradbury")]
  {
    m := FixtureFirstTwo();
    SlotOfSmallKey(524, 16);
    SlotOfSmallKey(17, 16);
    var r := m.Put(524, "Bradbury");
    assert m.Bucket(1) == [];
    r := m.Put(17, "Lem");
  }

  /** The map every unit test starts from. */
  method Fixture() returns (m: LongMapImpl<string>)
    ensures fresh(m) && fresh(m.entries) && m.Valid()
    ensures m.Contents == map[12 := "Heinlein", 21 := "Asimov", 524 := "Bradbury", 17 := "Lem", 163 := "Verne"]
    ensures m.capacity == 16 && m.entries.Length == 16 && m.size == 5 && m.bucketsNumber == 4
    ensures m.Bucket(5) == [Entry(21, "Asimov")] && m.Bucket(10) == []
    ensures m.Bucket(12) == [Entry(12, "Heinlein"), Entry(524, "Bradbury")]
  {
    m := FixtureFirstFour();
    SlotOfSmallKey(163, 16);
    var r := m.Put(163, "Verne");
  }

  /** `sizeTest` and `isEmptyOnNonemptyMapTest`. */
  method FixtureSize() returns (n: int, empty: bool)
    ensures n == 5 && !empty
  {
    var m := Fixture();
    n := m.Size();
    empty := m.IsEmpty();
  }

  /** `getByExistantKeyTest` and `getByNonexistantKeyTest`. */
  method FixtureGet() returns (existing: Outcome<Option<string>>, missing: Outcome<Option<string>>)
    ensures existing == Returned(Some("Asimov"))
    ensures missing == Returned(None)
  {
    var m := Fixture();
    SlotOfSmallKey(21, 16);
    SlotOfSmallKey(10, 16);
    existing := m.Get(21);
    missing := m.Get(10);
  }

  /** `containsExistingKeyTest` and `containsNonexistingKeyTest`. */
  method FixtureContainsKey() returns (existing: Outcome<bool>, missing: Outcome<bool>)
    ensures existing == Returned(true)
    ensures missing == Returned(false)
  {
    var m := Fixture();
    SlotOfSmallKey(21, 16);
    SlotOfSmallKey(10, 16);
    existing := m.ContainsKey(21);
    missing := m.ContainsKey(10);
  }

  /** `doesMapContainValueByExistingValueTest` and its negative twin. */
  method FixtureContainsValue() returns (existing: bool, missing: bool)
    ensures existing && !missing
  {
    var m := Fixture();
    assert m.Contents[21] == "Asimov";
    existing := m.ContainsValue("Asimov");
    missing := m.ContainsValue("Hoffman");
  }

  /** `doesRemoveByExistingKeyReturnsRemovingValueTest` and `isSizeChangedAfterRemovingByExistingKey`. */
  method FixtureRemoveExisting() returns (r: Outcome<Option<string>>, n: int)
    ensures r == Returned(Some("Asimov")) && n == 4
  {
    var m := Fixture();
    SlotOfSmallKey(21, 16);
    r := m.Remove(21);
    n := m.Size();
  }

  /** `doesRemoveByNonexistingKeyReturnsNullTest`: key 10 lands in an empty slot. */
  method FixtureRemoveIntoEmptySlot() returns (r: Outcome<Option<string>>, n: int)
    ensures r == Returned(None) && n == 5
  {
    var m := Fixture();
    SlotOfSmallKey(10, 16);
    r := m.Remove(10);
    n := m.Size();
  }

  /**
   * A missing key whose slot is occupied: the walk in `remove` runs off
   * the end of the chain, so the call throws instead of returning null,
   * and the map is unchanged.
   */
  method FixtureRemoveIntoOccupiedSlot() returns (r: Outcome<Option<string>>, n: int)
    ensures r == Threw(NullPointer) && n == 5
  {
    var m := Fixture();
    SlotOfSmallKey(28, 16);
    r := m.Remove(28);
    n := m.Size();
  }

  /** `doesPutReturnPreviousValueByExistingKeyTest` and `isSizeChangesAfterPutByExistingKeyTest`. */
  method FixturePutExisting() returns (r: Outcome<Option<string>>, n: int)
    ensures r == Returned(Some("Asimov")) && n == 5
  {
    var m := Fixture();
    SlotOfSmallKey(21, 16);
    r := m.Put(21, "Hoffman");
    n := m.Size();
  }

  /** `doesPutReturnNullByNonexistingKeyTest` and `isSizeChangesAfterPutByNonexistingKeyTest`. */
  method FixturePutMissing() returns (r: Outcome<Option<string>>, n: int)
    ensures r == Returned(None) && n == 6
  {
    var m := Fixture();
    SlotOfSmallKey(10, 16);
    r := m.Put(10, "Hoffman");
    n := m.Size();
  }

  /** `isEmptyOnEmptyMapTest` and `isMapIsEmptyAfterClearTest`. */
  method EmptyMaps() returns (empty: bool, cleared: bool)
    ensures empty && cleared
  {
    var e := new LongMapImpl<string>();
    empty := e.IsEmpty();
    var m := Fixture();
    m.Clear();
    cleared := m.IsEmpty();
  }

  /** `doesMapReturnCorrectArrayOfKeysTest`: the five keys, each once, in some order. */
  method FixtureKeys() returns (ks: seq<Long>)
    ensures |ks| == 5 && forall k :: k in ks <==> k in {12, 21, 524, 17, 163}
  {
    var m := Fixture();
    var keys := m.Keys();
    ks := keys[..];
  }

  /** `doesMapReturnCorrectArrayOfValuesTest`: the five values, in some order. */
  method FixtureValues() returns (vs: seq<string>)
    ensures |vs| == 5 && forall v :: v in vs <==> v in {"Heinlein", "Asimov", "Bradbury", "Lem", "Verne"}
  {
    var m := Fixture();
    var values := m.Values();
    vs := values[..];
    assert m.Contents.Values == {"Heinlein", "Asimov", "Bradbury", "Lem", "Verne"} by {
      assert m.Contents[12] == "Heinlein" && m.Contents[21] == "Asimov" && m.Contents[524] == "Bradbury";
      assert m.Contents[17] == "Lem" && m.Contents[163] == "Verne";
    }
  }

  /**
   * The key 2^31 + 1 hashes to the negative `int` -(2^31 - 1), and Java's
   * `%` keeps the sign: the bucket index is -15 and `put` throws.
   */
  method NegativeBucketIndex() returns (idx: int, r: Outcome<Option<string>>)
    ensures idx == -15 && r == Threw(IndexOutOfBounds)
  {
    NegativeSlot();
    idx := Slot(0x8000_0001, 16);
    var m := new LongMapImpl<string>();
    r := m.Put(0x8000_0001, "Clarke");
  }

  /** The slot of 2^31 + 1 in a 16-slot table. */
  lemma NegativeSlot()
    ensures Slot(0x8000_0001, 16) == -15
  {
    assert LongHashCode(0x8000_0001) == -0x7FFF_FFFF;
    assert JavaRem(-0x7FFF_FFFF, 16) == -15;
  }

  /**
   * A negative hash does not always give a negative index: key 2^32 - 16
   * hashes to -16, and Java's `-16 % 16` is 0, a valid slot.
   */
  lemma NegativeHashSlotZero()
    ensures LongHashCode(0xFFFF_FFF0) == -16
    ensures Slot(0xFFFF_FFF0, 16) == 0
  {
    assert JavaRem(-16, 16) == 0;
  }

  /** `clear` shrinks the array to 16 slots but not the capacity, so key 20 of a 32-capacity map has no slot left. */
  method ClearedLargeMap() returns (r: Outcome<Option<string>>)
    ensures r == Threw(IndexOutOfBounds)
  {
    var made := LongMapImpl<string>.WithCapacity(32);
    var m := made.value;
    m.Clear();
    SlotOfSmallKey(20, 32);
    r := m.Put(20, "Clarke");
  }

  /** A capacity-4 map after `clear` (16 slots), holding keys 0 to 3, one in each of slots 0 to 3. */
  method ClearedSmallMap() returns (m: LongMapImpl<string>)
    ensures fresh(m) && fresh(m.entries) && m.Valid() && m.doRehash
    ensures m.capacity == 4 && m.entries.Length == 16 && m.bucketsNumber == 4
    ensures forall key | key in m.Contents :: 0 <= key < 4
  {
    var made := LongMapImpl<string>.WithCapacity(4);
    m := made.value;
    m.Clear();
    var k := 0;
    while k < 4
      invariant 0 <= k <= 4
      invariant fresh(m) && fresh(m.entries) && m.Valid() && m.doRehash
      invariant m.capacity == 4 && m.entries.Length == 16 && m.bucketsNumber == k
      invariant forall b | 0 <= b < 4 :: m.Bucket(b) == if b < k then [Entry(b, "x")] else []
      invariant forall key | key in m.Contents :: 0 <= key < k
    {
      SlotOfSmallKey(k, 4);
      assert k % 4 == k && k !in m.Contents && m.Bucket(k) == [];
      label Before:
      var _ := m.Put(k, "x");
      forall b | 0 <= b < 4
        ensures m.Bucket(b) == if b < k + 1 then [Entry(b, "x")] else []
      {
        if b != k {
          assert m.Bucket(b) == old@Before(m.Bucket(b));
        }
      }
      k := k + 1;
    }
  }

  /**
   * Once slots 0 to 3 of the cleared capacity-4 map are occupied, the growth
   * step rebuilds the array with only `_capacity` slots: 16 become 4.
   */
  method ClearedSmallMapGrowth() returns (before: int, after: int, r: Outcome<Option<string>>)
    ensures before == 16 && after == 4 && r == Returned(None)
  {
    var m := ClearedSmallMap();
    before := m.entries.Length;
    SlotOfSmallKey(4, 4);
    r := m.Put(4, "x");
    after := m.entries.Length;
  }

  /** Capacity 0 is accepted, and then every `put` divides by zero; a negative capacity is refused. */
  method ZeroAndNegativeCapacity() returns (zero: Outcome<Option<string>>, negative: Outcome<LongMapImpl<string>>)
    ensures zero == Threw(Arithmetic)
    ensures negative == Threw(IllegalArgument)
  {
    var made := LongMapImpl<string>.WithCapacity(0);
    var m := made.value;
    zero := m.Put(1, "Clarke");
    negative := LongMapImpl<string>.WithCapacity(-1);
  }

  /** A default map holding keys 0 to 15, one per slot, so that every slot is occupied. */
  method FullTable() returns (m: LongMapImpl<string>)
    ensures fresh(m) && fresh(m.entries) && m.Valid() && m.doRehash
    ensures m.capacity == 16 && m.entries.Length == 16 && m.bucketsNumber == 16
    ensures forall key | key in m.Contents :: 0 <= key < 16
    ensures forall b | 0 <= b < 16 :: m.Bucket(b) == [Entry(b, "x")]
  {
    m := new LongMapImpl<string>();
    var k := 0;
    while k < 16
      invariant 0 <= k <= 16
      invariant fresh(m) && fresh(m.entries) && m.Valid() && m.doRehash
      invariant m.capacity == 16 && m.entries.Length == 16 && m.bucketsNumber == k
      invariant forall b | 0 <= b < 16 :: m.Bucket(b) == if b < k then [Entry(b, "x")] else []
      invariant forall key | key in m.Contents :: 0 <= key < k
    {
      SlotOfSmallKey(k, 16);
      assert k % 16 == k && k !in m.Contents && m.Bucket(k) == [];
      label Before:
      var r := m.Put(k, "x");
      forall b | 0 <= b < 16
        ensures m.Bucket(b) == if b < k + 1 then [Entry(b, "x")] else []
      {
        if b != k {
          assert m.Bucket(b) == old@Before(m.Bucket(b));
        }
      }
      k := k + 1;
    }
  }

  /**
   * Once all 16 slots are occupied the next `put` runs the growth step;
   * the array is rebuilt but the capacity stays 16, and the new key is
   * chained behind key 0 in slot 0.
   */
  method FullTableKeepsCapacity() returns (r: Outcome<Option<string>>, capacity: int, length: int, slot0: seq<Entry<string>>)
    ensures r == Returned(None) && capacity == 16 && length == 16
    ensures slot0 == [Entry(0, "x"), Entry(16, "x")]
  {
    var m := FullTable();
    SlotOfSmallKey(16, 16);
    assert m.Bucket(0) == [Entry(0, "x")];
    r := m.Put(16, "x");
    capacity, length := m.capacity, m.entries.Length;
    slot0 := m.entries[0];
  }
}
