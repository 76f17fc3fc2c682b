// `LongMapImpl<V>`: a separately chained hash table from Java `long` keys to
// values, built on an array of bucket heads. Each slot holds a chain (see
// module Chains); the ghost field `Contents` is the map the table stands
// for. Operations that throw in Java return `Threw(fault)`.
//
// Behaviour kept as the Java class has it:
//  - `_capacity` never changes after construction: `increaseCapacity` and
//    `decreaseCapacity` only assign their own parameter, so growth
//    "rehashes" into a new array of the same capacity;
//  - the load is an `int` quotient, so the growth test fires exactly when
//    `_bucketsNumber >= _capacity`, that is when each of the first
//    `_capacity` slots is occupied;
//  - `clear` installs a 16-slot array whatever the capacity is, so the array
//    length and `_capacity` can differ afterwards;
//  - a negative hash can give a negative bucket index, and removing an absent
//    key from an occupied bucket dereferences the null at the chain's end.

module LongMaps {
  import opened JavaInts
  import opened Chains
  import opened Tables

  const DEFAULT_CAPACITY: Int := 16
  const MAX_CAPACITY: Int := 0x4000_0000
  const MIN_LENGTH_TO_DECREASING: Int := 100

  /** The exceptions the operations can raise. */
  datatype Fault =
    | IllegalArgument   // a negative initial capacity
    | Arithmetic        // `/` or `%` by a capacity of zero
    | IndexOutOfBounds  // a bucket index outside the bucket array
    | NullPointer       // `getNext()` called on the null that ends a chain

  /** What a Java call does: return a value or throw. */
  datatype Outcome<T> = Returned(value: T) | Threw(fault: Fault)

  /** `load > 0.75f` for an `int` load: 0.75 is exactly 3/4. */
  predicate AboveMaxLoad(load: int)
  {
    4 * load > 3
  }

  /** `load < 0.35f` for an `int` load: both this and the float test hold exactly when `load <= 0`. */
  predicate BelowMinLoad(load: int)
  {
    20 * load < 7
  }

  /**
   * The `int` load `_bucketsNumber / _capacity` is above the high-water mark
   * exactly when `_bucketsNumber >= _capacity`, that is when each of the
   * first `_capacity` slots is occupied, and below the low-water mark exactly
   * when `_bucketsNumber < _capacity`.
   */
  lemma LoadThresholds(bucketsNumber: int, capacity: int)
    requires 0 <= bucketsNumber && 0 < capacity
    ensures AboveMaxLoad(JavaDiv(bucketsNumber, capacity)) <==> bucketsNumber >= capacity
    ensures BelowMinLoad(JavaDiv(bucketsNumber, capacity)) <==> bucketsNumber < capacity
  {
    JavaOfNonNegative(bucketsNumber, capacity);
    var q := bucketsNumber / capacity;
    assert bucketsNumber == q * capacity + bucketsNumber % capacity;
    if bucketsNumber >= capacity {
      assert q >= 1;
    } else {
      assert q == 0;
    }
  }

  /**
   * `checkInitCapcity`: a negative capacity is refused. A capacity above
   * MAX_CAPACITY is only reported on the console and clamped in the
   * method's own parameter copy, so it reaches the caller unchanged.
   */
  function CheckInitCapacity(initialCapacity: Int): (r: Outcome<Int>)
    ensures r.Threw? <==> initialCapacity < 0
    ensures r.Threw? ==> r.fault == IllegalArgument
    ensures r.Returned? ==> r.value == initialCapacity
    ensures initialCapacity > MAX_CAPACITY ==> r == Returned(initialCapacity)
  {
    if initialCapacity < 0 then Threw(IllegalArgument) else Returned(initialCapacity)
  }

  class LongMapImpl<V(==,0)> {
    var capacity: Int
    var size: int
    var bucketsNumber: int
    var entries: array<seq<Entry<V>>>
    var doRehash: bool
    var doDecreasing: bool

    /** The key/value pairs the table holds. */
    ghost var Contents: map<Long, V>

    /**
     * The class invariant: the table is well placed and represents
     * `Contents`, `size` counts the nodes and `bucketsNumber` the
     * non-empty slots.
     */
    ghost predicate Valid()
      reads this, entries
    {
      && 0 <= capacity
      && Inv(entries[..], Contents, capacity)
      && size == |Flatten(entries[..])|
      && bucketsNumber == Occupied(entries[..])
    }

    /** The chain at index `b`, empty for an index outside the array. */
    ghost function Bucket(b: int): seq<Entry<V>>
      reads this, entries
    {
      SlotChain(entries[..], b)
    }

    /** `LongMapImpl()`: 16 empty slots, growth allowed, shrinking off. */
    constructor ()
      ensures Valid() && fresh(entries)
      ensures capacity == DEFAULT_CAPACITY && entries.Length == DEFAULT_CAPACITY
      ensures Contents == map[] && size == 0 && bucketsNumber == 0
      ensures doRehash && !doDecreasing
      ensures forall b :: Bucket(b) == []
    {
      var a := new seq<Entry<V>>[DEFAULT_CAPACITY](_ => []);
      AllEmpty(a[..]);
      capacity := DEFAULT_CAPACITY;
      entries := a;
      size, bucketsNumber := 0, 0;
      doRehash, doDecreasing := true, false;
      Contents := map[];
    }

    /** The body of the `int` constructors once the capacity has been checked. */
    constructor Sized(initialCapacity: Int)
      requires initialCapacity >= 0
      ensures Valid() && fresh(entries)
      ensures capacity == initialCapacity && entries.Length == initialCapacity
      ensures Contents == map[] && size == 0 && bucketsNumber == 0
      ensures doRehash && !doDecreasing
    {
      var a := new seq<Entry<V>>[initialCapacity](_ => []);
      AllEmpty(a[..]);
      capacity := initialCapacity;
      entries := a;
      size, bucketsNumber := 0, 0;
      doRehash, doDecreasing := true, false;
      Contents := map[];
    }

    /** `LongMapImpl(int initialCapacity)`. */
    static method WithCapacity(initialCapacity: Int) returns (r: Outcome<LongMapImpl<V>>)
      ensures r.Threw? <==> initialCapacity < 0
      ensures r.Threw? ==> r.fault == IllegalArgument
      ensures r.Returned? ==>
        && fresh(r.value) && fresh(r.value.entries) && r.value.Valid()
        && r.value.capacity == initialCapacity && r.value.entries.Length == initialCapacity
        && r.value.Contents == map[] && r.value.doRehash && !r.value.doDecreasing
    {
      var checked := CheckInitCapacity(initialCapacity);
      if checked.Threw? {
        return Threw(checked.fault);
      }
      var m := new LongMapImpl<V>.Sized(initialCapacity);
      return Returned(m);
    }

    /**
     * `LongMapImpl(int initialCapacity, boolean doDecreasing)`: the flag is
     * never stored, so shrinking stays off.
     */
    static method WithCapacityAndShrink(initialCapacity: Int, doDecreasing: bool) returns (r: Outcome<LongMapImpl<V>>)
      ensures r.Threw? <==> initialCapacity < 0
      ensures r.Threw? ==> r.fault == IllegalArgument
      ensures r.Returned? ==>
        && fresh(r.value) && fresh(r.value.entries) && r.value.Valid()
        && r.value.capacity == initialCapacity && r.value.entries.Length == initialCapacity
        && r.value.Contents == map[] && r.value.doRehash && !r.value.doDecreasing
    {
      var checked := CheckInitCapacity(initialCapacity);
      if checked.Threw? {
        return Threw(checked.fault);
      }
      var m := new LongMapImpl<V>.Sized(initialCapacity);
      return Returned(m);
    }

    /** `calcCurrentLoad`: the `int` quotient `_bucketsNumber / _capacity`. */
    function CalcCurrentLoad(): (load: int)
      reads this
      requires capacity > 0
      ensures 0 <= bucketsNumber ==> (AboveMaxLoad(load) <==> bucketsNumber >= capacity)
      ensures 0 <= bucketsNumber ==> (BelowMinLoad(load) <==> bucketsNumber < capacity)
    {
      if 0 <= bucketsNumber then
        LoadThresholds(bucketsNumber, capacity);
        JavaDiv(bucketsNumber, capacity)
      else
        JavaDiv(bucketsNumber, capacity)
    }

    /**
     * `increaseCapacity`: doubles its parameter copy (with `int` wrap-around)
     * and forbids further rehashing when the double exceeds MAX_CAPACITY.
     * The doubled value never reaches `_capacity`.
     */
    method IncreaseCapacity(currentCapacity: Int)
      modifies this`doRehash
      ensures doRehash == (old(doRehash) && ToInt(currentCapacity * 2) <= MAX_CAPACITY)
    {
      var doubled := ToInt(currentCapacity * 2);
      if doubled > MAX_CAPACITY {
        doRehash := false;
      }
    }

    /** `decreaseCapacity`: allows rehashing again; the halved value goes only to its parameter copy. */
    method DecreaseCapacity(currentCapacity: Int)
      modifies this`doRehash
      ensures doRehash
    {
      doRehash := true;
    }

    /**
     * `rehash(newCapacity)`: reinserts every node, bucket by bucket and in
     * chain order, into a fresh array of `newCapacity` slots. The only
     * caller passes `_capacity`, and the reinsertion indexes by `_capacity`,
     * so each chain is rebuilt in its old slot and in its old order.
     */
    method Rehash(newCapacity: Int)
      requires Valid() && newCapacity == capacity
      modifies this
      ensures Valid() && fresh(entries) && entries.Length == newCapacity
      ensures entries[..] == Resize(old(entries[..]), newCapacity)
      ensures forall b :: Bucket(b) == old(Bucket(b))
      ensures Contents == old(Contents) && size == old(size) && bucketsNumber == old(bucketsNumber)
      ensures capacity == old(capacity) && doRehash == old(doRehash) && doDecreasing == old(doDecreasing)
    {
      ghost var b0, c0 := entries[..], Contents;
      var oldEntries := entries;
      Reset(newCapacity);
      assert entries[..] == Resize(b0[..0], newCapacity);
      var i := 0;
      while i < oldEntries.Length
        invariant 0 <= i <= oldEntries.Length && oldEntries[..] == b0
        invariant fresh(entries) && entries.Length == newCapacity
        invariant Valid()
        invariant capacity == old(capacity) && doRehash == old(doRehash) && doDecreasing == old(doDecreasing)
        invariant entries[..] == Resize(b0[..i], newCapacity)
      {
        ResizeStep(b0, i, newCapacity);
        if oldEntries[i] != [] {
          assert ChainPlaced(b0, i, capacity);
          ReinsertChain(oldEntries[i], i);
        }
        i := i + 1;
      }
      assert b0[..i] == b0;
      ResizeKeeps(b0, c0, newCapacity);
      RepresentsUnique(entries[..], Contents, c0, capacity);
      ResizeKeepsChains(b0, newCapacity);
    }

    /**
     * The inner loop of `rehash`: `put` each node of a chain taken from the
     * old array, in link order, into the slot `i` it came from, which is
     * still empty in the new array.
     */
    method ReinsertChain(chain: seq<Entry<V>>, i: int)
      requires Valid() && 0 <= i < entries.Length && entries[i] == []
      requires UniqueKeys(chain) && forall e | e in chain :: capacity > 0 && Slot(e.key, capacity) == i
      modifies this, entries
      ensures Valid() && entries == old(entries)
      ensures capacity == old(capacity) && doRehash == old(doRehash) && doDecreasing == old(doDecreasing)
      ensures entries[..] == old(entries[..])[i := chain]
      ensures size == old(size) + |chain|
      ensures bucketsNumber == old(bucketsNumber) + (if chain == [] then 0 else 1)
    {
      ghost var e0 := entries[..];
      assert e0[i := chain[..0]] == e0;
      var j := 0;
      while j < |chain|
        invariant 0 <= j <= |chain|
        invariant Valid() && entries == old(entries)
        invariant capacity == old(capacity) && doRehash == old(doRehash) && doDecreasing == old(doDecreasing)
        invariant entries[..] == e0[i := chain[..j]]
        invariant size == old(size) + j
        invariant bucketsNumber == old(bucketsNumber) + (if j == 0 then 0 else 1)
      {
        var key := chain[j].key;
        assert chain[j] in chain;
        forall p | 0 <= p < |entries[i]|
          ensures entries[i][p].key != key
        {
          assert entries[i][p] == chain[p];
        }
        AbsentFromChain(entries[..], Contents, capacity, key);
        var _ := PutAt(key, chain[j].value, i);
        assert chain[..j] + [chain[j]] == chain[..j + 1];
        assert e0[i := chain[..j]][i := chain[..j + 1]] == e0[i := chain[..j + 1]];
        j := j + 1;
      }
      assert chain[..j] == chain;
    }

    /**
     * The part of `put` after the growth check: store `key` in the chain at
     * `idx`, overwriting the value of an existing node or appending a new
     * node at the tail (or as the head of an empty slot).
     */
    method PutAt(key: Long, value: V, idx: int) returns (previous: Option<V>)
      requires Valid() && capacity > 0 && idx == Slot(key, capacity) && 0 <= idx < entries.Length
      modifies this, entries
      ensures Valid() && entries == old(entries)
      ensures capacity == old(capacity) && doRehash == old(doRehash) && doDecreasing == old(doDecreasing)
      ensures previous == if key in old(Contents) then Some(old(Contents)[key]) else None
      ensures Contents == old(Contents)[key := value]
      ensures entries[..] == old(entries[..])[idx :=
        if key in old(Contents) then Updated(old(entries[idx]), key, value)
        else old(entries[idx]) + [Entry(key, value)]]
      ensures size == old(size) + (if key in old(Contents) then 0 else 1)
      ensures bucketsNumber == old(bucketsNumber) + (if old(entries[idx]) == [] then 1 else 0)
    {
      ghost var b0 := entries[..];
      var chain := entries[idx];
      if chain == [] {
        AbsentFromChain(b0, Contents, capacity, key);
        InsertKeepsInv(b0, Contents, capacity, key, value);
        FlattenUpdate(b0, idx, [Entry(key, value)]);
        OccupiedUpdate(b0, idx, [Entry(key, value)]);
        assert chain + [Entry(key, value)] == [Entry(key, value)];
        entries[idx] := [Entry(key, value)];
        assert entries[..] == b0[idx := [Entry(key, value)]];
        size := size + 1;
        bucketsNumber := bucketsNumber + 1;
        Contents := Contents[key := value];
        return None;
      }
      var j := 0;
      while j < |chain| && chain[j].key != key
        invariant 0 <= j <= |chain|
        invariant forall p | 0 <= p < j :: chain[p].key != key
      {
        j := j + 1;
      }
      if j == |chain| {
        AbsentFromChain(b0, Contents, capacity, key);
        InsertKeepsInv(b0, Contents, capacity, key, value);
        FlattenUpdate(b0, idx, chain + [Entry(key, value)]);
        OccupiedUpdate(b0, idx, chain + [Entry(key, value)]);
        entries[idx] := chain + [Entry(key, value)];
        assert entries[..] == b0[idx := chain + [Entry(key, value)]];
        size := size + 1;
        Contents := Contents[key := value];
        previous := None;
      } else {
        UpdateKeepsInv(b0, Contents, capacity, key, value, j);
        UpdatedAt(chain, key, value, j);
        FlattenUpdate(b0, idx, chain[j := Entry(key, value)]);
        OccupiedUpdate(b0, idx, chain[j := Entry(key, value)]);
        previous := Some(chain[j].value);
        entries[idx] := chain[j := Entry(key, value)];
        assert entries[..] == b0[idx := chain[j := Entry(key, value)]];
        Contents := Contents[key := value];
      }
    }

    /**
     * The growth step at the start of `put`: once `_bucketsNumber >= _capacity`
     * (each of the first `_capacity` slots occupied), `increaseCapacity` runs and, while rehashing is allowed, the
     * array is rebuilt (at the unchanged capacity).
     */
    method Grow()
      requires Valid() && capacity > 0
      modifies this
      ensures Valid()
      ensures var full := old(bucketsNumber) >= old(capacity);
        && doRehash == (old(doRehash) && !(full && ToInt(old(capacity) * 2) > MAX_CAPACITY))
        && (if full && doRehash then fresh(entries) && entries.Length == capacity else entries == old(entries))
      ensures forall b :: Bucket(b) == old(Bucket(b))
      ensures Contents == old(Contents) && size == old(size) && bucketsNumber == old(bucketsNumber)
      ensures capacity == old(capacity) && doDecreasing == old(doDecreasing)
    {
      var load := CalcCurrentLoad();
      if AboveMaxLoad(load) {
        IncreaseCapacity(capacity);
        if doRehash {
          Rehash(capacity);
        }
      }
    }

    /**
     * `put(key, value)`: returns the previous value of `key` or none. When
     * `_bucketsNumber >= _capacity` it first runs the growth step, which
     * rebuilds the array with `_capacity` slots while rehashing is allowed.
     */
    method Put(key: Long, value: V) returns (r: Outcome<Option<V>>)
      requires Valid()
      modifies this, entries
      ensures Valid()
      ensures capacity == old(capacity) && doDecreasing == old(doDecreasing)
      ensures old(capacity) == 0 ==> r == Threw(Arithmetic) && entries == old(entries) && doRehash == old(doRehash)
      ensures old(capacity) > 0 ==>
        var grow := old(bucketsNumber) >= old(capacity);
        && doRehash == (old(doRehash) && !(grow && ToInt(old(capacity) * 2) > MAX_CAPACITY))
        && (if grow && doRehash then fresh(entries) && entries.Length == capacity else entries == old(entries))
      ensures r.Threw? <==> capacity == 0 || !(0 <= Slot(key, capacity) < entries.Length)
      ensures r.Threw? ==> r.fault == (if capacity == 0 then Arithmetic else IndexOutOfBounds)
      ensures r.Threw? ==>
        && Contents == old(Contents) && size == old(size) && bucketsNumber == old(bucketsNumber)
        && forall b :: Bucket(b) == old(Bucket(b))
      ensures r.Returned? ==>
        var idx := Slot(key, capacity);
        && r.value == (if key in old(Contents) then Some(old(Contents)[key]) else None)
        && Contents == old(Contents)[key := value]
        && size == old(size) + (if key in old(Contents) then 0 else 1)
        && bucketsNumber == old(bucketsNumber) + (if old(Bucket(idx)) == [] then 1 else 0)
        && Bucket(idx) == (if key in old(Contents) then Updated(old(Bucket(idx)), key, value)
                           else old(Bucket(idx)) + [Entry(key, value)])
        && forall b :: b != idx ==> Bucket(b) == old(Bucket(b))
    {
      if capacity == 0 {
        // calcCurrentLoad divides by `_capacity`
        return Threw(Arithmetic);
      }
      Grow();
      label Grown:
      var idx := Slot(key, capacity);
      if !(0 <= idx < entries.Length) {
        return Threw(IndexOutOfBounds);
      }
      var previous := PutAt(key, value, idx);
      forall b | b != idx
        ensures Bucket(b) == old@Grown(Bucket(b))
      {
      }
      assert Bucket(idx) == entries[idx];
      r := Returned(previous);
    }

    /** `get(key)`: the value stored under `key`, or none. */
    method Get(key: Long) returns (r: Outcome<Option<V>>)
      requires Valid()
      ensures r == if capacity == 0 then Threw(Arithmetic)
                   else if !(0 <= Slot(key, capacity) < entries.Length) then Threw(IndexOutOfBounds)
                   else Returned(if key in Contents then Some(Contents[key]) else None)
    {
      if capacity == 0 {
        return Threw(Arithmetic);
      }
      var idx := Slot(key, capacity);
      if !(0 <= idx < entries.Length) {
        return Threw(IndexOutOfBounds);
      }
      var chain := entries[idx];
      if chain == [] {
        AbsentFromChain(entries[..], Contents, capacity, key);
        return Returned(None);
      }
      var j := 0;
      while j < |chain| && chain[j].key != key
        invariant 0 <= j <= |chain|
        invariant forall p | 0 <= p < j :: chain[p].key != key
      {
        j := j + 1;
      }
      if j == |chain| {
        AbsentFromChain(entries[..], Contents, capacity, key);
        return Returned(None);
      }
      NodeInContents(entries[..], Contents, capacity, idx, j);
      return Returned(Some(chain[j].value));
    }

    /** `containsKey(key)`: whether a value is stored under `key`. */
    method ContainsKey(key: Long) returns (r: Outcome<bool>)
      requires Valid()
      ensures r == if capacity == 0 then Threw(Arithmetic)
                   else if !(0 <= Slot(key, capacity) < entries.Length) then Threw(IndexOutOfBounds)
                   else Returned(key in Contents)
    {
      if capacity == 0 {
        return Threw(Arithmetic);
      }
      var idx := Slot(key, capacity);
      if !(0 <= idx < entries.Length) {
        return Threw(IndexOutOfBounds);
      }
      var chain := entries[idx];
      if chain == [] {
        AbsentFromChain(entries[..], Contents, capacity, key);
        return Returned(false);
      }
      var j := 0;
      while j < |chain| && chain[j].key != key
        invariant 0 <= j <= |chain|
        invariant forall p | 0 <= p < j :: chain[p].key != key
      {
        j := j + 1;
      }
      if j == |chain| {
        AbsentFromChain(entries[..], Contents, capacity, key);
        return Returned(false);
      }
      NodeInContents(entries[..], Contents, capacity, idx, j);
      return Returned(true);
    }

    /**
     * The unlinking step of `remove`: node `j` of slot `idx`, which holds
     * `key`, is dropped by making its successor the new head (`j == 0`) or
     * its predecessor's successor; a slot left empty stops counting as
     * occupied (only the head case can leave it empty).
     */
    method Unlink(key: Long, idx: int, j: nat) returns (removed: V)
      requires Valid() && capacity > 0 && idx == Slot(key, capacity) && 0 <= idx < entries.Length
      requires j < |entries[idx]| && entries[idx][j].key == key
      modifies this, entries
      ensures Valid() && entries == old(entries)
      ensures capacity == old(capacity) && doRehash == old(doRehash) && doDecreasing == old(doDecreasing)
      ensures key in old(Contents) && removed == old(Contents)[key]
      ensures Contents == old(Contents) - {key} && size == old(size) - 1
      ensures entries[..] == old(entries[..])[idx := old(entries[idx])[..j] + old(entries[idx])[j + 1..]]
      ensures bucketsNumber == old(bucketsNumber) - (if entries[idx] == [] then 1 else 0)
    {
      ghost var b0 := entries[..];
      var chain := entries[idx];
      var rest := chain[..j] + chain[j + 1..];
      RemoveKeepsInv(b0, Contents, capacity, key, j);
      FlattenUpdate(b0, idx, rest);
      OccupiedUpdate(b0, idx, rest);
      removed := chain[j].value;
      entries[idx] := rest;
      assert entries[..] == b0[idx := rest];
      size := size - 1;
      Contents := Contents - {key};
      if rest == [] {
        bucketsNumber := bucketsNumber - 1;
      }
    }

    /**
     * `remove(key)`: unlinks the node holding `key` and returns its value.
     * An empty slot gives none; a key missing from an occupied slot walks
     * off the end of the chain and throws.
     */
    method Remove(key: Long) returns (r: Outcome<Option<V>>)
      requires Valid()
      modifies this, entries
      ensures Valid()
      ensures capacity == old(capacity) && entries == old(entries) && doDecreasing == old(doDecreasing)
      ensures r == if capacity == 0 then Threw(Arithmetic)
                   else if !(0 <= Slot(key, capacity) < entries.Length) then Threw(IndexOutOfBounds)
                   else if old(entries[Slot(key, capacity)]) == [] then Returned(None)
                   else if key !in old(Contents) then Threw(NullPointer)
                   else Returned(Some(old(Contents)[key]))
      ensures !(r.Returned? && r.value.Some?) ==>
        && Contents == old(Contents) && size == old(size) && bucketsNumber == old(bucketsNumber)
        && entries[..] == old(entries[..]) && doRehash == old(doRehash)
      ensures r.Returned? && r.value.Some? ==>
        var idx := Slot(key, capacity);
        && Contents == old(Contents) - {key}
        && size == old(size) - 1
        && entries[..] == old(entries[..])[idx := Without(old(entries[idx]), key)]
        && bucketsNumber == old(bucketsNumber) - (if entries[idx] == [] then 1 else 0)
        && doRehash == (old(doRehash) ||
             (entries[idx] == [] && doDecreasing && BelowMinLoad(JavaDiv(bucketsNumber, capacity))
              && entries.Length > MIN_LENGTH_TO_DECREASING))
    {
      if capacity == 0 {
        return Threw(Arithmetic);
      }
      var idx := Slot(key, capacity);
      if !(0 <= idx < entries.Length) {
        return Threw(IndexOutOfBounds);
      }
      var chain := entries[idx];
      if chain == [] {
        return Returned(None);
      }
      if chain[0].key == key {
        WithoutAt(chain, key, 0);
        var removed := Unlink(key, idx, 0);
        if entries[idx] == [] {
          if doDecreasing && BelowMinLoad(CalcCurrentLoad()) && entries.Length > MIN_LENGTH_TO_DECREASING {
            DecreaseCapacity(capacity);
          }
        }
        return Returned(Some(removed));
      }
      var j := 0;
      while chain[j].key != key
        invariant 0 <= j < |chain|
        invariant forall p | 0 <= p < j :: chain[p].key != key
        decreases |chain| - j
      {
        if j + 1 == |chain| {
          // `currentEntry` has become null and `getNext()` is called on it
          AbsentFromChain(entries[..], Contents, capacity, key);
          return Threw(NullPointer);
        }
        j := j + 1;
      }
      WithoutAt(chain, key, j);
      var removed := Unlink(key, idx, j);
      return Returned(Some(removed));
    }

    /** `containsValue(value)`: whether some key is bound to `value`. */
    method ContainsValue(value: V) returns (found: bool)
      requires Valid()
      ensures found <==> value in Contents.Values
    {
      var i := 0;
      while i < entries.Length
        invariant 0 <= i <= entries.Length
        invariant forall b, e | 0 <= b < i && e in entries[b] :: e.value != value
      {
        var chain := entries[i];
        if chain != [] {
          var j := 0;
          while j < |chain| && chain[j].value != value
            invariant 0 <= j <= |chain|
            invariant forall p | 0 <= p < j :: chain[p].value != value
          {
            j := j + 1;
          }
          if j < |chain| {
            NodeInContents(entries[..], Contents, capacity, i, j);
            return true;
          }
        }
        i := i + 1;
      }
      ValueAbsent(entries[..], Contents, capacity, value);
      return false;
    }

    /** `keys()`: one key per node, bucket by bucket and in chain order. */
    method Keys() returns (keys: array<Long>)
      requires Valid()
      ensures fresh(keys)
      ensures keys[..] == KeysOf(Flatten(entries[..]))
      ensures keys.Length == size == |Contents|
      ensures forall k :: k in keys[..] <==> k in Contents
      ensures forall p, q | 0 <= p < q < keys.Length :: keys[p] != keys[q]
    {
      keys := new Long[size];
      var n := 0;
      var i := 0;
      while i < entries.Length
        invariant 0 <= i <= entries.Length
        invariant n == |Flatten(entries[..i])| <= size
        invariant keys[..n] == KeysOf(Flatten(entries[..i]))
      {
        var chain := entries[i];
        FlattenStep(entries[..], i);
        FlattenPrefix(entries[..], i + 1);
        ghost var done := Flatten(entries[..i]);
        var j := 0;
        while j < |chain|
          invariant 0 <= j <= |chain|
          invariant n == |done| + j
          invariant keys[..n] == KeysOf(done + chain[..j])
        {
          assert done + chain[..j + 1] == (done + chain[..j]) + [chain[j]];
          keys[n] := chain[j].key;
          n := n + 1;
          j := j + 1;
        }
        assert chain[..j] == chain;
        i := i + 1;
      }
      assert entries[..i] == entries[..];
      assert keys[..] == keys[..n] == KeysOf(Flatten(entries[..]));
      FlattenKeys(entries[..], Contents, capacity);
      FlattenCount(entries[..], Contents, capacity);
      FlattenKeysDistinct(entries[..], capacity);
    }

    /** `values()`: one value per node, in the same order as `keys()`. */
    method Values() returns (values: array<V>)
      requires Valid()
      ensures fresh(values)
      ensures values[..] == ValuesOf(Flatten(entries[..]))
      ensures values.Length == size == |Contents|
      ensures forall v :: v in values[..] <==> v in Contents.Values
    {
      values := new V[size];
      var n := 0;
      var i := 0;
      while i < entries.Length
        invariant 0 <= i <= entries.Length
        invariant n == |Flatten(entries[..i])| <= size
        invariant values[..n] == ValuesOf(Flatten(entries[..i]))
      {
        var chain := entries[i];
        FlattenStep(entries[..], i);
        FlattenPrefix(entries[..], i + 1);
        ghost var done := Flatten(entries[..i]);
        var j := 0;
        while j < |chain|
          invariant 0 <= j <= |chain|
          invariant n == |done| + j
          invariant values[..n] == ValuesOf(done + chain[..j])
        {
          assert done + chain[..j + 1] == (done + chain[..j]) + [chain[j]];
          values[n] := chain[j].value;
          n := n + 1;
          j := j + 1;
        }
        assert chain[..j] == chain;
        i := i + 1;
      }
      assert entries[..i] == entries[..];
      FlattenValues(entries[..], Contents, capacity);
      FlattenCount(entries[..], Contents, capacity);
    }

    /** `size()`: the number of stored pairs. */
    function Size(): (n: int)
      reads this, entries
      requires Valid()
      ensures n == |Contents|
    {
      FlattenCount(entries[..], Contents, capacity);
      size
    }

    /** `isEmpty()`. */
    function IsEmpty(): (empty: bool)
      reads this, entries
      requires Valid()
      ensures empty <==> Contents == map[]
    {
      FlattenCount(entries[..], Contents, capacity);
      size == 0
    }

    /**
     * `clear()`: drops every pair and installs a fresh DEFAULT_CAPACITY-slot
     * array, leaving `_capacity` as it was.
     */
    method Clear()
      requires Valid()
      modifies this
      ensures Valid() && fresh(entries) && entries.Length == DEFAULT_CAPACITY
      ensures Contents == map[] && size == 0 && bucketsNumber == 0
      ensures forall k | 0 <= k < DEFAULT_CAPACITY :: entries[k] == []
      ensures capacity == old(capacity) && doRehash == old(doRehash) && doDecreasing == old(doDecreasing)
    {
      Reset(DEFAULT_CAPACITY);
    }

    /**
     * Installs a fresh array of `length` empty slots and zeroes both
     * counters: the first step of `rehash`, and all of `clear`.
     */
    method Reset(length: nat)
      requires 0 <= capacity
      modifies this
      ensures Valid() && fresh(entries) && entries.Length == length
      ensures forall k | 0 <= k < length :: entries[k] == []
      ensures Contents == map[] && size == 0 && bucketsNumber == 0
      ensures capacity == old(capacity) && doRehash == old(doRehash) && doDecreasing == old(doDecreasing)
    {
      size := 0;
      bucketsNumber := 0;
      var a := new seq<Entry<V>>[length](_ => []);
      AllEmpty(a[..]);
      entries := a;
      Contents := map[];
    }
  }
}
