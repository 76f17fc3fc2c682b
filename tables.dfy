// The bucket array of the map as a value: a sequence of chains. This module
// says where a key belongs (its slot), when a table is well formed and which
// key/value map it represents, and how the two counters of the map (`_size`,
// the number of nodes, and `_bucketsNumber`, the number of non-empty slots)
// are read off it. The lemmas are what the map's methods use to keep the
// invariant when they change one chain or rebuild the array.

module Tables {
  import opened JavaInts
  import opened Chains

  type Buckets<V> = seq<seq<Entry<V>>>

  /**
   * The bucket index `(int)(getHash(key) % _capacity)`. Java's `%` keeps the
   * sign of the hash, so a key with a negative hash gets a non-positive
   * index: negative, or 0 when the hash is a multiple of the capacity.
   */
  function Slot(key: Long, capacity: int): (idx: int)
    requires capacity > 0
    ensures -capacity < idx < capacity
    ensures LongHashCode(key) >= 0 ==> idx >= 0
    ensures LongHashCode(key) < 0 ==> idx <= 0
  {
    JavaRem(LongHashCode(key), capacity)
  }

  /** Keys below 2^31 hash to themselves, so their slot is the plain remainder. */
  lemma SlotOfSmallKey(key: Long, capacity: int)
    requires 0 <= key < TWO_31 && capacity > 0
    ensures Slot(key, capacity) == key % capacity
  {
    JavaOfNonNegative(key, capacity);
  }

  /**
   * Slot `i` is well placed: its chain has distinct keys, every node sits in
   * the slot its key hashes to, and a slot at or beyond `capacity`, which no
   * key hashes to, is empty (there are such slots once the array is longer
   * than the capacity).
   */
  ghost predicate ChainPlaced<V>(b: Buckets<V>, i: int, capacity: int)
  {
    0 <= i < |b| ==>
      && UniqueKeys(b[i])
      && (forall e | e in b[i] :: capacity > 0 && Slot(e.key, capacity) == i)
      && (i >= capacity ==> b[i] == [])
  }

  ghost predicate Placed<V>(b: Buckets<V>, capacity: int)
  {
    forall i :: ChainPlaced(b, i, capacity)
  }

  /** Every node of slot `i` is a pair of `contents`. */
  ghost predicate ChainBound<V>(b: Buckets<V>, i: int, contents: map<Long, V>)
  {
    0 <= i < |b| ==> forall e | e in b[i] :: e.key in contents && contents[e.key] == e.value
  }

  /** The pair of `k`, when `contents` has one, is a node of the slot `k` hashes to. */
  ghost predicate KeyStored<V>(b: Buckets<V>, contents: map<Long, V>, capacity: int, k: Long)
  {
    k in contents ==>
      capacity > 0 && 0 <= Slot(k, capacity) < |b| && Entry(k, contents[k]) in b[Slot(k, capacity)]
  }

  /**
   * The table holds exactly the pairs of `contents`: every node is a pair of
   * the map, and every pair of the map is a node of the slot its key hashes to.
   */
  ghost predicate Represents<V>(b: Buckets<V>, contents: map<Long, V>, capacity: int)
  {
    && (forall i :: ChainBound(b, i, contents))
    && (forall k :: KeyStored(b, contents, capacity, k))
  }

  ghost predicate Inv<V>(b: Buckets<V>, contents: map<Long, V>, capacity: int)
  {
    Placed(b, capacity) && Represents(b, contents, capacity)
  }

  /** All nodes of the table, bucket by bucket, each chain in link order. */
  function Flatten<V>(b: Buckets<V>): seq<Entry<V>>
  {
    if b == [] then [] else Flatten(b[..|b| - 1]) + b[|b| - 1]
  }

  /** The number of non-empty slots. */
  function Occupied<V>(b: Buckets<V>): nat
  {
    if b == [] then 0 else Occupied(b[..|b| - 1]) + (if b[|b| - 1] == [] then 0 else 1)
  }

  function KeysOf<V>(es: seq<Entry<V>>): seq<Long>
  {
    seq(|es|, i requires 0 <= i < |es| => es[i].key)
  }

  function ValuesOf<V>(es: seq<Entry<V>>): seq<V>
  {
    seq(|es|, i requires 0 <= i < |es| => es[i].value)
  }

  /** The table rebuilt into `n` slots: slot `i` keeps its chain, new slots are empty. */
  function Resize<V>(b: Buckets<V>, n: nat): Buckets<V>
  {
    seq(n, i requires 0 <= i < n => if i < |b| then b[i] else [])
  }

  /** The chain at index `k`, empty for an index outside the table. */
  function SlotChain<V>(b: Buckets<V>, k: int): seq<Entry<V>>
  {
    if 0 <= k < |b| then b[k] else []
  }

  /** Rebuilding a well-placed table into `capacity` slots leaves every slot's chain as it was. */
  lemma ResizeKeepsChains<V>(b: Buckets<V>, capacity: nat)
    requires Placed(b, capacity)
    ensures forall k :: SlotChain(Resize(b, capacity), k) == SlotChain(b, k)
  {
    forall k
      ensures SlotChain(Resize(b, capacity), k) == SlotChain(b, k)
    {
      assert ChainPlaced(b, k, capacity);
    }
  }

  /** Rebuilding slot by slot: copying chain `i` extends the rebuilt prefix by one slot. */
  lemma ResizeStep<V>(b: Buckets<V>, i: nat, n: nat)
    requires i < |b|
    ensures i < n ==> Resize(b[..i], n)[i := b[i]] == Resize(b[..i + 1], n)
    ensures b[i] == [] || i >= n ==> Resize(b[..i], n) == Resize(b[..i + 1], n)
  {
  }

  lemma {:induction false} FlattenMembership<V>(b: Buckets<V>, e: Entry<V>)
    ensures e in Flatten(b) <==> exists i | 0 <= i < |b| :: e in b[i]
  {
    if b != [] {
      var init := b[..|b| - 1];
      FlattenMembership(init, e);
      if e in Flatten(b) && e !in b[|b| - 1] {
        var i :| 0 <= i < |init| && e in init[i];
        assert e in b[i];
      }
      if exists i | 0 <= i < |b| :: e in b[i] {
        var i :| 0 <= i < |b| && e in b[i];
        if i < |b| - 1 {
          assert e in init[i];
        }
      }
    }
  }

  /** The nodes of a prefix of the table come first. */
  lemma {:induction false} FlattenPrefix<V>(b: Buckets<V>, i: nat)
    requires i <= |b|
    ensures |Flatten(b[..i])| <= |Flatten(b)|
  {
    if i < |b| {
      assert b[..|b| - 1][..i] == b[..i];
      FlattenPrefix(b[..|b| - 1], i);
    } else {
      assert b[..i] == b;
    }
  }

  lemma FlattenStep<V>(b: Buckets<V>, i: nat)
    requires i < |b|
    ensures Flatten(b[..i + 1]) == Flatten(b[..i]) + b[i]
    ensures Occupied(b[..i + 1]) == Occupied(b[..i]) + (if b[i] == [] then 0 else 1)
  {
    assert b[..i + 1][..i] == b[..i];
  }

  /** Replacing one chain changes the node count by the difference in length. */
  lemma {:induction false} FlattenUpdate<V>(b: Buckets<V>, i: nat, c: seq<Entry<V>>)
    requires i < |b|
    ensures |Flatten(b[i := c])| == |Flatten(b)| - |b[i]| + |c|
  {
    var n := |b| - 1;
    if i < n {
      assert b[i := c][..n] == b[..n][i := c];
      FlattenUpdate(b[..n], i, c);
    } else {
      assert b[i := c][..n] == b[..n];
    }
  }

  /** Replacing one chain changes the occupied count only when the slot turns empty or non-empty. */
  lemma {:induction false} OccupiedUpdate<V>(b: Buckets<V>, i: nat, c: seq<Entry<V>>)
    requires i < |b|
    ensures Occupied(b[i := c]) == Occupied(b) - (if b[i] == [] then 0 else 1) + (if c == [] then 0 else 1)
  {
    var n := |b| - 1;
    if i < n {
      assert b[i := c][..n] == b[..n][i := c];
      OccupiedUpdate(b[..n], i, c);
    } else {
      assert b[i := c][..n] == b[..n];
    }
  }

  lemma {:induction false} EmptyTail<V>(b: Buckets<V>, m: nat)
    requires m <= |b|
    requires forall k | m <= k < |b| :: b[k] == []
    ensures Flatten(b) == Flatten(b[..m]) && Occupied(b) == Occupied(b[..m])
  {
    if m < |b| {
      var n := |b| - 1;
      assert b[..n][..m] == b[..m];
      EmptyTail(b[..n], m);
    } else {
      assert b[..m] == b;
    }
  }

  lemma AllEmpty<V>(b: Buckets<V>)
    requires forall k | 0 <= k < |b| :: b[k] == []
    ensures Flatten(b) == [] && Occupied(b) == 0
  {
    EmptyTail(b, 0);
  }

  /** The map a table represents is determined by the table. */
  lemma RepresentsUnique<V>(b: Buckets<V>, c1: map<Long, V>, c2: map<Long, V>, capacity: int)
    requires Represents(b, c1, capacity) && Represents(b, c2, capacity)
    ensures c1 == c2
  {
    forall k | k in c1
      ensures k in c2 && c2[k] == c1[k]
    {
      assert KeyStored(b, c1, capacity, k);
      assert ChainBound(b, Slot(k, capacity), c2);
    }
    forall k | k in c2
      ensures k in c1
    {
      assert KeyStored(b, c2, capacity, k);
      assert ChainBound(b, Slot(k, capacity), c1);
    }
  }

  /**
   * Rebuilding a well-placed table into `capacity` slots keeps every chain
   * in its slot and in its order: the same pairs, nodes and occupied slots.
   */
  lemma ResizeKeeps<V>(b: Buckets<V>, contents: map<Long, V>, capacity: nat)
    requires Inv(b, contents, capacity)
    ensures Inv(Resize(b, capacity), contents, capacity)
    ensures Flatten(Resize(b, capacity)) == Flatten(b)
    ensures Occupied(Resize(b, capacity)) == Occupied(b)
  {
    var r := Resize(b, capacity);
    var m := if capacity < |b| then capacity else |b|;
    forall k | m <= k < |b|
      ensures b[k] == []
    {
      assert ChainPlaced(b, k, capacity);
    }
    EmptyTail(b, m);
    EmptyTail(r, m);
    assert r[..m] == b[..m];
    forall i
      ensures ChainPlaced(r, i, capacity) && ChainBound(r, i, contents)
    {
      assert ChainPlaced(b, i, capacity) && ChainBound(b, i, contents);
    }
    forall k
      ensures KeyStored(r, contents, capacity, k)
    {
      assert KeyStored(b, contents, capacity, k);
    }
  }

  /** A pair read off a node of the table is a pair of the map. */
  lemma NodeInContents<V>(b: Buckets<V>, contents: map<Long, V>, capacity: int, i: int, j: int)
    requires Represents(b, contents, capacity)
    requires 0 <= i < |b| && 0 <= j < |b[i]|
    ensures b[i][j].key in contents && contents[b[i][j].key] == b[i][j].value
  {
    assert ChainBound(b, i, contents);
    assert b[i][j] in b[i];
  }

  /** No node of the slot `key` hashes to holds `key`, so the map does not hold it either. */
  lemma AbsentFromChain<V>(b: Buckets<V>, contents: map<Long, V>, capacity: int, key: Long)
    requires Represents(b, contents, capacity) && capacity > 0
    requires 0 <= Slot(key, capacity) < |b|
    requires forall p | 0 <= p < |b[Slot(key, capacity)]| :: b[Slot(key, capacity)][p].key != key
    ensures key !in contents
  {
    var chain := b[Slot(key, capacity)];
    assert KeyStored(b, contents, capacity, key);
    assert forall v :: Entry(key, v) !in chain;
  }

  /** Appending a node for a new key to the tail of its slot's chain adds that pair. */
  lemma InsertKeepsInv<V>(b: Buckets<V>, contents: map<Long, V>, capacity: int, key: Long, value: V)
    requires Inv(b, contents, capacity) && capacity > 0
    requires 0 <= Slot(key, capacity) < |b| && key !in contents
    ensures Inv(b[Slot(key, capacity) := b[Slot(key, capacity)] + [Entry(key, value)]], contents[key := value], capacity)
    ensures |contents[key := value]| == |contents| + 1
  {
    var idx := Slot(key, capacity);
    var c := b[idx] + [Entry(key, value)];
    var b' := b[idx := c];
    var contents' := contents[key := value];
    forall p | 0 <= p < |b[idx]|
      ensures b[idx][p].key != key
    {
      NodeInContents(b, contents, capacity, idx, p);
    }
    forall i
      ensures ChainPlaced(b', i, capacity) && ChainBound(b', i, contents')
    {
      assert ChainPlaced(b, i, capacity) && ChainBound(b, i, contents);
      if i == idx {
        forall e | e in c
          ensures capacity > 0 && Slot(e.key, capacity) == i
          ensures e.key in contents' && contents'[e.key] == e.value
        {
          if e != Entry(key, value) {
            assert e in b[idx];
          }
        }
      }
    }
    forall k
      ensures KeyStored(b', contents', capacity, k)
    {
      assert KeyStored(b, contents, capacity, k);
    }
  }

  /** Overwriting the value of the node that holds `key` rebinds that key and nothing else. */
  lemma UpdateKeepsInv<V>(b: Buckets<V>, contents: map<Long, V>, capacity: int, key: Long, value: V, j: nat)
    requires Inv(b, contents, capacity) && capacity > 0
    requires 0 <= Slot(key, capacity) < |b|
    requires j < |b[Slot(key, capacity)]| && b[Slot(key, capacity)][j].key == key
    ensures key in contents && contents[key] == b[Slot(key, capacity)][j].value
    ensures Inv(b[Slot(key, capacity) := b[Slot(key, capacity)][j := Entry(key, value)]], contents[key := value], capacity)
    ensures |contents[key := value]| == |contents|
  {
    var idx := Slot(key, capacity);
    var chain := b[idx];
    NodeInContents(b, contents, capacity, idx, j);
    var c := chain[j := Entry(key, value)];
    var b' := b[idx := c];
    var contents' := contents[key := value];
    assert ChainPlaced(b, idx, capacity);
    ReplaceMembers(chain, j, Entry(key, value));
    forall i
      ensures ChainPlaced(b', i, capacity) && ChainBound(b', i, contents')
    {
      assert ChainPlaced(b, i, capacity) && ChainBound(b, i, contents);
      if i == idx {
        forall e | e in c
          ensures capacity > 0 && Slot(e.key, capacity) == i
          ensures e.key in contents' && contents'[e.key] == e.value
        {
          if e != Entry(key, value) {
            assert e in b[idx];
          }
        }
      }
    }
    forall k
      ensures KeyStored(b', contents', capacity, k)
    {
      assert KeyStored(b, contents, capacity, k);
    }
    assert contents'.Keys == contents.Keys;
  }

  /** Unlinking the node that holds `key` drops exactly that pair. */
  lemma RemoveKeepsInv<V>(b: Buckets<V>, contents: map<Long, V>, capacity: int, key: Long, j: nat)
    requires Inv(b, contents, capacity) && capacity > 0
    requires 0 <= Slot(key, capacity) < |b|
    requires j < |b[Slot(key, capacity)]| && b[Slot(key, capacity)][j].key == key
    ensures key in contents && contents[key] == b[Slot(key, capacity)][j].value
    ensures Inv(b[Slot(key, capacity) := b[Slot(key, capacity)][..j] + b[Slot(key, capacity)][j + 1..]],
                contents - {key}, capacity)
    ensures |contents - {key}| == |contents| - 1
  {
    var idx := Slot(key, capacity);
    var chain := b[idx];
    NodeInContents(b, contents, capacity, idx, j);
    var c := chain[..j] + chain[j + 1..];
    var b' := b[idx := c];
    var contents' := contents - {key};
    assert ChainPlaced(b, idx, capacity);
    SpliceMembers(chain, j);
    forall i
      ensures ChainPlaced(b', i, capacity) && ChainBound(b', i, contents')
    {
      assert ChainPlaced(b, i, capacity) && ChainBound(b, i, contents);
    }
    forall k
      ensures KeyStored(b', contents', capacity, k)
    {
      assert KeyStored(b, contents, capacity, k);
    }
    assert contents'.Keys == contents.Keys - {key};
  }

  /** Keys are unique across the whole table, not just within each chain. */
  lemma {:induction false} FlattenKeysDistinct<V>(b: Buckets<V>, capacity: int)
    requires Placed(b, capacity)
    ensures forall p, q | 0 <= p < q < |Flatten(b)| :: Flatten(b)[p].key != Flatten(b)[q].key
  {
    if b != [] {
      var n := |b| - 1;
      var init := b[..n];
      forall i
        ensures ChainPlaced(init, i, capacity)
      {
        assert ChainPlaced(b, i, capacity);
      }
      FlattenKeysDistinct(init, capacity);
      assert ChainPlaced(b, n, capacity);
      var f: seq<Entry<V>>, g: seq<Entry<V>> := Flatten(init), b[n];
      forall p: int, q: int | 0 <= p < q < |f + g|
        ensures (f + g)[p].key != (f + g)[q].key
      {
        if q >= |f| && p < |f| {
          FlattenMembership(init, f[p]);
          var i :| 0 <= i < |init| && f[p] in init[i];
          assert ChainPlaced(b, i, capacity);
          assert g[q - |f|] in b[n];
        }
      }
    }
  }

  /** The keys of a well-formed table's nodes are the keys of the map it represents. */
  lemma FlattenKeys<V>(b: Buckets<V>, contents: map<Long, V>, capacity: int)
    requires Represents(b, contents, capacity)
    ensures forall k :: k in KeysOf(Flatten(b)) <==> k in contents
  {
    var f := Flatten(b);
    forall k
      ensures k in KeysOf(f) <==> k in contents
    {
      if k in KeysOf(f) {
        var p :| 0 <= p < |f| && f[p].key == k;
        FlattenMembership(b, f[p]);
        var i :| 0 <= i < |b| && f[p] in b[i];
        assert ChainBound(b, i, contents);
      }
      if k in contents {
        assert KeyStored(b, contents, capacity, k);
        FlattenMembership(b, Entry(k, contents[k]));
        var p :| 0 <= p < |f| && f[p] == Entry(k, contents[k]);
        assert KeysOf(f)[p] == k;
      }
    }
  }

  /** The values of a well-formed table's nodes are the values of the map it represents. */
  lemma FlattenValues<V>(b: Buckets<V>, contents: map<Long, V>, capacity: int)
    requires Represents(b, contents, capacity)
    ensures forall v :: v in ValuesOf(Flatten(b)) <==> v in contents.Values
  {
    var f := Flatten(b);
    forall v
      ensures v in ValuesOf(f) <==> v in contents.Values
    {
      if v in ValuesOf(f) {
        var p :| 0 <= p < |f| && f[p].value == v;
        FlattenMembership(b, f[p]);
        var i :| 0 <= i < |b| && f[p] in b[i];
        assert ChainBound(b, i, contents);
        assert contents[f[p].key] == v;
      }
      if v in contents.Values {
        var k :| k in contents && contents[k] == v;
        assert KeyStored(b, contents, capacity, k);
        FlattenMembership(b, Entry(k, v));
        var p :| 0 <= p < |f| && f[p] == Entry(k, v);
        assert ValuesOf(f)[p] == v;
      }
    }
  }

  /** A well-formed table has one node per pair of the map it represents. */
  lemma FlattenCount<V>(b: Buckets<V>, contents: map<Long, V>, capacity: int)
    requires Inv(b, contents, capacity)
    ensures |Flatten(b)| == |contents|
  {
    FlattenKeysDistinct(b, capacity);
    FlattenKeys(b, contents, capacity);
    KeyCount(Flatten(b), contents);
  }

  /** A sequence of distinct keys whose key set is the map's domain has the map's size. */
  lemma {:induction false} KeyCount<V>(f: seq<Entry<V>>, contents: map<Long, V>)
    requires forall p, q | 0 <= p < q < |f| :: f[p].key != f[q].key
    requires forall k :: k in KeysOf(f) <==> k in contents
    ensures |f| == |contents|
  {
    if f == [] {
      assert contents.Keys == {};
    } else {
      var n := |f| - 1;
      var last := f[n].key;
      var rest := contents - {last};
      forall k
        ensures k in KeysOf(f[..n]) <==> k in rest
      {
        if k in KeysOf(f[..n]) {
          var p :| 0 <= p < n && KeysOf(f[..n])[p] == k;
          assert f[p].key == k && f[n].key == last;
          assert KeysOf(f)[p] == k;
        }
        if k in rest {
          assert k in KeysOf(f);
          var p :| 0 <= p < |f| && KeysOf(f)[p] == k;
          assert p != n;
          assert KeysOf(f[..n])[p] == k;
          assert KeysOf(f[..n])[p] in KeysOf(f[..n]);
        }
      }
      KeyCount(f[..n], rest);
      assert KeysOf(f)[n] == last;
      assert rest.Keys == contents.Keys - {last};
    }
  }

  /** No node holds `v`, so no key of the map is bound to it. */
  lemma ValueAbsent<V>(b: Buckets<V>, contents: map<Long, V>, capacity: int, v: V)
    requires Represents(b, contents, capacity)
    requires forall i, e | 0 <= i < |b| && e in b[i] :: e.value != v
    ensures v !in contents.Values
  {
    forall k | k in contents
      ensures contents[k] != v
    {
      assert KeyStored(b, contents, capacity, k);
    }
  }
}
