// A collision chain of the map: the singly linked list of `Entry` nodes that
// hangs off one bucket, modelled as the sequence of its nodes in link order
// (the head first). An empty sequence is a bucket slot holding `null`.

module Chains {
  import opened JavaInts

  datatype Option<T> = None | Some(value: T)

  /** One chain node: its key and the value stored under it. */
  datatype Entry<V> = Entry(key: Long, value: V)

  /** No key occurs twice in the chain. */
  ghost predicate UniqueKeys<V>(chain: seq<Entry<V>>)
  {
    forall p, q | 0 <= p < q < |chain| :: chain[p].key != chain[q].key
  }

  /**
   * The chain after the value of the first node holding `key` is replaced,
   * as `setValue` does when `put` finds the key.
   */
  function Updated<V>(chain: seq<Entry<V>>, key: Long, value: V): (r: seq<Entry<V>>)
    ensures |r| == |chain|
    ensures forall p | 0 <= p < |r| :: r[p].key == chain[p].key && (r[p] == chain[p] || r[p] == Entry(key, value))
  {
    if chain == [] then []
    else if chain[0].key == key then [Entry(key, value)] + chain[1..]
    else [chain[0]] + Updated(chain[1..], key, value)
  }

  /**
   * The chain after the first node holding `key` is unlinked, as `remove`
   * does by promoting the next node to head or by splicing around it.
   */
  function Without<V>(chain: seq<Entry<V>>, key: Long): (r: seq<Entry<V>>)
    ensures |chain| - 1 <= |r| <= |chain|
    ensures forall e | e in r :: e in chain
  {
    if chain == [] then []
    else if chain[0].key == key then chain[1..]
    else [chain[0]] + Without(chain[1..], key)
  }

  /** Updating rewrites exactly the node at the first occurrence of the key. */
  lemma {:induction false} UpdatedAt<V>(chain: seq<Entry<V>>, key: Long, value: V, j: nat)
    requires j < |chain| && chain[j].key == key
    requires forall p | 0 <= p < j :: chain[p].key != key
    ensures Updated(chain, key, value) == chain[j := Entry(key, value)]
  {
    if j > 0 {
      assert chain[0].key != key;
      UpdatedAt(chain[1..], key, value, j - 1);
      assert chain[j := Entry(key, value)] == [chain[0]] + chain[1..][j - 1 := Entry(key, value)];
    }
  }

  /** Unlinking drops exactly the node at the first occurrence of the key and keeps the order of the rest. */
  lemma {:induction false} WithoutAt<V>(chain: seq<Entry<V>>, key: Long, j: nat)
    requires j < |chain| && chain[j].key == key
    requires forall p | 0 <= p < j :: chain[p].key != key
    ensures Without(chain, key) == chain[..j] + chain[j + 1..]
  {
    if j > 0 {
      assert chain[0].key != key;
      WithoutAt(chain[1..], key, j - 1);
      assert chain[..j] + chain[j + 1..] == [chain[0]] + (chain[1..][..j - 1] + chain[1..][j..]);
    }
  }

  /** A chain without the key is left alone by both operations. */
  lemma {:induction false} AbsentKeyUntouched<V>(chain: seq<Entry<V>>, key: Long, value: V)
    requires forall p | 0 <= p < |chain| :: chain[p].key != key
    ensures Updated(chain, key, value) == chain
    ensures Without(chain, key) == chain
  {
    if chain != [] {
      assert chain[0].key != key;
      AbsentKeyUntouched(chain[1..], key, value);
      assert chain == [chain[0]] + chain[1..];
    }
  }

  /** Splicing out the node at `j` of a chain with distinct keys leaves exactly the nodes with other keys. */
  lemma SpliceMembers<V>(chain: seq<Entry<V>>, j: nat)
    requires j < |chain| && UniqueKeys(chain)
    ensures UniqueKeys(chain[..j] + chain[j + 1..])
    ensures forall e :: e in chain[..j] + chain[j + 1..] <==> e in chain && e.key != chain[j].key
  {
    var c := chain[..j] + chain[j + 1..];
    assert forall p | 0 <= p < |c| :: c[p] == chain[if p < j then p else p + 1];
    forall e
      ensures e in c <==> e in chain && e.key != chain[j].key
    {
      if e in chain && e.key != chain[j].key {
        var q :| 0 <= q < |chain| && chain[q] == e;
        assert c[if q < j then q else q - 1] == e;
      }
    }
  }

  /** Overwriting the node at `j` with one of the same key keeps the keys distinct and the other nodes. */
  lemma ReplaceMembers<V>(chain: seq<Entry<V>>, j: nat, x: Entry<V>)
    requires j < |chain| && UniqueKeys(chain) && x.key == chain[j].key
    ensures UniqueKeys(chain[j := x])
    ensures forall e :: e in chain[j := x] <==> e == x || (e in chain && e.key != x.key)
  {
    var c := chain[j := x];
    assert c[j] in c;
    forall e
      ensures e in c <==> e == x || (e in chain && e.key != x.key)
    {
      if e in chain && e.key != x.key {
        var q :| 0 <= q < |chain| && chain[q] == e;
        assert c[q] == e;
      }
      if e in c && e != x {
        var q :| 0 <= q < |c| && c[q] == e;
        assert q != j && chain[q] == e;
        assert chain[q] in chain && chain[q].key != chain[j].key;
      }
    }
  }
}
