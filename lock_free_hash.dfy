/**
 * The bucketed map of src/structures/lock_free_hash.rs (`LockFreeHashMap`),
 * run by one thread at a time: the per-bucket MCS locks are no-ops and every
 * atomic load or store is a plain field access.
 *
 * The map keeps `NUM_BUCKETS` chains of nodes.  A key lives in the chain
 * its hash selects; `insert` pushes a node on the front of that chain
 * without looking for an earlier binding, so the newest binding of a key
 * shadows the older ones until `remove` unlinks it.
 *
 * Each chain is described by the ghost field `Nodes[b]` (its nodes from the
 * bucket head onwards) and `Chains[b]` (their key/value pairs), tied to the
 * `next` pointers by `Valid()`.
 */
module LockFreeHash {
  import opened Wrappers
  import opened SeqFacts

  /** The fixed number of buckets. */
  const NUM_BUCKETS: nat := 256

  /** What `Hasher::finish` returns. */
  newtype u64 = x: int | 0 <= x < 0x1_0000_0000_0000_0000

  /** `bucket_index` applied to the hash of a key; on a 64-bit target the cast to `usize` keeps every bit. */
  function BucketOfHash(h: u64): (b: nat)
    ensures b < NUM_BUCKETS
    ensures (h as int - b) % NUM_BUCKETS == 0
  {
    (h as int) % NUM_BUCKETS
  }

  /** The value the first binding of `key` in a chain carries: what `get` returns. */
  function Lookup<K(==), V>(chain: seq<(K, V)>, key: K): Option<V> {
    if chain == [] then None
    else if chain[0].0 == key then Some(chain[0].1)
    else Lookup(chain[1..], key)
  }

  /** The chain with its first binding of `key` cut out: what `remove` leaves behind. */
  function RemoveFirst<K(==), V>(chain: seq<(K, V)>, key: K): (r: seq<(K, V)>)
    ensures |r| == if Lookup(chain, key).Some? then |chain| - 1 else |chain|
  {
    if chain == [] then []
    else if chain[0].0 == key then chain[1..]
    else [chain[0]] + RemoveFirst(chain[1..], key)
  }

  /** The part of a chain behind its first binding of `key` (empty when there is none). */
  function After<K(==), V>(chain: seq<(K, V)>, key: K): (r: seq<(K, V)>)
    ensures |r| < |chain| || r == []
    ensures Lookup(chain, key).None? ==> r == []
  {
    if chain == [] then []
    else if chain[0].0 == key then chain[1..]
    else After(chain[1..], key)
  }

  /** Bindings of other keys ahead of index `i` do not affect a lookup. */
  lemma {:induction false} LookupSkip<K, V>(chain: seq<(K, V)>, key: K, i: nat)
    requires i <= |chain|
    requires forall j :: 0 <= j < i ==> chain[j].0 != key
    ensures Lookup(chain, key) == Lookup(chain[i..], key)
  {
    if i > 0 {
      LookupSkip(chain[1..], key, i - 1);
      assert chain[1..][i - 1..] == chain[i..];
    }
  }

  /** `get` finds nothing exactly when no binding in the chain has the key. */
  lemma {:induction false} LookupNoneIff<K, V>(chain: seq<(K, V)>, key: K)
    ensures Lookup(chain, key).None? <==> forall j :: 0 <= j < |chain| ==> chain[j].0 != key
  {
    if chain != [] && chain[0].0 != key {
      LookupNoneIff(chain[1..], key);
      assert forall j :: 1 <= j < |chain| ==> chain[j] == chain[1..][j - 1];
    }
  }

  /** A lookup that finds something finds a binding that is in the chain. */
  lemma {:induction false} LookupSome<K, V>(chain: seq<(K, V)>, key: K)
    requires Lookup(chain, key).Some?
    ensures (key, Lookup(chain, key).value) in chain
  {
    if chain[0].0 != key {
      LookupSome(chain[1..], key);
    }
  }

  /** When the first binding of `key` is at index `i`, `remove` cuts out exactly that index. */
  lemma {:induction false} RemoveFirstAt<K, V>(chain: seq<(K, V)>, key: K, i: nat)
    requires i < |chain| && chain[i].0 == key
    requires forall j :: 0 <= j < i ==> chain[j].0 != key
    ensures RemoveFirst(chain, key) == chain[..i] + chain[i + 1..]
    ensures After(chain, key) == chain[i + 1..]
    ensures Lookup(chain, key) == Some(chain[i].1)
  {
    if i > 0 {
      RemoveFirstAt(chain[1..], key, i - 1);
      assert chain[1..][..i - 1] == chain[1..i];
      assert chain[1..][i..] == chain[i + 1..];
      assert [chain[0]] + chain[1..i] == chain[..i];
    }
  }

  /** `remove` of a key the chain does not bind changes nothing. */
  lemma {:induction false} RemoveFirstAbsent<K, V>(chain: seq<(K, V)>, key: K)
    requires forall j :: 0 <= j < |chain| ==> chain[j].0 != key
    ensures RemoveFirst(chain, key) == chain
  {
    if chain != [] {
      RemoveFirstAbsent(chain[1..], key);
    }
  }

  /** After `remove`, `get` of the same key sees the next older binding, if any. */
  lemma {:induction false} RemoveFirstReveals<K, V>(chain: seq<(K, V)>, key: K)
    ensures Lookup(RemoveFirst(chain, key), key) == Lookup(After(chain, key), key)
  {
    if chain != [] && chain[0].0 != key {
      RemoveFirstReveals(chain[1..], key);
    }
  }

  /** `remove` of one key leaves every other key's lookup as it was. */
  lemma {:induction false} RemoveFirstOthers<K, V>(chain: seq<(K, V)>, key: K, other: K)
    requires other != key
    ensures Lookup(RemoveFirst(chain, key), other) == Lookup(chain, other)
  {
    if chain != [] && chain[0].0 != key {
      RemoveFirstOthers(chain[1..], key, other);
    }
  }

  /** Removing a key straight after inserting it gives back the chain as it was. */
  lemma InsertThenRemove<K, V>(chain: seq<(K, V)>, key: K, value: V)
    ensures RemoveFirst([(key, value)] + chain, key) == chain
    ensures Lookup([(key, value)] + chain, key) == Some(value)
  {
    assert ([(key, value)] + chain)[1..] == chain;
  }

  /** `HashNode<K, V>`: key and value are fixed when the node is made, `next` is rewired. */
  class HashNode<K, V> {
    const key: K
    const value: V
    var next: HashNode?<K, V>

    constructor (key: K, value: V)
      ensures this.key == key && this.value == value && next == null
    {
      this.key := key;
      this.value := value;
      next := null;
    }
  }

  /**
   * A chain whose last node points to null never meets the same node
   * twice: two equal nodes would have equal successors all the way down.
   * (The queues and the list have their own node classes, and without a
   * common trait over them this fact is stated once per node class.)
   */
  lemma {:induction false} ChainDistinct<K, V>(ns: seq<HashNode<K, V>>, i: nat, j: nat)
    requires forall n {:trigger ns[n].next} :: 0 <= n < |ns| ==> ns[n].next == if n + 1 < |ns| then ns[n + 1] else null
    requires i < j < |ns|
    ensures ns[i] != ns[j]
    decreases |ns| - j
  {
    if j + 1 < |ns| {
      ChainDistinct(ns, i + 1, j + 1);
      assert ns[i].next == ns[i + 1];
    } else {
      assert ns[i].next == ns[i + 1];
    }
  }

  /**
   * Pointing `ns[k - 1]` past `ns[k]` while every other node still points
   * to its successor yields the chain without `ns[k]`.  (The list's node
   * class has its own copy, for the same reason as `ChainDistinct`.)
   */
  lemma CutLinks<K, V>(ns: seq<HashNode<K, V>>, k: nat, ns': seq<HashNode<K, V>>)
    requires 0 < k < |ns| && ns' == ns[..k] + ns[k + 1..]
    requires forall i {:trigger ns[i].next} :: 0 <= i < |ns| && i != k - 1 ==> ns[i].next == if i + 1 < |ns| then ns[i + 1] else null
    requires ns[k - 1].next == if k + 1 < |ns| then ns[k + 1] else null
    ensures forall i {:trigger ns'[i].next} :: 0 <= i < |ns'| ==> ns'[i].next == if i + 1 < |ns'| then ns'[i + 1] else null
  {
    forall i | 0 <= i < |ns'|
      ensures ns'[i].next == if i + 1 < |ns'| then ns'[i + 1] else null
    {
      CutIndex(ns, k, i);
      if i + 1 < |ns'| {
        CutIndex(ns, k, i + 1);
      }
      if i < k - 1 {
        assert ns'[i] == ns[i] && ns'[i + 1] == ns[i + 1];
      } else if i == k - 1 {
        assert ns'[i] == ns[k - 1];
      } else {
        assert ns'[i] == ns[i + 1];
      }
    }
  }

  /** `LockFreeHashMap<K, V, S>` with the hash builder `S` given as the hash function it induces. */
  class LockFreeHashMap<K(==), V> {
    /** The hash function of `hash_builder`: `key.hash` followed by `finish`. */
    const hasher: K -> u64
    /** The bucket heads (`buckets[b].1`); the locks beside them are not modelled. */
    const buckets: array<HashNode?<K, V>>

    ghost var Nodes: seq<seq<HashNode<K, V>>>
    ghost var Chains: seq<seq<(K, V)>>
    ghost var Repr: set<object>

    /** `bucket_index`: the bucket a key belongs to. */
    function BucketIndex(key: K): (b: nat)
      ensures b < NUM_BUCKETS
      ensures b == BucketOfHash(hasher(key))
    {
      BucketOfHash(hasher(key))
    }

    ghost predicate Valid()
      reads this, Repr
    {
      && this in Repr && buckets in Repr
      && buckets.Length == NUM_BUCKETS && |Nodes| == NUM_BUCKETS && |Chains| == NUM_BUCKETS
      && (forall b :: 0 <= b < NUM_BUCKETS ==>
            |Nodes[b]| == |Chains[b]| && buckets[b] == if Nodes[b] == [] then null else Nodes[b][0])
      && (forall b, i :: 0 <= b < NUM_BUCKETS && 0 <= i < |Nodes[b]| ==>
            && Nodes[b][i] in Repr
            && Chains[b][i] == (Nodes[b][i].key, Nodes[b][i].value)
            && BucketIndex(Nodes[b][i].key) == b)
      && (forall b, i {:trigger Nodes[b][i].next} :: 0 <= b < NUM_BUCKETS && 0 <= i < |Nodes[b]| ==>
            Nodes[b][i].next == if i + 1 < |Nodes[b]| then Nodes[b][i + 1] else null)
    }

    /** The value `get(key)` returns: the newest binding in the key's bucket. */
    ghost function Value(key: K): Option<V>
      requires Valid()
      reads this, Repr
    {
      Lookup(Chains[BucketIndex(key)], key)
    }

    /** `with_hasher` (and `new`, which passes a randomly seeded hasher): 256 empty buckets. */
    constructor (hasher: K -> u64)
      ensures Valid() && fresh(Repr)
      ensures this.hasher == hasher
      ensures buckets.Length == NUM_BUCKETS && forall b :: 0 <= b < NUM_BUCKETS ==> buckets[b] == null
      ensures Chains == seq(NUM_BUCKETS, _ => [])
      ensures forall key :: Value(key) == None
    {
      var heads := new HashNode?<K, V>[NUM_BUCKETS];
      for b := 0 to NUM_BUCKETS
        invariant forall c :: 0 <= c < b ==> heads[c] == null
      {
        heads[b] := null;
      }
      this.hasher := hasher;
      buckets := heads;
      Nodes := seq(NUM_BUCKETS, _ => []);
      Chains := seq(NUM_BUCKETS, _ => []);
      Repr := {this, heads};
    }

    /** `insert`: a new node goes in front of its bucket's chain, whatever the chain holds. */
    method Insert(key: K, value: V)
      requires Valid()
      modifies Repr
      ensures Valid() && fresh(Repr - old(Repr))
      ensures Chains == old(Chains)[BucketIndex(key) := [(key, value)] + old(Chains)[BucketIndex(key)]]
      ensures var b := BucketIndex(key);
        && |Nodes[b]| > 0 && fresh(Nodes[b][0]) && buckets[b] == Nodes[b][0]
        && Nodes == old(Nodes)[b := [Nodes[b][0]] + old(Nodes)[b]]
        && Repr == old(Repr) + {Nodes[b][0]}
      ensures Value(key) == Some(value)
      ensures forall other :: other != key ==> Value(other) == Lookup(old(Chains)[BucketIndex(other)], other)
    {
      var index := BucketIndex(key);
      var node := new HashNode(key, value);
      node.next := buckets[index];
      buckets[index] := node;
      ghost var ns := Nodes[index];
      Nodes := Nodes[index := [node] + ns];
      Chains := Chains[index := [(key, value)] + Chains[index]];
      Repr := Repr + {node};
      forall i | 0 <= i < |Nodes[index]|
        ensures Nodes[index][i] in Repr
        ensures Chains[index][i] == (Nodes[index][i].key, Nodes[index][i].value)
        ensures BucketIndex(Nodes[index][i].key) == index
        ensures Nodes[index][i].next == if i + 1 < |Nodes[index]| then Nodes[index][i + 1] else null
      {
        ConsIndex(ns, node, i);
        if i + 1 < |Nodes[index]| {
          ConsIndex(ns, node, i + 1);
        }
      }
      InsertThenRemove(old(Chains)[index], key, value);
    }

    /** `get`: walks the key's chain and clones the value of the first node with the key. */
    method Get(key: K) returns (r: Option<V>)
      requires Valid()
      ensures r == Lookup(Chains[BucketIndex(key)], key)
      ensures r.None? <==> forall j :: 0 <= j < |Chains[BucketIndex(key)]| ==> Chains[BucketIndex(key)][j].0 != key
    {
      var index := BucketIndex(key);
      r := None;
      ghost var ns, chain := Nodes[index], Chains[index];
      ghost var i := 0;
      var current := buckets[index];
      while current != null
        invariant i <= |ns|
        invariant current == if i < |ns| then ns[i] else null
        invariant forall j :: 0 <= j < i ==> chain[j].0 != key
        invariant r == None
        decreases |ns| - i
      {
        if current.key == key {
          r := Some(current.value);
          break;
        }
        assert ns[i].next == if i + 1 < |ns| then ns[i + 1] else null;
        current := current.next;
        i := i + 1;
      }
      LookupSkip(chain, key, i);
      LookupNoneIff(chain, key);
    }

    /** `remove` when the first node with the key heads its chain: the bucket head skips it. */
    method UnlinkHead(index: nat, next: HashNode?<K, V>)
      requires Valid() && index < NUM_BUCKETS && Nodes[index] != []
      requires next == Nodes[index][0].next
      modifies buckets, this
      ensures Valid() && Repr == old(Repr) - {old(Nodes[index][0])}
      ensures buckets[index] == next && Nodes == old(Nodes)[index := old(Nodes[index])[1..]]
      ensures Chains == old(Chains)[index := old(Chains[index])[1..]]
    {
      ghost var ns := Nodes[index];
      buckets[index] := next;
      Nodes := Nodes[index := ns[1..]];
      Chains := Chains[index := Chains[index][1..]];
      Repr := Repr - {ns[0]};
      forall b, i | 0 <= b < NUM_BUCKETS && 0 <= i < |Nodes[b]|
        ensures Nodes[b][i] in Repr
      {
        if b == index {
          ChainDistinct(ns, 0, i + 1);
        } else {
          assert BucketIndex(Nodes[b][i].key) != BucketIndex(ns[0].key);
        }
      }
    }

    /** `remove` otherwise: `prev`, the node at index `k - 1`, skips the node at `k`. */
    method UnlinkAfter(index: nat, prev: HashNode<K, V>, next: HashNode?<K, V>, ghost k: nat)
      requires Valid() && index < NUM_BUCKETS && 0 < k < |Nodes[index]|
      requires prev == Nodes[index][k - 1] && next == Nodes[index][k].next
      modifies prev, this
      ensures Valid() && Repr == old(Repr) - {old(Nodes[index][k])}
      ensures prev.next == next
      ensures Nodes == old(Nodes)[index := old(Nodes[index])[..k] + old(Nodes[index])[k + 1..]]
      ensures Chains == old(Chains)[index := old(Chains[index])[..k] + old(Chains[index])[k + 1..]]
    {
      ghost var ns, chain := Nodes[index], Chains[index];
      forall i | 0 <= i < |ns| && i != k - 1
        ensures ns[i] != prev
      {
        if i < k - 1 {
          ChainDistinct(ns, i, k - 1);
        } else {
          ChainDistinct(ns, k - 1, i);
        }
      }
      forall i | 0 <= i < |ns| && i != k
        ensures ns[i] != ns[k]
      {
        if i < k {
          ChainDistinct(ns, i, k);
        } else {
          ChainDistinct(ns, k, i);
        }
      }
      prev.next := next;
      forall b, i {:trigger Nodes[b][i].next} | 0 <= b < NUM_BUCKETS && 0 <= i < |Nodes[b]| && (b, i) != (index, k - 1)
        ensures Nodes[b][i].next == if i + 1 < |Nodes[b]| then Nodes[b][i + 1] else null
      {
        assert old(Nodes[b][i].next) == if i + 1 < |Nodes[b]| then Nodes[b][i + 1] else null;
        if b != index {
          assert BucketIndex(Nodes[b][i].key) != BucketIndex(prev.key);
        }
      }
      CutLinks(ns, k, ns[..k] + ns[k + 1..]);
      Nodes := Nodes[index := ns[..k] + ns[k + 1..]];
      Chains := Chains[index := chain[..k] + chain[k + 1..]];
      Repr := Repr - {ns[k]};
      forall b, i | 0 <= b < NUM_BUCKETS && 0 <= i < |Nodes[b]|
        ensures Nodes[b][i] in Repr
        ensures Chains[b][i] == (Nodes[b][i].key, Nodes[b][i].value)
        ensures BucketIndex(Nodes[b][i].key) == b
      {
        if b == index {
          CutIndex(ns, k, i);
          CutIndex(chain, k, i);
        } else {
          assert BucketIndex(Nodes[b][i].key) != BucketIndex(ns[k].key);
        }
      }
    }

    /**
     * `remove`: walks the key's chain and unlinks the first node with the
     * key, returning its value; older bindings of the key stay behind it.
     */
    method Remove(key: K) returns (r: Option<V>)
      requires Valid()
      modifies Repr
      ensures Valid() && Repr <= old(Repr)
      ensures r == Lookup(old(Chains)[BucketIndex(key)], key)
      ensures Chains == old(Chains)[BucketIndex(key) := RemoveFirst(old(Chains)[BucketIndex(key)], key)]
      ensures r.None? ==> Chains == old(Chains) && Nodes == old(Nodes) && Repr == old(Repr)
      ensures r.Some? ==> exists i :: (
        && 0 <= i < |old(Nodes)[BucketIndex(key)]|
        && Nodes == old(Nodes)[BucketIndex(key) := old(Nodes)[BucketIndex(key)][..i] + old(Nodes)[BucketIndex(key)][i + 1..]]
        && Repr == old(Repr) - {old(Nodes)[BucketIndex(key)][i]})
      ensures Value(key) == Lookup(After(old(Chains)[BucketIndex(key)], key), key)
      ensures forall other :: other != key ==> Value(other) == Lookup(old(Chains)[BucketIndex(other)], other)
    {
      var index := BucketIndex(key);
      r := None;
      ghost var ns, chain := Nodes[index], Chains[index];
      ghost var i := 0;
      var prev: HashNode?<K, V> := null;
      var current := buckets[index];
      while current != null
        invariant Valid() && Nodes == old(Nodes) && Chains == old(Chains) && Repr == old(Repr)
        invariant i <= |ns|
        invariant prev == if i == 0 then null else ns[i - 1]
        invariant current == if i < |ns| then ns[i] else null
        invariant forall j :: 0 <= j < i ==> chain[j].0 != key
        invariant r == None
        decreases |ns| - i
      {
        if current.key == key {
          var next := current.next;
          if prev == null {
            UnlinkHead(index, next);
            assert ns[..0] + ns[1..] == ns[1..];
          } else {
            UnlinkAfter(index, prev, next, i);
          }
          ghost var cut := i;
          assert Nodes == old(Nodes)[index := ns[..cut] + ns[cut + 1..]];
          r := Some(current.value);
          RemoveFirstAt(chain, key, i);
          break;
        }
        prev := current;
        current := current.next;
        i := i + 1;
      }
      if r.None? {
        LookupSkip(chain, key, i);
        RemoveFirstAbsent(chain, key);
        LookupNoneIff(chain, key);
      }
      RemoveFirstReveals(chain, key);
      forall other | other != key
        ensures Value(other) == Lookup(old(Chains)[BucketIndex(other)], other)
      {
        RemoveFirstOthers(chain, key, other);
      }
    }
  }
}
