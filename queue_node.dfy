/**
 * The queue node shared, field for field, by src/structures/lockfreequeue.rs
 * and src/structures/atomic_queue.rs, and the fact about chains of such
 * nodes that both queues rely on.
 */
module QueueNodes {
  import opened Wrappers

  /** `Node<T>`: `value` is `None` in a sentinel and is taken out when the node becomes one. */
  class Node<T> {
    var value: Option<T>
    var next: Node?<T>

    constructor (value: Option<T>)
      ensures this.value == value && next == null
    {
      this.value := value;
      next := null;
    }
  }

  /** A chain whose last node points to null never meets the same node twice. */
  lemma {:induction false} ChainDistinct<T>(ns: seq<Node<T>>, i: nat, j: nat)
    requires forall n {:trigger ns[n].next} :: 0 <= n < |ns| ==> ns[n].next == if n + 1 < |ns| then ns[n + 1] else null
    requires i < j < |ns|
    ensures ns[i] != ns[j]
    decreases |ns| - j
  {
    assert ns[i].next == ns[i + 1];
    if j + 1 < |ns| {
      ChainDistinct(ns, i + 1, j + 1);
    }
  }
}
