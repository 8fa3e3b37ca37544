/**
 * The Michael–Scott queue of src/structures/lockfreequeue.rs
 * (`LockFreeQueue`), run by one thread at a time: every compare-and-swap
 * succeeds on its first try and every atomic load or store is a plain
 * field access.
 *
 * The queue is a chain of nodes from `head` to the last node.  `head` is a
 * sentinel whose value has been taken; the values behind it, in order, are
 * the queue's contents.  `tail` points at the last node or lags behind it:
 * a lagging tail is what a concurrent enqueuer leaves between its two
 * compare-and-swaps, and both operations help it forward before going on.
 */
module LockFreeQueues {
  import opened Wrappers
  import opened QueueNodes

  class LockFreeQueue<T> {
    var head: Node<T>
    var tail: Node<T>

    /** The values in the queue, oldest first. */
    ghost var Contents: seq<T>
    /** The chain from `head` (the sentinel) to the last node. */
    ghost var Nodes: seq<Node<T>>
    /** The index of `tail` in `Nodes`. */
    ghost var TailAt: nat
    ghost var Repr: set<object>

    ghost predicate Valid()
      reads this, Repr
    {
      && this in Repr
      && |Nodes| == |Contents| + 1 && TailAt < |Nodes|
      && head == Nodes[0] && tail == Nodes[TailAt]
      && (forall i :: 0 <= i < |Nodes| ==> Nodes[i] in Repr)
      && (forall i {:trigger Nodes[i].next} :: 0 <= i < |Nodes| ==>
            Nodes[i].next == if i + 1 < |Nodes| then Nodes[i + 1] else null)
      && Nodes[0].value == None
      && (forall i :: 1 <= i < |Nodes| ==> Nodes[i].value == Some(Contents[i - 1]))
    }

    /** `new`: `head` and `tail` both point at one fresh sentinel. */
    constructor ()
      ensures Valid() && fresh(Repr)
      ensures head == tail && head.value == None && head.next == null
      ensures Contents == []
    {
      var dummy := new Node(None);
      head := dummy;
      tail := dummy;
      Contents := [];
      Nodes := [dummy];
      TailAt := 0;
      Repr := {this, dummy};
    }

    /**
     * `enqueue`: hangs a fresh `Some(value)` node off the last node and
     * swings `tail` to it, first helping a lagging tail forward.
     */
    method Enqueue(value: T)
      requires Valid()
      modifies Repr
      ensures Valid() && fresh(Repr - old(Repr))
      ensures Contents == old(Contents) + [value]
      ensures head == old(head)
      ensures tail.value == Some(value) && tail.next == null
      ensures fresh(tail) && Nodes == old(Nodes) + [tail] && Repr == old(Repr) + {tail}
    {
      var newTail := new Node(Some(value));
      while true
        invariant Valid() && Repr == old(Repr) && head == old(head)
        invariant Contents == old(Contents) && Nodes == old(Nodes)
        invariant fresh(newTail) && newTail !in Repr && newTail.value == Some(value) && newTail.next == null
        decreases |Nodes| - TailAt
      {
        var t := tail;
        if t.next == null {
          // `tail_next.compare_exchange(null, new_tail)` succeeds ...
          forall i | 0 <= i < TailAt
            ensures Nodes[i] != t
          {
            ChainDistinct(Nodes, i, TailAt);
          }
          t.next := newTail;
          // ... and so does `self.tail.compare_exchange(tail, new_tail)`.
          tail := newTail;
          Contents := Contents + [value];
          Nodes := Nodes + [newTail];
          TailAt := |Nodes| - 1;
          Repr := Repr + {newTail};
          return;
        } else {
          // The tail lags: `self.tail.compare_exchange(tail, tail_next)`.
          tail := t.next;
          TailAt := TailAt + 1;
        }
      }
    }

    /**
     * `dequeue`: `None` when the sentinel has no successor; otherwise helps
     * a lagging tail forward, advances `head` to the first value node, takes
     * its value and frees the old sentinel.
     */
    method Dequeue() returns (r: Option<T>)
      requires Valid()
      modifies Repr
      ensures Valid() && Repr <= old(Repr)
      ensures r.None? <==> old(head.next) == null
      ensures r.None? <==> old(Contents) == []
      ensures r.None? ==> Contents == [] && Nodes == old(Nodes) && Repr == old(Repr)
      ensures r.Some? ==> r == Some(old(Contents)[0]) && Contents == old(Contents)[1..]
      ensures r.Some? ==> Nodes == old(Nodes)[1..] && Repr == old(Repr) - {old(head)}
    {
      while true
        invariant Valid() && Repr == old(Repr) && head == old(head)
        invariant Contents == old(Contents) && Nodes == old(Nodes)
        decreases |Nodes| - TailAt
      {
        var h := head;
        var t := tail;
        var next := h.next;
        if h == t {
          if next == null {
            return None;
          }
          // The tail lags behind a node an enqueuer has linked in.
          tail := next;
          TailAt := TailAt + 1;
        } else {
          ChainDistinct(Nodes, 0, TailAt);
          // `self.head.compare_exchange(head, next)` succeeds.
          head := next;
          forall i | 2 <= i < |Nodes|
            ensures Nodes[i] != next
          {
            ChainDistinct(Nodes, 1, i);
          }
          r := next.value;
          next.value := None;
          Contents := Contents[1..];
          Nodes := Nodes[1..];
          TailAt := TailAt - 1;
          Repr := Repr - {h};
          return;
        }
      }
    }
  }
}
