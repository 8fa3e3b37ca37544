/**
 * The Michael–Scott queue of src/structures/atomic_queue.rs
 * (`AtomicQueue`), run by one thread at a time: every compare-and-swap
 * succeeds on its first try and every atomic load or store is a plain
 * field access.  It differs from `LockFreeQueue` in taking the value out
 * of the first value node before, rather than after, moving `head`, and
 * in its `Drop`, which drains the queue.
 *
 * The queue is a chain of nodes from `head` to the last node.  `head` is a
 * sentinel whose value has been taken; the values behind it, in order, are
 * the queue's contents.  `tail` points at the last node or lags behind it:
 * a lagging tail is what a concurrent enqueuer leaves between its two
 * compare-and-swaps, and both operations help it forward before going on.
 */
module AtomicQueues {
  import opened Wrappers
  import opened QueueNodes

  class AtomicQueue<T> {
    var head: Node<T>
    var tail: Node<T>

    /** The values in the queue, oldest first. */
    ghost var Contents: seq<T>
    /** The chain from `head` (the sentinel) to the last node. */
    ghost var Nodes: seq<Node<T>>
    /** The index of `tail` in `Nodes`. */
    ghost var TailAt: nat
    ghost var Repr: set<object>

    ghost predicate Valid()
      reads this, Repr
    {
      && this in Repr
      && |Nodes| == |Contents| + 1 && TailAt < |Nodes|
      && head == Nodes[0] && tail == Nodes[TailAt]
      && (forall i :: 0 <= i < |Nodes| ==> Nodes[i] in Repr)
      && (forall i {:trigger Nodes[i].next} :: 0 <= i < |Nodes| ==>
            Nodes[i].next == if i + 1 < |Nodes| then Nodes[i + 1] else null)
      && Nodes[0].value == None
      && (forall i :: 1 <= i < |Nodes| ==> Nodes[i].value == Some(Contents[i - 1]))
    }

    /** `new`: `head` and `tail` both point at one fresh sentinel. */
    constructor ()
      ensures Valid() && fresh(Repr)
      ensures head == tail && head.value == None && head.next == null
      ensures Contents == []
    {
      var dummy := new Node(None);
      head := dummy;
      tail := dummy;
      Contents := [];
      Nodes := [dummy];
      TailAt := 0;
      Repr := {this, dummy};
    }

    /**
     * `enqueue`: hangs a fresh `Some(value)` node off the last node and
     * swings `tail` to it, first helping a lagging tail forward.
     */
    method Enqueue(value: T)
      requires Valid()
      modifies Repr
      ensures Valid() && fresh(Repr - old(Repr))
      ensures Contents == old(Contents) + [value]
      ensures head == old(head)
      ensures tail.value == Some(value) && tail.next == null
      ensures fresh(tail) && Nodes == old(Nodes) + [tail] && Repr == old(Repr) + {tail}
    {
      var newTail := new Node(Some(value));
      while true
        invariant Valid() && Repr == old(Repr) && head == old(head)
        invariant Contents == old(Contents) && Nodes == old(Nodes)
        invariant fresh(newTail) && newTail !in Repr && newTail.value == Some(value) && newTail.next == null
        decreases |Nodes| - TailAt
      {
        var t := tail;
        if t.next == null {
          // `tail_next.compare_exchange(null, new_tail)` succeeds ...
          forall i | 0 <= i < TailAt
            ensures Nodes[i] != t
          {
            ChainDistinct(Nodes, i, TailAt);
          }
          t.next := newTail;
          // ... and so does `self.tail.compare_exchange(tail, new_tail)`.
          tail := newTail;
          Contents := Contents + [value];
          Nodes := Nodes + [newTail];
          TailAt := |Nodes| - 1;
          Repr := Repr + {newTail};
          return;
        } else {
          // The tail lags: `self.tail.compare_exchange(tail, tail_next)`.
          tail := t.next;
          TailAt := TailAt + 1;
        }
      }
    }

    /**
     * `dequeue`: `None` when the sentinel has no successor; otherwise helps
     * a lagging tail forward, takes the value out of the first value node,
     * advances `head` to it and frees the old sentinel.
     */
    method Dequeue() returns (r: Option<T>)
      requires Valid()
      modifies Repr
      ensures Valid() && Repr <= old(Repr)
      ensures r.None? <==> old(head.next) == null
      ensures r.None? <==> old(Contents) == []
      ensures r.None? ==> Contents == [] && Nodes == old(Nodes) && Repr == old(Repr)
      ensures r.Some? ==> r == Some(old(Contents)[0]) && Contents == old(Contents)[1..]
      ensures r.Some? ==> Nodes == old(Nodes)[1..] && Repr == old(Repr) - {old(head)}
    {
      while true
        invariant Valid() && Repr == old(Repr) && head == old(head)
        invariant Contents == old(Contents) && Nodes == old(Nodes)
        decreases |Nodes| - TailAt
      {
        var h := head;
        var t := tail;
        var next := h.next;
        if h == t {
          if next == null {
            return None;
          }
          // The tail lags behind a node an enqueuer has linked in.
          tail := next;
          TailAt := TailAt + 1;
        } else if next != null {
          ChainDistinct(Nodes, 0, TailAt);
          forall i | 2 <= i < |Nodes|
            ensures Nodes[i] != next
          {
            ChainDistinct(Nodes, 1, i);
          }
          // `next.value.take()` comes first ...
          r := next.value;
          next.value := None;
          // ... then `self.head.compare_exchange(head, head_next)` succeeds.
          head := next;
          Contents := Contents[1..];
          Nodes := Nodes[1..];
          TailAt := TailAt - 1;
          Repr := Repr - {h};
          return;
        }
      }
    }

    /**
     * `drop`: dequeues until `None`, then frees the one node left, the
     * sentinel; every node the queue held is released.
     */
    method Drop()
      requires Valid()
      modifies Repr
      ensures Contents == []
      ensures forall i :: 0 <= i < |old(Nodes)| ==> old(Nodes)[i] !in Repr
    {
      ghost var n := |Nodes|;
      var v := Dequeue();
      while v.Some?
        invariant Valid() && Repr <= old(Repr)
        invariant 0 < |Nodes| <= n && Nodes == old(Nodes)[n - |Nodes|..]
        invariant forall i :: 0 <= i < n - |Nodes| ==> old(Nodes)[i] !in Repr
        invariant v.None? ==> Contents == []
        decreases |Nodes| + if v.Some? then 1 else 0
      {
        v := Dequeue();
      }
      var dummy := head;
      Repr := Repr - {dummy};
    }
  }

  /** Enqueuing a sequence into a new queue and dequeuing until `None` gives the sequence back. */
  method EnqueueThenDrain<T>(xs: seq<T>) returns (ys: seq<T>)
    ensures ys == xs
  {
    var q := new AtomicQueue<T>();
    for i := 0 to |xs|
      invariant q.Valid() && fresh(q.Repr) && q.Contents == xs[..i]
    {
      q.Enqueue(xs[i]);
    }
    ys := [];
    while true
      invariant q.Valid() && fresh(q.Repr) && xs == ys + q.Contents
      decreases |q.Contents|
    {
      var v := q.Dequeue();
      if v.None? {
        break;
      }
      ys := ys + [v.value];
    }
  }
}
