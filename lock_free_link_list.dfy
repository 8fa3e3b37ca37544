/**
 * The sorted linked list of src/structures/lock_free_link_list.rs
 * (`LockFreeList`), run by one thread at a time: the MCS lock that guards
 * every operation is a no-op and every atomic load or store is a plain
 * field access.
 *
 * The list stores a set of integers as a singly linked chain of nodes in
 * strictly ascending order.  The ghost field `Nodes` lists the nodes from
 * `head` onwards and `Contents` lists their values; `Valid()` ties both to
 * the `next` pointers and keeps `Contents` strictly sorted.
 */
module LockFreeLinkList {
  import opened SeqFacts

  /** Sorted ascending with no duplicates: the list's central invariant. */
  ghost predicate StrictlySorted(s: seq<int>) {
    forall i, j :: 0 <= i < j < |s| ==> s[i] < s[j]
  }

  /** The set a list stands for. */
  ghost function Elems(s: seq<int>): set<int> {
    set x | x in s
  }

  /** The number of leading elements below `v`: the index where `find` stops. */
  function Position(s: seq<int>, v: int): (k: nat)
    ensures k <= |s|
    ensures forall i :: 0 <= i < k ==> s[i] < v
    ensures k < |s| ==> s[k] >= v
  {
    if s == [] || s[0] >= v then 0 else 1 + Position(s[1..], v)
  }

  /** What `insert` does to the values: splice `v` in at its position unless it is there. */
  function SortedInsert(s: seq<int>, v: int): seq<int> {
    var k := Position(s, v);
    if k < |s| && s[k] == v then s else s[..k] + [v] + s[k..]
  }

  /** What `remove` does to the values: cut out the element at `v`'s position if it is `v`. */
  function SortedRemove(s: seq<int>, v: int): seq<int> {
    var k := Position(s, v);
    if k < |s| && s[k] == v then s[..k] + s[k + 1..] else s
  }

  /** An index with the two properties `find` promises is the position. */
  lemma PositionUnique(s: seq<int>, v: int, k: nat)
    requires k <= |s|
    requires forall i :: 0 <= i < k ==> s[i] < v
    requires k < |s| ==> s[k] >= v
    ensures k == Position(s, v)
  {
  }

  lemma InsertIsSplice(s: seq<int>, v: int, k: nat)
    requires k == Position(s, v) && !(k < |s| && s[k] == v)
    ensures SortedInsert(s, v) == s[..k] + [v] + s[k..]
  {
  }

  lemma RemoveIsCut(s: seq<int>, v: int, k: nat)
    requires k == Position(s, v) && k < |s| && s[k] == v
    ensures SortedRemove(s, v) == s[..k] + s[k + 1..]
  {
  }

  /** In a sorted list, `v` is present iff it sits at its position. */
  lemma PositionFindsMember(s: seq<int>, v: int)
    requires StrictlySorted(s)
    ensures v in s <==> Position(s, v) < |s| && s[Position(s, v)] == v
  {
  }

  /** Splicing `v` in at a point where it fits keeps a list strictly sorted. */
  lemma SpliceSorted(s: seq<int>, k: nat, v: int)
    requires StrictlySorted(s) && k <= |s|
    requires forall i :: 0 <= i < k ==> s[i] < v
    requires k < |s| ==> v < s[k]
    ensures StrictlySorted(s[..k] + [v] + s[k..])
  {
    var r := s[..k] + [v] + s[k..];
    forall i, j | 0 <= i < j < |r| ensures r[i] < r[j] {
      if j < k {
        assert r[i] == s[i] && r[j] == s[j];
      } else if j == k {
        assert r[i] == s[i];
      } else if i == k {
        assert r[j] == s[j - 1];
        assert s[k] <= s[j - 1] by {
          if k < j - 1 { assert s[k] < s[j - 1]; }
        }
      } else if i < k {
        assert r[i] == s[i] && r[j] == s[j - 1];
      } else {
        assert r[i] == s[i - 1] && r[j] == s[j - 1];
      }
    }
  }

  /** Cutting one element out keeps a list strictly sorted. */
  lemma CutSorted(s: seq<int>, k: nat)
    requires StrictlySorted(s) && k < |s|
    ensures StrictlySorted(s[..k] + s[k + 1..])
  {
    var r := s[..k] + s[k + 1..];
    forall i, j | 0 <= i < j < |r| ensures r[i] < r[j] {
      if j < k {
        assert r[i] == s[i] && r[j] == s[j];
      } else if i < k {
        assert r[i] == s[i] && r[j] == s[j + 1];
      } else {
        assert r[i] == s[i + 1] && r[j] == s[j + 1];
      }
    }
  }

  /** Splicing `v` in adds exactly `v` to the set of a list. */
  lemma SpliceElems(s: seq<int>, k: nat, v: int)
    requires k <= |s|
    ensures Elems(s[..k] + [v] + s[k..]) == Elems(s) + {v}
  {
    var r := s[..k] + [v] + s[k..];
    forall x | x in r ensures x in s || x == v {
      var i :| 0 <= i < |r| && r[i] == x;
      if i < k {
        assert r[i] == s[i];
      } else if i > k {
        assert r[i] == s[i - 1];
      }
    }
    forall x | x in s ensures x in r {
      var i :| 0 <= i < |s| && s[i] == x;
      assert r[if i < k then i else i + 1] == x;
    }
    assert r[k] == v;
  }

  /** Cutting out the element at `k` of a strictly sorted list drops exactly that value from its set. */
  lemma CutElems(s: seq<int>, k: nat)
    requires StrictlySorted(s) && k < |s|
    ensures Elems(s[..k] + s[k + 1..]) == Elems(s) - {s[k]}
  {
    var r := s[..k] + s[k + 1..];
    forall x | x in r ensures x in s && x != s[k] {
      var i :| 0 <= i < |r| && r[i] == x;
      if i < k {
        assert r[i] == s[i] && s[i] < s[k];
      } else {
        assert r[i] == s[i + 1] && s[k] < s[i + 1];
      }
    }
    forall x | x in s && x != s[k] ensures x in r {
      var i :| 0 <= i < |s| && s[i] == x;
      assert r[if i < k then i else i - 1] == x;
    }
  }

  /** Inserting keeps the list strictly sorted and adds exactly `v` to its set. */
  lemma SortedInsertCorrect(s: seq<int>, v: int)
    requires StrictlySorted(s)
    ensures StrictlySorted(SortedInsert(s, v))
    ensures Elems(SortedInsert(s, v)) == Elems(s) + {v}
    ensures |SortedInsert(s, v)| == if v in s then |s| else |s| + 1
  {
    PositionFindsMember(s, v);
    var k := Position(s, v);
    if k < |s| && s[k] == v {
      assert SortedInsert(s, v) == s;
    } else {
      assert SortedInsert(s, v) == s[..k] + [v] + s[k..];
      SpliceSorted(s, k, v);
      SpliceElems(s, k, v);
    }
  }

  /** Removing keeps the list strictly sorted and drops exactly `v` from its set. */
  lemma SortedRemoveCorrect(s: seq<int>, v: int)
    requires StrictlySorted(s)
    ensures StrictlySorted(SortedRemove(s, v))
    ensures Elems(SortedRemove(s, v)) == Elems(s) - {v}
    ensures |SortedRemove(s, v)| == if v in s then |s| - 1 else |s|
  {
    PositionFindsMember(s, v);
    var k := Position(s, v);
    if k < |s| && s[k] == v {
      assert SortedRemove(s, v) == s[..k] + s[k + 1..];
      CutSorted(s, k);
      CutElems(s, k);
    } else {
      assert SortedRemove(s, v) == s;
    }
  }

  lemma NonEmptyHasHead(s: seq<int>)
    requires s != []
    ensures s[0] in Elems(s)
  {
  }

  /**
   * A strictly sorted list is determined by its set, so the set-level
   * effect of `insert` and `remove` fixes the whole new list.
   */
  lemma {:induction false} SortedUnique(a: seq<int>, b: seq<int>)
    requires StrictlySorted(a) && StrictlySorted(b)
    requires Elems(a) == Elems(b)
    ensures a == b
  {
    if a == [] {
      if b != [] {
        NonEmptyHasHead(b);
      }
    } else {
      assert a[0] in Elems(b);
      assert b != [] && b[0] in Elems(a);
      var i :| 0 <= i < |b| && b[i] == a[0];
      var j :| 0 <= j < |a| && a[j] == b[0];
      assert a[0] <= a[j] && b[0] <= b[i];
      assert a[0] == b[0];
      assert Elems(a[1..]) == Elems(b[1..]) by {
        forall x | x in Elems(a[1..]) ensures x in Elems(b[1..]) {
          var m :| 1 <= m < |a| && a[m] == x;
          assert x in Elems(b) by { assert x in a; }
          var n :| 0 <= n < |b| && b[n] == x;
          assert a[0] < x;
          assert n != 0;
        }
        forall x | x in Elems(b[1..]) ensures x in Elems(a[1..]) {
          var m :| 1 <= m < |b| && b[m] == x;
          assert x in Elems(a) by { assert x in b; }
          var n :| 0 <= n < |a| && a[n] == x;
          assert b[0] < x;
          assert n != 0;
        }
      }
      SortedUnique(a[1..], b[1..]);
      assert a == [a[0]] + a[1..] && b == [b[0]] + b[1..];
    }
  }

  /**
   * Linking a node in at index `k` of a chain (after `ns[k - 1]`, or at
   * the front when `k` is 0) while every other node still points to its
   * successor yields the chain with the node spliced in.
   */
  lemma SpliceLinks(ns: seq<Node>, k: nat, node: Node, ns': seq<Node>)
    requires k <= |ns| && ns' == ns[..k] + [node] + ns[k..]
    requires forall i {:trigger ns[i].next} :: 0 <= i < |ns| && i != k - 1 ==> ns[i].next == if i + 1 < |ns| then ns[i + 1] else null
    requires k > 0 ==> ns[k - 1].next == node
    requires node.next == if k < |ns| then ns[k] else null
    ensures forall i {:trigger ns'[i].next} :: 0 <= i < |ns'| ==> ns'[i].next == if i + 1 < |ns'| then ns'[i + 1] else null
  {
    forall i | 0 <= i < |ns'|
      ensures ns'[i].next == if i + 1 < |ns'| then ns'[i + 1] else null
    {
      SpliceIndex(ns, k, node, i);
      if i + 1 < |ns'| {
        SpliceIndex(ns, k, node, i + 1);
      }
      if i < k - 1 {
        assert ns'[i] == ns[i] && ns'[i + 1] == ns[i + 1];
      } else if i == k - 1 {
        assert ns'[i] == ns[k - 1] && ns'[i + 1] == node;
      } else if i == k {
        assert ns'[i] == node;
      } else {
        assert ns'[i] == ns[i - 1];
      }
    }
  }

  /**
   * Pointing `ns[k - 1]` (or the head, when `k` is 0) past `ns[k]` while
   * every other node still points to its successor yields the chain
   * without `ns[k]`.
   */
  lemma CutLinks(ns: seq<Node>, k: nat, ns': seq<Node>)
    requires k < |ns| && ns' == ns[..k] + ns[k + 1..]
    requires forall i {:trigger ns[i].next} :: 0 <= i < |ns| && i != k - 1 ==> ns[i].next == if i + 1 < |ns| then ns[i + 1] else null
    requires k > 0 ==> ns[k - 1].next == if k + 1 < |ns| then ns[k + 1] else null
    ensures forall i {:trigger ns'[i].next} :: 0 <= i < |ns'| ==> ns'[i].next == if i + 1 < |ns'| then ns'[i + 1] else null
  {
    forall i | 0 <= i < |ns'|
      ensures ns'[i].next == if i + 1 < |ns'| then ns'[i + 1] else null
    {
      CutIndex(ns, k, i);
      if i + 1 < |ns'| {
        CutIndex(ns, k, i + 1);
      }
      if i < k - 1 {
        assert ns'[i] == ns[i] && ns'[i + 1] == ns[i + 1];
      } else if i == k - 1 {
        assert ns'[i] == ns[k - 1];
      } else {
        assert ns'[i] == ns[i + 1];
      }
    }
  }

  /** `Node<T>`: the value never changes after allocation, `next` is rewired. */
  class Node {
    const value: int
    var next: Node?

    constructor (value: int)
      ensures this.value == value && next == null
    {
      this.value := value;
      next := null;
    }
  }

  class LockFreeList {
    var head: Node?

    ghost var Contents: seq<int>
    ghost var Nodes: seq<Node>
    ghost var Repr: set<object>

    ghost predicate Valid()
      reads this, Repr
    {
      && this in Repr
      && |Nodes| == |Contents|
      && (forall i :: 0 <= i < |Nodes| ==> Nodes[i] in Repr && Nodes[i].value == Contents[i])
      && (forall i {:trigger Nodes[i].next} :: 0 <= i < |Nodes| ==> Nodes[i].next == if i + 1 < |Nodes| then Nodes[i + 1] else null)
      && head == (if Nodes == [] then null else Nodes[0])
      && StrictlySorted(Contents)
    }

    /** `new`: an empty list has a null head. */
    constructor ()
      ensures Valid() && fresh(Repr)
      ensures head == null && Contents == []
    {
      head := null;
      Contents, Nodes := [], [];
      Repr := {this};
    }

    /**
     * `find`: `curr` is the first node whose value is at least `v` (null if
     * there is none) and `prev` the node before it (null if `curr` is the head).
     */
    method Find(v: int) returns (prev: Node?, curr: Node?, ghost k: nat)
      requires Valid()
      ensures k <= |Contents|
      ensures forall i :: 0 <= i < k ==> Contents[i] < v
      ensures k < |Contents| ==> Contents[k] >= v
      ensures prev == if k == 0 then null else Nodes[k - 1]
      ensures curr == if k < |Nodes| then Nodes[k] else null
    {
      prev := null;
      curr := head;
      k := 0;
      while curr != null
        invariant k <= |Nodes|
        invariant forall i :: 0 <= i < k ==> Contents[i] < v
        invariant prev == if k == 0 then null else Nodes[k - 1]
        invariant curr == if k < |Nodes| then Nodes[k] else null
        decreases |Nodes| - k
      {
        if curr.value >= v {
          break;
        }
        assert curr == Nodes[k] && Nodes[k].next == if k + 1 < |Nodes| then Nodes[k + 1] else null;
        prev := curr;
        curr := curr.next;
        k := k + 1;
      }
    }

    /** The `prev.is_null()` branch of `insert`: `node` becomes the first node. */
    method PushFront(node: Node)
      requires Valid() && node !in Repr
      requires Contents != [] ==> node.value < Contents[0]
      modifies this, node
      ensures Valid() && Repr == old(Repr) + {node}
      ensures head == node && node.next == old(head) && Nodes == [node] + old(Nodes)
      ensures Contents == [node.value] + old(Contents)
    {
      node.next := head;
      head := node;
      Contents := [node.value] + Contents;
      Nodes := [node] + Nodes;
      Repr := Repr + {node};
      assert forall i :: 1 <= i < |Nodes| ==> Nodes[i] == old(Nodes)[i - 1];
    }

    /** The other branch of `insert`: `node` goes between `prev`, at index `k - 1`, and `curr`. */
    method LinkAfter(prev: Node, node: Node, curr: Node?, ghost k: nat)
      requires Valid() && node !in Repr
      requires 0 < k <= |Nodes| && prev == Nodes[k - 1]
      requires curr == if k < |Nodes| then Nodes[k] else null
      requires Contents[k - 1] < node.value && (k < |Contents| ==> node.value < Contents[k])
      modifies this, prev, node
      ensures Valid() && Repr == old(Repr) + {node}
      ensures prev.next == node && node.next == curr
      ensures Nodes == old(Nodes)[..k] + [node] + old(Nodes)[k..]
      ensures Contents == old(Contents)[..k] + [node.value] + old(Contents)[k..]
    {
      ghost var s, ns := Contents, Nodes;
      node.next := curr;
      prev.next := node;
      forall i | 0 <= i < |ns| && i != k - 1
        ensures ns[i].next == if i + 1 < |ns| then ns[i + 1] else null
      {
        assert old(ns[i].next) == if i + 1 < |ns| then ns[i + 1] else null;
        if i < k - 1 {
          assert s[i] < s[k - 1];
        } else {
          assert s[k - 1] < s[i];
        }
      }
      SpliceSorted(s, k, node.value);
      Contents := s[..k] + [node.value] + s[k..];
      Nodes := ns[..k] + [node] + ns[k..];
      Repr := Repr + {node};
      SpliceLinks(ns, k, node, Nodes);
      forall i | 0 <= i < |Nodes|
        ensures Nodes[i] in Repr && Nodes[i].value == Contents[i]
      {
        SpliceIndex(ns, k, node, i);
        SpliceIndex(s, k, node.value, i);
      }
    }

    /** `insert`: rejects a duplicate, otherwise links a new node between `prev` and `curr`. */
    method Insert(v: int) returns (inserted: bool)
      requires Valid()
      modifies Repr
      ensures Valid() && fresh(Repr - old(Repr))
      ensures inserted <==> v !in old(Contents)
      ensures !inserted ==> Repr == old(Repr) && Nodes == old(Nodes)
      ensures inserted ==> var k := Position(old(Contents), v);
        && k < |Nodes| && fresh(Nodes[k])
        && Nodes == old(Nodes)[..k] + [Nodes[k]] + old(Nodes)[k..]
        && Repr == old(Repr) + {Nodes[k]}
      ensures Contents == SortedInsert(old(Contents), v)
      ensures Elems(Contents) == Elems(old(Contents)) + {v}
    {
      var prev: Node?, curr: Node?;
      ghost var k: nat;
      prev, curr, k := Find(v);
      PositionUnique(Contents, v, k);
      PositionFindsMember(Contents, v);
      SortedInsertCorrect(Contents, v);
      if curr != null && curr.value == v {
        return false;
      }
      InsertIsSplice(Contents, v, k);
      var node := new Node(v);
      if prev == null {
        PushFront(node);
      } else {
        LinkAfter(prev, node, curr, k);
      }
      return true;
    }

    /** The `prev.is_null()` branch of `remove`: the head moves to the second node. */
    method PopFront()
      requires Valid() && Nodes != []
      modifies this
      ensures Valid() && Repr == old(Repr) - {old(Nodes)[0]}
      ensures head == old(head.next) && Nodes == old(Nodes)[1..]
      ensures Contents == old(Contents)[1..]
    {
      ghost var s, ns := Contents, Nodes;
      head := head.next;
      assert forall i :: 1 <= i < |s| ==> s[0] < s[i];
      Contents := s[1..];
      Nodes := ns[1..];
      Repr := Repr - {ns[0]};
    }

    /** The other branch of `remove`: `prev`, at index `k - 1`, skips `curr`. */
    method UnlinkAfter(prev: Node, curr: Node, ghost k: nat)
      requires Valid() && 0 < k < |Nodes|
      requires prev == Nodes[k - 1] && curr == Nodes[k]
      modifies this, prev
      ensures Valid() && Repr == old(Repr) - {curr}
      ensures prev.next == old(curr.next) && Nodes == old(Nodes)[..k] + old(Nodes)[k + 1..]
      ensures Contents == old(Contents)[..k] + old(Contents)[k + 1..]
    {
      ghost var s, ns := Contents, Nodes;
      var next := curr.next;
      prev.next := next;
      forall i | 0 <= i < |ns| && i != k - 1
        ensures ns[i].next == if i + 1 < |ns| then ns[i + 1] else null
      {
        assert old(ns[i].next) == if i + 1 < |ns| then ns[i + 1] else null;
        if i < k - 1 {
          assert s[i] < s[k - 1];
        } else {
          assert s[k - 1] < s[i];
        }
      }
      CutSorted(s, k);
      Contents := s[..k] + s[k + 1..];
      Nodes := ns[..k] + ns[k + 1..];
      Repr := Repr - {curr};
      CutLinks(ns, k, Nodes);
      forall i | 0 <= i < |Nodes|
        ensures Nodes[i] in Repr && Nodes[i].value == Contents[i]
      {
        CutIndex(ns, k, i);
        CutIndex(s, k, i);
        if i < k {
          assert s[i] < s[k];
        } else {
          assert s[k] < s[i + 1];
        }
      }
    }

    /** `remove`: unlinks and frees the node holding `v`, if there is one. */
    method Remove(v: int) returns (removed: bool)
      requires Valid()
      modifies Repr
      ensures Valid() && Repr <= old(Repr)
      ensures removed <==> v in old(Contents)
      ensures removed ==> Repr < old(Repr)
      ensures !removed ==> Repr == old(Repr) && Nodes == old(Nodes)
      ensures removed ==> var k := Position(old(Contents), v);
        && k < |old(Nodes)|
        && Nodes == old(Nodes)[..k] + old(Nodes)[k + 1..]
        && Repr == old(Repr) - {old(Nodes)[k]}
      ensures Contents == SortedRemove(old(Contents), v)
      ensures Elems(Contents) == Elems(old(Contents)) - {v}
    {
      var prev: Node?, curr: Node?;
      ghost var k: nat;
      prev, curr, k := Find(v);
      PositionUnique(Contents, v, k);
      PositionFindsMember(Contents, v);
      SortedRemoveCorrect(Contents, v);
      if curr == null || curr.value != v {
        return false;
      }
      RemoveIsCut(Contents, v, k);
      if prev == null {
        PopFront();
      } else {
        UnlinkAfter(prev, curr, k);
      }
      return true;
    }

    /** `contains`: walks from the head and gives up once it passes `v`. */
    method Contains(v: int) returns (found: bool)
      requires Valid()
      ensures found <==> v in Contents
    {
      found := false;
      var curr := head;
      ghost var k := 0;
      while curr != null
        invariant k <= |Nodes|
        invariant forall i :: 0 <= i < k ==> Contents[i] < v
        invariant curr == if k < |Nodes| then Nodes[k] else null
        invariant !found
        decreases |Nodes| - k
      {
        if curr.value == v {
          found := true;
          break;
        } else if curr.value > v {
          break;
        }
        curr := curr.next;
        k := k + 1;
      }
    }
  }
}
