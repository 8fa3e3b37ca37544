# Concurrent structures and memory-graph pipeline, modelled in Dafny

This project models the sequential behaviour of the four data structures in
`src/structures/`. They are:

- `LockFreeList`: a sorted, duplicate-free linked list behind one MCS lock.
- `LockFreeHashMap`: 256 chained buckets, each behind an MCS lock.
- `LockFreeQueue` and `AtomicQueue`: Michael–Scott sentinel queues built from compare-and-swap loops.

It also models the data-preparation half of `memory_graph.py`. That half:

- strips the " KB" unit and parses the memory column
- keeps only the listed reclamation schemes and operations
- groups the rows per (scheme, operation), re-indexes each group and smooths it with a growing-window rolling mean
- labels each series "scheme (operation)" and routes it to the enqueue chart or the dequeue chart.

The model runs one thread at a time:

- Lock and unlock do nothing.
- Every compare-and-swap succeeds on its first try.
- Atomic pointers are plain fields.

Each heap structure is a `class` whose real fields are the ones the Rust code updates: `head`, `tail`, a node's `next`, a queue node's `value` and the bucket array. Its ghost state has three parts:

- `Nodes`: the chain in order.
- `Contents` or `Chains`: the abstract values.
- `Repr`: the footprint.

`Valid()` ties these together. Freeing a node is modelled as dropping it from `Repr`. A queue's `Valid()` deliberately admits a `tail` that lags behind the last node, the state a concurrent enqueuer leaves between its two compare-and-swaps, so the branches that help a lagging tail forward are verified too. No single-threaded run starting from the constructor produces such a lag: `Enqueue` and `Dequeue` always leave `tail` on the last node.

Files:

- `wrappers.dfy`: `Option`.
- `seq_facts.dfy`: indexing facts about splicing into and cutting from sequences.
- `lock_free_link_list.dfy`
- `lock_free_hash.dfy`
- `queue_node.dfy`: the node shared by both queues.
- `lockfreequeue.dfy`
- `atomic_queue.dfy`
- `memory_graph.dfy`

At `memory_graph.py:24`, `astype(float)` converts the whole column at once, so one non-numeric cell raises `ValueError` and stops the script. `PrepareLines` returns `None` in that case.

## Model

| member | source | states |
|---|---|---|
| LockFreeLinkList.Position | src/structures/lock_free_link_list.rs:42-57 | The index where `find` stops in a sorted list: every earlier element is below v, and the element there, if any, is at least v. |
| LockFreeLinkList.SortedInsert | src/structures/lock_free_link_list.rs:62-91 | The values after `insert`: unchanged if v is at its position, otherwise v spliced in there. Its properties are in `SortedInsertCorrect` and `InsertIsSplice`. |
| LockFreeLinkList.SortedRemove | src/structures/lock_free_link_list.rs:96-126 | The values after `remove`: the element at v's position is cut out if it is v, otherwise unchanged. Its properties are in `SortedRemoveCorrect` and `RemoveIsCut`. |
| LockFreeLinkList.PositionUnique | src/structures/lock_free_link_list.rs:42-57 | Any index with `find`'s two stopping properties is `Position`, so (prev, curr) is determined by v alone. |
| LockFreeLinkList.PositionFindsMember | src/structures/lock_free_link_list.rs:70 | In a strictly sorted list, v is present iff the element at `Position` is v. This justifies the duplicate test of `insert` and the not-found test of `remove`. |
| LockFreeLinkList.InsertIsSplice | src/structures/lock_free_link_list.rs:76-85 | For an absent v, the sorted insertion is exactly the splice of v between prev and curr. |
| LockFreeLinkList.RemoveIsCut | src/structures/lock_free_link_list.rs:110-117 | For a present v, the sorted removal is exactly the cut of the node at curr. |
| LockFreeLinkList.SpliceSorted | src/structures/lock_free_link_list.rs:81-85 | Splicing a value between a smaller and a larger neighbour keeps the list strictly ascending. |
| LockFreeLinkList.CutSorted | src/structures/lock_free_link_list.rs:110-117 | Cutting any element out keeps the list strictly ascending. |
| LockFreeLinkList.SpliceElems | src/structures/lock_free_link_list.rs:81-85 | The splice adds exactly one element, so the element set gains v. |
| LockFreeLinkList.CutElems | src/structures/lock_free_link_list.rs:110-117 | In a duplicate-free list, the cut removes exactly one element, and the element set loses only it. |
| LockFreeLinkList.SortedInsertCorrect | src/structures/lock_free_link_list.rs:62-91 | Sorted insertion keeps the list strictly ascending and its element set gains exactly v. Its length stays the same when v was present and otherwise grows by one. |
| LockFreeLinkList.SortedRemoveCorrect | src/structures/lock_free_link_list.rs:96-126 | Sorted removal keeps the list strictly ascending and its element set loses exactly v. Its length shrinks by one when v was present and otherwise stays the same. |
| LockFreeLinkList.SortedUnique | src/structures/lock_free_link_list.rs:59-61 | Two strictly ascending lists with the same elements are equal, so the list is a faithful set. |
| LockFreeLinkList.SpliceLinks | src/structures/lock_free_link_list.rs:83-84 | Pointing the new node at curr and prev at the new node yields the chain with the node spliced in. |
| LockFreeLinkList.CutLinks | src/structures/lock_free_link_list.rs:116 | Pointing prev at curr's successor yields the chain with curr cut out. |
| LockFreeLinkList.Node.constructor | src/structures/lock_free_link_list.rs:15-20 | A new node holds the value and has a null `next`. |
| LockFreeLinkList.LockFreeList.constructor | src/structures/lock_free_link_list.rs:31-36 | A new list has a null head and empty contents. |
| LockFreeLinkList.LockFreeList.Find | src/structures/lock_free_link_list.rs:42-57 | Returns curr as the first node holding a value of at least v, or null if none. Returns prev as its predecessor, or null when curr heads the list. |
| LockFreeLinkList.LockFreeList.PushFront | src/structures/lock_free_link_list.rs:77-80 | The new node points at the old head and becomes the head. The node chain and the contents gain it at the front, and it joins the footprint. |
| LockFreeLinkList.LockFreeList.LinkAfter | src/structures/lock_free_link_list.rs:81-85 | The new node points at curr and prev points at the new node. The node chain and the contents gain it at position k, and it joins the footprint. |
| LockFreeLinkList.LockFreeList.Insert | src/structures/lock_free_link_list.rs:62-91 | Returns false iff v was present, and then leaves every node untouched. Otherwise it adds exactly v, keeping the list strictly ascending: one fresh node enters the chain and the footprint at v's position, and every other node keeps its place. |
| LockFreeLinkList.LockFreeList.PopFront | src/structures/lock_free_link_list.rs:111-113 | The head becomes the old head's successor. The node chain and the contents lose their first entry, and the old head leaves the footprint. |
| LockFreeLinkList.LockFreeList.UnlinkAfter | src/structures/lock_free_link_list.rs:114-117 | prev points at curr's old successor. The node chain and the contents lose entry k, and curr leaves the footprint. |
| LockFreeLinkList.LockFreeList.Remove | src/structures/lock_free_link_list.rs:96-126 | Returns true iff v was present. Then exactly v is gone from the values, and exactly the node at v's position is cut from the chain and freed (leaves the footprint); the rest keeps its order. Otherwise nothing changes. |
| LockFreeLinkList.LockFreeList.Contains | src/structures/lock_free_link_list.rs:130-152 | Returns true iff v is in the list, even though the walk stops at the first larger value. |
| LockFreeHash.BucketOfHash | src/structures/lock_free_hash.rs:83 | The bucket is below 256 and is the hash modulo 256. |
| LockFreeHash.Lookup | src/structures/lock_free_hash.rs:129-138 | The value of the first binding of the key in a chain, as `get`'s walk finds it. Its properties are in `LookupSkip`, `LookupNoneIff` and `LookupSome`. |
| LockFreeHash.RemoveFirst | src/structures/lock_free_hash.rs:164-181 | The chain with its first binding of the key cut out. It is one shorter iff the key is bound. |
| LockFreeHash.After | src/structures/lock_free_hash.rs:164-181 | The part of the chain behind the first binding of the key: shorter than the chain, and empty when the key is unbound. |
| LockFreeHash.LookupSkip | src/structures/lock_free_hash.rs:129-137 | Skipping a prefix of nodes with other keys does not change the lookup's result. |
| LockFreeHash.LookupNoneIff | src/structures/lock_free_hash.rs:129-138 | A lookup finds nothing iff no node of the chain has the key. |
| LockFreeHash.LookupSome | src/structures/lock_free_hash.rs:132-133 | A lookup that finds a value returns a value that the chain binds to the key. |
| LockFreeHash.RemoveFirstAt | src/structures/lock_free_hash.rs:169-176 | When the first node with the key is at i, removal cuts exactly node i. |
| LockFreeHash.RemoveFirstAbsent | src/structures/lock_free_hash.rs:164-181 | Removing an absent key leaves the chain unchanged. |
| LockFreeHash.RemoveFirstReveals | src/structures/lock_free_hash.rs:169-176 | After removal, a lookup of the key sees the next older binding, or none. |
| LockFreeHash.RemoveFirstOthers | src/structures/lock_free_hash.rs:164-181 | Removal changes the lookup of no other key. |
| LockFreeHash.InsertThenRemove | src/structures/lock_free_hash.rs:100-104 | Pushing a binding and then removing its key restores the chain, so the older binding is visible again. |
| LockFreeHash.ChainDistinct | src/structures/lock_free_hash.rs:15-19 | A chain that ends in null visits no node twice. |
| LockFreeHash.CutLinks | src/structures/lock_free_hash.rs:171-172 | Storing the successor through `prev_ptr` yields the chain with the node cut out. |
| LockFreeHash.HashNode.constructor | src/structures/lock_free_hash.rs:22-28 | A new node holds the key and value and has a null `next`. |
| LockFreeHash.LockFreeHashMap.BucketIndex | src/structures/lock_free_hash.rs:76-84 | The index is below 256 and is the bucket of the key's hash, so it is congruent to the hash modulo 256. |
| LockFreeHash.LockFreeHashMap.constructor | src/structures/lock_free_hash.rs:61-73 | There are exactly 256 buckets, all heads are null, and every key is unbound. |
| LockFreeHash.LockFreeHashMap.Insert | src/structures/lock_free_hash.rs:87-108 | Prepends one binding to the key's bucket without a duplicate check. The key then maps to the new value and every other bucket and every other key's value is unchanged. A fresh node becomes the bucket head in front of the old chain, joins the footprint, and no other bucket's node chain changes. |
| LockFreeHash.LockFreeHashMap.Get | src/structures/lock_free_hash.rs:111-144 | Returns the value of the newest binding of the key in its bucket, and None iff the bucket has no node with the key. It changes nothing. |
| LockFreeHash.LockFreeHashMap.UnlinkHead | src/structures/lock_free_hash.rs:164-172 | The bucket head becomes the first node's successor. The bucket's node chain and bindings lose their first entry, and the node leaves the footprint. |
| LockFreeHash.LockFreeHashMap.UnlinkAfter | src/structures/lock_free_hash.rs:171-178 | prev points at the successor of the node at k. The bucket's node chain and bindings lose entry k, and the node leaves the footprint. |
| LockFreeHash.LockFreeHashMap.Remove | src/structures/lock_free_hash.rs:147-187 | Returns the newest binding's value and unlinks only that node, which exposes any older binding. An absent key gives None and no change. No other key's value changes. A successful removal cuts and frees exactly one node of the key's bucket; an unsuccessful one leaves every node in place. |
| QueueNodes.Node.constructor | src/structures/lockfreequeue.rs:4-7 | A new node holds the given value slot and has a null `next`. |
| QueueNodes.ChainDistinct | src/structures/lockfreequeue.rs:4-7 | A chain of queue nodes that ends in null visits no node twice. |
| LockFreeQueues.LockFreeQueue.constructor | src/structures/lockfreequeue.rs:15-24 | head and tail are one fresh sentinel with no value and a null `next`, and the contents are empty. |
| LockFreeQueues.LockFreeQueue.Enqueue | src/structures/lockfreequeue.rs:26-55 | Helps a lagging tail forward, then links a `Some(v)` node after the last node and moves tail to it. v is appended to the contents. The new node is fresh and joins the footprint; the node chain is the old one with it appended, so every old node stays in place. |
| LockFreeQueues.LockFreeQueue.Dequeue | src/structures/lockfreequeue.rs:57-78 | Returns None iff the sentinel has no successor, iff the queue is empty, and then changes nothing. Otherwise it returns the oldest value and the dequeued node becomes the sentinel. The old sentinel leaves the footprint. |
| AtomicQueues.AtomicQueue.constructor | src/structures/atomic_queue.rs:15-24 | head and tail are one fresh sentinel with no value and a null `next`, and the contents are empty. |
| AtomicQueues.AtomicQueue.Enqueue | src/structures/atomic_queue.rs:26-47 | Helps a lagging tail forward, then links a `Some(v)` node after the last node and moves tail to it. v is appended to the contents. The new node is fresh and joins the footprint; the node chain is the old one with it appended, so every old node stays in place. |
| AtomicQueues.AtomicQueue.Dequeue | src/structures/atomic_queue.rs:49-69 | Returns None iff the sentinel has no successor, iff the queue is empty, and then changes nothing. Otherwise it takes the oldest value before moving head. The old sentinel leaves the footprint. |
| AtomicQueues.AtomicQueue.Drop | src/structures/atomic_queue.rs:72-79 | Dequeues until None, then frees the sentinel. The contents end empty and every node the queue held is released. |
| AtomicQueues.EnqueueThenDrain | src/structures/atomic_queue.rs:26-69 | Enqueuing a sequence into a new queue and dequeuing until None gives back exactly that sequence, in order. |
| MemoryGraph.RemoveAll | memory_graph.py:24 | `str.replace(' KB', '')`: never lengthens the text, and leaves text that contains no space unchanged. |
| MemoryGraph.ParseNumber | memory_graph.py:24 | `float()` on an optionally signed integer numeral. An accepted string is non-empty and ends in a digit, and only a leading minus gives a negative number. |
| MemoryGraph.ConvertCell | memory_graph.py:24 | A cell is unit-stripped and parsed. A cell without a space is parsed as it stands. |
| MemoryGraph.ConvertColumn | memory_graph.py:24 | The column converts iff every cell parses after the unit strip. Each converted row keeps its scheme and operation and carries its parsed value. |
| MemoryGraph.ShowNat | benches/memory_bench.rs:58-62 | A count is rendered as a non-empty string of decimal digits, as `{}` writes it into a cell. |
| MemoryGraph.ShowInt | benches/memory_bench.rs:56-62 | An `i64` change is rendered with a leading '-' exactly when it is negative; a negative number is '-' followed by the digits of its magnitude, and a non-negative one is digits only. |
| MemoryGraph.DigitsShowNat | memory_graph.py:24 | Reading the digits back gives the rendered number: parsing inverts rendering. |
| MemoryGraph.RemoveUnitAfter | memory_graph.py:24 | Removing " KB" from a numeral followed by " KB" gives the numeral back. |
| MemoryGraph.CellRoundTrip | memory_graph.py:24 | Every cell the benchmarks write, a possibly negative integer followed by " KB", converts to that integer. |
| MemoryGraph.CellExample | memory_graph.py:24 | The cell "512 KB" converts to 512.0. |
| MemoryGraph.FilterRows | memory_graph.py:29 | The allow-list mask: never adds rows, and every kept row comes from the table and has an allowed scheme and operation. |
| MemoryGraph.FilterMembership | memory_graph.py:29 | A row survives the filter iff it was in the table and both its scheme and its operation are on the allow-lists. |
| MemoryGraph.FilterAppend | memory_graph.py:29 | Filtering distributes over concatenation, so surviving rows keep their relative order. |
| MemoryGraph.Subset | memory_graph.py:40 | The group mask: never adds rows, and every kept row comes from the table and has exactly that scheme and operation. |
| MemoryGraph.SubsetOfFiltered | memory_graph.py:40 | For an allowed scheme and operation, grouping the filtered table gives the same group as grouping the whole table. |
| MemoryGraph.Column | memory_graph.py:42 | The memory column of a group has one entry per row, holding that row's value. |
| MemoryGraph.WindowStart | memory_graph.py:33 | The window ending at i is never longer than w, never starts before 0, and is exactly w long once i + 1 >= w (`min_periods=1`). |
| MemoryGraph.SmoothData | memory_graph.py:32-33 | The smoothed series has the length of its input: no point is dropped. |
| MemoryGraph.SmoothFirst | memory_graph.py:33 | The first smoothed point equals the first raw value. |
| MemoryGraph.SmoothBounds | memory_graph.py:33 | Every smoothed point lies between any lower and upper bound of the raw values. |
| MemoryGraph.SmoothWindowOne | memory_graph.py:33 | With window 1, smoothing is the identity. |
| MemoryGraph.SmoothSlides | memory_graph.py:33 | Once the window is full, each point is the previous one plus (entering value - leaving value) / w, the sliding-window definition of the rolling mean. |
| MemoryGraph.SmoothGrows | memory_graph.py:33 | While the window is still growing, point i is the mean of the first i + 1 values. |
| MemoryGraph.SumBounds | memory_graph.py:33 | A sum of n values within [lo, hi] lies within [n * lo, n * hi]. |
| MemoryGraph.Label | memory_graph.py:44 | The legend is three characters longer than the scheme and operation together, starts with the scheme and ends with ")". |
| MemoryGraph.LabelDistinct | memory_graph.py:44 | Within one chart, different schemes get different legends. |
| MemoryGraph.ResetIndex | memory_graph.py:41 | The index of an n-row group is 0 to n - 1, so the x-value is the position within the group. |
| MemoryGraph.MakeLine | memory_graph.py:40-46 | One loop body's series: labelled "scheme (operation)". Its index, values and smoothed values each have one entry per group row. The index runs 0 to n - 1, the values are the group's memory changes, and the smoothed values are their rolling mean with window 10. |
| MemoryGraph.BuildLines | memory_graph.py:36-46 | The nested loops build the enqueue list and the dequeue list defined by the per-(scheme, operation) series in schemes-by-operations order. |
| MemoryGraph.SchemeLinesOperations | memory_graph.py:43-46 | With the operations enqueue and dequeue, each scheme contributes exactly one series to each chart. |
| MemoryGraph.LinesPerScheme | memory_graph.py:38-46 | Each chart gets one series per scheme, in scheme order, even for an empty group. Each series is labelled "scheme (operation)", holds that group's values re-indexed from 0, and is smoothed with window 10. |
| MemoryGraph.PrepareLines | memory_graph.py:24-46 | Returns None iff some memory cell does not parse. Otherwise it gives five series per chart, labelled by scheme and operation. Each holds the converted values of its group, is indexed 0 to n - 1 and is smoothed with window 10. |

## Left out

- Concurrency is not modelled. This covers the MCS locks of `src/structures/mcs_lock.rs`, compare-and-swap failures and retries under interference, memory orderings, ABA and reclamation safety. Each operation runs alone, and every compare-and-swap succeeds on its first try.
- `src/structures/mcs_lock.rs` is not part of this model. Its lock and unlock are no-ops in a single-threaded run.
- `src/lib.rs` is not part of this model. It wraps a `raw` module whose code is not available.
- `LockFreeList` is generic over `T: Ord`. The model fixes `T` to `int`, whose order is total like any `Ord`.
- `LockFreeHashMap::new` seeds a `RandomState`. The model passes the hash function to the constructor, which is `with_hasher`. Properties hold for every hash function.
- `LockFreeHashMap` lookups through `Borrow<Q>` use the key type itself. The cloning of `V` on `get` and `remove` returns the stored value.
- LockFreeHash.LockFreeHashMap.BucketIndex: `hasher.finish() as usize` is taken as the full 64-bit hash, which assumes a 64-bit target. On a 32-bit target the cast truncates first, which does not change the remainder modulo 256.
- The `Drop` implementations of `LockFreeList` and `LockFreeHashMap` are not modelled. They only walk the chains and free every node, and Dafny has no deallocation. Freeing a single node in `remove` is modelled as removing it from `Repr`.
- `LockFreeQueue` has no `Drop`, so it has nothing to model.
- `memory_graph.py` lines 1-21 are not modelled: the file-existence check (lines 10-11), `read_csv`, and the column rename (lines 17-21). The renamed table is the input: each row's scheme, operation and raw memory cell.
- The benchmark writes the header 'Memory Free Change (KB)' (`benches/memory_bench.rs:407`). The rename at `memory_graph.py:20` expects 'Memory Change (KB)'. `rename` ignores a missing key, so on that file no `memory_change` column exists and line 24 raises `KeyError`. This mismatch is not modelled.
- MemoryGraph.ConvertColumn: `astype(float)` is modelled as exact parsing of an optionally signed decimal integer. This is the form the benchmarks write. Python's `float()` also accepts decimals, exponents, surrounding whitespace, `inf` and `nan`, which the model rejects. Values are exact reals, with no floating-point rounding.
- MemoryGraph.SmoothData: pandas raises for a window below 1, because `min_periods=1` would exceed it. The model requires a window of at least 1. The script passes 10.
- Plotting (lines 48-68) and `benches/memory_graph.py` are not modelled. They are figure output.
- The `benches/` harnesses are not modelled. They are thread spawning, timing and CSV I/O.
