# Three list representations, modelled in Dafny

This project models the three implementations of one list abstract data
type in the `edu.smith.cs.csc212.adtr.real` package. The list is an ordered,
zero-indexed sequence that allows duplicates. It can be added to, removed
from, read and written at the front, at the back and at a given index. The
three implementations are:

- `ChunkyArrayList`: a directory of chunks, each holding at most
  `chunkSize` items. An operation addressed by a global index scans the
  directory with a running offset `start` to find the chunk and the local
  index. Adds at either end open a new chunk only when the end chunk is full
  or missing. `addIndex` splits a full chunk: its last item moves to a new
  one-item chunk right after it. A chunk that becomes empty is dropped at
  once.
- `DoublyLinkedList`: a chain of nodes with `before`/`after` links and
  references to the first (`start`) and last (`end`) node.
- `SinglyLinkedList`: a chain of nodes with `next` links and a reference to
  the first node only. Operations at the back walk the whole chain.

Every implementation is a Dafny `class` whose methods update its fields in
place. Each class has a ghost `Contents` (the list it stands for) and a
`Valid()` representation invariant that every operation preserves. Each
method is proved against the abstract effect on `Contents`:

- `ListSpec.InsertAt` gives the effect of an insertion at a position.
- `ListSpec.RemoveAt` gives the effect of a removal at a position.

Those two are tied to each other by round-trip lemmas. The Java exceptions
become results of the datatype `ListSpec.Outcome`:

- `EmptyList` stands for `EmptyListError`.
- `BadIndex(i)` stands for `BadIndexError(i)`, and carries the index the
  error reports.

Every error path is proved to leave the list unchanged.

Module layout:

- `ListSpec.dfy` (module `ListSpec`): the outcome datatype, `InsertAt`/`RemoveAt`
  and their lemmas, and the `Distinct` predicate for node sequences.
- `Chunks.dfy` (module `Chunks`): the chunk directory as a value. `Flatten`
  gives the items a directory stands for. `WellFormed` is the chunk
  invariant. `Offset` is the scan's running `start`. There is one function
  per operation giving the directory it leaves behind, with lemmas tying
  directories to their flattened contents.
- `ChunkyArrayList.dfy` (module `Chunky`): the class `ChunkyArrayList`.
  The directory is a field `chunks: seq<seq<T>>` that the methods reassign.
- `DoublyLinkedList.dfy` (module `DoublyLinked`): classes `Node` and
  `DoublyLinkedList`. Ghost `Nodes` and `Repr` describe the chain.
- `SinglyLinkedList.dfy` (module `SinglyLinked`): classes `Node` and
  `SinglyLinkedList`, with ghost `Nodes` and `Repr` in the same way.

Where the code and the list contract disagree, the model follows the code.

- The contract says insertion accepts every index in `[0, size]`.
  `ChunkyArrayList.addIndex` rejects an insertion on an empty list, because
  there is no chunk to scan.
- It also rejects `addIndex(size, x)` when the last chunk is full, because
  of the `end - 1` boundary rule at `ChunkyArrayList.java:102`.
- `Chunks.AddIndexAccepted` states exactly which indices are accepted.
- The singly-linked `removeIndex(index)` and `addIndex(index, x)` look up the
  node at `index - 1`. When that lookup fails, the error they report carries
  `index - 1`, not `index`.

## Model

Source paths are relative to the repository root.

| member | source | states |
|---|---|---|
| ListSpec.InsertAt | src/main/java/edu/smith/cs/csc212/adtr/real/SinglyLinkedList.java:72-82 | inserting `x` at `i` gives a list one longer with `x` at `i`, the items before `i` in place and the items from `i` on shifted right by one |
| ListSpec.RemoveAt | src/main/java/edu/smith/cs/csc212/adtr/real/SinglyLinkedList.java:40-52 | removing position `i` gives a list one shorter with the items before `i` in place and the items after `i` shifted left by one |
| ListSpec.InsertAtMultiset | src/main/java/edu/smith/cs/csc212/adtr/real/DoublyLinkedList.java:98-124 | an insertion adds exactly the inserted item and loses none (multiset equality) |
| ListSpec.RemoveAtMultiset | src/main/java/edu/smith/cs/csc212/adtr/real/DoublyLinkedList.java:50-72 | a removal takes away exactly the removed item |
| ListSpec.RemoveAfterInsert | src/main/java/edu/smith/cs/csc212/adtr/real/DoublyLinkedList.java:50-124 | removing at `i` right after inserting at `i` restores the list |
| ListSpec.InsertAfterRemove | src/main/java/edu/smith/cs/csc212/adtr/real/DoublyLinkedList.java:50-124 | putting a removed item back at its position restores the list |
| ListSpec.InsertAtConcat | src/main/java/edu/smith/cs/csc212/adtr/real/ChunkyArrayList.java:102-116 | inserting at local index `j` of one chunk is inserting at global index `start + j` of the whole list |
| ListSpec.RemoveAtConcat | src/main/java/edu/smith/cs/csc212/adtr/real/ChunkyArrayList.java:58-59 | removing at local index `j` of one chunk is removing at global index `start + j` of the whole list |
| ListSpec.DistinctRemoveAt | src/main/java/edu/smith/cs/csc212/adtr/real/DoublyLinkedList.java:61-67 | unlinking a node keeps the chain free of repeated nodes |
| ListSpec.DistinctInsertAt | src/main/java/edu/smith/cs/csc212/adtr/real/DoublyLinkedList.java:109-119 | linking in a node from outside keeps the chain free of repeated nodes |
| Chunks.FlattenAt | src/main/java/edu/smith/cs/csc212/adtr/real/ChunkyArrayList.java:146-152 | the item at local index `j` of chunk `k` is the item at global index `Offset(k) + j` |
| Chunks.OffsetNext | src/main/java/edu/smith/cs/csc212/adtr/real/ChunkyArrayList.java:146-156 | the scan's next `start` is the current `start` plus the size of the current chunk |
| Chunks.OffsetGrows | src/main/java/edu/smith/cs/csc212/adtr/real/ChunkyArrayList.java:95-124 | under the chunk invariant the chunk offsets grow by at least one per chunk |
| Chunks.SizeBounds | src/main/java/edu/smith/cs/csc212/adtr/real/ChunkyArrayList.java:181-193 | the size lies between the number of chunks and `chunkSize` times it; the directory is empty exactly when the list is |
| Chunks.AdmitsImpliesAccepted | src/main/java/edu/smith/cs/csc212/adtr/real/ChunkyArrayList.java:102 | an index the insertion scan admits at some chunk lies in `[0, size]`, and equals `size` only if the last chunk has room |
| Chunks.AddFront | src/main/java/edu/smith/cs/csc212/adtr/real/ChunkyArrayList.java:74-80 | addFront keeps the chunk invariant, makes the items `[x] + old`, and adds a chunk exactly when there was none or the front chunk was full |
| Chunks.AddBack | src/main/java/edu/smith/cs/csc212/adtr/real/ChunkyArrayList.java:82-88 | addBack keeps the chunk invariant, makes the items `old + [x]`, and adds a chunk exactly when there was none or the back chunk was full |
| Chunks.RemoveFrom | src/main/java/edu/smith/cs/csc212/adtr/real/ChunkyArrayList.java:59-63 | removing local index `j` of chunk `k` keeps the chunk invariant, removes global index `Offset(k) + j`, drops the chunk exactly when it held one item, and leaves every other chunk alone |
| Chunks.InsertInto | src/main/java/edu/smith/cs/csc212/adtr/real/ChunkyArrayList.java:103-117 | inserting at local index `j` of chunk `k` keeps the chunk invariant and inserts at global index `Offset(k) + j`; a full chunk stays full and is followed by a new chunk holding just its former last item; other chunks are untouched |
| Chunks.SetIn | src/main/java/edu/smith/cs/csc212/adtr/real/ChunkyArrayList.java:170-171 | writing local index `j` of chunk `k` changes only global index `Offset(k) + j` and no chunk's size |
| Chunky.ChunkyArrayList.constructor | src/main/java/edu/smith/cs/csc212/adtr/real/ChunkyArrayList.java:19-22 | a new list has no chunks and no items |
| Chunky.ChunkyArrayList.RemoveFront | src/main/java/edu/smith/cs/csc212/adtr/real/ChunkyArrayList.java:28-36 | empty: `EmptyList`, no change; otherwise returns the first item, the list loses it, and the directory is `RemoveFrom` at chunk 0 |
| Chunky.ChunkyArrayList.RemoveBack | src/main/java/edu/smith/cs/csc212/adtr/real/ChunkyArrayList.java:38-46 | empty: `EmptyList`, no change; otherwise returns the last item, the list loses it, and the directory is `RemoveFrom` at the back chunk |
| Chunky.ChunkyArrayList.RemoveIndex | src/main/java/edu/smith/cs/csc212/adtr/real/ChunkyArrayList.java:48-72 | empty: `EmptyList`; index outside `[0, size)`: `BadIndex(index)`; both leave the directory unchanged; otherwise returns `old[index]`, the list becomes `RemoveAt(old, index)`, and the directory is `RemoveFrom` at the chunk holding `index` |
| Chunky.ChunkyArrayList.RemoveInChunk | src/main/java/edu/smith/cs/csc212/adtr/real/ChunkyArrayList.java:59-63 | returns the item at the local index, and the directory and list are the `RemoveFrom`/`RemoveAt` of the old ones |
| Chunky.ChunkyArrayList.AddFront | src/main/java/edu/smith/cs/csc212/adtr/real/ChunkyArrayList.java:74-80 | the list becomes `[item] + old` and the directory `Chunks.AddFront` of the old one |
| Chunky.ChunkyArrayList.AddBack | src/main/java/edu/smith/cs/csc212/adtr/real/ChunkyArrayList.java:82-88 | the list becomes `old + [item]` and the directory `Chunks.AddBack` of the old one |
| Chunky.ChunkyArrayList.AddIndex | src/main/java/edu/smith/cs/csc212/adtr/real/ChunkyArrayList.java:90-127 | succeeds exactly when `AddIndexAccepted` holds, and then the list is `InsertAt(old, index, item)` and the directory `InsertInto` at the first chunk that admits `index`; otherwise `BadIndex(index)` and no change |
| Chunky.ChunkyArrayList.InsertInChunk | src/main/java/edu/smith/cs/csc212/adtr/real/ChunkyArrayList.java:103-117 | the directory becomes `InsertInto` of the old one and the list the matching `InsertAt` |
| Chunky.ChunkyArrayList.GetFront | src/main/java/edu/smith/cs/csc212/adtr/real/ChunkyArrayList.java:129-132 | on a list with items, returns its first item |
| Chunky.ChunkyArrayList.GetBack | src/main/java/edu/smith/cs/csc212/adtr/real/ChunkyArrayList.java:134-137 | on a list with items, returns its last item |
| Chunky.ChunkyArrayList.GetIndex | src/main/java/edu/smith/cs/csc212/adtr/real/ChunkyArrayList.java:140-159 | `EmptyList` on an empty list, `BadIndex(index)` outside `[0, size)`, otherwise the item at `index` |
| Chunky.ChunkyArrayList.SetIndex | src/main/java/edu/smith/cs/csc212/adtr/real/ChunkyArrayList.java:161-179 | `EmptyList` or `BadIndex(index)` with no change as for GetIndex; otherwise only position `index` changes, and the directory is `SetIn` at the chunk holding it |
| Chunky.ChunkyArrayList.Size | src/main/java/edu/smith/cs/csc212/adtr/real/ChunkyArrayList.java:181-188 | the sum of the chunk sizes is the number of items, between the number of chunks and `chunkSize` times it |
| Chunky.ChunkyArrayList.IsEmpty | src/main/java/edu/smith/cs/csc212/adtr/real/ChunkyArrayList.java:190-193 | true exactly when there is no chunk, which is exactly when the size is 0 |
| DoublyLinked.Node.constructor | src/main/java/edu/smith/cs/csc212/adtr/real/DoublyLinkedList.java:199-203 | a new node holds the value and has no neighbours |
| DoublyLinked.DoublyLinkedList.ValidIsLinked | src/main/java/edu/smith/cs/csc212/adtr/real/DoublyLinkedList.java:19-124 | the representation invariant every operation keeps implies the link invariant: `start` is null exactly when `end` is, `start.before` and `end.after` are null, and `n.after.before == n` for every node with a successor |
| DoublyLinked.DoublyLinkedList.constructor | src/main/java/edu/smith/cs/csc212/adtr/real/DoublyLinkedList.java:13-16 | a new list is empty with `start` and `end` null |
| DoublyLinked.DoublyLinkedList.RemoveFront | src/main/java/edu/smith/cs/csc212/adtr/real/DoublyLinkedList.java:19-32 | empty: `EmptyList`, nothing changes; otherwise returns the first value and drops it; removing the only node makes `start` and `end` null |
| DoublyLinked.DoublyLinkedList.RemoveBack | src/main/java/edu/smith/cs/csc212/adtr/real/DoublyLinkedList.java:34-48 | empty: `EmptyList`, nothing changes; otherwise returns the last value and drops it; removing the only node makes `start` and `end` null |
| DoublyLinked.DoublyLinkedList.RemoveIndex | src/main/java/edu/smith/cs/csc212/adtr/real/DoublyLinkedList.java:50-72 | `EmptyList` on an empty list and `BadIndex(index)` outside `[0, size)`, both changing nothing; otherwise returns `old[index]` and the list becomes `RemoveAt(old, index)` |
| DoublyLinked.DoublyLinkedList.Unlink | src/main/java/edu/smith/cs/csc212/adtr/real/DoublyLinkedList.java:60-68 | bypassing the node at a position after the first keeps the list valid and removes exactly that node and its value |
| DoublyLinked.DoublyLinkedList.UnlinkKeepsValid | src/main/java/edu/smith/cs/csc212/adtr/real/DoublyLinkedList.java:61-67 | the links left by the splice satisfy the representation invariant |
| DoublyLinked.DoublyLinkedList.AddFront | src/main/java/edu/smith/cs/csc212/adtr/real/DoublyLinkedList.java:74-84 | the list becomes `[item] + old`; on an empty list the new node is both `start` and `end` |
| DoublyLinked.DoublyLinkedList.AddBack | src/main/java/edu/smith/cs/csc212/adtr/real/DoublyLinkedList.java:86-96 | the list becomes `old + [item]`; on an empty list the new node is both `start` and `end` |
| DoublyLinked.DoublyLinkedList.AddIndex | src/main/java/edu/smith/cs/csc212/adtr/real/DoublyLinkedList.java:98-124 | succeeds exactly for `index` in `[0, size]`, and then the list is `InsertAt(old, index, item)`; otherwise `BadIndex(index)` and nothing changes |
| DoublyLinked.DoublyLinkedList.LinkAfter | src/main/java/edu/smith/cs/csc212/adtr/real/DoublyLinkedList.java:110-119 | the new node enters the chain right after node `index - 1`, linked both ways to both neighbours; `end` moves to it when it is last; no other link or value changes |
| DoublyLinked.DoublyLinkedList.LinkAfterKeepsValid | src/main/java/edu/smith/cs/csc212/adtr/real/DoublyLinkedList.java:110-119 | the links left by the insertion satisfy the representation invariant |
| DoublyLinked.DoublyLinkedList.GetFront | src/main/java/edu/smith/cs/csc212/adtr/real/DoublyLinkedList.java:126-130 | `EmptyList` on an empty list, otherwise the first value |
| DoublyLinked.DoublyLinkedList.GetBack | src/main/java/edu/smith/cs/csc212/adtr/real/DoublyLinkedList.java:132-136 | `EmptyList` on an empty list, otherwise the last value |
| DoublyLinked.DoublyLinkedList.GetIndex | src/main/java/edu/smith/cs/csc212/adtr/real/DoublyLinkedList.java:138-148 | `EmptyList` on an empty list, `BadIndex(index)` outside `[0, size)`, otherwise the value at `index` |
| DoublyLinked.DoublyLinkedList.SetIndex | src/main/java/edu/smith/cs/csc212/adtr/real/DoublyLinkedList.java:150-161 | `EmptyList` or `BadIndex(index)` with no change as for GetIndex; otherwise only the value at `index` changes and the chain of nodes stays the same |
| DoublyLinked.DoublyLinkedList.Size | src/main/java/edu/smith/cs/csc212/adtr/real/DoublyLinkedList.java:163-170 | the number of nodes counted from `start` is the length of the list |
| DoublyLinked.DoublyLinkedList.IsEmpty | src/main/java/edu/smith/cs/csc212/adtr/real/DoublyLinkedList.java:172-175 | true exactly when the list has no items, and exactly when `start` and `end` are both null |
| SinglyLinked.Node.constructor | src/main/java/edu/smith/cs/csc212/adtr/real/SinglyLinkedList.java:160-163 | a new node holds the given value and successor |
| SinglyLinked.SinglyLinkedList.constructor | src/main/java/edu/smith/cs/csc212/adtr/real/SinglyLinkedList.java:11 | a new list is empty with `start` null |
| SinglyLinked.SinglyLinkedList.GetNode | src/main/java/edu/smith/cs/csc212/adtr/real/SinglyLinkedList.java:132-140 | for `index` in `[0, size)` the node at that position, otherwise `BadIndex(index)` |
| SinglyLinked.SinglyLinkedList.RemoveFront | src/main/java/edu/smith/cs/csc212/adtr/real/SinglyLinkedList.java:13-19 | `EmptyList` on an empty list with nothing changed; otherwise returns the first value and drops it |
| SinglyLinked.SinglyLinkedList.RemoveBack | src/main/java/edu/smith/cs/csc212/adtr/real/SinglyLinkedList.java:21-38 | `EmptyList` on an empty list with nothing changed; otherwise returns the last value and drops it; a one-item list becomes empty with `start` null |
| SinglyLinked.SinglyLinkedList.RemoveIndex | src/main/java/edu/smith/cs/csc212/adtr/real/SinglyLinkedList.java:40-52 | `EmptyList` on an empty list; `BadIndex(index - 1)` for `index` outside `[0, size)` (`size` itself is excluded, see below); both change nothing; otherwise returns `old[index]` and the list becomes `RemoveAt(old, index)` |
| SinglyLinked.SinglyLinkedList.Bypass | src/main/java/edu/smith/cs/csc212/adtr/real/SinglyLinkedList.java:49-50 | the node before `index` links past the node at `index`, which leaves the chain with its value; no other link or value changes |
| SinglyLinked.SinglyLinkedList.BypassKeepsValid | src/main/java/edu/smith/cs/csc212/adtr/real/SinglyLinkedList.java:49-50 | the links left by the splice satisfy the representation invariant |
| SinglyLinked.SinglyLinkedList.AddFront | src/main/java/edu/smith/cs/csc212/adtr/real/SinglyLinkedList.java:54-57 | the list becomes `[item] + old` |
| SinglyLinked.SinglyLinkedList.AddBack | src/main/java/edu/smith/cs/csc212/adtr/real/SinglyLinkedList.java:59-70 | the list becomes `old + [item]`, whether the walk finds a last node or the list was empty |
| SinglyLinked.SinglyLinkedList.AddIndex | src/main/java/edu/smith/cs/csc212/adtr/real/SinglyLinkedList.java:72-82 | succeeds exactly for `index` in `[0, size]`, and then the list is `InsertAt(old, index, item)`; otherwise `BadIndex(index - 1)` and nothing changes |
| SinglyLinked.SinglyLinkedList.LinkAfter | src/main/java/edu/smith/cs/csc212/adtr/real/SinglyLinkedList.java:80 | a new node holding the item enters the chain right after node `index - 1`, linked to its old successor; no other link or value changes |
| SinglyLinked.SinglyLinkedList.LinkAfterKeepsValid | src/main/java/edu/smith/cs/csc212/adtr/real/SinglyLinkedList.java:80 | the links left by the insertion satisfy the representation invariant |
| SinglyLinked.SinglyLinkedList.GetFront | src/main/java/edu/smith/cs/csc212/adtr/real/SinglyLinkedList.java:84-88 | `EmptyList` on an empty list, otherwise the first value |
| SinglyLinked.SinglyLinkedList.GetBack | src/main/java/edu/smith/cs/csc212/adtr/real/SinglyLinkedList.java:90-98 | `EmptyList` on an empty list, otherwise the last value, found by walking the whole chain |
| SinglyLinked.SinglyLinkedList.GetIndex | src/main/java/edu/smith/cs/csc212/adtr/real/SinglyLinkedList.java:100-104 | `EmptyList` on an empty list, `BadIndex(index)` outside `[0, size)`, otherwise the value at `index` |
| SinglyLinked.SinglyLinkedList.SetIndex | src/main/java/edu/smith/cs/csc212/adtr/real/SinglyLinkedList.java:107-111 | `EmptyList` or `BadIndex(index)` with no change as for GetIndex; otherwise only the value at `index` changes and the chain of nodes stays the same |
| SinglyLinked.SinglyLinkedList.Size | src/main/java/edu/smith/cs/csc212/adtr/real/SinglyLinkedList.java:113-120 | the number of nodes counted from `start` is the length of the list |
| SinglyLinked.SinglyLinkedList.IsEmpty | src/main/java/edu/smith/cs/csc212/adtr/real/SinglyLinkedList.java:122-125 | true exactly when the list has no items, which is exactly when `start` is null |

## Left out

- `FixedSizeList` and `GrowableList` are not part of this model. A chunk is
  a `seq<T>` of at most `chunkSize` items. The directory is an unbounded
  `seq` of chunks. `isFull` is `|c| == chunkSize`. The array storage and
  growth of these classes are not modelled.
- makeChunk (`ChunkyArrayList.java:24-26`) is the empty chunk `[]` that
  addFront, addBack and the split put into the directory.
- `ListADT` and its `checkNotEmpty` are not part of this model.
  `checkNotEmpty` is modelled as an `IsEmpty()` test returning `EmptyList`.
  The error classes become the `Outcome` results; no exception object is
  modelled.
- The `for (chunk : chunks)` loops use the directory's iterator, which is
  not part of this model. They are index loops over `chunks` here.
- Chunky.ChunkyArrayList.GetFront and Chunky.ChunkyArrayList.GetBack
  require a list with items. On an empty list the outcome depends on
  `GrowableList.getFront`/`getBack`, which are not part of this model.
- SinglyLinked.SinglyLinkedList.RemoveIndex requires
  `index != size` on a list with items. For that index the code reads the
  `next` of the last node, which is null, and fails with a null dereference
  rather than a list error.
- SinglyLinked.SinglyLinkedList.GetBack starts its running value at
  `start.value` instead of `null`. Dafny has no null for an arbitrary `T`.
  The walk overwrites the value before it is returned, so the result is the
  same.
- Unlink, LinkAfter, Bypass, RemoveInChunk and InsertInChunk have no
  counterpart method in the code. Each one is the inline body of the
  matching remove or add, split out so that it can be specified on its own.
  Each follows the code's statements in the code's order.
- DoublyLinked.DoublyLinkedList.AddIndex: the walk stops at node
  `index - 1` and the relinking follows the loop. In the code the
  relinking sits inside the loop and returns from it. The effect is the
  same.
- Java `int` overflow of sizes, offsets and counters is not modelled.
  Integers are unbounded.
- Performance and complexity (for example, O(1) back operations of the
  doubly-linked list) are not stated.
