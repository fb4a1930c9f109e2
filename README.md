# Three small data structures, modelled and verified in Dafny

This project models three data structures from a Go homework repository and
proves what their code and tests promise about them:

- `circular_queue.dfy` (module `CircularQueues`): a fixed-capacity circular
  queue of ints (`homework/hw2`). The class keeps the slot array, the element
  count and the start and end pointers, as the Go struct does. `Push` and
  `Pop` report failure with a bool. `Front` and `Back` return -1 on an empty
  queue. A ghost `Contents()` reads the queue oldest first. The invariant
  `Valid()` keeps the count and the pointers in range and every free slot at
  zero. Every operation is stated against `Contents()` and the exact slots.
- `cow_buffer.dfy` (module `Cow`): a copy-on-write byte buffer (`homework/hw3`).
  A `CowBuffer` handle holds an `array<byte>` and a shared `Counter` cell. The
  cell counts the *other* handles on the same storage. Go's pointer
  comparisons of slice data become reference equality of arrays. Detaching
  onto new storage is stated with `fresh`. `Update` keeps the source's
  threshold: it copies only when the counter is above 1, so two sharers
  (counter 1) write in place and each sees the other's write. A ghost
  accounting predicate, `Accounted`, covers a whole set of live handles. It
  says each counter equals its number of other live sharers and that handles
  on one counter alias one array. `TrackedNew`, `TrackedClone`,
  `TrackedClose` and `TrackedUpdate` each keep it.
- `ordered_map.dfy` (module `OrderedMaps`): an ordered map from int to int on
  an unbalanced binary search tree (`homework/hw4`). The tree is the datatype
  `Tree`. `TreeInsert`, `TreeErase`, `DeleteMin`, `TreeContains` and
  `TreeForEach` follow the Go functions `insert`, `erase`, `deleteMin`,
  `contains` and `forEach` branch by branch. `FindMin` keeps the Go loop. The
  class `OrderedMap` holds `root` and a separately kept `size`, and updates
  both as `Insert` and `Erase` do. `Entries(t)` is the map a tree stores.
  `IsBst(t)` is the search-tree ordering that every operation keeps.
  `OrderedMap.Size` is a plain read of `size`. What `size` holds after each
  call is stated on `Insert` and `Erase`.

The size counter is reproduced as written. `Insert` adds one even when the
key is already there. `Erase` subtracts one even when the key was never
there. Both are listed under Findings below, next to corrected variants that
keep `size` equal to the number of entries.

The `Test…` and `…Sample` methods and the `Sample…` lemmas replay each Go
test's calls on concrete values. Their postconditions are the values that
the test's assertions expect.

## Model

| member | source | states |
|---|---|---|
| CircularQueues.Advance | homework/hw2/homework_test.go:75-91 | the pointer step lands in `[0, cap)` and is the next slot, or slot 0 after the last one |
| CircularQueues.CircularQueue.constructor | homework/hw2/homework_test.go:19-25 | a new queue has `size` zeroed slots, count 0, start 0 and end -1; it is valid and its contents are empty |
| CircularQueues.CircularQueue.Empty | homework/hw2/homework_test.go:67-69 | true exactly when the queue's contents are empty |
| CircularQueues.CircularQueue.Full | homework/hw2/homework_test.go:71-73 | true exactly when the number of queued elements equals the capacity |
| CircularQueues.CircularQueue.Front | homework/hw2/homework_test.go:51-57 | the oldest element, or -1 when the queue is empty |
| CircularQueues.CircularQueue.Back | homework/hw2/homework_test.go:59-65 | the newest element, or -1 when the queue is empty |
| CircularQueues.CircularQueue.IncEndPointer | homework/hw2/homework_test.go:75-82 | the end pointer advances by one slot, wrapping from the last slot to 0; nothing else changes |
| CircularQueues.CircularQueue.IncStartPointer | homework/hw2/homework_test.go:84-91 | the start pointer advances by one slot, wrapping from the last slot to 0; nothing else changes |
| CircularQueues.CircularQueue.Push | homework/hw2/homework_test.go:27-37 | on a full queue: false and no field or slot changes; otherwise true, the value is appended to the contents, the end pointer advances with wrap, exactly that slot is written, the count grows by one, and the invariant is kept |
| CircularQueues.CircularQueue.Pop | homework/hw2/homework_test.go:39-49 | on an empty queue: false and nothing changes; otherwise true, the oldest element leaves the contents, its slot is zeroed, the count drops by one, the start pointer advances with wrap, and the invariant is kept |
| CircularQueues.FillSample | homework/hw2/homework_test.go:94-109 | at capacity 3 the new queue is empty and not full, Front and Back are -1 and Pop fails; pushing 1, 2, 3 succeeds, pushing 4 fails, and the slots are `[1, 2, 3]` |
| CircularQueues.WrapSample | homework/hw2/homework_test.go:117-125 | on the full queue `[1, 2, 3]` a Pop succeeds and leaves the queue neither empty nor full; a Push of 4 then succeeds, the slots become `[4, 2, 3]`, Front is 2 and Back is 4 |
| CircularQueues.TestCircularQueue | homework/hw2/homework_test.go:93-134 | every assertion of the test: push results `[true, true, true, false, true]`, pop results `[false, true, true, true, true, false]`, the slot layouts `[1, 2, 3]` and `[4, 2, 3]`, not empty, full, Front 1 and Back 3 once filled, neither empty nor full after the first Pop, Front 2 and Back 4 after the wrap, and empty and not full at the end |
| Cow.Counter.constructor | homework/hw3/homework_test.go:22 | a new counter cell holds 0 |
| Cow.CowBuffer.constructor | homework/hw3/homework_test.go:19-30 | the handle keeps the caller's array itself, without a copy, and gets a fresh counter of 0 |
| Cow.CowBuffer.Sharing | homework/hw3/homework_test.go:35-38 | the handle built by Clone: the given storage and the given counter cell |
| Cow.CowBuffer.Clone | homework/hw3/homework_test.go:32-45 | the new handle is on the same array and the same counter cell, and the counter goes up by exactly one |
| Cow.CowBuffer.Close | homework/hw3/homework_test.go:47-53 | the counter drops by one only when it is positive; the handle is left with an empty array; the bytes of the storage it held are untouched |
| Cow.CloneBytes | homework/hw3/homework_test.go:62 | the copy is a fresh array with the same bytes |
| Cow.CowBuffer.Update | homework/hw3/homework_test.go:55-68 | true exactly when the index is in range; out of range, nothing changes; in range, the handle's bytes are the old bytes with that one byte replaced; with a counter above 1, the old counter drops by one, the handle moves to a fresh array and a fresh counter of 0, and the old storage keeps its bytes; with a counter of at most 1, the write goes into the same array and the counter is untouched |
| Cow.CowBuffer.String | homework/hw3/homework_test.go:70-72 | the handle's current storage itself, not a copy |
| Cow.TrackedNew | homework/hw3/homework_test.go:19-23 | the new handle keeps the caller's array with a fresh counter of 0, joins the live set, and the sharing accounting still holds |
| Cow.TrackedClone | homework/hw3/homework_test.go:32-38 | the clone is on the same array and counter, the counter grows by one, and every live counter still equals its number of other live sharers |
| Cow.TrackedClose | homework/hw3/homework_test.go:47-52 | everything Close promises, and the accounting holds for the handles that stay live |
| Cow.TrackedUpdate | homework/hw3/homework_test.go:55-65 | everything Update promises (result, new bytes, detach or in-place write, old storage untouched on detach), and the accounting still holds, so the other sharers still alias each other |
| Cow.CountersNonNegative | homework/hw3/homework_test.go:47-50 | under the accounting, no live handle's counter is negative |
| Cow.OneOtherSharer | homework/hw3/homework_test.go:60-65 | under the accounting, a counter of 1 means another live handle on the same counter and the same array, so an in-place write shows through it |
| Cow.TestCowBuffer | homework/hw3/homework_test.go:74-111 | the results the test's assertions expect on "abcd": the clones share the storage; the first update detaches the buffer and writes 'g'; the two out-of-range updates fail; the clones keep "abcd" and still share; after one clone closes, the other writes 'f' in place |
| Cow.TwoSharersWriteInPlace | homework/hw3/homework_test.go:60-65 | with two sharers (counter 1) an update writes in place and the other handle sees the new byte |
| Cow.UpdateAfterClose | homework/hw3/homework_test.go:52-57 | after Close, Update fails for every index |
| OrderedMaps.TreeInsert | homework/hw4/homewrok_test.go:38-49 | `insert` branch by branch; it returns a node, and the old root with its entry when there was one; its effect on the entries is InsertCorrect and InsertExisting, on the node count InsertCount |
| OrderedMaps.InsertCount | homework/hw4/homewrok_test.go:38-49 | on any tree, insert adds one node exactly when the search for the key fails |
| OrderedMaps.InsertCorrect | homework/hw4/homewrok_test.go:38-49 | on a search tree, insert keeps the ordering and adds the entry when the key is new; a present key keeps its old value |
| OrderedMaps.InsertExisting | homework/hw4/homewrok_test.go:42-48 | inserting a key that is already in a search tree returns the same tree, old value included |
| OrderedMaps.MinEntry | homework/hw4/homewrok_test.go:83-88 | the leftmost entry's key is a key of the tree |
| OrderedMaps.MinEntryIsLeast | homework/hw4/homewrok_test.go:83-88 | in a search tree the leftmost entry holds the smallest key, with its stored value |
| OrderedMaps.FindMin | homework/hw4/homewrok_test.go:83-88 | the loop that walks left returns the leftmost entry |
| OrderedMaps.DeleteMin | homework/hw4/homewrok_test.go:91-97 | `deleteMin` branch by branch; a root with a left child stays the root; its effect on the entries is DeleteMinCorrect, on the node count DeleteMinCount |
| OrderedMaps.DeleteMinCount | homework/hw4/homewrok_test.go:91-97 | deleteMin removes exactly one node |
| OrderedMaps.DeleteMinCorrect | homework/hw4/homewrok_test.go:91-97 | on a search tree, deleteMin keeps the ordering and removes exactly the smallest key |
| OrderedMaps.TreeErase | homework/hw4/homewrok_test.go:61-80 | `erase` branch by branch; a root whose key is not the erased one stays the root; its effect on the entries is EraseCorrect and EraseTakesSuccessor, on the node count EraseCount |
| OrderedMaps.EraseCount | homework/hw4/homewrok_test.go:61-80 | on any tree, erase removes one node exactly when the search for the key succeeds |
| OrderedMaps.EraseCorrect | homework/hw4/homewrok_test.go:61-80 | on a search tree, erase keeps the ordering and removes exactly the given key, and no other entry changes |
| OrderedMaps.EraseTakesSuccessor | homework/hw4/homewrok_test.go:75-77 | erasing a node with two children puts at that node the next larger key of the tree, with its value |
| OrderedMaps.TreeContains | homework/hw4/homewrok_test.go:105-115 | a key found is a key of the tree; on a search tree, found exactly when it is a key of the tree |
| OrderedMaps.TreeForEach | homework/hw4/homewrok_test.go:128-135 | `forEach` as the pairs it hands to the action, left subtree, node, right subtree; its properties are ForEachKeys, ForEachOrdered and ForEachLength |
| OrderedMaps.ForEachLength | homework/hw4/homewrok_test.go:128-135 | the walk hands over one pair per node |
| OrderedMaps.ForEachKeys | homework/hw4/homewrok_test.go:128-135 | the walk yields exactly the keys of the tree |
| OrderedMaps.ForEachOrdered | homework/hw4/homewrok_test.go:128-135 | on a search tree the walk yields keys in strictly ascending order, so each key once, each with its stored value |
| OrderedMaps.OrderedMap.constructor | homework/hw4/homewrok_test.go:27-29 | a new map has no root, size 0 and no entries |
| OrderedMaps.OrderedMap.Insert | homework/hw4/homewrok_test.go:32-35 | the entries gain the key when it is new (a present key keeps its value), the ordering is kept, and the size grows by one in every case |
| OrderedMaps.OrderedMap.Erase | homework/hw4/homewrok_test.go:52-58 | the entries lose exactly the key, the ordering is kept, and the size drops by one in every case |
| OrderedMaps.OrderedMap.Contains | homework/hw4/homewrok_test.go:100-102 | true only for stored keys, and on the search tree the map keeps, true exactly for them |
| OrderedMaps.OrderedMap.Size | homework/hw4/homewrok_test.go:118-120 | plain read of `size` |
| OrderedMaps.OrderedMap.ForEach | homework/hw4/homewrok_test.go:123-125 | the pairs handed to the action cover exactly the map's keys; on the search tree they come in ascending key order with their stored values |
| OrderedMaps.SampleInserts | homework/hw4/homewrok_test.go:141-147 | the tree after each of the test's seven inserts |
| OrderedMaps.BuildSample | homework/hw4/homewrok_test.go:138-149 | inserting 10, 5, 15, 2, 4, 12, 14 into a new map gives size 7 and the expected tree shape |
| OrderedMaps.SampleWalks | homework/hw4/homewrok_test.go:155-179 | the walks of the test's two trees yield keys 2, 4, 5, 10, 12, 14, 15 and then 4, 5, 10, 12 |
| OrderedMaps.SampleErasures | homework/hw4/homewrok_test.go:150-171 | erasing 15, 14 and 2 in turn gives the expected trees, and the test's searches find 4 and 12 but not 3, 13, 2 or 14 |
| OrderedMaps.TestOrderedMap | homework/hw4/homewrok_test.go:137-180 | the whole test: sizes 0, 7 and 4, the membership results, and the two walks in ascending order |
| OrderedMaps.SizeDrift | homework/hw4/homewrok_test.go:32-58 | as written, a duplicate insert leaves size 2 with one entry, and an erase on an empty map leaves size -1 |
| OrderedMaps.OrderedMap.InsertCounted | homework/hw4/homewrok_test.go:32-35 | the insert with the size counting only a new key: same entries as Insert, and the size stays equal to the number of entries |
| OrderedMaps.OrderedMap.EraseCounted | homework/hw4/homewrok_test.go:52-58 | the erase with the size dropping only when an entry was removed: same entries as Erase, and the size stays equal to the number of entries |
| OrderedMaps.SizeCounted | homework/hw4/homewrok_test.go:32-58 | on the same calls as SizeDrift, the corrected operations leave size 1 and 0 |

## Left out

- Finalizers (`runtime.SetFinalizer`, `homework/hw3/homework_test.go:25-27, 40-42`) depend on when the garbage collector runs, so they are not modelled.
- The atomic counter operations are modelled as plain reads and writes of one heap cell. Races between handles on different goroutines are not modelled.
- The counter's 32-bit width is not modelled. The counter is an unbounded `int`.
- Go's `int` keys, values and sizes in the ordered map are unbounded integers here, so 64-bit overflow is not modelled.
- `unsafe.Slice`, `unsafe.SliceData`, `unsafe.String` and `unsafe.StringData` become array reference identity. `String` returns the array itself, not a Go string over it.
- Cow.CowBuffer.Update: the `b == nil` receiver check (`homework/hw3/homework_test.go:56`) is not modelled, because a Dafny reference is never null.
- Cow.Accounted: the accounting covers callers that close each handle once. Go's `Close` keeps `refCounter` (`homework/hw3/homework_test.go:47-53`), so a second `Close` of the same handle lowers the group's counter again. The counter can then reach 0 while two handles still share the storage, and an `Update` writes in place through both. The model's `Close` does the same, and `TrackedClose` takes the handle out of the live set.
- Cow.CowBuffer.Close: `b.data = nil` is modelled as a fresh empty array. Only its length (0) matters to the other operations.
- CircularQueues.CircularQueue.constructor: a negative size, which makes Go's `make` panic, is ruled out by taking the size as a `nat`.
- The tree nodes that Go mutates in place (`root.Left = …`, `root.Key, root.Value = …`) are immutable `Tree` values here. Each recursive call returns the subtree that Go links back into its parent. Node identity and aliasing are not modelled. No node is reachable from outside the map, so the map's observable behaviour is the same.
- The `ForEach` callback is replaced by the sequence of (key, value) pairs it would receive, in call order.
- The `testify` assertions and `reflect.DeepEqual` are replaced by the postconditions of the `Test…` methods.

## Findings

| source | as written | input that shows it | evidently intended | confidence | as-written member | corrected member |
|---|---|---|---|---|---|---|
| homework/hw4/homewrok_test.go:52-58 | after erasing, the size drops whenever the key is absent, which after an erase is always | `Erase(7)` on a new map leaves size -1 | the size drops only when an entry was removed, as the comment at line 54 says | not executed | OrderedMaps.SizeDrift | OrderedMaps.OrderedMap.EraseCounted |
| homework/hw4/homewrok_test.go:32-35 | the size grows by one on every insert, including one whose key is already present and whose tree does not change | `Insert(1, 1)` then `Insert(1, 2)` on a new map leaves size 2 with one entry | the size counts the entries, so it grows only for a new key | not executed | OrderedMaps.SizeDrift | OrderedMaps.OrderedMap.InsertCounted |
