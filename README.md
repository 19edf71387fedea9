# Indexable skip list

A model of `IndexableSkipList`. This is a sorted set of distinct elements
kept in a skip list of 32 lanes. Every node records its *span*: its
distance, counted in bottom-lane positions, from the previous node of its
lane. Summing spans along a search path therefore gives the 0-based index
of a node, so the list supports access and removal by index as well as by
value.

The model is in five modules:

- `SortedSeqs` (`sorted_seqs.dfy`) holds the abstract value: a strictly
  increasing sequence. It defines rank (`CountLess`), insertion, removal,
  and the renumbering of ranks that insertion and removal cause.
- `Lanes` (`lanes.dfy`) models one lane as the sequence of its nodes behind
  the head. A node is an `Entry` holding a value and a span. A ghost rank
  sequence relates each node to the sorted elements.
  - The lane invariant is `LaneMatches`.
  - The per-lane edits made by insert and remove are `SpliceIn`,
    `AdjustSpan` and `Unlink`. Lemmas prove that each edit keeps the
    invariant.
- `LaneHeight` (`lane_height.dfy`) models the height of a new node:
  `log2`, the cap that grows with the size, and the lane index drawn for a
  new node.
- `SkipState` (`skip_state.dfy`) covers the 32 lanes together.
  - `Coherent` is the invariant: every lane matches, the bottom lane holds
    every element, lanes nest, and lanes above the highest lane index are
    empty.
  - It also states what insert and remove do to all the lanes, and proves
    that both keep the invariant.
- `SkipList` (`indexable_skip_list.dfy`) is the class
  `IndexableSkipList`.
  - Its fields are `lanes`, `highestLaneIndex`, `size`, and the ghost
    fields `elems` and `ranks`.
  - Its methods follow the source's loops: the search down the lanes, the
    walk right along a lane, the lane loop of `insert`, and the two loops
    of `removeNode`. Each method is proved against the specification
    functions of `SkipState`.

Elements are modelled as `int`, compared with `<`. Each element's
`compareTo` is that comparison.

## Model

| member | source | states |
|---|---|---|
| SkipList.IndexableSkipList.constructor | src/IndexableSkipList.java:50-63 | A new list is empty: 32 empty lanes behind their heads, size 0, highest lane index 0, and the invariant holds. |
| SkipList.IndexableSkipList.Size | src/IndexableSkipList.java:71-73 | Returns the number of elements held. |
| SkipList.IndexableSkipList.IsEmpty | src/IndexableSkipList.java:75-77 | True exactly when no element is held. |
| SkipList.IndexableSkipList.Insert | src/IndexableSkipList.java:79-121 | Inserts only an absent element and reports whether it did. Afterwards the elements are the old ones with `v` at its rank, the size is one more, the highest lane index is raised to the new node's lane index if that is higher, every lane is the per-lane insert edit, and the invariant holds. On a duplicate nothing changes. |
| SkipList.IndexableSkipList.PathToInsert | src/IndexableSkipList.java:240-257 | Returns nothing exactly when `v` is present. Otherwise it returns one entry per lane up to the highest lane. Each entry is the position after the last node ranked below `v` and the span sum reached there, which is that node's rank. |
| SkipList.LinkNode | src/IndexableSkipList.java:93-118 | The lane loop of insert. In lanes up to the node's lane index it splices in a node with span `elementIndex - spanSumLeft` and takes `nodeSpan - 1` off the successor's span. Above that index it adds one to the span of the node that flies over. Lanes past the search path start at their head. The result equals `InsertLanes`. |
| SkipList.IndexableSkipList.Contains | src/IndexableSkipList.java:144-156 | True exactly when `v` is an element. |
| SkipList.IndexableSkipList.GetAtIndex | src/IndexableSkipList.java:158-174 | Returns the element at 0-based `index` when `0 <= index < size`, and the out-of-bounds error otherwise. |
| SkipList.IndexableSkipList.DescendByValue | src/IndexableSkipList.java:245-253 | Goes down from the position reached one lane up and walks right past every node below `v`. It stops at the node of `v` (found exactly when `v` is present and stands in this lane) or at the first node above `v`. The span sum reached is the rank of the node left of that position. |
| SkipList.IndexableSkipList.DescendByIndex | src/IndexableSkipList.java:163-170 | Goes down and walks right while `spanSum + next.span` stays below `index`. It stops at the node of rank `index` (found exactly when that node stands in the lane) or before the first node beyond it. |
| SkipList.IndexableSkipList.AdvanceByValue | src/IndexableSkipList.java:246-253 | The inner walk by comparison. The result position splits the lane's ranks at the rank of `v`, the span sum is the rank reached, and `found` holds exactly when `v`'s node is in the lane, at that position. |
| SkipList.IndexableSkipList.AdvanceByIndex | src/IndexableSkipList.java:164-170 | The inner walk by span sum. The result position splits the lane's ranks at `index`, and `found` holds exactly when the node of rank `index` is in the lane, at that position. |
| SkipList.IndexableSkipList.DownPos | src/IndexableSkipList.java:245 | Following the instance list down one lane: the head stays the head, a node goes to its own instance below, and the rank reached is unchanged. |
| SkipList.IndexableSkipList.Remove | src/IndexableSkipList.java:123-142 | Reports whether `v` was present. Afterwards the elements are the old ones without `v`. When `v` was removed, the size is one less, the highest lane index is unchanged and every lane is the per-lane remove edit. When `v` was absent, nothing changes. |
| SkipList.IndexableSkipList.SearchToRemove | src/IndexableSkipList.java:124-140 | Finds `v` exactly when it is present, at the highest lane its node stands in. Nothing above that lane holds it, and `rightNodesAbove` lists, from the top lane down, the first node beyond `v` in every searched lane that has one. |
| SkipList.IndexableSkipList.RemoveAtIndex | src/IndexableSkipList.java:176-200 | For `0 <= index < size`, returns the element at `index` and removes exactly that element: the size is one less and every lane is the per-lane remove edit. Otherwise returns the out-of-bounds error and changes nothing. |
| SkipList.IndexableSkipList.SearchIndexToRemove | src/IndexableSkipList.java:178-197 | For an index below the size, returns the element at that index and the highest lane its node stands in, with the same `rightNodesAbove` list as the search by value. |
| SkipList.IndexableSkipList.RemoveNode | src/IndexableSkipList.java:260-273 | Removes the element: the elements lose it, the size drops by one, every lane is the per-lane remove edit, and the invariant holds. |
| SkipList.DetachNode | src/IndexableSkipList.java:261-271 | Both loops of `removeNode` together turn the lanes into `RemoveLanes`. |
| SkipList.UnlinkInstances | src/IndexableSkipList.java:261-268 | Unlinks the node from every lane it stands in, giving its span minus one to its successor. Lanes above the node are untouched. |
| SkipList.ShortenOverflights | src/IndexableSkipList.java:269-271 | Takes one off the span of each node in `rightNodesAbove`. Each lane above the removed node then equals the per-lane remove edit, and lanes below are untouched. |
| SkipList.UnlinkFacts | src/IndexableSkipList.java:261-266 | Each lane up to the node's own lane holds the removed value, and unlinking it there is the per-lane remove edit. |
| SkipList.OverflownEntries | src/IndexableSkipList.java:134-136 | Each entry of `rightNodesAbove` lies in a searched lane and is that lane's first node ranked at or above the removed rank. |
| SkipList.OverflownDescending | src/IndexableSkipList.java:124-140 | `rightNodesAbove` runs from the highest lane down, with at most one entry per lane. |
| SkipList.ShortenedOverflown | src/IndexableSkipList.java:269-271 | Shortening along the list changes exactly the first node at or beyond the removed rank in each searched lane. |
| SkipState.InsertCoherent | src/IndexableSkipList.java:79-121 | Inserting an absent element with any lane index below 32 keeps the whole invariant: sorted elements, matching lanes, a complete bottom lane, nested lanes, and empty lanes above the new highest index. |
| SkipState.RemoveCoherent | src/IndexableSkipList.java:260-273 | Removing the element at any rank keeps the whole invariant. |
| SkipState.InsertKeepsStacked | src/IndexableSkipList.java:105-117 | After an insertion every node of a lane still stands in the lane below. |
| SkipState.RemoveKeepsStacked | src/IndexableSkipList.java:261-271 | After a removal every node of a lane still stands in the lane below. |
| SkipState.InsertedOccupies | src/IndexableSkipList.java:105-112 | The new node stands exactly in lanes 0 up to its lane index. |
| SkipState.BottomLaneHoldsAll | src/IndexableSkipList.java:209-214 | The bottom lane lists every element in increasing order: the first node has span 0 and every later node has span 1. |
| SkipState.IotaHas | src/IndexableSkipList.java:172-173 | Every index below the size is a rank in the bottom lane. The search loops of `GetAtIndex` and `SearchIndexToRemove` use it, and the `assert false` after each loop then proves that the throw after the loop is unreachable. |
| SkipState.NodeStandsBelow | src/IndexableSkipList.java:127 | The node reached in a lane also has an instance in the lane below. |
| SkipState.SameNodeBelow | src/IndexableSkipList.java:245 | That instance below has the same rank, and no node before it ranks higher. |
| Lanes.SpliceIn | src/IndexableSkipList.java:105-111 | Links the new node in after position `p` with span `nodeSpan`. The nodes before it are unchanged. Its successor keeps its value and gives up `nodeSpan - 1` of its span. The later nodes move one place right, unchanged. `SpliceInMatches` is its partner. |
| Lanes.AdjustSpan | src/IndexableSkipList.java:113-116 | Changes only the span of the node right of position `p`, by `delta`: +1 for the node that flies over a new element (and -1 at lines 269-271 for one that flies over a removed element). All values and the length stay the same. `WidenMatches` and `NarrowMatches` are its partners. |
| Lanes.Unlink | src/IndexableSkipList.java:262-266 | Takes the node at index `q` out of the lane. The nodes before it are unchanged. Its successor keeps its value and takes over the removed node's span minus one. The later nodes move one place left, unchanged. `UnlinkMatches` is its partner. |
| Lanes.IndexOfValue | src/IndexableSkipList.java:127 | Stands in for `instances.get(i)`, which is also used at lines 147, 163, 182 and 245. It returns the position of the first, and in a sorted lane the only, node holding `v`. `IndexOfValueIsRank` is its partner. |
| Lanes.SpliceInMatches | src/IndexableSkipList.java:104-112 | Splicing in a node with span `elementIndex - spanSumLeft`, and taking `nodeSpan - 1` off its successor, keeps the lane matching the grown element sequence. |
| Lanes.WidenMatches | src/IndexableSkipList.java:113-116 | Adding one to the span of the node that flies over keeps a lane without the new node matching the grown sequence. |
| Lanes.LaneAfterInsertMatches | src/IndexableSkipList.java:104-117 | Both kinds of insert edit keep a lane matching the grown sequence. |
| Lanes.UnlinkMatches | src/IndexableSkipList.java:262-266 | Unlinking a node and adding its span minus one to its successor keeps the lane matching the shrunk sequence. |
| Lanes.NarrowMatches | src/IndexableSkipList.java:269-271 | Taking one off the span of the node that flies over keeps a lane without the removed node matching the shrunk sequence. |
| Lanes.LaneAfterRemoveMatches | src/IndexableSkipList.java:260-271 | Both kinds of remove edit keep a lane matching the shrunk sequence. |
| Lanes.SpansGiveRank | src/IndexableSkipList.java:165-169 | Summing spans from the head to a node gives the number of elements below its value, which is its 0-based index. |
| Lanes.ValueOrder | src/IndexableSkipList.java:247-250 | Comparing `v` with a node's value is the same as comparing the node's rank with `v`'s rank, in both directions, and equality means `v` is that node's element. |
| Lanes.IndexOfValueIsRank | src/IndexableSkipList.java:127 | The instance of a value found in a lane has that value's rank. |
| Lanes.LaneIsSorted | src/IndexableSkipList.java:128-138 | The values along a lane increase strictly. |
| Lanes.InsertedRankOrigin | src/IndexableSkipList.java:104-117 | After an insertion, each rank in a lane is a kept rank below the new one, the new one itself, or an old rank moved up by one. |
| Lanes.InsertedRankKept | src/IndexableSkipList.java:104-117 | Conversely, an insertion keeps each rank below the new one and moves each other rank up by one. |
| Lanes.InsertedRankPresent | src/IndexableSkipList.java:105-112 | The new rank appears in a lane exactly when the node was linked there. |
| Lanes.RemovedRankOrigin | src/IndexableSkipList.java:260-271 | After a removal, each rank in a lane is a kept rank below the removed one or a higher rank moved down by one. |
| Lanes.RemovedRankKept | src/IndexableSkipList.java:260-271 | Conversely, a removal keeps each lower rank and moves each higher rank down by one. |
| SortedSeqs.InsertedIsSortedUnion | src/IndexableSkipList.java:79-121 | Inserting an absent element keeps the sequence sorted and adds exactly that element. It lands between its predecessors and successors, and the length grows by one. |
| SortedSeqs.RemovedIsSortedDifference | src/IndexableSkipList.java:123-142 | Removing keeps the sequence sorted and takes out exactly `v`. The length drops by one exactly when `v` was present. |
| SortedSeqs.RemoveUndoesInsert | src/IndexableSkipList.java:79-142 | Removing a freshly inserted element restores the sequence. |
| SortedSeqs.DeleteAtIsRemoved | src/IndexableSkipList.java:176-200 | Removing by index is removing the element found at that index. |
| SortedSeqs.PresentAtRank | src/IndexableSkipList.java:144-156 | An element is present exactly when it sits at its own rank. |
| SortedSeqs.RankOfIndex | src/IndexableSkipList.java:158-174 | The element at index `i` has rank `i`. |
| SortedSeqs.CountLessSplits | src/IndexableSkipList.java:246-253 | The rank of `x` splits the sorted sequence into the part below `x` and the rest. |
| LaneHeight.Log2 | src/IndexableSkipList.java:284-286 | `31 - numberOfLeadingZeros(n)`: -1 for 0, otherwise the exponent `r` with `2^r <= n < 2^(r+1)`. |
| LaneHeight.Log2Unique | src/IndexableSkipList.java:284-286 | That exponent is the only one that brackets `n`. |
| LaneHeight.HighestPossibleLaneIndex | src/IndexableSkipList.java:280-282 | The cap is the larger of 15 and `log2(size) + 5`. |
| LaneHeight.CapIsFixedWhileSmall | src/IndexableSkipList.java:280-282 | The cap is exactly 15 when the size is below 2048. |
| LaneHeight.CapMonotone | src/IndexableSkipList.java:280-282 | The cap never shrinks as the size grows. |
| LaneHeight.RandomLaneIndex | src/IndexableSkipList.java:276-278 | As written: the smaller of the cap and the trailing-zero count of the draw. |
| LaneHeight.RandomLaneIndexCanPassLastLane | src/IndexableSkipList.java:276-278 | At 2^27 elements, a draw of zero yields lane index 32, one past the last lane. |
| LaneHeight.RandomLaneIndexInRangeWhileSmall | src/IndexableSkipList.java:276-278 | Below 2^27 elements the index as written always names one of the 32 lanes. |
| LaneHeight.LaneIndex | src/IndexableSkipList.java:276-278 | Corrected: the index as written whenever it is below 32, and lane 31 otherwise. It never exceeds the cap or the trailing-zero count. |

## Left out

- The random generator is not modelled. `Insert` takes the trailing-zero count of the draw (0 to 32) as a parameter.
- `toString` and the debug `print` are not modelled, because they only format text. `BottomLaneHoldsAll` states the bottom-lane order that `toString` walks.
- Elements are `int` compared with `<`, not a generic `Comparable` type, and the list is not created through reflection.
- Java's 32-bit `int` overflow of `size` and of span sums is not modelled. Sizes past 2^31 - 1 are out of reach anyway.
- The linked nodes are modelled as one sequence of entries per lane.
  - The `next`/`prev` pointers, the cleared pointers of unlinked nodes, and object identity are not modelled.
  - The per-node `instances` list is modelled by looking up the same value in the lane below.
- `SkipList.UnlinkInstances`: the source finds each instance through the node's `instances` list. The model finds it by value in each lane.
- `SkipList.IndexableSkipList.Contains`, `SkipList.IndexableSkipList.Remove` and `SkipList.IndexableSkipList.PathToInsert` share the walk of `AdvanceByValue`. It also carries the span sum, which `contains` and `remove` do not keep.
- `SkipList.IndexableSkipList.Remove` and `SkipList.IndexableSkipList.RemoveAtIndex` call `RemoveNode` after their search loop, where the source calls it from inside the loop. The two are equivalent because the loop is left straight afterwards.
- `SkipList.IndexableSkipList.Insert` uses the corrected `LaneIndex`, which is never above 31. The source's behaviour at lane index 32 is not modelled as a state change (see Findings). By the time the source fails, at line 100, it has already set `highestLaneIndex` to 32 and linked the node into lanes 0 to 31, and `size` has not been incremented. Every later operation starts at `lanes[highestLaneIndex]` and fails, so the list stays unusable.
- The exceptions for an index out of bounds are modelled as the `OutOfBounds` result.

## Findings

| source | as written | input that shows it | evidently intended | confidence | as-written member | corrected member |
|---|---|---|---|---|---|---|
| src/IndexableSkipList.java:276-282 | `randomLaneIndex` returns `min(max(15, log2(size) + 5), numberOfTrailingZeros(nextInt()))`, which can be 32. `insert` then sets `highestLaneIndex` to 32 (line 88) and links the node into lanes 0 to 31 (lines 105-112). With `i == 32` it reads `lanes[i]` at line 100, which throws, and `size` is never incremented. Every later `remove`, `contains`, `get`, `removeAtIndex` and `insert` starts at `lanes[highestLaneIndex]` (lines 125, 145, 160, 179 and 242) and throws too, so the list is permanently unusable. | a list of 2^27 elements and a draw of `nextInt() == 0` (32 trailing zeros) give lane index 32 | the lane index stays below the 32 lanes | not executed | LaneHeight.RandomLaneIndexCanPassLastLane | LaneHeight.LaneIndex |
