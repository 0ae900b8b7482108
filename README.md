# Skip list and stack of `collections`, modelled in Dafny

This project models the two data structures of the Go repository
`collections`:

- **The generic skip list** (`skiplist/skip_list.go`). It is an ordered map from `int` keys to values
  of any type. It is a tower of sorted singly linked lists: a head sentinel with
  forward links at levels `0..MAX_LAYER` (32); nodes of random height linked at
  levels `0..height`; a current top `level`; an element count `size`; and a pool that
  recycles freed nodes.
- **The slice-backed LIFO stack** (`stack/stack.go`), with `Push`, `Pop`, `Peek`,
  `Len`, `Cap` and the `New` constructor with its optional capacity argument.

## Files and modules

- `skiplist_index.dfy`, module `SkipIndex`: the skip list's nodes as values in an arena.
  - A forward link is a slot number, and `NIL` (-1) is nil. Slot `HEAD` (0) holds the sentinel.
  - The ghost sequence `order` is the level-0 chain, head first.
  - The module defines the representation invariant `Inv`:
    - every link is the next node of the chain that reaches the link's level (`NextAt`), and `NIL` above the node's height;
    - keys are strictly increasing along the chain;
    - heights are at most `level`, and `level` is the highest level the head links at, or 0;
    - `size` counts the chain;
    - the ghost map `contents` is the chain's key/value pairs;
    - the pool holds blank slots outside the chain.
  - It also proves how `NextAt`, the link invariant and the key/value map change when a node is spliced in or unlinked.
- `skiplist_steps.dfy`, module `SkipSteps`: one lemma per step of the operations, showing how it keeps `Inv`. The steps are one iteration of each loop, a whole splice, a whole unlink, the overwrite, and the pool's allocation and release.
- `skiplist.dfy`, module `Skiplist`: the class `SkipList` with the arena, `level`, `size` and the free list as fields. Its methods carry the loops of the Go code. Each is specified against the ghost map `contents` and the invariant `Valid()`.
- `stack.dfy`, module `Stack`: the class `Stack` over the slice's elements (`seq<T>`) and its capacity, with `New` and two client methods that check the LIFO behaviour.

## Model

| member | source | states |
|---|---|---|
| Skiplist.SkipList.constructor | skiplist/skip_list.go:43-47 | A new list is valid and empty: no pairs, level 0, size 0. The head has no successor at any level. Its zero value is the one passed in. |
| Skiplist.SkipList.CreateNode | skiplist/skip_list.go:153-159 | Takes the most recently freed slot from the pool, or a new blank slot when the pool is empty. It sets height, key and value. All links stay nil, and the chain and the other slots are unchanged. |
| Skiplist.SkipList.FreeNode | skiplist/skip_list.go:161-170 | The node becomes blank: zero value, every link nil, level 0, key 0. It goes back to the pool. Nothing else changes. |
| Skiplist.SkipList.Search | skiplist/skip_list.go:76-83 | The descent from the top level. `update[t]` is the node at the predecessor coordinate of the key's place at each level `t <= level`, and nil above. The level-0 successor of `update[0]` is the node at the place where the key is or belongs. |
| Skiplist.SkipList.Advance | skiplist/skip_list.go:79-81 | The inner loop at level `i` stops exactly at the last node before the key's place that reaches level `i`. That node is the start node or has a smaller key, and its successor at level `i` is nil or has a key at least `key`. |
| Skiplist.SkipList.Get | skiplist/skip_list.go:51-69 | Returns true exactly when the key is in the map, and then the mapped value. Otherwise it returns the zero value and false. Nothing changes. |
| Skiplist.SkipList.Insert | skiplist/skip_list.go:73-106 | The map becomes `contents[key := val]`. For a present key, level, size, chain, pool and every node's links, key and height stay unchanged. For a new key, size grows by 1 and level becomes `max(old level, height)`. A chain node then holds the key with that height. |
| Skiplist.SkipList.InsertNew | skiplist/skip_list.go:91-105 | Inserting an absent key keeps `Valid()`, adds the pair and increments size. The node at the key's place holds the key with height `lvl`. |
| Skiplist.SkipList.Raise | skiplist/skip_list.go:92-97 | When the new height is above the level, the head becomes the predecessor at the new levels and the level rises to the height. The trail then reaches the height. |
| Skiplist.SkipList.Splice | skiplist/skip_list.go:100-103 | After the loop, at each level `0..lvl` the new node links to its predecessor's old successor, and the predecessor links to the new node. No other link changes. |
| Skiplist.SkipList.Unlink | skiplist/skip_list.go:129-134 | The loop bypasses the node at exactly the levels `0..height`. It stops just above the node's height: at the break, where the predecessor no longer links to the node, or at the loop bound when the height equals the list's level. |
| Skiplist.SkipList.Delete | skiplist/skip_list.go:110-144 | Returns true exactly when the key was present. The map becomes `contents - {key}`. For an absent key, nothing changes. For a present key, size drops by 1 and level does not rise. |
| Skiplist.SkipList.DeleteFound | skiplist/skip_list.go:129-143 | Removing the node at the key's place keeps `Valid()`, removes its key from the map and decrements size. |
| Skiplist.SkipList.ShrinkLevel | skiplist/skip_list.go:136-138 | The level drops to the highest level at or below the old one where the head links somewhere, or to 0. Nothing else changes. |
| Skiplist.SkipList.Size | skiplist/skip_list.go:147-151 | The size is the number of pairs in the map. |
| SkipIndex.RandomLevel | skiplist/skip_list.go:172-174 | The height is the drawn sample clamped to the maximum level: `min(m, sample)`. |
| SkipIndex.Locate | skiplist/skip_list.go:61-68 | A key is in the map exactly when the level-0 node at its lower-bound place holds it. The value there is the mapped value. |
| SkipIndex.ChainMapFind | skiplist/skip_list.go:61-68 | The map built from a sorted chain holds a key exactly when the chain's lower-bound coordinate holds it, with that coordinate's value. |
| SkipIndex.ChainMapSize | skiplist/skip_list.go:105 | A sorted chain of n nodes after the head yields a map of n pairs. The size counter is therefore the map's size. |
| SkipIndex.ChainMapInsert | skiplist/skip_list.go:99-105 | Putting a new key and value at the key's lower-bound place keeps the chain sorted. The map gains exactly that pair. |
| SkipIndex.ChainMapUpdate | skiplist/skip_list.go:85-89 | Overwriting the value at a coordinate maps that coordinate's key to the new value and leaves every other pair as it was. |
| SkipIndex.ChainMapRemove | skiplist/skip_list.go:129-141 | Taking a coordinate out of a sorted chain keeps it sorted. The map loses exactly that coordinate's key. |
| SkipIndex.SortedInsert | skiplist/skip_list.go:99-103 | A key between its neighbours keeps the chain strictly increasing. |
| SkipIndex.SortedRemove | skiplist/skip_list.go:129-134 | Removing a node keeps the chain strictly increasing. |
| SkipIndex.NextAtInsert | skiplist/skip_list.go:100-103 | Inserting a node of height h at coordinate p moves the next node reaching level t as follows: unchanged before p; to p when h reaches t and the old one was at or after p; otherwise shifted by one. |
| SkipIndex.NextAtRemove | skiplist/skip_list.go:129-134 | Removing coordinate p moves the next node reaching level t as follows: unchanged before p; otherwise to the old next one after p, shifted back by one. |
| SkipIndex.LinkedFromAll | skiplist/skip_list.go:32-37 | The recursive link invariant holds exactly when every node's links agree with the heights. |
| SkipIndex.LinkAt | skiplist/skip_list.go:32-37 | In a valid chain, the link at level `t` of the node at coordinate `c` leads to the next node reaching `t` when `t` is at most the node's height, and is nil above. |
| SkipIndex.LinksIntro | skiplist/skip_list.go:32-37 | Links that agree with the heights at every node and level make the chain's link invariant hold. |
| SkipIndex.ChainFrame | skiplist/skip_list.go:153-159 | Changing arena slots outside the chain leaves the chain's heights, keys, values and links as they were. |
| SkipIndex.SpliceLinks | skiplist/skip_list.go:100-103 | After splicing node s at levels `0..h` through the predecessors, every link agrees with the chain that has s inserted at p. |
| SkipIndex.UnlinkLinks | skiplist/skip_list.go:129-134 | After bypassing the node at levels `0..height`, every link agrees with the chain without it. |
| SkipIndex.UnlinkStopsAtHeight | skiplist/skip_list.go:129-134 | The predecessor at level t links to the node exactly when t is at most the node's height. A node occupies its levels without gaps, so the loop's early break is sound. |
| SkipSteps.LevelIncreasing | skiplist/skip_list.go:56-58 | Along every level, keys strictly increase: a link from a non-head node at level t leads to a larger key. The node it reaches has height at least t. |
| SkipSteps.EmptyAboveLevel | skiplist/skip_list.go:136-138 | In a valid list, the head links nowhere above the current level. |
| SkipSteps.HeightsBelowLevel | skiplist/skip_list.go:136-138 | When the head links nowhere above a level, no node is taller than that level. |
| SkipSteps.StepRight | skiplist/skip_list.go:56 | At the descent's current node, the loop test holds exactly when the next node at level i lies before the key's place. |
| SkipSteps.Candidate | skiplist/skip_list.go:61 | The level-0 successor of the last predecessor is the node at the key's place, or nil past the end. |
| SkipSteps.InvFrame | skiplist/skip_list.go:153-159 | Slots outside the chain that change within the pool's rules leave the invariant intact. |
| SkipSteps.OverwriteInv | skiplist/skip_list.go:85-89 | Writing a new value into a chain node keeps the invariant. The map maps that node's key to the new value. |
| SkipSteps.SpliceStep | skiplist/skip_list.go:101-102 | One iteration of the splice loop extends the spliced levels by one. |
| SkipSteps.UnlinkStep | skiplist/skip_list.go:133 | One iteration of the unlink loop extends the bypassed levels by one. |
| SkipSteps.UnlinkIter | skiplist/skip_list.go:130-133 | At level i the break test fails exactly when i is at most the node's height. In that case the iteration extends the bypassed levels. |
| SkipSteps.SplicePool | skiplist/skip_list.go:99-103 | The pool stays blank and disjoint from the chain after a splice. |
| SkipSteps.UnlinkPool | skiplist/skip_list.go:129-134 | The pool stays blank and disjoint from the chain after an unlink. |
| SkipSteps.SpliceOrdered | skiplist/skip_list.go:92-103 | After the splice, the arena, distinctness, heights within the new level, and sortedness hold. |
| SkipSteps.SpliceTop | skiplist/skip_list.go:92-97 | After a splice, the head links somewhere at `max(old level, h)`, unless that is 0. |
| SkipSteps.SpliceInv | skiplist/skip_list.go:91-105 | Splicing a fresh node keeps the invariant, with one more element, level `max(level, h)` and the pair added. |
| SkipSteps.UnlinkOrdered | skiplist/skip_list.go:129-138 | After the unlink and the shrink, the arena, distinctness, heights within the new level, and sortedness hold. |
| SkipSteps.UnlinkInv | skiplist/skip_list.go:129-140 | Unlinking the node and shrinking the level keeps the invariant, with one element fewer and the key removed. |
| SkipSteps.AllocatePool | skiplist/skip_list.go:153-158 | The allocated slot is outside the chain and the pool and holds the new node. Every other slot is unchanged, and the rest of the pool stays valid. |
| SkipSteps.AllocateReady | skiplist/skip_list.go:99 | A freshly allocated node can be spliced at its place. |
| SkipSteps.InsertInv | skiplist/skip_list.go:99-105 | Allocation followed by the splice keeps the invariant, with the new node holding the key at the key's place. |
| SkipSteps.ReleaseInv | skiplist/skip_list.go:161-170 | Blanking a removed node and handing it to the pool keeps the invariant. |
| SkipSteps.UnlinkedTop | skiplist/skip_list.go:129-134 | Unlinking does not make the head link anywhere above the old level. |
| SkipSteps.DeleteInv | skiplist/skip_list.go:129-141 | Unlinking, shrinking and freeing the node keeps the invariant, with one element fewer and the key removed. |
| Stack.Stack.constructor | stack/stack.go:61 | A new slice is empty, with the given capacity. |
| Stack.Stack.Len | stack/stack.go:16-18 | The length is the number of elements and never exceeds the capacity. |
| Stack.Stack.Cap | stack/stack.go:21-23 | The capacity is never below the length. |
| Stack.Stack.Peek | stack/stack.go:43-48 | Returns the top element and true, or the zero value and false when empty. Nothing changes. |
| Stack.Stack.Pop | stack/stack.go:28-35 | On a non-empty stack, returns the top element and true, drops it, and keeps the rest and the capacity. On an empty stack, returns the zero value and false and changes nothing. |
| Stack.Stack.Push | stack/stack.go:38-40 | The element goes on top and the ones below are unchanged. The capacity stays unless the slice was full, and then it grows. |
| Stack.InitialCapacity | stack/stack.go:57-61 | With no argument or a negative one the capacity is 0; otherwise it is the argument. |
| Stack.New | stack/stack.go:55-69 | More than one argument is refused. Otherwise the stack is new and empty, with capacity `InitialCapacity(args)`. |
| Stack.PushPop | stack/stack.go:28-40 | A pop right after a push returns the pushed value and restores the contents. |
| Stack.PushThreePopThree | stack/stack_test.go:97-115 | Pushing 1, 2, 3 and popping three times yields 3, 2, 1. The length is then 0, and one more pop fails. |

## Left out

- Locking: the read/write mutex of `SkipList` is not modelled. Every operation is atomic.
- Node pool: `sync.Pool` is modelled as a LIFO free list of blank arena slots. The real pool may hand out any pooled node, or a new one, and may drop pooled nodes; the model does not capture this.
- Pointers: pointers are modelled as arena slot numbers. Go's garbage collection and node identity beyond the slot are not modelled.
- Random heights: the geometric sampler (`math.Log`, `math.Ceil`, `rand.Float64`), its check that the probability lies in (0,1), and `LAYER_PROMOTION_PROB` are not modelled. `Insert` receives the drawn sample as a parameter, and `RandomLevel` clamps it as `defaultRngLevelGen` does.
- Skiplist.SkipList.constructor: takes the zero value of `T` as a parameter, because Dafny has no generic zero value. `Get` returns it for a missing key, and `FreeNode` writes it into freed nodes.
- Skiplist.SkipList.Get: uses the same descent method as `Insert` and `Delete`. The Go `Get` repeats that loop without recording the trail.
- Helper methods: the loops of `Insert` and `Delete` are split into `Advance`, `Raise`, `Splice`, `Unlink` and `ShrinkLevel`, and the two branches into `InsertNew` and `DeleteFound`. The statements and their order are unchanged.
- Stack.Stack.Push: when the slice is full, the new capacity is only bounded below (it grows). Go's `append` growth depends on the element size and the allocator's size classes. The model doubles the capacity, or sets it to 1 from 0.
- Stack.New: a call with more than one argument returns null instead of panicking.
- Stack.New: the argument list is a value. With a negative argument, Go writes 0 into the variadic slice itself. When the caller passes its own slice (`New(xs...)`), the caller sees that write; the model does not capture it.
- Stack.Stack.constructor: takes the zero value of `T`, which `Pop` and `Peek` return on an empty stack.
- Go's `Stack` interface: not modelled separately. The class is the only implementation.
- Other files: `main.go` (a console demo) and the skip-list benchmarks are not part of this model.
- Integer widths: keys and counters are unbounded integers. Go's `int` is 32 or 64 bits wide depending on the platform. Overflow is not modelled.
