# Verified models of the CppCommon hash tables, token bucket and line codec

The project models the parts of CppCommon whose correctness depends on an invariant
spanning several functions, and proves what they are for:

- **Bytell table** (`Bytell.dfy`, `BytellGrowth.dfy`, `BytellSteps.dfy`, `BytellChains.dfy`, `BytellJumps.dfy`):
  a hash map that threads its collision chains through one control byte per slot. `BytellChains` holds the chain invariant (every
  list entry is linked from exactly one slot, with the same home, one step deeper) and what it implies
  for whole chains; `BytellSteps` shows what each edit does to chains and elements together; `BytellGrowth`
  says exactly when an insertion has to make the table larger; `BytellJumps` holds the jump distances;
  `Bytell.Table` is the table itself, with its control bytes and elements updated in place.
- **Flat table** (`Flat.dfy`, `FlatProbe.dfy`, `FlatGrowth.dfy`): Robin Hood open addressing with a bounded probe length
  and a sentinel. `FlatProbe` holds the order of distances and each step of insertion and removal,
  `FlatGrowth` exactly when an insertion has to make the table larger;
  `Flat.Table` is the table.
- **Token bucket** (`TokenBucket.dfy`): a state machine whose steps are the clock reading, the load, the
  refusal and the won or lost compare-and-swap of any number of threads, with 64-bit wrap-around
  written out, and the method `Consume` as a run of it.
- **Table sizes** (`Words.dfy`, `GrowthPolicy.dfy`, `HashPolicy.dfy`, `Naturals.dfy`): the bit tricks on
  64-bit words, the hopscotch power-of-two growth policy, and the two policies that map a hash to a slot.
- **Line codec** (`LineCodec.dfy`): writing lines to a sink and reading them back page by page.

Both tables stand for a finite map, `Contents()`. Every operation is stated as an operation on that
map, whatever it displaces, evicts, moves or grows inside, and `Run` states it for every sequence of
insertions, removals by key, by position and by range, clearings and rehashes. A position must be one of the
table at the moment of the operation; for the flat table a range must not be an empty one before a displaced
element. `Slots.dfy` relates slots to maps.

When a table grows is part of what is proved. `NeedsGrowth` is a condition on the table before the insertion of an
absent key. Without it the key goes to the place stated and the table keeps its arrays; with it the table asks for
`GrownSize()`, the least size of the policy that doubles the table and keeps the maximal load. It ends with exactly
that size unless the keys crowd it (`Crowds`): some table of that size, at rest and holding some of the keys, has no
room for another of them. Few keys crowd no table, whatever the hash function: in the flat table as many as there
are lookups, in the bytell table up to fifteen (`FewFit`).

## What the proofs show about the code

- Erasing an **empty range** of the flat table destroys elements. `erase(it, it)` does what it should if and
  only if the element at `it` is in its home slot or `it` is the end; otherwise that element and the run of
  displaced elements behind it are destroyed while the element count stays (`Flat.Table.EraseRange`,
  `FlatProbe.EmptyRangeExample`). The bytell table treats the empty range separately and is not affected.
- `TokenBucket::Consume` **does not clamp again on a retry**, and the burst bound is false of it. The rate
  bound holds in every interleaving. The burst bound holds whenever the grants that cost something are clamped,
  and a grant is clamped if and only if it is made at the first attempt or the reloaded time is not before the
  caller's burst (`ClampedExactly`). A run of ten steps whose only failure is genuine grants twenty tokens at one
  instant out of a burst of ten (`BurstBroken`). In general, as long as all earlier grants are clamped or cost
  nothing, a grant leaves the burst bound safe from every further lone call if and only if it costs nothing, or
  is made at the first attempt, or its reloaded time is not before the burst (`RetryKeepsBurstExactly`).
- In 64-bit arithmetic a grant raises the shared time by the cost of its tokens if and only if the sum fits the
  word, in every run (`PaidExactly`). A caller is sure to pay, whatever time up to its clock it finds, if and only
  if its clock plus its delay (the cost modulo 2^64) fits the word and, besides, its cost fits the word or its
  delay exceeds its clock (`AlwaysPaidExactly`). A request near 2^64 tokens wraps around and is granted (`OverflowIsGranted`).
- `ReadAllLines` drops a last line that has no end, and nothing else (`UnclosedLineDropped`). `ReadAllBytes`
  takes a short read for the end of the input; it is complete if and only if no read before the last is short.
- `next_power_of_two` and `round_up_to_power_of_two` are right exactly from 1 to 2^63; outside, the first gives
  0, and the second gives 1 for 0 and 0 above 2^63. `log2(0)` is 63.

## Modelling decisions

- A slot is an optional element; the control bytes and the distances are separate arrays. Blocks of the bytell
  table are flattened: slot i is byte i mod BlockSize of block i / BlockSize.
- Growth need not end for every hash function (all keys may share one hash). The model has a `limit`, the
  largest slot count the allocator serves. Beyond it an insertion or a rehash fails, and it fails only then:
  `OutOfMemory` implies that the next size exceeds the limit, and that the key did not fit the table as it was.
  What the table holds after such a failure is not stated.
- The maximal load factor is a fraction `loadNum / loadDen`. The table of primes is any increasing list.
- The compare-and-swap may fail spuriously in the machine; where a result needs genuine failures it says so.
- Where the growth policy throws, the model returns `None`.

## Model

| member | source | states |
|---|---|---|
| BytellChains.JumpOnly | performance/flat_hash_map/bytell_hash_map.hpp:38-50 | replacing the jump of a byte in use never makes it read as empty or reserved, and keeps the direct-hit bit |
| BytellChains.CutDetaches | performance/flat_hash_map/bytell_hash_map.hpp:832-840 | clearing the link into a list entry leaves that entry as the only one that is not linked |
| BytellChains.AppendLinks | performance/flat_hash_map/bytell_hash_map.hpp:934-936 | linking a free slot behind the end of a chain keeps every chain linked, also while another entry is detached |
| BytellChains.DropPassesOn | performance/flat_hash_map/bytell_hash_map.hpp:896-904 | vacating the detached entry makes its successor the only detached one, or leaves none |
| BytellChains.PlantIsSound | performance/flat_hash_map/bytell_hash_map.hpp:913-914 | a slot without an element may become a head, even one that was reserved |
| BytellChains.DropHeadIsSound | performance/flat_hash_map/bytell_hash_map.hpp:605-611 | a head without further links may be vacated: no other element has it as its home |
| BytellChains.DropLastIsSound | performance/flat_hash_map/bytell_hash_map.hpp:602-608 | the last link of a chain may be vacated once its parent's link is cleared |
| BytellChains.OnExactlyOneChain | performance/flat_hash_map/bytell_hash_map.hpp:826-831 | walking by links from the heads reaches an element from its own home, after exactly its depth, and from nowhere else: chains are disjoint, acyclic and unforked |
| BytellChains.DepthBound | performance/flat_hash_map/bytell_hash_map.hpp:417-436 | no chain is as long as the table, so every walk ends |
| BytellChains.ChainEnds | performance/flat_hash_map/bytell_hash_map.hpp:432-434 | every chain reaches a link with jump index 0 within the slot count |
| BytellSteps.AbsentWithoutChain | performance/flat_hash_map/bytell_hash_map.hpp:424-428 | a key whose home is no direct hit is not stored anywhere |
| BytellSteps.PassLink | performance/flat_hash_map/bytell_hash_map.hpp:430-435 | passing a link that is not the key either leads one deeper on the same chain or proves the key absent from the whole table |
| BytellSteps.RelocateStep | performance/flat_hash_map/bytell_hash_map.hpp:892-905 | moving the detached entry behind the linked part keeps the map, all homes and all other links, and passes the detachment on |
| BytellSteps.EvictionStep | performance/flat_hash_map/bytell_hash_map.hpp:890-912 | each round of the eviction loop keeps every element; it ends with all chains sound and the slot free, or continues one link further with only that slot reserved |
| BytellSteps.BeginEviction | performance/flat_hash_map/bytell_hash_map.hpp:882-890 | a sound table with a foreign list entry at the slot is a start of the eviction |
| BytellSteps.EraseElement | performance/flat_hash_map/bytell_hash_map.hpp:599-604 | moving an element of the same chain into the erased slot removes exactly the erased key |
| BytellSteps.LinkSettles | performance/flat_hash_map/bytell_hash_map.hpp:934-937 | adding a link keeps the invariant and adds exactly the key |
| BytellSteps.PlantSettles | performance/flat_hash_map/bytell_hash_map.hpp:913-915 | adding a head keeps the invariant, adds exactly the key and ends the reservation |
| BytellSteps.VacateLastSettles | performance/flat_hash_map/bytell_hash_map.hpp:599-608 | giving up the last link of a chain keeps the invariant and removes exactly the key of the erased slot |
| BytellSteps.VacateHeadSettles | performance/flat_hash_map/bytell_hash_map.hpp:605-611 | giving up a lone head keeps the invariant and removes exactly its key |
| BytellJumps.JumpsAreTriangular | performance/flat_hash_map/bytell_hash_map.hpp:51-78 | the jump distances are the first sixteen integers, then the next triangular numbers, then triangular numbers whose roots grow by one and a half |
| BytellGrowth.FirstFreeFinds | performance/flat_hash_map/bytell_hash_map.hpp:959-969 | the first jump to an empty slot is the least one that leads to one, and 0 only if none does |
| BytellGrowth.MovesExactly | performance/flat_hash_map/bytell_hash_map.hpp:890-912 | a link of an evicted tail is moved exactly if some jump from the link before it is free |
| BytellGrowth.OneLinkEvictable | performance/flat_hash_map/bytell_hash_map.hpp:882-917 | a tail of one link can be evicted exactly if some jump from its parent is free |
| BytellGrowth.StuckForGood | performance/flat_hash_map/bytell_hash_map.hpp:906-911 | an eviction that meets no free jump with links left never ends |
| BytellGrowth.OneEnd | performance/flat_hash_map/bytell_hash_map.hpp:486-488 | a chain has one end, so the place of a new link is determined |
| BytellGrowth.BlockedMeansMany | performance/flat_hash_map/bytell_hash_map.hpp:959-969 | if no jump from a link is free, all of the next fifteen slots, but for a reserved one, hold elements |
| BytellGrowth.FewAreEvictable | performance/flat_hash_map/bytell_hash_map.hpp:890-917 | with few elements every eviction in progress comes to its end, whatever the hash function |
| BytellGrowth.FewKeysFit | performance/flat_hash_map/bytell_hash_map.hpp:864-939 | up to fifteen keys, fewer than there are slots and within the load, never crowd a table, whatever the hash function |
| Bytell.Table.constructor | performance/flat_hash_map/bytell_hash_map.hpp:748-752 | a new table satisfies the invariant and holds nothing |
| Bytell.Table.NextLink | performance/flat_hash_map/bytell_hash_map.hpp:826-831 | the cursor's keep_in_range step leads to the next link |
| Bytell.Table.NextProbe | performance/flat_hash_map/bytell_hash_map.hpp:419-435 | the index_for_hash step of lookup leads to the same next link, for both policies |
| Bytell.Table.Locate | performance/flat_hash_map/bytell_hash_map.hpp:464-491 | the walk common to lookup and insertion ends; it finds the key if and only if it is in the map, and otherwise stops at the place where the key belongs |
| Bytell.Table.Find | performance/flat_hash_map/bytell_hash_map.hpp:411-437 | a slot is returned if and only if the key is in the map, and it holds the key with its value |
| Bytell.Table.FindFreeIndex | performance/flat_hash_map/bytell_hash_map.hpp:959-969 | the first jump that leads to an empty slot, and 0 if and only if no jump does |
| Bytell.Table.FindParentBlock | performance/flat_hash_map/bytell_hash_map.hpp:947-957 | terminates and returns the one slot that links to the entry |
| Bytell.Table.Emplace | performance/flat_hash_map/bytell_hash_map.hpp:464-491 | the new map is the old one plus the key if it was absent, with the slot and the flag returned, and within the maximal load; the table grows exactly when the condition on its old state holds, to the size stated unless that is crowded; otherwise the key goes to its home or the first free jump behind its chain and the arrays stay; the first key is placed by one growth, if its size is within the limit and one element within its load; a present key is found without failing and changes nothing |
| Bytell.Table.EmplaceNewKey | performance/flat_hash_map/bytell_hash_map.hpp:920-939 | the same for a key whose chain exists |
| Bytell.Table.TryLink | performance/flat_hash_map/bytell_hash_map.hpp:928-938 | links the key behind its chain exactly if the table is not full and some jump from the chain's end is free |
| Bytell.Table.EvictTail | performance/flat_hash_map/bytell_hash_map.hpp:880-912 | evicting a foreign tail keeps the map; it ends with sound chains and the slot free exactly if moving link by link to first free slots ends, and else gives up with every element stored at a link from which no jump is free |
| Bytell.Table.EmplaceDirectHit | performance/flat_hash_map/bytell_hash_map.hpp:864-918 | the new map is the old one plus the key, also when the eviction gives up and the table grows from the half-evicted state; it grows exactly when it must |
| Bytell.Table.TryPlant | performance/flat_hash_map/bytell_hash_map.hpp:864-918 | places the key in its home exactly if the table is not full and the home is empty or its foreign tail can be evicted |
| Bytell.Table.Rehash | performance/flat_hash_map/bytell_hash_map.hpp:528-574 | keeps the map and re-establishes the invariant from any state whose used slots hold the elements, links broken or not, under nested growth; ends with exactly the slots asked for unless the keys crowd that size; fails on every size beyond the limit, and otherwise only after such crowding; changes nothing when the size is the present one |
| Bytell.Table.Refill | performance/flat_hash_map/bytell_hash_map.hpp:555-572 | inserting the old slots one by one rebuilds their map, skipping empty and reserved bytes |
| Bytell.Table.Grow | performance/flat_hash_map/bytell_hash_map.hpp:971-974 | keeps the map, repairs the chains and strictly enlarges the table, to exactly the size asked for unless the keys crowd it |
| Bytell.Table.GrownSizeIsLeast | performance/flat_hash_map/bytell_hash_map.hpp:971-974 | that size is the least of the policy that is at least ten, twice the bucket count and enough for the maximal load |
| Bytell.Table.FewFit | performance/flat_hash_map/bytell_hash_map.hpp:864-939 | up to fifteen keys crowd no table that may hold them |
| Bytell.Table.LastLink | performance/flat_hash_map/bytell_hash_map.hpp:590-598 | the walk ends at the end of the chain, deeper than the start, together with its parent |
| Bytell.Table.Erase | performance/flat_hash_map/bytell_hash_map.hpp:587-614 | removes exactly the element of the slot; gives up that slot or a deeper one of the chain, and no other slot changes |
| Bytell.Table.EraseKey | performance/flat_hash_map/bytell_hash_map.hpp:660-670 | removes exactly the key and returns whether it was there |
| Bytell.Table.Clear | performance/flat_hash_map/bytell_hash_map.hpp:672-692 | leaves the empty map and no byte in use |
| Bytell.Table.Advance | performance/flat_hash_map/bytell_hash_map.hpp:348-359 | the next lower slot with an element, or the end |
| Bytell.Table.Begin | performance/flat_hash_map/bytell_hash_map.hpp:384-388 | the highest slot with an element, or the end |
| Bytell.Table.Iterate | performance/flat_hash_map/bytell_hash_map.hpp:348-405 | a full iteration visits every stored element exactly once |
| Bytell.Table.DepthInChain | performance/flat_hash_map/bytell_hash_map.hpp:630-646 | the counted distance is the depth in the chain |
| Bytell.SortByDepth | performance/flat_hash_map/bytell_hash_map.hpp:648 | a permutation ordered by depth |
| Bytell.UntouchedStep | performance/flat_hash_map/bytell_hash_map.hpp:648-652 | erasing a deepest listed slot does not disturb the slots still to be erased |
| Bytell.Table.EraseDeepestFirst | performance/flat_hash_map/bytell_hash_map.hpp:648-652 | erasing the listed slots deepest first removes exactly the elements they held at the start |
| Bytell.Table.EraseRange | performance/flat_hash_map/bytell_hash_map.hpp:616-658 | removes exactly the elements of the range, for every range, and returns where an iteration goes on |
| Bytell.Table.SizeIsCount | performance/flat_hash_map/bytell_hash_map.hpp:752 | the element count is the number of slots in use |
| Bytell.Table.StoredOnOwnChain | performance/flat_hash_map/bytell_hash_map.hpp:411-437 | each stored element lies on exactly one chain, the one headed by its key's home slot, which is a direct hit |
| Slots.HistoryByKey | performance/flat_hash_map/bytell_hash_map.hpp:464-692 | for operations by key the map at the end depends on the map at the start alone, not on where the elements are kept in between |
| Bytell.Table.EraseAt | performance/flat_hash_map/bytell_hash_map.hpp:587-614 | erasing the element at a position removes exactly what the slot holds |
| Bytell.Table.Perform | performance/flat_hash_map/bytell_hash_map.hpp:464-692 | each operation, by key, by position or by range, refines its operation on maps |
| Bytell.Table.Run | performance/flat_hash_map/bytell_hash_map.hpp:464-692 | so does every sequence of these operations, from every valid table, with what each removal by position removes read off the slots at that moment; it stops early only on a position that is none or a size beyond the limit |
| FlatProbe.GrowsSlowly | performance/flat_hash_map/flat_hash_map.hpp:575-587 | from one slot to another the distance grows by at most their separation |
| FlatProbe.AbsentBeyond | performance/flat_hash_map/flat_hash_map.hpp:539-549 | a slot closer to its home than the probe proves the key absent from the whole table |
| FlatProbe.ProbeStep | performance/flat_hash_map/flat_hash_map.hpp:543-547 | a slot the probe compares holds an element and is not the sentinel, and the probe is still within max_lookups |
| FlatProbe.BeforeSentinel | performance/flat_hash_map/flat_hash_map.hpp:841-865 | a carried element is never placed at or beyond the sentinel |
| FlatProbe.PlaceCarried | performance/flat_hash_map/flat_hash_map.hpp:843-848 | putting the carried element into an empty slot restores order and adds exactly its key |
| FlatProbe.DisplaceNext | performance/flat_hash_map/flat_hash_map.hpp:849-854 | a swap keeps order, homes and the map made of stored plus carried |
| FlatProbe.PassNext | performance/flat_hash_map/flat_hash_map.hpp:855-858 | carrying past an element keeps the carried one placeable |
| FlatProbe.PutBack | performance/flat_hash_map/flat_hash_map.hpp:858-862 | swapping the carried element into the result slot gives exactly the old map, with one stored distance wrong |
| FlatProbe.ShiftHole | performance/flat_hash_map/flat_hash_map.hpp:676-680 | shifting back keeps homes and the map, moves the hole on and stays before the sentinel |
| FlatProbe.ShiftGap | performance/flat_hash_map/flat_hash_map.hpp:698-705 | a move always goes into an empty slot and leaves a gap of the moved width, also when the width shrinks |
| FlatProbe.ClosingStep | performance/flat_hash_map/flat_hash_map.hpp:698-705 | each round of the gap-closing loop, for a gap (elements move) and for none (each element passed is destroyed) |
| FlatProbe.RangeErasedAfter | performance/flat_hash_map/flat_hash_map.hpp:684-707 | the destroyed range and the loop together bring about the stated outcome |
| FlatProbe.RangeLost | performance/flat_hash_map/flat_hash_map.hpp:694-705 | an empty range before a displaced element loses that element and its run |
| FlatProbe.EmptyRangeExample | performance/flat_hash_map/flat_hash_map.hpp:694-705 | a concrete table of two keys loses one of them |
| FlatGrowth.ProbeEndIsFirst | performance/flat_hash_map/flat_hash_map.hpp:578-585 | the walk for a new key stops at the first slot closer to its own home than the probe |
| FlatGrowth.DisplacingOn | performance/flat_hash_map/flat_hash_map.hpp:849-857 | through the displacement loop the carried distance is one more than the old distance of the slot before |
| FlatGrowth.DisplacingEnds | performance/flat_hash_map/flat_hash_map.hpp:843-848 | an empty slot ends the loop only if no element of the run was as far from its home as allowed |
| FlatGrowth.FarMeansMany | performance/flat_hash_map/flat_hash_map.hpp:822-866 | a key that does not fit for its distance, or that of an element it pushes on, meets as many elements as lookups are allowed |
| FlatGrowth.FewKeysFit | performance/flat_hash_map/flat_hash_map.hpp:822-866 | as many keys as there are lookups, within the load, never crowd a table, whatever the hash function |
| Flat.Table.constructor | performance/flat_hash_map/flat_hash_map.hpp:172-176 | the default table of min_lookups entries satisfies the invariant and holds nothing |
| Flat.Table.Locate | performance/flat_hash_map/flat_hash_map.hpp:575-587 | stops inside the array within max_lookups + 1 slots; finds the key if and only if it is in the map; otherwise stops where the key may go without breaking the order |
| Flat.Table.Find | performance/flat_hash_map/flat_hash_map.hpp:539-549 | a slot is returned if and only if the key is in the map, and it holds the key with its value |
| Flat.Table.Emplace | performance/flat_hash_map/flat_hash_map.hpp:575-587 | the new map is the old one plus the key if it was absent, with the slot and the flag returned, and within the maximal load; the table grows exactly when the condition on its old distances holds, to the size stated unless that is crowded; otherwise the key goes where its walk stops and the arrays stay; the first key is placed by one growth, if its size is within the limit and one element within its load; a present key is found without failing and changes nothing |
| Flat.Table.EmplaceNewKey | performance/flat_hash_map/flat_hash_map.hpp:822-866 | the same for an absent key, through placing, displacing and growing |
| Flat.Table.TryEmplace | performance/flat_hash_map/flat_hash_map.hpp:822-866 | places the key without growing exactly if the table has more than one slot, the probe is short enough, the load allows it and no element is pushed too far |
| Flat.Table.PassOrPutBack | performance/flat_hash_map/flat_hash_map.hpp:855-864 | exactly at max_lookups the carried element is put back and the map is the old one |
| Flat.Table.Displace | performance/flat_hash_map/flat_hash_map.hpp:837-866 | the displacement loop gives up exactly if the run of occupied slots holds an element already as far from its home as allowed; otherwise the key is added and the invariant restored, and on giving up the map is the old one with possibly wrong distances |
| Flat.Table.ComputeMaxLookups | performance/flat_hash_map/flat_hash_map.hpp:796-800 | computed by the multiply-and-table logarithm: the larger of min_lookups and the floor logarithm of the slot count, and at most 63, so every distance fits a signed byte |
| Flat.Table.Rehash | performance/flat_hash_map/flat_hash_map.hpp:624-658 | keeps the map and restores the invariant even when stored distances are wrong, under nested growth; ends with exactly the slots asked for unless the keys crowd that size; fails on every size beyond the limit, and otherwise only after such crowding; changes nothing when the size is the present one |
| Flat.Table.Refill | performance/flat_hash_map/flat_hash_map.hpp:648-656 | inserting the old slots before the sentinel rebuilds their map |
| Flat.Table.Grow | performance/flat_hash_map/flat_hash_map.hpp:868-871 | keeps the map, repairs the distances and strictly enlarges the table, to exactly the size asked for unless the keys crowd it |
| Flat.Table.GrownSizeIsLeast | performance/flat_hash_map/flat_hash_map.hpp:868-871 | that size is the least of the policy that is at least four, twice the bucket count and enough for the maximal load |
| Flat.Table.FewFit | performance/flat_hash_map/flat_hash_map.hpp:822-866 | as many keys as there are lookups crowd no table that may hold them |
| Flat.Table.Erase | performance/flat_hash_map/flat_hash_map.hpp:671-682 | removes exactly the element of the slot and restores the invariant, so every other key stays findable |
| Flat.Table.CloseUp | performance/flat_hash_map/flat_hash_map.hpp:676-680 | the backward shift ends at the sentinel at the latest, keeps the map and closes the hole |
| Flat.Table.EraseKey | performance/flat_hash_map/flat_hash_map.hpp:709-719 | removes exactly the key and returns whether it was there |
| Flat.Table.DestroyRange | performance/flat_hash_map/flat_hash_map.hpp:686-693 | destroys exactly the elements of the range and counts them |
| Flat.Table.CloseGapAt | performance/flat_hash_map/flat_hash_map.hpp:696-706 | over a gap, restores the invariant with the same map and returns where the first element went; over none, drops the run |
| Flat.Table.EraseRange | performance/flat_hash_map/flat_hash_map.hpp:684-707 | removes exactly the elements of the range if it is not empty or stands before an element in its home, and exactly then; the returned position is pinned, and is the end for a range up to the end |
| Flat.Table.Clear | performance/flat_hash_map/flat_hash_map.hpp:721-729 | leaves the empty map; the sentinel stays |
| Flat.Table.SkipEmpty | performance/flat_hash_map/flat_hash_map.hpp:473-481 | the next slot with an element, or the sentinel |
| Flat.Table.Iterate | performance/flat_hash_map/flat_hash_map.hpp:506-529 | a full iteration visits every stored element exactly once |
| Flat.Table.SizeIsCount | performance/flat_hash_map/flat_hash_map.hpp:794 | the element count is the number of slots in use |
| Flat.Table.EraseAt | performance/flat_hash_map/flat_hash_map.hpp:671-682 | erasing the element at a position removes exactly what the slot holds |
| Flat.Table.Perform | performance/flat_hash_map/flat_hash_map.hpp:575-729 | each operation, by key, by position or by range, refines its operation on maps |
| Flat.Table.Run | performance/flat_hash_map/flat_hash_map.hpp:575-729 | so does every sequence of these operations, from every valid table, with what each removal by position removes read off the slots at that moment; it stops early only on a position that is none, an empty range before a displaced element, or a size beyond the limit |
| HashPolicy.Policy.IndexForHash | performance/flat_hash_map/flat_hash_map.hpp:1230-1248 | both policies give the remainder by the slot count |
| HashPolicy.Policy.KeepInRange | performance/flat_hash_map/flat_hash_map.hpp:1234-1252 | so does wrapping an index that has jumped past the end |
| HashPolicy.Policy.LowerBound | performance/flat_hash_map/flat_hash_map.hpp:1217-1219 | the least listed prime that is large enough, or the largest one |
| HashPolicy.Policy.NextSizeOver | performance/flat_hash_map/flat_hash_map.hpp:1217-1257 | the least listed prime, or the least power of two, that is large enough (the last prime if none is), and large enough whenever it fits the limit |
| HashPolicy.Policy.SlotsForIsLeast | performance/flat_hash_map/flat_hash_map.hpp:624-635 | the slot count of a rehash is the least size of the policy that has room for the items and keeps the elements within the maximal load, and 1 when there is nothing to keep |
| Naturals.CeilDivCovers | performance/flat_hash_map/flat_hash_map.hpp:626 | rounding a quotient up gives the least multiple that covers the dividend |
| Naturals.MaskIsMod | performance/flat_hash_map/flat_hash_map.hpp:1245-1248 | masking with a power of two less one is the remainder, for every hash |
| Naturals.CeilPowerOfTwoIsLeast | performance/flat_hash_map/flat_hash_map.hpp:1253-1257 | no power of two lies between a number and the one chosen |
| Words.SmearStep | performance/flat_hash_map/flat_hash_map.hpp:256-261 | one or-shift doubles the reach of every bit, for every word and width |
| Words.Smear | performance/flat_hash_map/flat_hash_map.hpp:221-226 | six steps set exactly the bits up to the highest one |
| Words.NextPowerOfTwo | performance/flat_hash_map/flat_hash_map.hpp:253-264 | the least power of two at or above v for v from 1 to 2^63, and 0 otherwise |
| Words.LogOfPower | performance/flat_hash_map/flat_hash_map.hpp:210-227 | multiplication and table find the exponent of each of the 64 powers of two |
| Words.Log2 | performance/flat_hash_map/flat_hash_map.hpp:208-228 | the floor of the logarithm of every non-zero word, 63 for 0 |
| Words.PowerByMask | performance/hopscotch-map/hopscotch_growth_policy.h:125-127 | the mask test is true exactly for powers of two |
| Words.RoundUpToPowerOfTwo | performance/hopscotch-map/hopscotch_growth_policy.h:108-123 | the loop gives the same least power of two as the unrolled form from 1 to 2^63, 1 for 0, 0 above |
| GrowthPolicy.PowerOfTwoGrowth.Configure | performance/hopscotch-map/hopscotch_growth_policy.h:58-70 | refuses exactly the counts above 2^63, else chooses the least sufficient power of two and the matching mask; 0 stays 0 |
| GrowthPolicy.PowerOfTwoGrowth.BucketForHash | performance/hopscotch-map/hopscotch_growth_policy.h:76-78 | the masked hash is the remainder by the bucket count |
| GrowthPolicy.PowerOfTwoGrowth.NextBucketCount | performance/hopscotch-map/hopscotch_growth_policy.h:83-89 | refuses exactly when the product exceeds 2^63; otherwise the new count is a power of two and the new buckets refine the old ones |
| GrowthPolicy.PowerOfTwoGrowth.Clear | performance/hopscotch-map/hopscotch_growth_policy.h:103-105 | every hash is mapped to bucket 0 |
| TokenBucket.WinWrites | source/algorithms/token_bucket.cpp:31-39 | without wrap-around a grant raises the shared time by at least its cost and leaves it at or below its caller's clock |
| TokenBucket.StepFrame | source/algorithms/token_bucket.cpp:15-44 | a step leaves the calls of all other threads alone, and only a granted attempt changes the shared time or the grants, by one |
| TokenBucket.StepOwn | source/algorithms/token_bucket.cpp:17-43 | a step ends its own call exactly when it refuses or grants; a load or a failure goes on with the same request from the time as it is now; a grant records the call's tokens and clock |
| TokenBucket.InvReachable | source/algorithms/token_bucket.cpp:15-44 | the invariant of all calls in progress and of the ledger of grants, in every reachable state of every interleaving |
| TokenBucket.TimeNeverDecreases | source/algorithms/token_bucket.cpp:38 | no step of any run lowers the shared time |
| TokenBucket.RateBound | source/algorithms/token_bucket.cpp:15-44 | in every run the tokens granted times the time per token are at most the last served clock minus the initial time |
| TokenBucket.TokensTogether | source/algorithms/token_bucket.cpp:31-39 | the tokens of two lots of grants add up |
| TokenBucket.WindowOfAll | source/algorithms/token_bucket.cpp:31-39 | a window over every clock costs all the tokens granted, one over none nothing |
| TokenBucket.WindowCovered | source/algorithms/token_bucket.cpp:23-39 | grants in a window that are clamped or cost nothing together cost at most a burst plus the window |
| TokenBucket.BurstBound | source/algorithms/token_bucket.cpp:18-39 | in every run whose grants in the window are clamped or cost nothing, the burst bound holds for the window, whichever window |
| TokenBucket.ClampedExactly | source/algorithms/token_bucket.cpp:24-42 | a grant is clamped if and only if it is the first attempt or the reloaded time is not before the burst |
| TokenBucket.FirstTryBurstBound | source/algorithms/token_bucket.cpp:18-39 | in every run without a failed attempt the burst bound holds for every window |
| TokenBucket.GenuineFailure | source/algorithms/token_bucket.cpp:38-42 | a failure that is not spurious loads a strictly later time and is due to another call's grant |
| TokenBucket.RetriesBounded | source/algorithms/token_bucket.cpp:28-43 | in every run without spurious failures a call retries at most its clock minus the time first loaded, plus one |
| TokenBucket.NeverStuck | source/algorithms/token_bucket.cpp:28-43 | a call can always take a step that is not a spurious failure, and exactly one |
| TokenBucket.PaidExactly | source/algorithms/token_bucket.cpp:18-38 | in every run, calm or not, a grant raises the shared time by its cost if and only if base plus cost fits the word |
| TokenBucket.AlwaysPaidExactly | source/algorithms/token_bucket.cpp:18-42 | exactly which requests pay for what they are granted at the first attempt and at a retry, whatever time up to their clock they find: a condition on request and clock alone |
| TokenBucket.OverflowIsGranted | source/algorithms/token_bucket.cpp:18-39 | a concrete request that wraps around and is granted |
| TokenBucket.UnclampedRunExists | source/algorithms/token_bucket.cpp:41-42 | a concrete run with a genuine failure and an unclamped grant |
| TokenBucket.BurstBroken | source/algorithms/token_bucket.cpp:18-42 | a concrete run without spurious failures grants twenty tokens at one instant out of a burst of ten |
| TokenBucket.LoneCall | source/algorithms/token_bucket.cpp:15-39 | a call that meets no other gets, at once, any number of tokens that fit what is left of the burst |
| TokenBucket.UnclampedBreaksBurst | source/algorithms/token_bucket.cpp:41-42 | after any unclamped grant that costs something, some lone call is granted and breaks the burst bound |
| TokenBucket.LoneCallClamped | source/algorithms/token_bucket.cpp:15-39 | a call that meets no other adds one grant, and it is clamped |
| TokenBucket.HarmlessCallsStayWithin | source/algorithms/token_bucket.cpp:15-44 | while all grants are clamped or cost nothing, no window of the run, nor of the run with one more lone call, exceeds the burst bound |
| TokenBucket.BurstKeptExactly | source/algorithms/token_bucket.cpp:24-42 | if all earlier grants are clamped or cost nothing, no lone call can break the burst bound if and only if the last grant is clamped or costs nothing |
| TokenBucket.RetryKeepsBurstExactly | source/algorithms/token_bucket.cpp:24-42 | the same by the guard of the retry: the grant costs nothing, or is a first attempt, or its reloaded time is not before the burst |
| TokenBucket.Bucket.constructor | include/algorithms/token_bucket.inl:11-17 | the rates of a new bucket, with the wrap-around of the burst |
| TokenBucket.Bucket.Consume | source/algorithms/token_bucket.cpp:15-44 | the call is a run of the machine; exactly when it is granted and what it leaves, with and without a spurious failure |
| LineCodec.SplitRestores | source/common/reader.cpp:44-56 | splitting at end-of-line bytes loses nothing: closing the lines restores the text |
| LineCodec.LineStandsAt | source/common/writer.cpp:25-31 | every line, empty or not, is written with its mark right behind the lines before it, and the whole is as long as the lines and marks together |
| LineCodec.SplitEncode | source/common/writer.cpp:20-34 | splitting what was written gives back every line, the empty ones too, each followed by one more empty line per further byte of the mark |
| LineCodec.NonEmptyAppend | source/common/reader.cpp:48-52 | a line is kept, in its place, exactly if it is not empty |
| LineCodec.DecodeEncode | source/common/writer.cpp:20-34 | reading what was written gives the list without its empty lines, for both end-line marks |
| LineCodec.RoundTripExactly | source/common/reader.cpp:38-59 | the non-empty lines come back if and only if no line holds an end-of-line byte, and all lines if and only if moreover none is empty |
| LineCodec.UnclosedLineDropped | source/common/reader.cpp:44-58 | a last line without an end is dropped, and nothing else is |
| LineCodec.Writer.WriteLines | source/common/writer.cpp:20-34 | the count is that of the lines whose text and mark the sink took in full, up to the first that it did not; of that one exactly the part taken is written |
| LineCodec.CompleteExactly | source/common/reader.cpp:23-27 | the page loop gets everything if and only if no read before the last is short |
| LineCodec.DeliveredPages | source/common/reader.cpp:23-27 | the page loop gets some full pages and then the first read that is not full |
| LineCodec.Reader.ReadAllBytes | source/common/reader.cpp:15-30 | the bytes delivered up to the first short read, and all bytes exactly under that condition |
| LineCodec.Reader.ReadAllLines | source/common/reader.cpp:38-59 | the closed non-empty lines of those bytes, in order |
| LineCodec.Transfer | source/common/writer.cpp:20-34 | through a writer that takes everything and a reader that delivers full pages, every list of lines comes back without its empty lines, whatever its size |

## Left out

- Allocators, copy and move of tables, exceptions thrown by element types, construction and destruction of elements, and raw memory layout: a slot is an optional element.
- The padding bytes of the last block of a bytell table, which stay empty, and the block pointers of its iterators; the end iterator is -1.
- Bytell.Table.Emplace: after `OutOfMemory` nothing is said of the elements; the original throws from the allocator in the middle of an insertion.
- Flat.Table.Emplace: the same.
- HashPolicy.Policy.NextSizeOver: a power of two above 2^63 is a size beyond the limit here; in the original it wraps to 0.
- Slot arithmetic is on unbounded naturals: `index + jump` does not wrap at 64 bits. The load factor is an exact fraction, without floating-point rounding, and is fixed for the life of a table.
- reserve, shrink_to_fit, swap, equal_range, count, operator[], at and the comparison of tables: short compositions of the operations modelled.
- The conversion of the result of a single erase into an iterator; range erase, which settles its result in the same way, is modelled.
- The literal list of primes and its modulo functions, and prime_growth_policy: the list is any increasing one and the function chosen is modulo the size chosen.
- mod_growth_policy: it depends on floating-point rounding.
- Memory orders of the token bucket: the shared time is one atomic cell with interleaving steps. Assignment to a bucket during a run.
- TokenBucket.RateBound: clocks are at least the length of a burst, and clocks and costs are below 2^63; outside, `PaidExactly` says when a grant is still paid for.
- TokenBucket.RetryKeepsBurstExactly: the burst is a whole number of tokens, as the constructor makes it unless its product wraps, and the clock of the grant is a token's time or more below 2^63.
- The clock, the sink behind a writer and the source behind a reader are parameters: a clock reading per call, and how many bytes each write takes or each read delivers.
- The rest of the library (trees, queues, allocators, file system, processes, time zones, encodings, 128- and 256-bit integers, synchronisation primitives).
