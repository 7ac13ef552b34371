# Buffered chunk store

A model of maidsafe's `BufferedChunkStore`: a chunk store
that puts an in-memory write cache in front of a durable tier. Chunks are
named byte strings.

The model has three parts:

- **The memory cache.** It is bounded by a byte capacity; 0 means unbounded.
  It keeps its chunks in first-in, first-out order. A new chunk evicts the
  oldest chunks until it fits. A chunk larger than the whole capacity is
  refused and nothing is evicted. Storing a name that is already cached
  succeeds and changes nothing: not the content, not the size, not the
  chunk's place in the eviction order. Lowering the capacity below the
  current usage clamps it to the usage.
- **The durable tier.** It never evicts on its own. A chunk can be marked
  removable. When a new chunk does not fit, the tier removes marked chunks,
  oldest mark first, until the chunk fits. If even all marked chunks would
  not free enough room, the store fails and nothing is removed.
- **The unified store.** A chunk is known while either tier holds it.
  Count and size are taken over the union of the names, so a chunk held by
  both tiers counts once. A store writes the chunk to both tiers. A read
  prefers the cache; a read that misses the cache copies the chunk back
  into it. A delete removes the chunk from both tiers.

Files:

- `chunks.dfy` holds the values both tiers share: entries, sums, lookups and
  the capacity arithmetic.
- `memory_cache.dfy` holds the specification of FIFO eviction (`Evicted`,
  `StoreStep`) and the `Cache` class.
- `durable_store.dfy` holds the specification of reclamation
  (`MarkedSize`, `ReclaimLength`), the reclamation loop and the `Durable`
  class.
- `buffered_chunk_store.dfy` holds the union count and size and the
  `BufferedChunkStore` class, which composes one `Cache` and one `Durable`.
- `scenarios.dfy` holds the test suite's scenarios, stated over the
  specification functions with the suite's exact sizes and counts.

Name validation is a parameter, `Validation`, which holds two checks on a
name and its content: one for chunks stored in both tiers, one for chunks
placed in the cache only. The system derives names from SHA-512 digests of
the content, but the checks do not tie a name to one content: the durable
tier accepts chunks under random names. That hashing is not part of this
model, and names and contents are arbitrary. The two tiers still agree on
the content of every name they share. A store writes the cached content
through, a read copies the durable content into the cache, and a cache-only
store under a durable name changes nothing. A new chunk also needs
a non-empty name and non-empty content. A file source is modelled as its
content, or as `Unreadable`, which delivers no content.

## Model

| member | source | states |
|---|---|---|
| Chunks.Clamped | maidsafe_common_lib/src/maidsafe/common/tests/buffered_chunk_store_test.cc:393-396 | A requested capacity is kept exactly when the current usage fits under it. Otherwise the usage becomes the capacity. 0 (unbounded) is always kept. |
| Chunks.Lookup | maidsafe_common_lib/src/maidsafe/common/tests/buffered_chunk_store_test.cc:199-200 | A lookup finds content exactly for the names held. The content found is the stored entry's, and with distinct names it is that name's only entry. |
| Chunks.Without | maidsafe_common_lib/src/maidsafe/common/tests/buffered_chunk_store_test.cc:318-330 | Removing names keeps exactly the other entries. The remaining names are the old ones minus the removed ones. Nothing is removed when no name matches. |
| Chunks.LookupSnocOther | maidsafe_common_lib/src/maidsafe/common/tests/buffered_chunk_store_test.cc:256-264 | Appending a chunk changes no lookup of another name. |
| Chunks.WithoutKeepsOrder | maidsafe_common_lib/src/maidsafe/common/tests/buffered_chunk_store_test.cc:318-330 | The entries left after a removal are a subsequence of the old ones: they keep their relative order. |
| Chunks.WithoutPositions | maidsafe_common_lib/src/maidsafe/common/tests/buffered_chunk_store_test.cc:318-330 | Any two entries left after a removal stand in the old list in the same order as in the new one. |
| MemoryCache.Evicted | maidsafe_common_lib/src/maidsafe/common/tests/buffered_chunk_store_test.cc:354-359 | Eviction keeps a suffix of the cache, the youngest entries, and leaves room for the incoming bytes. |
| MemoryCache.EvictedMinimal | maidsafe_common_lib/src/maidsafe/common/tests/buffered_chunk_store_test.cc:369-375 | Eviction stops as soon as there is room: every longer suffix still lacks room. |
| MemoryCache.EvictedExactly | maidsafe_common_lib/src/maidsafe/common/tests/buffered_chunk_store_test.cc:385-391 | When dropping the oldest k entries is the first count that makes room, eviction removes exactly those k. |
| MemoryCache.StoreStep | maidsafe_common_lib/src/maidsafe/common/tests/buffered_chunk_store_test.cc:343-391 | A cache store adds no entry other than the new chunk. Afterwards the name is cached exactly when it was cached before or its content fits into the empty cache. |
| MemoryCache.StoreStepEvicts | maidsafe_common_lib/src/maidsafe/common/tests/buffered_chunk_store_test.cc:354-391 | A store of a new name that fits evicts exactly the oldest k entries, k being the first count that leaves room. The new chunk then becomes the youngest entry. |
| MemoryCache.UnboundedAppends | maidsafe_common_lib/src/maidsafe/common/tests/buffered_chunk_store_test.cc:192-208 | An unbounded cache never evicts: a new chunk is appended. |
| MemoryCache.StoreStepLookupOther | maidsafe_common_lib/src/maidsafe/common/tests/buffered_chunk_store_test.cc:217-231 | A cache store changes no other name's content: another name still cached afterwards reads as before. |
| MemoryCache.StoreStepKeepsValid | maidsafe_common_lib/src/maidsafe/common/tests/buffered_chunk_store_test.cc:343-391 | Every store keeps the names distinct and the cached bytes within the capacity. |
| MemoryCache.StoreStepContent | maidsafe_common_lib/src/maidsafe/common/tests/buffered_chunk_store_test.cc:217-231 | After a store, a name already cached keeps its earlier content whatever was offered. A new name holds the new content when it fits, and nothing when it cannot. No other name appears. |
| MemoryCache.VacantMeansNoEviction | maidsafe_common_lib/src/maidsafe/common/tests/buffered_chunk_store_test.cc:341-370 | The cache is vacant for n bytes exactly when a store of n bytes evicts nothing. |
| MemoryCache.EvictOldest | maidsafe_common_lib/src/maidsafe/common/tests/buffered_chunk_store_test.cc:385-391 | The eviction loop pops the oldest entries and keeps a running total. It ends with exactly the specified eviction and the total of what is left. |
| MemoryCache.Admit | maidsafe_common_lib/src/maidsafe/common/tests/buffered_chunk_store_test.cc:354-375 | Admitting a new chunk gives the specified store step and its exact total. Names stay distinct and the total stays within capacity. |
| MemoryCache.RemoveAll | maidsafe_common_lib/src/maidsafe/common/tests/buffered_chunk_store_test.cc:521-525 | Removing names one at a time while keeping a running total ends with exactly the entries without those names, and their exact total. |
| MemoryCache.Cache.constructor | maidsafe_common_lib/src/maidsafe/common/tests/buffered_chunk_store_test.cc:161-168 | A new cache is empty, with size 0 and capacity 0 (unbounded). |
| MemoryCache.Cache.Has | maidsafe_common_lib/src/maidsafe/common/tests/buffered_chunk_store_test.cc:204-208 | A name is cached exactly when a read from the cache finds content for it. |
| MemoryCache.Cache.Get | maidsafe_common_lib/src/maidsafe/common/tests/buffered_chunk_store_test.cc:226-231 | Content read from the cache is that of a cached entry, the name's only one. A miss means no entry has the name. |
| MemoryCache.Cache.Count | maidsafe_common_lib/src/maidsafe/common/tests/buffered_chunk_store_test.cc:204-206 | The cache count is the number of distinct cached names. |
| MemoryCache.Cache.Empty | maidsafe_common_lib/src/maidsafe/common/tests/buffered_chunk_store_test.cc:184-188 | The cache is empty exactly when no name is cached, and exactly when its count is 0. |
| MemoryCache.Cache.Vacant | maidsafe_common_lib/src/maidsafe/common/tests/buffered_chunk_store_test.cc:340-348 | Only content that fits into the empty cache can be vacant. For such content the cache is vacant exactly when a store of that size evicts nothing. |
| MemoryCache.Cache.Store | maidsafe_common_lib/src/maidsafe/common/tests/buffered_chunk_store_test.cc:343-435 | A store succeeds exactly when the name is cached or the content fits into an empty cache. The new entries are the specified FIFO store step. |
| MemoryCache.Cache.Delete | maidsafe_common_lib/src/maidsafe/common/tests/buffered_chunk_store_test.cc:318-323 | A delete reports whether the name was cached and removes exactly that name. |
| MemoryCache.Cache.DeleteAll | maidsafe_common_lib/src/maidsafe/common/tests/buffered_chunk_store_test.cc:521-525 | Removes exactly the given names, one at a time, and keeps the size equal to the sum of the remaining entries. |
| MemoryCache.Cache.Clear | maidsafe_common_lib/src/maidsafe/common/tests/buffered_chunk_store_test.cc:451-457 | Clearing empties the cache and keeps its capacity. |
| MemoryCache.Cache.SetCapacity | maidsafe_common_lib/src/maidsafe/common/tests/buffered_chunk_store_test.cc:393-396 | The new capacity is the clamped one, and nothing is evicted. |
| DurableStore.ReclaimLength | maidsafe_common_lib/src/maidsafe/common/tests/buffered_chunk_store_test.cc:521-525 | Gives the shortest run of oldest marks whose chunks free at least the shortfall: that run frees enough and every shorter run does not. |
| DurableStore.MarkedSizeOfPrefix | maidsafe_common_lib/src/maidsafe/common/tests/buffered_chunk_store_test.cc:508-514 | With the first k stored chunks marked, exactly their bytes can be reclaimed. |
| DurableStore.MarkedSizeWithout | maidsafe_common_lib/src/maidsafe/common/tests/buffered_chunk_store_test.cc:318-330 | Removing an unmarked chunk does not change what can be reclaimed. |
| DurableStore.MarkedSizeBounded | maidsafe_common_lib/src/maidsafe/common/tests/buffered_chunk_store_test.cc:518-519 | Distinct marks of stored chunks never free more than the tier holds. |
| DurableStore.ReclaimingStep | maidsafe_common_lib/src/maidsafe/common/tests/buffered_chunk_store_test.cc:521-525 | While not enough is freed, the oldest remaining mark names a stored chunk. Removing it frees exactly that chunk's size. |
| DurableStore.ReclaimingDone | maidsafe_common_lib/src/maidsafe/common/tests/buffered_chunk_store_test.cc:521-525 | A reclamation that has freed enough stopped at the shortest sufficient run of marks and leaves a valid tier. |
| DurableStore.RemoveMarked | maidsafe_common_lib/src/maidsafe/common/tests/buffered_chunk_store_test.cc:521-525 | The reclamation loop removes exactly the shortest sufficient run of oldest marks. The records, the remaining marks and the size are as specified, and the tier stays valid. |
| DurableStore.Append | maidsafe_common_lib/src/maidsafe/common/tests/buffered_chunk_store_test.cc:508-509 | Appending a chunk under a new name adds exactly its size and its name, and keeps the names distinct. |
| DurableStore.Durable.constructor | maidsafe_common_lib/src/maidsafe/common/tests/buffered_chunk_store_test.cc:161-168 | A new durable tier is empty and unbounded, with nothing marked. |
| DurableStore.Durable.Has | maidsafe_common_lib/src/maidsafe/common/tests/buffered_chunk_store_test.cc:262-264 | A name is durable exactly when a read from the durable tier finds content for it. |
| DurableStore.Durable.Get | maidsafe_common_lib/src/maidsafe/common/tests/buffered_chunk_store_test.cc:276-283 | Content read from the durable tier is that of a durable record, the name's only one. A miss means no record has the name. |
| DurableStore.Durable.Count | maidsafe_common_lib/src/maidsafe/common/tests/buffered_chunk_store_test.cc:289-298 | The durable count is the number of distinct durable names. |
| DurableStore.Durable.CanAdmit | maidsafe_common_lib/src/maidsafe/common/tests/buffered_chunk_store_test.cc:518-522 | A chunk that fits beside what is held is admitted. Otherwise it is admitted exactly when it would fit once every marked chunk were gone. So a chunk larger than the whole capacity is never admitted, however much is marked. |
| DurableStore.Durable.ToReclaim | maidsafe_common_lib/src/maidsafe/common/tests/buffered_chunk_store_test.cc:518-522 | Nothing is reclaimed when the chunk already fits. Otherwise the oldest marks are taken, as few as free enough room. |
| DurableStore.Durable.MarkedSpace | maidsafe_common_lib/src/maidsafe/common/tests/buffered_chunk_store_test.cc:518-519 | The loop returns the total size of the marked chunks. |
| DurableStore.Durable.Reclaim | maidsafe_common_lib/src/maidsafe/common/tests/buffered_chunk_store_test.cc:521-525 | Removes the shortest run of oldest marked chunks that frees the shortfall, with their marks. The size drops by exactly their bytes. |
| DurableStore.Durable.MakeRoom | maidsafe_common_lib/src/maidsafe/common/tests/buffered_chunk_store_test.cc:518-522 | Succeeds exactly when the tier can admit the bytes, reclaiming what is specified. Otherwise it removes nothing. On success the bytes fit. |
| DurableStore.Durable.Store | maidsafe_common_lib/src/maidsafe/common/tests/buffered_chunk_store_test.cc:508-525 | A store succeeds exactly for a name already held or for a chunk that can be admitted. A held name or a failed store changes nothing. Otherwise the specified marked chunks are reclaimed and the new chunk is appended. |
| DurableStore.Durable.MarkForDeletion | maidsafe_common_lib/src/maidsafe/common/tests/buffered_chunk_store_test.cc:511 | Marks a held chunk once, as the youngest mark, and reports whether it is held. The records are unchanged. |
| DurableStore.Durable.Delete | maidsafe_common_lib/src/maidsafe/common/tests/buffered_chunk_store_test.cc:318-330 | Removes the chunk and its mark, and reports whether it was held. |
| DurableStore.Durable.SetCapacity | maidsafe_common_lib/src/maidsafe/common/tests/buffered_chunk_store_test.cc:504-505 | The new capacity is the clamped one, and the records are unchanged. |
| BufferedStore.UnionCountIsNames | maidsafe_common_lib/src/maidsafe/common/tests/buffered_chunk_store_test.cc:289-298 | The store's count is the number of distinct names held by either tier. |
| BufferedStore.UnionSizeIsNames | maidsafe_common_lib/src/maidsafe/common/tests/buffered_chunk_store_test.cc:289-298 | The store's size is the sum, over every name either tier holds, of the size held under it: the durable copy's, else the cached copy's. |
| BufferedStore.UnionSizeWithout | maidsafe_common_lib/src/maidsafe/common/tests/buffered_chunk_store_test.cc:318-330 | Taking one name out of both tiers lowers the store's size by exactly what that name held. |
| BufferedStore.HeldSizesWithout | maidsafe_common_lib/src/maidsafe/common/tests/buffered_chunk_store_test.cc:318-330 | Taking one name out of both tiers leaves the sizes held under every other name unchanged. |
| BufferedStore.AgreeWithout | maidsafe_common_lib/src/maidsafe/common/tests/buffered_chunk_store_test.cc:318-330 | Removing the same names from both tiers keeps them agreeing on every name they share. |
| BufferedStore.AgreeDurableSnoc | maidsafe_common_lib/src/maidsafe/common/tests/buffered_chunk_store_test.cc:256-264 | Appending a new durable chunk keeps the tiers agreeing when the cache holds that name with the same content or not at all. |
| BufferedStore.AgreeCacheStep | maidsafe_common_lib/src/maidsafe/common/tests/buffered_chunk_store_test.cc:276-283 | A cache store keeps the tiers agreeing when the durable tier lacks the name or holds it with the stored content. |
| BufferedStore.WriteThroughAgree | maidsafe_common_lib/src/maidsafe/common/tests/buffered_chunk_store_test.cc:256-264 | A write-through, with its reclaimed chunks leaving both tiers, keeps the tiers agreeing on every name they share. |
| BufferedStore.CachedWithinDurable | maidsafe_common_lib/src/maidsafe/common/tests/buffered_chunk_store_test.cc:266-274 | When every cached chunk is durable, the store counts and measures exactly the durable tier. |
| BufferedStore.WriteThroughCached | maidsafe_common_lib/src/maidsafe/common/tests/buffered_chunk_store_test.cc:256-264 | After a write-through, the cache returns the written content for the name. |
| BufferedStore.BufferedChunkStore.constructor | maidsafe_common_lib/src/maidsafe/common/tests/buffered_chunk_store_test.cc:161-168 | A new store has an empty, unbounded cache and an empty, unbounded durable tier. |
| BufferedStore.BufferedChunkStore.Has | maidsafe_common_lib/src/maidsafe/common/tests/buffered_chunk_store_test.cc:262-264 | A chunk is known exactly when its name is among those either tier holds. |
| BufferedStore.BufferedChunkStore.Count | maidsafe_common_lib/src/maidsafe/common/tests/buffered_chunk_store_test.cc:289-298 | The count is the number of distinct names held by either tier. |
| BufferedStore.BufferedChunkStore.Size | maidsafe_common_lib/src/maidsafe/common/tests/buffered_chunk_store_test.cc:266-274 | The size is at least the durable tier's and at most both tiers' together. It is exactly the durable tier's while every cached chunk is durable. |
| BufferedStore.BufferedChunkStore.Empty | maidsafe_common_lib/src/maidsafe/common/tests/buffered_chunk_store_test.cc:318-330 | The store is empty exactly when it knows no chunk. |
| BufferedStore.BufferedChunkStore.CacheStore | maidsafe_common_lib/src/maidsafe/common/tests/buffered_chunk_store_test.cc:170-249 | A cache-only store succeeds exactly for a non-empty name that is cached or durable, or whose content the caching check accepts and which fits. Empty content, including an unreadable file's, is refused for a new name. A new name makes the cache the FIFO store step; otherwise it stays unchanged. The tiers keep agreeing. |
| BufferedStore.BufferedChunkStore.WriteThrough | maidsafe_common_lib/src/maidsafe/common/tests/buffered_chunk_store_test.cc:256-264 | Writing a chunk to both tiers succeeds exactly when the durable tier can admit it. On failure nothing changes. On success both tiers return the content, the reclaimed chunks leave the cache too, and the new state is given exactly. |
| BufferedStore.BufferedChunkStore.Store | maidsafe_common_lib/src/maidsafe/common/tests/buffered_chunk_store_test.cc:256-264 | A store succeeds exactly when the accepting conditions hold. A failure, or a name already durable, changes nothing. On success the chunk is known and durable, and both tiers return the first-written content. |
| BufferedStore.BufferedChunkStore.Get | maidsafe_common_lib/src/maidsafe/common/tests/buffered_chunk_store_test.cc:276-283 | A read finds a chunk exactly when either tier holds it, preferring the cache. A durable chunk reads back its durable content whichever tier serves it. A cache miss served by the durable tier copies the chunk into the cache. |
| BufferedStore.BufferedChunkStore.Delete | maidsafe_common_lib/src/maidsafe/common/tests/buffered_chunk_store_test.cc:318-330 | A delete reports whether the chunk was known and removes it from both tiers, mark included. The chunk is then unknown. |
| BufferedStore.BufferedChunkStore.CacheClear | maidsafe_common_lib/src/maidsafe/common/tests/buffered_chunk_store_test.cc:266-274 | Clearing the cache leaves count and size those of the durable tier. When every cached chunk was durable they are unchanged. |
| BufferedStore.BufferedChunkStore.SetCacheCapacity | maidsafe_common_lib/src/maidsafe/common/tests/buffered_chunk_store_test.cc:343-344 | The cache capacity becomes the clamped one; nothing is evicted. |
| BufferedStore.BufferedChunkStore.SetCapacity | maidsafe_common_lib/src/maidsafe/common/tests/buffered_chunk_store_test.cc:504-505 | The durable capacity becomes the clamped one; nothing is removed. |
| BufferedStore.BufferedChunkStore.MarkForDeletion | maidsafe_common_lib/src/maidsafe/common/tests/buffered_chunk_store_test.cc:511 | Marks a durable chunk removable once and reports whether the durable tier holds it. |
| Scenarios.CacheStoreTrace | maidsafe_common_lib/src/maidsafe/common/tests/buffered_chunk_store_test.cc:179-231 | Stores with empty content, an empty name or an unreadable file are refused. Chunks of 123 and 456 bytes are cached in order, for sizes 123 and 579. Re-storing a cached name with any content changes nothing. |
| Scenarios.CacheStoreThird | maidsafe_common_lib/src/maidsafe/common/tests/buffered_chunk_store_test.cc:240-248 | A third, 333-byte chunk joins the two cached ones, for three entries and 912 bytes. |
| Scenarios.ThreeCachedRead | maidsafe_common_lib/src/maidsafe/common/tests/buffered_chunk_store_test.cc:226-242 | Each of three cached chunks reads back with its own content. |
| Scenarios.ReplayUnbounded | maidsafe_common_lib/src/maidsafe/common/tests/buffered_chunk_store_test.cc:439-449 | Storing chunks with distinct names into an unbounded cache keeps every one of them, in order. |
| Scenarios.CacheClearFill | maidsafe_common_lib/src/maidsafe/common/tests/buffered_chunk_store_test.cc:439-449 | Twenty 100-byte chunks are all kept, for a count of 20 and 2000 bytes. |
| Scenarios.CapacityFill | maidsafe_common_lib/src/maidsafe/common/tests/buffered_chunk_store_test.cc:340-359 | An unbounded cache is vacant for any size. At capacity 125 it is vacant for 125 bytes and not for 126. A 100-byte chunk is stored; a 50-byte chunk evicts it. |
| Scenarios.CapacityFillBeside | maidsafe_common_lib/src/maidsafe/common/tests/buffered_chunk_store_test.cc:361-367 | A 25-byte chunk fits beside the 50-byte one, for 75 bytes. |
| Scenarios.CapacityFifo | maidsafe_common_lib/src/maidsafe/common/tests/buffered_chunk_store_test.cc:369-383 | A 100-byte chunk evicts only the oldest entry, for 125 bytes. Storing it again changes nothing. |
| Scenarios.CapacityFifoAll | maidsafe_common_lib/src/maidsafe/common/tests/buffered_chunk_store_test.cc:385-391 | Re-storing did not refresh the order, so a 50-byte chunk evicts both remaining chunks. |
| Scenarios.CapacityClamp | maidsafe_common_lib/src/maidsafe/common/tests/buffered_chunk_store_test.cc:393-435 | A limit of 10 over 50 cached bytes clamps to 50. A 100-byte chunk is then refused without eviction, and a 25-byte chunk evicts the 50-byte one. Raised to 100, the cache takes a 100-byte chunk by evicting. |
| Scenarios.StoreNew | maidsafe_common_lib/src/maidsafe/common/tests/buffered_chunk_store_test.cc:251-262 | A new chunk is stored into unbounded tiers, evicting nothing. It is counted and measured, and it is appended to both tiers. |
| Scenarios.ClearThenGet | maidsafe_common_lib/src/maidsafe/common/tests/buffered_chunk_store_test.cc:266-283 | Clearing the cache changes neither count nor size. A read of a durable chunk then returns its content and leaves it as the only cached chunk. |
| Scenarios.StoreClearGet | maidsafe_common_lib/src/maidsafe/common/tests/buffered_chunk_store_test.cc:251-283 | A new chunk is stored, counted and measured. Clearing the cache changes neither count nor size. A read then misses the cache, returns the chunk from the durable tier and leaves it as the only cached chunk. |
| Scenarios.TenChunks | maidsafe_common_lib/src/maidsafe/common/tests/buffered_chunk_store_test.cc:508-514 | Each of ten 256-byte chunks fits under 2570 bytes beside the earlier ones. Together they hold 2560 bytes, all reclaimable once marked. |
| Scenarios.TenChunksAllReclaimed | maidsafe_common_lib/src/maidsafe/common/tests/buffered_chunk_store_test.cc:521-522 | Freeing 2550 bytes takes every one of the ten marked chunks. |
| Scenarios.OnlyNewChunkLeft | maidsafe_common_lib/src/maidsafe/common/tests/buffered_chunk_store_test.cc:521-525 | Once every durable chunk is reclaimed, the new chunk is alone in both tiers, for count 1 and its own size. |
| Scenarios.StoreWithRemovable | maidsafe_common_lib/src/maidsafe/common/tests/buffered_chunk_store_test.cc:497-526 | With ten marked 256-byte chunks under capacity 2570, a 2580-byte chunk is refused. A 2560-byte chunk reclaims all ten, leaving count 1 and size 2560. |

## Left out

- Concurrency is left out: the worker pool, the asynchronous transfer of cached chunks to the durable tier, retries, the not-durable state after failed retries, and waiting for pending transfers. A store writes both tiers at once. The concurrent suites `BEH_WaitForTransfer` and `BEH_CacheFlooding` are therefore not modelled.
- Chunks with a pending transfer are never exempt from eviction here, because nothing is ever pending.
- Filesystem I/O is left out: creating files, the store directory and the delete-source-file flag of path-based stores. A file source is its content, or unreadable.
- `Get` into a file path is modelled as `Get` returning the content.
- SHA-512 hashing and the hash-based chunk validation are left out. They are replaced by the `Validation` parameter, which may accept any name with any content.
- Sizes and capacities are unsigned machine integers in the system and unbounded naturals here. Overflow of the capacity arithmetic is not modelled.
- Reference counting and the shared typed chunk-store suite are left out. That suite's body is not part of this model.
- `Clear` of the whole store is left out; only the concurrency suite uses it.
- Initialisation of the durable tier with a directory, and its failure before initialisation, are left out. Both tiers are usable from construction.
- BufferedStore.BufferedChunkStore.Store: on success for a name that is not yet durable, the marked chunks the durable tier reclaims also leave the cache. The test suite does not say what happens to cached copies of reclaimed chunks. Removing them is what makes the count of 1 after the 2560-byte store hold when the cache is unbounded and still holds the ten chunks.
- BufferedStore.BufferedChunkStore.Store: a name that is cached but not durable is written through with its cached content, not the content offered. This follows the rule that the first write of a name wins.
- Scenarios.StoreWithRemovable: the durable tier is reached through its own state, given as a precondition. The ten stores and marks that lead there are stated one by one in Scenarios.TenChunks rather than replayed through the store object.
- Scenarios.StoreClearGet: it follows one chunk through store, cache clear and read. The suite's second chunk and its final deletes are covered by the same contracts, not by a second replay.
- BufferedStore.BufferedChunkStore.CacheStore: a cache-only store under a name the durable tier holds but the cache does not succeeds and leaves the cache unchanged. The test suite does not pin this case. This choice keeps the cache from holding other content than the durable tier under one name.
