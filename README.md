# A verified model of the `hamt` hash array mapped trie

This project models the core of `hamt`, a C implementation of Bagwell's hash
array mapped trie (HAMT), and proves properties of that model in Dafny. It also
models the library's pooled table allocator, its Sedgewick universal string
hash, and the bit-string formatter of its test utilities.

- **The trie** (`bits.dfy`, `hash.dfy`, `nodes.dfy`, `search.dfy`,
  `insert.dfy`, `remove.dfy`, `hamt.dfy`).
  - A node is a value: a leaf holding a key and its value, or a table holding
    a 32-bit bitmap and one row per set bit.
  - A key's hash is consumed five bits per level. When its 30 usable bits
    are spent, the key is hashed again with the next generation.
  - `Nodes.Contents` maps a node to the finite map it stands for.
  - `Nodes.Valid` is the routing invariant: every key sits in the row that
    its chunk at that depth selects.
  - `Nodes.Dense` is the shape every table below the root keeps: at least
    two rows, or a single row that is a table.
  - Lookup, destructive and persistent insertion, and destructive and
    persistent removal are proved against `Contents`, together with their
    bookkeeping of the trie's size.
  - The trie handle `Hamt.Trie` is a class. Its `root` and `size` are
    updated in place by `Set` and `Remove`. `PSet` and `PRemove` return a
    fresh handle and leave the receiver unchanged.
- **The table cache** (`cache.dfy`). There are 32 pools, one per table size
  1..32. Each pool keeps:
  - a chain of chunks whose size doubles each time one fills;
  - a high-water mark into the newest chunk;
  - a LIFO freelist.

  `TableCache.Pool` states one call as a function. The classes
  `TableAllocator` and `TableCache` are the imperative allocator and cache,
  proved against those functions. A table's address is the chunk it lies in
  (numbered from the oldest) and its first row there.
- **The universal hash** (`uh.dfy`). The hash loop over a NUL-terminated
  string is proved equal to a recursive definition. That definition uses
  C's `uint32_t` wrap-around.
- **The bit-string formatter** (`bitstring.dfy`). `i2b` is modelled as a
  loop writing into a caller's `array<char>`. It is proved to write the
  39-character text and a NUL, and that text parses back to the value.

## Model

| member | source | states |
|---|---|---|
| Bits.Popcount | src/hamt.c:105 | the number of set bits is the count of set bits below 32, so at most 32 |
| Bits.GetPos | src/hamt.c:107-110 | the dense position of a chunk is the number of set bits strictly below it; it is at most the popcount, and below it when the chunk's bit is set |
| Bits.HasIndex | src/hamt.c:112-117 | true exactly when the chunk's bit is set, that is, exactly when counting the set bits up to and including the chunk gives one more than counting those below it |
| Bits.WithBit | src/hamt.c:21 | setting bit `i` sets it and leaves every other bit; when it was clear, the popcount grows by one |
| Bits.WithoutBit | src/hamt.c:20 | clearing bit `i` clears it and leaves every other bit; when it was set, the popcount drops by one |
| Bits.Singleton | src/hamt.c:286 | `1 << i` has bit `i` alone set, so its popcount is 1 |
| Bits.WithoutUndoesWith | src/hamt.c:20-21 | clearing a bit that was just set restores the bitmap |
| Bits.PosOrdered | src/hamt.c:107-110 | for set bits, dense positions are ordered as the chunks are, and equal only for the same chunk |
| Bits.PosAfterInsert | src/hamt.c:198 | after a new bit is set, every other set bit keeps its position or moves up by one, as it lies above or below the new bit |
| Bits.PosAfterRemove | src/hamt.c:216 | after a bit is cleared, every other set bit keeps its position or moves down by one |
| Bits.PosOfNewBit | src/hamt.c:249-251 | the position of a newly set bit is the position it had in the old bitmap |
| Bits.PairPos | src/hamt.c:296-299 | in a two-bit bitmap, each of the two chunks lies at position 0 or 1 by their order |
| Bits.GetPosKnownAnswers | test/test_hamt.c:385-403 | with bits 7, 15 and 19 set, chunks 0, 6, 7, 8, 14, 16, 18 and 20 lie at 0, 0, 0, 1, 1, 2, 2 and 3 |
| Bits.PopcountKnownAnswers | test/test_hamt.c:369-383 | popcounts of 0, 42, 1337 and 0xFFFFFFFF are 0, 3, 6 and 32 |
| HashState.Start | src/hamt.c:314-318 | the walk begins at depth 0 and shift 0 for the given key |
| HashState.Next | src/hamt.c:89-98 | `hash_next` keeps the key, adds one to the depth and leaves the shift at most 30 |
| HashState.Index | src/hamt.c:100-103 | the chunk is below 32 |
| HashState.ShiftRightIsShift | src/hamt.c:102 | the shift used by the model is the machine's `>>` |
| HashState.HashAtClosedForm | src/hamt.c:89-98 | after `d` steps from the root, the hash in force is the key's hash for the generation of the last rehash, and the shift is five bits per level since that rehash |
| HashState.RehashStep | src/hamt.c:93-96 | a rehash happens every seventh level, when the shift would pass 30 |
| HashState.ExistingKeyHash | src/hamt.c:272-276 | the rebuilt state of the key met at a leaf keeps the key, depth and shift of the walk |
| HashState.ExistingKeyHashReplaysWalk | src/hamt.c:272-276 | rebuilding the existing key's state with the generation in force gives exactly the state a walk of that key from the root reaches |
| HashState.ExistingKeyHashAsWritten | src/hamt.c:274 | the state as the source rebuilds it, with generation `depth / 5`, has the same key, depth and shift |
| HashState.ExistingKeyHashAsWrittenAgreesEarly | src/hamt.c:272-276 | where `depth / 5` is the generation in force, the source's rebuilt state is the right one |
| HashState.GenerationOfEarlyDepths | src/hamt.c:93-96 | below depth 5 the generation is `depth / 5`; at depth 5 it is not |
| HashState.MisrouteHashChunks | src/hamt.c:89-103 | under `MisrouteHash`, keys 0 and 0x02000000 share their chunks down to depth 4 and part at depth 5 (chunks 0 and 1), and key 0x40000000 shares every chunk of key 0 down to depth 5 and parts from it at depth 6 (chunk 1 against 0): inserting 0, 0x02000000 and then 0x40000000 meets key 0 in a leaf at depth 5 |
| HashState.ExistingKeyHashAsWrittenMisroutes | src/hamt.c:272-276 | for the collision of key 0x40000000 with key 0 met at depth 5 under `MisrouteHash`, the source files key 0 under chunk 3 of the depth-6 table and the new key under chunk 1, while every walk of key 0 looks under chunk 0 there |
| HashState.DivergeDeeper | src/hamt.c:283-292 | keys that later diverge, but share the current chunk, also diverge from the next level on |
| HashState.DivergeAt | src/hamt.c:283-292 | keys whose chunks differ at depth `e` diverge within `e - d` levels of depth `d` |
| HashState.ConstantHashAgrees | src/hamt.c:283-292 | under a key hash that is 0 for every key and generation, keys 0 and 1 select the same chunk at every depth |
| HashState.ConstantHashNeverDiverges | src/hamt.c:284 | for those keys the condition of `insert_table`'s loop holds at every depth, so the loop as written never ends |
| HashState.ChunksAt | src/hamt.c:283-292 | the chunk path from `d` to `e` lists the key's chunks at those depths |
| Nodes.EmptyTable | src/hamt.c:122-123 | the zeroed node is a table with no bit set, popcount 0 and no rows |
| Nodes.EmptyTableValid | src/hamt.c:118-128 | a zeroed root table is valid at any depth and holds nothing |
| Nodes.ValidIsWellFormed | src/hamt.c:28-39 | a valid node's tables each have one row per set bit |
| Nodes.RowsContentsSingle | src/hamt.c:28-39 | a single row stands for the map of its node |
| Nodes.RowsContentsPair | src/hamt.c:28-39 | two rows stand for the union of their maps |
| Nodes.ExtendTable | src/hamt.c:180-200 | the extended table has one row more: a zero-filled row at `pos`, the empty table that the `calloc` allocation leaves there until `insert_kv` writes it, the rows before `pos` unchanged and the rest shifted up by one; bit `index` is set and no other bit changes |
| Nodes.ShrinkTable | src/hamt.c:202-225 | the shrunk table has one row less: row `pos` dropped and the rest in order; bit `index` is cleared; a table with no rows becomes empty |
| Nodes.GatherTable | src/hamt.c:227-243 | the anchor takes over row `pos` of its one- or two-row table; a one-row table keeps its pairs, and a two-row table, whose map is the union of its two rows, keeps only the pairs of row `pos` |
| Nodes.ShrinkUndoesExtend | src/hamt.c:180-225 | extending at `pos` with a clear bit and then shrinking at `pos` restores the table |
| Nodes.ContentsByRoute | src/hamt.c:130-171 | in a valid table, a key is present exactly when its chunk's bit is set and the key is present in the row that the bit selects, with the same value there |
| Nodes.RowSubmap | src/hamt.c:28-39 | every pair under a row of a valid table is a pair of the table |
| Nodes.RowKeysSelect | src/hamt.c:130-171 | every key under the row for chunk `i` has chunk `i` at that depth |
| Nodes.RoutedRowOnly | src/hamt.c:130-171 | a key of a valid table sits under one row only |
| Nodes.ReplaceRow | src/hamt.c:521-569 | replacing a row with a valid node whose keys route to it keeps the table valid, and the table's map changes by that row's map |
| Nodes.InsertedRowShift | src/hamt.c:180-200 | after a row is inserted, every old row is found at its chunk's new position |
| Nodes.InsertedRowAt | src/hamt.c:180-200 | the inserted row is found at its chunk's position |
| Nodes.InsertRowRoutes | src/hamt.c:245-263 | every key of a table with an inserted row routes to the row it sits under |
| Nodes.InsertRowKey | src/hamt.c:245-263 | a key is in the extended table exactly when it was in the table or the new row |
| Nodes.InsertRow | src/hamt.c:245-263 | inserting a row at a clear chunk bit of a valid table gives a valid table whose map is the old map plus the row's |
| Nodes.RemovedRowShift | src/hamt.c:202-225 | after a row is removed, every other row is found at its chunk's new position |
| Nodes.RemoveRowRoutes | src/hamt.c:202-225 | every key of the shrunk table routes to the row it sits under |
| Nodes.RemoveRowKey | src/hamt.c:202-225 | a key is in the shrunk table exactly when it was in the table and not under the dropped row |
| Nodes.RemoveRow | src/hamt.c:202-225 | removing a row from a valid table gives a valid table whose map lacks exactly that row's keys |
| Lookup.Search | src/hamt.c:130-171 | the search ends in a table, reports no row exactly when it reports not found, and reports success exactly when the leaf it stops at holds the key |
| Lookup.SearchStops | src/hamt.c:130-171 | the search reports not found exactly when the final chunk's bit is clear, and otherwise returns the row at that chunk |
| Lookup.SearchInRow | src/hamt.c:136-163 | when the chunk's bit is set, the search's status is decided by that row: equal key, other key, or the search from that table with the next hash state |
| Lookup.SearchFinds | src/hamt.c:130-171 | from a valid table, the search succeeds exactly when the key is present, and then returns its value |
| Lookup.Get | src/hamt.c:341-353 | `hamt_get` walks from the root state of the key and returns a value exactly when the search succeeds, namely the value of the leaf holding the key where it stops |
| Lookup.GetFinds | src/hamt.c:341-353 | `hamt_get` returns the key's value when it is present and NULL otherwise |
| Insertion.InsertKv | src/hamt.c:245-263 | `insert_kv` gives the table with a new leaf row at the key's chunk: that bit set, the old rows at their new positions |
| Insertion.InsertKvAdds | src/hamt.c:245-263 | at a clear chunk bit of a valid table, `insert_kv` gives a valid table whose map is the old one updated with the new pair |
| Insertion.PairBitmap | src/hamt.c:296-299 | the final bitmap has the two chunks' bits set and no other (popcount 2), and the smaller chunk addresses row 0, the larger row 1 |
| Insertion.PairTable | src/hamt.c:294-307 | the final table of `insert_table` has that bitmap and two rows: the existing and the new leaf, placed at the positions their chunks address, so in the order of their chunks |
| Insertion.PairTableValid | src/hamt.c:294-307 | the two-row table for keys with different chunks is valid and dense and holds both pairs |
| Insertion.TwoPairs | src/hamt.c:294-307 | two distinct singleton maps together are the two-pair map, in either order |
| Insertion.SingleRowValid | src/hamt.c:284-292 | a one-row table over a dense table whose keys share its chunk is valid, dense, and holds the same pairs |
| Insertion.Chain | src/hamt.c:284-292 | the tables the loop writes: with no shared chunk the bottom table itself, otherwise a one-row table whose only bit is the first shared chunk; either way it holds exactly the pairs of the bottom table |
| Insertion.ChainValid | src/hamt.c:284-292 | the chain of one-row tables along a shared chunk path is valid and dense and holds the bottom table's pairs |
| Insertion.ChainOfPairValid | src/hamt.c:265-310 | the chain along the two keys' shared chunks, ending in their two-row table, is valid and dense and holds both pairs |
| Insertion.SharedChunks | src/hamt.c:278-292 | the loop advances both hash states to the first depth where the chunks differ, and returns the shared chunks passed on the way |
| Insertion.InsertTable | src/hamt.c:265-310 | with the existing key rehashed as corrected for src/hamt.c:274 (the source as written: `HashState.ExistingKeyHashAsWritten`), and for keys that diverge at some depth, `insert_table` turns a leaf holding another key into a valid, dense subtree holding both pairs |
| Insertion.SetRow | src/hamt.c:312-339 | rewriting the row that the key's chunk selects with that row's map updated gives the table's map updated |
| Insertion.RowSeparated | src/hamt.c:312-339 | the row that the key's chunk selects is valid and dense, and a leaf there holding another key diverges from the key |
| Insertion.SetLeaf | src/hamt.c:319-330 | with the src/hamt.c:274 correction, at a leaf, the status is success exactly when the leaf holds the key: its value is overwritten, or the leaf becomes a subtree holding both pairs |
| Insertion.SetAt | src/hamt.c:312-339 | with the src/hamt.c:274 correction, `set` reports the search's status, success exactly when the key was present, and leaves a valid table whose map is the old one with the key set to the value |
| Insertion.SetInRow | src/hamt.c:312-339 | with the src/hamt.c:274 correction, the same as `SetAt`, when the chunk's bit is set |
| Removal.PathCopyRem | src/hamt.c:614-687 | `path_copy_rem_recurse` with the line-682 behaviour as a flag: a `RemoveNotFound` result carries no value and leaves the table as it was; without the as-written flag it is `RemoveNotFound` exactly when no value comes back; a gathered result is a leaf and never reaches the root |
| Removal.FoundLeaf | src/hamt.c:638-662 | at the key's leaf the walk always succeeds with that leaf's value; it gathers only below the root, into a leaf |
| Removal.ThroughRow | src/hamt.c:666-684 | after recursing into a row: as written the result is never `RemoveNotFound` (line 682); a not-found result leaves the table unchanged; otherwise the value is the recursion's; a gathered leaf moves up unchanged and never into the root |
| Removal.Rem | src/hamt.c:614-687 | with the src/hamt.c:682 correction: `RemoveNotFound` exactly when no value comes back, and then the table is unchanged |
| Removal.RemAsWritten | src/hamt.c:614-687 | the walk as written: a `RemoveNotFound` result carries no value and changes nothing, and a gathered result is a leaf below the root; `RemAsWrittenMiscounts` shows a success with no value |
| Removal.RemCorrect | src/hamt.c:614-687 | with the src/hamt.c:682 correction (the walk as written: `Removal.RemAsWritten`, see `Removal.RemAsWrittenMiscounts`), from a valid table the removal walk reports not found exactly when the key is absent, and then changes nothing; otherwise it returns the key's value and leaves a valid node holding every other pair, a leaf only when it gathered below the root |
| Removal.RemoveInTable | src/hamt.c:631-665 | the same, when the row that the key's chunk selects is a leaf or missing |
| Removal.RemoveThroughRow | src/hamt.c:666-684 | the same, when that row is a table that the walk removes from as `RemCorrect` says |
| Removal.RemoveFoundLeaf | src/hamt.c:636-662 | at the leaf holding the key, shrinking or gathering removes the key as `RemCorrect` says |
| Removal.ShrinkRemoves | src/hamt.c:643-645 | shrinking a table with more than two rows, or the root, drops the key and keeps the table valid |
| Removal.GatherRemoves | src/hamt.c:646-656 | gathering a two-leaf table below the root leaves the other leaf, holding every other pair |
| Removal.PairUnion | src/hamt.c:646-656 | two singleton maps together are the two-pair map |
| Removal.PairMinus | src/hamt.c:646-656 | dropping one key of a two-pair map leaves the other pair |
| Removal.ThroughRowRemoves | src/hamt.c:666-684 | a removal below a table row, followed by the gathering of one-row tables, removes the key from the table |
| Removal.NotFoundRemoves | src/hamt.c:663-665 | reporting not found without change is right when the key is absent |
| Removal.CopyRemoves | src/hamt.c:682 | a valid copy without the key, returned with the key's value, is a successful removal |
| Removal.GatheredRemoves | src/hamt.c:676-680 | a leaf holding every other pair, returned with the key's value, is a gathered removal |
| Removal.ReplaceRemoves | src/hamt.c:666-684 | putting the result of a successful removal below a row in that row gives a valid table without the key |
| Removal.RemAsWrittenAgrees | src/hamt.c:614-687 | whenever the corrected walk finds the key, the walk as written returns the same result; when it does not, the walk as written also leaves the table unchanged and returns no value, but may report success |
| Removal.SmallTrieValid | src/hamt.c:614-687 | the counterexample trie is valid and holds keys 0 and 32 |
| Removal.RemAsWrittenMiscounts | src/hamt.c:682 | removing the absent key 64 from that trie reports not found in the corrected walk and success in the walk as written |
| Hamt.Trie.constructor | src/hamt.c:118-128 | `hamt_create` gives a valid, empty trie of size 0 with the given hash function |
| Hamt.Trie.Dup | src/hamt.c:500-509 | `hamt_dup` gives a new handle with the given hash function, root and size |
| Hamt.Trie.Size | src/hamt.c:384 | `hamt_size` is the number of pairs |
| Hamt.Trie.Get | src/hamt.c:341-353 | `hamt_get` returns the key's value when it is present and NULL otherwise |
| Hamt.Trie.Set | src/hamt.c:312-339 | with the src/hamt.c:274 correction (as written: `HashState.ExistingKeyHashAsWritten`), after `hamt_set(k, v)` the trie is valid, maps `k` to `v` and every other key as before, and its size grows by one exactly when `k` was absent |
| Hamt.Trie.PSet | src/hamt.c:580-612 | with the src/hamt.c:274 correction, `hamt_pset` returns a fresh valid trie holding the receiver's pairs with `k` set to `v`, its size one more exactly when `k` was absent; the receiver is not modified |
| Hamt.Trie.Remove | src/hamt.c:715-728 | with the src/hamt.c:682 correction (as written: `Removal.RemAsWritten`), `hamt_remove` leaves a valid trie without the key, returns the key's value or NULL, and decrements the size exactly when the key was present |
| Hamt.Trie.PRemove | src/hamt.c:698-713 | with the src/hamt.c:682 correction, `hamt_premove` returns a fresh valid trie holding the receiver's pairs but the key's, its size one less exactly when the key was present; the receiver is not modified |
| Hamt.RemoveFromRoot | src/hamt.c:715-728 | with the src/hamt.c:682 correction, the walk from a valid root leaves a valid root table without the key, reports not found exactly when the key was absent, and returns its value |
| Hamt.CardinalityWithout | src/hamt.c:722-726 | the size bookkeeping of the corrected removal: dropping a present key removes one pair; dropping an absent one removes none |
| TableCache.CreatePool | src/cache.c:52-73 | `table_allocator_create`: one chunk holding `initialCacheSize` tables of `tableSize` rows, nothing served and an empty freelist |
| TableCache.NewChunk | src/cache.c:127-148 | the new chunk is twice the newest, goes in front of the old chain, and adds that many rows to the capacity; the high-water mark restarts at 0 and nothing else changes |
| TableCache.AllocPool | src/cache.c:110-160 | `table_allocator_alloc`: with a non-empty freelist it pops the head and changes nothing else; otherwise it serves the slot at the high-water mark of the newest chunk, after prepending a new chunk when the newest is full (then row 0), and counts one more table |
| TableCache.FreePool | src/cache.c:162-177 | `table_allocator_free` pushes the table onto the front of the freelist and changes nothing else |
| TableCache.CreateValid | src/cache.c:52-73 | a new pool keeps the pool invariant and has served no table |
| TableCache.ChainPrepend | src/cache.c:133-146 | prepending a chunk twice the newest one's size keeps the chain of doubling chunk sizes |
| TableCache.FillValid | src/cache.c:150-152 | serving tables that fit in the newest chunk keeps the pool invariant |
| TableCache.NewChunkValid | src/cache.c:127-152 | serving from a new chunk once the newest is full keeps the pool invariant |
| TableCache.AllocKeepsValid | src/cache.c:109-160 | an allocation keeps the pool invariant: the high-water mark lies in the newest chunk and is a multiple of the table size, and the count of tables served matches the chunks used |
| TableCache.FreeKeepsValid | src/cache.c:162-177 | a free keeps the invariant and pushes the table onto the front of the freelist |
| TableCache.ServeNewChunk | src/cache.c:127-153 | when the newest chunk is full, the table served is row 0 of a new chunk; it fits there, was not served before, and is the only newly served table |
| TableCache.ServeSameChunk | src/cache.c:149-153 | otherwise the table served starts at the high-water mark of the newest chunk; it fits there, was not served before, and is the only newly served table |
| TableCache.AllocFromChunk | src/cache.c:126-153 | with an empty freelist, the table served is a slot that fits in its chunk and was not served before, it is the only newly served table, and the freelist stays empty |
| TableCache.FreeThenAlloc | src/cache.c:117-125 | freeing a table and then allocating returns that table and the pool as it was before the free |
| TableCache.Stride | src/cache.c:149-153 | two allocations in a row from the same chunk are exactly one table size apart |
| TableCache.AllocMany | src/cache.c:109-160 | `n` allocations return `n` addresses and keep the table size |
| TableCache.AllocManyAppend | src/cache.c:109-160 | `x + y` allocations are `x` allocations followed by `y` |
| TableCache.FillWithin | src/cache.c:150-152 | allocations that fit in the newest chunk only advance the high-water mark and the count |
| TableCache.AllocManyServed | src/cache.c:109-160 | a run of allocations from an empty freelist keeps the invariant and returns every newly served table exactly once and nothing else |
| TableCache.FullStep | test/test_cache.c:108-140 | from a pool whose `n` chunks are full, the next `b * 2^n` allocations fill exactly one more chunk |
| TableCache.FullAfter | test/test_cache.c:108-140 | after `b * (2^n - 1)` allocations from a new pool of initial size `b`, the pool has `n` full chunks of doubling sizes and keeps the invariant |
| TableCache.ServedFull | src/cache.c:127-153 | when the newest chunk is full, every slot of every chunk has been served |
| TableCache.FreeManyPushes | src/cache.c:162-177 | freeing a list of tables pushes them all onto the freelist and changes nothing else |
| TableCache.FreelistCovers | test/test_cache.c:108-170 | after that many allocations the pool has `n` chunks, its count equals the tables its chunks hold, and once every table is freed in any order the freelist holds every slot of every chunk exactly once |
| TableCache.TableAllocator.constructor | src/cache.c:52-73 | `table_allocator_create` gives count 0, mark 0, one chunk of `initial_cache_size * table_size` rows, an empty freelist and the given table size |
| TableCache.TableAllocator.Alloc | src/cache.c:109-160 | `table_allocator_alloc` moves the pool as `AllocPool` says and keeps the invariant; with a non-empty freelist it pops the head and changes nothing else |
| TableCache.TableAllocator.Free | src/cache.c:162-177 | `table_allocator_free` pushes the table onto the freelist, keeps the invariant and changes nothing else |
| TableCache.TableCache.constructor | src/cache.c:179-193 | `hamt_table_cache_create` gives one new pool per configured bucket; pool `i` has table size `i + 1` and the configured initial size |
| TableCache.TableCache.Alloc | src/cache.c:203-210 | `hamt_table_cache_alloc(n)` allocates from pool `n - 1` and leaves every other pool unchanged |
| TableCache.TableCache.Free | src/cache.c:212-217 | `hamt_table_cache_free(n, p)` frees into pool `n - 1` and leaves every other pool unchanged |
| UniversalHash.Step | src/uh.c:19-20 | one turn of the loop leaves `h` below `M` and the multiplier below `M - 1` |
| UniversalHash.State | src/uh.c:17-20 | the accumulators start at 0 and 31415, and after one character or more `h` is below `M` and the multiplier below `M - 1` |
| UniversalHash.Hash | src/uh.c:15-22 | the hash of the empty string is 0; otherwise it is below `M` |
| UniversalHash.MultiplierOnlyCounts | src/uh.c:19 | the multiplier depends only on how many characters were read, and once at least one was read it lies below `M - 1` |
| UniversalHash.NulIndex | src/uh.c:19 | the loop stops at the first NUL of the buffer |
| UniversalHash.CStringIgnoresTail | src/uh.c:19 | what follows the terminator does not change the string that is hashed |
| UniversalHash.SedgewickUniversalHash | src/uh.c:15-22 | the loop computes the recursive hash of the characters before the NUL, below `M` when there is at least one |
| BitString.Out | test/utils.c:6-16 | what the loop has written after bits 31 down to `j`: only the characters `0`, `1` and space |
| BitString.Format | test/utils.c:6-16 | the whole text before the NUL: 39 characters, each `0`, `1` or space |
| BitString.OutStep | test/utils.c:6-15 | one turn of the loop appends the digit for bit `i` and, on a multiple of 5, a space |
| BitString.OutLength | test/utils.c:6-16 | after bits 31 down to `j`, one digit per bit and one space per multiple of 5 among them have been written |
| BitString.FormatLength | test/utils.c:6-16 | the text is 39 characters: 32 digits and 7 spaces |
| BitString.ShiftStep | test/utils.c:7 | `value >> j` is twice `value >> (j + 1)` plus bit `j` |
| BitString.UnspaceStep | test/utils.c:6-15 | without spaces, each turn adds just the digit |
| BitString.OutParses | test/utils.c:6-16 | the digits written so far, read in base 2, are `value >> j` |
| BitString.FormatParses | test/utils.c:6-16 | dropping the spaces and reading the digits in base 2 gives back the value |
| BitString.I2b | test/utils.c:3-18 | `i2b` writes the formatted bits and a NUL into the first 40 characters, leaves the rest of the buffer alone, and returns the buffer |

## Left out

- The iterator (src/hamt.c:386-495) is not modelled. `iterator_push_item` never advances the tail of its stack, so the shown code promises nothing useful about it.
- `delete`, `hamt_delete`, `table_allocator_delete` and `hamt_table_cache_delete` are not modelled. They only reclaim memory.
- Memory reclamation and leaks are not modelled: the old tables left behind by the persistent operations, and the root copy that `hamt_dup` makes and `pset`/`hamt_premove` drop.
- Allocation failure is not modelled. Every allocation succeeds. This leaves out the NULL returns of `mem_extend_table` and `mem_shrink_table`, the FIXME in `insert_table`, and the error paths of src/cache.c:131-159, including the wrong chunk freed at src/cache.c:155.
- The statistics counters and the debug `memset` fills of src/cache.c are not modelled.
- `hamt_set`'s return value is not modelled. It is the still-tagged value pointer.
- Nodes.ExtendTable: the new row is the zero-filled table, no bits and no rows, as the `calloc`-based `mem_alloc` of src/mem.c:26 leaves it. src/hamt.c calls `mem_alloc` without a declaration in include/mem.h, so that allocator is taken to be the one in force; a caller-supplied allocator that does not zero memory would leave the row undefined, but no caller reads it before `insert_kv` overwrites it.
- The shifts `1 << index` (src/hamt.c:109, 116, 249, 286, 296) are taken as 32-bit unsigned masks (`bv32`). In C they are shifts of a signed `int`, which is undefined for index 31; the model assumes the compiler yields bit 31.
- Pointer tagging (src/hamt.c:12-17) is not modelled. Leaf versus table is the constructor of `Nodes.Node`.
- Key comparison is not modelled as a function. It is Dafny equality.
- The key hash (murmur3 in the library) is a parameter, `HashState.HashFn`. The generation is passed as its second argument.
- Nodes are values, not heap cells. Therefore:
  - the destructive and the persistent operations compute the same new root, and they differ only in which handle receives it;
  - the in-place rewriting of the anchor by `mem_extend_table`, `mem_shrink_table` and `mem_gather_table` is modelled as building a new node;
  - the path copying of `path_copy_search_recurse` and `path_copy_rem` is modelled as returning the rebuilt path;
  - the sharing of unchanged subtrees between tries is not modelled.
- `hash_next` updates its `Hash` in place. Here it is the function `HashState.Next`, and every caller uses the state it returns.
- Hamt.Trie.Set: requires that every key of the trie diverges from the new key at some depth (`Insertion.Separated`). The source has no such requirement. For keys whose every chunk agrees at every generation, `insert_table`'s loop never ends.
- Hamt.Trie.PSet: requires `Insertion.Separated`, for the same reason as `Set`.
- Insertion.InsertTable: requires that the two keys diverge at some depth (`HashState.Diverge`), for the same reason as `Set`; `HashState.ConstantHashNeverDiverges` shows keys for which the loop never ends.
- Insertion.SetLeaf: requires `HashState.Diverge` for a leaf holding another key, for the same reason.
- Insertion.SetAt: requires `Insertion.Separated`, for the same reason.
- Insertion.SetInRow: requires `Insertion.Separated`, for the same reason.
- Hamt.Trie.Set: models the insertion with the src/hamt.c:274 correction (see Findings), not as written. As written, an existing key met at depth `d` where `d / 5` is not the generation in force and `d + 1` is not a rehash depth (5, 10 to 12, 15 to 19, ...) can be filed under a row that its later lookups do not visit, so "every other key keeps its value" does not hold of the source.
- Hamt.Trie.PSet: models the insertion with the src/hamt.c:274 correction, as `Hamt.Trie.Set` does.
- Insertion.InsertTable: models the insertion with the src/hamt.c:274 correction, as `Hamt.Trie.Set` does.
- Insertion.SetLeaf: models the insertion with the src/hamt.c:274 correction, as `Hamt.Trie.Set` does.
- Insertion.SetAt: models the insertion with the src/hamt.c:274 correction, as `Hamt.Trie.Set` does.
- Insertion.SetInRow: models the insertion with the src/hamt.c:274 correction, as `Hamt.Trie.Set` does.
- Hamt.Trie.Remove: models the removal with the src/hamt.c:682 correction (see Findings), not as written. As written, removing an absent key that routes through a table row decrements the size, so "the size shrinks exactly when the key was present" does not hold of the source.
- Hamt.Trie.PRemove: models the removal with the src/hamt.c:682 correction, as `Hamt.Trie.Remove` does.
- Hamt.RemoveFromRoot: models the removal with the src/hamt.c:682 correction, as `Hamt.Trie.Remove` does.
- Removal.RemCorrect: models the removal with the src/hamt.c:682 correction, as `Hamt.Trie.Remove` does.
- TableCache.TableCache.constructor: requires every configured initial bucket size to be at least 1, for the same reason as `TableAllocator.constructor`.
- TableCache.TableAllocator.constructor: requires an initial size of at least 1. With 0, the source serves the first table from a chunk of size 0, beyond its end.
- TableCache.TableCache.Alloc: requires `n` to be at most the number of configured buckets, not 32. The source never initialises the pools beyond `bucket_count`.
- TableCache.TableCache.Free: requires `n` to be at most the number of configured buckets, for the same reason as `Alloc`.
- TableCache.Stride: states the stride in addresses (chunk, row), not as a pointer difference in bytes.
- BitString.I2b: requires a buffer of at least 40 characters, which `i2b` fills without a check; the commented-out call at test/test_hamt.c:433 passes a 38-character buffer and would overrun it.
- UniversalHash.SedgewickUniversalHash: requires `M >= 2` for a non-empty string. With `M` of 0 or 1, the source takes a remainder by zero.
- Machine memory is not modelled. Table addresses and the cache's memory are abstract (chunk, row) pairs. Array bytes and the `0x42` fill check of the cache test are not modelled. What is proved instead is that the freelist holds every slot exactly once.
- The characters of the universal hash are taken as signed `char`. They are converted to `uint32_t` as C does.

## Findings

| source | as written | input that shows it | evidently intended | confidence | as-written member | corrected member |
|---|---|---|---|---|---|---|
| src/hamt.c:274 | `insert_table` rehashes the key already stored in a leaf with generation `depth / 5`. The walk that placed that key used the generation of the last rehash, which changes only every seventh level, so the two differ at depth 5 and at many deeper depths. | `MisrouteHash`: in generation 0 the key itself for keys 0x02000000 and 0x40000000 and 0 for every other key, `0xC0000000` in every later generation. Insert 0, then 0x02000000 (they part at depth 5), then 0x40000000, which meets key 0 in a leaf at depth 5: key 0 is stored under chunk 3 and the new key under chunk 1 of the depth-6 table, and `hamt_get` of key 0 looks under chunk 0 there and returns NULL. | Rebuild the existing key's state with the generation in force at that depth, so that the state equals the one a walk of that key from the root reaches. | not executed | HashState.ExistingKeyHashAsWrittenMisroutes | HashState.ExistingKeyHashReplaysWalk |
| src/hamt.c:682 | `path_copy_rem_recurse` returns `REMOVE_SUCCESS` after recursing into a table row, even when the recursion reported `REMOVE_NOTFOUND`. `hamt_remove` and `hamt_premove` then decrement the size of a trie that did not hold the key. | A root with one row holding a two-row table with keys 0 and 32, and the absent key 64 whose chunk is 0 at the root and 2 one level down. | Report `REMOVE_NOTFOUND` when the recursion found nothing, so that the size changes only when a pair was removed. | not executed | Removal.RemAsWrittenMiscounts | Removal.RemCorrect |
| src/hamt.c:284-292 | `insert_table` descends while the two keys' chunks agree and has no collision node, so for two distinct keys whose hashes agree in every generation the loop never ends (and allocates a table per turn). | The key hash that returns 0 for every key and generation, with keys 0 and 1. | The key hash distinguishes every two distinct keys at some generation, and insertion then terminates with both pairs stored; the model proves that under this condition. | not executed | HashState.ConstantHashNeverDiverges | Insertion.InsertTable |
