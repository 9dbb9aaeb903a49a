# Game memory, random series, asset catalog and entity bookkeeping, in Dafny

This project models the integer core of a small C++ arcade game and proves properties of it.

- **Memory (`arena.dfy`, `heap.dfy`, `allocator.dfy`).** This is the main part.
  - **Arena.** A bump allocator with a saved mark, frames, and an alignment rule that always adds one whole unit.
  - **Free-list allocator.** Best fit, split when the leftover exceeds one header, sorted insertion of allocation headers, and a free that merges with both neighbours.
    - Both lists of intrusive headers are kept as sequences of `(pos, size)` records in list order.
    - A record's 24-byte header sits just before `pos`.
    - Module `Heap` gives the value-level meaning of every operation and proves the allocator's invariants against it:
      - sorted lists;
      - no overlap;
      - no two free entries touching;
      - every byte accounted for.

      It also proves the outcome of a request, the restoring round trip of allocating and at once freeing, and that freeing everything restores the initial state.
    - Class `FreeListAllocator.Allocator` walks its lists with loops, as the C code walks its `next` pointers. It is proved to compute exactly the `Heap` model, and it clears the bytes it hands out.
- **Base helpers (`base.dfy`).**
  - `zero_memory`: clears in words, then bytes.
  - `cstr_equal`.
  - The `Min`/`Max`/`Abs`/`Sign`/`KB`/`MB` macros.
  - C-string reading.
- **Random series (`random.dfy`).**
  - The 32-bit xorshift. It is a bijection that fixes 0.
  - The draws built on it, with C's integer conversions written out.
- **Asset catalog (`catalog.dfy`).**
  - The fixed path table.
  - `cstr_concat` and `cstr_copy` on character arrays.
  - The ordered search. Whether a file exists is a parameter.
- **Game state bookkeeping (`game.dfy`).**
  - The entity table with its swap-remove pass.
  - The one-shot state flag.
  - The four ring buffers and their active counts.
  - The grid scan of a goon formation.

Addresses are offsets into a byte or character array. The C code's `Assert`s become preconditions, which is the native build's meaning.

## Model

| member | source | states |
|---|---|---|
| Base.TruncDiv | code/game_base.cpp:67 | C's division, truncated toward zero: the quotient times the divisor plus a remainder with the dividend's sign and smaller magnitude. |
| Base.Min | code/game_base.cpp:51 | The result is at most both arguments and is one of them. |
| Base.Max | code/game_base.cpp:52 | The result is at least both arguments and is one of them. |
| Base.Abs | code/game_base.cpp:54 | The result is non-negative and is `v` or `-v`. |
| Base.Sign | code/game_base.cpp:55 | The result is in {-1, 0, 1}, `Sign(v) * Abs(v) == v`, and it is positive or negative exactly when `v` is. |
| Base.KB | code/game_base.cpp:60 | The result is `n * 1024` reduced into the `u64` range. |
| Base.MB | code/game_base.cpp:61 | The result is in the `u64` range and congruent to `n * 2^20` modulo 2^64, which is the `1024ULL` multiplications' wrap-around. |
| Base.MBExact | code/game_base.cpp:60-61 | Without wrap-around, `MB(n)` is `n * 2^20`. |
| Base.WordTail | code/game_base.cpp:66-71 | The word count and a tail below 8. For a non-negative size, the count times 8 plus the tail is `size`; a zero size gives no words and no tail. A negative size is first converted to `u64` by the division by `sizeof(u64)`, so the count times 8 plus the tail is `size + 2^64` and the count is at least 2^60. |
| Base.WordTailNegative | code/game_base.cpp:67 | A size of -5 asks for 2^61 - 1 words and a tail of 3. |
| Base.ZeroMemory | code/game_base.cpp:65-73 | For a non-negative size that fits the buffer, every byte in `[ptr, ptr + size)` is 0 and every other byte is unchanged; a zero size writes nothing. |
| Base.StrLen | code/game_base.cpp:76 | The index of the first NUL. |
| Base.CStr | code/game_base.cpp:75-84 | The text before the first NUL: it holds no NUL, it is a prefix of the string, and the NUL follows it. |
| Base.CStrFrom | code/game_asset_catalog.cpp:25 | The characters of `t` followed by a NUL read back as the C string `t`, whatever comes after. |
| Base.CStrEqual | code/game_base.cpp:75-84 | The answer is true exactly when the two C strings have the same text, which means the same characters and the same length. |
| Base.Count | code/game.cpp:934-943 | The count is at most the length, and it is 0 exactly when no element satisfies the test. |
| Base.CountPrefix | code/game.cpp:934-943 | Extending a prefix by one element adds that element's test to the count. |
| Base.CountUpdate | code/game.cpp:378-381 | Overwriting one element changes the count by that element's old and new tests. |
| Arena.Align | code/game_memory.cpp:29-32 | The result is a multiple of the alignment. For a non-negative size it lies in `(size, size + alignment]`, and an already aligned size gains a whole unit. For a negative size (truncating division) it lies in `[size + a, size + 2a)`. |
| Arena.AlignExamples | code/game_memory.cpp:29-32 | `Align(1, 16) == 16` and `Align(16, 16) == 32`. |
| Arena.AlignNegativeExample | code/game_memory.cpp:30 | `Align(-5, 16) == 16`. |
| Arena.AlignLeast | code/game_memory.cpp:29-32 | The aligned size is the least multiple of the alignment strictly above a non-negative size. |
| Arena.MArena.constructor | code/game_memory.cpp:22-27 | An empty arena over the buffer, with both marks at 0. |
| Arena.MArena.Alloc | code/game_memory.cpp:34-48 | Returns the old `pos` and sets `prev_pos` to it. It advances `pos` by the aligned size and stays inside the buffer. It zeroes exactly `[old pos, new pos)`. |
| Arena.MArena.Clear | code/game_memory.cpp:53-56 | Both `pos` and `prev_pos` are 0. |
| Arena.MArena.StartFrame | code/game_memory.cpp:58-61 | The frame captures this arena and its current `pos`. |
| Arena.MArena.EndFrame | code/game_memory.cpp:63-66 | `pos` is the frame's mark and `prev_pos` is unchanged. The frame must belong to this arena. |
| Arena.Scratch | code/game_memory.cpp:34-66 | An allocation between a start and an end frame leaves `pos` where it was. |
| Heap.Valid | code/game_memory.cpp:101-249 | The allocator's invariant: both lists sorted, free entries never touching, no overlap, every block in bounds, and the blocks with their headers covering the buffer exactly. |
| Heap.Create | code/game_memory.cpp:101-117 | The initial state is valid. Its single free entry covers the whole buffer, header included, and there are no allocations. |
| Heap.BestFit | code/game_memory.cpp:121-145 | No result exactly when no entry has `size >= desired`. Otherwise the result is the entry with the least `size - desired`, the earliest among equals. |
| Heap.BestFitUnique | code/game_memory.cpp:139 | The best-fit choice is deterministic. |
| Heap.Carve | code/game_memory.cpp:147-175 | The split rule. The remainder exists exactly when `size - desired > H`, and then the allocation is exactly `desired` bytes. Otherwise the whole entry is handed out. The two parts tile the entry. |
| Heap.InsertPos | code/game_memory.cpp:178-182 | The first index whose offset exceeds `p`; everything before it is at or below `p`. |
| Heap.Insert | code/game_memory.cpp:177-186 | The sorted insertion adds exactly the new header: one entry longer, and the same multiset plus the header. |
| Heap.FindPos | code/game_memory.cpp:206-210 | The first header whose offset is `p`. |
| Heap.MergeWindow | code/game_memory.cpp:215-248 | The merge replaces at most two neighbouring entries. |
| Heap.InsertFree | code/game_memory.cpp:215-248 | The free list after merging gains at most one entry and loses at most one. |
| Heap.Alloc | code/game_memory.cpp:119-192 | The size is kept. NULL exactly when best fit finds no entry, and then nothing changes; otherwise exactly one allocation header is added. |
| Heap.Free | code/game_memory.cpp:197-249 | The size is kept and freeing NULL changes nothing. Otherwise exactly the header the lookup finds leaves the allocation list. |
| Heap.AllocValid | code/game_memory.cpp:119-192 | `allocator_alloc` keeps every invariant: both lists sorted, free entries never touching, no overlap, all blocks in bounds, total bytes conserved. |
| Heap.AllocOutcome | code/game_memory.cpp:119-192 | NULL exactly when no free entry fits, and then nothing changes. Otherwise the result is the best-fit entry's offset and a live allocation of at least `desired` bytes, with a leftover of at most `H`. |
| Heap.FreeValid | code/game_memory.cpp:197-249 | `allocator_free` keeps every invariant, including that no two free entries touch after the merges. |
| Heap.SeparatedSpan | code/game_memory.cpp:224-248 | Free entries with gaps between them cannot cover the whole distance from the first to the last. |
| Heap.FreeAll | code/game_memory.cpp:101-117 | With no allocations left, the free list is the single entry `(H, size - H)` again. |
| Heap.InsertPosAt | code/game_memory.cpp:220-222 | The insertion walk stops at exactly the first index whose offset exceeds `p`. |
| Heap.FindInserted | code/game_memory.cpp:177-186 | The inserted header is the one the free-time lookup finds, and unlinking it restores the list. |
| Heap.FreeAfterAlloc | code/game_memory.cpp:119-249 | Freeing a block straight after allocating it restores the allocator exactly. |
| Heap.BestFitExamples | code/game_memory.cpp:128-143 | Best fit takes the least waste, not the first fit; the earlier entry wins ties; an oversize request gets none. |
| Heap.ExampleAllocs | code/game_memory.cpp:101-192 | Over 1024 bytes, requests of 100 and then 200 bytes return offsets 24 and 148. Each splits the remaining entry. |
| Heap.ExampleReuse | code/game_memory.cpp:119-249 | Freeing offset 24 merges with nothing. A 90-byte request then takes that 100-byte block whole, since its leftover is not above `H`. |
| Heap.ExampleFreeAll | code/game_memory.cpp:197-249 | Freeing both blocks merges forward twice, back into the single initial entry. |
| FreeListAllocator.Allocator.constructor | code/game_memory.cpp:101-117 | The state is `Heap.Create(size)`. |
| FreeListAllocator.Allocator.FindBestFit | code/game_memory.cpp:121-143 | The scan's choice is `Heap.BestFit` of the free list. |
| FreeListAllocator.Allocator.LookupHeader | code/game_memory.cpp:206-210 | The lookup loop stops at `Heap.FindPos`. |
| FreeListAllocator.Allocator.Alloc | code/game_memory.cpp:119-192 | The new state and result are `Heap.Alloc` of the old state. The allocator stays valid. NULL leaves the bytes untouched; otherwise it zeroes exactly the new block. |
| FreeListAllocator.Allocator.Place | code/game_memory.cpp:147-186 | The split or unlink, then the sorted insert, give `Heap.Alloc`'s state. |
| FreeListAllocator.Allocator.Free | code/game_memory.cpp:197-249 | The new state is `Heap.Free` of the old one, and the allocator stays valid. |
| FreeListAllocator.InsertionPoint | code/game_memory.cpp:218-222 | The walk's stopping index is `Heap.InsertPos`. |
| FreeListAllocator.MergeInto | code/game_memory.cpp:224-248 | The forward and backward merges give `Heap.MergeWindow`. |
| FreeListAllocator.AllocThenFree | code/game_memory.cpp:119-249 | Allocating and freeing at once leaves the allocator's state as it was. |
| Random.Stage13 | code/game_random.cpp:20 | The `r ^= r << 13` stage; `Random.Undo13` inverts it. |
| Random.Stage7 | code/game_random.cpp:21 | The `r ^= r >> 7` stage; `Random.Undo7` inverts it. |
| Random.Stage17 | code/game_random.cpp:22 | The `r ^= r << 17` stage; `Random.Undo17` inverts it. |
| Random.Xorshift | code/game_random.cpp:16-26 | The three stages in order; `Random.UnxorshiftXorshift` proves it a bijection and `Random.XorshiftZero` that it yields 0 only from 0. |
| Random.Undo13 | code/game_random.cpp:20 | Undoes the `<< 13` stage. |
| Random.Undo7 | code/game_random.cpp:21 | Undoes the `>> 7` stage. |
| Random.Undo17 | code/game_random.cpp:22 | Undoes the `<< 17` stage. |
| Random.StagesUndone | code/game_random.cpp:20-22 | Each undo function is also a left inverse of its stage. |
| Random.Unxorshift | code/game_random.cpp:20-22 | A preimage under the xorshift step. |
| Random.UnxorshiftXorshift | code/game_random.cpp:20-22 | The step is a bijection on 32-bit states. |
| Random.XorshiftZero | code/game_random.cpp:20-22 | The step yields 0 exactly from 0. |
| Random.Draws | code/game_random.cpp:16-26 | `n` successive draws; the first is one step of the state. |
| Random.DrawsFromZero | code/game_random.cpp:11-26 | Seed 0 draws only zeros. |
| Random.DrawsFromNonzero | code/game_random.cpp:11-26 | Any other seed never draws 0. |
| Random.Iter | code/game_random.cpp:16-26 | The state after `n` steps. |
| Random.DrawsSnoc | code/game_random.cpp:16-26 | One more draw appends the next state: `Iter(x, n + 1)` is one step of `Iter(x, n)`, and `Draws(x, n + 1)` is `Draws(x, n)` followed by it. |
| Random.ToU32 | code/game_random.cpp:41 | The conversion to `u32` is reduction modulo 2^32, and the identity on the `u32` range. |
| Random.ToS32 | code/game_random.cpp:46 | The conversion to `s32` wraps into the signed range, and is the identity on it. |
| Random.ChanceOf | code/game_random.cpp:40-43 | For a positive value, true exactly when the draw is divisible by the value. A negative value is first converted to `u32`. |
| Random.RangeOf | code/game_random.cpp:45-48 | An `s32`. For `min < max` it is `min + draw % (max - min)`, so it lies in `[min, max)`. |
| Random.Series.constructor | code/game_random.cpp:50 | A zeroed series. |
| Random.Series.Begin | code/game_random.cpp:11-14 | Both `seed` and `index` are the seed. |
| Random.Series.NextU32 | code/game_random.cpp:16-26 | The result is the xorshift of the old `index`. It becomes the new `index`; `seed` is unchanged. |
| Random.Series.NextU32s | code/game_random.cpp:16-26 | `n` calls of `random_u32` return `Draws(old index, n)` and leave `index` at `Iter(old index, n)`, the last value drawn; `seed` is unchanged. |
| Random.Series.B32 | code/game_random.cpp:28-31 | True exactly when the draw is even. The state advances one step. |
| Random.Series.Chance | code/game_random.cpp:40-43 | `ChanceOf` the draw. The state advances one step. |
| Random.Series.Range | code/game_random.cpp:45-48 | `RangeOf` the draw. The state advances one step. |
| Random.SameSeed | code/game_random.cpp:11-26 | Two series begun with the same seed draw the same `n` values, both `Draws(seed, n)`. All draws of the first come before those of the second, so drawing from one series does not disturb the other. |
| AssetCatalog.CStrConcat | code/game_asset_catalog.cpp:30-42 | The buffer's text becomes its old text followed by that of `s`, then a NUL; every other character is unchanged. |
| AssetCatalog.TextEnd | code/game_asset_catalog.cpp:31-32 | The first loop stops at the buffer's first NUL. |
| AssetCatalog.CopyText | code/game_asset_catalog.cpp:34-39 | The second loop copies the text of `s`, without its NUL, to the buffer from the given position. It stops at the end of that text, and no other character changes. |
| AssetCatalog.CStrJoin | code/game_asset_catalog.cpp:30-42 | The text of `a`, then the text of `b`, then a NUL read back as the two texts joined. |
| AssetCatalog.CStrCopy | code/game_asset_catalog.cpp:44-51 | `dest` starts with the text of `src` and its NUL, so `dest` reads back as that text. The rest of `dest` is unchanged. |
| AssetCatalog.Catalog.constructor | code/game_asset_catalog.cpp:7 | A fresh, valid catalog with no paths, every character of its table NUL, as the zero-initialised global is. |
| AssetCatalog.Catalog.Init | code/game_asset_catalog.cpp:9-11 | `count` is 0 and every character of the table is NUL. |
| AssetCatalog.Catalog.Add | code/game_asset_catalog.cpp:13-28 | Slot `count` holds the path's text and a NUL, and `count` goes up by one. Every other character is unchanged. |
| AssetCatalog.Catalog.CopyToRow | code/game_asset_catalog.cpp:16-25 | Slot `n` starts with the path's text and its NUL; every other character of the table is unchanged. |
| AssetCatalog.Catalog.Candidate | code/game_asset_catalog.cpp:59-62 | The name tried for a slot holds no NUL, is as long as the slot's text, a slash and the file name together, and has the slash right after the slot's text. |
| AssetCatalog.Catalog.BuildCandidate | code/game_asset_catalog.cpp:59-62 | The buffer's text is the slot's path, a slash, and the file name. |
| AssetCatalog.Catalog.Try | code/game_asset_catalog.cpp:59-67 | True exactly when slot `i`'s candidate exists. Then `result` reads back as that candidate and changes only up to its NUL. Otherwise `result` is untouched. |
| AssetCatalog.Catalog.Find | code/game_asset_catalog.cpp:53-71 | True exactly when some candidate exists. Then the ghost result `at` is the first slot whose candidate exists, in insertion order. `result` reads back as that candidate and changes only up to its NUL. Otherwise `result` is untouched. |
| Game.Fresh | code/game.cpp:341-350 | A zeroed entity with the given slot index, id and type, in state `Initial`. |
| Game.ChangedState | code/game.cpp:219-222 | The new state, not yet entered; nothing else changes. |
| Game.EnteredState | code/game.cpp:224-228 | Answers whether the state had not been entered, and marks it entered; nothing else changes. |
| Game.EnterAnswers | code/game.cpp:224-228 | The answers of `k` successive calls. |
| Game.EnterAgain | code/game.cpp:224-228 | Once the state has been entered, every call answers false. |
| Game.EnterOnce | code/game.cpp:219-228 | After a change of state, the first call answers true and every later one false. |
| Game.Sweep | code/game.cpp:361-373 | The count never increases. |
| Game.SwapRemove | code/game.cpp:367-370 | Copying the last entity into slot `i` and dropping the last removes exactly the entity at `i` from the live multiset. |
| Game.SwapRemoveKeeps | code/game.cpp:366-371 | Removing a flagged entity keeps every unflagged entity's multiplicity, so a result that matches the shortened table on unflagged entities matches the whole table. |
| Game.SweepKeeps | code/game.cpp:361-373 | Every unflagged entity survives the pass as often as before, so the unflagged multiset is preserved. |
| Game.SweepSkipsCopiedIn | code/game.cpp:364-371 | With two flagged entities, the second is copied into slot 0 and not re-examined. It stays live, still flagged, with its stale `index`. |
| Game.SweepAll | code/game.cpp:361-373 | The corrected pass, which re-examines a slot after a swap. The count never increases. |
| Game.Unflagged | code/game.cpp:366 | The unflagged entities in order; none is flagged. |
| Game.UnflaggedCounts | code/game.cpp:366 | The filter keeps every unflagged entity's multiplicity and drops all flagged ones. |
| Game.SweepAllClean | code/game.cpp:361-373 | The corrected pass leaves no flagged entity among the live ones. |
| Game.SweepAllKeeps | code/game.cpp:361-373 | The corrected pass keeps every unflagged entity as often as before. |
| Game.FilterPermutation | code/game.cpp:366 | A sequence with no flagged entity that holds every unflagged entity of `s` as often as `s` does is a permutation of the unflagged entities of `s`. |
| Game.SweepAllIsFilter | code/game.cpp:361-373 | The corrected pass leaves a permutation of the unflagged entities. |
| Game.NextRow | code/game.cpp:661-663 | Row `y + 1` starts `w` cells after row `y`, inside the grid. |
| Game.FindLeader | code/game.cpp:656-671 | With a `#` present, it is the first `#` in row-major order; with none, the cell (0, 0). |
| Game.IsFollower | code/game.cpp:683 | A cell is a follower exactly when it is neither `.` nor `#`. |
| Game.CountFollowers | code/game.cpp:679-697 | The count of cells that are neither `.` nor `#`. |
| Game.CountRow | code/game.cpp:681-696 | One row of the scan adds the row's followers to the count of the cells before it. |
| Game.EntityTable.constructor | code/game.cpp:332 | An empty, zeroed table. |
| Game.EntityTable.NewEntity | code/game.cpp:336-356 | Slot `count` gets a fresh entity with index `count`, id `next_entity_id`, state `Initial` and the type. Both counters go up by one, and no other slot changes. |
| Game.EntityTable.ActuallyRemoveEntities | code/game.cpp:361-373 | The table and count are `Sweep` of the old ones. The loop re-reads the count before every step. |
| Game.EntityTable.RemoveFlaggedEntities | code/game.cpp:361-373 | The table and count are `SweepAll` of the old ones. |
| Game.EntityTable.ChangeState | code/game.cpp:219-222 | The entity becomes `ChangedState` of itself; no other slot changes. |
| Game.EntityTable.EnterState | code/game.cpp:224-228 | The answer and the entity are `EnteredState` of the old entity; no other slot changes. |
| Game.EntityTable.SpawnGoonFormation | code/game.cpp:654-745 | `1 + followers` goons with 2 hit points and consecutive ids are appended. The follower count must be at most 128. No other slot changes. |
| Game.EntityTable.NewFormed | code/game.cpp:721-744 | Slot `count` gets a fresh goon with 2 hit points and id `next_entity_id`. Both counters go up by one, and no other slot changes. |
| Game.Formed | code/game.cpp:722-744 | A fresh goon given 2 hit points. |
| Game.ActiveCount | code/game.cpp:925-944 | At most the number of slots. |
| Game.SpawnActiveCount | code/game.cpp:375-433 | Writing an active slot adds one to the active count, or nothing when it overwrites a slot still active. |
| Game.SpawnSlot | code/game.cpp:383-384 | The slot written by the `j`-th spawn from `next == k` lies inside the ring; `Game.Ring.SpawnRun` shows the spawns do write it. |
| Game.SpawnSlotNext | code/game.cpp:383-384 | Advancing `next` by one modulo the capacity takes the `j`-th spawn's slot to the `(j + 1)`-th. |
| Game.SpawnSlotsCover | code/game.cpp:383-384 | Every slot is `SpawnSlot(k, j, cap)` for some `j < cap`, so `cap` spawns in a row write every slot. |
| Game.Ring.constructor | code/game.cpp:332 | A zeroed ring of the given capacity. |
| Game.Ring.Spawn | code/game.cpp:375-433 | Writes slot `next` active and advances `next` by one modulo the capacity. No other slot changes. |
| Game.Ring.SpawnRun | code/game.cpp:375-433 | Successive spawns: the `j`-th writes slot `SpawnSlot(old next, j, cap)` active and `next` ends at `SpawnSlot(old next, n, cap)`. The stored active count is unchanged and every slot not written keeps its old value; `cap` spawns leave every slot active. |
| Game.Ring.CountActive | code/game.cpp:934-943 | The active count is the number of active slots, at most the capacity. |
| Game.GameState.constructor | code/game.cpp:332 | The zero-initialised global: an empty table of `ZERO_ENTITY` slots with both counters 0, and four fresh, distinct rings whose slots are all zeroed and inactive, with `next` and the active count 0. |
| Game.GameState.NewProjectile | code/game.cpp:375-387 | A zeroed active slot at `next_projectile_index`, which advances modulo 256. The stored active count is unchanged, and the other three rings' slot arrays, which the state keeps distinct, are unchanged. |
| Game.GameState.SpawnChainCircle | code/game.cpp:391-402 | An active slot at `next_chain_circle_index`, which advances modulo 256. The stored active count is unchanged, and the other three rings' slot arrays, which the state keeps distinct, are unchanged. |
| Game.GameState.SpawnScoreDot | code/game.cpp:407-415 | An active slot at `next_score_dot_index`, which advances modulo 256. The stored active count is unchanged, and the other three rings' slot arrays, which the state keeps distinct, are unchanged. |
| Game.GameState.SpawnExplosion | code/game.cpp:419-431 | An active slot at `next_explosion_index`, which advances modulo 8. The stored active count is unchanged, and the other three rings' slot arrays, which the state keeps distinct, are unchanged. |
| Game.GameState.CountActiveGameObjects | code/game.cpp:925-944 | Each active count is the number of active slots in its ring, at most its capacity. The slots and the four `next` indices are unchanged. |

## Left out

- Global random series: Dafny has no mutable module-level state. The wrappers at code/game_random.cpp:50-58 delegate to one series, which `Random.Series` models.
- `random_f32`, and every float computed from a draw: floating point is out of scope.
- Intrusive relinking: the two lists are sequences in list order, not `next` pointers inside the buffer. The headers' 24 bytes are not written into the managed array. Aliasing of a header with the free entry it replaces is therefore not modelled.
- Unsigned 64-bit wrap-around in the allocator: sizes and offsets are unbounded naturals, and the preconditions keep every block inside the buffer.
- Arena.MArena.Alloc: takes a non-negative size and a positive alignment (the C code divides by the alignment unchecked). `Align` itself is specified for negative sizes too, and with the default alignment of 16 the C code would, for a negative size:
  - for `-16 < size < 0`, hand out and zero 16 bytes, as for size 0;
  - for `-32 < size <= -16`, get an aligned size of 0, so `pos` stays and nothing is zeroed;
  - for `size <= -32`, get a negative aligned size, so `pos` moves back and `zero_memory` runs past the buffer.
- Base.ZeroMemory: a negative size is excluded. The C code divides it by `sizeof(u64)`, which converts it to `u64`, so it would clear between 2^60 and 2^61 words, far past the buffer; `WordTail` gives that count.
- Arena.MArena.EndFrame: an unbalanced frame (a mark above `size`) is excluded by the precondition rather than modelled.
- Freeing a pointer that is not live is undefined behaviour (the lookup runs off the list); `Free` requires a live pointer.
- The web build, where `Assert` does nothing: the model takes the native build's `Assert`s as preconditions.
- Random.ChanceOf, Random.RangeOf: a `value` of 0, a `min` equal to `max`, and a `max - min` that overflows `s32` are excluded by the preconditions. In C the first two divide by zero and the third overflows a signed subtraction, all undefined behaviour.
- Random.RangeOf: for `min > max`, C's `s32` addition may overflow, which is undefined behaviour; the model wraps it. Only `min < max` is given a meaning by the contract.
- AssetCatalog.Catalog.Find: requires every slot's candidate to fit the 128-character search buffer and `result`, even slots after the first hit. The C code appends without a bound, so a longer candidate overruns `buff`; that overrun is not modelled.
- `FileExists` is a parameter of `Find`; the texture and font loaders that call `asset_catalog_find` are left out.
- Entity and slot payloads:
  - positions, directions, colours, radii, timers and the other float fields are left out, though the integer hit points are kept;
  - a ring slot's payload is one integer that stands for all its other fields;
  - the leader's cell from `FindLeader` feeds only float positions, so it is returned but not used.
- SpawnGoonFormation: `random_range`, `random_b32`, `random_f32` and `random_screen_pos` advance the global series, and they only influence float positions, so they are not modelled. Grid sizes are natural numbers.
- Game.GameState.SpawnExplosion: `spawn_explosion` draws `random_f32()` for the explosion's float fields (code/game.cpp:425), which advances the global series; the model does not advance any series there.
- Movement, collision, input, rendering, timers and asset loading: these are float computations or host calls.

## Findings

| source | as written | input that shows it | evidently intended | confidence | as-written member | corrected member |
|---|---|---|---|---|---|---|
| code/game.cpp:364-371 | After a flagged entity is overwritten by the last one, the loop moves on to `i + 1`, so the entity just copied in is never examined. | Two live entities, both flagged: the second is copied into slot 0 and stays live and flagged for another frame, with the stale `index` 1. | Every flagged entity is removed in one pass, leaving exactly the unflagged ones. | medium, not executed: a surviving flagged entity is removed on the next frame's pass, but it is updated once more in between. | Game.SweepSkipsCopiedIn | Game.SweepAllIsFilter |
