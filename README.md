# ArceOS ramfs directories, chained hash map and early allocator in Dafny

This project models three sequential components of the ArceOS kernel and proves properties about them.

- **The ramfs directory tree** (`axfs_ramfs/src/dir.rs`).
  - Directory nodes hold a name-ordered child table and a parent back-link.
  - Table mutators: `create_node`, `remove_node`, `rename_node`.
  - Path walkers: `lookup`, `create`, `remove`.
  - `read_dir` pages through `.`, `..` and the children in name order.
  - `rename` renames within one directory, or moves an entry between two directories with a roll-back.
  - The nodes live in a heap `map<NodeId, Node>` owned by the class `RamFs`. Node identity is the id, as the source compares directories by address.
  - The child table (`child_table.dfy`) is a strictly name-sorted sequence standing for the `BTreeMap`. `ToMap` is its abstract view.
  - The path splitters are in `path.dfy`.
- **The separate-chaining hash map** (`axstd/src/new_collections/hashmap.rs`).
  - A power-of-two vector of buckets plus a pair count.
  - `insert` replaces or appends in the probed bucket. `resize` doubles and re-places every pair. `get` scans one bucket. A two-cursor iterator walks the buckets.
  - `hasher.dfy` holds the FNV-style `SimpleHasher` on `bv64`.
  - The hasher is reseeded at random for every hash (hashmap.rs:72, 130), so a key's hash is not a function of the key. Every operation therefore takes the hash it uses as an input.
- **The early bump allocator** (`modules/bump_allocator/src/lib.rs`).
  - One range is handed out from both ends: bytes forward from `start`, pages backward from `end`.
  - Freeing only lowers counters.
  - A ghost list of the regions handed out since `init` carries the invariant that they are pairwise disjoint and lie outside the free gap.
- **Machine words** (`bits.dfy`) are naturals below 2^64. Bitwise AND is defined bit by bit. It is proved to be a modulo for a low mask (`bucket_index`) and a round-down for a high mask (the allocator's alignment).

Three behaviours are modelled as the code has them:

- No cycle check: the parent link is a `Weak` (dir.rs:17), which only avoids leaks if ownership forms a tree, but `rename` never checks that the target is outside the moved directory (`MoveIntoItselfMakesCycle`, `RenameIntoOwnSubdirMakesCycle`).
- Stale `..`: a directory moved to another parent keeps its old parent link (`MovedDirKeepsOldParent`).
- No reclaim: the allocator's doc comment (lib.rs:22-24) says the byte area is freed when its count reaches zero, but `dealloc` only lowers the count (`EarlyAllocator.Dealloc`).

## Model

| member | source | states |
|---|---|---|
| RamfsPath.TrimSlashes | arceos/axfs_ramfs/src/dir.rs:228 | the result is a suffix of the input, starts with no '/', and everything dropped is '/' |
| RamfsPath.FindSlash | arceos/axfs_ramfs/src/dir.rs:229 | `None` exactly when there is no '/'; otherwise the index of a '/' with none before it |
| RamfsPath.RFindSlash | arceos/axfs_ramfs/src/dir.rs:236 | `None` exactly when there is no '/'; otherwise the index of a '/' with none after it |
| RamfsPath.SplitPath | arceos/axfs_ramfs/src/dir.rs:227-232 | the head has no '/'; with no rest it is the whole trimmed path; with a rest, trimmed path == head + "/" + rest, and the rest is shorter than the path |
| RamfsPath.SplitParentName | arceos/axfs_ramfs/src/dir.rs:234-243 | never fails; the name has no '/'; without '/' gives (".", path); otherwise the text around the last '/', with "/" for an empty parent |
| RamfsPath.StripTmpPrefix | arceos/axfs_ramfs/src/dir.rs:188 | strips "tmp/" exactly when the path starts with it |
| ChildTable.NameLessTransitive | arceos/axfs_ramfs/src/dir.rs:18 | the name order of the `BTreeMap` is transitive (with `NameLessIrreflexive`, `NameLessTotal`, `NameLessAsymmetric`: a strict total order) |
| ChildTable.ToMapEntries | arceos/axfs_ramfs/src/dir.rs:18 | every entry's name is a key of the table's map, and every key comes from an entry holding its node |
| ChildTable.Insert | arceos/axfs_ramfs/src/dir.rs:55 | `BTreeMap::insert` keeps the table sorted, its map becomes `old[name := id]`, and no other entry appears |
| ChildTable.Remove | arceos/axfs_ramfs/src/dir.rs:68 | `BTreeMap::remove` keeps the table sorted, its map becomes `old - {name}`, and no entry appears |
| ChildTable.SameMapSameTable | arceos/axfs_ramfs/src/dir.rs:18 | two sorted tables with the same map are the same table, so the order a listing shows depends on the contents alone |
| ChildTable.RemoveThenInsert | arceos/axfs_ramfs/src/dir.rs:211-215 | taking an entry out and putting it back under its name restores the very same table (the roll-back of `rename`) |
| RamfsDir.Exist | arceos/axfs_ramfs/src/dir.rs:40-42 | true exactly when some entry of the table has the name |
| RamfsDir.GetEntries | arceos/axfs_ramfs/src/dir.rs:35-37 | the names come in strictly ascending order and are exactly the keys of the table |
| RamfsDir.Parent | arceos/axfs_ramfs/src/dir.rs:91-93 | a parent link, when present, names a directory of the heap |
| RamfsDir.GetAttr | arceos/axfs_ramfs/src/dir.rs:87-89 | a directory reports type Dir, size 4096 and 0 blocks |
| RamfsDir.Step | arceos/axfs_ramfs/src/dir.rs:97-106 | "" and "." give the directory itself, ".." its parent link (NotFound if none), any other name its child (NotFound exactly when absent) |
| RamfsDir.Lookup | arceos/axfs_ramfs/src/dir.rs:95-113 | a success names a heap node; the only error is NotFound; a walk into a file hands the rest of the path to that file |
| RamfsDir.Walk | arceos/axfs_ramfs/src/dir.rs:136-150 | the walk `create` and `remove` share ends at a directory with a last component free of '/'; the only error is NotFound |
| RamfsDir.LookupIsWalkThenStep | arceos/axfs_ramfs/src/dir.rs:95-113 | `lookup` is the `create`/`remove` walk followed by resolving the last component there |
| RamfsDir.ListingOrder | arceos/axfs_ramfs/src/dir.rs:115-132 | the listing `read_dir` pages through starts with "." and "..", both directories, then lists the children in strictly ascending name order |
| RamfsDir.ListingCoversChildren | arceos/axfs_ramfs/src/dir.rs:117-124 | a name is listed after "." and ".." exactly when it is a child |
| RamfsDir.ListingTypes | arceos/axfs_ramfs/src/dir.rs:123-124 | each listed child carries the type of the node its name maps to |
| RamfsDir.CreateThenLookup | arceos/axfs_ramfs/src/dir.rs:45-57 | after `create_node` makes file `name`, looking `name` up finds the new file |
| RamfsDir.RenameInPlaceThenLookup | arceos/axfs_ramfs/src/dir.rs:72-83 | after `rename_node` from a to b, a is NotFound and b finds the node a found |
| RamfsDir.MovedDirKeepsOldParent | arceos/axfs_ramfs/src/dir.rs:209-219 | after a cross-directory move of a directory, its ".." still resolves to the directory it left |
| RamfsDir.MoveIntoItselfMakesCycle | arceos/axfs_ramfs/src/dir.rs:209-219 | for any child directory `a` (entry `x`) of `s` and any name `y` that `a` lacks, moving `x` into `a` as `y` returns Ok, removes `x` from `s` and makes `a` its own child under `y` |
| RamfsDir.SplitIntoOwnSubdir | arceos/axfs_ramfs/src/dir.rs:186-191 | `rename("a", "a/a")` splits into source (".", "a") and target ("a", "a") |
| RamfsDir.RenamedAcross | arceos/axfs_ramfs/src/dir.rs:196-219 | when the two parent paths resolve to distinct directories, `rename` is exactly the cross-directory move |
| RamfsDir.RenameIntoOwnSubdirMakesCycle | arceos/axfs_ramfs/src/dir.rs:182-220 | a `rename` from the current directory into the same entry's own table (such as `rename("a", "a/a")`) returns Ok and makes the child directory its own child |
| RamfsDir.RamFs.constructor | arceos/axfs_ramfs/src/dir.rs:22-28 | the root: an empty directory without a parent |
| RamfsDir.RamFs.CreateNode | arceos/axfs_ramfs/src/dir.rs:45-57 | AlreadyExists with nothing changed if the name is present; Unsupported for other types; else one fresh node (a Dir's parent is this directory) bound under `name`, all other entries untouched |
| RamfsDir.RamFs.RemoveNode | arceos/axfs_ramfs/src/dir.rs:60-70 | NotFound if absent; DirectoryNotEmpty with nothing changed for a non-empty directory; else only that key is removed |
| RamfsDir.RamFs.RenameNode | arceos/axfs_ramfs/src/dir.rs:72-83 | NotFound if the old name is absent; AlreadyExists if the new name is present (also when the names are equal); else the same node moves to the new name |
| RamfsDir.RamFs.Create | arceos/axfs_ramfs/src/dir.rs:134-156 | a failed walk changes nothing; "", "." or ".." at the end succeed with no change; otherwise it is `create_node` in the directory reached |
| RamfsDir.RamFs.Remove | arceos/axfs_ramfs/src/dir.rs:158-180 | a failed walk changes nothing; "", "." or ".." at the end give InvalidInput; otherwise it is `remove_node` in the directory reached |
| RamfsDir.RamFs.Rename | arceos/axfs_ramfs/src/dir.rs:182-220 | trims both paths and strips "tmp/" from the new one; a parent path that fails to resolve or is a file fails with nothing changed; the same directory gives `rename_node`, two directories a move |
| RamfsDir.RamFs.MoveAcross | arceos/axfs_ramfs/src/dir.rs:209-219 | NotFound with nothing changed if the entry is absent; AlreadyExists with both tables exactly as before if the new name is taken; else the node leaves the source and joins the destination under the new name, its own parent link unchanged |
| RamfsDir.RamFs.ReadDir | arceos/axfs_ramfs/src/dir.rs:115-132 | slot k receives listing entry start+k; the count is min(slots, max(0, children+2-start)); later slots keep their contents |
| Hasher.SimpleHasher.constructor | arceos/ulib/axstd/src/new_collections/hashmap.rs:37-44 | the state starts at (offset basis + seed) times the FNV prime, wrapping |
| Hasher.SimpleHasher.Write | arceos/ulib/axstd/src/new_collections/hashmap.rs:59-64 | the state after writing is the byte-by-byte absorption of the bytes |
| Hasher.AbsorbConcat | arceos/ulib/axstd/src/new_collections/hashmap.rs:59-64 | writing `a` and then `b` is writing `a + b` |
| Hasher.SimpleHasher.Finish | arceos/ulib/axstd/src/new_collections/hashmap.rs:48-57 | the hash is the splitmix64 finaliser `Mix` of the state, wrapping at 2^64 |
| ChainedHashMap.NextPowerOfTwo | arceos/ulib/axstd/src/new_collections/hashmap.rs:113 | `next_power_of_two` gives a power of two at least `n`, and no power of two at least `n` is smaller (with `NextPowerOfTwoLeast`) |
| ChainedHashMap.NextPowerOfTwoLeast | arceos/ulib/axstd/src/new_collections/hashmap.rs:113 | every power of two that is at least `n` is at least `NextPowerOfTwo(n)` |
| ChainedHashMap.SaturatingDouble | arceos/ulib/axstd/src/new_collections/hashmap.rs:165 | `saturating_mul(2)`: the double when it fits in a `usize`, else `usize::MAX` |
| ChainedHashMap.DoublingChangesCapacity | arceos/ulib/axstd/src/new_collections/hashmap.rs:165-170 | for every bucket count a map can have, doubling changes it, so the early return of `resize` is never taken |
| ChainedHashMap.Index | arceos/ulib/axstd/src/new_collections/hashmap.rs:135-141 | 0 with no buckets, otherwise an index below the bucket count |
| ChainedHashMap.IndexIsModulo | arceos/ulib/axstd/src/new_collections/hashmap.rs:139-140 | for a power-of-two bucket count, masking is the hash modulo the count |
| ChainedHashMap.Redistribute | arceos/ulib/axstd/src/new_collections/hashmap.rs:172-189 | the buckets a resize builds: as many as requested |
| ChainedHashMap.RedistributeKeepsPairs | arceos/ulib/axstd/src/new_collections/hashmap.rs:177-189 | re-placing keeps every pair exactly once: same multiset, same count |
| ChainedHashMap.PickedPlacement | arceos/ulib/axstd/src/new_collections/hashmap.rs:184-186 | a pair ends up in the bucket its hash selects |
| ChainedHashMap.FindKey | arceos/ulib/axstd/src/new_collections/hashmap.rs:213-217 | the first position holding the key, or `None` exactly when no pair holds it |
| ChainedHashMap.Find | arceos/ulib/axstd/src/new_collections/hashmap.rs:230-245 | `None` exactly when the probed bucket has no pair with the key; otherwise a value stored with the key there |
| ChainedHashMap.Prepared | arceos/ulib/axstd/src/new_collections/hashmap.rs:143-158 | `resize_if_needed` doubles the bucket count exactly when the load exceeds 0.75 |
| ChainedHashMap.PreparedKeepsPairs | arceos/ulib/axstd/src/new_collections/hashmap.rs:143-158 | `resize_if_needed` keeps every pair exactly once |
| ChainedHashMap.InsertedThenFind | arceos/ulib/axstd/src/new_collections/hashmap.rs:194-245 | a `get` using the same hash as the insert finds the inserted value; a lookup of any other key finds what it found before |
| ChainedHashMap.InsertedPairs | arceos/ulib/axstd/src/new_collections/hashmap.rs:212-221 | insert adds exactly one pair when the key was absent from the probed bucket, else swaps the first pair with the key for the new pair |
| ChainedHashMap.SameKeyStoredTwice | arceos/ulib/axstd/src/new_collections/hashmap.rs:72 | one key inserted under two hashes ends up stored twice, and each lookup sees only one of the values |
| ChainedHashMap.NoPairsEmptyBuckets | arceos/ulib/axstd/src/new_collections/hashmap.rs:235 | a map with no pairs has only empty buckets, so `get`'s early return agrees with a bucket scan |
| ChainedHashMap.HashMap.WithCapacity | arceos/ulib/axstd/src/new_collections/hashmap.rs:112-123 | max(8, next power of two of the capacity) empty buckets, count 0 |
| ChainedHashMap.HashMap.New | arceos/ulib/axstd/src/new_collections/hashmap.rs:101-103 | eight empty buckets, count 0 |
| ChainedHashMap.HashMap.Resize | arceos/ulib/axstd/src/new_collections/hashmap.rs:160-190 | the buckets become the redistribution of the old pairs into twice as many buckets; the count is unchanged |
| ChainedHashMap.HashMap.ResizeIfNeeded | arceos/ulib/axstd/src/new_collections/hashmap.rs:143-158 | the buckets become `Prepared` of the old ones; the count is unchanged |
| ChainedHashMap.HashMap.Insert | arceos/ulib/axstd/src/new_collections/hashmap.rs:194-222 | returns the old value of the first pair with the key in the probed bucket, or `None`; `None` adds the pair and one to the count, a replacement swaps the old pair for the new one |
| ChainedHashMap.HashMap.Get | arceos/ulib/axstd/src/new_collections/hashmap.rs:230-245 | the first value stored with the key in the probed bucket |
| ChainedHashMap.HashMap.Len | arceos/ulib/axstd/src/new_collections/hashmap.rs:247-249 | the number of stored pairs |
| ChainedHashMap.HashMap.IsEmpty | arceos/ulib/axstd/src/new_collections/hashmap.rs:251-253 | true exactly when no pair is stored |
| ChainedHashMap.HashMap.Iter | arceos/ulib/axstd/src/new_collections/hashmap.rs:225-227 | a fresh iterator whose remaining pairs are all stored pairs in bucket order |
| ChainedHashMap.Iter.constructor | arceos/ulib/axstd/src/new_collections/hashmap.rs:265-272 | both cursors at 0, every pair still to come |
| ChainedHashMap.Iter.Next | arceos/ulib/axstd/src/new_collections/hashmap.rs:283-300 | yields the next remaining pair and drops it from what remains, or `None` for good once nothing remains |
| Bits.AndLowMask | arceos/ulib/axstd/src/new_collections/hashmap.rs:140 | for a power of two n, `x & (n - 1) == x % n` |
| Bits.AndHighMask | arceos/modules/bump_allocator/src/lib.rs:73 | masking with the complement of 2^i - 1 in a w-bit word rounds down to a multiple of 2^i |
| BumpAllocator.MaskDown | arceos/modules/bump_allocator/src/lib.rs:112 | `x & !(m - 1)` never exceeds x, and for a power of two m rounds x down to a multiple of m |
| BumpAllocator.AlignUp | arceos/modules/bump_allocator/src/lib.rs:73 | `(x + align - 1) & !(align - 1)` is a multiple of align in [x, x + align) |
| BumpAllocator.AlignUpLeast | arceos/modules/bump_allocator/src/lib.rs:73 | it is the least multiple of align at or above x |
| BumpAllocator.EarlyAllocator.constructor | arceos/modules/bump_allocator/src/lib.rs:38-48 | all positions and counters 0, not initialised |
| BumpAllocator.EarlyAllocator.Init | arceos/modules/bump_allocator/src/lib.rs:52-60 | `b_pos = start`, `p_pos = end = start + size`, counters 0, initialised, nothing handed out; total and available bytes both equal size |
| BumpAllocator.EarlyAllocator.AddMemory | arceos/modules/bump_allocator/src/lib.rs:62-65 | always InvalidParam, nothing changed |
| BumpAllocator.EarlyAllocator.Alloc | arceos/modules/bump_allocator/src/lib.rs:69-84 | NoMemory when not initialised or when the aligned block would pass `p_pos`, with nothing changed; else returns `b_pos` rounded up to align, moves `b_pos` to the block's end and adds size to the count; the block is disjoint from every region handed out before |
| BumpAllocator.EarlyAllocator.Dealloc | arceos/modules/bump_allocator/src/lib.rs:86-89 | only the byte count drops, saturating at 0; no position moves, so nothing is reclaimed |
| BumpAllocator.EarlyAllocator.AllocPages | arceos/modules/bump_allocator/src/lib.rs:107-119 | NoMemory with nothing changed when not initialised, when `p_pos - size` would go below 0, or when the masked position is below `b_pos`; else `p_pos` moves to the masked position, which is returned and is aligned for a power-of-two alignment |
| BumpAllocator.EarlyAllocator.DeallocPages | arceos/modules/bump_allocator/src/lib.rs:121-124 | only the page count drops, saturating at 0; pages are never reclaimed |
| BumpAllocator.EarlyAllocator.TotalBytes | arceos/modules/bump_allocator/src/lib.rs:91-93 | `start + total == end`, below 2^64 |
| BumpAllocator.EarlyAllocator.UsedBytes | arceos/modules/bump_allocator/src/lib.rs:95-97 | in a valid state the bytes in use fit below `b_pos` |
| BumpAllocator.EarlyAllocator.AvailableBytes | arceos/modules/bump_allocator/src/lib.rs:99-101 | `b_pos + available == p_pos` when `b_pos <= p_pos`, else 0 (saturating) |
| BumpAllocator.EarlyAllocator.TotalPages | arceos/modules/bump_allocator/src/lib.rs:126-128 | the largest page count whose bytes fit in the range (floor division) |
| BumpAllocator.EarlyAllocator.UsedPages | arceos/modules/bump_allocator/src/lib.rs:130-132 | in a valid state the bytes of the pages in use fit above `p_pos` |
| BumpAllocator.EarlyAllocator.AvailablePages | arceos/modules/bump_allocator/src/lib.rs:134-136 | the largest page count whose bytes fit in the available bytes (floor division) |
| BumpAllocator.Accounting | arceos/modules/bump_allocator/src/lib.rs:91-136 | used bytes + available bytes + bytes of used pages never exceed total bytes; available pages fit in available bytes; used + available pages never exceed total pages |

## Left out

- Locking (`spin::RwLock`) and the lock order of cross-directory `rename` are not modelled. Every operation runs alone.
- Reclamation is not modelled. `Arc`/`Weak` lifetimes, `Arc::new_cyclic` and drop-based teardown are out, and removed nodes stay in the heap. So a `..` whose old parent was removed and dropped resolves in the model, where the source's `Weak::upgrade` would fail.
- `FileNode` (`axfs_ramfs/src/file.rs`) is not part of this model. A walk that reaches a file returns `AtFile(file, rest)` instead of inventing the file's answer.
- `set_parent` (dir.rs:30-32) is not modelled. No operation in dir.rs calls it.
- `as_any`/`downcast_ref` are not modelled as such. They become the `DirNode`/`FileNode` case split.
- Logging calls are left out.
- Cycles are not excluded: `Closed` does not claim that the tree is acyclic, because the code can create a cycle.
- RamfsDir.RamFs.RemoveNode: when the entry names the directory itself (after a self-move), the source deadlocks, because `remove_node` holds the table's write lock (dir.rs:61) and then takes a read lock on the same table (dir.rs:64). The model has no locks and returns `DirectoryNotEmpty`.
- The random hash seed (`ax_rand_u64`, `AxRandomState`, `make_hash`) is not modelled. Each hash is an input.
- Hasher.SimpleHasher.Finish: states only that the hash is the splitmix64 finaliser of the state. That the finaliser is a bijection on 64-bit words is not proved; the composed bit-vector proof is beyond the solver's budget.
- The `Hash` trait's encoding of keys into bytes is not modelled.
- Get-after-insert with fresh hashes is not claimed. With independent random hashes, the source does not find the key reliably.
- The `f32` load factor is modelled as the exact test `4 * len > 3 * cap`. Floating-point rounding is not modelled.
- The `Borrow<Q>` generality of `get` is not modelled. A single key type is used.
- The empty-bucket branches of `resize_if_needed` and `resize`, and the panic guard of `insert` (hashmap.rs:144-152, 162-163, 201-208), are not modelled. The invariant keeps at least 8 buckets, so they are unreachable.
- ChainedHashMap.HashMap.Insert: requires `2 * |buckets| <= MaxBuckets` when a resize is due, because allocation failure of a larger vector is not modelled.
- The pair count `len` has no `usize` overflow. The bucket limit bounds it in practice.
- BumpAllocator.EarlyAllocator.Alloc: requires that `b_pos + align - 1` and `pos + size` fit in a `usize`. Overflow is excluded rather than modelled.
- BumpAllocator.EarlyAllocator.AllocPages: requires that `num_pages * PAGE_SIZE` and `align_pow2 * PAGE_SIZE` fit in a `usize`, and that `align_pow2 > 0` so that `align_pow2 * PAGE_SIZE - 1` cannot underflow.
- BumpAllocator.EarlyAllocator.Init: requires that `start + size` fit in a `usize`.
- The static `POOL` and the `NonNull` pointer of `alloc` (lib.rs:10, 80-83) are not modelled. `alloc` returns the integer position `pos` instead of `POOL + (pos - start)`.
- The allocator traits of the external `allocator` crate are not modelled. The `PAGE_SIZE` const parameter becomes the `pageSize` field, and it must be positive.
