# safa-api runtime core in Dafny

This project models the runtime layer of the safa-api userspace library:

- the heap allocator (`src/alloc.rs`): an intrusive singly-linked list of 32-byte block headers carved out of page-granted OS memory, with exact-fit/best-fit search, block splitting, growth by prepending fresh regions, and forward coalescing of contiguous free blocks;
- the futex mutex (`src/sync/locks.rs`) as a sequential state machine on its 32-bit `state` word (AVAILABLE = 0, LOCKED = 1, WAITED_ON = 2);
- the lazy cell (`src/sync/cell.rs`): the tri-state `LazyData` and the `running_init` flag;
- the environment table (`src/process/env.rs`, `EnvVars`): ordered (key, value) byte strings, a `size_hint` counter and serialisation into `key=value\0` records;
- the argument static and cursor (`src/process/args.rs`).

Files and modules:

| file | module | contents |
|---|---|---|
| `types.dfy` | `Types` | `Option`, `u8`, `u32`, `Bytes` |
| `alloc_spec.dfy` | `AllocSpec` | the block list as a sequence of `Header` values in list order; its invariant `WellFormed` (non-null, H-aligned headers, data lengths multiples of H, pairwise disjoint spans, hence acyclic); one pure function per list operation and the lemmas about them |
| `alloc.dfy` | `Alloc` | `SystemAllocator`: `head`, the header memory `mem: map<address, Block>` and a ghost list order; every method is proved to compute the pure function of `AllocSpec` on the list |
| `locks.dfy` | `Locks` | `Mutex`, `MutexGuard` |
| `cell.dfy` | `Cell` | `LazyData`, `LazyCell` |
| `env.dfy` | `Env` | `EnvVars` and the pure table functions (`Lookup`, `SetEntry`, `RemoveEntry`, `Weight`, `Serialize`) |
| `args.dfy` | `Args` | `RawArgsStatic`, `ArgsIter` |

Constants are those of a 64-bit target: H = `size_of::<Block>()` = 32, `align_of::<Block>()` = 8, a page is 4096 bytes, and `isize::MAX` = 2^63 - 1.

The outside world comes in as parameters:
- the OS mapping of `sys_allocate` is `grant: Option<nat>`. `None` means the mapping failed. `Some(base)` means a fresh page-aligned region of `ceil(n/4096)*4096` bytes at `base`.
- each futex wait of `lock` is a `WaitStep`. The wait either fails or returns with the word holding some value.
- the weak compare-exchange's spurious failure is a boolean.
- a failing `futex_wake` is a boolean.
- the progress of another thread initialising a `LazyCell` is a schedule of `Option<T>`.

Panics (`assert!`, `expect`) become explicit outcomes, not preconditions. So does a loop that never ends.

## Model

| member | source | states |
|---|---|---|
| AllocSpec.NextMultipleOf | src/alloc.rs:40-42 | the result is the least multiple of m not below x |
| AllocSpec.GrantedBytes | src/alloc.rs:22-35 | the mapping for a size hint is a whole number of pages, at least the hint and less than one page more |
| AllocSpec.CreateSize | src/alloc.rs:40-42 | the region requested is the data length rounded up to H plus one header, a multiple of H |
| AllocSpec.CreateBlocks | src/alloc.rs:39-70 | panics exactly when the size exceeds isize::MAX. Fails exactly when the mapping fails. Otherwise the first block is free at the base with data length roundup(n, H), a second free block starting right after it exists exactly when the mapping has surplus, and the last block ends at the end of the mapping |
| AllocSpec.CreateTotal | src/alloc.rs:45-67 | the created blocks tile exactly the mapped bytes |
| AllocSpec.CreateWellFormed | src/alloc.rs:178-186 | prepending the created blocks of a fresh region to a well-formed list keeps it well-formed |
| AllocSpec.BlockFromDataPtr | src/alloc.rs:75-77 | the header sits H bytes before the data pointer |
| AllocSpec.DataFromPtr | src/alloc.rs:81-87 | the data slice starts H bytes after the header and ends where the block's span ends; block_from_data_ptr of its pointer gives back the header (round trip) |
| AllocSpec.SearchLen | src/alloc.rs:104-107 | the length the search compares against is at least the requested one and less than 8 more, and with the header added it is a multiple of 8 |
| AllocSpec.SearchLenOfMultiple | src/alloc.rs:104-107 | the search's length normalisation leaves a multiple of H unchanged |
| AllocSpec.ScanFrom | src/alloc.rs:109-139 | the header walk from position i, carrying the best block so far; an exact-fit, best-fit or spin answer names a block of the list (AllocSpec.ScanFromChosen gives which one) |
| AllocSpec.Choose | src/alloc.rs:101-140 | try_find_block's answer is the walk from the head with no best block yet; a block it names is in the list, and AllocSpec.ChooseChosen characterises it |
| AllocSpec.ScanFromChosen | src/alloc.rs:109-139 | a walk resumed at position i, with the blocks before i passed over and the best block so far the earliest smallest larger usable one, ends in the answer the declarative description gives |
| AllocSpec.ChooseChosen | src/alloc.rs:101-140 | the scan returns only a free block whose data address is a multiple of the rounded alignment. It returns the first exact-length block in list order if there is one, otherwise the smallest strictly larger block (the earliest on ties), otherwise nothing when every free block is shorter. If it first meets a free misaligned block, it spins forever |
| AllocSpec.ChosenUnique | src/alloc.rs:101-140 | that characterisation admits exactly one answer, so it specifies the search completely |
| AllocSpec.NoSpinWhenAligned | src/alloc.rs:119-124 | on a well-formed list, a rounded alignment dividing H never makes the search spin |
| AllocSpec.SplitAt | src/alloc.rs:160-174 | after a split the block keeps R data bytes. A new free block at block + H + R takes the rest of the span minus one header and ends where the old block ended. It sits between the block and its old successor; all other blocks are unchanged |
| AllocSpec.SplitIfWorth | src/alloc.rs:160-174 | splits exactly when the block exceeds R + H: the block then keeps R data bytes and the new block after it ends where the old one ended. Otherwise the list is unchanged |
| AllocSpec.SplitTotal | src/alloc.rs:160-174 | splitting conserves the total span |
| AllocSpec.SplitWellFormed | src/alloc.rs:160-174 | splitting by a multiple of H keeps the list well-formed |
| AllocSpec.Absorb | src/alloc.rs:211-215 | the absorbing block keeps its address and free flag, and when it was contiguous with the absorbed block it now ends where that one ended |
| AllocSpec.MergePass | src/alloc.rs:191-220 | one walk over the list joining contiguous free neighbours; it never lengthens the list and keeps the first block's address, as merge_blocks never changes head |
| AllocSpec.MergeTotal | src/alloc.rs:191-220 | a merge pass conserves the total span |
| AllocSpec.MergeKeepsUsed | src/alloc.rs:191-220 | a merge pass keeps every used block unchanged, introduces no new header address and never lengthens the list |
| AllocSpec.MergeWellFormed | src/alloc.rs:191-220 | a merge pass keeps the list well-formed |
| AllocSpec.MergeCoversFree | src/alloc.rs:191-220 | after a merge pass every formerly free block's span lies inside a free block |
| AllocSpec.MergeSkipsMergedBlock | src/alloc.rs:211-217 | three contiguous free blocks merge into two in one pass: the walk moves past the block that absorbed its successor |
| AllocSpec.FindBlockSpec | src/alloc.rs:145-189 | a block find_block returns is in the resulting list |
| AllocSpec.FindBlockFound | src/alloc.rs:145-189 | a block find_block returns implies all of: the alignment is at most a page; the block is in the resulting list and still free; its length is R or R + H, with R the size rounded up to H; its data address meets the rounded alignment, unless the heap grew, in which case it heads the new region |
| AllocSpec.FindBlockKeepsUsed | src/alloc.rs:145-189 | find_block keeps every used block unchanged in the list |
| AllocSpec.FindBlockWellFormed | src/alloc.rs:145-189 | find_block keeps the list well-formed, including growth by a fresh region |
| AllocSpec.AllocateSpec | src/alloc.rs:222-229 | allocate is find_block followed by marking the block used; any outcome other than a granted slice leaves the list unchanged |
| AllocSpec.AllocateWellFormed | src/alloc.rs:222-229 | allocate keeps the list well-formed |
| AllocSpec.AllocateTotal | src/alloc.rs:222-229 | allocate conserves the total span unless it grew the heap, in which case the total grows by exactly the mapped bytes. On failure, panic or spin the list is unchanged |
| AllocSpec.AllocateGranted | src/alloc.rs:222-229 | a granted slice implies all of: the alignment is at most a page; the length is R or R + H, with R the size rounded up to H, and never below the size; its header is in the list and marked used with that length; the pointer is aligned to the rounded alignment, except when the heap grew, in which case it is the new region's base + H |
| AllocSpec.AllocateKeepsLive | src/alloc.rs:222-229 | allocate keeps every used block unchanged, and the granted slice overlaps none of their data |
| AllocSpec.ExactFitReused | src/alloc.rs:126-128 | with an exact-length free aligned block that the scan reaches, allocate hands out that block's data and only marks it used |
| AllocSpec.SmallAlignmentHonoured | src/alloc.rs:119-124 | for the power-of-two alignments 1, 2, 4, 8, 16 and 32, allocate never spins, and the pointer it grants is aligned |
| AllocSpec.NonPowerOfTwoAlignmentHangs | src/alloc.rs:102-124 | an 8-byte request at alignment 24 spins, because the free block's data address 4192 is not a multiple of 24 |
| AllocSpec.NonPowerOfTwoAlignmentMisaligned | src/alloc.rs:102-128 | an 8-byte request at alignment 3 is granted 4192, which is not a multiple of 3, because the alignment is only rounded up to 8 |
| AllocSpec.GrowthIgnoresAlignment | src/alloc.rs:178-186 | on an empty heap, a 64-aligned request is granted at page + 32, which is not 64-aligned |
| AllocSpec.MisalignedFreeBlockHangs | src/alloc.rs:119-124 | a well-formed list whose free blocks have data addresses misaligned for 64 makes a 64-aligned allocate spin |
| AllocSpec.DeallocateSpec | src/alloc.rs:231-239 | deallocate is marking the block free followed by a merge pass; the list stays non-empty, never grows, and keeps its first block |
| AllocSpec.DeallocateKeeps | src/alloc.rs:231-239 | deallocate keeps the list well-formed, conserves the total span, and keeps every other used block |
| AllocSpec.DeallocateFrees | src/alloc.rs:231-239 | after deallocate, the freed pointer lies inside a free block |
| AllocSpec.ReuseAfterFree | src/alloc.rs:222-239 | the sequence allocate 100, allocate 200, free the first, allocate 100 hands out 4128, then 4288, then 4128 again |
| Alloc.LinkedSplit | src/alloc.rs:164-173 | writing the new header and then the shortened header into memory yields the linked list of the split |
| Alloc.GrowLinked | src/alloc.rs:179-184 | pointing the new region's last block at the old head links the created blocks in front of the old list |
| Alloc.LinkedAbsorb | src/alloc.rs:213-214 | taking over the successor's next pointer and length links the list with the two blocks merged |
| Alloc.ToRaw | src/alloc.rs:274-278 | by definition (a conversion): a granted slice becomes its data pointer and a failure becomes null; a panic or a spin never returns a pointer |
| Alloc.SystemAllocator.constructor | src/alloc.rs:95-97 | a new allocator has an empty list |
| Alloc.SystemAllocator.TryFindBlock | src/alloc.rs:101-140 | the header-chasing loop returns the block the search specification chooses (found, none, or the block it spins on) and changes nothing |
| Alloc.SystemAllocator.Create | src/alloc.rs:39-70 | writes the headers of the created blocks into memory (first linked to the surplus block) and leaves every other header as it was |
| Alloc.SystemAllocator.SplitBlock | src/alloc.rs:156-174 | the in-memory split leaves the allocator's list equal to the split specification |
| Alloc.SystemAllocator.Grow | src/alloc.rs:178-186 | on growth the list becomes the created blocks followed by the old list unchanged, and the head is the new block; otherwise the list is unchanged |
| Alloc.SystemAllocator.FindBlock | src/alloc.rs:145-189 | result and new list are those of the find_block specification, and the list stays well-formed and linked |
| Alloc.MergeStep | src/alloc.rs:193-218 | one turn of the merge walk keeps memory linked and well-formed, never lengthens the list, and fixes one more block of the merge pass. The walk moves to the block after the current one, which has absorbed its successor when they were contiguous and both free |
| Alloc.SystemAllocator.MergeBlocks | src/alloc.rs:191-220 | the merge walk leaves the list equal to one merge pass over the old list |
| Alloc.SystemAllocator.Allocate | src/alloc.rs:222-229 | result and new list are those of the allocate specification |
| Alloc.SystemAllocator.Claim | src/alloc.rs:224-228 | marking block k used changes only its free flag, keeps the allocator valid, and returns the block's data slice |
| Alloc.SystemAllocator.Deallocate | src/alloc.rs:231-239 | the new list is that of the deallocate specification |
| Alloc.SystemAllocator.Alloc | src/alloc.rs:274-278 | returns the data pointer of the allocation, or null when memory ran out |
| Alloc.SystemAllocator.SysCreate | src/alloc.rs:296-304 | returns the allocation's slice, or none when it failed |
| Alloc.SystemAllocator.SysDestroy | src/alloc.rs:311-318 | a null pointer changes nothing; any other pointer is deallocated |
| Locks.WrappingDec | src/sync/locks.rs:116 | fetch_sub(1) on the word is subtraction modulo 2^32 |
| Locks.Mutex.constructor | src/sync/locks.rs:54-59 | a new mutex is AVAILABLE and holds the given value |
| Locks.Mutex.Lock | src/sync/locks.rs:71-93 | uncontended, AVAILABLE becomes LOCKED by one compare-exchange with no futex call. Otherwise the word ends WAITED_ON. Every futex call is a wait expecting WAITED_ON. The loop returns a guard only after observing AVAILABLE, panics on the first failed wait, and is still blocked when the waits run out |
| Locks.Mutex.TryLock | src/sync/locks.rs:95-113 | succeeds exactly when the word was AVAILABLE, setting LOCKED; otherwise the word is unchanged |
| Locks.Mutex.ForceUnlock | src/sync/locks.rs:115-121 | always leaves the word AVAILABLE. It makes a wake(1) call exactly when the previous value was not LOCKED, and panics exactly when that wake fails |
| Locks.Mutex.Clone | src/sync/locks.rs:124-131 | the clone holds the same value and is AVAILABLE whatever the original's state |
| Locks.MutexGuard.Drop | src/sync/locks.rs:24-30 | dropping a guard force-unlocks its mutex, with the same outcome |
| Cell.GetValue | src/sync/cell.rs:17-22 | by definition (an accessor): a value is present exactly in the Initialized state, and it is the stored one |
| Cell.LazyCell.constructor | src/sync/cell.rs:46-52 | a new cell is Uninitialized with the given initialiser and the flag clear |
| Cell.LazyCell.StartInitialize | src/sync/cell.rs:24-35 | from Uninitialized, the cell becomes Initializing and the initialiser is returned; any other state is the panic, with the cell unchanged |
| Cell.LazyCell.WaitForInit | src/sync/cell.rs:56-65 | the stage never moves back. It returns the value exactly when the flag is clear and the cell is Initialized, panics exactly when the flag is clear but the cell is not Initialized, and cannot panic when the flag was set on entry |
| Cell.LazyCell.Get | src/sync/cell.rs:55-90 | an Initialized cell returns its value with nothing changed. The caller that wins the flag runs the initialiser once, stores and returns its value, and clears the flag. A returned value is the stored one, the stage only moves forward, the initialiser runs at most once, and a consistent cell never panics |
| Env.UntilNul | src/process/env.rs:53-54 | the stored C string is the prefix of the value before its first NUL |
| Env.SplitAtEq | src/process/env.rs:103-110 | a raw entry is the key, `=`, then the value, with no `=` in the key; without `=` the key is the whole entry and the value is empty |
| Env.IndexOfKey | src/process/env.rs:39-46 | the position found is the first entry with that key; none means no entry has it |
| Env.Lookup | src/process/env.rs:39-46 | the lookup is absent exactly when no entry has the key, and a present value belongs to an entry with that key |
| Env.SwapRemove | src/process/env.rs:90 | one entry fewer; the last entry moves into the removed slot; the others stay in place, so every entry but the removed one survives; the multiset loses exactly the removed entry |
| Env.SetEntry | src/process/env.rs:64-82 | after set, the table holds the key with its NUL-cut value, has at most one entry more, and keeps every entry with another key |
| Env.RemoveEntry | src/process/env.rs:85-94 | after remove, the table is a sub-multiset of the old one. An absent key changes nothing, a present key takes exactly one entry out, and every entry with another key survives |
| Env.LookupAfterSet | src/process/env.rs:64-82 | after set, the key looks up its new value cut at the NUL, and every other key looks up as before |
| Env.SetKeepsUnique | src/process/env.rs:64-82 | set keeps keys distinct and grows the table only by the one entry appended for an absent key |
| Env.LookupAfterRemove | src/process/env.rs:85-94 | with distinct keys, after remove the key is absent and every other key looks up as before |
| Env.RemoveKeepsUnique | src/process/env.rs:85-94 | with distinct keys, remove keeps the keys distinct |
| Env.Weight | src/process/env.rs:52-61 | the size the hint tracks: each entry counts its key, value, `=` and NUL, so at least two bytes |
| Env.Record | src/process/env.rs:135-143 | one record is as many bytes as the entry counts in the size: the key, then `=`, and a final NUL |
| Env.Serialize | src/process/env.rs:121-147 | the records of the table in order; a non-empty table's serialisation ends with a NUL |
| Env.Parsed | src/process/env.rs:99-114 | one entry per raw string. A raw string holding `=` is the entry's key, `=` and value; one without `=` is a key with an empty value |
| Env.Stored | src/process/env.rs:53-57 | storing keeps every key and cuts each value to a NUL-free prefix of the value given |
| Env.WeightUpdate | src/process/env.rs:67-74 | replacing an entry changes the serialised size by the difference of the two entries' sizes |
| Env.WeightSwapRemove | src/process/env.rs:89-90 | swap-removing an entry takes exactly its size off the serialised size |
| Env.WeightStored | src/process/env.rs:53-60 | cutting values at a NUL never adds to the serialised size, and changes nothing when no value holds a NUL |
| Env.SerializeLength | src/process/env.rs:121-147 | the serialised table is exactly as long as the sum the size hint tracks |
| Env.SliceReadsBack | src/process/env.rs:131-144 | slice i of the serialised table reads back `key=value` of entry i and is followed by its NUL |
| Env.CopyInto | src/process/env.rs:137-142 | copy_from_slice: the bytes before the offset are kept and the source bytes follow them |
| Env.WriteRecord | src/process/env.rs:135-143 | writes `key=value\0` at the offset and keeps the bytes before it |
| Env.WriteEntry | src/process/env.rs:131-144 | one turn of the duplicate loop extends the written prefix from the records of the first i entries to those of the first i + 1 and returns entry i's slice |
| Env.EnvVars.constructor | src/process/env.rs:32-37 | a new table is empty with a zero hint |
| Env.EnvVars.Find | src/process/env.rs:40-44 | the scan finds the first entry with the key |
| Env.EnvVars.Get | src/process/env.rs:39-46 | the value of the first entry with the key; present exactly when some entry has the key |
| Env.EnvVars.Push | src/process/env.rs:52-61 | appends the entry with its value cut at the NUL. The hint grows by key + value + 2, counting the value as given. The hint still covers the table |
| Env.EnvVars.Set | src/process/env.rs:64-82 | a present key gets its value in place and an absent key is appended. The hint never underflows and keeps covering the table; its overestimate grows only by the bytes cut off at a NUL |
| Env.EnvVars.Remove | src/process/env.rs:85-94 | swap-removes the first entry with the key, and an absent key changes nothing. The hint never underflows and keeps covering the table, but overestimates by one more byte after each removal |
| Env.EnvVars.InsertRaw | src/process/env.rs:99-114 | appends the parsed raw entries in order without deduplication; the hint grows by their raw sizes and keeps covering the table |
| Env.EnvVars.Clear | src/process/env.rs:116-119 | empties the table and zeroes the hint |
| Env.EnvVars.Duplicate | src/process/env.rs:121-147 | the buffer has size_hint bytes and begins with the `key=value\0` records of all entries in order. There is one slice per entry, starting at the entry's offset, with length key + 1 + value; by Env.SliceReadsBack each reads back `key=value` |
| Args.AsSlice | src/process/args.rs:64-72 | by definition (a conversion): the argument slice is empty without an argument list, and is the list otherwise |
| Args.Len | src/process/args.rs:52-58 | the count is 0 without a list, and always the length of the slice |
| Args.ArgAt | src/process/args.rs:48-50 | argument i is present exactly when i is below the count, and is element i of the slice |
| Args.Step | src/process/args.rs:107-115 | by definition: below the end, a step yields the argument at the cursor and advances it by one; at the end it yields nothing and leaves the cursor in place. Its content is carried by Args.DrainYieldsRest and Args.ArgsIter.Next |
| Args.Drain | src/process/args.rs:107-115 | stepping the cursor until nothing yields as many arguments as remain after the cursor, and nothing past the end |
| Args.DrainYieldsRest | src/process/args.rs:98-115 | stepping until nothing yields exactly the arguments from the cursor on, in order; from a fresh cursor, all of them |
| Args.ArgsIter.constructor | src/process/args.rs:98-101 | a new iterator is at index 0 over the static's slice |
| Args.ArgsIter.GetIndex | src/process/args.rs:103-105 | by definition (an accessor): argument i is present exactly when i is below the total, whatever the cursor |
| Args.ArgsIter.Next | src/process/args.rs:107-115 | one step of the cursor. The index never passes the total, and what remains to be drained is the yielded argument followed by the rest |
| Args.ArgsIter.TotalLen | src/process/args.rs:116-119 | the total is the number of arguments a cursor from the start yields |
| Args.ArgsIter.Len | src/process/args.rs:116-123 | remaining plus taken is the total (no underflow), and the remaining count is the number of arguments still to come |

## Behaviour of the code worth knowing

The model follows these behaviours of the code as written:

- **Over-page alignment.** An alignment above 4096 is an `assert!` panic in `find_block` (`AllocPanic(AlignAbovePage)`), not a failure return.
- **Contended lock.** `lock` swaps the word to WAITED_ON only when the failed compare-exchange did not already observe WAITED_ON. The swap is not unconditional.
- **Misaligned free block.** `try_find_block` never skips a free block whose data address is misaligned for the request: it `continue`s without advancing and spins forever. The model returns this as the outcome `Hangs`/`AllocHangs`/`RawHang` (`MisalignedFreeBlockHangs`). It cannot happen for power-of-two alignments up to 32 (`SmallAlignmentHonoured`).
- **Other alignments up to 32.** `try_find_block` only rounds the alignment up to a multiple of 8, and `sys_create` passes any alignment through. An alignment that is not a power of two can therefore make the search spin: 24 spins on a free block whose data sits at 4192 (`NonPowerOfTwoAlignmentHangs`). It can also get a pointer that is not a multiple of it: alignment 3 is granted 4192 (`NonPowerOfTwoAlignmentMisaligned`).
- **Alignment on growth.** A block created by growth is handed out without an alignment check (`GrowthIgnoresAlignment`).
- **Merging.** Coalescing is one walk over the whole list from the head. A block absorbs at most one neighbour per walk (`MergeSkipsMergedBlock`).
- **Size hint.** `size_hint` is an upper bound on the serialised size, not an exact count. `remove` subtracts one byte less than `push` added, and a value holding a NUL is counted at its full length.

## Left out

- Integer widths: sizes, addresses, `size_hint` and the cursor are unbounded naturals. `usize` overflow in `next_multiple_of`, `data_len + H`, `size_hint +=` and `index += 1` is not modelled. The futex word is a `u32`, and its wrap-around on `fetch_sub` is modelled.
- Concurrency: memory orderings, interleavings, real futex blocking, and the `yield_now` spin are not modelled. Other threads appear only through the `WaitStep` and `Option<T>` schedules. The race in which two threads both see `Uninitialized` and both reach `start_initialize` is not modelled, because the sequential model lets only the flag holder start.
- The syscall layer (`sys_allocate`'s `mem::map`, `futex_wait`, `futex_wake`, `yield_now`) is not modelled. Their results are parameters. The mapping is assumed to be a fresh, page-aligned region (`GrantOk`), as the OS guarantees.
- `GlobalSystemAllocator` wraps every call in its `Mutex`. That wiring is not modelled. `dealloc` is `Deallocate`.
- `grow` and `shrink` are not implemented in the library, so they are not modelled either.
- Memory contents: only block headers are modelled. Data bytes are not. Headers absorbed by a merge stay in `mem` but are no longer reachable from `head`.
- Alloc.SystemAllocator.Deallocate requires the pointer to be one the allocator handed out. The source's safety contract requires the same and does not check it.
- `Mutex::get`, `Mutex::get_mut`, and the `Deref`/`DerefMut` impls of `MutexGuard` and `LazyCell` are plain accessors and are not modelled. `LazyCell::deref` is `Get`.
- `RawArgs`, `RawArgsStatic::{new, init, get_raw}`, `sysget_argc`, `sysget_arg`, `RawEnv`, `RawEnvStatic`, the `ENV` static, the `env_*` wrappers and the `sysenv_*` entry points are FFI and static glue over the modelled operations. They are not modelled.
- Env.EnvVars.Duplicate: the buffer is exactly `size_hint` bytes, although `Vec::with_capacity` may round the capacity up. The bytes after the records are uninitialised memory in the source and are left unspecified. Slices are offsets into the buffer, not raw pointers.
- Env.EnvVars.Push: the source's unchecked requirement that the key is absent is not a precondition. Push appends unconditionally, as the code does.
- `insert_raw`'s `continue` when `splitn` yields nothing is unreachable, because `splitn` always yields a first piece, so it has no counterpart in the model.
- Env.LookupAfterRemove: stated only for tables with distinct keys. With duplicate keys (possible after `insert_raw`), the swap can move a later duplicate of another key ahead of the first one.
