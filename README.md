# GlusterFS fd layer: a Dafny model of `libglusterfs/src/fd.c`

This project models the open-file layer of GlusterFS's `libglusterfs`, which has two parts:

- **The fd table.** A growable array of `fd_t *` slots that maps small integers to fd objects. Its capacity is always a power-of-two number of 128-slot blocks. `gf_fd_unused_get` allocates the lowest free slot and `gf_fd_unused_get2` allocates a chosen one. `gf_fd_put` releases a slot and `gf_fd_fdptr_get` looks one up.
- **The fd object.** Its reference count (`fd_create`, `fd_ref`, `fd_unref`) and its place on the owning inode's `fd_list` (`fd_bind`). Lookup over that list is `fd_lookup` and `fd_list_empty`. The teardown `fd_destroy` notifies every translator holding a context on the fd.

Files:

- `rounding.dfy` (module `Rounding`). The pure specification of the sizes:
  - `RoundUp` is the smallest power of two at least `nr`.
  - `ExpandedCapacity` is the size `gf_fd_fdtable_expand` picks.
  - `GrowUntil` is the size reached by the grow loop of `gf_fd_unused_get2`.
  - Lemmas say that each of these functions is the least value with its property.
  - The method `RoundupPowerOfTwo` is the halving loop of `gf_roundup_power_of_two`, proved against `RoundUp`.
- `fd_object.dfy` (module `FdObjects`). The fd objects as seen by fd.c:
  - A `World` value holds the fds by id, the inodes (directory bit, translator graph, `fd_list`), a trace of calls leaving fd.c, and the next fresh id.
  - Spec functions give the effect of each operation on a `World`.
  - The lemmas prove the lifecycle invariant and the other properties, stated on `World` values.
  - The class `FdStore` holds the same state in fields. Its methods carry the C code's steps: the list walk of `fd_lookup` and the context walk of `fd_destroy`. Each method is proved to move the state exactly as its spec function says.
- `fd_table.dfy` (module `FdTables`). The class `FdTable`, with an `array<Option<FdId>>` (`fds`) and `maxFds`. Its methods are the table operations. Each one states the new array contents in terms of the old ones, and states the effect on the `FdStore` where the C code calls `fd_ref` or `fd_unref`.

How pointers are represented:

- An `fd_t *` is an `FdId` key into the store, and an `inode_t *` is an `InodeId`.
- NULL is `None`.
- A freed fd stays in the store with `alive == false`. Every operation requires the fds it touches to be alive, which rules out use after free.
- `xlator_search_by_name` is a lookup in the inode's translator map, which records whether each translator has `release` and `releasedir`.
- `inode_ref`, `inode_unref` and the callbacks are events appended to the trace.

Behaviour of the code a reader might not expect, all of it modelled as written:

- `fd_bind` uses `list_add`, which inserts right after the list head. So `fd_lookup` returns the most recently bound match, not the first-bound one (`LookupAfterBind`).
- `gf_fd_unused_get` stores the fd without taking a reference.
- `gf_fd_unused_get2` grows only while `max_fds < fd`, not while `index >= capacity` (see Findings).
- `gf_fd_fdptr_get` signals an out-of-range index only by returning NULL (and setting `errno`), just as for an empty slot.
- A new fd is not on any list but has refcount 1. Only the implication "listed ⟹ refcount > 0" holds, not "listed ⟺ refcount > 0".
- `gf_fd_fdtable_expand` keeps the byte count of its copy in a `uint32_t`, so expanding a table of 2^29 or more slots copies none of them (see Findings).

## Model

| member | source | states |
|---|---|---|
| Rounding.RoundUp | libglusterfs/src/fd.c:42-78 | the rounding of `nr` is a power of two and at least `nr` (1 for 0 and 1) |
| Rounding.RoundUpLeast | libglusterfs/src/fd.c:60-74 | the rounding is no larger than any power of two that is at least `nr`, so it is the smallest one |
| Rounding.RoundUpOfPow2 | libglusterfs/src/fd.c:71-73 | a power of two is returned unchanged |
| Rounding.HalveStep | libglusterfs/src/fd.c:64-69 | one halving step keeps `nr` between `tmp * 2^cnt` and `(tmp + 1) * 2^cnt`, and `remainder` is set exactly when a bit is lost |
| Rounding.RoundupPowerOfTwo | libglusterfs/src/fd.c:42-78 | the halving loop returns exactly `RoundUp(nr)`, and never more than 2^31 for `nr <= 2^31`, so the result fits in `uint32_t` |
| Rounding.ExpandedCapacity | libglusterfs/src/fd.c:92-94 | `roundup(nr / 128 + 1) * 128` is a power-of-two multiple of the block and strictly greater than `nr` |
| Rounding.ExpandedCapacityLeast | libglusterfs/src/fd.c:92-94 | it is the smallest power-of-two multiple of the block above `nr` |
| Rounding.ExpandedCapacityBound | libglusterfs/src/fd.c:92-94 | for `nr < 2^31` the size is at most 2^31, so the 32-bit multiplication does not wrap |
| Rounding.ExpandFullDoubles | libglusterfs/src/fd.c:216 | expanding a full table for `max_fds + 1` slots doubles it |
| Rounding.GrowUntil | libglusterfs/src/fd.c:160-170 | the grow loop ends at a legal size that is at least the starting size and at least `fd` |
| Rounding.GrowUntilLeast | libglusterfs/src/fd.c:160-170 | it ends at the smallest such size |
| Rounding.GrowUntilLandsOn | libglusterfs/src/fd.c:160-172 | the loop stops with `max_fds == fd`, leaving `fds[fd]` past the end, iff `fd` is a legal size no smaller than the starting one |
| Rounding.FreshTableStopsAtBlock | libglusterfs/src/fd.c:160-172 | on a fresh 128-slot table, a request for slot 128 leaves the size at 128 |
| Rounding.GrowPastHoldsIndex | libglusterfs/src/fd.c:160-172 | with the bound `max_fds <= fd`, the loop always ends with `fd` inside the table |
| Rounding.GrowUntilBound | libglusterfs/src/fd.c:160-162 | growing for an int32 index never takes the size past 2^31 |
| FdTables.FirstFree | libglusterfs/src/fd.c:205-209 | the scan result: the lowest empty slot (every earlier one is taken), or the size when all are taken |
| FdTables.FirstFreeUnique | libglusterfs/src/fd.c:205-211 | an index with every earlier slot taken and its own slot empty (or at the end) is the scan result |
| FdTables.FdTable.constructor | libglusterfs/src/fd.c:112-130 | a new table has one block (128 slots), all empty |
| FdTables.CopiedSlots | libglusterfs/src/fd.c:104-105 | the copy moves the first `((8 * oldmax_fds) mod 2^32) / 8` slots: never more than the old size, and all of them below 2^29 slots |
| FdTables.CapacityCopied | libglusterfs/src/fd.c:104-105 | for every size a table is expanded from, all slots are copied below 2^29 slots and none from 2^29 or 2^30 slots |
| FdTables.CopiedSlotsWide | libglusterfs/src/fd.c:104-105 | with the byte count held in 64 bits, every slot of a table of up to 2^31 slots is copied |
| FdTables.GrowKept | libglusterfs/src/fd.c:160-170 | the number of leading old slots that survive the grow loop, at most the starting size |
| FdTables.GrowKeptExactly | libglusterfs/src/fd.c:160-170 | the grow loop keeps every old slot unless it grows the table past 2^29 slots, and then it keeps none |
| FdTables.GrowPastCopyWrapLosesSlots | libglusterfs/src/fd.c:160-170 | growing for an index above 2^29 loses every old slot (on a fresh table, `fd` = 2^30 - 1 grows through 2^29 to 2^30) |
| FdTables.FdTable.Expand | libglusterfs/src/fd.c:80-110 | the new size is `ExpandedCapacity(nr)`; the first `CopiedSlots(max_fds)` old slots are copied unchanged and every other slot is empty |
| FdTables.FdTable.ExpandFixed | libglusterfs/src/fd.c:80-110 | the same expansion with a 64-bit byte count: every old slot is copied unchanged and every new slot is empty |
| FdTables.FdTable.Reallocate | libglusterfs/src/fd.c:92-106 | the new array has `ExpandedCapacity(nr)` slots, its first `keep` slots are the old ones and the rest are empty |
| FdTables.FdTable.UnusedGet | libglusterfs/src/fd.c:192-230 | EINVAL (22) and no change for NULL; otherwise the lowest empty slot gets the fd. If the table was full, it doubles, the fd lands at the old size, and the old slots survive as far as `CopiedSlots` says. No other slot changes and no refcount changes |
| FdTables.FdTable.Grow | libglusterfs/src/fd.c:160-170 | the size becomes `GrowUntil(max_fds, fd)`; the first `GrowKept(max_fds, fd)` old slots are kept and every other slot is empty |
| FdTables.FdTable.GrowOnce | libglusterfs/src/fd.c:162 | one pass expands for `max_fds + 1` slots, leaves the loop's end size unchanged, and cuts the kept old slots to those the expansion copies |
| FdTables.FdTable.Install | libglusterfs/src/fd.c:172-183 | an empty slot gets the fd, the fd gains one reference, and the index is returned; an occupied slot gives -1 and nothing changes |
| FdTables.FdTable.UnusedGet2 | libglusterfs/src/fd.c:146-189 | -1 and no change for NULL or a negative index. Otherwise the table grows to `GrowUntil(max_fds, fd)`, keeping the first `GrowKept` old slots, then the slot is filled with a reference taken, or -1 is returned with slot and refcount unchanged. Calls where growth lands on `fd` are excluded |
| FdTables.FdTable.UnusedGet2Fixed | libglusterfs/src/fd.c:146-189 | the same behaviour with the loop bound `max_fds <= fd`: every non-negative int32 index ends up in bounds |
| FdTables.FdTable.Put | libglusterfs/src/fd.c:233-259 | no change for an index outside the table; otherwise exactly that slot is cleared, and its previous occupant, if any, is unreffed (`Unrefd`) |
| FdTables.FdTable.FdPtrGet | libglusterfs/src/fd.c:262-289 | NULL and no change outside the table; otherwise the slot's content, with one reference added if it is not NULL |
| FdObjects.Remove | libglusterfs/src/fd.c:324 | unlinking removes exactly that fd from the list, keeps the list duplicate-free, and changes nothing when the fd is not listed |
| FdObjects.RemoveKeepsOrder | libglusterfs/src/fd.c:324 | on a duplicate-free list, unlinking cuts out the one occurrence and leaves the other entries in their order |
| FdObjects.Created | libglusterfs/src/fd.c:437-462 | the new fd gets the next id, refcount 1, the pid, an empty locked context, and one `inode_ref`; every other fd and every inode are unchanged |
| FdObjects.Refd | libglusterfs/src/fd.c:291-297 | that fd's count rises by one; every other fd, the inodes and the trace are unchanged |
| FdObjects.Released | libglusterfs/src/fd.c:316-328 | that fd's count drops by one; at zero it is unlinked from its own inode's list, and no other list, fd or event changes |
| FdObjects.Unrefd | libglusterfs/src/fd.c:394-416 | the count drops by one, the fd stays alive exactly when the count was above 1, other fds are unchanged, and a non-final unref calls nothing |
| FdObjects.Destroyed | libglusterfs/src/fd.c:330-392 | the fd is marked freed, the `Teardown` calls are appended, and the inodes and other fds are unchanged |
| FdObjects.Teardown | libglusterfs/src/fd.c:345-385 | the teardown calls end with one `inode_unref` of the fd's inode, after at most one callback per context key |
| FdObjects.ReleaseEvents | libglusterfs/src/fd.c:345-383 | the walk over the keys makes at most one call per key |
| FdObjects.Bound | libglusterfs/src/fd.c:418-435 | the fd goes on the front of its inode's list; every other list, the fds and the trace are unchanged |
| FdObjects.FirstMatch | libglusterfs/src/fd.c:464-491 | a result is an entry of the list that matches the pid (any entry for pid 0) |
| FdObjects.RefN | libglusterfs/src/fd.c:291-297 | `n` references add `n` to the count and change nothing else |
| FdObjects.UnrefN | libglusterfs/src/fd.c:394-416 | `n` non-final unrefs subtract `n` and change nothing else |
| FdObjects.CreatedInv | libglusterfs/src/fd.c:437-462 | `fd_create` keeps the invariant and yields a fresh live fd: refcount 1, the given pid, an empty locked context, on no list |
| FdObjects.RefdInv | libglusterfs/src/fd.c:299-314 | `fd_ref` keeps the invariant |
| FdObjects.UnrefdInv | libglusterfs/src/fd.c:394-416 | `fd_unref` keeps the invariant: everything listed is live with a positive count |
| FdObjects.LastUnrefInv | libglusterfs/src/fd.c:319-325 | the unref that takes the count from 1 to 0 keeps the invariant: the fd leaves its own list and was on no other |
| FdObjects.UnrefdEffect | libglusterfs/src/fd.c:394-416 | the last unref takes the fd off every list, frees it, and makes exactly the teardown calls: callbacks, then one `inode_unref`. Any other unref only decrements and calls nothing |
| FdObjects.BoundInv | libglusterfs/src/fd.c:418-435 | `fd_bind` keeps the invariant and puts the fd at the front of its inode's `fd_list` |
| FdObjects.RefUnrefBalanced | libglusterfs/src/fd.c:291-328 | `n` refs followed by `n` unrefs leave every fd exactly as it was |
| FdObjects.RefTwiceUnrefThrice | libglusterfs/src/fd.c:394-462 | create, bind and two refs, then three unrefs: the fd survives (still listed) after two, and the third frees it and unlists it |
| FdObjects.FirstMatchSpec | libglusterfs/src/fd.c:464-491 | the lookup result is the first list entry matching the pid (any entry for pid 0), and None exactly when nothing matches |
| FdObjects.LookupAfterBind | libglusterfs/src/fd.c:418-491 | after `fd_bind`, `fd_lookup` with pid 0 or with the fd's own pid returns that fd: most recently bound first |
| FdObjects.ListEmptyIffNoFd | libglusterfs/src/fd.c:493-505 | `fd_list_empty` holds exactly when `fd_lookup(inode, 0)` finds nothing |
| FdObjects.ReleaseEventsAppend | libglusterfs/src/fd.c:345-383 | the teardown walk visits keys in list order and never stops early: walking `a + b` is walking `a`, then `b` |
| FdObjects.ReleaseEventsExactly | libglusterfs/src/fd.c:345-383 | a callback fires for exactly the keys whose translator is found and has it (`releasedir` for a directory, `release` otherwise), at most one per key; missing translators or callbacks are skipped |
| FdObjects.FdStore.Create | libglusterfs/src/fd.c:437-462 | NULL for a NULL inode; otherwise a fresh id with the `Created` state and one `inode_ref`, and the invariant kept |
| FdObjects.FdStore.RefLocked | libglusterfs/src/fd.c:291-297 | for a live fd, the count of that fd rises by one and nothing else changes |
| FdObjects.FdStore.Ref | libglusterfs/src/fd.c:299-314 | NULL is returned unchanged with no effect; otherwise one more reference, the same fd returned, and the invariant kept |
| FdObjects.FdStore.UnrefLocked | libglusterfs/src/fd.c:316-328 | for a live fd with a positive count (the assert), the count drops by one, and at zero the fd is unlinked from its inode's list |
| FdObjects.FdStore.Destroy | libglusterfs/src/fd.c:330-392 | for a live, unlisted fd with count zero, the state becomes `Destroyed`: the walk's callbacks, then one `inode_unref`, then the fd is freed |
| FdObjects.FdStore.NotifyAll | libglusterfs/src/fd.c:345-383 | the loop over the context keys appends exactly `ReleaseEvents` of the keys to the trace and changes nothing else |
| FdObjects.FdStore.Unref | libglusterfs/src/fd.c:394-416 | NULL has no effect; otherwise the state becomes `Unrefd`: the unlink happens before the teardown, the teardown runs only when the count reaches 0, and the invariant is kept |
| FdObjects.FdStore.Bind | libglusterfs/src/fd.c:418-435 | a non-NULL, unlisted live fd is put on the front of its inode's list; the same fd is returned |
| FdObjects.FdStore.Lookup | libglusterfs/src/fd.c:464-491 | returns `FirstMatch` of the inode's list, and the found fd gains one reference; nothing changes when the list is empty or nothing matches |
| FdObjects.FdStore.ListEmpty | libglusterfs/src/fd.c:493-505 | true iff the inode's `fd_list` is empty |

## Findings

| source | as written | input that shows it | evidently intended | confidence | as-written member | corrected member |
|---|---|---|---|---|---|---|
| libglusterfs/src/fd.c:160 | `while (fdtable->max_fds < fd)` grows until `max_fds >= fd`, then line 172 reads `fdtable->fds[fd]` | a fresh table (`max_fds` 128) and `gf_fd_unused_get2(t, fd, 128)`: no growth, and slot 128 is one past the end. The same happens for 256 (one growth to 256), and for any `fd` that is a power-of-two multiple of 128 at least `max_fds` (`GrowUntilLandsOn`) | `while (fdtable->max_fds <= fd)`, so that slot `fd` always exists | high; not executed | FdTables.FdTable.UnusedGet2 (its precondition excludes the out-of-bounds calls; Rounding.GrowUntilLandsOn and Rounding.FreshTableStopsAtBlock exhibit them) | FdTables.FdTable.UnusedGet2Fixed (proved in bounds for every non-negative int32 index; Rounding.GrowPastHoldsIndex) |
| libglusterfs/src/fd.c:104 | `uint32_t cpy = oldmax_fds * sizeof (fd_t *)` truncates the byte count to 32 bits, so `memcpy` at line 105 copies `(8 * oldmax_fds) mod 2^32` bytes | a fresh table with slot 0 holding `p`, then `gf_fd_unused_get2(t, q, 2^30 - 1)`: growth passes from 2^29 to 2^30 slots, the copy from 2^29 slots moves 0 bytes, and slot 0 ends up NULL. The fds held before are lost from the table and leak their references. `gf_fd_unused_get` on a full 2^29-slot table does the same | a byte count of type `size_t`, so every old slot is copied | high; not executed | FdTables.FdTable.Expand (with FdTables.CapacityCopied and FdTables.GrowPastCopyWrapLosesSlots exhibiting the loss) | FdTables.FdTable.ExpandFixed (with FdTables.CopiedSlotsWide: every old slot copied) |

## Left out

- Locks: the table mutex and the inode locks are not modelled. Each operation is one atomic step, so the unlocked reads of `max_fds` in `gf_fd_put` and `gf_fd_fdptr_get` are not a race here.
- Logging and `errno` are dropped. `gf_fd_unused_get` keeps its `EINVAL` return value and `gf_fd_unused_get2` keeps its -1.
- Allocation: `calloc`, `ERR_ABORT` and `FREE` always succeed (failure aborts the process). So `gf_fd_fdtable_expand` is total. Its error return needs a NULL table, and its `nr < 0` tests on `uint32_t` are dead code, like the one in `gf_roundup_power_of_two`.
- `gf_fd_fdtable_destroy` only frees memory and is not modelled.
- NULL `fdtable` arguments: the table operations are methods of the table object, so that object cannot be NULL. Likewise `fd_lookup` and `fd_list_empty` lock `inode->lock` (fd.c:470, 498) without testing `inode` for NULL, and an `InodeId` cannot be NULL, so a NULL inode there is not modelled. Only the NULL fd argument is modelled.
- `fd_destroy`'s NULL-fd and NULL-inode checks are not modelled. The fd is never NULL there, and `fd_create` refuses a NULL inode. The `0xaaaaaaaa` poison write and `dict_destroy` are not modelled either; freeing is `alive := false`.
- The context dictionary is the sequence of its keys, in the order the teardown walk visits them. `FdObjects.FdStore.AddCtxKey` stands in for a translator setting its context, which happens outside fd.c. It puts the new key last in the walk order. That placement is an assumption, because where `dict.c` actually puts a new key is not part of this model.
- `xlator_search_by_name` and the `inode_ref`/`inode_unref` internals are not part of this model. The callbacks' own effects are not part of it either; they appear only as trace events.
- FdTables.FdTable.UnusedGet: requires `max_fds < 2^31`. The C code does not check this, and a table of 2^31 slots breaks two ways. First, the scan counter `i` (fd.c:195, 205) and the returned index are `int32_t`, so the table cannot be scanned to its end without overflow. Second, `gf_fd_unused_get2` with an fd above 2^30 can grow a table to 2^31 slots. Once that table is full, `gf_fd_fdtable_expand(fdtable, 2^31 + 1)` (fd.c:216) computes `nr / 128 + 1 = 2^24 + 1`, rounds it to 2^25, and `nr *= 128` (fd.c:94) wraps to 0, so the new array has 0 slots and fd.c:222 writes past its end. Neither case is modelled.
- FdTables.FdTable.UnusedGet2: requires that growth does not land exactly on `fd`. The C code then reads and writes out of bounds, and that undefined behaviour is not modelled (see Findings).
- FdObjects.FdStore.Bind: requires a non-NULL fd. `fd_bind` reads `fd->inode` (line 421) before its NULL test (line 423), so a NULL argument crashes rather than returning NULL.
- FdObjects.FdStore.Bind: also requires the fd not to be on the list already. Adding a node twice with `list_add` corrupts the list, and that corruption is not modelled.
- FdObjects.FdStore.Unref: requires a live fd; an fd that was already freed is undefined behaviour in C. The same requirement applies to Ref, and to the slot occupants passed to Put, FdPtrGet and UnusedGet2.
- Reference accounting between the table and the fds is not an invariant of the model. `gf_fd_unused_get` stores an fd without a reference while `gf_fd_put` always drops one, and each call's effect on the count is stated but not the balance over many calls.
- "Destroyed exactly once" is stated per call, not as a property of whole call sequences. Teardown runs only on the unref that takes a live fd to zero, and it marks the fd not alive. Every `FdStore` method that reads or changes an fd's record, including `RefLocked`, `UnrefLocked` and `Destroy`, requires it to be live, and no method makes a freed fd live again, so a freed fd cannot be torn down a second time. `fd_destroy` is `static` and reached only from `fd_unref` (fd.c:330, 411-412); the `Live` precondition on `Destroy` stands for that guarantee.
- The 128-slot block assumes 8-byte pointers.
- Rounding.RoundupPowerOfTwo: requires `nr <= 2^31`, while the C function takes any `uint32_t`. Its callers only pass `nr / 128 + 1`. That is at most 2^24 when the table has fewer than 2^31 slots, and 2^24 + 1 when a full 2^31-slot table is expanded, which `UnusedGet`'s precondition excludes.
- The shift `0x1 << (cnt + 1)` at fd.c:72 is on a signed `int`. `1 << 31` (for 2^30 < nr < 2^31) overflows `int`, which is undefined in C, and `1 << 32` (for nr above 2^31) is undefined too. The model gives the intended `uint32_t` value 2^31. Neither case is reachable from fd.c for tables below 2^31 slots, where the shift amount is at most 24. Expanding a full 2^31-slot table shifts by 25, which is defined but makes the size wrap to 0, as the `FdTables.FdTable.UnusedGet` line says.
- `gf_fd_fdtable_expand` as written is used by every table operation. The corrected `ExpandFixed` is proved but not used by them, so they keep the slot loss described under Findings.
