# noctfs_fuse session logic, modelled in Dafny

This project models the session logic of the FUSE adapter that presents a
`noctfs` entity store as a filesystem. The kernel speaks in inode numbers and
file handles. The store locates a child only through its parent directory's
block. The adapter bridges the two with three pieces of state. The model
covers each of them and the callbacks that use them:

- the inode-to-parent hint cache `INOCache` (`Cache`, file `ino_cache.dfy`): a class over a
  sequence of `(ino, parent)` entries with FIFO eviction;
- the handle counter `global_fh` and the handle table `fhs_opened`
  (`HandleTable` for the scans and the filter, and the fields of `Fused.NoctFSFused`);
- the callback dispatcher (`Fused.NoctFSFused`). Each callback returns a `Reply`
  value, updates the counter, the table and the cache as the source does, and
  takes the store as a parameter (`Store`);
- the two directory scans `search_by_filename` and `noct_search_by_block` (`Resolver`);
- the attribute mapper `entity_attrs_to_fuse_attrs` and the other attribute
  records the callbacks build (`Attrs`).

The store is a value. It holds the root entity (or an error), directory
listings by block, file bytes by block, and the block size. The callbacks
that create something (`mkdir`, `create`) take the entity the store hands back
as a parameter.

Where the behaviour of the code differs from a reading of the adapter's
design, the model follows the code:

- `noct_search_by_block` does not walk the tree. At the first directory in the
  root listing it calls itself with that directory's block as the new target.
  That call scans the same root listing and reaches the same directory again,
  so the recursion never ends unless the block is 1, or unless a plain file
  earlier in the listing has the same block. `Resolver.DescentIsAFixpoint`
  proves this. The model reports the case as `Diverges`, and every callback
  that meets it replies `NoReply`. No entity outside the root's own listing
  is ever found (`Resolver.NestedEntityIsNeverFound`);
  `Resolver.NestedFileIsNeverFound` is one store where the search for such a
  file never returns.
- The cache evicts only when its length is above 256 before the push. It
  therefore holds 257 entries, and the 258th add is the first to evict
  (`Cache.FirstEvictionDropsOldest`).
- `setattr` changes nothing. It does not truncate; it only echoes attributes.
- `open` and `create` draw a handle id but never bind it. `release` frees
  nothing. Only `readdir` frees a handle.
- `readdir` passes on every listed entity; it does not filter out `.` or `..`.
- `read` replies with the whole zeroed buffer of the requested size,
  whatever the store filled in.
- The record for the mount root, and the records built inline by `create`
  and `setattr`, use permission bits 0o666. `entity_attrs_to_fuse_attrs` uses 0o755.

## Model

| member | source | states |
|---|---|---|
| `Cache.Inserted` | src/ino_cache.rs:23-28 | the contents after add: within 257 entries if it was, ending with (ino, parent), with a hint for ino |
| `Cache.FirstParent` | src/ino_cache.rs:31-35 | None exactly when no entry has the ino; otherwise the parent of the earliest entry with that ino |
| `Cache.InoCache.FindParent` | src/ino_cache.rs:31-35 | find_parent reads the container and changes nothing; returns the parent of the earliest matching entry, None iff there is none |
| `Cache.InoCache.constructor` | src/ino_cache.rs:17-21 | a new cache is empty and find_parent returns None for every ino |
| `Cache.InoCache.Add` | src/ino_cache.rs:23-29 | the last entry is (ino, parent) exactly as passed; with length at most 256 before, the old entries survive in order; above 256, exactly index 0 is dropped; length stays at most 257; afterwards find_parent finds the ino, and finds the new parent if it had no hint before |
| `Cache.FirstParentAppend` | src/ino_cache.rs:31-35 | the scan over two runs of entries answers from the first run if it can |
| `Cache.OldestHintWins` | src/ino_cache.rs:23-35 | adding a newer hint for an ino that already has a surviving hint leaves find_parent's answer unchanged: the oldest hint wins |
| `Cache.NewHintFound` | src/ino_cache.rs:23-35 | after add on a cache with no hint for the ino, find_parent returns the parent just added |
| `Cache.OtherHintsKept` | src/ino_cache.rs:23-35 | add does not change the hint of any other ino, unless the evicted entry held it |
| `Cache.NoEvictionUpToCapacity` | src/ino_cache.rs:23-28 | a run of adds that keeps the length at 257 or less evicts nothing: the entries are appended in order |
| `Cache.FirstEvictionDropsOldest` | src/ino_cache.rs:23-28 | from an empty cache, 258 adds leave exactly the entries of adds 2 to 258: the first eviction removes the oldest entry |
| `Cache.InsertAllBounded` | src/ino_cache.rs:24-28 | any number of adds keeps the cache at 257 entries or fewer |
| `HandleTable.IsAllocated` | src/main.rs:83-85 | true iff some binding has the handle as its first component |
| `HandleTable.FirstIno` | src/main.rs:92-99 | for an allocated handle, the ino of the earliest binding for it |
| `HandleTable.InoOf` | src/main.rs:87-100 | None exactly when the handle is not allocated; otherwise the ino of the earliest binding for it |
| `HandleTable.Retained` | src/main.rs:102-105 | keeps exactly the bindings of other handles |
| `HandleTable.RetainedAppend` | src/main.rs:104 | the filter distributes over concatenation, so the kept bindings stay in their order |
| `HandleTable.RetainedUnbinds` | src/main.rs:102-105 | after freeing, the handle is not allocated |
| `HandleTable.RetainedUnboundIsIdentity` | src/main.rs:102-105 | freeing an unbound handle leaves the table unchanged |
| `HandleTable.RetainedIdempotent` | src/main.rs:102-105 | freeing twice is the same as freeing once |
| `HandleTable.RetainedKeepsOthers` | src/main.rs:87-105 | freeing one handle does not change the ino any other handle resolves to |
| `HandleTable.InoOfAppend` | src/main.rs:78-100 | after a push, get_ino answers as before for bound handles, and with the pushed ino for the pushed handle if it was unbound |
| `Fused.NoctFSFused.constructor` | src/main.rs:782-787 | the session starts with counter 0, an empty handle table and an empty cache |
| `Fused.NoctFSFused.NextFh` | src/main.rs:70-76 | returns the current counter and adds exactly one; the id returned is not bound in the table, so ids are never reused |
| `Fused.NoctFSFused.AllocateFh` | src/main.rs:78-81 | appends (fh, ino); a handle that was unbound now resolves to ino; no other handle's ino changes |
| `Fused.NoctFSFused.FreeFh` | src/main.rs:102-105 | the table becomes the in-order filter of other handles' bindings; the handle is unbound afterwards; the counter is unchanged |
| `Resolver.FirstNamed` | src/main.rs:53-68 | None iff no listed entity has the name; otherwise the first one that has it |
| `Resolver.SearchByFilename` | src/main.rs:53-68 | the loop returns the first entity of the directory's listing with the name, or None |
| `Resolver.Scan` | src/main.rs:40-48 | one pass stops at the first entry that is a directory (descend) or has the target block (match), checked in that order, or runs out |
| `Resolver.ScanListing` | src/main.rs:38-50 | the loop with early returns ends exactly as the pass described by Scan |
| `Resolver.SearchByBlock` | src/main.rs:24-51 | None if the root cannot be read; the root for block 1; else the root scan, with the recursive call for the first directory's block |
| `Resolver.DescentIsAFixpoint` | src/main.rs:40-44 | the recursive call's own scan either matches a plain file with the directory's block or descends into the same directory again, so recursion does not progress |
| `Resolver.Resolve` | src/main.rs:24-51 | None when the root cannot be read; the root for block 1; any entity found is the root or a non-directory in the root's own listing, never a nested entity |
| `Resolver.Recursed` | src/main.rs:42 | the recursive call finds only the root or a plain file of the root listing with the directory's block, and diverges only for a block other than 1 |
| `Resolver.NestedEntityIsNeverFound` | src/main.rs:24-51 | an entity that is neither the root nor in the root's listing is never found by its block |
| `Resolver.FlatRootIsFlatSearch` | src/main.rs:38-50 | with no directory in the root listing, the search is the first listed entity with the block, or None |
| `Resolver.DistinctBlocksDiverge` | src/main.rs:40-44 | with distinct blocks in the root listing, descending into a directory whose block is not 1 means the call never returns |
| `Resolver.NestedFileIsNeverFound` | src/main.rs:24-51 | one example store (root listing one directory at block 5, which holds a file at block 9): the search for block 9 never returns |
| `Attrs.Kind` | src/main.rs:121-125 | Directory iff the entity is a directory, else RegularFile |
| `Attrs.Blocks` | src/main.rs:116 | block count is size times block size whenever the product fits in 64 bits |
| `Attrs.ToFuseAttrs` | src/main.rs:107-133 | ino = start block, size = size, blocks = size * block size, kind from the directory flag, perm 0o755, nlink/uid/gid/rdev/flags 0 |
| `Attrs.AttrsIgnoreName` | src/main.rs:107-133 | the mapping does not depend on the entity's name |
| `Attrs.RootAttrs` | src/main.rs:176-195 | inode 1 gets a fixed directory record: size 4096, blocks 1, perm 0o666, the rest 0 |
| `Attrs.CreatedAttrs` | src/main.rs:641-660 | create's record is the mapper's record with perm 0o666 |
| `Attrs.EchoedAttrs` | src/main.rs:747-766 | setattr's record is the mapper's record with the requested ino and perm 0o666 |
| `Types.I64AsU64` | src/main.rs:376 | the read offset cast keeps non-negative offsets and wraps negative ones by 2^64 |
| `Types.UsizeAsU32` | src/main.rs:421 | the written count is the data length when it fits in 32 bits |
| `Store.ReadContents` | src/main.rs:373-377 | the read buffer is always exactly the requested size |
| `Fused.NoctFSFused.Lookup` | src/main.rs:143-169 | on a miss: ENOENT and the cache unchanged; on a hit: the first entity with the name, its mapped attributes, and add(parent, child) on the cache, after which the child has a hint |
| `Fused.NoctFSFused.Getattr` | src/main.rs:173-210 | inode 1 gets the fixed root record; otherwise the resolved entity's mapped attributes, ENOENT if unresolved, no reply if the search never returns |
| `Fused.NoctFSFused.Mkdir` | src/main.rs:231-252 | replies with the created entity's attributes and adds (parent, new block) to the cache |
| `Fused.NoctFSFused.Unlink` | src/main.rs:254-276 | ENOENT iff the parent lists no entity with the name, else success |
| `Fused.NoctFSFused.Open` | src/main.rs:328-340 | replies with the current counter and flags 0, steps the counter by one, and binds nothing |
| `Fused.NoctFSFused.Read` | src/main.rs:342-382 | EIO when the cache has no parent for the ino, checked before any entity lookup; ENOENT when the parent has no such child; otherwise exactly `size` bytes from the store |
| `Fused.NoctFSFused.Write` | src/main.rs:384-422 | the same EIO and ENOENT cases as read; otherwise replies with the data length (as u32) |
| `Fused.OpendirBindsOnlyViaRoot` | src/main.rs:476-492 | for an inode other than 1, opendir binds only when the search came back with the root entity |
| `Fused.NoctFSFused.Opendir` | src/main.rs:463-495 | binds a fresh handle to the ino exactly for inode 1 or a resolved directory; otherwise ENOENT (or no reply) with counter and table untouched |
| `Fused.DirEntryOf` | src/main.rs:522-531 | a listed entity's readdir entry carries its block, its name, and Directory iff it is a directory |
| `Fused.NoctFSFused.Readdir` | src/main.rs:497-536 | an unbound handle gets an empty successful listing with nothing changed; a bound one gets every listed entity in order and is then freed |
| `Fused.NoctFSFused.Access` | src/main.rs:606-618 | success iff the search finds the inode, ENOENT if not, no reply if it never returns |
| `Fused.NoctFSFused.Create` | src/main.rs:620-667 | parent 1 is remapped to the root's block; replies with the created entity's record and a fresh handle id that stays unbound; adds (parent, new block) to the cache |
| `Fused.NoctFSFused.Setattr` | src/main.rs:715-769 | changes nothing; echoes the resolved entity's record under the requested ino, or ENOENT, or no reply |
| `Fused.NoctFSFused.Statfs` | src/main.rs:560-562 | all-zero statistics with block size 512 and name length 255 |
| `Fused.OtherReply` | src/main.rs:424-461 | flush, release, fsync, releasedir, fsyncdir and init succeed; every other stub replies ENOSYS |
| `Fused.NoctFSFused.Other` | src/main.rs:212-229 | the stub and no-op callbacks give their fixed reply and change no session state, so release frees no handle |
| `Fused.ReaddirIsSingleShot` | src/main.rs:507-535 | a second readdir on the same handle gets the empty listing; neither call draws a handle id |
| `Fused.LookupThenRead` | src/main.rs:152-168 | a read after a successful lookup of the same inode does not fail with EIO; when the child had no earlier hint it succeeds with exactly `size` bytes |
| `Fused.FreshSessionReadFails` | src/main.rs:354-361 | on a fresh session every read fails with EIO |

## Left out

- src/device.rs: the byte-stream forwarding to the device file. It is I/O plumbing with no logic of its own.
- `main` (src/main.rs:772-797), apart from the initial session state: command-line handling, opening the device, creating and removing the mount point, and `fuse::mount`.
- The store's internals, which live in a library outside this model. `list_directory` is a lookup in a map, with an empty listing for an unknown block. `get_entity_by_parent_and_block` is the first child of the parent with that block. `read_contents_by_entity` copies the file's bytes from the offset into the zeroed buffer. The effects on disk of `create_directory`, `create_file`, `delete_file` and `write_contents_by_entity` are not modelled. The store is assumed not to change while one callback runs.
- Timestamps (`time::get_time()` and the epoch value), all logging, and the reply objects beyond the `Reply` datatype. The `get_ino(fh)` calls in read and write only feed a log line, so they are left out.
- Panicking `unwrap()`s on `to_str()` of names and on the result of `read_contents_by_entity`: names are Dafny strings, and the modelled store read does not fail.
- Fused.NoctFSFused.Create: requires a readable root when the parent is 1, because the source panics in `get_root_entity().unwrap()` otherwise.
- Fused.NoctFSFused.Write: requires a non-negative offset when both the parent hint and the entity are found, because only on that path does the source reach `_offset.try_into().unwrap()`, which panics on a negative offset.
- `Resolver.SearchByBlock`: the endless recursion of `noct_search_by_block` (src/main.rs:40-44) is not run. The model computes the first scan and the one recursive call, proves that every later call repeats the last, and reports `Diverges`. In practice that recursion exhausts the stack and aborts the process.
- `Fused.NoctFSFused.NextFh`: the counter is an unbounded natural number. The wrap-around of `u64` after 2^64 handles is not modelled.
- `Attrs.Blocks`: uses wrap-around `u64` multiplication, as in a release build. A debug build would panic on overflow instead.
- `forget`, `destroy`, and the callbacks the source leaves to the `fuse` crate's defaults. They reply nothing of their own, or are not part of this source.
- The `open` flag bits (`O_RDONLY`, `O_WRONLY`, `O_CREAT`): they are computed only for a log line.
