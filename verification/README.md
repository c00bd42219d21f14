# Kernel core: a Dafny model

A model of the pure-logic core of a small x86-64 kernel, with machine-checked proofs. The largest part is
graphfs, a copy-on-write, checksummed filesystem; around it are the page tables and frame pool, the
scheduler with its mutex, pipes, the slab heap, open-file accounting in the VFS, the ELF validator and
loader, the split virtqueue of section 2.7 of VIRTIO 1.2, the process table, the block cache and CRC-32C
(section 12.1 of RFC 3720).

`dafny verify dfyconfig.toml` checks the whole project.

## How it is built

**graphfs.** Three layers. `Namespace`, `TreeTheory`, `Paths` and `NamespaceRuns` describe the filesystem as
plain values: a sequence of nodes, each free, a file with bytes, or a directory with a finite map from names
to nodes. `GfsDisk` says when a disk image holds such a filesystem (`Image`): superblocks, bitmap copies, node
map, node tables, edge chains and extents, every block owned once. Class `GfsCore.Gfs` is the mounted
filesystem; its methods and those of the other `Gfs*` modules are the C functions, and each is proved to do on
the disk what the plain-value operation says. The disk is a sequence of typed blocks, and the checksum is an
arbitrary function of a block. A device read or write may fail at any time (a non-deterministic choice), unless the
device is `sound`, a constant that is handed in and that only the device looks at; the ghost field `faults` counts the
failures, so that a contract can say "this error only after a device fault", and `Steady` says that a sound device has
none. A failed write leaves the block as it was.

`GfsRuns.MakeAndRun` puts the layers together: mkfs, mount, any list of calls with any device faults, then fsck; with
a sound device it runs to the end and every call's answer is accounted for.

`NamespaceLaws` says what the plain-value operations do without naming how: for each one which error it answers when,
which names there are afterwards and what becomes of every node, told name by name and node by node
(`NamespaceLaws.DrawnApart`: that leaves nothing open). From these laws follow where paths lead after a call, in `Vfs`
as well, and that in any run from mkfs a file holds exactly what the calls on it say (`NamespaceLaws.FileIsHistory`).

**Formats.** `ElfFormat` writes the two ELF headers out field by field, and states what the validator accepts and what
memory holds after a load in terms of those fields, address by address. `Crc32c.CodewordDivides` ties the checksum loop
to long division by the generator polynomial.

**Crash model.** Every method keeps a log of its block writes. `Atomic(base, log, before, after)` says that
every strict prefix of the log leaves an image of the old filesystem and the whole log leaves an image of the
new one. Writes land whole and in order; a torn superblock counts as a slot that fails its checksum.

**Steps.** Sections with interrupts off are single steps. A call that blocks ends its step, and resuming is
another one; the fields `pend`, `jobs` and `waiting` remember which call a thread is inside. The ghost field `hist` of
the scheduler records what was queued and what ran, and every step says what it adds to it.

**Intrusive lists.** The scheduler's ready, sleep and wait queues are linked through one shared `next` field, as
in the source, and the ghost sequences are proved to be exactly what the links spell out.

## What turned out not to hold

Each of these has a lemma or method with a concrete failing input, and the exact condition under which the
property does hold.

- `gfs_link` accepts the root as a target, since its link count is 0. A successful link keeps the namespace a
  tree if and only if the target is not the root (`Namespace.LinkKeepsTreeIff`, `Namespace.LinkRootBreaksTree`).
- A clean report of `gfs_fsck` does not mean that the namespace is a tree: two directories that name each other and
  hang off nothing pass (`GfsFsck.DetachedCyclePasses`, on a disk in `GfsFsckLimit.CleanWithoutTree`). The report is
  clean if and only if the namespace is consistent node by node (`GfsFsck.Fsck`), and `GfsFsck.TreeIffConsistent` says
  exactly what a tree is beyond that.
- Mounting falls back to the older superblock when the newest slot cannot be read. Mount presents the newest image if
  and only if its slot was read (`GfsMount.Mount`). Otherwise it presents the generation before, as long as nothing has
  been written over it, without an error; after further writes it goes by the older superblock as far as checksums
  show, or reports EBADCRC (`GfsMount.MountAfterPublish`). File bytes have no checksum, so an older tree may then show
  newer bytes. `GfsMount.FallbackShowsOlder` is a disk with two generations, and `GfsMount.MountTwoGenerations` mounts it.
- The guard in `vfs_rename` is skipped when one of its own reads fails. The rename alone keeps open descriptions alive
  if and only if it hits no open node (`Vfs.GuardNeeded`, `Vfs.UnguardedRenameFreesOpen`); with the guard's reads intact
  it always does (`Vfs.VfsState.Rename`).
- A reader can sleep while bytes remain in a pipe, with nobody woken to take them. A read leaves that state behind if
  and only if another reader sleeps, it asks for fewer bytes than there are, and no third reader is woken; a write never
  does, and leaves a sleeper over bytes, with a woken reader, if and only if two readers slept and there was room
  (`Pipes.Pipe.ReadStep`, `Pipes.Pipe.WriteStep`). Any two threads that read can get there (`Pipes.SleepsOnBytes`), and
  one alone cannot (`Pipes.PipeSafe`).
- Init can sleep in wait4 while a matching zombie exists, because a zombie handed over to it does not wake it
  (`ProcTable.InitSleepsOnZombie`). Where no sleeper misses a zombie, this is still so after a death if and only if
  init is not asleep for a zombie child of the dying process, or is its parent (`ProcTable.Table.Die`,
  `ProcTable.DieMisses`); fork, wait4 and reap never make a sleeper miss one.
- A large heap allocation has room for the bytes asked for if and only if the size arithmetic does not wrap
  (`Heap.LargeRoom`, `Heap.WrappedIsSmall`).
- `virtq_add` adds its two counts in 16 bits. A request is refused or queued whole if and only if the sum does not
  wrap, or what is left of it is refused anyway (`Virtq.Queue.Add`, `Virtq.FitsIff`); `Virtq.WrappedRequest` queues one
  buffer of 65537.

Two comments disagree with the code, and the model follows the code. `gfs_mkfs` says that the bits past the end of the
device are set, and leaves them clear. The header of `paging_user_clone` says that the child must have no user mappings;
the code takes any child and answers EEXIST when a page is already there.

## Model

| member | source | states |
|---|---|---|
| `Namespace.FreshIsTree` | kernel/fs/graphfs_core.c:731-828 | the filesystem mkfs makes is a tree: an empty root directory and nothing else |
| `Namespace.CreateKeepsTree` | kernel/fs/graphfs_core.c:1402-1420 | a node created under a free name keeps the namespace a tree |
| `Namespace.UnlinkKeepsTree` | kernel/fs/graphfs_core.c:1208-1247 | removing a name, and the node with its last name, keeps the tree; the link count dropped was positive |
| `Namespace.LinkFileKeepsTree` | kernel/fs/graphfs_core.c:1156-1175 | a second name for a file keeps the tree |
| `Namespace.LinkKeepsTreeIff` | kernel/fs/graphfs_core.c:1139-1175 | a link that succeeds keeps the tree if and only if its target is not the root |
| `Namespace.LinkRootBreaksTree` | kernel/fs/graphfs_core.c:1151-1153 | on the fresh filesystem, linking the root into itself succeeds and breaks the tree |
| `Namespace.RenameKeepsTree` | kernel/fs/graphfs_core.c:1480-1594 | every successful rename, with or without a replaced target, keeps the tree |
| `TreeTheory.DepthBound` | kernel/fs/graphfs_core.c:1484-1499 | from any directory the parent fields reach the root in fewer steps than there are nodes |
| `TreeTheory.UnderIsDescend` | kernel/fs/graphfs_core.c:1480-1500 | a directory is below another by parent fields exactly when some path of names leads down to it |
| `TreeTheory.RenameIntoSelf` | kernel/fs/graphfs_core.c:1480-1500 | once the earlier checks pass, rename refuses with EINVAL exactly when the new directory lies in the subtree of the source |
| `Paths.JoinRoundTrip` | kernel/fs/graphfs_core.c:897-941 | writing components out as a path and splitting it gives them back |
| `Paths.SlashSplits` | kernel/fs/graphfs_core.c:903-930 | a slash separates the components of what stands left and right of it, whatever other slashes there are |
| `Paths.ResolveJoins` | kernel/fs/graphfs_core.c:897-941 | resolving a longer path goes on from where the shorter one arrived |
| `Paths.NodeHasPath` | kernel/fs/graphfs_core.c:897-941 | every node in use has a path that resolves to it |
| `NamespaceRuns.StepKeepsTree` | kernel/fs/graphfs_core.c:1112-1691 | every operation that succeeds keeps the tree, except exactly a link to the root, and never changes the node count |
| `NamespaceRuns.RunsKeepTree` | kernel/fs/graphfs_core.c:1112-1691 | in every state of every run from mkfs the namespace is a tree |
| `NamespaceRuns.CreateThenUnlink` | kernel/fs/graphfs_core.c:1178-1427 | unlinking what was just created restores the old tree exactly |
| `NamespaceRuns.CreateThenResolve` | kernel/fs/graphfs_core.c:897-1427 | after a create the extended path resolves to the id that create reported |
| `NamespaceRuns.RenameThenBack` | kernel/fs/graphfs_core.c:1429-1595 | renaming back undoes a rename that replaced nothing, including parent fields |
| `NamespaceRuns.ParentNotBelow` | kernel/fs/graphfs_core.c:1480-1500 | a directory never lies below its own child |
| `NamespaceRuns.ContentIsHistory` | kernel/fs/graphfs_core.c:1251-1691 | after any sequence of writes and truncates each byte is the last one written there since the range was last cut off, and zero if there is none |
| `NamespaceLaws.DrawnApart` | kernel/fs/graphfs_core.c:1112-1691 | filesystems with the same names and the same node attributes are the same |
| `NamespaceLaws.LookupExact` | kernel/fs/graphfs_core.c:876-895 | a lookup finds exactly the link, and each error has its exact condition |
| `NamespaceLaws.CreateRefuses` | kernel/fs/graphfs_core.c:1367-1402 | every answer of create, success included, has its exact condition |
| `NamespaceLaws.CreateEffect` | kernel/fs/graphfs_core.c:1402-1420 | the lowest free id becomes a directory exactly when one was asked for, with the mode and parent asked for, empty and with one name; every other node keeps its attributes and the directory gains only the new name |
| `NamespaceLaws.LinkRefuses` | kernel/fs/graphfs_core.c:1112-1155 | every answer of link has its exact condition |
| `NamespaceLaws.LinkEffect` | kernel/fs/graphfs_core.c:1156-1175 | the name leads to the target, whose link count is one higher and whose bytes are the same; no other name or node changes |
| `NamespaceLaws.LinkThenUnlink` | kernel/fs/graphfs_core.c:1112-1249 | taking a new name of a file away again restores the old tree exactly |
| `NamespaceLaws.UnlinkRefuses` | kernel/fs/graphfs_core.c:1178-1207 | unlink refuses exactly what a lookup refuses, and a directory that holds a name |
| `NamespaceLaws.UnlinkEffect` | kernel/fs/graphfs_core.c:1208-1247 | one name less; its node counts one link less and is free exactly when that was its last, however many names it had; nothing else changes |
| `NamespaceLaws.RenameRefuses` | kernel/fs/graphfs_core.c:1429-1479 | the checks on names and directories, in their order |
| `NamespaceLaws.RenameChecks` | kernel/fs/graphfs_core.c:1480-1533 | EINVAL exactly when a directory would move below itself; ENOTDIR, EISDIR and ENOTEMPTY exactly by the kinds of source and target |
| `NamespaceLaws.RenameEffect` | kernel/fs/graphfs_core.c:1534-1594 | exactly one name moves; a directory takes its new parent; a replaced node loses one link; nothing else changes, and nothing at all when both names lead to one node |
| `NamespaceLaws.UnlinkThenDescend` | kernel/fs/graphfs_core.c:1178-1249 | the directory is where it was and the name is gone |
| `NamespaceLaws.LinkThenDescend` | kernel/fs/graphfs_core.c:1112-1176 | the new path leads to the target, and every path that led somewhere still does |
| `NamespaceLaws.RenameThenDescend` | kernel/fs/graphfs_core.c:1429-1595 | both directories are where they were, the new path leads to the source and the old one is gone |
| `NamespaceLaws.RenameMovesSubtree` | kernel/fs/graphfs_core.c:1429-1595 | whatever was below the old path is below the new one, path by path, and nothing else is |
| `NamespaceLaws.WriteEffect` | kernel/fs/graphfs_core.c:1251-1365 | every answer of write has its exact condition; the bytes written are the data, gaps are zero, the others stay, and so does every other node |
| `NamespaceLaws.TruncateEffect` | kernel/fs/graphfs_core.c:1597-1691 | every answer of truncate has its exact condition; kept bytes stay and new ones are zero |
| `NamespaceLaws.ReadEffect` | kernel/fs/graphfs_core.c:997-1043 | every answer of read has its exact condition; byte i read is byte off + i stored, short only at the end |
| `NamespaceLaws.WriteThenRead` | kernel/fs/graphfs_core.c:997-1365 | what was written is what is read, and every range of every file apart from it reads as before |
| `NamespaceLaws.FileIsHistory` | kernel/fs/graphfs_core.c:997-1691 | in every run from mkfs, whatever else is created, linked, moved or removed, the length and every byte of a file are those its writes and truncates since its creation give |
| `GfsCore.Gfs.BRead` | kernel/fs/graphfs_core.c:158-163 | out of range is ECORRUPT, otherwise the block or EIO with a fault |
| `GfsCore.Gfs.ReadMeta` | kernel/fs/graphfs_core.c:173-182 | a block is returned only if its checksum matches; a sound pointer fails only with a device fault |
| `GfsCore.Gfs.BWrite` | kernel/fs/graphfs_core.c:165-170 | a write to a block the live filesystem does not use keeps the old filesystem recoverable; a failed write changes nothing |
| `GfsCore.Gfs.WriteMeta` | kernel/fs/graphfs_core.c:185-193 | the returned pointer carries the checksum of what was stored |
| `GfsCore.Gfs.AllocBlock` | kernel/fs/graphfs_core.c:214-223 | the lowest block free in both bitmaps; ENOSPC exactly when there is none |
| `GfsCore.Gfs.AllocNear` | kernel/fs/graphfs_core.c:226-234 | the hint if it is free in both bitmaps, otherwise the lowest such block; ENOSPC exactly when there is none |
| `GfsCore.Gfs.FreeBlock` | kernel/fs/graphfs_core.c:236-240 | clears one bit, and none for block 0 |
| `GfsCore.Gfs.CountFreeBits` | kernel/fs/graphfs_core.c:242-250 | counts the clear bits |
| `GfsCore.Gfs.NodeRead` | kernel/fs/graphfs_core.c:269-284 | EINVAL exactly for ids out of range; otherwise the record of the current tree, or EIO with a fault |
| `GfsCore.Gfs.NodeWrite` | kernel/fs/graphfs_core.c:288-314 | moving a node table to a fresh block stores the record, keeps every other record and the exact block ownership, and costs at most one block |
| `GfsCore.Gfs.TxnBegin` | kernel/fs/graphfs_core.c:320-326 | a transaction starts from the committed tree and bitmap; EROFS exactly when read-only |
| `GfsCore.Gfs.WriteBitmap` | kernel/fs/graphfs_core.c:333-345 | fills the inactive bitmap copy with the working bitmap and touches no other block |
| `GfsCore.Gfs.WriteMap` | kernel/fs/graphfs_core.c:380-391 | the new node map is stored in a fresh block, the old block is given back, ownership stays exact |
| `GfsCore.Gfs.Publish` | kernel/fs/graphfs_core.c:405-411 | one write of the inactive superblock slot turns the old image into the new one; if it fails the old one stands |
| `GfsCore.Gfs.TxnCommit` | kernel/fs/graphfs_core.c:376-420 | on success the committed filesystem is the one built in the transaction and the log is atomic; on error the old one stands; ENOSPC only with no free block, EIO only with a fault |
| `GfsCore.PublishImage` | kernel/fs/graphfs_core.c:405-418 | writing the prepared superblock makes the new image sound and shows the same tree |
| `GfsCrash.CrashBeforePublish` | kernel/fs/graphfs_core.c:211-234 | after any prefix of the writes before the publish, even with the next block torn, recovery gives the old filesystem |
| `GfsCrash.CrashFindsBefore` | kernel/fs/graphfs_core.c:376-420 | for any call and any strict prefix of its writes, with the next write torn, recovery gives the filesystem from before the call |
| `GfsCrash.TornAtPublish` | kernel/fs/graphfs_core.c:407-411 | a superblock torn so that its checksum fails leaves the old filesystem |
| `GfsCrash.NoCrashFindsAfter` | kernel/fs/graphfs_core.c:376-420 | when all writes landed, recovery gives the filesystem the call left behind |
| `GfsCrash.RecoveryIsUnique` | kernel/fs/graphfs_core.c:670-721 | a disk recovers to at most one filesystem |
| `GfsMount.Mkfs` | kernel/fs/graphfs_core.c:731-828 | success leaves a sound image of the fresh filesystem; EINVAL exactly when the device is too small, EIO exactly with a device fault; blocks past the metadata stay as they were |
| `GfsMount.UsedPrefixIs` | kernel/fs/graphfs_core.c:738-756 | mkfs takes two superblocks, two bitmaps just long enough for the device, the node map and one table, and asks for no more |
| `GfsMount.WriteCopy` | kernel/fs/graphfs_core.c:776-800 | a bitmap copy built bit by bit is the one intended, and other blocks stay |
| `GfsMount.WriteBody` | kernel/fs/graphfs_core.c:755-800 | table, node map and both bitmap copies are those of the empty filesystem, or a device write failed |
| `GfsMount.PickSuper` | kernel/fs/graphfs_core.c:676-692 | the newest valid superblock among the slots that could be read; none exactly when no such slot holds a valid one |
| `GfsMount.ReadBitmap` | kernel/fs/graphfs_core.c:657-668 | reads back exactly the bitmap that was written across the blocks |
| `GfsMount.Mount` | kernel/fs/graphfs_core.c:670-721 | what mount accepts is the newest valid superblock that was read, with a checksummed node map and bitmap; it presents exactly the image the readable slots hold, ENOMEM without a buffer; it presents the newest image if and only if its slot was read, and an older generation otherwise; the geometry of what it accepts is in bounds |
| `GfsMount.NewestIsLive` | kernel/fs/graphfs_core.c:638-692 | in a sound image, seen through the slots that could be read, the newest valid superblock is the live one and passes the geometry checks |
| `GfsMount.RemountAfterCrash` | kernel/fs/graphfs_core.c:670-721 | mounting after a crash inside any call, with the slot in question readable, presents the filesystem from before the call, or from after it when all writes landed; with a sound device always |
| `GfsMount.LiveSlotEnough` | kernel/fs/graphfs_core.c:676-692 | a sound image stays one when the other slot cannot be read |
| `GfsMount.OlderWithout` | kernel/fs/graphfs_core.c:676-692 | without the live slot, whatever superblock is chosen is of an older generation |
| `GfsMount.OlderImage` | kernel/fs/graphfs_core.c:376-411 | after a publish and any writes of the next call the older superblock is intact, and everything below it too when the writes spared it |
| `GfsMount.MountAfterPublish` | kernel/fs/graphfs_core.c:670-721 | mounting after a publish and an unfinished call: the newer tree with its slot read; with only the older slot read, the older tree when no write touched it, and otherwise the older superblock or EBADCRC; EBADFS with neither |
| `GfsMount.FallbackShowsOlder` | kernel/fs/graphfs_core.c:676-692 | a disk with two generations that is sound as the newer one, and as the older one when slot 0 cannot be read, with different trees |
| `GfsMount.MountTwoGenerations` | kernel/fs/graphfs_core.c:670-721 | mounting that disk shows the older tree exactly when only the older slot was read |
| `GfsRuns.AtomicIsSafe` | kernel/fs/graphfs_core.c:376-420 | any number of the writes of a call leaves a disk that recovers to the tree before it, or after it when all landed |
| `GfsRuns.Perform` | kernel/fs/graphfs_core.c:1112-1691 | any call on any sound mount keeps the image sound and the namespace a tree and survives a crash at every point; it does what the plain operation says, or nothing, and then for the same reason, a device failure, a read-only mount, too few blocks or, exactly in that case, too many extents |
| `GfsRuns.RunAll` | kernel/fs/graphfs_core.c:1112-1691 | the same over any list of calls, each starting where the one before it stopped |
| `GfsRuns.MakeAndMount` | kernel/fs/graphfs_core.c:670-828 | mkfs followed by mount gives the empty tree on a sound image; with a sound device exactly when the device is large enough |
| `GfsRuns.MakeAndRun` | kernel/fs/graphfs_core.c:670-1933 | from mkfs through any list of calls: sound image, tree-shaped namespace, every answer accounted for, every call crash safe, and a clean fsck; with a sound device it runs to the end exactly when the device is large enough |
| `GfsEdgeMap.EntryMapAdd` | kernel/fs/graphfs_core.c:435-483 | adding an edge anywhere in the chain adds one binding to the name map |
| `GfsEdgeMap.EntryMapRemove` | kernel/fs/graphfs_core.c:488-561 | dropping one edge drops its binding and no other |
| `GfsEdges.EdgeLookup` | kernel/fs/graphfs_core.c:579-600 | agrees with the directory as a finite map: the node bound to the name, ENOENT exactly if unbound |
| `GfsEdges.EdgeAdd` | kernel/fs/graphfs_core.c:435-483 | the directory gains exactly the one binding, costs at most one block, ENOSPC only with none free |
| `GfsEdgeRemove.EdgeRemove` | kernel/fs/graphfs_core.c:488-561 | rebuilding the chain removes exactly the named binding, keeps every other, gives the old blocks back; ENOENT exactly if unbound |
| `GfsStage.FindFree` | kernel/fs/graphfs_core.c:1049-1078 | the lowest free node id, ENOSPC exactly when every node is in use |
| `GfsStage.ChainFree` | kernel/fs/graphfs_core.c:564-575 | gives back exactly the blocks of the chain |
| `GfsStage.FreeNode` | kernel/fs/graphfs_core.c:1224-1241 | gives back exactly the blocks of the node and frees it, nothing else changes |
| `GfsExtents.BmapAt` | kernel/fs/graphfs_core.c:987-995 | in sorted extents bmap finds the block of the one extent that covers it |
| `GfsExtents.FreeExtents` | kernel/fs/graphfs_core.c:1226-1230 | clears exactly the bits of the listed blocks |
| `GfsOps.CreateAt` | kernel/fs/graphfs_core.c:1367-1427 | atomic; success is the plain create with its id (see `NamespaceLaws.CreateEffect`); a refusal has a reason: the plain create refuses likewise, a fault, read-only, or fewer than 4 free blocks |
| `GfsOps.LinkName` | kernel/fs/graphfs_core.c:1112-1176 | atomic; success is the plain link (see `NamespaceLaws.LinkEffect`); every refusal has its reason |
| `GfsOps.UnlinkName` | kernel/fs/graphfs_core.c:1178-1249 | atomic; success is the plain unlink (see `NamespaceLaws.UnlinkEffect`), with node and blocks reclaimed; every refusal has its reason |
| `GfsOps.DropRecord` | kernel/fs/graphfs_core.c:1222-1247 | lowers the link count or reclaims the node, with the free-node count exact |
| `GfsRename.WalkUp` | kernel/fs/graphfs_core.c:1483-1499 | EINVAL exactly when the new directory is at or below the source, never ECORRUPT |
| `GfsRename.FindDest` | kernel/fs/graphfs_core.c:1502-1532 | the checks on an existing target: no-op for the same node, otherwise the plain replacement check |
| `GfsRename.RenameCheck` | kernel/fs/graphfs_core.c:1446-1532 | the checks pass, refuse, or find a no-op exactly as the plain rename does |
| `GfsRename.TakeNames` | kernel/fs/graphfs_core.c:1534-1572 | the old name and, if there is one, the replaced target are gone, and nothing else |
| `GfsRename.PutName` | kernel/fs/graphfs_core.c:1573-1593 | the new name is bound and a moved directory has its new parent |
| `GfsRename.RenameName` | kernel/fs/graphfs_core.c:1429-1595 | atomic; success is the plain rename (see `NamespaceLaws.RenameEffect`); every refusal has its reason |
| `GfsFile.ReadFile` | kernel/fs/graphfs_core.c:997-1043 | returns exactly the bytes of the file in range, short at the end, zeros for holes |
| `GfsPmap.BuildPmap` | kernel/fs/graphfs_core.c:1277-1287 | the table of physical blocks agrees with bmap on every logical block |
| `GfsPmap.Coalesce` | kernel/fs/graphfs_core.c:1332-1353 | the extents describe exactly the table, one per maximal run; EFRAG exactly when there are more than eight runs |
| `GfsPmap.RunsAreExtents` | kernel/fs/graphfs_core.c:1332-1353 | a file has no more runs than extents |
| `GfsPmap.RunsChanged` | kernel/fs/graphfs_core.c:1298-1353 | rewriting a range of blocks adds at most one run for each and one more |
| `GfsWrite.OverlayIsNew` | kernel/fs/graphfs_core.c:1300-1316 | old bytes overlaid with the data are the bytes the block must hold |
| `GfsWrite.PutBlocks` | kernel/fs/graphfs_core.c:1296-1330 | the written blocks go to fresh blocks, old ones are given back; ENOSPC only if fewer blocks were free than are written |
| `GfsWrite.WriteFile` | kernel/fs/graphfs_core.c:1251-1365 | atomic; success is the plain byte-sequence write (see `NamespaceLaws.WriteEffect`); after the free-space test no allocation fails; a call that gets that far answers EFRAG exactly when the blocks it takes, each next to the one before when it can, leave the file with more than eight runs |
| `GfsTruncate.Trim` | kernel/fs/graphfs_core.c:1621-1641 | drops or trims exactly the extents past the new end and gives exactly their blocks back |
| `GfsTruncate.RepointedMap` | kernel/fs/graphfs_core.c:1667-1681 | repointing the last block changes the mapping of that block only |
| `GfsTruncate.MoveTail` | kernel/fs/graphfs_core.c:1643-1683 | the kept last block is rewritten with its tail zeroed; EFRAG only with eight extents |
| `GfsTruncate.TruncateFile` | kernel/fs/graphfs_core.c:1597-1691 | atomic; success is the plain resize with zeros (see `NamespaceLaws.TruncateEffect`); every refusal has its reason; a call that gets that far answers EFRAG exactly when the cut falls into the last of eight extents, behind its first block |
| `GfsTruncate.TailSplitsIff` | kernel/fs/graphfs_core.c:1620-1684 | the trimmed extents run out of slots exactly when the cut falls into the last of eight extents, behind its first block |
| `GfsRead.LookupName` | kernel/fs/graphfs_core.c:876-895 | agrees with the plain lookup, error by error |
| `GfsRead.ResolvePath` | kernel/fs/graphfs_core.c:897-941 | equals folding lookup over the components of the path, error by error |
| `GfsRead.NodeGet` | kernel/fs/graphfs_core.c:837-857 | reports the kind, mode, link count, size and parent of the node; EINVAL only out of range, ENOENT only if free |
| `GfsRead.EdgeGet` | kernel/fs/graphfs_core.c:943-984 | the edge at that position of the listing, or the error that says why not |
| `GfsRead.ListingIsEntries` | kernel/fs/graphfs_core.c:943-984 | positions 0 to edge_count - 1 name every entry exactly once |
| `GfsFsck.Census.Mark` | kernel/fs/graphfs_core.c:1717-1727 | a block out of range or met before is a finding, and only such a block |
| `GfsFsck.WalkEdges` | kernel/fs/graphfs_core.c:1815-1842 | counts every NAME edge of a directory once and meets exactly its chain |
| `GfsFsck.PassOne` | kernel/fs/graphfs_core.c:1775-1867 | the census meets exactly the blocks reachable from the node map, each once, and counts every NAME edge |
| `GfsFsck.EdgesAreLinks` | kernel/fs/graphfs_core.c:1829-1837 | the edges counted towards a node are its incoming names |
| `GfsFsck.CheckTail` | kernel/fs/graphfs_core.c:1844-1864 | with a device that answers, silent exactly when no extent passes the end and the tail is zero |
| `GfsFsck.CheckTargets` | kernel/fs/graphfs_core.c:1870-1876 | silent exactly when no NAME edge leads to a free node |
| `GfsFsck.CheckTable` | kernel/fs/graphfs_core.c:1883-1907 | silent exactly when every record agrees with the link counts and parents that were met |
| `GfsFsck.CheckLinks` | kernel/fs/graphfs_core.c:1877-1907 | over all tables, silent exactly when every record agrees, for a device that answers |
| `GfsFsck.CheckBits` | kernel/fs/graphfs_core.c:1909-1930 | silent exactly when what was met equals the live bitmap, for a device that answers |
| `GfsFsck.ShadowIsBitmap` | kernel/fs/graphfs_core.c:1909-1930 | with intact blocks, those reached are exactly those marked in use |
| `GfsFsck.Fsck` | kernel/fs/graphfs_core.c:1734-1933 | on any namespace over intact blocks, with a device that answers: clean if and only if every named node is in use, link counts are the numbers of names, and every directory has one name, in its parent |
| `GfsFsck.CensusExact` | kernel/fs/graphfs_core.c:1870-1907 | the census of a node agrees with its record exactly when the node is consistent |
| `GfsFsck.CensusAllExact` | kernel/fs/graphfs_core.c:1870-1907 | both checks of pass 2 are silent exactly when the whole namespace is consistent |
| `GfsFsck.TreeIffConsistent` | kernel/fs/graphfs_core.c:1734-1933 | a namespace is a tree exactly when the checker would be silent and, beyond it, names lead to nodes, the root is a directory without a name, files have names and directories hang off the root |
| `GfsFsck.DetachedCyclePasses` | kernel/fs/graphfs_core.c:1877-1907 | two directories that name each other are consistent and no tree |
| `GfsFsckLimit.CycleImage` | kernel/fs/graphfs_core.c:1734-1933 | a concrete disk with that namespace is a sound image |
| `GfsFsckLimit.CleanWithoutTree` | kernel/fs/graphfs_core.c:1734-1933 | with a sound device, mounting and checking it reports nothing |
| `Vfs.PathSplit` | kernel/fs/vfs.c:370-385 | splits at the last slash |
| `Vfs.SplitComponents` | kernel/fs/vfs.c:370-385 | the components of a path are those of its directory followed by its last name |
| `Vfs.TargetIsResolve` | kernel/fs/vfs.c:504-516 | looking the last name up in its directory is resolving the path, with the same errors |
| `Vfs.VfsState.Locate` | kernel/fs/vfs.c:504-516 | directory, name, node and status of the path, or the lookup error |
| `Vfs.VfsState.Ref` | kernel/fs/vfs.c:116-121 | one more reference, the count of open descriptions unchanged |
| `Vfs.VfsState.Put` | kernel/fs/vfs.c:125-144 | the last reference gives the node back; the asserted positive count holds |
| `Vfs.UnlinkSays` | kernel/fs/vfs.c:547-586 | a name goes exactly when it leads to a file that is not open or keeps another name; IsDir and Busy have their exact conditions |
| `Vfs.RmdirSays` | kernel/fs/vfs.c:588-625 | a directory goes exactly when it is empty, not open and not the root; every refusal has its exact condition |
| `Vfs.MkdirSays` | kernel/fs/vfs.c:518-545 | a path that resolves is refused; otherwise it leads to the new directory |
| `Vfs.LinkSays` | kernel/fs/vfs.c:627-673 | both paths lead to the one file, which counts one name more; directories are refused exactly |
| `Vfs.OpenSays` | kernel/fs/vfs.c:387-491 | which flags open what: an existing node exactly as its kind allows, emptied if asked, or a new empty file with the mode asked for |
| `Vfs.RenameSays` | kernel/fs/vfs.c:675-729 | the new path, and every path below it, leads where the old one led; the old one is gone, unless both were names of one file |
| `Vfs.VfsState.Unlink` | kernel/fs/vfs.c:547-586 | does or refuses exactly what it should, Busy exactly for the last name of an open file; the path is then gone; open descriptions stay valid |
| `Vfs.VfsState.Rmdir` | kernel/fs/vfs.c:588-625 | does or refuses exactly what it should, Busy exactly for an open directory or the root; the path is then gone; open descriptions stay valid |
| `Vfs.VfsState.Mkdir` | kernel/fs/vfs.c:518-545 | a path that did not resolve now leads to a new, empty directory with the mode asked for and the right parent, or the exact refusal |
| `Vfs.VfsState.Link` | kernel/fs/vfs.c:627-673 | the new path leads to the file the old one leads to, never to a directory, or the exact refusal |
| `Vfs.VfsState.FindOrCreate` | kernel/fs/vfs.c:387-417 | finds the node or creates the missing last component, or the exact refusal |
| `Vfs.VfsState.Open` | kernel/fs/vfs.c:387-491 | the new description holds the node the path leads to, emptied if asked; otherwise the exact refusal and no description |
| `Vfs.VfsState.Rename` | kernel/fs/vfs.c:675-729 | exact answer; the new path leads where the old one led, and the old one is gone; descriptions stay valid unless an open node was replaced, which cannot happen when the guard's reads succeed or no open node is hit |
| `Vfs.VfsState.Guard` | kernel/fs/vfs.c:712-725 | busy exactly when the rename would free an open node, if its reads succeed |
| `Vfs.Renamed` | kernel/fs/vfs.c:712-728 | a rename keeps the open descriptions alive exactly when it frees no open node |
| `Vfs.GuardNeeded` | kernel/fs/vfs.c:712-728 | for all paths: the rename alone keeps descriptions alive exactly when it hits no open node, and with the guard always |
| `Vfs.UnguardedRenameFreesOpen` | kernel/fs/vfs.c:714-725 | with "b" open, renaming "a" over it frees its node when the guard is skipped; with the guard the answer is Busy |
| `PipeRing.Ring.Read` | kernel/fs/pipe_core.c:23-34 | what is read followed by what is left is what was there, across the wrap |
| `PipeRing.Ring.Write` | kernel/fs/pipe_core.c:36-48 | appends as many bytes as fit, in order, across the wrap |
| `Pipes.Pipe.ReadStep` | kernel/fs/pipe.c:103-124 | bytes in order when there are any; end of file only with no writer left and everything delivered; sleeps only when empty with a writer left; wakes the first writer; it leaves a reader asleep over bytes exactly when one sleeps and fewer bytes are asked for than there are, and with nobody woken exactly when no other reader is woken |
| `Pipes.Pipe.WriteStep` | kernel/fs/pipe.c:126-153 | accepts as much as fits; broken only with no reader left; sleeps only when full; wakes the first reader when bytes went in; it leaves a reader asleep over bytes exactly when two slept and there was room, or one already did and there was none, and never without a woken reader |
| `Pipes.Pipe.ReleaseRead` | kernel/fs/pipe.c:165-179 | the last read end wakes every writer; the pipe is freed once, with nobody inside |
| `Pipes.Pipe.ReleaseWrite` | kernel/fs/pipe.c:181-195 | the last write end wakes every reader; the pipe is freed once, with nobody inside |
| `Pipes.PipeSafe` | kernel/fs/pipe.c:64-195 | delivered bytes are a prefix of accepted bytes; never both sides asleep with nobody woken; a freed pipe is empty of threads; a sleeper on bytes needs two reader threads |
| `Pipes.SleepsOnBytes` | kernel/fs/pipe.c:141-143 | for any two reading threads, a run that ends with one asleep over bytes and no reader woken |
| `Sched.Scheduler.Enqueue` | kernel/sched/sched_core.c:14-23 | the thread goes to the end of the ready queue; every other list is untouched by the shared link |
| `Sched.Scheduler.Dequeue` | kernel/sched/sched_core.c:25-36 | the head leaves, none exactly when the queue is empty |
| `Sched.Scheduler.SleepInsert` | kernel/sched/sched_core.c:42-54 | stable insertion: behind every sleeper that wakes no later |
| `Sched.SleepStable` | kernel/sched/sched_core.c:42-54 | a sleeper due no later keeps its place in front, also on a tie; the others move back by one |
| `Sched.Scheduler.WakeDue` | kernel/sched/sched_core.c:56-65 | exactly the sleepers that are due go to the ready queue, in wake order |
| `Sched.Scheduler.Schedule` | kernel/sched/sched.c:61-94 | the head of the ready queue runs, idle when there is none |
| `Sched.Scheduler.Yield` | kernel/sched/sched.c:172-179 | round robin: the current thread goes to the end, idle never queues |
| `Sched.Scheduler.Sleep` | kernel/sched/sched.c:181-191 | the current thread sleeps until its tick and the next one runs |
| `Sched.Scheduler.Tick` | kernel/sched/sched.c:99-104 | a tick makes exactly the due sleepers ready |
| `Sched.Scheduler.BlockOn` | kernel/fs/pipe.c:64-72 | the current thread joins the end of a wait queue and the next one runs |
| `Sched.Scheduler.WakeOne` | kernel/fs/pipe.c:88-99 | the oldest waiter becomes ready; its state was BLOCKED, as sched_wake asserts |
| `Sched.Scheduler.MutexLock` | kernel/sched/mutex.c:26-47 | takes a free lock, otherwise queues in arrival order |
| `Sched.Scheduler.MutexResume` | kernel/sched/mutex.c:44-46 | a thread that blocked in mutex_lock owns the lock when it runs again, as asserted |
| `Sched.Scheduler.MutexUnlock` | kernel/sched/mutex.c:49-65 | hands the lock to the oldest waiter, or frees it |
| `Sched.Scheduler.Create` | kernel/sched/sched.c:121-155 | a new thread at the end of the ready queue, nothing else changes |
| `Sched.Scheduler.Exit` | kernel/sched/sched.c:214-225 | the thread never runs again and its joiner becomes ready |
| `Sched.Scheduler.Join` | kernel/sched/sched.c:227-244 | done exactly if the thread has exited, otherwise the caller blocks |
| `Sched.Scheduler.JoinResume` | kernel/sched/sched.c:236-244 | a joiner that runs again finds a zombie, as asserted |
| `Sched.ThreadsAccounted` | kernel/sched/sched.c:61-244 | no thread is lost or queued twice: queues are disjoint, current and idle are on none, and the state of a thread tells which queue has it |
| `Sched.PickedWithin` | kernel/sched/sched.c:61-94 | from any point in the history of the scheduler, the thread at position k of the ready queue then is the one that the (k+1)st schedule() since has run |
| `Sched.RunInOrder` | kernel/sched/sched_core.c:14-36 | in any history of queueing and scheduling, queued threads run in the order they were queued |
| `Sched.RunSteps` | kernel/sched/sched.c:61-244 | round robin over any list of steps: the thread at position k of the ready queue is the (k+1)st to run, whatever else happens |
| `Pmm.Pool.MarkUsed` | kernel/mm/pmm_core.c:34-41 | exactly the range is used as well; the free count is exact |
| `Pmm.Pool.MarkFree` | kernel/mm/pmm_core.c:43-50 | exactly the range is free as well; the free count is exact |
| `Pmm.Pool.Alloc` | kernel/mm/pmm_core.c:59-80 | the first free frame from the hint on, around the end; none exactly when no frame is free |
| `Pmm.SkipByte` | kernel/mm/pmm_core.c:66-71 | stepping over a full bitmap byte misses no free frame |
| `Pmm.Pool.AllocRun` | kernel/mm/pmm_core.c:82-97 | the lowest aligned free run; none exactly when the request is malformed or there is no such run |
| `Pmm.Pool.Free` | kernel/mm/pmm_core.c:99-106 | frees exactly a used frame in range |
| `Paging.PathSpells` | kernel/arch/x86_64/paging.c:22-25 | the four table indices are bits 39-47, 30-38, 21-29 and 12-20 of the address |
| `Paging.PathInjective` | kernel/arch/x86_64/paging.c:22-25 | two addresses share their table indices exactly when they lie in the same page |
| `Paging.Mmu.Create` | kernel/arch/x86_64/paging.c:51-59 | an empty tree on one fresh frame, or no memory with no frame free |
| `Paging.Mmu.CreateUser` | kernel/mm/vmm.c:151-168 | an empty user half on one fresh frame and the upper half of the kernel's root table; everything in use stays |
| `Paging.Mmu.NextTable` | kernel/arch/x86_64/paging.c:33-49 | the table below a slot, made on a fresh frame if missing; no page changes; an entry above a page for the user is open to the user, and none above a page forbids writing or execution |
| `Paging.LeafDecides` | kernel/arch/x86_64/paging.c:27-49 | over the whole walk, user and write access are granted and execution forbidden exactly as the last entry says |
| `Paging.Mmu.PageGranted` | kernel/arch/x86_64/paging.c:27-81 | the permissions a page shows are the ones the processor grants |
| `Paging.Mmu.Map4k` | kernel/arch/x86_64/paging.c:61-85 | success changes exactly one page, failure none; EEXIST exactly for an aligned, mapped page; the aliased kernel half stays |
| `Paging.Mmu.Lookup` | kernel/arch/x86_64/paging.c:91-109 | the walk finds exactly what the flat map holds |
| `Paging.Mmu.Clone` | kernel/arch/x86_64/paging.c:115-157 | any child, with pages of its own or not: success adds every page of the parent, with permissions and contents, on frames of its own, where the child had none; EEXIST only if both had a page; no memory only when at most one frame is left; a page is copied or untouched; both kernel halves and the parent stay |
| `Paging.Mmu.Destroy` | kernel/arch/x86_64/paging.c:159-199 | exactly the frames of the tree go back to the pool, each once |
| `Paging.Mmu.AddPage` | kernel/arch/x86_64/paging.c:61-85 | a fresh frame is mapped or given back, so tree and pool together keep their frames; the kernel half and everything in use outside the tree stay |
| `Paging.Mmu.LifeCycle` | kernel/arch/x86_64/paging.c:51-199 | any number of address spaces, created, mapped into with any contents and flags, cloned into each other and destroyed in any order, with any failures: at the end the pool has exactly the frames it started with, and nothing that was in use has changed |
| `Paging.Mmu.MapIn` | kernel/arch/x86_64/paging.c:61-85 | mapping into one space changes at most that page of that space; the others and every kernel half stay |
| `Paging.Mmu.CloneInto` | kernel/arch/x86_64/paging.c:115-157 | cloning one space into another leaves every other one alone, and the books balance |
| `Paging.Mmu.EndSpace` | kernel/arch/x86_64/paging.c:159-199 | destroying one space leaves the others alone, and the books balance |
| `Heap.ClassFor` | kernel/mm/heap_core.c:30-37 | the smallest class that holds the size, less than twice as large unless it is the first |
| `Heap.SlabHeap.PartialInsert` | kernel/mm/heap_core.c:43-50 | links the slab in front of its list |
| `Heap.SlabHeap.PartialRemove` | kernel/mm/heap_core.c:52-63 | unlinks the slab |
| `Heap.PartRemove` | kernel/mm/heap_core.c:52-63 | what is left is the list without the slab, order kept |
| `Heap.SlabHeap.SlabCreate` | kernel/mm/heap_core.c:65-84 | a new slab has every slot on its free list and belongs to no live allocation |
| `Heap.SlabHeap.AllocLarge` | kernel/mm/heap_core.c:91-102 | a new span for the allocation, counted page by page |
| `Heap.SlabHeap.Alloc` | kernel/mm/heap_core.c:104-130 | a new live allocation; refuses only size zero or an empty backend with no free object in the class; takes pages only then |
| `Heap.SlabHeap.Free` | kernel/mm/heap_core.c:132-176 | rejects exactly pointers that are not live; a span goes back exactly with its last allocation |
| `Heap.AllocationPlaced` | kernel/mm/heap_core.c:65-130 | live allocations are 16-byte aligned, behind their header and inside their span |
| `Heap.AllocationsApart` | kernel/mm/heap_core.c:65-176 | two live allocations share no byte |
| `Heap.HeadersClear` | kernel/mm/heap_core.c:65-176 | no live allocation touches a span header |
| `Heap.SlotLiveOrFree` | kernel/mm/heap_core.c:122-163 | each slot is live or once on the free list of its slab, never both |
| `Heap.OpenIsListed` | kernel/mm/heap_core.c:43-174 | each partial list holds exactly the slabs of its class with a free slot |
| `Heap.SpanHasLive` | kernel/mm/heap_core.c:132-176 | no span is kept without a live allocation |
| `Heap.AllFreed` | kernel/mm/heap_core.c:132-176 | freeing everything returns every page |
| `Heap.LargeRoom` | kernel/mm/heap_core.c:91-102 | the pages asked for hold header and size if and only if the sum does not wrap |
| `Heap.WrappedIsSmall` | kernel/mm/heap_core.c:91-102 | 2^64 - 1 bytes ask for one page |
| `Heap.DoubleFreeCycles` | kernel/mm/heap_core.c:158-163 | pushing an object that is on the free list closes a cycle |
| `Virtq.Queue.Add` | kernel/drivers/virtq_core.c:39-66 | refuses exactly when the wrapped count is zero or exceeds the free descriptors; otherwise a chain that describes the buffers, published last; the request is refused or queued whole if and only if the sum fits; no descriptor in flight is touched |
| `Virtq.FitsIff` | kernel/drivers/virtq_core.c:39-44 | refused or whole exactly when the counts do not wrap or the rest would be refused anyway |
| `Virtq.WrappedRequest` | kernel/drivers/virtq_core.c:39-66 | a run in which a request of 65537 buffers is queued as a chain of one |
| `Virtq.Queue.DeviceTake` | kernel/drivers/virtq_core.c:39-66 | the device meets every published chain once, in order, across the 16-bit wrap, and finds the request it was made for |
| `Virtq.Queue.DeviceWalk` | kernel/drivers/virtq_core.c:39-66 | a device that follows the chain meets the buffers of the request in order: those it may read, then those it may write |
| `Virtq.Queue.TakeUsed` | kernel/drivers/virtq_core.c:68-96 | completions come back in order, each chain returned to the free list once, others untouched; -2 exactly for an id that names no descriptor, which is consumed and changes nothing else |
| `Virtq.Queue.RoomToComplete` | kernel/drivers/virtq_core.c:68-96 | a device that reports no such id never runs out of used slots |
| `Virtq.ChainsFit` | kernel/drivers/virtq_core.c:22-96 | chains in flight and free descriptors never exceed the ring |
| `Virtq.RingAppend` | kernel/drivers/virtq_core.c:63-64 | writing the next slot keeps every entry not yet consumed |
| `Virtq.WrapSlot` | kernel/drivers/virtq_core.c:63-64 | reducing an index to 16 bits does not change its slot |
| `BlockCache.Cache.Find` | kernel/block/block.c:57-64 | the entry that caches the block, none exactly if there is none |
| `BlockCache.Cache.Victim` | kernel/block/block.c:66-74 | an entry with the least stamp |
| `BlockCache.Cache.Read` | kernel/block/block.c:82-102 | returns what the device holds; EINVAL exactly out of range; EIO only with a device error; every cached block equals the device |
| `BlockCache.Cache.Write` | kernel/block/block.c:104-122 | the device holds the block written, other blocks stay; after a failed write the block is not cached |
| `BlockCache.MruOrder` | kernel/block/block.c:66-122 | the recency list holds every block used, once, by last use |
| `BlockCache.HoldsMostRecent` | kernel/block/block.c:57-122 | with no device error the cache holds exactly the most recently used blocks |
| `ProcTable.Table.Alloc` | kernel/proc/proc_core.c:25-39 | a pid never used before in the first free slot; none exactly when the table is full |
| `ProcTable.Table.Find` | kernel/proc/proc_core.c:41-51 | the entry with the pid, none exactly if there is none |
| `ProcTable.Table.Exit` | kernel/proc/proc_core.c:53-67 | the process is a zombie of the same parent with the status given; its children, live or zombie, belong to init and keep all else |
| `ProcTable.Table.WaitFind` | kernel/proc/proc_core.c:69-88 | for a pid, that child and no other; for -1, any: the first zombie if there is one, no child exactly if there is none, and otherwise sleep |
| `ProcTable.Table.Reap` | kernel/proc/proc_core.c:90-100 | frees exactly the zombie with that pid |
| `ProcTable.Table.Die` | kernel/proc/process.c:257-278 | the parent that waits is woken and the table stays sound; where no sleeper missed a zombie, none does afterwards exactly unless init, asleep and not the parent, waits for a zombie child of the dying process |
| `ProcTable.Table.Wait4` | kernel/proc/process.c:457-492 | one pass: for a pid it sleeps exactly while that child lives, for -1 exactly while children live and none is a zombie; the status delivered is the one the child exited with |
| `ProcTable.Table.Fork` | kernel/proc/process.c:294-316 | a child, or the table as it was: EAGAIN exactly when it is full, ENOMEM exactly when the address space cannot be cloned, and then only the pid is spent |
| `ProcTable.ChainToInit` | kernel/proc/proc_core.c:25-67 | parents form a tree: every process reaches init through live parents with ever smaller pids |
| `ProcTable.NobodySleepsOnZombie` | kernel/proc/process.c:257-492 | only init can sleep in wait4 with a matching zombie, and only an adopted one |
| `ProcTable.DieMisses` | kernel/proc/process.c:257-278 | after a death no sleeper misses a zombie exactly when none did before, the parent aside, and init is handed none that it waits for |
| `ProcTable.InitSleepsOnZombie` | kernel/proc/process.c:264-275 | a run that ends with init asleep and a matching zombie |
| `Elf.CheckHeader` | kernel/lib/elf64.c:43-78 | accepts exactly sound headers, and each error names its fault |
| `Elf.CheckSegment` | kernel/lib/elf64.c:93-118 | accepts exactly sound segments despite 64-bit arithmetic, and each error names its fault |
| `Elf.Overlaps` | kernel/lib/elf64.c:124-128 | finds an overlap exactly if there is one |
| `Elf.Validate` | kernel/lib/elf64.c:41-151 | accepts exactly the images that are sound: header, segments, no overlap, something to load, entry in executable file bytes; every error names its fault, that of a segment for the first one that fails |
| `Elf.SpanFacts` | kernel/lib/elf64.c:33-39 | for accepted segments no address sum wraps and the page span is aligned and in bounds |
| `Elf.FillPage` | kernel/proc/elf_load.c:41-49 | a page holds the file bytes that fall into it and zeros elsewhere, reading only inside the image |
| `Elf.LoadPage` | kernel/proc/elf_load.c:66-82 | the assertion that a mapping can only fail for memory holds |
| `Elf.Load` | kernel/proc/elf_load.c:51-86 | loads exactly the accepted images; memory then holds exactly the segments; a validation error maps nothing; no memory only when at most one frame is left, and no frame is lost |
| `Elf.LoadedIsSafe` | kernel/proc/elf_load.c:28-86 | no page is writable and executable, and the entry is a file byte in an executable page |
| `ElfFormat.LeReadsField` | kernel/lib/elf64.c:23-31 | reading a little-endian field gives the number written |
| `ElfFormat.FieldOfLe` | kernel/lib/elf64.c:23-31 | any bytes are the field of the number they are read as |
| `ElfFormat.EhRoundTrip` | kernel/include/elf64.h:45-60 | a file header laid down field by field is read back field by field |
| `ElfFormat.PhRoundTrip` | kernel/include/elf64.h:41-71 | a program header is read back field by field, executable exactly with bit 0 of p_flags and writable exactly with bit 1 |
| `ElfFormat.EveryFile` | kernel/lib/elf64.c:41-80 | every file long enough holds some such headers |
| `ElfFormat.AcceptedIsGood` | kernel/lib/elf64.c:41-151 | a file is accepted exactly when its fields describe a static x86-64 executable whose segments lie in bounds and in the file, are not writable and executable, share no page, and hold the entry in executable file bytes |
| `ElfFormat.LoadedAsWritten` | kernel/proc/elf_load.c:28-86 | every address of a segment is mapped for the user, writable and executable exactly as its header says, and holds the file's byte or zero |
| `ElfFormat.MappedIsWritten` | kernel/proc/elf_load.c:51-86 | every mapped page holds an address of some segment |
| `Crc32c.PolyValue` | kernel/lib/crc32c.c:1-27 | the register constant is the reflected Castagnoli polynomial |
| `Crc32c.Update` | kernel/lib/crc32c.c:16-27 | the byte-wise loop in its mask form folds the bits of the message one by one |
| `Crc32c.UpdateChunks` | kernel/fs/graphfs_core.c:776-800 | folding chunk by chunk gives the checksum of the whole buffer, which mount compares against |
| `Crc32c.CodewordDivides` | kernel/lib/crc32c.c:1-27 | a message followed by its checksum, first 32 bits and checksum complemented, is a multiple of the Castagnoli polynomial, and no other 32 bits make it one |
| `Crc32c.BurstCaught` | kernel/lib/crc32c.c:16-27 | messages of equal length that differ only inside one 32-bit window, wherever it starts, have different checksums |
| `Crc32c.FourBytesCaught` | kernel/lib/crc32c.c:16-27 | messages that differ only in four consecutive bytes have different checksums |

## Left out

- Byte-level encodings (rd32, wr32, node_encode, sb_encode, edge_encode): blocks are typed values. A bitmap read by
  mount is cut to the size of the device.
- GfsFsck.Fsck: runs on images whose blocks are intact (checksums, chains, extents, bitmap), with any namespace; what it
  reports on damaged blocks is left out, because a damaged block has no typed value here.
- GfsFsck.WalkEdges: requires an intact chain, for the same reason; targets may be anything.
- GfsFsck.PassOne: requires intact blocks, for the same reason.
- GfsFsck.CheckLinks: requires intact tables, for the same reason.
- GfsFsck.CheckBits: requires an intact bitmap copy, for the same reason.
- GfsOps.UnlinkName: requires a tree-shaped namespace, which every run from mkfs keeps (`GfsRuns.RunAll`). On any other
  the source lets a link count wrap and writes back stale records.
- GfsRename.WalkUp: requires a tree-shaped namespace, so the ECORRUPT exit is shown not to fire and is not described.
- GfsRename.FindDest: requires a tree-shaped namespace, as GfsOps.UnlinkName does.
- GfsRename.RenameCheck: requires a tree-shaped namespace, as GfsOps.UnlinkName does.
- GfsRename.RenameName: requires a tree-shaped namespace, as GfsOps.UnlinkName does.
- TAG and REF edges and `gfs_node_create`: nothing in the VFS makes them, so the name map is the whole directory.
- Widths of on-disk counters (generation, link count, sizes): they are unbounded here. Block addresses, file sizes and
  node ids have the source's limits.
- `vfs_path_norm`, devfs, mount points and the mapping of filesystem errors to errno values: paths arrive canonical.
- File offsets, seek, directory streaming and `vfs_read_file` in the VFS: thin layers over read, write and listing.
- kernel/fs/socket.c: its release path wakes its own end's queues, so the pipe argument does not carry over.
- 2 MiB pages: the walks require that there are none, as the source does. The nested loops of clone and destroy are
  recursion over the level here.
- Paging.Mmu.Map4k: requires that the frame is not in the tree already, because the flat map owns each frame once.
- The page backend of the heap and the memory for open descriptions are parameters; the allocation of pipes and threads is
  left out.
- Heap.SlabHeap.Free: requires that the pointer is not on a free list and that its page holds a header, because the source
  cannot detect either (`Heap.DoubleFreeCycles`).
- Pipes.PipeSafe: on a reader asleep over bytes it says only what holds in every state, that two threads have read; when
  a step brings that state about is stated exactly by `Pipes.Pipe.ReadStep` and `Pipes.Pipe.WriteStep`.
- ElfFormat.AcceptedIsGood: for bounds on page boundaries, as the source demands of its callers.
- ProcTable.NobodySleepsOnZombie: says only what holds in every state; when a death brings it about that init misses a
  zombie is stated exactly by `ProcTable.Table.Die`.
- Virtq.Queue.TakeUsed: a device that reports the id of a descriptor that heads no chain in flight, or more completions
  than the ring holds, is left out; the source would recycle a chain it does not own.
- Device code, interrupts, context switches, address-space switching, user copies, system-call dispatch, execve, fork
  beyond its steps on the table and the address space, boot and console code: they touch hardware or only pass values on.
