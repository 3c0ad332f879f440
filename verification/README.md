# naivefs, modelled and verified

naivefs is a small Linux filesystem kept as a series of lab snapshots: a device of 512-byte blocks with a superblock,
one block bitmap, one inode bitmap, a table of inodes with eight direct pointers each, and directories stored as
132-byte records, three to a block. This project models the two snapshots that carry the logic and proves what they
keep, what they undo, and exactly where they depart from what their names promise.

- The `naive/` tree: inode and block allocation, `naive_add_entry`, `naive_remove_entry`, lookup, create, mkdir,
  unlink, rmdir, the reserve-then-copy file write, `naive_write_inode`, `naive_iget`, `naive_fill_super` and mkfs.
- `naive/naivefs-8/naivefs.c`: the on-demand data path over a fixed set of inodes, with holes, short writes and the
  rollback of a block that cannot be read.
- `naive/naivefs-9-10/naivefs_dir.c`: the counting test for an empty directory.

## How it is built

There are three layers, each proved against the next.

1. **The volume.** Classes `Volume` and `InodeInfo` hold what the kernel module holds: two bitmap arrays, the array of
   blocks, and in-memory inodes whose fields the operations update. Each C function is a method with the loops and
   branches of the C code (`Volume`, `VolumeDir`, `VolumeInode`, `VolumeFile`, `VolumeTable`, `VolumeMount`,
   `VolumeHoles`). Its contract says which filesystem value the volume holds afterwards, in terms of the one it held
   before.
2. **The filesystem value.** `FS` is the value of a mounted filesystem: the sets of used blocks and used inode bits,
   the blocks, and the inodes. `Steps`, `FileWrite`, `InodeTable` and `OnDemand` give each operation on it, with its
   return code. Ownership, accounting, file contents and the inode table are proved here. `Answers` states, without
   naming how an operation is computed, when each call answers what and which bits, fields and records it leaves; what
   stands on the device, byte for byte, is stated beside each structure.
3. **The namespace.** `Ns` keeps only the live inodes, each directory's records and each directory's link count.
   `Simulation` shows that the blocks, pointers and bitmaps implement it; the tree, the link counts and the
   name-to-inode maps are proved there and carried back.

`Runs`, `TreeRuns`, `Books`, `DirMaps`, `DirSizes`, `LinkRuns` and `FileRuns` put the steps together: their theorems
hold of every state that any sequence of calls reaches from a fresh mount, including calls that fail. `Runs.Enabled`
asks of a call only that its inodes are of the right kind and that its name is neither "." nor ".."; it assumes nothing
about what the directory says of the name. Writes through descriptors of files that unlink has released already are
calls like others (`LateWrites`).

`Sessions` then puts the VFS in front: a map of dentries and the inode hash decide which calls are made, and a lookup
that finds a number the hash does not have loads the inode from the table, as `naive_iget` does. `Reload` and
`TreeLoads` say exactly what such a load does to ownership, to the accounts and to the tree; the theorems of `Sessions`
hold of all sessions, those of `CoherentSessions` of sessions whose names fit and whose lookups load what is in memory.
`Examples`, `FullDirectory`, `StaleDentry` and `StaleImages` hold concrete inputs for the departures; the theorem that
says for which inputs one occurs stands beside each.

## Where the code departs from what one would expect

- `naive_add_entry` on a directory whose eight blocks are full takes a block, fills it, cannot attach it, and returns 0
  (naive/naivefs_dir.c:56-62, 86). Such a call leaks: it is exactly one that returns 0 and leaves a fitting name no
  lookup finds (`Visible.LeakMeans`). Twenty-five creates on a fresh device do it (`FullDirectory.TwentyFiveCreates`).
  Each leak makes its directory 512 bytes too long (`DirSizes.DirSize`), each leaking mkdir also gives it a link too
  many (`LinkRuns.DirLinks`), and the unlink or rmdir that should undo the call fails (`Undo.CreateUnlink`).
- `naive_unlink` and `naive_rmdir` clear the first record that matches the name, but release the inode their dentry is
  bound to (naive/naivefs_inode.c:109-134, naive/naivefs_dir.c:249-316). When the two differ, which two names with the
  same first 127 bytes bring about, the call returns 0, an inode loses its only name and a record names an inode that is
  gone (`StaleDentry.RemovesTheWrongRecord`). The namespace stays a tree exactly as long as no call leaks or mismatches
  in this way (`Books.RunNamespace`), and no call mismatches in a session that enters only names that fit a record
  and loads only current images (`CoherentSessions.SessionNamespace`).
- A name of 128 or more bytes is cut to 127 when stored, but compared whole (naive/naivefs_dir.c:32-34, 112-113). A
  name just added is found again exactly when it is shorter than 128 bytes (`Directory.AddThenLookup`,
  `Examples.LongNameIsNotFound`), and only then can it be removed again (`Undo.CreateUnlink`, `Undo.MkdirRmdir`). A name
  cut off can clash with one that is there (`DirMaps.StepUnique`).
- create and mkdir set the inode's bit before they add the name and leave it set when that fails
  (naive/naivefs_inode.c:45-52, naive/naivefs_dir.c:219-226). Used bits exceed live inodes by exactly the number of
  such failures (`Books.RunBooks`, `Visible.LostMeans`, `Examples.FailedCreateKeepsNumber`).
- Neither data path clears a block it takes. Bytes of the file that a write makes readable without writing them are
  those the block held before, another file's deleted ones included (`FileWrite.WriteSplices`, `OnDemand.WriteExposes`).
- A write that fails with -ENOSPC keeps every block it could attach (naive/naivefs_file.c:94-108), up to all eight
  (`FileRuns.WriteSlack`).
- The reservation of `naive_file_write` rounds the old size down (naive/naivefs_file.c:91-92), so every write that
  grows a file of unaligned size takes a block too many; at most seven such writes can succeed in the life of a file
  (`FileRuns.AtMostSevenUnalignedGrowths`).
- `naive_write_inode` stores a directory's size divided by 132 where `naive_iget` reads a size
  (naive/naivefs_super.c:263-267, naive/naivefs_inode.c:180). The round trip is exact for exactly the inodes that are
  files or of size 0 and have no pointers past their count (`InodeTable.InodeRoundTrip`,
  `Examples.DirectorySizeShrinks`).
- create and mkdir do not enter their inode in the inode hash, and unlink does not clear the table, so the first lookup
  of a name the VFS has forgotten loads its inode from whatever its table block holds. Block ownership survives a
  session exactly when every image so loaded can be loaded (`Sessions.SessionOwns`, `Reload.ReloadKeeps`), and the tree
  exactly when no call leaks or mismatches and every image is one of a file for a file, or of a directory with the same
  children, parent and link count (`Sessions.SessionTree`, `TreeLoads.LoadKeepsTree`). mkdir, forget, lookup turns a
  directory into a file (`StaleImages.ForgottenDirectory`); a number used again comes back with the blocks released with
  it (`StaleImages.ForgottenFile`, `Reload.ReusedNumberIsStale`).
- A file written to through a descriptor after unlink takes blocks that nobody ever gives back
  (naive/naivefs_inode.c:124-138, naive/naivefs_file.c:94-108); used blocks exceed the owned ones by exactly those
  (`Books.RunBooks`, `LateWrites.LateWriteKeeps`).
- `format_disk` seeks back to block 1 after it has written the superblock there (naive/mkfs.naive.c:92-99). The block
  bitmap goes over the superblock and the inode bitmap to block 2, where the final block bitmap replaces it. No device
  it has formatted can be mounted (`VolumeMount.FormattedHasNoMagic`, `VolumeMount.FormatAndMount`); with superblock and
  bitmaps in the blocks mount reads, it could be (`VolumeMount.WouldMount`), and that is the start state of the runs.
- Both byte-wise searches look at whole bitmap bytes only (naive/naivefs_super.c:19, 45), so the last
  `block_total % 8` blocks are never allocated (`HoleFiles.AllocatorsAgree`, `Examples.LastBlocksUnused`).
- The mounted root points to no block and has no "." or ".." records (naive/naivefs_super.c:155-165); the block mkfs
  reserves for it belongs to nobody. The counting emptiness test therefore disagrees with the scanning one on a root
  that holds no name or two (`Namespace.CountingTestAgrees`, `Examples.EmptyRootCountsNone`).
- Four branches cannot be reached: `ino > total_inodes` and `block_no >= total_blocks` in the searches
  (naive/naivefs_super.c:24, 52), the `-ENOSPC` of the copy loop (naive/naivefs_file.c:114-117), and the second clamp
  of the on-demand read (naive/naivefs-8/naivefs.c:207-208). They are in the methods, and proved dead.

## Model

| member | source | states |
|---|---|---|
| Books.RunBooks | naive/naivefs_super.c:35-72 | After any run from a fresh mount, failed calls and writes to released files included: no block has two owners, every pointer is a used data block, used data blocks are the sum of the block counts plus the one mkfs reserved plus one per leaking call plus those taken for files already released, used inode bits are the live inodes plus one per call that failed inside add_entry |
| Books.RunNamespace | naive/naivefs_dir.c:56-86 | After any run from a fresh mount: the namespace was a tree all through if and only if no call leaked or mismatched; if none mismatched it ends as a tree exactly when the leak count is 0; whatever was called, names are terminated and dot records stand where they belong |
| Books.MountedIsSound | naive/naivefs_super.c:124-174 | The state mount makes of a device with mkfs's layout and bitmaps satisfies ownership, both accounts (one reserved block), the tree invariant and name uniqueness, on every device the bitmap can describe |
| Books.UsedBlocksCount | naive/naivefs_super.c:35-72 | Used bits of the data region number exactly the sum of block_count over the live inodes plus the blocks that belong to nobody |
| Books.UsedNumbersCount | naive/naivefs_super.c:13-32 | Used inode bits number exactly the live inodes plus the numbers lost to failed calls |
| Books.StepMetadata | naive/mkfs.naive.c:64-70 | No call but write_inode changes a block below the data region, and write_inode changes only its own inode's table block |
| Books.RunMetadata | naive/mkfs.naive.c:64-70 | Over any run a block below the data region keeps its bytes unless an inode of that table block is written out |
| Books.TableStable | naive/naivefs_inode.c:167-186 | What iget would read for an inode changes only when that inode itself is written out |
| Books.RunTable | naive/naivefs_inode.c:167-186 | What iget would read for an inode is the same after any run that does not write that inode out |
| Runs.StepKeeps | naive/naivefs_dir.c:7-332 | Every call, whatever it returns, keeps ownership and both accounts (up to the block or number it leaks or loses and the blocks it takes for a released file) and changes no inode, and no block of an inode, it was not asked to touch |
| Runs.RunKeeps | naive/naivefs_dir.c:7-332 | Along any run the blocks and numbers used for nobody grow by exactly one per leak, those taken for released files, and one per failure inside add_entry |
| Runs.RunReleased | naive/naivefs_super.c:35-72 | A file that unlink has released and a descriptor still holds keeps its blocks to itself through every run |
| LateWrites.ClearedIsReleased | naive/naivefs_inode.c:123-138 | What unlink leaves in the inode it releases is such a file, without blocks |
| LateWrites.LateWriteKeeps | naive/naivefs_file.c:72-156 | A write to a released file keeps ownership and touches no inode and no block of one; the blocks used for nobody grow by exactly those its inode gains |
| LateWrites.LateWriteThenRead | naive/naivefs_file.c:21-156 | What a successful write to a released file put in, a read through the descriptor returns |
| TreeRuns.StepTree | naive/naivefs_dir.c:47-86 | One call keeps the tree if and only if it neither leaks nor mismatches; a leaking call leaves a live inode that no directory names |
| TreeRuns.RunTree | naive/naivefs_dir.c:132-332 | From any state that is a tree, all states of a run are trees if and only if none of its calls leaks or mismatches |
| TreeRuns.RunEndsInTree | naive/naivefs_dir.c:132-332 | A run that never mismatches ends in a tree if and only if none of its calls leaks: a nameless inode never gets a name again |
| TreeRuns.UnlinkTree | naive/naivefs_inode.c:118-138 | unlink of any live file under any plain name keeps the tree if and only if it does not release it after clearing another inode's record |
| TreeRuns.RmdirTree | naive/naivefs_dir.c:246-332 | rmdir keeps the tree if and only if it does not release a directory after clearing another inode's record; a directory it removes from a tree had link count 2 |
| TreeRuns.StepTidy | naive/naivefs_dir.c:7-332 | Any call, leaking and mismatching ones included, keeps names terminated and the two dot records in use at the head of every directory but the root, and nowhere else |
| TreeRuns.RunTidy | naive/naivefs_dir.c:7-332 | The same for any run |
| TreeRuns.NeverLeaksIsZero | naive/naivefs_dir.c:56-62 | A run never leaks exactly when its count of leaked blocks is 0 |
| LinkRuns.StepLinks | naive/naivefs_dir.c:222-230 | A call that does not mismatch, leaking or not, keeps every named inode live and named once; a leaking mkdir gives its directory one link too many, and no other call changes by how much any link count is off |
| LinkRuns.DirLinks | naive/naivefs_dir.c:229 | After any run without mismatches the link count of a directory that lived through it is 2 plus its subdirectories plus the directories leaked on its behalf (plus what it was off by before), on 32 bits |
| LinkRuns.RootLinks | naive/naivefs_dir.c:229 | The same for the root, which lives through every run |
| Sessions.SessionOwns | naive/naivefs_inode.c:87-92 | In every session through dentries and hash, block ownership holds at the end if and only if every image its lookups load from the table can be loaded |
| Sessions.SessionTree | naive/naivefs_inode.c:61-142 | From a tree, every state of a session is a tree if and only if no call leaks or mismatches and every image loaded is that of a live inode and fits in |
| Sessions.SessionBooks | naive/naivefs_inode.c:157-206 | From mount on, in every session that loads only images that can be loaded, used blocks and used numbers are counted exactly: each load moves the blocks of the inode it replaces out of the owned ones and those of the image in |
| Sessions.SessionHash | naive/naivefs_inode.c:157-162 | Every number the inode hash has is that of an inode in memory, whatever the session does |
| Sessions.SessionIsRun | naive/naivefs_inode.c:61-142 | A session whose lookups load only files, or inodes of size 0, that the table holds as they are in memory is a run: whatever holds of runs holds of it |
| Sessions.LookupMakes | naive/naivefs_inode.c:71-206 | A lookup leaves a negative dentry; or a dentry for the hashed inode; or, when the table block of the number is past the device, nothing; or else the inode that block holds, under a dentry and in the hash |
| Sessions.LoadsOnce | naive/naivefs_inode.c:157-162 | After a lookup that loads an inode, forgetting the name and looking it up again loads nothing and comes to the same state, unless the inode left the hash in between: then it is loaded again |
| CoherentSessions.SessionCoherent | naive/naivefs_inode.c:107-138 | A session that enters only names that fit a record and loads only current images never mismatches, keeps every directory's names unique and every dentry true to its directory, leaks or not |
| CoherentSessions.SessionNamespace | naive/naivefs_inode.c:61-142 | From mount on, such a session ends in a tree if and only if no call extended a directory with eight full blocks |
| CoherentSessions.SessionLinks | naive/naivefs_dir.c:229 | Through such a session the link count of a directory that stays is off by exactly the directories leaked on its behalf |
| CoherentSessions.SessionFinds | naive/naivefs_inode.c:71-92 | At the end of such a session from mount, leaks or not, a lookup of a plain name finds the number of a live inode or nothing |
| StaleDentry.RemovesTheWrongRecord | naive/naivefs_inode.c:107-138 | For any three names b, p and l of which p has 127 bytes and l is longer and starts with p: a session of creates and unlinks from mount without a leak reaches an unlink that returns 0, clears the record of inode 2, releases inode 3 and breaks the tree |
| StaleImages.ForgottenDirectory | naive/naivefs_inode.c:87-92 | On a fresh device with a zero table block for inode 2: lookup, mkdir, forget and lookup of any fitting name, without leak or mismatch, keep block ownership and break the tree |
| StaleImages.ForgottenFile | naive/naivefs_inode.c:107-206 | On a fresh device: create, write, write_inode, unlink, create and forget of any fitting name are harmless, and the lookup after them breaks block ownership |
| Ownership.GrowKeeps | naive/naivefs_dir.c:49-83 | Growing a directory keeps block ownership even when the new block cannot be attached, and leaves all other inodes and their blocks alone |
| Ownership.ReleaseInode | naive/naivefs_inode.c:123-134 | Releasing an inode keeps ownership, frees exactly the blocks it pointed to, and leaves all others alone |
| Ownership.FreeInodeIsNew | naive/naivefs_super.c:13-32 | The number handed out belongs to no live inode and its bit is clear |
| Accounting.CreateKeeps | naive/naivefs_inode.c:7-58 | create keeps ownership; the books change by exactly the number it loses when add_entry fails and the block it leaks when the directory is full |
| Accounting.MkdirKeeps | naive/naivefs_dir.c:132-243 | The same for mkdir, whose data block is given back when add_entry fails |
| Accounting.UnlinkKeeps | naive/naivefs_inode.c:107-142 | unlink keeps ownership and leaves nothing unaccounted for |
| Accounting.RmdirKeeps | naive/naivefs_dir.c:246-332 | rmdir keeps ownership and leaves nothing unaccounted for |
| State.LeastFree | naive/naivefs_super.c:45-60 | The search result is the least clear bit of the range, and there is none only if all bits of it are set |
| HoleFiles.AllocatorsAgree | naive/naivefs-8/naivefs.c:108-126 | The byte-wise allocator finds what the linear one finds unless that lies in the last incomplete bitmap byte, so they agree whenever block_total is a multiple of 8; the linear one fails exactly when no data block is free |
| Bitmap.SetBit | naive/naivefs_super.c:55 | Or-ing the mask into a byte adds exactly one number to the set the bitmap stands for |
| Bitmap.ClearBit | naive/naivefs_super.c:70 | And-ing the inverted mask removes exactly one number from it |
| Bytes.WordRoundTrip | naive/naivefs_dir.c:29-31 | A little-endian word stored in a buffer reads back modulo 2^32 |
| Bytes.WordOnDevice | naive/naivefs_super.c:105-108 | The lowest byte of a word stands first: the magic number's four bytes on a device are 17 07 99 00, in hexadecimal |
| Bytes.StrncmpMeansEqual | naive/naivefs_dir.c:111-113 | strncmp over a terminated buffer decides equality of the whole name, even of one longer than the buffer |
| Bytes.StrncmpMeans | naive/naivefs_dir.c:111-113 | strncmp over any buffer: equality of the whole name, or, when the buffer has no terminator, a name that starts with all of it |
| Records.GetPut | naive/naivefs_dir.c:26-34 | Storing a record in a block reads back as that record, leaves the block's other records, and changes no byte outside its 132 |
| Records.PutRecBytes | naive/naivefs_dir.c:26-34 | Record j stands in bytes 132j to 132j + 131 of its block: the number in the first four, the name in the other 128 |
| Records.PaddedName | naive/naivefs_dir.c:32-34 | The stored name is terminated and is the name up to 127 bytes, with zeros behind it |
| Directory.AddIsInsert | naive/naivefs_dir.c:7-87 | add_entry over the records keeps names unique exactly when the stored name was not in the map, and is then the map's insert |
| Directory.RemoveIsDelete | naive/naivefs_dir.c:90-129 | remove_entry is the map's delete |
| Directory.LookupIsGet | naive/naivefs_inode.c:71-96 | The lookup scan finds exactly the names in the map, with their numbers |
| Directory.AddThenLookup | naive/naivefs_dir.c:29-40 | A name just added is found, in the slot it was given and under its number, if and only if it is shorter than 128 bytes |
| Directory.AddThenRemove | naive/naivefs_dir.c:90-129 | Removing a name right after adding it leaves every used record as it was |
| DirMaps.CreateIsInsert | naive/naivefs_inode.c:7-58 | On the device, a create that succeeds without leaking inserts the stored name into its directory's map and changes no other directory; names stay unique if and only if that name was not there |
| DirMaps.MkdirIsInsert | naive/naivefs_dir.c:132-243 | The same for mkdir, and its new directory's map is exactly "." to itself and ".." to its parent |
| DirMaps.UnlinkIsDelete | naive/naivefs_inode.c:107-142 | unlink deletes the name from its directory's map and no other, and fails exactly when the name is not there |
| DirMaps.RmdirIsDelete | naive/naivefs_dir.c:246-332 | rmdir removes an empty directory and its name, or changes nothing |
| DirMaps.StepUnique | naive/naivefs_dir.c:29-34 | A call keeps the names of every directory unique if and only if it does not enter a name whose stored form is there already |
| Simulation.CreateSim | naive/naivefs_inode.c:7-58 | create on bitmaps, blocks and pointers does to the namespace what the abstract step does: nothing, a nameless inode, or a new name |
| Simulation.MkdirSim | naive/naivefs_dir.c:132-243 | The same for mkdir, including the dot records, both link counts, and the failure that takes the block back |
| Simulation.UnlinkSim | naive/naivefs_inode.c:107-142 | The same for unlink |
| Simulation.RmdirSim | naive/naivefs_dir.c:246-332 | The same for rmdir: exactly the empty, found directories go |
| Namespace.CreateKeepsTree | naive/naivefs_inode.c:48-54 | Entering a new file keeps the tree: one name per live inode, all directories reach the root by "..", link counts right |
| Namespace.MkdirKeepsTree | naive/naivefs_dir.c:180-230 | Entering a new directory keeps the tree |
| Namespace.UnlinkKeepsTree | naive/naivefs_inode.c:118-138 | Releasing a file after the first record of a name is cleared keeps the tree if and only if that record was the file's own |
| Namespace.RmdirKeepsTree | naive/naivefs_dir.c:266-321 | The same for a directory that names nothing; it had link count 2 |
| Namespace.LinksBounded | naive/naivefs_dir.c:229 | Where link counts are 2 plus the subdirectories they lie between 2 and 26, so incrementing and dropping one never wraps |
| Namespace.UsedSlotsAre | naive/naivefs_dir.c:277-287 | In every tidy state, leaks or not, the used records of a directory are the two dot records (none in the root) and those that name inodes |
| Namespace.CountingTestAgrees | naive/naivefs-9-10/naivefs_dir.c:134-163 | In every tidy state, leaks or not, the counting and the scanning emptiness test agree on a directory if and only if it is not the root, or is a root that holds neither no name nor two |
| Visible.CreateVisible | naive/naivefs_inode.c:48-57 | After a create that returned 0 a lookup finds the new inode if and only if the name fits a record and the directory was not full to its last pointer |
| Visible.MkdirVisible | naive/naivefs_dir.c:222-237 | The same for mkdir |
| Visible.LostMeans | naive/naivefs_dir.c:219-226 | A number is lost exactly by the calls of create and mkdir that had a number (mkdir a block) and returned -ENOSPC all the same |
| Visible.LeakMeans | naive/naivefs_dir.c:56-86 | In every tidy state a call of create or mkdir with a fitting name that is not there takes a block for nobody if and only if it returns 0 and leaves the name unfindable |
| Visible.FoundIsLive | naive/naivefs_inode.c:87-92 | As long as all named inodes are live, leaks or not, the number a lookup of a plain name finds is that of an inode in memory |
| Undo.CreateUnlink | naive/naivefs_inode.c:7-142 | create then unlink restores the inode bitmap, every other inode with the contents of its blocks, all used records of the parent, and the block bitmap but for at most one block, if and only if the name fits a record and create did not leak; otherwise unlink returns -ENOENT and changes nothing |
| Undo.MkdirRmdir | naive/naivefs_dir.c:132-332 | The same for mkdir then rmdir, with the parent's link count |
| Visible.NewFileIsEmpty | naive/naivefs_inode.c:28-57 | A file just created has a number no live inode had, one link, the attributes asked for, no blocks and no contents, and every read of it returns nothing |
| Answers.CreateAnswers | naive/naivefs_inode.c:19-58 | create returns 0 or -28, and -28 exactly when every bit in the whole bytes of the inode bitmap is set, or no record of the directory is unused and every bit of the data region in whole bytes is set |
| Answers.CreateMakes | naive/naivefs_inode.c:19-57 | A create that returns 0 takes the least clear inode bit, makes a file with the mode, uid and gid asked for, one link, size 0 and no blocks, enters the name as `naive_add_entry` does (first unused record; or the least free block, hung behind the last pointer if there is one, and 512 bytes more), and changes no other inode |
| Answers.CreateLeaves | naive/naivefs_inode.c:44-52 | A create that fails changes nothing but the least clear inode bit, and not even that when all are set |
| Answers.MkdirAnswers | naive/naivefs_dir.c:148-226 | mkdir returns 0 or -28, and -28 exactly when no inode bit is clear, no block is free, or no record is unused and at most one block is free |
| Answers.MkdirMakes | naive/naivefs_dir.c:148-235 | A mkdir that returns 0 makes, under the least clear number, a directory of mode 0x4000 plus the low nine bits of the mode asked for, with the uid and gid asked for, two links, size 512 and the least free block, which holds "." and ".." with the right numbers; the parent gets one link more and the name, and no other inode changes |
| Answers.MkdirLeaves | naive/naivefs_dir.c:148-242 | A mkdir that fails leaves both bitmaps and all inodes as they were, but for the bit of the number it had found when it had found a block as well; the bytes of that block are those it formatted |
| Answers.UnlinkAnswers | naive/naivefs_dir.c:90-129 | unlink returns 0, or -2 and changes nothing, exactly when no used record of the directory carries the name |
| Answers.UnlinkMakes | naive/naivefs_inode.c:118-134 | An unlink that returns 0 blanks the first record that carries the name, frees exactly the blocks and the number of the inode handed in, and leaves every other inode as it was |
| Answers.RmdirAnswers | naive/naivefs_dir.c:262-305 | rmdir returns -20 exactly for what is no directory, -39 exactly for a directory with a used record that is neither "." nor "..", -2 exactly for one without when no record of the parent carries its name, and otherwise 0; a failure changes nothing |
| Answers.RmdirMakes | naive/naivefs_dir.c:302-325 | An rmdir that returns 0 blanks the first record that carries the name, frees exactly the blocks and the number of the directory, and takes one link from the parent |
| Answers.WriteAnswers | naive/naivefs_file.c:85-155 | A write returns -27 exactly past 4096 bytes, -28 exactly when the eight pointers or the free blocks do not suffice for the rounded end minus the old size divided by 512, and otherwise its length |
| Answers.LateWriteAnswers | naive/naivefs_file.c:85-155 | The same for a write through a descriptor whose file unlink has released |
| Answers.WriteTakesNext | naive/naivefs_file.c:94-154 | Each block a write takes, enough or not, is the least free one once those before it are taken, and hangs behind the last pointer; the size grows to the end of the range exactly when the write succeeds and ends past it |
| DirSizes.StepExcess | naive/naivefs_dir.c:47-84 | A leaking call makes the directory it was to extend 512 bytes longer than its blocks; no other call changes the difference for any directory, and a new one starts with none |
| DirSizes.StepSized | naive/naivefs_dir.c:81-83 | A call makes some directory's size disagree with its blocks if and only if it leaks |
| DirSizes.RunSized | naive/naivefs_dir.c:81-83 | In every run without leaks every directory is exactly as long as its blocks |
| DirSizes.DirSize | naive/naivefs_dir.c:56-83 | After any run the size of a directory that lived through it exceeds its blocks by 512 more for every call that leaked on its behalf |
| DirSizes.RootSize | naive/naivefs_dir.c:56-83 | The same for the root, which lives through every run |
| FileData.ReadBytesIsRead | naive/naivefs_file.c:34-66 | Reading byte by byte returns bytes of the file and stops early only in front of a byte that cannot be read |
| FileData.ReadIsUnique | naive/naivefs_file.c:34-66 | There is one such result only, so any way of collecting it in chunks is reading byte by byte |
| FileData.CopyInPuts | naive/naivefs_file.c:112-140 | After the copy loop a block of the range holds the buffer's bytes in the range and its own elsewhere |
| FileData.CopyInSkips | naive/naivefs_file.c:112-140 | The copy loop changes no block outside the range |
| FileWrite.EnoughBlocks | naive/naivefs_file.c:90-92 | Once its reservation succeeds a file has a block for every byte of the range, so the copy loop cannot run out |
| FileWrite.ReserveSucceeds | naive/naivefs_file.c:94-108 | The reservation succeeds if and only if both the unused pointers and the free blocks suffice |
| FileWrite.ReserveTakes | naive/naivefs_file.c:94-108 | Whether it succeeds or not, the reservation attaches exactly as many of the wanted blocks as unused pointers and free blocks allow |
| FileWrite.WriteReturns | naive/naivefs_file.c:85-155 | A write returns -EFBIG, -ENOSPC or the full length; each exactly when the file limit, the pointers and the free blocks say so |
| FileWrite.WriteKeeps | naive/naivefs_file.c:72-156 | Whatever it returns, a write keeps ownership and both accounts and touches no other inode |
| FileWrite.WriteTouchesOnly | naive/naivefs_file.c:90-146 | Of all inode fields a write changes at most the size, the count and the pointers past the old count of its own file; mode, owner, links and the blocks it had stay |
| FileWrite.WriteSplices | naive/naivefs_file.c:111-146 | A successful write splices the buffer into the file's contents; the size is the larger of the old one and the end of the range; every other byte of the file, a gap before the range included, is what its block held before the write |
| FileWrite.FailedWriteIsClean | naive/naivefs_file.c:85-108 | A failed write leaves the position, the size, the readable bytes and the device as they were |
| FileWrite.ReadIsSlice | naive/naivefs_file.c:34-66 | Reading a file returns the slice of its contents asked for, cut at its end |
| FileWrite.WriteThenRead | naive/naivefs_file.c:21-156 | What a successful write put in, a read at the same position returns |
| FileRuns.OtherFilesSame | naive/naivefs_file.c:72-156 | No call changes a byte of a file it does not name |
| FileRuns.RunOtherFilesSame | naive/naivefs_file.c:72-156 | No run changes a byte of a file none of its calls names |
| FileRuns.WriteSlack | naive/naivefs_file.c:90-108 | A successful write raises block_count minus the blocks the size needs by exactly 1 if it grows a file of unaligned size and by 0 otherwise; one that fails with -ENOSPC raises block_count by exactly the smaller of the unused pointers and the free blocks, and keeps the size |
| FileRuns.AtMostSevenUnalignedGrowths | naive/naivefs_file.c:90-107 | In any run through which a file lives, at most seven writes grow it from an unaligned size |
| InodeTable.InodeRoundTrip | naive/naivefs_super.c:253-272 | Writing an inode out and reading it in returns it if and only if it is a file or of size 0 and has no pointers past its count; otherwise only those pointers or a directory's size differ, and that size is read back as the number s of whole records it is worth: 132 s <= size < 132 (s + 1) |
| InodeTable.EncodeIsImage | naive/naivefs_super.c:253-278 | write_inode puts mode, number, count, the pointers up to the count, size word, uid, gid and link count at bytes 0, 4, 8, 12 to 43, 44, 48, 52 and 56 of the block, and leaves the other pointers and everything from byte 60 on alone (time stamps are not modelled) |
| InodeTable.DecodeReads | naive/naivefs_inode.c:174-206 | iget reads each field from those bytes, and a pointer only below a count that is not negative |
| InodeTable.WriteInodeImage | naive/naivefs_super.c:246-278 | Inode i is written to block tableStart + i - 1, which lies below the data region, and to no other, and is read from there |
| InodeTable.WriteInodeKeeps | naive/naivefs_super.c:237-286 | Writing an inode changes its table block only, is read back by iget, changes what iget reads for no other inode, and keeps ownership |
| Reload.ReloadKeeps | naive/naivefs_inode.c:157-206 | Loading an inode from the table keeps ownership if and only if its number is in use and its image is well-formed, with distinct pointers to used blocks that no other inode has |
| Reload.LoadBooks | naive/naivefs_inode.c:197-201 | A load that keeps ownership changes the account of blocks by exactly the count of the inode it replaces less that of the image, and that of numbers by one if the number had no inode |
| TreeLoads.LoadKeepsTree | naive/naivefs_inode.c:176-201 | Loading a live inode of a tree leaves a tree if and only if the image of a file is no directory, and that of a directory is one with the same children each named once, the same parent, terminated records without other dots, and the same link count |
| TreeLoads.OtherRecords | naive/naivefs_inode.c:197-201 | Other records and another link count for a directory of a tree leave a tree if and only if they can stand for the old ones |
| Reload.WrittenIsCurrent | naive/naivefs_super.c:248-282 | Writing an inode out makes its image current |
| Reload.CurrentReload | naive/naivefs_inode.c:176-201 | From a current image the load keeps ownership and the whole namespace, and changes nothing at all if and only if the inode is a file or of size 0 |
| Reload.RunCurrent | naive/naivefs_inode.c:145-209 | A current image stays current through any run that leaves its inode alone, so the inode can be loaded at its end |
| Reload.ReusedNumberIsStale | naive/naivefs_inode.c:107-142 | When unlink releases a file with blocks whose image is current and create uses its number again without a leak, loading the new inode from the table breaks ownership |
| OnDemand.WriteOnWrites | naive/naivefs-8/naivefs.c:262-330 | Whatever number n the on-demand loop reports: the first n bytes of the buffer are at the position, in readable blocks; every other byte that was there, in any file, is as before; the size follows; the blocks taken are exactly the bits set |
| OnDemand.WriteExposes | naive/naivefs-8/naivefs.c:274-330 | Of the file's blocks a write changes only the bytes it reports: any other byte of a block the file then has, one just taken included, is what that block held before |
| OnDemand.ShortWriteIsPrefixWrite | naive/naivefs-8/naivefs.c:280-306 | A write that stops early leaves the whole state that a write of just the reported bytes leaves on a device without read errors: the rollback is exact |
| OnDemand.StopsWhereNoBlock | naive/naivefs-8/naivefs.c:268-306 | A write stops early only at a block boundary (or before its first byte), where the next block is in the file and cannot be read, or is a hole and the device has no free block, or one whose first cannot be read |
| HoleFiles.WriteMeans | naive/naivefs-8/naivefs.c:244-352 | The returned value is -EFBIG or exactly the number of bytes written, the position advances by it, and ownership with holes holds again |
| HoleFiles.WriteThenRead | naive/naivefs-8/naivefs.c:166-352 | A read at the same position, with the same read errors, returns the bytes the write reported |
| HoleFiles.WriteIsolates | naive/naivefs-8/naivefs.c:244-352 | Every read of every other file returns what it returned before |
| HoleFiles.WriteKeepsRest | naive/naivefs-8/naivefs.c:308-330 | In the file itself a byte outside the range that could be read still can be, and is the same |
| HoleFiles.WriteOnCompletes | naive/naivefs-8/naivefs.c:274-291 | With any read errors the whole buffer is written if and only if every block of the file in the range can be read and the free blocks in front of the first unreadable free one are enough for the holes the range reaches into |
| HoleFiles.WriteOnFills | naive/naivefs-8/naivefs.c:274-291 | Without read errors: if and only if there is a free block for every hole the range reaches into |
| HoleFiles.WriteAnswers | naive/naivefs-8/naivefs.c:244-352 | A write returns -27 exactly past 4096 bytes, its length exactly under that condition, and otherwise a count that ends where no block can be had; the position advances by what is returned |
| HoleFiles.ReadFinds | naive/naivefs-8/naivefs.c:187-189 | Every byte a read returns lies inside the file, in a block that is there and can be read |
| HoleFiles.ReadEnds | naive/naivefs-8/naivefs.c:187-230 | A read ends at the length, at the end of the file, or at the first byte of a block that is a hole or cannot be read |
| HoleFiles.FreeKeeps | naive/naivefs-8/naivefs.c:145-161 | Giving a file's blocks back, holes and all, keeps ownership and every other file's bytes |
| HoleFiles.FreeMakes | naive/naivefs-8/naivefs.c:145-161 | Giving a file's blocks back clears exactly the bits its eight pointers hold, zeroes pointers and count, and leaves kind, owner, links and size |
| HoleFiles.WriteThenFree | naive/naivefs-8/naivefs.c:145-352 | Giving a file's blocks back undoes whatever a write before it did to the bitmap |
| HoleFiles.AllCallsKeep | naive/naivefs-8/naivefs.c:108-352 | Through any sequence of writes and releases, with any read errors: no block gets two owners, counts are right, nothing leaks, and used blocks outside the files are never handed out |
| HoleFiles.OthersSurvive | naive/naivefs-8/naivefs.c:244-352 | The bytes of a file survive any sequence of calls on other files |
| Volume.Volume.Mount | naive/naivefs_super.c:130-174 | The volume holds copies of the two bitmaps it is given, the blocks, and a root directory of its own that points to no block |
| Volume.Volume.FindFreeInode | naive/naivefs_super.c:13-32 | The nested scan returns 0 if and only if every bit in the whole bytes of the inode bitmap is set, and otherwise one more than the least clear bit there |
| Volume.Volume.AllocBlock | naive/naivefs_super.c:35-61 | The nested scan sets exactly the least clear bit from data_block_no to the last whole byte and returns it, or returns -28 and changes nothing, exactly when all of them are set |
| Volume.Volume.FreeBlockBit | naive/naivefs_super.c:64-72 | Clears exactly one bit, or none when the number is past the bitmap |
| VolumeDir.FillFreeRecord | naive/naivefs_dir.c:16-45 | The record scan stores into the first unused record, or reports there is none and changes nothing |
| VolumeDir.AttachPointer | naive/naivefs_dir.c:56-62 | The first zero pointer takes the block and the count grows; with none, nothing changes |
| VolumeDir.GrowDirectory | naive/naivefs_dir.c:47-84 | Takes a block, hangs it in if it can, formats it with the record and lengthens the directory; or fails and changes nothing |
| VolumeDir.AddEntry | naive/naivefs_dir.c:7-87 | The whole of add_entry in place, with its return code, keeping the volume valid |
| VolumeDir.RemoveEntry | naive/naivefs_dir.c:90-129 | The first matching record is zeroed, or -ENOENT and nothing changes |
| VolumeDir.Lookup | naive/naivefs_inode.c:71-96 | The scan returns the number of the first matching record, or 0 |
| VolumeDir.ScanEmpty | naive/naivefs_dir.c:266-294 | True exactly when every used record is a dot record |
| VolumeDir.IsEmptyDir | naive/naivefs-9-10/naivefs_dir.c:134-163 | True exactly when two records are used |
| VolumeInode.Create | naive/naivefs_inode.c:7-58 | create in place, with its return code, keeping the volume valid |
| VolumeInode.Unlink | naive/naivefs_inode.c:107-142 | unlink in place; on success the object still held has no blocks, size and links, keeps mode and owner, and is a released file of the new state, and on failure it is as it was |
| VolumeInode.Mkdir | naive/naivefs_dir.c:132-243 | mkdir in place, both failure paths included |
| VolumeInode.Rmdir | naive/naivefs_dir.c:246-332 | rmdir in place, its three failure paths included; on success the object still held has no blocks, size and links, and on failure it is as it was |
| VolumeInode.FreeBlocks | naive/naivefs_inode.c:123-130 | The loop frees exactly the inode's blocks, zeroes its pointers up to the count and the count, and leaves the other fields |
| VolumeInode.ReleaseInode | naive/naivefs_inode.c:123-138 | The tail of unlink and rmdir: blocks, number and inode go from the volume, and the object keeps only kind and owner |
| VolumeFile.Read | naive/naivefs_file.c:21-69 | The chunk loop returns what reading byte by byte returns, and advances the position by it |
| VolumeFile.ValidIsMapped | naive/naivefs_file.c:42-46 | On every valid volume the pointers up to the count are blocks of the device and the others zero, which is what reading relies on |
| VolumeFile.ReserveBlocks | naive/naivefs_file.c:94-108 | The reservation loop, which keeps what it has attached when it fails |
| VolumeFile.CopyBlocks | naive/naivefs_file.c:111-140 | The copy loop writes the whole buffer and returns its length; its -ENOSPC exit is dead |
| VolumeFile.Write | naive/naivefs_file.c:72-156 | The whole write in place, with return code and position, keeping the volume valid |
| VolumeTable.WriteInode | naive/naivefs_super.c:237-286 | The field-by-field stores make the encoded inode in its table block and change nothing else |
| VolumeTable.GetInode | naive/naivefs_inode.c:145-209 | An inode in the hash is returned as it is; any other is loaded from its table block, a negative count included, and is the inode from then on, unless that block, tableStart + i - 1, is past the device or its count lies between 9 and 2^31 - 1 |
| VolumeTable.LookupInode | naive/naivefs_inode.c:61-104 | lookup fetches the inode of the first matching record, or finds nothing and changes nothing; the volume is valid afterwards if and only if the inode was in the hash or its image can be loaded |
| VolumeMount.FillSuper | naive/naivefs_super.c:91-174 | Mount fails with -22 exactly when the first word of block 1 is not the magic, and with -5 exactly when a block it reads is missing; otherwise it makes a volume with the layout in words 1 to 4 of block 1, the bitmaps of blocks 2 and 3 and a root of mode 040755, uid and gid 0, two links and no blocks; on a device laid out as mkfs intends the volume is valid and is the start state of the runs |
| VolumeMount.NewVolume | naive/mkfs.naive.c:62-85 | mkfs's layout (128 inodes, table from block 4, data from block 132) and bitmaps (blocks 0 to 4 and 132, inode 1), handed to mount, give a valid volume that is the start state of the runs |
| VolumeMount.LastBits | naive/mkfs.naive.c:77-132 | The final bitmap stands for exactly blocks 0 to 4 and the root's data block |
| VolumeMount.FormatDisk | naive/mkfs.naive.c:56-136 | Write by write: block 1 ends up with the first block bitmap, block 2 with the final one, block 3 unwritten, the table and data blocks with the root |
| VolumeMount.SuperWords | naive/mkfs.naive.c:15-21 | The superblock mkfs builds has magic, inode count, block count, table start and data start in its first five words, and zeros behind them |
| VolumeMount.FormattedIs | naive/mkfs.naive.c:86-136 | What format_disk leaves, byte for byte: zeros in block 0, the first block bitmap in block 1, the final one in block 2, the root's image in block 4, its records in block 132, every other block as it was |
| VolumeMount.StoredRootImage | naive/mkfs.naive.c:101-111 | The stored root has mode 040755, number 1, one block, 132, two records for a size, the user's uid and gid, and two links |
| VolumeMount.DotRecordsAre | naive/mkfs.naive.c:117-129 | The root's block starts with the records of "." and "..", both with number 1, and is otherwise as it was |
| VolumeMount.FormattedHasNoMagic | naive/mkfs.naive.c:92-99 | Whatever the device held, block 1 does not have the magic after format_disk |
| VolumeMount.FormatAndMount | naive/naivefs_super.c:108-113 | format_disk and then mount returns -EINVAL on every device that has the blocks format_disk writes |
| VolumeMount.WouldMount | naive/mkfs.naive.c:62-99 | With superblock and bitmaps in blocks 1, 2 and 3 instead, the device is one that mounts as a new volume |
| VolumeHoles.FindFreeBlock | naive/naivefs-8/naivefs.c:108-126 | The linear scan sets exactly the first clear bit of the data region and returns it, or returns -1 and changes nothing, exactly when all of them are set |
| VolumeHoles.Read | naive/naivefs-8/naivefs.c:166-241 | The chunk loop with holes and read errors returns what reading byte by byte returns; it terminates because len decreases |
| VolumeHoles.FindOrTake | naive/naivefs-8/naivefs.c:274-306 | Finds or takes the block of a round; on failure the volume is exactly as it was |
| VolumeHoles.GiveBack | naive/naivefs-8/naivefs.c:297-302 | The rollback restores bit, pointer and count, and so the whole value |
| VolumeHoles.Write | naive/naivefs-8/naivefs.c:244-352 | The whole on-demand write in place, with return value and position |
| VolumeHoles.FreeFileBlocks | naive/naivefs-8/naivefs.c:145-161 | All eight pointers are cleared and exactly their blocks freed |
| Examples.FirstFileWorks | naive/naivefs_inode.c:7-58 | On a fresh device of 160 blocks the first file gets number 2 and is found, block 133 is taken for the root, and the namespace is a tree |
| Examples.LongNameIsNotFound | naive/naivefs_dir.c:32-34 | A name of 128 letters is entered and not found |
| FullDirectory.TwentyFiveCreates | naive/naivefs_dir.c:56-86 | Twenty-four creates of different short names on a fresh device of 144 blocks or more, and one more that returns 0, leaks block 141, leaves its name unfindable and breaks the tree |
| Examples.FailedCreateKeepsNumber | naive/naivefs_inode.c:45-52 | A create that fails on a device without free blocks leaves inode bit 1 set |
| Examples.DirectorySizeShrinks | naive/naivefs_super.c:263-267 | A new directory of 512 bytes reads back with size 3 |
| Examples.LastBlocksUnused | naive/naivefs_super.c:45 | On 135 blocks the byte-wise allocator finds none while the linear one finds block 133 |
| Examples.EmptyRootCountsNone | naive/naivefs-9-10/naivefs_dir.c:161-162 | The mounted root is empty by its names and not empty by its count |

## Left out

- Kernel plumbing: module entry and exit, mount registration, buffer reference counts, printk.
- Timestamps, in memory and in the three table words that hold them.
- `new_inode` and `kmalloc` failing with -ENOMEM; a number found before such a failure is not yet marked.
- Failing block reads in the `naive/` tree, but for blocks past the device at mount and in iget; read errors are
  modelled in the on-demand data path, where the rollback is.
- Faults while copying from or to the user's buffer.
- uid and gid mapping and inherited group bits: what `inode_init_owner` computes is the parameter `cred`.
- VolumeTable.GetInode: for a table block whose count lies between nine and 2^31 the loop of the source stores past its
  array; the model stops in front of that store and says nothing of the memory behind the array. Whether the inode hash
  has a number is a parameter here and in `VolumeTable.LookupInode`; in `Sessions` it is part of the state, and an image
  with such a count is one that cannot be loaded.
- Two in-memory inodes of one number: after a load the loaded one is the only one the model keeps.
- Writing a released inode out to the table, which the VFS may do while a descriptor holds it.
- Late writes are modelled on devices whose inode table lies behind the superblock, as on every device mkfs lays out.
- A session ends where block ownership is lost: the model has nothing to say of calls after that.
- When an inode is released its dentries, and those below a directory, are dropped; other dentries that the VFS would
  revalidate are not distinguished.
- create, unlink and rmdir of `naive/naivefs-8/naivefs.c`: its unlink clears bit `i_ino - 1` although create numbered
  the inode by its bit (lines 384 and 485-500); the data path is modelled over a fixed set of inodes.
- The inode and volume objects of that snapshot are those of the `naive/` tree: its per-inode disk buffer is not a
  separate object.
- 64-bit wrap of the sum of position and length; the VFS bounds both.
- naive/naivefs-9-10/naivefs.c, naivefs-7 and earlier, naivefs-complete, naivefs-final, naivefs_simple.c and myext2
  would add only easier members.
- Concurrency and crashes: the code has no locks and no journal.
