/** What each operation of naivefs_dir.c, naivefs_inode.c, naivefs_file.c and naivefs_super.c does to the filesystem
    value. */
module Steps {
  import opened Bytes
  import opened Records
  import opened Directory
  import opened State

  // ---- directories as records ----

  predicate PtrsIn(disk: seq<Block>, n: Inode) {
    n.count <= BLOCK_PER_FILE && forall k :: 0 <= k < n.count ==> n.ptrs[k] < |disk|
  }

  /** The records of a directory inode, in scan order: three to a block. */
  function RecsOf(disk: seq<Block>, n: Inode): (recs: seq<Rec>)
    requires PtrsIn(disk, n)
    ensures |recs| == 3 * n.count
  {
    seq(3 * n.count, r requires 0 <= r < 3 * n.count => GetRec(disk[n.ptrs[r / 3]], r % 3))
  }

  predicate DirOk(fs: FS, d: nat) {
    d in fs.inodes && PtrsIn(fs.disk, fs.inodes[d]) && 0 < fs.lay.dataStart
    && |fs.disk| == fs.lay.blockTotal
  }

  function DirRecs(fs: FS, d: nat): seq<Rec>
    requires DirOk(fs, d)
  {
    RecsOf(fs.disk, fs.inodes[d])
  }

  function StoreRec(disk: seq<Block>, n: Inode, r: nat, rec: Rec): seq<Block>
    requires PtrsIn(disk, n) && r < 3 * n.count
  {
    disk[n.ptrs[r / 3] := PutRec(disk[n.ptrs[r / 3]], r % 3, rec)]
  }

  /** A directory block as it is formatted: zeroed, then the given records from the start. */
  function FreshBlock(rec: Rec): Block {
    PutRec(ZeroBlock(), 0, rec)
  }

  function Attach(n: Inode, b: nat): Inode {
    if n.count < BLOCK_PER_FILE then n.(ptrs := n.ptrs[n.count := b], count := n.count + 1) else n
  }

  /** naive_add_entry, with its return code. When all eight pointers are taken the new block is filled but not
      attached. */
  function AddEntry(fs: FS, d: nat, name: Name, ino: nat): (FS, int)
    requires DirOk(fs, d)
  {
    var n, rec := fs.inodes[d], Rec(ino, Padded(name));
    var r := FirstFree(DirRecs(fs, d));
    if r < 3 * n.count then
      (fs.(disk := StoreRec(fs.disk, n, r, rec)), 0)
    else
      match FreeBlock(fs)
      case None => (fs, -ENOSPC)
      case Some(b) =>
        (fs.(used := fs.used + {b},
             disk := fs.disk[b := FreshBlock(rec)],
             inodes := fs.inodes[d := Attach(n, b).(size := n.size + BLOCK_SIZE)]), 0)
  }

  /** naive_remove_entry. */
  function RemoveEntry(fs: FS, d: nat, name: Name): (FS, int)
    requires DirOk(fs, d)
  {
    var n, r := fs.inodes[d], FirstMatch(DirRecs(fs, d), name);
    if r < 3 * n.count then (fs.(disk := StoreRec(fs.disk, n, r, ZeroRec())), 0) else (fs, -ENOENT)
  }

  datatype Cred = Cred(mode: nat, uid: nat, gid: nat)

  /** naive_create. The inode bit is set before the entry is added, and stays set when that fails. */
  function Create(fs: FS, d: nat, name: Name, cred: Cred): (FS, int)
    requires DirOk(fs, d)
  {
    match FreeInode(fs)
    case None => (fs, -ENOSPC)
    case Some(ino) =>
      var (fs1, ret) := AddEntry(fs.(iused := fs.iused + {ino - 1}), d, name, ino);
      if ret < 0 then (fs1, ret) else
      (fs1.(inodes := fs1.inodes[ino := Inode(cred.mode, cred.uid, cred.gid, 1, 0, 0, NoPtrs())]), 0)
  }

  /** S_IFDIR | (mode & 0777) */
  function DirMode(mode: nat): (m: nat)
    ensures IsDir(m)
  {
    0x4000 + mode % 0x200
  }

  /** The first block of a new directory: "." and "..". */
  function DotBlock(ino: nat, parent: nat): Block {
    PutRec(PutRec(ZeroBlock(), 0, Rec(ino, Strncpy(DOT))), 1, Rec(parent, Strncpy(DOTDOT)))
  }

  /** inc_nlink and drop_nlink on the 32-bit link count. */
  function IncLink(n: Inode): Inode { n.(nlink := (n.nlink + 1) % WORD) }
  function DropLink(n: Inode): Inode { n.(nlink := (n.nlink + WORD - 1) % WORD) }

  function NewDir(cred: Cred, b: nat): Inode {
    Inode(DirMode(cred.mode), cred.uid, cred.gid, 2, BLOCK_SIZE, 1, NoPtrs()[0 := b])
  }

  /** naive_mkdir up to its call of naive_add_entry: number and block taken, block formatted. */
  function Prepared(fs: FS, ino: nat, b: nat, parent: nat): FS
    requires ino >= 1 && b < |fs.disk|
  {
    fs.(used := fs.used + {b}, disk := fs.disk[b := DotBlock(ino, parent)], iused := fs.iused + {ino - 1})
  }

  /** naive_mkdir after naive_add_entry: the new directory becomes known, its parent gains a link. */
  function Installed(fs: FS, ino: nat, n: Inode, parent: nat): FS
    requires parent in fs.inodes
  {
    var inodes := fs.inodes[ino := n];
    fs.(inodes := inodes[parent := IncLink(inodes[parent])])
  }

  /** naive_mkdir. When adding the entry fails the block is given back but the inode bit stays set. */
  function Mkdir(fs: FS, d: nat, name: Name, cred: Cred): (FS, int)
    requires DirOk(fs, d)
  {
    match FreeInode(fs)
    case None => (fs, -ENOSPC)
    case Some(ino) =>
      match FreeBlock(fs)
      case None => (fs, -ENOSPC)
      case Some(b) =>
        var (fs2, ret) := AddEntry(Prepared(fs, ino, b, d), d, name, ino);
        if ret < 0 then (fs2.(used := fs2.used - {b}), ret) else
        (Installed(fs2, ino, NewDir(cred, b), d), 0)
  }

  /** Give back the blocks and the number of inode i, and forget it. */
  function Release(fs: FS, i: nat): FS
    requires i in fs.inodes
  {
    fs.(used := fs.used - BlocksOf(fs.inodes[i]),
        iused := fs.iused - {i as int - 1},
        inodes := fs.inodes - {i})
  }

  /** naive_unlink of inode i, known to the VFS as name in d. */
  function Unlink(fs: FS, d: nat, name: Name, i: nat): (FS, int)
    requires DirOk(fs, d) && i in fs.inodes
  {
    var (fs1, ret) := RemoveEntry(fs, d, name);
    if ret < 0 then (fs1, ret) else (Release(fs1, i), 0)
  }

  /** naive_rmdir of inode i, known to the VFS as name in d. */
  function Rmdir(fs: FS, d: nat, name: Name, i: nat): (FS, int)
    requires DirOk(fs, d) && DirOk(fs, i) && i != d
  {
    if !IsDir(fs.inodes[i].mode) then (fs, -ENOTDIR)
    else if !EmptyDir(DirRecs(fs, i)) then (fs, -ENOTEMPTY)
    else
      var (fs1, ret) := RemoveEntry(fs, d, name);
      if ret < 0 then (fs1, ret) else
      var fs2 := Release(fs1, i);
      (fs2.(inodes := fs2.inodes[d := DropLink(fs2.inodes[d])]), 0)
  }

  // ---- the data path of naivefs_file.c ----

  function Min(a: nat, b: nat): nat { if a < b then a else b }
  function Max(a: nat, b: nat): nat { if a > b then a else b }

  function CeilBlocks(n: nat): nat { (n + BLOCK_SIZE - 1) / BLOCK_SIZE }

  /** Block b taken from the bitmap and appended to the pointers of inode i. */
  function Attached(fs: FS, i: nat, b: nat): FS
    requires i in fs.inodes
  {
    fs.(used := fs.used + {b}, inodes := fs.inodes[i := Attach(fs.inodes[i], b)])
  }

  /** The reservation loop: attach the wanted number of blocks one by one; false when it stops early with ENOSPC. */
  function Reserve(fs: FS, i: nat, wanted: nat): (FS, bool)
    requires i in fs.inodes
    decreases wanted
  {
    if wanted == 0 then (fs, true) else
    match FreeBlock(fs)
    case None => (fs, false)
    case Some(b) =>
      if fs.inodes[i].count >= BLOCK_PER_FILE then (fs, false) else
      Reserve(Attached(fs, i, b), i, wanted - 1)
  }

  /** Bytes of buf that go into the block that holds file position pos. */
  function Chunk(pos: nat, len: nat): (c: nat)
    ensures c <= len && pos % BLOCK_SIZE + c <= BLOCK_SIZE
    ensures len > 0 ==> c > 0
  {
    Min(len, BLOCK_SIZE - pos % BLOCK_SIZE)
  }

  predicate Covers(disk: seq<Block>, ptrs: Ptrs, pos: nat, len: nat) {
    && pos + len <= MAX_FILE_SIZE
    && forall k ::
         0 <= k < BLOCK_PER_FILE && pos / BLOCK_SIZE <= k && BLOCK_SIZE * k < pos + len ==> ptrs[k] < |disk|
  }

  /** One round of the copy loop: bytes that fit the block of file position pos. */
  function CopyChunk(disk: seq<Block>, ptrs: Ptrs, pos: nat, bytes: seq<byte>): (after: seq<Block>)
    requires pos / BLOCK_SIZE < BLOCK_PER_FILE && ptrs[pos / BLOCK_SIZE] < |disk|
    requires pos % BLOCK_SIZE + |bytes| <= BLOCK_SIZE
    ensures |after| == |disk|
  {
    var b := ptrs[pos / BLOCK_SIZE];
    disk[b := Splice(disk[b], pos % BLOCK_SIZE, bytes)]
  }

  /** The copy loop: buf goes to file position pos, block by block. */
  function CopyIn(disk: seq<Block>, ptrs: Ptrs, pos: nat, buf: seq<byte>): (after: seq<Block>)
    requires Covers(disk, ptrs, pos, |buf|)
    ensures |after| == |disk|
    decreases |buf|
  {
    if buf == [] then disk else
    var c := Chunk(pos, |buf|);
    CopyIn(CopyChunk(disk, ptrs, pos, buf[..c]), ptrs, pos + c, buf[c..])
  }

  function Wanted(n: Inode, pos: nat, len: nat): int {
    if pos + len > n.size then CeilBlocks(pos + len) - n.size / BLOCK_SIZE else 0
  }

  /** The inode naive_fill_super makes for the root: a directory that points to no block. */
  function RootInode(): Inode {
    Inode(0x4000 + 0x1ED, 0, 0, 2, 0, 0, NoPtrs())
  }
}
