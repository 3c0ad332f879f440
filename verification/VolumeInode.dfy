/** naivefs_inode.c and the mkdir and rmdir of naivefs_dir.c: the operations the VFS calls, on a volume. */
module VolumeInode {
  import opened Bytes
  import opened Records
  import opened Directory
  import opened State
  import opened Steps
  import opened Ownership
  import opened LateWrites
  import opened Simulation
  import opened Volume
  import VolumeDir

  /** A number taken out of the bitmap, before anything else happens. */
  lemma NumberTaken(fs: FS, ino: nat)
    requires OwnInv(fs) && FreeInode(fs) == Some(ino)
    ensures OwnInv(fs.(iused := fs.iused + {ino - 1})) && ino !in fs.inodes && 1 <= ino <= 8 * BITMAP_BYTES
  {
    FreeInodeIsNew(fs);
    MarkUsed(fs, fs.used, fs.iused + {ino - 1}, {});
  }

  lemma CreateOwn(fs: FS, d: nat, name: Name, cred: Cred)
    requires OwnInv(fs) && DirIn(fs, d) && !IsDir(cred.mode)
    ensures OwnInv(Steps.Create(fs, d, name, cred).0)
  {
    CreateSim(fs, d, name, cred);
  }

  /** new_inode with the attributes create and mkdir give it. */
  method NewInode(ino: nat, cred: Cred, nlink: nat, size: nat) returns (inode: InodeInfo)
    ensures fresh(inode) && inode.ino == ino
    ensures inode.Value() == Inode(cred.mode, cred.uid, cred.gid, nlink, size, 0, NoPtrs())
  {
    inode := new InodeInfo(ino);
    inode.mode, inode.uid, inode.gid := cred.mode, cred.uid, cred.gid;
    inode.nlink := nlink;
    inode.size := size;
  }

  /** The number's bit is set; nobody owns the number yet. */
  method MarkInode(v: Volume, ino: nat)
    requires v.Shape() && 1 <= ino <= 8 * BITMAP_BYTES
    modifies v.inodeBitmap
    ensures v.View() == old(v.View()).(iused := old(v.View()).iused + {ino - 1})
  {
    v.SetInodeBit(ino);
  }

  /** d_instantiate: the new inode becomes known. */
  method Enroll(v: Volume, inode: InodeInfo)
    requires v.Shape() && inode.ino !in v.icache && forall i :: i in v.icache ==> v.icache[i] != inode
    modifies v
    ensures v.Shape() && v.icache == old(v.icache)[inode.ino := inode]
    ensures v.View() == old(v.View()).(inodes := old(v.View()).inodes[inode.ino := inode.Value()])
  {
    ghost var before := v.Inodes();
    v.icache := v.icache[inode.ino := inode];
    assert forall i :: i in v.icache ==> v.Inodes()[i] == before[inode.ino := inode.Value()][i];
    assert v.Inodes() == before[inode.ino := inode.Value()];
  }

  /** naive_add_entry, and on success d_instantiate. */
  method EnterName(v: Volume, dir: InodeInfo, name: Name, inode: InodeInfo) returns (ret: int)
    requires VolumeDir.Scannable(v, dir) && VolumeDir.Usable(v, dir)
    requires inode.ino !in v.icache && inode != dir && forall i :: i in v.icache ==> v.icache[i] != inode
    modifies v, v.blockBitmap, v.disk, dir
    ensures v.Shape() && inode.Value() == old(inode.Value()) && DirOk(old(v.View()), dir.ino)
    ensures v.icache == if ret < 0 then old(v.icache) else old(v.icache)[inode.ino := inode]
    ensures var (after, r) := Steps.AddEntry(old(v.View()), dir.ino, name, inode.ino);
      ret == r && v.View() == if ret < 0 then after else after.(inodes := after.inodes[inode.ino := inode.Value()])
  {
    ret := VolumeDir.AddEntryTo(v, dir, name, inode.ino);
    if ret >= 0 {
      Enroll(v, inode);
    }
  }

  lemma CreateFrom(fs: FS, d: nat, name: Name, cred: Cred, ino: nat)
    requires OwnInv(fs) && DirIn(fs, d) && !IsDir(cred.mode) && FreeInode(fs) == Some(ino)
    ensures var n := Inode(cred.mode, cred.uid, cred.gid, 1, 0, 0, NoPtrs());
      var (after, ret) := Steps.AddEntry(fs.(iused := fs.iused + {ino - 1}), d, name, ino);
      && Steps.Create(fs, d, name, cred)
           == (if ret < 0 then after else after.(inodes := after.inodes[ino := n]), if ret < 0 then ret else 0)
      && OwnInv(if ret < 0 then after else after.(inodes := after.inodes[ino := n])) && ret <= 0
  {
    CreateOwn(fs, d, name, cred);
  }

  /** naive_create once a number has been found. */
  method CreateNumbered(v: Volume, dir: InodeInfo, name: Name, cred: Cred, ino: nat) returns (ret: int)
    requires VolumeDir.Scannable(v, dir) && VolumeDir.Usable(v, dir) && 1 <= ino <= 8 * BITMAP_BYTES && ino !in v.icache
    modifies v, v.blockBitmap, v.inodeBitmap, v.disk, dir
    ensures v.Shape() && DirOk(old(v.View()), dir.ino)
    ensures var n := Inode(cred.mode, cred.uid, cred.gid, 1, 0, 0, NoPtrs());
      var (after, r) := Steps.AddEntry(old(v.View()).(iused := old(v.View()).iused + {ino - 1}), dir.ino, name, ino);
      ret == r && v.View() == if r < 0 then after else after.(inodes := after.inodes[ino := n])
  {
    var inode := NewInode(ino, cred, 1, 0);
    MarkInode(v, ino);
    ret := EnterName(v, dir, name, inode);
  }

  /** naive_create. */
  method Create(v: Volume, dir: InodeInfo, name: Name, cred: Cred) returns (ret: int)
    requires v.Valid() && v.Holds(dir) && IsDir(dir.mode) && !IsDir(cred.mode)
    modifies v, v.blockBitmap, v.inodeBitmap, v.disk, dir
    ensures v.Valid() && (v.View(), ret) == Steps.Create(old(v.View()), dir.ino, name, cred)
  {
    ghost var fs := v.View();
    var ino := v.FindFreeInode();
    if ino == 0 {
      return -ENOSPC;
    }
    CreateFrom(fs, dir.ino, name, cred, ino);
    NumberTaken(fs, ino);
    VolumeDir.ValidIsScannable(v, dir);
    ret := CreateNumbered(v, dir, name, cred, ino);
  }

  // ---- unlink and rmdir ----

  function BlocksBefore(n: Inode, i: nat): set<nat> {
    set k | 0 <= k < BLOCK_PER_FILE && k < n.count && k < i :: n.ptrs[k]
  }

  /** The loop that frees an inode's blocks and zeroes its pointers. */
  method FreeBlocks(v: Volume, inode: InodeInfo)
    requires v.Shape() && inode.blockCount <= BLOCK_PER_FILE
    requires forall k :: 0 <= k < inode.blockCount ==> inode.blockPointers[k] != 0
    modifies v.blockBitmap, inode
    ensures v.Used() == old(v.Used()) - BlocksOf(old(inode.Value()))
    ensures inode.Value() == old(inode.Value()).(count := 0, ptrs := inode.blockPointers)
    ensures forall k :: 0 <= k < BLOCK_PER_FILE ==>
              inode.blockPointers[k] == if k < old(inode.blockCount) then 0 else old(inode.blockPointers[k])
  {
    ghost var n, used := inode.Value(), v.Used();
    for i := 0 to inode.blockCount
      invariant inode.Value() == n.(ptrs := inode.blockPointers)
      invariant forall k :: 0 <= k < i ==> inode.blockPointers[k] == 0
      invariant forall k :: i <= k < BLOCK_PER_FILE ==> inode.blockPointers[k] == n.ptrs[k]
      invariant v.Used() == used - BlocksBefore(n, i)
    {
      if inode.blockPointers[i] != 0 {
        assert BlocksBefore(n, i + 1) == BlocksBefore(n, i) + {n.ptrs[i]};
        v.FreeBlockBit(inode.blockPointers[i]);
        inode.blockPointers := inode.blockPointers[i := 0];
      }
    }
    assert BlocksBefore(n, n.count) == BlocksOf(n);
    inode.blockCount := 0;
  }

  /** The object keeps kind and owner of the inode it held, and nothing else. */
  ghost predicate IsCleared(inode: InodeInfo, n: Inode)
    reads inode
  {
    && inode.mode == n.mode && inode.uid == n.uid && inode.gid == n.gid
    && inode.nlink == 0 && inode.size == 0 && inode.blockCount == 0
    && (forall k :: 0 <= k < BLOCK_PER_FILE ==> inode.blockPointers[k] == 0) && inode.Value() == Cleared(n)
  }

  /** The tail of unlink and rmdir: blocks, number and the inode itself go; whoever still holds the object finds it
      without blocks, size and links. */
  method ReleaseInode(v: Volume, inode: InodeInfo)
    requires v.Shape() && v.Holds(inode) && inode.blockCount <= BLOCK_PER_FILE && 1 <= inode.ino <= 8 * BITMAP_BYTES
    requires forall k :: 0 <= k < BLOCK_PER_FILE ==> (inode.blockPointers[k] != 0 <==> k < inode.blockCount)
    modifies v, v.blockBitmap, v.inodeBitmap, inode
    ensures v.Shape() && v.icache == old(v.icache) - {inode.ino} && IsCleared(inode, old(inode.Value()))
    ensures inode.ino in old(v.View()).inodes && v.View() == Release(old(v.View()), inode.ino)
  {
    ghost var before := v.Inodes();
    FreeBlocks(v, inode);
    v.ClearInodeBit(inode.ino);
    inode.nlink := 0;
    inode.size := 0;
    v.icache := v.icache - {inode.ino};
    assert forall i :: i in v.icache ==> v.icache[i] != inode;
    assert v.Inodes() == before - {inode.ino};
  }

  /** naive_unlink of the inode the VFS knows as name in dir. */
  method Unlink(v: Volume, dir: InodeInfo, inode: InodeInfo, name: Name) returns (ret: int)
    requires v.Valid() && v.Holds(dir) && v.Holds(inode) && inode.ino != ROOT_INO && inode != dir
    modifies v, v.blockBitmap, v.inodeBitmap, v.disk, inode
    ensures v.Valid() && (v.View(), ret) == Steps.Unlink(old(v.View()), dir.ino, name, inode.ino)
    ensures if ret < 0 then inode.Value() == old(inode.Value()) else IsCleared(inode, old(inode.Value()))
    ensures ret >= 0 && !IsDir(inode.mode) && 1 < v.lay.tableStart ==> Released(v.View(), inode.Value())
  {
    ret := VolumeDir.RemoveEntry(v, dir, name);
    if ret < 0 {
      return;
    }
    VolumeDir.ValidIsScannable(v, inode);
    Ownership.ReleaseInode(v.View(), inode.ino);
    ReleaseInode(v, inode);
  }

  /** inc_nlink and drop_nlink on an inode of the volume. */
  method Relink(v: Volume, dir: InodeInfo, n: nat)
    requires v.Shape() && v.Holds(dir)
    modifies dir
    ensures v.Shape() && dir.ino in old(v.View()).inodes
    ensures var fs := old(v.View());
      v.View() == fs.(inodes := fs.inodes[dir.ino := fs.inodes[dir.ino].(nlink := n)])
  {
    ghost var before := v.Inodes();
    dir.nlink := n;
    OneInode(v, dir, before);
  }

  /** naive_rmdir without its checks. */
  function AfterRmdir(fs: FS, d: nat, name: Name, i: nat): FS
    requires DirOk(fs, d) && i in fs.inodes && i != d
  {
    var (fs1, ret) := Steps.RemoveEntry(fs, d, name);
    if ret < 0 then fs1 else
    var fs2 := Release(fs1, i);
    fs2.(inodes := fs2.inodes[d := DropLink(fs2.inodes[d])])
  }

  lemma RmdirFrom(fs: FS, d: nat, name: Name, i: nat)
    requires OwnInv(fs) && DirIn(fs, d) && i in fs.inodes && i != d && i != ROOT_INO
    requires IsDir(fs.inodes[i].mode) && EmptyDir(DirRecs(fs, i))
    ensures Steps.Rmdir(fs, d, name, i) == (AfterRmdir(fs, d, name, i), Steps.RemoveEntry(fs, d, name).1)
    ensures OwnInv(AfterRmdir(fs, d, name, i)) && Steps.RemoveEntry(fs, d, name).1 <= 0
  {
    var _ := RmdirSim(fs, d, name, i);
  }

  /** The end of naive_rmdir: the directory is released and its parent loses a link. */
  method TakeOut(v: Volume, dir: InodeInfo, inode: InodeInfo)
    requires v.Shape() && v.Holds(dir) && v.Holds(inode) && inode != dir
    requires inode.blockCount <= BLOCK_PER_FILE && 1 <= inode.ino <= 8 * BITMAP_BYTES
    requires forall k :: 0 <= k < BLOCK_PER_FILE ==> (inode.blockPointers[k] != 0 <==> k < inode.blockCount)
    modifies v, v.blockBitmap, v.inodeBitmap, inode, dir
    ensures IsCleared(inode, old(inode.Value()))
    ensures v.Shape() && inode.ino in old(v.View()).inodes && dir.ino in old(v.View()).inodes && dir.ino != inode.ino
    ensures var fs2 := Release(old(v.View()), inode.ino);
      v.View() == fs2.(inodes := fs2.inodes[dir.ino := DropLink(fs2.inodes[dir.ino])])
  {
    ReleaseInode(v, inode);
    Relink(v, dir, (dir.nlink + WORD - 1) % WORD);
  }

  /** naive_rmdir once its checks have passed. */
  method RemoveDir(v: Volume, dir: InodeInfo, inode: InodeInfo, name: Name) returns (ret: int)
    requires v.Valid() && v.Holds(dir) && v.Holds(inode) && inode.ino != ROOT_INO && inode != dir
    modifies v, v.blockBitmap, v.inodeBitmap, v.disk, inode, dir
    ensures v.Shape() && ret == Steps.RemoveEntry(old(v.View()), dir.ino, name).1
    ensures if ret < 0 then inode.Value() == old(inode.Value()) else IsCleared(inode, old(inode.Value()))
    ensures inode.ino in old(v.View()).inodes && v.View() == AfterRmdir(old(v.View()), dir.ino, name, inode.ino)
  {
    ret := VolumeDir.RemoveEntry(v, dir, name);
    if ret < 0 {
      return;
    }
    VolumeDir.ValidIsScannable(v, inode);
    TakeOut(v, dir, inode);
  }

  /** naive_rmdir of the inode the VFS knows as name in dir. */
  method Rmdir(v: Volume, dir: InodeInfo, inode: InodeInfo, name: Name) returns (ret: int)
    requires v.Valid() && v.Holds(dir) && IsDir(dir.mode) && v.Holds(inode) && inode.ino != ROOT_INO && inode != dir
    modifies v, v.blockBitmap, v.inodeBitmap, v.disk, inode, dir
    ensures v.Valid() && (v.View(), ret) == Steps.Rmdir(old(v.View()), dir.ino, name, inode.ino)
    ensures if ret < 0 then inode.Value() == old(inode.Value()) else IsCleared(inode, old(inode.Value()))
  {
    if !IsDir(inode.mode) {
      return -ENOTDIR;
    }
    VolumeDir.ValidIsScannable(v, inode);
    var empty := VolumeDir.ScanEmpty(v, inode);
    if !empty {
      return -ENOTEMPTY;
    }
    RmdirFrom(v.View(), dir.ino, name, inode.ino);
    ret := RemoveDir(v, dir, inode, name);
  }

  // ---- mkdir ----

  /** The block of a new directory: zeroed, then "." and ".." copied in. */
  method FormatDirectory(v: Volume, b: nat, ino: nat, parent: nat)
    requires b < v.disk.Length
    modifies v.disk
    ensures v.disk[..] == old(v.disk[..])[b := DotBlock(ino, parent)]
  {
    v.disk[b] := ZeroBlock();
    v.disk[b] := Splice(v.disk[b], 0, WordBytes(ino) + Strncpy(DOT));
    v.disk[b] := Splice(v.disk[b], DIR_RECORD_SIZE, WordBytes(parent) + Strncpy(DOTDOT));
  }

  /** naive_mkdir up to its call of naive_add_entry. */
  method Prepare(v: Volume, ino: nat, b: nat, parent: nat)
    requires v.Shape() && 1 <= ino <= 8 * BITMAP_BYTES && b < v.disk.Length
    modifies v.inodeBitmap, v.disk
    ensures b < |old(v.View()).disk|
    ensures v.View() == Prepared(old(v.View()), ino, b, parent).(used := v.Used()) && v.Used() == old(v.Used())
  {
    FormatDirectory(v, b, ino, parent);
    v.SetInodeBit(ino);
  }

  method NewDirectory(ino: nat, cred: Cred, b: nat) returns (inode: InodeInfo)
    ensures fresh(inode) && inode.ino == ino && inode.Value() == NewDir(cred, b)
  {
    inode := NewInode(ino, cred.(mode := DirMode(cred.mode)), 2, BLOCK_SIZE);
    inode.blockCount := 1;
    inode.blockPointers := inode.blockPointers[0 := b];
  }

  /** inc_nlink of the parent and d_instantiate. */
  method Install(v: Volume, dir: InodeInfo, inode: InodeInfo)
    requires v.Shape() && v.Holds(dir) && inode.ino !in v.icache && forall i :: i in v.icache ==> v.icache[i] != inode
    modifies v, dir
    ensures v.Shape() && dir.ino in old(v.View()).inodes
    ensures v.View() == Installed(old(v.View()), inode.ino, inode.Value(), dir.ino)
  {
    ghost var fs := v.View();
    Relink(v, dir, (dir.nlink + 1) % WORD);
    Enroll(v, inode);
    assert v.Inodes() == fs.inodes[inode.ino := inode.Value()][dir.ino := IncLink(fs.inodes[dir.ino])];
  }

  lemma MkdirFrom(fs: FS, d: nat, name: Name, cred: Cred, ino: nat, b: nat)
    requires OwnInv(fs) && DirIn(fs, d) && FreeInode(fs) == Some(ino) && FreeBlock(fs) == Some(b)
    ensures b < |fs.disk| && OwnInv(Prepared(fs, ino, b, d)) && ino !in fs.inodes && 1 <= ino <= 8 * BITMAP_BYTES
    ensures var (after, ret) := Steps.AddEntry(Prepared(fs, ino, b, d), d, name, ino);
      && d in after.inodes && ret <= 0
      && Steps.Mkdir(fs, d, name, cred)
           == (if ret < 0 then after.(used := after.used - {b})
             else Installed(after, ino, NewDir(cred, b), d), if ret < 0 then ret else 0)
    ensures OwnInv(Steps.Mkdir(fs, d, name, cred).0)
  {
    PreparedNs(fs, ino, b, d);
    NumberTaken(fs, ino);
    var _ := MkdirSim(fs, d, name, cred);
    AddEntryKeeps(Prepared(fs, ino, b, d), d, name, ino);
  }

  /** naive_mkdir from its call of naive_add_entry on. */
  method FinishMkdir(v: Volume, dir: InodeInfo, name: Name, inode: InodeInfo, b: nat) returns (ret: int)
    requires VolumeDir.Scannable(v, dir) && VolumeDir.Usable(v, dir)
    requires inode.ino !in v.icache && inode != dir && forall i :: i in v.icache ==> v.icache[i] != inode
    modifies v, v.blockBitmap, v.disk, dir
    ensures v.Shape() && DirOk(old(v.View()), dir.ino)
    ensures var (after, r) := Steps.AddEntry(old(v.View()), dir.ino, name, inode.ino);
      && ret == r && dir.ino in after.inodes
      && v.View() == if r < 0 then after.(used := after.used - {b})
           else Installed(after, inode.ino, old(inode.Value()), dir.ino)
  {
    ret := VolumeDir.AddEntryTo(v, dir, name, inode.ino);
    if ret < 0 {
      v.FreeBlockBit(b);
    } else {
      Install(v, dir, inode);
    }
  }

  /** naive_mkdir once a number has been found and block b has been taken from the bitmap. */
  method MkdirWith(v: Volume, dir: InodeInfo, name: Name, cred: Cred, ghost fs: FS, ino: nat, b: nat) returns (ret: int)
    requires v.Shape() && v.Holds(dir) && v.View() == fs.(used := fs.used + {b})
    requires OwnInv(fs) && DirIn(fs, dir.ino) && FreeInode(fs) == Some(ino) && FreeBlock(fs) == Some(b)
    modifies v, v.blockBitmap, v.inodeBitmap, v.disk, dir
    ensures v.Valid() && (v.View(), ret) == Steps.Mkdir(fs, dir.ino, name, cred)
  {
    MkdirFrom(fs, dir.ino, name, cred, ino, b);
    var inode := NewDirectory(ino, cred, b);
    Prepare(v, ino, b, dir.ino);
    assert v.View() == Prepared(fs, ino, b, dir.ino);
    VolumeDir.ValidIsScannable(v, dir);
    ret := FinishMkdir(v, dir, name, inode, b);
  }

  /** naive_mkdir. */
  method Mkdir(v: Volume, dir: InodeInfo, name: Name, cred: Cred) returns (ret: int)
    requires v.Valid() && v.Holds(dir) && IsDir(dir.mode)
    modifies v, v.blockBitmap, v.inodeBitmap, v.disk, dir
    ensures v.Valid() && (v.View(), ret) == Steps.Mkdir(old(v.View()), dir.ino, name, cred)
  {
    ghost var fs := v.View();
    var ino := v.FindFreeInode();
    if ino == 0 {
      return -ENOSPC;
    }
    var b := v.AllocBlock();
    if b < 0 {
      assert v.View() == fs;
      return -ENOSPC;
    }
    ret := MkdirWith(v, dir, name, cred, fs, ino, b);
  }
}
