/** naivefs_file.c: reading, and the reserve-then-copy write, on a volume. */
module VolumeFile {
  import opened Bytes
  import opened State
  import opened Steps
  import opened FileData
  import opened FileWrite
  import opened Volume
  import VolumeDir

  /** Pointers up to the count are blocks of the device, the others are zero. */
  predicate InodeMapped(n: Inode, blocks: nat) {
    && n.count <= BLOCK_PER_FILE
    && forall k :: 0 <= k < BLOCK_PER_FILE ==> if k < n.count then 0 < n.ptrs[k] < blocks else n.ptrs[k] == 0
  }

  ghost predicate Mapped(v: Volume, inode: InodeInfo)
    reads v, inode
  {
    InodeMapped(inode.Value(), v.disk.Length)
  }

  lemma ValidIsMapped(v: Volume, inode: InodeInfo)
    requires v.Valid() && v.Holds(inode)
    ensures Mapped(v, inode)
  {
    assert v.View().inodes[inode.ino] == inode.Value();
  }

  /** naive_file_read: the bytes copied to the user, and the new position. */
  method Read(v: Volume, inode: InodeInfo, len: nat, start: nat) returns (data: seq<byte>, pos: nat)
    requires Mapped(v, inode)
    ensures data == ReadBytes(v.disk[..], inode.Value(), start, len, {})
    ensures pos == start + |data|
  {
    ghost var disk, n := v.disk[..], inode.Value();
    data, pos := [], start;
    if pos >= inode.size {
      return;
    }
    var remaining: nat := Min(len, inode.size - pos);
    ghost var total := remaining;
    while remaining > 0
      invariant |data| + remaining == total && pos == start + |data|
      invariant forall t :: Got(disk, n, start, {}, data, t)
    {
      var index := pos / BLOCK_SIZE;
      if index >= inode.blockCount || inode.blockPointers[index] == 0 {
        break;
      }
      var b, offset := inode.blockPointers[index], pos % BLOCK_SIZE;
      var count := Min(remaining, BLOCK_SIZE - offset);
      var chunk := v.disk[b][offset..offset + count];
      ChunkGot(disk, n, start, data, chunk, {});
      data := data + chunk;
      pos := pos + count;
      remaining := remaining - count;
    }
    ReadIsUnique(disk, n, start, len, {}, data);
  }

  /** A chunk taken out of the block at the reading position continues what has been read. */
  lemma ChunkGot(disk: seq<Block>, n: Inode, start: nat, data: seq<byte>, chunk: seq<byte>, bad: set<nat>)
    requires forall t :: Got(disk, n, start, bad, data, t)
    requires var pos := start + |data|;
      && pos + |chunk| <= n.size && pos / BLOCK_SIZE < BLOCK_PER_FILE && 0 < n.ptrs[pos / BLOCK_SIZE] < |disk|
      && n.ptrs[pos / BLOCK_SIZE] !in bad
      && pos % BLOCK_SIZE + |chunk| <= BLOCK_SIZE
      && chunk == disk[n.ptrs[pos / BLOCK_SIZE]][pos % BLOCK_SIZE..pos % BLOCK_SIZE + |chunk|]
    ensures forall t :: Got(disk, n, start, bad, data + chunk, t)
  {
    var pos := start + |data|;
    forall t
      ensures Got(disk, n, start, bad, data + chunk, t)
    {
      if |data| <= t < |data| + |chunk| {
        var o := t - |data|;
        assert (pos + o) / BLOCK_SIZE == pos / BLOCK_SIZE && (pos + o) % BLOCK_SIZE == pos % BLOCK_SIZE + o;
        assert start + t == pos + o;
      } else {
        assert Got(disk, n, start, bad, data, t);
      }
    }
  }

  // ---- writing ----

  /** The reservation loop of naive_file_write. */
  method ReserveBlocks(v: Volume, inode: InodeInfo, needed: nat) returns (ok: bool)
    requires v.Shape() && v.Holds(inode) && LayoutOk(v.lay)
    modifies v.blockBitmap, inode
    ensures inode.ino in old(v.View()).inodes && (v.View(), ok) == Reserve(old(v.View()), inode.ino, needed)
  {
    ghost var fs := v.View();
    for k := 0 to needed
      invariant v.Shape() && v.Holds(inode)
      invariant inode.ino in v.View().inodes
          && Reserve(fs, inode.ino, needed) == Reserve(v.View(), inode.ino, needed - k)
    {
      ok := ReserveOne(v, inode, needed - k);
      if !ok {
        return;
      }
    }
    ok := true;
  }

  /** One round: a block is taken and attached, or given back when all eight pointers are in use. */
  method ReserveOne(v: Volume, inode: InodeInfo, ghost wanted: nat) returns (ok: bool)
    requires v.Shape() && v.Holds(inode) && LayoutOk(v.lay) && wanted > 0
    modifies v.blockBitmap, inode
    ensures inode.ino in old(v.View()).inodes && inode.ino in v.View().inodes
    ensures Reserve(old(v.View()), inode.ino, wanted)
              == if ok then Reserve(v.View(), inode.ino, wanted - 1) else (v.View(), false)
  {
    ghost var fs := v.View();
    var newBlock := v.AllocBlock();
    if newBlock < 0 {
      assert v.View() == fs;
      return false;
    }
    if inode.blockCount < BLOCK_PER_FILE {
      AttachLast(v, inode, newBlock, fs);
      return true;
    }
    v.FreeBlockBit(newBlock);
    assert v.Used() == fs.used;
    assert v.View() == fs;
    return false;
  }

  /** A block just taken goes behind the last pointer. */
  method AttachLast(v: Volume, inode: InodeInfo, block: nat, ghost before: FS)
    requires v.Shape() && v.Holds(inode) && inode.blockCount < BLOCK_PER_FILE
    requires v.View() == before.(used := before.used + {block})
    modifies inode
    ensures inode.ino in before.inodes && v.View() == Attached(before, inode.ino, block)
  {
    assert before.inodes[inode.ino] == inode.Value();
    inode.blockPointers := inode.blockPointers[inode.blockCount := block];
    inode.blockCount := inode.blockCount + 1;
    OneInode(v, inode, before.inodes);
  }

  /** Copying the rest to pos, from this state of the device on, leads to goal. */
  ghost predicate Leads(goal: seq<Block>, disk: seq<Block>, ptrs: Ptrs, pos: nat, rest: seq<byte>) {
    Covers(disk, ptrs, pos, |rest|) && CopyIn(disk, ptrs, pos, rest) == goal
  }

  /** The copy loop of naive_file_write: it writes all of buf, and returns its length. */
  method CopyBlocks(v: Volume, inode: InodeInfo, start: nat, buf: seq<byte>) returns (ret: int, pos: nat)
    requires Mapped(v, inode) && start + |buf| <= BLOCK_SIZE * inode.blockCount
    modifies v.disk
    ensures Leads(v.disk[..], old(v.disk[..]), inode.blockPointers, start, buf)
    ensures ret == |buf| && pos == start + |buf|
  {
    ghost var goal := CopyIn(v.disk[..], inode.blockPointers, start, buf);
    ret, pos := 0, start;
    ghost var rest := buf;
    var remaining: nat := |buf|;
    while remaining > 0
      invariant 0 <= ret && ret + remaining == |buf| && pos == start + ret
      invariant rest == buf[ret..] && Leads(goal, v.disk[..], inode.blockPointers, pos, rest)
    {
      var index := pos / BLOCK_SIZE;
      if index >= inode.blockCount {
        assert false; // reservation has provided a block for every byte
        ret := -ENOSPC;
        break;
      }
      var count := CopyRound(v, inode, pos, buf[ret..], goal);
      rest := rest[count..];
      pos := pos + count;
      remaining := remaining - count;
      ret := ret + count;
    }
  }

  /** One round of the copy loop. */
  method CopyRound(v: Volume, inode: InodeInfo, pos: nat, rest: seq<byte>, ghost goal: seq<Block>) returns (count: nat)
    requires rest != [] && Leads(goal, v.disk[..], inode.blockPointers, pos, rest)
    modifies v.disk
    ensures 0 < count <= |rest| && Leads(goal, v.disk[..], inode.blockPointers, pos + count, rest[count..])
  {
    CopyStep(v.disk[..], inode.blockPointers, pos, rest);
    var b, offset := inode.blockPointers[pos / BLOCK_SIZE], pos % BLOCK_SIZE;
    count := Min(|rest|, BLOCK_SIZE - offset);
    v.disk[b] := Splice(v.disk[b], offset, rest[..count]);
  }

  lemma CopyStep(disk: seq<Block>, ptrs: Ptrs, pos: nat, buf: seq<byte>)
    requires buf != [] && Covers(disk, ptrs, pos, |buf|)
    ensures var c := Chunk(pos, |buf|);
      && pos / BLOCK_SIZE < BLOCK_PER_FILE && ptrs[pos / BLOCK_SIZE] < |disk|
      && var b := ptrs[pos / BLOCK_SIZE];
      var mid := disk[b := Splice(disk[b], pos % BLOCK_SIZE, buf[..c])];
      Covers(mid, ptrs, pos + c, |buf| - c) && CopyIn(disk, ptrs, pos, buf) == CopyIn(mid, ptrs, pos + c, buf[c..])
  {
  }

  /** naive_file_write up to the end of the reservation. */
  method ReserveFor(v: Volume, inode: InodeInfo, start: nat, len: nat) returns (ok: bool)
    requires v.Shape() && v.Holds(inode) && LayoutOk(v.lay)
    requires inode.size <= BLOCK_SIZE * inode.blockCount
    modifies v.blockBitmap, inode
    ensures inode.ino in old(v.View()).inodes && Wanted(old(inode.Value()), start, len) >= 0
    ensures (v.View(), ok) == Reserve(old(v.View()), inode.ino, Wanted(old(inode.Value()), start, len))
  {
    EnoughBlocks(inode.Value(), start, len);
    ok := true;
    if start + len > inode.size {
      var needed := (start + len + BLOCK_SIZE - 1) / BLOCK_SIZE - inode.size / BLOCK_SIZE;
      ok := ReserveBlocks(v, inode, needed);
    }
  }

  /** What the copy loop may rely on after a successful reservation, and what remains to be done. */
  lemma WriteFrom(fs: FS, i: nat, pos: nat, buf: seq<byte>)
    requires FileIn(fs, i) && pos + |buf| <= MAX_FILE_SIZE
    ensures OwnInv(FileWrite.Write(fs, i, pos, buf).0)
    ensures Wanted(fs.inodes[i], pos, |buf|) >= 0
    ensures var (fs1, ok) := Reserve(fs, i, Wanted(fs.inodes[i], pos, |buf|));
      && i in fs1.inodes && |fs1.disk| == |fs.disk|
      && (!ok ==> FileWrite.Write(fs, i, pos, buf) == (fs1, -ENOSPC, pos))
      && (ok ==>
            && pos + |buf| <= BLOCK_SIZE * fs1.inodes[i].count && InodeMapped(fs1.inodes[i], |fs1.disk|)
            && Covers(fs1.disk, fs1.inodes[i].ptrs, pos, |buf|)
            && FileWrite.Write(fs, i, pos, buf)
                 == (fs1.(disk := CopyIn(fs1.disk, fs1.inodes[i].ptrs, pos, buf),
                          inodes := fs1.inodes[i := Resized(fs1.inodes[i], pos + |buf|)]), |buf|, pos + |buf|))
  {
    WriteInv(fs, i, pos, buf);
    EnoughBlocks(fs.inodes[i], pos, |buf|);
    ReserveLengthens(fs, i, Wanted(fs.inodes[i], pos, |buf|));
    if Reserve(fs, i, Wanted(fs.inodes[i], pos, |buf|)).1 {
      WriteCovered(fs, i, pos, |buf|);
    }
  }

  /** naive_file_write. */
  method Write(v: Volume, inode: InodeInfo, start: nat, buf: seq<byte>) returns (ret: int, pos: nat)
    requires v.Valid() && v.Holds(inode) && !IsDir(inode.mode)
    modifies v.blockBitmap, v.disk, inode
    ensures v.Valid() && (v.View(), ret, pos) == FileWrite.Write(old(v.View()), inode.ino, start, buf)
  {
    if start + |buf| > MAX_FILE_SIZE {
      return -EFBIG, start;
    }
    WriteFrom(v.View(), inode.ino, start, buf);
    VolumeDir.ValidIsScannable(v, inode);
    ret, pos := WriteWithin(v, inode, start, buf);
  }

  /** naive_file_write below the size limit. */
  method WriteWithin(v: Volume, inode: InodeInfo, start: nat, buf: seq<byte>) returns (ret: int, pos: nat)
    requires v.Shape() && v.Holds(inode) && LayoutOk(v.lay) && inode.size <= BLOCK_SIZE * inode.blockCount
    requires inode.ino in v.View().inodes && Wanted(inode.Value(), start, |buf|) >= 0
    requires var (fs1, ok) := Reserve(v.View(), inode.ino, Wanted(inode.Value(), start, |buf|));
      && inode.ino in fs1.inodes && |fs1.disk| == v.disk.Length
      && (ok ==>
            && start + |buf| <= BLOCK_SIZE * fs1.inodes[inode.ino].count
            && InodeMapped(fs1.inodes[inode.ino], |fs1.disk|)
            && Covers(fs1.disk, fs1.inodes[inode.ino].ptrs, start, |buf|))
    modifies v.blockBitmap, v.disk, inode
    ensures v.Shape()
    ensures var (fs1, ok) := Reserve(old(v.View()), inode.ino, Wanted(old(inode.Value()), start, |buf|));
      if !ok then (v.View(), ret, pos) == (fs1, -ENOSPC, start)
      else (v.View(), ret, pos) == (Copied(fs1, inode.ino, start, buf), |buf|, start + |buf|)
  {
    var ok := ReserveFor(v, inode, start, |buf|);
    if !ok {
      return -ENOSPC, start;
    }
    assert v.View().inodes[inode.ino] == inode.Value();
    ret, pos := CopyReserved(v, inode, start, buf);
  }

  /** naive_file_write after the reservation. */
  method CopyReserved(v: Volume, inode: InodeInfo, start: nat, buf: seq<byte>) returns (ret: int, pos: nat)
    requires v.Shape() && v.Holds(inode) && Mapped(v, inode) && start + |buf| <= BLOCK_SIZE * inode.blockCount
    modifies v.disk, inode
    ensures v.Shape() && ret == |buf| && pos == start + |buf|
    ensures var fs := old(v.View());
      && inode.ino in fs.inodes && Covers(fs.disk, fs.inodes[inode.ino].ptrs, start, |buf|)
      && v.View() == Copied(fs, inode.ino, start, buf)
  {
    ghost var fs := v.View();
    ret, pos := CopyBlocks(v, inode, start, buf);
    if pos > inode.size {
      inode.size := pos;
    }
    OneInode(v, inode, fs.inodes);
  }
}
