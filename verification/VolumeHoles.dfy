/** naivefs-8/naivefs.c: linear allocation, reading, writing on demand and releasing blocks, on a volume. */
module VolumeHoles {
  import opened Bytes
  import opened State
  import opened Steps
  import opened FileData
  import opened OnDemand
  import opened Volume
  import HoleFiles
  import VolumeFile
  import Bitmap

  ghost predicate HasLayout(v: Volume)
    reads v
  {
    v.Shape() && v.lay.dataStart <= v.lay.blockTotal <= 8 * BITMAP_BYTES
  }

  /** naive_find_free_block: sets one bit and returns its number, or -1. */
  method FindFreeBlock(v: Volume) returns (block: int)
    requires HasLayout(v)
    modifies v.blockBitmap
    ensures block == -1 <==> AllSet(old(v.Used()), v.lay.dataStart, v.lay.blockTotal)
    ensures block != -1 ==> IsFirstClear(old(v.Used()), v.lay.dataStart, v.lay.blockTotal, block)
    ensures match FirstFreeBlock(old(v.View()))
            case None => block == -1 && v.Used() == old(v.Used())
            case Some(b) => block == b && v.Used() == old(v.Used()) + {b}
  {
    ghost var bits := v.blockBitmap[..];
    for n := v.lay.dataStart to v.lay.blockTotal
      invariant v.blockBitmap[..] == bits
      invariant forall c :: v.lay.dataStart <= c < n ==> c in Bitmap.Bits(bits)
    {
      var i, j := n / 8, n % 8;
      Bitmap.BitMeans(bits, i, j);
      if !Bitmap.BitIn(v.blockBitmap[i], j) {
        LeastFreeIs(v.Used(), v.lay.dataStart, v.lay.blockTotal, n);
        Bitmap.SetBit(bits, i, j);
        v.blockBitmap[i] := v.blockBitmap[i] | Bitmap.Mask(j);
        assert v.blockBitmap[..] == bits[i := bits[i] | Bitmap.Mask(j)];
        return n;
      }
    }
    NoneFree(v.Used(), v.lay.dataStart, v.lay.blockTotal);
    return -1;
  }

  /** naive_file_read of the snapshot: the bytes copied to the user, and the new position. bad holds the blocks on
      which sb_bread fails. */
  method Read(v: Volume, inode: InodeInfo, len: nat, start: nat, bad: set<nat>) returns (data: seq<byte>, pos: nat)
    requires forall k :: 0 <= k < BLOCK_PER_FILE ==> inode.blockPointers[k] < v.disk.Length
    ensures data == ReadBytes(v.disk[..], inode.Value(), start, len, bad)
    ensures pos == start + |data|
  {
    ghost var disk, n := v.disk[..], inode.Value();
    data, pos := [], start;
    if pos >= inode.size {
      return;
    }
    var rest: nat := if pos + len > inode.size then inode.size - pos else len;
    ghost var total := rest;
    while rest > 0
      invariant |data| + rest == total && pos == start + |data|
      invariant forall t :: Got(disk, n, start, bad, data, t)
      decreases rest
    {
      var index, offset := pos / BLOCK_SIZE, pos % BLOCK_SIZE;
      if index >= BLOCK_PER_FILE || inode.blockPointers[index] == 0 {
        break;
      }
      var b := inode.blockPointers[index];
      if b in bad {
        break;
      }
      var count, left: int := rest, inode.size - pos;
      if count > BLOCK_SIZE - offset {
        count := BLOCK_SIZE - offset;
      }
      if count > left {
        assert false; // len has been cut at the end of the file already
        count := left;
      }
      var chunk := v.disk[b][offset..offset + count];
      VolumeFile.ChunkGot(disk, n, start, data, chunk, bad);
      data := data + chunk;
      pos := pos + count;
      rest := rest - count;
    }
    ReadIsUnique(disk, n, start, len, bad, data);
  }

  /** The first half of a round: a block for index, taken if there is a hole, and given back if it cannot be read. */
  method FindOrTake(v: Volume, inode: InodeInfo, index: nat, bad: set<nat>) returns (ok: bool)
    requires HasLayout(v) && v.Holds(inode) && index < BLOCK_PER_FILE
    modifies v.blockBitmap, inode
    ensures inode.ino in old(v.View()).inodes
    ensures match Provide(old(v.View()), inode.ino, index, bad)
            case None => !ok && v.View() == old(v.View())
            case Some(next) => ok && v.View() == next
  {
    var newBlockNeeded := false;
    ghost var fs := v.View();
    if inode.blockPointers[index] == 0 {
      newBlockNeeded := TakeBlock(v, inode, index);
      if !newBlockNeeded {
        return false;
      }
    }
    if inode.blockPointers[index] in bad {
      if newBlockNeeded {
        GiveBack(v, inode, index, fs);
      }
      return false;
    }
    return true;
  }

  method TakeBlock(v: Volume, inode: InodeInfo, index: nat) returns (ok: bool)
    requires HasLayout(v) && v.Holds(inode) && index < BLOCK_PER_FILE
    modifies v.blockBitmap, inode
    ensures inode.ino in old(v.View()).inodes
    ensures match FirstFreeBlock(old(v.View()))
            case None => !ok && v.View() == old(v.View())
            case Some(b) =>
              && ok && v.View() == Given(old(v.View()), inode.ino, index, b)
              && inode.blockPointers[index] == b
  {
    ghost var fs := v.View();
    var block := FindFreeBlock(v);
    if block < 0 {
      assert v.Inodes() == fs.inodes;
      return false;
    }
    inode.blockPointers := inode.blockPointers[index := block];
    inode.blockCount := inode.blockCount + 1;
    OneInode(v, inode, fs.inodes);
    assert v.Inodes() == Given(fs, inode.ino, index, block).inodes;
    return true;
  }

  /** The rollback: bit, pointer and count are what they were in before. */
  method GiveBack(v: Volume, inode: InodeInfo, index: nat, ghost before: FS)
    requires v.Shape() && v.Holds(inode) && index < BLOCK_PER_FILE
    requires inode.ino in before.inodes && before.inodes[inode.ino].ptrs[index] == 0
    requires inode.blockPointers[index] !in before.used
    requires v.View() == Given(before, inode.ino, index, inode.blockPointers[index])
    modifies v.blockBitmap, inode
    ensures v.View() == before
  {
    ghost var fs := v.View();
    assert inode.Value() == fs.inodes[inode.ino];
    v.FreeBlockBit(inode.blockPointers[index]);
    inode.blockPointers := inode.blockPointers[index := 0];
    inode.blockCount := inode.blockCount - 1;
    assert inode.Value() == before.inodes[inode.ino];
    OneInode(v, inode, fs.inodes);
    assert v.Inodes() == before.inodes;
    assert v.Used() == before.used;
  }

  /** The second half: as many bytes as fit into the block, and the size. */
  method CopyFrom(v: Volume, inode: InodeInfo, pos: nat, rest: seq<byte>) returns (count: nat)
    requires v.Shape() && v.Holds(inode) && rest != [] && pos / BLOCK_SIZE < BLOCK_PER_FILE
    requires inode.blockPointers[pos / BLOCK_SIZE] < v.disk.Length
    modifies v.disk, inode
    ensures count == Chunk(pos, |rest|) && inode.ino in old(v.View()).inodes
    ensures v.View() == PutChunk(old(v.View()), inode.ino, pos, rest[..count])
  {
    ghost var fs := v.View();
    var offset, b := pos % BLOCK_SIZE, inode.blockPointers[pos / BLOCK_SIZE];
    count := |rest|;
    if count > BLOCK_SIZE - offset {
      count := BLOCK_SIZE - offset;
    }
    v.disk[b] := Splice(v.disk[b], offset, rest[..count]);
    if pos + count > inode.size {
      inode.size := pos + count;
    }
    OneInode(v, inode, fs.inodes);
  }

  /** round is what one round of the loop does. */
  ghost predicate IsRound(round: Rounds<FS>, i: nat, bad: set<nat>) {
    forall fs, pos, bytes {:trigger WriteRound(i, bad)(fs, pos, bytes)} :: round(fs, pos, bytes)
      == WriteRound(i, bad)(fs, pos, bytes)
  }

  /** Going on with rest at pos from fs, after done bytes, comes to goal. */
  ghost predicate LeadsTo(goal: (FS, nat), round: Rounds<FS>, fs: FS, pos: nat, rest: seq<byte>, done: nat) {
    pos + |rest| <= MAX_FILE_SIZE && goal == (Loop(round, fs, pos, rest).0, done + Loop(round, fs, pos, rest).1)
  }

  lemma LeadsOn(goal: (FS, nat), round: Rounds<FS>, fs: FS, pos: nat, rest: seq<byte>, done: nat)
    requires rest != [] && LeadsTo(goal, round, fs, pos, rest, done)
    ensures var c := Chunk(pos, |rest|);
      match round(fs, pos, rest[..c])
      case None => goal == (fs, done)
      case Some(next) => LeadsTo(goal, round, next, pos + c, rest[c..], done + c)
  {
  }

  /** Where the loop of naive_file_write is going. */
  lemma LeadsFromStart(fs: FS, i: nat, start: nat, buf: seq<byte>, bad: set<nat>)
    returns (goal: (FS, nat), round: Rounds<FS>)
    requires HoleInv(fs) && i in fs.inodes && start + |buf| <= MAX_FILE_SIZE
    ensures IsRound(round, i, bad) && LeadsTo(goal, round, fs, start, buf, 0)
    ensures HoleInv(goal.0) && HoleFiles.Write(fs, i, start, buf, bad) == (goal.0, goal.1, start + goal.1)
  {
    goal, round := WriteOn(fs, i, start, buf, bad), WriteRound(i, bad);
    var _, _ := HoleFiles.WriteMeans(fs, i, start, buf, bad);
  }

  /** naive_file_write of the snapshot. */
  method Write(v: Volume, inode: InodeInfo, start: nat, buf: seq<byte>, bad: set<nat>) returns (ret: int, pos: nat)
    requires v.Shape() && v.Holds(inode) && HoleInv(v.View())
    modifies v.blockBitmap, v.disk, inode
    ensures v.Shape() && HoleInv(v.View())
    ensures (v.View(), ret, pos) == HoleFiles.Write(old(v.View()), inode.ino, start, buf, bad)
  {
    if start + |buf| > MAX_FILE_SIZE {
      return -EFBIG, start;
    }
    ghost var goal, round := LeadsFromStart(v.View(), inode.ino, start, buf, bad);
    ret, pos := WriteLoop(v, inode, start, buf, bad, goal, round, v.View());
  }

  method WriteLoop(v: Volume, inode: InodeInfo, start: nat, buf: seq<byte>, bad: set<nat>,
                   ghost goal: (FS, nat), ghost round: Rounds<FS>, ghost before: FS)
    returns (ret: nat, pos: nat)
    requires v.Shape() && v.Holds(inode) && v.View() == before
    requires HoleInv(before) && IsRound(round, inode.ino, bad) && LeadsTo(goal, round, before, start, buf, 0)
    modifies v.blockBitmap, v.disk, inode
    ensures v.Shape() && v.View() == goal.0 && ret == goal.1 && pos == start + ret
  {
    ret, pos := 0, start;
    var rest := buf;
    ghost var now := before;
    while rest != []
      invariant pos == start + ret && v.Shape() && v.Holds(inode) && v.View() == now
      invariant HoleInv(now) && LeadsTo(goal, round, now, pos, rest, ret)
      decreases |rest|
    {
      ghost var next;
      var count, ok;
      LeadsOn(goal, round, now, pos, rest, ret);
      count, ok, next := WriteSome(v, inode, pos, rest, bad, round, now);
      now := next;
      if !ok {
        return;
      }
      rest := rest[count..];
      ret := ret + count;
      pos := pos + count;
    }
  }

  /** One round of naive_file_write. */
  method WriteSome(v: Volume, inode: InodeInfo, pos: nat, rest: seq<byte>, bad: set<nat>, ghost round: Rounds<FS>,
      ghost fs: FS)
    returns (count: nat, ok: bool, ghost next: FS)
    requires v.Shape() && v.Holds(inode) && v.View() == fs && HoleInv(fs) && IsRound(round, inode.ino, bad)
    requires rest != [] && pos + |rest| <= MAX_FILE_SIZE
    modifies v.blockBitmap, v.disk, inode
    ensures v.Shape() && v.View() == next && HoleInv(next)
    ensures round(fs, pos, rest[..Chunk(pos, |rest|)]) == if ok then Some(next) else None
    ensures if ok then count == Chunk(pos, |rest|) else next == fs
  {
    var index := pos / BLOCK_SIZE;
    count, ok, next := 0, false, fs;
    if index >= BLOCK_PER_FILE {
      assert false; // the size limit has been checked
      return;
    }
    ghost var bytes := rest[..Chunk(pos, |rest|)];
    HasRoom(fs, inode.ino, pos, bytes);
    assert round(fs, pos, bytes) == WriteRound(inode.ino, bad)(fs, pos, bytes);
    ok := FindOrTake(v, inode, index, bad);
    if !ok {
      return;
    }
    ghost var fs1 := ProvideWrites(fs, inode.ino, index, pos, bad);
    HasRoom(fs1, inode.ino, pos, bytes);
    count := CopyFrom(v, inode, pos, rest);
    next := v.View();
    RoundWrites(fs, inode.ino, pos, bytes, bad);
  }

  /** naive_free_file_blocks. */
  method FreeFileBlocks(v: Volume, inode: InodeInfo)
    requires v.Shape() && v.Holds(inode)
    modifies v.blockBitmap, inode
    ensures v.Shape() && inode.ino in old(v.View()).inodes
    ensures v.View() == HoleFiles.FreeFileBlocks(old(v.View()), inode.ino)
  {
    ghost var fs, n := v.View(), inode.Value();
    for k := 0 to BLOCK_PER_FILE
      invariant inode.Value() == n.(ptrs := inode.blockPointers)
      invariant forall l :: 0 <= l < BLOCK_PER_FILE ==> inode.blockPointers[l] == if l < k then 0 else n.ptrs[l]
      invariant v.Used() == fs.used - HeldBelow(n, k)
    {
      if inode.blockPointers[k] != 0 {
        v.FreeBlockBit(inode.blockPointers[k]);
        inode.blockPointers := inode.blockPointers[k := 0];
      }
      assert HeldBelow(n, k + 1) == HeldBelow(n, k) + if n.ptrs[k] != 0 then {n.ptrs[k]} else {};
    }
    inode.blockCount := 0;
    assert inode.blockPointers == NoPtrs() && HeldBelow(n, BLOCK_PER_FILE) == Held(n);
    OneInode(v, inode, fs.inodes);
  }

  function HeldBelow(n: Inode, m: nat): set<nat>
    requires m <= BLOCK_PER_FILE
  {
    set k | 0 <= k < m && n.ptrs[k] != 0 :: n.ptrs[k]
  }
}
