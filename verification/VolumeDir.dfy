/** naivefs_dir.c: the directory operations, in place on the device blocks, bitmaps and inodes of a volume. */
module VolumeDir {
  import opened Bytes
  import opened Records
  import opened Directory
  import opened State
  import opened Steps
  import opened Ownership
  import opened Volume

  /** What a scan over the records of a directory relies on. */
  ghost predicate Scannable(v: Volume, dir: InodeInfo)
    reads v, dir
  {
    && dir.blockCount <= BLOCK_PER_FILE
    && forall k :: 0 <= k < dir.blockCount ==> 0 < dir.blockPointers[k] < v.disk.Length
  }

  lemma ValidIsScannable(v: Volume, dir: InodeInfo)
    requires v.Valid() && v.Holds(dir)
    ensures Scannable(v, dir) && Usable(v, dir)
    ensures v.View().inodes[dir.ino] == dir.Value()
  {
    var fs := v.View();
    assert fs.inodes[dir.ino] == dir.Value();
    DensePointers(fs, dir.ino);
  }

  /** The records of a directory object, read off the device. */
  ghost function Recs(v: Volume, dir: InodeInfo): seq<Rec>
    requires Scannable(v, dir)
    reads v, dir, v.disk
  {
    RecsOf(v.disk[..], dir.Value())
  }

  /** Where the record scans stand: record j of the block in pointer i. */
  lemma RecordAt(disk: seq<Block>, n: Inode, i: nat, j: nat)
    requires PtrsIn(disk, n) && i < n.count && j < DIR_RECORDS_PER_BLOCK
    ensures 3 * i + j < |RecsOf(disk, n)| && RecsOf(disk, n)[3 * i + j] == GetRec(disk[n.ptrs[i]], j)
    ensures (3 * i + j) / 3 == i && (3 * i + j) % 3 == j
  {
  }

  /** Storing number, copied name and forced terminator one after the other makes one record. */
  lemma ThreeStores(blk: Block, j: nat, ino: nat, name: Name)
    requires j < DIR_RECORDS_PER_BLOCK
    ensures var at := j * DIR_RECORD_SIZE;
      var blk1 := Splice(blk, at, WordBytes(ino));
      var blk2 := Splice(blk1, at + 4, Strncpy(name));
      blk2[at + 4 + MAX_FILENAME_LEN - 1 := 0] == PutRec(blk, j, Rec(ino, Padded(name)))
  {
    var at := j * DIR_RECORD_SIZE;
    var blk1 := Splice(blk, at, WordBytes(ino));
    var blk2 := Splice(blk1, at + 4, Strncpy(name));
    var left, right := blk2[at + 4 + MAX_FILENAME_LEN - 1 := 0], PutRec(blk, j, Rec(ino, Padded(name)));
    forall o | 0 <= o < BLOCK_SIZE
      ensures left[o] == right[o]
    {
      SpliceAt(blk, at, WordBytes(ino), o);
      SpliceAt(blk1, at + 4, Strncpy(name), o);
      SpliceAt(blk, at, WordBytes(ino) + Padded(name), o);
    }
  }

  /** The stores of naive_add_entry into record j of block b. */
  method StoreRecord(v: Volume, b: nat, j: nat, ino: nat, name: Name)
    requires b < v.disk.Length && j < DIR_RECORDS_PER_BLOCK
    modifies v.disk
    ensures v.disk[..] == old(v.disk[..])[b := PutRec(old(v.disk[b]), j, Rec(ino, Padded(name)))]
  {
    var at := j * DIR_RECORD_SIZE;
    ThreeStores(v.disk[b], j, ino, name);
    v.disk[b] := Splice(v.disk[b], at, WordBytes(ino));
    v.disk[b] := Splice(v.disk[b], at + 4, Strncpy(name));
    v.disk[b] := v.disk[b][at + 4 + MAX_FILENAME_LEN - 1 := 0];
  }

  /** The first half of naive_add_entry: use the first free record, if there is one. */
  method FillFreeRecord(v: Volume, dir: InodeInfo, name: Name, ino: nat) returns (found: bool)
    requires Scannable(v, dir)
    modifies v.disk
    ensures var recs := old(Recs(v, dir));
      var r := FirstFree(recs);
      && (found <==> r < |recs|)
      && v.disk[..] == if found then StoreRec(old(v.disk[..]), dir.Value(), r, Rec(ino, Padded(name)))
           else old(v.disk[..])
  {
    ghost var disk, recs := v.disk[..], Recs(v, dir);
    for i := 0 to dir.blockCount
      invariant v.disk[..] == disk
      invariant forall q :: 0 <= q < 3 * i ==> recs[q].ino != 0
    {
      if dir.blockPointers[i] == 0 {
        continue;
      }
      var b := dir.blockPointers[i];
      for j := 0 to DIR_RECORDS_PER_BLOCK
        invariant v.disk[..] == disk
        invariant forall q :: 0 <= q < 3 * i + j ==> recs[q].ino != 0
      {
        RecordAt(disk, dir.Value(), i, j);
        if Word(v.disk[b], j * DIR_RECORD_SIZE) == 0 {
          FirstFreeIs(recs, 3 * i + j);
          StoreRecord(v, b, j, ino, name);
          return true;
        }
      }
    }
    FirstFreeIs(recs, |recs|);
    return false;
  }

  lemma DensePointers(fs: FS, i: nat)
    requires OwnInv(fs) && i in fs.inodes
    ensures var n := fs.inodes[i];
      n.count <= BLOCK_PER_FILE && forall k :: 0 <= k < BLOCK_PER_FILE ==> (n.ptrs[k] != 0 <==> k < n.count)
  {
  }

  /** The loop over block_pointers: the first zero pointer, if there is one, takes the block. */
  method AttachPointer(dir: InodeInfo, block: nat)
    requires dir.blockCount <= BLOCK_PER_FILE
    requires forall k :: 0 <= k < BLOCK_PER_FILE ==> (dir.blockPointers[k] != 0 <==> k < dir.blockCount)
    modifies dir
    ensures dir.Value() == Attach(old(dir.Value()), block)
  {
    var i := 0;
    while i < BLOCK_PER_FILE && dir.blockPointers[i] != 0
      invariant 0 <= i <= dir.blockCount
    {
      i := i + 1;
    }
    if i < BLOCK_PER_FILE {
      dir.blockPointers := dir.blockPointers[i := block];
      dir.blockCount := dir.blockCount + 1;
    }
  }

  /** memset of the new block, then its first record. */
  method FormatBlock(v: Volume, b: nat, ino: nat, name: Name)
    requires b < v.disk.Length
    modifies v.disk
    ensures v.disk[..] == old(v.disk[..])[b := FreshBlock(Rec(ino, Padded(name)))]
  {
    v.disk[b] := ZeroBlock();
    StoreRecord(v, b, 0, ino, name);
  }

  /** What the scan over pointers and the allocator rely on. */
  ghost predicate Usable(v: Volume, dir: InodeInfo)
    reads v, dir
  {
    && v.Shape() && v.Holds(dir) && LayoutOk(v.lay) && v.disk.Length == v.lay.blockTotal
    && dir.blockCount <= BLOCK_PER_FILE
    && forall k :: 0 <= k < BLOCK_PER_FILE ==> (dir.blockPointers[k] != 0 <==> k < dir.blockCount)
  }

  method HangBlock(v: Volume, dir: InodeInfo, name: Name, ino: nat, newBlock: nat)
    requires Usable(v, dir) && newBlock < v.disk.Length
    modifies v.disk, dir
    ensures v.disk[..] == old(v.disk[..])[newBlock := FreshBlock(Rec(ino, Padded(name)))]
    ensures dir.ino in old(v.Inodes())
    ensures var n := old(dir.Value());
      v.Inodes() == old(v.Inodes())[dir.ino := Attach(n, newBlock).(size := n.size + BLOCK_SIZE)]
  {
    ghost var inodes := v.Inodes();
    AttachPointer(dir, newBlock);
    FormatBlock(v, newBlock, ino, name);
    dir.size := dir.size + BLOCK_SIZE;
    OneInode(v, dir, inodes);
  }

  /** Its second half: take a block, hang it into the first unused pointer if there is one, and start it with the
      record. */
  method GrowDirectory(v: Volume, dir: InodeInfo, name: Name, ino: nat) returns (ret: int)
    requires Usable(v, dir)
    modifies v.blockBitmap, v.disk, dir
    ensures match FreeBlock(old(v.View()))
            case None =>
              ret == -ENOSPC && v.View() == old(v.View())
            case Some(b) =>
              && ret == 0 && b < |old(v.View()).disk| && dir.ino in old(v.View()).inodes
              && v.View() == Grown(old(v.View()), dir.ino, b, FreshBlock(Rec(ino, Padded(name))))
  {
    ghost var inodes := v.Inodes();
    var newBlock := v.AllocBlock();
    if newBlock >= 0 {
      HangBlock(v, dir, name, ino, newBlock);
      ret := 0;
    } else {
      assert v.Inodes() == inodes;
      ret := -ENOSPC;
    }
  }

  /** naive_add_entry. */
  method AddEntry(v: Volume, dir: InodeInfo, name: Name, ino: nat) returns (ret: int)
    requires v.Valid() && v.Holds(dir) && IsDir(dir.mode)
    modifies v.blockBitmap, v.disk, dir
    ensures v.Valid() && (v.View(), ret) == Steps.AddEntry(old(v.View()), dir.ino, name, ino)
  {
    AddEntryKeeps(v.View(), dir.ino, name, ino);
    ValidIsScannable(v, dir);
    ret := AddEntryTo(v, dir, name, ino);
  }

  method AddEntryTo(v: Volume, dir: InodeInfo, name: Name, ino: nat) returns (ret: int)
    requires Scannable(v, dir) && Usable(v, dir)
    modifies v.blockBitmap, v.disk, dir
    ensures v.Shape() && DirOk(old(v.View()), dir.ino)
    ensures (v.View(), ret) == Steps.AddEntry(old(v.View()), dir.ino, name, ino)
  {
    ghost var fs := v.View();
    assert fs.inodes[dir.ino] == dir.Value();
    var found := FillFreeRecord(v, dir, name, ino);
    assert v.Inodes() == fs.inodes;
    if found {
      return 0;
    }
    assert v.View() == fs;
    ret := GrowDirectory(v, dir, name, ino);
  }

  /** Clearing the number and the name of record j of block b. */
  method ClearRecord(v: Volume, b: nat, j: nat)
    requires b < v.disk.Length && j < DIR_RECORDS_PER_BLOCK
    modifies v.disk
    ensures v.disk[..] == old(v.disk[..])[b := PutRec(old(v.disk[b]), j, ZeroRec())]
  {
    var at := j * DIR_RECORD_SIZE;
    TwoStores(v.disk[b], j);
    v.disk[b] := Splice(v.disk[b], at, WordBytes(0));
    v.disk[b] := Splice(v.disk[b], at + 4, ZeroRec().raw);
  }

  lemma TwoStores(blk: Block, j: nat)
    requires j < DIR_RECORDS_PER_BLOCK
    ensures var at := j * DIR_RECORD_SIZE;
      Splice(Splice(blk, at, WordBytes(0)), at + 4, ZeroRec().raw) == PutRec(blk, j, ZeroRec())
  {
    var at := j * DIR_RECORD_SIZE;
    var blk1 := Splice(blk, at, WordBytes(0));
    var left, right := Splice(blk1, at + 4, ZeroRec().raw), PutRec(blk, j, ZeroRec());
    forall o | 0 <= o < BLOCK_SIZE
      ensures left[o] == right[o]
    {
      SpliceAt(blk, at, WordBytes(0), o);
      SpliceAt(blk1, at + 4, ZeroRec().raw, o);
      SpliceAt(blk, at, WordBytes(0) + ZeroRec().raw, o);
    }
  }

  /** naive_remove_entry. */
  method RemoveEntry(v: Volume, dir: InodeInfo, name: Name) returns (ret: int)
    requires v.Valid() && v.Holds(dir)
    modifies v.disk
    ensures v.Valid() && (v.View(), ret) == Steps.RemoveEntry(old(v.View()), dir.ino, name)
  {
    RemoveEntryKeeps(v.View(), dir.ino, name);
    ValidIsScannable(v, dir);
    ret := RemoveFirst(v, dir, name);
  }

  /** The scan of naive_remove_entry. */
  method RemoveFirst(v: Volume, dir: InodeInfo, name: Name) returns (ret: int)
    requires Scannable(v, dir)
    modifies v.disk
    ensures var recs := old(Recs(v, dir));
      var r := FirstMatch(recs, name);
      && ret == (if r < |recs| then 0 else -ENOENT)
      && v.disk[..] == if r < |recs| then StoreRec(old(v.disk[..]), dir.Value(), r, ZeroRec()) else old(v.disk[..])
  {
    ghost var disk, recs := v.disk[..], Recs(v, dir);
    for i := 0 to dir.blockCount
      invariant v.disk[..] == disk
      invariant forall q :: 0 <= q < 3 * i ==> !Names(recs[q], name)
    {
      if dir.blockPointers[i] == 0 {
        continue;
      }
      var b := dir.blockPointers[i];
      for j := 0 to DIR_RECORDS_PER_BLOCK
        invariant v.disk[..] == disk
        invariant forall q :: 0 <= q < 3 * i + j ==> !Names(recs[q], name)
      {
        RecordAt(disk, dir.Value(), i, j);
        if Word(v.disk[b], j * DIR_RECORD_SIZE) != 0 && Matches(GetRec(v.disk[b], j), name) {
          FirstMatchIs(recs, name, 3 * i + j);
          ClearRecord(v, b, j);
          return 0;
        }
      }
    }
    FirstMatchIs(recs, name, |recs|);
    return -ENOENT;
  }

  /** The record scan of naive_lookup: the number it hands to naive_iget, or 0 when no record matches. */
  method Lookup(v: Volume, dir: InodeInfo, name: Name) returns (ino: nat)
    requires Scannable(v, dir)
    ensures var recs := Recs(v, dir);
      var r := FirstMatch(recs, name);
      ino == if r < |recs| then recs[r].ino else 0
  {
    ghost var disk, recs := v.disk[..], Recs(v, dir);
    for i := 0 to dir.blockCount
      invariant forall q :: 0 <= q < 3 * i ==> !Names(recs[q], name)
    {
      if dir.blockPointers[i] == 0 {
        continue;
      }
      var b := dir.blockPointers[i];
      for j := 0 to DIR_RECORDS_PER_BLOCK
        invariant forall q :: 0 <= q < 3 * i + j ==> !Names(recs[q], name)
      {
        RecordAt(disk, dir.Value(), i, j);
        var record := GetRec(v.disk[b], j);
        if record.ino != 0 && Matches(record, name) {
          FirstMatchIs(recs, name, 3 * i + j);
          return record.ino;
        }
      }
    }
    FirstMatchIs(recs, name, |recs|);
    return 0;
  }

  /** The emptiness scan of naive_rmdir. */
  method ScanEmpty(v: Volume, dir: InodeInfo) returns (empty: bool)
    requires Scannable(v, dir)
    ensures empty <==> EmptyDir(Recs(v, dir))
  {
    ghost var disk, recs := v.disk[..], Recs(v, dir);
    for i := 0 to dir.blockCount
      invariant forall q :: 0 <= q < 3 * i && recs[q].ino != 0 ==> IsDot(recs[q])
    {
      if dir.blockPointers[i] == 0 {
        continue;
      }
      var b := dir.blockPointers[i];
      for j := 0 to DIR_RECORDS_PER_BLOCK
        invariant forall q :: 0 <= q < 3 * i + j && recs[q].ino != 0 ==> IsDot(recs[q])
      {
        RecordAt(disk, dir.Value(), i, j);
        var record := GetRec(v.disk[b], j);
        if record.ino == 0 || Matches(record, DOT) || Matches(record, DOTDOT) {
          continue;
        }
        return false;
      }
    }
    return true;
  }

  /** The used records among the first n. */
  function CountUpTo(recs: seq<Rec>, n: nat): nat
    requires n <= |recs|
  {
    |UsedSlots(recs[..n])|
  }

  lemma CountOne(recs: seq<Rec>, n: nat)
    requires n < |recs|
    ensures CountUpTo(recs, n + 1) == CountUpTo(recs, n) + (if recs[n].ino != 0 then 1 else 0)
  {
    var less, more := UsedSlots(recs[..n]), UsedSlots(recs[..n + 1]);
    assert more == less + (if recs[n].ino != 0 then {n} else {});
    assert n !in less;
  }

  lemma CountAll(recs: seq<Rec>)
    ensures CountUpTo(recs, 0) == 0 && CountUpTo(recs, |recs|) == |UsedSlots(recs)|
  {
    assert UsedSlots(recs[..0]) == {} && recs[..|recs|] == recs;
  }

  /** The count after record j of block i. */
  lemma RecordCounts(disk: seq<Block>, n: Inode, recs: seq<Rec>, i: nat, j: nat)
    requires PtrsIn(disk, n) && recs == RecsOf(disk, n) && i < n.count && j < DIR_RECORDS_PER_BLOCK
    ensures 3 * i + j < |recs|
    ensures CountUpTo(recs, 3 * i + j + 1)
              == CountUpTo(recs, 3 * i + j) + if Word(disk[n.ptrs[i]], j * DIR_RECORD_SIZE) != 0 then 1 else 0
  {
    RecordAt(disk, n, i, j);
    CountOne(recs, 3 * i + j);
  }

  /** naive_is_empty_dir of the counting snapshot. */
  method IsEmptyDir(v: Volume, dir: InodeInfo) returns (empty: bool)
    requires Scannable(v, dir)
    ensures empty <==> CountsTwo(Recs(v, dir))
  {
    ghost var disk, recs := v.disk[..], Recs(v, dir);
    var count := 0;
    CountAll(recs);
    for i := 0 to dir.blockCount
      invariant count == CountUpTo(recs, 3 * i)
    {
      if dir.blockPointers[i] == 0 {
        assert false; // pointers below block_count are set
        continue;
      }
      var b := dir.blockPointers[i];
      for j := 0 to DIR_RECORDS_PER_BLOCK
        invariant count == CountUpTo(recs, 3 * i + j)
      {
        RecordCounts(disk, dir.Value(), recs, i, j);
        if Word(v.disk[b], j * DIR_RECORD_SIZE) != 0 {
          count := count + 1;
        }
      }
    }
    CountAll(recs);
    return count == 2;
  }
}
