/** Writing an inode to the table, and reading one back for a lookup. */
module VolumeTable {
  import opened Bytes
  import opened State
  import opened Records
  import opened Steps
  import opened Accounting
  import opened InodeTable
  import opened Volume
  import opened Directory
  import opened Reload
  import VolumeDir

  // ---- naive_write_inode and naive_iget ----

  /** naive_write_inode: field by field into the inode's block of the table. */
  method WriteInode(v: Volume, inode: InodeInfo)
    requires v.Valid() && v.Holds(inode)
    modifies v.disk
    ensures inode.ino in old(v.View()).inodes && inode.blockCount <= BLOCK_PER_FILE
    ensures 0 <= TableBlock(v.lay, inode.ino) < v.disk.Length
    ensures v.Valid() && v.View() == InodeTable.WriteInode(old(v.View()), inode.ino)
  {
    ghost var after := AfterWriteInode(v, inode);
    StoreInode(v, inode, v.lay.tableStart + (inode.ino - 1));
    assert v.Inodes() == after.inodes;
    assert v.View() == after;
  }

  lemma AfterWriteInode(v: Volume, inode: InodeInfo) returns (after: FS)
    requires v.Valid() && v.Holds(inode)
    ensures inode.ino in v.View().inodes && v.View().inodes[inode.ino] == inode.Value()
    ensures inode.blockCount <= BLOCK_PER_FILE
    ensures 0 <= TableBlock(v.lay, inode.ino) < v.disk.Length
    ensures after == InodeTable.WriteInode(v.View(), inode.ino) && OwnInv(after)
  {
    var fs := v.View();
    var extra, lost := SomeAccount(fs);
    WriteInodeKeeps(fs, inode.ino, extra, lost);
    VolumeDir.ValidIsScannable(v, inode);
    after := InodeTable.WriteInode(fs, inode.ino);
  }

  /** The stores of naive_write_inode, into the buffer of table block t. */
  method StoreInode(v: Volume, inode: InodeInfo, t: nat)
    requires t < v.disk.Length && inode.blockCount <= BLOCK_PER_FILE
    modifies v.disk
    ensures v.disk[..] == old(v.disk[..])[t := Encode(old(v.disk[t]), inode.ino, inode.Value())]
  {
    ghost var n, first := inode.Value(), v.disk[t];
    ghost var fields := Fields(inode.ino, n);
    FieldsApart(inode.ino, n);
    StoreHead(v, inode, t, first, fields);
    for k := 0 to inode.blockCount
      invariant v.disk[..] == old(v.disk[..])[t := PutFields(first, fields[..3 + k])]
    {
      StoreWord(v, t, BLOCK_WORD + k, inode.blockPointers[k], first, fields, 3 + k);
    }
    StoreTail(v, inode, t, first, fields);
    assert fields[..7 + n.count] == fields;
  }

  /** mode, i_ino and block_count */
  method StoreHead(v: Volume, inode: InodeInfo, t: nat, ghost first: Block, ghost fields: seq<Field>)
    requires t < v.disk.Length && InTable(fields) && |fields| >= 3
    requires fields[..3] == HeadFields(inode.ino, inode.Value())
    requires v.disk[t] == first
    modifies v.disk
    ensures v.disk[..] == old(v.disk[..])[t := PutFields(first, fields[..3])]
  {
    assert forall f :: 0 <= f < 3 ==> fields[f] == fields[..3][f];
    StoreWord(v, t, MODE_WORD, inode.mode, first, fields, 0);
    StoreWord(v, t, INO_WORD, inode.ino, first, fields, 1);
    StoreWord(v, t, COUNT_WORD, inode.blockCount, first, fields, 2);
  }

  /** The size, or the number of directory records in its place; i_uid, i_gid and i_nlink. */
  method StoreTail(v: Volume, inode: InodeInfo, t: nat, ghost first: Block, ghost fields: seq<Field>)
    requires t < v.disk.Length && InTable(fields) && |fields| == inode.blockCount + 7
    requires fields[inode.blockCount + 3..] == TailFields(inode.Value())
    requires v.disk[t] == PutFields(first, fields[..inode.blockCount + 3])
    modifies v.disk
    ensures v.disk[..] == old(v.disk[..])[t := PutFields(first, fields[..inode.blockCount + 7])]
  {
    ghost var f := inode.blockCount + 3;
    assert forall g :: 0 <= g < 4 ==> fields[f + g] == fields[f..][g];
    var sizeWord := if IsDir(inode.mode) then inode.size / DIR_RECORD_SIZE else inode.size;
    StoreWord(v, t, SIZE_WORD, sizeWord, first, fields, f);
    StoreWord(v, t, UID_WORD, inode.uid, first, fields, f + 1);
    StoreWord(v, t, GID_WORD, inode.gid, first, fields, f + 2);
    StoreWord(v, t, NLINK_WORD, inode.nlink, first, fields, f + 3);
  }

  /** One store: the block goes from the first f fields to the first f + 1. */
  method StoreWord(v: Volume, t: nat, w: nat, value: nat, ghost first: Block, ghost fields: seq<Field>, ghost f: nat)
    requires t < v.disk.Length && w < WORDS && InTable(fields) && f < |fields| && fields[f] == Field(w, value)
    requires v.disk[t] == PutFields(first, fields[..f])
    modifies v.disk
    ensures v.disk[..] == old(v.disk[..])[t := PutFields(first, fields[..f + 1])]
  {
    PutFieldsAppend(first, fields[..f], [fields[f]]);
    assert fields[..f] + [fields[f]] == fields[..f + 1];
    v.disk[t] := PutWord(v.disk[t], w, value);
  }

  /** What naive_iget comes to: an inode; the read error of a table block past the device; or a block count past the
      array of pointers, in front of the store that would miss the array. */
  datatype Fetched = Known(inode: InodeInfo) | ReadError | PastArray

  /** The block count of the image of inode ino. */
  function CountInTable(fs: FS, ino: nat): int
    requires InTableRange(fs, ino)
  {
    AsInt(GetWord(fs.disk[TableBlock(fs.lay, ino)], COUNT_WORD))
  }

  /** What naive_iget does for number ino, by whether the inode hash has it. */
  ghost predicate Fetches(fs: FS, after: FS, ino: nat, hashed: bool, r: Fetched)
    requires ino >= 1
  {
    if hashed then r.Known? && after == fs
    else if |fs.disk| <= TableBlock(fs.lay, ino) then r == ReadError && after == fs
    else if CountInTable(fs, ino) > BLOCK_PER_FILE then r == PastArray && after == fs
    else r.Known? && after == Reloaded(fs, ino)
  }

  /** naive_iget: the inode the hash has, or else a zeroed one filled from the table, which is the inode from then
      on. */
  method GetInode(v: Volume, ino: nat, hashed: bool) returns (r: Fetched)
    requires v.Shape() && ino >= 1 && (hashed ==> ino in v.icache)
    modifies v
    ensures v.Shape() && Fetches(old(v.View()), v.View(), ino, hashed, r)
    ensures r == ReadError <==> !hashed && v.disk.Length < v.lay.tableStart + ino
    ensures r == PastArray <==>
      && !hashed && v.lay.tableStart + ino <= v.disk.Length
      && 8 < Word(v.disk[v.lay.tableStart + ino - 1], 8) < 0x8000_0000
    ensures r.Known? ==> v.Holds(r.inode) && r.inode.ino == ino && (hashed ==> r.inode == old(v.icache[ino]))
  {
    if hashed {
      return Known(v.icache[ino]);
    }
    var t := v.lay.tableStart + (ino - 1);
    if v.disk.Length <= t {
      return ReadError;
    }
    ghost var fs := v.View();
    var inode, within := FillInode(v.disk[t], ino);
    if !within {
      return PastArray;
    }
    v.icache := v.icache[ino := inode];
    assert v.Inodes() == fs.inodes[ino := Load(fs, ino)];
    return Known(inode);
  }

  /** The loads of naive_iget, out of the buffer of the inode's table block. */
  method FillInode(buffer: Block, ino: nat) returns (inode: InodeInfo, within: bool)
    ensures fresh(inode) && inode.ino == ino
    ensures within <==> AsInt(GetWord(buffer, COUNT_WORD)) <= BLOCK_PER_FILE
    ensures within ==> inode.Value() == Decode(buffer)
  {
    inode := new InodeInfo(ino);
    inode.mode := GetWord(buffer, MODE_WORD);
    inode.uid := GetWord(buffer, UID_WORD);
    inode.gid := GetWord(buffer, GID_WORD);
    inode.size := GetWord(buffer, SIZE_WORD);
    inode.nlink := GetWord(buffer, NLINK_WORD);
    inode.blockCount := GetWord(buffer, COUNT_WORD);
    var count := AsInt(inode.blockCount);
    for k := 0 to if count < 0 then 0 else count
      invariant k <= BLOCK_PER_FILE && inode.Value() == Decode(buffer).(ptrs := inode.blockPointers)
      invariant forall q :: 0 <= q < BLOCK_PER_FILE ==>
                  inode.blockPointers[q] == if q < k then GetWord(buffer, BLOCK_WORD + q) else 0
    {
      if k >= BLOCK_PER_FILE {
        return inode, false;
      }
      inode.blockPointers := inode.blockPointers[k := GetWord(buffer, BLOCK_WORD + k)];
    }
    assert forall q :: 0 <= q < BLOCK_PER_FILE ==> inode.blockPointers[q] == LoadPtr(buffer, q);
    assert inode.blockPointers == Decode(buffer).ptrs;
    return inode, true;
  }

  /** naive_lookup: the inode of the first matching record, or null. The volume stays valid exactly when the inode was
      in the hash or its image in the table is one that can be loaded. */
  method LookupInode(v: Volume, dir: InodeInfo, name: Name, hash: set<nat>) returns (r: Option<Fetched>)
    requires v.Valid() && v.Holds(dir) && IsDir(dir.mode) && hash <= v.icache.Keys
    modifies v
    ensures v.Shape() && DirOk(old(v.View()), dir.ino)
    ensures var fs := old(v.View());
      var recs := DirRecs(fs, dir.ino);
      var f := FirstMatch(recs, name);
      if f == |recs| then r == None && v.View() == fs
      else
        && var ino := recs[f].ino;
        && r.Some? && ino >= 1 && Fetches(fs, v.View(), ino, ino in hash, r.value)
        && (r.value.Known? ==> v.Holds(r.value.inode) && r.value.inode.ino == ino)
        && (v.Valid() <==> r.value.Known? && ino !in hash ==> InTableRange(fs, ino) && Loadable(fs, ino))
  {
    ghost var fs := v.View();
    VolumeDir.ValidIsScannable(v, dir);
    var ino := VolumeDir.Lookup(v, dir, name);
    if ino == 0 {
      return None;
    }
    var fetched := GetInode(v, ino, ino in hash);
    StaysValid(fs, v.View(), ino, ino in hash, fetched);
    return Some(fetched);
  }

  lemma StaysValid(fs: FS, after: FS, ino: nat, hashed: bool, r: Fetched)
    requires OwnInv(fs) && ino >= 1 && Fetches(fs, after, ino, hashed, r)
    ensures OwnInv(after) <==> r.Known? && !hashed ==> InTableRange(fs, ino) && Loadable(fs, ino)
  {
    if r.Known? && !hashed {
      ReloadKeeps(fs, ino);
    }
  }
}
