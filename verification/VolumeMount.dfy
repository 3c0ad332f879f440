/** mkfs and mount: what format_disk leaves on a device, and what naive_fill_super makes of the blocks it reads. */
module VolumeMount {
  import opened Bytes
  import opened Records
  import opened State
  import opened Steps
  import opened InodeTable
  import opened Volume
  import opened Books
  import Bitmap

  const MAGIC := 0x990717
  const SUPER_BLOCK := 1
  const BLOCK_MAP := 2
  const INODE_MAP := 3

  const EIO := 5
  const EINVAL := 22

  // Word numbers of struct naive_super_block.
  const MAGIC_WORD := 0
  const INODE_TOTAL_WORD := 1
  const BLOCK_TOTAL_WORD := 2
  const TABLE_WORD := 3
  const DATA_WORD := 4

  // ---- bitmaps in blocks ----

  type Map = m: seq<bv8> | |m| == BITMAP_BYTES witness seq(512, _ => 0)

  /** memcpy of a block into a bitmap buffer. */
  function BitsIn(blk: Block): Map {
    seq(BITMAP_BYTES, i requires 0 <= i < BITMAP_BYTES => (blk[i] as int) as bv8)
  }

  function BytesOf(bits: Map): Block {
    seq(BLOCK_SIZE, i requires 0 <= i < BLOCK_SIZE => (bits[i] as int) as byte)
  }

  lemma MapRoundTrip(bits: Map)
    ensures BitsIn(BytesOf(bits)) == bits
  {
  }

  // ---- the superblock ----

  /** The value of word w of the superblock. */
  function SuperValue(lay: Layout, w: nat): nat {
    if w == MAGIC_WORD then MAGIC
    else if w == INODE_TOTAL_WORD then lay.inodeTotal
    else if w == BLOCK_TOTAL_WORD then lay.blockTotal
    else if w == TABLE_WORD then lay.tableStart
    else lay.dataStart
  }

  function SuperFields(lay: Layout): (fields: seq<Field>)
    ensures InTable(fields)
  {
    seq(DATA_WORD + 1, w requires 0 <= w <= DATA_WORD => Field(w, SuperValue(lay, w)))
  }

  function SuperBlock(lay: Layout): Block {
    PutFields(ZeroBlock(), SuperFields(lay))
  }

  function LayoutIn(blk: Block): Layout {
    Layout(GetWord(blk, INODE_TOTAL_WORD), GetWord(blk, BLOCK_TOTAL_WORD), GetWord(blk, TABLE_WORD),
      GetWord(blk, DATA_WORD))
  }

  predicate HasMagic(blk: Block) {
    GetWord(blk, MAGIC_WORD) == MAGIC
  }

  lemma WordsInOrder(blk: Block, fields: seq<Field>, w: nat)
    requires |fields| <= WORDS && (forall f :: 0 <= f < |fields| ==> fields[f].word == f) && w < |fields|
    ensures InTable(fields) && GetWord(PutFields(blk, fields), w) == fields[w].value % WORD
  {
    PutFieldsGet(blk, fields, w);
  }

  predicate SuperFits(lay: Layout) {
    lay.inodeTotal < WORD && lay.blockTotal < WORD && lay.tableStart < WORD && lay.dataStart < WORD
  }

  lemma SuperWord(lay: Layout, w: nat)
    requires SuperFits(lay) && w <= DATA_WORD
    ensures GetWord(SuperBlock(lay), w) == SuperValue(lay, w)
  {
    WordsInOrder(ZeroBlock(), SuperFields(lay), w);
    assert SuperFields(lay)[w].value == SuperValue(lay, w) < WORD;
  }

  lemma SuperRoundTrip(lay: Layout)
    requires SuperFits(lay)
    ensures HasMagic(SuperBlock(lay)) && LayoutIn(SuperBlock(lay)) == lay
  {
    SuperWord(lay, MAGIC_WORD);
    SuperWord(lay, INODE_TOTAL_WORD);
    SuperWord(lay, BLOCK_TOTAL_WORD);
    SuperWord(lay, TABLE_WORD);
    SuperWord(lay, DATA_WORD);
  }

  /** The superblock on the device, word by word, and nothing but zeros behind it. */
  lemma SuperWords(lay: Layout)
    requires SuperFits(lay)
    ensures var s := SuperBlock(lay);
      && Word(s, 0) == 0x990717 && Word(s, 4) == lay.inodeTotal && Word(s, 8) == lay.blockTotal
      && Word(s, 12) == lay.tableStart && Word(s, 16) == lay.dataStart
      && forall o :: 20 <= o < 512 ==> s[o] == 0
  {
    SuperRoundTrip(lay);
    SuperTail(ZeroBlock(), SuperFields(lay));
  }

  lemma {:induction false} SuperTail(blk: Block, fields: seq<Field>)
    requires InTable(fields) && forall f :: 0 <= f < |fields| ==> fields[f].word <= DATA_WORD
    ensures forall o :: 20 <= o < BLOCK_SIZE ==> PutFields(blk, fields)[o] == blk[o]
    decreases |fields|
  {
    if fields != [] {
      SuperTail(PutWord(blk, fields[0].word, fields[0].value), fields[1..]);
    }
  }

  // ---- naive_fill_super ----

  /** Where naive_fill_super reads them stand a superblock and the two bitmaps of a new filesystem. */
  predicate LaidOut(blocks: seq<Block>) {
    && MKFS_DATA <= |blocks| <= 8 * BITMAP_BYTES
    && HasMagic(blocks[SUPER_BLOCK]) && LayoutIn(blocks[SUPER_BLOCK]) == MkfsLayout(|blocks|)
    && Bitmap.Bits(BitsIn(blocks[BLOCK_MAP])) == MkfsBlocks() && Bitmap.Bits(BitsIn(blocks[INODE_MAP])) == {0}
  }

  /** naive_fill_super: -EINVAL unless block 1 has the magic number, and then a volume with the layout of block 1, the
      bitmaps of blocks 2 and 3, and a root inode of its own. */
  method FillSuper(blocks: array<Block>) returns (ret: int, v: Volume?)
    ensures ret == if blocks.Length <= SUPER_BLOCK then -EIO
                   else if !HasMagic(blocks[SUPER_BLOCK]) then -EINVAL
                   else if blocks.Length <= INODE_MAP then -EIO
                   else 0
    ensures v != null <==> ret == 0
    ensures v != null ==> v.Shape() && fresh(v) && fresh(v.blockBitmap) && fresh(v.inodeBitmap) && fresh(v.disk)
    ensures v != null ==>
      v.View() == FS(LayoutIn(blocks[SUPER_BLOCK]), Bitmap.Bits(BitsIn(blocks[BLOCK_MAP])),
                     Bitmap.Bits(BitsIn(blocks[INODE_MAP])), blocks[..], map[ROOT_INO := RootInode()])
    ensures ret == -22 <==> blocks.Length > 1 && Word(blocks[1], 0) != 0x990717
    ensures ret == -5 <==> blocks.Length <= 1 || (ret != -22 && blocks.Length <= 3)
    ensures v != null ==> v.Used() == Bitmap.Bits(BitsIn(blocks[2])) && v.InodesUsed() == Bitmap.Bits(BitsIn(blocks[3]))
    ensures v != null ==> v.lay == Layout(Word(blocks[1], 4), Word(blocks[1], 8), Word(blocks[1], 12),
        Word(blocks[1], 16))
    ensures v != null ==> v.View().inodes == map[1 := Inode(0x41ED, 0, 0, 2, 0, 0, [0, 0, 0, 0, 0, 0, 0, 0])]
    ensures LaidOut(blocks[..]) ==> v != null && v.Valid() && v.View() == Mounted(blocks[..])
  {
    if blocks.Length <= SUPER_BLOCK {
      return -EIO, null;
    }
    var super := blocks[SUPER_BLOCK];
    if GetWord(super, MAGIC_WORD) != MAGIC {
      return -EINVAL, null;
    }
    if blocks.Length <= INODE_MAP {
      return -EIO, null;
    }
    ret := 0;
    v := new Volume.Mount(LayoutIn(super), BitsIn(blocks[BLOCK_MAP]), BitsIn(blocks[INODE_MAP]), blocks[..]);
    assert NoPtrs() == [0, 0, 0, 0, 0, 0, 0, 0];
    if LaidOut(blocks[..]) {
      MountedIsSound(blocks[..]);
    }
  }

  // ---- format_disk ----

  /** An open device file with its position. */
  class DeviceFile {
    const blocks: array<Block>
    var pos: nat

    constructor (blocks: array<Block>)
      ensures this.blocks == blocks && pos == 0
    {
      this.blocks := blocks;
      pos := 0;
    }

    method Seek(to: nat)
      modifies this`pos
      ensures pos == to
    {
      pos := to;
    }

    /** write of a record or a block, inside one block. */
    method Write(bytes: seq<byte>)
      requires pos / BLOCK_SIZE < blocks.Length && pos % BLOCK_SIZE + |bytes| <= BLOCK_SIZE
      modifies this`pos, blocks
      ensures pos == old(pos) + |bytes|
      ensures var b := old(pos) / BLOCK_SIZE;
        blocks[..] == old(blocks[..])[b := Splice(old(blocks[b]), old(pos) % BLOCK_SIZE, bytes)]
    {
      var b := pos / BLOCK_SIZE;
      blocks[b] := Splice(blocks[b], pos % BLOCK_SIZE, bytes);
      pos := pos + |bytes|;
    }

    /** write of a whole block at a block boundary. */
    method WriteBlock(b: nat, blk: Block)
      requires pos == BLOCK_SIZE * b && b < blocks.Length
      modifies this`pos, blocks
      ensures pos == BLOCK_SIZE * (b + 1) && blocks[..] == old(blocks[..])[b := blk]
    {
      assert Splice(blocks[b], 0, blk) == blk;
      Write(blk);
    }
  }

  /** The layout for a device of the given size, and the two bitmaps before the root's data block is marked. */
  method FirstMaps(diskSize: nat) returns (lay: Layout, blockMap: array<bv8>, inodeMap: array<bv8>)
    ensures fresh(blockMap) && fresh(inodeMap) && blockMap != inodeMap
    ensures blockMap.Length == inodeMap.Length == BITMAP_BYTES
    ensures lay == MkfsLayout(diskSize / BLOCK_SIZE)
    ensures blockMap[..] == FirstBytes(0x1F) && inodeMap[..] == FirstBytes(0x01)
  {
    var inodeTotal := 128;
    var tableSize := (inodeTotal * 512 + BLOCK_SIZE - 1) / BLOCK_SIZE;
    var table := 4;
    lay := Layout(inodeTotal, diskSize / BLOCK_SIZE, table, table + tableSize);
    blockMap := new bv8[BITMAP_BYTES](_ => 0);
    inodeMap := new bv8[BITMAP_BYTES](_ => 0);
    blockMap[0] := 0x1F;
    inodeMap[0] := 0x01;
  }

  /** bmap[data_block_no / 8] |= 1 << (data_block_no % 8) */
  method MarkData(blockMap: array<bv8>, lay: Layout)
    requires blockMap.Length == BITMAP_BYTES && lay.dataStart == MKFS_DATA && blockMap[..] == FirstBytes(0x1F)
    modifies blockMap
    ensures blockMap[..] == LastMap()
  {
    var i, j := lay.dataStart / 8, lay.dataStart % 8;
    blockMap[i] := blockMap[i] | Bitmap.Mask(j);
    Bitmap.MaskValues();
    assert (0 as bv8) | 16 == 16;
  }

  function FirstBytes(first: bv8): Map {
    seq(BITMAP_BYTES, _ => 0 as bv8)[0 := first]
  }

  function LastMap(): Map {
    FirstBytes(0x1F)[MKFS_DATA / 8 := 16]
  }

  lemma FirstBits()
    ensures Bitmap.Bits(FirstBytes(0x1F)) == {0, 1, 2, 3, 4} && Bitmap.Bits(FirstBytes(0x01)) == {0}
  {
    Bitmap.MaskValues();
    forall n: nat | n < 8 * BITMAP_BYTES
      ensures Bitmap.BitAt(FirstBytes(0x1F), n) <==> n < 5
      ensures Bitmap.BitAt(FirstBytes(0x01), n) <==> n < 1
    {
      var i, j := n / 8, n % 8;
      assert i > 0 ==> FirstBytes(0x1F)[i] == 0 && FirstBytes(0x01)[i] == 0;
    }
  }

  /** In the end the block bitmap stands for blocks 0 to 4 and the root's data block. */
  lemma LastBits()
    ensures Bitmap.Bits(LastMap()) == MkfsBlocks()
  {
    FirstBits();
    Bitmap.MaskValues();
    var first, i := FirstBytes(0x1F), MKFS_DATA / 8;
    Bitmap.SetBit(first, i, 4);
    assert first[i] | Bitmap.Mask(4) == 16;
  }

  lemma MountedFromMaps(lay: Layout, blocks: seq<Block>)
    requires MKFS_DATA <= |blocks| <= 8 * BITMAP_BYTES && lay == MkfsLayout(|blocks|)
    ensures FS(lay, Bitmap.Bits(LastMap()), Bitmap.Bits(FirstBytes(0x01)), blocks, map[ROOT_INO := RootInode()])
        == Mounted(blocks)
    ensures OwnInv(Mounted(blocks))
  {
    FirstBits();
    LastBits();
    MountedIsSound(blocks);
  }

  /** What mkfs computes, handed to mount: the start state of every run. */
  method NewVolume(blocks: seq<Block>) returns (v: Volume)
    requires MKFS_DATA <= |blocks| <= 8 * BITMAP_BYTES
    ensures fresh(v) && fresh(v.blockBitmap) && fresh(v.inodeBitmap) && fresh(v.disk)
    ensures v.Valid() && v.View() == Mounted(blocks)
    ensures v.lay == Layout(128, |blocks|, 4, 132) && v.Used() == {0, 1, 2, 3, 4, 132} && v.InodesUsed() == {0}
  {
    var lay, blockMap, inodeMap := FirstMaps(BLOCK_SIZE * |blocks|);
    MarkData(blockMap, lay);
    MountedFromMaps(lay, blocks);
    v := new Volume.Mount(lay, blockMap[..], inodeMap[..], blocks);
  }

  /** The root inode format_disk stores: it has a block, and two records where iget expects a size. */
  function StoredRoot(uid: nat, gid: nat): Inode {
    Inode(0x4000 + 0x1ED, uid, gid, 2, 2 * DIR_RECORD_SIZE, 1, NoPtrs()[0 := MKFS_DATA])
  }

  function RecBytes(rec: Rec): seq<byte> {
    WordBytes(rec.ino) + rec.raw
  }

  function DotRecords(blk: Block): Block {
    PutRec(PutRec(blk, 0, Rec(ROOT_INO, Strncpy(DOT))), 1, Rec(ROOT_INO, Strncpy(DOTDOT)))
  }

  /** The device after format_disk. The first copy of the block bitmap has gone over the superblock, and the inode
      bitmap to block 2, where the second copy of the block bitmap has replaced it. */
  function Formatted(disk: seq<Block>, uid: nat, gid: nat): seq<Block>
    requires |disk| > MKFS_DATA
  {
    disk[0 := ZeroBlock()][SUPER_BLOCK := BytesOf(FirstBytes(0x1F))][BLOCK_MAP := BytesOf(LastMap())]
        [MKFS_TABLE := Encode(ZeroBlock(), ROOT_INO, StoredRoot(uid, gid))][MKFS_DATA := DotRecords(disk[MKFS_DATA])]
  }

  /** Every byte of a bitmap block but the first, and byte 16 of the final block bitmap, is zero. */
  lemma MapBytes()
    ensures forall o :: 0 <= o < 512 ==> BytesOf(FirstBytes(0x1F))[o] == if o == 0 then 0x1F else 0
    ensures forall o :: 0 <= o < 512 ==> BytesOf(LastMap())[o] == if o == 0 then 0x1F else if o == 16 then 0x10 else 0
  {
  }

  /** Permissions 0755, one block, and the number of the root's records for a size. */
  predicate IsRootImage(blk: Block, uid: nat, gid: nat) {
    && Word(blk, 0) == 0x41ED && Word(blk, 4) == 1 && Word(blk, 8) == 1 && Word(blk, 12) == 132 && Word(blk, 44) == 2
    && Word(blk, 48) == uid && Word(blk, 52) == gid && Word(blk, 56) == 2
    && (forall k :: 1 <= k < 8 ==> Word(blk, 12 + 4 * k) == 0) && forall o :: 60 <= o < 512 ==> blk[o] == 0
  }

  lemma StoredRootImage(uid: nat, gid: nat)
    requires uid < WORD && gid < WORD
    ensures IsRootImage(Encode(ZeroBlock(), ROOT_INO, StoredRoot(uid, gid)), uid, gid)
  {
    var n := StoredRoot(uid, gid);
    var blk := ImageWords(ZeroBlock(), ROOT_INO, n);
    EncodeIsImage(ZeroBlock(), ROOT_INO, n);
    assert n.ptrs[0] == 132 && Word(blk, 12 + 4 * 0) == 132;
    forall k | 1 <= k < 8
      ensures Word(blk, 12 + 4 * k) == 0
    {
      assert n.ptrs[k] == 0 && Word(ZeroBlock(), 12 + 4 * k) == 0;
    }
  }

  /** The root's two records, in front of what its block held before. */
  lemma DotRecordsAre(blk: Block)
    ensures var after := DotRecords(blk);
      && Word(after, 0) == 1 && after[4] == 46 && (forall o :: 5 <= o < 132 ==> after[o] == 0)
      && Word(after, 132) == 1 && after[136] == 46 && after[137] == 46 && (forall o :: 138 <= o < 264 ==> after[o] == 0)
      && forall o :: 264 <= o < 512 ==> after[o] == blk[o]
  {
    var one := PutRec(blk, 0, Rec(ROOT_INO, Strncpy(DOT)));
    var two := DotRecords(blk);
    PutRecBytes(blk, 0, Rec(ROOT_INO, Strncpy(DOT)));
    PutRecBytes(one, 1, Rec(ROOT_INO, Strncpy(DOTDOT)));
    assert forall o :: 4 <= o < 132 ==> one[o] == one[4..132][o - 4] && two[o] == one[o];
    assert forall o :: 136 <= o < 264 ==> two[o] == two[136..264][o - 136];
  }

  /** What format_disk leaves on a device, block by block: zeros in block 0, the first block bitmap in block 1, the
      final one in block 2, the root's image in block 4, its two records in block 132, and every other block as it
      was. */
  lemma FormattedIs(disk: seq<Block>, uid: nat, gid: nat) returns (after: seq<Block>)
    requires |disk| > 132 && uid < WORD && gid < WORD
    ensures after == Formatted(disk, uid, gid) && |after| == |disk|
    ensures forall o :: 0 <= o < 512 ==> after[0][o] == 0 && after[1][o] == if o == 0 then 0x1F else 0
    ensures forall o :: 0 <= o < 512 ==> after[2][o] == if o == 0 then 0x1F else if o == 16 then 0x10 else 0
    ensures IsRootImage(after[4], uid, gid) && after[132] == DotRecords(disk[132])
    ensures forall b :: 0 <= b < |disk| && b != 0 && b != 1 && b != 2 && b != 4 && b != 132 ==> after[b] == disk[b]
  {
    after := Formatted(disk, uid, gid);
    MapBytes();
    StoredRootImage(uid, gid);
  }

  /** The boot block, the superblock, and both bitmaps from the start of block 1 on. */
  method WriteHead(file: DeviceFile, lay: Layout, blockMap: Map, inodeMap: Map)
    requires file.pos == 0 && file.blocks.Length > MKFS_DATA
    modifies file`pos, file.blocks
    ensures file.blocks[..] == old(file.blocks[..])[0 := ZeroBlock()][1 := BytesOf(blockMap)][2 := BytesOf(inodeMap)]
  {
    file.WriteBlock(0, ZeroBlock());
    file.WriteBlock(1, SuperBlock(lay));
    file.Seek(BLOCK_SIZE);
    file.WriteBlock(1, BytesOf(blockMap));
    file.WriteBlock(2, BytesOf(inodeMap));
  }

  /** The root's inode and its two records, the rest of whose block stays as it was. */
  method WriteRoot(file: DeviceFile, table: nat, data: nat, uid: nat, gid: nat)
    requires table < file.blocks.Length && data < file.blocks.Length && table != data
    modifies file`pos, file.blocks
    ensures file.blocks[..] == old(file.blocks[..])[table := Encode(ZeroBlock(), ROOT_INO, StoredRoot(uid, gid))]
                                                   [data := DotRecords(old(file.blocks[data]))]
  {
    file.Seek(BLOCK_SIZE * table);
    file.WriteBlock(table, Encode(ZeroBlock(), ROOT_INO, StoredRoot(uid, gid)));
    file.Seek(BLOCK_SIZE * data);
    file.Write(RecBytes(Rec(ROOT_INO, Strncpy(DOT))));
    file.Write(RecBytes(Rec(ROOT_INO, Strncpy(DOTDOT))));
  }

  /** format_disk, write by write. diskSize is what stat reports. */
  method FormatDisk(file: DeviceFile, diskSize: nat, uid: nat, gid: nat)
    requires file.pos == 0 && file.blocks.Length > MKFS_DATA
    modifies file, file.blocks
    ensures file.blocks[..] == Formatted(old(file.blocks[..]), uid, gid)
  {
    var lay, blockMap, inodeMap := FirstMaps(diskSize);
    WriteHead(file, lay, blockMap[..], inodeMap[..]);
    WriteRoot(file, lay.tableStart, lay.dataStart, uid, gid);
    MarkData(blockMap, lay);
    file.Seek(BLOCK_SIZE * 2);
    file.WriteBlock(2, BytesOf(blockMap[..]));
  }

  /** No device format_disk has written can be mounted: its block 1 starts with the block bitmap, not the magic. */
  lemma FormattedHasNoMagic(disk: seq<Block>, uid: nat, gid: nat)
    requires |disk| > MKFS_DATA
    ensures !HasMagic(Formatted(disk, uid, gid)[SUPER_BLOCK])
  {
    var blk := BytesOf(FirstBytes(0x1F));
    assert blk[0] == 0x1F && blk[1] == 0 && blk[2] == 0 && blk[3] == 0;
    assert Formatted(disk, uid, gid)[SUPER_BLOCK] == blk;
  }

  /** A device on which the superblock and both bitmaps had gone to the blocks mount reads would mount as a new
      volume. */
  lemma WouldMount(disk: seq<Block>)
    requires MKFS_DATA <= |disk| <= 8 * BITMAP_BYTES
    ensures LaidOut(disk[SUPER_BLOCK := SuperBlock(MkfsLayout(|disk|))][BLOCK_MAP := BytesOf(LastMap())]
                        [INODE_MAP := BytesOf(FirstBytes(0x01))])
  {
    FirstBits();
    LastBits();
    MapRoundTrip(LastMap());
    MapRoundTrip(FirstBytes(0x01));
    SuperRoundTrip(MkfsLayout(|disk|));
  }

  method FormatAndMount(blocks: array<Block>, diskSize: nat, uid: nat, gid: nat) returns (ret: int, v: Volume?)
    requires blocks.Length > MKFS_DATA
    modifies blocks
    ensures blocks[..] == Formatted(old(blocks[..]), uid, gid)
    ensures ret == -EINVAL && v == null
  {
    FormattedHasNoMagic(blocks[..], uid, gid);
    var file := new DeviceFile(blocks);
    FormatDisk(file, diskSize, uid, gid);
    ret, v := FillSuper(blocks);
  }
}
