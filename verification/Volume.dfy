/** The mounted volume as the kernel module holds it: two bitmap buffers, the buffered device and the in-memory
    inodes. */
module Volume {
  import opened Bytes
  import opened State
  import opened Steps
  import Bitmap

  /** A bit found clear, all bits from start up to it being set, is the one to take. */
  lemma FirstClear(bits: seq<bv8>, start: nat, total: nat, i: nat, j: nat)
    requires i < |bits| && i < total / 8 && j < 8 && start <= 8 * i + j
    requires !Bitmap.BitIn(bits[i], j) && forall n :: start <= n < 8 * i + j ==> n in Bitmap.Bits(bits)
    ensures LeastFree(Bitmap.Bits(bits), start, total / 8 * 8) == Some(8 * i + j) && 8 * i + j < total
  {
    Bitmap.BitMeans(bits, i, j);
    LeastFreeIs(Bitmap.Bits(bits), start, total / 8 * 8, 8 * i + j);
  }

  /** struct naive_inode_info with its embedded VFS inode. */
  class InodeInfo {
    const ino: nat
    var mode: nat
    var uid: nat
    var gid: nat
    var nlink: nat
    var size: nat
    var blockCount: nat
    var blockPointers: Ptrs

    /** naive_alloc_inode: everything zero. */
    constructor (ino: nat)
      ensures this.ino == ino && Value() == Inode(0, 0, 0, 0, 0, 0, NoPtrs())
    {
      this.ino := ino;
      mode, uid, gid, nlink, size, blockCount := 0, 0, 0, 0, 0, 0;
      blockPointers := NoPtrs();
    }

    function Value(): Inode
      reads this
    {
      Inode(mode, uid, gid, nlink, size, blockCount, blockPointers)
    }
  }

  class Volume {
    const lay: Layout
    const blockBitmap: array<bv8>
    const inodeBitmap: array<bv8>
    const disk: array<Block>
    var icache: map<nat, InodeInfo>

    /** naive_fill_super: the bitmaps are copied into buffers of their own, and the root inode is made in memory. */
    constructor Mount(lay: Layout, blockMap: seq<bv8>, inodeMap: seq<bv8>, blocks: seq<Block>)
      requires |blockMap| == |inodeMap| == BITMAP_BYTES
      ensures Shape() && fresh(blockBitmap) && fresh(inodeBitmap) && fresh(disk)
      ensures View() == FS(lay, Bitmap.Bits(blockMap), Bitmap.Bits(inodeMap), blocks, map[ROOT_INO := RootInode()])
    {
      this.lay := lay;
      blockBitmap := new bv8[BITMAP_BYTES](i requires 0 <= i < |blockMap| => blockMap[i]);
      inodeBitmap := new bv8[BITMAP_BYTES](i requires 0 <= i < |inodeMap| => inodeMap[i]);
      disk := new Block[|blocks|](i requires 0 <= i < |blocks| => blocks[i]);
      var root := new InodeInfo(ROOT_INO);
      root.mode := 0x4000 + 0x1ED;
      root.nlink := 2;
      icache := map[ROOT_INO := root];
      new;
      assert blockBitmap[..] == blockMap && inodeBitmap[..] == inodeMap && disk[..] == blocks;
      assert Inodes() == map[ROOT_INO := RootInode()];
    }

    ghost function Used(): set<nat>
      reads blockBitmap
    {
      Bitmap.Bits(blockBitmap[..])
    }

    ghost function InodesUsed(): set<nat>
      reads inodeBitmap
    {
      Bitmap.Bits(inodeBitmap[..])
    }

    ghost function Inodes(): map<nat, Inode>
      reads this, icache.Values
    {
      map i | i in icache :: icache[i].Value()
    }

    /** The filesystem value the volume holds. */
    ghost function View(): FS
      reads this, blockBitmap, inodeBitmap, disk, icache.Values
    {
      FS(lay, Used(), InodesUsed(), disk[..], Inodes())
    }

    ghost predicate Shape()
      reads this
    {
      && blockBitmap != inodeBitmap && disk as object != blockBitmap && disk as object != inodeBitmap
      && blockBitmap.Length == inodeBitmap.Length == BITMAP_BYTES
      && (forall i :: i in icache ==> icache[i].ino == i)
    }

    ghost predicate Valid()
      reads this, blockBitmap, inodeBitmap, disk, icache.Values
    {
      Shape() && OwnInv(View())
    }

    ghost predicate Holds(n: InodeInfo)
      reads this
    {
      n.ino in icache && icache[n.ino] == n
    }

    // ---- naivefs_super.c ----

    /** naive_find_free_inode: 0 when there is none. */
    method FindFreeInode() returns (ino: nat)
      requires Shape() && LayoutOk(lay)
      ensures ino == 0 <==> AllSet(InodesUsed(), 0, lay.inodeTotal / 8 * 8)
      ensures ino != 0 ==> IsFirstClear(InodesUsed(), 0, lay.inodeTotal / 8 * 8, ino - 1)
      ensures ino == match FreeInode(View()) case None => 0 case Some(n) => n
    {
      var total := lay.inodeTotal;
      ghost var bits := inodeBitmap[..];
      for i := 0 to total / 8
        invariant forall n :: 0 <= n < 8 * i ==> n in Bitmap.Bits(bits)
      {
        if inodeBitmap[i] != 0xFF {
          for j := 0 to 8
            invariant forall n :: 0 <= n < 8 * i + j ==> n in Bitmap.Bits(bits)
          {
            Bitmap.BitMeans(bits, i, j);
            if !Bitmap.BitIn(inodeBitmap[i], j) {
              LeastFreeIs(InodesUsed(), 0, total / 8 * 8, 8 * i + j);
              if i * 8 + j + 1 > total {
                assert false; // the scan of whole bytes never gets here
              }
              return i * 8 + j + 1;
            }
          }
        } else {
          Bitmap.FullByteBits(bits, i);
        }
      }
      NoneFree(InodesUsed(), 0, total / 8 * 8);
      return 0;
    }

    /** The inner loop: the first clear bit of a byte, or 8. */
    static method ClearBitFrom(byte: bv8, start: nat, ghost bits: seq<bv8>, ghost i: nat) returns (j: nat)
      requires start <= 8 && i < |bits| && bits[i] == byte
      ensures start <= j <= 8 && (j < 8 ==> !Bitmap.BitIn(byte, j))
      ensures AllSet(Bitmap.Bits(bits), 8 * i + start, 8 * i + j)
    {
      for j' := start to 8
        invariant AllSet(Bitmap.Bits(bits), 8 * i + start, 8 * i + j')
      {
        if !Bitmap.BitIn(byte, j') {
          return j';
        }
        Bitmap.BitMeans(bits, i, j');
      }
      return 8;
    }

    /** bmap[i] |= 1 << j */
    method SetBlockBit(i: nat, j: nat)
      requires Shape() && i < BITMAP_BYTES && j < 8
      modifies blockBitmap
      ensures Used() == old(Used()) + {8 * i + j}
    {
      ghost var bits := blockBitmap[..];
      Bitmap.SetBit(bits, i, j);
      blockBitmap[i] := blockBitmap[i] | Bitmap.Mask(j);
      assert blockBitmap[..] == bits[i := bits[i] | Bitmap.Mask(j)];
    }

    /** naive_alloc_block: sets one bit and returns its number, or -ENOSPC. */
    method AllocBlock() returns (block: int)
      requires Shape() && LayoutOk(lay)
      modifies blockBitmap
      ensures block == -28 <==> AllSet(old(Used()), lay.dataStart, lay.blockTotal / 8 * 8)
      ensures block != -28 ==> IsFirstClear(old(Used()), lay.dataStart, lay.blockTotal / 8 * 8, block)
      ensures match FreeBlock(old(View()))
              case None => block == -ENOSPC && Used() == old(Used())
              case Some(b) => block == b && Used() == old(Used()) + {b}
    {
      LeastFreeMeans(Used(), lay.dataStart, lay.blockTotal / 8 * 8);
      var total, start := lay.blockTotal, lay.dataStart;
      var startByte, startBit := start / 8, start % 8;
      ghost var bits := blockBitmap[..];
      for i := startByte to if total / 8 < startByte then startByte else total / 8
        invariant blockBitmap[..] == bits && AllSet(Bitmap.Bits(bits), start, 8 * i)
      {
        var j := ClearBitFrom(blockBitmap[i], if i == startByte then startBit else 0, bits, i);
        if j < 8 {
          var block_no := i * 8 + j;
          FirstClear(bits, start, total, i, j);
          if block_no >= total {
            assert false; // nor here
          }
          SetBlockBit(i, j);
          return block_no;
        }
      }
      NoneFree(Used(), start, total / 8 * 8);
      return -ENOSPC;
    }

    /** inode_bitmap[(ino - 1) / 8] |= 1 << ((ino - 1) % 8) */
    method SetInodeBit(ino: nat)
      requires Shape() && 1 <= ino <= 8 * BITMAP_BYTES
      modifies inodeBitmap
      ensures InodesUsed() == old(InodesUsed()) + {ino - 1}
    {
      var i, j := (ino - 1) / 8, (ino - 1) % 8;
      assert 8 * i + j == ino - 1;
      ghost var bits := inodeBitmap[..];
      Bitmap.SetBit(bits, i, j);
      inodeBitmap[i] := inodeBitmap[i] | Bitmap.Mask(j);
      assert inodeBitmap[..] == bits[i := bits[i] | Bitmap.Mask(j)];
    }

    /** inode_bitmap[(ino - 1) / 8] &= ~(1 << ((ino - 1) % 8)) */
    method ClearInodeBit(ino: nat)
      requires Shape() && 1 <= ino <= 8 * BITMAP_BYTES
      modifies inodeBitmap
      ensures InodesUsed() == old(InodesUsed()) - {ino - 1}
    {
      var i, j := (ino - 1) / 8, (ino - 1) % 8;
      assert 8 * i + j == ino - 1;
      ghost var bits := inodeBitmap[..];
      Bitmap.ClearBit(bits, i, j);
      inodeBitmap[i] := inodeBitmap[i] & !Bitmap.Mask(j);
      assert inodeBitmap[..] == bits[i := bits[i] & !Bitmap.Mask(j)];
    }

    /** naive_free_block. */
    method FreeBlockBit(block: nat)
      requires Shape()
      modifies blockBitmap
      ensures Used() == old(Used()) - {block}
    {
      var i, j := block / 8, block % 8;
      if i < BITMAP_BYTES {
        ghost var bits := blockBitmap[..];
        Bitmap.ClearNumber(bits, block);
        blockBitmap[i] := blockBitmap[i] & !Bitmap.Mask(j);
        assert blockBitmap[..] == bits[i := bits[i] & !Bitmap.Mask(j)];
      } else {
        Bitmap.PastTheMap(blockBitmap[..], block);
      }
    }
  }

  /** When only the object of one number differs from before, so does only that number's inode. */
  lemma OneInode(v: Volume, dir: InodeInfo, before: map<nat, Inode>)
    requires v.Shape() && v.Holds(dir) && before.Keys == v.icache.Keys
    requires forall i :: i in v.icache && v.icache[i] != dir ==> v.icache[i].Value() == before[i]
    ensures v.Inodes() == before[dir.ino := dir.Value()]
  {
    assert forall i :: i in v.icache && i != dir.ino ==> v.icache[i] != dir;
  }
}
