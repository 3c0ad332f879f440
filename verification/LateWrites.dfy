/** Writing through a descriptor after unlink: naive_file_write on an inode whose number is free again. The blocks it
    takes belong to no inode anybody will release. */
module LateWrites {
  import opened Bytes
  import opened State
  import opened Ownership
  import opened Accounting
  import opened FileData
  import opened FileWrite

  ghost predicate Unshared(fs: FS, n: Inode) {
    && (forall k :: 0 <= k < BLOCK_PER_FILE && k < n.count ==> n.ptrs[k] in fs.used && !IsOwned(fs, n.ptrs[k]))
    && DistinctPtrs(n)
  }

  /** n is a file that unlink has released and a descriptor still holds; the inode table lies behind the superblock. */
  ghost predicate Released(fs: FS, n: Inode) {
    1 < fs.lay.tableStart && InodeOk(fs.lay, n) && !IsDir(n.mode) && Unshared(fs, n)
  }

  /** What naive_unlink leaves in the inode it releases: no blocks, no size, no link. */
  function Cleared(n: Inode): Inode {
    n.(nlink := 0, size := 0, count := 0, ptrs := NoPtrs())
  }

  lemma ClearedIsReleased(fs: FS, n: Inode)
    requires !IsDir(n.mode) && 1 < fs.lay.tableStart
    ensures Released(fs, Cleared(n))
  {
  }

  // ---- a number past the table ----

  /** The number that stands for the released inode: one that no live inode can have. */
  function PastTable(fs: FS): nat {
    fs.lay.inodeTotal + 1
  }

  /** The filesystem with the released inode under that number. */
  function Holding(fs: FS, n: Inode): FS
    requires 1 < fs.lay.tableStart
  {
    var lay := fs.lay.(inodeTotal := fs.lay.inodeTotal + 1, tableStart := fs.lay.tableStart - 1);
    FS(lay, fs.used, fs.iused + {fs.lay.inodeTotal}, fs.disk, fs.inodes[PastTable(fs) := n])
  }

  /** And without it again. */
  function LettingGo(fs: FS, held: FS): FS {
    FS(fs.lay, held.used, fs.iused, held.disk, fs.inodes)
  }

  lemma HoldingOwns(fs: FS, n: Inode, i: int, k: int, b: int)
    requires OwnInv(fs) && 1 < fs.lay.tableStart
    ensures Owns(Holding(fs, n), i, k, b) <==>
      if i == PastTable(fs) then 0 <= k < BLOCK_PER_FILE && k < n.count && n.ptrs[k] == b else Owns(fs, i, k, b)
  {
  }

  lemma HoldingOwn(fs: FS, n: Inode)
    requires OwnInv(fs) && Released(fs, n)
    ensures OwnInv(Holding(fs, n)) && FileIn(Holding(fs, n), PastTable(fs))
  {
    var held, p := Holding(fs, n), PastTable(fs);
    forall i, k, b | Owns(held, i, k, b)
      ensures b in held.used
    {
      HoldingOwns(fs, n, i, k, b);
    }
    forall i, k, j, l, b | Owns(held, i, k, b) && Owns(held, j, l, b)
      ensures i == j && k == l
    {
      HoldingOwns(fs, n, i, k, b);
      HoldingOwns(fs, n, j, l, b);
      assert i != p && j == p ==> IsOwned(fs, b);
      assert i == p && j != p ==> IsOwned(fs, b);
    }
  }

  lemma HoldingAccount(fs: FS, n: Inode, extra: set<nat>, lost: set<nat>)
    requires Inv(fs, extra, lost) && Released(fs, n)
    ensures Inv(Holding(fs, n), extra - BlocksOf(n), lost - {fs.lay.inodeTotal})
    ensures FileIn(Holding(fs, n), PastTable(fs)) && BlocksOf(n) <= extra
  {
    HoldingOwn(fs, n);
    var held, p := Holding(fs, n), PastTable(fs);
    forall b
      ensures IsOwned(held, b) <==> IsOwned(fs, b) || b in BlocksOf(n)
    {
      HeldIsOwned(fs, n, b);
    }
  }

  lemma HeldIsOwned(fs: FS, n: Inode, b: int)
    requires OwnInv(fs) && Released(fs, n)
    ensures IsOwned(Holding(fs, n), b) <==> IsOwned(fs, b) || b in BlocksOf(n)
  {
    var held, p := Holding(fs, n), PastTable(fs);
    if IsOwned(held, b) {
      var i, k :| Owns(held, i, k, b);
      HoldingOwns(fs, n, i, k, b);
    }
    if IsOwned(fs, b) {
      var i, k :| Owns(fs, i, k, b);
      HoldingOwns(fs, n, i, k, b);
    }
    if b in BlocksOf(n) {
      var k :| 0 <= k < BLOCK_PER_FILE && k < n.count && n.ptrs[k] == b;
      HoldingOwns(fs, n, p, k, b);
    }
  }

  /** held is the filesystem fs has become, with the released inode n under its number. */
  ghost predicate Carries(fs: FS, held: FS, n: Inode) {
    && 1 < fs.lay.tableStart && PastTable(fs) in held.inodes && held.inodes[PastTable(fs)] == n && !IsDir(n.mode)
    && held.lay == fs.lay.(inodeTotal := fs.lay.inodeTotal + 1, tableStart := fs.lay.tableStart - 1)
    && held.inodes == fs.inodes[PastTable(fs) := n] && held.iused == fs.iused + {fs.lay.inodeTotal}
  }

  lemma LetGoOwns(fs: FS, held: FS, n: Inode, i: int, k: int, b: int)
    requires OwnInv(fs) && OwnInv(held) && Carries(fs, held, n)
    ensures Owns(LettingGo(fs, held), i, k, b) <==> Owns(held, i, k, b) && i != PastTable(fs)
  {
  }

  lemma LetGoOwn(fs: FS, held: FS, n: Inode)
    requires OwnInv(fs) && OwnInv(held) && Carries(fs, held, n)
    ensures OwnInv(LettingGo(fs, held)) && Released(LettingGo(fs, held), n)
  {
    var after, p := LettingGo(fs, held), PastTable(fs);
    forall i, k, b
      ensures Owns(after, i, k, b) <==> Owns(held, i, k, b) && i != p
    {
      LetGoOwns(fs, held, n, i, k, b);
    }
    forall i | i in after.inodes
      ensures 1 <= i <= after.lay.inodeTotal && i - 1 in after.iused && InodeOk(after.lay, after.inodes[i])
    {
      assert InodeOk(held.lay, held.inodes[i]);
    }
    LetGoUnshared(fs, held, after, n);
  }

  lemma LetGoUnshared(fs: FS, held: FS, after: FS, n: Inode)
    requires OwnInv(held) && Carries(fs, held, n) && after.used == held.used
    requires forall i, k, b :: Owns(after, i, k, b) <==> Owns(held, i, k, b) && i != PastTable(fs)
    ensures Unshared(after, n)
  {
    forall k, l | 0 <= k < BLOCK_PER_FILE && k < n.count && 0 <= l < BLOCK_PER_FILE && l < n.count
      ensures n.ptrs[k] in after.used && !IsOwned(after, n.ptrs[k]) && (k != l ==> n.ptrs[k] != n.ptrs[l])
    {
      assert Owns(held, PastTable(fs), k, n.ptrs[k]) && Owns(held, PastTable(fs), l, n.ptrs[l]);
    }
  }

  lemma LetGoAccount(fs: FS, held: FS, n: Inode, extra: set<nat>, lost: set<nat>)
    requires OwnInv(fs) && OwnInv(held) && Carries(fs, held, n)
    requires Account(held, extra, lost - {fs.lay.inodeTotal})
    requires forall m: nat :: m in fs.iused <==> m + 1 in fs.inodes || m in lost
    requires forall m :: m in lost ==> m + 1 !in fs.inodes
    ensures Account(LettingGo(fs, held), extra + BlocksOf(n), lost)
  {
    var after, p := LettingGo(fs, held), PastTable(fs);
    LetGoOwn(fs, held, n);
    forall b
      ensures IsOwned(held, b) <==> IsOwned(after, b) || b in BlocksOf(n)
      ensures IsOwned(after, b) ==> b !in BlocksOf(n)
    {
      LetGoIsOwned(fs, held, n, b);
    }
  }

  lemma LetGoIsOwned(fs: FS, held: FS, n: Inode, b: int)
    requires OwnInv(fs) && OwnInv(held) && Carries(fs, held, n)
    ensures IsOwned(held, b) <==> IsOwned(LettingGo(fs, held), b) || b in BlocksOf(n)
    ensures IsOwned(LettingGo(fs, held), b) ==> b !in BlocksOf(n)
  {
    var after, p := LettingGo(fs, held), PastTable(fs);
    if IsOwned(held, b) {
      var i, k :| Owns(held, i, k, b);
      LetGoOwns(fs, held, n, i, k, b);
    }
    if b in BlocksOf(n) {
      var k :| 0 <= k < BLOCK_PER_FILE && k < n.count && n.ptrs[k] == b;
      assert Owns(held, p, k, b);
    }
    if IsOwned(after, b) {
      var i, k :| Owns(after, i, k, b);
      LetGoOwns(fs, held, n, i, k, b);
    }
  }

  // ---- the write ----

  /** naive_file_write on a released inode: the filesystem, the inode, and the return code. */
  ghost function LateWrite(fs: FS, n: Inode, pos: nat, buf: seq<byte>): (FS, Inode, int)
    requires OwnInv(fs) && Released(fs, n)
  {
    HoldingOwn(fs, n);
    WriteTouchesOnly(Holding(fs, n), PastTable(fs), pos, buf);
    var (held, ret, _) := Write(Holding(fs, n), PastTable(fs), pos, buf);
    (LettingGo(fs, held), held.inodes[PastTable(fs)], ret)
  }

  /** The blocks it takes. */
  ghost function LateBlocks(fs: FS, n: Inode, pos: nat, buf: seq<byte>): set<nat>
    requires OwnInv(fs) && Released(fs, n)
  {
    BlocksOf(LateWrite(fs, n, pos, buf).1) - BlocksOf(n)
  }

  lemma HeldWrite(fs: FS, n: Inode, pos: nat, buf: seq<byte>) returns (held: FS, m: Inode)
    requires OwnInv(fs) && Released(fs, n)
    ensures FileIn(Holding(fs, n), PastTable(fs)) && held == Write(Holding(fs, n), PastTable(fs), pos, buf).0
    ensures OwnInv(held) && Carries(fs, held, m) && |held.disk| == |fs.disk|
    ensures LateWrite(fs, n, pos, buf) == (LettingGo(fs, held), m, Write(Holding(fs, n), PastTable(fs), pos, buf).1)
    ensures n.count <= m.count && forall k :: 0 <= k < BLOCK_PER_FILE && k < n.count ==> m.ptrs[k] == n.ptrs[k]
  {
    HoldingOwn(fs, n);
    var p := PastTable(fs);
    WriteTouchesOnly(Holding(fs, n), p, pos, buf);
    WriteInv(Holding(fs, n), p, pos, buf);
    held := Write(Holding(fs, n), p, pos, buf).0;
    m := held.inodes[p];
  }

  lemma MoreBlocks(n: Inode, m: Inode)
    requires n.count <= m.count && forall k :: 0 <= k < BLOCK_PER_FILE && k < n.count ==> m.ptrs[k] == n.ptrs[k]
    ensures BlocksOf(n) <= BlocksOf(m)
  {
    forall b | b in BlocksOf(n)
      ensures b in BlocksOf(m)
    {
      var k :| 0 <= k < BLOCK_PER_FILE && k < n.count && n.ptrs[k] == b;
      assert m.ptrs[k] == b;
    }
  }

  lemma LateFrame(fs: FS, n: Inode, held: FS, m: Inode)
    requires OwnInv(fs) && 1 < fs.lay.tableStart && Carries(fs, held, m) && |held.disk| == |fs.disk|
    requires Frame(Holding(fs, n), held, {PastTable(fs)})
    ensures Frame(fs, LettingGo(fs, held), {})
  {
    var after := LettingGo(fs, held);
    forall i | i in fs.inodes
      ensures SameFor(fs, after, i)
    {
      assert SameFor(Holding(fs, n), held, i);
      forall k, b | Owns(fs, i, k, b) && 0 <= b < |fs.disk|
        ensures after.disk[b] == fs.disk[b]
      {
        HoldingOwns(fs, n, i, k, b);
      }
    }
  }

  lemma KeptIsApart(fs: FS, held: FS, m: Inode, extra: set<nat>, lost: set<nat>)
    requires Inv(held, extra, lost) && Carries(fs, held, m)
    ensures extra !! BlocksOf(m)
  {
    forall b | b in BlocksOf(m)
      ensures b !in extra
    {
      var k :| 0 <= k < BLOCK_PER_FILE && k < m.count && m.ptrs[k] == b;
      assert Owns(held, PastTable(fs), k, b);
    }
  }

  lemma HeldKeeps(fs: FS, n: Inode, pos: nat, buf: seq<byte>, extra: set<nat>, lost: set<nat>)
    returns (held: FS, m: Inode)
    requires Inv(fs, extra, lost) && Released(fs, n)
    ensures Carries(fs, held, m) && LateWrite(fs, n, pos, buf).0 == LettingGo(fs, held)
    ensures LateWrite(fs, n, pos, buf).1 == m
    ensures BlocksOf(n) <= extra && Inv(held, extra - BlocksOf(n), lost - {fs.lay.inodeTotal})
    ensures Frame(fs, LettingGo(fs, held), {}) && BlocksOf(n) <= BlocksOf(m)
  {
    held, m := HeldWrite(fs, n, pos, buf);
    HoldingAccount(fs, n, extra, lost);
    var _ := WriteKeeps(Holding(fs, n), PastTable(fs), pos, buf, extra - BlocksOf(n), lost - {fs.lay.inodeTotal});
    LateFrame(fs, n, held, m);
    MoreBlocks(n, m);
  }

  lemma LetGoKeeps(fs: FS, held: FS, m: Inode, kept: set<nat>, extra: set<nat>, lost: set<nat>)
    requires Inv(fs, extra, lost) && Carries(fs, held, m) && Inv(held, kept, lost - {fs.lay.inodeTotal})
    ensures Inv(LettingGo(fs, held), kept + BlocksOf(m), lost) && Released(LettingGo(fs, held), m)
    ensures kept !! BlocksOf(m)
  {
    LetGoOwn(fs, held, m);
    LetGoAccount(fs, held, m, kept, lost);
    KeptIsApart(fs, held, m, kept, lost - {fs.lay.inodeTotal});
  }

  lemma Moved(extra: set<nat>, few: set<nat>, more: set<nat>)
    requires few <= extra && few <= more && (extra - few) !! more
    ensures extra - few + more == extra + (more - few) && (more - few) !! extra && |more - few| == |more| - |few|
  {
    assert more == (more - few) + few;
  }

  /** A late write keeps ownership, touches no inode and no block of one, and takes for nobody exactly the blocks its
      inode gains; the inode stays one that no other shares blocks with. */
  lemma LateWriteKeeps(fs: FS, n: Inode, pos: nat, buf: seq<byte>, extra: set<nat>, lost: set<nat>)
    returns (after: FS, m: Inode)
    requires Inv(fs, extra, lost) && Released(fs, n)
    ensures after == LateWrite(fs, n, pos, buf).0 && m == LateWrite(fs, n, pos, buf).1
    ensures Inv(after, extra + LateBlocks(fs, n, pos, buf), lost) && Released(after, m)
    ensures Frame(fs, after, {}) && after.inodes == fs.inodes && after.iused == fs.iused
    ensures BlocksOf(n) <= extra && LateBlocks(fs, n, pos, buf) !! extra
    ensures |LateBlocks(fs, n, pos, buf)| == m.count - n.count
  {
    var held;
    held, m := HeldKeeps(fs, n, pos, buf, extra, lost);
    after := LettingGo(fs, held);
    LetGoKeeps(fs, held, m, extra - BlocksOf(n), extra, lost);
    Moved(extra, BlocksOf(n), BlocksOf(m));
    BlocksCard(n);
    BlocksCard(m);
  }

  /** What a late write put in, a read through the same descriptor returns. */
  lemma LateWriteThenRead(fs: FS, n: Inode, pos: nat, buf: seq<byte>) returns (after: FS, m: Inode, ret: int)
    requires OwnInv(fs) && Released(fs, n)
    ensures (after, m, ret) == LateWrite(fs, n, pos, buf)
    ensures ret >= 0 ==> ReadBytes(after.disk, m, pos, |buf|, {}) == buf
  {
    var held;
    held, m := HeldWrite(fs, n, pos, buf);
    after, m, ret := LateWrite(fs, n, pos, buf).0, LateWrite(fs, n, pos, buf).1, LateWrite(fs, n, pos, buf).2;
    if ret >= 0 {
      WriteThenRead(Holding(fs, n), PastTable(fs), pos, buf);
    }
  }
}
