/** The value of a mounted filesystem: both bitmaps, the device and the in-memory inodes. */
module State {
  import opened Bytes

  const BLOCK_PER_FILE := 8
  const MAX_FILE_SIZE := BLOCK_SIZE * BLOCK_PER_FILE
  const BITMAP_BYTES := 512
  const ROOT_INO := 1

  const ENOENT := 2
  const ENOTDIR := 20
  const EFBIG := 27
  const ENOSPC := 28
  const ENOTEMPTY := 39

  datatype Option<T> = None | Some(value: T)

  type Ptrs = p: seq<nat> | |p| == BLOCK_PER_FILE witness seq(8, _ => 0)

  function NoPtrs(): Ptrs {
    seq(BLOCK_PER_FILE, _ => 0)
  }

  /** The superblock fields the allocators use. */
  datatype Layout = Layout(inodeTotal: nat, blockTotal: nat, tableStart: nat, dataStart: nat)

  datatype Inode = Inode(mode: nat, uid: nat, gid: nat, nlink: nat, size: nat, count: nat, ptrs: Ptrs)

  /** used holds the set bits of the block bitmap, iused those of the inode bitmap (inode number minus one). */
  datatype FS = FS(lay: Layout, used: set<nat>, iused: set<nat>, disk: seq<Block>, inodes: map<nat, Inode>)

  /** S_ISDIR: the file type in the top four mode bits is S_IFDIR (octal 040000). */
  predicate IsDir(mode: nat) {
    mode / 0x1000 % 0x10 == 4
  }

  predicate LayoutOk(lay: Layout) {
    && 0 < lay.tableStart
    && lay.tableStart + lay.inodeTotal <= lay.dataStart <= lay.blockTotal <= 8 * BITMAP_BYTES
    && 1 <= lay.inodeTotal
  }

  // ---- the allocators' search ----

  /** The least number in [lo, hi) that is not in used. */
  function LeastFree(used: set<nat>, lo: nat, hi: nat): (r: Option<nat>)
    ensures r.None? ==> forall b :: lo <= b < hi ==> b in used
    ensures r.Some? ==> lo <= r.value < hi && r.value !in used && forall b :: lo <= b < r.value ==> b in used
    decreases hi - lo
  {
    if lo >= hi then None else if lo !in used then Some(lo) else LeastFree(used, lo + 1, hi)
  }

  lemma LeastFreeIs(used: set<nat>, lo: nat, hi: nat, b: nat)
    requires lo <= b < hi && b !in used && forall c :: lo <= c < b ==> c in used
    ensures LeastFree(used, lo, hi) == Some(b)
  {
    var r := LeastFree(used, lo, hi);
    assert r.Some?;
    assert !(r.value < b) && !(b < r.value);
  }

  lemma NoneFree(used: set<nat>, lo: nat, hi: nat)
    requires forall c :: lo <= c < hi ==> c in used
    ensures LeastFree(used, lo, hi) == None
  {
  }

  /** Every bit from lo up to hi is set. */
  predicate AllSet(bits: set<nat>, lo: int, hi: int) {
    forall b :: lo <= b < hi ==> b in bits
  }

  /** Bit b is the first clear one from lo on, and lies below hi. */
  predicate IsFirstClear(bits: set<nat>, lo: int, hi: int, b: int) {
    lo <= b < hi && b !in bits && AllSet(bits, lo, b)
  }

  lemma LeastFreeMeans(bits: set<nat>, lo: nat, hi: nat)
    ensures LeastFree(bits, lo, hi).None? <==> AllSet(bits, lo, hi)
    ensures LeastFree(bits, lo, hi).Some? ==> IsFirstClear(bits, lo, hi, LeastFree(bits, lo, hi).value)
  {
  }

  /** naive_find_free_inode: whole bytes of the bitmap only; the number is the bit plus one. */
  function FreeInode(fs: FS): Option<nat> {
    match LeastFree(fs.iused, 0, fs.lay.inodeTotal / 8 * 8)
    case None => None
    case Some(bit) => Some(bit + 1)
  }

  /** naive_alloc_block: whole bytes of the bitmap only, from the first data block on. */
  function FreeBlock(fs: FS): Option<nat> {
    LeastFree(fs.used, fs.lay.dataStart, fs.lay.blockTotal / 8 * 8)
  }

  // ---- block ownership ----

  predicate Owns(fs: FS, i: int, k: int, b: int) {
    i in fs.inodes && 0 <= k < BLOCK_PER_FILE && k < fs.inodes[i].count && fs.inodes[i].ptrs[k] == b
  }

  /** Pointer k is set exactly when k < count, and every set pointer names a data block. */
  predicate InodeOk(lay: Layout, n: Inode) {
    && n.count <= BLOCK_PER_FILE
    && (forall k :: 0 <= k < BLOCK_PER_FILE ==>
          if k < n.count then lay.dataStart <= n.ptrs[k] < lay.blockTotal else n.ptrs[k] == 0)
    && (!IsDir(n.mode) ==> n.size <= BLOCK_SIZE * n.count)
  }

  /** What every call keeps, whatever happened before and whatever the call returns. */
  ghost predicate OwnInv(fs: FS) {
    && LayoutOk(fs.lay) && |fs.disk| == fs.lay.blockTotal
    && ROOT_INO in fs.inodes && IsDir(fs.inodes[ROOT_INO].mode)
    && (forall i :: i in fs.inodes
          ==> 1 <= i <= fs.lay.inodeTotal && i - 1 in fs.iused && InodeOk(fs.lay, fs.inodes[i]))
    && (forall i, k, b :: Owns(fs, i, k, b) ==> b in fs.used)
    && (forall i, k, j, l, b :: Owns(fs, i, k, b) && Owns(fs, j, l, b) ==> i == j && k == l)
  }

  /** The blocks an inode points to. */
  function BlocksOf(n: Inode): set<nat> {
    set k | 0 <= k < BLOCK_PER_FILE && k < n.count :: n.ptrs[k]
  }

  /** No two set pointers of the inode are the same. */
  predicate DistinctPtrs(n: Inode) {
    forall k, l :: 0 <= k < l < BLOCK_PER_FILE && l < n.count ==> n.ptrs[k] != n.ptrs[l]
  }

  function FirstBlocks(n: Inode, c: nat): set<nat> {
    set k | 0 <= k < BLOCK_PER_FILE && k < c :: n.ptrs[k]
  }

  lemma {:induction false} FirstBlocksCard(n: Inode, c: nat)
    requires DistinctPtrs(n) && c <= n.count <= BLOCK_PER_FILE
    ensures |FirstBlocks(n, c)| == c
  {
    if c == 0 {
      assert FirstBlocks(n, c) == {};
    } else {
      FirstBlocksCard(n, c - 1);
      assert FirstBlocks(n, c) == FirstBlocks(n, c - 1) + {n.ptrs[c - 1]};
    }
  }

  /** An inode with distinct pointers points to as many blocks as it counts. */
  lemma BlocksCard(n: Inode)
    requires DistinctPtrs(n) && n.count <= BLOCK_PER_FILE
    ensures |BlocksOf(n)| == n.count
  {
    FirstBlocksCard(n, n.count);
    assert BlocksOf(n) == FirstBlocks(n, n.count);
  }
}
