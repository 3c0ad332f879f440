/** From mount on: used blocks and inode numbers counted exactly, and the metadata blocks out of reach. */
module Books {
  import opened Bytes
  import opened State
  import opened Steps
  import opened Ownership
  import opened Accounting
  import opened FileData
  import opened FileWrite
  import opened InodeTable
  import opened LateWrites
  import opened Namespace
  import opened Simulation
  import opened Runs
  import opened TreeRuns
  import opened DirMaps

  // ---- the state after mkfs and mount ----

  const MKFS_INODES := 128
  const MKFS_TABLE := 4
  const MKFS_DATA := 132

  function MkfsLayout(blocks: nat): Layout {
    Layout(MKFS_INODES, blocks, MKFS_TABLE, MKFS_DATA)
  }

  /** The block bits mkfs sets: blocks 0 to 4 and the root's data block. */
  function MkfsBlocks(): set<nat> {
    {0, 1, 2, 3, 4, MKFS_DATA}
  }

  /** naive_fill_super: the root inode is created in memory and points to no block. */
  function Mounted(disk: seq<Block>): FS {
    FS(MkfsLayout(|disk|), MkfsBlocks(), {0}, disk, map[ROOT_INO := RootInode()])
  }

  lemma MountedIsSound(disk: seq<Block>)
    requires MKFS_DATA <= |disk| <= 8 * BITMAP_BYTES
    ensures var fs := Mounted(disk);
      Inv(fs, {MKFS_DATA}, {}) && TreeInv(NsOf(fs)) && AllUnique(NsOf(fs))
  {
    var fs := Mounted(disk);
    assert forall i, k, b :: !Owns(fs, i, k, b);
    assert Inv(fs, {MKFS_DATA}, {});
    var ns := NsOf(fs);
    assert ns.dirs[ROOT_INO] == [];
    assert forall d, r, i :: !NamesInode(ns, d, r, i);
    assert ReachesRoot(ns, ROOT_INO, 0);
    assert Subdirs(ns, ROOT_INO) == {};
  }

  // ---- counting ----

  /** The sum of block_count over the live inodes numbered up to n. */
  function CountSum(inodes: map<nat, Inode>, n: nat): nat {
    if n == 0 then 0 else CountSum(inodes, n - 1) + (if n in inodes then inodes[n].count else 0)
  }

  ghost predicate OwnedBelow(fs: FS, b: nat, n: nat) {
    exists i, k :: Owns(fs, i, k, b) && i <= n
  }

  ghost predicate InFirst(fs: FS, i: nat, b: nat, c: nat) {
    exists k :: Owns(fs, i, k, b) && k < c
  }

  ghost function OwnedUpTo(fs: FS, n: nat): set<nat> {
    set b | b in fs.used && OwnedBelow(fs, b, n)
  }

  ghost function OwnedPart(fs: FS, i: nat, c: nat): set<nat> {
    set b | b in fs.used && InFirst(fs, i, b, c)
  }

  lemma {:induction false} OwnedPartCard(fs: FS, i: nat, c: nat)
    requires OwnInv(fs) && i in fs.inodes && c <= fs.inodes[i].count
    ensures |OwnedPart(fs, i, c)| == c
  {
    if c == 0 {
      assert OwnedPart(fs, i, c) == {};
    } else {
      OwnedPartCard(fs, i, c - 1);
      var b := fs.inodes[i].ptrs[c - 1];
      assert Owns(fs, i, c - 1, b);
      assert OwnedPart(fs, i, c) == OwnedPart(fs, i, c - 1) + {b};
    }
  }

  lemma OwnedSplit(fs: FS, n: nat)
    requires OwnInv(fs) && n in fs.inodes && n > 0
    ensures OwnedUpTo(fs, n) == OwnedUpTo(fs, n - 1) + OwnedPart(fs, n, fs.inodes[n].count)
    ensures OwnedUpTo(fs, n - 1) !! OwnedPart(fs, n, fs.inodes[n].count)
  {
    forall b: nat | b in fs.used
      ensures OwnedBelow(fs, b, n) <==> OwnedBelow(fs, b, n - 1) || InFirst(fs, n, b, fs.inodes[n].count)
      ensures !(OwnedBelow(fs, b, n - 1) && InFirst(fs, n, b, fs.inodes[n].count))
    {
      if OwnedBelow(fs, b, n) {
        var i, k :| Owns(fs, i, k, b) && i <= n;
        assert i == n || OwnedBelow(fs, b, n - 1);
      }
    }
  }

  lemma OwnedSkip(fs: FS, n: nat)
    requires OwnInv(fs) && n !in fs.inodes && n > 0
    ensures OwnedUpTo(fs, n) == OwnedUpTo(fs, n - 1)
  {
    forall b: nat | b in fs.used
      ensures OwnedBelow(fs, b, n) <==> OwnedBelow(fs, b, n - 1)
    {
      if OwnedBelow(fs, b, n) {
        var i, k :| Owns(fs, i, k, b) && i <= n;
        assert i <= n - 1;
      }
    }
  }

  lemma OwnedStep(fs: FS, n: nat)
    requires OwnInv(fs) && n > 0
    ensures |OwnedUpTo(fs, n)| == |OwnedUpTo(fs, n - 1)| + if n in fs.inodes then fs.inodes[n].count else 0
  {
    if n in fs.inodes {
      OwnedPartCard(fs, n, fs.inodes[n].count);
      OwnedSplit(fs, n);
    } else {
      OwnedSkip(fs, n);
    }
  }

  lemma {:induction false} OwnedCard(fs: FS, n: nat)
    requires OwnInv(fs)
    ensures |OwnedUpTo(fs, n)| == CountSum(fs.inodes, n)
  {
    if n == 0 {
      assert OwnedUpTo(fs, n) == {};
    } else {
      OwnedCard(fs, n - 1);
      OwnedStep(fs, n);
    }
  }

  /** The used bits of the data region. */
  function UsedData(fs: FS): set<nat> {
    set b | b in fs.used && fs.lay.dataStart <= b
  }

  lemma UsedBlocksCount(fs: FS, extra: set<nat>, lost: set<nat>)
    requires Inv(fs, extra, lost)
    ensures |UsedData(fs)| == CountSum(fs.inodes, fs.lay.inodeTotal) + |extra|
  {
    OwnedCard(fs, fs.lay.inodeTotal);
    var owned := OwnedUpTo(fs, fs.lay.inodeTotal);
    forall b: nat
      ensures b in owned <==> IsOwned(fs, b)
    {
      if IsOwned(fs, b) {
        var i, k :| Owns(fs, i, k, b);
        assert i <= fs.lay.inodeTotal;
      }
    }
    assert UsedData(fs) == owned + extra;
    assert owned !! extra;
  }

  function NumberBits(numbers: set<nat>): set<nat>
    requires 0 !in numbers
  {
    set i | i in numbers :: (i - 1) as nat
  }

  lemma BitOf(numbers: set<nat>, n: nat)
    requires 0 !in numbers
    ensures n in NumberBits(numbers) <==> n + 1 in numbers
  {
    if n + 1 in numbers {
      assert (n + 1) - 1 in NumberBits(numbers);
    }
  }

  lemma {:induction false} BitsCard(numbers: set<nat>)
    requires 0 !in numbers
    ensures |NumberBits(numbers)| == |numbers|
  {
    if numbers == {} {
      assert NumberBits(numbers) == {};
    } else {
      var i :| i in numbers;
      var fewer := numbers - {i};
      BitsCard(fewer);
      BitsWithout(numbers, i, fewer);
    }
  }

  lemma BitsWithout(numbers: set<nat>, i: nat, fewer: set<nat>)
    requires 0 !in numbers && i in numbers && fewer == numbers - {i}
    ensures |NumberBits(numbers)| == |NumberBits(fewer)| + 1
  {
    forall n: nat
      ensures n in NumberBits(numbers) <==> n in NumberBits(fewer) || n == i - 1
      ensures i - 1 !in NumberBits(fewer)
    {
      BitOf(numbers, n);
      BitOf(fewer, n);
      BitOf(fewer, i - 1);
    }
    assert NumberBits(numbers) == NumberBits(fewer) + {i - 1};
  }

  lemma UsedNumbersCount(fs: FS, extra: set<nat>, lost: set<nat>)
    requires Inv(fs, extra, lost)
    ensures |fs.iused| == |fs.inodes| + |lost|
  {
    var bits := NumberBits(fs.inodes.Keys);
    BitsCard(fs.inodes.Keys);
    forall n: nat
      ensures n in fs.iused <==> n in bits || n in lost
      ensures !(n in bits && n in lost)
    {
      BitOf(fs.inodes.Keys, n);
    }
    assert fs.iused == bits + lost;
    assert bits !! lost;
    assert |fs.inodes.Keys| == |fs.inodes|;
  }

  // ---- the theorems about whole runs ----

  /** A freshly made and mounted filesystem on a device of any size the bitmap can describe. */
  ghost function Start(disk: seq<Block>): (fs: FS)
    requires MKFS_DATA <= |disk| <= 8 * BITMAP_BYTES
    ensures Inv(fs, {MKFS_DATA}, {})
  {
    MountedIsSound(disk);
    Mounted(disk)
  }

  /** In every state reachable from mount, whatever failed on the way, no block belongs to two pointers and every
      pointer is a used data block; used data blocks are the owned ones, the one mkfs reserved, one for each leaking
      call, and those that writes took for inodes already released; used numbers are the live ones and one for each call
      that failed while adding its name. */
  lemma RunBooks(disk: seq<Block>, ops: seq<Op>)
    requires MKFS_DATA <= |disk| <= 8 * BITMAP_BYTES && CanRun(Start(disk), ops)
    ensures var fs := Run(Start(disk), ops);
      && OwnInv(fs)
      && |UsedData(fs)|
           == CountSum(fs.inodes, MKFS_INODES) + 1 + LeakCount(Start(disk), ops) + LateCount(Start(disk), ops)
      && |fs.iused| == |fs.inodes| + LossCount(Start(disk), ops)
  {
    var fs, extra, lost := RunKeeps(Start(disk), ops, {MKFS_DATA}, {});
    UsedBlocksCount(fs, extra, lost);
    UsedNumbersCount(fs, extra, lost);
  }

  /** From mount on the namespace stays a tree exactly as long as no call leaks or mismatches; if none mismatches, it
      ends as a tree exactly when none leaked. Whatever was called, it stays tidy. */
  lemma RunNamespace(disk: seq<Block>, ops: seq<Op>)
    requires MKFS_DATA <= |disk| <= 8 * BITMAP_BYTES && CanRun(Start(disk), ops)
    ensures AlwaysTree(Start(disk), ops) <==> NeverLeaks(Start(disk), ops) && NeverMismatches(Start(disk), ops)
    ensures NeverMismatches(Start(disk), ops)
        ==> (TreeInv(NsOf(Run(Start(disk), ops))) <==> NeverLeaks(Start(disk), ops))
    ensures NeverLeaks(Start(disk), ops) <==> LeakCount(Start(disk), ops) == 0
    ensures Tidy(NsOf(Run(Start(disk), ops)))
  {
    MountedIsSound(disk);
    TreeIsTidy(NsOf(Start(disk)));
    RunTidy(Start(disk), ops);
    RunTree(Start(disk), ops);
    NeverLeaksIsZero(Start(disk), ops);
    if NeverMismatches(Start(disk), ops) {
      RunEndsInTree(Start(disk), ops);
    }
  }

  // ---- metadata blocks ----

  /** The only call that changes a block below the data region is write_inode, and it changes the block of its inode. */
  lemma StepMetadata(fs: FS, op: Op, b: nat)
    requires OwnInv(fs) && Enabled(fs, op) && b < fs.lay.dataStart
    requires op.OpWriteInode? ==> b != TableBlock(fs.lay, op.i)
    ensures b < |fs.disk| && b < |Next(fs, op).disk| && Next(fs, op).disk[b] == fs.disk[b] && Next(fs, op).lay == fs.lay
  {
    var _ := StepOwn(fs, op);
    match op
    case OpCreate(d, name, cred) => CreateMetadata(fs, d, name, cred, b);
    case OpMkdir(d, name, cred) => MkdirMetadata(fs, d, name, cred, b);
    case OpUnlink(d, name, i) => RemoveEntryMetadata(fs, d, name, b);
    case OpRmdir(d, name, i) => RemoveEntryMetadata(fs, d, name, b);
    case OpWrite(i, pos, buf) => WriteMetadata(fs, i, pos, buf, b);
    case OpWriteInode(i) =>
    case OpLateWrite(n, pos, buf) =>
      LateMetadata(fs, n, pos, buf, b);
  }

  lemma LateMetadata(fs: FS, n: Inode, pos: nat, buf: seq<byte>, b: nat)
    requires OwnInv(fs) && Released(fs, n) && b < fs.lay.dataStart
    ensures var after := LateWrite(fs, n, pos, buf).0;
      b < |fs.disk| && b < |after.disk| && after.disk[b] == fs.disk[b] && after.lay == fs.lay
  {
    var _, _ := HeldWrite(fs, n, pos, buf);
    WriteMetadata(Holding(fs, n), PastTable(fs), pos, buf, b);
  }

  lemma CreateMetadata(fs: FS, d: nat, name: Name, cred: Cred, b: nat)
    requires OwnInv(fs) && DirIn(fs, d) && b < fs.lay.dataStart
    ensures b < |fs.disk| <= |Create(fs, d, name, cred).0.disk| && Create(fs, d, name, cred).0.disk[b] == fs.disk[b]
  {
    if FreeInode(fs).Some? {
      var fs1 := fs.(iused := fs.iused + {FreeInode(fs).value - 1});
      MarkUsed(fs, fs.used, fs1.iused, {});
      AddEntryMetadata(fs1, d, name, FreeInode(fs).value, b);
    }
  }

  lemma MkdirMetadata(fs: FS, d: nat, name: Name, cred: Cred, b: nat)
    requires OwnInv(fs) && DirIn(fs, d) && b < fs.lay.dataStart
    ensures b < |fs.disk| <= |Mkdir(fs, d, name, cred).0.disk| && Mkdir(fs, d, name, cred).0.disk[b] == fs.disk[b]
  {
    if FreeInode(fs).Some? && FreeBlock(fs).Some? {
      PreparedNs(fs, FreeInode(fs).value, FreeBlock(fs).value, d);
      AddEntryMetadata(Prepared(fs, FreeInode(fs).value, FreeBlock(fs).value, d), d, name, FreeInode(fs).value, b);
    }
  }

  lemma AddEntryMetadata(fs: FS, d: nat, name: Name, ino: nat, b: nat)
    requires OwnInv(fs) && DirIn(fs, d) && b < fs.lay.dataStart
    ensures AddEntry(fs, d, name, ino).0.disk[b] == fs.disk[b]
  {
  }

  lemma RemoveEntryMetadata(fs: FS, d: nat, name: Name, b: nat)
    requires OwnInv(fs) && d in fs.inodes && b < fs.lay.dataStart
    ensures RemoveEntry(fs, d, name).0.disk[b] == fs.disk[b]
  {
  }

  lemma WriteMetadata(fs: FS, i: nat, pos: nat, buf: seq<byte>, b: nat)
    requires FileIn(fs, i) && b < fs.lay.dataStart
    ensures b < |Write(fs, i, pos, buf).0.disk| && Write(fs, i, pos, buf).0.disk[b] == fs.disk[b]
  {
    EnoughBlocks(fs.inodes[i], pos, |buf|);
    if pos + |buf| <= MAX_FILE_SIZE {
      var wanted := Wanted(fs.inodes[i], pos, |buf|);
      ReserveLengthens(fs, i, wanted);
      if Reserve(fs, i, wanted).1 {
        var fs1 := Reserve(fs, i, wanted).0;
        WriteCovered(fs, i, pos, |buf|);
        RangeCovered(fs1, i, pos, |buf|);
        CopyInSkips(fs1.disk, fs1.inodes[i].ptrs, pos, buf, b);
      }
    }
  }

  /** What iget would read for inode j changes only when inode j itself is written out. */
  lemma TableStable(fs: FS, op: Op, j: nat)
    requires OwnInv(fs) && Enabled(fs, op) && 1 <= j <= fs.lay.inodeTotal
    requires op.OpWriteInode? ==> op.i != j
    ensures 0 <= TableBlock(fs.lay, j) < |fs.disk| && TableBlock(Next(fs, op).lay, j) < |Next(fs, op).disk|
    ensures Load(Next(fs, op), j) == Load(fs, j)
  {
    TableBelowData(fs, j);
    StepMetadata(fs, op, TableBlock(fs.lay, j));
  }

  predicate WritesOut(op: Op, j: nat) {
    op.OpWriteInode? && op.i == j
  }

  /** Over a whole run a block below the data region changes only when an inode of that table block is written out. */
  lemma {:induction false} RunMetadata(fs: FS, ops: seq<Op>, b: nat) returns (after: FS)
    requires OwnInv(fs) && CanRun(fs, ops) && b < fs.lay.dataStart
    requires forall op: Op :: op in ops && op.OpWriteInode? ==> TableBlock(fs.lay, op.i) != b
    ensures after == Run(fs, ops) && after.lay == fs.lay
    ensures b < |fs.disk| && b < |after.disk| && after.disk[b] == fs.disk[b]
    decreases |ops|
  {
    after := fs;
    if ops != [] {
      assert ops[0] in ops;
      StepMetadata(fs, ops[0], b);
      after := RunMetadata(Next(fs, ops[0]), ops[1..], b);
    }
  }

  /** And what iget would read for inode j is the same after any run that does not write j out. */
  lemma RunTable(fs: FS, ops: seq<Op>, j: nat) returns (after: FS)
    requires OwnInv(fs) && CanRun(fs, ops) && 1 <= j <= fs.lay.inodeTotal
    requires forall op: Op :: op in ops ==> !WritesOut(op, j)
    ensures after == Run(fs, ops) && 0 <= TableBlock(fs.lay, j) < |fs.disk|
    ensures 0 <= TableBlock(after.lay, j) < |after.disk|
    ensures Load(after, j) == Load(fs, j)
  {
    TableBelowData(fs, j);
    assert forall op: Op :: op in ops && op.OpWriteInode? ==> !WritesOut(op, j);
    after := RunMetadata(fs, ops, TableBlock(fs.lay, j));
  }
}
