/** One concrete input for each place where the code departs from what its names suggest. The theorem that says for
    which inputs it does so is named in each comment. */
module Examples {
  import opened Bytes
  import opened Records
  import opened Directory
  import opened State
  import opened Steps
  import opened Accounting
  import opened InodeTable
  import opened Namespace
  import opened Simulation
  import opened OnDemand
  import opened Books
  import opened Runs
  import opened TreeRuns
  import opened Visible

  function Repeat(c: byte, n: nat): Name
    requires c != 0
  {
    seq(n, _ => c)
  }

  /** A name of 128 letters is entered, and a lookup does not find it (Directory.AddThenLookup). */
  lemma LongNameIsNotFound(name: Name)
    requires name == Repeat(97, 128)
    ensures var recs := AddRec([], Rec(2, Padded(name)));
      |recs| == 3 && recs[0].ino == 2 && FirstMatch(recs, name) == |recs|
  {
    AddThenLookup([], name, 2);
  }

  /** On a device of 132 blocks nothing can be allocated. Creating a file there fails, and inode number 2 is used from
      then on although no inode has it (Visible.LostMeans, Books.RunBooks). */
  lemma FailedCreateKeepsNumber(disk: seq<Block>, name: Name, cred: Cred)
    requires |disk| == 132 && name == [97] && cred == Cred(0x8000 + 0x1A4, 0, 0)
    ensures var fs := Mounted(disk);
      DirOk(fs, ROOT_INO) && var (after, ret) := Create(fs, ROOT_INO, name, cred);
      ret == -ENOSPC && after.iused == {0, 1} && after.inodes.Keys == {ROOT_INO}
  {
    var fs := Mounted(disk);
    LeastFreeIs(fs.iused, 0, 128, 1);
    assert fs.iused + {1} == {0, 1};
  }

  /** A new directory, 512 bytes long, is 3 bytes long after it has been written out and read back
      (InodeTable.InodeRoundTrip). */
  lemma DirectorySizeShrinks(blk: Block, n: Inode)
    requires n == NewDir(Cred(0x1ED, 0, 0), 140)
    ensures Decode(Encode(blk, 2, n)).size == 3 && n.size == 512
  {
    InodeRoundTrip(blk, 2, n);
  }

  /** With 135 blocks the two allocators disagree: the byte-wise one never looks at blocks 128 to 134
      (HoleFiles.AllocatorsAgree). */
  lemma LastBlocksUnused(fs: FS)
    requires fs.lay == MkfsLayout(135) && fs.used == MkfsBlocks()
    ensures FreeBlock(fs) == None && FirstFreeBlock(fs) == Some(133)
  {
    LeastFreeIs(fs.used, 132, 135, 133);
  }

  /** The root as mounted has no records at all: empty by its names, not empty by its count
      (Namespace.CountingTestAgrees). */
  lemma EmptyRootCountsNone(disk: seq<Block>)
    requires MKFS_DATA <= |disk| <= 8 * BITMAP_BYTES
    ensures DirOk(Mounted(disk), ROOT_INO)
    ensures var recs := DirRecs(Mounted(disk), ROOT_INO); EmptyDir(recs) && !CountsTwo(recs)
  {
    assert UsedSlots(DirRecs(Mounted(disk), ROOT_INO)) == {};
  }

  lemma FreshRoot(disk: seq<Block>) returns (fs: FS)
    requires |disk| == 160
    ensures fs == Mounted(disk) && OwnInv(fs) && DirIn(fs, ROOT_INO) && DirRecs(fs, ROOT_INO) == []
    ensures FreeInode(fs) == Some(2) && FreeBlock(fs) == Some(133)
  {
    fs := Mounted(disk);
    MountedIsSound(disk);
    FreshRoom(disk);
    assert DirRecs(fs, ROOT_INO) == [];
  }

  lemma FreshRoom(disk: seq<Block>)
    requires |disk| == 160
    ensures FreeInode(Mounted(disk)) == Some(2) && FreeBlock(Mounted(disk)) == Some(133)
  {
    LeastFreeIs(Mounted(disk).iused, 0, 128, 1);
    LeastFreeIs(Mounted(disk).used, 132, 160, 133);
  }

  lemma FirstCreate(fs: FS, d: nat, name: Name, cred: Cred, i: nat, b: nat) returns (after: FS)
    requires OwnInv(fs) && DirIn(fs, d) && DirRecs(fs, d) == [] && fs.inodes[d].count == 0 && !IsDir(cred.mode)
    requires FreeInode(fs) == Some(i) && FreeBlock(fs) == Some(b) && |name| < MAX_FILENAME_LEN && Tidy(NsOf(fs))
    ensures Create(fs, d, name, cred) == (after, 0) && OwnInv(after) && Finds(NsOf(after), d, name, i)
    ensures after.used == fs.used + {b} && !AddLeaks(fs, d)
  {
    NsUpdateSame(fs, d);
    CreateReturns(fs, d, name, cred);
    CreateVisible(fs, d, name, cred);
    after := Create(fs, d, name, cred).0;
  }

  /** On a fresh device of 160 blocks the first file gets number 2, is found under its name, and the namespace is a
      tree: the theorems about reachable states are not about the mounted state only. */
  lemma FirstFileWorks(disk: seq<Block>, name: Name, cred: Cred) returns (after: FS)
    requires |disk| == 160 && name == [97] && cred == Cred(0x8000 + 0x1A4, 0, 0)
    ensures OwnInv(Mounted(disk)) && Enabled(Mounted(disk), OpCreate(ROOT_INO, name, cred))
    ensures Step(Mounted(disk), OpCreate(ROOT_INO, name, cred)) == (after, 0) && OwnInv(after)
    ensures TreeInv(NsOf(after)) && Finds(NsOf(after), ROOT_INO, name, 2) && after.used == MkfsBlocks() + {133}
  {
    var fs := FreshRoot(disk);
    MountedIsSound(disk);
    TreeIsTidy(NsOf(fs));
    after := FirstCreate(fs, ROOT_INO, name, cred, 2, 133);
    StepTree(fs, OpCreate(ROOT_INO, name, cred));
  }
}
