/** No block belongs to two pointers: every step keeps the block ownership invariant, and touches no other inode's
    blocks. */
module Ownership {
  import opened Bytes
  import opened Records
  import opened Directory
  import opened State
  import opened Steps

  ghost predicate Unowned(fs: FS, b: nat) {
    forall i, k :: !Owns(fs, i, k, b)
  }

  /** Inode i, and every block it points to, are the same in both states. */
  ghost predicate SameFor(fs: FS, after: FS, i: nat)
    requires |fs.disk| == |after.disk|
  {
    && i in fs.inodes && i in after.inodes && after.inodes[i] == fs.inodes[i]
    && forall k, b :: Owns(fs, i, k, b) && 0 <= b < |fs.disk| ==> after.disk[b] == fs.disk[b]
  }

  /** Nothing outside the inodes in touched changed. */
  ghost predicate Frame(fs: FS, after: FS, touched: set<nat>) {
    && |after.disk| == |fs.disk| && after.lay == fs.lay
    && forall i :: i in fs.inodes && i !in touched ==> SameFor(fs, after, i)
  }

  lemma FrameTrans(a: FS, b: FS, c: FS, touched: set<nat>)
    requires Frame(a, b, touched) && Frame(b, c, touched)
    ensures Frame(a, c, touched)
  {
    forall i | i in a.inodes && i !in touched
      ensures SameFor(a, c, i)
    {
      assert SameFor(a, b, i) && SameFor(b, c, i);
      forall k, x | Owns(a, i, k, x) && 0 <= x < |a.disk|
        ensures c.disk[x] == a.disk[x]
      {
        assert Owns(b, i, k, x);
      }
    }
  }

  // ---- the primitive changes ----

  lemma PutBlock(fs: FS, b: nat, blk: Block, touched: set<nat>)
    requires OwnInv(fs) && b < |fs.disk|
    requires forall i, k :: Owns(fs, i, k, b) ==> i in touched
    ensures OwnInv(fs.(disk := fs.disk[b := blk]))
    ensures Frame(fs, fs.(disk := fs.disk[b := blk]), touched)
  {
    var after := fs.(disk := fs.disk[b := blk]);
    assert forall i, k, x :: Owns(after, i, k, x) <==> Owns(fs, i, k, x);
  }

  lemma MarkUsed(fs: FS, used: set<nat>, iused: set<nat>, touched: set<nat>)
    requires OwnInv(fs) && fs.iused <= iused
    requires forall b :: b in fs.used && b !in used ==> Unowned(fs, b)
    ensures OwnInv(fs.(used := used, iused := iused))
    ensures Frame(fs, fs.(used := used, iused := iused), touched)
  {
    var after := fs.(used := used, iused := iused);
    assert forall i, k, x :: Owns(after, i, k, x) <==> Owns(fs, i, k, x);
  }

  /** New attributes for inode i, its blocks unchanged. */
  lemma SetAttrs(fs: FS, i: nat, n: Inode)
    requires OwnInv(fs) && i in fs.inodes
    requires n.ptrs == fs.inodes[i].ptrs && n.count == fs.inodes[i].count && n.mode == fs.inodes[i].mode
    requires !IsDir(n.mode) ==> n.size <= BLOCK_SIZE * n.count
    ensures OwnInv(fs.(inodes := fs.inodes[i := n]))
    ensures Frame(fs, fs.(inodes := fs.inodes[i := n]), {i})
    ensures forall j, k, x :: Owns(fs.(inodes := fs.inodes[i := n]), j, k, x) <==> Owns(fs, j, k, x)
  {
    var after := fs.(inodes := fs.inodes[i := n]);
    assert forall j, k, x :: Owns(after, j, k, x) <==> Owns(fs, j, k, x);
  }

  lemma AttachBlock(fs: FS, i: nat, b: nat)
    requires OwnInv(fs) && i in fs.inodes && fs.inodes[i].count < BLOCK_PER_FILE
    requires fs.lay.dataStart <= b < fs.lay.blockTotal && b in fs.used && Unowned(fs, b)
    ensures var after := fs.(inodes := fs.inodes[i := Attach(fs.inodes[i], b)]);
      && OwnInv(after) && Frame(fs, after, {i})
      && (forall j, k, x :: Owns(after, j, k, x)
            <==> Owns(fs, j, k, x) || (j == i && k == fs.inodes[i].count && x == b))
  {
    var after := fs.(inodes := fs.inodes[i := Attach(fs.inodes[i], b)]);
    forall j, k, x
      ensures Owns(after, j, k, x) <==> Owns(fs, j, k, x) || (j == i && k == fs.inodes[i].count && x == b)
    {
    }
  }

  /** A new inode i, empty or with the one block b. */
  lemma AddInode(fs: FS, i: nat, n: Inode, b: nat, touched: set<nat>)
    requires OwnInv(fs) && i !in fs.inodes && 1 <= i <= fs.lay.inodeTotal && i - 1 in fs.iused
    requires InodeOk(fs.lay, n) && (n.count == 0 || (n.count == 1 && n.ptrs[0] == b && b in fs.used && Unowned(fs, b)))
    ensures var after := fs.(inodes := fs.inodes[i := n]);
      && OwnInv(after) && Frame(fs, after, touched)
      && (forall j, k, x :: Owns(after, j, k, x) <==> Owns(fs, j, k, x) || (n.count == 1 && j == i && k == 0 && x == b))
  {
    var after := fs.(inodes := fs.inodes[i := n]);
    assert forall j, k, x ::
      Owns(after, j, k, x) <==> Owns(fs, j, k, x) || (n.count == 1 && j == i && k == 0 && x == b);
  }

  lemma ReleaseInode(fs: FS, i: nat)
    requires OwnInv(fs) && i in fs.inodes && i != ROOT_INO
    ensures OwnInv(Release(fs, i)) && Frame(fs, Release(fs, i), {i})
    ensures forall j, k, x :: Owns(Release(fs, i), j, k, x) <==> Owns(fs, j, k, x) && j != i
    ensures forall x :: x in BlocksOf(fs.inodes[i]) <==> exists k :: Owns(fs, i, k, x)
  {
    var after := Release(fs, i);
    forall x
      ensures x in BlocksOf(fs.inodes[i]) <==> exists k :: Owns(fs, i, k, x)
    {
      if x in BlocksOf(fs.inodes[i]) {
        var k :| 0 <= k < BLOCK_PER_FILE && k < fs.inodes[i].count && x == fs.inodes[i].ptrs[k];
        assert Owns(fs, i, k, x);
      }
    }
    assert forall j, k, x :: Owns(after, j, k, x) <==> Owns(fs, j, k, x) && j != i;
  }

  // ---- the directory operations ----

  lemma OwnedIsOk(fs: FS, i: nat)
    requires OwnInv(fs) && i in fs.inodes
    ensures DirOk(fs, i)
  {
  }

  lemma FreeBlockUnowned(fs: FS)
    requires OwnInv(fs)
    ensures var r := FreeBlock(fs);
      r.Some? ==> fs.lay.dataStart <= r.value < fs.lay.blockTotal && r.value !in fs.used && Unowned(fs, r.value)
  {
  }

  lemma UnownedAfterMark(fs: FS, b: nat)
    requires OwnInv(fs) && b !in fs.used
    ensures Unowned(fs, b) && Unowned(fs.(used := fs.used + {b}), b)
  {
    var after := fs.(used := fs.used + {b});
    assert forall i, k :: Owns(after, i, k, b) <==> Owns(fs, i, k, b);
  }

  /** Storing a record in a directory changes that directory's block only. */
  lemma StoreRecKeeps(fs: FS, d: nat, r: nat, rec: Rec)
    requires OwnInv(fs) && d in fs.inodes && r < 3 * fs.inodes[d].count
    ensures var after := fs.(disk := StoreRec(fs.disk, fs.inodes[d], r, rec));
      OwnInv(after) && Frame(fs, after, {d})
  {
    var n := fs.inodes[d];
    assert Owns(fs, d, r / 3, n.ptrs[r / 3]);
    PutBlock(fs, n.ptrs[r / 3], PutRec(fs.disk[n.ptrs[r / 3]], r % 3, rec), {d});
  }

  /** The filesystem after directory d has been given the block b, as far as its eight pointers allow. */
  function Grown(fs: FS, d: nat, b: nat, blk: Block): FS
    requires d in fs.inodes && b < |fs.disk|
  {
    var n := fs.inodes[d];
    fs.(used := fs.used + {b}, disk := fs.disk[b := blk],
      inodes := fs.inodes[d := Attach(n, b).(size := n.size + BLOCK_SIZE)])
  }

  lemma GrownOwns(fs: FS, d: nat, b: nat, blk: Block)
    requires OwnInv(fs) && d in fs.inodes && IsDir(fs.inodes[d].mode)
    requires fs.lay.dataStart <= b < fs.lay.blockTotal && b !in fs.used
    ensures forall j, k, x :: Owns(Grown(fs, d, b, blk), j, k, x) <==>
              Owns(fs, j, k, x) || (fs.inodes[d].count < BLOCK_PER_FILE && j == d && k == fs.inodes[d].count && x == b)
  {
  }

  lemma GrowKeeps(fs: FS, d: nat, b: nat, blk: Block)
    requires OwnInv(fs) && d in fs.inodes && IsDir(fs.inodes[d].mode)
    requires fs.lay.dataStart <= b < fs.lay.blockTotal && b !in fs.used
    ensures OwnInv(Grown(fs, d, b, blk)) && Frame(fs, Grown(fs, d, b, blk), {d})
  {
    GrownOwns(fs, d, b, blk);
  }

  lemma AddEntryKeeps(fs: FS, d: nat, name: Name, ino: nat)
    requires OwnInv(fs) && d in fs.inodes && IsDir(fs.inodes[d].mode)
    ensures var after := AddEntry(fs, d, name, ino).0;
      OwnInv(after) && Frame(fs, after, {d}) && after.inodes.Keys == fs.inodes.Keys && after.iused == fs.iused
  {
    var n := fs.inodes[d];
    var r := FirstFree(DirRecs(fs, d));
    var rec := Rec(ino, Padded(name));
    if r < 3 * n.count {
      StoreRecKeeps(fs, d, r, rec);
    } else if FreeBlock(fs).Some? {
      FreeBlockUnowned(fs);
      GrowKeeps(fs, d, FreeBlock(fs).value, FreshBlock(rec));
    }
  }

  lemma RemoveEntryKeeps(fs: FS, d: nat, name: Name)
    requires OwnInv(fs) && d in fs.inodes
    ensures var after := RemoveEntry(fs, d, name).0;
      OwnInv(after) && Frame(fs, after, {d}) && after == fs.(disk := after.disk)
  {
    var r := FirstMatch(DirRecs(fs, d), name);
    if r < 3 * fs.inodes[d].count {
      StoreRecKeeps(fs, d, r, ZeroRec());
    }
  }

  /** A number handed out belongs to no live inode. */
  lemma FreeInodeIsNew(fs: FS)
    requires OwnInv(fs)
    ensures var r := FreeInode(fs);
      r.Some? ==> 1 <= r.value <= fs.lay.inodeTotal && r.value !in fs.inodes && r.value - 1 !in fs.iused
  {
  }
}
