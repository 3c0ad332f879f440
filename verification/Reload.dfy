/** Loading an inode from the table again: exactly when that keeps the filesystem sound, and what keeps the image
    current. */
module Reload {
  import opened Bytes
  import opened State
  import opened Steps
  import opened Ownership
  import opened Accounting
  import opened InodeTable
  import opened Namespace
  import opened Simulation
  import opened Runs
  import opened Books

  predicate InTableRange(fs: FS, i: nat) {
    0 <= TableBlock(fs.lay, i) < |fs.disk|
  }

  /** naive_iget of a number that is not in the inode hash: what the table holds becomes the inode. */
  function Reloaded(fs: FS, i: nat): FS
    requires InTableRange(fs, i)
  {
    fs.(inodes := fs.inodes[i := Load(fs, i)])
  }

  ghost predicate OwnedElsewhere(fs: FS, i: int, b: int) {
    exists j, k :: j != i && Owns(fs, j, k, b)
  }

  /** What the image in the table must be for inode i to be loaded from it: a well-formed inode under a used number,
      with pointers to used blocks, no two alike and none of another inode. */
  ghost predicate Loadable(fs: FS, i: nat)
    requires InTableRange(fs, i)
  {
    var m := Load(fs, i);
    && 1 <= i <= fs.lay.inodeTotal && i - 1 in fs.iused && InodeOk(fs.lay, m) && (i == ROOT_INO ==> IsDir(m.mode))
    && DistinctPtrs(m) && BlocksOf(m) <= fs.used && forall b :: b in BlocksOf(m) ==> !OwnedElsewhere(fs, i, b)
  }

  /** The blocks of inode i after the load are those of the image; nobody else's change. */
  lemma ReloadedOwns(fs: FS, i: nat, j: int, k: int, b: int)
    requires InTableRange(fs, i)
    ensures Owns(Reloaded(fs, i), j, k, b) <==>
      if j == i then 0 <= k < BLOCK_PER_FILE && k < Load(fs, i).count && Load(fs, i).ptrs[k] == b else Owns(fs, j, k, b)
  {
  }

  lemma BlockIn(n: Inode, k: int)
    requires 0 <= k < BLOCK_PER_FILE && k < n.count
    ensures n.ptrs[k] in BlocksOf(n)
  {
  }

  lemma LoadableKeeps(fs: FS, i: nat)
    requires OwnInv(fs) && InTableRange(fs, i) && Loadable(fs, i)
    ensures OwnInv(Reloaded(fs, i))
  {
    var after, m := Reloaded(fs, i), Load(fs, i);
    forall j, k, b | Owns(after, j, k, b)
      ensures b in fs.used && (j == i ==> b in BlocksOf(m)) && (j != i ==> Owns(fs, j, k, b))
    {
      ReloadedOwns(fs, i, j, k, b);
      if j == i {
        BlockIn(m, k);
      }
    }
    forall j, k, l, q, b | Owns(after, j, k, b) && Owns(after, l, q, b)
      ensures j == l && k == q
    {
      if j != i && l == i {
        assert OwnedElsewhere(fs, i, b);
      }
      if j == i && l != i {
        assert OwnedElsewhere(fs, i, b);
      }
    }
  }

  lemma KeptIsLoadable(fs: FS, i: nat)
    requires OwnInv(fs) && InTableRange(fs, i) && OwnInv(Reloaded(fs, i))
    ensures Loadable(fs, i)
  {
    var after, m := Reloaded(fs, i), Load(fs, i);
    assert i in after.inodes && after.inodes[i] == m;
    forall k, l | 0 <= k < l < BLOCK_PER_FILE && l < m.count
      ensures m.ptrs[k] != m.ptrs[l]
    {
      assert Owns(after, i, k, m.ptrs[k]) && Owns(after, i, l, m.ptrs[l]);
    }
    forall b | b in BlocksOf(m)
      ensures b in fs.used && !OwnedElsewhere(fs, i, b)
    {
      var k :| 0 <= k < BLOCK_PER_FILE && k < m.count && m.ptrs[k] == b;
      assert Owns(after, i, k, b);
      if OwnedElsewhere(fs, i, b) {
        var j, l :| j != i && Owns(fs, j, l, b);
        assert Owns(after, j, l, b);
      }
    }
  }

  /** Loading an inode from the table keeps ownership exactly when the image is loadable. */
  lemma ReloadKeeps(fs: FS, i: nat)
    requires OwnInv(fs) && InTableRange(fs, i)
    ensures OwnInv(Reloaded(fs, i)) <==> Loadable(fs, i)
  {
    if Loadable(fs, i) {
      LoadableKeeps(fs, i);
    }
    if OwnInv(Reloaded(fs, i)) {
      KeptIsLoadable(fs, i);
    }
  }

  /** The blocks of inode i, if it is in memory. */
  function BlocksInMemory(fs: FS, i: nat): set<nat> {
    if i in fs.inodes then BlocksOf(fs.inodes[i]) else {}
  }

  function CountInMemory(fs: FS, i: nat): nat {
    if i in fs.inodes then fs.inodes[i].count else 0
  }

  lemma OwnedByWhom(fs: FS, i: nat, b: int)
    requires OwnInv(fs)
    ensures IsOwned(fs, b) <==> OwnedElsewhere(fs, i, b) || b in BlocksInMemory(fs, i)
    ensures !(OwnedElsewhere(fs, i, b) && b in BlocksInMemory(fs, i))
  {
    if b in BlocksInMemory(fs, i) {
      var k :| 0 <= k < BLOCK_PER_FILE && k < fs.inodes[i].count && fs.inodes[i].ptrs[k] == b;
      assert Owns(fs, i, k, b);
    }
    if IsOwned(fs, b) {
      var j, k :| Owns(fs, j, k, b);
    }
    if OwnedElsewhere(fs, i, b) {
      var j, k :| j != i && Owns(fs, j, k, b);
    }
  }

  lemma OwnedByOthers(fs: FS, i: nat, b: int)
    requires InTableRange(fs, i)
    ensures OwnedElsewhere(Reloaded(fs, i), i, b) <==> OwnedElsewhere(fs, i, b)
  {
    if OwnedElsewhere(fs, i, b) {
      var j, k :| j != i && Owns(fs, j, k, b);
      assert Owns(Reloaded(fs, i), j, k, b);
    }
    if OwnedElsewhere(Reloaded(fs, i), i, b) {
      var j, k :| j != i && Owns(Reloaded(fs, i), j, k, b);
      assert Owns(fs, j, k, b);
    }
  }

  lemma LoadedAccount(fs: FS, i: nat, extra: set<nat>, lost: set<nat>) returns (extra': set<nat>, lost': set<nat>)
    requires Inv(fs, extra, lost) && InTableRange(fs, i) && Loadable(fs, i)
    ensures extra' == extra + BlocksInMemory(fs, i) - BlocksOf(Load(fs, i)) && lost' == lost - {i - 1}
    ensures Account(Reloaded(fs, i), extra', lost')
  {
    extra', lost' := extra + BlocksInMemory(fs, i) - BlocksOf(Load(fs, i)), lost - {i - 1};
    LoadableKeeps(fs, i);
    forall b
      ensures IsOwned(fs, b) <==> OwnedElsewhere(fs, i, b) || b in BlocksInMemory(fs, i)
      ensures IsOwned(Reloaded(fs, i), b) <==> OwnedElsewhere(fs, i, b) || b in BlocksOf(Load(fs, i))
      ensures !(OwnedElsewhere(fs, i, b) && b in BlocksInMemory(fs, i))
    {
      OwnedByWhom(fs, i, b);
      OwnedByWhom(Reloaded(fs, i), i, b);
      OwnedByOthers(fs, i, b);
    }
  }

  lemma BlocksInMemoryCard(fs: FS, i: nat)
    requires OwnInv(fs)
    ensures |BlocksInMemory(fs, i)| == CountInMemory(fs, i)
  {
    if i in fs.inodes {
      var n := fs.inodes[i];
      forall k, l | 0 <= k < l < BLOCK_PER_FILE && l < n.count
        ensures n.ptrs[k] != n.ptrs[l]
      {
        assert Owns(fs, i, k, n.ptrs[k]) && Owns(fs, i, l, n.ptrs[l]);
      }
      BlocksCard(n);
    }
  }

  lemma SwapCard(extra: set<nat>, out: set<nat>, back: set<nat>)
    requires out !! extra && back <= extra + out
    ensures |extra + out - back| == |extra| + |out| - |back|
  {
    assert extra + out == (extra + out - back) + back;
  }

  lemma LoadedSets(fs: FS, i: nat, extra: set<nat>, lost: set<nat>)
    requires Inv(fs, extra, lost) && InTableRange(fs, i) && Loadable(fs, i)
    ensures BlocksInMemory(fs, i) !! extra && BlocksOf(Load(fs, i)) <= extra + BlocksInMemory(fs, i)
    ensures i - 1 in lost <==> i !in fs.inodes
  {
    forall b: nat
      ensures b in BlocksInMemory(fs, i) ==> b !in extra
      ensures b in BlocksOf(Load(fs, i)) ==> b in extra + BlocksInMemory(fs, i)
    {
      OwnedByWhom(fs, i, b);
    }
  }

  /** A load moves the blocks of the inode it replaces out of the account of owned blocks and those of the image into
      it, and gives a number used for nobody an inode again; the accounts change by exactly as much. */
  lemma LoadBooks(fs: FS, i: nat, extra: set<nat>, lost: set<nat>) returns (extra': set<nat>, lost': set<nat>)
    requires Inv(fs, extra, lost) && InTableRange(fs, i) && Loadable(fs, i)
    ensures Inv(Reloaded(fs, i), extra', lost')
    ensures |extra'| == |extra| + CountInMemory(fs, i) - Load(fs, i).count
    ensures |lost'| == |lost| - if i in fs.inodes then 0 else 1
  {
    extra', lost' := LoadedAccount(fs, i, extra, lost);
    LoadableKeeps(fs, i);
    BlocksInMemoryCard(fs, i);
    BlocksCard(Load(fs, i));
    LoadedSets(fs, i, extra, lost);
    SwapCard(extra, BlocksInMemory(fs, i), BlocksOf(Load(fs, i)));
  }

  // ---- current images ----

  /** What the table gives back for an inode just written out. */
  function ImageOf(n: Inode): Inode {
    n.(size := SizeWord(n))
  }

  /** The table holds inode i as it is in memory. */
  predicate Current(fs: FS, i: nat) {
    i in fs.inodes && InTableRange(fs, i) && Load(fs, i) == ImageOf(fs.inodes[i])
  }

  lemma CurrentIsLoadable(fs: FS, i: nat)
    requires OwnInv(fs) && Current(fs, i)
    ensures Loadable(fs, i)
  {
    var n, m := fs.inodes[i], Load(fs, i);
    assert InodeOk(fs.lay, m);
    forall k, l | 0 <= k < l < BLOCK_PER_FILE && l < m.count
      ensures m.ptrs[k] != m.ptrs[l]
    {
      assert Owns(fs, i, k, n.ptrs[k]) && Owns(fs, i, l, n.ptrs[l]);
    }
    forall b | b in BlocksOf(m)
      ensures b in fs.used && !OwnedElsewhere(fs, i, b)
    {
      var k :| 0 <= k < BLOCK_PER_FILE && k < m.count && m.ptrs[k] == b;
      assert Owns(fs, i, k, b);
    }
  }

  lemma SizeKeepsRecords(fs: FS, after: FS, i: nat, size: nat, d: nat)
    requires OwnInv(fs) && OwnInv(after) && i in fs.inodes
    requires after == fs.(inodes := fs.inodes[i := fs.inodes[i].(size := size)])
    ensures DirIn(after, d) <==> DirIn(fs, d)
    ensures DirIn(fs, d) ==> DirRecs(after, d) == DirRecs(fs, d) && after.inodes[d].nlink == fs.inodes[d].nlink
  {
  }

  /** The namespace does not look at sizes. */
  lemma SizeFree(fs: FS, after: FS, i: nat, size: nat)
    requires OwnInv(fs) && OwnInv(after) && i in fs.inodes
    requires after == fs.(inodes := fs.inodes[i := fs.inodes[i].(size := size)])
    ensures NsOf(after) == NsOf(fs)
  {
    forall d: nat
      ensures DirIn(after, d) <==> DirIn(fs, d)
      ensures DirIn(fs, d) ==> DirRecs(after, d) == DirRecs(fs, d) && after.inodes[d].nlink == fs.inodes[d].nlink
    {
      SizeKeepsRecords(fs, after, i, size, d);
    }
    NsOfIs(NsOf(fs), after);
  }

  lemma SameOrShorter(fs: FS, i: nat)
    requires i in fs.inodes
    ensures fs.(inodes := fs.inodes[i := ImageOf(fs.inodes[i])]) == fs
        <==> !IsDir(fs.inodes[i].mode) || fs.inodes[i].size == 0
  {
    var n := fs.inodes[i];
    var after := fs.(inodes := fs.inodes[i := ImageOf(n)]);
    if !IsDir(n.mode) || n.size == 0 {
      assert ImageOf(n) == n;
      assert fs.inodes[i := n] == fs.inodes;
    } else {
      assert after.inodes[i].size != n.size;
    }
  }

  /** From a current image the load keeps ownership and the namespace; it changes nothing at all exactly when the inode
      is a file or of size 0. */
  lemma CurrentReload(fs: FS, i: nat)
    requires OwnInv(fs) && Current(fs, i)
    ensures OwnInv(Reloaded(fs, i)) && NsOf(Reloaded(fs, i)) == NsOf(fs)
    ensures Reloaded(fs, i) == fs <==> !IsDir(fs.inodes[i].mode) || fs.inodes[i].size == 0
  {
    CurrentIsLoadable(fs, i);
    LoadableKeeps(fs, i);
    SizeFree(fs, Reloaded(fs, i), i, SizeWord(fs.inodes[i]));
    SameOrShorter(fs, i);
  }

  /** Writing an inode out makes its image current. */
  lemma WrittenIsCurrent(fs: FS, i: nat)
    requires OwnInv(fs) && i in fs.inodes && Fits(fs.inodes[i])
    ensures InTableRange(fs, i) && OwnInv(WriteInode(fs, i)) && Current(WriteInode(fs, i), i)
  {
    var extra, lost := SomeAccount(fs);
    WriteInodeKeeps(fs, i, extra, lost);
  }

  /** The call neither touches inode i nor writes it out. */
  predicate LeavesAlone(op: Op, i: nat) {
    i !in Touched(op) && !WritesOut(op, i)
  }

  lemma {:induction false} RunLeavesAlone(fs: FS, ops: seq<Op>, i: nat) returns (after: FS)
    requires OwnInv(fs) && CanRun(fs, ops) && i in fs.inodes && forall op: Op :: op in ops ==> LeavesAlone(op, i)
    ensures after == Run(fs, ops) && i in after.inodes && after.inodes[i] == fs.inodes[i]
    decreases |ops|
  {
    after := fs;
    if ops != [] {
      assert ops[0] in ops && LeavesAlone(ops[0], i);
      var next := StepOwn(fs, ops[0]);
      assert SameFor(fs, next, i);
      after := RunLeavesAlone(next, ops[1..], i);
    }
  }

  /** A current image stays current through any run that leaves the inode alone, so the inode can be loaded from it at
      the end without any harm to ownership or the namespace. */
  lemma RunCurrent(fs: FS, ops: seq<Op>, i: nat) returns (after: FS)
    requires OwnInv(fs) && CanRun(fs, ops) && Current(fs, i) && forall op: Op :: op in ops ==> LeavesAlone(op, i)
    ensures after == Run(fs, ops) && Current(after, i) && OwnInv(Reloaded(after, i))
    ensures NsOf(Reloaded(after, i)) == NsOf(after)
  {
    after := RunLeavesAlone(fs, ops, i);
    assert forall op: Op :: op in ops ==> LeavesAlone(op, i);
    var _ := RunTable(fs, ops, i);
    CurrentReload(after, i);
  }

  // ---- an image left behind ----

  /** Inode i is loadable, but for one thing: block b of its image is not its to have. */
  lemma NotLoadable(fs: FS, i: nat, b: nat)
    requires OwnInv(fs) && InTableRange(fs, i) && b in BlocksOf(Load(fs, i))
    requires (b !in fs.used || OwnedElsewhere(fs, i, b))
    ensures !OwnInv(Reloaded(fs, i))
  {
    ReloadKeeps(fs, i);
  }

  lemma UnlinkLeavesImage(fs: FS, d: nat, name: Name, i: nat, b: nat) returns (fs1: FS)
    requires OwnInv(fs) && DirIn(fs, d) && PlainName(name) && i in fs.inodes && !IsDir(fs.inodes[i].mode)
    requires Unlink(fs, d, name, i).1 == 0 && b in BlocksOf(fs.inodes[i])
    ensures fs1 == Unlink(fs, d, name, i).0 && OwnInv(fs1) && b !in fs1.used && i !in fs1.inodes
    ensures fs.lay.dataStart <= b && fs1.lay == fs.lay
    ensures InTableRange(fs, i) && InTableRange(fs1, i) && Load(fs1, i) == Load(fs, i)
  {
    var op := OpUnlink(d, name, i);
    fs1 := StepOwn(fs, op);
    TableStable(fs, op, i);
    var k :| 0 <= k < BLOCK_PER_FILE && k < fs.inodes[i].count && fs.inodes[i].ptrs[k] == b;
    assert Owns(fs, i, k, b);
  }

  /** unlink does not rewrite the table, so when a number is used again before it is written out, its image still has
      the old pointers: a load from it would take blocks that are free or belong to the new file's directory. */
  lemma ReusedNumberIsStale(fs: FS, d: nat, name: Name, i: nat, name': Name, cred: Cred, b: nat)
    returns (fs1: FS, fs2: FS)
    requires OwnInv(fs) && DirIn(fs, d) && PlainName(name) && PlainName(name') && i in fs.inodes
    requires !IsDir(fs.inodes[i].mode)
    requires !IsDir(cred.mode) && Unlink(fs, d, name, i).1 == 0 && b in BlocksOf(fs.inodes[i]) && Current(fs, i)
    requires var mid := Unlink(fs, d, name, i).0;
      DirIn(mid, d) && FreeInode(mid) == Some(i) && Create(mid, d, name', cred).1 == 0 && !AddLeaks(mid, d)
    ensures fs1 == Unlink(fs, d, name, i).0 && fs2 == Create(fs1, d, name', cred).0 && OwnInv(fs2) && i in fs2.inodes
    ensures InTableRange(fs2, i) && !OwnInv(Reloaded(fs2, i))
  {
    fs1 := UnlinkLeavesImage(fs, d, name, i, b);
    fs2 := CreatedOver(fs1, d, name', cred, i, b);
    NotLoadable(fs2, i, b);
  }

  /** After a create that does not leak, a block that was free is free or has an owner other than the new file. */
  lemma CreatedOver(fs: FS, d: nat, name: Name, cred: Cred, i: nat, b: nat) returns (after: FS)
    requires OwnInv(fs) && DirIn(fs, d) && PlainName(name) && !IsDir(cred.mode) && FreeInode(fs) == Some(i)
    requires Create(fs, d, name, cred).1 == 0 && !AddLeaks(fs, d) && fs.lay.dataStart <= b && b !in fs.used
    ensures after == Create(fs, d, name, cred).0 && OwnInv(after) && i in after.inodes
    ensures InTableRange(fs, i) && InTableRange(after, i) && Load(after, i) == Load(fs, i)
    ensures b !in after.used || OwnedElsewhere(after, i, b)
  {
    var op := OpCreate(d, name, cred);
    var extra, lost := SomeAccount(fs);
    after := StepKeeps(fs, op, extra, lost);
    FreeInodeIsNew(fs);
    TableStable(fs, op, i);
    CreateReturns(fs, d, name, cred);
    if b in after.used {
      assert IsOwned(after, b);
      var j, k :| Owns(after, j, k, b);
      assert after.inodes[i].count == 0;
    }
  }
}
