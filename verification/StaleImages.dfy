/** Two sessions in which a name is forgotten and looked up again: what the table holds of its inode is not what was in
    memory, and takes the tree, or block ownership, with it. */
module StaleImages {
  import opened Bytes
  import opened Records
  import opened Directory
  import opened State
  import opened Steps
  import opened Accounting
  import opened FileWrite
  import opened FileRuns
  import opened InodeTable
  import opened Namespace
  import opened Simulation
  import opened Runs
  import opened TreeRuns
  import opened Undo
  import opened Visible
  import opened Books
  import opened Reload
  import opened Sessions
  import opened CoherentSessions
  import opened StaleDentry

  /** A short plain name. */
  predicate ShortName(name: Name) {
    PlainName(name) && 0 < |name| < MAX_FILENAME_LEN
  }

  // ---- a directory that comes back as a file ----

  /** The image of a file of size 0 without blocks. */
  predicate EmptyFile(n: Inode) {
    n.mode == 0 && n.size == 0 && n.count == 0 && n.ptrs == NoPtrs()
  }

  lemma ZeroImage(blk: Block)
    requires blk == ZeroBlock()
    ensures EmptyFile(Decode(blk))
  {
    assert Decode(blk).ptrs == NoPtrs();
  }

  /** A directory with an unused pointer takes a name if there is another free block for it. */
  lemma MkdirGoes(fs: FS, d: nat, i: nat, b: nat, c: nat)
    requires OwnInv(fs) && DirIn(fs, d) && FreeInode(fs) == Some(i) && FreeBlock(fs) == Some(b)
    requires fs.inodes[d].count < BLOCK_PER_FILE && fs.lay.dataStart <= c < fs.lay.blockTotal / 8 * 8
    requires c !in fs.used && c != b
    ensures !MkdirFails(fs, d) && !MkdirLeaks(fs, d)
  {
    var mid := Prepared(fs, i, b, d);
    assert c !in mid.used;
    assert FreeBlock(mid).Some?;
  }

  lemma FreshBlocks(disk: seq<Block>)
    requires 144 <= |disk| <= 8 * BITMAP_BYTES
    ensures var fs := Start(disk);
      FreeBlock(fs) == Some(133) && 134 !in fs.used && fs.lay.dataStart <= 134 < fs.lay.blockTotal / 8 * 8
  {
    var fs := Start(disk);
    LeastFreeIs(fs.used, MKFS_DATA, fs.lay.blockTotal / 8 * 8, 133);
  }

  lemma FreshPrepared(disk: seq<Block>, d: nat) returns (fs: FS)
    requires 144 <= |disk| <= 8 * BITMAP_BYTES && d == ROOT_INO
    ensures fs == Start(disk) && Stage(fs, d, [], {0}, {}) && FreeInode(fs) == Some(2)
    ensures !MkdirFails(fs, d) && !MkdirLeaks(fs, d)
  {
    fs := MountedStage(disk, d);
    FreeNumber(fs, 1);
    FreshBlocks(disk);
    MkdirGoes(fs, d, 2, 133, 134);
  }

  /** After the first mkdir on a fresh device inode 2 is a directory of the root, found by its name. */
  lemma FirstMkdir(disk: seq<Block>, d: nat, name: Name, cred: Cred) returns (fs: FS, after: FS)
    requires 144 <= |disk| <= 8 * BITMAP_BYTES && ShortName(name) && d == ROOT_INO
    ensures fs == Start(disk) && DirIn(fs, d) && Answer(DirRecs(fs, d), name) == None && FreeInode(fs) == Some(2)
    ensures Mkdir(fs, d, name, cred) == (after, 0) && OwnInv(after) && TreeInv(NsOf(after)) && !MkdirLeaks(fs, d)
    ensures DirIn(after, d) && DirIn(after, 2) && Answer(DirRecs(after, d), name) == Some(2)
  {
    fs := FreshPrepared(disk, d);
    MountedIsSound(disk);
    FirstMatchIs([], name, 0);
    MkdirReturns(fs, d, name, cred);
    NsUpdateSame(fs, d);
    TreeIsTidy(NsOf(fs));
    after := MkdirVisible(fs, d, name, cred);
    var _ := MkdirTree(fs, OpMkdir(d, name, cred), d, name, cred);
    var _ := MkdirSim(fs, d, name, cred);
    FirstDirs(Enter(NsOf(fs), d, name, 2), after, d);
    NsUpdateSame(after, d);
  }

  lemma FirstDirs(ns: Ns, after: FS, d: nat)
    requires OwnInv(after) && d in ns.dirs && d in ns.nlink && NsOf(after) == NsInstalled(ns, 2, d)
    ensures DirIn(after, d) && DirIn(after, 2)
  {
    assert d in NsOf(after).dirs && 2 in NsOf(after).dirs;
  }

  lemma EmptyFileLoads(fs: FS, i: nat)
    requires OwnInv(fs) && i in fs.inodes && i != ROOT_INO && InTableRange(fs, i) && EmptyFile(Load(fs, i))
    ensures Loadable(fs, i) && !IsDir(Load(fs, i).mode)
  {
    assert BlocksOf(Load(fs, i)) == {};
  }

  lemma NotThere(w: World, d: nat, name: Name) returns (call: VfsCall, next: World)
    requires OwnInv(w.fs) && DirIn(w.fs, d) && PlainName(name) && (d, name) !in w.dents
    requires Answer(DirRecs(w.fs, d), name) == None
    ensures call == Lookup(d, name) && Made(w, call) && Harmless(w, call)
    ensures next == Outcome(w, call) && next == w.(dents := w.dents[(d, name) := None])
  {
    call := Lookup(d, name);
    next := Outcome(w, call);
  }

  lemma MadeThere(w: World, d: nat, name: Name, cred: Cred, i: nat, made: FS) returns (call: VfsCall, next: World)
    requires OwnInv(w.fs) && DirIn(w.fs, d) && PlainName(name) && (d, name) in w.dents && w.dents[(d, name)] == None
    requires FreeInode(w.fs) == Some(i) && !MkdirLeaks(w.fs, d) && Mkdir(w.fs, d, name, cred) == (made, 0)
    ensures call == Do(OpMkdir(d, name, cred)) && Made(w, call) && Harmless(w, call)
    ensures next == Outcome(w, call) && next == World(made, w.dents[(d, name) := Some(i)], w.hash)
  {
    call := Do(OpMkdir(d, name, cred));
    next := Outcome(w, call);
  }

  lemma LookedUpThenMade(w0: World, d: nat, name: Name, cred: Cred, i: nat, made: FS)
    returns (calls: seq<VfsCall>, w: World)
    requires OwnInv(w0.fs) && w0.dents == map[] && w0.hash == {} && DirIn(w0.fs, d) && PlainName(name)
    requires Answer(DirRecs(w0.fs, d), name) == None && FreeInode(w0.fs) == Some(i) && !MkdirLeaks(w0.fs, d)
    requires Mkdir(w0.fs, d, name, cred) == (made, 0)
    ensures calls == [Lookup(d, name)] + [Do(OpMkdir(d, name, cred))] && Reached(w0, calls, w)
    ensures w == World(made, map[(d, name) := Some(i)], {})
  {
    var call, next := NotThere(w0, d, name);
    calls, next := GoOn(w0, [], w0, call);
    call, w := MadeThere(next, d, name, cred, i, made);
    calls, w := GoOn(w0, calls, next, call);
  }

  lemma ThenForgotten(w0: World, calls: seq<VfsCall>, w: World, d: nat, name: Name, i: nat)
    returns (more: seq<VfsCall>, next: World)
    requires Reached(w0, calls, w) && OwnInv(w.fs) && w.dents == map[(d, name) := Some(i)] && w.hash == {}
    ensures more == calls + [Forget(d, name)] && Reached(w0, more, next) && next == World(w.fs, map[], {})
  {
    more, next := GoOn(w0, calls, w, Forget(d, name));
    assert w.dents - {(d, name)} == map[];
  }

  lemma AnotherKind(w: World, call: VfsCall, i: nat)
    requires Made(w, call) && Loads(w, call) == Some(i) && DirIn(w.fs, i) && !IsDir(Load(w.fs, i).mode)
    ensures !LoadsFitting(w, call)
  {
  }

  lemma FoundAgain(w: World, d: nat, name: Name, i: nat) returns (last: VfsCall)
    requires OwnInv(w.fs) && w.dents == map[] && w.hash == {} && DirIn(w.fs, d) && PlainName(name)
    requires Answer(DirRecs(w.fs, d), name) == Some(i) && InTableRange(w.fs, i)
    ensures last == Lookup(d, name) && Made(w, last) && Loads(w, last) == Some(i)
  {
    last := Lookup(d, name);
  }

  lemma ComesBackAsFile(w: World, d: nat, name: Name, i: nat) returns (last: VfsCall, after: World)
    requires OwnInv(w.fs) && w.dents == map[] && w.hash == {} && DirIn(w.fs, d) && DirIn(w.fs, i) && PlainName(name)
    requires Answer(DirRecs(w.fs, d), name) == Some(i) && InTableRange(w.fs, i)
    requires Loadable(w.fs, i) && !IsDir(Load(w.fs, i).mode) && IsTree(w)
    ensures last == Lookup(d, name) && Made(w, last) && Loads(w, last) == Some(i)
    ensures after == Outcome(w, last) && OwnInv(after.fs) && !IsTree(after)
  {
    last := FoundAgain(w, d, name, i);
    after := Outcome(w, last);
    CallOwns(w, last);
    AnotherKind(w, last, i);
    LoadTree(w, last);
  }

  lemma ZeroTable(fs: FS, i: nat, t: nat)
    requires t == TableBlock(fs.lay, i) && t < |fs.disk| && fs.disk[t] == ZeroBlock()
    ensures InTableRange(fs, i) && EmptyFile(Load(fs, i))
  {
    ZeroImage(fs.disk[t]);
  }

  /** On a device with a zero table block for inode i, a directory made under that number has the image of a file. */
  lemma NoDirInTable(fs: FS, d: nat, name: Name, cred: Cred, made: FS, i: nat, t: nat)
    requires OwnInv(fs) && DirIn(fs, d) && PlainName(name) && Mkdir(fs, d, name, cred) == (made, 0)
    requires OwnInv(made) && i in made.inodes && i != ROOT_INO
    requires t == TableBlock(fs.lay, i) && t < |fs.disk| && fs.disk[t] == ZeroBlock()
    ensures InTableRange(made, i) && Loadable(made, i) && !IsDir(Load(made, i).mode)
  {
    var op := OpMkdir(d, name, cred);
    ZeroTable(fs, i, t);
    var next := StepOwn(fs, op);
    assert 1 <= i <= made.lay.inodeTotal;
    TableStable(fs, op, i);
    EmptyFileLoads(made, i);
  }

  /** mkdir, the VFS forgets the name, and the name is looked up again: on a device with a zero table block for inode 2
      the directory comes back as a file. Every name fits a record, no call leaks or mismatches, and block ownership
      holds, but the namespace is no tree any more (Sessions.SessionTree, TreeLoads.LoadKeepsTree). */
  lemma ForgottenDirectory(disk: seq<Block>, d: nat, name: Name, cred: Cred)
    returns (calls: seq<VfsCall>, w: World, last: VfsCall, after: World)
    requires 144 <= |disk| <= 8 * BITMAP_BYTES && ShortName(name) && d == ROOT_INO && disk[5] == ZeroBlock()
    ensures calls == [Lookup(d, name)] + [Do(OpMkdir(d, name, cred))] + [Forget(d, name)] && last == Lookup(d, name)
    ensures Reached(FreshWorld(disk), calls, w) && IsTree(w) && Made(w, last) && Loads(w, last) == Some(2)
    ensures after == Outcome(w, last) && OwnInv(after.fs) && !IsTree(after)
  {
    var fs, made := FirstMkdir(disk, d, name, cred);
    var _ := FreshIsCoherent(disk);
    calls, w := LookedUpThenMade(FreshWorld(disk), d, name, cred, 2, made);
    calls, w := ThenForgotten(FreshWorld(disk), calls, w, d, name, 2);
    NoDirInTable(fs, d, name, cred, made, 2, 5);
    last, after := ComesBackAsFile(w, d, name, 2);
  }

  // ---- a file that comes back with blocks it does not have ----

  lemma SameStage(fs: FS, after: FS, d: nat, recs: seq<Rec>, iused: set<nat>, files: set<nat>)
    requires Stage(fs, d, recs, iused, files) && OwnInv(after) && NsOf(after) == NsOf(fs)
    requires after.iused == fs.iused && after.lay == fs.lay
    ensures Stage(after, d, recs, iused, files)
  {
    NsUpdateSame(fs, d);
    assert d in NsOf(after).dirs;
    NsUpdateSame(after, d);
    forall i | i in files
      ensures i in after.inodes && !IsDir(after.inodes[i].mode)
    {
      assert i in NsOf(fs).live && i !in NsOf(fs).dirs;
    }
  }

  /** Writing a block or less to an empty file takes one block for it. */
  lemma WriteStage(fs: FS, d: nat, recs: seq<Rec>, iused: set<nat>, files: set<nat>, i: nat, buf: seq<byte>)
    returns (after: FS)
    requires Stage(fs, d, recs, iused, files) && i in files && fs.inodes[i].count == 0 && fs.inodes[i].size == 0
    requires Fits(fs.inodes[i]) && 0 < |buf| <= BLOCK_SIZE && FreeBlock(fs).Some?
    ensures FileIn(fs, i) && Write(fs, i, 0, buf).0 == after && Write(fs, i, 0, buf).1 == |buf|
    ensures Stage(after, d, recs, iused, files) && after.inodes[i].count == 1 && Fits(after.inodes[i])
  {
    OneAvailable(fs, FreeBlock(fs).value);
    WriteReturns(fs, i, 0, buf);
    WriteTouchesOnly(fs, i, 0, buf);
    WriteSlack(fs, i, 0, buf);
    after := WriteNs(fs, i, 0, buf);
    SameStage(fs, after, d, recs, iused, files);
  }

  predicate FitsCred(cred: Cred) {
    !IsDir(cred.mode) && cred.mode < WORD && cred.uid < WORD && cred.gid < WORD
  }

  lemma CreatedInode(fs: FS, d: nat, name: Name, cred: Cred, i: nat)
    requires OwnInv(fs) && DirIn(fs, d) && Create(fs, d, name, cred).1 == 0 && FreeInode(fs) == Some(i)
    ensures i in Create(fs, d, name, cred).0.inodes
    ensures Create(fs, d, name, cred).0.inodes[i] == Inode(cred.mode, cred.uid, cred.gid, 1, 0, 0, NoPtrs())
  {
  }

  /** The first file on a fresh device. */
  lemma FirstFile(disk: seq<Block>, d: nat, name: Name, cred: Cred, i: nat)
    returns (fs: FS, after: FS, recs: seq<Rec>)
    requires 144 <= |disk| <= 8 * BITMAP_BYTES && ShortName(name) && FitsCred(cred) && d == ROOT_INO && i == 2
    ensures fs == Start(disk) && DirIn(fs, d) && Answer(DirRecs(fs, d), name) == None && FreeInode(fs) == Some(i)
    ensures Create(fs, d, name, cred) == (after, 0) && !AddLeaks(fs, d)
    ensures Stage(after, d, recs, {0, 1}, {i}) && TwoRecords(recs, i, name, 0, name)
    ensures after.inodes[i] == Inode(cred.mode, cred.uid, cred.gid, 1, 0, 0, NoPtrs()) && FreeBlock(after).Some?
  {
    fs, after, recs := FirstState(disk, d, name, cred);
    CreatedInode(fs, d, name, cred, i);
    FreshBlocks(disk);
    BlockLeft(fs, after, d, name, cred, 133, 134);
  }

  /** A create takes at most one block. */
  lemma BlockLeft(fs: FS, after: FS, d: nat, name: Name, cred: Cred, b: nat, c: nat)
    requires OwnInv(fs) && DirIn(fs, d) && !IsDir(cred.mode) && !Fails(fs, d) && !AddLeaks(fs, d)
    requires after == Create(fs, d, name, cred).0 && FreeBlock(fs) == Some(b) && c !in fs.used && c != b
    requires fs.lay.dataStart <= c < fs.lay.blockTotal / 8 * 8
    ensures FreeBlock(after).Some?
  {
    var _, _ := CreateBears(fs, d, name, cred);
    assert c !in after.used;
  }

  /** It is written to, and written out. */
  lemma WrittenOut(fs: FS, d: nat, recs: seq<Rec>, iused: set<nat>, files: set<nat>, i: nat, buf: seq<byte>)
    returns (mid: FS, after: FS, b: nat)
    requires Stage(fs, d, recs, iused, files) && i in files && fs.inodes[i].count == 0 && fs.inodes[i].size == 0
    requires Fits(fs.inodes[i]) && 0 < |buf| <= BLOCK_SIZE && FreeBlock(fs).Some?
    ensures FileIn(fs, i) && Write(fs, i, 0, buf).0 == mid && Write(fs, i, 0, buf).1 == |buf|
    ensures OwnInv(mid) && i in mid.inodes && InTableRange(mid, i) && InodeOk(mid.lay, mid.inodes[i])
    ensures after == WriteInode(mid, i)
    ensures Stage(after, d, recs, iused, files) && Current(after, i) && b in BlocksOf(after.inodes[i])
  {
    mid := WriteStage(fs, d, recs, iused, files, i, buf);
    WrittenIsCurrent(mid, i);
    WriteInodeNs(mid, i);
    after := WriteInode(mid, i);
    SameStage(mid, after, d, recs, iused, files);
    b := after.inodes[i].ptrs[0];
    BlockIn(after.inodes[i], 0);
  }

  /** It is removed, and a file of the same name gets its number. */
  lemma MadeAgain(fs: FS, d: nat, recs: seq<Rec>, name: Name, cred: Cred, i: nat, b: nat)
    returns (mid: FS, after: FS, more: seq<Rec>)
    requires Stage(fs, d, recs, {0, 1}, {i}) && TwoRecords(recs, i, name, 0, name) && i == 2 && ShortName(name)
    requires FitsCred(cred)
    requires Current(fs, i) && b in BlocksOf(fs.inodes[i])
    ensures Unlink(fs, d, name, i) == (mid, 0) && OwnInv(mid) && DirIn(mid, d) && FreeInode(mid) == Some(i)
    ensures BoundTo(fs, d, name, i) && !AddLeaks(mid, d)
    ensures Create(mid, d, name, cred) == (after, 0) && Stage(after, d, more, {0} + {1}, {} + {i})
    ensures Answer(more, name) == Some(i) && InTableRange(after, i) && !OwnInv(Reloaded(after, i))
  {
    Scan(recs, i, name, 0, name, name);
    mid := UnlinkStage(fs, d, recs, {0, 1}, {i}, name, i, 0);
    assert {0, 1} - {1} == {0} && {i} - {i} == {};
    FreeNumber(mid, 1);
    var gone := recs[0 := ZeroRec()];
    Scan(gone, 0, name, 0, name, name);
    SlotFree(mid, d);
    after := FileStage(mid, d, gone, {0}, {}, name, cred, i);
    more := AddRec(gone, RecordOf(i, name));
    Scan(more, i, name, 0, name, name);
    var _, _ := ReusedNumberIsStale(fs, d, name, i, name, cred, b);
  }

  // ---- the second session ----

  lemma CreateCall(w0: World, calls: seq<VfsCall>, w: World, d: nat, name: Name, cred: Cred, i: nat, after: FS)
    returns (more: seq<VfsCall>, next: World)
    requires Reached(w0, calls, w) && OwnInv(w.fs) && DirIn(w.fs, d) && PlainName(name) && !IsDir(cred.mode)
    requires w.dents == map[(d, name) := None] && w.hash == {}
    requires FreeInode(w.fs) == Some(i) && !AddLeaks(w.fs, d) && Create(w.fs, d, name, cred) == (after, 0)
    ensures more == calls + [Do(OpCreate(d, name, cred))] && Reached(w0, more, next)
    ensures next == World(after, map[(d, name) := Some(i)], {})
  {
    more, next := GoOn(w0, calls, w, Do(OpCreate(d, name, cred)));
  }

  lemma WriteCalls(w0: World, calls: seq<VfsCall>, w: World, i: nat, buf: seq<byte>, mid: FS, after: FS)
    returns (more: seq<VfsCall>, next: World)
    requires Reached(w0, calls, w) && FileIn(w.fs, i) && Write(w.fs, i, 0, buf).0 == mid
    requires Write(w.fs, i, 0, buf).1 == |buf|
    requires OwnInv(mid) && i in mid.inodes && InTableRange(mid, i) && InodeOk(mid.lay, mid.inodes[i])
    requires after == WriteInode(mid, i)
    ensures more == calls + [Do(OpWrite(i, 0, buf))] + [Do(OpWriteInode(i))] && Reached(w0, more, next)
    ensures next == World(after, w.dents, w.hash)
  {
    more, next := GoOn(w0, calls, w, Do(OpWrite(i, 0, buf)));
    more, next := GoOn(w0, more, next, Do(OpWriteInode(i)));
  }

  lemma UnlinkCall(w0: World, calls: seq<VfsCall>, w: World, d: nat, name: Name, i: nat, after: FS)
    returns (more: seq<VfsCall>, next: World)
    requires Reached(w0, calls, w) && OwnInv(w.fs) && DirIn(w.fs, d) && PlainName(name) && d != i
    requires i in w.fs.inodes && !IsDir(w.fs.inodes[i].mode) && BoundTo(w.fs, d, name, i)
    requires w.dents == map[(d, name) := Some(i)] && w.hash == {} && Unlink(w.fs, d, name, i) == (after, 0)
    ensures more == calls + [Do(OpUnlink(d, name, i))] && Reached(w0, more, next)
    ensures next == World(after, map[(d, name) := None], {})
  {
    more, next := GoOn(w0, calls, w, Do(OpUnlink(d, name, i)));
    assert Without(w.dents, i) == map[];
  }

  lemma BreaksOwnership(w: World, d: nat, name: Name, i: nat) returns (last: VfsCall, after: World)
    requires OwnInv(w.fs) && w.dents == map[] && w.hash == {} && DirIn(w.fs, d) && PlainName(name)
    requires Answer(DirRecs(w.fs, d), name) == Some(i) && InTableRange(w.fs, i) && !OwnInv(Reloaded(w.fs, i))
    ensures last == Lookup(d, name) && Made(w, last) && Loads(w, last) == Some(i)
    ensures after == Outcome(w, last) && !OwnInv(after.fs)
  {
    last := FoundAgain(w, d, name, i);
    after := Outcome(w, last);
  }

  /** The calls up to the last lookup. */
  function ReuseCalls(d: nat, name: Name, cred: Cred, i: nat, buf: seq<byte>): seq<VfsCall> {
    [Lookup(d, name)] + [Do(OpCreate(d, name, cred))] + [Do(OpWrite(i, 0, buf))] + [Do(OpWriteInode(i))]
      + [Do(OpUnlink(d, name, i))] + [Do(OpCreate(d, name, cred))] + [Forget(d, name)]
  }

  lemma FirstCalls(w0: World, d: nat, name: Name, cred: Cred, i: nat, buf: seq<byte>, made: FS, mid: FS, kept: FS)
    returns (calls: seq<VfsCall>, w: World)
    requires OwnInv(w0.fs) && DirIn(w0.fs, d) && PlainName(name) && !IsDir(cred.mode) && w0.dents == map[]
    requires w0.hash == {}
    requires Answer(DirRecs(w0.fs, d), name) == None && FreeInode(w0.fs) == Some(i) && !AddLeaks(w0.fs, d)
    requires Create(w0.fs, d, name, cred) == (made, 0)
    requires FileIn(made, i) && Write(made, i, 0, buf).0 == mid && Write(made, i, 0, buf).1 == |buf|
    requires OwnInv(mid) && i in mid.inodes && InTableRange(mid, i) && InodeOk(mid.lay, mid.inodes[i])
    requires kept == WriteInode(mid, i)
    ensures calls == [Lookup(d, name)] + [Do(OpCreate(d, name, cred))] + [Do(OpWrite(i, 0, buf))]
        + [Do(OpWriteInode(i))]
    ensures Reached(w0, calls, w) && w == World(kept, map[(d, name) := Some(i)], {})
  {
    var call, next := NotThere(w0, d, name);
    calls, w := GoOn(w0, [], w0, call);
    calls, w := CreateCall(w0, calls, w, d, name, cred, i, made);
    calls, w := WriteCalls(w0, calls, w, i, buf, mid, kept);
  }

  lemma LastCalls(w0: World, calls: seq<VfsCall>, w: World, d: nat, name: Name, cred: Cred, i: nat, gone: FS, again: FS)
    returns (more: seq<VfsCall>, next: World)
    requires Reached(w0, calls, w) && OwnInv(w.fs) && DirIn(w.fs, d) && PlainName(name) && !IsDir(cred.mode) && d != i
    requires i in w.fs.inodes && !IsDir(w.fs.inodes[i].mode) && BoundTo(w.fs, d, name, i)
    requires w.dents == map[(d, name) := Some(i)] && w.hash == {} && Unlink(w.fs, d, name, i) == (gone, 0)
    requires OwnInv(gone) && DirIn(gone, d) && FreeInode(gone) == Some(i) && !AddLeaks(gone, d)
    requires Create(gone, d, name, cred) == (again, 0) && OwnInv(again)
    ensures more == calls + [Do(OpUnlink(d, name, i))] + [Do(OpCreate(d, name, cred))] + [Forget(d, name)]
    ensures Reached(w0, more, next) && next == World(again, map[], {})
  {
    more, next := UnlinkCall(w0, calls, w, d, name, i, gone);
    more, next := CreateCall(w0, more, next, d, name, cred, i, again);
    more, next := ThenForgotten(w0, more, next, d, name, i);
  }

  lemma WrittenAndForgotten(disk: seq<Block>, d: nat, name: Name, cred: Cred, i: nat, buf: seq<byte>)
    returns (calls: seq<VfsCall>, w: World)
    requires 144 <= |disk| <= 8 * BITMAP_BYTES && ShortName(name) && FitsCred(cred) && 0 < |buf| <= BLOCK_SIZE
    requires d == ROOT_INO && i == 2
    ensures calls == ReuseCalls(d, name, cred, i, buf) && Reached(FreshWorld(disk), calls, w)
    ensures OwnInv(w.fs) && w.dents == map[] && w.hash == {} && DirIn(w.fs, d)
    ensures Answer(DirRecs(w.fs, d), name) == Some(i) && InTableRange(w.fs, i) && !OwnInv(Reloaded(w.fs, i))
  {
    var fs, made, recs := FirstFile(disk, d, name, cred, i);
    var mid, kept, b := WrittenOut(made, d, recs, {0, 1}, {i}, i, buf);
    var gone, again, _ := MadeAgain(kept, d, recs, name, cred, i, b);
    calls, w := FirstCalls(FreshWorld(disk), d, name, cred, i, buf, made, mid, kept);
    calls, w := LastCalls(FreshWorld(disk), calls, w, d, name, cred, i, gone, again);
  }

  /** A file is created, written to, written out and removed, and one of the same name is created; then the VFS forgets
      the name and it is looked up again. The new file comes back with the block of the old one, which is free: a lookup
      has broken block ownership (Sessions.SessionOwns, Reload.ReusedNumberIsStale). */
  lemma ForgottenFile(disk: seq<Block>, d: nat, name: Name, cred: Cred, i: nat, buf: seq<byte>)
    returns (calls: seq<VfsCall>, w: World, last: VfsCall, after: World)
    requires 144 <= |disk| <= 8 * BITMAP_BYTES && ShortName(name) && FitsCred(cred) && 0 < |buf| <= BLOCK_SIZE
    requires d == ROOT_INO && i == 2
    ensures calls == ReuseCalls(d, name, cred, i, buf) && Reached(FreshWorld(disk), calls, w) && OwnInv(w.fs)
    ensures last == Lookup(d, name) && Made(w, last) && Loads(w, last) == Some(i)
    ensures after == Outcome(w, last) && !OwnInv(after.fs)
  {
    calls, w := WrittenAndForgotten(disk, d, name, cred, i, buf);
    last, after := BreaksOwnership(w, d, name, i);
  }
}
