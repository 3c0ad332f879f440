/** A session in which the VFS removes one file and the directory loses another: a cached name that was cut off when it
    was stored meets a longer one that is stored the same way. */
module StaleDentry {
  import opened Bytes
  import opened Records
  import opened Directory
  import opened State
  import opened Steps
  import opened Ownership
  import opened Accounting
  import opened Namespace
  import opened Simulation
  import opened Runs
  import opened TreeRuns
  import opened Undo
  import opened Visible
  import opened Books
  import opened Sessions
  import opened CoherentSessions

  // ---- building a session call by call ----

  /** The session leads from w0 to w by harmless calls. */
  ghost predicate Reached(w0: World, calls: seq<VfsCall>, w: World) {
    CanGo(w0, calls) && Go(w0, calls) == w && All(Harmless, w0, calls)
  }

  lemma GoOn(w0: World, calls: seq<VfsCall>, w: World, call: VfsCall) returns (more: seq<VfsCall>, next: World)
    requires Reached(w0, calls, w) && Made(w, call) && Harmless(w, call)
    ensures more == calls + [call] && next == Outcome(w, call) && Reached(w0, more, next)
  {
    more := OneMore(Harmless, w0, calls, call);
    next := Outcome(w, call);
  }

  // ---- a directory, one file at a time ----

  /** Directory d holds recs, and the given inode bits are set and the given files in memory. */
  ghost predicate Stage(fs: FS, d: nat, recs: seq<Rec>, iused: set<nat>, files: set<nat>) {
    && OwnInv(fs) && DirIn(fs, d) && DirRecs(fs, d) == recs
    && fs.iused == iused && 8 <= fs.lay.inodeTotal
    && forall i :: i in files ==> i in fs.inodes && !IsDir(fs.inodes[i].mode)
  }

  lemma FileStage(fs: FS, d: nat, recs: seq<Rec>, iused: set<nat>, files: set<nat>, name: Name, cred: Cred, ino: nat)
    returns (after: FS)
    requires Stage(fs, d, recs, iused, files) && !IsDir(cred.mode)
    requires FreeInode(fs) == Some(ino) && !AddFails(fs, d) && !AddLeaks(fs, d)
    ensures Create(fs, d, name, cred) == (after, 0)
    ensures Stage(after, d, AddRec(recs, Rec(ino, Padded(name))), iused + {ino - 1}, files + {ino})
  {
    CreateReturns(fs, d, name, cred);
    FreeInodeIsNew(fs);
    var i;
    after, i := CreateBears(fs, d, name, cred);
    var _, _ := NewFileIsEmpty(fs, d, name, cred, 0, 0);
  }

  lemma UnlinkStage(fs: FS, d: nat, recs: seq<Rec>, iused: set<nat>, files: set<nat>, name: Name, i: nat, f: nat)
    returns (after: FS)
    requires Stage(fs, d, recs, iused, files) && i in files && f < |recs| && FirstMatch(recs, name) == f
    ensures Unlink(fs, d, name, i) == (after, 0)
    ensures Stage(after, d, recs[f := ZeroRec()], iused - {i as int - 1}, files - {i})
    ensures after.inodes.Keys == fs.inodes.Keys - {i}
  {
    after := UnlinkSim(fs, d, name, i);
    NsUpdateSame(fs, d);
    NsUpdateSame(after, d);
    RemoveEntryRecs(fs, d, name);
    RemoveEntryKeeps(fs, d, name);
  }

  lemma FreeNumber(fs: FS, k: nat)
    requires 8 <= fs.lay.inodeTotal && k < 8 && k !in fs.iused && forall c :: 0 <= c < k ==> c in fs.iused
    ensures FreeInode(fs) == Some(k + 1)
  {
    LeastFreeIs(fs.iused, 0, fs.lay.inodeTotal / 8 * 8, k);
  }

  lemma SlotFree(fs: FS, d: nat)
    requires DirOk(fs, d) && FirstFree(DirRecs(fs, d)) < |DirRecs(fs, d)|
    ensures !AddFails(fs, d) && !AddLeaks(fs, d)
  {
  }

  // ---- the calls of the session ----

  /** A name looked up and not found, then created. */
  lemma LookUpAndCreate(w0: World, calls: seq<VfsCall>, w: World, d: nat, name: Name, cred: Cred)
    returns (more: seq<VfsCall>, next: World)
    requires Reached(w0, calls, w) && OwnInv(w.fs) && DirIn(w.fs, d) && PlainName(name) && !IsDir(cred.mode)
    requires (d, name) !in w.dents && FirstMatch(DirRecs(w.fs, d), name) == |DirRecs(w.fs, d)|
    requires FreeInode(w.fs).Some? && !AddFails(w.fs, d) && !AddLeaks(w.fs, d)
    ensures Reached(w0, more, next) && next.fs == Create(w.fs, d, name, cred).0
    ensures next.dents == w.dents[(d, name) := FreeInode(w.fs)]
  {
    CreateReturns(w.fs, d, name, cred);
    more, next := GoOn(w0, calls, w, Lookup(d, name));
    more, next := GoOn(w0, more, next, Do(OpCreate(d, name, cred)));
  }

  lemma RemoveBound(w0: World, calls: seq<VfsCall>, w: World, d: nat, name: Name, i: nat)
    returns (more: seq<VfsCall>, next: World)
    requires Reached(w0, calls, w) && OwnInv(w.fs) && DirIn(w.fs, d) && PlainName(name)
    requires i in w.fs.inodes && !IsDir(w.fs.inodes[i].mode) && (d, name) in w.dents && w.dents[(d, name)] == Some(i)
    requires BoundTo(w.fs, d, name, i) && Unlink(w.fs, d, name, i).1 == 0
    ensures Reached(w0, more, next) && next.fs == Unlink(w.fs, d, name, i).0
    ensures next.dents == Without(w.dents, i)[(d, name) := None]
  {
    more, next := GoOn(w0, calls, w, Do(OpUnlink(d, name, i)));
  }

  // ---- the names and the records ----

  /** Two short names, one of them 127 bytes long, and a third that continues it. */
  predicate ThreeNames(b: Name, p: Name, l: Name) {
    PlainName(b) && PlainName(p) && PlainName(l) && |b| < |p| && |p| == MAX_FILENAME_LEN - 1 && |l| > |p|
      && l[..|p|] == p
  }

  function RecordOf(ino: nat, name: Name): Rec {
    Rec(ino, Padded(name))
  }

  /** Three records, the first two given by their numbers and names, where number 0 stands for an unused one. */
  predicate TwoRecords(recs: seq<Rec>, i: nat, x: Name, j: nat, y: Name) {
    && |recs| == 3 && recs[2] == ZeroRec()
    && recs[0] == (if i == 0 then ZeroRec() else RecordOf(i, x))
    && recs[1] == (if j == 0 then ZeroRec() else RecordOf(j, y))
  }

  lemma RecordNames(ino: nat, of: Name, name: Name)
    ensures Names(RecordOf(ino, of), name) <==> ino != 0 && Stored(of) == name
  {
    PaddedName(of, ino);
    MatchesMeansNamed(RecordOf(ino, of), name);
  }

  lemma Scan(recs: seq<Rec>, i: nat, x: Name, j: nat, y: Name, name: Name)
    requires TwoRecords(recs, i, x, j, y)
    ensures FirstMatch(recs, name) == if i != 0 && Stored(x) == name then 0
                                      else if j != 0 && Stored(y) == name then 1 else 3
    ensures FirstFree(recs) == if i == 0 then 0 else if j == 0 then 1 else 2
  {
    RecordNames(i, x, name);
    RecordNames(j, y, name);
    FirstMatchIs(recs, name, if i != 0 && Stored(x) == name then 0 else if j != 0 && Stored(y) == name then 1 else 3);
    FirstFreeIs(recs, if i == 0 then 0 else if j == 0 then 1 else 2);
  }

  // ---- the session ----

  lemma MountedStage(disk: seq<Block>, d: nat) returns (fs: FS)
    requires 144 <= |disk| <= 8 * BITMAP_BYTES && d == ROOT_INO
    ensures fs == Start(disk) && Stage(fs, d, [], {0}, {}) && !AddFails(fs, d) && !AddLeaks(fs, d)
    ensures FreeInode(fs) == Some(2)
  {
    fs := Mounted(disk);
    MountedIsSound(disk);
    MountedRoom(disk);
    assert DirRecs(fs, d) == [];
  }

  lemma MountedRoom(disk: seq<Block>)
    requires 144 <= |disk| <= 8 * BITMAP_BYTES
    ensures FreeInode(Mounted(disk)) == Some(2) && FreeBlock(Mounted(disk)) == Some(133)
  {
    var fs := Mounted(disk);
    FreeNumber(fs, 1);
    LeastFreeIs(fs.used, MKFS_DATA, fs.lay.blockTotal / 8 * 8, 133);
  }

  lemma SetsMove()
    ensures {0 as nat, 1, 2} - {1} == {0, 2} && {2 as nat, 3} - {2} == {3}
    ensures {0 as nat, 2} + {1} == {0, 1, 2} && {3 as nat} + {2} == {2, 3}
    ensures {0 as nat} + {1} == {0, 1} && {} + {2 as nat} == {2}
    ensures {0 as nat, 1} + {2} == {0, 1, 2} && {2 as nat} + {3} == {2, 3}
  {
  }

  lemma FirstRecords(b: Name) returns (recs: seq<Rec>)
    ensures FirstMatch([], b) == 0 && recs == AddRec([], Rec(2, Padded(b))) && TwoRecords(recs, 2, b, 0, b)
  {
    FirstFreeIs([], 0);
    FirstMatchIs([], b, 0);
    recs := AddRec([], RecordOf(2, b));
  }

  lemma FirstState(disk: seq<Block>, d: nat, b: Name, cred: Cred) returns (fs: FS, after: FS, recs: seq<Rec>)
    requires 144 <= |disk| <= 8 * BITMAP_BYTES && d == ROOT_INO && PlainName(b) && !IsDir(cred.mode)
    ensures fs == Start(disk) && OwnInv(fs) && DirIn(fs, d) && FirstMatch(DirRecs(fs, d), b) == |DirRecs(fs, d)|
    ensures FreeInode(fs) == Some(2) && !AddFails(fs, d) && !AddLeaks(fs, d)
    ensures Create(fs, d, b, cred) == (after, 0)
    ensures Stage(after, d, recs, {0, 1}, {2}) && TwoRecords(recs, 2, b, 0, b)
  {
    fs := MountedStage(disk, d);
    recs := FirstRecords(b);
    after := FileStage(fs, d, [], {0}, {}, b, cred, 2);
    SetsMove();
  }

  /** b is created, with number 2. */
  lemma First(disk: seq<Block>, d: nat, b: Name, cred: Cred)
    returns (w0: World, calls: seq<VfsCall>, w: World, recs: seq<Rec>)
    requires 144 <= |disk| <= 8 * BITMAP_BYTES && d == ROOT_INO && PlainName(b) && !IsDir(cred.mode)
    ensures w0 == FreshWorld(disk) && Reached(w0, calls, w)
    ensures Stage(w.fs, d, recs, {0, 1}, {2}) && TwoRecords(recs, 2, b, 0, b) && w.dents == map[(d, b) := Some(2)]
  {
    var fs, after, made := FirstState(disk, d, b, cred);
    w0 := FreshWorld(disk);
    calls, w := LookUpAndCreate(w0, [], w0, d, b, cred);
    recs := made;
  }

  /** p is created, with number 3. */
  lemma Second(w0: World, calls: seq<VfsCall>, w: World, d: nat, recs: seq<Rec>, b: Name, p: Name, cred: Cred)
    returns (more: seq<VfsCall>, next: World, after: seq<Rec>)
    requires Reached(w0, calls, w) && PlainName(p) && |b| < |p| < MAX_FILENAME_LEN
    requires !IsDir(cred.mode)
    requires Stage(w.fs, d, recs, {0, 1}, {2}) && TwoRecords(recs, 2, b, 0, b) && w.dents == map[(d, b) := Some(2)]
    ensures Reached(w0, more, next)
    ensures Stage(next.fs, d, after, {0, 1, 2}, {2, 3}) && TwoRecords(after, 2, b, 3, p)
    ensures next.dents == map[(d, b) := Some(2), (d, p) := Some(3)]
  {
    Scan(recs, 2, b, 0, b, p);
    FreeNumber(w.fs, 2);
    SlotFree(w.fs, d);
    var fs := FileStage(w.fs, d, recs, {0, 1}, {2}, p, cred, 3);
    more, next := LookUpAndCreate(w0, calls, w, d, p, cred);
    after := AddRec(recs, RecordOf(3, p));
    SetsMove();
  }

  lemma DentsLeft(dents: Dents, d: nat, b: Name, p: Name)
    requires dents == map[(d, b) := Some(2), (d, p) := Some(3)] && d != 2 && b != p
    ensures Without(dents, 2)[(d, b) := None] == map[(d, p) := Some(3), (d, b) := None]
  {
  }

  lemma DentsMore(dents: Dents, d: nat, b: Name, p: Name, l: Name)
    requires dents == map[(d, p) := Some(3), (d, b) := None] && |b| < |p| < |l|
    ensures (d, l) !in dents
    ensures var more := dents[(d, l) := Some(2)]; (d, p) in more && more[(d, p)] == Some(3)
  {
  }

  /** b is removed. */
  lemma Third(w0: World, calls: seq<VfsCall>, w: World, d: nat, recs: seq<Rec>, b: Name, p: Name)
    returns (more: seq<VfsCall>, next: World, after: seq<Rec>)
    requires Reached(w0, calls, w) && PlainName(b) && |b| < |p| < MAX_FILENAME_LEN
    requires Stage(w.fs, d, recs, {0, 1, 2}, {2, 3}) && TwoRecords(recs, 2, b, 3, p)
    requires w.dents == map[(d, b) := Some(2), (d, p) := Some(3)] && d != 2
    ensures Reached(w0, more, next)
    ensures Stage(next.fs, d, after, {0, 2}, {3}) && TwoRecords(after, 0, b, 3, p)
    ensures next.dents == map[(d, p) := Some(3), (d, b) := None]
  {
    Scan(recs, 2, b, 3, p, b);
    var fs := UnlinkStage(w.fs, d, recs, {0, 1, 2}, {2, 3}, b, 2, 0);
    SetsMove();
    DentsLeft(w.dents, d, b, p);
    more, next := RemoveBound(w0, calls, w, d, b, 2);
    after := recs[0 := ZeroRec()];
  }

  /** l is created, with b's old number and in b's old record. */
  lemma Fourth(w0: World, calls: seq<VfsCall>, w: World, d: nat, recs: seq<Rec>, b: Name, p: Name, l: Name, cred: Cred)
    returns (more: seq<VfsCall>, next: World, after: seq<Rec>)
    requires Reached(w0, calls, w) && ThreeNames(b, p, l) && !IsDir(cred.mode)
    requires Stage(w.fs, d, recs, {0, 2}, {3}) && TwoRecords(recs, 0, b, 3, p)
    requires w.dents == map[(d, p) := Some(3), (d, b) := None]
    ensures Reached(w0, more, next)
    ensures Stage(next.fs, d, after, {0, 1, 2}, {2, 3}) && TwoRecords(after, 2, l, 3, p)
    ensures (d, p) in next.dents && next.dents[(d, p)] == Some(3)
  {
    Scan(recs, 0, b, 3, p, l);
    FreeNumber(w.fs, 1);
    SlotFree(w.fs, d);
    var fs := FileStage(w.fs, d, recs, {0, 2}, {3}, l, cred, 2);
    SetsMove();
    DentsMore(w.dents, d, b, p, l);
    more, next := LookUpAndCreate(w0, calls, w, d, l, cred);
    after := AddRec(recs, RecordOf(2, l));
  }

  /** p is removed: the inode of its dentry is 3, the first record that matches it is that of 2. */
  lemma Fifth(w: World, d: nat, recs: seq<Rec>, p: Name, l: Name) returns (op: Op, after: FS)
    requires Stage(w.fs, d, recs, {0, 1, 2}, {2, 3}) && TwoRecords(recs, 2, l, 3, p) && PlainName(p) && Stored(l) == p
    requires (d, p) in w.dents && w.dents[(d, p)] == Some(3)
    ensures op == OpUnlink(d, p, 3) && Allowed(w, Do(op)) && Mismatches(w.fs, op) && Step(w.fs, op) == (after, 0)
    ensures Stage(after, d, recs[0 := ZeroRec()], {0, 1}, {2}) && 3 !in after.inodes
  {
    Scan(recs, 2, l, 3, p, p);
    op := OpUnlink(d, p, 3);
    after := UnlinkStage(w.fs, d, recs, {0, 1, 2}, {2, 3}, p, 3, 0);
    assert {0, 1, 2} - {2} == {0, 1} && {2, 3} - {3} == {2};
  }

  lemma MismatchBreaksTree(fs: FS, op: Op, after: FS)
    requires OwnInv(fs) && TreeInv(NsOf(fs)) && Enabled(fs, op) && Mismatches(fs, op) && after == Next(fs, op)
    ensures OwnInv(after) && !TreeInv(NsOf(after))
  {
    StepTree(fs, op);
  }

  lemma BeforeFifth(disk: seq<Block>, d: nat, b: Name, p: Name, l: Name, cred: Cred)
    returns (w0: World, calls: seq<VfsCall>, w: World, recs: seq<Rec>)
    requires 144 <= |disk| <= 8 * BITMAP_BYTES && ThreeNames(b, p, l) && !IsDir(cred.mode) && d == ROOT_INO
    ensures w0 == FreshWorld(disk) && Reached(w0, calls, w)
    ensures Stage(w.fs, d, recs, {0, 1, 2}, {2, 3}) && TwoRecords(recs, 2, l, 3, p)
    ensures (d, p) in w.dents && w.dents[(d, p)] == Some(3)
  {
    w0, calls, w, recs := First(disk, d, b, cred);
    calls, w, recs := Second(w0, calls, w, d, recs, b, p, cred);
    calls, w, recs := Third(w0, calls, w, d, recs, b, p);
    calls, w, recs := Fourth(w0, calls, w, d, recs, b, p, l, cred);
  }

  /** Create b and p, remove b, create l, which takes b's number and b's record and is cut off to p; then remove p,
      whose dentry is bound to inode 3. The call returns 0, clears the record of inode 2 and releases inode 3: record 1
      names an inode that is gone, inode 2 has no name, and no call has leaked (TreeRuns.StepTree,
      Books.RunNamespace). */
  lemma RemovesTheWrongRecord(disk: seq<Block>, d: nat, b: Name, p: Name, l: Name, cred: Cred)
    returns (calls: seq<VfsCall>, w: World, op: Op, after: FS, recs: seq<Rec>)
    requires 144 <= |disk| <= 8 * BITMAP_BYTES && ThreeNames(b, p, l) && !IsDir(cred.mode) && d == ROOT_INO
    ensures Reached(FreshWorld(disk), calls, w)
    ensures op == OpUnlink(d, p, 3) && Made(w, Do(op)) && Mismatches(w.fs, op) && Step(w.fs, op) == (after, 0)
    ensures Stage(after, d, recs, {0, 1}, {2}) && TwoRecords(recs, 0, l, 3, p) && 3 !in after.inodes
    ensures !TreeInv(NsOf(after))
  {
    var w0;
    w0, calls, w, recs := BeforeFifth(disk, d, b, p, l, cred);
    var _ := FreshIsCoherent(disk);
    HarmlessEndsInTree(w0, calls);
    op, after := Fifth(w, d, recs, p, l);
    MismatchBreaksTree(w.fs, op, after);
    recs := recs[0 := ZeroRec()];
  }
}
