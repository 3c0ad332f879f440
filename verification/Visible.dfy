/** What a caller sees: which calls that return 0 leave a name that can be looked up, and what the two accounts
    count. */
module Visible {
  import opened Bytes
  import opened Records
  import opened Directory
  import opened State
  import opened Steps
  import opened Ownership
  import opened Accounting
  import opened FileData
  import opened FileWrite
  import opened Namespace
  import opened Simulation
  import opened Runs

  ghost predicate FindsNothing(ns: Ns, d: nat, name: Name) {
    d in ns.dirs && FirstMatch(ns.dirs[d], name) == |ns.dirs[d]|
  }

  lemma EnteredIsFound(ns: Ns, after: Ns, d: nat, name: Name, ino: nat)
    requires d in ns.dirs && AllTerminated(ns.dirs[d]) && ino != 0 && FindsNothing(ns, d, name)
    requires d in after.dirs && after.dirs[d] == AddRec(ns.dirs[d], Rec(ino, Padded(name)))
    ensures if |name| < MAX_FILENAME_LEN then Finds(after, d, name, ino) else FindsNothing(after, d, name)
  {
    AddThenLookup(ns.dirs[d], name, ino);
  }

  /** After a create that returned 0 a lookup of the name finds the new inode exactly when the name fits a record and
      the directory was not full to its last pointer; otherwise it finds nothing, although the call succeeded. */
  lemma CreateVisible(fs: FS, d: nat, name: Name, cred: Cred)
    requires OwnInv(fs) && Tidy(NsOf(fs)) && DirIn(fs, d) && !IsDir(cred.mode) && FindsNothing(NsOf(fs), d, name)
    requires Create(fs, d, name, cred).1 == 0
    ensures OwnInv(Create(fs, d, name, cred).0) && FreeInode(fs).Some?
    ensures var after := NsOf(Create(fs, d, name, cred).0);
      if |name| < MAX_FILENAME_LEN && !AddLeaks(fs, d) then Finds(after, d, name, FreeInode(fs).value)
        else FindsNothing(after, d, name)
  {
    CreateSim(fs, d, name, cred);
    FreeInodeIsNew(fs);
    CreateReturns(fs, d, name, cred);
    var ino := FreeInode(fs).value;
    if !AddLeaks(fs, d) {
      EnteredIsFound(NsOf(fs), NsOf(Create(fs, d, name, cred).0), d, name, ino);
    }
  }

  lemma InstalledRecs(ns: Ns, ino: nat, d: nat)
    requires d in ns.dirs && d in ns.nlink && d != ino
    ensures d in NsInstalled(ns, ino, d).dirs && NsInstalled(ns, ino, d).dirs[d] == ns.dirs[d]
  {
  }

  /** The same for mkdir. */
  lemma MkdirVisible(fs: FS, d: nat, name: Name, cred: Cred) returns (after: FS)
    requires OwnInv(fs) && Tidy(NsOf(fs)) && DirIn(fs, d) && FindsNothing(NsOf(fs), d, name)
    requires Mkdir(fs, d, name, cred).1 == 0
    ensures after == Mkdir(fs, d, name, cred).0 && OwnInv(after) && FreeInode(fs).Some?
    ensures if |name| < MAX_FILENAME_LEN && !MkdirLeaks(fs, d) then Finds(NsOf(after), d, name, FreeInode(fs).value)
            else FindsNothing(NsOf(after), d, name)
  {
    after := MkdirSim(fs, d, name, cred);
    FreeInodeIsNew(fs);
    MkdirReturns(fs, d, name, cred);
    var ns, ino := NsOf(fs), FreeInode(fs).value;
    if MkdirLeaks(fs, d) {
      InstalledRecs(ns, ino, d);
    } else {
      InstalledRecs(Enter(ns, d, name, ino), ino, d);
      EnteredIsFound(ns, NsOf(after), d, name, ino);
    }
  }

  /** A new file is empty, has one link and the attributes asked for, and reading it returns nothing. */
  lemma NewFileIsEmpty(fs: FS, d: nat, name: Name, cred: Cred, pos: nat, len: nat) returns (after: FS, ino: nat)
    requires OwnInv(fs) && DirIn(fs, d) && !IsDir(cred.mode) && Create(fs, d, name, cred).1 == 0
    ensures after == Create(fs, d, name, cred).0 && FreeInode(fs) == Some(ino) && ino !in fs.inodes
    ensures FileIn(after, ino)
    ensures Contents(after, ino) == [] && ReadBytes(after.disk, after.inodes[ino], pos, len, {}) == []
    ensures var n := after.inodes[ino];
      n.nlink == 1 && n.mode == cred.mode && n.uid == cred.uid && n.gid == cred.gid && BlocksOf(n) == {}
  {
    CreateSim(fs, d, name, cred);
    FreeInodeIsNew(fs);
    CreateReturns(fs, d, name, cred);
    after, ino := Create(fs, d, name, cred).0, FreeInode(fs).value;
    ReadIsSlice(after, ino, pos, len);
  }

  /** What the account of numbers counts: calls of create and mkdir that got a number (mkdir a block as well) and yet
      returned -ENOSPC, which is to say those that failed inside naive_add_entry. */
  lemma LostMeans(fs: FS, op: Op)
    requires OwnInv(fs) && Enabled(fs, op)
    ensures |LostBy(fs, op)| <= 1
    ensures LostBy(fs, op) != {} <==>
      && (op.OpCreate? || op.OpMkdir?) && Step(fs, op).1 == -ENOSPC
      && FreeInode(fs).Some? && (op.OpMkdir? ==> FreeBlock(fs).Some?)
  {
    match op
    case OpCreate(d, name, cred) => CreateReturns(fs, d, name, cred);
    case OpMkdir(d, name, cred) => MkdirReturns(fs, d, name, cred);
    case _ =>
  }

  lemma CreateLeakMeans(fs: FS, d: nat, name: Name, cred: Cred) returns (after: FS)
    requires OwnInv(fs) && Tidy(NsOf(fs)) && DirIn(fs, d) && !IsDir(cred.mode) && FindsNothing(NsOf(fs), d, name)
    requires |name| < MAX_FILENAME_LEN
    ensures after == Create(fs, d, name, cred).0 && OwnInv(after)
    ensures LeakedByCreate(fs, d) != {} <==> Create(fs, d, name, cred).1 == 0 && FindsNothing(NsOf(after), d, name)
  {
    CreateSim(fs, d, name, cred);
    CreateReturns(fs, d, name, cred);
    after := Create(fs, d, name, cred).0;
    if !Fails(fs, d) {
      CreateVisible(fs, d, name, cred);
    }
  }

  lemma MkdirLeakMeans(fs: FS, d: nat, name: Name, cred: Cred) returns (after: FS)
    requires OwnInv(fs) && Tidy(NsOf(fs)) && DirIn(fs, d) && FindsNothing(NsOf(fs), d, name)
    requires |name| < MAX_FILENAME_LEN
    ensures after == Mkdir(fs, d, name, cred).0 && OwnInv(after)
    ensures LeakedByMkdir(fs, d) != {} <==> Mkdir(fs, d, name, cred).1 == 0 && FindsNothing(NsOf(after), d, name)
  {
    after := MkdirSim(fs, d, name, cred);
    MkdirReturns(fs, d, name, cred);
    if !MkdirFails(fs, d) {
      var _ := MkdirVisible(fs, d, name, cred);
    }
  }

  /** What the account of blocks counts: calls of create and mkdir that returned 0 although no lookup can find the
      name, not even one that fits a record. */
  lemma LeakMeans(fs: FS, op: Op) returns (after: FS)
    requires OwnInv(fs) && Tidy(NsOf(fs)) && Enabled(fs, op)
    requires (op.OpCreate? || op.OpMkdir?) && |op.name| < MAX_FILENAME_LEN && FindsNothing(NsOf(fs), op.d, op.name)
    ensures after == Next(fs, op) && OwnInv(after)
    ensures LeakedBy(fs, op) != {} <==> Step(fs, op).1 == 0 && FindsNothing(NsOf(after), op.d, op.name)
  {
    after := Next(fs, op);
    NsUpdateSame(fs, op.d);
    match op
    case OpCreate(d, name, cred) => var _ := CreateLeakMeans(fs, d, name, cred);
    case OpMkdir(d, name, cred) => var _ := MkdirLeakMeans(fs, d, name, cred);
  }

  /** As long as names are sound, whatever a lookup of a plain name finds is a live inode. */
  lemma FoundIsLive(fs: FS, d: nat, name: Name)
    requires OwnInv(fs) && NamedAreLive(NsOf(fs)) && DirIn(fs, d) && AllTerminated(DirRecs(fs, d)) && PlainName(name)
    ensures var recs := DirRecs(fs, d);
      var r := FirstMatch(recs, name);
      r < |recs| ==> recs[r].ino in fs.inodes
  {
    var ns, recs := NsOf(fs), DirRecs(fs, d);
    var r := FirstMatch(recs, name);
    NsUpdateSame(fs, d);
    if r < |recs| {
      MatchIsNoDot(recs[r], name);
      assert NamesInode(ns, d, r, recs[r].ino);
    }
  }
}
