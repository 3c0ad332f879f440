/** The namespace over runs: which calls keep it a tree, and what every call leaves tidy. */
module TreeRuns {
  import opened Bytes
  import opened Records
  import opened Directory
  import opened State
  import opened Steps
  import opened Ownership
  import opened Accounting
  import opened FileWrite
  import opened InodeTable
  import opened LateWrites
  import opened Namespace
  import opened Simulation
  import opened Runs

  /** The call adds a name to a directory without a free record whose eight pointers are taken, and there are
      enough free numbers and blocks: it returns 0, but nothing can find the name. */
  ghost predicate Leaks(fs: FS, op: Op)
    requires OwnInv(fs) && Enabled(fs, op)
  {
    match op
    case OpCreate(d, _, _) => FreeInode(fs).Some? && AddLeaks(fs, d)
    case OpMkdir(d, _, _) => MkdirLeaks(fs, d)
    case _ => false
  }

  /** The first record of d that matches the name, if there is one, carries number i. */
  ghost predicate BoundTo(fs: FS, d: nat, name: Name, i: nat)
    requires OwnInv(fs) && DirIn(fs, d)
  {
    var recs := DirRecs(fs, d);
    var f := FirstMatch(recs, name);
    f < |recs| ==> recs[f].ino == i
  }

  /** The call releases one inode and clears the record of another: it is handed an inode under a name whose first
      matching record carries a different number. */
  ghost predicate Mismatches(fs: FS, op: Op)
    requires OwnInv(fs) && Enabled(fs, op)
  {
    match op
    case OpUnlink(d, name, i) => !BoundTo(fs, d, name, i)
    case OpRmdir(d, name, i) => DirIn(fs, i) && EmptyDir(DirRecs(fs, i)) && !BoundTo(fs, d, name, i)
    case _ => false
  }

  lemma RoomForName(fs: FS, d: nat, name: Name, ino: nat)
    requires OwnInv(fs) && DirIn(fs, d) && !(NoSlot(fs, d) && fs.inodes[d].count == BLOCK_PER_FILE)
    ensures |AddRec(DirRecs(fs, d), Rec(ino, Padded(name)))| <= MAX_RECS
  {
  }

  lemma CreateTree(fs: FS, op: Op, d: nat, name: Name, cred: Cred) returns (after: FS)
    requires op == OpCreate(d, name, cred) && OwnInv(fs) && Enabled(fs, op) && TreeInv(NsOf(fs))
    ensures after == Next(fs, op)
    ensures TreeInv(NsOf(after)) <==> !Leaks(fs, op)
    ensures Leaks(fs, op) ==> FreeInode(fs).Some? && Orphan(NsOf(after), FreeInode(fs).value)
  {
    after := Next(fs, op);
    CreateSim(fs, d, name, cred);
    FreeInodeIsNew(fs);
    if FreeInode(fs).Some? {
      var ino := FreeInode(fs).value;
      if AddLeaks(fs, d) {
        NewOrphan(NsOf(fs), NsOf(after), ino);
        OrphanIsNoTree(NsOf(after), ino);
      } else if !AddFails(fs, d) {
        RoomForName(fs, d, name, ino);
        NsUpdateSame(fs, d);
        CreateKeepsTree(NsOf(fs), d, name, ino);
      }
    }
  }

  lemma NewOrphan(ns: Ns, after: Ns, ino: nat)
    requires TreeInv(ns) && ino !in ns.live && ino != 0 && after.live == ns.live + {ino} && after.dirs == ns.dirs
    ensures Orphan(after, ino)
  {
    forall d, r
      ensures !NamesInode(after, d, r, ino)
    {
      assert NamesInode(after, d, r, ino) ==> NamesInode(ns, d, r, ino);
    }
  }

  lemma InstalledIsMkdir(ns: Ns, d: nat, name: Name, ino: nat)
    requires d in ns.dirs && d in ns.nlink && ns.nlink[d] + 1 < WORD && ino != d
    ensures NsInstalled(Enter(ns, d, name, ino), ino, d) == NsMkdir(ns, d, name, ino)
  {
  }

  lemma NsMkdirTree(ns: Ns, d: nat, name: Name, ino: nat)
    requires TreeInv(ns) && d in ns.dirs && PlainName(name) && ino !in ns.live && ino != 0
    requires |AddRec(ns.dirs[d], Rec(ino, Padded(name)))| <= MAX_RECS
    ensures TreeInv(NsInstalled(Enter(ns, d, name, ino), ino, d))
  {
    LinksBounded(ns, d);
    InstalledIsMkdir(ns, d, name, ino);
    MkdirKeepsTree(ns, d, name, ino);
  }

  lemma PreparedDir(fs: FS, ino: nat, b: nat, d: nat)
    requires OwnInv(fs) && DirIn(fs, d) && FreeInode(fs) == Some(ino) && FreeBlock(fs) == Some(b)
    ensures OwnInv(Prepared(fs, ino, b, d)) && DirIn(Prepared(fs, ino, b, d), d)
    ensures DirRecs(Prepared(fs, ino, b, d), d) == NsOf(fs).dirs[d]
  {
    PreparedNs(fs, ino, b, d);
    NsUpdateSame(Prepared(fs, ino, b, d), d);
  }

  lemma MkdirTree(fs: FS, op: Op, d: nat, name: Name, cred: Cred) returns (after: FS)
    requires op == OpMkdir(d, name, cred) && OwnInv(fs) && Enabled(fs, op) && TreeInv(NsOf(fs))
    ensures after == Next(fs, op)
    ensures TreeInv(NsOf(after)) <==> !Leaks(fs, op)
    ensures Leaks(fs, op) ==> FreeInode(fs).Some? && Orphan(NsOf(after), FreeInode(fs).value)
  {
    after := MkdirSim(fs, d, name, cred);
    if FreeInode(fs).Some? && FreeBlock(fs).Some? && !MkdirFails(fs, d) {
      var ino := FreeInode(fs).value;
      FreeInodeIsNew(fs);
      if MkdirLeaks(fs, d) {
        var mid := NsOf(fs).(live := NsOf(fs).live + {ino});
        NewOrphan(NsOf(fs), mid, ino);
        OrphanInstalled(NsOf(fs), mid, NsOf(after), ino, d);
        OrphanIsNoTree(NsOf(after), ino);
      } else {
        PreparedDir(fs, ino, FreeBlock(fs).value, d);
        RoomForName(Prepared(fs, ino, FreeBlock(fs).value, d), d, name, ino);
        NsMkdirTree(NsOf(fs), d, name, ino);
      }
    }
  }

  lemma OrphanInstalled(ns: Ns, mid: Ns, after: Ns, ino: nat, d: nat)
    requires Orphan(mid, ino) && ino !in ns.dirs && mid.dirs == ns.dirs && mid.live == ns.live + {ino} && ino != 0
    requires after.live == ns.live + {ino} && after.dirs == ns.dirs[ino := DotRecs(ino, d)]
    ensures Orphan(after, ino)
  {
    DotDirAdded(mid, after, ino, d);
  }

  /** unlink keeps the tree exactly when it does not mismatch. */
  lemma UnlinkTree(fs: FS, op: Op, d: nat, name: Name, i: nat) returns (after: FS)
    requires op == OpUnlink(d, name, i) && OwnInv(fs) && Enabled(fs, op) && TreeInv(NsOf(fs))
    ensures after == Next(fs, op)
    ensures TreeInv(NsOf(after)) <==> !Mismatches(fs, op)
  {
    after := UnlinkSim(fs, d, name, i);
    NsUpdateSame(fs, d);
    var ns := NsOf(fs);
    if FirstMatch(ns.dirs[d], name) < |ns.dirs[d]| {
      UnlinkKeepsTree(ns, d, name, i);
      assert NsOf(after) == NsUnlink(ns, d, name, i);
    }
  }

  lemma RelinkedIsRmdir(ns: Ns, d: nat, name: Name, i: nat)
    requires d in ns.dirs && d in ns.nlink && 1 <= ns.nlink[d] <= WORD && i != d
    ensures NsRelink(Ns(ns.live - {i}, Leave(ns, d, name).dirs - {i}, ns.nlink - {i}), d, WORD - 1)
        == NsRmdir(ns, d, name, i)
  {
    assert (ns.nlink[d] + (WORD - 1)) % WORD == ns.nlink[d] - 1;
  }

  /** rmdir keeps the tree exactly when it does not mismatch, and the directories it removes have link count 2. */
  lemma RmdirTree(fs: FS, op: Op, d: nat, name: Name, i: nat) returns (after: FS)
    requires op == OpRmdir(d, name, i) && OwnInv(fs) && Enabled(fs, op) && TreeInv(NsOf(fs))
    ensures after == Next(fs, op)
    ensures TreeInv(NsOf(after)) <==> !Mismatches(fs, op)
    ensures i !in after.inodes ==> fs.inodes[i].nlink == 2
  {
    after := RmdirSim(fs, d, name, i);
    var ns := NsOf(fs);
    NsUpdateSame(fs, d);
    if DirIn(fs, i) && EmptyDir(ns.dirs[i]) && FirstMatch(ns.dirs[d], name) < |ns.dirs[d]| {
      EmptyNamesNothing(ns, i);
      RmdirKeepsTree(ns, d, name, i);
      LinksBounded(ns, d);
      RelinkedIsRmdir(ns, d, name, i);
      var _ := NsLink(fs, i, 0);
    }
  }

  lemma WriteNs(fs: FS, i: nat, pos: nat, buf: seq<byte>) returns (after: FS)
    requires FileIn(fs, i)
    ensures after == Write(fs, i, pos, buf).0 && OwnInv(after) && NsOf(after) == NsOf(fs)
  {
    after := Write(fs, i, pos, buf).0;
    WriteInv(fs, i, pos, buf);
    OtherDirs(fs, after, {i});
    NsOfIs(NsOf(fs), after);
  }

  lemma WriteInodeNs(fs: FS, i: nat)
    requires OwnInv(fs) && i in fs.inodes
    ensures 0 <= TableBlock(fs.lay, i) < |fs.disk| && OwnInv(WriteInode(fs, i)) && NsOf(WriteInode(fs, i)) == NsOf(fs)
  {
    var extra, lost := SomeAccount(fs);
    WriteInodeKeeps(fs, i, extra, lost);
    SameNs(fs, WriteInode(fs, i));
  }

  lemma LateWriteNs(fs: FS, n: Inode, pos: nat, buf: seq<byte>) returns (after: FS)
    requires OwnInv(fs) && Released(fs, n)
    ensures after == LateWrite(fs, n, pos, buf).0 && OwnInv(after) && NsOf(after) == NsOf(fs)
  {
    var extra, lost := SomeAccount(fs);
    var m;
    after, m := LateWriteKeeps(fs, n, pos, buf, extra, lost);
    SameNs(fs, after);
  }

  /** The calls that change no directory. */
  predicate DataCall(op: Op) {
    op.OpWrite? || op.OpWriteInode? || op.OpLateWrite?
  }

  lemma DataNs(fs: FS, op: Op) returns (after: FS)
    requires OwnInv(fs) && Enabled(fs, op) && DataCall(op)
    ensures after == Next(fs, op) && NsOf(after) == NsOf(fs)
  {
    after := Next(fs, op);
    match op
    case OpWrite(i, pos, buf) => var _ := WriteNs(fs, i, pos, buf);
    case OpWriteInode(i) => WriteInodeNs(fs, i);
    case OpLateWrite(n, pos, buf) => var _ := LateWriteNs(fs, n, pos, buf);
  }

  /** One call: the tree is kept exactly when the call neither leaks nor mismatches; a leaking call leaves an inode
      nobody names. */
  lemma StepTree(fs: FS, op: Op)
    requires OwnInv(fs) && TreeInv(NsOf(fs)) && Enabled(fs, op)
    ensures TreeInv(NsOf(Next(fs, op))) <==> !Leaks(fs, op) && !Mismatches(fs, op)
    ensures Leaks(fs, op) ==> FreeInode(fs).Some? && Orphan(NsOf(Next(fs, op)), FreeInode(fs).value)
  {
    match op
    case OpCreate(d, name, cred) =>
      var _ := CreateTree(fs, op, d, name, cred);
    case OpMkdir(d, name, cred) =>
      var _ := MkdirTree(fs, op, d, name, cred);
    case OpUnlink(d, name, i) =>
      var _ := UnlinkTree(fs, op, d, name, i);
    case OpRmdir(d, name, i) =>
      var _ := RmdirTree(fs, op, d, name, i);
    case _ =>
      var _ := DataNs(fs, op);
  }

  // ---- an inode nobody names stays so ----

  lemma CreateOrphan(fs: FS, d: nat, name: Name, cred: Cred, i: nat)
    requires OwnInv(fs) && Orphan(NsOf(fs), i) && DirIn(fs, d) && PlainName(name) && !IsDir(cred.mode)
    ensures OwnInv(Create(fs, d, name, cred).0) && Orphan(NsOf(Create(fs, d, name, cred).0), i)
  {
    CreateSim(fs, d, name, cred);
    if FreeInode(fs).Some? {
      var ino := FreeInode(fs).value;
      FreeInodeIsNew(fs);
      OrphanAfterBirth(NsOf(fs), ino, i);
      OrphanAfterEnter(NsOf(fs), d, name, ino, i);
      OrphanAfterBirth(Enter(NsOf(fs), d, name, ino), ino, i);
    }
  }

  lemma MkdirOrphan(fs: FS, d: nat, name: Name, cred: Cred, i: nat)
    requires OwnInv(fs) && Orphan(NsOf(fs), i) && DirIn(fs, d) && PlainName(name)
    ensures OwnInv(Mkdir(fs, d, name, cred).0) && Orphan(NsOf(Mkdir(fs, d, name, cred).0), i)
  {
    var after := MkdirSim(fs, d, name, cred);
    if !MkdirFails(fs, d) {
      var ino := FreeInode(fs).value;
      FreeInodeIsNew(fs);
      if MkdirLeaks(fs, d) {
        OrphanAfterInstall(NsOf(fs), NsOf(after), ino, d, i);
      } else {
        OrphanAfterEnter(NsOf(fs), d, name, ino, i);
        OrphanAfterInstall(Enter(NsOf(fs), d, name, ino), NsOf(after), ino, d, i);
      }
    }
  }

  lemma UnlinkOrphan(fs: FS, d: nat, name: Name, j: nat, i: nat)
    requires OwnInv(fs) && Orphan(NsOf(fs), i) && DirIn(fs, d) && PlainName(name)
    requires j in fs.inodes && !IsDir(fs.inodes[j].mode) && !Mismatches(fs, OpUnlink(d, name, j))
    ensures OwnInv(Unlink(fs, d, name, j).0) && Orphan(NsOf(Unlink(fs, d, name, j).0), i)
  {
    var ns := NsOf(fs);
    var after := UnlinkSim(fs, d, name, j);
    NsUpdateSame(fs, d);
    if FirstMatch(ns.dirs[d], name) < |ns.dirs[d]| {
      OrphanAfterLeave(ns, d, name, i);
      OrphanAfterGone(Leave(ns, d, name), NsOf(after), j, i);
    }
  }

  lemma RmdirOrphan(fs: FS, d: nat, name: Name, j: nat, i: nat)
    requires OwnInv(fs) && Orphan(NsOf(fs), i) && DirIn(fs, d) && PlainName(name)
    requires j in fs.inodes && j != ROOT_INO && j != d && !Mismatches(fs, OpRmdir(d, name, j))
    ensures OwnInv(Rmdir(fs, d, name, j).0) && Orphan(NsOf(Rmdir(fs, d, name, j).0), i)
  {
    var ns := NsOf(fs);
    var after := RmdirSim(fs, d, name, j);
    NsUpdateSame(fs, d);
    if FirstMatch(ns.dirs[d], name) < |ns.dirs[d]| && DirIn(fs, j) && EmptyDir(ns.dirs[j]) {
      OrphanAfterLeave(ns, d, name, i);
      OrphanAfterGone(Leave(ns, d, name), NsOf(after), j, i);
    }
  }

  /** No call that does not mismatch gives a name to an orphan, or removes it. */
  lemma StepOrphan(fs: FS, op: Op, i: nat)
    requires OwnInv(fs) && Orphan(NsOf(fs), i) && Enabled(fs, op) && !Mismatches(fs, op)
    ensures Orphan(NsOf(Next(fs, op)), i)
  {
    match op
    case OpCreate(d, name, cred) => CreateOrphan(fs, d, name, cred, i);
    case OpMkdir(d, name, cred) => MkdirOrphan(fs, d, name, cred, i);
    case OpUnlink(d, name, j) => UnlinkOrphan(fs, d, name, j, i);
    case OpRmdir(d, name, j) => RmdirOrphan(fs, d, name, j, i);
    case _ => var _ := DataNs(fs, op);
  }

  lemma {:induction false} RunOrphan(fs: FS, ops: seq<Op>, i: nat)
    requires OwnInv(fs) && Orphan(NsOf(fs), i) && CanRun(fs, ops) && NeverMismatches(fs, ops)
    ensures Orphan(NsOf(Run(fs, ops)), i)
    decreases |ops|
  {
    if ops != [] {
      StepOrphan(fs, ops[0], i);
      RunOrphan(Next(fs, ops[0]), ops[1..], i);
    }
  }

  ghost predicate NeverLeaks(fs: FS, ops: seq<Op>)
    requires OwnInv(fs) && CanRun(fs, ops)
    decreases |ops|
  {
    ops == [] || (!Leaks(fs, ops[0]) && NeverLeaks(Next(fs, ops[0]), ops[1..]))
  }

  ghost predicate NeverMismatches(fs: FS, ops: seq<Op>)
    requires OwnInv(fs) && CanRun(fs, ops)
    decreases |ops|
  {
    ops == [] || (!Mismatches(fs, ops[0]) && NeverMismatches(Next(fs, ops[0]), ops[1..]))
  }

  /** The namespace is a tree in every state of the run. */
  ghost predicate AlwaysTree(fs: FS, ops: seq<Op>)
    requires OwnInv(fs) && CanRun(fs, ops)
    decreases |ops|
  {
    TreeInv(NsOf(fs)) && (ops == [] || AlwaysTree(Next(fs, ops[0]), ops[1..]))
  }

  /** From a tree, the namespace stays a tree all through a run exactly when no call of it leaks or mismatches. */
  lemma {:induction false} RunTree(fs: FS, ops: seq<Op>)
    requires OwnInv(fs) && TreeInv(NsOf(fs)) && CanRun(fs, ops)
    ensures AlwaysTree(fs, ops) <==> NeverLeaks(fs, ops) && NeverMismatches(fs, ops)
    decreases |ops|
  {
    if ops != [] {
      StepTree(fs, ops[0]);
      if TreeInv(NsOf(Next(fs, ops[0]))) {
        RunTree(Next(fs, ops[0]), ops[1..]);
      }
    }
  }

  /** A run that never mismatches ends in a tree exactly when none of its calls leaked. */
  lemma {:induction false} RunEndsInTree(fs: FS, ops: seq<Op>)
    requires OwnInv(fs) && TreeInv(NsOf(fs)) && CanRun(fs, ops) && NeverMismatches(fs, ops)
    ensures TreeInv(NsOf(Run(fs, ops))) <==> NeverLeaks(fs, ops)
    decreases |ops|
  {
    if ops != [] {
      StepTree(fs, ops[0]);
      if Leaks(fs, ops[0]) {
        RunOrphan(Next(fs, ops[0]), ops[1..], FreeInode(fs).value);
        OrphanIsNoTree(NsOf(Run(fs, ops)), FreeInode(fs).value);
      } else {
        RunEndsInTree(Next(fs, ops[0]), ops[1..]);
      }
    }
  }

  // ---- what every call leaves tidy, leaking and mismatching ones included ----

  lemma CreateTidy(fs: FS, op: Op, d: nat, name: Name, cred: Cred)
    requires op == OpCreate(d, name, cred) && OwnInv(fs) && Enabled(fs, op) && Tidy(NsOf(fs))
    ensures Tidy(NsOf(Next(fs, op)))
  {
    CreateSim(fs, d, name, cred);
    FreeInodeIsNew(fs);
    if !Fails(fs, d) {
      var ns, ino, after := NsOf(fs), FreeInode(fs).value, NsOf(Next(fs, op));
      if AddLeaks(fs, d) {
        SameDirsTidy(ns, after);
      } else {
        RoomForName(fs, d, name, ino);
        NsUpdateSame(fs, d);
        EnterTidy(ns, d, name, ino);
        SameDirsTidy(Enter(ns, d, name, ino), after);
      }
    }
  }

  lemma InstalledTidy(ns: Ns, ino: nat, d: nat)
    requires Tidy(ns) && d in ns.dirs && ino !in ns.live && ino != 0
    ensures Tidy(NsInstalled(ns, ino, d))
  {
    InstallTidy(ns, NsInstalled(ns, ino, d), ino, d);
  }

  lemma PreparedRoom(fs: FS, d: nat, name: Name)
    requires OwnInv(fs) && DirIn(fs, d) && !MkdirFails(fs, d) && !MkdirLeaks(fs, d)
    ensures |AddRec(NsOf(fs).dirs[d], Rec(FreeInode(fs).value, Padded(name)))| <= MAX_RECS
  {
    PreparedDir(fs, FreeInode(fs).value, FreeBlock(fs).value, d);
    RoomForName(Prepared(fs, FreeInode(fs).value, FreeBlock(fs).value, d), d, name, FreeInode(fs).value);
  }

  lemma MkdirTidy(fs: FS, op: Op, d: nat, name: Name, cred: Cred) returns (after: FS)
    requires op == OpMkdir(d, name, cred) && OwnInv(fs) && Enabled(fs, op) && Tidy(NsOf(fs))
    ensures after == Next(fs, op) && Tidy(NsOf(after))
  {
    after := MkdirSim(fs, d, name, cred);
    if !MkdirFails(fs, d) {
      var ns, ino := NsOf(fs), FreeInode(fs).value;
      FreeInodeIsNew(fs);
      if !MkdirLeaks(fs, d) {
        PreparedRoom(fs, d, name);
        EnterTidy(ns, d, name, ino);
      }
      InstalledTidy(if MkdirLeaks(fs, d) then ns else Enter(ns, d, name, ino), ino, d);
    }
  }

  lemma UnlinkTidy(fs: FS, op: Op, d: nat, name: Name, i: nat) returns (after: FS)
    requires op == OpUnlink(d, name, i) && OwnInv(fs) && Enabled(fs, op) && Tidy(NsOf(fs))
    ensures after == Next(fs, op) && Tidy(NsOf(after))
  {
    after := UnlinkSim(fs, d, name, i);
    var ns := NsOf(fs);
    if FirstMatch(ns.dirs[d], name) < |ns.dirs[d]| {
      LeaveTidy(ns, d, name);
      SameDirsTidy(Leave(ns, d, name), NsOf(after));
    }
  }

  lemma RmdirTidy(fs: FS, op: Op, d: nat, name: Name, i: nat) returns (after: FS)
    requires op == OpRmdir(d, name, i) && OwnInv(fs) && Enabled(fs, op) && Tidy(NsOf(fs))
    ensures after == Next(fs, op) && Tidy(NsOf(after))
  {
    after := RmdirSim(fs, d, name, i);
    var ns := NsOf(fs);
    if DirIn(fs, i) && EmptyDir(ns.dirs[i]) && FirstMatch(ns.dirs[d], name) < |ns.dirs[d]| {
      LeaveTidy(ns, d, name);
      GoneTidy(Leave(ns, d, name), NsOf(after), i);
    }
  }

  /** Every call, whatever it returns, leaks or mismatches, leaves the namespace tidy. */
  lemma StepTidy(fs: FS, op: Op)
    requires OwnInv(fs) && Tidy(NsOf(fs)) && Enabled(fs, op)
    ensures Tidy(NsOf(Next(fs, op)))
  {
    match op
    case OpCreate(d, name, cred) => CreateTidy(fs, op, d, name, cred);
    case OpMkdir(d, name, cred) => var _ := MkdirTidy(fs, op, d, name, cred);
    case OpUnlink(d, name, i) => var _ := UnlinkTidy(fs, op, d, name, i);
    case OpRmdir(d, name, i) => var _ := RmdirTidy(fs, op, d, name, i);
    case _ => var _ := DataNs(fs, op);
  }

  lemma {:induction false} RunTidy(fs: FS, ops: seq<Op>)
    requires OwnInv(fs) && Tidy(NsOf(fs)) && CanRun(fs, ops)
    ensures Tidy(NsOf(Run(fs, ops)))
    decreases |ops|
  {
    if ops != [] {
      StepTidy(fs, ops[0]);
      RunTidy(Next(fs, ops[0]), ops[1..]);
    }
  }

  /** A call leaks exactly when it takes a block for nobody. */
  lemma LeaksAgree(fs: FS, op: Op)
    requires OwnInv(fs) && Enabled(fs, op)
    ensures |LeakedBy(fs, op)| == if Leaks(fs, op) then 1 else 0
  {
  }

  lemma {:induction false} NeverLeaksIsZero(fs: FS, ops: seq<Op>)
    requires OwnInv(fs) && CanRun(fs, ops)
    ensures NeverLeaks(fs, ops) <==> LeakCount(fs, ops) == 0
    decreases |ops|
  {
    if ops != [] {
      LeaksAgree(fs, ops[0]);
      NeverLeaksIsZero(Next(fs, ops[0]), ops[1..]);
    }
  }
}
