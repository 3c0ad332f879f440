/** Directory sizes: what i_size says about a directory, and which calls make it wrong. */
module DirSizes {
  import opened Bytes
  import opened State
  import opened Steps
  import opened Ownership
  import opened Accounting
  import opened FileWrite
  import opened Simulation
  import opened LateWrites
  import opened Runs
  import opened TreeRuns

  /** The bytes by which a directory's size exceeds its blocks. */
  function Excess(n: Inode): int {
    n.size - BLOCK_SIZE * n.count
  }

  function LeakBytes(leaks: bool): int {
    if leaks then BLOCK_SIZE else 0
  }

  /** Entering a name lengthens a directory by a block exactly when it hands it one, or leaks one. */
  lemma AddEntryExcess(fs: FS, d: nat, name: Name, ino: nat)
    requires OwnInv(fs) && DirIn(fs, d)
    ensures var after := AddEntry(fs, d, name, ino).0;
      && after.inodes.Keys == fs.inodes.Keys
      && Excess(after.inodes[d]) == Excess(fs.inodes[d]) + LeakBytes(AddLeaks(fs, d))
  {
  }

  lemma CreateExcess(fs: FS, d: nat, name: Name, cred: Cred)
    requires OwnInv(fs) && DirIn(fs, d)
    ensures var after := Create(fs, d, name, cred).0;
      d in after.inodes && Excess(after.inodes[d])
        == Excess(fs.inodes[d]) + LeakBytes(FreeInode(fs).Some? && AddLeaks(fs, d))
  {
    FreeInodeIsNew(fs);
    if FreeInode(fs).Some? {
      var ino := FreeInode(fs).value;
      var fs1 := fs.(iused := fs.iused + {ino - 1});
      MarkUsed(fs, fs.used, fs1.iused, {});
      SameRecs(fs, fs1, d);
      AddEntryExcess(fs1, d, name, ino);
    }
  }

  lemma MkdirExcess(fs: FS, d: nat, name: Name, cred: Cred)
    requires OwnInv(fs) && DirIn(fs, d)
    ensures var after := Mkdir(fs, d, name, cred).0;
      && d in after.inodes && Excess(after.inodes[d]) == Excess(fs.inodes[d]) + LeakBytes(MkdirLeaks(fs, d))
      && forall e :: e in after.inodes && e !in fs.inodes ==> Excess(after.inodes[e]) == 0
  {
    FreeInodeIsNew(fs);
    if FreeInode(fs).Some? && FreeBlock(fs).Some? {
      var ino, b := FreeInode(fs).value, FreeBlock(fs).value;
      PreparedNs(fs, ino, b, d);
      AddEntryExcess(Prepared(fs, ino, b, d), d, name, ino);
    }
  }

  lemma CreateAddsFile(fs: FS, d: nat, name: Name, cred: Cred)
    requires OwnInv(fs) && DirIn(fs, d) && !IsDir(cred.mode)
    ensures var after := Create(fs, d, name, cred).0;
      forall e :: e in after.inodes && e !in fs.inodes ==> !IsDir(after.inodes[e].mode)
  {
    if FreeInode(fs).Some? {
      var fs1 := fs.(iused := fs.iused + {FreeInode(fs).value - 1});
      MarkUsed(fs, fs.used, fs1.iused, {});
      AddEntryExcess(fs1, d, name, FreeInode(fs).value);
    }
  }

  /** The directory a call adds a name to, if it does. */
  predicate AddsTo(op: Op, d: nat) {
    (op.OpCreate? || op.OpMkdir?) && op.d == d
  }

  lemma UntouchedExcess(fs: FS, op: Op, e: nat)
    requires OwnInv(fs) && Enabled(fs, op) && e in fs.inodes && e !in Touched(op)
    ensures e in Next(fs, op).inodes && Next(fs, op).inodes[e] == fs.inodes[e]
  {
    var after := StepOwn(fs, op);
    assert SameFor(fs, after, e);
  }

  /** A call that leaks a block adds 512 to the excess of the directory it was to extend; no other call changes the
      excess of any directory, and a new directory has none. */
  lemma StepExcess(fs: FS, op: Op, e: nat)
    requires OwnInv(fs) && Enabled(fs, op) && DirIn(Next(fs, op), e)
    ensures if e in fs.inodes
            then DirIn(fs, e) && Excess(Next(fs, op).inodes[e])
              == Excess(fs.inodes[e]) + LeakBytes(AddsTo(op, e) && Leaks(fs, op))
            else Excess(Next(fs, op).inodes[e]) == 0
  {
    if e in fs.inodes && e !in Touched(op) {
      UntouchedExcess(fs, op, e);
    } else {
      match op
      case OpCreate(d, name, cred) =>
        CreateExcess(fs, d, name, cred);
        CreateAddsFile(fs, d, name, cred);
      case OpMkdir(d, name, cred) =>
        MkdirExcess(fs, d, name, cred);
      case OpUnlink(d, name, i) =>
        RemoveEntryKeeps(fs, d, name);
      case OpRmdir(d, name, i) =>
        RemoveEntryKeeps(fs, d, name);
      case OpWrite(i, pos, buf) =>
        WriteAddsNone(fs, i, pos, buf);
      case OpWriteInode(i) =>
      case OpLateWrite(n, pos, buf) =>
        LateWriteAddsNone(fs, n, pos, buf);
    }
  }

  lemma LateWriteAddsNone(fs: FS, n: Inode, pos: nat, buf: seq<byte>)
    requires OwnInv(fs) && Released(fs, n)
    ensures LateWrite(fs, n, pos, buf).0.inodes == fs.inodes
  {
    var extra, lost := SomeAccount(fs);
    var _, _ := LateWriteKeeps(fs, n, pos, buf, extra, lost);
  }

  lemma WriteAddsNone(fs: FS, i: nat, pos: nat, buf: seq<byte>)
    requires FileIn(fs, i)
    ensures Write(fs, i, pos, buf).0.inodes.Keys == fs.inodes.Keys && FileIn(Write(fs, i, pos, buf).0, i)
  {
    WriteInv(fs, i, pos, buf);
  }

  /** Every directory is exactly as long as its blocks. */
  ghost predicate Sized(fs: FS) {
    forall e :: DirIn(fs, e) ==> Excess(fs.inodes[e]) == 0
  }

  /** A call makes a directory's size wrong exactly when it leaks. */
  lemma StepSized(fs: FS, op: Op)
    requires OwnInv(fs) && Sized(fs) && Enabled(fs, op)
    ensures Sized(Next(fs, op)) <==> !Leaks(fs, op)
  {
    var after := Next(fs, op);
    forall e: nat | DirIn(after, e)
      ensures Excess(after.inodes[e]) == LeakBytes(AddsTo(op, e) && Leaks(fs, op))
    {
      StepExcess(fs, op, e);
    }
    if Leaks(fs, op) {
      LeakedDirStays(fs, op);
      assert DirIn(after, op.d) && AddsTo(op, op.d);
    }
  }

  lemma LeakedDirStays(fs: FS, op: Op)
    requires OwnInv(fs) && Enabled(fs, op) && Leaks(fs, op)
    ensures (op.OpCreate? || op.OpMkdir?) && DirIn(Next(fs, op), op.d)
  {
    match op
    case OpCreate(d, name, cred) =>
      CreateSim(fs, d, name, cred);
      assert d in NsOf(Next(fs, op)).dirs;
    case OpMkdir(d, name, cred) =>
      var _ := MkdirSim(fs, d, name, cred);
      assert d in NsOf(Next(fs, op)).dirs;
  }

  /** In every state reached from mount without a leak, every directory is exactly as long as its blocks. */
  lemma {:induction false} RunSized(fs: FS, ops: seq<Op>)
    requires OwnInv(fs) && Sized(fs) && CanRun(fs, ops) && NeverLeaks(fs, ops)
    ensures Sized(Run(fs, ops))
    decreases |ops|
  {
    if ops != [] {
      StepSized(fs, ops[0]);
      RunSized(Next(fs, ops[0]), ops[1..]);
    }
  }

  /** How many calls of the run leaked a block meant for directory d. */
  ghost function LeaksInto(fs: FS, ops: seq<Op>, d: nat): nat
    requires OwnInv(fs) && CanRun(fs, ops)
    decreases |ops|
  {
    if ops == [] then 0 else
    (if AddsTo(ops[0], d) && Leaks(fs, ops[0]) then 1 else 0) + LeaksInto(Next(fs, ops[0]), ops[1..], d)
  }

  /** The size of a directory that lives through a run counts its blocks and every block leaked on its behalf. */
  lemma {:induction false} DirSize(fs: FS, ops: seq<Op>, d: nat)
    requires OwnInv(fs) && CanRun(fs, ops) && StaysDir(fs, ops, d)
    ensures DirIn(Run(fs, ops), d)
    ensures Excess(Run(fs, ops).inodes[d]) == Excess(fs.inodes[d]) + BLOCK_SIZE * LeaksInto(fs, ops, d)
    decreases |ops|
  {
    if ops != [] {
      StepExcess(fs, ops[0], d);
      DirSize(Next(fs, ops[0]), ops[1..], d);
    }
  }

  /** The root lives through every run. */
  lemma RootSize(fs: FS, ops: seq<Op>)
    requires OwnInv(fs) && CanRun(fs, ops)
    ensures Excess(Run(fs, ops).inodes[ROOT_INO])
        == Excess(fs.inodes[ROOT_INO]) + BLOCK_SIZE * LeaksInto(fs, ops, ROOT_INO)
  {
    RootStays(fs, ops);
    DirSize(fs, ops, ROOT_INO);
  }
}
