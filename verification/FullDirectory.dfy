/** A run from mount that fills the root to its last record, and the create after it: the call returns 0, takes a number
    and a block, and leaves a name no lookup finds. */
module FullDirectory {
  import opened Bytes
  import opened Records
  import opened Directory
  import opened State
  import opened Steps
  import opened Ownership
  import opened Accounting
  import opened Namespace
  import opened Simulation
  import opened Runs
  import opened TreeRuns
  import opened Undo
  import opened Visible
  import opened Books

  /** Room for 25 numbers and 9 blocks. */
  predicate Roomy(lay: Layout) {
    32 <= lay.inodeTotal && lay.dataStart == MKFS_DATA && 144 <= lay.blockTotal
  }

  /** Names 0 to 24, one byte each. */
  function NthName(n: nat): Name
    requires n < 25
  {
    [(n + 1) as byte]
  }

  function NthRec(n: nat): Rec
    requires n < 25
  {
    Rec(n + 2, Padded(NthName(n)))
  }

  /** The call creates a file of the n-th name in the root. */
  predicate IsNth(op: Op, n: nat) {
    n < 25 && op.OpCreate? && op.d == ROOT_INO && op.name == NthName(n) && PlainName(op.name) && !IsDir(op.cred.mode)
  }

  /** The root's records after n creates. */
  ghost predicate RecsAre(recs: seq<Rec>, n: nat) {
    && n <= 24 && |recs| == 3 * ((n + 2) / 3)
    && forall r :: 0 <= r < |recs| ==> recs[r] == if r < n then NthRec(r) else ZeroRec()
  }

  lemma FreeIsNth(recs: seq<Rec>, n: nat)
    requires RecsAre(recs, n)
    ensures FirstFree(recs) == n
  {
    FirstFreeIs(recs, n);
  }

  lemma NthAdded(recs: seq<Rec>, n: nat)
    requires RecsAre(recs, n) && n < 24
    ensures RecsAre(AddRec(recs, NthRec(n)), n + 1)
  {
    FreeIsNth(recs, n);
    AddRecShape(recs, NthRec(n));
  }

  lemma NthNameAbsent(recs: seq<Rec>, n: nat)
    requires RecsAre(recs, n)
    ensures FirstMatch(recs, NthName(n)) == |recs|
  {
    forall r | 0 <= r < |recs|
      ensures !Names(recs[r], NthName(n))
    {
      if r < n {
        PaddedName(NthName(r), r + 2);
        MatchesMeansNamed(recs[r], NthName(n));
      }
    }
    FirstMatchIs(recs, NthName(n), |recs|);
  }

  /** The bitmaps after n creates: one number each, one block for every three. */
  ghost predicate BitsAre(iused: set<nat>, used: set<nat>, n: nat) {
    && (forall b: nat :: b in iused <==> b <= n)
    && (forall b: nat :: b in used <==> b <= 4 || 132 <= b < 133 + (n + 2) / 3)
  }

  lemma FreeBits(iused: set<nat>, used: set<nat>, n: nat, numbers: nat, blocks: nat)
    requires n <= 24 && BitsAre(iused, used, n) && 32 <= numbers && 144 <= blocks
    ensures LeastFree(iused, 0, numbers) == Some(n + 1) && LeastFree(used, MKFS_DATA, blocks) == Some(133 + (n + 2) / 3)
  {
    LeastFreeIs(iused, 0, numbers, n + 1);
    LeastFreeIs(used, MKFS_DATA, blocks, 133 + (n + 2) / 3);
  }

  lemma BitsMove(iused: set<nat>, used: set<nat>, n: nat, taken: set<nat>)
    requires BitsAre(iused, used, n) && taken == if n % 3 == 0 then {133 + (n + 2) / 3} else {}
    ensures BitsAre(iused + {n + 1}, used + taken, n + 1)
  {
  }

  /** The state after n creates. */
  ghost predicate Filled(fs: FS, n: nat) {
    && OwnInv(fs) && Roomy(fs.lay) && DirIn(fs, ROOT_INO)
    && RecsAre(DirRecs(fs, ROOT_INO), n) && BitsAre(fs.iused, fs.used, n)
  }

  lemma MountedIsFilled(disk: seq<Block>)
    requires 144 <= |disk| <= 8 * BITMAP_BYTES
    ensures Filled(Mounted(disk), 0) && Tidy(NsOf(Mounted(disk)))
  {
    MountedIsSound(disk);
    TreeIsTidy(NsOf(Mounted(disk)));
    assert DirRecs(Mounted(disk), ROOT_INO) == [];
  }

  lemma NextNumber(fs: FS, n: nat)
    requires n <= 24 && Roomy(fs.lay) && BitsAre(fs.iused, fs.used, n)
    ensures FreeInode(fs) == Some(n + 2) && FreeBlock(fs) == Some(133 + (n + 2) / 3)
  {
    FreeBits(fs.iused, fs.used, n, fs.lay.inodeTotal / 8 * 8, fs.lay.blockTotal / 8 * 8);
  }

  lemma NextSlot(fs: FS, d: nat, n: nat)
    requires DirOk(fs, d) && RecsAre(DirRecs(fs, d), n)
    ensures fs.inodes[d].count == (n + 2) / 3 && (NoSlot(fs, d) <==> n % 3 == 0)
  {
    FreeIsNth(DirRecs(fs, d), n);
  }

  /** What the next create will find. */
  lemma NextFinds(fs: FS, n: nat)
    requires Filled(fs, n)
    ensures FreeInode(fs) == Some(n + 2) && FreeBlock(fs) == Some(133 + (n + 2) / 3)
    ensures fs.inodes[ROOT_INO].count == (n + 2) / 3 && (NoSlot(fs, ROOT_INO) <==> n % 3 == 0)
  {
    NextNumber(fs, n);
    NextSlot(fs, ROOT_INO, n);
  }

  lemma Created(fs: FS, d: nat, name: Name, cred: Cred, ino: nat, b: nat) returns (after: FS, taken: set<nat>)
    requires OwnInv(fs) && DirIn(fs, d) && !IsDir(cred.mode) && FreeInode(fs) == Some(ino) && FreeBlock(fs) == Some(b)
    requires !AddLeaks(fs, d)
    ensures after == Create(fs, d, name, cred).0 && OwnInv(after) && DirIn(after, d) && after.lay == fs.lay
    ensures taken == (if NoSlot(fs, d) then {b} else {}) && after.used == fs.used + taken
    ensures after.iused == fs.iused + {ino - 1}
    ensures DirRecs(after, d) == AddRec(DirRecs(fs, d), Rec(ino, Padded(name)))
  {
    var i;
    after, i := CreateBears(fs, d, name, cred);
    taken := TakenFor(fs, d);
    assert fs.used + {} + taken == fs.used + taken;
  }

  lemma CreateFills(fs: FS, d: nat, name: Name, cred: Cred, n: nat) returns (after: FS)
    requires n < 24 && Filled(fs, n) && d == ROOT_INO && name == NthName(n) && !IsDir(cred.mode)
    ensures !AddLeaks(fs, d) && after == Create(fs, d, name, cred).0 && Filled(after, n + 1)
  {
    NextFinds(fs, n);
    var taken;
    after, taken := Created(fs, d, name, cred, n + 2, 133 + (n + 2) / 3);
    NthAdded(DirRecs(fs, d), n);
    BitsMove(fs.iused, fs.used, n, taken);
  }

  lemma LastLeaks(fs: FS, d: nat, name: Name, cred: Cred, n: nat) returns (after: FS)
    requires n == 24 && Filled(fs, n) && Tidy(NsOf(fs)) && d == ROOT_INO && name == NthName(n) && !IsDir(cred.mode)
    ensures FreeInode(fs).Some? && AddLeaks(fs, d) && Create(fs, d, name, cred) == (after, 0) && OwnInv(after)
    ensures FindsNothing(NsOf(after), d, name) && n + 2 in after.inodes && 141 in after.used
  {
    NextFinds(fs, n);
    NthNameAbsent(DirRecs(fs, d), n);
    NsUpdateSame(fs, d);
    assert 133 + (n + 2) / 3 == 141;
    LeakingCreate(fs, d, name, cred, n + 2, 141);
    after := CreateLeakMeans(fs, d, name, cred);
  }

  /** What a create does that finds a number and a block, but no record and no pointer. */
  lemma LeakingCreate(fs: FS, d: nat, name: Name, cred: Cred, ino: nat, b: nat)
    requires OwnInv(fs) && DirIn(fs, d) && !IsDir(cred.mode) && FreeInode(fs) == Some(ino) && FreeBlock(fs) == Some(b)
    requires NoSlot(fs, d) && fs.inodes[d].count == BLOCK_PER_FILE
    ensures var (after, ret) := Create(fs, d, name, cred);
      ret == 0 && after.iused == fs.iused + {ino - 1} && after.used == fs.used + {b} && ino in after.inodes
  {
    FreeInodeIsNew(fs);
    SameRecs(fs, fs.(iused := fs.iused + {ino - 1}), d);
  }

  lemma FillStep(fs: FS, op: Op, n: nat) returns (next: FS)
    requires n < 24 && Filled(fs, n) && Tidy(NsOf(fs)) && IsNth(op, n)
    ensures Enabled(fs, op) && next == Next(fs, op) && Filled(next, n + 1) && Tidy(NsOf(next)) && LeakedBy(fs, op) == {}
  {
    next := CreateFills(fs, op.d, op.name, op.cred, n);
    StepTidy(fs, op);
  }

  lemma LastStep(fs: FS, op: Op, n: nat) returns (next: FS)
    requires n == 24 && Filled(fs, n) && Tidy(NsOf(fs)) && IsNth(op, n)
    ensures Enabled(fs, op) && Step(fs, op) == (next, 0) && OwnInv(next) && |LeakedBy(fs, op)| == 1
    ensures FindsNothing(NsOf(next), op.d, op.name) && n + 2 in next.inodes && 141 in next.used
  {
    next := LastLeaks(fs, op.d, op.name, op.cred, n);
  }

  /** The calls are creates of names n, n + 1 and so on. */
  ghost predicate AreCreates(ops: seq<Op>, n: nat) {
    n + |ops| <= 25 && forall k :: 0 <= k < |ops| ==> IsNth(ops[k], n + k)
  }

  lemma TailCreates(ops: seq<Op>, n: nat) returns (op: Op, rest: seq<Op>)
    requires ops != [] && AreCreates(ops, n)
    ensures op == ops[0] && rest == ops[1..] && IsNth(op, n) && AreCreates(rest, n + 1)
  {
    op, rest := ops[0], ops[1..];
  }

  /** In a state of stage n, the n-th create can be called, leaks nothing, and leads to a state of stage n + 1. */
  ghost predicate Advances(stage: (FS, nat) -> bool, fs: FS, op: Op, n: nat) {
    stage(fs, n) && IsNth(op, n) && n < 24 ==>
      OwnInv(fs) && Enabled(fs, op) && LeakedBy(fs, op) == {} && stage(Next(fs, op), n + 1)
  }

  lemma RunParts(fs: FS, ops: seq<Op>, next: FS)
    requires ops != [] && OwnInv(fs) && Enabled(fs, ops[0]) && next == Next(fs, ops[0]) && CanRun(next, ops[1..])
    ensures CanRun(fs, ops) && Run(fs, ops) == Run(next, ops[1..])
    ensures LeakCount(fs, ops) == |LeakedBy(fs, ops[0])| + LeakCount(next, ops[1..])
  {
  }

  lemma {:induction false} RunAdvances(stage: (FS, nat) -> bool, fs: FS, n: nat, ops: seq<Op>) returns (after: FS)
    requires OwnInv(fs) && stage(fs, n) && AreCreates(ops, n) && n + |ops| <= 24
    requires forall t, op, m :: Advances(stage, t, op, m)
    ensures CanRun(fs, ops) && after == Run(fs, ops) && LeakCount(fs, ops) == 0 && stage(after, n + |ops|)
    decreases |ops|
  {
    after := fs;
    if ops != [] {
      var op, rest := TailCreates(ops, n);
      assert Advances(stage, fs, op, n);
      var next := Next(fs, op);
      after := RunAdvances(stage, next, n + 1, rest);
      RunParts(fs, ops, next);
    }
  }

  /** One more call at the end of a run. */
  lemma {:induction false} RunLonger(fs: FS, ops: seq<Op>, op: Op, all: seq<Op>)
    requires OwnInv(fs) && CanRun(fs, ops) && Enabled(Run(fs, ops), op) && all == ops + [op]
    ensures CanRun(fs, all) && Run(fs, all) == Next(Run(fs, ops), op)
    ensures LeakCount(fs, all) == LeakCount(fs, ops) + |LeakedBy(Run(fs, ops), op)|
    decreases |ops|
  {
    if ops == [] {
      assert all[0] == op && all[1..] == [];
    } else {
      assert all[0] == ops[0] && all[1..] == ops[1..] + [op];
      RunLonger(Next(fs, ops[0]), ops[1..], op, all[1..]);
    }
  }

  /** The states on the way to a full directory, by the number of creates. */
  ghost function Filling(): (FS, nat) -> bool {
    (fs: FS, n: nat) => Filled(fs, n) && Tidy(NsOf(fs))
  }

  lemma AllAdvance()
    ensures forall t, op, m :: Advances(Filling(), t, op, m)
  {
    forall t, op, m: nat
      ensures Advances(Filling(), t, op, m)
    {
      if Filling()(t, m) && IsNth(op, m) && m < 24 {
        var _ := FillStep(t, op, m);
      }
    }
  }

  lemma FirstCreates(disk: seq<Block>, ops: seq<Op>) returns (after: FS)
    requires 144 <= |disk| <= 8 * BITMAP_BYTES && AreCreates(ops, 0) && |ops| == 24
    ensures CanRun(Start(disk), ops) && after == Run(Start(disk), ops) && LeakCount(Start(disk), ops) == 0
    ensures Filled(after, 24) && Tidy(NsOf(after))
  {
    MountedIsFilled(disk);
    AllAdvance();
    after := RunAdvances(Filling(), Start(disk), 0, ops);
  }

  lemma {:induction false} OnlyCreates(fs: FS, ops: seq<Op>)
    requires OwnInv(fs) && CanRun(fs, ops) && forall op :: op in ops ==> op.OpCreate?
    ensures NeverMismatches(fs, ops)
    decreases |ops|
  {
    if ops != [] {
      OnlyCreates(Next(fs, ops[0]), ops[1..]);
    }
  }

  lemma LeakingCreatesBreakTree(disk: seq<Block>, first: seq<Op>, last: Op, ops: seq<Op>)
    requires MKFS_DATA <= |disk| <= 8 * BITMAP_BYTES && CanRun(Start(disk), ops) && LeakCount(Start(disk), ops) > 0
    requires AreCreates(first, 0) && IsNth(last, |first|) && ops == first + [last]
    ensures !TreeInv(NsOf(Run(Start(disk), ops)))
  {
    OnlyCreates(Start(disk), ops);
    RunNamespace(disk, ops);
  }

  lemma LastCreate(fs: FS, first: seq<Op>, last: Op, n: nat) returns (before: FS, after: FS)
    requires OwnInv(fs) && CanRun(fs, first) && LeakCount(fs, first) == 0
    requires Filled(Run(fs, first), n) && Tidy(NsOf(Run(fs, first))) && n == 24 && IsNth(last, n)
    ensures before == Run(fs, first) && Enabled(before, last) && Step(before, last) == (after, 0) && OwnInv(after)
    ensures CanRun(fs, first + [last]) && Run(fs, first + [last]) == after && LeakCount(fs, first + [last]) == 1
    ensures FindsNothing(NsOf(after), last.d, last.name) && n + 2 in after.inodes && 141 in after.used
  {
    before := Run(fs, first);
    after := LastStep(before, last, n);
    RunLonger(fs, first, last, first + [last]);
  }

  /** Twenty-five creates of different short names on a fresh device of 144 blocks or more: the last one returns 0 and
      takes number 26 and block 141, and its name is not there (Visible.CreateVisible, Books.RunNamespace). */
  lemma TwentyFiveCreates(disk: seq<Block>, first: seq<Op>, last: Op) returns (before: FS, after: FS)
    requires 144 <= |disk| <= 8 * BITMAP_BYTES && AreCreates(first, 0) && |first| == 24 && IsNth(last, 24)
    ensures CanRun(Start(disk), first) && before == Run(Start(disk), first)
    ensures Enabled(before, last) && Step(before, last) == (after, 0) && 26 in after.inodes && 141 in after.used
    ensures CanRun(Start(disk), first + [last]) && Run(Start(disk), first + [last]) == after
    ensures LeakCount(Start(disk), first + [last]) == 1 && OwnInv(after) && !TreeInv(NsOf(after))
    ensures FindsNothing(NsOf(after), last.d, last.name)
  {
    before := FirstCreates(disk, first);
    before, after := LastCreate(Start(disk), first, last, 24);
    LeakingCreatesBreakTree(disk, first, last, first + [last]);
  }
}
