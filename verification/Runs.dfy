/** Whole runs: what every sequence of calls the VFS can make keeps, and exactly when the namespace stays a tree. */
module Runs {
  import opened Bytes
  import opened State
  import opened Steps
  import opened Ownership
  import opened Accounting
  import opened FileWrite
  import opened InodeTable
  import opened LateWrites
  import opened Namespace
  import opened Simulation

  datatype Op =
    | OpCreate(d: nat, name: Name, cred: Cred)
    | OpMkdir(d: nat, name: Name, cred: Cred)
    | OpUnlink(d: nat, name: Name, i: nat)
    | OpRmdir(d: nat, name: Name, i: nat)
    | OpWrite(i: nat, pos: nat, buf: seq<byte>)
    | OpWriteInode(i: nat)
    | OpLateWrite(n: Inode, pos: nat, buf: seq<byte>)

  /** What each call needs at all: inodes of the right kind, and a name other than "." and "..". Nothing is assumed
      about what the records of the directory say of the name. */
  ghost predicate Enabled(fs: FS, op: Op)
    requires OwnInv(fs)
  {
    match op
    case OpCreate(d, name, cred) => DirIn(fs, d) && PlainName(name) && !IsDir(cred.mode)
    case OpMkdir(d, name, cred) => DirIn(fs, d) && PlainName(name)
    case OpUnlink(d, name, i) => DirIn(fs, d) && PlainName(name) && i in fs.inodes && !IsDir(fs.inodes[i].mode)
    case OpRmdir(d, name, i) => DirIn(fs, d) && PlainName(name) && i in fs.inodes && i != ROOT_INO && i != d
    case OpWrite(i, pos, buf) => FileIn(fs, i)
    case OpWriteInode(i) => i in fs.inodes
    case OpLateWrite(n, _, _) => Released(fs, n)
  }

  ghost function Step(fs: FS, op: Op): (FS, int)
    requires OwnInv(fs) && Enabled(fs, op)
  {
    match op
    case OpCreate(d, name, cred) => Create(fs, d, name, cred)
    case OpMkdir(d, name, cred) => Mkdir(fs, d, name, cred)
    case OpUnlink(d, name, i) => Unlink(fs, d, name, i)
    case OpRmdir(d, name, i) => Rmdir(fs, d, name, i)
    case OpWrite(i, pos, buf) => var (after, ret, _) := Write(fs, i, pos, buf); (after, ret)
    case OpWriteInode(i) => TableBelowData(fs, i); (WriteInode(fs, i), 0)
    case OpLateWrite(n, pos, buf) => var (after, _, ret) := LateWrite(fs, n, pos, buf); (after, ret)
  }

  function Touched(op: Op): set<nat> {
    match op
    case OpCreate(d, _, _) => {d}
    case OpMkdir(d, _, _) => {d}
    case OpUnlink(d, _, i) => {d, i}
    case OpRmdir(d, _, i) => {d, i}
    case OpWrite(i, _, _) => {i}
    case OpWriteInode(_) => {}
    case OpLateWrite(_, _, _) => {}
  }

  // ---- blocks and numbers that leave the books ----

  /** The block a call takes and hands to nobody: adding a name to a directory whose eight blocks are full. */
  ghost function LeakedBy(fs: FS, op: Op): set<nat>
    requires OwnInv(fs) && Enabled(fs, op)
  {
    match op
    case OpCreate(d, _, _) => LeakedByCreate(fs, d)
    case OpMkdir(d, _, _) => LeakedByMkdir(fs, d)
    case _ => {}
  }

  /** The blocks a write takes for an inode that is released already. */
  ghost function TakenLate(fs: FS, op: Op): set<nat>
    requires OwnInv(fs) && Enabled(fs, op)
  {
    match op
    case OpLateWrite(n, pos, buf) => LateBlocks(fs, n, pos, buf)
    case _ => {}
  }

  /** The inode bit a call sets although it fails: naive_add_entry has reported -ENOSPC. */
  ghost function LostBy(fs: FS, op: Op): set<nat>
    requires OwnInv(fs) && Enabled(fs, op)
  {
    match op
    case OpCreate(d, _, _) => LostByCreate(fs, d)
    case OpMkdir(d, _, _) => LostByMkdir(fs, d)
    case _ => {}
  }

  lemma LiveStepKeeps(fs: FS, op: Op, extra: set<nat>, lost: set<nat>) returns (after: FS)
    requires Inv(fs, extra, lost) && Enabled(fs, op) && !op.OpLateWrite?
    ensures after == Step(fs, op).0
    ensures Inv(after, extra + LeakedBy(fs, op), lost + LostBy(fs, op)) && Frame(fs, after, Touched(op))
  {
    after := Step(fs, op).0;
    assert extra + {} == extra && lost + {} == lost;
    match op
    case OpCreate(d, name, cred) => CreateKeeps(fs, d, name, cred, extra, lost);
    case OpMkdir(d, name, cred) => MkdirKeeps(fs, d, name, cred, extra, lost);
    case OpUnlink(d, name, i) => UnlinkKeeps(fs, d, name, i, extra, lost);
    case OpRmdir(d, name, i) => RmdirKeeps(fs, d, name, i, extra, lost);
    case OpWrite(i, pos, buf) => var _ := WriteKeeps(fs, i, pos, buf, extra, lost);
    case OpWriteInode(i) => WriteInodeKeeps(fs, i, extra, lost);
  }

  lemma LateStepKeeps(fs: FS, op: Op, extra: set<nat>, lost: set<nat>) returns (after: FS)
    requires Inv(fs, extra, lost) && Enabled(fs, op) && op.OpLateWrite?
    ensures after == Step(fs, op).0
    ensures Inv(after, extra + TakenLate(fs, op), lost) && Frame(fs, after, {})
  {
    var m;
    after, m := LateWriteKeeps(fs, op.n, op.pos, op.buf, extra, lost);
  }

  /** Every call keeps block ownership and both accounts, and changes no inode it was not asked to touch. */
  lemma StepKeeps(fs: FS, op: Op, extra: set<nat>, lost: set<nat>) returns (after: FS)
    requires Inv(fs, extra, lost) && Enabled(fs, op)
    ensures after == Step(fs, op).0
    ensures Inv(after, extra + LeakedBy(fs, op) + TakenLate(fs, op), lost + LostBy(fs, op))
    ensures Frame(fs, after, Touched(op))
  {
    if op.OpLateWrite? {
      after := LateStepKeeps(fs, op, extra, lost);
      assert extra + {} == extra && lost + {} == lost;
    } else {
      after := LiveStepKeeps(fs, op, extra, lost);
      assert extra + LeakedBy(fs, op) + {} == extra + LeakedBy(fs, op);
    }
  }

  lemma StepOwn(fs: FS, op: Op) returns (after: FS)
    requires OwnInv(fs) && Enabled(fs, op)
    ensures after == Step(fs, op).0 && OwnInv(after) && Frame(fs, after, Touched(op))
  {
    var extra, lost := SomeAccount(fs);
    after := StepKeeps(fs, op, extra, lost);
  }

  lemma StepOwnLemma(fs: FS, op: Op)
    requires OwnInv(fs) && Enabled(fs, op)
    ensures OwnInv(Step(fs, op).0)
  {
    var _ := StepOwn(fs, op);
  }

  // ---- runs ----

  ghost function Next(fs: FS, op: Op): (after: FS)
    requires OwnInv(fs) && Enabled(fs, op)
    ensures OwnInv(after)
  {
    StepOwnLemma(fs, op);
    Step(fs, op).0
  }

  /** Every call of the run is one the VFS can make at that point. */
  ghost predicate CanRun(fs: FS, ops: seq<Op>)
    requires OwnInv(fs)
    decreases |ops|
  {
    ops == [] || (Enabled(fs, ops[0]) && CanRun(Next(fs, ops[0]), ops[1..]))
  }

  ghost function Run(fs: FS, ops: seq<Op>): (after: FS)
    requires OwnInv(fs) && CanRun(fs, ops)
    ensures OwnInv(after)
    decreases |ops|
  {
    if ops == [] then fs else Run(Next(fs, ops[0]), ops[1..])
  }

  /** Directory d is there in every state of the run. */
  ghost predicate StaysDir(fs: FS, ops: seq<Op>, d: nat)
    requires OwnInv(fs) && CanRun(fs, ops)
    decreases |ops|
  {
    DirIn(fs, d) && (ops == [] || StaysDir(Next(fs, ops[0]), ops[1..], d))
  }

  lemma {:induction false} RootStays(fs: FS, ops: seq<Op>)
    requires OwnInv(fs) && CanRun(fs, ops)
    ensures StaysDir(fs, ops, ROOT_INO)
    decreases |ops|
  {
    if ops != [] {
      RootStays(Next(fs, ops[0]), ops[1..]);
    }
  }

  /** How many calls of the run filled a block that no pointer could take. */
  ghost function LeakCount(fs: FS, ops: seq<Op>): nat
    requires OwnInv(fs) && CanRun(fs, ops)
    decreases |ops|
  {
    if ops == [] then 0 else |LeakedBy(fs, ops[0])| + LeakCount(Next(fs, ops[0]), ops[1..])
  }

  /** How many calls of the run failed inside naive_add_entry. */
  ghost function LossCount(fs: FS, ops: seq<Op>): nat
    requires OwnInv(fs) && CanRun(fs, ops)
    decreases |ops|
  {
    if ops == [] then 0 else |LostBy(fs, ops[0])| + LossCount(Next(fs, ops[0]), ops[1..])
  }

  /** How many blocks writes of the run took for inodes that were released already. */
  ghost function LateCount(fs: FS, ops: seq<Op>): nat
    requires OwnInv(fs) && CanRun(fs, ops)
    decreases |ops|
  {
    if ops == [] then 0 else |TakenLate(fs, ops[0])| + LateCount(Next(fs, ops[0]), ops[1..])
  }

  lemma LeakedIsNew(fs: FS, op: Op, extra: set<nat>, lost: set<nat>)
    requires Inv(fs, extra, lost) && Enabled(fs, op)
    ensures LeakedBy(fs, op) !! extra && LostBy(fs, op) !! lost && |LeakedBy(fs, op)| <= 1 && |LostBy(fs, op)| <= 1
    ensures TakenLate(fs, op) !! extra && (TakenLate(fs, op) == {} || LeakedBy(fs, op) == {})
  {
    FreeInodeIsNew(fs);
    match op
    case OpMkdir(d, _, _) =>
      if FreeInode(fs).Some? && FreeBlock(fs).Some? {
        PreparedKeeps(fs, FreeInode(fs).value, FreeBlock(fs).value, d, extra, lost);
      }
    case OpLateWrite(n, pos, buf) =>
      var _, _ := LateWriteKeeps(fs, n, pos, buf, extra, lost);
    case _ =>
  }

  lemma StepCounts(fs: FS, op: Op, extra: set<nat>, lost: set<nat>)
    returns (after: FS, extra': set<nat>, lost': set<nat>)
    requires Inv(fs, extra, lost) && Enabled(fs, op)
    ensures after == Next(fs, op) && Inv(after, extra', lost') && after.lay == fs.lay
    ensures extra <= extra' && |extra'| == |extra| + |LeakedBy(fs, op)| + |TakenLate(fs, op)|
    ensures lost <= lost' && |lost'| == |lost| + |LostBy(fs, op)|
  {
    after := StepKeeps(fs, op, extra, lost);
    LeakedIsNew(fs, op, extra, lost);
    extra', lost' := extra + LeakedBy(fs, op) + TakenLate(fs, op), lost + LostBy(fs, op);
  }

  /** Over every run the accounts stay exact: the blocks used for nobody are those there were plus one for each leak and
      those late writes took, the numbers used for nobody those there were plus one for each call that failed while
      adding its name. */
  lemma {:induction false} RunKeeps(fs: FS, ops: seq<Op>, extra: set<nat>, lost: set<nat>)
    returns (after: FS, extra': set<nat>, lost': set<nat>)
    requires Inv(fs, extra, lost) && CanRun(fs, ops)
    ensures after == Run(fs, ops) && Inv(after, extra', lost') && after.lay == fs.lay
    ensures extra <= extra' && |extra'| == |extra| + LeakCount(fs, ops) + LateCount(fs, ops)
    ensures lost <= lost' && |lost'| == |lost| + LossCount(fs, ops)
    decreases |ops|
  {
    if ops == [] {
      after, extra', lost' := fs, extra, lost;
    } else {
      var next, e, l := StepCounts(fs, ops[0], extra, lost);
      after, extra', lost' := RunKeeps(next, ops[1..], e, l);
    }
  }

  lemma UnownedIsExtra(fs: FS, n: Inode, extra: set<nat>, lost: set<nat>)
    requires Inv(fs, extra, lost) && InodeOk(fs.lay, n)
    ensures Unshared(fs, n) ==> BlocksOf(n) <= extra
    ensures BlocksOf(n) <= extra ==>
              forall k :: 0 <= k < BLOCK_PER_FILE && k < n.count ==> n.ptrs[k] in fs.used && !IsOwned(fs, n.ptrs[k])
  {
    if BlocksOf(n) <= extra {
      forall k | 0 <= k < BLOCK_PER_FILE && k < n.count
        ensures n.ptrs[k] in fs.used && !IsOwned(fs, n.ptrs[k])
      {
        assert n.ptrs[k] in BlocksOf(n);
      }
    }
  }

  /** A released inode stays one through every run: no call gives its blocks to anybody else. */
  lemma RunReleased(fs: FS, ops: seq<Op>, n: Inode) returns (after: FS)
    requires OwnInv(fs) && CanRun(fs, ops) && Released(fs, n)
    ensures after == Run(fs, ops) && Released(after, n)
  {
    var extra, lost := SomeAccount(fs);
    var extra', lost';
    after, extra', lost' := RunKeeps(fs, ops, extra, lost);
    UnownedIsExtra(fs, n, extra, lost);
    UnownedIsExtra(after, n, extra', lost');
  }
}
