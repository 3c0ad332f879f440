/** Files over whole runs: what other calls leave alone, and how far reservation outgrows a file. */
module FileRuns {
  import opened Bytes
  import opened State
  import opened Steps
  import opened Ownership
  import opened FileWrite
  import opened Runs

  /** A call changes no byte of a file it does not name. */
  lemma OtherFilesSame(fs: FS, op: Op, f: nat)
    requires OwnInv(fs) && Enabled(fs, op) && FileIn(fs, f) && f !in Touched(op)
    ensures FileIn(Next(fs, op), f) && Contents(Next(fs, op), f) == Contents(fs, f)
  {
    var after := StepOwn(fs, op);
    assert SameFor(fs, after, f);
    forall off | 0 <= off < fs.inodes[f].size
      ensures FileByte(after, f, off) == FileByte(fs, f, off)
    {
      assert Owns(fs, f, off / BLOCK_SIZE, fs.inodes[f].ptrs[off / BLOCK_SIZE]);
    }
  }

  /** And neither does a run change a byte of a file none of its calls names. */
  lemma {:induction false} RunOtherFilesSame(fs: FS, ops: seq<Op>, f: nat)
    requires OwnInv(fs) && CanRun(fs, ops) && FileIn(fs, f) && forall op: Op :: op in ops ==> f !in Touched(op)
    ensures FileIn(Run(fs, ops), f) && Contents(Run(fs, ops), f) == Contents(fs, f)
    decreases |ops|
  {
    if ops != [] {
      assert ops[0] in ops;
      OtherFilesSame(fs, ops[0], f);
      RunOtherFilesSame(Next(fs, ops[0]), ops[1..], f);
    }
  }

  // ---- over-allocation ----

  /** Blocks a file holds beyond those its size needs. */
  function Slack(n: Inode): int {
    n.count - CeilBlocks(n.size)
  }

  lemma SlackBounds(fs: FS, i: nat)
    requires FileIn(fs, i)
    ensures 0 <= Slack(fs.inodes[i]) <= BLOCK_PER_FILE
    ensures fs.inodes[i].size > 0 ==> Slack(fs.inodes[i]) <= BLOCK_PER_FILE - 1
  {
  }

  /** Write grows file i, whose size was not a multiple of the block size. */
  ghost predicate GrowsUnaligned(fs: FS, op: Op, i: nat)
    requires OwnInv(fs) && Enabled(fs, op) && FileIn(fs, i)
  {
    op.OpWrite? && op.i == i && Write(fs, i, op.pos, op.buf).1 >= 0
    && op.pos + |op.buf| > fs.inodes[i].size && fs.inodes[i].size % BLOCK_SIZE != 0
  }

  /** A successful write raises the slack by exactly one when it grows a file of unaligned size, and by nothing
      otherwise. One that fails with -ENOSPC keeps every block it could attach: as many as there were unused pointers
      and free blocks for. */
  lemma WriteSlack(fs: FS, i: nat, pos: nat, buf: seq<byte>)
    requires FileIn(fs, i)
    ensures var (after, ret, _) := Write(fs, i, pos, buf);
      var n := fs.inodes[i];
      && FileIn(after, i)
      && (ret >= 0 ==>
            Slack(after.inodes[i]) == Slack(n) + if pos + |buf| > n.size && n.size % BLOCK_SIZE != 0 then 1 else 0)
      && (ret == -EFBIG ==> Slack(after.inodes[i]) == Slack(n))
      && (ret == -ENOSPC ==> after.inodes[i].count == n.count + Min(BLOCK_PER_FILE - n.count, |Available(fs)|)
                             && after.inodes[i].size == n.size)
      && after.inodes[i].size >= n.size
      && (ret >= 0 && pos + |buf| > n.size ==> after.inodes[i].size > 0)
  {
    var n := fs.inodes[i];
    WriteInv(fs, i, pos, buf);
    EnoughBlocks(n, pos, |buf|);
    if pos + |buf| <= MAX_FILE_SIZE {
      ReserveLengthens(fs, i, Wanted(n, pos, |buf|));
      ReserveTakes(fs, i, Wanted(n, pos, |buf|));
      ReserveSucceeds(fs, i, Wanted(n, pos, |buf|));
      RoundingGap(n.size);
    }
  }

  lemma RoundingGap(size: nat)
    ensures CeilBlocks(size) - size / BLOCK_SIZE == if size % BLOCK_SIZE != 0 then 1 else 0
  {
  }

  /** File i is live, and a file, in every state of the run. */
  ghost predicate LivesThrough(fs: FS, ops: seq<Op>, i: nat)
    requires OwnInv(fs) && CanRun(fs, ops)
    decreases |ops|
  {
    FileIn(fs, i) && (ops == [] || LivesThrough(Next(fs, ops[0]), ops[1..], i))
  }

  ghost function UnalignedGrowths(fs: FS, ops: seq<Op>, i: nat): nat
    requires OwnInv(fs) && CanRun(fs, ops) && LivesThrough(fs, ops, i)
    decreases |ops|
  {
    if ops == [] then 0 else
    (if GrowsUnaligned(fs, ops[0], i) then 1 else 0) + UnalignedGrowths(Next(fs, ops[0]), ops[1..], i)
  }

  lemma StepSlack(fs: FS, op: Op, i: nat)
    requires OwnInv(fs) && Enabled(fs, op) && FileIn(fs, i) && FileIn(Next(fs, op), i)
    ensures var n, m := fs.inodes[i], Next(fs, op).inodes[i];
      && Slack(m) >= Slack(n) + (if GrowsUnaligned(fs, op, i) then 1 else 0)
      && m.size >= n.size && (GrowsUnaligned(fs, op, i) ==> m.size > 0)
  {
    var after := StepOwn(fs, op);
    if i !in Touched(op) {
      assert SameFor(fs, after, i);
    } else {
      match op
      case OpWrite(_, pos, buf) => WriteSlack(fs, i, pos, buf);
      case _ =>
    }
  }

  lemma {:induction false} RunSlack(fs: FS, ops: seq<Op>, i: nat)
    requires OwnInv(fs) && CanRun(fs, ops) && LivesThrough(fs, ops, i)
    ensures FileIn(Run(fs, ops), i)
    ensures var n, m := fs.inodes[i], Run(fs, ops).inodes[i];
      && Slack(m) >= Slack(n) + UnalignedGrowths(fs, ops, i)
      && m.size >= n.size && (UnalignedGrowths(fs, ops, i) > 0 ==> m.size > 0)
    decreases |ops|
  {
    if ops != [] {
      StepSlack(fs, ops[0], i);
      RunSlack(Next(fs, ops[0]), ops[1..], i);
    }
  }

  /** However a file is used, at most seven writes can grow it from an unaligned size: the blocks reserved for
      nothing are never given back while the file lives. */
  lemma AtMostSevenUnalignedGrowths(fs: FS, ops: seq<Op>, i: nat)
    requires OwnInv(fs) && CanRun(fs, ops) && LivesThrough(fs, ops, i)
    ensures UnalignedGrowths(fs, ops, i) <= BLOCK_PER_FILE - 1
  {
    RunSlack(fs, ops, i);
    SlackBounds(fs, i);
    SlackBounds(Run(fs, ops), i);
  }
}
