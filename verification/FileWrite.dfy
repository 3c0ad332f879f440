/** The reserve-then-copy write of naivefs_file.c. */
module FileWrite {
  import opened Bytes
  import opened State
  import opened Steps
  import opened FileData
  import opened Ownership
  import opened Accounting

  /** Blocks naive_alloc_block can still hand out. */
  function Available(fs: FS): set<nat> {
    set b: nat | fs.lay.dataStart <= b < fs.lay.blockTotal / 8 * 8 && b !in fs.used
  }

  // ---- the reservation ----

  lemma AttachAccount(fs: FS, i: nat, b: nat, extra: set<nat>, lost: set<nat>)
    requires Inv(fs, extra, lost) && i in fs.inodes && fs.inodes[i].count < BLOCK_PER_FILE && FreeBlock(fs) == Some(b)
    ensures var after := Attached(fs, i, b);
      Inv(after, extra, lost) && Frame(fs, after, {i})
  {
    FreeBlockUnowned(fs);
    var fs1 := fs.(used := fs.used + {b});
    MarkUsed(fs, fs1.used, fs.iused, {i});
    UnownedAfterMark(fs, b);
    AttachBlock(fs1, i, b);
    var after := fs1.(inodes := fs1.inodes[i := Attach(fs1.inodes[i], b)]);
    assert forall j, k, x :: Owns(fs1, j, k, x) <==> Owns(fs, j, k, x);
    assert Owns(after, i, fs.inodes[i].count, b);
    OwnedMore(fs, after, b, true);
    FrameTrans(fs, fs1, after, {i});
  }

  /** Reserving keeps every invariant and leaves every other inode alone. */
  lemma {:induction false} ReserveKeeps(fs: FS, i: nat, wanted: nat, extra: set<nat>, lost: set<nat>)
    returns (after: FS)
    requires Inv(fs, extra, lost) && i in fs.inodes
    ensures after == Reserve(fs, i, wanted).0
    ensures Inv(after, extra, lost) && Frame(fs, after, {i})
    decreases wanted
  {
    if wanted == 0 || FreeBlock(fs).None? || fs.inodes[i].count >= BLOCK_PER_FILE {
      after := fs;
    } else {
      var b := FreeBlock(fs).value;
      AttachAccount(fs, i, b, extra, lost);
      after := ReserveKeeps(Attached(fs, i, b), i, wanted - 1, extra, lost);
      FrameTrans(fs, Attached(fs, i, b), after, {i});
    }
  }

  /** Reserving changes no byte of the device, and only lengthens the file's pointer list. */
  lemma {:induction false} ReserveLengthens(fs: FS, i: nat, wanted: nat)
    requires i in fs.inodes
    ensures var (after, ok) := Reserve(fs, i, wanted);
      && after == fs.(used := after.used, inodes := after.inodes) && after.inodes.Keys == fs.inodes.Keys
      && var n, m := fs.inodes[i], after.inodes[i];
      && m == n.(ptrs := m.ptrs, count := m.count) && n.count <= m.count && (ok ==> m.count == n.count + wanted)
      && (forall k :: 0 <= k < BLOCK_PER_FILE && k < n.count ==> m.ptrs[k] == n.ptrs[k])
    decreases wanted
  {
    if wanted > 0 && FreeBlock(fs).Some? && fs.inodes[i].count < BLOCK_PER_FILE {
      var b := FreeBlock(fs).value;
      var fs1 := Attached(fs, i, b);
      ReserveLengthens(fs1, i, wanted - 1);
    }
  }

  lemma OneAvailable(fs: FS, b: nat)
    requires FreeBlock(fs) == Some(b)
    ensures b in Available(fs) && |Available(fs)| >= 1
  {
    assert b in Available(fs);
    assert Available(fs) != {};
  }

  /** One round of the reservation. */
  lemma OneTaken(fs: FS, i: nat, b: nat) returns (fs1: FS)
    requires i in fs.inodes && fs.inodes[i].count < BLOCK_PER_FILE && FreeBlock(fs) == Some(b)
    ensures fs1 == Attached(fs, i, b) && i in fs1.inodes && fs1.inodes[i].count == fs.inodes[i].count + 1
    ensures |Available(fs1)| == |Available(fs)| - 1
  {
    fs1 := Attached(fs, i, b);
    OneAvailable(fs, b);
    assert Available(fs1) == Available(fs) - {b};
  }

  /** The reservation succeeds exactly when the pointers and the free blocks both suffice. */
  lemma {:induction false} ReserveSucceeds(fs: FS, i: nat, wanted: nat)
    requires i in fs.inodes && fs.inodes[i].count <= BLOCK_PER_FILE
    ensures Reserve(fs, i, wanted).1 <==> wanted <= BLOCK_PER_FILE - fs.inodes[i].count && wanted <= |Available(fs)|
    decreases wanted
  {
    match FreeBlock(fs)
    case None =>
      assert Available(fs) == {};
    case Some(b) =>
      OneAvailable(fs, b);
      if wanted > 0 && fs.inodes[i].count < BLOCK_PER_FILE {
        var fs1 := OneTaken(fs, i, b);
        ReserveSucceeds(fs1, i, wanted - 1);
      }
  }

  /** Whether it succeeds or not, the reservation attaches as many of the wanted blocks as pointers and bitmap allow. */
  lemma {:induction false} ReserveTakes(fs: FS, i: nat, wanted: nat)
    requires i in fs.inodes && fs.inodes[i].count <= BLOCK_PER_FILE
    ensures var n, m := fs.inodes[i], Reserve(fs, i, wanted).0.inodes;
      i in m && m[i].count == n.count + Min(wanted, Min(BLOCK_PER_FILE - n.count, |Available(fs)|))
    decreases wanted
  {
    match FreeBlock(fs)
    case None =>
      assert Available(fs) == {};
    case Some(b) =>
      OneAvailable(fs, b);
      if wanted > 0 && fs.inodes[i].count < BLOCK_PER_FILE {
        var fs1 := OneTaken(fs, i, b);
        ReserveTakes(fs1, i, wanted - 1);
      }
  }

  // ---- the write ----

  /** A file long enough for the range covers it with distinct blocks of the device. */
  lemma RangeCovered(fs: FS, i: nat, pos: nat, len: nat)
    requires OwnInv(fs) && i in fs.inodes && pos + len <= BLOCK_SIZE * fs.inodes[i].count
    ensures Covers(fs.disk, fs.inodes[i].ptrs, pos, len) && DistinctIn(fs.inodes[i].ptrs, pos, len)
    ensures forall k :: Touches(pos, len, k) ==> Owns(fs, i, k, fs.inodes[i].ptrs[k])
  {
    var ptrs := fs.inodes[i].ptrs;
    forall k, l | Touches(pos, len, k) && Touches(pos, len, l) && ptrs[k] == ptrs[l]
      ensures k == l
    {
      assert Owns(fs, i, k, ptrs[k]) && Owns(fs, i, l, ptrs[k]);
    }
  }

  /** Once its blocks are reserved, a file has one for every byte of the range: the copy loop cannot run out. */
  lemma EnoughBlocks(n: Inode, pos: nat, len: nat)
    requires n.size <= BLOCK_SIZE * n.count
    ensures Wanted(n, pos, len) >= 0 && pos + len <= BLOCK_SIZE * (n.count + Wanted(n, pos, len))
  {
  }

  ghost predicate FileIn(fs: FS, i: nat) {
    OwnInv(fs) && i in fs.inodes && !IsDir(fs.inodes[i].mode)
  }

  function Resized(n: Inode, end: nat): Inode {
    n.(size := Max(end, n.size))
  }

  /** The file is at least as long as the range. */
  function Extended(fs: FS, i: nat, end: nat): FS
    requires i in fs.inodes
  {
    fs.(inodes := fs.inodes[i := Resized(fs.inodes[i], end)])
  }

  /** The copy loop, and the size it leaves. */
  function Copied(fs: FS, i: nat, pos: nat, buf: seq<byte>): FS
    requires i in fs.inodes && Covers(fs.disk, fs.inodes[i].ptrs, pos, |buf|)
  {
    Extended(fs.(disk := CopyIn(fs.disk, fs.inodes[i].ptrs, pos, buf)), i, pos + |buf|)
  }

  /** naive_file_write: the filesystem afterwards, the return code, and the new file position. */
  ghost function Write(fs: FS, i: nat, pos: nat, buf: seq<byte>): (FS, int, nat)
    requires FileIn(fs, i)
  {
    var n := fs.inodes[i];
    if pos + |buf| > MAX_FILE_SIZE then (fs, -EFBIG, pos) else
    EnoughBlocks(n, pos, |buf|);
    var (fs1, ok) := Reserve(fs, i, Wanted(n, pos, |buf|));
    if !ok then (fs1, -ENOSPC, pos) else
    WriteCovered(fs, i, pos, |buf|);
    (Copied(fs1, i, pos, buf), |buf|, pos + |buf|)
  }

  lemma WriteCovered(fs: FS, i: nat, pos: nat, len: nat)
    requires FileIn(fs, i) && pos + len <= MAX_FILE_SIZE
    requires Wanted(fs.inodes[i], pos, len) >= 0 && Reserve(fs, i, Wanted(fs.inodes[i], pos, len)).1
    ensures var fs1 := Reserve(fs, i, Wanted(fs.inodes[i], pos, len)).0;
      && OwnInv(fs1) && i in fs1.inodes && pos + len <= BLOCK_SIZE * fs1.inodes[i].count
      && Covers(fs1.disk, fs1.inodes[i].ptrs, pos, len)
  {
    var extra, lost := SomeAccount(fs);
    var _ := ReserveKeeps(fs, i, Wanted(fs.inodes[i], pos, len), extra, lost);
    ReserveLengthens(fs, i, Wanted(fs.inodes[i], pos, len));
    EnoughBlocks(fs.inodes[i], pos, len);
    RangeCovered(Reserve(fs, i, Wanted(fs.inodes[i], pos, len)).0, i, pos, len);
  }

  // ---- what a write does ----

  lemma CopyInKeeps(fs: FS, i: nat, pos: nat, buf: seq<byte>, extra: set<nat>, lost: set<nat>) returns (after: FS)
    requires Inv(fs, extra, lost) && i in fs.inodes && pos + |buf| <= BLOCK_SIZE * fs.inodes[i].count
    requires Covers(fs.disk, fs.inodes[i].ptrs, pos, |buf|)
    ensures after == fs.(disk := CopyIn(fs.disk, fs.inodes[i].ptrs, pos, buf))
    ensures after.inodes == fs.inodes
    ensures Inv(after, extra, lost) && Frame(fs, after, {i})
  {
    var ptrs := fs.inodes[i].ptrs;
    after := fs.(disk := CopyIn(fs.disk, ptrs, pos, buf));
    RangeCovered(fs, i, pos, |buf|);
    forall j, k, b | Owns(fs, j, k, b) && j != i
      ensures 0 <= b < |fs.disk| && after.disk[b] == fs.disk[b]
    {
      CopyInSkips(fs.disk, ptrs, pos, buf, b);
    }
    assert forall j, k, b :: Owns(after, j, k, b) <==> Owns(fs, j, k, b);
    SameAccount(fs, after, extra, lost);
  }

  lemma ResizeKeeps(fs: FS, i: nat, end: nat, extra: set<nat>, lost: set<nat>) returns (after: FS)
    requires Inv(fs, extra, lost) && i in fs.inodes && end <= BLOCK_SIZE * fs.inodes[i].count
    ensures after == fs.(inodes := fs.inodes[i := Resized(fs.inodes[i], end)])
    ensures Inv(after, extra, lost) && Frame(fs, after, {i})
  {
    after := fs.(inodes := fs.inodes[i := Resized(fs.inodes[i], end)]);
    SetAttrsKeeps(fs, i, Resized(fs.inodes[i], end), extra, lost);
  }

  /** Whatever a write returns, it keeps ownership and both accounts and touches no other inode. */
  lemma WriteKeeps(fs: FS, i: nat, pos: nat, buf: seq<byte>, extra: set<nat>, lost: set<nat>) returns (after: FS)
    requires Inv(fs, extra, lost) && FileIn(fs, i)
    ensures after == Write(fs, i, pos, buf).0
    ensures Inv(after, extra, lost) && Frame(fs, after, {i})
  {
    var n := fs.inodes[i];
    after := fs;
    if pos + |buf| <= MAX_FILE_SIZE {
      EnoughBlocks(n, pos, |buf|);
      after := ReserveKeeps(fs, i, Wanted(n, pos, |buf|), extra, lost);
      if Reserve(fs, i, Wanted(n, pos, |buf|)).1 {
        WriteCovered(fs, i, pos, |buf|);
        after := CopiedKeeps(fs, after, i, pos, buf, extra, lost);
      }
    }
  }

  lemma ResizedKeeps(fs: FS, mid: FS, i: nat, end: nat, extra: set<nat>, lost: set<nat>) returns (after: FS)
    requires Inv(mid, extra, lost) && mid.inodes == fs.inodes && i in fs.inodes
    requires end <= BLOCK_SIZE * fs.inodes[i].count
    ensures after == Extended(mid, i, end)
    ensures Inv(after, extra, lost) && Frame(mid, after, {i})
  {
    after := ResizeKeeps(mid, i, end, extra, lost);
  }

  lemma TwoMoreFrames(a: FS, b: FS, c: FS, d: FS, touched: set<nat>)
    requires Frame(a, b, touched) && Frame(b, c, touched) && Frame(c, d, touched)
    ensures Frame(a, d, touched)
  {
    FrameTrans(a, b, c, touched);
    FrameTrans(a, c, d, touched);
  }

  /** The copy loop and the new size, as one change. */
  lemma CopyAndResize(fs: FS, i: nat, pos: nat, buf: seq<byte>, end: nat, extra: set<nat>, lost: set<nat>)
    returns (mid: FS, after: FS)
    requires Inv(fs, extra, lost) && i in fs.inodes && end == pos + |buf| <= BLOCK_SIZE * fs.inodes[i].count
    requires Covers(fs.disk, fs.inodes[i].ptrs, pos, |buf|)
    ensures mid == fs.(disk := CopyIn(fs.disk, fs.inodes[i].ptrs, pos, buf)) && mid.inodes == fs.inodes
    ensures after == Extended(mid, i, end) && after == Copied(fs, i, pos, buf)
    ensures Inv(after, extra, lost) && Frame(fs, mid, {i}) && Frame(mid, after, {i})
  {
    mid := CopyInKeeps(fs, i, pos, buf, extra, lost);
    after := ResizedKeeps(fs, mid, i, end, extra, lost);
    CopiedIs(fs, i, pos, buf, end, mid);
  }

  lemma CopiedIs(fs: FS, i: nat, pos: nat, buf: seq<byte>, end: nat, mid: FS)
    requires i in fs.inodes && Covers(fs.disk, fs.inodes[i].ptrs, pos, |buf|) && end == pos + |buf|
    requires mid == fs.(disk := CopyIn(fs.disk, fs.inodes[i].ptrs, pos, buf))
    ensures Extended(mid, i, end) == Copied(fs, i, pos, buf)
  {
  }

  lemma CopiedKeeps(fs: FS, fs1: FS, i: nat, pos: nat, buf: seq<byte>, extra: set<nat>, lost: set<nat>)
    returns (after: FS)
    requires Inv(fs1, extra, lost) && i in fs1.inodes && pos + |buf| <= BLOCK_SIZE * fs1.inodes[i].count
    requires Covers(fs1.disk, fs1.inodes[i].ptrs, pos, |buf|) && Frame(fs, fs1, {i})
    ensures after == Copied(fs1, i, pos, buf)
    ensures Inv(after, extra, lost) && Frame(fs, after, {i})
  {
    var mid;
    mid, after := CopyAndResize(fs1, i, pos, buf, pos + |buf|, extra, lost);
    TwoMoreFrames(fs, fs1, mid, after, {i});
  }

  /** A write returns -EFBIG, -ENOSPC or the full length, and it is the full length exactly when the file
      limit, the pointers and the free blocks all suffice. */
  lemma WriteReturns(fs: FS, i: nat, pos: nat, buf: seq<byte>)
    requires FileIn(fs, i)
    ensures var (after, ret, end) := Write(fs, i, pos, buf);
      var n, len := fs.inodes[i], |buf|;
      && (ret == -EFBIG <==> pos + len > MAX_FILE_SIZE)
      && (ret == len <==>
            && pos + len <= MAX_FILE_SIZE
            && n.count + Wanted(n, pos, len) <= BLOCK_PER_FILE && Wanted(n, pos, len) <= |Available(fs)|)
      && ret in {-EFBIG, -ENOSPC, len as int} && end == if ret < 0 then pos else pos + len
  {
    EnoughBlocks(fs.inodes[i], pos, |buf|);
    if pos + |buf| <= MAX_FILE_SIZE {
      ReserveSucceeds(fs, i, Wanted(fs.inodes[i], pos, |buf|));
    }
  }

  /** The readable bytes of a file. */
  ghost function Contents(fs: FS, i: nat): seq<byte>
    requires FileIn(fs, i)
  {
    var n := fs.inodes[i];
    seq(n.size, off requires 0 <= off < n.size => FileByte(fs, i, off))
  }

  ghost function FileByte(fs: FS, i: nat, off: nat): byte
    requires OwnInv(fs) && i in fs.inodes && off < BLOCK_SIZE * fs.inodes[i].count
  {
    assert Owns(fs, i, off / BLOCK_SIZE, fs.inodes[i].ptrs[off / BLOCK_SIZE]);
    ByteAt(fs.disk, fs.inodes[i], off)
  }

  lemma WriteInv(fs: FS, i: nat, pos: nat, buf: seq<byte>)
    requires FileIn(fs, i)
    ensures FileIn(Write(fs, i, pos, buf).0, i) && Frame(fs, Write(fs, i, pos, buf).0, {i})
    ensures Write(fs, i, pos, buf).0.inodes.Keys == fs.inodes.Keys
  {
    var extra, lost := SomeAccount(fs);
    var _ := WriteKeeps(fs, i, pos, buf, extra, lost);
    EnoughBlocks(fs.inodes[i], pos, |buf|);
    if pos + |buf| <= MAX_FILE_SIZE {
      ReserveLengthens(fs, i, Wanted(fs.inodes[i], pos, |buf|));
    }
  }

  /** Of the file's inode a write changes at most the size and the pointers past the old count, and it never takes a
      block away from the file. */
  lemma WriteTouchesOnly(fs: FS, i: nat, pos: nat, buf: seq<byte>)
    requires FileIn(fs, i)
    ensures var after := Write(fs, i, pos, buf).0;
      && i in after.inodes && after.lay == fs.lay && after.iused == fs.iused
      && after.inodes == fs.inodes[i := after.inodes[i]]
      && var n, m := fs.inodes[i], after.inodes[i];
      && m == n.(size := m.size, count := m.count, ptrs := m.ptrs) && n.count <= m.count
      && forall k :: 0 <= k < BLOCK_PER_FILE && k < n.count ==> m.ptrs[k] == n.ptrs[k]
  {
    EnoughBlocks(fs.inodes[i], pos, |buf|);
    WriteInv(fs, i, pos, buf);
    var after := Write(fs, i, pos, buf).0;
    if pos + |buf| <= MAX_FILE_SIZE {
      ReserveLengthens(fs, i, Wanted(fs.inodes[i], pos, |buf|));
    }
    forall j | j in fs.inodes && j != i
      ensures after.inodes[j] == fs.inodes[j]
    {
      assert SameFor(fs, after, j);
    }
    assert after.inodes == fs.inodes[i := after.inodes[i]];
  }

  /** A write that fails leaves the file's size, its readable bytes and the file position as they were. */
  lemma FailedWriteIsClean(fs: FS, i: nat, pos: nat, buf: seq<byte>)
    requires FileIn(fs, i) && Write(fs, i, pos, buf).1 < 0
    ensures var (after, ret, end) := Write(fs, i, pos, buf);
      FileIn(after, i) && Contents(after, i) == Contents(fs, i) && end == pos && after.disk == fs.disk
  {
    WriteInv(fs, i, pos, buf);
    EnoughBlocks(fs.inodes[i], pos, |buf|);
    if pos + |buf| <= MAX_FILE_SIZE {
      ReserveLengthens(fs, i, Wanted(fs.inodes[i], pos, |buf|));
    }
  }

  /** v is what the block of byte off of inode n holds on the device. */
  predicate HeldAt(disk: seq<Block>, n: Inode, off: int, v: byte) {
    && 0 <= off < MAX_FILE_SIZE && n.ptrs[off / BLOCK_SIZE] < |disk|
    && v == disk[n.ptrs[off / BLOCK_SIZE]][off % BLOCK_SIZE]
  }

  /** Byte off of the file after a successful write: the buffer's, or what its block held before the write. */
  lemma WrittenByte(fs: FS, i: nat, pos: nat, buf: seq<byte>, off: nat)
    requires FileIn(fs, i) && Write(fs, i, pos, buf).1 >= 0
    ensures var after := Write(fs, i, pos, buf).0;
      && FileIn(after, i) && after.inodes[i].size == Max(pos + |buf|, fs.inodes[i].size)
      && (off < after.inodes[i].size ==>
            if pos <= off < pos + |buf| then FileByte(after, i, off) == buf[off - pos]
            else HeldAt(fs.disk, after.inodes[i], off, FileByte(after, i, off)))
  {
    var n := fs.inodes[i];
    WriteInv(fs, i, pos, buf);
    EnoughBlocks(n, pos, |buf|);
    var wanted := Wanted(n, pos, |buf|);
    ReserveLengthens(fs, i, wanted);
    var fs1 := Reserve(fs, i, wanted).0;
    WriteCovered(fs, i, pos, |buf|);
    RangeCovered(fs1, i, pos, |buf|);
    if off < BLOCK_SIZE * fs1.inodes[i].count {
      ByteAfterCopy(fs1, i, pos, buf, off);
    }
  }

  /** A byte the file had before: its block is still the file's. */
  lemma KeptByte(fs: FS, i: nat, pos: nat, buf: seq<byte>, off: nat)
    requires FileIn(fs, i) && off < fs.inodes[i].size
    ensures var after := Write(fs, i, pos, buf).0;
      i in after.inodes && HeldAt(fs.disk, after.inodes[i], off, FileByte(fs, i, off))
  {
    WriteTouchesOnly(fs, i, pos, buf);
    assert Owns(fs, i, off / BLOCK_SIZE, fs.inodes[i].ptrs[off / BLOCK_SIZE]);
  }

  lemma ByteAfterCopy(fs: FS, i: nat, pos: nat, buf: seq<byte>, off: nat)
    requires OwnInv(fs) && i in fs.inodes && pos + |buf| <= BLOCK_SIZE * fs.inodes[i].count
    requires off < BLOCK_SIZE * fs.inodes[i].count
    requires Covers(fs.disk, fs.inodes[i].ptrs, pos, |buf|)
    ensures fs.inodes[i].ptrs[off / BLOCK_SIZE] < |fs.disk|
    ensures ByteAt(CopyIn(fs.disk, fs.inodes[i].ptrs, pos, buf), fs.inodes[i], off)
         == if pos <= off < pos + |buf| then buf[off - pos] else ByteAt(fs.disk, fs.inodes[i], off)
  {
    var n, k := fs.inodes[i], off / BLOCK_SIZE;
    RangeCovered(fs, i, pos, |buf|);
    assert Owns(fs, i, k, n.ptrs[k]);
    if Touches(pos, |buf|, k) {
      CopyInPuts(fs.disk, n.ptrs, pos, buf, k, off % BLOCK_SIZE);
    } else {
      forall l | Touches(pos, |buf|, l)
        ensures n.ptrs[l] != n.ptrs[k]
      {
        assert Owns(fs, i, l, n.ptrs[l]);
      }
      CopyInSkips(fs.disk, n.ptrs, pos, buf, n.ptrs[k]);
    }
  }

  /** The slices of a sequence that is before with buf at pos, whatever fills a gap between them. */
  lemma SlicesOf(before: seq<byte>, written: seq<byte>, pos: nat, buf: seq<byte>)
    requires |written| == Max(pos + |buf|, |before|)
    requires forall off :: pos <= off < pos + |buf| ==> written[off] == buf[off - pos]
    requires forall off :: 0 <= off < |before| && !(pos <= off < pos + |buf|) ==> written[off] == before[off]
    ensures written[pos..pos + |buf|] == buf
    ensures if pos <= |before| then written[..pos] == before[..pos] else written[..|before|] == before
    ensures pos + |buf| < |before| ==> written[pos + |buf|..] == before[pos + |buf|..]
  {
  }

  /** A successful write splices the buffer into the file. Every other byte of the file is what its block held before
      the write: the file's own byte if it had one there, and otherwise whatever was left in the block it has taken. */
  lemma WriteSplices(fs: FS, i: nat, pos: nat, buf: seq<byte>)
    requires FileIn(fs, i) && Write(fs, i, pos, buf).1 >= 0
    ensures FileIn(Write(fs, i, pos, buf).0, i)
    ensures var before, written := Contents(fs, i), Contents(Write(fs, i, pos, buf).0, i);
      var end := pos + |buf|;
      && |written| == Max(end, |before|)
      && written[pos..end] == buf
      && (if pos <= |before| then written[..pos] == before[..pos] else written[..|before|] == before)
      && (end < |before| ==> written[end..] == before[end..])
      && (forall off :: 0 <= off < |written| && !(pos <= off < end) ==>
            HeldAt(fs.disk, Write(fs, i, pos, buf).0.inodes[i], off, written[off]))
  {
    var after := WriteBytes(fs, i, pos, buf);
    SlicesOf(Contents(fs, i), Contents(after, i), pos, buf);
  }

  /** The same, byte by byte. */
  lemma WriteBytes(fs: FS, i: nat, pos: nat, buf: seq<byte>) returns (after: FS)
    requires FileIn(fs, i) && Write(fs, i, pos, buf).1 >= 0
    ensures after == Write(fs, i, pos, buf).0 && FileIn(after, i)
    ensures |Contents(after, i)| == Max(pos + |buf|, |Contents(fs, i)|)
    ensures forall off :: pos <= off < pos + |buf| ==> Contents(after, i)[off] == buf[off - pos]
    ensures forall off :: 0 <= off < |Contents(fs, i)| && !(pos <= off < pos + |buf|) ==>
              Contents(after, i)[off] == Contents(fs, i)[off]
    ensures forall off :: 0 <= off < |Contents(after, i)| && !(pos <= off < pos + |buf|) ==>
              HeldAt(fs.disk, after.inodes[i], off, Contents(after, i)[off])
  {
    after := Write(fs, i, pos, buf).0;
    WrittenByte(fs, i, pos, buf, 0);
    forall off: nat | off < after.inodes[i].size
      ensures if pos <= off < pos + |buf| then FileByte(after, i, off) == buf[off - pos]
              else HeldAt(fs.disk, after.inodes[i], off, FileByte(after, i, off))
    {
      WrittenByte(fs, i, pos, buf, off);
    }
    forall off: nat | off < fs.inodes[i].size
      ensures HeldAt(fs.disk, after.inodes[i], off, FileByte(fs, i, off))
    {
      KeptByte(fs, i, pos, buf, off);
    }
  }

  // ---- reading it back ----

  /** Reading a file of the hole-free layout returns the slice of its contents that was asked for. */
  lemma ReadIsSlice(fs: FS, i: nat, pos: nat, len: nat)
    requires FileIn(fs, i)
    ensures var c := Contents(fs, i);
      ReadBytes(fs.disk, fs.inodes[i], pos, len, {})
        == if pos >= |c| then [] else c[pos..Min(pos + len, |c|)]
  {
    var n, c := fs.inodes[i], Contents(fs, i);
    var r := if pos >= |c| then [] else c[pos..Min(pos + len, |c|)];
    forall t
      ensures Got(fs.disk, n, pos, {}, r, t)
    {
      if 0 <= t < |r| {
        assert r[t] == FileByte(fs, i, pos + t);
        assert Owns(fs, i, (pos + t) / BLOCK_SIZE, n.ptrs[(pos + t) / BLOCK_SIZE]);
      }
    }
    ReadIsUnique(fs.disk, n, pos, len, {}, r);
  }

  /** What a successful write put in, a read at the same position returns. */
  lemma WriteThenRead(fs: FS, i: nat, pos: nat, buf: seq<byte>)
    requires FileIn(fs, i) && Write(fs, i, pos, buf).1 >= 0
    ensures var after := Write(fs, i, pos, buf).0;
      i in after.inodes && ReadBytes(after.disk, after.inodes[i], pos, |buf|, {}) == buf
  {
    WriteSplices(fs, i, pos, buf);
    ReadIsSlice(Write(fs, i, pos, buf).0, i, pos, |buf|);
  }
}
