/** Files with holes: what the on-demand write, the read and the release of blocks of the step-8 snapshot mean
    together. */
module HoleFiles {
  import opened Bytes
  import opened State
  import opened Steps
  import opened FileData
  import opened OnDemand

  /** naive_file_write of the snapshot: the filesystem afterwards, the return value, the new file position. */
  function Write(fs: FS, i: nat, pos: nat, buf: seq<byte>, bad: set<nat>): (FS, int, nat) {
    if pos + |buf| > MAX_FILE_SIZE then (fs, -EFBIG, pos) else
    var (after, n) := WriteOn(fs, i, pos, buf, bad);
    (after, n, pos + n)
  }

  /** naive_free_file_blocks: all eight pointers, whatever stands between them. */
  function FreeFileBlocks(fs: FS, i: nat): FS
    requires i in fs.inodes
  {
    var n := fs.inodes[i];
    fs.(used := fs.used - Held(n), inodes := fs.inodes[i := n.(ptrs := NoPtrs(), count := 0)])
  }

  // ---- one write ----

  /** Whatever a write returns: the invariant holds again, and a return value n >= 0 means exactly that the first n
      bytes have been written. */
  lemma WriteMeans(fs: FS, i: nat, pos: nat, buf: seq<byte>, bad: set<nat>) returns (after: FS, n: nat)
    requires HoleInv(fs) && i in fs.inodes
    ensures n <= |buf|
    ensures Write(fs, i, pos, buf, bad) == (after, if pos + |buf| > MAX_FILE_SIZE then -EFBIG else n, pos + n)
    ensures HoleInv(after) && Wrote(fs, after, i, pos, buf[..n], bad)
  {
    if pos + |buf| > MAX_FILE_SIZE {
      after, n := fs, 0;
    } else {
      after, n := WriteOnWrites(fs, i, pos, buf, bad);
    }
  }

  /** Reading at the same position gives back what the write reported as written. */
  lemma WriteThenRead(fs: FS, i: nat, pos: nat, buf: seq<byte>, bad: set<nat>)
    requires HoleInv(fs) && i in fs.inodes && Write(fs, i, pos, buf, bad).1 >= 0
    ensures var (after, n, end) := Write(fs, i, pos, buf, bad);
      n <= |buf| && i in after.inodes && ReadBytes(after.disk, after.inodes[i], pos, n, bad) == buf[..n]
  {
    var after, n := WriteMeans(fs, i, pos, buf, bad);
    var m := after.inodes[i];
    forall t
      ensures Got(after.disk, m, pos, bad, buf[..n], t)
    {
      assert Landed(after, i, pos, buf[..n], bad, t);
    }
    ReadIsUnique(after.disk, m, pos, n, bad, buf[..n]);
  }

  /** Any read of any other file returns what it returned before. */
  lemma WriteIsolates(fs: FS, i: nat, pos: nat, buf: seq<byte>, bad: set<nat>, j: nat, from: nat, len: nat,
      bad': set<nat>)
    requires HoleInv(fs) && i in fs.inodes && j in fs.inodes && j != i
    ensures var after := Write(fs, i, pos, buf, bad).0;
      && j in after.inodes && after.inodes[j] == fs.inodes[j]
      && ReadBytes(after.disk, after.inodes[j], from, len, bad') == ReadBytes(fs.disk, fs.inodes[j], from, len, bad')
  {
    var after, _ := WriteMeans(fs, i, pos, buf, bad);
    var n, r := fs.inodes[j], ReadBytes(fs.disk, fs.inodes[j], from, len, bad');
    ReadBytesIsRead(fs.disk, n, from, len, bad');
    forall t
      ensures Got(after.disk, n, from, bad', r, t)
    {
      assert Got(fs.disk, n, from, bad', r, t);
      if 0 <= t < |r| {
        assert ByteIs(fs, j, from + t, r[t]);
        assert ByteIs(after, j, from + t, r[t]);
      }
    }
    ReadIsUnique(after.disk, n, from, len, bad', r);
  }

  /** In the file itself, a byte outside the range that could be read still can be, and is the same. */
  lemma WriteKeepsRest(fs: FS, i: nat, pos: nat, buf: seq<byte>, bad: set<nat>, off: nat, bad': set<nat>)
    requires HoleInv(fs) && i in fs.inodes && Readable(fs.disk, fs.inodes[i], off, bad')
    requires var n := Write(fs, i, pos, buf, bad).1; !(pos <= off < pos + n)
    ensures var after := Write(fs, i, pos, buf, bad).0;
      && i in after.inodes && Readable(after.disk, after.inodes[i], off, bad')
      && ByteAt(after.disk, after.inodes[i], off) == ByteAt(fs.disk, fs.inodes[i], off)
  {
    var after, n := WriteMeans(fs, i, pos, buf, bad);
    var k := off / BLOCK_SIZE;
    assert ByteIs(fs, i, off, ByteAt(fs.disk, fs.inodes[i], off));
    assert ByteIs(after, i, off, ByteAt(fs.disk, fs.inodes[i], off));
    assert PointsAt(fs, i, k, fs.inodes[i].ptrs[k]);
    assert PointsAt(after, i, k, fs.inodes[i].ptrs[k]);
  }

  // ---- when a write is complete ----

  /** The holes the range reaches into. */
  function Holes(n: Inode, pos: nat, len: nat): set<nat> {
    set k | 0 <= k < BLOCK_PER_FILE && len > 0 && Touches(pos, len, k) && n.ptrs[k] == 0
  }

  function FreeData(fs: FS): set<nat> {
    set b | fs.lay.dataStart <= b < fs.lay.blockTotal && b !in fs.used
  }

  /** The free blocks in front of the first free block that cannot be read. */
  function Takeable(fs: FS, bad: set<nat>): set<nat> {
    set b | b in FreeData(fs) && forall c: nat :: c <= b && c in FreeData(fs) ==> c !in bad
  }

  /** The range reaches into a block of the file that cannot be read. */
  predicate MeetsBad(n: Inode, pos: nat, len: nat, bad: set<nat>) {
    exists k :: 0 <= k < BLOCK_PER_FILE && len > 0 && Touches(pos, len, k) && n.ptrs[k] != 0 && n.ptrs[k] in bad
  }

  /** How many blocks are missing for the holes the range reaches into; where a block of the file cannot be read, one
      is. */
  function Short(fs: FS, i: nat, pos: nat, len: nat, bad: set<nat>): int
    requires i in fs.inodes
  {
    if MeetsBad(fs.inodes[i], pos, len, bad) then 1
    else |Holes(fs.inodes[i], pos, len)| - |Takeable(fs, bad)|
  }

  /** Behind the first chunk there are all the holes but the one it reaches into. */
  lemma HolesBehind(n: Inode, pos: nat, len: nat)
    requires 0 < len && pos + len <= MAX_FILE_SIZE
    ensures var k, c := pos / BLOCK_SIZE, Chunk(pos, len);
      Holes(n, pos + c, len - c) == Holes(n, pos, len) - {k} && (k in Holes(n, pos, len) <==> n.ptrs[k] == 0)
  {
    var k, c := pos / BLOCK_SIZE, Chunk(pos, len);
    FirstChunk(pos, len, k);
    forall l: nat | l < BLOCK_PER_FILE
      ensures l in Holes(n, pos + c, len - c) <==> l in Holes(n, pos, len) && l != k
    {
      FirstChunk(pos, len, l);
    }
  }

  /** And all the blocks that cannot be read but the one it reaches into. */
  lemma BadBehind(n: Inode, m: Inode, pos: nat, len: nat, bad: set<nat>)
    requires 0 < len && pos + len <= MAX_FILE_SIZE
    requires forall l :: 0 <= l < BLOCK_PER_FILE && l != pos / BLOCK_SIZE ==> m.ptrs[l] == n.ptrs[l]
    ensures var k, c := pos / BLOCK_SIZE, Chunk(pos, len);
      MeetsBad(n, pos, len, bad) <==> MeetsBad(m, pos + c, len - c, bad) || (n.ptrs[k] != 0 && n.ptrs[k] in bad)
  {
    var k, c := pos / BLOCK_SIZE, Chunk(pos, len);
    FirstChunk(pos, len, k);
    assert Touches(pos, len, k);
    forall l: nat | l < BLOCK_PER_FILE
      ensures (len - c > 0 && Touches(pos + c, len - c, l)) <==> (Touches(pos, len, l) && l != k)
    {
      FirstChunk(pos, len, l);
    }
  }

  /** Filling that hole leaves one less behind it. */
  lemma HolesFilled(n: Inode, m: Inode, b: nat, pos: nat, len: nat)
    requires 0 < len && pos + len <= MAX_FILE_SIZE
    requires n.ptrs[pos / BLOCK_SIZE] == 0 && b != 0 && m.ptrs == n.ptrs[pos / BLOCK_SIZE := b]
    ensures var c := Chunk(pos, len); |Holes(m, pos + c, len - c)| == |Holes(n, pos, len)| - 1
  {
    HolesBehind(n, pos, len);
    var c := Chunk(pos, len);
    assert Holes(m, pos + c, len - c) == Holes(n, pos + c, len - c) - {pos / BLOCK_SIZE};
  }

  lemma HoleTaken(fs: FS, i: nat, k: nat, bad: set<nat>)
    requires i in fs.inodes && k < BLOCK_PER_FILE
    ensures match FirstFreeBlock(fs)
            case None => Takeable(fs, bad) == {}
            case Some(b) =>
              if b in bad then Takeable(fs, bad) == {}
              else |Takeable(Given(fs, i, k, b), bad)| == |Takeable(fs, bad)| - 1
  {
    match FirstFreeBlock(fs)
    case None =>
    case Some(b) =>
      assert b in FreeData(fs);
      if b !in bad {
        FirstTaken(fs, i, k, b, bad);
      }
  }

  lemma FirstTaken(fs: FS, i: nat, k: nat, b: nat, bad: set<nat>)
    requires i in fs.inodes && k < BLOCK_PER_FILE && FirstFreeBlock(fs) == Some(b) && b !in bad
    ensures b in Takeable(fs, bad) && Takeable(Given(fs, i, k, b), bad) == Takeable(fs, bad) - {b}
  {
    var after := Given(fs, i, k, b);
    assert forall c :: c in FreeData(after) <==> c in FreeData(fs) && c != b;
  }

  /** One round uses up the hole it fills, if there is one, and one free block for it. */
  lemma RoundUses(fs: FS, i: nat, pos: nat, len: nat, bad: set<nat>)
    requires HoleInv(fs) && i in fs.inodes && 0 < len && pos + len <= MAX_FILE_SIZE
    ensures var k, c := pos / BLOCK_SIZE, Chunk(pos, len);
      match Provide(fs, i, k, bad)
      case None => Short(fs, i, pos, len, bad) > 0
      case Some(next) => i in next.inodes && Short(next, i, pos + c, len - c, bad) == Short(fs, i, pos, len, bad)
  {
    var n, k := fs.inodes[i], pos / BLOCK_SIZE;
    HolesBehind(n, pos, len);
    BadBehind(n, n, pos, len, bad);
    if n.ptrs[k] == 0 {
      HoleTaken(fs, i, k, bad);
      match FirstFreeBlock(fs)
      case None =>
      case Some(b) =>
        var m := Given(fs, i, k, b).inodes[i];
        HolesFilled(n, m, b, pos, len);
        BadBehind(n, m, pos, len, bad);
    }
  }

  lemma RoundSucceeds(fs: FS, i: nat, pos: nat, bytes: seq<byte>, bad: set<nat>) returns (fs1: FS, next: FS)
    requires HoleInv(fs) && i in fs.inodes && pos < MAX_FILE_SIZE && pos % BLOCK_SIZE + |bytes| <= BLOCK_SIZE
    requires bytes != []
    requires Provide(fs, i, pos / BLOCK_SIZE, bad).Some?
    ensures Provide(fs, i, pos / BLOCK_SIZE, bad) == Some(fs1) && CanHold(fs1, i, pos, bytes)
    ensures next == PutChunk(fs1, i, pos, bytes)
    ensures WriteRound(i, bad)(fs, pos, bytes) == Some(next) && HoleInv(next) && i in next.inodes
  {
    HasRoom(fs, i, pos, bytes);
    fs1 := ProvideWrites(fs, i, pos / BLOCK_SIZE, pos, bad);
    HasRoom(fs1, i, pos, bytes);
    PutKeeps(fs1, i, pos, bytes);
    next := PutChunk(fs1, i, pos, bytes);
  }

  lemma PutUsesNothing(fs: FS, i: nat, pos: nat, bytes: seq<byte>, from: nat, len: nat, bad: set<nat>)
    requires CanHold(fs, i, pos, bytes)
    ensures var next := PutChunk(fs, i, pos, bytes);
      i in next.inodes && Short(next, i, from, len, bad) == Short(fs, i, from, len, bad)
  {
    var next := PutChunk(fs, i, pos, bytes);
    assert Holes(next.inodes[i], from, len) == Holes(fs.inodes[i], from, len) && FreeData(next) == FreeData(fs);
    assert Takeable(next, bad) == Takeable(fs, bad);
  }

  lemma RoundShort(fs: FS, i: nat, pos: nat, head: seq<byte>, rest: nat, bad: set<nat>) returns (next: FS)
    requires HoleInv(fs) && i in fs.inodes && pos + |head| + rest <= MAX_FILE_SIZE
    requires head != [] && |head| == Chunk(pos, |head| + rest)
    ensures match WriteRound(i, bad)(fs, pos, head)
            case None => Short(fs, i, pos, |head| + rest, bad) > 0
            case Some(t) =>
              && t == next && HoleInv(t) && i in t.inodes
              && Short(t, i, pos + |head|, rest, bad) == Short(fs, i, pos, |head| + rest, bad)
  {
    next := fs;
    RoundUses(fs, i, pos, |head| + rest, bad);
    HasRoom(fs, i, pos, head);
    if Provide(fs, i, pos / BLOCK_SIZE, bad).Some? {
      var fs1;
      fs1, next := RoundSucceeds(fs, i, pos, head, bad);
      PutUsesNothing(fs1, i, pos, head, pos + |head|, rest, bad);
    }
  }

  lemma NothingShort(fs: FS, i: nat, pos: nat, bad: set<nat>)
    requires i in fs.inodes
    ensures Short(fs, i, pos, 0, bad) <= 0
  {
    assert Holes(fs.inodes[i], pos, 0) == {};
  }

  /** The whole buffer is written exactly when every block of the file the range reaches into can be read and, in front
      of the first free block that cannot, there is a free block for every hole it reaches into. */
  lemma WriteOnCompletes(fs: FS, i: nat, pos: nat, buf: seq<byte>, bad: set<nat>) returns (after: FS, n: nat)
    requires HoleInv(fs) && i in fs.inodes && pos + |buf| <= MAX_FILE_SIZE
    ensures (after, n) == WriteOn(fs, i, pos, buf, bad) && n <= |buf|
    ensures n == |buf| <==>
      && !MeetsBad(fs.inodes[i], pos, |buf|, bad)
      && |Holes(fs.inodes[i], pos, |buf|)| <= |Takeable(fs, bad)|
  {
    var inv := (t: FS) => HoleInv(t) && i in t.inodes;
    var lacks := (t: FS, p: nat, len: nat) => if i in t.inodes then Short(t, i, p, len, bad) else 0;
    forall t, p | inv(t)
      ensures lacks(t, p, 0) <= 0
    {
      NothingShort(t, i, p, bad);
    }
    forall t, p: nat, chunk, rest: nat
      ensures LacksSame(WriteRound(i, bad), inv, lacks, t, p, chunk, rest)
    {
      if inv(t) && chunk != [] && |chunk| == Chunk(p, |chunk| + rest) && p + |chunk| + rest <= MAX_FILE_SIZE {
        var _ := RoundShort(t, i, p, chunk, rest, bad);
      }
    }
    after, n := LoopCompletes(WriteRound(i, bad), inv, lacks, fs, pos, buf);
    assert lacks(fs, pos, |buf|) == Short(fs, i, pos, |buf|, bad);
  }

  /** Without read errors that is: exactly when there is a free block for every hole. */
  lemma WriteOnFills(fs: FS, i: nat, pos: nat, buf: seq<byte>) returns (after: FS, n: nat)
    requires HoleInv(fs) && i in fs.inodes && pos + |buf| <= MAX_FILE_SIZE
    ensures (after, n) == WriteOn(fs, i, pos, buf, {}) && n <= |buf|
    ensures n == |buf| <==> |Holes(fs.inodes[i], pos, |buf|)| <= |FreeData(fs)|
  {
    after, n := WriteOnCompletes(fs, i, pos, buf, {});
    assert Takeable(fs, {}) == FreeData(fs);
  }

  /** write answers -EFBIG past 4096 bytes, and otherwise what it has written: all of it exactly under the condition
      above, else a count that ends in front of a block that cannot be had. */
  lemma WriteAnswers(fs: FS, i: nat, pos: nat, buf: seq<byte>, bad: set<nat>) returns (after: FS, ret: int)
    requires HoleInv(fs) && i in fs.inodes
    ensures var end := if ret < 0 then pos else pos + ret; Write(fs, i, pos, buf, bad) == (after, ret, end)
    ensures (ret == -27 <==> pos + |buf| > 4096) && (ret == -27 || 0 <= ret <= |buf|)
    ensures ret == |buf| <==>
      && pos + |buf| <= 4096 && !MeetsBad(fs.inodes[i], pos, |buf|, bad)
      && |Holes(fs.inodes[i], pos, |buf|)| <= |Takeable(fs, bad)|
    ensures 0 <= ret < |buf| ==>
      (ret == 0 || (pos + ret) % 512 == 0) && i in after.inodes && NoBlockAt(after, i, (pos + ret) / 512, bad)
  {
    after, ret := Write(fs, i, pos, buf, bad).0, Write(fs, i, pos, buf, bad).1;
    if pos + |buf| <= MAX_FILE_SIZE {
      var _, _ := WriteOnCompletes(fs, i, pos, buf, bad);
      var _, _ := StopsWhereNoBlock(fs, i, pos, buf, bad);
    }
  }

  /** Releasing a file's blocks clears the bits of exactly those its pointers hold, and the pointers and the count;
      kind, owner, links and size stay. */
  lemma FreeMakes(fs: FS, i: nat) returns (after: FS)
    requires i in fs.inodes
    ensures after == FreeFileBlocks(fs, i) && after == fs.(used := after.used, inodes := after.inodes)
    ensures after.inodes == fs.inodes[i := fs.inodes[i].(count := 0, ptrs := [0, 0, 0, 0, 0, 0, 0, 0])]
    ensures forall b :: b in after.used <==>
              b in fs.used && forall k :: 0 <= k < 8 && fs.inodes[i].ptrs[k] != 0 ==> fs.inodes[i].ptrs[k] != b
  {
    after := FreeFileBlocks(fs, i);
    assert NoPtrs() == [0, 0, 0, 0, 0, 0, 0, 0];
  }

  // ---- reading with holes ----

  /** Offset off falls into a hole, or into a block that cannot be read. */
  predicate Missing(n: Inode, off: int, bad: set<nat>) {
    0 <= off < MAX_FILE_SIZE ==> n.ptrs[off / BLOCK_SIZE] == 0 || n.ptrs[off / BLOCK_SIZE] in bad
  }

  /** Whatever a read returns came from the file, out of blocks that are there and can be read. */
  lemma ReadFinds(disk: seq<Block>, n: Inode, pos: nat, len: nat, bad: set<nat>, off: nat)
    requires pos <= off < pos + |ReadBytes(disk, n, pos, len, bad)|
    ensures off < n.size && !Missing(n, off, bad)
  {
    ReadBytesIsRead(disk, n, pos, len, bad);
    assert Got(disk, n, pos, bad, ReadBytes(disk, n, pos, len, bad), off - pos);
  }

  /** A read ends at the length asked for, at the end of the file, or where a block begins that is a hole or cannot
      be read; such a block it meets at its first byte, or at pos. */
  lemma ReadEnds(disk: seq<Block>, n: Inode, pos: nat, len: nat, bad: set<nat>)
    requires n.size <= MAX_FILE_SIZE && forall k :: 0 <= k < BLOCK_PER_FILE ==> n.ptrs[k] < |disk|
    ensures var r := ReadBytes(disk, n, pos, len, bad);
      |r| <= len && (|r| < len && pos + |r| < n.size ==> Missing(n, pos + |r|, bad) && AtBoundary(pos, |r|))
  {
    var r := ReadBytes(disk, n, pos, len, bad);
    var end := pos + |r|;
    ReadBytesIsRead(disk, n, pos, len, bad);
    if 0 < |r| {
      ReadFinds(disk, n, pos, len, bad, end - 1);
      assert end % BLOCK_SIZE != 0 ==> (end - 1) / BLOCK_SIZE == end / BLOCK_SIZE;
    }
  }

  // ---- blocks ----

  lemma HeldIsHolds(fs: FS, i: nat, b: nat)
    requires i in fs.inodes
    ensures b in Held(fs.inodes[i]) <==> exists k :: PointsAt(fs, i, k, b)
  {
    if b in Held(fs.inodes[i]) {
      var k :| 0 <= k < BLOCK_PER_FILE && fs.inodes[i].ptrs[k] == b && b != 0;
      assert PointsAt(fs, i, k, b);
    }
  }

  /** Giving a file's blocks back keeps the invariant and leaves every other file's bytes alone. */
  lemma FreeKeeps(fs: FS, i: nat)
    requires HoleInv(fs) && i in fs.inodes
    ensures HoleInv(FreeFileBlocks(fs, i)) && OthersSame(fs, FreeFileBlocks(fs, i), i)
  {
    var after := FreeFileBlocks(fs, i);
    forall j, k, b | PointsAt(after, j, k, b)
      ensures j != i && PointsAt(fs, j, k, b) && b in after.used
    {
      assert j != i && PointsAt(fs, j, k, b);
      HeldIsHolds(fs, i, b);
    }
    assert Present(after.inodes[i]) == {};
  }

  /** Used blocks that belong to no file. */
  ghost function Unheld(fs: FS): set<nat> {
    set b | b in fs.used && forall i, k :: !PointsAt(fs, i, k, b)
  }

  lemma WriteKeepsUnheld(fs: FS, i: nat, pos: nat, buf: seq<byte>, bad: set<nat>)
    requires HoleInv(fs) && i in fs.inodes
    ensures Unheld(Write(fs, i, pos, buf, bad).0) == Unheld(fs)
  {
    var after, _ := WriteMeans(fs, i, pos, buf, bad);
    forall b: nat
      ensures b in Unheld(fs) <==> b in Unheld(after)
    {
      HeldIsHolds(fs, i, b);
      HeldIsHolds(after, i, b);
      assert forall j, k :: j != i ==> (PointsAt(fs, j, k, b) <==> PointsAt(after, j, k, b));
    }
  }

  lemma FreeKeepsUnheld(fs: FS, i: nat)
    requires HoleInv(fs) && i in fs.inodes
    ensures Unheld(FreeFileBlocks(fs, i)) == Unheld(fs)
  {
    var after := FreeFileBlocks(fs, i);
    FreeKeeps(fs, i);
    forall b: nat
      ensures b in Unheld(fs) <==> b in Unheld(after)
    {
      HeldIsHolds(fs, i, b);
      HeldIsHolds(after, i, b);
      assert forall j, k :: j != i ==> (PointsAt(fs, j, k, b) <==> PointsAt(after, j, k, b));
    }
  }

  /** Freeing a file's blocks undoes whatever a write did to the bitmap. */
  lemma WriteThenFree(fs: FS, i: nat, pos: nat, buf: seq<byte>, bad: set<nat>)
    requires HoleInv(fs) && i in fs.inodes
    ensures var after := Write(fs, i, pos, buf, bad).0;
      i in after.inodes && FreeFileBlocks(after, i).used == FreeFileBlocks(fs, i).used
  {
    var after, _ := WriteMeans(fs, i, pos, buf, bad);
    HeldMore(fs, after, i);
  }

  // ---- any number of calls ----

  datatype Call = Fill(i: nat, pos: nat, buf: seq<byte>, bad: set<nat>) | Free(i: nat)

  function After(fs: FS, call: Call): FS {
    if call.i !in fs.inodes then fs else
    match call
    case Fill(i, pos, buf, bad) => Write(fs, i, pos, buf, bad).0
    case Free(i) => FreeFileBlocks(fs, i)
  }

  lemma CallKeeps(fs: FS, call: Call) returns (after: FS)
    requires HoleInv(fs)
    ensures after == After(fs, call)
    ensures HoleInv(after) && Unheld(after) == Unheld(fs) && OthersSame(fs, after, call.i)
  {
    after := After(fs, call);
    if call.i in fs.inodes {
      match call
      case Fill(i, pos, buf, bad) =>
        var _, _ := WriteMeans(fs, i, pos, buf, bad);
        WriteKeepsUnheld(fs, i, pos, buf, bad);
      case Free(i) =>
        FreeKeeps(fs, i);
        FreeKeepsUnheld(fs, i);
    }
  }

  function AfterAll(fs: FS, calls: seq<Call>): FS
    decreases |calls|
  {
    if calls == [] then fs else AfterAll(After(fs, calls[0]), calls[1..])
  }

  /** Through any calls on any of the files, with any read errors: no block gets two owners, every pointer is a used
      data block, every count is right, no block leaks, and no used block outside the files is ever handed out. */
  lemma {:induction false} AllCallsKeep(fs: FS, calls: seq<Call>)
    requires HoleInv(fs)
    ensures HoleInv(AfterAll(fs, calls)) && Unheld(AfterAll(fs, calls)) == Unheld(fs)
    decreases |calls|
  {
    if calls != [] {
      var next := CallKeeps(fs, calls[0]);
      AllCallsKeep(next, calls[1..]);
    }
  }

  /** And the bytes of a file survive any calls on the others. */
  lemma {:induction false} OthersSurvive(fs: FS, calls: seq<Call>, j: nat, off: nat, v: byte)
    requires HoleInv(fs) && ByteIs(fs, j, off, v) && forall c :: c in calls ==> c.i != j
    ensures var after := AfterAll(fs, calls);
      ByteIs(after, j, off, v) && after.inodes[j] == fs.inodes[j]
    decreases |calls|
  {
    if calls != [] {
      var next := CallKeeps(fs, calls[0]);
      OthersSurvive(next, calls[1..], j, off, v);
    }
  }

  // ---- the two allocators ----

  lemma LeastFreeBelow(used: set<nat>, lo: nat, mid: nat, hi: nat)
    requires mid <= hi
    ensures LeastFree(used, lo, mid) == match LeastFree(used, lo, hi) case None => None
        case Some(b) => if b < mid then Some(b) else None
  {
    var r, q := LeastFree(used, lo, mid), LeastFree(used, lo, hi);
    if r.Some? {
      assert q.Some? && !(q.value < r.value) && !(r.value < q.value);
    } else if q.Some? && q.value < mid {
      assert false;
    }
  }

  /** The byte-by-byte search of naive_alloc_block finds what the linear one finds, unless that lies in the last,
      incomplete byte of the bitmap: when the number of blocks is a multiple of 8 they always agree. */
  lemma AllocatorsAgree(fs: FS)
    ensures FreeBlock(fs) == (match FirstFreeBlock(fs)
                              case None => None
                              case Some(b) => if b < fs.lay.blockTotal / 8 * 8 then Some(b) else None)
    ensures fs.lay.blockTotal % 8 == 0 ==> FreeBlock(fs) == FirstFreeBlock(fs)
    ensures FirstFreeBlock(fs).Some? <==> FreeData(fs) != {}
  {
    LeastFreeBelow(fs.used, fs.lay.dataStart, fs.lay.blockTotal / 8 * 8, fs.lay.blockTotal);
    match FirstFreeBlock(fs)
    case None =>
    case Some(b) => assert b in FreeData(fs);
  }
}
