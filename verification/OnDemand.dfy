/** The data path of the step-8 snapshot: blocks are taken as a write reaches them, files may have holes, writes may
    be short. What each write does to the filesystem value, and what reading gives back. */
module OnDemand {
  import opened Bytes
  import opened State
  import opened Steps

  // ---- a loop over the chunks of a buffer ----

  /** One round: the state after the chunk has gone to file position pos, or None when the loop breaks off. */
  type Rounds<!S> = (S, nat, seq<byte>) -> Option<S>

  /** Chunk after chunk, cut at block boundaries, until the buffer is used up or a round breaks off: the state
      reached and the number of bytes used. */
  function Loop<S>(round: Rounds<S>, s: S, pos: nat, buf: seq<byte>): (r: (S, nat))
    ensures r.1 <= |buf|
    decreases |buf|
  {
    if buf == [] then (s, 0) else
    var c := Chunk(pos, |buf|);
    match round(s, pos, buf[..c])
    case None => (s, 0)
    case Some(next) => var (after, n) := Loop(round, next, pos + c, buf[c..]); (after, c + n)
  }

  lemma ChunkOfPrefix(pos: nat, len: nat, m: nat)
    requires len > 0 && Chunk(pos, len) + m <= len
    ensures Chunk(pos, Chunk(pos, len) + m) == Chunk(pos, len)
  {
  }

  /** The loop, given the two parts of its buffer and what follows from each. */
  lemma LoopUnfolds<S>(round: Rounds<S>, s: S, pos: nat, buf: seq<byte>, head: seq<byte>, rest: seq<byte>, next: S,
      after: S, n: nat)
    requires buf != [] && buf == head + rest && |head| == Chunk(pos, |buf|) && round(s, pos, head) == Some(next)
    requires Loop(round, next, pos + |head|, rest) == (after, n)
    ensures Loop(round, s, pos, buf) == (after, |head| + n)
  {
    assert buf[..|head|] == head && buf[|head|..] == rest;
  }

  lemma LoopBreaksOff<S>(round: Rounds<S>, s: S, pos: nat, buf: seq<byte>)
    requires buf == [] || round(s, pos, buf[..Chunk(pos, |buf|)]).None?
    ensures Loop(round, s, pos, buf) == (s, 0)
  {
  }

  /** The first chunk of a buffer, and the rest. */
  lemma FirstPart(pos: nat, buf: seq<byte>) returns (head: seq<byte>, rest: seq<byte>)
    requires buf != []
    ensures buf == head + rest && |head| == Chunk(pos, |buf|) > 0 && |rest| < |buf| && head == buf[..Chunk(pos, |buf|)]
  {
    head, rest := buf[..Chunk(pos, |buf|)], buf[Chunk(pos, |buf|)..];
  }

  lemma PrefixParts(buf: seq<byte>, head: seq<byte>, rest: seq<byte>, n: nat)
    requires buf == head + rest && n <= |rest|
    ensures buf[..|head| + n] == head + rest[..n]
  {
  }

  /** Rounds that only break off less often use a shortened buffer completely and end in the same state. */
  lemma {:induction false} LoopPrefix<S(!new)>(round: Rounds<S>, round': Rounds<S>, s: S, pos: nat, buf: seq<byte>)
    returns (after: S, n: nat, less: seq<byte>)
    requires forall t, p, chunk :: round(t, p, chunk).Some? ==> round'(t, p, chunk) == round(t, p, chunk)
    ensures (after, n) == Loop(round, s, pos, buf) && n <= |buf| && less == buf[..n]
    ensures (after, n) == Loop(round', s, pos, less)
    decreases |buf|
  {
    if buf == [] || round(s, pos, buf[..Chunk(pos, |buf|)]).None? {
      LoopBreaksOff(round, s, pos, buf);
      after, n, less := s, 0, [];
    } else {
      var head, rest := FirstPart(pos, buf);
      var next := round(s, pos, head).value;
      after, n, less := LoopPrefix(round, round', next, pos + |head|, rest);
      LoopUnfolds(round, s, pos, buf, head, rest, next, after, n);
      ChunkOfPrefix(pos, |buf|, n);
      PrefixParts(buf, head, rest, n);
      LoopUnfolds(round', s, pos, head + less, head, less, next, after, n);
      n, less := |head| + n, head + less;
    }
  }

  lemma BoundaryAfterChunk(pos: nat, len: nat)
    requires Chunk(pos, len) < len
    ensures (pos + Chunk(pos, len)) % BLOCK_SIZE == 0
  {
    assert pos + Chunk(pos, len) == BLOCK_SIZE * (pos / BLOCK_SIZE + 1);
  }

  /** A loop that stops early, at end, stops there because the round of the next chunk breaks off. */
  lemma {:induction false} LoopStops<S>(round: Rounds<S>, s: S, pos: nat, buf: seq<byte>)
    returns (after: S, n: nat, end: nat, chunk: seq<byte>)
    ensures (after, n) == Loop(round, s, pos, buf) && n <= |buf| && end == pos + n
    ensures n < |buf| ==> round(after, end, chunk).None? && |chunk| == Chunk(end, |buf| - n)
    decreases |buf|
  {
    if buf == [] || round(s, pos, buf[..Chunk(pos, |buf|)]).None? {
      LoopBreaksOff(round, s, pos, buf);
      after, n, end, chunk := s, 0, pos, buf[..Chunk(pos, |buf|)];
    } else {
      var head, rest := FirstPart(pos, buf);
      var next := round(s, pos, head).value;
      after, n, end, chunk := LoopStops(round, next, pos + |head|, rest);
      LoopUnfolds(round, s, pos, buf, head, rest, next, after, n);
      n := |head| + n;
    }
  }

  /** And it stops where a block begins, unless it has not begun. */
  lemma {:induction false} LoopStopsAtBlock<S>(round: Rounds<S>, s: S, pos: nat, buf: seq<byte>)
    returns (after: S, n: nat, end: nat)
    ensures (after, n) == Loop(round, s, pos, buf) && end == pos + n
    ensures n < |buf| ==> end == pos || end % BLOCK_SIZE == 0
    decreases |buf|
  {
    if buf == [] || round(s, pos, buf[..Chunk(pos, |buf|)]).None? {
      LoopBreaksOff(round, s, pos, buf);
      after, n, end := s, 0, pos;
    } else {
      var head, rest := FirstPart(pos, buf);
      var next := round(s, pos, head).value;
      after, n, end := LoopStopsAtBlock(round, next, pos + |head|, rest);
      LoopUnfolds(round, s, pos, buf, head, rest, next, after, n);
      if n < |rest| {
        BoundaryAfterChunk(pos, |buf|);
      }
      n := |head| + n;
    }
  }

  /** What every round does, and what adds up over the chunks, the loop does with all the bytes it uses. */
  lemma {:induction false} LoopAdds<S(!new)>(round: Rounds<S>, inv: S -> bool, rel: (S, S, nat, seq<byte>) -> bool,
                                             s: S, pos: nat, buf: seq<byte>)
    returns (after: S, n: nat, less: seq<byte>)
    requires inv(s)
    requires forall t, p :: inv(t) ==> rel(t, t, p, [])
    requires forall t, p, chunk :: inv(t) && chunk != [] && round(t, p, chunk).Some? ==>
      inv(round(t, p, chunk).value) && rel(t, round(t, p, chunk).value, p, chunk)
    requires forall t, u, v, p: nat, q: nat, x, y ::
      rel(t, u, p, x) && rel(u, v, q, y) && q == p + |x| ==> rel(t, v, p, x + y)
    ensures (after, n) == Loop(round, s, pos, buf) && n <= |buf| && less == buf[..n]
    ensures inv(after) && rel(s, after, pos, less)
    decreases |buf|
  {
    if buf == [] || round(s, pos, buf[..Chunk(pos, |buf|)]).None? {
      LoopBreaksOff(round, s, pos, buf);
      after, n, less := s, 0, [];
    } else {
      var head, rest := FirstPart(pos, buf);
      var next := round(s, pos, head).value;
      assert inv(next) && rel(s, next, pos, head);
      after, n, less := LoopAdds(round, inv, rel, next, pos + |head|, rest);
      LoopUnfolds(round, s, pos, buf, head, rest, next, after, n);
      PrefixParts(buf, head, rest, n);
      n, less := |head| + n, head + less;
    }
  }

  /** A round that goes on leaves what is lacking as it was, one that breaks off shows that something is. */
  ghost predicate LacksSame<S>(round: Rounds<S>, inv: S -> bool, lacks: (S, nat, nat) -> int, t: S, p: nat,
      chunk: seq<byte>, rest: nat) {
    inv(t) && chunk != [] && |chunk| == Chunk(p, |chunk| + rest) && p + |chunk| + rest <= MAX_FILE_SIZE ==>
      match round(t, p, chunk)
      case None => lacks(t, p, |chunk| + rest) > 0
      case Some(u) => inv(u) && lacks(u, p + |chunk|, rest) == lacks(t, p, |chunk| + rest)
  }

  /** When what a loop lacks is known in advance, goes unchanged through every round, and is what makes a round break
      off, then the loop is complete exactly when it lacks nothing. */
  lemma {:induction false} LoopCompletes<S(!new)>(round: Rounds<S>, inv: S -> bool, lacks: (S, nat, nat) -> int,
                                                  s: S, pos: nat, buf: seq<byte>)
    returns (after: S, n: nat)
    requires inv(s) && pos + |buf| <= MAX_FILE_SIZE
    requires forall t, p :: inv(t) ==> lacks(t, p, 0) <= 0
    requires forall t, p, chunk, rest :: LacksSame(round, inv, lacks, t, p, chunk, rest)
    ensures (after, n) == Loop(round, s, pos, buf) && n <= |buf|
    ensures n == |buf| <==> lacks(s, pos, |buf|) <= 0
    decreases |buf|
  {
    if buf == [] {
      after, n := s, 0;
    } else {
      var head, rest := FirstPart(pos, buf);
      assert LacksSame(round, inv, lacks, s, pos, head, |rest|);
      if round(s, pos, head).None? {
        LoopBreaksOff(round, s, pos, buf);
        after, n := s, 0;
      } else {
        var next := round(s, pos, head).value;
        after, n := LoopCompletes(round, inv, lacks, next, pos + |head|, rest);
        LoopUnfolds(round, s, pos, buf, head, rest, next, after, n);
        n := |head| + n;
      }
    }
  }

  // ---- ownership with holes ----

  /** Pointer k of inode i holds block b. */
  predicate PointsAt(fs: FS, i: int, k: int, b: int) {
    i in fs.inodes && 0 <= k < BLOCK_PER_FILE && fs.inodes[i].ptrs[k] == b && b != 0
  }

  function Present(n: Inode): set<nat> {
    set k | 0 <= k < BLOCK_PER_FILE && n.ptrs[k] != 0
  }

  /** Every set pointer is a used data block of its own, and i_blocks counts the set pointers. */
  ghost predicate HoleInv(fs: FS) {
    && 0 < fs.lay.dataStart <= fs.lay.blockTotal == |fs.disk| <= 8 * BITMAP_BYTES
    && (forall i, k, b :: PointsAt(fs, i, k, b) ==> fs.lay.dataStart <= b < |fs.disk| && b in fs.used)
    && (forall i, k, j, l, b :: PointsAt(fs, i, k, b) && PointsAt(fs, j, l, b) ==> i == j && k == l)
    && (forall i :: i in fs.inodes
          ==> fs.inodes[i].size <= MAX_FILE_SIZE && fs.inodes[i].count == |Present(fs.inodes[i])|)
  }

  // ---- one round of the write ----

  /** naive_find_free_block: the first free block from the data region to the end of the device. */
  function FirstFreeBlock(fs: FS): Option<nat> {
    LeastFree(fs.used, fs.lay.dataStart, fs.lay.blockTotal)
  }

  function Given(fs: FS, i: nat, k: nat, b: nat): FS
    requires i in fs.inodes && k < BLOCK_PER_FILE
  {
    var n := fs.inodes[i];
    fs.(used := fs.used + {b}, inodes := fs.inodes[i := n.(ptrs := n.ptrs[k := b], count := n.count + 1)])
  }

  /** The state in which block k of file i is there and readable, if it can be had. bad holds the blocks sb_bread fails
      on. */
  function Provide(fs: FS, i: nat, k: nat, bad: set<nat>): Option<FS>
    requires i in fs.inodes && k < BLOCK_PER_FILE
  {
    if fs.inodes[i].ptrs[k] != 0 then
      if fs.inodes[i].ptrs[k] in bad then None else Some(fs)
    else
      match FirstFreeBlock(fs)
      case None => None
      case Some(b) => if b in bad then None else Some(Given(fs, i, k, b))
  }

  /** A chunk into a block that is there; the size follows. */
  function PutChunk(fs: FS, i: nat, pos: nat, bytes: seq<byte>): FS
    requires i in fs.inodes && pos / BLOCK_SIZE < BLOCK_PER_FILE && fs.inodes[i].ptrs[pos / BLOCK_SIZE] < |fs.disk|
    requires pos % BLOCK_SIZE + |bytes| <= BLOCK_SIZE
  {
    fs.(disk := CopyChunk(fs.disk, fs.inodes[i].ptrs, pos, bytes),
        inodes := fs.inodes[i := fs.inodes[i].(size := Max(pos + |bytes|, fs.inodes[i].size))])
  }

  predicate CanHold(fs: FS, i: nat, pos: nat, bytes: seq<byte>) {
    && i in fs.inodes && pos / BLOCK_SIZE < BLOCK_PER_FILE && pos % BLOCK_SIZE + |bytes| <= BLOCK_SIZE
    && fs.lay.blockTotal <= |fs.disk| && fs.inodes[i].ptrs[pos / BLOCK_SIZE] < |fs.disk|
  }

  /** One round of the loop of naive_file_write: a block is found or taken, read, and the chunk copied in; a block
      just taken that cannot be read is given back. */
  function WriteRound(i: nat, bad: set<nat>): Rounds<FS> {
    (fs: FS, pos: nat, bytes: seq<byte>) =>
      if !CanHold(fs, i, pos, bytes) then None else
      match Provide(fs, i, pos / BLOCK_SIZE, bad)
      case None => None
      case Some(fs1) => Some(PutChunk(fs1, i, pos, bytes))
  }

  /** The loop of naive_file_write: the state it leaves and the number of bytes it reports. */
  function WriteOn(fs: FS, i: nat, pos: nat, buf: seq<byte>, bad: set<nat>): (FS, nat) {
    Loop(WriteRound(i, bad), fs, pos, buf)
  }

  /** Wherever a write stops, be it for want of a block or because a block cannot be read, it leaves the bitmap, the
      pointers, the block count, the size and the device exactly as a write of just the reported bytes would, on a
      device without read errors: the rollback of a block just taken is exact. */
  lemma ShortWriteIsPrefixWrite(fs: FS, i: nat, pos: nat, buf: seq<byte>, bad: set<nat>)
    ensures var (after, n) := WriteOn(fs, i, pos, buf, bad);
      n <= |buf| && WriteOn(fs, i, pos, buf[..n], {}) == (after, n)
  {
    var _, _, _ := LoopPrefix(WriteRound(i, bad), WriteRound(i, {}), fs, pos, buf);
  }

  // ---- what a write does ----

  /** Byte off of file i is there, and is v. */
  predicate ByteIs(fs: FS, i: int, off: int, v: byte) {
    && i in fs.inodes && 0 <= off < MAX_FILE_SIZE
    && 0 < fs.inodes[i].ptrs[off / BLOCK_SIZE] < |fs.disk|
    && fs.disk[fs.inodes[i].ptrs[off / BLOCK_SIZE]][off % BLOCK_SIZE] == v
  }

  /** Byte t of the chunk that went to p is in the file, in a block that can be read. */
  predicate Landed(fs: FS, i: int, p: nat, chunk: seq<byte>, bad: set<nat>, t: int) {
    0 <= t < |chunk| ==> ByteIs(fs, i, p + t, chunk[t]) && fs.inodes[i].ptrs[(p + t) / BLOCK_SIZE] !in bad
  }

  /** Everything but file i: the same inodes, and the same bytes in their blocks. */
  ghost predicate OthersSame(fs: FS, after: FS, i: nat) {
    && after.lay == fs.lay && |after.disk| == |fs.disk| && after.iused == fs.iused
    && after.inodes.Keys == fs.inodes.Keys
    && (forall j :: j in fs.inodes && j != i ==> after.inodes[j] == fs.inodes[j])
    && (forall j, off, v :: j != i && ByteIs(fs, j, off, v) ==> ByteIs(after, j, off, v))
  }

  /** File i: the chunk is at p, every other byte that was there is as it was, and the size covers the chunk. */
  ghost predicate Spliced(fs: FS, after: FS, i: nat, p: nat, chunk: seq<byte>, bad: set<nat>) {
    && i in fs.inodes && i in after.inodes
    && (forall t :: Landed(after, i, p, chunk, bad, t))
    && (forall off, v :: ByteIs(fs, i, off, v) && !(p <= off < p + |chunk|) ==> ByteIs(after, i, off, v))
    && var n, m := fs.inodes[i], after.inodes[i];
       m == n.(ptrs := m.ptrs, count := m.count, size := if chunk == [] then n.size else Max(p + |chunk|, n.size))
  }

  function Held(n: Inode): set<nat> {
    set k | 0 <= k < BLOCK_PER_FILE && n.ptrs[k] != 0 :: n.ptrs[k]
  }

  /** The blocks taken are exactly the bits set: file i keeps what it had, and got only free blocks. */
  ghost predicate Took(fs: FS, after: FS, i: nat) {
    && i in fs.inodes && i in after.inodes && fs.used <= after.used
    && (forall k, b :: PointsAt(fs, i, k, b) ==> PointsAt(after, i, k, b))
    && (forall b :: b in after.used && b !in fs.used ==> b in Held(after.inodes[i]))
    && (forall b :: b in Held(after.inodes[i]) && b !in Held(fs.inodes[i]) ==> b !in fs.used)
  }

  /** What writing chunk to position p of file i means. */
  ghost predicate Wrote(fs: FS, after: FS, i: nat, p: nat, chunk: seq<byte>, bad: set<nat>) {
    OthersSame(fs, after, i) && Spliced(fs, after, i, p, chunk, bad) && Took(fs, after, i)
  }

  lemma HeldMore(fs: FS, after: FS, i: nat)
    requires Took(fs, after, i)
    ensures Held(fs.inodes[i]) <= Held(after.inodes[i])
  {
    forall b | b in Held(fs.inodes[i])
      ensures b in Held(after.inodes[i])
    {
      var k :| 0 <= k < BLOCK_PER_FILE && fs.inodes[i].ptrs[k] == b;
      assert PointsAt(fs, i, k, b);
    }
  }

  lemma TookTrans(a: FS, b: FS, c: FS, i: nat)
    requires Took(a, b, i) && Took(b, c, i)
    ensures Took(a, c, i)
  {
    HeldMore(a, b, i);
    HeldMore(b, c, i);
  }

  lemma SplicedTrans(a: FS, b: FS, c: FS, i: nat, p: nat, s: seq<byte>, t: seq<byte>, bad: set<nat>)
    requires Spliced(a, b, i, p, s, bad) && Spliced(b, c, i, p + |s|, t, bad) && Took(b, c, i)
    ensures Spliced(a, c, i, p, s + t, bad)
  {
    forall x
      ensures Landed(c, i, p, s + t, bad, x)
    {
      if x < |s| {
        assert Landed(b, i, p, s, bad, x);
        if 0 <= x {
          var k := (p + x) / BLOCK_SIZE;
          assert PointsAt(b, i, k, b.inodes[i].ptrs[k]);
        }
      } else {
        assert Landed(c, i, p + |s|, t, bad, x - |s|);
      }
    }
  }

  lemma WroteTrans(a: FS, b: FS, c: FS, i: nat, p: nat, s: seq<byte>, t: seq<byte>, bad: set<nat>)
    requires Wrote(a, b, i, p, s, bad) && Wrote(b, c, i, p + |s|, t, bad)
    ensures Wrote(a, c, i, p, s + t, bad)
  {
    TookTrans(a, b, c, i);
    SplicedTrans(a, b, c, i, p, s, t, bad);
  }

  /** There is room in the pointers for every chunk below the size limit. */
  lemma HasRoom(fs: FS, i: nat, pos: nat, bytes: seq<byte>)
    requires HoleInv(fs) && i in fs.inodes && pos < MAX_FILE_SIZE && pos % BLOCK_SIZE + |bytes| <= BLOCK_SIZE
    ensures CanHold(fs, i, pos, bytes)
  {
    var k := pos / BLOCK_SIZE;
    assert fs.inodes[i].ptrs[k] != 0 ==> PointsAt(fs, i, k, fs.inodes[i].ptrs[k]);
  }

  /** Taking a block for a hole of file i. */
  lemma GivenKeeps(fs: FS, i: nat, k: nat, b: nat)
    requires HoleInv(fs) && i in fs.inodes && k < BLOCK_PER_FILE && fs.inodes[i].ptrs[k] == 0
    requires FirstFreeBlock(fs) == Some(b)
    ensures HoleInv(Given(fs, i, k, b))
  {
    var after := Given(fs, i, k, b);
    assert forall j, l, x :: PointsAt(after, j, l, x) <==> PointsAt(fs, j, l, x) || (j == i && l == k && x == b);
    assert Present(after.inodes[i]) == Present(fs.inodes[i]) + {k};
  }

  lemma GivenWrites(fs: FS, i: nat, k: nat, b: nat, p: nat, bad: set<nat>)
    requires HoleInv(fs) && i in fs.inodes && k < BLOCK_PER_FILE && fs.inodes[i].ptrs[k] == 0
    requires FirstFreeBlock(fs) == Some(b)
    ensures Wrote(fs, Given(fs, i, k, b), i, p, [], bad)
  {
    var n, m := fs.inodes[i], Given(fs, i, k, b).inodes[i];
    assert m.ptrs[k] == b;
    forall x | x in Held(m)
      ensures x in Held(n) || x == b
    {
      var l :| 0 <= l < BLOCK_PER_FILE && m.ptrs[l] == x;
      assert x == if l == k then b else n.ptrs[l];
    }
  }

  /** Copying a chunk into a block file i holds. */
  lemma PutKeeps(fs: FS, i: nat, pos: nat, bytes: seq<byte>)
    requires HoleInv(fs) && CanHold(fs, i, pos, bytes)
    ensures HoleInv(PutChunk(fs, i, pos, bytes))
  {
    var after := PutChunk(fs, i, pos, bytes);
    assert forall j, l, x :: PointsAt(after, j, l, x) <==> PointsAt(fs, j, l, x);
    assert Present(after.inodes[i]) == Present(fs.inodes[i]);
  }

  /** The byte at offset off of any file after a chunk has been copied into file i. */
  lemma PutByte(fs: FS, i: nat, pos: nat, bytes: seq<byte>, j: int, off: int, v: byte)
    requires HoleInv(fs) && CanHold(fs, i, pos, bytes) && fs.inodes[i].ptrs[pos / BLOCK_SIZE] != 0
    requires ByteIs(fs, j, off, v)
    ensures ByteIs(PutChunk(fs, i, pos, bytes), j, off,
                   if j == i && pos <= off < pos + |bytes| then bytes[off - pos] else v)
  {
    var k, k0 := off / BLOCK_SIZE, pos / BLOCK_SIZE;
    var b, b0 := fs.inodes[j].ptrs[k], fs.inodes[i].ptrs[k0];
    assert PointsAt(fs, j, k, b) && PointsAt(fs, i, k0, b0);
    SpliceAt(fs.disk[b0], pos % BLOCK_SIZE, bytes, off % BLOCK_SIZE);
  }

  lemma PutWrites(fs: FS, i: nat, pos: nat, bytes: seq<byte>, bad: set<nat>)
    requires HoleInv(fs) && CanHold(fs, i, pos, bytes) && fs.inodes[i].ptrs[pos / BLOCK_SIZE] != 0 && bytes != []
    requires fs.inodes[i].ptrs[pos / BLOCK_SIZE] !in bad
    ensures Wrote(fs, PutChunk(fs, i, pos, bytes), i, pos, bytes, bad)
  {
    var after := PutChunk(fs, i, pos, bytes);
    forall j, off, v | ByteIs(fs, j, off, v)
      ensures ByteIs(after, j, off, if j == i && pos <= off < pos + |bytes| then bytes[off - pos] else v)
    {
      PutByte(fs, i, pos, bytes, j, off, v);
    }
    forall t
      ensures Landed(after, i, pos, bytes, bad, t)
    {
      if 0 <= t < |bytes| {
        var k := pos / BLOCK_SIZE;
        assert PointsAt(fs, i, k, fs.inodes[i].ptrs[k]);
        assert (pos + t) / BLOCK_SIZE == k;
        PutByte(fs, i, pos, bytes, i, pos + t, fs.disk[fs.inodes[i].ptrs[k]][(pos + t) % BLOCK_SIZE]);
      }
    }
  }

  /** Finding or taking the block of a round. */
  lemma ProvideWrites(fs: FS, i: nat, k: nat, p: nat, bad: set<nat>) returns (after: FS)
    requires HoleInv(fs) && i in fs.inodes && k < BLOCK_PER_FILE && Provide(fs, i, k, bad).Some?
    ensures Provide(fs, i, k, bad) == Some(after)
    ensures i in after.inodes && after.inodes[i].ptrs[k] != 0 && after.inodes[i].ptrs[k] !in bad
    ensures HoleInv(after) && Wrote(fs, after, i, p, [], bad)
  {
    after := fs;
    if fs.inodes[i].ptrs[k] == 0 {
      var b := FirstFreeBlock(fs).value;
      GivenKeeps(fs, i, k, b);
      GivenWrites(fs, i, k, b, p, bad);
      after := Given(fs, i, k, b);
    }
  }

  /** One round of the loop. */
  lemma RoundWrites(fs: FS, i: nat, pos: nat, bytes: seq<byte>, bad: set<nat>)
    requires HoleInv(fs) && bytes != [] && WriteRound(i, bad)(fs, pos, bytes).Some?
    ensures var after := WriteRound(i, bad)(fs, pos, bytes).value;
      HoleInv(after) && Wrote(fs, after, i, pos, bytes, bad)
  {
    var fs1 := ProvideWrites(fs, i, pos / BLOCK_SIZE, pos, bad);
    HasRoom(fs1, i, pos, bytes);
    PutKeeps(fs1, i, pos, bytes);
    PutWrites(fs1, i, pos, bytes, bad);
    assert [] + bytes == bytes;
    WroteTrans(fs, fs1, PutChunk(fs1, i, pos, bytes), i, pos, [], bytes, bad);
  }

  /** On-demand write: whatever number n it reports, the first n bytes of the buffer are in the file at pos, in blocks
      that can be read; every other byte that was there, in this file or another, is as before; the size is the larger
      of the old size and pos + n if n is not 0; the blocks taken are the bits set. */
  lemma WriteOnWrites(fs: FS, i: nat, pos: nat, buf: seq<byte>, bad: set<nat>) returns (after: FS, n: nat)
    requires HoleInv(fs) && i in fs.inodes
    ensures (after, n) == WriteOn(fs, i, pos, buf, bad) && n <= |buf|
    ensures HoleInv(after) && Wrote(fs, after, i, pos, buf[..n], bad)
  {
    var inv := (t: FS) => HoleInv(t) && i in t.inodes;
    var rel := (t: FS, u: FS, p: nat, chunk: seq<byte>) => Wrote(t, u, i, p, chunk, bad);
    forall t, p, chunk | inv(t) && chunk != [] && WriteRound(i, bad)(t, p, chunk).Some?
      ensures inv(WriteRound(i, bad)(t, p, chunk).value) && rel(t, WriteRound(i, bad)(t, p, chunk).value, p, chunk)
    {
      RoundWrites(t, i, p, chunk, bad);
    }
    forall t, u, v, p: nat, q: nat, x, y | rel(t, u, p, x) && rel(u, v, q, y) && q == p + |x|
      ensures rel(t, v, p, x + y)
    {
      WroteTrans(t, u, v, i, p, x, y, bad);
    }
    var less;
    after, n, less := LoopAdds(WriteRound(i, bad), inv, rel, fs, pos, buf);
  }

  // ---- bytes that become readable without being written ----

  /** Byte off of file i, if it is there, is what its block held before. */
  predicate FromBefore(fs: FS, after: FS, i: int, off: int) {
    i in after.inodes && 0 <= off < MAX_FILE_SIZE && 0 < after.inodes[i].ptrs[off / BLOCK_SIZE] < |after.disk| ==>
      var b := after.inodes[i].ptrs[off / BLOCK_SIZE];
      b < |fs.disk| && after.disk[b][off % BLOCK_SIZE] == fs.disk[b][off % BLOCK_SIZE]
  }

  /** Outside the chunk nothing is written: no byte of file i, and no block that is not its own. */
  ghost predicate WritesOnly(fs: FS, after: FS, i: nat, p: nat, chunk: seq<byte>) {
    && i in after.inodes && |after.disk| == |fs.disk|
    && (forall off :: !(p <= off < p + |chunk|) ==> FromBefore(fs, after, i, off))
    && forall b: nat :: b < |fs.disk| && b !in Held(after.inodes[i]) ==> after.disk[b] == fs.disk[b]
  }

  lemma WritesOnlyTrans(a: FS, b: FS, c: FS, i: nat, p: nat, s: seq<byte>, t: seq<byte>)
    requires WritesOnly(a, b, i, p, s) && WritesOnly(b, c, i, p + |s|, t) && Took(b, c, i) && HoleInv(c)
    ensures WritesOnly(a, c, i, p, s + t)
  {
    HeldMore(b, c, i);
    forall off | !(p <= off < p + |s + t|)
      ensures FromBefore(a, c, i, off)
    {
      assert FromBefore(b, c, i, off) && FromBefore(a, b, i, off);
      if 0 <= off < MAX_FILE_SIZE && c.inodes[i].ptrs[off / BLOCK_SIZE] != 0 {
        PointerOrigin(b, c, i, off / BLOCK_SIZE);
      }
    }
  }

  /** A pointer of file i was there before, or its block was not the file's. */
  lemma PointerOrigin(b: FS, c: FS, i: nat, k: nat)
    requires Took(b, c, i) && HoleInv(c) && k < BLOCK_PER_FILE && c.inodes[i].ptrs[k] != 0
    ensures c.inodes[i].ptrs[k] == b.inodes[i].ptrs[k] || c.inodes[i].ptrs[k] !in Held(b.inodes[i])
  {
    var x := c.inodes[i].ptrs[k];
    assert PointsAt(c, i, k, x);
    if x in Held(b.inodes[i]) {
      var l :| 0 <= l < BLOCK_PER_FILE && b.inodes[i].ptrs[l] != 0 && b.inodes[i].ptrs[l] == x;
      assert PointsAt(b, i, l, x) && PointsAt(c, i, l, x);
    }
  }

  lemma PutWritesOnly(fs: FS, i: nat, pos: nat, bytes: seq<byte>)
    requires HoleInv(fs) && CanHold(fs, i, pos, bytes) && fs.inodes[i].ptrs[pos / BLOCK_SIZE] != 0
    ensures WritesOnly(fs, PutChunk(fs, i, pos, bytes), i, pos, bytes)
  {
    var after, k := PutChunk(fs, i, pos, bytes), pos / BLOCK_SIZE;
    assert PointsAt(fs, i, k, fs.inodes[i].ptrs[k]);
    forall off | !(pos <= off < pos + |bytes|)
      ensures FromBefore(fs, after, i, off)
    {
      if 0 <= off < MAX_FILE_SIZE && 0 < fs.inodes[i].ptrs[off / BLOCK_SIZE] < |fs.disk| {
        PutByte(fs, i, pos, bytes, i, off, fs.disk[fs.inodes[i].ptrs[off / BLOCK_SIZE]][off % BLOCK_SIZE]);
      }
    }
    forall b: nat | b < |fs.disk| && b !in Held(after.inodes[i])
      ensures after.disk[b] == fs.disk[b]
    {
      assert fs.inodes[i].ptrs[k] in Held(after.inodes[i]);
    }
  }

  lemma SameDiskBefore(fs: FS, mid: FS, after: FS, i: nat, p: nat, chunk: seq<byte>)
    requires WritesOnly(mid, after, i, p, chunk) && mid.disk == fs.disk
    ensures WritesOnly(fs, after, i, p, chunk)
  {
    forall off | !(p <= off < p + |chunk|)
      ensures FromBefore(fs, after, i, off)
    {
      assert FromBefore(mid, after, i, off);
    }
  }

  lemma NothingWritten(fs: FS, i: nat, p: nat)
    requires HoleInv(fs) && i in fs.inodes
    ensures Took(fs, fs, i) && WritesOnly(fs, fs, i, p, [])
  {
  }

  lemma RoundWritesOnly(fs: FS, i: nat, pos: nat, bytes: seq<byte>, bad: set<nat>)
    requires HoleInv(fs) && bytes != [] && WriteRound(i, bad)(fs, pos, bytes).Some?
    ensures WritesOnly(fs, WriteRound(i, bad)(fs, pos, bytes).value, i, pos, bytes)
  {
    var fs1 := ProvideWrites(fs, i, pos / BLOCK_SIZE, pos, bad);
    HasRoom(fs1, i, pos, bytes);
    PutWritesOnly(fs1, i, pos, bytes);
    SameDiskBefore(fs, fs1, PutChunk(fs1, i, pos, bytes), i, pos, bytes);
  }

  /** The bytes a write makes readable without writing them are those their blocks held before, whoever put them
      there. */
  lemma WriteExposes(fs: FS, i: nat, pos: nat, buf: seq<byte>, bad: set<nat>) returns (after: FS, n: nat)
    requires HoleInv(fs) && i in fs.inodes
    ensures (after, n) == WriteOn(fs, i, pos, buf, bad) && n <= |buf| && WritesOnly(fs, after, i, pos, buf[..n])
  {
    var inv := (t: FS) => HoleInv(t) && i in t.inodes;
    var rel := (t: FS, u: FS, p: nat, chunk: seq<byte>) => HoleInv(u) && Took(t, u, i) && WritesOnly(t, u, i, p, chunk);
    forall t, p: nat | inv(t)
      ensures rel(t, t, p, [])
    {
      NothingWritten(t, i, p);
    }
    forall t, p, chunk | inv(t) && chunk != [] && WriteRound(i, bad)(t, p, chunk).Some?
      ensures inv(WriteRound(i, bad)(t, p, chunk).value) && rel(t, WriteRound(i, bad)(t, p, chunk).value, p, chunk)
    {
      RoundWrites(t, i, p, chunk, bad);
      RoundWritesOnly(t, i, p, chunk, bad);
    }
    forall t, u, v, p: nat, q: nat, x, y | rel(t, u, p, x) && rel(u, v, q, y) && q == p + |x|
      ensures rel(t, v, p, x + y)
    {
      TookTrans(t, u, v, i);
      WritesOnlyTrans(t, u, v, i, p, x, y);
    }
    var less;
    after, n, less := LoopAdds(WriteRound(i, bad), inv, rel, fs, pos, buf);
  }

  lemma KeptByWriteOn(fs: FS, i: nat, pos: nat, buf: seq<byte>, bad: set<nat>) returns (after: FS, n: nat)
    requires HoleInv(fs) && i in fs.inodes
    ensures (after, n) == WriteOn(fs, i, pos, buf, bad) && HoleInv(after) && i in after.inodes
  {
    after, n := WriteOnWrites(fs, i, pos, buf, bad);
  }

  /** The loop is at the boundary of a block, or has not begun. */
  predicate AtBoundary(pos: nat, n: nat) {
    n == 0 || (pos + n) % BLOCK_SIZE == 0
  }

  /** Block k of file i cannot be had: it is there and cannot be read; or it is a hole, and of the device's free blocks
      there is none, or the first cannot be read. */
  ghost predicate NoBlockAt(fs: FS, i: nat, k: nat, bad: set<nat>)
    requires i in fs.inodes && k < BLOCK_PER_FILE
  {
    var p := fs.inodes[i].ptrs[k];
    if p != 0 then p in bad
    else forall b: nat :: IsFirstClear(fs.used, fs.lay.dataStart, fs.lay.blockTotal, b) ==> b in bad
  }

  lemma NotProvided(fs: FS, i: nat, k: nat, bad: set<nat>)
    requires i in fs.inodes && k < BLOCK_PER_FILE && Provide(fs, i, k, bad).None?
    ensures NoBlockAt(fs, i, k, bad)
  {
    LeastFreeMeans(fs.used, fs.lay.dataStart, fs.lay.blockTotal);
    if fs.inodes[i].ptrs[k] == 0 {
      forall b: nat | IsFirstClear(fs.used, fs.lay.dataStart, fs.lay.blockTotal, b)
        ensures b in bad
      {
        LeastFreeIs(fs.used, fs.lay.dataStart, fs.lay.blockTotal, b);
      }
    }
  }

  /** A write stops early only at a block boundary, or before its first byte, where the next block can be neither
      read nor had. */
  lemma StopsWhereNoBlock(fs: FS, i: nat, pos: nat, buf: seq<byte>, bad: set<nat>) returns (after: FS, n: nat)
    requires HoleInv(fs) && i in fs.inodes && pos + |buf| <= MAX_FILE_SIZE
    ensures (after, n) == WriteOn(fs, i, pos, buf, bad)
    ensures n < |buf| ==>
      && AtBoundary(pos, n) && i in after.inodes && (pos + n) / BLOCK_SIZE < BLOCK_PER_FILE
      && Provide(after, i, (pos + n) / BLOCK_SIZE, bad).None? && NoBlockAt(after, i, (pos + n) / BLOCK_SIZE, bad)
  {
    var _, _, end, chunk := LoopStops(WriteRound(i, bad), fs, pos, buf);
    var _, _, _ := LoopStopsAtBlock(WriteRound(i, bad), fs, pos, buf);
    after, n := KeptByWriteOn(fs, i, pos, buf, bad);
    if n < |buf| {
      HasRoom(after, i, end, chunk);
      NotProvided(after, i, end / BLOCK_SIZE, bad);
    }
  }
}
