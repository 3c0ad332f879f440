/** File contents: the byte-by-byte meaning of reading, and of copying a buffer into a file's blocks. */
module FileData {
  import opened Bytes
  import opened State
  import opened Steps

  /** The byte at offset off of inode n can be read: inside the file, in a block that is there and that sb_bread
      returns. */
  predicate Readable(disk: seq<Block>, n: Inode, off: nat, bad: set<nat>) {
    && off < n.size && off / BLOCK_SIZE < BLOCK_PER_FILE
    && n.ptrs[off / BLOCK_SIZE] != 0 && n.ptrs[off / BLOCK_SIZE] !in bad && n.ptrs[off / BLOCK_SIZE] < |disk|
  }

  function ByteAt(disk: seq<Block>, n: Inode, off: nat): byte
    requires off / BLOCK_SIZE < BLOCK_PER_FILE && n.ptrs[off / BLOCK_SIZE] < |disk|
  {
    disk[n.ptrs[off / BLOCK_SIZE]][off % BLOCK_SIZE]
  }

  /** Reading, one byte at a time: up to len bytes from pos, stopping at the first one that cannot be read. */
  function ReadBytes(disk: seq<Block>, n: Inode, pos: nat, len: nat, bad: set<nat>): seq<byte>
    decreases len
  {
    if len == 0 || !Readable(disk, n, pos, bad) then [] else
    [ByteAt(disk, n, pos)] + ReadBytes(disk, n, pos + 1, len - 1, bad)
  }

  /** The t-th byte of r is the byte at pos + t, which can be read. */
  predicate Got(disk: seq<Block>, n: Inode, pos: nat, bad: set<nat>, r: seq<byte>, t: int) {
    0 <= t < |r| ==> Readable(disk, n, pos + t, bad) && r[t] == ByteAt(disk, n, pos + t)
  }

  /** r holds the bytes from pos on, and stops early only in front of a byte that cannot be read. */
  ghost predicate IsRead(disk: seq<Block>, n: Inode, pos: nat, len: nat, bad: set<nat>, r: seq<byte>) {
    && |r| <= len && (|r| < len ==> !Readable(disk, n, pos + |r|, bad))
    && forall t :: Got(disk, n, pos, bad, r, t)
  }

  lemma {:induction false} ReadBytesIsRead(disk: seq<Block>, n: Inode, pos: nat, len: nat, bad: set<nat>)
    ensures IsRead(disk, n, pos, len, bad, ReadBytes(disk, n, pos, len, bad))
    decreases len
  {
    var r := ReadBytes(disk, n, pos, len, bad);
    if r != [] {
      var q := ReadBytes(disk, n, pos + 1, len - 1, bad);
      ReadBytesIsRead(disk, n, pos + 1, len - 1, bad);
      forall t
        ensures Got(disk, n, pos, bad, r, t)
      {
        if 0 < t < |r| {
          assert Got(disk, n, pos + 1, bad, q, t - 1);
        }
      }
    }
  }

  /** There is one such sequence only, so any way of collecting it is reading byte by byte. */
  lemma ReadIsUnique(disk: seq<Block>, n: Inode, pos: nat, len: nat, bad: set<nat>, r: seq<byte>)
    requires IsRead(disk, n, pos, len, bad, r)
    ensures r == ReadBytes(disk, n, pos, len, bad)
  {
    var s := ReadBytes(disk, n, pos, len, bad);
    ReadBytesIsRead(disk, n, pos, len, bad);
    assert Got(disk, n, pos, bad, r, |s|) && Got(disk, n, pos, bad, s, |r|);
    assert |r| == |s|;
    forall t | 0 <= t < |r|
      ensures r[t] == s[t]
    {
      assert Got(disk, n, pos, bad, r, t) && Got(disk, n, pos, bad, s, t);
    }
  }

  // ---- copying in ----

  /** Block k of the file holds part of the range [pos, pos + len). */
  predicate Touches(pos: nat, len: nat, k: int) {
    0 <= k < BLOCK_PER_FILE && pos / BLOCK_SIZE <= k && BLOCK_SIZE * k < pos + len
  }

  ghost predicate DistinctIn(ptrs: Ptrs, pos: nat, len: nat) {
    forall k, l :: Touches(pos, len, k) && Touches(pos, len, l) && ptrs[k] == ptrs[l] ==> k == l
  }

  /** Byte o of block k after buf has gone to file position pos. */
  function Written(disk: seq<Block>, ptrs: Ptrs, pos: nat, buf: seq<byte>, k: nat, o: nat): byte
    requires k < BLOCK_PER_FILE && ptrs[k] < |disk| && o < BLOCK_SIZE
  {
    var off := BLOCK_SIZE * k + o;
    if pos <= off < pos + |buf| then buf[off - pos] else disk[ptrs[k]][o]
  }

  /** The first chunk, and where the rest goes. */
  lemma FirstChunk(pos: nat, len: nat, k: int)
    requires 0 < len && pos + len <= MAX_FILE_SIZE
    ensures var k0, c := pos / BLOCK_SIZE, Chunk(pos, len);
      && Touches(pos, len, k0) && pos + c <= BLOCK_SIZE * (k0 + 1)
      && (c < len ==> pos + c == BLOCK_SIZE * (k0 + 1))
      && (c < len ==> (Touches(pos + c, len - c, k) <==> Touches(pos, len, k) && k != k0))
      && (c == len ==> (Touches(pos, len, k) <==> k == k0))
  {
  }

  /** A block that holds no part of the range keeps its bytes. */
  lemma {:induction false} CopyInSkips(disk: seq<Block>, ptrs: Ptrs, pos: nat, buf: seq<byte>, b: nat)
    requires Covers(disk, ptrs, pos, |buf|) && b < |disk|
    requires forall k :: Touches(pos, |buf|, k) ==> ptrs[k] != b
    ensures CopyIn(disk, ptrs, pos, buf)[b] == disk[b]
    decreases |buf|
  {
    if buf != [] {
      var k0, c := pos / BLOCK_SIZE, Chunk(pos, |buf|);
      FirstChunk(pos, |buf|, k0);
      var mid := CopyChunk(disk, ptrs, pos, buf[..c]);
      if c < |buf| {
        forall k | Touches(pos + c, |buf| - c, k)
          ensures ptrs[k] != b
        {
          FirstChunk(pos, |buf|, k);
        }
        CopyInSkips(mid, ptrs, pos + c, buf[c..], b);
      } else {
        assert buf[c..] == [];
      }
    }
  }

  /** The copy loop after its first chunk. */
  lemma CopyInUnfolds(disk: seq<Block>, ptrs: Ptrs, pos: nat, buf: seq<byte>)
    returns (mid: seq<Block>, rest: seq<byte>, c: nat)
    requires buf != [] && Covers(disk, ptrs, pos, |buf|)
    ensures c == Chunk(pos, |buf|) && c + |rest| == |buf| && rest == buf[c..]
    ensures mid == CopyChunk(disk, ptrs, pos, buf[..c]) && |mid| == |disk|
    ensures Covers(mid, ptrs, pos + c, |rest|) && CopyIn(disk, ptrs, pos, buf) == CopyIn(mid, ptrs, pos + c, rest)
    ensures rest == [] ==> CopyIn(disk, ptrs, pos, buf) == mid
  {
    c := Chunk(pos, |buf|);
    mid, rest := CopyChunk(disk, ptrs, pos, buf[..c]), buf[c..];
  }

  /** The first chunk puts its bytes into its block. */
  lemma FirstChunkPut(disk: seq<Block>, ptrs: Ptrs, pos: nat, buf: seq<byte>, mid: seq<Block>, c: nat, o: nat)
    requires buf != [] && Covers(disk, ptrs, pos, |buf|) && o < BLOCK_SIZE
    requires c == Chunk(pos, |buf|) && mid == CopyChunk(disk, ptrs, pos, buf[..c])
    ensures var k0 := pos / BLOCK_SIZE; mid[ptrs[k0]][o] == Written(disk, ptrs, pos, buf, k0, o)
  {
    var k0 := pos / BLOCK_SIZE;
    SpliceAt(disk[ptrs[k0]], pos % BLOCK_SIZE, buf[..c], o);
  }

  /** And leaves every other block of the range to the rest. */
  lemma FirstChunkLeaves(disk: seq<Block>, ptrs: Ptrs, pos: nat, buf: seq<byte>, mid: seq<Block>, rest: seq<byte>,
      c: nat, k: nat, o: nat)
    requires buf != [] && Covers(disk, ptrs, pos, |buf|) && DistinctIn(ptrs, pos, |buf|) && o < BLOCK_SIZE
    requires c == Chunk(pos, |buf|) && mid == CopyChunk(disk, ptrs, pos, buf[..c]) && rest == buf[c..]
    requires Touches(pos, |buf|, k) && k != pos / BLOCK_SIZE
    ensures Touches(pos + c, |rest|, k) && mid[ptrs[k]] == disk[ptrs[k]]
    ensures Written(mid, ptrs, pos + c, rest, k, o) == Written(disk, ptrs, pos, buf, k, o)
  {
    FirstChunk(pos, |buf|, k);
  }

  lemma RestTouches(ptrs: Ptrs, pos: nat, len: nat, c: nat, rest: nat)
    requires pos + len <= MAX_FILE_SIZE && DistinctIn(ptrs, pos, len) && c == Chunk(pos, len) && c + rest == len
    requires rest > 0
    ensures DistinctIn(ptrs, pos + c, rest)
    ensures forall l :: Touches(pos + c, rest, l) ==> Touches(pos, len, l) && ptrs[l] != ptrs[pos / BLOCK_SIZE]
  {
    forall l | Touches(pos + c, rest, l)
      ensures Touches(pos, len, l) && l != pos / BLOCK_SIZE && ptrs[l] != ptrs[pos / BLOCK_SIZE]
    {
      FirstChunk(pos, len, l);
    }
  }

  /** The first round, as far as byte o of block k is concerned, and what it leaves to the rest of the loop. */
  lemma FirstRound(disk: seq<Block>, ptrs: Ptrs, pos: nat, buf: seq<byte>, k: nat, o: nat)
    returns (mid: seq<Block>, rest: seq<byte>, next: nat)
    requires buf != [] && Covers(disk, ptrs, pos, |buf|) && DistinctIn(ptrs, pos, |buf|)
    requires Touches(pos, |buf|, k) && o < BLOCK_SIZE
    ensures |rest| < |buf| && |mid| == |disk| && Covers(mid, ptrs, next, |rest|)
    ensures CopyIn(disk, ptrs, pos, buf) == if rest == [] then mid else CopyIn(mid, ptrs, next, rest)
    ensures rest != [] ==> DistinctIn(ptrs, next, |rest|)
    ensures rest != [] ==> forall l :: Touches(next, |rest|, l) ==> ptrs[l] != ptrs[pos / BLOCK_SIZE]
    ensures k == pos / BLOCK_SIZE ==> mid[ptrs[k]][o] == Written(disk, ptrs, pos, buf, k, o)
    ensures k != pos / BLOCK_SIZE ==>
      rest != [] && Touches(next, |rest|, k)
        && Written(mid, ptrs, next, rest, k, o) == Written(disk, ptrs, pos, buf, k, o)
  {
    var c;
    mid, rest, c := CopyInUnfolds(disk, ptrs, pos, buf);
    next := pos + c;
    FirstChunk(pos, |buf|, k);
    FirstChunkPut(disk, ptrs, pos, buf, mid, c, o);
    if rest != [] {
      RestTouches(ptrs, pos, |buf|, c, |rest|);
    }
    if k != pos / BLOCK_SIZE {
      FirstChunkLeaves(disk, ptrs, pos, buf, mid, rest, c, k, o);
    }
  }

  /** In a block that holds part of the range, exactly the bytes of the range are the buffer's. */
  lemma {:induction false} CopyInPuts(disk: seq<Block>, ptrs: Ptrs, pos: nat, buf: seq<byte>, k: nat, o: nat)
    requires Covers(disk, ptrs, pos, |buf|) && DistinctIn(ptrs, pos, |buf|)
    requires Touches(pos, |buf|, k) && o < BLOCK_SIZE
    ensures CopyIn(disk, ptrs, pos, buf)[ptrs[k]][o] == Written(disk, ptrs, pos, buf, k, o)
    decreases |buf|
  {
    if buf != [] {
      var mid, rest, next := FirstRound(disk, ptrs, pos, buf, k, o);
      if k != pos / BLOCK_SIZE {
        CopyInPuts(mid, ptrs, next, rest, k, o);
      } else if rest != [] {
        CopyInSkips(mid, ptrs, next, rest, ptrs[k]);
      }
    }
  }
}
