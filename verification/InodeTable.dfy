/** The on-disk inode table: naive_write_inode and the disk half of naive_iget. */
module InodeTable {
  import opened Bytes
  import opened Records
  import opened State
  import opened Ownership
  import opened Accounting

  // Word numbers of the fields of struct naive_inode.
  const MODE_WORD := 0
  const INO_WORD := 1
  const COUNT_WORD := 2
  const BLOCK_WORD := 3
  const SIZE_WORD := 11
  const UID_WORD := 12
  const GID_WORD := 13
  const NLINK_WORD := 14
  const WORDS := 15

  function GetWord(blk: Block, w: nat): nat
    requires w < WORDS
  {
    Word(blk, 4 * w)
  }

  function PutWord(blk: Block, w: nat, v: nat): Block
    requires w < WORDS
  {
    Splice(blk, 4 * w, WordBytes(v))
  }

  lemma GetPutWord(blk: Block, w: nat, v: nat, u: nat)
    requires w < WORDS && u < WORDS
    ensures GetWord(PutWord(blk, w, v), u) == if u == w then v % WORD else GetWord(blk, u)
  {
    if u == w {
      WordRoundTrip(blk, 4 * w, v);
    } else {
      assert forall o :: 4 * u <= o < 4 * u + 4 ==> PutWord(blk, w, v)[o] == blk[o];
    }
  }

  // ---- storing field after field ----

  datatype Field = Field(word: nat, value: nat)

  predicate InTable(fields: seq<Field>) {
    forall f :: 0 <= f < |fields| ==> fields[f].word < WORDS
  }

  function PutFields(blk: Block, fields: seq<Field>): Block
    requires InTable(fields)
    decreases |fields|
  {
    if fields == [] then blk else
    PutFields(PutWord(blk, fields[0].word, fields[0].value), fields[1..])
  }

  lemma {:induction false} PutFieldsAppend(blk: Block, a: seq<Field>, b: seq<Field>)
    requires InTable(a) && InTable(b)
    ensures InTable(a + b) && PutFields(blk, a + b) == PutFields(PutFields(blk, a), b)
    decreases |a|
  {
    if a == [] {
      assert a + b == b;
    } else {
      assert (a + b)[0] == a[0] && (a + b)[1..] == a[1..] + b;
      PutFieldsAppend(PutWord(blk, a[0].word, a[0].value), a[1..], b);
    }
  }

  /** A word that no later field shares keeps the value stored last. */
  lemma {:induction false} PutFieldsSkip(blk: Block, fields: seq<Field>, u: nat)
    requires InTable(fields) && u < WORDS && forall f :: 0 <= f < |fields| ==> fields[f].word != u
    ensures GetWord(PutFields(blk, fields), u) == GetWord(blk, u)
    decreases |fields|
  {
    if fields != [] {
      GetPutWord(blk, fields[0].word, fields[0].value, u);
      PutFieldsSkip(PutWord(blk, fields[0].word, fields[0].value), fields[1..], u);
    }
  }

  lemma {:induction false} PutFieldsGet(blk: Block, fields: seq<Field>, f: nat)
    requires InTable(fields) && f < |fields|
    requires forall g :: f < g < |fields| ==> fields[g].word != fields[f].word
    ensures GetWord(PutFields(blk, fields), fields[f].word) == fields[f].value % WORD
    decreases |fields|
  {
    var mid := PutWord(blk, fields[0].word, fields[0].value);
    if f == 0 {
      GetPutWord(blk, fields[0].word, fields[0].value, fields[0].word);
      PutFieldsSkip(mid, fields[1..], fields[0].word);
    } else {
      PutFieldsGet(mid, fields[1..], f - 1);
    }
  }

  /** A directory's record count and a file's size share one word. */
  function SizeWord(n: Inode): nat {
    if IsDir(n.mode) then n.size / DIR_RECORD_SIZE else n.size
  }

  function PtrField(n: Inode, k: nat): Field
    requires k < BLOCK_PER_FILE
  {
    Field(BLOCK_WORD + k, n.ptrs[k])
  }

  function HeadFields(ino: nat, n: Inode): seq<Field> {
    [Field(MODE_WORD, n.mode), Field(INO_WORD, ino), Field(COUNT_WORD, n.count)]
  }

  function PtrFields(n: Inode): seq<Field>
    requires n.count <= BLOCK_PER_FILE
  {
    seq(n.count, k requires 0 <= k < n.count => PtrField(n, k))
  }

  function TailFields(n: Inode): seq<Field> {
    [Field(SIZE_WORD, SizeWord(n)), Field(UID_WORD, n.uid), Field(GID_WORD, n.gid), Field(NLINK_WORD, n.nlink)]
  }

  /** The stores of naive_write_inode, in order: the pointers up to the count only. */
  function Fields(ino: nat, n: Inode): (fields: seq<Field>)
    requires n.count <= BLOCK_PER_FILE
    ensures InTable(fields)
  {
    HeadFields(ino, n) + PtrFields(n) + TailFields(n)
  }

  /** The table block of inode ino after naive_write_inode. */
  function Encode(blk: Block, ino: nat, n: Inode): Block
    requires n.count <= BLOCK_PER_FILE
  {
    PutFields(blk, Fields(ino, n))
  }

  /** le32_to_cpu into an int: a word of 2^31 or more is negative. */
  function AsInt(w: nat): int {
    if w < WORD / 2 then w else w - WORD
  }

  function LoadPtr(blk: Block, k: nat): nat
    requires k < BLOCK_PER_FILE
  {
    if k < AsInt(GetWord(blk, COUNT_WORD)) then GetWord(blk, BLOCK_WORD + k) else 0
  }

  /** The in-memory inode naive_iget fills from a table block; pointers past the count stay zero. A negative count is
      kept as its 32 bits, and with it no pointer is loaded. */
  function Decode(blk: Block): Inode {
    Inode(GetWord(blk, MODE_WORD), GetWord(blk, UID_WORD), GetWord(blk, GID_WORD), GetWord(blk, NLINK_WORD),
          GetWord(blk, SIZE_WORD), GetWord(blk, COUNT_WORD),
          seq(BLOCK_PER_FILE, k requires 0 <= k < BLOCK_PER_FILE => LoadPtr(blk, k)))
  }

  /** Every field fits the 32 bits it is stored in. */
  predicate Fits(n: Inode) {
    && n.mode < WORD && n.uid < WORD && n.gid < WORD && n.nlink < WORD && n.size < WORD
    && n.count <= BLOCK_PER_FILE && forall k :: 0 <= k < BLOCK_PER_FILE ==> n.ptrs[k] < WORD
  }

  predicate NoStrayPtrs(n: Inode) {
    forall k :: 0 <= k < BLOCK_PER_FILE && n.count <= k ==> n.ptrs[k] == 0
  }

  /** The size word s is the number of whole records a directory's size is worth, or a file's size. */
  predicate SizeStored(n: Inode, s: nat) {
    if IsDir(n.mode) then 132 * s <= n.size < 132 * (s + 1) else s == n.size
  }

  /** Writing an inode and reading it back gives every field but a directory's size, which comes back divided by 132.
      So the round trip is exact for exactly the inodes without stray pointers that are files or of size zero. */
  lemma InodeRoundTrip(blk: Block, ino: nat, n: Inode)
    requires Fits(n)
    ensures var m := Decode(Encode(blk, ino, n));
      && (NoStrayPtrs(n) ==> m == n.(size := SizeWord(n))) && SizeStored(n, m.size)
      && (m == n <==> NoStrayPtrs(n) && (!IsDir(n.mode) || n.size == 0))
  {
    var m := Decode(Encode(blk, ino, n));
    DecodedFields(blk, ino, n);
    if NoStrayPtrs(n) {
      assert m.ptrs == n.ptrs;
    } else {
      var k :| 0 <= k < BLOCK_PER_FILE && n.count <= k && n.ptrs[k] != 0;
      assert m.ptrs[k] != n.ptrs[k];
    }
  }

  lemma DecodedFields(blk: Block, ino: nat, n: Inode)
    requires Fits(n)
    ensures var m := Decode(Encode(blk, ino, n));
      && m == Inode(n.mode, n.uid, n.gid, n.nlink, SizeWord(n), n.count, m.ptrs)
      && forall k :: 0 <= k < BLOCK_PER_FILE ==> m.ptrs[k] == if k < n.count then n.ptrs[k] else 0
  {
    var c, t := n.count, TailFields(n);
    FieldsApart(ino, n);
    EncodedField(blk, ino, n, 0, Field(MODE_WORD, n.mode));
    EncodedField(blk, ino, n, 2, Field(COUNT_WORD, c));
    EncodedField(blk, ino, n, c + 3, t[0]);
    EncodedField(blk, ino, n, c + 4, t[1]);
    EncodedField(blk, ino, n, c + 5, t[2]);
    EncodedField(blk, ino, n, c + 6, t[3]);
    forall k | 0 <= k < BLOCK_PER_FILE
      ensures LoadPtr(Encode(blk, ino, n), k) == if k < n.count then n.ptrs[k] else 0
    {
      if k < n.count {
        EncodedField(blk, ino, n, 3 + k, PtrField(n, k));
      }
    }
  }

  lemma EncodedField(blk: Block, ino: nat, n: Inode, f: nat, field: Field)
    requires Fits(n) && f < |Fields(ino, n)| && Fields(ino, n)[f] == field && field.value < WORD
    ensures field.word < WORDS && GetWord(Encode(blk, ino, n), field.word) == field.value
  {
    FieldsApart(ino, n);
    PutFieldsGet(blk, Fields(ino, n), f);
  }

  lemma FieldsApart(ino: nat, n: Inode)
    requires n.count <= BLOCK_PER_FILE
    ensures var fields, c := Fields(ino, n), n.count;
      && |fields| == c + 7
      && fields[0] == Field(MODE_WORD, n.mode) && fields[2] == Field(COUNT_WORD, c) && fields[..3] == HeadFields(ino, n)
      && (forall k :: 0 <= k < c ==> fields[3 + k] == PtrField(n, k))
      && fields[c + 3..] == TailFields(n)
      && fields[c + 3] == TailFields(n)[0] && fields[c + 4] == TailFields(n)[1]
      && fields[c + 5] == TailFields(n)[2] && fields[c + 6] == TailFields(n)[3]
      && (forall f, g :: 0 <= f < g < |fields| ==> fields[f].word < fields[g].word)
  {
    var fields, c := Fields(ino, n), n.count;
    assert forall k :: 0 <= k < c ==> fields[3 + k] == PtrFields(n)[k];
    forall f | 0 <= f < |fields|
      ensures fields[f].word == if f < 3 + c then f else f - c + 8
    {
      FieldWord(ino, n, f);
    }
  }

  lemma FieldWord(ino: nat, n: Inode, f: nat)
    requires n.count <= BLOCK_PER_FILE && f < |Fields(ino, n)|
    ensures Fields(ino, n)[f].word == if f < 3 + n.count then f else f - n.count + 8
  {
    if 3 <= f < 3 + n.count {
      assert Fields(ino, n)[f] == PtrFields(n)[f - 3];
    }
  }

  // ---- the layout of struct naive_inode ----

  /** blk is an image of inode number ino, over the bytes that were there before. */
  predicate IsImage(blk: Block, before: Block, ino: nat, n: Inode) {
    && Word(blk, 0) == n.mode && Word(blk, 4) == ino && Word(blk, 8) == n.count
    && (forall k :: 0 <= k < 8 ==> Word(blk, 12 + 4 * k) == if k < n.count then n.ptrs[k] else Word(before, 12 + 4 * k))
    && SizeStored(n, Word(blk, 44)) && Word(blk, 48) == n.uid && Word(blk, 52) == n.gid && Word(blk, 56) == n.nlink
    && forall o :: 60 <= o < 512 ==> blk[o] == before[o]
  }

  /** What naive_iget makes of a table block, field by field. */
  lemma DecodeReads(blk: Block)
    ensures var n := Decode(blk);
      && n.mode == Word(blk, 0) && n.count == Word(blk, 8) && n.size == Word(blk, 44)
      && n.uid == Word(blk, 48) && n.gid == Word(blk, 52) && n.nlink == Word(blk, 56)
      && forall k :: 0 <= k < 8 ==>
           n.ptrs[k] == if k < n.count && n.count < 0x8000_0000 then Word(blk, 12 + 4 * k) else 0
  {
  }

  lemma PtrSkipped(blk: Block, ino: nat, n: Inode, k: nat)
    requires n.count <= k < BLOCK_PER_FILE
    ensures GetWord(Encode(blk, ino, n), BLOCK_WORD + k) == GetWord(blk, BLOCK_WORD + k)
  {
    forall f | 0 <= f < |Fields(ino, n)|
      ensures Fields(ino, n)[f].word != BLOCK_WORD + k
    {
      FieldWord(ino, n, f);
    }
    PutFieldsSkip(blk, Fields(ino, n), BLOCK_WORD + k);
  }

  lemma {:induction false} PutFieldsLeave(blk: Block, fields: seq<Field>)
    requires InTable(fields)
    ensures forall o :: 4 * WORDS <= o < BLOCK_SIZE ==> PutFields(blk, fields)[o] == blk[o]
    decreases |fields|
  {
    if fields != [] {
      PutFieldsLeave(PutWord(blk, fields[0].word, fields[0].value), fields[1..]);
    }
  }

  lemma ImageWords(blk: Block, ino: nat, n: Inode) returns (e: Block)
    requires Fits(n) && ino < WORD
    ensures e == Encode(blk, ino, n) && Word(e, 0) == n.mode && Word(e, 4) == ino && Word(e, 8) == n.count
    ensures Word(e, 44) == SizeWord(n) && Word(e, 48) == n.uid && Word(e, 52) == n.gid && Word(e, 56) == n.nlink
    ensures forall k :: 0 <= k < n.count ==> Word(e, 12 + 4 * k) == n.ptrs[k]
  {
    e := Encode(blk, ino, n);
    DecodedFields(blk, ino, n);
    DecodeReads(e);
    FieldsApart(ino, n);
    EncodedField(blk, ino, n, 1, Field(INO_WORD, ino));
    forall k | 0 <= k < n.count
      ensures Word(e, 12 + 4 * k) == n.ptrs[k]
    {
      assert Decode(e).ptrs[k] == n.ptrs[k];
    }
  }

  /** Where naive_write_inode puts what: every field in its four bytes, unused pointers and everything from byte 60 on
      as they were. */
  lemma EncodeIsImage(blk: Block, ino: nat, n: Inode)
    requires Fits(n) && ino < WORD
    ensures IsImage(Encode(blk, ino, n), blk, ino, n)
  {
    var e := ImageWords(blk, ino, n);
    forall k | n.count <= k < BLOCK_PER_FILE
      ensures Word(e, 12 + 4 * k) == Word(blk, 12 + 4 * k)
    {
      PtrSkipped(blk, ino, n, k);
    }
    PutFieldsLeave(blk, Fields(ino, n));
  }

  // ---- the table on the device ----

  function TableBlock(lay: Layout, i: nat): int {
    lay.tableStart + i - 1
  }

  /** naive_write_inode. */
  function WriteInode(fs: FS, i: nat): FS
    requires i in fs.inodes && fs.inodes[i].count <= BLOCK_PER_FILE
    requires 0 <= TableBlock(fs.lay, i) < |fs.disk|
  {
    var t := TableBlock(fs.lay, i);
    fs.(disk := fs.disk[t := Encode(fs.disk[t], i, fs.inodes[i])])
  }

  /** What naive_iget reads for inode number i. */
  function Load(fs: FS, i: nat): Inode
    requires 0 <= TableBlock(fs.lay, i) < |fs.disk|
  {
    Decode(fs.disk[TableBlock(fs.lay, i)])
  }

  lemma TableBelowData(fs: FS, i: nat)
    requires LayoutOk(fs.lay) && |fs.disk| == fs.lay.blockTotal && 1 <= i <= fs.lay.inodeTotal
    ensures 0 < TableBlock(fs.lay, i) < fs.lay.dataStart <= |fs.disk|
  {
  }

  /** Inode i has block tableStart + i - 1 to itself: there it is written, and from there it is read. */
  lemma WriteInodeImage(fs: FS, i: nat) returns (t: nat, after: FS)
    requires OwnInv(fs) && i in fs.inodes && Fits(fs.inodes[i])
    ensures t == fs.lay.tableStart + i - 1 < fs.lay.dataStart <= |fs.disk|
    ensures after == WriteInode(fs, i) && after == fs.(disk := fs.disk[t := after.disk[t]])
    ensures IsImage(after.disk[t], fs.disk[t], i, fs.inodes[i]) && Load(after, i) == Decode(after.disk[t])
  {
    t := fs.lay.tableStart + i - 1;
    after := WriteInode(fs, i);
    EncodeIsImage(fs.disk[t], i, fs.inodes[i]);
  }

  /** Writing an inode leaves every block that any inode owns, and what iget reads for every other inode, alone;
      and iget reads back what was written. */
  lemma WriteInodeKeeps(fs: FS, i: nat, extra: set<nat>, lost: set<nat>)
    requires Inv(fs, extra, lost) && i in fs.inodes
    ensures 0 <= TableBlock(fs.lay, i) < |fs.disk|
    ensures var after := WriteInode(fs, i);
      && Inv(after, extra, lost) && Frame(fs, after, {})
      && (forall b :: 0 <= b < |fs.disk| && b != TableBlock(fs.lay, i) ==> after.disk[b] == fs.disk[b])
      && (Fits(fs.inodes[i]) ==> Load(after, i) == fs.inodes[i].(size := SizeWord(fs.inodes[i])))
      && (forall j :: 1 <= j <= fs.lay.inodeTotal && j != i ==> Load(after, j) == Load(fs, j))
  {
    TableBelowData(fs, i);
    var t := TableBlock(fs.lay, i);
    PutBlock(fs, t, Encode(fs.disk[t], i, fs.inodes[i]), {});
    SameAccount(fs, WriteInode(fs, i), extra, lost);
    if Fits(fs.inodes[i]) {
      InodeRoundTrip(fs.disk[t], i, fs.inodes[i]);
    }
  }
}
