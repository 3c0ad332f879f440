/** Directory records: three 132-byte records to a block, each a little-endian inode number and a 128-byte name. */
module Records {
  import opened Bytes

  const MAX_FILENAME_LEN := 128
  const DIR_RECORD_SIZE := 132
  const DIR_RECORDS_PER_BLOCK := 3

  type Raw = s: seq<byte> | |s| == MAX_FILENAME_LEN witness seq(128, _ => 0)

  datatype Rec = Rec(ino: nat, raw: Raw)

  const DOT: Name := [46]
  const DOTDOT: Name := [46, 46]

  /** strncpy(dst, name, 128): the first 128 characters, padded with NULs. */
  function Strncpy(name: Name): Raw {
    seq(MAX_FILENAME_LEN, k requires 0 <= k => CharAt(name, k))
  }

  /** The name field after strncpy and the forced terminator in its last byte. */
  function Padded(name: Name): Raw {
    Strncpy(name)[MAX_FILENAME_LEN - 1 := 0]
  }

  /** The characters of a name that survive in a record. */
  function Stored(name: Name): Name {
    if |name| < MAX_FILENAME_LEN then name else name[..MAX_FILENAME_LEN - 1]
  }

  function ZeroRec(): Rec {
    Rec(0, seq(MAX_FILENAME_LEN, _ => 0))
  }

  function NameOf(rec: Rec): Name {
    CString(rec.raw)
  }

  /** strncmp(record->filename, name, 128) == 0 */
  predicate Matches(rec: Rec, name: Name) {
    StrncmpEq(rec.raw, name, 0)
  }

  predicate IsDot(rec: Rec) {
    Matches(rec, DOT) || Matches(rec, DOTDOT)
  }

  predicate Terminated(rec: Rec) {
    |NameOf(rec)| < MAX_FILENAME_LEN
  }

  // ---- records inside a block ----

  function GetRec(blk: Block, j: nat): Rec
    requires j < DIR_RECORDS_PER_BLOCK
  {
    var at := j * DIR_RECORD_SIZE;
    Rec(Word(blk, at), blk[at + 4..at + DIR_RECORD_SIZE])
  }

  function PutRec(blk: Block, j: nat, rec: Rec): Block
    requires j < DIR_RECORDS_PER_BLOCK
  {
    Splice(blk, j * DIR_RECORD_SIZE, WordBytes(rec.ino) + rec.raw)
  }

  /** Storing record j: the number goes into its first four bytes, the name behind it, and no byte outside it
      changes. */
  lemma PutRecBytes(blk: Block, j: nat, rec: Rec)
    requires j < DIR_RECORDS_PER_BLOCK && rec.ino < WORD
    ensures Word(PutRec(blk, j, rec), 132 * j) == rec.ino && PutRec(blk, j, rec)[132 * j + 4..132 * j + 132] == rec.raw
    ensures forall o :: 0 <= o < BLOCK_SIZE && !(132 * j <= o < 132 * j + 132) ==> PutRec(blk, j, rec)[o] == blk[o]
  {
    var after, at := PutRec(blk, j, rec), j * DIR_RECORD_SIZE;
    WordRoundTrip(blk, at, rec.ino);
    var word := Splice(blk, at, WordBytes(rec.ino));
    assert forall o :: at <= o < at + 4 ==> after[o] == word[o];
    assert after[at + 4..at + DIR_RECORD_SIZE] == rec.raw;
  }

  /** Storing record j changes what record j reads back as, and no byte outside record j. */
  lemma GetPut(blk: Block, j: nat, rec: Rec, k: nat)
    requires j < DIR_RECORDS_PER_BLOCK && k < DIR_RECORDS_PER_BLOCK && rec.ino < WORD
    ensures GetRec(PutRec(blk, j, rec), k) == if k == j then rec else GetRec(blk, k)
    ensures forall o :: 0 <= o < BLOCK_SIZE && !(j * DIR_RECORD_SIZE <= o < (j + 1) * DIR_RECORD_SIZE)
              ==> PutRec(blk, j, rec)[o] == blk[o]
  {
    var after, to := PutRec(blk, j, rec), k * DIR_RECORD_SIZE;
    PutRecBytes(blk, j, rec);
    if k != j {
      assert forall o :: to <= o < to + DIR_RECORD_SIZE ==> after[o] == blk[o];
      assert after[to + 4..to + DIR_RECORD_SIZE] == blk[to + 4..to + DIR_RECORD_SIZE];
    }
  }

  lemma ZeroBlockRecs(k: nat)
    requires k < DIR_RECORDS_PER_BLOCK
    ensures GetRec(ZeroBlock(), k) == ZeroRec()
  {
    var at := k * DIR_RECORD_SIZE;
    assert ZeroBlock()[at + 4..at + DIR_RECORD_SIZE] == ZeroRec().raw;
  }

  // ---- names inside a record ----

  lemma {:induction false} CStringFrom(raw: seq<byte>, n: nat)
    requires n < |raw| && raw[n] == 0 && 0 !in raw[..n]
    ensures CString(raw) == raw[..n]
  {
    if n > 0 {
      assert raw[0] in raw[..n];
      assert raw[1..][..n - 1] == raw[..n][1..];
      CStringFrom(raw[1..], n - 1);
      assert raw[..n] == [raw[0]] + raw[1..][..n - 1];
    }
  }

  lemma PaddedName(name: Name, ino: nat)
    ensures NameOf(Rec(ino, Padded(name))) == Stored(name)
    ensures Terminated(Rec(ino, Padded(name)))
    ensures forall k :: 0 <= k < 128 ==> Padded(name)[k] == if k < |name| && k < 127 then name[k] else 0
  {
    var s := Stored(name);
    assert forall i :: 0 <= i < |s| ==> Padded(name)[i] == name[i];
    assert Padded(name)[..|s|] == s;
    CStringFrom(Padded(name), |s|);
  }

  lemma MatchesMeansNamed(rec: Rec, name: Name)
    requires Terminated(rec)
    ensures Matches(rec, name) <==> NameOf(rec) == name
  {
    StrncmpMeansEqual(rec.raw, name);
  }

  lemma ZeroRecTerminated()
    ensures Terminated(ZeroRec()) && NameOf(ZeroRec()) == []
  {
    CStringFrom(ZeroRec().raw, 0);
  }
}
