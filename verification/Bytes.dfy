/** Bytes, 512-byte blocks, little-endian words and C strings: the raw material of every on-disk structure. */
module Bytes {
  const BLOCK_SIZE := 512
  const WORD := 0x1_0000_0000

  newtype byte = x: int | 0 <= x < 256
  type Block = b: seq<byte> | |b| == BLOCK_SIZE witness seq(512, _ => 0)

  function ZeroBlock(): Block {
    seq(BLOCK_SIZE, _ => 0)
  }

  // A file name as the VFS passes it: a C string, so no byte of it is NUL.
  type Name = s: seq<byte> | 0 !in s

  /** The buffer s after the bytes t have been copied over it from offset at. */
  function Splice(s: seq<byte>, at: nat, t: seq<byte>): (r: seq<byte>)
    requires at + |t| <= |s|
  {
    s[..at] + t + s[at + |t|..]
  }

  lemma SpliceAt(s: seq<byte>, at: nat, t: seq<byte>, k: nat)
    requires at + |t| <= |s| && k < |s|
    ensures |Splice(s, at, t)| == |s|
    ensures Splice(s, at, t)[k] == if at <= k < at + |t| then t[k - at] else s[k]
  {
  }

  // ---- cpu_to_le32 / le32_to_cpu ----

  function Word(s: seq<byte>, at: nat): (w: nat)
    requires at + 4 <= |s|
  {
    s[at] as int + 0x100 * (s[at + 1] as int) + 0x1_0000 * (s[at + 2] as int) + 0x100_0000 * (s[at + 3] as int)
  }

  /** The four bytes cpu_to_le32 stores; a wider value is truncated to 32 bits. */
  function WordBytes(w: nat): (s: seq<byte>)
    ensures |s| == 4
  {
    [(w % 0x100) as byte, (w / 0x100 % 0x100) as byte, (w / 0x1_0000 % 0x100) as byte, (w / 0x100_0000 % 0x100) as byte]
  }

  lemma WordRoundTrip(s: seq<byte>, at: nat, w: nat)
    requires at + 4 <= |s|
    ensures Word(Splice(s, at, WordBytes(w)), at) == w % WORD
  {
    var t := Splice(s, at, WordBytes(w));
    assert t[at] == WordBytes(w)[0] && t[at + 1] == WordBytes(w)[1] && t[at + 2] == WordBytes(w)[2]
      && t[at + 3] == WordBytes(w)[3];
    var a, b, c := w / 0x100, w / 0x1_0000, w / 0x100_0000;
    assert b == a / 0x100 && c == b / 0x100;
  }

  /** The lowest byte comes first: the magic number as it stands on a device. */
  lemma WordOnDevice()
    ensures WordBytes(0x990717) == [0x17, 0x07, 0x99, 0x00] && Word([0x17, 0x07, 0x99, 0x00], 0) == 0x990717
  {
  }

  // ---- C strings ----

  /** Character k of the C string that starts at s: past the end of a NUL-free s stands its terminator. */
  function CharAt(s: seq<byte>, k: nat): byte {
    if k < |s| then s[k] else 0
  }

  /** strncmp(raw, name, |raw|) == 0 for a character buffer raw, decided from character k on. */
  predicate StrncmpEq(raw: seq<byte>, name: seq<byte>, k: nat)
    decreases |raw| - k
  {
    k >= |raw| || (raw[k] == CharAt(name, k) && (raw[k] == 0 || StrncmpEq(raw, name, k + 1)))
  }

  /** The C string stored in a character buffer: everything before its first NUL. */
  function CString(raw: seq<byte>): (s: Name)
    ensures s <= raw
    ensures |s| < |raw| ==> raw[|s|] == 0
  {
    if raw == [] || raw[0] == 0 then [] else
    var t := CString(raw[1..]);
    assert forall i :: 1 <= i <= |t| ==> raw[i] == raw[1..][i - 1];
    [raw[0]] + t
  }

  /** Comparing a terminated buffer with a name compares the whole name, even one longer than the buffer. */
  lemma StrncmpMeansEqual(raw: seq<byte>, name: Name)
    requires |CString(raw)| < |raw|
    ensures StrncmpEq(raw, name, 0) <==> CString(raw) == name
  {
    StrncmpFrom(raw, name, 0);
  }

  /** Any buffer: without a terminator it is compared with as much of the name as it is long. */
  lemma StrncmpMeans(raw: seq<byte>, name: Name)
    ensures StrncmpEq(raw, name, 0) <==> CString(raw) == name || (|CString(raw)| == |raw| && raw <= name)
  {
    if |CString(raw)| < |raw| {
      StrncmpMeansEqual(raw, name);
    } else {
      StrncmpUnterminated(raw, name, 0);
    }
  }

  lemma {:induction false} StrncmpUnterminated(raw: seq<byte>, name: Name, k: nat)
    requires k <= |raw| == |CString(raw)| && k <= |name| && raw[..k] == name[..k]
    ensures StrncmpEq(raw, name, k) <==> raw <= name
    decreases |raw| - k
  {
    if k < |raw| {
      assert raw[k] == CString(raw)[k] != 0;
      if k < |name| && raw[k] == name[k] {
        assert raw[..k + 1] == raw[..k] + [raw[k]] && name[..k + 1] == name[..k] + [name[k]];
        StrncmpUnterminated(raw, name, k + 1);
      }
    } else {
      assert raw == raw[..k];
    }
  }

  lemma {:induction false} StrncmpFrom(raw: seq<byte>, name: Name, k: nat)
    requires k <= |CString(raw)| < |raw|
    requires k <= |name| && name[..k] == CString(raw)[..k]
    ensures StrncmpEq(raw, name, k) <==> CString(raw) == name
    decreases |raw| - k
  {
    var c := CString(raw);
    if k < |c| {
      assert raw[k] == c[k] && c[k] != 0;
      if CharAt(name, k) == raw[k] {
        assert name[..k + 1] == name[..k] + [name[k]];
        assert c[..k + 1] == c[..k] + [c[k]];
        StrncmpFrom(raw, name, k + 1);
      }
    } else {
      assert raw[k] == 0;
      assert c == c[..k];
      if |name| > k {
        assert name[k] != 0;
      } else {
        assert name == name[..k];
      }
    }
  }
}
