/** What each call answers and what it makes, in terms of bits, records and numbers: the conditions a caller could check
    before the call, and the fields it finds afterwards. */
module Answers {
  import opened Bytes
  import opened Records
  import opened Directory
  import opened State
  import opened Steps
  import opened Ownership
  import opened Accounting
  import opened FileWrite
  import opened LateWrites
  import opened Namespace
  import opened Simulation

  // ---- what can be short ----

  /** Every bit in the whole bytes of the inode bitmap is set. */
  predicate NumbersOut(fs: FS) {
    AllSet(fs.iused, 0, fs.lay.inodeTotal / 8 * 8)
  }

  /** Bit b of the block bitmap is one the allocator would take. */
  predicate CanTake(fs: FS, b: int) {
    fs.lay.dataStart <= b < fs.lay.blockTotal / 8 * 8 && b !in fs.used
  }

  ghost predicate BlocksOut(fs: FS) {
    forall b :: !CanTake(fs, b)
  }

  ghost predicate OneBlockAtMost(fs: FS) {
    forall b, c :: CanTake(fs, b) && CanTake(fs, c) ==> b == c
  }

  predicate RecordsOut(recs: seq<Rec>) {
    forall r :: 0 <= r < |recs| ==> recs[r].ino != 0
  }

  /** The number and the block that are taken next. */
  predicate NextNumber(fs: FS, ino: int) {
    IsFirstClear(fs.iused, 0, fs.lay.inodeTotal / 8 * 8, ino - 1)
  }

  predicate NextBlock(fs: FS, b: int) {
    IsFirstClear(fs.used, fs.lay.dataStart, fs.lay.blockTotal / 8 * 8, b)
  }

  lemma FreeInodeMeans(fs: FS)
    ensures FreeInode(fs).None? <==> NumbersOut(fs)
    ensures FreeInode(fs).Some? ==> NextNumber(fs, FreeInode(fs).value)
  {
  }

  lemma FreeBlockMeans(fs: FS)
    ensures FreeBlock(fs).None? <==> BlocksOut(fs)
    ensures FreeBlock(fs).Some? ==> NextBlock(fs, FreeBlock(fs).value)
  {
    if FreeBlock(fs).Some? {
      assert CanTake(fs, FreeBlock(fs).value);
    }
  }

  lemma NoSlotMeans(fs: FS, d: nat)
    requires DirOk(fs, d)
    ensures NoSlot(fs, d) <==> RecordsOut(DirRecs(fs, d))
  {
  }

  // ---- create and mkdir: the answer ----

  /** create answers 0, or -ENOSPC: exactly when no number is left, or neither a record nor a block. */
  lemma CreateAnswers(fs: FS, d: nat, name: Name, cred: Cred) returns (ret: int)
    requires OwnInv(fs) && DirIn(fs, d)
    ensures ret == Create(fs, d, name, cred).1 && (ret == 0 || ret == -28)
    ensures ret == -28 <==> NumbersOut(fs) || (RecordsOut(DirRecs(fs, d)) && BlocksOut(fs))
  {
    ret := Create(fs, d, name, cred).1;
    CreateReturns(fs, d, name, cred);
    FreeInodeMeans(fs);
    FreeBlockMeans(fs);
    NoSlotMeans(fs, d);
  }

  lemma SecondBlock(fs: FS, fs1: FS, b: nat)
    requires NextBlock(fs, b) && fs1.lay == fs.lay && fs1.used == fs.used + {b}
    ensures BlocksOut(fs1) <==> OneBlockAtMost(fs)
  {
    assert CanTake(fs, b);
    assert forall c :: CanTake(fs1, c) <==> CanTake(fs, c) && c != b;
  }

  /** mkdir answers 0, or -ENOSPC: exactly when no number is left, or no block, or neither a record nor a second
      block. */
  lemma MkdirAnswers(fs: FS, d: nat, name: Name, cred: Cred) returns (ret: int)
    requires OwnInv(fs) && DirIn(fs, d)
    ensures ret == Mkdir(fs, d, name, cred).1 && (ret == 0 || ret == -28)
    ensures ret == -28 <==>
      NumbersOut(fs) || BlocksOut(fs) || (RecordsOut(DirRecs(fs, d)) && OneBlockAtMost(fs))
  {
    ret := Mkdir(fs, d, name, cred).1;
    MkdirReturns(fs, d, name, cred);
    FreeInodeMeans(fs);
    FreeBlockMeans(fs);
    if FreeInode(fs).Some? && FreeBlock(fs).Some? {
      var ino, b := FreeInode(fs).value, FreeBlock(fs).value;
      var fs1 := PreparedRecords(fs, d, ino, b);
      NoSlotMeans(fs1, d);
      FreeBlockMeans(fs1);
      SecondBlock(fs, fs1, b);
    }
  }

  lemma PreparedRecords(fs: FS, d: nat, ino: nat, b: nat) returns (fs1: FS)
    requires OwnInv(fs) && DirIn(fs, d) && FreeInode(fs) == Some(ino) && FreeBlock(fs) == Some(b)
    ensures fs1 == Prepared(fs, ino, b, d) && OwnInv(fs1) && DirRecs(fs1, d) == DirRecs(fs, d)
  {
    fs1 := Prepared(fs, ino, b, d);
    PreparedNs(fs, ino, b, d);
    assert NsOf(fs1).dirs[d] == NsOf(fs).dirs[d];
  }

  // ---- unlink and rmdir: the answer ----

  /** The record is in use and strncmp finds the name in it: the whole name, or its first 128 characters when the field
      has no terminator. */
  predicate HasName(rec: Rec, name: Name) {
    rec.ino != 0 && (NameOf(rec) == name || (|NameOf(rec)| == 128 && NameOf(rec) <= name))
  }

  lemma NamesHasName(rec: Rec, name: Name)
    ensures Names(rec, name) <==> HasName(rec, name)
  {
    StrncmpMeans(rec.raw, name);
  }

  lemma NobodyHasName(recs: seq<Rec>, name: Name)
    ensures FirstMatch(recs, name) == |recs| <==> forall r :: 0 <= r < |recs| ==> !HasName(recs[r], name)
  {
    forall r | 0 <= r < |recs|
      ensures Names(recs[r], name) <==> HasName(recs[r], name)
    {
      NamesHasName(recs[r], name);
    }
  }

  /** A used record that is neither "." nor "..". */
  predicate IsChild(rec: Rec) {
    rec.ino != 0 && NameOf(rec) != [46] && NameOf(rec) != [46, 46]
  }

  lemma EmptyMeans(recs: seq<Rec>)
    ensures EmptyDir(recs) <==> forall r :: 0 <= r < |recs| ==> !IsChild(recs[r])
  {
    forall r | 0 <= r < |recs|
      ensures IsDot(recs[r]) <==> NameOf(recs[r]) == [46] || NameOf(recs[r]) == [46, 46]
    {
      StrncmpMeans(recs[r].raw, DOT);
      StrncmpMeans(recs[r].raw, DOTDOT);
    }
  }

  /** S_ISDIR looks at the top four of sixteen mode bits. */
  lemma IsDirMeans(mode: nat)
    ensures IsDir(mode) <==> 0x4000 <= mode % 0x10000 < 0x5000
  {
  }

  /** unlink answers 0, or -ENOENT and changes nothing: exactly when no record of the directory carries the name. */
  lemma UnlinkAnswers(fs: FS, d: nat, name: Name, i: nat) returns (after: FS, ret: int)
    requires OwnInv(fs) && DirIn(fs, d) && i in fs.inodes
    ensures (after, ret) == Unlink(fs, d, name, i) && (ret == 0 || (ret == -2 && after == fs))
    ensures var recs := DirRecs(fs, d);
      ret == -2 <==> forall r :: 0 <= r < |recs| ==> !HasName(recs[r], name)
  {
    after, ret := Unlink(fs, d, name, i).0, Unlink(fs, d, name, i).1;
    NobodyHasName(DirRecs(fs, d), name);
  }

  /** rmdir answers -ENOTDIR for what is no directory, -ENOTEMPTY for one with a child, -ENOENT for an empty one whose
      name no record of the parent carries, changing nothing, and otherwise 0. */
  lemma RmdirAnswers(fs: FS, d: nat, name: Name, i: nat) returns (after: FS, ret: int)
    requires OwnInv(fs) && DirIn(fs, d) && i in fs.inodes && i != d
    ensures (after, ret) == Rmdir(fs, d, name, i) && (ret in {0, -2, -20, -39}) && (ret < 0 ==> after == fs)
    ensures ret == -20 <==> !(0x4000 <= fs.inodes[i].mode % 0x10000 < 0x5000)
    ensures var recs, children := DirRecs(fs, d), DirRecs(fs, i);
      && (ret == -39 <==> ret != -20 && exists r :: 0 <= r < |children| && IsChild(children[r]))
      && (ret == -2 <==> ret != -20 && ret != -39 && forall r :: 0 <= r < |recs| ==> !HasName(recs[r], name))
  {
    after, ret := Rmdir(fs, d, name, i).0, Rmdir(fs, d, name, i).1;
    IsDirMeans(fs.inodes[i].mode);
    EmptyMeans(DirRecs(fs, i));
    NobodyHasName(DirRecs(fs, d), name);
  }

  // ---- create and mkdir: what they make ----

  /** A stored record: the number, and the first 127 characters of the name with NULs behind them. */
  predicate IsRecord(rec: Rec, ino: nat, name: Name) {
    rec.ino == ino && forall k :: 0 <= k < 128 ==> rec.raw[k] == if k < |name| && k < 127 then name[k] else 0
  }

  predicate IsBlank(rec: Rec) {
    rec.ino == 0 && forall k :: 0 <= k < 128 ==> rec.raw[k] == 0
  }

  /** more is recs with the name in place of its first unused record, which is record r. */
  predicate RecordFilled(recs: seq<Rec>, more: seq<Rec>, r: nat, ino: nat, name: Name) {
    && r < |recs| == |more| && recs[r].ino == 0 && RecordsOut(recs[..r])
    && IsRecord(more[r], ino, name) && more == recs[r := more[r]]
  }

  /** more is recs with a block of three records behind it, the name in the first of them. */
  predicate BlockAdded(recs: seq<Rec>, more: seq<Rec>, ino: nat, name: Name) {
    && |more| == |recs| + 3 && more[..|recs|] == recs
    && IsRecord(more[|recs|], ino, name) && IsBlank(more[|recs| + 1]) && IsBlank(more[|recs| + 2])
  }

  /** What naive_add_entry makes of the records of a directory with the given block count. */
  predicate RecordEntered(recs: seq<Rec>, more: seq<Rec>, count: nat, ino: nat, name: Name, place: nat) {
    if !RecordsOut(recs) then RecordFilled(recs, more, place, ino, name)
    else if count < 8 then BlockAdded(recs, more, ino, name)
    else more == recs
  }

  /** What it makes of the directory's inode. */
  predicate BlockHung(p: Inode, q: Inode, place: nat) {
    if p.count < 8
    then q == p.(nlink := q.nlink, size := p.size + 512, count := p.count + 1, ptrs := p.ptrs[p.count := place])
    else q == p.(nlink := q.nlink, size := p.size + 512)
  }

  /** What naive_add_entry makes of directory d and the block bitmap: an unused record takes the name; or the next block
      is taken, the directory gets 512 bytes longer, and the block with the name hangs in the pointer behind the last,
      if there is one. place is the record or the block; the link count is not its business. */
  ghost predicate Entered(fs: FS, after: FS, d: nat, ino: nat, name: Name, place: nat)
    requires DirOk(fs, d) && DirOk(after, d)
  {
    var recs, p, q := DirRecs(fs, d), fs.inodes[d], after.inodes[d];
    && RecordEntered(recs, DirRecs(after, d), p.count, ino, name, place)
    && if !RecordsOut(recs) then q == p.(nlink := q.nlink) && after.used == fs.used
       else NextBlock(fs, place) && after.used == fs.used + {place} && BlockHung(p, q, place)
  }

  /** Only the directory, its records, the bitmap and the layout matter to that. */
  lemma EnteredToo(a: FS, b: FS, fs: FS, after: FS, d: nat, ino: nat, name: Name, place: nat)
    requires DirOk(a, d) && DirOk(b, d) && DirOk(fs, d) && DirOk(after, d) && Entered(a, b, d, ino, name, place)
    requires DirRecs(fs, d) == DirRecs(a, d) && fs.inodes[d] == a.inodes[d] && fs.used == a.used && fs.lay == a.lay
    requires DirRecs(after, d) == DirRecs(b, d) && after.used == b.used
    requires after.inodes[d] == b.inodes[d].(nlink := after.inodes[d].nlink)
    ensures Entered(fs, after, d, ino, name, place)
  {
  }

  lemma AddRecMakes(recs: seq<Rec>, ino: nat, name: Name) returns (more: seq<Rec>)
    ensures more == AddRec(recs, Rec(ino, Padded(name)))
    ensures if RecordsOut(recs) then BlockAdded(recs, more, ino, name)
            else RecordFilled(recs, more, FirstFree(recs), ino, name)
  {
    more := AddRec(recs, Rec(ino, Padded(name)));
    PaddedName(name, ino);
  }

  lemma AddEntryHangs(fs: FS, d: nat, name: Name, ino: nat) returns (after: FS, place: nat)
    requires OwnInv(fs) && DirIn(fs, d) && AddEntry(fs, d, name, ino).1 == 0
    ensures after == AddEntry(fs, d, name, ino).0 && d in after.inodes
    ensures after.iused == fs.iused && after.lay == fs.lay && after.inodes == fs.inodes[d := after.inodes[d]]
    ensures if !RecordsOut(DirRecs(fs, d))
            then place == FirstFree(DirRecs(fs, d)) && after == fs.(disk := after.disk)
            else NextBlock(fs, place) && after.used == fs.used + {place}
                 && BlockHung(fs.inodes[d], after.inodes[d], place)
    ensures after.inodes[d].nlink == fs.inodes[d].nlink
  {
    after := AddEntry(fs, d, name, ino).0;
    NoSlotMeans(fs, d);
    FreeBlockMeans(fs);
    place := if NoSlot(fs, d) then FreeBlock(fs).value else FirstFree(DirRecs(fs, d));
  }

  lemma AddEntryMakes(fs: FS, d: nat, name: Name, ino: nat) returns (after: FS, place: nat)
    requires OwnInv(fs) && DirIn(fs, d) && ino < WORD && AddEntry(fs, d, name, ino).1 == 0
    ensures after == AddEntry(fs, d, name, ino).0 && OwnInv(after) && DirIn(after, d)
    ensures after.iused == fs.iused && after.lay == fs.lay && after.inodes == fs.inodes[d := after.inodes[d]]
    ensures after.inodes[d].nlink == fs.inodes[d].nlink && Entered(fs, after, d, ino, name, place)
  {
    after, place := AddEntryHangs(fs, d, name, ino);
    AddEntryRecs(fs, d, name, ino);
    NoSlotMeans(fs, d);
    FreeBlockMeans(fs);
    var _ := AddRecMakes(DirRecs(fs, d), ino, name);
  }

  /** The state between the search for a number and the installation of its inode. */
  lemma NumberEntered(fs: FS, d: nat, name: Name, ino: nat) returns (added: FS, place: nat)
    requires OwnInv(fs) && DirIn(fs, d) && FreeInode(fs) == Some(ino) && !AddFails(fs, d)
    ensures added == AddEntry(fs.(iused := fs.iused + {ino - 1}), d, name, ino).0 && OwnInv(added) && DirIn(added, d)
    ensures added.iused == fs.iused + {ino - 1} && added.lay == fs.lay
    ensures added.inodes == fs.inodes[d := added.inodes[d]] && added.inodes[d].nlink == fs.inodes[d].nlink
    ensures Entered(fs, added, d, ino, name, place)
  {
    var mid;
    FreeInodeIsNew(fs);
    mid, added := NumberedNs(fs, d, name, ino);
    OwnedIsOk(mid, d);
    added, place := AddEntryMakes(mid, d, name, ino);
    EnteredToo(mid, added, fs, added, d, ino, name, place);
  }

  /** create that answers 0: the next number, one link, the attributes asked for, no blocks; the name entered; nothing
      else. */
  lemma CreateMakes(fs: FS, d: nat, name: Name, cred: Cred) returns (after: FS, ino: nat, place: nat)
    requires OwnInv(fs) && DirIn(fs, d) && !IsDir(cred.mode) && Create(fs, d, name, cred).1 == 0
    ensures after == Create(fs, d, name, cred).0 && DirOk(after, d)
    ensures NextNumber(fs, ino) && after.iused == fs.iused + {ino - 1} && Entered(fs, after, d, ino, name, place)
    ensures after.inodes[d].nlink == fs.inodes[d].nlink && after.lay == fs.lay
    ensures after.inodes == fs.inodes[d := after.inodes[d]]
                                     [ino := Inode(cred.mode, cred.uid, cred.gid, 1, 0, 0, [0, 0, 0, 0, 0, 0, 0, 0])]
  {
    CreateReturns(fs, d, name, cred);
    FreeInodeMeans(fs);
    FreeInodeIsNew(fs);
    ino := FreeInode(fs).value;
    var added;
    added, place := NumberEntered(fs, d, name, ino);
    after := CreatedFrom(fs, d, name, cred, ino, added);
    EnteredToo(fs, added, fs, after, d, ino, name, place);
  }

  lemma CreatedFrom(fs: FS, d: nat, name: Name, cred: Cred, ino: nat, added: FS) returns (after: FS)
    requires OwnInv(fs) && DirIn(fs, d) && FreeInode(fs) == Some(ino) && !AddFails(fs, d)
    requires added == AddEntry(fs.(iused := fs.iused + {ino - 1}), d, name, ino).0 && OwnInv(added) && DirIn(added, d)
    requires ino != d
    ensures after == Create(fs, d, name, cred).0
    ensures after == added.(inodes := added.inodes[ino :=
                       Inode(cred.mode, cred.uid, cred.gid, 1, 0, 0, [0, 0, 0, 0, 0, 0, 0, 0])])
    ensures DirOk(after, d) && DirRecs(after, d) == DirRecs(added, d)
  {
    SameRecs(fs, fs.(iused := fs.iused + {ino - 1}), d);
    CreateIs(fs, d, name, cred, ino, fs.(iused := fs.iused + {ino - 1}), added);
    assert NoPtrs() == [0, 0, 0, 0, 0, 0, 0, 0];
    after := Create(fs, d, name, cred).0;
  }

  /** create that answers -ENOSPC changes nothing, but for the bit of the number it had found. */
  lemma CreateLeaves(fs: FS, d: nat, name: Name, cred: Cred) returns (after: FS)
    requires OwnInv(fs) && DirIn(fs, d) && Create(fs, d, name, cred).1 != 0
    ensures after == Create(fs, d, name, cred).0
    ensures if NumbersOut(fs) then after == fs
            else exists ino :: NextNumber(fs, ino) && after == fs.(iused := fs.iused + {ino - 1})
  {
    after := Create(fs, d, name, cred).0;
    FreeInodeMeans(fs);
    if FreeInode(fs).Some? {
      assert NextNumber(fs, FreeInode(fs).value);
    }
  }

  /** A directory as mkdir formats it: ".", "..", and an unused record. */
  predicate IsNewDir(recs: seq<Rec>, ino: nat, parent: nat) {
    && |recs| == 3 && IsBlank(recs[2])
    && IsRecord(recs[0], ino, [46]) && IsRecord(recs[1], parent, [46, 46])
  }

  lemma DotRecsMeans(ino: nat, parent: nat)
    ensures IsNewDir(DotRecs(ino, parent), ino, parent)
  {
  }

  /** The state between the formatting of the block and the installation of the inode. */
  lemma DirEntered(fs: FS, d: nat, name: Name, ino: nat, b: nat) returns (added: FS, place: nat)
    requires OwnInv(fs) && DirIn(fs, d) && FreeInode(fs) == Some(ino) && FreeBlock(fs) == Some(b)
    requires !AddFails(Prepared(fs, ino, b, d), d)
    ensures added == AddEntry(Prepared(fs, ino, b, d), d, name, ino).0 && OwnInv(added) && DirIn(added, d)
    ensures added.iused == fs.iused + {ino - 1} && added.lay == fs.lay
    ensures added.inodes == fs.inodes[d := added.inodes[d]] && added.inodes[d].nlink == fs.inodes[d].nlink
    ensures DirOk(fs.(used := fs.used + {b}), d) && Entered(fs.(used := fs.used + {b}), added, d, ino, name, place)
  {
    FreeInodeIsNew(fs);
    var mid := PreparedRecords(fs, d, ino, b);
    added, place := AddEntryMakes(mid, d, name, ino);
    EnteredToo(mid, added, fs.(used := fs.used + {b}), added, d, ino, name, place);
  }

  lemma InstalledMeans(added: FS, ino: nat, cred: Cred, b: nat, d: nat) returns (after: FS)
    requires d in added.inodes && ino != d
    ensures after == Installed(added, ino, NewDir(cred, b), d) && after == added.(inodes := after.inodes)
    ensures after.inodes == added.inodes
        [d := added.inodes[d].(nlink := (added.inodes[d].nlink + 1) % 0x1_0000_0000)]
        [ino := Inode(0x4000 + cred.mode % 0x200, cred.uid, cred.gid, 2, 512, 1, [b, 0, 0, 0, 0, 0, 0, 0])]
  {
    after := Installed(added, ino, NewDir(cred, b), d);
    assert NoPtrs()[0 := b] == [b, 0, 0, 0, 0, 0, 0, 0];
  }

  /** The state mkdir makes of one in which the name is entered. */
  lemma MadeFrom(fs: FS, d: nat, name: Name, cred: Cred, ino: nat, b: nat, added: FS) returns (after: FS)
    requires OwnInv(fs) && DirIn(fs, d) && FreeInode(fs) == Some(ino) && FreeBlock(fs) == Some(b) && ino != d
    requires !MkdirFails(fs, d) && added == AddEntry(Prepared(fs, ino, b, d), d, name, ino).0
    requires OwnInv(added) && d in added.inodes && added.inodes == fs.inodes[d := added.inodes[d]]
    ensures after == Mkdir(fs, d, name, cred).0 && after == added.(inodes := after.inodes) && d in after.inodes
    ensures after.inodes[d] == added.inodes[d].(nlink := (added.inodes[d].nlink + 1) % 0x1_0000_0000)
    ensures after.inodes == fs.inodes[d := after.inodes[d]]
        [ino := Inode(0x4000 + cred.mode % 0x200, cred.uid, cred.gid, 2, 512, 1, [b, 0, 0, 0, 0, 0, 0, 0])]
    ensures DirOk(after, d) && DirRecs(after, d) == DirRecs(added, d)
  {
    after := InstalledMeans(added, ino, cred, b, d);
    MkdirEndsSo(fs, d, name, cred, ino, b, added);
    OwnedIsOk(added, d);
    assert DirRecs(after, d) == DirRecs(added, d);
  }

  lemma MkdirEndsSo(fs: FS, d: nat, name: Name, cred: Cred, ino: nat, b: nat, added: FS)
    requires OwnInv(fs) && DirIn(fs, d) && FreeInode(fs) == Some(ino) && FreeBlock(fs) == Some(b)
    requires !MkdirFails(fs, d) && added == AddEntry(Prepared(fs, ino, b, d), d, name, ino).0 && d in added.inodes
    ensures Mkdir(fs, d, name, cred).0 == Installed(added, ino, NewDir(cred, b), d)
  {
  }

  lemma NewDirRecords(fs: FS, d: nat, name: Name, cred: Cred, after: FS, ino: nat)
    requires OwnInv(fs) && DirIn(fs, d) && !MkdirFails(fs, d) && FreeInode(fs) == Some(ino)
    requires after == Mkdir(fs, d, name, cred).0
    ensures DirOk(after, ino) && IsNewDir(DirRecs(after, ino), ino, d)
  {
    var result := MkdirSim(fs, d, name, cred);
    FreeInodeIsNew(fs);
    assert NsOf(result).dirs[ino] == DotRecs(ino, d);
    DotRecsMeans(ino, d);
  }

  /** mkdir that answers 0: the next number, a directory with the low nine mode bits and the owner asked for, two links,
      512 bytes and the next block, which holds "." and ".."; its parent has a link more and the name entered; nothing
      else. */
  lemma MkdirMakes(fs: FS, d: nat, name: Name, cred: Cred) returns (after: FS, ino: nat, b: nat, place: nat)
    requires OwnInv(fs) && DirIn(fs, d) && Mkdir(fs, d, name, cred).1 == 0
    ensures after == Mkdir(fs, d, name, cred).0 && DirOk(after, d) && DirOk(after, ino) && after.lay == fs.lay
    ensures NextNumber(fs, ino) && after.iused == fs.iused + {ino - 1} && NextBlock(fs, b)
    ensures IsNewDir(DirRecs(after, ino), ino, d)
    ensures DirOk(fs.(used := fs.used + {b}), d) && Entered(fs.(used := fs.used + {b}), after, d, ino, name, place)
    ensures after.inodes[d].nlink == (fs.inodes[d].nlink + 1) % 0x1_0000_0000
    ensures after.inodes == fs.inodes[d := after.inodes[d]]
        [ino := Inode(0x4000 + cred.mode % 0x200, cred.uid, cred.gid, 2, 512, 1, [b, 0, 0, 0, 0, 0, 0, 0])]
  {
    MkdirReturns(fs, d, name, cred);
    FreeInodeMeans(fs);
    FreeBlockMeans(fs);
    FreeInodeIsNew(fs);
    ino, b := FreeInode(fs).value, FreeBlock(fs).value;
    var added;
    added, place := DirEntered(fs, d, name, ino, b);
    after := MadeFrom(fs, d, name, cred, ino, b, added);
    NewDirRecords(fs, d, name, cred, after, ino);
    EnteredToo(fs.(used := fs.used + {b}), added, fs.(used := fs.used + {b}), after, d, ino, name, place);
  }

  /** mkdir that answers -ENOSPC leaves bitmap and inodes as they were, but for the bit of the number it had found if it
      had found a block as well; that block it has formatted, and given back. */
  lemma MkdirLeaves(fs: FS, d: nat, name: Name, cred: Cred) returns (after: FS)
    requires OwnInv(fs) && DirIn(fs, d) && Mkdir(fs, d, name, cred).1 != 0
    ensures after == Mkdir(fs, d, name, cred).0
    ensures if NumbersOut(fs) || BlocksOut(fs) then after == fs
            else exists ino, b: nat ::
                   && NextNumber(fs, ino) && NextBlock(fs, b) && b < |fs.disk| == |after.disk|
                   && after == fs.(iused := fs.iused + {ino - 1}, disk := fs.disk[b := after.disk[b]])
  {
    after := Mkdir(fs, d, name, cred).0;
    FreeInodeMeans(fs);
    FreeBlockMeans(fs);
    if FreeInode(fs).Some? && FreeBlock(fs).Some? {
      var ino, b := FreeInode(fs).value, FreeBlock(fs).value;
      MkdirReturns(fs, d, name, cred);
      assert fs.used + {b} - {b} == fs.used;
      assert NextNumber(fs, ino) && NextBlock(fs, b);
    }
  }

  // ---- unlink and rmdir: what they make ----

  /** The first record that carries the name is blank, and no other has changed. */
  ghost predicate RecordBlanked(recs: seq<Rec>, less: seq<Rec>, name: Name, f: nat) {
    && f < |recs| == |less| && HasName(recs[f], name) && (forall r :: 0 <= r < f ==> !HasName(recs[r], name))
    && IsBlank(less[f]) && less == recs[f := less[f]]
  }

  /** The number and the blocks of inode i are free again, and it is in memory no more. */
  ghost predicate LetGo(fs: FS, after: FS, i: nat)
    requires i in fs.inodes
  {
    var n := fs.inodes[i];
    && after.lay == fs.lay && after.iused == fs.iused - {i as int - 1} && after.inodes.Keys == fs.inodes.Keys - {i}
    && forall b :: b in after.used <==> b in fs.used && forall k :: 0 <= k < 8 && k < n.count ==> n.ptrs[k] != b
  }

  lemma ReleaseLetsGo(fs: FS, i: nat)
    requires i in fs.inodes
    ensures LetGo(fs, Release(fs, i), i)
  {
  }

  lemma RemoveEntryMakes(fs: FS, d: nat, name: Name) returns (after: FS, f: nat)
    requires OwnInv(fs) && DirIn(fs, d) && RemoveEntry(fs, d, name).1 == 0
    ensures after == RemoveEntry(fs, d, name).0 && OwnInv(after) && after == fs.(disk := after.disk)
    ensures RecordBlanked(DirRecs(fs, d), DirRecs(after, d), name, f)
  {
    var recs := DirRecs(fs, d);
    after, f := RemoveEntry(fs, d, name).0, FirstMatch(recs, name);
    RemoveEntryRecs(fs, d, name);
    RemoveEntryKeeps(fs, d, name);
    forall r | 0 <= r < |recs|
      ensures Names(recs[r], name) <==> HasName(recs[r], name)
    {
      NamesHasName(recs[r], name);
    }
  }

  /** unlink that answers 0: the record is blank, the inode let go; every other inode is as it was. */
  lemma UnlinkMakes(fs: FS, d: nat, name: Name, i: nat) returns (after: FS, f: nat)
    requires OwnInv(fs) && DirIn(fs, d) && i in fs.inodes && i != d && Unlink(fs, d, name, i).1 == 0
    ensures after == Unlink(fs, d, name, i).0 && LetGo(fs, after, i) && after.inodes == fs.inodes - {i}
    ensures DirOk(after, d) && RecordBlanked(DirRecs(fs, d), DirRecs(after, d), name, f)
  {
    var mid;
    mid, f := RemoveEntryMakes(fs, d, name);
    ReleaseLetsGo(mid, i);
    after := Unlink(fs, d, name, i).0;
    OwnedIsOk(mid, d);
    assert DirRecs(after, d) == DirRecs(mid, d);
  }

  lemma RmdirIs(fs: FS, d: nat, name: Name, i: nat, mid: FS) returns (after: FS)
    requires OwnInv(fs) && DirIn(fs, d) && i in fs.inodes && i != d && Rmdir(fs, d, name, i).1 == 0
    requires mid == RemoveEntry(fs, d, name).0 && mid.inodes == fs.inodes
    ensures after == Rmdir(fs, d, name, i).0 && after == Release(mid, i).(inodes := after.inodes)
    ensures after.inodes ==
      (fs.inodes - {i})[d := fs.inodes[d].(nlink := (fs.inodes[d].nlink + 0xFFFF_FFFF) % 0x1_0000_0000)]
  {
    after := Rmdir(fs, d, name, i).0;
  }

  /** rmdir that answers 0: the same, and the parent has a link less. */
  lemma RmdirMakes(fs: FS, d: nat, name: Name, i: nat) returns (after: FS, f: nat)
    requires OwnInv(fs) && DirIn(fs, d) && i in fs.inodes && i != d && Rmdir(fs, d, name, i).1 == 0
    ensures after == Rmdir(fs, d, name, i).0 && LetGo(fs, after, i)
    ensures DirOk(after, d) && RecordBlanked(DirRecs(fs, d), DirRecs(after, d), name, f)
    ensures after.inodes ==
      (fs.inodes - {i})[d := fs.inodes[d].(nlink := (fs.inodes[d].nlink + 0xFFFF_FFFF) % 0x1_0000_0000)]
  {
    var mid;
    mid, f := RemoveEntryMakes(fs, d, name);
    ReleaseLetsGo(mid, i);
    after := RmdirIs(fs, d, name, i, mid);
    OwnedIsOk(mid, d);
    assert DirRecs(after, d) == DirRecs(mid, d);
  }

  // ---- write ----

  /** The blocks naive_file_write asks for. */
  function BlocksWanted(n: Inode, pos: nat, len: nat): int {
    if pos + len > n.size then (pos + len + 511) / 512 - n.size / 512 else 0
  }

  /** write answers -EFBIG past 4096 bytes; else -ENOSPC, exactly when the pointers or the free blocks do not suffice
      for the blocks it asks for; else the length. */
  lemma WriteAnswers(fs: FS, i: nat, pos: nat, buf: seq<byte>) returns (ret: int)
    requires FileIn(fs, i)
    ensures ret == Write(fs, i, pos, buf).1 && (ret == -27 || ret == -28 || ret == |buf|)
    ensures ret == -27 <==> pos + |buf| > 4096
    ensures var n, more := fs.inodes[i], BlocksWanted(fs.inodes[i], pos, |buf|);
      ret == -28 <==> ret != -27 && (n.count + more > 8 || more > |Available(fs)|)
  {
    ret := Write(fs, i, pos, buf).1;
    WriteReturns(fs, i, pos, buf);
  }

  /** The same of a write through a descriptor whose file unlink has released. */
  lemma LateWriteAnswers(fs: FS, n: Inode, pos: nat, buf: seq<byte>) returns (ret: int)
    requires OwnInv(fs) && Released(fs, n)
    ensures ret == LateWrite(fs, n, pos, buf).2 && (ret == -27 || ret == -28 || ret == |buf|)
    ensures ret == -27 <==> pos + |buf| > 4096
    ensures var more := BlocksWanted(n, pos, |buf|);
      ret == -28 <==> ret != -27 && (n.count + more > 8 || more > |Available(fs)|)
  {
    var _, _ := HeldWrite(fs, n, pos, buf);
    ret := WriteAnswers(Holding(fs, n), PastTable(fs), pos, buf);
    assert Available(Holding(fs, n)) == Available(fs);
  }

  /** The blocks behind pointers lo to hi. */
  function Hung(n: Inode, lo: nat, hi: nat): set<nat> {
    set k | 0 <= k < 8 && lo <= k < hi :: n.ptrs[k]
  }

  /** m is n with pointers more; each of them was the next block to take once those before it were taken. */
  ghost predicate TookNext(fs: FS, n: Inode, m: Inode) {
    && n.count <= m.count <= 8 && m == n.(count := m.count, ptrs := m.ptrs)
    && (forall k :: 0 <= k < 8 && !(n.count <= k < m.count) ==> m.ptrs[k] == n.ptrs[k])
    && forall k :: n.count <= k < m.count ==> NextBlock(fs.(used := fs.used + Hung(m, n.count, k)), m.ptrs[k])
  }

  lemma {:induction false} ReserveMakes(fs: FS, i: nat, wanted: nat) returns (after: FS, m: Inode)
    requires i in fs.inodes && fs.inodes[i].count <= 8
    ensures after == Reserve(fs, i, wanted).0 && TookNext(fs, fs.inodes[i], m)
    ensures after == fs.(used := fs.used + Hung(m, fs.inodes[i].count, m.count), inodes := fs.inodes[i := m])
    decreases wanted
  {
    var n := fs.inodes[i];
    FreeBlockMeans(fs);
    if wanted == 0 || FreeBlock(fs).None? || n.count >= 8 {
      after, m := fs, n;
      assert Hung(m, n.count, m.count) == {};
    } else {
      var b := FreeBlock(fs).value;
      var fs1 := Attached(fs, i, b);
      after, m := ReserveMakes(fs1, i, wanted - 1);
      OneMoreHung(fs, fs1, i, b, m);
    }
  }

  lemma OneMoreHung(fs: FS, fs1: FS, i: nat, b: nat, m: Inode)
    requires i in fs.inodes && fs.inodes[i].count < 8 && NextBlock(fs, b) && fs1 == Attached(fs, i, b)
    requires TookNext(fs1, fs1.inodes[i], m)
    ensures TookNext(fs, fs.inodes[i], m)
    ensures fs1.used + Hung(m, fs.inodes[i].count + 1, m.count) == fs.used + Hung(m, fs.inodes[i].count, m.count)
  {
    var c := fs.inodes[i].count;
    assert m.ptrs[c] == b && fs.used + Hung(m, c, c) == fs.used;
    forall k | c < k <= m.count
      ensures fs1.used + Hung(m, c + 1, k) == fs.used + Hung(m, c, k)
    {
      FirstHung(m, c, k);
    }
  }

  lemma FirstHung(m: Inode, c: nat, k: nat)
    requires c < 8 && c < k
    ensures Hung(m, c, k) == {m.ptrs[c]} + Hung(m, c + 1, k)
  {
    forall b | b in Hung(m, c, k)
      ensures b == m.ptrs[c] || b in Hung(m, c + 1, k)
    {
      var l :| 0 <= l < 8 && c <= l < k && m.ptrs[l] == b;
    }
  }

  /** What a write within the limit takes it takes in order, whether it is enough or not. */
  lemma WriteTakesNext(fs: FS, i: nat, pos: nat, buf: seq<byte>) returns (after: FS, m: Inode)
    requires FileIn(fs, i) && pos + |buf| <= 4096
    ensures after == Write(fs, i, pos, buf).0 && TookNext(fs, fs.inodes[i], m)
    ensures after.used == fs.used + Hung(m, fs.inodes[i].count, m.count)
    ensures i in after.inodes && after.inodes[i] == m.(size := after.inodes[i].size)
    ensures after.inodes[i].size == if Write(fs, i, pos, buf).1 < 0 || pos + |buf| <= m.size then m.size
        else pos + |buf|
  {
    EnoughBlocks(fs.inodes[i], pos, |buf|);
    var mid;
    mid, m := ReserveMakes(fs, i, Wanted(fs.inodes[i], pos, |buf|));
    after := Write(fs, i, pos, buf).0;
  }
}
