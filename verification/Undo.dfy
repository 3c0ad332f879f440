/** Creating a name and removing it again: what comes back, and when. */
module Undo {
  import opened Bytes
  import opened Records
  import opened Directory
  import opened State
  import opened Steps
  import opened Ownership
  import opened Accounting
  import opened Namespace
  import opened Simulation

  /** The block naive_add_entry takes for directory d, if any. */
  function TakenFor(fs: FS, d: nat): set<nat>
    requires DirOk(fs, d)
  {
    if NoSlot(fs, d) && FreeBlock(fs).Some? then {FreeBlock(fs).value} else {}
  }

  /** Records that differ from before only in unused slots. */
  ghost predicate SameUsed(before: seq<Rec>, after: seq<Rec>) {
    && |before| <= |after|
    && (forall r :: 0 <= r < |before| ==> after[r] == before[r] || (after[r].ino == 0 && before[r].ino == 0))
    && (forall r :: |before| <= r < |after| ==> after[r].ino == 0)
  }

  /** The bitmaps, the inodes and the records are those of fs again, but for the taken block and for directory d's
      unused records, size, pointers and links. */
  ghost predicate BooksBack(fs: FS, after: FS, d: nat, taken: set<nat>) {
    && DirOk(fs, d) && DirOk(after, d)
    && after.iused == fs.iused && after.used == fs.used + taken && |taken| <= 1
    && after.inodes.Keys == fs.inodes.Keys
    && (forall e :: e in fs.inodes && e != d ==> after.inodes[e] == fs.inodes[e])
    && after.inodes[d].mode == fs.inodes[d].mode
    && SameUsed(DirRecs(fs, d), DirRecs(after, d))
  }

  /** after is fs again, but for the taken block and for directory d's unused records, size, pointers and links; every
      block of another inode holds what it held. */
  ghost predicate Restored(fs: FS, after: FS, d: nat, taken: set<nat>) {
    BooksBack(fs, after, d, taken) && Frame(fs, after, {d})
  }

  lemma UndoneFrame(fs: FS, fs1: FS, fs2: FS, d: nat, ino: nat)
    requires Frame(fs, fs1, {d}) && Frame(fs1, fs2, {d, ino}) && ino !in fs.inodes
    ensures Frame(fs, fs2, {d})
  {
    assert Frame(fs, fs1, {d, ino});
    FrameTrans(fs, fs1, fs2, {d, ino});
  }

  lemma AddEntryShape(fs: FS, d: nat, name: Name, ino: nat)
    requires OwnInv(fs) && DirIn(fs, d) && !AddFails(fs, d) && !AddLeaks(fs, d)
    ensures var after := AddEntry(fs, d, name, ino).0;
      && after.used == fs.used + TakenFor(fs, d) && after.iused == fs.iused && after.lay == fs.lay
      && TakenFor(fs, d) !! fs.used && |TakenFor(fs, d)| <= 1
      && after.inodes == fs.inodes[d := after.inodes[d]]
      && after.inodes[d].nlink == fs.inodes[d].nlink && after.inodes[d].mode == fs.inodes[d].mode
  {
    assert fs.used + {} == fs.used && fs.inodes[d := fs.inodes[d]] == fs.inodes;
  }

  lemma RemovedAgain(recs: seq<Rec>, name: Name, ino: nat)
    requires AllTerminated(recs) && ino != 0 && FirstMatch(recs, name) == |recs|
    ensures var added := AddRec(recs, Rec(ino, Padded(name)));
      && (FirstMatch(added, name) < |added| <==> |name| < MAX_FILENAME_LEN)
      && (|name| < MAX_FILENAME_LEN ==> SameUsed(recs, RemoveRec(added, name)))
  {
    AddThenLookup(recs, name, ino);
    if |name| < MAX_FILENAME_LEN {
      AddThenRemove(recs, name, ino);
    }
  }

  /** fs1 is fs with a new inode ino, owning the blocks of own, entered in directory d under name. */
  ghost predicate Born(fs: FS, fs1: FS, d: nat, name: Name, ino: nat, own: set<nat>, taken: set<nat>) {
    && OwnInv(fs) && OwnInv(fs1) && DirIn(fs, d) && DirIn(fs1, d) && DirOk(fs, d) && DirOk(fs1, d) && fs1.lay == fs.lay
    && ino >= 1 && ino !in fs.inodes && ino - 1 !in fs.iused && ino in fs1.inodes && BlocksOf(fs1.inodes[ino]) == own
    && own !! fs.used && own !! taken && |taken| <= 1
    && fs1.used == fs.used + own + taken && fs1.iused == fs.iused + {ino - 1}
    && fs1.inodes == fs.inodes[d := fs1.inodes[d]][ino := fs1.inodes[ino]] && fs1.inodes[d].mode == fs.inodes[d].mode
    && DirRecs(fs1, d) == AddRec(DirRecs(fs, d), Rec(ino, Padded(name)))
  }

  lemma EntryRemoved(fs: FS, fs1: FS, d: nat, name: Name, ino: nat) returns (fs2: FS)
    requires OwnInv(fs) && OwnInv(fs1) && DirIn(fs, d) && DirIn(fs1, d) && ino != 0 && AllTerminated(DirRecs(fs, d))
    requires DirRecs(fs1, d) == AddRec(DirRecs(fs, d), Rec(ino, Padded(name)))
    requires FirstMatch(DirRecs(fs, d), name) == |DirRecs(fs, d)| && |name| < MAX_FILENAME_LEN
    ensures RemoveEntry(fs1, d, name) == (fs2, 0) && OwnInv(fs2) && fs2 == fs1.(disk := fs2.disk)
    ensures SameUsed(DirRecs(fs, d), DirRecs(fs2, d))
  {
    fs2 := RemoveEntry(fs1, d, name).0;
    RemoveEntryKeeps(fs1, d, name);
    RemoveEntryRecs(fs1, d, name);
    RemovedAgain(DirRecs(fs, d), name, ino);
  }

  lemma BooksRestored(fs: FS, fs1: FS, fs2: FS, d: nat, name: Name, ino: nat, own: set<nat>, taken: set<nat>)
    requires Born(fs, fs1, d, name, ino, own, taken) && OwnInv(fs2) && fs2 == fs1.(disk := fs2.disk) && ino != ROOT_INO
    requires SameUsed(DirRecs(fs, d), DirRecs(fs2, d))
    ensures BooksBack(fs, Release(fs2, ino), d, taken)
  {
    var fs3 := Release(fs2, ino);
    assert fs3.used == fs.used + taken;
    assert fs3.iused == fs.iused;
    assert DirRecs(fs3, d) == DirRecs(fs2, d);
  }

  /** Removing the entry and releasing the inode undoes a birth, but for the taken block. */
  lemma Unborn(fs: FS, fs1: FS, d: nat, name: Name, ino: nat, own: set<nat>, taken: set<nat>) returns (fs2: FS)
    requires Born(fs, fs1, d, name, ino, own, taken) && AllTerminated(DirRecs(fs, d))
    requires FirstMatch(DirRecs(fs, d), name) == |DirRecs(fs, d)| && |name| < MAX_FILENAME_LEN
    ensures RemoveEntry(fs1, d, name) == (fs2, 0) && ino in fs2.inodes && fs2 == fs1.(disk := fs2.disk) && OwnInv(fs2)
    ensures BooksBack(fs, Release(fs2, ino), d, taken)
  {
    fs2 := EntryRemoved(fs, fs1, d, name, ino);
    BooksRestored(fs, fs1, fs2, d, name, ino, own, taken);
  }

  lemma NotFound(fs: FS, fs1: FS, d: nat, name: Name, ino: nat, own: set<nat>, taken: set<nat>)
    requires Born(fs, fs1, d, name, ino, own, taken) && AllTerminated(DirRecs(fs, d))
    requires FirstMatch(DirRecs(fs, d), name) == |DirRecs(fs, d)| && |name| >= MAX_FILENAME_LEN
    ensures RemoveEntry(fs1, d, name) == (fs1, -ENOENT)
  {
    NotAmong(fs1, d, name, DirRecs(fs, d), ino);
  }

  lemma NotAmong(fs1: FS, d: nat, name: Name, recs: seq<Rec>, ino: nat)
    requires OwnInv(fs1) && DirIn(fs1, d) && DirRecs(fs1, d) == AddRec(recs, Rec(ino, Padded(name))) && ino != 0
    requires AllTerminated(recs) && FirstMatch(recs, name) == |recs| && |name| >= MAX_FILENAME_LEN
    ensures RemoveEntry(fs1, d, name) == (fs1, -ENOENT)
  {
    RemovedAgain(recs, name, ino);
  }

  // ---- create and unlink ----

  lemma CreateAdds(fs: FS, d: nat, name: Name, ino: nat) returns (fs1: FS)
    requires OwnInv(fs) && DirIn(fs, d) && FreeInode(fs) == Some(ino) && !AddFails(fs, d) && !AddLeaks(fs, d)
    ensures fs1 == AddEntry(fs.(iused := fs.iused + {ino - 1}), d, name, ino).0 && OwnInv(fs1) && fs1.lay == fs.lay
    ensures AddEntry(fs.(iused := fs.iused + {ino - 1}), d, name, ino).1 == 0
    ensures fs1.used == fs.used + TakenFor(fs, d) && fs1.iused == fs.iused + {ino - 1} && |TakenFor(fs, d)| <= 1
    ensures d in fs1.inodes && fs1.inodes == fs.inodes[d := fs1.inodes[d]]
    ensures fs1.inodes[d].nlink == fs.inodes[d].nlink && fs1.inodes[d].mode == fs.inodes[d].mode
    ensures DirRecs(fs1, d) == AddRec(DirRecs(fs, d), Rec(ino, Padded(name)))
  {
    var mid := fs.(iused := fs.iused + {ino - 1});
    FreeInodeIsNew(fs);
    MarkUsed(fs, fs.used, mid.iused, {});
    SameRecs(fs, mid, d);
    AddEntryShape(mid, d, name, ino);
    AddEntryRecs(mid, d, name, ino);
    fs1 := AddEntry(mid, d, name, ino).0;
  }

  lemma CreateBears(fs: FS, d: nat, name: Name, cred: Cred) returns (fs1: FS, ino: nat)
    requires OwnInv(fs) && DirIn(fs, d) && !IsDir(cred.mode) && !Fails(fs, d) && !AddLeaks(fs, d)
    ensures fs1 == Create(fs, d, name, cred).0 && ino == FreeInode(fs).value
    ensures Born(fs, fs1, d, name, ino, {}, TakenFor(fs, d))
    ensures fs1.inodes[d].nlink == fs.inodes[d].nlink
  {
    ino := FreeInode(fs).value;
    CreateSim(fs, d, name, cred);
    FreeInodeIsNew(fs);
    var added := CreateAdds(fs, d, name, ino);
    fs1 := FileBorn(fs, added, d, name, ino, Inode(cred.mode, cred.uid, cred.gid, 1, 0, 0, NoPtrs()));
  }

  lemma FileBorn(fs: FS, added: FS, d: nat, name: Name, ino: nat, n: Inode) returns (fs1: FS)
    requires OwnInv(fs) && OwnInv(added) && DirIn(fs, d) && d in added.inodes && added.lay == fs.lay
    requires ino >= 1 && ino !in fs.inodes && ino - 1 !in fs.iused && n.count == 0
    requires OwnInv(added.(inodes := added.inodes[ino := n]))
    requires added.used == fs.used + TakenFor(fs, d) && added.iused == fs.iused + {ino - 1} && |TakenFor(fs, d)| <= 1
    requires added.inodes == fs.inodes[d := added.inodes[d]] && added.inodes[d].mode == fs.inodes[d].mode
    requires DirRecs(added, d) == AddRec(DirRecs(fs, d), Rec(ino, Padded(name)))
    ensures fs1 == added.(inodes := added.inodes[ino := n]) && Born(fs, fs1, d, name, ino, {}, TakenFor(fs, d))
    ensures fs1.inodes[d] == added.inodes[d]
  {
    fs1 := added.(inodes := added.inodes[ino := n]);
    assert fs.used + {} + TakenFor(fs, d) == fs.used + TakenFor(fs, d);
    assert BlocksOf(n) == {};
    assert DirRecs(fs1, d) == DirRecs(added, d);
  }

  lemma NamedUnlinked(fs: FS, d: nat, name: Name, cred: Cred) returns (fs1: FS, ino: nat, fs2: FS)
    requires OwnInv(fs) && DirIn(fs, d) && AllTerminated(DirRecs(fs, d)) && !IsDir(cred.mode)
    requires FirstMatch(DirRecs(fs, d), name) == |DirRecs(fs, d)| && !Fails(fs, d) && !AddLeaks(fs, d)
    ensures fs1 == Create(fs, d, name, cred).0 && ino == FreeInode(fs).value && DirOk(fs1, d) && ino in fs1.inodes
    ensures Unlink(fs1, d, name, ino) == (fs2, if |name| < MAX_FILENAME_LEN then 0 else -ENOENT)
    ensures if |name| < MAX_FILENAME_LEN then BooksBack(fs, fs2, d, TakenFor(fs, d))
        && fs2.inodes[d].nlink == fs.inodes[d].nlink
            else fs2 == fs1
  {
    fs1, ino := CreateBears(fs, d, name, cred);
    if |name| < MAX_FILENAME_LEN {
      var removed := Unborn(fs, fs1, d, name, ino, {}, TakenFor(fs, d));
      fs2 := Release(removed, ino);
    } else {
      NotFound(fs, fs1, d, name, ino, {}, TakenFor(fs, d));
      fs2 := fs1;
    }
  }

  /** A create that leaks leaves a name no unlink finds. */
  lemma LeakedUnlinked(fs: FS, d: nat, name: Name, cred: Cred) returns (fs1: FS, ino: nat)
    requires OwnInv(fs) && DirIn(fs, d) && !IsDir(cred.mode)
    requires FirstMatch(DirRecs(fs, d), name) == |DirRecs(fs, d)| && !Fails(fs, d) && AddLeaks(fs, d)
    ensures fs1 == Create(fs, d, name, cred).0 && ino == FreeInode(fs).value && DirOk(fs1, d) && ino in fs1.inodes
    ensures Unlink(fs1, d, name, ino) == (fs1, -ENOENT)
  {
    CreateSim(fs, d, name, cred);
    FreeInodeIsNew(fs);
    fs1, ino := Create(fs, d, name, cred).0, FreeInode(fs).value;
    NsUpdateSame(fs, d);
    NsUpdateSame(fs1, d);
    assert ino in NsOf(fs1).live;
  }

  lemma CreateUnlinkFrame(fs: FS, d: nat, name: Name, cred: Cred)
    requires OwnInv(fs) && DirIn(fs, d) && !IsDir(cred.mode) && FreeInode(fs).Some?
    requires DirOk(Create(fs, d, name, cred).0, d) && FreeInode(fs).value in Create(fs, d, name, cred).0.inodes
    ensures Frame(fs, Unlink(Create(fs, d, name, cred).0, d, name, FreeInode(fs).value).0, {d})
  {
    var fs1, ino := Create(fs, d, name, cred).0, FreeInode(fs).value;
    FreeInodeIsNew(fs);
    var extra, lost := SomeAccount(fs);
    CreateKeeps(fs, d, name, cred, extra, lost);
    extra, lost := SomeAccount(fs1);
    UnlinkKeeps(fs1, d, name, ino, extra, lost);
    UndoneFrame(fs, fs1, Unlink(fs1, d, name, ino).0, d, ino);
  }

  /** create then unlink of the same name, when create returns 0: everything comes back, but for a block the directory
      grew by, exactly when the name fits a record and the directory was not full to its last pointer; otherwise unlink
      does not find the name and changes nothing. */
  lemma CreateUnlink(fs: FS, d: nat, name: Name, cred: Cred) returns (fs1: FS, ino: nat, fs2: FS)
    requires OwnInv(fs) && DirIn(fs, d) && AllTerminated(DirRecs(fs, d)) && !IsDir(cred.mode)
    requires FirstMatch(DirRecs(fs, d), name) == |DirRecs(fs, d)| && !Fails(fs, d)
    ensures fs1 == Create(fs, d, name, cred).0 && ino == FreeInode(fs).value && DirOk(fs1, d) && ino in fs1.inodes
    ensures Unlink(fs1, d, name, ino) == (fs2, if |name| < MAX_FILENAME_LEN && !AddLeaks(fs, d) then 0 else -ENOENT)
    ensures if |name| < MAX_FILENAME_LEN && !AddLeaks(fs, d)
            then Restored(fs, fs2, d, TakenFor(fs, d)) && fs2.inodes[d].nlink == fs.inodes[d].nlink
            else fs2 == fs1
  {
    if AddLeaks(fs, d) {
      fs1, ino := LeakedUnlinked(fs, d, name, cred);
      fs2 := fs1;
    } else {
      fs1, ino, fs2 := NamedUnlinked(fs, d, name, cred);
      CreateUnlinkFrame(fs, d, name, cred);
    }
  }

  // ---- mkdir and rmdir ----

  lemma MkdirAdds(fs: FS, d: nat, name: Name, ino: nat, b: nat) returns (fs1: FS, taken: set<nat>)
    requires OwnInv(fs) && DirIn(fs, d) && FreeInode(fs) == Some(ino) && FreeBlock(fs) == Some(b)
    requires !MkdirFails(fs, d) && !MkdirLeaks(fs, d)
    ensures var mid := Prepared(fs, ino, b, d);
      taken == TakenFor(mid, d) && (fs1, 0) == AddEntry(mid, d, name, ino)
    ensures OwnInv(fs1) && fs1.lay == fs.lay
    ensures fs1.used == fs.used + {b} + taken && fs1.iused == fs.iused + {ino - 1} && |taken| <= 1
    ensures b !in fs.used && taken !! {b}
    ensures d in fs1.inodes && fs1.inodes == fs.inodes[d := fs1.inodes[d]]
    ensures fs1.inodes[d].nlink == fs.inodes[d].nlink && fs1.inodes[d].mode == fs.inodes[d].mode
    ensures DirRecs(fs1, d) == AddRec(DirRecs(fs, d), Rec(ino, Padded(name)))
  {
    var mid := Prepared(fs, ino, b, d);
    FreeInodeIsNew(fs);
    PreparedNs(fs, ino, b, d);
    NsUpdateSame(fs, d);
    NsUpdateSame(mid, d);
    AddEntryShape(mid, d, name, ino);
    AddEntryRecs(mid, d, name, ino);
    fs1, taken := AddEntry(mid, d, name, ino).0, TakenFor(mid, d);
  }

  lemma DirBorn(fs: FS, added: FS, d: nat, name: Name, ino: nat, b: nat, taken: set<nat>, cred: Cred) returns (fs1: FS)
    requires OwnInv(fs) && OwnInv(added) && DirIn(fs, d) && d in added.inodes && added.lay == fs.lay
    requires ino >= 1 && ino !in fs.inodes && ino - 1 !in fs.iused && b !in fs.used && taken !! {b}
    requires OwnInv(Installed(added, ino, NewDir(cred, b), d))
    requires added.used == fs.used + {b} + taken && added.iused == fs.iused + {ino - 1} && |taken| <= 1
    requires added.inodes == fs.inodes[d := added.inodes[d]] && added.inodes[d].mode == fs.inodes[d].mode
    requires DirRecs(added, d) == AddRec(DirRecs(fs, d), Rec(ino, Padded(name)))
    ensures fs1 == Installed(added, ino, NewDir(cred, b), d) && Born(fs, fs1, d, name, ino, {b}, taken)
    ensures fs1.inodes[d] == IncLink(added.inodes[d])
  {
    var n := NewDir(cred, b);
    fs1 := Installed(added, ino, n, d);
    OneBlock(n, b);
    InstalledInodes(fs, added, ino, n, d);
    InstalledDirRecs(added, ino, n, d);
  }

  lemma InstalledInodes(fs: FS, added: FS, ino: nat, n: Inode, d: nat)
    requires d in fs.inodes && d in added.inodes && ino !in fs.inodes
    requires added.inodes == fs.inodes[d := added.inodes[d]]
    ensures Installed(added, ino, n, d).inodes == fs.inodes[d := IncLink(added.inodes[d])][ino := n]
  {
  }

  /** Installing a new inode leaves the records of the directory it is entered in. */
  lemma InstalledDirRecs(added: FS, ino: nat, n: Inode, d: nat)
    requires OwnInv(added) && DirIn(added, d) && OwnInv(Installed(added, ino, n, d)) && ino != d
    ensures DirIn(Installed(added, ino, n, d), d)
    ensures DirRecs(Installed(added, ino, n, d), d) == DirRecs(added, d)
  {
    assert Installed(added, ino, n, d).inodes[d].ptrs == added.inodes[d].ptrs;
  }

  lemma OneBlock(n: Inode, b: nat)
    requires n.count == 1 && n.ptrs[0] == b
    ensures BlocksOf(n) == {b}
  {
    assert forall x :: x in BlocksOf(n) <==> x == b;
  }

  lemma MkdirIs(fs: FS, added: FS, d: nat, name: Name, cred: Cred, ino: nat, b: nat) returns (fs1: FS)
    requires OwnInv(fs) && DirIn(fs, d) && FreeInode(fs) == Some(ino) && FreeBlock(fs) == Some(b)
    requires AddEntry(Prepared(fs, ino, b, d), d, name, ino) == (added, 0) && d in added.inodes
    ensures fs1 == Installed(added, ino, NewDir(cred, b), d) && OwnInv(fs1) && Mkdir(fs, d, name, cred) == (fs1, 0)
  {
    fs1 := MkdirSim(fs, d, name, cred);
  }

  lemma MkdirBears(fs: FS, d: nat, name: Name, cred: Cred) returns (fs1: FS, ino: nat, taken: set<nat>)
    requires OwnInv(fs) && DirIn(fs, d) && !MkdirFails(fs, d) && !MkdirLeaks(fs, d)
    ensures fs1 == Mkdir(fs, d, name, cred).0 && ino == FreeInode(fs).value
    ensures taken == TakenFor(Prepared(fs, ino, FreeBlock(fs).value, d), d)
    ensures Born(fs, fs1, d, name, ino, {FreeBlock(fs).value}, taken)
    ensures fs1.inodes[d].nlink == (fs.inodes[d].nlink + 1) % WORD
    ensures ino != d && ino != ROOT_INO && IsDir(fs1.inodes[ino].mode)
  {
    var b, added := FreeBlock(fs).value, fs;
    ino := FreeInode(fs).value;
    FreeInodeIsNew(fs);
    added, taken := MkdirAdds(fs, d, name, ino, b);
    var _ := MkdirIs(fs, added, d, name, cred, ino, b);
    fs1 := DirBorn(fs, added, d, name, ino, b, taken, cred);
  }

  lemma NewDirIsEmpty(fs: FS, d: nat, name: Name, cred: Cred)
    requires OwnInv(fs) && DirIn(fs, d) && !MkdirFails(fs, d)
    ensures var fs1, ino := Mkdir(fs, d, name, cred).0, FreeInode(fs).value;
      OwnInv(fs1) && ino in fs1.inodes && EmptyDir(DirRecs(fs1, ino))
  {
    var fs1 := MkdirSim(fs, d, name, cred);
    var ino := FreeInode(fs).value;
    FreeInodeIsNew(fs);
    NsUpdateSame(fs1, ino);
    DotRecsEmpty(ino, d);
  }

  lemma DotRecsEmpty(ino: nat, parent: nat)
    ensures EmptyDir(DotRecs(ino, parent))
  {
    DotsAreDots(ino);
    DotsAreDots(parent);
  }

  lemma Relinked(fs: FS, after: FS, d: nat, taken: set<nat>) returns (fs2: FS)
    requires BooksBack(fs, after, d, taken) && after.inodes[d].nlink == (fs.inodes[d].nlink + 1) % WORD
    requires fs.inodes[d].nlink < WORD
    ensures fs2 == after.(inodes := after.inodes[d := DropLink(after.inodes[d])])
    ensures BooksBack(fs, fs2, d, taken) && fs2.inodes[d].nlink == fs.inodes[d].nlink
  {
    fs2 := after.(inodes := after.inodes[d := DropLink(after.inodes[d])]);
    assert DirRecs(fs2, d) == DirRecs(after, d);
    assert ((fs.inodes[d].nlink + 1) % WORD + (WORD - 1)) % WORD == fs.inodes[d].nlink;
  }

  lemma NamedRemoved(fs: FS, d: nat, name: Name, cred: Cred) returns (fs1: FS, ino: nat, fs2: FS)
    requires OwnInv(fs) && DirIn(fs, d) && AllTerminated(DirRecs(fs, d)) && fs.inodes[d].nlink < WORD
    requires FirstMatch(DirRecs(fs, d), name) == |DirRecs(fs, d)| && !MkdirFails(fs, d) && !MkdirLeaks(fs, d)
    ensures fs1 == Mkdir(fs, d, name, cred).0 && ino == FreeInode(fs).value && DirOk(fs1, d) && DirOk(fs1, ino)
    ensures ino != d && IsDir(fs1.inodes[d].mode)
    ensures Rmdir(fs1, d, name, ino) == (fs2, if |name| < MAX_FILENAME_LEN then 0 else -ENOENT)
    ensures if |name| < MAX_FILENAME_LEN
            then BooksBack(fs, fs2, d, TakenFor(Prepared(fs, ino, FreeBlock(fs).value, d), d))
              && fs2.inodes[d].nlink == fs.inodes[d].nlink
            else fs2 == fs1
  {
    var b, taken := FreeBlock(fs).value, {};
    fs1, ino, taken := MkdirBears(fs, d, name, cred);
    NewDirIsEmpty(fs, d, name, cred);
    if |name| < MAX_FILENAME_LEN {
      var removed := Unborn(fs, fs1, d, name, ino, {b}, taken);
      fs2 := Relinked(fs, Release(removed, ino), d, taken);
    } else {
      NotFound(fs, fs1, d, name, ino, {b}, taken);
      fs2 := fs1;
    }
  }

  lemma LeakedRemoved(fs: FS, d: nat, name: Name, cred: Cred) returns (fs1: FS, ino: nat)
    requires OwnInv(fs) && DirIn(fs, d)
    requires FirstMatch(DirRecs(fs, d), name) == |DirRecs(fs, d)| && !MkdirFails(fs, d) && MkdirLeaks(fs, d)
    ensures fs1 == Mkdir(fs, d, name, cred).0 && ino == FreeInode(fs).value && DirOk(fs1, d) && DirOk(fs1, ino)
    ensures ino != d
    ensures Rmdir(fs1, d, name, ino) == (fs1, -ENOENT)
  {
    ino := FreeInode(fs).value;
    fs1 := MkdirSim(fs, d, name, cred);
    FreeInodeIsNew(fs);
    NewDirIsEmpty(fs, d, name, cred);
    NsUpdateSame(fs, d);
    LeakedRecs(fs, fs1, d, ino);
  }

  lemma LeakedRecs(fs: FS, fs1: FS, d: nat, ino: nat)
    requires OwnInv(fs) && OwnInv(fs1) && DirIn(fs, d) && ino !in fs.inodes
    requires NsOf(fs1) == NsInstalled(NsOf(fs), ino, d)
    ensures DirIn(fs1, d) && DirIn(fs1, ino) && ino != d && DirRecs(fs1, d) == DirRecs(fs, d)
  {
    assert d in NsOf(fs1).dirs && ino in NsOf(fs1).dirs;
    NsUpdateSame(fs1, d);
    NsUpdateSame(fs, d);
  }

  lemma MkdirRmdirFrame(fs: FS, d: nat, name: Name, cred: Cred)
    requires OwnInv(fs) && DirIn(fs, d) && FreeInode(fs).Some? && FreeInode(fs).value != d
    requires var fs1, ino := Mkdir(fs, d, name, cred).0, FreeInode(fs).value;
      DirOk(fs1, d) && DirOk(fs1, ino) && IsDir(fs1.inodes[d].mode)
    ensures Frame(fs, Rmdir(Mkdir(fs, d, name, cred).0, d, name, FreeInode(fs).value).0, {d})
  {
    var fs1, ino := Mkdir(fs, d, name, cred).0, FreeInode(fs).value;
    FreeInodeIsNew(fs);
    var extra, lost := SomeAccount(fs);
    MkdirKeeps(fs, d, name, cred, extra, lost);
    extra, lost := SomeAccount(fs1);
    RmdirKeeps(fs1, d, name, ino, extra, lost);
    UndoneFrame(fs, fs1, Rmdir(fs1, d, name, ino).0, d, ino);
  }

  /** mkdir then rmdir of the same name, likewise; the parent's link count comes back too. */
  lemma MkdirRmdir(fs: FS, d: nat, name: Name, cred: Cred) returns (fs1: FS, ino: nat, fs2: FS)
    requires OwnInv(fs) && DirIn(fs, d) && AllTerminated(DirRecs(fs, d)) && fs.inodes[d].nlink < WORD
    requires FirstMatch(DirRecs(fs, d), name) == |DirRecs(fs, d)| && !MkdirFails(fs, d)
    ensures fs1 == Mkdir(fs, d, name, cred).0 && ino == FreeInode(fs).value && DirOk(fs1, d) && DirOk(fs1, ino)
    ensures ino != d
    ensures Rmdir(fs1, d, name, ino) == (fs2, if |name| < MAX_FILENAME_LEN && !MkdirLeaks(fs, d) then 0 else -ENOENT)
    ensures if |name| < MAX_FILENAME_LEN && !MkdirLeaks(fs, d)
            then Restored(fs, fs2, d, TakenFor(Prepared(fs, ino, FreeBlock(fs).value, d), d))
              && fs2.inodes[d].nlink == fs.inodes[d].nlink
            else fs2 == fs1
  {
    if MkdirLeaks(fs, d) {
      fs1, ino := LeakedRemoved(fs, d, name, cred);
      fs2 := fs1;
    } else {
      fs1, ino, fs2 := NamedRemoved(fs, d, name, cred);
      MkdirRmdirFrame(fs, d, name, cred);
    }
  }
}
