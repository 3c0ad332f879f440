/** The blocks, pointers and bitmaps implement the namespace: each operation's effect on the records of every
    directory. */
module Simulation {
  import opened Bytes
  import opened Records
  import opened Directory
  import opened State
  import opened Steps
  import opened Ownership
  import opened Accounting
  import opened Namespace

  ghost predicate DirIn(fs: FS, d: int) {
    d in fs.inodes && IsDir(fs.inodes[d].mode)
  }

  /** The namespace a filesystem stands for. */
  ghost function NsOf(fs: FS): (ns: Ns)
    requires OwnInv(fs)
    ensures forall d :: d in ns.dirs <==> DirIn(fs, d)
    ensures ns.nlink.Keys == ns.dirs.Keys && ns.live == fs.inodes.Keys
  {
    Ns(fs.inodes.Keys,
       map d | d in fs.inodes && IsDir(fs.inodes[d].mode) :: DirRecs(fs, d),
       map d | d in fs.inodes && IsDir(fs.inodes[d].mode) :: fs.inodes[d].nlink)
  }

  // ---- records before and after ----

  lemma FrameRecs(fs: FS, after: FS, touched: set<nat>, e: nat)
    requires OwnInv(fs) && OwnInv(after) && Frame(fs, after, touched) && e in fs.inodes && e !in touched
    ensures e in after.inodes && after.inodes[e] == fs.inodes[e] && DirRecs(after, e) == DirRecs(fs, e)
  {
    assert SameFor(fs, after, e);
    forall r | 0 <= r < 3 * fs.inodes[e].count
      ensures DirRecs(after, e)[r] == DirRecs(fs, e)[r]
    {
      assert Owns(fs, e, r / 3, fs.inodes[e].ptrs[r / 3]);
    }
  }

  lemma StoreRecRecs(fs: FS, d: nat, r: nat, rec: Rec)
    requires OwnInv(fs) && d in fs.inodes && r < 3 * fs.inodes[d].count && rec.ino < WORD
    ensures RecsOf(StoreRec(fs.disk, fs.inodes[d], r, rec), fs.inodes[d]) == DirRecs(fs, d)[r := rec]
  {
    var n := fs.inodes[d];
    var disk := StoreRec(fs.disk, n, r, rec);
    var b := n.ptrs[r / 3];
    forall q | 0 <= q < 3 * n.count
      ensures RecsOf(disk, n)[q] == DirRecs(fs, d)[r := rec][q]
    {
      assert Owns(fs, d, r / 3, b) && Owns(fs, d, q / 3, n.ptrs[q / 3]);
      GetPut(fs.disk[b], r % 3, rec, q % 3);
    }
  }

  lemma FreshBlockRecs(rec: Rec, j: nat)
    requires j < 3 && rec.ino < WORD
    ensures GetRec(FreshBlock(rec), j) == NewBlockRecs(rec)[j]
  {
    GetPut(ZeroBlock(), 0, rec, j);
    ZeroBlockRecs(j);
  }

  lemma GrownRecs(fs: FS, d: nat, b: nat, rec: Rec)
    requires OwnInv(fs) && DirIn(fs, d) && rec.ino < WORD
    requires fs.lay.dataStart <= b < fs.lay.blockTotal && b !in fs.used
    ensures OwnInv(Grown(fs, d, b, FreshBlock(rec)))
    ensures DirRecs(Grown(fs, d, b, FreshBlock(rec)), d)
         == if fs.inodes[d].count < BLOCK_PER_FILE then DirRecs(fs, d) + NewBlockRecs(rec) else DirRecs(fs, d)
  {
    var n, after := fs.inodes[d], Grown(fs, d, b, FreshBlock(rec));
    GrowKeeps(fs, d, b, FreshBlock(rec));
    var was, recs := DirRecs(fs, d), DirRecs(after, d);
    forall q | 0 <= q < |recs|
      ensures recs[q] == if q < |was| then was[q] else NewBlockRecs(rec)[q - |was|]
    {
      if q < |was| {
        assert Owns(fs, d, q / 3, n.ptrs[q / 3]);
      } else {
        FreshBlockRecs(rec, q % 3);
      }
    }
  }

  lemma AddEntryRecs(fs: FS, d: nat, name: Name, ino: nat)
    requires OwnInv(fs) && DirIn(fs, d) && ino < WORD
    ensures var (after, ret) := AddEntry(fs, d, name, ino);
      && OwnInv(after) && d in after.inodes
      && DirRecs(after, d) == (if ret < 0 || AddLeaks(fs, d) then DirRecs(fs, d)
           else AddRec(DirRecs(fs, d), Rec(ino, Padded(name))))
      && after.inodes[d].nlink == fs.inodes[d].nlink && after.inodes[d].mode == fs.inodes[d].mode
  {
    AddEntryKeeps(fs, d, name, ino);
    var rec := Rec(ino, Padded(name));
    var r := FirstFree(DirRecs(fs, d));
    if r < 3 * fs.inodes[d].count {
      StoreRecRecs(fs, d, r, rec);
    } else if FreeBlock(fs).Some? {
      FreeBlockUnowned(fs);
      GrownRecs(fs, d, FreeBlock(fs).value, rec);
    }
  }

  lemma RemoveEntryRecs(fs: FS, d: nat, name: Name)
    requires OwnInv(fs) && d in fs.inodes
    ensures var (after, ret) := RemoveEntry(fs, d, name);
      && OwnInv(after) && after.inodes == fs.inodes
      && DirRecs(after, d) == RemoveRec(DirRecs(fs, d), name)
      && (ret < 0 <==> FirstMatch(DirRecs(fs, d), name) == |DirRecs(fs, d)|)
  {
    RemoveEntryKeeps(fs, d, name);
    var r := FirstMatch(DirRecs(fs, d), name);
    if r < 3 * fs.inodes[d].count {
      StoreRecRecs(fs, d, r, ZeroRec());
    }
  }

  // ---- what each primitive change means for the namespace ----

  ghost predicate Describes(ns: Ns, fs: FS)
    requires OwnInv(fs)
  {
    && ns.live == fs.inodes.Keys
    && (forall d :: d in ns.dirs <==> DirIn(fs, d)) && (forall d :: d in ns.nlink <==> DirIn(fs, d))
    && forall d :: DirIn(fs, d) ==> ns.dirs[d] == DirRecs(fs, d) && ns.nlink[d] == fs.inodes[d].nlink
  }

  lemma NsOfIs(ns: Ns, fs: FS)
    requires OwnInv(fs) && Describes(ns, fs)
    ensures NsOf(fs) == ns
  {
    var m := NsOf(fs);
    assert m.dirs.Keys == ns.dirs.Keys && forall d :: d in ns.dirs ==> m.dirs[d] == ns.dirs[d];
    assert m.nlink.Keys == ns.nlink.Keys && forall d :: d in ns.nlink ==> m.nlink[d] == ns.nlink[d];
  }

  /** Directories outside touched keep their records; when all inodes stay, that is the whole namespace. */
  lemma OtherDirs(fs: FS, after: FS, touched: set<nat>)
    requires OwnInv(fs) && OwnInv(after) && Frame(fs, after, touched)
    ensures forall e :: DirIn(fs, e) && e !in touched ==>
              DirIn(after, e) && DirRecs(after, e) == DirRecs(fs, e) && after.inodes[e].nlink == fs.inodes[e].nlink
  {
    forall e: nat | DirIn(fs, e) && e !in touched
      ensures DirIn(after, e) && DirRecs(after, e) == DirRecs(fs, e) && after.inodes[e].nlink == fs.inodes[e].nlink
    {
      FrameRecs(fs, after, touched, e);
    }
  }

  lemma SameNs(fs: FS, after: FS)
    requires OwnInv(fs) && OwnInv(after) && Frame(fs, after, {}) && after.inodes == fs.inodes
    ensures NsOf(after) == NsOf(fs)
  {
    OtherDirs(fs, after, {});
    NsOfIs(NsOf(fs), after);
  }

  /** A change to the records of one directory. */
  lemma OneDirNs(fs: FS, after: FS, d: nat, recs: seq<Rec>)
    requires OwnInv(fs) && OwnInv(after) && Frame(fs, after, {d}) && DirIn(fs, d) && DirIn(after, d)
    requires after.inodes.Keys == fs.inodes.Keys
    requires DirRecs(after, d) == recs && after.inodes[d].nlink == fs.inodes[d].nlink
    ensures NsOf(after) == NsOf(fs).(dirs := NsOf(fs).dirs[d := recs])
  {
    OtherDirs(fs, after, {d});
    forall e | e in after.inodes && e != d
      ensures DirIn(after, e) <==> DirIn(fs, e)
    {
      FrameRecs(fs, after, {d}, e);
    }
    NsOfIs(NsOf(fs).(dirs := NsOf(fs).dirs[d := recs]), after);
  }

  lemma NsUpdateSame(fs: FS, d: nat)
    requires OwnInv(fs) && DirIn(fs, d)
    ensures NsOf(fs).dirs[d := DirRecs(fs, d)] == NsOf(fs).dirs && NsOf(fs).dirs[d] == DirRecs(fs, d)
  {
  }

  lemma AddEntryNs(fs: FS, d: nat, name: Name, ino: nat) returns (after: FS)
    requires OwnInv(fs) && DirIn(fs, d) && ino < WORD
    ensures after == AddEntry(fs, d, name, ino).0 && OwnInv(after) && DirIn(after, d)
    ensures NsOf(after) == if AddFails(fs, d) || AddLeaks(fs, d) then NsOf(fs) else Enter(NsOf(fs), d, name, ino)
  {
    after := AddEntry(fs, d, name, ino).0;
    AddEntryKeeps(fs, d, name, ino);
    AddEntryRecs(fs, d, name, ino);
    OneDirNs(fs, after, d, DirRecs(after, d));
    NsUpdateSame(fs, d);
  }

  lemma RemoveEntryNs(fs: FS, d: nat, name: Name)
    requires OwnInv(fs) && DirIn(fs, d)
    ensures var (after, ret) := RemoveEntry(fs, d, name);
      OwnInv(after) && DirIn(after, d) && NsOf(after) == Leave(NsOf(fs), d, name) && after.inodes == fs.inodes
  {
    var after := RemoveEntry(fs, d, name).0;
    RemoveEntryKeeps(fs, d, name);
    RemoveEntryRecs(fs, d, name);
    OneDirNs(fs, after, d, DirRecs(after, d));
  }

  lemma NewFileNs(fs: FS, ino: nat, n: Inode)
    requires OwnInv(fs) && ino !in fs.inodes && !IsDir(n.mode)
    requires OwnInv(fs.(inodes := fs.inodes[ino := n]))
    ensures NsOf(fs.(inodes := fs.inodes[ino := n])) == NsOf(fs).(live := NsOf(fs).live + {ino})
  {
    NsOfIs(NsOf(fs).(live := NsOf(fs).live + {ino}), fs.(inodes := fs.inodes[ino := n]));
  }

  lemma ReleaseNs(fs: FS, i: nat)
    requires OwnInv(fs) && i in fs.inodes && i != ROOT_INO
    ensures OwnInv(Release(fs, i))
    ensures var ns := NsOf(fs); NsOf(Release(fs, i)) == Ns(ns.live - {i}, ns.dirs - {i}, ns.nlink - {i})
  {
    ReleaseInode(fs, i);
    OtherDirs(fs, Release(fs, i), {i});
    NsOfIs(Ns(NsOf(fs).live - {i}, NsOf(fs).dirs - {i}, NsOf(fs).nlink - {i}), Release(fs, i));
  }

  lemma SetLinkNs(fs: FS, d: nat, n: Inode) returns (after: FS)
    requires OwnInv(fs) && DirIn(fs, d) && n == fs.inodes[d].(nlink := n.nlink)
    ensures after == fs.(inodes := fs.inodes[d := n]) && OwnInv(after)
    ensures NsOf(after) == NsOf(fs).(nlink := NsOf(fs).nlink[d := n.nlink])
  {
    after := fs.(inodes := fs.inodes[d := n]);
    SetAttrs(fs, d, n);
    NsOfIs(NsOf(fs).(nlink := NsOf(fs).nlink[d := n.nlink]), after);
  }

  function NsRelink(ns: Ns, d: nat, delta: nat): Ns
    requires d in ns.nlink
  {
    ns.(nlink := ns.nlink[d := (ns.nlink[d] + delta) % WORD])
  }

  lemma NsLink(fs: FS, d: nat, delta: nat) returns (link: nat)
    requires OwnInv(fs) && DirIn(fs, d)
    ensures NsOf(fs).nlink[d] == fs.inodes[d].nlink && link == (fs.inodes[d].nlink + delta) % WORD
    ensures NsRelink(NsOf(fs), d, delta) == NsOf(fs).(nlink := NsOf(fs).nlink[d := link])
  {
    link := (fs.inodes[d].nlink + delta) % WORD;
  }

  lemma RelinkNs(fs: FS, d: nat, delta: nat) returns (after: FS)
    requires OwnInv(fs) && DirIn(fs, d)
    ensures var n := fs.inodes[d];
      after == fs.(inodes := fs.inodes[d := n.(nlink := (n.nlink + delta) % WORD)]) && OwnInv(after)
    ensures NsOf(after) == NsRelink(NsOf(fs), d, delta)
  {
    var n := fs.inodes[d];
    var link := NsLink(fs, d, delta);
    after := SetLinkNs(fs, d, n.(nlink := link));
  }

  lemma IncLinkNs(fs: FS, d: nat) returns (after: FS)
    requires OwnInv(fs) && DirIn(fs, d)
    ensures after == fs.(inodes := fs.inodes[d := IncLink(fs.inodes[d])]) && OwnInv(after)
    ensures NsOf(after) == NsRelink(NsOf(fs), d, 1)
  {
    after := RelinkNs(fs, d, 1);
  }

  lemma DropLinkNs(fs: FS, d: nat) returns (after: FS)
    requires OwnInv(fs) && DirIn(fs, d)
    ensures after == fs.(inodes := fs.inodes[d := DropLink(fs.inodes[d])]) && OwnInv(after)
    ensures NsOf(after) == NsRelink(NsOf(fs), d, WORD - 1)
  {
    after := RelinkNs(fs, d, WORD - 1);
  }

  // ---- the operations ----

  predicate Fails(fs: FS, d: nat)
    requires DirOk(fs, d)
  {
    FreeInode(fs).None? || AddFails(fs, d)
  }

  /** The number is marked and the name added. */
  lemma NumberedNs(fs: FS, d: nat, name: Name, ino: nat) returns (mid: FS, after: FS)
    requires OwnInv(fs) && DirIn(fs, d) && FreeInode(fs) == Some(ino)
    ensures mid == fs.(iused := fs.iused + {ino - 1}) && OwnInv(mid) && DirIn(mid, d)
    ensures DirRecs(mid, d) == DirRecs(fs, d)
    ensures after == AddEntry(mid, d, name, ino).0 && OwnInv(after) && ino !in after.inodes
    ensures AddEntry(mid, d, name, ino).1 < 0 <==> AddFails(fs, d)
    ensures NsOf(after) == if AddFails(fs, d) || AddLeaks(fs, d) then NsOf(fs) else Enter(NsOf(fs), d, name, ino)
  {
    mid := fs.(iused := fs.iused + {ino - 1});
    FreeInodeIsNew(fs);
    MarkUsed(fs, fs.used, mid.iused, {});
    SameNs(fs, mid);
    SameRecs(fs, mid, d);
    AddEntryKeeps(mid, d, name, ino);
    after := AddEntryNs(mid, d, name, ino);
  }

  lemma CreateIs(fs: FS, d: nat, name: Name, cred: Cred, ino: nat, mid: FS, added: FS)
    requires OwnInv(fs) && DirIn(fs, d) && FreeInode(fs) == Some(ino)
    requires mid == fs.(iused := fs.iused + {ino - 1}) && DirOk(mid, d) && added == AddEntry(mid, d, name, ino).0
    ensures Create(fs, d, name, cred).0
         == if AddEntry(mid, d, name, ino).1 < 0 then added
            else added.(inodes := added.inodes[ino := Inode(cred.mode, cred.uid, cred.gid, 1, 0, 0, NoPtrs())])
  {
  }

  lemma CreateSim(fs: FS, d: nat, name: Name, cred: Cred)
    requires OwnInv(fs) && DirIn(fs, d) && !IsDir(cred.mode)
    ensures OwnInv(Create(fs, d, name, cred).0)
    ensures var ns, after := NsOf(fs), NsOf(Create(fs, d, name, cred).0);
      if Fails(fs, d) then after == ns
      else if AddLeaks(fs, d) then after == ns.(live := ns.live + {FreeInode(fs).value})
      else after == NsCreate(ns, d, name, FreeInode(fs).value)
  {
    var extra, lost := SomeAccount(fs);
    CreateKeeps(fs, d, name, cred, extra, lost);
    if FreeInode(fs).Some? {
      var ino := FreeInode(fs).value;
      var mid, added := NumberedNs(fs, d, name, ino);
      CreateIs(fs, d, name, cred, ino, mid, added);
      if !AddFails(fs, d) {
        NewFileNs(added, ino, Inode(cred.mode, cred.uid, cred.gid, 1, 0, 0, NoPtrs()));
      }
    }
  }

  lemma PreparedNs(fs: FS, ino: nat, b: nat, d: nat)
    requires OwnInv(fs) && FreeInode(fs) == Some(ino) && FreeBlock(fs) == Some(b)
    ensures OwnInv(Prepared(fs, ino, b, d)) && NsOf(Prepared(fs, ino, b, d)) == NsOf(fs)
    ensures forall e :: e in fs.inodes ==> b !in BlocksOf(fs.inodes[e])
  {
    FreeBlockUnowned(fs);
    FreeInodeIsNew(fs);
    var extra, lost := SomeAccount(fs);
    PreparedKeeps(fs, ino, b, d, extra, lost);
    var fs1 := fs.(used := fs.used + {b}, iused := fs.iused + {ino - 1});
    MarkUsed(fs, fs1.used, fs1.iused, {});
    UnownedAfterMark(fs, b);
    assert forall i, k :: Owns(fs1, i, k, b) <==> Owns(fs, i, k, b);
    PutBlock(fs1, b, DotBlock(ino, d), {});
    FrameTrans(fs, fs1, Prepared(fs, ino, b, d), {});
    SameNs(fs, Prepared(fs, ino, b, d));
    forall e | e in fs.inodes && b in BlocksOf(fs.inodes[e])
      ensures false
    {
      var k :| 0 <= k < BLOCK_PER_FILE && k < fs.inodes[e].count && fs.inodes[e].ptrs[k] == b;
      assert Owns(fs, e, k, b);
    }
  }

  /** The records of a freshly formatted directory block. */
  lemma DotBlockRecs(ino: nat, parent: nat, j: nat)
    requires j < 3 && ino < WORD && parent < WORD
    ensures GetRec(DotBlock(ino, parent), j) == DotRecs(ino, parent)[j]
  {
    var first := PutRec(ZeroBlock(), 0, Rec(ino, Strncpy(DOT)));
    GetPut(ZeroBlock(), 0, Rec(ino, Strncpy(DOT)), j);
    GetPut(first, 1, Rec(parent, Strncpy(DOTDOT)), j);
    ZeroBlockRecs(j);
  }

  /** Adding an entry does not disturb a block set aside and owned by nobody. */
  lemma AddEntrySpares(fs: FS, d: nat, name: Name, ino: nat, b: nat)
    requires OwnInv(fs) && DirIn(fs, d) && b in fs.used && Unowned(fs, b) && b < |fs.disk|
    ensures AddEntry(fs, d, name, ino).0.disk[b] == fs.disk[b]
  {
    var r := FirstFree(DirRecs(fs, d));
    if r < 3 * fs.inodes[d].count {
      assert Owns(fs, d, r / 3, fs.inodes[d].ptrs[r / 3]);
    }
  }

  lemma NewDirNs(fs: FS, ino: nat, cred: Cred, b: nat, parent: nat) returns (after: FS)
    requires OwnInv(fs) && ino !in fs.inodes && ino < WORD && parent < WORD && b < |fs.disk|
    requires fs.disk[b] == DotBlock(ino, parent)
    requires OwnInv(fs.(inodes := fs.inodes[ino := NewDir(cred, b)]))
    ensures after == fs.(inodes := fs.inodes[ino := NewDir(cred, b)]) && OwnInv(after)
    ensures var ns := NsOf(fs);
      NsOf(after) == Ns(ns.live + {ino}, ns.dirs[ino := DotRecs(ino, parent)], ns.nlink[ino := 2])
  {
    after := fs.(inodes := fs.inodes[ino := NewDir(cred, b)]);
    var recs := DirRecs(after, ino);
    forall r | 0 <= r < 3
      ensures recs[r] == DotRecs(ino, parent)[r]
    {
      DotBlockRecs(ino, parent, r);
    }
    assert recs == DotRecs(ino, parent);
    NsOfIs(Ns(NsOf(fs).live + {ino}, NsOf(fs).dirs[ino := DotRecs(ino, parent)], NsOf(fs).nlink[ino := 2]), after);
  }

  /** What naive_mkdir's new directory, once installed, makes of the namespace. */
  function NsInstalled(ns: Ns, ino: nat, d: nat): Ns
    requires d in ns.nlink
  {
    NsRelink(Ns(ns.live + {ino}, ns.dirs[ino := DotRecs(ino, d)], ns.nlink[ino := 2]), d, 1)
  }

  lemma InstalledNs(fs: FS, ino: nat, cred: Cred, b: nat, d: nat) returns (after: FS)
    requires OwnInv(fs) && DirIn(fs, d) && ino !in fs.inodes && ino < WORD && d < WORD && d != ino
    requires b < |fs.disk| && fs.disk[b] == DotBlock(ino, d)
    requires OwnInv(fs.(inodes := fs.inodes[ino := NewDir(cred, b)]))
    ensures after == Installed(fs, ino, NewDir(cred, b), d) && OwnInv(after)
    ensures NsOf(after) == NsInstalled(NsOf(fs), ino, d)
  {
    var fs1 := NewDirNs(fs, ino, cred, b, d);
    after := IncLinkNs(fs1, d);
  }

  /** naive_add_entry in naive_mkdir leaves the block just formatted alone. */
  lemma MkdirEnteredBlock(fs: FS, d: nat, name: Name, ino: nat, b: nat, extra: set<nat>, lost: set<nat>)
    requires Inv(fs, extra, lost) && DirIn(fs, d) && FreeInode(fs) == Some(ino) && FreeBlock(fs) == Some(b)
    ensures var fs2 := AddEntry(Prepared(fs, ino, b, d), d, name, ino).0;
      b < |fs2.disk| && fs2.disk[b] == DotBlock(ino, d)
  {
    var fs1 := Prepared(fs, ino, b, d);
    PreparedKeeps(fs, ino, b, d, extra, lost);
    assert b in extra + {b} && !IsOwned(fs1, b);
    assert Unowned(fs1, b);
    AddEntrySpares(fs1, d, name, ino, b);
  }

  /** The state after naive_add_entry in naive_mkdir still holds the formatted block, and can be completed or undone. */
  lemma MkdirEnteredOwn(fs: FS, d: nat, name: Name, cred: Cred, ino: nat, b: nat) returns (fs2: FS)
    requires OwnInv(fs) && DirIn(fs, d) && FreeInode(fs) == Some(ino) && FreeBlock(fs) == Some(b)
    ensures fs2 == AddEntry(Prepared(fs, ino, b, d), d, name, ino).0 && OwnInv(fs2)
    ensures b < |fs2.disk| && fs2.disk[b] == DotBlock(ino, d)
    ensures OwnInv(fs2.(inodes := fs2.inodes[ino := NewDir(cred, b)]))
    ensures OwnInv(fs2.(used := fs2.used - {b})) && Frame(fs2, fs2.(used := fs2.used - {b}), {})
    ensures AddEntry(Prepared(fs, ino, b, d), d, name, ino).1 < 0 <==> AddFails(Prepared(fs, ino, b, d), d)
  {
    var extra, lost := SomeAccount(fs);
    MkdirEnteredBlock(fs, d, name, ino, b, extra, lost);
    fs2 := AddEntry(Prepared(fs, ino, b, d), d, name, ino).0;
    MkdirAdded(fs, d, name, ino, b, extra, lost);
    MkdirEndings(fs, fs2, cred, ino, b, extra + LeakedBlock(Prepared(fs, ino, b, d), d), lost);
  }

  lemma MkdirEndings(fs: FS, fs2: FS, cred: Cred, ino: nat, b: nat, extra: set<nat>, lost: set<nat>)
    requires OwnInv(fs) && FreeInode(fs) == Some(ino) && FreeBlock(fs) == Some(b) && fs2.lay == fs.lay
    requires Inv(fs2, extra + {b}, lost + {ino - 1}) && b !in extra && ino - 1 !in lost
    ensures OwnInv(fs2.(inodes := fs2.inodes[ino := NewDir(cred, b)]))
    ensures OwnInv(fs2.(used := fs2.used - {b})) && Frame(fs2, fs2.(used := fs2.used - {b}), {})
  {
    FreeInodeIsNew(fs);
    FreeBlockUnowned(fs);
    EnterInode(fs2, ino, NewDir(cred, b), {b}, extra, lost, {});
    GiveBack(fs2, b, extra, lost + {ino - 1}, {});
  }

  lemma MkdirEnteredNs(fs: FS, d: nat, name: Name, ino: nat, b: nat) returns (fs2: FS)
    requires OwnInv(fs) && DirIn(fs, d) && FreeInode(fs) == Some(ino) && FreeBlock(fs) == Some(b)
    ensures fs2 == AddEntry(Prepared(fs, ino, b, d), d, name, ino).0 && OwnInv(fs2) && DirIn(fs2, d)
    ensures ino !in fs2.inodes && ino < WORD && d < WORD
    ensures var fs1 := Prepared(fs, ino, b, d);
      NsOf(fs2) == if AddFails(fs1, d) || AddLeaks(fs1, d) then NsOf(fs) else Enter(NsOf(fs), d, name, ino)
  {
    PreparedNs(fs, ino, b, d);
    FreeInodeIsNew(fs);
    fs2 := AddEntryNs(Prepared(fs, ino, b, d), d, name, ino);
    assert NsOf(fs2).live == fs.inodes.Keys;
  }

  /** The guard under which naive_mkdir fails, and the one under which it succeeds without entering the name. */
  predicate MkdirFails(fs: FS, d: nat)
    requires DirOk(fs, d)
  {
    FreeInode(fs).None? || FreeBlock(fs).None? || AddFails(Prepared(fs, FreeInode(fs).value, FreeBlock(fs).value, d), d)
  }

  predicate MkdirLeaks(fs: FS, d: nat)
    requires DirOk(fs, d)
  {
    FreeInode(fs).Some? && FreeBlock(fs).Some? && AddLeaks(Prepared(fs, FreeInode(fs).value, FreeBlock(fs).value, d), d)
  }

  lemma MkdirSim(fs: FS, d: nat, name: Name, cred: Cred) returns (after: FS)
    requires OwnInv(fs) && DirIn(fs, d)
    ensures after == Mkdir(fs, d, name, cred).0 && OwnInv(after)
    ensures var ns := NsOf(fs);
      NsOf(after) == if MkdirFails(fs, d) then ns
                     else var ino := FreeInode(fs).value;
                     NsInstalled(if MkdirLeaks(fs, d) then ns else Enter(ns, d, name, ino), ino, d)
  {
    after := fs;
    if FreeInode(fs).Some? && FreeBlock(fs).Some? {
      var ino, b := FreeInode(fs).value, FreeBlock(fs).value;
      var fs2 := MkdirEnteredNs(fs, d, name, ino, b);
      var _ := MkdirEnteredOwn(fs, d, name, cred, ino, b);
      if MkdirFails(fs, d) {
        after := fs2.(used := fs2.used - {b});
        SameNs(fs2, after);
      } else {
        after := InstalledNs(fs2, ino, cred, b, d);
      }
    }
  }

  lemma UnlinkSim(fs: FS, d: nat, name: Name, i: nat) returns (after: FS)
    requires OwnInv(fs) && DirIn(fs, d) && i in fs.inodes && !IsDir(fs.inodes[i].mode)
    ensures after == Unlink(fs, d, name, i).0 && OwnInv(after)
    ensures var ns := NsOf(fs);
      if FirstMatch(ns.dirs[d], name) == |ns.dirs[d]| then after == fs
      else
        && NsOf(after).live == ns.live - {i}
        && NsOf(after).dirs == Leave(ns, d, name).dirs && NsOf(after).nlink == ns.nlink
  {
    RemoveEntryNs(fs, d, name);
    RemoveEntryRecs(fs, d, name);
    var (fs1, ret) := RemoveEntry(fs, d, name);
    after := fs1;
    if ret >= 0 {
      ReleaseNs(fs1, i);
      after := Release(fs1, i);
    }
  }

  lemma RmdirSim(fs: FS, d: nat, name: Name, i: nat) returns (after: FS)
    requires OwnInv(fs) && DirIn(fs, d) && i in fs.inodes && i != d && i != ROOT_INO
    ensures after == Rmdir(fs, d, name, i).0 && OwnInv(after)
    ensures var ns := NsOf(fs);
      if !DirIn(fs, i) || !EmptyDir(ns.dirs[i]) || FirstMatch(ns.dirs[d], name) == |ns.dirs[d]| then after == fs
      else NsOf(after) == NsRelink(Ns(ns.live - {i}, Leave(ns, d, name).dirs - {i}, ns.nlink - {i}), d, WORD - 1)
  {
    after := fs;
    RemoveEntryNs(fs, d, name);
    RemoveEntryRecs(fs, d, name);
    var (fs1, ret) := RemoveEntry(fs, d, name);
    if DirIn(fs, i) && EmptyDir(DirRecs(fs, i)) && ret >= 0 {
      ReleaseNs(fs1, i);
      var fs2 := Release(fs1, i);
      after := DropLinkNs(fs2, d);
    }
  }

  // ---- return codes ----

  lemma CreateReturns(fs: FS, d: nat, name: Name, cred: Cred)
    requires OwnInv(fs) && DirIn(fs, d)
    ensures var ret := Create(fs, d, name, cred).1;
      (ret == 0 || ret == -ENOSPC) && (ret < 0 <==> Fails(fs, d))
  {
    if FreeInode(fs).Some? {
      SameRecs(fs, fs.(iused := fs.iused + {FreeInode(fs).value - 1}), d);
    }
  }

  lemma MkdirReturns(fs: FS, d: nat, name: Name, cred: Cred)
    requires OwnInv(fs) && DirIn(fs, d)
    ensures var ret := Mkdir(fs, d, name, cred).1;
      (ret == 0 || ret == -ENOSPC) && (ret < 0 <==> MkdirFails(fs, d))
  {
  }
}
