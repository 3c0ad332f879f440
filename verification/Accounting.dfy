/** Where every used block and every used inode number went: the namespace operations keep ownership and both
    accounts. */
module Accounting {
  import opened Bytes
  import opened Records
  import opened Directory
  import opened State
  import opened Steps
  import opened Ownership

  ghost predicate IsOwned(fs: FS, b: int) {
    exists i, k :: Owns(fs, i, k, b)
  }

  /** Used data blocks are the owned ones and those in extra; used inode numbers are the live ones and those in lost
      (as bits). */
  ghost predicate Account(fs: FS, extra: set<nat>, lost: set<nat>) {
    && (forall b :: b in extra ==> fs.lay.dataStart <= b && !IsOwned(fs, b))
    && (forall b :: fs.lay.dataStart <= b ==> (b in fs.used <==> b in extra || IsOwned(fs, b)))
    && (forall n :: n in lost ==> n + 1 !in fs.inodes)
    && (forall n: nat :: n in fs.iused <==> n + 1 in fs.inodes || n in lost)
  }

  ghost predicate Inv(fs: FS, extra: set<nat>, lost: set<nat>) {
    OwnInv(fs) && Account(fs, extra, lost)
  }

  /** Ownership alone already fixes what the two accounts must list. */
  lemma SomeAccount(fs: FS) returns (extra: set<nat>, lost: set<nat>)
    requires OwnInv(fs)
    ensures Inv(fs, extra, lost)
  {
    extra := set b | b in fs.used && fs.lay.dataStart <= b && !IsOwned(fs, b);
    lost := set n | n in fs.iused && n + 1 !in fs.inodes;
  }

  // ---- the two ways a name can fail to go in ----

  predicate NoSlot(fs: FS, d: nat)
    requires DirOk(fs, d)
  {
    FirstFree(DirRecs(fs, d)) == 3 * fs.inodes[d].count
  }

  /** naive_add_entry returns -ENOSPC. */
  predicate AddFails(fs: FS, d: nat)
    requires DirOk(fs, d)
  {
    NoSlot(fs, d) && FreeBlock(fs).None?
  }

  /** naive_add_entry fills a block that no pointer can take, and returns 0. */
  predicate AddLeaks(fs: FS, d: nat)
    requires DirOk(fs, d)
  {
    NoSlot(fs, d) && fs.inodes[d].count == BLOCK_PER_FILE && FreeBlock(fs).Some?
  }

  function LeakedBlock(fs: FS, d: nat): set<nat>
    requires DirOk(fs, d)
  {
    if AddLeaks(fs, d) then {FreeBlock(fs).value} else {}
  }

  lemma SameAccount(fs: FS, after: FS, extra: set<nat>, lost: set<nat>)
    requires Account(fs, extra, lost) && after == fs.(disk := after.disk)
    ensures Account(after, extra, lost)
  {
    assert forall i, k, x :: Owns(after, i, k, x) <==> Owns(fs, i, k, x);
    OwnedMore(fs, after, 0, false);
  }

  lemma GrowAccount(fs: FS, d: nat, b: nat, blk: Block, extra: set<nat>, lost: set<nat>)
    requires Inv(fs, extra, lost) && d in fs.inodes && IsDir(fs.inodes[d].mode)
    requires fs.lay.dataStart <= b < fs.lay.blockTotal && b !in fs.used
    ensures Account(Grown(fs, d, b, blk), if fs.inodes[d].count < BLOCK_PER_FILE then extra else extra + {b}, lost)
  {
    var after := Grown(fs, d, b, blk);
    GrownOwns(fs, d, b, blk);
    if fs.inodes[d].count < BLOCK_PER_FILE {
      assert Owns(after, d, fs.inodes[d].count, b);
    }
    OwnedMore(fs, after, b, fs.inodes[d].count < BLOCK_PER_FILE);
  }

  lemma AddedAccount(fs: FS, d: nat, name: Name, ino: nat, extra: set<nat>, lost: set<nat>) returns (after: FS)
    requires Inv(fs, extra, lost) && d in fs.inodes && IsDir(fs.inodes[d].mode)
    ensures after == AddEntry(fs, d, name, ino).0 && Account(after, extra + LeakedBlock(fs, d), lost)
  {
    after := AddEntry(fs, d, name, ino).0;
    assert extra + {} == extra;
    if NoSlot(fs, d) && FreeBlock(fs).Some? {
      FreeBlockUnowned(fs);
      GrowAccount(fs, d, FreeBlock(fs).value, FreshBlock(Rec(ino, Padded(name))), extra, lost);
    } else {
      SameAccount(fs, after, extra, lost);
    }
  }

  lemma AddEntryAccount(fs: FS, d: nat, name: Name, ino: nat, extra: set<nat>, lost: set<nat>)
    requires Inv(fs, extra, lost) && d in fs.inodes && IsDir(fs.inodes[d].mode)
    ensures var (after, ret) := AddEntry(fs, d, name, ino);
      && Inv(after, extra + LeakedBlock(fs, d), lost) && Frame(fs, after, {d})
      && (ret < 0 <==> AddFails(fs, d)) && (ret < 0 ==> after == fs) && after.lay == fs.lay
  {
    AddEntryKeeps(fs, d, name, ino);
    var _ := AddedAccount(fs, d, name, ino, extra, lost);
  }

  lemma OwnedMore(fs: FS, after: FS, b: nat, more: bool)
    requires forall i, k, x :: Owns(fs, i, k, x) ==> Owns(after, i, k, x)
    requires forall i, k, x :: Owns(after, i, k, x) ==> Owns(fs, i, k, x) || (more && x == b)
    requires more ==> IsOwned(after, b)
    ensures forall x :: IsOwned(after, x) <==> IsOwned(fs, x) || (more && x == b)
  {
    forall x
      ensures IsOwned(after, x) <==> IsOwned(fs, x) || (more && x == b)
    {
      if IsOwned(fs, x) {
        var i, k :| Owns(fs, i, k, x);
        assert Owns(after, i, k, x);
      }
      if IsOwned(after, x) {
        var i, k :| Owns(after, i, k, x);
        assert Owns(fs, i, k, x) || (more && x == b);
      }
    }
  }

  // ---- create ----

  /** Numbers whose bit stays set although the call that took them failed. */
  function LostByCreate(fs: FS, d: nat): set<nat>
    requires DirOk(fs, d)
  {
    match FreeInode(fs)
    case None => {}
    case Some(ino) => if AddFails(fs, d) then {ino - 1} else {}
  }

  function LeakedByCreate(fs: FS, d: nat): set<nat>
    requires DirOk(fs, d)
  {
    if FreeInode(fs).Some? then LeakedBlock(fs, d) else {}
  }

  lemma NumberAccount(fs: FS, d: nat, ino: nat, extra: set<nat>, lost: set<nat>) returns (fs1: FS)
    requires Inv(fs, extra, lost) && d in fs.inodes && IsDir(fs.inodes[d].mode) && FreeInode(fs) == Some(ino)
    ensures fs1 == fs.(iused := fs.iused + {ino - 1}) && Inv(fs1, extra, lost + {ino - 1}) && Frame(fs, fs1, {d})
    ensures ino - 1 !in lost && LeakedBlock(fs1, d) == LeakedBlock(fs, d) && (AddFails(fs1, d) <==> AddFails(fs, d))
  {
    fs1 := fs.(iused := fs.iused + {ino - 1});
    FreeInodeIsNew(fs);
    assert fs.used + {} == fs.used && extra + {} == extra;
    TakeNumber(fs, ino, {}, extra, lost, {d});
    SameRecs(fs, fs1, d);
  }

  lemma CreateNumbered(fs: FS, d: nat, name: Name, ino: nat, extra: set<nat>, lost: set<nat>)
    requires Inv(fs, extra, lost) && d in fs.inodes && IsDir(fs.inodes[d].mode) && FreeInode(fs) == Some(ino)
    ensures var (fs2, ret) := AddEntry(fs.(iused := fs.iused + {ino - 1}), d, name, ino);
      && Inv(fs2, extra + LeakedBlock(fs, d), lost + {ino - 1}) && Frame(fs, fs2, {d})
      && (ret < 0 <==> AddFails(fs, d)) && ino - 1 !in lost
  {
    var fs1 := NumberAccount(fs, d, ino, extra, lost);
    AddEntryAccount(fs1, d, name, ino, extra, lost + {ino - 1});
    FrameTrans(fs, fs1, AddEntry(fs1, d, name, ino).0, {d});
  }

  lemma CreateKeeps(fs: FS, d: nat, name: Name, cred: Cred, extra: set<nat>, lost: set<nat>)
    requires Inv(fs, extra, lost) && d in fs.inodes && IsDir(fs.inodes[d].mode) && !IsDir(cred.mode)
    ensures var after := Create(fs, d, name, cred).0;
      Inv(after, extra + LeakedByCreate(fs, d), lost + LostByCreate(fs, d)) && Frame(fs, after, {d})
  {
    match FreeInode(fs)
    case None =>
      assert extra + {} == extra && lost + {} == lost;
    case Some(ino) =>
      CreateNumbered(fs, d, name, ino, extra, lost);
      FreeInodeIsNew(fs);
      var (fs2, ret) := AddEntry(fs.(iused := fs.iused + {ino - 1}), d, name, ino);
      if ret >= 0 {
        var n := Inode(cred.mode, cred.uid, cred.gid, 1, 0, 0, NoPtrs());
        var extra2 := extra + LeakedBlock(fs, d);
        assert extra2 + {} == extra2 && lost + {} == lost;
        EnterInode(fs2, ino, n, {}, extra2, lost, {d});
        FrameTrans(fs, fs2, fs2.(inodes := fs2.inodes[ino := n]), {d});
      }
  }

  /** Marking inode bits does not change what adding an entry will meet. */
  lemma SameRecs(fs: FS, after: FS, d: nat)
    requires DirOk(fs, d) && after == fs.(iused := after.iused)
    ensures DirOk(after, d) && AddFails(after, d) == AddFails(fs, d) && LeakedBlock(after, d) == LeakedBlock(fs, d)
  {
  }

  /** The state after a number and some blocks have been marked used, before anybody owns them. */
  lemma TakeNumber(fs: FS, ino: nat, blocks: set<nat>, extra: set<nat>, lost: set<nat>, touched: set<nat>)
    requires Inv(fs, extra, lost) && FreeInode(fs) == Some(ino)
    requires forall b :: b in blocks ==> fs.lay.dataStart <= b && b !in fs.used
    ensures var after := fs.(used := fs.used + blocks, iused := fs.iused + {ino - 1});
      Inv(after, extra + blocks, lost + {ino - 1}) && Frame(fs, after, touched)
  {
    FreeInodeIsNew(fs);
    MarkUsed(fs, fs.used + blocks, fs.iused + {ino - 1}, touched);
    var after := fs.(used := fs.used + blocks, iused := fs.iused + {ino - 1});
    OwnedMore(fs, after, 0, false);
  }

  /** The number and the block set aside become those of a live inode. */
  lemma EnterInode(fs: FS, ino: nat, n: Inode, blocks: set<nat>, extra: set<nat>, lost: set<nat>, touched: set<nat>)
    requires ino >= 1 && ino <= fs.lay.inodeTotal && ino - 1 !in lost && blocks !! extra
    requires Inv(fs, extra + blocks, lost + {ino - 1})
    requires InodeOk(fs.lay, n) && n.count <= 1 && blocks == if n.count == 1 then {n.ptrs[0]} else {}
    ensures var after := fs.(inodes := fs.inodes[ino := n]);
      Inv(after, extra, lost) && Frame(fs, after, touched)
  {
    var after := fs.(inodes := fs.inodes[ino := n]);
    var b := n.ptrs[0];
    assert n.count == 1 ==> b in extra + blocks && !IsOwned(fs, b);
    assert n.count == 1 ==> Unowned(fs, b);
    assert ino !in fs.inodes by {
      assert ino - 1 in lost + {ino - 1};
    }
    AddInode(fs, ino, n, b, touched);
    if n.count == 1 {
      assert Owns(after, ino, 0, b);
    }
    OwnedMore(fs, after, b, n.count == 1);
  }

  // ---- mkdir ----

  function LostByMkdir(fs: FS, d: nat): set<nat>
    requires DirOk(fs, d)
  {
    match (FreeInode(fs), FreeBlock(fs))
    case (Some(ino), Some(b)) => if AddFails(Prepared(fs, ino, b, d), d) then {ino - 1} else {}
    case _ => {}
  }

  function LeakedByMkdir(fs: FS, d: nat): set<nat>
    requires DirOk(fs, d)
  {
    match (FreeInode(fs), FreeBlock(fs))
    case (Some(ino), Some(b)) => LeakedBlock(Prepared(fs, ino, b, d), d)
    case _ => {}
  }

  lemma PreparedKeeps(fs: FS, ino: nat, b: nat, d: nat, extra: set<nat>, lost: set<nat>)
    requires Inv(fs, extra, lost) && FreeInode(fs) == Some(ino) && FreeBlock(fs) == Some(b)
    ensures b !in extra && ino - 1 !in lost
    ensures Inv(Prepared(fs, ino, b, d), extra + {b}, lost + {ino - 1}) && Frame(fs, Prepared(fs, ino, b, d), {d})
  {
    FreeBlockUnowned(fs);
    FreeInodeIsNew(fs);
    TakeNumber(fs, ino, {b}, extra, lost, {d});
    var fs1 := fs.(used := fs.used + {b}, iused := fs.iused + {ino - 1});
    assert b in extra + {b} && !IsOwned(fs1, b);
    PutBlock(fs1, b, DotBlock(ino, d), {d});
    SameAccount(fs1, Prepared(fs, ino, b, d), extra + {b}, lost + {ino - 1});
    FrameTrans(fs, fs1, Prepared(fs, ino, b, d), {d});
  }

  lemma GiveBack(fs: FS, b: nat, extra: set<nat>, lost: set<nat>, touched: set<nat>)
    requires Inv(fs, extra + {b}, lost) && b !in extra
    ensures Inv(fs.(used := fs.used - {b}), extra, lost) && Frame(fs, fs.(used := fs.used - {b}), touched)
  {
    var after := fs.(used := fs.used - {b});
    assert b in extra + {b} && !IsOwned(fs, b);
    assert Unowned(fs, b);
    MarkUsed(fs, fs.used - {b}, fs.iused, touched);
    OwnedMore(fs, after, 0, false);
  }

  lemma SetAttrsKeeps(fs: FS, i: nat, n: Inode, extra: set<nat>, lost: set<nat>)
    requires Inv(fs, extra, lost) && i in fs.inodes
    requires n.ptrs == fs.inodes[i].ptrs && n.count == fs.inodes[i].count && n.mode == fs.inodes[i].mode
    requires IsDir(n.mode) || n.size <= BLOCK_SIZE * n.count
    ensures Inv(fs.(inodes := fs.inodes[i := n]), extra, lost) && Frame(fs, fs.(inodes := fs.inodes[i := n]), {i})
  {
    var after := fs.(inodes := fs.inodes[i := n]);
    SetAttrs(fs, i, n);
    OwnedMore(fs, after, 0, false);
  }

  lemma MkdirKeeps(fs: FS, d: nat, name: Name, cred: Cred, extra: set<nat>, lost: set<nat>)
    requires Inv(fs, extra, lost) && d in fs.inodes && IsDir(fs.inodes[d].mode)
    ensures var after := Mkdir(fs, d, name, cred).0;
      Inv(after, extra + LeakedByMkdir(fs, d), lost + LostByMkdir(fs, d)) && Frame(fs, after, {d})
  {
    if FreeInode(fs).None? || FreeBlock(fs).None? {
      assert extra + {} == extra && lost + {} == lost;
    } else {
      var ino, b := FreeInode(fs).value, FreeBlock(fs).value;
      MkdirPrepared(fs, d, name, cred, ino, b, extra, lost);
    }
  }

  lemma InstallKeeps(fs: FS, ino: nat, n: Inode, b: nat, d: nat, extra: set<nat>, lost: set<nat>)
    requires d in fs.inodes && IsDir(fs.inodes[d].mode)
    requires 1 <= ino <= fs.lay.inodeTotal && ino != d && ino - 1 !in lost && b !in extra
    requires Inv(fs, extra + {b}, lost + {ino - 1})
    requires InodeOk(fs.lay, n) && n.count == 1 && n.ptrs[0] == b
    ensures Inv(Installed(fs, ino, n, d), extra, lost) && Frame(fs, Installed(fs, ino, n, d), {d})
  {
    EnterInode(fs, ino, n, {b}, extra, lost, {d});
    var fs1 := fs.(inodes := fs.inodes[ino := n]);
    SetAttrsKeeps(fs1, d, IncLink(fs1.inodes[d]), extra, lost);
    FrameTrans(fs, fs1, Installed(fs, ino, n, d), {d});
  }

  /** The state in which naive_mkdir finds itself after naive_add_entry. */
  lemma MkdirAdded(fs: FS, d: nat, name: Name, ino: nat, b: nat, extra: set<nat>, lost: set<nat>)
    requires Inv(fs, extra, lost) && d in fs.inodes && IsDir(fs.inodes[d].mode)
    requires FreeInode(fs) == Some(ino) && FreeBlock(fs) == Some(b)
    ensures var fs1 := Prepared(fs, ino, b, d);
      var (fs2, ret) := AddEntry(fs1, d, name, ino);
      && Inv(fs2, extra + LeakedBlock(fs1, d) + {b}, lost + {ino - 1}) && Frame(fs, fs2, {d})
      && b !in extra + LeakedBlock(fs1, d) && (ret < 0 <==> AddFails(fs1, d))
  {
    var fs1 := Prepared(fs, ino, b, d);
    PreparedKeeps(fs, ino, b, d, extra, lost);
    AddEntryAccount(fs1, d, name, ino, extra + {b}, lost + {ino - 1});
    FrameTrans(fs, fs1, AddEntry(fs1, d, name, ino).0, {d});
    assert extra + {b} + LeakedBlock(fs1, d) == extra + LeakedBlock(fs1, d) + {b};
  }

  lemma MkdirPrepared(fs: FS, d: nat, name: Name, cred: Cred, ino: nat, b: nat, extra: set<nat>, lost: set<nat>)
    requires Inv(fs, extra, lost) && d in fs.inodes && IsDir(fs.inodes[d].mode)
    requires FreeInode(fs) == Some(ino) && FreeBlock(fs) == Some(b)
    ensures var after := Mkdir(fs, d, name, cred).0;
      Inv(after, extra + LeakedByMkdir(fs, d), lost + LostByMkdir(fs, d)) && Frame(fs, after, {d})
  {
    var (fs2, ret) := AddEntry(Prepared(fs, ino, b, d), d, name, ino);
    MkdirAdded(fs, d, name, ino, b, extra, lost);
    var extra2 := extra + LeakedBlock(Prepared(fs, ino, b, d), d);
    var after := Mkdir(fs, d, name, cred).0;
    if ret < 0 {
      GiveBack(fs2, b, extra2, lost + {ino - 1}, {d});
      FrameTrans(fs, fs2, after, {d});
    } else {
      assert lost + {} == lost;
      FreeInodeIsNew(fs);
      InstallKeeps(fs2, ino, NewDir(cred, b), b, d, extra2, lost);
      FrameTrans(fs, fs2, after, {d});
    }
  }

  // ---- unlink and rmdir ----

  lemma RemoveEntryAccount(fs: FS, d: nat, name: Name, extra: set<nat>, lost: set<nat>)
    requires Inv(fs, extra, lost) && d in fs.inodes
    ensures var after := RemoveEntry(fs, d, name).0;
      Inv(after, extra, lost) && Frame(fs, after, {d}) && after == fs.(disk := after.disk)
  {
    RemoveEntryKeeps(fs, d, name);
    SameAccount(fs, RemoveEntry(fs, d, name).0, extra, lost);
  }

  lemma ReleaseKeeps(fs: FS, i: nat, extra: set<nat>, lost: set<nat>, touched: set<nat>)
    requires Inv(fs, extra, lost) && i in fs.inodes && i != ROOT_INO && i in touched
    ensures Inv(Release(fs, i), extra, lost) && Frame(fs, Release(fs, i), touched)
  {
    var after := Release(fs, i);
    ReleaseInode(fs, i);
    forall b | fs.lay.dataStart <= b
      ensures b in after.used <==> b in extra || IsOwned(after, b)
      ensures b in extra ==> !IsOwned(after, b)
    {
      if IsOwned(after, b) {
        var j, k :| Owns(after, j, k, b);
        assert Owns(fs, j, k, b);
        assert IsOwned(fs, b);
      }
      if b in fs.used && b !in extra {
        var j, k :| Owns(fs, j, k, b);
        if j != i {
          assert Owns(after, j, k, b);
        }
      }
      if b in BlocksOf(fs.inodes[i]) {
        var k :| Owns(fs, i, k, b);
        assert IsOwned(fs, b);
      }
    }
  }

  lemma UnlinkKeeps(fs: FS, d: nat, name: Name, i: nat, extra: set<nat>, lost: set<nat>)
    requires Inv(fs, extra, lost) && d in fs.inodes && i in fs.inodes && i != ROOT_INO
    ensures var after := Unlink(fs, d, name, i).0;
      Inv(after, extra, lost) && Frame(fs, after, {d, i})
  {
    var (fs1, ret) := RemoveEntry(fs, d, name);
    RemoveEntryAccount(fs, d, name, extra, lost);
    if ret >= 0 {
      ReleaseKeeps(fs1, i, extra, lost, {d, i});
      FrameWiden(fs, fs1, {d}, {d, i});
      FrameTrans(fs, fs1, Release(fs1, i), {d, i});
    }
  }

  lemma FrameWiden(fs: FS, after: FS, touched: set<nat>, wider: set<nat>)
    requires Frame(fs, after, touched) && touched <= wider
    ensures Frame(fs, after, wider)
  {
  }

  lemma RmdirKeeps(fs: FS, d: nat, name: Name, i: nat, extra: set<nat>, lost: set<nat>)
    requires Inv(fs, extra, lost) && d in fs.inodes && IsDir(fs.inodes[d].mode)
    requires i in fs.inodes && i != ROOT_INO && i != d
    ensures var after := Rmdir(fs, d, name, i).0;
      Inv(after, extra, lost) && Frame(fs, after, {d, i})
  {
    var (fs1, ret) := RemoveEntry(fs, d, name);
    RemoveEntryAccount(fs, d, name, extra, lost);
    if IsDir(fs.inodes[i].mode) && EmptyDir(DirRecs(fs, i)) && ret >= 0 {
      var fs2 := Release(fs1, i);
      ReleaseKeeps(fs1, i, extra, lost, {d, i});
      FrameWiden(fs, fs1, {d}, {d, i});
      FrameTrans(fs, fs1, fs2, {d, i});
      var fs3 := fs2.(inodes := fs2.inodes[d := DropLink(fs2.inodes[d])]);
      SetAttrsKeeps(fs2, d, DropLink(fs2.inodes[d]), extra, lost);
      FrameWiden(fs2, fs3, {d}, {d, i});
      FrameTrans(fs, fs2, fs3, {d, i});
    }
  }
}
