/** What loading an inode from the table does to the namespace, and exactly when it leaves a tree a tree. */
module TreeLoads {
  import opened Records
  import opened Directory
  import opened State
  import opened Steps
  import opened InodeTable
  import opened Namespace
  import opened Simulation
  import opened Reload

  ghost predicate ChildOf(ns: Ns, d: int, x: int) {
    exists r :: NamesInode(ns, d, r, x)
  }

  /** Directory i names the same inodes in both states, and in the second one each of them once. */
  ghost predicate SameChildren(ns: Ns, after: Ns, i: nat) {
    && (forall x :: ChildOf(after, i, x) <==> ChildOf(ns, i, x))
    && forall r, q, x :: NamesInode(after, i, r, x) && NamesInode(after, i, q, x) ==> r == q
  }

  ghost predicate SameParent(ns: Ns, after: Ns, i: nat) {
    HasDots(ns, i) && HasDots(after, i) && Parent(after, i) == Parent(ns, i)
  }

  /** Of the records of directory i beyond its dot records no used one is a dot record. */
  ghost predicate NoDotsIn(ns: Ns, i: nat)
    requires i in ns.dirs
  {
    forall r :: (if i == ROOT_INO then 0 else 2) <= r < |ns.dirs[i]| && ns.dirs[i][r].ino != 0
                ==> NamesInode(ns, i, r, ns.dirs[i][r].ino)
  }

  /** Directory i has these records and this link count. */
  function WithDir(ns: Ns, i: nat, recs: seq<Rec>, links: nat): Ns {
    ns.(dirs := ns.dirs[i := recs], nlink := ns.nlink[i := links])
  }

  function WithoutDir(ns: Ns, i: nat): Ns {
    ns.(dirs := ns.dirs - {i}, nlink := ns.nlink - {i})
  }

  /** The records can stand for those directory i had: terminated, with the same parent, the same children each named
      once, and the same link count. */
  ghost predicate StandsFor(ns: Ns, i: nat, recs: seq<Rec>, links: nat)
    requires i in ns.dirs && i in ns.nlink
  {
    var after := WithDir(ns, i, recs, links);
    && |recs| <= MAX_RECS && AllTerminated(recs) && NoDotsIn(after, i) && SameChildren(ns, after, i)
    && (i != ROOT_INO ==> SameParent(ns, after, i)) && links == ns.nlink[i]
  }

  // ---- counting subdirectories by their numbers ----

  function Inos(recs: seq<Rec>, slots: set<nat>): set<nat>
    requires forall r :: r in slots ==> r < |recs|
  {
    set r | r in slots :: recs[r].ino
  }

  lemma {:induction false} InosCard(recs: seq<Rec>, slots: set<nat>)
    requires forall r :: r in slots ==> r < |recs|
    requires forall r, q :: r in slots && q in slots && recs[r].ino == recs[q].ino ==> r == q
    ensures |Inos(recs, slots)| == |slots|
  {
    if slots == {} {
      assert Inos(recs, slots) == {};
    } else {
      var r :| r in slots;
      InosCard(recs, slots - {r});
      assert Inos(recs, slots) == Inos(recs, slots - {r}) + {recs[r].ino};
    }
  }

  lemma SubdirIno(ns: Ns, d: nat, x: nat)
    requires d in ns.dirs
    ensures x in Inos(ns.dirs[d], Subdirs(ns, d)) <==> ChildOf(ns, d, x) && x in ns.dirs
  {
    if ChildOf(ns, d, x) && x in ns.dirs {
      var r :| NamesInode(ns, d, r, x);
      assert r in Subdirs(ns, d);
    }
  }

  lemma SubdirsCard(ns: Ns, d: nat)
    requires d in ns.dirs && forall r, q, x :: NamesInode(ns, d, r, x) && NamesInode(ns, d, q, x) ==> r == q
    ensures |Inos(ns.dirs[d], Subdirs(ns, d))| == |Subdirs(ns, d)|
  {
    var recs := ns.dirs[d];
    forall r, q | r in Subdirs(ns, d) && q in Subdirs(ns, d) && recs[r].ino == recs[q].ino
      ensures r == q
    {
      assert NamesInode(ns, d, r, recs[r].ino) && NamesInode(ns, d, q, recs[r].ino);
    }
    InosCard(recs, Subdirs(ns, d));
  }

  lemma SameSubdirCount(ns: Ns, after: Ns, i: nat)
    requires NamedOnce(ns) && i in ns.dirs && i in after.dirs && after.dirs.Keys == ns.dirs.Keys
    requires SameChildren(ns, after, i)
    ensures |Subdirs(after, i)| == |Subdirs(ns, i)|
  {
    SubdirsCard(ns, i);
    SubdirsCard(after, i);
    forall x: nat
      ensures x in Inos(ns.dirs[i], Subdirs(ns, i)) <==> x in Inos(after.dirs[i], Subdirs(after, i))
    {
      SubdirIno(ns, i, x);
      SubdirIno(after, i, x);
    }
    assert Inos(ns.dirs[i], Subdirs(ns, i)) == Inos(after.dirs[i], Subdirs(after, i));
  }

  // ---- a directory with other records ----

  /** Every directory names the same inodes, and only directory i names them under other records, each of them once. */
  ghost predicate SameNaming(ns: Ns, after: Ns, i: nat) {
    && (forall e, x :: ChildOf(after, e, x) <==> ChildOf(ns, e, x))
    && (forall e, r, x :: e != i ==> (NamesInode(after, e, r, x) <==> NamesInode(ns, e, r, x)))
    && forall r, q, x :: NamesInode(after, i, r, x) && NamesInode(after, i, q, x) ==> r == q
  }

  lemma StandingNames(ns: Ns, i: nat, recs: seq<Rec>, links: nat)
    requires i in ns.dirs && i in ns.nlink && StandsFor(ns, i, recs, links)
    ensures SameNaming(ns, WithDir(ns, i, recs, links), i)
  {
    var after := WithDir(ns, i, recs, links);
    forall e, x
      ensures ChildOf(after, e, x) <==> ChildOf(ns, e, x)
    {
      if e != i {
        assert forall r :: NamesInode(after, e, r, x) <==> NamesInode(ns, e, r, x);
      }
    }
  }

  lemma SameNamingLive(ns: Ns, after: Ns, i: nat)
    requires NamedAreLive(ns) && LiveAreNamed(ns) && SameNaming(ns, after, i) && after.live == ns.live
    ensures NamedAreLive(after) && LiveAreNamed(after)
  {
    forall e, r, x | NamesInode(after, e, r, x)
      ensures x in after.live && x != ROOT_INO
    {
      assert ChildOf(after, e, x);
      var q :| NamesInode(ns, e, q, x);
    }
    forall x | x in after.live && x != ROOT_INO
      ensures IsNamed(after, x)
    {
      assert IsNamed(ns, x);
      var e, r :| NamesInode(ns, e, r, x);
      assert ChildOf(ns, e, x);
      assert ChildOf(after, e, x);
      var q :| NamesInode(after, e, q, x);
    }
  }

  lemma SameNamingOnce(ns: Ns, after: Ns, i: nat)
    requires NamedOnce(ns) && SameNaming(ns, after, i)
    ensures NamedOnce(after)
  {
    forall x, d, r, e, q | NamesInode(after, d, r, x) && NamesInode(after, e, q, x)
      ensures d == e && r == q
    {
      assert ChildOf(after, d, x) && ChildOf(after, e, x);
      var r' :| NamesInode(ns, d, r', x);
      var q' :| NamesInode(ns, e, q', x);
    }
  }

  lemma SameNamingParents(ns: Ns, after: Ns, i: nat)
    requires ParentsNameThem(ns) && SameNaming(ns, after, i) && SameDots(ns, after) && after.dirs.Keys == ns.dirs.Keys
    ensures ParentsNameThem(after)
  {
    forall e | e in after.dirs && e != ROOT_INO
      ensures ParentNames(after, e)
    {
      assert ParentNames(ns, e);
      assert ChildOf(ns, Parent(ns, e), e);
      assert ChildOf(after, Parent(ns, e), e);
    }
  }

  lemma SameNamingLinks(ns: Ns, after: Ns, i: nat)
    requires LinksCount(ns) && NamedOnce(ns) && SameNaming(ns, after, i) && after.dirs.Keys == ns.dirs.Keys
    requires after.nlink == ns.nlink && i in ns.dirs
    ensures LinksCount(after)
  {
    SameSubdirCount(ns, after, i);
    forall e | e in after.dirs && e != i
      ensures Subdirs(after, e) == Subdirs(ns, e)
    {
      SameSubdirs(ns, after, e);
    }
  }

  lemma StandingShape(ns: Ns, i: nat, recs: seq<Rec>, links: nat) returns (after: Ns)
    requires TreeInv(ns) && i in ns.dirs && StandsFor(ns, i, recs, links)
    ensures after == WithDir(ns, i, recs, links) && Shape(after) && NoOtherDots(after) && SameDots(ns, after)
    ensures after.live == ns.live && after.dirs.Keys == ns.dirs.Keys && after.nlink == ns.nlink
  {
    after := WithDir(ns, i, recs, links);
    assert ns.nlink[i := ns.nlink[i]] == ns.nlink;
    forall e, r | e in after.dirs && (if e == ROOT_INO then 0 else 2) <= r < |after.dirs[e]|
      && after.dirs[e][r].ino != 0
      ensures NamesInode(after, e, r, after.dirs[e][r].ino)
    {
      if e != i {
        assert NamesInode(ns, e, r, ns.dirs[e][r].ino);
      }
    }
  }

  lemma StandingKeepsTree(ns: Ns, i: nat, recs: seq<Rec>, links: nat) returns (after: Ns)
    requires TreeInv(ns) && i in ns.dirs && StandsFor(ns, i, recs, links)
    ensures after == WithDir(ns, i, recs, links) && TreeInv(after)
  {
    after := StandingShape(ns, i, recs, links);
    StandingNames(ns, i, recs, links);
    SameNamingTree(ns, after, i);
  }

  lemma SameNamingTree(ns: Ns, after: Ns, i: nat)
    requires TreeInv(ns) && i in ns.dirs && SameNaming(ns, after, i)
    requires Shape(after) && NoOtherDots(after) && SameDots(ns, after)
    requires after.live == ns.live && after.dirs.Keys == ns.dirs.Keys && after.nlink == ns.nlink
    ensures TreeInv(after)
  {
    SameNamingLive(ns, after, i);
    SameNamingOnce(ns, after, i);
    SameNamingParents(ns, after, i);
    SameNamingLinks(ns, after, i);
    AllStillReach(ns, after, -1);
  }

  lemma KeptChildren(ns: Ns, after: Ns, i: nat)
    requires TreeInv(ns) && TreeInv(after) && i in ns.dirs && after.live == ns.live
    requires forall e, r, x :: e != i ==> (NamesInode(after, e, r, x) <==> NamesInode(ns, e, r, x))
    ensures SameChildren(ns, after, i)
  {
    forall x
      ensures ChildOf(after, i, x) <==> ChildOf(ns, i, x)
    {
      if ChildOf(after, i, x) {
        StaysChild(after, ns, i, x);
      }
      if ChildOf(ns, i, x) {
        StaysChild(ns, after, i, x);
      }
    }
  }

  lemma StaysChild(ns: Ns, after: Ns, i: nat, x: int)
    requires NamedAreLive(ns) && NamedOnce(ns) && LiveAreNamed(after) && after.live == ns.live && ChildOf(ns, i, x)
    requires forall e, r, x :: e != i ==> (NamesInode(after, e, r, x) <==> NamesInode(ns, e, r, x))
    ensures ChildOf(after, i, x)
  {
    var r :| NamesInode(ns, i, r, x);
    assert IsNamed(after, x);
    var e, q :| NamesInode(after, e, q, x);
    if e != i {
      assert false;
    }
  }

  lemma KeptParent(ns: Ns, after: Ns, i: nat)
    requires TreeInv(ns) && ParentsNameThem(after) && i in ns.dirs && i in after.dirs && i != ROOT_INO
    requires forall e, x :: ChildOf(after, e, x) <==> ChildOf(ns, e, x)
    ensures SameParent(ns, after, i)
  {
    assert ParentNames(ns, i) && ParentNames(after, i);
    assert ChildOf(ns, Parent(ns, i), i);
    assert ChildOf(after, Parent(after, i), i);
    assert ChildOf(ns, Parent(after, i), i);
  }

  /** Other records and another link count for a directory of a tree leave a tree exactly when they can stand for the
      old ones. */
  lemma OtherRecords(ns: Ns, i: nat, recs: seq<Rec>, links: nat)
    requires TreeInv(ns) && i in ns.dirs
    ensures TreeInv(WithDir(ns, i, recs, links)) <==> StandsFor(ns, i, recs, links)
  {
    var after := WithDir(ns, i, recs, links);
    if StandsFor(ns, i, recs, links) {
      after := StandingKeepsTree(ns, i, recs, links);
    }
    if TreeInv(after) {
      KeptChildren(ns, after, i);
      forall e, x
        ensures ChildOf(after, e, x) <==> ChildOf(ns, e, x)
      {
        if e != i {
          assert forall r :: NamesInode(after, e, r, x) <==> NamesInode(ns, e, r, x);
        }
      }
      SameSubdirCount(ns, after, i);
      if i != ROOT_INO {
        KeptParent(ns, after, i);
      }
    }
  }

  // ---- an inode of another kind ----

  lemma {:induction false} NotItsOwnParent(ns: Ns, i: nat, n: nat)
    requires i != ROOT_INO && HasDots(ns, i) && Parent(ns, i) == i
    ensures !ReachesRoot(ns, i, n)
  {
    if n > 0 {
      NotItsOwnParent(ns, i, n - 1);
    }
  }

  lemma NotItsOwnChild(ns: Ns, i: nat, f: int)
    requires TreeInv(ns) && i in ns.dirs && i != ROOT_INO
    ensures !NamesInode(ns, i, f, i)
  {
    assert Rooted(ns, i) && ParentNames(ns, i);
    var n: nat :| ReachesRoot(ns, i, n);
    if Parent(ns, i) == i {
      NotItsOwnParent(ns, i, n);
    }
  }

  lemma NamedElsewhere(ns: Ns, i: nat) returns (p: nat, f: nat)
    requires TreeInv(ns) && i in ns.live && i != ROOT_INO
    ensures NamesInode(ns, p, f, i) && p != i
  {
    assert IsNamed(ns, i);
    var e, r :| NamesInode(ns, e, r, i);
    p, f := e, r;
    if i in ns.dirs {
      NotItsOwnChild(ns, i, r);
    }
  }

  /** A file that becomes a directory gives its parent a subdirectory and no link. */
  lemma FileToDir(ns: Ns, i: nat, recs: seq<Rec>, links: nat)
    requires TreeInv(ns) && i in ns.live && i !in ns.dirs && i != ROOT_INO
    ensures !TreeInv(WithDir(ns, i, recs, links))
  {
    var after := WithDir(ns, i, recs, links);
    var p, f := NamedElsewhere(ns, i);
    assert forall r, x :: NamesInode(after, p, r, x) <==> NamesInode(ns, p, r, x);
    MoreSubdirs(ns, after, p, f, i);
    assert after.nlink[p] == ns.nlink[p];
  }

  lemma MoreSubdirs(ns: Ns, after: Ns, p: nat, f: nat, i: nat)
    requires NamedOnce(ns) && p in ns.dirs && p in after.dirs && NamesInode(ns, p, f, i)
    requires forall r, x :: NamesInode(after, p, r, x) <==> NamesInode(ns, p, r, x)
    requires i !in ns.dirs && after.dirs.Keys == ns.dirs.Keys + {i}
    ensures |Subdirs(after, p)| == |Subdirs(ns, p)| + 1
  {
    forall r: nat
      ensures r in Subdirs(after, p) <==> r in Subdirs(ns, p) + {f}
    {
      if r in Subdirs(after, p) {
        assert NamesInode(ns, p, r, after.dirs[p][r].ino);
      }
      if r in Subdirs(ns, p) {
        assert NamesInode(after, p, r, ns.dirs[p][r].ino);
      }
    }
    assert Subdirs(after, p) == Subdirs(ns, p) + {f};
  }

  /** A directory that becomes a file takes a subdirectory from its parent and no link. */
  lemma DirToFile(ns: Ns, i: nat)
    requires TreeInv(ns) && i in ns.dirs && i != ROOT_INO
    ensures !TreeInv(WithoutDir(ns, i))
  {
    var after := WithoutDir(ns, i);
    var p, f := NamedElsewhere(ns, i);
    assert forall r, x :: NamesInode(after, p, r, x) <==> NamesInode(ns, p, r, x);
    if NamedOnce(after) {
      MoreSubdirs(after, ns, p, f, i);
    }
    assert after.nlink[p] == ns.nlink[p];
  }

  // ---- the load of an inode in memory ----

  lemma LoadedRecs(fs: FS, i: nat) returns (recs: seq<Rec>)
    requires OwnInv(fs) && InTableRange(fs, i) && Loadable(fs, i)
    ensures PtrsIn(fs.disk, Load(fs, i)) && recs == RecsOf(fs.disk, Load(fs, i)) && |recs| <= MAX_RECS
  {
    recs := RecsOf(fs.disk, Load(fs, i));
  }

  lemma LoadLeavesDir(fs: FS, i: nat, d: nat)
    requires OwnInv(fs) && InTableRange(fs, i) && OwnInv(Reloaded(fs, i)) && d != i
    ensures DirIn(Reloaded(fs, i), d) <==> DirIn(fs, d)
    ensures DirIn(fs, d) ==> DirRecs(Reloaded(fs, i), d) == DirRecs(fs, d)
    ensures DirIn(fs, d) ==> Reloaded(fs, i).inodes[d].nlink == fs.inodes[d].nlink
  {
  }

  /** Directories other than i are the same in both states. */
  ghost predicate OtherDirsSame(fs: FS, after: FS, i: nat) {
    forall d: nat :: d != i ==>
      && (DirIn(after, d) <==> DirIn(fs, d))
      && (DirOk(fs, d) && DirOk(after, d) && DirIn(fs, d) ==>
            DirRecs(after, d) == DirRecs(fs, d) && after.inodes[d].nlink == fs.inodes[d].nlink)
  }

  lemma StillDir(fs: FS, after: FS, i: nat)
    requires OwnInv(fs) && OwnInv(after) && OtherDirsSame(fs, after, i) && after.inodes.Keys == fs.inodes.Keys
    requires DirIn(after, i)
    ensures DirOk(after, i) && NsOf(after) == WithDir(NsOf(fs), i, DirRecs(after, i), after.inodes[i].nlink)
  {
    var ns := WithDir(NsOf(fs), i, DirRecs(after, i), after.inodes[i].nlink);
    forall d: nat
      ensures d in ns.dirs <==> DirIn(after, d)
      ensures d in ns.nlink <==> DirIn(after, d)
      ensures DirIn(after, d) ==> ns.dirs[d] == DirRecs(after, d) && ns.nlink[d] == after.inodes[d].nlink
    {
      assert d != i && DirIn(fs, d) ==> DirOk(fs, d) && DirOk(after, d);
    }
    NsOfIs(ns, after);
  }

  lemma NoLongerDir(fs: FS, after: FS, i: nat)
    requires OwnInv(fs) && OwnInv(after) && OtherDirsSame(fs, after, i) && after.inodes.Keys == fs.inodes.Keys
    requires !DirIn(after, i)
    ensures NsOf(after) == WithoutDir(NsOf(fs), i)
  {
    var ns := WithoutDir(NsOf(fs), i);
    forall d: nat
      ensures d in ns.dirs <==> DirIn(after, d)
      ensures d in ns.nlink <==> DirIn(after, d)
      ensures DirIn(after, d) ==> ns.dirs[d] == DirRecs(after, d) && ns.nlink[d] == after.inodes[d].nlink
    {
      assert d != i && DirIn(fs, d) ==> DirOk(fs, d) && DirOk(after, d);
    }
    NsOfIs(ns, after);
  }

  lemma LoadLeavesDirs(fs: FS, i: nat) returns (after: FS)
    requires OwnInv(fs) && i in fs.inodes && InTableRange(fs, i) && Loadable(fs, i)
    ensures after == Reloaded(fs, i) && OwnInv(after) && OtherDirsSame(fs, after, i)
    ensures after.inodes.Keys == fs.inodes.Keys && after.inodes[i] == Load(fs, i) && after.disk == fs.disk
  {
    after := Reloaded(fs, i);
    LoadableKeeps(fs, i);
    forall d: nat | d != i
      ensures DirIn(after, d) <==> DirIn(fs, d)
      ensures DirIn(fs, d) ==> DirRecs(after, d) == DirRecs(fs, d) && after.inodes[d].nlink == fs.inodes[d].nlink
    {
      LoadLeavesDir(fs, i, d);
    }
  }

  /** The namespace after the load of a live inode: only the loaded inode may be another directory, or one at all. */
  lemma LoadedNs(fs: FS, i: nat) returns (after: FS)
    requires OwnInv(fs) && i in fs.inodes && InTableRange(fs, i) && Loadable(fs, i)
    ensures after == Reloaded(fs, i) && OwnInv(after) && PtrsIn(fs.disk, Load(fs, i))
    ensures NsOf(after) == if IsDir(Load(fs, i).mode)
                           then WithDir(NsOf(fs), i, RecsOf(fs.disk, Load(fs, i)), Load(fs, i).nlink)
                           else WithoutDir(NsOf(fs), i)
  {
    after := LoadLeavesDirs(fs, i);
    var recs := LoadedRecs(fs, i);
    if IsDir(Load(fs, i).mode) {
      StillDir(fs, after, i);
    } else {
      NoLongerDir(fs, after, i);
    }
  }

  /** The image of inode i has its kind, and that of a directory has records and a link count that can stand for those
      in memory. */
  ghost predicate TreeImage(fs: FS, i: nat)
    requires OwnInv(fs) && i in fs.inodes && InTableRange(fs, i) && PtrsIn(fs.disk, Load(fs, i))
  {
    var m := Load(fs, i);
    if DirIn(fs, i) then IsDir(m.mode) && StandsFor(NsOf(fs), i, RecsOf(fs.disk, m), m.nlink) else !IsDir(m.mode)
  }

  lemma LoadedDirTree(ns: Ns, i: nat, dir: bool, recs: seq<Rec>, links: nat)
    requires TreeInv(ns) && i in ns.dirs && (i == ROOT_INO ==> dir)
    ensures var after := if dir then WithDir(ns, i, recs, links) else WithoutDir(ns, i);
      TreeInv(after) <==> dir && StandsFor(ns, i, recs, links)
  {
    if dir {
      OtherRecords(ns, i, recs, links);
    } else {
      DirToFile(ns, i);
    }
  }

  lemma NotADir(ns: Ns, i: nat)
    requires i !in ns.dirs && ns.nlink.Keys == ns.dirs.Keys
    ensures WithoutDir(ns, i) == ns
  {
    assert ns.dirs - {i} == ns.dirs && ns.nlink - {i} == ns.nlink;
  }

  lemma LoadedFileTree(ns: Ns, i: nat, dir: bool, recs: seq<Rec>, links: nat)
    requires TreeInv(ns) && i in ns.live && i !in ns.dirs && i != ROOT_INO
    ensures TreeInv(if dir then WithDir(ns, i, recs, links) else WithoutDir(ns, i)) <==> !dir
  {
    if dir {
      FileToDir(ns, i, recs, links);
    } else {
      NotADir(ns, i);
    }
  }

  /** Loading a live inode of a tree leaves a tree exactly when the image is one of a file for a file, and for a
      directory one of a directory with the same children, parent and link count. */
  lemma LoadKeepsTree(fs: FS, i: nat) returns (after: FS)
    requires OwnInv(fs) && TreeInv(NsOf(fs)) && i in fs.inodes && InTableRange(fs, i) && Loadable(fs, i)
    ensures after == Reloaded(fs, i) && OwnInv(after) && PtrsIn(fs.disk, Load(fs, i))
    ensures TreeInv(NsOf(after)) <==> TreeImage(fs, i)
  {
    after := LoadedNs(fs, i);
    var ns, m := NsOf(fs), Load(fs, i);
    if DirIn(fs, i) {
      LoadedDirTree(ns, i, IsDir(m.mode), RecsOf(fs.disk, m), m.nlink);
    } else {
      LoadedFileTree(ns, i, IsDir(m.mode), RecsOf(fs.disk, m), m.nlink);
    }
  }
}
