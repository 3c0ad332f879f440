/** Every directory as a finite map: create, mkdir, unlink and rmdir are its insert and delete. */
module DirMaps {
  import opened Bytes
  import opened Records
  import opened Directory
  import opened State
  import opened Steps
  import opened Ownership
  import opened Accounting
  import opened Namespace
  import opened Simulation
  import opened Runs
  import opened TreeRuns

  ghost predicate AllUnique(ns: Ns) {
    forall d :: d in ns.dirs ==> UniqueNames(ns.dirs[d])
  }

  /** The contents of directory d as a map from names to inode numbers. */
  function MapOf(ns: Ns, d: nat): map<Name, nat>
    requires d in ns.dirs
  {
    Entries(ns.dirs[d])
  }

  lemma DotRecsMap(ino: nat, parent: nat)
    requires ino != 0 && parent != 0
    ensures UniqueNames(DotRecs(ino, parent)) && Entries(DotRecs(ino, parent)) == map[DOT := ino, DOTDOT := parent]
  {
    var recs, m := DotRecs(ino, parent), map[DOT := ino, DOTDOT := parent];
    DotsAreDots(ino);
    DotsAreDots(parent);
    assert Used(recs, 0) && Used(recs, 1) && !Used(recs, 2);
    assert UniqueNames(recs);
    forall name | name in m
      ensures exists r :: Used(recs, r) && NameOf(recs[r]) == name
    {
      assert NameOf(recs[if name == DOT then 0 else 1]) == name;
    }
    MapIsUnique(recs, m);
  }

  lemma EnterMap(ns: Ns, d: nat, name: Name, ino: nat)
    requires Tidy(ns) && AllUnique(ns) && d in ns.dirs && ino != 0
    ensures var after := Enter(ns, d, name, ino);
      && (AllUnique(after) <==> Stored(name) !in MapOf(ns, d))
      && (AllUnique(after) ==> MapOf(after, d) == MapOf(ns, d)[Stored(name) := ino])
  {
    AddIsInsert(ns.dirs[d], name, ino);
    var after := Enter(ns, d, name, ino);
    if UniqueNames(after.dirs[d]) {
      assert AllUnique(after);
    }
  }

  lemma LeaveMap(ns: Ns, d: nat, name: Name)
    requires Tidy(ns) && AllUnique(ns) && d in ns.dirs
    ensures var after := Leave(ns, d, name);
      AllUnique(after) && MapOf(after, d) == MapOf(ns, d) - {name}
  {
    RemoveIsDelete(ns.dirs[d], name);
  }

  /** after is ns with name inserted into the map of d, and nothing else changed in the directories both have. */
  ghost predicate Inserts(ns: Ns, after: Ns, d: nat, name: Name, ino: nat) {
    && d in ns.dirs && ns.dirs.Keys <= after.dirs.Keys
    && MapOf(after, d) == MapOf(ns, d)[name := ino]
    && forall e :: e in ns.dirs && e != d ==> after.dirs[e] == ns.dirs[e]
  }

  /** after is ns with name deleted from the map of d, and nothing else changed in the directories both have. */
  ghost predicate Deletes(ns: Ns, after: Ns, d: nat, name: Name) {
    && d in ns.dirs && d in after.dirs && after.dirs.Keys <= ns.dirs.Keys
    && MapOf(after, d) == MapOf(ns, d) - {name}
    && forall e :: e in after.dirs && e != d ==> after.dirs[e] == ns.dirs[e]
  }

  lemma CreateMap(ns: Ns, after: Ns, d: nat, name: Name, ino: nat)
    requires Tidy(ns) && AllUnique(ns) && d in ns.dirs && ino != 0 && after.dirs == Enter(ns, d, name, ino).dirs
    ensures AllUnique(after) <==> Stored(name) !in MapOf(ns, d)
    ensures AllUnique(after) ==> Inserts(ns, after, d, Stored(name), ino)
  {
    EnterMap(ns, d, name, ino);
    assert AllUnique(after) <==> AllUnique(Enter(ns, d, name, ino));
  }

  /** A create that succeeds without leaking inserts its name, as far as 127 characters of it, into the map of its
      directory and into no other; names stay unique exactly when the stored name was not there yet. */
  lemma CreateIsInsert(fs: FS, d: nat, name: Name, cred: Cred)
    returns (result: FS, ns: Ns, after: Ns)
    requires OwnInv(fs) && DirIn(fs, d) && !IsDir(cred.mode) && !Fails(fs, d) && !AddLeaks(fs, d)
    requires Tidy(NsOf(fs)) && AllUnique(NsOf(fs))
    ensures result == Create(fs, d, name, cred).0 && OwnInv(result) && ns == NsOf(fs) && after == NsOf(result)
    ensures d in ns.dirs && after.dirs.Keys == ns.dirs.Keys
    ensures AllUnique(after) <==> Stored(name) !in MapOf(ns, d)
    ensures AllUnique(after) ==> Inserts(ns, after, d, Stored(name), FreeInode(fs).value)
  {
    CreateSim(fs, d, name, cred);
    FreeInodeIsNew(fs);
    result := Create(fs, d, name, cred).0;
    ns, after := NsOf(fs), NsOf(result);
    CreateMap(ns, after, d, name, FreeInode(fs).value);
  }

  lemma InstallUnique(ns: Ns, after: Ns, ino: nat, d: nat)
    requires ino !in ns.dirs && ino != 0 && d != 0 && after.dirs == ns.dirs[ino := DotRecs(ino, d)]
    ensures AllUnique(after) <==> AllUnique(ns)
    ensures MapOf(after, ino) == map[DOT := ino, DOTDOT := d]
  {
    DotRecsMap(ino, d);
    if AllUnique(after) {
      forall e | e in ns.dirs
        ensures UniqueNames(ns.dirs[e])
      {
        assert after.dirs[e] == ns.dirs[e];
      }
    }
  }

  /** Adding a directory of another number leaves the insertion what it was. */
  lemma InsertsAlso(ns: Ns, mid: Ns, after: Ns, d: nat, name: Name, ino: nat)
    requires d in ns.dirs && ino !in ns.dirs && mid.dirs.Keys == ns.dirs.Keys
    requires after.dirs == mid.dirs[ino := DotRecs(ino, d)] && Inserts(ns, mid, d, name, ino)
    ensures Inserts(ns, after, d, name, ino)
  {
    assert after.dirs[d] == mid.dirs[d];
    forall e | e in ns.dirs && e != d
      ensures after.dirs[e] == ns.dirs[e]
    {
      assert mid.dirs[e] == ns.dirs[e];
    }
  }

  lemma MkdirMap(ns: Ns, mid: Ns, after: Ns, d: nat, name: Name, ino: nat)
    requires Tidy(ns) && AllUnique(ns) && d in ns.dirs && ino != 0 && d != 0 && ino !in ns.dirs
    requires mid == Enter(ns, d, name, ino) && after.dirs == mid.dirs[ino := DotRecs(ino, d)]
    ensures AllUnique(after) <==> Stored(name) !in MapOf(ns, d)
    ensures AllUnique(after) ==> Inserts(ns, after, d, Stored(name), ino)
    ensures after.dirs.Keys == ns.dirs.Keys + {ino} && MapOf(after, ino) == map[DOT := ino, DOTDOT := d]
  {
    CreateMap(ns, mid, d, name, ino);
    InstallUnique(mid, after, ino, d);
    if AllUnique(after) {
      InsertsAlso(ns, mid, after, d, Stored(name), ino);
    }
  }

  lemma MkdirDirs(fs: FS, d: nat, name: Name, cred: Cred) returns (result: FS)
    requires OwnInv(fs) && DirIn(fs, d) && !MkdirFails(fs, d) && !MkdirLeaks(fs, d)
    ensures result == Mkdir(fs, d, name, cred).0 && OwnInv(result)
    ensures var ino := FreeInode(fs).value;
      NsOf(result).dirs == Enter(NsOf(fs), d, name, ino).dirs[ino := DotRecs(ino, d)]
  {
    result := MkdirSim(fs, d, name, cred);
  }

  /** mkdir likewise, and its new directory holds exactly "." and "..". */
  lemma MkdirIsInsert(fs: FS, d: nat, name: Name, cred: Cred)
    returns (result: FS, ns: Ns, after: Ns)
    requires OwnInv(fs) && DirIn(fs, d) && !MkdirFails(fs, d) && !MkdirLeaks(fs, d)
    requires Tidy(NsOf(fs)) && AllUnique(NsOf(fs))
    ensures result == Mkdir(fs, d, name, cred).0 && OwnInv(result) && ns == NsOf(fs) && after == NsOf(result)
    ensures var ino := FreeInode(fs).value;
      ino !in ns.dirs && after.dirs.Keys == ns.dirs.Keys + {ino} && MapOf(after, ino) == map[DOT := ino, DOTDOT := d]
    ensures AllUnique(after) <==> Stored(name) !in MapOf(ns, d)
    ensures AllUnique(after) ==> Inserts(ns, after, d, Stored(name), FreeInode(fs).value)
  {
    result := MkdirDirs(fs, d, name, cred);
    FreeInodeIsNew(fs);
    ns, after := NsOf(fs), NsOf(result);
    MkdirMap(ns, Enter(ns, d, name, FreeInode(fs).value), after, d, name, FreeInode(fs).value);
  }

  lemma LookupMap(ns: Ns, d: nat, name: Name)
    requires Tidy(ns) && AllUnique(ns) && d in ns.dirs
    ensures name in MapOf(ns, d) <==> FirstMatch(ns.dirs[d], name) < |ns.dirs[d]|
  {
    LookupIsGet(ns.dirs[d], name);
  }

  lemma DeleteMap(ns: Ns, after: Ns, d: nat, name: Name)
    requires Tidy(ns) && AllUnique(ns) && d in ns.dirs && after.dirs == Leave(ns, d, name).dirs
    ensures AllUnique(after) && Deletes(ns, after, d, name) && after.dirs.Keys == ns.dirs.Keys
  {
    LeaveMap(ns, d, name);
  }

  lemma DeleteDirMap(ns: Ns, after: Ns, d: nat, name: Name, i: nat)
    requires Tidy(ns) && AllUnique(ns) && d in ns.dirs && i != d && after.dirs == Leave(ns, d, name).dirs - {i}
    ensures AllUnique(after) && Deletes(ns, after, d, name) && after.dirs.Keys == ns.dirs.Keys - {i}
  {
    LeaveMap(ns, d, name);
  }

  /** unlink deletes the name from the map of its directory and from no other, or fails because it is not there. */
  lemma UnlinkIsDelete(fs: FS, d: nat, name: Name, i: nat)
    returns (result: FS, ns: Ns, after: Ns)
    requires OwnInv(fs) && DirIn(fs, d) && DirOk(fs, d) && i in fs.inodes && !IsDir(fs.inodes[i].mode)
    requires Tidy(NsOf(fs)) && AllUnique(NsOf(fs))
    ensures result == Unlink(fs, d, name, i).0 && OwnInv(result) && ns == NsOf(fs) && after == NsOf(result)
    ensures Unlink(fs, d, name, i).1 < 0 <==> name !in MapOf(ns, d)
    ensures AllUnique(after) && after.dirs.Keys == ns.dirs.Keys && Deletes(ns, after, d, name)
  {
    result := UnlinkSim(fs, d, name, i);
    ns, after := NsOf(fs), NsOf(result);
    RemoveEntryRecs(fs, d, name);
    NsUpdateSame(fs, d);
    LookupMap(ns, d, name);
    assert ns.dirs[d := ns.dirs[d]] == ns.dirs;
    DeleteMap(ns, after, d, name);
  }

  lemma RmdirDirs(fs: FS, d: nat, name: Name, i: nat) returns (result: FS)
    requires OwnInv(fs) && DirIn(fs, d) && i in fs.inodes && i != ROOT_INO && i != d
    ensures result == Rmdir(fs, d, name, i).0 && OwnInv(result)
    ensures var ns := NsOf(fs);
      if DirIn(fs, i) && EmptyDir(ns.dirs[i]) && FirstMatch(ns.dirs[d], name) < |ns.dirs[d]|
      then NsOf(result).dirs == Leave(ns, d, name).dirs - {i} else result == fs
  {
    result := RmdirSim(fs, d, name, i);
  }

  /** rmdir deletes the name of an empty directory together with the directory, or changes nothing. */
  lemma RmdirIsDelete(fs: FS, d: nat, name: Name, i: nat)
    returns (result: FS, ns: Ns, after: Ns)
    requires OwnInv(fs) && DirIn(fs, d) && DirOk(fs, d) && DirOk(fs, i) && i != ROOT_INO && i != d
    requires Tidy(NsOf(fs)) && AllUnique(NsOf(fs))
    ensures result == Rmdir(fs, d, name, i).0 && OwnInv(result) && ns == NsOf(fs) && after == NsOf(result)
    ensures AllUnique(after)
    ensures if DirIn(fs, i) && EmptyDir(ns.dirs[i]) && name in MapOf(ns, d)
            then after.dirs.Keys == ns.dirs.Keys - {i} && Deletes(ns, after, d, name) else after == ns
  {
    result := RmdirDirs(fs, d, name, i);
    ns, after := NsOf(fs), NsOf(result);
    LookupMap(ns, d, name);
    if DirIn(fs, i) && EmptyDir(ns.dirs[i]) && name in MapOf(ns, d) {
      DeleteDirMap(ns, after, d, name, i);
    }
  }

  // ---- names stay unique ----

  /** The call enters a name whose stored form its directory holds already. */
  ghost predicate Clashes(fs: FS, op: Op)
    requires OwnInv(fs) && Enabled(fs, op)
  {
    match op
    case OpCreate(d, name, _) => !Fails(fs, d) && !AddLeaks(fs, d) && Stored(name) in MapOf(NsOf(fs), d)
    case OpMkdir(d, name, _) => !MkdirFails(fs, d) && !MkdirLeaks(fs, d) && Stored(name) in MapOf(NsOf(fs), d)
    case _ => false
  }

  lemma LeakingMkdirUnique(fs: FS, d: nat, name: Name, cred: Cred) returns (after: FS)
    requires OwnInv(fs) && AllUnique(NsOf(fs)) && DirIn(fs, d) && !MkdirFails(fs, d) && MkdirLeaks(fs, d)
    ensures after == Mkdir(fs, d, name, cred).0 && OwnInv(after) && AllUnique(NsOf(after))
  {
    after := MkdirSim(fs, d, name, cred);
    FreeInodeIsNew(fs);
    InstallUnique(NsOf(fs), NsOf(after), FreeInode(fs).value, d);
  }

  /** A call keeps the names of every directory unique exactly when it does not enter a stored name a second time. */
  lemma StepUnique(fs: FS, op: Op)
    requires OwnInv(fs) && Tidy(NsOf(fs)) && AllUnique(NsOf(fs)) && Enabled(fs, op)
    ensures AllUnique(NsOf(Next(fs, op))) <==> !Clashes(fs, op)
  {
    match op
    case OpCreate(d, name, cred) =>
      CreateSim(fs, d, name, cred);
      if !Fails(fs, d) && !AddLeaks(fs, d) {
        var _, _, _ := CreateIsInsert(fs, d, name, cred);
      }
    case OpMkdir(d, name, cred) =>
      var _ := MkdirSim(fs, d, name, cred);
      if !MkdirFails(fs, d) && !MkdirLeaks(fs, d) {
        var _, _, _ := MkdirIsInsert(fs, d, name, cred);
      } else if !MkdirFails(fs, d) {
        var _ := LeakingMkdirUnique(fs, d, name, cred);
      }
    case OpUnlink(d, name, i) => var _, _, _ := UnlinkIsDelete(fs, d, name, i);
    case OpRmdir(d, name, i) => var _, _, _ := RmdirIsDelete(fs, d, name, i);
    case _ => var _ := DataNs(fs, op);
  }
}
