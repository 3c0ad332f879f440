/** Sessions that enter only names which fit a record and load only current images: every dentry tells the truth, no
    call mismatches, and the namespace ends as a tree exactly when no call leaked. */
module CoherentSessions {
  import opened Bytes
  import opened Records
  import opened Directory
  import opened State
  import opened Steps
  import opened Ownership
  import opened Accounting
  import opened Namespace
  import opened Simulation
  import opened Runs
  import opened TreeRuns
  import opened DirMaps
  import opened Books
  import opened LinkRuns
  import opened Reload
  import opened Sessions
  import opened Visible

  /** What the call loads, if anything, is the image of an inode in memory, as it is there. */
  ghost predicate LoadsCurrent(w: World, call: VfsCall) {
    Made(w, call) && Loads(w, call).Some? ==> Current(w.fs, Loads(w, call).value)
  }

  /** A lookup that loads a current image changes ownership and the namespace in nothing, and neither does any other
      call that is not one of the filesystem. */
  lemma CurrentCall(w: World, call: VfsCall)
    requires Made(w, call) && !call.Do? && LoadsCurrent(w, call)
    ensures OwnInv(Outcome(w, call).fs) && NsOf(Outcome(w, call).fs) == NsOf(w.fs)
  {
    if Loads(w, call).Some? {
      var _, _ := FoundNumber(w, call);
      CurrentReload(w.fs, Loads(w, call).value);
    }
  }

  // ---- dentries that tell the truth ----

  /** A dentry known to be absent is absent, and a name that is there is bound to what its dentry says. */
  ghost predicate Truthful(ns: Ns, dents: Dents) {
    forall k :: k in dents ==>
      && k.0 in ns.dirs
      && (k.1 in MapOf(ns, k.0) ==> dents[k] == Some(MapOf(ns, k.0)[k.1]))
  }

  lemma InsertTruthful(ns: Ns, after: Ns, dents: Dents, d: nat, name: Name, ino: nat)
    requires Truthful(ns, dents) && Inserts(ns, after, d, name, ino)
    ensures Truthful(after, dents[(d, name) := Some(ino)])
  {
    forall k | k in dents && k != (d, name)
      ensures k.0 in after.dirs && (k.1 in MapOf(after, k.0) <==> k.1 in MapOf(ns, k.0))
      ensures k.1 in MapOf(ns, k.0) ==> MapOf(after, k.0)[k.1] == MapOf(ns, k.0)[k.1]
    {
      assert k.0 == d ==> k.1 != name;
    }
  }

  lemma DeleteTruthful(ns: Ns, after: Ns, dents: Dents, d: nat, name: Name, i: nat)
    requires Truthful(ns, dents) && Deletes(ns, after, d, name) && ns.dirs.Keys - {i} <= after.dirs.Keys
    ensures Truthful(after, Without(dents, i)) && Truthful(after, Without(dents, i)[(d, name) := None])
  {
    forall k | k in Without(dents, i)
      ensures k.0 in after.dirs
      ensures (k.1 in MapOf(after, k.0) ==> k.1 in MapOf(ns, k.0) && MapOf(after, k.0)[k.1] == MapOf(ns, k.0)[k.1])
    {
    }
  }

  /** Directories that are there before and after hold the same records. */
  lemma SameTruthful(ns: Ns, after: Ns, dents: Dents)
    requires Truthful(ns, dents) && forall e :: e in ns.dirs ==> e in after.dirs && after.dirs[e] == ns.dirs[e]
    ensures Truthful(after, dents)
  {
    assert forall k :: k in dents ==> MapOf(after, k.0) == MapOf(ns, k.0);
  }

  /** A dentry whose name is not there may be bound to anything. */
  lemma BindAbsent(ns: Ns, dents: Dents, d: nat, name: Name, ino: Option<nat>)
    requires Truthful(ns, dents) && d in ns.dirs && name !in MapOf(ns, d)
    ensures Truthful(ns, dents[(d, name) := ino])
  {
  }

  /** Names unique, records tidy, dentries truthful. */
  ghost predicate Coherent(w: World) {
    OwnInv(w.fs) && Tidy(NsOf(w.fs)) && AllUnique(NsOf(w.fs)) && Truthful(NsOf(w.fs), w.dents)
  }

  /** A name to be entered fits a record. */
  predicate NameFits(call: VfsCall) {
    match call
    case Do(OpCreate(_, name, _)) => |name| < MAX_FILENAME_LEN
    case Do(OpMkdir(_, name, _)) => |name| < MAX_FILENAME_LEN
    case _ => true
  }

  lemma AnswerIsGet(ns: Ns, d: nat, name: Name)
    requires Tidy(ns) && AllUnique(ns) && d in ns.dirs
    ensures Answer(ns.dirs[d], name) == if name in MapOf(ns, d) then Some(MapOf(ns, d)[name]) else None
  {
    LookupIsGet(ns.dirs[d], name);
  }

  /** A truthful dentry is bound to the inode the directory names. */
  lemma TruthfulIsBound(w: World, d: nat, name: Name, i: nat)
    requires Coherent(w) && (d, name) in w.dents && w.dents[(d, name)] == Some(i)
    ensures DirIn(w.fs, d) && BoundTo(w.fs, d, name, i)
  {
    assert d in NsOf(w.fs).dirs;
    NsUpdateSame(w.fs, d);
    AnswerIsGet(NsOf(w.fs), d, name);
  }

  lemma LookupCoherent(w: World, d: nat, name: Name)
    requires Coherent(w) && Allowed(w, Lookup(d, name)) && LoadsCurrent(w, Lookup(d, name))
    ensures Coherent(Outcome(w, Lookup(d, name)))
  {
    CurrentCall(w, Lookup(d, name));
    NsUpdateSame(w.fs, d);
    AnswerIsGet(NsOf(w.fs), d, name);
  }

  lemma CreatedTruthful(fs: FS, dents: Dents, d: nat, name: Name, cred: Cred)
    requires OwnInv(fs) && DirIn(fs, d) && DirOk(fs, d) && !IsDir(cred.mode) && |name| < MAX_FILENAME_LEN
    requires Tidy(NsOf(fs)) && AllUnique(NsOf(fs)) && Truthful(NsOf(fs), dents) && name !in MapOf(NsOf(fs), d)
    ensures OwnInv(Create(fs, d, name, cred).0)
    ensures Truthful(NsOf(Create(fs, d, name, cred).0),
                     if Fails(fs, d) then dents else dents[(d, name) := FreeInode(fs)])
  {
    CreateSim(fs, d, name, cred);
    var ns, after := NsOf(fs), NsOf(Create(fs, d, name, cred).0);
    if Fails(fs, d) {
      assert after == ns;
    } else if AddLeaks(fs, d) {
      BindAbsent(ns, dents, d, name, FreeInode(fs));
      SameTruthful(ns, after, dents[(d, name) := FreeInode(fs)]);
    } else {
      var _, _, _ := CreateIsInsert(fs, d, name, cred);
      InsertTruthful(ns, after, dents, d, name, FreeInode(fs).value);
    }
  }

  lemma CreateCoherent(w: World, d: nat, name: Name, cred: Cred) returns (after: World)
    requires Coherent(w) && Allowed(w, Do(OpCreate(d, name, cred))) && |name| < MAX_FILENAME_LEN
    ensures after == Outcome(w, Do(OpCreate(d, name, cred))) && Truthful(NsOf(after.fs), after.dents)
  {
    var fs := w.fs;
    OwnedIsOk(fs, d);
    after := Outcome(w, Do(OpCreate(d, name, cred)));
    CreateReturns(fs, d, name, cred);
    assert (d, name) in w.dents && name !in MapOf(NsOf(w.fs), d);
    CreatedTruthful(fs, w.dents, d, name, cred);
  }

  lemma MkdirCoherent(w: World, d: nat, name: Name, cred: Cred) returns (after: World)
    requires Coherent(w) && Allowed(w, Do(OpMkdir(d, name, cred))) && |name| < MAX_FILENAME_LEN
    ensures after == Outcome(w, Do(OpMkdir(d, name, cred))) && Truthful(NsOf(after.fs), after.dents)
  {
    after := Outcome(w, Do(OpMkdir(d, name, cred)));
    MkdirReturns(w.fs, d, name, cred);
    assert (d, name) in w.dents && name !in MapOf(NsOf(w.fs), d);
    if MkdirFails(w.fs, d) {
      var _ := MkdirSim(w.fs, d, name, cred);
    } else if MkdirLeaks(w.fs, d) {
      LeakedMkdirTruthful(w.fs, after.fs, w.dents, d, name, cred);
    } else {
      var _, ns, ns' := MkdirIsInsert(w.fs, d, name, cred);
      InsertTruthful(ns, ns', w.dents, d, name, FreeInode(w.fs).value);
    }
  }

  lemma LeakedMkdirTruthful(fs: FS, after: FS, dents: Dents, d: nat, name: Name, cred: Cred)
    requires OwnInv(fs) && Truthful(NsOf(fs), dents) && DirIn(fs, d) && name !in MapOf(NsOf(fs), d)
    requires !MkdirFails(fs, d) && MkdirLeaks(fs, d) && after == Mkdir(fs, d, name, cred).0 && OwnInv(after)
    ensures Truthful(NsOf(after), dents[(d, name) := FreeInode(fs)])
  {
    var ns' := LeakedMkdirDirs(fs, d, name, cred);
    BindAbsent(NsOf(fs), dents, d, name, FreeInode(fs));
    SameTruthful(NsOf(fs), ns', dents[(d, name) := FreeInode(fs)]);
  }

  lemma LeakedMkdirDirs(fs: FS, d: nat, name: Name, cred: Cred) returns (after: Ns)
    requires OwnInv(fs) && DirIn(fs, d) && !MkdirFails(fs, d) && MkdirLeaks(fs, d)
    ensures OwnInv(Mkdir(fs, d, name, cred).0) && after == NsOf(Mkdir(fs, d, name, cred).0)
    ensures forall e :: e in NsOf(fs).dirs ==> e in after.dirs && after.dirs[e] == NsOf(fs).dirs[e]
  {
    var result := MkdirSim(fs, d, name, cred);
    FreeInodeIsNew(fs);
    after := NsOf(result);
  }

  lemma UnlinkCoherent(w: World, d: nat, name: Name, i: nat) returns (after: World)
    requires Coherent(w) && Allowed(w, Do(OpUnlink(d, name, i)))
    ensures after == Outcome(w, Do(OpUnlink(d, name, i))) && Truthful(NsOf(after.fs), after.dents)
  {
    OwnedIsOk(w.fs, d);
    after := Outcome(w, Do(OpUnlink(d, name, i)));
    var _, _, _ := UnlinkIsDelete(w.fs, d, name, i);
    if Step(w.fs, OpUnlink(d, name, i)).1 >= 0 {
      DeleteTruthful(NsOf(w.fs), NsOf(after.fs), w.dents, d, name, i);
    } else {
      UnlinkFailsSame(w.fs, d, name, i);
    }
  }

  lemma UnlinkFailsSame(fs: FS, d: nat, name: Name, i: nat)
    requires OwnInv(fs) && Enabled(fs, OpUnlink(d, name, i)) && Unlink(fs, d, name, i).1 < 0
    ensures Unlink(fs, d, name, i).0 == fs
  {
  }

  lemma RmdirReturns(fs: FS, d: nat, name: Name, i: nat)
    requires OwnInv(fs) && Enabled(fs, OpRmdir(d, name, i))
    ensures var (after, ret) := Rmdir(fs, d, name, i);
      && (ret < 0 ==> after == fs)
      && (ret >= 0 <==> DirIn(fs, i) && EmptyDir(DirRecs(fs, i)) && FirstMatch(DirRecs(fs, d), name) < |DirRecs(fs, d)|)
  {
    RemoveEntryRecs(fs, d, name);
  }

  lemma RmdirCoherent(w: World, d: nat, name: Name, i: nat) returns (after: World)
    requires Coherent(w) && Allowed(w, Do(OpRmdir(d, name, i)))
    ensures after == Outcome(w, Do(OpRmdir(d, name, i))) && Truthful(NsOf(after.fs), after.dents)
  {
    OwnedIsOk(w.fs, d);
    OwnedIsOk(w.fs, i);
    after := Outcome(w, Do(OpRmdir(d, name, i)));
    var _, ns, _ := RmdirIsDelete(w.fs, d, name, i);
    RmdirReturns(w.fs, d, name, i);
    if Step(w.fs, OpRmdir(d, name, i)).1 >= 0 {
      NsUpdateSame(w.fs, d);
      NsUpdateSame(w.fs, i);
      LookupMap(ns, d, name);
      DeleteTruthful(ns, NsOf(after.fs), w.dents, d, name, i);
    }
  }

  lemma DataCoherent(w: World, op: Op) returns (after: World)
    requires Coherent(w) && Allowed(w, Do(op)) && DataCall(op)
    ensures after == Outcome(w, Do(op)) && Truthful(NsOf(after.fs), after.dents)
  {
    after := Outcome(w, Do(op));
    assert after.dents == w.dents && after.fs == Next(w.fs, op);
    var _ := DataNs(w.fs, op);
  }

  lemma DoTruthful(w: World, op: Op) returns (after: World)
    requires Coherent(w) && Allowed(w, Do(op)) && NameFits(Do(op))
    ensures after == Outcome(w, Do(op)) && Truthful(NsOf(after.fs), after.dents)
  {
    match op
    case OpCreate(d, name, cred) => after := CreateCoherent(w, d, name, cred);
    case OpMkdir(d, name, cred) => after := MkdirCoherent(w, d, name, cred);
    case OpUnlink(d, name, i) => after := UnlinkCoherent(w, d, name, i);
    case OpRmdir(d, name, i) => after := RmdirCoherent(w, d, name, i);
    case _ => after := DataCoherent(w, op);
  }

  /** A name whose dentry is negative is in no record. */
  lemma NoClash(w: World, op: Op)
    requires Coherent(w) && Allowed(w, Do(op)) && NameFits(Do(op))
    ensures !Clashes(w.fs, op)
  {
    match op
    case OpCreate(d, name, _) => assert (d, name) in w.dents && name !in MapOf(NsOf(w.fs), d);
    case OpMkdir(d, name, _) => assert (d, name) in w.dents && name !in MapOf(NsOf(w.fs), d);
    case _ =>
  }

  lemma NoMismatch(w: World, op: Op)
    requires Coherent(w) && Allowed(w, Do(op))
    ensures !Mismatches(w.fs, op)
  {
    match op
    case OpUnlink(d, name, i) => TruthfulIsBound(w, d, name, i);
    case OpRmdir(d, name, i) => TruthfulIsBound(w, d, name, i);
    case _ =>
  }

  /** A call that enters no name too long and loads no stale image does not mismatch, and keeps dentries true, whether
      it leaks or not. */
  lemma CallCoherent(w: World, call: VfsCall)
    requires Coherent(w) && Allowed(w, call) && NameFits(call) && LoadsCurrent(w, call)
    ensures Coherent(Outcome(w, call))
    ensures call.Do? ==> !Mismatches(w.fs, call.op)
  {
    match call
    case Lookup(d, name) => LookupCoherent(w, d, name);
    case Forget(d, name) =>
    case Evict(i) =>
    case Do(op) =>
      NoMismatch(w, op);
      NoClash(w, op);
      StepTidy(w.fs, op);
      StepUnique(w.fs, op);
      var _ := DoTruthful(w, op);
  }

  // ---- whole sessions ----

  predicate AllFit(calls: seq<VfsCall>) {
    forall c :: c in calls ==> NameFits(c)
  }

  /** The names entered fit a record, and the images loaded are current. */
  ghost predicate Careful(w: World, calls: seq<VfsCall>)
    requires CanGo(w, calls)
  {
    AllFit(calls) && All(LoadsCurrent, w, calls)
  }

  lemma CarefulCall(w: World, calls: seq<VfsCall>) returns (next: World, rest: seq<VfsCall>)
    requires Coherent(w) && CanGo(w, calls) && Careful(w, calls) && calls != []
    ensures next == Outcome(w, calls[0]) && rest == calls[1..] && CanGo(next, rest) && Careful(next, rest)
    ensures Allowed(w, calls[0]) && NameFits(calls[0]) && LoadsCurrent(w, calls[0]) && Coherent(next)
    ensures calls[0].Do? ==> !Mismatches(w.fs, calls[0].op)
    ensures Go(w, calls) == Go(next, rest)
  {
    assert calls[0] in calls;
    CallCoherent(w, calls[0]);
    next, rest := Outcome(w, calls[0]), calls[1..];
  }

  ghost predicate Matched(w: World, call: VfsCall) {
    Made(w, call) && call.Do? ==> !Mismatches(w.fs, call.op)
  }

  ghost predicate Unleaked(w: World, call: VfsCall) {
    Made(w, call) && call.Do? ==> !Leaks(w.fs, call.op)
  }

  /** Through a careful session no call mismatches, names stay unique and dentries true. */
  lemma {:induction false} SessionCoherent(w: World, calls: seq<VfsCall>) returns (after: World)
    requires Coherent(w) && CanGo(w, calls) && Careful(w, calls)
    ensures after == Go(w, calls) && Coherent(after) && All(Matched, w, calls)
    decreases |calls|
  {
    after := w;
    if calls != [] {
      var next, rest := CarefulCall(w, calls);
      after := SessionCoherent(next, rest);
    }
  }

  lemma CallOrphan(w: World, call: VfsCall, i: nat)
    requires Coherent(w) && Allowed(w, call) && NameFits(call) && LoadsCurrent(w, call) && Orphan(NsOf(w.fs), i)
    ensures OwnInv(Outcome(w, call).fs) && Orphan(NsOf(Outcome(w, call).fs), i)
  {
    if call.Do? {
      NoMismatch(w, call.op);
      StepOrphan(w.fs, call.op, i);
    } else {
      CurrentCall(w, call);
    }
  }

  lemma {:induction false} SessionOrphan(w: World, calls: seq<VfsCall>, i: nat)
    requires Coherent(w) && CanGo(w, calls) && Careful(w, calls) && Orphan(NsOf(w.fs), i)
    ensures !IsTree(Go(w, calls))
    decreases |calls|
  {
    if calls == [] {
      OrphanIsNoTree(NsOf(w.fs), i);
    } else {
      var next, rest := CarefulCall(w, calls);
      CallOrphan(w, calls[0], i);
      SessionOrphan(next, rest, i);
    }
  }

  lemma CarefulTree(w: World, call: VfsCall)
    requires Coherent(w) && Allowed(w, call) && NameFits(call) && LoadsCurrent(w, call) && IsTree(w)
    ensures IsTree(Outcome(w, call)) <==> Unleaked(w, call)
    ensures !Unleaked(w, call) ==> FreeInode(w.fs).Some? && OwnInv(Outcome(w, call).fs)
                                   && Orphan(NsOf(Outcome(w, call).fs), FreeInode(w.fs).value)
  {
    if call.Do? {
      NoMismatch(w, call.op);
      StepTree(w.fs, call.op);
    } else {
      CurrentCall(w, call);
    }
  }

  lemma {:induction false} SessionEndsInTree(w: World, calls: seq<VfsCall>)
    requires Coherent(w) && IsTree(w) && CanGo(w, calls) && Careful(w, calls)
    ensures IsTree(Go(w, calls)) <==> All(Unleaked, w, calls)
    decreases |calls|
  {
    if calls != [] {
      var next, rest := CarefulCall(w, calls);
      CarefulTree(w, calls[0]);
      if Unleaked(w, calls[0]) {
        SessionEndsInTree(next, rest);
      } else {
        SessionOrphan(next, rest, FreeInode(w.fs).value);
      }
    }
  }

  lemma FreshIsCoherent(disk: seq<Block>) returns (w: World)
    requires MKFS_DATA <= |disk| <= 8 * BITMAP_BYTES
    ensures w == FreshWorld(disk) && Coherent(w) && IsTree(w) && Sound(w.fs) && ExtraLinks(NsOf(w.fs), ROOT_INO, 0)
  {
    w := FreshWorld(disk);
    MountedIsSound(disk);
    TreeIsTidy(NsOf(w.fs));
  }

  /** In every session from mount whose names fit a record and whose lookups load only current images: no directory ever
      holds a name twice, every dentry tells the truth, and the namespace ends as a tree exactly when no call extended a
      directory with eight full blocks. */
  lemma SessionNamespace(disk: seq<Block>, calls: seq<VfsCall>)
    requires MKFS_DATA <= |disk| <= 8 * BITMAP_BYTES
    requires CanGo(FreshWorld(disk), calls) && Careful(FreshWorld(disk), calls)
    ensures Coherent(Go(FreshWorld(disk), calls))
    ensures IsTree(Go(FreshWorld(disk), calls)) <==> All(Unleaked, FreshWorld(disk), calls)
  {
    var w := FreshIsCoherent(disk);
    var _ := SessionCoherent(w, calls);
    SessionEndsInTree(w, calls);
  }

  // ---- link counts and lookups ----

  /** The call enters no name too long, loads no stale image, and leaves directory e a directory. */
  ghost function LeavesDir(e: nat): (World, VfsCall) -> bool {
    (w: World, call: VfsCall) => NameFits(call) && LoadsCurrent(w, call)
      && (Made(w, call) ==> DirIn(Outcome(w, call).fs, e))
  }

  ghost function DirLeak(e: nat): (World, VfsCall) -> int {
    (w: World, call: VfsCall) =>
      if Made(w, call) && call.Do? && LeaksDirInto(w.fs, call.op, e) then 1 else 0
  }

  lemma CallLinks(w: World, call: VfsCall, e: nat, k: int) returns (next: World)
    requires Coherent(w) && Allowed(w, call) && NameFits(call) && LoadsCurrent(w, call)
    requires Sound(w.fs) && ExtraLinks(NsOf(w.fs), e, k) && DirIn(Outcome(w, call).fs, e)
    ensures next == Outcome(w, call) && Sound(next.fs) && ExtraLinks(NsOf(next.fs), e, k + DirLeak(e)(w, call))
  {
    next := Outcome(w, call);
    if call.Do? {
      NoMismatch(w, call.op);
      var _ := StepLinks(w.fs, call.op);
    } else {
      CurrentCall(w, call);
    }
  }

  /** A coherent world with sound names, in which directory e has k links too many. */
  ghost predicate IsLinked(w: World, e: nat, k: int) {
    Coherent(w) && Sound(w.fs) && ExtraLinks(NsOf(w.fs), e, k)
  }

  ghost function Linked(e: nat): (World, int) -> bool {
    (w: World, k: int) => IsLinked(w, e, k)
  }

  lemma LinkedCall(w: World, call: VfsCall, e: nat, k: int)
    requires Made(w, call) && LeavesDir(e)(w, call) && IsLinked(w, e, k)
    ensures IsLinked(Outcome(w, call), e, k + DirLeak(e)(w, call))
  {
    CallCoherent(w, call);
    var _ := CallLinks(w, call, e, k);
  }

  /** A call with property ok moves inv by f. */
  ghost predicate Moves(inv: (World, int) -> bool, f: (World, VfsCall) -> int, ok: (World, VfsCall) -> bool,
                        w: World, call: VfsCall, k: int) {
    Made(w, call) && ok(w, call) && inv(w, k) ==> inv(Outcome(w, call), k + f(w, call))
  }

  /** What every call moves by f, a session moves by the sum of f. */
  lemma {:induction false} SessionMoves(inv: (World, int) -> bool, f: (World, VfsCall) -> int,
                                        ok: (World, VfsCall) -> bool, w: World, calls: seq<VfsCall>, k: int)
    requires inv(w, k) && CanGo(w, calls) && All(ok, w, calls)
    requires forall v, c, j :: Moves(inv, f, ok, v, c, j)
    ensures inv(Go(w, calls), k + Sum(f, w, calls))
    decreases |calls|
  {
    if calls != [] {
      var next, step := Outcome(w, calls[0]), f(w, calls[0]);
      assert Moves(inv, f, ok, w, calls[0], k);
      assert inv(next, k + step);
      SessionMoves(inv, f, ok, next, calls[1..], k + step);
    }
  }

  lemma LinkedCalls(e: nat)
    ensures forall v, c, j :: Moves(Linked(e), DirLeak(e), LeavesDir(e), v, c, j)
  {
    forall v, c, j
      ensures Moves(Linked(e), DirLeak(e), LeavesDir(e), v, c, j)
    {
      if Made(v, c) && LeavesDir(e)(v, c) && Linked(e)(v, j) {
        LinkedCall(v, c, e, j);
      }
    }
  }

  /** A directory that is there all through a session which enters only names that fit and loads only current images
      has, beside its own two links and one for each subdirectory, one for each directory leaked on its behalf. */
  lemma SessionLinks(w: World, calls: seq<VfsCall>, e: nat, k: int)
    requires IsLinked(w, e, k) && CanGo(w, calls) && All(LeavesDir(e), w, calls)
    ensures Linked(e)(Go(w, calls), k + Sum(DirLeak(e), w, calls))
  {
    LinkedCalls(e);
    SessionMoves(Linked(e), DirLeak(e), LeavesDir(e), w, calls, k);
  }

  lemma CallSound(w: World, call: VfsCall) returns (next: World)
    requires Coherent(w) && Allowed(w, call) && NameFits(call) && LoadsCurrent(w, call) && Sound(w.fs)
    ensures next == Outcome(w, call) && Sound(next.fs)
  {
    next := Outcome(w, call);
    if call.Do? {
      NoMismatch(w, call.op);
      var _ := StepLinks(w.fs, call.op);
    } else {
      CurrentCall(w, call);
    }
  }

  lemma {:induction false} SessionSound(w: World, calls: seq<VfsCall>) returns (after: World)
    requires Coherent(w) && CanGo(w, calls) && Careful(w, calls) && Sound(w.fs)
    ensures after == Go(w, calls) && Sound(after.fs)
    decreases |calls|
  {
    after := w;
    if calls != [] {
      var next, rest := CarefulCall(w, calls);
      var _ := CallSound(w, calls[0]);
      after := SessionSound(next, rest);
    }
  }

  /** What d answers for the name, if anything, is the number of a live inode. */
  ghost predicate FindsLive(fs: FS, d: nat, name: Name)
    requires OwnInv(fs) && DirIn(fs, d)
  {
    var answer := Answer(DirRecs(fs, d), name);
    answer.Some? ==> answer.value in fs.inodes
  }

  lemma SoundAnswers(fs: FS, d: nat, name: Name)
    requires Sound(fs) && DirIn(fs, d) && PlainName(name)
    ensures FindsLive(fs, d, name)
  {
    NsUpdateSame(fs, d);
    FoundIsLive(fs, d, name);
  }

  /** Leaks or not, at the end of a careful session from mount a lookup of a plain name finds a live inode or
      nothing. */
  lemma SessionFinds(disk: seq<Block>, calls: seq<VfsCall>, d: nat, name: Name) returns (after: World)
    requires MKFS_DATA <= |disk| <= 8 * BITMAP_BYTES && PlainName(name)
    requires CanGo(FreshWorld(disk), calls) && Careful(FreshWorld(disk), calls)
    ensures after == Go(FreshWorld(disk), calls) && OwnInv(after.fs)
    ensures DirIn(after.fs, d) ==> FindsLive(after.fs, d, name)
  {
    var w := FreshIsCoherent(disk);
    after := SessionSound(w, calls);
    if DirIn(after.fs, d) {
      SoundAnswers(after.fs, d, name);
    }
  }
}
