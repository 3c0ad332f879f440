/** Sessions: calls as the VFS makes them, through the names and inodes it has cached. A lookup of a name that is not
    cached loads its inode from the table unless the inode hash has it, and create and mkdir hash nothing. */
module Sessions {
  import opened Bytes
  import opened Records
  import opened Directory
  import opened State
  import opened Steps
  import opened Accounting
  import opened InodeTable
  import opened Namespace
  import opened Simulation
  import opened Runs
  import opened TreeRuns
  import opened Visible
  import opened Reload
  import opened Books
  import opened TreeLoads

  /** The dentries, by directory and name: Some(i) is bound to inode i, None is known to be absent. */
  type Dents = map<(nat, Name), Option<nat>>

  /** hash holds the numbers iget_locked finds: those loaded by an earlier lookup. */
  datatype World = World(fs: FS, dents: Dents, hash: set<nat>)

  /** Lookup of a name without a dentry, the VFS dropping a dentry or a hashed inode, or a call of the filesystem. */
  datatype VfsCall = Lookup(d: nat, name: Name) | Forget(d: nat, name: Name) | Evict(i: nat) | Do(op: Op)

  /** The dentries left when inode i goes: none bound to it, none below it. */
  function Without(dents: Dents, i: nat): Dents {
    map k | k in dents && k.0 != i && dents[k] != Some(i) :: dents[k]
  }

  /** create and mkdir need a dentry known to be absent, unlink and rmdir act on the inode the dentry is bound to; a
      name without a dentry can be looked up, any dentry be forgotten, and a hashed inode go when no dentry holds it. */
  ghost predicate Allowed(w: World, call: VfsCall)
    requires OwnInv(w.fs)
  {
    match call
    case Lookup(d, name) =>
      DirIn(w.fs, d) && PlainName(name) && (d, name) !in w.dents
    case Forget(d, name) => (d, name) in w.dents
    case Evict(i) => i in w.hash && forall k :: k in w.dents ==> w.dents[k] != Some(i)
    case Do(op) =>
      Enabled(w.fs, op) &&
      match op
      case OpCreate(d, name, _) => (d, name) in w.dents && w.dents[(d, name)] == None
      case OpMkdir(d, name, _) => (d, name) in w.dents && w.dents[(d, name)] == None
      case OpUnlink(d, name, i) => (d, name) in w.dents && w.dents[(d, name)] == Some(i)
      case OpRmdir(d, name, i) => (d, name) in w.dents && w.dents[(d, name)] == Some(i)
      case _ => true
  }

  /** What a lookup finds for the name. */
  function Answer(recs: seq<Rec>, name: Name): Option<nat> {
    var r := FirstMatch(recs, name);
    if r < |recs| then Some(recs[r].ino) else None
  }

  /** The number whose inode the call reads from the table: a lookup that finds one the hash does not have. */
  ghost function Loads(w: World, call: VfsCall): Option<nat>
    requires OwnInv(w.fs) && Allowed(w, call)
  {
    match call
    case Lookup(d, name) =>
      var answer := Answer(DirRecs(w.fs, d), name);
      if answer.Some? && answer.value !in w.hash && InTableRange(w.fs, answer.value) then answer else None
    case _ => None
  }

  /** The dentries after a call that returned ret: d_instantiate, d_delete and d_drop. */
  ghost function DentsAfter(w: World, op: Op, ret: int): Dents
    requires OwnInv(w.fs) && Allowed(w, Do(op))
  {
    if ret < 0 then w.dents else
    match op
    case OpCreate(d, name, _) => w.dents[(d, name) := FreeInode(w.fs)]
    case OpMkdir(d, name, _) => w.dents[(d, name) := FreeInode(w.fs)]
    case OpUnlink(d, name, i) => Without(w.dents, i)[(d, name) := None]
    case OpRmdir(d, name, i) => Without(w.dents, i)
    case _ => w.dents
  }

  /** The hash after it: a released inode leaves it. */
  function HashAfter(hash: set<nat>, op: Op, ret: int): set<nat> {
    if ret < 0 then hash else
    match op
    case OpUnlink(_, _, i) => hash - {i}
    case OpRmdir(_, _, i) => hash - {i}
    case _ => hash
  }

  /** The world after a lookup: the inode it finds is loaded if the hash does not have it, and the name is bound; a
      table block past the device is a read error, which leaves everything as it was. */
  ghost function LookedUp(w: World, d: nat, name: Name): World
    requires OwnInv(w.fs) && Allowed(w, Lookup(d, name))
  {
    var answer := Answer(DirRecs(w.fs, d), name);
    var bound := w.dents[(d, name) := answer];
    match Loads(w, Lookup(d, name))
    case Some(i) => World(Reloaded(w.fs, i), bound, w.hash + {i})
    case None => if answer.None? || answer.value in w.hash then w.(dents := bound) else w
  }

  ghost function Outcome(w: World, call: VfsCall): (after: World)
    requires OwnInv(w.fs) && Allowed(w, call)
  {
    match call
    case Lookup(d, name) => LookedUp(w, d, name)
    case Forget(d, name) => w.(dents := w.dents - {(d, name)})
    case Evict(i) => w.(hash := w.hash - {i})
    case Do(op) =>
      var ret := Step(w.fs, op).1;
      World(Next(w.fs, op), DentsAfter(w, op, ret), HashAfter(w.hash, op, ret))
  }

  /** Every call of the session is one the VFS can make at that point. The model has nothing to say of calls on a
      filesystem that has lost block ownership: a session may end there, but not go on. */
  ghost predicate CanGo(w: World, calls: seq<VfsCall>)
    decreases |calls|
  {
    calls == [] || (OwnInv(w.fs) && Allowed(w, calls[0]) && CanGo(Outcome(w, calls[0]), calls[1..]))
  }

  ghost function Go(w: World, calls: seq<VfsCall>): (after: World)
    requires CanGo(w, calls)
    decreases |calls|
  {
    if calls == [] then w else Go(Outcome(w, calls[0]), calls[1..])
  }

  /** All calls of the session have the property. */
  ghost predicate All(p: (World, VfsCall) -> bool, w: World, calls: seq<VfsCall>)
    requires CanGo(w, calls)
    decreases |calls|
  {
    calls == [] || (p(w, calls[0]) && All(p, Outcome(w, calls[0]), calls[1..]))
  }

  /** The sum of a quantity over the calls of the session. */
  ghost function Sum(f: (World, VfsCall) -> int, w: World, calls: seq<VfsCall>): int
    requires CanGo(w, calls)
    decreases |calls|
  {
    if calls == [] then 0 else f(w, calls[0]) + Sum(f, Outcome(w, calls[0]), calls[1..])
  }

  ghost predicate Made(w: World, call: VfsCall) {
    OwnInv(w.fs) && Allowed(w, call)
  }

  /** What a lookup comes to: a negative dentry; a dentry for an inode the hash has; the read error of a table block
      past the device; or else a dentry for the inode the table block makes, which the hash has from then on. */
  lemma LookupMakes(w: World, d: nat, name: Name) returns (after: World)
    requires Made(w, Lookup(d, name))
    ensures after == Outcome(w, Lookup(d, name))
    ensures var recs, f := DirRecs(w.fs, d), FirstMatch(DirRecs(w.fs, d), name);
      if f == |recs| then after == w.(dents := w.dents[(d, name) := None])
      else
        var i := recs[f].ino;
        if i in w.hash then after == w.(dents := w.dents[(d, name) := Some(i)])
        else if |w.fs.disk| < w.fs.lay.tableStart + i then after == w
        else
          var image := Decode(w.fs.disk[w.fs.lay.tableStart + i - 1]);
          after == World(w.fs.(inodes := w.fs.inodes[i := image]), w.dents[(d, name) := Some(i)], w.hash + {i})
  {
    after := Outcome(w, Lookup(d, name));
  }

  /** An inode is loaded once: when its name is forgotten and looked up again nothing is loaded and the world is what it
      was; unless the inode has gone in between, and then it is loaded again. */
  lemma LoadsOnce(w: World, d: nat, name: Name, i: nat) returns (w1: World, w2: World)
    requires Made(w, Lookup(d, name)) && Loads(w, Lookup(d, name)) == Some(i) && i != d && OwnInv(Reloaded(w.fs, i))
    ensures w1 == Outcome(w, Lookup(d, name)) && Made(w1, Forget(d, name)) && w2 == Outcome(w1, Forget(d, name))
    ensures Made(w2, Lookup(d, name)) && Loads(w2, Lookup(d, name)) == None && Outcome(w2, Lookup(d, name)) == w1
    ensures Made(w2, Evict(i)) ==>
      var w3 := Outcome(w2, Evict(i));
      Made(w3, Lookup(d, name)) && Loads(w3, Lookup(d, name)) == Some(i)
  {
    w1 := Outcome(w, Lookup(d, name));
    w2 := Outcome(w1, Forget(d, name));
    assert DirRecs(w2.fs, d) == DirRecs(w.fs, d);
    assert w2.dents[(d, name) := Some(i)] == w1.dents;
    assert w2.hash + {i} == w2.hash;
  }

  lemma FoundNumber(w: World, call: VfsCall) returns (d: nat, r: nat)
    requires Made(w, call) && Loads(w, call).Some?
    ensures call.Lookup? && d == call.d && r == FirstMatch(DirRecs(w.fs, d), call.name) < |DirRecs(w.fs, d)|
    ensures Loads(w, call).value == DirRecs(w.fs, d)[r].ino >= 1
    ensures Outcome(w, call).fs == Reloaded(w.fs, Loads(w, call).value)
  {
    d, r := call.d, FirstMatch(DirRecs(w.fs, call.d), call.name);
  }

  /** One more call at the end of a session. */
  lemma {:induction false} OneMore(p: (World, VfsCall) -> bool, w0: World, calls: seq<VfsCall>, call: VfsCall)
    returns (more: seq<VfsCall>)
    requires CanGo(w0, calls) && Made(Go(w0, calls), call)
    ensures more == calls + [call] && CanGo(w0, more) && Go(w0, more) == Outcome(Go(w0, calls), call)
    ensures All(p, w0, more) <==> All(p, w0, calls) && p(Go(w0, calls), call)
    decreases |calls|
  {
    more := calls + [call];
    if calls == [] {
      assert more[0] == call && more[1..] == [];
    } else {
      assert more[0] == calls[0] && more[1..] == calls[1..] + [call];
      var _ := OneMore(p, Outcome(w0, calls[0]), calls[1..], call);
    }
  }

  // ---- ownership ----

  /** What the call loads, if anything, is an image that can be loaded. */
  ghost predicate LoadsSound(w: World, call: VfsCall) {
    Made(w, call) && Loads(w, call).Some? ==> Loadable(w.fs, Loads(w, call).value)
  }

  lemma CallOwns(w: World, call: VfsCall)
    requires Made(w, call)
    ensures OwnInv(Outcome(w, call).fs) <==> LoadsSound(w, call)
  {
    if Loads(w, call).Some? {
      var _, _ := FoundNumber(w, call);
      ReloadKeeps(w.fs, Loads(w, call).value);
    }
  }

  /** A session keeps block ownership exactly as long as every image its lookups load can be loaded. */
  lemma {:induction false} SessionOwns(w: World, calls: seq<VfsCall>)
    requires OwnInv(w.fs) && CanGo(w, calls)
    ensures OwnInv(Go(w, calls).fs) <==> All(LoadsSound, w, calls)
    decreases |calls|
  {
    if calls != [] {
      CallOwns(w, calls[0]);
      if LoadsSound(w, calls[0]) {
        SessionOwns(Outcome(w, calls[0]), calls[1..]);
      }
    }
  }

  // ---- the tree ----

  /** What the call loads, if anything, is the image of a live inode that leaves the tree a tree. */
  ghost predicate LoadsFitting(w: World, call: VfsCall) {
    Made(w, call) && Loads(w, call).Some? ==>
      var i := Loads(w, call).value;
      i in w.fs.inodes && Loadable(w.fs, i) && PtrsIn(w.fs.disk, Load(w.fs, i)) && TreeImage(w.fs, i)
  }

  /** The call neither leaks nor mismatches, nor loads an image that does not fit in. */
  ghost predicate Harmless(w: World, call: VfsCall) {
    LoadsFitting(w, call) && (Made(w, call) && call.Do? ==> !Leaks(w.fs, call.op) && !Mismatches(w.fs, call.op))
  }

  lemma LookupFindsLive(w: World, call: VfsCall)
    requires Made(w, call) && NamedAreLive(NsOf(w.fs)) && Tidy(NsOf(w.fs)) && Loads(w, call).Some?
    ensures Loads(w, call).value in w.fs.inodes
  {
    var d, _ := FoundNumber(w, call);
    NsUpdateSame(w.fs, d);
    FoundIsLive(w.fs, d, call.name);
  }

  ghost predicate IsTree(w: World) {
    OwnInv(w.fs) && TreeInv(NsOf(w.fs))
  }

  lemma LoadTree(w: World, call: VfsCall)
    requires Made(w, call) && IsTree(w) && Loads(w, call).Some?
    ensures IsTree(Outcome(w, call)) <==> LoadsFitting(w, call)
  {
    var _, _ := FoundNumber(w, call);
    TreeIsTidy(NsOf(w.fs));
    LookupFindsLive(w, call);
    var i := Loads(w, call).value;
    ReloadKeeps(w.fs, i);
    if Loadable(w.fs, i) {
      var _ := LoadKeepsTree(w.fs, i);
    }
  }

  /** One call: the tree is kept exactly when the call is harmless. */
  lemma CallTree(w: World, call: VfsCall)
    requires Made(w, call) && IsTree(w)
    ensures IsTree(Outcome(w, call)) <==> Harmless(w, call)
  {
    if Loads(w, call).Some? {
      LoadTree(w, call);
    } else if call.Do? {
      StepTree(w.fs, call.op);
    }
  }

  ghost predicate AlwaysIsTree(w: World, calls: seq<VfsCall>)
    requires CanGo(w, calls)
    decreases |calls|
  {
    IsTree(w) && (calls == [] || AlwaysIsTree(Outcome(w, calls[0]), calls[1..]))
  }

  /** From a tree, the namespace is a tree all through a session exactly when no call of it leaks, mismatches, or loads
      from the table an image that does not fit in. */
  lemma {:induction false} SessionTree(w: World, calls: seq<VfsCall>)
    requires IsTree(w) && CanGo(w, calls)
    ensures AlwaysIsTree(w, calls) <==> All(Harmless, w, calls)
    decreases |calls|
  {
    if calls != [] {
      CallTree(w, calls[0]);
      if Harmless(w, calls[0]) {
        SessionTree(Outcome(w, calls[0]), calls[1..]);
      }
    }
  }

  /** A session of harmless calls that starts with a tree ends with one. */
  lemma {:induction false} HarmlessEndsInTree(w: World, calls: seq<VfsCall>)
    requires IsTree(w) && CanGo(w, calls) && All(Harmless, w, calls)
    ensures IsTree(Go(w, calls))
    decreases |calls|
  {
    if calls != [] {
      CallTree(w, calls[0]);
      HarmlessEndsInTree(Outcome(w, calls[0]), calls[1..]);
    }
  }

  // ---- sessions that are runs ----

  /** What the call loads, if anything, is in memory as it is in the table. */
  ghost predicate LoadsSame(w: World, call: VfsCall) {
    Made(w, call) && Loads(w, call).Some? ==>
      var i := Loads(w, call).value;
      Current(w.fs, i) && (!IsDir(w.fs.inodes[i].mode) || w.fs.inodes[i].size == 0)
  }

  /** The calls of a session that reach the filesystem's own state. */
  function OpsOf(calls: seq<VfsCall>): seq<Op> {
    if calls == [] then [] else (if calls[0].Do? then [calls[0].op] else []) + OpsOf(calls[1..])
  }

  lemma RunCons(fs: FS, op: Op, rest: seq<Op>) returns (ops: seq<Op>)
    requires OwnInv(fs) && Enabled(fs, op) && CanRun(Next(fs, op), rest)
    ensures ops == [op] + rest && CanRun(fs, ops) && Run(fs, ops) == Run(Next(fs, op), rest)
  {
    ops := [op] + rest;
    assert ops[0] == op && ops[1..] == rest;
  }

  lemma SameLoad(w: World, call: VfsCall)
    requires Made(w, call) && !call.Do? && LoadsSame(w, call)
    ensures Outcome(w, call).fs == w.fs
  {
    if Loads(w, call).Some? {
      var _, _ := FoundNumber(w, call);
      CurrentReload(w.fs, Loads(w, call).value);
    }
  }

  /** A session whose lookups load nothing but what is in memory is a run: all that holds of runs holds of it. */
  lemma {:induction false} SessionIsRun(w: World, calls: seq<VfsCall>) returns (ops: seq<Op>, after: World)
    requires OwnInv(w.fs) && CanGo(w, calls) && All(LoadsSame, w, calls)
    ensures ops == OpsOf(calls) && after == Go(w, calls)
    ensures CanRun(w.fs, ops) && Run(w.fs, ops) == after.fs
    decreases |calls|
  {
    if calls == [] {
      ops, after := [], w;
    } else {
      var next := Outcome(w, calls[0]);
      if !calls[0].Do? {
        SameLoad(w, calls[0]);
      }
      ops, after := SessionIsRun(next, calls[1..]);
      if calls[0].Do? {
        ops := RunCons(w.fs, calls[0].op, ops);
      }
    }
  }

  // ---- the books of a session ----

  /** By how many blocks the call changes those used for nobody: leaks, late writes, and the difference between the
      inode a lookup replaces and its image. */
  ghost function BlockMove(w: World, call: VfsCall): int {
    if !Made(w, call) then 0
    else if call.Do? then |LeakedBy(w.fs, call.op)| + |TakenLate(w.fs, call.op)|
    else if Loads(w, call).Some? then CountInMemory(w.fs, Loads(w, call).value) - Load(w.fs, Loads(w, call).value).count
    else 0
  }

  /** By how many numbers the call changes those used for nobody: one it loses, or one whose inode it loads. */
  ghost function NumberMove(w: World, call: VfsCall): int {
    if !Made(w, call) then 0
    else if call.Do? then |LostBy(w.fs, call.op)|
    else if Loads(w, call).Some? && Loads(w, call).value !in w.fs.inodes then -1
    else 0
  }

  lemma CallBooks(w: World, call: VfsCall, extra: set<nat>, lost: set<nat>) returns (extra': set<nat>, lost': set<nat>)
    requires Inv(w.fs, extra, lost) && Made(w, call) && LoadsSound(w, call)
    ensures Inv(Outcome(w, call).fs, extra', lost') && Outcome(w, call).fs.lay == w.fs.lay
    ensures |extra'| == |extra| + BlockMove(w, call) && |lost'| == |lost| + NumberMove(w, call)
  {
    if call.Do? {
      var _, e, l := StepCounts(w.fs, call.op, extra, lost);
      extra', lost' := e, l;
    } else if Loads(w, call).Some? {
      var _, _ := FoundNumber(w, call);
      extra', lost' := LoadBooks(w.fs, Loads(w, call).value, extra, lost);
    } else {
      extra', lost' := extra, lost;
    }
  }

  lemma {:induction false} SessionCounts(w: World, calls: seq<VfsCall>, extra: set<nat>, lost: set<nat>)
    returns (after: World, extra': set<nat>, lost': set<nat>)
    requires Inv(w.fs, extra, lost) && CanGo(w, calls) && All(LoadsSound, w, calls)
    ensures after == Go(w, calls) && Inv(after.fs, extra', lost') && after.fs.lay == w.fs.lay
    ensures |extra'| == |extra| + Sum(BlockMove, w, calls) && |lost'| == |lost| + Sum(NumberMove, w, calls)
    decreases |calls|
  {
    if calls == [] {
      after, extra', lost' := w, extra, lost;
    } else {
      var e, l := CallBooks(w, calls[0], extra, lost);
      after, extra', lost' := SessionCounts(Outcome(w, calls[0]), calls[1..], e, l);
    }
  }

  /** The world after mount. */
  ghost function FreshWorld(disk: seq<Block>): (w: World)
    requires MKFS_DATA <= |disk| <= 8 * BITMAP_BYTES
    ensures OwnInv(w.fs)
  {
    World(Start(disk), map[], {})
  }

  /** In every session from mount that loads only images that can be loaded, used blocks and used numbers are counted
      exactly. */
  lemma SessionBooks(disk: seq<Block>, calls: seq<VfsCall>)
    requires MKFS_DATA <= |disk| <= 8 * BITMAP_BYTES && CanGo(FreshWorld(disk), calls)
    requires All(LoadsSound, FreshWorld(disk), calls)
    ensures var fs := Go(FreshWorld(disk), calls).fs;
      && OwnInv(fs)
      && |UsedData(fs)| == CountSum(fs.inodes, MKFS_INODES) + 1 + Sum(BlockMove, FreshWorld(disk), calls)
      && |fs.iused| == |fs.inodes| + Sum(NumberMove, FreshWorld(disk), calls)
  {
    var after, extra, lost := SessionCounts(FreshWorld(disk), calls, {MKFS_DATA}, {});
    UsedBlocksCount(after.fs, extra, lost);
    UsedNumbersCount(after.fs, extra, lost);
  }

  // ---- the hash ----

  lemma CallHash(w: World, call: VfsCall)
    requires Made(w, call) && w.hash <= w.fs.inodes.Keys
    ensures Outcome(w, call).hash <= Outcome(w, call).fs.inodes.Keys
  {
    if call.Do? {
      match call.op
      case OpCreate(d, name, cred) => CreateSim(w.fs, d, name, cred);
      case OpMkdir(d, name, cred) => MkdirLive(w.fs, d, name, cred);
      case OpUnlink(d, name, i) => UnlinkLive(w.fs, d, name, i);
      case OpRmdir(d, name, i) => RmdirLive(w.fs, d, name, i);
      case _ => var _ := DataNs(w.fs, call.op);
    } else if Loads(w, call).Some? {
      var _, _ := FoundNumber(w, call);
    }
  }

  lemma MkdirLive(fs: FS, d: nat, name: Name, cred: Cred)
    requires OwnInv(fs) && DirIn(fs, d)
    ensures fs.inodes.Keys <= Mkdir(fs, d, name, cred).0.inodes.Keys
  {
    var after := MkdirSim(fs, d, name, cred);
    assert NsOf(fs).live <= NsOf(after).live;
  }

  lemma UnlinkLive(fs: FS, d: nat, name: Name, i: nat)
    requires OwnInv(fs) && DirIn(fs, d) && i in fs.inodes
    ensures Unlink(fs, d, name, i).0.inodes.Keys == if Unlink(fs, d, name, i).1 < 0 then fs.inodes.Keys
        else fs.inodes.Keys - {i}
  {
  }

  lemma RmdirLive(fs: FS, d: nat, name: Name, i: nat)
    requires OwnInv(fs) && DirIn(fs, d) && i in fs.inodes && i != d
    ensures Rmdir(fs, d, name, i).0.inodes.Keys == if Rmdir(fs, d, name, i).1 < 0 then fs.inodes.Keys
        else fs.inodes.Keys - {i}
  {
  }

  /** Every number the hash has is that of an inode in memory, whatever the session does. */
  lemma {:induction false} SessionHash(w: World, calls: seq<VfsCall>)
    requires OwnInv(w.fs) && CanGo(w, calls) && w.hash <= w.fs.inodes.Keys
    ensures Go(w, calls).hash <= Go(w, calls).fs.inodes.Keys
    decreases |calls|
  {
    if calls != [] {
      CallHash(w, calls[0]);
      if calls[1..] != [] {
        SessionHash(Outcome(w, calls[0]), calls[1..]);
      }
    }
  }
}
