/** Names and link counts when directories have been leaked: what stays sound, and by how much link counts are off. */
module LinkRuns {
  import opened Bytes
  import opened Directory
  import opened State
  import opened Steps
  import opened Ownership
  import opened Accounting
  import opened Namespace
  import opened Simulation
  import opened Runs
  import opened TreeRuns

  /** A 32-bit link count that stands for 2 plus x. */
  function LinkCount(x: int): nat {
    (2 + x) % WORD
  }

  lemma IncCount(x: int, y: int, n: nat)
    requires n == LinkCount(x) && y == x + 1
    ensures (n + 1) % WORD == LinkCount(y)
  {
  }

  lemma DropCount(x: int, y: int, n: nat)
    requires n == LinkCount(x) && y == x - 1
    ensures (n + (WORD - 1)) % WORD == LinkCount(y)
  {
  }

  /** Directory d has k links more than it has subdirectories, beside its own two. */
  ghost predicate ExtraLinks(ns: Ns, d: int, k: int) {
    d in ns.dirs && d in ns.nlink && ns.nlink[d] == LinkCount(|Subdirs(ns, d)| + k)
  }

  /** What a step does to names and link counts: names stay sound, and only directory d, if any, gets extra links. */
  ghost predicate LinksMove(ns: Ns, after: Ns, d: nat, extra: int) {
    && NamesSound(after)
    && (forall e, k :: ExtraLinks(ns, e, k) && e in after.dirs
          ==> ExtraLinks(after, e, if e == d then k + extra else k))
    && forall e :: e in after.dirs && e !in ns.dirs ==> ExtraLinks(after, e, 0)
  }

  /** Nothing moves when neither the subdirectories nor the link counts do. */
  lemma LinksStill(ns: Ns, after: Ns, d: nat)
    requires NamesSound(after) && after.nlink == ns.nlink && after.dirs.Keys == ns.dirs.Keys
    requires forall e, r, i :: i in ns.dirs ==> (NamesInode(after, e, r, i) <==> NamesInode(ns, e, r, i))
    ensures LinksMove(ns, after, d, 0)
  {
    forall e, k | ExtraLinks(ns, e, k)
      ensures ExtraLinks(after, e, k)
    {
      SameSubdirs(ns, after, e);
    }
  }

  lemma EnteredSound(ns: Ns, d: nat, name: Name, ino: nat) returns (mid: Ns, f: nat)
    requires NamesSound(ns) && Tidy(ns) && d in ns.dirs && PlainName(name) && ino !in ns.live && ino != 0
    requires ino != ROOT_INO
    ensures mid == Enter(ns, d, name, ino).(live := ns.live + {ino}) && f == FirstFree(ns.dirs[d])
    ensures Gained(ns, mid, d, f, ino) && NamesSound(mid)
  {
    mid, f := Enter(ns, d, name, ino).(live := ns.live + {ino}), FirstFree(ns.dirs[d]);
    EnterGains(ns, d, name, ino);
    SameRecords(Enter(ns, d, name, ino), mid);
    GainKeepsSound(ns, mid, d, f, ino);
  }

  lemma CreateLinks(fs: FS, op: Op, d: nat, name: Name, cred: Cred)
    requires op == OpCreate(d, name, cred) && OwnInv(fs) && Enabled(fs, op)
    requires Tidy(NsOf(fs)) && NamesSound(NsOf(fs))
    ensures LinksMove(NsOf(fs), NsOf(Next(fs, op)), d, 0)
  {
    CreateSim(fs, d, name, cred);
    FreeInodeIsNew(fs);
    var ns, after := NsOf(fs), NsOf(Next(fs, op));
    if !Fails(fs, d) && !AddLeaks(fs, d) {
      var mid, f := EnteredSound(ns, d, name, FreeInode(fs).value);
      assert after == mid;
    } else {
      SameRecords(ns, after);
      SameNamesSound(ns, after);
    }
    LinksStill(ns, after, d);
  }

  lemma InstalledSound(ns: Ns, mid: Ns, ino: nat, d: nat, f: nat, leaks: bool) returns (after: Ns)
    requires NamesSound(ns) && Tidy(ns) && d in ns.dirs && ino !in ns.live && ino != 0 && ino != ROOT_INO
    requires mid.live == ns.live && mid.nlink == ns.nlink && mid.dirs.Keys == ns.dirs.Keys
    requires if leaks then mid == ns else Gained(ns, mid, d, f, ino)
    ensures after == NsInstalled(mid, ino, d) && NamesSound(after)
    ensures after.dirs.Keys == ns.dirs.Keys + {ino} && ino != d && forall r, i :: !NamesInode(after, ino, r, i)
    ensures if leaks then forall e, r, i :: NamesInode(after, e, r, i) <==> NamesInode(ns, e, r, i)
            else Gained(ns, after, d, f, ino)
    ensures after.nlink == ns.nlink[ino := 2][d := (ns.nlink[d] + 1) % WORD]
  {
    after := NsInstalled(mid, ino, d);
    DotDirAdded(mid, after, ino, d);
    if leaks {
      SameNamesSound(ns, after);
    } else {
      GainKeepsSound(ns, after, d, f, ino);
    }
  }

  /** A new directory, named or leaked: its parent gains a link, and gains a subdirectory only in the first case. */
  lemma InstalledLinks(ns: Ns, after: Ns, ino: nat, d: nat, f: nat, leaks: bool)
    requires NamesSound(ns) && NamesSound(after) && ns.dirs.Keys <= ns.live && d in ns.dirs && ino !in ns.live
    requires ino != d
    requires after.dirs.Keys == ns.dirs.Keys + {ino} && forall r, i :: !NamesInode(after, ino, r, i)
    requires if leaks then forall e, r, i :: NamesInode(after, e, r, i) <==> NamesInode(ns, e, r, i)
             else Gained(ns, after, d, f, ino)
    requires d in ns.nlink && after.nlink == ns.nlink[ino := 2][d := (ns.nlink[d] + 1) % WORD]
    ensures LinksMove(ns, after, d, if leaks then 1 else 0)
  {
    NewDirExtra(after, ino);
    forall e, k | ExtraLinks(ns, e, k)
      ensures ExtraLinks(after, e, if e == d && leaks then k + 1 else k)
    {
      if e == d {
        ParentExtra(ns, after, d, f, ino, leaks, k);
      } else {
        SameSubdirs(ns, after, e);
      }
    }
  }

  lemma NewDirExtra(after: Ns, ino: nat)
    requires ino in after.dirs && ino in after.nlink && after.nlink[ino] == 2
    requires forall r, i :: !NamesInode(after, ino, r, i)
    ensures ExtraLinks(after, ino, 0)
  {
    assert Subdirs(after, ino) == {};
  }

  lemma ParentExtra(ns: Ns, after: Ns, d: nat, f: nat, ino: nat, leaks: bool, k: int)
    requires NamedAreLive(ns) && ns.dirs.Keys <= ns.live && ExtraLinks(ns, d, k) && ino !in ns.live
    requires after.dirs.Keys == ns.dirs.Keys + {ino} && d in after.nlink && after.nlink[d] == (ns.nlink[d] + 1) % WORD
    requires if leaks then forall e, r, i :: NamesInode(after, e, r, i) <==> NamesInode(ns, e, r, i)
             else Gained(ns, after, d, f, ino)
    ensures ExtraLinks(after, d, if leaks then k + 1 else k)
  {
    if leaks {
      SameSubdirs(ns, after, d);
    } else {
      GainsSubdir(ns, after, d, f, ino);
    }
    IncCount(|Subdirs(ns, d)| + k, |Subdirs(after, d)| + if leaks then k + 1 else k, ns.nlink[d]);
  }

  lemma MkdirMoves(ns: Ns, d: nat, name: Name, ino: nat, leaks: bool)
    requires NamesSound(ns) && Tidy(ns) && d in ns.dirs && PlainName(name) && ino !in ns.live && ino != 0
    requires ino != ROOT_INO
    ensures LinksMove(ns, NsInstalled(if leaks then ns else Enter(ns, d, name, ino), ino, d), d, if leaks then 1 else 0)
  {
    var f := FirstFree(ns.dirs[d]);
    EnterGains(ns, d, name, ino);
    var after := InstalledSound(ns, if leaks then ns else Enter(ns, d, name, ino), ino, d, f, leaks);
    InstalledLinks(ns, after, ino, d, f, leaks);
  }

  lemma MkdirLinks(fs: FS, op: Op, d: nat, name: Name, cred: Cred) returns (after: FS)
    requires op == OpMkdir(d, name, cred) && OwnInv(fs) && Enabled(fs, op)
    requires Tidy(NsOf(fs)) && NamesSound(NsOf(fs))
    ensures after == Next(fs, op) && LinksMove(NsOf(fs), NsOf(after), d, if Leaks(fs, op) then 1 else 0)
  {
    after := MkdirSim(fs, d, name, cred);
    FreeInodeIsNew(fs);
    if MkdirFails(fs, d) {
      LinksStill(NsOf(fs), NsOf(fs), d);
    } else {
      MkdirMoves(NsOf(fs), d, name, FreeInode(fs).value, MkdirLeaks(fs, d));
    }
  }

  lemma UnlinkLinks(fs: FS, op: Op, d: nat, name: Name, i: nat) returns (after: FS)
    requires op == OpUnlink(d, name, i) && OwnInv(fs) && Enabled(fs, op) && !Mismatches(fs, op)
    requires Tidy(NsOf(fs)) && NamesSound(NsOf(fs))
    ensures after == Next(fs, op) && LinksMove(NsOf(fs), NsOf(after), d, 0)
  {
    after := UnlinkSim(fs, d, name, i);
    NsUpdateSame(fs, d);
    var ns := NsOf(fs);
    if FirstMatch(ns.dirs[d], name) < |ns.dirs[d]| {
      LeaveLoses(ns, d, name);
      SameRecords(Leave(ns, d, name), NsOf(after));
      LossKeepsSound(ns, NsOf(after), d, FirstMatch(ns.dirs[d], name), i);
    }
    LinksStill(ns, NsOf(after), d);
  }

  lemma RmdirLinksMove(ns: Ns, after: Ns, d: nat, f: nat, i: nat)
    requires NamesSound(ns) && NamesSound(after) && d in ns.dirs && i in ns.dirs && i != d
    requires NamesInode(ns, d, f, i) && Lost(ns, after, d, f) && after.dirs.Keys == ns.dirs.Keys - {i}
    requires d in ns.nlink && after.nlink == (ns.nlink - {i})[d := (ns.nlink[d] + (WORD - 1)) % WORD]
    ensures LinksMove(ns, after, d, 0)
  {
    forall e, k | ExtraLinks(ns, e, k) && e in after.dirs
      ensures ExtraLinks(after, e, k)
    {
      if e == d {
        LosesSubdir(ns, after, d, f, i);
        DropCount(|Subdirs(ns, d)| + k, |Subdirs(after, d)| + k, ns.nlink[d]);
      } else {
        SameSubdirs(ns, after, e);
      }
    }
  }

  lemma RmdirSound(ns: Ns, d: nat, name: Name, i: nat) returns (after: Ns, f: nat)
    requires NamesSound(ns) && Tidy(ns) && PlainName(name) && Finds(ns, d, name, i) && i in ns.dirs && i != d
    requires EmptyDir(ns.dirs[i])
    ensures after == NsRelink(Ns(ns.live - {i}, Leave(ns, d, name).dirs - {i}, ns.nlink - {i}), d, WORD - 1)
    ensures NamesInode(ns, d, f, i) && Lost(ns, after, d, f) && NamesSound(after)
    ensures after.dirs.Keys == ns.dirs.Keys - {i}
  {
    after, f := NsRelink(Ns(ns.live - {i}, Leave(ns, d, name).dirs - {i}, ns.nlink - {i}), d, WORD - 1),
      FirstMatch(ns.dirs[d], name);
    EmptyNamesNothing(ns, i);
    LeaveLoses(ns, d, name);
    GoneLoses(ns, Leave(ns, d, name), after, d, f, i);
    LossKeepsSound(ns, after, d, f, i);
  }

  lemma RmdirMoves(ns: Ns, d: nat, name: Name, i: nat)
    requires NamesSound(ns) && Tidy(ns) && PlainName(name) && Finds(ns, d, name, i) && i in ns.dirs && i != d
    requires EmptyDir(ns.dirs[i])
    ensures LinksMove(ns, NsRelink(Ns(ns.live - {i}, Leave(ns, d, name).dirs - {i}, ns.nlink - {i}), d, WORD - 1), d, 0)
  {
    var after, f := RmdirSound(ns, d, name, i);
    RmdirLinksMove(ns, after, d, f, i);
  }

  lemma RmdirLinked(fs: FS, op: Op, d: nat, name: Name, i: nat) returns (after: FS)
    requires op == OpRmdir(d, name, i) && OwnInv(fs) && Enabled(fs, op) && !Mismatches(fs, op)
    requires Tidy(NsOf(fs)) && NamesSound(NsOf(fs))
    ensures after == Next(fs, op) && LinksMove(NsOf(fs), NsOf(after), d, 0)
  {
    after := RmdirSim(fs, d, name, i);
    NsUpdateSame(fs, d);
    var ns := NsOf(fs);
    if DirIn(fs, i) && EmptyDir(ns.dirs[i]) && FirstMatch(ns.dirs[d], name) < |ns.dirs[d]| {
      NsUpdateSame(fs, i);
      RmdirMoves(ns, d, name, i);
    } else {
      LinksStill(ns, ns, d);
    }
  }

  lemma GoneLoses(ns: Ns, mid: Ns, after: Ns, d: nat, f: nat, i: nat)
    requires Lost(ns, mid, d, f) && i in mid.dirs && after.dirs == mid.dirs - {i}
    requires forall r, x :: !NamesInode(ns, i, r, x)
    ensures Lost(ns, after, d, f)
  {
    forall e, r, x
      ensures NamesInode(after, e, r, x) <==> NamesInode(ns, e, r, x) && !(e == d && r == f)
    {
      assert NamesInode(mid, e, r, x) <==> NamesInode(ns, e, r, x) && !(e == d && r == f);
    }
  }

  /** The directory whose link count a leaking mkdir raises. */
  ghost predicate LeaksDirInto(fs: FS, op: Op, d: nat)
    requires OwnInv(fs) && Enabled(fs, op)
  {
    op.OpMkdir? && op.d == d && Leaks(fs, op)
  }

  ghost predicate Sound(fs: FS) {
    OwnInv(fs) && Tidy(NsOf(fs)) && NamesSound(NsOf(fs))
  }

  lemma StepMoves(fs: FS, op: Op) returns (after: FS, d: nat, extra: int)
    requires Sound(fs) && Enabled(fs, op) && !Mismatches(fs, op)
    ensures after == Next(fs, op) && LinksMove(NsOf(fs), NsOf(after), d, extra)
    ensures extra == (if LeaksDirInto(fs, op, d) then 1 else 0) && forall e :: LeaksDirInto(fs, op, e) ==> e == d
  {
    extra := 0;
    match op
    case OpCreate(p, name, cred) =>
      after, d := Next(fs, op), p;
      CreateLinks(fs, op, p, name, cred);
    case OpMkdir(p, name, cred) =>
      d, extra := p, if Leaks(fs, op) then 1 else 0;
      after := MkdirLinks(fs, op, p, name, cred);
    case OpUnlink(p, name, i) =>
      d := p;
      after := UnlinkLinks(fs, op, p, name, i);
    case OpRmdir(p, name, i) =>
      d := p;
      after := RmdirLinked(fs, op, p, name, i);
    case _ =>
      after := DataNs(fs, op);
      d := ROOT_INO;
      LinksStill(NsOf(fs), NsOf(after), d);
  }

  /** A call that does not mismatch keeps names sound, leaking or not; a leaking mkdir gives its directory one link too
      many, and no other call changes by how much any link count is off. */
  lemma StepLinks(fs: FS, op: Op) returns (after: FS)
    requires Sound(fs) && Enabled(fs, op) && !Mismatches(fs, op)
    ensures after == Next(fs, op) && Sound(after)
    ensures forall e, k :: ExtraLinks(NsOf(fs), e, k) && DirIn(after, e) ==>
              ExtraLinks(NsOf(after), e, if LeaksDirInto(fs, op, e) then k + 1 else k)
    ensures forall e :: DirIn(after, e) && !DirIn(fs, e) ==> ExtraLinks(NsOf(after), e, 0)
  {
    StepTidy(fs, op);
    var d, extra;
    after, d, extra := StepMoves(fs, op);
  }

  /** How many calls of the run leaked a directory meant for d. */
  ghost function DirsLeakedInto(fs: FS, ops: seq<Op>, d: nat): nat
    requires OwnInv(fs) && CanRun(fs, ops)
    decreases |ops|
  {
    if ops == [] then 0 else
    (if LeaksDirInto(fs, ops[0], d) then 1 else 0) + DirsLeakedInto(Next(fs, ops[0]), ops[1..], d)
  }

  lemma StepDirLinks(fs: FS, op: Op, d: nat, k: int) returns (after: FS, k': int)
    requires Sound(fs) && Enabled(fs, op) && !Mismatches(fs, op) && ExtraLinks(NsOf(fs), d, k) && DirIn(Next(fs, op), d)
    ensures after == Next(fs, op) && Sound(after) && k' == k + if LeaksDirInto(fs, op, d) then 1 else 0
    ensures ExtraLinks(NsOf(after), d, k')
  {
    after := StepLinks(fs, op);
    k' := if LeaksDirInto(fs, op, d) then k + 1 else k;
  }

  /** After any run that never mismatches the link count of a directory that lived through it is 2 plus its
      subdirectories plus the directories leaked on its behalf, on 32 bits. */
  lemma {:induction false} DirLinks(fs: FS, ops: seq<Op>, d: nat, k: int) returns (after: FS, extra: int)
    requires Sound(fs) && ExtraLinks(NsOf(fs), d, k) && CanRun(fs, ops) && NeverMismatches(fs, ops)
    requires StaysDir(fs, ops, d)
    ensures after == Run(fs, ops) && Sound(after) && extra == k + DirsLeakedInto(fs, ops, d)
    ensures ExtraLinks(NsOf(after), d, extra)
    decreases |ops|
  {
    after, extra := fs, k;
    if ops != [] {
      var next, k' := StepDirLinks(fs, ops[0], d, k);
      after, extra := DirLinks(next, ops[1..], d, k');
    }
  }

  /** The root lives through every run. */
  lemma RootLinks(fs: FS, ops: seq<Op>, k: int) returns (after: FS, extra: int)
    requires Sound(fs) && ExtraLinks(NsOf(fs), ROOT_INO, k) && CanRun(fs, ops) && NeverMismatches(fs, ops)
    ensures after == Run(fs, ops) && Sound(after) && extra == k + DirsLeakedInto(fs, ops, ROOT_INO)
    ensures ExtraLinks(NsOf(after), ROOT_INO, extra)
  {
    RootStays(fs, ops);
    after, extra := DirLinks(fs, ops, ROOT_INO, k);
  }
}
