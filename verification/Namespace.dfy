/** The namespace alone: which inodes are live, the records of every directory, and the directories' link counts. */
module Namespace {
  import opened Bytes
  import opened Records
  import opened Directory
  import opened State

  datatype Ns = Ns(live: set<nat>, dirs: map<nat, seq<Rec>>, nlink: map<nat, nat>)

  const MAX_RECS := 24

  /** Record r of live directory d is a used record, neither "." nor "..", that names inode i. */
  predicate NamesInode(ns: Ns, d: int, r: int, i: int) {
    d in ns.dirs && 0 <= r < |ns.dirs[d]| && ns.dirs[d][r].ino == i && i != 0 && !IsDot(ns.dirs[d][r])
  }

  predicate HasDots(ns: Ns, d: int) {
    d in ns.dirs && |ns.dirs[d]| >= 2
    && ns.dirs[d][0] == Rec(d, Strncpy(DOT)) && ns.dirs[d][1].raw == Strncpy(DOTDOT)
  }

  function Parent(ns: Ns, d: int): nat
    requires HasDots(ns, d)
  {
    ns.dirs[d][1].ino
  }

  /** Following ".." from d reaches the root in at most n steps. */
  predicate ReachesRoot(ns: Ns, d: int, n: nat)
    decreases n
  {
    d == ROOT_INO || (n > 0 && HasDots(ns, d) && ReachesRoot(ns, Parent(ns, d), n - 1))
  }

  ghost predicate Rooted(ns: Ns, d: int) {
    exists n: nat :: ReachesRoot(ns, d, n)
  }

  /** The records of d that name directories. */
  function Subdirs(ns: Ns, d: nat): set<nat>
    requires d in ns.dirs
  {
    set r | 0 <= r < |ns.dirs[d]| && NamesInode(ns, d, r, ns.dirs[d][r].ino) && ns.dirs[d][r].ino in ns.dirs
  }

  // ---- the invariant, clause by clause ----

  ghost predicate Shape(ns: Ns) {
    && ROOT_INO in ns.dirs && ns.dirs.Keys <= ns.live && 0 !in ns.live && ns.nlink.Keys == ns.dirs.Keys
    && forall d :: d in ns.dirs ==> |ns.dirs[d]| <= MAX_RECS && AllTerminated(ns.dirs[d])
  }

  ghost predicate NamedAreLive(ns: Ns) {
    forall d, r, i :: NamesInode(ns, d, r, i) ==> i in ns.live && i != ROOT_INO
  }

  ghost predicate IsNamed(ns: Ns, i: int) {
    exists d, r :: NamesInode(ns, d, r, i)
  }

  ghost predicate LiveAreNamed(ns: Ns) {
    forall i {:trigger IsNamed(ns, i)} :: i in ns.live && i != ROOT_INO ==> IsNamed(ns, i)
  }

  ghost predicate NamedOnce(ns: Ns) {
    forall i, d, r, e, q :: NamesInode(ns, d, r, i) && NamesInode(ns, e, q, i) ==> d == e && r == q
  }

  /** ".." leads to the directory that holds the name. */
  ghost predicate ParentNames(ns: Ns, d: int) {
    HasDots(ns, d) && exists r :: NamesInode(ns, Parent(ns, d), r, d)
  }

  ghost predicate ParentsNameThem(ns: Ns) {
    forall d {:trigger ParentNames(ns, d)} :: d in ns.dirs && d != ROOT_INO ==> ParentNames(ns, d)
  }

  /** Beside the first two of a non-root directory, no used record is a dot record. */
  ghost predicate NoOtherDots(ns: Ns) {
    forall d, r :: d in ns.dirs && (if d == ROOT_INO then 0 else 2) <= r < |ns.dirs[d]| && ns.dirs[d][r].ino != 0
                   ==> NamesInode(ns, d, r, ns.dirs[d][r].ino)
  }

  ghost predicate AllReachRoot(ns: Ns) {
    forall d {:trigger Rooted(ns, d)} :: d in ns.dirs ==> Rooted(ns, d)
  }

  ghost predicate LinksCount(ns: Ns) {
    forall d :: d in ns.dirs ==> d in ns.nlink && ns.nlink[d] == 2 + |Subdirs(ns, d)|
  }

  /** The namespace is a tree under the root, every live inode has one name in it, and link counts tell the
      subdirectories. */
  ghost predicate TreeInv(ns: Ns) {
    && Shape(ns) && NamedAreLive(ns) && LiveAreNamed(ns) && NamedOnce(ns)
    && ParentsNameThem(ns) && NoOtherDots(ns) && AllReachRoot(ns) && LinksCount(ns)
  }

  /** Every directory but the root starts with its two dot records, and both are in use. */
  ghost predicate DotsStand(ns: Ns) {
    forall d :: d in ns.dirs && d != ROOT_INO ==> HasDots(ns, d) && Parent(ns, d) != 0
  }

  /** What is left of the tree whatever calls have been made: terminated names, dot records where they belong. */
  ghost predicate Tidy(ns: Ns) {
    Shape(ns) && NoOtherDots(ns) && DotsStand(ns)
  }

  lemma ParentsStand(ns: Ns)
    requires ParentsNameThem(ns) && Shape(ns)
    ensures DotsStand(ns)
  {
    forall d | d in ns.dirs && d != ROOT_INO
      ensures HasDots(ns, d) && Parent(ns, d) != 0
    {
      assert ParentNames(ns, d);
      var r :| NamesInode(ns, Parent(ns, d), r, d);
    }
  }

  lemma TreeIsTidy(ns: Ns)
    requires TreeInv(ns)
    ensures Tidy(ns)
  {
    ParentsStand(ns);
  }

  // ---- the steps ----

  predicate PlainName(name: Name) {
    name != DOT && name != DOTDOT
  }

  function Enter(ns: Ns, d: nat, name: Name, ino: nat): Ns
    requires d in ns.dirs
  {
    ns.(dirs := ns.dirs[d := AddRec(ns.dirs[d], Rec(ino, Padded(name)))])
  }

  function Leave(ns: Ns, d: nat, name: Name): Ns
    requires d in ns.dirs
  {
    ns.(dirs := ns.dirs[d := RemoveRec(ns.dirs[d], name)])
  }

  function NsCreate(ns: Ns, d: nat, name: Name, ino: nat): Ns
    requires d in ns.dirs
  {
    Enter(ns, d, name, ino).(live := ns.live + {ino})
  }

  function DotRecs(ino: nat, parent: nat): seq<Rec> {
    [Rec(ino, Strncpy(DOT)), Rec(parent, Strncpy(DOTDOT)), ZeroRec()]
  }

  function NsMkdir(ns: Ns, d: nat, name: Name, ino: nat): Ns
    requires d in ns.dirs && d in ns.nlink
  {
    Ns(ns.live + {ino}, Enter(ns, d, name, ino).dirs[ino := DotRecs(ino, d)], ns.nlink[ino := 2][d := ns.nlink[d] + 1])
  }

  function NsUnlink(ns: Ns, d: nat, name: Name, i: nat): Ns
    requires d in ns.dirs
  {
    Leave(ns, d, name).(live := ns.live - {i})
  }

  function NsRmdir(ns: Ns, d: nat, name: Name, i: nat): Ns
    requires d in ns.dirs && d in ns.nlink && ns.nlink[d] >= 1
  {
    Ns(ns.live - {i}, Leave(ns, d, name).dirs - {i}, ns.nlink[d := ns.nlink[d] - 1] - {i})
  }

  // ---- dots ----

  lemma DotsAreDots(ino: nat)
    ensures IsDot(Rec(ino, Strncpy(DOT))) && IsDot(Rec(ino, Strncpy(DOTDOT)))
    ensures Terminated(Rec(ino, Strncpy(DOT))) && Terminated(Rec(ino, Strncpy(DOTDOT)))
    ensures NameOf(Rec(ino, Strncpy(DOT))) == DOT && NameOf(Rec(ino, Strncpy(DOTDOT))) == DOTDOT
  {
    assert Strncpy(DOT) == Padded(DOT) && Strncpy(DOTDOT) == Padded(DOTDOT);
    PaddedName(DOT, ino);
    PaddedName(DOTDOT, ino);
    MatchesMeansNamed(Rec(ino, Strncpy(DOT)), DOT);
    MatchesMeansNamed(Rec(ino, Strncpy(DOTDOT)), DOTDOT);
  }

  lemma PlainIsNoDot(name: Name, ino: nat)
    requires PlainName(name)
    ensures !IsDot(Rec(ino, Padded(name)))
  {
    var rec := Rec(ino, Padded(name));
    PaddedName(name, ino);
    MatchesMeansNamed(rec, DOT);
    MatchesMeansNamed(rec, DOTDOT);
  }

  lemma MatchIsNoDot(rec: Rec, name: Name)
    requires PlainName(name) && Terminated(rec) && Matches(rec, name)
    ensures !IsDot(rec)
  {
    MatchesMeansNamed(rec, name);
    MatchesMeansNamed(rec, DOT);
    MatchesMeansNamed(rec, DOTDOT);
  }

  // ---- what entering and leaving do to the naming relation ----

  /** The naming relation gained exactly: record f of d names ino. */
  ghost predicate Gained(ns: Ns, after: Ns, d: nat, f: nat, ino: nat) {
    && (forall e, r, i :: NamesInode(after, e, r, i) <==> NamesInode(ns, e, r, i) || (e == d && r == f && i == ino))
    && forall i :: !NamesInode(ns, d, f, i)
  }

  /** The naming relation lost exactly what record f of d named. */
  ghost predicate Lost(ns: Ns, after: Ns, d: nat, f: nat) {
    forall e, r, i :: NamesInode(after, e, r, i) <==> NamesInode(ns, e, r, i) && !(e == d && r == f)
  }

  lemma EnterGains(ns: Ns, d: nat, name: Name, ino: nat)
    requires d in ns.dirs && PlainName(name) && ino != 0
    ensures Gained(ns, Enter(ns, d, name, ino), d, FirstFree(ns.dirs[d]), ino)
  {
    AddRecShape(ns.dirs[d], Rec(ino, Padded(name)));
    PlainIsNoDot(name, ino);
  }

  lemma LeaveLoses(ns: Ns, d: nat, name: Name)
    requires d in ns.dirs && AllTerminated(ns.dirs[d]) && PlainName(name)
    requires FirstMatch(ns.dirs[d], name) < |ns.dirs[d]|
    ensures var f := FirstMatch(ns.dirs[d], name);
      Lost(ns, Leave(ns, d, name), d, f) && NamesInode(ns, d, f, ns.dirs[d][f].ino)
  {
    MatchIsNoDot(ns.dirs[d][FirstMatch(ns.dirs[d], name)], name);
  }

  /** The dot records of a directory are in use, and are not what a scan for a plain name finds. */
  lemma DotsStay(ns: Ns, d: nat, name: Name)
    requires Shape(ns) && DotsStand(ns) && d in ns.dirs && d != ROOT_INO && PlainName(name)
    ensures HasDots(ns, d) && FirstFree(ns.dirs[d]) >= 2 && FirstMatch(ns.dirs[d], name) >= 2
  {
    DotsAreDots(d);
    DotsAreDots(Parent(ns, d));
    MatchesMeansNamed(ns.dirs[d][0], name);
    MatchesMeansNamed(ns.dirs[d][1], name);
  }

  // ---- clause by clause, from the change of the naming relation ----

  /** Every directory of both states has the same two dot records. */
  ghost predicate SameDots(ns: Ns, after: Ns) {
    forall e :: e in ns.dirs && e in after.dirs && e != ROOT_INO && HasDots(ns, e)
      ==> HasDots(after, e) && Parent(after, e) == Parent(ns, e)
  }

  lemma {:induction false} StillReaches(ns: Ns, after: Ns, gone: int, e: int, n: nat)
    requires SameDots(ns, after) && e in ns.dirs && e != gone && ReachesRoot(ns, e, n)
    requires ParentsNameThem(ns) && forall x :: x in ns.dirs && x != gone ==> x in after.dirs
    requires forall r, x :: !NamesInode(ns, gone, r, x)
    ensures ReachesRoot(after, e, n)
    decreases n
  {
    if e != ROOT_INO {
      assert ParentNames(ns, e);
      var r :| NamesInode(ns, Parent(ns, e), r, e);
      StillReaches(ns, after, gone, Parent(ns, e), n - 1);
    }
  }

  lemma AllStillReach(ns: Ns, after: Ns, gone: int)
    requires SameDots(ns, after) && AllReachRoot(ns) && ParentsNameThem(ns)
    requires forall x :: x in ns.dirs && x != gone ==> x in after.dirs
    requires forall r, x :: !NamesInode(ns, gone, r, x)
    ensures forall e {:trigger Rooted(after, e)} :: e in ns.dirs && e != gone ==> Rooted(after, e)
  {
    forall e | e in ns.dirs && e != gone
      ensures Rooted(after, e)
    {
      assert Rooted(ns, e);
      var n: nat :| ReachesRoot(ns, e, n);
      StillReaches(ns, after, gone, e, n);
    }
  }

  /** Gaining the name of a new inode keeps the naming clauses. */
  lemma GainKeepsNaming(ns: Ns, after: Ns, d: nat, f: nat, ino: nat)
    requires NamedAreLive(ns) && LiveAreNamed(ns) && NamedOnce(ns)
    requires Gained(ns, after, d, f, ino) && after.live == ns.live + {ino} && ino !in ns.live && ino != ROOT_INO
    ensures NamedAreLive(after) && LiveAreNamed(after) && NamedOnce(after)
  {
    forall i | i in after.live && i != ROOT_INO
      ensures IsNamed(after, i)
    {
      if i == ino {
        assert NamesInode(after, d, f, ino);
      } else {
        assert IsNamed(ns, i);
        var e, r :| NamesInode(ns, e, r, i);
        assert NamesInode(after, e, r, i);
      }
    }
  }

  /** Losing an inode together with its name keeps the naming clauses. */
  lemma LossKeepsNaming(ns: Ns, after: Ns, d: nat, f: nat, i: nat)
    requires NamedAreLive(ns) && LiveAreNamed(ns) && NamedOnce(ns)
    requires NamesInode(ns, d, f, i) && Lost(ns, after, d, f) && after.live == ns.live - {i}
    ensures NamedAreLive(after) && LiveAreNamed(after) && NamedOnce(after)
  {
    forall j | j in after.live && j != ROOT_INO
      ensures IsNamed(after, j)
    {
      assert IsNamed(ns, j);
      var e, r :| NamesInode(ns, e, r, j);
      assert NamesInode(after, e, r, j);
    }
  }

  // ---- the four steps keep the tree ----

  /** Directory e keeps its subdirectory records, and they still name directories. */
  lemma SameSubdirs(ns: Ns, after: Ns, e: nat)
    requires e in ns.dirs && e in after.dirs
    requires forall r, i ::
      i in after.dirs ==> (NamesInode(after, e, r, i) <==> NamesInode(ns, e, r, i) && i in ns.dirs)
    requires forall r, i :: NamesInode(ns, e, r, i) && i in ns.dirs ==> i in after.dirs
    ensures Subdirs(after, e) == Subdirs(ns, e)
  {
    forall r
      ensures r in Subdirs(after, e) <==> r in Subdirs(ns, e)
    {
      if r in Subdirs(after, e) {
        assert NamesInode(ns, e, r, after.dirs[e][r].ino);
      }
      if r in Subdirs(ns, e) {
        assert NamesInode(after, e, r, ns.dirs[e][r].ino);
      }
    }
  }

  lemma GainKeepsParents(ns: Ns, after: Ns, d: nat, f: nat, ino: nat)
    requires ParentsNameThem(ns) && Gained(ns, after, d, f, ino) && SameDots(ns, after)
    ensures forall e {:trigger ParentNames(after, e)} ::
              e in ns.dirs && e in after.dirs && e != ROOT_INO ==> ParentNames(after, e)
  {
    forall e | e in ns.dirs && e in after.dirs && e != ROOT_INO
      ensures ParentNames(after, e)
    {
      assert ParentNames(ns, e);
      var r :| NamesInode(ns, Parent(ns, e), r, e);
      assert NamesInode(after, Parent(after, e), r, e);
    }
  }

  /** A record entered under a plain name is no dot record, and the others are what they were. */
  lemma EnterKeepsNoDots(ns: Ns, d: nat, name: Name, ino: nat)
    requires NoOtherDots(ns) && d in ns.dirs && PlainName(name) && ino != 0
    ensures NoOtherDots(Enter(ns, d, name, ino))
  {
    var rec := Rec(ino, Padded(name));
    AddRecShape(ns.dirs[d], rec);
    PlainIsNoDot(name, ino);
    var after := Enter(ns, d, name, ino);
    forall e, r | e in after.dirs && (if e == ROOT_INO then 0 else 2) <= r < |after.dirs[e]|
      && after.dirs[e][r].ino != 0
      ensures NamesInode(after, e, r, after.dirs[e][r].ino)
    {
      if e != d || r != FirstFree(ns.dirs[d]) {
        assert NamesInode(ns, e, r, ns.dirs[e][r].ino);
      }
    }
  }

  lemma EnterKeepsDots(ns: Ns, d: nat, name: Name, ino: nat)
    requires Tidy(ns) && d in ns.dirs && PlainName(name) && ino != 0
    ensures var after := Enter(ns, d, name, ino);
      SameDots(ns, after) && NoOtherDots(after) && AllTerminated(after.dirs[d])
  {
    AddRecShape(ns.dirs[d], Rec(ino, Padded(name)));
    AddKeepsTerminated(ns.dirs[d], name, ino);
    if d != ROOT_INO {
      DotsStay(ns, d, name);
    }
    EnterKeepsNoDots(ns, d, name, ino);
  }

  lemma GainedFileTree(ns: Ns, after: Ns, d: nat, f: nat, ino: nat)
    requires TreeInv(ns) && Gained(ns, after, d, f, ino) && SameDots(ns, after) && ino !in ns.live && ino != 0
    requires Shape(after) && NoOtherDots(after) && after.live == ns.live + {ino} && after.nlink == ns.nlink
    requires after.dirs.Keys == ns.dirs.Keys
    ensures TreeInv(after)
  {
    GainKeepsNaming(ns, after, d, f, ino);
    AllStillReach(ns, after, 0);
    GainKeepsParents(ns, after, d, f, ino);
    LinksStay(ns, after);
  }

  lemma FileEntered(ns: Ns, d: nat, name: Name, ino: nat) returns (after: Ns, f: nat)
    requires Tidy(ns) && d in ns.dirs && PlainName(name) && ino !in ns.live && ino != 0
    requires |AddRec(ns.dirs[d], Rec(ino, Padded(name)))| <= MAX_RECS
    ensures after == NsCreate(ns, d, name, ino) && Gained(ns, after, d, f, ino) && SameDots(ns, after)
    ensures Shape(after) && NoOtherDots(after) && after.live == ns.live + {ino} && after.nlink == ns.nlink
    ensures after.dirs.Keys == ns.dirs.Keys
  {
    var mid := Enter(ns, d, name, ino);
    after, f := NsCreate(ns, d, name, ino), FirstFree(ns.dirs[d]);
    EnterGains(ns, d, name, ino);
    EnterKeepsDots(ns, d, name, ino);
    SameRecords(mid, after);
  }

  lemma CreateKeepsTree(ns: Ns, d: nat, name: Name, ino: nat)
    requires TreeInv(ns) && d in ns.dirs && PlainName(name) && ino !in ns.live && ino != 0
    requires |AddRec(ns.dirs[d], Rec(ino, Padded(name)))| <= MAX_RECS
    ensures TreeInv(NsCreate(ns, d, name, ino))
  {
    TreeIsTidy(ns);
    var after, f := FileEntered(ns, d, name, ino);
    GainedFileTree(ns, after, d, f, ino);
  }

  /** Link counts stay right when no directory came or went and no name of a directory did. */
  lemma LinksStay(ns: Ns, after: Ns)
    requires LinksCount(ns) && after.nlink == ns.nlink && after.dirs.Keys == ns.dirs.Keys
    requires forall e, r, i :: i in ns.dirs ==> (NamesInode(after, e, r, i) <==> NamesInode(ns, e, r, i))
    ensures LinksCount(after)
  {
    forall e | e in after.dirs
      ensures e in after.nlink && after.nlink[e] == 2 + |Subdirs(after, e)|
    {
      SameSubdirs(ns, after, e);
    }
  }

  /** All but the clauses about live inodes and link counts depend on the records only. */
  lemma SameRecords(ns: Ns, after: Ns)
    requires after.dirs == ns.dirs
    ensures forall e, r, i :: NamesInode(after, e, r, i) <==> NamesInode(ns, e, r, i)
    ensures NoOtherDots(ns) ==> NoOtherDots(after)
  {
    if NoOtherDots(ns) {
      forall e, r | e in after.dirs && (if e == ROOT_INO then 0 else 2) <= r < |after.dirs[e]|
        && after.dirs[e][r].ino != 0
        ensures NamesInode(after, e, r, after.dirs[e][r].ino)
      {
        assert NamesInode(ns, e, r, ns.dirs[e][r].ino);
      }
    }
  }

  lemma MkdirRecords(ns: Ns, d: nat, name: Name, ino: nat)
    requires Tidy(ns)
    requires d in ns.dirs && PlainName(name) && ino !in ns.live && ino != 0
    requires |AddRec(ns.dirs[d], Rec(ino, Padded(name)))| <= MAX_RECS
    ensures var after := NsMkdir(ns, d, name, ino);
      && Shape(after) && NoOtherDots(after) && SameDots(ns, after) && Gained(ns, after, d, FirstFree(ns.dirs[d]), ino)
      && HasDots(after, ino) && Parent(after, ino) == d && forall r, i :: !NamesInode(after, ino, r, i)
  {
    var mid := Enter(ns, d, name, ino);
    EnterGains(ns, d, name, ino);
    EnterKeepsDots(ns, d, name, ino);
    DotDirAdded(mid, NsMkdir(ns, d, name, ino), ino, d);
  }

  lemma MkdirKeepsTree(ns: Ns, d: nat, name: Name, ino: nat)
    requires TreeInv(ns) && d in ns.dirs && PlainName(name) && ino !in ns.live && ino != 0
    requires |AddRec(ns.dirs[d], Rec(ino, Padded(name)))| <= MAX_RECS
    ensures TreeInv(NsMkdir(ns, d, name, ino))
  {
    ParentsStand(ns);
    MkdirRecords(ns, d, name, ino);
    NewDirKeepsTree(ns, NsMkdir(ns, d, name, ino), d, FirstFree(ns.dirs[d]), ino);
  }

  lemma NewDirKeepsTree(ns: Ns, after: Ns, d: nat, f: nat, ino: nat)
    requires TreeInv(ns) && d in ns.dirs && ino !in ns.live && ino != 0
    requires Shape(after) && NoOtherDots(after) && SameDots(ns, after) && Gained(ns, after, d, f, ino)
    requires HasDots(after, ino) && Parent(after, ino) == d && forall r, i :: !NamesInode(after, ino, r, i)
    requires after.live == ns.live + {ino} && after.dirs.Keys == ns.dirs.Keys + {ino}
    requires after.nlink == ns.nlink[ino := 2][d := ns.nlink[d] + 1]
    ensures TreeInv(after)
  {
    GainKeepsNaming(ns, after, d, f, ino);
    AllStillReach(ns, after, 0);
    GainKeepsParents(ns, after, d, f, ino);
    assert NamesInode(after, d, f, ino);
    NewDirReaches(after, ino, d);
    NewDirLinks(ns, after, d, f, ino);
  }

  /** A new directory with only its two dot records adds nothing to the naming relation. */
  lemma DotDirAdded(ns: Ns, after: Ns, ino: nat, parent: nat)
    requires ino !in ns.dirs && after.dirs == ns.dirs[ino := DotRecs(ino, parent)]
    ensures forall e, r, i :: NamesInode(after, e, r, i) <==> NamesInode(ns, e, r, i)
    ensures HasDots(after, ino) && Parent(after, ino) == parent && AllTerminated(after.dirs[ino])
    ensures NoOtherDots(ns) && ino != ROOT_INO ==> NoOtherDots(after)
  {
    DotsAreDots(ino);
    DotsAreDots(parent);
    ZeroRecTerminated();
    if NoOtherDots(ns) && ino != ROOT_INO {
      forall e, r | e in after.dirs && (if e == ROOT_INO then 0 else 2) <= r < |after.dirs[e]|
        && after.dirs[e][r].ino != 0
        ensures NamesInode(after, e, r, after.dirs[e][r].ino)
      {
        assert NamesInode(ns, e, r, ns.dirs[e][r].ino);
      }
    }
  }

  lemma NewDirReaches(ns: Ns, ino: nat, parent: nat)
    requires HasDots(ns, ino) && Parent(ns, ino) == parent && Rooted(ns, parent)
    ensures Rooted(ns, ino)
  {
    var n: nat :| ReachesRoot(ns, parent, n);
    assert ReachesRoot(ns, ino, n + 1);
  }

  lemma NewDirLinks(ns: Ns, after: Ns, d: nat, f: nat, ino: nat)
    requires LinksCount(ns) && NamedAreLive(ns) && ns.dirs.Keys <= ns.live && d in ns.dirs && ino !in ns.live
    requires Gained(ns, after, d, f, ino) && after.dirs.Keys == ns.dirs.Keys + {ino}
    requires after.nlink == ns.nlink[ino := 2][d := ns.nlink[d] + 1]
    requires forall r, i :: !NamesInode(after, ino, r, i)
    ensures LinksCount(after)
  {
    forall e | e in after.dirs
      ensures e in after.nlink && after.nlink[e] == 2 + |Subdirs(after, e)|
    {
      if e == ino {
        assert Subdirs(after, e) == {};
      } else if e == d {
        GainsSubdir(ns, after, d, f, ino);
      } else {
        SameSubdirs(ns, after, e);
      }
    }
  }

  lemma GainsSubdir(ns: Ns, after: Ns, d: nat, f: nat, ino: nat)
    requires NamedAreLive(ns) && d in ns.dirs && ino !in ns.live && d in after.dirs
    requires Gained(ns, after, d, f, ino) && after.dirs.Keys == ns.dirs.Keys + {ino}
    ensures |Subdirs(after, d)| == |Subdirs(ns, d)| + 1
  {
    assert NamesInode(after, d, f, ino);
    forall r: nat
      ensures r in Subdirs(after, d) <==> r in Subdirs(ns, d) + {f}
    {
      if r in Subdirs(after, d) {
        assert NamesInode(after, d, r, after.dirs[d][r].ino);
      }
      if r in Subdirs(ns, d) {
        assert NamesInode(after, d, r, ns.dirs[d][r].ino);
      }
    }
    assert Subdirs(after, d) == Subdirs(ns, d) + {f};
    assert f !in Subdirs(ns, d);
  }

  /** Looking name up in directory d finds inode i. */
  predicate Finds(ns: Ns, d: nat, name: Name, i: nat) {
    d in ns.dirs && var f := FirstMatch(ns.dirs[d], name); f < |ns.dirs[d]| && ns.dirs[d][f].ino == i
  }

  lemma LeaveKeepsNoDots(ns: Ns, d: nat, name: Name)
    requires NoOtherDots(ns) && d in ns.dirs
    ensures NoOtherDots(Leave(ns, d, name))
  {
    var after := Leave(ns, d, name);
    forall e, r | e in after.dirs && (if e == ROOT_INO then 0 else 2) <= r < |after.dirs[e]|
      && after.dirs[e][r].ino != 0
      ensures NamesInode(after, e, r, after.dirs[e][r].ino)
    {
      assert NamesInode(ns, e, r, ns.dirs[e][r].ino);
    }
  }

  lemma LeaveKeepsDots(ns: Ns, d: nat, name: Name)
    requires Tidy(ns) && PlainName(name)
    requires d in ns.dirs && FirstMatch(ns.dirs[d], name) < |ns.dirs[d]|
    ensures var after := Leave(ns, d, name);
      SameDots(ns, after) && NoOtherDots(after) && AllTerminated(after.dirs[d]) && |after.dirs[d]| == |ns.dirs[d]|
  {
    RemoveKeepsTerminated(ns.dirs[d], name);
    if d != ROOT_INO {
      DotsStay(ns, d, name);
    }
    LeaveKeepsNoDots(ns, d, name);
  }

  /** Losing an inode that is no directory's parent keeps every other directory's parent its namer. */
  lemma LossKeepsParents(ns: Ns, after: Ns, d: nat, f: nat, i: nat)
    requires ParentsNameThem(ns) && NamesInode(ns, d, f, i) && Lost(ns, after, d, f) && SameDots(ns, after)
    requires forall e :: e in after.dirs ==> e in ns.dirs && e != i
    ensures ParentsNameThem(after)
  {
    forall e | e in after.dirs && e != ROOT_INO
      ensures ParentNames(after, e)
    {
      assert ParentNames(ns, e);
      var r :| NamesInode(ns, Parent(ns, e), r, e);
      assert NamesInode(after, Parent(after, e), r, e);
    }
  }

  /** Every name stands for a live inode, and no inode has two. */
  ghost predicate NamesSound(ns: Ns) {
    NamedAreLive(ns) && NamedOnce(ns)
  }

  lemma GainKeepsSound(ns: Ns, after: Ns, d: nat, f: nat, ino: nat)
    requires NamesSound(ns) && Gained(ns, after, d, f, ino) && after.live == ns.live + {ino} && ino !in ns.live
    requires ino != ROOT_INO
    ensures NamesSound(after)
  {
  }

  lemma LossKeepsSound(ns: Ns, after: Ns, d: nat, f: nat, i: nat)
    requires NamesSound(ns) && NamesInode(ns, d, f, i) && Lost(ns, after, d, f) && after.live == ns.live - {i}
    ensures NamesSound(after)
  {
  }

  lemma SameNamesSound(ns: Ns, after: Ns)
    requires NamesSound(ns) && ns.live <= after.live
    requires forall e, r, i :: NamesInode(after, e, r, i) <==> NamesInode(ns, e, r, i)
    ensures NamesSound(after)
  {
  }

  /** When the record of an inode that stays live is cleared, the inode is left without a name. */
  lemma NameLost(ns: Ns, after: Ns, d: nat, f: nat, j: nat)
    requires NamedAreLive(ns) && NamedOnce(ns) && NamesInode(ns, d, f, j) && j in after.live
    requires forall e, r :: NamesInode(after, e, r, j) ==> NamesInode(ns, e, r, j) && !(e == d && r == f)
    ensures !LiveAreNamed(after)
  {
    forall e, r
      ensures !NamesInode(after, e, r, j)
    {
      assert NamesInode(after, e, r, j) ==> NamesInode(ns, e, r, j);
    }
    assert !IsNamed(after, j);
  }

  /** Releasing a file after clearing the first record of a name keeps the tree exactly when that record was the
      file's own. */
  lemma UnlinkKeepsTree(ns: Ns, d: nat, name: Name, i: nat)
    requires TreeInv(ns) && PlainName(name) && d in ns.dirs && FirstMatch(ns.dirs[d], name) < |ns.dirs[d]|
    requires i in ns.live && i !in ns.dirs
    ensures TreeInv(NsUnlink(ns, d, name, i)) <==> Finds(ns, d, name, i)
  {
    ParentsStand(ns);
    var mid, f := LeaveRecords(ns, d, name);
    var after, j := NsUnlink(ns, d, name, i), ns.dirs[d][f].ino;
    SameRecords(mid, after);
    if j == i {
      GoneFileKeepsTree(ns, after, d, f, i);
    } else {
      NameLost(ns, after, d, f, j);
    }
  }

  lemma GoneFileKeepsTree(ns: Ns, after: Ns, d: nat, f: nat, i: nat)
    requires TreeInv(ns) && d in ns.dirs && i !in ns.dirs
    requires Shape(after) && NoOtherDots(after) && SameDots(ns, after) && Lost(ns, after, d, f)
    requires NamesInode(ns, d, f, i)
    requires after.live == ns.live - {i} && after.dirs.Keys == ns.dirs.Keys && after.nlink == ns.nlink
    ensures TreeInv(after)
  {
    LossKeepsNaming(ns, after, d, f, i);
    LossKeepsParents(ns, after, d, f, i);
    AllStillReach(ns, after, 0);
    LinksStay(ns, after);
  }

  /** Taking away a directory that names nothing removes nothing from the naming relation. */
  lemma EmptyDirRemoved(ns: Ns, after: Ns, i: nat)
    requires i in ns.dirs && after.dirs == ns.dirs - {i} && forall r, x :: !NamesInode(ns, i, r, x)
    ensures forall e, r, x :: NamesInode(after, e, r, x) <==> NamesInode(ns, e, r, x)
    ensures NoOtherDots(ns) ==> NoOtherDots(after)
  {
    if NoOtherDots(ns) {
      forall e, r | e in after.dirs && (if e == ROOT_INO then 0 else 2) <= r < |after.dirs[e]|
        && after.dirs[e][r].ino != 0
        ensures NamesInode(after, e, r, after.dirs[e][r].ino)
      {
        assert NamesInode(ns, e, r, ns.dirs[e][r].ino);
      }
    }
  }

  lemma EmptyNamesNothing(ns: Ns, i: nat)
    requires i in ns.dirs && EmptyDir(ns.dirs[i])
    ensures forall r, x :: !NamesInode(ns, i, r, x)
  {
  }

  lemma GoneDirRecords(ns: Ns, mid: Ns, after: Ns, d: nat, f: nat, i: nat)
    requires Shape(ns) && Shape(mid) && NoOtherDots(mid) && SameDots(ns, mid) && Lost(ns, mid, d, f)
    requires mid.dirs.Keys == ns.dirs.Keys
    requires i in ns.dirs && i != ROOT_INO && forall r, x :: !NamesInode(ns, i, r, x)
    requires after.dirs == mid.dirs - {i} && after.live == ns.live - {i} && after.nlink.Keys == ns.nlink.Keys - {i}
    ensures Shape(after) && NoOtherDots(after) && SameDots(ns, after) && Lost(ns, after, d, f)
  {
    EmptyDirRemoved(mid, after, i);
  }

  /** A directory that is found under a name counts in the links of the directory that holds the name. */
  lemma RmdirLinks(ns: Ns, d: nat, name: Name, i: nat)
    requires Shape(ns) && LinksCount(ns) && PlainName(name) && Finds(ns, d, name, i) && i in ns.dirs
    ensures ns.nlink[d] >= 3
  {
    LeaveLoses(ns, d, name);
    assert FirstMatch(ns.dirs[d], name) in Subdirs(ns, d);
  }

  /** A directory that names nothing has link count 2. */
  lemma EmptyDirLinks(ns: Ns, i: nat)
    requires LinksCount(ns) && i in ns.dirs && forall r, x :: !NamesInode(ns, i, r, x)
    ensures ns.nlink[i] == 2
  {
    assert Subdirs(ns, i) == {};
  }

  lemma LeaveRecords(ns: Ns, d: nat, name: Name) returns (mid: Ns, f: nat)
    requires Tidy(ns) && PlainName(name)
    requires d in ns.dirs && FirstMatch(ns.dirs[d], name) < |ns.dirs[d]|
    ensures mid == Leave(ns, d, name) && f == FirstMatch(ns.dirs[d], name)
    ensures Shape(mid) && NoOtherDots(mid) && SameDots(ns, mid) && Lost(ns, mid, d, f) && mid.dirs.Keys == ns.dirs.Keys
    ensures NamesInode(ns, d, f, ns.dirs[d][f].ino)
  {
    mid, f := Leave(ns, d, name), FirstMatch(ns.dirs[d], name);
    LeaveLoses(ns, d, name);
    LeaveKeepsDots(ns, d, name);
  }

  lemma RmdirMatched(ns: Ns, d: nat, name: Name, i: nat)
    requires TreeInv(ns) && PlainName(name) && Finds(ns, d, name, i) && i in ns.dirs && i != d && i != ROOT_INO
    requires forall r, x :: !NamesInode(ns, i, r, x)
    ensures ns.nlink[d] >= 3 && TreeInv(NsRmdir(ns, d, name, i))
  {
    ParentsStand(ns);
    RmdirLinks(ns, d, name, i);
    var mid, f := LeaveRecords(ns, d, name);
    var _ := DirTakenAway(ns, mid, d, f, i);
  }

  lemma RmdirMismatched(ns: Ns, d: nat, name: Name, i: nat)
    requires TreeInv(ns) && PlainName(name) && d in ns.dirs && FirstMatch(ns.dirs[d], name) < |ns.dirs[d]|
    requires i in ns.dirs && ns.nlink[d] >= 1 && !Finds(ns, d, name, i)
    ensures !TreeInv(NsRmdir(ns, d, name, i))
  {
    LeaveLoses(ns, d, name);
    var _ := DirTakenWrongly(ns, Leave(ns, d, name), d, FirstMatch(ns.dirs[d], name), i, NsRmdir(ns, d, name, i).nlink);
  }

  /** Removing a directory that names nothing, after clearing the first record of a name, keeps the tree exactly when
      that record was the directory's own. */
  lemma RmdirKeepsTree(ns: Ns, d: nat, name: Name, i: nat)
    requires TreeInv(ns) && PlainName(name) && d in ns.dirs && FirstMatch(ns.dirs[d], name) < |ns.dirs[d]|
    requires i in ns.dirs && i != d && i != ROOT_INO && forall r, x :: !NamesInode(ns, i, r, x)
    ensures ns.nlink[i] == 2 && ns.nlink[d] >= 2 && (TreeInv(NsRmdir(ns, d, name, i)) <==> Finds(ns, d, name, i))
  {
    EmptyDirLinks(ns, i);
    if Finds(ns, d, name, i) {
      RmdirMatched(ns, d, name, i);
    } else {
      RmdirMismatched(ns, d, name, i);
    }
  }

  lemma DirTakenWrongly(ns: Ns, mid: Ns, d: nat, f: nat, i: nat, nlink: map<nat, nat>) returns (after: Ns)
    requires NamedAreLive(ns) && NamedOnce(ns) && Lost(ns, mid, d, f) && i in ns.dirs
    requires d in ns.dirs && f < |ns.dirs[d]| && ns.dirs[d][f].ino != i && NamesInode(ns, d, f, ns.dirs[d][f].ino)
    ensures after == Ns(ns.live - {i}, mid.dirs - {i}, nlink) && !TreeInv(after)
  {
    after := Ns(ns.live - {i}, mid.dirs - {i}, nlink);
    var j := ns.dirs[d][f].ino;
    assert forall e, r :: NamesInode(after, e, r, j) ==> NamesInode(mid, e, r, j);
    NameLost(ns, after, d, f, j);
  }

  lemma DirTakenAway(ns: Ns, mid: Ns, d: nat, f: nat, i: nat) returns (after: Ns)
    requires TreeInv(ns) && d in ns.dirs && i in ns.dirs && i != d && i != ROOT_INO && ns.nlink[d] >= 1
    requires Shape(mid) && NoOtherDots(mid) && SameDots(ns, mid) && Lost(ns, mid, d, f) && NamesInode(ns, d, f, i)
    requires mid.dirs.Keys == ns.dirs.Keys && forall r, x :: !NamesInode(ns, i, r, x)
    ensures after == Ns(ns.live - {i}, mid.dirs - {i}, ns.nlink[d := ns.nlink[d] - 1] - {i})
    ensures TreeInv(after)
  {
    after := GoneDir(ns, mid, d, f, i);
    GoneDirKeepsTree(ns, after, d, f, i);
  }

  lemma GoneDir(ns: Ns, mid: Ns, d: nat, f: nat, i: nat) returns (after: Ns)
    requires Shape(ns) && d in ns.dirs && i in ns.dirs && i != d && i != ROOT_INO && ns.nlink[d] >= 1
    requires Shape(mid) && NoOtherDots(mid) && SameDots(ns, mid) && Lost(ns, mid, d, f)
    requires mid.dirs.Keys == ns.dirs.Keys && forall r, x :: !NamesInode(ns, i, r, x)
    ensures after == Ns(ns.live - {i}, mid.dirs - {i}, ns.nlink[d := ns.nlink[d] - 1] - {i})
    ensures Shape(after) && NoOtherDots(after) && SameDots(ns, after) && Lost(ns, after, d, f)
    ensures after.live == ns.live - {i} && after.dirs.Keys == ns.dirs.Keys - {i}
    ensures after.nlink == ns.nlink[d := ns.nlink[d] - 1] - {i}
  {
    after := Ns(ns.live - {i}, mid.dirs - {i}, ns.nlink[d := ns.nlink[d] - 1] - {i});
    GoneDirRecords(ns, mid, after, d, f, i);
  }

  lemma GoneDirKeepsNaming(ns: Ns, after: Ns, d: nat, f: nat, i: nat)
    requires NamedAreLive(ns) && LiveAreNamed(ns) && NamedOnce(ns) && ParentsNameThem(ns)
    requires SameDots(ns, after) && Lost(ns, after, d, f) && NamesInode(ns, d, f, i)
    requires after.live == ns.live - {i} && after.dirs.Keys == ns.dirs.Keys - {i}
    ensures NamedAreLive(after) && LiveAreNamed(after) && NamedOnce(after) && ParentsNameThem(after)
  {
    LossKeepsNaming(ns, after, d, f, i);
    LossKeepsParents(ns, after, d, f, i);
  }

  lemma GoneDirReaches(ns: Ns, after: Ns, i: nat)
    requires SameDots(ns, after) && AllReachRoot(ns) && ParentsNameThem(ns) && after.dirs.Keys == ns.dirs.Keys - {i}
    requires forall r, x :: !NamesInode(ns, i, r, x)
    ensures AllReachRoot(after)
  {
    AllStillReach(ns, after, i);
  }

  lemma GoneDirKeepsTree(ns: Ns, after: Ns, d: nat, f: nat, i: nat)
    requires TreeInv(ns) && d in ns.dirs && i in ns.dirs && i != d && i != ROOT_INO && ns.nlink[d] >= 1
    requires Shape(after) && NoOtherDots(after) && SameDots(ns, after) && Lost(ns, after, d, f)
    requires NamesInode(ns, d, f, i)
    requires forall r, x :: !NamesInode(ns, i, r, x)
    requires after.live == ns.live - {i} && after.dirs.Keys == ns.dirs.Keys - {i}
    requires after.nlink == ns.nlink[d := ns.nlink[d] - 1] - {i}
    ensures TreeInv(after)
  {
    GoneDirKeepsNaming(ns, after, d, f, i);
    GoneDirReaches(ns, after, i);
    GoneDirLinks(ns, after, d, f, i);
  }

  lemma GoneDirLinks(ns: Ns, after: Ns, d: nat, f: nat, i: nat)
    requires LinksCount(ns) && NamedOnce(ns) && d in ns.dirs && i in ns.dirs && i != d && ns.nlink[d] >= 1
    requires Lost(ns, after, d, f) && NamesInode(ns, d, f, i) && after.dirs.Keys == ns.dirs.Keys - {i}
    requires after.nlink == ns.nlink[d := ns.nlink[d] - 1] - {i}
    ensures LinksCount(after)
  {
    forall e | e in after.dirs
      ensures e in after.nlink && after.nlink[e] == 2 + |Subdirs(after, e)|
    {
      if e == d {
        LosesSubdir(ns, after, d, f, i);
      } else {
        SameSubdirs(ns, after, e);
      }
    }
  }

  lemma LosesSubdir(ns: Ns, after: Ns, d: nat, f: nat, i: nat)
    requires NamedOnce(ns) && d in ns.dirs && d in after.dirs && i in ns.dirs
    requires Lost(ns, after, d, f) && NamesInode(ns, d, f, i) && after.dirs.Keys == ns.dirs.Keys - {i}
    ensures |Subdirs(after, d)| == |Subdirs(ns, d)| - 1
  {
    forall r: nat
      ensures r in Subdirs(after, d) <==> r in Subdirs(ns, d) - {f}
    {
      if r in Subdirs(after, d) {
        assert NamesInode(ns, d, r, after.dirs[d][r].ino);
      }
      if r in Subdirs(ns, d) && r != f {
        assert NamesInode(after, d, r, ns.dirs[d][r].ino);
      }
    }
    assert Subdirs(after, d) == Subdirs(ns, d) - {f};
    assert f in Subdirs(ns, d);
  }

  // ---- every step leaves the namespace tidy ----

  lemma EnterTidy(ns: Ns, d: nat, name: Name, ino: nat)
    requires Tidy(ns) && d in ns.dirs && PlainName(name) && ino != 0
    requires |AddRec(ns.dirs[d], Rec(ino, Padded(name)))| <= MAX_RECS
    ensures Tidy(Enter(ns, d, name, ino))
  {
    EnterKeepsDots(ns, d, name, ino);
  }

  lemma LeaveTidy(ns: Ns, d: nat, name: Name)
    requires Tidy(ns) && d in ns.dirs && PlainName(name)
    ensures Tidy(Leave(ns, d, name))
  {
    if FirstMatch(ns.dirs[d], name) < |ns.dirs[d]| {
      LeaveKeepsDots(ns, d, name);
    } else {
      assert ns.dirs[d := ns.dirs[d]] == ns.dirs;
    }
  }

  /** Numbers and links apart, being tidy depends on the records only. */
  lemma SameDirsTidy(ns: Ns, after: Ns)
    requires Tidy(ns) && after.dirs == ns.dirs
    requires 0 !in after.live && after.dirs.Keys <= after.live && after.nlink.Keys == after.dirs.Keys
    ensures Tidy(after)
  {
    SameRecords(ns, after);
    assert forall d :: HasDots(ns, d) ==> HasDots(after, d) && Parent(after, d) == Parent(ns, d);
  }

  lemma InstallTidy(ns: Ns, after: Ns, ino: nat, d: nat)
    requires Tidy(ns) && ino !in ns.dirs && ino != 0 && d != 0 && ino != ROOT_INO
    requires after.live == ns.live + {ino} && after.dirs == ns.dirs[ino := DotRecs(ino, d)]
    requires after.nlink.Keys == ns.nlink.Keys + {ino}
    ensures Tidy(after)
  {
    DotDirAdded(ns, after, ino, d);
    forall e | e in after.dirs && e != ROOT_INO
      ensures HasDots(after, e) && Parent(after, e) != 0
    {
      assert e != ino ==> HasDots(ns, e);
    }
  }

  lemma GoneTidy(ns: Ns, after: Ns, i: nat)
    requires Tidy(ns) && i != ROOT_INO && after.live == ns.live - {i}
    requires after.dirs == ns.dirs - {i} && after.nlink.Keys == ns.nlink.Keys - {i}
    ensures Tidy(after)
  {
    forall e, r | e in after.dirs && (if e == ROOT_INO then 0 else 2) <= r < |after.dirs[e]|
      && after.dirs[e][r].ino != 0
      ensures NamesInode(after, e, r, after.dirs[e][r].ino)
    {
      assert NamesInode(ns, e, r, ns.dirs[e][r].ino);
    }
    forall e | e in after.dirs && e != ROOT_INO
      ensures HasDots(after, e) && Parent(after, e) != 0
    {
      assert HasDots(ns, e);
    }
  }

  // ---- link counts stay small ----

  lemma {:induction false} BoundedSet(s: set<nat>, n: nat)
    requires forall x :: x in s ==> x < n
    ensures |s| <= n
  {
    if n == 0 {
      assert s == {};
    } else {
      BoundedSet(s - {n - 1}, n - 1);
      assert s <= s - {n - 1} + {n - 1};
    }
  }

  lemma LinksBounded(ns: Ns, d: nat)
    requires Shape(ns) && LinksCount(ns) && d in ns.dirs
    ensures 2 <= ns.nlink[d] <= 2 + MAX_RECS
  {
    BoundedSet(Subdirs(ns, d), |ns.dirs[d]|);
  }

  // ---- inodes nobody names ----

  /** Inode i is live, but no directory names it; every stored name is terminated. */
  ghost predicate Orphan(ns: Ns, i: nat) {
    && i in ns.live && i != ROOT_INO && 0 !in ns.live && ns.dirs.Keys <= ns.live
    && (forall d, r :: !NamesInode(ns, d, r, i)) && forall d :: d in ns.dirs ==> AllTerminated(ns.dirs[d])
  }

  lemma OrphanIsNoTree(ns: Ns, i: nat)
    requires Orphan(ns, i)
    ensures !TreeInv(ns)
  {
    assert !IsNamed(ns, i);
  }

  lemma OrphanAfterEnter(ns: Ns, d: nat, name: Name, ino: nat, i: nat)
    requires Orphan(ns, i) && d in ns.dirs && PlainName(name) && ino != 0 && ino != i
    ensures Orphan(Enter(ns, d, name, ino), i)
  {
    EnterGains(ns, d, name, ino);
    AddKeepsTerminated(ns.dirs[d], name, ino);
  }

  lemma OrphanAfterBirth(ns: Ns, ino: nat, i: nat)
    requires Orphan(ns, i) && ino != 0
    ensures Orphan(ns.(live := ns.live + {ino}), i)
  {
    var after := ns.(live := ns.live + {ino});
    assert forall d, r :: NamesInode(after, d, r, i) ==> NamesInode(ns, d, r, i);
  }

  lemma OrphanAfterInstall(ns: Ns, after: Ns, ino: nat, d: nat, i: nat)
    requires Orphan(ns, i) && ino !in ns.dirs && ino != 0
    requires after.live == ns.live + {ino} && after.dirs == ns.dirs[ino := DotRecs(ino, d)]
    ensures Orphan(after, i)
  {
    DotDirAdded(ns, after, ino, d);
  }

  lemma OrphanAfterLeave(ns: Ns, d: nat, name: Name, i: nat)
    requires Orphan(ns, i) && d in ns.dirs && PlainName(name) && FirstMatch(ns.dirs[d], name) < |ns.dirs[d]|
    ensures ns.dirs[d][FirstMatch(ns.dirs[d], name)].ino != i && Orphan(Leave(ns, d, name), i)
  {
    LeaveLoses(ns, d, name);
    RemoveKeepsTerminated(ns.dirs[d], name);
  }

  lemma OrphanAfterGone(ns: Ns, after: Ns, j: nat, i: nat)
    requires Orphan(ns, i) && j != i && after.live == ns.live - {j}
    requires (after.dirs == ns.dirs || after.dirs == ns.dirs - {j})
    requires after.dirs == ns.dirs ==> j !in ns.dirs
    ensures Orphan(after, i)
  {
    forall d, r
      ensures !NamesInode(after, d, r, i)
    {
      assert !NamesInode(ns, d, r, i);
    }
  }

  // ---- two tests for an empty directory ----

  function NamedSlots(ns: Ns, d: nat): set<nat>
    requires d in ns.dirs
  {
    set r | 0 <= r < |ns.dirs[d]| && NamesInode(ns, d, r, ns.dirs[d][r].ino)
  }

  lemma DotSlots(ns: Ns, d: nat)
    requires Shape(ns) && DotsStand(ns) && d in ns.dirs && d != ROOT_INO
    ensures var recs := ns.dirs[d];
      |recs| >= 2 && recs[0].ino != 0 && recs[1].ino != 0 && IsDot(recs[0]) && IsDot(recs[1])
  {
    DotsAreDots(d);
    DotsAreDots(Parent(ns, d));
  }

  /** Beside the two dot records of a non-root directory, the used records are those that name inodes. */
  lemma UsedSlotsAre(ns: Ns, d: nat)
    requires Tidy(ns) && d in ns.dirs
    ensures var dots := if d == ROOT_INO then {} else {0, 1};
      dots !! NamedSlots(ns, d) && UsedSlots(ns.dirs[d]) == dots + NamedSlots(ns, d)
  {
    var recs, named := ns.dirs[d], NamedSlots(ns, d);
    var dots: set<nat> := if d == ROOT_INO then {} else {0, 1};
    if d != ROOT_INO {
      DotSlots(ns, d);
    }
    forall r: nat
      ensures r in UsedSlots(recs) <==> r in dots || r in named
    {
      if r in UsedSlots(recs) && r !in dots {
        assert NamesInode(ns, d, r, recs[r].ino);
      }
    }
  }

  lemma EmptyMeansNoneNamed(ns: Ns, d: nat)
    requires d in ns.dirs
    ensures EmptyDir(ns.dirs[d]) <==> NamedSlots(ns, d) == {}
  {
    var recs, named := ns.dirs[d], NamedSlots(ns, d);
    if named == {} {
      forall r | 0 <= r < |recs| && recs[r].ino != 0
        ensures IsDot(recs[r])
      {
        assert r !in named;
      }
    } else {
      var r :| r in named;
    }
  }

  /** Counting two used records and scanning for a name other than "." and ".." agree on every directory but the
      root, which has no dot records: there they agree exactly when it holds neither no name nor two. */
  lemma CountingTestAgrees(ns: Ns, d: nat)
    requires Tidy(ns) && d in ns.dirs
    ensures (CountsTwo(ns.dirs[d]) <==> EmptyDir(ns.dirs[d]))
       <==> d != ROOT_INO || (|NamedSlots(ns, d)| != 0 && |NamedSlots(ns, d)| != 2)
  {
    UsedSlotsAre(ns, d);
    EmptyMeansNoneNamed(ns, d);
    var named := NamedSlots(ns, d);
    if d != ROOT_INO {
      assert |UsedSlots(ns.dirs[d])| == |{0, 1}| + |named|;
    } else {
      assert {} + named == named;
    }
  }
}
