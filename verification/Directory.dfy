/** A directory as the sequence of its records, and the finite map from names to inode numbers it implements. */
module Directory {
  import opened Bytes
  import opened Records

  // ---- the scans of naive_add_entry, naive_remove_entry and naive_lookup ----

  predicate Names(rec: Rec, name: Name) {
    rec.ino != 0 && Matches(rec, name)
  }

  /** Index of the first unused record from k on, or the number of records. */
  function FirstFree(recs: seq<Rec>, k: nat := 0): (r: nat)
    requires k <= |recs|
    ensures k <= r <= |recs| && (r < |recs| ==> recs[r].ino == 0)
    ensures forall i :: k <= i < r ==> recs[i].ino != 0
    decreases |recs| - k
  {
    if k == |recs| || recs[k].ino == 0 then k else FirstFree(recs, k + 1)
  }

  /** Index of the first used record from k on that carries the name, or the number of records. */
  function FirstMatch(recs: seq<Rec>, name: Name, k: nat := 0): (r: nat)
    requires k <= |recs|
    ensures k <= r <= |recs| && (r < |recs| ==> Names(recs[r], name))
    ensures forall i :: k <= i < r ==> !Names(recs[i], name)
    decreases |recs| - k
  {
    if k == |recs| || Names(recs[k], name) then k else FirstMatch(recs, name, k + 1)
  }

  lemma FirstFreeIs(recs: seq<Rec>, r: nat)
    requires r <= |recs| && (forall q :: 0 <= q < r ==> recs[q].ino != 0) && (r < |recs| ==> recs[r].ino == 0)
    ensures FirstFree(recs) == r
  {
  }

  lemma FirstMatchIs(recs: seq<Rec>, name: Name, r: nat)
    requires r <= |recs| && (forall q :: 0 <= q < r ==> !Names(recs[q], name)) && (r < |recs| ==> Names(recs[r], name))
    ensures FirstMatch(recs, name) == r
  {
  }

  function NewBlockRecs(rec: Rec): seq<Rec> {
    [rec, ZeroRec(), ZeroRec()]
  }

  /** Entering a record: in the first unused slot, or at the start of a new block. */
  function AddRec(recs: seq<Rec>, rec: Rec): seq<Rec> {
    var r := FirstFree(recs);
    if r < |recs| then recs[r := rec] else recs + NewBlockRecs(rec)
  }

  /** Clearing the first record that carries the name. */
  function RemoveRec(recs: seq<Rec>, name: Name): seq<Rec> {
    var r := FirstMatch(recs, name);
    if r < |recs| then recs[r := ZeroRec()] else recs
  }

  // ---- the map ----

  predicate AllTerminated(recs: seq<Rec>) {
    forall r :: 0 <= r < |recs| ==> Terminated(recs[r])
  }

  predicate Used(recs: seq<Rec>, r: int) {
    0 <= r < |recs| && recs[r].ino != 0
  }

  ghost predicate UniqueNames(recs: seq<Rec>) {
    forall r, q :: Used(recs, r) && Used(recs, q) && NameOf(recs[r]) == NameOf(recs[q]) ==> r == q
  }

  ghost predicate IsMapOf(recs: seq<Rec>, m: map<Name, nat>) {
    && (forall r :: Used(recs, r) ==> NameOf(recs[r]) in m && m[NameOf(recs[r])] == recs[r].ino)
    && (forall name :: name in m ==> exists r :: Used(recs, r) && NameOf(recs[r]) == name)
  }

  /** The map from names to inode numbers that the records stand for. */
  function Entries(recs: seq<Rec>): map<Name, nat> {
    if recs == [] then map[] else
    var last, m := recs[|recs| - 1], Entries(recs[..|recs| - 1]);
    if last.ino == 0 then m else m[NameOf(last) := last.ino]
  }

  lemma {:induction false} EntriesIsMap(recs: seq<Rec>)
    requires UniqueNames(recs)
    ensures IsMapOf(recs, Entries(recs))
  {
    if recs != [] {
      var init := recs[..|recs| - 1];
      assert forall r :: Used(init, r) ==> Used(recs, r) && recs[r] == init[r];
      EntriesIsMap(init);
      forall name | name in Entries(recs)
        ensures exists r :: Used(recs, r) && NameOf(recs[r]) == name
      {
        if name in Entries(init) {
          var r :| Used(init, r) && NameOf(init[r]) == name;
          assert Used(recs, r);
        } else {
          assert Used(recs, |recs| - 1);
        }
      }
      forall r | Used(recs, r)
        ensures NameOf(recs[r]) in Entries(recs) && Entries(recs)[NameOf(recs[r])] == recs[r].ino
      {
        if r < |recs| - 1 {
          assert Used(init, r);
        }
      }
    }
  }

  lemma MapIsUnique(recs: seq<Rec>, m: map<Name, nat>)
    requires UniqueNames(recs) && IsMapOf(recs, m)
    ensures m == Entries(recs)
  {
    EntriesIsMap(recs);
    var e := Entries(recs);
    forall name
      ensures name in m <==> name in e
      ensures name in m && name in e ==> m[name] == e[name]
    {
    }
  }

  /** Lookup is the map's get: it finds exactly the names in the map, with their numbers. */
  lemma LookupIsGet(recs: seq<Rec>, name: Name)
    requires AllTerminated(recs) && UniqueNames(recs)
    ensures var r := FirstMatch(recs, name);
      (r < |recs| <==> name in Entries(recs)) && (r < |recs| ==> Entries(recs)[name] == recs[r].ino)
  {
    EntriesIsMap(recs);
    forall i: nat | i < |recs|
      ensures Names(recs[i], name) <==> Used(recs, i) && NameOf(recs[i]) == name
    {
      MatchesMeansNamed(recs[i], name);
    }
  }

  /** Where AddRec put the record, and that nothing else moved. */
  lemma AddRecShape(recs: seq<Rec>, rec: Rec)
    ensures var r, after := FirstFree(recs), AddRec(recs, rec);
      && |recs| <= |after| && r < |after| && after[r] == rec
      && (forall i :: 0 <= i < |recs| && i != r ==> after[i] == recs[i])
      && (forall i :: |recs| <= i < |after| && i != r ==> after[i] == ZeroRec())
      && (r < |recs| ==> recs[r].ino == 0)
  {
  }

  lemma AddKeepsTerminated(recs: seq<Rec>, name: Name, ino: nat)
    requires AllTerminated(recs)
    ensures AllTerminated(AddRec(recs, Rec(ino, Padded(name))))
  {
    PaddedName(name, ino);
    ZeroRecTerminated();
    AddRecShape(recs, Rec(ino, Padded(name)));
  }

  lemma RemoveKeepsTerminated(recs: seq<Rec>, name: Name)
    requires AllTerminated(recs)
    ensures AllTerminated(RemoveRec(recs, name))
  {
    ZeroRecTerminated();
  }

  /** One more used record: f, the others as before. */
  ghost predicate Inserted(recs: seq<Rec>, f: nat, after: seq<Rec>) {
    && Used(after, f) && !Used(recs, f)
    && (forall r :: Used(after, r) <==> Used(recs, r) || r == f)
    && (forall r :: Used(recs, r) ==> after[r] == recs[r])
  }

  lemma AddInserts(recs: seq<Rec>, rec: Rec)
    requires rec.ino != 0
    ensures Inserted(recs, FirstFree(recs), AddRec(recs, rec)) && AddRec(recs, rec)[FirstFree(recs)] == rec
  {
    AddRecShape(recs, rec);
  }

  lemma InsertUnique(recs: seq<Rec>, f: nat, after: seq<Rec>)
    requires UniqueNames(recs) && Inserted(recs, f, after)
    ensures UniqueNames(after) <==> NameOf(after[f]) !in Entries(recs)
  {
    EntriesIsMap(recs);
    var name := NameOf(after[f]);
    if name in Entries(recs) {
      var q :| Used(recs, q) && NameOf(recs[q]) == name;
      assert Used(after, q) && Used(after, f);
    }
  }

  lemma InsertMap(recs: seq<Rec>, f: nat, after: seq<Rec>)
    requires UniqueNames(recs) && Inserted(recs, f, after) && UniqueNames(after)
    ensures Entries(after) == Entries(recs)[NameOf(after[f]) := after[f].ino]
  {
    EntriesIsMap(recs);
    var m := Entries(recs)[NameOf(after[f]) := after[f].ino];
    forall n | n in m
      ensures exists r :: Used(after, r) && NameOf(after[r]) == n
    {
      if n != NameOf(after[f]) {
        var r :| Used(recs, r) && NameOf(recs[r]) == n;
        assert Used(after, r);
      }
    }
    MapIsUnique(after, m);
  }

  /** Adding keeps names unique exactly when the stored form of the new name is not in use, and is then the map's
      insert. */
  lemma AddIsInsert(recs: seq<Rec>, name: Name, ino: nat)
    requires UniqueNames(recs) && ino != 0
    ensures var after := AddRec(recs, Rec(ino, Padded(name)));
      && (UniqueNames(after) <==> Stored(name) !in Entries(recs))
      && (UniqueNames(after) ==> Entries(after) == Entries(recs)[Stored(name) := ino])
  {
    var rec := Rec(ino, Padded(name));
    PaddedName(name, ino);
    AddInserts(recs, rec);
    InsertUnique(recs, FirstFree(recs), AddRec(recs, rec));
    if UniqueNames(AddRec(recs, rec)) {
      InsertMap(recs, FirstFree(recs), AddRec(recs, rec));
    }
  }

  /** A name just added is found again, under its own number, exactly when it fits the record. */
  lemma AddThenLookup(recs: seq<Rec>, name: Name, ino: nat)
    requires AllTerminated(recs) && ino != 0 && FirstMatch(recs, name) == |recs|
    ensures var after := AddRec(recs, Rec(ino, Padded(name)));
      var r := FirstMatch(after, name);
      && (r < |after| <==> |name| < MAX_FILENAME_LEN)
      && (r < |after| ==> r == FirstFree(recs) && after[r].ino == ino)
  {
    var rec := Rec(ino, Padded(name));
    PaddedName(name, ino);
    MatchesMeansNamed(rec, name);
    AddRecShape(recs, rec);
  }

  /** One used record less: the only one that carries the name, if there is one. */
  ghost predicate Removed(recs: seq<Rec>, name: Name, after: seq<Rec>) {
    && (forall r :: Used(after, r) <==> Used(recs, r) && NameOf(recs[r]) != name)
    && (forall r :: Used(after, r) ==> after[r] == recs[r])
  }

  lemma RemoveRemoves(recs: seq<Rec>, name: Name)
    requires AllTerminated(recs) && UniqueNames(recs)
    ensures Removed(recs, name, RemoveRec(recs, name))
  {
    var f, after := FirstMatch(recs, name), RemoveRec(recs, name);
    forall r: nat | r < |recs|
      ensures Names(recs[r], name) <==> Used(recs, r) && NameOf(recs[r]) == name
    {
      MatchesMeansNamed(recs[r], name);
    }
    forall r
      ensures Used(after, r) <==> Used(recs, r) && NameOf(recs[r]) != name
    {
      if f < |recs| && r == f {
        assert !Used(after, r);
      }
    }
  }

  lemma RemovedMap(recs: seq<Rec>, name: Name, after: seq<Rec>)
    requires UniqueNames(recs) && Removed(recs, name, after)
    ensures UniqueNames(after) && Entries(after) == Entries(recs) - {name}
  {
    EntriesIsMap(recs);
    var m := Entries(recs) - {name};
    forall n | n in m
      ensures exists r :: Used(after, r) && NameOf(after[r]) == n
    {
      var r :| Used(recs, r) && NameOf(recs[r]) == n;
      assert Used(after, r);
    }
    MapIsUnique(after, m);
  }

  /** Removing is the map's delete: of every binding, only the one of the name goes. */
  lemma RemoveIsDelete(recs: seq<Rec>, name: Name)
    requires AllTerminated(recs) && UniqueNames(recs)
    ensures UniqueNames(RemoveRec(recs, name))
    ensures Entries(RemoveRec(recs, name)) == Entries(recs) - {name}
  {
    RemoveRemoves(recs, name);
    RemovedMap(recs, name, RemoveRec(recs, name));
  }

  /** Removing a name right after adding it empties the slot again: no used record differs from before. */
  lemma AddThenRemove(recs: seq<Rec>, name: Name, ino: nat)
    requires AllTerminated(recs) && ino != 0 && FirstMatch(recs, name) == |recs|
    requires |name| < MAX_FILENAME_LEN
    ensures var r := FirstFree(recs);
      RemoveRec(AddRec(recs, Rec(ino, Padded(name))), name)
        == if r < |recs| then recs[r := ZeroRec()] else recs + NewBlockRecs(ZeroRec())
  {
    AddThenLookup(recs, name, ino);
  }

  // ---- two tests for an empty directory ----

  /** naive_rmdir: every used record is "." or "..". */
  predicate EmptyDir(recs: seq<Rec>) {
    forall r :: 0 <= r < |recs| && recs[r].ino != 0 ==> IsDot(recs[r])
  }

  function UsedSlots(recs: seq<Rec>): set<nat> {
    set r | 0 <= r < |recs| && recs[r].ino != 0
  }

  /** naive_is_empty_dir of the lab's other snapshot: exactly two records are in use. */
  predicate CountsTwo(recs: seq<Rec>) {
    |UsedSlots(recs)| == 2
  }
}
