/**
 * What one call of nm2_dhcp_lease_notify does, case by case: the change to
 * the tree, the change to the synclist, and the decisions handed to the
 * persistence bridge. The event-level cases start from a settled state,
 * the state left behind once pending refreshes have been announced.
 */
module Events {
  import opened Wrappers
  import opened Addresses
  import opened Leases
  import opened LeaseTree
  import opened Reconcile
  import opened Settle

  /** Acquiring an absent (MAC, IP) adds exactly one fresh node, with no flag set, and nothing else. */
  lemma AcquireAbsent(db: Db, l: Lease)
    requires Wf(db) && KeyOf(l) !in Keys(db.tree)
    ensures Mutate(db, false, l).Some?
    ensures Mutate(db, false, l).value.db.synclist == db.synclist
    ensures multiset(Mutate(db, false, l).value.db.tree) == multiset(db.tree) + multiset{Node(l, false, false)}
    ensures Keys(Mutate(db, false, l).value.db.tree) == Keys(db.tree) + {KeyOf(l)}
    ensures Mutate(db, false, l).value.notes == []
  {
  }

  /**
   * Acquiring a present (MAC, IP) replaces that node's lease, keeps its
   * synclist mark, sets its pending flag, and changes nothing else.
   */
  lemma AcquirePresent(db: Db, l: Lease, i: nat)
    requires Wf(db) && i < |db.tree| && NodeKey(db.tree[i]) == KeyOf(l)
    ensures Mutate(db, false, l).Some?
    ensures Mutate(db, false, l).value.db.synclist == db.synclist
    ensures |Mutate(db, false, l).value.db.tree| == |db.tree|
    ensures Mutate(db, false, l).value.db.tree[i] == Node(l, db.tree[i].sync, true)
    ensures forall j :: 0 <= j < |db.tree| && j != i ==> Mutate(db, false, l).value.db.tree[j] == db.tree[j]
    ensures Mutate(db, false, l).value.notes == []
  {
    KeysAt(db.tree, i);
    var f := Find(db.tree, l).value;
    if f != i {
      SortedKeysUnique(db.tree, i, f);
    }
  }

  /**
   * Releasing a present (MAC, IP) removes exactly that node; it leaves the
   * synclist, with a release of its lease, exactly when it is marked there
   * or backs its device's entry.
   */
  lemma ReleasePresent(db: Db, l: Lease, i: nat)
    requires Wf(db) && i < |db.tree| && NodeKey(db.tree[i]) == KeyOf(l)
    ensures Mutate(db, true, l).Some?
    ensures multiset(Mutate(db, true, l).value.db.tree) == multiset(db.tree) - multiset{db.tree[i]}
    ensures Keys(Mutate(db, true, l).value.db.tree) == Keys(db.tree) - {KeyOf(l)}
    ensures Delists(db.tree[i], db.synclist) ==>
      Mutate(db, true, l).value.db.synclist == db.synclist - {l.hwaddr} &&
      Mutate(db, true, l).value.notes == [Released(db.tree[i].lease)]
    ensures !Delists(db.tree[i], db.synclist) ==>
      Mutate(db, true, l).value.db.synclist == db.synclist && Mutate(db, true, l).value.notes == []
  {
    KeysAt(db.tree, i);
    var f := Find(db.tree, l).value;
    if f != i {
      SortedKeysUnique(db.tree, i, f);
    }
  }

  /**
   * Releasing an unknown (MAC, IP) returns before the rebuild: neither
   * index changes and nothing is decided.
   */
  lemma ReleaseUnknown(db: Db, l: Lease)
    requires MaxSurvivors(db) && KeyOf(l) !in Keys(db.tree)
    ensures Event(db, true, l) == Outcome(db, [])
  {
  }

  /** The lease would pass through a rebuild of db without any effect. */
  ghost predicate QuietFor(db: Db, l: Lease)
    requires Indexed(db)
  {
    l.hwaddr in db.synclist &&
    l.leasetime <= Survivor(db, l.hwaddr).lease.leasetime && !Survivor(db, l.hwaddr).updated
  }

  /** Adding a node whose device's survivor is at least as long and not pending does nothing. */
  lemma QuietStep(db: Db, i: nat)
    requires Indexed(db) && i < |db.tree| && QuietFor(db, db.tree[i].lease)
    ensures Step(db, i) == Outcome(db, [])
  {
    var m := db.tree[i].lease.hwaddr;
    var o := IndexOf(db.tree, db.synclist[m]);
    assert db.tree[o := db.tree[o]] == db.tree;
    assert db.synclist[m := db.synclist[m]] == db.synclist;
  }

  /** A quiet addition is skipped by the traversal. */
  lemma QuietUnfold(o: Outcome, i: nat)
    requires Indexed(o.db) && i < |o.db.tree|
    requires QuietFor(o.db, o.db.tree[i].lease)
    ensures Traverse(o, i) == Traverse(o, i + 1)
  {
    QuietStep(o.db, i);
    assert o.notes + [] == o.notes;
  }

  /** Quiet additions from i up to p can be skipped. */
  lemma {:induction false} TraverseSkip(o: Outcome, i: nat, p: nat)
    requires Indexed(o.db) && i <= p <= |o.db.tree|
    requires forall j :: i <= j < p ==> QuietFor(o.db, o.db.tree[j].lease)
    ensures Traverse(o, i) == Traverse(o, p)
    decreases p - i
  {
    if i < p {
      QuietUnfold(o, i);
      TraverseSkip(o, i + 1, p);
    }
  }

  /** The rest of a traversal whose additions are all quiet changes nothing. */
  lemma TraverseQuiet(o: Outcome, i: nat)
    requires Indexed(o.db) && i <= |o.db.tree|
    requires forall j :: i <= j < |o.db.tree| ==> QuietFor(o.db, o.db.tree[j].lease)
    ensures Traverse(o, i) == o
  {
    TraverseSkip(o, i, |o.db.tree|);
  }

  /** A rebuild in which no addition does anything changes nothing and decides nothing. */
  lemma RebuildQuiet(db: Db)
    requires Wf(db)
    requires forall j :: 0 <= j < |db.tree| ==> QuietFor(db, db.tree[j].lease)
    ensures Rebuild(db) == Outcome(db, [])
  {
    TraverseQuiet(Outcome(db, []), 0);
  }

  /** The traversal from position p is the addition at p followed by the traversal from p + 1. */
  lemma TraverseUnfold(o: Outcome, p: nat)
    requires Indexed(o.db) && p < |o.db.tree|
    ensures Traverse(o, p) == Traverse(Outcome(Step(o.db, p).db, o.notes + Step(o.db, p).notes), p + 1)
  {
  }

  /** Quietness of the later additions, read over the tree after the addition at p. */
  lemma QuietAfter(db: Db, p: nat)
    requires Indexed(db) && p < |db.tree|
    requires forall j :: p < j < |db.tree| ==> QuietFor(Step(db, p).db, db.tree[j].lease)
    ensures forall j :: p + 1 <= j < |Step(db, p).db.tree| ==>
      QuietFor(Step(db, p).db, Step(db, p).db.tree[j].lease)
  {
    var s := Step(db, p);
    forall j | p + 1 <= j < |s.db.tree| ensures QuietFor(s.db, s.db.tree[j].lease) {
      assert s.db.tree[j].lease == db.tree[j].lease;
    }
  }

  /** A rebuild in which only the addition at position p does anything is that one addition. */
  lemma RebuildOneStep(db: Db, p: nat)
    requires Wf(db) && p < |db.tree|
    requires forall j :: 0 <= j < p ==> QuietFor(db, db.tree[j].lease)
    requires forall j :: p < j < |db.tree| ==> QuietFor(Step(db, p).db, db.tree[j].lease)
    ensures Rebuild(db) == Step(db, p)
  {
    var o := Outcome(db, []);
    TraverseSkip(o, 0, p);
    var s := Step(db, p);
    TraverseUnfold(o, p);
    assert o.notes + s.notes == s.notes;
    QuietAfter(db, p);
    TraverseQuiet(s, p + 1);
  }

  /** An event that reaches the rebuild: the tree update's decisions, then the rebuild's. */
  lemma EventUnfold(db: Db, released: bool, l: Lease, m: Outcome, r: Outcome)
    requires MaxSurvivors(db) && Mutate(db, released, l) == Some(m)
    requires Wf(m.db) && Rebuild(m.db) == r
    ensures Event(db, released, l) == Outcome(r.db, m.notes + r.notes)
  {
  }

  /** An update of the tree that decides nothing adds nothing ahead of the rebuild's decisions. */
  lemma NoneThen(ns: seq<Note>)
    ensures [] + ns == ns
  {
  }
}
