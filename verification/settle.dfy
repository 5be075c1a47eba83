/**
 * What a rebuild does to a state in which every device is already filed
 * under one of its longest leases (the state every event leaves behind):
 * no entry moves, each pending survivor is announced exactly once and its
 * flag cleared, and a rebuild of a settled state changes nothing.
 */
module Settle {
  import opened Wrappers
  import opened Addresses
  import opened Leases
  import opened LeaseTree
  import opened Reconcile

  /** Some node among the first n of the traversal belongs to device m. */
  ghost predicate SeenBy(t: seq<Node>, n: nat, m: Mac)
  {
    exists j :: 0 <= j < n && j < |t| && t[j].lease.hwaddr == m
  }

  /** The device's entry points at a node whose update is pending. */
  ghost predicate Pending(db: Db, m: Mac)
    requires Indexed(db)
  {
    m in db.synclist && Survivor(db, m).updated
  }

  /** The tree and synclist after the first n additions of a rebuild of a state with MaxSurvivors. */
  ghost predicate SettlingState(db: Db, n: nat, r: Db)
    requires MaxSurvivors(db)
  {
    var t, sl := db.tree, db.synclist;
    r.synclist == sl && SameLeases(t, r.tree) &&
    forall j :: 0 <= j < |t| ==>
      r.tree[j].sync == t[j].sync &&
      r.tree[j].updated == (t[j].updated && !(Backs(t[j], sl) && SeenBy(t, n, t[j].lease.hwaddr)))
  }

  /**
   * The decisions of the first n additions: one refresh of the survivor of
   * each pending device met so far, and nothing else.
   */
  ghost predicate SettlingNotes(db: Db, n: nat, ns: seq<Note>)
    requires MaxSurvivors(db)
  {
    var t := db.tree;
    (forall k :: 0 <= k < |ns| ==>
      Pending(db, ns[k].lease.hwaddr) && SeenBy(t, n, ns[k].lease.hwaddr) &&
      ns[k] == Acquired(Survivor(db, ns[k].lease.hwaddr).lease)) &&
    (forall k1, k2 :: 0 <= k1 < k2 < |ns| ==> ns[k1].lease.hwaddr != ns[k2].lease.hwaddr) &&
    (forall m :: Pending(db, m) && SeenBy(t, n, m) ==>
      exists k :: 0 <= k < |ns| && ns[k].lease.hwaddr == m)
  }

  /** The survivor of device m in db is the node at position o. */
  lemma SurvivorAt(db: Db, m: Mac) returns (o: nat)
    requires Indexed(db) && m in db.synclist
    ensures o < |db.tree| && o == IndexOf(db.tree, db.synclist[m])
    ensures Survivor(db, m) == db.tree[o] && Backs(db.tree[o], db.synclist)
  {
    o := IndexOf(db.tree, db.synclist[m]);
  }

  /** Meeting node n - 1 marks its device as met and no other. */
  lemma SeenStep(t: seq<Node>, n: nat)
    requires 0 < n <= |t|
    ensures SeenBy(t, n, t[n - 1].lease.hwaddr)
    ensures forall m :: m != t[n - 1].lease.hwaddr ==> SeenBy(t, n, m) == SeenBy(t, n - 1, m)
  {
    forall m | m != t[n - 1].lease.hwaddr
      ensures SeenBy(t, n, m) == SeenBy(t, n - 1, m)
    {
      if SeenBy(t, n, m) {
        var j :| 0 <= j < n && j < |t| && t[j].lease.hwaddr == m;
        assert j < n - 1;
      }
    }
  }

  /**
   * Addition i during such a rebuild meets its device's survivor at o:
   * the entry stays, and the survivor's pending flag, if still set, is
   * announced and cleared.
   */
  lemma SettlingShape(db: Db, i: nat, p: Db) returns (o: nat)
    requires MaxSurvivors(db) && i < |db.tree|
    requires Indexed(p) && SettlingState(db, i, p)
    ensures o < |db.tree| && Backs(db.tree[o], db.synclist)
    ensures db.tree[o].lease.hwaddr == db.tree[i].lease.hwaddr
    ensures Survivor(db, db.tree[i].lease.hwaddr) == db.tree[o]
    ensures Step(p, i).db.synclist == db.synclist
    ensures Step(p, i).db.tree == p.tree[o := p.tree[o].(updated := false)]
    ensures Step(p, i).notes == if p.tree[o].updated then [Acquired(db.tree[o].lease)] else []
  {
    var t, sl := db.tree, db.synclist;
    var m := t[i].lease.hwaddr;
    assert p.tree[i].lease == t[i].lease;
    o := SurvivorAt(db, m);
    IndexOfSameLeases(t, p.tree, sl[m]);
    var sy := Sync(Some(p.tree[o]), Some(p.tree[i]));
    assert sy.keep == KeepOld;
  }

  /** Addition i clears the pending flag of its device's survivor and of no other node. */
  lemma SettlingStateStep(db: Db, i: nat, p: Db, s: Db, o: nat)
    requires MaxSurvivors(db) && i < |db.tree|
    requires SettlingState(db, i, p)
    requires o < |db.tree| && Backs(db.tree[o], db.synclist)
    requires db.tree[o].lease.hwaddr == db.tree[i].lease.hwaddr
    requires s.synclist == db.synclist && s.tree == p.tree[o := p.tree[o].(updated := false)]
    ensures SettlingState(db, i + 1, s)
  {
    var t, sl := db.tree, db.synclist;
    forall j | 0 <= j < |t|
      ensures s.tree[j].lease == t[j].lease && s.tree[j].sync == t[j].sync
      ensures s.tree[j].updated == (t[j].updated && !(Backs(t[j], sl) && SeenBy(t, i + 1, t[j].lease.hwaddr)))
    {
      SettlingFlag(db, i, p, s, o, j);
    }
  }

  /** The flags of node j after addition i. */
  lemma SettlingFlag(db: Db, i: nat, p: Db, s: Db, o: nat, j: nat)
    requires MaxSurvivors(db) && i < |db.tree| && j < |db.tree|
    requires SettlingState(db, i, p)
    requires o < |db.tree| && Backs(db.tree[o], db.synclist)
    requires db.tree[o].lease.hwaddr == db.tree[i].lease.hwaddr
    requires s.tree == p.tree[o := p.tree[o].(updated := false)]
    ensures s.tree[j].lease == db.tree[j].lease && s.tree[j].sync == db.tree[j].sync
    ensures s.tree[j].updated ==
      (db.tree[j].updated && !(Backs(db.tree[j], db.synclist) && SeenBy(db.tree, i + 1, db.tree[j].lease.hwaddr)))
  {
    var t, sl := db.tree, db.synclist;
    SeenStep(t, i + 1);
    if j != o && t[j].lease.hwaddr == t[o].lease.hwaddr && Backs(t[j], sl) {
      SortedKeysUnique(t, j, o);
    }
  }

  /** Addition i announces its device's survivor exactly when it is the first meeting of a pending device. */
  lemma SettlingNotesStep(db: Db, i: nat, p: Db, ns: seq<Note>, o: nat)
    requires MaxSurvivors(db) && i < |db.tree|
    requires SettlingState(db, i, p) && SettlingNotes(db, i, ns)
    requires o < |db.tree| && Backs(db.tree[o], db.synclist)
    requires db.tree[o].lease.hwaddr == db.tree[i].lease.hwaddr
    requires Survivor(db, db.tree[i].lease.hwaddr) == db.tree[o]
    ensures SettlingNotes(db, i + 1, ns + if p.tree[o].updated then [Acquired(db.tree[o].lease)] else [])
  {
    var t, m := db.tree, db.tree[i].lease.hwaddr;
    SeenStep(t, i + 1);
    var ns' := ns + if p.tree[o].updated then [Acquired(t[o].lease)] else [];
    if p.tree[o].updated {
      assert !SeenBy(t, i, m);
      assert ns'[|ns|].lease.hwaddr == m;
    }
    forall m' | Pending(db, m') && SeenBy(t, i + 1, m')
      ensures exists k :: 0 <= k < |ns'| && ns'[k].lease.hwaddr == m'
    {
      if m' != m || SeenBy(t, i, m') {
        var k :| 0 <= k < |ns| && ns[k].lease.hwaddr == m';
        assert ns'[k] == ns[k];
      } else {
        assert ns'[|ns|].lease.hwaddr == m;
      }
    }
  }

  /** The rest of a rebuild keeps the settling description up to the end of the traversal. */
  lemma {:induction false} SettlingTraverse(db: Db, i: nat, o: Outcome)
    requires MaxSurvivors(db) && i <= |db.tree|
    requires Indexed(o.db) && SettlingState(db, i, o.db) && SettlingNotes(db, i, o.notes)
    ensures SettlingState(db, |db.tree|, Traverse(o, i).db)
    ensures SettlingNotes(db, |db.tree|, Traverse(o, i).notes)
    decreases |db.tree| - i
  {
    if i < |db.tree| {
      var next := SettlingNext(db, i, o);
      SettlingTraverse(db, i + 1, next);
    }
  }

  /** One addition of a settling pass. */
  lemma SettlingNext(db: Db, i: nat, o: Outcome) returns (next: Outcome)
    requires MaxSurvivors(db) && i < |db.tree|
    requires Indexed(o.db) && SettlingState(db, i, o.db) && SettlingNotes(db, i, o.notes)
    ensures next == Outcome(Step(o.db, i).db, o.notes + Step(o.db, i).notes)
    ensures Indexed(next.db) && SettlingState(db, i + 1, next.db) && SettlingNotes(db, i + 1, next.notes)
  {
    var p := SettlingShape(db, i, o.db);
    next := Outcome(Step(o.db, i).db, o.notes + Step(o.db, i).notes);
    SettlingStateStep(db, i, o.db, next.db, p);
    SettlingNotesStep(db, i, o.db, o.notes, p);
  }

  /**
   * A rebuild of a state with MaxSurvivors (one that follows an event with
   * no change in between) moves no entry, clears the pending flag of every
   * survivor and of nothing else, and leaves a settled state.
   */
  lemma SettlingPassState(db: Db)
    requires MaxSurvivors(db)
    ensures Rebuild(db).db.synclist == db.synclist
    ensures |Rebuild(db).db.tree| == |db.tree|
    ensures forall j :: 0 <= j < |db.tree| ==>
      Rebuild(db).db.tree[j] == if Backs(db.tree[j], db.synclist) then db.tree[j].(updated := false) else db.tree[j]
    ensures Settled(Rebuild(db).db)
  {
    SettlingTraverse(db, 0, Outcome(db, []));
    SettledTree(db, Rebuild(db).db);
  }

  /**
   * The decisions of such a rebuild: each pending survivor is announced
   * exactly once, with its current lease, and nothing else is.
   */
  lemma SettlingPassNotes(db: Db)
    requires MaxSurvivors(db)
    ensures forall k :: 0 <= k < |Rebuild(db).notes| ==>
      Pending(db, Rebuild(db).notes[k].lease.hwaddr) &&
      Rebuild(db).notes[k] == Acquired(Survivor(db, Rebuild(db).notes[k].lease.hwaddr).lease)
    ensures forall k1, k2 :: 0 <= k1 < k2 < |Rebuild(db).notes| ==>
      Rebuild(db).notes[k1].lease.hwaddr != Rebuild(db).notes[k2].lease.hwaddr
    ensures forall m :: Pending(db, m) ==>
      exists k :: 0 <= k < |Rebuild(db).notes| && Rebuild(db).notes[k].lease.hwaddr == m
  {
    SettlingTraverse(db, 0, Outcome(db, []));
    SettledNotes(db, Rebuild(db).notes);
  }

  /** The state at the end of a settling pass. */
  lemma SettledTree(db: Db, r: Db)
    requires MaxSurvivors(db) && MaxSurvivors(r) && SettlingState(db, |db.tree|, r)
    ensures forall j :: 0 <= j < |db.tree| ==>
      r.tree[j] == if Backs(db.tree[j], db.synclist) then db.tree[j].(updated := false) else db.tree[j]
    ensures Settled(r)
  {
    var t, sl, n := db.tree, db.synclist, |db.tree|;
    forall j | 0 <= j < n
      ensures r.tree[j] == if Backs(t[j], sl) then t[j].(updated := false) else t[j]
    {
      assert SeenBy(t, n, t[j].lease.hwaddr);
    }
    forall m | m in sl ensures !Survivor(r, m).updated {
      var o := SurvivorAt(db, m);
      IndexOfSameLeases(t, r.tree, sl[m]);
      assert SeenBy(t, n, t[o].lease.hwaddr);
    }
  }

  /** The decisions at the end of a settling pass. */
  lemma SettledNotes(db: Db, ns: seq<Note>)
    requires MaxSurvivors(db) && SettlingNotes(db, |db.tree|, ns)
    ensures forall k :: 0 <= k < |ns| ==>
      Pending(db, ns[k].lease.hwaddr) && ns[k] == Acquired(Survivor(db, ns[k].lease.hwaddr).lease)
    ensures forall k1, k2 :: 0 <= k1 < k2 < |ns| ==> ns[k1].lease.hwaddr != ns[k2].lease.hwaddr
    ensures forall m :: Pending(db, m) ==> exists k :: 0 <= k < |ns| && ns[k].lease.hwaddr == m
  {
    forall m | Pending(db, m) ensures SeenBy(db.tree, |db.tree|, m) {
      var o := SurvivorAt(db, m);
      assert db.tree[o].lease.hwaddr == m;
    }
  }

  /** A rebuild of a settled state changes nothing and decides nothing. */
  lemma QuietPass(db: Db)
    requires Settled(db)
    ensures Rebuild(db) == Outcome(db, [])
  {
    SettlingPassState(db);
    SettlingPassNotes(db);
    QuietTree(db, Rebuild(db).db);
    var ns := Rebuild(db).notes;
    assert |ns| > 0 ==> Pending(db, ns[0].lease.hwaddr);
  }

  /** Clearing the pending flag of the survivors of a settled state changes nothing. */
  lemma QuietTree(db: Db, r: Db)
    requires Settled(db) && r.synclist == db.synclist && |r.tree| == |db.tree|
    requires forall j :: 0 <= j < |db.tree| ==>
      r.tree[j] == if Backs(db.tree[j], db.synclist) then db.tree[j].(updated := false) else db.tree[j]
    ensures r == db
  {
    forall j | 0 <= j < |db.tree| ensures r.tree[j] == db.tree[j] {
      if Backs(db.tree[j], db.synclist) {
        LookupAt(db.tree, j);
        assert Survivor(db, db.tree[j].lease.hwaddr) == db.tree[j];
      }
    }
  }

  /**
   * Repeated rebuilds with no change in between: the second rebuild after
   * an event may still announce deferred refreshes, but the third is quiet.
   */
  lemma ThirdPassQuiet(db: Db)
    requires MaxSurvivors(db)
    ensures Rebuild(Rebuild(db).db) == Outcome(Rebuild(db).db, [])
  {
    SettlingPassState(db);
    QuietPass(Rebuild(db).db);
  }

  /** Every event leaves a state whose next rebuild settles it and whose one after that is quiet. */
  lemma EventThenIdle(db: Db, released: bool, l: Lease)
    requires MaxSurvivors(db)
    ensures Settled(Rebuild(Event(db, released, l).db).db)
    ensures Rebuild(Rebuild(Event(db, released, l).db).db).notes == []
  {
    var e := Event(db, released, l);
    SettlingPassState(e.db);
    QuietPass(Rebuild(e.db).db);
  }
}
