/**
 * Whole calls of nm2_dhcp_lease_notify from a settled state: for each kind
 * of event, the tree and synclist it leaves and the decisions it hands to
 * the persistence bridge, in order.
 */
module EventCases {
  import opened Wrappers
  import opened Addresses
  import opened Leases
  import opened LeaseTree
  import opened Reconcile
  import opened Settle
  import opened Events

  /** In a settled state every node passes through a rebuild without effect. */
  lemma SettledQuiet(db: Db, j: nat)
    requires Settled(db) && j < |db.tree|
    ensures QuietFor(db, db.tree[j].lease)
  {
  }

  /** Inserting a node moves no device's entry and keeps the state fit for the tree operations. */
  lemma InsertedSurvivors(db: Db, x: Node)
    requires Wf(db) && NodeKey(x) !in Keys(db.tree)
    ensures Wf(Db(Insert(db.tree, x), db.synclist))
    ensures forall m :: m in db.synclist ==>
      Survivor(Db(Insert(db.tree, x), db.synclist), m) == Survivor(db, m)
  {
    forall m | m in db.synclist
      ensures Survivor(Db(Insert(db.tree, x), db.synclist), m) == Survivor(db, m)
    {
      LookupInsert(db.tree, x, db.synclist[m]);
    }
  }

  /** The nodes of a settled state stay quiet once a node has been inserted beside them. */
  lemma InsertedQuiet(db: Db, x: Node) returns (p: nat)
    requires Settled(db) && NodeKey(x) !in Keys(db.tree)
    ensures p == InsertPos(db.tree, x) && p <= |db.tree| && Insert(db.tree, x)[p] == x
    ensures Wf(Db(Insert(db.tree, x), db.synclist))
    ensures forall j :: 0 <= j <= |db.tree| && j != p ==>
      QuietFor(Db(Insert(db.tree, x), db.synclist), Insert(db.tree, x)[j].lease)
  {
    var t, u := db.tree, Insert(db.tree, x);
    var d := Db(u, db.synclist);
    InsertedSurvivors(db, x);
    p := InsertAt(t, x);
    forall j | 0 <= j <= |t| && j != p ensures QuietFor(d, u[j].lease) {
      var k := if j < p then j else j - 1;
      assert u[j] == t[k];
      SettledQuiet(db, k);
    }
  }

  /** A device with no entry has no node in a settled state. */
  lemma UnknownDeviceAbsent(db: Db, l: Lease)
    requires MaxSurvivors(db) && l.hwaddr !in db.synclist
    ensures KeyOf(l) !in Keys(db.tree)
  {
    if KeyOf(l) in Keys(db.tree) {
      var i := KeysWitness(db.tree, KeyOf(l));
      assert false;
    }
  }

  /** Acquiring an absent (MAC, IP) inserts a fresh node and proceeds to the rebuild. */
  lemma MutateAbsent(db: Db, l: Lease)
    requires Wf(db) && KeyOf(l) !in Keys(db.tree)
    ensures Mutate(db, false, l) == Some(Outcome(Db(Insert(db.tree, Node(l, false, false)), db.synclist), []))
  {
  }

  /**
   * Acquiring a lease for a new device: the node is inserted, marked as
   * listed, becomes the device's entry, and is announced.
   */
  lemma AcquireNewDevice(db: Db, l: Lease)
    requires Settled(db) && l.hwaddr !in db.synclist
    ensures Event(db, false, l) ==
      Outcome(Db(Insert(db.tree, Node(l, true, false)), db.synclist[l.hwaddr := KeyOf(l)]), [Acquired(l)])
    ensures Settled(Event(db, false, l).db)
  {
    var y := Node(l, true, false);
    var sl := db.synclist[l.hwaddr := KeyOf(l)];
    UnknownDeviceAbsent(db, l);
    MutateAbsent(db, l);
    NewDeviceRebuild(db, l);
    var m := Outcome(Db(Insert(db.tree, Node(l, false, false)), db.synclist), []);
    EventUnfold(db, false, l, m, Outcome(Db(Insert(db.tree, y), sl), [Acquired(l)]));
    NoneThen([Acquired(l)]);
    NewDeviceSettled(db, l);
  }

  /** The rebuild after a new device's node is inserted: only that node's addition does anything. */
  lemma NewDeviceRebuild(db: Db, l: Lease)
    requires Settled(db) && l.hwaddr !in db.synclist && KeyOf(l) !in Keys(db.tree)
    ensures Wf(Db(Insert(db.tree, Node(l, false, false)), db.synclist))
    ensures Rebuild(Db(Insert(db.tree, Node(l, false, false)), db.synclist)) ==
      Outcome(Db(Insert(db.tree, Node(l, true, false)), db.synclist[l.hwaddr := KeyOf(l)]), [Acquired(l)])
  {
    var x := Node(l, false, false);
    var p := InsertedQuiet(db, x);
    NewDeviceStep(db, l, p);
    NewDeviceQuietAfter(db, l, p);
    RebuildOneStep(Db(Insert(db.tree, x), db.synclist), p);
  }

  /** The new device's addition: the node is marked, filed and announced. */
  lemma NewDeviceStep(db: Db, l: Lease, p: nat)
    requires Wf(db) && l.hwaddr !in db.synclist && KeyOf(l) !in Keys(db.tree)
    requires p == InsertPos(db.tree, Node(l, false, false))
    ensures Wf(Db(Insert(db.tree, Node(l, false, false)), db.synclist))
    ensures p < |Insert(db.tree, Node(l, false, false))|
    ensures Step(Db(Insert(db.tree, Node(l, false, false)), db.synclist), p) ==
      Outcome(Db(Insert(db.tree, Node(l, true, false)), db.synclist[l.hwaddr := KeyOf(l)]), [Acquired(l)])
  {
    var x, y := Node(l, false, false), Node(l, true, false);
    InsertedSurvivors(db, x);
    var _ := InsertAt(db.tree, x);
    InsertRelabel(db.tree, x, y);
  }

  /** After the new device's addition, the later nodes, all of other devices, are still quiet. */
  lemma NewDeviceQuietAfter(db: Db, l: Lease, p: nat)
    requires Settled(db) && l.hwaddr !in db.synclist && KeyOf(l) !in Keys(db.tree)
    requires p == InsertPos(db.tree, Node(l, false, false))
    requires forall j :: 0 <= j <= |db.tree| && j != p ==>
      QuietFor(Db(Insert(db.tree, Node(l, false, false)), db.synclist), Insert(db.tree, Node(l, false, false))[j].lease)
    requires Wf(Db(Insert(db.tree, Node(l, false, false)), db.synclist))
    ensures p < |Insert(db.tree, Node(l, false, false))|
    ensures forall j :: p < j < |Insert(db.tree, Node(l, false, false))| ==>
      QuietFor(Step(Db(Insert(db.tree, Node(l, false, false)), db.synclist), p).db,
               Insert(db.tree, Node(l, false, false))[j].lease)
  {
    var x := Node(l, false, false);
    var u := Insert(db.tree, x);
    var d := Db(u, db.synclist);
    var s := Step(d, p);
    var _ := InsertAt(db.tree, x);
    forall j | p < j < |u| ensures QuietFor(s.db, u[j].lease) {
      var m2 := u[j].lease.hwaddr;
      assert QuietFor(d, u[j].lease);
      assert m2 != l.hwaddr;
      LookupUpdateOther(u, p, s.db.tree[p], db.synclist[m2]);
    }
  }

  /** The state a new device's acquisition leaves is settled. */
  lemma NewDeviceSettled(db: Db, l: Lease)
    requires Settled(db) && l.hwaddr !in db.synclist && KeyOf(l) !in Keys(db.tree)
    requires MaxSurvivors(Db(Insert(db.tree, Node(l, true, false)), db.synclist[l.hwaddr := KeyOf(l)]))
    ensures Settled(Db(Insert(db.tree, Node(l, true, false)), db.synclist[l.hwaddr := KeyOf(l)]))
  {
    var y := Node(l, true, false);
    var sl := db.synclist[l.hwaddr := KeyOf(l)];
    var u := Insert(db.tree, y);
    var d := Db(u, sl);
    var p := InsertAt(db.tree, y);
    LookupAt(u, p);
    forall m | m in sl ensures !Survivor(d, m).updated {
      if m != l.hwaddr {
        LookupInsert(db.tree, y, db.synclist[m]);
      }
    }
  }

  /**
   * Acquiring a new address for a known device with a lease no longer than
   * its entry's: the node is inserted unmarked and nothing is announced.
   */
  lemma AcquireShorter(db: Db, l: Lease)
    requires Settled(db) && KeyOf(l) !in Keys(db.tree)
    requires l.hwaddr in db.synclist && l.leasetime <= Survivor(db, l.hwaddr).lease.leasetime
    ensures Event(db, false, l) == Outcome(Db(Insert(db.tree, Node(l, false, false)), db.synclist), [])
    ensures Settled(Event(db, false, l).db)
  {
    var x := Node(l, false, false);
    var d := Db(Insert(db.tree, x), db.synclist);
    var p := InsertedQuiet(db, x);
    InsertedSurvivors(db, x);
    assert QuietFor(d, Insert(db.tree, x)[p].lease);
    RebuildQuiet(d);
    MutateAbsent(db, l);
    EventUnfold(db, false, l, Outcome(d, []), Outcome(d, []));
    NoneThen([]);
  }

  /**
   * Acquiring a new address for a known device with a strictly longer
   * lease: the node takes the device's entry over silently. It is left
   * unmarked (dl_sync clear) although the entry now points at it.
   */
  lemma AcquireTakeover(db: Db, l: Lease)
    requires Settled(db) && KeyOf(l) !in Keys(db.tree)
    requires l.hwaddr in db.synclist && l.leasetime > Survivor(db, l.hwaddr).lease.leasetime
    ensures Event(db, false, l) ==
      Outcome(Db(Insert(db.tree, Node(l, false, false)), db.synclist[l.hwaddr := KeyOf(l)]), [])
    ensures Settled(Event(db, false, l).db)
    ensures Survivor(Event(db, false, l).db, l.hwaddr) == Node(l, false, false)
  {
    var x := Node(l, false, false);
    var d := Db(Insert(db.tree, x), db.synclist);
    var r := Db(Insert(db.tree, x), db.synclist[l.hwaddr := KeyOf(l)]);
    TakeoverRebuild(db, l);
    MutateAbsent(db, l);
    EventUnfold(db, false, l, Outcome(d, []), Outcome(r, []));
    NoneThen([]);
    TakeoverSettled(db, l);
  }

  /** The rebuild after a longer lease is inserted: only the inserted node's addition does anything. */
  lemma TakeoverRebuild(db: Db, l: Lease)
    requires Settled(db) && KeyOf(l) !in Keys(db.tree)
    requires l.hwaddr in db.synclist && l.leasetime > Survivor(db, l.hwaddr).lease.leasetime
    ensures Wf(Db(Insert(db.tree, Node(l, false, false)), db.synclist))
    ensures Rebuild(Db(Insert(db.tree, Node(l, false, false)), db.synclist)) ==
      Outcome(Db(Insert(db.tree, Node(l, false, false)), db.synclist[l.hwaddr := KeyOf(l)]), [])
  {
    var x := Node(l, false, false);
    var d := Db(Insert(db.tree, x), db.synclist);
    var p := InsertedQuiet(db, x);
    InsertedSurvivors(db, x);
    TakeoverStep(db, l, p);
    LongerEntryAfter(d, p);
    RebuildOneStep(d, p);
  }

  /** The longer lease's addition: the handler keeps the added node and says nothing. */
  lemma TakeoverStep(db: Db, l: Lease, p: nat)
    requires Wf(db) && KeyOf(l) !in Keys(db.tree)
    requires l.hwaddr in db.synclist && l.leasetime > Survivor(db, l.hwaddr).lease.leasetime
    requires p == InsertPos(db.tree, Node(l, false, false))
    ensures Wf(Db(Insert(db.tree, Node(l, false, false)), db.synclist))
    ensures p < |Insert(db.tree, Node(l, false, false))|
    ensures Step(Db(Insert(db.tree, Node(l, false, false)), db.synclist), p) ==
      Outcome(Db(Insert(db.tree, Node(l, false, false)), db.synclist[l.hwaddr := KeyOf(l)]), [])
  {
    var x := Node(l, false, false);
    var u := Insert(db.tree, x);
    var d := Db(u, db.synclist);
    InsertedSurvivors(db, x);
    var _ := InsertAt(db.tree, x);
    var o := IndexOf(u, db.synclist[l.hwaddr]);
    assert u[o] == Survivor(d, l.hwaddr);
    assert u[o := u[o]] == u;
  }

  /** After a takeover, the later nodes are still quiet: their device's entry only got longer. */
  lemma LongerEntryAfter(d: Db, p: nat)
    requires Wf(d) && p < |d.tree| && !d.tree[p].updated
    requires d.tree[p].lease.hwaddr in d.synclist
    requires d.tree[p].lease.leasetime > Survivor(d, d.tree[p].lease.hwaddr).lease.leasetime
    requires forall j :: p < j < |d.tree| ==> QuietFor(d, d.tree[j].lease)
    ensures Indexed(Db(d.tree, d.synclist[d.tree[p].lease.hwaddr := NodeKey(d.tree[p])]))
    ensures forall j :: p < j < |d.tree| ==>
      QuietFor(Db(d.tree, d.synclist[d.tree[p].lease.hwaddr := NodeKey(d.tree[p])]), d.tree[j].lease)
  {
    LongerEntryQuiet(d, p, p);
    forall j | p < j < |d.tree|
      ensures QuietFor(Db(d.tree, d.synclist[d.tree[p].lease.hwaddr := NodeKey(d.tree[p])]), d.tree[j].lease)
    {
      LongerEntryQuiet(d, p, j);
    }
  }

  /**
   * Filing a device under a longer node that is not pending keeps every
   * quiet node quiet.
   */
  lemma LongerEntryQuiet(d: Db, p: nat, j: nat)
    requires Wf(d) && p < |d.tree| && j < |d.tree| && !d.tree[p].updated
    requires d.tree[p].lease.hwaddr in d.synclist
    requires d.tree[p].lease.leasetime > Survivor(d, d.tree[p].lease.hwaddr).lease.leasetime
    requires j != p ==> QuietFor(d, d.tree[j].lease)
    ensures Indexed(Db(d.tree, d.synclist[d.tree[p].lease.hwaddr := NodeKey(d.tree[p])]))
    ensures j != p ==> QuietFor(Db(d.tree, d.synclist[d.tree[p].lease.hwaddr := NodeKey(d.tree[p])]), d.tree[j].lease)
  {
    LookupAt(d.tree, p);
  }

  /** The state a takeover leaves is settled, and the device's entry is the new, unmarked node. */
  lemma TakeoverSettled(db: Db, l: Lease)
    requires Settled(db) && KeyOf(l) !in Keys(db.tree) && l.hwaddr in db.synclist
    requires MaxSurvivors(Db(Insert(db.tree, Node(l, false, false)), db.synclist[l.hwaddr := KeyOf(l)]))
    ensures Settled(Db(Insert(db.tree, Node(l, false, false)), db.synclist[l.hwaddr := KeyOf(l)]))
    ensures Survivor(Db(Insert(db.tree, Node(l, false, false)), db.synclist[l.hwaddr := KeyOf(l)]), l.hwaddr) ==
      Node(l, false, false)
  {
    var x := Node(l, false, false);
    var sl := db.synclist[l.hwaddr := KeyOf(l)];
    var u := Insert(db.tree, x);
    var d := Db(u, sl);
    var p := InsertAt(db.tree, x);
    LookupAt(u, p);
    forall m | m in sl ensures !Survivor(d, m).updated {
      if m != l.hwaddr {
        LookupInsert(db.tree, x, db.synclist[m]);
      }
    }
  }

  /** Acquiring a present (MAC, IP) overwrites that node in place and proceeds to the rebuild. */
  lemma MutatePresent(db: Db, l: Lease, i: nat)
    requires Wf(db) && i < |db.tree| && NodeKey(db.tree[i]) == KeyOf(l)
    ensures Mutate(db, false, l) == Some(Outcome(Db(db.tree[i := Node(l, db.tree[i].sync, true)], db.synclist), []))
  {
    KeysAt(db.tree, i);
    var f := Find(db.tree, l).value;
    if f != i {
      SortedKeysUnique(db.tree, i, f);
    }
  }

  /** Overwriting node i in place leaves every entry on the same node, with the new content at node i. */
  lemma OverwriteSurvivors(db: Db, l: Lease, i: nat)
    requires Wf(db) && i < |db.tree| && NodeKey(db.tree[i]) == KeyOf(l)
    ensures Wf(Db(db.tree[i := Node(l, db.tree[i].sync, true)], db.synclist))
    ensures forall m :: m in db.synclist && db.synclist[m] != KeyOf(l) ==>
      Survivor(Db(db.tree[i := Node(l, db.tree[i].sync, true)], db.synclist), m) == Survivor(db, m)
    ensures Backs(db.tree[i], db.synclist) ==>
      Survivor(Db(db.tree[i := Node(l, db.tree[i].sync, true)], db.synclist), l.hwaddr) == Node(l, db.tree[i].sync, true)
  {
    var n := Node(l, db.tree[i].sync, true);
    OverwriteIndexed(db, i, l);
    forall m | m in db.synclist && db.synclist[m] != KeyOf(l)
      ensures Survivor(Db(db.tree[i := n], db.synclist), m) == Survivor(db, m)
    {
      LookupUpdateOther(db.tree, i, n, db.synclist[m]);
    }
    LookupUpdateSame(db.tree, i, n);
  }

  /**
   * Overwriting a node that is not its device's entry, with a lease no
   * longer than the entry's: nothing is announced, and the node keeps its
   * pending flag, unseen by the rebuild.
   */
  lemma OverwriteHidden(db: Db, l: Lease, i: nat)
    requires Settled(db) && i < |db.tree| && NodeKey(db.tree[i]) == KeyOf(l) && !Backs(db.tree[i], db.synclist)
    requires l.hwaddr in db.synclist && l.leasetime <= Survivor(db, l.hwaddr).lease.leasetime
    ensures Event(db, false, l) == Outcome(Db(db.tree[i := Node(l, db.tree[i].sync, true)], db.synclist), [])
    ensures Settled(Event(db, false, l).db)
  {
    var t := db.tree[i := Node(l, db.tree[i].sync, true)];
    var d := Db(t, db.synclist);
    OverwriteSurvivors(db, l, i);
    forall j | 0 <= j < |t| ensures QuietFor(d, t[j].lease) {
      if j != i {
        SettledQuiet(db, j);
      }
    }
    RebuildQuiet(d);
    MutatePresent(db, l, i);
    EventUnfold(db, false, l, Outcome(d, []), Outcome(d, []));
    NoneThen([]);
  }

  /**
   * Renewing the lease of the device's entry with one no shorter than any
   * other lease of the device (the same or a lower duration included): the
   * rebuild announces the new content once and clears the pending flag;
   * nothing else changes.
   */
  lemma Refresh(db: Db, l: Lease, i: nat)
    requires Settled(db) && i < |db.tree| && NodeKey(db.tree[i]) == KeyOf(l) && Backs(db.tree[i], db.synclist)
    requires LongestOfDevice(db.tree, i, l)
    ensures Event(db, false, l) == Outcome(Db(db.tree[i := Node(l, db.tree[i].sync, false)], db.synclist), [Acquired(l)])
    ensures Settled(Event(db, false, l).db)
  {
    var d := Db(db.tree[i := Node(l, db.tree[i].sync, true)], db.synclist);
    var r := Db(db.tree[i := Node(l, db.tree[i].sync, false)], db.synclist);
    RefreshRebuild(db, l, i);
    MutatePresent(db, l, i);
    NoneThen([Acquired(l)]);
    EventUnfold(db, false, l, Outcome(d, []), Outcome(r, [Acquired(l)]));
  }

  /** The rebuild after the entry's lease is renewed in place: one refresh, and the flag cleared. */
  lemma RefreshRebuild(db: Db, l: Lease, i: nat)
    requires Settled(db) && i < |db.tree| && NodeKey(db.tree[i]) == KeyOf(l) && Backs(db.tree[i], db.synclist)
    requires LongestOfDevice(db.tree, i, l)
    ensures Wf(Db(db.tree[i := Node(l, db.tree[i].sync, true)], db.synclist))
    ensures Rebuild(Db(db.tree[i := Node(l, db.tree[i].sync, true)], db.synclist)) ==
      Outcome(Db(db.tree[i := Node(l, db.tree[i].sync, false)], db.synclist), [Acquired(l)])
    ensures Settled(Db(db.tree[i := Node(l, db.tree[i].sync, false)], db.synclist))
  {
    RefreshRebuildState(db, l, i);
    RefreshRebuildNotes(db, l, i);
  }

  /** The state the rebuild after a renewal leaves: the renewed node's flag cleared, nothing else changed. */
  lemma RefreshRebuildState(db: Db, l: Lease, i: nat)
    requires Settled(db) && i < |db.tree| && NodeKey(db.tree[i]) == KeyOf(l) && Backs(db.tree[i], db.synclist)
    requires LongestOfDevice(db.tree, i, l)
    ensures Wf(Db(db.tree[i := Node(l, db.tree[i].sync, true)], db.synclist))
    ensures Rebuild(Db(db.tree[i := Node(l, db.tree[i].sync, true)], db.synclist)).db ==
      Db(db.tree[i := Node(l, db.tree[i].sync, false)], db.synclist)
    ensures Settled(Db(db.tree[i := Node(l, db.tree[i].sync, false)], db.synclist))
  {
    var d := Db(db.tree[i := Node(l, db.tree[i].sync, true)], db.synclist);
    RefreshMax(db, l, i);
    RefreshTree(db, l, i);
    SettlingPassState(d);
  }

  /** The decisions of the rebuild after a renewal: the renewed lease, once. */
  lemma RefreshRebuildNotes(db: Db, l: Lease, i: nat)
    requires Settled(db) && i < |db.tree| && NodeKey(db.tree[i]) == KeyOf(l) && Backs(db.tree[i], db.synclist)
    requires LongestOfDevice(db.tree, i, l)
    ensures Wf(Db(db.tree[i := Node(l, db.tree[i].sync, true)], db.synclist))
    ensures Rebuild(Db(db.tree[i := Node(l, db.tree[i].sync, true)], db.synclist)).notes == [Acquired(l)]
  {
    var d := Db(db.tree[i := Node(l, db.tree[i].sync, true)], db.synclist);
    RefreshMax(db, l, i);
    RefreshPending(db, l, i);
    SettlingPassNotes(d);
    RefreshNotes(d, l, Rebuild(d).notes);
  }

  /** The renewed node is its device's entry, and every other entry stays where it was. */
  lemma RefreshSurvivors(db: Db, l: Lease, i: nat)
    requires Wf(db) && i < |db.tree| && NodeKey(db.tree[i]) == KeyOf(l) && Backs(db.tree[i], db.synclist)
    ensures Wf(Db(db.tree[i := Node(l, db.tree[i].sync, true)], db.synclist))
    ensures Survivor(db, l.hwaddr) == db.tree[i]
    ensures Survivor(Db(db.tree[i := Node(l, db.tree[i].sync, true)], db.synclist), l.hwaddr) == Node(l, db.tree[i].sync, true)
    ensures forall m :: m in db.synclist && m != l.hwaddr ==>
      Survivor(Db(db.tree[i := Node(l, db.tree[i].sync, true)], db.synclist), m) == Survivor(db, m)
  {
    OverwriteSurvivors(db, l, i);
    LookupAt(db.tree, i);
  }

  /** No other node of the lease's device, beside node i, holds a longer lease. */
  ghost predicate LongestOfDevice(t: seq<Node>, i: nat, l: Lease)
  {
    forall j :: 0 <= j < |t| && j != i && t[j].lease.hwaddr == l.hwaddr ==> t[j].lease.leasetime <= l.leasetime
  }

  /** After the entry's lease is renewed in place, every entry is still on a longest lease. */
  lemma RefreshMax(db: Db, l: Lease, i: nat)
    requires Settled(db) && i < |db.tree| && NodeKey(db.tree[i]) == KeyOf(l) && Backs(db.tree[i], db.synclist)
    requires LongestOfDevice(db.tree, i, l)
    ensures MaxSurvivors(Db(db.tree[i := Node(l, db.tree[i].sync, true)], db.synclist))
  {
    var t := db.tree[i := Node(l, db.tree[i].sync, true)];
    var d := Db(t, db.synclist);
    RefreshSurvivors(db, l, i);
    forall j | 0 <= j < |t|
      ensures t[j].lease.hwaddr in d.synclist
      ensures t[j].lease.leasetime <= Survivor(d, t[j].lease.hwaddr).lease.leasetime
    {
      if j != i {
        SettledQuiet(db, j);
        assert t[j] == db.tree[j];
      }
    }
  }

  /** After the entry's lease is renewed in place, its device is the only one pending. */
  lemma RefreshPending(db: Db, l: Lease, i: nat)
    requires Settled(db) && i < |db.tree| && NodeKey(db.tree[i]) == KeyOf(l) && Backs(db.tree[i], db.synclist)
    ensures Wf(Db(db.tree[i := Node(l, db.tree[i].sync, true)], db.synclist))
    ensures Pending(Db(db.tree[i := Node(l, db.tree[i].sync, true)], db.synclist), l.hwaddr)
    ensures Survivor(Db(db.tree[i := Node(l, db.tree[i].sync, true)], db.synclist), l.hwaddr).lease == l
    ensures forall m :: m in db.synclist && m != l.hwaddr ==>
      !Pending(Db(db.tree[i := Node(l, db.tree[i].sync, true)], db.synclist), m)
  {
    RefreshSurvivors(db, l, i);
  }

  /** The tree a refresh leaves: the renewed node with its pending flag cleared, the rest as before. */
  lemma RefreshTree(db: Db, l: Lease, i: nat)
    requires Settled(db) && i < |db.tree| && NodeKey(db.tree[i]) == KeyOf(l) && Backs(db.tree[i], db.synclist)
    requires MaxSurvivors(Db(db.tree[i := Node(l, db.tree[i].sync, true)], db.synclist))
    ensures Rebuild(Db(db.tree[i := Node(l, db.tree[i].sync, true)], db.synclist)).db.tree ==
      db.tree[i := Node(l, db.tree[i].sync, false)]
  {
    var d := Db(db.tree[i := Node(l, db.tree[i].sync, true)], db.synclist);
    SettlingPassState(d);
    RefreshCleared(db, l, i, d, Rebuild(d).db.tree);
  }

  /** A tree whose every entry has had its flag cleared after the renewal is the renewed tree, cleared. */
  lemma RefreshCleared(db: Db, l: Lease, i: nat, d: Db, u: seq<Node>)
    requires Settled(db) && i < |db.tree| && NodeKey(db.tree[i]) == KeyOf(l) && Backs(db.tree[i], db.synclist)
    requires d == Db(db.tree[i := Node(l, db.tree[i].sync, true)], db.synclist)
    requires |u| == |d.tree|
    requires forall j :: 0 <= j < |d.tree| ==>
      u[j] == if Backs(d.tree[j], d.synclist) then d.tree[j].(updated := false) else d.tree[j]
    ensures u == db.tree[i := Node(l, db.tree[i].sync, false)]
  {
    forall j | 0 <= j < |db.tree| ensures u[j] == db.tree[i := Node(l, db.tree[i].sync, false)][j] {
      RefreshNode(db, l, i, j);
    }
  }

  /** Clearing the flag of every entry after a renewal clears the renewed node's and changes no other. */
  lemma RefreshNode(db: Db, l: Lease, i: nat, j: nat)
    requires Settled(db) && i < |db.tree| && NodeKey(db.tree[i]) == KeyOf(l) && Backs(db.tree[i], db.synclist)
    requires j < |db.tree|
    ensures (var n := db.tree[i := Node(l, db.tree[i].sync, true)][j];
             if Backs(n, db.synclist) then n.(updated := false) else n) ==
      db.tree[i := Node(l, db.tree[i].sync, false)][j]
  {
    if j != i && Backs(db.tree[j], db.synclist) {
      LookupAt(db.tree, j);
      assert Survivor(db, db.tree[j].lease.hwaddr) == db.tree[j];
    }
  }

  /** The decisions of a pass in which exactly one device is pending: one refresh of its entry. */
  lemma RefreshNotes(d: Db, l: Lease, ns: seq<Note>)
    requires MaxSurvivors(d) && Pending(d, l.hwaddr) && Survivor(d, l.hwaddr).lease == l
    requires forall m :: m in d.synclist && m != l.hwaddr ==> !Pending(d, m)
    requires forall k :: 0 <= k < |ns| ==>
      Pending(d, ns[k].lease.hwaddr) && ns[k] == Acquired(Survivor(d, ns[k].lease.hwaddr).lease)
    requires forall k1, k2 :: 0 <= k1 < k2 < |ns| ==> ns[k1].lease.hwaddr != ns[k2].lease.hwaddr
    requires forall m :: Pending(d, m) ==> exists k :: 0 <= k < |ns| && ns[k].lease.hwaddr == m
    ensures ns == [Acquired(l)]
  {
    assert |ns| > 0 ==> ns[0].lease.hwaddr == l.hwaddr && ns[|ns| - 1].lease.hwaddr == l.hwaddr;
  }

  /** Releasing a present (MAC, IP) goes through the release and on to the rebuild. */
  lemma MutateReleased(db: Db, l: Lease, i: nat)
    requires Wf(db) && i < |db.tree| && NodeKey(db.tree[i]) == KeyOf(l)
    ensures Mutate(db, true, l) == Some(Release(db, i))
  {
    KeysAt(db.tree, i);
    var f := Find(db.tree, l).value;
    if f != i {
      SortedKeysUnique(db.tree, i, f);
    }
  }

  /**
   * Removing node i from a settled state under a synclist that keeps the
   * other entries, none of them on node i, leaves a settled state whose
   * rebuild changes nothing.
   */
  lemma RemovedQuiet(db: Db, i: nat, sl: map<Mac, Key>)
    requires Settled(db) && i < |db.tree|
    requires forall m :: m in sl ==> m in db.synclist && sl[m] == db.synclist[m] && sl[m] != NodeKey(db.tree[i])
    requires forall j :: 0 <= j < |db.tree| && j != i ==> db.tree[j].lease.hwaddr in sl
    ensures Settled(Db(RemoveAt(db.tree, i), sl))
    ensures Rebuild(Db(RemoveAt(db.tree, i), sl)) == Outcome(Db(RemoveAt(db.tree, i), sl), [])
  {
    var u := RemoveAt(db.tree, i);
    var d := Db(u, sl);
    forall m | m in sl ensures sl[m] in Keys(u) && Survivor(d, m) == Survivor(db, m) {
      LookupRemove(db.tree, i, sl[m]);
    }
    RemovedAt(db.tree, i);
    forall j | 0 <= j < |u| ensures QuietFor(d, u[j].lease) {
      var k := if j < i then j else j + 1;
      assert u[j] == db.tree[k];
      SettledQuiet(db, k);
    }
    RebuildQuiet(d);
  }

  /**
   * Releasing a node that is neither marked nor its device's entry: it
   * leaves the tree and nothing else happens.
   */
  lemma ReleaseHidden(db: Db, l: Lease, i: nat)
    requires Settled(db) && i < |db.tree| && NodeKey(db.tree[i]) == KeyOf(l) && !Delists(db.tree[i], db.synclist)
    ensures Event(db, true, l) == Outcome(Db(RemoveAt(db.tree, i), db.synclist), [])
    ensures Settled(Event(db, true, l).db)
  {
    var d := Db(RemoveAt(db.tree, i), db.synclist);
    forall j | 0 <= j < |db.tree| && j != i ensures db.tree[j].lease.hwaddr in db.synclist {
      SettledQuiet(db, j);
    }
    RemovedQuiet(db, i, db.synclist);
    MutateReleased(db, l, i);
    EventUnfold(db, true, l, Outcome(d, []), Outcome(d, []));
    NoneThen([]);
  }

  /**
   * Releasing the only node of a device: the device leaves the synclist,
   * its lease is released, and nothing else happens.
   */
  lemma ReleaseLast(db: Db, l: Lease, i: nat)
    requires Settled(db) && i < |db.tree| && NodeKey(db.tree[i]) == KeyOf(l)
    requires forall j :: 0 <= j < |db.tree| && j != i ==> db.tree[j].lease.hwaddr != l.hwaddr
    ensures Event(db, true, l) ==
      Outcome(Db(RemoveAt(db.tree, i), db.synclist - {l.hwaddr}), [Released(db.tree[i].lease)])
    ensures Settled(Event(db, true, l).db)
  {
    var sl := db.synclist - {l.hwaddr};
    var d := Db(RemoveAt(db.tree, i), sl);
    OnlyNodeBacks(db, l, i);
    forall j | 0 <= j < |db.tree| && j != i ensures db.tree[j].lease.hwaddr in sl {
      SettledQuiet(db, j);
    }
    RemovedQuiet(db, i, sl);
    MutateReleased(db, l, i);
    EventUnfold(db, true, l, Outcome(d, [Released(db.tree[i].lease)]), Outcome(d, []));
    assert [Released(db.tree[i].lease)] + [] == [Released(db.tree[i].lease)];
  }

  /**
   * Acquiring a lease for a new device and then releasing it gives back both
   * indexes as they were: the lease is announced as acquired, then as released.
   */
  lemma AcquireReleaseRoundTrip(db: Db, l: Lease)
    requires Settled(db) && l.hwaddr !in db.synclist
    ensures Event(db, false, l).notes == [Acquired(l)]
    ensures Settled(Event(db, false, l).db)
    ensures Event(Event(db, false, l).db, true, l) == Outcome(db, [Released(l)])
  {
    AcquireNewDevice(db, l);
    var p := NewDeviceAlone(db, l);
    var d := Db(Insert(db.tree, Node(l, true, false)), db.synclist[l.hwaddr := KeyOf(l)]);
    ReleaseLast(d, l, p);
    RemoveInserted(db.tree, Node(l, true, false));
    UnfileAbsent(db.synclist, l.hwaddr, KeyOf(l));
  }

  /** A new device's node, once inserted, is the only node of its device. */
  lemma NewDeviceAlone(db: Db, l: Lease) returns (p: nat)
    requires Settled(db) && l.hwaddr !in db.synclist
    ensures KeyOf(l) !in Keys(db.tree)
    ensures p < |Insert(db.tree, Node(l, true, false))| && Insert(db.tree, Node(l, true, false))[p] == Node(l, true, false)
    ensures NodeKey(Insert(db.tree, Node(l, true, false))[p]) == KeyOf(l)
    ensures forall j :: 0 <= j < |Insert(db.tree, Node(l, true, false))| && j != p ==>
      Insert(db.tree, Node(l, true, false))[j].lease.hwaddr != l.hwaddr
  {
    UnknownDeviceAbsent(db, l);
    var y := Node(l, true, false);
    p := InsertAt(db.tree, y);
    var u := Insert(db.tree, y);
    forall j | 0 <= j < |u| && j != p ensures u[j].lease.hwaddr != l.hwaddr {
      var k := if j < p then j else j - 1;
      assert u[j] == db.tree[k];
      SettledQuiet(db, k);
    }
  }

  /** Filing a device that had no entry and dropping it again leaves the synclist as it was. */
  lemma UnfileAbsent(sl: map<Mac, Key>, m: Mac, k: Key)
    requires m !in sl
    ensures sl[m := k] - {m} == sl
  {
  }

  /** In a settled state a device's only node is its entry. */
  lemma OnlyNodeBacks(db: Db, l: Lease, i: nat)
    requires Settled(db) && i < |db.tree| && NodeKey(db.tree[i]) == KeyOf(l)
    requires forall j :: 0 <= j < |db.tree| && j != i ==> db.tree[j].lease.hwaddr != l.hwaddr
    ensures Backs(db.tree[i], db.synclist)
  {
    SettledQuiet(db, i);
    var o := SurvivorAt(db, l.hwaddr);
  }
}
