/**
 * The coalescing reconciler: the synclist handler osn_dhcp_server_lease_sync,
 * the full rebuild of the MAC-keyed synclist from the tree, and the per-event
 * entry point nm2_dhcp_lease_notify.
 *
 * The synclist library is not part of this model. Its behaviour is taken to
 * be: synclist_begin starts a pass; each synclist_add pairs the MAC's current
 * entry (or none) with the added node and keeps what the handler returns, so
 * a MAC's nodes are folded left in traversal order; synclist_end hands every
 * entry that was not revisited to the handler as (entry, NULL); synclist_del
 * hands the deleted node to the handler as (node, NULL) and drops the MAC's
 * entry.
 */
module Reconcile {
  import opened Wrappers
  import opened Addresses
  import opened Leases
  import opened LeaseTree

  /** A decision passed on to the persistence bridge. */
  datatype Note = Acquired(lease: Lease) | Released(lease: Lease)

  /** Which node the handler returns: the old entry, the added node, or none. */
  datatype Keep = KeepOld | KeepNew | KeepNone

  /** The handler's verdict and the two nodes with their flags as it left them. */
  datatype SyncResult = SyncResult(keep: Keep, prev: Option<Node>, cand: Option<Node>, note: Option<Note>)

  function NoteList(n: Option<Note>): seq<Note>
  {
    if n.Some? then [n.value] else []
  }

  /**
   * osn_dhcp_server_lease_sync: prev is the MAC's current synclist entry,
   * cand the node being added (NULL from synclist_del and synclist_end).
   */
  function Sync(prev: Option<Node>, cand: Option<Node>): (r: SyncResult)
    requires prev.Some? || cand.Some?
    // only flags change, and the verdict drops the entry exactly when no node is added
    ensures r.prev.Some? == prev.Some? && r.cand.Some? == cand.Some?
    ensures r.prev.Some? ==> r.prev.value.lease == prev.value.lease
    ensures r.cand.Some? ==> r.cand.value.lease == cand.value.lease
    ensures r.keep == KeepNone <==> cand.None?
    ensures r.note.Some? ==> (r.note.value.Released? <==> cand.None?)
    // a new device: the added node is marked as listed and announced
    ensures prev.None? ==>
      r.keep == KeepNew && r.cand.value.sync && r.cand.value.updated == cand.value.updated &&
      r.note == Some(Acquired(cand.value.lease))
    // a vanished device: the old entry is unmarked and its old lease released
    ensures prev.Some? && cand.None? ==>
      !r.prev.value.sync && r.prev.value.updated == prev.value.updated &&
      r.note == Some(Released(prev.value.lease))
    // a merge never touches the added node; a strictly longer lease takes over silently
    ensures prev.Some? && cand.Some? ==>
      r.cand == cand && (r.keep == KeepNew <==> cand.value.lease.leasetime > prev.value.lease.leasetime)
    ensures prev.Some? && cand.Some? && r.keep == KeepNew ==> r.prev == prev && r.note.None?
    // otherwise the entry stays, and a pending update is announced once and cleared
    ensures prev.Some? && cand.Some? && r.keep == KeepOld ==>
      !r.prev.value.updated && r.prev.value.sync == prev.value.sync &&
      (r.note.Some? <==> prev.value.updated) &&
      (r.note.Some? ==> r.note.value == Acquired(prev.value.lease))
  {
    if prev.None? then
      var n := cand.value.(sync := true);
      SyncResult(KeepNew, None, Some(n), Some(Acquired(n.lease)))
    else if cand.None? then
      var o := prev.value.(sync := false);
      SyncResult(KeepNone, Some(o), None, Some(Released(o.lease)))
    else if cand.value.lease.leasetime > prev.value.lease.leasetime then
      SyncResult(KeepNew, prev, cand, None)
    else if prev.value.updated then
      var o := prev.value.(updated := false);
      SyncResult(KeepOld, Some(o), cand, Some(Acquired(o.lease)))
    else
      SyncResult(KeepOld, prev, cand, None)
  }

  /** The engine's state: dhcp_lease_list and dhcp_lease_synclist (node pointers held as keys). */
  datatype Db = Db(tree: seq<Node>, synclist: map<Mac, Key>)

  /** A state and the decisions emitted in reaching it. */
  datatype Outcome = Outcome(db: Db, notes: seq<Note>)

  /** Every synclist entry is filed under its own node's MAC. */
  ghost predicate Linked(sl: map<Mac, Key>)
  {
    forall m :: m in sl ==> sl[m].mac == m
  }

  /** Every synclist entry points at a node that is still in the tree. */
  ghost predicate Backed(t: seq<Node>, sl: map<Mac, Key>)
  {
    forall m :: m in sl ==> sl[m] in Keys(t)
  }

  /** What a rebuild needs: a synclist of live pointers, each filed under its node's MAC. */
  ghost predicate Indexed(db: Db)
  {
    Linked(db.synclist) && Backed(db.tree, db.synclist)
  }

  /** What the tree operations need besides: the tree in comparator order. */
  ghost predicate Wf(db: Db)
  {
    Sorted(db.tree) && Indexed(db)
  }

  /** The node a device's synclist entry points at. */
  function Survivor(db: Db, m: Mac): (n: Node)
    requires Indexed(db) && m in db.synclist
    ensures n.lease.hwaddr == m
  {
    Lookup(db.tree, db.synclist[m])
  }

  /** The devices among the first n nodes of the traversal. */
  ghost function PrefixMacs(t: seq<Node>, n: nat): set<Mac>
    requires n <= |t|
  {
    set j | 0 <= j < n :: t[j].lease.hwaddr
  }

  /**
   * The state between two events: every device in the tree has an entry,
   * and it points at one of the device's nodes with the longest lease.
   */
  ghost predicate MaxSurvivors(db: Db)
  {
    Wf(db) &&
    forall j :: 0 <= j < |db.tree| ==>
      db.tree[j].lease.hwaddr in db.synclist &&
      db.tree[j].lease.leasetime <= Survivor(db, db.tree[j].lease.hwaddr).lease.leasetime
  }

  /** ... and no entry has an update pending: nothing is left for a rebuild to do. */
  ghost predicate Settled(db: Db)
  {
    MaxSurvivors(db) && forall m :: m in db.synclist ==> !Survivor(db, m).updated
  }

  /** One synclist_add during a rebuild: the node at position i meets its MAC's entry. */
  function Step(db: Db, i: nat): (r: Outcome)
    requires Indexed(db) && i < |db.tree|
    ensures Indexed(r.db) && SameLeases(db.tree, r.db.tree)
    ensures r.db.synclist.Keys == db.synclist.Keys + {db.tree[i].lease.hwaddr}
    ensures forall m :: m in db.synclist && m != db.tree[i].lease.hwaddr ==>
      r.db.synclist[m] == db.synclist[m]
    ensures |r.notes| <= 1 && forall k :: 0 <= k < |r.notes| ==> r.notes[k].Acquired?
  {
    var c := db.tree[i];
    var m := c.lease.hwaddr;
    KeysAt(db.tree, i);
    if m !in db.synclist then
      var s := Sync(None, Some(c));
      var t := db.tree[i := s.cand.value];
      StepIndexed(db, i, t, NodeKey(c));
      Outcome(Db(t, db.synclist[m := NodeKey(c)]), NoteList(s.note))
    else
      var o := IndexOf(db.tree, db.synclist[m]);
      var s := Sync(Some(db.tree[o]), Some(c));
      var t := db.tree[o := s.prev.value];
      var k := if s.keep == KeepNew then NodeKey(c) else db.synclist[m];
      StepIndexed(db, i, t, k);
      Outcome(Db(t, db.synclist[m := k]), NoteList(s.note))
  }

  /** A step that changes flags only and files the MAC under a live key of its own keeps the state indexed. */
  lemma StepIndexed(db: Db, i: nat, t: seq<Node>, k: Key)
    requires Indexed(db) && i < |db.tree| && SameLeases(db.tree, t)
    requires k.mac == db.tree[i].lease.hwaddr && k in Keys(db.tree)
    ensures Indexed(Db(t, db.synclist[db.tree[i].lease.hwaddr := k]))
  {
    SameLeasesKeep(db.tree, t);
  }

  /**
   * During a step no device's entry moves to a shorter lease, and the added
   * node's device ends up on a lease at least as long as the added node's.
   */
  lemma StepSurvivorTimes(db: Db, i: nat)
    requires Indexed(db) && Sorted(db.tree) && i < |db.tree|
    ensures forall m :: m in db.synclist ==>
      Survivor(db, m).lease.leasetime <= Survivor(Step(db, i).db, m).lease.leasetime
    ensures db.tree[i].lease.leasetime <= Survivor(Step(db, i).db, db.tree[i].lease.hwaddr).lease.leasetime
  {
    var r := Step(db, i);
    var t, u := db.tree, r.db.tree;
    LookupAt(u, i);
    forall m | m in db.synclist
      ensures Survivor(db, m).lease.leasetime <= Survivor(r.db, m).lease.leasetime
    {
      IndexOfSameLeases(t, u, db.synclist[m]);
    }
    var m := t[i].lease.hwaddr;
    if m in db.synclist {
      IndexOfSameLeases(t, u, db.synclist[m]);
    }
  }

  /**
   * The additions from position i to the end of the traversal, applied to
   * the state and decisions reached so far (the ds_tree_foreach loop).
   */
  function Traverse(o: Outcome, i: nat): (r: Outcome)
    requires Indexed(o.db) && i <= |o.db.tree|
    ensures Indexed(r.db) && SameLeases(o.db.tree, r.db.tree)
    ensures o.db.synclist.Keys <= r.db.synclist.Keys
    ensures forall j :: i <= j < |o.db.tree| ==> o.db.tree[j].lease.hwaddr in r.db.synclist
    ensures |o.notes| <= |r.notes| <= |o.notes| + |o.db.tree| - i
    ensures r.notes[..|o.notes|] == o.notes
    ensures forall k :: |o.notes| <= k < |r.notes| ==> r.notes[k].Acquired?
    decreases |o.db.tree| - i
  {
    if i == |o.db.tree| then o
    else
      var s := Step(o.db, i);
      var r := Traverse(Outcome(s.db, o.notes + s.notes), i + 1);
      TraverseFacts(o, i, s, r);
      r
  }

  /** The contract of Traverse, one addition at a time. */
  lemma TraverseFacts(o: Outcome, i: nat, s: Outcome, r: Outcome)
    requires Indexed(o.db) && i < |o.db.tree| && s == Step(o.db, i)
    requires SameLeases(s.db.tree, r.db.tree) && s.db.synclist.Keys <= r.db.synclist.Keys
    requires forall j :: i + 1 <= j < |s.db.tree| ==> s.db.tree[j].lease.hwaddr in r.db.synclist
    requires |o.notes + s.notes| <= |r.notes| <= |o.notes + s.notes| + |s.db.tree| - (i + 1)
    requires r.notes[..|o.notes + s.notes|] == o.notes + s.notes
    requires forall k :: |o.notes + s.notes| <= k < |r.notes| ==> r.notes[k].Acquired?
    ensures SameLeases(o.db.tree, r.db.tree)
    ensures o.db.synclist.Keys <= r.db.synclist.Keys
    ensures forall j :: i <= j < |o.db.tree| ==> o.db.tree[j].lease.hwaddr in r.db.synclist
    ensures |o.notes| <= |r.notes| <= |o.notes| + |o.db.tree| - i
    ensures r.notes[..|o.notes|] == o.notes
    ensures forall k :: |o.notes| <= k < |r.notes| ==> r.notes[k].Acquired?
  {
    var t := o.db.tree;
    forall j | i <= j < |t| ensures t[j].lease.hwaddr in r.db.synclist {
      assert t[j].lease == s.db.tree[j].lease;
    }
    assert r.notes[..|o.notes|] == (o.notes + s.notes)[..|o.notes|];
    forall k | |o.notes| <= k < |r.notes| ensures r.notes[k].Acquired? {
      if k < |o.notes + s.notes| {
        assert r.notes[k] == (o.notes + s.notes)[k] == s.notes[k - |o.notes|];
      }
    }
  }

  /**
   * synclist_begin, one synclist_add per node in traversal order, synclist_end:
   * afterwards every device has an entry pointing at one of its longest
   * leases, and every decision of the pass is an acquisition.
   */
  function Rebuild(db: Db): (r: Outcome)
    requires Wf(db)
    ensures MaxSurvivors(r.db) && SameLeases(db.tree, r.db.tree)
    ensures |r.notes| <= |db.tree| && forall k :: 0 <= k < |r.notes| ==> r.notes[k].Acquired?
  {
    var o := Outcome(db, []);
    TraverseMax(db.tree, o, 0);
    SameLeasesKeep(db.tree, Traverse(o, 0).db.tree);
    RebuildMax(db, Traverse(o, 0).db);
    Traverse(o, 0)
  }

  /**
   * If every node before position i is filed under a lease at least as long
   * as its own, the rest of the traversal makes that true of every node.
   * The nodes are read from t, the tree the rebuild started from.
   */
  lemma {:induction false} TraverseMax(t: seq<Node>, o: Outcome, i: nat)
    requires Indexed(o.db) && Sorted(o.db.tree) && SameLeases(t, o.db.tree) && i <= |t|
    requires forall j :: 0 <= j < i ==>
      t[j].lease.hwaddr in o.db.synclist &&
      t[j].lease.leasetime <= Survivor(o.db, t[j].lease.hwaddr).lease.leasetime
    ensures forall j :: 0 <= j < |t| ==>
      t[j].lease.hwaddr in Traverse(o, i).db.synclist &&
      t[j].lease.leasetime <= Survivor(Traverse(o, i).db, t[j].lease.hwaddr).lease.leasetime
    decreases |t| - i
  {
    if i < |t| {
      var s := Step(o.db, i);
      StepMax(t, o.db, i + 1);
      SameLeasesKeep(o.db.tree, s.db.tree);
      TraverseMax(t, Outcome(s.db, o.notes + s.notes), i + 1);
    }
  }

  /** One more addition extends the survivor bound from the first n - 1 nodes to the first n. */
  lemma StepMax(t: seq<Node>, p: Db, n: nat)
    requires Indexed(p) && Sorted(p.tree) && SameLeases(t, p.tree) && 0 < n <= |t|
    requires forall j :: 0 <= j < n - 1 ==>
      t[j].lease.hwaddr in p.synclist &&
      t[j].lease.leasetime <= Survivor(p, t[j].lease.hwaddr).lease.leasetime
    ensures forall j :: 0 <= j < n ==>
      t[j].lease.hwaddr in Step(p, n - 1).db.synclist &&
      t[j].lease.leasetime <= Survivor(Step(p, n - 1).db, t[j].lease.hwaddr).lease.leasetime
  {
    StepSurvivorTimes(p, n - 1);
    assert t[n - 1].lease == p.tree[n - 1].lease;
    MaxExtend(t, p, Step(p, n - 1).db, n);
  }

  /** The survivor bound carries over to a state whose survivors are no shorter and covers one more node. */
  lemma MaxExtend(t: seq<Node>, p: Db, s: Db, n: nat)
    requires Indexed(p) && Indexed(s) && 0 < n <= |t|
    requires forall j :: 0 <= j < n - 1 ==>
      t[j].lease.hwaddr in p.synclist &&
      t[j].lease.leasetime <= Survivor(p, t[j].lease.hwaddr).lease.leasetime
    requires p.synclist.Keys <= s.synclist.Keys
    requires forall m :: m in p.synclist ==>
      Survivor(p, m).lease.leasetime <= Survivor(s, m).lease.leasetime
    requires t[n - 1].lease.hwaddr in s.synclist
    requires t[n - 1].lease.leasetime <= Survivor(s, t[n - 1].lease.hwaddr).lease.leasetime
    ensures forall j :: 0 <= j < n ==>
      t[j].lease.hwaddr in s.synclist &&
      t[j].lease.leasetime <= Survivor(s, t[j].lease.hwaddr).lease.leasetime
  {
  }

  /** A pass's survivor bound, read back over the rebuilt tree. */
  lemma RebuildMax(db: Db, r: Db)
    requires Wf(db) && Indexed(r) && Sorted(r.tree) && SameLeases(db.tree, r.tree)
    requires forall j :: 0 <= j < |db.tree| ==>
      db.tree[j].lease.hwaddr in r.synclist &&
      db.tree[j].lease.leasetime <= Survivor(r, db.tree[j].lease.hwaddr).lease.leasetime
    ensures MaxSurvivors(r)
  {
    forall j | 0 <= j < |r.tree|
      ensures r.tree[j].lease.hwaddr in r.synclist
      ensures r.tree[j].lease.leasetime <= Survivor(r, r.tree[j].lease.hwaddr).lease.leasetime
    {
      assert r.tree[j].lease == db.tree[j].lease;
    }
  }

  /**
   * synclist_end has nothing to release: in a state fit for a rebuild, every
   * entry's device is met again during the traversal.
   */
  lemma EndSweepIdle(db: Db)
    requires Indexed(db)
    ensures db.synclist.Keys <= PrefixMacs(db.tree, |db.tree|)
  {
    forall m | m in db.synclist ensures m in PrefixMacs(db.tree, |db.tree|) {
      var i := KeysWitness(db.tree, db.synclist[m]);
    }
  }

  /** The node is what its device's synclist entry points at. */
  predicate Backs(n: Node, sl: map<Mac, Key>)
  {
    n.lease.hwaddr in sl && sl[n.lease.hwaddr] == NodeKey(n)
  }

  /**
   * Lines 189-197 for the node at position i: take it out of the tree and,
   * when delist holds, hand it to the handler through synclist_del.
   */
  function Unlink(db: Db, i: nat, delist: bool): (r: Outcome)
    requires Wf(db) && i < |db.tree|
    ensures r.db.tree == RemoveAt(db.tree, i)
    ensures Sorted(r.db.tree) && Linked(r.db.synclist)
    ensures delist ==>
      r.db.synclist == db.synclist - {db.tree[i].lease.hwaddr} && r.notes == [Released(db.tree[i].lease)]
    ensures !delist ==> r.db.synclist == db.synclist && r.notes == []
    ensures Backed(r.db.tree, r.db.synclist) <==> delist || !Backs(db.tree[i], db.synclist)
  {
    var node := db.tree[i];
    var t := RemoveAt(db.tree, i);
    var sl := if delist then db.synclist - {node.lease.hwaddr} else db.synclist;
    var notes := if delist then NoteList(Sync(Some(node), None).note) else [];
    UnlinkBacked(db, i, delist, sl);
    Outcome(Db(t, sl), notes)
  }

  /** After taking node i out, the synclist points only at live nodes unless it still points at node i. */
  lemma UnlinkBacked(db: Db, i: nat, delist: bool, sl: map<Mac, Key>)
    requires Wf(db) && i < |db.tree|
    requires sl == if delist then db.synclist - {db.tree[i].lease.hwaddr} else db.synclist
    ensures Linked(sl)
    ensures Backed(RemoveAt(db.tree, i), sl) <==> delist || !Backs(db.tree[i], db.synclist)
  {
    var node, t := db.tree[i], RemoveAt(db.tree, i);
    if delist || !Backs(node, db.synclist) {
      forall m | m in sl ensures sl[m] in Keys(t) {
        assert sl[m] != NodeKey(node);
      }
    } else {
      assert node.lease.hwaddr in sl && sl[node.lease.hwaddr] !in Keys(t);
    }
  }

  /** The release as written: synclist_del runs only when dl_sync is set. */
  function ReleaseAsWritten(db: Db, i: nat): (r: Outcome)
    requires Wf(db) && i < |db.tree|
    ensures r.db.tree == RemoveAt(db.tree, i)
    ensures db.tree[i].sync ==>
      r.db.synclist == db.synclist - {db.tree[i].lease.hwaddr} && r.notes == [Released(db.tree[i].lease)]
    ensures !db.tree[i].sync ==> r.db.synclist == db.synclist && r.notes == []
    // the entry is left dangling exactly when an unmarked node backs it
    ensures Backed(r.db.tree, r.db.synclist) <==> db.tree[i].sync || !Backs(db.tree[i], db.synclist)
  {
    Unlink(db, i, db.tree[i].sync)
  }

  /** The node must leave the synclist when it is marked there or when it backs its device's entry. */
  predicate Delists(n: Node, sl: map<Mac, Key>)
  {
    n.sync || Backs(n, sl)
  }

  /**
   * The release used by the model: as written, but a node that backs its
   * device's entry leaves the synclist even when a silent takeover left its
   * dl_sync clear, so no entry outlives its node.
   */
  function Release(db: Db, i: nat): (r: Outcome)
    requires Wf(db) && i < |db.tree|
    ensures Wf(r.db)
    ensures r.db.tree == RemoveAt(db.tree, i)
    ensures Delists(db.tree[i], db.synclist) ==>
      r.db.synclist == db.synclist - {db.tree[i].lease.hwaddr} && r.notes == [Released(db.tree[i].lease)]
    ensures !Delists(db.tree[i], db.synclist) ==> r.db.synclist == db.synclist && r.notes == []
  {
    Unlink(db, i, Delists(db.tree[i], db.synclist))
  }

  /**
   * The corrected release does what the code does, except when the node
   * released is unmarked and yet backs its device's entry.
   */
  lemma ReleaseDiffers(db: Db, i: nat)
    requires Wf(db) && i < |db.tree|
    ensures Release(db, i) == ReleaseAsWritten(db, i) <==> db.tree[i].sync || !Backs(db.tree[i], db.synclist)
  {
    var m := db.tree[i].lease.hwaddr;
    if !db.tree[i].sync && Backs(db.tree[i], db.synclist) {
      assert m !in Release(db, i).db.synclist && m in ReleaseAsWritten(db, i).db.synclist;
    }
  }

  /**
   * Lines 174-209: apply an acquisition or a release to the tree. None is
   * the early return for releasing a lease the tree does not hold.
   */
  function Mutate(db: Db, released: bool, l: Lease): (r: Option<Outcome>)
    requires Wf(db)
    ensures r.None? <==> released && KeyOf(l) !in Keys(db.tree)
    ensures r.Some? ==> Wf(r.value.db)
  {
    match Find(db.tree, l)
    case None =>
      if released then None
      else
        InsertIndexed(db, l);
        Some(Outcome(Db(Insert(db.tree, Node(l, false, false)), db.synclist), []))
    case Some(i) =>
      KeysAt(db.tree, i);
      if released then Some(Release(db, i))
      else
        var t := db.tree[i := Node(l, db.tree[i].sync, true)];
        OverwriteIndexed(db, i, l);
        Some(Outcome(Db(t, db.synclist), []))
  }

  /** Overwriting a node in place keeps the state fit for a rebuild. */
  lemma OverwriteIndexed(db: Db, i: nat, l: Lease)
    requires Wf(db) && i < |db.tree| && KeyOf(l) == NodeKey(db.tree[i])
    ensures Wf(Db(db.tree[i := Node(l, db.tree[i].sync, true)], db.synclist))
  {
    SameLeasesFlagsOnly(db.tree, i, l);
  }

  /** Insertion keeps the state fit for a rebuild. */
  lemma InsertIndexed(db: Db, l: Lease)
    requires Wf(db) && KeyOf(l) !in Keys(db.tree)
    ensures Wf(Db(Insert(db.tree, Node(l, false, false)), db.synclist))
  {
  }

  /** Overwriting a node's lease with one of the same key keeps the tree's order and keys. */
  lemma SameLeasesFlagsOnly(t: seq<Node>, i: nat, l: Lease)
    requires i < |t| && KeyOf(l) == NodeKey(t[i])
    ensures Sorted(t) ==> Sorted(t[i := Node(l, t[i].sync, true)])
    ensures Keys(t[i := Node(l, t[i].sync, true)]) == Keys(t)
  {
    var u := t[i := Node(l, t[i].sync, true)];
    forall a, b | 0 <= a < b < |u| && Sorted(t) ensures Less(u[a].lease, u[b].lease) {
      assert Less(t[a].lease, t[b].lease);
    }
    KeysUpdate(t, i, Node(l, t[i].sync, true));
  }

  /** nm2_dhcp_lease_notify: the tree update, then (unless it returned early) the full rebuild. */
  function Event(db: Db, released: bool, l: Lease): (r: Outcome)
    requires MaxSurvivors(db)
    ensures MaxSurvivors(r.db)
  {
    match Mutate(db, released, l)
    case None => Outcome(db, [])
    case Some(m) =>
      var p := Rebuild(m.db);
      Outcome(p.db, m.notes + p.notes)
  }
}
