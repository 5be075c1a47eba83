/**
 * The lease engine as the program runs it: the two global indexes updated
 * in place by nm2_dhcp_lease_notify, the synclist rebuilt by a loop over
 * the tree, and the store operations the handler issues through
 * __nm2_dhcp_lease_notify, in the order it issues them. Each method is
 * proved against the functions of the Reconcile module.
 */
module Engine {
  import opened Wrappers
  import opened Addresses
  import opened Leases
  import opened LeaseTree
  import opened Reconcile
  import opened Bridge
  import opened Events

  /**
   * The store operation, if any, that one decision turns into. The store's
   * answer is not looked at: the operation issued does not depend on it
   * (Bridge.PublishIgnoresStore), so the model records the request only.
   */
  function OpsOfNote(n: Note): (ops: seq<StoreOp>)
    ensures |ops| <= 1
    ensures |ops| == 0 <==> n.lease.ipaddr == IpAny
    ensures |ops| == 1 ==> ops[0].where == [Cond("hwaddr", MacText(n.lease.hwaddr))]
    ensures |ops| == 1 ==> (ops[0].DeleteWhere? <==> n.Released?)
  {
    var p := Publish(n.Released?, n.lease, true);
    if p.op.Some? then [p.op.value] else []
  }

  /** The store operations a sequence of decisions turns into, in order. */
  function OpsOf(ns: seq<Note>): (ops: seq<StoreOp>)
    ensures |ops| <= |ns|
  {
    if |ns| == 0 then [] else OpsOfNote(ns[0]) + OpsOf(ns[1..])
  }

  /** Decisions made one after the other issue their operations one after the other. */
  lemma {:induction false} OpsOfAppend(a: seq<Note>, b: seq<Note>)
    ensures OpsOf(a + b) == OpsOf(a) + OpsOf(b)
  {
    if |a| == 0 {
      assert a + b == b;
    } else {
      assert (a + b)[1..] == a[1..] + b;
      OpsOfAppend(a[1..], b);
    }
  }

  /** Issuing the operations of a, then those of b, logs the operations of a + b. */
  lemma LogAppend(log: seq<StoreOp>, a: seq<Note>, b: seq<Note>)
    ensures log + OpsOf(a) + OpsOf(b) == log + OpsOf(a + b)
  {
    OpsOfAppend(a, b);
  }

  /** A run of acquisitions issues upserts only: an acquisition never deletes. */
  lemma {:induction false} OpsOfKinds(ns: seq<Note>)
    requires forall k :: 0 <= k < |ns| ==> ns[k].Acquired?
    ensures forall k :: 0 <= k < |OpsOf(ns)| ==> OpsOf(ns)[k].UpsertWhere?
  {
    if |ns| > 0 {
      OpsOfKinds(ns[1..]);
    }
  }

  /** One synclist_add of the rebuild loop: the rest of the traversal is unchanged. */
  lemma ResyncStep(before: Outcome, i: nat, after: Db, notes: seq<Note>)
    requires Indexed(before.db) && i < |before.db.tree|
    requires after == Step(before.db, i).db && notes == Step(before.db, i).notes
    ensures Indexed(after) && |after.tree| == |before.db.tree|
    ensures Traverse(Outcome(after, before.notes + notes), i + 1) == Traverse(before, i)
  {
    TraverseUnfold(before, i);
  }

  /** The rebuild is the traversal from the first node with nothing decided yet. */
  lemma ResyncInit(db: Db, log: seq<StoreOp>)
    requires Wf(db)
    ensures Indexed(db) && Traverse(Outcome(db, []), 0) == Rebuild(db)
    ensures log == log + OpsOf([])
  {
  }

  /** Once every node has been added, the state reached is the traversal's result. */
  lemma ResyncExit(o: Outcome, i: nat, goal: Outcome)
    requires Indexed(o.db) && i == |o.db.tree| && Traverse(o, i) == goal
    ensures o.db == goal.db && o.notes == goal.notes
  {
  }

  class LeaseEngine {
    /** dhcp_lease_list, by its in-order content. */
    var tree: seq<Node>
    /** dhcp_lease_synclist: one node, by key, per device. */
    var synclist: map<Mac, Key>
    /** Every store operation issued so far. */
    var ops: seq<StoreOp>

    /** The state between two calls: every device filed under one of its longest leases. */
    ghost predicate Valid()
      reads this
    {
      MaxSurvivors(Db(tree, synclist))
    }

    /** The indexes as the program starts: both empty. */
    constructor ()
      ensures Valid() && tree == [] && synclist == map[] && ops == []
    {
      tree := [];
      synclist := map[];
      ops := [];
    }

    /** __nm2_dhcp_lease_notify: hand one decision to the store. */
    method Announce(released: bool, l: Lease) returns (ok: bool)
      modifies this
      ensures ok
      ensures tree == old(tree) && synclist == old(synclist)
      ensures ops == old(ops) + OpsOfNote(if released then Released(l) else Acquired(l))
    {
      var p := Publish(released, l, true);
      if p.op.Some? {
        ops := ops + [p.op.value];
      }
      ok := p.ok;
    }

    /**
     * synclist_add of the node at position i, with the handler
     * osn_dhcp_server_lease_sync run against the device's current entry.
     */
    method SyncAdd(i: nat)
      requires Indexed(Db(tree, synclist)) && i < |tree|
      modifies this
      ensures Db(tree, synclist) == Step(old(Db(tree, synclist)), i).db
      ensures ops == old(ops) + OpsOf(Step(old(Db(tree, synclist)), i).notes)
    {
      var c := tree[i];
      var m := c.lease.hwaddr;
      KeysAt(tree, i);
      if m !in synclist {
        // a new device: mark the node, announce it, file it
        tree := tree[i := c.(sync := true)];
        var _ := Announce(false, c.lease);
        synclist := synclist[m := NodeKey(c)];
      } else {
        var o := IndexOf(tree, synclist[m]);
        var prev := tree[o];
        if c.lease.leasetime > prev.lease.leasetime {
          // a strictly longer lease takes the entry over without a word
          assert tree[o := prev] == tree;
          synclist := synclist[m := NodeKey(c)];
        } else if prev.updated {
          // a pending update of the entry is announced once
          tree := tree[o := prev.(updated := false)];
          var _ := Announce(false, prev.lease);
          assert synclist[m := synclist[m]] == synclist;
        } else {
          assert tree[o := prev] == tree;
          assert synclist[m := synclist[m]] == synclist;
        }
      }
    }

    /**
     * Lines 215-222: synclist_begin, synclist_add of every node in tree
     * order, synclist_end (which finds nothing left to release, by
     * Reconcile.EndSweepIdle).
     */
    method Resync()
      requires Wf(Db(tree, synclist))
      modifies this
      ensures Db(tree, synclist) == Rebuild(old(Db(tree, synclist))).db
      ensures ops == old(ops) + OpsOf(Rebuild(old(Db(tree, synclist))).notes)
    {
      ghost var goal := Rebuild(Db(tree, synclist));
      ghost var notes: seq<Note> := [];
      ghost var log := ops;
      ResyncInit(Db(tree, synclist), log);
      var i := 0;
      while i < |tree|
        invariant i <= |tree| && Indexed(Db(tree, synclist))
        invariant Traverse(Outcome(Db(tree, synclist), notes), i) == goal
        invariant ops == log + OpsOf(notes)
        decreases |tree| - i
      {
        notes := AddNext(i, notes, goal, log);
        i := i + 1;
      }
      ResyncExit(Outcome(Db(tree, synclist), notes), i, goal);
    }

    /** One turn of the rebuild loop: the node at position i is added, and the rest of the traversal is what remains. */
    method AddNext(i: nat, ghost notes: seq<Note>, ghost goal: Outcome, ghost log: seq<StoreOp>)
      returns (ghost notes': seq<Note>)
      requires Indexed(Db(tree, synclist)) && i < |tree|
      requires Traverse(Outcome(Db(tree, synclist), notes), i) == goal
      requires ops == log + OpsOf(notes)
      modifies this
      ensures Indexed(Db(tree, synclist)) && |tree| == old(|tree|)
      ensures Traverse(Outcome(Db(tree, synclist), notes'), i + 1) == goal
      ensures ops == log + OpsOf(notes')
    {
      ghost var before := Outcome(Db(tree, synclist), notes);
      ghost var s := Step(before.db, i);
      SyncAdd(i);
      ResyncStep(before, i, Db(tree, synclist), s.notes);
      LogAppend(log, notes, s.notes);
      notes' := notes + s.notes;
    }

    /**
     * nm2_dhcp_lease_notify: apply the acquisition or release to the tree,
     * then rebuild the synclist. Returns true in every case, including a
     * release of an unknown lease, which changes nothing.
     */
    method Notify(released: bool, l: Lease) returns (ok: bool)
      requires Valid()
      modifies this
      ensures ok && Valid()
      ensures Db(tree, synclist) == Event(old(Db(tree, synclist)), released, l).db
      ensures ops == old(ops) + OpsOf(Event(old(Db(tree, synclist)), released, l).notes)
    {
      ghost var db := Db(tree, synclist);
      var proceed, notes := Apply(released, l);
      if !proceed {
        return true;
      }
      ghost var m := Db(tree, synclist);
      Resync();
      LogAppend(old(ops), notes, Rebuild(m).notes);
      EventUnfold(db, released, l, Outcome(m, notes), Rebuild(m));
      ok := true;
    }

    /**
     * Lines 174-209: the update of the tree. proceed is false for the early
     * return on releasing an unknown lease.
     */
    method Apply(released: bool, l: Lease) returns (proceed: bool, ghost notes: seq<Note>)
      requires Wf(Db(tree, synclist))
      modifies this
      ensures proceed <==> Mutate(old(Db(tree, synclist)), released, l).Some?
      ensures !proceed ==> tree == old(tree) && synclist == old(synclist) && ops == old(ops)
      ensures proceed ==>
        Mutate(old(Db(tree, synclist)), released, l) == Some(Outcome(Db(tree, synclist), notes)) &&
        ops == old(ops) + OpsOf(notes)
    {
      var f := Find(tree, l);
      notes := [];
      if released {
        if f.None? {
          return false, [];
        }
        KeysAt(tree, f.value);
        notes := Forget(f.value);
      } else if f.None? {
        tree := Insert(tree, Node(l, false, false));
      } else {
        var i := f.value;
        KeysAt(tree, i);
        tree := tree[i := Node(l, tree[i].sync, true)];
      }
      proceed := true;
    }

    /**
     * Lines 189-197 for the node at position i: take it out of the tree and,
     * when it is marked or is its device's entry, hand it to the handler
     * through synclist_del.
     */
    method Forget(i: nat) returns (ghost notes: seq<Note>)
      requires Wf(Db(tree, synclist)) && i < |tree|
      modifies this
      ensures Outcome(Db(tree, synclist), notes) == Release(old(Db(tree, synclist)), i)
      ensures ops == old(ops) + OpsOf(notes)
    {
      var node := tree[i];
      tree := RemoveAt(tree, i);
      if node.sync || Backs(node, synclist) {
        // the handler, called with no new node, releases the node's lease; the entry goes
        synclist := synclist - {node.lease.hwaddr};
        var _ := Announce(true, node.lease);
        notes := [Released(node.lease)];
      } else {
        notes := [];
      }
    }
  }
}
