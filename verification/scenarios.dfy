/**
 * Worked scenarios on one device, 00:11:22:33:44:55, and what they show
 * about the code as written: a silent takeover leaves the new entry
 * unmarked, so releasing that node skips synclist_del and leaves the
 * synclist pointing at a freed node (the model's Release, Reconcile.Release,
 * delists such a node as well); releasing a marked entry goes the same way
 * as written and corrected; a renewal that hands the entry over silently
 * leaves its update pending, to be announced by the next rebuild; a node
 * filed as new with an update pending is announced twice in one pass; and
 * releasing a node whose mark outlived a takeover drops the live entry.
 */
module Scenarios {
  import opened Wrappers
  import opened Addresses
  import opened Leases
  import opened LeaseTree
  import opened Reconcile
  import opened Settle
  import opened Events
  import opened EventCases

  /**
   * After a silent takeover, the new entry's node has dl_sync clear.
   * Releasing it as written leaves the device's synclist entry pointing at
   * a node no longer in the tree; the corrected release delists it and
   * announces the release.
   */
  lemma TakeoverReleaseDangles(db: Db, l: Lease) returns (p: nat)
    requires Settled(db) && KeyOf(l) !in Keys(db.tree)
    requires l.hwaddr in db.synclist && l.leasetime > Survivor(db, l.hwaddr).lease.leasetime
    ensures Wf(Event(db, false, l).db)
    ensures p < |Event(db, false, l).db.tree| && Event(db, false, l).db.tree[p] == Node(l, false, false)
    ensures Backs(Event(db, false, l).db.tree[p], Event(db, false, l).db.synclist)
    ensures !Backed(ReleaseAsWritten(Event(db, false, l).db, p).db.tree,
                    ReleaseAsWritten(Event(db, false, l).db, p).db.synclist)
    ensures Backed(Release(Event(db, false, l).db, p).db.tree, Release(Event(db, false, l).db, p).db.synclist)
    ensures Release(Event(db, false, l).db, p).notes == [Released(l)]
  {
    AcquireTakeover(db, l);
    p := InsertAt(db.tree, Node(l, false, false));
  }

  /** The device of the example: 00:11:22:33:44:55. */
  const Dev: Mac := [0x00, 0x11, 0x22, 0x33, 0x44, 0x55]

  /** 192.168.1.10 for an hour. */
  const First: Lease := Lease(Dev, [192, 168, 1, 10], "host", "", "", 3600.0)

  /** 192.168.1.11 for two hours, same device. */
  const Second: Lease := Lease(Dev, [192, 168, 1, 11], "host", "", "", 7200.0)

  /** The state after the first acquisition: one marked node, filed under its device. */
  const AfterFirst: Db := Db([Node(First, true, false)], map[Dev := KeyOf(First)])

  /** The state after the second acquisition: the device filed under the new, unmarked node. */
  const AfterSecond: Db := Db([Node(First, true, false), Node(Second, false, false)], map[Dev := KeyOf(Second)])

  /** The first acquisition from empty indexes files the device and announces the lease. */
  lemma FirstAcquired()
    ensures Event(Db([], map[]), false, First) == Outcome(AfterFirst, [Acquired(First)])
    ensures Settled(AfterFirst)
  {
    var y := Node(First, true, false);
    AcquireNewDevice(Db([], map[]), First);
    var _ := InsertAt([], y);
    assert Insert([], y) == [y];
  }

  /** Filing a key again replaces what it was filed under. */
  lemma Refiled(k: Mac, v: Key, w: Key)
    ensures map[k := v][k := w] == map[k := w]
  {
  }

  /** The first lease is its device's entry, and the second is filed after it. */
  lemma SecondAfterFirst()
    ensures Survivor(AfterFirst, Dev) == Node(First, true, false)
    ensures KeyOf(Second) !in Keys(AfterFirst.tree)
    ensures Insert(AfterFirst.tree, Node(Second, false, false)) == AfterSecond.tree
  {
    var x, y := Node(First, true, false), Node(Second, false, false);
    LookupAt(AfterFirst.tree, 0);
    CompareZero(Dev, Dev);
    assert !Less(Second, First);
    var p := InsertAt([x], y);
    assert Insert([x], y) == [x, y];
  }

  /** The longer second lease takes the entry over silently; its node stays unmarked. */
  lemma SecondTakesOver()
    ensures Settled(AfterFirst)
    ensures Event(AfterFirst, false, Second) == Outcome(AfterSecond, [])
    ensures Settled(AfterSecond)
  {
    FirstAcquired();
    SecondAfterFirst();
    AcquireTakeover(AfterFirst, Second);
    Refiled(Dev, KeyOf(First), KeyOf(Second));
  }

  /**
   * Releasing 192.168.1.11 as written: the node is unmarked, so the entry is
   * not dropped, and the synclist is left pointing at the freed node.
   */
  lemma DanglingExample()
    ensures Settled(AfterSecond)
    ensures !Backed(ReleaseAsWritten(AfterSecond, 1).db.tree, ReleaseAsWritten(AfterSecond, 1).db.synclist)
  {
    SecondTakesOver();
    var _ := TakeoverReleaseDangles(AfterFirst, Second);
  }

  /** The corrected release of 192.168.1.11 drops the entry and announces the release. */
  lemma SecondReleased()
    ensures Settled(AfterSecond)
    ensures Mutate(AfterSecond, true, Second) ==
      Some(Outcome(Db([Node(First, true, false)], map[]), [Released(Second)]))
  {
    SecondTakesOver();
    KeysAt(AfterSecond.tree, 1);
    MutateReleased(AfterSecond, Second, 1);
    assert Delists(AfterSecond.tree[1], AfterSecond.synclist);
    Unfiled(Dev, KeyOf(Second));
    DropSecond();
  }

  /** Dropping the only key leaves the empty map. */
  lemma Unfiled(k: Mac, v: Key)
    ensures map[k := v] - {k} == map[]
  {
  }

  /** Removing the second node leaves the first alone. */
  lemma DropSecond()
    ensures RemoveAt(AfterSecond.tree, 1) == [Node(First, true, false)]
  {
  }

  /** A rebuild of the remaining node files its device again and announces it. */
  lemma FirstRefiled()
    ensures Wf(Db([Node(First, true, false)], map[]))
    ensures Rebuild(Db([Node(First, true, false)], map[])) == Outcome(AfterFirst, [Acquired(First)])
  {
    var d := Db([Node(First, true, false)], map[]);
    KeysAt(d.tree, 0);
    TraverseUnfold(Outcome(d, []), 0);
  }

  /**
   * Releasing 192.168.1.11 with the corrected release: the device's entry
   * is dropped and announced as released, and the rebuild files the device
   * again under 192.168.1.10 and announces it.
   */
  lemma CorrectedReleaseExample()
    ensures Settled(AfterSecond)
    ensures Event(AfterSecond, true, Second) == Outcome(AfterFirst, [Released(Second), Acquired(First)])
  {
    SecondReleased();
    FirstRefiled();
    var d := Db([Node(First, true, false)], map[]);
    EventUnfold(AfterSecond, true, Second, Outcome(d, [Released(Second)]), Rebuild(d));
  }

  /** 192.168.1.11 for half an hour, same device: shorter than the entry. */
  const Short: Lease := Lease(Dev, [192, 168, 1, 11], "host", "", "", 1800.0)

  /** The device filed under its first node, with a shorter, unmarked node beside it. */
  const BeforeRenewal: Db := Db([Node(First, true, false), Node(Short, false, false)], map[Dev := KeyOf(First)])

  /** After 192.168.1.11 is renewed for two hours: the entry moved to it, its update still pending. */
  const Renewed: Db := Db([Node(First, true, false), Node(Second, false, true)], map[Dev := KeyOf(Second)])

  /** A shorter lease on a second address of the device is filed beside the entry, silently. */
  lemma ShortAfterFirst()
    ensures Settled(AfterFirst)
    ensures Event(AfterFirst, false, Short) == Outcome(BeforeRenewal, [])
    ensures Settled(BeforeRenewal)
  {
    var x, y := Node(First, true, false), Node(Short, false, false);
    FirstAcquired();
    LookupAt(AfterFirst.tree, 0);
    CompareZero(Dev, Dev);
    assert !Less(Short, First);
    var _ := InsertAt([x], y);
    assert Insert([x], y) == BeforeRenewal.tree;
    AcquireShorter(AfterFirst, Short);
  }

  /** In the rebuild after the renewal, the renewed node takes the entry over without a word. */
  lemma RenewalStep(m: Db)
    requires m == Db([Node(First, true, false), Node(Second, false, true)], map[Dev := KeyOf(First)]) && Wf(m)
    ensures Step(m, 1) == Outcome(Renewed, [])
  {
    LookupAt(m.tree, 0);
    assert m.tree[0 := m.tree[0]] == m.tree;
    Refiled(Dev, KeyOf(First), KeyOf(Second));
  }

  /** The first node meets its own entry and does nothing, so the rebuild is the takeover alone. */
  lemma RenewalRebuild(m: Db)
    requires m == Db([Node(First, true, false), Node(Second, false, true)], map[Dev := KeyOf(First)]) && Wf(m)
    ensures Rebuild(m) == Outcome(Renewed, [])
  {
    LookupAt(m.tree, 0);
    RenewalStep(m);
    RebuildOneStep(m, 1);
  }

  /** The renewal overwrites 192.168.1.11 in place and flags it. */
  lemma RenewalMutate()
    ensures Wf(BeforeRenewal)
    ensures Mutate(BeforeRenewal, false, Second) ==
      Some(Outcome(Db([Node(First, true, false), Node(Second, false, true)], map[Dev := KeyOf(First)]), []))
  {
    BeforeRenewalWf();
    KeysAt(BeforeRenewal.tree, 1);
    MutatePresent(BeforeRenewal, Second, 1);
    assert BeforeRenewal.tree[1 := Node(Second, false, true)] ==
      [Node(First, true, false), Node(Second, false, true)];
  }

  /** The state before the renewal is in tree order and its entry is live. */
  lemma BeforeRenewalWf()
    ensures Wf(BeforeRenewal)
  {
    CompareZero(Dev, Dev);
    assert !Less(Short, First);
    LessTotal(First, Short);
    KeysAt(BeforeRenewal.tree, 0);
  }

  /**
   * Renewing the unmarked 192.168.1.11 for two hours: the node is overwritten
   * and flagged, and the rebuild moves the entry to it silently.
   */
  lemma LongerRenewal()
    ensures Settled(BeforeRenewal)
    ensures Event(BeforeRenewal, false, Second) == Outcome(Renewed, [])
  {
    ShortAfterFirst();
    RenewalMutate();
    var m := Db([Node(First, true, false), Node(Second, false, true)], map[Dev := KeyOf(First)]);
    RenewalRebuild(m);
    EventUnfold(BeforeRenewal, false, Second, Outcome(m, []), Outcome(Renewed, []));
    NoneThen([]);
  }

  /** The state after the renewal is fit for a rebuild, and the device's entry has its update pending. */
  lemma RenewedPending()
    ensures Wf(Renewed) && Pending(Renewed, Dev) && !Settled(Renewed)
  {
    CompareZero(Dev, Dev);
    assert !Less(Second, First);
    LessTotal(First, Second);
    KeysAt(Renewed.tree, 1);
    LookupAt(Renewed.tree, 1);
  }

  /** The next rebuild's first addition meets the pending entry: it is announced and cleared. */
  lemma DeferredStep()
    ensures Wf(Renewed)
    ensures Step(Renewed, 0) == Outcome(AfterSecond, [Acquired(Second)])
  {
    RenewedPending();
    LookupAt(Renewed.tree, 1);
    assert Renewed.tree[1 := Node(Second, false, false)] == AfterSecond.tree;
    assert Renewed.synclist[Dev := Renewed.synclist[Dev]] == AfterSecond.synclist;
  }

  /** After that addition the renewed node meets itself, now cleared, and does nothing. */
  lemma DeferredQuiet()
    ensures Wf(Renewed)
    ensures forall j :: 0 < j < |Renewed.tree| ==> QuietFor(Step(Renewed, 0).db, Renewed.tree[j].lease)
  {
    DeferredStep();
    SecondTakesOver();
    LookupAt(AfterSecond.tree, 1);
    assert QuietFor(AfterSecond, Renewed.tree[1].lease);
  }

  /** A rebuild of the state after the renewal announces the renewed lease once. */
  lemma DeferredRebuild()
    ensures Wf(Renewed)
    ensures Rebuild(Renewed) == Outcome(AfterSecond, [Acquired(Second)])
  {
    DeferredStep();
    DeferredQuiet();
    RebuildOneStep(Renewed, 0);
  }

  /**
   * The renewal's own rebuild announces nothing; a second rebuild with no
   * change in between announces the renewed lease.
   */
  lemma DeferredRefresh()
    ensures Settled(BeforeRenewal)
    ensures Event(BeforeRenewal, false, Second).notes == []
    ensures Rebuild(Event(BeforeRenewal, false, Second).db) == Outcome(AfterSecond, [Acquired(Second)])
  {
    LongerRenewal();
    DeferredRebuild();
  }

  /** The device filed under 192.168.1.11 alone, marked. */
  const AfterShort: Db := Db([Node(Short, true, false)], map[Dev := KeyOf(Short)])

  /**
   * Releasing the marked entry 192.168.1.10 beside 192.168.1.11: the code
   * and the corrected release agree, dropping the entry and announcing it.
   */
  lemma FirstReleased()
    ensures Wf(BeforeRenewal)
    ensures ReleaseAsWritten(BeforeRenewal, 0) == Release(BeforeRenewal, 0)
    ensures Mutate(BeforeRenewal, true, First) ==
      Some(Outcome(Db([Node(Short, false, false)], map[]), [Released(First)]))
  {
    BeforeRenewalWf();
    KeysAt(BeforeRenewal.tree, 0);
    MutateReleased(BeforeRenewal, First, 0);
    ReleaseDiffers(BeforeRenewal, 0);
    Unfiled(Dev, KeyOf(First));
    assert RemoveAt(BeforeRenewal.tree, 0) == [Node(Short, false, false)];
  }

  /** A rebuild of the remaining node files its device under it, marks it and announces it. */
  lemma ShortRefiled()
    ensures Wf(Db([Node(Short, false, false)], map[]))
    ensures Rebuild(Db([Node(Short, false, false)], map[])) == Outcome(AfterShort, [Acquired(Short)])
  {
    var d := Db([Node(Short, false, false)], map[]);
    KeysAt(d.tree, 0);
    TraverseUnfold(Outcome(d, []), 0);
    assert d.tree[0 := Node(Short, true, false)] == AfterShort.tree;
  }

  /** The state with 192.168.1.11 beside the entry is reachable and settled. */
  lemma BeforeRenewalSettled()
    ensures Settled(BeforeRenewal)
  {
    ShortAfterFirst();
  }

  /**
   * The whole release of the marked entry, the same as written and
   * corrected: 192.168.1.10 released, then 192.168.1.11 filed and announced.
   */
  lemma MarkedReleaseExample()
    ensures Settled(BeforeRenewal)
    ensures ReleaseAsWritten(BeforeRenewal, 0) == Release(BeforeRenewal, 0)
    ensures Event(BeforeRenewal, true, First) == Outcome(AfterShort, [Released(First), Acquired(Short)])
  {
    BeforeRenewalSettled();
    FirstReleased();
    ShortRefiled();
    var d := Db([Node(Short, false, false)], map[]);
    EventUnfold(BeforeRenewal, true, First, Outcome(d, [Released(First)]), Rebuild(d));
  }

  /** 192.168.1.12 for 1000 s, same device: the shortest of its leases. */
  const Third: Lease := Lease(Dev, [192, 168, 1, 12], "host", "", "", 1000.0)

  /** After 192.168.1.11 is renewed in place: its update is pending, the entry unchanged. */
  const Flagged: Db := Db([Node(First, true, false), Node(Short, false, true)], map[Dev := KeyOf(First)])

  /** After 192.168.1.12 is acquired as well: a settled state with a pending non-entry node. */
  const HiddenPending: Db :=
    Db([Node(First, true, false), Node(Short, false, true), Node(Third, false, false)], map[Dev := KeyOf(First)])

  /** The tree update of releasing 192.168.1.10 from there: the device is no longer filed. */
  const Remaining: Db := Db([Node(Short, false, true), Node(Third, false, false)], map[])

  /** The first addition of the rebuild that follows: 192.168.1.11 filed as new, still pending. */
  const RefiledPending: Db := Db([Node(Short, true, true), Node(Third, false, false)], map[Dev := KeyOf(Short)])

  /** The end of that rebuild: 192.168.1.11 is the marked entry and its update is cleared. */
  const AfterDouble: Db := Db([Node(Short, true, false), Node(Third, false, false)], map[Dev := KeyOf(Short)])

  /** Renewing the unlisted 192.168.1.11 in place flags it and announces nothing. */
  lemma ShortFlagged()
    ensures Settled(BeforeRenewal)
    ensures Event(BeforeRenewal, false, Short) == Outcome(Flagged, [])
    ensures Settled(Flagged)
  {
    BeforeRenewalSettled();
    KeysAt(BeforeRenewal.tree, 1);
    LookupAt(BeforeRenewal.tree, 0);
    OverwriteHidden(BeforeRenewal, Short, 1);
    assert BeforeRenewal.tree[1 := Node(Short, false, true)] == Flagged.tree;
  }

  /** The state with 192.168.1.11 flagged is reachable and settled. */
  lemma FlaggedSettled()
    ensures Settled(Flagged)
  {
    ShortFlagged();
  }

  /** Acquiring the shorter 192.168.1.12 files it last, unmarked, and announces nothing. */
  lemma ThirdFiled()
    ensures Settled(Flagged)
    ensures Event(Flagged, false, Third) == Outcome(HiddenPending, [])
    ensures Settled(HiddenPending)
  {
    var x, y, z := Node(First, true, false), Node(Short, false, true), Node(Third, false, false);
    FlaggedSettled();
    LookupAt(Flagged.tree, 0);
    CompareZero(Dev, Dev);
    assert !Less(Third, First) && !Less(Third, Short);
    assert [x, y] == [x] + [y];
    KeysConcat([x], [y]);
    KeysSingleton(x);
    KeysSingleton(y);
    var _ := InsertAt([x, y], z);
    assert Insert([x, y], z) == HiddenPending.tree;
    AcquireShorter(Flagged, Third);
  }

  /** The state with a pending non-entry node and a shorter sibling is reachable and settled. */
  lemma HiddenPendingSettled()
    ensures Settled(HiddenPending)
  {
    ThirdFiled();
  }

  /** Releasing the marked entry 192.168.1.10 there: both releases drop the entry and announce it. */
  lemma PendingFirstReleased()
    ensures Wf(HiddenPending)
    ensures ReleaseAsWritten(HiddenPending, 0) == Release(HiddenPending, 0)
    ensures Mutate(HiddenPending, true, First) == Some(Outcome(Remaining, [Released(First)]))
  {
    PendingFirstMutate();
    ReleaseDiffers(HiddenPending, 0);
  }

  /** The tree update of that release: the node and the entry go, and the release is announced. */
  lemma PendingFirstMutate()
    ensures Wf(HiddenPending)
    ensures Mutate(HiddenPending, true, First) == Some(Outcome(Remaining, [Released(First)]))
  {
    HiddenPendingSettled();
    KeysAt(HiddenPending.tree, 0);
    MutateReleased(HiddenPending, First, 0);
    Unfiled(Dev, KeyOf(First));
    assert RemoveAt(HiddenPending.tree, 0) == Remaining.tree;
  }

  /** The rebuild's first addition files 192.168.1.11 as a new device and announces it. */
  lemma PendingFiled()
    ensures Wf(Remaining)
    ensures Step(Remaining, 0) == Outcome(RefiledPending, [Acquired(Short)])
  {
    CompareZero(Dev, Dev);
    assert Less(Short, Third);
    KeysAt(Remaining.tree, 0);
    KeysAt(Remaining.tree, 1);
    assert Remaining.tree[0 := Node(Short, true, true)] == RefiledPending.tree;
  }

  /** The second addition meets 192.168.1.11, still pending, and announces it again. */
  lemma PendingMerged()
    ensures Indexed(RefiledPending)
    ensures Step(RefiledPending, 1) == Outcome(AfterDouble, [Acquired(Short)])
  {
    PendingFiled();
    LookupAt(RefiledPending.tree, 0);
    assert RefiledPending.tree[0 := Node(Short, true, false)] == AfterDouble.tree;
    Refiled(Dev, KeyOf(Short), KeyOf(Short));
  }

  /** The whole rebuild after that release announces 192.168.1.11 twice. */
  lemma DoubleRebuild()
    ensures Wf(Remaining)
    ensures Rebuild(Remaining) == Outcome(AfterDouble, [Acquired(Short), Acquired(Short)])
  {
    PendingFiled();
    PendingMerged();
    TraverseUnfold(Outcome(Remaining, []), 0);
    TraverseUnfold(Outcome(RefiledPending, [Acquired(Short)]), 1);
  }

  /**
   * Releasing the marked entry 192.168.1.10 while 192.168.1.11 has an update
   * pending: as written and corrected alike, the pass announces 192.168.1.11
   * twice, once as a new device and once for its pending update.
   */
  lemma DoubleAnnouncement()
    ensures Settled(HiddenPending)
    ensures Event(HiddenPending, true, First) ==
      Outcome(AfterDouble, [Released(First), Acquired(Short), Acquired(Short)])
  {
    HiddenPendingSettled();
    PendingFirstMutate();
    DoubleRebuild();
    DoubleEvent(HiddenPending, Remaining, AfterDouble);
  }

  /** The release's decision, then the rebuild's two. */
  lemma DoubleEvent(db: Db, m: Db, r: Db)
    requires MaxSurvivors(db) && Mutate(db, true, First) == Some(Outcome(m, [Released(First)]))
    requires Wf(m) && Rebuild(m) == Outcome(r, [Acquired(Short), Acquired(Short)])
    ensures Event(db, true, First) == Outcome(r, [Released(First), Acquired(Short), Acquired(Short)])
  {
    EventUnfold(db, true, First, Outcome(m, [Released(First)]), Rebuild(m));
    ThreeNotes(Released(First), Acquired(Short), Acquired(Short));
  }

  /** One decision followed by two. */
  lemma ThreeNotes(a: Note, b: Note, c: Note)
    ensures [a] + [b, c] == [a, b, c]
  {
  }

  /** The state after the takeover is reachable and settled. */
  lemma AfterSecondSettled()
    ensures Settled(AfterSecond)
  {
    SecondTakesOver();
  }

  /**
   * Releasing 192.168.1.10 after the takeover: its node is still marked but
   * no longer backs the entry. Both releases call synclist_del, which drops
   * the device's live entry and announces the stale lease as released.
   */
  lemma StaleMarkReleased()
    ensures Wf(AfterSecond)
    ensures AfterSecond.tree[0].sync && !Backs(AfterSecond.tree[0], AfterSecond.synclist)
    ensures ReleaseAsWritten(AfterSecond, 0) == Release(AfterSecond, 0)
    ensures Mutate(AfterSecond, true, First) == Some(Outcome(Db([Node(Second, false, false)], map[]), [Released(First)]))
  {
    StaleMarkMutate();
    ReleaseDiffers(AfterSecond, 0);
  }

  /** The tree update of that release: the node goes, with the device's entry, and the old lease is released. */
  lemma StaleMarkMutate()
    ensures Wf(AfterSecond)
    ensures Mutate(AfterSecond, true, First) == Some(Outcome(Db([Node(Second, false, false)], map[]), [Released(First)]))
  {
    AfterSecondSettled();
    KeysAt(AfterSecond.tree, 0);
    MutateReleased(AfterSecond, First, 0);
    Unfiled(Dev, KeyOf(Second));
    assert RemoveAt(AfterSecond.tree, 0) == [Node(Second, false, false)];
  }

  /** A rebuild of the remaining node files its device under it, marks it and announces it. */
  lemma SecondRefiled()
    ensures Wf(Db([Node(Second, false, false)], map[]))
    ensures Rebuild(Db([Node(Second, false, false)], map[])) ==
      Outcome(Db([Node(Second, true, false)], map[Dev := KeyOf(Second)]), [Acquired(Second)])
  {
    var d := Db([Node(Second, false, false)], map[]);
    KeysAt(d.tree, 0);
    TraverseUnfold(Outcome(d, []), 0);
    assert d.tree[0 := Node(Second, true, false)] == [Node(Second, true, false)];
  }

  /**
   * The whole release of the stale-marked 192.168.1.10: the device is
   * announced as released with the old lease, then refiled under
   * 192.168.1.11 and announced again, though 192.168.1.11 was its entry throughout.
   */
  lemma StaleMarkExample()
    ensures Settled(AfterSecond)
    ensures Event(AfterSecond, true, First) ==
      Outcome(Db([Node(Second, true, false)], map[Dev := KeyOf(Second)]), [Released(First), Acquired(Second)])
  {
    AfterSecondSettled();
    StaleMarkMutate();
    SecondRefiled();
    var d := Db([Node(Second, false, false)], map[]);
    EventUnfold(AfterSecond, true, First, Outcome(d, [Released(First)]), Rebuild(d));
  }
}
