# DHCP lease reconciliation in nm2 — a Dafny model

The network manager (nm2) learns about DHCP leases one event at a time:
a lease on a (MAC, IP) pair was acquired or released. In the build that
defines `WAR_ESW_3313`, `nm2_dhcp_lease_notify` does not forward these
events straight to the `DHCP_leased_IP` table. It keeps every lease in a
tree keyed by (MAC, IP), `dhcp_lease_list`. After each change it rebuilds
a MAC-keyed view, `dhcp_lease_synclist`, from the tree.

The rebuild walks the tree in order and offers every node to the synclist.
The handler `osn_dhcp_server_lease_sync` decides, per device:
- a device seen for the first time is announced as acquired;
- a device that has vanished is announced as released;
- a strictly longer lease takes the device's entry over silently;
- otherwise the entry stays, and a pending in-place update is announced
  once and cleared.

Each announcement goes through `__nm2_dhcp_lease_notify` and
`nm2_dhcp_table_update`. They turn it into a row and issue a delete or an
upsert, selected by the lower-cased hardware address alone.

The model follows the program's structure:

| file | module | what it holds |
|---|---|---|
| `wrappers.dfy` | `Wrappers` | `Option` |
| `addresses.dfy` | `Addresses` | MAC and IP values, their comparison, their text forms, `str_tolower` |
| `leases.dfy` | `Leases` | the lease record and the two comparators |
| `lease_tree.dfy` | `LeaseTree` | the node record and its flags; the tree as a strictly sorted sequence; find, insert and remove |
| `reconcile.dfy` | `Reconcile` | the handler; one `synclist_add`; the full rebuild; the tree update; the whole event |
| `settle.dfy` | `Settle` | what a rebuild does to pending updates, and when a rebuild is quiet |
| `events.dfy`, `event_cases.dfy` | `Events`, `EventCases` | each kind of event, from a settled state |
| `bridge.dfy` | `Bridge` | row construction, lease-time mapping, the where-clause, delete or upsert |
| `engine.dfy` | `Engine` | `LeaseEngine`: the two global indexes as fields, updated in place by methods proved against `Reconcile` |
| `scenarios.dfy` | `Scenarios` | concrete runs on one device; the finding below |

State and invariants:
- The tree is a `seq<Node>` in comparator order, so traversal order is explicit.
- The synclist is a `map<Mac, Key>`; the key stands for the node pointer it holds.
- `Wf` says the tree is sorted and every synclist entry is filed under its own MAC and points at a live node.
- `MaxSurvivors` adds that every device in the tree has an entry, on one of its longest leases.
- `Settled` adds that no entry has an update pending.
- Every event preserves `MaxSurvivors` (`Reconcile.Event`, with the corrected release described under Findings).

The synclist library itself is not shown, so its behaviour is an assumption, stated at the head of `reconcile.dfy`:
- `synclist_add` pairs the MAC's current entry (or none) with the added node and keeps what the handler returns, so a device's nodes are folded left in traversal order;
- `synclist_del` hands the node to the handler with no new node and drops the MAC's entry. A node can keep a stale `dl_sync` after a takeover and so not be the entry. This assumption then decides the outcome: the MAC's live entry is dropped;
- `synclist_end` releases every entry that was not revisited.

Under these assumptions, `synclist_end` never finds such an entry (`Reconcile.EndSweepIdle`).

Behaviour of the code that the model reproduces and proves:

- **A rebuild after an event is not always quiet.** The takeover branch
  (nm2_dhcp_lease.c:136-139) returns the new node without looking at its
  `dl_updated` flag. So a renewal that makes an unlisted node the longest
  lease of its device hands it the entry silently, with the flag still set.
  If the renewed node is the last of its device in tree order, nothing in
  that rebuild announces it. The next rebuild, even with no change in
  between, does. `Scenarios.DeferredRefresh` proves this on a concrete run.
  If a later node of the device follows it, that node meets it in the same
  rebuild and the merge branch announces it there. The general statements
  that hold need `MaxSurvivors` before the rebuild:
  - a rebuild from a settled state is quiet (`Settle.QuietPass`);
  - a rebuild of a state with `MaxSurvivors` leaves a settled state (`Settle.SettlingPassState`);
  - the rebuild after that is quiet (`Settle.ThirdPassQuiet`, `Settle.EventThenIdle`).
  The rebuild inside an event starts from the updated tree, which need not
  have `MaxSurvivors`. So an event can end in a state with an update pending
  (`Scenarios.RenewedPending`).
- **A pass can announce a device twice.** The new-device branch
  (nm2_dhcp_lease.c:114-122) marks and announces the node but leaves its
  `dl_updated` flag as it was. If the node had an update pending and a
  later node of the same device follows it in that pass, the merge branch
  (145-149) announces the same lease again. One reachable run shows this:
  - the marked entry 192.168.1.10 is released;
  - 192.168.1.11 has an update pending;
  - 192.168.1.12 is shorter than 192.168.1.11.

  The event announces the release, then 192.168.1.11 twice
  (`Scenarios.DoubleAnnouncement`, reached through `Scenarios.ShortFlagged`
  and `Scenarios.ThirdFiled`). At most one announcement per device holds
  for a rebuild of a state with `MaxSurvivors` (`Settle.SettlingPassNotes`).
  It does not hold for the rebuild inside an event.
- **Renewing the entry's own lease in place announces it once.** This holds
  with the same or a lower duration, as long as no other lease of the
  device is longer (`EventCases.Refresh`).
- **Releasing a marked entry whose device has other leases.** The device is
  announced as released. The rebuild then files it again under its
  remaining lease and announces that one, once if it has no update pending
  and twice if it has (see above). Here the code and the corrected release
  agree (`Scenarios.MarkedReleaseExample`, `Scenarios.DoubleAnnouncement`). An entry taken over
  silently has an unmarked node, and the code leaves that entry dangling
  on release (see Findings). The corrected release handles it in the same
  way as a marked entry (`Scenarios.CorrectedReleaseExample`).
- **Releasing a marked node that lost the entry.** The takeover branch
  (nm2_dhcp_lease.c:136-139) clears neither flag, so the old node keeps
  `dl_sync`. Its release calls `synclist_del` (line 194) with a node that is
  not on the synclist. Under the assumed `synclist_del`, the device's live
  entry is dropped and the old lease is announced as released. The rebuild
  then files the remaining lease and announces it again. The code and the
  corrected release agree here (`Scenarios.StaleMarkReleased`,
  `Scenarios.StaleMarkExample`). What the real library does with a node it
  does not hold is not part of this model.

## Model

| member | source | states |
|---|---|---|
| `Addresses.CompareZero` | opensync/core/src/nm2/src/nm2_dhcp_lease.c:88-91 | the address comparison reports 0 exactly for equal addresses |
| `Addresses.CompareFlip` | opensync/core/src/nm2/src/nm2_dhcp_lease.c:88-91 | swapping the operands negates the comparison |
| `Addresses.CompareTrans` | opensync/core/src/nm2/src/nm2_dhcp_lease.c:88-91 | "sorts before" is transitive |
| `Addresses.MacText` | opensync/core/src/nm2/src/nm2_dhcp_lease.c:262 | the formatted hardware address is 17 characters long |
| `Addresses.MacTextLayout` | opensync/core/src/nm2/src/nm2_dhcp_lease.c:262 | octet k is written as two lower-case hexadecimal digits at characters 3k and 3k+1, colons sit at characters 2, 5, 8, 11 and 14, and no upper-case letter occurs |
| `Addresses.MacTextInjective` | opensync/core/src/nm2/src/nm2_dhcp_lease.c:262 | different hardware addresses are formatted differently |
| `Addresses.Lower` | opensync/core/src/nm2/src/nm2_dhcp_lease.c:311 | `str_tolower` keeps the length and lower-cases each character; no upper-case letter is left, and a text without one comes back unchanged |
| `Addresses.LowerIdempotent` | opensync/core/src/nm2/src/nm2_dhcp_lease.c:311 | lower-casing twice equals lowering once, and no upper-case letter is left |
| `Addresses.MacTextIsLower` | opensync/core/src/nm2/src/nm2_dhcp_lease.c:262 | the formatted hardware address is already lower case, so the where-value equals the stored `hwaddr` text |
| `Leases.LeaseCmpZero` | opensync/core/src/nm2/src/nm2_dhcp_lease.c:81-95 | the tree comparator returns 0 exactly when both MAC and IP agree |
| `Leases.LeaseCmpFlip` | opensync/core/src/nm2/src/nm2_dhcp_lease.c:81-95 | the tree comparator is antisymmetric |
| `Leases.LessTotal` | opensync/core/src/nm2/src/nm2_dhcp_lease.c:81-95 | two leases with different keys are ordered one way or the other, never both |
| `Leases.LessTrans` | opensync/core/src/nm2/src/nm2_dhcp_lease.c:81-95 | the tree order is transitive, so it is a strict total order on (MAC, IP) |
| `Leases.SyncCmpZero` | opensync/core/src/nm2/src/nm2_dhcp_lease.c:99-105 | the synclist comparator returns 0 exactly for leases of the same device |
| `Leases.LessRefinesSyncCmp` | opensync/core/src/nm2/src/nm2_dhcp_lease.c:81-105 | for different devices the tree order agrees with the synclist order |
| `LeaseTree.SortedKeysUnique` | opensync/core/src/nm2/src/nm2_dhcp_lease.c:157 | the tree holds at most one node per (MAC, IP) |
| `LeaseTree.SameDeviceContiguous` | opensync/core/src/nm2/src/nm2_dhcp_lease.c:218-221 | in traversal order a device's nodes are consecutive |
| `LeaseTree.Find` | opensync/core/src/nm2/src/nm2_dhcp_lease.c:174 | `ds_tree_find` finds a node exactly when the probe's (MAC, IP) is present, and the node found has that key |
| `LeaseTree.Insert` | opensync/core/src/nm2/src/nm2_dhcp_lease.c:203 | `ds_tree_insert` of an absent key keeps the tree sorted and adds exactly the new node and its key |
| `LeaseTree.InsertPos` | opensync/core/src/nm2/src/nm2_dhcp_lease.c:203 | the new node goes after every node sorting before it and before every node sorting after it |
| `LeaseTree.RemoveAt` | opensync/core/src/nm2/src/nm2_dhcp_lease.c:189 | `ds_tree_remove` keeps the tree sorted and takes out exactly that node and its key |
| `LeaseTree.RemoveInserted` | opensync/core/src/nm2/src/nm2_dhcp_lease.c:189-204 | removing a node just inserted gives back the original tree |
| `LeaseTree.LookupInsert` | opensync/core/src/nm2/src/nm2_dhcp_lease.c:203 | an insertion leaves the node under every other key unchanged, so synclist pointers stay valid |
| `LeaseTree.LookupRemove` | opensync/core/src/nm2/src/nm2_dhcp_lease.c:189 | a removal leaves the node under every other key unchanged |
| `LeaseTree.LookupUpdateSame` | opensync/core/src/nm2/src/nm2_dhcp_lease.c:207 | after an in-place overwrite, the key resolves to the new content |
| `LeaseTree.LookupUpdateOther` | opensync/core/src/nm2/src/nm2_dhcp_lease.c:207 | an in-place overwrite leaves every other key's node unchanged |
| `Reconcile.Sync` | opensync/core/src/nm2/src/nm2_dhcp_lease.c:108-152 | the handler's cases: new device marked, kept and announced; vanished entry unmarked and released with its old lease; a strictly longer lease kept silently with neither node's flags touched; otherwise the entry kept, and announced with its flag cleared exactly when an update was pending |
| `Reconcile.Survivor` | opensync/core/src/nm2/src/nm2_dhcp_lease.c:159-163 | a device's entry points at a node of that device |
| `Reconcile.Step` | opensync/core/src/nm2/src/nm2_dhcp_lease.c:220 | one `synclist_add`: only flags change; the node's MAC becomes filed; other MACs' entries are untouched; at most one acquisition is announced |
| `Reconcile.StepSurvivorTimes` | opensync/core/src/nm2/src/nm2_dhcp_lease.c:136-139 | after a node is added, its device's entry is at least as long as it, and no entry gets shorter |
| `Reconcile.Traverse` | opensync/core/src/nm2/src/nm2_dhcp_lease.c:218-221 | the in-order walk changes flags only, files every device it meets, and only appends acquisitions, no more of them than the nodes it walks |
| `Reconcile.Rebuild` | opensync/core/src/nm2/src/nm2_dhcp_lease.c:215-222 | a full rebuild files every device under one of its longest leases, changes flags only, and announces only acquisitions, no more of them than there are nodes |
| `Reconcile.EndSweepIdle` | opensync/core/src/nm2/src/nm2_dhcp_lease.c:222 | every entry belongs to a device met in the walk, so `synclist_end` has nothing to release |
| `Reconcile.ReleaseAsWritten` | opensync/core/src/nm2/src/nm2_dhcp_lease.c:189-197 | as written: the node leaves the tree, and the entry leaves the synclist with a release exactly when `dl_sync` is set; the synclist keeps a dangling pointer exactly when an unmarked node backs its entry |
| `Reconcile.ReleaseDiffers` | opensync/core/src/nm2/src/nm2_dhcp_lease.c:189-197 | the corrected release gives what the code gives exactly when the node released is marked or does not back its device's entry |
| `Reconcile.Release` | opensync/core/src/nm2/src/nm2_dhcp_lease.c:189-197 | corrected: the node leaves the tree; when it is marked or backs its entry, the entry goes and its lease is released; no dangling pointer is left |
| `Reconcile.Mutate` | opensync/core/src/nm2/src/nm2_dhcp_lease.c:174-209 | (corrected release) the tree update returns early exactly for a release of an absent (MAC, IP); otherwise it leaves a well-formed state |
| `Reconcile.Event` | opensync/core/src/nm2/src/nm2_dhcp_lease.c:167-225 | (corrected release) every call keeps every device filed under one of its longest leases |
| `Settle.SettlingPassState` | opensync/core/src/nm2/src/nm2_dhcp_lease.c:145-151 | a rebuild of a state with `MaxSurvivors` keeps the synclist, clears the pending flag of exactly the entries' nodes, and leaves a settled state |
| `Settle.SettlingPassNotes` | opensync/core/src/nm2/src/nm2_dhcp_lease.c:145-149 | a rebuild of a state with `MaxSurvivors` announces each pending entry once, with its current lease, and nothing else |
| `Settle.QuietPass` | opensync/core/src/nm2/src/nm2_dhcp_lease.c:215-222 | a rebuild of a settled state changes nothing and announces nothing |
| `Settle.ThirdPassQuiet` | opensync/core/src/nm2/src/nm2_dhcp_lease.c:215-222 | from any state the engine reaches (every device filed under one of its longest leases), the rebuild after a rebuild changes nothing and announces nothing |
| `Settle.EventThenIdle` | opensync/core/src/nm2/src/nm2_dhcp_lease.c:167-225 | (corrected release) after any event the next rebuild settles the state and the one after it announces nothing |
| `Events.AcquireAbsent` | opensync/core/src/nm2/src/nm2_dhcp_lease.c:199-204 | acquiring an absent (MAC, IP) adds exactly one node, with neither flag set, and leaves the synclist alone |
| `Events.AcquirePresent` | opensync/core/src/nm2/src/nm2_dhcp_lease.c:205-209 | acquiring a present (MAC, IP) replaces that node's lease, keeps its mark, sets its pending flag, and changes no other node |
| `Events.ReleasePresent` | opensync/core/src/nm2/src/nm2_dhcp_lease.c:189-197 | (corrected release) releasing a present (MAC, IP) removes exactly that node; its entry goes, with a release, exactly when the node is marked or backs it |
| `Events.ReleaseUnknown` | opensync/core/src/nm2/src/nm2_dhcp_lease.c:179-187 | releasing an absent (MAC, IP) changes neither index and announces nothing |
| `Events.QuietStep` | opensync/core/src/nm2/src/nm2_dhcp_lease.c:136-151 | a node meeting an entry that is no shorter and not pending changes nothing |
| `Events.RebuildQuiet` | opensync/core/src/nm2/src/nm2_dhcp_lease.c:215-222 | a rebuild whose every addition is quiet changes nothing |
| `Events.RebuildOneStep` | opensync/core/src/nm2/src/nm2_dhcp_lease.c:215-222 | a rebuild in which only one addition acts is that addition |
| `EventCases.AcquireNewDevice` | opensync/core/src/nm2/src/nm2_dhcp_lease.c:114-123 | from a settled state, a lease for a new device: node inserted and marked, filed as the entry, announced once; the state stays settled |
| `EventCases.AcquireShorter` | opensync/core/src/nm2/src/nm2_dhcp_lease.c:199-204 | from a settled state, a new address of a known device, no longer than its entry: node inserted unmarked, nothing else changes, nothing announced |
| `EventCases.AcquireTakeover` | opensync/core/src/nm2/src/nm2_dhcp_lease.c:136-139 | from a settled state, a new address strictly longer than the entry: the entry moves to the new node silently, and the node stays unmarked |
| `EventCases.OverwriteHidden` | opensync/core/src/nm2/src/nm2_dhcp_lease.c:205-209 | from a settled state, overwriting a node that is not the entry, no longer than the entry: the node is flagged pending, nothing is announced |
| `EventCases.Refresh` | opensync/core/src/nm2/src/nm2_dhcp_lease.c:145-149 | from a settled state, overwriting the entry's node with a lease no shorter than the device's others: one acquisition with the new lease, the flag cleared, nothing else changes |
| `EventCases.ReleaseHidden` | opensync/core/src/nm2/src/nm2_dhcp_lease.c:189-197 | (corrected release) from a settled state, releasing a node that is neither marked nor the entry removes it and nothing else |
| `EventCases.ReleaseLast` | opensync/core/src/nm2/src/nm2_dhcp_lease.c:124-133 | (corrected release) from a settled state, releasing a device's only node removes it and its entry and announces the release of its lease |
| `EventCases.AcquireReleaseRoundTrip` | opensync/core/src/nm2/src/nm2_dhcp_lease.c:167-225 | (corrected release) from a settled state, acquiring a lease for a new device and then releasing it restores both indexes, announcing the acquisition and then the release |
| `Bridge.Trunc` | opensync/core/src/nm2/src/nm2_dhcp_lease.c:284 | the `(int)` conversion truncates toward zero |
| `Bridge.LeaseTime` | opensync/core/src/nm2/src/nm2_dhcp_lease.c:276-287 | a release is written with lease time 0; an acquisition with the truncated time, or -1 when that is 0, never 0 |
| `Bridge.ToRow` | opensync/core/src/nm2/src/nm2_dhcp_lease.c:256-287 | the row holds the formatted MAC and IP, the copied strings and the mapped lease time; the lease time is 0 exactly for a release, and the MAC text has no upper-case letter |
| `Bridge.Where` | opensync/core/src/nm2/src/nm2_dhcp_lease.c:311-322 | the where-clause is a single condition on `hwaddr` |
| `Bridge.TableUpdate` | opensync/core/src/nm2/src/nm2_dhcp_lease.c:300-358 | deletes exactly when the lease time is 0 and otherwise upserts the row; reports whether the store accepted |
| `Bridge.Publish` | opensync/core/src/nm2/src/nm2_dhcp_lease.c:241-298 | the unspecified IP issues nothing; otherwise the request selects by the formatted MAC, deletes exactly for a release, upserts a nonzero lease time for an acquisition; the result is always true |
| `Bridge.AcquisitionNeverDeletes` | opensync/core/src/nm2/src/nm2_dhcp_lease.c:276-355 | a release always deletes; an acquisition always upserts, with -1 when its time truncates to 0 |
| `Bridge.WhereIgnoresAddress` | opensync/core/src/nm2/src/nm2_dhcp_lease.c:311-322 | rows whose hardware addresses agree after lower-casing select the same store rows, whatever their IP |
| `Bridge.WhereSeparatesDevices` | opensync/core/src/nm2/src/nm2_dhcp_lease.c:262-312 | rows of different devices select different store rows |
| `Bridge.PublishIgnoresStore` | opensync/core/src/nm2/src/nm2_dhcp_lease.c:289-297 | what is issued, and what the caller is told, do not depend on the store's answer |
| `Engine.OpsOfNote` | opensync/core/src/nm2/src/nm2_dhcp_lease.c:244-297 | an announcement issues at most one request: none exactly for the unspecified IP; it selects by the formatted MAC and deletes exactly for a release |
| `Engine.OpsOfKinds` | opensync/core/src/nm2/src/nm2_dhcp_lease.c:324-355 | a run of acquisitions issues upserts only |
| `Engine.LeaseEngine.constructor` | opensync/core/src/nm2/src/nm2_dhcp_lease.c:157-163 | both indexes start empty, and nothing has been issued |
| `Engine.LeaseEngine.Announce` | opensync/core/src/nm2/src/nm2_dhcp_lease.c:227-298 | issues the announcement's request, leaves both indexes alone, returns true |
| `Engine.LeaseEngine.SyncAdd` | opensync/core/src/nm2/src/nm2_dhcp_lease.c:108-152 | updates both indexes in place to the state of `Reconcile.Step` and issues its announcements |
| `Engine.LeaseEngine.AddNext` | opensync/core/src/nm2/src/nm2_dhcp_lease.c:218-221 | one turn of the walk keeps the rest of the rebuild what it was |
| `Engine.LeaseEngine.Resync` | opensync/core/src/nm2/src/nm2_dhcp_lease.c:215-222 | the loop leaves both indexes as `Reconcile.Rebuild` says and issues its announcements in order |
| `Engine.LeaseEngine.Apply` | opensync/core/src/nm2/src/nm2_dhcp_lease.c:174-209 | (corrected release) the in-place tree update; it stops exactly for an unknown release and otherwise reaches the state of `Reconcile.Mutate` |
| `Engine.LeaseEngine.Forget` | opensync/core/src/nm2/src/nm2_dhcp_lease.c:189-197 | (corrected release) the in-place release reaches the state and announcements of `Reconcile.Release` |
| `Engine.LeaseEngine.Notify` | opensync/core/src/nm2/src/nm2_dhcp_lease.c:167-225 | (corrected release) a whole call: the state of `Reconcile.Event`, its requests issued in order, the invariant kept, true returned |
| `Scenarios.FirstAcquired` | opensync/core/src/nm2/src/nm2_dhcp_lease.c:114-123 | 00:11:22:33:44:55 on 192.168.1.10 for 3600 s from empty indexes: one marked node, filed, announced |
| `Scenarios.SecondTakesOver` | opensync/core/src/nm2/src/nm2_dhcp_lease.c:136-139 | the same device on 192.168.1.11 for 7200 s takes the entry over with nothing announced |
| `Scenarios.TakeoverReleaseDangles` | opensync/core/src/nm2/src/nm2_dhcp_lease.c:192-195 | after a silent takeover from a settled state, the new entry's node is unmarked: releasing it as written leaves a dangling entry, while the corrected release delists and announces it |
| `Scenarios.DanglingExample` | opensync/core/src/nm2/src/nm2_dhcp_lease.c:192-195 | releasing 192.168.1.11 as written leaves the synclist pointing at a removed node |
| `Scenarios.SecondReleased` | opensync/core/src/nm2/src/nm2_dhcp_lease.c:189-197 | the corrected release of 192.168.1.11 drops the device's entry and announces the release |
| `Scenarios.CorrectedReleaseExample` | opensync/core/src/nm2/src/nm2_dhcp_lease.c:189-222 | the whole corrected release: released 192.168.1.11, then 192.168.1.10 refiled and announced |
| `Scenarios.ShortAfterFirst` | opensync/core/src/nm2/src/nm2_dhcp_lease.c:199-204 | a shorter lease on 192.168.1.11 is filed beside the entry with nothing announced |
| `Scenarios.LongerRenewal` | opensync/core/src/nm2/src/nm2_dhcp_lease.c:136-139 | renewing that node for 7200 s moves the entry to it silently, its update still pending |
| `Scenarios.DeferredRefresh` | opensync/core/src/nm2/src/nm2_dhcp_lease.c:145-149 | the renewal's own rebuild announces nothing, and the next rebuild, with no change in between, announces the renewed lease |
| `Scenarios.FirstReleased` | opensync/core/src/nm2/src/nm2_dhcp_lease.c:189-197 | releasing the marked entry 192.168.1.10 beside 192.168.1.11: as written and corrected agree, and the entry goes with a release |
| `Scenarios.MarkedReleaseExample` | opensync/core/src/nm2/src/nm2_dhcp_lease.c:189-222 | the whole release of that marked entry: released 192.168.1.10, then 192.168.1.11 filed, marked and announced |
| `Scenarios.ShortFlagged` | opensync/core/src/nm2/src/nm2_dhcp_lease.c:205-209 | renewing the unlisted 192.168.1.11 in place flags it pending, announces nothing, and keeps the state settled |
| `Scenarios.ThirdFiled` | opensync/core/src/nm2/src/nm2_dhcp_lease.c:199-204 | a shorter 192.168.1.12 is then filed last, unmarked, with nothing announced |
| `Scenarios.PendingFirstReleased` | opensync/core/src/nm2/src/nm2_dhcp_lease.c:189-197 | releasing the marked entry 192.168.1.10 from there: as written and corrected agree; the entry goes with a release |
| `Scenarios.DoubleRebuild` | opensync/core/src/nm2/src/nm2_dhcp_lease.c:114-122 | the rebuild that follows files 192.168.1.11 as new and announces it, then the merge with 192.168.1.12 announces its pending update again |
| `Scenarios.DoubleAnnouncement` | opensync/core/src/nm2/src/nm2_dhcp_lease.c:167-225 | the whole event from that settled state announces the release of 192.168.1.10 and then 192.168.1.11 twice |
| `Scenarios.StaleMarkReleased` | opensync/core/src/nm2/src/nm2_dhcp_lease.c:192-195 | after the takeover, 192.168.1.10 is still marked but no longer the entry; as written and corrected, its release drops the device's live entry and announces 192.168.1.10 released |
| `Scenarios.StaleMarkExample` | opensync/core/src/nm2/src/nm2_dhcp_lease.c:167-225 | the whole event: 192.168.1.10 released, then 192.168.1.11, the entry throughout, filed and announced again |

## Left out

- The internals of `ds_tree` and `synclist` are not part of this model. The tree is its in-order content. The synclist behaves as stated at the head of `reconcile.dfy`. A node pointer is its (MAC, IP) key.
- `osn_mac_addr_cmp` and `osn_ip_addr_cmp` are not part of this model. They are taken to be lexicographic byte comparisons returning -1, 0 or 1. An IP address is modelled as an IPv4 address of four octets, with no prefix length and no IPv6 form.
- Addresses.MacText: assumes that `PRI_osn_mac_addr` is the lower-case format `%02x:%02x:%02x:%02x:%02x:%02x`. Its definition is not part of this model. `Addresses.MacTextLayout`, `Addresses.MacTextIsLower` and `Bridge.Publish` rest on that assumption.
- Logging, `calloc`/`free`, and the `data` argument and `dhcp_lease_synclist_data` are left out. The argument is ignored by the bridge.
- The `#else` build (nm2_dhcp_lease.c:232-240) and its `inet_addr` where-condition (320-321) are left out. `WAR_ESW_3313` is defined.
- The store's transport and the JSON encoding are left out. A request is recorded; acceptance is a parameter of `Bridge.TableUpdate`. The result of `__nm2_dhcp_lease_notify` does not depend on it.
- Engine.LeaseEngine.Announce: issues requests as if the store always accepts. Neither the request nor the returned value depends on the answer (`Bridge.PublishIgnoresStore`).
- Buffer truncation by `snprintf` and `strscpy` is left out. Strings are copied in full.
- `dl_leasetime` is a real number standing in for a double. Rounding is not modelled.
- Bridge.Trunc: does not model the undefined `(int)` conversion of a value outside the range of `int`.
- EventCases.AcquireNewDevice: stated from a settled state only; see the note on pending entries below.
- EventCases.AcquireShorter: stated from a settled state only; see the note on pending entries below.
- EventCases.AcquireTakeover: stated from a settled state only; see the note on pending entries below.
- EventCases.OverwriteHidden: stated from a settled state only; see the note on pending entries below.
- EventCases.Refresh: stated from a settled state only; see the note on pending entries below.
- EventCases.ReleaseHidden: stated from a settled state only; see the note on pending entries below.
- EventCases.ReleaseLast: stated from a settled state only; see the note on pending entries below.
- EventCases.AcquireReleaseRoundTrip: stated from a settled state only; see the note on pending entries below.
- Pending entries: a reachable state can hold an entry whose update is pending (`Scenarios.LongerRenewal`, `Scenarios.RenewedPending`). From such a state an event's rebuild can also announce that entry (`Scenarios.DeferredRefresh`, `Settle.SettlingPassNotes`). So the announcements and flags stated by the `EventCases` lemmas are not promised from such a state.
- Event-level results are stated for these cases only: a new device; a new address shorter or longer than the entry; an overwrite of a non-entry node no longer than the entry; a renewal of the entry no shorter than the device's other leases; a release of an unlisted node; a release of a device's only node. Two further cases are covered only by the invariants (`Reconcile.Event`, `Settle.EventThenIdle`) and by the concrete runs in `Scenarios`:
  - an overwrite that makes a lease shorter than a sibling, or a non-entry lease longer than the entry;
  - the release of an entry whose device has other leases (`Scenarios.MarkedReleaseExample`, `Scenarios.DoubleAnnouncement`, `Scenarios.CorrectedReleaseExample`);
  - the release of a marked node that no longer backs its device's entry (`Scenarios.StaleMarkExample`).

## Findings

| source | as written | input that shows it | evidently intended | confidence | as-written member | corrected member |
|---|---|---|---|---|---|---|
| opensync/core/src/nm2/src/nm2_dhcp_lease.c:192-195 | The release calls `synclist_del` only when `dl_sync` is set. A node that took the entry over silently (lines 136-139) has `dl_sync` clear. Its release frees the node while the synclist still points at it, and announces nothing. | acquire 00:11:22:33:44:55 on 192.168.1.10 for 3600 s, acquire it on 192.168.1.11 for 7200 s, release 192.168.1.11 | the node backing a device's entry leaves the synclist when released: the release is announced and the entry rebuilt from the remaining leases | not executed | `Scenarios.DanglingExample` | `Scenarios.CorrectedReleaseExample` |

Together with `Scenarios.TakeoverReleaseDangles`:
- `Reconcile.ReleaseAsWritten` is the release as written;
- `Reconcile.Release` is the corrected one, which delists a node when it is marked or backs its device's entry;
- `Reconcile.ReleaseDiffers` shows that the two differ exactly on the release of an unmarked node that backs its entry;
- they agree on a marked node that no longer backs its entry: both call `synclist_del` and drop the device's live entry (`Scenarios.StaleMarkReleased`);
- these members are built on the corrected release, and their rows say "(corrected release)": `Reconcile.Mutate`, `Reconcile.Event`, `Settle.EventThenIdle`, `Events.ReleasePresent`, `EventCases.ReleaseHidden`, `EventCases.ReleaseLast`, `EventCases.AcquireReleaseRoundTrip`, `Engine.LeaseEngine.Apply`, `Engine.LeaseEngine.Forget` and `Engine.LeaseEngine.Notify`.
