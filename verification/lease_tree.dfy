/**
 * The primary lease index dhcp_lease_list: an ordered tree keyed by
 * (MAC, IP) through the tree comparator, modelled by its in-order content,
 * a strictly sorted sequence of nodes.
 */
module LeaseTree {
  import opened Wrappers
  import opened Addresses
  import opened Leases

  /** struct dhcp_lease_node: the lease and its two flags. */
  datatype Node = Node(
    lease: Lease,
    sync: bool,     // dl_sync: present on the synclist
    updated: bool)  // dl_updated: update pending

  function NodeKey(n: Node): Key
  {
    KeyOf(n.lease)
  }

  /** The tree's in-order traversal: strictly increasing in the tree order. */
  ghost predicate Sorted(t: seq<Node>)
  {
    forall i, j :: 0 <= i < j < |t| ==> Less(t[i].lease, t[j].lease)
  }

  /** The keys present in the tree. */
  function Keys(t: seq<Node>): set<Key>
  {
    if |t| == 0 then {} else {NodeKey(t[0])} + Keys(t[1..])
  }

  /** Two trees that differ at most in node flags. */
  ghost predicate SameLeases(t: seq<Node>, u: seq<Node>)
  {
    |t| == |u| && forall i :: 0 <= i < |t| ==> t[i].lease == u[i].lease
  }

  /** Every node's key is among the tree's keys. */
  lemma {:induction false} KeysAt(t: seq<Node>, i: int)
    requires 0 <= i < |t|
    ensures NodeKey(t[i]) in Keys(t)
  {
    if i > 0 {
      KeysAt(t[1..], i - 1);
    }
  }

  /** Every key of the tree belongs to some node. */
  lemma {:induction false} KeysWitness(t: seq<Node>, k: Key) returns (i: nat)
    requires k in Keys(t)
    ensures i < |t| && NodeKey(t[i]) == k
  {
    if NodeKey(t[0]) == k {
      i := 0;
    } else {
      var j := KeysWitness(t[1..], k);
      i := j + 1;
    }
  }

  /** The keys of a concatenation. */
  lemma {:induction false} KeysConcat(a: seq<Node>, b: seq<Node>)
    ensures Keys(a + b) == Keys(a) + Keys(b)
  {
    if |a| == 0 {
      assert a + b == b;
    } else {
      assert (a + b)[1..] == a[1..] + b;
      KeysConcat(a[1..], b);
    }
  }

  /** Replacing a node by one with the same key keeps the keys. */
  lemma {:induction false} KeysUpdate(t: seq<Node>, i: nat, n: Node)
    requires i < |t| && NodeKey(n) == NodeKey(t[i])
    ensures Keys(t[i := n]) == Keys(t)
  {
    if i > 0 {
      assert t[i := n][1..] == t[1..][i - 1 := n];
      KeysUpdate(t[1..], i - 1, n);
    }
  }

  /** A sorted tree holds at most one node per (MAC, IP). */
  lemma SortedKeysUnique(t: seq<Node>, i: int, j: int)
    requires Sorted(t)
    requires 0 <= i < |t| && 0 <= j < |t| && i != j
    ensures NodeKey(t[i]) != NodeKey(t[j])
  {
    if i < j {
      LessTotal(t[i].lease, t[j].lease);
    } else {
      LessTotal(t[j].lease, t[i].lease);
    }
  }

  /**
   * The nodes of one device are consecutive in traversal order: a node that
   * sorts between two nodes of a device belongs to that device.
   */
  lemma SameDeviceContiguous(t: seq<Node>, i: int, j: int, k: int)
    requires Sorted(t)
    requires 0 <= i < j < k < |t|
    requires t[i].lease.hwaddr == t[k].lease.hwaddr
    ensures t[j].lease.hwaddr == t[i].lease.hwaddr
  {
    var a, b, c := t[i].lease, t[j].lease, t[k].lease;
    if b.hwaddr != a.hwaddr {
      LessRefinesSyncCmp(a, b);
      LessRefinesSyncCmp(b, c);
      CompareTrans(a.hwaddr, b.hwaddr, c.hwaddr);
      CompareZero(a.hwaddr, c.hwaddr);
      assert false;
    }
  }

  /** Flag changes keep the tree sorted and keep its keys. */
  lemma {:induction false} SameLeasesKeep(t: seq<Node>, u: seq<Node>)
    requires SameLeases(t, u)
    ensures Sorted(t) ==> Sorted(u)
    ensures Keys(t) == Keys(u)
  {
    if |t| > 0 {
      SameLeasesKeep(t[1..], u[1..]);
    }
  }

  /**
   * ds_tree_find: the position of the node whose key compares equal to the
   * probe's, if any.
   */
  function Find(t: seq<Node>, probe: Lease): (r: Option<nat>)
    ensures r.Some? ==> r.value < |t| && NodeKey(t[r.value]) == KeyOf(probe)
    ensures r.Some? <==> KeyOf(probe) in Keys(t)
  {
    if |t| == 0 then None
    else
      LeaseCmpZero(t[0].lease, probe);
      if LeaseCmp(t[0].lease, probe) == 0 then Some(0)
      else match Find(t[1..], probe)
        case None => None
        case Some(j) => Some(j + 1)
  }

  /** The position of the first node with key k (dereferencing a stored node pointer). */
  function IndexOf(t: seq<Node>, k: Key): (i: nat)
    requires k in Keys(t)
    ensures i < |t| && NodeKey(t[i]) == k
  {
    if NodeKey(t[0]) == k then 0 else IndexOf(t[1..], k) + 1
  }

  /** The node stored under key k. */
  function Lookup(t: seq<Node>, k: Key): (n: Node)
    requires k in Keys(t)
    ensures NodeKey(n) == k
  {
    t[IndexOf(t, k)]
  }

  /** In a sorted tree the node with key k is wherever a node with that key is found. */
  lemma LookupAt(t: seq<Node>, i: int)
    requires Sorted(t) && 0 <= i < |t|
    ensures NodeKey(t[i]) in Keys(t)
    ensures IndexOf(t, NodeKey(t[i])) == i && Lookup(t, NodeKey(t[i])) == t[i]
  {
    KeysAt(t, i);
    var j := IndexOf(t, NodeKey(t[i]));
    if j != i {
      SortedKeysUnique(t, i, j);
    }
  }

  /** Resolving a key depends only on the keys, so flag changes keep every node's position. */
  lemma {:induction false} IndexOfSameLeases(t: seq<Node>, u: seq<Node>, k: Key)
    requires SameLeases(t, u) && k in Keys(t)
    ensures k in Keys(u) && IndexOf(u, k) == IndexOf(t, k)
    ensures Lookup(u, k).lease == Lookup(t, k).lease
  {
    SameLeasesKeep(t, u);
    if NodeKey(t[0]) != k {
      IndexOfSameLeases(t[1..], u[1..], k);
    }
  }

  /**
   * Where a node with an absent key belongs: after every node that sorts
   * before it and before every node that sorts after it.
   */
  function InsertPos(t: seq<Node>, n: Node): (p: nat)
    requires Sorted(t) && NodeKey(n) !in Keys(t)
    ensures p <= |t|
    ensures forall i :: 0 <= i < p ==> Less(t[i].lease, n.lease)
    ensures forall i :: p <= i < |t| ==> Less(n.lease, t[i].lease)
  {
    if |t| == 0 then 0
    else if Less(n.lease, t[0].lease) then
      forall j | 0 < j < |t| ensures Less(n.lease, t[j].lease) {
        LessTrans(n.lease, t[0].lease, t[j].lease);
      }
      0
    else
      LessTotal(t[0].lease, n.lease);
      var p := InsertPos(t[1..], n);
      assert forall i :: 1 <= i < |t| ==> t[i] == t[1..][i - 1];
      p + 1
  }

  /** ds_tree_insert of a node whose key is absent: the node lands at its place in the order. */
  function Insert(t: seq<Node>, n: Node): (r: seq<Node>)
    requires Sorted(t) && NodeKey(n) !in Keys(t)
    ensures Sorted(r)
    ensures |r| == |t| + 1
    ensures multiset(r) == multiset(t) + multiset{n}
    ensures Keys(r) == Keys(t) + {NodeKey(n)}
  {
    var p := InsertPos(t, n);
    InsertSorted(t, n, p);
    assert t[..p] + t[p..] == t;
    InsertKeys(t[..p], n, t[p..]);
    t[..p] + [n] + t[p..]
  }

  /** A node placed between the nodes that sort before it and those that sort after it keeps the order. */
  lemma InsertSorted(t: seq<Node>, n: Node, p: nat)
    requires Sorted(t) && p <= |t|
    requires forall i :: 0 <= i < p ==> Less(t[i].lease, n.lease)
    requires forall i :: p <= i < |t| ==> Less(n.lease, t[i].lease)
    ensures Sorted(t[..p] + [n] + t[p..])
  {
    var r := t[..p] + [n] + t[p..];
    assert forall j :: 0 <= j < p ==> r[j] == t[j];
    assert r[p] == n;
    assert forall j :: p < j < |r| ==> r[j] == t[j - 1];
    forall a, b | 0 <= a < b < |r| ensures Less(r[a].lease, r[b].lease) {
      if a < p && b > p {
        LessTrans(t[a].lease, n.lease, t[b - 1].lease);
      }
    }
  }

  /** The keys and contents after placing a node at p. */
  lemma InsertKeys(a: seq<Node>, n: Node, b: seq<Node>)
    ensures multiset(a + [n] + b) == multiset(a + b) + multiset{n}
    ensures Keys(a + [n] + b) == Keys(a + b) + {NodeKey(n)}
  {
    KeysSplice(a, [n], b);
    KeysSingleton(n);
  }

  lemma KeysSingleton(n: Node)
    ensures Keys([n]) == {NodeKey(n)}
  {
    assert [n][1..] == [];
  }

  /** The keys of three pieces put together. */
  lemma KeysSplice(a: seq<Node>, m: seq<Node>, b: seq<Node>)
    ensures Keys(a + m + b) == Keys(a) + Keys(m) + Keys(b)
    ensures Keys(a + b) == Keys(a) + Keys(b)
  {
    KeysConcat(a + m, b);
    KeysConcat(a, m);
    KeysConcat(a, b);
  }

  /** ds_tree_remove of the node at position i. */
  function RemoveAt(t: seq<Node>, i: nat): (r: seq<Node>)
    requires Sorted(t) && i < |t|
    ensures Sorted(r)
    ensures |r| == |t| - 1
    ensures multiset(r) == multiset(t) - multiset{t[i]}
    ensures Keys(r) == Keys(t) - {NodeKey(t[i])}
  {
    var r := t[..i] + t[i + 1..];
    assert t == t[..i] + [t[i]] + t[i + 1..];
    forall a, b | 0 <= a < b < |r| ensures Less(r[a].lease, r[b].lease) {
      var a', b' := if a < i then a else a + 1, if b < i then b else b + 1;
      assert r[a] == t[a'] && r[b] == t[b'];
    }
    RemoveKeys(t, i);
    r
  }

  /** The keys left after removing node i: all but node i's own, which no other node shares. */
  lemma RemoveKeys(t: seq<Node>, i: nat)
    requires Sorted(t) && i < |t|
    ensures Keys(t[..i] + t[i + 1..]) == Keys(t) - {NodeKey(t[i])}
  {
    var a, b := t[..i], t[i + 1..];
    assert t == a + [t[i]] + b;
    KeysSplice(a, [t[i]], b);
    if NodeKey(t[i]) in Keys(a + b) {
      var j := KeysWitness(a + b, NodeKey(t[i]));
      RemovedNodeElsewhere(t, i, j);
    }
  }

  /** No node left after removing node i shares its key. */
  lemma RemovedNodeElsewhere(t: seq<Node>, i: nat, j: nat)
    requires Sorted(t) && i < |t| && j < |t| - 1
    ensures NodeKey((t[..i] + t[i + 1..])[j]) != NodeKey(t[i])
  {
    var j' := if j < i then j else j + 1;
    assert (t[..i] + t[i + 1..])[j] == t[j'];
    SortedKeysUnique(t, i, j');
  }

  /** Where Insert puts the node: the nodes before it keep their places, the ones after move up by one. */
  lemma InsertAt(t: seq<Node>, n: Node) returns (p: nat)
    requires Sorted(t) && NodeKey(n) !in Keys(t)
    ensures p == InsertPos(t, n) && p <= |t| && Insert(t, n)[p] == n
    ensures forall j :: 0 <= j < p ==> Insert(t, n)[j] == t[j]
    ensures forall j :: p < j <= |t| ==> Insert(t, n)[j] == t[j - 1]
  {
    p := InsertPos(t, n);
  }

  /** Only the lease of a node decides where it is inserted. */
  lemma {:induction false} InsertPosLease(t: seq<Node>, x: Node, y: Node)
    requires Sorted(t) && NodeKey(x) !in Keys(t) && x.lease == y.lease
    ensures NodeKey(y) !in Keys(t) && InsertPos(t, x) == InsertPos(t, y)
  {
    if |t| > 0 && !Less(x.lease, t[0].lease) {
      InsertPosLease(t[1..], x, y);
    }
  }

  /** Changing the flags of a node just inserted is inserting it with those flags. */
  lemma InsertRelabel(t: seq<Node>, x: Node, y: Node)
    requires Sorted(t) && NodeKey(x) !in Keys(t) && x.lease == y.lease
    ensures NodeKey(y) !in Keys(t) && InsertPos(t, x) <= |t|
    ensures Insert(t, x)[InsertPos(t, x) := y] == Insert(t, y)
  {
    InsertPosLease(t, x, y);
    var p := InsertPos(t, x);
    assert Insert(t, x)[p := y] == t[..p] + [y] + t[p..];
  }

  /** Where RemoveAt leaves the other nodes: those before i keep their places, the ones after move down by one. */
  lemma RemovedAt(t: seq<Node>, i: nat)
    requires Sorted(t) && i < |t|
    ensures forall j :: 0 <= j < i ==> RemoveAt(t, i)[j] == t[j]
    ensures forall j :: i <= j < |t| - 1 ==> RemoveAt(t, i)[j] == t[j + 1]
  {
  }

  /** Removing a node just inserted gives back the tree it was inserted into. */
  lemma RemoveInserted(t: seq<Node>, n: Node)
    requires Sorted(t) && NodeKey(n) !in Keys(t)
    ensures InsertPos(t, n) < |Insert(t, n)| && Insert(t, n)[InsertPos(t, n)] == n
    ensures RemoveAt(Insert(t, n), InsertPos(t, n)) == t
  {
    var p := InsertAt(t, n);
    var u := Insert(t, n);
    RemovedAt(u, p);
    forall j | 0 <= j < |t| ensures RemoveAt(u, p)[j] == t[j] {
      if j >= p {
        assert RemoveAt(u, p)[j] == u[j + 1];
      }
    }
  }

  /** Inserting a node leaves the node found under every other key where it was. */
  lemma LookupInsert(t: seq<Node>, x: Node, k: Key)
    requires Sorted(t) && NodeKey(x) !in Keys(t) && k in Keys(t)
    ensures k in Keys(Insert(t, x)) && Lookup(Insert(t, x), k) == Lookup(t, k)
  {
    var u := Insert(t, x);
    var n := Lookup(t, k);
    assert n in multiset(t);
    assert n in multiset(u);
    var j :| 0 <= j < |u| && u[j] == n;
    LookupAt(u, j);
  }

  /** Replacing node p by one with the same key leaves every key's position unchanged. */
  lemma {:induction false} IndexOfUpdate(t: seq<Node>, p: nat, n: Node, k: Key)
    requires p < |t| && NodeKey(n) == NodeKey(t[p]) && k in Keys(t)
    ensures k in Keys(t[p := n]) && IndexOf(t[p := n], k) == IndexOf(t, k)
  {
    KeysUpdate(t, p, n);
    if NodeKey(t[0]) != k {
      assert t[p := n][1..] == if p == 0 then t[1..] else t[1..][p - 1 := n];
      if p > 0 {
        IndexOfUpdate(t[1..], p - 1, n, k);
      }
    }
  }

  /** Replacing node p by one with the same key leaves the node found under every other key. */
  lemma LookupUpdateOther(t: seq<Node>, p: nat, n: Node, k: Key)
    requires p < |t| && NodeKey(n) == NodeKey(t[p])
    requires k in Keys(t) && k != NodeKey(t[p])
    ensures k in Keys(t[p := n]) && Lookup(t[p := n], k) == Lookup(t, k)
  {
    IndexOfUpdate(t, p, n, k);
  }

  /** Replacing node p by one with the same key makes it the node found under that key. */
  lemma LookupUpdateSame(t: seq<Node>, p: nat, n: Node)
    requires Sorted(t) && p < |t| && NodeKey(n) == NodeKey(t[p])
    ensures NodeKey(t[p]) in Keys(t[p := n]) && Lookup(t[p := n], NodeKey(t[p])) == n
  {
    LookupAt(t, p);
    IndexOfUpdate(t, p, n, NodeKey(t[p]));
  }

  /** Removing node i leaves the node found under every other key. */
  lemma LookupRemove(t: seq<Node>, i: nat, k: Key)
    requires Sorted(t) && i < |t| && k in Keys(t) && k != NodeKey(t[i])
    ensures k in Keys(RemoveAt(t, i)) && Lookup(RemoveAt(t, i), k) == Lookup(t, k)
  {
    var u := RemoveAt(t, i);
    var n := Lookup(t, k);
    assert n in multiset(t) && n != t[i];
    assert n in multiset(u);
    var j :| 0 <= j < |u| && u[j] == n;
    LookupAt(u, j);
  }
}
