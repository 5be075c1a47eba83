/**
 * The lease record (struct osn_dhcp_server_lease) and the two comparators
 * that key the engine's indexes: the tree comparator orders by hardware
 * address and then by IP address; the synclist comparator looks at the
 * hardware address only.
 */
module Leases {
  import opened Addresses

  /** A lease as reported by the DHCP server; dl_leasetime is a floating-point number of seconds. */
  datatype Lease = Lease(
    hwaddr: Mac,
    ipaddr: Ip,
    hostname: string,
    fingerprint: string,
    vendorclass: string,
    leasetime: real)

  /** The part of a lease the tree is keyed on. */
  datatype Key = Key(mac: Mac, ip: Ip)

  function KeyOf(l: Lease): Key
  {
    Key(l.hwaddr, l.ipaddr)
  }

  /** osn_dhcp_server_lease_cmp: hardware address first, IP address second. */
  function LeaseCmp(a: Lease, b: Lease): (rc: int)
  {
    var rc := Compare(a.hwaddr, b.hwaddr);
    if rc != 0 then rc
    else
      var rc := Compare(a.ipaddr, b.ipaddr);
      if rc != 0 then rc else 0
  }

  /** osn_dhcp_server_lease_sync_cmp: hardware address only. */
  function SyncCmp(a: Lease, b: Lease): (rc: int)
  {
    Compare(a.hwaddr, b.hwaddr)
  }

  /** The tree order: a sorts strictly before b. */
  predicate Less(a: Lease, b: Lease)
  {
    LeaseCmp(a, b) < 0
  }

  /** The tree comparator returns 0 exactly when both MAC and IP agree. */
  lemma LeaseCmpZero(a: Lease, b: Lease)
    ensures LeaseCmp(a, b) == 0 <==> KeyOf(a) == KeyOf(b)
  {
    CompareZero(a.hwaddr, b.hwaddr);
    CompareZero(a.ipaddr, b.ipaddr);
  }

  /** The tree comparator is antisymmetric. */
  lemma LeaseCmpFlip(a: Lease, b: Lease)
    ensures LeaseCmp(b, a) == -LeaseCmp(a, b)
  {
    CompareFlip(a.hwaddr, b.hwaddr);
    CompareFlip(a.ipaddr, b.ipaddr);
  }

  /** Two leases with different keys are ordered one way or the other. */
  lemma LessTotal(a: Lease, b: Lease)
    ensures KeyOf(a) == KeyOf(b) || Less(a, b) || Less(b, a)
    ensures !(Less(a, b) && Less(b, a))
    ensures Less(a, b) ==> KeyOf(a) != KeyOf(b)
  {
    LeaseCmpZero(a, b);
    LeaseCmpFlip(a, b);
  }

  /** The tree order is transitive. */
  lemma LessTrans(a: Lease, b: Lease, c: Lease)
    requires Less(a, b) && Less(b, c)
    ensures Less(a, c)
  {
    CompareZero(a.hwaddr, b.hwaddr);
    CompareZero(b.hwaddr, c.hwaddr);
    if a.hwaddr == b.hwaddr && b.hwaddr == c.hwaddr {
      CompareTrans(a.ipaddr, b.ipaddr, c.ipaddr);
    } else if a.hwaddr == b.hwaddr {
      assert Compare(a.hwaddr, c.hwaddr) == Compare(b.hwaddr, c.hwaddr);
    } else if b.hwaddr == c.hwaddr {
      assert Compare(a.hwaddr, c.hwaddr) == Compare(a.hwaddr, b.hwaddr);
    } else {
      CompareTrans(a.hwaddr, b.hwaddr, c.hwaddr);
    }
  }

  /** The synclist comparator returns 0 exactly for leases of the same device. */
  lemma SyncCmpZero(a: Lease, b: Lease)
    ensures SyncCmp(a, b) == 0 <==> a.hwaddr == b.hwaddr
  {
    CompareZero(a.hwaddr, b.hwaddr);
  }

  /**
   * The tree order refines the synclist order: two leases of different
   * devices are ordered in the tree as their hardware addresses are.
   */
  lemma LessRefinesSyncCmp(a: Lease, b: Lease)
    requires a.hwaddr != b.hwaddr
    ensures Less(a, b) <==> SyncCmp(a, b) < 0
  {
    CompareZero(a.hwaddr, b.hwaddr);
  }
}
