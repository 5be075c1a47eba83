/**
 * The persistence bridge: __nm2_dhcp_lease_notify turns one decision of the
 * reconciler into a DHCP_leased_IP row, and nm2_dhcp_table_update turns that
 * row into a delete or an upsert selected by the lower-cased hardware
 * address. The store itself is outside the model: an operation is recorded,
 * and whether the store accepted it is a parameter.
 */
module Bridge {
  import opened Wrappers
  import opened Addresses
  import opened Leases

  /** struct schema_DHCP_leased_IP, with every *_exists flag set. */
  datatype Row = Row(
    hwaddr: string,
    inetAddr: string,
    hostname: string,
    fingerprint: string,
    vendorClass: string,
    leaseTime: int)

  /** One condition "column == value" of a where-clause. */
  datatype Cond = Cond(column: string, value: string)

  /** The request issued to the store. */
  datatype StoreOp =
    | DeleteWhere(where: seq<Cond>)
    | UpsertWhere(where: seq<Cond>, row: Row)

  /** What nm2_dhcp_table_update issued and what it returned. */
  datatype Update = Update(op: StoreOp, ok: bool)

  /** What __nm2_dhcp_lease_notify issued (nothing when skipping) and what it returned. */
  datatype Published = Published(op: Option<StoreOp>, ok: bool)

  /** The C conversion (int) of a double: truncation toward zero. */
  function Trunc(x: real): (n: int)
    ensures -1.0 < (n as real) - x < 1.0
    ensures x >= 0.0 ==> 0 <= n && n as real <= x
    ensures x <= 0.0 ==> n <= 0 && x <= n as real
  {
    if x >= 0.0 then x.Floor else -((-x).Floor)
  }

  /**
   * The lease_time column: 0 for a release; for an acquisition the truncated
   * lease time, except that 0 becomes the sentinel -1.
   */
  function LeaseTime(released: bool, l: Lease): (t: int)
    ensures released ==> t == 0
    ensures !released ==> t != 0 && (t == Trunc(l.leasetime) || (t == -1 && Trunc(l.leasetime) == 0))
  {
    if released then 0
    else
      var t := Trunc(l.leasetime);
      if t == 0 then -1 else t
  }

  /** The row written for a lease (strings are copied in full). */
  function ToRow(released: bool, l: Lease): (r: Row)
    ensures r.hwaddr == MacText(l.hwaddr) && r.inetAddr == IpText(l.ipaddr)
    ensures r.hostname == l.hostname && r.fingerprint == l.fingerprint && r.vendorClass == l.vendorclass
    ensures r.leaseTime == LeaseTime(released, l)
    ensures r.leaseTime == 0 <==> released
    ensures NoUpper(r.hwaddr) && |r.hwaddr| == 17
  {
    MacTextIsLower(l.hwaddr);
    Row(MacText(l.hwaddr), IpText(l.ipaddr), l.hostname, l.fingerprint, l.vendorclass,
        LeaseTime(released, l))
  }

  /** The where-clause: the lower-cased hardware address and nothing else. */
  function Where(row: Row): (w: seq<Cond>)
    ensures |w| == 1 && w[0].column == "hwaddr"
  {
    [Cond("hwaddr", Lower(row.hwaddr))]
  }

  /**
   * nm2_dhcp_table_update: delete the selected rows when lease_time is 0,
   * upsert the row otherwise; the result is whether the store accepted it.
   */
  function TableUpdate(row: Row, accepted: bool): (u: Update)
    ensures u.ok == accepted
    ensures u.op.where == Where(row)
    ensures u.op.DeleteWhere? <==> row.leaseTime == 0
    ensures u.op.UpsertWhere? ==> u.op.row == row
  {
    var where := Where(row);
    if row.leaseTime == 0 then Update(DeleteWhere(where), accepted)
    else Update(UpsertWhere(where, row), accepted)
  }

  /**
   * __nm2_dhcp_lease_notify: skip leases on the unspecified address,
   * otherwise hand the row to the table update. It reports success even
   * when the store refused the request.
   */
  function Publish(released: bool, l: Lease, accepted: bool): (p: Published)
    ensures p.ok
    ensures p.op.None? <==> l.ipaddr == IpAny
    ensures p.op.Some? ==> p.op.value.where == [Cond("hwaddr", MacText(l.hwaddr))]
    ensures p.op.Some? ==> (p.op.value.DeleteWhere? <==> released)
    ensures p.op.Some? && !released ==>
      p.op.value.row == ToRow(false, l) && p.op.value.row.leaseTime != 0
  {
    if l.ipaddr == IpAny then Published(None, true)
    else
      var u := TableUpdate(ToRow(released, l), accepted);
      MacTextIsLower(l.hwaddr);
      Published(Some(u.op), true)
  }

  /** A release always deletes and an acquisition never does, whatever the lease time. */
  lemma AcquisitionNeverDeletes(l: Lease, accepted: bool)
    ensures TableUpdate(ToRow(true, l), accepted).op.DeleteWhere?
    ensures TableUpdate(ToRow(false, l), accepted).op.UpsertWhere?
    ensures Trunc(l.leasetime) == 0 ==> TableUpdate(ToRow(false, l), accepted).op.row.leaseTime == -1
  {
  }

  /**
   * The selection ignores the address column and the case of the hardware
   * address: rows for the same device select the same store rows.
   */
  lemma WhereIgnoresAddress(r1: Row, r2: Row)
    requires Lower(r1.hwaddr) == Lower(r2.hwaddr)
    ensures Where(r1) == Where(r2)
  {
  }

  /** Rows of different devices select different store rows. */
  lemma WhereSeparatesDevices(b1: bool, l1: Lease, b2: bool, l2: Lease)
    requires l1.hwaddr != l2.hwaddr
    ensures Where(ToRow(b1, l1)) != Where(ToRow(b2, l2))
  {
    MacTextIsLower(l1.hwaddr);
    MacTextIsLower(l2.hwaddr);
    if Where(ToRow(b1, l1)) == Where(ToRow(b2, l2)) {
      assert Where(ToRow(b1, l1))[0].value == Where(ToRow(b2, l2))[0].value;
      MacTextInjective(l1.hwaddr, l2.hwaddr);
    }
  }

  /** What is sent to the store, and what the caller is told, do not depend on the store's answer. */
  lemma PublishIgnoresStore(released: bool, l: Lease, a: bool, b: bool)
    ensures Publish(released, l, a) == Publish(released, l, b)
  {
  }
}
