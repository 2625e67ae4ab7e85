/**
 * The reconciler: the fresh reader list is compared with the snapshot of
 * known readers under HPDeviceEquals; a record of the fresh list with no
 * equal record in the snapshot is added to the reader factory, a record of
 * the snapshot with no equal record in the fresh list is removed.
 */
module Reconciler {
  import opened HotplugTypes

  /** PCSCLITE_HP_BASE_PORT: reader ports are this offset plus the device address. */
  const BasePort: int := 0x200000

  /** `PCSCLITE_HP_BASE_PORT + a->m_address`, computed in 32-bit unsigned arithmetic. */
  function Port(address: uint32): uint32
  {
    ((BasePort + address as int) % 0x1_0000_0000) as uint32
  }

  /** Below the wrap-around point the port is the plain sum; address 5 gives port 0x200005. */
  lemma PortOffset(address: uint32)
    ensures address as int < 0x1_0000_0000 - BasePort ==> Port(address) as int == BasePort + address as int
    ensures address as int >= 0x1_0000_0000 - BasePort ==> Port(address) as int == BasePort + address as int - 0x1_0000_0000
    ensures Port(5) == 0x200005
  {
  }

  /** Distinct addresses give distinct ports, even across the wrap-around. */
  lemma PortInjective(a: uint32, b: uint32)
    ensures Port(a) == Port(b) <==> a == b
  {
    PortOffset(a);
    PortOffset(b);
  }

  /** HPDeviceEquals: same vendor id, same product id, same address. */
  predicate DeviceEquals(a: Device, b: Device)
  {
    a.driver.vendorId == b.driver.vendorId && a.driver.productId == b.driver.productId && a.address == b.address
  }

  /** The identity of a record; friendly name and library path are not part of it. */
  function Identity(d: Device): (uint32, uint32, uint32)
  {
    (d.driver.vendorId, d.driver.productId, d.address)
  }

  /**
   * Two records are equal exactly when their identities are; in particular
   * renaming or moving the driver library of either changes nothing.
   */
  lemma EqualsIsIdentity(a: Device, b: Device, name: Option<string>, path: Option<string>)
    ensures DeviceEquals(a, b) <==> Identity(a) == Identity(b)
    ensures DeviceEquals(a, b) <==> DeviceEquals(a.(driver := a.driver.(friendlyName := name, libPath := path)), b)
  {
  }

  /** Some record of `list` equals `d`: what the inner `found` loops look for. */
  predicate Contains(list: seq<Device>, d: Device)
  {
    exists j :: 0 <= j < |list| && DeviceEquals(d, list[j])
  }

  /** RFAddReader(friendlyName, base + address, libPath). */
  function AddFor(d: Device): ReaderCall
  {
    AddReader(d.driver.friendlyName, Port(d.address), d.driver.libPath)
  }

  /** RFRemoveReader(friendlyName, base + address). */
  function RemoveFor(d: Device): ReaderCall
  {
    RemoveReader(d.driver.friendlyName, Port(d.address))
  }

  /** The add calls for the records of `devices` absent from `snapshot`, in list order. */
  function Adds(devices: seq<Device>, snapshot: seq<Device>): (r: seq<ReaderCall>)
    ensures |r| <= |devices|
    ensures forall k :: 0 <= k < |r| ==> r[k].AddReader?
  {
    if devices == [] then []
    else
      var d := devices[|devices| - 1];
      Adds(devices[..|devices| - 1], snapshot) + (if Contains(snapshot, d) then [] else [AddFor(d)])
  }

  /** The remove calls for the records of `snapshot` absent from `devices`, in snapshot order. */
  function Removes(snapshot: seq<Device>, devices: seq<Device>): (r: seq<ReaderCall>)
    ensures |r| <= |snapshot|
    ensures forall k :: 0 <= k < |r| ==> r[k].RemoveReader?
  {
    if snapshot == [] then []
    else
      var d := snapshot[|snapshot| - 1];
      Removes(snapshot[..|snapshot| - 1], devices) + (if Contains(devices, d) then [] else [RemoveFor(d)])
  }

  /** An add call is made exactly for the records of the fresh list that the snapshot lacks. */
  lemma {:induction false} AddsMembership(devices: seq<Device>, snapshot: seq<Device>, c: ReaderCall)
    ensures c in Adds(devices, snapshot) <==>
            exists i :: 0 <= i < |devices| && !Contains(snapshot, devices[i]) && c == AddFor(devices[i])
  {
    if devices != [] {
      var n := |devices| - 1;
      AddsMembership(devices[..n], snapshot, c);
      if c in Adds(devices[..n], snapshot) {
        var i :| 0 <= i < n && !Contains(snapshot, devices[..n][i]) && c == AddFor(devices[..n][i]);
        assert devices[i] == devices[..n][i];
      }
      if i :| 0 <= i < |devices| && !Contains(snapshot, devices[i]) && c == AddFor(devices[i]) {
        if i < n {
          assert devices[..n][i] == devices[i];
        }
      }
    }
  }

  /** A remove call is made exactly for the records of the snapshot that the fresh list lacks. */
  lemma {:induction false} RemovesMembership(snapshot: seq<Device>, devices: seq<Device>, c: ReaderCall)
    ensures c in Removes(snapshot, devices) <==>
            exists i :: 0 <= i < |snapshot| && !Contains(devices, snapshot[i]) && c == RemoveFor(snapshot[i])
  {
    if snapshot != [] {
      var n := |snapshot| - 1;
      RemovesMembership(snapshot[..n], devices, c);
      if c in Removes(snapshot[..n], devices) {
        var i :| 0 <= i < n && !Contains(devices, snapshot[..n][i]) && c == RemoveFor(snapshot[..n][i]);
        assert snapshot[i] == snapshot[..n][i];
      }
      if i :| 0 <= i < |snapshot| && !Contains(devices, snapshot[i]) && c == RemoveFor(snapshot[i]) {
        if i < n {
          assert snapshot[..n][i] == snapshot[i];
        }
      }
    }
  }

  /**
   * There is no de-duplication: every occurrence in the fresh list of a
   * record the snapshot lacks gets an add call of its own.
   */
  lemma {:induction false} AddsPerOccurrence(devices: seq<Device>, snapshot: seq<Device>, d: Device)
    requires !Contains(snapshot, d)
    ensures multiset(Adds(devices, snapshot))[AddFor(d)] >= multiset(devices)[d]
  {
    if devices != [] {
      var n := |devices| - 1;
      var previous, last := devices[..n], devices[n];
      AddsPerOccurrence(previous, snapshot, d);
      assert devices == previous + [last];
      var tail := if Contains(snapshot, last) then [] else [AddFor(last)];
      assert Adds(devices, snapshot) == Adds(previous, snapshot) + tail;
      assert multiset(Adds(devices, snapshot)) == multiset(Adds(previous, snapshot)) + multiset(tail);
      assert multiset(devices) == multiset(previous) + multiset{last};
      if last == d {
        assert tail == [AddFor(d)];
      }
    }
  }

  /** No add call is made exactly when every fresh record has an equal record in the snapshot. */
  lemma {:induction false} AddsEmptyIff(devices: seq<Device>, snapshot: seq<Device>)
    ensures Adds(devices, snapshot) == [] <==> forall i :: 0 <= i < |devices| ==> Contains(snapshot, devices[i])
  {
    if devices != [] {
      var n := |devices| - 1;
      AddsEmptyIff(devices[..n], snapshot);
      assert forall i :: 0 <= i < n ==> devices[..n][i] == devices[i];
    }
  }

  /** No remove call is made exactly when every snapshot record has an equal record in the fresh list. */
  lemma {:induction false} RemovesEmptyIff(snapshot: seq<Device>, devices: seq<Device>)
    ensures Removes(snapshot, devices) == [] <==> forall i :: 0 <= i < |snapshot| ==> Contains(devices, snapshot[i])
  {
    if snapshot != [] {
      var n := |snapshot| - 1;
      RemovesEmptyIff(snapshot[..n], devices);
      assert forall i :: 0 <= i < n ==> snapshot[..n][i] == snapshot[i];
    }
  }

  /** The two lists are equal record by record under HPDeviceEquals. */
  predicate ElementwiseEqual(a: seq<Device>, b: seq<Device>)
  {
    |a| == |b| && forall i :: 0 <= i < |a| ==> DeviceEquals(a[i], b[i])
  }

  /** A fresh list equal to the snapshot record by record produces no call at all. */
  lemma NoCallsWhenUnchanged(devices: seq<Device>, snapshot: seq<Device>)
    requires ElementwiseEqual(devices, snapshot)
    ensures Adds(devices, snapshot) + Removes(snapshot, devices) == []
  {
    forall i | 0 <= i < |devices| ensures Contains(snapshot, devices[i]) {
      assert DeviceEquals(devices[i], snapshot[i]);
    }
    forall i | 0 <= i < |snapshot| ensures Contains(devices, snapshot[i]) {
      assert DeviceEquals(devices[i], snapshot[i]);
    }
    AddsEmptyIff(devices, snapshot);
    RemovesEmptyIff(snapshot, devices);
  }

  /** Every add call of a pass comes before every remove call. */
  lemma AddsBeforeRemoves(devices: seq<Device>, snapshot: seq<Device>)
    ensures var calls := Adds(devices, snapshot) + Removes(snapshot, devices);
            forall i, j :: 0 <= i < j < |calls| && calls[i].RemoveReader? ==> calls[j].RemoveReader?
  {
  }

  /**
   * The two nested loops of HPSearchHotPluggables: first an add call for
   * every fresh record with no equal record in the snapshot, then a remove
   * call for every snapshot record with no equal record in the fresh list.
   */
  method Diff(devices: seq<Device>, snapshot: seq<Device>) returns (calls: seq<ReaderCall>)
    ensures calls == Adds(devices, snapshot) + Removes(snapshot, devices)
  {
    calls := [];
    var a := 0;
    while a < |devices|
      invariant 0 <= a <= |devices|
      invariant calls == Adds(devices[..a], snapshot)
    {
      var found := false;
      var b := 0;
      while b < |snapshot|
        invariant 0 <= b <= |snapshot|
        invariant !found
        invariant forall j :: 0 <= j < b ==> !DeviceEquals(devices[a], snapshot[j])
      {
        if DeviceEquals(devices[a], snapshot[b]) {
          found := true;
          break;
        }
        b := b + 1;
      }
      assert found <==> Contains(snapshot, devices[a]);
      if !found {
        calls := calls + [AddFor(devices[a])];
      }
      assert devices[..a + 1][..a] == devices[..a];
      a := a + 1;
    }
    assert devices[..a] == devices;
    ghost var adds := calls;
    a := 0;
    while a < |snapshot|
      invariant 0 <= a <= |snapshot|
      invariant calls == adds + Removes(snapshot[..a], devices)
    {
      var found := false;
      var b := 0;
      while b < |devices|
        invariant 0 <= b <= |devices|
        invariant !found
        invariant forall j :: 0 <= j < b ==> !DeviceEquals(snapshot[a], devices[j])
      {
        if DeviceEquals(snapshot[a], devices[b]) {
          found := true;
          break;
        }
        b := b + 1;
      }
      assert found <==> Contains(devices, snapshot[a]);
      if !found {
        calls := calls + [RemoveFor(snapshot[a])];
      }
      assert snapshot[..a + 1][..a] == snapshot[..a];
      a := a + 1;
    }
    assert snapshot[..a] == snapshot;
  }
}
