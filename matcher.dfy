/**
 * The device matcher: every present USB and PC Card device is compared with
 * every catalog entry before the sentinel, and each match is prepended to
 * the fresh reader list as a device record holding a copy of the entry.
 */
module Matcher {
  import opened HotplugTypes
  import opened Catalog

  /** A catalog entry applies to a device when vendor and product ids agree; the address plays no part. */
  predicate Matches(e: Driver, p: Probe)
  {
    e.vendorId == p.vendorId && e.productId == p.productId
  }

  /** HPDriverCopy: the copy carries the same ids and equal strings, so it is equal to the original as a value. */
  function DriverCopy(rhs: Driver): (r: Driver)
    ensures r == rhs
  {
    Driver(rhs.vendorId, rhs.productId, rhs.friendlyName, rhs.libPath)
  }

  /**
   * HPDeviceListInsert. `allocates` is the outcome of the calloc of the new
   * node: on success the new record is prepended, on failure the list comes
   * back unchanged.
   */
  method Insert(list: seq<Device>, bundle: Driver, address: uint32, allocates: bool)
    returns (r: seq<Device>)
    ensures allocates ==> r == [Device(bundle, address)] + list
    ensures !allocates ==> r == list
  {
    if !allocates {
      return list;
    }
    var newReader := Device(DriverCopy(bundle), address);
    r := [newReader] + list;
  }

  /** The sequence in the opposite order. */
  function Reverse<T>(s: seq<T>): (r: seq<T>)
    ensures |r| == |s|
  {
    if s == [] then [] else [s[|s| - 1]] + Reverse(s[..|s| - 1])
  }

  /** Position k of the reversed sequence holds the k-th element from the end. */
  lemma {:induction false} ReverseAt<T>(s: seq<T>, k: nat)
    requires k < |s|
    ensures Reverse(s)[k] == s[|s| - 1 - k]
  {
    if k > 0 {
      ReverseAt(s[..|s| - 1], k - 1);
    }
  }

  lemma {:induction false} ReverseConcat<T>(a: seq<T>, b: seq<T>)
    ensures Reverse(a + b) == Reverse(b) + Reverse(a)
  {
    var r, q := Reverse(a + b), Reverse(b) + Reverse(a);
    assert |r| == |q|;
    forall k | 0 <= k < |r| ensures r[k] == q[k] {
      ReverseAt(a + b, k);
      if k < |b| {
        ReverseAt(b, k);
        assert q[k] == Reverse(b)[k];
      } else {
        ReverseAt(a, k - |b|);
        assert q[k] == Reverse(a)[k - |b|];
      }
    }
  }

  lemma ReverseMultiset<T>(s: seq<T>)
    ensures multiset(Reverse(s)) == multiset(s)
  {
    if s != [] {
      ReverseMultiset(s[..|s| - 1]);
      assert s == s[..|s| - 1] + [s[|s| - 1]];
    }
  }

  /**
   * The records one device yields, in catalog order: one for every catalog
   * entry that matches it, each carrying the device's address.
   */
  function Found(catalog: seq<Driver>, p: Probe): (r: seq<Device>)
    ensures |r| <= |catalog|
  {
    if catalog == [] then []
    else
      var e := catalog[|catalog| - 1];
      Found(catalog[..|catalog| - 1], p) + (if Matches(e, p) then [Device(DriverCopy(e), p.address)] else [])
  }

  /** The records of all devices, in the order the buses report them. */
  function Discovered(catalog: seq<Driver>, ps: seq<Probe>): seq<Device>
  {
    if ps == [] then []
    else Discovered(catalog, ps[..|ps| - 1]) + Found(catalog, ps[|ps| - 1])
  }

  /**
   * For a present device, the records gain exactly as many copies of an
   * entry as the catalog holds when the entry matches, and none otherwise.
   */
  lemma {:induction false} FoundCount(catalog: seq<Driver>, p: Probe, e: Driver)
    ensures multiset(Found(catalog, p))[Device(e, p.address)] ==
            if Matches(e, p) then multiset(catalog)[e] else 0
  {
    if catalog != [] {
      var n := |catalog| - 1;
      FoundCount(catalog[..n], p, e);
      assert catalog == catalog[..n] + [catalog[n]];
    }
  }

  /** A record of a device is a matching catalog entry labelled with the device's address, and conversely. */
  lemma {:induction false} FoundMembership(catalog: seq<Driver>, p: Probe, d: Device)
    ensures d in Found(catalog, p) <==>
            exists k :: 0 <= k < |catalog| && Matches(catalog[k], p) && d == Device(catalog[k], p.address)
  {
    if catalog != [] {
      var n := |catalog| - 1;
      FoundMembership(catalog[..n], p, d);
      if d in Found(catalog[..n], p) {
        var k :| 0 <= k < n && Matches(catalog[..n][k], p) && d == Device(catalog[..n][k], p.address);
        assert catalog[k] == catalog[..n][k];
      }
      if k :| 0 <= k < |catalog| && Matches(catalog[k], p) && d == Device(catalog[k], p.address) {
        if k < n {
          assert catalog[..n][k] == catalog[k];
        }
      }
    }
  }

  /**
   * Every record of the pass is a record of some reported device, and every
   * record of every reported device is in the pass.
   */
  lemma {:induction false} DiscoveredMembership(catalog: seq<Driver>, ps: seq<Probe>, d: Device)
    ensures d in Discovered(catalog, ps) <==> exists i :: 0 <= i < |ps| && d in Found(catalog, ps[i])
  {
    if ps != [] {
      var n := |ps| - 1;
      var previous := ps[..n];
      DiscoveredMembership(catalog, previous, d);
      assert Discovered(catalog, ps) == Discovered(catalog, previous) + Found(catalog, ps[n]);
      assert d in Discovered(catalog, ps) <==> d in Discovered(catalog, previous) || d in Found(catalog, ps[n]);
      if d in Discovered(catalog, previous) {
        var i :| 0 <= i < n && d in Found(catalog, previous[i]);
        assert ps[i] == previous[i];
      } else if d in Found(catalog, ps[n]) {
      } else {
        forall i | 0 <= i < |ps| ensures d !in Found(catalog, ps[i]) {
          if i < n {
            assert ps[i] == previous[i];
          }
        }
      }
    }
  }

  lemma {:induction false} DiscoveredConcat(catalog: seq<Driver>, a: seq<Probe>, b: seq<Probe>)
    ensures Discovered(catalog, a + b) == Discovered(catalog, a) + Discovered(catalog, b)
  {
    if b == [] {
      assert a + b == a;
    } else {
      var n := |b| - 1;
      var ab := a + b;
      assert ab[..|ab| - 1] == a + b[..n];
      assert ab[|ab| - 1] == b[n];
      DiscoveredConcat(catalog, a, b[..n]);
      assert Discovered(catalog, ab) == Discovered(catalog, a + b[..n]) + Found(catalog, b[n]);
      assert Discovered(catalog, b) == Discovered(catalog, b[..n]) + Found(catalog, b[n]);
    }
  }

  /**
   * Because every insertion prepends, the list built by the USB pass and
   * then the PC Card pass is the records in reverse discovery order.
   */
  lemma ReverseDiscoveryOrder(catalog: seq<Driver>, usb: seq<Probe>, pcCard: seq<Probe>)
    ensures Reverse(Discovered(catalog, pcCard)) + Reverse(Discovered(catalog, usb)) ==
            Reverse(Discovered(catalog, usb + pcCard))
  {
    DiscoveredConcat(catalog, usb, pcCard);
    ReverseConcat(Discovered(catalog, usb), Discovered(catalog, pcCard));
  }

  /**
   * A PC Card device without a VendorID property reads as vendor 0, which no
   * entry before the sentinel carries, so it never yields a record.
   */
  lemma {:induction false} NoVendorNeverMatches(catalog: seq<Driver>, d: PcCardDevice)
    requires forall k :: 0 <= k < |catalog| ==> catalog[k].vendorId != 0
    requires d.vendorId.None?
    ensures Found(catalog, PcCardProbe(d)) == []
  {
    if catalog != [] {
      NoVendorNeverMatches(catalog[..|catalog| - 1], d);
    }
  }

  /** One more catalog entry walked: a match is prepended to the list built so far. */
  lemma FoundStep(catalog: seq<Driver>, d: nat, p: Probe, built: seq<Device>, list: seq<Device>)
    requires d < |catalog|
    requires built == Reverse(Found(catalog[..d], p)) + list
    ensures (if Matches(catalog[d], p) then [Device(catalog[d], p.address)] + built else built) ==
            Reverse(Found(catalog[..d + 1], p)) + list
  {
    assert catalog[..d + 1][..d] == catalog[..d];
    ReverseConcat(Found(catalog[..d], p), if Matches(catalog[d], p) then [Device(catalog[d], p.address)] else []);
  }

  /** One more device walked: its reversed records are prepended. */
  lemma DiscoveredStep(catalog: seq<Driver>, ps: seq<Probe>, k: nat)
    requires k < |ps|
    ensures Reverse(Discovered(catalog, ps[..k + 1])) ==
            Reverse(Found(catalog, ps[k])) + Reverse(Discovered(catalog, ps[..k]))
  {
    assert ps[..k + 1][..k] == ps[..k];
    ReverseConcat(Discovered(catalog, ps[..k]), Found(catalog, ps[k]));
  }

  /**
   * The inner loop of the matchers: walk the vector up to its sentinel and
   * prepend a record for every entry whose ids equal the device's.
   */
  method MatchDevice(drivers: array<Driver>, p: Probe, list: seq<Device>) returns (list': seq<Device>)
    requires Terminated(drivers[..])
    ensures list' == Reverse(Found(Live(drivers[..]), p)) + list
  {
    LiveStopsInside(drivers[..]);
    ghost var live := Live(drivers[..]);
    list' := list;
    var d := 0;
    assert live[..d] == [];
    assert Reverse(Found(live[..d], p)) + list == list;
    while drivers[d].vendorId != 0
      invariant 0 <= d <= |live|
      invariant list' == Reverse(Found(live[..d], p)) + list
      decreases |live| - d
    {
      var driver := drivers[d];
      assert driver == live[d];
      FoundStep(live, d, p, list', list);
      if driver.vendorId == p.vendorId && driver.productId == p.productId {
        list' := Insert(list', driver, p.address, true);
      }
      d := d + 1;
    }
    assert live[..d] == live;
  }

  /**
   * The device loop of HPDriversMatchUSBDevices. Any IOKit failure while
   * walking the bus returns 1; the partly built list is then never used.
   */
  method MatchUsbDevices(drivers: array<Driver>, bus: Enumeration<UsbDevice>, list: seq<Device>)
    returns (istat: int, list': seq<Device>)
    requires Terminated(drivers[..])
    ensures bus.EnumFailed? ==> istat == 1 && list' == list
    ensures bus.Enumerated? ==>
      istat == 0 && list' == Reverse(Discovered(Live(drivers[..]), UsbProbes(bus.devices))) + list
  {
    if bus.EnumFailed? {
      return 1, list;
    }
    var devices := bus.devices;
    ghost var live := Live(drivers[..]);
    ghost var ps := UsbProbes(devices);
    list' := list;
    assert ps[..0] == [];
    assert Reverse(Discovered(live, ps[..0])) + list == list;
    for k := 0 to |devices|
      invariant list' == Reverse(Discovered(live, ps[..k])) + list
    {
      var dev := devices[k];
      assert UsbProbe(dev) == ps[k];
      list' := MatchDevice(drivers, UsbProbe(dev), list');
      DiscoveredStep(live, ps, k);
      assert list' == Reverse(Found(live, ps[k])) + (Reverse(Discovered(live, ps[..k])) + list);
    }
    assert ps[..|devices|] == ps;
    istat := 0;
  }

  /** The device loop of HPDriversMatchPCCardDevices, with absent properties read as 0. */
  method MatchPcCardDevices(drivers: array<Driver>, bus: Enumeration<PcCardDevice>, list: seq<Device>)
    returns (istat: int, list': seq<Device>)
    requires Terminated(drivers[..])
    ensures bus.EnumFailed? ==> istat == 1 && list' == list
    ensures bus.Enumerated? ==>
      istat == 0 && list' == Reverse(Discovered(Live(drivers[..]), PcCardProbes(bus.devices))) + list
  {
    if bus.EnumFailed? {
      return 1, list;
    }
    var devices := bus.devices;
    ghost var live := Live(drivers[..]);
    ghost var ps := PcCardProbes(devices);
    list' := list;
    assert ps[..0] == [];
    assert Reverse(Discovered(live, ps[..0])) + list == list;
    for k := 0 to |devices|
      invariant list' == Reverse(Discovered(live, ps[..k])) + list
    {
      var dev := devices[k];
      assert PcCardProbe(dev) == ps[k];
      list' := MatchDevice(drivers, PcCardProbe(dev), list');
      DiscoveredStep(live, ps, k);
      assert list' == Reverse(Found(live, ps[k])) + (Reverse(Discovered(live, ps[..k])) + list);
    }
    assert ps[..|devices|] == ps;
    istat := 0;
  }
}
