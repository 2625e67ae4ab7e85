/**
 * One rescan of HPSearchHotPluggables and the state it keeps between
 * rescans: the driver catalog is rebuilt, the USB and then the PC Card bus
 * are matched against it, the fresh list is reconciled with the list of
 * known readers, and the fresh list becomes the known list.
 */
module Hotplug {
  import opened HotplugTypes
  import opened Catalog
  import opened Matcher
  import opened Reconciler

  /**
   * Everything a rescan learns from the platform: the drop directory, the
   * outcome of the vector allocation, and what each bus reports.
   */
  datatype Host = Host(
    dropDir: DropDir,
    vectorAllocates: bool,
    usb: Enumeration<UsbDevice>,
    pcCard: Enumeration<PcCardDevice>)

  /** The status a rescan returns, the reader factory calls it makes, and the known list after it. */
  datatype Outcome = Outcome(status: int, calls: seq<ReaderCall>, snapshot: seq<Device>)

  /** The fresh list: the USB records prepended first, then the PC Card records prepended on top. */
  function FreshList(catalog: seq<Driver>, usb: seq<UsbDevice>, pcCard: seq<PcCardDevice>): seq<Device>
  {
    Reverse(Discovered(catalog, PcCardProbes(pcCard))) + Reverse(Discovered(catalog, UsbProbes(usb)))
  }

  /**
   * Reference definition of one rescan from the known list `snapshot`:
   * 1 when the catalog cannot be built, -1 when a bus fails, and otherwise
   * 0 with the adds and removes of the diff and the fresh list as the new
   * known list.
   */
  function Rescan(snapshot: seq<Device>, host: Host): Outcome
  {
    if host.dropDir.Unreadable? || !host.vectorAllocates then Outcome(1, [], snapshot)
    else if host.usb.EnumFailed? || host.pcCard.EnumFailed? then Outcome(-1, [], snapshot)
    else
      var current := FreshList(Live(Vector(host.dropDir.bundles)), host.usb.devices, host.pcCard.devices);
      Outcome(0, Adds(current, snapshot) + Removes(snapshot, current), current)
  }

  /**
   * A successful rescan leaves as known list the records of every reported
   * device against the loaded catalog, USB devices before PC Card devices,
   * in reverse order of discovery.
   */
  lemma RescanSnapshot(snapshot: seq<Device>, host: Host)
    requires Rescan(snapshot, host).status == 0
    ensures Rescan(snapshot, host).snapshot ==
            Reverse(Discovered(LoadedCatalog(host.dropDir.bundles),
                               UsbProbes(host.usb.devices) + PcCardProbes(host.pcCard.devices)))
  {
    LiveVectorIsLoadedCatalog(host.dropDir.bundles);
    ReverseDiscoveryOrder(LoadedCatalog(host.dropDir.bundles),
                          UsbProbes(host.usb.devices), PcCardProbes(host.pcCard.devices));
  }

  /**
   * A record is in the known list after a successful rescan exactly when it
   * is a record of some reported device, on either bus.
   */
  lemma RescanRecords(snapshot: seq<Device>, host: Host, d: Device)
    requires Rescan(snapshot, host).status == 0
    ensures var ps := UsbProbes(host.usb.devices) + PcCardProbes(host.pcCard.devices);
            d in Rescan(snapshot, host).snapshot <==>
            exists i :: 0 <= i < |ps| && d in Found(LoadedCatalog(host.dropDir.bundles), ps[i])
  {
    var catalog := LoadedCatalog(host.dropDir.bundles);
    var ps := UsbProbes(host.usb.devices) + PcCardProbes(host.pcCard.devices);
    var found := Discovered(catalog, ps);
    RescanSnapshot(snapshot, host);
    assert Rescan(snapshot, host).snapshot == Reverse(found);
    ReverseMultiset(found);
    assert d in Reverse(found) <==> d in multiset(Reverse(found));
    assert d in found <==> d in multiset(found);
    DiscoveredMembership(catalog, ps, d);
  }

  /** A failed rescan makes no call and keeps the known list; a successful one returns 0. */
  lemma RescanStatus(snapshot: seq<Device>, host: Host)
    ensures Rescan(snapshot, host).status in {0, 1, -1}
    ensures Rescan(snapshot, host).status != 0 ==>
            Rescan(snapshot, host).calls == [] && Rescan(snapshot, host).snapshot == snapshot
    ensures Rescan(snapshot, host).status == 1 <==> host.dropDir.Unreadable? || !host.vectorAllocates
  {
  }

  /**
   * Rescanning an unchanged host right after a successful rescan finds the
   * fresh list equal to the known one and makes no call.
   */
  lemma RescanAgainIsQuiet(snapshot: seq<Device>, host: Host)
    requires Rescan(snapshot, host).status == 0
    ensures var known := Rescan(snapshot, host).snapshot;
            Rescan(known, host) == Outcome(0, [], known)
  {
    var known := Rescan(snapshot, host).snapshot;
    NoCallsWhenUnchanged(known, known);
  }

  /** The ReaderX bundle: vendor 0x04E6, product 0x5116, library "/a". */
  const ReaderX: Bundle := Bundle("/a", Some(0x04E6), Some(0x5116), Some("ReaderX"))

  /** The catalog entry and the record of a ReaderX device at USB location 1. */
  const ReaderXDriver: Driver := Driver(0x04E6, 0x5116, Some("ReaderX"), Some("/a"))
  const ReaderXRecord: Device := Device(ReaderXDriver, 1)

  lemma ReaderXCatalog()
    ensures Live(Vector([ReaderX])) == [ReaderXDriver]
    ensures Live(Vector([ReaderX, ReaderX])) == [ReaderXDriver, ReaderXDriver]
  {
    LiveVectorIsLoadedCatalog([ReaderX]);
    LiveVectorIsLoadedCatalog([ReaderX, ReaderX]);
    assert [ReaderX][1..] == [];
    assert [ReaderX, ReaderX][1..] == [ReaderX];
    assert LoadedCatalog([ReaderX]) == [ReaderXDriver];
  }

  /** The ReaderX device at USB location 1 matches each ReaderX entry once. */
  lemma ReaderXFound()
    ensures UsbProbes([UsbDevice(0x04E6, 0x5116, 1)]) == [Probe(0x04E6, 0x5116, 1)]
    ensures Discovered([ReaderXDriver], [Probe(0x04E6, 0x5116, 1)]) == [ReaderXRecord]
    ensures Discovered([ReaderXDriver, ReaderXDriver], [Probe(0x04E6, 0x5116, 1)]) == [ReaderXRecord, ReaderXRecord]
  {
    var probe := Probe(0x04E6, 0x5116, 1);
    assert [ReaderXDriver][..0] == [];
    assert Found([ReaderXDriver], probe) == [ReaderXRecord];
    assert [ReaderXDriver, ReaderXDriver][..1] == [ReaderXDriver];
    assert Found([ReaderXDriver, ReaderXDriver], probe) == [ReaderXRecord, ReaderXRecord];
    assert [probe][..0] == [];
  }

  /** With the ReaderX device plugged in, a rescan from an empty list adds it at port 0x200001. */
  lemma ReaderXAppears()
    ensures Rescan([], Host(Bundles([ReaderX]), true, Enumerated([UsbDevice(0x04E6, 0x5116, 1)]), Enumerated([])))
         == Outcome(0, [AddReader(Some("ReaderX"), 0x200001, Some("/a"))], [ReaderXRecord])
  {
    ReaderXCatalog();
    ReaderXFound();
    assert PcCardProbes([]) == [];
    assert FreshList([ReaderXDriver], [UsbDevice(0x04E6, 0x5116, 1)], []) == [ReaderXRecord];
    assert [ReaderXRecord][..0] == [];
    assert Adds([ReaderXRecord], []) == [AddFor(ReaderXRecord)];
  }

  /** With the device unplugged, the next rescan removes port 0x200001 and leaves the list empty. */
  lemma ReaderXDisappears()
    ensures Rescan([ReaderXRecord], Host(Bundles([ReaderX]), true, Enumerated([]), Enumerated([])))
         == Outcome(0, [RemoveReader(Some("ReaderX"), 0x200001)], [])
  {
    ReaderXCatalog();
    assert UsbProbes([]) == [] && PcCardProbes([]) == [];
    assert FreshList([ReaderXDriver], [], []) == [];
    assert [ReaderXRecord][..0] == [];
    assert Removes([ReaderXRecord], []) == [RemoveFor(ReaderXRecord)];
  }

  /**
   * Two identical ReaderX bundles match the one device twice: the fresh list
   * holds two equal records and each gets its own add call.
   */
  lemma DuplicateBundlesAddTwice()
    ensures Rescan([], Host(Bundles([ReaderX, ReaderX]), true,
                            Enumerated([UsbDevice(0x04E6, 0x5116, 1)]), Enumerated([])))
         == Outcome(0, [AddFor(ReaderXRecord), AddFor(ReaderXRecord)], [ReaderXRecord, ReaderXRecord])
    ensures AddFor(ReaderXRecord) == AddReader(Some("ReaderX"), 0x200001, Some("/a"))
  {
    ReaderXCatalog();
    ReaderXFound();
    assert PcCardProbes([]) == [];
    var current := [ReaderXRecord, ReaderXRecord];
    assert current[..1] == [ReaderXRecord] && [ReaderXRecord][..0] == [];
    assert Reverse([ReaderXRecord]) == [ReaderXRecord];
    assert Reverse(current) == current;
    assert FreshList([ReaderXDriver, ReaderXDriver], [UsbDevice(0x04E6, 0x5116, 1)], []) == current;
    assert current[..1] == [ReaderXRecord] && [ReaderXRecord][..0] == [];
    assert Adds(current, []) == [AddFor(ReaderXRecord), AddFor(ReaderXRecord)];
  }

  /** The reader monitor: owns the list of known hotplug readers (sDeviceList). */
  class HotplugMonitor {
    var deviceList: seq<Device>

    constructor()
      ensures deviceList == []
    {
      deviceList := [];
    }

    /**
     * HPSearchHotPluggables: one full rescan. The calls it makes into the
     * reader factory are returned in the order they are made.
     */
    method Search(host: Host) returns (status: int, calls: seq<ReaderCall>)
      modifies this
      ensures var o := Rescan(old(deviceList), host);
              status == o.status && calls == o.calls && deviceList == o.snapshot
      ensures status != 0 ==> calls == [] && deviceList == old(deviceList)
    {
      var drivers := GetFromDirectory(host.dropDir, host.vectorAllocates);
      if drivers.None? {
        return 1, [];
      }
      var vector := drivers.value;
      assert vector[|host.dropDir.bundles|].vendorId == 0;
      var devices: seq<Device> := [];
      var istat;
      istat, devices := MatchUsbDevices(vector, host.usb, devices);
      if istat != 0 {
        return -1, [];
      }
      istat, devices := MatchPcCardDevices(vector, host.pcCard, devices);
      if istat != 0 {
        return -1, [];
      }
      ghost var usbRecords := Reverse(Discovered(Live(vector[..]), UsbProbes(host.usb.devices)));
      assert usbRecords + [] == usbRecords;
      assert devices == FreshList(Live(Vector(host.dropDir.bundles)), host.usb.devices, host.pcCard.devices);
      calls := Diff(devices, deviceList);
      deviceList := devices;
      var _ := VectorRelease(drivers);
      status := 0;
    }

    /** HPDeviceAppeared: drains the notification iterator, then rescans; the status is dropped. */
    method DeviceAppeared(host: Host) returns (calls: seq<ReaderCall>)
      modifies this
      ensures var o := Rescan(old(deviceList), host); calls == o.calls && deviceList == o.snapshot
    {
      var _, c := Search(host);
      calls := c;
    }

    /** HPDeviceDisappeared: the same full rescan as on appearance. */
    method DeviceDisappeared(host: Host) returns (calls: seq<ReaderCall>)
      modifies this
      ensures var o := Rescan(old(deviceList), host); calls == o.calls && deviceList == o.snapshot
    {
      var _, c := Search(host);
      calls := c;
    }
  }
}
