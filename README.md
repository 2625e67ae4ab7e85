# Hotplug reader reconciliation (macOS PC/SC hotplug), modelled in Dafny

This project models the rescan core of `src/PCSC/hotplug_macosx.c`. That
file keeps the smart-card reader list in step with the hardware. Every
rescan (`HPSearchHotPluggables`) does three things:

1. It builds the driver catalog from the driver bundles in the drop
   directory. The catalog is a calloc'd vector of `HPDriver` slots that ends
   at the first slot whose vendor id is 0.
2. It matches every present USB device, then every present PC Card device,
   against every catalog entry before that sentinel. Each match is
   prepended to a fresh list of `HPDevice` records. A record holds a copy of
   the driver and the device address.
3. It diffs the fresh list against the list of known readers
   (`sDeviceList`) under `HPDeviceEquals`. It calls `RFAddReader` for new
   records and `RFRemoveReader` for vanished ones, then makes the fresh list
   the known list.

Modules, one per component:

- `HotplugTypes` (types.dfy): the vector slot `Driver`, the record `Device`,
  32- and 16-bit integers, and the platform inputs. The platform inputs are
  the bundles, each bus's enumeration, and the calls into the reader
  factory.
- `Catalog` (catalog.dfy): the loader `GetFromDirectory`, which fills an
  `array<Driver>` in a for-loop with early returns. Also the sentinel walk
  `Live`, the reference catalog `LoadedCatalog`, and `VectorRelease`.
- `Matcher` (matcher.dfy): `Insert`, the inner catalog walk `MatchDevice`,
  and the two bus loops, each returning the list through an in/out
  parameter. The reference functions are `Found` (the records one device
  yields) and `Discovered` (the records of all devices).
- `Reconciler` (reconciler.dfy): `DeviceEquals`, the port arithmetic, and
  the two nested `found` loops of the pass as the method `Diff`, specified
  by `Adds` and `Removes`.
- `Hotplug` (hotplug.dfy): the class `HotplugMonitor`, whose field
  `deviceList` is `sDeviceList`, and its method `Search`. `Search` is proved
  against the reference function `Rescan`. The notification callbacks each
  run one `Search`.

The platform enters as plain values:

- A `DropDir` is either unreadable or a sequence of bundles. Each bundle
  has its path and optional vendor, product and name keys, already parsed.
- A bus is `EnumFailed` or `Enumerated(devices)`.
- Each allocation whose failure the code handles is a boolean input: the
  vector calloc, and the node calloc in `Insert`.
- The reader-factory calls are returned, in order, as a sequence of
  `ReaderCall` values.

The model keeps the code's quirks:

- A vendor id of 0 ends the catalog early.
- Insertion prepends, so the fresh list is in reverse discovery order.
- There is no de-duplication. Equal fresh records each get their own add.
- The port is `0x200000 + address`, computed in 32-bit unsigned
  arithmetic.

In two places the code behaves differently from what one might expect of
a catalog loader and a reader list. The model follows the code:

- **Missing identity keys.** A fail-fast loader would reject the whole
  catalog when a bundle lacks its vendor or product key. The code instead
  returns the vector filled up to that bundle (`hotplug_macosx.c:170-187`).
  - A missing `ifdVendorID` leaves that slot with vendor id 0. The catalog
    is then exactly the preceding bundles (`MissingVendorKeepsPreceding`).
  - A missing `ifdProductID` leaves that slot with its vendor id set,
    product id 0 and a NULL name. It is the last catalog entry and can still
    match (`LoadedCatalog`, `LoadedCatalogEntries`, `LoadedCatalogLength`).
- **Duplicates.** One might expect the known list never to hold two equal
  records. The code never de-duplicates. Two identical bundles put two
  equal records into the known list and make two add calls
  (`DuplicateBundlesAddTwice`, `AddsPerOccurrence`).

## Model

| member | source | states |
|---|---|---|
| `HotplugTypes.UsbProbe` | src/PCSC/hotplug_macosx.c:365-370 | a USB device is matched by its 16-bit vendor and product codes, widened unchanged, and recorded under its location id |
| `HotplugTypes.PcCardProbe` | src/PCSC/hotplug_macosx.c:421-453 | an absent VendorID, DeviceID or SocketNumber property reads as 0; a present one is taken as is |
| `Catalog.Cut` | src/PCSC/hotplug_macosx.c:158-190 | the loader stops at the first bundle lacking a vendor or product key: every earlier bundle has both, that one does not |
| `Catalog.Vector` | src/PCSC/hotplug_macosx.c:150-151 | the vector has one slot per bundle plus one, and its last slot is all zero |
| `Catalog.Live` | src/PCSC/hotplug_macosx.c:254 | the sentinel walk visits the longest prefix of nonzero vendor ids and stops at a zero one |
| `Catalog.LiveStopsInside` | src/PCSC/hotplug_macosx.c:374 | in a vector with a zero slot, the walk stops inside the vector |
| `Catalog.ZeroVendorCuts` | src/PCSC/hotplug_macosx.c:374 | a vendor id 0 at slot k cuts the walk at or before k; slots after it are never visited |
| `Catalog.LivePrefix` | src/PCSC/hotplug_macosx.c:454-455 | the walk reads nothing beyond where it stops |
| `Catalog.LiveVectorIsLoadedCatalog` | src/PCSC/hotplug_macosx.c:123-208 | the entries the walk sees in the loader's vector are exactly the bundle-by-bundle reference catalog |
| `Catalog.LoadedCatalogEntries` | src/PCSC/hotplug_macosx.c:167-204 | every catalog entry has a nonzero vendor id and its bundle's ids, path and name (or the placeholder); an entry from a bundle without a product id has product 0, no name, and is last |
| `Catalog.LoadedCatalogLength` | src/PCSC/hotplug_macosx.c:170-187 | the catalog has one entry per bundle when all are complete; otherwise as many as the bundles before the first one with a missing or zero vendor id, or one more than the bundles before the first one with a vendor id but no product id |
| `Catalog.MissingVendorKeepsPreceding` | src/PCSC/hotplug_macosx.c:170-176 | a bundle missing ifdVendorID ends loading; the catalog is exactly the entries of the preceding bundles |
| `Catalog.MissingNameIsUnnamed` | src/PCSC/hotplug_macosx.c:192-198 | a complete bundle without ifdFriendlyName gets the name "unnamed device" |
| `Catalog.GetFromDirectory` | src/PCSC/hotplug_macosx.c:123-208 | NULL exactly when the directory is unreadable or the vector cannot be allocated; otherwise the filled vector, with the slots after the first incomplete bundle left zero |
| `Catalog.CutAt` | src/PCSC/hotplug_macosx.c:172-187 | the early return at bundle i happens exactly at the first incomplete bundle |
| `Catalog.VectorRelease` | src/PCSC/hotplug_macosx.c:249-260 | the entries released are exactly those before the first zero vendor id, and none for a NULL vector |
| `Matcher.DriverCopy` | src/PCSC/hotplug_macosx.c:213-230 | the copy has the same ids and equal strings, so as a value it is the original |
| `Matcher.Insert` | src/PCSC/hotplug_macosx.c:265-278 | on allocation success the result is the new record (copied driver, given address) followed by the old list; on failure the old list unchanged |
| `Matcher.Found` | src/PCSC/hotplug_macosx.c:373-381 | a device yields at most one record per catalog entry |
| `Matcher.FoundCount` | src/PCSC/hotplug_macosx.c:373-381 | a device gains as many records of an entry as the catalog holds copies of it when vendor and product match, and none otherwise; the address plays no part in matching |
| `Matcher.FoundMembership` | src/PCSC/hotplug_macosx.c:454-462 | a record of a device is exactly a matching catalog entry labelled with the device's address |
| `Matcher.DiscoveredMembership` | src/PCSC/hotplug_macosx.c:330-382 | a record of the pass is exactly a record of some reported device |
| `Matcher.DiscoveredConcat` | src/PCSC/hotplug_macosx.c:580-589 | matching two buses in turn yields the records of the first followed by those of the second |
| `Matcher.ReverseConcat` | src/PCSC/hotplug_macosx.c:276 | prepending the records of a second sequence puts them, reversed, in front of the first's |
| `Matcher.ReverseDiscoveryOrder` | src/PCSC/hotplug_macosx.c:276 | the list built by the USB pass and then the PC Card pass is all records in reverse discovery order |
| `Matcher.FoundStep` | src/PCSC/hotplug_macosx.c:376-380 | walking one more entry prepends its record when it matches and leaves the list alone otherwise |
| `Matcher.DiscoveredStep` | src/PCSC/hotplug_macosx.c:330-382 | walking one more device prepends its records, reversed |
| `Matcher.NoVendorNeverMatches` | src/PCSC/hotplug_macosx.c:424-433 | a PC Card device without a VendorID property never yields a record, since no entry before the sentinel has vendor 0 |
| `Matcher.MatchDevice` | src/PCSC/hotplug_macosx.c:373-381 | the new list is the device's records, in reverse catalog order, prepended to the old list |
| `Matcher.MatchUsbDevices` | src/PCSC/hotplug_macosx.c:308-386 | returns 1 when the bus fails; otherwise returns 0 with every USB device's records prepended, in reverse discovery order |
| `Matcher.MatchPcCardDevices` | src/PCSC/hotplug_macosx.c:392-466 | returns 1 when the bus fails; otherwise returns 0 with every PC Card device's records prepended, in reverse discovery order |
| `Reconciler.PortOffset` | src/PCSC/hotplug_macosx.c:51 | the port is 0x200000 + address below 2^32, and wraps modulo 2^32 above; address 5 gives port 0x200005 |
| `Reconciler.PortInjective` | src/PCSC/hotplug_macosx.c:606-608 | two records get the same port exactly when their addresses are equal |
| `Reconciler.EqualsIsIdentity` | src/PCSC/hotplug_macosx.c:296-302 | two records are equal exactly when vendor id, product id and address are; friendly name and library path play no part |
| `Reconciler.Adds` | src/PCSC/hotplug_macosx.c:591-610 | the diff makes only add calls, at most one per fresh record |
| `Reconciler.Removes` | src/PCSC/hotplug_macosx.c:612-630 | the diff makes only remove calls, at most one per known record |
| `Reconciler.AddsMembership` | src/PCSC/hotplug_macosx.c:591-610 | for every fresh record with no equal known record, RFAddReader(name, port, library) is called, and for no other |
| `Reconciler.RemovesMembership` | src/PCSC/hotplug_macosx.c:612-630 | for every known record with no equal fresh record, RFRemoveReader(name, port) is called, and for no other |
| `Reconciler.AddsPerOccurrence` | src/PCSC/hotplug_macosx.c:591-610 | no de-duplication: each occurrence of a fresh record absent from the known list gets its own add call |
| `Reconciler.AddsEmptyIff` | src/PCSC/hotplug_macosx.c:594-609 | no add call is made exactly when every fresh record has an equal known record |
| `Reconciler.RemovesEmptyIff` | src/PCSC/hotplug_macosx.c:615-629 | no remove call is made exactly when every known record has an equal fresh record |
| `Reconciler.NoCallsWhenUnchanged` | src/PCSC/hotplug_macosx.c:591-630 | a fresh list equal to the known one, element by element, causes no call |
| `Reconciler.AddsBeforeRemoves` | src/PCSC/hotplug_macosx.c:591-630 | in the calls of a pass, every add comes before every remove |
| `Reconciler.Diff` | src/PCSC/hotplug_macosx.c:591-630 | the nested found-loops make exactly the adds, in fresh-list order, followed by the removes, in known-list order |
| `Hotplug.RescanSnapshot` | src/PCSC/hotplug_macosx.c:575-633 | after a successful rescan the known list is the records of all reported devices against the loaded catalog, in reverse discovery order |
| `Hotplug.RescanRecords` | src/PCSC/hotplug_macosx.c:578-589 | after a successful rescan a record is known exactly when some device on either bus yields it |
| `Hotplug.RescanStatus` | src/PCSC/hotplug_macosx.c:575-589 | a rescan returns 0, 1 or -1; 1 exactly when the catalog cannot be built; and any failure makes no call and keeps the known list |
| `Hotplug.RescanAgainIsQuiet` | src/PCSC/hotplug_macosx.c:591-633 | rescanning an unchanged host right after a successful rescan makes no call and keeps the known list |
| `Hotplug.ReaderXCatalog` | src/PCSC/hotplug_macosx.c:150-205 | one complete bundle gives a one-entry catalog |
| `Hotplug.ReaderXAppears` | src/PCSC/hotplug_macosx.c:591-610 | a plugged-in ReaderX at USB location 1 is added once as port 0x200001, and the known list holds its one record |
| `Hotplug.ReaderXDisappears` | src/PCSC/hotplug_macosx.c:612-633 | once it is unplugged, the next rescan removes port 0x200001 once and empties the known list |
| `Hotplug.DuplicateBundlesAddTwice` | src/PCSC/hotplug_macosx.c:373-381 | two identical bundles match one device twice; the known list gets two equal records and two add calls are made |
| `Hotplug.HotplugMonitor.constructor` | src/PCSC/hotplug_macosx.c:79 | the known list starts empty |
| `Hotplug.HotplugMonitor.Search` | src/PCSC/hotplug_macosx.c:572-636 | status, calls and new known list are those of the reference rescan; on failure no call is made and sDeviceList is unchanged; on success sDeviceList becomes the fresh list |
| `Hotplug.HotplugMonitor.DeviceAppeared` | src/PCSC/hotplug_macosx.c:85-96 | an appearance notification performs one full rescan and drops its status |
| `Hotplug.HotplugMonitor.DeviceDisappeared` | src/PCSC/hotplug_macosx.c:102-112 | a disappearance notification performs the same full rescan |

## Left out

- CoreFoundation and IOKit plumbing is not modelled: the drop-directory URL and bundle enumeration, `CFStringGetCStringPtr`, and the IOKit iterator and plug-in interface queries. These are foreign library calls, so bundles and devices arrive already parsed.
- `strtoul` hex parsing and its truncation into `UInt32` are not modelled. A bundle's vendor and product keys arrive as 32-bit numbers.
- Any IOKit failure while a matcher walks a bus becomes `EnumFailed`. This applies both before the device loop and partway through it. In both cases the caller returns -1 and throws away the partly built list, so nothing observable differs.
- Node allocation failure during matching is not modelled: `Matcher.MatchDevice` always calls `Insert` with a successful allocation. `Insert` alone models the failure branch, which silently drops that one record.
- Allocation failure inside `HPDriverCopy` is not modelled. In the code it stores a NULL driver that `HPDeviceEquals` later dereferences. `strdup` failures are not modelled either. `DriverCopy` always succeeds.
- The NULL friendly name of a slot left by a bundle without `ifdProductID` is passed to `strdup` in the code. That is undefined behaviour in C. The model copies the absent name as absent and carries it into the reader calls.
- Notification setup, the run loop and the watcher thread are not modelled: `HPEstablishUSBNotification`, `HPEstablishPCCardNotification`, `HPDeviceNotificationThread` and `HPRegisterForHotplugEvents`. They are OS event delivery and thread creation. Their effect is a sequence of `Search` calls, which the two callbacks model one at a time.
- Memory release is not modelled: `HPDriverRelease`, `HPDeviceListRelease`, the `free` in `HPDriverVectorRelease`, and the leaks on the loader's early returns. Ownership and leaks have no meaning for values. Only the sentinel-bounded walk of `HPDriverVectorRelease` is kept, as `VectorRelease`.
- Concurrent rescans touching the unsynchronised `sDeviceList` are not modelled. The model has one sequential caller.
- The reader factory itself is not modelled, and neither are the return values of `RFAddReader`/`RFRemoveReader`, which the code ignores. The calls made are returned as a trace.
- Logging (`DebugLogA`, `DebugLogB`) is not modelled.
- The code gives USB and PC Card addresses no bus tag. A USB device and a PC Card device with equal ids and equal address yield equal records and the same port. The model keeps this as it is.
