/**
 * Values shared by the hotplug reconciliation engine: fixed-width integers,
 * the driver descriptor, the device record, the platform inputs that the
 * model takes in place of CoreFoundation and IOKit, and the calls made into
 * the reader factory.
 */
module HotplugTypes {

  newtype uint16 = x: int | 0 <= x < 0x1_0000
  newtype uint32 = x: int | 0 <= x < 0x1_0000_0000

  /** A value or nothing; `None` stands for a NULL pointer or an absent key. */
  datatype Option<T> = None | Some(value: T)

  /**
   * One slot of the driver vector (struct HPDriver). The string fields are
   * `char*` in the source and may be NULL: a calloc'd slot has both NULL, and
   * a slot whose bundle lacks a product id keeps a NULL friendly name.
   */
  datatype Driver = Driver(
    vendorId: uint32,
    productId: uint32,
    friendlyName: Option<string>,
    libPath: Option<string>)

  /** The all-zero slot that calloc produces; its zero vendorId is the vector's terminator. */
  const ZeroDriver: Driver := Driver(0, 0, None, None)

  /** A matched reader device (struct HPDevice without its `m_next` link). */
  datatype Device = Device(driver: Driver, address: uint32)

  /**
   * A driver bundle as the bundle enumeration presents it: its path and the
   * three keys of its info dictionary, already converted to numbers and
   * strings (`None` when the key is absent).
   */
  datatype Bundle = Bundle(
    path: string,
    vendorId: Option<uint32>,
    productId: Option<uint32>,
    friendlyName: Option<string>)

  /** The drop directory: unreadable (no URL or no bundle array) or its bundles in order. */
  datatype DropDir = Unreadable | Bundles(bundles: seq<Bundle>)

  /** The devices one bus reports, or a failure anywhere in walking that bus. */
  datatype Enumeration<T> = EnumFailed | Enumerated(devices: seq<T>)

  /** A USB device: 16-bit vendor and product codes and its 32-bit location id. */
  datatype UsbDevice = UsbDevice(vendorId: uint16, productId: uint16, locationId: uint32)

  /** A PC Card device: the VendorID, DeviceID and SocketNumber registry properties, each possibly absent. */
  datatype PcCardDevice = PcCardDevice(
    vendorId: Option<uint32>,
    deviceId: Option<uint32>,
    socketNumber: Option<uint32>)

  /** What the matcher compares against the catalog: vendor, product and the address to record. */
  datatype Probe = Probe(vendorId: uint32, productId: uint32, address: uint32)

  /** A call into the reader factory: RFAddReader or RFRemoveReader. */
  datatype ReaderCall =
    | AddReader(name: Option<string>, port: uint32, library: Option<string>)
    | RemoveReader(name: Option<string>, port: uint32)

  /** The probe of a USB device: its codes widened to 32 bits, its location id as address. */
  function UsbProbe(d: UsbDevice): (p: Probe)
    ensures p.vendorId as int == d.vendorId as int && p.productId as int == d.productId as int
    ensures p.address == d.locationId
  {
    Probe(d.vendorId as int as uint32, d.productId as int as uint32, d.locationId)
  }

  /** An absent registry property leaves the variable at its initial 0. */
  function OrZero(x: Option<uint32>): uint32
  {
    match x
    case None => 0
    case Some(v) => v
  }

  /** The probe of a PC Card device; absent properties read as 0. */
  function PcCardProbe(d: PcCardDevice): (p: Probe)
    ensures d.vendorId.None? ==> p.vendorId == 0
    ensures d.deviceId.None? ==> p.productId == 0
    ensures d.socketNumber.None? ==> p.address == 0
    ensures d.vendorId.Some? ==> p.vendorId == d.vendorId.value
    ensures d.deviceId.Some? ==> p.productId == d.deviceId.value
    ensures d.socketNumber.Some? ==> p.address == d.socketNumber.value
  {
    Probe(OrZero(d.vendorId), OrZero(d.deviceId), OrZero(d.socketNumber))
  }

  function UsbProbes(ds: seq<UsbDevice>): (ps: seq<Probe>)
    ensures |ps| == |ds|
    ensures forall k :: 0 <= k < |ds| ==> ps[k] == UsbProbe(ds[k])
  {
    seq(|ds|, k requires 0 <= k < |ds| => UsbProbe(ds[k]))
  }

  function PcCardProbes(ds: seq<PcCardDevice>): (ps: seq<Probe>)
    ensures |ps| == |ds|
    ensures forall k :: 0 <= k < |ds| ==> ps[k] == PcCardProbe(ds[k])
  {
    seq(|ds|, k requires 0 <= k < |ds| => PcCardProbe(ds[k]))
  }
}
