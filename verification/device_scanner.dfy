/** The scanner page: the device lookup behind a scanned QR code's route
    parameter, and the state the page shows once the lookup settles. */
module Scanner {
  import opened Wrappers
  import opened Base64
  import opened MacAddress
  import opened QrHash
  import opened Devices

  /** The position `Array.prototype.find` stops at: the first device whose
      `qrHash` equals `hash`, or none. */
  function FirstMatchIndex(devices: seq<Device>, hash: string): (r: Option<nat>)
    ensures r.Some? ==> r.value < |devices| && devices[r.value].qrHash == hash
    ensures r.Some? ==> forall j :: 0 <= j < r.value ==> devices[j].qrHash != hash
    ensures r.None? ==> forall j :: 0 <= j < |devices| ==> devices[j].qrHash != hash
    decreases |devices|
  {
    if |devices| == 0 then None
    else if devices[0].qrHash == hash then Some(0)
    else match FirstMatchIndex(devices[1..], hash)
      case None => None
      case Some(k) => Some(k + 1)
  }

  /** `devices.find(d => d.qrHash === qrHash)`: some device carries the hash
      iff one is found, and the one found is the earliest such device. */
  function FindByHash(devices: seq<Device>, hash: string): (r: Option<Device>)
    ensures r.Some? <==> exists i :: 0 <= i < |devices| && devices[i].qrHash == hash
    ensures r.Some? ==> r.value.qrHash == hash
    ensures r.Some? ==> exists i :: (0 <= i < |devices| && devices[i] == r.value
                                    && forall j :: 0 <= j < i ==> devices[j].qrHash != hash)
  {
    match FirstMatchIndex(devices, hash)
    case None => None
    case Some(i) => Some(devices[i])
  }

  /** The page state: the loading spinner, the device shown, and whether a
      scan was registered. */
  datatype ScanView = ScanView(loading: bool, device: Option<Device>, scanned: bool)

  const InitialView: ScanView := ScanView(true, None, false)

  /** The effect for the route parameter, once its timer has fired. An absent
      or empty parameter only stops the spinner. Otherwise the found device,
      or none, is shown, and a found device registers the scan; a miss leaves
      the previous `scanned` flag as it was. */
  function ResolveScan(view: ScanView, param: Option<string>, devices: seq<Device>): (next: ScanView)
    ensures !next.loading
    ensures (param.None? || param.value == "") ==> next == view.(loading := false)
    ensures param.Some? && param.value != "" ==> next.device == FindByHash(devices, param.value)
    ensures param.Some? && param.value != "" && next.device.Some? ==> next.scanned
    ensures param.Some? && param.value != "" && next.device.None? ==> next.scanned == view.scanned
  {
    match param
    case None => view.(loading := false)
    case Some(hash) =>
      if hash == "" then view.(loading := false)
      else
        match FindByHash(devices, hash)
        case Some(d) => ScanView(false, Some(d), true)
        case None => view.(device := None, loading := false)
  }

  /** On a freshly opened page the scan is registered exactly when a device
      is shown, and a device is shown exactly when one carries the hash. */
  lemma FreshScanRegisteredIffFound(param: Option<string>, devices: seq<Device>)
    ensures var next := ResolveScan(InitialView, param, devices);
      (next.scanned <==> next.device.Some?)
      && (next.device.Some? <==>
            param.Some? && param.value != ""
            && exists i :: 0 <= i < |devices| && devices[i].qrHash == param.value)
  {
  }

  /** The two addresses agree on their first nine characters. */
  predicate SamePrefix(m1: string, m2: string)
  {
    |m1| >= 9 && |m2| >= 9 && m1[..9] == m2[..9]
  }

  /** Scanning the code of a listed device with a well-formed address always
      finds a device, listed no later than it, whose address shares its
      first nine characters. */
  lemma ScanFindsSamePrefix(devices: seq<Device>, k: nat)
    requires HashesDerived(devices)
    requires forall j :: 0 <= j < |devices| ==> ValidateMacAddress(devices[j].macAddress)
    requires k < |devices|
    ensures var found := FirstMatchIndex(devices, devices[k].qrHash);
      found.Some? && found.value <= k
      && SamePrefix(devices[found.value].macAddress, devices[k].macAddress)
  {
    var found := FirstMatchIndex(devices, devices[k].qrHash);
    var i := found.value;
    var mi, mk := devices[i].macAddress, devices[k].macAddress;
    assert DeriveQrHash(mi) == DeriveQrHash(mk);
    ValidAddressIsMacText(mi);
    ValidAddressIsMacText(mk);
    QrHashCollisionIff(mi, mk);
  }

  /** Of two devices carrying the same code, a scan shows the first. */
  lemma FindFirstOfEqualCodes(a: Device, b: Device)
    requires a.qrHash == b.qrHash
    ensures FindByHash([a, b], b.qrHash) == Some(a)
  {
    assert [a, b][0] == a;
  }

  /** Well-formed addresses sharing their first nine characters get the same code. */
  lemma SamePrefixSameCode(m1: string, m2: string)
    requires ValidateMacAddress(m1) && ValidateMacAddress(m2)
    requires SamePrefix(m1, m2)
    ensures DeriveQrHash(m1) == DeriveQrHash(m2)
  {
    ValidAddressIsMacText(m1);
    ValidAddressIsMacText(m2);
    QrHashCollisionIff(m1, m2);
  }

  /** Conversely, the page cannot tell such devices apart: of two listed
      devices with well-formed addresses sharing the first nine characters,
      scanning the second one's code shows the first. */
  lemma ScanShowsEarlierSamePrefix(a: Device, b: Device)
    requires HashesDerived([a, b])
    requires ValidateMacAddress(a.macAddress) && ValidateMacAddress(b.macAddress)
    requires SamePrefix(a.macAddress, b.macAddress)
    ensures FindByHash([a, b], b.qrHash) == Some(a)
  {
    assert [a, b][0] == a && [a, b][1] == b;
    SamePrefixSameCode(a.macAddress, b.macAddress);
    FindFirstOfEqualCodes(a, b);
  }

  /** The concrete case: a device with address "00:1B:44:AA:BB:CC" scans as
      the one with "00:1B:44:11:3A:B7" listed before it. */
  lemma ScanShowsEarlierSameVendor(a: Device, b: Device)
    requires a.macAddress == "00:1B:44:11:3A:B7" && b.macAddress == "00:1B:44:AA:BB:CC"
    requires HashesDerived([a, b])
    ensures a.qrHash == "MDA6MUI6NDQ6" && b.qrHash == "MDA6MUI6NDQ6"
    ensures FindByHash([a, b], b.qrHash) == Some(a)
  {
    assert [a, b][0] == a && [a, b][1] == b;
    SameVendorSameHash();
    FindFirstOfEqualCodes(a, b);
  }
}
