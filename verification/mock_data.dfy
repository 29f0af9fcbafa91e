/** The generator of the twelve sample devices the dashboard and the
    scanner page start from. Every `Math.random()` draw is a parameter: a
    real number in [0, 1). */
module MockData {
  import opened Wrappers
  import opened Text
  import opened Base64
  import opened MacAddress
  import opened QrHash
  import opened Devices
  import opened AddDeviceForm
  import opened MockCatalog
  import opened MockNames
  import opened DeviceCard

  const HexChars: string := "0123456789ABCDEF"

  // ---------------------------------------------------------------- addresses

  /** `chars.charAt(d)` for a digit drawn below 16. */
  lemma HexCharsAreUpperHex(d: nat)
    requires d < 16
    ensures IsUpperHexDigit(HexChars[d])
  {
  }

  /** The twelve hex digits drawn, each below 16. */
  function HexDigitsOf(draws: seq<real>): (ds: seq<nat>)
    requires |draws| == 12 && forall k :: 0 <= k < 12 ==> IsDraw(draws[k])
    ensures |ds| == 12 && forall k :: 0 <= k < 12 ==> ds[k] < 16
  {
    seq(12, k requires 0 <= k < 12 => RandomIndex(draws[k], 16))
  }

  /** The address built from twelve digits: pairs of upper-case hex digits
      separated by `:`. */
  function MacOfDigits(ds: seq<nat>): (mac: string)
    requires |ds| == 12 && forall k :: 0 <= k < 12 ==> ds[k] < 16
    ensures |mac| == 17
    ensures forall i :: 0 <= i < 17 ==> if i % 3 == 2 then mac[i] == ':' else IsUpperHexDigit(mac[i])
  {
    forall d: nat | d < 16 ensures IsUpperHexDigit(HexChars[d]) {
      HexCharsAreUpperHex(d);
    }
    seq(17, i requires 0 <= i < 17 => if i % 3 == 2 then ':' else HexChars[ds[i / 3 * 2 + i % 3]])
  }

  /** The address six rounds of two hex draws produce. */
  function MacOf(draws: seq<real>): (mac: string)
    requires |draws| == 12 && forall k :: 0 <= k < 12 ==> IsDraw(draws[k])
    ensures |mac| == 17
    ensures forall i :: 0 <= i < 17 ==> if i % 3 == 2 then mac[i] == ':' else IsUpperHexDigit(mac[i])
  {
    MacOfDigits(HexDigitsOf(draws))
  }

  /** `generateMacAddress` */
  method GenerateMacAddress(draws: seq<real>) returns (mac: string)
    requires |draws| == 12 && forall k :: 0 <= k < 12 ==> IsDraw(draws[k])
    ensures mac == MacOf(draws)
  {
    mac := "";
    var i := 0;
    while i < 6
      invariant 0 <= i <= 6
      invariant |mac| == if i == 0 then 0 else 3 * i - 1
      invariant mac == MacOf(draws)[..|mac|]
    {
      if i > 0 {
        assert (3 * i - 1) % 3 == 2;
        mac := mac + ":";
      }
      assert (3 * i) / 3 * 2 + (3 * i) % 3 == 2 * i;
      assert (3 * i + 1) / 3 * 2 + (3 * i + 1) % 3 == 2 * i + 1;
      mac := mac + [HexChars[RandomIndex(draws[2 * i], 16)], HexChars[RandomIndex(draws[2 * i + 1], 16)]];
      assert mac == MacOf(draws)[..|mac|];
      i := i + 1;
    }
  }

  /** A generated address has the seventeen-character layout with `:`
      separators, so it passes the add dialog's pattern. */
  lemma GeneratedAddressIsValid(draws: seq<real>)
    requires |draws| == 12 && forall k :: 0 <= k < 12 ==> IsDraw(draws[k])
    ensures IsMacLayout(MacOf(draws))
    ensures forall i :: 0 <= i < 17 && i % 3 == 2 ==> MacOf(draws)[i] == ':'
    ensures ValidateMacAddress(MacOf(draws))
  {
    var mac := MacOf(draws);
    assert HasMacLayout(mac);
    ValidateMacAddressIff(mac);
  }

  /** A generated address is already in the form the add dialog's MAC field
      would store: formatting and upper-casing leave it unchanged. */
  lemma GeneratedAddressIsCanonical(draws: seq<real>)
    requires |draws| == 12 && forall k :: 0 <= k < 12 ==> IsDraw(draws[k])
    ensures FormatMacAddress(MacOf(draws)) == MacOf(draws)
    ensures NormalizeMac(MacOf(draws)) == MacOf(draws)
  {
    var mac := MacOf(draws);
    GeneratedAddressIsValid(draws);
    CanonicalIsFormatted(mac);
    assert ToUpper(mac) == mac;
  }

  // ---------------------------------------------------------------- devices

  /** The draws made for one sample device, named after what they choose. */
  datatype DeviceDraws = DeviceDraws(
    typeDraw: real,
    locationDraw: real,
    macDraws: seq<real>,
    onlineDraw: real,
    daysDraw: real,
    modelDraw: real,
    manufacturerDraw: real)

  predicate ValidDraws(d: DeviceDraws)
  {
    IsDraw(d.typeDraw) && IsDraw(d.locationDraw) && IsDraw(d.onlineDraw) && IsDraw(d.daysDraw)
    && IsDraw(d.modelDraw) && IsDraw(d.manufacturerDraw)
    && |d.macDraws| == 12 && forall k :: 0 <= k < 12 ==> IsDraw(d.macDraws[k])
  }

  /** A generated address always has a code. */
  lemma GeneratedAddressHasCode(draws: seq<real>)
    requires |draws| == 12 && forall k :: 0 <= k < 12 ==> IsDraw(draws[k])
    ensures DeriveQrHash(MacOf(draws)).Success?
  {
    var mac := MacOf(draws);
    assert IsMacText(mac);
    MacTextBytes(mac);
  }

  /** The model and the manufacturer are among those listed for the
      device's type. */
  predicate ListedForType(dev: Device)
  {
    ModelTable(dev.deviceType).Some? && dev.model in ModelTable(dev.deviceType).value
    && ManufacturerTable(dev.deviceType).Some? && dev.manufacturer.Some?
    && dev.manufacturer.value in ManufacturerTable(dev.deviceType).value
  }

  /** A known type's model and manufacturer picks are listed for it. */
  lemma PicksAreListed(t: string, modelDraw: real, manufacturerDraw: real)
    requires t in DeviceTypes && IsDraw(modelDraw) && IsDraw(manufacturerDraw)
    ensures ModelTable(t).Some? && GetModelByType(t, modelDraw) in ModelTable(t).value
    ensures ManufacturerTable(t).Some? && GetManufacturerByType(t, manufacturerDraw) in ManufacturerTable(t).value
  {
    ModelTableKeys(t);
    ManufacturerTableKeys(t);
  }

  /** The elapsed time is a whole number of days. */
  predicate WholeDaysApart(now: int, last: int)
  {
    (now - last) % MillisPerDay == 0
  }

  /** `date.setDate(date.getDate() - daysAgo)`: a whole number of days back,
      fewer than thirty. */
  function DaysBack(now: int, daysAgo: nat): (last: int)
    requires daysAgo < 30
    ensures now - last == daysAgo * MillisPerDay
    ensures 0 <= now - last < 30 * MillisPerDay
    ensures WholeDaysApart(now, last)
  {
    var last := now - daysAgo * MillisPerDay;
    assert now - last == daysAgo * MillisPerDay;
    last
  }

  /** The card of a sample device shows exactly the drawn number of days:
      "Hoje" for 0, "Ontem" for 1, otherwise "<n> dias atrás". */
  lemma SampleActivityLabel(now: int, daysAgo: nat)
    requires daysAgo < 30
    ensures DaysSince(now - DaysBack(now, daysAgo)) == daysAgo
    ensures LastActivityLabel(DaysBack(now, daysAgo), now)
      == if daysAgo == 0 then Today else if daysAgo == 1 then Yesterday
         else IntToDecimal(daysAgo) + DaysAgoSuffix
  {
    DaysSinceUnique(now - DaysBack(now, daysAgo), daysAgo);
  }

  /** The device a loop round pushes, given its draws and the address
      `generateMacAddress` returned. */
  function MockDeviceFrom(i: nat, d: DeviceDraws, mac: string, now: int): (dev: Device)
    requires ValidDraws(d) && IsLatin1(mac)
    ensures dev.id == NatToDecimal(i) && dev.macAddress == mac
    ensures DeriveQrHash(mac) == Success(dev.qrHash)
    ensures dev.status == Online <==> d.onlineDraw > 0.3
    ensures 0 <= now - dev.lastActivity < 30 * MillisPerDay
    ensures dev.deviceType in DeviceTypes && dev.name == DisplayName(dev.deviceType, i)
    ensures dev.location in Locations
    ensures ListedForType(dev)
    ensures dev.description == Some("Dispositivo " + dev.deviceType + " localizado em " + dev.location)
    ensures WholeDaysApart(now, dev.lastActivity)
  {
    var t := DeviceTypes[RandomIndex(d.typeDraw, |DeviceTypes|)];
    var location := Locations[RandomIndex(d.locationDraw, |Locations|)];
    var daysAgo := RandomIndex(d.daysDraw, 30);
    var last := DaysBack(now, daysAgo);
    PicksAreListed(t, d.modelDraw, d.manufacturerDraw);
    Device(
      NatToDecimal(i),
      DisplayName(t, i),
      GetModelByType(t, d.modelDraw),
      mac,
      location,
      if d.onlineDraw > 0.3 then Online else Offline,
      DeriveQrHash(mac).value,
      last,
      Some(GetManufacturerByType(t, d.manufacturerDraw)),
      t,
      Some("Dispositivo " + t + " localizado em " + location))
  }

  /** The device the `i`-th round of the loop pushes. */
  function MockDevice(i: nat, d: DeviceDraws, now: int): (dev: Device)
    requires ValidDraws(d)
    ensures dev.id == NatToDecimal(i) && dev.macAddress == MacOf(d.macDraws)
    ensures DeriveQrHash(dev.macAddress) == Success(dev.qrHash)
    ensures dev.status == Online <==> d.onlineDraw > 0.3
    ensures 0 <= now - dev.lastActivity < 30 * MillisPerDay
    ensures dev.deviceType in DeviceTypes && dev.name == DisplayName(dev.deviceType, i)
    ensures dev.location in Locations
    ensures ListedForType(dev)
    ensures dev.description == Some("Dispositivo " + dev.deviceType + " localizado em " + dev.location)
    ensures WholeDaysApart(now, dev.lastActivity)
  {
    GeneratedAddressHasCode(d.macDraws);
    MockDeviceFrom(i, d, MacOf(d.macDraws), now)
  }

  /** A sample device's address is well-formed and its code derived from it. */
  lemma MockDeviceAddress(i: nat, d: DeviceDraws, now: int)
    requires ValidDraws(d)
    ensures ValidateMacAddress(MockDevice(i, d, now).macAddress)
    ensures DeriveQrHash(MockDevice(i, d, now).macAddress) == Success(MockDevice(i, d, now).qrHash)
  {
    GeneratedAddressIsValid(d.macDraws);
  }

  /** A sample device's model and manufacturer come from its type's lists,
      never from the generic fallback. */
  lemma MockDeviceCatalog(i: nat, d: DeviceDraws, now: int)
    requires ValidDraws(d)
    ensures var dev := MockDevice(i, d, now);
      dev.model in ModelTable(dev.deviceType).value
      && dev.manufacturer.value in ManufacturerTable(dev.deviceType).value
      && dev.model != GenericModel && dev.manufacturer.value != GenericManufacturer
  {
    var dev := MockDevice(i, d, now);
    ModelTableEntries(dev.deviceType);
    ManufacturerTableEntries(dev.deviceType);
  }

  /** One loop round: the address is generated, then the rest of the
      device is built from the round's draws. */
  method BuildMockDevice(i: nat, d: DeviceDraws, now: int) returns (device: Device)
    requires ValidDraws(d)
    ensures device == MockDevice(i, d, now)
  {
    var mac := GenerateMacAddress(d.macDraws);
    GeneratedAddressHasCode(d.macDraws);
    device := MockDeviceFrom(i, d, mac, now);
  }

  /** One more round extends the prefix of rounds already built. */
  lemma AppendKeepsMockPrefix(devices: seq<Device>, device: Device, draws: seq<DeviceDraws>, i: nat, now: int)
    requires 1 <= i <= |draws| && forall k :: 0 <= k < |draws| ==> ValidDraws(draws[k])
    requires |devices| == i - 1
    requires forall k :: 0 <= k < i - 1 ==> devices[k] == MockDevice(k + 1, draws[k], now)
    requires device == MockDevice(i, draws[i - 1], now)
    ensures forall k :: 0 <= k < i ==> (devices + [device])[k] == MockDevice(k + 1, draws[k], now)
  {
    forall k | 0 <= k < i
      ensures (devices + [device])[k] == MockDevice(k + 1, draws[k], now)
    {
      if k < i - 1 {
        assert (devices + [device])[k] == devices[k];
      }
    }
  }

  /** Devices numbered in order carry distinct ids. */
  lemma NumberedIdsDistinct(devices: seq<Device>)
    requires forall k :: 0 <= k < |devices| ==> devices[k].id == NatToDecimal(k + 1)
    ensures forall j, k :: 0 <= j < k < |devices| ==> devices[j].id != devices[k].id
  {
    forall j, k | 0 <= j < k < |devices|
      ensures devices[j].id != devices[k].id
    {
      NatToDecimalInjective(j + 1, k + 1);
    }
  }

  /** `generateMockDevices` with the clock reading `now`: twelve devices
      numbered 1 to 12 in order, with distinct ids, well-formed addresses and
      derived codes, each active within the last thirty days. */
  method GenerateMockDevices(draws: seq<DeviceDraws>, now: int) returns (devices: seq<Device>)
    requires |draws| == 12 && forall k :: 0 <= k < 12 ==> ValidDraws(draws[k])
    ensures |devices| == 12
    ensures forall k :: 0 <= k < 12 ==> devices[k] == MockDevice(k + 1, draws[k], now)
    ensures forall j, k :: 0 <= j < k < 12 ==> devices[j].id != devices[k].id
    ensures HashesDerived(devices)
    ensures forall k :: 0 <= k < 12 ==> ValidateMacAddress(devices[k].macAddress)
    ensures forall k :: 0 <= k < 12 ==> 0 <= now - devices[k].lastActivity < 30 * MillisPerDay
  {
    devices := [];
    var i := 1;
    while i <= 12
      invariant 1 <= i <= 13
      invariant |devices| == i - 1
      invariant forall k :: 0 <= k < i - 1 ==> devices[k] == MockDevice(k + 1, draws[k], now)
    {
      var device := BuildMockDevice(i, draws[i - 1], now);
      AppendKeepsMockPrefix(devices, device, draws, i, now);
      devices := devices + [device];
      i := i + 1;
    }
    forall k | 0 <= k < 12
      ensures ValidateMacAddress(devices[k].macAddress)
    {
      GeneratedAddressIsValid(draws[k].macDraws);
    }
    NumberedIdsDistinct(devices);
  }
}
