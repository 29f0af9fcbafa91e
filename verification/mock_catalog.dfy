/** The catalogue the sample devices are drawn from: device types,
    locations, and the model and manufacturer lists of each type. Every
    `Math.random()` draw is a parameter: a real number in [0, 1). */
module MockCatalog {
  import opened Wrappers

  // ---------------------------------------------------------------- random choices

  /** A `Math.random()` result. */
  predicate IsDraw(r: real)
  {
    0.0 <= r < 1.0
  }

  /** `Math.floor(Math.random() * n)`: an index into a list of `n` entries. */
  function RandomIndex(r: real, n: nat): (i: nat)
    requires IsDraw(r) && n > 0
    ensures i < n
    ensures i as real <= r * n as real < (i + 1) as real
  {
    assert 0.0 <= r * n as real < n as real;
    (r * n as real).Floor
  }

  const DeviceTypes: seq<string> :=
    ["router", "switch", "access-point", "server", "printer", "camera", "iot"]

  const Locations: seq<string> := [
    "Sala de Servidores", "Escritório Principal", "Recepção", "Laboratório",
    "Almoxarifado", "Sala de Reunião 1", "Sala de Reunião 2", "Corredor Principal",
    "Estação de Trabalho 1", "Estação de Trabalho 2"]

  const GenericModel: string := "Modelo Genérico"
  const GenericManufacturer: string := "Fabricante Genérico"

  // ---------------------------------------------------------------- models and manufacturers

  /** The `models` record: the candidate models of each known type. */
  function ModelTable(t: string): Option<seq<string>>
  {
    if t == "router" then
      Some(["TP-Link Archer C7", "ASUS RT-AX88U", "Netgear Nighthawk AX12", "Linksys EA7500"])
    else if t == "switch" then
      Some(["Cisco Catalyst 2960", "HP ProCurve 2510", "D-Link DGS-1016A", "Netgear GS308"])
    else if t == "access-point" then
      Some(["Ubiquiti UniFi AP", "Cisco Aironet 2702i", "Aruba AP-305", "Ruckus R320"])
    else if t == "server" then
      Some(["Dell PowerEdge R740", "HP ProLiant DL380", "IBM System x3650", "Supermicro SuperServer"])
    else if t == "printer" then
      Some(["HP LaserJet Pro 404n", "Canon ImageRunner 2645i", "Brother HL-L2350DW", "Epson WorkForce Pro"])
    else if t == "camera" then
      Some(["Hikvision DS-2CD2385G1", "Dahua IPC-HFW4431R-Z", "Axis M3046-V", "Vivotek IP8160"])
    else if t == "iot" then
      Some(["Raspberry Pi 4", "Arduino Uno WiFi", "ESP32 DevKit", "Intel NUC Kit"])
    else None
  }

  /** The `manufacturers` record. */
  function ManufacturerTable(t: string): Option<seq<string>>
  {
    if t == "router" then Some(["TP-Link", "ASUS", "Netgear", "Linksys"])
    else if t == "switch" then Some(["Cisco", "HP", "D-Link", "Netgear"])
    else if t == "access-point" then Some(["Ubiquiti", "Cisco", "Aruba", "Ruckus"])
    else if t == "server" then Some(["Dell", "HP", "IBM", "Supermicro"])
    else if t == "printer" then Some(["HP", "Canon", "Brother", "Epson"])
    else if t == "camera" then Some(["Hikvision", "Dahua", "Axis", "Vivotek"])
    else if t == "iot" then Some(["Raspberry Pi Foundation", "Arduino", "Espressif", "Intel"])
    else None
  }

  /** The `models` record has an entry for exactly the seven device types. */
  lemma ModelTableKeys(t: string)
    ensures ModelTable(t).Some? <==> t in DeviceTypes
  {
  }

  /** Each entry of the `models` record lists four models, none of which is
      the generic fallback. */
  lemma ModelTableEntries(t: string)
    ensures ModelTable(t).Some? ==> |ModelTable(t).value| == 4 && GenericModel !in ModelTable(t).value
  {
  }

  /** Likewise for the `manufacturers` record. */
  lemma ManufacturerTableKeys(t: string)
    ensures ManufacturerTable(t).Some? <==> t in DeviceTypes
  {
  }

  lemma ManufacturerTableEntries(t: string)
    ensures ManufacturerTable(t).Some? ==>
      |ManufacturerTable(t).value| == 4 && GenericManufacturer !in ManufacturerTable(t).value
  {
  }

  /** `models[type] || ['Modelo Genérico']` */
  function ModelChoices(t: string): (ms: seq<string>)
    ensures |ms| > 0
  {
    match ModelTable(t)
    case Some(ms) => ms
    case None => [GenericModel]
  }

  /** `manufacturers[type] || ['Fabricante Genérico']` */
  function ManufacturerChoices(t: string): (ms: seq<string>)
    ensures |ms| > 0
  {
    match ManufacturerTable(t)
    case Some(ms) => ms
    case None => [GenericManufacturer]
  }

  /** `getModelByType`: a listed model of a known type, the generic model otherwise. */
  function GetModelByType(t: string, r: real): (m: string)
    requires IsDraw(r)
    ensures t in DeviceTypes ==> m in ModelTable(t).value && m != GenericModel
    ensures t !in DeviceTypes ==> m == GenericModel
  {
    ModelTableKeys(t);
    ModelTableEntries(t);
    var ms := ModelChoices(t);
    ms[RandomIndex(r, |ms|)]
  }

  /** `getManufacturerByType`: a listed maker of a known type, the generic one otherwise. */
  function GetManufacturerByType(t: string, r: real): (m: string)
    requires IsDraw(r)
    ensures t in DeviceTypes ==> m in ManufacturerTable(t).value && m != GenericManufacturer
    ensures t !in DeviceTypes ==> m == GenericManufacturer
  {
    ManufacturerTableKeys(t);
    ManufacturerTableEntries(t);
    var ms := ManufacturerChoices(t);
    ms[RandomIndex(r, |ms|)]
  }
}
