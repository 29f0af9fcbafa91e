/** The device record of the inventory and the draft the add form submits. */
module Devices {
  import opened Wrappers

  /** `'online' | 'offline'` */
  datatype Status = Online | Offline

  /** Milliseconds in a day, `1000 * 60 * 60 * 24`. Timestamps are integer
      milliseconds since the epoch. */
  const MillisPerDay: int := 86400000

  /** A registered device. `qrHash` is derived from `macAddress`; the two
      optional fields are `undefined` when absent. */
  datatype Device = Device(
    id: string,
    name: string,
    model: string,
    macAddress: string,
    location: string,
    status: Status,
    qrHash: string,
    lastActivity: int,
    manufacturer: Option<string>,
    deviceType: string,
    description: Option<string>)

  /** `Omit<Device, 'id' | 'qrHash' | 'lastActivity'>`: what a caller hands
      to the dashboard when registering a device. */
  datatype DeviceDraft = DeviceDraft(
    name: string,
    model: string,
    macAddress: string,
    location: string,
    status: Status,
    manufacturer: Option<string>,
    deviceType: string,
    description: Option<string>)

  /** The record built from a draft and the three fields the dashboard fills in. */
  function FromDraft(d: DeviceDraft, id: string, qrHash: string, lastActivity: int): Device
  {
    Device(id, d.name, d.model, d.macAddress, d.location, d.status, qrHash, lastActivity,
           d.manufacturer, d.deviceType, d.description)
  }
}
