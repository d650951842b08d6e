/** What the LAN protocol library hands to the light services: devices,
    connections, and the outcome of each device response during a scan. */
module Lan {
  import opened Wrappers

  /** A device as the LIFX library reports it once wrapped as a light. */
  datatype Device = Device(name: string)

  /** An open network connection to one device. */
  datatype Conn = Conn(id: nat)

  /** One response received during a scan, with what the network did: the
      wrap failed, or it gave a light whose echo or heartbeat (asked only when
      the label is known) succeeded or not, and whose dial (tried when the label
      is new, and by the older client also after a failed heartbeat) gave a
      connection or not. A scan cut off by its deadline is a shorter sequence
      of reports. */
  datatype Report = WrapFailed | Wrapped(device: Device, echoOk: bool, dial: Option<Conn>)

  /** Labels of the reports that were wrapped. */
  function Reported(reports: seq<Report>): set<string>
  {
    if reports == [] then {}
    else
      var last := reports[|reports| - 1];
      Reported(reports[..|reports| - 1]) + (if last.Wrapped? then {last.device.name} else {})
  }
}
