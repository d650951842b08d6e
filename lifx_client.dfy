/** The older LAN client of lifx/lifx.go: a map from label to light that each
    discovery scan upserts device by device and never sweeps, a colour send
    that never changes the map, and a stop that closes every connection while
    keeping the entries. Network calls are oracle outcomes; a scan and a send
    run as one sequential loop each. Durations are in nanoseconds. */
module LifxClient {
  import opened Wrappers
  import opened Colors
  import opened Lan

  const Millisecond: int := 1_000_000

  /** The colour a reset sends: neutral white at half brightness, 5000 K. */
  const DefaultColor: Hsbk := Hsbk(0, 0, 32767, 5000)

  /** What one light is asked to do: show a colour over a transition time. */
  datatype Send = Send(color: Hsbk, duration: int)

  class Light {
    const device: Device
    const conn: Conn
    /** Whether the connection has not been closed yet. */
    var open: bool

    constructor (device: Device, conn: Conn)
      ensures this.device == device && this.conn == conn && open
    {
      this.device := device;
      this.conn := conn;
      open := true;
    }

    method Close()
      modifies this
      ensures !open
    {
      open := false;
    }
  }

  /** newLight: a light exists only once its dial succeeded. */
  method NewLight(device: Device, dial: Option<Conn>) returns (light: Light?)
    ensures dial.None? ==> light == null
    ensures dial.Some? ==> light != null && fresh(light) && light.device == device && light.conn == dial.value && light.open
  {
    if dial.None? {
      return null;
    }
    light := new Light(device, dial.value);
  }

  // ---------------------------------------------------------------------------
  // What a scan does to the set of labels

  /** Presence of a label after one report: a known label whose heartbeat
      succeeds stays; any other wrapped label is present exactly when its
      (re)dial succeeds. */
  function StepKeys(keys: set<string>, r: Report): set<string>
  {
    match r
    case WrapFailed => keys
    case Wrapped(device, heartbeatOk, dial) =>
      if device.name in keys && heartbeatOk then keys
      else if dial.Some? then keys + {device.name}
      else keys - {device.name}
  }

  function ScanKeys(keys: set<string>, reports: seq<Report>): set<string>
  {
    if reports == [] then keys
    else StepKeys(ScanKeys(keys, reports[..|reports| - 1]), reports[|reports| - 1])
  }

  /** A scan never removes a label that it did not report, and adds only
      labels it reported. */
  lemma {:induction false} ScanKeysBounds(keys: set<string>, reports: seq<Report>)
    ensures keys - Reported(reports) <= ScanKeys(keys, reports) <= keys + Reported(reports)
  {
    if reports != [] {
      ScanKeysBounds(keys, reports[..|reports| - 1]);
    }
  }

  /** The last report of a label decides whether it is present after the scan:
      a label whose last report had a successful dial is present, and one whose
      last report had both a failed heartbeat and a failed dial is gone. */
  lemma {:induction false} LastReportDecides(keys: set<string>, reports: seq<Report>, i: nat)
    requires i < |reports| && reports[i].Wrapped?
    requires forall j | i < j < |reports| :: !(reports[j].Wrapped? && reports[j].device.name == reports[i].device.name)
    ensures reports[i].dial.Some? ==> reports[i].device.name in ScanKeys(keys, reports)
    ensures !reports[i].echoOk && reports[i].dial.None? ==> reports[i].device.name !in ScanKeys(keys, reports)
  {
    var front := reports[..|reports| - 1];
    if i < |reports| - 1 {
      assert front[i] == reports[i];
      LastReportDecides(keys, front, i);
    } else {
      assert front == reports[..i];
    }
  }

  class LifxClient {
    var devices: map<string, Light>

    /** Each entry is keyed by its own device's label. */
    ghost predicate Valid()
      reads this
    {
      forall name | name in devices :: devices[name].device.name == name
    }

    constructor ()
      ensures Valid() && devices == map[]
    {
      devices := map[];
    }

    /** The per-device step of a scan. A wrap failure changes nothing; a known
        label whose heartbeat succeeds is skipped; otherwise the label is
        deleted (its connection is left open) and dialled again, and the new
        light is recorded when the dial succeeds. */
    method DiscoverDevice(r: Report)
      requires Valid()
      modifies this
      ensures Valid()
      ensures devices.Keys == StepKeys(old(devices).Keys, r)
      ensures r.WrapFailed? || (r.device.name in old(devices) && r.echoOk) ==> devices == old(devices)
      ensures r.Wrapped? && !(r.device.name in old(devices) && r.echoOk) ==>
                && (forall name | name in devices && name != r.device.name :: devices[name] == old(devices)[name])
                && (r.dial.Some? ==> fresh(devices[r.device.name]) && devices[r.device.name].conn == r.dial.value
                                     && devices[r.device.name].open)
    {
      if r.WrapFailed? {
        return;
      }
      var name := r.device.name;
      if name in devices {
        if r.echoOk {
          return;
        }
        devices := devices - {name};
      }
      var light := NewLight(r.device, r.dial);
      if light == null {
        return;
      }
      devices := devices[name := light];
    }

    /** One discovery scan over the reports received before its deadline. */
    method DiscoverDevices(reports: seq<Report>)
      requires Valid()
      modifies this
      ensures Valid()
      ensures devices.Keys == ScanKeys(old(devices).Keys, reports)
      ensures forall name | name in old(devices) && name !in Reported(reports) ::
                name in devices && devices[name] == old(devices)[name]
      ensures forall name | name in devices :: devices[name] in old(devices).Values || fresh(devices[name])
    {
      var i := 0;
      while i < |reports|
        invariant 0 <= i <= |reports|
        invariant Valid()
        invariant devices.Keys == ScanKeys(old(devices).Keys, reports[..i])
        invariant forall name | name in old(devices) && name !in Reported(reports[..i]) ::
                    name in devices && devices[name] == old(devices)[name]
        invariant forall name | name in devices :: devices[name] in old(devices).Values || fresh(devices[name])
      {
        assert reports[..i + 1][..i] == reports[..i];
        DiscoverDevice(reports[i]);
        i := i + 1;
      }
      assert reports[..i] == reports;
    }

    /** One colour send to every registered light, open or not. Errors and
        lights that give up are only logged; returns what each light the
        colour reached was sent. The registry is not changed. */
    method SetColor(color: Hsbk, duration: int, failing: set<string>) returns (sent: map<string, Send>)
      ensures sent.Keys == devices.Keys - failing
      ensures forall name | name in sent :: sent[name] == Send(color, duration)
    {
      var snapshot := devices;
      sent := map[];
      var remaining := snapshot.Keys;
      while remaining != {}
        invariant remaining <= snapshot.Keys
        invariant sent.Keys == (snapshot.Keys - remaining) - failing
        invariant forall name | name in sent :: sent[name] == Send(color, duration)
        decreases remaining
      {
        var name :| name in remaining;
        if name !in failing {
          sent := sent[name := Send(color, duration)];
        }
        remaining := remaining - {name};
      }
    }

    /** Sends the default colour with a 10 ms transition. */
    method Reset(failing: set<string>) returns (command: Hsbk, duration: int, sent: map<string, Send>)
      ensures command == Hsbk(0, 0, 32767, 5000) && duration == 10_000_000
      ensures sent.Keys == devices.Keys - failing
      ensures forall name | name in sent :: sent[name] == Send(Hsbk(0, 0, 32767, 5000), 10_000_000)
    {
      command, duration := DefaultColor, 10 * Millisecond;
      sent := SetColor(command, duration, failing);
    }

    /** Closes every registered light's connection and keeps the entries. */
    method Stop()
      modifies devices.Values
      ensures forall name | name in devices :: !devices[name].open
    {
      var remaining := devices.Keys;
      while remaining != {}
        invariant remaining <= devices.Keys
        invariant forall name | name in devices.Keys - remaining :: !devices[name].open
        decreases remaining
      {
        var name :| name in remaining;
        devices[name].Close();
        remaining := remaining - {name};
      }
    }
  }
}
