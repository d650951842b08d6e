/** The LAN light registry of internal/lights/lifx.go: a map from a light's
    label to its connected light, reconciled by each discovery scan and pruned
    by each colour dispatch. Network calls (wrap, echo, dial, set-colour) are
    oracle outcomes handed in with the scan or the dispatch; each scan and each
    dispatch runs as one sequential loop. */
module LightRegistry {
  import opened Wrappers
  import opened Colors
  import opened Lan
  import LifxColor

  class LifxLight {
    const device: Device
    var conn: Option<Conn>

    constructor (device: Device, conn: Conn)
      ensures this.device == device && this.conn == Some(conn)
    {
      this.device := device;
      this.conn := Some(conn);
    }

    predicate Connected()
      reads this
    {
      conn.Some?
    }

    /** Closes the connection if there is one; returns the connection it closed. */
    method Disconnect() returns (closed: Option<Conn>)
      modifies this
      ensures !Connected()
      ensures closed == old(conn)
    {
      closed := conn;
      if conn.Some? {
        conn := None;
      }
    }
  }

  /** newLifxLight: a light is created only when the dial succeeds. */
  method NewLifxLight(device: Device, dial: Option<Conn>) returns (light: LifxLight?)
    ensures dial.None? ==> light == null
    ensures dial.Some? ==> light != null && fresh(light) && light.device == device && light.conn == dial
  {
    if dial.None? {
      return null;
    }
    light := new LifxLight(device, dial.value);
  }

  // ---------------------------------------------------------------------------
  // What a scan does to the set of labels

  /** Effect of one report on the registry's labels inside the loop. */
  function StepKeys(keys: set<string>, r: Report): set<string>
  {
    match r
    case WrapFailed => keys
    case Wrapped(device, echoOk, dial) =>
      if device.name in keys then (if echoOk then keys else keys - {device.name})
      else if dial.Some? then keys + {device.name}
      else keys
  }

  /** Labels after the loop over the reports, before the end-of-scan sweep. */
  function LoopKeys(keys: set<string>, reports: seq<Report>): set<string>
  {
    if reports == [] then keys
    else StepKeys(LoopKeys(keys, reports[..|reports| - 1]), reports[|reports| - 1])
  }

  /** Labels after the whole scan: the sweep removes every label known before
      the scan that no report carried. */
  function ScanKeys(keys: set<string>, reports: seq<Report>): set<string>
  {
    LoopKeys(keys, reports) - (keys - Reported(reports))
  }

  /** Presence of one label, followed through the reports on its own. */
  function StepPresent(name: string, present: bool, r: Report): bool
  {
    match r
    case WrapFailed => present
    case Wrapped(device, echoOk, dial) =>
      if device.name != name then present
      else if present then echoOk
      else dial.Some?
  }

  function NamePresent(name: string, present: bool, reports: seq<Report>): bool
  {
    if reports == [] then present
    else StepPresent(name, NamePresent(name, present, reports[..|reports| - 1]), reports[|reports| - 1])
  }

  /** The reports that carry a given label. */
  function ReportsFor(name: string, reports: seq<Report>): seq<Report>
  {
    if reports == [] then []
    else
      var last := reports[|reports| - 1];
      ReportsFor(name, reports[..|reports| - 1]) + (if last.Wrapped? && last.device.name == name then [last] else [])
  }

  /** No report of this label had a failed echo. */
  function NoEchoFailure(name: string, reports: seq<Report>): bool
  {
    if reports == [] then true
    else
      var last := reports[|reports| - 1];
      NoEchoFailure(name, reports[..|reports| - 1]) && !(last.Wrapped? && last.device.name == name && !last.echoOk)
  }

  /** The scan functions over one more report of the same list. */
  lemma ScanPrefix(keys: set<string>, reports: seq<Report>, i: nat)
    requires i < |reports|
    ensures LoopKeys(keys, reports[..i + 1]) == StepKeys(LoopKeys(keys, reports[..i]), reports[i])
    ensures Reported(reports[..i + 1]) == Reported(reports[..i]) + (if reports[i].Wrapped? then {reports[i].device.name} else {})
    ensures forall name :: NoEchoFailure(name, reports[..i + 1]) ==
              (NoEchoFailure(name, reports[..i]) && !(reports[i].Wrapped? && reports[i].device.name == name && !reports[i].echoOk))
  {
    assert reports[..i + 1][..i] == reports[..i];
  }

  /** A label whose entry survives the scan as the very same object: known
      before, and every echo during the scan succeeded. */
  predicate Kept(name: string, keys: set<string>, reports: seq<Report>)
  {
    name in keys && NoEchoFailure(name, reports)
  }

  /** One label's fate depends only on the reports carrying it: the loop keeps
      a label exactly when its own trace keeps it. */
  lemma {:induction false} LoopKeysLocal(keys: set<string>, reports: seq<Report>, name: string)
    ensures name in LoopKeys(keys, reports) <==> NamePresent(name, name in keys, reports)
  {
    if reports != [] {
      LoopKeysLocal(keys, reports[..|reports| - 1], name);
    }
  }

  /** The trace of one label is the same over its own reports alone. */
  lemma {:induction false} NamePresentFilter(name: string, present: bool, reports: seq<Report>)
    ensures NamePresent(name, present, reports) == NamePresent(name, present, ReportsFor(name, reports))
  {
    if reports != [] {
      var front, last := reports[..|reports| - 1], reports[|reports| - 1];
      NamePresentFilter(name, present, front);
      var rf := ReportsFor(name, front);
      if last.Wrapped? && last.device.name == name {
        assert ReportsFor(name, reports) == rf + [last];
        assert (rf + [last])[..|rf + [last]| - 1] == rf;
      } else {
        assert ReportsFor(name, reports) == rf;
      }
    }
  }

  /** A label that no report carries keeps its membership through the loop. */
  lemma {:induction false} UnreportedUntouched(keys: set<string>, reports: seq<Report>, name: string)
    requires name !in Reported(reports)
    ensures name in LoopKeys(keys, reports) <==> name in keys
  {
    if reports != [] {
      UnreportedUntouched(keys, reports[..|reports| - 1], name);
    }
  }

  /** A label known before the scan whose every echo succeeded is still present
      after the loop. */
  lemma {:induction false} KeptStaysPresent(keys: set<string>, reports: seq<Report>, name: string)
    requires Kept(name, keys, reports)
    ensures name in LoopKeys(keys, reports)
  {
    if reports != [] {
      KeptStaysPresent(keys, reports[..|reports| - 1], name);
    }
  }

  /** The eviction rule: after a scan, a label is registered exactly when a
      report carried it and its own trace keeps it; in particular every label
      left is one reported in this scan, and every label known before it and
      not reported is gone. */
  lemma ScanKeysMembership(keys: set<string>, reports: seq<Report>, name: string)
    ensures name in ScanKeys(keys, reports) <==>
              name in Reported(reports) && NamePresent(name, name in keys, ReportsFor(name, reports))
    ensures name in keys && name !in Reported(reports) ==> name !in ScanKeys(keys, reports)
  {
    LoopKeysLocal(keys, reports, name);
    NamePresentFilter(name, name in keys, reports);
    if name !in Reported(reports) {
      UnreportedUntouched(keys, reports, name);
    }
  }

  /** Every label left after a scan was reported during it. */
  lemma ScanKeysReported(keys: set<string>, reports: seq<Report>)
    ensures ScanKeys(keys, reports) <= Reported(reports)
  {
    forall name | name in ScanKeys(keys, reports)
      ensures name in Reported(reports)
    {
      ScanKeysMembership(keys, reports, name);
    }
  }

  /** For a label reported once in a scan: a known light stays iff its echo
      succeeded, a new light is added iff its dial succeeded. */
  lemma ScanSingleReport(keys: set<string>, reports: seq<Report>, device: Device, echoOk: bool, dial: Option<Conn>)
    requires ReportsFor(device.name, reports) == [Wrapped(device, echoOk, dial)]
    ensures device.name in ScanKeys(keys, reports) <==>
              (if device.name in keys then echoOk else dial.Some?)
  {
    var name := device.name;
    ScanKeysMembership(keys, reports, name);
    ReportedHasReports(name, reports);
    var one := [Wrapped(device, echoOk, dial)];
    assert one[..0] == [];
  }

  lemma {:induction false} ReportedHasReports(name: string, reports: seq<Report>)
    ensures name in Reported(reports) <==> ReportsFor(name, reports) != []
  {
    if reports != [] {
      ReportedHasReports(name, reports[..|reports| - 1]);
    }
  }

  // ---------------------------------------------------------------------------
  // The registry

  /** The colour every light is sent for an RGB input: converted, then held
      between 40% and 70% brightness. */
  function DispatchColor(color: Rgb): (c: Hsbk)
    ensures 26214 <= c.brightness <= 45874 && c.kelvin == 3500
    ensures var hsb := LifxColor.NewLifxColor(color); c.hue == hsb.hue && c.saturation == hsb.saturation
  {
    LifxColor.NormalizeBrightnessBounds(LifxColor.NewLifxColor(color));
    LifxColor.NormalizeBrightness(LifxColor.NewLifxColor(color))
  }

  class LifxLights {
    const groupName: string
    var lights: map<string, LifxLight>

    /** Each entry is keyed by its own device's label, so no two labels share
        an entry object. */
    ghost predicate Valid()
      reads this
    {
      forall name | name in lights :: lights[name].device.name == name
    }

    ghost predicate AllConnected()
      reads this, lights.Values
    {
      forall name | name in lights :: lights[name].Connected()
    }

    constructor (groupName: string)
      ensures Valid() && AllConnected()
      ensures this.groupName == groupName && lights == map[]
    {
      this.groupName := groupName;
      lights := map[];
    }

    function LightCount(): (count: nat)
      reads this
      ensures count == 0 <==> lights == map[]
    {
      |lights|
    }

    /** The body of the scan loop for one report: a known label is echoed and
        dropped (disconnected) when the echo fails, a new label is dialled and
        added when the dial succeeds. */
    method HandleReport(r: Report)
      requires Valid()
      modifies this, lights.Values
      ensures Valid()
      ensures lights.Keys == StepKeys(old(lights).Keys, r)
      ensures forall name | name in lights && name in old(lights) && !(r.Wrapped? && r.device.name == name && !r.echoOk) ::
                lights[name] == old(lights)[name] && lights[name].conn == old(lights[name].conn)
      ensures forall name | name in lights && name !in old(lights) :: fresh(lights[name])
      ensures forall name | name in old(lights) && (name !in lights || lights[name] != old(lights)[name]) ::
                !old(lights)[name].Connected()
      ensures forall name | name in old(lights) && name !in lights :: r.Wrapped? && r.device.name == name && !r.echoOk
      ensures forall name | name in old(lights) && name in lights :: lights[name] == old(lights)[name]
      ensures forall o | o in old(lights).Values && o !in lights.Values :: o.conn == None
      ensures forall o | o in old(lights).Values && o in lights.Values :: o.conn == old(o.conn)
      ensures old(AllConnected()) ==> AllConnected()
    {
      if r.Wrapped? {
        var deviceName := r.device.name;
        if deviceName in lights {
          var light := lights[deviceName];
          if !r.echoOk {
            var _ := light.Disconnect();
            lights := lights - {deviceName};
          } else {
            lights := lights[deviceName := light];
          }
        } else {
          var light := NewLifxLight(r.device, r.dial);
          if light != null {
            lights := lights[deviceName := light];
          }
        }
      }
    }

    /** The end-of-scan sweep: every given label still registered is
        disconnected and removed. */
    method Sweep(stale: set<string>) returns (swept: set<string>)
      requires Valid()
      modifies this, lights.Values
      ensures Valid()
      ensures swept == stale * old(lights).Keys
      ensures lights == old(lights) - stale
      ensures forall name | name in lights :: lights[name].conn == old(lights[name].conn)
      ensures forall name | name in swept :: !old(lights)[name].Connected()
      ensures old(AllConnected()) ==> AllConnected()
    {
      swept := {};
      var remaining := stale;
      while remaining != {}
        invariant remaining <= stale
        invariant Valid()
        invariant swept == (stale - remaining) * old(lights).Keys
        invariant lights == old(lights) - (stale - remaining)
        invariant forall name | name in lights :: lights[name].conn == old(lights[name].conn)
        invariant forall name | name in swept :: !old(lights)[name].Connected()
        decreases remaining
      {
        var deviceName :| deviceName in remaining;
        if deviceName in lights {
          var light := lights[deviceName];
          var _ := light.Disconnect();
          lights := lights - {deviceName};
          swept := swept + {deviceName};
        }
        remaining := remaining - {deviceName};
      }
    }

    /** The receive loop of a scan: every report is handled in arrival order,
        and the label of every wrapped device is collected. */
    method HandleReports(reports: seq<Report>) returns (newDeviceNames: seq<string>)
      requires Valid()
      modifies this, lights.Values
      ensures Valid()
      ensures old(AllConnected()) ==> AllConnected()
      ensures forall x :: x in newDeviceNames <==> x in Reported(reports)
      ensures lights.Keys == LoopKeys(old(lights).Keys, reports)
      ensures forall name | Kept(name, old(lights).Keys, reports) :: name in lights
      ensures forall name | name in lights && Kept(name, old(lights).Keys, reports) ::
                lights[name] == old(lights)[name] && lights[name].conn == old(lights[name].conn)
      ensures forall name | name in lights && !Kept(name, old(lights).Keys, reports) :: fresh(lights[name])
      ensures forall name | name in old(lights) && (name !in lights || lights[name] != old(lights)[name]) ::
                !old(lights)[name].Connected()
    {
      ghost var before := lights;
      newDeviceNames := [];
      var i := 0;
      while i < |reports|
        invariant 0 <= i <= |reports|
        invariant Valid()
        invariant forall x :: x in newDeviceNames <==> x in Reported(reports[..i])
        invariant lights.Keys == LoopKeys(before.Keys, reports[..i])
        invariant forall name | Kept(name, before.Keys, reports[..i]) :: name in lights
        invariant forall name | name in lights && Kept(name, before.Keys, reports[..i]) ::
                    lights[name] == before[name] && lights[name].conn == old(before[name].conn)
        invariant forall name | name in lights && !Kept(name, before.Keys, reports[..i]) :: fresh(lights[name])
        invariant forall name | name in before && (name !in lights || lights[name] != before[name]) ::
                    !before[name].Connected()
        invariant old(AllConnected()) ==> AllConnected()
      {
        var r := reports[i];
        ScanPrefix(before.Keys, reports, i);
        if r.Wrapped? {
          newDeviceNames := newDeviceNames + [r.device.name];
        }
        HandleReport(r);
        i := i + 1;
      }
      assert reports[..i] == reports;
    }

    /** The labels known before the scan that no wrapped report named. */
    static method StaleNames(existingDeviceNames: set<string>, newDeviceNames: seq<string>)
      returns (stale: set<string>)
      ensures forall x :: x in stale <==> x in existingDeviceNames && x !in newDeviceNames
    {
      var j := 0;
      stale := existingDeviceNames;
      while j < |newDeviceNames|
        invariant 0 <= j <= |newDeviceNames|
        invariant forall x :: x in stale <==> x in existingDeviceNames && x !in newDeviceNames[..j]
      {
        assert newDeviceNames[..j + 1] == newDeviceNames[..j] + [newDeviceNames[j]];
        stale := stale - {newDeviceNames[j]};
        j := j + 1;
      }
      assert newDeviceNames[..j] == newDeviceNames;
    }

    /** One discovery scan over the reports received before its deadline.
        Returns the labels removed by the end-of-scan sweep. */
    method Discover(reports: seq<Report>) returns (swept: set<string>)
      requires Valid()
      modifies this, lights.Values
      ensures Valid()
      ensures old(AllConnected()) ==> AllConnected()
      ensures lights.Keys == ScanKeys(old(lights).Keys, reports)
      ensures forall name | name in lights && Kept(name, old(lights).Keys, reports) ::
                lights[name] == old(lights)[name] && lights[name].conn == old(lights[name].conn)
      ensures forall name | name in lights && !Kept(name, old(lights).Keys, reports) :: fresh(lights[name])
      ensures forall name | name in old(lights) && (name !in lights || lights[name] != old(lights)[name]) ::
                !old(lights)[name].Connected()
      ensures swept == old(lights).Keys - Reported(reports)
    {
      ghost var before := lights;
      var existingDeviceNames := lights.Keys;
      var newDeviceNames := HandleReports(reports);
      var stale := StaleNames(existingDeviceNames, newDeviceNames);
      assert stale == before.Keys - Reported(reports);

      // Every stale label is still registered with its original entry.
      forall name | name in stale
        ensures name in lights && Kept(name, before.Keys, reports)
      {
        UnreportedUntouched(before.Keys, reports, name);
        UnreportedNoEchoFailure(name, reports);
      }
      swept := Sweep(stale);
    }

    /** One colour dispatch: every connected light in a copy of the registry is
        sent the dispatch colour; each light whose set-colour fails is
        disconnected and deleted from the live registry. Returns the colour sent
        and the labels it was sent to. */
    method SetColorWithDuration(color: Rgb, duration: int, failing: set<string>)
      returns (command: Hsbk, attempted: set<string>)
      requires Valid()
      modifies this, lights.Values
      ensures Valid()
      ensures command == DispatchColor(color)
      ensures attempted == set name | name in old(lights) && old(lights[name].conn).Some?
      ensures lights.Keys == old(lights).Keys - (attempted * failing)
      ensures forall name | name in lights :: lights[name] == old(lights[name]) && lights[name].conn == old(lights[name].conn)
      ensures forall name | name in attempted * failing :: !old(lights)[name].Connected()
      ensures old(AllConnected()) ==> AllConnected()
      ensures |lights| == |old(lights)| - |attempted * failing|
      ensures old(AllConnected()) && failing <= old(lights).Keys ==> |lights| == |old(lights)| - |failing|
    {
      ghost var before := lights;
      ghost var allConnected := AllConnected();
      command := DispatchColor(color);
      attempted := SendAll(failing);
      DispatchCount(before.Keys, attempted, failing, allConnected);
    }

    /** The loop of the dispatch: a copy of the registry is walked, the
        connected lights are sent to, and the failing ones are disconnected
        and deleted from the live registry. */
    method SendAll(failing: set<string>) returns (attempted: set<string>)
      requires Valid()
      modifies this, lights.Values
      ensures Valid()
      ensures attempted == set name | name in old(lights) && old(lights[name].conn).Some?
      ensures lights.Keys == old(lights).Keys - (attempted * failing)
      ensures forall name | name in lights :: lights[name] == old(lights[name]) && lights[name].conn == old(lights[name].conn)
      ensures forall name | name in attempted * failing :: !old(lights)[name].Connected()
      ensures old(AllConnected()) ==> AllConnected()
    {
      var snapshot := lights;
      attempted := {};
      var removed: set<string> := {};
      var remaining := snapshot.Keys;
      while remaining != {}
        invariant remaining <= snapshot.Keys
        invariant Valid()
        invariant lights.Keys == snapshot.Keys - removed
        invariant removed == attempted * failing
        invariant attempted == set name | name in snapshot.Keys - remaining && old(snapshot[name].conn).Some?
        invariant forall name | name in lights :: lights[name] == snapshot[name] && lights[name].conn == old(snapshot[name].conn)
        invariant forall name | name in removed :: !snapshot[name].Connected()
        invariant forall name | name in remaining :: snapshot[name].conn == old(snapshot[name].conn)
        invariant old(AllConnected()) ==> AllConnected()
        decreases remaining
      {
        var name :| name in remaining;
        var light := snapshot[name];
        remaining := remaining - {name};
        if !light.Connected() {
          continue;
        }
        attempted := attempted + {name};
        if name in failing {
          var _ := light.Disconnect();
          lights := lights - {name};
          removed := removed + {name};
        }
      }
    }
  }

  lemma {:induction false} UnreportedNoEchoFailure(name: string, reports: seq<Report>)
    requires name !in Reported(reports)
    ensures NoEchoFailure(name, reports)
  {
    if reports != [] {
      UnreportedNoEchoFailure(name, reports[..|reports| - 1]);
    }
  }

  /** Dispatch isolation: the registry loses exactly the attempted labels
      that fail, so its count drops by their number; when every light was
      connected, every label is attempted and the count drops by the number
      of failing labels. */
  lemma DispatchCount(keys: set<string>, attempted: set<string>, failing: set<string>, allConnected: bool)
    requires attempted <= keys
    requires allConnected ==> attempted == keys
    ensures |keys - attempted * failing| == |keys| - |attempted * failing|
    ensures allConnected && failing <= keys ==> |keys - attempted * failing| == |keys| - |failing|
  {
    RemoveCount(keys, attempted * failing);
    if allConnected && failing <= keys {
      assert attempted * failing == failing;
    }
  }

  /** Removing a subset lowers the size by the subset's size. */
  lemma {:induction false} RemoveCount(keys: set<string>, gone: set<string>)
    requires gone <= keys
    ensures |keys - gone| == |keys| - |gone|
  {
    if gone != {} {
      var x :| x in gone;
      RemoveCount(keys - {x}, gone - {x});
      assert keys - gone == (keys - {x}) - (gone - {x});
    }
  }
}
