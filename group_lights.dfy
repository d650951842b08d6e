/** What the cloud-free group library hands to the group light services: a
    group of lights found by label, the outcome of one lookup, and the colour
    commands sent to a group. */
module Golifx {
  import opened Wrappers
  import opened Colors

  /** A group as the library returns it: its label (name) and its member lights. */
  datatype Group = Group(name: string, lights: seq<string>)

  /** One group lookup: cut off by its timeout, or completed with the group
      found (none when the label is unknown or the lookup failed). */
  datatype Lookup = TimedOut | Completed(group: Option<Group>)

  /** A set-colour command sent to a whole group; duration in nanoseconds. */
  datatype Command = Command(color: Hsbk, duration: int)

  /** LightCount: the number of lights in the group, 0 when there is none. */
  method CountLights(group: Option<Group>) returns (count: nat)
    ensures group.None? ==> count == 0
    ensures group.Some? ==> count == |group.value.lights|
  {
    if group.None? {
      return 0;
    }
    count := 0;
    var members := group.value.lights;
    for i := 0 to |members|
      invariant count == i
    {
      count := count + 1;
    }
  }
}

/** The group light service of lights/lifx/lifx.go. Colours asked for before
    the group is found are remembered, and the latest is sent once, with no
    transition, when the group is first found. */
module GroupLights {
  import opened Wrappers
  import opened Colors
  import opened LifxColor
  import opened Golifx

  /** The command the service sends for an RGB colour. */
  function GroupCommand(color: Rgb, config: Config, duration: int): Command
  {
    Command(AdjustColor(NewLifxColor(color), config), duration)
  }

  class LifxLights {
    const config: Config
    var initialColor: Rgb
    var hasSetInitialColor: bool
    /** Whether a library client is held (the client pointer is not nil). */
    var client: bool
    var group: Option<Group>
    /** Every command sent to the group, oldest first. */
    var sent: seq<Command>

    /** The initial colour has been sent exactly when a group has been found;
        nothing is sent before that, and the first command is then the
        remembered colour with no transition. */
    ghost predicate Valid()
      reads this
    {
      && (hasSetInitialColor <==> group.Some?)
      && (group.None? ==> sent == [])
      && (hasSetInitialColor ==> |sent| > 0 && sent[0] == GroupCommand(initialColor, config, 0))
    }

    /** NewLifx: white is remembered until a group is found. */
    constructor (config: Config)
      ensures Valid()
      ensures this.config == config && initialColor == White && !hasSetInitialColor
      ensures !client && group == None && sent == []
    {
      this.config := config;
      initialColor := White;
      hasSetInitialColor := false;
      client := false;
      group := None;
      sent := [];
    }

    /** Start's client creation: the client is kept only when it could be
        created. */
    method StartClient(created: bool)
      requires Valid()
      modifies this
      ensures Valid()
      ensures client == (old(client) || created)
      ensures initialColor == old(initialColor) && hasSetInitialColor == old(hasSetInitialColor)
      ensures group == old(group) && sent == old(sent)
    {
      if created {
        client := true;
      }
    }

    /** Stop drops the client; everything else stays. */
    method Stop()
      requires Valid()
      modifies this
      ensures Valid()
      ensures !client
      ensures initialColor == old(initialColor) && hasSetInitialColor == old(hasSetInitialColor)
      ensures group == old(group) && sent == old(sent)
    {
      client := false;
    }

    /** SetColorWithDuration: without a group, the colour is remembered while
        the initial colour is still unsent and nothing is sent; with a group,
        the adjusted colour is sent. */
    method SetColorWithDuration(color: Rgb, duration: int)
      modifies this
      ensures old(Valid()) ==> Valid()
      ensures client == old(client) && group == old(group) && hasSetInitialColor == old(hasSetInitialColor)
      ensures old(group).None? ==>
                sent == old(sent) && initialColor == (if old(hasSetInitialColor) then old(initialColor) else color)
      ensures old(group).Some? ==>
                sent == old(sent) + [GroupCommand(color, config, duration)] && initialColor == old(initialColor)
    {
      if group.None? {
        if !hasSetInitialColor {
          initialColor := color;
        }
        return;
      }
      var command := GroupCommand(color, config, duration);
      sent := sent + [command];
    }

    /** One discovery: nothing happens without a client; a found group
        replaces the current one, and the first time a group is found the
        remembered colour is sent with no transition. */
    method Discover(lookup: Lookup)
      requires Valid()
      modifies this
      ensures Valid()
      ensures client == old(client) && initialColor == old(initialColor)
      ensures !old(client) || !(lookup.Completed? && lookup.group.Some?) ==>
                group == old(group) && sent == old(sent) && hasSetInitialColor == old(hasSetInitialColor)
      ensures old(client) && lookup.Completed? && lookup.group.Some? ==>
                && group == lookup.group && hasSetInitialColor
                && sent == old(sent) + (if old(hasSetInitialColor) then [] else [GroupCommand(old(initialColor), config, 0)])
    {
      if !client {
        return;
      }
      if lookup.Completed? && lookup.group.Some? {
        group := lookup.group;
        if !hasSetInitialColor {
          SetColorWithDuration(initialColor, 0);
          hasSetInitialColor := true;
        }
      }
    }

    method LightCount() returns (count: nat)
      ensures group.None? ==> count == 0
      ensures group.Some? ==> count == |group.value.lights|
    {
      count := CountLights(group);
    }
  }
}

/** The group light service of internal/lights/lifx/lifx.go: built only with
    a client, it tracks the group of the last successful lookup and sends the
    adjusted colour to it. */
module InternalGroupLights {
  import opened Wrappers
  import opened Colors
  import opened LifxColor
  import opened Golifx

  class LifxLights {
    const config: Config
    var group: Option<Group>
    /** Every command sent to the group, oldest first. */
    var sent: seq<Command>

    /** NewLifx once the client was created. */
    constructor (config: Config)
      ensures this.config == config && group == None && sent == []
    {
      this.config := config;
      group := None;
      sent := [];
    }

    /** A found group replaces the current one; a timed-out or empty lookup
        changes nothing. */
    method Discover(lookup: Lookup)
      modifies this
      ensures sent == old(sent)
      ensures group == (if lookup.Completed? && lookup.group.Some? then lookup.group else old(group))
    {
      if lookup.Completed? && lookup.group.Some? {
        group := lookup.group;
      }
    }

    /** Sends the adjusted colour to the group, which must have been found:
        the source calls the group without a nil check. */
    method SetColorWithDuration(color: Rgb, duration: int)
      requires group.Some?
      modifies this
      ensures group == old(group)
      ensures sent == old(sent) + [Command(AdjustColor(NewLifxColor(color), config), duration)]
    {
      sent := sent + [Command(AdjustColor(NewLifxColor(color), config), duration)];
    }

    method LightCount() returns (count: nat)
      ensures group.None? ==> count == 0
      ensures group.Some? ==> count == |group.value.lights|
    {
      count := CountLights(group);
    }
  }
}
