/**
 * The battery reporter (src/upower.rs): the mapping from UPower's display-device properties
 * to a power snapshot, the in-place merge of changed properties, and the mock counter.
 *
 * D-Bus, the reporter thread, the `RwLock` and the notification channel are left out: the
 * shared status is a field, and each notification sent on the channel is counted.
 */
module UPower {
  import opened Base
  import Themes

  /** UPower's `BatteryState`, with its wire codes 0 to 6. */
  datatype BatteryState = Unknown | Charging | Discharging | Empty | FullyCharged | PendingCharge | PendingDischarge

  function BatteryCode(b: BatteryState): nat
  {
    match b
    case Unknown => 0
    case Charging => 1
    case Discharging => 2
    case Empty => 3
    case FullyCharged => 4
    case PendingCharge => 5
    case PendingDischarge => 6
  }

  /** `BatteryState::try_from` on an unsigned code: only 0 to 6 name a state. */
  function BatteryStateFromCode(code: int): (r: Option<BatteryState>)
    ensures r.Some? <==> 0 <= code <= 6
  {
    if code == 0 then Some(Unknown)
    else if code == 1 then Some(Charging)
    else if code == 2 then Some(Discharging)
    else if code == 3 then Some(Empty)
    else if code == 4 then Some(FullyCharged)
    else if code == 5 then Some(PendingCharge)
    else if code == 6 then Some(PendingDischarge)
    else None
  }

  lemma BatteryCodeRoundTrip(b: BatteryState)
    ensures BatteryStateFromCode(BatteryCode(b)) == Some(b)
  {
  }

  lemma BatteryStateFromCodeRoundTrip(code: int)
    requires BatteryStateFromCode(code).Some?
    ensures BatteryCode(BatteryStateFromCode(code).value) == code
  {
  }

  /** The match in `upower_update` from the battery state to the theme's charge state. */
  function ChargeStateOf(b: BatteryState): Themes.ChargeState
  {
    match b
    case Unknown => Themes.NoCharge
    case Charging => Themes.Charging
    case Discharging => Themes.Discharging
    case Empty => Themes.NoCharge
    case FullyCharged => Themes.NoCharge
    case PendingCharge => Themes.NoCharge
    case PendingDischarge => Themes.Discharging
  }

  /** The mapping is total and sends each of the seven states to the class it belongs to. */
  lemma ChargeStateClasses(b: BatteryState)
    ensures ChargeStateOf(b) == Themes.Charging <==> b == Charging
    ensures ChargeStateOf(b) == Themes.Discharging <==> b == Discharging || b == PendingDischarge
    ensures ChargeStateOf(b) == Themes.NoCharge <==> b in {Unknown, Empty, FullyCharged, PendingCharge}
  {
  }

  /** The property values the model distinguishes (zvariant's `OwnedValue`). */
  datatype Value = Double(d: real) | Int64(i: int) | UInt32(u: U32) | Other

  type Properties = map<string, Value>

  /** A power snapshot as the reporter builds it: level in [0, 1] scale, state, seconds remaining. */
  datatype PowerState = PowerState(level: real, state: Themes.ChargeState, timeRemaining: real)

  /** `f64::try_from(&properties[key])`, or None where the source's `unwrap` would panic. */
  function DoubleProperty(props: Properties, key: string): Option<real>
  {
    if key in props && props[key].Double? then Some(props[key].d) else None
  }

  function Int64Property(props: Properties, key: string): Option<int>
  {
    if key in props && props[key].Int64? then Some(props[key].i) else None
  }

  function StateProperty(props: Properties): Option<BatteryState>
  {
    if "State" in props && props["State"].UInt32? then BatteryStateFromCode(props["State"].u) else None
  }

  /** The `time_remaining` match: TimeToFull when charging, TimeToEmpty when discharging, 0 otherwise. */
  function TimeRemaining(props: Properties, state: Themes.ChargeState): Option<real>
  {
    match state
    case Charging => (var t := Int64Property(props, "TimeToFull"); if t.None? then None else Some(t.value as real))
    case NoCharge => Some(0.0)
    case Discharging => (var t := Int64Property(props, "TimeToEmpty"); if t.None? then None else Some(t.value as real))
  }

  /** The snapshot `upower_update` assigns, or None when one of its `unwrap`s would panic. */
  function Snapshot(props: Properties): Option<PowerState>
  {
    var battery := StateProperty(props);
    var percentage := DoubleProperty(props, "Percentage");
    if battery.None? || percentage.None? then None
    else
      var state := ChargeStateOf(battery.value);
      var time := TimeRemaining(props, state);
      if time.None? then None
      else Some(PowerState(percentage.value / 100.0, state, time.value))
  }

  /**
   * A snapshot exists exactly when the state code is valid, the percentage is present, and the
   * time field the state selects is present; its level is the percentage over 100 and its time
   * comes from that field (0 when not charging or discharging, without reading either field).
   */
  lemma SnapshotFields(props: Properties)
    ensures var battery := StateProperty(props);
      Snapshot(props).Some? <==>
        && battery.Some? && DoubleProperty(props, "Percentage").Some?
        && (ChargeStateOf(battery.value) == Themes.Charging ==> Int64Property(props, "TimeToFull").Some?)
        && (ChargeStateOf(battery.value) == Themes.Discharging ==> Int64Property(props, "TimeToEmpty").Some?)
    ensures Snapshot(props).Some? ==>
      var s := Snapshot(props).value;
      && s.state == ChargeStateOf(StateProperty(props).value)
      && s.level * 100.0 == DoubleProperty(props, "Percentage").value
      && s.timeRemaining == match s.state
           case Charging => Int64Property(props, "TimeToFull").value as real
           case NoCharge => 0.0
           case Discharging => Int64Property(props, "TimeToEmpty").value as real
  {
  }

  /** A not-charging snapshot needs neither time field: they may be missing or of any type. */
  lemma SnapshotIgnoresTimesWhenNotCharging(props: Properties, v1: Value, v2: Value)
    requires Snapshot(props).Some? && Snapshot(props).value.state == Themes.NoCharge
    ensures Snapshot(props["TimeToFull" := v1]["TimeToEmpty" := v2]) == Snapshot(props)
  {
    var p' := props["TimeToFull" := v1]["TimeToEmpty" := v2];
    assert StateProperty(p') == StateProperty(props);
    assert DoubleProperty(p', "Percentage") == DoubleProperty(props, "Percentage");
  }

  // ------------------------------------------------------------------ property merge

  /** The loop of `get_mut(name).map(|vp| *vp = value)` over the changed properties, in order. */
  function Overwrite(props: Properties, changed: seq<(string, Value)>): Properties
  {
    if changed == [] then props
    else
      var p := Overwrite(props, changed[..|changed| - 1]);
      var (name, value) := changed[|changed| - 1];
      if name in p then p[name := value] else p
  }

  /** The last value the changed list gives a property, if it names it. */
  function LastChange(changed: seq<(string, Value)>, name: string): Option<Value>
  {
    if changed == [] then None
    else if changed[|changed| - 1].0 == name then Some(changed[|changed| - 1].1)
    else LastChange(changed[..|changed| - 1], name)
  }

  /**
   * The merge never adds a key, and a present key takes the last changed value given for it,
   * keeping its old value when it is not named.
   */
  lemma {:induction false} OverwriteOnlyPresentKeys(props: Properties, changed: seq<(string, Value)>)
    ensures Overwrite(props, changed).Keys == props.Keys
    ensures forall name :: name in props ==>
      Overwrite(props, changed)[name] == (if LastChange(changed, name).Some? then LastChange(changed, name).value else props[name])
  {
    if changed != [] {
      OverwriteOnlyPresentKeys(props, changed[..|changed| - 1]);
    }
  }

  /** The reporter: the shared status slot and the number of notifications sent so far. */
  class Reporter {
    var status: Option<PowerState>
    var notifications: nat

    constructor ()
      ensures status == None && notifications == 0
    {
      status := None;
      notifications := 0;
    }

    /**
     * `upower_update`: the status is replaced in one assignment by the whole new snapshot, then
     * a notification is sent.  The source panics when the snapshot cannot be built.
     */
    method Update(props: Properties)
      requires Snapshot(props).Some?
      modifies this
      ensures status == Snapshot(props)
      ensures notifications == old(notifications) + 1
    {
      status := Snapshot(props);
      notifications := notifications + 1;
    }

    /**
     * `spawn_mock`, run for `ticks` iterations of its endless loop: an initial discharging
     * snapshot, then each tick advances `fill` modulo 0x1FF, stores `fill / 512` as the level
     * and notifies.
     */
    method RunMock(ticks: nat)
      modifies this
      ensures status == Some(PowerState(MockLevel(ticks), Themes.Discharging, 0.0))
      ensures notifications == old(notifications) + ticks
    {
      status := Some(PowerState(0.0, Themes.Discharging, 0.0));
      var fill: U32 := 0;
      var i := 0;
      while i < ticks
        invariant i <= ticks
        invariant fill == i % 0x1FF
        invariant status == Some(PowerState(MockLevel(i), Themes.Discharging, 0.0))
        invariant notifications == old(notifications) + i
      {
        MockStep(i);
        fill := (fill + 1) % 0x1FF;
        // the lock's snapshot is updated in place: only its level changes
        status := Some(status.value.(level := fill as real / 512.0));
        notifications := notifications + 1;
        i := i + 1;
      }
    }
  }

  /** The mock's level after `ticks` ticks. */
  function MockLevel(ticks: nat): real
  {
    (ticks % 0x1FF) as real / 512.0
  }

  /** One mock tick: the counter never leaves [0, 0x1FE] (so `fill + 1` never wraps) and the level stays below 1. */
  lemma MockStep(i: nat)
    ensures (i % 0x1FF + 1) % 0x1FF == (i + 1) % 0x1FF
    ensures 0 <= i % 0x1FF <= 0x1FE
    ensures 0.0 <= MockLevel(i) < 1.0
  {
  }

  const DeviceInterface: string := "org.freedesktop.UPower.Device"

  /** The signal loop of `upower_run`, holding its local copy of the device's properties. */
  class Watcher {
    var properties: Properties
    const reporter: Reporter

    /** The start of `upower_run`: the first `get_all` and the first update. */
    constructor (reporter: Reporter, initial: Properties)
      requires Snapshot(initial).Some?
      modifies reporter
      ensures this.reporter == reporter && properties == initial
      ensures reporter.status == Snapshot(initial)
      ensures reporter.notifications == old(reporter.notifications) + 1
    {
      this.reporter := reporter;
      properties := initial;
      new;
      reporter.Update(initial);
    }

    /** The inner loop: each changed property overwrites the local copy only if it is already there. */
    method MergeChanged(changed: seq<(string, Value)>)
      modifies this
      ensures properties == Overwrite(old(properties), changed)
    {
      for i := 0 to |changed|
        invariant properties == Overwrite(old(properties), changed[..i])
      {
        assert changed[..i + 1][..i] == changed[..i];
        var (name, value) := changed[i];
        if name in properties {
          properties := properties[name := value];
        }
      }
      assert changed[..|changed|] == changed;
    }

    /**
     * One `PropertiesChanged` signal: signals for another interface are ignored entirely;
     * otherwise the changes are merged and the reporter receives the new snapshot.
     */
    method OnSignal(interface: string, changed: seq<(string, Value)>)
      requires interface == DeviceInterface ==> Snapshot(Overwrite(properties, changed)).Some?
      modifies this, reporter
      ensures interface != DeviceInterface ==>
        properties == old(properties) && reporter.status == old(reporter.status)
        && reporter.notifications == old(reporter.notifications)
      ensures interface == DeviceInterface ==>
        properties == Overwrite(old(properties), changed)
        && reporter.status == Snapshot(properties)
        && reporter.notifications == old(reporter.notifications) + 1
    {
      if interface != DeviceInterface {
        return;
      }
      MergeChanged(changed);
      reporter.Update(properties);
    }
  }
}
