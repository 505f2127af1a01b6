/** The threshold controller: once per cycle it refreshes the battery state,
    picks at most one new charge behaviour by three prioritised rules, and
    writes it. */
module Controller {
  import opened Wrappers
  import opened Decimal
  import opened Battery
  import Configuration

  /** The decision cascade of one cycle; `None` means no write. */
  function Decide(st: BatteryState, stop: Int32, start: Int32): (r: Option<ChargeBehaviour>)
    ensures r != Some(ForceDischarge)
    ensures r.Some? ==> r.value != st.chargeBehaviour
    ensures r == Some(InhibitCharge) ==> st.chargingStatus == Charging && st.capacity >= stop
    ensures r == Some(Auto) ==> st.capacity <= start || st.chargingStatus == Discharging
  {
    if st.chargingStatus == Charging && st.capacity >= stop && st.chargeBehaviour != InhibitCharge then
      Some(InhibitCharge)
    else if st.capacity <= start && st.chargeBehaviour != Auto then
      Some(Auto)
    else if st.chargingStatus == Discharging && st.chargeBehaviour != Auto then
      Some(Auto)
    else
      None
  }

  // ---------------------------------------------------------------------
  // The same policy as an ordered table of rules, first match wins

  datatype CapacityTest = AnyCapacity | AtLeast(bound: int) | AtMost(bound: int)

  /** A rule fires when the status matches (if it names one), the capacity
      passes its test, and the current behaviour is not already the target. */
  datatype Rule = Rule(status: Option<ChargingStatus>, capacity: CapacityTest, target: ChargeBehaviour)

  predicate Passes(test: CapacityTest, capacity: int) {
    match test
    case AnyCapacity => true
    case AtLeast(n) => capacity >= n
    case AtMost(n) => capacity <= n
  }

  predicate Fires(rule: Rule, st: BatteryState) {
    && (rule.status.None? || rule.status.value == st.chargingStatus)
    && Passes(rule.capacity, st.capacity)
    && st.chargeBehaviour != rule.target
  }

  /** The target of the first rule that fires. */
  function FirstMatch(rules: seq<Rule>, st: BatteryState): (r: Option<ChargeBehaviour>)
    ensures r.None? <==> forall i :: 0 <= i < |rules| ==> !Fires(rules[i], st)
    ensures r.Some? ==> exists i :: 0 <= i < |rules| && Fires(rules[i], st) && rules[i].target == r.value
                                    && (forall j :: 0 <= j < i ==> !Fires(rules[j], st))
    ensures r.Some? ==> r.value != st.chargeBehaviour
    decreases |rules|
  {
    if |rules| == 0 then None
    else if Fires(rules[0], st) then Some(rules[0].target)
    else
      var r := FirstMatch(rules[1..], st);
      assert forall i :: 1 <= i < |rules| ==> rules[i] == rules[1..][i - 1];
      r
  }

  /** Stop charging when full; resume when drained; resume when unplugged. */
  function Rules(stop: Int32, start: Int32): seq<Rule> {
    [ Rule(Some(Charging), AtLeast(stop), InhibitCharge),
      Rule(None, AtMost(start), Auto),
      Rule(Some(Discharging), AnyCapacity, Auto) ]
  }

  /** The cascade is the table read in order. */
  lemma DecideFollowsRules(st: BatteryState, stop: Int32, start: Int32)
    ensures Decide(st, stop, start) == FirstMatch(Rules(stop, start), st)
  {
    var r0 := Rules(stop, start);
    if !Fires(r0[0], st) {
      var r1 := r0[1..];
      if !Fires(r1[0], st) {
        var r2 := r1[1..];
        if !Fires(r2[0], st) {
          assert r2[1..] == [];
        }
      }
    }
  }

  // ---------------------------------------------------------------------
  // Properties of the decision

  /** Rule 1: charging at or above the stop threshold inhibits charging,
      whatever the start threshold is. */
  lemma InhibitWhenFull(st: BatteryState, stop: Int32, start: Int32)
    requires st.chargingStatus == Charging && st.capacity >= stop
    requires st.chargeBehaviour != InhibitCharge
    ensures Decide(st, stop, start) == Some(InhibitCharge)
  {
  }

  /** Rule 2: when rule 1 does not fire, a capacity at or below the start
      threshold resumes charging, even while the status is Charging. */
  lemma ResumeWhenDrained(st: BatteryState, stop: Int32, start: Int32)
    requires !(st.chargingStatus == Charging && st.capacity >= stop && st.chargeBehaviour != InhibitCharge)
    requires st.capacity <= start && st.chargeBehaviour != Auto
    ensures Decide(st, stop, start) == Some(Auto)
  {
  }

  /** Rule 3: when rules 1 and 2 do not fire, discharging with any behaviour
      other than Auto resumes charging. */
  lemma ResumeWhenUnplugged(st: BatteryState, stop: Int32, start: Int32)
    requires !(st.chargingStatus == Charging && st.capacity >= stop && st.chargeBehaviour != InhibitCharge)
    requires !(st.capacity <= start && st.chargeBehaviour != Auto)
    requires st.chargingStatus == Discharging && st.chargeBehaviour != Auto
    ensures Decide(st, stop, start) == Some(Auto)
  {
  }

  /** A ForceDischarge read back while discharging is always replaced by
      Auto, whatever the capacity and thresholds. */
  lemma ForceDischargeIsCleared(st: BatteryState, stop: Int32, start: Int32)
    requires st.chargingStatus == Discharging && st.chargeBehaviour == ForceDischarge
    ensures Decide(st, stop, start) == Some(Auto)
  {
  }

  /** No write exactly when none of the three guards holds. */
  lemma NoWriteIffNoGuard(st: BatteryState, stop: Int32, start: Int32)
    ensures Decide(st, stop, start).None? <==>
      && !(st.chargingStatus == Charging && st.capacity >= stop && st.chargeBehaviour != InhibitCharge)
      && !(st.capacity <= start && st.chargeBehaviour != Auto)
      && !(st.chargingStatus == Discharging && st.chargeBehaviour != Auto)
  {
  }

  /** Thresholds met exactly: capacity equal to the stop threshold while
      charging inhibits; capacity equal to the start threshold resumes. */
  lemma BoundaryThresholds(stop: Int32, start: Int32)
    ensures Decide(BatteryState(stop, Auto, Charging), stop, start) == Some(InhibitCharge)
    ensures forall s :: Decide(BatteryState(start, InhibitCharge, s), stop, start) == Some(Auto)
  {
  }

  /** Worked scenarios: full while charging; drained while still charging;
      unplugged while inhibited; nothing to do while not charging. */
  lemma Scenarios()
    ensures Decide(BatteryState(90, Auto, Charging), 85, 80) == Some(InhibitCharge)
    ensures Decide(BatteryState(80, InhibitCharge, Charging), 85, 80) == Some(Auto)
    ensures Decide(BatteryState(50, InhibitCharge, Discharging), 85, 80) == Some(Auto)
    ensures Decide(BatteryState(60, Auto, NotCharging), 85, 80) == None
  {
  }

  /** Hysteresis: with the start threshold below the stop threshold, once a
      decision is applied the same readings call for no further write. */
  lemma DecisionSettles(st: BatteryState, stop: Int32, start: Int32)
    requires start < stop
    requires Decide(st, stop, start).Some?
    ensures Decide(st.(chargeBehaviour := Decide(st, stop, start).value), stop, start) == None
  {
  }

  /** Without that gap the controller toggles: with both thresholds at 80 and
      the battery charging at 80%, it inhibits, then resumes, then inhibits. */
  lemma OverlappingThresholdsToggle()
    ensures Decide(BatteryState(80, Auto, Charging), 80, 80) == Some(InhibitCharge)
    ensures Decide(BatteryState(80, InhibitCharge, Charging), 80, 80) == Some(Auto)
  {
  }

  // ---------------------------------------------------------------------
  // One cycle and a bounded run of cycles

  /** A cycle's effect and the behaviour it chose to write, if any. */
  datatype Cycle = Cycle(effect: Effect, command: Option<ChargeBehaviour>)

  /** One iteration of the polling loop: refresh, decide, write at most once. */
  function Step(st: BatteryState, config: Configuration.Config, fs: Sysfs): (c: Cycle)
    ensures c.effect.sysfs.capacity == fs.capacity && c.effect.sysfs.status == fs.status
    ensures c.effect.sysfs.acceptsWrite == fs.acceptsWrite
    ensures c.command.None? ==> c.effect.sysfs == fs
    ensures c.command.Some? ==> c.command.value != ForceDischarge
    ensures Refresh(st, fs).outcome.Fail? ==> c == Cycle(Refresh(st, fs), None)
    ensures Refresh(st, fs).outcome.Pass? ==>
      c.command == Decide(Refresh(st, fs).state, config.stopChargingThreshold, config.startChargingThreshold)
    ensures c.command.Some? ==> c.effect == SetChargeBehaviour(Refresh(st, fs).state, fs, c.command.value)
    ensures c.command.Some? ==> c.command.value != Refresh(st, fs).state.chargeBehaviour
    ensures c.effect.outcome.Pass? ==>
      c.effect.state.capacity == Refresh(st, fs).state.capacity
      && c.effect.state.chargingStatus == Refresh(st, fs).state.chargingStatus
  {
    var refreshed := Refresh(st, fs);
    if refreshed.outcome.Fail? then Cycle(refreshed, None)
    else
      var stop := Configuration.StopChargingThreshold(config);
      var start := Configuration.StartChargingThreshold(config);
      match Decide(refreshed.state, stop, start)
      case None => Cycle(refreshed, None)
      case Some(b) => Cycle(SetChargeBehaviour(refreshed.state, fs, b), Some(b))
  }

  /** After a cycle that passes, the cached behaviour is what the behaviour
      entry now reads as: either the value just read or the value just
      written. */
  lemma StepKeepsCacheCoherent(st: BatteryState, config: Configuration.Config, fs: Sysfs)
    ensures Step(st, config, fs).effect.outcome.Pass? ==>
      ReadChargeBehaviour(Step(st, config, fs).effect.sysfs.chargeBehaviour)
      == Success(Step(st, config, fs).effect.state.chargeBehaviour)
  {
    var refreshed := Refresh(st, fs);
    if refreshed.outcome.Pass? {
      var d := Decide(refreshed.state, config.stopChargingThreshold, config.startChargingThreshold);
      if d.Some? && fs.acceptsWrite {
        WrittenBehaviourReadsBack(refreshed.state, fs, d.value);
      }
    }
  }

  /** When no guard holds, a cycle writes nothing and leaves the behaviour
      as it was read. */
  lemma NoGuardNoWrite(st: BatteryState, config: Configuration.Config, fs: Sysfs)
    requires Refresh(st, fs).outcome.Pass?
    requires Decide(Refresh(st, fs).state, config.stopChargingThreshold, config.startChargingThreshold).None?
    ensures Step(st, config, fs) == Cycle(Refresh(st, fs), None)
    ensures Step(st, config, fs).effect.sysfs == fs
  {
  }

  /** A failed write ends the cycle with the behaviour still as it was read. */
  lemma FailedWriteKeepsBehaviour(st: BatteryState, config: Configuration.Config, fs: Sysfs)
    requires !fs.acceptsWrite
    ensures Step(st, config, fs).effect.state == Refresh(st, fs).state
    ensures Step(st, config, fs).effect.sysfs == fs
    ensures Step(st, config, fs).command.Some? ==> Step(st, config, fs).effect.outcome == Fail(NotAccessible)
  {
  }

  /** Re-reading the entries after a successful write gives the earlier
      readings with the written behaviour. */
  lemma RefreshAfterWrite(st: BatteryState, other: BatteryState, fs: Sysfs, b: ChargeBehaviour)
    requires Refresh(st, fs).outcome.Pass? && fs.acceptsWrite
    ensures Refresh(other, fs.(chargeBehaviour := Some(BehaviourText(b))))
      == Effect(Refresh(st, fs).state.(chargeBehaviour := b), fs.(chargeBehaviour := Some(BehaviourText(b))), Pass)
  {
    var written := SetChargeBehaviour(Refresh(st, fs).state, fs, b);
    WrittenBehaviourReadsBack(Refresh(st, fs).state, fs, b);
    assert ReadChargeBehaviour(written.sysfs.chargeBehaviour) == Success(b);
  }

  /** With the start threshold below the stop threshold and the hardware
      unchanged apart from the write, the cycle after a write writes nothing. */
  lemma StepSettles(st: BatteryState, config: Configuration.Config, fs: Sysfs)
    requires config.startChargingThreshold < config.stopChargingThreshold
    requires Step(st, config, fs).effect.outcome.Pass?
    requires Step(st, config, fs).command.Some?
    ensures Step(Step(st, config, fs).effect.state, config, Step(st, config, fs).effect.sysfs).command.None?
  {
    var refreshed := Refresh(st, fs);
    var stop := config.stopChargingThreshold;
    var start := config.startChargingThreshold;
    var b := Decide(refreshed.state, stop, start).value;
    var after := SetChargeBehaviour(refreshed.state, fs, b);
    assert Step(st, config, fs).effect == after;
    assert after.state == refreshed.state.(chargeBehaviour := b);
    RefreshAfterWrite(st, after.state, fs, b);
    var again := Refresh(after.state, after.sysfs);
    assert again == Effect(after.state, after.sysfs, Pass);
    DecisionSettles(refreshed.state, stop, start);
    assert Decide(again.state, stop, start).None?;
  }

  /** What a bounded run of the loop leaves: the state, the behaviours it
      chose to write, the number of cycles begun, and how it ended. */
  datatype Trace = Trace(state: BatteryState, commands: seq<ChargeBehaviour>, cycles: nat, outcome: Outcome<BatteryError>)

  function CommandSeq(command: Option<ChargeBehaviour>): seq<ChargeBehaviour> {
    match command
    case None => []
    case Some(b) => [b]
  }

  /** `t` preceded by one passing cycle that chose `now`. */
  function AfterCycle(now: seq<ChargeBehaviour>, t: Trace): Trace {
    Trace(t.state, now + t.commands, 1 + t.cycles, t.outcome)
  }

  /** The polling loop driven by any cycle function: one cycle per snapshot
      of the entries, stopping at the first failure. */
  function Loop(cycle: (BatteryState, Sysfs) -> Cycle, st: BatteryState, snapshots: seq<Sysfs>): (t: Trace)
    ensures |t.commands| <= t.cycles <= |snapshots|
    ensures t.outcome.Pass? ==> t.cycles == |snapshots|
    ensures t.outcome.Fail? ==> t.cycles > 0
    ensures (forall x, fs :: cycle(x, fs).command != Some(ForceDischarge)) ==> ForceDischarge !in t.commands
    decreases |snapshots|
  {
    if |snapshots| == 0 then Trace(st, [], 0, Pass)
    else
      var c := cycle(st, snapshots[0]);
      if c.effect.outcome.Fail? then Trace(c.effect.state, CommandSeq(c.command), 1, c.effect.outcome)
      else AfterCycle(CommandSeq(c.command), Loop(cycle, c.effect.state, snapshots[1..]))
  }

  /** Running two stretches of snapshots back to back is running their
      concatenation, when the first stretch passes. */
  lemma {:induction false} LoopComposes(cycle: (BatteryState, Sysfs) -> Cycle, st: BatteryState, a: seq<Sysfs>, b: seq<Sysfs>)
    ensures Loop(cycle, st, a).outcome.Pass? ==>
      var first := Loop(cycle, st, a);
      var second := Loop(cycle, first.state, b);
      Loop(cycle, st, a + b) == Trace(second.state, first.commands + second.commands,
                                      first.cycles + second.cycles, second.outcome)
    decreases |a|
  {
    if |a| == 0 {
      assert a + b == b;
    } else {
      assert (a + b)[0] == a[0];
      assert (a + b)[1..] == a[1..] + b;
      var c := cycle(st, a[0]);
      if c.effect.outcome.Pass? {
        LoopComposes(cycle, c.effect.state, a[1..], b);
        var rest := Loop(cycle, c.effect.state, a[1..]);
        var second := Loop(cycle, rest.state, b);
        var now := CommandSeq(c.command);
        assert now + (rest.commands + second.commands) == (now + rest.commands) + second.commands;
      }
    }
  }

  /** The loop ends at the first failure: no later snapshot is read. */
  lemma {:induction false} LoopStopsAtFailure(cycle: (BatteryState, Sysfs) -> Cycle, st: BatteryState, snapshots: seq<Sysfs>, more: seq<Sysfs>)
    ensures Loop(cycle, st, snapshots).outcome.Fail? ==>
      Loop(cycle, st, snapshots + more) == Loop(cycle, st, snapshots)
    decreases |snapshots|
  {
    if |snapshots| > 0 {
      assert (snapshots + more)[0] == snapshots[0];
      assert (snapshots + more)[1..] == snapshots[1..] + more;
      var c := cycle(st, snapshots[0]);
      if c.effect.outcome.Pass? {
        LoopStopsAtFailure(cycle, c.effect.state, snapshots[1..], more);
      }
    }
  }

  /** A loop over one snapshot is one cycle. */
  lemma LoopOneCycle(cycle: (BatteryState, Sysfs) -> Cycle, st: BatteryState, fs: Sysfs)
    ensures Loop(cycle, st, [fs]) == Trace(cycle(st, fs).effect.state, CommandSeq(cycle(st, fs).command),
                                           1, cycle(st, fs).effect.outcome)
  {
    assert [fs][1..] == [];
    assert [fs][0] == fs;
  }

  /** The controller's cycle under a fixed configuration. */
  function ControllerCycle(config: Configuration.Config): (BatteryState, Sysfs) -> Cycle {
    (x, fs) => Step(x, config, fs)
  }

  /** Runs the controller's cycle over the snapshots; the fixed sleep
      between cycles is not modelled. */
  function Run(st: BatteryState, config: Configuration.Config, snapshots: seq<Sysfs>): (t: Trace)
    ensures |t.commands| <= t.cycles <= |snapshots|
    ensures ForceDischarge !in t.commands
    ensures t.outcome.Pass? ==> t.cycles == |snapshots|
    ensures t.outcome.Fail? ==> t.cycles > 0
  {
    Loop(ControllerCycle(config), st, snapshots)
  }

  /** A run of one snapshot is one cycle. */
  lemma RunOneCycle(st: BatteryState, config: Configuration.Config, fs: Sysfs)
    ensures Run(st, config, [fs]) == Trace(Step(st, config, fs).effect.state,
      CommandSeq(Step(st, config, fs).command), 1, Step(st, config, fs).effect.outcome)
  {
    LoopOneCycle(ControllerCycle(config), st, fs);
    assert ControllerCycle(config)(st, fs) == Step(st, config, fs);
  }

  /** Running two stretches back to back is running their concatenation,
      when the first stretch passes. */
  lemma RunComposes(st: BatteryState, config: Configuration.Config, a: seq<Sysfs>, b: seq<Sysfs>)
    ensures Run(st, config, a).outcome.Pass? ==>
      var first := Run(st, config, a);
      var second := Run(first.state, config, b);
      Run(st, config, a + b) == Trace(second.state, first.commands + second.commands,
                                      first.cycles + second.cycles, second.outcome)
  {
    LoopComposes(ControllerCycle(config), st, a, b);
  }

  /** After a failing cycle no later snapshot is read. */
  lemma RunStopsAtFailure(st: BatteryState, config: Configuration.Config, snapshots: seq<Sysfs>, more: seq<Sysfs>)
    ensures Run(st, config, snapshots).outcome.Fail? ==>
      Run(st, config, snapshots + more) == Run(st, config, snapshots)
  {
    LoopStopsAtFailure(ControllerCycle(config), st, snapshots, more);
  }

  /** `start_handler`: construct the state from a first refresh, then run the
      loop; a failed construction runs no cycle. */
  function StartHandler(config: Configuration.Config, boot: Sysfs, snapshots: seq<Sysfs>): (r: Result<Trace, BatteryError>)
    ensures r.Failure? <==> New(boot).Failure?
    ensures r.Failure? ==> r.error == New(boot).error
    ensures r.Success? ==> r.value == Run(New(boot).value, config, snapshots)
    ensures r.Success? ==> |r.value.commands| <= r.value.cycles <= |snapshots|
    ensures r.Success? ==> ForceDischarge !in r.value.commands
  {
    match New(boot)
    case Failure(err) => Failure(err)
    case Success(st) => Success(Run(st, config, snapshots))
  }
}
