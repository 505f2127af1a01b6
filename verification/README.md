# Battery charge-threshold controller, modelled in Dafny

A model of the core of `asahi-battery-threshold`. This is a daemon that keeps a
laptop battery between two charge thresholds. It reads three sysfs entries every
30 seconds: capacity, charge behaviour and status. It then applies a
three-rule hysteresis policy and writes `inhibit-charge` or `auto` back to the
charge-behaviour entry.

Modules, one per concern of the source:

- `Wrappers`: `Option`, `Result`, and `Outcome` (pass, or fail with an error).
- `Text`: `trim_end` and `trim` over ASCII whitespace. `Trim` is characterised
  exactly: `Trim(s) == t` iff `t` has no outer whitespace and `s` is `t` padded
  with whitespace.
- `Decimal`: Rust's `i32` as a subset type. `ParseI32` models
  `str::parse::<i32>`: an optional sign, at least one ASCII digit, and a range
  check. It has a decimal renderer as its round-trip partner.
- `Configuration` (`src/config.rs`): the `Config` record, its getters,
  `validate` and the loading path.
- `Battery` (`src/battery_handling.rs`, lines 11-147 except `start_handler`):
  - the enums, the literal codecs and `BatteryState`;
  - `refresh_capacity`, `refresh_charge_behaviour`, `refresh_charging_status`,
    `refresh`, `set_charge_behaviour` and `BatteryState::new`.

  File I/O is replaced by a `Sysfs` value. Each entry holds the text it would
  read as, or `None` when reading it fails. The value also says whether a write
  is accepted. A `&mut self` method that returns `Result` becomes a function
  returning an `Effect`: the state as it is left (including after a failure
  part-way), the entries, and `Pass`/`Fail`.
- `Controller` (`start_handler`):
  - `Decide` is the three-rule cascade.
  - `Rules`/`FirstMatch` are the same policy as an ordered first-match table.
  - `Step` is one loop iteration.
  - `Loop` is the polling loop over any cycle function, stopping at the first
    failure; `Run` is `Loop` driven by `Step`.
  - `StartHandler` constructs the state and then runs the loop.

Beyond the source's own conditionals, the model proves the following:

- After any cycle that passes, the cached charge behaviour equals what the entry
  reads back as.
- With `start < stop`, a cycle that wrote is followed, on unchanged readings, by
  one that writes nothing (hysteresis).
- With overlapping thresholds the controller toggles. `validate` does not rule
  this out, because it never looks at the stop threshold.

## Model

| member | source | states |
|---|---|---|
| Text.TrimEnd | src/battery_handling.rs:115 | the result is a prefix of the input, what was removed is all whitespace, and the result does not end in whitespace |
| Text.TrimStart | src/battery_handling.rs:126 | the result is a suffix of the input, what was removed is all whitespace, and the result does not start in whitespace (the leading half of `trim`) |
| Text.Trim | src/battery_handling.rs:126 | the result has no outer whitespace and the input is the result padded with whitespace on both sides |
| Text.TrimBothPadded | src/battery_handling.rs:126 | what trimming both ends keeps lies in the input between two whitespace-only runs |
| Text.TrimEndOfPadded | src/battery_handling.rs:115 | `trim_end` removes exactly a trailing whitespace run from text that otherwise ends in a non-space |
| Text.TrimStartOfPadded | src/battery_handling.rs:126 | trimming the start removes exactly a leading whitespace run |
| Text.TrimOfPadded | src/battery_handling.rs:138 | `trim` of whitespace + t + whitespace is t, for any t without outer whitespace |
| Text.TrimCharacterisation | src/battery_handling.rs:126 | `Trim(s) == t` if and only if t has no outer whitespace and s is t padded with whitespace |
| Text.TrimIdempotent | src/battery_handling.rs:138 | trimming already-trimmed text changes nothing |
| Decimal.ParseI32 | src/battery_handling.rs:116 | empty text and a lone "+" or "-" are rejected; accepted text is digits with at most a leading sign; a negative value comes from a leading '-'; a digit run (leading zeros allowed) whose value fits is accepted as that value, and so is one after '-' whose negation fits |
| Decimal.ParseRenderRoundTrip | src/battery_handling.rs:116 | every i32 written in decimal parses back to itself |
| Decimal.ParseSignedDigits | src/battery_handling.rs:116-117 | for every non-empty digit run d, leading zeros allowed, and every prefix of no sign, '+' or '-': the parse gives the signed value of d when it lies in the i32 range, and None otherwise |
| Decimal.ParseRejectsOverflow | src/battery_handling.rs:116-117 | for every digit run: a magnitude above 2147483647 is rejected unsigned or after '+', and one above 2147483648 is rejected after '-'; out-of-range values fail rather than wrap |
| Decimal.ParseRejectsForeignCharacter | src/battery_handling.rs:116-117 | any non-digit, other than a sign in first position, makes the parse fail |
| Configuration.Validate | src/config.rs:40-50 | passes exactly when 0 <= start_charging_threshold <= 100 and then returns the config unchanged; otherwise fails with OutOfRange("start_charging_threshold", 0, 100) |
| Configuration.ReadFromFile | src/config.rs:25-30 | an unreadable or undecodable file is NotAccessible; loading succeeds exactly when a config was decoded and its start threshold is in 0..=100, and then returns that config |
| Configuration.ValidateIgnoresStop | src/config.rs:41 | the stop threshold may be any i32 without changing the verdict, and it is kept as given |
| Configuration.ValidateIdempotent | src/config.rs:40-50 | validating a validated config gives the same result |
| Configuration.GettersReadBack | src/config.rs:32-38 | the getters return the stored thresholds unchanged |
| Configuration.StopChargingThreshold | src/config.rs:32-34 | `get_stop_charging_threshold`: returns the stored stop threshold, as `GettersReadBack` states |
| Configuration.StartChargingThreshold | src/config.rs:36-38 | `get_start_charging_threshold`: returns the stored start threshold, as `GettersReadBack` states |
| Battery.BehaviourText | src/battery_handling.rs:92-96 | each behaviour literal is non-empty and has no outer whitespace, so trimming preserves it |
| Battery.StatusText | src/battery_handling.rs:138-142 | each status literal is non-empty and has no outer whitespace |
| Battery.BehaviourTextInjective | src/battery_handling.rs:92-96 | the three behaviour literals are pairwise distinct |
| Battery.StatusTextInjective | src/battery_handling.rs:139-141 | the three status literals are pairwise distinct |
| Battery.ParseBehaviour | src/battery_handling.rs:126-131 | decodes to b exactly when the trimmed text is b's literal, for every b; any other text is UnexpectedValue |
| Battery.ParseStatus | src/battery_handling.rs:138-143 | decodes to s exactly when the trimmed text is s's literal, for every s; any other text is UnexpectedValue |
| Battery.ReadCapacity | src/battery_handling.rs:112-117 | succeeds exactly when the entry is readable and its text, after dropping trailing whitespace, parses as an i32, and then returns that i32; every failure is NotAccessible |
| Battery.ReadChargeBehaviour | src/battery_handling.rs:122-131 | NotAccessible exactly when the entry is unreadable; succeeds exactly when the trimmed text is some behaviour's literal, and then returns that behaviour |
| Battery.ReadChargingStatus | src/battery_handling.rs:136-143 | NotAccessible exactly when the entry is unreadable; succeeds exactly when the trimmed text is some status literal, and then returns that status |
| Battery.RefreshCapacity | src/battery_handling.rs:112-120 | only the capacity field can change, and only when the read succeeds; a failure leaves the state untouched and is NotAccessible |
| Battery.RefreshChargeBehaviour | src/battery_handling.rs:122-134 | only the behaviour field can change, and only when the read succeeds; a failure leaves the state untouched |
| Battery.RefreshChargingStatus | src/battery_handling.rs:136-146 | only the status field can change, and only when the read succeeds; a failure leaves the state untouched |
| Battery.Refresh | src/battery_handling.rs:104-110 | passes exactly when all three reads succeed, and then holds the three values read; any failure leaves the status field alone; a failed capacity read changes nothing; a failed behaviour read keeps the old behaviour |
| Battery.SetChargeBehaviour | src/battery_handling.rs:91-102 | passes exactly when the write is accepted; it then changes only the behaviour field and replaces the entry with the literal; a failed write leaves state and entries untouched and is NotAccessible |
| Battery.New | src/battery_handling.rs:68-77 | a state is constructed exactly when all three entries read successfully, and it holds exactly the values read; otherwise the error is that of the first failing read, in the order capacity, behaviour, status |
| Battery.BehaviourRoundTrip | src/battery_handling.rs:126-129 | the rendered literal of every behaviour, with any surrounding whitespace, decodes back to it |
| Battery.StatusRoundTrip | src/battery_handling.rs:138-142 | every status literal, with any surrounding whitespace, decodes back to its status |
| Battery.CapacityRoundTrip | src/battery_handling.rs:112-117 | a capacity entry holding an i32 in decimal and trailing whitespace reads as that i32 |
| Battery.CapacityRejectsLeadingWhitespace | src/battery_handling.rs:115-117 | only trailing whitespace is dropped: a capacity entry starting with whitespace is NotAccessible |
| Battery.CapacityRejectsNonNumber | src/battery_handling.rs:112-117 | the capacity text "N/A" plus a newline is NotAccessible |
| Battery.WrittenBehaviourReadsBack | src/battery_handling.rs:97-99 | after a successful write the entry reads back as the newly cached behaviour |
| Battery.RefreshForgetsPreviousState | src/battery_handling.rs:104-110 | a refresh that passes gives the same result from any starting state |
| Battery.RefreshStopsAtFirstFailure | src/battery_handling.rs:104-110 | a failure at the behaviour read keeps only the new capacity; a failure at the status read keeps the new capacity and behaviour; the error is that of the first failing read |
| Battery.NewIgnoresPlaceholder | src/battery_handling.rs:68-77 | the constructed state is what a successful refresh gives from any state; the placeholder values never survive |
| Controller.Decide | src/battery_handling.rs:43-61 | never chooses ForceDischarge; a choice always differs from the current behaviour; InhibitCharge only while charging at or above stop; Auto only at or below start or while discharging |
| Controller.FirstMatch | src/battery_handling.rs:43-61 | no choice exactly when no rule fires; otherwise the target of the first rule that fires (no earlier rule fires), which differs from the current behaviour |
| Controller.DecideFollowsRules | src/battery_handling.rs:43-61 | the cascade is the first-match reading of the ordered table: (charging, >= stop) to InhibitCharge, (<= start) to Auto, (discharging) to Auto |
| Controller.InhibitWhenFull | src/battery_handling.rs:43-48 | charging, at or above stop, not inhibited: the choice is InhibitCharge, for any start threshold |
| Controller.ResumeWhenDrained | src/battery_handling.rs:49-53 | if rule 1 does not fire, capacity <= start and behaviour is not Auto, the choice is Auto, even while charging |
| Controller.ResumeWhenUnplugged | src/battery_handling.rs:54-60 | if rules 1 and 2 do not fire, status is discharging and behaviour is not Auto, the choice is Auto |
| Controller.ForceDischargeIsCleared | src/battery_handling.rs:54-60 | ForceDischarge while discharging is always driven back to Auto, whatever the capacity and thresholds |
| Controller.NoWriteIffNoGuard | src/battery_handling.rs:43-61 | no write is chosen if and only if none of the three guards holds |
| Controller.BoundaryThresholds | src/battery_handling.rs:44-49 | capacity equal to stop while charging with Auto inhibits (>=); capacity equal to start with InhibitCharge resumes (<=), for every status and stop threshold |
| Controller.Scenarios | src/battery_handling.rs:43-61 | four worked cases: full while charging, drained while charging, unplugged while inhibited, idle |
| Controller.DecisionSettles | src/battery_handling.rs:43-61 | with start < stop, after applying a choice the same readings call for no further write |
| Controller.OverlappingThresholdsToggle | src/battery_handling.rs:43-53 | with both thresholds at 80 and the battery charging at 80%, the choice alternates between InhibitCharge and Auto |
| Controller.Step | src/battery_handling.rs:42-61 | a failed refresh writes nothing; otherwise the chosen write is Decide's choice on the refreshed state, and a chosen write's effect is set_charge_behaviour's on that state; only the behaviour entry can change; the choice is never ForceDischarge and differs from the behaviour just read |
| Controller.StepKeepsCacheCoherent | src/battery_handling.rs:42-61 | after a cycle that passes, the cached behaviour is what the behaviour entry reads back as |
| Controller.NoGuardNoWrite | src/battery_handling.rs:43-61 | when no rule applies, the cycle writes nothing and leaves the behaviour as read |
| Controller.FailedWriteKeepsBehaviour | src/battery_handling.rs:97-99 | when writes are refused, the cycle leaves the refreshed state and the entries as they were, and a chosen write fails with NotAccessible |
| Controller.RefreshAfterWrite | src/battery_handling.rs:97-110 | refreshing after a successful write yields the earlier readings with the written behaviour |
| Controller.StepSettles | src/battery_handling.rs:42-61 | with start < stop and hardware unchanged apart from the write, the cycle after a write writes nothing |
| Controller.Run | src/battery_handling.rs:41-64 | the controller's cycle driven over the snapshots: at most one write per cycle; never ForceDischarge; a run ends early only on a failure, and a run that passes consumed every cycle |
| Controller.Loop | src/battery_handling.rs:41-64 | for any cycle function: at most one write per cycle, a run that passes consumed every snapshot, a failing run ran at least one cycle, and a cycle that never writes ForceDischarge gives a loop that never does |
| Controller.LoopOneCycle | src/battery_handling.rs:41-64 | a loop over one snapshot is exactly that one cycle |
| Controller.LoopComposes | src/battery_handling.rs:41-64 | looping over a then b is looping over a and continuing from its final state over b, when the run over a passes |
| Controller.LoopStopsAtFailure | src/battery_handling.rs:41-64 | once a cycle fails, no later snapshot is read: appending snapshots changes nothing |
| Controller.RunOneCycle | src/battery_handling.rs:42-63 | a run over one snapshot is one Step: its state, its write and its outcome |
| Controller.RunComposes | src/battery_handling.rs:41-64 | the controller's run over a then b is its run over a continued over b, when the first part passes |
| Controller.RunStopsAtFailure | src/battery_handling.rs:41-64 | after the controller's first failing cycle, later snapshots are never read, just as `?` leaves the loop |
| Controller.StartHandler | src/battery_handling.rs:39-65 | fails, with the construction's error and before any cycle, exactly when construction fails; otherwise it is the run from the constructed state, whose outcome carries any mid-loop error; at most one write per cycle and never ForceDischarge |

## Left out

- Fixed sysfs paths and the actual `fs::read_to_string` and `fs::write` calls (src/battery_handling.rs:7-9). They are the `Sysfs` value: an unreadable entry is `None` and a refused write is `acceptsWrite == false`.
- The infinite `loop` and `thread::sleep` of 30 seconds. `Run` takes a finite sequence of entry snapshots, one per cycle, and has no notion of time.
- Controller.Run: each cycle reads the snapshot given for it, so the effect of a write carries into the next cycle only if that snapshot shows it. `StepSettles` covers the case where the hardware keeps the write.
- `info!` logging, and the `Display` messages of `BatteryError` and `ConfigError`.
- File reading and TOML decoding in `Config::read_from_file`. `ReadFromFile` takes their combined outcome as an input.
- All of src/main.rs: argument counting, logger setup and error reporting.
- Text.Trim: strips only the ASCII members of Unicode White_Space, so a non-ASCII space such as U+00A0 is kept where Rust's `trim` removes it.
- Text.TrimEnd: strips only ASCII whitespace, like `Trim`.
- Battery.SetChargeBehaviour: assumes a refused write leaves the entry's text as it was; nothing in the source says what the entry holds after a failed `fs::write`, and the process exits on that error anyway.
- Battery.StatusText: the source has no renderer for `ChargingStatus`; this is the table of literals its parser accepts, used as the round-trip partner.
