/** The battery interface: the three control-interface entries, their textual
    encoding, and the cached battery state that is refreshed from them and
    written back through them. */
module Battery {
  import opened Wrappers
  import opened Text
  import opened Decimal

  datatype BatteryError = NotAccessible | UnexpectedValue

  datatype ChargeBehaviour = Auto | InhibitCharge | ForceDischarge

  datatype ChargingStatus = Charging | Discharging | NotCharging

  /** The controller's last observation of the battery. */
  datatype BatteryState = BatteryState(
    capacity: Int32,
    chargeBehaviour: ChargeBehaviour,
    chargingStatus: ChargingStatus)

  /** The control-interface entries as the hardware presents them at one
      moment: the text each entry reads as, or `None` when reading it fails,
      and whether a write to the charge-behaviour entry is accepted. */
  datatype Sysfs = Sysfs(
    capacity: Option<string>,
    chargeBehaviour: Option<string>,
    status: Option<string>,
    acceptsWrite: bool)

  /** What an operation on the state leaves behind: the state (updated in
      place even when the operation fails part-way), the entries, and
      whether the operation passed. */
  datatype Effect = Effect(state: BatteryState, sysfs: Sysfs, outcome: Outcome<BatteryError>)

  /** The literal each charge behaviour is written as. */
  function BehaviourText(b: ChargeBehaviour): (r: string)
    ensures |r| > 0 && Unpadded(r)
  {
    match b
    case Auto => "auto"
    case InhibitCharge => "inhibit-charge"
    case ForceDischarge => "force-discharge"
  }

  /** The literal each charging status is reported as. */
  function StatusText(s: ChargingStatus): (r: string)
    ensures |r| > 0 && Unpadded(r)
  {
    match s
    case Charging => "Charging"
    case Discharging => "Discharging"
    case NotCharging => "Not charging"
  }

  /** The three behaviour literals are distinct. */
  lemma BehaviourTextInjective()
    ensures forall a, b :: BehaviourText(a) == BehaviourText(b) ==> a == b
  {
    assert BehaviourText(Auto)[0] != BehaviourText(InhibitCharge)[0];
    assert BehaviourText(Auto)[0] != BehaviourText(ForceDischarge)[0];
    assert BehaviourText(InhibitCharge)[0] != BehaviourText(ForceDischarge)[0];
  }

  /** The three status literals are distinct. */
  lemma StatusTextInjective()
    ensures forall a, b :: StatusText(a) == StatusText(b) ==> a == b
  {
    assert StatusText(Charging)[0] != StatusText(Discharging)[0];
    assert StatusText(Charging)[0] != StatusText(NotCharging)[0];
    assert StatusText(Discharging)[0] != StatusText(NotCharging)[0];
  }

  /** Decodes charge-behaviour text: after trimming it must be one of the
      three literals, which are the same ones the writer produces. */
  function ParseBehaviour(text: string): (r: Result<ChargeBehaviour, BatteryError>)
    ensures forall b :: r == Success(b) <==> Trim(text) == BehaviourText(b)
    ensures r.Failure? ==> r.error == UnexpectedValue
  {
    var t := Trim(text);
    BehaviourTextInjective();
    if t == BehaviourText(Auto) then Success(Auto)
    else if t == BehaviourText(InhibitCharge) then Success(InhibitCharge)
    else if t == BehaviourText(ForceDischarge) then Success(ForceDischarge)
    else Failure(UnexpectedValue)
  }

  /** Decodes charging-status text: after trimming it must be one of the
      three literals. */
  function ParseStatus(text: string): (r: Result<ChargingStatus, BatteryError>)
    ensures forall s :: r == Success(s) <==> Trim(text) == StatusText(s)
    ensures r.Failure? ==> r.error == UnexpectedValue
  {
    var t := Trim(text);
    StatusTextInjective();
    if t == StatusText(Charging) then Success(Charging)
    else if t == StatusText(Discharging) then Success(Discharging)
    else if t == StatusText(NotCharging) then Success(NotCharging)
    else Failure(UnexpectedValue)
  }

  /** Reads the capacity entry: trailing whitespace is dropped and the rest
      must be an `i32`; every failure is `NotAccessible`. */
  function ReadCapacity(entry: Option<string>): (r: Result<Int32, BatteryError>)
    ensures r.Failure? ==> r.error == NotAccessible
    ensures entry.None? ==> r.Failure?
    ensures r.Success? ==> entry.Some? && ParseI32(TrimEnd(entry.value)) == Some(r.value)
    ensures r.Success? <==> entry.Some? && ParseI32(TrimEnd(entry.value)).Some?
  {
    match entry
    case None => Failure(NotAccessible)
    case Some(text) =>
      match ParseI32(TrimEnd(text))
      case None => Failure(NotAccessible)
      case Some(v) => Success(v)
  }

  /** Reads the charge-behaviour entry: an unreadable entry is
      `NotAccessible`, unknown text is `UnexpectedValue`. */
  function ReadChargeBehaviour(entry: Option<string>): (r: Result<ChargeBehaviour, BatteryError>)
    ensures r == Failure(NotAccessible) <==> entry.None?
    ensures r.Success? ==> BehaviourText(r.value) == Trim(entry.value)
    ensures entry.Some? ==> (r.Success? <==> exists b :: Trim(entry.value) == BehaviourText(b))
  {
    match entry
    case None => Failure(NotAccessible)
    case Some(text) => ParseBehaviour(text)
  }

  /** Reads the status entry: an unreadable entry is `NotAccessible`,
      unknown text is `UnexpectedValue`. */
  function ReadChargingStatus(entry: Option<string>): (r: Result<ChargingStatus, BatteryError>)
    ensures r == Failure(NotAccessible) <==> entry.None?
    ensures r.Success? ==> StatusText(r.value) == Trim(entry.value)
    ensures entry.Some? ==> (r.Success? <==> exists s :: Trim(entry.value) == StatusText(s))
  {
    match entry
    case None => Failure(NotAccessible)
    case Some(text) => ParseStatus(text)
  }

  /** `refresh_capacity`: only the capacity field may change, and only when
      the read succeeds. */
  function RefreshCapacity(st: BatteryState, fs: Sysfs): (e: Effect)
    ensures e.sysfs == fs
    ensures e.outcome.Pass? <==> ReadCapacity(fs.capacity).Success?
    ensures e.outcome.Pass? ==> e.state == st.(capacity := ReadCapacity(fs.capacity).value)
    ensures e.outcome.Fail? ==> e.state == st && e.outcome.error == NotAccessible
  {
    match ReadCapacity(fs.capacity)
    case Failure(err) => Effect(st, fs, Fail(err))
    case Success(v) => Effect(st.(capacity := v), fs, Pass)
  }

  /** `refresh_charge_behaviour`: only the behaviour field may change, and
      only when the read succeeds. */
  function RefreshChargeBehaviour(st: BatteryState, fs: Sysfs): (e: Effect)
    ensures e.sysfs == fs
    ensures e.outcome.Pass? <==> ReadChargeBehaviour(fs.chargeBehaviour).Success?
    ensures e.outcome.Pass? ==> e.state == st.(chargeBehaviour := ReadChargeBehaviour(fs.chargeBehaviour).value)
    ensures e.outcome.Fail? ==> e.state == st && e.outcome.error == ReadChargeBehaviour(fs.chargeBehaviour).error
  {
    match ReadChargeBehaviour(fs.chargeBehaviour)
    case Failure(err) => Effect(st, fs, Fail(err))
    case Success(b) => Effect(st.(chargeBehaviour := b), fs, Pass)
  }

  /** `refresh_charging_status`: only the status field may change, and only
      when the read succeeds. */
  function RefreshChargingStatus(st: BatteryState, fs: Sysfs): (e: Effect)
    ensures e.sysfs == fs
    ensures e.outcome.Pass? <==> ReadChargingStatus(fs.status).Success?
    ensures e.outcome.Pass? ==> e.state == st.(chargingStatus := ReadChargingStatus(fs.status).value)
    ensures e.outcome.Fail? ==> e.state == st && e.outcome.error == ReadChargingStatus(fs.status).error
  {
    match ReadChargingStatus(fs.status)
    case Failure(err) => Effect(st, fs, Fail(err))
    case Success(s) => Effect(st.(chargingStatus := s), fs, Pass)
  }

  /** `refresh`: capacity, then behaviour, then status, stopping at the first
      failure, so the fields of the steps after a failure keep their values. */
  function Refresh(st: BatteryState, fs: Sysfs): (e: Effect)
    ensures e.sysfs == fs
    ensures e.outcome.Pass? <==>
      ReadCapacity(fs.capacity).Success? && ReadChargeBehaviour(fs.chargeBehaviour).Success?
      && ReadChargingStatus(fs.status).Success?
    ensures e.outcome.Pass? ==> e.state == BatteryState(
      ReadCapacity(fs.capacity).value, ReadChargeBehaviour(fs.chargeBehaviour).value,
      ReadChargingStatus(fs.status).value)
    ensures e.outcome.Fail? ==> e.state.chargingStatus == st.chargingStatus
    ensures ReadCapacity(fs.capacity).Failure? ==> e.state == st && e.outcome == Fail(NotAccessible)
    ensures ReadChargeBehaviour(fs.chargeBehaviour).Failure? ==>
      e.outcome.Fail? && e.state.chargeBehaviour == st.chargeBehaviour
  {
    var e1 := RefreshCapacity(st, fs);
    if e1.outcome.Fail? then e1
    else
      var e2 := RefreshChargeBehaviour(e1.state, fs);
      if e2.outcome.Fail? then e2
      else RefreshChargingStatus(e2.state, fs)
  }

  /** `set_charge_behaviour`: writes the behaviour's literal over the entry
      and, only if the write is accepted, updates the cached field. */
  function SetChargeBehaviour(st: BatteryState, fs: Sysfs, b: ChargeBehaviour): (e: Effect)
    ensures e.outcome.Pass? <==> fs.acceptsWrite
    ensures e.outcome.Pass? ==>
      e.state == st.(chargeBehaviour := b) && e.sysfs == fs.(chargeBehaviour := Some(BehaviourText(b)))
    ensures e.outcome.Fail? ==> e.state == st && e.sysfs == fs && e.outcome.error == NotAccessible
  {
    if fs.acceptsWrite then Effect(st.(chargeBehaviour := b), fs.(chargeBehaviour := Some(BehaviourText(b))), Pass)
    else Effect(st, fs, Fail(NotAccessible))
  }

  /** The values a state starts from before its first refresh. */
  const Placeholder: BatteryState := BatteryState(0, Auto, Discharging)

  /** `BatteryState::new`: a state exists only if the first refresh passes. */
  function New(fs: Sysfs): (r: Result<BatteryState, BatteryError>)
    ensures r.Success? <==>
      ReadCapacity(fs.capacity).Success? && ReadChargeBehaviour(fs.chargeBehaviour).Success?
      && ReadChargingStatus(fs.status).Success?
    ensures r.Success? ==> r.value == BatteryState(
      ReadCapacity(fs.capacity).value, ReadChargeBehaviour(fs.chargeBehaviour).value,
      ReadChargingStatus(fs.status).value)
    ensures ReadCapacity(fs.capacity).Failure? ==> r == Failure(NotAccessible)
    ensures ReadCapacity(fs.capacity).Success? && ReadChargeBehaviour(fs.chargeBehaviour).Failure? ==>
      r == Failure(ReadChargeBehaviour(fs.chargeBehaviour).error)
    ensures ReadCapacity(fs.capacity).Success? && ReadChargeBehaviour(fs.chargeBehaviour).Success?
      && ReadChargingStatus(fs.status).Failure?
      ==> r == Failure(ReadChargingStatus(fs.status).error)
  {
    var e := Refresh(Placeholder, fs);
    if e.outcome.Fail? then Failure(e.outcome.error) else Success(e.state)
  }

  // ---------------------------------------------------------------------
  // Properties of the codecs

  /** Parsing a rendered behaviour, with any whitespace around it, gives it back. */
  lemma BehaviourRoundTrip(b: ChargeBehaviour, pre: string, post: string)
    requires AllWhitespace(pre) && AllWhitespace(post)
    ensures ParseBehaviour(pre + BehaviourText(b) + post) == Success(b)
  {
    TrimOfPadded(pre, BehaviourText(b), post);
  }

  /** Parsing a status literal, with any whitespace around it, gives it back. */
  lemma StatusRoundTrip(s: ChargingStatus, pre: string, post: string)
    requires AllWhitespace(pre) && AllWhitespace(post)
    ensures ParseStatus(pre + StatusText(s) + post) == Success(s)
  {
    TrimOfPadded(pre, StatusText(s), post);
  }

  /** Capacity text as the kernel writes it, an integer and a newline or
      other trailing whitespace, reads back as that integer. */
  lemma CapacityRoundTrip(n: Int32, post: string)
    requires AllWhitespace(post)
    ensures ReadCapacity(Some(RenderI32(n) + post)) == Success(n)
  {
    TrimEndOfPadded(RenderI32(n), post);
    ParseRenderRoundTrip(n);
  }

  /** Only trailing whitespace is dropped from the capacity: text that starts
      with whitespace is not an integer. */
  lemma CapacityRejectsLeadingWhitespace(text: string)
    requires |text| > 0 && IsWhitespace(text[0])
    ensures ReadCapacity(Some(text)) == Failure(NotAccessible)
  {
    var t := TrimEnd(text);
    if |t| > 0 {
      assert t[0] == text[0];
      ParseRejectsForeignCharacter(t, 0);
    }
  }

  /** Text that is not a number, such as "N/A", is reported as `NotAccessible`. */
  lemma CapacityRejectsNonNumber()
    ensures ReadCapacity(Some("N/A\n")) == Failure(NotAccessible)
  {
    assert TrimEnd("N/A\n") == "N/A" by {
      TrimEndOfPadded("N/A", "\n");
    }
    ParseRejectsForeignCharacter("N/A", 0);
  }

  // ---------------------------------------------------------------------
  // Properties of the state updates

  /** What `set_charge_behaviour` wrote reads back as the cached value, so
      the cache agrees with the entry after a successful write. */
  lemma WrittenBehaviourReadsBack(st: BatteryState, fs: Sysfs, b: ChargeBehaviour)
    requires SetChargeBehaviour(st, fs, b).outcome.Pass?
    ensures ReadChargeBehaviour(SetChargeBehaviour(st, fs, b).sysfs.chargeBehaviour)
      == Success(SetChargeBehaviour(st, fs, b).state.chargeBehaviour)
  {
    var empty: string := [];
    assert empty + BehaviourText(b) + empty == BehaviourText(b);
    BehaviourRoundTrip(b, empty, empty);
  }

  /** A refresh that passes does not depend on the state it started from. */
  lemma RefreshForgetsPreviousState(st: BatteryState, other: BatteryState, fs: Sysfs)
    requires Refresh(st, fs).outcome.Pass?
    ensures Refresh(other, fs) == Refresh(st, fs)
  {
  }

  /** Where a refresh stops: failing at the behaviour read keeps the new
      capacity and the old behaviour and status; failing at the status read
      keeps the new capacity and behaviour and the old status. */
  lemma RefreshStopsAtFirstFailure(st: BatteryState, fs: Sysfs)
    ensures ReadCapacity(fs.capacity).Success? && ReadChargeBehaviour(fs.chargeBehaviour).Failure? ==>
      Refresh(st, fs).state == st.(capacity := ReadCapacity(fs.capacity).value)
    ensures ReadCapacity(fs.capacity).Success? && ReadChargeBehaviour(fs.chargeBehaviour).Success?
      && ReadChargingStatus(fs.status).Failure?
      ==> Refresh(st, fs).state == st.(capacity := ReadCapacity(fs.capacity).value,
                                   chargeBehaviour := ReadChargeBehaviour(fs.chargeBehaviour).value)
    ensures Refresh(st, fs).outcome.Fail? ==>
      Refresh(st, fs).outcome.error == (if ReadCapacity(fs.capacity).Failure? then NotAccessible
       else if ReadChargeBehaviour(fs.chargeBehaviour).Failure? then ReadChargeBehaviour(fs.chargeBehaviour).error
       else ReadChargingStatus(fs.status).error)
  {
  }

  /** The placeholder values never survive construction. */
  lemma NewIgnoresPlaceholder(st: BatteryState, fs: Sysfs)
    requires New(fs).Success?
    ensures Refresh(st, fs) == Effect(New(fs).value, fs, Pass)
  {
    RefreshForgetsPreviousState(Placeholder, st, fs);
  }
}
