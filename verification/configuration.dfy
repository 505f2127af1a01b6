/** The controller's configuration: two charge thresholds, the lower of which
    is range-checked when the configuration is loaded. */
module Configuration {
  import opened Wrappers
  import opened Decimal

  datatype ConfigError =
    | NotAccessible
    | OutOfRange(valueName: string, from: Int32, to: Int32)

  datatype Config = Config(stopChargingThreshold: Int32, startChargingThreshold: Int32)

  /** The error a start threshold outside 0..=100 is reported with. */
  const StartOutOfRange: ConfigError := OutOfRange("start_charging_threshold", 0, 100)

  function StopChargingThreshold(c: Config): Int32 {
    c.stopChargingThreshold
  }

  function StartChargingThreshold(c: Config): Int32 {
    c.startChargingThreshold
  }

  /** Accepts the configuration, unchanged, exactly when its start threshold
      lies in 0..=100; the stop threshold is never inspected. */
  function Validate(c: Config): (r: Result<Config, ConfigError>)
    ensures r.Success? <==> 0 <= StartChargingThreshold(c) <= 100
    ensures r.Success? ==> r.value == c
    ensures r.Failure? ==> r.error == OutOfRange("start_charging_threshold", 0, 100)
  {
    if !(0 <= c.startChargingThreshold <= 100) then Failure(StartOutOfRange) else Success(c)
  }

  /** Loading: the file read and the TOML decoding are one abstract outcome,
      `None` when either failed; a decoded configuration is then validated. */
  function ReadFromFile(decoded: Option<Config>): (r: Result<Config, ConfigError>)
    ensures decoded.None? ==> r == Failure(NotAccessible)
    ensures r.Success? <==> decoded.Some? && 0 <= StartChargingThreshold(decoded.value) <= 100
    ensures r.Success? ==> decoded == Some(r.value) && 0 <= StartChargingThreshold(r.value) <= 100
    ensures decoded.Some? && r.Failure? ==> r.error == StartOutOfRange
  {
    match decoded
    case None => Failure(NotAccessible)
    case Some(c) => Validate(c)
  }

  /** The outcome of validation does not depend on the stop threshold, which
      may be any `i32`. */
  lemma ValidateIgnoresStop(c: Config, stop: Int32)
    ensures Validate(c.(stopChargingThreshold := stop)).Success? == Validate(c).Success?
    ensures Validate(c).Success? ==> Validate(c.(stopChargingThreshold := stop)).value.stopChargingThreshold == stop
  {
  }

  /** Validation is idempotent. */
  lemma ValidateIdempotent(c: Config)
    requires Validate(c).Success?
    ensures Validate(Validate(c).value) == Validate(c)
  {
  }

  /** The getters read back what the configuration was built with. */
  lemma GettersReadBack(stop: Int32, start: Int32)
    ensures StopChargingThreshold(Config(stop, start)) == stop
    ensures StartChargingThreshold(Config(stop, start)) == start
  {
  }
}
