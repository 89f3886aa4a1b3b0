/** Throttle state: the velocity with its clamp, the direction token codec, the set of
functions that are on, and the layout clock. The current generation and the legacy one
share the throttle logic. They differ in the clock's initial scale, in the error text of a
failed velocity read (`Unable to ` in the legacy one, see `LegacyVelocityFromStr`), and in
the traits `Direction` derives.
 */
module Dcc {
  import opened Results
  import opened Text
  import opened Patterns

  /** `FunctionNum`, a `u8`. */
  type FunctionNum = x: int | 0 <= x <= 0xFF

  /** `VelocityValue`, an `i16`. */
  type VelocityValue = x: int | -0x8000 <= x <= 0x7FFF

  /** `Timestamp`, a `u64`. */
  type Timestamp = x: int | 0 <= x <= 0xFFFF_FFFF_FFFF_FFFF

  /** `TimeScale`, an `f32`, carried as the decimal text it was read from or written as. */
  type TimeScale = string

  const FUNCTION_NUM_MAX := 0xFF
  const VELOCITY_VALUE_MIN := -0x8000
  const VELOCITY_VALUE_MAX := 0x7FFF
  const TIMESTAMP_MAX := 0xFFFF_FFFF_FFFF_FFFF

  /** The clamp bounds `Velocity::set` applies to every write. */
  const VELOCITY_MIN: VelocityValue := -1
  const VELOCITY_MAX: VelocityValue := 129

  // ---------------------------------------------------------------- clock

  datatype DccTime = DccTime(timestamp: Timestamp, scale: TimeScale)

  /** `DccTime::default()` of the current generation: `new(0, 1.0)`. */
  function DefaultTime(): DccTime {
    DccTime(0, "1.0")
  }

  /** `DccTime::new()` of the legacy generation: timestamp 0, scale 0.0. */
  function LegacyNewTime(): DccTime {
    DccTime(0, "0.0")
  }

  /** `DccTime::update`: both fields are overwritten, nothing of the old clock survives. */
  function UpdateTime(t: DccTime, timestamp: Timestamp, scale: TimeScale): (r: DccTime)
    ensures r.timestamp == timestamp && r.scale == scale
  {
    DccTime(timestamp, scale)
  }

  // ---------------------------------------------------------------- direction

  datatype Direction = Reverse | Forward

  /** `Display for Direction`: the protocol token. */
  function ShowDirection(d: Direction): string {
    match d
    case Reverse => "R0"
    case Forward => "R1"
  }

  /** `FromStr for Direction`: `R0` is reverse and every other text is forward, so it
      never fails. */
  function ParseDirection(s: string): (d: Direction)
    ensures d == Reverse <==> s == "R0"
  {
    if s == "R0" then Reverse else Forward
  }

  /** The token codec round-trips, and the two tokens differ. */
  lemma DirectionRoundTrip(d: Direction)
    ensures ParseDirection(ShowDirection(d)) == d
    ensures |ShowDirection(d)| == 2 && ShowDirection(d)[0] == 'R'
    ensures ShowDirection(d) == "R0" <==> d == Reverse
  {
  }

  // ---------------------------------------------------------------- velocity

  /** `i16::clamp`. */
  function Clamp(v: int, lo: int, hi: int): int
    requires lo <= hi
  {
    if v < lo then lo else if v > hi then hi else v
  }

  /** `Velocity::set`: the new value clamped into -1..129; the old value plays no part. */
  function SetVelocity(v: VelocityValue): (r: VelocityValue)
    ensures VELOCITY_MIN <= r <= VELOCITY_MAX
    ensures VELOCITY_MIN <= v <= VELOCITY_MAX ==> r == v
    ensures v < VELOCITY_MIN ==> r == VELOCITY_MIN
    ensures v > VELOCITY_MAX ==> r == VELOCITY_MAX
  {
    Clamp(v, VELOCITY_MIN, VELOCITY_MAX)
  }

  /** `FromStr for Velocity`: the leftmost `V`-number of the text, not clamped; an error
      naming the text when there is none. */
  function VelocityFromStr(s: string): (r: Result<VelocityValue, string>)
    ensures r.Err? <==> !Occurs(VelocityPattern, s)
    ensures r.Ok? ==> -999 <= r.value <= 999
    ensures r.Err? ==> r.error == "Unable to parse '" + s + "' as Velocity"
    ensures r.Ok? ==>
              && Captures(VelocityPattern, s).Some? && Captures(VelocityPattern, s).value.VelocityGroups?
              && ParseInteger(Captures(VelocityPattern, s).value.v, VELOCITY_VALUE_MIN, VELOCITY_VALUE_MAX)
                 == Some(r.value as int)
  {
    CapturesIffOccurs(VelocityPattern, s);
    match Leftmost(VelocityPattern, s, 0)
    case None => Err("Unable to parse '" + s + "' as Velocity")
    case Some(j) =>
      MatchShape(VelocityPattern, s, j);
      var v := MatchAt(VelocityPattern, s, j).value.v;
      VelocityTextFits(v);
      Ok(ParseInteger(v, VELOCITY_VALUE_MIN, VELOCITY_VALUE_MAX).value)
  }

  /** `FromStr for Velocity` of the legacy binary: it reads the same value, but its error
      (a `ParseError`, not a `VelocityParseError`) says only `Unable to `. */
  function LegacyVelocityFromStr(s: string): (r: Result<VelocityValue, string>)
    ensures r.Err? <==> !Occurs(VelocityPattern, s)
    ensures r.Err? ==> r.error == "Unable to "
    ensures r.Ok? ==> VelocityFromStr(s) == Ok(r.value)
  {
    match VelocityFromStr(s)
    case Ok(v) => Ok(v)
    case Err(_) => Err("Unable to ")
  }

  /** `Velocity::from_str` reads values the clamp would reject, and reads `V-1` as the
      emergency value. */
  lemma VelocityFromStrDoesNotClamp()
    ensures VelocityFromStr("V200") == Ok(200)
    ensures VelocityFromStr("V-1") == Ok(-1)
    ensures VelocityFromStr("speed").Err?
  {
    VelocityFromStrPastClamp();
    VelocityFromStrEmergency();
    NoLeadNoCaptures(VelocityPattern, "speed");
    CapturesIffOccurs(VelocityPattern, "speed");
  }

  /** `V200` reads as 200, a value the clamp would cut to 129. */
  lemma VelocityFromStrPastClamp()
    ensures VelocityFromStr("V200") == Ok(200)
  {
    var s := "V200";
    VelocityAtRun(s, 0, 1, 3);
    assert s[1..4] == "200";
    CapturesLeftmost(VelocityPattern, s, 0);
    assert "200"[..2] == "20" && "20"[..1] == "2";
    assert DigitsValue("200") == 200;
  }

  /** `V-1` reads as -1, the emergency value. */
  lemma VelocityFromStrEmergency()
    ensures VelocityFromStr("V-1") == Ok(-1)
  {
    var t := "V-1";
    VelocityAtRun(t, 0, 2, 1);
    assert t[1..3] == "-1";
    CapturesLeftmost(VelocityPattern, t, 0);
    assert "-1"[1..] == "1";
    assert DigitsValue("1") == 1;
  }

  // ---------------------------------------------------------------- throttle

  datatype Throttle = Throttle(
    address: string,
    velocity: VelocityValue,
    direction: Direction,
    functions: set<FunctionNum>)

  /** `Throttle::new`. */
  function NewThrottle(address: string): Throttle {
    Throttle(address, 0, Forward, {})
  }

  predicate IsEmergency(t: Throttle) {
    t.velocity < 0
  }

  function GetVel(t: Throttle): VelocityValue {
    t.velocity
  }

  function GetDir(t: Throttle): Direction {
    t.direction
  }

  predicate GetFunc(t: Throttle, num: FunctionNum) {
    num in t.functions
  }

  function SetVel(t: Throttle, v: VelocityValue): (r: Throttle)
    ensures GetVel(r) == SetVelocity(v)
    ensures r.address == t.address && GetDir(r) == GetDir(t)
    ensures forall n: FunctionNum :: GetFunc(r, n) == GetFunc(t, n)
  {
    t.(velocity := SetVelocity(v))
  }

  function SetDir(t: Throttle, d: Direction): (r: Throttle)
    ensures GetDir(r) == d
    ensures r.address == t.address && GetVel(r) == GetVel(t)
    ensures forall n: FunctionNum :: GetFunc(r, n) == GetFunc(t, n)
  {
    t.(direction := d)
  }

  /** `Throttle::set_func`: insert the number when switching on, remove it otherwise. */
  function SetFunc(t: Throttle, num: FunctionNum, isOn: bool): (r: Throttle)
    ensures GetFunc(r, num) == isOn
    ensures forall n: FunctionNum :: n != num ==> GetFunc(r, n) == GetFunc(t, n)
    ensures r.address == t.address && GetVel(r) == GetVel(t) && GetDir(r) == GetDir(t)
  {
    if isOn then t.(functions := t.functions + {num})
    else t.(functions := t.functions - {num})
  }

  /** A new throttle keeps its address, stands still facing forward, has every function
      off and is not in emergency. */
  lemma NewThrottleState(address: string)
    ensures NewThrottle(address).address == address
    ensures GetVel(NewThrottle(address)) == 0 && GetDir(NewThrottle(address)) == Forward
    ensures forall n: FunctionNum :: !GetFunc(NewThrottle(address), n)
    ensures !IsEmergency(NewThrottle(address))
  {
  }

  /** After any velocity write the throttle is in emergency exactly when a negative value
      was written, and then its velocity is -1. */
  lemma EmergencyAfterSetVel(t: Throttle, v: VelocityValue)
    ensures IsEmergency(SetVel(t, v)) <==> v < 0
    ensures IsEmergency(SetVel(t, v)) ==> GetVel(SetVel(t, v)) == -1
  {
  }

  /** Writing the same function state twice is the same as writing it once, and writes to
      different function numbers commute. */
  lemma SetFuncIdempotent(t: Throttle, num: FunctionNum, isOn: bool)
    ensures SetFunc(SetFunc(t, num, isOn), num, isOn) == SetFunc(t, num, isOn)
  {
  }

  lemma SetFuncCommutes(t: Throttle, m: FunctionNum, a: bool, n: FunctionNum, b: bool)
    requires m != n
    ensures SetFunc(SetFunc(t, m, a), n, b) == SetFunc(SetFunc(t, n, b), m, a)
  {
  }
}
