/** The state both generations of the bridge keep: a map from address to throttle, and the
layout clock. Only the throttle at the one hard-coded address is ever touched, and it is
looked up with `get_mut(ADDR).unwrap()`, so the map must hold that address; the map's key
set never changes after start-up.
 */
module Store {
  import opened Results
  import opened Parse
  import Dcc

  /** The one address the bridge serves. */
  const ADDR := "S67"

  datatype Store = Store(throttles: map<string, Dcc.Throttle>, clock: Dcc.DccTime)

  /** The map holds exactly the served address. */
  predicate Valid(s: Store) {
    s.throttles.Keys == {ADDR}
  }

  /** The start-up state of the current server: one new throttle at `S67`, and
      `DccTime::default()`. */
  function InitialStore(): (s: Store)
    ensures Valid(s) && s.throttles[ADDR] == Dcc.NewThrottle(ADDR)
    ensures s.clock.timestamp == 0 && s.clock.scale == "1.0"
  {
    Store(map[ADDR := Dcc.NewThrottle(ADDR)], Dcc.DefaultTime())
  }

  /** The start-up state of the legacy binary: the same throttle, and `DccTime::new()`. */
  function LegacyInitialStore(): (s: Store)
    ensures Valid(s) && s.throttles[ADDR] == Dcc.NewThrottle(ADDR)
    ensures s.clock.timestamp == 0 && s.clock.scale == "0.0"
  {
    Store(map[ADDR := Dcc.NewThrottle(ADDR)], Dcc.LegacyNewTime())
  }

  /** The throttle at `S67`, or the panic of `get_mut(ADDR).unwrap()` on a map without it. */
  function Served(s: Store): (r: Fallible<Dcc.Throttle>)
    ensures r.Returns? <==> ADDR in s.throttles
    ensures r.Returns? ==> r.value == s.throttles[ADDR]
  {
    if ADDR in s.throttles then Returns(s.throttles[ADDR])
    else Panics("called `Option::unwrap()` on a `None` value")
  }

  /** One update applied to the store, as the listener loop's `match` does it: a function,
      velocity or direction update goes to the throttle at `S67`, a clock update to the
      clock. The throttle is looked up first, whatever the update. */
  function Apply(s: Store, u: Update): (r: Fallible<Store>)
    ensures r.Returns? <==> ADDR in s.throttles
    ensures r.Returns? ==> r.value.throttles.Keys == s.throttles.Keys
    ensures r.Returns? ==>
              forall a :: a in s.throttles && a != ADDR ==> r.value.throttles[a] == s.throttles[a]
    ensures r.Returns? && u.Time? ==>
              r.value.throttles == s.throttles &&
              r.value.clock.timestamp == u.timestamp && r.value.clock.scale == u.scale
    ensures r.Returns? && !u.Time? ==> r.value.clock == s.clock
    ensures r.Returns? && u.Function? ==>
              var (t, t') := (s.throttles[ADDR], r.value.throttles[ADDR]);
              && Dcc.GetFunc(t', u.num) == u.isOn
              && (forall n: Dcc.FunctionNum :: n != u.num ==> Dcc.GetFunc(t', n) == Dcc.GetFunc(t, n))
              && Dcc.GetVel(t') == Dcc.GetVel(t) && Dcc.GetDir(t') == Dcc.GetDir(t)
    ensures r.Returns? && u.Velocity? ==>
              var (t, t') := (s.throttles[ADDR], r.value.throttles[ADDR]);
              && Dcc.GetVel(t') == Dcc.Clamp(u.value, Dcc.VELOCITY_MIN, Dcc.VELOCITY_MAX)
              && Dcc.GetDir(t') == Dcc.GetDir(t) && t'.functions == t.functions
    ensures r.Returns? && u.Direction? ==>
              var (t, t') := (s.throttles[ADDR], r.value.throttles[ADDR]);
              && Dcc.GetDir(t') == u.dir
              && Dcc.GetVel(t') == Dcc.GetVel(t) && t'.functions == t.functions
    ensures r.Returns? && !u.Time? ==> r.value.throttles[ADDR].address == s.throttles[ADDR].address
  {
    match Served(s)
    case Panics(why) => Panics(why)
    case Returns(t) =>
      match u
      case Function(num, isOn) => Returns(s.(throttles := s.throttles[ADDR := Dcc.SetFunc(t, num, isOn)]))
      case Velocity(v) => Returns(s.(throttles := s.throttles[ADDR := Dcc.SetVel(t, v)]))
      case Direction(d) => Returns(s.(throttles := s.throttles[ADDR := Dcc.SetDir(t, d)]))
      case Time(timestamp, scale) => Returns(s.(clock := Dcc.UpdateTime(s.clock, timestamp, scale)))
  }

  /** Applying updates one after another, stopping at the first panic. */
  function ApplyAll(s: Store, us: seq<Update>): (r: Fallible<Store>)
    decreases |us|
  {
    if |us| == 0 then Returns(s)
    else
      match Apply(s, us[0])
      case Panics(why) => Panics(why)
      case Returns(s') => ApplyAll(s', us[1..])
  }

  /** A valid store stays valid under any sequence of updates, and never panics. */
  lemma {:induction false} ApplyAllKeepsValid(s: Store, us: seq<Update>)
    requires Valid(s)
    ensures ApplyAll(s, us).Returns? && Valid(ApplyAll(s, us).value)
    decreases |us|
  {
    if |us| > 0 {
      ApplyAllKeepsValid(Apply(s, us[0]).value, us[1..]);
    }
  }

  /** Updates without a clock update leave the clock as it was. */
  lemma {:induction false} ApplyAllKeepsClock(s: Store, us: seq<Update>)
    requires Valid(s)
    requires forall k :: 0 <= k < |us| ==> !us[k].Time?
    ensures ApplyAll(s, us).Returns? && ApplyAll(s, us).value.clock == s.clock
    decreases |us|
  {
    if |us| > 0 {
      ApplyAllKeepsClock(Apply(s, us[0]).value, us[1..]);
    }
  }

  /** The clock after a sequence of updates, read from the end: the values of the last
      clock update, or the clock as it was when there is none. */
  function ClockAfter(c: Dcc.DccTime, us: seq<Update>): Dcc.DccTime
    decreases |us|
  {
    if |us| == 0 then c
    else
      var last := us[|us| - 1];
      if last.Time? then Dcc.DccTime(last.timestamp, last.scale) else ClockAfter(c, us[..|us| - 1])
  }

  lemma {:induction false} ClockAfterAppend(c: Dcc.DccTime, a: seq<Update>, b: seq<Update>)
    ensures ClockAfter(c, a + b) == ClockAfter(ClockAfter(c, a), b)
    decreases |b|
  {
    if |b| == 0 {
      assert a + b == a;
    } else {
      assert (a + b)[..|a + b| - 1] == a + b[..|b| - 1];
      ClockAfterAppend(c, a, b[..|b| - 1]);
    }
  }

  /** `DccTime::update` overwrites the whole clock, so after any sequence of updates the
      clock holds what the last clock update said. */
  lemma {:induction false} ApplyAllClock(s: Store, us: seq<Update>)
    requires Valid(s)
    ensures ApplyAll(s, us).Returns? && ApplyAll(s, us).value.clock == ClockAfter(s.clock, us)
    decreases |us|
  {
    if |us| > 0 {
      var s1 := Apply(s, us[0]).value;
      ApplyAllClock(s1, us[1..]);
      ClockAfterAppend(s.clock, [us[0]], us[1..]);
      assert [us[0]] + us[1..] == us;
      assert ClockAfter(s.clock, [us[0]]) == s1.clock by {
        assert [us[0]][..0] == [];
      }
    }
  }

  /** Two updates in a row are the second applied to the first's result. */
  lemma ApplyPair(s: Store, x: Update, y: Update)
    requires Valid(s)
    ensures Apply(s, x).Returns? && Apply(Apply(s, x).value, y).Returns?
    ensures ApplyAll(s, [x, y]) == Apply(Apply(s, x).value, y)
  {
    var s1 := Apply(s, x).value;
    assert [x, y][1..] == [y];
    assert ApplyAll(s, [x, y]) == ApplyAll(s1, [y]);
    assert [y][1..] == [];
    assert ApplyAll(s1, [y]) == ApplyAll(Apply(s1, y).value, []);
  }

  /** Updates to different function numbers can be applied in either order. */
  lemma FunctionUpdatesCommute(s: Store, m: Dcc.FunctionNum, a: bool, n: Dcc.FunctionNum, b: bool)
    requires Valid(s) && m != n
    ensures ApplyAll(s, [Function(m, a), Function(n, b)]) == ApplyAll(s, [Function(n, b), Function(m, a)])
  {
    var t := s.throttles[ADDR];
    Dcc.SetFuncCommutes(t, m, a, n, b);
    ApplyPair(s, Function(m, a), Function(n, b));
    ApplyPair(s, Function(n, b), Function(m, a));
    var both := Dcc.SetFunc(Dcc.SetFunc(t, m, a), n, b);
    assert s.throttles[ADDR := Dcc.SetFunc(t, m, a)][ADDR := both] == s.throttles[ADDR := both];
    assert s.throttles[ADDR := Dcc.SetFunc(t, n, b)][ADDR := both] == s.throttles[ADDR := both];
  }
}
