/** The line decoders. One upstream protocol line becomes at most one `Update`: the
patterns are tried in a fixed priority order and the first one that occurs anywhere in
the line decides; the captured digits are then converted with `FromStr` and `unwrap()`.

Three generations exist. The current one and the `lib` one try function, velocity and
direction; the legacy one also tries the clock pattern last.
 */
module Parse {
  import opened Results
  import opened Text
  import opened Patterns
  import Dcc

  /** `JmriUpdate` (current and `lib`) and `Update` (legacy): the same four shapes. */
  datatype Update =
    | Function(num: Dcc.FunctionNum, isOn: bool)
    | Velocity(value: Dcc.VelocityValue)
    | Direction(dir: Dcc.Direction)
    | Time(timestamp: Dcc.Timestamp, scale: Dcc.TimeScale)

  /** Turns the captured groups into an update. A conversion whose `unwrap()` fails panics.
      The scale is kept as its text: `f32::from_str` accepts every `\d+(\.\d+)?`. */
  function Convert(g: Groups): Fallible<Update> {
    match g
    case FunctionGroups(on, num) =>
      (match ParseInteger(num, 0, Dcc.FUNCTION_NUM_MAX)
       case Some(n) => Returns(Function(n, on == "1"))
       case None => Panics("FunctionNum::from_str"))
    case VelocityGroups(v) =>
      (match ParseInteger(v, Dcc.VELOCITY_VALUE_MIN, Dcc.VELOCITY_VALUE_MAX)
       case Some(n) => Returns(Velocity(n))
       case None => Panics("VelocityValue::from_str"))
    case DirectionGroups(d) =>
      Returns(Direction(Dcc.ParseDirection(d)))
    case ClockGroups(time, scale) =>
      (match ParseInteger(time, 0, Dcc.TIMESTAMP_MAX)
       case Some(t) => Returns(Time(t, scale))
       case None => Panics("u64::from_str"))
  }

  function Found(c: Fallible<Update>): Fallible<Option<Update>> {
    match c
    case Returns(u) => Returns(Some(u))
    case Panics(why) => Panics(why)
  }

  /** Tries the rules in order; the first one with captures decides the result. */
  function DecodeWith(rules: seq<Pattern>, line: string): Fallible<Option<Update>>
    decreases |rules|
  {
    if |rules| == 0 then Returns(None)
    else
      match Captures(rules[0], line)
      case Some(g) => Found(Convert(g))
      case None => DecodeWith(rules[1..], line)
  }

  /** The rules of `common::parse::jmri_message`. The clock pattern is declared beside them
      but never tried. */
  const CURRENT_RULES := [FunctionPattern, VelocityPattern, DirectionPattern]

  /** The rules of the legacy `parse`: the same three, then the clock. */
  const LEGACY_RULES := [FunctionPattern, VelocityPattern, DirectionPattern, ClockPattern]

  /** `Regexes` of the `lib` generation. */
  datatype Regexes = Regexes(func: Pattern, velocity: Pattern, direction: Pattern, clock: Pattern)

  /** `Regexes::default()`: the same four patterns. */
  const REGEXES := Regexes(FunctionPattern, VelocityPattern, DirectionPattern, ClockPattern)

  // ---------------------------------------------------------------- rule order

  /** The first rule that has captures decides; later rules are never consulted. */
  lemma {:induction false} FirstMatchingRuleDecides(rules: seq<Pattern>, line: string, k: nat)
    requires k < |rules|
    requires Captures(rules[k], line).Some?
    requires forall j :: 0 <= j < k ==> Captures(rules[j], line).None?
    ensures DecodeWith(rules, line) == Found(Convert(Captures(rules[k], line).value))
    decreases k
  {
    if k > 0 {
      assert Captures(rules[0], line).None?;
      assert forall j :: 0 <= j < k - 1 ==> rules[1..][j] == rules[j + 1];
      FirstMatchingRuleDecides(rules[1..], line, k - 1);
    }
  }

  /** No rule has captures: no update, and no panic. */
  lemma {:induction false} NoRuleMatches(rules: seq<Pattern>, line: string)
    requires forall j :: 0 <= j < |rules| ==> Captures(rules[j], line).None?
    ensures DecodeWith(rules, line) == Returns(None)
    decreases |rules|
  {
    if |rules| > 0 {
      assert Captures(rules[0], line).None?;
      assert forall j :: 0 <= j < |rules| - 1 ==> rules[1..][j] == rules[j + 1];
      NoRuleMatches(rules[1..], line);
    }
  }

  /** Appending rules changes nothing when the earlier ones already decided, and otherwise
      hands the line to the appended ones. */
  lemma {:induction false} DecodeWithAppend(rules: seq<Pattern>, more: seq<Pattern>, line: string)
    ensures DecodeWith(rules, line) != Returns(None) ==>
              DecodeWith(rules + more, line) == DecodeWith(rules, line)
    ensures DecodeWith(rules, line) == Returns(None) ==>
              DecodeWith(rules + more, line) == DecodeWith(more, line)
    decreases |rules|
  {
    if |rules| > 0 {
      assert (rules + more)[0] == rules[0];
      assert (rules + more)[1..] == rules[1..] + more;
      DecodeWithAppend(rules[1..], more, line);
    } else {
      assert rules + more == more;
    }
  }

  // ---------------------------------------------------------------- conversions

  /** Groups that a pattern captured always convert without a panic, except a timestamp
      beyond `u64::MAX`. */
  lemma ConvertWellShaped(g: Groups)
    requires WellShaped(g)
    ensures g.FunctionGroups? ==>
              Convert(g) == Returns(Function(DigitsValue(g.num), g.on == "1")) &&
              DigitsValue(g.num) <= 99
    ensures g.VelocityGroups? ==>
              Convert(g).Returns? && Convert(g).value.Velocity? &&
              -999 <= Convert(g).value.value <= 999
    ensures g.DirectionGroups? ==>
              Convert(g) == Returns(Direction(if g.d == "R0" then Dcc.Reverse else Dcc.Forward))
    ensures g.ClockGroups? ==>
              (Convert(g).Panics? <==> DigitsValue(g.time) > Dcc.TIMESTAMP_MAX) &&
              (Convert(g).Returns? ==> Convert(g) == Returns(Time(DigitsValue(g.time), g.scale)))
  {
    match g
    case FunctionGroups(on, num) => FunctionNumFits(num);
    case VelocityGroups(v) => VelocityTextFits(v);
    case DirectionGroups(d) =>
    case ClockGroups(time, scale) =>
  }

  /** The groups `Captures` returns are well shaped and of the pattern's own kind. */
  lemma CapturesShape(p: Pattern, line: string)
    ensures Captures(p, line).Some? ==>
              && WellShaped(Captures(p, line).value)
              && (Captures(p, line).value.FunctionGroups? <==> p == FunctionPattern)
              && (Captures(p, line).value.VelocityGroups? <==> p == VelocityPattern)
              && (Captures(p, line).value.DirectionGroups? <==> p == DirectionPattern)
  {
    match Leftmost(p, line, 0)
    case None =>
    case Some(j) => MatchShape(p, line, j);
  }

  // ---------------------------------------------------------------- the decoders

  /** The three-rule decoders never panic and never produce a clock update; they produce
      nothing exactly when none of the three patterns occurs in the line. */
  lemma ThreeRulesTotal(line: string)
    ensures DecodeWith(CURRENT_RULES, line).Returns?
    ensures var r := DecodeWith(CURRENT_RULES, line).value;
            && (r.None? <==> !Occurs(FunctionPattern, line) && !Occurs(VelocityPattern, line)
                             && !Occurs(DirectionPattern, line))
            && (r.Some? ==> !r.value.Time?)
            && (r.Some? && r.value.Function? ==> r.value.num <= 99)
            && (r.Some? && r.value.Velocity? ==> -999 <= r.value.value <= 999)
  {
    CapturesIffOccurs(FunctionPattern, line);
    CapturesIffOccurs(VelocityPattern, line);
    CapturesIffOccurs(DirectionPattern, line);
    CapturesShape(FunctionPattern, line);
    CapturesShape(VelocityPattern, line);
    CapturesShape(DirectionPattern, line);
    var rules := CURRENT_RULES;
    if Captures(FunctionPattern, line).Some? {
      FirstMatchingRuleDecides(rules, line, 0);
      ConvertWellShaped(Captures(FunctionPattern, line).value);
    } else if Captures(VelocityPattern, line).Some? {
      FirstMatchingRuleDecides(rules, line, 1);
      ConvertWellShaped(Captures(VelocityPattern, line).value);
    } else if Captures(DirectionPattern, line).Some? {
      FirstMatchingRuleDecides(rules, line, 2);
      ConvertWellShaped(Captures(DirectionPattern, line).value);
    } else {
      NoRuleMatches(rules, line);
    }
  }

  /** `common::parse::jmri_message`, the decoder the server uses. */
  function Decode(line: string): (r: Option<Update>)
    ensures DecodeWith(CURRENT_RULES, line) == Returns(r)
    ensures r.None? <==> !Occurs(FunctionPattern, line) && !Occurs(VelocityPattern, line)
                         && !Occurs(DirectionPattern, line)
    ensures r.Some? ==> !r.value.Time?
    ensures r.Some? && r.value.Function? ==> r.value.num <= 99
    ensures r.Some? && r.value.Velocity? ==> -999 <= r.value.value <= 999
  {
    ThreeRulesTotal(line);
    DecodeWith(CURRENT_RULES, line).value
  }

  /** `lib::parse::jmri_message`: its patterns are the current ones, tried in the same
      order, and its clock pattern is never consulted, so it decodes every line the same. */
  function LibDecode(line: string): (r: Option<Update>)
    ensures r == Decode(line)
  {
    var rules := [REGEXES.func, REGEXES.velocity, REGEXES.direction];
    assert rules == CURRENT_RULES;
    ThreeRulesTotal(line);
    DecodeWith(rules, line).value
  }

  /** The clock pattern's timestamp does not fit `u64`, so its `unwrap()` would panic. */
  predicate TimestampOverflows(line: string) {
    match Captures(ClockPattern, line)
    case Some(ClockGroups(time, _)) => AllDigits(time) && DigitsValue(time) > Dcc.TIMESTAMP_MAX
    case _ => false
  }

  /** The legacy `parse`: the current decoder's answer whenever it has one; otherwise a
      clock update when the clock pattern occurs, a panic when its timestamp overflows
      `u64`, and nothing when no pattern occurs. */
  function LegacyDecode(line: string): (r: Fallible<Option<Update>>)
    ensures Decode(line).Some? ==> r == Returns(Decode(line))
    ensures r.Panics? <==> Decode(line).None? && TimestampOverflows(line)
    ensures r.Returns? && r.value.Some? && Decode(line).None? ==> r.value.value.Time?
    ensures r == Returns(None) <==> Decode(line).None? && !Occurs(ClockPattern, line)
  {
    DecodeWithAppend(CURRENT_RULES, [ClockPattern], line);
    assert CURRENT_RULES + [ClockPattern] == LEGACY_RULES;
    CapturesIffOccurs(ClockPattern, line);
    CapturesShape(ClockPattern, line);
    if Captures(ClockPattern, line).Some? then
      ConvertWellShaped(Captures(ClockPattern, line).value);
      DecodeWith(LEGACY_RULES, line)
    else
      DecodeWith(LEGACY_RULES, line)
  }

  // ---------------------------------------------------------------- rule by rule

  /** The leftmost match is the one `Captures` reports. */
  lemma CapturesAtLeftmost(p: Pattern, line: string, j: nat)
    requires Leftmost(p, line, 0) == Some(j)
    ensures Captures(p, line) == MatchAt(p, line, j)
  {
  }

  /** A line where the function pattern occurs decodes to a function update, whatever else
      it holds: the flag digit of the leftmost match says on or off, and the number is one
      digit or, when a second digit follows, two. */
  lemma FunctionRuleDecides(line: string, j: nat)
    requires Leftmost(FunctionPattern, line, 0) == Some(j)
    ensures j + 2 < |line| && IsDigit(line[j + 2])
    ensures Decode(line).Some? && Decode(line).value.Function?
    ensures Decode(line).value.isOn <==> line[j + 1] == '1'
    ensures j + 3 < |line| && IsDigit(line[j + 3]) ==>
              Decode(line).value.num == 10 * DigitValue(line[j + 2]) + DigitValue(line[j + 3])
    ensures !(j + 3 < |line| && IsDigit(line[j + 3])) ==>
              Decode(line).value.num == DigitValue(line[j + 2])
  {
    FunctionRuleReached(line, j);
    FunctionMatchValue(line, j);
  }

  /** The update a function match converts to: on exactly when the flag is `1`, and the
      number one digit or, when a second digit follows, two. */
  lemma FunctionMatchValue(line: string, j: nat)
    requires j <= |line| && FunctionAt(line, j).Some?
    ensures j + 2 < |line| && IsDigit(line[j + 2])
    ensures Convert(FunctionAt(line, j).value).Returns?
    ensures var u := Convert(FunctionAt(line, j).value).value;
            && u.Function?
            && (u.isOn <==> line[j + 1] == '1')
            && (j + 3 < |line| && IsDigit(line[j + 3]) ==>
                  u.num == 10 * DigitValue(line[j + 2]) + DigitValue(line[j + 3]))
            && (!(j + 3 < |line| && IsDigit(line[j + 3])) ==> u.num == DigitValue(line[j + 2]))
  {
    FunctionAtShape(line, j);
    var g := FunctionAt(line, j).value;
    ConvertWellShaped(g);
    if j + 3 < |line| && IsDigit(line[j + 3]) {
      assert g.num[..1] == [line[j + 2]];
    }
  }

  /** The function rule decides every line where the function pattern occurs. */
  lemma FunctionRuleReached(line: string, j: nat)
    requires Leftmost(FunctionPattern, line, 0) == Some(j)
    ensures DecodeWith(CURRENT_RULES, line) == Found(Convert(FunctionAt(line, j).value))
  {
    CapturesAtLeftmost(FunctionPattern, line, j);
    assert CURRENT_RULES[0] == FunctionPattern;
    FirstMatchingRuleDecides(CURRENT_RULES, line, 0);
  }

  /** The velocity rule decides a line the function rule leaves alone. */
  lemma VelocityRuleReached(line: string, j: nat)
    requires Captures(FunctionPattern, line).None?
    requires Leftmost(VelocityPattern, line, 0) == Some(j)
    ensures DecodeWith(CURRENT_RULES, line) == Found(Convert(VelocityAt(line, j).value))
  {
    CapturesAtLeftmost(VelocityPattern, line, j);
    assert CURRENT_RULES[0] == FunctionPattern && CURRENT_RULES[1] == VelocityPattern;
    FirstMatchingRuleDecides(CURRENT_RULES, line, 1);
  }

  /** A captured velocity converts to its digits' value, negated after a `-`. */
  lemma VelocityGroupsValue(v: string)
    requires WellShaped(VelocityGroups(v))
    ensures Convert(VelocityGroups(v)).Returns? && Convert(VelocityGroups(v)).value.Velocity?
    ensures v[0] == '-' ==>
              (1 < |v| && AllDigits(v[1..]) &&
               Convert(VelocityGroups(v)).value.value == -(DigitsValue(v[1..]) as int))
    ensures v[0] != '-' ==>
              (AllDigits(v) && Convert(VelocityGroups(v)).value.value == DigitsValue(v))
  {
    ConvertWellShaped(VelocityGroups(v));
    if v[0] == '-' {
      ParseIntegerNegative(v, Dcc.VELOCITY_VALUE_MIN, Dcc.VELOCITY_VALUE_MAX);
    }
  }

  /** The value a velocity match converts to: the digits after the `-` negated when a
      `-` follows the `V`, the digits after the `V` otherwise. */
  lemma VelocityMatchValue(line: string, j: nat)
    requires j <= |line| && VelocityAt(line, j).Some?
    ensures Convert(VelocityAt(line, j).value).Returns?
    ensures Convert(VelocityAt(line, j).value).value.Velocity?
    ensures j + 1 < |line| && line[j + 1] == '-' ==>
              var n := Min(DigitRun(line, j + 2), 3);
              && 1 <= n && j + 2 + n <= |line| && AllDigits(line[j + 2..j + 2 + n])
              && Convert(VelocityAt(line, j).value).value.value == -(DigitsValue(line[j + 2..j + 2 + n]) as int)
    ensures !(j + 1 < |line| && line[j + 1] == '-') ==>
              var n := Min(DigitRun(line, j + 1), 3);
              && 1 <= n && j + 1 + n <= |line| && AllDigits(line[j + 1..j + 1 + n])
              && Convert(VelocityAt(line, j).value).value.value == DigitsValue(line[j + 1..j + 1 + n])
  {
    VelocityAtShape(line, j);
    var g := VelocityAt(line, j).value;
    VelocityGroupsValue(g.v);
    assert g == VelocityGroups(g.v);
  }

  /** A line without a function match but with a velocity match decodes to the signed
      value of the leftmost `V`: after a `-`, the negated digits that follow it, and
      otherwise the digits after the `V`, at most three of them. */
  lemma VelocityRuleDecides(line: string, j: nat)
    requires !Occurs(FunctionPattern, line)
    requires Leftmost(VelocityPattern, line, 0) == Some(j)
    ensures Decode(line).Some? && Decode(line).value.Velocity?
    ensures j + 1 < |line| && line[j + 1] == '-' ==>
              var n := Min(DigitRun(line, j + 2), 3);
              && 1 <= n && j + 2 + n <= |line| && AllDigits(line[j + 2..j + 2 + n])
              && Decode(line).value.value == -(DigitsValue(line[j + 2..j + 2 + n]) as int)
    ensures !(j + 1 < |line| && line[j + 1] == '-') ==>
              var n := Min(DigitRun(line, j + 1), 3);
              && 1 <= n && j + 1 + n <= |line| && AllDigits(line[j + 1..j + 1 + n])
              && Decode(line).value.value == DigitsValue(line[j + 1..j + 1 + n])
  {
    CapturesIffOccurs(FunctionPattern, line);
    VelocityRuleReached(line, j);
    VelocityMatchValue(line, j);
  }

  /** `Velocity::from_str` reads the leftmost `V`-number of the text: after a `-`, the
      negated digits that follow it, and otherwise the digits after the `V`, at most three
      of them; no clamp is applied. */
  lemma VelocityFromStrValue(s: string, j: nat)
    requires Leftmost(VelocityPattern, s, 0) == Some(j)
    ensures Dcc.VelocityFromStr(s).Ok?
    ensures j + 1 < |s| && s[j + 1] == '-' ==>
              var n := Min(DigitRun(s, j + 2), 3);
              && 1 <= n && j + 2 + n <= |s| && AllDigits(s[j + 2..j + 2 + n])
              && Dcc.VelocityFromStr(s).value == -(DigitsValue(s[j + 2..j + 2 + n]) as int)
    ensures !(j + 1 < |s| && s[j + 1] == '-') ==>
              var n := Min(DigitRun(s, j + 1), 3);
              && 1 <= n && j + 1 + n <= |s| && AllDigits(s[j + 1..j + 1 + n])
              && Dcc.VelocityFromStr(s).value == DigitsValue(s[j + 1..j + 1 + n])
  {
    CapturesAtLeftmost(VelocityPattern, s, j);
    VelocityMatchValue(s, j);
  }

  /** On a line without a function match, `Velocity::from_str` succeeds exactly when the
      decoder yields a velocity update, and then with the same value. */
  lemma VelocityFromStrAgreesWithDecode(s: string)
    requires !Occurs(FunctionPattern, s)
    ensures Dcc.VelocityFromStr(s).Ok? <==> Decode(s).Some? && Decode(s).value.Velocity?
    ensures Dcc.VelocityFromStr(s).Ok? ==> Decode(s) == Some(Velocity(Dcc.VelocityFromStr(s).value))
  {
    CapturesIffOccurs(FunctionPattern, s);
    CapturesIffOccurs(VelocityPattern, s);
    match Leftmost(VelocityPattern, s, 0)
    case Some(j) =>
      VelocityRuleReached(s, j);
      VelocityMatchValue(s, j);
    case None =>
      CapturesShape(DirectionPattern, s);
      if Captures(DirectionPattern, s).Some? {
        assert CURRENT_RULES[0] == FunctionPattern && CURRENT_RULES[1] == VelocityPattern;
        assert CURRENT_RULES[2] == DirectionPattern;
        FirstMatchingRuleDecides(CURRENT_RULES, s, 2);
        ConvertWellShaped(Captures(DirectionPattern, s).value);
      }
  }

  /** The direction rule decides a line the function and velocity rules leave alone. */
  lemma DirectionRuleReached(line: string, j: nat)
    requires Captures(FunctionPattern, line).None? && Captures(VelocityPattern, line).None?
    requires Leftmost(DirectionPattern, line, 0) == Some(j)
    ensures DecodeWith(CURRENT_RULES, line) == Found(Convert(DirectionAt(line, j).value))
  {
    CapturesAtLeftmost(DirectionPattern, line, j);
    assert CURRENT_RULES[0] == FunctionPattern && CURRENT_RULES[1] == VelocityPattern;
    assert CURRENT_RULES[2] == DirectionPattern;
    FirstMatchingRuleDecides(CURRENT_RULES, line, 2);
  }

  /** A line with neither a function nor a velocity match but with `R0` or `R1` decodes to
      the direction of the leftmost token: `R0` reverse, `R1` forward. */
  lemma DirectionRuleDecides(line: string, j: nat)
    requires !Occurs(FunctionPattern, line) && !Occurs(VelocityPattern, line)
    requires Leftmost(DirectionPattern, line, 0) == Some(j)
    ensures j + 1 < |line|
    ensures Decode(line) == Some(Direction(if line[j + 1] == '0' then Dcc.Reverse else Dcc.Forward))
  {
    CapturesIffOccurs(FunctionPattern, line);
    CapturesIffOccurs(VelocityPattern, line);
    DirectionRuleReached(line, j);
    DirectionAtShape(line, j);
    ConvertWellShaped(DirectionAt(line, j).value);
  }

  /** The clock rule decides, in the legacy decoder, a line the other three rules leave
      alone. */
  lemma ClockRuleReached(line: string)
    requires Captures(FunctionPattern, line).None? && Captures(VelocityPattern, line).None?
    requires Captures(DirectionPattern, line).None? && Captures(ClockPattern, line).Some?
    ensures LegacyDecode(line) == Found(Convert(Captures(ClockPattern, line).value))
  {
    assert LEGACY_RULES[0] == FunctionPattern && LEGACY_RULES[1] == VelocityPattern;
    assert LEGACY_RULES[2] == DirectionPattern && LEGACY_RULES[3] == ClockPattern;
    FirstMatchingRuleDecides(LEGACY_RULES, line, 3);
  }

  /** A line matching none of the first three patterns but holding a clock line decodes,
      in the legacy decoder only, to the timestamp between `PFT` and `<;>`; a timestamp
      beyond `u64::MAX` makes it panic. The current decoder ignores the line. */
  lemma ClockRuleDecides(line: string, j: nat)
    requires !Occurs(FunctionPattern, line) && !Occurs(VelocityPattern, line)
    requires !Occurs(DirectionPattern, line)
    requires Leftmost(ClockPattern, line, 0) == Some(j)
    ensures Decode(line).None?
    ensures var t := DigitRun(line, j + 3);
            && j + 3 + t <= |line| && AllDigits(line[j + 3..j + 3 + t])
            && (DigitsValue(line[j + 3..j + 3 + t]) <= Dcc.TIMESTAMP_MAX ==>
                  LegacyDecode(line).Returns? && LegacyDecode(line).value.Some? &&
                  LegacyDecode(line).value.value.Time? &&
                  LegacyDecode(line).value.value.timestamp == DigitsValue(line[j + 3..j + 3 + t]))
            && (DigitsValue(line[j + 3..j + 3 + t]) > Dcc.TIMESTAMP_MAX ==> LegacyDecode(line).Panics?)
  {
    CapturesIffOccurs(FunctionPattern, line);
    CapturesIffOccurs(VelocityPattern, line);
    CapturesIffOccurs(DirectionPattern, line);
    CapturesAtLeftmost(ClockPattern, line, j);
    ClockAtShape(line, j);
    var g := ClockAt(line, j).value;
    ClockRuleReached(line);
    ConvertWellShaped(g);
  }

  // ---------------------------------------------------------------- examples

  /** `F112` switches function 12 on. */
  lemma DecodeFunctionExample()
    ensures Decode("F112") == Some(Function(12, true))
  {
    var f := "F112";
    CapturesLeftmost(FunctionPattern, f, 0);
    FunctionRuleDecides(f, 0);
  }

  /** `V-1` is the emergency velocity. */
  lemma DecodeVelocityExample()
    ensures Decode("V-1") == Some(Velocity(-1))
  {
    var v := "V-1";
    NoLeadNoCaptures(FunctionPattern, v);
    CapturesIffOccurs(FunctionPattern, v);
    DigitRunIs(v, 2, 1);
    VelocityLeftmostAt(v, 0, 2, 1);
    VelocityRuleDecides(v, 0);
    assert v[2..3] == "1";
  }

  /** `R0` is reverse and `R1` forward. */
  lemma DecodeDirectionExamples()
    ensures Decode("R0") == Some(Direction(Dcc.Reverse))
    ensures Decode("R1") == Some(Direction(Dcc.Forward))
  {
    var r0, r1 := "R0", "R1";
    NoLeadNoCaptures(FunctionPattern, r0);
    NoLeadNoCaptures(VelocityPattern, r0);
    CapturesIffOccurs(FunctionPattern, r0);
    CapturesIffOccurs(VelocityPattern, r0);
    CapturesLeftmost(DirectionPattern, r0, 0);
    DirectionRuleDecides(r0, 0);
    NoLeadNoCaptures(FunctionPattern, r1);
    NoLeadNoCaptures(VelocityPattern, r1);
    CapturesIffOccurs(FunctionPattern, r1);
    CapturesIffOccurs(VelocityPattern, r1);
    CapturesLeftmost(DirectionPattern, r1, 0);
    DirectionRuleDecides(r1, 0);
  }

  /** In the clock line `PFT100<;>2.0` the `F` of `PFT` starts no function match, and
      there is no `V` or `R`. */
  lemma ClockExampleHasNoOtherMatch()
    ensures Captures(FunctionPattern, "PFT100<;>2.0").None?
    ensures Captures(VelocityPattern, "PFT100<;>2.0").None?
    ensures Captures(DirectionPattern, "PFT100<;>2.0").None?
  {
    var c := "PFT100<;>2.0";
    assert Captures(FunctionPattern, c).None? by {
      assert c[2] == 'T';
      NoLeadNoMatch(FunctionPattern, c, 0, 1);
      NoLeadNoMatch(FunctionPattern, c, 2, |c|);
      assert MatchAt(FunctionPattern, c, 1).None?;
    }
    NoLeadNoCaptures(VelocityPattern, c);
    NoLeadNoCaptures(DirectionPattern, c);
  }

  /** The clock pattern captures timestamp `100` and scale `2.0` in `PFT100<;>2.0`. */
  lemma ClockExampleCaptures()
    ensures Captures(ClockPattern, "PFT100<;>2.0") == Some(ClockGroups("100", "2.0"))
  {
    var c := "PFT100<;>2.0";
    DigitRunIs(c, 3, 3);
    assert c[6..9] == SEPARATOR;
    DigitRunIs(c, 9, 1);
    DigitRunIs(c, 11, 1);
    assert c[0..3] == CLOCK_PREFIX;
    assert c[10] == '.' && c[3..6] == "100" && c[9..12] == "2.0";
    assert ClockAt(c, 0) == Some(ClockGroups("100", "2.0"));
    CapturesLeftmost(ClockPattern, c, 0);
  }

  /** A clock line: the current decoder ignores it, the legacy one reads timestamp 100 and
      keeps the scale text. */
  lemma DecodeClockExample()
    ensures Decode("PFT100<;>2.0").None?
    ensures LegacyDecode("PFT100<;>2.0") == Returns(Some(Time(100, "2.0")))
  {
    var c := "PFT100<;>2.0";
    ClockExampleHasNoOtherMatch();
    CapturesIffOccurs(FunctionPattern, c);
    CapturesIffOccurs(VelocityPattern, c);
    CapturesIffOccurs(DirectionPattern, c);
    ClockExampleCaptures();
    ClockRuleReached(c);
    ConvertClockExample();
  }

  /** The groups of `PFT100<;>2.0` convert to timestamp 100 with scale text `2.0`. */
  lemma ConvertClockExample()
    ensures Convert(ClockGroups("100", "2.0")) == Returns(Time(100, "2.0"))
  {
    assert "100"[..2] == "10" && "10"[..1] == "1";
    assert DigitsValue("100") == 100;
    ConvertWellShaped(ClockGroups("100", "2.0"));
  }
}
