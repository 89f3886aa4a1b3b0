/** The four line patterns of the WiThrottle decoder, written out as matchers:

    function   F(?P<on>[01])(?P<num>\d\d?)
    velocity   V(?P<v>-?\d{1,3})
    direction  (?P<d>R[01])
    clock      PFT(?P<time>\d+)<;>(?P<scale>\d+(?:\.\d+)?)

`MatchAt` says whether a pattern matches starting at one position and what its groups
capture there, with the regex engine's preference order (greedy repetition, an optional
part taken when it can be). `Captures` returns the groups of the leftmost match, as the
regex crate's `Regex::captures` does.
 */
module Patterns {
  import opened Results
  import opened Text

  datatype Pattern = FunctionPattern | VelocityPattern | DirectionPattern | ClockPattern

  /** The named groups a successful match captures. */
  datatype Groups =
    | FunctionGroups(on: string, num: string)
    | VelocityGroups(v: string)
    | DirectionGroups(d: string)
    | ClockGroups(time: string, scale: string)

  const CLOCK_PREFIX := "PFT"
  const SEPARATOR := "<;>"

  /** The character every match of the pattern starts with. */
  function Lead(p: Pattern): char {
    match p
    case FunctionPattern => 'F'
    case VelocityPattern => 'V'
    case DirectionPattern => 'R'
    case ClockPattern => 'P'
  }

  predicate IsFlag(c: char) {
    c == '0' || c == '1'
  }

  function Min(a: nat, b: nat): nat {
    if a <= b then a else b
  }

  /** The length of the longest run of digits starting at `i`. */
  function DigitRun(s: string, i: nat): (n: nat)
    requires i <= |s|
    ensures i + n <= |s|
    ensures forall k :: i <= k < i + n ==> IsDigit(s[k])
    ensures i + n == |s| || !IsDigit(s[i + n])
    decreases |s| - i
  {
    if i < |s| && IsDigit(s[i]) then 1 + DigitRun(s, i + 1) else 0
  }

  /** The groups of the preferred match of `p` starting exactly at `i`, if there is one. */
  function MatchAt(p: Pattern, s: string, i: nat): Option<Groups>
    requires i <= |s|
  {
    match p
    case FunctionPattern => FunctionAt(s, i)
    case VelocityPattern => VelocityAt(s, i)
    case DirectionPattern => DirectionAt(s, i)
    case ClockPattern => ClockAt(s, i)
  }

  /** `F`, a flag digit, one digit, and a second digit when there is one. */
  function FunctionAt(s: string, i: nat): Option<Groups>
    requires i <= |s|
  {
    if i + 2 < |s| && s[i] == 'F' && IsFlag(s[i + 1]) && IsDigit(s[i + 2]) then
      var n := if i + 3 < |s| && IsDigit(s[i + 3]) then 2 else 1;
      Some(FunctionGroups(s[i + 1..i + 2], s[i + 2..i + 2 + n]))
    else
      None
  }

  /** `V`, a `-` when a digit follows it, then as many digits as there are, up to three. */
  function VelocityAt(s: string, i: nat): Option<Groups>
    requires i <= |s|
  {
    if i < |s| && s[i] == 'V' then
      var k := if i + 1 < |s| && s[i + 1] == '-' then i + 2 else i + 1;
      var n := Min(DigitRun(s, k), 3);
      if n >= 1 then Some(VelocityGroups(s[i + 1..k + n])) else None
    else
      None
  }

  /** `R` and a flag digit. */
  function DirectionAt(s: string, i: nat): Option<Groups>
    requires i <= |s|
  {
    if i + 1 < |s| && s[i] == 'R' && IsFlag(s[i + 1]) then
      Some(DirectionGroups(s[i..i + 2]))
    else
      None
  }

  /** `PFT`, all the digits there are, `<;>`, all the digits there are, and a `.` with all
      the digits after it when a digit follows the `.`. Shorter digit runs never help: the
      character after them would be a digit, not `<`. */
  function ClockAt(s: string, i: nat): Option<Groups>
    requires i <= |s|
  {
    if i + 3 <= |s| && s[i..i + 3] == CLOCK_PREFIX then
      var t := DigitRun(s, i + 3);
      var j := i + 3 + t;
      if t >= 1 && j + 3 <= |s| && s[j..j + 3] == SEPARATOR then
        var m := DigitRun(s, j + 3);
        var e := j + 3 + m;
        if m >= 1 then
          var scaleEnd := if e + 1 < |s| && s[e] == '.' && IsDigit(s[e + 1])
                          then e + 1 + DigitRun(s, e + 1) else e;
          Some(ClockGroups(s[i + 3..j], s[j + 3..scaleEnd]))
        else
          None
      else
        None
    else
      None
  }

  /** The leftmost position at or after `from` where `p` matches. */
  function Leftmost(p: Pattern, s: string, from: nat): (r: Option<nat>)
    requires from <= |s|
    ensures r.Some? ==> from <= r.value < |s| && MatchAt(p, s, r.value).Some?
    ensures forall k :: from <= k < |s| && (r.None? || k < r.value) ==> MatchAt(p, s, k).None?
    decreases |s| - from
  {
    if from == |s| then None
    else if MatchAt(p, s, from).Some? then Some(from)
    else Leftmost(p, s, from + 1)
  }

  /** `Regex::captures`: the groups of the leftmost match. */
  function Captures(p: Pattern, s: string): Option<Groups> {
    match Leftmost(p, s, 0)
    case None => None
    case Some(j) => MatchAt(p, s, j)
  }

  /** The pattern matches somewhere in the line. */
  ghost predicate Occurs(p: Pattern, s: string) {
    exists j :: 0 <= j < |s| && MatchAt(p, s, j).Some?
  }

  /** What the groups of any match look like: the flag is one digit `0` or `1` and the
      function number one or two digits; the velocity is an optional `-` and one to three
      digits; the direction token is `R0` or `R1`; the timestamp is one or more digits. */
  predicate WellShaped(g: Groups) {
    match g
    case FunctionGroups(on, num) =>
      (on == "0" || on == "1") && 1 <= |num| <= 2 && AllDigits(num)
    case VelocityGroups(v) =>
      var digits := if |v| > 0 && v[0] == '-' then v[1..] else v;
      1 <= |digits| <= 3 && AllDigits(digits)
    case DirectionGroups(d) =>
      d == "R0" || d == "R1"
    case ClockGroups(time, scale) =>
      1 <= |time| && AllDigits(time) && 1 <= |scale|
  }

  /** What a function match captures: the flag digit after the `F`, then the digit after
      it and, when a digit follows, that one too. */
  lemma FunctionAtShape(s: string, i: nat)
    requires i <= |s| && FunctionAt(s, i).Some?
    ensures i + 2 < |s| && s[i] == 'F' && IsFlag(s[i + 1]) && IsDigit(s[i + 2])
    ensures var g := FunctionAt(s, i).value;
            && g.FunctionGroups? && WellShaped(g) && g.on == [s[i + 1]]
            && (i + 3 < |s| && IsDigit(s[i + 3]) ==> g.num == [s[i + 2], s[i + 3]])
            && (!(i + 3 < |s| && IsDigit(s[i + 3])) ==> g.num == [s[i + 2]])
  {
  }

  /** What a velocity match captures: the text after the `V` up to the end of the digit
      run or its third digit, whichever comes first. */
  lemma VelocityAtShape(s: string, i: nat)
    requires i <= |s| && VelocityAt(s, i).Some?
    ensures i < |s| && s[i] == 'V'
    ensures VelocityAt(s, i).value.VelocityGroups? && WellShaped(VelocityAt(s, i).value)
    ensures i + 1 < |s| && s[i + 1] == '-' ==>
              var n := Min(DigitRun(s, i + 2), 3);
              && 1 <= n && i + 2 + n <= |s|
              && VelocityAt(s, i).value.v == s[i + 1..i + 2 + n]
              && VelocityAt(s, i).value.v[0] == '-'
              && VelocityAt(s, i).value.v[1..] == s[i + 2..i + 2 + n]
    ensures !(i + 1 < |s| && s[i + 1] == '-') ==>
              var n := Min(DigitRun(s, i + 1), 3);
              && 1 <= n && i + 1 + n <= |s|
              && VelocityAt(s, i).value.v == s[i + 1..i + 1 + n]
              && VelocityAt(s, i).value.v[0] != '-'
  {
    if i + 1 < |s| && s[i + 1] == '-' {
      var n := Min(DigitRun(s, i + 2), 3);
      assert s[i + 1..i + 2 + n][1..] == s[i + 2..i + 2 + n];
    }
  }

  /** What a direction match captures: the two-character token itself. */
  lemma DirectionAtShape(s: string, i: nat)
    requires i <= |s| && DirectionAt(s, i).Some?
    ensures i + 1 < |s| && s[i] == 'R' && IsFlag(s[i + 1])
    ensures var g := DirectionAt(s, i).value;
            g.DirectionGroups? && WellShaped(g) && g.d == [s[i], s[i + 1]]
  {
  }

  /** What a clock match captures: the whole digit run after `PFT` as the timestamp. */
  lemma ClockAtShape(s: string, i: nat)
    requires i <= |s| && ClockAt(s, i).Some?
    ensures i < |s| && s[i] == 'P'
    ensures var t := DigitRun(s, i + 3);
            var g := ClockAt(s, i).value;
            && i + 3 + t <= |s| && g.ClockGroups? && WellShaped(g)
            && g.time == s[i + 3..i + 3 + t]
  {
    assert s[i] == s[i..i + 3][0];
  }

  /** A match starts with its pattern's lead character and captures well-shaped groups of
      the pattern's own kind. */
  lemma MatchShape(p: Pattern, s: string, i: nat)
    requires i <= |s| && MatchAt(p, s, i).Some?
    ensures i < |s| && s[i] == Lead(p)
    ensures WellShaped(MatchAt(p, s, i).value)
    ensures MatchAt(p, s, i).value.FunctionGroups? <==> p == FunctionPattern
    ensures MatchAt(p, s, i).value.VelocityGroups? <==> p == VelocityPattern
    ensures MatchAt(p, s, i).value.DirectionGroups? <==> p == DirectionPattern
  {
    match p
    case FunctionPattern => FunctionAtShape(s, i);
    case VelocityPattern => VelocityAtShape(s, i);
    case DirectionPattern => DirectionAtShape(s, i);
    case ClockPattern => ClockAtShape(s, i);
  }

  /** `Captures` finds a match exactly when the pattern occurs somewhere in the line, and
      it is the match at the leftmost position where the pattern matches. */
  lemma CapturesLeftmost(p: Pattern, s: string, j: nat)
    requires j <= |s| && MatchAt(p, s, j).Some?
    requires forall k :: 0 <= k < j ==> MatchAt(p, s, k).None?
    ensures Leftmost(p, s, 0) == Some(j)
    ensures Captures(p, s) == MatchAt(p, s, j)
  {
    MatchShape(p, s, j);
  }

  lemma CapturesIffOccurs(p: Pattern, s: string)
    ensures Captures(p, s).Some? <==> Occurs(p, s)
  {
    if Occurs(p, s) {
      var j :| 0 <= j < |s| && MatchAt(p, s, j).Some?;
      assert Leftmost(p, s, 0).Some?;
    }
  }

  lemma MatchStartsWithLead(p: Pattern, s: string, i: nat)
    requires i <= |s|
    ensures MatchAt(p, s, i).Some? ==> i < |s| && s[i] == Lead(p)
  {
    if MatchAt(p, s, i).Some? {
      MatchShape(p, s, i);
    }
  }

  /** A stretch without the pattern's lead character holds no match. */
  lemma NoLeadNoMatch(p: Pattern, s: string, from: nat, to: nat)
    requires from <= to <= |s|
    requires forall k :: from <= k < to ==> s[k] != Lead(p)
    ensures forall k :: from <= k < to ==> MatchAt(p, s, k).None?
  {
    forall k | from <= k < to
      ensures MatchAt(p, s, k).None?
    {
      MatchStartsWithLead(p, s, k);
    }
  }

  /** A line without the pattern's lead character has no captures. */
  lemma NoLeadNoCaptures(p: Pattern, s: string)
    requires Lead(p) !in s
    ensures Captures(p, s).None?
  {
    NoLeadNoMatch(p, s, 0, |s|);
  }

  /** What the velocity pattern captures at a `V`, told by positions: an optional sign,
      and a run of one to three digits from `k` that ends there. */
  lemma VelocityAtRun(s: string, j: nat, k: nat, n: nat)
    requires j < k <= j + 2 && k + n <= |s| && 1 <= n <= 3
    requires s[j] == 'V' && (k == j + 2 <==> s[j + 1] == '-')
    requires forall i :: k <= i < k + n ==> IsDigit(s[i])
    requires k + n == |s| || !IsDigit(s[k + n])
    ensures VelocityAt(s, j) == Some(VelocityGroups(s[j + 1..k + n]))
  {
    DigitRunIs(s, k, n);
  }

  /** Where the velocity pattern first matches, told by positions: the first `V` at `j`,
      an optional sign, and a run of one to three digits from `k` that ends there. */
  lemma VelocityLeftmostAt(s: string, j: nat, k: nat, n: nat)
    requires j < k <= j + 2 && k + n <= |s| && 1 <= n <= 3
    requires forall i :: 0 <= i < j ==> s[i] != 'V'
    requires s[j] == 'V' && (k == j + 2 <==> s[j + 1] == '-')
    requires forall i :: k <= i < k + n ==> IsDigit(s[i])
    requires k + n == |s| || !IsDigit(s[k + n])
    ensures Leftmost(VelocityPattern, s, 0) == Some(j)
    ensures VelocityAt(s, j) == Some(VelocityGroups(s[j + 1..k + n]))
  {
    VelocityAtRun(s, j, k, n);
    NoLeadNoMatch(VelocityPattern, s, 0, j);
    CapturesLeftmost(VelocityPattern, s, j);
  }

  /** `DigitRun` measures exactly a run of digits that ends at the end of the text or at a
      non-digit. */
  lemma {:induction false} DigitRunIs(s: string, i: nat, n: nat)
    requires i + n <= |s|
    requires forall k :: i <= k < i + n ==> IsDigit(s[k])
    requires i + n == |s| || !IsDigit(s[i + n])
    ensures DigitRun(s, i) == n
    decreases n
  {
    if n > 0 {
      DigitRunIs(s, i + 1, n - 1);
    }
  }

  /** The captured function number always fits `u8`: it is at most 99. */
  lemma FunctionNumFits(num: string)
    requires 1 <= |num| <= 2 && AllDigits(num)
    ensures DigitsValue(num) <= 99
    ensures ParseInteger(num, 0, 0xFF) == Some(DigitsValue(num) as int)
  {
    assert Pow10(2) == 100;
    assert |num| == 1 ==> Pow10(|num|) == 10;
  }

  /** The captured velocity always fits `i16`: it lies in -999..999. */
  lemma VelocityTextFits(v: string)
    requires WellShaped(VelocityGroups(v))
    ensures ParseInteger(v, -0x8000, 0x7FFF).Some?
    ensures -999 <= ParseInteger(v, -0x8000, 0x7FFF).value <= 999
  {
    var digits := if v[0] == '-' then v[1..] else v;
    assert Pow10(3) == 1000;
    assert Pow10(|digits|) <= 1000 by {
      assert Pow10(1) == 10 && Pow10(2) == 100;
    }
    assert v[0] != '-' ==> v[0] == digits[0];
  }
}
