/** `make_jmri_request`: the command a client's update becomes on the upstream side.

A function update is one `MTA` line. A velocity or direction update is the setting line
followed by a query line (`qV`, `vR`) that asks the server to report the value back. A
clock update has no command. Decoding the setting line gives back the update, and so
does decoding the whole command text; the query line alone decodes to nothing.
 */
module Request {
  import opened Results
  import opened Text
  import opened Patterns
  import opened Parse
  import Dcc
  import Upstream

  /** The head of every throttle command: `MTA`, the address, `<;>`. */
  function CommandHead(address: string): (s: string)
    ensures |s| == 6 + |address|
  {
    "MTA" + address + "<;>"
  }

  /** `make_jmri_request(address, update)`. */
  function MakeJmriRequest(address: string, u: Update): (r: Option<Upstream.JmriMessage>)
    ensures r.None? <==> u.Time?
    ensures r.Some? ==> r.value.Send? && |r.value.text| > |CommandHead(address)|
                        && r.value.text[..|CommandHead(address)|] == CommandHead(address)
  {
    match u
    case Function(num, isOn) =>
      Some(Upstream.Send(CommandHead(address) + "F" + (if isOn then "1" else "0") + NatToString(num)))
    case Velocity(v) =>
      Some(Upstream.Send(CommandHead(address) + "V" + IntToString(v) + "\n" + CommandHead(address) + "qV"))
    case Direction(d) =>
      Some(Upstream.Send(CommandHead(address) + Dcc.ShowDirection(d) + "\n" + CommandHead(address) + "vR"))
    case Time(_, _) => None
  }

  /** The hard-coded test address `S67` switching function 12 on. */
  lemma MakeJmriRequestExample()
    ensures MakeJmriRequest("S67", Function(12, true)) == Some(Upstream.Send("MTAS67<;>F112"))
  {
    assert NatToString(12) == "12" by {
      assert NatToString(1) == [DigitChar(1)] == "1";
      assert DigitChar(2) == '2';
    }
    assert "MTA" + "S67" + "<;>" + "F" + "1" + "12" == "MTAS67<;>F112";
  }

  /** An address that cannot start a match of its own and holds no line terminator. */
  predicate Inert(address: string) {
    'F' !in address && 'V' !in address && 'R' !in address && '\n' !in address
  }

  /** `S67`, the address the server uses, is inert. */
  lemma TestAddressInert()
    ensures Inert("S67")
  {
  }

  /** The leading part of a command holds no pattern lead other than the ones named. */
  lemma HeadIsInert(address: string)
    requires Inert(address)
    ensures var h := CommandHead(address);
            'F' !in h && 'V' !in h && 'R' !in h && '\n' !in h
  {
    var h := CommandHead(address);
    forall i | 0 <= i < |h|
      ensures h[i] != 'F' && h[i] != 'V' && h[i] != 'R' && h[i] != '\n'
    {
      if 3 <= i < 3 + |address| {
        assert h[i] == address[i - 3];
      }
    }
  }

  // ---------------------------------------------------------------- decoding a command

  /** Where the function pattern first matches in a function setting: at its `F`, and it
      captures the flag and all the digits. */
  lemma FunctionLineShape(head: string, flag: string, digits: string, tail: string)
    requires 'F' !in head && (flag == "0" || flag == "1")
    requires 1 <= |digits| <= 2 && AllDigits(digits)
    requires tail == [] || !IsDigit(tail[0])
    ensures var line := head + "F" + flag + digits + tail;
            && Leftmost(FunctionPattern, line, 0) == Some(|head|)
            && FunctionAt(line, |head|) == Some(FunctionGroups(flag, digits))
  {
    var line := head + "F" + flag + digits + tail;
    var j := |head|;
    forall k | 0 <= k < j ensures line[k] != 'F' {
      assert line[k] == head[k];
    }
    assert line[j] == 'F' && line[j + 1] == flag[0] && line[j + 2] == digits[0];
    if |digits| == 2 {
      assert line[j + 3] == digits[1];
      assert digits == [digits[0], digits[1]];
    } else {
      if j + 3 < |line| {
        assert line[j + 3] == tail[0];
      }
      assert digits == [digits[0]];
    }
    NoLeadNoMatch(FunctionPattern, line, 0, j);
    FunctionAtShape(line, j);
    CapturesLeftmost(FunctionPattern, line, j);
  }

  /** The text of a function number the pattern can capture: one or two digits. */
  lemma FunctionTextOf(num: Dcc.FunctionNum)
    requires num <= 99
    ensures 1 <= |NatToString(num)| <= 2 && AllDigits(NatToString(num))
    ensures IntToString(num) == NatToString(num)
  {
    assert Pow10(2) == 100 by { assert Pow10(1) == 10; }
    NatToStringLength(num, 2);
  }

  /** A function setting after a head without `F`, followed by nothing or a non-digit,
      decodes to the function update it encodes. */
  lemma FunctionCommandDecodes(head: string, num: Dcc.FunctionNum, isOn: bool, tail: string)
    requires 'F' !in head && num <= 99
    requires tail == [] || !IsDigit(tail[0])
    ensures Decode(head + "F" + (if isOn then "1" else "0") + NatToString(num) + tail) ==
              Some(Function(num, isOn))
  {
    var flag := if isOn then "1" else "0";
    var line := head + "F" + flag + NatToString(num) + tail;
    FunctionTextOf(num);
    FunctionLineShape(head, flag, NatToString(num), tail);
    FunctionRuleReached(line, |head|);
    ParseIntegerOfIntToString(num, 0, Dcc.FUNCTION_NUM_MAX);
  }

  /** Digits are neither pattern leads nor terminators. */
  lemma DigitsInert(t: string)
    requires AllDigits(t)
    ensures 'F' !in t && 'V' !in t && 'R' !in t && '\n' !in t
  {
    forall i | 0 <= i < |t| ensures t[i] != 'F' && t[i] != 'V' && t[i] != 'R' && t[i] != '\n' {
      assert IsDigit(t[i]);
    }
  }

  /** An optional sign and one to three digits: what the velocity pattern captures whole. */
  predicate VelocityText(t: string) {
    var k := if |t| > 0 && t[0] == '-' then 1 else 0;
    1 <= |t| - k <= 3 && forall i :: k <= i < |t| ==> IsDigit(t[i])
  }

  /** The text of every velocity the pattern can capture has that shape. */
  lemma VelocityTextOf(v: Dcc.VelocityValue)
    requires -999 <= v <= 999
    ensures VelocityText(IntToString(v))
  {
    var mag: nat := if v < 0 then -(v as int) else v as int;
    var digits := NatToString(mag);
    assert |digits| <= 3 by {
      assert Pow10(3) == 1000 by { assert Pow10(2) == 100 by { assert Pow10(1) == 10; } }
      NatToStringLength(mag, 3);
    }
    if v < 0 {
      var t := IntToString(v);
      assert t == "-" + digits;
      forall i | 1 <= i < |t| ensures IsDigit(t[i]) {
        assert t[i] == digits[i - 1];
      }
    }
  }

  /** A velocity's text holds no pattern lead and no terminator. */
  lemma VelocityTextInert(t: string)
    requires VelocityText(t)
    ensures 'F' !in t && 'V' !in t && 'R' !in t && '\n' !in t
  {
    forall i | 0 <= i < |t| ensures t[i] != 'F' && t[i] != 'V' && t[i] != 'R' && t[i] != '\n' {
      if i > 0 || t[0] != '-' { assert IsDigit(t[i]); }
    }
  }

  /** Where the velocity pattern first matches in a velocity setting: at its `V`, and it
      captures the whole signed number. */
  lemma VelocityLineShape(head: string, text: string, tail: string)
    requires 'V' !in head && VelocityText(text)
    requires tail == [] || !IsDigit(tail[0])
    ensures var line := head + "V" + text + tail;
            && Leftmost(VelocityPattern, line, 0) == Some(|head|)
            && VelocityAt(line, |head|) == Some(VelocityGroups(text))
  {
    var line := head + "V" + text + tail;
    var j := |head|;
    var k := if text[0] == '-' then j + 2 else j + 1;
    var n := |text| - (k - j - 1);
    forall i | 0 <= i < j ensures line[i] != 'V' {
      assert line[i] == head[i];
    }
    assert line[j] == 'V' && line[j + 1] == text[0];
    forall i | k <= i < k + n ensures IsDigit(line[i]) {
      assert line[i] == text[i - j - 1];
    }
    if k + n < |line| {
      assert line[k + n] == tail[0];
    }
    assert line[j + 1..k + n] == text;
    VelocityLeftmostAt(line, j, k, n);
  }

  /** A velocity setting built from parts without `F` holds no `F`, so the function pattern
      does not match it. */
  lemma VelocityLineHasNoF(head: string, text: string, tail: string)
    requires 'F' !in head && 'F' !in tail && VelocityText(text)
    ensures Captures(FunctionPattern, head + "V" + text + tail).None?
  {
    VelocityTextInert(text);
    NoLeadNoCaptures(FunctionPattern, head + "V" + text + tail);
  }

  /** A velocity setting after a head without `F` or `V`, followed by nothing or by a tail
      without `F` that does not start with a digit, decodes to the velocity it encodes. */
  lemma VelocityCommandDecodes(head: string, v: Dcc.VelocityValue, tail: string)
    requires 'F' !in head && 'V' !in head && 'F' !in tail && -999 <= v <= 999
    requires tail == [] || !IsDigit(tail[0])
    ensures Decode(head + "V" + IntToString(v) + tail) == Some(Velocity(v))
  {
    var line := head + "V" + IntToString(v) + tail;
    VelocityTextOf(v);
    VelocityLineShape(head, IntToString(v), tail);
    VelocityLineHasNoF(head, IntToString(v), tail);
    VelocityRuleReached(line, |head|);
    ParseIntegerOfIntToString(v, Dcc.VELOCITY_VALUE_MIN, Dcc.VELOCITY_VALUE_MAX);
  }

  /** A direction token after a head without `F`, `V` or `R`, followed by a tail without
      `F` or `V`, decodes to the direction it encodes. */
  lemma DirectionCommandDecodes(head: string, d: Dcc.Direction, tail: string)
    requires 'F' !in head && 'V' !in head && 'R' !in head && 'F' !in tail && 'V' !in tail
    ensures Decode(head + Dcc.ShowDirection(d) + tail) == Some(Direction(d))
  {
    var token := Dcc.ShowDirection(d);
    var line := head + token + tail;
    var j := |head|;
    assert line[j] == 'R' && line[j + 1] == token[1];
    forall i | 0 <= i < |line| ensures line[i] != 'F' && line[i] != 'V' {
      if i < j {
        assert line[i] == head[i];
      } else if i >= j + 2 {
        assert line[i] == tail[i - j - 2];
      }
    }
    forall i | 0 <= i < j ensures line[i] != 'R' {
      assert line[i] == head[i];
    }
    NoLeadNoCaptures(FunctionPattern, line);
    NoLeadNoCaptures(VelocityPattern, line);
    CapturesIffOccurs(FunctionPattern, line);
    CapturesIffOccurs(VelocityPattern, line);
    NoLeadNoMatch(DirectionPattern, line, 0, j);
    assert DirectionAt(line, j).Some?;
    CapturesLeftmost(DirectionPattern, line, j);
    DirectionRuleDecides(line, j);
  }

  /** The query lines decode to nothing: their `V` or `R` is the last character, with no
      digit after it. */
  lemma QueryLinesDecodeToNothing(address: string)
    requires Inert(address)
    ensures Decode(CommandHead(address) + "qV").None?
    ensures Decode(CommandHead(address) + "vR").None?
  {
    HeadIsInert(address);
    var h := CommandHead(address);
    var qv, vr := h + "qV", h + "vR";
    forall i | 0 <= i < |h| ensures qv[i] == h[i] && vr[i] == h[i] { }
    NoLeadNoCaptures(FunctionPattern, qv);
    NoLeadNoCaptures(DirectionPattern, qv);
    NoLeadNoMatch(VelocityPattern, qv, 0, |qv| - 1);
    assert VelocityAt(qv, |qv| - 1).None?;
    assert Captures(VelocityPattern, qv).None?;
    CapturesIffOccurs(FunctionPattern, qv);
    CapturesIffOccurs(VelocityPattern, qv);
    CapturesIffOccurs(DirectionPattern, qv);
    NoLeadNoCaptures(FunctionPattern, vr);
    NoLeadNoCaptures(VelocityPattern, vr);
    NoLeadNoMatch(DirectionPattern, vr, 0, |vr| - 1);
    assert DirectionAt(vr, |vr| - 1).None?;
    assert Captures(DirectionPattern, vr).None?;
    CapturesIffOccurs(FunctionPattern, vr);
    CapturesIffOccurs(VelocityPattern, vr);
    CapturesIffOccurs(DirectionPattern, vr);
  }

  /** What a command's lines are: for an inert address, the text splits at its one line
      terminator (if any) into the setting line and the query line. */
  function CommandLines(c: string): seq<string> {
    Split(c, '\n')
  }

  /** The query line of a command, after its terminator, holds no `F` and no other
      terminator, and a `V` only where its key has one. */
  lemma QueryHasNoLeads(address: string, key: string)
    requires Inert(address) && 'F' !in key && '\n' !in key
    ensures var t := "\n" + (CommandHead(address) + key);
            && 'F' !in t && '\n' !in t[1..]
            && ('V' !in key ==> 'V' !in t)
  {
    HeadIsInert(address);
    var h := CommandHead(address);
    var t := "\n" + (h + key);
    forall i | 1 <= i < |t|
      ensures t[i] != 'F' && t[i] != '\n' && ('V' !in key ==> t[i] != 'V')
    {
      if i <= |h| { assert t[i] == h[i - 1]; }
      else { assert t[i] == key[i - 1 - |h|]; }
    }
  }

  /** The decoder, applied to the setting line of a command or to the whole command text,
      gives back the update, as long as its number fits the function pattern's two digits
      and its velocity the velocity pattern's three; the query line gives nothing. */
  lemma RequestRoundTrip(address: string, u: Update)
    requires Inert(address) && !u.Time?
    requires u.Function? ==> u.num <= 99
    requires u.Velocity? ==> -999 <= u.value <= 999
    ensures var c := MakeJmriRequest(address, u).value.text;
            && Decode(c) == Some(u)
            && Decode(CommandLines(c)[0]) == Some(u)
            && (|CommandLines(c)| == 2 ==> Decode(CommandLines(c)[1]).None?)
            && |CommandLines(c)| == if u.Function? then 1 else 2
  {
    match u
    case Function(num, isOn) => FunctionRequestRoundTrip(address, num, isOn);
    case Velocity(v) => VelocityRequestRoundTrip(address, v);
    case Direction(d) => DirectionRequestRoundTrip(address, d);
  }

  /** A function command is one line, and it decodes to its update. */
  lemma FunctionRequestRoundTrip(address: string, num: Dcc.FunctionNum, isOn: bool)
    requires Inert(address) && num <= 99
    ensures var c := MakeJmriRequest(address, Function(num, isOn)).value.text;
            && Decode(c) == Some(Function(num, isOn))
            && CommandLines(c) == [c]
  {
    HeadIsInert(address);
    var h := CommandHead(address);
    var c := MakeJmriRequest(address, Function(num, isOn)).value.text;
    assert Decode(c) == Some(Function(num, isOn)) by {
      FunctionCommandDecodes(h, num, isOn, "");
      assert c + "" == c;
    }
    assert '\n' !in c by {
      DigitsInert(NatToString(num));
    }
  }

  /** A velocity command is a setting line and a query line; the setting line and the whole
      text decode to its update, the query line to nothing. */
  lemma VelocityRequestRoundTrip(address: string, v: Dcc.VelocityValue)
    requires Inert(address) && -999 <= v <= 999
    ensures var c := MakeJmriRequest(address, Velocity(v)).value.text;
            && Decode(c) == Some(Velocity(v))
            && CommandLines(c) == [CommandHead(address) + "V" + IntToString(v), CommandHead(address) + "qV"]
            && Decode(CommandLines(c)[0]) == Some(Velocity(v))
            && Decode(CommandLines(c)[1]).None?
  {
    var h := CommandHead(address);
    var first := h + "V" + IntToString(v);
    var query := h + "qV";
    var c := MakeJmriRequest(address, Velocity(v)).value.text;
    assert c == first + ("\n" + query) by {
      assert c == first + "\n" + h + "qV";
    }
    QueryHasNoLeads(address, "qV");
    assert Decode(c) == Some(Velocity(v)) by {
      HeadIsInert(address);
      VelocityCommandDecodes(h, v, "\n" + query);
    }
    assert Decode(first) == Some(Velocity(v)) by {
      HeadIsInert(address);
      VelocityCommandDecodes(h, v, "");
      assert first + "" == first;
    }
    assert CommandLines(c) == [first, query] by {
      HeadIsInert(address);
      VelocityTextOf(v);
      VelocityTextInert(IntToString(v));
      SplitCommand(first, query);
    }
    QueryLinesDecodeToNothing(address);
  }

  /** A direction command is a setting line and a query line; the setting line and the
      whole text decode to its update, the query line to nothing. */
  lemma DirectionRequestRoundTrip(address: string, d: Dcc.Direction)
    requires Inert(address)
    ensures var c := MakeJmriRequest(address, Direction(d)).value.text;
            && Decode(c) == Some(Direction(d))
            && CommandLines(c) == [CommandHead(address) + Dcc.ShowDirection(d), CommandHead(address) + "vR"]
            && Decode(CommandLines(c)[0]) == Some(Direction(d))
            && Decode(CommandLines(c)[1]).None?
  {
    var h := CommandHead(address);
    var first := h + Dcc.ShowDirection(d);
    var query := h + "vR";
    var c := MakeJmriRequest(address, Direction(d)).value.text;
    assert c == first + ("\n" + query) by {
      assert c == first + "\n" + h + "vR";
    }
    QueryHasNoLeads(address, "vR");
    assert Decode(c) == Some(Direction(d)) by {
      HeadIsInert(address);
      DirectionCommandDecodes(h, d, "\n" + query);
    }
    assert Decode(first) == Some(Direction(d)) by {
      HeadIsInert(address);
      DirectionCommandDecodes(h, d, "");
      assert first + "" == first;
    }
    assert CommandLines(c) == [first, query] by {
      HeadIsInert(address);
      assert '\n' !in Dcc.ShowDirection(d);
      SplitCommand(first, query);
    }
    QueryLinesDecodeToNothing(address);
  }

  /** Two lines joined by one terminator split back into the two. */
  lemma SplitCommand(first: string, query: string)
    requires '\n' !in first && '\n' !in query
    ensures Split(first + ("\n" + query), '\n') == [first, query]
  {
    assert first + ("\n" + query) == first + Upstream.RETURN + query;
    Upstream.SplitAfterLine(first, query);
  }
}
