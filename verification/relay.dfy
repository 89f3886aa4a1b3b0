/** The two loops of the current server (`server/src/main.rs`) and the one loop of the
legacy binary (`src/main.rs`), one message at a time.

The upstream loop reads the JMRI bus: each line JMRI sent is decoded, applied to the
store and announced to the WebSocket clients as the update's JSON. The client loop reads
the WebSocket bus: `update` asks for the throttle's JSON, `test-update` for three fixed
updates, and any other text that is the JSON of an update becomes a command to JMRI.
The legacy listener only decodes JMRI's lines, with the clock rule, into the store.

serde_json is not part of this model: it is a parameter, `Serde`, and the one property
the round-trip lemmas ask of it is `Faithful`, that what it writes it reads back.
 */
module Relay {
  import opened Results
  import opened Parse
  import opened Bus
  import Dcc
  import Store
  import Request
  import Upstream
  import Gateway

  /** `serde_json::to_string` of an update and of a throttle, and
      `serde_json::from_str::<JmriUpdate>`. */
  datatype Serde = Serde(
    ser: Update -> string,
    snapshot: Dcc.Throttle -> string,
    de: string -> Option<Update>)

  /** What serde_json writes for an update, it reads back as that update. */
  ghost predicate Faithful(j: Serde) {
    forall u: Update :: j.de(j.ser(u)) == Some(u)
  }

  // ---------------------------------------------------------------- start-up

  /** The three lines the current server sends JMRI before either loop starts: the
      hardware id, the client name, and the request for throttle `S67`. */
  function Session(uuid: string): (ms: seq<Upstream.JmriMessage>)
    ensures |ms| == 3 && forall k :: 0 <= k < 3 ==> ms[k].Send?
    ensures ms[0].text == "HU" + uuid
  {
    [Upstream.Send("HU" + uuid), Upstream.Send("NRusty"),
     Upstream.Send("MT+" + Store.ADDR + "<;>" + Store.ADDR)]
  }

  /** The session lines are the first three lines on the wire, each with its terminator,
      whatever is published after them. */
  lemma SessionOnTheWire(uuid: string, rest: seq<Recv<Upstream.JmriMessage>>)
    ensures var out := Upstream.WriteLoop(Published(Session(uuid)) + rest, None).out;
            |out| >= 3 && out[..3] == ["HU" + uuid + "\n", "NRusty\n", "MT+S67<;>S67\n"]
  {
    var ms := Session(uuid);
    SendLoopAppend(Published(ms), rest, Upstream.PickCommand, true);
    MessagesOfPublished(ms);
    PickedSession(uuid);
  }

  /** The session messages, as the write loop picks them: each text with its terminator. */
  lemma PickedSession(uuid: string)
    ensures Picked(Session(uuid), Upstream.PickCommand) == ["HU" + uuid + "\n", "NRusty\n", "MT+S67<;>S67\n"]
  {
    var ms := Session(uuid);
    var pick := Upstream.PickCommand;
    var third := Upstream.Send("MT+S67<;>S67");
    assert "MT+" + Store.ADDR + "<;>" + Store.ADDR == "MT+S67<;>S67";
    assert ms[1..][1..] == [third];
    assert Upstream.PickCommand(third) == Some("MT+S67<;>S67" + Upstream.RETURN);
    assert "MT+S67<;>S67" + "\n" == "MT+S67<;>S67\n";
    assert pick(third) == Some("MT+S67<;>S67\n");
    var second := Upstream.Send("NRusty");
    assert Upstream.PickCommand(second) == Some("NRusty" + Upstream.RETURN);
    assert "NRusty" + "\n" == "NRusty\n";
    assert ms[1..] == [second, third];
    assert [second, third][1..] == [third];
    assert [third][1..] == [];
    assert Picked([third], pick) == ["MT+S67<;>S67\n"];
    assert Picked(ms[1..], pick) == ["NRusty\n", "MT+S67<;>S67\n"];
  }

  // ---------------------------------------------------------------- upstream loop

  /** A step's effect: the store after it and the WebSocket messages it published. */
  datatype Outcome = Outcome(store: Store.Store, toClients: seq<Gateway.WSMessage>)

  /** How an update is announced to the clients of the served address. */
  function Announce(j: Serde, u: Update): (m: Gateway.WSMessage)
    ensures m.Send? && m.address == Store.ADDR && m.message == j.ser(u)
  {
    Gateway.Send(Store.ADDR, j.ser(u))
  }

  /** The body of the current server's upstream loop for one message. The server's own
      commands, which share the bus, are skipped. For a line from JMRI the throttle is
      looked up before the line is decoded. */
  function UpstreamStep(j: Serde, s: Store.Store, m: Upstream.JmriMessage): (r: Fallible<Outcome>)
    ensures m.Send? ==> r == Returns(Outcome(s, []))
    ensures m.Receive? ==> (r.Returns? <==> Store.ADDR in s.throttles)
    ensures r.Returns? ==> r.value.store.clock == s.clock && r.value.store.throttles.Keys == s.throttles.Keys
    ensures r.Returns? ==> |r.value.toClients| <= 1
  {
    match m
    case Send(_) => Returns(Outcome(s, []))
    case Receive(line) =>
      match Store.Served(s)
      case Panics(why) => Panics(why)
      case Returns(_) =>
        match Decode(line)
        case None => Returns(Outcome(s, []))
        case Some(u) => Returns(Outcome(Store.Apply(s, u).value, [Announce(j, u)]))
  }

  /** What a loop leaves behind: the store, and the messages it published with how it
      stands. */
  datatype Relayed = Relayed(store: Store.Store, run: Run<Gateway.WSMessage>)

  /** The current server's upstream loop: a lag report is skipped, the close ends the
      loop, and a panic ends the task. */
  function UpstreamLoop(j: Serde, s: Store.Store, inbox: seq<Recv<Upstream.JmriMessage>>): (r: Relayed)
    ensures r.run.end.Failed? ==> r.run.end.fault.Panicked?
    decreases |inbox|
  {
    if |inbox| == 0 then Relayed(s, Run([], Running))
    else
      match inbox[0]
      case Closed => Relayed(s, Run([], Finished))
      case Lagged(_) => UpstreamLoop(j, s, inbox[1..])
      case Message(m) =>
        match UpstreamStep(j, s, m)
        case Panics(why) => Relayed(s, Run([], Failed(Panicked(why))))
        case Returns(o) =>
          var rest := UpstreamLoop(j, o.store, inbox[1..]);
          Relayed(rest.store, Then(o.toClients, rest.run))
  }

  /** The lines JMRI sent, in order, among the messages on the bus. */
  function Received(ms: seq<Upstream.JmriMessage>): (lines: seq<string>)
    ensures |lines| <= |ms|
  {
    if |ms| == 0 then []
    else if ms[0].Receive? then [ms[0].text] + Received(ms[1..])
    else Received(ms[1..])
  }

  /** The updates the current decoder finds in the lines, in order; lines it cannot decode
      are dropped. */
  function Updates(lines: seq<string>): (us: seq<Update>)
    ensures |us| <= |lines|
  {
    if |lines| == 0 then []
    else match Decode(lines[0])
      case Some(u) => [u] + Updates(lines[1..])
      case None => Updates(lines[1..])
  }

  /** The announcements of the updates, in order. */
  function Announcements(j: Serde, us: seq<Update>): (ms: seq<Gateway.WSMessage>)
    ensures |ms| == |us| && forall k :: 0 <= k < |us| ==> ms[k] == Announce(j, us[k])
  {
    if |us| == 0 then [] else [Announce(j, us[0])] + Announcements(j, us[1..])
  }

  /** On a valid store the upstream loop never panics: it applies, in order, exactly the
      updates decoded from the lines JMRI sent before the bus closed, announces each of
      them once and in the same order, and leaves the clock alone, because the current
      decoder has no clock rule. */
  lemma {:induction false} UpstreamLoopRelays(j: Serde, s: Store.Store, inbox: seq<Recv<Upstream.JmriMessage>>)
    requires Store.Valid(s)
    ensures var r := UpstreamLoop(j, s, inbox);
            var us := Updates(Received(Messages(Open(inbox))));
            && r.run.out == Announcements(j, us)
            && Store.ApplyAll(s, us) == Returns(r.store)
            && Store.Valid(r.store) && r.store.clock == s.clock
            && r.run.end == if |Open(inbox)| < |inbox| then Finished else Running
    decreases |inbox|
  {
    if |inbox| > 0 && !inbox[0].Closed? {
      match inbox[0]
      case Lagged(_) =>
        UpstreamLoopRelays(j, s, inbox[1..]);
      case Message(m) =>
        var o := UpstreamStep(j, s, m).value;
        UpstreamLoopRelays(j, o.store, inbox[1..]);
        if m.Receive? && Decode(m.text).Some? {
          var u := Decode(m.text).value;
          Store.ApplyAllKeepsValid(s, [u]);
          assert Store.ApplyAll(s, [u]) == Returns(o.store) by {
            assert [u][1..] == [];
          }
          var rest := Updates(Received(Messages(Open(inbox[1..]))));
          assert Updates(Received(Messages(Open(inbox)))) == [u] + rest;
          assert Store.ApplyAll(s, [u] + rest) == Store.ApplyAll(o.store, rest) by {
            assert ([u] + rest)[1..] == rest;
          }
        }
    }
  }

  /** One command of the server's own on the bus is skipped. */
  lemma UpstreamLoopSkipsCommand(j: Serde, s: Store.Store, inbox: seq<Recv<Upstream.JmriMessage>>)
    requires |inbox| > 0 && inbox[0].Message? && inbox[0].value.Send?
    ensures UpstreamLoop(j, s, inbox) == UpstreamLoop(j, s, inbox[1..])
  {
    var rest := UpstreamLoop(j, s, inbox[1..]);
    assert Then([], rest.run) == rest.run by {
      assert [] + rest.run.out == rest.run.out;
    }
  }

  /** The server's own commands on the bus, the session lines among them, change nothing
      and are not announced. */
  lemma {:induction false} UpstreamLoopSkipsCommands(j: Serde, s: Store.Store, commands: seq<Upstream.JmriMessage>,
                                                     rest: seq<Recv<Upstream.JmriMessage>>)
    requires forall k :: 0 <= k < |commands| ==> commands[k].Send?
    ensures UpstreamLoop(j, s, Published(commands) + rest) == UpstreamLoop(j, s, rest)
    decreases |commands|
  {
    if |commands| == 0 {
      assert Published(commands) + rest == rest;
    } else {
      var inbox := Published(commands) + rest;
      assert inbox[0] == Message(commands[0]);
      assert inbox[1..] == Published(commands[1..]) + rest by {
        assert Published(commands)[1..] == Published(commands[1..]);
      }
      UpstreamLoopSkipsCommand(j, s, inbox);
      UpstreamLoopSkipsCommands(j, s, commands[1..], rest);
    }
  }

  /** Were the session lines on the bus when the upstream loop reads it, they would be
      skipped. They are not: the server publishes them (server/src/main.rs:50-53) before
      the loop subscribes (server/src/main.rs:56), so the loop never sees them, and this
      lemma only states that seeing them would change nothing. */
  lemma SessionNotRelayed(j: Serde, s: Store.Store, uuid: string, rest: seq<Recv<Upstream.JmriMessage>>)
    ensures UpstreamLoop(j, s, Published(Session(uuid)) + rest) == UpstreamLoop(j, s, rest)
  {
    UpstreamLoopSkipsCommands(j, s, Session(uuid), rest);
  }

  /** The frames a client is sent from the upstream loop are the JSON of the updates, and
      with a faithful serde_json the client reads back every update, in order. */
  lemma ClientsLearnUpdates(j: Serde, s: Store.Store, inbox: seq<Recv<Upstream.JmriMessage>>)
    requires Store.Valid(s) && Faithful(j)
    ensures var us := Updates(Received(Messages(Open(inbox))));
            var frames := Gateway.ForClient(UpstreamLoop(j, s, inbox).run.out);
            |frames| == |us| && forall k :: 0 <= k < |us| ==> j.de(frames[k]) == Some(us[k])
  {
    var us := Updates(Received(Messages(Open(inbox))));
    UpstreamLoopRelays(j, s, inbox);
    AnnouncementsForClient(j, us);
  }

  lemma {:induction false} AnnouncementsForClient(j: Serde, us: seq<Update>)
    ensures var frames := Gateway.ForClient(Announcements(j, us));
            |frames| == |us| && forall k :: 0 <= k < |us| ==> frames[k] == j.ser(us[k])
    decreases |us|
  {
    if |us| > 0 {
      AnnouncementsForClient(j, us[1..]);
      assert Announcements(j, us)[1..] == Announcements(j, us[1..]);
    }
  }

  // ---------------------------------------------------------------- client loop

  /** What one client message makes the server publish: messages to the clients, and
      commands to JMRI. */
  datatype Reaction = Reaction(toClients: seq<Gateway.WSMessage>, toJmri: seq<Upstream.JmriMessage>)

  /** The updates `test-update` announces, in this order. */
  const TEST_UPDATES: seq<Update> := [Function(12, true), Direction(Dcc.Forward), Velocity(20)]

  /** The body of the current server's client loop for one message. Its own
      announcements, which share the bus, are skipped. `update` and `test-update` are
      answered before anything is deserialised. */
  function ClientStep(j: Serde, s: Store.Store, m: Gateway.WSMessage): (r: Fallible<Reaction>)
    ensures m.Send? ==> r == Returns(Reaction([], []))
    ensures r.Panics? <==> m.Receive? && m.message == "update" && Store.ADDR !in s.throttles
    ensures r.Returns? && m.Receive? && m.message == "update" ==>
              r.value == Reaction([Gateway.Send(Store.ADDR, j.snapshot(s.throttles[Store.ADDR]))], [])
    ensures r.Returns? && m.Receive? && m.message == "test-update" ==>
              r.value == Reaction(Announcements(j, TEST_UPDATES), [])
    ensures r.Returns? && m.Receive? && m.message != "update" && m.message != "test-update" ==>
              && r.value.toClients == []
              && |r.value.toJmri| <= 1
              && (|r.value.toJmri| == 1 <==> j.de(m.message).Some? && !j.de(m.message).value.Time?)
  {
    match m
    case Send(_, _) => Returns(Reaction([], []))
    case Receive(_, text) =>
      if text == "update" then
        match Store.Served(s)
        case Panics(why) => Panics(why)
        case Returns(t) => Returns(Reaction([Gateway.Send(Store.ADDR, j.snapshot(t))], []))
      else if text == "test-update" then
        Returns(Reaction([Announce(j, TEST_UPDATES[0]), Announce(j, TEST_UPDATES[1]),
                          Announce(j, TEST_UPDATES[2])], []))
      else
        match j.de(text)
        case None => Returns(Reaction([], []))
        case Some(u) =>
          match Request.MakeJmriRequest(Store.ADDR, u)
          case None => Returns(Reaction([], []))
          case Some(req) => Returns(Reaction([], [req]))
  }

  /** A client that sends the JSON of a function, velocity or direction update has JMRI
      told to make that change: decoding the command JMRI is sent gives the update back.
      The update's JSON must not be one of the two request words, and its number must fit
      the decoder's patterns. */
  lemma ClientCommandRoundTrip(j: Serde, s: Store.Store, u: Update)
    requires Faithful(j) && !u.Time?
    requires j.ser(u) != "update" && j.ser(u) != "test-update"
    requires u.Function? ==> u.num <= 99
    requires u.Velocity? ==> -999 <= u.value <= 999
    ensures var r := ClientStep(j, s, Gateway.Wrap(j.ser(u)));
            && r.Returns? && r.value.toClients == [] && |r.value.toJmri| == 1
            && r.value.toJmri[0].Send? && Decode(r.value.toJmri[0].text) == Some(u)
  {
    Request.TestAddressInert();
    Request.RequestRoundTrip(Store.ADDR, u);
  }

  /** What a client loop leaves behind. */
  datatype Served = Served(toClients: seq<Gateway.WSMessage>, toJmri: seq<Upstream.JmriMessage>, end: End)

  /** The current server's client loop over a store that does not change while it runs. */
  function ClientLoop(j: Serde, s: Store.Store, inbox: seq<Recv<Gateway.WSMessage>>): (r: Served)
    ensures r.end.Failed? ==> r.end.fault.Panicked?
    decreases |inbox|
  {
    if |inbox| == 0 then Served([], [], Running)
    else
      match inbox[0]
      case Closed => Served([], [], Finished)
      case Lagged(_) => ClientLoop(j, s, inbox[1..])
      case Message(m) =>
        match ClientStep(j, s, m)
        case Panics(why) => Served([], [], Failed(Panicked(why)))
        case Returns(x) =>
          var rest := ClientLoop(j, s, inbox[1..]);
          Served(x.toClients + rest.toClients, x.toJmri + rest.toJmri, rest.end)
  }

  /** The reactions to the messages, one after another: an independent statement of what
      the client loop should publish. */
  function Reacted(j: Serde, s: Store.Store, ms: seq<Gateway.WSMessage>): (x: Reaction)
    requires Store.ADDR in s.throttles
    decreases |ms|
  {
    if |ms| == 0 then Reaction([], [])
    else
      var y := ClientStep(j, s, ms[0]).value;
      var rest := Reacted(j, s, ms[1..]);
      Reaction(y.toClients + rest.toClients, y.toJmri + rest.toJmri)
  }

  /** On a valid store the client loop never panics: it publishes, in order, the reactions
      to the messages that arrive before the bus closes, and it returns `Ok(())` exactly
      when the bus closed. */
  lemma {:induction false} ClientLoopServes(j: Serde, s: Store.Store, inbox: seq<Recv<Gateway.WSMessage>>)
    requires Store.Valid(s)
    ensures var r := ClientLoop(j, s, inbox);
            var x := Reacted(j, s, Messages(Open(inbox)));
            && r.toClients == x.toClients && r.toJmri == x.toJmri
            && !r.end.Failed?
            && (r.end == Finished <==> exists k :: 0 <= k < |inbox| && inbox[k].Closed?)
    decreases |inbox|
  {
    OpenEndsAtClose(inbox);
    if |inbox| > 0 && !inbox[0].Closed? {
      ClientLoopServes(j, s, inbox[1..]);
      OpenEndsAtClose(inbox[1..]);
      assert Open(inbox) == [inbox[0]] + Open(inbox[1..]);
      assert Messages(Open(inbox)) == Messages([inbox[0]] + Open(inbox[1..]));
      assert ([inbox[0]] + Open(inbox[1..]))[1..] == Open(inbox[1..]);
    }
  }

  /** The client loop skips every announcement the upstream loop makes, so no line from
      JMRI is ever echoed back to JMRI as a command. */
  lemma {:induction false} ClientLoopSkipsAnnouncements(j: Serde, s: Store.Store, us: seq<Update>,
                                                        rest: seq<Recv<Gateway.WSMessage>>)
    ensures ClientLoop(j, s, Published(Announcements(j, us)) + rest) == ClientLoop(j, s, rest)
    decreases |us|
  {
    var ms := Announcements(j, us);
    if |us| == 0 {
      assert Published(ms) + rest == rest;
    } else {
      var inbox := Published(ms) + rest;
      assert inbox[0] == Message(ms[0]);
      assert inbox[1..] == Published(Announcements(j, us[1..])) + rest by {
        assert Published(ms)[1..] == Published(ms[1..]);
        assert ms[1..] == Announcements(j, us[1..]);
      }
      ClientLoopSkipsAnnouncements(j, s, us[1..], rest);
    }
  }

  // ---------------------------------------------------------------- legacy listener

  /** What the legacy listener leaves behind: the store, and how the task stands. */
  datatype Listened = Listened(store: Store.Store, end: End)

  /** The legacy binary's listener loop over the lines JMRI sent. The throttle is looked
      up before the line is decoded; the decoder has the clock rule and panics on a clock
      timestamp that overflows `u64`, which ends the task. */
  function LegacyListen(s: Store.Store, inbox: seq<Recv<string>>): (r: Listened)
    ensures r.end.Failed? ==> r.end.fault.Panicked?
    decreases |inbox|
  {
    if |inbox| == 0 then Listened(s, Running)
    else
      match inbox[0]
      case Closed => Listened(s, Finished)
      case Lagged(_) => LegacyListen(s, inbox[1..])
      case Message(line) =>
        match Store.Served(s)
        case Panics(why) => Listened(s, Failed(Panicked(why)))
        case Returns(_) =>
          match LegacyDecode(line)
          case Panics(why) => Listened(s, Failed(Panicked(why)))
          case Returns(None) => LegacyListen(s, inbox[1..])
          case Returns(Some(u)) => LegacyListen(Store.Apply(s, u).value, inbox[1..])
  }

  /** Whether some line makes the legacy decoder panic. */
  predicate AnyOverflow(lines: seq<string>) {
    exists k :: 0 <= k < |lines| && LegacyDecode(lines[k]).Panics?
  }

  /** The updates the legacy decoder finds in lines none of which overflows. */
  function LegacyUpdates(lines: seq<string>): (us: seq<Update>)
    requires !AnyOverflow(lines)
    ensures |us| <= |lines|
  {
    if |lines| == 0 then []
    else
      assert LegacyDecode(lines[0]).Returns?;
      match LegacyDecode(lines[0]).value
      case Some(u) => [u] + LegacyUpdates(lines[1..])
      case None => LegacyUpdates(lines[1..])
  }

  /** A line list overflows when its first line does or the rest does. */
  lemma AnyOverflowCons(lines: seq<string>)
    requires |lines| > 0
    ensures AnyOverflow(lines) <==> LegacyDecode(lines[0]).Panics? || AnyOverflow(lines[1..])
  {
    var tail := lines[1..];
    if AnyOverflow(tail) {
      var k :| 0 <= k < |tail| && LegacyDecode(tail[k]).Panics?;
      assert LegacyDecode(lines[k + 1]).Panics?;
    }
    if AnyOverflow(lines) && !LegacyDecode(lines[0]).Panics? {
      var k :| 0 <= k < |lines| && LegacyDecode(lines[k]).Panics?;
      assert k > 0 && LegacyDecode(tail[k - 1]).Panics?;
    }
  }

  /** One line applied ahead of the rest. */
  lemma ApplyAhead(s: Store.Store, u: Update, rest: seq<Update>)
    requires Store.Valid(s)
    ensures Store.Apply(s, u).Returns? && Store.Valid(Store.Apply(s, u).value)
    ensures Store.ApplyAll(s, [u] + rest) == Store.ApplyAll(Store.Apply(s, u).value, rest)
  {
    Store.ApplyAllKeepsValid(s, [u]);
    assert Store.ApplyAll(s, [u]) == Returns(Store.Apply(s, u).value) by {
      assert [u][1..] == [];
    }
    assert ([u] + rest)[0] == u && ([u] + rest)[1..] == rest;
  }

  /** On a valid store the legacy listener ends in a panic exactly when some line it is
      handed before the close overflows; otherwise it applies, in order, the updates the
      legacy decoder finds, and the store stays valid. */
  lemma {:induction false} LegacyListenApplies(s: Store.Store, inbox: seq<Recv<string>>)
    requires Store.Valid(s)
    ensures var r := LegacyListen(s, inbox);
            var lines := Messages(Open(inbox));
            && (r.end.Failed? <==> AnyOverflow(lines))
            && (!AnyOverflow(lines) ==>
                  && Store.ApplyAll(s, LegacyUpdates(lines)) == Returns(r.store)
                  && Store.Valid(r.store)
                  && r.end == if |Open(inbox)| < |inbox| then Finished else Running)
    decreases |inbox|
  {
    if |inbox| > 0 && !inbox[0].Closed? {
      var lines := Messages(Open(inbox));
      var tail := Messages(Open(inbox[1..]));
      match inbox[0]
      case Lagged(_) =>
        LegacyListenApplies(s, inbox[1..]);
      case Message(line) =>
        assert lines == [line] + tail;
        assert lines[0] == line && lines[1..] == tail;
        AnyOverflowCons(lines);
        match LegacyDecode(line)
        case Panics(_) =>
        case Returns(None) =>
          LegacyListenApplies(s, inbox[1..]);
        case Returns(Some(u)) =>
          ApplyAhead(s, u, if AnyOverflow(tail) then [] else LegacyUpdates(tail));
          LegacyListenApplies(Store.Apply(s, u).value, inbox[1..]);
    }
  }

  /** When no line overflows, the legacy listener's clock holds the values of the last
      clock line it decoded, or the clock it started with. */
  lemma LegacyListenClock(s: Store.Store, inbox: seq<Recv<string>>)
    requires Store.Valid(s) && !AnyOverflow(Messages(Open(inbox)))
    ensures LegacyListen(s, inbox).store.clock ==
              Store.ClockAfter(s.clock, LegacyUpdates(Messages(Open(inbox))))
  {
    LegacyListenApplies(s, inbox);
    Store.ApplyAllClock(s, LegacyUpdates(Messages(Open(inbox))));
  }

  /** On a line the current decoder understands, the legacy listener does what the current
      upstream loop does to the store. */
  lemma LegacyAgreesOnCurrentLines(j: Serde, s: Store.Store, line: string)
    requires Store.Valid(s) && Decode(line).Some?
    ensures LegacyListen(s, [Message(line)]).store ==
              UpstreamLoop(j, s, [Message(Upstream.Receive(line))]).store
  {
    assert [Message(line)][1..] == [];
    assert [Message(Upstream.Receive(line))][1..] == [];
  }
}
