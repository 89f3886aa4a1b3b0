/** The upstream connection to the JMRI server: its message type, the read loop that cuts
what arrives into lines and publishes them on the bus, and the write loop that sends
commands, each followed by the line terminator.

The `lib` generation publishes `JmriMessage::Receive(line)` and writes the text of every
`JmriMessage::Send` it sees on the same bus. The legacy generation publishes the bare
lines and writes the strings queued on a separate first-in-first-out queue, which holds
two session lines before its writer starts.
 */
module Upstream {
  import opened Results
  import opened Text
  import opened Bus

  /** `RETURN`, the line terminator of the protocol. */
  const RETURN := "\n"

  /** `JmriMessage`: a command for the server or a line that came from it. */
  datatype JmriMessage = Send(text: string) | Receive(text: string)

  /** `Display for JmriMessage`: the direction, then the text. */
  function Show(m: JmriMessage): (s: string)
    ensures |s| > |m.text| && s[|s| - |m.text|..] == m.text
    ensures m.Send? <==> |s| >= 6 && s[..6] == "Send: "
    ensures s[..|s| - |m.text|] == (if m.Send? then "Send: " else "Receive: ")
  {
    match m
    case Send(t) => "Send: " + t
    case Receive(t) =>
      var s := "Receive: " + t;
      assert s[..6][0] == 'R';
      s
  }

  /** Two messages that show the same are the same message. */
  lemma ShowInjective(a: JmriMessage, b: JmriMessage)
    requires Show(a) == Show(b)
    ensures a == b
  {
    var s := Show(a);
    assert a.Send? == b.Send?;
    assert a.text == s[|s| - |a.text|..];
    assert |a.text| == |b.text| by {
      assert |s| == (if a.Send? then 6 else 9) + |a.text|;
      assert |s| == (if b.Send? then 6 else 9) + |b.text|;
    }
  }

  // ---------------------------------------------------------------- reading

  /** A line as the read loop publishes it: not empty, no whitespace at either end, and
      no line terminator inside. */
  predicate IsCleanLine(l: string) {
    l != [] && IsTrimmed(l) && '\n' !in l
  }

  /** The trimmed pieces that are not empty, in order. */
  function Clean(pieces: seq<string>): (fs: seq<string>)
    ensures |fs| <= |pieces|
    ensures forall k :: 0 <= k < |fs| ==> fs[k] != [] && IsTrimmed(fs[k])
    ensures (forall i :: 0 <= i < |pieces| ==> '\n' !in pieces[i]) ==>
              forall k :: 0 <= k < |fs| ==> '\n' !in fs[k]
  {
    if |pieces| == 0 then []
    else
      var t := Trim(pieces[0]);
      (if t == [] then [] else [t]) + Clean(pieces[1..])
  }

  /** The lines the read loop publishes for one buffer: split at every `\n`, each piece
      trimmed, empty ones dropped. */
  function Fragments(buf: string): (fs: seq<string>)
    ensures forall k :: 0 <= k < |fs| ==> IsCleanLine(fs[k])
  {
    Clean(Split(buf, '\n'))
  }

  /** What the write loop puts on the wire for a sequence of commands: each one followed
      by the terminator. */
  function Frame(lines: seq<string>): (s: string)
    ensures |lines| > 0 ==> |s| > 0 && s[|s| - 1] == '\n'
    decreases |lines|
  {
    if |lines| == 0 then "" else lines[0] + RETURN + Frame(lines[1..])
  }

  /** Splitting after a first piece without a terminator. */
  lemma SplitAfterLine(l: string, rest: string)
    requires '\n' !in l
    ensures Split(l + RETURN + rest, '\n') == [l] + Split(rest, '\n')
  {
    assert l + RETURN + rest == l + ['\n'] + rest;
    SplitAfterPiece(l, '\n', rest);
  }

  /** Framing is joining with the terminator, with an empty piece after the last one. */
  lemma {:induction false} FrameIsJoin(lines: seq<string>)
    ensures Frame(lines) == Join(lines + [""], '\n')
    decreases |lines|
  {
    if |lines| > 0 {
      FrameIsJoin(lines[1..]);
      assert (lines + [""])[1..] == lines[1..] + [""];
    }
  }

  /** Framed lines without terminators split back into the lines and one empty piece
      after the last terminator. */
  lemma SplitFrame(lines: seq<string>)
    requires forall k :: 0 <= k < |lines| ==> '\n' !in lines[k]
    ensures Split(Frame(lines), '\n') == lines + [""]
  {
    FrameIsJoin(lines);
    var parts := lines + [""];
    forall k | 0 <= k < |parts| ensures '\n' !in parts[k] {
      if k < |lines| { assert parts[k] == lines[k]; }
    }
    SplitJoin(parts, '\n');
  }

  /** Clean pieces pass through `Clean` unchanged. */
  lemma {:induction false} CleanOfCleanLines(lines: seq<string>)
    requires forall k :: 0 <= k < |lines| ==> IsCleanLine(lines[k])
    ensures Clean(lines) == lines
    decreases |lines|
  {
    if |lines| > 0 {
      TrimOfTrimmed(lines[0]);
      CleanOfCleanLines(lines[1..]);
      assert lines == [lines[0]] + lines[1..];
    }
  }

  /** Reading back what the write loop framed gives the clean commands it framed. */
  lemma FragmentsOfFrame(lines: seq<string>)
    requires forall k :: 0 <= k < |lines| ==> IsCleanLine(lines[k])
    ensures Fragments(Frame(lines)) == lines
  {
    SplitFrame(lines);
    FragmentsAppendEmpty(lines);
    CleanOfCleanLines(lines);
  }

  /** What one `read_line` call hands the read loop: the bytes read, or an I/O error. */
  datatype Read = Data(buf: string) | ReadFailure(detail: string)

  /** The read loop. Every buffer is cut into fragments and each is published in order;
      a failed read ends the loop with that error. Publishing fails only when nobody is
      subscribed to the bus, and then the loop ends with `Interrupted` before anything
      further of that buffer is published. */
  function ReadLoop(attempts: seq<Read>, subscribed: bool): (r: Run<string>)
    ensures forall k :: 0 <= k < |r.out| ==> IsCleanLine(r.out[k])
    ensures !subscribed ==> r.out == []
    ensures r.end != Finished
    decreases |attempts|
  {
    if |attempts| == 0 then Run([], Running)
    else
      match attempts[0]
      case ReadFailure(d) => Run([], Failed(ReadError(d)))
      case Data(buf) =>
        var fs := Fragments(buf);
        if fs != [] && !subscribed then Run([], Failed(Interrupted))
        else Then(fs, ReadLoop(attempts[1..], subscribed))
  }

  /** The buffers read before the first failed read. */
  function ReadsBeforeFailure(attempts: seq<Read>): (ok: seq<string>)
    ensures |ok| <= |attempts|
    ensures forall k :: 0 <= k < |ok| ==> attempts[k] == Data(ok[k])
    ensures |ok| < |attempts| ==> attempts[|ok|].ReadFailure?
  {
    if |attempts| == 0 || attempts[0].ReadFailure? then []
    else [attempts[0].buf] + ReadsBeforeFailure(attempts[1..])
  }

  /** Every fragment of every buffer, in order. */
  function AllFragments(bufs: seq<string>): seq<string> {
    if |bufs| == 0 then [] else Fragments(bufs[0]) + AllFragments(bufs[1..])
  }

  /** With a subscriber on the bus, the read loop publishes the fragments of every buffer
      read before the first failed read, in order, and ends with that read's error. */
  lemma {:induction false} ReadLoopSubscribed(attempts: seq<Read>)
    ensures ReadLoop(attempts, true).out == AllFragments(ReadsBeforeFailure(attempts))
    ensures var n := |ReadsBeforeFailure(attempts)|;
            ReadLoop(attempts, true).end ==
              if n < |attempts| then Failed(ReadError(attempts[n].detail)) else Running
    decreases |attempts|
  {
    if |attempts| > 0 && attempts[0].Data? {
      ReadLoopSubscribed(attempts[1..]);
    }
  }

  /** Without a subscriber the loop ends at the first buffer that holds a line, with
      `Interrupted`, unless a read fails first. */
  lemma {:induction false} ReadLoopUnsubscribed(attempts: seq<Read>, k: nat)
    requires k < |attempts| && attempts[k].Data? && Fragments(attempts[k].buf) != []
    requires forall i :: 0 <= i < k ==> attempts[i].Data? && Fragments(attempts[i].buf) == []
    ensures ReadLoop(attempts, false) == Run([], Failed(Interrupted))
    decreases k
  {
    if k > 0 {
      ReadLoopUnsubscribed(attempts[1..], k - 1);
    }
  }

  /** Each line followed by the terminator. */
  function Terminated(lines: seq<string>): (ws: seq<string>)
    ensures |ws| == |lines|
    ensures forall k :: 0 <= k < |lines| ==> ws[k] == lines[k] + RETURN
  {
    if |lines| == 0 then [] else [lines[0] + RETURN] + Terminated(lines[1..])
  }

  /** One successful `read_line` per buffer. */
  function DataReads(bufs: seq<string>): (rs: seq<Read>)
    ensures |rs| == |bufs|
    ensures forall k :: 0 <= k < |bufs| ==> rs[k] == Data(bufs[k])
  {
    if |bufs| == 0 then [] else [Data(bufs[0])] + DataReads(bufs[1..])
  }

  /** A command followed by the terminator reads as the command alone. */
  lemma FragmentsOfLine(l: string)
    requires IsCleanLine(l)
    ensures Fragments(l + RETURN) == [l]
  {
    FragmentsOfFrame([l]);
    assert [l][1..] == [];
    assert l + RETURN + "" == l + RETURN;
    assert Frame([l]) == l + RETURN;
  }

  /** Line-at-a-time reads of framed commands publish the commands unchanged. */
  lemma {:induction false} ReadLoopOfFramedLines(lines: seq<string>)
    requires forall k :: 0 <= k < |lines| ==> IsCleanLine(lines[k])
    ensures ReadLoop(DataReads(Terminated(lines)), true) == Run(lines, Running)
    decreases |lines|
  {
    if |lines| > 0 {
      FragmentsOfLine(lines[0]);
      assert DataReads(Terminated(lines))[1..] == DataReads(Terminated(lines[1..]));
      ReadLoopOfFramedLines(lines[1..]);
      assert lines == [lines[0]] + lines[1..];
    }
  }

  /** The terminator the writer appends does not change how a command is read. */
  lemma FragmentsIgnoreTerminator(t: string)
    ensures Fragments(t + RETURN) == Fragments(t)
  {
    SplitAppendReturn(t);
    FragmentsAppendEmpty(Split(t, '\n'));
  }

  /** Appending a terminator adds one empty piece after the last one. */
  lemma {:induction false} SplitAppendReturn(t: string)
    ensures Split(t + RETURN, '\n') == Split(t, '\n') + [""]
    decreases |t|
  {
    var s := t + RETURN;
    if '\n' in t {
      var i := IndexOf(t, '\n');
      assert s[..i] == t[..i];
      IndexOfFirst(s, '\n', i);
      assert s[i + 1..] == t[i + 1..] + RETURN;
      SplitAppendReturn(t[i + 1..]);
    } else {
      SplitAfterLine(t, "");
      assert s == t + RETURN + "";
      assert Split("", '\n') == [""];
    }
  }

  /** An empty last piece adds no fragment. */
  lemma {:induction false} FragmentsAppendEmpty(pieces: seq<string>)
    ensures Clean(pieces + [""]) == Clean(pieces)
    decreases |pieces|
  {
    if |pieces| > 0 {
      assert (pieces + [""])[1..] == pieces[1..] + [""];
      FragmentsAppendEmpty(pieces[1..]);
    } else {
      assert Trim("") == [];
    }
  }

  // ---------------------------------------------------------------- writing

  /** The `lib` write loop writes the text of each `Send`, then the terminator. */
  function PickCommand(m: JmriMessage): (f: Option<string>)
    ensures f.Some? <==> m.Send?
  {
    match m
    case Send(t) => Some(t + RETURN)
    case Receive(_) => None
  }

  /** The `lib` write loop: `?` on the write, so a failed write ends it with the error. */
  function WriteLoop(inbox: seq<Recv<JmriMessage>>, budget: Option<nat>): (r: Run<string>)
    ensures r.end.Failed? ==> r.end.fault == WriteError
  {
    SendLoop(inbox, PickCommand, budget, true)
  }

  /** `Send(c)` for every command. */
  function Sends(commands: seq<string>): (ms: seq<JmriMessage>)
    ensures |ms| == |commands|
    ensures forall k :: 0 <= k < |commands| ==> ms[k] == Send(commands[k])
  {
    if |commands| == 0 then [] else [Send(commands[0])] + Sends(commands[1..])
  }

  /** The text the `lib` writer sends: every `Send` before the bus closes, in order, each
      followed by the terminator; nothing for a `Receive`. */
  function CommandBytes(ms: seq<JmriMessage>): (s: string)
    decreases |ms|
  {
    if |ms| == 0 then ""
    else match ms[0]
      case Send(t) => t + RETURN + CommandBytes(ms[1..])
      case Receive(_) => CommandBytes(ms[1..])
  }

  /** With a healthy socket the `lib` writer's bytes are the framed `Send` texts of the bus
      traffic before the close; when those texts are clean lines, a reader cuts the bytes
      back into exactly them. */
  lemma WriteLoopHealthy(inbox: seq<Recv<JmriMessage>>, commands: seq<string>)
    requires Messages(Open(inbox)) == Sends(commands)
    requires forall k :: 0 <= k < |commands| ==> IsCleanLine(commands[k])
    ensures WriteLoop(inbox, None).out == Terminated(commands)
    ensures Concat(WriteLoop(inbox, None).out) == Frame(commands)
    ensures Fragments(Concat(WriteLoop(inbox, None).out)) == commands
  {
    SendLoopHealthy(inbox, PickCommand, true);
    PickedCommands(commands);
    ConcatTerminated(commands);
    FragmentsOfFrame(commands);
  }

  /** The writer, given `Send`s only, writes each command with its terminator. */
  lemma {:induction false} PickedCommands(commands: seq<string>)
    ensures Picked(Sends(commands), PickCommand) == Terminated(commands)
    decreases |commands|
  {
    if |commands| > 0 {
      assert Sends(commands)[1..] == Sends(commands[1..]);
      PickedCommands(commands[1..]);
    }
  }

  /** The writer's bytes for any bus traffic: `CommandBytes` of the messages before the
      close. */
  lemma {:induction false} WriteLoopBytes(ms: seq<JmriMessage>)
    ensures Concat(Picked(ms, PickCommand)) == CommandBytes(ms)
    decreases |ms|
  {
    if |ms| > 0 {
      WriteLoopBytes(ms[1..]);
    }
  }

  /** The bytes of several writes, one after another. */
  function Concat(chunks: seq<string>): (s: string)
    decreases |chunks|
  {
    if |chunks| == 0 then "" else chunks[0] + Concat(chunks[1..])
  }

  lemma {:induction false} ConcatTerminated(lines: seq<string>)
    ensures Concat(Terminated(lines)) == Frame(lines)
    decreases |lines|
  {
    if |lines| > 0 {
      assert Terminated(lines)[1..] == Terminated(lines[1..]);
      ConcatTerminated(lines[1..]);
    }
  }

  // ---------------------------------------------------------------- legacy writer

  /** The two lines the legacy connection queues before its writer starts. They already
      end in the terminator, and the writer appends another. */
  const LEGACY_SESSION := ["HUskjdfkjdsf\n", "NRusty\n"]

  /** Every queued string, then the terminator. */
  function PickQueued(m: string): (f: Option<string>)
    ensures f.Some?
  {
    Some(m + RETURN)
  }

  /** The legacy writer: every queued string, then the terminator; `?` on the write. The
      queue yields `Message` for a queued string and `Closed` once every sender is gone. */
  function LegacyWriteLoop(queue: seq<Recv<string>>, budget: Option<nat>): (r: Run<string>)
    ensures r.end.Failed? ==> r.end.fault == WriteError
  {
    SendLoop(queue, PickQueued, budget, true)
  }

  /** With a healthy socket the legacy writer writes every queued string with one more
      terminator, in queue order, and returns `Ok(())` once the queue is closed. */
  lemma LegacyWriteLoopHealthy(queue: seq<Recv<string>>)
    ensures LegacyWriteLoop(queue, None).out == Terminated(Messages(Open(queue)))
    ensures LegacyWriteLoop(queue, None).end == Finished <==> |Open(queue)| < |queue|
  {
    SendLoopHealthy(queue, PickQueued, true);
    PickedQueued(Messages(Open(queue)));
  }

  lemma {:induction false} PickedQueued(ms: seq<string>)
    ensures Picked(ms, PickQueued) == Terminated(ms)
    decreases |ms|
  {
    if |ms| > 0 {
      PickedQueued(ms[1..]);
    }
  }

  /** Each session line goes out with a second terminator. */
  lemma SessionLinesDoubled()
    ensures PickQueued(LEGACY_SESSION[0]) == Some("HUskjdfkjdsf\n\n")
    ensures PickQueued(LEGACY_SESSION[1]) == Some("NRusty\n\n")
  {
    assert "HUskjdfkjdsf\n" + "\n" == "HUskjdfkjdsf\n\n";
    assert "NRusty\n" + "\n" == "NRusty\n\n";
  }

  /** The first writes of the legacy writer on a healthy socket are the two session
      lines, each followed by an empty line. */
  lemma LegacySessionWrites(rest: seq<Recv<string>>)
    ensures var r := LegacyWriteLoop([Message(LEGACY_SESSION[0]), Message(LEGACY_SESSION[1])] + rest, None);
            && |r.out| >= 2
            && r.out[0] == "HUskjdfkjdsf\n\n" && r.out[1] == "NRusty\n\n"
  {
    var queue := [Message(LEGACY_SESSION[0]), Message(LEGACY_SESSION[1])] + rest;
    assert queue[1..][1..] == rest;
    SessionLinesDoubled();
    var tail := SendLoop(rest, PickQueued, None, true);
    assert SendLoop(queue[1..], PickQueued, None, true) == Then(["NRusty\n\n"], tail);
    assert SendLoop(queue, PickQueued, None, true) ==
           Then(["HUskjdfkjdsf\n\n"], Then(["NRusty\n\n"], tail));
  }

  /** The session bytes as framed lines: each session line, then an empty line. */
  lemma SessionFrame()
    ensures Frame(["HUskjdfkjdsf", "", "NRusty", ""]) == "HUskjdfkjdsf\n\nNRusty\n\n"
  {
    var lines := ["HUskjdfkjdsf", "", "NRusty", ""];
    assert lines[1..] == ["", "NRusty", ""] && lines[1..][1..] == ["NRusty", ""];
    assert lines[1..][1..][1..] == [""];
    assert Frame([""]) == "\n";
    assert Frame(["NRusty", ""]) == "NRusty\n\n";
    assert Frame(["", "NRusty", ""]) == "\nNRusty\n\n";
  }

  /** Cleaning the session pieces keeps the two session lines. */
  lemma CleanSession()
    ensures Clean(["HUskjdfkjdsf", "", "NRusty", ""]) == ["HUskjdfkjdsf", "NRusty"]
  {
    CleanLinesAndBlanks("HUskjdfkjdsf", "NRusty");
  }

  /** Two trimmed lines, each followed by an empty piece: cleaning keeps the two lines. */
  lemma CleanLinesAndBlanks(a: string, b: string)
    requires a != [] && IsTrimmed(a) && b != [] && IsTrimmed(b)
    ensures Clean([a, "", b, ""]) == [a, b]
  {
    Displays(a, "", b, "");
    CleanDropsEmpty([]);
    CleanKeepsLine(b, [""]);
    CleanDropsEmpty([b, ""]);
    CleanKeepsLine(a, ["", b, ""]);
  }

  /** Short displays as a first element followed by the rest. */
  lemma Displays<T>(w: T, x: T, y: T, z: T)
    ensures [w] + [x, y, z] == [w, x, y, z]
    ensures [x] + [y, z] == [x, y, z]
    ensures [y] + [z] == [y, z] && [z] + [] == [z]
  {
  }

  /** A first piece that is already a trimmed line is kept as it is. */
  lemma CleanKeepsLine(p: string, rest: seq<string>)
    requires p != [] && IsTrimmed(p)
    ensures Clean([p] + rest) == [p] + Clean(rest)
  {
    TrimOfTrimmed(p);
    CleanFirst(p, rest);
  }

  /** An empty first piece is dropped. */
  lemma CleanDropsEmpty(rest: seq<string>)
    ensures Clean([""] + rest) == Clean(rest)
  {
    assert Trim("") == [];
    CleanFirst("", rest);
  }

  /** Cleaning keeps the first piece, trimmed, unless that leaves nothing. */
  lemma CleanFirst(p: string, rest: seq<string>)
    ensures Clean([p] + rest) == (if Trim(p) == [] then [] else [Trim(p)]) + Clean(rest)
  {
    assert ([p] + rest)[1..] == rest;
  }

  /** A reader drops the empty lines the doubled terminators make: the session bytes read
      as the two session lines. */
  lemma LegacySessionRead()
    ensures Fragments("HUskjdfkjdsf\n\nNRusty\n\n") == ["HUskjdfkjdsf", "NRusty"]
  {
    var lines := ["HUskjdfkjdsf", "", "NRusty", ""];
    SessionFrame();
    assert forall k :: 0 <= k < |lines| ==> '\n' !in lines[k];
    SplitFrame(lines);
    FragmentsAppendEmpty(lines);
    CleanSession();
  }
}
