/** The WebSocket side of the bridge: for every connected client, a task that writes the
bus's messages for the served address to the client, and a task that publishes the
client's text frames on the bus. The current generation (`common/src/server.rs`) returns
the error of a failed write and skips broken incoming frames; the legacy one
(`src/server.rs`) ignores a failed write and stops at the first broken incoming frame.
 */
module Gateway {
  import opened Results
  import opened Bus
  import Store

  /** What travels on the WebSocket bus: `Send` goes out to the clients of an address,
      `Receive` came in from a client. */
  datatype WSMessage =
    | Send(address: string, message: string)
    | Receive(address: string, message: string)

  // ---------------------------------------------------------------- outbound

  /** The outbound filter: only a `Send` to `S67` is written, and its text is the frame. */
  function PickOutbound(m: WSMessage): (r: Option<string>)
    ensures r.Some? <==> m.Send? && m.address == Store.ADDR
    ensures r.Some? ==> r.value == m.message
  {
    if m.Send? && m.address == Store.ADDR then Some(m.message) else None
  }

  /** The frames meant for the served address, in bus order: an independent statement of
      what a client should be sent. */
  function ForClient(ms: seq<WSMessage>): (fs: seq<string>)
    ensures |fs| <= |ms|
  {
    if |ms| == 0 then []
    else if ms[0].Send? && ms[0].address == Store.ADDR then [ms[0].message] + ForClient(ms[1..])
    else ForClient(ms[1..])
  }

  lemma {:induction false} PickedForClient(ms: seq<WSMessage>)
    ensures Picked(ms, PickOutbound) == ForClient(ms)
    decreases |ms|
  {
    if |ms| > 0 {
      PickedForClient(ms[1..]);
    }
  }

  /** `make_ws_send_handle`: a failed write returns the error. */
  function Outbound(inbox: seq<Recv<WSMessage>>, budget: Option<nat>): Run<string> {
    SendLoop(inbox, PickOutbound, budget, true)
  }

  /** The send task of the legacy `handle_connection`: a failed write is ignored. */
  function LegacyOutbound(inbox: seq<Recv<WSMessage>>, budget: Option<nat>): Run<string> {
    SendLoop(inbox, PickOutbound, budget, false)
  }

  /** The frames a client is due: those for the served address among the messages that
      arrive before the bus closes. */
  function Due(inbox: seq<Recv<WSMessage>>): seq<string> {
    ForClient(Messages(Open(inbox)))
  }

  /** With a healthy connection both generations write exactly the frames due, in order,
      and return `Ok(())` exactly when the bus closed. */
  lemma OutboundHealthy(inbox: seq<Recv<WSMessage>>)
    ensures Outbound(inbox, None) == LegacyOutbound(inbox, None)
    ensures Outbound(inbox, None).out == Due(inbox)
    ensures Outbound(inbox, None).end == if |Open(inbox)| < |inbox| then Finished else Running
  {
    SendLoopHealthy(inbox, PickOutbound, true);
    SendLoopHealthy(inbox, PickOutbound, false);
    PickedForClient(Messages(Open(inbox)));
  }

  /** When the connection takes only `k` more frames, the current task writes the first
      `k` frames due and returns the write error exactly when more were due. */
  lemma OutboundFailing(inbox: seq<Recv<WSMessage>>, k: nat)
    ensures var r := Outbound(inbox, Some(k));
            && (k < |Due(inbox)| ==> r.out == Due(inbox)[..k] && r.end == Failed(WriteError))
            && (|Due(inbox)| <= k ==> r.out == Due(inbox) && !r.end.Failed?)
  {
    SendLoopFailing(inbox, PickOutbound, k);
    PickedForClient(Messages(Open(inbox)));
  }

  /** When the connection takes only `k` more frames, the legacy task loses the rest but
      never fails, and still ends exactly when the bus closes. */
  lemma LegacyOutboundIgnoresFailures(inbox: seq<Recv<WSMessage>>, k: nat)
    ensures var r := LegacyOutbound(inbox, Some(k));
            && r.out == (if k < |Due(inbox)| then Due(inbox)[..k] else Due(inbox))
            && r.end == if |Open(inbox)| < |inbox| then Finished else Running
  {
    SendLoopIgnoring(inbox, PickOutbound, k);
    PickedForClient(Messages(Open(inbox)));
  }

  // ---------------------------------------------------------------- inbound

  /** A frame from the client: text, or anything `to_str` refuses (binary, ping, close). */
  datatype Frame = Text(text: string) | NonText

  /** What the client's stream yields: a frame, an error, or the end of the stream. */
  datatype Incoming = Got(frame: Frame) | StreamError(detail: string) | EndOfStream

  /** How a client's text reaches the bus: as a `Receive` from the served address. */
  function Wrap(text: string): (m: WSMessage)
    ensures m.Receive? && m.address == Store.ADDR && m.message == text
  {
    Receive(Store.ADDR, text)
  }

  /** `make_ws_receive_handle`: every text frame is published, non-text frames and errors
      are skipped, and the task returns at the end of the stream. A publish that finds no
      subscriber is ignored, so it does not show in the run. */
  function Inbound(stream: seq<Incoming>): (r: Run<WSMessage>)
    ensures r.end != Running ==> r.end == Finished
    ensures forall k :: 0 <= k < |r.out| ==> r.out[k].Receive? && r.out[k].address == Store.ADDR
    decreases |stream|
  {
    if |stream| == 0 then Run([], Running)
    else
      match stream[0]
      case EndOfStream => Run([], Finished)
      case StreamError(_) => Inbound(stream[1..])
      case Got(NonText) => Inbound(stream[1..])
      case Got(Text(s)) => Then([Wrap(s)], Inbound(stream[1..]))
  }

  /** The receive task of the legacy `handle_connection`: like the current one, except
      that an error ends the task. */
  function LegacyInbound(stream: seq<Incoming>): (r: Run<WSMessage>)
    ensures r.end != Running ==> r.end == Finished
    ensures forall k :: 0 <= k < |r.out| ==> r.out[k].Receive? && r.out[k].address == Store.ADDR
    decreases |stream|
  {
    if |stream| == 0 then Run([], Running)
    else
      match stream[0]
      case EndOfStream => Run([], Finished)
      case StreamError(_) => Run([], Finished)
      case Got(NonText) => LegacyInbound(stream[1..])
      case Got(Text(s)) => Then([Wrap(s)], LegacyInbound(stream[1..]))
  }

  /** The texts of the text frames before the end of the stream, errors skipped. */
  function Texts(stream: seq<Incoming>): (ts: seq<string>)
    ensures |ts| <= |stream|
    decreases |stream|
  {
    if |stream| == 0 || stream[0].EndOfStream? then []
    else if stream[0].Got? && stream[0].frame.Text? then [stream[0].frame.text] + Texts(stream[1..])
    else Texts(stream[1..])
  }

  /** Whether the stream yields an error before it ends. */
  predicate Broken(stream: seq<Incoming>)
    decreases |stream|
  {
    |stream| > 0 && !stream[0].EndOfStream? && (stream[0].StreamError? || Broken(stream[1..]))
  }

  /** The current task publishes the client's texts, in order, and nothing else; it ends
      exactly when the stream does. */
  lemma {:induction false} InboundPublishesTexts(stream: seq<Incoming>)
    ensures |Inbound(stream).out| == |Texts(stream)|
    ensures forall k :: 0 <= k < |Texts(stream)| ==> Inbound(stream).out[k] == Wrap(Texts(stream)[k])
    ensures Inbound(stream).end == Finished <==> exists k :: 0 <= k < |stream| && stream[k].EndOfStream?
    decreases |stream|
  {
    if |stream| > 0 {
      InboundPublishesTexts(stream[1..]);
      if !stream[0].EndOfStream? {
        var rest := stream[1..];
        if exists k :: 0 <= k < |stream| && stream[k].EndOfStream? {
          var k :| 0 <= k < |stream| && stream[k].EndOfStream?;
          assert rest[k - 1].EndOfStream?;
        }
        if exists k :: 0 <= k < |rest| && rest[k].EndOfStream? {
          var k :| 0 <= k < |rest| && rest[k].EndOfStream?;
          assert stream[k + 1].EndOfStream?;
        }
      }
    }
  }

  /** On a stream without errors the legacy task does what the current one does; on a
      broken one it has published what the current one had by then and has returned. */
  lemma {:induction false} LegacyInboundAgrees(stream: seq<Incoming>)
    ensures !Broken(stream) ==> LegacyInbound(stream) == Inbound(stream)
    ensures Broken(stream) ==> LegacyInbound(stream).end == Finished
    ensures var (l, c) := (LegacyInbound(stream).out, Inbound(stream).out);
            |l| <= |c| && l == c[..|l|]
    decreases |stream|
  {
    if |stream| > 0 && !stream[0].EndOfStream? && !stream[0].StreamError? {
      LegacyInboundAgrees(stream[1..]);
      if stream[0].frame.Text? {
        var (l, c) := (LegacyInbound(stream[1..]).out, Inbound(stream[1..]).out);
        assert ([Wrap(stream[0].frame.text)] + c)[..|l| + 1] == [Wrap(stream[0].frame.text)] + c[..|l|];
      }
    }
  }

  /** A client is never sent its own frames back: the outbound filter drops every message
      the inbound task publishes. */
  lemma {:induction false} NoEcho(ms: seq<WSMessage>)
    requires forall k :: 0 <= k < |ms| ==> ms[k].Receive?
    ensures ForClient(ms) == []
    decreases |ms|
  {
    if |ms| > 0 {
      NoEcho(ms[1..]);
    }
  }

  lemma InboundNotEchoed(stream: seq<Incoming>)
    ensures ForClient(Inbound(stream).out) == []
    ensures ForClient(LegacyInbound(stream).out) == []
  {
    NoEcho(Inbound(stream).out);
    NoEcho(LegacyInbound(stream).out);
  }
}
