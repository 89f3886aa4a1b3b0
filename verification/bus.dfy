/** The channels between the tasks, seen one message at a time.

A task that waits on a broadcast channel gets a message, a report that it fell behind
and missed some messages, or the news that every sender is gone. Every loop of the
bridge treats the three the same way: it handles the message, skips the report and
stops at the end of the channel. A task's run is written as the messages it was handed,
in order, and the loop's output is computed from that sequence.
 */
module Bus {
  import opened Results

  /** `broadcast::Receiver::recv`: `Ok(message)`, `Err(Lagged(n))` or `Err(Closed)`. */
  datatype Recv<+T> = Message(value: T) | Lagged(missed: nat) | Closed

  /** Why a loop returned an error: the read or the write on the socket failed, the bus
      refused a message (`ErrorKind::Interrupted`), or the task panicked on an `unwrap`. */
  datatype Fault = ReadError(detail: string) | WriteError | Interrupted | Panicked(reason: string)

  /** How a loop stands after its input: still waiting for more, returned `Ok(())`, or
      returned an error. */
  datatype End = Running | Finished | Failed(fault: Fault)

  /** What a loop wrote or published, in order, and how it stands. */
  datatype Run<+T> = Run(out: seq<T>, end: End)

  /** The output `out` followed by a run's output. */
  function Then<T>(out: seq<T>, r: Run<T>): (q: Run<T>)
    ensures q.out == out + r.out && q.end == r.end
  {
    Run(out + r.out, r.end)
  }

  /** The part of the input a loop sees before the channel closes. */
  function Open<T>(inbox: seq<Recv<T>>): (r: seq<Recv<T>>)
    ensures |r| <= |inbox| && r == inbox[..|r|]
    ensures forall k :: 0 <= k < |r| ==> !r[k].Closed?
    ensures |r| < |inbox| ==> inbox[|r|].Closed?
  {
    if |inbox| == 0 || inbox[0].Closed? then [] else [inbox[0]] + Open(inbox[1..])
  }

  /** The channel closes within the input exactly when the input holds a close. */
  lemma OpenEndsAtClose<T>(inbox: seq<Recv<T>>)
    ensures |Open(inbox)| < |inbox| <==> exists k :: 0 <= k < |inbox| && inbox[k].Closed?
  {
    if |Open(inbox)| < |inbox| {
      assert inbox[|Open(inbox)|].Closed?;
    }
  }

  /** The messages among the events, in order; lag reports and the close carry none. */
  function Messages<T>(inbox: seq<Recv<T>>): (ms: seq<T>)
    ensures |ms| <= |inbox|
  {
    if |inbox| == 0 then []
    else if inbox[0].Message? then [inbox[0].value] + Messages(inbox[1..])
    else Messages(inbox[1..])
  }

  /** The frames `pick` chooses among the messages, in order. */
  function Picked<T>(ms: seq<T>, pick: T -> Option<string>): (fs: seq<string>)
    ensures |fs| <= |ms|
  {
    if |ms| == 0 then []
    else match pick(ms[0])
      case Some(f) => [f] + Picked(ms[1..], pick)
      case None => Picked(ms[1..], pick)
  }

  /** The messages of two stretches of input are those of the first, then those of the
      second. */
  lemma {:induction false} MessagesAppend<T>(a: seq<Recv<T>>, b: seq<Recv<T>>)
    ensures Messages(a + b) == Messages(a) + Messages(b)
    decreases |a|
  {
    if |a| == 0 {
      assert a + b == b;
    } else {
      assert (a + b)[0] == a[0] && (a + b)[1..] == a[1..] + b;
      MessagesAppend(a[1..], b);
    }
  }

  /** Choosing frames distributes over concatenated messages. */
  lemma {:induction false} PickedAppend<T>(a: seq<T>, b: seq<T>, pick: T -> Option<string>)
    ensures Picked(a + b, pick) == Picked(a, pick) + Picked(b, pick)
    decreases |a|
  {
    if |a| == 0 {
      assert a + b == b;
    } else {
      assert (a + b)[0] == a[0] && (a + b)[1..] == a[1..] + b;
      PickedAppend(a[1..], b, pick);
    }
  }

  /** A writing loop. Every message is handed to `pick`, which says whether and what to
      write; lag reports are skipped and the close ends the loop with `Ok(())`. The socket
      accepts `budget` more writes (`None`: all of them). When a write fails, a loop that
      propagates the error returns it; one that ignores the error goes on, its frame lost. */
  function SendLoop<T>(inbox: seq<Recv<T>>, pick: T -> Option<string>, budget: Option<nat>,
                       propagate: bool): (r: Run<string>)
    ensures r.end.Failed? ==> propagate && r.end.fault == WriteError
    ensures r.end == Finished <==> (|Open(inbox)| < |inbox| && !r.end.Failed?)
    decreases |inbox|
  {
    if |inbox| == 0 then Run([], Running)
    else
      match inbox[0]
      case Closed => Run([], Finished)
      case Lagged(_) => SendLoop(inbox[1..], pick, budget, propagate)
      case Message(m) =>
        match pick(m)
        case None => SendLoop(inbox[1..], pick, budget, propagate)
        case Some(frame) =>
          if budget == Some(0) then
            if propagate then Run([], Failed(WriteError))
            else SendLoop(inbox[1..], pick, budget, propagate)
          else
            var rest := if budget.Some? then Some(budget.value - 1) else None;
            Then([frame], SendLoop(inbox[1..], pick, rest, propagate))
  }

  /** The frames a writing loop is asked to write: the chosen ones among the messages that
      arrive before the close. */
  function Wanted<T>(inbox: seq<Recv<T>>, pick: T -> Option<string>): seq<string> {
    Picked(Messages(Open(inbox)), pick)
  }

  /** With a healthy socket the loop writes exactly the wanted frames, in order, and it
      returns `Ok(())` exactly when the channel closed. */
  lemma {:induction false} SendLoopHealthy<T>(inbox: seq<Recv<T>>, pick: T -> Option<string>,
                                               propagate: bool)
    ensures SendLoop(inbox, pick, None, propagate).out == Wanted(inbox, pick)
    ensures SendLoop(inbox, pick, None, propagate).end ==
              if |Open(inbox)| < |inbox| then Finished else Running
    decreases |inbox|
  {
    if |inbox| > 0 && !inbox[0].Closed? {
      SendLoopHealthy(inbox[1..], pick, propagate);
    }
  }

  /** With a socket that accepts `k` writes, a loop that propagates errors writes the first
      `k` wanted frames, or all of them when there are fewer, and fails exactly when there
      were more. */
  lemma {:induction false} SendLoopFailing<T>(inbox: seq<Recv<T>>, pick: T -> Option<string>, k: nat)
    ensures var r := SendLoop(inbox, pick, Some(k), true);
            var w := Wanted(inbox, pick);
            && (k < |w| ==> r.out == w[..k] && r.end == Failed(WriteError))
            && (|w| <= k ==> r.out == w && !r.end.Failed?)
    decreases |inbox|
  {
    if |inbox| > 0 && !inbox[0].Closed? {
      match inbox[0]
      case Lagged(_) =>
        SendLoopFailing(inbox[1..], pick, k);
      case Message(m) =>
        if pick(m).Some? && k > 0 {
          SendLoopFailing(inbox[1..], pick, k - 1);
        } else {
          SendLoopFailing(inbox[1..], pick, k);
        }
    }
  }

  /** With a socket that accepts `k` writes, a loop that ignores errors writes the first
      `k` wanted frames, or all of them, and never fails. */
  lemma {:induction false} SendLoopIgnoring<T>(inbox: seq<Recv<T>>, pick: T -> Option<string>, k: nat)
    ensures var r := SendLoop(inbox, pick, Some(k), false);
            var w := Wanted(inbox, pick);
            && r.out == (if k < |w| then w[..k] else w)
            && r.end == if |Open(inbox)| < |inbox| then Finished else Running
    decreases |inbox|
  {
    if |inbox| > 0 && !inbox[0].Closed? {
      match inbox[0]
      case Lagged(_) =>
        SendLoopIgnoring(inbox[1..], pick, k);
      case Message(m) =>
        if pick(m).Some? && k > 0 {
          SendLoopIgnoring(inbox[1..], pick, k - 1);
        } else {
          SendLoopIgnoring(inbox[1..], pick, k);
        }
    }
  }

  /** Messages handed over one after another, with no lag and no close in between. */
  function Published<T>(ms: seq<T>): (inbox: seq<Recv<T>>)
    ensures |inbox| == |ms|
    ensures forall k :: 0 <= k < |ms| ==> inbox[k] == Message(ms[k])
  {
    if |ms| == 0 then [] else [Message(ms[0])] + Published(ms[1..])
  }

  /** One event before the close: the loop writes what that event alone asks for, then
      carries on with the rest. */
  lemma SendLoopFirst<T>(x: seq<Recv<T>>, pick: T -> Option<string>, propagate: bool)
    requires |x| > 0 && !x[0].Closed?
    ensures SendLoop(x, pick, None, propagate) ==
              Then(Picked(Messages([x[0]]), pick), SendLoop(x[1..], pick, None, propagate))
  {
    var rest := SendLoop(x[1..], pick, None, propagate);
    match x[0]
    case Lagged(_) =>
      assert Messages([x[0]]) == [] by {
        assert [x[0]][1..] == [];
      }
      assert Then([], rest) == rest by {
        assert [] + rest.out == rest.out;
      }
    case Message(m) =>
      assert Messages([x[0]]) == [m] by {
        assert [x[0]][1..] == [];
      }
      match pick(m)
      case None =>
        assert Picked([m], pick) == [] by {
          assert [m][1..] == [];
        }
        assert Then([], rest) == rest by {
          assert [] + rest.out == rest.out;
        }
      case Some(f) =>
        assert Picked([m], pick) == [f] by {
          assert [m][1..] == [];
          assert [f] + [] == [f];
        }
  }

  /** The frames chosen from a first event and those chosen from the events after it. */
  lemma PickedFirst<T>(a: seq<Recv<T>>, pick: T -> Option<string>)
    requires |a| > 0
    ensures Picked(Messages(a), pick) == Picked(Messages([a[0]]), pick) + Picked(Messages(a[1..]), pick)
  {
    assert a == [a[0]] + a[1..];
    MessagesAppend([a[0]], a[1..]);
    PickedAppend(Messages([a[0]]), Messages(a[1..]), pick);
  }

  /** Output written in two parts is output written at once. */
  lemma ThenThen<T>(x: seq<T>, y: seq<T>, r: Run<T>)
    ensures Then(x, Then(y, r)) == Then(x + y, r)
  {
    assert x + (y + r.out) == (x + y) + r.out;
  }

  /** Events before the close can be handled first: a healthy writing loop writes their
      frames and then carries on with the rest. */
  lemma {:induction false} SendLoopAppend<T>(a: seq<Recv<T>>, b: seq<Recv<T>>, pick: T -> Option<string>,
                                             propagate: bool)
    requires forall k :: 0 <= k < |a| ==> !a[k].Closed?
    ensures SendLoop(a + b, pick, None, propagate) ==
              Then(Picked(Messages(a), pick), SendLoop(b, pick, None, propagate))
    decreases |a|
  {
    var r := SendLoop(b, pick, None, propagate);
    if |a| == 0 {
      assert a + b == b;
      ThenThen([], [], r);
      assert Then([], r) == r by {
        assert [] + r.out == r.out;
      }
    } else {
      assert (a + b)[0] == a[0] && (a + b)[1..] == a[1..] + b;
      SendLoopFirst(a + b, pick, propagate);
      SendLoopAppend(a[1..], b, pick, propagate);
      PickedFirst(a, pick);
      ThenThen(Picked(Messages([a[0]]), pick), Picked(Messages(a[1..]), pick), r);
    }
  }

  /** The messages of a published sequence are the sequence. */
  lemma {:induction false} MessagesOfPublished<T>(ms: seq<T>)
    ensures Messages(Published(ms)) == ms
    decreases |ms|
  {
    if |ms| > 0 {
      MessagesOfPublished(ms[1..]);
      assert Published(ms)[1..] == Published(ms[1..]);
    }
  }
}
