/** The whole life of one client connection: acquiring the connection's
    two stream wrappers, running the read/reply loop, and releasing
    everything on every way out of the loop.

    The stream wrappers are declared in a try-with-resources block, writer
    first and reader second; whatever of them was opened is closed in reverse
    order when the block is left, normally or by an IOException, and the
    socket itself is closed after the IOException handler.
 */
module ConnectionHandler {
  import opened EchoProtocol

  /** How acquiring the two streams of the socket went. Asking the socket
      for a stream is the only step of the setup that can throw. */
  datatype Acquisition =
    | Acquired             // both wrappers were built
    | OutputStreamFailed   // asking for the output stream threw: nothing was opened
    | InputStreamFailed    // asking for the input stream threw: only the writer was opened

  /** The things the handler closes. */
  datatype Resource = Writer | Reader | Socket

  /** What one run of the handler did: the session on the wire and the
      close calls it made, in order. */
  datatype Outcome = Outcome(session: Session, closes: seq<Resource>)

  /** A sequence in reverse order. */
  function Reversed<T>(s: seq<T>): (r: seq<T>)
    ensures |r| == |s|
    ensures forall k :: 0 <= k < |s| ==> r[k] == s[|s| - 1 - k]
  {
    if |s| == 0 then [] else Reversed(s[1..]) + [s[0]]
  }

  /** The stream wrappers that were opened, in declaration order. */
  function Opened(a: Acquisition): seq<Resource> {
    match a
    case Acquired => [Writer, Reader]
    case InputStreamFailed => [Writer]
    case OutputStreamFailed => []
  }

  /** The session of a handler whose setup failed: no read was made and
      the loop was never entered. */
  const SetupFailed: Session := Session([], 0, Stopped(IOFailure))

  /** The handler: the setup, then the loop, then the release. A handler
      whose input ran out before any terminating event is still blocked in
      `readLine` and has closed nothing yet. */
  function Handle(a: Acquisition, events: seq<Event>): (o: Outcome)
    ensures a == Acquired ==> o.session == Run(events)
    ensures a != Acquired ==> o.session == SetupFailed
    ensures o.session.status.Stopped? <==> Socket in o.closes
    ensures o.session.status == Reading ==> o.closes == []
  {
    match a
    case OutputStreamFailed => Outcome(SetupFailed, [Socket])
    case InputStreamFailed => Outcome(SetupFailed, [Writer, Socket])
    case Acquired =>
      var s := Run(events);
      Outcome(s, if s.status == Reading then [] else [Reader, Writer, Socket])
  }

  /** On every modelled way out of the loop, every wrapper that was opened is closed
      in reverse order of opening, and the socket is closed last. */
  lemma ReleaseOrder(a: Acquisition, events: seq<Event>)
    requires Handle(a, events).session.status.Stopped?
    ensures Handle(a, events).closes == Reversed(Opened(a)) + [Socket]
  {
  }

  /** Nothing is closed twice, and the socket is closed exactly once, as the
      very last step. */
  lemma ClosedExactlyOnce(a: Acquisition, events: seq<Event>)
    requires Handle(a, events).session.status.Stopped?
    ensures var c := Handle(a, events).closes;
            0 < |c| && c[|c| - 1] == Socket
            && (forall i, j :: 0 <= i < j < |c| ==> c[i] != c[j])
            && multiset(c)[Socket] == 1
  {
  }

  /** The connection is closed exactly when the loop has stopped, whatever
      stopped it; once closed, no later input is ever read and the outcome
      never changes. */
  lemma ClosedIsFinal(a: Acquisition, events: seq<Event>, more: seq<Event>)
    requires Handle(a, events).session.status.Stopped?
    ensures Handle(a, events + more) == Handle(a, events)
  {
    if a == Acquired {
      RunIgnoresInputAfterStop(events, more);
    }
  }

  /** The try-with-resources epilogue followed by `socket.close()`: close
      the opened wrappers, last opened first, then the socket. */
  method Release(wrappers: seq<Resource>) returns (closes: seq<Resource>)
    ensures closes == Reversed(wrappers) + [Socket]
  {
    closes := [];
    var k := |wrappers|;
    while k > 0
      invariant 0 <= k <= |wrappers|
      invariant closes == Reversed(wrappers[k..])
    {
      k := k - 1;
      assert wrappers[k..] == [wrappers[k]] + wrappers[k + 1..];
      closes := closes + [wrappers[k]];
    }
    assert wrappers[0..] == wrappers;
    closes := closes + [Socket];
  }

  /** Imperative rendering of the handler, step by step as the Java method
      runs: the setup, the read/reply loop, then the closes. */
  method HandleClient(a: Acquisition, events: seq<Event>)
    returns (replies: seq<string>, consumed: nat, status: Status, closes: seq<Resource>)
    ensures Outcome(Session(replies, consumed, status), closes) == Handle(a, events)
    ensures forall k :: 0 <= k < |replies| ==>
              events[k].Line? && events[k].text != Sentinel
              && replies[k] == ReplyPrefix + events[k].text
  {
    replies, consumed, status, closes := [], 0, Reading, [];
    var wrappers: seq<Resource> := [];
    if a == OutputStreamFailed {
      status := Stopped(IOFailure);
    } else {
      wrappers := wrappers + [Writer];
      if a == InputStreamFailed {
        status := Stopped(IOFailure);
      } else {
        wrappers := wrappers + [Reader];
        replies, consumed, status := ReadLoop(events);
      }
    }
    assert wrappers == Opened(a);
    if status.Stopped? {
      closes := Release(wrappers);
    }
  }
}
