/** The per-connection line protocol of the echo server, as a pure transducer.

    The handler reads one line at a time. End of stream or the exact line
    "quit" ends the session without a reply; a failed read ends it too; every
    other line, the empty line included, is answered with "echo: " followed by
    the line itself. The input is a finite sequence of read outcomes; when it
    runs out before any terminator, the handler is still waiting for the next
    line and the session is still open.
 */
module EchoProtocol {

  /** The line that asks the server to end the session. */
  const Sentinel: string := "quit"

  /** The tag put in front of every echoed line. */
  const ReplyPrefix: string := "echo: "

  /** What one call of `readLine` produced. */
  datatype Event =
    | Line(text: string)   // a line, with its terminator already removed
    | EndOfStream          // `readLine` returned null: the peer closed its side
    | ReadFailure          // `readLine` threw an IOException

  /** Why the read/reply loop stopped. */
  datatype StopReason = PeerClosed | QuitReceived | IOFailure

  /** Whether the loop is still waiting for input or has stopped. */
  datatype Status = Reading | Stopped(reason: StopReason)

  /** The state of one session: the replies written so far, how many reads
      were made, and whether the loop is still running. */
  datatype Session = Session(replies: seq<string>, consumed: nat, status: Status)

  /** The session before the first read. */
  const Initial: Session := Session([], 0, Reading)

  /** True of the read outcomes the handler answers, i.e. those that do not end the loop. */
  predicate IsEchoed(e: Event) {
    e.Line? && e.text != Sentinel
  }

  /** The reason the loop gives for stopping at a terminating event. */
  function ReasonFor(e: Event): StopReason
    requires !IsEchoed(e)
  {
    match e
    case Line(_) => QuitReceived
    case EndOfStream => PeerClosed
    case ReadFailure => IOFailure
  }

  /** The reply written for a line: the prefix, then the line exactly as read. */
  function Reply(message: string): (r: string)
    ensures |r| == |ReplyPrefix| + |message|
    ensures r[..|ReplyPrefix|] == ReplyPrefix
    ensures r[|ReplyPrefix|..] == message
  {
    ReplyPrefix + message
  }

  /** The first `n` events are all answered lines. */
  predicate EchoedPrefix(events: seq<Event>, n: nat) {
    n <= |events| && forall k :: 0 <= k < n ==> IsEchoed(events[k])
  }

  /** Event `i` is the first one that ends the loop. */
  predicate StopsAt(events: seq<Event>, i: nat) {
    EchoedPrefix(events, i) && i < |events| && !IsEchoed(events[i])
  }

  /** The replies for a run of answered lines, one per line, in order. */
  function Echoes(events: seq<Event>): (r: seq<string>)
    requires forall k :: 0 <= k < |events| ==> events[k].Line?
  {
    seq(|events|, k requires 0 <= k < |events| => Reply(events[k].text))
  }

  /** One iteration of the loop on a running session. */
  function Step(s: Session, e: Event): (r: Session)
    requires s.status == Reading
    ensures r.consumed == s.consumed + 1
    ensures r.status == Reading <==> IsEchoed(e)
    ensures r.status.Stopped? ==> r.status.reason == ReasonFor(e) && r.replies == s.replies
    ensures r.status == Reading ==> r.replies == s.replies + [Reply(e.text)]
  {
    match e
    case EndOfStream => Session(s.replies, s.consumed + 1, Stopped(PeerClosed))
    case ReadFailure => Session(s.replies, s.consumed + 1, Stopped(IOFailure))
    case Line(message) =>
      if message == Sentinel then Session(s.replies, s.consumed + 1, Stopped(QuitReceived))
      else Session(s.replies + [Reply(message)], s.consumed + 1, Reading)
  }

  /** The whole loop over a finite input: the replies written, the number of
      reads made, and why the loop stopped (or that it is still reading). */
  function Run(events: seq<Event>): (r: Session)
    ensures r.consumed <= |events|
    ensures r.status == Reading ==> r.consumed == |events| && EchoedPrefix(events, |events|)
    ensures r.status.Stopped? ==>
              0 < r.consumed && StopsAt(events, r.consumed - 1)
              && r.status.reason == ReasonFor(events[r.consumed - 1])
    ensures |r.replies| == if r.status == Reading then r.consumed else r.consumed - 1
    ensures forall k :: 0 <= k < |r.replies| ==>
              IsEchoed(events[k]) && r.replies[k] == Reply(events[k].text)
    decreases |events|
  {
    if |events| == 0 then Initial
    else
      match events[0]
      case EndOfStream => Session([], 1, Stopped(PeerClosed))
      case ReadFailure => Session([], 1, Stopped(IOFailure))
      case Line(message) =>
        if message == Sentinel then Session([], 1, Stopped(QuitReceived))
        else
          var rest := Run(events[1..]);
          Session([Reply(message)] + rest.replies, rest.consumed + 1, rest.status)
  }

  /** The loop stops at the first terminating event, having answered every
      line before it, one reply per line in order, and nothing else. */
  lemma RunStopsAt(events: seq<Event>, i: nat)
    requires StopsAt(events, i)
    ensures Run(events) == Session(Echoes(events[..i]), i + 1, Stopped(ReasonFor(events[i])))
  {
  }

  /** When no event terminates the loop, every event is a line and is
      answered, and the session is still reading. */
  lemma RunAllEchoed(events: seq<Event>)
    requires EchoedPrefix(events, |events|)
    ensures Run(events) == Session(Echoes(events), |events|, Reading)
  {
  }

  /** Once the loop has stopped, later input is never read: appending more
      events changes nothing. */
  lemma {:induction false} RunIgnoresInputAfterStop(events: seq<Event>, more: seq<Event>)
    requires Run(events).status.Stopped?
    ensures Run(events + more) == Run(events)
    decreases |events|
  {
    assert |events| > 0;
    assert (events + more)[0] == events[0];
    if IsEchoed(events[0]) {
      assert (events + more)[1..] == events[1..] + more;
      RunIgnoresInputAfterStop(events[1..], more);
    }
  }

  /** Reading one more event on a running session is exactly one loop iteration. */
  lemma {:induction false} RunExtends(events: seq<Event>, e: Event)
    requires Run(events).status == Reading
    ensures Run(events + [e]) == Step(Run(events), e)
    decreases |events|
  {
    if |events| == 0 {
      assert events + [e] == [e];
    } else {
      assert (events + [e])[0] == events[0];
      assert (events + [e])[1..] == events[1..] + [e];
      RunExtends(events[1..], e);
    }
  }

  /** Replies already written are never taken back: the replies after more
      input extend the replies before it. */
  lemma RunRepliesGrow(events: seq<Event>, more: seq<Event>)
    ensures Run(events).replies <= Run(events + more).replies
  {
  }

  /** The number of replies equals the number of lines read before the first
      terminating event; no reply is written for the terminator itself. */
  lemma ReplyCount(events: seq<Event>, i: nat)
    requires StopsAt(events, i)
    ensures |Run(events).replies| == i
    ensures Run(events).consumed == i + 1
  {
  }

  /** A "quit" line ends the session without a reply, and whatever follows
      it is never read. */
  lemma QuitEndsSession(before: seq<Event>, rest: seq<Event>)
    requires EchoedPrefix(before, |before|)
    ensures Run(before + [Line(Sentinel)] + rest)
            == Session(Echoes(before), |before| + 1, Stopped(QuitReceived))
  {
    var events := before + [Line(Sentinel)] + rest;
    assert events[..|before|] == before;
    assert StopsAt(events, |before|);
    RunStopsAt(events, |before|);
  }

  /** End of stream ends the session without a reply, and whatever follows
      it is never read. */
  lemma EndOfStreamEndsSession(before: seq<Event>, rest: seq<Event>)
    requires EchoedPrefix(before, |before|)
    ensures Run(before + [EndOfStream] + rest)
            == Session(Echoes(before), |before| + 1, Stopped(PeerClosed))
  {
    var events := before + [EndOfStream] + rest;
    assert events[..|before|] == before;
    assert StopsAt(events, |before|);
    RunStopsAt(events, |before|);
  }

  /** A failed read ends the session; the replies written before it stand
      unchanged and none is added for the failed read. */
  lemma ReadFailureKeepsReplies(events: seq<Event>)
    requires Run(events).status == Reading
    ensures Run(events + [ReadFailure]).replies == Run(events).replies
    ensures Run(events + [ReadFailure]).status == Stopped(IOFailure)
  {
    RunExtends(events, ReadFailure);
  }

  /** The sentinel match is exact and case-sensitive: any other line, the
      empty line included, is echoed and the session goes on. */
  lemma OnlyExactSentinelStops(message: string)
    ensures Run([Line(message)]).status == Reading <==> message != Sentinel
    ensures message != Sentinel ==> Run([Line(message)]).replies == [ReplyPrefix + message]
  {
  }

  /** Lines that merely resemble the sentinel are answered like any other. */
  lemma NearSentinelsAreEchoed()
    ensures Run([Line("Quit"), Line(" quit"), Line("quit "), Line("")])
            == Session(["echo: Quit", "echo:  quit", "echo: quit ", "echo: "], 4, Reading)
  {
    var events := [Line("Quit"), Line(" quit"), Line("quit "), Line("")];
    RunAllEchoed(events);
    assert Reply("Quit") == "echo: Quit";
    assert Reply(" quit") == "echo:  quit";
    assert Reply("quit ") == "echo: quit ";
    assert Reply("") == "echo: ";
    assert Echoes(events) == [Reply("Quit"), Reply(" quit"), Reply("quit "), Reply("")];
  }

  /** Different lines get different replies: the reply determines the line. */
  lemma ReplyInjective(a: string, b: string)
    requires Reply(a) == Reply(b)
    ensures a == b
  {
  }

  /** The handler's `while (true)` loop: read a line, leave on end of stream,
      on a failed read or on "quit", otherwise write the reply and go on.
      It computes the same session as `Run`. */
  method ReadLoop(events: seq<Event>) returns (replies: seq<string>, consumed: nat, status: Status)
    ensures Session(replies, consumed, status) == Run(events)
  {
    replies, consumed, status := [], 0, Reading;
    while consumed < |events|
      invariant consumed <= |events|
      invariant Run(events[..consumed]) == Session(replies, consumed, Reading)
      decreases |events| - consumed
    {
      var e := events[consumed];
      assert events[..consumed + 1] == events[..consumed] + [e];
      RunExtends(events[..consumed], e);
      consumed := consumed + 1;
      if e == EndOfStream {
        status := Stopped(PeerClosed);
        break;
      }
      if e == ReadFailure {
        status := Stopped(IOFailure);
        break;
      }
      if e.text == Sentinel {
        status := Stopped(QuitReceived);
        break;
      }
      replies := replies + [ReplyPrefix + e.text];
    }
    if status.Stopped? {
      RunIgnoresInputAfterStop(events[..consumed], events[consumed..]);
      assert events[..consumed] + events[consumed..] == events;
    } else {
      assert events[..consumed] == events;
    }
  }
}
