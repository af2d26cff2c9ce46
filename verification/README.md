# Echo server connection handler, in Dafny

This project models how the line-echo TCP server handles one client connection (`handleClient`). The handler wraps the socket's output and input streams, then loops: it reads a line, stops on end of stream or on the exact line `quit`, and otherwise writes back `echo: ` followed by the line. When the loop ends normally or by an `IOException`, whatever stream wrappers were opened are closed and the socket is closed after them. Unchecked exceptions are outside the model (see "## Left out").

The input is a finite sequence of read outcomes (`EchoProtocol.Event`):

- `Line(text)`: a line with its terminator already removed.
- `EndOfStream`: `readLine` returned `null`.
- `ReadFailure`: `readLine` threw an `IOException`.

If the sequence runs out before any terminating event, the handler is still blocked in `readLine`. Its session is then `Reading` and nothing has been closed yet.

Files:

- `protocol.dfy`, module `EchoProtocol`. It defines the events and sessions. `Step` is one loop iteration and `Run` is the whole loop as a recursive function. `ReadLoop` is the handler's `while (true)` loop as a method, proved equal to `Run`. The lemmas cover reply contents, count and order, the sentinel, end of stream, read failures, and that later input is ignored once the loop has stopped.
- `handler.dfy`, module `ConnectionHandler`. It models stream acquisition, the loop, and release on every exit path the model covers (`Handle`, with `HandleClient` as its imperative rendering). The lemmas cover close order and that nothing is closed twice.

A failed write does not end the loop: the writer is a `PrintWriter`, whose `println` and `flush` never throw and only record the error. So only a read, or asking the socket for one of its streams, ends the session with an I/O failure. A reply that fails to write still counts as written, and the loop goes on.

## Model

| member | source | states |
|---|---|---|
| EchoProtocol.Reply | src/echo/EchoServer.java:70 | a reply is exactly the prefix `echo: ` followed by the whole line, unaltered, so its length is the sum of the two |
| EchoProtocol.ReplyInjective | src/echo/EchoServer.java:70 | the reply determines the line it answers: two different lines never get the same reply |
| EchoProtocol.Step | src/echo/EchoServer.java:63-75 | one iteration keeps reading iff the line is not a terminator; it adds one reply for an echoed line and none on end of stream, `quit` or a failed read, and it counts one read either way |
| EchoProtocol.Run | src/echo/EchoServer.java:63-75 | the loop stops at the first terminating event with that event's reason; the k-th reply answers the k-th line read; there is one reply per read except the terminating one; a session still reading has read everything, all of it echoable lines |
| EchoProtocol.RunStopsAt | src/echo/EchoServer.java:63-75 | if event i is the first terminator, the session is exactly the replies to events 0..i-1 in order, i+1 reads, and the reason for event i |
| EchoProtocol.RunAllEchoed | src/echo/EchoServer.java:63-75 | input without a terminator is answered line for line, in order, and the loop is still reading |
| EchoProtocol.ReplyCount | src/echo/EchoServer.java:63-75 | the number of replies equals the number of lines before the first `quit`, end of stream or failed read |
| EchoProtocol.RunExtends | src/echo/EchoServer.java:63-75 | the recursive definition agrees with iterating the loop body: one more event on a running session is one `Step` |
| EchoProtocol.RunIgnoresInputAfterStop | src/echo/EchoServer.java:66-67 | after the loop has stopped, appending any further input changes nothing: it is never read or echoed |
| EchoProtocol.RunRepliesGrow | src/echo/EchoServer.java:72-74 | replies already written are never changed or withdrawn: more input only extends the reply sequence |
| EchoProtocol.QuitEndsSession | src/echo/EchoServer.java:67 | a `quit` line ends the session with reason QuitReceived and no reply for it, whatever input follows it |
| EchoProtocol.EndOfStreamEndsSession | src/echo/EchoServer.java:66 | end of stream ends the session with reason PeerClosed and no reply for it, whatever input follows it |
| EchoProtocol.ReadFailureKeepsReplies | src/echo/EchoServer.java:63-79 | a failed read ends the session with reason IOFailure, adds no reply, and leaves the earlier replies unchanged |
| EchoProtocol.OnlyExactSentinelStops | src/echo/EchoServer.java:67-73 | a single line stops the loop iff it equals `quit` exactly; any other line, the empty one included, gets the reply `echo: ` plus that line |
| EchoProtocol.NearSentinelsAreEchoed | src/echo/EchoServer.java:66-73 | `Quit`, ` quit`, `quit ` and the empty line are echoed as ordinary lines (the last as `echo: `) and the loop goes on |
| EchoProtocol.ReadLoop | src/echo/EchoServer.java:63-75 | the imperative `while (true)` loop with its breaks computes exactly the session `Run` describes |
| ConnectionHandler.Handle | src/echo/EchoServer.java:53-86 | with both streams acquired, the session is the loop's; if acquiring a stream fails, no read is made and the session ends with an I/O failure; the socket is closed iff the handler has left the loop, and nothing is closed while it is still reading |
| ConnectionHandler.ReleaseOrder | src/echo/EchoServer.java:54-79 | on every exit by end of stream, `quit` or an `IOException`, the opened wrappers are closed in reverse order of declaration, then the socket |
| ConnectionHandler.ClosedExactlyOnce | src/echo/EchoServer.java:77-85 | on every exit by end of stream, `quit` or an `IOException`, the socket is closed exactly once, as the last step, and no resource is closed twice |
| ConnectionHandler.ClosedIsFinal | src/echo/EchoServer.java:63-85 | once the connection is closed the handler's outcome is final: later input never changes it, so the loop is never resumed |
| ConnectionHandler.Release | src/echo/EchoServer.java:77-85 | the epilogue closes the given wrappers last-first and then the socket |
| ConnectionHandler.HandleClient | src/echo/EchoServer.java:53-86 | the imperative handler produces the outcome `Handle` describes; every reply is `echo: ` plus the line read at the same position, which is never `quit` |

## Left out

- `main`: opening the server socket on port 4589, the accept loop and its error handling. These are network I/O outside the handler.
- Serial versus thread-per-connection dispatch. It only decides where `handleClient` runs; each handler works on its own connection with no shared state.
- UTF-8 decoding and how `readLine` splits lines. Input is modelled as lines already split, with terminators removed.
- `PrintWriter` buffering, line separators and write errors. A flushed `println` is modelled as appending the reply to the reply sequence. Write errors are swallowed by `PrintWriter` and never reach the loop.
- `printStackTrace` logging, and exceptions thrown by the close calls themselves. They are swallowed and do not change which close calls are made, so the model records close calls, not whether they succeeded.
- Closing the wrappers also closes the socket beneath them in the library. The model records the handler's own close calls: the wrappers once each, then the socket once.
- A peer that never sends a terminator blocks the handler forever. The model's input is finite, so such a session shows as `Reading` with nothing closed.
- Unchecked exceptions and `Error`s, such as an `OutOfMemoryError` from `readLine` on an unbounded line. They escape the `IOException` handler, so `socket.close()` is skipped, although try-with-resources still closes the wrappers. `Event` has no such outcome, so `Handle`, `ReleaseOrder` and `ClosedExactlyOnce` speak only of end of stream, `quit` and `IOException`.
