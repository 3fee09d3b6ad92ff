# olsrd telnet client engine, modelled in Dafny

This project models the client-connection engine of olsrd's telnet server
(`src/olsr_telnet.c`). That engine covers four things:

- the server's registry of connected clients;
- each client's state machine `active → pending → linger → destroy`;
- the line framer that cuts the input buffer into commands and dispatches them;
- the non-blocking receive and send steps, and the reactor callback that sequences them, with the linger timer.

The project has three modules:

- `Lines` (`lines.dfy`): bytes, the CR/LF line terminator, and reading a command as a NUL-terminated C string.
- `Sessions` (`sessions.dfy`): one client's state as a value (`Session`). Each operation has a step function (`AfterHandleCmd`, `AfterFetchLines`, `AfterRead`, `AfterWrite`, `AfterAction`, …), and the lemmas state what the source promises about them.
- `Telnet` (`telnet.dfy`): the imperative engine. `Client` and `Server` are classes whose methods update their fields in place. The methods `HandleCmd`, `FetchLines`, `Read`, `Write`, `Service` and `Action` each ensure `Snapshot() == AfterX(old(Snapshot()), …)` for their step function, so each lemma of `Sessions` about that function applies to the method. `Quit` and `Printf` state the one field they change, and `LingerTimeout` states that only the timer handle changes in the session. The registry is the field `Server.clients`, head first, like the source's linked list.

The environment enters as parameters:

- The result of `recv` is a `RecvResult`: a chunk of 1 to 1024 bytes, an orderly close, or an errno.
- The result of `send` is a `SendResult`: a byte count of at most the buffer length, or an errno.
- The reactor's readiness flags are `Events`.
- A timer's handle id is a number `t`.

Ghost fields of `Client` record what the source does to the outside world:

- whether write readiness is enabled (`writeInterest`);
- `shutdown` calls (`halfCloses`), timer starts (`timerStarts`) and timer stops (`timerStops`);
- reactor registration (`registered`) and `close` calls (`closes`);
- release of the memory (`freed`);
- the commands dispatched, in order (`commands`).

The command handler is a parameter, `Handler = Bytes -> Reply`: the output the handler queues and whether it asks to quit, gracefully or now. The source hard-wires an echo handler (`Sessions.Echo`: echo the line plus a line feed, then quit gracefully). With any handler that keeps the session open, the framer's "pull the line and continue" path can run. The source's loop has that path, so the model keeps it.

Behaviour of the source that a reader may not expect:

- Cleanup-all releases every client but leaves `s->clients` pointing at the released list. The comment on `olsr_telnet_exit` (src/olsr_telnet.c:158-160) promises that the server struct may be reused by passing it to `olsr_telnet_init` again; a reused struct would still list the released clients. `Telnet.Server.Cleanup` keeps `clients` unchanged and proves the server no longer `Valid`.
- After a line is pulled, the framer does not restart its scan at index 0. The assignment `offset = 0` is dead, because the loop runs on `i`. This is a defect. The model keeps the as-written scan as `Sessions.AfterFetchLinesAsWritten` and uses the restarting scan everywhere else (see "## Findings"). For the shipped echo handler the two agree.
- When the linger timer fires, the client is released without stopping the timer, because its handle was cleared first. `Telnet.Client.LingerTimeout` proves `timerStops == 0`.
- `send` returning 0 changes nothing (`Sessions.WriteOutcomes`).

## Model

| member | source | states |
|---|---|---|
| Sessions.Echo | src/olsr_telnet.c:338-340 | the shipped handler: the command is queued with a line feed, and the client asks to quit once the output is flushed |
| Sessions.AfterHandleCmd | src/olsr_telnet.c:336-344 | one dispatch: the handler's output is appended, its quit request sets the state, and write interest is enabled when output is pending and the session is not Destroyed |
| Sessions.AfterFetchLines | src/olsr_telnet.c:346-369 | the framer, scanning from an index: each line feed terminates its line, the command goes to the handler, and the scan stops once the session is not Active or else pulls the line and restarts at 0 |
| Sessions.AfterFetchLinesAsWritten | src/olsr_telnet.c:349-367 | the framer as the loop runs: after a pull, the scan goes on at `i + 1` of the shortened buffer |
| Sessions.AfterRead | src/olsr_telnet.c:396-422 | one receive: bytes are appended and framed from where they start only while Active; an orderly close or a fatal errno destroys; a transient errno changes nothing |
| Sessions.AfterWrite | src/olsr_telnet.c:424-443 | one send: the bytes sent are exactly the front of the old output, and the rest stays queued |
| Sessions.AfterEvent | src/olsr_telnet.c:388-393 | the check after servicing: a Lingering session without a timer is half-closed and gets a 42000 ms timer; otherwise the session is removed exactly when it is Destroyed |
| Lines.CString | src/olsr_telnet.c:356 | the command passed to the handler is the prefix of the buffer before its first NUL; it holds no NUL |
| Lines.StripCR | src/olsr_telnet.c:353-354 | at most one trailing carriage return is removed from a line |
| Lines.Terminate | src/olsr_telnet.c:351-354 | terminating a line NULs the line feed and a carriage return just before it; the length and every later byte are unchanged |
| Lines.CommandText | src/olsr_telnet.c:351-356 | the dispatched command is the line's text before its LF without a trailing CR, cut at a NUL; exactly the stripped line when it has no NUL |
| Sessions.FetchWithoutNewline | src/olsr_telnet.c:349-350 | with no line feed at or after the scan start, the framer changes nothing |
| Sessions.FetchSkips | src/olsr_telnet.c:349-350 | the framer passes over bytes that are not line feeds without changing anything |
| Sessions.FetchFirstLine | src/olsr_telnet.c:349-367 | the first dispatch is for the first LF at or after the scan start. If the handler left the session non-Active, the framer stops there and the buffer is not pulled. Otherwise exactly the line and its LF are pulled and the scan restarts at index 0 |
| Sessions.FetchKeepsTimers | src/olsr_telnet.c:347-369 | the framer never touches the linger timer, the half-close count or the timer count |
| Sessions.ReadWithoutNewline | src/olsr_telnet.c:401-408 | a receive with no line feed into an Active session only appends the bytes |
| Sessions.EchoReadDispatchesFirstLine | src/olsr_telnet.c:336-369 | with the echo handler, a receive whose bytes hold a line feed dispatches exactly the buffered line before it and queues it plus LF. The session becomes Pending with write interest, and the terminated buffer is kept |
| Sessions.EchoActiveInputHasNoNewline | src/olsr_telnet.c:336-369 | with the echo handler, an Active session never holds a line feed in its input buffer |
| Sessions.ReadOutcomes | src/olsr_telnet.c:397-421 | a receive never revives a non-Active session; an orderly close or a fatal errno destroys the session; EAGAIN/EWOULDBLOCK/EINTR change nothing |
| Sessions.WriteOutcomes | src/olsr_telnet.c:425-442 | a send of n > 0 bytes drops exactly the first n output bytes; once the output is empty, write interest goes and Pending becomes Linger. A send of 0 bytes or a transient errno changes nothing; a fatal errno destroys the session |
| Sessions.WritesDrain | src/olsr_telnet.c:427-433 | partial sends drain the output in order, with no byte lost or repeated; the state changes only once the whole buffer is sent |
| Sessions.ServiceKeepsTimers | src/olsr_telnet.c:382-386 | servicing write and read never touches the linger timer or the half-close count |
| Sessions.ActionDecision | src/olsr_telnet.c:388-393 | the callback removes the session exactly when servicing left it Destroyed. It half-closes and starts the 42000 ms timer only for a Lingering session without a timer |
| Sessions.ActionKeepsLingerConsistent | src/olsr_telnet.c:388-391 | the half-close count and the timer-start count stay equal to whether a timer handle is held, so each is at most one |
| Sessions.DestroyIsFinal | src/olsr_telnet.c:392-393 | a Destroyed session stays Destroyed through a callback and is removed |
| Sessions.WriteBeforeRead | src/olsr_telnet.c:382-391 | write runs before read: a callback that flushes a Pending session's last output discards the input it also reports, then half-closes the session and starts its timer |
| Sessions.AsWrittenSkipsSecondLine | src/olsr_telnet.c:365-366 | the framer as written, fed two complete lines with a handler that keeps the session open, dispatches only the first and leaves the second buffered |
| Sessions.FetchDispatchesEveryLine | src/olsr_telnet.c:349-367 | with a handler that keeps the session open, the framer dispatches every complete line in order and keeps only the trailing partial line |
| Sessions.QuittingHandlerFramesAlike | src/olsr_telnet.c:357-366 | for a handler that always quits (the echo handler), the framer as written and the restarting one give the same result |
| Telnet.Unlink | src/olsr_telnet.c:307-316 | unlinking a client not in the list leaves the list as it is; otherwise the list loses one entry |
| Telnet.UnlinkFirst | src/olsr_telnet.c:307-316 | unlinking takes out exactly the first occurrence, and the others keep their order |
| Telnet.UnlinkDistinct | src/olsr_telnet.c:298-317 | unlinking from a duplicate-free registry removes the client entirely and adds nobody |
| Telnet.Client.constructor | src/olsr_telnet.c:282-289 | a new client is Active, has empty buffers and no linger timer, and is not yet registered |
| Telnet.Client.Quit | src/olsr_telnet.c:191-201 | a quit request sets Destroy if immediate and Pending otherwise, whatever the state was |
| Telnet.Client.Printf | src/olsr_telnet.c:212-223 | text is appended to the output buffer |
| Telnet.Client.HandleCmd | src/olsr_telnet.c:336-344 | the handler's output is queued and its quit request applied; write interest is enabled if output is pending and the session is not Destroyed |
| Telnet.Client.FetchLines | src/olsr_telnet.c:346-369 | the in-place framing loop follows the framer's step function, so it dispatches every complete line in arrival order |
| Telnet.Client.Read | src/olsr_telnet.c:396-422 | one receive follows the receive step function |
| Telnet.Client.Write | src/olsr_telnet.c:424-443 | one send follows the send step function |
| Telnet.Client.Free | src/olsr_telnet.c:320-333 | release unregisters and closes an fd other than -1, stops a held linger timer, and marks the client released |
| Telnet.Client.Service | src/olsr_telnet.c:382-386 | write runs before read, as the service step function says |
| Telnet.Client.Action | src/olsr_telnet.c:371-394 | the callback follows the action step function and keeps the registry valid. A removed client is unlinked, closed once and released, with its timer stopped if it held one. Otherwise the registry is unchanged and the client stays live |
| Telnet.Client.LingerTimeout | src/olsr_telnet.c:445-452 | the timer's expiry clears the handle, unlinks the client and closes it once without stopping the timer; the registry stays valid |
| Telnet.Server.Add | src/olsr_telnet.c:279-295 | a negative fd is refused and nothing changes. Otherwise a fresh Active client, registered for read, becomes the registry's head, and validity is kept |
| Telnet.Server.Remove | src/olsr_telnet.c:298-318 | an empty registry is left alone and the client is not released. Otherwise the client's first occurrence is unlinked and the client is released even if it was not found; validity is kept |
| Telnet.Server.Cleanup | src/olsr_telnet.c:263-272 | every client is closed once and released, with its timer stopped if it held one; no client's session state changes. The registry still lists them, so the server is no longer valid |

## Left out

- Socket setup and teardown (`olsr_telnet_prepare`, `olsr_telnet_init`, `olsr_telnet_exit`), `get_port` and accepting connections (`telnet_action`) are not part of this model. Their effect on a client is `Telnet.Server.Add` with the accepted fd.
- The reactor and the timer wheel are not modelled. Their effects are ghost counters and flags, and the events they deliver are parameters.
- `recv`, `send` and `errno` are parameters (`RecvResult`, `SendResult`, `Errno`). The bytes actually sent are not modelled, only how many.
- Logging (`OLSR_PRINTF`) is left out; it has no effect on the state.
- The null-pointer guards (`if(!c)`, `if(!s)`, and the callback's branch for missing client data) are left out, because Dafny references cannot be null.
- The `abuf` growth strategy and allocation failure are left out; buffers are unbounded sequences.
- Telnet.Client.Printf: takes the already formatted bytes, because printf-style formatting is not modelled.
- Telnet.Client.Free: the release of the two buffers and of the client's memory is one ghost flag, `freed`, because manual memory is not modelled.
- Telnet.Client.FetchLines: restarts its scan after a pull, as the loop evidently intends, instead of going on at `i + 1` (see "## Findings"). `Sessions.QuittingHandlerFramesAlike` shows the two agree for the shipped echo handler.
- Telnet.Server.Cleanup: requires a duplicate-free registry of live clients, the invariant every other registry operation keeps. With a cyclic or duplicated list the source would release a client twice.

## Findings

| source | as written | input that shows it | evidently intended | confidence | as-written member | corrected member |
|---|---|---|---|---|---|---|
| src/olsr_telnet.c:365-366 | after pulling a dispatched line, the framer sets `offset = 0` but keeps scanning from `i + 1` in the shortened buffer. Bytes at the new buffer's start are skipped, including a line feed at index 0 or up to `i` | buffer `a\nb\n` with a handler that keeps the session open: only `a` is dispatched, and `b\n` stays buffered | restart the scan at index 0 of the pulled buffer, so that every complete line is dispatched in arrival order | not executed | Sessions.AsWrittenSkipsSecondLine | Sessions.FetchDispatchesEveryLine |

The shipped echo handler quits after every command, so with it the framer never pulls a line. `Sessions.QuittingHandlerFramesAlike` proves that for such handlers the two framers agree.
