# A model of yvent

yvent is a C++ network library after the reactor pattern. This project models its core as
Dafny classes and state machines and proves what the library relies on over whole runs:

- the byte buffer behaves as a plain byte queue (`Buffer.dfy`);
- the write path of a connection loses, repeats or reorders nothing, switches write interest
  exactly with its backlog, half-closes once and only after the last byte, and keeps the
  kernel's interest table in step, whatever its reentrant callbacks do (`Interest.dfy`,
  `Connection.dfy`, `TcpConnection.dfy`); without a file it is a plain byte pipe (`Pipe.dfy`), and
  with one it is known exactly where the file keeps its place (`FileTransfer.dfy`);
- messages framed by the chat codec arrive in order and whole (`Codec.dfy`, `EndToEnd.dfy`);
- timers are owned, cancelled, scheduled and armed correctly although callbacks add and cancel
  timers in the middle of an expiry pass (`Timers.dfy`, `TimerQueue.dfy`);
- the event loop never sleeps on queued work and runs tasks once and in order
  (`EventLoop.dfy`);
- the HTTP parser does not depend on how its input is cut, inverts printing, and serves the
  requests of a stream in order (`Percent.dfy`, `HttpParser.dfy`, `HttpRoundTrip.dfy`,
  `HttpDriver.dfy`, `HttpServer.dfy`).

## How it is built

Code that changes objects is modelled by classes whose methods update the same fields. Each
method is proved against a function on values (`View`, `Contents`, `Inbox` give the value an
object stands for), and the properties of runs are lemmas about those functions. The event loop,
whose point is the interleaving of threads, is a system of atomic steps.

- The kernel's answers are parameters. `write` and `sendfile` return an error or any count up to
  the length offered; `readv` fills the first region before the second and never more than
  offered; `epoll_wait` may return at any time and with any subset of the ready descriptors; the
  eventfd counter saturates.
- A callback is a finite `Script` of calls on the connection, each with its own kernel answer and
  nested callback, or for timers a list of calls. All lemmas are for every script, so for
  everything a callback that returns can do.
- Clock readings are parameters that never decrease. The system clock the deadlines use and the
  monotonic clock behind the timerfd are taken to advance together. Integers are unbounded;
  the one place where a width matters, the `int32_t` length of the codec, is written out.
- `char` is a byte. `isdigit` and `isspace` mean the ASCII classes for every byte.
- Timers are identified by addresses that are not reused. A handle is not cancelled twice nor
  after its timer was freed, as the comment at yvent/TimerQueue.cpp:103-105 concedes.
- `refused`, `wire`, `sends`, `notices`, `shutdowns`, `closes`, `freed`, `starts`, `ran`, `pushed`
  and `unread` record history for the statements and do not influence behaviour; what they record
  is tied to the calls and events themselves (`Pipe.ConnectionIsPipe`, `Timers.RunsAsAsked`,
  `EventLoop.TasksConserved`, `EventLoop.WakeupsExact`).

Results about the code that a reader may not expect, each with the exact condition: a task the
loop thread posts before `loop()` starts can sleep in the queue (`EventLoop.LostExactlyWhen`);
requests that arrive faster than reads wait for the next read (`HttpDriver.ServedInOrder`,
`HttpDriver.PipelinedRequestWaits`); a second send splits a file that is under way
(`FileTransfer.SendSplitsFile`); a write-complete callback that asks for shutdown has the write
side closed before the file (`FileTransfer.FileOrderExactly`), and one that closes the connection
has an update sent for a descriptor no longer in the interest table
(`FileTransfer.TableAgreesExactly`); the end of a file is not announced to the write-complete
callback (`FileTransfer.FileEndsUnannounced`); any header line without a colon ends a request head
(`HttpRoundTrip.HeaderLineExactly`); messages above 65536 bytes are sent and then refused by the
peer (`Codec.FrameSurvivesExactly`). The buffer's initial size argument is ignored.

## Model

| member | source | states |
|---|---|---|
| `Buffers.Buffer.constructor` | yvent/Buffer.cpp:11-17 | a new buffer stands for the empty queue, with the prepend area of 8 in front; the size argument is ignored by the source |
| `Buffers.Buffer.Swap` | yvent/Buffer.cpp:21-26 | the two queues are exchanged |
| `Buffers.Buffer.Grow` | yvent/Buffer.h:157-158 | enlarging the vector keeps the queue |
| `Buffers.Buffer.Slide` | yvent/Buffer.h:159-168 | the in-place, possibly overlapping move to the prepend area keeps the queue |
| `Buffers.Buffer.MakeSpace` | yvent/Buffer.h:155-169 | the requested room exists afterwards, the queue is unchanged, the storage is replaced exactly if front and tail together have no room for it beside the prepend area, and the assertion before the slide always holds |
| `Buffers.Buffer.EnsureWritableBytes` | yvent/Buffer.h:70-76 | the assertion on writable bytes always holds, the queue is unchanged, and nothing moves or is reallocated unless it must |
| `Buffers.Buffer.Append` | yvent/Buffer.h:55-60 | the queue grows at the end by exactly the bytes given |
| `Buffers.Buffer.Prepend` | yvent/Buffer.h:62-68 | the queue grows at the front by exactly the bytes given |
| `Buffers.Buffer.Retrieve` | yvent/Buffer.h:108-115 | exactly the given number of bytes leaves the front of the queue |
| `Buffers.Buffer.RetrieveAll` | yvent/Buffer.h:117-121 | the queue is empty afterwards |
| `Buffers.Buffer.RetrieveAsString` | yvent/Buffer.h:123-129 | the front of the queue is returned and removed |
| `Buffers.Buffer.FindCRLF` | yvent/Buffer.h:94-98 | the position of the first line terminator of the readable bytes, or none if there is none |
| `Buffers.Buffer.ReadFd` | yvent/Buffer.cpp:28-51 | a read spread over the free tail and the stack area appends exactly the bytes read, in order; an error appends nothing |
| `Buffers.Buffer.Drive` | yvent/Buffer.h:45-141 | under every sequence of calls the readable bytes are what a plain byte queue holds, and a call stops the run only if its asserted precondition fails |
| `Buffers.Buffer.Apply` | yvent/Buffer.h:45-141 | each single call is the byte queue's operation |
| `Bytes.FindCrlfStable` | yvent/Buffer.h:94-98 | more input never changes a terminator already found |
| `Interest.Channel.UpdateChannel` | yvent/Poll.cpp:53-82 | add, change or removal as the registration state and the flags demand, on this descriptor's row only |
| `Interest.Channel.EnableReading` | yvent/Channel.h:29 | read interest is set and the kernel told |
| `Interest.Channel.EnableWriting` | yvent/Channel.h:30 | write interest is set and the kernel told |
| `Interest.Channel.DisableWriting` | yvent/Channel.h:31 | write interest is cleared and the kernel told |
| `Interest.Channel.DisableEverything` | yvent/Channel.h:32 | all interest is cleared and the row removed |
| `Connection.EveryRun` | yvent/TcpConnection.cpp:37-222 | for every in-loop run without a file and with reentrant callbacks: bytes taken by the kernel followed by the backlog are the accepted payloads in order; write interest is on exactly with a backlog; the half-close comes at most once, after everything was handed over, and while owed write interest is on; the kernel's row mirrors the channel, is gone exactly when disconnected, and no update was refused; write completion is announced at the end of payloads and for every drain; the close callbacks have run once if disconnected and never otherwise |
| `Connection.RunKeepsInv` | yvent/TcpConnection.cpp:45-222 | the same from every state in which these hold |
| `Connection.StepKeepsInv` | yvent/TcpConnection.cpp:45-222 | one step of the loop thread, with everything its callbacks do, keeps all of that |
| `Connection.SendKeepsInv` | yvent/TcpConnection.cpp:126-158 | so does a send, whose write-complete callback runs inside it |
| `Connection.WriteKeepsInv` | yvent/TcpConnection.cpp:160-202 | so does a writable event, whose callback runs inside it |
| `Connection.CloseKeepsInv` | yvent/TcpConnection.cpp:59-69 | so does a close, whose callbacks run inside it |
| `Connection.WholeSendNotifies` | yvent/TcpConnection.cpp:144-148 | the invariants already hold when the callback of a send written at once starts |
| `Connection.ClosingScriptIsInert` | yvent/TcpConnection.cpp:105-118 | after a shutdown request no callback has a payload accepted, moves a byte or half-closes again |
| `Connection.DrainPerformsHalfClose` | yvent/TcpConnection.cpp:160-222 | in every run without a file from a connection that owes its half-close, whatever reads, failed writes, calls and callbacks come between the writes, no payload is accepted and each productive write shortens the backlog until the half-close was performed or the connection closed; so unless closed it is performed, with every accepted byte handed over, once productive writes were as many as bytes in the backlog |
| `Connection.ShutdownIsHonoured` | yvent/TcpConnection.cpp:204-222 | a shutdown request on a connected socket, whatever its backlog, ends acceptance of payloads for good, and unless the connection is closed first the half-close follows the last byte once productive writes were as many as bytes in the backlog |
| `Connection.ClosingCloses` | yvent/TcpConnection.cpp:45-69 | end of stream, hangup and forced close disconnect at once, whatever their callbacks do: the row is out of the kernel's table, no update was refused, and the close callbacks have run once |
| `Connection.CloseIsFinal` | yvent/TcpConnection.cpp:45-69 | in every run that holds such an event, the connection ends disconnected with its row gone and one run of the close callbacks, and no byte, payload or half-close is added after that event |
| `Connection.CallbacksRun` | yvent/TcpConnection.cpp:37-57 | the connection and message callbacks are run, and the write-complete callback exactly when a payload was written at once or a write emptied the backlog; every payload they send is accepted |
| `Pipe.ConnectionIsPipe` | yvent/TcpConnection.cpp:37-237 | over every run without a file, callbacks included, the connection is a plain byte pipe: an open pipe accepts every payload, the bytes taken are a prefix of the payloads, and announcements, half-close and phase are the pipe's |
| `Pipe.StepRefines` | yvent/TcpConnection.cpp:45-237 | each single event with its callbacks does to the connection what it does to the pipe |
| `FileTransfer.FileTail` | yvent/TcpConnection.cpp:152-157 | a file set before a send reaches the kernel after the earlier backlog and the header, whole and in order, a requested half-close comes after its last byte, and both are complete once productive writes were as many as bytes to send |
| `FileTransfer.FileEndsUnannounced` | yvent/TcpConnection.cpp:185-197 | with a file the write-complete callback runs for a header written at once and never again: neither the end of the backlog nor of the file is announced |
| `FileTransfer.PayloadBeforeFile` | yvent/TcpConnection.cpp:185-197 | without a write-complete callback, any payload sent while a file is pending goes in front of the unsent part of the file, and everything is sent, with an owed half-close, within as many productive writes as there are bytes |
| `FileTransfer.SendSplitsFile` | yvent/TcpConnection.cpp:152-157 | a second send at any point of the transfer, when k bytes of the file were taken, goes between them and the rest; the file is in one piece in the stream if and only if k is 0, k is the whole file, or the payload is empty |
| `FileTransfer.WholeForEveryPayload` | yvent/TcpConnection.cpp:152-157 | the same condition read off the bytes alone: the stream has the file whole before or behind every payload of a given length if and only if k is 0 or the whole file, or that length is 0 |
| `FileTransfer.FileOrderExactly` | yvent/TcpConnection.cpp:142-157 | with any write-complete callback that sends nothing, the stream is earlier payloads, header and file with a half-close only behind them, in every continuation, if and only if it is not the case that the whole header is written at once and the callback asks for shutdown first |
| `FileTransfer.ShutdownOvertakesFile` | yvent/TcpConnection.cpp:142-157 | in that case the half-close is performed with the whole file still to send |
| `FileTransfer.CloseKeepsOrder` | yvent/TcpConnection.cpp:142-157 | a callback that closes first leaves the file unsent for good, so the order holds |
| `FileTransfer.TableAgreesExactly` | yvent/TcpConnection.cpp:142-157 | queueing a file updates the interest table after the row was deleted, which the kernel refuses, if and only if the header is written at once and the callback closes the connection |
| `TcpConnections.TcpConnection.constructor` | yvent/TcpConnection.cpp:12-28 | a new connection is the machine's initial state |
| `TcpConnections.TcpConnection.EnableRead` | yvent/TcpConnection.cpp:37-43 | establishing the connection and running its callback, as the machine does |
| `TcpConnections.TcpConnection.Send` | yvent/TcpConnection.cpp:105-118 | the object's new state is the machine's for this send, and the input buffer is untouched |
| `TcpConnections.TcpConnection.SendBuffer` | yvent/TcpConnection.cpp:81-98 | the same for a buffer, the connection's own input buffer included, which is emptied exactly when its bytes were accepted |
| `TcpConnections.TcpConnection.SendInLoop` | yvent/TcpConnection.cpp:126-158 | direct write, reentrant callback and queueing, as the machine does |
| `TcpConnections.TcpConnection.HandleWrite` | yvent/TcpConnection.cpp:160-202 | backlog, file, drain and reentrant callback, as the machine does |
| `TcpConnections.TcpConnection.SendFile` | yvent/TcpConnection.cpp:185-197 | the sendfile branch, as the machine does |
| `TcpConnections.TcpConnection.Shutdown` | yvent/TcpConnection.cpp:204-212 | the shutdown request, as the machine does; see `Connection.ShutdownIsHonoured` |
| `TcpConnections.TcpConnection.ShutdownInLoop` | yvent/TcpConnection.cpp:214-222 | half-close unless write interest is on |
| `TcpConnections.TcpConnection.HandleRead` | yvent/TcpConnection.cpp:45-57 | the input buffer grows by exactly the bytes read, and error, end of stream and data lead to the machine's three steps; see `Connection.ClosingCloses` and `Connection.CallbacksRun` |
| `TcpConnections.TcpConnection.HandleClose` | yvent/TcpConnection.cpp:59-69 | the close with its callbacks, as the machine does; its assertion on the state holds at every call |
| `TcpConnections.TcpConnection.RunAct` | yvent/TcpConnection.cpp:224-237 | a call made by a callback, forced close included, as the machine does |
| `TcpConnections.TcpConnection.Dispatch` | yvent/Channel.cpp:27-44 | one event with its handler is one step of the machine, and the input buffer grows by exactly the bytes read |
| `TcpConnections.TcpConnection.Drive` | yvent/TcpConnection.cpp:37-237 | the object under any list of events, with nested callbacks, is a run of the machine, so after every list without a file it has conservation, interest, half-close and table agreement |
| `Codec.HeaderRoundTrip` | example/chat/codec.h:57-59 | a length below 2^31 survives the four big-endian header bytes |
| `Codec.HeaderValueExactly` | example/chat/codec.h:37 | the length read is the signed 32-bit number in the four bytes, most significant first |
| `Codec.DecodeSplit` | example/chat/codec.h:34-51 | decoding the input in two pieces delivers the same messages and leaves the same bytes as decoding it at once |
| `Codec.DecodeExactly` | example/chat/codec.h:34-51 | on any input, the messages delivered, the bytes left and the verdict are the one way to read it as legal frames followed by too few bytes or by a length outside 0..65536 |
| `Codec.DecodeFrames` | example/chat/codec.h:34-51 | framed messages decode to themselves, with any part of a further frame left over |
| `Codec.DecodePrefix` | example/chat/codec.h:34-51 | every prefix of a framed stream decodes to a prefix of its messages and never to a bad length; the whole stream decodes to all of them |
| `Codec.FrameSurvivesExactly` | example/chat/codec.h:36-61 | a message survives framing and decoding if and only if it has at most 65536 bytes |
| `Codec.Send` | example/chat/codec.h:53-61 | the connection is offered exactly the frame of the message |
| `Codec.OnMessage` | example/chat/codec.h:34-51 | exactly the decodable messages are delivered in order, the rest stays in the buffer, and the connection is as after one callback that makes the calls for each message and then, at a bad length, the shutdown |
| `Codec.BadLengthShutsDown` | example/chat/codec.h:38-42 | after a bad length the connection is not connected whatever the message callbacks did, accepts nothing more in any continuation, and half-closes behind its last byte |
| `EndToEnd.MessagesArrive` | example/chat/codec.h:34-61 | for every run of a framing sender with reentrant callbacks, every pattern of partial or failed writes and every split of the reads, the peer has delivered a prefix of the accepted messages and met no bad length; all of them, with an empty buffer, once the backlog is empty and every byte was read |
| `EndToEnd.AdvanceKeepsInv` | yvent/TcpConnection.cpp:126-202 | the peer's state is always the decoding of the bytes it read so far |
| `EndToEnd.StepKeepsFramed` | yvent/TcpConnection.cpp:126-202 | bytes taken and payloads accepted are never taken back, and accepted payloads are the frames offered |
| `EndToEnd.Receive` | example/chat/codec.h:34-51 | the read handler of the peer's object with the codec behind it is one arrival step of the system and one read event of the peer's connection, replies and shutdown at a bad length included |
| `Timers.OwnedAlways` | yvent/TimerQueue.cpp:24-117 | at every point of every run each timer ever allocated is in exactly one of the set, the unprocessed rest of the pass, the running callback's hands and the freed ones; keys are current deadlines; none is freed twice |
| `Timers.StepKeepsOwned` | yvent/TimerQueue.cpp:24-117 | every step keeps that partition, adds and cancellations from inside callbacks included |
| `Timers.PassEntriesLive` | yvent/TimerQueue.cpp:69-83 | the entries a pass has still to process, and the one whose callback is running, belong to timers that were not freed, so no pass touches a freed timer |
| `Timers.NothingLeft` | yvent/TimerQueue.cpp:24-30 | after destruction every timer ever allocated was freed exactly once |
| `Timers.CancelledNeverStarts` | yvent/TimerQueue.cpp:69-83 | in every continuation of a run the callback of a cancelled timer does not start again |
| `Timers.CancelKills` | yvent/TimerQueue.cpp:106-117 | cancelling frees a timer exactly if it is in the set, and marks it otherwise |
| `Timers.ArmedInTimeAlways` | yvent/TimerQueue.cpp:32-86 | outside a pass, a nonempty set has the kernel timer armed no later than its earliest deadline or a millisecond after the last arming, and never sooner after an arming |
| `Timers.TimespecExact` | yvent/TimerQueue.cpp:44-60 | seconds and nanoseconds are exact and normalised and never the zero that disarms |
| `Timers.SplitDue` | yvent/TimerQueue.cpp:88-101 | the expired entries are exactly those due at or before now, and both parts stay in order |
| `Timers.OnScheduleAlways` | yvent/TimerQueue.cpp:62-101 | run n of a timer starts no earlier than n intervals after its first deadline, after n completed runs its deadline is exactly that, starts are numbered without gaps, and a pass starts each timer at most once |
| `Timers.RunsAsAsked` | yvent/TimerQueue.cpp:32-101 | in terms of the addTimer calls of a run: run n of a timer starts at the time read for it, no earlier than the deadline asked for plus n of the intervals asked for, the deadline of a live timer is that deadline plus one such interval per completed run, runs are numbered without gaps, and a timer asked for without an interval runs at most once |
| `Timers.StepKeepsAsked` | yvent/TimerQueue.cpp:32-117 | every step keeps each timer's schedule the one asked for |
| `Timers.PassInOrderAlways` | yvent/TimerQueue.cpp:69-101 | each pass starts its timers in the order of their deadlines, whatever callbacks add or cancel |
| `Timers.PassSkipsNone` | yvent/TimerQueue.cpp:62-86 | when a pass is about to end, every timer that was due at its beginning was started in it unless it was cancelled, whatever the callbacks add or cancel |
| `Timers.FinishOutcome` | yvent/TimerQueue.cpp:74-81 | behind its callback a repeating timer waits in the set one interval later, any other is freed |
| `Timers.RestartKeepsSchedule` | yvent/Timer.cpp:22-26 | restarting moves the deadline by exactly one interval, without drift |
| `Timers.InsertSorted` | yvent/TimerQueue.cpp:36-37 | insertion keeps the set ordered, adds just the entry, and the entry is first or the first one stays |
| `TimerQueues.Timer.Restart` | yvent/Timer.cpp:22-26 | the deadline advances by the interval and nothing else changes |
| `TimerQueues.Timer.Cancel` | yvent/Timer.cpp:28-32 | the timer is marked and nothing else changes |
| `TimerQueues.TimerQueue.AddTimer` | yvent/TimerQueue.cpp:32-42 | a fresh timer is inserted, as the machine does, the kernel timer re-armed exactly if it is first, and the handle returned is that timer; see `Timers.RunsAsAsked` for the schedule it then keeps |
| `TimerQueues.TimerQueue.SetTimer` | yvent/TimerQueue.cpp:44-60 | the kernel timer expires at the deadline, or a millisecond from now if that is later |
| `TimerQueues.TimerQueue.CancelTimer` | yvent/TimerQueue.cpp:106-117 | the timer is marked, and erased and freed exactly if it was in the set |
| `TimerQueues.TimerQueue.GetExpired` | yvent/TimerQueue.cpp:88-101 | the leading due entries are returned and removed |
| `TimerQueues.TimerQueue.HandleRead` | yvent/TimerQueue.cpp:62-86 | a pass has one turn for every entry due, with the calls its callback makes, and ends re-armed; it is a run of the machine, so the invariants hold at every point inside it; every timer that was due was started in it or is cancelled |
| `TimerQueues.TimerQueue.Process` | yvent/TimerQueue.cpp:69-83 | one expired entry: free if cancelled, else run the callback with all its calls and reinsert or free, as machine steps |
| `TimerQueues.TimerQueue.MakeCalls` | yvent/TimerQueue.cpp:32-117 | the adds and cancellations of a callback are made, in order |
| `TimerQueues.TimerQueue.Destroy` | yvent/TimerQueue.cpp:24-30 | deleting entry by entry frees all timers in the set, each while still alive |
| `EventLoop.NoLostWakeup` | yvent/EventLoop.cpp:72-160 | in every interleaving of the loop thread and any number of others, without a direct post by the loop thread before the loop starts: at poll with a task queued or quit set, the eventfd is readable or another thread still has its wakeup write to do |
| `EventLoop.LostExactlyWhen` | yvent/EventLoop.cpp:72-125 | no continuation after entering the loop loses a wakeup if and only if at entry nothing is queued, a wakeup is on its way, or quit is set |
| `EventLoop.EarlyPostIsLost` | yvent/EventLoop.cpp:115-125 | a direct post by the loop thread before the loop starts violates that condition |
| `EventLoop.StepKeepsWake` | yvent/EventLoop.cpp:96-160 | every single step keeps the wakeup invariant, and the eventfd is readable only for writes not read yet |
| `EventLoop.QuitEndsPolling` | yvent/EventLoop.cpp:78-103 | after a quit from any thread the loop never goes back to waiting, whatever is posted meanwhile |
| `EventLoop.QuitExactly` | yvent/EventLoop.cpp:72-103 | the quit flag is set exactly if some thread asked for it, and the loop ends for no other reason |
| `EventLoop.WakeupsExact` | yvent/EventLoop.cpp:115-160 | the eventfd counts the wakeup writes since its last read, saturating, and a thread owes its write exactly between its post or quit and the write |
| `EventLoop.WakeupIsRead` | yvent/EventLoop.cpp:78-85 | a poll that reports the eventfd has it read before the loop goes on to the tasks |
| `EventLoop.TasksConserved` | yvent/EventLoop.cpp:115-150 | in every interleaving, tasks started, then the rest of the batch, then the queue, are the tasks posted by all threads, in order: the tasks started are the first ones posted, each once |
| `EventLoop.QueuedTasksRun` | yvent/EventLoop.cpp:78-85 | every task pushed before a poll returns has been started by the time the loop tests quit, polls again or exits |
| `EventLoop.PostedTasksRun` | yvent/EventLoop.cpp:78-125 | the same for interleavings from the beginning: every task posted before a poll returns has been started by then |
| `EventLoop.RoundCompletes` | yvent/EventLoop.cpp:78-85 | a round never gets stuck: after poll returns the loop thread alone can go through it, with every task posted before started and none left |
| `Percent.DecodeInverts` | yvent/http/HttpRequest.cpp:42-95 | decoding inverts every percent-encoding, with any choice of escaped bytes and digit case, also with a cut-off escape behind it |
| `Percent.CutEscapeAddsNothing` | yvent/http/HttpRequest.cpp:42-95 | behind any bytes whatever, and in both states of the decoder, an escape cut off by the terminator adds nothing to the path |
| `Percent.DecodeUndoes` | yvent/http/HttpRequest.cpp:42-95 | behind an encoding the decoder is back in its start state |
| `Percent.Decode` | yvent/http/HttpRequest.cpp:42-95 | the decoded path is no longer than its text |
| `Percent.HexDigitTable` | yvent/http/HttpRequest.cpp:62-72 | the digit test with the case bit accepts exactly 0-9, A-F and a-f, with their values |
| `Percent.NoiseDropped` | yvent/http/HttpRequest.cpp:61-90 | between a percent sign and the next two digits in a row, single non-digits and digits followed by a non-digit are dropped, in any number, and the two digits give one byte |
| `Percent.EncodeEncodes` | yvent/http/HttpRequest.cpp:42-95 | escaping any choice of positions that includes the special bytes is such an encoding |
| `HttpParser.ParseSplit` | yvent/http/HttpContext.cpp:43-89 | parsing what arrived and then going on gives what parsing all at once gives; after completion or rejection more input is untouched |
| `HttpParser.ChunkingInvariance` | yvent/http/HttpContext.cpp:6-89 | however a stream is cut, between CR and LF included, the parser state, request fields, verdict and leftover bytes are the same |
| `HttpRoundTrip.HeadRoundTrip` | yvent/http/HttpContext.cpp:6-89 | a printed head with any method, encoded path, query, version and well-formed fields parses back to that request, stops behind the empty line and leaves any trailing bytes |
| `HttpRoundTrip.RequestLineRoundTrip` | yvent/http/HttpContext.cpp:6-41 | the request line alone parses back to method, path, query and version |
| `HttpRoundTrip.RequestLinesExactly` | yvent/http/HttpContext.cpp:6-41 | a request line is accepted if and only if it is one of the five method names, a target without a space, and HTTP/1.0 or HTTP/1.1, separated by single spaces |
| `HttpRoundTrip.LineIsAccepted` | yvent/http/HttpContext.cpp:6-41 | every such line gives the method and version it names, the path decoded up to its terminator, and the query from its question mark on |
| `HttpRoundTrip.FieldLine` | yvent/http/HttpRequest.cpp:123-137 | a header line adds its name and its value without the surrounding white space |
| `HttpRoundTrip.HeaderLineExactly` | yvent/http/HttpContext.cpp:65-81 | every line with a colon adds a field with the name before the first colon and the value without surrounding blanks, and every line without one, empty or not, ends the head |
| `HttpRoundTrip.CollectDistinct` | yvent/http/HttpRequest.cpp:136 | with distinct names the header table holds exactly the printed fields |
| `HttpDriver.Serve` | yvent/http/HttpServer.cpp:26-39 | over every run up to the first rejected request the parser is entered only with a blank request or in the headers |
| `HttpDriver.ServedExactly` | yvent/http/HttpServer.cpp:26-39 | the stream is the heads of the requests served, each of which alone parses to that request from a blank one, followed by what is being parsed: nothing leaks from one request to the next |
| `HttpDriver.ServedInOrder` | yvent/http/HttpServer.cpp:26-39 | for every list of reads, rejected streams included, the requests served are the first of the stream in order, and all of them if and only if from no read on more requests arrive than reads are left |
| `HttpDriver.ServedCount` | yvent/http/HttpServer.cpp:26-39 | each call serves one more request exactly if one has arrived that was not served yet |
| `HttpDriver.ServedThenRejected` | yvent/http/HttpServer.cpp:26-39 | a rejected stream is the heads served followed by input that the parser rejects from its start state |
| `HttpDriver.PipelinedRequestWaits` | yvent/http/HttpServer.cpp:35-38 | of two heads arriving in one read only the first is served, the second when more bytes arrive |
| `HttpServer.HttpRequest.SetMethod` | yvent/http/HttpRequest.cpp:11-40 | the method named is set, the result says whether it is known, and the assertion on the old method is the precondition proved at the call; see `HttpRoundTrip.RequestLinesExactly` for the names |
| `HttpServer.HttpRequest.SetPath` | yvent/http/HttpRequest.cpp:42-95 | the path grows by the decoded text, and no byte behind the terminator is read |
| `HttpServer.HttpRequest.DecodeRound` | yvent/http/HttpRequest.cpp:51-94 | one round of that loop adds and consumes what one round of the decoder does |
| `HttpServer.HttpRequest.AddHeaderLine` | yvent/http/HttpRequest.cpp:123-137 | the header table gets the name and the trimmed value |
| `HttpServer.HttpRequest.Swap` | yvent/http/HttpRequest.h:54-61 | the two requests are exchanged |
| `HttpServer.HttpContext.Reset` | yvent/http/HttpContext.h:29-34 | the context is as new |
| `HttpServer.HttpContext.ReadRequestLine` | yvent/http/HttpContext.cpp:6-41 | fields and verdict of the request line, including what a rejected line already set |
| `HttpServer.HttpContext.ParseRequest` | yvent/http/HttpContext.cpp:43-89 | the loop ends, by a measure on the readable bytes, with the context, leftover bytes and verdict of the parser function |
| `HttpServer.OnMessage` | yvent/http/HttpServer.cpp:26-39 | one call moves context and buffer as the driver does and serves a request exactly when one is complete |
| `HttpServer.ServeConnection` | yvent/http/HttpServer.cpp:26-39 | the objects over any list of reads serve exactly what the driver serves, up to the first rejected request |

## Left out

- Sockets, epoll, timerfd, eventfd, readv and sendfile themselves: they appear only through the answers described above.
- Object lifetime and shared_ptr counting, and several handlers fired for one revents value (yvent/Channel.cpp:27-44): each handler call is one step, taken only while the connection is not disconnected.
- Calls to send, shutdown and forceClose from other threads: the state test and the queued part are separate there, so only calls on the loop thread are modelled.
- Cross-thread addTimer and cancelTimer: the lambda of addTimer captures locals by reference (yvent/TimerQueue.cpp:35).
- A callback that never returns: a script is finite, so endless recursion of a write-complete callback into send is not modelled.
- Setting a second file while one is pending, sends made by callbacks while a file is under way (a direct second send is covered), and what a close leaves of a file's descriptor.
- What a connection does after a rejected HTTP request: the parser would then be entered with a method already set.
- HTTP request bodies: the Body state has no code in the source.
- The answers of onRequest, HttpResponse printing and the 400 response: thin output code.
- TcpConnection::handleError, logging, build files and the example programs around the codec: they compute nothing.
- Acceptor, Connector, TcpClient, TcpServer, InetAddr, Socket, EventLoopThread and EventLoopThreadPool: wrappers over system calls and start-up code.
- EventLoop as an object: its fields are a value that atomic steps replace, because a method body cannot be interleaved with other threads.
- The memory order of the two atomic flags of EventLoop: steps are sequentially consistent.
