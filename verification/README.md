# Verified models of the socket exercises

A Dafny model of the self-contained algorithms of this repository, with proofs of what
they promise. `dafny verify dfyconfig.toml` checks everything.

| component | modules |
|---|---|
| HTTP request parser | `HttpRequests`, `HttpContexts` (the objects), `HttpConfluence`, `HttpGrammar`, `HttpRoundTrip` (the theorems) |
| memcached session | `MemcachedCommands`, `MemcachedSessions` (the object), `MemcachedRuns`, `MemcachedStreams` (the theorems) |
| TTCP, blocking | `TtcpBlocking`: client and server as steps over two bounded channels |
| TTCP, event driven | `TtcpLibev` on top of `Tbufs` |
| byte buffers | `Tbufs`, `CircularBuffers` |
| time wheel | `WheelTimers` (linked slots), `WheelRuns` (when a timer fires; whole runs) |
| timer heap and timer list | `HeapOrder`, `MinHeapTimers`, `ListTimers` (the objects), `TimerSimulation`, `TimerRuns` (the theorems and whole runs) |
| netcat relay | `NetcatRelay`, `PythonText` (what `str` makes of bytes) |
| process pool | `ProcessPools` |

`TextSearch`, `Decimal`, `Bytes`, `Pieces` and `TimerValues` hold what several of them share.
The classes have the fields of the originals and work in place. What a method does is proved
as a step of a value (`View()`, `Contents()`, `Countdowns()`, `Timers()`, `nodes`), and the
theorems over all runs are about those values; `RunAll` methods and the `…IsStep` lemmas tie
the two together. In `TtcpBlocking` the two programs are a state machine over single read and
write calls; `ClientCallsReach` and `ServerCallsReach` say that it moves what the loops
`ReadN` and `WriteN` move. What the kernel does (how many bytes a
call moves, which events poll reports, what time it is) is a parameter or an arbitrary
choice. In the HTTP and memcached modules a byte is a `char`; only ASCII values are looked at.

Where an expected property does not hold of the code, its exact condition is proved:

* memcached: the resumed search for a line end misses one that a read boundary splits.
  `ResumedSearch` says exactly when, and `ConfluenceExact` exactly when the command lines
  taken up depend on the bytes alone. What the outside sees is then the same too, but not
  only then: two unknown commands can be merged without anybody noticing (`SilentLoss`). For
  streams of set, get and quit commands the condition is about the offsets of the reads, and exact
  for everything the outside sees unless a set without its line end follows or precedes a quit:
  `CommandsExact`, and `HiddenLoss` for such a stream. `LostCommand` is an instance.
* memcached: `ReadNumberOfText` shows that 2^32 is read as 0 and 2^31 as a negative number.
* `Tbuf::append` asserts room even for an empty text: `AppendAssertExact`.
* a heap with capacity 0 never grows: exactly there `TimeHeap.AddTimer` finds no room.
* `adjust_timer` keeps the list sorted exactly if the time was not lowered below the
  previous timer's: `AdjustmentExact`.
* the relay's assert on a writable socket fails exactly if such a socket takes no byte:
  `RelayKeeps`. To stdout it writes the literal of the bytes object instead of the bytes
  received: `ForwardedExact`, and `LetterQuoted` for one byte.
* the blocking TTCP test completes exactly if the server accepts the length: `CompletionExact`.
* a negative Content-Length stops the process: the third outcome `Aborted`, which
  `OutcomeExact` gives the exact condition for, and `NegativeLengthStops` examples. Any line
  without a colon, not just an empty one, ends the header block (`ParseExact`), and header
  names are compared letter by letter (`LengthHonoured`), unlike section 4.2 of RFC 2616.

## Model

| member | source | states |
|---|---|---|
| HttpRequests.MethodNameRoundTrip | http/http_request.h:36-93 | set_method and method_str are inverse on every accepted method name |
| HttpRequests.LexicalCastOfText | http/http_request.h:142-156 | the decimal text of any length up to the ssize_t maximum is read back as that length |
| HttpRequests.LexicalCastExact | http/http_request.h:142-156 | a Content-Length is read as n if and only if it is an optional sign and digits that denote n, within the range of ssize_t; all else counts as 0 |
| HttpRequests.ExpectedLengthExact | http/http_request.h:142-156 | the announced length is the number in the header, and 0 without one |
| HttpRequests.HttpRequest.SetMethod | http/http_request.h:36-65 | accepts exactly the five method names and changes the method alone |
| HttpRequests.HttpRequest.AddHeader | http/http_request.h:113-129 | stores the value, cut at both ends, under the field name and changes nothing else |
| HttpRequests.HttpRequest.GetRemainBodyLen | http/http_request.h:159-166 | announced length minus body so far; none exactly where the assert fails |
| TextSearch.TrimOfPadded | http/http_request.h:117-127 | white space around a trimmed text is exactly what the two trimming loops remove |
| HttpContexts.HttpContext.ParseFirstLine | http/http_context.cpp:10-66 | the fields set, also when the line is refused half-way, are those of FirstLine |
| HttpContexts.HttpContext.ParseRequest | http/http_context.cpp:68-159 | one call, as a loop over three branches, is exactly Parse of the old parser state, request and unread bytes; it terminates |
| HttpContexts.HttpContext.Reset | http/http_context.h:28-33 | back to a fresh parser, unread bytes untouched |
| HttpContexts.FirstLineIdempotent | http/http_context.cpp:78-87 | a refused line, parsed again on the next call, is refused again and leaves the same fields |
| HttpConfluence.Confluence | http/http_context.cpp:68-159 | for every parser state and every split into reads the final state, request, unread bytes and result are those of a single read; no condition on the bytes |
| HttpConfluence.ParseResumes | http/http_context.cpp:68-159 | parsing, appending and parsing again equals appending first and parsing once |
| HttpConfluence.FeedConsistent | http/http_context.cpp:127-150 | over every run the body is never longer than announced, got-all means equal length (empty without the header); the process is stopped exactly where the parser awaits a body of negative length |
| HttpConfluence.FeedConserves | http/http_context.cpp:80-142 | everything received is whole lines, then the body, then the unread bytes |
| HttpConfluence.ParseConserves | http/http_context.cpp:68-159 | the same for one call from any state |
| HttpGrammar.RequestLineAccepted | http/http_context.cpp:10-66 | every rendered request line is accepted and gives back method, path, query and version |
| HttpGrammar.AcceptedRequestLine | http/http_context.cpp:10-66 | every accepted request line is the rendering of what was read from it |
| HttpGrammar.RefusedLine | http/http_context.cpp:10-66 | what each kind of refused line leaves behind: nothing without a blank, the method alone without a second one or for an unknown method, and all but the version for another version |
| HttpGrammar.ParseExact | http/http_context.cpp:68-159 | got-all with a given request and rest happens if and only if the input starts with a grammatical message of that meaning |
| HttpGrammar.OutcomeExact | http/http_context.cpp:78-150 | over every split: refused if and only if the first line received is no request line, and stopped by the assert if and only if the input starts with a head that announces a negative length |
| HttpGrammar.ProgressExact | http/http_context.cpp:68-159 | over every split, where the parser stands, as an if-and-only-if for each state: it has taken every complete line of the head, as the header it is, so what is unread there holds no line end; in the body nothing is unread and the body is all that has come behind the head |
| HttpRoundTrip.FieldRead | http/http_request.h:113-129 | a field line, padded or not, puts its value in the place of any earlier one of that name |
| HttpRoundTrip.NegativeLengthStops | http/http_request.h:159-166 | any request that announces a negative length is such an input |
| HttpRoundTrip.RoundTrip | http/http_context.cpp:94-150 | rendering any well-formed request (padded headers, decimal Content-Length) and parsing it, in any pieces, gives back every component and consumes exactly the rendered bytes |
| HttpRoundTrip.ServeConfluence | http/http_context.h:28-33 | parsing on with a reset behind each complete request, as often as the bytes at hand allow (the servers do so once for each read): the requests taken, state and leftover depend on the bytes alone |
| HttpRoundTrip.Pipeline | http/http_context.h:28-33 | well-formed requests behind one another, cut into reads in any way, are read back one by one when each read is parsed on like that, and the bytes behind them are left to what comes next |
| HttpRoundTrip.FieldMapExact | http/http_request.h:127-139 | with distinct names get_header answers each field's value and nothing else |
| HttpRoundTrip.LengthHonoured | http/http_context.cpp:108-112 | among any fields with distinct names, a length is honoured exactly under the spelling Content-Length |
| MemcachedCommands.WordReader.Next | memcached/server/session.h:33-55 | the separator takes the next word between blanks and leaves the others |
| MemcachedCommands.WordsAcross | memcached/server/session.h:33-55 | the words of any two texts with a blank between them are those of the first followed by those of the second |
| MemcachedCommands.WordReader.Read | memcached/server/session.h:69-87 | reads the next word as a truncated 64-bit number, or refuses it |
| MemcachedCommands.ReadNumberOfText | memcached/server/session.h:76-84 | a decimal text below 2^31 is read as itself; larger ones wrap, and from 2^64 on all are -1 |
| MemcachedCommands.ReadNumberExact | memcached/server/session.h:76-84 | exactly white space, an optional sign and digits are read, as the int with the same low 32 bits, and -1 beyond 2^64 - 1 |
| MemcachedSessions.MemcachedSession.OnMessage | memcached/server/session.cpp:32-120 | one message is exactly Run of the old session with the bytes appended; it terminates |
| MemcachedSessions.MemcachedSession.RequestCommand | memcached/server/session.cpp:122-174 | command dispatch, the events it causes and its verdict |
| MemcachedSessions.MemcachedSession.UpdateCommand | memcached/server/session.cpp:176-211 | the fields set, also when it fails half-way, the reply and the verdict |
| MemcachedStreams.UpdateExact | memcached/server/session.cpp:176-211 | exactly which updates are accepted, the one error reply each other gets, and which fields have been overwritten by then |
| MemcachedStreams.RequestExact | memcached/server/session.cpp:122-174 | an unknown command does nothing, a get without a key is answered with an error, and only the first word behind get counts |
| MemcachedStreams.ValueExact | memcached/server/session.cpp:83-114 | a value is taken exactly when it and two more bytes are there; it is stored and answered if and only if these are CR LF, and the next command line is read right behind them in either case |
| MemcachedRuns.ResumedSearch | memcached/server/session.cpp:39-48 | the resumed search finds the same line end as one from the start if and only if the boundary does not split one |
| MemcachedRuns.ConfluenceExact | memcached/server/session.cpp:32-120 | the command lines taken up depend on the bytes alone if and only if no boundary splits a line end while a command line is awaited; stores, replies, lookups, leftover and state then do too |
| MemcachedRuns.CleanByBytes | memcached/server/session.cpp:76-80 | reads never ending in CR before one starting in LF meet that condition |
| MemcachedRuns.SilentLoss | memcached/server/session.cpp:76-80 | the outside may see no difference all the same: two unknown commands merged by a bad split |
| MemcachedRuns.LostCommand | memcached/server/session.cpp:76-80 | a quit command split between CR and LF: no shutdown, and the command is left over |
| MemcachedStreams.CommandsExact | memcached/server/session.cpp:32-120 | for any stream of set, get and quit commands, sets without their line end included, and any split: the command lines taken up are those of the commands if and only if no read starts at the line feed of a command line; each item with its line end is then stored once, in order, as sent, and answered, each other one skipped, each key looked up, each quit obeyed, and nothing left over. Unless the stream holds both a quit and a set without its line end, the condition is exact for what the outside sees too |
| MemcachedStreams.HiddenLoss | memcached/server/session.cpp:83-114 | with both, the outside may see no difference: the data of the skipped set makes up for a lost quit |
| MemcachedStreams.RunLoad | memcached/server/session.cpp:32-211 | conservation: nothing is done for fewer bytes than its shortest command has, whatever the bytes |
| MemcachedStreams.MergedCommand | memcached/server/session.h:69-87 | a command line merged with what follows does something else at once: a set is answered with an error, a get looks up another key, a quit is unknown |
| Bytes.DecodeEncode | ttcp/ttcp_blocking.cpp:128-129 | ntohl after htonl is the identity |
| Bytes.FirstByteWeighsMost | ttcp/ttcp_blocking.cpp:128-129 | network order: the first byte weighs most |
| TtcpBlocking.Socket.ReadN | ttcp/ttcp_blocking.cpp:91-113 | reads the next bytes in order through partial reads and EINTR, and how many |
| TtcpBlocking.Socket.WriteN | ttcp/ttcp_blocking.cpp:67-89 | writes a prefix of the buffer through partial writes and EINTR, and how long |
| TtcpBlocking.ReachedInPieces | ttcp/ttcp_blocking.cpp:67-113 | a transfer is complete once enough bytes have moved, however they are cut |
| TtcpBlocking.ReachedStops | ttcp/ttcp_blocking.cpp:67-113 | an answer of 0 or an error ends the transfer where it stands, whatever answers follow |
| TtcpBlocking.ClientCallsReach | ttcp/ttcp_blocking.cpp:67-113 | in every interleaving the client's transfer has come as far as its write_n or read_n comes with the parts moved |
| TtcpBlocking.ServerCallsReach | ttcp/ttcp_blocking.cpp:67-113 | the same for the server |
| TtcpBlocking.ConfigureFormed | ttcp/ttcp_blocking.cpp:193-210 | the messages the client builds carry its options as the server reads them, and the repeated sixteen digits |
| TtcpBlocking.ChecksExact | ttcp/ttcp_blocking.cpp:143-160 | in any state, when a step makes a program give up: the peer has closed, a length or ack read is not the agreed one, or the server does not take the length |
| TtcpBlocking.Safety | ttcp/ttcp_blocking.cpp:143-160 | in every run no read or write fails, both length asserts hold, acks read <= payloads read <= acks read + 1, counted over the actions, the channels keep to their rooms, and bytes moved plus bytes left are constant |
| TtcpBlocking.NoDeadlock | ttcp/ttcp_blocking.cpp:215-225 | with any rooms of at least one byte, some action is possible unless both are done, and then exactly `number` payloads and acks were exchanged |
| TtcpBlocking.CompletionExact | ttcp/ttcp_blocking.cpp:134-138 | where nobody can go on, everything was exchanged if and only if the server accepts the length; otherwise no payload and no ack was read |
| Tbufs.Tbuf.Append | tbuf/tbuf.h:36-64 | contents grow by the text; move and growth happen exactly when needed |
| Tbufs.Tbuf.MoveToFront | tbuf/tbuf.h:40-47 | the overlapping forward copy keeps the contents; its branch has ridx > 0 |
| Tbufs.Tbuf.Retrieve | tbuf/tbuf.h:82-94 | drops exactly the given number of bytes |
| Tbufs.Tbuf.ReadInt32 | tbuf/tbuf.h:68-80 | decodes and drops the first four bytes |
| Tbufs.Tbuf.ReadFd | tbuf/tbuf.h:99-128 | a scatter read of any permitted size, spilling or not, appends the incoming bytes in order |
| Tbufs.AppendAssertExact | tbuf/tbuf.h:38-60 | room is always made, by moving only if the tail is too small and by growing, by what is missing, only if moving would not do; the second assert fails exactly for an empty text on a buffer full to its end |
| TtcpLibev.EvClient.ClientReadCb | ttcp/ttcp_libev.cpp:115-184 | one read event is exactly Run of the old session with the bytes appended; it terminates |
| TtcpLibev.Confluence | ttcp/ttcp_libev.cpp:125-183 | for any bytes and any split, state, acks and leftover are those of a single read |
| TtcpLibev.Framing | ttcp/ttcp_libev.cpp:151-182 | after any prefix of a well-formed stream in any pieces: acks = min(number, complete frames received), the leftover is exact, closed exactly when all are done |
| TtcpLibev.SessionExact | ttcp/ttcp_libev.cpp:125-183 | over any bytes in any split: the session exits exactly on a number or length out of range or on a frame whose length differs, where it does, and what it has acknowledged by then |
| TtcpLibev.NothingLeftToDo | ttcp/ttcp_libev.cpp:125-183 | no complete frame waits for a later read |
| CircularBuffers.CircularBuffer.Push | circular_buffer/circular_buffer.h:25-43 | appends the byte, refused with 0 exactly when one slot is left |
| CircularBuffers.CircularBuffer.Pop | circular_buffer/circular_buffer.h:46-67 | takes the oldest byte; 0 exactly when empty |
| CircularBuffers.CircularBuffer.PushStr | circular_buffer/circular_buffer.h:69-106 | appends the text, growing by exactly what is missing; no push inside is refused |
| CircularBuffers.CircularBuffer.Grow | circular_buffer/circular_buffer.h:73-97 | both layouts keep the contents and their order |
| CircularBuffers.CircularBuffer.ReadInt32 | circular_buffer/circular_buffer.h:108-120 | decodes and drops the four oldest bytes |
| CircularBuffers.CircularBuffer.Retrieve | circular_buffer/circular_buffer.h:122-136 | drops exactly the given number of bytes |
| CircularBuffers.DistanceIsModulo | circular_buffer/circular_buffer.h:144-156 | the byte counter is the index difference modulo the size |
| CircularBuffers.CircularBuffer.RunAll | circular_buffer/circular_buffer.h:25-136 | any run of calls gives the answers and final contents of the bounded queue |
| CircularBuffers.Fifo | circular_buffer/circular_buffer.h:25-136 | over every run, held and put-in bytes are the taken-out ones followed by those left |
| CircularBuffers.AnswerAt | circular_buffer/circular_buffer.h:25-136 | over every run, each call is answered by the queue that the calls before it have left |
| CircularBuffers.OneCall | circular_buffer/circular_buffer.h:25-136 | what a call answers is what it takes out; the ring grows only for a text that does not fit, to be full with it |
| WheelTimers.TimeWheel.AddTimer | wheel_timer.h:58-95 | null for a negative timeout; otherwise a new timer in front of its slot's list, all else kept, whose countdown is 1 for a timeout below SI and else the whole number of SI in it |
| WheelTimers.TimeWheel.DelTimer | wheel_timer.h:97-123 | exactly this timer is gone; all lists stay linked, disjoint and in their slots |
| WheelTimers.TimeWheel.Tick | wheel_timer.h:125-167 | fires exactly the zero countdowns, each once, and lowers all others by one |
| WheelTimers.UnlinkNode | wheel_timer.h:105-122 | head and middle removal keep the slot's list linked both ways |
| WheelTimers.RemainingOfNew | wheel_timer.h:75-77 | rotation and slot encode the number of ticks from any wheel position |
| WheelTimers.RemainingAfterTick | wheel_timer.h:133-166 | one turn of the wheel is one tick of every countdown |
| WheelRuns.RunAll | wheel_timer.h:58-167 | any script of adds, deletions and ticks on a new wheel: the countdowns it holds and the timers each tick fires, each once, are those of the value |
| WheelRuns.FiresOnTime | wheel_timer.h:125-167 | a timer worth k ticks fires in exactly the (k+1)-th later tick, whatever else happens, unless deleted |
| WheelRuns.AddedFiresOnTime | wheel_timer.h:58-77 | the same for one added in the middle of a run, with k from the timeout alone: 1 below SI, else k * SI <= timeout < (k + 1) * SI |
| WheelRuns.StartedFiresOnTime | wheel_timer.h:58-167 | of a run on the wheel itself: the log holds a timer that is not cancelled once at exactly that tick and at no other |
| WheelRuns.DeletedFiresBefore | wheel_timer.h:97-123 | a deleted timer fires only if it was due before the deletion |
| HeapOrder.SiftDownOrders | min_heap_timer.h:179-201 | sifting down restores heap order |
| HeapOrder.SiftUpOrders | min_heap_timer.h:100-113 | sifting up restores heap order |
| HeapOrder.RootIsFirst | min_heap_timer.h:126-133 | the root of an ordered heap expires first |
| MinHeapTimers.TimeHeap.Build | min_heap_timer.h:48-77 | refuses exactly a too small capacity; otherwise a heap of exactly the given timers |
| MinHeapTimers.TimeHeap.AddTimer | min_heap_timer.h:90-114 | heap order and exactly one timer more; the capacity doubles exactly when full; no room is found exactly with capacity 0 |
| MinHeapTimers.TimeHeap.DelTimer | min_heap_timer.h:116-124 | exactly this timer loses its callback and keeps its place |
| MinHeapTimers.TimeHeap.Top | min_heap_timer.h:126-133 | a timer of the heap that expires first; null exactly when it is empty |
| MinHeapTimers.TimeHeap.PopTimer | min_heap_timer.h:135-148 | exactly the root is removed, the last element included |
| MinHeapTimers.TimeHeap.PercolateDown | min_heap_timer.h:179-201 | the hole-based loop is SiftDown |
| MinHeapTimers.TimeHeap.Tick | min_heap_timer.h:150-174 | runs exactly the due, not cancelled callbacks in nondecreasing expiry order and keeps exactly the timers not due |
| ListTimers.SortTimerList.AddTimer | list_timer.h:56-76 | inserted in front of the first later timer; links and tail kept |
| ListTimers.SortTimerList.AddBehind | list_timer.h:175-201 | the same behind a given node |
| ListTimers.SortTimerList.AdjustTimer | list_timer.h:78-105 | where the timer goes in both branches; membership, links and tail kept |
| ListTimers.AdjustmentExact | list_timer.h:78-105 | it is stable re-insertion, and keeps the order, if and only if the timer in front is not later |
| ListTimers.AddedSorted | list_timer.h:67-75 | adding keeps ascending order and puts equal times in order of arrival |
| ListTimers.SortTimerList.DelTimer | list_timer.h:107-141 | exactly this timer is gone, in all four cases |
| ListTimers.SortTimerList.Tick | list_timer.h:143-171 | fires exactly the timers in front of the first one not due |
| TimerSimulation.HeapSimulatesList | min_heap_timer.h:116-174 | over every script of adds, deletes and ticks, each tick of heap and list runs the same callbacks in the same sequence of expiry times |
| TimerRuns.RunBoth | min_heap_timer.h:150-174 | under any script of starts, cancellations, raised times and ticks, heap and list run the same callbacks in every tick, each as often, in the same sequence of times |
| TimerRuns.RunList | list_timer.cpp:213-220 | any such script on a list, raising by adjust_timer: it stays sorted and each tick fires exactly the due timers, each once, in the order of their times |
| TimerRuns.RunHeap | min_heap_timer.h:90-174 | the same of the heap, whose user raises a time by cancelling the timer and adding another |
| TimerRuns.LogsAgree | list_timer.h:143-171 | what a script must fire determines the callbacks as a multiset and the sequence of their times |
| TimerRuns.RaisedHolds | list_timer.h:78-105 | adjusting a timer whose time was raised takes it out of the abstract set and puts it in anew |
| TimerSimulation.HeapTickIsStep | min_heap_timer.h:150-174 | what the heap's tick ensures is a step of that simulation |
| TimerSimulation.ListTickIsStep | list_timer.h:143-171 | what the list's tick ensures is a step of that simulation |
| TimerSimulation.HeapAddIsStep | min_heap_timer.h:90-114 | so is what its add ensures |
| TimerSimulation.HeapDelIsStep | min_heap_timer.h:116-124 | and what its lazy deletion ensures |
| TimerSimulation.ListAddIsStep | list_timer.h:56-76 | the same for the list's add |
| TimerSimulation.ListDelIsStep | list_timer.h:107-141 | and for the list's deletion |
| NetcatRelay.Relayer.HandleStdin | tpc/netcat-nonblock.py:49-64 | the stdin branch, with short and refused writes |
| NetcatRelay.Relayer.HandlePollout | tpc/netcat-nonblock.py:65-77 | the POLLOUT branch |
| NetcatRelay.Relayer.RunAll | tpc/netcat-nonblock.py:37-77 | the two loops are Run of the same poll results |
| NetcatRelay.RelayKeeps | tpc/netcat-nonblock.py:37-77 | in every run an assert fails exactly if a writable socket takes nothing; otherwise accepted ++ pending = read, pending exactly while POLLOUT is armed, and then stdin is not read |
| NetcatRelay.RelayExact | tpc/netcat-nonblock.py:37-77 | from the poll results alone: when it fails, and otherwise that the bytes accepted, as many as the kernel counted, and those pending are all that the handled stdin entries delivered; what stdout shows, when it ends, when the connection is shut down, and when POLLOUT is armed and stdin read |
| NetcatRelay.RelayDelivers | tpc/netcat-nonblock.py:62-64 | a connection shut down for sending has taken all of stdin |
| NetcatRelay.RelayPrints | tpc/netcat-nonblock.py:41-47 | in every run stdout shows the literal of every piece received from the socket, in order |
| NetcatRelay.ForwardedExact | tpc/netcat-nonblock.py:45 | stdout holds the received bytes if and only if nothing was received; it always determines every piece |
| NetcatRelay.LetterQuoted | tpc/netcat-nonblock.py:45 | the received letter a becomes b'a' |
| PythonText.PrintedReadBack | tpc/netcat-nonblock.py:45 | the literals of byte pieces, put behind one another, can be read back in one way only |
| PythonText.EscapedForms | tpc/netcat-nonblock.py:45 | which bytes stand for themselves in the literal, and which take two or four bytes |
| PythonText.ShownForm | tpc/netcat-nonblock.py:45 | the literal is these forms in order between quotes, and which quotes |
| ProcessPools.ProcessPool.Search | half_sync_half_async.h:306-314 | the do-while ends at the first live child behind the counter, or back at a dead one when none is live |
| ProcessPools.ProcessPool.Dispatch | half_sync_half_async.h:303-324 | choice, new counter and stop flag of a connection |
| ProcessPools.ProcessPool.ChildrenExited | half_sync_half_async.h:341-368 | exactly the reaped children are marked; the parent stops exactly when none is left |
| ProcessPools.LiveExactly | half_sync_half_async.h:341-368 | over every run a child is live if and only if it was at the start and its pid has not been reaped |
| ProcessPools.ReapedNotChosen | half_sync_half_async.h:303-356 | a child whose pid has been reaped gets no later connection |
| ProcessPools.ConnectionChoice | half_sync_half_async.h:306-320 | the nearest live child is chosen; the parent stops exactly when all are dead |
| ProcessPools.NoStarvation | half_sync_half_async.h:303-324 | a child that stays live is chosen within as many connections as there are children, whatever exits |
| ProcessPools.FairTurns | half_sync_half_async.h:303-324 | between two successive connections of a child every other child live throughout gets exactly one |
| ProcessPools.StopsWhenAllDead | half_sync_half_async.h:315-368 | over every run the parent has stopped exactly when the last event left no child live |

## Left out

- ClientReadCb: the loop is left after the final close and delete; the original text goes on looping on the freed client there.
- OnMessage: `curSearchPos_` is an offset into the unread bytes, not a pointer, so it survives a move of the buffer's storage.
- GetCommand: hands the key to the store and does not model the reply; the original dereferences a null item for a key that was never stored.
- CommandsExact: is about streams of set, get and quit commands; where a quit comes together with a set that lacks its line end, a bad split shows in the command lines taken up, but not always to the outside (`HiddenLoss`). Between unknown commands a spoiled split may go unnoticed (`SilentLoss`), and for streams with such lines only that clean splits suffice is proved (`ConfluenceExact`).
- Serve: the repository's servers take at most one request from each read (`procmon/procmon.cpp:113-141`), so a further one waits in the buffer until something else arrives; their loop is not part of this model.
- ClientCan: a write to a closed peer fails at once, where a kernel may still take some bytes first; what is exchanged does not turn on it.
- StoreData: hands the item over; the sharded store, which keeps the old item under an existing key, is not part of this model.
- ServerStep: a server that reads a negative length stops, where the original goes on with it; no run of the client gets there, as `Safety` shows.
- ConfigureFormed: covers lengths from 0 on; for a negative one the client writes its length field into an allocation of the wrong size, and within four bytes of 2^31 its message size overflows.
- DelTimer: freeing a timer's memory is removal from the container; callbacks do not touch the container.
- AddTimer: in `ListTimers` the timer is new to the list and unlinked; in `MinHeapTimers` what the original does beyond the end of an array of capacity 0, and 32-bit overflow of the doubled capacity, are not modelled.
- Send: logs what is handed to the connection; that muduo's connection drops what is sent behind a shutdown is not part of this model.
- Perform: a script cancels a timer only while it waits, as in `TimerRuns`; the original's callers must not delete one that has fired.
- HandleStdin: write errors other than EWOULDBLOCK are not modelled (the original then compares None with a number).
- ReadFd: a failed read changes nothing and is not modelled.
- The HTTP drivers, CGI, response rendering, procmon, chargen, the libevent servers and the demo programs: plumbing or straight-line code around the parts above.
- The processpool's child loop and signal set-up: no state beyond the calls they make.
- Failure exits by perror and exit, apart from the outcomes named above.
