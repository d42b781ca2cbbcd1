# Verified model of SoL

SoL is a C++ network library with a logging front end and an early HTTP server. This project models six of its parts in
Dafny and proves properties of the models.

**Calendar and UTC** (`CInt`, `Calendar`, `UtcTime`). Gregorian dates to Julian day numbers and back, with C++ division
and the 32-bit type `int` written out; broken-down UTC time. The calendar's own rules (leap years, month lengths, the
next day) are the reference; the arithmetic is proved to be day counting, and all inverses are proved on the whole
range from 1 March -4800.

**Time zones** (`Zone`, `ZoneRoundTrip`, `TzFile`, `ZoneFileRoundTrip`). The reader of compiled time zone files
(section 3 of RFC 8536, version 1) against an encoder, the binary search over transitions against a definition that
looks back from the end, and the trip to local time and back through the daylight-saving correction.
`::gmtime_r` and `::timegm` are read as flooring UTC conversion and `fromUtcTime`.

**Asynchronous logging** (`LogBuffer`, `AsyncLogModel`, `AsyncLog`). A state machine whose events are the critical
sections of the producers and the steps of the writer; every list of events is a schedule, so that a lemma about all
lists is about all interleavings. `AsyncLog.AsyncLogging` has the real fields and buffers; each of its methods is proved
to make exactly one step of the machine. `waitForSeconds` is read as a wait that releases the mutex, and the log file is
an append-only sink.

**Thread pool** (`ThreadPoolModel`, `ThreadPools`). The same construction for clients, sleeping, running and exiting
workers and both kinds of shutdown, with the ring buffer in `ThreadPools.ThreadPool`. The condition variable may wake
any sleeper on a signal and any other at any time.

**HTTP requests** (`HttpText`, `HttpRequestLine`, `HttpHeaders`, `HttpSession`, `HttpRequest`). The request-line parser,
the header automaton, and the loop that calls them on whatever has arrived, keeping its state from chunk to chunk, against
renderings of requests cut into chunks in any way. `HttpRequest.RequestData` has the real fields and loops.

**Timers and requests** (`TimerModel`, `TimerQueue`). A state machine over the identities of requests and timers, in which
deleting or touching an object that is gone is a fault, and no run has one. `TimerQueue` has request and timer objects
that point to each other; each method of its `Server` is proved to make steps of the machine. The priority queue may
return any timer that no other precedes; the clock does not go back.

**Text and output** (`Numerals`, `LogStreams`, `SocketWrite`). Integers as text in place, the small formatting buffer,
and partial writes against any finite behaviour of the kernel.

Integers are unbounded except where a width is named: the intermediates of `getYearMonthDay`, the casts of `toUtcTime`,
the fields of a time zone file and the 64-bit integers that are printed. Methods have preconditions only where C++ would
have undefined behaviour (an index out of range, an unsorted range for `std::lower_bound`), where a caller would block
on a locked mutex, for steps that another thread's place in its loop makes impossible, and for the invariants of the
state machines (`AsyncLogModel.Balanced`, `TimerModel.Invariant`), which constructors establish and methods keep.

## Findings

Where the code does less than its documentation or its callers could expect, the model follows the code and a theorem
says exactly when it does what is expected.

- Within the calendar's range `tm_yday` is wrong exactly for times before 1 January -4799, because -1 / 4 truncates to 0
  (`UtcTime.DayOfYearField`; 59 instead of 60 for the first second: `UtcTime.YearDayTooSmall`).
- `tm_wday` is negative before Julian day -1, except on Sundays (`UtcTime.WeekDayField`, `UtcTime.WeekDayTooSmall`).
- With transitions more than an hour apart, local times sorted and all dates in the calendar's range, every instant
  survives the trip to local time and back exactly if the only decreases of the offset end daylight saving by one hour
  (`ZoneRoundTrip.RoundTripsExactly`; a table that loses an instant: `ZoneRoundTrip.MoveBackLoses`). For any table with
  sorted UTC and local times, `ZoneRoundTrip.RoundTripsHere` says which instants survive.
- `readTimeZoneFile` reports success for every input. It has read the tables whole exactly if the bytes encode a
  well-formed file, or announce a negative number of types and no transitions (`TzFile.CompleteIffEncoding`); cut short
  anywhere before the end of its designations, a file leaves a part of them (`TzFile.TruncatedLeaves`).
- The log is complete exactly if no batch has more than 25 buffers and no line is longer than a buffer
  (`AsyncLogModel.EverythingThereExactly`; 25 full lines before the writer first runs are too many:
  `AsyncLogModel.TooLate`).
- A second `threadpool_destroy` during shutdown leaves the mutex locked, after which no further worker exits
  (`ThreadPoolModel.SecondDestroyBlocks`; `ThreadPoolModel.SecondDestroyTooSoon` is the shortest such run).
- A POST request line is taken for GET exactly if "GET" occurs anywhere in it (`HttpRequestLine.PostRoundTrip`; "POST
  /GET HTTP/1.1" is refused: `HttpRequestLine.PostForAFileNamedGet`).
- A request that arrives in several chunks is understood exactly if no chunk ends after the first character of the
  headers has come and before the first one of the body has (`HttpSession.RequestRoundTrip`). A chunk that ends inside a
  key makes the next call step outside the content (`HttpSession.CutInsideAKey`), one that ends behind a header puts a
  line feed into the next key (`HttpSession.CutAfterAHeader`).
- After the headers of a request without a body the content is not empty but "\n\r\n" (`HttpHeaders.HeadersRoundTrip`).
- A hard error after a partial write leaves bytes in `sbuff` that were already sent (`SocketWrite.ConservedExactly`,
  `SocketWrite.SentTwice`).

## Model

| member | source | states |
|---|---|---|
| Calendar.NextDayIsNextNumber | base/date.cpp:19-25 | the next day, by leap-year and month-length rules, has the next day number |
| Calendar.JdnCountsDays | base/date.cpp:19-25 | the day number of the date n days after 1 March -4800, counted day by day, is n - 32044 |
| Calendar.StrictlyMonotone | base/date.cpp:19-25 | a date is earlier exactly if its day number is smaller |
| Calendar.DateRoundTrip | base/date.cpp:19-39 | every date from 1 March -4800 on comes back from its day number |
| Calendar.DayNumberRoundTrip | base/date.cpp:27-39 | every day number from -32044 on gives a valid date, the one day counting reaches, and comes back from it |
| Calendar.NoOverflowExactly | base/date.cpp:27-39 | all intermediates fit 32 bits exactly if 4 * (jdn + 32044) + 3 does |
| Calendar.DayOfYear | base/timezone.cpp:280-283 | the difference to 1 January is the sum of the months before plus the day less one, exactly outside the year -4800 |
| Calendar.WeekDayRange | base/date.h:77 | the weekday is within 0 to 6 exactly from day -1 on and on earlier Sundays, and advances by one a day |
| Calendar.WeekDayIsCounted | base/date.h:77 | weekdays count on from Thursday, 1 January 1970, in both directions, with one value left for every day |
| UtcTime.FillHMS | base/timezone.cpp:58-63 | seconds and minutes below 60 that with the hours make up the given seconds; no other field changes |
| UtcTime.ToUtcTime | base/timezone.cpp:262-285 | truncating division, fix-up and narrowing casts give the flooring conversion on the calendar's 32-bit range, negative times included |
| UtcTime.SecondsRoundTrip | base/timezone.cpp:262-298 | fromUtcTime inverts toUtcTime on every second from 1 March -4800 on, and all fields are valid |
| UtcTime.FieldsRoundTrip | base/timezone.cpp:262-298 | toUtcTime inverts fromUtcTime on every valid date and time of day |
| UtcTime.SecondsAreCounted | base/timezone.cpp:287-298 | valid fields are read as whole days counted from 1 March -4800 and the seconds of the day |
| UtcTime.DayOfYearField | base/timezone.cpp:280-283 | tm_yday counts the days since 1 January exactly for times from 1 January -4799 on |
| UtcTime.YearDayTooSmall | base/timezone.cpp:280-283 | for the first second of the range it is 59 where the calendar has 60 |
| UtcTime.WeekDayField | base/timezone.cpp:278 | when tm_wday is a weekday, and that it advances by one a day |
| UtcTime.WeekDayOfTime | base/timezone.cpp:278 | tm_wday is 4 at time 0 and counts on from there, modulo 7 and with the truncated sign before day -1 |
| UtcTime.WeekDayTooSmall | base/timezone.cpp:278 | a time for which tm_wday is -1 |
| UtcTime.EpochDay | base/date.cpp:41 | the epoch constant is the day number of 1 January 1970, whose first second is time 0 |
| Zone.LowerBound | base/timezone.cpp:190-191 | binary search: everything before the result has a smaller key, nothing after it has |
| Zone.FindLocaltime | base/timezone.cpp:182-205 | on a sorted table, in both comparison modes, the type of the transition in force, or the first type before all transitions |
| Zone.ActiveIs | base/timezone.cpp:182-205 | the transition in force is the only index with a key at most the query and a larger one behind it (of equal keys the first) |
| Zone.ActiveIsLast | base/timezone.cpp:182-205 | on a strictly sorted table a transition is at or before the one in force exactly if its key is at most the query |
| ZoneRoundTrip.LocalSorted | base/timezone.cpp:242-250 | transitions more than an hour apart whose decreases end daylight saving have sorted local times |
| ZoneRoundTrip.Searches | base/timezone.cpp:221-260 | which transitions the UTC search, the local search and the trial conversion find, inside and outside a repeated hour |
| ZoneRoundTrip.DstRoundTrip | base/timezone.cpp:221-260 | for such tables every instant survives the trip to local time and back, both passes through a repeated hour included |
| ZoneRoundTrip.OtherDecreaseLoses | base/timezone.cpp:242-260 | any other decrease of the offset loses the instant whose local time is the transition's |
| ZoneRoundTrip.RoundTripsExactly | base/timezone.cpp:221-260 | with transitions more than an hour apart, local times strictly sorted and none before 1 March -4800, all instants with local times from there on survive exactly if every decrease ends daylight saving by one hour |
| ZoneRoundTrip.RoundTripsHere | base/timezone.cpp:221-260 | for any table with strictly sorted UTC and local times, without the hour gap: exactly which instants survive |
| ZoneRoundTrip.MoveBackLoses | base/timezone.cpp:242-260 | a move back by an hour in standard time returns an instant an hour late |
| ZoneRoundTrip.OffsetIsCarried | base/timezone.cpp:221-240 | the fields of a local time, less the offset it carries, are the instant, for every table; the daylight flag is that of the type in force |
| ZoneRoundTrip.SkippedTime | base/timezone.cpp:242-260 | a local time that the clock skips is read with the offset before, and so falls behind the transition |
| ZoneRoundTrip.TimeZone.ToLocalTime | base/timezone.cpp:221-240 | the method with its binary search computes the local time of the specification |
| ZoneRoundTrip.TimeZone.FromLocalTime | base/timezone.cpp:242-260 | the method with its trial conversion computes the instant of the specification |
| TzFile.Be32RoundTrip | base/timezone.cpp:101-107 | the big-endian bytes of a signed 32-bit value read back as that value |
| TzFile.File.ReadBytes | base/timezone.cpp:93-99 | the next n bytes, or a throw if fewer are left |
| TzFile.File.ReadInt32 | base/timezone.cpp:101-107 | the next four bytes as a big-endian signed integer, or a throw |
| TzFile.File.ReadUInt8 | base/timezone.cpp:109-115 | the next byte, or a throw |
| TzFile.ReadTimeZoneFile | base/timezone.cpp:121-180 | for any bytes: the tables at their offsets, how far they are filled when reading stops, and how it stops; always success |
| TzFile.CompleteExactly | base/timezone.cpp:121-180 | reading is whole exactly if the bytes are enough, the counts not negative (of types: or none wanted) and the indices within the types |
| TzFile.CompleteIffEncoding | base/timezone.cpp:121-180 | reading is whole exactly if the bytes are the encoding of a well-formed file, or have a negative type count and no transitions |
| TzFile.UndefinedExactly | base/timezone.cpp:150-170 | reading is undefined exactly at an index behind the types or a negative number of characters; the transitions before it are kept |
| TzFile.TruncatedLeaves | base/timezone.cpp:121-180 | for every length a file may be cut to, exactly which tables are left, and that only the whole file is read whole |
| TzFile.ReadsBack | base/timezone.cpp:121-180 | reading the RFC 8536 encoding of any well-formed tables recovers exactly those tables |
| TzFile.TransitionsAreConsistent | base/timezone.cpp:158-162 | on any bytes every transition's type exists and its local time is its UTC time plus the type's offset |
| ZoneFileRoundTrip.FileRoundTrip | base/timezone.cpp:121-260 | from the encoded file to the zone: under the conditions on its times and offsets every instant survives the round trip |
| ZoneFileRoundTrip.ZoneIsDesignation | base/timezone.cpp:221-240 | the zone of a local time is the designation that the file gives the type in force, up to its NUL |
| LogBuffer.FixedBuffer.Append | base/log_stream.h:23-32 | the whole text if more than its length is available, else what fills the buffer |
| LogBuffer.FixedBuffer.Add | base/log_stream.h:40 | characters written directly behind the position become part of the text |
| AsyncLogModel.AssertsAlwaysHold | base/async_logging.cpp:51-105 | in every interleaving all six asserts of the writer loop hold |
| AsyncLogModel.RunIsBalanced | base/async_logging.cpp:21-39 | in every reachable state a missing nextBuffer_ means a non-empty buffers_, and the writer's spares and batch match its place |
| AsyncLogModel.StepIsBalanced | base/async_logging.cpp:21-111 | every single step keeps that link, so that the methods on real buffers promise it too |
| AsyncLogModel.RunConserves | base/async_logging.cpp:21-111 | in every interleaving batches, buffers_ and currentBuffer_ are all lines in order; output and batch in hand are the rendering of the batches |
| AsyncLogModel.NothingLost | base/async_logging.cpp:56-86 | without an overflow: file, batch in hand, full buffers and current buffer are all lines in order |
| AsyncLogModel.CompleteExactly | base/async_logging.cpp:72-81 | between batches the log is complete exactly if no batch had more than 25 buffers |
| AsyncLogModel.RecordedInFull | base/async_logging.cpp:36 | lines are recorded in full exactly if none is longer than a buffer |
| AsyncLogModel.EverythingThereExactly | base/async_logging.cpp:21-111 | between batches, file and buffers hold every appended character exactly if no batch had more than 25 buffers and no line exceeded a buffer |
| AsyncLogModel.TooLate | base/async_logging.cpp:70-81 | 25 lines of a full buffer each before the writer runs make it drop text |
| AsyncLogModel.RunIsTight | base/async_logging.cpp:21-39 | in every run buffers are closed only when full: neighbours in buffers_ with currentBuffer_ and in every batch hold together a buffer full of text |
| AsyncLogModel.OverflowTakesText | base/async_logging.cpp:72-81 | a batch of more than 25 buffers holds the text of at least 13 full ones; a log that has seen less is complete |
| AsyncLogModel.ShortLinesLeaveRoom | base/async_logging.cpp:23 | lines shorter than a buffer never fill one to the last character |
| AsyncLogModel.EnterDecides | base/async_logging.cpp:51-61 | at its loop head the writer ends exactly if stopped, waits exactly if no buffer is full, and otherwise takes a batch |
| AsyncLogModel.RunningUntilStopped | base/async_logging.cpp:51 | the writer runs until stop is called, and no longer |
| AsyncLogModel.WriterEnds | base/async_logging.cpp:51-111 | after stop the writer takes at most 29 more steps, which end it, and one more batch only if it was waiting |
| AsyncLog.AsyncLogging.Append | base/async_logging.cpp:21-39 | a line that fits goes into the current buffer; for another the next buffer, or failing that a new one, takes its place; one step of the machine, keeping single ownership |
| AsyncLog.AsyncLogging.OwnersAreSingle | base/async_logging.cpp:45-69 | no buffer has two owners |
| AsyncLog.AsyncLogging.Enter | base/async_logging.cpp:51-64 | loop head with its three asserts, then the wait or the exchange: one step of the machine |
| AsyncLog.AsyncLogging.Swap | base/async_logging.cpp:62-67 | the exchange of buffers under the lock: one step of the machine |
| AsyncLog.AsyncLogging.Trim | base/async_logging.cpp:70-81 | the notice and the two buffers kept of an overflowing batch |
| AsyncLog.AsyncLogging.Write | base/async_logging.cpp:83-86 | one buffer goes to the file |
| AsyncLog.AsyncLogging.Recycle | base/async_logging.cpp:88-107 | resize, the two guarded recyclings with their asserts, and clear: the writer ends with two distinct empty spares |
| ThreadPoolModel.Reachable | Examples/Ver0.1/threadpool.cpp:127-212 | in every run tasks leave in order and are with one worker or have returned, and the protocol invariant holds |
| ThreadPoolModel.NoLostWakeUp | Examples/Ver0.1/threadpool.cpp:163-190 | outside immediate shutdown a waiting task has a worker that is alive and not asleep; after shutdown nobody sleeps; the queue stays within its size |
| ThreadPoolModel.GracefulDrains | Examples/Ver0.1/threadpool.cpp:145-194 | under graceful shutdown, once any worker has exited, all accepted tasks were taken once in order, and none is accepted or taken later |
| ThreadPoolModel.GracefulRunsAll | Examples/Ver0.1/threadpool.cpp:187-208 | when all workers have exited after a graceful shutdown, every accepted task has returned exactly once |
| ThreadPoolModel.AcceptedExactly | Examples/Ver0.1/threadpool.cpp:140-163 | a task is accepted, behind all others, exactly if the mutex is free, the pool open and the queue not full; else nothing changes |
| ThreadPoolModel.AddResults | Examples/Ver0.1/threadpool.cpp:145-156 | which of the three results comes when; a full queue comes before a shutdown |
| ThreadPoolModel.AddsFillThePool | Examples/Ver0.1/threadpool.cpp:145-163 | an open pool takes exactly as many tasks as it has room for, with no turn of a worker in between |
| ThreadPoolModel.SignalWakesOne | Examples/Ver0.1/threadpool.cpp:163 | a signal wakes one sleeper if there is one, and nobody else |
| ThreadPoolModel.DestroyEffect | Examples/Ver0.1/threadpool.cpp:14-37 | the first destroy sets the kind of shutdown asked for, wakes every sleeper and changes nothing else |
| ThreadPoolModel.ImmediateTakesNothing | Examples/Ver0.1/threadpool.cpp:187-194 | after an immediate shutdown no task is taken, however the run goes on |
| ThreadPoolModel.JoinsFinish | Examples/Ver0.1/threadpool.cpp:27-45 | after shutdown the workers have exactly a computed number of turns left; all have exited exactly when they have taken them, and until then some worker is awake and none asleep |
| ThreadPoolModel.QueueIsWorkedOff | Examples/Ver0.1/threadpool.cpp:183-210 | in an open pool left alone, a worker is awake exactly until the computed number of turns is taken; then all sleep and every accepted task was taken in order and has returned once |
| ThreadPoolModel.SecondDestroyBlocks | Examples/Ver0.1/threadpool.cpp:19-36 | after a second destroy all workers can exit exactly if they already have |
| ThreadPoolModel.SecondDestroyTooSoon | Examples/Ver0.1/threadpool.cpp:19-36 | one worker, destroyed twice before it has exited: it never exits |
| ThreadPools.RingPush | Examples/Ver0.1/threadpool.cpp:142-160 | writing at the tail of the ring appends a task and touches no other |
| ThreadPools.RingPop | Examples/Ver0.1/threadpool.cpp:196-199 | the head of the ring is the oldest task, and advancing it drops exactly that |
| ThreadPools.ThreadPool.Create | Examples/Ver0.1/threadpool.cpp:79-125 | null exactly for sizes out of bounds or if locks or a thread cannot be made, else an empty pool with all workers ready |
| ThreadPools.ThreadPool.Add | Examples/Ver0.1/threadpool.cpp:127-174 | full before shutting down, else enqueue and signal: one step of the machine on the ring |
| ThreadPools.ThreadPool.WorkerStep | Examples/Ver0.1/threadpool.cpp:183-210 | one turn of a worker: sleep, exit, take the oldest task, or return: one step of the machine on the ring |
| ThreadPools.ThreadPool.Destroy | Examples/Ver0.1/threadpool.cpp:14-37 | shutdown and broadcast the first time; the second time an error with the mutex left locked |
| HttpRequestLine.GetRoundTrip | Examples/Ver0.1/HttpData.cpp:284-356 | a rendered GET line parses back to its parts without the query |
| HttpRequestLine.PostRoundTrip | Examples/Ver0.1/HttpData.cpp:284-356 | a rendered POST line is taken as POST exactly if it does not contain "GET", and then parses back to its parts |
| HttpRequestLine.PostForAFileNamedGet | Examples/Ver0.1/HttpData.cpp:284-356 | the line "POST /GET HTTP/1.1" is refused as a GET line |
| HttpRequestLine.LineAcceptedExactly | Examples/Ver0.1/HttpData.cpp:284-356 | a line is accepted exactly if it has a verb and from there on a slash, a space, a slash and one of the two versions |
| HttpRequestLine.ShapedIsAccepted | Examples/Ver0.1/HttpData.cpp:284-356 | what verb, file name and version an accepted line gives |
| HttpRequestLine.FeedIsOfTheStream | Examples/Ver0.1/HttpData.cpp:143-173 | feeding chunks comes to what parsing the first line of the whole stream comes to |
| HttpRequestLine.ChunkingIsIrrelevant | Examples/Ver0.1/HttpData.cpp:143-173 | any two ways of cutting the stream give the same verdict, fields and remaining bytes |
| HttpHeaders.CallIsDefinedExactly | Examples/Ver0.1/HttpData.cpp:359-473 | a call never leaves the string, whatever the content, exactly if it does not start inside a header |
| HttpHeaders.HeadersRoundTrip | Examples/Ver0.1/HttpData.cpp:359-473 | rendered headers give exactly their map, the last duplicate winning, if no value exceeds 256 bytes, else an error; the rest is the body exactly if there is one |
| HttpHeaders.FlawIsRefused | Examples/Ver0.1/HttpData.cpp:378-456 | a key that ends with the line, a colon without a space, a CR without LF: an error wherever it stands, with the headers before it kept and the content untouched |
| HttpHeaders.BlanksAreSkipped | Examples/Ver0.1/HttpData.cpp:369-377 | CR and LF in front of the first header are passed over |
| HttpSession.ReceiveFeedsTheLine | Examples/Ver0.1/HttpData.cpp:148-176 | over any chunks the loop comes to the feeding of the request line, then header calls that start with the bytes behind it |
| HttpSession.InsideForever | Examples/Ver0.1/HttpData.cpp:174-186 | once a chunk has ended inside a header, the headers are never done |
| HttpSession.StateAfterHeaders | Examples/Ver0.1/HttpData.cpp:187-194 | once the headers are done, a POST request waits for its body and any other is answered |
| HttpSession.RequestRoundTrip | Examples/Ver0.1/HttpData.cpp:143-195 | a rendered request in chunks gives its method, file name, version, next state, header map and body exactly if it has a header, no value exceeds 256 bytes, a POST line has no "GET", and no chunk ends between the first header character and the first byte of the body |
| HttpSession.CutInsideAKey | Examples/Ver0.1/HttpData.cpp:359-473 | two chunks that make a header call step outside the content |
| HttpSession.CutAfterAHeader | Examples/Ver0.1/HttpData.cpp:359-473 | two chunks that store a key with a line feed in front |
| HttpRequest.RequestData.ParseUri | Examples/Ver0.1/HttpData.cpp:269-357 | waits for a whole line, takes it off the content and sets the fields of the line |
| HttpRequest.RequestData.HandleInput | Examples/Ver0.1/HttpData.cpp:157-195 | one pass of the reading loop over what was read: the request line, then in the same pass the headers |
| HttpRequest.RequestData.Receive | Examples/Ver0.1/HttpData.cpp:143-195 | passes over the chunks until the headers are done or an error ends the request |
| HttpRequest.RequestData.ParseHeaders | Examples/Ver0.1/HttpData.cpp:359-473 | the loop over the automaton on the object's state |
| TimerModel.RunKeeps | Examples/Ver0.1/main.cpp:76-161 | in every run request and timer links are mutual inverses, nothing is touched or deleted after it is gone, live timers are queued once, and deleted means without request |
| TimerModel.HandedSurvive | Examples/Ver0.1/main.cpp:123-126 | a request given to the thread pool is never deleted by the main loop, however the run goes on |
| TimerModel.RoundsRemoveOnlyDue | Examples/Ver0.1/main.cpp:141-161 | a sweep of any number of rounds removes only timers that were deleted or had expired, and only requests whose timer goes; nothing that stays expires before what went |
| TimerQueue.Timer.IsValid | Examples/Ver0.1/HttpData.cpp:610-624 | valid exactly if the clock has not reached the expiry; otherwise the timer is marked deleted and keeps its request |
| TimerQueue.Request.SeparateTimer | Examples/Ver0.1/HttpData.cpp:124-131 | the request has no timer, and the timer it had no request, is marked deleted and expires as before |
| TimerQueue.Server.DestroyRequest | Examples/Ver0.1/HttpData.cpp:82-97 | exactly this request is gone and no longer watched; its timer has no request and is marked deleted: the destructor of the machine |
| TimerQueue.Server.DestroyTimer | Examples/Ver0.1/HttpData.cpp:592-601 | exactly this timer is gone, and with it exactly the request it still had: the destructor of the machine |
| TimerQueue.Server.Poll | Examples/Ver0.1/main.cpp:196-207 | the reported requests are the batch to handle and no longer watched: one step of the machine |
| TimerQueue.Server.Accept | Examples/Ver0.1/main.cpp:82-94 | a new watched request and a new queued timer that point to each other, and nothing else: one step of the machine |
| TimerQueue.Server.AcceptConnection | Examples/Ver0.1/main.cpp:76-95 | as many such pairs as connections wait |
| TimerQueue.Server.HandleEvents | Examples/Ver0.1/main.cpp:103-129 | over a batch with the listening socket anywhere in it: each request with an error is deleted, each other one handed over without a timer, by a run of the machine |
| TimerQueue.Server.HandleExpired | Examples/Ver0.1/main.cpp:141-161 | the sweep ends; what is left expires after the last clock reading, what left the queue was deleted or had expired and is gone |
| TimerQueue.Server.Serve | Examples/Ver0.1/main.cpp:196-209 | one round of the main loop is a run of the machine and leaves only timers that expire later |
| Numerals.DecimalReadsBack | base/log_stream.cpp:31-48 | the text of every integer reads back as it and has no superfluous zeros |
| Numerals.CanonicalIsNumeral | base/log_stream.cpp:31-64 | no other canonical text reads as the same number |
| Numerals.TextIsShort | base/log_stream.cpp:80-97 | every 64-bit integer takes at most 20 characters, every pointer at most 16 digits |
| Numerals.Convert | base/log_stream.cpp:31-48 | in place: the decimal text and a NUL, and nothing else changes |
| Numerals.ConvertHex | base/log_stream.cpp:50-64 | in place: the hexadecimal text and a NUL, and nothing else changes |
| LogStreams.LogStream.FormatInteger | base/log_stream.cpp:92-97 | the number goes in whole while 32 characters are left; no write falls outside the buffer |
| LogStreams.LogStream.AppendPointer | base/log_stream.cpp:139-149 | the same for pointers with their prefix |
| LogStreams.NothingLostExactly | base/log_stream.cpp:92-149 | after any operations the text fits the buffer, and it is everything put in exactly if it all fitted |
| LogStreams.TextFills | base/log_stream.h:23-32 | text that does not fit fills the buffer to the last character |
| LogStreams.NumberWholeOrNot | base/log_stream.cpp:92-97 | a number goes in whole, or with less than 32 characters left not at all |
| LogStreams.PointerReadsBack | base/log_stream.cpp:139-149 | a pointer is a prefix and canonical hexadecimal digits that read back as it |
| SocketWrite.Output.Append | net/Util.cpp:148-180 | queued bytes wait behind those that already do: one step of the run |
| SocketWrite.Output.Writen | net/Util.cpp:148-180 | sends what the kernel takes, keeps the rest; on a hard error returns -1 and keeps all of the buffer: one step of the run |
| SocketWrite.CallStops | net/Util.cpp:154-174 | which replies a call uses: it goes on after bytes taken and interruptions, stops when all is sent or the kernel would block or fails, and sends what those replies take |
| SocketWrite.ConservedExactly | net/Util.cpp:148-180 | over any run of appends and calls, sent bytes then buffer are all bytes queued and the results add up, exactly if no call failed hard after a partial write |
| SocketWrite.SentTwice | net/Util.cpp:164-170 | a kernel that takes one byte of two and then fails: the byte is sent and still queued |

## Left out

- Sockets, epoll, files, memory mapping and logging of errors: operating-system calls, replaced by parameters or nondeterministic choices.
- TzFile.ReadTimeZoneFile: does not model memory exhaustion for huge counts; an unchecked index or a negative string length ends reading as undefined.
- Zone.FindLocaltime: requires a sorted table, since std::lower_bound is undefined otherwise.
- AsyncLogModel: the last buffers at the time of stop are not claimed to reach the file, because the writer does not drain them; the time stamp in the notice is not modelled.
- ThreadPools.ThreadPool.Create: the workers that were started before a thread could not be made are not followed.
- ThreadPoolModel: failing calls on the mutex and the condition, the counter of started threads and freeing the pool.
- HttpHeaders.HeadersRoundTrip: speaks of one call; what several calls come to is `HttpSession.RequestRoundTrip`.
- HttpRequest: the answer to a request, MIME types, a failing read, and the wait for a body announced by its length.
- ZoneRoundTrip.TimeZone.FromLocalTime: reads ::timegm as fromUtcTime, which does not bring a month outside 0 to 11 into range as ::timegm does; times that toLocalTime gives have none.
- TimerQueue.Server.HandleEvents: a full thread pool is ignored there as in the code, so that handing over always succeeds.
- SocketWrite.Output.Writen: kernel behaviours are finite lists of replies; an endless row of interruptions is not modelled.
- Floating-point formatting, snprintf, strftime and Fmt: library behaviour.
- net/EventLoop.cpp, net/Timer.cpp, readn and the pointer version of writen: easier than their counterparts here.
- The Ver0.2 tree and the stand-alone examples: copies or drivers of the files modelled.
