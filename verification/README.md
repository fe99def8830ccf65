# A verified model of the multithreaded HTTP server

The project models the server's four connected parts in Dafny and proves what holds of them for every
input, every interleaving and every reachable state.

- **Threads.** `BlockingQueue` holds the bounded queue as a class. `ThreadPool` runs any number of workers,
  any number of producers calling `submit` and one thread calling `shutdown` as an interleaved step system:
  each critical section and each atomic operation is one step, `notify_one` wakes any one sleeper, and
  spurious wakeups may happen at any time. `PoolShutdown` draws the consequences: nobody sleeps through work,
  and `shutdown` runs every accepted task exactly once, precisely when no `submit` is caught between its test
  of `stopped_` and its push. `PeakGauge` does the same for the compare-exchange loop of the peak gauge.
- **The server.** `Server` puts the accept loop and the client handlers on top of the pool, one atomic
  operation at a time, with sockets and metrics. Every step of it is a step of the pool or leaves the pool
  alone, so the pool's theorems carry over. `ServerRuns` states what holds in every run: sockets closed once,
  the connection gauge, outcome accounting, termination of the shutdown. `ServerScenarios` constructs runs that
  exist: every worker busy, every ending of a request, a refusal, a leak.
- **Messages.** `Text`, `Sections`, `Fields` and `ContentLength` are the string operations, and `TextLaws` and
  `ParserLaws` say what they and the parser do with any text at all;
  `HttpParser` and `Receive` are the parser and the socket loop, `RequestPrinter` a canonical printer that the
  parser undoes. `HttpResponse` builds and prints responses and reads them back; `Router` dispatches;
  `Connection` closes the loop from received bytes to bytes on the wire.
- **Paths.** `Percent` and `Paths` are the two string loops of the static file handler, related to sections
  2.1 and 5.2.4 of RFC 3986.

A `string` stands for a `std::string`, one character for one byte. Loops of the source are methods proved
against recursive functions, and the theorems are about those functions. Sockets appear as sequences of
receive and send events, unordered maps as an arbitrary order in which their keys are walked, and anything
the operating system or the standard library decides is a parameter.

Where the code and its documents differ the model follows the code. docs/design-decisions.md:15 says that
requests queue up rather than being rejected; the code refuses with 503 when the queue is full
(src/tcp_server.cpp:122-131). docs/architecture.md:116 places the count of open connections in the worker;
the code counts in the accept thread (src/tcp_server.cpp:105). The length scan accepts a sign, because
`stoull` does (src/http_parser.cpp:85), although section 8.6 of RFC 9110 allows digits only. A HEAD answer for a
file carries length 0 (src/router.cpp:18-33), although section 9.3.2 of RFC 9110 asks for the header of GET.

Four properties fail in general, and each has a failing run or input and its exact condition: draining
(`PoolShutdown.DrainExactCondition`), closing every socket (`ServerRuns.ClosedExactCondition`), the outcome
balance (`ServerRuns.BalanceExactCondition`) and independence of the chunking
(`Receive.ChunkingExactCondition`, `Receive.InterruptionsExactCondition`).

## Model

| member | source | states |
|---|---|---|
| BlockingQueue.BoundedBlockingQueue.constructor | include/server/blocking_queue.hpp:14-15 | a new queue is empty, open and keeps its capacity |
| BlockingQueue.BoundedBlockingQueue.Push | include/server/blocking_queue.hpp:17-25 | refuses exactly when full, leaving the queue alone and signalling nobody; otherwise appends at the back and signals one sleeper |
| BlockingQueue.BoundedBlockingQueue.WaitAndPopAttempt | include/server/blocking_queue.hpp:27-41 | a thread holding the mutex takes the front item and signals one sleeper, or quits when the flag is set and the queue empty, or sleeps |
| BlockingQueue.BoundedBlockingQueue.TryPop | include/server/blocking_queue.hpp:43-51 | takes the front item if there is one, whatever the flag says, and never sleeps |
| BlockingQueue.BoundedBlockingQueue.Shutdown | include/server/blocking_queue.hpp:53-59 | sets the flag, keeps the items and asks for a broadcast |
| ThreadPool.StepKeepsBalanced | include/server/thread_pool.hpp:68-87 | every step of every thread keeps, for each task, popped = run + held by a worker |
| ThreadPool.StepKeepsNoLostWakeup | include/server/blocking_queue.hpp:17-41 | every step keeps: while anyone sleeps there are at least as many notified workers as queued tasks |
| ThreadPool.StepKeepsGaugeExact | include/server/thread_pool.hpp:75-85 | every step keeps `active_workers_` equal to the workers between their increment and decrement |
| ThreadPool.StepKeepsInv | include/server/thread_pool.hpp:29-87 | every step of every thread keeps the whole invariant: FIFO and bound, exactly once, wakeups, gauge, phases of shutdown |
| ThreadPool.ReachableInv | include/server/thread_pool.hpp:16-87 | the invariant holds in every state reachable with any capacity, thread count and number of producers |
| PoolShutdown.PoolKeepsItsSize | include/server/thread_pool.hpp:16-27 | in every reachable state there are as many workers as were asked for, two if none was, and the queue has the given capacity |
| PoolShutdown.AllWorkersBusy | include/server/thread_pool.hpp:16-87 | for every positive capacity some run has all of them inside a task at once |
| PoolShutdown.FifoEverywhere | include/server/blocking_queue.hpp:17-51 | in every reachable state accepted tasks are the popped ones followed by the queue, and the queue is within capacity |
| PoolShutdown.GaugeEverywhere | include/server/thread_pool.hpp:62-64 | in every reachable state 0 <= `active_workers_` <= pool size, so `idle_workers` cannot underflow |
| PoolShutdown.WakeupsCoverQueue | include/server/blocking_queue.hpp:17-41 | in every reachable state with a sleeper, queued tasks are at most the notified workers that have not resumed |
| PoolShutdown.NoWorkSleptThrough | include/server/blocking_queue.hpp:17-41 | in every reachable state before the flag with a non-empty queue some worker has a step of its own, without a spurious wakeup |
| PoolShutdown.SleepersExact | include/server/blocking_queue.hpp:17-59 | every step's effect on the number of sleepers: an accepted push and a pop wake one if there is one, a spurious wakeup one, the broadcast all, an attempt on an empty open queue adds one, no other step changes it |
| PoolShutdown.SpuriousHarmless | include/server/blocking_queue.hpp:27-41 | a spurious wakeup with nothing to do can happen to any sleeper and leads back to the very same state |
| PoolShutdown.NoSleepAfterBroadcast | include/server/blocking_queue.hpp:53-59 | in every run after the broadcast of `shutdown` no worker is ever asleep again |
| PoolShutdown.DrainExactlyOnce | include/server/thread_pool.hpp:29-49 | if no submit is in flight when `stopped_` is set, then in every run, when `shutdown` returns, every accepted task has run exactly once, nothing was accepted meanwhile, the queue is empty and all workers have exited |
| PoolShutdown.ShutdownDecreases | include/server/thread_pool.hpp:36-49 | once the flag is set every step of a worker or of `shutdown`, spurious wakeups included, strictly decreases a measure of the work left |
| PoolShutdown.ShutdownNeverStuck | include/server/thread_pool.hpp:36-87 | once the flag is set, until `shutdown` returns some thread has an enabled step |
| PoolShutdown.RunBounded | include/server/thread_pool.hpp:36-87 | so every run after the flag without a producer's step, together with the work left at its end, is at most as long as the work left at its start |
| PoolShutdown.DrainRun | include/server/thread_pool.hpp:36-87 | so from every such state a run without the producers reaches the end with an empty queue |
| PoolShutdown.OverlapLosesTask | include/server/thread_pool.hpp:29-49 | a submit caught past its test of `stopped_` has a run in which its task is accepted and has not run in the state in which `shutdown` returns |
| PoolShutdown.DrainExactCondition | include/server/thread_pool.hpp:29-49 | every interleaving has run every accepted task once when `shutdown` returns, and ever after, if and only if no submit is in flight when `stopped_` is set, or the capacity is zero |
| PeakGauge.PeakIsHighest | include/server/metrics.hpp:29-42 | for any interleaving of paired opens and closes, with spurious compare-exchange failures, the peak never exceeds the highest value of the gauge, equals it when no open is under way, and never goes down |
| PeakGauge.GaugeIsOpensMinusCloses | include/server/metrics.hpp:29-42 | in every run, paired or not, the gauge is opens minus closes, and the value the peak is compared with is its maximum over the run |
| PeakGauge.RetryNarrows | include/server/metrics.hpp:32-37 | a retry forced by another thread strictly raises the locally seen peak, so the loop ends |
| PeakGauge.SpuriousFailureHarmless | include/server/metrics.hpp:32-37 | a compare-exchange that fails for no reason changes nothing |
| PeakGauge.OpenAloneExact | include/server/metrics.hpp:29-38 | an undisturbed open keeps the peak right if and only if the gauge was at least -1 before it |
| PeakGauge.StrayClosePoisonsPeak | include/server/metrics.hpp:29-42 | two unpaired closes make the next open raise the peak above every value the gauge had, through the unsigned cast |
| Server.StepRefinesPool | src/tcp_server.cpp:85-234 | every step of the server is a step of the pool or leaves the pool unchanged |
| Server.RunRefinesPool | src/tcp_server.cpp:57-66 | every run of the server contains a run of the pool |
| Server.PoolReachable | src/tcp_server.cpp:57-66 | the pool inside a reachable server state is a reachable pool state |
| Server.StepKeepsPlaced | src/tcp_server.cpp:105-234 | every step keeps each accepted socket in exactly one place: main thread, queue, worker, handler, closed or leaked |
| Server.StepKeepsAccounted | src/tcp_server.cpp:148-230 | every step keeps the balance of requests and refusals against recorded outcomes |
| Server.StepKeepsInv | src/tcp_server.cpp:85-234 | every step of every thread keeps the server's whole invariant |
| Server.ReachableInv | src/tcp_server.cpp:57-234 | the invariant holds in every reachable state of the server |
| ServerRuns.ServerKeepsItsSize | src/tcp_server.cpp:57-60 | in every reachable state workers, handlers and the reported thread count are the configured number, two for zero, and the queue has the configured capacity |
| ServerRuns.NeverStopsUnasked | src/tcp_server.cpp:85-103 | in every run the accept loop is left and the pool shut down only after a stop request |
| ServerRuns.FailedAcceptHarmless | src/tcp_server.cpp:94-103 | a failed accept while the server runs leads, by the next loop test, back to the very state in which accept was called; after a stop request it leaves the loop |
| ServerScenarios.AllWorkersBusy | src/tcp_server.cpp:85-143 | for every positive capacity some run of the server has every configured worker inside a handler at once |
| ServerScenarios.RefusalRun | src/tcp_server.cpp:118-141 | with the queue full, or when submit throws before or after its test, the next connection is refused and the accept loop is back where it was, with one more socket closed, one more refusal and server error counted and the pool untouched |
| ServerScenarios.EveryEnding | src/tcp_server.cpp:145-234 | for each way a request can end there is a run in which the first connection ends that way: counted as it should be, closed, uncounted, and its worker back for more |
| ServerScenarios.EscapesFromBlocksOnly | src/tcp_server.cpp:161-231 | a foreign exception can leave a handler from inside its try or catch block and from nowhere else |
| ServerRuns.ActiveConnectionsBounded | src/tcp_server.cpp:105-141 | `active_connections_` is exactly what is being submitted, rejected, queued, handled or was leaked; it is never negative and at most capacity + workers + 1 + leaks |
| ServerRuns.ClosedAtMostOnce | src/tcp_server.cpp:129-140 | in every reachable state no socket has been closed twice or both closed and leaked, and only accepted ones are closed |
| ServerRuns.EverySocketClosed | src/tcp_server.cpp:145-234 | after shutdown each accepted socket was closed exactly once or leaked by an escaping exception, the gauge equals the leaks, and nothing leaked exactly when every socket was closed once |
| ServerRuns.ClosedExactCondition | src/tcp_server.cpp:105-234 | in every run open connections are between zero and capacity + pool size + 1 + the exceptions that escaped a handler; after shutdown they equal those escapes, and every accepted socket was closed exactly once if and only if no exception escaped (exceptions that are caught, early or late, do no harm) |
| ServerScenarios.LeakingRun | src/tcp_server.cpp:223-234 | for every positive capacity and every thread count a run that ends with shutdown returned, a socket leaked and the gauge above zero |
| ServerRuns.OutcomesBalance | src/tcp_server.cpp:122-230 | in every reachable state requests + refusals + late failures = successes + client errors + server errors + empty + lost + unclassified |
| ServerRuns.BalanceExactCondition | src/tcp_server.cpp:122-230 | from a state in balance, requests + refusals = successes + client errors + server errors + empty + unclassified in every state of a run if and only if no step records a failure after an outcome or escapes before one; and at its end if and only if there are as many steps of the one kind as of the other |
| ServerScenarios.UnbalancedRun | src/tcp_server.cpp:199-225 | for every positive capacity and every thread count a run that loses the balance: an exception after the recorded outcome is counted again |
| ServerRuns.OutcomesFinal | src/tcp_server.cpp:122-230 | after shutdown the counters add up with nothing under way |
| ServerRuns.CountersCountEvents | include/server/metrics.hpp:20-23 | in every run each counter is the number of its own events, and the history counters of late failures and lost requests are the numbers of theirs |
| ServerRuns.TameRunsAddUp | src/tcp_server.cpp:122-230 | so in every run whose exceptions are caught and come before the outcome is recorded the balance holds at every step |
| ServerRuns.ReportAddsUp | include/server/metrics.hpp:83-85 | in every reachable state the reported active and idle workers add up to the worker threads, however stale the gauge |
| ServerRuns.GaugeWasReal | src/tcp_server.cpp:116 | in every run the stored worker gauge is a value the pool's own gauge had in that run |
| ServerRuns.SampleIsStored | src/tcp_server.cpp:116 | it is the value read for the connection at hand, whatever other threads do between reading and storing |
| ServerRuns.RefusedOnlyWhenFull | src/tcp_server.cpp:119-131 | the accept loop's submit is never turned away by `stopped_`; it returns false exactly when the queue was full, leaving it unchanged |
| ServerRuns.NoSubmitAtShutdown | src/tcp_server.cpp:62-65 | no submit is in flight in any reachable state from which the pool is shut down |
| ServerRuns.ShutdownDrains | src/tcp_server.cpp:62-66 | when the shutdown has returned, all workers have exited, the queue is empty and every accepted connection was handled once, so nothing can touch the pool after it is reset |
| ServerRuns.ShutdownShrinks | src/tcp_server.cpp:65-234 | once the flag is set every step of the server but a further stop request strictly decreases the work left |
| ServerRuns.ShutdownNeverStuck | src/tcp_server.cpp:65-234 | until the shutdown has returned some thread of the server can move without a spurious wakeup |
| ServerRuns.RunBounded | src/tcp_server.cpp:65-234 | so after the flag every run of the server takes at most that many steps |
| ServerRuns.ShutdownRun | src/tcp_server.cpp:65-234 | and from every such state a run reaches the end of the shutdown |
| Text.StoullReads | src/http_parser.cpp:85 | what is read from a printed number with or without sign and followed by anything: its value, its negation modulo 2^64, or an exception above 2^64 - 1 |
| TextLaws.LowerLetters | src/http_parser.cpp:70 | exactly the letters A to Z change, each to its small letter |
| TextLaws.NextWordFirst | src/http_parser.cpp:42-43 | extracting words from a stream takes the words of the text, split at whitespace, in order |
| TextLaws.TrimmedIs | src/http_parser.cpp:134-138 | the two trims drop the spaces and tabs around a text, but leave spaces and tabs alone as they are |
| TextLaws.StoullExactly | src/http_parser.cpp:83-89 | what `stoull` reads from any text, by its whitespace, sign, digits and rest: an exception without digits or above 2^64 - 1, negation modulo 2^64 behind a minus sign |
| TextLaws.NumberPartsExist | src/http_parser.cpp:83-89 | every text has such parts, so that covers every value |
| ContentLength.SkipIrrelevant | src/tcp_server.cpp:287-293 | the two copies of the scan, which start the search for the line end at different places, agree |
| ContentLength.DeclarationStable | src/http_parser.cpp:72-89 | once a value has been read further bytes do not change it |
| ContentLength.BlockNeverCut | src/http_parser.cpp:73-76 | in a complete header block the inner guard always holds |
| HttpParser.LowerCase | src/http_parser.cpp:70 | the lower-casing loop changes exactly the letters A to Z |
| HttpParser.CollectHeaders | src/http_parser.cpp:58-64 | the header loop keeps the lines up to the first empty one, without carriage returns |
| HttpParser.ParseRequestLine | src/http_parser.cpp:30-64 | request line and headers as specified, with the fields filled in so far on each error path |
| HttpParser.ReadBody | src/http_parser.cpp:66-107 | the body rules as specified, with every error path |
| HttpParser.ParseRequest | src/http_parser.cpp:9-109 | the whole parser computes its specification |
| ParserLaws.ParseExactly | src/http_parser.cpp:9-109 | for any bytes: Incomplete without a blank line, HeaderTooLarge above the limit; otherwise Malformed iff the first line has fewer than three words or its third does not start with HTTP/ or the length is unreadable, BodyTooLarge iff the length is over the limit, Incomplete iff bytes are missing; and method, path, version and body as the text has them |
| ParserLaws.DeclaredExactly | src/http_parser.cpp:70-89 | the declared length is what `stoull` reads from the first field that spells Content-Length in any casing |
| ParserLaws.BuiltExactly | src/http_parser.cpp:111-121 | the built request has kind GET, POST or HEAD exactly when the method is that word, and its other parts as parsed |
| ParserLaws.HeadersExactly | src/http_parser.cpp:58-64 | for any request that parses, a key is in the header map iff a header line before the first empty one has that name before its first colon, and the last such line gives its trimmed value |
| HttpParser.Build | src/http_parser.cpp:111-144 | the loop over header lines builds the specified request |
| HttpParser.GetHeader | include/server/http_request.hpp:42-53 | in any walking order: the first match up to case; empty if there is none, otherwise the value of a name that agrees |
| HttpParser.LookupFinds | include/server/http_request.hpp:42-53 | if all matching names carry one value, it is found in whatever order they are walked |
| HttpParser.BodyHasDeclaredLength | src/http_parser.cpp:73-101 | a successful parse whose block names Content-Length has a body of exactly the declared length, within the limits |
| HttpParser.ParseStable | src/http_parser.cpp:15-108 | Malformed, HeaderTooLarge and BodyTooLarge results, and successes naming Content-Length, are unchanged in every field by appended bytes |
| HttpParser.ParseAbsorbs | src/http_parser.cpp:103-105 | any other success changes by exactly the appended bytes, in its body |
| RequestPrinter.TrimExact | src/http_parser.cpp:134-138 | a printed header value is read back unchanged if and only if it is non-empty and has no blank at either end |
| RequestPrinter.PrintedParses | src/http_parser.cpp:9-109 | the parse of a printed request succeeds with its method, path, version, header lines and body |
| RequestPrinter.RequestRoundTrip | src/http_parser.cpp:9-144 | parsing and building a printed request gives back method, path, version, header map and body |
| RequestPrinter.UndeclaredRoundTrip | src/http_parser.cpp:9-144 | the same for requests that name no length, whatever their body |
| RequestPrinter.KindIs | src/http_parser.cpp:118-121 | the kind of the rebuilt request by its method as written |
| RequestPrinter.LookupIgnoresCase | include/server/http_request.hpp:42-53 | if names are distinct ignoring case, printing, parsing, building and looking up finds each field's value under any casing of its name, in whatever order the map is walked |
| Receive.RecvRequestLoop | src/tcp_server.cpp:255-319 | the nested receive loops compute their specification on every sequence of events |
| Receive.FinishReceiving | src/tcp_server.cpp:276-312 | what happens once a blank line has arrived, on every exit |
| Receive.ReadOn | src/tcp_server.cpp:302-308 | the body loop computes its specification |
| Receive.ReceivesExactly | src/tcp_server.cpp:255-319 | for every sequence of events, without the loops: the bytes gathered up to the first event at which the receive stops are returned (before the blank line at the header limit, an end or a failure; after it when nothing is missing or at anything but data), and otherwise it waits |
| Receive.HeadReads | src/tcp_server.cpp:260-318 | what is returned is a prefix of the stream: all of it, or over the header limit without a blank line, or in need of nothing more |
| Receive.ChunkingIrrelevant | src/tcp_server.cpp:255-319 | for every ended stream whose header block fits the limit and names Content-Length or ends the stream, every chunking gives the parse of the whole stream, with interruptions anywhere but between the header and the end of the declared body |
| Receive.ChunkingExactCondition | src/tcp_server.cpp:255-319 | for streams whose header fits, every delivery in chunks of 1 to 4095 bytes gives the same parse if and only if the block names Content-Length, or nothing follows it, or its head is malformed |
| Receive.CompleteRequestReceived | src/tcp_server.cpp:255-319 | if the stream starts with a complete request naming its length, the receive returns without waiting for the end and parses to the same result |
| Receive.InterruptedBodyIsCut | src/tcp_server.cpp:302-305 | for a declared length, a part of a request parses like the whole if and only if it needs nothing more or the whole is refused too |
| Receive.InterruptionsExactCondition | src/tcp_server.cpp:255-319 | for every well delimited ended stream and interruptions anywhere, what is received parses like the whole stream if and only if no interruption falls between the header and the end of the declared body or the whole stream is refused |
| Receive.InterruptionSafeExactly | src/tcp_server.cpp:255-319 | a stream whose header fits survives every chunking with interruptions anywhere if and only if it is refused or carries no body |
| Receive.ReceiveBounded | src/tcp_server.cpp:255-319 | for every sequence of events the buffer is at most max_header_size + max_body_size + 2 * 4095 bytes, and the receive has returned once the stream ends, fails or delivers more than that many data events |
| HttpResponse.SetHeaderKeepsFramed | include/server/http_response.hpp:46-48 | a clean header keeps the response framed if and only if it does not spell Content-Length in any casing, or is Content-Length with the body's length |
| HttpResponse.SetBodyFrames | include/server/http_response.hpp:50-53 | setting the body makes Content-Length its length whatever it was before |
| HttpResponse.FactoriesFrame | include/server/http_response.hpp:94-151 | every factory yields a framed response with the given status and body |
| HttpResponse.NotAllowedFrames | include/server/http_response.hpp:122-130 | so does the 405 factory, with or without an Allow list |
| HttpResponse.UnavailableFrames | include/server/http_response.hpp:153-159 | so does the 503 factory |
| HttpResponse.SettersExactCondition | include/server/http_response.hpp:44-53 | over any sequence of setter calls with clean headers a framed response stays framed throughout if and only if no call sets a Content-Length, in any casing, that contradicts the body |
| HttpResponse.LastSettingWins | include/server/http_response.hpp:44-53 | after any sequence of setter calls status and body are the last ones set |
| HttpResponse.LastHeaderWins | include/server/http_response.hpp:46-53 | and a header has the value given by the last call that sets it |
| HttpResponse.ResponseRoundTrip | include/server/http_response.hpp:59-80 | for every walking order of the header map, reading the printed text at its first blank line gives back status, reason, the same map and the exact body |
| HttpResponse.StatusOnTheWire | include/server/http_response.hpp:10-35 | every status reads back as its code and reason, written out |
| HttpResponse.MadeOnTheWire | include/server/http_response.hpp:94-151 | a response made by a factory reads back with its status, body and exactly three headers |
| HttpResponse.BuiltRoundTrip | include/server/http_response.hpp:39-159 | after a factory and any setter calls that do not contradict the body's length, in every walking order, the receiver sees the last status, the last body, the header map and one Content-Length, the body's |
| HttpResponse.HttpResponse.constructor | include/server/http_response.hpp:39-42 | the new response's value |
| HttpResponse.HttpResponse.SetStatus | include/server/http_response.hpp:44 | only the status changes |
| HttpResponse.HttpResponse.SetHeaderField | include/server/http_response.hpp:46-48 | only that header changes, and framing is kept |
| HttpResponse.HttpResponse.ReplaceBody | include/server/http_response.hpp:50-53 | body and Content-Length change together, and framing is kept |
| HttpResponse.HttpResponse.Print | include/server/http_response.hpp:59-80 | the printing loop, in any walking order, builds the text that the round trip is about |
| HttpResponse.MakeOk | include/server/http_response.hpp:94-99 | the setter calls of the factory build the specified value |
| Router.AddRouteExact | src/router.cpp:14-16 | registering a route changes that entry of the nested map and no other |
| Router.LastRegistrationWins | src/router.cpp:14-16 | after any sequence of registrations a method and path reach the handler of their last one |
| Router.UnregisteredStays | src/router.cpp:14-16 | what was never registered is not found |
| Router.DefaultTableExactly | src/router.cpp:48-159 | exactly the ten methods and eight paths of the default table are registered |
| Router.FixedPagesOnTheWire | src/router.cpp:134-159 | GET and HEAD of /hello and /health read back as 200 with their literal text or none |
| Router.PagesReached | src/router.cpp:48-145 | the other GET pages reach their own handlers |
| Router.EchoRegistered | src/router.cpp:48-159 | in the default table /echo answers to POST with the echo handler and to no other method |
| Router.EchoAnswers | src/router.cpp:18-46 | a POST to /echo is answered 200 with the request's body, any other method there 405 |
| Router.AllowListsMethods | src/router.cpp:35-43 | a 405 answer's Allow header reads back as exactly the registered methods, in any walking order |
| Router.FilesOnlyForGetAndHead | src/router.cpp:18-33 | the answer depends on the files if and only if the path is not in the table and the method is GET or HEAD |
| Router.UnknownPathOnTheWire | src/router.cpp:18-33 | a path outside the table, with no file or a method other than GET and HEAD, reads back as 404 Not Found with its headers and body |
| Router.FileAnswers | src/router.cpp:20-30 | with a file, GET is answered with the file itself, HEAD with its status, an empty body and length 0 |
| Router.HeadVersusGet | src/router.cpp:20-30 | outside the table HEAD is answered with GET's status and headers apart from Content-Length, and with all of GET's headers if and only if no file is found or the file is empty |
| Router.HandleFramed | src/router.cpp:18-46 | every answer of the router has a Content-Length equal to its body's length |
| Router.DefaultRoutesFramed | src/router.cpp:48-159 | the default table meets the condition for that |
| Router.Router.constructor | include/server/router.hpp:17-19 | a new router has no routes |
| Router.Router.Add | src/router.cpp:14-16 | the table update |
| Router.Router.AllowedMethods | src/router.cpp:37-41 | the loop joins the methods in the order walked |
| Router.Router.Dispatch | src/router.cpp:18-46 | dispatch as specified, on every branch |
| Connection.SendAll | src/tcp_server.cpp:236-253 | true means every byte is on the wire in order; otherwise the wire holds a prefix |
| Connection.SendExactly | src/tcp_server.cpp:236-253 | for every sequence of send events: success iff the peer takes all bytes before any failure, giving up iff a failure comes first, waiting otherwise, with exactly the bytes taken on the wire |
| Connection.SentInFull | src/tcp_server.cpp:236-253 | the same for every pattern of partial sends and interruptions |
| Connection.RefusalOnTheWire | src/tcp_server.cpp:122-131 | a refusal for a full queue is below 2^31 bytes and, if the peer takes it, in any pieces and with interruptions, is sent and reads back as 503 with its four headers and body, in any header order |
| Connection.EveryAnswerReadable | src/tcp_server.cpp:161-231 | whatever bytes arrive, with or without an exception before the outcome, an answer is sent and an outcome recorded except when nothing arrived; the answer reads back with one correct Content-Length, code 500 after an exception and 400 or 413 with its own text if the request does not parse; the outcome is the class of the code |
| Connection.FilesEndToEnd | src/tcp_server.cpp:161-209 | from the bytes of a request for a path outside the table: GET gets the file as it is, HEAD its status and headers with no body and length 0, everything else 404 |
| Connection.EchoEndToEnd | src/tcp_server.cpp:161-253 | a printed POST /echo request in any chunking, parsed, routed, printed in any header order and sent in any pieces to a peer that takes them, is sent in full and reads back as 200 with the body's length and exactly the body |
| Connection.EchoRequestPrintable | src/router.cpp:149-151 | for every body the plain echo request meets the conditions of that theorem |
| Connection.EchoRequestDeliverable | src/tcp_server.cpp:260-275 | and it can be delivered within those conditions |
| Percent.UrlDecode | src/static_file_handler.cpp:98-118 | the index loop computes its specification and never lengthens its input |
| Percent.HexDigitsAre | src/static_file_handler.cpp:103-107 | the hexadecimal digits and their values, written out |
| Percent.PlainRules | src/static_file_handler.cpp:98-118 | at the front of any text plus gives a space, and every character but plus and percent stays |
| Percent.EscapeRules | src/static_file_handler.cpp:98-118 | percent with two digits gives their byte, with junk whatever the number parser makes of it, with fewer than two characters behind it stays |
| Percent.DecodeUndoesEncode | src/static_file_handler.cpp:98-118 | decoding undoes every percent encoding that escapes at least percent and plus, in either letter case, however junk escapes are treated |
| Percent.EncodingExact | src/static_file_handler.cpp:98-118 | for every way a number parser can read junk, every byte string survives encoding and decoding if and only if plus is escaped, and so is percent or else every hexadecimal digit |
| Percent.DecodeConcat | src/static_file_handler.cpp:98-118 | decoding distributes over concatenation at escape boundaries |
| Percent.DecodeNeverLengthens | src/static_file_handler.cpp:98-118 | decoding never lengthens |
| Paths.ScanComponents | src/static_file_handler.cpp:129-144 | the scan with an accumulator equals the fold of a component stack over the split path |
| Paths.JoinParts | src/static_file_handler.cpp:146-150 | the joining loop computes its specification |
| Paths.NormalizePath | src/static_file_handler.cpp:120-153 | the whole loop equals the specification |
| Paths.NormalizedShape | src/static_file_handler.cpp:120-153 | the output has no leading slash, NUL or backslash and no empty, dot or dot-dot component |
| Paths.NormalizeIdempotent | src/static_file_handler.cpp:120-153 | normalizing twice is normalizing once |
| Paths.NormalizeVersusRfc3986 | src/static_file_handler.cpp:120-153 | for absolute paths without NUL, backslash or empty segments, remove_dot_segments is a slash and the normalized path, plus a slash exactly when the last segment is a dot segment and something is left |
| Paths.NormalizeExactly | src/static_file_handler.cpp:120-153 | for every path: nothing if only NULs and separators are left, otherwise remove_dot_segments of the path without NULs, with backslashes as slashes, runs of slashes as one and none at the ends, up to the final slash |
| Paths.SeparatorsAlike | src/static_file_handler.cpp:120-153 | anywhere in a path a doubled slash or a backslash is a slash, a NUL is nothing, and so is a slash at the end |

## Left out

- Connection.SendAll: covers data below 2^31 bytes only, because the source narrows the remaining length to `int`.
- PeakGauge.PeakIsHighest: gauges are unbounded integers apart from the signed-to-unsigned cast, because reaching 2^63 open connections is out of reach of the queue bound.
- Receive.ChunkingExactCondition: says nothing of header blocks above max_header_size, where the error depends on the chunking.
- Counters and gauges do not wrap at 64 bits.
- Bytes sent, latency, uptime, queue-size gauge and the JSON text of the metrics: no clock, no floating point, no property here depends on them.
- C++ memory orders: every atomic operation and critical section is one sequentially consistent step.
- Socket setup, signals, the unsynchronised listening socket, receive timeouts (an expired timeout is an interruption event).
- The thread pool's destructor calling `shutdown` a second time, which returns at once because `stopped_` is set.
- Connection.EveryAnswerReadable: leaves out the wire after an exception that follows the recorded outcome, where a second answer may follow the first.
- Percent.EncodingExact: assumes of stream number parsing only that it needs a digit and does not start at a percent sign.
- Exceptions inside the catch block of `handle_client` after the failure has been recorded, and in the refusal path of the accept loop.
- Filesystem access of the static file handler and the page, work and metrics handlers: their answers are parameters.
- The decoded value of escapes that are not two hexadecimal digits: a parameter, because it depends on stream number parsing.
- Lower-casing of bytes above 127, taken as the identity of the C locale.
- The default constructor, `headers_map_get` and `method_to_string` helpers, MIME table, configuration, logger and browser code.
