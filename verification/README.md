# Models of the agent's hard algorithms

This project models, in Dafny, the parts of the eBPF agent where correctness is not obvious from
reading one function, and proves what they are for. `dafny verify dfyconfig.toml` checks all of it.

| file | what it models |
|---|---|
| `Text.dfy`, `Hex.dfy`, `Wrappers.dfy` | first occurrence, trimming, lexical order; hexadecimal numerals and `strtoul`; an option type |
| `Multipart.dfy`, `MultipartSplit.dfy`, `MultipartCut.dfy`, `MultipartRefusal.dfy`, `MultipartRoundTrip.dfy`, `MultipartDisposition.dfy` | the incremental multipart/form-data parser over its sliding buffer, when cutting its input does not matter and exactly when it does, what refusing callbacks do, the serializer it inverts, and the expression on header lines (section 5.1.1 of RFC 2046) |
| `Stream.dfy`, `Chunked.dfy`, `ChunkedGrammar.dfy`, `ChunkedRoundTrip.dfy` | the read-ahead socket stream, the small-buffer line reader, the chunked reader with the grammar it accepts, and the chunked writer (section 4.1 of RFC 7230) |
| `ThreadPool.dfy` | the server's worker pool: enqueue, wait, dequeue, shutdown, join |
| `ClientSocket.dfy`, `ClientConnections.dfy` | the client's in-flight socket protocol: nested `send`, closes in mid-request, `stop`; and what becomes of its connections |
| `Traverser.dfy`, `JoinedFlags.dfy` | clipp's explicit-stack tree traverser and its joined-flag matcher |
| `Base64.dfy`, `Base64Laws.dfy`, `Base64Accumulator.dfy` | the grouping encoder with line feeds, the decoder, the buffer size, more than one encoding in a row, and the bit-accumulator encoder (section 5.2 of RFC 1341) |
| `Ksyms.dfy`, `DsoSymbols.dfy` | the kernel symbol table with its growing arenas, and the two-level address lookup |
| `Latency.dfy`, `LatencyRuns.dfy` | the block latency tracer's maps, its integer logarithm and the histogram printer; and which completions of a run are counted as what |
| `Query.dfy`, `QueryDecoding.dfy`, `QueryText.dfy`, `QueryExact.dfy` | percent-encoding and what decoding makes of any text, the printing and parsing of parameter lists, and exactly which lists come back (section 2.1 of RFC 3986, section 3 of RFC 3629) |
| `Seccomp.dfy` | the compiler from an allow list to a classic BPF program, and an interpreter for its output |

Code that updates fields, buffers or arrays step by step is a class or a method with loops; each such
method is proved equal to a function or one step of a machine, and the properties are lemmas about
those. The two concurrent protocols are machines whose steps are the critical sections; the lemmas
speak of every interleaving, and every critical section in `ThreadPoolObject` and `ClientImpl` is
shown to be one step of its machine. Bytes are characters below 256 or `bv8`; the wrap-around of
`size_t`, `u64` and `u32` is written out where it matters. What the code calls and the
repository does not define is nondeterministic: `recv` and `send` take any positive part of what they
could, or fail; `realloc` may fail; callbacks may refuse.

## What the code does and its description does not say

Each of these is a lemma with the exact condition or a concrete input.

- The limit on header line length is looked at only when the parser enters the header state, so
  whether a line at or over the limit passes depends on how the body is cut (`SplitExact`, with
  `LimitDependsOnSplit` and `LineEndSplit`), and what follows the closing mark is dropped in the same
  call but read in the next one (`ClosedAgain`).
- A call in the opening state that does not see the whole opening line drops its bytes (`OpeningDiscards`).
- Content that contains the delimiter is cut short there; `Post` does not look for it (`RoundTripExact`).
- Names are printed as they are, so one that holds a quotation mark is read back only if the rest of the
  line does not already match behind it (`PrintedLineRead`).
- The chunked reader stops with success behind a chunk exactly if its data is followed by a line that is
  not a line end (`StrayBytesAccepted`); a provider call that ends on an empty piece makes the writer
  stop with success without the end marker (`WriterReader`).
- When shutdown() returns all jobs have run exactly if none was enqueued when no worker was left
  (`AllJobsRun`); such a job is never started (`LateJobStranded`, `NoWorkerStranded`, `LateRun`).
- A request honours a `stop()` that came in its course exactly if no nested `send` has begun since
  (`FlagExact`, `StopExact`); a connection may be left open then (`StopForgotten`).
- The comment on `common_flag_prefix` promises a prefix of all flags, but parameters whose own prefix is
  empty are left out of it (`PrefixIsCommon`). The joined-flag loop ends on every argument exactly if
  the prefix is itself a flag or does not begin with one (`TerminationExact`), which such a group may
  break (`MixedDiverges`).
- `undo` does not bring back alternatives of outer groups that `skip_alternatives` has removed
  (`UndoRestores`).
- The first address of a mapping is attributed to no file (`FirstAddressMissed`).
- Query keys are printed as they are but decoded when parsed, and repeated pairs are dropped
  (`DecodeKeeps`, `QueryRoundTripExact`).
- The seccomp prologue returns ALLOW for every call of the matching architecture, before the number it
  has just loaded is compared (`FilterVerdict`, `PrologueDecides`). `SectionVerdict` is about the
  appended rules alone.

## Model

| member | source | states |
|---|---|---|
| Text.Trim | include/httplib.h:2152-2161 | the two scans move independently, the left one up to the end of the text and the right one down to its start, and stop at the first non-blank |
| Text.TrimmedEnds | include/httplib.h:2152-2166 | a trimmed text has no blank and no tab at its ends |
| Text.TrimIs | include/httplib.h:2152-2166 | trimming takes nothing but blanks and tabs off the two ends |
| Text.TrimAdded | include/httplib.h:2163-2166 | trimming undoes one added leading blank if and only if the text has no blanks at its ends |
| Text.FindFirst | include/httplib.h:3987-4008 | the search result is an occurrence, nothing occurs before it, and it is the length of the text if and only if there is no occurrence |
| Text.LexIs | src/trace_helpers.c:99-100 | one name precedes another if and only if it is a beginning of it or has the lower byte where they first differ |
| Multipart.MultipartFormDataParser.SetBoundary | include/httplib.h:3829-3833 | both delimiters follow the boundary; nothing else changes |
| Multipart.MultipartFormDataParser.StartWith | include/httplib.h:3968-3977 | true if and only if the pattern stands at the front of the given range |
| Multipart.MultipartFormDataParser.StartWithCaseIgnore | include/httplib.h:3947-3954 | prefix comparison on lower-cased characters |
| Multipart.MultipartFormDataParser.BufFind | include/httplib.h:3987-4008 | the scan for a first character, a comparison and a resumption one further returns the first occurrence in the unread bytes, or their number |
| Multipart.MultipartFormDataParser.BufAppend | include/httplib.h:4010-4026 | the unread bytes afterwards are those before followed by the new data; the buffer never shrinks |
| Multipart.MultipartFormDataParser.ShiftDown | include/httplib.h:4010-4018 | copying down byte by byte inside one buffer keeps the unread bytes although source and target may overlap |
| Multipart.MultipartFormDataParser.BufErase | include/httplib.h:4028-4028 | drops exactly that many unread bytes |
| Multipart.MultipartFormDataParser.ParseHeaderLine | include/httplib.h:3877-3887 | the part information becomes what the line says, Content-Type first, Content-Disposition otherwise |
| Multipart.MultipartFormDataParser.EndHeaders | include/httplib.h:3866-3874 | the empty line announces the part and starts its content; a refusal ends the call with an invalid body |
| Multipart.MultipartFormDataParser.ParseHeaders | include/httplib.h:3862-3893 | the loop over header lines refines the machine: same lines consumed, the length limit looked at once on entry, same result when it stops |
| Multipart.MultipartFormDataParser.ParseBody | include/httplib.h:3894-3916 | one turn of the body state is the machine step: content up to the delimiter, or all but a delimiter length; it calls the receiver with exactly that, once, or not at all |
| Multipart.MultipartFormDataParser.ParseBoundary | include/httplib.h:3917-3933 | one turn of the boundary state is the machine step: next part, closing mark with the epilogue dropped, or wait |
| Multipart.MultipartFormDataParser.ParseOpening | include/httplib.h:3849-3856 | one turn of the opening state is the machine step |
| Multipart.GoLowers | include/httplib.h:3847-3936 | a turn that goes on uses bytes up or leaves the entry state, so the loop of parse ends |
| Multipart.MultipartFormDataParser.ParseBytes | include/httplib.h:3837-3938 | the whole of parse over the sliding buffer equals the machine run on unread bytes followed by the new ones, and terminates; the callbacks are called with exactly the headers and pieces of that run, in order |
| MultipartRefusal.ParseRefused | include/httplib.h:3837-3938 | for any callbacks: a call of parse that succeeds was refused nothing; a refusal ends it with failure and an invalid body, nothing is handed over afterwards, and what was refused stays unread |
| MultipartRefusal.RefusedContent | include/httplib.h:3905-3914 | in the body state without a delimiter in sight a refused piece, all but a delimiter length, makes the call fail and leaves every byte unread |
| MultipartRefusal.TakenAsAccepted | include/httplib.h:3837-3938 | a run in which nothing is refused is the run of callbacks that never refuse |
| MultipartRefusal.RefusedIsPrefix | include/httplib.h:3837-3938 | what any callbacks are handed is a beginning of what callbacks that never refuse would be |
| MultipartSplit.GoExtends | include/httplib.h:3847-3936 | a turn that makes progress does the same when more bytes stand behind, except that the closing mark swallows them |
| MultipartSplit.WaitExtends | include/httplib.h:3847-3936 | a turn that waits for bytes can be resumed later with the same outcome, unless the resumed header line is over the limit |
| MultipartSplit.HandedLater | include/httplib.h:3894-3916 | handing over a delimiter-free prefix of the content now or later makes no difference |
| MultipartSplit.PrefixAccepted | include/httplib.h:3837-3938 | under the header limit every prefix of an input is accepted and what follows still respects the limit |
| MultipartSplit.SplitParse | include/httplib.h:3837-3938 | on arbitrary bytes: parse(a) then parse(b) ends like parse(a + b) in phase, unread bytes, part information, validity and concatenated output, for accepting callbacks and headers under the limit, unless the closing mark was complete in a |
| MultipartCut.SplitExact | include/httplib.h:3837-3938 | for accepting callbacks, any state past the opening line and any two pieces: one call and two end in the same verdict and state if and only if the cut does not matter, that is unless the first call was refused between the CR and LF of a line of 8192 bytes, or the closing mark is complete and what follows does not begin with another one, or the first call rests on a header line that follows another one read in the same go and turns out to exceed 8192 bytes; once the first call is refused the second never runs, and otherwise one call is refused in the same state with the second piece unread |
| MultipartCut.LimitDependsOnSplit | include/httplib.h:3862-3893 | an input of the last kind: accepted in one call, refused in two |
| MultipartCut.LineEndSplit | include/httplib.h:3862-3893 | an input of the first kind: a first header line of 8192 bytes is accepted in one call and refused when its line end is cut in two |
| MultipartCut.RefusedExact | include/httplib.h:3862-3893 | more bytes behind a refused call change nothing, unless they complete a line end that was cut in two; then the refusal is gone or comes later, after a part has been announced |
| MultipartCut.CutLoses | include/httplib.h:3862-3893 | where cutting exposes a line to the limit the second call refuses it, and one call accepts or gets on to the next part first |
| MultipartCut.ClosedAgain | include/httplib.h:3917-3933 | bytes behind a complete closing mark, given to a further call, leave the parser as it was if and only if there are none or they begin with another closing mark |
| MultipartSplit.BodyRetention | include/httplib.h:3894-3916 | when parse returns in the body state at most one delimiter length is left unread |
| MultipartSplit.OpeningDiscards | include/httplib.h:3849-3856 | a call in the opening state leaves the parser as it was if and only if the data does not contain the whole opening line |
| MultipartSplit.PiecesAreOne | include/httplib.h:3837-3938 | any number of successive calls end like one call with the concatenation, when the closing mark completes only at its end |
| MultipartRoundTrip.CheckBoundary | include/httplib.h:6753-6758 | accepts exactly the boundaries of letters, digits, hyphen and underscore |
| MultipartRoundTrip.Post | include/httplib.h:6750-6780 | the body that is built is the serialization of the items, or the boundary is refused |
| MultipartRoundTrip.DelimiterFound | include/httplib.h:3987-4008 | a delimiter whose first character does not recur in it cannot overlap itself: behind delimiter-free content the first occurrence is the one that was written |
| MultipartRoundTrip.HeaderRun | include/httplib.h:3858-3893 | from the start of a serialized part the parser reaches its content with the announced fields |
| MultipartRoundTrip.ContentRun | include/httplib.h:3894-3916 | from there it hands over exactly the content and stops behind the delimiter |
| MultipartRoundTrip.InnerRun | include/httplib.h:3837-3938 | the same for any number of parts in a row, in order |
| MultipartRoundTrip.SerializedClosesLast | include/httplib.h:3917-3933 | no proper prefix of a serialized body is already complete |
| MultipartRoundTrip.RoundTrip | include/httplib.h:3837-3938 | parsing undoes serializing for every non-empty item list and every splitting whose first piece holds the opening line: headers, then contents, in order, valid at the end, nothing left unread |
| MultipartRoundTrip.RoundTripExact | include/httplib.h:6750-6780 | what is delivered is what was serialized if and only if no content contains the delimiter |
| MultipartSplit.OutputGrows | include/httplib.h:3837-3938 | the callbacks only ever receive more, and outside the body the next thing they receive is a header |
| MultipartRoundTrip.AnnouncedFields | include/httplib.h:3877-3887 | the announced content type is the item's if and only if it has no blanks at its ends; name and filename are those the line expression yields, empty if it does not match |
| MultipartRoundTrip.UnknownLineIgnored | include/httplib.h:3877-3887 | a header line that is neither a content type nor matched by the expression might as well not be there |
| MultipartDisposition.PrintedLineRead | include/httplib.h:3841-3843 | the expression reads a printed line back if and only if neither name holds a line end or a quotation mark behind which the rest already matches |
| MultipartDisposition.PlainNamesReadBack | include/httplib.h:6764-6767 | names without quotation marks and line ends do |
| MultipartDisposition.AnnouncedExact | include/httplib.h:3877-3887 | a part is announced as it was given if and only if its names read back and its content type has no blanks at its ends |
| MultipartDisposition.ItemsComeBack | include/httplib.h:6750-6780 | the application gets back the very items that were serialized if and only if all names read back, no content type has blanks at its ends and no content holds the delimiter |
| Stream.SocketStream.ReadBuffered | include/httplib.h:4685-4696 | a read served from the read-ahead buffer delivers its next bytes |
| Stream.SocketStream.ReadFresh | include/httplib.h:4698-4719 | a read served from the socket, through the buffer when it is short, delivers the next bytes that come |
| Stream.SocketStream.Read | include/httplib.h:4676-4720 | delivered bytes followed by pending ones stay the same sequence, whatever sizes recv returns: none lost, doubled or reordered |
| Stream.LineReader.Append | include/httplib.h:2240-2251 | the line grows by one byte, in the fixed buffer, on overflow moving to the growable one, or there |
| Stream.LineReader.GetLine | include/httplib.h:2214-2238 | takes exactly the next line, newline included, or all that is left at the end of the stream; fails on a failing read or an empty stream |
| Stream.LineEnds | include/httplib.h:2214-2238 | such a line is the part of the stream up to its first newline |
| Hex.FromIToHex | include/httplib.h:1921-1929 | the digits put in front one by one are the numeral of the number |
| Hex.ValueOfHex | include/httplib.h:1921-1929 | reading a written numeral gives the number back |
| Hex.ToHexCanonical | include/httplib.h:1921-1929 | a written numeral is in lower case and has no leading zero |
| Hex.ReadsHex | include/httplib.h:3414-3417 | strtoul with base 16 reads a written size up to what follows it |
| Hex.StrtoulReads | include/httplib.h:3414-3414 | strtoul with base 16 takes white space, a sign, an optional 0x in front of digits, and digits: too large numbers are ULONG_MAX, others are negated modulo 2^64 |
| Hex.StrtoulRefuses | include/httplib.h:3416-3416 | without a digit there is no number |
| Chunked.ReadContentWithLength | include/httplib.h:3349-3369 | hands over exactly the next len bytes in whatever pieces they arrive, or fails when the stream ends, a read fails or the callback refuses; then a beginning of them has been handed over, and nothing after a refusal |
| Chunked.ReadData | include/httplib.h:3421-3430 | one chunk of data and the lines after it, as the decoder on byte strings says |
| Chunked.ReadChunk | include/httplib.h:3410-3438 | one turn of the loop, from the size line to the next one or to the end |
| Chunked.ReadContentChunked | include/httplib.h:3401-3439 | for every fragmentation the reader computes the decoder of all pending bytes: result, payload and what is left; if a read fails or the callback refuses it fails, with a beginning of that payload handed over and nothing after a refusal |
| ChunkedGrammar.AcceptsExactly | include/httplib.h:3401-3439 | the decoder accepts exactly the texts of the chunk grammar and delivers what they carry: chunks whose size line gives their length and whose data a line end follows, up to a size line 0 with a line end, or to a chunk that another line follows |
| ChunkedRoundTrip.OutStream.WriteData | include/httplib.h:3538-3546 | partial sends add up to the data, or a failure is reported |
| ChunkedRoundTrip.DataSink.Put | include/httplib.h:3631-3653 | a non-empty piece becomes one chunk, an empty one sends nothing and marks the data as ended; after a failed send nothing happens any more |
| ChunkedRoundTrip.DataSink.Finish | include/httplib.h:3655-3683 | the end marker is sent and the data are marked as ended, unless a send has failed before |
| ChunkedRoundTrip.Provide | include/httplib.h:3687-3688 | any sequence of writes and end declarations in one provider call sends their chunks and markers in order, or a send has failed |
| ChunkedRoundTrip.WriteContentChunked | include/httplib.h:3622-3700 | the loop over provider calls sends the bytes and gives the result that the calls determine, unless sending fails |
| ChunkedRoundTrip.RoundTrip | include/httplib.h:3401-3439 | decoding inverts encoding for arbitrary payload bytes, any cutting into pieces and any bytes of a next message behind |
| ChunkedRoundTrip.DecodeChunks | include/httplib.h:3411-3430 | chunks in front of any other bytes are taken off and their payload is delivered first |
| ChunkedRoundTrip.WriterReader | include/httplib.h:3622-3700 | for any grouping of the pieces into provider calls the reader delivers their concatenation with success if and only if no call before the last one ends on an empty piece |
| ChunkedRoundTrip.WriterSucceeds | include/httplib.h:3687-3700 | the writer reports success if and only if the data came to an end, or the server to shutting down, before the provider gave up |
| ChunkedRoundTrip.LastActDecides | include/httplib.h:3631-3683 | whether data are still expected after a provider call is decided by its last write or end declaration |
| ChunkedRoundTrip.ActedJoin | include/httplib.h:3631-3683 | what a provider call does later is sent behind what it did before |
| ChunkedRoundTrip.StrayBytesAccepted | include/httplib.h:3421-3430 | behind any number of chunks, one whose data is followed by stray bytes ends the body with success and the rest unread if and only if the stray bytes begin with a line that is not a line end |
| ChunkedRoundTrip.DecodeStray | include/httplib.h:3421-3430 | what the reader does behind the data of a chunk: fail without a line, stop with success on any line but a line end, go on behind a line end |
| ThreadPool.StepInv | include/httplib.h:533-601 | every atomic step of any thread keeps the invariants |
| ThreadPool.Fifo | include/httplib.h:545-588 | over every interleaving the started jobs followed by the queue are the enqueued sequence, and each started job is with one worker or finished |
| ThreadPool.NeverAllAsleep | include/httplib.h:545-583 | a non-empty queue with a sleeping worker always has an awake worker that can go on: no wake-up is lost |
| ThreadPool.NothingStarts | include/httplib.h:545-588 | from a state without workers no run starts anything, and its queue only grows |
| ThreadPool.AllJobsRun | include/httplib.h:551-564 | for every number of workers: when shutdown has joined them all, every enqueued job has been started and finished if and only if none was enqueued when no worker was left |
| ThreadPool.TooLateIsAfterShutdown | include/httplib.h:545-564 | in a pool with workers a job can come too late only after shutdown has begun |
| ThreadPool.LateJobStranded | include/httplib.h:545-564 | a job enqueued when no worker is left is started in no run that follows |
| ThreadPool.NoWorkerStranded | include/httplib.h:535-564 | a pool without workers starts nothing in any run |
| ThreadPool.LateRun | include/httplib.h:545-564 | a run in which a job comes too late |
| ThreadPool.ShutdownProgress | include/httplib.h:551-588 | once all have been notified no worker sleeps, and until all have exited one of them can go on |
| ThreadPool.RankFalls | include/httplib.h:567-588 | every worker step then lowers a measure |
| ThreadPool.ShutdownBounded | include/httplib.h:551-588 | so shutdown takes a bounded number of steps |
| ThreadPool.ThreadPoolObject.EnqueueJob | include/httplib.h:545-549 | one step of the machine: the job goes to the end and a sleeper, if any, is woken |
| ThreadPool.ThreadPoolObject.RaiseShutdown | include/httplib.h:553-556 | one step: the flag is raised |
| ThreadPool.ThreadPoolObject.TakeJob | include/httplib.h:573-583 | one step: the first queued job is taken, or the worker sleeps or leaves; the job is the oldest one not started |
| ClientSocket.StepInv | include/httplib.h:5980-6067 | every step keeps: in-flight count equals the activations between their critical sections, a positive count has the request mutex holder recorded as its thread; no executed assertion fails |
| ClientSocket.RunSafe | include/httplib.h:5980-6067 | over every interleaving of nested sends, closes in mid-request and stops: no assertion fails and the count is the sends begun and not ended |
| ClientSocket.FromIdle | include/httplib.h:5912-5942 | the same from a fresh client: the count equals begun less ended sends, is never negative, and when positive belongs to the mutex holder |
| ClientSocket.ClosedByUserOnly | include/httplib.h:6976-6997 | a step that closes or replaces a socket in use is taken by the thread using it, and is never stop() |
| ClientSocket.FlagExact | include/httplib.h:5983-5989 | in every run without a further stop() the flag is still set at the end if and only if it was set and no send has begun |
| ClientSocket.StopExact | include/httplib.h:6045-6060 | after stop() during a request, the end of a request that would keep its connection closes it if no send has begun since, and otherwise leaves the socket as it is |
| ClientSocket.StopHonoured | include/httplib.h:6984-6992 | while no send begins the first end of a request closes the socket, and it stays closed |
| ClientSocket.StopForgotten | include/httplib.h:5986-5988 | the run that shows what is lost: after a nested send a connection is still open when the outermost request has returned, whether the old socket looked alive or a new one was opened |
| ClientConnections.EndExact | include/httplib.h:6045-6060 | the end of a request leaves an open connection open if and only if neither its response nor stop() asks for it to be closed; otherwise it is shut down and closed |
| ClientConnections.MidCloseCloses | include/httplib.h:6507-6523 | a response that ends the connection shuts it down and closes it at once, with the request still in flight |
| ClientConnections.StopExactly | include/httplib.h:6976-6997 | stop() shuts down and closes the connection of an idle client; during a request it shuts it down, leaves it to its user and sets the flag |
| ClientConnections.BeginExactly | include/httplib.h:5983-6032 | a request takes over a connection that looks alive; otherwise that one is shut down and given up, and the request goes on with a new one or not at all |
| ClientConnections.RunNoLeak | include/httplib.h:5980-6067 | over every run each connection ever opened is the current one or has been shut down, and one that was given up is never current again |
| ClientConnections.FreshNoLeak | include/httplib.h:5980-6067 | so it is from a fresh client |
| ClientConnections.StoppedStaysClosed | include/httplib.h:6976-6997 | a closed client has no connection until the next request begins |
| ClientSocket.ClientImpl.Close | include/httplib.h:5925-5942 | closes the socket, callable only where the asserted condition holds |
| ClientSocket.ClientImpl.BeginRequest | include/httplib.h:5983-6032 | the first critical section of send is the Begin step, its assertions proved in place |
| ClientSocket.ClientImpl.CloseAfterResponse | include/httplib.h:6507-6523 | the close in mid-request is the MidClose step |
| ClientSocket.ClientImpl.EndRequest | include/httplib.h:6045-6060 | the second critical section is the End step |
| ClientSocket.ClientImpl.StopClient | include/httplib.h:6976-6997 | stop() is the Stop step: shut down and flag while a request is in flight, close otherwise |
| Traverser.IncrementOk | include/clipp.h:2966-2978 | ++ visits the current position and goes on with exactly the rest of the walk |
| Traverser.NextSiblingOk | include/clipp.h:2980-2994 | next_sibling goes on with what comes after the current subtree |
| Traverser.PreorderPositions | include/clipp.h:2789-2792 | the recursive preorder lists exactly the positions of the subtree, each once |
| Traverser.WalkIsPreorder | include/clipp.h:2966-2978 | repeated ++ from the beginning visits exactly the preorder, every node once, and ends |
| Traverser.SiblingSkipsSubtree | include/clipp.h:2980-2994 | the walk is the current subtree followed by the walk after next_sibling |
| Traverser.SkipFilters | include/clipp.h:3030-3046 | after skip_alternatives the rest of the walk is the former rest without exactly the later siblings inside enclosing exclusive groups |
| Traverser.UndoRestores | include/clipp.h:3075-3092 | after any ++, next_sibling and skip_alternatives, undo returns to the saved position if and only if the walk never left the saved group or that group is the outermost one, and to the saved stack if and only if, besides, no alternatives of an outer exclusive group were skipped |
| Traverser.DepthFirstTraverser.Advance | include/clipp.h:2966-2978 | the stack becomes that of the specified ++ |
| Traverser.DepthFirstTraverser.ToNextSibling | include/clipp.h:2980-2994 | the popping loop, which steps past ends, ends on the specified next sibling |
| Traverser.DepthFirstTraverser.DoSkipAlternatives | include/clipp.h:3030-3046 | the loop narrows every enclosing exclusive context |
| Traverser.DepthFirstTraverser.GoBack | include/clipp.h:3083-3092 | cuts the stack back and restores the innermost context |
| JoinedFlags.LongestCommonPrefix | include/clipp.h:794-829 | the column scan returns a common prefix of all strings that no common prefix exceeds |
| JoinedFlags.MatchFlags | include/clipp.h:2014-2029 | the length of the longest flag the argument starts with |
| JoinedFlags.LongestPrefixMatch | include/clipp.h:4426-4452 | the longest match over all candidate parameters and the first parameter that has it; a match of the whole argument ends the search |
| JoinedFlags.GatherPrefixes | include/clipp.h:3489-3501 | descending into nested groups, the non-empty longest common prefixes of their parameters with flags, in order |
| JoinedFlags.LeavesAre | include/clipp.h:3489-3501 | the parameters that count are exactly those a path of any length leads to |
| JoinedFlags.PrefixIsCommon | include/clipp.h:3462-3468 | the group's prefix is shared by all its flags if and only if it is empty or no parameter with flags has an empty prefix of its own |
| JoinedFlags.PrefixIsLongest | include/clipp.h:3462-3468 | everything that all parameters with a prefix of their own have in common is a beginning of it |
| JoinedFlags.TryMatchJoined | include/clipp.h:4823-4859 | when at every turn the prefix is itself an offered flag or does not begin with a non-empty one, the consume-and-reinsert loop terminates; success means the matches consume the argument, failure that it gets stuck |
| JoinedFlags.TurnLowers | include/clipp.h:4833-4849 | every turn then lowers the size of what is left with the prefix in front, or takes the prefix away |
| JoinedFlags.TerminationExact | include/clipp.h:4823-4859 | the loop ends on every argument if and only if the prefix is itself a flag or does not begin with a non-empty one |
| JoinedFlags.Diverges | include/clipp.h:4833-4849 | otherwise, on any argument that starts with the prefix and ends in a character of no flag, it takes any number of turns |
| JoinedFlags.MatchPrefixed | include/clipp.h:4834-4845 | when all flags start with the prefix every turn shortens the argument although the prefix may be put back |
| JoinedFlags.JoinsRebuild | include/clipp.h:4833-4849 | the matched strings, without the prefix where the loop had put it, concatenate to the argument; it was put exactly where the rest did not start with it |
| JoinedFlags.JoinedIsArgument | include/clipp.h:4823-4859 | the same for a whole successful match |
| JoinedFlags.JoinThenMatch | include/clipp.h:4823-4859 | prefix-free flags written behind one common prefix are found again one by one |
| JoinedFlags.MixedPrefix | include/clipp.h:3462-3468 | a group that mixes flags with and without the prefix has one nevertheless |
| JoinedFlags.MixedDiverges | include/clipp.h:4823-4859 | on that group the loop never ends |
| Base64.LinesSize | include/base64.h:62-92 | the number of characters and line feeds written |
| Base64.OverflowCheckExact | include/base64.h:49-53 | the overflow check fires if and only if the multiplication wraps |
| Base64.BufferBound | include/base64.h:49-51 | everything written, the NUL included, fits the computed size; it fills it if and only if one byte is left over and the last line is not full |
| Base64.OutputSize | include/base64.h:49-53 | the size in size_t arithmetic is below the length if and only if the multiplication wraps, and otherwise large enough |
| Base64.SymbolIs | include/base64.h:26-27 | the alphabet is the table of the standard |
| Base64.DtableIs | include/base64.h:117-120 | the decoder skips everything but the alphabet and the padding sign, and knows the place of each symbol |
| Base64.EncodeGrouped | include/base64.h:41-97 | the pointer-walking encoder stays inside its buffer and returns the lines of 72 characters, or nothing on overflow |
| Base64.CountGood | include/base64.h:122-126 | the first pass counts the bytes the second one will use |
| Base64.DecodeBlocks | include/base64.h:110-170 | the block-filling decoder stays inside its buffer and computes the decoding |
| Base64.JunkIgnored | include/base64.h:136-140 | bytes outside the alphabet and the padding sign, put anywhere into any input, leave the result unchanged |
| Base64.LinesStrip | include/base64.h:62-92 | the line feeds are the only thing outside the alphabet that the encoder writes |
| Base64.PlainDecodes | include/base64.h:136-164 | decoding the blocks of an encoding gives the bytes back |
| Base64.RoundTrip | include/base64.h:41-170 | base64_decode(base64_encode(x)) = x for every byte string, with and without line feeds |
| Base64Laws.LineFeedsAt | include/base64.h:62-92 | line feeds stand behind every 72 characters and at the end, and nowhere else |
| Base64Laws.Concatenated | include/base64.h:136-164 | decoding two encodings one behind the other gives the bytes of both, or of the first only if that ends in padding |
| Base64Laws.BehindPadding | include/base64.h:148-164 | what stands behind padding does not matter, as long as it does not break a block |
| Base64Laws.TooMuchPadding | include/base64.h:148-164 | a block with more than two padding signs makes the input bad |
| Base64Accumulator.EncodersAgree | include/httplib.h:1965-1991 | the accumulator encoder's output is the grouping encoder's output without line feeds, and decodes to the input |
| Base64Accumulator.Encode | include/httplib.h:1965-1991 | the loop over val and valb computes that output; only the low bits of val matter |
| Base64Accumulator.SextetsAreNext | include/httplib.h:1975-1982 | what a byte adds depends on its predecessor alone, whatever is above in the accumulator |
| Base64Accumulator.EmittedSnoc | include/httplib.h:1975-1982 | sextets emitted byte by byte are those of the groups of three |
| Ksyms.LeqTotal | src/trace_helpers.c:95-102 | ksym_cmp is a total order on address, then name |
| Ksyms.LeqTransitive | src/trace_helpers.c:95-102 | and transitive |
| Ksyms.ScanIsBest | src/trace_helpers.c:156-176 | the scan returns the name-greatest entry among those with the greatest address at or below the query, or nothing if and only if there is none |
| Ksyms.BestIsScan | src/trace_helpers.c:156-176 | any ordered rearrangement answers as the scan of the list does, so insertion order does not matter |
| Ksyms.SortSymsOk | src/trace_helpers.c:135-135 | sorting orders the entries and rearranges them only |
| Ksyms.AppendName | src/trace_helpers.c:83-90 | appending a name leaves every earlier offset denoting its name |
| Ksyms.SymbolTable.GrowStrs | src/trace_helpers.c:58-70 | the string arena grows enough and keeps its used part, or nothing changes |
| Ksyms.SymbolTable.GrowSyms | src/trace_helpers.c:71-81 | the same for the symbol array |
| Ksyms.SymbolTable.PutSymbol | src/trace_helpers.c:83-90 | the table gains the symbol at its end |
| Ksyms.SymbolTable.AddSymbol | src/trace_helpers.c:52-93 | through all growths of both arenas the table keeps its entries and gains the new one, or stays as it is when memory is refused |
| Ksyms.SymbolTable.Load | src/trace_helpers.c:120-138 | after loading the table is ordered and holds exactly the lines |
| Ksyms.SymbolTable.MapAddr | src/trace_helpers.c:156-176 | the binary search returns what a scan of the entries in any order returns |
| DsoSymbols.Syms.AddDso | src/trace_helpers.c:322-381 | the table then holds exactly the lines grouped by file, or the .text section was unreadable |
| DsoSymbols.Syms.OffsetIn | src/trace_helpers.c:397-407 | the two wrapping additions are one translation modulo 2^64 |
| DsoSymbols.TranslateLocates | src/trace_helpers.c:397-407 | for a shared file the byte that is mapped at the address gets the address of .text plus its distance from the beginning of .text in the file, for the vdso its file offset, both modulo 2^64; for other files the address itself |
| DsoSymbols.LocatesOnce | src/trace_helpers.c:397-407 | there is only one such offset |
| DsoSymbols.Syms.FindDso | src/trace_helpers.c:383-414 | the nested search finds something if and only if a line covers the address, and then the file of the one line that does and the offset that locates the address in it |
| DsoSymbols.LineAdded | src/trace_helpers.c:322-381 | adding a line to its file's entry, old or new, keeps the grouping |
| DsoSymbols.NoneCovers | src/trace_helpers.c:383-414 | if no range of any file covers an address no line does |
| DsoSymbols.CoveringIsUnique | src/trace_helpers.c:383-414 | among disjoint lines the covering one is unique |
| DsoSymbols.FirstAddressMissed | src/trace_helpers.c:395-396 | the first address of a mapping is found in no line |
| DsoSymbols.FindSym | src/trace_helpers.c:635-661 | the binary search returns the last symbol that starts at or below the offset: nothing if and only if all start above it, else one behind which all do |
| DsoSymbols.MapAddr | src/trace_helpers.c:741-750 | the whole lookup is the last symbol of the covering line's file at or below the offset that locates the address in it |
| Latency.Log2 | bpftools/biolatency/bits.bpf.h:5-16 | the shift cascade, which collects its result with bitwise or, computes the integer logarithm of every 32-bit number |
| Latency.OrIsSum | bpftools/biolatency/bits.bpf.h:10-14 | parts without a common bit are added by a bitwise or |
| Latency.Log2l | bpftools/biolatency/bits.bpf.h:18-26 | and of every 64-bit number |
| Latency.LogIsFloor | bpftools/biolatency/bits.bpf.h:5-26 | that logarithm is the exponent of the greatest power of two not above the number |
| Latency.FloorLogUnique | bpftools/biolatency/bits.bpf.h:5-26 | which is unique |
| Latency.SlotIsPrinted | bpftools/biolatency/trace_helpers.c:921-925 | a latency belongs to a slot if and only if it lies within the bounds printed for it, the last slot taking all larger ones |
| Latency.SlotTotal | bpftools/biolatency/biolatency.bpf.c:141-144 | the slots of a histogram add up to its samples |
| Latency.CountsArePrinted | bpftools/biolatency/trace_helpers.c:921-925 | counting by slot is counting by printed bounds |
| Latency.BeginSeen | bpftools/biolatency/biolatency.bpf.c:46-65 | an accepted begin opens its request, a rejected one changes nothing |
| Latency.CompleteSeen | bpftools/biolatency/biolatency.bpf.c:113-147 | a completion closes its request and yields a sample exactly for an open one with a non-negative difference |
| Latency.SampleCounted | bpftools/biolatency/biolatency.bpf.c:129-144 | counting a sample in its key's histogram keeps all counters right |
| Latency.BioLatency.TraceRqStart | bpftools/biolatency/biolatency.bpf.c:46-65 | keeps the start map equal to the open requests over the whole run |
| Latency.BioLatency.Count | bpftools/biolatency/biolatency.bpf.c:129-144 | looks up or makes the histogram and counts the sample |
| Latency.BioLatency.BlockRqComplete | bpftools/biolatency/biolatency.bpf.c:101-149 | keeps both maps right over the whole run |
| LatencyRuns.CompletionCounted | bpftools/biolatency/biolatency.bpf.c:101-149 | over every run: a completion adds exactly one sample if the last event that concerns its request opened it less than 2^63 ns ago, and none otherwise; the sample is the time between in whole milliseconds or microseconds, under the flags and disk that the options ask for |
| LatencyRuns.RequestCounted | bpftools/biolatency/biolatency.bpf.c:46-149 | a request begun at b and completed at e is counted with q where q units are at most e - b and q + 1 are more |
| LatencyRuns.BackwardsNotCounted | bpftools/biolatency/biolatency.bpf.c:115-117 | a completion before its begin on the clock is not counted |
| LatencyRuns.BeginCountsNothing | bpftools/biolatency/biolatency.bpf.c:46-65 | a begin adds no sample |
| LatencyRuns.MeasuredSlot | bpftools/biolatency/trace_helpers.c:921-925 | a sample is in a slot if and only if the nanoseconds it measures are within the bounds printed for it |
| Latency.HistogramIsTrue | bpftools/biolatency/trace_helpers.c:895-932 | below 2^32 every counter is the number of matched completions within its printed bounds, and a histogram adds up to all of them |
| Latency.PrintLog2Hist | bpftools/biolatency/trace_helpers.c:895-932 | one row per slot up to the last one in use, with its bounds and value; the maximum is the maximum |
| Query.EncodeQueryParam | include/httplib.h:2044-2063 | the loop computes the percent-encoding |
| Query.DecodeUrl | include/httplib.h:2097-2132 | the loop, which skips ahead inside an escape, computes the decoding |
| Query.DecodeEncode | include/httplib.h:2097-2132 | decode_url(encode_query_param(s)) = s for every byte string, with or without plus conversion |
| Query.DecodeKeeps | include/httplib.h:2097-2132 | decoding leaves a text as it is if and only if it has no %XX or %uXXXX escape and, with plus conversion, no plus sign |
| QueryDecoding.PathKept | include/httplib.h:5048-5048 | a path, decoded without plus conversion, stays as it is if and only if it has no escape |
| QueryDecoding.DecodeAround | include/httplib.h:2097-2132 | a character that cannot belong to an escape is decoded by itself wherever it stands: a plus sign to a blank or, without conversion, to itself, any other to itself |
| QueryDecoding.DecodeEscape | include/httplib.h:2115-2123 | wherever it stands %XX gives the byte of that value |
| QueryDecoding.DecodeUnicode | include/httplib.h:2102-2114 | wherever it stands %uXXXX gives the UTF-8 encoding of that code point, and nothing for a surrogate |
| QueryDecoding.Utf8Is | include/httplib.h:1931-1962 | to_utf8 writes the encoding of RFC 3629, and nothing for a code point that has none |
| QueryDecoding.Utf8Unique | include/httplib.h:1931-1962 | a code point has one encoding only |
| QueryDecoding.EncodingKeeps | include/httplib.h:2044-2063 | encoding leaves a text as it is if and only if it is made of letters, digits and the nine marks |
| QueryDecoding.EncodedByteIs | include/httplib.h:2049-2059 | any other byte becomes a percent sign and two digits in upper case |
| QueryText.Split | include/httplib.h:2168-2186 | the loop hands over the fields between delimiters, trimmed, without the empty ones |
| QueryText.FieldIsTrimmed | include/httplib.h:2152-2161 | although both scans may run out of the field, what they give is the field trimmed |
| QueryText.SplitJoin | include/httplib.h:2168-2186 | splitting undoes joining of non-empty fields without delimiter and without blanks at their ends |
| QueryText.ParamsToQueryStr | include/httplib.h:3736-3746 | the loop prints the pairs joined by ampersands |
| QueryText.KeyAndValue | include/httplib.h:3755-3763 | the first piece is the key, the last later one the value |
| QueryText.EntryJoined | include/httplib.h:3755-3767 | of any number of parts between equal signs the first is the key and the last later one the value, both decoded |
| QueryText.ParseQueryText | include/httplib.h:3748-3769 | the loop adds one entry for every field not seen before |
| QueryText.ParseSorted | include/httplib.h:3748-3769 | the multimap stays ordered by key |
| QueryText.EmplaceSorted | include/httplib.h:3766-3766 | emplace keeps the order and adds exactly the entry |
| QueryText.QueryRoundTrip | include/httplib.h:3736-3769 | for keys that survive and any values, parsing what was printed gives the first occurrences of the pairs, in order |
| QueryExact.QueryRoundTripExact | include/httplib.h:3736-3769 | any ordered list of parameters comes back if and only if no pair is repeated and every key is non-empty, has no blank at its ends, no = or &, no plus sign and no escape |
| QueryExact.Produced | include/httplib.h:3748-3769 | an entry parsed from a field of a printed pair is that pair if its key survives, and weighs less than it otherwise |
| Seccomp.IsNotAllow | src/myseccomp.cpp:5-13 | true if and only if the number is not on the list |
| Seccomp.BuildFilter | src/myseccomp.cpp:15-42 | the loop builds the prologue, one rule per number not on the list, and the final return |
| Seccomp.SectionVerdict | src/myseccomp.cpp:26-42 | run with a call number in the accumulator the appended section returns KILL if and only if the number is below the table size and not on the list, ALLOW otherwise |
| Seccomp.RulesWellFormed | src/myseccomp.cpp:28-42 | all jumps stay inside the section and it ends in a return |
| Seccomp.RunShift | src/myseccomp.cpp:32-34 | relative jumps make a program run the same wherever it stands |
| Seccomp.FilterVerdict | src/myseccomp.cpp:17-42 | the whole filter is well formed, fits the length field for up to 32765 names, allows every call of the matching architecture, and applies the rules to the architecture word of others |
| Seccomp.PrologueDecides | src/myseccomp.cpp:17-24 | for the matching architecture the filter gives the list's verdict if and only if that is to allow |

## Left out

- Multipart.MultipartFormDataParser.ParseHeaderLine: the Content-Disposition expression is a function parameter, so that its laws hold for any; `MultipartDisposition` gives the one of the source, with bytes as characters and no locale.
- MultipartRoundTrip.AnnouncedFields: the line expression is a parameter; `MultipartDisposition.AnnouncedExact` is about that of the source.
- MultipartRoundTrip.RoundTrip: the opening line lies in the first piece, because the opening state drops what it has not recognised (`OpeningDiscards`).
- MultipartSplit.SplitParse: callbacks accept, as they may be taken to as long as they refuse nothing (`TakenAsAccepted`), and the closing mark is not yet complete; `MultipartCut.SplitExact` says what happens otherwise.
- MultipartCut.SplitExact: callbacks accept; a parser that has not seen the opening line is the subject of `OpeningDiscards`, and one whose closing mark is already complete before the first call that of `ClosedAgain`.
- Multipart.MultipartFormDataParser.ParseBytes: callbacks are functions of what they are given; side effects of theirs on the parser are not modelled.
- Stream.SocketStream.Read: the caller's buffer is the returned data; overlap of that buffer with the read-ahead buffer is not modelled, nor is the interruption of system calls.
- ChunkedRoundTrip.WriteContentChunked: the compressor is the identity; the offset passed to the provider and the is_writable query are not modelled.
- Chunked.ReadContentChunked: decompression and the progress callback are not modelled.
- ThreadPool.AllJobsRun: jobs return; a job that throws or never returns is not modelled, nor is scheduling fairness beyond `ShutdownProgress` and `ShutdownBounded`.
- ClientSocket.RunSafe: TLS objects, proxies and the order of the graceful shutdown are not modelled; whether a socket looks alive and whether connecting succeeds are free choices of the step. The count is unbounded, as it cannot exceed the nesting depth.
- Traverser.WalkIsPreorder: groups are not empty, because descending into an empty one leaves the source's iterator at its end; the scoped traverser around it is not part of this model.
- JoinedFlags.TerminationExact: the same flags are offered at every turn, and some character is used by no flag.
- JoinedFlags.TryMatchJoined: the temporary parser is a function from the matches so far to the flags offered next, so its bookkeeping of missing candidates and conflicts, and the replay of matches, are left out; parameters with custom matchers are too.
- Base64.EncodeGrouped: allocation succeeds; the input is shorter than the address space, as any object is.
- Base64Accumulator.Encode: the accumulator's shifts wrap at 32 bits, which is what compilers do where the language leaves a signed shift undefined.
- Ksyms.SymbolTable.AddSymbol: arena sizes are unbounded integers, not `int`; lines come as a list, not from /proc/kallsyms.
- Ksyms.SymbolTable.Sort: an ordered rearrangement computed by insertion stands for `qsort`, whose internals are not part of this model.
- DsoSymbols.Syms.AddDso: ELF headers come as a function of the file name; a failed allocation and perf maps are not modelled. A file of another type keeps an earlier file's section address in the source only if its type changes between two lines, which the function rules out.
- DsoSymbols.MapAddr: loading a file's symbols is a function that yields a sorted list or fails; the lines do not overlap.
- Latency.HistogramIsTrue: no control-group filter, no map at capacity, no counter at 2^32; concurrent draining of the histograms by user space is not modelled.
- Latency.PrintLog2Hist: the stars and column widths are left out.
- QueryDecoding.DecodeUnicode: bytes only; what they look like on a screen is not part of this model.
- QueryText.QueryRoundTrip: its keys survive printing, which does not escape them; `QueryExact.QueryRoundTripExact` is about all keys.
- Seccomp.FilterVerdict: the kernel's own handling of programs over its size limit and the resolution of call names to numbers, whose table has gaps, are not part of this model.
- Request routing, ranges, redirects, cookies, file serving, TLS, zlib and brotli: foreign calls or simple dispatch.
- clipp's documentation formatting and template machinery, the agent's menus, trackers and exporters: mostly user interface.
- The container, configuration and metrics code and the Go loader: input, output and plain map updates.
