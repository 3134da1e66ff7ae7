# Parallel file transfer: a Dafny model

The program sends one large file over TCP in parallel. The sender maps the file, cuts it into slices,
compresses every slice as a stream into a list of chunks, puts a 10-byte header in front and writes it over a
connection of its own. A text header `S<size>#<count>` goes first, on a separate connection. The receiver never
learns the sender's segment size: it recomputes a stride from the two numbers of the text header, rebuilds every
slice from whatever fragments its reads return, and decompresses it straight into its place in the mapped output
file. A FIFO thread pool runs the work; a supervisor decides when the transfer is over and writes an end marker.

The project models this from end to end and proves, among others:

* `Transfer.SendAndDeliver`: the sender's run joined to every run of the receiver. For every behaviour of the
  network on the sending side, when all jobs succeed and the announcement is not cut short, then in every
  interleaving and fragmentation on the receiving side in which all slice handlers return 0 and nothing undefined
  is done, the output file is the input file (within the limits of the headers).
* `EarlyMarker.MarkerWithoutSlices`, `Supervision.WaitEndsEarlyIff`, `System.CollectsAllIff`: the end marker can come
  too early. The supervisor's wait condition loads the slice count twice, without a lock that the storing of the
  count would take. For every file, some run of the whole receiver without failing calls writes the end marker when
  it has read nothing but the announcement. For at most 32767 slices the wait ends with connections missing exactly
  when the count is stored between its two loads and the second load comes before the last connection is counted;
  and the marker rests on the futures of all handlers exactly when the supervisor did not, after such a test, take
  the bounds of a list that was still too short.
* `System.EndMarkerMeansTransferred`: for at most 32767 slices, in every other run of the whole receiver (accept
  loop, pool, supervisor and connection handlers, any number of workers, any interleaving, any fragmentation that
  hands over each header in one piece) the end marker is written only after every handler has returned; and if
  nothing undefined was done and all slice handlers returned 0, the output file is the input file.
* `Liveness.ReceiverCanAlwaysFinish`: when the strides agree, slices are shorter than 2 GiB, there are at most 32767
  of them and the pool has two workers, no run of the whole receiver without failing calls is in a dead end: some
  continuation completes the exact file and the end marker, which rests on all handlers unless the list was too
  short before.
* `Completion.DeliverableIff`, `Completion.SafeIff`: a file can be delivered exactly when the two strides agree
  (`size mod segment < count`, or one slice) and every slice length fits an `int`; and no run does anything
  undefined exactly when the strides agree, otherwise some run writes outside the file.
* `Geometry.OffsetsAgreeIff`, `Geometry.DerivedSegmentAgrees`, `Geometry.FourGigabytesMisplaced`: when the strides
  agree, that a segment size derived from the job count always agrees, and that a 4 GiB file sent with one job
  does not.
* `Schedules.EndMarkerRightIff`, `Supervision.WaitHangsIffMissed`, `Schedules.CanHang`: apart from lists that were too
  short, the end marker is right exactly up to 32767 slices; exactly which events of a run make the supervisor sleep
  on although its condition holds; and that such a run exists for every number of slices.
* `HandlerRuns.RunAlone`: the receiving method `Recv`, with its loops and its writes in place, does on every
  connection, whatever is on it and whatever the library answers, what a run of the handler machine does, on which
  the theorems about interleavings rest.
* `ThreadPool.*`: no lost wake-up, FIFO starts, conservation, that a pool left alone comes to rest with everything
  done, and termination of the destructor under every schedule.

## Layout

| file | contents |
|---|---|
| Bytes, Framing, TextHeader | byte strings, the 10-byte slice header, the text header |
| Geometry | slice arithmetic on both sides |
| Codec | the contract of the streaming compression library, and a stored codec that meets it |
| FileSlices, Compression | `FileSlice`, `SplitFile`, `Compress` |
| Sockets, Sending | scripted sockets, the write loops, the sender's program order |
| Decompression, Reception, Receiver | `Decompress`, one wake-up of `Recv` as a function, `Recv` as a method |
| Delivery, Transfer, Completion | all connection handlers interleaved, end-to-end equality, completion |
| HandlerRuns | a run of the method `Recv` is a run of its handler in `Delivery` |
| ThreadPool, Supervision, Schedules | pool, accept loop and supervisor as step machines, and the runs in which they go wrong |
| System, EarlyMarker, Liveness | the product of supervision and handlers, its end marker, and its completion |

## How things are modelled

* The compression library is a parameter: any functions that meet `EncoderContract` and `DecoderContract`
  (a call consumes a prefix of its input and emits at most its room; an end-mode return of 0 means that everything
  was consumed and the output is a frame for it; the first frame of a context is at most twice as long as what it
  holds plus 1024 bytes; a decoder flushes all it can unless its room is full; calls that do not finish come closer to finishing).
  `StoredCodec.ContractsSatisfiable` shows that the contracts can be met.
* A socket carries a script of what its calls will report (bytes moved, would block, interrupted, broken), so the
  methods are proved for every behaviour of the network. Library and connection set-up failures are boolean
  parameters.
* Memory faults, reads of missing header bytes, division by zero and out-of-file writes are an explicit outcome
  (`Undefined`, `fault`), not a precondition. Exceptions of `std::stoul` are the outcome `Exception`.
* Integer widths are written out where they matter: 16-bit index, count and thread counter, 32-bit header fields,
  the `int` result of `Decompress` compared as a `size_t`, the unsigned total of `SendFileSlice`.
* `Delivery.Disciplined` states what the design relies on and the code does not enforce: the text header arrives
  in one read and is handled before any slice connection is looked at, and the first wake-up of a slice connection
  returns at least ten bytes. `Reception.WakeReassembles` and `TextHeader.PrefixParsesIff` show that less is a
  fault or a misreading.
* A step of `Delivery` is one wake-up of one handler or one decoder call; the shared table and the shared
  variables are accessed atomically within a step. Pool steps are the sections under the pool's mutex and the single
  statements outside of it, spurious wake-ups included. The variables of the supervisor's wait condition are not
  protected by its mutex, so every load of an atomic variable there is a step of its own, the two operands of the
  comparison in either order; so are the storing of the count, the increment and the notification.
* The comment on the text header speaks of 16 bytes; the code reads 17, and the model follows the code.

## Model

| member | source | states |
|---|---|---|
| Geometry.StrideFormula | util/recv_flow.h:317-319 | the receiver's stride is the segment size plus the remainder divided by the count |
| Geometry.OffsetsAgreeIff | util/recv_flow.h:319-367 | all slice offsets of sender and receiver agree if and only if the remainder is smaller than the count or there is one slice |
| Geometry.LastRegionInBoundsIff | util/recv_flow.h:367-394 | the receiver's last region ends inside the file if and only if the strides agree |
| Geometry.DerivedSegmentCount | util/file_slice.h:117-140 | a segment size derived from the job count gives at least `jobs` and fewer than `2 * jobs` slices, more than the remainder |
| Geometry.DerivedSegmentAgrees | util/file_slice.h:117-119 | for all sizes and job counts, the stride recomputed from a derived segment size is that segment size |
| Geometry.FourGigabytesMisplaced | util/file_slice.h:121-124 | a file of 4 GiB with one job is clamped to two slices whose strides differ |
| Geometry.ClampedLengthsFit | util/file_slice.h:121-135 | clamping keeps every slice length at most 2^32 - 3, so the cast of the length never truncates |
| Geometry.WindowsTileFile | util/file_slice.h:96-98 | the slices at `i * segment`, one after the other, are the file |
| Geometry.RegionsDisjoint | util/file_slice.h:126-140 | regions of different slices do not meet |
| FileSlices.SplitFile | util/file_slice.h:116-143 | terminates; a configured segment size is used as it is, a larger one than 2^31 - 1 is cut to that, and without one it is size / jobs, cut likewise; exactly when it is cut does the job count become size / segment; exactly size / segment slices, slice i with index i mod 2^16 and its length, the last with the remainder; one over-long slice if the segment exceeds the file |
| FileSlices.FileSlice.LinkCompressChunk | util/file_slice.h:50-66 | appends to the payload; the first chunk brings a header with index and length |
| FileSlices.FileSlice.SetChunkLinksHeader | util/file_slice.h:68-74 | back-patches the length field and leaves the payload as it is |
| Framing.HeaderRoundTrip | util/recv_flow.h:352-365 | parsing the ten bytes, whatever follows them, returns index, length and compressed length cut to their widths |
| Framing.HeaderLayout | util/file_slice.h:50-74 | index, length and compressed length as two, four and four bytes, the most significant first |
| Framing.WireWellFramedIff | util/file_slice.h:50-74 | the framing is well formed if and only if no field was cut |
| Framing.WireInjective | util/file_slice.h:50-74 | equal wires carry equal index, length and payload |
| TextHeader.PrefixParsesIff | util/recv_flow.h:304-319 | a read that returns a prefix of the text header recovers size and count if and only if it returns all of it |
| TextHeader.TextRoundTripIff | util/sending_flow.h:140-145 | the receiver's 17-byte read recovers size and count if and only if they have at most 15 digits together |
| TextHeader.StoulReads | util/recv_flow.h:317-318 | for every number of blanks, sign, digits and rest: the number is that of the digits up to the first other byte, behind a minus negated modulo 2^64; throws without a digit or beyond 64 bits |
| TextHeader.ParseKeeps32Bits | util/recv_flow.h:318 | the count is cut to 32 bits |
| TextHeader.DecimalDigit | util/sending_flow.h:140-145 | the k-th digit of a printed number is its k-th decimal digit |
| StoredCodec.ContractsSatisfiable | util/zstd_compress.h:164-181 | the codec contracts have a model, with an encoder that holds output back |
| Compression.CompressWindow | util/zstd_compress.h:157-182 | the flush loop terminates and links exactly the outputs of the encoder calls that finish the window, in order; all of the window is consumed, in end mode the output is a frame; it fails exactly at a failing call |
| Compression.Compress | util/zstd_compress.h:96-195 | the linked chunks are those that the encoder, run from its start, gives for windows that cut the slice in order: 6815744 bytes each from 1 MiB on, as the library recommends below, only the last shorter and only the last ending the frame; no chunk is larger than 4 MiB or, below 1 MiB, than the library recommends; the payload is a frame that decodes to the slice, its length is in the header; it succeeds whenever a context is given and no call fails |
| Sending.SendChunk | util/sending_flow.h:84-114 | what is written of a chunk is a prefix; it is cut short exactly by a zero-byte write; whether it and the chunks after it go out is decided by the script of calls |
| Sending.SendFileSlice | util/sending_flow.h:68-125 | returns 0 if and only if exactly header and payload were written in order, if and only if no write failed or stalled, if and only if the script of calls takes all chunks: would-block and interruption retry, and no call fails or moves nothing of a chunk before they are through |
| Sending.SendFileSizeOnly | util/sending_flow.h:127-177 | writes a prefix of the text header, all of it if and only if enough progress precedes every stalled, blocked or failing write of the script; returns 0 if and only if no write fails before the header is out or the loop gives up at a stalled or blocked write, and then the header is complete if and only if no write stalled or would have blocked |
| Sending.AnnouncementLost | util/sending_flow.h:148-176 | on a connection that would block at once the result is 0 and nothing was sent |
| Sending.RunSlice | util/sending_flow.h:55-66 | a slice is delivered if and only if it was compressed, the connection exists and the script takes chunks of the sizes that the encoder gives for it; then the wire is a framed frame for its part of the file, of bounded length |
| Sending.SendFile | main.cc:82-93 | all jobs succeed if and only if the announcement does not fail and every slice is compressed and its connection takes its chunks; then the connections carry the file if and only if the announcement was not cut short |
| Sending.SoundNetworkSends | main.cc:82-93 | with a library that does not fail, an announcement that does not fail and connections whose scripts take what the encoder makes of the slices, all jobs succeed |
| Decompression.CallTracks | util/zstd_decompress.h:60-72 | a decoder call with the room that is left succeeds on a complete stream, stays in the slice and keeps in step |
| Decompression.Decompress | util/zstd_decompress.h:45-75 | terminates in both modes; makes the decoder, from its start, do a run of calls on the rest of the input and the room that is left, until the input is used up (the result is the count as an `int`), a call fails (-1) or its output does not fit the file (a fault); writes only behind the base, in whole-slice mode at most the slice; a stream that decodes to the announced length ends with the region equal to it, or with a fault exactly when its region leaves the file |
| Reception.WakeReassembles | util/recv_flow.h:347-387 | one wake-up with any number of bytes keeps the buffer equal to that prefix of the payload and touches only its own entry; it faults if and only if the first burst is shorter than the header |
| Reception.FragmentationImmaterial | util/recv_flow.h:256-387 | for every fragmentation the handler holds exactly the payload bytes received, complete exactly when it holds all |
| Reception.WholeConnection | util/recv_flow.h:347-394 | after the whole connection the entry holds place, length and a frame for the slice |
| Reception.TextVerdict | util/recv_flow.h:304-345 | the first burst of the first connection gives -1 exactly without a leading 'S' or without '#', an exception when a number cannot be read, a division by zero for count 0, and otherwise 0 with stride, size, count and a read size of 6 MiB or 128 KiB |
| Reception.FirstVerdict | util/recv_flow.h:347-387 | the first burst of a slice connection, whatever it holds: shorter than ten bytes or longer than announced is a fault, complete exactly at the announced length, and the entry is that of its header |
| Receiver.AcceptedIff | util/recv_flow.h:389-410 | after n decoded bytes a slice is accepted if and only if n, as far as 32 bits keep it, is the announced length and below 2^31 |
| Receiver.WholeSliceAcceptedIff | util/recv_flow.h:389-410 | a slice decoded whole is accepted if and only if its length is below 2^31 |
| Receiver.Server.ReadBurst | util/recv_flow.h:270-299 | reads in order and at most the quota, and stops only at the quota, at would-block or at the end of the stream |
| Receiver.Server.Turn | util/recv_flow.h:256-387 | one turn is `Wake` on the bytes read; it reads exactly its quota (17 bytes for the text header, what a slice still lacks, or the read size) unless the socket would block or the stream ends, and never past the buffer of a slice that is not complete; the output file appears as zero bytes of the announced size |
| Receiver.Server.Recv | util/recv_flow.h:223-418 | the turns are `Wakes` on the bytes read, each within its quota; reading stops early only on a failed read, which gives -1; a text header gives -1 exactly without a leading 'S' or without '#', and 0 exactly if it parses with a positive count; a completed slice is decoded at its base and nowhere else, by a run of decoder calls from the start, and 0 is returned only if exactly the announced number of bytes came out, below 2^31; -1 after a refused call; whole if it decodes to the announced length inside the file |
| HandlerRuns.TurnsAreSteps | util/recv_flow.h:256-387 | the turns of a handler on any bursts within their quotas are wake-ups of the machine, and come to the same |
| HandlerRuns.CursorsAreSteps | util/zstd_decompress.h:58-74 | every run of decoder calls is a run of the machine that has the bytes in the same place |
| HandlerRuns.HandlerIsSteps | util/recv_flow.h:223-418 | turns, decoding and code of a handler together are a run of the machine with steps of this handler only |
| HandlerRuns.RunAlone | util/recv_flow.h:223-418 | for every connection, library and script of reads: unless a slice of length 0 is announced, `Recv` leaves shared variables and output file as some run of the machine does, with the same code, and a fault exactly when the machine has one |
| Delivery.InvStep | util/recv_flow.h:256-411 | every step of every handler keeps the invariant of all handlers; a fault needs a region outside the file |
| Delivery.OutInvStep | util/recv_flow.h:367-401 | with tiling regions every step keeps what each slice has decoded in its place and nothing faults |
| Delivery.NetRun | util/recv_flow.h:223-418 | the two invariants hold in every state of every run |
| Delivery.DecodesCommute | util/zstd_decompress.h:58-74 | decoder calls of different slices commute |
| Transfer.AcceptedOnlyIf | util/recv_flow.h:367-410 | an accepted slice lies in the file and is shorter than 2^31 bytes; the last one is accepted only if the strides agree |
| Completion.SafeIff | util/recv_flow.h:223-418 | no run does anything undefined if and only if the strides agree; otherwise some run writes outside the file |
| Transfer.DeliveredMeansEqual | util/recv_flow.h:223-418 | for every interleaving and fragmentation, if every slice handler has returned 0 and nothing undefined was done, the strides agree and the output file is the input file |
| Transfer.SendAndDeliver | main.cc:82-93 | for every behaviour of the network while sending: when all jobs succeed and the announcement goes out, every receiver run that accepts all slices without doing anything undefined reproduces the file, within the limits of the headers; a condition on size and segment that keeps within them |
| Completion.CanAlwaysFinish | util/recv_flow.h:243-417 | from every state without failed calls, the transfer can be completed to the exact file |
| Completion.DeliverableIff | util/recv_flow.h:317-410 | a file can be delivered if and only if the strides agree and every slice length fits an `int` |
| Completion.DerivedSegmentDelivers | util/file_slice.h:117-119 | derived segments deliver when segment plus twice the job count is at most 2^31 |
| Completion.EveryFileCanBeReady | main.cc:82-93 | every file within the header limits has connections that meet the assumptions |
| ThreadPool.PoolInvariant | util/thread_pool.h:9-66 | in every run: starts in enqueue order, every started task done or held by one worker, no lost wake-up, no sleeper after stop except before the broadcast |
| ThreadPool.QueuedTaskNotStranded | util/thread_pool.h:13-51 | with a queued task, a worker runs, is about to look, or is owed a notification |
| ThreadPool.SettlesSoon | util/thread_pool.h:9-31 | left alone, a running pool comes to rest: every schedule has at most two steps for each queued task, owed notification and busy worker and one for each that is about to look |
| ThreadPool.AtRest | util/thread_pool.h:9-31 | a running pool with nothing left to do has all workers asleep, an empty queue and every task done |
| ThreadPool.ShutdownBounded | util/thread_pool.h:56-66 | once stop is set, every schedule has a bounded number of steps |
| ThreadPool.ShutdownProgress | util/thread_pool.h:17-22 | a stopped pool with a live worker has a step that is not a spurious wake-up |
| ThreadPool.JoinedMeansAllDone | util/thread_pool.h:56-66 | when all workers have returned, exactly the enqueued tasks are done |
| Supervision.WaitEndsEarlyIff | util/recv_flow.h:128-134 | for at most 32767 slices: after the second load of the count the supervisor is past its wait with connections missing if and only if the first storing of the count came after its last load for the comparison, and the second load before the last increment |
| Supervision.ListCompleteIff | util/recv_flow.h:128-148 | for at most 32767 slices: the supervisor collects the futures of all connections if and only if it did not take the bounds of a shorter list after such a test |
| Supervision.FuturesComplete | util/recv_flow.h:128-148 | unless its list was short, once the supervisor collects the list of futures is complete and never changes |
| Supervision.EndMarkerAfterAllTasks | util/recv_flow.h:144-157 | unless its list was short, the supervisor writes the end marker only after the header handler and all slice handlers have returned |
| Supervision.SupervisorDoesNotStarve | util/recv_flow.h:188-216 | with one worker more, a handler the supervisor waits for is run or can be started |
| Supervision.UntornTest | util/recv_flow.h:128-134 | the three loads with nothing in between are the wait condition, whichever operand of the comparison is loaded first: the signed 16-bit counter as an unsigned number is at least the count plus one, and the count is not zero |
| Supervision.SupervisorHoldsWorker | util/recv_flow.h:122-162 | in every run the supervisor holds a worker from its first load on until the marker is written or it has given up, and the count is stored only by a handler that a worker has taken |
| Supervision.AbortedForGood | util/recv_flow.h:138-157 | a supervisor that cannot connect, or whose future rethrows, never writes the marker |
| Supervision.WaitHangsIffMissed | util/recv_flow.h:128-134 | after a run the supervisor sleeps or is about to although its condition holds and nobody will notify it, if and only if some event of the run sent the last notification between its test and its sleep, or stored the count after the last notification while it was not looking, or compared after the last notification a counter loaded too early, and no spurious wake-up followed |
| Supervision.HungOrOn | util/recv_flow.h:128-134 | with all connections notified and the count stored, the supervisor looks or has passed its wait if and only if it has not missed its notification in that way |
| Supervision.HungForever | util/recv_flow.h:212-216 | a supervisor that hangs hangs in every run without a spurious wake-up, which never writes the end marker |
| Schedules.WaitEndsEarly | util/recv_flow.h:59-132 | with more than 32767 slices some run ends the wait while connections are missing, without a storing between the two loads |
| Schedules.WaitIsSafeIff | util/recv_flow.h:128-134 | apart from tests with a storing between their two loads, the wait condition is right in every run if and only if there are at most 32767 slices |
| Schedules.EndMarkerTorn | util/recv_flow.h:128-157 | for every slice count and every number of connections up to all of them, some run writes the end marker after just so many |
| Schedules.EndMarkerRightIff | util/recv_flow.h:59-157 | in every run in which the list was not short the end marker means that all connections are accepted and their handlers have returned, if and only if there are at most 32767 slices |
| Schedules.CanHang | util/recv_flow.h:317-345 | for every slice count and at least two workers some run hangs, because storing the count does not notify |
| System.RunsHandlers | util/recv_flow.h:223-418 | every run of the whole receiver is a run of the connection handlers |
| System.RunsSupervision | util/recv_flow.h:122-221 | every run of the whole receiver is a run of the supervision, with the announcement as the storing of the count |
| System.HandlersHoldWorkers | util/thread_pool.h:14-30 | in every run of the whole receiver a handler between its first and its last step is on an accepted connection and on exactly one worker |
| System.CollectsAllIff | util/recv_flow.h:122-418 | for at most 32767 slices, in every run of the whole receiver the supervisor collects the futures of all handlers if and only if its list was not short |
| System.EndMarkerMeansTransferred | util/recv_flow.h:122-418 | for at most 32767 slices and runs that hand over each header in one piece and in which the list was not short: the end marker means that all handlers have returned; and that the strides agree and the files are equal, if all slice handlers returned 0 and nothing undefined was done |
| System.EndMarkerWithoutFailures | util/recv_flow.h:122-418 | for at most 32767 slices shorter than 2^31 bytes, in runs without failing calls and short lists in which nothing undefined is done, the end marker means that the strides agree and the files are equal |
| EarlyMarker.MarkerWithoutSlices | util/recv_flow.h:128-157 | for every file within the header limits and at least two workers, some run of the whole receiver without failing calls writes the end marker with no slice connection read from and an output file of zeros |
| Liveness.ReceiverCanAlwaysFinish | util/recv_flow.h:122-418 | with agreeing strides, at most 32767 slices shorter than 2^31 bytes and two workers, every run of the whole receiver without failing calls has a continuation after which all slices are accepted, the file is exact and the end marker is written, resting on all handlers if the list was not short before; without spurious wake-ups of the pool, and of the supervisor only if it rests or has loaded the counter too early |

## Left out

- The compression library itself: represented by its contract only.
- Sockets, epoll, mmap, descriptors and logging: only their results appear.
- Progress of the epoll loops: whether the kernel reports a readable connection again is not modelled; a handler may always be woken while bytes are on the way.
- Data races below the granularity of a step: accesses to the shared table and variables are atomic within a wake-up.
- Supervision.Next: a future pushed while the supervisor iterates over the list is a data race on the vector; the model lets the iteration go on with the bounds it took. `Supervision.FuturesComplete` shows that this needs a short list.
- Delivery.Next: an out-of-file write is a fault, although a mapping rounded up to a page may let it pass unnoticed.
- HandlerRuns.RunAlone: the machine has no streaming mode, so nothing is claimed when a slice of length 0 is announced; the sender makes none. The method runs undisturbed by other handlers; what they do in between is a matter of the machine.
- Receiver.Server.Recv: the receive buffer is modelled by its filled part.
- Decompression.Decompress: in streaming mode (announced length 0) it is not claimed that a complete stream decodes, because the contract of the library promises success only with room for all of it.
- Reception.Wake: `file_size_` is not updated when the second number of the text header does not parse; nothing reads it in that case.
- ThreadPool.Next: the pool is a machine of atomic steps on values, not a class; tasks enqueued during destruction are excluded, as the lifetime of the object demands.
- Sending.SendFile: runs the slice jobs one after another; they share nothing but the read-only file. A segment longer than the file, whose slice reaches past the mapping, and 65536 or more slices, whose index wraps, are excluded; `SplitFile` covers both.
- Sending.SendFileSizeOnly: the pointer into a destroyed temporary string is not modelled; the bytes are those of the string.
- malloc, free and the teardown in the supervisor: not part of what is transferred.
- `SendingFlow::Supervise`, util/sock_factory.h, util/ArrowUtil.h, util/RandomUtil.h, util/ValidUtil.h, flag parsing and demos/: reports, address caching and data generation; no byte of the transferred file depends on them.
