# Verification of tractor and its bundled logging

This project models the parts of the tractor server, and of the spdlog and fmt libraries bundled with it, that carry
state or arithmetic, and proves what they are for. `dafny verify dfyconfig.toml` checks all of it.

| component | files | what is proved |
|---|---|---|
| exact decimal printing | `Powers`, `Bigits`, `Convolution`, `BigitOrder`, `BigInt`, `Rounding`, `Decimals`, `Dragon` | every in-place bigint operation is exact on naturals; fixed-digit printing rounds half to even |
| asynchronous logging | `CircularQueue`, `ThreadPool` | the ring refines a queue with overruns; the shutdown protocol never deadlocks, ends and drains |
| connection input | `Buffer`, `Http`, `RequestLine`, `HttpServer`, `HttpResponse`, `Pipelining` | what is read out of a request; parsing does not depend on how the stream is cut; how many requests are handed out when; responses read back |
| connection output | `Connection` | no byte is lost; when the half-close is orderly |
| request and reply | `Exchange`, `Client` | the client gets the answers to its stream, in order, and then the half-close; it can read the responses off the wire |
| pollers | `EPoller` (with `Channels`), `Poller` | kernel interest and slot table follow the channels |
| timers and functors | `Timers`, `TimerQueue`, `EventLoop` | nothing fires early or is lost; when a wakeup can be missing |
| log rotation | `RotatingSink` | the files hold a suffix of what was there and what was logged |
| ISO week dates | `IsoWeek` | the formulas agree with the calendar |

Code that changes objects in place is modelled by classes whose methods refine a function on values (`View`, `Value`,
`Contents`, `Readable`). What the code promises is then proved of these functions, over every input and, where other
threads or the kernel take part, over every run of a step machine (`Enabled`, `Next`, `Exec`). The kernel's answers to
`write`, `readv`, `poll` and `epoll_ctl` are arbitrary within their contracts.

Where a promise turned out not to hold of the code as it is, there is a witness and the exact condition:

- The final borrow loop of `subtract_aligned` stays on one bigit. The result is exact if and only if nothing is borrowed
  from a zero bigit (`SubtractAligned`, witness `SubtractionFails`). `divmod_assign` stays inside that condition.
- `divmod_assign` returns 0 for a dividend equal to the divisor but stored with a larger exponent, and is right in every
  other case (`DivmodAssign`, witnesses `TwoForms` and `DivisionFails`). `format_dragon` never gets there
  (`IntegersNeverTie`).
- A `shutdown` from another thread can half-close twice, and a `send` from another thread can write after the half-close
  (`TwiceOffLoop`, `LateOffLoop`). After the half-close the connection stays quiet if and only if no such work is queued
  or held by a call that has tested the state and not queued yet (`QuietIff`; in every run, `QuietAfterHalfCloseIff`).
- A channel disabled in the poll-based poller is not polled again after it is enabled (witness
  `EnabledAgainIsNotWatched`, condition `WatchedIff`).
- A channel object removed from the poll-based poller keeps its index, and the assertions of the next update fail
  (witness `RemovedCannotReturn`). An update passes them if and only if the object has not been removed (`AcceptedIff`).
- A functor queued by the loop thread outside `loop()` does not cut short the first poll of the next `loop()`, be it the
  first call or a later one (`FirstPollCanMiss`); nor does one queued by the destructor of a functor that has run cut
  short the next poll (`DestructorCanMiss`). `WakeupIff` is the exact condition for every poll. In polls that are
  neither the first of a `loop()` nor follow such a destructor no wakeup is lost (`NoLostWakeup`).
- A second request that comes in the same read as a first waits for another read, although it is complete
  (`SimpleRequestWaits`; how many are handed out after any reads: `HandedOutIs`).
- A kept-alive response with a body of 10^13 bytes or more does not read back (`OverlongDoesNot`, condition
  `RoundTripIff`).

Where comments and code disagree the model follows the code: any header line without a colon ends the headers, although
section 3.2 of RFC 7230 wants an empty line there.

## Model

| member | source | states |
|---|---|---|
| `BigInt.Accumulator.ToBigit` | include/spdlog/fmt/bundled/format-inl.h:356-358 | The low 32 bits of the 128-bit value. |
| `BigInt.Accumulator.Add` | include/spdlog/fmt/bundled/format-inl.h:360-363 | Adds modulo 2^128 through the 64-bit wrap test, hence exactly when the sum fits. |
| `BigInt.Accumulator.ShiftRight32` | include/spdlog/fmt/bundled/format-inl.h:364-369 | The shifted value is the old 128-bit value divided by 2^32. |
| `BigInt.BigInt.AssignFrom` | include/spdlog/fmt/bundled/format-inl.h:455-461 | Copies bigits and exponent. |
| `BigInt.BigInt.Assign` | include/spdlog/fmt/bundled/format-inl.h:463-471 | The value is n, without leading zero bigits (zero is the single bigit 0), exponent 0. |
| `BigInt.BigInt.RemoveLeadingZeros` | include/spdlog/fmt/bundled/format-inl.h:399-403 | Drops only top bigits, keeps the number, and leaves it canonical. |
| `BigInt.BigInt.MultiplyU32` | include/spdlog/fmt/bundled/format-inl.h:417-426 | The represented natural is multiplied exactly; at most one bigit is added and a non-zero top bigit stays one. |
| `BigInt.WideStep` | include/spdlog/fmt/bundled/format-inl.h:433-438 | In one turn of the 64-bit multiplication neither intermediate exceeds 64 bits, and bigit, carry in and carry out balance. |
| `BigInt.BigInt.MultiplyU64` | include/spdlog/fmt/bundled/format-inl.h:428-443 | The represented natural is multiplied exactly by any 64-bit value. |
| `BigInt.BigInt.PushCarry` | include/spdlog/fmt/bundled/format-inl.h:439-442 | Appending the carry word by word adds it at the next weight and leaves a non-zero top bigit. |
| `BigInt.BigInt.ShiftLeft` | include/spdlog/fmt/bundled/format-inl.h:477-490 | The represented natural is multiplied by 2^shift; the exponent grows by shift / 32. |
| `BigInt.BigInt.ShiftBits` | include/spdlog/fmt/bundled/format-inl.h:482-488 | The in-place carry loop multiplies the bigits by 2^s for 0 < s < 32. |
| `BigInt.BigInt.ShiftDigit` | include/spdlog/fmt/bundled/format-inl.h:484-486 | Shifting one bigit loses nothing: low part and shifted-out bits recombine to the product plus carry. |
| `BigInt.BigInt.Compare` | include/spdlog/fmt/bundled/format-inl.h:498-512 | Exact sign of the difference of the values when the operand with more positions has a non-zero top bigit; equal values compare by exponent, the smaller exponent winning. |
| `BigInt.BigInt.AddCompare` | include/spdlog/fmt/bundled/format-inl.h:515-536 | Exact sign of lhs1 + lhs2 - rhs for every mix of exponents, leading zeros mattering only where a length shortcut is taken. |
| `BigInt.BigInt.AddCompareBigits` | include/spdlog/fmt/bundled/format-inl.h:524-535 | The top-down borrow loop with its two early exits decides the sign of the sum over the common window. |
| `BigitOrder.ExcessDecides` | include/spdlog/fmt/bundled/format-inl.h:530-532 | A negative excess of the high parts, or one above 1, fixes the sign whatever the lower bigits are: why the early exits are sound. |
| `BigitOrder.LowestBigitSeparates` | include/spdlog/fmt/bundled/format-inl.h:498-512 | A number whose lowest stored bigit is non-zero never equals one stored with a larger exponent. |
| `Convolution.ColumnsAreProduct` | include/spdlog/fmt/bundled/format-inl.h:565-582 | The column sums of the schoolbook product, at their weights, add up to the product. |
| `BigInt.BigInt.AddLowerColumn` | include/spdlog/fmt/bundled/format-inl.h:568-571 | Adds one column of the lower half, j running down from k, without overflowing 128 bits. |
| `BigInt.BigInt.AddUpperColumn` | include/spdlog/fmt/bundled/format-inl.h:578-579 | Adds one column of the upper half, i running up, without overflowing 128 bits. |
| `BigInt.BigInt.EmitBigit` | include/spdlog/fmt/bundled/format-inl.h:572-573 | Storing the low word and shifting the accumulator keeps stored bigits plus carry equal to the columns so far. |
| `BigInt.BigInt.SquareLowerHalf` | include/spdlog/fmt/bundled/format-inl.h:565-574 | After the first phase the low half is in place and the accumulator is the carry. |
| `BigInt.BigInt.SquareUpperHalf` | include/spdlog/fmt/bundled/format-inl.h:576-582 | After the second phase all bigits are in place. |
| `BigInt.BigInt.FinishSquare` | include/spdlog/fmt/bundled/format-inl.h:583-584 | No carry is left over; dropping zeros and doubling the exponent gives the square. |
| `BigInt.BigInt.Square` | include/spdlog/fmt/bundled/format-inl.h:558-585 | The represented natural is squared exactly. |
| `BigInt.BigInt.AssignPow10` | include/spdlog/fmt/bundled/format-inl.h:539-556 | The value is exactly 10^e for every e below the bit-mask limit. |
| `BigInt.BigInt.AssignPow5` | include/spdlog/fmt/bundled/format-inl.h:542-554 | Square-and-multiply over the bits of e gives exactly 5^e. |
| `BigInt.BigInt.NextBit` | include/spdlog/fmt/bundled/format-inl.h:551-552 | One turn takes 5^(e shifted right by t) to 5^(e shifted right by t - 1). |
| `BigInt.BigInt.FindTopBit` | include/spdlog/fmt/bundled/format-inl.h:543-545 | Finds the highest power of two not above e. |
| `BigInt.BigInt.Align` | include/spdlog/fmt/bundled/format-inl.h:589-598 | Trades exponent for trailing zero bigits without changing the value. |
| `BigInt.BigInt.MoveUp` | include/spdlog/fmt/bundled/format-inl.h:593-596 | The overlapping top-down move shifts the bigits up and clears those below. |
| `BigInt.BigInt.SubtractBigits` | include/spdlog/fmt/bundled/format-inl.h:393-397 | One wrapping 64-bit subtraction gives the right bigit and the right borrow. |
| `BigInt.BigInt.SubtractFacing` | include/spdlog/fmt/bundled/format-inl.h:409-412 | The first loop subtracts modulo the facing bigits and returns the borrow out. |
| `BigInt.BigInt.SettleBorrow` | include/spdlog/fmt/bundled/format-inl.h:413 | The final loop, whose index stays put, ends and turns a zero bigit into 2^32 - 2. |
| `BigInt.BigInt.SubtractInPlace` | include/spdlog/fmt/bundled/format-inl.h:409-413 | Both loops together: the difference plus the overshoot of the final loop. |
| `BigInt.BigInt.SubtractAligned` | include/spdlog/fmt/bundled/format-inl.h:406-415 | The difference plus an explicit overshoot; exact if and only if nothing is borrowed from a zero bigit above the subtrahend. |
| `BigInt.SubtractionFails` | include/spdlog/fmt/bundled/format-inl.h:413 | 2^64 - 1 is a subtraction that comes out too large, by (2^32 - 1) * 2^32. |
| `BigInt.BigInt.SubtractIsExact` | include/spdlog/fmt/bundled/format-inl.h:609-611 | A minuend below 2^32 times the subtrahend has at most one bigit above it, and that one is not zero. |
| `BigInt.BigInt.DivmodAssign` | include/spdlog/fmt/bundled/format-inl.h:602-613 | old == q * divisor + r with r < divisor, except exactly when the dividend equals the divisor but has the larger exponent. |
| `BigInt.TwoForms` | include/spdlog/fmt/bundled/format-inl.h:602-604 | The bigit 1 with exponent 1 and the bigits 0, 1 with exponent 0 are both 2^32. |
| `BigInt.BigInt.DivisionFails` | include/spdlog/fmt/bundled/format-inl.h:602-613 | 2^32 shifted into place, divided by 2^32 as assigned: the quotient is 0 and the dividend is left whole. |
| `BigInt.BigInt.DivideAligned` | include/spdlog/fmt/bundled/format-inl.h:607-612 | The repeat-subtract loop ends, with quotient at least 1 and a remainder below the divisor. |
| `BigInt.BigInt.SubtractOnce` | include/spdlog/fmt/bundled/format-inl.h:609-611 | One round subtracts exactly once and tests for another round exactly. |
| `Dragon.StartFraction` | include/spdlog/fmt/bundled/format-inl.h:2237-2271 | In all three branches numerator / denominator is f * 2^e / 10^exp10, normalised, and never tied by accident. |
| `Dragon.IntegersNeverTie` | include/spdlog/fmt/bundled/format-inl.h:2239-2250 | For e >= 0 no numerator times a power of ten equals the denominator when the exponents are in the wrong order: powers of 5 are odd and the significand has 64 bits. |
| `Dragon.NextDigit` | include/spdlog/fmt/bundled/format-inl.h:2313 | Splits off a digit from 0 to 9, leaving a fraction below one. |
| `Dragon.EmitDigit` | include/spdlog/fmt/bundled/format-inl.h:2313-2315 | Digits so far and remaining fraction still make up the scaled value after one more digit. |
| `Dragon.LeadingDigits` | include/spdlog/fmt/bundled/format-inl.h:2312-2316 | All digits but the last: their number and the fraction left make up the scaled value exactly. |
| `Dragon.CompareHalf` | include/spdlog/fmt/bundled/format-inl.h:2318 | The exact sign of twice the remainder minus the denominator. |
| `Dragon.LastDigit` | include/spdlog/fmt/bundled/format-inl.h:2317-2319 | The last digit, rounded up or not, is the scaled value rounded half to even. |
| `Dragon.PropagateCarry` | include/spdlog/fmt/bundled/format-inl.h:2324-2327 | The carry loop keeps the number and leaves digits, or an overflow followed by zeros. |
| `Dragon.CarryNine` | include/spdlog/fmt/bundled/format-inl.h:2320-2331 | A carry out of the top digit becomes 10...0 one place up. |
| `Dragon.WriteLast` | include/spdlog/fmt/bundled/format-inl.h:2319-2336 | Writing the last digit adds the rounding unit to the number, whatever carries. |
| `Dragon.FixedDigits` | include/spdlog/fmt/bundled/format-inl.h:2311-2336 | n digits whose number, times ten if carried, is the scaled fraction rounded half to even. |
| `Dragon.HigherPlace` | include/spdlog/fmt/bundled/format-inl.h:2305-2309 | With no digits asked for: 1 if more than half of the next place, else 0. |
| `Dragon.FormatDragon` | include/spdlog/fmt/bundled/format-inl.h:2225-2336 | For num_digits >= 0: the requested number of digits, which with the final exponent are f * 2^e rounded half to even; exp10 is one higher only with digits 10...0. |
| `Rounding.RoundingUnique` | include/spdlog/fmt/bundled/format-inl.h:2318-2319 | Rounding half to even determines the integer, so the digits above are the only right ones. |
| `CircularQueue.CircularQueue.constructor` | include/spdlog/details/circular_q.h:27-30 | An empty queue with one slot more than its capacity. |
| `CircularQueue.CircularQueue.Disabled` | include/spdlog/details/circular_q.h:24-25 | A queue without slots, which stores nothing. |
| `CircularQueue.RingAppend` | include/spdlog/details/circular_q.h:53-60 | Writing at the tail appends to the ring, or drops its oldest item when the tail meets the head. |
| `CircularQueue.CircularQueue.PushBack` | include/spdlog/details/circular_q.h:49-62 | Appends; a full queue loses its oldest item and counts one overrun; a disabled one ignores the push. |
| `CircularQueue.CircularQueue.Front` | include/spdlog/details/circular_q.h:66-74 | The oldest item. |
| `CircularQueue.CircularQueue.Size` | include/spdlog/details/circular_q.h:77-87 | The number of items stored, around the wrap. |
| `CircularQueue.CircularQueue.At` | include/spdlog/details/circular_q.h:91-95 | The i-th oldest item, around the wrap. |
| `CircularQueue.CircularQueue.PopFront` | include/spdlog/details/circular_q.h:99-102 | Removes the oldest item. |
| `CircularQueue.CircularQueue.Empty` | include/spdlog/details/circular_q.h:104-107 | True exactly if nothing is stored. |
| `CircularQueue.CircularQueue.Full` | include/spdlog/details/circular_q.h:109-117 | True exactly if as much is stored as the capacity allows; never for a disabled queue. |
| `CircularQueue.CircularQueue.MoveFrom` | include/spdlog/details/circular_q.h:131-143 | Takes over contents and counters; the other queue ends up disabled and empty. |
| `CircularQueue.Perform` | include/spdlog/details/circular_q.h:48-102 | A push or pop on the queue object is one step of its history, overrun counter included. |
| `CircularQueue.RunAccounted` | include/spdlog/details/circular_q.h:48-117 | Over any pushes and pops: pushed == removed ++ stored, and every removal is a pop or a counted overrun. |
| `CircularQueue.PushesKeepNewest` | include/spdlog/details/circular_q.h:48-62 | Items pushed one after the other: the newest stay, as many as there is room for, and each of the others is an overrun. |
| `CircularQueue.QueueConservation` | include/spdlog/details/circular_q.h:48-117 | From empty: pushed == popped + stored + overruns, and what is stored is the newest of what was pushed. |
| `CircularQueue.RingBufferSink.SinkIt` | include/spdlog/sinks/ringbuffer_sink.h:59-62 | The message becomes the newest, at the cost of the oldest when full. |
| `CircularQueue.RingBufferSink.LastRaw` | include/spdlog/sinks/ringbuffer_sink.h:28-40 | The newest min(lim, size) messages in order; all of them for lim 0. |
| `ThreadPool.BlockingQueue.Enqueue` | include/spdlog/details/mpmc_blocking_q.h:32-40 | Once there is room: appends, without overrun. |
| `ThreadPool.BlockingQueue.EnqueueNowait` | include/spdlog/details/mpmc_blocking_q.h:43-50 | Always appends; overruns the oldest message when full. |
| `ThreadPool.BlockingQueue.DequeueFor` | include/spdlog/details/mpmc_blocking_q.h:54-67 | Takes the oldest message; fails only on an empty queue, changing nothing. |
| `ThreadPool.PostAsyncMsg` | include/spdlog/details/thread_pool-inl.h:88-98 | With policy block, room being there, the message is appended and nothing overrun; otherwise it is appended at once, and the oldest message overrun exactly if the queue is full. Either is the step of the machine. |
| `ThreadPool.PostableIff` | include/spdlog/details/thread_pool-inl.h:88-98 | A logger can always post with the overrunning policy, and with block exactly if there is room. |
| `ThreadPool.ProcessNextMsg` | include/spdlog/details/thread_pool-inl.h:108-138 | Takes the oldest message, if there is one, and handles it unless it is a terminate; false exactly for a terminate. These are the steps of the machine. |
| `ThreadPool.NextInv` | include/spdlog/details/thread_pool-inl.h:45-138 | Every step of loggers, destructor and workers keeps counts, message flow, messages in hand and order. |
| `ThreadPool.ExecInv` | include/spdlog/details/thread_pool-inl.h:45-138 | The invariant holds after every interleaving. |
| `ThreadPool.BlockingPostsLoseNothing` | include/spdlog/details/thread_pool-inl.h:88-98 | In every run whose posts all block nothing is overrun. |
| `ThreadPool.LiveWorkersAccounted` | include/spdlog/details/thread_pool-inl.h:45-60 | In every interleaving live workers == terminates queued + terminates to post, and accepted == removed ++ queued. |
| `ThreadPool.NotStuck` | include/spdlog/details/thread_pool-inl.h:45-60 | A shutdown that is not finished can always take a step other than a time-out. |
| `ThreadPool.StuckIff` | include/spdlog/details/thread_pool-inl.h:45-60 | An unfinished shutdown is stuck if and only if the queue has no room for a single message. |
| `ThreadPool.ShutdownProgress` | include/spdlog/details/thread_pool-inl.h:100-138 | Every step of the shutdown but a time-out reduces the work left. |
| `ThreadPool.ShutdownBounded` | include/spdlog/details/thread_pool-inl.h:100-138 | Hence the number of such steps is bounded by the work left when the destructor starts. |
| `ThreadPool.ShutdownDrains` | include/spdlog/details/thread_pool-inl.h:45-60 | When the last worker has exited the queue is empty, each accepted message was removed once in order, n terminates were taken and none overrun, and the workers handled exactly what they took. |
| `ThreadPool.SingleWorkerInOrder` | include/spdlog/details/thread_pool-inl.h:108-138 | A single worker handles messages in the order it takes them. |
| `ThreadPool.SingleWorkerDrains` | include/spdlog/details/thread_pool-inl.h:45-60 | With one worker, every message not overrun has been handled in the order of acceptance at the end. |
| `Buffer.Buffer.constructor` | include/tractor/Buffer.h:16-24 | Empty, with 8 bytes in front and 1024 to write. |
| `Buffer.Buffer.Retrieve` | include/tractor/Buffer.h:51-55 | Drops exactly the first len readable bytes. |
| `Buffer.Buffer.RetrieveAll` | include/tractor/Buffer.h:64-68 | Nothing is left to read. |
| `Buffer.Buffer.RetrieveAsString` | include/tractor/Buffer.h:70-75 | Returns all readable bytes and leaves none. |
| `Buffer.Buffer.MakeSpace` | include/tractor/Buffer.h:151-168 | Keeps the readable bytes, always makes the room asked for, and compacts only from a reader index above 8. |
| `Buffer.Buffer.Append` | include/tractor/Buffer.h:82-101 | The readable bytes grow by exactly the given ones at the end. |
| `Buffer.Buffer.Prepend` | include/tractor/Buffer.h:118-124 | The readable bytes grow by exactly the given ones in front. |
| `Buffer.IndexOfCRLF` | include/tractor/Buffer.h:133-137 | The first line end, or none. |
| `Buffer.Buffer.FindCRLF` | include/tractor/Buffer.h:133-137 | Finds the first line end among the readable bytes, or reports that there is none. |
| `Buffer.Buffer.ReadFd` | src/Buffer.cpp:7-35 | A scatter read of n bytes appends exactly those, in stream order, also past the free space; a failed read changes nothing. |
| `HttpServer.HttpRequest.SetMethod` | include/tractor/HttpRequest.h:36-73 | Sets the named method and reports whether it is a known one. |
| `HttpServer.HttpRequest.AddHeader` | include/tractor/HttpRequest.h:130-146 | Stores the value with leading and trailing white space removed, under the text before the colon. |
| `HttpServer.HttpRequest.Clear` | include/tractor/HttpRequest.h:164-172 | Swapping with a new request leaves a fresh one. |
| `HttpServer.HttpParser.ProcessRequestLine` | src/HttpParser.cpp:66-107 | Refines the value-level request line: method, path, query, version, and what a rejected line has already changed. |
| `HttpServer.HttpParser.ParseLine` | src/HttpParser.cpp:10-63 | One turn of the loop refines one turn of the specification. |
| `HttpServer.HttpParser.ParseRequest` | src/HttpParser.cpp:6-65 | The loop ends and refines the parse of the readable bytes: verdict, state, request and unread bytes. |
| `RequestLine.LineIsRead` | src/HttpParser.cpp:66-107 | A line of name, path, query and version is read as these: path up to the question mark, query from it. |
| `RequestLine.LineAcceptedIff` | src/HttpParser.cpp:66-107 | A line is accepted if and only if it is one of the seven names, a word, and HTTP/1.0 or HTTP/1.1, parted by single spaces. |
| `RequestLine.MethodIff` | include/tractor/HttpRequest.h:36-73 | The seven names, each with its verb, and no other name. |
| `RequestLine.VersionIff` | src/HttpParser.cpp:88-103 | HTTP/1.0 and HTTP/1.1, and no other version. |
| `RequestLine.TargetIs` | src/HttpParser.cpp:77-86 | Path and query part before the first question mark. |
| `RequestLine.RequestIsRead` | src/HttpParser.cpp:6-65 | A whole request: its line and headers, in any order, are read, and what follows the blank line is left. |
| `RequestLine.HeaderIsStored` | include/tractor/HttpRequest.h:130-146 | Under the text before the colon, the text after it without the white space around it, and nothing else changes. |
| `RequestLine.RefusedIsLeft` | src/HttpParser.cpp:19-29 | A refused line fails the parse and is left in place with all after it. |
| `RequestLine.PartIsLeft` | src/HttpParser.cpp:31-34 | Without a whole line nothing happens. |
| `Http.TurnAtEnd` | src/HttpParser.cpp:42-52 | A line without colon ends the headers, whatever else it says. |
| `Http.TurnOf` | src/HttpParser.cpp:10-63 | A turn takes a whole line or nothing; only a bad request line fails, only a header turn finishes. |
| `Http.Parse` | src/HttpParser.cpp:6-65 | Terminates; what is left unread is the end of the input; a finished request has used some input. |
| `Http.FirstCRLFStays` | src/HttpParser.cpp:39-52 | Later bytes do not move the first line end. |
| `Http.TurnAppend` | src/HttpParser.cpp:10-63 | Later bytes do not change what a turn does with a complete line. |
| `Http.ParseAppend` | src/HttpParser.cpp:6-65 | Stopping for lack of input and resuming when more arrives equals parsing it all at once. |
| `Http.RequestsAppend` | src/HttpServer.cpp:35-51 | The requests of a stream are those of its first part continued with the rest. |
| `Http.OnMessageStep` | src/HttpServer.cpp:35-51 | One read neither changes what comes out in total nor loses or repeats a byte. |
| `Http.ChunkingInvisible` | src/HttpServer.cpp:35-51 | For every cutting into chunks: handed out ++ still to come == requests of the whole stream; consumed ++ unread == received. |
| `Http.DeliveredIsPrefix` | src/HttpServer.cpp:35-51 | What was handed to onRequest is a prefix of the requests of the whole stream, and all of them once a line is rejected. |
| `Http.FreshBetweenRequests` | src/HttpServer.cpp:46-50 | Until a line is rejected, waiting for a request line means having a fresh request. |
| `HttpServer.HttpParser.Reset` | include/tractor/HttpParser.h:26-31 | Back to the first state with a fresh request. |
| `HttpServer.HttpSession.OnMessage` | src/HttpServer.cpp:35-51 | Refines the value-level read: parse, hand out, start afresh. |
| `HttpServer.HttpSession.Deliver` | src/HttpServer.cpp:46-50 | Hands out a finished request exactly once and resets. |
| `HttpServer.HttpSession.HandleRead` | src/TcpConnection.cpp:50-70 | A positive result is one read of the session with those bytes, 0 closes, an error changes nothing. |
| `HttpResponse.HttpResponse.AppendToBuffer` | src/HttpResponse.cpp:8-37 | Appends status line, fixed headers, every header once in some order, blank line and body, with the 31-character cut of formatted lines. |
| `HttpResponse.HttpResponse.AppendFixedHeaders` | src/HttpResponse.cpp:16-25 | Appends Connection, and Content-Length when kept alive. |
| `HttpResponse.HttpResponse.AppendHeaders` | src/HttpResponse.cpp:27-33 | Appends each header of the map once. |
| `HttpResponse.ParseHeaderLine` | src/HttpResponse.cpp:27-33 | The parser reads a printed header line back as that header. |
| `HttpResponse.ParseBlock` | src/HttpResponse.cpp:27-33 | The parser reads the printed headers back, in any order. |
| `HttpResponse.ClosingReadsBack` | src/HttpResponse.cpp:16-19 | With Connection: close the header section reads back as the headers plus Connection, body unread. |
| `HttpResponse.KeepAliveReadsBack` | src/HttpResponse.cpp:20-25 | Kept alive with a body below 10^13 bytes: plus Content-Length equal to the body size. |
| `HttpResponse.OverlongDoesNot` | src/HttpResponse.cpp:22-24 | From 10^13 bytes on the cut length line swallows the Connection header. |
| `HttpResponse.RoundTripIff` | src/HttpResponse.cpp:8-37 | Print then parse gives the headers back if and only if the connection closes or the body is below 10^13 bytes. |
| `Decimals.DigitsRoundTrip` | src/HttpResponse.cpp:22 | A decimal numeral denotes the number it was printed from. |
| `Exchange.ClosesAfterIs` | src/HttpServer.cpp:55-57 | After close it closes, after Keep-Alive it does not, otherwise exactly for HTTP/1.0. |
| `Exchange.RepliedKeeps` | src/HttpServer.cpp:53-67 | Sending a reply and shutting down after a closing one keeps the connection in order; the bytes count exactly if it was still connected. |
| `Exchange.ExpectedNext` | src/HttpServer.cpp:35-67 | A reply is what the client should get next, unless the connection was to be closed before. |
| `Exchange.AllKeep` | src/HttpServer.cpp:35-67 | Every read and every write, with any result, keeps accepted bytes equal to what the client should get. |
| `Exchange.SessionIs` | src/HttpServer.cpp:35-51 | What is read does not depend on what is written. |
| `Exchange.ExchangeIsOrderly` | src/HttpServer.cpp:35-67 | For every chunking, every handler and every result of write: wire ++ output buffer == the answers to the requests handed out, up to the first closing one, or the refusal; one half-close, exactly when one of these is due and all is on the wire, and no byte after it. |
| `Exchange.StreamIsAnswered` | src/HttpServer.cpp:35-67 | The client gets a prefix of the answers to the requests of its whole stream; once a line is rejected, all of them and the refusal unless one closed. |
| `Exchange.Print` | src/HttpServer.cpp:60-61 | The text of a reply is status line and header section of the response. |
| `Exchange.Respond` | src/HttpServer.cpp:62-66 | Sends the reply and shuts down if it closes. |
| `Exchange.OnData` | src/HttpServer.cpp:35-67 | One read of the session and its reply refine one event of the exchange. |
| `Pipelining.HandedOutIs` | src/HttpServer.cpp:35-51 | After any reads exactly as many requests have been handed out as one more with each read allows, up to what has come. |
| `Pipelining.HandedOutIsLeast` | src/HttpServer.cpp:46-50 | That number is the least, over the reads, of what had come by then plus one for each read since. |
| `Pipelining.PipelinedWaits` | src/HttpServer.cpp:46-50 | Two requests in one read: one is handed out, the other by the next read, whatever that brings. |
| `Pipelining.SimpleRequestWaits` | src/HttpServer.cpp:35-51 | It happens with two plain GET requests. |
| `Client.ReadOneIs` | src/HttpResponse.cpp:8-37 | One printed response, with more after it unless it closes, is read back whole by status line, headers and Content-Length. |
| `Client.LineEndsAt` | include/tractor/Buffer.h:133-137 | A line ends at its line end even if it ends in half of one. |
| `Client.AnswersArePieces` | src/HttpServer.cpp:53-67 | The answers of a handler that prints responses are these responses, each of which can be read back. |
| `Client.ReadAllIs` | src/HttpServer.cpp:53-67 | A stream of pieces that can be read back, only the last of which may close, is read back piece by piece. |
| `Client.ClientSeesResponses` | src/HttpServer.cpp:35-67 | With printed responses, for every exchange: a client reading wire ++ output buffer sees exactly the responses to the requests handed out, up to the first that closes, and the refusal if a line was rejected first. |
| `Client.SeenTells` | src/HttpResponse.cpp:8-37 | What the client sees determines code, message, closing, headers and body. |
| `Connection.TcpConnection.SendInLoop` | src/TcpConnection.cpp:196-234 | Refines the value-level send under any result of write. |
| `Connection.TcpConnection.Send` | src/TcpConnection.cpp:162-175 | On the loop thread: sends if connected, else drops. |
| `Connection.TcpConnection.ShutdownInLoop` | src/TcpConnection.cpp:154-161 | Half-closes unless still writing. |
| `Connection.TcpConnection.HandleWrite` | src/TcpConnection.cpp:107-144 | Refines the value-level flush under any result of write, half-closing a disconnecting connection that has drained. |
| `Connection.TcpConnection.Shutdown` | src/TcpConnection.cpp:146-153 | On the loop thread: at once, and only if connected. |
| `Connection.TcpConnection.HandleClose` | src/TcpConnection.cpp:71-80 | Gives up all interest in events. |
| `Connection.StepConserved` | src/TcpConnection.cpp:107-234 | Every step keeps wire ++ output buffer == accepted, and write interest in step with the buffer. |
| `Connection.OutputConserved` | src/TcpConnection.cpp:107-234 | In every run, with calls from any thread interleaved anywhere: no byte is lost, repeated or reordered; write interest implies buffered bytes, and is equivalent to them before close. |
| `Connection.WireIsWhatWasTaken` | src/TcpConnection.cpp:107-234 | In every run the wire is what the kernel took of the bytes offered in each write, in order; with the output buffer it is the messages passed for sending, in order. |
| `Connection.WritableTakes` | src/TcpConnection.cpp:112-132 | A write of the buffer that takes n bytes removes exactly these from its front, and the interest ends with the buffer. |
| `Connection.WritesDrain` | src/TcpConnection.cpp:112-132 | Any writes that each take something remove their sum, in at most as many writes as there are bytes. |
| `Connection.SendsAccounted` | src/TcpConnection.cpp:162-195 | In every run a message sent while connected, from any thread, is passed on as often as it was sent, or still waits to be. |
| `Connection.ShutdownIsOrderly` | src/TcpConnection.cpp:146-175 | With calls on the loop thread: at most one half-close, exactly when a requested shutdown finds every accepted byte on the wire, and no byte after it. |
| `Connection.TwiceOffLoop` | src/TcpConnection.cpp:146-161 | A shutdown from another thread, preempted between setting the state and queueing, half-closes a second time although nothing is queued at the first. |
| `Connection.LateOffLoop` | src/TcpConnection.cpp:162-175 | A send from another thread, preempted between testing the state and queueing, writes after the half-close. |
| `Connection.QuietIff` | src/TcpConnection.cpp:146-195 | From a connection that has half-closed with nothing left to write, it stays quiet in every continuation if and only if no work that does something is queued, or held by a call that has tested the state and not queued it yet. |
| `Connection.FirstHalfCloseDrains` | src/TcpConnection.cpp:107-161 | In every run, from any threads, the step that makes the first half-close before a close leaves nothing to write and every accepted byte on the wire. |
| `Connection.QuietAfterHalfCloseIff` | src/TcpConnection.cpp:107-195 | So the condition decides in every run, at its first half-close. |
| `Channels.ReadingEnabled` | include/tractor/Channel.h:44-48 | Sets the read bits and keeps every other. |
| `Channels.WritingEnabled` | include/tractor/Channel.h:49-53 | Sets the write bit and keeps every other. |
| `Channels.WritingDisabled` | include/tractor/Channel.h:54-58 | Clears the write bit and keeps every other, reading in particular. |
| `Channels.AllDisabled` | include/tractor/Channel.h:59-63 | Clears every bit. |
| `EPoller.UpdateEffect` | src/EPoller.cpp:77-114 | After an update the kernel watches the channel for what it now wants, unless that is nothing and it was watched before; nothing else changes. |
| `EPoller.RemoveEffect` | src/EPoller.cpp:115-132 | After a removal the kernel does not watch the channel; nothing else changes. |
| `EPoller.ApplyInSync` | src/EPoller.cpp:77-132 | Every legal operation keeps the kernel set equal to the added channels with their masks, deleted channels empty, and no call refused. |
| `EPoller.KernelFollows` | src/EPoller.cpp:77-132 | That holds over every legal sequence of operations. |
| `EPoller.CtlPoints` | src/EPoller.cpp:133-144 | The kernel keeps pointers to registered channels only. |
| `EPoller.EPoller.UpdateChannel` | src/EPoller.cpp:77-114 | ADD, MOD or DEL as the index and mask say, with the new index. |
| `EPoller.EPoller.Change` | src/EPoller.cpp:77-114 | A change of interest followed by the update refines the registry step and keeps everything in step. |
| `EPoller.EPoller.RemoveChannel` | src/EPoller.cpp:115-132 | Refines the registry removal; the channel is new again. |
| `EPoller.EPoller.Unregister` | src/EPoller.cpp:122-131 | Erases the entry and deletes from the kernel exactly if the channel was added. |
| `EPoller.EPoller.FillActiveChannels` | src/EPoller.cpp:62-76 | Both look-ups succeed for every reported pointer, the channels come out in order, and their events are recorded. |
| `Poller.RemovedWellFormed` | src/Poller.cpp:90-120 | Swap-remove keeps the bijection of channels and slots. |
| `Poller.ApplySound` | src/Poller.cpp:55-120 | Every operation that passes the assertions keeps bijection, slot descriptors, slot events, and the stale indices of removed channel objects apart from the registered ones. |
| `Poller.TableStaysWellFormed` | src/Poller.cpp:55-120 | That holds over every sequence of operations that pass them. |
| `Poller.AcceptedIff` | src/Poller.cpp:59-80 | Read off the operations: an update passes its assertions if and only if its channel object has not been removed. |
| `Poller.RemovedCannotReturn` | src/Poller.cpp:59-120 | Enabled, disabled and removed, a channel object keeps index 0 and cannot be registered again; a new object for the descriptor can, and is watched. |
| `Poller.WatchedIff` | src/Poller.cpp:72-88 | Read off the operations: a channel is given to poll if and only if it is registered and no update since it was last added left it without events. |
| `Poller.EnabledAgainIsNotWatched` | src/Poller.cpp:79-87 | Enabled, disabled and enabled again, a channel wants to read and its slot stays ignored. |
| `Poller.ActiveSlotsExact` | src/Poller.cpp:39-53 | The active slots are those with positive revents, each once, in order. |
| `Poller.LookupsSucceed` | src/Poller.cpp:45-48 | Every active slot finds its channel, different slots different channels. |
| `Poller.ScanSlots` | src/Poller.cpp:39-53 | The early-exit scan returns the first numEvents active slots, hence all of them when that is their number. |
| `Poller.Poller.NewChannel` | src/Poller.cpp:59-63 | A new channel object for a descriptor that is not registered starts without index. |
| `Poller.Poller.Change` | src/Poller.cpp:55-89 | A change of interest followed by an update that passes its assertions refines the step of the record. |
| `Poller.Poller.AddChannel` | src/Poller.cpp:59-71 | A new channel gets the next slot. |
| `Poller.Poller.UpdateExisting` | src/Poller.cpp:72-88 | Rewrites the slot; without events it is hidden. |
| `Poller.Poller.RemoveChannel` | src/Poller.cpp:90-120 | Refines the removal; the channel keeps its index, and the next update of it would fail its assertions. |
| `Poller.Poller.SwapOut` | src/Poller.cpp:97-119 | Moves the last slot into the freed one and tells its channel. |
| `Poller.Poller.FillActiveChannels` | src/Poller.cpp:36-54 | Reports the channel of each scanned slot and records its events. |
| `TimerQueue.HowMuchTimeFromNow` | src/TimerQueue.cpp:25-38 | A valid timespec of exactly the delay, at least 100 microseconds. |
| `TimerQueue.TimerQueue.InsertTimer` | src/TimerQueue.cpp:174-187 | Inserts in order and reports whether the earliest due time changed. |
| `TimerQueue.TimerQueue.AddTimerInLoop` | src/TimerQueue.cpp:103-112 | Adds the timer and arms the alarm if it is the first due. |
| `TimerQueue.TimerQueue.GetExpired` | src/TimerQueue.cpp:132-142 | Takes out exactly the entries at the front that are due. |
| `TimerQueue.TimerQueue.RunCallbacks` | src/TimerQueue.cpp:122-127 | Runs the callbacks in order, with the timers they add. |
| `TimerQueue.TimerQueue.Reset` | src/TimerQueue.cpp:144-172 | Restarts repeating timers, deletes the others, arms the alarm; with no timer left, for an arbitrary value. |
| `TimerQueue.TimerQueue.HandleRead` | src/TimerQueue.cpp:114-130 | The whole round refines its value-level form, and fires once for each entry that is due. |
| `Timers.InsertOrder` | src/TimerQueue.cpp:183-185 | Insertion keeps the order and its first due time is the earlier of the two. |
| `Timers.DueSplit` | src/TimerQueue.cpp:135-139 | Everything before the split is due, nothing after it. |
| `Timers.AddKeeps` | src/TimerQueue.cpp:103-112 | Adding a timer keeps the invariant. |
| `Timers.RunAllKeeps` | src/TimerQueue.cpp:122-127 | Running the callbacks, whatever timers they add, keeps the invariant of the round. |
| `Timers.ResetAllKeeps` | src/TimerQueue.cpp:148-161 | Putting repeating timers back never fails and restores entries and lives. |
| `Timers.HandleReadKeeps` | src/TimerQueue.cpp:114-172 | A whole round keeps the invariant. |
| `Timers.AddEffect` | src/TimerQueue.cpp:103-112 | Adding puts exactly the new entry into the queue. |
| `Timers.HandleReadEffect` | src/TimerQueue.cpp:114-172 | An alarm fires once, at now, for each entry due by then, in order, repeating or not; the queue then holds what was not due, the repeating timers that were, one interval on, and what the callbacks added. |
| `Timers.TimersKept` | src/TimerQueue.cpp:103-187 | In every run: armed for the minimum; entries agree with timers; the firings are those of the alarms, none early; a one-shot is pending or fired exactly once; a repeating timer is always pending. |
| `Timers.WholeSeconds` | src/Timer.cpp:5-16 | A timer of k whole seconds is due again 1000000 k microseconds after it has run. |
| `Timers.RestartKeeps` | src/Timer.cpp:5-16 | Restarting a repeating timer puts it back at a due time not before now, and keeps the invariant. |
| `EventLoop.FunctorsInOrder` | src/EventLoop.cpp:117-144 | In every interleaving: run ++ rest of batch ++ pending == queued. |
| `EventLoop.NoLostWakeup` | src/EventLoop.cpp:61-80 | In any poll but the first of a call of loop(), a non-empty queue has a wakeup made or owed since the last poll returned, unless a destructor has queued something since the last swap. |
| `EventLoop.WakeupIff` | src/EventLoop.cpp:61-80 | In any poll of any call of loop() that holds if and only if nothing is pending, or another thread or a functor has queued something since the last poll returned, or another thread owed a wakeup then. |
| `EventLoop.DestructorCanMiss` | src/EventLoop.cpp:129-144 | A functor whose destruction queues another one, after the flag is cleared: the next poll, not the first, is entered with no wakeup. |
| `EventLoop.QueuedBeforeLoop` | src/EventLoop.cpp:117-128 | A functor queued by the loop thread outside the loop enters the next poll with no wakeup, from any such state without one. |
| `EventLoop.FirstPollCanMiss` | src/EventLoop.cpp:61-80 | So it is before the first loop(), and again before a second one. |
| `RotatingSink.SplitByExtension` | include/spdlog/details/file_helper-inl.h:149-169 | The parts join to the name; they part at the last dot if it lies inside the last path component, neither at its start nor at its end, and otherwise not at all. |
| `RotatingSink.NameForm` | include/spdlog/sinks/rotating_file_sink-inl.h:55-65 | The index goes, after a dot, before the extension, or to the end of a name without one. |
| `RotatingSink.NamesDiffer` | include/spdlog/sinks/rotating_file_sink-inl.h:55-65 | Different indices have different file names. |
| `RotatingSink.MoveStep` | include/spdlog/sinks/rotating_file_sink-inl.h:117-136 | One turn of the renaming loop moves one file up by one index, or leaves a gap where it is. |
| `RotatingSink.MovedChronological` | include/spdlog/sinks/rotating_file_sink-inl.h:109-139 | The whole rotation keeps the order of the messages and loses only what the topmost file gives up. |
| `RotatingSink.RotatedKeeps` | include/spdlog/sinks/rotating_file_sink-inl.h:109-139 | A rotation keeps dropped messages ++ files equal to the history, and the sizes. |
| `RotatingSink.SunkKeeps` | include/spdlog/sinks/rotating_file_sink-inl.h:75-95 | So does sinking a message, which is added to the history. |
| `RotatingSink.FittingStay` | include/spdlog/sinks/rotating_file_sink-inl.h:75-95 | Messages that fit together with what the current file holds all go there; nothing is dropped and no other file changes. |
| `RotatingSink.OpenedKeeps` | include/spdlog/sinks/rotating_file_sink-inl.h:43-49 | So does opening over files that are there, whatever they are, with or without rotation. |
| `RotatingSink.FilesHoldSuffix` | include/spdlog/sinks/rotating_file_sink-inl.h:43-139 | Whatever an earlier run left: files oldest to newest hold a suffix of what was there and what was logged, cut at a message; each file logged to is within max_size or holds one non-empty message. |
| `RotatingSink.DiskHoldsSuffix` | include/spdlog/sinks/rotating_file_sink-inl.h:75-139 | The bytes on disk, oldest file first, are the formatted output from a message boundary on. |
| `RotatingSink.RotatingFileSink.Open` | include/spdlog/sinks/rotating_file_sink-inl.h:27-50 | Refuses a zero size or more than 200000 files; otherwise takes over the files that are there; asked to rotate, with a current file that is not empty, it moves every file up and starts an empty one. |
| `RotatingSink.RotatingFileSink.constructor` | include/spdlog/sinks/rotating_file_sink-inl.h:43-44 | Opens the current file, or creates it, and measures it. |
| `RotatingSink.RotatingFileSink.RenameAll` | include/spdlog/sinks/rotating_file_sink-inl.h:115-137 | The loop moves every file up by one index, the topmost giving way only to a file moved onto it, and touches no other file. |
| `RotatingSink.RotatingFileSink.Rotate` | include/spdlog/sinks/rotating_file_sink-inl.h:109-139 | Every file moves up by one, the topmost giving way only to a file moved onto it, and the current one is empty; files of other names are untouched. |
| `RotatingSink.RotatingFileSink.SinkIt` | include/spdlog/sinks/rotating_file_sink-inl.h:75-95 | A message that fits, or finds an empty file, is appended and no other file changes; any other goes alone into the current file after all files have moved up. The size in memory stays that of the current file. |
| `RotatingSink.RotatingFileSink.Append` | include/spdlog/sinks/rotating_file_sink-inl.h:93 | The message goes to the end of the current file. |
| `IsoWeek.WeeksInYear` | include/spdlog/fmt/bundled/chrono.h:1016-1025 | The formula gives 53 weeks exactly to the years that start or end on a Thursday by the calendar. |
| `IsoWeek.WeeksAreThursdays` | include/spdlog/fmt/bundled/chrono.h:1016-1025 | The number of weeks by the formula is the number of Thursdays counted over the days of the year. |
| `IsoWeek.RankIs` | include/spdlog/fmt/bundled/chrono.h:1026-1029 | The raw number is the rank of the week's Thursday in the year. |
| `IsoWeek.WeekDateCorrect` | include/spdlog/fmt/bundled/chrono.h:1030-1043 | For every date from year 1 on: the pair is the year of the week's Thursday and the week's rank there, so week 1 has the first Thursday. |
| `IsoWeek.SameInWeek` | include/spdlog/fmt/bundled/chrono.h:1030-1043 | The computed pair is constant from Monday to Sunday. |
| `IsoWeek.StepsEachWeek` | include/spdlog/fmt/bundled/chrono.h:1030-1043 | A week later it is the next week, or week 1 of the next ISO year after its last week. |
| `IsoWeek.NextWeek` | include/spdlog/fmt/bundled/chrono.h:1030-1043 | The same step for the week date of ISO 8601 by itself, counted in calendar days. |

## Left out

- BigInt.BigInt.DivmodAssign: the quotient is unbounded here and an `int` in the source, so a caller there also needs it below 2^31; `format_dragon` only sees 0 to 9.
- Dragon.FormatDragon: the shortest-digit mode (negative `num_digits`), with the bounds `lower` and `upper` that only it uses; a shifted significand over 64 bits, which the source truncates silently.
- ThreadPool.StuckIff: the constructor's refusal of 0 or more than 1000 threads; the pool has any positive number.
- ThreadPool.BlockingQueue.DequeueFor: the waiting itself; a wait that ends without a message is a time-out step that changes nothing, and the two condition variables are the guards of the steps.
- HttpServer.HttpParser.ParseRequest: request bodies (the state for them does nothing yet), receive times, and calls after a rejected request line, which the source's own assertion forbids.
- EventLoop.NoLostWakeup: speaks of calls to `wakeup()`, because the descriptor behind it is never created.
- EventLoop.WakeupIff: a call of loop() that is told to quit before its first poll, and so does nothing.
- EventLoop.FunctorsInOrder: the loop and its queue are a machine of atomic steps and not a class, because other threads interleave with every one of them.
- Timers.TimersKept: who owns and frees timer objects; timers are values with an identity. Intervals are real numbers instead of doubles, and times do not overflow.
- TimerQueue.TimerQueue.Reset: the deadline variable that stays uninitialised when no timer is left is an arbitrary parameter.
- Poller.AcceptedIff: what an update of a removed channel does when assertions are compiled out; descriptors have one current channel object each, the latest created.
- Client.ClientSeesResponses: a response is clean, that is, its headers survive printing as in `RoundTripIff`, its message has no line end, and its code has at most 21 digits.
- RotatingSink.FilesHoldSuffix: what an earlier run left in a file counts as one message, because the code cannot tell its messages apart.
- RotatingSink.RotatingFileSink.Rotate: renames that fail and are tried again, writes that fail, and the file event handlers.
- EPoller.KernelFollows: descriptors that are closed while they are registered, and control calls refused for want of resources.
- RotatingSink.SplitByExtension: only `/` separates folders.
- HttpResponse.HttpResponse.AppendToBuffer: the status code is not negative; the order of the headers is any order, which covers that of the source's map.
- Connection.TcpConnection.Send: called on the loop thread; calls from other threads are steps of the machine in the same module.
- The capacity assertion of `bigint` (32 bigits without allocation) and widths of sizes, indices and exponents beyond those named in the contracts.
- `Buffer::shrink`, which leaves the indices behind, and `swap`.
- Exchange.Print: how the user's handler fills in the response; it is an arbitrary function of the requests so far and of the default for closing.
- Exchange.ExchangeIsOrderly: the run up to the closing of the connection, with no calls from other threads; those are in `Connection`.
- Connection.QuietIff: the lifetime of the connection object, which queued work refers to by a plain pointer.
- Sockets, accepting, addresses, reading files into responses, thread assertions of the pollers, and growing the event array of epoll.
- Grisu, Dragonbox and their tables, printf-style formatting, colours, the other sinks, the registry and level configuration.
- Round-robin choice of loops and the thread pool of loops.
