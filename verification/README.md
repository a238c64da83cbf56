# Verified models of the TCCygwin runtime, examples and headers

This project models the parts of the repository that contain real algorithms and
proves what they are for:

- **The producer/consumer program** (`cygwin/examples/test6.c`). `SharedBuffer` is a class
  whose methods update the cyclic buffer in place; `RingBuffer` gives its fields as a value.
  `Protocol` is the program as a transition system: any number of producers and consumers,
  any buffer size and item count, `main` with its joins, flag and broadcast, one mutex and
  two condition variables. A signal wakes any non-empty set of the blocked threads, and
  time-outs and spurious wake-ups may happen at any time. A step is what one thread does
  between two points at which another thread may run; inside a critical section the loop
  test and the push (or pop) that follows it are one step, the signal another, the unlock a
  third. `ProtocolInvariant` proves an inductive invariant, `ProtocolResults` draws FIFO
  order, no lost wake-up, deadlock freedom, safe shutdown and the final statistics from it,
  and `ProtocolTermination` bounds the work of every interleaving. `ProtocolChoices` is the
  other side: the steps are exactly the moves of the program text written down as a relation
  between states, no choice of the scheduler is ever withheld, and the orders of delivery
  that occur are exactly those that keep each producer's own order.
- **The soft-float conversions** (`libtcc/libtcc1.c`). `FloatValues` decodes 32-, 64- and
  80-bit patterns to exact values and defines the conversion to a 64-bit integer by the
  real value alone. `FixConversions` has the six routines to integers as methods that
  follow the C text, each proved to compute that conversion; `FixLaws` proves the laws
  that they share. `Rounding` defines round-to-nearest-even by its property and shows
  that the property determines the result; `FloatConversions` has the three routines from
  uint64 and the round trips. `a & mask` and `a | bit` on disjoint fields are written as
  remainder and sum, shifts as multiplication and division by powers of two, and 64-bit
  wrap-around as remainder modulo 2^64.
- **The ancillary-data macros** (`cygwin/socket.h`): alignment arithmetic that wraps at 64
  bits, the walk over arbitrary bytes, and the round trip through a chain of messages.
- **`copy_file`** (`cygwin/examples/test12.c`): the read loop around the write-all loop as
  methods, against a system that follows an arbitrary schedule of interruptions, failures
  and short transfers; the contract says which answer of the schedule ends the run.
- **The pipe between parent and child** (`cygwin/examples/test3.c`) as a transition system
  over their system calls, with failing and interrupted calls, proved equal to a relation
  that lists for every call the answers it may get.
- **The buffer macros** of `arpa/nameser.h` on arrays of bytes, and the byte swaps of
  `bits/byteswap.h`, all on bit-vectors.

`Arithmetic`, `Bytes` and `Sums` hold shared facts. Comments name the C entity that each part models.

Where the code does less than one might expect, the model follows the code and the exact
condition is proved: converting a uint64 at or above 2^64 - 2^10 to double and back gives
2^63 (`DoubleRoundTrip`), an 80-bit pattern with a clear integer bit and a large exponent
gives 2^63 whatever its value (`UnnormalConversion`), `CMSG_NXTHDR` returns the following
header only while its sums do not wrap (`NextHdrSafeIff`, with `WrappingLengthGoesBack` as
a failing input), a walk ends if and only if it meets no header of length zero
(`WalkEndsIff`, with `ZeroBufferLoops` as a failing input), `CMSG_FIRSTHDR` accepts a
negative `msg_controllen` (`FirstHdrSafeIff`), and the child of test3.c reads only once, so
that both processes may report success although it has only part of the message: this
cannot happen exactly for messages of at most one byte and for messages on which both cannot
succeed at all (`DeliveryIff`, with `ShortReadLosesRest` for the failing runs). The 38 bytes
of test3.c's own message lie in between.

## Model

| member | source | states |
|---|---|---|
| RingBuffer.PushAppends | cygwin/examples/test6.c:101-108 | a push on a buffer with room appends to the queue and overwrites no live slot, across the wrap-around |
| RingBuffer.PopRemovesOldest | cygwin/examples/test6.c:115-124 | a pop removes exactly the oldest value |
| RingBuffer.PushOnFullOverwrites | cygwin/examples/test6.c:178-206 | without the test on `count` a push would destroy the oldest live value |
| SharedBuffers.SharedBuffer.constructor | cygwin/examples/test6.c:406-417 | the buffer starts empty |
| SharedBuffers.SharedBuffer.BufferPush | cygwin/examples/test6.c:101-108 | the fields change as the protocol's push says, and the queue grows by the value at its end |
| SharedBuffers.SharedBuffer.BufferPop | cygwin/examples/test6.c:115-124 | the fields change as the protocol's pop says, and the value returned was the oldest one |
| Protocol.Apply | cygwin/examples/test6.c:132-582 | every step of every thread keeps the shape of the state: indices in bounds, thread counts, join positions |
| ProtocolInvariant.StepKeepsInv | cygwin/examples/test6.c:132-582 | every step, time-outs and spurious wake-ups included, keeps mutual exclusion, FIFO, per-producer order, both wake-up accounts and the shutdown invariant |
| ProtocolInvariant.ReachableInv | cygwin/examples/test6.c:132-582 | every state that some interleaving reaches satisfies the invariant |
| ProtocolResults.CriticalSectionsExclude | cygwin/examples/test6.c:157-233 | no two threads are inside their critical sections together |
| ProtocolResults.BufferIsFifo | cygwin/examples/test6.c:101-206 | popped values are a prefix of pushed ones, the live slots are the rest, head and tail are the totals modulo the size, and each producer's items leave in order |
| ProtocolResults.NoLostWakeup | cygwin/examples/test6.c:178-222 | while a producer is blocked the producers that a wake-up has taken out of their wait, counted, use up every free slot, and likewise for consumers and stored values, up to one signal that the owner of the mutex is about to send |
| ProtocolResults.NoProducerStuckBlocked | cygwin/examples/test6.c:178-372 | with the mutex free, the flag clear and every thread blocked or finished, no producer is blocked: not all can be waiting, some for a free slot and the others for a value |
| ProtocolResults.DeadlockFree | cygwin/examples/test6.c:178-582 | until main is done some thread can step without a time-out or a spurious wake-up |
| ProtocolResults.FlagFreezesProduction | cygwin/examples/test6.c:503-538 | once the flag is set it stays set and nothing more is produced |
| ProtocolResults.NoConsumerBlocksAfterBroadcast | cygwin/examples/test6.c:538-558 | after the broadcast no consumer is ever blocked again |
| ProtocolResults.ConsumerLeavesOnlyWhenDone | cygwin/examples/test6.c:280-298 | a consumer returns only when the buffer is empty and stays empty |
| ProtocolResults.ShutdownIsSafe | cygwin/examples/test6.c:280-558 | the three shutdown properties for every continuation of every reachable state |
| ProtocolResults.ProjectionsPartition | cygwin/examples/test6.c:142-152 | splitting a history by producer loses and invents nothing |
| ProtocolResults.CompleteRunDeliversEverything | cygwin/examples/test6.c:566-613 | when main has joined all threads, produced == consumed == producers * items, the buffer is empty, and the consumed values are exactly id * 100 + i for id from 1 to the number of producers and i below the item count, each once |
| ProtocolChoices.StepsAreMoves | cygwin/examples/test6.c:132-582 | from any state the steps lead exactly where the program text of some thread leads: guard, effect and everything that stays, at every program point |
| ProtocolChoices.MovesStayReachable | cygwin/examples/test6.c:132-582 | and from a reachable state each such move is taken by some run |
| ProtocolChoices.SignalNotEmptyWakesAnySet | cygwin/examples/test6.c:222 | the signal after a push may wake any non-empty set of the blocked consumers, and leaves all other consumers where they are |
| ProtocolChoices.SignalNotFullWakesAnySet | cygwin/examples/test6.c:372 | the same for the signal after a pop and the blocked producers |
| ProtocolChoices.AnyThreadMayLock | cygwin/examples/test6.c:157-526 | any producer or consumer that wants a free mutex, and main, may be the next to hold it |
| ProtocolChoices.AnyConsumerWaitMayEnd | cygwin/examples/test6.c:318-338 | any blocked consumer may time out or wake up spuriously, nothing else changing |
| ProtocolChoices.AnyProducerWaitMayEnd | cygwin/examples/test6.c:178-188 | any blocked producer may wake up spuriously |
| ProtocolChoices.DeliveredOrders | cygwin/examples/test6.c:142-613 | a complete run can deliver in a given order if and only if the order has all items of each producer in that producer's order; the values are then id * 100 + i |
| ProtocolTermination.EveryStepPays | cygwin/examples/test6.c:132-582 | every step of the program uses up work; a time-out or spurious wake-up adds at most two |
| ProtocolTermination.WorkIsBounded | cygwin/examples/test6.c:132-582 | no livelock: a bound, in the four parameters, on the steps of any run, with two more for each time-out or spurious wake-up |
| ProtocolTermination.EveryRunCanFinish | cygwin/examples/test6.c:132-613 | from every reachable state the program can finish unaided, with everything delivered |
| FloatValues.MagnitudeShiftedRight | libtcc/libtcc1.c:87-88 | a right shift drops exactly the fraction of the real value |
| FloatValues.MagnitudeShiftedLeft | libtcc/libtcc1.c:85-86 | a left shift is exact |
| FloatValues.SpecialPatterns | libtcc/libtcc1.c:22-33 | which patterns of the three formats are infinities and NaNs |
| FloatValues.PatternsOfOne | libtcc/libtcc1.c:22-33 | the pattern of 1.0 in each format |
| FixConversions.FieldRegimes | libtcc/libtcc1.c:81-92 | for any format: which exponents saturate, shift left, shift right or give zero, as a consequence of the real value |
| FixConversions.ExtendedRegimes | libtcc/libtcc1.c:137-145 | the same for 80-bit patterns, normalized or not |
| FixConversions.FixUnsSfDi | libtcc/libtcc1.c:73-94 | for every 32-bit pattern: truncation modulo 2^64 below 2^64, 2^63 otherwise, infinities and NaNs included |
| FixConversions.FixUnsDfDi | libtcc/libtcc1.c:101-122 | the same for every 64-bit pattern |
| FixConversions.FixUnsXfDi | libtcc/libtcc1.c:129-147 | the same for every properly encoded 80-bit pattern, and what happens for all others |
| FixConversions.WrapperAgrees | libtcc/libtcc1.c:95-100 | negating outside with wrap-around gives the bits of negating inside, for every datum |
| FixConversions.FixSfDi | libtcc/libtcc1.c:95-100 | the signed routine returns the same 64 bits as the unsigned one, for every pattern |
| FixConversions.FixDfDi | libtcc/libtcc1.c:123-128 | the same for doubles |
| FixConversions.FixXfDi | libtcc/libtcc1.c:148-153 | the same for 80-bit patterns |
| FixLaws.SignedRangeTruncates | libtcc/libtcc1.c:95-100 | for every value in [-2^63, 2^63) the signed reading is mathematical truncation |
| FixLaws.UnsignedTruncatesModulo | libtcc/libtcc1.c:73-94 | the conversion is truncation modulo 2^64 if and only if the magnitude is below 2^64 or the truncation is itself 2^63 modulo 2^64 |
| FixLaws.UnnormalConversion | libtcc/libtcc1.c:137-140 | when the answer 2^63 is right for a pattern with a clear integer bit |
| FixLaws.WidenKeepsValue | libtcc/libtcc1.c:73-147 | widening keeps the value, with subnormals becoming normal |
| FixLaws.SingleWidensToDouble | libtcc/libtcc1.c:73-122 | the 32-bit conversion equals the 64-bit one on the widened value, for all patterns |
| FixLaws.SingleWidensToExtended | libtcc/libtcc1.c:73-147 | and the 80-bit one on the widened value |
| FixLaws.DoubleWidensToExtended | libtcc/libtcc1.c:101-147 | the 64-bit conversion equals the 80-bit one on the widened value, for all patterns |
| FixLaws.FieldsOrderMagnitudes | libtcc/libtcc1.c:79-90 | patterns are ordered like their values, across exponents |
| FixLaws.FixUnsSfMonotone | libtcc/libtcc1.c:79-90 | a larger non-negative float pattern never converts to less, across the zero, right-shift and left-shift regimes |
| FixLaws.FixUnsDfMonotone | libtcc/libtcc1.c:106-118 | the same for doubles |
| Rounding.RoundEvenIsNearest | libtcc/libtcc1.c:40-57 | what the model's casts deliver is nearest, ties to even, with the error bound |
| Rounding.NearestEvenIsUnique | libtcc/libtcc1.c:40-57 | correct rounding determines the result |
| FloatConversions.SignFixIsExact | libtcc/libtcc1.c:42-43 | adding 2^64 to the signed reading is exact in a 64-bit significand: no double rounding |
| FloatConversions.FloatUnDiSf | libtcc/libtcc1.c:34-46 | the correctly rounded float of every uint64 |
| FloatConversions.FloatUnDiDf | libtcc/libtcc1.c:47-59 | the correctly rounded double of every uint64 |
| FloatConversions.FloatUnDiXf | libtcc/libtcc1.c:60-72 | exactly the uint64, in both branches |
| FloatConversions.EncodeHasValue | libtcc/libtcc1.c:40-70 | the stored pattern has the rounded value, in all three formats |
| FloatConversions.ExtendedRoundTrip | libtcc/libtcc1.c:60-147 | every uint64 survives the trip through the 80-bit format |
| FloatConversions.RoundTripIsClose | libtcc/libtcc1.c:34-122 | for any precision: back within half the widest spacing if and only if rounding stays below 2^64 |
| FloatConversions.DoubleRoundTrip | libtcc/libtcc1.c:47-122 | uint64 to double and back is within 2^10 if and only if the number is below 2^64 - 2^10, and gives 2^63 otherwise |
| FloatConversions.SingleRoundTrip | libtcc/libtcc1.c:34-94 | the same for float with 2^39 |
| Ancillary.HeaderFields | cygwin/INCLUDE_36UNDEF/cygwin/socket.h:63-71 | byte by byte where length, level, type and data of a header are |
| Ancillary.NextHdrExact | cygwin/INCLUDE_36UNDEF/cygwin/socket.h:73-95 | without wrap-around CMSG_NXTHDR is the next multiple of 8 behind the message if a header fits there, else NULL |
| Ancillary.NextHdrSafeIff | cygwin/INCLUDE_36UNDEF/cygwin/socket.h:87-95 | its result is the following header, inside the buffer, if and only if the sums do not wrap |
| Ancillary.FirstHdrSafeIff | cygwin/INCLUDE_36UNDEF/cygwin/socket.h:80-86 | CMSG_FIRSTHDR implies room for a header if and only if msg_controllen is not negative |
| Ancillary.WalkStaysInside | cygwin/INCLUDE_36UNDEF/cygwin/socket.h:80-95 | for any bytes whose lengths do not wrap, every header visited lies inside the buffer, at most one per 16 bytes |
| Ancillary.WrappingLengthGoesBack | cygwin/INCLUDE_36UNDEF/cygwin/socket.h:87-95 | a failing input: behind the second header position a length of 2^64 - 8 makes CMSG_NXTHDR point eight bytes back |
| Ancillary.WalkReachesNull | cygwin/INCLUDE_36UNDEF/cygwin/socket.h:87-95 | over arbitrary bytes, from any header inside the buffer: if the lengths met are not zero and do not wrap, the walk reaches NULL |
| Ancillary.WalkEndsIff | cygwin/INCLUDE_36UNDEF/cygwin/socket.h:80-95 | over any buffer whose lengths do not wrap, the walk reaches NULL if and only if no header that it visits has length zero |
| Ancillary.ZeroBufferLoops | cygwin/INCLUDE_36UNDEF/cygwin/socket.h:80-95 | a failing input: over sixteen zero bytes walks of every length exist and none is complete |
| Ancillary.CompleteWalkUnique | cygwin/INCLUDE_36UNDEF/cygwin/socket.h:80-95 | a buffer has at most one complete walk |
| Ancillary.SerializeLaysOut | cygwin/INCLUDE_36UNDEF/cygwin/socket.h:63-79 | messages written at strides CMSG_SPACE form a chain |
| Ancillary.ChainRoundTrip | cygwin/INCLUDE_36UNDEF/cygwin/socket.h:63-98 | the complete walk over a chain is exactly its headers in order, each with its length, level, type and data |
| FileCopy.System.Read | cygwin/examples/test12.c:433-453 | read fills the buffer with the next bytes of the source, as many as the answer, the buffer and the file allow, none exactly at its end |
| FileCopy.System.Write | cygwin/examples/test12.c:461-465 | write appends the leading part of what it is given that the answer allows |
| FileCopy.WriteAll | cygwin/examples/test12.c:455-481 | the inner loop appends all of the buffer, or a proper prefix of it when an answer is an error other than EINTR, which is then the last one it takes |
| FileCopy.CopyFile | cygwin/examples/test12.c:411-497 | success means equal contents; every other exit leaves a prefix, all of what was read if a read failed and less if a write failed; the run ends with a failure exactly at the first answer that is an error other than EINTR; each opened descriptor is closed exactly once; at full transfers n bytes take ceil(n / 2048) reads and writes and the read at the end; enough transfers always finish the copy |
| Pipe.BytesConserved | cygwin/examples/test3.c:80-212 | in every reachable state, after failures and SIGPIPE included, the bytes written so far are the bytes read followed by the bytes in the pipe, all of the message once the write loop is left; the child's buffer is a prefix of the message with room for the terminator |
| Pipe.StepsAreCalls | cygwin/examples/test3.c:62-231 | the steps are exactly the calls of the two programs with the answers they may get, and what each program does with the answer |
| Pipe.EveryAnswerOccurs | cygwin/examples/test3.c:62-231 | from a reachable state each such answer is given in some run |
| Pipe.NeverBothBlocked | cygwin/examples/test3.c:62-212 | the child never waits in read while the parent waits for it in waitpid or on a full pipe |
| Pipe.DeadlockFree | cygwin/examples/test3.c:62-215 | until both processes have ended some call can go on |
| Pipe.SuccessMeansData | cygwin/examples/test3.c:88-127 | when both succeed the child has a prefix, empty only for an empty message, complete exactly when nothing is left in the pipe |
| Pipe.DeliveredLengths | cygwin/examples/test3.c:80-212 | the lengths that the child may have when both succeed: exactly those up to 127 that fit one read and leave no more than the pipe holds, zero only for the empty message |
| Pipe.WholeMessageCanArrive | cygwin/examples/test3.c:80-212 | a message of at most 127 bytes that the pipe can hold may arrive whole |
| Pipe.ParentSucceedsIff | cygwin/examples/test3.c:207-231 | the parent can succeed with a child that succeeded, and with one that failed, exactly on messages that one read of 127 bytes and a full pipe hold together |
| Pipe.BothCanSucceedIff | cygwin/examples/test3.c:80-212 | both can succeed if and only if the message fits one read and a full pipe together |
| Pipe.DeliveryIff | cygwin/examples/test3.c:80-212 | success of both processes implies that the child has the whole message if and only if the message has at most one byte or is too long for both to succeed |
| Pipe.ShortReadLosesRest | cygwin/examples/test3.c:80-86 | for every message in between, a run in which both succeed and the child has a proper prefix |
| Pipe.BrokenPipeOnlyAfterChild | cygwin/examples/test3.c:162-189 | a write finds no reader only after the child has ended |
| Pipe.RunsAreBounded | cygwin/examples/test3.c:62-215 | at most message length + 7 calls that are not interrupted |
| Nameser.MembersLayout | cygwin/INCLUDE_36UNDEF/arpa/nameser.h:422-425 | type n is bit 0x80 >> n % 8 of byte n / 8, in numbers |
| Nameser.SetAndClearMembers | cygwin/INCLUDE_36UNDEF/arpa/nameser.h:423-424 | setting or clearing a bit adds or removes exactly that member |
| Nameser.NxtBitSet | cygwin/INCLUDE_36UNDEF/arpa/nameser.h:423 | NS_NXT_BIT_SET in place, for every n below 8 times the length: the one bit of byte n / 8 is set and no other byte changes |
| Nameser.NxtBitClear | cygwin/INCLUDE_36UNDEF/arpa/nameser.h:424 | NS_NXT_BIT_CLEAR in place, in the same way |
| Nameser.NxtBitIsSet | cygwin/INCLUDE_36UNDEF/arpa/nameser.h:425 | non-zero exactly for the members |
| Nameser.BitmapRefinesSet | cygwin/INCLUDE_36UNDEF/arpa/nameser.h:422-425 | any sequence of operations on a bitmap of any length does to its members what it does to a set |
| Nameser.BigEndian16 | cygwin/INCLUDE_36UNDEF/arpa/nameser.h:449-455 | the first of the two bytes is worth 256 times its value |
| Nameser.BigEndian32 | cygwin/INCLUDE_36UNDEF/arpa/nameser.h:457-465 | the four bytes weigh 2^24, 2^16, 2^8 and 1 |
| Nameser.NsPut16 | cygwin/INCLUDE_36UNDEF/arpa/nameser.h:449-455 | stores two bytes at the cursor, changes no other byte, advances by two |
| Nameser.NsPut32 | cygwin/INCLUDE_36UNDEF/arpa/nameser.h:457-465 | the same with four bytes |
| Nameser.NsGet16 | cygwin/INCLUDE_36UNDEF/arpa/nameser.h:431-437 | returns the value whose stored bytes are those at the cursor |
| Nameser.NsGet32 | cygwin/INCLUDE_36UNDEF/arpa/nameser.h:439-447 | the same with four bytes |
| Nameser.CodecRoundTrip | cygwin/INCLUDE_36UNDEF/arpa/nameser.h:431-465 | fields of mixed widths are read back unchanged with the same final cursor, and no byte outside them changes |
| Nameser.PutIsSwappedStore | cygwin/INCLUDE_36UNDEF/bits/byteswap.h:12-22 | NS_PUT stores the bytes of a little-endian store of the swapped value |
| Nameser.LittleEndian64 | cygwin/INCLUDE_36UNDEF/bits/byteswap.h:24-28 | what the bytes are that the swap reverses |
| Nameser.Bswap64Reverses | cygwin/INCLUDE_36UNDEF/bits/byteswap.h:24-28 | the 64-bit swap reverses all eight bytes |
| Nameser.SwapsAreInvolutions | cygwin/INCLUDE_36UNDEF/bits/byteswap.h:12-28 | swapping twice restores the value at every width |

## Left out

- Failure returns of pthread calls and of `pthread_create` in test6.c: those exits abandon the protocol.
- The order in which test6.c creates its threads: all threads exist from the start and may be scheduled late, which allows every interleaving of the real start-up and more.
- The 32-bit `int` of test6.c: values id * 100 + i and the counters are unbounded numbers.
- Real time: a time-out of `pthread_cond_timedwait` is a step that may happen whenever the consumer is blocked; `sleep` and all output are not modelled.
- Fairness of the scheduler: the model bounds the steps of every run and shows that one is always possible, but not which thread the system picks.
- The processor's own float arithmetic: casts and the addition of 2^64 are modelled as round-to-nearest-even with 24, 53 and 64 digits; exception flags and other rounding directions are not modelled, and the undefined behaviour of signed negation is taken as wrap-around.
- The C comparison `a1 >= 0` on 80-bit patterns that the processor rejects: the model decides it by the decoded value.
- NaN payloads: widening a NaN gives some NaN.
- `CMSG_DATA` beyond the bytes it points at, and all other declarations of cygwin/socket.h.
- Buffers in the last 32 bytes of the address space, for the ancillary-data walk.
- Files that change while `copy_file` runs, and a destination that is the source.
- Unlimited runs of `copy_file`: a run is followed for as long as its schedule of system answers lasts; the source has no guard against a write that returns 0 for ever.
- Signals other than SIGPIPE in test3.c, and a failing `fork` or `pipe`.
- The remaining examples, headers, `cygwin/crt0.c` and `libtcc/crt1.c`: straight-line system calls, constants and foreign calls.
