# Verified models of the colonel's standard library

A Dafny project beside the Go toolchain fork in `colonel/`. It models the parts of the library whose
correctness is hardest to see from the code and proves what they promise, for all inputs, all interleavings or all
ways an input can be cut into chunks.

| files | what they model |
|---|---|
| `Float64`, `FloatOps`, `StickyShifts`, `Words`, `Pow2` | doubles as bit patterns, what correct rounding is, 64-bit words and two-word shifts |
| `Fma`, `Scaling`, `Remainders`, `Integers` | software FMA; Frexp and Ldexp; Mod and Remainder; Trunc, Round and RoundToEven |
| `Contexts`, `ContextInvariant`, `ContextSteps`, `ContextCancel`, `ContextCalls`, `ContextAttach`, `ContextTheorems`, `ContextAfterFunc`, `ContextRelease`, `ContextTrace` | the cancellation tree of package context, as a state machine over goroutine steps |
| `Pipe`, `PipeProofs`, `PipeTrace` | io.Pipe, as a state machine over channel and lock steps |
| `Utf8`, `Boundaries`, `ByteSearch`, `SplitJoin`, `Replace` | decoding forwards and backwards; searches, splitting, joining and replacing |
| `RuneReader`, `Scanner`, `BufReader`, `LineRoundTrip`, `BufWriter`, `ByteReaders` | the rune reader of package fmt, and package bufio |
| `Html`, `HtmlReferences`, `IntFormat`, `IntLayout`, `WasmRefs` | in-place entity decoding; integer formatting; the table of references between WebAssembly and JavaScript |

`dafny verify dfyconfig.toml` checks everything.

How to read the models:

- A double is its bit pattern. `Mag` is its magnitude in units of 2^-1074, with infinity standing for 2^1024, so
  that rounding over all patterns includes overflow. `IsNearestEven` says what correct rounding is without
  computing it: no pattern is closer, and the even one wins a tie. The hardware's addition, subtraction and
  multiplication are the correctly rounded ones (`FloatOps`); in `FMA` they are parameters, because the code only
  hands special operands to them. One Go function is several methods where its proof has several stages.
- `Ldexp` adds exponents in a 64-bit `int`, and the sum can wrap. The result is then wrong, so the contract gives
  the exact condition under which it is right, and `LdexpWraps` an input outside it.
- In `Contexts` each step is one lock operation or one access another goroutine can see; storing err and cause under
  the lock is one step. A goroutine is a stack of activations. `attached` and `requests` only record history.
  Constructors, cancel functions, timers (as one more cancel), `stop` and `Done` may be called at any time by any
  goroutine. In `Pipe`, `copied` and `writes` record history, and a transfer may still start after `done` is
  closed, because `select` may take either ready case.
- A `Trace` is a run together with its events: a step inside a call, or a goroutine beginning a call. It is needed to
  say which call a result comes from, since two different calls can lead to the same state. A cancel function that
  does not remove its context from the parent exists only for a timer whose deadline had passed (`Cancellable`).
- Where a specification and the code it specifies share a function or a constant, `HtmlReferences`, `LineRoundTrip`,
  `IntLayout`, `EncodingOf` and `Represents` say the same with the characters and numbers written out.
- Readers (`ByteReader`, `ByteSource`) choose freely how many bytes to deliver and whether their error comes with the
  last bytes or after them. `patience` is the most empty reads in a row a reader answers with; where the code gives
  up after 100 of them, the contracts say so.
- `Scanner`'s limit is the buffer size. A line that ends in a newline fits if it is no longer than that, newline
  included; an unterminated one must be shorter. An unterminated last line of exactly that length is returned or refused depending on when the
  reader reports its end, and that case alone is left open (`Decided`). A limit of 0 gives ErrTooLong even on empty input.
- `ReadLine` puts a CR at the end of a full buffer back. Its documentation promises that UnreadByte
  afterwards unreads the last byte read; the code then puts the CR in the place of the byte before it.
  `ReadLineThenUnread` says exactly when that happens and `UnreadLosesByte` shows the result.
- `readRune.UnreadRune` before any read would push back rune 0, and after EOF it delivers the last rune again; the
  size of a pushed-back U+FFFD is 3 even if it came from one bad byte. An error other than EOF in the middle of a rune
  loses the bytes read so far. The contracts of `Next` and `UnreadRune` say the same.
- In `Html` the entity tables are parameters. `Narrow` is what the in-place rewrite needs of them, `HasBasics` what the
  round trip needs. The numeric value wraps as an int32 does; `&#1` followed by a space is left alone and `&#x;`
  becomes U+FFFD, as in the code.
- `fmtInteger` relies on its callers in `print.go` for the base and for using the verb `O` with base 8 only
  (`Callable`); with base 2 it would need 69 bytes and has 68.
- In `WasmRefs`, `-0` is interned as `0`, because a JavaScript Map does not tell them apart, and so it is read back as `0`.

## Model

| member | source | states |
|---|---|---|
| `Float64.RoundNECorrect` | colonel/src/math/fma.go:99-107 | the hardware rounding used as a parameter is the correct rounding to nearest, ties to even, of IEEE 754 section 4.3.1, and no other pattern is |
| `Float64.NearestUnique` | colonel/src/math/fma.go:93-95 | the independent specification of correct rounding (no finite or infinite pattern closer, even pattern on a tie) determines the result |
| `Float64.NearestOnGrid` | colonel/src/math/fma.go:169-181 | rounding to the grid of one exponent step is rounding over all doubles, as long as the step fits the value |
| `StickyShifts.StickyCompose` | colonel/src/math/fma.go:39-63 | shifting twice with a sticky last bit is shifting once |
| `StickyShifts.StickyRound` | colonel/src/math/fma.go:169-179 | with two bits of slack, rounding the compressed value rounds the original |
| `Words.Shr2Divides` | colonel/src/math/fma.go:33-37 | the two-word right shift divides the 128-bit value by 2^n for every count, including 0, 64 and more |
| `Words.Shl2Multiplies` | colonel/src/math/fma.go:27-31 | the two-word left shift multiplies by 2^n when nothing falls off the top |
| `Words.LeadingZeros2Normalizes` | colonel/src/math/fma.go:65-71 | shifting left by lz brings the top bit to position 127 |
| `Fma.Split` | colonel/src/math/fma.go:76-91 | sign, exponent and 53-bit mantissa whose product is exactly the magnitude, subnormals normalized |
| `Fma.ShrCompress` | colonel/src/math/fma.go:43-63 | for every shift count the result is the value shifted, with the 0th bit the OR of the bits shifted out |
| `Fma.Multiply` | colonel/src/math/fma.go:123-135 | the product is exact, in 126 or 127 bits and then normalized to bit 126, with its exponent |
| `Fma.ProductRange` | colonel/src/math/fma.go:125-129 | the shifted product is a multiple of 2^21 between 2^125 and 2^127 |
| `Fma.AlignedAddend` | colonel/src/math/fma.go:147-148 | alignment by at most 21 places loses nothing; after more, the difference is still at least 2^64, so the sticky last bit stays far below the leading one |
| `Fma.AddAligned` | colonel/src/math/fma.go:152-157 | sum branch: a 63-bit significand with sticky last bit standing for the exact sum |
| `Fma.SubAligned` | colonel/src/math/fma.go:158-167 | difference branch, including deep cancellation: the same for the exact difference |
| `Fma.RoundBitsCorrect` | colonel/src/math/fma.go:179-179 | the masked expression drops ten bits to nearest, ties to even |
| `Fma.RoundAndPack` | colonel/src/math/fma.go:169-181 | overflow to infinity, subnormal and normal results are each the correct rounding of the value held |
| `Fma.AddAndRound` | colonel/src/math/fma.go:137-181 | swap, the exact-cancellation case, alignment, addition and rounding together give the correctly rounded sum; equal and opposite addends give +0 |
| `Fma.FMA` | colonel/src/math/fma.go:95-182 | for all finite non-zero x, y and z the result is the exact x*y+z rounded once to nearest, ties to even (fusedMultiplyAdd, section 5.4.1 of IEEE 754-2019); in each other case exactly the hardware operation the code falls back to |
| `Scaling.Normalize` | colonel/src/math/bits.go:61-67 | a subnormal is scaled by 2^52 exactly, a normal number is left alone |
| `Scaling.Frexp` | colonel/src/math/frexp.go:24-39 | f == frac * 2^exp exactly, 1/2 <= |frac| < 1 for finite non-zero f; zeros, infinities and NaN come back with exponent 0 |
| `Scaling.Ldexp` | colonel/src/math/ldexp.go:22-51 | frac * 2^exp rounded once to nearest-even (scaleB, section 5.3.3 of IEEE 754-2019), if and only if the exponent sum fits in a 64-bit int |
| `Scaling.LdexpWraps` | colonel/src/math/ldexp.go:31-42 | a concrete input outside that condition: the smallest double times 2^(-2^63) comes out infinite |
| `Scaling.LdexpOfFrexp` | colonel/src/math/frexp.go:7-10 | Ldexp(Frexp(f)) is f, bit for bit, for every f |
| `Remainders.Sterbenz` | colonel/src/math/mod.go:46-46 | the difference of two doubles within a factor of two of each other is a double |
| `Remainders.ReductionExact` | colonel/src/math/mod.go:41-47 | each subtraction of the loop is representable without rounding and keeps the remainder modulo y |
| `Remainders.Mod` | colonel/src/math/mod.go:29-52 | the loop ends, and the result is the exact remainder: magnitude |x| mod |y|, sign of x; NaN in exactly the four special cases |
| `Remainders.ReduceBelowTwice` | colonel/src/math/remainder.go:72-74 | afterwards x < 2y and the part removed is an even multiple of y, whichever branch is taken |
| `Remainders.ReduceTwice` | colonel/src/math/remainder.go:75-90 | the doubled tests for tiny y and the halved tests otherwise are exact and pick the nearest of three multiples, ties to the even one |
| `Remainders.NearestOfThreeIsRemainder` | colonel/src/math/remainder.go:72-90 | choosing among the three multiples left gives the remainder with |r| <= |y|/2 and an even quotient on a tie |
| `Remainders.Remainder` | colonel/src/math/remainder.go:45-95 | the remainder of section 5.3.1 of IEEE 754-2019 for all finite x and non-zero y, exact, with the sign of x on a zero result; the special cases |
| `Integers.CarryRound` | colonel/src/math/floor.go:108-116 | adding to the pattern and clearing the fraction rounds the significand, also when the addition carries into the exponent |
| `Integers.ParityBit` | colonel/src/math/floor.go:146-148 | the bit above the fraction is the parity of the integer part, also where it is the low bit of the exponent |
| `Integers.Trunc` | colonel/src/math/floor.go:68-81 | the integer part, toward zero, for every finite x; infinities, NaN and the sign are kept |
| `Integers.Round` | colonel/src/math/floor.go:90-119 | the nearest integer, halves away from zero, for every finite x |
| `Integers.RoundToEven` | colonel/src/math/floor.go:128-158 | the nearest integer, halves to the even one, for every finite x |
| `ContextTheorems.NextKeeps` | colonel/src/context/context.go:475-579 | every step of every goroutine keeps the invariant, and disturbs other goroutines only as far as locks allow |
| `ContextTheorems.NoLostCancel` | colonel/src/context/context.go:475-505 | in every interleaving, when a cancelled node's lock is free its done is closed, its children map is nil and every context attached to it is cancelled |
| `ContextTheorems.DescendantsCancelled` | colonel/src/context/context.go:233-239 | when all calls have returned, every descendant of a cancelled context is cancelled and its done closed |
| `ContextTheorems.ChangesOnce` | colonel/src/context/context.go:549-579 | over every run err and cause are set together and once, done moves from nil to one channel to closed, a closed done implies an err, f starts at most once and never after stop returned true |
| `ContextTheorems.CauseOrigin` | colonel/src/context/context.go:288-307 | a node's err and cause are those recorded for a direct cancel of itself or of an ancestor, handed down unchanged along the chain; that the record is what was asked for is `CauseFromCall` |
| `ContextTraces.CauseFromCall` | colonel/src/context/context.go:265-307 | in every run with its calls, a cancelled context has the err and the cause of an earlier call of its own or an ancestor's cancel function or timer, the cause given or else the err, or Canceled from stop |
| `ContextTraces.ConstructorWorks` | colonel/src/context/context.go:240-280 | a constructor makes a context of the parent and kind asked for; once all calls have returned it is attached, and cancelled if its parent is |
| `ContextTraces.CancelWorks` | colonel/src/context/context.go:233-270 | a cancel function, timer or stop that has returned has cancelled its context, and done is closed once all calls have returned; after such a stop f never starts |
| `ContextTraces.DoneWorks` | colonel/src/context/context.go:448-461 | a context whose Done was called has a channel, closed once it is cancelled |
| `ContextTraces.RunHasTrace` | colonel/src/context/context.go:475-579 | every run is made of such calls and of steps inside them, so the theorems about calls are about all runs |
| `ContextRelease.Released` | colonel/src/context/context.go:399-412 | once all calls have returned, children maps hold uncancelled contexts only, whoever cancelled them and when, and a cancelled context has none |
| `ContextTheorems.LockOrder` | colonel/src/context/context.go:549-579 | a goroutine that waits for a lock holds only locks of nodes created before it; parents are created before children, so no wait cycle can form |
| `ContextTheorems.StepsOrWaits` | colonel/src/context/context.go:475-579 | a goroutine inside a call can step or waits for a lock somebody holds |
| `ContextTheorems.NoDeadlock` | colonel/src/context/context.go:475-579 | while calls are under way some goroutine can step |
| `ContextTheorems.NoPanic` | colonel/src/context/context.go:507-528 | the missing-cancel-error panic and the watcher goroutine are unreachable when parents are package contexts |
| `ContextAttach.AttachKeeps` | colonel/src/context/context.go:475-505 | each step of propagateCancel keeps the invariant |
| `ContextCalls.CancelKeeps` | colonel/src/context/context.go:549-579 | each step of cancel, removeChild, timerCtx.cancel and afterFuncCtx.cancel keeps the invariant |
| `ContextCalls.SoleCover` | colonel/src/context/context.go:569-572 | an uncancelled child of a node being cancelled is still to be visited by that very loop |
| `ContextCalls.LoopFinished` | colonel/src/context/context.go:569-574 | when the range loop ends every attached child has been cancelled |
| `ContextAttach.StartKeeps` | colonel/src/context/context.go:325-360 | starting a constructor, a cancel function, a timer, stop or Done keeps the invariant |
| `ContextInvariant.StackStable` | colonel/src/context/context.go:549-579 | what a goroutine relies on survives the steps of the others |
| `ContextAfterFunc.AfterFuncRuns` | colonel/src/context/context.go:318-360 | when all calls have returned f has been started exactly once if the parent is cancelled and stop did not return true, and not at all otherwise |
| `PipeProofs.NextKeeps` | colonel/src/io/pipe.go:50-105 | every step of every reader, writer and closer keeps the invariant |
| `PipeProofs.BytesInOrder` | colonel/src/io/pipe.go:57-61 | with any number of readers, writers and closers the chunks copied to readers are, in order, the delivered prefixes of the writes in wrMu order |
| `PipeProofs.WriteResult` | colonel/src/io/pipe.go:76-96 | a write returns the number of its bytes that were delivered, and nil only when that is all of them |
| `PipeProofs.ReadResult` | colonel/src/io/pipe.go:57-61 | a successful read returns its own chunk of that history, which no other read returns |
| `PipeProofs.AckMeetsWriter` | colonel/src/io/pipe.go:60-90 | every ack on rdCh can be received, and only by the one writer waiting for it, the one whose bytes were copied |
| `PipeProofs.CloseErrors` | colonel/src/io/pipe.go:107-123 | a failed read or write reports the error stored for the other end, or ErrClosedPipe; what is stored is `StoredErr` |
| `PipeTraces.StoredErr` | colonel/src/io/pipe.go:50-105 | in every run with its calls, the error of the write end is one passed to its close, or EOF from a close without one; of the read end likewise with ErrClosedPipe |
| `PipeTraces.FailedRead` | colonel/src/io/pipe.go:107-113 | a failed read reports what a close of the write end stored, or ErrClosedPipe because the read end was closed |
| `PipeTraces.FailedWrite` | colonel/src/io/pipe.go:116-122 | a failed write reports what a close of the read end stored, or ErrClosedPipe because the write end was closed |
| `PipeTraces.ReadersSeeEOF` | colonel/src/io/pipe.go:99-113 | when only w.Close() is ever called a failed read reports EOF |
| `PipeTraces.WritersSeeErrClosedPipe` | colonel/src/io/pipe.go:65-72 | when only r.Close() is ever called a failed write reports ErrClosedPipe |
| `PipeTraces.CallServed` | colonel/src/io/pipe.go:50-105 | a goroutine does and returns what its last call asked for: its buffer size, its bytes, its side and error; a call on a closed pipe transfers nothing |
| `PipeTraces.NilNeedsAck` | colonel/src/io/pipe.go:76-96 | a write returns nil only after a reader's ack, also with no bytes to write |
| `PipeProofs.ClosedForGood` | colonel/src/io/pipe.go:15-33 | done stays closed and each end keeps the first error stored |
| `PipeProofs.StepsUseWork` | colonel/src/io/pipe.go:85-94 | calls under way take finitely many steps |
| `PipeProofs.StuckMeansUnmatched` | colonel/src/io/pipe.go:50-96 | nothing can move only when all calls have returned or the pipe is open and one side alone is waiting |
| `PipeProofs.KeepAck` | colonel/src/io/pipe.go:60-60 | the ack adds exactly the bytes copied to the waiting writer's count |
| `PipeProofs.ChunkDelivered` | colonel/src/io/pipe.go:85-90 | one more chunk extends what was copied and what was delivered alike |
| `Utf8.DecodeEncode` | colonel/src/unicode/utf8/utf8.go:365-407 | decoding an encoded rune gives it back whatever follows (section 4 of RFC 3629) |
| `Utf8.EncodeDecode` | colonel/src/unicode/utf8/utf8.go:157-215 | a well-formed sequence is the encoding of what it decodes to: overlong forms and surrogates are not well-formed |
| `Utf8.FullDecides` | colonel/src/unicode/utf8/utf8.go:110-127 | once FullRune holds, further bytes do not change what DecodeRune returns |
| `Utf8.Incomplete` | colonel/src/unicode/utf8/utf8.go:110-127 | bytes that are not a full rune are a first byte followed by continuation bytes |
| `Utf8.DecodeAllEncodeAll` | colonel/src/unicode/utf8/utf8.go:157-169 | decoding the encodings of any scalar values gives them back |
| `Utf8.EncodingOf` | colonel/src/unicode/utf8/utf8.go:368-407 | the bytes of every rune by the ranges and payload bits of section 3 of RFC 3629, and the three bytes of U+FFFD for surrogates, negative and too large runes |
| `Utf8.DecodeAny` | colonel/src/unicode/utf8/utf8.go:368-407 | what is decoded after any int was encoded: the rune, or U+FFFD for what is no scalar value |
| `Utf8.WellFormedIff` | colonel/src/unicode/utf8/utf8.go:157-215 | a sequence is decoded as more than a single bad byte exactly when it begins with the encoding of a scalar value; otherwise U+FFFD of size 1 |
| `Boundaries.DecodeLastRune` | colonel/src/unicode/utf8/utf8.go:279-306 | on arbitrary bytes, decoding the last rune before a boundary finds the rune and the position of the forward scan |
| `Boundaries.StartIsBoundary` | colonel/src/unicode/utf8/utf8.go:455-457 | the forward scan stops at every byte that is not a continuation byte |
| `Boundaries.OnlyCandidate` | colonel/src/unicode/utf8/utf8.go:289-305 | the place where the backward search stops is the only one where a sequence ending at the end can start |
| `Boundaries.BackwardsIsForwards` | colonel/src/unicode/utf8/utf8.go:279-306 | one backward step from a boundary is exactly the previous boundary of the forward scan |
| `ByteSearch.IndexFunc` | colonel/src/bytes/bytes.go:909-919 | the first rune boundary whose rune satisfies f == truth, -1 when there is none |
| `ByteSearch.LastIndexFunc` | colonel/src/bytes/bytes.go:924-936 | decoding backwards finds the last match of the forward scan, on any bytes |
| `ByteSearch.TrimRightFunc` | colonel/src/bytes/bytes.go:857-866 | cuts off exactly the trailing runes that satisfy f, on a boundary |
| `ByteSearch.TrimLeftFunc` | colonel/src/bytes/bytes.go:847-853 | cuts off exactly the leading runes that satisfy f, on a boundary |
| `ByteSearch.OccursAsRune` | colonel/src/bytes/bytes.go:155-178 | a rune other than U+FFFD stands at a boundary exactly where its encoding occurs as bytes |
| `ByteSearch.IndexRune` | colonel/src/bytes/bytes.go:139-215 | for every rune and any bytes, the search by last byte with its fallbacks finds the first index the decoding loop finds |
| `ByteSearch.IndexEncoded` | colonel/src/bytes/bytes.go:155-196 | first occurrence, with the switch to a fallback at any time |
| `ByteSearch.IndexBrute` | colonel/src/bytes/bytes.go:196-213 | the brute-force fallback finishes the same search |
| `RuneReader.ReadRune.ReadByte` | colonel/src/fmt/scan.go:314-326 | the next byte of the stream, pending bytes first; EOF at its end |
| `RuneReader.ReadRune.Next` | colonel/src/fmt/scan.go:330-367 | the first rune of the stream, or the rune pushed back, with every pending byte but the last kept a continuation byte |
| `RuneReader.ReadRune.SaveLeftover` | colonel/src/fmt/scan.go:360-363 | left-over bytes are appended without reordering the stream |
| `RuneReader.ReadRune.UnreadRune` | colonel/src/fmt/scan.go:369-376 | the rune just read comes next again; refused when there is none |
| `RuneReader.ReadAll` | colonel/src/fmt/scan.go:304-376 | for any byte stream ending in EOF, any chunking and any push-backs, the runes are those of decoding the whole stream |
| `Scanners.SplitWhole` | colonel/src/bufio/scan.go:358-372 | what ScanLines cuts off the buffered bytes is the first line of the whole input |
| `Scanners.IndexLFPrefix` | colonel/src/bufio/scan.go:362-365 | more input does not move the first newline |
| `Scanners.Scanner.MakeRoom` | colonel/src/bufio/scan.go:188-214 | sliding and doubling lose and repeat nothing; it fails only when a full buffer of the maximum size holds no line |
| `Scanners.Scanner.ReadMore` | colonel/src/bufio/scan.go:215-238 | at least one byte arrives, or the reader's error, or ErrNoProgress for a reader that is silent for more than 100 calls |
| `Scanners.Scanner.TryToken` | colonel/src/bufio/scan.go:149-178 | a token cut from the buffer is the next line of the input |
| `Scanners.Scanner.Scan` | colonel/src/bufio/scan.go:139-240 | returns the next line when it fits, fails with ErrTooLong when it cannot, and ends with the reader's error; the line is that of `FirstLine` |
| `Scanners.ScanAll` | colonel/src/bufio/scan.go:129-139 | scanning to the end gives exactly the lines of the input, for every chunking, when they fit; otherwise exactly those before the first that is too long |
| `LineRoundTrips.FirstLine` | colonel/src/bufio/scan.go:345-365 | a line without byte 10 and not ending in byte 13, followed by 10 or by 13 and 10, is cut off as it is: spaces stay and one CR goes |
| `LineRoundTrips.LastLine` | colonel/src/bufio/scan.go:366-369 | an unterminated tail is one line, without a CR at its very end |
| `LineRoundTrips.LinesOfText` | colonel/src/bufio/scan.go:352-372 | the lines of a written text are exactly the lines written, whichever of the two line ends each has |
| `LineRoundTrips.ScanText` | colonel/src/bufio/scan.go:129-139 | scanning a written text whose lines fit returns the lines written and then the reader's error, for every chunking |
| `BufReaders.Reader.Fill` | colonel/src/bufio/bufio.go:99-127 | one more byte buffered or an error stored; buffered and unread bytes together unchanged |
| `BufReaders.Reader.Peek` | colonel/src/bufio/bufio.go:143-170 | the next n bytes without consuming any, or what there is and why |
| `BufReaders.Reader.Discard` | colonel/src/bufio/bufio.go:177-207 | skips exactly n bytes of the stream, or all that is left and says why |
| `BufReaders.Reader.Read` | colonel/src/bufio/bufio.go:216-263 | hands out exactly the next n bytes of the stream and leaves the rest of p alone, on the direct and on the buffered path |
| `BufReaders.Reader.ReadByte` | colonel/src/bufio/bufio.go:267-279 | the next byte, or the reader's error when nothing is left |
| `BufReaders.Reader.UnreadByte` | colonel/src/bufio/bufio.go:286-301 | when it succeeds, and that the stream is restored if and only if the byte it remembers is the last one delivered |
| `BufReaders.Reader.ReadRune` | colonel/src/bufio/bufio.go:306-319 | the first rune of the stream whatever is buffered |
| `BufReaders.Reader.UnreadRune` | colonel/src/bufio/bufio.go:325-333 | restores the stream as it was before that ReadRune |
| `BufReaders.Reader.ReadSlice` | colonel/src/bufio/bufio.go:348-387 | ends with the first delim, or is a full buffer without it, or everything left before the error |
| `BufReaders.Reader.ReadLine` | colonel/src/bufio/bufio.go:405-438 | a whole line without its line end, or a part of one that does not separate CR from LF; an error only when nothing is left |
| `BufReaders.ReadWholeLine` | colonel/src/bufio/bufio.go:389-405 | joining the parts of a newline-terminated line gives that line without CR LF, even when CR LF straddles the buffer end |
| `LineRoundTrips.ReadText` | colonel/src/bufio/bufio.go:389-438 | reading a written text line by line with ReadLine gives the lines written, of any length, and an unterminated tail as it stands |
| `BufReaders.Reader.ReadLineThenUnread` | colonel/src/bufio/bufio.go:402-405 | unreading after ReadLine restores the stream if and only if ReadLine did not put back a CR behind a different byte |
| `BufReaders.UnreadLosesByte` | colonel/src/bufio/bufio.go:402-405 | the failing family: the CR is read twice and the byte before it is lost |
| `BufReaders.CollectFragments` | colonel/src/bufio/bufio.go:447-468 | the full buffers and the last fragment are the stream through the first delim |
| `BufReaders.ReadBytes` | colonel/src/bufio/bufio.go:478-489 | exactly the prefix through the first delim, or everything left and the error |
| `BufWriters.Writer.Flush` | colonel/src/bufio/bufio.go:635-656 | after success the sink holds everything accepted; after a partial failure sink and buffer still do; the error is the sink's own, or ErrShortWrite when it took only part and gave none |
| `BufWriters.Writer.Write` | colonel/src/bufio/bufio.go:676-698 | accepts a prefix of p, all of it unless it reports an error; nothing after an earlier error; no error of the sink is lost |
| `BufWriters.Writer.WriteByte` | colonel/src/bufio/bufio.go:701-711 | the byte is accepted exactly when no error is reported |
| `BufWriters.Writer.WriteRune` | colonel/src/bufio/bufio.go:715-741 | a rune's encoding is accepted whole or not at all when the buffer can hold a rune |
| `BufWriters.WriteAll` | colonel/src/bufio/bufio.go:572-578 | over any sequence of writes, sink and buffer hold the accepted prefixes; nothing after the first shortfall; a successful Flush means everything arrived |
| `Html.ReferenceShrinks` | colonel/src/html/escape.go:53-55 | a reference never stands for more bytes than it uses, given that no table entry is wider than its name |
| `Html.UnescapeEntity` | colonel/src/html/escape.go:56-164 | the in-place step writes what the decoder of the original text gives, moves both cursors past it and touches nothing beyond |
| `Html.UnescapeNumeric` | colonel/src/html/escape.go:69-121 | the two digit loops in place do what the decoder does, with the wrapping of int32; what that is, is `NumericReference` |
| `HtmlReferences.NumericReference` | colonel/src/html/escape.go:69-121 | a number in decimal, or in hexadecimal digits of either case behind x or X, with or without semicolon, is read as that code point; 0x80 to 0x9F by the Windows-1252 values written out; 0, surrogates and what is above 0x10FFFF as U+FFFD |
| `HtmlReferences.LoneDigit` | colonel/src/html/escape.go:107-111 | a single decimal digit without semicolon is text |
| `Html.UnescapeNamed` | colonel/src/html/escape.go:123-164 | named references of one or two runes, looked up by the longest run of letters and digits |
| `HtmlReferences.NamedReference` | colonel/src/html/escape.go:123-148 | a run of letters and digits, with its semicolon if any, that is listed stands for its one or two code points |
| `HtmlReferences.UnlistedName` | colonel/src/html/escape.go:149-163 | of a name not listed the longest proper prefix of 2 to 6 characters that is an entity is taken and the rest is text; without one all of it is text |
| `HtmlReferences.LoneAmpersand` | colonel/src/html/escape.go:123-164 | an ampersand before anything else is text |
| `Html.UnescapePrefix` | colonel/src/html/escape.go:149-163 | otherwise the longest prefix that is an entity on its own, or the text as it stands |
| `Html.UnescapeString` | colonel/src/html/escape.go:187-214 | the in-place rewrite equals the out-of-place decoder run on the original string, of which the lemmas of `HtmlReferences` say what each reference becomes |
| `HtmlReferences.UnescapeNumber` | colonel/src/html/escape.go:69-121 | UnescapeString on a numeric reference to any scalar value outside 0 and 0x80 to 0x9F gives its encoding |
| `Html.UnescapeEscape` | colonel/src/html/escape.go:174-180 | decoding an escaped string gives the string, for every byte string |
| `Html.EscapedReference` | colonel/src/html/escape.go:166-172 | each of the five replacements is read back as the byte it replaced, whatever follows |
| `Html.RoundTrip` | colonel/src/html/escape.go:182-187 | UnescapeString(EscapeString(s)) == s |
| `HtmlReferences.Replacements` | colonel/src/html/escape.go:166-172 | the five replacements character by character, and no other byte changes |
| `HtmlReferences.EscapeSafe` | colonel/src/html/escape.go:174-180 | no quote, apostrophe or angle bracket is left |
| `SplitJoin.IndexSep` | colonel/src/bytes/bytes.go:1281-1368 | the first occurrence of sep, whichever branch, skip or change of method is taken |
| `SplitJoin.Count` | colonel/src/bytes/bytes.go:57-74 | the number of separators cut from the left, or runes plus one for an empty separator |
| `SplitJoin.GenSplit` | colonel/src/bytes/bytes.go:381-409 | the pieces between separators under any limit, by the specification the next lemmas are about |
| `SplitJoin.JoinSplit` | colonel/src/bytes/bytes.go:411-445 | joining the pieces gives the original for Split, SplitN, SplitAfter and SplitAfterN |
| `SplitJoin.SplitIsSplit` | colonel/src/bytes/bytes.go:432-439 | no separator begins in a piece and ends in the separator behind it, and the last piece has none |
| `SplitJoin.PiecesHaveNone` | colonel/src/bytes/bytes.go:432-439 | no piece of a full split contains the separator |
| `SplitJoin.SplitUnique` | colonel/src/bytes/bytes.go:432-439 | the split is the only list of such pieces that joins to the string |
| `SplitJoin.PieceCount` | colonel/src/bytes/bytes.go:388-398 | the number of pieces under a limit, and a limit past the count is none |
| `SplitJoin.JoinExploded` | colonel/src/bytes/bytes.go:34-53 | with an empty separator the pieces are runes and join to the string |
| `SplitJoin.PieceIsRune` | colonel/src/bytes/bytes.go:34-53 | each piece is the bytes of one rune, in order, and they are as many as the runes |
| `SplitJoin.ExplodeLimit` | colonel/src/bytes/bytes.go:34-53 | a limit n leaves n - 1 runes as pieces of their own and the rest as one |
| `SplitJoin.Join` | colonel/src/bytes/bytes.go:561-591 | fills a buffer of exactly the length computed with the pieces and the separators between them |
| `Replacing.Replace` | colonel/src/bytes/bytes.go:1155-1192 | replacing is splitting with that limit and joining with the replacement; an empty pattern stands before, between and after the runes |
| `Replacing.ReplaceFirst` | colonel/src/bytes/bytes.go:1148-1154 | the first occurrence is cut out for the replacement and the limit less one applies behind it; without an occurrence or with limit 0 nothing changes |
| `Replacing.ReplaceEmpty` | colonel/src/bytes/bytes.go:1148-1152 | an empty pattern matches at the beginning and behind each rune: the replacement, one rune, and the same for the rest |
| `Replacing.ReplacedLength` | colonel/src/bytes/bytes.go:1173-1174 | the length computed beforehand is that of the result |
| `IntFormat.Fmt.FmtInteger` | colonel/src/fmt/format.go:197-324 | no write outside the buffer under any flags, width and precision, and what is appended is the text of which `Layout` says every part |
| `IntFormat.PutDigits` | colonel/src/fmt/format.go:238-270 | the four division, mask and shift loops write the numeral from right to left |
| `IntFormat.PutText` | colonel/src/fmt/format.go:234-315 | zeros, prefix and sign fit in front of the digits, each written as `Layout` says |
| `IntFormat.ScanNumeral` | colonel/src/fmt/format.go:234-270 | reading the digits gives the number |
| `IntFormat.ReadBack` | colonel/src/fmt/format.go:196-324 | reading the output gives the signed value back, the most negative included; the only digit-free case is precision 0 with value 0 |
| `IntFormat.Width` | colonel/src/fmt/format.go:92-108 | the output is as wide as asked for, never cut, with at least as many digits as asked for |
| `IntLayouts.Layout` | colonel/src/fmt/format.go:197-324 | for every int64 and uint64: padding spaces on the left, or on the right under minus, up to the width; sign 45 for a negative value, else 43 or 32 only when asked for; prefix 0o, 0b, 0x, 0X or 0 in their characters; then the digits of the magnitude with no needless zero |
| `IntLayouts.PlainOutput` | colonel/src/fmt/format.go:307-316 | without flags, width and precision a value that is not negative prints its digits and nothing else |
| `IntLayouts.ZeroPrecision` | colonel/src/fmt/format.go:219-226 | 0 with precision 0 prints the width in spaces |
| `WasmRefs.StoreKeeps` | colonel/lib/wasm/wasm_exec.js:161-176 | storing keeps ids and interned values in bijection, counts one more reference and leaves every live id to its value |
| `WasmRefs.FinalizeKeeps` | colonel/lib/wasm/wasm_exec.js:313-323 | giving back keeps the table in order; id and value part at the last reference and only then; predefined ids never die |
| `WasmRefs.InitialOk` | colonel/lib/wasm/wasm_exec.js:485-503 | the table set up by run is in order |
| `WasmRefs.FixedIds` | colonel/src/syscall/js/js.go:38-98 | NaN, 0, null, true and false keep the ids 0 to 4 that js.go has built in, and each kind of value its flag |
| `WasmRefs.Go.StoreValue` | colonel/lib/wasm/wasm_exec.js:147-195 | what loadValue then reads at the address is the value, except that -0 comes back as 0; other addresses are unchanged; the eight bytes are those Go expects, with the type flag and the fixed ids written out |
| `WasmRefs.Go.FinalizeRef` | colonel/lib/wasm/wasm_exec.js:313-323 | the table becomes the one with one reference less |
| `WasmRefs.StoreRunLoad` | colonel/lib/wasm/wasm_exec.js:134-195 | a stored value reads the same after any stores and finalizations, until its id has been given back as often as it was handed out |

## Left out

- Architecture-specific assembly variants of the math functions, and 32-bit `int` in Ldexp.
- The transcendental functions: their correctness is numerical error analysis, not structure.
- The payload of a NaN computed by the hardware: the model has one NaN pattern for it.
- In context: user-defined Context types, the `AfterFunc`-method branch, value wrappers, the fallback goroutine (proved
  unreachable here), real timers, the second comparison of done channels in parentCancelCtx, and the String methods; Err and Cause as calls of users.
- In Pipe: the slices are values, so a caller that changes its buffer during a Write is not covered.
- In Scanner: split functions other than ScanLines and the checks of what they return, readers that return impossible counts, the guard against doubling past the largest
  int; a token is a value, so its being overwritten by the next Scan is not captured.
- In bufio.Reader: Reset, WriteTo and nested readers; returned slices are values, as for Scanner.
- In bufio.Writer: ReadFrom, writers that accept strings directly, and sinks that take nothing and give no reason.
- In bytes: `bytealg` and Rabin-Karp are taken by contract (`IndexByte`, `Index`, `CountByte` are plain loops); the panics for lengths past the largest int in Join and Replace; Fields, Map, case mapping and Title.
- In html: the contents of the entity tables, and `EscapeString`'s Replacer beyond a per-byte map.
- In fmt: everything but fmtInteger, pad and the rune reader; the output buffer grows as a value.
- In wasm_exec.js: ids are taken to stay below 2^32, as the elements of a JavaScript array do; finalizing an id that Go does not hold; system calls, timeouts and calls into JavaScript.
- Thin wrappers and further packages (flag, log, errors, image, maps, the device code in attest): easier members only.
