# Verified models of the installer and of the Go code it ships

The repository holds a small installer (`internal`, `cmd`) and, as its payload under
`file/go`, the Go toolchain. This project models the parts whose behaviour is hardest to see
from the code and proves, for all inputs, all runs or all reachable states, what they are for.

* **Fused multiply-add** (`Words`, `Sticky`, `DoubleWord`, `Float64`, `FmaRounding`, `Fma`).
  `Float64.Rounds(v, b)` is the definition of correct rounding (section 4.3.1 of IEEE
  754-2008): `b` is at least as near to the exact value `v` as every finite float64, ties go to
  the even one, and values from halfway to 2^1024 on are infinite. `Fma.FMA` is the integer
  algorithm of `math.FMA`, proved to return a float with `Rounds(x*y+z, r)`; `RoundsUnique`
  says there is only one.
* **Synchronous pipe** (`Pipe`): a transition system with any number of read, write and close
  calls, one atomic action or one rendezvous per step. The theorems hold after every run.
* **Context tree** (`ContextSpec`, `ContextTheorems`, `ContextTimers`, `ContextTree`): each event in closed
  form, theorems about every history of events, and a class whose methods are the mutating
  code, with its locks (nested ones are only taken down the tree), and are proved to perform exactly those events.
* **Buffered streams** (`IoSource`, `BufioReader`, `BufioSessions`, `BufioLines`, `Scanner`,
  `BufioWriter`, `BufioWriterSessions`): a source holds the items it will still deliver, bytes
  and errors, and cuts them into reads as it likes. Every operation is specified by what it takes
  off the front of those items, and what `ReadBytes`, joined `ReadLine` fragments and the scanner
  return is a function of the items alone, except in the two cases described below. The sessions
  are any sequences of calls on one reader or one writer.
* **HTML unescaping in place** (`Html`, `HtmlReferences`, `HtmlInPlace`): the two-cursor
  rewriting equals a left-to-right decoding and undoes the escaping; what each kind of reference
  decodes to is stated without the decoder. The entity tables are a parameter.
* **Exit-code filter** (`ExitCodeFilter`): what is held back depends only on all output so far.
* **bytes.Buffer** (`BytesBuffer`): a byte queue, with Go's 64-bit `int` as a type whose every
  operation is checked for overflow.
* **Integer formatting** (`FmtInteger`): an independent reader gets every formatted number back.
* **WebAssembly reference table** (`WasmRefs`): histories of stores and releases.
* **Transaction engine and file actions** (`Transaction`, `FileActions`, `FileRollback`):
  reverse-order rollback over any world, then over a map of files where every operating system
  call may fail at any point, and exactly when a failed run leaves the files as they were.

## Where the code does not do what one expects

* `bufio.Reader.Discard` of at least one byte, called with an empty buffer and a source error
  pending, reads on past that error. The items are taken in their order if and only if bytes
  were buffered or no source error was pending (a recorded ErrNoProgress, or an EOF behind which
  nothing lies, does no harm). Otherwise the error is lost for good, or reported after bytes that
  came behind it, or left waiting behind them (`BufioReader.Reader.Discard`, with
  `BufioReader.DiscardPastError` at such a state). No byte is lost, and no error is
  reported before the bytes ahead of it are consumed.
* `bufio.Reader.UnreadByte` directly after a `ReadLine` that put a carriage return back puts that
  carriage return in front a second time. For a fragment that `ReadLine` returned with isPrefix,
  the stream stays what it was if and only if the fragment is as long as the buffer or ends in a
  carriage return (`BufioReader.UnreadAfterReadLine`, with `BufioReader.UnreadRepeats` at an input
  where it does not).
* Whether the error behind an unterminated line is reported by `ReadLine` depends on chunking and
  on the buffer size: it is dropped if it comes with the last fragment, and reported alone if
  that fragment filled the buffer before the end was known (`BufioLines.JoinLine` for every input,
  `BufioLines.LastFragment` for both outcomes of one input).
* `html.UnescapeString` reads numeric references modulo 2^32 (`HtmlReferences.Wrapped`), turns
  a hexadecimal reference without digits into U+FFFD if it has a semicolon
  (`HtmlReferences.EmptyHex`), and leaves a single decimal digit without a semicolon alone
  (`HtmlReferences.BareDigits`); the exact meaning of every numeral is in
  `HtmlReferences.NumericReference`.
* `bytes.Buffer.UnreadByte` is documented to fail after a read of zero bytes, but after a
  `ReadBytes` that found the buffer empty it always succeeds, and puts a byte back if and only if
  one is left before the read index (`BytesBuffer.UnreadAfterEmptyRead`; exact condition in
  `BytesBuffer.Buffer.ReadBytes`). After a `Grow` that had to move the data it succeeds and
  does nothing (`BytesBuffer.UnreadAfterGrow`; exact condition in `BytesBuffer.Buffer.Grow`).
* Undoing the motd action installs scripts that only an earlier backup contained
  (`FileRollback.StaleScript`, exact condition in `FileRollback.MotdRoundTrip`), and undoing a
  copy does not bring back what the copy replaced (`FileRollback.ReplacedFile`, exact condition in
  `FileRollback.CopyRoundTrip`). The remains of the action that failed are not undone
  (`FileRollback.LeftBehind`, exact condition in `FileRollback.RestoredExactly`, told from the
  failing calls and the files in `CleanFileCopy`, `CleanDirCopy` and `CleanMotd`).
* With `ScanLines` the outcome depends on how the source cuts its data in one case: a last line
  without a newline that is exactly as long as the maximum token size. It is a token if and only
  if the Read that delivered its last bytes also reported the end or an error, and gives
  ErrTooLong otherwise (`Scanner.LineScanner.Scan`, `Scanner.ScanAll`; `Scanner.ExactLine` shows
  both outcomes, `Scanner.ThreeCases` that there is no other such case).

## Model

| member | source | states |
|---|---|---|
| `DoubleWord.ShiftLeftExact` | file/go/src/math/fma.go:27-31 | `shl` multiplies the 128-bit number by 2^n modulo 2^128, for every count |
| `DoubleWord.ShiftRightExact` | file/go/src/math/fma.go:33-37 | `shr` divides the 128-bit number by 2^n, and what it drops is known exactly |
| `DoubleWord.ShrCompressExact` | file/go/src/math/fma.go:43-63 | `shrcompress` is the sticky shift of the 128-bit number, for every count including 64, 128 and beyond |
| `DoubleWord.LeadingZeros2Exact` | file/go/src/math/fma.go:65-71 | `lz` brackets a non-zero 128-bit number between neighbouring powers of two |
| `Sticky.CompressMeaning` | file/go/src/math/fma.go:39-63 | the sticky shift is the quotient with the lowest bit set when anything was dropped |
| `Sticky.CompressOrder` | file/go/src/math/fma.go:39-42 | comparing with an even number gives the same answer before and after a sticky shift, so no rounding decision changes |
| `Sticky.CompressCompress` | file/go/src/math/fma.go:147-177 | shifting twice is one sticky shift by the sum: nothing is rounded twice |
| `Sticky.CompressSum` | file/go/src/math/fma.go:147-157 | an even addend may be added before or after the sticky shift |
| `Sticky.CompressDifference` | file/go/src/math/fma.go:147-166 | an even minuend likewise: the sticky bit of a difference is right too |
| `Float64.NoFloatBetween` | file/go/src/math/fma.go:169-181 | no float64 lies strictly between neighbouring significands of one exponent |
| `Float64.Encoded` | file/go/src/math/fma.go:181-181 | the bit pattern assembled from sign, exponent and significand decodes to that number, also when rounding carries into the exponent |
| `Float64.RoundsUnique` | file/go/src/math/fma.go:93-95 | at most one float is the rounding of a value |
| `FmaRounding.Bracket` | file/go/src/math/fma.go:179-181 | the ten low bits of the sticky significand say exactly on which side of the midpoint of two neighbouring floats the exact value lies |
| `FmaRounding.OverflowTest` | file/go/src/math/fma.go:170-173 | the overflow test fires exactly for values from halfway to 2^1024 on |
| `FmaRounding.RoundOffCorrect` | file/go/src/math/fma.go:179-181 | adding half and masking the tie bit yields the correctly rounded float, normal or subnormal |
| `FmaRounding.Round` | file/go/src/math/fma.go:169-181 | overflow, subnormal shift and rounding together: the result is the correct rounding of the exact value behind the sticky significand |
| `Fma.Split` | file/go/src/math/fma.go:73-91 | sign, exponent and a 53-bit mantissa that represent the operand exactly, subnormals normalized |
| `Fma.Multiply` | file/go/src/math/fma.go:121-135 | the 128-bit product represents x*y exactly with its top bit at 126 |
| `Fma.OperandOrder` | file/go/src/math/fma.go:137-145 | comparing exponents, then significands, orders the exact values, and full equality means exact cancellation |
| `Fma.SumSticky` | file/go/src/math/fma.go:147-157 | the aligned and added significand is a sticky significand of the exact sum |
| `Fma.DifferenceSticky` | file/go/src/math/fma.go:147-166 | the aligned, subtracted and renormalized significand is a sticky significand of the exact difference after any cancellation |
| `Fma.Combine` | file/go/src/math/fma.go:147-167 | both branches produce a normalized 63-bit sticky significand of the exact sum or difference |
| `Fma.FMA` | file/go/src/math/fma.go:95-182 | for all finite non-zero operands the result is x*y+z rounded once to nearest, ties to even, including subnormal results, cancellation to +0 and overflow to infinity |
| `Pipe.Reachable` | file/go/src/io/pipe.go:37-123 | every step of every call keeps the six invariants (lock, counts, exchange, stream, readers, errors) |
| `Pipe.StreamTheorem` | file/go/src/io/pipe.go:50-96 | after every run, chunks read in hand-over order are the acknowledged prefixes of the writes in lock order, then the bytes copied but not yet acknowledged, whatever was closed meanwhile |
| `Pipe.OneExchange` | file/go/src/io/pipe.go:76-96 | at most one writer awaits a count and at most one reader has one to send |
| `Pipe.CountReachesItsWriter` | file/go/src/io/pipe.go:57-92 | whenever a count can be delivered, its receiver is the writer whose bytes were copied and the count is of exactly those bytes |
| `Pipe.CountNeverBlocks` | file/go/src/io/pipe.go:57-61 | a reader that copied bytes can always send its count |
| `Pipe.WriteResult` | file/go/src/io/pipe.go:76-96 | a non-empty write returns nil exactly when all its bytes were acknowledged; otherwise it reports the reader's close error or ErrClosedPipe |
| `Pipe.ReadResult` | file/go/src/io/pipe.go:50-65 | a read that returns nil took exactly one chunk; a failed one took nothing and reports the writer's close error or ErrClosedPipe |
| `Pipe.FirstCloseWins` | file/go/src/io/pipe.go:21-33 | stored close errors and the done signal never change again |
| `Pipe.FirstStored` | file/go/src/io/pipe.go:67-105 | the error stored on a side is the argument of the first close call of that side that got to store it, or ErrClosedPipe for closeRead(nil) and EOF for closeWrite(nil); there is none if there was no such call |
| `Pipe.ReadAfterClose` | file/go/src/io/pipe.go:98-114 | when only the writer side was closed, always with the same argument, every failing read reports that argument, or EOF for nil |
| `Pipe.WriteAfterClose` | file/go/src/io/pipe.go:67-123 | when only the reader side was closed, every failing write reports its argument, or ErrClosedPipe for nil |
| `Pipe.ReadWithin` | file/go/src/io/pipe.go:50-65 | no read ever takes more than it has room for |
| `Pipe.HandOverTakes` | file/go/src/io/pipe.go:57-60 | a hand-over gives the reader the next bytes of the write, as many as it has room for or all that are left |
| `Pipe.WriteMeetsReader` | file/go/src/io/pipe.go:84-96 | a write that returns nil, even of no bytes, has met a reader |
| `Pipe.NoDeadlock` | file/go/src/io/pipe.go:50-96 | an unfinished write and an unfinished read never both wait: some call can move |
| `Pipe.CloseUnblocks` | file/go/src/io/pipe.go:67-105 | once the pipe is closed, as long as a call is unfinished some call can move |
| `Pipe.Bounded` | file/go/src/io/pipe.go:50-105 | as long as no new call begins, the steps that can follow any run are bounded by a measure that every step decreases |
| `Pipe.CloseFinishes` | file/go/src/io/pipe.go:67-105 | after a close all calls under way finish: they stop within the bound, and where none can move all have finished |
| `ContextTheorems.ApplyKeeps` | file/go/src/context/context.go:473-577 | every creation, cancellation and timer firing keeps the tree and the history invariants |
| `ContextTheorems.CancelledBelow` | file/go/src/context/context.go:547-577 | a cancelled context has cancelled everything below it up to WithoutCancel |
| `ContextTheorems.TreeTheorem` | file/go/src/context/context.go:382-577 | after every history a cancelled context has no registered children and everything below it is cancelled; an uncancelled one has registered exactly its uncancelled cancelable children |
| `ContextTheorems.HistoryTheorem` | file/go/src/context/context.go:288-306 | Err and Cause are those of the earliest cancellation among the nearest cancelable context and its cancelable ancestors up to any WithoutCancel; both nil if there was none |
| `ContextTheorems.WriteOnce` | file/go/src/context/context.go:547-557 | Err and Cause, once set, are the same after every later history |
| `ContextTimers.TimersArmed` | file/go/src/context/context.go:630-655 | after every history each timer context was made by an event whose deadline it has, and until it is cancelled its timer is armed with the cause that event gave |
| `ContextTimers.Expires` | file/go/src/context/context.go:647-653 | an uncancelled timer context can expire; then Err is DeadlineExceeded and Cause the cause given when it was made, or DeadlineExceeded |
| `ContextTimers.TimerMade` | file/go/src/context/context.go:630-655 | a new context with a deadline has a timer of its own unless the parent's deadline is earlier, armed unless it is cancelled already |
| `ContextTimers.LeastDeadline` | file/go/src/context/context.go:630-669 | after every history Deadline is at most the deadline of every timer on the way up to a WithoutCancel |
| `ContextTimers.SomeDeadline` | file/go/src/context/context.go:667-669 | and it is the deadline of one of them |
| `ContextTimers.NewDeadline` | file/go/src/context/context.go:630-640 | WithDeadline gives the smaller of its own and the parent's deadline |
| `ContextTree.Tree.Lookup` | file/go/src/context/context.go:773-804 | the lookup loop finds the innermost cancelable context not past a WithoutCancel |
| `ContextTree.Tree.Done` | file/go/src/context/context.go:448-461 | the done channel belongs to the nearest cancelable context and is created on first use |
| `ContextTree.Tree.ParentCancelCtx` | file/go/src/context/context.go:382-396 | finds the nearest cancelable context unless its done channel is the shared closed one |
| `ContextTree.Tree.RemoveChild` | file/go/src/context/context.go:399-413 | takes the child out of the parent's set and changes nothing else |
| `ContextTree.Tree.Stop` | file/go/src/context/context.go:547-572 | the recursive cancellation, children in any order, equals cancelling the whole uncancelled subtree at once; locks are only taken below the ones held |
| `ContextTree.Tree.StopTimer` | file/go/src/context/context.go:683-688 | stops the timer under the context's own lock, taken below the ones held |
| `ContextTree.Tree.StopChildren` | file/go/src/context/context.go:566-570 | the loop over the children under the lock |
| `ContextTree.Tree.Cancel` | file/go/src/context/context.go:547-577 | cancel with removal from the parent performs the closed-form event and keeps the tree invariant |
| `ContextTree.Tree.PropagateCancel` | file/go/src/context/context.go:473-503 | a new context is cancelled at once if its parent is, registered if the parent is cancelable, and left alone otherwise |
| `ContextTree.Tree.WithCancel` | file/go/src/context/context.go:240-280 | creation performs the event |
| `ContextTree.Tree.WithValue` | file/go/src/context/context.go:725-736 | creation performs the event |
| `ContextTree.Tree.WithoutCancelOf` | file/go/src/context/context.go:583-588 | creation performs the event |
| `ContextTree.Tree.WithDeadlineCause` | file/go/src/context/context.go:630-655 | an earlier parent deadline, a passed deadline and an armed timer, each as the event says |
| `ContextTree.Tree.CancelFunc` | file/go/src/context/context.go:240-280 | the returned cancel function performs the event, also when called again |
| `ContextTree.Tree.FireTimer` | file/go/src/context/context.go:647-653 | a firing timer performs the event |
| `IoSource.Source.Read` | file/go/src/io/io.go:57-85 | any reader that keeps the contract: some of the next bytes, perhaps the error behind them, scratch space inside the slice only |
| `BufioReader.Reader.constructor` | file/go/src/bufio/bufio.go:50-59 | a reader of at least the minimum size with everything still ahead and no byte to unread |
| `BufioReader.Reader.Fill` | file/go/src/bufio/bufio.go:99-127 | slides, reads until something comes or ErrNoProgress, and appends exactly what the source gave |
| `BufioReader.Reader.Peek` | file/go/src/bufio/bufio.go:143-170 | shows the next n bytes without consuming, or all there are with the error behind them; after it UnreadByte fails |
| `BufioReader.Reader.Discard` | file/go/src/bufio/bufio.go:177-207 | skips exactly n bytes or all up to the error it reports, which is next in line then; no byte is lost; the items are taken in order if and only if bytes were buffered or no source error was pending, and otherwise the error is lost, late or overtaken |
| `BufioReader.DiscardPastError` | file/go/src/bufio/bufio.go:177-207 | a Read that gets an error along with its byte, after which Discard(1) takes the byte behind the error silently, or forgets the error |
| `BufioReader.Reader.Read` | file/go/src/bufio/bufio.go:216-263 | serves buffered bytes first, as many as fit; takes the bytes it returns off the front of the stream, and an error only when it is next in line and nothing is buffered; a read of no bytes leaves the byte to unread alone |
| `BufioReader.Reader.ReadByte` | file/go/src/bufio/bufio.go:267-279 | takes exactly the next byte, or the error next in line, which leaves the byte to unread alone |
| `BufioReader.Reader.UnreadByte` | file/go/src/bufio/bufio.go:286-301 | puts back exactly the last consumed byte; fails exactly when none is known or no room is left; the stream stays intact if and only if the byte put back is the last consumed |
| `BufioReader.UnreadAfterReadLine` | file/go/src/bufio/bufio.go:286-441 | after a fragment of ReadLine, UnreadByte succeeds and leaves the stream intact if and only if the fragment fills the buffer or ends in a carriage return |
| `BufioReader.UnreadRepeats` | file/go/src/bufio/bufio.go:286-441 | fifteen letters, a carriage return and a letter in a sixteen-byte buffer: the stream does not stay intact |
| `BufioReader.Reader.ReadSlice` | file/go/src/bufio/bufio.go:351-390 | the bytes up to and including the first delimiter, or a full buffer without it, or everything before the error next in line |
| `BufioReader.Reader.ReadLine` | file/go/src/bufio/bufio.go:408-441 | one fragment; a carriage return at the end of a full buffer is put back for the next call; the line end is dropped exactly when a newline follows; which byte UnreadByte would put back |
| `BufioReader.Reader.Rewind` | file/go/src/bufio/bufio.go:410-424 | the rewind always finds a byte to step back over: its panic is unreachable |
| `BufioSessions.Call` | file/go/src/bufio/bufio.go:143-390 | any one of Peek, Discard, Read, ReadByte, ReadSlice and UnreadByte keeps the stream, and its record says what it took, put back and reported |
| `BufioSessions.Extended` | file/go/src/bufio/bufio.go:143-390 | a call that continues a sound session gives a sound session |
| `BufioSessions.Session` | file/go/src/bufio/bufio.go:99-390 | for any source, chunking, buffer size and sequence of those calls: consumed bytes, then buf[r:w], then the unread source are the original stream; every successful UnreadByte restores exactly the last consumed byte; except by Peek, no source error is reported while a byte delivered before is not consumed |
| `BufioSessions.NewSession` | file/go/src/bufio/bufio.go:50-390 | the same from a new reader of any size over any source: nothing has to be known beforehand |
| `BufioLines.CollectFragments` | file/go/src/bufio/bufio.go:450-472 | full buffers and a last fragment that join to the text up to the first delimiter |
| `BufioLines.ReadBytes` | file/go/src/bufio/bufio.go:481-492 | result and error are those the stream prescribes, for every chunking and buffer size; err is nil exactly when the result ends in the delimiter; terminates on every finite source |
| `BufioLines.TookUntil` | file/go/src/bufio/bufio.go:351-390 | taking bytes that end in the first delimiter, or up to an error, determines text and error from the stream alone |
| `BufioLines.JoinLine` | file/go/src/bufio/bufio.go:408-441 | fragments joined until isPrefix is false are the text up to the newline, less one carriage return exactly when a newline follows, also when "\r\n" straddles a full buffer; the error behind an unterminated line is reported exactly when the last fragment is empty |
| `BufioLines.LineMeans` | file/go/src/bufio/bufio.go:408-441 | a line loses its newline and one carriage return before it; what the end of the stream or an error breaks off loses nothing |
| `BufioLines.VerdictMeans` | file/go/src/bufio/bufio.go:474-480 | the verdict is nil behind a delimiter, and otherwise the error that broke the text off, or EOF |
| `BufioLines.LastFragment` | file/go/src/bufio/bufio.go:408-441 | a full buffer without a newline at the end of the source: a line with no error when the end came with it, a fragment followed by an error when it did not |
| `Scanner.LineScanner.MakeRoom` | file/go/src/bufio/scan.go:180-204 | sliding and doubling keep the pending bytes; growth is refused only at the maximum, with ErrTooLong |
| `Scanner.LineScanner.TryToken` | file/go/src/bufio/scan.go:148-177 | a token is taken exactly when the buffered bytes decide the first line |
| `Scanner.LineScanner.Scan` | file/go/src/bufio/scan.go:139-240 | takes the first line of the pending text, or reports its end or a first line of at least the maximum size; a line of that size or more is a token only if it is the unterminated last one, exactly that long, and its last bytes came together with the end; 0 <= start <= end <= len(buf) <= maxTokenSize throughout |
| `Scanner.ScanAll` | file/go/src/bufio/scan.go:139-261 | the tokens up to the first false split the text into lines when all are short, and are exactly the earlier lines before one that is too long, which gives ErrTooLong; an unterminated last line of exactly the maximum size gives ErrTooLong if and only if the last Read reported no error; a scan gives up only if the source stalled |
| `Scanner.FirstSplit` | file/go/src/bufio/scan.go:345-372 | a text that begins with a token, then a newline with at most one carriage return before it, or ends behind it, has that token as its first line |
| `Scanner.LinesSplit` | file/go/src/bufio/scan.go:345-372 | the lines of a text are a split into tokens and line ends, each line end as long as possible |
| `Scanner.OnlyLines` | file/go/src/bufio/scan.go:345-372 | and there is no other such split |
| `Scanner.OneLine` | file/go/src/bufio/scan.go:345-372 | "a\r\n" is one line, "a" |
| `Scanner.ThreeCases` | file/go/src/bufio/scan.go:196-212 | every text has only short lines, or a line that is too long, or only short ones before a last one of exactly the maximum size |
| `Scanner.ExactLine` | file/go/src/bufio/scan.go:149-202 | a last line of exactly the maximum size, taken when the Read that brought it reported the end and refused when it did not |
| `Scanner.TokenOfBuffer` | file/go/src/bufio/scan.go:345-372 | a token found in the bytes buffered so far is the first line of the whole text, whatever follows |
| `Html.EntityNarrow` | file/go/src/html/escape.go:56-164 | no reference grows when it is decoded, for tables whose replacements are no wider than their names |
| `Html.UnescapeShrinks` | file/go/src/html/escape.go:187-214 | decoding never lengthens a text |
| `Html.EscapedByte` | file/go/src/html/escape.go:166-180 | an escaped byte in front of any text decodes to that byte |
| `Html.RoundTrip` | file/go/src/html/escape.go:166-214 | unescaping an escaped byte string gives it back, for every byte string |
| `Html.EscapedSafe` | file/go/src/html/escape.go:166-180 | of the five special characters escaped text contains only ampersands, and each begins one of the five references |
| `Html.PlainEscape` | file/go/src/html/escape.go:173-180 | text without special characters stays as it is |
| `HtmlReferences.NumericReference` | file/go/src/html/escape.go:69-121 | a decimal or hexadecimal reference to any number, in either case of x and of the digits, in front of any text decodes to the UTF-8 encoding of what the number stands for: its value modulo 2^32, the Windows-1252 character for 0x80 to 0x9F, U+FFFD for 0, surrogates and values above 0x10FFFF |
| `HtmlReferences.PlainReference` | file/go/src/html/escape.go:69-121 | every code point that needs no replacement decodes to its own encoding |
| `HtmlReferences.EncodedPoint` | file/go/src/html/escape.go:120-120 | a decoder of UTF-8 that refuses overlong forms and surrogates reads every encoding back |
| `HtmlReferences.BareDigits` | file/go/src/html/escape.go:97-107 | without a semicolon a reference is decoded the same, except that a single decimal digit is not enough |
| `HtmlReferences.EmptyHex` | file/go/src/html/escape.go:78-117 | a hexadecimal reference without digits but with a semicolon is U+FFFD |
| `HtmlReferences.Wrapped` | file/go/src/html/escape.go:82-96 | the reference to 4294967402 is a j |
| `HtmlReferences.LoneHash` | file/go/src/html/escape.go:69-110 | a number sign without digits begins no reference |
| `HtmlReferences.LoneX` | file/go/src/html/escape.go:69-110 | nor does an x without digits or semicolon |
| `HtmlReferences.NamedReference` | file/go/src/html/escape.go:123-163 | a name, with its semicolon if there is one, is looked up whole, then among the pairs, then by its longest known prefix of at most six letters; otherwise it stands for itself |
| `HtmlReferences.LoneAmpersand` | file/go/src/html/escape.go:60-67 | an ampersand with no name and no number behind it stands for itself |
| `HtmlInPlace.EncodeRune` | file/go/src/html/escape.go:120-148 | writes the UTF-8 encoding and nothing else |
| `HtmlInPlace.CopyDown` | file/go/src/html/escape.go:161-163 | an overlapping move to the left |
| `HtmlInPlace.UnescapeNumeric` | file/go/src/html/escape.go:69-121 | a numeric reference, in place: output up to the new dst, untouched text from the new src |
| `HtmlInPlace.UnescapeEntity` | file/go/src/html/escape.go:56-164 | any reference, in place: dst stays at or before src, the output is the decoded reference and b[src:] is untouched |
| `HtmlInPlace.UnescapeString` | file/go/src/html/escape.go:187-214 | the in-place loop computes the left-to-right decoding |
| `ExitCodeFilter.HeldLongest` | file/go/misc/go_android_exec/main.go:222-239 | no longer suffix of the output matches the expression than the one held back |
| `ExitCodeFilter.HeldCompose` | file/go/misc/go_android_exec/main.go:241-263 | what is held back after more output depends on the earlier output only through what was held back before |
| `ExitCodeFilter.CompleteHeld` | file/go/misc/go_android_exec/main.go:222-239 | output ending in "exitcode=" and digits holds back exactly that |
| `ExitCodeFilter.FinishesExactly` | file/go/misc/go_android_exec/main.go:265-289 | a code is reported exactly for output ending in "exitcode=" and digits that fit an int |
| `ExitCodeFilter.StillPossible` | file/go/misc/go_android_exec/main.go:222-239 | the expression matches exactly the texts that some more output could make a complete trailer |
| `ExitCodeFilter.CompleteMeans` | file/go/misc/go_android_exec/main.go:233-236 | a complete trailer is "exitcode=" and at least one digit |
| `ExitCodeFilter.PrintedCode` | file/go/misc/go_android_exec/main.go:265-289 | output ending in "exitcode=" and any number printed in decimal, zeros in front or not, has that number as its code, if it fits an int |
| `ExitCodeFilter.Filter.FindIndex` | file/go/misc/go_android_exec/main.go:241-263 | the leftmost match of the expression is the longest suffix that matches |
| `ExitCodeFilter.Sink.Write` | file/go/src/io/io.go:87-98 | any sink: a prefix is taken, and all of it if no error is returned |
| `ExitCodeFilter.Filter.Write` | file/go/misc/go_android_exec/main.go:241-263 | after any writes the buffer is the longest suffix of the total that could still become the trailer, and everything before it has been given to the sink in order, whatever the sink answers; without an error the sink took it all |
| `ExitCodeFilter.Filter.Finish` | file/go/misc/go_android_exec/main.go:265-289 | the code, with all but the trailer given to the sink, or an error with everything given |
| `BufioWriter.Sink.Write` | file/go/src/io/io.go:87-98 | any writer that keeps the contract: a prefix is taken, and a short count comes with an error |
| `BufioWriter.Writer.constructor` | file/go/src/bufio/bufio.go:592-605 | an empty buffer of the size asked for, or the default |
| `BufioWriter.Writer.Flush` | file/go/src/bufio/bufio.go:638-659 | after a success nothing is left in the buffer; after a partial failure sink and buffer together still hold every accepted byte |
| `BufioWriter.Writer.Write` | file/go/src/bufio/bufio.go:679-701 | exactly the counted bytes are accepted, a short count comes with an error, and after an error neither sink nor buffer changes |
| `BufioWriter.Writer.WriteByte` | file/go/src/bufio/bufio.go:704-714 | the byte is accepted exactly when no error is reported |
| `BufioWriter.Writer.WriteString` | file/go/src/bufio/bufio.go:750-781 | as Write, also through the sink's own WriteString |
| `BufioWriter.Writer.ReadFrom` | file/go/src/bufio/bufio.go:787-831 | every byte taken from the source is accepted, also through the sink's own ReadFrom, and nil means that the source had come to its end |
| `BufioWriterSessions.Call` | file/go/src/bufio/bufio.go:638-831 | any one of Flush, Write, WriteByte, WriteString and ReadFrom, failed or not: exactly the counted bytes of its argument, or drawn from its source, are accepted, all of them without an error; the sink only gets more; nothing changes after a recorded error |
| `BufioWriterSessions.Conserved` | file/go/src/bufio/bufio.go:638-831 | after call k of any session the sink and the buffer hold what was there before and what the first k calls accepted |
| `BufioWriterSessions.Frozen` | file/go/src/bufio/bufio.go:638-831 | after the first recorded error of a session the sink, the buffer and the error stay as they are, and no call accepts or draws anything |
| `BufioWriterSessions.Session` | file/go/src/bufio/bufio.go:638-831 | for every sequence of those calls over any sink and sources: after each call, also a partial flush failure, sink contents followed by buf[:n] are the earlier ones and the concatenation of the bytes each call accepted; no byte is lost between a source and the writer; once an error is recorded no later call changes anything |
| `BytesBuffer.Buffer.Truncate` | file/go/src/bytes/buffer.go:97-107 | keeps the first n unread bytes; panics exactly out of range |
| `BytesBuffer.Buffer.TryGrowByReslice` | file/go/src/bytes/buffer.go:121-127 | succeeds exactly when the capacity is enough |
| `BytesBuffer.Buffer.Reserve` | file/go/src/bytes/buffer.go:132-163 | `grow`: unread bytes kept through reslice, slide or reallocation, the write index right behind them and n bytes of room; a panic loses nothing |
| `BytesBuffer.Buffer.MakeRoom` | file/go/src/bytes/buffer.go:146-158 | sliding or allocating puts the unread bytes at the front of a slice with room, without overflow |
| `BytesBuffer.Buffer.GrowSlice` | file/go/src/bytes/buffer.go:235-258 | the new slice has room for n more bytes and starts with the old ones; the size computation stays in range |
| `BytesBuffer.Buffer.Grow` | file/go/src/bytes/buffer.go:170-176 | leaves room for n bytes and the queue as it was; says exactly when a byte can still be unread |
| `BytesBuffer.Buffer.Write` | file/go/src/bytes/buffer.go:181-188 | appends p; within the capacity it neither panics nor allocates |
| `BytesBuffer.Buffer.WriteByte` | file/go/src/bytes/buffer.go:291-299 | appends the byte |
| `BytesBuffer.Buffer.Read` | file/go/src/bytes/buffer.go:324-340 | as many bytes as fit, from the front; EOF exactly when empty and asked for something; a byte can be unread exactly when one was read |
| `BytesBuffer.Buffer.Next` | file/go/src/bytes/buffer.go:346-358 | the next n bytes or all; a byte can be unread exactly when one was read |
| `BytesBuffer.Buffer.ReadByte` | file/go/src/bytes/buffer.go:362-372 | the first byte, or EOF on an empty buffer |
| `BytesBuffer.Buffer.ReadBytes` | file/go/src/bytes/buffer.go:436-456 | up to and including the first delimiter, or everything with EOF; UnreadByte will succeed, and put a byte back exactly when one was read or the read index was not 0 |
| `BytesBuffer.Buffer.UnreadByte` | file/go/src/bytes/buffer.go:419-428 | puts back exactly the last byte consumed |
| `BytesBuffer.Buffer.ReadFrom` | file/go/src/bytes/buffer.go:212-231 | appends everything the source delivers up to EOF or its first other error, which it returns |
| `BytesBuffer.UnreadAfterEmptyRead` | file/go/src/bytes/buffer.go:415-456 | a read of zero bytes after which UnreadByte puts an older byte back |
| `BytesBuffer.UnreadAfterGrow` | file/go/src/bytes/buffer.go:132-176 | ReadByte, Grow, UnreadByte restores the byte exactly when Grow did not have to move the data |
| `FmtInteger.NumeralSpells` | file/go/src/fmt/format.go:239-272 | the digits written spell the magnitude, without needless leading zeros |
| `FmtInteger.Roomy` | file/go/src/fmt/format.go:203-213 | 68 bytes, or three more than width and precision, hold sign, prefix and digits for every value, base and flag set |
| `FmtInteger.ReadBack` | file/go/src/fmt/format.go:197-324 | an independent reader gets the signed number back from the padded text, for every base and flag set, unless zero with zero precision prints nothing |
| `FmtInteger.WideEnough` | file/go/src/fmt/format.go:93-108 | at least width characters are written, and no more than the text needs beyond that |
| `FmtInteger.FormattedAsAsked` | file/go/src/fmt/format.go:197-324 | what is written is, from left to right, blanks, sign, marker, zeros, the digits in the case asked for, and blanks, each exactly as width, precision and flags ask |
| `FmtInteger.NothingPrinted` | file/go/src/fmt/format.go:221-227 | a zero with zero precision is nothing but blanks, as many as the width |
| `FmtInteger.WriteDigits` | file/go/src/fmt/format.go:239-272 | the right-to-left loop leaves the numeral at the end of the buffer and never indexes below 0 |
| `FmtInteger.FillZeros` | file/go/src/fmt/format.go:273-276 | zeros up to the precision wanted |
| `FmtInteger.Formatter.WriteNumber` | file/go/src/fmt/format.go:239-317 | digits, zeros, prefix and sign end up in the buffer as one text |
| `FmtInteger.Formatter.WritePadding` | file/go/src/fmt/format.go:66-90 | n padding bytes behind the old output, which is kept through a reallocation |
| `FmtInteger.Formatter.Pad` | file/go/src/fmt/format.go:93-108 | padding to the width on the side the flags say |
| `FmtInteger.Formatter.FmtInteger` | file/go/src/fmt/format.go:197-324 | for every 64-bit word the old output is kept as a prefix, the formatted number follows, and the flags are as before |
| `WasmRefs.ApplyKeeps` | file/go/lib/wasm/wasm_exec.js:147-195 | every store, and every release of a held reference, keeps the four tables consistent with the references held |
| `WasmRefs.Always` | file/go/lib/wasm/wasm_exec.js:485-503 | after every history ids and values are inverse on live ids, finite counts are the references held, the pool holds each free id once, and held references keep their value |
| `WasmRefs.LiveIdsDistinct` | file/go/lib/wasm/wasm_exec.js:165-175 | two live ids never share a value and no live id is in the pool |
| `WasmRefs.Table.StoreValue` | file/go/lib/wasm/wasm_exec.js:147-195 | the cell written loads back the value, and references held before still load theirs |
| `WasmRefs.TypeKept` | file/go/src/syscall/js/js.go:265-290 | id and type flag of a stored value tell Go its JavaScript type |
| `WasmRefs.Table.Insert` | file/go/lib/wasm/wasm_exec.js:165-175 | a new value takes a free id, or a new one |
| `WasmRefs.Table.FinalizeRef` | file/go/lib/wasm/wasm_exec.js:313-323 | one reference less; the last one frees the id, and all references still held keep their values |
| `Transaction.Txn.Add` | internal/transaction/transaction.go:30-35 | appends an action, ignores nil |
| `Transaction.Txn.Run` | internal/transaction/transaction.go:38-52 | nil exactly when no Do fails; otherwise the first failing action is reported, after the Undos of exactly the completed ones were called, last first |
| `Transaction.Txn.Rollback` | internal/transaction/transaction.go:55-72 | undoes what was executed in reverse order, goes on after failures and collects them, and leaves nothing for a second call to do |
| `Transaction.ReverseOrder` | internal/transaction/transaction.go:55-64 | call number j of a rollback is the Undo of the j-th executed action from the end: each once, in reverse order |
| `Transaction.PassedOver` | internal/transaction/transaction.go:57-61 | actions without an Undo are passed over without upsetting the order |
| `Transaction.RunThenRollback` | internal/transaction/transaction.go:38-72 | a rollback after a failed run calls nothing |
| `FileActions.Exists` | internal/motd/motd.go:37-40 | for any pattern of failing calls there is an environment that lists directories faithfully |
| `FileActions.RunMotdDo` | internal/motd/motd.go:32-56 | the Do loop of the motd action computes the move described by `MotdDoAt` |
| `FileActions.RunMotdUndo` | internal/motd/motd.go:57-72 | the Undo loop computes the restoration described by `MotdUndoAt` |
| `FileRollback.MotdDoAt` | internal/motd/motd.go:32-56 | path by path: where Do succeeds, each script is in the backup over an older one of its name and gone from the motd directory; however it ends, each script is still in its place or in the backup with its contents; nothing else is touched |
| `FileRollback.ScriptSafe` | internal/motd/motd.go:41-54 | the move loop never loses a script, wherever it breaks off |
| `FileRollback.MotdUndoAt` | internal/motd/motd.go:57-72 | path by path: a successful Undo copies every backup entry back and touches nothing outside the motd directory |
| `FileRollback.MotdRoundTrip` | internal/motd/motd.go:23-73 | Do then Undo restores every file outside the backup if and only if every name in the backup was a motd script |
| `FileRollback.StaleScript` | internal/motd/motd.go:57-72 | a concrete stale backup entry that Undo installs |
| `FileRollback.CopyDoAt` | internal/fileops/fileops.go:137-148 | Do touches nothing outside the destination, however it ends |
| `FileRollback.CopyMirrors` | internal/fileops/fileops.go:41-148 | where the old destination was removed, or there was none, the destination mirrors the source, file or directory, and holds nothing else |
| `FileRollback.CopyOver` | internal/fileops/fileops.go:137-148 | whatever was at the destination, a successful copy leaves below it what the source holds; anything else only if removing the old destination failed, and then at most what was there |
| `FileRollback.CleanReplace` | internal/fileops/fileops.go:142-143 | a directory copied over one that holds another file: that file goes |
| `FileRollback.CopyDoSucceeds` | internal/fileops/fileops.go:137-148 | where no call fails, any file or directory is copied to any place apart from it that is not below a file |
| `FileRollback.MotdDoSucceeds` | internal/motd/motd.go:32-56 | where no call fails, the motd Do succeeds if the directory holds only files and nothing in the backup is in their way |
| `FileRollback.MotdUndoSucceeds` | internal/motd/motd.go:57-72 | likewise Undo |
| `FileRollback.CopyRoundTrip` | internal/fileops/fileops.go:134-157 | Do then Undo restores the files if and only if nothing was at the destination |
| `FileRollback.ReplacedFile` | internal/fileops/fileops.go:137-154 | a concrete destination file that is gone after Do and Undo |
| `FileRollback.Forward` | internal/transaction/transaction.go:38-52 | where each path stands after any sequence of completed jobs |
| `FileRollback.BackwardAt` | internal/transaction/transaction.go:55-72 | what an error-free rollback of any sequence of jobs makes of each path |
| `FileRollback.RestoredExactly` | internal/transaction/transaction.go:38-72 | after the first failure and an error-free rollback, every file outside the backup is as it was at the start if and only if the backup held no stale script, the completed copies replaced nothing, and the failing Do left nothing where no Undo clears |
| `FileRollback.RestoredInFull` | internal/transaction/transaction.go:38-72 | in particular for absent destinations, a covered backup and a failing Do that changed nothing |
| `FileRollback.FailedFileCopy` | internal/fileops/fileops.go:41-78 | a failing copy of a file to a free place leaves the files as they were if and only if its first call failed, the destination was blocked, or it failed before creating the file |
| `FileRollback.CleanFileCopy` | internal/fileops/fileops.go:137-148 | the same as the third condition of `RestoredExactly`, for a failing copy of a file |
| `FileRollback.FailedDirCopy` | internal/fileops/fileops.go:83-120 | a failing copy of a directory to a free place leaves the files as they were if and only if its first call failed, the first file's destination was blocked, or that file's copy failed before creating it |
| `FileRollback.CleanDirCopy` | internal/fileops/fileops.go:137-148 | the same as the third condition of `RestoredExactly`, for a failing copy of a directory |
| `FileRollback.FailedMotdDo` | internal/motd/motd.go:32-56 | a failing motd Do has removed a script if and only if its first turn got through: directories opened, first entry a file, copied and removed |
| `FileRollback.CleanMotd` | internal/motd/motd.go:32-56 | the same as the third condition of `RestoredExactly`, for a failing motd action |
| `FileRollback.LeftBehind` | internal/fileops/fileops.go:62-73 | a concrete copy that breaks off and leaves part of its file behind |
| `FileRollback.RegisterMotd` | internal/motd/motd.go:25-77 | adds the motd action |
| `FileRollback.RegisterCopies` | internal/fileops/fileops.go:124-160 | adds one copy action for each mapping, in order |
| `FileRollback.Install` | internal/run/run.go:72-93 | registering and running is the run over jobs that the theorems speak about |

## Left out

- Fma.FMA: zero, infinite and NaN operands return early through hardware float operations and are not modelled, so the operands are finite and non-zero.
- ContextTree.Tree.PropagateCancel: custom contexts, the AfterFunc interface path and the goroutine fallback are not modelled, and operations are atomic, so the second cancellation test under the parent's lock has nothing to find.
- ContextTree.Tree.WithDeadlineCause: time is a parameter (has the deadline passed) and a timer fires as a separate event.
- BufioLines.ReadBytes: for a source that has stalled for a hundred reads in a row the result may be everything before the stall with ErrNoProgress, and the claim about the stream's own error does not apply; the same holds for BufioLines.JoinLine, Scanner.LineScanner.Scan and Scanner.ScanAll.
- IoSource.Source.Read: errors that bufio makes up itself (ErrBufferFull, ErrNoProgress and the like) are not among the errors of a source.
- Scanner.ScanAll: only ScanLines with a maximum token size up to half of the largest int; scanning after the first false, other split functions and the empty-token panic are not modelled.
- Html.RoundTrip: the literal entity table is a parameter that maps "amp;", "lt;" and "gt;" as the standard does.
- HtmlInPlace.UnescapeString: the table parameter has replacements no longer than the references, as the real tables promise; that the literal table has this property is not checked.
- BytesBuffer.Buffer.ReadFrom: a source may stall for ever, so the loop is followed for any number of turns given; a negative count from a source is outside the reader contract.
- BytesBuffer: reading into a slice that aliases the buffer, WriteTo, runes, ReadString and NewBuffer.
- FmtInteger.Formatter.FmtInteger: the four digit loops are one loop over the base, the verb 'O' comes with base 8 as all its callers have it, and 3 + width + precision is not bounded (callers cap both at a million).
- WasmRefs.Table.StoreValue: ids are 32 bits in memory, so loading back holds while the table has at most 2^32 entries; BigInt values are not modelled.
- FileActions: directories without files, file modes and symbolic links; a directory is listed once, before its files are copied, and operating system calls fail as a parameter says.
- FileRollback.Install: the GRUB and init actions are not modelled; paths are already clean.
- Calls on the installer's command line, process launching, hashes and archives, the RPC client, and the rest of the Go tree.
