# ReactiveIO line reading, modelled in Dafny

ReactiveIO reads a file as a reactive stream of lines. `LineReader` is a
`Flow.Publisher` of lines. Each subscriber gets a `ParseRequest` subscription
that counts the lines it has asked for. The lines are produced by a
`LineParser`, which subscribes to a `FileReader`. The `FileReader` reads the
file in 4 KiB pages from a `FileChannel` and hands each page to the parser.
The parser cuts every page at `\n`, `\r` and `\r\n`. It keeps the bytes of an
unfinished line pinned in a `MemoryAllocator` buffer until the next page
arrives, and flushes them as the last line at end of file.

The model has one module per component:

- `Streams`: bytes, the CR/LF terminators, the signals a subscriber sees
  (`Line`, `Complete`, `Failure`) and their causes.
- `Quota`: `ParseRequest`. It covers the line quota, the unbounded
  `Long.MAX_VALUE` demand, cancellation, the negative-request error and the
  final `close` signal.
- `Splitter`: `LineParser` as the project's own tests require it to behave.
  It is a per-byte state machine with a carry for the LF of a CR LF pair that
  straddles two chunks. It comes with an independent reference definition of
  the lines of a byte string (`SpecLines`) and a composer of files from lines
  and line endings (`Compose`).
- `SplitterAsWritten`: `LineParser` as written, under the intended wiring in
  which one allocator buffer carries the unfinished line from page to page
  (see "## Left out"). It is kept so
  that the findings below can be exhibited on concrete inputs.
- `Allocator`: `MemoryAllocator`, both corrected and as written. Its page
  operations work on a `Buffer` value with mark, position and limit. There is
  a 32 KiB direct buffer and an optional heap buffer twice the size of the
  buffer it replaces.
- `Channel`: `FileReader.subscribe` and `InnerChannelReader.read`. The
  consumer is generic, and after each page it reacts by continuing,
  cancelling or throwing. The file is a value: its content plus the I/O calls
  that fail.
- `LineReading`: `LineReader.subscribe`, which wires the three together. The
  outer subscriber's behaviour is the sequence of demands it issues from
  `onSubscribe` (`Ask(n)` or `Stop`). The result is the sequence of signals
  it receives, together with the file-level events.

## Model

| member | source | states |
|---|---|---|
| Streams.LineSignals | src/main/java/com/zhytnik/reactive/io/LineReader.java:129-135 | each emitted line becomes exactly one `onNext` signal, in order, and carries that line's bytes |
| Quota.IsActive | src/main/java/com/zhytnik/reactive/io/LineReader.java:114-116 | the gate of the parsing loop, of reading the file and of the final flush. Its contract is carried by `Splitter.InactiveScanIsIdle` (an inactive quota parses nothing), `Splitter.Finish` (no flush when inactive) and `LineReading.ReadsOnlyWhenActive` (the file is opened iff the quota is active after `onSubscribe`) |
| Quota.RequestLines | src/main/java/com/zhytnik/reactive/io/LineReader.java:119-127 | `Long.MAX_VALUE` makes the quota unbounded, a non-negative count adds to `remain`, and a negative count interrupts the subscription. The `IllegalArgument` error is signalled only if the subscription was not already interrupted, by an earlier error or by a cancel (the corrected behaviour; see Findings) |
| Quota.DemandAsWritten | src/main/java/com/zhytnik/reactive/io/LineReader.java:119-140 | as written, every negative request signals `IllegalArgument` and interrupts, even after an earlier error or a cancel; non-negative requests behave as in `RequestLines` |
| Quota.Send | src/main/java/com/zhytnik/reactive/io/LineReader.java:129-135 | sending a line uses one unit of a bounded quota and none of an unbounded one; the flags are unchanged |
| Quota.Interrupt | src/main/java/com/zhytnik/reactive/io/LineReader.java:137-145 | after an interruption (cancel or error) the subscription is no longer active |
| Quota.ApplyDemands | src/main/java/com/zhytnik/reactive/io/LineReader.java:26-27 | the `request` and `cancel` calls the subscriber makes inside `onSubscribe`, in order. Its contract is carried by `Quota.DemandsAccumulate` (plain counts add up to their independently defined total) and `Quota.DemandsSignalAtMostOnce` (at most one error, interrupted iff some demand was negative or a cancel, unbounded iff some demand was `Long.MAX_VALUE`) |
| Quota.Close | src/main/java/com/zhytnik/reactive/io/LineReader.java:148-156 | an interrupted subscription gets no final signal; otherwise it gets `Complete` exactly when the quota is unbounded or fully used, and `NoMoreLines` when lines are still owed |
| Quota.DemandsAccumulate | src/main/java/com/zhytnik/reactive/io/LineReader.java:122-123 | plain counts requested one after another add up in `remain` and signal nothing |
| Quota.DemandsSignalAtMostOnce | src/main/java/com/zhytnik/reactive/io/LineReader.java:119-145 | any sequence of demands signals at most one `IllegalArgument`, and only if it holds a negative count. It signals one whenever it holds a negative count and no cancel. The subscription ends up interrupted iff some demand was negative or a cancel. It ends up unbounded iff some demand was `Long.MAX_VALUE` |
| Quota.RepeatedNegativeRequestErrorsTwice | src/main/java/com/zhytnik/reactive/io/LineReader.java:119-140 | as written, two negative requests give the subscriber two `onError` signals |
| Quota.NegativeRequestAfterCancelErrors | src/main/java/com/zhytnik/reactive/io/LineReader.java:119-145 | as written, a cancel followed by a negative request still signals `IllegalArgument`; corrected, and in the demand sequence `cancel, -1`, nothing is signalled |
| Splitter.Step | src/main/java/com/zhytnik/reactive/io/LineReader.java:62-79 | one byte emits at most one line, and a line is charged to the quota. A spent quota stops the scan. A CR or LF ends the pending line, except the LF of a CR LF pair. Well-formed states stay well formed |
| Splitter.Scan | src/main/java/com/zhytnik/reactive/io/LineReader.java:58-87 | one `onNext`: a bounded quota drops by the number of lines emitted; the unbounded and interrupted flags are untouched |
| Splitter.Feed | src/main/java/com/zhytnik/reactive/io/LineReader.java:58-87 | parsing successive chunks never changes whether the quota is unbounded or interrupted |
| Splitter.Finish | src/main/java/com/zhytnik/reactive/io/LineReader.java:89-94 | at end of file the held-back bytes become one last line iff the quota is active and there are held-back bytes; otherwise nothing changes |
| Splitter.ScanAppend | src/main/java/com/zhytnik/reactive/io/LineReader.java:58-87 | scanning a concatenation equals scanning the first part, then the second from the state the first left |
| Splitter.FeedIsScan | src/main/java/com/zhytnik/reactive/io/LineReader.java:58-87 | feeding chunks one `onNext` at a time is scanning their concatenation |
| Splitter.ChunkingIndependent | src/main/java/com/zhytnik/reactive/io/LineReader.java:58-87 | two chunkings of the same bytes give the same lines and the same end state, even a CR LF pair split across pages |
| Splitter.InactiveScanIsIdle | src/main/java/com/zhytnik/reactive/io/LineReader.java:62 | once the quota is spent, further bytes emit nothing and change nothing |
| Splitter.ScanLinesHaveNoTerminator | src/main/java/com/zhytnik/reactive/io/LineReader.java:65-79 | emitted lines never contain a CR or an LF |
| Splitter.FirstTerminator | src/main/java/com/zhytnik/reactive/io/LineReader.java:65 | the index found is the first CR or LF, and no byte before it is one |
| Splitter.RunMatchesSpec | src/main/java/com/zhytnik/reactive/io/LineReader.java:58-94 | from any well-formed state with an unbounded quota, the splitter emits the lines the reference definition gives for the pending bytes plus the input |
| Splitter.SplitMatchesSpec | src/main/java/com/zhytnik/reactive/io/LineReader.java:58-94 | with an unbounded quota, whatever the chunking, the parser plus the end-of-file flush emit exactly the reference lines of the file |
| Splitter.Take | src/main/java/com/zhytnik/reactive/io/LineReader.java:114-116 | the first `n` lines, or all when fewer: its length and its elements |
| Splitter.BoundedScanTakes | src/main/java/com/zhytnik/reactive/io/LineReader.java:62 | a scan under a quota of `n` emits the first `n` lines of the unbounded scan and charges one unit per line |
| Splitter.BoundedRunTakes | src/main/java/com/zhytnik/reactive/io/LineReader.java:58-94 | parsing a whole input under a quota of `n` gives the first `n` reference lines and leaves `n` minus that count |
| Splitter.BoundedSplitTakes | src/main/java/com/zhytnik/reactive/io/LineReader.java:58-94 | the same under any chunking |
| Splitter.RowLines | src/test/java/com/zhytnik/reactive/io/LineReaderTest.java:123-134 | the lines of a list of rows are the rows' lines, in order |
| Splitter.ComposeSplits | src/test/java/com/zhytnik/reactive/io/LineReaderTest.java:123-134 | a file composed of lines, each ended by `\n`, `\r` or `\r\n`, splits back into exactly those lines. An empty unterminated tail adds no line |
| Splitter.SplitRoundTrip | src/main/java/com/zhytnik/reactive/io/LineReader.java:58-94 | the splitter reads back the lines a file was composed of |
| SplitterAsWritten.Step | src/main/java/com/zhytnik/reactive/io/LineReader.java:62-79 | as written: at most one line per byte, charged to the quota; a spent quota stops the scan |
| SplitterAsWritten.OnNext | src/main/java/com/zhytnik/reactive/io/LineReader.java:82-86 | after a chunk that leaves the quota active, the retained view is the pending line. After one that spends it, the view is not moved and grows by the chunk |
| SplitterAsWritten.Finish | src/main/java/com/zhytnik/reactive/io/LineReader.java:89-94 | as written, any retained view is flushed as a line and charged, whatever the quota and even when it is empty |
| SplitterAsWritten.LosesLineAfterLoneCR | src/main/java/com/zhytnik/reactive/io/LineReader.java:65-73 | `0\r2\n` gives the lines `0` and an empty line as written, and `0`, `2` once corrected |
| SplitterAsWritten.FlushesEmptyLastLine | src/main/java/com/zhytnik/reactive/io/LineReader.java:89-94 | `4\r\n` gives `4` and an extra empty line as written, and only `4` once corrected |
| SplitterAsWritten.FlushesThirdEmptyLine | src/main/java/com/zhytnik/reactive/io/LineReader.java:89-94 | `\r\r` gives three empty lines as written and two once corrected |
| SplitterAsWritten.FlushIgnoresSpentQuota | src/main/java/com/zhytnik/reactive/io/LineReader.java:82-94 | as written, with a quota of two lines already used, the flush sends a third line holding a raw LF and then reports `NoMoreLines` |
| SplitterAsWritten.QuotaStopsFlush | src/main/java/com/zhytnik/reactive/io/LineReader.java:82-94 | corrected, the same input gives exactly the two requested lines and `Complete` |
| Allocator.Zeros | src/main/java/com/zhytnik/reactive/io/LineReader.java:167-173 | a fresh buffer of `n` zero bytes |
| Allocator.AddPage | src/main/java/com/zhytnik/reactive/io/LineReader.java:192-194 | a new page starts at `to` and spans exactly one page; the data and the mark are kept |
| Allocator.Reset | src/main/java/com/zhytnik/reactive/io/LineReader.java:197 | `reset()` moves the position back to the mark; its effect is stated through `Allocator.TrySwapToDirect` (a kept heap is reset to its mark) and `Allocator.Get` (the pinned bytes from the mark survive) |
| Allocator.HasGarbage | src/main/java/com/zhytnik/reactive/io/LineReader.java:196-198 | garbage means at least one page before the mark; `Allocator.Get` states that a full direct buffer stays direct iff it has garbage, and `Allocator.CompressesLastByte` and `Allocator.NinthPageMovesToHeap` show both sides |
| Allocator.Compacted | src/main/java/com/zhytnik/reactive/io/LineReader.java:203 | `compact` moves the remaining bytes to the front and opens the whole buffer |
| Allocator.Compress | src/main/java/com/zhytnik/reactive/io/LineReader.java:200-207 | corrected: the pinned bytes move to the front, the mark is 0, and the next page starts right after them |
| Allocator.CompressAsWritten | src/main/java/com/zhytnik/reactive/io/LineReader.java:200-207 | as written, the page starts at `32768 - mark` whatever the buffer's size, and fails where that is out of range |
| Allocator.SwapToHeap | src/main/java/com/zhytnik/reactive/io/LineReader.java:225-238 | corrected: the heap buffer is twice as large, holds the pinned bytes at the front, and the next page follows them |
| Allocator.SwapToHeapAsWritten | src/main/java/com/zhytnik/reactive/io/LineReader.java:225-238 | as written, the next page starts at `capacity - mark` rather than after the pinned bytes |
| Allocator.TrySwapToDirect | src/main/java/com/zhytnik/reactive/io/LineReader.java:213-223 | the pinned bytes are kept. Memory returns to direct mode iff they fit in seven pages, and then starts at 0. Otherwise the heap is kept, reset to its mark |
| Allocator.Get | src/main/java/com/zhytnik/reactive/io/LineReader.java:176-186 | every page handed out keeps the bytes pinned from the mark and spans exactly one page. While the direct buffer has room the page follows the last one. When it is full, memory stays direct iff there is garbage before the mark. Heap mode returns to direct iff the pinned bytes fit |
| Allocator.GetAsWritten | src/main/java/com/zhytnik/reactive/io/LineReader.java:176-186 | as written, `get` fails only when compacting a heap whose mark lies past 32768 |
| Allocator.AsWrittenAgreesOnFullDirect | src/main/java/com/zhytnik/reactive/io/LineReader.java:176-207 | on a direct buffer whose data reaches its capacity the code as written and the corrected allocator agree |
| Allocator.HeapCompressOverlapsPinned | src/main/java/com/zhytnik/reactive/io/LineReader.java:200-207 | a heap buffer with a mark at 4096 gets its next page at 28672 as written, inside its 61440 pinned bytes; corrected, at 61440 |
| Allocator.DirectCompressLeavesGap | src/main/java/com/zhytnik/reactive/io/LineReader.java:200-207 | a direct buffer with mark 5000 and limit 31991 gets its next page at 27768 as written, 777 bytes past the end of its 26991 compacted pinned bytes; corrected, at 26991 |
| Allocator.SwapToHeapLeavesGap | src/main/java/com/zhytnik/reactive/io/LineReader.java:225-238 | a direct buffer with 31991 pinned bytes swaps to a heap whose next page starts at 32768 as written, leaving a gap of stale bytes; corrected, at 31991 |
| Allocator.Gets | src/main/java/com/zhytnik/reactive/io/LineReader.java:176-186 | repeated `get` keeps the allocator valid |
| Allocator.MarkAt | src/main/java/com/zhytnik/reactive/io/LineReader.java:83 | the consumer's `position(p).mark()` pins the buffer from `p` and changes nothing else |
| Allocator.PutNext | src/test/java/com/zhytnik/reactive/io/MemoryAllocatorTest.java:75 | a relative `put` writes one byte at the position and advances it |
| Allocator.PutAt | src/test/java/com/zhytnik/reactive/io/MemoryAllocatorTest.java:51-53 | an absolute `put` writes one byte and changes nothing else |
| Allocator.Narrow | src/main/java/com/zhytnik/reactive/io/LineReader.java:129-131 | setting position and limit within the page changes nothing else |
| Allocator.PagingFillsDirect | src/test/java/com/zhytnik/reactive/io/MemoryAllocatorTest.java:38-43 | successive pages in direct mode follow each other |
| Allocator.FirstEightPagesShareDirect | src/test/java/com/zhytnik/reactive/io/MemoryAllocatorTest.java:84-97 | the first eight pages all lie in the 32 KiB direct buffer, and the first one starts at the mark |
| Allocator.NinthPageMovesToHeap | src/test/java/com/zhytnik/reactive/io/MemoryAllocatorTest.java:99-119 | with nothing released, the ninth page swaps to a 64 KiB heap and keeps the first eight pages in front of it |
| Allocator.SavesBytesFromMark | src/test/java/com/zhytnik/reactive/io/MemoryAllocatorTest.java:45-63 | bytes written after the mark are still there in the next page |
| Allocator.CompressesLastByte | src/test/java/com/zhytnik/reactive/io/MemoryAllocatorTest.java:65-82 | a full direct buffer pinned at its last byte compacts that byte to the front |
| Allocator.CompactsMemory | src/test/java/com/zhytnik/reactive/io/MemoryAllocatorTest.java:65-82 | the test's scenario: after eight pages and one byte pinned at the end, the next page follows that byte at the front of direct memory |
| Allocator.SwapKeepsEarlierBytes | src/test/java/com/zhytnik/reactive/io/MemoryAllocatorTest.java:99-119 | a byte written in the second page is still in place after the swap to the heap |
| Allocator.ReturnsToDirect | src/test/java/com/zhytnik/reactive/io/MemoryAllocatorTest.java:121-157 | the test's scenario: memory compacts in direct mode, swaps to the heap, and returns to direct memory once the pinned bytes fit again |
| Channel.Pages | src/main/java/com/zhytnik/reactive/io/FileReader.java:66-74 | a file is read in non-empty pages of at most 4096 bytes |
| Channel.PagesFlatten | src/main/java/com/zhytnik/reactive/io/FileReader.java:66-74 | the pages put together are the file |
| Channel.PagesAreFull | src/main/java/com/zhytnik/reactive/io/FileReader.java:66-74 | every page but the last is full, and there are ceil(size / 4096) pages |
| Channel.Consume | src/main/java/com/zhytnik/reactive/io/FileReader.java:73 | the consumer reacts once per page |
| Channel.ReadLoop | src/main/java/com/zhytnik/reactive/io/FileReader.java:59-75 | the read loop delivers pages of 1 to 4096 bytes, and it never both throws and stops by cancellation |
| Channel.Body | src/main/java/com/zhytnik/reactive/io/FileReader.java:29-31 | what happens inside the `try`: a throwing `onSubscribe` or a failing `size()` is an error, a cancel from `onSubscribe` reads nothing, otherwise the read loop runs from offset 0. `Channel.Subscribe` states its result, and `Channel.CancelBeforeReading` and `Channel.ReadsWholeFile` show the cases |
| Channel.LoopStateIsConsumed | src/main/java/com/zhytnik/reactive/io/FileReader.java:66-74 | the consumer's final state is its state after the pages it was given |
| Channel.LoopReadsPages | src/main/java/com/zhytnik/reactive/io/FileReader.java:66-74 | the pages delivered are a prefix of the file's pages |
| Channel.LoopReadsAllPages | src/main/java/com/zhytnik/reactive/io/FileReader.java:66-74 | a loop that is neither cancelled nor failed delivers every page of the file |
| Channel.LoopStopsWhenAsked | src/main/java/com/zhytnik/reactive/io/FileReader.java:66-80 | the loop ends by cancellation iff the consumer's last reaction was a cancel; a throwing consumer ends it with an error |
| Channel.LoopGoesOnOnlyIfAsked | src/main/java/com/zhytnik/reactive/io/FileReader.java:66-80 | every reaction before the last was "continue" |
| Channel.LoopFaultsWhereItStopped | src/main/java/com/zhytnik/reactive/io/FileReader.java:66-74 | an error not raised by the consumer is the failing read, at the offset where delivery stopped, inside the file |
| Channel.LoopEndsAtSize | src/main/java/com/zhytnik/reactive/io/FileReader.java:66 | a loop that is neither cancelled nor failed stops exactly at the file's size |
| Channel.NextEvents | src/main/java/com/zhytnik/reactive/io/FileReader.java:73 | one `onNext` event per page, in order |
| Channel.NextEventsNotTerminal | src/main/java/com/zhytnik/reactive/io/FileReader.java:73 | page events are never terminal |
| Channel.Subscribe | src/main/java/com/zhytnik/reactive/io/FileReader.java:27-41 | exactly one terminal event, and it comes last. A file that cannot be opened gives only an error. Otherwise `onSubscribe` comes first, then the pages, then the channel's release, and the end is an error iff the loop threw or closing failed |
| Channel.ReadsWholeFile | src/test/java/com/zhytnik/reactive/io/FileReaderTest.java:138-148 | a consumer that never stops sees every page of a healthy file, and then `Complete` |
| Channel.ConsumeReactions | src/main/java/com/zhytnik/reactive/io/FileReader.java:73 | each reaction is the consumer's answer to that page |
| Channel.EmptyFileCompletes | src/test/java/com/zhytnik/reactive/io/FileReaderTest.java:150-154 | an empty file delivers no page and completes |
| Channel.CancelBeforeReading | src/main/java/com/zhytnik/reactive/io/FileReader.java:66 | a cancel from `onSubscribe` reads nothing and completes |
| Channel.CancelInFirstChunk | src/test/java/com/zhytnik/reactive/io/FileReaderTest.java:156-164 | a cancel during the first page stops after that page and completes |
| Channel.PagesOfFullPage | src/main/java/com/zhytnik/reactive/io/FileReader.java:66-74 | a full first page is delivered whole |
| Channel.ThreePagesReadBack | src/main/java/com/zhytnik/reactive/io/FileReader.java:66-74 | three full pages are read back as those three pages |
| Channel.MissingFileFails | src/test/java/com/zhytnik/reactive/io/FileReaderTest.java:62-69 | a file that cannot be opened gives exactly one error |
| LineReading.ConsumeIsFeed | src/main/java/com/zhytnik/reactive/io/LineReader.java:58-87 | the parser as a page consumer is the splitter fed page by page. It never throws, and it cancels exactly when the quota is spent |
| LineReading.ParserNext | src/main/java/com/zhytnik/reactive/io/LineReader.java:58-87 | `LineParser.onNext` as a page consumer: it scans the page, appends the lines, and cancels the reader when the quota is spent. `LineReading.ConsumeIsFeed` states that over many pages it is `Splitter.Feed`, never throws, and cancels exactly when the quota is inactive |
| LineReading.ReadLines | src/main/java/com/zhytnik/reactive/io/LineReader.java:29-32 | an active subscription reads the file through the parser and ends with the parser's `onComplete` flush or `onError`, then `close`. `LineReading.ReadingEndsOnce` states exactly one terminal signal, last. `LineReading.ReadsBoundedLines` states the first `n` reference lines, and `LineReading.ReadsEveryLine` states every line, each followed by the matching terminal signal |
| LineReading.Subscribe | src/main/java/com/zhytnik/reactive/io/LineReader.java:25-36 | `LineReader.subscribe`: `onSubscribe`, the gate at line 32, then reading and `close`. `LineReading.OneTerminalSignal` states at most one terminal signal, only last, and exactly one unless the subscriber cancelled. `LineReading.DeliversRequestedLines` states the first `n` lines for `n` requested, and `LineReading.ReadsOnlyWhenActive` states that the file is touched iff the quota is active |
| LineReading.ParserStaysUninterrupted | src/main/java/com/zhytnik/reactive/io/LineReader.java:58-87 | parsing never interrupts the subscription by itself |
| LineReading.FeedPastSpentQuota | src/main/java/com/zhytnik/reactive/io/LineReader.java:62 | pages parsed after the quota is spent change nothing |
| LineReading.LoopFeedsParser | src/main/java/com/zhytnik/reactive/io/LineReader.java:58-87 | the parser's state is the splitter fed with the pages delivered. A throw comes from a failing read, a cancel from a spent quota, and a finished loop has delivered all pages |
| LineReading.ParserSeesWholeFile | src/main/java/com/zhytnik/reactive/io/LineReader.java:32 | on a healthy file, an active subscription feeds the parser every page |
| LineReading.ReadingEndsOnce | src/main/java/com/zhytnik/reactive/io/LineReader.java:89-99 | a read ends in exactly one terminal signal, after all lines |
| LineReading.OneTerminalSignal | src/main/java/com/zhytnik/reactive/io/LineReader.java:25-36 | a subscriber gets at most one terminal signal, only as the last one, and exactly one unless it cancelled |
| LineReading.ReadsOnlyWhenActive | src/main/java/com/zhytnik/reactive/io/LineReader.java:32 | the file is touched iff the subscription is active after `onSubscribe`; otherwise the file does not matter |
| LineReading.ReadsBoundedLines | src/main/java/com/zhytnik/reactive/io/LineReader.java:25-36 | a quota of `n > 0` gives the first `n` lines of the file. It then completes if the file had that many and reports `NoMoreLines` otherwise. The channel is released |
| LineReading.DeliversRequestedLines | src/main/java/com/zhytnik/reactive/io/LineReader.java:25-36 | for any plain counts requested in `onSubscribe`, the same with their sum. A zero total never opens the file |
| LineReading.ReadsEveryLine | src/main/java/com/zhytnik/reactive/io/LineReader.java:25-36 | an unbounded read gives every line of the file, then `Complete` |
| LineReading.AskAllIsUnbounded | src/main/java/com/zhytnik/reactive/io/LineReader.java:120-121 | asking for `Long.MAX_VALUE` lines makes the quota unbounded |
| LineReading.DeliversAllLines | src/main/java/com/zhytnik/reactive/io/LineReader.java:25-36 | asking for `Long.MAX_VALUE` lines gives every line of the file, then `Complete` |
| LineReading.MissingFileFails | src/main/java/com/zhytnik/reactive/io/LineReader.java:96-99 | a file that cannot be opened gives exactly one I/O error and no line |
| LineReading.FileFailureFails | src/main/java/com/zhytnik/reactive/io/LineReader.java:96-99 | an open, size or close failure ends the stream with an I/O error |
| LineReading.ReadsRowsBack | src/test/java/com/zhytnik/reactive/io/LineReaderTest.java:123-134 | a file composed of lines with any mix of endings is read back as exactly those lines, then `Complete` |
| LineReading.ReadsMultilineText | src/test/java/com/zhytnik/reactive/io/LineReaderTest.java:111-121 | the test's multi-line text is read as its four lines |
| LineReading.ReadsLinesWithDifferentEnds | src/test/java/com/zhytnik/reactive/io/LineReaderTest.java:123-134 | `\r`, `\n` and `\r\n` endings each end one line |
| LineReading.ReadsEmptyFile | src/test/java/com/zhytnik/reactive/io/LineReaderTest.java:136-141 | an empty file completes without lines |
| LineReading.ReadsSingleCharLine | src/test/java/com/zhytnik/reactive/io/LineReaderTest.java:143-148 | one byte without a terminator is one line |
| LineReading.ReadsSingleLine | src/test/java/com/zhytnik/reactive/io/LineReaderTest.java:150-155 | a line ended by `\r\n` is one line, with no extra empty line |
| LineReading.ReadsRepeatableEmptyLines | src/test/java/com/zhytnik/reactive/io/LineReaderTest.java:157-167 | an empty line between terminators is delivered |
| LineReading.ReadsTextWithEmptyLines | src/test/java/com/zhytnik/reactive/io/LineReaderTest.java:169-174 | `\r\r` is two empty lines |
| LineReading.ReadsOnlyRequiredLines | src/test/java/com/zhytnik/reactive/io/LineReaderTest.java:95-109 | asking for three of four lines gives those three and `Complete`, and releases the channel |
| LineReading.FailsOnMissingLines | src/test/java/com/zhytnik/reactive/io/LineReaderTest.java:80-93 | asking for five of four lines gives the four and then `NoMoreLines` |
| LineReading.ChecksRequests | src/test/java/com/zhytnik/reactive/io/LineReaderTest.java:55-61 | a negative request gives exactly one `IllegalArgument` and never touches the file |
| LineReading.ReadsLazily | src/test/java/com/zhytnik/reactive/io/LineReaderTest.java:63-69 | a subscriber that cancels in `onSubscribe` gets nothing, even for a missing file |
| LineReading.ProcessesInternalErrors | src/test/java/com/zhytnik/reactive/io/LineReaderTest.java:71-78 | a missing file gives exactly one I/O error |

## Left out

- I/O is a value. A `FileModel` holds the file's bytes and says which of
  `open`, `size`, one `read` (at one fixed offset) and `close` fail. `read`
  always fills the page from the content. A read returning 0 or -1 before
  the reported size would make the source loop forever, and this is not
  modelled.
- `ByteBuffer` object identity, direct versus heap allocation, byte order and
  read-only views are left out. Buffers are values with data, mark, position
  and limit.
- The outer subscriber's own callbacks are left out: it cannot throw, and it
  cannot call `request` or `cancel` after `onSubscribe`. Its demands are the
  sequence it issues in `onSubscribe`. For that reason the `catch` of
  `LineReader.subscribe` (LineReader.java:33-35) is unreachable in the model.
- The wiring between `LineParser`, `FileReader` and `MemoryAllocator` is
  abstract. `LineParser.onSubscribe` casts to `FileReader.ReadRequest` and
  installs an allocator (LineReader.java:51-55), but the `FileReader` shown
  has no such type and reads into one fresh page buffer per read. The model
  assumes the intended wiring: the pinned bytes of an unfinished line carry
  over to the next page, which is what `Splitter.Parser.pending` holds. The
  allocator is modelled and proved on its own.
- `FileReader`'s byte-quota subscription (`ReadSubscription`, `setPath`,
  `setAllocator`) is not in the shown `FileReader`. The FileReaderTest cases
  about it are not modelled. `InnerChannelReader.request` does nothing
  (FileReader.java:55-57), so the consumer in the model has no request
  channel.
- Quota.RequestLines: `remain` is a Java `long`, and repeated requests can
  overflow it. The model adds without wrap-around.
- The `src/main/java/com/zhytnik/reactive/io/MemoryAllocator.java` file is an
  earlier, unused allocator and is not part of this model. Neither is
  `LineReadingExample.java`.
- Decoding of lines to text, the benchmarks and the test subscribers are not
  modelled.

## Findings

| source | as written | input that shows it | evidently intended | confidence | as-written member | corrected member |
|---|---|---|---|---|---|---|
| src/main/java/com/zhytnik/reactive/io/LineReader.java:65-73 | `ignoreLF` is set by a CR and cleared only by the next LF, so a later LF after ordinary bytes is swallowed | the bytes `0\r2\n` | lines `0`, `2` (any ordinary byte clears the carry) | high, not executed | SplitterAsWritten.LosesLineAfterLoneCR | Splitter.SplitRoundTrip |
| src/main/java/com/zhytnik/reactive/io/LineReader.java:89-94 | the flush test `position <= limit` is always true, so a file ending in a terminator gets an extra empty last line | `4\r\n` and `\r\r` | `4` alone, and two empty lines | high, not executed | SplitterAsWritten.FlushesThirdEmptyLine | Splitter.SplitMatchesSpec |
| src/main/java/com/zhytnik/reactive/io/LineReader.java:82-94 | the flush ignores a spent quota and sends a line past it, then reports `NoMoreLines` | quota 2, pages `0\n1` and `\n2` | exactly two lines, then `Complete` | medium, not executed | SplitterAsWritten.FlushIgnoresSpentQuota | SplitterAsWritten.QuotaStopsFlush |
| src/main/java/com/zhytnik/reactive/io/LineReader.java:119-140 | every negative request signals `onError`, even on a subscription an earlier negative request already terminated | two requests of -1 | one `IllegalArgument` error | medium, not executed | Quota.RepeatedNegativeRequestErrorsTwice | Quota.DemandsSignalAtMostOnce |
| src/main/java/com/zhytnik/reactive/io/LineReader.java:119-145 | a request of -1 after `cancel()` still calls `subscriber.onError` | `cancel()`, then `request(-1)`, both in `onSubscribe` | the request is a no-op after a cancel (rule 3.6 of the Reactive Streams specification) | medium, not executed | Quota.NegativeRequestAfterCancelErrors | Quota.RequestLines |
| src/main/java/com/zhytnik/reactive/io/LineReader.java:205 | after compacting, the new page starts at `32768 - mark` whatever the buffer's size or limit; on the 64 KiB heap it overlaps the pinned bytes | heap with mark 4096 and limit 65536 | page starts after the pinned bytes, at 61440 | high, not executed | Allocator.HeapCompressOverlapsPinned | Allocator.Get |
| src/main/java/com/zhytnik/reactive/io/LineReader.java:205 | on a direct buffer whose limit an earlier compaction left below 32768, the same `32768 - mark` opens the page past the end of the compacted line, and the stale bytes in between join the line | direct buffer with mark 5000 and limit 31991 | page starts after the 26991 pinned bytes, at 26991 | high, not executed | Allocator.DirectCompressLeavesGap | Allocator.Get |
| src/main/java/com/zhytnik/reactive/io/LineReader.java:226-234 | the heap's new page starts at `capacity - mark`, past the pinned `limit - mark` bytes, leaving stale bytes in between | direct buffer with mark 0 and limit 31991 | page starts after the pinned bytes, at 31991 | high, not executed | Allocator.SwapToHeapLeavesGap | Allocator.Get |
