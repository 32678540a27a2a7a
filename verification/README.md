# Verified models of the test support library and the DMA test harness

This project models the algorithmic core of the repository in Dafny and proves what that core is
for. One module stands for each component:

- `WlogFormat`, `WriteLog`, `WriteLogTheory`, `WriteLogRuns`, `WriteLogStops`: the write-history log. A class holds
  the byte file; packing, appending, overlaying and the chunked backward scan are imperative code on
  arrays, proved equal to functions on byte sequences, and those are proved to refine an abstract
  sequence of records over every run.
- `Pattern`: filling and checking a buffer by doubling, against the byte-by-byte rotated pattern.
- `DmaTest`, `DmaHarness`, `DmaParallel`: the lap and job protocol as a system of interleaved steps
  (submission, engine, callback, requeue), and the main thread that starts, awaits and frees several
  channels. The in-place code of one test case is proved to perform those steps: the callback is exactly
  the protocol's callback step, and the work item, left to itself, its begin, submit and end steps.
- `Reporter`, `ReporterTheory`, `ReporterLines`, `ReporterOutput`: the result reporter as a class, its
  nested breaks flattened to a list of reports, its exit value and all the lines it prints.
- `OpenFlags`, `Ranges`, `SelfExec` over `Text`: parsers and printers that undo each other.
- `RandomRange`, `RandomBit`: bounded random selection.
- `Forker`: the growing process tree, all processes interleaved.
- `Transfer`: short reads and writes, and the bounds of strided transfers.
- `DataPid`: data words that carry pid and file offset.
- `Basics` and `Arithmetic`: shared types, division, remainders and sums.

Methods carry the source's loops and updates; each is tied to a function of its inputs or of the old
state, and the lemmas are about those functions. Two reading aids: a callback given to the log scan
sees every record it has been given so far, so it stands for a function with memory; parameters named
`junk`, `draw`, `undefined`, `replies` or `newPid` are what memory, lrand48, undefined shifts or the
kernel happen to supply, and the results hold for all of them.

## Where code and documentation disagree

The model follows the code.

- The stored record length excludes its own two bytes (`write_log.c:225-227`, `:385`), though the
  header file says it includes them (`write_log.h:76-80`).
- The header file asks for bit-fields wide enough for the declared maxima (`write_log.h:102-104`). The
  7-bit path and 6-bit pattern lengths are one short of 128 and 64, so `WlogFormat.RoundTrip` gives the
  exact records that survive.
- `WLOG_STOP_SCAN` breaks the inner loop only (`write_log.c:395-397`), and reading goes on at the next
  chunk: the callback is called again with whatever a scan of the file without the first chunk finds
  (`WriteLogStops`). The reading ends exactly when the log fits the buffer.
- A buffer that holds the longest record is enough for the right result but not for a copy of the
  leftover that is free of overlap (`write_log.c:353`, `:374`). Buffers of at most 60 or at least 456
  bytes are, whatever fitting records the log holds, and no others; the source's 16384 bytes are.
- `tc->err` is overwritten at the end of every lap (`dma_test_module.c:191`), so err reports every lap
  exactly when there is only one, or no byte that could arrive wrong.
- `random_range` promises a multiple inside any integer bounds (`random_range.c:266-282`), but C's
  remainder moves negative bounds towards zero. `RandomRange.PromiseIff` is the exact condition.
- `lio_write_buffer` and `lio_read_buffer` return the size of the last transfer, and a read that meets
  the end of the file returns 0 however much had arrived (`tlibio.c:753`, `:1291`).
- `forker.c:75` gives the mode 1 parent a return value of 1; it is 0. A failed fork in mode 1 returns 0,
  not the number of forks, and 4097 pids are stored rather than 4098 (`forker.c:105-106`, `:185`).
- `tst_brk` with an unsupported type prints its warning before any call has set the output stream
  (`tst_res.c:607`), which crashes a test whose first call it is.

## Model

| member | source | states |
|---|---|---|
| `WlogFormat.HeaderRoundTrip` | ltp_framework/include/write_log.h:107-127 | whatever the extra bits held before and whatever follows, the header fields read from the 28 stored bytes are the ones stored |
| `WlogFormat.UnpackPacked` | ltp_framework/lib/write_log.c:416-503 | unpacking a packed record gives the record as the bit-fields keep it: negative lengths as 0, lengths and pid reduced to their field widths, flags to one bit, offset, size and flags as signed 32-bit numbers, strings cut to their stored lengths |
| `WlogFormat.RoundTrip` | ltp_framework/lib/write_log.c:416-503 | unpack undoes pack exactly on the records that fit: 17-bit pid, 7-bit path length, 6-bit pattern length, host in its buffer, one-bit flags, strings as long as their lengths say |
| `WlogFormat.RecPack` | ltp_framework/lib/write_log.c:416-463 | the in-place packing writes exactly the packed header, followed by path, host and pattern when the flag asks for them, leaves the rest of the buffer alone and returns the length |
| `WlogFormat.PackedLayout` | ltp_framework/include/write_log.h:75-127 | byte for byte what a record on disk is: which word holds which field, at which bit, and the order of path, host and pattern |
| `WriteLog.LogFile.RecordWrite` | ltp_framework/lib/write_log.c:199-260 | the file and the returned offset are those of the append (record, strings, length without its own two bytes) or of the header-only overlay |
| `WriteLog.AppendLayout` | ltp_framework/lib/write_log.c:216-242 | an append leaves the file before it alone, returns where that ended, and closes the record with its length, high byte first, without these two bytes |
| `WriteLog.OverlayLayout` | ltp_framework/lib/write_log.c:243-257 | an overlay replaces the 28 header bytes at the offset and nothing else |
| `WriteLog.LastRecord` | ltp_framework/lib/write_log.c:351-386 | a record is found at the end of a chunk exactly when its two length bytes and all its bytes are there, and its start and body are the ones the length gives |
| `WriteLog.ScanBuffer` | ltp_framework/lib/write_log.c:340-403 | the inner loop over the buffer delivers, stops, counts and leaves over exactly what the recursive parse of those bytes does |
| `WriteLog.ScanTurn` | ltp_framework/lib/write_log.c:307-338 | a turn that does not end the scan leaves a smaller file offset and a leftover that fits the buffer, so the scan ends on every file, well-formed or not |
| `WriteLog.RefillAndParse` | ltp_framework/lib/write_log.c:307-404 | one turn on the buffer, with the leftover at its end, equals the turn on byte sequences, its outcome, file offset, leftover and progress |
| `WriteLog.ScanBackward` | ltp_framework/lib/write_log.c:270-407 | the chunked scan on a buffer of any size equals the scan on byte sequences |
| `WriteLogTheory.ParseSuffix` | ltp_framework/lib/write_log.c:343-403 | a chunk that ends a well-formed log yields whole records, newest first, as the abstract delivery does, and leaves a proper suffix of the next one |
| `WriteLogTheory.TurnKeeps` | ltp_framework/lib/write_log.c:307-404 | every turn keeps the invariant: the leftover is exactly the file's own bytes behind the offset, file[..offset] plus the leftover is a run of whole records, the leftover a proper part of its last one, and what is still to be delivered is unchanged |
| `WriteLogTheory.ScanDelivers` | ltp_framework/lib/write_log.c:302-404 | for every buffer that holds the longest record, the chunked scan delivers exactly what a one-shot backward parse of the records would; no leftover copy overlaps itself in a buffer with room for two such records, or of at most 60 bytes |
| `WriteLogTheory.StopObeyedIff` | ltp_framework/lib/write_log.c:390-397 | WLOG_STOP_SCAN ends the reading of the file, for every callback, if and only if the log fits the buffer |
| `WriteLogTheory.StopIsMissed` | ltp_framework/lib/write_log.c:302-397 | told to stop at the newest record of a longer log, the scan reads a further chunk |
| `WriteLogStops.StopGoesOn` | ltp_framework/lib/write_log.c:302-404 | after a stop at any record of the newest chunk, the callback is given exactly what a scan of the file without that chunk, well-formed or not, would deliver to it, and the outcome is that of this scan; the refused record is not counted |
| `WriteLogStops.StopAtNewest` | ltp_framework/lib/write_log.c:302-404 | a callback that refuses the newest record of a longer log is then given what a scan of the bytes before the first chunk finds, and is obeyed exactly if that is nothing |
| `WriteLogStops.OncePerChunk` | ltp_framework/lib/write_log.c:302-404 | a callback that always refuses is called once for every chunk, newest first, when chunks end with a record |
| `WriteLogStops.CalledAgain` | ltp_framework/lib/write_log.c:302-404 | when whole records lie before the first chunk, the newest of them is what the callback is given after its stop |
| `WriteLogTheory.LeftoverOverlapIff` | ltp_framework/lib/write_log.c:351-376 | for two records and a buffer that holds each but not both, the memcpy of the leftover is free of overlap exactly when the leftover fills at most half the buffer |
| `WriteLogRuns.AppendedImage` | ltp_framework/lib/write_log.c:216-231 | the bytes an append adds are a well-formed image that decodes to the record kept |
| `WriteLogRuns.OverlaidImage` | ltp_framework/lib/write_log.c:243-257 | overlaying the header of a record with the same string lengths keeps its size and strings and replaces all other fields |
| `WriteLogRuns.LogRefinesSequence` | ltp_framework/lib/write_log.c:199-260 | after any run of appends, and overlays at returned offsets, the file is the concatenated images of the abstract records and every returned offset is where its record begins |
| `WriteLogRuns.ScanAfterRun` | ltp_framework/lib/write_log.c:199-407 | scanning after any such run delivers every record once, newest first, each with its latest header fields and first strings; with nrecs > 0 the last min(nrecs, n) of them; buffers up to 60 or from 456 bytes make no overlapping copy |
| `WriteLogRuns.SourceBufferScan` | ltp_framework/lib/write_log.c:270-407 | with the source's own buffer all of this holds of every run, without condition on the records |
| `WriteLogRuns.OverlapFreeIff` | ltp_framework/lib/write_log.c:351-376 | no scan of a log whose records fit the buffer copies a leftover onto itself, for every run, nrecs and callback, if and only if the buffer has at most 60 or at least 456 bytes |
| `Pattern.PatternFill` | ltp_framework/lib/pattern.c:107-168 | the buffer becomes buf[i] = pat[(i + shift) mod patlen] for every length; the doubling loop turns exactly as often as the prefix has to be doubled |
| `Pattern.TurnsIsLog` | ltp_framework/lib/pattern.c:158-165 | that is ceil(log2(buflen / patlen)) times: the least number of doublings of patlen that reaches buflen |
| `Pattern.PatternCheck` | ltp_framework/lib/pattern.c:40-105 | 0 if and only if every byte is the expected one, though past the first patlen bytes the buffer is compared with itself only |
| `Pattern.FillHead` | ltp_framework/lib/pattern.c:131-151 | the two opening copies leave the rotated pattern, cut to the buffer |
| `Pattern.CheckHead` | ltp_framework/lib/pattern.c:64-86 | the two opening comparisons succeed exactly on the rotated pattern, cut to the buffer |
| `Pattern.RepeatedDoubles` | ltp_framework/lib/pattern.c:153-164 | after whole copies, extending the rotated pattern is repeating its own beginning |
| `Pattern.UnshiftedIsPattern` | ltp_framework/lib/pattern.c:131-139 | without a shift the buffer begins with the pattern itself |
| `Pattern.SubBuffer` | ltp_framework/lib/pattern.c:40-168 | a buffer is right for shift s if and only if its first k bytes are right for s and the rest for s + k |
| `Pattern.ShiftIsModular` | ltp_framework/lib/pattern.c:51-64 | only the shift modulo the pattern length matters |
| `DmaTest.StepInv` | kernel/testcases/dma/kernel_space/dma_test_module.c:175-203 | every step keeps: within a lap, unsubmitted + in flight + counted jobs are all the jobs; a queued work item has nothing in flight; after the last lap all is quiet and done was signalled once |
| `DmaTest.RunInv` | kernel/testcases/dma/kernel_space/dma_test_module.c:175-203 | the same after every run, under any interleaving |
| `DmaTest.LapEndsQuiescent` | kernel/testcases/dma/kernel_space/dma_test_module.c:189-201 | the payload check, the end of a lap and the requeueing happen only at the last callback, with no job submitted, in flight or unfinished; err is then 0 or -1 as the buffers agree or not, if they are checked, and the work item is queued unless this was the last lap |
| `DmaTest.FaithfulNoError` | kernel/testcases/dma/kernel_space/dma_test_lib.c:290-337 | an engine that copies what it is told never makes err non-zero, in any interleaving |
| `DmaTest.RunCallbacks` | kernel/testcases/dma/kernel_space/dma_test_lib.c:67-84 | the callbacks of a run are exactly what the laps and the job counter have advanced by |
| `DmaTest.RunLength` | kernel/testcases/dma/kernel_space/dma_test_module.c:159-203 | every step uses up exactly one of the steps left, so runs are bounded |
| `DmaTest.Progress` | kernel/testcases/dma/kernel_space/dma_test_lib.c:369-416 | while completion is outstanding some step is possible |
| `DmaTest.CompletesExactlyOnce` | kernel/testcases/dma/kernel_space/dma_test_module.c:175-203 | done is signalled at most once, and exactly after laps * nbr_returns callbacks; a run that cannot go on has exactly laps * (3 * jobs + 2) steps and has signalled |
| `DmaTest.SignalReachableIff` | kernel/testcases/dma/kernel_space/dma_test_module.c:187-195 | done can be signalled if and only if the test has at least one lap and one job |
| `DmaTest.ErrIsLastVerdict` | kernel/testcases/dma/kernel_space/dma_test_module.c:189-193 | with any engine, err is 0 at completion if and only if source and target agree in the last lap |
| `DmaTest.EarlierErrorIsLost` | kernel/testcases/dma/kernel_space/dma_test_module.c:190-191 | with more than one lap and any byte to transfer, some run in which the engine writes one wrong byte fails the check of a lap, completes, and has err 0 |
| `DmaTest.FaithfulLapsClean` | kernel/testcases/dma/kernel_space/dma_test_module.c:189-193 | a faithful engine passes the check of every lap |
| `DmaTest.ErrReportsEveryLapIff` | kernel/testcases/dma/kernel_space/dma_test_module.c:187-201 | a completed run with err 0 has passed the check of every lap, in every run, if and only if the test has one lap or transfers no byte |
| `DmaTest.WorkItemRuns` | kernel/testcases/dma/kernel_space/dma_test_lib.c:404-411 | a work item that runs undisturbed begins, submits every job once and in order, and ends |
| `DmaHarness.DrawWithinIff` | kernel/testcases/dma/kernel_space/dma_test_lib.c:199-207 | in unsigned 32-bit arithmetic the drawn size lies between min and max for all 2^32 draws if and only if (2^32 - 1) mod d < (2^32 - 1) / d for d = max - min, and so for every d up to 65535 |
| `DmaHarness.DrawMeans` | kernel/testcases/dma/kernel_space/dma_test_lib.c:199-202 | on such a range the draw is min plus the number of whole steps in the random number |
| `DmaHarness.AlignIsLeast` | kernel/testcases/dma/kernel_space/dma_test_lib.c:199-218 | an aligned size is the least multiple that is not smaller, if nothing wraps |
| `DmaHarness.BugNeverFiresIff` | kernel/testcases/dma/kernel_space/dma_test_lib.c:199-207 | where nothing wraps, no draw exceeds the aligned maximum if and only if the largest draw, once aligned, does not |
| `DmaHarness.TestCase.constructor` | kernel/testcases/dma/kernel_space/dma_test_module.c:206-249 | a new test case counts nothing, is not queued and expects one callback per buffer, or one for a scatter-gather list |
| `DmaHarness.TestCase.SetUp` | kernel/testcases/dma/kernel_space/dma_test_module.c:206-249 | a test case that was set up is a start state of the protocol |
| `DmaHarness.TestCase.SizelistRandomize` | kernel/testcases/dma/kernel_space/dma_test_lib.c:190-210 | the BUG_ON fires if and only if some aligned size is above the aligned maximum, and never on the ranges above that alignment does not wrap; otherwise the list holds the aligned draws as ints and ends in -1 |
| `DmaHarness.TestCase.SizelistSet` | kernel/testcases/dma/kernel_space/dma_test_lib.c:212-223 | the list holds the aligned size, as an int, in every place and ends in -1 |
| `DmaHarness.TestCase.BuflistAlloc` | kernel/testcases/dma/kernel_space/dma_test_lib.c:225-261 | source i counts up from i modulo 256, target i is 0xAA throughout, and both have the same padding |
| `DmaHarness.UntouchedNoticedIff` | kernel/testcases/dma/kernel_space/dma_test_lib.c:243-250 | a fresh target that no engine touched agrees with its source if and only if it has no byte, or a single one whose pattern is 0xAA |
| `DmaHarness.TestCase.PayloadCheck` | kernel/testcases/dma/kernel_space/dma_test_lib.c:290-337 | 0 if and only if all transferred bytes agree, padding left out |
| `DmaHarness.SameJobs` | kernel/testcases/dma/kernel_space/dma_test_lib.c:307-329 | comparing buffer by buffer is comparing job by job, single or scatter-gather |
| `DmaHarness.TestCase.StartSingle` | kernel/testcases/dma/kernel_space/dma_test_lib.c:369-416 | every buffer is submitted once, in order and with its size, whether its descriptor is new or kept from an earlier lap |
| `DmaHarness.TestCase.StartWork` | kernel/testcases/dma/kernel_space/dma_test_module.c:159-165 | the work item changes the state as the begin, submit and end steps of the protocol do, and the jobs it hands to the engine are those of the descriptors, each with the bytes of its source buffer |
| `DmaHarness.TestCase.Worker` | kernel/testcases/dma/kernel_space/dma_test_module.c:175-203 | tc_worker is the second half of the callback step of the protocol |
| `DmaHarness.TestCase.TransmitCb` | kernel/testcases/dma/kernel_space/dma_test_lib.c:67-84 | transmit_cb with tc_worker as callback is exactly one callback step of the protocol |
| `DmaParallel.RunKeepsInv` | kernel/testcases/dma/kernel_space/dma_test_module.c:1320-1373 | in every cross-channel interleaving each started channel keeps its invariant, is over once awaited, and has no work item running once freed |
| `DmaParallel.FreedIsQuiescent` | kernel/testcases/dma/kernel_space/dma_test_module.c:1354-1365 | nothing is freed before every started channel has signalled once and has no job in flight; a freed channel takes no further step |
| `DmaParallel.EachFreedOnce` | kernel/testcases/dma/kernel_space/dma_test_module.c:1364-1365 | when the run returns every channel set up has been freed, once and in order |
| `DmaParallel.ResultIsLastVerdict` | kernel/testcases/dma/kernel_space/dma_test_module.c:1367-1372 | the result is -EINVAL without a channel, 0 if on every started channel the buffers agree at the end, and -1 if not |
| `DmaParallel.ResultReportsEveryLapIff` | kernel/testcases/dma/kernel_space/dma_test_module.c:1354-1372 | a result of 0 says that every lap of every channel passed its check, in every schedule, if and only if every started channel has one lap or transfers no byte |
| `DmaParallel.FaithfulRunSucceeds` | kernel/testcases/dma/kernel_space/dma_test_module.c:1320-1373 | with faithful engines every run on at least one channel that returns returns 0; without a channel it is -EINVAL |
| `DmaParallel.ActTakesOne` | kernel/testcases/dma/kernel_space/dma_test_module.c:1354-1368 | every action of the main thread or a channel lowers the measure by exactly one |
| `DmaParallel.EveryScheduleReturns` | kernel/testcases/dma/kernel_space/dma_test_module.c:1354-1372 | every schedule is bounded by the measure, and one that cannot go on has returned |
| `Reporter.TestReporter.PrintLine` | ltp_framework/lib/tst_res.c:411-496 | ORs the type into the exit value, then drops or prints the line by mode; without a stream it crashes |
| `Reporter.TestReporter.CondenseLine` | ltp_framework/lib/tst_res.c:333-382 | a result equal to the buffered one is dropped; any other is buffered after the old one was printed |
| `Reporter.TestReporter.Report` | ltp_framework/lib/tst_res.c:261-323 | the whole new state of a tst_res call in each mode, first call and negative count included |
| `Reporter.TestReporter.FlushBuffered` | ltp_framework/lib/tst_res.c:389-405 | prints and forgets the buffered line in NOPASS mode |
| `Reporter.TestReporter.ExitTest` | ltp_framework/lib/tst_res.c:550-562 | flushes, then exits with the masked exit value |
| `Reporter.TestReporter.ReportBreak` | ltp_framework/lib/tst_res.c:588-622 | the warning for an unsupported type, the break's own line and the line for the remaining cases |
| `Reporter.TestReporter.Break` | ltp_framework/lib/tst_res.c:588-636 | the re-entrant break equals the recursive meaning of nested programs of calls |
| `Reporter.TestReporter.RunCalls` | ltp_framework/lib/tst_res.c:582-636 | a program of calls, run on the object, equals its recursive meaning |
| `ReporterTheory.ExecIsPlay` | ltp_framework/lib/tst_res.c:588-636 | any finite nesting of breaks and cleanups is its flat list of reports, and tst_brk_entered is restored by every call that returns |
| `ReporterTheory.TraceExits` | ltp_framework/lib/tst_res.c:628-636 | exit is the last thing a program does and happens at most once; inside a cleanup it happens if and only if some cleanup calls tst_exit itself |
| `ReporterTheory.CallExits` | ltp_framework/lib/tst_res.c:628-636 | the same for one call; a break outside all cleanups always exits |
| `ReporterTheory.OutermostBreakExitsLast` | ltp_framework/lib/tst_res.c:582-636 | if no cleanup calls tst_exit, an outermost break reports its whole cleanup, nested breaks and all, and exits once, after it |
| `ReporterTheory.ExitValue` | ltp_framework/lib/tst_res.c:550-562 | in every mode the exit value is the OR of all result types and internal warnings without RETR, INFO and CONF; it is 0 if and only if none was FAIL, BROK or WARN |
| `ReporterLines.FinalLines` | ltp_framework/lib/tst_res.c:261-405 | the printed results are, in NOPASS mode, the FAIL and BROK heads of the runs of equal adjacent results (a flush also ends a run), in verbose mode all, in discard mode none |
| `ReporterLines.CrashesIff` | ltp_framework/lib/tst_res.c:463-465 | a run crashes if and only if an unsupported tst_brk type is its first use of the output stream |
| `ReporterLines.FirstBreakCrashes` | ltp_framework/lib/tst_res.c:603-610 | so a program whose first call is tst_brk with TWARN crashes, whatever follows |
| `ReporterLines.EntriesNumbered` | ltp_framework/lib/tst_res.c:302-322 | results are numbered consecutively from the initial count plus one |
| `ReporterLines.NumbersIncrease` | ltp_framework/lib/tst_res.c:333-382 | in every mode the printed case numbers strictly increase |
| `ReporterLines.NoFailureLost` | ltp_framework/lib/tst_res.c:333-405 | every FAIL or BROK result has a printed line with its test case, type and message |
| `ReporterLines.WholeTest` | ltp_framework/lib/tst_res.c:261-636 | exit value and printed lines of a whole test program with nested cleanups |
| `ReporterOutput.WholeOutput` | ltp_framework/lib/tst_res.c:261-405 | all printed lines in order, as a function of the events: in verbose mode every report, with number 0 for WARN and INFO; with NOPASS every WARN at once and every failing run when it ends; with DISCARD nothing once the mode is known |
| `ReporterOutput.RemarksPrinted` | ltp_framework/lib/tst_res.c:294-300 | the printed lines that are no results are exactly the warnings of the modes that print them and, in verbose mode, the information |
| `ReporterOutput.WholeTestOutput` | ltp_framework/lib/tst_res.c:261-636 | the same for a whole test program with nested cleanups |
| `ReporterOutput.BreakReports` | ltp_framework/lib/tst_res.c:603-622 | which reports a break makes for each of its four types and for any other, inside and outside cleanups |
| `ReporterOutput.ExitBits` | ltp_framework/lib/tst_res.c:550-562 | the exit value has the FAIL, BROK or WARN bit if and only if some report or internal warning has it, and no other bit |
| `OpenFlags.ParseOpenFlags` | ltp_framework/lib/open_flags.c:190-236 | the string is unchanged on every exit; the result is the union of the named flags, or where the first unknown name begins |
| `OpenFlags.PrintGreedy` | ltp_framework/lib/open_flags.c:257-276 | the loop prints, in table order and separated, the symbols whose bits are all still there, and leaves the other bits |
| `OpenFlags.OpenFlags2Symbols` | ltp_framework/lib/open_flags.c:239-290 | the printed string is the joined symbol list, O_RDONLY first when no access mode is set and UNKNOWN last in mode 1 when bits are left |
| `OpenFlags.PrintedSymbols` | ltp_framework/lib/open_flags.c:256-286 | O_RDONLY is printed if and only if the mask has neither access mode, and then first; any other symbol if and only if all its bits are there and no printed entry before it has one of them; UNKNOWN if and only if the mode is 1 and some bit belongs to no printed entry |
| `OpenFlags.ParseJoined` | ltp_framework/lib/open_flags.c:190-236 | the parser on a joined list of comma-free names looks them up one by one |
| `OpenFlags.ParseKnown` | ltp_framework/lib/open_flags.c:190-290 | for a table of distinct symbols, reading back the greedy pass recovers exactly the bits it took; recognised and remaining bits are disjoint and make up the mask |
| `OpenFlags.PrintThenParse` | ltp_framework/lib/open_flags.c:190-290 | whenever anything is printed, print then parse gives exactly the recognised bits; in mode 1 it fails, at the closing UNKNOWN, if and only if some bits were not recognised; the empty text fails at once |
| `OpenFlags.SymbolsNonEmpty` | ltp_framework/lib/open_flags.c:251-276 | with both access modes in the table something is printed for every mask |
| `RandomRange.RoundRange` | ltp_framework/lib/random_range.c:300-345 | the bounds in order, each moved to a multiple: a positive one inwards to the nearest, a negative one towards zero, the lower one then up by a further mult |
| `RandomRange.SelectMultiple` | ltp_framework/lib/random_range.c:354-373 | a non-negative random number selects a multiple between two multiples |
| `RandomRange.RandomRange` | ltp_framework/lib/random_range.c:291-376 | on every safe call the result is a multiple inside the bounds, or failure exactly when there is none; with mult < 1 it fails |
| `RandomRange.PromiseIff` | ltp_framework/lib/random_range.c:266-376 | for every draw a multiple inside the bounds, or failure exactly when there is none, if and only if the call is safe: rounding towards zero did no harm to a negative bound |
| `RandomRange.NegativeBoundsFail` | ltp_framework/lib/random_range.c:336-340 | for instance, from -3 to -1 there is a multiple of 2, but every draw gives 0 |
| `RandomRange.SafeCases` | ltp_framework/lib/random_range.c:266-376 | non-negative bounds, or mult 1, are safe |
| `RandomRange.EveryMultipleDrawn` | ltp_framework/lib/random_range.c:349-376 | on non-negative bounds every multiple in the range is returned for some draw |
| `RandomRange.WhichDraws` | ltp_framework/lib/random_range.c:354-373 | and for exactly the draws whose remainder by the number of multiples is the number of multiples below it |
| `RandomRange.DividerBounds` | ltp_framework/lib/random_range.c:570-626 | from any difference up to 2^63 the recursion guard is never reached, and the result lies in [min, max + 2^31 - 1] |
| `RandomRange.DividerSum` | ltp_framework/lib/random_range.c:591-624 | on a range of 2^(31 + k) numbers the result is min plus the random number plus the upper halves its bits choose, the lowest bit choosing the first |
| `RandomRange.RandomRangeLL` | ltp_framework/lib/random_range.c:472-554 | the same for 64-bit arguments that are not negative and do not overflow |
| `RandomRange.LargeRangeKeepsPromise` | ltp_framework/lib/random_range.c:472-554 | for non-negative bounds below 2^63 - 2^31 a multiple inside the ordered bounds, or failure exactly when there is none |
| `RandomRange.LargeOrSmall` | ltp_framework/lib/random_range.c:540-553 | where the upper bound fits an int the draw is that of random_range, beyond it is divider's number reduced to the number of multiples |
| `RandomBit.RandomBit` | ltp_framework/lib/random_range.c:652-700 | no bit exactly for an empty mask; otherwise the k-th lowest set bit for the drawn k |
| `RandomBit.ShiftToBit` | ltp_framework/lib/random_range.c:682-697 | the shifting loop ends on the k-th lowest set bit |
| `RandomBit.KthIsUnique` | ltp_framework/lib/random_range.c:652-700 | no two bits are the k-th, and k is between 1 and the number of set bits |
| `RandomBit.KthExists` | ltp_framework/lib/random_range.c:652-700 | every such k names a bit |
| `RandomBit.LioRandomMethods` | ltp_framework/lib/tlibio.c:472-487 | one io-type bit and one wait bit is kept of each non-empty choice, each the one its own draw names, LIO_RANDOM is cleared and no other bit changes |
| `Ranges.ParseRanges` | ltp_framework/lib/random_range.c:101-216 | the parsed ranges of the non-empty tokens in order, or -1; they never exceed the commas plus one that were allocated |
| `Ranges.FillRange` | ltp_framework/lib/random_range.c:157-205 | one range: blanks keep the defaults, a lone number is both bounds, and it fails if and only if a field that is not blank is no number |
| `Ranges.ParseAllIs` | ltp_framework/lib/random_range.c:134-206 | the whole list fails if and only if one token does, and else has the range of each token in order |
| `Ranges.CutToken` | ltp_framework/lib/random_range.c:157-170 | the parts put together with colons are the token, and the first two hold no colon |
| `Ranges.TokenRoundTrip` | ltp_framework/lib/random_range.c:48-60 | a printed token of ints, of any of the three forms, reads back as its meaning |
| `Ranges.RangesRoundTrip` | ltp_framework/lib/random_range.c:48-216 | parsing inverts printing for every list of ranges of ints and every number parser that inverts its printer on ints |
| `Ranges.DecimalRangesRoundTrip` | ltp_framework/lib/random_range.c:48-216 | so with decimal numbers, read by strtol, every list of ranges of ints reads back |
| `Text.StrTok` | ltp_framework/lib/random_range.c:153-157 | strtok skips empty tokens and returns the next one |
| `Text.TokensAreFields` | ltp_framework/lib/random_range.c:134-204 | strtok yields exactly the fields between separators that are not empty |
| `Text.TokenCount` | ltp_framework/lib/random_range.c:135-153 | strtok finds at most one token more than there are separators |
| `Text.TokensOfJoin` | ltp_framework/lib/self_exec.c:97-139 | the tokens of joined non-empty separator-free strings are those strings |
| `Text.StrtolOfDecimal` | ltp_framework/lib/self_exec.c:107-112 | strtol reads back every 32-bit number as printed, sign included, to the end of the text |
| `Text.StrtolOfNumber` | ltp_framework/lib/self_exec.c:103-118 | strtol reads spaces, a sign, zeros and a number up to whatever is behind it, cut to 32 bits |
| `SelfExec.SelfExec` | ltp_framework/lib/self_exec.c:160-216 | the joined string of directory and arguments, or failure exactly for an unknown format character |
| `SelfExec.EncodedIs` | ltp_framework/lib/self_exec.c:160-216 | nothing is sent if and only if a format character is unknown; each argument adds a comma and its text |
| `SelfExec.MaybeRunChild` | ltp_framework/lib/self_exec.c:71-157 | the decoding loop equals the recursive reading of the tokens: run, skip, break or crash |
| `SelfExec.Outcomes` | ltp_framework/lib/self_exec.c:71-157 | the exact condition, on the tokens and the format, of each outcome: not a child, crash, broken off, sent back, or run with which values |
| `SelfExec.DecodeSent` | ltp_framework/lib/self_exec.c:97-139 | decoding clean arguments gives them back, or skips exactly when some 'n' value is not the wanted one |
| `SelfExec.RanIsClean` | ltp_framework/lib/self_exec.c:71-157 | whatever was sent, the child only runs with non-empty comma-free strings and the wanted 'n' values |
| `SelfExec.ArgumentsRoundTrip` | ltp_framework/lib/self_exec.c:71-216 | the child runs with the same directory, integers and strings if and only if no string is empty or holds a comma and every 'n' value matches |
| `Forker.StarStep` | ltp_framework/lib/forker.c:197-217 | every step of any process keeps the shape of the star and what each process knows |
| `Forker.ChainStep` | ltp_framework/lib/forker.c:172-195 | every step of any process keeps the shape of the chain and what each process knows |
| `Forker.StarReturns` | ltp_framework/lib/forker.c:197-223 | mode 0: exactly ncopies processes return, the parent with ncopies - 1 and child i with i; parent and last child count every fork, and every process has stored a counted pid if and only if it is among the first 4097 |
| `Forker.ChainReturns` | ltp_framework/lib/forker.c:172-223 | mode 1: exactly ncopies processes return, depth d with d; the last one counts every fork, and every process has stored a counted pid if and only if it is among the first 4097 |
| `Forker.FailedForkReturns` | ltp_framework/lib/forker.c:174-203 | after a failed fork mode 0 still returns the number of forks, mode 1 returns 0 |
| `Forker.EveryRunEnds` | ltp_framework/lib/forker.c:156-225 | every interleaving ends within 4 * ncopies - 3 steps, and while some process has not returned the run can go on without a failing fork |
| `Forker.ForkerStatics.RecordPid` | ltp_framework/lib/forker.c:180-191 | counts the fork and stores the pid while the count is below the array size |
| `Forker.ForkerStatics.ClosePids` | ltp_framework/lib/forker.c:221-222 | clears the entry behind the last pid, if there is room |
| `Transfer.WriteBuffer` | ltp_framework/lib/tlibio.c:731-757 | the answers are consumed up to the first that is an error other than EINTR and EAGAIN, or completes the buffer; the device has accepted exactly the bytes they took, in order; on success that is the whole buffer, and the value is the size of the last transfer |
| `Transfer.WriteResultIsTotalIff` | ltp_framework/lib/tlibio.c:739-754 | a successful write returns the size of the whole transfer if and only if no answer before the last took anything |
| `Transfer.RetryChangesNothing` | ltp_framework/lib/tlibio.c:732-756 | an EINTR or EAGAIN answer in front of any answers changes neither the outcome nor the bytes sent |
| `Transfer.ReadBuffer` | ltp_framework/lib/tlibio.c:1283-1310 | the answers are consumed up to the first that is an error other than EINTR and EAGAIN, is empty or completes the buffer; the buffer begins with what they offered, in order, and the rest is untouched; a positive value means it is full, 0 end of file or a request for nothing |
| `Transfer.ReadOnce` | ltp_framework/lib/tlibio.c:1284-1307 | one turn of the loop on the buffer: where it ends, what it returns, and which bytes it leaves |
| `Transfer.ReadResultIsTotalIff` | ltp_framework/lib/tlibio.c:1291-1307 | a read that ends without an error returns the number of bytes delivered if and only if every answer before the last was an error to be retried |
| `Transfer.RereadChangesNothing` | ltp_framework/lib/tlibio.c:1284-1309 | the same for reading |
| `Transfer.StrideBounds` | ltp_framework/lib/tlibio.c:213-262 | failure exactly on a negative count; the true least and greatest byte if and only if something is transferred |
| `Transfer.BoundsAreTrue` | ltp_framework/lib/tlibio.c:232-261 | the closed form is the true minimum and maximum of all bytes touched, for every stride sign and for stride 0 |
| `Transfer.StrideZero` | ltp_framework/lib/tlibio.c:232-234 | with stride 0 the transfers lie end to end |
| `DataPid.DataPidGen` | ltp_framework/lib/datapid.c:85-174 | partial head, full words and partial tail together write the one per-byte function of the absolute file offset |
| `DataPid.WordBytes` | ltp_framework/lib/datapid.c:73-84 | a word reads as 16 bits of pid, 32 bits of its own offset and 16 bits of pid, most significant byte first |
| `DataPid.DataPidChk` | ltp_framework/lib/datapid.c:181-294 | -1 if and only if every byte is right; otherwise the offset of the first wrong byte, or of its word where the whole word is in the buffer |
| `DataPid.PartMatches` | ltp_framework/lib/datapid.c:85-294 | a buffer is right at an offset if and only if both its parts are right at theirs |
| `DataPid.PidsToldApart` | ltp_framework/lib/datapid.c:85-294 | six bytes or more written by one pid pass as another's if and only if the low 16 bits agree |

## Left out

- WriteLogRuns.ScanAfterRun: overlays that change a string length are not modelled, since they make the stored lengths disagree.
- WriteLogTheory.LeftoverOverlapIff: says of one log of two records when it is scanned without overlap; `OverlapFreeIff` says which buffers are safe for all logs, not which longer log makes which other buffer overlap.
- DmaHarness.BugNeverFiresIff: leaves out ranges on which the alignment or the largest draw wraps around; for those the condition is stated on each draw.
- RandomRange.LargeRangeKeepsPromise: needs the rounded lower bound below 2^63, where the source's 64-bit addition does not overflow.
- RandomRange.PromiseIff: needs int arithmetic that does not overflow, where the source's behaviour is undefined.
- Forker.EveryRunEnds: counts one step for a fork, one for each process to settle and one to leave; time inside fork is not modelled.
- Files of the log longer than an int, its I/O errors and short transfers: full reads and writes are assumed, and bytes no append wrote end as the outcomes Malformed or Stuck.
- The layout of the record header is that of the configured ARM target: little endian, unsigned char, seven 32-bit words.
- A pattern of length 0 and negative shifts, which the source divides by or indexes with.
- DMA timeouts, interrupted waits, pause and resume, cache mapping, channel allocation, the scatter-gather descriptors themselves and channels whose set-up fails half way; `ALIGN` is modelled for powers of two.
- A lap count that wraps around below zero: the laps are unbounded, and with none at the start the model never signals.
- The reporter's files (the fname argument and `File`), errno suffixes, column layout and message formatting; Tst_count is not changed by the test between calls.
- The reporter's 2 KB message buffer and the 512 bytes of Open_symbols.
- The flag table's contents: results hold for any table of distinct, non-empty, comma-free symbols with O_RDONLY first; an int is the set of its bits.
- The default %i number parser of parse_ranges, its error strings and allocation failure; random_rangel, which is random_range on longs on the configured target.
- Reading the current directory, changing into it and exec: whether the directory can be entered is a parameter, and a long has 32 bits.
- The children's copies of everything but the counters and pids, and background().
- Asynchronous and list I/O, signals and callbacks of tlibio, its token parser and printers.
- Error codes of the transfer loops are positive numbers in `Failed` where the source returns them negated.
- The other branch of datapid, which only returns a constant, and its error message.
- Sensor and proximity tests, safe_macros, option parsing, temporary directories, number suffixes with floating point, dataascii, databin and the shell scripts: device access, plumbing, or easier than what is here.
