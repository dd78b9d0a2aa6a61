# mjpeg ingestion, archiving and point-in-time retrieval in Dafny

This project models the core of the mjpeg server and client:

- **Admission.** The upload handler's part loop decides, for each multipart part, whether the
  frame goes to the archive hand-off (a channel buffered to 300 frames, written to without
  blocking) and to the live transcoder.
- **Archive writer.** This is the single consumer of the hand-off. It appends each frame as an
  entry `<timestamp>.jpg` to the open tar segment `<stream>_<start>.tar`. It starts a new segment
  when no segment exists yet or when 60000 ms have passed since the current segment's start.
  Each kind of failure is handled differently:
  - a segment that cannot be created halts archiving;
  - a failed entry write skips only that frame;
  - closing the hand-off or cancelling ends the writer, and the open segment is closed once.
- **Retrieval.** Given a target timestamp, retrieval picks the segment whose name encodes the
  latest start at or before the target. It then scans that segment's entries for the last
  regular entry stamped at or before the target, and stops at the first entry stamped after it.
  The result is one of three outcomes: not found, the frame, or a distinct failure when a header
  cannot be read.
- **The client's splitter.** It cuts ffmpeg's MJPEG output into frames after each JPEG
  End-Of-Image marker FF D9 (Table B.1 and section B.1.1.3 of ITU-T T.81 | ISO/IEC 10918-1).

Modules:

- `Types`: Go's `int64`, and the wrapping subtraction used by the rotation test.
- `Strconv`: `strconv.ParseInt(s, 10, 64)` and `strconv.FormatInt(x, 10)`.
- `Strs`: `strings.HasSuffix`, `strings.TrimSuffix` and `strings.Split`.
- `Naming`: how segment files and entries are named by the writer and parsed back by retrieval.
- `Retrieval`: segment selection and the in-segment scan. Each is a fold function, with a method
  whose loop is proved against it, and lemmas that characterise it.
- `Archive`: the writer's state machine.
  - A `Writer` value holds the state. Its `segments` are the segment files in the order they
    were created. `OnDisk` gives the files left on disk: os.Create truncates an existing file, so
    a later segment with the same start replaces an earlier one. Spec functions cover one frame (`Received`), shutdown
    (`Stopped`) and a run of events (`AfterEvents`). The invariant `Valid` holds throughout.
  - The class `ArchiveWriter` has methods `NewTarFile`, `Receive`, `Close`, `Cancel` and `Run`,
    each proved against those functions.
  - Create and write failures are oracle flags (`Faults`).
- `Dispatch`: the hand-off channel (`HandOff`: a FIFO of at most 300 frames with a non-blocking
  `TrySend`), the live sink, the part loop (`Admit`, `HandleStream`), its closed form, and one
  archiver turn on the channel.
- `Readback`: the writer's segments as the tar reader returns them to the scan.
- `JpegSplit`: `scanJPEG`, its contract, and the tokenisation of a whole stream.

Behaviours of the code that are easy to miss, kept as the code has them:

- **Header check.** Admission checks only that the timestamp header is present, not that it is
  numeric. A non-numeric header reaches the queue and the transcoder, and only the archive writer
  drops it.
- **Empty candidate frame.** The retrieval scan records a candidate even when its payload is
  empty: after `io.Copy` into a fresh `bytes.Buffer`, the buffer's bytes are non-nil, so
  `Found([])` is a possible outcome.
- **Selection floor and ties.** Selection starts from a running maximum of -1 and compares
  strictly, so segments stamped below 0 are never chosen. Among equal starts, the first listed
  wins.
- **The -1 sentinel.** "No segment yet" is the value -1 of `currentTarStartMs`. A segment
  legitimately started at -1 is therefore indistinguishable from no segment: the next frame
  rotates again. If that frame is also stamped -1, it re-creates `<stream>_-1.tar`, and os.Create
  truncates the file, losing what was written to it (see Findings).
- **Repeated starts.** With wrap-around, starts can also come back to an earlier value, for
  example 0, 2^62, 2^63-1, -2^63+60000, 0. Each of those frames is due a rotation, and the last
  one truncates the first segment's file. With non-negative timestamps, starts strictly increase
  and no file is re-created.
- **Wrapping subtraction.** The rotation test subtracts with int64 wrap-around (`Types.Sub64`).

## Model

| member | source | states |
|---|---|---|
| Types.Sub64 | main.go:384 | Go's int64 `t - start`: the exact difference when it fits, otherwise the difference moved by 2^64, and always congruent to it modulo 2^64 |
| Types.Sub64NonNegative | main.go:384 | for non-negative timestamps the rotation test's subtraction never wraps |
| Strconv.ParseInt | main.go:88 | an accepted string is an optional sign followed by at least one decimal digit and nothing else; a leading '-' gives a value at most 0, any other start a value at least 0; plain digits give their decimal value |
| Strconv.FormatInt | main.go:352 | the decimal form is non-empty, all digits except a leading '-', and starts with '-' exactly for negative values |
| Strconv.FormatNatValue | main.go:352 | the digits FormatInt writes for a natural number have that number as their decimal value |
| Strconv.ParseFormatRoundTrip | main.go:88 | ParseInt(s, 10, 64) of FormatInt(x, 10) gives back x for every int64 x |
| Strconv.FormatIntInjective | main.go:352 | distinct int64 values have distinct decimal forms |
| Strs.TrimSuffix | main.go:82 | the result followed by the suffix is the input when the input ends with the suffix; otherwise the input is unchanged |
| Strs.TrimAppendedSuffix | main.go:130 | trimming a suffix that was just appended gives back the original string |
| Strs.Split | main.go:83 | Split always yields at least one piece |
| Strs.SplitJoin | main.go:83 | joining Split's pieces with the separator restores the input, and no piece contains the separator |
| Strs.SplitLast | main.go:83-87 | a string holding a separator splits into at least two pieces, and the last piece is the text after the last separator |
| Naming.SegmentFileName | main.go:352 | the name begins with the stream name and '_', ends in ".tar", and the '_' after the stream name is the last one before ".tar" |
| Naming.SegmentStart | main.go:81-91 | a name without ".tar" has no start; otherwise the start is what follows the last '_' of the rest, parsed as an int64, and there is none without a '_' |
| Naming.EntryName | main.go:293 | the entry name is the header value followed by ".jpg" |
| Naming.FrameTimestamp | main.go:130-131 | a name ending in ".jpg" is stamped by what precedes ".jpg", parsed as an int64; any other name is parsed whole |
| Naming.SegmentNameRoundTrip | main.go:352 | the segment name `<stream>_<start>.tar` parses back, by the selection loop's rules (main.go:81-91), to exactly that start, whatever the stream name contains |
| Naming.SegmentNamesDistinct | main.go:352-355 | segments with different starts get different file names, so os.Create truncates an earlier segment only when a start repeats |
| Naming.EntryNameRoundTrip | main.go:293 | the entry name `<header>.jpg` parses (main.go:130-131, 375) exactly as the header value itself does |
| Naming.EntryTimestampRoundTrip | main.go:375 | an entry named after the decimal form of t is stamped t |
| Retrieval.SelectAfter | main.go:76-99 | the fold keeps (none, -1) until something is chosen; once a name is chosen, its start is in [0, target] and it is the name of a listed item with that start |
| Retrieval.SelectSegment | main.go:73-104 | the selection loop returns the segment chosen by the fold SelectAfter |
| Retrieval.SelectAfterInvariant | main.go:76-99 | after any listing, the loop state is either (none, -1) with nothing eligible, or some item's name and start where that item is the latest eligible segment and the first listed with that start |
| Retrieval.SelectionIsLatestAtOrBefore | main.go:73-104 | nothing is selected iff no listed non-directory `.tar` name with a `_` parses to a start in [0, target]; otherwise the selected name is the latest such segment, and among equal starts the first listed |
| Retrieval.SelectionOfTwoSegments | main.go:81-97 | for two segments started at 0 <= a < b, listed in either order: a target below a finds nothing, a target in [a, b) selects a, and a target from b on selects b |
| Retrieval.ScanFrom | main.go:116-165 | the scan finds nothing only if no candidate was held on entry; it fails only on a header read error; a frame it yields is the held candidate or the payload of a usable entry: a regular entry, stamped at or before the target, whose payload was read |
| Retrieval.Conclude | main.go:167-176 | once the scan stops, the request never fails: it finds the frame recorded last exactly when one was recorded, and nothing otherwise |
| Retrieval.ScanSegment | main.go:116-176 | the scan loop, with its early break and its failure return, yields the outcome of the fold ScanFrom |
| Retrieval.StopAt | main.go:119-158 | the index of the first read that ends the scan (a header error, or a regular entry stamped after the target); no read before it ends the scan |
| Retrieval.ScanStep | main.go:129-148 | a read that does not end the scan replaces the candidate exactly when it is a regular entry stamped at or before the target whose payload was read; anything else is skipped |
| Retrieval.ScanFindsLastAtOrBefore | main.go:116-176 | the scan fails iff the read that stops it is a header error. It is NotFound iff there is no such failure and no usable entry before the stop. Otherwise it yields the payload of the last usable entry before the first entry stamped after the target |
| Retrieval.EarlyStopIsSound | main.go:149-157 | with chronological entries and no header errors, stopping early loses nothing: the scan yields the last usable entry of the whole segment, or NotFound when there is none |
| Retrieval.EarlyStopMissesLateEntry | main.go:149-157 | with entries stamped 10, 30, 20 and target 25, the scan yields the frame stamped 10 although the one stamped 20 qualifies |
| Retrieval.ScanOfThreeFrames | main.go:116-176 | a segment with frames stamped 5, 15, 25 answers 20 with the frame stamped 15, 4 with NotFound, and 25 or any later target with the frame stamped 25 |
| Retrieval.Retrieve | main.go:73-176 | a request yields NotFound when no segment is selected, Failure when the selected file cannot be opened, and otherwise the scan of that file |
| Archive.RotationDue | main.go:384 | the test always fires while the sentinel is current; between non-negative times it fires exactly when the frame is at least 60000 ms past the current start |
| Archive.Opened | main.go:342-365 | the open file, if any, is closed and logged. On success the new empty segment is appended and made current. On failure nothing is open and the segments and current start stay |
| Archive.CreateTruncatesSameStart | main.go:352-355 | after a successful os.Create, the only file on disk with that start is the new, empty one, and every other file is left as it was |
| Archive.OnDisk | main.go:352-355 | the files left on disk after a sequence of creations, os.Create truncating a file of the same name: no two share a start, and each is one of the segments created |
| Archive.OnDiskOneFilePerStart | main.go:352-355 | the disk holds at most one file per start, each of them a created segment, and every segment whose start no later segment repeats survives with all that was written to it |
| Archive.DistinctStartsKeepEveryFile | main.go:352-355 | when no two segments share a start, every segment survives on disk as written |
| Archive.Received | main.go:369-405 | handling one frame keeps the writer invariant: the sentinel is current whenever there is no segment, the current start is the latest segment's, a file is open exactly while running with a segment, every other segment is closed once in order, consecutive starts are a rotation apart, and every entry is a regular file within its segment's window |
| Archive.WrittenAddsOnlyThatEntry | main.go:392-405 | WriteHeader and Write both succeeding add the frame's entry after everything already archived; either failing adds nothing; the segments, their starts and the rest of the writer stay as they were |
| Archive.Stopped | main.go:331-339 | a writer that returns, with its deferred close done, keeps the invariant |
| Archive.StepByEvent | main.go:367-409 | the select: a writer that has returned ignores every event; a closed hand-off or a cancellation stops it with every segment kept and each closed once; a frame keeps every earlier start and adds at most one segment, started at the frame's timestamp |
| Archive.AfterEvents | main.go:367-410 | the invariant holds after any sequence of frames, closes and cancellations |
| Archive.ArchiveWriter.constructor | main.go:326-328 | a new writer has no segment, no open file and the sentinel -1 as current start |
| Archive.ArchiveWriter.NewTarFile | main.go:342-365 | changes the writer as Opened says and returns the file name `<stream>_<start>.tar`, which parses back to the start: closes the open file; on success adds the segment named after the start, whose file replaces any on-disk file with that start, and makes it current; on failure nothing is open and the current start is kept |
| Archive.ArchiveWriter.Receive | main.go:369-405 | one receive-loop iteration on a frame changes the writer exactly as Received says |
| Archive.ArchiveWriter.Close | main.go:370-372 | a closed hand-off makes the loop return and the deferred function close the open file |
| Archive.ArchiveWriter.Cancel | main.go:406-408 | cancellation ends the writer exactly like a closed hand-off |
| Archive.ArchiveWriter.Run | main.go:367-410 | the receive loop over a sequence of events ends in the state AfterEvents gives |
| Archive.StoppedWriterIgnoresEvents | main.go:367-410 | once the loop has returned, no later event changes the writer |
| Archive.RotationRule | main.go:384-390 | a frame whose name parses opens a new segment iff no segment exists (or the current start is the sentinel) or the wrapped difference is at least 60000, and the file can be created. The new segment and current start are then the frame's timestamp and earlier segments are kept. Otherwise the current start is unchanged, also for an out-of-order frame |
| Archive.CreateFailureHalts | main.go:354-361 | a failed os.Create leaves nothing open, keeps the current start and the segments, has closed every segment once, and no later event writes anything |
| Archive.FrameErrorsSkipOnlyThatFrame | main.go:375-405 | an unparsable frame name changes nothing. A failed header or payload write leaves the writer running with a file open, differing from the successful write only by that frame's missing entry |
| Archive.ShutdownClosesEachSegmentOnce | main.go:331-339 | shutdown leaves nothing open and the segments unchanged, with every segment closed exactly once, in creation order; a second shutdown changes nothing |
| Archive.EverySegmentClosedOnceOnExit | main.go:331-339 | from the initial writer, whatever events came first, a writer ended by a close or a cancellation has closed each of its segments exactly once |
| Archive.EntriesLieInTheirWindow | main.go:384-405 | every archived entry's name parses, and with non-negative times it is stamped before its segment's start plus 60000 |
| Archive.InOrderRunKeepsEntriesInWindow | main.go:367-405 | with frames in timestamp order, none before 0, and every file-system call succeeding, each entry is stamped at or after its segment's start and before that start plus 60000, and each segment's entries are in timestamp order |
| Archive.ReceivedInOrder | main.go:369-405 | a frame stamped no earlier than anything written so far keeps every segment's entries at or after its start and in timestamp order |
| Archive.ReceivedStarts | main.go:384-390 | a frame keeps every existing segment's start and adds at most one segment, started at its own timestamp |
| Archive.SegmentStartsIncrease | main.go:384-385 | with non-negative starts, each segment starts at least 60000 ms after the previous one |
| Archive.FaultFreeRunArchivesEveryFrame | main.go:367-405 | when every file-system call succeeds, the segments created hold, between them, exactly the delivered frames whose names parse, each under its own name with its own payload, in delivery order, and the writer keeps running. What stays on disk is the next rows' subject |
| Archive.RepeatedStartTruncates | main.go:328-390 | two frames named "-1.jpg" are both written, into two segments started at -1, but only the second stays on disk |
| Archive.DeliveriesKeepStartsNonNegative | main.go:363-386 | frames none of which is stamped before 0 only ever start segments at or after 0 |
| Archive.NonNegativeStartsAreDistinct | main.go:384-386 | with non-negative starts, no two segments share a start, so no rotation re-creates an earlier file |
| Archive.FaultFreeRunKeepsEveryFrameOnDisk | main.go:352-405 | when every file-system call succeeds and no frame is stamped before 0, no file is re-created and the files on disk hold exactly the delivered frames whose names parse, in delivery order |
| Readback.SegmentReadsChronologically | main.go:116-148 | a well-formed segment whose entries are in timestamp order reads back as regular entries, no header error, in chronological order |
| Readback.InOrderRunScansLikeFullPass | main.go:149-157 | for frames delivered in timestamp order, with every file-system call succeeding, every segment the writer makes is chronological, so the early-stopping scan never fails and yields the last entry at or before any target, as a full pass would |
| Dispatch.HandOff.constructor | main.go:208 | a new hand-off is empty and open |
| Dispatch.HandOff.TrySend | main.go:292-297 | the frame is appended iff fewer than 300 frames are buffered; otherwise the buffer is unchanged |
| Dispatch.HandOff.Close | main.go:309 | closing keeps the buffered frames |
| Dispatch.HandOff.Receive | main.go:369-373 | buffered frames come out first, in order, even after the close. An empty closed hand-off reports closed; an empty open one would block |
| Dispatch.LiveSink.Write | main.go:300-305 | the sink records the payload exactly when it accepts it, and reports whether it did |
| Dispatch.AdmitStep | main.go:278-305 | a part without a header or a readable payload changes nothing; an admitted part's frame is appended to the queue, old contents kept, exactly when the queue has room, and its payload appended to the sink exactly when the sink write succeeds, whether or not it was queued; the queue never exceeds 300; the loop goes on unless the sink refused |
| Dispatch.DispatchAll | main.go:266-306 | the part loop never shrinks the queue, never takes it past 300, and adds at most one payload per part to the sink |
| Dispatch.Admit | main.go:278-305 | one part-loop iteration changes the queue and the sink as AdmitStep says, and goes on unless the sink write failed |
| Dispatch.HandleStream | main.go:266-309 | the part loop followed by close(archiveCh) leaves the hand-off closed, and the queue and sink as DispatchAll says |
| Dispatch.ArchiverTurn | main.go:368-373 | a running writer takes the oldest buffered frame and handles it, returns once the hand-off is closed and drained, and otherwise waits; a writer that has returned takes nothing |
| Dispatch.FirstSinkFailure | main.go:300-305 | the index of the first part with a header and a readable payload whose sink write fails; no earlier part's sink write fails |
| Dispatch.DispatchClosedForm | main.go:266-309 | the queue gains the frames of the parts with a header and a readable payload, up to and including the first failed sink write, in order, and keeps only as many as fit in 300. The sink gains those parts' payloads before that failure. Other parts reach neither |
| Dispatch.NonNumericTimestampIsIgnoredOnlyByTheWriter | main.go:278-297 | a part whose header is present but not a number is queued when there is room and written to the sink; the archive writer then handles it without changing anything (main.go:375-379) |
| JpegSplit.IndexOfEoi | client/main.go:30 | bytes.Index for FF D9: the position of the first marker, or -1 when there is none |
| JpegSplit.ScanJpeg | client/main.go:24-42 | bufio.SplitFunc's contract: no error, an advance within the input, and a token, when there is one, as long as the advance; without a token nothing is consumed |
| JpegSplit.ScanJpegContract | client/main.go:24-42 | the error is always nil and the advance is between 0 and the length. EOF with no data gives (0, nil, nil). With a marker, the token is the data up to and including the first marker, and the advance is its length. Without one, EOF gives all the data and otherwise (0, nil, nil) asks for more |
| JpegSplit.MarkerTokenEndsAtFirstEoi | client/main.go:29-34 | a token cut at a marker ends with FF D9, has the advance as its length, and holds no earlier FF D9 |
| JpegSplit.TokenIsStableUnderMoreData | client/main.go:30-34 | once a prefix yields a token before EOF, any longer input yields the same token and advance, so chunked reading splits as the whole stream does |
| JpegSplit.TokenizeShape | client/main.go:133-140 | the scanner loop over a whole stream yields no token for no data, the whole data as one token when it holds no FF D9, and otherwise the data up to and including the first FF D9 followed by the tokens of the rest |
| JpegSplit.TokenizeRoundTrip | client/main.go:133-140 | the tokens the scanner yields over a whole stream, concatenated, are the stream |
| JpegSplit.TokensAreFrames | client/main.go:133-140 | every token but the last ends with FF D9 and holds no earlier FF D9 |

## Left out

- HTTP routing, gin handlers, status codes, JSON bodies and logging (main.go:32-52, 54-71, 101-111, 167-176) are not modelled. Retrieval returns `NotFound`, `Found(frame)` or `Failure`.
- Parsing the request's target timestamp (main.go:58-62) is not modelled: the target arrives as an int64. The directory read (main.go:66-71) is not modelled either: the listing arrives as a sequence of (name, is-directory) items.
- File-system effects are not modelled: `RemoveAll`, `MkdirAll`, `Create`, `Open` and `filepath.Join`. os.Open is a parameter that either yields the records the tar reader returns or fails. os.Create is an oracle flag. A segment is identified by its file name without the directory.
- The tar encoding is not modelled. A segment is a sequence of (name, type flag, payload) entries, and the header's mode, size and ModTime (main.go:392-397) are left out. An entry written with a zero type flag is recorded as a regular file, which is how the tar writer stores a name without a trailing '/'.
- Archive.FrameErrorsSkipOnlyThatFrame: in the program, once the tar writer's WriteHeader or Write has failed, the error sticks, and every later write to that segment fails until the next rotation opens a new file. The model draws each frame's write outcome from its own flags, so it does not capture that later frames of the same segment are lost too.
- Readback.ReadBack: the tar writer followed by the tar reader is assumed, not proved. For a closed segment, tar.Reader is taken to return each written entry's name, type flag and whole payload, in order, with no read error. `Readback.SegmentReadsChronologically` and `Readback.InOrderRunScansLikeFullPass` depend on that assumption.
- Reading a tar segment is reduced to what the scan loop sees: a header, or a header read error, followed by whether copying the payload succeeded. Failures while discarding a payload are only logged, so they are not modelled. The tar reader's errors stick: after a failed payload copy (main.go:144-146) or a failed discard (main.go:135, 154), the next `Next` returns that same error and the request fails. In any sequence the library can produce, an entry whose payload copy failed is therefore followed by a header read error. The model accepts every sequence, including usable entries after such an entry; its lemmas hold for all of them. When WriteHeader succeeds and Write then fails (main.go:392-405), the program leaves a header with a short payload in the segment, so a later read of that segment fails at that entry; the model records no entry for that frame, so its reads of that segment carry on past it.
- Multipart parsing (main.go:258-276) is not modelled. The parts arrive as a sequence, and a NextPart error counts as the end of that sequence.
- ffmpeg is not modelled. Both the server-side transcoder process (main.go:213-255, 311-315) and the client's use of it (client/main.go:64-94) are left out. The live sink is an abstract sink that records accepted payloads and can refuse one.
- Goroutines, blocking and context cancellation are not modelled. The writer sees an explicit sequence of frame, close and cancel events. `HandleStream` runs the part loop without interleaving the archiver, and `ArchiverTurn` is one receive of the archiver, which can be interleaved with it by hand.
- Everything in client/main.go except `scanJPEG` and the scanner's splitting is not modelled. The scanner's buffer limit (client/main.go:136) is not modelled: a frame larger than 4 MiB would stop the real scanner.
- Strings are sequences of characters, not bytes. Stream names and header values are therefore compared character by character.
- Types.Sub64NonNegative: a helper fact about the wrapping subtraction. The wrap itself is kept in the rotation test rather than assumed away.
- Archive.EntriesLieInTheirWindow: the bound is stated only for non-negative timestamps. With wrap-around, a frame stamped far below its segment's start also stays in that segment, because the wrapped difference is below 60000.
- JpegSplit.ScanJpeg: the function's own contract gives the token's length only. That the token is exactly the consumed bytes is stated by JpegSplit.ScanJpegContract, so proofs that unfold Tokenize do not carry the slice equation.
- Dispatch.DispatchAll: the function's own contract bounds lengths only. What the queue and the sink hold, in order, is stated by Dispatch.DispatchClosedForm.
- Archive.FaultFreeRunKeepsEveryFrameOnDisk: proved only for runs whose parsed timestamps are all non-negative. Negative timestamps can repeat a start (a second -1, or a wrapped cycle of starts), and os.Create then truncates the earlier file (see Findings).
- Archive.SegmentStartsIncrease: stated for non-negative starts. For negative starts near the int64 limits, the wrapped difference makes the order undefined.

## Findings

| source | as written | input that shows it | evidently intended | confidence | as-written member | corrected member |
|---|---|---|---|---|---|---|
| main.go:328-390 | "no segment yet" is the timestamp -1, and os.Create truncates an existing file, so a start that repeats re-creates and empties an earlier segment | two frames both named "-1.jpg": the second is due a rotation, re-creates `<stream>_-1.tar` and erases the first frame | every delivered frame stays on disk; no segment file is created twice. This holds for non-negative timestamps | not executed; needs a client timestamp of -1, or timestamps near the int64 limits | Archive.RepeatedStartTruncates | Archive.FaultFreeRunKeepsEveryFrameOnDisk |
