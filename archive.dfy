/** The archive writer (archiveWriter, main.go:321-411): the single consumer of the hand-off, which
    appends each frame to the open tar segment and starts a new segment once the rotation window
    has elapsed since the current segment's start. */
module Archive {
  import opened Types
  import opened Naming
  import Strconv

  const RotationWindowMs: int := 60000

  /** The initial value of currentTarStartMs, meaning "no segment started yet". */
  const NoSegmentMs: int64 := -1

  /** archiveFrame: the entry name ("<client timestamp>.jpg") and the payload. */
  datatype Frame = Frame(name: string, data: bytes)

  /** A tar entry as the writer stores it; the header's mode, size and ModTime are left out. */
  datatype TarEntry = TarEntry(name: string, typeflag: char, data: bytes)

  /** One tar file: the start it is named after and its entries in the order written. */
  datatype Segment = Segment(startMs: int64, entries: seq<TarEntry>)

  /** What the file system does with one frame: whether os.Create of a new segment succeeds and
      whether tarWriter.WriteHeader and tarWriter.Write succeed. */
  datatype Faults = Faults(createOk: bool, headerOk: bool, dataOk: bool)

  /** The writer's state: currentTarStartMs, whether a tar file is open (tarFile and tarWriter
      non-nil), whether the receive loop is still running, the segments created, and the indices of
      the segments closed, in closing order. */
  datatype Writer = Writer(
    currentTarStartMs: int64,
    tarOpen: bool,
    running: bool,
    segments: seq<Segment>,
    closeLog: seq<int>)

  /** What the receive loop can observe: a frame, the hand-off closed, or the request cancelled. */
  datatype Event = Deliver(frame: Frame, faults: Faults) | ChannelClosed | Cancelled

  function Initial(): Writer {
    Writer(NoSegmentMs, false, true, [], [])
  }

  /** The rotation test of main.go:384, with Go's wrapping int64 subtraction: always due while the
      sentinel is current; between non-negative values, due exactly when the window has elapsed. */
  function RotationDue(currentTarStartMs: int64, t: int64): (due: bool)
    ensures currentTarStartMs == NoSegmentMs ==> due
    ensures 0 <= currentTarStartMs && 0 <= t ==> (due <==> t >= currentTarStartMs + RotationWindowMs)
  {
    currentTarStartMs == NoSegmentMs || Sub64(t, currentTarStartMs) >= RotationWindowMs
  }

  /** A frame stamped `t` belongs in the segment started at `startMs`: it opened it, or it came
      while the segment was current and did not trigger a rotation. */
  predicate InWindow(startMs: int64, t: int64) {
    t == startMs || !RotationDue(startMs, t)
  }

  predicate EntryFits(startMs: int64, e: TarEntry) {
    e.typeflag == TypeReg && FrameTimestamp(e.name).Some? && InWindow(startMs, FrameTimestamp(e.name).value)
  }

  predicate SegmentWellFormed(seg: Segment) {
    forall i :: 0 <= i < |seg.entries| ==> EntryFits(seg.startMs, seg.entries[i])
  }

  /** The segment indices 0, 1, ..., n - 1. */
  function Indices(n: nat): seq<int> {
    seq(n, i => i)
  }

  /** The writer's invariant: currentTarStartMs is the sentinel until a segment exists and the
      latest segment's start after; a tar file is open exactly while the loop runs and a segment
      exists; every segment but the open one has been closed once, in order; each segment was
      started by a frame that was due a rotation; every entry is a regular file whose name parses
      to a timestamp within its segment's window. */
  predicate Valid(w: Writer) {
    && (w.segments == [] ==> w.currentTarStartMs == NoSegmentMs)
    && (w.segments != [] ==> w.currentTarStartMs == w.segments[|w.segments| - 1].startMs)
    && (w.tarOpen <==> w.running && w.segments != [])
    && w.closeLog == Indices(|w.segments| - if w.tarOpen then 1 else 0)
    && (forall k :: 0 < k < |w.segments| ==> RotationDue(w.segments[k - 1].startMs, w.segments[k].startMs))
    && (forall k :: 0 <= k < |w.segments| ==> SegmentWellFormed(w.segments[k]))
  }

  /** Closes the open tar file, if any (tarWriter.Close and tarFile.Close). */
  function CloseOpen(w: Writer): Writer {
    if w.tarOpen then w.(tarOpen := false, closeLog := w.closeLog + [|w.segments| - 1]) else w
  }

  /** The newTarFile closure (main.go:342-365): close the open file, then create the segment named
      after `startMs`; on failure nothing is open and currentTarStartMs keeps its value. What this
      does to the files on disk is CreateTruncatesSameStart. */
  function Opened(w: Writer, startMs: int64, createOk: bool): (r: Writer)
    ensures r.tarOpen == createOk && r.running == w.running
    ensures r.closeLog == w.closeLog + (if w.tarOpen then [|w.segments| - 1] else [])
    ensures !createOk ==> r.segments == w.segments && r.currentTarStartMs == w.currentTarStartMs
    ensures createOk ==> r.currentTarStartMs == startMs && r.segments == w.segments + [Segment(startMs, [])]
  {
    var closed := CloseOpen(w);
    if createOk then
      closed.(tarOpen := true, currentTarStartMs := startMs, segments := closed.segments + [Segment(startMs, [])])
    else closed
  }

  /** The segments of `segments` not started at `startMs`, in order. */
  function Without(segments: seq<Segment>, startMs: int64): seq<Segment> {
    if segments == [] then []
    else
      var n := |segments| - 1;
      Without(segments[..n], startMs) + (if segments[n].startMs == startMs then [] else [segments[n]])
  }

  lemma {:induction false} WithoutMembers(segments: seq<Segment>, startMs: int64)
    ensures forall x :: x in Without(segments, startMs) <==> x in segments && x.startMs != startMs
    decreases |segments|
  {
    if segments != [] {
      var n := |segments| - 1;
      assert segments == segments[..n] + [segments[n]];
      WithoutMembers(segments[..n], startMs);
    }
  }

  /** The tar files left on disk by a sequence of segment creations, each holding what was written
      to it: os.Create truncates an existing file, so a segment is replaced by any later segment
      with the same start, which bears the same file name. */
  function OnDisk(segments: seq<Segment>): (files: seq<Segment>)
    ensures DistinctStarts(files)
    ensures forall x :: x in files ==> x in segments
  {
    if segments == [] then []
    else
      var n := |segments| - 1;
      var kept := OnDisk(segments[..n]);
      WithoutKeepsDistinct(kept, segments[n].startMs);
      WithoutMembers(kept, segments[n].startMs);
      DistinctAppend(Without(kept, segments[n].startMs), segments[n]);
      assert forall x :: x in segments[..n] ==> x in segments;
      Without(kept, segments[n].startMs) + [segments[n]]
  }

  lemma OnDiskAppend(segments: seq<Segment>, seg: Segment)
    ensures OnDisk(segments + [seg]) == Without(OnDisk(segments), seg.startMs) + [seg]
  {
    assert (segments + [seg])[..|segments|] == segments;
  }

  /** A successful os.Create truncates the file of that name (main.go:352-355): on disk the only
      segment started at `startMs` is the new, empty one, and every other file is left as it was. */
  lemma CreateTruncatesSameStart(w: Writer, startMs: int64)
    ensures var r := Opened(w, startMs, true);
      && Segment(startMs, []) in OnDisk(r.segments)
      && (forall x :: x in OnDisk(r.segments) && x.startMs == startMs ==> x == Segment(startMs, []))
      && (forall x :: x in OnDisk(w.segments) && x.startMs != startMs ==> x in OnDisk(r.segments))
  {
    OnDiskAppend(w.segments, Segment(startMs, []));
    WithoutMembers(OnDisk(w.segments), startMs);
  }

  /** No two segments share a start, hence a file name. */
  predicate DistinctStarts(segments: seq<Segment>) {
    forall i, j :: 0 <= i < j < |segments| ==> segments[i].startMs != segments[j].startMs
  }

  /** Appends an entry to the latest segment. */
  function AppendEntry(w: Writer, e: TarEntry): Writer
    requires w.segments != []
  {
    var n := |w.segments| - 1;
    w.(segments := w.segments[..n] + [Segment(w.segments[n].startMs, w.segments[n].entries + [e])])
  }

  /** The entry a frame becomes; archive/tar records a header with a zero type flag and a name not
      ending in '/' as a regular file. */
  function EntryOf(frame: Frame): TarEntry {
    TarEntry(frame.name, TypeReg, frame.data)
  }

  /** Writing the header and payload (main.go:392-405): either failure skips the frame. */
  function Written(w: Writer, frame: Frame, faults: Faults): Writer
    requires w.segments != []
  {
    if faults.headerOk && faults.dataOk then AppendEntry(w, EntryOf(frame)) else w
  }

  /** One frame received from the hand-off (main.go:369-405). */
  function Received(w: Writer, frame: Frame, faults: Faults): (r: Writer)
    requires Valid(w)
    ensures Valid(r)
  {
    if !w.running then w
    else match FrameTimestamp(frame.name)
      case None => w
      case Some(t) =>
        if RotationDue(w.currentTarStartMs, t) then
          OpenedKeepsValid(w, t);
          var created := Opened(w, t, faults.createOk);
          if !created.tarOpen then created.(running := false)
          else
            WrittenKeepsValid(created, frame, faults, t);
            Written(created, frame, faults)
        else
          WrittenKeepsValid(w, frame, faults, t);
          Written(w, frame, faults)
  }

  /** A rotation keeps the invariant, whether the new file is created or not (in which case the
      loop returns). */
  lemma OpenedKeepsValid(w: Writer, t: int64)
    requires Valid(w) && w.running && RotationDue(w.currentTarStartMs, t)
    ensures Valid(Opened(w, t, true))
    ensures Valid(Opened(w, t, false).(running := false))
  {
    var closed := CloseOpen(w);
    assert closed.closeLog == Indices(|w.segments|);
    var ok := Opened(w, t, true);
    assert ok.closeLog == Indices(|ok.segments| - 1);
    forall k | 0 < k < |ok.segments|
      ensures RotationDue(ok.segments[k - 1].startMs, ok.segments[k].startMs)
    {
      if k < |w.segments| {
        assert ok.segments[k - 1] == w.segments[k - 1] && ok.segments[k] == w.segments[k];
      }
    }
    forall k | 0 <= k < |ok.segments| ensures SegmentWellFormed(ok.segments[k]) {
      if k < |w.segments| {
        assert ok.segments[k] == w.segments[k];
      }
    }
  }

  /** Writing a frame whose timestamp lies in the open segment's window keeps the invariant. */
  lemma WrittenKeepsValid(w: Writer, frame: Frame, faults: Faults, t: int64)
    requires Valid(w) && w.tarOpen
    requires FrameTimestamp(frame.name) == Some(t)
    requires InWindow(w.segments[|w.segments| - 1].startMs, t)
    ensures Valid(Written(w, frame, faults))
  {
    if faults.headerOk && faults.dataOk {
      AppendEntryKeepsValid(w, EntryOf(frame));
    }
  }

  lemma AppendEntryKeepsValid(w: Writer, e: TarEntry)
    requires Valid(w) && w.tarOpen
    requires EntryFits(w.segments[|w.segments| - 1].startMs, e)
    ensures Valid(AppendEntry(w, e))
  {
    var n := |w.segments| - 1;
    var r := AppendEntry(w, e);
    var last := w.segments[n];
    var grown := Segment(last.startMs, last.entries + [e]);
    assert r.segments == w.segments[..n] + [grown];
    assert SegmentWellFormed(grown) by {
      forall i | 0 <= i < |grown.entries| ensures EntryFits(last.startMs, grown.entries[i]) {
        if i < |last.entries| {
          assert grown.entries[i] == last.entries[i];
        }
      }
    }
    forall k | 0 <= k <= n
      ensures r.segments[k].startMs == w.segments[k].startMs
      ensures SegmentWellFormed(r.segments[k])
    {
      if k < n {
        assert r.segments[k] == w.segments[k];
      }
    }
  }

  /** The loop returns (hand-off closed, cancellation) and the deferred function closes what is
      open (main.go:331-339, 370-372, 406-408); a writer that has returned stays as it is. */
  function Stopped(w: Writer): (r: Writer)
    requires Valid(w)
    ensures Valid(r)
  {
    if !w.running then w else CloseOpen(w).(running := false)
  }

  function Step(w: Writer, e: Event): (r: Writer)
    requires Valid(w)
    ensures Valid(r)
  {
    match e
    case Deliver(frame, faults) => Received(w, frame, faults)
    case ChannelClosed => Stopped(w)
    case Cancelled => Stopped(w)
  }

  /** The writer after a sequence of events. */
  function AfterEvents(w: Writer, events: seq<Event>): (r: Writer)
    requires Valid(w)
    ensures Valid(r)
    decreases |events|
  {
    if events == [] then w else AfterEvents(Step(w, events[0]), events[1..])
  }

  /** The writer as the goroutine's local state; its methods are the loop's steps. */
  class ArchiveWriter {
    const streamName: string
    var currentTarStartMs: int64
    var tarOpen: bool
    var running: bool
    var segments: seq<Segment>
    var closeLog: seq<int>

    function State(): Writer
      reads this
    {
      Writer(currentTarStartMs, tarOpen, running, segments, closeLog)
    }

    constructor (streamName: string)
      ensures this.streamName == streamName
      ensures State() == Initial()
    {
      this.streamName := streamName;
      currentTarStartMs := NoSegmentMs;
      tarOpen := false;
      running := true;
      segments := [];
      closeLog := [];
    }

    /** The newTarFile closure; `fileName` is the name it creates, which the image endpoint parses
        back to this start. */
    method NewTarFile(startMs: int64, createOk: bool) returns (fileName: string)
      modifies this
      ensures fileName == SegmentFileName(streamName, startMs)
      ensures SegmentStart(fileName) == Some(startMs)
      ensures State() == Opened(old(State()), startMs, createOk)
    {
      if tarOpen {
        closeLog := closeLog + [|segments| - 1];
        tarOpen := false;
      }
      if createOk {
        segments := segments + [Segment(startMs, [])];
        tarOpen := true;
        currentTarStartMs := startMs;
      }
      assert State() == Opened(old(State()), startMs, createOk);
      fileName := SegmentFileName(streamName, startMs);
      assert SegmentStart(fileName) == Some(startMs) by {
        SegmentNameRoundTrip(streamName, startMs);
      }
    }

    /** One iteration of the receive loop on a frame. */
    method Receive(frame: Frame, faults: Faults)
      requires Valid(State())
      modifies this
      ensures State() == Received(old(State()), frame, faults)
    {
      if !running {
        return;
      }
      var frameTimestampMs := FrameTimestamp(frame.name);
      if frameTimestampMs.None? {
        return;
      }
      var t := frameTimestampMs.value;
      ghost var before := State();
      if RotationDue(currentTarStartMs, t) {
        var _ := NewTarFile(t, faults.createOk);
        if !tarOpen {
          running := false;
          return;
        }
        OpenedKeepsValid(before, t);
        assert State() == Opened(before, t, true);
      }
      ghost var base := State();
      assert Valid(base) && base.tarOpen;
      assert Received(before, frame, faults) == Written(base, frame, faults);
      if !faults.headerOk || !faults.dataOk {
        return;
      }
      var n := |segments| - 1;
      segments := segments[..n] + [Segment(segments[n].startMs, segments[n].entries + [EntryOf(frame)])];
    }

    /** The loop's return on a closed hand-off, followed by the deferred close. */
    method Close()
      requires Valid(State())
      modifies this
      ensures State() == Stopped(old(State()))
    {
      if !running {
        return;
      }
      if tarOpen {
        closeLog := closeLog + [|segments| - 1];
        tarOpen := false;
      }
      running := false;
    }

    /** The loop's return on cancellation, followed by the deferred close. */
    method Cancel()
      requires Valid(State())
      modifies this
      ensures State() == Stopped(old(State()))
    {
      Close();
    }

    /** The receive loop itself: it handles events until it returns. */
    method Run(events: seq<Event>)
      requires Valid(State())
      modifies this
      ensures State() == AfterEvents(old(State()), events)
    {
      var i := 0;
      while i < |events| && running
        invariant 0 <= i <= |events|
        invariant Valid(State())
        invariant AfterEvents(old(State()), events) == AfterEvents(State(), events[i..])
        decreases |events| - i
      {
        assert events[i..][1..] == events[i + 1..];
        match events[i] {
          case Deliver(frame, faults) => Receive(frame, faults);
          case ChannelClosed => Close();
          case Cancelled => Cancel();
        }
        i := i + 1;
      }
      StoppedWriterIgnoresEvents(State(), events[i..]);
    }
  }

  // -----------------------------------------------------------------------------------------------
  // Properties of the writer

  /** Once the loop has returned, nothing changes the writer any more. */
  lemma {:induction false} StoppedWriterIgnoresEvents(w: Writer, events: seq<Event>)
    requires Valid(w) && (!w.running || events == [])
    ensures AfterEvents(w, events) == w
    decreases |events|
  {
    if events != [] {
      StoppedWriterIgnoresEvents(Step(w, events[0]), events[1..]);
    }
  }

  /** Rotation (main.go:384-390): a frame whose name parses opens a new segment exactly when no
      segment has been started (currentTarStartMs still holds the sentinel, which a segment started
      at -1 also leaves there) or the window has elapsed since the latest start, and the file can
      be created. The new segment and currentTarStartMs then take the frame's timestamp and the
      earlier segments are kept; otherwise currentTarStartMs stays, also for a frame older than
      the segment's start. */
  lemma RotationRule(w: Writer, frame: Frame, faults: Faults, t: int64)
    requires Valid(w) && w.running && FrameTimestamp(frame.name) == Some(t)
    ensures var r := Received(w, frame, faults);
      var n := |w.segments|;
      && (|r.segments| == n + 1 <==>
            (n == 0 || w.segments[n - 1].startMs == NoSegmentMs ||
             Sub64(t, w.segments[n - 1].startMs) >= RotationWindowMs) && faults.createOk)
      && (|r.segments| == n + 1 ==>
            r.currentTarStartMs == t && r.segments[n].startMs == t && r.segments[..n] == w.segments)
      && (|r.segments| != n + 1 ==> |r.segments| == n && r.currentTarStartMs == w.currentTarStartMs)
  {
    var r := Received(w, frame, faults);
    var n := |w.segments|;
    if RotationDue(w.currentTarStartMs, t) && faults.createOk {
      assert r.segments[..n] == w.segments;
    }
  }

  /** A segment that cannot be created ends archiving (main.go:354-361, 386-389): nothing is open,
      currentTarStartMs and the segments are unchanged, every segment has been closed once, and no
      later event writes anything. */
  lemma CreateFailureHalts(w: Writer, frame: Frame, faults: Faults, t: int64, later: seq<Event>)
    requires Valid(w) && w.running && FrameTimestamp(frame.name) == Some(t)
    requires RotationDue(w.currentTarStartMs, t) && !faults.createOk
    ensures var r := Received(w, frame, faults);
      && !r.running && !r.tarOpen
      && r.currentTarStartMs == w.currentTarStartMs
      && r.segments == w.segments
      && r.closeLog == Indices(|w.segments|)
      && AfterEvents(r, later) == r
  {
    StoppedWriterIgnoresEvents(Received(w, frame, faults), later);
  }

  /** Frame-level errors cost only that frame: a name that does not parse changes nothing
      (main.go:375-379); a failed header or payload write (main.go:398-405) leaves the writer
      running and exactly as the successful write would, without the frame's entry. */
  lemma FrameErrorsSkipOnlyThatFrame(w: Writer, frame: Frame, faults: Faults)
    requires Valid(w)
    ensures FrameTimestamp(frame.name).None? ==> Received(w, frame, faults) == w
    ensures w.running && FrameTimestamp(frame.name).Some? && !(faults.headerOk && faults.dataOk) &&
            (faults.createOk || !RotationDue(w.currentTarStartMs, FrameTimestamp(frame.name).value)) ==>
              var r := Received(w, frame, faults);
              r.running && r.tarOpen &&
              Received(w, frame, Faults(faults.createOk, true, true)) == AppendEntry(r, EntryOf(frame))
  {
  }

  /** Shutting down (hand-off closed or cancelled) leaves nothing open and every segment closed
      exactly once, in creation order; shutting down again changes nothing. */
  /** The writer's select (main.go:367-409): a stopped writer ignores every event; a closed hand-off
      or a cancellation shuts the writer down, keeping every segment and closing each once; a frame
      keeps every earlier segment's start and adds at most one segment, at the frame's timestamp. */
  lemma StepByEvent(w: Writer, e: Event)
    requires Valid(w)
    ensures var r := Step(w, e);
      && (!w.running ==> r == w)
      && (!e.Deliver? ==> !r.running && !r.tarOpen && r.segments == w.segments && r.closeLog == Indices(|w.segments|))
      && (e.Deliver? ==>
            && |w.segments| <= |r.segments| <= |w.segments| + 1
            && (forall k :: 0 <= k < |w.segments| ==> r.segments[k].startMs == w.segments[k].startMs)
            && (|r.segments| > |w.segments| ==> r.segments[|w.segments|].startMs == FrameTimestamp(e.frame.name).value))
  {
    if e.Deliver? {
      ReceivedStarts(w, e.frame, e.faults);
    } else {
      ShutdownClosesEachSegmentOnce(w);
    }
  }

  lemma ShutdownClosesEachSegmentOnce(w: Writer)
    requires Valid(w)
    ensures var r := Stopped(w);
      && !r.running && !r.tarOpen
      && r.segments == w.segments
      && r.closeLog == Indices(|w.segments|)
      && Stopped(r) == r
  {
    if w.tarOpen {
      assert Indices(|w.segments| - 1) + [|w.segments| - 1] == Indices(|w.segments|);
    }
  }

  lemma {:induction false} AfterEventsAppend(w: Writer, events: seq<Event>, e: Event)
    requires Valid(w)
    ensures AfterEvents(w, events + [e]) == Step(AfterEvents(w, events), e)
    decreases |events|
  {
    if events != [] {
      assert (events + [e])[1..] == events[1..] + [e];
      AfterEventsAppend(Step(w, events[0]), events[1..], e);
    }
  }

  /** Whatever came before, a writer that ends because the hand-off closed or the request was
      cancelled has closed each of its segments exactly once. */
  lemma EverySegmentClosedOnceOnExit(events: seq<Event>, exit: Event)
    requires exit.ChannelClosed? || exit.Cancelled?
    ensures var r := AfterEvents(Initial(), events + [exit]);
      !r.running && !r.tarOpen && r.closeLog == Indices(|r.segments|)
  {
    AfterEventsAppend(Initial(), events, exit);
    ShutdownClosesEachSegmentOnce(AfterEvents(Initial(), events));
  }

  /** With non-negative timestamps (no wrap-around), an entry lies within the rotation window of
      the segment that holds it. */
  lemma EntriesLieInTheirWindow(w: Writer, k: int, i: int)
    requires Valid(w) && 0 <= k < |w.segments| && 0 <= i < |w.segments[k].entries|
    ensures var s := w.segments[k].startMs;
      var t := FrameTimestamp(w.segments[k].entries[i].name);
      t.Some? && (0 <= s && 0 <= t.value ==> t.value < s + RotationWindowMs)
  {
    assert SegmentWellFormed(w.segments[k]);
    assert EntryFits(w.segments[k].startMs, w.segments[k].entries[i]);
  }

  /** With non-negative starts, each segment starts at least a window after the previous one, so
      starts strictly increase in creation order. */
  lemma SegmentStartsIncrease(w: Writer, k: int)
    requires Valid(w) && 0 < k < |w.segments|
    requires 0 <= w.segments[k - 1].startMs && 0 <= w.segments[k].startMs
    ensures w.segments[k].startMs >= w.segments[k - 1].startMs + RotationWindowMs
  {
    assert RotationDue(w.segments[k - 1].startMs, w.segments[k].startMs);
  }

  /** All entries of a sequence of segments, in order. */
  function Flatten(segments: seq<Segment>): seq<TarEntry> {
    if segments == [] then [] else Flatten(segments[..|segments| - 1]) + segments[|segments| - 1].entries
  }

  /** Each frame delivered with every file-system call succeeding. */
  function Deliveries(frames: seq<Frame>): seq<Event> {
    seq(|frames|, i requires 0 <= i < |frames| => Deliver(frames[i], Faults(true, true, true)))
  }

  /** The entries a frame should add: its own entry when its name parses, none otherwise. */
  function Kept(frame: Frame): seq<TarEntry> {
    if FrameTimestamp(frame.name).Some? then [EntryOf(frame)] else []
  }

  /** The entries the archive should hold for `frames`: one per frame whose name parses, in order. */
  function Archived(frames: seq<Frame>): seq<TarEntry> {
    if frames == [] then [] else Kept(frames[0]) + Archived(frames[1..])
  }

  lemma FlattenAppendSegment(segments: seq<Segment>, seg: Segment)
    ensures Flatten(segments + [seg]) == Flatten(segments) + seg.entries
  {
    assert (segments + [seg])[..|segments|] == segments;
  }

  lemma FlattenAppendEntry(w: Writer, e: TarEntry)
    requires w.segments != []
    ensures Flatten(AppendEntry(w, e).segments) == Flatten(w.segments) + [e]
  {
    var n := |w.segments| - 1;
    var last := w.segments[n];
    assert w.segments == w.segments[..n] + [last];
    FlattenAppendSegment(w.segments[..n], last);
    FlattenAppendSegment(w.segments[..n], Segment(last.startMs, last.entries + [e]));
  }

  /** WriteHeader then Write (main.go:392-405): when both succeed the frame's entry is added after
      everything already archived, otherwise nothing is; the segments, their starts and the rest of
      the writer are unchanged. */
  lemma WrittenAddsOnlyThatEntry(w: Writer, frame: Frame, faults: Faults)
    requires w.segments != []
    ensures var r := Written(w, frame, faults);
      && r.(segments := w.segments) == w
      && |r.segments| == |w.segments|
      && (forall k :: 0 <= k < |w.segments| ==> r.segments[k].startMs == w.segments[k].startMs)
      && Flatten(r.segments) == Flatten(w.segments) + (if faults.headerOk && faults.dataOk then [EntryOf(frame)] else [])
  {
    if faults.headerOk && faults.dataOk {
      FlattenAppendEntry(w, EntryOf(frame));
      var n := |w.segments| - 1;
      var r := AppendEntry(w, EntryOf(frame)).segments;
      assert forall k :: 0 <= k < n ==> r[k] == w.segments[k];
    }
  }

  lemma ReceivedAppendsEntry(w: Writer, frame: Frame)
    requires Valid(w) && w.running
    ensures var r := Received(w, frame, Faults(true, true, true));
      r.running && Flatten(r.segments) == Flatten(w.segments) + Kept(frame)
  {
    var r := Received(w, frame, Faults(true, true, true));
    if FrameTimestamp(frame.name).Some? {
      var t := FrameTimestamp(frame.name).value;
      var e := EntryOf(frame);
      assert Kept(frame) == [e];
      if RotationDue(w.currentTarStartMs, t) {
        var base := Opened(w, t, true);
        assert r == AppendEntry(base, e) && base.segments == w.segments + [Segment(t, [])];
        assert Flatten(base.segments) == Flatten(w.segments) by {
          FlattenAppendSegment(w.segments, Segment(t, []));
        }
        assert Flatten(r.segments) == Flatten(base.segments) + [e] by {
          FlattenAppendEntry(base, e);
        }
      } else {
        assert r == AppendEntry(w, e);
        FlattenAppendEntry(w, e);
      }
    } else {
      assert r == w && Kept(frame) == [];
    }
  }

  lemma AfterDeliveriesStep(w: Writer, frames: seq<Frame>)
    requires Valid(w) && frames != []
    ensures AfterEvents(w, Deliveries(frames)) ==
              AfterEvents(Received(w, frames[0], Faults(true, true, true)), Deliveries(frames[1..]))
  {
    var events := Deliveries(frames);
    assert events[0] == Deliver(frames[0], Faults(true, true, true));
    assert events[1..] == Deliveries(frames[1..]);
  }

  lemma {:induction false} FaultFreeDeliveries(w: Writer, frames: seq<Frame>)
    requires Valid(w) && w.running
    ensures var r := AfterEvents(w, Deliveries(frames));
      r.running && Flatten(r.segments) == Flatten(w.segments) + Archived(frames)
    decreases |frames|
  {
    if frames == [] {
      assert Deliveries(frames) == [];
    } else {
      var next := Received(w, frames[0], Faults(true, true, true));
      ReceivedAppendsEntry(w, frames[0]);
      FaultFreeDeliveries(next, frames[1..]);
      AfterDeliveriesStep(w, frames);
      ArchivedStep(frames);
      AppendAssoc(Flatten(w.segments), Kept(frames[0]), Archived(frames[1..]));
    }
  }

  lemma ArchivedStep(frames: seq<Frame>)
    requires frames != []
    ensures Archived(frames) == Kept(frames[0]) + Archived(frames[1..])
  {
  }

  lemma AppendAssoc(a: seq<TarEntry>, b: seq<TarEntry>, c: seq<TarEntry>)
    ensures a + (b + c) == (a + b) + c
  {
  }

  /** When every file-system call succeeds, the archive holds exactly the delivered frames whose
      names parse, each under its own name with its own payload, in delivery order, and the writer
      is still running. */
  lemma FaultFreeRunArchivesEveryFrame(frames: seq<Frame>)
    ensures var r := AfterEvents(Initial(), Deliveries(frames));
      r.running && Flatten(r.segments) == Archived(frames)
  {
    assert Valid(Initial()) && Flatten(Initial().segments) == [];
    FaultFreeDeliveries(Initial(), frames);
  }

  // -----------------------------------------------------------------------------------------------
  // Files on disk

  lemma DistinctAppend(segments: seq<Segment>, seg: Segment)
    requires DistinctStarts(segments)
    requires forall x :: x in segments ==> x.startMs != seg.startMs
    ensures DistinctStarts(segments + [seg])
  {
    var all := segments + [seg];
    forall i, j | 0 <= i < j < |all| ensures all[i].startMs != all[j].startMs {
      if j == |segments| {
        assert all[i] in segments;
      } else {
        assert all[i] == segments[i] && all[j] == segments[j];
      }
    }
  }

  lemma {:induction false} WithoutKeepsDistinct(segments: seq<Segment>, startMs: int64)
    requires DistinctStarts(segments)
    ensures DistinctStarts(Without(segments, startMs))
    decreases |segments|
  {
    if segments != [] {
      var n := |segments| - 1;
      var init := segments[..n];
      assert DistinctStarts(init) by {
        forall i, j | 0 <= i < j < |init| ensures init[i].startMs != init[j].startMs {
          assert init[i] == segments[i] && init[j] == segments[j];
        }
      }
      WithoutKeepsDistinct(init, startMs);
      WithoutMembers(init, startMs);
      if segments[n].startMs != startMs {
        forall x | x in Without(init, startMs) ensures x.startMs != segments[n].startMs {
          var i :| 0 <= i < |init| && init[i] == x;
          assert segments[i] == x;
        }
        DistinctAppend(Without(init, startMs), segments[n]);
      }
    }
  }

  lemma {:induction false} WithoutAbsent(segments: seq<Segment>, startMs: int64)
    requires forall x :: x in segments ==> x.startMs != startMs
    ensures Without(segments, startMs) == segments
    decreases |segments|
  {
    if segments != [] {
      var n := |segments| - 1;
      assert segments == segments[..n] + [segments[n]];
      WithoutAbsent(segments[..n], startMs);
    }
  }

  /** The files on disk: one per start, each a segment that was created, and every segment that no
      later segment shares a start with is among them, with all that was written to it. */
  lemma {:induction false} OnDiskOneFilePerStart(segments: seq<Segment>)
    ensures DistinctStarts(OnDisk(segments))
    ensures forall x :: x in OnDisk(segments) ==> x in segments
    ensures forall k ::
              (0 <= k < |segments| && forall j :: k < j < |segments| ==> segments[j].startMs != segments[k].startMs) ==>
                segments[k] in OnDisk(segments)
    decreases |segments|
  {
    if segments != [] {
      var n := |segments| - 1;
      var init := segments[..n];
      assert segments == init + [segments[n]];
      OnDiskOneFilePerStart(init);
      WithoutKeepsDistinct(OnDisk(init), segments[n].startMs);
      WithoutMembers(OnDisk(init), segments[n].startMs);
      DistinctAppend(Without(OnDisk(init), segments[n].startMs), segments[n]);
      forall k | 0 <= k < n && (forall j :: k < j < |segments| ==> segments[j].startMs != segments[k].startMs)
        ensures segments[k] in OnDisk(segments)
      {
        assert init[k] == segments[k];
        assert forall j :: k < j < |init| ==> init[j].startMs != init[k].startMs;
      }
    }
  }

  /** When no two segments share a start, every segment survives on disk as written. */
  lemma {:induction false} DistinctStartsKeepEveryFile(segments: seq<Segment>)
    requires DistinctStarts(segments)
    ensures OnDisk(segments) == segments
    decreases |segments|
  {
    if segments != [] {
      var n := |segments| - 1;
      var init := segments[..n];
      assert DistinctStarts(init) by {
        forall i, j | 0 <= i < j < |init| ensures init[i].startMs != init[j].startMs {
          assert init[i] == segments[i] && init[j] == segments[j];
        }
      }
      DistinctStartsKeepEveryFile(init);
      assert Without(init, segments[n].startMs) == init by {
        forall x | x in init ensures x.startMs != segments[n].startMs {
          var i :| 0 <= i < |init| && init[i] == x;
          assert segments[i] == x;
        }
        WithoutAbsent(init, segments[n].startMs);
      }
      assert segments == init + [segments[n]];
      OnDiskAppend(init, segments[n]);
    }
  }

  /** As written, a frame stamped -1 leaves currentTarStartMs at the "no segment" sentinel, so the
      next frame re-creates `<stream>_-1.tar` and os.Create truncates it: of two frames named
      "-1.jpg" both are written, but only the second stays on disk. */
  lemma RepeatedStartTruncates(d1: bytes, d2: bytes)
    ensures var name := EntryName(Strconv.FormatInt(-1));
      var frames := [Frame(name, d1), Frame(name, d2)];
      var r := AfterEvents(Initial(), Deliveries(frames));
      && Archived(frames) == [EntryOf(frames[0]), EntryOf(frames[1])]
      && r.segments == [Segment(-1, [EntryOf(frames[0])]), Segment(-1, [EntryOf(frames[1])])]
      && OnDisk(r.segments) == [Segment(-1, [EntryOf(frames[1])])]
      && Flatten(OnDisk(r.segments)) == [EntryOf(frames[1])]
  {
    EntryTimestampRoundTrip(-1);
    SentinelStampedFrames(EntryName(Strconv.FormatInt(-1)), d1, d2);
  }

  lemma SentinelStampedFrames(name: string, d1: bytes, d2: bytes)
    requires FrameTimestamp(name) == Some(NoSegmentMs)
    ensures var frames := [Frame(name, d1), Frame(name, d2)];
      var r := AfterEvents(Initial(), Deliveries(frames));
      && Archived(frames) == [EntryOf(frames[0]), EntryOf(frames[1])]
      && r.segments == [Segment(-1, [EntryOf(frames[0])]), Segment(-1, [EntryOf(frames[1])])]
      && OnDisk(r.segments) == [Segment(-1, [EntryOf(frames[1])])]
      && Flatten(OnDisk(r.segments)) == [EntryOf(frames[1])]
  {
    var f1, f2 := Frame(name, d1), Frame(name, d2);
    var frames := [f1, f2];
    var s1, s2 := Segment(-1, [EntryOf(f1)]), Segment(-1, [EntryOf(f2)]);
    var r := AfterEvents(Initial(), Deliveries(frames));
    assert r.segments == [s1, s2] by {
      DeliveriesAtSentinel(f1, f2);
    }
    assert Archived(frames) == [EntryOf(f1), EntryOf(f2)] by {
      TwoFramesArchived(frames);
      assert Kept(f1) == [EntryOf(f1)] && Kept(f2) == [EntryOf(f2)];
    }
    assert OnDisk(r.segments) == [s2] && Flatten([s2]) == s2.entries by {
      TwoSameStartsOnDisk(s1, s2);
    }
  }

  lemma DeliveriesAtSentinel(f1: Frame, f2: Frame)
    requires FrameTimestamp(f1.name) == Some(NoSegmentMs) && FrameTimestamp(f2.name) == Some(NoSegmentMs)
    ensures AfterEvents(Initial(), Deliveries([f1, f2])).segments ==
              [Segment(NoSegmentMs, [EntryOf(f1)]), Segment(NoSegmentMs, [EntryOf(f2)])]
  {
    var ok := Faults(true, true, true);
    var w1 := Received(Initial(), f1, ok);
    FirstFrameAtSentinel(f1);
    NextFrameAtSentinel(w1, f2);
    TwoDeliveries(Initial(), [f1, f2]);
  }

  lemma FirstFrameAtSentinel(frame: Frame)
    requires FrameTimestamp(frame.name) == Some(NoSegmentMs)
    ensures var r := Received(Initial(), frame, Faults(true, true, true));
      r.running && r.currentTarStartMs == NoSegmentMs && r.segments == [Segment(NoSegmentMs, [EntryOf(frame)])]
  {
    var base := Opened(Initial(), NoSegmentMs, true);
    assert Received(Initial(), frame, Faults(true, true, true)) == AppendEntry(base, EntryOf(frame));
    assert [] + [EntryOf(frame)] == [EntryOf(frame)];
  }

  lemma NextFrameAtSentinel(w: Writer, frame: Frame)
    requires Valid(w) && w.running && w.currentTarStartMs == NoSegmentMs
    requires FrameTimestamp(frame.name) == Some(NoSegmentMs)
    ensures Received(w, frame, Faults(true, true, true)).segments == w.segments + [Segment(NoSegmentMs, [EntryOf(frame)])]
  {
    var base := Opened(w, NoSegmentMs, true);
    assert Received(w, frame, Faults(true, true, true)) == AppendEntry(base, EntryOf(frame));
    assert [] + [EntryOf(frame)] == [EntryOf(frame)];
    assert base.segments[..|w.segments|] == w.segments;
  }

  lemma TwoDeliveries(w: Writer, frames: seq<Frame>)
    requires Valid(w) && |frames| == 2
    ensures AfterEvents(w, Deliveries(frames)) ==
              Received(Received(w, frames[0], Faults(true, true, true)), frames[1], Faults(true, true, true))
  {
    AfterDeliveriesStep(w, frames);
    var w1 := Received(w, frames[0], Faults(true, true, true));
    AfterDeliveriesStep(w1, frames[1..]);
    assert frames[1..][0] == frames[1];
    assert Deliveries(frames[1..][1..]) == [];
  }

  lemma TwoFramesArchived(frames: seq<Frame>)
    requires |frames| == 2
    ensures Archived(frames) == Kept(frames[0]) + Kept(frames[1])
  {
    var rest := frames[1..];
    assert rest[0] == frames[1] && rest[1..] == [];
    assert Archived(rest) == Kept(rest[0]) + Archived(rest[1..]);
  }

  lemma TwoSameStartsOnDisk(first: Segment, second: Segment)
    requires first.startMs == second.startMs
    ensures OnDisk([first, second]) == [second]
    ensures Flatten([second]) == second.entries
  {
    OnDiskAppend([], first);
    OnDiskAppend([first], second);
    assert [first][..0] == [];
    assert Without([first], second.startMs) == [];
    assert [second][..0] == [];
  }

  predicate NonNegativeStarts(segments: seq<Segment>) {
    forall k :: 0 <= k < |segments| ==> 0 <= segments[k].startMs
  }

  /** Every frame whose name parses is stamped at or after 0. */
  predicate NonNegativeStamps(frames: seq<Frame>) {
    forall i :: 0 <= i < |frames| && FrameTimestamp(frames[i].name).Some? ==> 0 <= FrameTimestamp(frames[i].name).value
  }

  /** A frame keeps the earlier segments and their starts, and starts at most one segment, at its
      own timestamp. */
  lemma ReceivedStarts(w: Writer, frame: Frame, faults: Faults)
    requires Valid(w)
    ensures var r := Received(w, frame, faults).segments;
      && |w.segments| <= |r| <= |w.segments| + 1
      && (forall k :: 0 <= k < |w.segments| ==> r[k].startMs == w.segments[k].startMs)
      && (|r| > |w.segments| ==> FrameTimestamp(frame.name).Some? && r[|w.segments|].startMs == FrameTimestamp(frame.name).value)
  {
    if w.running && FrameTimestamp(frame.name).Some? {
      var t := FrameTimestamp(frame.name).value;
      if RotationDue(w.currentTarStartMs, t) {
        var base := Opened(w, t, faults.createOk);
        if base.tarOpen {
          WrittenStarts(base, frame, faults);
        }
      } else {
        WrittenStarts(w, frame, faults);
      }
    }
  }

  lemma WrittenStarts(w: Writer, frame: Frame, faults: Faults)
    requires w.segments != []
    ensures var r := Written(w, frame, faults).segments;
      |r| == |w.segments| && forall k :: 0 <= k < |r| ==> r[k].startMs == w.segments[k].startMs
  {
    if faults.headerOk && faults.dataOk {
      var n := |w.segments| - 1;
      var r := AppendEntry(w, EntryOf(frame)).segments;
      assert forall k :: 0 <= k < n ==> r[k] == w.segments[k];
    }
  }

  lemma {:induction false} DeliveriesKeepStartsNonNegative(w: Writer, frames: seq<Frame>)
    requires Valid(w) && NonNegativeStarts(w.segments) && NonNegativeStamps(frames)
    ensures NonNegativeStarts(AfterEvents(w, Deliveries(frames)).segments)
    decreases |frames|
  {
    if frames == [] {
      assert Deliveries(frames) == [];
    } else {
      var next := Received(w, frames[0], Faults(true, true, true));
      assert NonNegativeStarts(next.segments) by {
        ReceivedStarts(w, frames[0], Faults(true, true, true));
        assert FrameTimestamp(frames[0].name).Some? ==> 0 <= FrameTimestamp(frames[0].name).value;
      }
      assert NonNegativeStamps(frames[1..]) by {
        forall i | 0 <= i < |frames[1..]| && FrameTimestamp(frames[1..][i].name).Some?
          ensures 0 <= FrameTimestamp(frames[1..][i].name).value
        {
          assert frames[1..][i] == frames[i + 1];
        }
      }
      assert NonNegativeStarts(AfterEvents(next, Deliveries(frames[1..])).segments) by {
        DeliveriesKeepStartsNonNegative(next, frames[1..]);
      }
      AfterDeliveriesStep(w, frames);
    }
  }

  lemma {:induction false} StartsIncreaseBetween(w: Writer, i: int, j: int)
    requires Valid(w) && NonNegativeStarts(w.segments) && 0 <= i < j < |w.segments|
    ensures w.segments[i].startMs < w.segments[j].startMs
    decreases j - i
  {
    SegmentStartsIncrease(w, j);
    if i < j - 1 {
      StartsIncreaseBetween(w, i, j - 1);
    }
  }

  /** With non-negative starts no two segments share a start, so no rotation re-creates (and
      truncates) an earlier segment's file. */
  lemma NonNegativeStartsAreDistinct(w: Writer)
    requires Valid(w) && NonNegativeStarts(w.segments)
    ensures DistinctStarts(w.segments)
  {
    forall i, j | 0 <= i < j < |w.segments| ensures w.segments[i].startMs != w.segments[j].startMs {
      StartsIncreaseBetween(w, i, j);
    }
  }

  /** When every file-system call succeeds and no frame is stamped before 0, no segment file is
      re-created, and the files on disk hold exactly the delivered frames whose names parse, in
      delivery order. */
  lemma FaultFreeRunKeepsEveryFrameOnDisk(frames: seq<Frame>)
    requires NonNegativeStamps(frames)
    ensures var r := AfterEvents(Initial(), Deliveries(frames));
      && DistinctStarts(r.segments)
      && OnDisk(r.segments) == r.segments
      && Flatten(OnDisk(r.segments)) == Archived(frames)
  {
    var r := AfterEvents(Initial(), Deliveries(frames));
    FaultFreeRunArchivesEveryFrame(frames);
    DeliveriesKeepStartsNonNegative(Initial(), frames);
    NonNegativeStartsAreDistinct(r);
    DistinctStartsKeepEveryFile(r.segments);
  }

  // -----------------------------------------------------------------------------------------------
  // Frames delivered in timestamp order

  /** The frames whose names parse come in non-decreasing timestamp order. */
  predicate InOrderStamps(frames: seq<Frame>) {
    forall i, j :: 0 <= i < j < |frames| && FrameTimestamp(frames[i].name).Some? && FrameTimestamp(frames[j].name).Some? ==>
      FrameTimestamp(frames[i].name).value <= FrameTimestamp(frames[j].name).value
  }

  /** Every entry of the segment is stamped at or after the segment's start, and the entries come
      in non-decreasing timestamp order. */
  predicate SegmentInOrder(seg: Segment) {
    && (forall i :: 0 <= i < |seg.entries| ==>
          FrameTimestamp(seg.entries[i].name).Some? && seg.startMs <= FrameTimestamp(seg.entries[i].name).value)
    && (forall i, j :: 0 <= i < j < |seg.entries| && FrameTimestamp(seg.entries[i].name).Some? && FrameTimestamp(seg.entries[j].name).Some? ==>
          FrameTimestamp(seg.entries[i].name).value <= FrameTimestamp(seg.entries[j].name).value)
  }

  predicate AllInOrder(segments: seq<Segment>) {
    forall k :: 0 <= k < |segments| ==> SegmentInOrder(segments[k])
  }

  /** No start and no entry of the segments is stamped after `hi`. */
  predicate NoneAfter(segments: seq<Segment>, hi: int) {
    forall k :: 0 <= k < |segments| ==>
      && segments[k].startMs <= hi
      && forall i :: 0 <= i < |segments[k].entries| && FrameTimestamp(segments[k].entries[i].name).Some? ==>
           FrameTimestamp(segments[k].entries[i].name).value <= hi
  }

  lemma InOrderNewSegment(segments: seq<Segment>, hi: int, t: int64, entries: seq<TarEntry>)
    requires AllInOrder(segments) && NoneAfter(segments, hi) && hi <= t
    requires entries == [] || (|entries| == 1 && FrameTimestamp(entries[0].name) == Some(t))
    ensures AllInOrder(segments + [Segment(t, entries)]) && NoneAfter(segments + [Segment(t, entries)], t)
  {
    FreshSegmentInOrder(t, entries);
    NoneAfterRaised(segments, hi, t);
    InOrderAppendSegment(segments, Segment(t, entries), t);
  }

  lemma FreshSegmentInOrder(t: int64, entries: seq<TarEntry>)
    requires entries == [] || (|entries| == 1 && FrameTimestamp(entries[0].name) == Some(t))
    ensures SegmentInOrder(Segment(t, entries)) && NoneAfter([Segment(t, entries)], t)
  {
    var seg := Segment(t, entries);
    forall i | 0 <= i < |entries|
      ensures FrameTimestamp(entries[i].name).Some? && t <= FrameTimestamp(entries[i].name).value
      ensures FrameTimestamp(entries[i].name).value <= t
    {
      assert i == 0;
    }
    assert [seg][0] == seg;
  }

  lemma InOrderAppendSegment(segments: seq<Segment>, seg: Segment, t: int)
    requires AllInOrder(segments) && NoneAfter(segments, t)
    requires SegmentInOrder(seg) && NoneAfter([seg], t)
    ensures AllInOrder(segments + [seg]) && NoneAfter(segments + [seg], t)
  {
    var all := segments + [seg];
    forall k | 0 <= k < |all| ensures all[k] == if k < |segments| then segments[k] else [seg][0] { }
  }

  lemma InOrderAppendEntry(segments: seq<Segment>, hi: int, e: TarEntry, t: int64)
    requires segments != [] && AllInOrder(segments) && NoneAfter(segments, hi) && hi <= t
    requires FrameTimestamp(e.name) == Some(t)
    ensures var n := |segments| - 1;
      var all := segments[..n] + [Segment(segments[n].startMs, segments[n].entries + [e])];
      AllInOrder(all) && NoneAfter(all, t)
  {
    var n := |segments| - 1;
    var init, last := segments[..n], segments[n];
    assert AllInOrder(init) && NoneAfter(init, t) by {
      forall k | 0 <= k < n ensures init[k] == segments[k] { }
      NoneAfterRaised(segments, hi, t);
    }
    assert SegmentInOrder(last) && NoneAfter([last], hi) by {
      assert [last][0] == segments[n];
    }
    GrownSegmentInOrder(last, hi, e, t);
    InOrderAppendSegment(init, Segment(last.startMs, last.entries + [e]), t);
  }

  /** An entry stamped no earlier than anything in the segment keeps it in order. */
  lemma GrownSegmentInOrder(last: Segment, hi: int, e: TarEntry, t: int64)
    requires SegmentInOrder(last) && NoneAfter([last], hi) && hi <= t
    requires FrameTimestamp(e.name) == Some(t)
    ensures var grown := Segment(last.startMs, last.entries + [e]);
      SegmentInOrder(grown) && NoneAfter([grown], t)
  {
    var grown := Segment(last.startMs, last.entries + [e]);
    assert [last][0] == last && [grown][0] == grown;
    forall i | 0 <= i < |last.entries| && FrameTimestamp(last.entries[i].name).Some?
      ensures FrameTimestamp(last.entries[i].name).value <= t
    {
      assert FrameTimestamp([last][0].entries[i].name).value <= hi;
    }
    forall i | 0 <= i < |grown.entries| ensures grown.entries[i] == if i < |last.entries| then last.entries[i] else e { }
  }

  lemma NoneAfterRaised(segments: seq<Segment>, hi: int, t: int)
    requires NoneAfter(segments, hi) && hi <= t
    ensures NoneAfter(segments, t)
  {
  }

  /** A frame stamped `t`, no earlier than anything written so far, keeps every segment in order
      and leaves nothing stamped after `t`. */
  lemma ReceivedInOrder(w: Writer, frame: Frame, faults: Faults, hi: int, t: int64)
    requires Valid(w) && AllInOrder(w.segments) && NoneAfter(w.segments, hi)
    requires FrameTimestamp(frame.name) == Some(t) && hi <= t
    ensures var r := Received(w, frame, faults).segments;
      AllInOrder(r) && NoneAfter(r, t)
  {
    var e := EntryOf(frame);
    var r := Received(w, frame, faults).segments;
    var written := faults.headerOk && faults.dataOk;
    if !w.running || (RotationDue(w.currentTarStartMs, t) && !faults.createOk) ||
       (!RotationDue(w.currentTarStartMs, t) && !written) {
      assert r == w.segments;
      NoneAfterRaised(w.segments, hi, t);
    } else if RotationDue(w.currentTarStartMs, t) {
      var entries := if written then [e] else [];
      assert r == w.segments + [Segment(t, entries)] by {
        var base := Opened(w, t, true);
        if written {
          assert Received(w, frame, faults) == AppendEntry(base, e);
          assert base.segments[..|w.segments|] == w.segments;
          assert [] + [e] == [e];
        }
      }
      InOrderNewSegment(w.segments, hi, t, entries);
    } else {
      assert r == AppendEntry(w, e).segments;
      InOrderAppendEntry(w.segments, hi, e, t);
    }
  }

  lemma {:induction false} InOrderDeliveries(w: Writer, frames: seq<Frame>, hi: int)
    requires Valid(w) && AllInOrder(w.segments) && NoneAfter(w.segments, hi)
    requires InOrderStamps(frames)
    requires forall i :: 0 <= i < |frames| && FrameTimestamp(frames[i].name).Some? ==> hi <= FrameTimestamp(frames[i].name).value
    ensures AllInOrder(AfterEvents(w, Deliveries(frames)).segments)
    decreases |frames|
  {
    if frames == [] {
      assert Deliveries(frames) == [];
    } else {
      var ok := Faults(true, true, true);
      var next := Received(w, frames[0], ok);
      var rest := frames[1..];
      var stamp := FrameTimestamp(frames[0].name);
      var lo := if stamp.Some? then stamp.value else hi;
      InOrderTail(frames, hi);
      assert AllInOrder(next.segments) && NoneAfter(next.segments, lo) by {
        if stamp.Some? {
          ReceivedInOrder(w, frames[0], ok, hi, stamp.value);
        } else {
          FrameErrorsSkipOnlyThatFrame(w, frames[0], ok);
        }
      }
      assert AllInOrder(AfterEvents(next, Deliveries(rest)).segments) by {
        InOrderDeliveries(next, rest, lo);
      }
      AfterDeliveriesStep(w, frames);
    }
  }

  /** The frames after the first are still in order, and none is stamped before the first frame's
      stamp (or before `hi` when the first name does not parse). */
  lemma InOrderTail(frames: seq<Frame>, hi: int)
    requires frames != [] && InOrderStamps(frames)
    requires forall i :: 0 <= i < |frames| && FrameTimestamp(frames[i].name).Some? ==> hi <= FrameTimestamp(frames[i].name).value
    ensures InOrderStamps(frames[1..])
    ensures var stamp := FrameTimestamp(frames[0].name);
      var lo := if stamp.Some? then stamp.value else hi;
      forall i :: 0 <= i < |frames[1..]| && FrameTimestamp(frames[1..][i].name).Some? ==> lo <= FrameTimestamp(frames[1..][i].name).value
  {
    var rest := frames[1..];
    forall i | 0 <= i < |rest| ensures rest[i] == frames[i + 1] { }
  }

  /** Frames delivered in timestamp order, none stamped before 0 and every file-system call
      succeeding: each entry lies in its segment's window, at or after the segment's start and
      before the window ends, and each segment's entries are in timestamp order. */
  lemma InOrderRunKeepsEntriesInWindow(frames: seq<Frame>)
    requires InOrderStamps(frames) && NonNegativeStamps(frames)
    ensures var r := AfterEvents(Initial(), Deliveries(frames));
      && AllInOrder(r.segments)
      && forall k, i :: 0 <= k < |r.segments| && 0 <= i < |r.segments[k].entries| ==>
           && FrameTimestamp(r.segments[k].entries[i].name).Some?
           && r.segments[k].startMs <= FrameTimestamp(r.segments[k].entries[i].name).value < r.segments[k].startMs + RotationWindowMs
  {
    var r := AfterEvents(Initial(), Deliveries(frames));
    InOrderDeliveries(Initial(), frames, Int64Min);
    DeliveriesKeepStartsNonNegative(Initial(), frames);
    forall k, i | 0 <= k < |r.segments| && 0 <= i < |r.segments[k].entries|
      ensures FrameTimestamp(r.segments[k].entries[i].name).Some?
      ensures r.segments[k].startMs <= FrameTimestamp(r.segments[k].entries[i].name).value < r.segments[k].startMs + RotationWindowMs
    {
      assert SegmentInOrder(r.segments[k]);
      EntriesLieInTheirWindow(r, k, i);
    }
  }
}
