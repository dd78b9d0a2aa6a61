/** Point-in-time retrieval (handleImageRequest, main.go:54-177): choose the segment whose start
    is the latest one at or before the target, then scan its entries for the last frame at or
    before the target. */
module Retrieval {
  import opened Types
  import opened Naming
  import Strconv

  /** One item of the stream directory listing (os.ReadDir). */
  datatype DirEntry = DirEntry(name: string, isDir: bool)

  datatype Header = Header(name: string, typeflag: char)

  /** One call of the tar reader's Next as the loop sees it: a header followed by the entry's
      payload (with whether copying the payload succeeded), or a header read error. The end of the
      archive (io.EOF) is the end of the sequence. */
  datatype TarRead = Entry(hdr: Header, data: bytes, dataOk: bool) | HeaderError

  /** What a request can yield once the HTTP layer is stripped away. */
  datatype Outcome = NotFound | Found(frame: bytes) | Failure

  // ---------------------------------------------------------------------------------------------
  // Segment selection (main.go:73-104)

  /** The start a listing item contributes: directories and unparsable names contribute none. */
  function ListedStart(f: DirEntry): Option<int64> {
    if f.isDir then None else SegmentStart(f.name)
  }

  /** The state of the selection loop: the chosen name (bestTarPath, "" as None) and its start
      (maxTarTimestampMs). */
  datatype Selection = Selection(best: Option<string>, maxMs: int)

  function SelectStep(sel: Selection, f: DirEntry, target: int64): Selection {
    match ListedStart(f)
    case None => sel
    case Some(t) => if t <= target && t > sel.maxMs then Selection(Some(f.name), t) else sel
  }

  /** The selection loop as a left fold over the listing, starting from (none, -1). */
  function SelectAfter(files: seq<DirEntry>, target: int64): (sel: Selection)
    ensures sel.best.None? <==> sel.maxMs == -1
    ensures sel.best.Some? ==>
              0 <= sel.maxMs <= target &&
              exists i :: 0 <= i < |files| && files[i].name == sel.best.value && ListedStart(files[i]) == Some(sel.maxMs)
  {
    if files == [] then Selection(None, -1)
    else SelectStep(SelectAfter(files[..|files| - 1], target), files[|files| - 1], target)
  }

  /** The selection loop of main.go:73-99; the result is the chosen file name, None when
      bestTarPath stays empty. */
  method SelectSegment(files: seq<DirEntry>, target: int64) returns (best: Option<string>)
    ensures best == SelectAfter(files, target).best
  {
    best := None;
    var maxTarTimestampMs: int := -1;
    for i := 0 to |files|
      invariant Selection(best, maxTarTimestampMs) == SelectAfter(files[..i], target)
    {
      assert files[..i + 1][..i] == files[..i];
      var file := files[i];
      if file.isDir {
        continue;
      }
      var tarTimestampMs := SegmentStart(file.name);
      if tarTimestampMs.Some? {
        var t := tarTimestampMs.value;
        if t <= target && t > maxTarTimestampMs {
          maxTarTimestampMs := t;
          best := Some(file.name);
        }
      }
    }
    assert files[..|files|] == files;
  }

  /** A listing item that can be chosen: its start is at or before the target, and above the
      initial -1 of the running maximum. */
  predicate Eligible(f: DirEntry, target: int64) {
    ListedStart(f).Some? && 0 <= ListedStart(f).value <= target
  }

  /** Item `k` is the latest eligible segment, and the first listed among those with its start. */
  predicate IsChoice(files: seq<DirEntry>, target: int64, k: int) {
    && 0 <= k < |files|
    && Eligible(files[k], target)
    && (forall j :: 0 <= j < |files| && Eligible(files[j], target) ==>
          ListedStart(files[j]).value <= ListedStart(files[k]).value)
    && (forall j :: 0 <= j < k && Eligible(files[j], target) ==>
          ListedStart(files[j]).value < ListedStart(files[k]).value)
  }

  /** A choice survives an appended item that is not eligible or starts no later. */
  lemma ChoiceSurvives(init: seq<DirEntry>, f: DirEntry, target: int64, k: int)
    requires IsChoice(init, target, k)
    requires Eligible(f, target) ==> ListedStart(f).value <= ListedStart(init[k]).value
    ensures IsChoice(init + [f], target, k)
  {
    var files := init + [f];
    forall j | 0 <= j < |files| && Eligible(files[j], target)
      ensures ListedStart(files[j]).value <= ListedStart(files[k]).value
    {
      if j < |init| {
        assert files[j] == init[j];
      }
    }
    forall j | 0 <= j < k && Eligible(files[j], target)
      ensures ListedStart(files[j]).value < ListedStart(files[k]).value
    {
      assert files[j] == init[j];
    }
  }

  /** An appended eligible item that starts later than every eligible item before it is chosen. */
  lemma AppendedIsChoice(init: seq<DirEntry>, f: DirEntry, target: int64)
    requires Eligible(f, target)
    requires forall j :: 0 <= j < |init| && Eligible(init[j], target) ==>
               ListedStart(init[j]).value < ListedStart(f).value
    ensures IsChoice(init + [f], target, |init|)
  {
    var files := init + [f];
    forall j | 0 <= j < |files| && Eligible(files[j], target)
      ensures ListedStart(files[j]).value <= ListedStart(files[|init|]).value
    {
      if j < |init| {
        assert files[j] == init[j];
      }
    }
  }

  /** What the selection state says about the listing read so far. */
  ghost predicate SelectionFits(files: seq<DirEntry>, target: int64, sel: Selection) {
    || (sel == Selection(None, -1) && forall j :: 0 <= j < |files| ==> !Eligible(files[j], target))
    || (exists k :: IsChoice(files, target, k) && sel == Selection(Some(files[k].name), ListedStart(files[k]).value))
  }

  lemma {:induction false} SelectAfterInvariant(files: seq<DirEntry>, target: int64)
    ensures SelectionFits(files, target, SelectAfter(files, target))
  {
    if files != [] {
      var n := |files| - 1;
      var init, f := files[..n], files[n];
      assert files == init + [f];
      SelectAfterInvariant(init, target);
      SelectStepFits(init, f, target, SelectAfter(init, target));
    }
  }

  /** One step of the selection loop keeps SelectionFits. */
  lemma SelectStepFits(init: seq<DirEntry>, f: DirEntry, target: int64, sel: Selection)
    requires SelectionFits(init, target, sel)
    ensures SelectionFits(init + [f], target, SelectStep(sel, f, target))
  {
    var files := init + [f];
    var next := SelectStep(sel, f, target);
    assert files[|init|] == f;
    if sel.best.None? {
      if Eligible(f, target) {
        AppendedIsChoice(init, f, target);
        assert next == Selection(Some(files[|init|].name), ListedStart(files[|init|]).value);
      } else {
        forall j | 0 <= j < |files| ensures !Eligible(files[j], target) {
          if j < |init| {
            assert files[j] == init[j];
          }
        }
        assert next == sel;
      }
    } else {
      var k :| IsChoice(init, target, k) && sel == Selection(Some(init[k].name), ListedStart(init[k]).value);
      assert files[k] == init[k];
      if Eligible(f, target) && ListedStart(f).value > sel.maxMs {
        AppendedIsChoice(init, f, target);
        assert next == Selection(Some(files[|init|].name), ListedStart(files[|init|]).value);
      } else {
        ChoiceSurvives(init, f, target, k);
        assert next == sel;
      }
    }
  }

  /** Selection finds nothing exactly when no listed segment starts in [0, target]; otherwise it
      finds the latest such segment, and among segments with that start the first listed.
      Directories, names without ".tar", names without '_' and names whose last part does not
      parse never qualify, and neither does a start below 0. */
  lemma SelectionIsLatestAtOrBefore(files: seq<DirEntry>, target: int64)
    ensures SelectAfter(files, target).best.None? <==>
              forall j :: 0 <= j < |files| ==> !Eligible(files[j], target)
    ensures SelectAfter(files, target).best.Some? ==>
              exists k :: IsChoice(files, target, k) && SelectAfter(files, target).best == Some(files[k].name)
  {
    SelectAfterInvariant(files, target);
  }

  // ---------------------------------------------------------------------------------------------
  // In-segment scan (main.go:116-165)

  /** The outcome once the scan stops with `last` recorded (main.go:167-176). */
  function Conclude(last: Option<bytes>): (r: Outcome)
    ensures r != Failure
    ensures r.Found? <==> last.Some?
    ensures r.Found? ==> r.frame == last.value
  {
    if last.Some? then Found(last.value) else NotFound
  }

  /** The scan loop as a fold over the records, with `last` the payload recorded so far
      (lastValidFrameData). */
  function ScanFrom(records: seq<TarRead>, target: int64, last: Option<bytes>): (r: Outcome)
    ensures r == NotFound ==> last.None?
    ensures r == Failure ==> exists i :: 0 <= i < |records| && records[i].HeaderError?
    ensures r.Found? ==>
              (last.Some? && r.frame == last.value) ||
              exists i :: 0 <= i < |records| && Usable(records[i], target) && r.frame == records[i].data
    decreases |records|
  {
    if records == [] then Conclude(last)
    else match records[0]
      case HeaderError => Failure
      case Entry(hdr, data, dataOk) =>
        if hdr.typeflag != TypeReg then ScanFrom(records[1..], target, last)
        else match FrameTimestamp(hdr.name)
          case None => ScanFrom(records[1..], target, last)
          case Some(t) =>
            if t <= target then ScanFrom(records[1..], target, if dataOk then Some(data) else last)
            else Conclude(last)
  }

  /** The scan loop of main.go:116-176. */
  method ScanSegment(records: seq<TarRead>, target: int64) returns (r: Outcome)
    ensures r == ScanFrom(records, target, None)
  {
    var lastValidFrameData: Option<bytes> := None;
    var i := 0;
    while i < |records|
      invariant 0 <= i <= |records|
      invariant ScanFrom(records, target, None) == ScanFrom(records[i..], target, lastValidFrameData)
    {
      var read := records[i];
      if read.HeaderError? {
        return Failure;
      }
      if read.hdr.typeflag == TypeReg {
        var frameTimestampMs := FrameTimestamp(read.hdr.name);
        if frameTimestampMs.Some? {
          if frameTimestampMs.value <= target {
            if read.dataOk {
              lastValidFrameData := Some(read.data);
            }
          } else {
            break;
          }
        }
      }
      i := i + 1;
    }
    r := Conclude(lastValidFrameData);
  }

  /** The timestamp of a regular entry whose name parses; None for anything else. */
  function StampOf(read: TarRead): Option<int64> {
    if read.Entry? && read.hdr.typeflag == TypeReg then FrameTimestamp(read.hdr.name) else None
  }

  /** A read that ends the scan: a header error, or a regular entry stamped after the target. */
  predicate Stops(read: TarRead, target: int64) {
    read.HeaderError? || (StampOf(read).Some? && StampOf(read).value > target)
  }

  /** A read that the scan records: a regular entry stamped at or before the target whose payload
      was read. */
  predicate Usable(read: TarRead, target: int64) {
    StampOf(read).Some? && StampOf(read).value <= target && read.dataOk
  }

  /** The index of the first read that ends the scan, or the length when none does. */
  function StopAt(records: seq<TarRead>, target: int64): (s: nat)
    ensures s <= |records|
    ensures forall j :: 0 <= j < s ==> !Stops(records[j], target)
    ensures s < |records| ==> Stops(records[s], target)
  {
    if records == [] || Stops(records[0], target) then 0 else 1 + StopAt(records[1..], target)
  }

  /** One step of the scan over a read that does not end it. */
  lemma ScanStep(records: seq<TarRead>, target: int64, last: Option<bytes>)
    requires records != [] && !Stops(records[0], target)
    ensures ScanFrom(records, target, last) ==
              ScanFrom(records[1..], target, if Usable(records[0], target) then Some(records[0].data) else last)
  {
  }

  lemma ScanStops(records: seq<TarRead>, target: int64, last: Option<bytes>)
    requires records != [] && Stops(records[0], target)
    ensures ScanFrom(records, target, last) == if records[0].HeaderError? then Failure else Conclude(last)
  {
  }

  lemma {:induction false} ScanFailsAtHeaderError(records: seq<TarRead>, target: int64, last: Option<bytes>)
    ensures ScanFrom(records, target, last) == Failure <==>
              StopAt(records, target) < |records| && records[StopAt(records, target)].HeaderError?
    decreases |records|
  {
    if records != [] && !Stops(records[0], target) {
      ScanStep(records, target, last);
      var last' := if Usable(records[0], target) then Some(records[0].data) else last;
      ScanFailsAtHeaderError(records[1..], target, last');
    }
  }

  lemma {:induction false} ScanWithoutCandidate(records: seq<TarRead>, target: int64, last: Option<bytes>)
    requires ScanFrom(records, target, last) != Failure
    requires forall j :: 0 <= j < StopAt(records, target) ==> !Usable(records[j], target)
    ensures ScanFrom(records, target, last) == Conclude(last)
    decreases |records|
  {
    if records != [] && !Stops(records[0], target) {
      ScanStep(records, target, last);
      var rest := records[1..];
      forall j | 0 <= j < StopAt(rest, target) ensures !Usable(rest[j], target) {
        assert rest[j] == records[j + 1];
      }
      ScanWithoutCandidate(rest, target, last);
    }
  }

  /** Entry `k` is the last usable one among the first `s` records. */
  predicate LastUsableBefore(records: seq<TarRead>, target: int64, s: int, k: int)
    requires s <= |records|
  {
    0 <= k < s && Usable(records[k], target) && forall j :: k < j < s ==> !Usable(records[j], target)
  }

  lemma {:induction false} ScanWithCandidate(records: seq<TarRead>, target: int64, last: Option<bytes>, i: int)
    requires ScanFrom(records, target, last) != Failure
    requires 0 <= i < StopAt(records, target) && Usable(records[i], target)
    ensures exists k :: LastUsableBefore(records, target, StopAt(records, target), k) &&
              ScanFrom(records, target, last) == Found(records[k].data)
    decreases |records|
  {
    var s := StopAt(records, target);
    var rest := records[1..];
    var last' := if Usable(records[0], target) then Some(records[0].data) else last;
    ScanStep(records, target, last);
    if k :| 1 <= k < s && Usable(records[k], target) {
      assert rest[k - 1] == records[k];
      ScanWithCandidate(rest, target, last', k - 1);
      var k' :| LastUsableBefore(rest, target, StopAt(rest, target), k') &&
        ScanFrom(rest, target, last') == Found(rest[k'].data);
      CandidateShifts(records, target, k');
    } else {
      assert i == 0;
      forall j | 0 <= j < s - 1 ensures !Usable(rest[j], target) {
        assert rest[j] == records[j + 1];
      }
      ScanWithoutCandidate(rest, target, last');
      assert LastUsableBefore(records, target, s, 0);
    }
  }

  /** The last usable entry of the tail, shifted by one, is the last usable entry of the whole. */
  lemma CandidateShifts(records: seq<TarRead>, target: int64, k': int)
    requires records != [] && !Stops(records[0], target)
    requires LastUsableBefore(records[1..], target, StopAt(records[1..], target), k')
    ensures LastUsableBefore(records, target, StopAt(records, target), k' + 1)
    ensures records[k' + 1] == records[1..][k']
  {
    var rest := records[1..];
    var s := StopAt(records, target);
    assert s == 1 + StopAt(rest, target);
    assert records[k' + 1] == rest[k'];
    forall j | k' + 1 < j < s ensures !Usable(records[j], target) {
      assert records[j] == rest[j - 1];
    }
  }

  /** The scan fails exactly when a header read error comes before anything that ends it; it
      otherwise yields the payload of the last regular entry stamped at or before the target among
      the entries before the first one stamped after it, and NotFound when there is none.
      Unparsable names and non-regular entries neither count nor stop the scan. */
  lemma ScanFindsLastAtOrBefore(records: seq<TarRead>, target: int64)
    ensures var s := StopAt(records, target);
      var r := ScanFrom(records, target, None);
      && (r == Failure <==> s < |records| && records[s].HeaderError?)
      && (r == NotFound <==> !(s < |records| && records[s].HeaderError?) && forall j :: 0 <= j < s ==> !Usable(records[j], target))
      && (r.Found? ==>
            exists k :: 0 <= k < s && Usable(records[k], target) && r.frame == records[k].data &&
              forall j :: k < j < s ==> !Usable(records[j], target))
  {
    var s := StopAt(records, target);
    ScanFailsAtHeaderError(records, target, None);
    if ScanFrom(records, target, None) != Failure {
      if i :| 0 <= i < s && Usable(records[i], target) {
        ScanWithCandidate(records, target, None, i);
      } else {
        ScanWithoutCandidate(records, target, None);
      }
    }
  }

  /** The stamped entries appear in non-decreasing timestamp order. */
  predicate Chronological(records: seq<TarRead>) {
    forall i, j :: 0 <= i < j < |records| && StampOf(records[i]).Some? && StampOf(records[j]).Some? ==>
      StampOf(records[i]).value <= StampOf(records[j]).value
  }

  /** The early stop loses nothing when the stamped entries are in chronological order and every
      header reads: the scan then yields the last usable entry of the whole segment, as a full pass
      would. */
  lemma EarlyStopIsSound(records: seq<TarRead>, target: int64)
    requires forall j :: 0 <= j < |records| ==> records[j].Entry?
    requires Chronological(records)
    ensures ScanFrom(records, target, None) != Failure
    ensures ScanFrom(records, target, None) == NotFound <==>
              forall j :: 0 <= j < |records| ==> !Usable(records[j], target)
    ensures ScanFrom(records, target, None).Found? ==>
              exists k :: 0 <= k < |records| && Usable(records[k], target) &&
                ScanFrom(records, target, None).frame == records[k].data &&
                forall j :: k < j < |records| ==> !Usable(records[j], target)
  {
    ScanFindsLastAtOrBefore(records, target);
    NothingUsableAfterStop(records, target);
  }

  lemma NothingUsableAfterStop(records: seq<TarRead>, target: int64)
    requires forall j :: 0 <= j < |records| ==> records[j].Entry?
    requires Chronological(records)
    ensures forall j :: StopAt(records, target) <= j < |records| ==> !Usable(records[j], target)
  {
    var s := StopAt(records, target);
    forall j | s <= j < |records| ensures !Usable(records[j], target) {
      if j > s && StampOf(records[j]).Some? {
        assert StampOf(records[s]).value <= StampOf(records[j]).value;
      }
    }
  }

  /** Three frames stamped 10, 30 and 20, in that (non-chronological) order. */
  function OutOfOrderFrames(d10: bytes, d30: bytes, d20: bytes): seq<TarRead> {
    [Entry(Header(Strconv.FormatInt(10) + JpgSuffix, TypeReg), d10, true),
     Entry(Header(Strconv.FormatInt(30) + JpgSuffix, TypeReg), d30, true),
     Entry(Header(Strconv.FormatInt(20) + JpgSuffix, TypeReg), d20, true)]
  }

  /** Out of order, the early stop can hide a usable entry: with entries stamped 10, 30, 20 and
      target 25 the scan stops at 30 and yields the frame stamped 10, although the one stamped 20
      is later and also at or before the target. */
  lemma EarlyStopMissesLateEntry(d10: bytes, d30: bytes, d20: bytes)
    ensures var records := OutOfOrderFrames(d10, d30, d20);
      ScanFrom(records, 25, None) == Found(d10) && Usable(records[2], 25)
  {
    var records := OutOfOrderFrames(d10, d30, d20);
    StampOfDecimal(records[0], 10);
    StampOfDecimal(records[1], 30);
    StampOfDecimal(records[2], 20);
    assert records[1..][0] == records[1];
    ScanStep(records, 25, None);
  }

  /** A regular entry named by the decimal form of `t` plus ".jpg" is stamped `t`. */
  lemma StampOfDecimal(read: TarRead, t: int64)
    requires read.Entry? && read.hdr.typeflag == TypeReg
    requires read.hdr.name == Strconv.FormatInt(t) + JpgSuffix
    ensures StampOf(read) == Some(t)
  {
    EntryTimestampRoundTrip(t);
  }

  /** Three frames stamped 5, 15 and 25, in order, all readable. */
  function ThreeFrames(d5: bytes, d15: bytes, d25: bytes): seq<TarRead> {
    [Entry(Header(Strconv.FormatInt(5) + JpgSuffix, TypeReg), d5, true),
     Entry(Header(Strconv.FormatInt(15) + JpgSuffix, TypeReg), d15, true),
     Entry(Header(Strconv.FormatInt(25) + JpgSuffix, TypeReg), d25, true)]
  }

  /** A segment holding frames stamped 5, 15 and 25 answers 20 with the frame stamped 15, 4 with
      nothing, 25 with the frame stamped 25, and any later target with that same last frame. */
  lemma ScanOfThreeFrames(d5: bytes, d15: bytes, d25: bytes, later: int64)
    requires later >= 25
    ensures ScanFrom(ThreeFrames(d5, d15, d25), 20, None) == Found(d15)
    ensures ScanFrom(ThreeFrames(d5, d15, d25), 4, None) == NotFound
    ensures ScanFrom(ThreeFrames(d5, d15, d25), 25, None) == Found(d25)
    ensures ScanFrom(ThreeFrames(d5, d15, d25), later, None) == Found(d25)
  {
    ThreeFramesStamps(d5, d15, d25);
    ScanThreeBetween(d5, d15, d25, 20);
    ScanThreeBefore(d5, d15, d25, 4);
    ScanThreeAfter(d5, d15, d25, 25);
    ScanThreeAfter(d5, d15, d25, later);
  }

  lemma ThreeFramesStamps(d5: bytes, d15: bytes, d25: bytes)
    ensures var records := ThreeFrames(d5, d15, d25);
      StampOf(records[0]) == Some(5) && StampOf(records[1]) == Some(15) && StampOf(records[2]) == Some(25)
  {
    var records := ThreeFrames(d5, d15, d25);
    StampOfDecimal(records[0], 5);
    StampOfDecimal(records[1], 15);
    StampOfDecimal(records[2], 25);
  }

  lemma ScanThreeBefore(d5: bytes, d15: bytes, d25: bytes, target: int64)
    requires target < 5
    ensures ScanFrom(ThreeFrames(d5, d15, d25), target, None) == NotFound
  {
    ThreeFramesStamps(d5, d15, d25);
  }

  lemma ScanThreeBetween(d5: bytes, d15: bytes, d25: bytes, target: int64)
    requires 15 <= target < 25
    ensures ScanFrom(ThreeFrames(d5, d15, d25), target, None) == Found(d15)
  {
    var records := ThreeFrames(d5, d15, d25);
    var second, third := records[1..], records[2..];
    ThreeFramesStamps(d5, d15, d25);
    assert ScanFrom(records, target, None) == ScanFrom(second, target, Some(d5)) by {
      ScanStep(records, target, None);
    }
    assert ScanFrom(second, target, Some(d5)) == ScanFrom(third, target, Some(d15)) by {
      assert second[0] == records[1] && second[1..] == third;
      ScanStep(second, target, Some(d5));
    }
    assert ScanFrom(third, target, Some(d15)) == Found(d15) by {
      assert third[0] == records[2];
      ScanStops(third, target, Some(d15));
    }
  }

  lemma ScanThreeAfter(d5: bytes, d15: bytes, d25: bytes, target: int64)
    requires 25 <= target
    ensures ScanFrom(ThreeFrames(d5, d15, d25), target, None) == Found(d25)
  {
    var records := ThreeFrames(d5, d15, d25);
    var second, third := records[1..], records[2..];
    ThreeFramesStamps(d5, d15, d25);
    assert ScanFrom(records, target, None) == ScanFrom(second, target, Some(d5)) by {
      ScanStep(records, target, None);
    }
    assert ScanFrom(second, target, Some(d5)) == ScanFrom(third, target, Some(d15)) by {
      assert second[0] == records[1] && second[1..] == third;
      ScanStep(second, target, Some(d5));
    }
    assert ScanFrom(third, target, Some(d15)) == Found(d25) by {
      assert third[0] == records[2] && third[1..] == [];
      assert Usable(third[0], target) && third[0].data == d25;
      ScanStep(third, target, Some(d15));
      assert ScanFrom([], target, Some(d25)) == Found(d25);
    }
  }

  /** Two segments of one stream started at `a` and `b`, a < b: a target before `a` finds no
      segment, a target in [a, b) selects the first and a target from `b` on the second, whichever
      order the directory lists them in. */
  lemma SelectionOfTwoSegments(streamName: string, a: int64, b: int64, target: int64, swapped: bool)
    requires 0 <= a < b
    ensures var first := DirEntry(SegmentFileName(streamName, a), false);
      var second := DirEntry(SegmentFileName(streamName, b), false);
      var best := SelectAfter(if swapped then [second, first] else [first, second], target).best;
      && (target < a ==> best == None)
      && (a <= target < b ==> best == Some(first.name))
      && (b <= target ==> best == Some(second.name))
  {
    SegmentNameRoundTrip(streamName, a);
    SegmentNameRoundTrip(streamName, b);
    var first := DirEntry(SegmentFileName(streamName, a), false);
    var second := DirEntry(SegmentFileName(streamName, b), false);
    SelectBetweenTwo(first, second, a, b, target, swapped);
  }

  lemma SelectBetweenTwo(first: DirEntry, second: DirEntry, a: int64, b: int64, target: int64, swapped: bool)
    requires 0 <= a < b && ListedStart(first) == Some(a) && ListedStart(second) == Some(b)
    ensures var best := SelectAfter(if swapped then [second, first] else [first, second], target).best;
      && (target < a ==> best == None)
      && (a <= target < b ==> best == Some(first.name))
      && (b <= target ==> best == Some(second.name))
  {
    SelectPair(first, second, target);
    SelectPair(second, first, target);
  }

  /** The selection over a two-item listing, one step per item. */
  lemma SelectPair(x: DirEntry, y: DirEntry, target: int64)
    ensures SelectAfter([x, y], target) == SelectStep(SelectStep(Selection(None, -1), x, target), y, target)
  {
    assert [x, y][..1] == [x] && [x][..0] == [];
    assert SelectAfter([x], target) == SelectStep(Selection(None, -1), x, target);
  }

  // ---------------------------------------------------------------------------------------------
  // The whole request

  /** handleImageRequest after the target has been parsed and the directory read: `open` gives,
      for a file name, the records its tar reader yields, or None when os.Open fails. */
  method Retrieve(files: seq<DirEntry>, target: int64, open: string -> Option<seq<TarRead>>)
    returns (r: Outcome)
    ensures var best := SelectAfter(files, target).best;
      r == if best.None? then NotFound
           else if open(best.value).None? then Failure
           else ScanFrom(open(best.value).value, target, None)
  {
    var bestTarPath := SelectSegment(files, target);
    if bestTarPath.None? {
      return NotFound;
    }
    var file := open(bestTarPath.value);
    if file.None? {
      return Failure;
    }
    r := ScanSegment(file.value, target);
  }
}
