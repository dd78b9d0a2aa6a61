/** The archive as the image endpoint reads it back: the writer's segments, seen through the tar
    reader, satisfy what the scan's early stop relies on. */
module Readback {
  import opened Types
  import opened Naming
  import Archive
  import Retrieval

  /** The reads tar.Reader.Next yields on a segment the writer produced: one header per entry, with
      the entry's name and type flag, and the whole payload. */
  function ReadBack(seg: Archive.Segment): seq<Retrieval.TarRead> {
    seq(|seg.entries|, i requires 0 <= i < |seg.entries| =>
      Retrieval.Entry(Retrieval.Header(seg.entries[i].name, seg.entries[i].typeflag), seg.entries[i].data, true))
  }

  /** A well-formed segment whose entries are in timestamp order reads back as chronological
      regular entries, with no header error. */
  lemma SegmentReadsChronologically(seg: Archive.Segment)
    requires Archive.SegmentWellFormed(seg) && Archive.SegmentInOrder(seg)
    ensures var records := ReadBack(seg);
      && |records| == |seg.entries|
      && (forall j :: 0 <= j < |records| ==> records[j].Entry? && Retrieval.StampOf(records[j]) == FrameTimestamp(seg.entries[j].name))
      && Retrieval.Chronological(records)
  {
    var records := ReadBack(seg);
    forall j | 0 <= j < |records|
      ensures records[j].Entry? && Retrieval.StampOf(records[j]) == FrameTimestamp(seg.entries[j].name)
    {
      assert Archive.EntryFits(seg.startMs, seg.entries[j]);
    }
  }

  /** Frames delivered in timestamp order with every file-system call succeeding: each segment
      reads back chronologically, so scanning it for any target never fails, finds nothing exactly
      when no entry is stamped at or before the target, and otherwise yields the last such entry of
      the segment, as a full pass would. */
  lemma InOrderRunScansLikeFullPass(frames: seq<Archive.Frame>, k: int, target: int64)
    requires Archive.InOrderStamps(frames)
    requires 0 <= k < |Archive.AfterEvents(Archive.Initial(), Archive.Deliveries(frames)).segments|
    ensures var records := ReadBack(Archive.AfterEvents(Archive.Initial(), Archive.Deliveries(frames)).segments[k]);
      var found := Retrieval.ScanFrom(records, target, None);
      && Retrieval.Chronological(records)
      && found != Retrieval.Failure
      && (found == Retrieval.NotFound <==> forall j :: 0 <= j < |records| ==> !Retrieval.Usable(records[j], target))
      && (found.Found? ==>
            exists i :: 0 <= i < |records| && Retrieval.Usable(records[i], target) && found.frame == records[i].data &&
              forall j :: i < j < |records| ==> !Retrieval.Usable(records[j], target))
  {
    var r := Archive.AfterEvents(Archive.Initial(), Archive.Deliveries(frames));
    Archive.InOrderDeliveries(Archive.Initial(), frames, Int64Min);
    assert Archive.SegmentWellFormed(r.segments[k]) && Archive.SegmentInOrder(r.segments[k]);
    SegmentReadsChronologically(r.segments[k]);
    Retrieval.EarlyStopIsSound(ReadBack(r.segments[k]), target);
  }
}
