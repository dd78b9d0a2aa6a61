/** How archive segments and their entries are named by the writer and parsed back by the
    retrieval side. */
module Naming {
  import opened Types
  import opened Strconv
  import opened Strs

  const TarSuffix: string := ".tar"
  const JpgSuffix: string := ".jpg"
  const NameSeparator: char := '_'

  /** archive/tar's type flag for a regular file. */
  const TypeReg: char := '0'

  /** The file name of the segment that starts at `startMs` (main.go:352, without the directory). */
  /** It begins with the stream name and the separator, ends in ".tar", and the separator after
      the stream name is the name's last one. */
  function SegmentFileName(streamName: string, startMs: int64): (name: string)
    ensures HasSuffix(name, TarSuffix) && |name| > |streamName| + |TarSuffix|
    ensures name[..|streamName|] == streamName && name[|streamName|] == NameSeparator
    ensures LastIndexOf(name[..|name| - |TarSuffix|], NameSeparator) == |streamName|
  {
    NoSeparatorInDigits(startMs);
    TrimAppendedSuffix(streamName + [NameSeparator] + FormatInt(startMs), TarSuffix);
    streamName + [NameSeparator] + FormatInt(startMs) + TarSuffix
  }

  lemma NoSeparatorInDigits(startMs: int64)
    ensures NameSeparator !in FormatInt(startMs)
  {
    var digits := FormatInt(startMs);
    forall i | 0 <= i < |digits| ensures digits[i] != NameSeparator {
    }
  }

  /** The start timestamp read back from a segment file name (main.go:81-91): the name must end in
      ".tar", the rest must hold a '_', and what follows the last '_' must parse as an int64. */
  function SegmentStart(fileName: string): (r: Option<int64>)
    ensures !HasSuffix(fileName, TarSuffix) ==> r.None?
    ensures HasSuffix(fileName, TarSuffix) ==>
              var base := fileName[..|fileName| - |TarSuffix|];
              var k := LastIndexOf(base, NameSeparator);
              r == if k < 0 then None else ParseInt(base[k + 1..])
  {
    if !HasSuffix(fileName, TarSuffix) then None
    else
      var parts := Split(TrimSuffix(fileName, TarSuffix), NameSeparator);
      if |parts| < 2 then None else ParseInt(parts[|parts| - 1])
  }

  /** The archive entry name the dispatcher gives a frame (main.go:293). */
  function EntryName(clientTimestamp: string): (name: string)
    ensures |name| == |clientTimestamp| + |JpgSuffix|
    ensures HasSuffix(name, JpgSuffix) && name[..|clientTimestamp|] == clientTimestamp
  {
    clientTimestamp + JpgSuffix
  }

  /** The timestamp read back from an entry name (main.go:130-131 and main.go:375): ".jpg" is
      trimmed when present and the rest must parse as an int64. */
  function FrameTimestamp(name: string): (r: Option<int64>)
    ensures HasSuffix(name, JpgSuffix) ==> r == ParseInt(name[..|name| - |JpgSuffix|])
    ensures !HasSuffix(name, JpgSuffix) ==> r == ParseInt(name)
  {
    ParseInt(TrimSuffix(name, JpgSuffix))
  }

  /** A segment name parses back to the start it was written with, whatever the stream name holds
      (underscores and ".tar" included). */
  lemma SegmentNameRoundTrip(streamName: string, startMs: int64)
    ensures SegmentStart(SegmentFileName(streamName, startMs)) == Some(startMs)
  {
    var digits := FormatInt(startMs);
    var base := streamName + [NameSeparator] + digits;
    assert SegmentFileName(streamName, startMs) == base + TarSuffix;
    TrimAppendedSuffix(base, TarSuffix);
    assert NameSeparator !in digits by {
      forall i | 0 <= i < |digits| ensures digits[i] != NameSeparator {
      }
    }
    SplitLast(streamName, NameSeparator, digits);
    ParseFormatRoundTrip(startMs);
  }

  /** An entry name parses back exactly as its client timestamp header does. */
  lemma EntryNameRoundTrip(clientTimestamp: string)
    ensures FrameTimestamp(EntryName(clientTimestamp)) == ParseInt(clientTimestamp)
  {
    TrimAppendedSuffix(clientTimestamp, JpgSuffix);
  }

  /** In particular a header holding the decimal form of `t` yields an entry stamped `t`. */
  lemma EntryTimestampRoundTrip(t: int64)
    ensures FrameTimestamp(EntryName(FormatInt(t))) == Some(t)
  {
    EntryNameRoundTrip(FormatInt(t));
    ParseFormatRoundTrip(t);
  }

  /** Segments with different starts get different file names: os.Create truncates an earlier
      segment of the same stream only when a start repeats. */
  lemma SegmentNamesDistinct(streamName: string, s1: int64, s2: int64)
    requires s1 != s2
    ensures SegmentFileName(streamName, s1) != SegmentFileName(streamName, s2)
  {
    SegmentNameRoundTrip(streamName, s1);
    SegmentNameRoundTrip(streamName, s2);
  }
}
