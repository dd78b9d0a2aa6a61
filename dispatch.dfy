/** The ingestion side of a stream upload (handleStream's part loop, main.go:207-309): each part
    with a timestamp header is offered to the archive writer through a bounded hand-off without
    blocking, and written to the live transcoder, whose failure ends the loop. */
module Dispatch {
  import opened Types
  import opened Naming
  import opened Archive
  import Strconv

  /** The capacity of archiveCh (main.go:208). */
  const HandOffCapacity: nat := 300

  /** One multipart part: its X-Client-Timestamp value ("" when the header is absent, as
      Header.Get reports it), its payload, whether reading the payload succeeded, and whether the
      live sink (ffmpeg's stdin) accepts the payload. */
  datatype Part = Part(clientTimestamp: string, data: bytes, readOk: bool, sinkOk: bool)

  /** What a receive on the hand-off yields: a buffered frame, "closed and drained", or nothing
      yet (the receiver would block). */
  datatype Delivery = Item(frame: Frame) | ClosedAndDrained | WouldBlock

  /** The buffered channel archiveCh: frames in FIFO order, at most HandOffCapacity of them. */
  class HandOff {
    var buffered: seq<Frame>
    var closed: bool

    ghost predicate Valid()
      reads this
    {
      |buffered| <= HandOffCapacity
    }

    constructor ()
      ensures Valid() && buffered == [] && !closed
    {
      buffered := [];
      closed := false;
    }

    /** The non-blocking send of main.go:292-297: the frame is queued exactly when there is room.
        Sending on a closed channel panics in Go, so the sender must not have closed it. */
    method TrySend(frame: Frame) returns (sent: bool)
      requires Valid() && !closed
      modifies this
      ensures Valid() && closed == old(closed)
      ensures sent <==> |old(buffered)| < HandOffCapacity
      ensures buffered == if sent then old(buffered) + [frame] else old(buffered)
    {
      sent := |buffered| < HandOffCapacity;
      if sent {
        buffered := buffered + [frame];
      }
    }

    /** close(archiveCh) (main.go:309); closing twice panics in Go. */
    method Close()
      requires Valid() && !closed
      modifies this
      ensures Valid() && closed && buffered == old(buffered)
    {
      closed := true;
    }

    /** A receive: frames still buffered are delivered first, in order, even after the close. */
    method Receive() returns (d: Delivery)
      requires Valid()
      modifies this
      ensures Valid() && closed == old(closed)
      ensures old(buffered) != [] ==> d == Item(old(buffered)[0]) && buffered == old(buffered)[1..]
      ensures old(buffered) == [] ==> buffered == [] && d == if closed then ClosedAndDrained else WouldBlock
    {
      if buffered != [] {
        d := Item(buffered[0]);
        buffered := buffered[1..];
      } else if closed {
        d := ClosedAndDrained;
      } else {
        d := WouldBlock;
      }
    }
  }

  /** The live transcoder's input: it records the payloads it accepted, in order. */
  class LiveSink {
    var written: seq<bytes>

    constructor ()
      ensures written == []
    {
      written := [];
    }

    /** ffmpegStdin.Write; `accepts` is whether the process takes the bytes. */
    method Write(data: bytes, accepts: bool) returns (ok: bool)
      modifies this
      ensures ok == accepts
      ensures written == if accepts then old(written) + [data] else old(written)
    {
      ok := accepts;
      if accepts {
        written := written + [data];
      }
    }
  }

  /** What the loop has produced so far: the hand-off's buffer and the payloads the sink took. */
  datatype Dispatched = Dispatched(buffered: seq<Frame>, sunk: seq<bytes>)

  /** The frame a part becomes (main.go:293). */
  function FrameOf(p: Part): Frame {
    Frame(EntryName(p.clientTimestamp), p.data)
  }

  /** A part that reaches the consumers: it has a timestamp header (whatever its content) and its
      payload was read. */
  predicate Admissible(p: Part) {
    p.clientTimestamp != "" && p.readOk
  }

  /** One iteration of the part loop (main.go:278-305): the new state and whether the loop goes
      on. */
  function AdmitStep(st: Dispatched, p: Part): (r: (Dispatched, bool))
    ensures r.1 <==> !Admissible(p) || p.sinkOk
    ensures !Admissible(p) ==> r.0 == st
    ensures |st.buffered| <= HandOffCapacity ==> |r.0.buffered| <= HandOffCapacity
    ensures Admissible(p) ==> r.0.buffered == st.buffered + (if |st.buffered| < HandOffCapacity then [FrameOf(p)] else [])
    ensures Admissible(p) ==> r.0.sunk == st.sunk + (if p.sinkOk then [p.data] else [])
  {
    if !Admissible(p) then (st, true)
    else
      var buffered := if |st.buffered| < HandOffCapacity then st.buffered + [FrameOf(p)] else st.buffered;
      if p.sinkOk then (Dispatched(buffered, st.sunk + [p.data]), true)
      else (Dispatched(buffered, st.sunk), false)
  }

  /** The part loop over all parts (main.go:266-306): it stops after the first failed sink write. */
  function DispatchAll(st: Dispatched, parts: seq<Part>): (r: Dispatched)
    ensures |st.buffered| <= HandOffCapacity ==> |r.buffered| <= HandOffCapacity
    ensures |st.buffered| <= |r.buffered| && |r.sunk| <= |st.sunk| + |parts|
    decreases |parts|
  {
    if parts == [] then st
    else
      var (next, goOn) := AdmitStep(st, parts[0]);
      if goOn then DispatchAll(next, parts[1..]) else next
  }

  /** The body of the part loop. */
  method Admit(p: Part, ch: HandOff, sink: LiveSink) returns (goOn: bool)
    requires ch.Valid() && !ch.closed
    modifies ch, sink
    ensures ch.Valid() && !ch.closed
    ensures (Dispatched(ch.buffered, sink.written), goOn) ==
              AdmitStep(Dispatched(old(ch.buffered), old(sink.written)), p)
  {
    goOn := true;
    if p.clientTimestamp == "" {
      return;
    }
    if !p.readOk {
      return;
    }
    var sent := ch.TrySend(FrameOf(p));
    var ok := sink.Write(p.data, p.sinkOk);
    if !ok {
      goOn := false;
    }
  }

  /** handleStream's part loop followed by close(archiveCh) (main.go:266-309). The archive writer
      does not take frames off the hand-off during this call; its turns are ArchiverTurn. */
  method HandleStream(parts: seq<Part>, ch: HandOff, sink: LiveSink)
    requires ch.Valid() && !ch.closed
    modifies ch, sink
    ensures ch.Valid() && ch.closed
    ensures Dispatched(ch.buffered, sink.written) ==
              DispatchAll(Dispatched(old(ch.buffered), old(sink.written)), parts)
  {
    var i := 0;
    while i < |parts|
      invariant 0 <= i <= |parts|
      invariant ch.Valid() && !ch.closed
      invariant DispatchAll(Dispatched(old(ch.buffered), old(sink.written)), parts) ==
                DispatchAll(Dispatched(ch.buffered, sink.written), parts[i..])
    {
      assert parts[i..][1..] == parts[i + 1..];
      var goOn := Admit(parts[i], ch, sink);
      if !goOn {
        break;
      }
      i := i + 1;
    }
    ch.Close();
  }

  /** One turn of the archive writer's select on the hand-off (main.go:368-373): a running writer
      takes the oldest buffered frame and handles it, returns once the hand-off is closed and
      drained, and otherwise waits; a writer that has returned takes nothing. */
  method ArchiverTurn(ch: HandOff, writer: ArchiveWriter, faults: Faults)
    requires ch.Valid() && Archive.Valid(writer.State())
    modifies ch, writer
    ensures ch.Valid() && ch.closed == old(ch.closed)
    ensures !old(writer.running) ==> ch.buffered == old(ch.buffered) && writer.State() == old(writer.State())
    ensures old(writer.running) && old(ch.buffered) != [] ==>
              ch.buffered == old(ch.buffered)[1..] &&
              writer.State() == Received(old(writer.State()), old(ch.buffered)[0], faults)
    ensures old(writer.running) && old(ch.buffered) == [] ==>
              ch.buffered == [] &&
              writer.State() == if ch.closed then Stopped(old(writer.State())) else old(writer.State())
  {
    if !writer.running {
      return;
    }
    var d := ch.Receive();
    match d {
      case Item(frame) => writer.Receive(frame, faults);
      case ClosedAndDrained => writer.Close();
      case WouldBlock =>
    }
  }

  // -----------------------------------------------------------------------------------------------
  // Properties of the admission loop

  /** The index of the first admissible part the sink rejects, or the number of parts. */
  function FirstSinkFailure(parts: seq<Part>): (k: nat)
    ensures k <= |parts|
    ensures forall j :: 0 <= j < k ==> !(Admissible(parts[j]) && !parts[j].sinkOk)
    ensures k < |parts| ==> Admissible(parts[k]) && !parts[k].sinkOk
  {
    if parts == [] || (Admissible(parts[0]) && !parts[0].sinkOk) then 0
    else 1 + FirstSinkFailure(parts[1..])
  }

  /** The frames of the admissible parts, in order. */
  function AdmissibleFrames(parts: seq<Part>): seq<Frame> {
    if parts == [] then []
    else (if Admissible(parts[0]) then [FrameOf(parts[0])] else []) + AdmissibleFrames(parts[1..])
  }

  /** The payloads of the admissible parts, in order. */
  function AdmissiblePayloads(parts: seq<Part>): seq<bytes> {
    if parts == [] then []
    else (if Admissible(parts[0]) then [parts[0].data] else []) + AdmissiblePayloads(parts[1..])
  }

  /** The first `n` elements of `s` (all of them when there are fewer). */
  function Take<T>(s: seq<T>, n: nat): seq<T> {
    if n < |s| then s[..n] else s
  }

  lemma FramesOfPrefix(parts: seq<Part>, m: nat)
    requires m < |parts|
    ensures AdmissibleFrames(parts[..m + 1]) ==
              (if Admissible(parts[0]) then [FrameOf(parts[0])] else []) + AdmissibleFrames(parts[1..][..m])
    ensures AdmissiblePayloads(parts[..m + 1]) ==
              (if Admissible(parts[0]) then [parts[0].data] else []) + AdmissiblePayloads(parts[1..][..m])
  {
    assert parts[..m + 1][0] == parts[0];
    assert parts[..m + 1][1..] == parts[1..][..m];
  }

  /** A first part that does not end the loop: the loop goes on with the rest. */
  lemma DispatchAllStep(st: Dispatched, parts: seq<Part>)
    requires parts != [] && !(Admissible(parts[0]) && !parts[0].sinkOk)
    ensures DispatchAll(st, parts) == DispatchAll(AdmitStep(st, parts[0]).0, parts[1..])
    ensures FirstSinkFailure(parts) == FirstSinkFailure(parts[1..]) + 1
  {
  }

  lemma TakeCons<T>(x: T, s: seq<T>, n: nat)
    requires 0 < n
    ensures Take([x] + s, n) == [x] + Take(s, n - 1)
  {
  }

  /** One admitted part that the sink accepts, in closed form. */
  lemma AdmitAcceptedStep(st: Dispatched, p: Part, later: seq<Frame>, laterPayloads: seq<bytes>)
    requires |st.buffered| <= HandOffCapacity && !(Admissible(p) && !p.sinkOk)
    ensures var next := AdmitStep(st, p).0;
      var room: nat := HandOffCapacity - |st.buffered|;
      && AdmitStep(st, p).1
      && |next.buffered| <= HandOffCapacity
      && next.buffered + Take(later, HandOffCapacity - |next.buffered|) ==
           st.buffered + Take((if Admissible(p) then [FrameOf(p)] else []) + later, room)
      && next.sunk + laterPayloads == st.sunk + ((if Admissible(p) then [p.data] else []) + laterPayloads)
  {
    var room: nat := HandOffCapacity - |st.buffered|;
    var next := AdmitStep(st, p).0;
    if !Admissible(p) {
      assert next == st;
    } else if room > 0 {
      assert next.buffered == st.buffered + [FrameOf(p)];
      TakeCons(FrameOf(p), later, room);
    } else {
      assert next.buffered == st.buffered;
      assert Take([FrameOf(p)] + later, room) == [];
    }
  }

  /** The part loop in closed form: with f the first admissible part the sink rejects, the hand-off
      gains the frames of the admissible parts up to and including f (f's frame is offered before
      the sink write fails), newest dropped once it is full, in order; the sink receives the
      payloads of the admissible parts before f, in order. Parts without a timestamp header or
      whose payload could not be read reach neither. */
  lemma {:induction false} DispatchClosedForm(st: Dispatched, parts: seq<Part>)
    requires |st.buffered| <= HandOffCapacity
    ensures var k := FirstSinkFailure(parts);
      var offered := if k < |parts| then k + 1 else k;
      DispatchAll(st, parts) ==
        Dispatched(st.buffered + Take(AdmissibleFrames(parts[..offered]), HandOffCapacity - |st.buffered|),
                   st.sunk + AdmissiblePayloads(parts[..k]))
    decreases |parts|
  {
    if parts != [] {
      if Admissible(parts[0]) && !parts[0].sinkOk {
        DispatchStopsAtFirstPart(st, parts);
      } else {
        var next := AdmitStep(st, parts[0]).0;
        DispatchClosedForm(next, parts[1..]);
        DispatchGoesOn(st, parts);
      }
    }
  }

  /** The closed form when the first part's sink write fails. */
  lemma DispatchStopsAtFirstPart(st: Dispatched, parts: seq<Part>)
    requires |st.buffered| <= HandOffCapacity
    requires parts != [] && Admissible(parts[0]) && !parts[0].sinkOk
    ensures DispatchAll(st, parts) ==
              Dispatched(st.buffered + Take(AdmissibleFrames(parts[..1]), HandOffCapacity - |st.buffered|), st.sunk)
  {
    FramesOfPrefix(parts, 0);
  }

  /** The closed form after a first part that does not end the loop, given it for the rest. */
  lemma DispatchGoesOn(st: Dispatched, parts: seq<Part>)
    requires |st.buffered| <= HandOffCapacity
    requires parts != [] && !(Admissible(parts[0]) && !parts[0].sinkOk)
    requires var next := AdmitStep(st, parts[0]).0;
      var rest := parts[1..];
      var k' := FirstSinkFailure(rest);
      var offered' := if k' < |rest| then k' + 1 else k';
      DispatchAll(next, rest) ==
        Dispatched(next.buffered + Take(AdmissibleFrames(rest[..offered']), HandOffCapacity - |next.buffered|),
                   next.sunk + AdmissiblePayloads(rest[..k']))
    ensures var k := FirstSinkFailure(parts);
      var offered := if k < |parts| then k + 1 else k;
      DispatchAll(st, parts) ==
        Dispatched(st.buffered + Take(AdmissibleFrames(parts[..offered]), HandOffCapacity - |st.buffered|),
                   st.sunk + AdmissiblePayloads(parts[..k]))
  {
    var p, rest := parts[0], parts[1..];
    var k' := FirstSinkFailure(rest);
    var offered' := if k' < |rest| then k' + 1 else k';
    DispatchAllStep(st, parts);
    FramesOfPrefix(parts, offered');
    FramesOfPrefix(parts, k');
    AdmitAcceptedStep(st, p, AdmissibleFrames(rest[..offered']), AdmissiblePayloads(rest[..k']));
  }

  /** The header is only checked for presence (main.go:278-282): a part whose timestamp is not a
      number is still queued when there is room and written to the sink, and the archive writer
      then drops it without changing anything (main.go:375-379). */
  lemma NonNumericTimestampIsIgnoredOnlyByTheWriter(st: Dispatched, p: Part, w: Writer, faults: Faults)
    requires Admissible(p) && Strconv.ParseInt(p.clientTimestamp).None?
    requires |st.buffered| < HandOffCapacity && Archive.Valid(w)
    ensures AdmitStep(st, p).0.buffered == st.buffered + [FrameOf(p)]
    ensures p.sinkOk ==> AdmitStep(st, p).0.sunk == st.sunk + [p.data]
    ensures Received(w, FrameOf(p), faults) == w
  {
    EntryNameRoundTrip(p.clientTimestamp);
  }
}
