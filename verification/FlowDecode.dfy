/** One packet of a flow through reassembly and classification (flow_decode_stream_app in src/capture.c). */
module FlowDecode {
  import opened Bytes
  import opened SerialNumbers
  import opened StreamBuffers
  import opened TcpReassembly
  import opened AppMetadata
  import opened AppDecoder

  datatype Way = AToB | BToA

  /** The TCP metadata of a packet that reassembly reads; `windowed` says that the captured payload is
      longer than the packet's own decode window. */
  datatype TcpView = TcpView(hasSequence: bool, sequence: uint32, flags: byte, hasPayload: bool, windowed: bool,
                             payload: Payload, ports: Ports)

  /** The per-flow state that reassembly and classification touch; a flow is classified once it has
      application metadata. */
  datatype Conversation = Conversation(app: Option<AppInfo>, streamBytes: nat, aToB: Direction, bToA: Direction) {
    function At(way: Way): Direction {
      if way == AToB then aToB else bToA
    }

    function With(way: Way, d: Direction): Conversation {
      if way == AToB then this.(aToB := d) else this.(bToA := d)
    }
  }

  datatype Status = StatusNoMatch | StatusNeedMore | StatusMalformed | StatusTruncated | StatusDecoded

  /** `app_decode_status_from_result`. */
  function StatusOf(d: Decoding, p: TcpView): Status {
    match d
    case NoMatch => StatusNoMatch
    case NeedMore => if p.hasPayload && p.windowed then StatusTruncated else StatusNeedMore
    case Malformed => StatusMalformed
    case Decoded(_) => StatusDecoded
  }

  ghost predicate WellBounded(c: Conversation) {
    Bounded(c.aToB) && Bounded(c.bToA)
  }

  /** Nothing to decode: only the teardown flags are tracked. */
  predicate OnlyTracks(c: Conversation, p: TcpView) {
    c.app.Some? || !p.hasPayload || p.payload.Length() == 0
  }

  /** The direction a payload is processed on; one without a buffer is initialised from scratch. */
  function Prepared(c: Conversation, way: Way): Direction {
    if c.At(way).stream.live then c.At(way) else Initialized(c.streamBytes)
  }

  lemma PreparedIsBounded(c: Conversation, way: Way)
    requires WellBounded(c)
    ensures Bounded(Prepared(c, way))
  {
  }

  function ReleasedAll(c: Conversation): Conversation {
    c.(aToB := ReleasedBuffers(c.aToB), bToA := ReleasedBuffers(c.bToA))
  }

  function Classified(c: Conversation, info: AppInfo): Conversation {
    ReleasedAll(c.(app := Some(info)))
  }

  /** What the step does with a direction that has processed a segment. */
  function Concluded(c: Conversation, way: Way, p: TcpView, d: Direction, result: Result): (Conversation, Status) {
    if result == Dropped then (c.With(way, d), StatusTruncated)
    else
      var verdict := StreamDecoding(p.ports, d.stream.unread);
      (if verdict.Decoded? then Classified(c.With(way, d), verdict.info) else c.With(way, d), StatusOf(verdict, p))
  }

  /** `flow_decode_stream_app` on a TCP packet. */
  function Step(c: Conversation, way: Way, p: TcpView): (Conversation, Status)
    requires WellBounded(c)
  {
    if !p.hasSequence then (c, StatusNoMatch)
    else if OnlyTracks(c, p) then (c.With(way, TrackedFlags(c.At(way), p.flags)), StatusNoMatch)
    else if c.streamBytes == 0 then (c, StatusMalformed)
    else
      PreparedIsBounded(c, way);
      var (d, result) := Processed(Prepared(c, way), p.sequence, p.flags, p.payload);
      Concluded(c, way, p, d, result)
  }

  /** A flow's two directions and its classification, updated in place. */
  class Flow {
    var app: Option<AppInfo>
    const streamBytes: nat
    const aToB: ReassemblyDirection
    const bToA: ReassemblyDirection

    ghost predicate Valid()
      reads this, aToB, aToB.stream, aToB.stream.data, aToB.store, aToB.store.segments
      reads bToA, bToA.stream, bToA.stream.data, bToA.store, bToA.store.segments
    {
      && aToB.Valid() && bToA.Valid() && aToB != bToA
      && aToB.stream != bToA.stream && aToB.store != bToA.store && aToB.store.segments != bToA.store.segments
      && (aToB.stream.data != null ==> aToB.stream.data != bToA.stream.data)
    }

    ghost function State(): Conversation
      requires Valid()
      reads this, aToB, aToB.stream, aToB.stream.data, aToB.store, aToB.store.segments
      reads bToA, bToA.stream, bToA.stream.data, bToA.store, bToA.store.segments
    {
      Conversation(app, streamBytes, aToB.State(), bToA.State())
    }

    /** The objects of the flow. */
    ghost function Footprint(): set<object>
      reads aToB.stream, bToA.stream
    {
      {this, aToB, aToB.stream, aToB.store, aToB.store.segments, bToA, bToA.stream, bToA.store, bToA.store.segments}
      + (if aToB.stream.data == null then {} else {aToB.stream.data})
      + (if bToA.stream.data == null then {} else {bToA.stream.data})
    }

    constructor (bufferBytes: nat)
      ensures Valid() && State() == Conversation(None, bufferBytes, ZEROED, ZEROED) && fresh(Footprint())
    {
      app, streamBytes := None, bufferBytes;
      aToB := new ReassemblyDirection();
      bToA := new ReassemblyDirection();
    }

    /** `flow_release_reassembly_buffers` with the classification that calls for it. */
    method Classify(info: AppInfo)
      requires Valid()
      modifies this, aToB.stream, aToB.store, bToA.stream, bToA.store
      ensures Valid() && State() == Classified(old(State()), info)
      ensures Footprint() <= old(Footprint())
    {
      hide Bounded;
      app := Some(info);
      aToB.ReleaseBuffers();
      bToA.ReleaseBuffers();
    }

    /** Prepares the direction of a payload and hands it the segment. */
    method Reassemble(way: Way, p: TcpView) returns (ok: bool, result: Result)
      requires Valid()
      modifies aToB, aToB.stream, aToB.stream.data, aToB.store, aToB.store.segments
      modifies bToA, bToA.stream, bToA.stream.data, bToA.store, bToA.store.segments
      ensures Valid() && ok == (streamBytes > 0)
      ensures !ok ==> State() == old(State())
      ensures fresh(Footprint() - old(Footprint()))
      ensures ok ==> Bounded(Prepared(old(State()), way)) &&
                     var (d, r) := Processed(Prepared(old(State()), way), p.sequence, p.flags, p.payload);
                     State() == old(State()).With(way, d) && result == r
    {
      hide Processed, Bounded;
      ok, result := streamBytes > 0, Dropped;
      if !ok {
        return;
      }
      PreparedIsBounded(State(), way);
      if way == AToB {
        if aToB.stream.data == null {
          ok := aToB.Init(streamBytes);
        }
        result := aToB.ProcessSegment(p.sequence, p.flags, p.payload);
      } else {
        if bToA.stream.data == null {
          ok := bToA.Init(streamBytes);
        }
        result := bToA.ProcessSegment(p.sequence, p.flags, p.payload);
      }
    }

    method TrackFlags(way: Way, flags: byte)
      requires Valid()
      modifies aToB, bToA
      ensures Valid() && State() == old(State()).With(way, TrackedFlags(old(State()).At(way), flags))
      ensures Footprint() == old(Footprint())
    {
      hide Bounded, TrackedFlags;
      if way == AToB {
        TrackKeepsBounds(aToB.State(), flags);
        aToB.TrackFlags(flags);
      } else {
        TrackKeepsBounds(bToA.State(), flags);
        bToA.TrackFlags(flags);
      }
    }

    method DecodeStreamApp(way: Way, p: TcpView) returns (decoded: bool, status: Status)
      requires Valid()
      modifies this, aToB, aToB.stream, aToB.stream.data, aToB.store, aToB.store.segments
      modifies bToA, bToA.stream, bToA.stream.data, bToA.store, bToA.store.segments
      ensures Valid() && (State(), status) == Step(old(State()), way, p)
      ensures fresh(Footprint() - old(Footprint()))
      ensures decoded == (old(app).None? && app.Some?)
    {
      hide Processed, StreamDecoding, Bounded, TrackedFlags, ReleasedBuffers;
      decoded, status := false, StatusNoMatch;
      if !p.hasSequence {
        return;
      }
      if app.Some? || !p.hasPayload || p.payload.Length() == 0 {
        TrackFlags(way, p.flags);
        return;
      }
      var ok, result := Reassemble(way, p);
      if !ok {
        return false, StatusMalformed;
      }
      if result == Dropped {
        return false, StatusTruncated;
      }
      var bytes := if way == AToB then aToB.stream.Data() else bToA.stream.Data();
      var verdict := DecodeStream(p.ports, bytes);
      status := StatusOf(verdict, p);
      if verdict.Decoded? {
        Classify(verdict.info);
        decoded := true;
      }
    }
  }

  lemma TrackKeepsBounds(d: Direction, flags: byte)
    requires Bounded(d)
    ensures Bounded(TrackedFlags(d, flags))
  {
  }
}
