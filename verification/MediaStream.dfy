/**
 The Rust producer of ARPM/1: a bounded single-consumer queue of access units with keyframe
 resynchronisation, and the consumer lease that can be dropped and retaken.
 */
module MediaStream {
  import opened Bytes
  import opened Nals
  import opened CodecConfig
  import opened MediaWire

  const QUEUE_LIMIT := 3

  datatype AccessUnit = AccessUnit(payload: seq<byte>, timestamp: u64, keyframe: bool, discontinuity: bool)

  /** What VideoStream::new fixes for the stream's lifetime. */
  datatype Setup = Setup(description: Description, encoded: seq<byte>, configuration: seq<byte>, length: nat)

  predicate ValidSetup(setup: Setup) {
    && Encode(setup.description) == Some(setup.encoded)
    && setup.description.plane == MainPlane
    && var d := setup.description;
       ConfigurationLength(setup.configuration, d.codec, d.framing) == Some(setup.length)
  }

  datatype Stream = Stream(
    queue: seq<AccessUnit>, needKeyframe: bool, serving: bool, closed: bool, lastTimestamp: Option<u64>)

  const EMPTY := Stream([], true, false, false, None)

  datatype Outcome = Queued | NeedKeyframe | Resynchronized | InvalidAccessUnit | Closed | Timestamp

  /** The payload is a picture of the stream's codec, with the keyframe flag it deserves. */
  predicate TruePicture(setup: Setup, payload: seq<byte>, keyframe: bool) {
    var d := setup.description;
    && 0 < |payload| <= ACCESS_UNIT_LIMIT
    && WellFormed(payload, d.codec, d.framing, setup.length, false)
    && HasPicture(payload, d.codec, d.framing, setup.length)
    && keyframe == HasKey(payload, d.codec, d.framing, setup.length)
  }

  /** The timing half of validity: the stream is open and time does not run backwards. */
  predicate Timely(s: Stream, timestamp: u64) {
    && !s.closed
    && timestamp != U64_MAX
    && (s.lastTimestamp.Some? ==> s.lastTimestamp.value <= timestamp)
  }

  /** The locked section of publish: what happens to a picture whose payload is in order. */
  function Enqueue(s: Stream, payload: seq<byte>, timestamp: u64, keyframe: bool): (Stream, Outcome) {
    if s.closed then (s, Closed)
    else if timestamp == U64_MAX || (s.lastTimestamp.Some? && timestamp < s.lastTimestamp.value) then (s, Timestamp)
    else
      var full := |s.queue| == QUEUE_LIMIT;
      var queue := if full then [] else s.queue;
      var need := full || s.needKeyframe;
      var stamped := s.(lastTimestamp := Some(timestamp), queue := queue, needKeyframe := need);
      if need && !keyframe then (stamped, NeedKeyframe)
      else (stamped.(needKeyframe := false, queue := queue + [AccessUnit(payload, timestamp, keyframe, need)]),
            if need then Resynchronized else Queued)
  }

  function Publish(setup: Setup, s: Stream, payload: seq<byte>, timestamp: u64, keyframe: bool): (Stream, Outcome) {
    if TruePicture(setup, payload, keyframe) then Enqueue(s, payload, timestamp, keyframe) else (s, InvalidAccessUnit)
  }

  function Stopped(s: Stream): Stream {
    s.(closed := true, queue := [])
  }

  function LeaseDropped(s: Stream): Stream {
    s.(serving := false, queue := [], needKeyframe := true)
  }

  /** `VideoStream` with its mutex-guarded state. */
  class VideoStream {
    const setup: Setup
    var queue: seq<AccessUnit>
    var needKeyframe: bool
    var serving: bool
    var closed: bool
    var lastTimestamp: Option<u64>

    constructor (setup: Setup)
      requires ValidSetup(setup)
      ensures this.setup == setup && View() == EMPTY
    {
      this.setup := setup;
      queue, needKeyframe, serving, closed, lastTimestamp := [], true, false, false, None;
    }

    ghost function View(): Stream
      reads this
    {
      Stream(queue, needKeyframe, serving, closed, lastTimestamp)
    }

    /** `VideoStream::new`: None for an illegal description or configuration. */
    static method New(description: Description, configuration: seq<byte>) returns (r: VideoStream?)
      ensures r == null <==>
              || !LegalDescription(description) || description.plane != MainPlane
              || ConfigurationLength(configuration, description.codec, description.framing).None?
      ensures r != null ==> fresh(r) && r.View() == EMPTY && ValidSetup(r.setup)
      ensures r != null ==> r.setup.description == description && r.setup.configuration == configuration
    {
      var encoded := Encode(description);
      if encoded.None? || description.plane != MainPlane {
        return null;
      }
      var length := Configuration(configuration, description.codec, description.framing);
      if length.None? {
        return null;
      }
      r := new VideoStream(Setup(description, encoded.value, configuration, length.value));
    }

    method PublishUnit(payload: seq<byte>, timestamp: u64, keyframe: bool) returns (outcome: Outcome)
      requires ValidSetup(setup)
      modifies this
      ensures (View(), outcome) == Publish(setup, old(View()), payload, timestamp, keyframe)
    {
      if |payload| == 0 || |payload| > ACCESS_UNIT_LIMIT {
        return InvalidAccessUnit;
      }
      var nals := InspectNals(payload, setup.description.codec, setup.description.framing, setup.length, false);
      if nals.None? || !nals.value.picture || nals.value.keyframe != keyframe {
        return InvalidAccessUnit;
      }
      if closed {
        return Closed;
      }
      if timestamp == U64_MAX || (lastTimestamp.Some? && timestamp < lastTimestamp.value) {
        return Timestamp;
      }
      lastTimestamp := Some(timestamp);
      if |queue| == QUEUE_LIMIT {
        queue := [];
        needKeyframe := true;
      }
      if needKeyframe && !keyframe {
        return NeedKeyframe;
      }
      var discontinuity := needKeyframe;
      needKeyframe := false;
      queue := queue + [AccessUnit(payload, timestamp, keyframe, discontinuity)];
      return if discontinuity then Resynchronized else Queued;
    }

    method Stop()
      modifies this
      ensures View() == Stopped(old(View()))
    {
      closed := true;
      queue := [];
    }

    /** The first locked section of send_to. */
    method TakeLease() returns (taken: bool)
      modifies this
      ensures taken <==> !old(closed) && !old(serving)
      ensures View() == if taken then old(View()).(serving := true) else old(View())
    {
      if closed || serving {
        return false;
      }
      serving := true;
      return true;
    }

    /** `ConsumerLease::drop`. */
    method DropLease()
      modifies this
      ensures View() == LeaseDropped(old(View()))
    {
      serving := false;
      queue := [];
      needKeyframe := true;
    }

    /** The locked section of the send loop, when the stream is open. */
    method Pop() returns (unit: Option<AccessUnit>)
      modifies this
      ensures unit.Some? <==> old(queue) != []
      ensures unit.Some? ==> old(queue) == [unit.value] + queue
      ensures View() == old(View()).(queue := queue) && (unit.None? ==> queue == [])
    {
      if queue == [] {
        return None;
      }
      unit := Some(queue[0]);
      queue := queue[1..];
    }
  }
}
