/**
 ARPM/1 end to end: every interleaving of publications, connections, record writes, write failures,
 disconnections and stops, with the producer's stream on one side and the consumer's validator on the other.
 The payload bytes reach the consumer only as complete records; a write cut short ends the connection.
 */
module MediaRun {
  import opened Bytes
  import opened Nals
  import opened CodecConfig
  import opened MediaWire
  import opened MediaContract
  import opened MediaStream

  /** What one accepted connection has been sent: complete records, and the unit being written. */
  datatype Consumer = Consumer(records: seq<Record>, delivered: seq<AccessUnit>, inFlight: Option<AccessUnit>)

  datatype Picture = Picture(payload: seq<byte>, timestamp: u64, keyframe: bool)

  /**
   stream is the producer's state and consumer its one connection. The other two fields are history:
   published lists every publication that passed validation, and marks gives, for each unit delivered,
   in flight or queued (in that order), its index in published.
   */
  datatype System = System(stream: Stream, consumer: Option<Consumer>, published: seq<Picture>, marks: seq<nat>)

  const START := System(EMPTY, None, [], [])

  datatype Step =
    | PublishStep(payload: seq<byte>, timestamp: u64, keyframe: bool)
    | Connect
    | PopStep
    | WriteRecord   // one record reaches the socket completely
    | Disconnect    // write error, timeout, peer gone, task cancelled or normal end: the lease is dropped
    | StopStep

  function InFlight(c: Consumer): seq<AccessUnit> {
    if c.inFlight.Some? then [c.inFlight.value] else []
  }

  /** Every unit that has been or may yet be delivered to the current consumer, in order. */
  function Units(s: System): seq<AccessUnit> {
    (if s.consumer.Some? then s.consumer.value.delivered + InFlight(s.consumer.value) else []) + s.stream.queue
  }

  function Taken(s: System): nat {
    if s.consumer.Some? then |s.consumer.value.delivered| + |InFlight(s.consumer.value)| else 0
  }

  function Flags(u: AccessUnit): byte {
    (if u.keyframe then 1 else 0) + (if u.discontinuity then 2 else 0)
  }

  /** The two payloads fixed by the setup fit a record's size field, as every ValidSetup's do. */
  predicate Fits(setup: Setup) {
    |setup.encoded| <= U32_MAX && |setup.configuration| <= U32_MAX
  }

  /** The preamble every connection starts with. */
  function Preamble(setup: Setup): seq<Record>
    requires Fits(setup)
  {
    [Record(Header(DescriptionRecord, 0, |setup.encoded|, 0, 0), setup.encoded),
     Record(Header(ConfigRecord, 0, |setup.configuration|, 1, 0), setup.configuration)]
  }

  /** write_record for an access unit; None when the payload or the serial does not fit its field. */
  function UnitRecord(u: AccessUnit, serial: nat): Option<Record> {
    if serial > U32_MAX || |u.payload| > U32_MAX then None
    else Some(Record(Header(AccessUnitRecord, Flags(u), |u.payload|, serial, u.timestamp), u.payload))
  }

  /** Units still to be delivered once the queue is cleared. */
  function KeptMarks(s: System): seq<nat> {
    if Taken(s) <= |s.marks| then s.marks[..Taken(s)] else s.marks
  }

  function PublishInto(s: System, payload: seq<byte>, timestamp: u64, keyframe: bool): System {
    if !Timely(s.stream, timestamp) then s
    else
      var (stream, outcome) := Enqueue(s.stream, payload, timestamp, keyframe);
      var kept := if |s.stream.queue| == QUEUE_LIMIT then KeptMarks(s) else s.marks;
      s.(stream := stream,
         published := s.published + [Picture(payload, timestamp, keyframe)],
         marks := if outcome.NeedKeyframe? then kept else kept + [|s.published|])
  }

  function Dropped(s: System): System {
    s.(stream := LeaseDropped(s.stream), consumer := None, marks := [])
  }

  /**
   One atomic step; a step that is not enabled changes nothing. A write already begun may still complete
   after a stop, so WriteRecord does not consult `closed`.
   */
  function Apply(setup: Setup, s: System, step: Step): System
    requires Fits(setup)
  {
    match step
    case PublishStep(payload, timestamp, keyframe) =>
      if TruePicture(setup, payload, keyframe) then PublishInto(s, payload, timestamp, keyframe) else s
    case Connect =>
      if s.stream.closed || s.stream.serving then s
      else s.(stream := s.stream.(serving := true), consumer := Some(Consumer([], [], None)))
    case PopStep =>
      if s.consumer.None? || |s.consumer.value.records| < 2 || s.consumer.value.inFlight.Some? then s
      else if s.stream.closed then Dropped(s)
      else if s.stream.queue == [] then s
      else s.(stream := s.stream.(queue := s.stream.queue[1..]),
              consumer := Some(s.consumer.value.(inFlight := Some(s.stream.queue[0]))))
    case WriteRecord =>
      if s.consumer.None? then s
      else
        var c := s.consumer.value;
        var serial := |c.records|;
        if serial < 2 then s.(consumer := Some(c.(records := c.records + [Preamble(setup)[serial]])))
        else if c.inFlight.None? then s
        else if UnitRecord(c.inFlight.value, serial).None? then Dropped(s)
        else s.(consumer := Some(Consumer(c.records + [UnitRecord(c.inFlight.value, serial).value],
                                          c.delivered + [c.inFlight.value], None)))
    case Disconnect => if s.consumer.None? then s else Dropped(s)
    case StopStep =>
      s.(stream := Stopped(s.stream), marks := KeptMarks(s))
  }

  function Run(setup: Setup, steps: seq<Step>): System
    requires Fits(setup)
  {
    if steps == [] then START else Apply(setup, Run(setup, steps[..|steps| - 1]), steps[|steps| - 1])
  }

  /** PublishInto is the producer's own publish: it changes the stream exactly as Publish does. */
  lemma PublishIntoIsPublish(setup: Setup, s: System, payload: seq<byte>, timestamp: u64, keyframe: bool)
    requires Fits(setup)
    ensures var t := Apply(setup, s, PublishStep(payload, timestamp, keyframe));
            var (stream, outcome) := Publish(setup, s.stream, payload, timestamp, keyframe);
            && t.stream == stream
            && (t.published == s.published + [Picture(payload, timestamp, keyframe)] <==>
                outcome.Queued? || outcome.NeedKeyframe? || outcome.Resynchronized?)
            && (t.published == s.published <==>
                outcome.InvalidAccessUnit? || outcome.Closed? || outcome.Timestamp?)
  {
    assert |s.published + [Picture(payload, timestamp, keyframe)]| != |s.published|;
  }

  // ---- The invariant ----

  /** The unit is this publication, and only keyframes carry the discontinuity flag. */
  predicate IsPicture(u: AccessUnit, p: Picture) {
    && u.payload == p.payload && u.timestamp == p.timestamp && u.keyframe == p.keyframe
    && (u.discontinuity ==> u.keyframe)
  }

  /** A unit is flagged exactly if it does not follow a predecessor in the published order. */
  predicate Linked(units: seq<AccessUnit>, marks: seq<nat>, i: nat)
    requires |units| == |marks| && i < |units|
  {
    units[i].discontinuity <==> i == 0 || marks[i] != marks[i - 1] + 1
  }

  ghost predicate Chain(published: seq<Picture>, units: seq<AccessUnit>, marks: seq<nat>) {
    && |units| == |marks|
    && (forall i :: 0 <= i < |units| ==> marks[i] < |published| && IsPicture(units[i], published[marks[i]]))
    && (forall i :: 0 <= i < |units| ==> Linked(units, marks, i))
    && (forall i, j :: 0 <= i < j < |units| ==> marks[i] < marks[j])
  }

  ghost predicate Ordered(published: seq<Picture>) {
    && (forall i :: 0 <= i < |published| ==> published[i].timestamp != U64_MAX)
    && forall i, j :: 0 <= i < j < |published| ==> published[i].timestamp <= published[j].timestamp
  }

  ghost predicate Truthful(setup: Setup, published: seq<Picture>) {
    forall p :: p in published ==> TruePicture(setup, p.payload, p.keyframe)
  }

  ghost predicate StreamInv(s: System) {
    && |s.stream.queue| <= QUEUE_LIMIT
    && (s.stream.serving <==> s.consumer.Some?)
    && (s.stream.needKeyframe ==> s.stream.queue == [])
    && (s.stream.lastTimestamp.Some? <==> s.published != [])
    && (s.published != [] ==> s.stream.lastTimestamp.value == s.published[|s.published| - 1].timestamp)
    // While deltas are admitted, the newest publication is the newest unit delivered or queued.
    && (!s.stream.needKeyframe && !s.stream.closed ==> s.marks != [] && s.marks[|s.marks| - 1] == |s.published| - 1)
    // While they are refused, publications have been lost since the newest unit.
    && (s.stream.needKeyframe ==> s.marks == [] || s.marks[|s.marks| - 1] + 1 < |s.published|)
  }

  ghost predicate Inv(setup: Setup, s: System)
    requires Fits(setup)
  {
    && StreamInv(s)
    && Ordered(s.published)
    && Chain(s.published, Units(s), s.marks)
    && (s.consumer.Some? ==> Transcript(setup, s.consumer.value))
  }

  /** The records are the preamble (or part of it) followed by the delivered units, numbered from 0. */
  ghost predicate Transcript(setup: Setup, c: Consumer)
    requires Fits(setup)
  {
    && |c.records| <= U32_MAX + 1
    && (|c.records| < 2 ==> c.records == Preamble(setup)[..|c.records|] && c.delivered == [] && c.inFlight.None?)
    && (|c.records| >= 2 ==>
          && c.records[..2] == Preamble(setup)
          && |c.records| == 2 + |c.delivered|
          && forall i :: 0 <= i < |c.delivered| ==> UnitRecord(c.delivered[i], i + 2) == Some(c.records[i + 2]))
  }

  lemma ChainPrefix(published: seq<Picture>, units: seq<AccessUnit>, marks: seq<nat>, n: nat)
    requires Chain(published, units, marks) && n <= |units|
    ensures Chain(published, units[..n], marks[..n])
  {
    forall i | 0 <= i < n
      ensures Linked(units[..n], marks[..n], i)
    {
      assert Linked(units, marks, i);
    }
  }

  lemma ChainGrows(published: seq<Picture>, p: Picture, units: seq<AccessUnit>, marks: seq<nat>)
    requires Chain(published, units, marks)
    ensures Chain(published + [p], units, marks)
  {
    assert forall i :: 0 <= i < |units| ==> Linked(units, marks, i);
  }

  lemma ChainSnoc(published: seq<Picture>, p: Picture, units: seq<AccessUnit>, marks: seq<nat>, u: AccessUnit)
    requires Chain(published, units, marks) && IsPicture(u, p)
    requires u.discontinuity <==> marks == [] || marks[|marks| - 1] != |published| - 1
    ensures Chain(published + [p], units + [u], marks + [|published|])
  {
    forall i | 0 <= i <= |units|
      ensures Linked(units + [u], marks + [|published|], i)
    {
      if i < |units| {
        assert Linked(units, marks, i);
      }
    }
  }

  lemma TakenUnits(s: System)
    ensures Taken(s) <= |Units(s)|
    ensures Units(s)[..Taken(s)] == Units(s.(stream := s.stream.(queue := [])))
    ensures s.stream.queue == [] ==> Taken(s) == |Units(s)|
  {
  }

  /** The units and marks that survive an overflow check. */
  function BaseUnits(s: System): seq<AccessUnit> {
    if |s.stream.queue| == QUEUE_LIMIT then Units(s.(stream := s.stream.(queue := []))) else Units(s)
  }

  function BaseMarks(s: System): seq<nat> {
    if |s.stream.queue| == QUEUE_LIMIT then KeptMarks(s) else s.marks
  }

  lemma BaseChain(s: System)
    requires Chain(s.published, Units(s), s.marks)
    ensures Chain(s.published, BaseUnits(s), BaseMarks(s))
    ensures |s.stream.queue| == QUEUE_LIMIT ==> |BaseUnits(s)| == Taken(s)
  {
    TakenUnits(s);
    ChainPrefix(s.published, Units(s), s.marks, Taken(s));
  }

  /** A cleared queue leaves a gap: three publications lie after the newest unit that survives. */
  lemma OverflowLeavesGap(s: System)
    requires Chain(s.published, Units(s), s.marks) && |s.stream.queue| == QUEUE_LIMIT
    ensures BaseMarks(s) == [] || BaseMarks(s)[|BaseMarks(s)| - 1] + 1 < |s.published|
  {
    var n := Taken(s);
    assert |s.marks| == n + QUEUE_LIMIT && s.marks[n] < s.marks[n + 1];
  }

  lemma PublishKeepsChain(s: System, payload: seq<byte>, timestamp: u64, keyframe: bool)
    requires Chain(s.published, Units(s), s.marks) && StreamInv(s)
    requires Timely(s.stream, timestamp)
    ensures var t := PublishInto(s, payload, timestamp, keyframe);
            Chain(t.published, Units(t), t.marks)
  {
    var t := PublishInto(s, payload, timestamp, keyframe);
    var p := Picture(payload, timestamp, keyframe);
    var flagged := |s.stream.queue| == QUEUE_LIMIT || s.stream.needKeyframe;
    hide Chain, Linked, IsPicture, Units, BaseUnits, BaseMarks, PublishInto, StreamInv, Timely;
    PublishIntoParts(s, payload, timestamp, keyframe);
    FlagTellsGap(s, timestamp);
    BaseChain(s);
    if flagged && !keyframe {
      UnitsRefused(s, t);
      ChainGrows(s.published, p, BaseUnits(s), BaseMarks(s));
    } else {
      var u := AccessUnit(payload, timestamp, keyframe, flagged);
      UnitsPlusQueued(s, t, u);
      Pictured(u, p);
      ChainSnoc(s.published, p, BaseUnits(s), BaseMarks(s), u);
    }
  }

  lemma Pictured(u: AccessUnit, p: Picture)
    requires u.payload == p.payload && u.timestamp == p.timestamp && u.keyframe == p.keyframe
    requires u.discontinuity ==> u.keyframe
    ensures IsPicture(u, p)
  {
  }

  /** What a timely publication does to the queue and the record. */
  lemma PublishIntoParts(s: System, payload: seq<byte>, timestamp: u64, keyframe: bool)
    requires Timely(s.stream, timestamp)
    ensures var t := PublishInto(s, payload, timestamp, keyframe);
            var flagged := |s.stream.queue| == QUEUE_LIMIT || s.stream.needKeyframe;
            var queue := if |s.stream.queue| == QUEUE_LIMIT then [] else s.stream.queue;
            && t.consumer == s.consumer
            && t.published == s.published + [Picture(payload, timestamp, keyframe)]
            && if flagged && !keyframe then t.stream.queue == queue && t.marks == BaseMarks(s)
               else && t.stream.queue == queue + [AccessUnit(payload, timestamp, keyframe, flagged)]
                    && t.marks == BaseMarks(s) + [|s.published|]
  {
    hide KeptMarks;
  }

  /** The stream asks for a keyframe, or overflows, exactly when a publication is missing after the newest unit left. */
  lemma FlagTellsGap(s: System, timestamp: u64)
    requires Chain(s.published, Units(s), s.marks) && StreamInv(s) && Timely(s.stream, timestamp)
    ensures |s.stream.queue| == QUEUE_LIMIT || s.stream.needKeyframe <==>
              BaseMarks(s) == [] || BaseMarks(s)[|BaseMarks(s)| - 1] != |s.published| - 1
  {
    hide Units, Taken, KeptMarks;
    if |s.stream.queue| == QUEUE_LIMIT {
      OverflowLeavesGap(s);
    }
    hide Chain;
  }

  lemma UnitsRefused(s: System, t: System)
    requires t.consumer == s.consumer
    requires t.stream.queue == if |s.stream.queue| == QUEUE_LIMIT then [] else s.stream.queue
    ensures Units(t) == BaseUnits(s)
  {
  }

  lemma UnitsPlusQueued(s: System, t: System, u: AccessUnit)
    requires t.consumer == s.consumer
    requires t.stream.queue == (if |s.stream.queue| == QUEUE_LIMIT then [] else s.stream.queue) + [u]
    ensures Units(t) == BaseUnits(s) + [u]
  {
  }

  /** What a published picture does to the stream, apart from the queue's contents. */
  lemma EnqueueKeeps(s: Stream, payload: seq<byte>, timestamp: u64, keyframe: bool)
    requires Timely(s, timestamp) && |s.queue| <= QUEUE_LIMIT && (s.needKeyframe ==> s.queue == [])
    ensures var (t, outcome) := Enqueue(s, payload, timestamp, keyframe);
            && |t.queue| <= QUEUE_LIMIT && t.serving == s.serving && t.lastTimestamp == Some(timestamp)
            && (t.needKeyframe <==> outcome.NeedKeyframe?)
            && (t.needKeyframe ==> t.queue == [] && (|s.queue| == QUEUE_LIMIT || s.needKeyframe))
  {
  }

  lemma PublishKeepsStreamInv(s: System, payload: seq<byte>, timestamp: u64, keyframe: bool)
    requires StreamInv(s) && Chain(s.published, Units(s), s.marks)
    ensures StreamInv(PublishInto(s, payload, timestamp, keyframe))
  {
    if |s.stream.queue| == QUEUE_LIMIT {
      OverflowLeavesGap(s);
    }
    hide Chain, Units, Taken, KeptMarks, Enqueue;
    var t := PublishInto(s, payload, timestamp, keyframe);
    if Timely(s.stream, timestamp) {
      EnqueueKeeps(s.stream, payload, timestamp, keyframe);
      assert t.marks == BaseMarks(s) || t.marks == BaseMarks(s) + [|s.published|];
    }
  }

  lemma PublishKeepsOrder(s: System, payload: seq<byte>, timestamp: u64, keyframe: bool)
    requires StreamInv(s) && Ordered(s.published)
    ensures Ordered(PublishInto(s, payload, timestamp, keyframe).published)
  {
  }

  lemma PublishKeepsInv(setup: Setup, s: System, payload: seq<byte>, timestamp: u64, keyframe: bool)
    requires Fits(setup) && Inv(setup, s)
    ensures Inv(setup, PublishInto(s, payload, timestamp, keyframe))
  {
    hide Chain, Ordered, StreamInv, Enqueue, Units;
    if Timely(s.stream, timestamp) {
      PublishKeepsChain(s, payload, timestamp, keyframe);
      PublishKeepsOrder(s, payload, timestamp, keyframe);
      PublishKeepsStreamInv(s, payload, timestamp, keyframe);
    }
  }

  lemma DropKeepsInv(setup: Setup, s: System)
    requires Fits(setup) && Inv(setup, s)
    ensures Inv(setup, Dropped(s))
  {
    hide Ordered, Transcript;
    assert Units(Dropped(s)) == [];
  }

  lemma PopKeepsInv(setup: Setup, s: System)
    requires Fits(setup) && Inv(setup, s)
    ensures Inv(setup, Apply(setup, s, PopStep))
  {
    hide Chain, Ordered;
    DropKeepsInv(setup, s);
    var t := Apply(setup, s, PopStep);
    if t != s && t != Dropped(s) {
      assert s.stream.queue == [s.stream.queue[0]] + s.stream.queue[1..];
      assert Units(t) == Units(s);
    }
  }

  lemma PreambleKeepsTranscript(setup: Setup, c: Consumer)
    requires Fits(setup) && Transcript(setup, c) && |c.records| < 2
    ensures Transcript(setup, c.(records := c.records + [Preamble(setup)[|c.records|]]))
  {
    var n := |c.records|;
    assert Preamble(setup)[..n] + [Preamble(setup)[n]] == Preamble(setup)[..n + 1];
    assert Preamble(setup)[..2] == Preamble(setup);
  }

  lemma UnitKeepsTranscript(setup: Setup, c: Consumer, u: AccessUnit)
    requires Fits(setup) && Transcript(setup, c) && |c.records| >= 2
    requires UnitRecord(u, |c.records|).Some?
    ensures Transcript(setup, Consumer(c.records + [UnitRecord(u, |c.records|).value], c.delivered + [u], None))
  {
  }

  lemma UnitsWritten(s: System, t: System)
    requires s.consumer.Some? && t.consumer.Some? && s.consumer.value.inFlight.Some? && s.stream == t.stream
    requires t.consumer.value.delivered == s.consumer.value.delivered + [s.consumer.value.inFlight.value]
    requires t.consumer.value.inFlight.None?
    ensures Units(t) == Units(s)
  {
    var c := s.consumer.value;
    assert c.delivered + [c.inFlight.value] + [] == c.delivered + [c.inFlight.value];
  }

  lemma WriteKeepsInv(setup: Setup, s: System)
    requires Fits(setup) && Inv(setup, s)
    ensures Inv(setup, Apply(setup, s, WriteRecord))
  {
    hide Chain, Ordered, Transcript;
    var t := Apply(setup, s, WriteRecord);
    if t == Dropped(s) {
      DropKeepsInv(setup, s);
    } else if t != s {
      var c := s.consumer.value;
      if |c.records| < 2 {
        PreambleKeepsTranscript(setup, c);
        assert Units(t) == Units(s);
      } else {
        UnitKeepsTranscript(setup, c, c.inFlight.value);
        UnitsWritten(s, t);
      }
    }
  }

  lemma StopKeepsStreamInv(s: System)
    requires StreamInv(s) && |s.marks| == |Units(s)|
    ensures StreamInv(s.(stream := Stopped(s.stream), marks := KeptMarks(s)))
    ensures KeptMarks(s) == s.marks[..Taken(s)]
  {
    TakenUnits(s);
    hide Units, Taken;
    if s.stream.needKeyframe {
      assert KeptMarks(s) == s.marks;
    }
  }

  lemma ChainSizes(published: seq<Picture>, units: seq<AccessUnit>, marks: seq<nat>)
    requires Chain(published, units, marks)
    ensures |marks| == |units|
  {
  }

  lemma StopKeepsInv(setup: Setup, s: System)
    requires Fits(setup) && Inv(setup, s)
    ensures Inv(setup, Apply(setup, s, StopStep))
  {
    var t := s.(stream := Stopped(s.stream), marks := KeptMarks(s));
    assert Inv(setup, t) by {
      StopKeepsChain(s);
      hide Chain, Ordered, Transcript, Units, StreamInv, Stopped, KeptMarks;
    }
  }

  lemma StopKeepsChain(s: System)
    requires StreamInv(s) && Chain(s.published, Units(s), s.marks)
    ensures var t := s.(stream := Stopped(s.stream), marks := KeptMarks(s));
            StreamInv(t) && Chain(t.published, Units(t), t.marks)
  {
    ChainSizes(s.published, Units(s), s.marks);
    hide Chain, Units, Taken, KeptMarks, StreamInv;
    var t := s.(stream := Stopped(s.stream), marks := KeptMarks(s));
    TakenUnits(s);
    StopKeepsStreamInv(s);
    ChainPrefix(s.published, Units(s), s.marks, Taken(s));
    SameUnits(s.(stream := s.stream.(queue := [])), t);
  }

  /** The units in play depend on the consumer and the queue alone. */
  lemma SameUnits(s: System, t: System)
    requires s.consumer == t.consumer && s.stream.queue == t.stream.queue
    ensures Units(s) == Units(t)
  {
  }

  lemma ConnectKeepsInv(setup: Setup, s: System)
    requires Fits(setup) && Inv(setup, s)
    ensures Inv(setup, Apply(setup, s, Connect))
  {
    hide Chain, Ordered;
    assert Units(Apply(setup, s, Connect)) == Units(s);
  }

  lemma StepKeepsInv(setup: Setup, s: System, step: Step)
    requires Fits(setup) && Inv(setup, s)
    ensures Inv(setup, Apply(setup, s, step))
  {
    hide Inv, PublishInto, TruePicture;
    match step
    case PublishStep(payload, timestamp, keyframe) => PublishKeepsInv(setup, s, payload, timestamp, keyframe);
    case Connect => ConnectKeepsInv(setup, s);
    case PopStep => PopKeepsInv(setup, s);
    case WriteRecord => WriteKeepsInv(setup, s);
    case Disconnect => DropKeepsInv(setup, s);
    case StopStep => StopKeepsInv(setup, s);
  }

  lemma {:induction false} InvAlways(setup: Setup, steps: seq<Step>)
    requires Fits(setup)
    ensures Inv(setup, Run(setup, steps))
  {
    if steps != [] {
      InvAlways(setup, steps[..|steps| - 1]);
      StepKeepsInv(setup, Run(setup, steps[..|steps| - 1]), steps[|steps| - 1]);
    }
  }

  lemma {:induction false} TruthfulAlways(setup: Setup, steps: seq<Step>)
    requires Fits(setup)
    ensures Truthful(setup, Run(setup, steps).published)
  {
    if steps != [] {
      TruthfulAlways(setup, steps[..|steps| - 1]);
    }
  }

  // ---- Theorem 1: the consumer's validator accepts every reachable stream ----

  ghost predicate Agrees(setup: Setup, v: Verdict, delivered: seq<AccessUnit>) {
    && v.nextSequence == (|delivered| + 2) % 0x1_0000_0000
    && v.length == setup.length
    && v.described && v.configured && !v.failed
    && (v.exhausted <==> |delivered| + 2 == U32_MAX + 1)
    && (v.seenFrame <==> delivered != [])
    && (delivered != [] ==> v.lastTimestamp == delivered[|delivered| - 1].timestamp)
  }

  lemma DescriptionAccepted(expected: Description, payload: seq<byte>)
    requires |payload| == DESCRIPTION_SIZE && ParseDescription(payload) == Some(expected)
    ensures Accept(expected, FRESH, Header(DescriptionRecord, 0, |payload|, 0, 0), payload) ==
            Some(FRESH.(nextSequence := 1, described := true))
  {
  }

  lemma ConfigurationAccepted(setup: Setup)
    requires ValidSetup(setup)
    ensures Accept(setup.description, FRESH.(nextSequence := 1, described := true), Preamble(setup)[1].header,
                   setup.configuration) ==
            Some(FRESH.(nextSequence := 2, described := true, configured := true, length := setup.length))
  {
    hide WellFormed, RecordLength;
  }

  lemma TwoRecordsValidated(expected: Description, first: Record, second: Record, one: Verdict, two: Verdict)
    requires LegalHeader(first.header) && Accept(expected, FRESH, first.header, first.payload) == Some(one)
    requires LegalHeader(second.header) && Accept(expected, one, second.header, second.payload) == Some(two)
    ensures Validate(expected, FRESH, [first]) == Some(one)
    ensures Validate(expected, FRESH, [first, second]) == Some(two)
  {
    ValidateSnoc(expected, FRESH, [], first);
    assert [] + [first] == [first];
    ValidateSnoc(expected, FRESH, [first], second);
    assert [first] + [second] == [first, second];
  }

  lemma PreambleAccepted(setup: Setup)
    requires ValidSetup(setup)
    ensures Validate(setup.description, FRESH, Preamble(setup)[..1]).Some?
    ensures Validate(setup.description, FRESH, Preamble(setup)).Some?
    ensures Agrees(setup, Validate(setup.description, FRESH, Preamble(setup)).value, [])
  {
    DescriptionRoundTrip(setup.description);
    DescriptionAccepted(setup.description, setup.encoded);
    ConfigurationAccepted(setup);
    var records := Preamble(setup);
    assert records[..1] == [records[0]] && records == [records[0], records[1]];
    TwoRecordsValidated(setup.description, records[0], records[1], FRESH.(nextSequence := 1, described := true),
                        FRESH.(nextSequence := 2, described := true, configured := true, length := setup.length));
  }

  /** The consumer accepts one more unit of a well-formed transcript. */
  lemma UnitAccepted(setup: Setup, v: Verdict, delivered: seq<AccessUnit>, u: AccessUnit)
    requires Agrees(setup, v, delivered)
    requires UnitRecord(u, |delivered| + 2).Some?
    requires TruePicture(setup, u.payload, u.keyframe) && u.timestamp != U64_MAX
    requires u.discontinuity ==> u.keyframe
    requires delivered == [] ==> u.discontinuity
    requires delivered != [] ==> delivered[|delivered| - 1].timestamp <= u.timestamp
    ensures var r := UnitRecord(u, |delivered| + 2).value;
            && LegalHeader(r.header)
            && Accept(setup.description, v, r.header, r.payload).Some?
            && Agrees(setup, Accept(setup.description, v, r.header, r.payload).value, delivered + [u])
  {
    hide WellFormed, HasPicture, HasKey;
  }

  /** What the consumer's validator needs of unit i. */
  predicate Deliverable(setup: Setup, units: seq<AccessUnit>, i: nat)
    requires i < |units|
  {
    && TruePicture(setup, units[i].payload, units[i].keyframe) && units[i].timestamp != U64_MAX
    && (units[i].discontinuity ==> units[i].keyframe)
    && (i == 0 ==> units[i].discontinuity)
    && (i > 0 ==> units[i - 1].timestamp <= units[i].timestamp)
  }

  lemma {:induction false} UnitsAccepted(setup: Setup, c: Consumer, n: nat)
    requires Fits(setup) && Transcript(setup, c) && |c.records| >= 2
    requires Validate(setup.description, FRESH, Preamble(setup)).Some?
    requires Agrees(setup, Validate(setup.description, FRESH, Preamble(setup)).value, [])
    requires forall i :: 0 <= i < |c.delivered| ==> Deliverable(setup, c.delivered, i)
    requires n <= |c.delivered|
    ensures Validate(setup.description, FRESH, c.records[..n + 2]).Some?
    ensures Agrees(setup, Validate(setup.description, FRESH, c.records[..n + 2]).value, c.delivered[..n])
  {
    hide WellFormed, HasPicture, HasKey;
    if n > 0 {
      UnitsAccepted(setup, c, n - 1);
      var u := c.delivered[n - 1];
      var v := Validate(setup.description, FRESH, c.records[..n + 1]).value;
      assert Deliverable(setup, c.delivered, n - 1);
      DeliverableAccepted(setup, v, c.delivered, n - 1);
      assert UnitRecord(u, n - 1 + 2) == Some(c.records[n - 1 + 2]);
      TakeSnoc(c.records, n + 1);
      ValidateSnoc(setup.description, FRESH, c.records[..n + 1], c.records[n + 1]);
    }
  }

  lemma DeliverableAccepted(setup: Setup, v: Verdict, units: seq<AccessUnit>, i: nat)
    requires i < |units| && Deliverable(setup, units, i) && Agrees(setup, v, units[..i])
    requires UnitRecord(units[i], i + 2).Some?
    ensures var r := UnitRecord(units[i], i + 2).value;
            && LegalHeader(r.header)
            && Accept(setup.description, v, r.header, r.payload).Some?
            && Agrees(setup, Accept(setup.description, v, r.header, r.payload).value, units[..i + 1])
  {
    hide WellFormed, HasPicture, HasKey;
    UnitAccepted(setup, v, units[..i], units[i]);
    TakeSnoc(units, i);
  }

  lemma ChainDeliverable(setup: Setup, published: seq<Picture>, units: seq<AccessUnit>, marks: seq<nat>, i: nat)
    requires Ordered(published) && Truthful(setup, published)
    requires Chain(published, units, marks) && i < |units|
    ensures Deliverable(setup, units, i)
  {
    assert Linked(units, marks, i);
    assert published[marks[i]] in published;
    if i > 0 {
      assert marks[i - 1] < marks[i];
    }
  }

  /**
   In every run, the complete records sent to a consumer are accepted, in order and from the first,
   by a fresh header parser and validator that expect the same description.
   */
  lemma ValidatorAcceptsEveryRun(setup: Setup, steps: seq<Step>)
    requires ValidSetup(setup)
    ensures var s := Run(setup, steps);
            s.consumer.Some? ==> Validate(setup.description, FRESH, s.consumer.value.records).Some?
  {
    InvAlways(setup, steps);
    TruthfulAlways(setup, steps);
    var s := Run(setup, steps);
    if s.consumer.Some? {
      var c := s.consumer.value;
      PreambleAccepted(setup);
      if |c.records| < 2 {
        if |c.records| == 1 {
          assert c.records == Preamble(setup)[..1];
        }
      } else {
        var n := |c.delivered|;
        ChainPrefix(s.published, Units(s), s.marks, n);
        assert Units(s)[..n] == c.delivered;
        forall i | 0 <= i < n
          ensures Deliverable(setup, c.delivered, i)
        {
          ChainDeliverable(setup, s.published, c.delivered, s.marks[..n], i);
        }
        UnitsAccepted(setup, c, n);
        assert c.records[..n + 2] == c.records;
      }
    }
  }

  // ---- Theorem 2: no broken dependency chain ----

  lemma {:induction false} ContiguousSince(units: seq<AccessUnit>, marks: seq<nat>, i: nat, j: nat)
    requires |units| == |marks| && i <= j < |units|
    requires forall k :: i < k <= j ==> Linked(units, marks, k)
    requires forall k :: i < k <= j ==> !units[k].discontinuity
    ensures forall k :: i <= k <= j ==> marks[k] == marks[i] + (k - i)
    decreases j - i
  {
    if i < j {
      ContiguousSince(units, marks, i, j - 1);
      assert Linked(units, marks, j);
    }
  }

  /** The last keyframe at or before position j. */
  function LastKey(units: seq<AccessUnit>, j: nat): (i: int)
    requires j < |units|
    ensures -1 <= i <= j
    ensures i >= 0 ==> units[i].keyframe
    ensures forall k :: i < k <= j ==> !units[k].keyframe
  {
    if units[j].keyframe then j else if j == 0 then -1 else LastKey(units, j - 1)
  }

  /** Units i..j are exactly the publications first, first + 1, and so on: none is missing, none is altered. */
  ghost predicate Intact(published: seq<Picture>, first: nat, units: seq<AccessUnit>, i: nat, j: nat)
    requires i <= j < |units|
  {
    && first + (j - i) < |published|
    && forall k :: i <= k <= j ==> IsPicture(units[k], published[first + (k - i)])
  }

  /**
   In every run, any picture delivered to a consumer is preceded by a keyframe delivered to that same
   consumer, and every picture published validly between the two was delivered, in order, in between.
   */
  lemma NoBrokenChain(setup: Setup, steps: seq<Step>, j: nat)
    requires Fits(setup)
    requires var s := Run(setup, steps); s.consumer.Some? && j < |s.consumer.value.delivered|
    ensures var s := Run(setup, steps);
            var d := s.consumer.value.delivered;
            var i := LastKey(d, j);
            && i >= 0
            && |s.marks| >= |d|
            && Intact(s.published, s.marks[i], d, i, j)
  {
    InvAlways(setup, steps);
    var s := Run(setup, steps);
    var d := s.consumer.value.delivered;
    ChainPrefix(s.published, Units(s), s.marks, |d|);
    assert Units(s)[..|d|] == d;
    var marks := s.marks[..|d|];
    SinceLastKey(s.published, d, marks, j);
    assert marks[LastKey(d, j)] == s.marks[LastKey(d, j)];
  }

  lemma SinceLastKey(published: seq<Picture>, d: seq<AccessUnit>, marks: seq<nat>, j: nat)
    requires Chain(published, d, marks) && j < |d|
    ensures var i := LastKey(d, j);
            && i >= 0
            && Intact(published, marks[i], d, i, j)
  {
    var i := LastKey(d, j);
    assert Linked(d, marks, 0);
    ContiguousSince(d, marks, Max(i, 0), j);
    forall k | i <= k <= j
      ensures IsPicture(d[k], published[marks[i] + (k - i)])
    {
      assert marks[k] == marks[i] + (k - i);
    }
  }

  /**
   Flagged as a discontinuity are exactly a consumer's first picture and every picture before which one was lost, to
   overflow or otherwise; each of these is a keyframe; and the queue is bounded.
   */
  lemma ResumesAtFlaggedKeyframe(setup: Setup, steps: seq<Step>)
    requires Fits(setup)
    ensures var s := Run(setup, steps);
            && |s.stream.queue| <= QUEUE_LIMIT
            && |s.marks| == |Units(s)|
            && forall j :: 0 <= j < |Units(s)| ==>
                 && (Units(s)[j].discontinuity ==> Units(s)[j].keyframe)
                 && (Units(s)[j].discontinuity <==> j == 0 || s.marks[j] != s.marks[j - 1] + 1)
  {
    InvAlways(setup, steps);
    var s := Run(setup, steps);
    ChainFlags(s.published, Units(s), s.marks);
    hide Units, Run, Chain, Ordered, Transcript, Truthful;
  }

  lemma ChainFlags(published: seq<Picture>, units: seq<AccessUnit>, marks: seq<nat>)
    requires Chain(published, units, marks)
    ensures |marks| == |units|
    ensures forall j :: 0 <= j < |units| ==>
              && (units[j].discontinuity ==> units[j].keyframe)
              && (units[j].discontinuity <==> j == 0 || marks[j] != marks[j - 1] + 1)
  {
    forall j | 0 <= j < |units|
      ensures units[j].discontinuity ==> units[j].keyframe
      ensures units[j].discontinuity <==> j == 0 || marks[j] != marks[j - 1] + 1
    {
      assert Linked(units, marks, j);
    }
  }
}
