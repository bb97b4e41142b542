/**
 Android Auto framing: packets on a byte stream, the reassembly of fragmented messages by channel, and the cutting of
 TLS records into frames. Decryption between the two layers is taken as the identity.
 */
module AaWire {
  import opened Bytes
  import opened Chunking

  const MAX_MESSAGE: nat := 4 * 1024 * 1024
  const BUFFER_LIMIT: nat := 128 * 1024
  const READ_SIZE: nat := 16384
  const OPEN_LIMIT: nat := 16

  datatype Fault =
    | ReceiveBufferLimit | UnknownFlags | EmptyFrame | DeclarationLimit
    | FragmentOverwritten | TooManyChannels | ReassemblyLimit | NoFirstFragment | FlagsChanged
    | OutboundFrameLimit | ShortRecordHeader | ShortRecord

  datatype Outcome<+T> = Fine(value: T) | Fail(fault: Fault)

  predicate First(flags: byte) { flags % 2 == 1 }

  predicate Last(flags: byte) { flags / 2 % 2 == 1 }

  /** `flags & 0x0c`. */
  function Kept(flags: byte): byte {
    flags / 4 % 4 * 4
  }

  // ---- Packets on the stream ----

  datatype Packet = Packet(channel: byte, flags: byte, bytes: seq<byte>)

  datatype Reading = More | Got(packet: Packet, rest: seq<byte>) | Bad(fault: Fault)

  function HeaderSize(flags: byte): nat {
    if flags % 4 == 1 then 8 else 4
  }

  /** `PacketDecoder::packet` on the buffered bytes. */
  function PacketAt(buffer: seq<byte>): (r: Reading)
    ensures r.Got? ==> |r.rest| < |buffer|
    ensures r.More? ==> |buffer| < 8 + 0x1_0000
  {
    if |buffer| < 4 then More
    else
      var flags := buffer[1];
      var size := U16(buffer[2], buffer[3]);
      var header := HeaderSize(flags);
      if flags > 0x0f then Bad(UnknownFlags)
      else if size == 0 then Bad(EmptyFrame)
      else if |buffer| < header then More
      else if header == 8 && !(0 < U32At(buffer, 4) <= MAX_MESSAGE) then Bad(DeclarationLimit)
      else if |buffer| < header + size then More
      else Got(Packet(buffer[0], flags, buffer[header..header + size]), buffer[header + size..])
  }

  class PacketDecoder {
    var buffered: seq<byte>

    constructor ()
      ensures buffered == []
    {
      buffered := [];
    }

    method Push(bytes: seq<byte>) returns (r: Outcome<()>)
      modifies this
      ensures r == if |old(buffered)| + |bytes| > BUFFER_LIMIT then Fail(ReceiveBufferLimit) else Fine(())
      ensures buffered == if r.Fine? then old(buffered) + bytes else old(buffered)
    {
      if |buffered| + |bytes| > BUFFER_LIMIT {
        return Fail(ReceiveBufferLimit);
      }
      buffered := buffered + bytes;
      return Fine(());
    }

    method Next() returns (r: Outcome<Option<Packet>>)
      modifies this
      ensures match PacketAt(old(buffered))
              case More => r == Fine(None) && buffered == old(buffered)
              case Bad(fault) => r == Fail(fault) && buffered == old(buffered)
              case Got(packet, rest) => r == Fine(Some(packet)) && buffered == rest
    {
      if |buffered| < 4 {
        return Fine(None);
      }
      var flags := buffered[1];
      if flags > 0x0f {
        return Fail(UnknownFlags);
      }
      var size := U16(buffered[2], buffered[3]);
      if size == 0 {
        return Fail(EmptyFrame);
      }
      var header := HeaderSize(flags);
      if |buffered| < header {
        return Fine(None);
      }
      if header == 8 {
        var total := U32At(buffered, 4);
        if total == 0 || total > MAX_MESSAGE {
          return Fail(DeclarationLimit);
        }
      }
      if |buffered| < header + size {
        return Fine(None);
      }
      var packet := Packet(buffered[0], flags, buffered[header..header + size]);
      buffered := buffered[header + size..];
      return Fine(Some(packet));
    }
  }

  /** All packets of a buffer: what was read, the fault that ended it if one did, and the bytes left over. */
  datatype Drained = Drained(packets: seq<Packet>, fault: Option<Fault>, rest: seq<byte>)

  function Drain(buffer: seq<byte>): (r: Drained)
    ensures r.fault.None? ==> |r.rest| < 8 + 0x1_0000
    decreases |buffer|
  {
    match PacketAt(buffer)
    case More => Drained([], None, buffer)
    case Bad(fault) => Drained([], Some(fault), buffer)
    case Got(packet, rest) =>
      var d := Drain(rest);
      d.(packets := [packet] + d.packets)
  }

  /** The session loop: read a piece of the stream only when the decoder has no packet left, and stop at a fault. */
  function Feed(buffered: seq<byte>, inputs: seq<seq<byte>>): Drained
    decreases |inputs|
  {
    if inputs == [] then Drain(buffered)
    else
      var d := Drain(buffered);
      if d.fault.Some? then d
      else if |d.rest| + |inputs[0]| > BUFFER_LIMIT then d.(fault := Some(ReceiveBufferLimit))
      else
        var e := Feed(d.rest + inputs[0], inputs[1..]);
        e.(packets := d.packets + e.packets)
  }

  /** What is decided about a buffer stays decided when more bytes follow. */
  lemma PacketAtMonotone(buffer: seq<byte>, more: seq<byte>)
    ensures match PacketAt(buffer)
            case More => true
            case Bad(fault) => PacketAt(buffer + more) == Bad(fault)
            case Got(packet, rest) => PacketAt(buffer + more) == Got(packet, rest + more)
  {
    hide U32At, U16;
    var all := buffer + more;
    if |buffer| >= 4 {
      var header := HeaderSize(buffer[1]);
      var size := U16(buffer[2], buffer[3]);
      if |buffer| >= 8 {
        assert all[4..8] == buffer[4..8];
        U32Slice(all, 4);
        U32Slice(buffer, 4);
      }
      if |buffer| >= header + size {
        assert all[header..header + size] == buffer[header..header + size];
        assert all[header + size..] == buffer[header + size..] + more;
      }
    }
  }

  function After(d: Drained, e: Drained): Drained {
    Drained(d.packets + e.packets, e.fault, e.rest)
  }

  lemma {:induction false} DrainAppend(buffer: seq<byte>, more: seq<byte>)
    ensures var d := Drain(buffer);
            && (d.fault.None? ==> Drain(buffer + more) == After(d, Drain(d.rest + more)))
            && (d.fault.Some? ==> Drain(buffer + more).packets == d.packets && Drain(buffer + more).fault == d.fault)
    decreases |buffer|
  {
    hide PacketAt;
    PacketAtMonotone(buffer, more);
    match PacketAt(buffer)
    case Got(packet, rest) =>
      DrainAppend(rest, more);
      var d, e := Drain(rest), Drain(Drain(rest).rest + more);
      assert [packet] + (d.packets + e.packets) == [packet] + d.packets + e.packets;
    case More =>
      assert [] + Drain(buffer + more).packets == Drain(buffer + more).packets;
    case Bad(fault) =>
  }

  /**
   For every byte stream and every way to read it in pieces of at most 16 KiB, the packets are those of the stream read
   at once and the receive buffer limit is never met.
   */
  lemma {:induction false} ChunkingIsInvisible(buffered: seq<byte>, inputs: seq<seq<byte>>)
    requires forall i :: 0 <= i < |inputs| ==> |inputs[i]| <= READ_SIZE
    ensures Feed(buffered, inputs).packets == Drain(buffered + Concat(inputs)).packets
    ensures Feed(buffered, inputs).fault == Drain(buffered + Concat(inputs)).fault
    ensures Feed(buffered, inputs).fault.None? ==> Feed(buffered, inputs).rest == Drain(buffered + Concat(inputs)).rest
    decreases |inputs|
  {
    hide Drain, PacketAt;
    if inputs == [] {
      assert buffered + Concat(inputs) == buffered;
    } else {
      var d := Drain(buffered);
      DrainAppend(buffered, Concat(inputs));
      if d.fault.None? {
        ChunkingIsInvisible(d.rest + inputs[0], inputs[1..]);
        assert d.rest + inputs[0] + Concat(inputs[1..]) == d.rest + Concat(inputs);
      }
    }
  }

  // ---- Reassembly ----

  /** By channel: the flags its message opened with, and the bytes so far. */
  type Fragments = map<byte, (byte, seq<byte>)>

  /** Bytes held for the channels below n. */
  function HeldBelow(fragments: Fragments, n: nat): nat
    requires n <= 256
  {
    if n == 0 then 0
    else HeldBelow(fragments, n - 1) + if n - 1 in fragments then |fragments[n - 1].1| else 0
  }

  function Held(fragments: Fragments): nat {
    HeldBelow(fragments, 256)
  }

  /** The part of accept that adds bytes to a message already opened. */
  function Extend(fragments: Fragments, p: Packet): (Fragments, Outcome<Option<seq<byte>>>) {
    if Held(fragments) + |p.bytes| > MAX_MESSAGE then (fragments, Fail(ReassemblyLimit))
    else if p.channel !in fragments then (fragments, Fail(NoFirstFragment))
    else if fragments[p.channel].0 != Kept(p.flags) then (fragments, Fail(FlagsChanged))
    else
      var data := fragments[p.channel].1 + p.bytes;
      if Last(p.flags) then (fragments - {p.channel}, Fine(Some(data)))
      else (fragments[p.channel := (Kept(p.flags), data)], Fine(None))
  }

  /** `Messages::accept`. */
  function Accept(fragments: Fragments, p: Packet): (Fragments, Outcome<Option<seq<byte>>>) {
    if !First(p.flags) then Extend(fragments, p)
    else if p.channel in fragments then (fragments, Fail(FragmentOverwritten))
    else if Last(p.flags) then (fragments, Fine(Some(p.bytes)))
    else if |fragments| >= OPEN_LIMIT then (fragments, Fail(TooManyChannels))
    else Extend(fragments[p.channel := (Kept(p.flags), [])], p)
  }

  class Messages {
    var fragments: Fragments

    constructor ()
      ensures fragments == map[]
    {
      fragments := map[];
    }

    method Take(p: Packet) returns (r: Outcome<Option<seq<byte>>>)
      modifies this
      ensures (fragments, r) == Accept(old(fragments), p)
    {
      if First(p.flags) {
        if p.channel in fragments {
          return Fail(FragmentOverwritten);
        }
        if Last(p.flags) {
          return Fine(Some(p.bytes));
        }
        if |fragments| >= OPEN_LIMIT {
          return Fail(TooManyChannels);
        }
        fragments := fragments[p.channel := (Kept(p.flags), [])];
      }
      var total := 0;
      for channel := 0 to 256
        invariant total == HeldBelow(fragments, channel)
      {
        if channel in fragments {
          total := total + |fragments[channel].1|;
        }
      }
      if total + |p.bytes| > MAX_MESSAGE {
        return Fail(ReassemblyLimit);
      }
      if p.channel !in fragments {
        return Fail(NoFirstFragment);
      }
      var (original, data) := fragments[p.channel];
      if original != Kept(p.flags) {
        return Fail(FlagsChanged);
      }
      data := data + p.bytes;
      if Last(p.flags) {
        fragments := fragments - {p.channel};
        return Fine(Some(data));
      }
      fragments := fragments[p.channel := (original, data)];
      return Fine(None);
    }
  }

  /** A run of the reassembly: what is open, the messages completed in order, and the fault that ended it. */
  datatype Assembly = Assembly(fragments: Fragments, done: seq<(byte, seq<byte>)>, fault: Option<Fault>)

  function Assemble(packets: seq<Packet>): Assembly {
    if packets == [] then Assembly(map[], [], None)
    else
      var n := |packets| - 1;
      var a := Assemble(packets[..n]);
      if a.fault.Some? then a
      else match Accept(a.fragments, packets[n])
        case (fragments, Fail(fault)) => Assembly(fragments, a.done, Some(fault))
        case (fragments, Fine(None)) => Assembly(fragments, a.done, None)
        case (fragments, Fine(Some(message))) => Assembly(fragments, a.done + [(packets[n].channel, message)], None)
  }

  // ---- The sender ----

  function FrameBytes(channel: byte, flags: byte, payload: seq<byte>): Outcome<seq<byte>> {
    if payload == [] || |payload| > 0xffff then Fail(OutboundFrameLimit)
    else Fine([channel, flags] + Word(|payload|) + payload)
  }

  /** The TLS records that records is made of. */
  function Split(records: seq<byte>): Outcome<seq<seq<byte>>>
    decreases |records|
  {
    if records == [] then Fine([])
    else if |records| < 5 then Fail(ShortRecordHeader)
    else
      var length := 5 + U16(records[3], records[4]);
      if length > |records| then Fail(ShortRecord)
      else match Split(records[length..])
        case Fail(fault) => Fail(fault)
        case Fine(pieces) => Fine([records[..length]] + pieces)
  }

  lemma {:induction false} SplitJoins(records: seq<byte>)
    requires Split(records).Fine?
    ensures Concat(Split(records).value) == records
    ensures forall i :: 0 <= i < |Split(records).value| ==> |Split(records).value[i]| >= 5
    decreases |records|
  {
    if records != [] {
      var length := 5 + U16(records[3], records[4]);
      SplitJoins(records[length..]);
      assert Split(records).value[1..] == Split(records[length..]).value;
      assert records == records[..length] + records[length..];
    }
  }

  /** First piece 1, last piece 2, control 4, encrypted 8. */
  function FlagsOf(control: bool, index: nat, count: nat): byte {
    8 + (if control then 4 else 0) + (if index == 0 then 1 else 0) + (if index + 1 == count then 2 else 0)
  }

  /** One piece of a message on the wire; an opening piece of several declares the size of the whole. */
  function PieceBytes(channel: byte, control: bool, pieces: seq<seq<byte>>, index: nat, total: nat): Outcome<seq<byte>>
    requires index < |pieces|
  {
    var flags := FlagsOf(control, index, |pieces|);
    match FrameBytes(channel, flags, pieces[index])
    case Fail(fault) => Fail(fault)
    case Fine(packet) =>
      Fine(if flags % 4 == 1 then packet[..4] + Long(total) + packet[4..] else packet)
  }

  /** The first n pieces on the wire. */
  function Frames(channel: byte, control: bool, pieces: seq<seq<byte>>, n: nat, total: nat): Outcome<seq<byte>>
    requires n <= |pieces|
  {
    if n == 0 then Fine([])
    else match Frames(channel, control, pieces, n - 1, total)
      case Fail(fault) => Fail(fault)
      case Fine(wire) =>
        match PieceBytes(channel, control, pieces, n - 1, total)
        case Fail(fault) => Fail(fault)
        case Fine(packet) => Fine(wire + packet)
  }

  function EncryptedFrames(channel: byte, control: bool, records: seq<byte>): Outcome<seq<byte>> {
    match Split(records)
    case Fail(fault) => Fail(fault)
    case Fine(pieces) => Frames(channel, control, pieces, |pieces|, |records|)
  }

  ghost function Prepend(pieces: seq<seq<byte>>, r: Outcome<seq<seq<byte>>>): Outcome<seq<seq<byte>>> {
    match r case Fail(fault) => Fail(fault) case Fine(rest) => Fine(pieces + rest)
  }

  lemma PrependStep(pieces: seq<seq<byte>>, piece: seq<byte>, r: Outcome<seq<seq<byte>>>)
    ensures Prepend(pieces, Prepend([piece], r)) == Prepend(pieces + [piece], r)
  {
    if r.Fine? {
      assert pieces + ([piece] + r.value) == pieces + [piece] + r.value;
    }
  }

  lemma {:induction false} FramesFailForGood(
    channel: byte, control: bool, pieces: seq<seq<byte>>, i: nat, n: nat, total: nat)
    requires i <= n <= |pieces| && Frames(channel, control, pieces, i, total).Fail?
    ensures Frames(channel, control, pieces, n, total) == Frames(channel, control, pieces, i, total)
  {
    if i < n {
      FramesFailForGood(channel, control, pieces, i, n - 1, total);
    }
  }

  /** The first loop of `encrypted_frames`: find the records. */
  method FindRecords(records: seq<byte>) returns (r: Outcome<seq<seq<byte>>>)
    ensures r == Split(records)
  {
    hide U16;
    var pieces: seq<seq<byte>> := [];
    var offset := 0;
    assert Prepend([], Split(records)) == Split(records) by {
      if Split(records).Fine? {
        assert [] + Split(records).value == Split(records).value;
      }
    }
    assert records[0..] == records;
    while offset < |records|
      invariant offset <= |records|
      invariant Split(records) == Prepend(pieces, Split(records[offset..]))
    {
      var left := records[offset..];
      if |left| < 5 {
        return Fail(ShortRecordHeader);
      }
      var length := 5 + U16(records[offset + 3], records[offset + 4]);
      if offset + length > |records| {
        return Fail(ShortRecord);
      }
      PrependStep(pieces, left[..length], Split(left[length..]));
      Suffix(records, offset, length);
      pieces := pieces + [records[offset..offset + length]];
      offset := offset + length;
    }
    assert pieces + [] == pieces;
    return Fine(pieces);
  }

  /** `encrypted_frames`: find the records, then put each in a frame. */
  method FrameRecords(channel: byte, control: bool, records: seq<byte>) returns (r: Outcome<seq<byte>>)
    ensures r == EncryptedFrames(channel, control, records)
  {
    hide Split, PieceBytes;
    var found := FindRecords(records);
    if found.Fail? {
      return Fail(found.fault);
    }
    var pieces := found.value;
    var wire := [];
    for index := 0 to |pieces|
      invariant Frames(channel, control, pieces, index, |records|) == Fine(wire)
    {
      var packet := PieceBytes(channel, control, pieces, index, |records|);
      if packet.Fail? {
        FramesFailForGood(channel, control, pieces, index + 1, |pieces|, |records|);
        return Fail(packet.fault);
      }
      wire := wire + packet.value;
    }
    return Fine(wire);
  }

  // ---- Senders on many channels ----

  /** A message being sent on a channel, of which next frames are out. */
  datatype Job = Job(control: bool, records: seq<byte>, next: nat)

  type Jobs = map<byte, Job>

  /** The senders, what they have put on the shared wire, and the messages they have finished, in order. */
  datatype Senders = Senders(jobs: Jobs, wire: seq<byte>, packets: seq<Packet>, done: seq<(byte, seq<byte>)>)

  datatype Step = Start(channel: byte, control: bool, records: seq<byte>) | Emit(channel: byte)

  function Pieces(job: Job): seq<seq<byte>> {
    if Split(job.records).Fine? then Split(job.records).value else []
  }

  predicate LegalJob(channel: byte, job: Job) {
    && 0 < |job.records| <= MAX_MESSAGE
    && EncryptedFrames(channel, job.control, job.records).Fine?
    && job.next < |Pieces(job)|
  }

  function SentSoFar(job: Job): seq<byte>
    requires job.next <= |Pieces(job)|
  {
    Concat(Pieces(job)[..job.next])
  }

  predicate LegalJobs(jobs: Jobs) {
    forall c :: c in jobs ==> LegalJob(c, jobs[c])
  }

  /** Channels in the middle of a message. */
  function Open(jobs: Jobs): set<byte> {
    set c | c in jobs && jobs[c].next > 0
  }

  function OpenBelow(jobs: Jobs, n: nat): nat
    requires n <= 256 && LegalJobs(jobs)
  {
    if n == 0 then 0
    else OpenBelow(jobs, n - 1)
         + if n - 1 in jobs && jobs[n - 1].next > 0 then |SentSoFar(jobs[n - 1])| else 0
  }

  /** A frame of a message of several waits until at most 16 messages are open and they hold at most 4 MiB. */
  predicate Room(jobs: Jobs, channel: byte)
    requires LegalJobs(jobs) && channel in jobs
  {
    var job := jobs[channel];
    |Pieces(job)| > 1 ==>
      && (job.next == 0 ==> |Open(jobs)| < OPEN_LIMIT)
      && OpenBelow(jobs, 256) + |Pieces(job)[job.next]| <= MAX_MESSAGE
  }

  function PacketOf(channel: byte, job: Job): Packet
    requires job.next < |Pieces(job)|
  {
    Packet(channel, FlagsOf(job.control, job.next, |Pieces(job)|), Pieces(job)[job.next])
  }

  function WireOf(channel: byte, job: Job): seq<byte>
    requires job.next < |Pieces(job)|
  {
    var frame := PieceBytes(channel, job.control, Pieces(job), job.next, |job.records|);
    if frame.Fine? then frame.value else []
  }

  /** The first n frames a job puts out. */
  function Emitted(channel: byte, job: Job, n: nat): seq<byte>
    requires n <= |Pieces(job)|
  {
    if n == 0 then [] else Emitted(channel, job, n - 1) + WireOf(channel, job.(next := n - 1))
  }

  lemma {:induction false} EmitsFrames(channel: byte, job: Job, n: nat)
    requires n <= |Pieces(job)| && Frames(channel, job.control, Pieces(job), n, |job.records|).Fine?
    ensures Frames(channel, job.control, Pieces(job), n, |job.records|) == Fine(Emitted(channel, job, n))
  {
    hide PieceBytes;
    if n > 0 {
      EmitsFrames(channel, job, n - 1);
    }
  }

  /** The frames of a job are, together, what encrypted_frames makes of its records. */
  lemma JobEmitsEncryptedFrames(channel: byte, job: Job)
    requires LegalJob(channel, job)
    ensures EncryptedFrames(channel, job.control, job.records) == Fine(Emitted(channel, job, |Pieces(job)|))
  {
    EmitsFrames(channel, job, |Pieces(job)|);
  }

  /** The jobs after the next frame of a channel. */
  function Advance(jobs: Jobs, channel: byte): Jobs
    requires channel in jobs
  {
    var job := jobs[channel];
    if job.next + 1 == |Pieces(job)| then jobs - {channel} else jobs[channel := job.(next := job.next + 1)]
  }

  /** A step that is not possible does nothing. */
  function Apply(s: Senders, step: Step): (r: Senders)
    requires LegalJobs(s.jobs)
    ensures LegalJobs(r.jobs)
  {
    match step
    case Start(channel, control, records) =>
      var job := Job(control, records, 0);
      if channel in s.jobs || !LegalJob(channel, job) then s else s.(jobs := s.jobs[channel := job])
    case Emit(channel) =>
      if channel !in s.jobs || !Room(s.jobs, channel) then s
      else
        var job := s.jobs[channel];
        Senders(Advance(s.jobs, channel), s.wire + WireOf(channel, job), s.packets + [PacketOf(channel, job)],
                s.done + if job.next + 1 == |Pieces(job)| then [(channel, job.records)] else [])
  }

  function Run(steps: seq<Step>): (s: Senders)
    ensures LegalJobs(s.jobs)
  {
    if steps == [] then Senders(map[], [], [], [])
    else
      var s := Run(steps[..|steps| - 1]);
      Apply(s, steps[|steps| - 1])
  }

  // ---- The receiver keeps up ----

  lemma PieceFits(channel: byte, control: bool, pieces: seq<seq<byte>>, i: nat, total: nat)
    requires i < |pieces| && PieceBytes(channel, control, pieces, i, total).Fine?
    ensures 0 < |pieces[i]| <= 0xffff
  {
  }

  lemma {:induction false} FramesFit(channel: byte, control: bool, pieces: seq<seq<byte>>, n: nat, total: nat)
    requires n <= |pieces| && Frames(channel, control, pieces, n, total).Fine?
    ensures forall i :: 0 <= i < n ==> 0 < |pieces[i]| <= 0xffff
  {
    hide PieceBytes;
    if n > 0 {
      FramesFit(channel, control, pieces, n - 1, total);
      PieceFits(channel, control, pieces, n - 1, total);
    }
  }

  /** A frame is read back as the packet it carries. */
  lemma FrameReads(channel: byte, job: Job)
    requires LegalJob(channel, job)
    ensures Drain(WireOf(channel, job)) == Drained([PacketOf(channel, job)], None, [])
  {
    hide Split, Frames, Word, U16, U32At, Long;
    var pieces := Pieces(job);
    FramesFit(channel, job.control, pieces, |pieces|, |job.records|);
    var payload := pieces[job.next];
    var flags := FlagsOf(job.control, job.next, |pieces|);
    var wire := WireOf(channel, job);
    var size := Word(|payload|);
    assert wire[..4] == [channel, flags] + size;
    assert wire[0] == wire[..4][0] && wire[1] == wire[..4][1] && wire[2] == wire[..4][2] && wire[3] == wire[..4][3];
    var extra := if flags % 4 == 1 then Long(|job.records|) else [];
    var head := [channel, flags] + size + extra;
    assert wire == head + payload;
    Joined(head, payload);
    if flags % 4 == 1 {
      assert wire[4..8] == extra;
      U32Slice(wire, 4);
    }
    assert PacketAt(wire) == Got(PacketOf(channel, job), []);
  }

  /** The reassembly holds, for each channel in the middle of a message, what was sent of it. */
  ghost predicate Tracks(fragments: Fragments, jobs: Jobs)
    requires LegalJobs(jobs)
  {
    && fragments.Keys == Open(jobs)
    && forall c :: c in fragments ==> fragments[c] == (if jobs[c].control then 12 else 8, SentSoFar(jobs[c]))
  }

  lemma {:induction false} HeldIsOpen(fragments: Fragments, jobs: Jobs, n: nat)
    requires n <= 256 && LegalJobs(jobs) && Tracks(fragments, jobs)
    ensures HeldBelow(fragments, n) == OpenBelow(jobs, n)
  {
    hide LegalJob, SentSoFar;
    if n > 0 {
      HeldIsOpen(fragments, jobs, n - 1);
      assert n - 1 in fragments <==> n - 1 in Open(jobs);
    }
  }

  lemma {:induction false} HeldIgnoresEmpty(fragments: Fragments, channel: byte, flags: byte, n: nat)
    requires n <= 256 && channel !in fragments
    ensures HeldBelow(fragments[channel := (flags, [])], n) == HeldBelow(fragments, n)
  {
    if n > 0 {
      HeldIgnoresEmpty(fragments, channel, flags, n - 1);
    }
  }

  lemma FlagMeaning(control: bool, index: nat, count: nat)
    requires index < count
    ensures var flags := FlagsOf(control, index, count);
            && (First(flags) <==> index == 0)
            && (Last(flags) <==> index + 1 == count)
            && Kept(flags) == if control then 12 else 8
  {
  }

  lemma SentGrows(job: Job)
    requires job.next < |Pieces(job)|
    ensures Concat(Pieces(job)[..job.next + 1]) == SentSoFar(job) + Pieces(job)[job.next]
  {
    var pieces := Pieces(job);
    TakeSnoc(pieces, job.next);
    ConcatAppend(pieces[..job.next], [pieces[job.next]]);
    assert Concat([pieces[job.next]]) == pieces[job.next] + Concat([]);
  }

  lemma SentAll(job: Job)
    requires Split(job.records).Fine?
    ensures Concat(Pieces(job)) == job.records
  {
    SplitJoins(job.records);
  }

  lemma WholeAccepted(fragments: Fragments, p: Packet)
    requires First(p.flags) && Last(p.flags) && p.channel !in fragments
    ensures Accept(fragments, p) == (fragments, Fine(Some(p.bytes)))
  {
  }

  lemma OpeningAccepted(fragments: Fragments, p: Packet)
    requires First(p.flags) && !Last(p.flags) && p.channel !in fragments
    requires |fragments| < OPEN_LIMIT && Held(fragments) + |p.bytes| <= MAX_MESSAGE
    ensures Accept(fragments, p) == (fragments[p.channel := (Kept(p.flags), p.bytes)], Fine(None))
  {
    hide First, Last, Kept, HeldBelow;
    HeldIgnoresEmpty(fragments, p.channel, Kept(p.flags), 256);
    assert [] + p.bytes == p.bytes;
    var begun := fragments[p.channel := (Kept(p.flags), [])];
    assert begun[p.channel := (Kept(p.flags), p.bytes)] == fragments[p.channel := (Kept(p.flags), p.bytes)];
  }

  lemma ContinuationAccepted(fragments: Fragments, p: Packet)
    requires !First(p.flags) && p.channel in fragments && fragments[p.channel].0 == Kept(p.flags)
    requires Held(fragments) + |p.bytes| <= MAX_MESSAGE
    ensures Accept(fragments, p)
         == if Last(p.flags) then (fragments - {p.channel}, Fine(Some(fragments[p.channel].1 + p.bytes)))
            else (fragments[p.channel := (Kept(p.flags), fragments[p.channel].1 + p.bytes)], Fine(None))
  {
    hide First, Last, Kept, Held;
  }

  lemma RoomMeans(fragments: Fragments, jobs: Jobs, channel: byte)
    requires LegalJobs(jobs) && Tracks(fragments, jobs) && channel in jobs && Room(jobs, channel)
    requires |Pieces(jobs[channel])| > 1
    ensures jobs[channel].next == 0 ==> |fragments| < OPEN_LIMIT
    ensures Held(fragments) + |Pieces(jobs[channel])[jobs[channel].next]| <= MAX_MESSAGE
  {
    hide LegalJob, Pieces, HeldBelow, OpenBelow, SentSoFar;
    HeldIsOpen(fragments, jobs, 256);
    assert |fragments| == |fragments.Keys|;
  }

  lemma TracksRemoved(fragments: Fragments, jobs: Jobs, channel: byte)
    requires LegalJobs(jobs) && Tracks(fragments, jobs) && channel in jobs
    ensures LegalJobs(jobs - {channel}) && Tracks(fragments - {channel}, jobs - {channel})
  {
    hide LegalJob, SentSoFar;
    assert (fragments - {channel}).Keys == Open(jobs - {channel});
  }

  lemma LegalNext(channel: byte, job: Job)
    requires LegalJob(channel, job) && job.next + 1 < |Pieces(job)|
    ensures LegalJob(channel, job.(next := job.next + 1))
    ensures Pieces(job.(next := job.next + 1)) == Pieces(job)
  {
  }

  lemma TracksAdvanced(fragments: Fragments, jobs: Jobs, channel: byte)
    requires LegalJobs(jobs) && Tracks(fragments, jobs) && channel in jobs
    requires jobs[channel].next + 1 < |Pieces(jobs[channel])|
    ensures var job := jobs[channel];
            var jobs' := jobs[channel := job.(next := job.next + 1)];
            && LegalJobs(jobs')
            && Tracks(fragments[channel := (if job.control then 12 else 8, Concat(Pieces(job)[..job.next + 1]))], jobs')
  {
    hide LegalJob, Pieces, Concat;
    var job := jobs[channel];
    var next := job.(next := job.next + 1);
    var jobs' := jobs[channel := next];
    LegalNext(channel, job);
    var fragments' := fragments[channel := (if job.control then 12 else 8, Concat(Pieces(job)[..job.next + 1]))];
    assert fragments'.Keys == Open(jobs');
  }

  lemma InStep(fragments: Fragments, jobs: Jobs, channel: byte)
    requires LegalJobs(jobs) && Tracks(fragments, jobs) && channel in jobs
    ensures channel in fragments <==> jobs[channel].next > 0
    ensures channel in fragments ==>
              fragments[channel] == (if jobs[channel].control then 12 else 8, SentSoFar(jobs[channel]))
  {
    assert channel in fragments <==> channel in Open(jobs);
  }

  /** What is known of the packet that goes out next, and of the reassembly before it. */
  lemma PacketFacts(fragments: Fragments, jobs: Jobs, channel: byte)
    requires LegalJobs(jobs) && Tracks(fragments, jobs) && channel in jobs && Room(jobs, channel)
    ensures var job := jobs[channel];
            var count := |Pieces(job)|;
            && job.next < count
            && var p := PacketOf(channel, job);
            && p.channel == channel && p.bytes == Pieces(job)[job.next]
            && (First(p.flags) <==> job.next == 0)
            && (Last(p.flags) <==> job.next + 1 == count)
            && Kept(p.flags) == (if job.control then 12 else 8)
            && (channel in fragments <==> job.next > 0)
            && (channel in fragments ==> fragments[channel] == (Kept(p.flags), SentSoFar(job)))
            && (count > 1 ==> Held(fragments) + |p.bytes| <= MAX_MESSAGE)
            && (count > 1 && job.next == 0 ==> |fragments| < OPEN_LIMIT)
  {
    var job := jobs[channel];
    assert LegalJob(channel, job) && job.next < |Pieces(job)|;
    FlagMeaning(job.control, job.next, |Pieces(job)|);
    InStep(fragments, jobs, channel);
    if |Pieces(job)| > 1 {
      RoomMeans(fragments, jobs, channel);
    }
    hide LegalJobs, Tracks, LegalJob, FlagsOf, Kept, First, Last, Pieces, Held, SentSoFar, Room;
  }

  /** The bytes of a message once the next packet is counted in. */
  lemma BytesAfter(job: Job)
    requires Split(job.records).Fine? && job.next < |Pieces(job)|
    ensures var bytes := Pieces(job)[job.next];
            && SentSoFar(job) + bytes == Concat(Pieces(job)[..job.next + 1])
            && (job.next == 0 ==> bytes == Concat(Pieces(job)[..1]))
            && (job.next + 1 == |Pieces(job)| ==> Concat(Pieces(job)[..job.next + 1]) == job.records)
  {
    SentGrows(job);
    SentAll(job);
    hide LegalJob;
    assert job.next == 0 ==> SentSoFar(job) == [];
    assert job.next + 1 == |Pieces(job)| ==> Pieces(job)[..job.next + 1] == Pieces(job);
  }

  /** The reassembly after the next packet of a channel. */
  function Refill(fragments: Fragments, jobs: Jobs, channel: byte): Fragments
    requires channel in jobs && jobs[channel].next < |Pieces(jobs[channel])|
  {
    var job := jobs[channel];
    if job.next + 1 == |Pieces(job)| then fragments - {channel}
    else fragments[channel := (if job.control then 12 else 8, Concat(Pieces(job)[..job.next + 1]))]
  }

  function Completed(job: Job): Outcome<Option<seq<byte>>> {
    Fine(if job.next + 1 == |Pieces(job)| then Some(job.records) else None)
  }

  /** A packet that may go out is taken, and ends a message when it is the last. */
  lemma AcceptResult(fragments: Fragments, jobs: Jobs, channel: byte)
    requires LegalJobs(jobs) && Tracks(fragments, jobs) && channel in jobs && Room(jobs, channel)
    ensures var job := jobs[channel];
            job.next < |Pieces(job)| &&
            Accept(fragments, PacketOf(channel, job)) == (Refill(fragments, jobs, channel), Completed(job))
  {
    var job := jobs[channel];
    assert LegalJob(channel, job) && job.next < |Pieces(job)|;
    hide LegalJobs, Tracks, LegalJob, PacketOf, Kept, First, Last, Pieces, Held, Accept, SentSoFar, Room, Concat;
    if job.next > 0 {
      AcceptMiddle(fragments, jobs, channel);
    } else if job.next + 1 == |Pieces(job)| {
      AcceptWhole(fragments, jobs, channel);
    } else {
      AcceptFirst(fragments, jobs, channel);
    }
  }

  lemma AcceptMiddle(fragments: Fragments, jobs: Jobs, channel: byte)
    requires LegalJobs(jobs) && Tracks(fragments, jobs) && channel in jobs && Room(jobs, channel)
    requires 0 < jobs[channel].next < |Pieces(jobs[channel])|
    ensures Accept(fragments, PacketOf(channel, jobs[channel]))
         == (Refill(fragments, jobs, channel), Completed(jobs[channel]))
  {
    var job := jobs[channel];
    assert LegalJob(channel, job);
    PacketFacts(fragments, jobs, channel);
    BytesAfter(job);
    hide LegalJobs, Tracks, LegalJob, PacketOf, Kept, First, Last, Pieces, Held, Accept, SentSoFar, Room, Concat;
    ContinuationAccepted(fragments, PacketOf(channel, job));
  }

  lemma AcceptWhole(fragments: Fragments, jobs: Jobs, channel: byte)
    requires LegalJobs(jobs) && Tracks(fragments, jobs) && channel in jobs && Room(jobs, channel)
    requires jobs[channel].next == 0 && |Pieces(jobs[channel])| == 1
    ensures Accept(fragments, PacketOf(channel, jobs[channel]))
         == (Refill(fragments, jobs, channel), Completed(jobs[channel]))
  {
    var job := jobs[channel];
    assert LegalJob(channel, job);
    PacketFacts(fragments, jobs, channel);
    BytesAfter(job);
    hide LegalJobs, Tracks, LegalJob, PacketOf, Kept, First, Last, Pieces, Held, Accept, SentSoFar, Room, Concat;
    WholeAccepted(fragments, PacketOf(channel, job));
    assert fragments - {channel} == fragments;
  }

  lemma AcceptFirst(fragments: Fragments, jobs: Jobs, channel: byte)
    requires LegalJobs(jobs) && Tracks(fragments, jobs) && channel in jobs && Room(jobs, channel)
    requires jobs[channel].next == 0 && |Pieces(jobs[channel])| > 1
    ensures Accept(fragments, PacketOf(channel, jobs[channel]))
         == (Refill(fragments, jobs, channel), Completed(jobs[channel]))
  {
    var job := jobs[channel];
    assert LegalJob(channel, job);
    PacketFacts(fragments, jobs, channel);
    BytesAfter(job);
    hide LegalJobs, Tracks, LegalJob, PacketOf, Kept, First, Last, Pieces, Held, Accept, SentSoFar, Room, Concat;
    OpeningAccepted(fragments, PacketOf(channel, job));
  }

  lemma RefillTracks(fragments: Fragments, jobs: Jobs, channel: byte)
    requires LegalJobs(jobs) && Tracks(fragments, jobs) && channel in jobs
    ensures var job := jobs[channel];
            && job.next < |Pieces(job)|
            && LegalJobs(Advance(jobs, channel))
            && Tracks(Refill(fragments, jobs, channel), Advance(jobs, channel))
  {
    var job := jobs[channel];
    assert LegalJob(channel, job) && job.next < |Pieces(job)|;
    hide LegalJob, LegalJobs, Tracks, Pieces, Concat;
    if job.next + 1 == |Pieces(job)| {
      TracksRemoved(fragments, jobs, channel);
    } else {
      TracksAdvanced(fragments, jobs, channel);
    }
  }

  /** The receiver, reading the wire as it stands, has every packet and every message of the senders. */
  ghost predicate KeepsUp(s: Senders)
    requires LegalJobs(s.jobs)
  {
    && Drain(s.wire) == Drained(s.packets, None, [])
    && Assemble(s.packets).fault.None?
    && Assemble(s.packets).done == s.done
    && Tracks(Assemble(s.packets).fragments, s.jobs)
  }

  lemma KeepsUpStep(s: Senders, step: Step)
    requires LegalJobs(s.jobs) && KeepsUp(s)
    ensures KeepsUp(Apply(s, step))
  {
    hide LegalJob, Drain, Room, WireOf, PacketOf, Accept, Pieces;
    match step
    case Start(channel, control, records) => StartTracks(s, step);
    case Emit(channel) =>
      if channel in s.jobs && Room(s.jobs, channel) {
        EmitKeepsUp(s, channel);
      }
  }

  lemma StartTracks(s: Senders, step: Step)
    requires LegalJobs(s.jobs) && KeepsUp(s) && step.Start?
    ensures KeepsUp(Apply(s, step))
  {
    hide LegalJob, Drain, Assemble;
    var jobs := Apply(s, step).jobs;
    assert Open(jobs) == Open(s.jobs);
    forall c | c in Open(jobs)
      ensures jobs[c] == s.jobs[c]
    {
    }
  }

  lemma EmitDrains(s: Senders, channel: byte)
    requires LegalJobs(s.jobs) && channel in s.jobs && Drain(s.wire) == Drained(s.packets, None, [])
    ensures var job := s.jobs[channel];
            && job.next < |Pieces(job)|
            && Drain(s.wire + WireOf(channel, job)) == Drained(s.packets + [PacketOf(channel, job)], None, [])
  {
    var job := s.jobs[channel];
    assert LegalJob(channel, job) && job.next < |Pieces(job)|;
    hide LegalJob, LegalJobs, Drain, WireOf, PacketOf, Pieces;
    DrainAppend(s.wire, WireOf(channel, job));
    FrameReads(channel, job);
    assert [] + WireOf(channel, job) == WireOf(channel, job);
  }

  lemma EmitAssembles(s: Senders, channel: byte)
    requires LegalJobs(s.jobs) && KeepsUp(s) && channel in s.jobs && Room(s.jobs, channel)
    ensures var job := s.jobs[channel];
            && job.next < |Pieces(job)|
            && Assemble(s.packets + [PacketOf(channel, job)])
               == Assembly(Refill(Assemble(s.packets).fragments, s.jobs, channel),
                           s.done + if job.next + 1 == |Pieces(job)| then [(channel, job.records)] else [], None)
  {
    var job := s.jobs[channel];
    assert LegalJob(channel, job) && job.next < |Pieces(job)|;
    ChannelOf(channel, job);
    hide LegalJob, LegalJobs, Assemble, Drain, Room, PacketOf, Accept, Pieces, Tracks, Refill;
    AcceptResult(Assemble(s.packets).fragments, s.jobs, channel);
    AssembleStep(s.packets, PacketOf(channel, job));
  }

  lemma EmitKeepsUp(s: Senders, channel: byte)
    requires LegalJobs(s.jobs) && KeepsUp(s) && channel in s.jobs && Room(s.jobs, channel)
    ensures KeepsUp(Apply(s, Emit(channel)))
  {
    hide LegalJob, LegalJobs, Drain, Assemble, Room, WireOf, PacketOf, Pieces, Tracks, Refill, Advance;
    EmitDrains(s, channel);
    EmitAssembles(s, channel);
    RefillTracks(Assemble(s.packets).fragments, s.jobs, channel);
  }

  lemma AssembleStep(packets: seq<Packet>, p: Packet)
    requires Assemble(packets).fault.None?
    requires Accept(Assemble(packets).fragments, p).1.Fine?
    ensures var a := Assemble(packets);
            var (fragments, r) := Accept(a.fragments, p);
            && Assemble(packets + [p])
               == Assembly(fragments, a.done + if r.value.Some? then [(p.channel, r.value.value)] else [], None)
  {
    hide Accept;
    assert (packets + [p])[..|packets|] == packets;
    assert Assemble(packets).done + [] == Assemble(packets).done;
  }

  lemma ChannelOf(channel: byte, job: Job)
    requires job.next < |Pieces(job)|
    ensures PacketOf(channel, job).channel == channel
  {
  }

  lemma {:induction false} ReceiverKeepsUp(steps: seq<Step>)
    ensures KeepsUp(Run(steps))
  {
    hide KeepsUp, Apply;
    if steps == [] {
      NothingToKeepUpWith();
    } else {
      var n := |steps| - 1;
      ReceiverKeepsUp(steps[..n]);
      KeepsUpStep(Run(steps[..n]), steps[n]);
    }
  }

  lemma NothingToKeepUpWith()
    ensures KeepsUp(Senders(map[], [], [], []))
  {
  }

  /**
   For every interleaving of messages on any channels, one after the other on each, of which at most 16 are open at a
   time and hold at most 4 MiB, and for every way to read the wire in pieces of at most 16 KiB: the receiver meets no
   fault, has nothing left over, and completes exactly the messages the senders completed, with their original bytes
   and in order.
   */
  lemma InterleavedMessagesArrive(steps: seq<Step>, inputs: seq<seq<byte>>)
    requires Concat(inputs) == Run(steps).wire
    requires forall i :: 0 <= i < |inputs| ==> |inputs[i]| <= READ_SIZE
    ensures var fed := Feed([], inputs);
            && fed.fault == None && fed.rest == []
            && Assemble(fed.packets).fault == None
            && Assemble(fed.packets).done == Run(steps).done
  {
    hide Feed, Drain, Assemble, Run, Tracks;
    ReceiverKeepsUp(steps);
    ChunkingIsInvisible([], inputs);
    assert [] + Concat(inputs) == Concat(inputs);
  }
}
