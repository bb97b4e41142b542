/**
 The wired iAP2 control channel: `Control::send` cuts each control message into data frames and `Control::message`
 drops acknowledgements and repeats, puts the pieces back together and hands out whole messages.
 */
module WiredControl {
  import opened Bytes
  import opened Chunking
  import opened Iap2Frame
  import opened Csm

  const MIN_FRAME: nat := 64
  const OVERHEAD: nat := 10

  function Plus(n: byte, k: nat): byte {
    (n + k) % 256
  }

  lemma PlusStep(n: byte, k: nat)
    ensures Succ(Plus(n, k)) == Plus(n, k + 1) && Plus(Succ(n), k) == Plus(n, k + 1) && Plus(n, 0) == n
  {
  }

  // ---- Sending ----

  function DataFrame(sequence: byte, acknowledgement: byte, payload: seq<byte>): Frame {
    Frame(ACK, sequence, acknowledgement, CONTROL_SESSION, payload)
  }

  /** One frame a chunk, numbered from the one after last. */
  function Numbered(chunks: seq<seq<byte>>, last: byte, acknowledgement: byte): seq<Frame> {
    if chunks == [] then []
    else [DataFrame(Succ(last), acknowledgement, chunks[0])] + Numbered(chunks[1..], Succ(last), acknowledgement)
  }

  /** The bytes of a frame that can be encoded. */
  function FrameBytes(f: Frame): seq<byte> {
    if Encode(f).Ok? then Encode(f).value else []
  }

  function Wire(frames: seq<Frame>): seq<byte> {
    if frames == [] then [] else FrameBytes(frames[0]) + Wire(frames[1..])
  }

  /** The last number and the output after m is sent; a message that cannot be encoded leaves both alone. */
  function AfterSend(sent: byte, output: seq<byte>, m: Message, acknowledgement: byte, maxFrame: nat): (byte, seq<byte>)
    requires maxFrame >= MIN_FRAME
  {
    match EncodeMessage(m)
    case Err(_) => (sent, output)
    case Ok(bytes) =>
      var chunks := Chunks(bytes, maxFrame - OVERHEAD);
      (Plus(sent, |chunks|), output + Wire(Numbered(chunks, sent, acknowledgement)))
  }

  /** And after each of the messages is; acknowledgements[i] is what the sender had received at send i. */
  function AfterSends(
    sent: byte, output: seq<byte>, messages: seq<Message>, acknowledgements: seq<byte>, maxFrame: nat)
    : (byte, seq<byte>)
    requires |acknowledgements| == |messages| && maxFrame >= MIN_FRAME
    decreases |messages|
  {
    if messages == [] then (sent, output)
    else
      var (sent', output') := AfterSend(sent, output, messages[0], acknowledgements[0], maxFrame);
      AfterSends(sent', output', messages[1..], acknowledgements[1..], maxFrame)
  }

  // ---- Receiving ----

  datatype Taken = Need | Have(message: Message, rest: seq<byte>) | Broken(error: Error)

  /** The message at the front of the reassembly buffer. */
  function Take(buffer: seq<byte>): (r: Taken)
    ensures r.Have? ==> |r.rest| < |buffer|
  {
    if |buffer| < Csm.HEADER then Need
    else if buffer[0] != 0x40 || buffer[1] != 0x40 then Broken(Malformed)
    else
      var length := U16(buffer[2], buffer[3]);
      if length < Csm.HEADER || length > MAX_MESSAGE then Broken(Bounds)
      else if |buffer| < length then Need
      else match DecodeMessage(buffer[..length])
        case Err(error) => Broken(error)
        case Ok(m) => Have(m, buffer[length..])
  }

  datatype Verdict = Skip | Append | Refuse(error: Error)

  /** What the receiver does with a frame, given the last sequence it took and how much it has buffered. */
  function Judge(received: byte, buffered: nat, f: Frame): Verdict {
    if f.flags != ACK then Refuse(Unsupported)
    else if f.payload == [] then Skip
    else if f.session != CONTROL_SESSION then Refuse(Unsupported)
    else if f.sequence == received then Skip
    else if f.sequence != Succ(received) then Refuse(Error.Sequence)
    else if buffered + |f.payload| > MAX_MESSAGE then Refuse(Bounds)
    else Append
  }

  datatype Reply =
    | Delivered(message: Message, received: byte, buffer: seq<byte>, rest: seq<byte>)
    | Starved
    | Failed(error: Error)

  /** `Control::message` on the bytes that are still to come; Starved when they run out first. */
  function Next(received: byte, buffer: seq<byte>, input: seq<byte>): (r: Reply)
    ensures r.Delivered? ==> |r.rest| < |input| || (r.rest == input && |r.buffer| < |buffer|)
    ensures r.Delivered? && |buffer| <= MAX_MESSAGE ==> |r.buffer| <= MAX_MESSAGE
    decreases |input|
  {
    match Take(buffer)
    case Have(m, rest) => Delivered(m, received, rest, input)
    case Broken(error) => Failed(error)
    case Need =>
      match ReadFrame(input)
      case Short => Starved
      case Bad(error) => Failed(error)
      case Got(f, rest) =>
        match Judge(received, |buffer|, f)
        case Skip => Next(received, buffer, rest)
        case Refuse(error) => Failed(error)
        case Append => Next(f.sequence, buffer + f.payload, rest)
  }

  /** Every message the receiver hands out of input, and the error that stops it, if one does. */
  function Drain(received: byte, buffer: seq<byte>, input: seq<byte>): (seq<Message>, Option<Error>)
    decreases |input|, |buffer|
  {
    match Next(received, buffer, input)
    case Starved => ([], None)
    case Failed(error) => ([], Some(error))
    case Delivered(m, received', buffer', rest) =>
      var (messages, error) := Drain(received', buffer', rest);
      ([m] + messages, error)
  }

  lemma DataFrameEncodes(sequence: byte, acknowledgement: byte, payload: seq<byte>)
    requires 0 < |payload| <= MAX_FRAME - OVERHEAD
    ensures Encode(DataFrame(sequence, acknowledgement, payload)).Ok?
    ensures Length(DataFrame(sequence, acknowledgement, payload)) == |payload| + OVERHEAD
  {
  }

  lemma NumberedNothing(last: byte, acknowledgement: byte)
    ensures Numbered([], last, acknowledgement) == [] && Wire([]) == []
  {
  }

  class Control {
    var input: seq<byte>
    var output: seq<byte>
    var sent: byte
    var received: byte
    var maxFrame: nat
    var csmBytes: seq<byte>

    constructor (input: seq<byte>, sent: byte, received: byte, maxFrame: nat)
      ensures this.input == input && output == [] && csmBytes == []
      ensures this.sent == sent && this.received == received && this.maxFrame == maxFrame
    {
      this.input, output, csmBytes := input, [], [];
      this.sent, this.received, this.maxFrame := sent, received, maxFrame;
    }

    /** `write_frame`. */
    method WriteFrame(f: Frame) returns (r: Result<()>)
      modifies this`output
      ensures r.Ok? <==> Encode(f).Ok? && Length(f) <= maxFrame
      ensures output == old(output) + if r.Ok? then FrameBytes(f) else []
    {
      var bytes := Encode(f);
      if bytes.Err? {
        return Err(bytes.error);
      }
      if |bytes.value| > maxFrame {
        return Err(Bounds);
      }
      output := output + bytes.value;
      return Ok(());
    }

    method Send(m: Message) returns (r: Result<()>)
      requires MIN_FRAME <= maxFrame <= MAX_FRAME
      modifies this`output, this`sent
      ensures match EncodeMessage(m)
              case Err(error) => r == Err(error)
              case Ok(_) => r == Ok(())
      ensures (sent, output) == AfterSend(old(sent), old(output), m, received, maxFrame)
    {
      hide EncodeMessage, Encode, Chunks, Numbered, Wire, FrameBytes, Succ, Plus;
      var bytes := EncodeMessage(m);
      if bytes.Err? {
        return Err(bytes.error);
      }
      var chunks := Chunks(bytes.value, maxFrame - OVERHEAD);
      ChunksFit(bytes.value, maxFrame - OVERHEAD);
      ghost var all := Wire(Numbered(chunks, sent, received));
      PlusStep(sent, 0);
      assert chunks[0..] == chunks;
      for i := 0 to |chunks|
        invariant output + Wire(Numbered(chunks[i..], sent, received)) == old(output) + all
        invariant sent == Plus(old(sent), i)
      {
        ghost var before, left := output, Wire(Numbered(chunks[i + 1..], Succ(sent), received));
        WireStep(chunks[i..], sent, received);
        Suffix(chunks, i, 1);
        PlusStep(old(sent), i);
        var f := DataFrame(Succ(sent), received, chunks[i]);
        DataFrameEncodes(Succ(sent), received, chunks[i]);
        sent := Succ(sent);
        var written := WriteFrame(f);
        assert before + (FrameBytes(f) + left) == before + FrameBytes(f) + left;
      }
      NumberedNothing(sent, received);
      assert chunks[|chunks|..] == [] && output + [] == output;
      assert output == old(output) + all;
      return Ok(());
    }

    /** `message`, with the frames read off the input in a loop. */
    method ReceiveMessage() returns (reply: Reply)
      modifies this`input, this`received, this`csmBytes
      ensures reply == Next(old(received), old(csmBytes), old(input))
      ensures reply.Delivered? ==> (received, csmBytes, input) == (reply.received, reply.buffer, reply.rest)
    {
      hide ReadFrame, DecodeMessage;
      while true
        invariant Next(received, csmBytes, input) == Next(old(received), old(csmBytes), old(input))
        decreases |input|
      {
        var front := Take(csmBytes);
        match front {
          case Have(m, rest) =>
            csmBytes := rest;
            return Delivered(m, received, csmBytes, input);
          case Broken(error) => return Failed(error);
          case Need =>
        }
        var read := ReadFrame(input);
        match read {
          case Short => return Starved;
          case Bad(error) => return Failed(error);
          case Got(f, rest) =>
            input := rest;
            if f.flags != ACK {
              return Failed(Unsupported);
            }
            if f.payload == [] {
              continue;
            }
            if f.session != CONTROL_SESSION {
              return Failed(Unsupported);
            }
            if f.sequence == received {
              continue;
            }
            if f.sequence != Succ(received) {
              return Failed(Error.Sequence);
            }
            received := f.sequence;
            if |csmBytes| + |f.payload| > MAX_MESSAGE {
              return Failed(Bounds);
            }
            csmBytes := csmBytes + f.payload;
        }
      }
    }
  }

  lemma WireStep(chunks: seq<seq<byte>>, last: byte, acknowledgement: byte)
    requires chunks != []
    ensures Wire(Numbered(chunks, last, acknowledgement))
         == FrameBytes(DataFrame(Succ(last), acknowledgement, chunks[0]))
            + Wire(Numbered(chunks[1..], Succ(last), acknowledgement))
  {
    var frames := Numbered(chunks, last, acknowledgement);
    assert frames[1..] == Numbered(chunks[1..], Succ(last), acknowledgement);
  }

  // ---- End to end ----

  /** The messages that can be encoded; sending any other fails and writes nothing. */
  function Accepted(messages: seq<Message>): seq<Message> {
    if messages == [] then []
    else (if EncodeMessage(messages[0]).Ok? then [messages[0]] else []) + Accepted(messages[1..])
  }

  /** The frames a run of sends puts out. */
  function SentFrames(messages: seq<Message>, acknowledgements: seq<byte>, last: byte, maxFrame: nat): seq<Frame>
    requires |acknowledgements| == |messages| && maxFrame >= MIN_FRAME
  {
    if messages == [] then []
    else match EncodeMessage(messages[0])
      case Err(_) => SentFrames(messages[1..], acknowledgements[1..], last, maxFrame)
      case Ok(bytes) =>
        var chunks := Chunks(bytes, maxFrame - OVERHEAD);
        Numbered(chunks, last, acknowledgements[0])
        + SentFrames(messages[1..], acknowledgements[1..], Plus(last, |chunks|), maxFrame)
  }

  lemma {:induction false} WireAppend(a: seq<Frame>, b: seq<Frame>)
    ensures Wire(a + b) == Wire(a) + Wire(b)
  {
    hide FrameBytes;
    if a == [] {
      assert a + b == b && Wire(a) == [];
    } else {
      WireAppend(a[1..], b);
      assert (a + b)[1..] == a[1..] + b;
      assert FrameBytes(a[0]) + (Wire(a[1..]) + Wire(b)) == FrameBytes(a[0]) + Wire(a[1..]) + Wire(b);
    }
  }

  /** A run of sends writes these frames and nothing else, and counts the last of their numbers. */
  lemma {:induction false} SendsWriteFrames(
    sent: byte, output: seq<byte>, messages: seq<Message>, acknowledgements: seq<byte>, maxFrame: nat)
    requires |acknowledgements| == |messages| && maxFrame >= MIN_FRAME
    ensures var frames := SentFrames(messages, acknowledgements, sent, maxFrame);
            AfterSends(sent, output, messages, acknowledgements, maxFrame)
              == (Plus(sent, |frames|), output + Wire(frames))
    decreases |messages|
  {
    hide EncodeMessage, Plus, Chunks, Numbered, FrameBytes;
    PlusStep(sent, 0);
    if messages == [] {
      assert output + Wire([]) == output;
    } else {
      var (sent', output') := AfterSend(sent, output, messages[0], acknowledgements[0], maxFrame);
      SendsWriteFrames(sent', output', messages[1..], acknowledgements[1..], maxFrame);
      if EncodeMessage(messages[0]).Ok? {
        var chunks := Chunks(EncodeMessage(messages[0]).value, maxFrame - OVERHEAD);
        var frames := Numbered(chunks, sent, acknowledgements[0]);
        var later := SentFrames(messages[1..], acknowledgements[1..], sent', maxFrame);
        WireAppend(frames, later);
        NumberedLength(chunks, sent, acknowledgements[0]);
        PlusPlus(sent, |chunks|, |later|);
        assert output + (Wire(frames) + Wire(later)) == output + Wire(frames) + Wire(later);
      }
    }
  }

  lemma {:induction false} NumberedLength(chunks: seq<seq<byte>>, last: byte, acknowledgement: byte)
    ensures |Numbered(chunks, last, acknowledgement)| == |chunks|
  {
    if chunks != [] {
      NumberedLength(chunks[1..], Succ(last), acknowledgement);
    }
  }

  lemma PlusPlus(n: byte, j: nat, k: nat)
    ensures Plus(Plus(n, j), k) == Plus(n, j + k)
  {
  }

  /**
   wire is data with acknowledgements without payload and repeats of the latest data frame put in anywhere; last is the
   sequence number of the latest data frame before.
   */
  predicate Padded(wire: seq<Frame>, data: seq<Frame>, last: byte) {
    if wire == [] then data == []
    else
      var f := wire[0];
      || (IsFiller(f, last) && Padded(wire[1..], data, last))
      || (data != [] && f == data[0] && Padded(wire[1..], data[1..], f.sequence))
  }

  predicate IsFiller(f: Frame, last: byte) {
    && f.flags == ACK
    && Encode(f).Ok?
    && (f.payload == [] || (f.session == CONTROL_SESSION && f.sequence == last))
  }

  /** wire carries these chunks, in order and numbered from the one after last. */
  predicate Carries(wire: seq<Frame>, chunks: seq<seq<byte>>, last: byte) {
    if wire == [] then chunks == []
    else
      var f := wire[0];
      || (IsFiller(f, last) && Carries(wire[1..], chunks, last))
      || (chunks != [] && f == DataFrame(Succ(last), f.acknowledgement, chunks[0]) && Encode(f).Ok?
          && Carries(wire[1..], chunks[1..], f.sequence))
  }

  function AllChunks(messages: seq<Message>, size: nat): seq<seq<byte>>
    requires size > 0
  {
    if messages == [] then []
    else match EncodeMessage(messages[0])
      case Err(_) => AllChunks(messages[1..], size)
      case Ok(bytes) => Chunks(bytes, size) + AllChunks(messages[1..], size)
  }

  lemma NumberedStep(chunks: seq<seq<byte>>, last: byte, acknowledgement: byte)
    requires chunks != []
    ensures Numbered(chunks, last, acknowledgement)
         == [DataFrame(Succ(last), acknowledgement, chunks[0])] + Numbered(chunks[1..], Succ(last), acknowledgement)
  {
  }

  /** data is one frame a chunk, numbered from the one after last, and nothing else. */
  predicate Bears(data: seq<Frame>, chunks: seq<seq<byte>>, last: byte) {
    && (data == [] <==> chunks == [])
    && (data != [] ==>
          && data[0] == DataFrame(Succ(last), data[0].acknowledgement, chunks[0])
          && Encode(data[0]).Ok?
          && Bears(data[1..], chunks[1..], Succ(last)))
  }

  lemma {:induction false} NumberedBears(
    chunks: seq<seq<byte>>, last: byte, acknowledgement: byte, more: seq<Frame>, rest: seq<seq<byte>>)
    requires Fitting(chunks, MAX_FRAME - OVERHEAD)
    requires Bears(more, rest, Plus(last, |chunks|))
    ensures Bears(Numbered(chunks, last, acknowledgement) + more, chunks + rest, last)
  {
    hide Encode, Plus, Succ, Numbered;
    if chunks == [] {
      PlusStep(last, 0);
      NumberedNothing(last, acknowledgement);
      assert [] + more == more && chunks + rest == rest;
    } else {
      NumberedStep(chunks, last, acknowledgement);
      var data := Numbered(chunks, last, acknowledgement) + more;
      var tail := Numbered(chunks[1..], Succ(last), acknowledgement);
      PlusStep(last, |chunks| - 1);
      NumberedBears(chunks[1..], Succ(last), acknowledgement, more, rest);
      DataFrameEncodes(Succ(last), acknowledgement, chunks[0]);
      assert data[1..] == tail + more;
      assert (chunks + rest)[1..] == chunks[1..] + rest;
    }
  }

  /** What the sender puts out is one frame for each chunk of its messages. */
  lemma {:induction false} SenderBears(messages: seq<Message>, acknowledgements: seq<byte>, last: byte, maxFrame: nat)
    requires |acknowledgements| == |messages| && MIN_FRAME <= maxFrame <= MAX_FRAME
    ensures Bears(SentFrames(messages, acknowledgements, last, maxFrame),
                  AllChunks(messages, maxFrame - OVERHEAD), last)
  {
    hide EncodeMessage, Plus, Chunks, Numbered;
    if messages != [] && EncodeMessage(messages[0]).Err? {
      SenderBears(messages[1..], acknowledgements[1..], last, maxFrame);
    } else if messages != [] {
      var bytes := EncodeMessage(messages[0]).value;
      var chunks := Chunks(bytes, maxFrame - OVERHEAD);
      var next := Plus(last, |chunks|);
      ChunksFit(bytes, maxFrame - OVERHEAD);
      SenderBears(messages[1..], acknowledgements[1..], next, maxFrame);
      NumberedBears(chunks, last, acknowledgements[0],
                    SentFrames(messages[1..], acknowledgements[1..], next, maxFrame),
                    AllChunks(messages[1..], maxFrame - OVERHEAD));
    }
  }

  /** Fillers do not change what a wire carries, wherever they are put in. */
  lemma {:induction false} PaddingCarries(wire: seq<Frame>, data: seq<Frame>, chunks: seq<seq<byte>>, last: byte)
    requires Padded(wire, data, last) && Bears(data, chunks, last)
    ensures Carries(wire, chunks, last)
  {
    hide Encode, Succ, IsFiller;
    if wire != [] {
      if IsFiller(wire[0], last) && Padded(wire[1..], data, last) {
        PaddingCarries(wire[1..], data, chunks, last);
      } else {
        PaddingCarries(wire[1..], data[1..], chunks[1..], Succ(last));
      }
    }
  }

  lemma WireAll(wire: seq<Frame>)
    requires wire != []
    ensures Wire(wire) == FrameBytes(wire[0]) + Wire(wire[1..])
  {
  }

  // ---- The receiver on such a wire ----

  /** A proper prefix of an encoded message is waited on; the whole of it is the message. */
  lemma TakePrefix(m: Message, n: nat)
    requires EncodeMessage(m).Ok? && n <= |EncodeMessage(m).value|
    ensures var bytes := EncodeMessage(m).value;
            Take(bytes[..n]) == if n < |bytes| then Need else Have(m, [])
  {
    hide Encodable, DecodeMessage, Print, U16;
    var bytes := EncodeMessage(m).value;
    var header := MessageHeader(m.id, |bytes|);
    assert bytes[..6] == header;
    if n >= 6 {
      assert forall i :: 0 <= i < 4 ==> bytes[..n][i] == header[i];
      assert header[..2][0] == 0x40 && header[..2][1] == 0x40;
      MessageExact(bytes, m);
      if n == |bytes| {
        assert bytes[..n] == bytes && bytes[n..] == [];
      }
    }
  }

  /** A filler changes nothing in the receiver. */
  lemma FillerIsSkipped(received: byte, buffer: seq<byte>, f: Frame, rest: seq<byte>)
    requires IsFiller(f, received) && Take(buffer) == Need
    ensures Drain(received, buffer, FrameBytes(f) + rest) == Drain(received, buffer, rest)
  {
    hide Encode, ReadFrame, Take;
    ReadsWhatWasWritten(f, rest);
    assert Next(received, buffer, FrameBytes(f) + rest) == Next(received, buffer, rest);
  }

  lemma DataIsAppended(received: byte, buffer: seq<byte>, acknowledgement: byte, payload: seq<byte>, rest: seq<byte>)
    requires Take(buffer) == Need && payload != [] && |buffer| + |payload| <= MAX_MESSAGE
    requires Encode(DataFrame(Succ(received), acknowledgement, payload)).Ok?
    ensures var f := DataFrame(Succ(received), acknowledgement, payload);
            Drain(received, buffer, FrameBytes(f) + rest) == Drain(Succ(received), buffer + payload, rest)
  {
    hide Encode, ReadFrame, Take;
    var f := DataFrame(Succ(received), acknowledgement, payload);
    ReadsWhatWasWritten(f, rest);
    assert Next(received, buffer, FrameBytes(f) + rest) == Next(Succ(received), buffer + payload, rest);
  }

  /** current is being received: buffer holds what came before chunks. */
  predicate Receiving(buffer: seq<byte>, current: Message, chunks: seq<seq<byte>>) {
    && EncodeMessage(current) == Ok(buffer + Concat(chunks))
    && Fitting(chunks, MAX_FRAME)
    && chunks != []
  }

  lemma ReceivingStep(buffer: seq<byte>, current: Message, chunks: seq<seq<byte>>)
    requires Receiving(buffer, current, chunks)
    ensures Take(buffer) == Need && chunks[0] != [] && |buffer| + |chunks[0]| <= MAX_MESSAGE
    ensures |chunks| == 1 ==> Take(buffer + chunks[0]) == Have(current, [])
    ensures |chunks| > 1 ==> Receiving(buffer + chunks[0], current, chunks[1..])
  {
    hide EncodeMessage, Take;
    var bytes := buffer + Concat(chunks);
    var n := |buffer| + |chunks[0]|;
    assert bytes == (buffer + chunks[0]) + Concat(chunks[1..]);
    TakePrefix(current, |buffer|);
    TakePrefix(current, n);
    assert bytes[..|buffer|] == buffer && bytes[..n] == buffer + chunks[0];
  }

  function Expected(current: Message, chunks: seq<seq<byte>>, messages: seq<Message>): seq<Message> {
    if chunks == [] then Accepted(messages) else [current] + Accepted(messages)
  }

  lemma {:induction false} Delivery(
    wire: seq<Frame>, buffer: seq<byte>, current: Message, chunks: seq<seq<byte>>, messages: seq<Message>,
    last: byte, size: nat)
    requires 0 < size <= MAX_FRAME
    requires Carries(wire, chunks + AllChunks(messages, size), last)
    requires if chunks == [] then buffer == [] else Receiving(buffer, current, chunks)
    ensures Drain(last, buffer, Wire(wire)) == (Expected(current, chunks, messages), None)
    decreases |wire|, |messages|
  {
    hide Encode, EncodeMessage, IsFiller, FrameBytes, Succ, Take, Next, Drain, Chunks, Receiving, Wire, ReadFrame;
    var pending := chunks + AllChunks(messages, size);
    if chunks == [] && messages != [] && EncodeMessage(messages[0]).Err? {
      assert pending == chunks + AllChunks(messages[1..], size);
      Delivery(wire, buffer, current, chunks, messages[1..], last, size);
      assert Accepted(messages) == Accepted(messages[1..]);
    } else if chunks == [] && messages != [] {
      var bytes := EncodeMessage(messages[0]).value;
      StartReceiving(messages[0], size);
      assert pending == Chunks(bytes, size) + AllChunks(messages[1..], size);
      Delivery(wire, [], messages[0], Chunks(bytes, size), messages[1..], last, size);
      assert Accepted(messages) == [messages[0]] + Accepted(messages[1..]);
    } else if wire == [] {
      Exhausted(last, buffer);
    } else {
      if chunks != [] { ReceivingStep(buffer, current, chunks); } else { EmptyNeeds(); }
      WireAll(wire);
      var f := wire[0];
      if IsFiller(f, last) && Carries(wire[1..], pending, last) {
        FillerIsSkipped(last, buffer, f, Wire(wire[1..]));
        Delivery(wire[1..], buffer, current, chunks, messages, last, size);
      } else {
        assert chunks != [] && pending[0] == chunks[0] && pending[1..] == chunks[1..] + AllChunks(messages, size);
        DataIsAppended(last, buffer, f.acknowledgement, chunks[0], Wire(wire[1..]));
        if |chunks| > 1 {
          Delivery(wire[1..], buffer + chunks[0], current, chunks[1..], messages, Succ(last), size);
        } else {
          Delivery(wire[1..], [], current, [], messages, Succ(last), size);
          HandOut(Succ(last), buffer + chunks[0], current, Wire(wire[1..]));
        }
      }
    }
  }

  lemma StartReceiving(m: Message, size: nat)
    requires 0 < size <= MAX_FRAME && EncodeMessage(m).Ok?
    ensures Receiving([], m, Chunks(EncodeMessage(m).value, size))
  {
    var bytes := EncodeMessage(m).value;
    hide EncodeMessage, Chunks;
    ChunksFit(bytes, size);
    ChunksJoin(bytes, size);
    assert [] + bytes == bytes;
  }

  lemma EmptyNeeds()
    ensures Take([]) == Need
  {
  }

  lemma Exhausted(received: byte, buffer: seq<byte>)
    requires buffer == []
    ensures Drain(received, buffer, Wire([])) == ([], None)
  {
  }

  lemma HandOut(received: byte, buffer: seq<byte>, m: Message, input: seq<byte>)
    requires Take(buffer) == Have(m, [])
    ensures Drain(received, buffer, input)
         == ([m] + Drain(received, [], input).0, Drain(received, [], input).1)
  {
    hide Take;
  }

  /**
   Exactly once and in order: for every list of messages, every negotiated frame size from 64 up and every starting
   sequence number, and with any acknowledgements and any repeats of the latest data frame put into what a run of sends
   writes, the peer hands out those messages of the list that can be encoded and meets no error. Sequence numbers wrap
   as often as the list needs.
   */
  lemma ExactlyOnceInOrder(
    messages: seq<Message>, acknowledgements: seq<byte>, maxFrame: nat, start: byte, wire: seq<Frame>)
    requires |acknowledgements| == |messages| && MIN_FRAME <= maxFrame <= MAX_FRAME
    requires Padded(wire, SentFrames(messages, acknowledgements, start, maxFrame), start)
    ensures Drain(start, [], Wire(wire)) == (Accepted(messages), None)
  {
    hide Drain, Wire, Padded, Bears, Carries, SentFrames, AllChunks;
    var size := maxFrame - OVERHEAD;
    var chunks := AllChunks(messages, size);
    SenderBears(messages, acknowledgements, start, maxFrame);
    PaddingCarries(wire, SentFrames(messages, acknowledgements, start, maxFrame), chunks, start);
    assert [] + chunks == chunks;
    Delivery(wire, [], Message(0, []), [], messages, start, size);
  }

  lemma {:induction false} UnpaddedIsPadded(data: seq<Frame>, last: byte)
    ensures Padded(data, data, last)
  {
    if data != [] {
      UnpaddedIsPadded(data[1..], data[0].sequence);
    }
  }

  /** In particular the bytes of a run of sends are received as its messages. */
  lemma SendsArrive(messages: seq<Message>, acknowledgements: seq<byte>, maxFrame: nat, start: byte)
    requires |acknowledgements| == |messages| && MIN_FRAME <= maxFrame <= MAX_FRAME
    ensures Drain(start, [], AfterSends(start, [], messages, acknowledgements, maxFrame).1)
         == (Accepted(messages), None)
  {
    hide Drain, Wire, Padded, SentFrames, AfterSends;
    var data := SentFrames(messages, acknowledgements, start, maxFrame);
    SendsWriteFrames(start, [], messages, acknowledgements, maxFrame);
    UnpaddedIsPadded(data, start);
    ExactlyOnceInOrder(messages, acknowledgements, maxFrame, start, data);
    assert [] + Wire(data) == Wire(data);
  }
}
