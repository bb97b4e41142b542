/**
 The local USB multiplexer: packets and envelopes, and the event loop with its TCP-like connections. Tasks, channels and
 USB transfers are replaced by the events they deliver; what the outside decides (whether too many reader tasks run,
 whether the client is gone, how much of a write succeeds) comes with the event.
 */
module UsbMux {
  import opened Bytes

  const MAX_ENVELOPE: nat := 65536
  const ENVELOPE: nat := 16
  const MIN_HEADER: nat := 20
  const MAX_CONNECTIONS: nat := 4
  const LAST_PORT: nat := 0xffff
  const SEND_LIMIT: nat := 131072
  const READ_SIZE: nat := 16384
  const WORD: nat := 0x1_0000_0000

  const HOST_MAGIC: nat := 0xfeedface
  const PHONE_MAGIC: nat := 0xfaceface

  // ---- Packets ----

  /**
   `envelope`: the host's and the phone's differ in their magic number. Its bound is not in question here, since a
   segment's payload is at most one read of 16384 bytes.
   */
  function EnvelopeBytes(protocol: u32, magic: u32, sequence: u16, body: seq<byte>): seq<byte> {
    Long(protocol) + Long(|body| + ENVELOPE) + Long(magic) + Word(sequence) + [0, 0] + body
  }

  datatype Segment = Segment(source: u16, destination: u16, sequence: u32, ack: u32, flags: byte, payload: seq<byte>)

  /** What stands in front: protocol, length and the phone's magic number. */
  predicate FromPhone(bytes: seq<byte>) {
    && ENVELOPE + MIN_HEADER <= |bytes| <= MAX_ENVELOPE
    && bytes[..4] == Long(6) && bytes[4..8] == Long(|bytes|) && bytes[8..12] == Long(PHONE_MAGIC)
  }

  /** The size of the segment's header, in its high four bits and in units of four bytes. */
  function HeaderSize(b: byte): nat {
    b / 16 * 4
  }

  function Fields(bytes: seq<byte>, header: nat): Segment
    requires MIN_HEADER <= header && ENVELOPE + header <= |bytes|
  {
    Segment(U16(bytes[16], bytes[17]), U16(bytes[18], bytes[19]), U32At(bytes, 20), U32At(bytes, 24),
            bytes[29], bytes[ENVELOPE + header..])
  }

  /** `packet`. */
  function ParsePacket(bytes: seq<byte>): Result<Segment> {
    if !FromPhone(bytes) then Err(Malformed)
    else
      var header := HeaderSize(bytes[28]);
      if header < MIN_HEADER || ENVELOPE + header > |bytes| then Err(Bounds) else Ok(Fields(bytes, header))
  }

  datatype Connection = Connection(remote: u16, sent: u32, received: u32, acknowledged: u32, ready: bool)

  /** `Connection::encode` with the local port filled in. */
  function SegmentBytes(local: u16, c: Connection, flags: byte, payload: seq<byte>): seq<byte> {
    Word(local) + Word(c.remote) + Long(c.sent) + Long(c.received) + [0x50, flags, 2, 0, 0, 0, 0, 0] + payload
  }

  lemma SegmentParts(local: u16, c: Connection, flags: byte, payload: seq<byte>)
    ensures var b := SegmentBytes(local, c, flags, payload);
            && |b| == MIN_HEADER + |payload|
            && U16(b[0], b[1]) == local && U16(b[2], b[3]) == c.remote
            && b[4..8] == Long(c.sent) && b[8..12] == Long(c.received)
            && b[12] == 0x50 && b[13] == flags && b[MIN_HEADER..] == payload
  {
    hide Word, U16, Long;
  }

  /** A segment that crosses the wire, with the peer's magic number, is read as what the sender's connection said. */
  lemma SegmentRoundTrip(local: u16, c: Connection, flags: byte, payload: seq<byte>, sequence: u16)
    requires ENVELOPE + MIN_HEADER + |payload| <= MAX_ENVELOPE
    ensures ParsePacket(EnvelopeBytes(6, PHONE_MAGIC, sequence, SegmentBytes(local, c, flags, payload)))
         == Ok(Segment(local, c.remote, c.sent, c.received, flags, payload))
  {
    hide Word, Long, SegmentBytes;
    var body := SegmentBytes(local, c, flags, payload);
    var bytes := EnvelopeBytes(6, PHONE_MAGIC, sequence, body);
    SegmentParts(local, c, flags, payload);
    var head := Long(6) + Long(|body| + ENVELOPE) + Long(PHONE_MAGIC) + Word(sequence) + [0, 0];
    assert bytes == head + body;
    Joined(head, body);
    assert head[..4] == Long(6) && head[4..8] == Long(|bytes|) && head[8..12] == Long(PHONE_MAGIC);
    assert bytes[..4] == head[..4] && bytes[4..8] == head[4..8] && bytes[8..12] == head[8..12];
    assert forall i :: 0 <= i < |body| ==> bytes[ENVELOPE + i] == body[i];
    assert bytes[20..24] == body[4..8] && bytes[24..28] == body[8..12];
    assert bytes[ENVELOPE + MIN_HEADER..] == body[MIN_HEADER..];
  }

  // ---- The event loop ----

  datatype Event =
    | Open(remote: u16, busy: bool)
    | Data(local: u16, bytes: seq<byte>)
    | Closed(local: u16)
    | Packet(bytes: seq<byte>, clientGone: bool, taken: Option<nat>)

  type Connections = map<u16, Connection>

  /**
   The loop's variables and the error that ended it, with a record of its run: the envelopes it has sent, the bytes it
   has written to each client and sent for each, and the local ports it has given out.
   */
  datatype Mux = Mux(connections: Connections, port: u16, sequence: u16, ended: Option<Error>, output: seq<seq<byte>>,
                     written: map<u16, seq<byte>>, sent: map<u16, nat>, ports: seq<u16>)

  const START := Mux(map[], 1, 1, None, [], map[], map[], [])

  function Written(m: Mux, local: u16): seq<byte> {
    if local in m.written then m.written[local] else []
  }

  function SentBytes(m: Mux, local: u16): nat {
    if local in m.sent then m.sent[local] else 0
  }

  function Plus(a: u32, k: nat): u32 {
    (a + k) % WORD
  }

  function Minus(a: u32, b: u32): u32 {
    (a - b) % WORD
  }

  /** The function send: the envelope is numbered and goes out. */
  function Emit(m: Mux, local: u16, c: Connection, flags: byte, payload: seq<byte>): (r: Mux)
    ensures r == m.(output := r.output, sequence := r.sequence)
  {
    var bytes := EnvelopeBytes(6, HOST_MAGIC, m.sequence, SegmentBytes(local, c, flags, payload));
    m.(output := m.output + [bytes], sequence := (m.sequence + 1) % 0x1_0000)
  }

  function End(m: Mux, error: Error): Mux {
    m.(ended := Some(error))
  }

  function Keep(m: Mux, local: u16, c: Connection): Mux {
    m.(connections := m.connections[local := c])
  }

  function Remove(m: Mux, local: u16): Mux {
    m.(connections := m.connections - {local})
  }

  function OnOpen(m: Mux, remote: u16, busy: bool): Mux {
    if |m.connections| >= MAX_CONNECTIONS || busy || m.port == LAST_PORT then m
    else
      var c := Connection(remote, 0, 0, 0, true);
      Keep(Emit(m.(port := m.port + 1, ports := m.ports + [m.port]), m.port, c, 2, []), m.port, c)
  }

  function OnData(m: Mux, local: u16, bytes: seq<byte>): Mux {
    if local !in m.connections then m
    else
      var c := m.connections[local];
      if c.ready || Minus(c.sent, c.acknowledged) > SEND_LIMIT then End(m, Bounds)
      else
        var m' := m.(sent := m.sent[local := SentBytes(m, local) + |bytes|]);
        Keep(Emit(m', local, c, 16, bytes), local, c.(sent := Plus(c.sent, |bytes|)))
  }

  function OnClosed(m: Mux, local: u16): Mux {
    if local !in m.connections then m else Emit(Remove(m, local), local, m.connections[local], 17, [])
  }

  predicate Fin(flags: byte) { flags % 2 == 1 }
  predicate Syn(flags: byte) { flags / 2 % 2 == 1 }
  predicate Rst(flags: byte) { flags / 4 % 2 == 1 }
  predicate Ack(flags: byte) { flags / 16 % 2 == 1 }

  /** The peer accepted the connection. */
  function OnAccepted(m: Mux, p: Segment, clientGone: bool): Mux
    requires p.destination in m.connections
  {
    var local, c := p.destination, m.connections[p.destination];
    if p.ack != 1 then End(m, Error.Sequence)
    else
      var c' := c.(sent := 1, acknowledged := 1, received := Plus(p.sequence, 1));
      var m' := Emit(m, local, c', 16, []);
      if clientGone then Remove(m', local) else Keep(m', local, c'.(ready := false))
  }

  /** The acknowledgement of a segment: None when it acknowledges what was not sent. */
  function Acknowledge(c: Connection, p: Segment): Option<Connection> {
    if !Ack(p.flags) then Some(c)
    else if Minus(p.ack, c.acknowledged) <= Minus(c.sent, c.acknowledged) then Some(c.(acknowledged := p.ack))
    else None
  }

  function Write(m: Mux, local: u16, bytes: seq<byte>): Mux {
    m.(written := m.written[local := Written(m, local) + bytes])
  }

  /** The payload of a segment: written when it comes next, skipped when it is the last one again. */
  function OnPayload(m: Mux, local: u16, c: Connection, p: Segment, taken: Option<nat>): (Mux, Connection) {
    if p.payload == [] then (m, c)
    else if p.sequence == c.received then
      if taken.Some? && taken.value < |p.payload| then (End(Write(m, local, p.payload[..taken.value]), Rejected), c)
      else
        var c' := c.(received := Plus(c.received, |p.payload|));
        (Emit(Write(m, local, p.payload), local, c', 16, []), c')
    else if Plus(p.sequence, |p.payload|) != c.received then (End(m, Error.Sequence), c)
    else (Emit(m, local, c, 16, []), c)
  }

  function OnSegment(m: Mux, p: Segment, clientGone: bool, taken: Option<nat>): Mux {
    var local := p.destination;
    if local !in m.connections then m
    else
      var c := m.connections[local];
      if p.source != c.remote then End(m, Malformed)
      else if Rst(p.flags) then Remove(m, local)
      else if Syn(p.flags) && Ack(p.flags) && c.ready then OnAccepted(m, p, clientGone)
      else if c.ready then End(m, State)
      else match Acknowledge(c, p)
        case None => End(m, Error.Sequence)
        case Some(c) => OnEstablished(m, local, c, p, taken)
  }

  /** A segment of an established connection, after its acknowledgement. */
  function OnEstablished(m: Mux, local: u16, c: Connection, p: Segment, taken: Option<nat>): Mux {
    var (m', c') := OnPayload(m, local, c, p, taken);
    if m'.ended.Some? then m'
    else if Fin(p.flags) then
      var c'' := c'.(received := Plus(c'.received, 1));
      Remove(Emit(m', local, c'', 16, []), local)
    else Keep(m', local, c')
  }

  function OnPacket(m: Mux, bytes: seq<byte>, clientGone: bool, taken: Option<nat>): Mux {
    if |bytes| < ENVELOPE || bytes[..4] != Long(6) then m
    else match ParsePacket(bytes)
      case Err(error) => End(m, error)
      case Ok(p) => OnSegment(m, p, clientGone, taken)
  }

  /** One event; nothing happens after the loop has ended, and the reader task delivers 1 to 16384 bytes at a time. */
  function Apply(m: Mux, event: Event): Mux {
    if m.ended.Some? then m
    else match event
      case Open(remote, busy) => OnOpen(m, remote, busy)
      case Data(local, bytes) => if 0 < |bytes| <= READ_SIZE then OnData(m, local, bytes) else m
      case Closed(local) => OnClosed(m, local)
      case Packet(bytes, clientGone, taken) => OnPacket(m, bytes, clientGone, taken)
  }

  function Run(events: seq<Event>): Mux {
    if events == [] then START
    else Apply(Run(events[..|events| - 1]), events[|events| - 1])
  }

  // ---- The loop as it runs ----

  class EventLoop {
    var connections: Connections
    var port: u16
    var sequence: u16
    var ended: Option<Error>
    var output: seq<seq<byte>>
    var written: map<u16, seq<byte>>
    ghost var sent: map<u16, nat>
    ghost var ports: seq<u16>

    constructor ()
      ensures View() == START
    {
      connections, port, sequence, ended, output, written, sent, ports := map[], 1, 1, None, [], map[], map[], [];
    }

    ghost function View(): Mux
      reads this
    {
      Mux(connections, port, sequence, ended, output, written, sent, ports)
    }

    /** `send`. */
    method Send(local: u16, c: Connection, flags: byte, payload: seq<byte>)
      modifies this`output, this`sequence
      ensures View() == Emit(old(View()), local, c, flags, payload)
    {
      hide EnvelopeBytes, SegmentBytes;
      output := output + [EnvelopeBytes(6, HOST_MAGIC, sequence, SegmentBytes(local, c, flags, payload))];
      sequence := (sequence + 1) % 0x1_0000;
    }

    method HandleOpen(remote: u16, busy: bool)
      modifies this
      ensures View() == OnOpen(old(View()), remote, busy)
    {
      hide EnvelopeBytes, SegmentBytes;
      if |connections| >= MAX_CONNECTIONS || busy || port == LAST_PORT {
        return;
      }
      var local := port;
      port := port + 1;
      ports := ports + [local];
      var c := Connection(remote, 0, 0, 0, true);
      Send(local, c, 2, []);
      connections := connections[local := c];
    }

    method HandleData(local: u16, bytes: seq<byte>)
      modifies this
      ensures View() == OnData(old(View()), local, bytes)
    {
      hide EnvelopeBytes, SegmentBytes;
      if local in connections {
        var c := connections[local];
        if c.ready || Minus(c.sent, c.acknowledged) > SEND_LIMIT {
          ended := Some(Bounds);
          return;
        }
        sent := sent[local := SentBytes(View(), local) + |bytes|];
        Send(local, c, 16, bytes);
        connections := connections[local := c.(sent := Plus(c.sent, |bytes|))];
      }
    }

    method HandleClosed(local: u16)
      modifies this
      ensures View() == OnClosed(old(View()), local)
    {
      hide EnvelopeBytes, SegmentBytes;
      if local in connections {
        var c := connections[local];
        connections := connections - {local};
        Send(local, c, 17, []);
      }
    }

    method HandlePacket(bytes: seq<byte>, clientGone: bool, taken: Option<nat>)
      requires ended.None?
      modifies this
      ensures View() == OnPacket(old(View()), bytes, clientGone, taken)
    {
      hide EnvelopeBytes, SegmentBytes, ParsePacket, Plus, Minus, Long;
      if |bytes| < ENVELOPE || bytes[..4] != Long(6) {
        return;
      }
      var parsed := ParsePacket(bytes);
      if parsed.Err? {
        ended := Some(parsed.error);
        return;
      }
      HandleSegment(parsed.value, clientGone, taken);
    }

    /** The part of the packet event that deals with a payload. */
    method HandlePayload(local: u16, connection: Connection, p: Segment, taken: Option<nat>) returns (c: Connection)
      requires ended.None?
      modifies this`output, this`sequence, this`written, this`ended
      ensures (View(), c) == OnPayload(old(View()), local, connection, p, taken)
    {
      hide Emit, Plus;
      c := connection;
      if p.payload == [] {
        return;
      }
      if p.sequence == c.received {
        var before := if local in written then written[local] else [];
        if taken.Some? && taken.value < |p.payload| {
          written := written[local := before + p.payload[..taken.value]];
          ended := Some(Rejected);
          return;
        }
        written := written[local := before + p.payload];
        c := c.(received := Plus(c.received, |p.payload|));
      } else if Plus(p.sequence, |p.payload|) != c.received {
        ended := Some(Error.Sequence);
        return;
      }
      Send(local, c, 16, []);
    }

    method HandleSegment(p: Segment, clientGone: bool, taken: Option<nat>)
      requires ended.None?
      modifies this
      ensures View() == OnSegment(old(View()), p, clientGone, taken)
    {
      hide Emit, OnPayload, Plus, Minus, Fin, Syn, Rst, Ack;
      var local := p.destination;
      if local !in connections {
        return;
      }
      var c := connections[local];
      if p.source != c.remote {
        ended := Some(Malformed);
        return;
      }
      if Rst(p.flags) {
        connections := connections - {local};
        return;
      }
      if Syn(p.flags) && Ack(p.flags) && c.ready {
        if p.ack != 1 {
          ended := Some(Error.Sequence);
          return;
        }
        c := c.(sent := 1, acknowledged := 1, received := Plus(p.sequence, 1));
        Send(local, c, 16, []);
        if clientGone {
          connections := connections - {local};
        } else {
          connections := connections[local := c.(ready := false)];
        }
        return;
      }
      if c.ready {
        ended := Some(State);
        return;
      }
      if Ack(p.flags) {
        if Minus(p.ack, c.acknowledged) > Minus(c.sent, c.acknowledged) {
          ended := Some(Error.Sequence);
          return;
        }
        c := c.(acknowledged := p.ack);
      }
      c := HandlePayload(local, c, p, taken);
      if ended.Some? {
        return;
      }
      if Fin(p.flags) {
        c := c.(received := Plus(c.received, 1));
        Send(local, c, 16, []);
        connections := connections - {local};
      } else {
        connections := connections[local := c];
      }
    }
  }

  // ---- Ports, envelopes and limits ----

  /** Local ports are given out in increasing order, so none twice; only ports given out are in use. */
  ghost predicate PortsInOrder(m: Mux) {
    && m.port >= 1
    && (forall i, j :: 0 <= i < j < |m.ports| ==> m.ports[i] < m.ports[j])
    && (forall i :: 0 <= i < |m.ports| ==> m.ports[i] < m.port)
    && (forall local :: local in m.connections || local in m.written || local in m.sent ==> local < m.port)
  }

  predicate Few(m: Mux) {
    |m.connections| <= MAX_CONNECTIONS
  }

  /** Envelopes are numbered from 1, modulo 65536. */
  predicate Numbered(m: Mux) {
    m.sequence == (1 + |m.output|) % 0x1_0000
  }

  /** The connection's one-word counters are those of an unbounded count of bytes sent and acknowledged. */
  ghost predicate Counted(c: Connection, total: nat) {
    if c.ready then c.sent == 0 && c.acknowledged == 0 && total == 0
    else
      var outstanding := Minus(c.sent, c.acknowledged);
      && c.sent == Plus(1, total)
      && outstanding <= total
      && outstanding <= SEND_LIMIT + READ_SIZE
  }

  ghost predicate AllCounted(m: Mux) {
    forall local :: local in m.connections ==> Counted(m.connections[local], SentBytes(m, local))
  }

  lemma ConnectionCount(cs: Connections, local: u16, c: Connection)
    ensures |cs[local := c]| == |cs| + if local in cs then 0 else 1
    ensures |cs - {local}| <= |cs|
  {
    assert cs[local := c].Keys == cs.Keys + {local};
    assert cs.Keys == (cs - {local}).Keys + (cs.Keys * {local});
    assert |cs[local := c].Keys| == |cs[local := c]| && |cs.Keys| == |cs| && |(cs - {local}).Keys| == |cs - {local}|;
  }

  lemma PayloadShape(m: Mux, local: u16, c: Connection, p: Segment, taken: Option<nat>)
    ensures var m' := OnPayload(m, local, c, p, taken).0;
            && m'.port == m.port && m'.ports == m.ports && m'.sent == m.sent && m'.connections == m.connections
            && (m'.written == m.written || (local in m'.written && m'.written == m.written[local := m'.written[local]]))
  {
    hide Emit, Plus;
  }

  /** All that a segment for a local port can change outside that port's connection and record. */
  lemma SegmentShape(m: Mux, p: Segment, clientGone: bool, taken: Option<nat>)
    ensures var local := p.destination;
            var m' := OnSegment(m, p, clientGone, taken);
            && m'.port == m.port && m'.ports == m.ports && m'.sent == m.sent
            && (m'.connections == m.connections
                || (local in m.connections && m'.connections == m.connections - {local})
                || (local in m.connections && local in m'.connections
                    && m'.connections == m.connections[local := m'.connections[local]]))
            && (m'.written == m.written
                || (local in m.connections && local in m'.written
                    && m'.written == m.written[local := m'.written[local]]))
  {
    hide OnEstablished, OnAccepted, Plus, Minus, Syn, Rst, Ack, Acknowledge;
    var local := p.destination;
    if local in m.connections {
      AcceptedShape(m, p, clientGone);
    }
    if local in m.connections && Acknowledge(m.connections[local], p).Some? {
      EstablishedShape(m, local, Acknowledge(m.connections[local], p).value, p, taken);
    }
  }

  lemma AcceptedShape(m: Mux, p: Segment, clientGone: bool)
    requires p.destination in m.connections
    ensures var local := p.destination;
            var m' := OnAccepted(m, p, clientGone);
            && m'.port == m.port && m'.ports == m.ports && m'.sent == m.sent && m'.written == m.written
            && (m'.connections == m.connections || m'.connections == m.connections - {local}
                || (local in m'.connections && m'.connections == m.connections[local := m'.connections[local]]))
  {
    hide Emit, Plus;
  }

  lemma EstablishedShape(m: Mux, local: u16, c: Connection, p: Segment, taken: Option<nat>)
    requires local in m.connections
    ensures var m' := OnEstablished(m, local, c, p, taken);
            && m'.port == m.port && m'.ports == m.ports && m'.sent == m.sent
            && (m'.connections == m.connections || m'.connections == m.connections - {local}
                || (local in m'.connections && m'.connections == m.connections[local := m'.connections[local]]))
            && (m'.written == m.written || (local in m'.written && m'.written == m.written[local := m'.written[local]]))
  {
    PayloadShape(m, local, c, p, taken);
    hide Emit, OnPayload, Plus, Fin;
  }

  lemma SegmentKeepsPorts(m: Mux, p: Segment, clientGone: bool, taken: Option<nat>)
    requires PortsInOrder(m)
    ensures PortsInOrder(OnSegment(m, p, clientGone, taken))
  {
    hide OnSegment;
    SegmentShape(m, p, clientGone, taken);
  }

  lemma OpenKeepsPorts(m: Mux, remote: u16, busy: bool)
    requires PortsInOrder(m)
    ensures PortsInOrder(OnOpen(m, remote, busy))
  {
    hide Emit;
  }

  lemma PortsStep(m: Mux, event: Event)
    requires PortsInOrder(m)
    ensures PortsInOrder(Apply(m, event))
  {
    hide Emit, ParsePacket, OnSegment, OnOpen, Plus, Minus, Long;
    match event
    case Open(remote, busy) => OpenKeepsPorts(m, remote, busy);
    case Data(local, bytes) =>
    case Closed(local) =>
    case Packet(bytes, clientGone, taken) =>
      if |bytes| >= ENVELOPE && ParsePacket(bytes).Ok? {
        SegmentKeepsPorts(m, ParsePacket(bytes).value, clientGone, taken);
      }
  }

  lemma SegmentKeepsFew(m: Mux, p: Segment, clientGone: bool, taken: Option<nat>)
    requires Few(m)
    ensures Few(OnSegment(m, p, clientGone, taken))
  {
    hide OnSegment;
    var local, m' := p.destination, OnSegment(m, p, clientGone, taken);
    SegmentShape(m, p, clientGone, taken);
    if local in m.connections {
      ConnectionCount(m.connections, local,
                      if local in m'.connections then m'.connections[local] else m.connections[local]);
    }
  }

  lemma DataKeepsFew(m: Mux, local: u16, bytes: seq<byte>)
    requires Few(m)
    ensures Few(OnData(m, local, bytes))
  {
    hide Emit, Plus, Minus;
    if local in m.connections {
      var c := m.connections[local];
      ConnectionCount(m.connections, local, c.(sent := Plus(c.sent, |bytes|)));
    }
  }

  lemma OpenKeepsFew(m: Mux, remote: u16, busy: bool)
    requires Few(m)
    ensures Few(OnOpen(m, remote, busy))
  {
    hide Emit;
    ConnectionCount(m.connections, m.port, Connection(remote, 0, 0, 0, true));
  }

  lemma FewStep(m: Mux, event: Event)
    requires Few(m)
    ensures Few(Apply(m, event))
  {
    hide Emit, ParsePacket, OnSegment, OnOpen, OnData, Long;
    match event
    case Open(remote, busy) => OpenKeepsFew(m, remote, busy);
    case Data(local, bytes) => DataKeepsFew(m, local, bytes);
    case Closed(local) => ConnectionCount(m.connections, local, Connection(0, 0, 0, 0, true));
    case Packet(bytes, clientGone, taken) =>
      if |bytes| >= ENVELOPE && ParsePacket(bytes).Ok? {
        SegmentKeepsFew(m, ParsePacket(bytes).value, clientGone, taken);
      }
  }

  lemma EmitNumbers(m: Mux, local: u16, c: Connection, flags: byte, payload: seq<byte>)
    requires Numbered(m)
    ensures Numbered(Emit(m, local, c, flags, payload))
  {
    hide EnvelopeBytes, SegmentBytes;
  }

  lemma PayloadNumbers(m: Mux, local: u16, c: Connection, p: Segment, taken: Option<nat>)
    requires Numbered(m)
    ensures Numbered(OnPayload(m, local, c, p, taken).0)
  {
    hide Emit, Plus;
    EmitNumbers(Write(m, local, p.payload), local, c.(received := Plus(c.received, |p.payload|)), 16, []);
    EmitNumbers(m, local, c, 16, []);
  }

  lemma SegmentNumbers(m: Mux, p: Segment, clientGone: bool, taken: Option<nat>)
    requires Numbered(m)
    ensures Numbered(OnSegment(m, p, clientGone, taken))
  {
    hide Emit, OnPayload, Plus, Minus, Fin, Syn, Rst, Ack, Acknowledge;
    var local := p.destination;
    if local in m.connections {
      var c := m.connections[local];
      EmitNumbers(m, local, c.(sent := 1, acknowledged := 1, received := Plus(p.sequence, 1)), 16, []);
      if Acknowledge(c, p).Some? {
        PayloadNumbers(m, local, Acknowledge(c, p).value, p, taken);
        var (m', c') := OnPayload(m, local, Acknowledge(c, p).value, p, taken);
        EmitNumbers(m', local, c'.(received := Plus(c'.received, 1)), 16, []);
      }
    }
  }

  lemma NumbersStep(m: Mux, event: Event)
    requires Numbered(m)
    ensures Numbered(Apply(m, event))
  {
    hide EnvelopeBytes, SegmentBytes, ParsePacket, OnSegment, Plus, Minus, Long;
    if event.Packet? && |event.bytes| >= ENVELOPE && ParsePacket(event.bytes).Ok? {
      SegmentNumbers(m, ParsePacket(event.bytes).value, event.clientGone, event.taken);
    }
  }

  // ---- Counters ----

  lemma MinusPlus(a: u32, b: u32, k: nat)
    requires Minus(a, b) + k < WORD
    ensures Minus(Plus(a, k), b) == Minus(a, b) + k
    ensures Plus(Plus(1, k), 0) == Plus(1, k)
  {
  }

  lemma PlusPlus(a: u32, j: nat, k: nat)
    ensures Plus(Plus(a, j), k) == Plus(a, j + k)
  {
    var q := (a + j) / WORD;
    assert a + j == q * WORD + Plus(a, j);
    assert a + (j + k) == (Plus(a, j) + k) + WORD * q;
    Multiple(Plus(a, j) + k, q);
  }

  lemma Multiple(n: int, q: int)
    ensures (n + WORD * q) % WORD == n % WORD
  {
  }

  /** An acknowledgement within the outstanding bytes leaves the rest outstanding. */
  lemma MinusShrinks(sent: u32, acknowledged: u32, ack: u32)
    requires Minus(ack, acknowledged) <= Minus(sent, acknowledged)
    ensures Minus(sent, ack) == Minus(sent, acknowledged) - Minus(ack, acknowledged)
  {
  }

  lemma DataCounts(c: Connection, total: nat, size: nat)
    requires Counted(c, total) && !c.ready && Minus(c.sent, c.acknowledged) <= SEND_LIMIT && size <= READ_SIZE
    ensures Counted(c.(sent := Plus(c.sent, size)), total + size)
  {
    hide Plus, Minus;
    MinusPlus(c.sent, c.acknowledged, size);
    PlusPlus(1, total, size);
  }

  lemma AckCounts(c: Connection, total: nat, p: Segment)
    requires Counted(c, total) && !c.ready && Acknowledge(c, p).Some?
    ensures Counted(Acknowledge(c, p).value, total) && !Acknowledge(c, p).value.ready
  {
    hide Plus, Minus;
    if Ack(p.flags) {
      MinusShrinks(c.sent, c.acknowledged, p.ack);
    }
  }

  lemma CountedStep(m: Mux, event: Event)
    requires PortsInOrder(m) && AllCounted(m)
    ensures AllCounted(Apply(m, event))
  {
    hide EnvelopeBytes, SegmentBytes, ParsePacket, OnSegment, Plus, Minus, Long, Counted;
    match event
    case Open(remote, busy) =>
      FreshCounts(remote);
    case Data(local, bytes) =>
      if local in m.connections {
        var c := m.connections[local];
        if !c.ready && Minus(c.sent, c.acknowledged) <= SEND_LIMIT && |bytes| <= READ_SIZE {
          DataCounts(c, SentBytes(m, local), |bytes|);
        }
      }
    case Closed(local) =>
    case Packet(bytes, clientGone, taken) =>
      if ParsePacket(bytes).Ok? {
        SegmentCounts(m, ParsePacket(bytes).value, clientGone, taken);
      }
  }

  lemma FreshCounts(remote: u16)
    ensures Counted(Connection(remote, 0, 0, 0, true), 0)
  {
  }

  lemma AcceptedCounts(c: Connection, received: u32)
    requires Counted(c, 0)
    ensures Counted(c.(sent := 1, acknowledged := 1, received := received, ready := false), 0)
  {
  }

  lemma ReadyIsZero(c: Connection, total: nat)
    requires Counted(c, total) && c.ready
    ensures total == 0
  {
  }

  lemma ReceivedDoesNotCount(c: Connection, total: nat, received: u32)
    requires Counted(c, total)
    ensures Counted(c.(received := received), total)
  {
  }

  /** What a segment leaves of a connection that stays: its counters come from an acceptance or an acknowledgement. */
  lemma SegmentConnection(m: Mux, p: Segment, clientGone: bool, taken: Option<nat>)
    requires p.destination in m.connections && p.destination in OnSegment(m, p, clientGone, taken).connections
    ensures var c := m.connections[p.destination];
            var c' := OnSegment(m, p, clientGone, taken).connections[p.destination];
            || c' == c
            || (c.ready && c' == c.(sent := 1, acknowledged := 1, received := c'.received, ready := false))
            || (!c.ready && Acknowledge(c, p).Some? && c' == Acknowledge(c, p).value.(received := c'.received))
  {
    hide Emit, Plus, Minus, Fin, Syn, Rst, Ack, Acknowledge;
  }

  lemma SegmentCounts(m: Mux, p: Segment, clientGone: bool, taken: Option<nat>)
    requires PortsInOrder(m) && AllCounted(m)
    ensures AllCounted(OnSegment(m, p, clientGone, taken))
  {
    hide Plus, Minus, Acknowledge, Counted, OnSegment;
    var local := p.destination;
    var m' := OnSegment(m, p, clientGone, taken);
    SegmentShape(m, p, clientGone, taken);
    if local in m.connections && local in m'.connections {
      var c, c', total := m.connections[local], m'.connections[local], SentBytes(m, local);
      assert Counted(c, total);
      SegmentConnection(m, p, clientGone, taken);
      if c.ready {
        ReadyIsZero(c, total);
        AcceptedCounts(c, c'.received);
      } else if Acknowledge(c, p).Some? {
        AckCounts(c, total, p);
        ReceivedDoesNotCount(Acknowledge(c, p).value, total, c'.received);
      }
    }
  }

  // ---- Stream integrity ----

  /** The phone's side of a connection: its initial sequence number and the bytes it has to send. */
  datatype Phone = Phone(initial: u32, stream: seq<byte>)

  /**
   The segment is the phone's slice at some offset of its stream that is not a whole number of times the sequence number
   space away from what the client has been written already.
   */
  ghost predicate SliceOf(phone: Phone, delivered: nat, p: Segment) {
    exists o: nat :: SliceAt(phone, delivered, p, o)
  }

  ghost predicate SliceAt(phone: Phone, delivered: nat, p: Segment, o: nat) {
    && o + |p.payload| <= |phone.stream|
    && p.payload == phone.stream[o..o + |p.payload|]
    && p.sequence == Plus(phone.initial, 1 + o)
    && ((o - delivered) % WORD == 0 ==> o == delivered)
  }

  /** A segment as a phone would send it on a connection it knows. */
  ghost predicate Honest(m: Mux, phones: map<u16, Phone>, p: Segment) {
    p.destination in m.connections ==>
      && p.destination in phones
      && if m.connections[p.destination].ready then p.sequence == phones[p.destination].initial
         else p.payload == [] || SliceOf(phones[p.destination], |Written(m, p.destination)|, p)
  }

  ghost predicate HonestRun(phones: map<u16, Phone>, events: seq<Event>) {
    events == [] ||
    (var event := events[|events| - 1];
     && HonestRun(phones, events[..|events| - 1])
     && (event.Packet? && ParsePacket(event.bytes).Ok? ==>
           Honest(Run(events[..|events| - 1]), phones, ParsePacket(event.bytes).value)))
  }

  /** The client has been written the front of the phone's stream, and the connection counts its bytes. */
  ghost predicate InStep(phone: Phone, c: Connection, written: seq<byte>) {
    if c.ready then written == []
    else written <= phone.stream && c.received == Plus(phone.initial, 1 + |written|)
  }

  ghost predicate PrefixesOnly(written: map<u16, seq<byte>>, phones: map<u16, Phone>) {
    forall local :: local in written ==> local in phones && written[local] <= phones[local].stream
  }

  ghost predicate LocalInStep(phones: map<u16, Phone>, local: u16, c: Connection, written: seq<byte>) {
    if c.ready then written == [] && c.received == 0 else local in phones && InStep(phones[local], c, written)
  }

  ghost predicate Faithful(m: Mux, phones: map<u16, Phone>) {
    && PrefixesOnly(m.written, phones)
    && (m.ended.None? ==>
          forall local :: local in m.connections ==>
            LocalInStep(phones, local, m.connections[local], Written(m, local)))
  }

  /** Two offsets have the same sequence number exactly when they are congruent. */
  lemma SameNumber(initial: u32, a: nat, b: nat)
    ensures Plus(initial, 1 + a) == Plus(initial, 1 + b) <==> (a - b) % WORD == 0
  {
    var x, y := (initial + 1 + a) / WORD, (initial + 1 + b) / WORD;
    assert initial + 1 + a == WORD * x + Plus(initial, 1 + a);
    assert initial + 1 + b == WORD * y + Plus(initial, 1 + b);
    Multiple(Plus(initial, 1 + a) - Plus(initial, 1 + b), x - y);
  }

  /** The accepted payload is the next of the phone's bytes. */
  lemma NextBytes(phone: Phone, c: Connection, written: seq<byte>, p: Segment)
    requires !c.ready && InStep(phone, c, written) && p.payload != []
    requires SliceOf(phone, |written|, p) && p.sequence == c.received
    ensures forall k :: 0 <= k <= |p.payload| ==> written + p.payload[..k] <= phone.stream
    ensures written + p.payload <= phone.stream
    ensures InStep(phone, c.(received := Plus(c.received, |p.payload|)), written + p.payload)
  {
    hide Plus;
    var o: nat :| SliceAt(phone, |written|, p, o);
    SameNumber(phone.initial, o, |written|);
    PlusPlus(phone.initial, 1 + |written|, |p.payload|);
    assert forall k :: 0 <= k <= |p.payload| ==> p.payload[..k] == phone.stream[o..o + k];
    assert p.payload[..|p.payload|] == p.payload;
  }

  lemma PayloadIsFaithful(m: Mux, phones: map<u16, Phone>, local: u16, c: Connection, p: Segment, taken: Option<nat>)
    requires m.ended.None? && PrefixesOnly(m.written, phones) && local in phones && !c.ready
    requires InStep(phones[local], c, Written(m, local))
    requires p.payload == [] || SliceOf(phones[local], |Written(m, local)|, p)
    ensures var (m', c') := OnPayload(m, local, c, p, taken);
            && PrefixesOnly(m'.written, phones)
            && (forall l :: l != local ==> Written(m', l) == Written(m, l))
            && (m'.ended.None? ==> InStep(phones[local], c', Written(m', local)) && !c'.ready)
  {
    hide Emit, Plus, SliceOf;
    if p.payload != [] && p.sequence == c.received {
      NextBytes(phones[local], c, Written(m, local), p);
    }
  }

  lemma EstablishedIsFaithful(
    m: Mux, phones: map<u16, Phone>, local: u16, c: Connection, p: Segment, taken: Option<nat>)
    requires m.ended.None? && Faithful(m, phones) && local in m.connections && local in phones && !c.ready
    requires InStep(phones[local], c, Written(m, local))
    requires p.payload == [] || SliceOf(phones[local], |Written(m, local)|, p)
    ensures Faithful(OnEstablished(m, local, c, p, taken), phones)
  {
    hide Emit, OnPayload, Plus, Fin, SliceOf, InStep, Written, PrefixesOnly;
    PayloadIsFaithful(m, phones, local, c, p, taken);
    PayloadShape(m, local, c, p, taken);
    WrittenOnly(OnPayload(m, local, c, p, taken).0, OnEstablished(m, local, c, p, taken));
  }

  /** What was written depends on the record of it alone. */
  lemma WrittenOnly(a: Mux, b: Mux)
    ensures a.written == b.written ==> forall local :: Written(a, local) == Written(b, local)
  {
  }

  lemma AcceptedIsFaithful(m: Mux, phones: map<u16, Phone>, p: Segment, clientGone: bool)
    requires m.ended.None? && Faithful(m, phones) && p.destination in m.connections && p.destination in phones
    requires m.connections[p.destination].ready && p.sequence == phones[p.destination].initial
    ensures Faithful(OnAccepted(m, p, clientGone), phones)
  {
    hide Emit, Plus, InStep, Written, PrefixesOnly;
    StartInStep(phones[p.destination], m.connections[p.destination], p);
    WrittenOnly(m, OnAccepted(m, p, clientGone));
  }

  lemma SegmentIsFaithful(m: Mux, phones: map<u16, Phone>, p: Segment, clientGone: bool, taken: Option<nat>)
    requires m.ended.None? && Faithful(m, phones) && Honest(m, phones, p)
    ensures Faithful(OnSegment(m, p, clientGone, taken), phones)
  {
    hide OnEstablished, OnAccepted, Plus, Minus, Fin, Syn, Rst, Ack, SliceOf, PrefixesOnly;
    var local := p.destination;
    if local in m.connections {
      var c := m.connections[local];
      if c.ready {
        AcceptedIsFaithful(m, phones, p, clientGone);
      } else if Acknowledge(c, p).Some? {
        EstablishedIsFaithful(m, phones, local, Acknowledge(c, p).value, p, taken);
      }
    }
  }

  lemma StartInStep(phone: Phone, c: Connection, p: Segment)
    requires p.sequence == phone.initial
    ensures InStep(phone, c.(sent := 1, acknowledged := 1, received := Plus(p.sequence, 1), ready := false), [])
  {
  }

  lemma OpenIsFaithful(m: Mux, phones: map<u16, Phone>, remote: u16, busy: bool)
    requires PortsInOrder(m) && Faithful(m, phones)
    ensures Faithful(OnOpen(m, remote, busy), phones)
  {
    hide Emit, InStep;
  }

  lemma DataIsFaithful(m: Mux, phones: map<u16, Phone>, local: u16, bytes: seq<byte>)
    requires m.ended.None? && Faithful(m, phones)
    ensures Faithful(OnData(m, local, bytes), phones)
  {
    hide Emit, Plus, Minus;
  }

  lemma FaithfulStep(m: Mux, phones: map<u16, Phone>, event: Event)
    requires PortsInOrder(m) && Faithful(m, phones)
    requires event.Packet? && ParsePacket(event.bytes).Ok? ==> Honest(m, phones, ParsePacket(event.bytes).value)
    ensures Faithful(Apply(m, event), phones)
  {
    hide Emit, ParsePacket, OnOpen, OnData, OnSegment, Long, Honest;
    if m.ended.None? {
      match event
      case Open(remote, busy) => OpenIsFaithful(m, phones, remote, busy);
      case Data(local, bytes) => DataIsFaithful(m, phones, local, bytes);
      case Closed(local) =>
      case Packet(bytes, clientGone, taken) =>
        if ParsePacket(bytes).Ok? {
          SegmentIsFaithful(m, phones, ParsePacket(bytes).value, clientGone, taken);
        }
    }
  }

  /**
   For every run of events: the local ports given out are increasing, so no port is given out twice; at most four
   connections are open; envelopes are numbered in order; and for every connection the outstanding bytes are at most
   131072 + 16384, all of them bytes that were sent.
   */
  lemma {:induction false} EveryRun(events: seq<Event>)
    ensures PortsInOrder(Run(events)) && Few(Run(events)) && Numbered(Run(events)) && AllCounted(Run(events))
  {
    hide Apply, PortsInOrder, Few, Numbered, AllCounted;
    if events == [] {
      StartIsFine();
    } else {
      var n := |events| - 1;
      EveryRun(events[..n]);
      PortsStep(Run(events[..n]), events[n]);
      FewStep(Run(events[..n]), events[n]);
      NumbersStep(Run(events[..n]), events[n]);
      CountedStep(Run(events[..n]), events[n]);
    }
  }

  lemma StartIsFine()
    ensures PortsInOrder(START) && Few(START) && Numbered(START) && AllCounted(START)
  {
  }

  /**
   For every run in which the phone's segments are slices of one stream a connection, in any order and with any repeats,
   the bytes written to each client are a prefix of that stream, partial writes and connections already closed included.
   */
  lemma {:induction false} StreamsArePrefixes(phones: map<u16, Phone>, events: seq<Event>)
    requires HonestRun(phones, events)
    ensures Faithful(Run(events), phones)
    ensures forall local :: local in Run(events).written ==>
              local in phones && Run(events).written[local] <= phones[local].stream
  {
    hide Apply, PortsInOrder, Honest, ParsePacket;
    if events != [] {
      var n := |events| - 1;
      StreamsArePrefixes(phones, events[..n]);
      EveryRun(events[..n]);
      FaithfulStep(Run(events[..n]), phones, events[n]);
    }
  }

  /** An acknowledgement for a local port, of the sequence number given. */
  ghost predicate AcknowledgementOf(envelope: seq<byte>, local: u16, received: u32) {
    exists c: Connection, n: u16 :: IsAcknowledgement(envelope, local, received, c, n)
  }

  predicate IsAcknowledgement(envelope: seq<byte>, local: u16, received: u32, c: Connection, n: u16) {
    c.received == received && envelope == EnvelopeBytes(6, HOST_MAGIC, n, SegmentBytes(local, c, 16, []))
  }

  lemma EmitAcknowledges(m: Mux, local: u16, c: Connection)
    ensures var m' := Emit(m, local, c, 16, []);
            && m'.output == m.output + [m'.output[|m.output|]]
            && AcknowledgementOf(m'.output[|m.output|], local, c.received)
  {
    hide EnvelopeBytes, SegmentBytes;
    var m' := Emit(m, local, c, 16, []);
    assert IsAcknowledgement(m'.output[|m.output|], local, c.received, c, m.sequence);
  }

  /** All envelopes from the n-th on acknowledge the bytes delivered, or, when the stream ends, its end. */
  ghost predicate AllAcknowledge(output: seq<seq<byte>>, n: nat, local: u16, initial: u32, delivered: nat, fin: bool) {
    forall k :: n <= k < |output| ==>
      || AcknowledgementOf(output[k], local, Plus(initial, 1 + delivered))
      || (fin && AcknowledgementOf(output[k], local, Plus(initial, 2 + delivered)))
  }

  /**
   The multiplexer acknowledges exactly what it has written: after every segment of an established connection, each
   envelope it adds acknowledges the bytes written to the client by then, and the end of the stream only with it.
   */
  lemma AcknowledgesWhatIsWritten(m: Mux, phones: map<u16, Phone>, p: Segment, clientGone: bool, taken: Option<nat>)
    requires m.ended.None? && Faithful(m, phones) && Honest(m, phones, p)
    requires p.destination in m.connections && !m.connections[p.destination].ready
    ensures var m' := OnSegment(m, p, clientGone, taken);
            && m.output <= m'.output
            && AllAcknowledge(m'.output, |m.output|, p.destination, phones[p.destination].initial,
                              |Written(m', p.destination)|, Fin(p.flags))
  {
    hide Plus, Minus, Fin, Syn, Rst, Ack, SliceOf, OnEstablished, AcknowledgementOf;
    var local := p.destination;
    var c := m.connections[local];
    if Acknowledge(c, p).Some? {
      EstablishedAcknowledges(m, phones, local, Acknowledge(c, p).value, p, taken);
    }
  }

  lemma EstablishedAcknowledges(
    m: Mux, phones: map<u16, Phone>, local: u16, c: Connection, p: Segment, taken: Option<nat>)
    requires m.ended.None? && PrefixesOnly(m.written, phones) && local in phones && !c.ready
    requires InStep(phones[local], c, Written(m, local))
    requires p.payload == [] || SliceOf(phones[local], |Written(m, local)|, p)
    ensures var m' := OnEstablished(m, local, c, p, taken);
            && m.output <= m'.output
            && AllAcknowledge(m'.output, |m.output|, local, phones[local].initial, |Written(m', local)|, Fin(p.flags))
  {
    hide Emit, OnPayload, Plus, Fin, SliceOf, AcknowledgementOf, Written, PrefixesOnly;
    PayloadIsFaithful(m, phones, local, c, p, taken);
    PayloadAcknowledges(m, local, c, p, taken);
    var (m', c') := OnPayload(m, local, c, p, taken);
    if m'.ended.None? && Fin(p.flags) {
      EndAcknowledges(m, m', local, c', phones[local].initial);
    } else {
      WrittenOnly(m', Keep(m', local, c'));
    }
  }

  lemma EndAcknowledges(m: Mux, m': Mux, local: u16, c: Connection, initial: u32)
    requires m.output <= m'.output && c.received == Plus(initial, 1 + |Written(m', local)|)
    requires AllAcknowledge(m'.output, |m.output|, local, initial, |Written(m', local)|, true)
    ensures var end := Remove(Emit(m', local, c.(received := Plus(c.received, 1)), 16, []), local);
            && m.output <= end.output
            && AllAcknowledge(end.output, |m.output|, local, initial, |Written(end, local)|, true)
  {
    hide Emit, Plus, AcknowledgementOf, Written;
    var c' := c.(received := Plus(c.received, 1));
    PlusPlus(initial, 1 + |Written(m', local)|, 1);
    EmitAcknowledges(m', local, c');
    WrittenOnly(m', Remove(Emit(m', local, c', 16, []), local));
  }

  lemma PayloadAcknowledges(m: Mux, local: u16, c: Connection, p: Segment, taken: Option<nat>)
    ensures var (m', c') := OnPayload(m, local, c, p, taken);
            && m.output <= m'.output
            && forall k :: |m.output| <= k < |m'.output| ==>
                 m'.ended == m.ended && AcknowledgementOf(m'.output[k], local, c'.received)
  {
    hide Emit, Plus, AcknowledgementOf;
    EmitAcknowledges(Write(m, local, p.payload), local, c.(received := Plus(c.received, |p.payload|)));
    EmitAcknowledges(m, local, c);
  }

  // ---- Every envelope of a run ----

  /**
   The acknowledgement number of an envelope, before and m being the multiplexer around the event that sent it: 0 when
   a connection is opened, or closed before the phone has accepted it; otherwise exactly that of the bytes written to
   the client, where an acknowledgement that takes the connection away may count the end of the stream too.
   */
  ghost predicate TruthfulNumber(
    before: Mux, m: Mux, phones: map<u16, Phone>, local: u16, c: Connection, flags: byte)
  {
    if flags == 2 || (flags == 17 && local in before.connections && before.connections[local].ready) then
      c.received == 0
    else
      && local in phones
      && (|| c.received == Plus(phones[local].initial, 1 + |Written(m, local)|)
          || (&& flags == 16 && local !in m.connections
              && c.received == Plus(phones[local].initial, 2 + |Written(m, local)|)))
  }

  predicate IsEnvelope(envelope: seq<byte>, local: u16, c: Connection, flags: byte, payload: seq<byte>, n: u16) {
    envelope == EnvelopeBytes(6, HOST_MAGIC, n, SegmentBytes(local, c, flags, payload))
  }

  ghost predicate Truthful(before: Mux, m: Mux, phones: map<u16, Phone>, envelope: seq<byte>) {
    exists local: u16, c: Connection, flags: byte, payload: seq<byte>, n: u16 ::
      IsEnvelope(envelope, local, c, flags, payload, n) && TruthfulNumber(before, m, phones, local, c, flags)
  }

  /** The envelopes added to those before are truthful. */
  ghost predicate AddsTruthful(before: Mux, m: Mux, phones: map<u16, Phone>) {
    && before.output <= m.output
    && forall k :: |before.output| <= k < |m.output| ==> Truthful(before, m, phones, m.output[k])
  }

  /** One envelope sent, and then changes that are not to the output. */
  lemma EmitIsTruthful(
    before: Mux, m: Mux, phones: map<u16, Phone>, local: u16, c: Connection, flags: byte, payload: seq<byte>,
    after: Mux)
    requires m.output == before.output && after.output == Emit(m, local, c, flags, payload).output
    requires TruthfulNumber(before, after, phones, local, c, flags)
    ensures AddsTruthful(before, after, phones)
  {
    hide EnvelopeBytes, SegmentBytes, TruthfulNumber;
    assert IsEnvelope(after.output[|m.output|], local, c, flags, payload, m.sequence);
  }

  lemma AcknowledgementIsTruthful(
    before: Mux, m: Mux, phones: map<u16, Phone>, envelope: seq<byte>, local: u16, received: u32)
    requires AcknowledgementOf(envelope, local, received) && local in phones
    requires || received == Plus(phones[local].initial, 1 + |Written(m, local)|)
             || (local !in m.connections && received == Plus(phones[local].initial, 2 + |Written(m, local)|))
    ensures Truthful(before, m, phones, envelope)
  {
    hide EnvelopeBytes, SegmentBytes, Plus, Written;
    var c: Connection, n: u16 :| IsAcknowledgement(envelope, local, received, c, n);
    assert IsEnvelope(envelope, local, c, 16, [], n);
  }

  /** When the end of the stream is acknowledged, the connection is gone. */
  lemma EndRemoves(m: Mux, local: u16, c: Connection, p: Segment, taken: Option<nat>)
    requires m.ended.None? && Fin(p.flags)
    ensures var m' := OnEstablished(m, local, c, p, taken);
            |m'.output| > |m.output| ==> local !in m'.connections
  {
    hide Emit, Plus, Fin;
  }

  lemma SegmentIsTruthful(m: Mux, phones: map<u16, Phone>, p: Segment, clientGone: bool, taken: Option<nat>)
    requires m.ended.None? && Faithful(m, phones) && Honest(m, phones, p)
    ensures var m' := OnSegment(m, p, clientGone, taken);
            AddsTruthful(m, m', phones)
  {
    hide OnEstablished, OnAccepted, Plus, Minus, Fin, Syn, Rst, Ack, SliceOf, PrefixesOnly, Truthful;
    var local := p.destination;
    if local in m.connections {
      var c := m.connections[local];
      if c.ready {
        AcceptedIsTruthful(m, phones, p, clientGone);
      } else if Acknowledge(c, p).Some? {
        EstablishedIsTruthful(m, phones, local, Acknowledge(c, p).value, p, taken);
      }
    }
  }

  lemma AcceptedIsTruthful(m: Mux, phones: map<u16, Phone>, p: Segment, clientGone: bool)
    requires p.destination in m.connections && p.destination in phones && Written(m, p.destination) == []
    requires p.sequence == phones[p.destination].initial
    ensures var m' := OnAccepted(m, p, clientGone);
            AddsTruthful(m, m', phones)
  {
    hide Emit, Plus, Truthful;
    var local, m' := p.destination, OnAccepted(m, p, clientGone);
    if p.ack == 1 {
      var c := m.connections[local].(sent := 1, acknowledged := 1, received := Plus(p.sequence, 1));
      EmitIsTruthful(m, m, phones, local, c, 16, [], m');
    }
  }

  lemma EstablishedIsTruthful(
    m: Mux, phones: map<u16, Phone>, local: u16, c: Connection, p: Segment, taken: Option<nat>)
    requires m.ended.None? && PrefixesOnly(m.written, phones) && local in phones && !c.ready
    requires InStep(phones[local], c, Written(m, local))
    requires p.payload == [] || SliceOf(phones[local], |Written(m, local)|, p)
    ensures var m' := OnEstablished(m, local, c, p, taken);
            AddsTruthful(m, m', phones)
  {
    hide OnEstablished, PrefixesOnly, InStep, SliceOf, AcknowledgementOf, Plus, Written, Fin, Truthful;
    var m' := OnEstablished(m, local, c, p, taken);
    EstablishedAcknowledges(m, phones, local, c, p, taken);
    if Fin(p.flags) {
      EndRemoves(m, local, c, p, taken);
    }
    forall k | |m.output| <= k < |m'.output|
      ensures Truthful(m, m', phones, m'.output[k])
    {
      var initial, delivered := phones[local].initial, |Written(m', local)|;
      if AcknowledgementOf(m'.output[k], local, Plus(initial, 1 + delivered)) {
        AcknowledgementIsTruthful(m, m', phones, m'.output[k], local, Plus(initial, 1 + delivered));
      } else {
        AcknowledgementIsTruthful(m, m', phones, m'.output[k], local, Plus(initial, 2 + delivered));
      }
    }
  }

  lemma EventIsTruthful(m: Mux, phones: map<u16, Phone>, event: Event)
    requires m.ended.None? && Faithful(m, phones)
    requires event.Packet? && ParsePacket(event.bytes).Ok? ==> Honest(m, phones, ParsePacket(event.bytes).value)
    ensures AddsTruthful(m, Apply(m, event), phones)
  {
    hide Emit, ParsePacket, OnSegment, Plus, Minus, Long, Honest, PrefixesOnly, Truthful;
    var m' := Apply(m, event);
    match event
    case Open(remote, busy) =>
      if m' != m {
        EmitIsTruthful(m, m.(port := m.port + 1, ports := m.ports + [m.port]), phones, m.port,
                       Connection(remote, 0, 0, 0, true), 2, [], m');
      }
    case Data(local, bytes) =>
      if local in m.connections && m'.ended.None? && m' != m {
        var sent := m.(sent := m.sent[local := SentBytes(m, local) + |bytes|]);
        EmitIsTruthful(m, sent, phones, local, m.connections[local], 16, bytes, m');
      }
    case Closed(local) =>
      if local in m.connections {
        EmitIsTruthful(m, Remove(m, local), phones, local, m.connections[local], 17, [], m');
      }
    case Packet(bytes, clientGone, taken) =>
      if |bytes| >= ENVELOPE && bytes[..4] == Long(6) && ParsePacket(bytes).Ok? {
        SegmentIsTruthful(m, phones, ParsePacket(bytes).value, clientGone, taken);
      }
  }

  /** Envelope k of a run went out at event n, and was truthful then. */
  ghost predicate TruthfulAt(phones: map<u16, Phone>, events: seq<Event>, k: nat, n: nat) {
    && n < |events| && k < |Run(events).output|
    && |Run(events[..n]).output| <= k < |Run(events[..n + 1]).output|
    && Truthful(Run(events[..n]), Run(events[..n + 1]), phones, Run(events).output[k])
  }

  lemma OutputGrows(phones: map<u16, Phone>, events: seq<Event>)
    requires events != [] && HonestRun(phones, events)
    ensures var before := Run(events[..|events| - 1]);
            AddsTruthful(before, Run(events), phones)
  {
    hide Apply, Honest, ParsePacket, Truthful, Faithful;
    var n := |events| - 1;
    StreamsArePrefixes(phones, events[..n]);
    if Run(events[..n]).ended.None? {
      EventIsTruthful(Run(events[..n]), phones, events[n]);
    } else {
      EndedStays(Run(events[..n]), events[n]);
    }
  }

  lemma EndedStays(m: Mux, event: Event)
    requires m.ended.Some?
    ensures Apply(m, event) == m
  {
  }

  /**
   For every such run and every envelope in it, whether it opens, accepts, carries data, acknowledges or closes: its
   acknowledgement number is that of the bytes written to the client when it went out, and 0 before the phone accepts.
   */
  lemma {:induction false} EveryEnvelopeIsTruthful(phones: map<u16, Phone>, events: seq<Event>, k: nat)
    requires HonestRun(phones, events) && k < |Run(events).output|
    ensures exists n: nat :: TruthfulAt(phones, events, k, n)
  {
    hide Truthful;
    assert events != [];
    var last := |events| - 1;
    var before := Run(events[..last]);
    OutputGrows(phones, events);
    hide Run;
    assert events[..last + 1] == events;
    if k < |before.output| {
      EveryEnvelopeIsTruthful(phones, events[..last], k);
      var n: nat :| TruthfulAt(phones, events[..last], k, n);
      assert events[..last][..n] == events[..n] && events[..last][..n + 1] == events[..n + 1];
      assert TruthfulAt(phones, events, k, n);
    } else {
      assert TruthfulAt(phones, events, k, last);
    }
  }

  // ---- Exactly when the prefix is kept ----

  /** How much of a segment's payload is written when it is accepted. */
  function TakenOf(p: Segment, taken: Option<nat>): nat {
    if taken.Some? && taken.value < |p.payload| then taken.value else |p.payload|
  }

  /**
   For a slice from any offset, of any length and with any flags but a reset, on an established connection: its bytes
   are written exactly if its offset is congruent to what has been delivered, modulo 2^32, and what the client then has
   is still the front of the stream exactly if the bytes written are the stream's own next ones.
   */
  lemma SliceKeepsPrefixIff(m: Mux, phone: Phone, p: Segment, o: nat, clientGone: bool, taken: Option<nat>)
    requires p.destination in m.connections
    requires var c := m.connections[p.destination];
             && !c.ready && InStep(phone, c, Written(m, p.destination))
             && c.remote == p.source && Acknowledge(c, p).Some?
    requires !Rst(p.flags) && p.payload != []
    requires o + |p.payload| <= |phone.stream| && p.payload == phone.stream[o..o + |p.payload|]
    requires p.sequence == Plus(phone.initial, 1 + o)
    ensures var written := Written(m, p.destination);
            var after := Written(OnSegment(m, p, clientGone, taken), p.destination);
            var bytes := p.payload[..TakenOf(p, taken)];
            var accepted := (o - |written|) % WORD == 0;
            && after == (if accepted then written + bytes else written)
            && (after <= phone.stream <==>
                  !accepted || (|written| + |bytes| <= |phone.stream|
                                && bytes == phone.stream[|written|..|written| + |bytes|]))
  {
    hide Plus, Minus, Emit, Fin, Syn, Rst, Ack;
    var local := p.destination;
    var written, bytes := Written(m, local), p.payload[..TakenOf(p, taken)];
    SameNumber(phone.initial, o, |written|);
    PayloadWrites(m, local, Acknowledge(m.connections[local], p).value, p, taken);
    PrefixExtends(written, bytes, phone.stream);
  }

  lemma PayloadWrites(m: Mux, local: u16, c: Connection, p: Segment, taken: Option<nat>)
    requires p.payload != []
    ensures Written(OnEstablished(m, local, c, p, taken), local)
         == Written(m, local) + if p.sequence == c.received then p.payload[..TakenOf(p, taken)] else []
  {
    hide Emit, Plus, Fin;
    assert p.payload[..|p.payload|] == p.payload;
  }

  lemma PrefixExtends(written: seq<byte>, bytes: seq<byte>, stream: seq<byte>)
    requires written <= stream
    ensures written + bytes <= stream <==>
              |written| + |bytes| <= |stream| && bytes == stream[|written|..|written| + |bytes|]
  {
    if |written| + |bytes| <= |stream| {
      var front := stream[..|written| + |bytes|];
      assert front == written + stream[|written|..|written| + |bytes|];
      Joined(written, bytes);
      Joined(written, stream[|written|..|written| + |bytes|]);
    }
  }

  /**
   The condition on offsets is needed: a byte from one sequence number space further on is taken for the next one, and
   the client no longer has the front of the stream when the two bytes differ.
   */
  lemma FarSliceBreaksPrefix(m: Mux, phone: Phone, p: Segment)
    requires p.destination in m.connections
    requires var c := m.connections[p.destination];
             !c.ready && InStep(phone, c, Written(m, p.destination)) && c.remote == p.source
    requires p.flags == 0
    requires var n := |Written(m, p.destination)|;
             && n + WORD < |phone.stream| && phone.stream[n] != phone.stream[n + WORD]
             && p.sequence == Plus(phone.initial, 1 + n + WORD) && p.payload == [phone.stream[n + WORD]]
    ensures !(Written(OnSegment(m, p, false, None), p.destination) <= phone.stream)
  {
    var n := |Written(m, p.destination)|;
    Multiple(0, 1);
    assert p.payload == phone.stream[n + WORD..n + WORD + |p.payload|];
    SliceKeepsPrefixIff(m, phone, p, n + WORD, false, None);
    assert phone.stream[n..n + 1][0] == phone.stream[n];
  }
}
