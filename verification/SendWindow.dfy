/**
 The iAP2 send window of an unreliable transport, with its negotiated parameters. Sequence numbers are one byte; the
 window refines one over unbounded sequence numbers because at most 127 frames are outstanding.
 */
module SendWindow {
  import opened Bytes
  import opened Iap2Frame

  /** The longest time a Duration holds, in nanoseconds. */
  const FOREVER: nat := 0x1_0000_0000_0000_0000 * 1_000_000_000 - 1
  const MILLISECOND: nat := 1_000_000

  type duration = d: int | 0 <= d <= FOREVER

  function Later(now: duration, interval: nat): duration {
    Min(now + interval, FOREVER)
  }

  // ---- The negotiated parameters ----

  datatype Session = Session(id: byte, kind: byte, version: byte)

  datatype Synchronization = Synchronization(
    window: byte, maxFrame: u16, retransmit: u16, ack: u16, retries: byte, ackCount: byte, sessions: seq<Session>)

  predicate LegalSessions(sessions: seq<Session>) {
    && (forall i :: 0 <= i < |sessions| ==> sessions[i].id != 0 && sessions[i].kind <= 2 && sessions[i].version != 0)
    && (forall i, j :: 0 <= i < j < |sessions| ==> sessions[i].id != sessions[j].id)
  }

  predicate Coherent(s: Synchronization) {
    || (s.retransmit == 0 && s.ack == 0 && s.retries == 0 && s.ackCount == 0)
    || (s.ack < s.retransmit && s.retries != 0 && s.ackCount != 0)
  }

  function Validity(s: Synchronization): Result<()> {
    if s.window == 0 || s.window > 127 || s.maxFrame < 64 || |s.sessions| == 0 || |s.sessions| > 8 then Err(Bounds)
    else if !Coherent(s) then Err(Bounds)
    else if !LegalSessions(s.sessions) then Err(Malformed)
    else Ok(())
  }

  /** `Synchronization::validate`, with its table of identifiers seen. */
  method Validate(s: Synchronization) returns (r: Result<()>)
    ensures r == Validity(s)
  {
    if s.window == 0 || s.window > 127 || s.maxFrame < 64 || |s.sessions| == 0 || |s.sessions| > 8 {
      return Err(Bounds);
    }
    var zero := s.retransmit == 0 && s.ack == 0 && s.retries == 0 && s.ackCount == 0;
    if !zero && (s.retransmit == 0 || s.ack >= s.retransmit || s.retries == 0 || s.ackCount == 0) {
      return Err(Bounds);
    }
    var seen := new bool[256](_ => false);
    for i := 0 to |s.sessions|
      invariant LegalSessions(s.sessions[..i])
      invariant forall b: byte :: seen[b] <==> exists j :: 0 <= j < i && s.sessions[j].id == b
    {
      var session := s.sessions[i];
      if session.id == 0 || seen[session.id] || session.kind > 2 || session.version == 0 {
        return Err(Malformed);
      }
      seen[session.id] := true;
    }
    assert s.sessions[..|s.sessions|] == s.sessions;
    return Ok(());
  }

  function SessionBytes(sessions: seq<Session>): (r: seq<byte>)
    ensures |r| == 3 * |sessions|
  {
    if sessions == [] then []
    else [sessions[0].id, sessions[0].kind, sessions[0].version] + SessionBytes(sessions[1..])
  }

  function SessionsIn(bytes: seq<byte>): (r: seq<Session>)
    requires |bytes| % 3 == 0
    ensures 3 * |r| == |bytes|
  {
    if bytes == [] then [] else [Session(bytes[0], bytes[1], bytes[2])] + SessionsIn(bytes[3..])
  }

  function EncodeSync(s: Synchronization): Result<seq<byte>> {
    match Validity(s)
    case Err(error) => Err(error)
    case Ok(_) =>
      Ok([1, s.window] + Word(s.maxFrame) + Word(s.retransmit) + Word(s.ack) + [s.retries, s.ackCount]
         + SessionBytes(s.sessions))
  }

  function DecodeSync(bytes: seq<byte>): Result<Synchronization> {
    if |bytes| < 13 || |bytes| > 34 || (|bytes| - 10) % 3 != 0 then Err(Bounds)
    else if bytes[0] != 1 then Err(Unsupported)
    else
      var value := Synchronization(
        bytes[1], U16(bytes[2], bytes[3]), U16(bytes[4], bytes[5]), U16(bytes[6], bytes[7]), bytes[8], bytes[9],
        SessionsIn(bytes[10..]));
      match Validity(value) case Err(error) => Err(error) case Ok(_) => Ok(value)
  }

  lemma {:induction false} SessionsExact(sessions: seq<Session>)
    ensures SessionsIn(SessionBytes(sessions)) == sessions
  {
    if sessions != [] {
      SessionsExact(sessions[1..]);
      assert SessionBytes(sessions)[3..] == SessionBytes(sessions[1..]);
    }
  }

  lemma {:induction false} SessionsOnto(bytes: seq<byte>)
    requires |bytes| % 3 == 0
    ensures SessionBytes(SessionsIn(bytes)) == bytes
  {
    if bytes != [] {
      SessionsOnto(bytes[3..]);
      assert SessionsIn(bytes)[1..] == SessionsIn(bytes[3..]);
      assert bytes == [bytes[0], bytes[1], bytes[2]] + bytes[3..];
    }
  }

  /** The parameter codec is exact: the peers agree on the parameters whenever the bytes are accepted. */
  lemma SynchronizationExact(s: Synchronization, bytes: seq<byte>)
    ensures EncodeSync(s) == Ok(bytes) <==> DecodeSync(bytes) == Ok(s)
  {
    hide Validity, Word, U16;
    if EncodeSync(s) == Ok(bytes) {
      SessionsExact(s.sessions);
      assert bytes[10..] == SessionBytes(s.sessions);
      SizeAllowed(s);
    }
    if DecodeSync(bytes) == Ok(s) {
      SessionsOnto(bytes[10..]);
      WordOnto(bytes[2], bytes[3]);
      WordOnto(bytes[4], bytes[5]);
      WordOnto(bytes[6], bytes[7]);
      assert bytes == bytes[..10] + bytes[10..];
      assert bytes[..10]
          == [1, s.window] + Word(s.maxFrame) + Word(s.retransmit) + Word(s.ack) + [s.retries, s.ackCount];
    }
  }

  lemma SizeAllowed(s: Synchronization)
    requires Validity(s).Ok?
    ensures 1 <= |s.sessions| <= 8
  {
  }

  // ---- The window ----

  datatype Config = Config(capacity: nat, maxPayload: nat, interval: nat, retryLimit: byte)

  function Negotiated(s: Synchronization): Config
    requires s.maxFrame >= 10
  {
    Config(s.window, s.maxFrame - 10, s.retransmit * MILLISECOND, s.retries)
  }

  datatype Pending = Pending(frame: Frame, deadline: duration, retries: byte)

  datatype Window = Window(next: byte, lastAck: byte, pending: seq<Pending>)

  /** `a.wrapping_sub(b)`. */
  function Distance(a: byte, b: byte): byte {
    if a >= b then a - b else a + 256 - b
  }

  function Start(initial: byte): Window {
    Window(initial, Pred(initial), [])
  }

  predicate Refused(c: Config, w: Window, payload: seq<byte>) {
    |w.pending| >= c.capacity || payload == [] || |payload| > c.maxPayload
  }

  function DataFrame(w: Window, session: byte, ack: byte, payload: seq<byte>): Frame {
    Frame(ACK, w.next, ack, session, payload)
  }

  function Sent(c: Config, w: Window, session: byte, ack: byte, payload: seq<byte>, now: duration): Window {
    var f := DataFrame(w, session, ack, payload);
    w.(next := Succ(w.next), pending := w.pending + [Pending(f, Later(now, c.interval), 0)])
  }

  /** The window after an acknowledgement, or Err(Sequence) for one of data that is not outstanding. */
  function Acknowledge(w: Window, ack: byte): Result<Window> {
    var distance := Distance(ack, w.lastAck);
    if distance > |w.pending| then if distance >= 128 then Ok(w) else Err(Sequence)
    else Ok(w.(lastAck := ack, pending := w.pending[distance..]))
  }

  predicate Exhausted(c: Config, p: Pending, now: duration) {
    p.deadline <= now && p.retries >= c.retryLimit
  }

  /** A frame that is due goes out once more and waits another interval. */
  function Touch(c: Config, p: Pending, now: duration): Pending {
    if p.deadline <= now && p.retries < 255 then p.(retries := p.retries + 1, deadline := Later(now, c.interval)) else p
  }

  function Touched(c: Config, pending: seq<Pending>, now: duration): (r: seq<Pending>)
    ensures |r| == |pending| && forall i :: 0 <= i < |pending| ==> r[i] == Touch(c, pending[i], now)
  {
    seq(|pending|, i requires 0 <= i < |pending| => Touch(c, pending[i], now))
  }

  function Due(pending: seq<Pending>, now: duration): seq<Frame> {
    if pending == [] then []
    else
      var n := |pending| - 1;
      Due(pending[..n], now) + if pending[n].deadline <= now then [pending[n].frame] else []
  }

  function Retransmit(c: Config, w: Window, now: duration): Result<(Window, seq<Frame>)> {
    if exists p :: p in w.pending && Exhausted(c, p, now) then Err(Timeout)
    else Ok((w.(pending := Touched(c, w.pending, now)), Due(w.pending, now)))
  }

  function Cleared(w: Window): Window {
    w.(lastAck := Pred(w.next), pending := [])
  }

  class Sender {
    const config: Config
    var next: byte
    var lastAck: byte
    var pending: seq<Pending>

    constructor (config: Config, initial: byte)
      ensures this.config == config && View() == Start(initial)
    {
      this.config := config;
      next, lastAck, pending := initial, Pred(initial), [];
    }

    ghost function View(): Window
      reads this
    {
      Window(next, lastAck, pending)
    }

    /** `SendWindow::new`. */
    static method New(initial: byte, s: Synchronization) returns (r: Result<Sender>)
      ensures r.Ok? <==> Validity(s).Ok? && s.retransmit != 0
      ensures r.Err? && Validity(s).Ok? ==> r.error == Unsupported
      ensures r.Err? && Validity(s).Err? ==> r.error == Validity(s).error
      ensures r.Ok? ==> fresh(r.value) && r.value.View() == Start(initial) && r.value.config == Negotiated(s)
    {
      var valid := Validate(s);
      if valid.Err? {
        return Err(valid.error);
      }
      if s.retransmit == 0 {
        return Err(Unsupported);
      }
      var sender := new Sender(Negotiated(s), initial);
      return Ok(sender);
    }

    method Send(session: byte, ack: byte, payload: seq<byte>, now: duration) returns (r: Result<Frame>)
      modifies this
      ensures r == if Refused(config, old(View()), payload) then Err(Bounds)
                   else Ok(DataFrame(old(View()), session, ack, payload))
      ensures View() == if r.Ok? then Sent(config, old(View()), session, ack, payload, now) else old(View())
    {
      if |pending| >= config.capacity || payload == [] || |payload| > config.maxPayload {
        return Err(Bounds);
      }
      var frame := Frame(ACK, next, ack, session, payload);
      next := Succ(next);
      pending := pending + [Pending(frame, Later(now, config.interval), 0)];
      return Ok(frame);
    }

    method ReceiveAck(ack: byte) returns (r: Result<()>)
      modifies this
      ensures r.Ok? <==> Acknowledge(old(View()), ack).Ok?
      ensures r.Err? ==> r.error == Sequence
      ensures View() == if r.Ok? then Acknowledge(old(View()), ack).value else old(View())
    {
      if ack == lastAck {
        return Ok(());
      }
      var distance := Distance(ack, lastAck);
      if distance > |pending| {
        return if distance >= 128 then Ok(()) else Err(Sequence);
      }
      pending := pending[distance..];
      lastAck := ack;
      return Ok(());
    }

    method Resend(now: duration) returns (r: Result<seq<Frame>>)
      modifies this
      ensures match Retransmit(config, old(View()), now)
              case Err(error) => r == Err(error) && View() == old(View())
              case Ok((w, due)) => r == Ok(due) && View() == w
    {
      for i := 0 to |pending|
        invariant forall p :: p in pending[..i] ==> !Exhausted(config, p, now)
      {
        if pending[i].deadline <= now && pending[i].retries >= config.retryLimit {
          assert Exhausted(config, pending[i], now);
          return Err(Timeout);
        }
      }
      assert pending[..|pending|] == pending;
      ghost var before := pending;
      var due := [];
      for i := 0 to |pending|
        invariant |pending| == |before| && next == old(next) && lastAck == old(lastAck)
        invariant forall j :: 0 <= j < |before| ==>
                    pending[j] == if j < i then Touch(config, before[j], now) else before[j]
        invariant due == Due(before[..i], now)
      {
        var p := pending[i];
        assert !Exhausted(config, p, now);
        assert before[..i + 1][..i] == before[..i];
        if p.deadline <= now {
          pending := pending[i := p.(retries := p.retries + 1, deadline := Later(now, config.interval))];
          due := due + [p.frame];
        }
      }
      assert before[..|before|] == before;
      assert pending == Touched(config, before, now);
      return Ok(due);
    }

    method Clear()
      modifies this
      ensures View() == Cleared(old(View()))
    {
      pending := [];
      lastAck := Pred(next);
    }
  }

  // ---- The refinement ----

  function Wrap(n: int): byte {
    n % 256
  }

  lemma WrapSteps(n: int)
    ensures Succ(Wrap(n)) == Wrap(n + 1) && Pred(Wrap(n)) == Wrap(n - 1)
  {
  }

  lemma WrapDistance(a: int, b: int)
    ensures Distance(Wrap(a), Wrap(b)) == Wrap(a - b)
  {
    var k := a / 256 - b / 256;
    assert a - b == 256 * k + (Wrap(a) - Wrap(b));
  }

  /**
   w is the window of a sender that has numbered its frames origin + 1, origin + 2, ... without bound and of which the
   first base are released: the one-byte numbers are these modulo 256.
   */
  ghost predicate Refines(w: Window, origin: int, base: nat) {
    && |w.pending| <= 127
    && w.lastAck == Wrap(origin + base)
    && w.next == Wrap(origin + base + |w.pending| + 1)
    && forall i :: 0 <= i < |w.pending| ==> w.pending[i].frame.sequence == Wrap(origin + base + i + 1)
  }

  /**
   Within 128 below and 127 above the released count the byte determines the count: an acknowledgement of the first
   count frames releases exactly the outstanding ones among them, an old one releases nothing, and one beyond the
   outstanding frames is refused.
   */
  lemma CumulativeAck(w: Window, origin: int, base: nat, count: int)
    requires Refines(w, origin, base) && base - 128 <= count <= base + 127
    ensures Acknowledge(w, Wrap(origin + count)).Ok? <==> count <= base + |w.pending|
    ensures count <= base + |w.pending| ==>
              var w' := Acknowledge(w, Wrap(origin + count)).value;
              && w'.pending == w.pending[Max(base, count) - base..]
              && w'.next == w.next
              && Refines(w', origin, Max(base, count))
  {
    hide Wrap;
    WrapDistance(origin + count, origin + base);
    SmallDistance(count - base);
    assert Distance(Wrap(origin + count), w.lastAck) == Wrap(count - base);
    if base <= count <= base + |w.pending| {
      var w' := Acknowledge(w, Wrap(origin + count)).value;
      forall i | 0 <= i < |w'.pending|
        ensures w'.pending[i].frame.sequence == Wrap(origin + count + i + 1)
      {
        assert w'.pending[i] == w.pending[count - base + i];
        assert origin + base + (count - base + i) + 1 == origin + count + i + 1;
      }
      assert origin + base + |w.pending| + 1 == origin + count + |w'.pending| + 1;
    } else if count < base {
      assert w.pending[0..] == w.pending;
    }
  }

  lemma SmallDistance(d: int)
    requires -128 <= d <= 127
    ensures Wrap(d) == if d >= 0 then d else d + 256
  {
  }

  /** Every acknowledgement byte is that of one count in reach. */
  lemma EveryByteIsACount(ack: byte, origin: int, base: nat) returns (count: int)
    ensures base - 128 <= count <= base + 127 && Wrap(origin + count) == ack
  {
    var d: int := Wrap(ack - (origin + base));
    count := base + if d < 128 then d else d - 256;
    var k := (ack - (origin + base)) / 256;
    assert ack - (origin + base) == 256 * k + d;
  }

  /**
   Retransmission is complete and paced: at one time exactly the frames whose deadline has come go out, each once and in
   order; and until a full interval later (or the end of time) none of them is due again, while the others keep their
   deadlines.
   */
  lemma RetransmissionIsPaced(c: Config, w: Window, now: duration, i: nat, later: nat)
    requires Retransmit(c, w, now).Ok? && i < |w.pending| && later < Min(now + c.interval, FOREVER)
    ensures var (w', due) := Retransmit(c, w, now).value;
            && |w'.pending| == |w.pending|
            && w'.pending[i].frame == w.pending[i].frame
            && (w.pending[i].deadline <= now <==> w'.pending[i].retries == w.pending[i].retries + 1)
            && (w.pending[i].deadline <= now ==> w.pending[i].frame in due && w'.pending[i].deadline > later)
            && (w.pending[i].deadline > now ==> w'.pending[i] == w.pending[i])
  {
    hide Due;
    assert w.pending[i] in w.pending && !Exhausted(c, w.pending[i], now);
    if w.pending[i].deadline <= now {
      DueIncludes(w.pending, now, i);
    }
  }

  lemma {:induction false} DueIncludes(pending: seq<Pending>, now: duration, i: nat)
    requires i < |pending| && pending[i].deadline <= now
    ensures pending[i].frame in Due(pending, now)
  {
    var n := |pending| - 1;
    if i < n {
      DueIncludes(pending[..n], now, i);
    } else {
      assert Due(pending, now)[|Due(pending, now)| - 1] == pending[i].frame;
    }
  }

  // ---- Runs of the sender ----

  datatype Step =
    | Send(session: byte, ack: byte, payload: seq<byte>, now: duration)
    | Ack(ack: byte)
    | Tick(now: duration)
    | Clear

  /** The window with a record of its run: frames sent, how many are released, and what went out on the wire. */
  datatype System = System(window: Window, sent: seq<Frame>, base: nat, emitted: seq<nat>, wire: seq<Frame>)

  /** Places in the list of sent frames of the pending frames that are due; first is the place of pending[0]. */
  function DuePlaces(pending: seq<Pending>, now: duration, first: nat): seq<nat> {
    if pending == [] then []
    else
      var n := |pending| - 1;
      DuePlaces(pending[..n], now, first) + if pending[n].deadline <= now then [first + n] else []
  }

  function Apply(c: Config, s: System, step: Step): System {
    match step
    case Send(session, ack, payload, now) =>
      if Refused(c, s.window, payload) then s
      else
        var f := DataFrame(s.window, session, ack, payload);
        System(Sent(c, s.window, session, ack, payload, now), s.sent + [f], s.base,
               s.emitted + [|s.sent|], s.wire + [f])
    case Ack(ack) =>
      (match Acknowledge(s.window, ack)
       case Err(_) => s
       case Ok(w) => s.(window := w, base := s.base + Released(s.window, w)))
    case Tick(now) =>
      (match Retransmit(c, s.window, now)
       case Err(_) => s
       case Ok((w, due)) =>
         s.(window := w, emitted := s.emitted + DuePlaces(s.window.pending, now, s.base), wire := s.wire + due))
    case Clear => s.(window := Cleared(s.window), base := s.base + |s.window.pending|)
  }

  function Released(before: Window, after: Window): nat {
    Max(|before.pending| - |after.pending|, 0)
  }

  function Run(c: Config, initial: byte, steps: seq<Step>): System {
    if steps == [] then System(Start(initial), [], 0, [], [])
    else
      var n := |steps| - 1;
      Apply(c, Run(c, initial, steps[..n]), steps[n])
  }

  /** Outstanding frames are the unreleased tail of the sent ones; every sent frame bears its number modulo 256. */
  ghost predicate Conserved(s: System, origin: int) {
    && Refines(s.window, origin, s.base)
    && |s.sent| == s.base + |s.window.pending|
    && (forall i :: 0 <= i < |s.window.pending| ==> s.window.pending[i].frame == s.sent[s.base + i])
    && (forall k :: 0 <= k < |s.sent| ==> s.sent[k].sequence == Wrap(origin + k + 1))
  }

  /** Everything that goes out is a frame that was sent. */
  ghost predicate Traced(s: System) {
    && |s.emitted| == |s.wire|
    && (forall j :: 0 <= j < |s.wire| ==> s.emitted[j] < |s.sent| && s.wire[j] == s.sent[s.emitted[j]])
  }

  /** A pending frame has gone out once more than it was retried, and none more often than the limit allows. */
  ghost predicate Counted(c: Config, emitted: multiset<nat>, base: nat, pending: seq<Pending>) {
    forall k: nat ::
      && emitted[k] <= 1 + c.retryLimit
      && (base <= k < base + |pending| ==> emitted[k] == 1 + pending[k - base].retries)
  }

  ghost predicate Metered(c: Config, s: System) {
    && Traced(s)
    && |s.sent| == s.base + |s.window.pending|
    && (forall i :: 0 <= i < |s.window.pending| ==> s.window.pending[i].frame == s.sent[s.base + i])
    && Counted(c, multiset(s.emitted), s.base, s.window.pending)
  }

  lemma StartConserves(initial: byte)
    ensures Conserved(System(Start(initial), [], 0, [], []), initial - 1)
  {
    WrapSteps(initial);
  }

  lemma ConservedStep(c: Config, s: System, step: Step, origin: int)
    requires c.capacity <= 127 && Conserved(s, origin)
    ensures Conserved(Apply(c, s, step), origin)
  {
    hide Wrap, Acknowledge, Due, DuePlaces;
    var w := s.window;
    match step
    case Send(session, ack, payload, now) =>
      WrapSteps(origin + s.base + |w.pending| + 1);
    case Ack(ack) =>
      var count := EveryByteIsACount(ack, origin, s.base);
      CumulativeAck(w, origin, s.base, count);
    case Tick(now) =>
    case Clear =>
      WrapSteps(origin + s.base + |w.pending| + 1);
  }

  lemma {:induction false} DueFacts(pending: seq<Pending>, now: duration, first: nat)
    ensures var places := DuePlaces(pending, now, first);
            && |places| == |Due(pending, now)|
            && (forall j :: 0 <= j < |places| ==>
                  first <= places[j] < first + |pending| && Due(pending, now)[j] == pending[places[j] - first].frame)
            && (forall k :: multiset(places)[k]
                   == if first <= k < first + |pending| && pending[k - first].deadline <= now then 1 else 0)
  {
    if pending != [] {
      DueFacts(pending[..|pending| - 1], now, first);
    }
  }

  lemma TickCounts(c: Config, emitted: multiset<nat>, base: nat, pending: seq<Pending>, now: duration)
    requires Counted(c, emitted, base, pending)
    requires forall p :: p in pending ==> !Exhausted(c, p, now)
    ensures Counted(c, emitted + multiset(DuePlaces(pending, now, base)), base, Touched(c, pending, now))
  {
    hide DuePlaces, Due;
    var places := multiset(DuePlaces(pending, now, base));
    DueFacts(pending, now, base);
    forall k: nat
      ensures (emitted + places)[k] <= 1 + c.retryLimit
      ensures base <= k < base + |pending| ==>
                (emitted + places)[k] == 1 + Touched(c, pending, now)[k - base].retries
    {
      assert (emitted + places)[k] == emitted[k] + places[k];
      if base <= k < base + |pending| {
        assert pending[k - base] in pending;
      }
    }
  }

  lemma TickTraces(c: Config, s: System, now: duration)
    requires Metered(c, s)
    ensures Traced(Apply(c, s, Tick(now)))
  {
    hide Due, DuePlaces, Counted, Exhausted, Touched;
    DueFacts(s.window.pending, now, s.base);
  }

  lemma TickMeters(c: Config, s: System, now: duration)
    requires Metered(c, s)
    ensures Metered(c, Apply(c, s, Tick(now)))
  {
    TickTraces(c, s, now);
    hide Due, DuePlaces, Counted, Exhausted, Traced;
    var w := s.window;
    if Retransmit(c, w, now).Ok? {
      var s' := Apply(c, s, Tick(now));
      TickCounts(c, multiset(s.emitted), s.base, w.pending, now);
      assert multiset(s'.emitted) == multiset(s.emitted) + multiset(DuePlaces(w.pending, now, s.base));
    }
  }

  lemma SendCounts(c: Config, emitted: multiset<nat>, base: nat, pending: seq<Pending>, added: Pending)
    requires Counted(c, emitted, base, pending) && emitted[base + |pending|] == 0 && added.retries == 0
    ensures Counted(c, emitted + multiset{base + |pending|}, base, pending + [added])
  {
    var n := base + |pending|;
    forall k: nat
      ensures (emitted + multiset{n})[k] <= 1 + c.retryLimit
      ensures base <= k <= n ==> (emitted + multiset{n})[k] == 1 + (pending + [added])[k - base].retries
    {
      assert (emitted + multiset{n})[k] == emitted[k] + if k == n then 1 else 0;
    }
  }

  lemma SendMeters(c: Config, s: System, step: Step)
    requires Metered(c, s) && step.Send?
    ensures Metered(c, Apply(c, s, step))
  {
    hide Counted;
    if !Refused(c, s.window, step.payload) {
      var s' := Apply(c, s, step);
      var n := |s.sent|;
      assert n !in s.emitted;
      SendCounts(c, multiset(s.emitted), s.base, s.window.pending, s'.window.pending[|s.window.pending|]);
      assert multiset(s'.emitted) == multiset(s.emitted) + multiset{n};
    }
  }

  lemma AckMeters(c: Config, s: System, step: Step)
    requires Metered(c, s) && (step.Ack? || step.Clear?)
    ensures Metered(c, Apply(c, s, step))
  {
    hide Counted, Traced;
    var s' := Apply(c, s, step);
    var gone := s'.base - s.base;
    AckShape(c, s, step);
    hide Apply;
    CountedTail(c, multiset(s.emitted), s.base, s.window.pending, gone);
    SameTrace(s, s');
  }

  /** An acknowledgement or a clear takes pending frames off the front and changes no record. */
  lemma AckShape(c: Config, s: System, step: Step)
    requires step.Ack? || step.Clear?
    ensures var s' := Apply(c, s, step);
            && s'.sent == s.sent && s'.emitted == s.emitted && s'.wire == s.wire
            && 0 <= s'.base - s.base <= |s.window.pending|
            && s'.window.pending == s.window.pending[s'.base - s.base..]
  {
    hide Distance;
  }

  lemma SameTrace(s: System, t: System)
    requires Traced(s) && t.sent == s.sent && t.emitted == s.emitted && t.wire == s.wire
    ensures Traced(t)
  {
  }

  lemma CountedTail(c: Config, emitted: multiset<nat>, base: nat, pending: seq<Pending>, gone: nat)
    requires Counted(c, emitted, base, pending) && gone <= |pending|
    ensures Counted(c, emitted, base + gone, pending[gone..])
  {
  }

  /**
   For every run: the outstanding frames are exactly the sent ones not released, they number at most 127 and their one-
   byte numbers are consecutive; everything on the wire is a frame that was sent; and no sent frame goes out more than
   once plus the retry limit.
   */
  lemma {:induction false} EveryRun(c: Config, initial: byte, steps: seq<Step>)
    requires c.capacity <= 127
    ensures Conserved(Run(c, initial, steps), initial - 1)
    ensures Metered(c, Run(c, initial, steps))
  {
    hide Conserved, Metered, Apply;
    if steps == [] {
      StartConserves(initial);
      StartMeters(c, initial);
    } else {
      var n := |steps| - 1;
      EveryRun(c, initial, steps[..n]);
      var s := Run(c, initial, steps[..n]);
      ConservedStep(c, s, steps[n], initial - 1);
      match steps[n]
      case Send(_, _, _, _) => SendMeters(c, s, steps[n]);
      case Tick(now) => TickMeters(c, s, now);
      case _ => AckMeters(c, s, steps[n]);
    }
  }

  lemma StartMeters(c: Config, initial: byte)
    ensures Metered(c, System(Start(initial), [], 0, [], []))
  {
  }

  /** A refused acknowledgement releases nothing, and an accepted one never frees a frame the peer has not counted. */
  lemma OnlyCountedFramesAreReleased(c: Config, initial: byte, steps: seq<Step>, count: int)
    requires c.capacity <= 127
    requires var base := Run(c, initial, steps).base; base - 128 <= count <= base + 127
    ensures var before := Run(c, initial, steps);
            var after := Run(c, initial, steps + [Ack(Wrap(initial - 1 + count))]);
            && after.sent == before.sent
            && after.base == if count <= |before.sent| then Max(before.base, count) else before.base
  {
    hide Conserved, Metered, Apply, Acknowledge;
    var all := steps + [Ack(Wrap(initial - 1 + count))];
    assert all[..|steps|] == steps;
    EveryRun(c, initial, steps);
    AckMoves(c, Run(c, initial, steps), initial - 1, count);
  }

  lemma AckMoves(c: Config, s: System, origin: int, count: int)
    requires Conserved(s, origin) && s.base - 128 <= count <= s.base + 127
    ensures var after := Apply(c, s, Ack(Wrap(origin + count)));
            && after.sent == s.sent
            && after.base == if count <= |s.sent| then Max(s.base, count) else s.base
  {
    hide Wrap, Acknowledge;
    CumulativeAck(s.window, origin, s.base, count);
  }
}
