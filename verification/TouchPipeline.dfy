/**
 CarPlay touch input, end to end: the host-facing Control with its bounded command queue, the receiver loop that
 forwards commands once the phone has sent RECORD, the bounded event queue, and the event channel that keeps the
 twelve contact bytes of the HID report. Coordinates arrive here as the integers the source rounds them to.
 */
module TouchPipeline {
  import opened Bytes

  datatype Phase = Down | Move | Up | Cancel

  datatype Command =
    | Touch(slot: nat, down: bool, x: u16, y: u16)
    | ReleaseTouches
    | ReleaseAudio
    | Keyframe
    | Night(night: bool)
    | Siri
    | SiriButton(pressed: bool)
    | AudioGain
    | MicrophoneSource
    | MicrophoneMute

  /** A request as the host sends it; `valid` stands for the checks on its non-integer arguments. */
  datatype Request =
    | Status
    | Activate(session: u64)
    | Visibility(session: u64, shown: bool)
    | TouchRequest(session: u64, pointer: u16, phase: Phase, valid: bool, x: u16, y: u16)
    | Gain(session: u64, valid: bool)
    | Disconnect(session: u64)
    | Source(session: u64, valid: bool)
    | Mute(session: u64)
    | SiriRequest(session: u64, button: Option<bool>)

  /** What the request finds outside the control: is there a video, and does the phone have audio to release. */
  datatype Surroundings = Surroundings(videoReady: bool, audioAvailable: bool)

  /** The control's session, presentation and disconnect flag, and the sending half of its command queue. */
  datatype Panel = Panel(
    session: u64, active: bool, visible: bool, revision: u64, pointers: map<u16, nat>, disconnected: bool,
    queue: seq<Command>, capacity: nat, closed: bool)

  function Room(p: Panel): nat {
    if p.closed || |p.queue| >= p.capacity then 0 else p.capacity - |p.queue|
  }

  /** `command`: None when the queue is full or closed. */
  function Send(p: Panel, c: Command): Option<Panel> {
    if Room(p) == 0 then None else Some(p.(queue := p.queue + [c]))
  }

  function EndSession(p: Panel): Panel {
    p.(active := false, visible := false, pointers := map[], disconnected := true)
  }

  /** `terminal_command`: a release that cannot be queued ends the session instead. */
  function SendTerminal(p: Panel, c: Command): (Panel, bool) {
    match Send(p, c)
    case Some(sent) => (sent, true)
    case None => (EndSession(p), false)
  }

  function FreeSlot(pointers: map<u16, nat>): Option<nat> {
    if 0 !in pointers.Values then Some(0) else if 1 !in pointers.Values then Some(1) else None
  }

  function Addressed(r: Request): Option<u64> {
    if r.Status? then None else Some(r.session)
  }

  function TouchPanel(p: Panel, r: Request, around: Surroundings): (Panel, bool)
    requires r.TouchRequest?
  {
    if !p.active || !p.visible || !r.valid then (p, false)
    else if r.phase.Cancel? then
      var (sent, ok) := SendTerminal(p, ReleaseTouches);
      (if ok then sent.(pointers := map[]) else sent, ok)
    else if !around.videoReady then (p, false)
    else if r.phase.Down? then
      if r.pointer in p.pointers || FreeSlot(p.pointers).None? then (p, false)
      else
        var slot := FreeSlot(p.pointers).value;
        match Send(p, Touch(slot, true, r.x, r.y))
        case None => (p, false)
        case Some(sent) => (sent.(pointers := p.pointers[r.pointer := slot]), true)
    else if r.pointer !in p.pointers then (p, false)
    else
      var slot := p.pointers[r.pointer];
      if r.phase.Move? then
        match Send(p, Touch(slot, true, r.x, r.y))
        case None => (p, false)
        case Some(sent) => (sent, true)
      else
        var (sent, ok) := SendTerminal(p, Touch(slot, false, r.x, r.y));
        (if ok then sent.(pointers := p.pointers - {r.pointer}) else sent, ok)
  }

  /** One request: the new state, and whether it succeeded. */
  function Serve(p: Panel, r: Request, around: Surroundings): (Panel, bool) {
    if Addressed(r).Some? && Addressed(r).value != p.session then (p, false)
    else if p.disconnected && !r.Status? && !r.Disconnect? then (p, false)
    else match r
      case Status => (p, true)
      case Activate(_) =>
        var commands := if around.audioAvailable then [Keyframe, ReleaseAudio] else [Keyframe];
        if p.revision == U64_MAX || Room(p) < |commands| then (p, false)
        else (p.(queue := p.queue + commands, revision := p.revision + 1, active := true, visible := true), true)
      case Visibility(_, shown) =>
        if !shown then
          var (sent, ok) := SendTerminal(p, ReleaseTouches);
          (if ok then sent.(pointers := map[], visible := false) else sent, ok)
        else if p.active then
          match Send(p, Keyframe)
          case None => (p, false)
          case Some(sent) => (sent.(visible := true), true)
        else (p.(visible := true), true)
      case TouchRequest(_, _, _, _, _, _) => TouchPanel(p, r, around)
      case Gain(_, valid) => if valid && Send(p, AudioGain).Some? then (Send(p, AudioGain).value, true) else (p, false)
      case Disconnect(_) =>
        var ended := EndSession(p);
        (if Send(ended, ReleaseTouches).Some? then Send(ended, ReleaseTouches).value else ended, true)
      case Source(_, valid) =>
        if valid && Send(p, MicrophoneSource).Some? then (Send(p, MicrophoneSource).value, true) else (p, false)
      case Mute(_) => if Send(p, MicrophoneMute).Some? then (Send(p, MicrophoneMute).value, true) else (p, false)
      case SiriRequest(_, button) =>
        var c := if button.Some? then SiriButton(button.value) else Siri;
        if p.active && Send(p, c).Some? then (Send(p, c).value, true) else (p, false)
  }

  /** `Control`, updating its presentation in place. */
  class Control {
    const session: u64
    const capacity: nat
    var active: bool
    var visible: bool
    var revision: u64
    var pointers: map<u16, nat>
    var disconnected: bool
    var queue: seq<Command>
    var closed: bool

    constructor (session: u64, capacity: nat)
      ensures View() == Panel(session, false, false, 0, map[], false, [], capacity, false)
    {
      this.session, this.capacity := session, capacity;
      active, visible, revision, pointers, disconnected := false, false, 0, map[], false;
      queue, closed := [], false;
    }

    ghost function View(): Panel
      reads this
    {
      Panel(session, active, visible, revision, pointers, disconnected, queue, capacity, closed)
    }

    method TrySend(c: Command) returns (ok: bool)
      modifies this`queue
      ensures ok <==> Send(old(View()), c).Some?
      ensures View() == if ok then Send(old(View()), c).value else old(View())
    {
      if closed || |queue| >= capacity {
        return false;
      }
      queue := queue + [c];
      return true;
    }

    method End()
      modifies this
      ensures View() == EndSession(old(View()))
    {
      active, visible, pointers := false, false, map[];
      disconnected := true;
    }

    method TerminalSend(c: Command) returns (ok: bool)
      modifies this
      ensures (View(), ok) == SendTerminal(old(View()), c)
    {
      ok := TrySend(c);
      if !ok {
        End();
      }
    }

    method ServeTouch(r: Request, around: Surroundings) returns (ok: bool)
      requires r.TouchRequest?
      modifies this
      ensures (View(), ok) == TouchPanel(old(View()), r, around)
    {
      if !active || !visible || !r.valid {
        return false;
      }
      if r.phase.Cancel? {
        ok := TerminalSend(ReleaseTouches);
        if ok {
          pointers := map[];
        }
        return;
      }
      if !around.videoReady {
        return false;
      }
      if r.phase.Down? {
        if r.pointer in pointers {
          return false;
        }
        var slot := FreeSlot(pointers);
        if slot.None? {
          return false;
        }
        ok := TrySend(Touch(slot.value, true, r.x, r.y));
        if ok {
          pointers := pointers[r.pointer := slot.value];
        }
        return;
      }
      if r.pointer !in pointers {
        return false;
      }
      var slot := pointers[r.pointer];
      if r.phase.Move? {
        ok := TrySend(Touch(slot, true, r.x, r.y));
      } else {
        ok := TerminalSend(Touch(slot, false, r.x, r.y));
        if ok {
          pointers := pointers - {r.pointer};
        }
      }
    }

    method ServeRequest(r: Request, around: Surroundings) returns (ok: bool)
      modifies this
      ensures (View(), ok) == Serve(old(View()), r, around)
    {
      if Addressed(r).Some? && Addressed(r).value != session {
        return false;
      }
      if disconnected && !r.Status? && !r.Disconnect? {
        return false;
      }
      match r {
        case Status => return true;
        case Activate(_) =>
          var needed := if around.audioAvailable then 2 else 1;
          if revision == U64_MAX || closed || |queue| + needed > capacity {
            return false;
          }
          queue := queue + (if around.audioAvailable then [Keyframe, ReleaseAudio] else [Keyframe]);
          revision, active, visible := revision + 1, true, true;
          return true;
        case Visibility(_, shown) =>
          if !shown {
            ok := TerminalSend(ReleaseTouches);
            if !ok {
              return;
            }
            pointers := map[];
          } else if active {
            ok := TrySend(Keyframe);
            if !ok {
              return;
            }
          }
          visible := shown;
          return true;
        case TouchRequest(_, _, _, _, _, _) => ok := ServeTouch(r, around);
        case Gain(_, valid) =>
          if !valid {
            return false;
          }
          ok := TrySend(AudioGain);
        case Disconnect(_) =>
          End();
          var queued := TrySend(ReleaseTouches);
          return true;
        case Source(_, valid) =>
          if !valid {
            return false;
          }
          ok := TrySend(MicrophoneSource);
        case Mute(_) => ok := TrySend(MicrophoneMute);
        case SiriRequest(_, button) =>
          if !active {
            return false;
          }
          ok := TrySend(if button.Some? then SiriButton(button.value) else Siri);
      }
    }
  }

  // ---- The event channel ----

  const EVENT_CAPACITY: nat := 32
  const NO_CONTACTS: seq<byte> := [0, 0, 0, 0, 0, 0, 1, 0, 0, 0, 0, 0]

  /** Commands the event channel refuses, ending the session. */
  predicate Refused(c: Command) {
    c.AudioGain? || c.MicrophoneMute? || c.MicrophoneSource? || (c.Touch? && c.slot > 1)
  }

  function Contacts(bytes: seq<byte>, c: Command): (r: seq<byte>)
    requires |bytes| == 12 && !Refused(c)
    ensures |r| == 12
  {
    match c
    case Touch(slot, down, x, y) =>
      var i := slot * 6;
      bytes[i + 1 := if down then 1 else 0][i + 2 := x % 256][i + 3 := x / 256][i + 4 := y % 256][i + 5 := y / 256]
    case ReleaseTouches => bytes[1 := 0][7 := 0]
    case _ => bytes
  }

  /** The in-place edit of the contact array, for one command the channel accepts. */
  method EditContacts(contacts: array<byte>, c: Command)
    requires contacts.Length == 12 && !Refused(c)
    modifies contacts
    ensures contacts[..] == Contacts(old(contacts[..]), c)
  {
    match c {
      case Touch(slot, down, x, y) =>
        var i := slot * 6;
        contacts[i + 1] := if down then 1 else 0;
        contacts[i + 2], contacts[i + 3] := x % 256, x / 256;
        contacts[i + 4], contacts[i + 5] := y % 256, y / 256;
      case ReleaseTouches =>
        contacts[1] := 0;
        contacts[7] := 0;
      case _ =>
    }
  }

  // ---- The whole pipeline ----

  /**
   silent is history: the slots whose latest touch word was a press that was discarded because RECORD had not arrived.
   Only a word that is about the slot changes it.
   */
  datatype System = System(
    panel: Panel, recorded: bool, events: seq<Command>, contacts: seq<byte>, report: seq<byte>, ended: bool,
    silent: set<nat>)

  datatype Step =
    | Host(request: Request, around: Surroundings)
    | Record
    | Forward           // the receiver loop takes one command
    | Emit              // the event channel takes one event and sends its report
    | ScreenKeyframe    // the screen task asks for a keyframe
    | Fail              // any task fails: the session ends

  function Start(session: u64, capacity: nat): System {
    System(Panel(session, false, false, 0, map[], false, [], capacity, false),
           false, [], NO_CONTACTS, NO_CONTACTS, false, {})
  }

  function Ended(s: System): System {
    s.(ended := true, panel := s.panel.(closed := true))
  }

  predicate TouchCommand(c: Command) {
    c.Touch? || c.ReleaseTouches?
  }

  /** The silent slots after a command has left the host queue; discarded is whether it went no further. */
  function Hushed(silent: set<nat>, c: Command, discarded: bool): set<nat> {
    match c
    case Touch(slot, down, _, _) => if discarded && down then silent + {slot} else silent - {slot}
    case ReleaseTouches => {}
    case _ => silent
  }

  function Apply(s: System, step: Step): (t: System)
    requires |s.contacts| == 12
    ensures |t.contacts| == 12
  {
    match step
    case Host(request, around) => s.(panel := Serve(s.panel, request, around).0)
    case Record => if s.ended then s else s.(recorded := true)
    case Forward =>
      if s.ended || s.panel.queue == [] then s
      else
        var c := s.panel.queue[0];
        var taken := s.(panel := s.panel.(queue := s.panel.queue[1..]));
        if c.AudioGain? || c.MicrophoneSource? || c.MicrophoneMute? then taken
        else if !s.recorded then taken.(silent := Hushed(s.silent, c, true))
        else if |s.events| >= EVENT_CAPACITY then Ended(taken)
        else taken.(events := s.events + [c], silent := Hushed(s.silent, c, false))
    case Emit =>
      if s.ended || s.events == [] then s
      else
        var c := s.events[0];
        var taken := s.(events := s.events[1..]);
        if Refused(c) then Ended(taken)
        else
          var contacts := Contacts(s.contacts, c);
          taken.(contacts := contacts, report := if TouchCommand(c) then contacts else s.report)
    case ScreenKeyframe =>
      if s.ended then s
      else if |s.events| >= EVENT_CAPACITY then Ended(s)
      else s.(events := s.events + [Keyframe])
    case Fail => Ended(s)
  }

  function Run(s: System, steps: seq<Step>): (t: System)
    requires |s.contacts| == 12
    ensures |t.contacts| == 12
  {
    if steps == [] then s else Apply(Run(s, steps[..|steps| - 1]), steps[|steps| - 1])
  }

  // ---- The invariant ----

  /** What one command says about a slot: pressed, released, or nothing. */
  function Says(c: Command, slot: nat): Option<bool> {
    if c.ReleaseTouches? then Some(false)
    else if c.Touch? && c.slot == slot then Some(c.down)
    else None
  }

  /** The last word a queue has about a slot. */
  function LastWord(queue: seq<Command>, slot: nat): Option<bool> {
    if queue == [] then None
    else
      var last := Says(queue[|queue| - 1], slot);
      if last.Some? then last else LastWord(queue[..|queue| - 1], slot)
  }

  predicate Pressed(contacts: seq<byte>, slot: nat)
    requires |contacts| == 12 && slot < 2
  {
    contacts[slot * 6 + 1] == 1
  }

  /** Where the report will show the slot once the event channel has drained its own queue. */
  predicate Delivered(s: System, slot: nat)
    requires |s.contacts| == 12 && slot < 2
  {
    var word := LastWord(s.events, slot);
    if word.Some? then word.value else Pressed(s.contacts, slot)
  }

  /** Whether the words still queued by the host, the delivered ones and the discarded presses leave the slot held. */
  predicate Pending(s: System, slot: nat)
    requires |s.contacts| == 12 && slot < 2
  {
    var word := LastWord(s.panel.queue, slot);
    if word.Some? then word.value else Delivered(s, slot) || slot in s.silent
  }

  predicate Mapped(pointers: map<u16, nat>, slot: nat) {
    exists q :: q in pointers && pointers[q] == slot
  }

  ghost predicate SlotsDistinct(pointers: map<u16, nat>) {
    && (forall q :: q in pointers ==> pointers[q] < 2)
    && (forall q, r :: q in pointers && r in pointers && q != r ==> pointers[q] != pointers[r])
  }

  predicate WellSlotted(queue: seq<Command>) {
    forall c :: c in queue && c.Touch? ==> c.slot < 2
  }

  predicate NoTouches(queue: seq<Command>) {
    forall c :: c in queue ==> !TouchCommand(c)
  }

  predicate Alive(s: System) {
    !s.ended && !s.panel.disconnected
  }

  /** Everything about shape: bounds, distinct slots, and contact bytes that only RECORD can change. */
  ghost predicate Shape(s: System) {
    && |s.contacts| == 12
    && |s.panel.queue| <= s.panel.capacity && |s.events| <= EVENT_CAPACITY
    && SlotsDistinct(s.panel.pointers)
    && WellSlotted(s.panel.queue) && WellSlotted(s.events)
    && (!s.recorded ==> NoTouches(s.events) && s.contacts == NO_CONTACTS)
    && s.contacts[0] == 0 && s.contacts[6] == 1 && s.contacts[1] < 2 && s.contacts[7] < 2
    && s.report == s.contacts
  }

  /**
   While the session lives, what is pending for a slot is exactly whether the host holds it, and a silent slot is one
   the report does not show.
   */
  ghost predicate Faithful(s: System)
    requires |s.contacts| == 12
  {
    Alive(s) ==>
      forall slot: nat :: slot < 2 ==>
        && (Pending(s, slot) <==> Mapped(s.panel.pointers, slot))
        && (slot in s.silent ==> !Delivered(s, slot))
  }

  ghost predicate Inv(s: System) {
    Shape(s) && Faithful(s)
  }

  lemma LastWordSnoc(queue: seq<Command>, c: Command, slot: nat)
    ensures LastWord(queue + [c], slot) == if Says(c, slot).Some? then Says(c, slot) else LastWord(queue, slot)
  {
    assert (queue + [c])[..|queue|] == queue;
  }

  lemma {:induction false} LastWordHead(queue: seq<Command>, slot: nat)
    requires queue != []
    ensures LastWord(queue, slot) ==
            if LastWord(queue[1..], slot).Some? then LastWord(queue[1..], slot) else Says(queue[0], slot)
  {
    if |queue| > 1 {
      var front := queue[..|queue| - 1];
      LastWordHead(front, slot);
      assert front[1..] == queue[1..][..|queue| - 2];
    }
  }

  lemma {:induction false} QuietQueue(queue: seq<Command>, slot: nat)
    requires NoTouches(queue)
    ensures LastWord(queue, slot) == None
  {
    if queue != [] {
      QuietQueue(queue[..|queue| - 1], slot);
      assert queue[|queue| - 1] in queue;
    }
  }

  /** Two commands at once, as Activate reserves them, say nothing about touches. */
  lemma ActivateIsQuiet(queue: seq<Command>, audio: bool, slot: nat)
    ensures LastWord(queue + (if audio then [Keyframe, ReleaseAudio] else [Keyframe]), slot) == LastWord(queue, slot)
  {
    LastWordSnoc(queue, Keyframe, slot);
    if audio {
      LastWordSnoc(queue + [Keyframe], ReleaseAudio, slot);
      assert queue + [Keyframe, ReleaseAudio] == queue + [Keyframe] + [ReleaseAudio];
    }
  }

  lemma MappedAfterInsert(pointers: map<u16, nat>, pointer: u16, slot: nat, other: nat)
    requires pointer !in pointers
    ensures Mapped(pointers[pointer := slot], other) <==> Mapped(pointers, other) || other == slot
  {
    var after := pointers[pointer := slot];
    if other == slot {
      assert after[pointer] == slot;
    }
    if Mapped(pointers, other) {
      var r :| r in pointers && pointers[r] == other;
      assert after[r] == other;
    }
  }

  lemma MappedAfterRemove(pointers: map<u16, nat>, pointer: u16, other: nat)
    requires SlotsDistinct(pointers) && pointer in pointers
    ensures Mapped(pointers - {pointer}, other) <==> Mapped(pointers, other) && other != pointers[pointer]
  {
    if Mapped(pointers, other) && other != pointers[pointer] {
      var r :| r in pointers && pointers[r] == other;
      assert (pointers - {pointer})[r] == other;
    }
  }

  lemma FreeSlotIsFree(p: Panel)
    requires FreeSlot(p.pointers).Some?
    ensures FreeSlot(p.pointers).value < 2 && !Mapped(p.pointers, FreeSlot(p.pointers).value)
  {
  }

  /** Appending one command to the host queue, together with a matching change of the pointer map. */
  lemma QueueOne(s: System, c: Command, p: Panel)
    requires |s.contacts| == 12 && Faithful(s)
    requires p.queue == s.panel.queue + [c]
    requires p.disconnected == s.panel.disconnected
    requires forall slot: nat :: slot < 2 ==>
               match Says(c, slot)
               case None => Mapped(p.pointers, slot) <==> Mapped(s.panel.pointers, slot)
               case Some(down) => Mapped(p.pointers, slot) <==> down
    ensures Faithful(s.(panel := p))
  {
    forall slot: nat | slot < 2
      ensures LastWord(p.queue, slot) == if Says(c, slot).Some? then Says(c, slot) else LastWord(s.panel.queue, slot)
    {
      LastWordSnoc(s.panel.queue, c, slot);
    }
  }

  lemma SamePending(s: System, t: System, slot: nat)
    requires |s.contacts| == 12 && slot < 2
    requires t.contacts == s.contacts && t.events == s.events && t.silent == s.silent
    requires LastWord(t.panel.queue, slot) == LastWord(s.panel.queue, slot)
    ensures Pending(t, slot) == Pending(s, slot) && Delivered(t, slot) == Delivered(s, slot)
  {
  }

  lemma TouchKeepsFaithful(s: System, r: Request, around: Surroundings)
    requires Inv(s) && r.TouchRequest?
    ensures Faithful(s.(panel := TouchPanel(s.panel, r, around).0))
  {
    hide Pending, Delivered;
    var p := s.panel;
    var t := TouchPanel(p, r, around).0;
    if t != p && !t.disconnected {
      var c := t.queue[|p.queue|];
      if r.phase.Down? {
        FreeSlotIsFree(p);
        forall slot: nat | slot < 2 {
          MappedAfterInsert(p.pointers, r.pointer, FreeSlot(p.pointers).value, slot);
        }
      } else if r.phase.Move? {
        assert Mapped(p.pointers, p.pointers[r.pointer]);
      } else if r.phase.Up? {
        forall slot: nat | slot < 2 {
          MappedAfterRemove(p.pointers, r.pointer, slot);
        }
      }
      QueueOne(s, c, t);
    }
  }

  lemma HostKeepsFaithful(s: System, r: Request, around: Surroundings)
    requires Inv(s)
    ensures Faithful(Apply(s, Host(r, around)))
  {
    hide Pending, Delivered;
    var p := s.panel;
    var t := Serve(p, r, around).0;
    if t != p && !t.disconnected {
      if r.TouchRequest? {
        TouchKeepsFaithful(s, r, around);
      } else if r.Activate? {
        forall slot: nat | slot < 2
          ensures Pending(s.(panel := t), slot) == Pending(s, slot)
          ensures Delivered(s.(panel := t), slot) == Delivered(s, slot)
        {
          ActivateIsQuiet(p.queue, around.audioAvailable, slot);
          SamePending(s, s.(panel := t), slot);
        }
      } else if t.queue != p.queue {
        QueueOne(s, t.queue[|p.queue|], t);
      } else {
        forall slot: nat | slot < 2 {
          SamePending(s, s.(panel := t), slot);
        }
      }
    }
  }

  lemma TouchKeepsSlots(p: Panel, r: Request, around: Surroundings)
    requires SlotsDistinct(p.pointers) && r.TouchRequest?
    ensures SlotsDistinct(TouchPanel(p, r, around).0.pointers)
  {
    if FreeSlot(p.pointers).Some? {
      FreeSlotIsFree(p);
    }
  }

  lemma TouchKeepsQueue(p: Panel, r: Request, around: Surroundings)
    requires SlotsDistinct(p.pointers) && WellSlotted(p.queue) && |p.queue| <= p.capacity && r.TouchRequest?
    ensures var t := TouchPanel(p, r, around).0;
            WellSlotted(t.queue) && |t.queue| <= t.capacity
  {
    if FreeSlot(p.pointers).Some? {
      FreeSlotIsFree(p);
    }
  }

  lemma TouchKeepsShape(s: System, r: Request, around: Surroundings)
    requires Shape(s) && r.TouchRequest?
    ensures Shape(s.(panel := TouchPanel(s.panel, r, around).0))
  {
    hide TouchPanel, SlotsDistinct, WellSlotted, NoTouches;
    TouchKeepsSlots(s.panel, r, around);
    TouchKeepsQueue(s.panel, r, around);
  }

  lemma HostKeepsShape(s: System, r: Request, around: Surroundings)
    requires Shape(s)
    ensures Shape(Apply(s, Host(r, around)))
  {
    if r.TouchRequest? {
      TouchKeepsShape(s, r, around);
    }
  }

  /** What one command does to the words and the silence of a slot on its way out of the host queue. */
  lemma ForwardWords(s: System, slot: nat)
    requires Shape(s) && slot < 2 && !s.ended && s.panel.queue != [] && !Apply(s, Forward).ended
    ensures var c, t := s.panel.queue[0], Apply(s, Forward);
            var word := Says(c, slot);
            && t.contacts == s.contacts
            && LastWord(s.panel.queue, slot)
               == (if LastWord(t.panel.queue, slot).Some? then LastWord(t.panel.queue, slot) else word)
            && (s.recorded ==> LastWord(t.events, slot) == if word.Some? then word else LastWord(s.events, slot))
            && (!s.recorded ==> t.events == s.events && LastWord(s.events, slot) == None && !Pressed(s.contacts, slot))
            && (slot in t.silent <==> if word.Some? then word.value && !s.recorded else slot in s.silent)
  {
    hide LastWord, SlotsDistinct, WellSlotted;
    var c := s.panel.queue[0];
    LastWordHead(s.panel.queue, slot);
    LastWordSnoc(s.events, c, slot);
    if !s.recorded {
      QuietQueue(s.events, slot);
    }
  }

  lemma ForwardOne(s: System, slot: nat)
    requires Inv(s) && Alive(s) && slot < 2 && s.panel.queue != [] && !Apply(s, Forward).ended
    ensures var t := Apply(s, Forward);
            && Pending(t, slot) == Pending(s, slot)
            && (slot in t.silent ==> !Delivered(t, slot))
  {
    assert slot in s.silent ==> !Delivered(s, slot);
    ForwardWords(s, slot);
    hide Faithful, Shape, LastWord, Says, Apply, Pressed;
  }

  lemma SlottedParts(queue: seq<Command>, events: seq<Command>)
    requires queue != [] && WellSlotted(queue) && WellSlotted(events)
    ensures WellSlotted(queue[1..]) && WellSlotted(events + [queue[0]])
  {
    assert queue[0] in queue;
    assert forall c :: c in queue[1..] ==> c in queue;
  }

  lemma ForwardKeepsShape(s: System)
    requires Shape(s)
    ensures Shape(Apply(s, Forward))
  {
    hide WellSlotted, SlotsDistinct;
    if s.panel.queue != [] {
      SlottedParts(s.panel.queue, s.events);
    }
  }

  lemma ForwardKeepsFaithful(s: System)
    requires Inv(s)
    ensures Faithful(Apply(s, Forward))
  {
    assert |s.contacts| == 12;
    hide Shape, Pending, Delivered;
    var t := Apply(s, Forward);
    if t != s && Alive(t) {
      forall slot: nat | slot < 2
        ensures Pending(t, slot) == Pending(s, slot) && (slot in t.silent ==> !Delivered(t, slot))
      {
        ForwardOne(s, slot);
      }
    }
  }

  lemma EmitOne(s: System, slot: nat)
    requires Shape(s) && slot < 2 && !s.ended && s.events != [] && !Apply(s, Emit).ended
    ensures Pending(Apply(s, Emit), slot) == Pending(s, slot)
    ensures Delivered(Apply(s, Emit), slot) == Delivered(s, slot)
  {
    LastWordHead(s.events, slot);
    assert s.events[0] in s.events;
  }

  lemma EmitKeepsShape(s: System)
    requires Shape(s)
    ensures Shape(Apply(s, Emit))
  {
    if s.events != [] {
      assert s.events[0] in s.events;
    }
  }

  lemma EmitKeepsFaithful(s: System)
    requires Inv(s)
    ensures Faithful(Apply(s, Emit))
  {
    assert |s.contacts| == 12;
    hide Shape, Pending, Delivered;
    var t := Apply(s, Emit);
    if t != s && !t.ended {
      forall slot: nat | slot < 2
        ensures Pending(t, slot) == Pending(s, slot) && Delivered(t, slot) == Delivered(s, slot)
      {
        EmitOne(s, slot);
      }
    }
  }

  lemma ScreenKeepsInv(s: System)
    requires Inv(s)
    ensures Inv(Apply(s, ScreenKeyframe))
  {
    forall slot: nat | slot < 2
      ensures LastWord(s.events + [Keyframe], slot) == LastWord(s.events, slot)
    {
      LastWordSnoc(s.events, Keyframe, slot);
    }
  }

  lemma StepKeepsInv(s: System, step: Step)
    requires Inv(s)
    ensures Inv(Apply(s, step))
  {
    hide Pending, Delivered, LastWord, Mapped;
    match step
    case Host(r, around) =>
      HostKeepsShape(s, r, around);
      HostKeepsFaithful(s, r, around);
    case Forward =>
      ForwardKeepsShape(s);
      ForwardKeepsFaithful(s);
    case Emit =>
      EmitKeepsShape(s);
      EmitKeepsFaithful(s);
    case ScreenKeyframe => ScreenKeepsInv(s);
    case Record => assert Faithful(Apply(s, Record)) by { RecordKeepsFaithful(s); }
    case Fail =>
  }

  lemma RecordKeepsFaithful(s: System)
    requires Inv(s)
    ensures Faithful(Apply(s, Record))
  {
    forall slot: nat | slot < 2 {
      SamePending(s, Apply(s, Record), slot);
    }
  }

  lemma {:induction false} InvAlways(session: u64, capacity: nat, steps: seq<Step>)
    ensures Inv(Run(Start(session, capacity), steps))
  {
    if steps != [] {
      InvAlways(session, capacity, steps[..|steps| - 1]);
      StepKeepsInv(Run(Start(session, capacity), steps[..|steps| - 1]), steps[|steps| - 1]);
    } else {
      assert forall slot: nat :: slot < 2 ==> !Mapped(Start(session, capacity).panel.pointers, slot);
    }
  }

  // ---- The theorems ----

  /**
   No stuck touch: in every run whose session has not ended, once both queues have drained, the last HID report
   shows a slot pressed exactly if some host pointer holds it and its latest touch word was not a press discarded
   before RECORD.
   */
  lemma NoStuckTouch(session: u64, capacity: nat, steps: seq<Step>, slot: nat)
    requires slot < 2
    requires var s := Run(Start(session, capacity), steps);
             Alive(s) && s.panel.queue == [] && s.events == []
    ensures var s := Run(Start(session, capacity), steps);
            && |s.report| == 12
            && (Pressed(s.report, slot) <==> Mapped(s.panel.pointers, slot) && slot !in s.silent)
  {
    InvAlways(session, capacity, steps);
    var s := Run(Start(session, capacity), steps);
    assert Delivered(s, slot) == Pressed(s.contacts, slot);
  }

  /** At any moment of any run, held slots are distinct and in range, and both queues respect their bounds. */
  lemma SlotsStayDistinct(session: u64, capacity: nat, steps: seq<Step>)
    ensures var s := Run(Start(session, capacity), steps);
            && SlotsDistinct(s.panel.pointers)
            && |s.panel.queue| <= s.panel.capacity && |s.events| <= EVENT_CAPACITY
            && !(s.events != [] && s.events[0].Touch? && s.events[0].slot > 1)
  {
    InvAlways(session, capacity, steps);
    var s := Run(Start(session, capacity), steps);
    assert s.events != [] ==> s.events[0] in s.events;
  }

  /**
   The discard is why the condition is needed: a touch made before RECORD is held but not reported, until a later word
   about its slot is.
   */
  lemma DiscardedTouchIsHeldButNotPressed()
    ensures var around := Surroundings(true, false);
            var down := TouchRequest(7, 42, Down, true, 400, 240);
            var steps := [Host(Activate(7), around), Host(down, around), Forward, Forward];
            var s := Run(Start(7, 32), steps);
            && Alive(s) && s.panel.queue == [] && s.events == []
            && Mapped(s.panel.pointers, 0) && s.silent == {0}
            && |s.report| == 12 && !Pressed(s.report, 0)
  {
    hide Serve, Mapped, Run, Apply;
    var around := Surroundings(true, false);
    var down := TouchRequest(7, 42, Down, true, 400, 240);
    var steps := [Host(Activate(7), around), Host(down, around), Forward, Forward];
    var s0 := Start(7, 32);
    ServeTwo(s0.panel);
    var p1 := Serve(s0.panel, Activate(7), around).0;
    var p2 := Serve(p1, down, around).0;
    assert steps[..1] == [] + [steps[0]];
    RunSnoc(s0, [], steps[0]);
    var s2 := s0.(panel := p2);
    HostApplied(s0, Activate(7), around);
    HostApplied(s0.(panel := p1), down, around);
    assert steps[..2] == steps[..1] + [steps[1]];
    RunSnoc(s0, steps[..1], steps[1]);
    assert steps[..3] == steps[..2] + [Forward];
    RunSnoc(s0, steps[..2], Forward);
    assert steps == steps[..3] + [Forward];
    RunSnoc(s0, steps[..3], Forward);
    ForwardDiscards(s2);
    ForwardDiscards(s2.(panel := p2.(queue := [Touch(0, true, 400, 240)])));
  }

  lemma HostApplied(s: System, r: Request, around: Surroundings)
    requires |s.contacts| == 12
    ensures Apply(s, Host(r, around)) == s.(panel := Serve(s.panel, r, around).0)
  {
    hide Serve;
  }

  lemma ForwardDiscards(s: System)
    requires |s.contacts| == 12 && !s.ended && !s.recorded && s.panel.queue != []
    requires s.panel.queue[0].Keyframe? || s.panel.queue[0].Touch?
    ensures Apply(s, Forward) ==
            s.(panel := s.panel.(queue := s.panel.queue[1..]), silent := Hushed(s.silent, s.panel.queue[0], true))
  {
  }

  lemma ServeTwo(p: Panel)
    requires p == Start(7, 32).panel
    ensures var around := Surroundings(true, false);
            var p1 := Serve(p, Activate(7), around).0;
            var p2 := Serve(p1, TouchRequest(7, 42, Down, true, 400, 240), around).0;
            && p2.queue == [Keyframe, Touch(0, true, 400, 240)] && !p2.disconnected && Mapped(p2.pointers, 0)
  {
    var around := Surroundings(true, false);
    var p1 := Serve(p, Activate(7), around).0;
    assert p1.queue == [Keyframe];
    var p2 := Serve(p1, TouchRequest(7, 42, Down, true, 400, 240), around).0;
    assert p2.pointers[42] == 0;
  }

  lemma RunSnoc(s: System, steps: seq<Step>, step: Step)
    requires |s.contacts| == 12
    ensures Run(s, []) == s
    ensures Run(s, steps + [step]) == Apply(Run(s, steps), step)
  {
    assert (steps + [step])[..|steps|] == steps;
  }
}
