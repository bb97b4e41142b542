/**
 ARCR/1: the three-slot shared-memory ring between the camera daemon and a camera view. The writer brackets
 every frame with an odd and an even guard value; the reader copies a frame between two loads of the guard.
 Here both run as interleaved atomic loads and stores, one byte of the pixel copies at a time, under
 sequential consistency. Numbers are unbounded, so guards and sequences do not wrap.
 */
module CameraRing {
  import opened Bytes

  const CAPACITY: nat := 1920 * 1080 * 4
  const STALE_NS: nat := 750_000_000

  datatype Slot = Slot(
    guard: nat, width: nat, height: nat, stride: nat, fpsNum: nat, fpsDen: nat, time: nat, pixels: seq<byte>)

  datatype Memory = Memory(sequence: nat, active: nat, role: nat, slots: seq<Slot>)

  /** The arguments of one write, and the clock value it stores. */
  datatype Image = Image(
    width: nat, height: nat, stride: nat, fpsNum: nat, fpsDen: nat, time: nat, data: seq<byte>)

  predicate LegalMemory(m: Memory) {
    |m.slots| == 3 && forall j :: 0 <= j < 3 ==> |m.slots[j].pixels| == CAPACITY
  }

  /** Bytes of pixels an image of this shape occupies. */
  function Area(stride: nat, height: nat): nat {
    stride * height
  }

  /** The bounds `write` enforces before it touches the ring. */
  predicate Admissible(f: Image) {
    && 0 < f.width <= 1920 && 0 < f.height <= 1920
    && f.stride >= f.width * 4
    && Area(f.stride, f.height) <= CAPACITY
    && |f.data| >= Area(f.stride, f.height)
  }

  function SlotOf(sequence: nat): (j: nat)
    requires sequence >= 1
    ensures j < 3
  {
    (sequence - 1) % 3
  }

  // ---- The writer and the reader as atomic steps ----

  /** The store the writer performs next. */
  datatype Writer =
    | WriterIdle
    | StoreWidth | StoreHeight | StoreStride | StoreFpsNum | StoreFpsDen | StoreTime
    | CopyPixels(done: set<nat>)
    | StoreGuard | StoreSequence | StoreActive

  datatype Failure = Inactive | WrongRole | NoFrame | Overtaken | OutOfBounds | Stale | Torn | Invalidated

  /** The load the reader performs next, or its result. */
  datatype Reader =
    | ReaderIdle
    | LoadActive | LoadRole | LoadSequence | LoadGuard
    | LoadWidth | LoadHeight | LoadStride | LoadTime
    | ReadPixels
    | ReloadGuard | ReloadActive
    | Returned | Failed(failure: Failure)

  /** The reader's local variables; pixels holds the bytes copied so far. */
  datatype Local = Local(
    now: nat, wantedRole: nat, sequence: nat, width: nat, height: nat, stride: nat, time: nat, pixels: map<nat, byte>)

  const NO_LOCAL := Local(0, 0, 0, 0, 0, 0, 0, map[])

  /**
   begun lists the images of all writes begun so far, so that write number n carries begun[n - 1]; the
   writer's own counter is its length.
   */
  datatype System = System(memory: Memory, writer: Writer, begun: seq<Image>, reader: Reader, local: Local)

  datatype Step =
    | BeginWrite(image: Image)
    | WriterStep(pixel: nat)
    | Invalidate
    | SetRole(newRole: nat)
    | BeginRead(now: nat, wanted: nat)
    | ReaderStep(index: nat)

  function Current(s: System): Image
    requires s.begun != []
  {
    s.begun[|s.begun| - 1]
  }

  function StoreInto(m: Memory, j: nat, slot: Slot): (r: Memory)
    requires j < |m.slots|
    ensures |r.slots| == |m.slots| && r.slots[j] == slot
  {
    m.(slots := m.slots[j := slot])
  }

  predicate Covers(done: set<nat>, size: nat) {
    forall i :: 0 <= i < size ==> i in done
  }

  function ApplyWriter(s: System, pixel: nat): System
    requires |s.memory.slots| == 3
  {
    if s.writer.WriterIdle? || s.begun == [] then s
    else
      var f := Current(s);
      var seqno := |s.begun|;
      var j := SlotOf(seqno);
      var slot := s.memory.slots[j];
      match s.writer
      case WriterIdle => s
      case StoreWidth => s.(memory := StoreInto(s.memory, j, slot.(width := f.width)), writer := StoreHeight)
      case StoreHeight => s.(memory := StoreInto(s.memory, j, slot.(height := f.height)), writer := StoreStride)
      case StoreStride => s.(memory := StoreInto(s.memory, j, slot.(stride := f.stride)), writer := StoreFpsNum)
      case StoreFpsNum => s.(memory := StoreInto(s.memory, j, slot.(fpsNum := f.fpsNum)), writer := StoreFpsDen)
      case StoreFpsDen => s.(memory := StoreInto(s.memory, j, slot.(fpsDen := f.fpsDen)), writer := StoreTime)
      case StoreTime =>
        s.(memory := StoreInto(s.memory, j, slot.(time := f.time)), writer := CopyPixels({}))
      case CopyPixels(done) =>
        if Covers(done, Area(f.stride, f.height)) then s.(writer := StoreGuard)
        else if pixel >= Area(f.stride, f.height) || pixel >= |slot.pixels| || pixel >= |f.data| then s
        else s.(memory := StoreInto(s.memory, j, slot.(pixels := slot.pixels[pixel := f.data[pixel]])),
                writer := CopyPixels(done + {pixel}))
      case StoreGuard => s.(memory := StoreInto(s.memory, j, slot.(guard := seqno * 2)), writer := StoreSequence)
      case StoreSequence => s.(memory := s.memory.(sequence := seqno), writer := StoreActive)
      case StoreActive => s.(memory := s.memory.(active := 1), writer := WriterIdle)
  }

  /** The reader's bounds check on the header it loaded. */
  predicate Plausible(l: Local) {
    && 0 < l.width <= 1920 && 0 < l.height <= 1920
    && l.stride >= l.width * 4
    && l.stride <= CAPACITY / l.height
  }

  predicate Fresh(time: nat, now: nat) {
    time <= now < time + STALE_NS
  }

  function ApplyReader(s: System, index: nat): System
    requires |s.memory.slots| == 3
  {
    var m := s.memory;
    var l := s.local;
    var slot := if l.sequence == 0 then m.slots[0] else m.slots[SlotOf(l.sequence)];
    match s.reader
    case LoadActive => s.(reader := if m.active == 1 then LoadRole else Failed(Inactive))
    case LoadRole => s.(reader := if m.role == l.wantedRole + 1 then LoadSequence else Failed(WrongRole))
    case LoadSequence =>
      s.(local := l.(sequence := m.sequence), reader := if m.sequence == 0 then Failed(NoFrame) else LoadGuard)
    case LoadGuard => s.(reader := if slot.guard == l.sequence * 2 then LoadWidth else Failed(Overtaken))
    case LoadWidth => s.(local := l.(width := slot.width), reader := LoadHeight)
    case LoadHeight => s.(local := l.(height := slot.height), reader := LoadStride)
    case LoadStride => s.(local := l.(stride := slot.stride), reader := LoadTime)
    case LoadTime =>
      var loaded := l.(time := slot.time);
      s.(local := loaded,
         reader := if !Plausible(loaded) then Failed(OutOfBounds)
                   else if !Fresh(loaded.time, loaded.now) then Failed(Stale)
                   else ReadPixels)
    case ReadPixels =>
      if Covers(l.pixels.Keys, Area(l.stride, l.height)) then s.(reader := ReloadGuard)
      else if index < Area(l.stride, l.height) && index < |slot.pixels| then
        s.(local := l.(pixels := l.pixels[index := slot.pixels[index]]))
      else s
    case ReloadGuard => s.(reader := if slot.guard == l.sequence * 2 then ReloadActive else Failed(Torn))
    case ReloadActive => s.(reader := if m.active == 1 then Returned else Failed(Invalidated))
    case _ => s
  }

  function Apply(s: System, step: Step): (t: System)
    requires |s.memory.slots| == 3
    ensures |t.memory.slots| == 3
  {
    match step
    case BeginWrite(image) =>
      if !s.writer.WriterIdle? || !Admissible(image) then s
      else
        var seqno := |s.begun| + 1;
        var j := SlotOf(seqno);
        s.(begun := s.begun + [image],
           memory := StoreInto(s.memory, j, s.memory.slots[j].(guard := seqno * 2 - 1)),
           writer := StoreWidth)
    case WriterStep(pixel) => ApplyWriter(s, pixel)
    case Invalidate => if s.writer.WriterIdle? then s.(memory := s.memory.(active := 0)) else s
    case SetRole(role) => if s.writer.WriterIdle? then s.(memory := s.memory.(role := role + 1)) else s
    case BeginRead(now, wanted) => s.(reader := LoadActive, local := NO_LOCAL.(now := now, wantedRole := wanted))
    case ReaderStep(index) => ApplyReader(s, index)
  }

  function Zeros(n: nat): (r: seq<byte>)
    ensures |r| == n
  {
    seq(n, i => 0)
  }

  const BLANK_SLOT := Slot(0, 0, 0, 0, 0, 0, 0, Zeros(CAPACITY))
  const START := System(Memory(0, 0, 0, [BLANK_SLOT, BLANK_SLOT, BLANK_SLOT]), WriterIdle, [], ReaderIdle, NO_LOCAL)

  function Run(steps: seq<Step>): (s: System)
    ensures |s.memory.slots| == 3
  {
    if steps == [] then START else Apply(Run(steps[..|steps| - 1]), steps[|steps| - 1])
  }

  // ---- Invariants ----

  /** The slot holds image f completely, as write number n leaves it. */
  ghost predicate Holds(slot: Slot, n: nat, f: Image) {
    && slot.guard == 2 * n
    && slot.width == f.width && slot.height == f.height && slot.stride == f.stride && slot.time == f.time
    && Area(f.stride, f.height) <= |slot.pixels| && Area(f.stride, f.height) <= |f.data|
    && forall i :: 0 <= i < Area(f.stride, f.height) ==> slot.pixels[i] == f.data[i]
  }

  /** The slot holds as much of image f as the writer has stored before reaching `at`. */
  ghost predicate Holding(slot: Slot, at: Writer, n: nat, f: Image) {
    && slot.guard == 2 * n - 1
    && (!at.StoreWidth? ==> slot.width == f.width)
    && (!at.StoreWidth? && !at.StoreHeight? ==> slot.height == f.height)
    && (at.StoreFpsNum? || at.StoreFpsDen? || at.StoreTime? || at.CopyPixels? || at.StoreGuard? ==>
          slot.stride == f.stride)
    && (at.CopyPixels? || at.StoreGuard? ==> slot.time == f.time)
    && Area(f.stride, f.height) <= |slot.pixels| && Area(f.stride, f.height) <= |f.data|
    && (at.CopyPixels? ==>
          forall i :: 0 <= i < Area(f.stride, f.height) && i in at.done ==> slot.pixels[i] == f.data[i])
    && (at.StoreGuard? ==> forall i :: 0 <= i < Area(f.stride, f.height) ==> slot.pixels[i] == f.data[i])
  }

  predicate BeforeGuard(w: Writer) {
    !w.WriterIdle? && !w.StoreSequence? && !w.StoreActive?
  }

  /** Write k has been completed and its slot not reused since. */
  predicate Intact(s: System, k: nat) {
    1 <= k <= |s.begun| < k + 3 && !(k == |s.begun| && BeforeGuard(s.writer))
  }

  predicate Reused(s: System, k: nat) {
    1 <= k && k + 3 <= |s.begun|
  }

  ghost predicate WriterInv(s: System) {
    && LegalMemory(s.memory)
    && (forall i :: 0 <= i < |s.begun| ==> Admissible(s.begun[i]))
    && (s.begun == [] ==> s.writer.WriterIdle?)
    && s.memory.sequence == |s.begun| - (if BeforeGuard(s.writer) || s.writer.StoreSequence? then 1 else 0)
    && (BeforeGuard(s.writer) ==> Holding(s.memory.slots[SlotOf(|s.begun|)], s.writer, |s.begun|, Current(s)))
    && (forall k: nat :: Intact(s, k) ==> Holds(s.memory.slots[SlotOf(k)], k, s.begun[k - 1]))
    && (forall k: nat :: Reused(s, k) ==> s.memory.slots[SlotOf(k)].guard != 2 * k)
  }

  predicate PastWidth(r: Reader) { r.LoadHeight? || PastHeight(r) }
  predicate PastHeight(r: Reader) { r.LoadStride? || PastStride(r) }
  predicate PastStride(r: Reader) { r.LoadTime? || PastTime(r) }
  predicate PastTime(r: Reader) {
    r.ReadPixels? || r.ReloadGuard? || r.ReloadActive? || r.Returned?
    || r == Failed(OutOfBounds) || r == Failed(Stale) || r == Failed(Torn) || r == Failed(Invalidated)
  }

  /** What the reader has loaded so far is image f. */
  ghost predicate LoadedFrom(r: Reader, l: Local, f: Image) {
    && (PastWidth(r) ==> l.width == f.width)
    && (PastHeight(r) ==> l.height == f.height)
    && (PastStride(r) ==> l.stride == f.stride)
    && (PastTime(r) ==> l.time == f.time)
    && (forall i :: i in l.pixels ==> i < |f.data| && l.pixels[i] == f.data[i])
  }

  predicate Confirmed(r: Reader) {
    r.ReloadActive? || r.Returned? || r == Failed(Invalidated)
  }

  predicate HasSequence(r: Reader) {
    r.LoadGuard? || r.LoadWidth? || PastWidth(r) || r == Failed(Overtaken)
  }

  predicate BeforePixels(r: Reader) {
    || r.LoadActive? || r.LoadRole? || r.LoadSequence? || r.LoadGuard?
    || r.LoadWidth? || r.LoadHeight? || r.LoadStride? || r.LoadTime?
  }

  ghost predicate ReaderInv(s: System) {
    && (HasSequence(s.reader) ==> 1 <= s.local.sequence <= s.memory.sequence && s.local.sequence <= |s.begun|)
    // Until the writer begins the third write after this one, everything loaded is this one's.
    && (HasSequence(s.reader) && (s.local.sequence + 3 > |s.begun| || Confirmed(s.reader)) ==>
          LoadedFrom(s.reader, s.local, s.begun[s.local.sequence - 1]))
    && (BeforePixels(s.reader) ==> s.local.pixels == map[])
    && (s.reader.ReadPixels? || s.reader.ReloadGuard? || Confirmed(s.reader) ==>
          Plausible(s.local) && Fresh(s.local.time, s.local.now))
    && (s.reader.ReloadGuard? || Confirmed(s.reader) ==>
          Covers(s.local.pixels.Keys, Area(s.local.stride, s.local.height)))
    && (s.reader == Failed(OutOfBounds) ==> !Plausible(s.local))
    && (s.reader == Failed(Stale) ==> Plausible(s.local) && !Fresh(s.local.time, s.local.now))
    && (s.reader == Failed(Overtaken) || s.reader == Failed(Torn) ==> s.local.sequence + 3 <= |s.begun|)
  }

  ghost predicate Inv(s: System) {
    WriterInv(s) && ReaderInv(s)
  }

  /** Three consecutive writes use three different slots; the next one reuses the first. */
  lemma SlotsRotate(a: nat, b: nat)
    requires 1 <= a < b
    ensures b < a + 3 ==> SlotOf(a) != SlotOf(b)
    ensures SlotOf(a + 3) == SlotOf(a)
  {
  }

  lemma PositiveFactor(d: int, b: int)
    requires d * b > 0 && b > 0
    ensures d > 0
  {
  }

  lemma QuotientBound(a: nat, b: nat, c: nat)
    requires b > 0 && a * b <= c
    ensures a <= c / b
  {
    var d := c / b + 1 - a;
    assert (c / b) * b + c % b == c;
    assert d * b == (c / b) * b + b - a * b;
    PositiveFactor(d, b);
  }

  lemma AdmissibleIsPlausible(f: Image, l: Local)
    requires Admissible(f)
    requires l.width == f.width && l.height == f.height && l.stride == f.stride
    ensures Plausible(l)
  {
    QuotientBound(f.stride, f.height, CAPACITY);
  }

  /** A read whose sequence has not been overtaken looks at the slot that still holds it. */
  lemma ReaderSlot(s: System)
    requires Inv(s) && HasSequence(s.reader)
    ensures var slot := s.memory.slots[SlotOf(s.local.sequence)];
            && (s.local.sequence + 3 > |s.begun| ==>
                  && Holds(slot, s.local.sequence, s.begun[s.local.sequence - 1])
                  && Admissible(s.begun[s.local.sequence - 1]))
            && (s.local.sequence + 3 <= |s.begun| ==> slot.guard != 2 * s.local.sequence)
  {
    hide Area;
    if s.local.sequence + 3 > |s.begun| {
      assert Intact(s, s.local.sequence);
    } else {
      assert Reused(s, s.local.sequence);
    }
  }

  lemma BeginWriteKeepsWriterInv(s: System, image: Image)
    requires WriterInv(s) && s.writer.WriterIdle? && Admissible(image)
    ensures WriterInv(Apply(s, BeginWrite(image)))
  {
    hide Area;
    var t := Apply(s, BeginWrite(image));
    var n := |t.begun|;
    forall k: nat | Intact(t, k)
      ensures Holds(t.memory.slots[SlotOf(k)], k, t.begun[k - 1])
    {
      assert Intact(s, k);
      SlotsRotate(k, n);
    }
    forall k: nat | Reused(t, k)
      ensures t.memory.slots[SlotOf(k)].guard != 2 * k
    {
      if Reused(s, k) {
      } else {
        assert k + 3 == n;
        SlotsRotate(k, n);
      }
    }
  }

  /** A store of the write in progress touches only its own slot, whose even guards it has already replaced. */
  lemma StoreKeepsOthers(s: System, t: System, slot: Slot)
    requires WriterInv(s) && BeforeGuard(s.writer) && t.begun == s.begun
    requires t.memory == StoreInto(s.memory, SlotOf(|s.begun|), slot)
    requires slot.guard == s.memory.slots[SlotOf(|s.begun|)].guard || slot.guard == 2 * |s.begun|
    ensures forall k: nat :: Intact(t, k) && k < |t.begun| ==> Holds(t.memory.slots[SlotOf(k)], k, t.begun[k - 1])
    ensures forall k: nat :: Reused(t, k) ==> t.memory.slots[SlotOf(k)].guard != 2 * k
  {
    hide Area;
    var n := |s.begun|;
    forall k: nat | Intact(t, k) && k < n
      ensures Holds(t.memory.slots[SlotOf(k)], k, t.begun[k - 1])
    {
      assert Intact(s, k);
      SlotsRotate(k, n);
    }
    forall k: nat | Reused(t, k)
      ensures t.memory.slots[SlotOf(k)].guard != 2 * k
    {
      assert Reused(s, k);
    }
  }

  lemma WriterStepKeepsWriterInv(s: System, pixel: nat)
    requires WriterInv(s)
    ensures WriterInv(ApplyWriter(s, pixel))
  {
    hide Area;
    var t := ApplyWriter(s, pixel);
    if BeforeGuard(s.writer) {
      StoreKeepsOthers(s, t, t.memory.slots[SlotOf(|s.begun|)]);
    } else {
      assert forall k: nat :: Intact(t, k) ==> Intact(s, k);
      assert forall k: nat :: Reused(t, k) ==> Reused(s, k);
    }
  }

  /** Steps before the bounds check: they load from the slot, or fail because it was reused. */
  lemma HeaderLoadKeepsReaderInv(s: System, index: nat)
    requires Inv(s) && BeforePixels(s.reader) && !s.reader.LoadTime?
    ensures ReaderInv(ApplyReader(s, index))
  {
    hide Area;
    if HasSequence(s.reader) {
      ReaderSlot(s);
    }
  }

  lemma TimeLoadKeepsReaderInv(s: System, index: nat)
    requires Inv(s) && s.reader.LoadTime?
    ensures ReaderInv(ApplyReader(s, index))
  {
    hide Area;
    ReaderSlot(s);
  }

  lemma PixelLoadKeepsReaderInv(s: System, index: nat)
    requires Inv(s) && s.reader.ReadPixels?
    ensures ReaderInv(ApplyReader(s, index))
  {
    hide Area;
    ReaderSlot(s);
  }

  lemma ConfirmKeepsReaderInv(s: System, index: nat)
    requires Inv(s) && (s.reader.ReloadGuard? || s.reader.ReloadActive?)
    ensures ReaderInv(ApplyReader(s, index))
  {
    hide Area;
    ReaderSlot(s);
  }

  lemma ReaderStepKeepsReaderInv(s: System, index: nat)
    requires Inv(s)
    ensures ReaderInv(ApplyReader(s, index))
  {
    if s.reader.LoadTime? {
      TimeLoadKeepsReaderInv(s, index);
    } else if BeforePixels(s.reader) {
      HeaderLoadKeepsReaderInv(s, index);
    } else if s.reader.ReadPixels? {
      PixelLoadKeepsReaderInv(s, index);
    } else if s.reader.ReloadGuard? || s.reader.ReloadActive? {
      ConfirmKeepsReaderInv(s, index);
    }
  }

  lemma StepKeepsInv(s: System, step: Step)
    requires Inv(s)
    ensures Inv(Apply(s, step))
  {
    hide Area;
    assert |s.memory.slots| == 3;
    hide WriterInv, ReaderInv;
    var t := Apply(s, step);
    match step
    case BeginWrite(image) =>
      if t != s {
        BeginWriteKeepsWriterInv(s, image);
        SameReader(s, t);
      }
    case WriterStep(pixel) =>
      WriterStepKeepsWriterInv(s, pixel);
      WriterStepKeepsReader(s, pixel);
    case ReaderStep(index) =>
      ReaderStepKeepsReaderInv(s, index);
      SameWriter(s, t);
    case BeginRead(now, wanted) =>
      SameWriter(s, t);
      assert ReaderInv(t) by {
        BeginReadInv(s, now, wanted);
      }
    case Invalidate =>
      SameWriter(s, t);
      SameReader(s, t);
    case SetRole(_) =>
      SameWriter(s, t);
      SameReader(s, t);
  }

  lemma BeginReadInv(s: System, now: nat, wanted: nat)
    requires |s.memory.slots| == 3
    ensures ReaderInv(Apply(s, BeginRead(now, wanted)))
  {
  }

  /** The reader's invariant does not depend on the slots: later writes can only weaken what it must know. */
  lemma SameReader(s: System, t: System)
    requires ReaderInv(s)
    requires t.reader == s.reader && t.local == s.local
    requires s.begun <= t.begun && s.memory.sequence <= t.memory.sequence
    ensures ReaderInv(t)
  {
  }

  lemma WriterStepKeepsReader(s: System, pixel: nat)
    requires Inv(s)
    ensures ReaderInv(ApplyWriter(s, pixel))
  {
    hide ReaderInv;
    SameReader(s, ApplyWriter(s, pixel));
  }

  lemma SameWriter(s: System, t: System)
    requires WriterInv(s)
    requires t.begun == s.begun && t.writer == s.writer && t.memory.slots == s.memory.slots
    requires t.memory.sequence == s.memory.sequence
    ensures WriterInv(t)
  {
    assert forall k: nat :: Intact(t, k) ==> Intact(s, k);
    assert forall k: nat :: Reused(t, k) ==> Reused(s, k);
  }

  lemma {:induction false} InvAlways(steps: seq<Step>)
    ensures Inv(Run(steps))
  {
    if steps != [] {
      InvAlways(steps[..|steps| - 1]);
      StepKeepsInv(Run(steps[..|steps| - 1]), steps[|steps| - 1]);
    }
  }

  // ---- The theorems ----

  /**
   No torn frame: in every interleaving, a read that succeeds with sequence n returns exactly the size, stride,
   clock value and pixels of write number n, however many writes began while it was copying.
   */
  lemma NoTornFrame(steps: seq<Step>)
    requires Run(steps).reader.Returned?
    ensures var s := Run(steps);
            var l := s.local;
            && 1 <= l.sequence <= |s.begun|
            && var f := s.begun[l.sequence - 1];
               && l.width == f.width && l.height == f.height && l.stride == f.stride && l.time == f.time
               && l.time <= l.now < l.time + STALE_NS
               && Area(f.stride, f.height) <= |f.data|
               && (forall i :: 0 <= i < Area(f.stride, f.height) ==> i in l.pixels && l.pixels[i] == f.data[i])
  {
    hide Area, Run;
    InvAlways(steps);
  }

  /**
   Only being lapped makes a read fail: in every interleaving, a read that loaded sequence n and found the ring
   active to the end can fail on a fresh frame only once write n + 3 has begun.
   */
  lemma OnlyLappingFails(steps: seq<Step>)
    requires Run(steps).reader.Failed?
    requires Run(steps).reader.failure in {Overtaken, OutOfBounds, Stale, Torn}
    ensures var s := Run(steps);
            var l := s.local;
            && 1 <= l.sequence <= |s.begun|
            && (Fresh(s.begun[l.sequence - 1].time, l.now) ==> l.sequence + 3 <= |s.begun|)
            && (s.reader.failure != Stale ==> l.sequence + 3 <= |s.begun|)
  {
    hide Area, Run;
    InvAlways(steps);
    var s := Run(steps);
    var l := s.local;
    if s.reader == Failed(OutOfBounds) && l.sequence + 3 > |s.begun| {
      ReaderSlot(s);
      AdmissibleIsPlausible(s.begun[l.sequence - 1], l);
    }
  }

  // ---- The writer as one call, and why the steps above are that call ----

  function Stored(before: Slot, n: nat, f: Image): Slot
    requires Admissible(f) && Area(f.stride, f.height) <= |before.pixels|
  {
    var size := Area(f.stride, f.height);
    Slot(2 * n, f.width, f.height, f.stride, f.fpsNum, f.fpsDen, f.time, f.data[..size] + before.pixels[size..])
  }

  function Written(m: Memory, n: nat, f: Image): Memory
    requires LegalMemory(m) && Admissible(f) && n >= 1
  {
    StoreInto(m, SlotOf(n), Stored(m.slots[SlotOf(n)], n, f)).(sequence := n, active := 1)
  }

  class Ring {
    var memory: Memory
    var sequence: nat

    constructor ()
      ensures LegalMemory(memory) && memory == START.memory && sequence == 0
    {
      memory, sequence := START.memory, 0;
    }

    /** `Ring::write`: None is its bounds error, which leaves everything untouched. */
    method Write(image: Image) returns (r: Option<nat>)
      requires LegalMemory(memory)
      modifies this
      ensures LegalMemory(memory)
      ensures r.Some? <==> Admissible(image)
      ensures r.None? ==> memory == old(memory) && sequence == old(sequence)
      ensures r.Some? ==> sequence == old(sequence) + 1 == r.value && memory == Written(old(memory), sequence, image)
    {
      if image.width == 0 || image.height == 0 || image.width > 1920 || image.height > 1920
         || image.stride < image.width * 4 || Area(image.stride, image.height) > CAPACITY
         || |image.data| < Area(image.stride, image.height) {
        return None;
      }
      sequence := sequence + 1;
      var j := SlotOf(sequence);
      var slot := memory.slots[j].(guard := sequence * 2 - 1);
      slot := slot.(width := image.width, height := image.height, stride := image.stride);
      slot := slot.(fpsNum := image.fpsNum, fpsDen := image.fpsDen, time := image.time);
      var size := Area(image.stride, image.height);
      slot := slot.(pixels := image.data[..size] + slot.pixels[size..]);
      memory := StoreInto(memory, j, slot.(guard := sequence * 2));
      memory := memory.(sequence := sequence);
      memory := memory.(active := 1);
      r := Some(sequence);
    }
  }

  function ApplyAll(s: System, steps: seq<Step>): System
    requires |s.memory.slots| == 3
    decreases |steps|
  {
    if steps == [] then s else ApplyAll(Apply(s, steps[0]), steps[1..])
  }

  /** The pixel copy in ascending order, as memcpy may perform it. */
  function CopySteps(from: nat, size: nat): seq<Step>
    requires from <= size
    decreases size - from
  {
    if from == size then [] else [WriterStep(from)] + CopySteps(from + 1, size)
  }

  lemma {:induction false} ApplyAllConcat(s: System, a: seq<Step>, b: seq<Step>)
    requires |s.memory.slots| == 3
    ensures |ApplyAll(s, a).memory.slots| == 3
    ensures ApplyAll(s, a + b) == ApplyAll(ApplyAll(s, a), b)
    decreases |a|
  {
    if a == [] {
      assert a + b == b;
    } else {
      assert (a + b)[1..] == a[1..] + b;
      ApplyAllConcat(Apply(s, a[0]), a[1..], b);
    }
  }

  /** A writer that has copied the pixels below k. */
  ghost predicate Copying(s: System, m: Memory, f: Image, k: nat)
    requires LegalMemory(m) && Admissible(f)
  {
    && s.begun != [] && Current(s) == f && s.writer.CopyPixels?
    && (forall i: nat :: i in s.writer.done <==> i < k)
    && k <= Area(f.stride, f.height)
    && var n := |s.begun|;
       s.memory == StoreInto(m, SlotOf(n),
         Slot(2 * n - 1, f.width, f.height, f.stride, f.fpsNum, f.fpsDen, f.time,
              f.data[..k] + m.slots[SlotOf(n)].pixels[k..]))
  }

  lemma CopyOne(s: System, m: Memory, f: Image, k: nat)
    requires LegalMemory(m) && Admissible(f) && Copying(s, m, f, k) && k < Area(f.stride, f.height)
    ensures Copying(Apply(s, WriterStep(k)), m, f, k + 1)
    ensures Apply(s, WriterStep(k)).begun == s.begun && Apply(s, WriterStep(k)).reader == s.reader
  {
    hide Area;
    var before := m.slots[SlotOf(|s.begun|)].pixels;
    assert !Covers(s.writer.done, Area(f.stride, f.height)) by {
      assert k !in s.writer.done;
    }
    assert (f.data[..k] + before[k..])[k := f.data[k]] == f.data[..k + 1] + before[k + 1..];
  }

  lemma {:induction false} CopyRest(s: System, m: Memory, f: Image, k: nat)
    requires LegalMemory(m) && Admissible(f) && Copying(s, m, f, k)
    ensures var t := ApplyAll(s, CopySteps(k, Area(f.stride, f.height)));
            Copying(t, m, f, Area(f.stride, f.height)) && t.begun == s.begun
    decreases Area(f.stride, f.height) - k
  {
    hide Area;
    var size := Area(f.stride, f.height);
    if k < size {
      CopyOne(s, m, f, k);
      CopyRest(Apply(s, WriterStep(k)), m, f, k + 1);
      assert CopySteps(k, size)[1..] == CopySteps(k + 1, size);
    }
  }

  /** The writer's next n stores. */
  function Stores(n: nat): seq<Step> {
    if n == 0 then [] else [WriterStep(0)] + Stores(n - 1)
  }

  lemma StoreOne(s: System, n: nat)
    requires |s.memory.slots| == 3 && n > 0
    ensures ApplyAll(s, Stores(n)) == ApplyAll(Apply(s, WriterStep(0)), Stores(n - 1))
  {
    assert Stores(n)[1..] == Stores(n - 1);
  }

  lemma NoStores(s: System)
    requires |s.memory.slots| == 3
    ensures ApplyAll(s, Stores(0)) == s
  {
  }

  function WriteSteps(f: Image): seq<Step> {
    [BeginWrite(f)] + Stores(6) + CopySteps(0, Area(f.stride, f.height)) + Stores(4)
  }

  /** The six header stores leave the writer at the start of its pixel copy. */
  lemma HeaderStores(s: System, m: Memory, f: Image)
    requires LegalMemory(m) && Admissible(f)
    requires s.begun != [] && Current(s) == f && s.writer.StoreWidth?
    requires var j := SlotOf(|s.begun|); s.memory == StoreInto(m, j, m.slots[j].(guard := |s.begun| * 2 - 1))
    ensures var t := ApplyAll(s, Stores(6));
            Copying(t, m, f, 0) && t.begun == s.begun
  {
    hide Area, StoreInto, Apply, ApplyAll, Stores, Copying;
    var slot1 := m.slots[SlotOf(|s.begun|)].(guard := |s.begun| * 2 - 1);
    var slot2 := slot1.(width := f.width);
    var slot3 := slot2.(height := f.height);
    var slot4 := slot3.(stride := f.stride);
    var slot5 := slot4.(fpsNum := f.fpsNum);
    var slot6 := slot5.(fpsDen := f.fpsDen);
    var slot7 := slot6.(time := f.time);
    StoreOne(s, 6);
    var s2 := HeaderStore(s, m, slot1, slot2);
    StoreOne(s2, 5);
    var s3 := HeaderStore(s2, m, slot2, slot3);
    StoreOne(s3, 4);
    var s4 := HeaderStore(s3, m, slot3, slot4);
    StoreOne(s4, 3);
    var s5 := HeaderStore(s4, m, slot4, slot5);
    StoreOne(s5, 2);
    var s6 := HeaderStore(s5, m, slot5, slot6);
    StoreOne(s6, 1);
    var s7 := HeaderStore(s6, m, slot6, slot7);
    NoStores(s7);
    CopyStarts(s7, m, f);
  }

  lemma CopyStarts(s: System, m: Memory, f: Image)
    requires LegalMemory(m) && Admissible(f)
    requires s.begun != [] && Current(s) == f && s.writer == CopyPixels({})
    requires var n := |s.begun|;
             s.memory == StoreInto(m, SlotOf(n),
               Slot(2 * n - 1, f.width, f.height, f.stride, f.fpsNum, f.fpsDen, f.time, m.slots[SlotOf(n)].pixels))
    ensures Copying(s, m, f, 0)
  {
    hide StoreInto, Area;
    var before := m.slots[SlotOf(|s.begun|)].pixels;
    assert f.data[..0] + before[0..] == before;
  }

  /** One header store on top of others to the same slot. */
  lemma HeaderStore(s: System, m: Memory, before: Slot, after: Slot) returns (t: System)
    requires LegalMemory(m) && s.begun != []
    requires s.memory == StoreInto(m, SlotOf(|s.begun|), before)
    requires s.writer in {StoreWidth, StoreHeight, StoreStride, StoreFpsNum, StoreFpsDen, StoreTime}
    requires var f := Current(s);
             after == match s.writer
                      case StoreWidth => before.(width := f.width)
                      case StoreHeight => before.(height := f.height)
                      case StoreStride => before.(stride := f.stride)
                      case StoreFpsNum => before.(fpsNum := f.fpsNum)
                      case StoreFpsDen => before.(fpsDen := f.fpsDen)
                      case _ => before.(time := f.time)
    ensures |s.memory.slots| == 3 && t == Apply(s, WriterStep(0))
    ensures t.memory == StoreInto(m, SlotOf(|s.begun|), after) && t.memory.slots[SlotOf(|s.begun|)] == after
    ensures t.begun == s.begun
    ensures t.writer == match s.writer
                        case StoreWidth => StoreHeight
                        case StoreHeight => StoreStride
                        case StoreStride => StoreFpsNum
                        case StoreFpsNum => StoreFpsDen
                        case StoreFpsDen => StoreTime
                        case _ => CopyPixels({})
  {
    hide Area;
    t := Apply(s, WriterStep(0));
    assert m.slots[SlotOf(|s.begun|) := before][SlotOf(|s.begun|) := after] == m.slots[SlotOf(|s.begun|) := after];
  }

  lemma WriteOpens(s: System, f: Image)
    requires s.writer.WriterIdle? && LegalMemory(s.memory) && Admissible(f)
    ensures var t := ApplyAll(Apply(s, BeginWrite(f)), Stores(6));
            Copying(t, s.memory, f, 0) && t.begun == s.begun + [f]
  {
    hide Area;
    HeaderStores(Apply(s, BeginWrite(f)), s.memory, f);
  }

  lemma WriteCloses(s: System, m: Memory, f: Image)
    requires LegalMemory(m) && Admissible(f) && Copying(s, m, f, Area(f.stride, f.height))
    ensures var t := ApplyAll(s, Stores(4));
            t.memory == Written(m, |s.begun|, f) && t.writer.WriterIdle? && t.begun == s.begun
  {
    hide Area, ApplyAll, Stores;
    assert Covers(s.writer.done, Area(f.stride, f.height));
    StoreOne(s, 4);
    var s1 := Apply(s, WriterStep(0));
    StoreOne(s1, 3);
    var s2 := Apply(s1, WriterStep(0));
    assert s2.memory == StoreInto(m, SlotOf(|s.begun|), Stored(m.slots[SlotOf(|s.begun|)], |s.begun|, f)) by {
      StoreTwice(m.slots, SlotOf(|s.begun|), s.memory.slots[SlotOf(|s.begun|)], s2.memory.slots[SlotOf(|s.begun|)]);
    }
    StoreOne(s2, 2);
    var s3 := Apply(s2, WriterStep(0));
    StoreOne(s3, 1);
    NoStores(Apply(s3, WriterStep(0)));
  }

  lemma StoreTwice(slots: seq<Slot>, j: nat, a: Slot, b: Slot)
    requires j < |slots|
    ensures slots[j := a][j := b] == slots[j := b]
  {
  }

  /** Run without interference, the writer's atomic steps have exactly the effect of one `Ring.Write`. */
  lemma StepsAreWrite(s: System, f: Image)
    requires s.writer.WriterIdle? && LegalMemory(s.memory) && Admissible(f)
    ensures var t := ApplyAll(s, WriteSteps(f));
            t.memory == Written(s.memory, |s.begun| + 1, f) && t.writer.WriterIdle? && t.begun == s.begun + [f]
  {
    hide Area;
    var size := Area(f.stride, f.height);
    var started := Apply(s, BeginWrite(f));
    WriteOpens(s, f);
    var copying := ApplyAll(started, Stores(6));
    CopyRest(copying, s.memory, f, 0);
    WriteCloses(ApplyAll(copying, CopySteps(0, size)), s.memory, f);
    ApplyAllConcat(s, [BeginWrite(f)] + Stores(6) + CopySteps(0, size), Stores(4));
    ApplyAllConcat(s, [BeginWrite(f)] + Stores(6), CopySteps(0, size));
    ApplyAllConcat(s, [BeginWrite(f)], Stores(6));
    assert [BeginWrite(f)][1..] == [];
    assert ApplyAll(s, [BeginWrite(f)]) == started;
  }
}
