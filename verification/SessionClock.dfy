/**
 The CarPlay session clock: a host clock steered into the phone's time domain by four-timestamp exchanges, and the
 timing loop that accepts a reply only for its latest request. One tick is 2^-32 seconds, as in NTP. Clock values
 are taken as unbounded integers: the 64-bit casts of the source never wrap here.
 */
module SessionClock {
  import opened Bytes

  const ONE_SECOND: int := 0x1_0000_0000
  const JUMP_LIMIT: int := 0x2000_0000

  lemma Division(a: nat, b: nat)
    requires b > 0
    ensures a / b >= 0 && a / b * b <= a < a / b * b + b
  {
    var q, r := a / b, a % b;
    assert a == q * b + r;
  }

  /** Integer division as Rust does it: towards zero. */
  function Quotient(a: int, b: int): (q: int)
    requires b > 0
    ensures a >= 0 ==> 0 <= q && q * b <= a < q * b + b
    ensures a < 0 ==> q <= 0 && q * b - b < a <= q * b
  {
    Division(Abs(a), b);
    if a >= 0 then a / b else -((-a) / b)
  }

  function Abs(a: int): nat {
    if a >= 0 then a else -a
  }

  /** Round-trip delay and offset of a sample, as section 8 of RFC 5905 defines them. */
  function Delay(t1: int, t2: int, t3: int, t4: int): int {
    (t4 - t1) - (t3 - t2)
  }

  function Offset(t1: int, t2: int, t3: int, t4: int): int {
    Quotient((t2 - t1) + (t3 - t4), 2)
  }

  datatype Clock = Clock(adjustment: int, synchronized: bool)

  predicate Usable(t1: int, t2: int, t3: int, t4: int) {
    t3 >= t2 && 0 <= Delay(t1, t2, t3, t4) < ONE_SECOND
  }

  function Observe(c: Clock, t1: int, t2: int, t3: int, t4: int): Clock {
    if !Usable(t1, t2, t3, t4) then c
    else
      var correction := Offset(t1, t2, t3, t4);
      var jump := !c.synchronized || Abs(correction) > JUMP_LIMIT;
      Clock(c.adjustment + (if jump then correction else Quotient(correction, 8)), true)
  }

  /** `SessionClock`, and the `pending` request of the timing loop around it. */
  class Timing {
    var adjustment: int
    var synchronized: bool
    var pending: Option<int>

    constructor ()
      ensures View() == Clock(0, false) && pending == None
    {
      adjustment, synchronized, pending := 0, false, None;
    }

    ghost function View(): Clock
      reads this
    {
      Clock(adjustment, synchronized)
    }

    method ObserveSample(sent: int, received: int, remoteReceive: int, remoteSend: int) returns (ok: bool)
      modifies this`adjustment, this`synchronized
      ensures ok <==> Usable(sent, remoteReceive, remoteSend, received)
      ensures View() == Observe(old(View()), sent, remoteReceive, remoteSend, received)
    {
      var delay := (received - sent) - (remoteSend - remoteReceive);
      if remoteSend < remoteReceive || delay < 0 || delay >= ONE_SECOND {
        return false;
      }
      var correction := Quotient((remoteReceive - sent) + (remoteSend - received), 2);
      if !synchronized || Abs(correction) > JUMP_LIMIT {
        adjustment := adjustment + correction;
      } else {
        adjustment := adjustment + Quotient(correction, 8);
      }
      synchronized := true;
      return true;
    }

    /** The interval tick: raw is the host's own clock, unadjusted. */
    method SendRequest(raw: int)
      modifies this`pending
      ensures pending == Some(raw + adjustment)
    {
      pending := Some(raw + adjustment);
    }

    /** A reply (packet type 211) echoing a request's timestamp. */
    method ReceiveReply(echoed: int, raw: int, t2: int, t3: int)
      modifies this
      ensures old(pending) != Some(echoed) ==> View() == old(View()) && pending == old(pending)
      ensures old(pending) == Some(echoed) ==>
                pending == None && View() == Observe(old(View()), echoed, t2, t3, raw + old(adjustment))
    {
      if pending != Some(echoed) {
        return;
      }
      pending := None;
      var ok := ObserveSample(echoed, raw + adjustment, t2, t3);
    }
  }

  // ---- Runs of the timing loop ----

  /** sentAt is history: the raw host time of the pending request. */
  datatype Loop = Loop(clock: Clock, pending: Option<int>, sentAt: int)

  datatype Step =
    | Tick(raw: int)
    | Reply(echoed: int, t2: int, t3: int, raw: int)

  const START := Loop(Clock(0, false), None, 0)

  function Apply(s: Loop, step: Step): Loop {
    match step
    case Tick(raw) => s.(pending := Some(raw + s.clock.adjustment), sentAt := raw)
    case Reply(echoed, t2, t3, raw) =>
      if s.pending != Some(echoed) then s
      else s.(pending := None, clock := Observe(s.clock, echoed, t2, t3, raw + s.clock.adjustment))
  }

  function Run(steps: seq<Step>): Loop {
    if steps == [] then START else Apply(Run(steps[..|steps| - 1]), steps[|steps| - 1])
  }

  /**
   The phone really answered the pending request: it received it after it was sent, its clock runs theta ahead of
   the host's at host rate, and the reply arrived after it was sent.
   */
  predicate Genuine(s: Loop, step: Step, theta: int) {
    step.Reply? && s.pending == Some(step.echoed) ==>
      s.sentAt + theta <= step.t2 <= step.t3 <= step.raw + theta
  }

  /** The delay of a reply that the loop accepts as a sample is at most `delay`. */
  predicate Prompt(s: Loop, step: Step, delay: int) {
    (step.Reply? && s.pending == Some(step.echoed)
     && Usable(step.echoed, step.t2, step.t3, step.raw + s.clock.adjustment))
    ==> Delay(step.echoed, step.t2, step.t3, step.raw + s.clock.adjustment) <= delay
  }

  ghost predicate FairRun(steps: seq<Step>, theta: int, delay: int) {
    forall k :: 0 <= k < |steps| ==>
      Genuine(Run(steps[..k]), steps[k], theta) && Prompt(Run(steps[..k]), steps[k], delay)
  }

  /** How far the steered clock is from the phone's. */
  function Error(s: Loop, theta: int): nat {
    Abs(theta - s.clock.adjustment)
  }

  ghost predicate Inv(s: Loop, theta: int, delay: int) {
    && (s.pending.Some? ==> s.pending.value == s.sentAt + s.clock.adjustment)
    && (s.clock.synchronized ==> 2 * Error(s, theta) <= delay + 18)
  }

  /** The measured offset is the true one plus half the path asymmetry, which the delay bounds. */
  lemma OffsetError(c: Clock, sentAt: int, t2: int, t3: int, raw: int, theta: int, delay: int)
    requires sentAt + theta <= t2 <= t3 <= raw + theta
    requires Delay(sentAt + c.adjustment, t2, t3, raw + c.adjustment) <= delay
    ensures var correction := Offset(sentAt + c.adjustment, t2, t3, raw + c.adjustment);
            2 * Abs(theta - c.adjustment - correction) <= delay + 1
  {
    var out := t2 - (sentAt + theta);
    var back := raw + theta - t3;
    assert out + back <= delay;
    assert (t2 - (sentAt + c.adjustment)) + (t3 - (raw + c.adjustment)) == 2 * (theta - c.adjustment) + out - back;
  }

  /** A one-eighth correction keeps the error inside the bound. */
  lemma SlewKeepsBound(error: int, correction: int, delay: int)
    requires 2 * Abs(error) <= delay + 18
    requires 2 * Abs(error - correction) <= delay + 1
    ensures 2 * Abs(error - Quotient(correction, 8)) <= delay + 18
  {
  }

  lemma StepKeepsInv(s: Loop, step: Step, theta: int, delay: int)
    requires Inv(s, theta, delay) && Genuine(s, step, theta) && Prompt(s, step, delay)
    ensures Inv(Apply(s, step), theta, delay)
  {
    if step.Reply? && s.pending == Some(step.echoed) {
      var t4 := step.raw + s.clock.adjustment;
      if Usable(step.echoed, step.t2, step.t3, t4) {
        OffsetError(s.clock, s.sentAt, step.t2, step.t3, step.raw, theta, delay);
        var correction := Offset(step.echoed, step.t2, step.t3, t4);
        if s.clock.synchronized && Abs(correction) <= JUMP_LIMIT {
          SlewKeepsBound(theta - s.clock.adjustment, correction, delay);
        }
      }
    }
  }

  /**
   The clock's error bound: if the phone's clock runs at host rate and every accepted sample answers the request it
   claims to, with a round-trip delay of at most `delay`, then from the first accepted sample on the clock stays
   within delay / 2 + 9 ticks of the phone's, whatever sequence of jumps and one-eighth corrections it makes.
   */
  lemma {:induction false} ClockErrorBound(steps: seq<Step>, theta: int, delay: int)
    requires FairRun(steps, theta, delay)
    ensures Inv(Run(steps), theta, delay)
    ensures Run(steps).clock.synchronized ==> 2 * Error(Run(steps), theta) <= delay + 18
  {
    if steps != [] {
      var n := |steps| - 1;
      var before := steps[..n];
      assert FairRun(before, theta, delay) by {
        forall k | 0 <= k < |before|
          ensures Genuine(Run(before[..k]), before[k], theta) && Prompt(Run(before[..k]), before[k], delay)
        {
          assert before[..k] == steps[..k];
        }
      }
      ClockErrorBound(before, theta, delay);
      assert steps[..n] == before;
      StepKeepsInv(Run(before), steps[n], theta, delay);
    }
  }

  /** The first sample, and any that finds the clock more than an eighth of a second off, leaves only half the delay. */
  lemma JumpErrorBound(s: Loop, step: Step, theta: int, delay: int)
    requires step.Reply? && s.pending == Some(step.echoed) && step.echoed == s.sentAt + s.clock.adjustment
    requires Genuine(s, step, theta) && Prompt(s, step, delay)
    requires Usable(step.echoed, step.t2, step.t3, step.raw + s.clock.adjustment)
    requires !s.clock.synchronized
             || Abs(Offset(step.echoed, step.t2, step.t3, step.raw + s.clock.adjustment)) > JUMP_LIMIT
    ensures 2 * Error(Apply(s, step), theta) <= delay + 1
  {
    OffsetError(s.clock, s.sentAt, step.t2, step.t3, step.raw, theta, delay);
  }

  // ---- When the echoed timestamp is enough ----

  /** The timestamp that request k carries. */
  function Shown(steps: seq<Step>, k: nat): int
    requires k < |steps| && steps[k].Tick?
  {
    steps[k].raw + Run(steps[..k]).clock.adjustment
  }

  /** The reply is the phone's answer to request k, as far as request and reply can tell. */
  predicate Answers(steps: seq<Step>, k: nat, reply: Step, theta: int) {
    && k < |steps| && steps[k].Tick? && reply.Reply?
    && reply.echoed == Shown(steps, k)
    && steps[k].raw + theta <= reply.t2 <= reply.t3 <= reply.raw + theta
  }

  /** The reply answers some request of the run, as every reply of an honest phone does, however late. */
  ghost predicate Honest(steps: seq<Step>, reply: Step, theta: int) {
    exists k: nat :: Answers(steps, k, reply, theta)
  }

  /** No request that showed the pending timestamp was sent before the pending one. */
  ghost predicate Unrepeated(steps: seq<Step>) {
    forall k: nat :: k < |steps| && steps[k].Tick? && Run(steps).pending == Some(Shown(steps, k)) ==>
      steps[k].raw >= Run(steps).sentAt
  }

  /** The pending timestamp is that of the latest request. */
  lemma {:induction false} PendingIsShown(steps: seq<Step>) returns (k: nat)
    requires Run(steps).pending.Some?
    ensures k < |steps| && steps[k].Tick?
    ensures Run(steps).pending == Some(Shown(steps, k)) && Run(steps).sentAt == steps[k].raw
  {
    var n := |steps| - 1;
    if steps[n].Tick? {
      k := n;
    } else {
      k := PendingIsShown(steps[..n]);
      assert steps[..n][..k] == steps[..k];
    }
  }

  /**
   The exact condition, which the host can check when it sends: every honest reply that the loop would accept answers
   the pending request if and only if no earlier request showed the same timestamp.
   */
  lemma EchoIdentifiesRequest(steps: seq<Step>, theta: int)
    requires Run(steps).pending.Some?
    ensures (forall reply: Step :: Honest(steps, reply, theta) ==> Genuine(Run(steps), reply, theta)) <==>
              Unrepeated(steps)
  {
    var s := Run(steps);
    if Unrepeated(steps) {
      forall reply: Step | Honest(steps, reply, theta)
        ensures Genuine(s, reply, theta)
      {
        var k: nat :| Answers(steps, k, reply, theta);
      }
    } else {
      var k: nat :| k < |steps| && steps[k].Tick? && s.pending == Some(Shown(steps, k)) && steps[k].raw < s.sentAt;
      var late := Reply(s.pending.value, steps[k].raw + theta, steps[k].raw + theta, s.sentAt);
      assert Answers(steps, k, late, theta);
      assert Honest(steps, late, theta) && !Genuine(s, late, theta);
    }
  }

  /** The timestamps that the requests of a run show are pairwise distinct. */
  ghost predicate DistinctTimestamps(steps: seq<Step>) {
    forall j: nat, k: nat :: j < k < |steps| && steps[j].Tick? && steps[k].Tick? ==> Shown(steps, j) != Shown(steps, k)
  }

  /** Every reply of the run answers a request before it. */
  ghost predicate HonestRun(steps: seq<Step>, theta: int) {
    forall k :: 0 <= k < |steps| && steps[k].Reply? ==> Honest(steps[..k], steps[k], theta)
  }

  ghost predicate PromptRun(steps: seq<Step>, delay: int) {
    forall k :: 0 <= k < |steps| ==> Prompt(Run(steps[..k]), steps[k], delay)
  }

  lemma DistinctIsUnrepeated(steps: seq<Step>, n: nat)
    requires n <= |steps| && DistinctTimestamps(steps)
    ensures Run(steps[..n]).pending.Some? ==> Unrepeated(steps[..n])
  {
    var front := steps[..n];
    if Run(front).pending.Some? {
      var j := PendingIsShown(front);
      forall k: nat | k < n && front[k].Tick? && Run(front).pending == Some(Shown(front, k))
        ensures front[k].raw >= Run(front).sentAt
      {
        assert front[..j] == steps[..j] && front[..k] == steps[..k];
        assert Shown(steps, j) == Shown(steps, k);
      }
    }
  }

  /**
   If the requests of a run show pairwise distinct timestamps and every reply answers one of them, however late, then
   every accepted reply answers the pending request, and the error bound holds.
   */
  lemma DistinctTimestampsSuffice(steps: seq<Step>, theta: int, delay: int)
    requires DistinctTimestamps(steps) && HonestRun(steps, theta) && PromptRun(steps, delay)
    ensures FairRun(steps, theta, delay)
    ensures Run(steps).clock.synchronized ==> 2 * Error(Run(steps), theta) <= delay + 18
  {
    forall k | 0 <= k < |steps|
      ensures Genuine(Run(steps[..k]), steps[k], theta) && Prompt(Run(steps[..k]), steps[k], delay)
    {
      if steps[k].Reply? && Run(steps[..k]).pending.Some? {
        DistinctIsUnrepeated(steps, k);
        EchoIdentifiesRequest(steps[..k], theta);
        assert Honest(steps[..k], steps[k], theta);
      }
    }
    ClockErrorBound(steps, theta, delay);
  }

  lemma RunSnoc(steps: seq<Step>, step: Step)
    ensures Run(steps + [step]) == Apply(Run(steps), step)
    ensures Run([]) == START
  {
    assert (steps + [step])[..|steps|] == steps;
  }

  const FIRST := Tick(0)
  const SECOND := Tick(ONE_SECOND)
  const ANSWER := Reply(ONE_SECOND, -ONE_SECOND, -ONE_SECOND, ONE_SECOND)
  const THIRD := Tick(2 * ONE_SECOND)

  /** The phone's late answer to the first request. */
  const LATE := Reply(0, -2 * ONE_SECOND, -2 * ONE_SECOND, 2 * ONE_SECOND)

  /** Requests at 0, 1 and 2 seconds to a phone whose clock is 2 seconds behind, the second of them answered. */
  function Repeating(): seq<Step> {
    [FIRST] + [SECOND] + [ANSWER] + [THIRD]
  }

  /** Both answers measure an offset of minus two seconds and make the clock jump by it. */
  lemma BothJump()
    ensures Observe(Clock(0, false), ONE_SECOND, -ONE_SECOND, -ONE_SECOND, ONE_SECOND) == Clock(-2 * ONE_SECOND, true)
    ensures Observe(Clock(-2 * ONE_SECOND, true), 0, -2 * ONE_SECOND, -2 * ONE_SECOND, 0)
         == Clock(-4 * ONE_SECOND, true)
  {
    HalfOf(-2 * ONE_SECOND);
    hide Quotient;
  }

  lemma HalfOf(n: int)
    ensures Quotient(2 * n, 2) == n
  {
  }

  lemma RepeatingRuns()
    ensures Run([FIRST]) == Loop(Clock(0, false), Some(0), 0)
    ensures Run([FIRST] + [SECOND]) == Loop(Clock(0, false), Some(ONE_SECOND), ONE_SECOND)
    ensures Run([FIRST] + [SECOND] + [ANSWER]) == Loop(Clock(-2 * ONE_SECOND, true), None, ONE_SECOND)
    ensures Run(Repeating()) == Loop(Clock(-2 * ONE_SECOND, true), Some(0), 2 * ONE_SECOND)
    ensures Run(Repeating() + [LATE]).clock == Clock(-4 * ONE_SECOND, true)
  {
    hide Run, Observe;
    BothJump();
    RunSnoc([], FIRST);
    assert [] + [FIRST] == [FIRST];
    RunSnoc([FIRST], SECOND);
    RunSnoc([FIRST] + [SECOND], ANSWER);
    RunSnoc([FIRST] + [SECOND] + [ANSWER], THIRD);
    RunSnoc(Repeating(), LATE);
  }

  /** The run is fair to a phone two seconds behind, and without delay. */
  lemma RepeatingIsFair()
    ensures FairRun(Repeating(), -2 * ONE_SECOND, 0)
  {
    hide Run;
    RepeatingRuns();
    var steps := Repeating();
    assert steps[..2] == [FIRST] + [SECOND];
    forall k | 0 <= k < |steps|
      ensures Genuine(Run(steps[..k]), steps[k], -2 * ONE_SECOND) && Prompt(Run(steps[..k]), steps[k], 0)
    {
      if k == 2 {
        assert steps[k] == ANSWER;
      } else {
        assert steps[k].Tick?;
      }
    }
  }

  lemma LateIsHonest()
    ensures Honest(Repeating(), LATE, -2 * ONE_SECOND)
  {
    RunSnoc([], FIRST);
    hide Run;
    assert Repeating()[0] == FIRST && Repeating()[..0] == [];
    assert Answers(Repeating(), 0, LATE, -2 * ONE_SECOND);
  }

  /**
   The condition is needed, and a run from the start breaks it: the jump after the second request's answer makes the
   third request show the first one's timestamp. The run is fair, without delay, and leaves no error; the phone's late
   answer to the first request is then taken for one to the third and throws the clock off by two seconds.
   */
  lemma EchoAloneIsNotEnough()
    ensures var theta := -2 * ONE_SECOND;
            var steps := Repeating();
            && FairRun(steps, theta, 0) && Error(Run(steps), theta) == 0
            && Honest(steps, LATE, theta) && !Genuine(Run(steps), LATE, theta)
            && Prompt(Run(steps), LATE, 0)
            && Error(Run(steps + [LATE]), theta) == 2 * ONE_SECOND
  {
    hide Run, FairRun, Honest, Repeating, Observe;
    RepeatingIsFair();
    RepeatingRuns();
    LateIsHonest();
  }
}
