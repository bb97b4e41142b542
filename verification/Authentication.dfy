/**
 The accessory's authentication sequence over control messages: certificate, challenge, signature, result. Times are
 nanoseconds; the certificate and the signature come from the caller, as the coprocessor delivers them.
 */
module Authentication {
  import opened Bytes
  import opened Csm

  const REQUEST_CERTIFICATE: u16 := 0xaa00
  const CERTIFICATE: u16 := 0xaa01
  const REQUEST_SIGNATURE: u16 := 0xaa02
  const SIGNATURE: u16 := 0xaa03
  const AUTH_FAILED: u16 := 0xaa04
  const AUTH_SUCCEEDED: u16 := 0xaa05
  const PATIENCE: nat := 15_000_000_000
  const MAX_CERTIFICATE: nat := 8192
  const MAX_SIGNATURE: nat := 512

  datatype Stage =
    | AwaitCertificateRequest | AwaitCertificate
    | AwaitChallenge | AwaitSignature | AwaitResult
    | Authenticated | Closed

  datatype Action = ReadCertificate | Sign(challenge: seq<byte>) | Send(message: Message) | Complete

  datatype Session = Session(stage: Stage, deadline: nat)

  datatype Input =
    | Fail
    | Clock(now: nat)
    | Receive(message: Message, now: nat)
    | Certificate(bytes: seq<byte>, now: nat)
    | Signature(bytes: seq<byte>, now: nat)

  /** `check_deadline`: the error, if the session is over or late. */
  function Overdue(s: Session, now: nat): Option<Error> {
    if s.stage == Closed then Some(State)
    else if s.stage != Authenticated && now >= s.deadline then Some(Timeout)
    else None
  }

  /** The challenge a signature request carries, alone and of 20 or 32 bytes. */
  function Challenge(m: Message): Result<seq<byte>> {
    if forall p :: p in m.parameters ==> p.id != 0 then Err(Malformed)
    else if exists i, j :: 0 <= i < j < |m.parameters| && m.parameters[i].id == 0 && m.parameters[j].id == 0 then
      Err(Malformed)
    else if |m.parameters| != 1 || |m.parameters[0].value| !in {20, 32} then Err(Bounds)
    else Ok(m.parameters[0].value)
  }

  /** What a message does in a session that is not overdue. */
  function OnMessage(s: Session, m: Message): (Session, Result<Action>) {
    var closed := s.(stage := Closed);
    if m.id == AUTH_FAILED then (closed, Err(Rejected))
    else if s.stage == AwaitCertificateRequest && m.id == REQUEST_CERTIFICATE && m.parameters == [] then
      (s.(stage := AwaitCertificate), Ok(ReadCertificate))
    else if s.stage == AwaitChallenge && m.id == REQUEST_SIGNATURE then
      match Challenge(m)
      case Err(error) => (closed, Err(error))
      case Ok(challenge) => (s.(stage := AwaitSignature), Ok(Sign(challenge)))
    else if s.stage == AwaitResult && m.id == AUTH_SUCCEEDED && m.parameters == [] then
      (s.(stage := Authenticated), Ok(Complete))
    else (closed, Err(State))
  }

  /** What the coprocessor's answer does: it is sent on when it was asked for and has a legal size. */
  function OnAnswer(
    s: Session, expected: Stage, next: Stage, id: u16, limit: nat, bytes: seq<byte>): (Session, Result<Action>)
  {
    if s.stage != expected then (s.(stage := Closed), Err(State))
    else if bytes == [] || |bytes| > limit then (s.(stage := Closed), Err(Bounds))
    else (s.(stage := next), Ok(Send(Message(id, [Parameter(0, bytes)]))))
  }

  function Late(s: Session, error: Error): (Session, Result<Action>) {
    (s.(stage := Closed), Err(error))
  }

  /** The session after an input, and the action or error it returns; None for inputs that return no action. */
  function Apply(s: Session, input: Input): (Session, Option<Result<Action>>) {
    match input
    case Fail => (s.(stage := Closed), None)
    case Clock(now) => (if Overdue(s, now).Some? then s.(stage := Closed) else s, None)
    case Receive(message, now) =>
      var (s', r) := if Overdue(s, now).Some? then Late(s, Overdue(s, now).value) else OnMessage(s, message);
      (s', Some(r))
    case Certificate(bytes, now) =>
      var (s', r) := if Overdue(s, now).Some? then Late(s, Overdue(s, now).value)
                     else OnAnswer(s, AwaitCertificate, AwaitChallenge, CERTIFICATE, MAX_CERTIFICATE, bytes);
      (s', Some(r))
    case Signature(bytes, now) =>
      var (s', r) := if Overdue(s, now).Some? then Late(s, Overdue(s, now).value)
                     else OnAnswer(s, AwaitSignature, AwaitResult, SIGNATURE, MAX_SIGNATURE, bytes);
      (s', Some(r))
  }

  class Authenticator {
    var stage: Stage
    var deadline: nat

    constructor (now: nat)
      ensures View() == Session(AwaitCertificateRequest, now + PATIENCE)
    {
      stage, deadline := AwaitCertificateRequest, now + PATIENCE;
    }

    ghost function View(): Session
      reads this
    {
      Session(stage, deadline)
    }

    method CheckDeadline(now: nat) returns (r: Result<()>)
      modifies this`stage
      ensures r == if Overdue(old(View()), now).Some? then Err(Overdue(old(View()), now).value) else Ok(())
      ensures View() == Apply(old(View()), Clock(now)).0
    {
      if stage == Closed {
        return Err(State);
      }
      if stage != Authenticated && now >= deadline {
        stage := Closed;
        return Err(Timeout);
      }
      return Ok(());
    }

    method ReceiveMessage(m: Message, now: nat) returns (r: Result<Action>)
      modifies this`stage
      ensures (View(), Some(r)) == Apply(old(View()), Receive(m, now))
    {
      var checked := CheckDeadline(now);
      if checked.Err? {
        return Err(checked.error);
      }
      if m.id == AUTH_FAILED {
        r := Err(Rejected);
      } else if stage == AwaitCertificateRequest && m.id == REQUEST_CERTIFICATE && m.parameters == [] {
        stage := AwaitCertificate;
        r := Ok(ReadCertificate);
      } else if stage == AwaitChallenge && m.id == REQUEST_SIGNATURE {
        var challenge := Challenge(m);
        if challenge.Err? {
          stage := Closed;
          return Err(challenge.error);
        }
        stage := AwaitSignature;
        r := Ok(Sign(challenge.value));
      } else if stage == AwaitResult && m.id == AUTH_SUCCEEDED && m.parameters == [] {
        stage := Authenticated;
        r := Ok(Complete);
      } else {
        r := Err(State);
      }
      if r.Err? {
        stage := Closed;
      }
    }

    method GiveCertificate(bytes: seq<byte>, now: nat) returns (r: Result<Action>)
      modifies this`stage
      ensures (View(), Some(r)) == Apply(old(View()), Certificate(bytes, now))
    {
      var checked := CheckDeadline(now);
      if checked.Err? {
        return Err(checked.error);
      }
      if stage != AwaitCertificate {
        stage := Closed;
        return Err(State);
      }
      if bytes == [] || |bytes| > MAX_CERTIFICATE {
        stage := Closed;
        return Err(Bounds);
      }
      stage := AwaitChallenge;
      return Ok(Send(Message(CERTIFICATE, [Parameter(0, bytes)])));
    }

    method GiveSignature(bytes: seq<byte>, now: nat) returns (r: Result<Action>)
      modifies this`stage
      ensures (View(), Some(r)) == Apply(old(View()), Signature(bytes, now))
    {
      var checked := CheckDeadline(now);
      if checked.Err? {
        return Err(checked.error);
      }
      if stage != AwaitSignature {
        stage := Closed;
        return Err(State);
      }
      if bytes == [] || |bytes| > MAX_SIGNATURE {
        stage := Closed;
        return Err(Bounds);
      }
      stage := AwaitResult;
      return Ok(Send(Message(SIGNATURE, [Parameter(0, bytes)])));
    }
  }

  // ---- Every run ----

  /** The session after a run, with the actions it ordered and the inputs that ordered them. */
  function Run(start: nat, inputs: seq<Input>): (Session, seq<Action>, seq<Input>) {
    if inputs == [] then (Session(AwaitCertificateRequest, start + PATIENCE), [], [])
    else
      var n := |inputs| - 1;
      var (s, actions, causes) := Run(start, inputs[..n]);
      match Apply(s, inputs[n])
      case (s', Some(Ok(action))) => (s', actions + [action], causes + [inputs[n]])
      case (s', _) => (s', actions, causes)
  }

  function Actions(stage: Stage): nat
    requires stage != Closed
  {
    match stage
    case AwaitCertificateRequest => 0
    case AwaitCertificate => 1
    case AwaitChallenge => 2
    case AwaitSignature => 3
    case AwaitResult => 4
    case Authenticated => 5
  }

  /** The k-th action of a session and what ordered it, in time. */
  predicate Called(k: nat, action: Action, cause: Input, deadline: nat) {
    match k
    case 0 => action == ReadCertificate && cause.Receive? && cause.message == Message(REQUEST_CERTIFICATE, [])
              && cause.now < deadline
    case 1 => cause.Certificate? && action == Send(Message(CERTIFICATE, [Parameter(0, cause.bytes)]))
              && 0 < |cause.bytes| <= MAX_CERTIFICATE && cause.now < deadline
    case 2 => cause.Receive? && cause.message.id == REQUEST_SIGNATURE && action.Sign?
              && |cause.message.parameters| == 1 && cause.message.parameters[0] == Parameter(0, action.challenge)
              && |action.challenge| in {20, 32} && cause.now < deadline
    case 3 => cause.Signature? && action == Send(Message(SIGNATURE, [Parameter(0, cause.bytes)]))
              && 0 < |cause.bytes| <= MAX_SIGNATURE && cause.now < deadline
    case 4 =>
      && action == Complete
      && cause.Receive? && cause.message == Message(AUTH_SUCCEEDED, []) && cause.now < deadline
    case _ => false
  }

  /**
   In every run a session orders at most these five actions, in this order, each by the input that calls for it and
   before the deadline: so it signs at most once, signs only a challenge that came after the certificate went out, and
   completes only after the signature went out. A session that is not closed has ordered exactly those of its stage.
   */
  lemma {:induction false} OnlyInSequence(start: nat, inputs: seq<Input>)
    ensures var (s, actions, causes) := Run(start, inputs);
            && s.deadline == start + PATIENCE
            && |actions| == |causes| <= 5
            && (s.stage != Closed ==> |actions| == Actions(s.stage))
            && forall k :: 0 <= k < |actions| ==> Called(k, actions[k], causes[k], s.deadline)
  {
    if inputs != [] {
      var n := |inputs| - 1;
      OnlyInSequence(start, inputs[..n]);
      var (s, _, _) := Run(start, inputs[..n]);
      StepInSequence(s, inputs[n]);
    }
  }

  lemma StepInSequence(s: Session, input: Input)
    ensures var (s', r) := Apply(s, input);
            && s'.deadline == s.deadline
            && (r.Some? && r.value.Ok? ==>
                  && s.stage != Closed && s'.stage != Closed && Actions(s'.stage) == Actions(s.stage) + 1
                  && Called(Actions(s.stage), r.value.value, input, s.deadline))
            && (!(r.Some? && r.value.Ok?) ==> s'.stage == s.stage || s'.stage == Closed)
  {
  }

  /** A session that is closed stays closed. */
  lemma {:induction false} ClosedForGood(start: nat, before: seq<Input>, after: seq<Input>)
    requires Run(start, before).0.stage == Closed
    ensures Run(start, before + after).0.stage == Closed && Run(start, before + after).1 == Run(start, before).1
  {
    if after == [] {
      assert before + after == before;
    } else {
      var n := |after| - 1;
      ClosedForGood(start, before, after[..n]);
      assert (before + after)[..|before| + n] == before + after[..n];
    }
  }
}
