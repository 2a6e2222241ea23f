/**
 * The session actor: it executes commands one after the other, declares the
 * session dead at the second transport failure in a row, and disconnects the
 * link exactly once.
 */
module SessionActor {
  import opened Prelude
  import opened PidSupport
  import opened Adapter
  import opened ElmSession
  import opened Addressing

  /** Commands of the session's clients; a read carries how long it took. */
  datatype Request = Read(op: Op, elapsed: nat) | SupportDiscovery | Capability | Shutdown

  datatype Answer =
    | ReadSucceeded
    | ReadFailed
    | SessionUnhealthy
    | Discovery(discovery: seq<Discovered>)
    | Measured(slowest: Option<nat>)
    | Stopped

  /** An executed read: whether it failed at the byte transport, and its time. */
  datatype Attempt = Attempt(transport: bool, elapsed: nat)

  const THRESHOLD := 2

  datatype Actor = Actor(
    session: State,
    open: bool,
    disconnects: nat,
    disconnectDone: bool,
    failures: nat,
    unhealthy: bool,
    slowest: Option<nat>,
    answers: seq<Answer>,
    attempts: seq<Attempt>)

  function Started(session: State): Actor {
    Actor(session, true, 0, false, 0, false, None, [], [])
  }

  function Slower(slowest: Option<nat>, elapsed: nat): Option<nat> {
    var time := if elapsed < 1 then 1 else elapsed;
    if slowest.Some? && slowest.value >= time then slowest else Some(time)
  }

  /** Best-effort disconnect: takes the link, so a second call does nothing. */
  function Disconnected(a: Actor): Actor {
    if a.open then a.(open := false, disconnects := a.disconnects + 1) else a
  }

  function Answered(a: Actor, answer: Answer): Actor { a.(answers := a.answers + [answer]) }

  /** A saturating increment of an eight-bit counter. */
  function CountUp(n: nat): nat { if n < 255 then n + 1 else 255 }

  /** A read on the open link; without a link it fails at once. */
  function Attempted(highest: nat, a: Actor, op: Op): (Actor, bool) {
    if a.open then
      var (s, ok) := Perform(highest, a.session, op);
      (a.(session := s), ok)
    else
      (a, false)
  }

  /** Bookkeeping after an executed read. */
  function AfterRead(a: Actor, ok: bool, elapsed: nat): Actor {
    if ok then
      Answered(a.(failures := 0, slowest := Slower(a.slowest, elapsed),
                  attempts := a.attempts + [Attempt(false, elapsed)]), ReadSucceeded)
    else
      var transport := a.open && a.session.wire.tap;
      var taken := if a.open then a.session.(wire := a.session.wire.(tap := false)) else a.session;
      var failures := if transport then CountUp(a.failures) else 0;
      var a1 := a.(session := taken, failures := failures, attempts := a.attempts + [Attempt(transport, elapsed)]);
      if transport && failures >= THRESHOLD then
        Answered(Disconnected(a1.(unhealthy := true)).(disconnectDone := true), SessionUnhealthy)
      else
        Answered(a1.(slowest := Slower(a.slowest, elapsed)), ReadFailed)
  }

  function ReadStep(highest: nat, a: Actor, op: Op, elapsed: nat): Actor {
    if a.unhealthy then Answered(a, SessionUnhealthy)
    else
      var (a1, ok) := Attempted(highest, a, op);
      AfterRead(a1, ok, elapsed)
  }

  function Finished(a: Actor): Actor {
    if a.disconnectDone then a else Disconnected(a)
  }

  /** All commands up to and including a shutdown; the command channel may also
      simply close. */
  function Run(highest: nat, a: Actor, requests: seq<Request>): Actor
    decreases |requests|, a
  {
    if requests == [] then Finished(a)
    else match requests[0]
      case Read(op, elapsed) => Run(highest, ReadStep(highest, a, op, elapsed), requests[1..])
      case SupportDiscovery =>
        Run(highest, Answered(a, Discovery(if a.open then a.session.support.discovery else [])), requests[1..])
      case Capability => Run(highest, Answered(a, Measured(a.slowest)), requests[1..])
      case Shutdown => Answered(Finished(a), Stopped)
  }

  // ---------------------------------------------------------------------
  // The actor's own objects
  // ---------------------------------------------------------------------

  class SessionHealth {
    var consecutiveTransportFailures: nat
    var unhealthy: bool

    constructor ()
      ensures consecutiveTransportFailures == 0 && !unhealthy
    {
      consecutiveTransportFailures, unhealthy := 0, false;
    }

    method Success()
      modifies this`consecutiveTransportFailures
      ensures consecutiveTransportFailures == 0
    {
      consecutiveTransportFailures := 0;
    }

    /** True only when this failure crosses the fatal threshold. */
    method Observe(transportFailure: bool) returns (fatal: bool)
      modifies this
      ensures consecutiveTransportFailures ==
              if old(unhealthy) then old(consecutiveTransportFailures)
              else if transportFailure then CountUp(old(consecutiveTransportFailures)) else 0
      ensures fatal == (!old(unhealthy) && transportFailure && consecutiveTransportFailures >= THRESHOLD)
      ensures unhealthy == (old(unhealthy) || fatal)
    {
      if unhealthy {
        return false;
      }
      if !transportFailure {
        consecutiveTransportFailures := 0;
        return false;
      }
      consecutiveTransportFailures := CountUp(consecutiveTransportFailures);
      if consecutiveTransportFailures < THRESHOLD {
        return false;
      }
      unhealthy := true;
      fatal := true;
    }
  }

  class RequestServiceEstimator {
    var maximum: Option<nat>

    constructor ()
      ensures maximum == None
    {
      maximum := None;
    }

    method Observe(serviceTime: nat)
      modifies this
      ensures maximum == Slower(old(maximum), serviceTime)
    {
      var time := if serviceTime < 1 then 1 else serviceTime;
      maximum := Some(if maximum.Some? && maximum.value >= time then maximum.value else time);
    }
  }

  /** The connected session; the link is taken when it is disconnected. */
  class DiagnosticSession {
    const elm: ElmSession
    var open: bool
    var disconnects: nat

    constructor (elm: ElmSession)
      ensures this.elm == elm && open && disconnects == 0
    {
      this.elm, open, disconnects := elm, true, 0;
    }

    method DisconnectBestEffort()
      modifies this
      ensures !open && disconnects == old(disconnects) + if old(open) then 1 else 0
    {
      if open {
        open := false;
        disconnects := disconnects + 1;
      }
    }

    method Read(op: Op) returns (ok: bool)
      modifies elm, elm.exchange
      ensures (elm.Current(), ok) ==
              if open then Perform(elm.highest, old(elm.Current()), op) else (old(elm.Current()), false)
    {
      if !open {
        return false;
      }
      ok := elm.Execute(op);
    }

    method TakeTransportFailure() returns (failure: bool)
      modifies elm.exchange
      ensures var before := old(elm.Current());
              failure == (open && before.wire.tap) &&
              elm.Current() == if open then before.(wire := before.wire.(tap := false)) else before
    {
      if !open {
        return false;
      }
      failure := elm.exchange.TakeTransportFailure();
    }
  }

  class ActorLoop {
    const session: DiagnosticSession
    const health: SessionHealth
    const service: RequestServiceEstimator
    var disconnectDone: bool
    var answers: seq<Answer>
    ghost var attempts: seq<Attempt>

    constructor (session: DiagnosticSession)
      requires session.open && session.disconnects == 0
      ensures this.session == session && fresh(health) && fresh(service)
      ensures Current() == Started(session.elm.Current())
    {
      this.session := session;
      health := new SessionHealth();
      service := new RequestServiceEstimator();
      disconnectDone, answers, attempts := false, [], [];
    }

    ghost function Current(): Actor
      reads this, session, session.elm, session.elm.exchange, health, service
    {
      Actor(session.elm.Current(), session.open, session.disconnects, disconnectDone,
            health.consecutiveTransportFailures, health.unhealthy, service.maximum, answers, attempts)
    }

    /** The outcome of a read: a session already dead only refuses. */
    method Settle(ok: bool, elapsed: nat)
      modifies this, session, session.elm.exchange, health, service
      ensures Current() == if old(health.unhealthy) then Answered(old(Current()), SessionUnhealthy)
                           else AfterRead(old(Current()), ok, elapsed)
    {
      if health.unhealthy {
        answers := answers + [SessionUnhealthy];
        return;
      }
      if ok {
        service.Observe(elapsed);
        health.Success();
        attempts := attempts + [Attempt(false, elapsed)];
        answers := answers + [ReadSucceeded];
        return;
      }
      var failure := session.TakeTransportFailure();
      attempts := attempts + [Attempt(failure, elapsed)];
      var fatal := health.Observe(failure);
      if fatal {
        session.DisconnectBestEffort();
        disconnectDone := true;
        answers := answers + [SessionUnhealthy];
      } else {
        service.Observe(elapsed);
        answers := answers + [ReadFailed];
      }
    }

    method ProcessRead(op: Op, elapsed: nat)
      modifies this, session, session.elm, session.elm.exchange, health, service
      ensures Current() == ReadStep(session.elm.highest, old(Current()), op, elapsed)
    {
      if health.unhealthy {
        answers := answers + [SessionUnhealthy];
        return;
      }
      var ok := session.Read(op);
      assert (Current(), ok) == Attempted(session.elm.highest, old(Current()), op);
      Settle(ok, elapsed);
    }

    method Loop(requests: seq<Request>)
      modifies this, session, session.elm, session.elm.exchange, health, service
      ensures Current() == Run(session.elm.highest, old(Current()), requests)
    {
      var i := 0;
      assert requests[0..] == requests;
      while i < |requests|
        invariant 0 <= i <= |requests|
        invariant Run(session.elm.highest, Current(), requests[i..]) == Run(session.elm.highest, old(Current()), requests)
      {
        assert requests[i..][1..] == requests[i + 1..] && requests[i..][0] == requests[i];
        match requests[i] {
          case Read(op, elapsed) => ProcessRead(op, elapsed);
          case SupportDiscovery =>
            answers := answers + [Discovery(if session.open then session.elm.supported.discovery else [])];
          case Capability => answers := answers + [Measured(service.maximum)];
          case Shutdown =>
            if !disconnectDone {
              session.DisconnectBestEffort();
            }
            answers := answers + [Stopped];
            return;
        }
        i := i + 1;
      }
      if !disconnectDone {
        session.DisconnectBestEffort();
      }
    }
  }
}
