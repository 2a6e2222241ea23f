/**
 * What the clients of the session actor are told: one answer for every command up
 * to the shutdown, each determined by the commands before it.
 */
module ActorAnswers {
  import opened Prelude
  import opened PidSupport
  import opened Adapter
  import opened ElmSession
  import opened TransportFailures
  import opened SessionActor
  import opened ActorRuns

  // ---------------------------------------------------------------------
  // The answers, described by the commands alone
  // ---------------------------------------------------------------------

  /** How many commands are answered: all, or those up to the first shutdown. */
  function AnswerCount(requests: seq<Request>): (n: nat)
    ensures n <= |requests|
  {
    if requests == [] then 0 else if requests[0].Shutdown? then 1 else 1 + AnswerCount(requests[1..])
  }

  function Calm(s: State): State { s.(wire := s.wire.(tap := false)) }

  /** The session before command `k`, as long as it is alive. */
  function SessionAt(highest: nat, s: State, requests: seq<Request>, k: nat): State
    requires k <= |requests|
    decreases k, s
  {
    if k == 0 then s
    else
      var before := SessionAt(highest, s, requests, k - 1);
      if requests[k - 1].Read? then Calm(Perform(highest, before, requests[k - 1].op).0) else before
  }

  /** Command `k` is a read with a transport failure in one of its exchanges. */
  predicate FailsAt(highest: nat, s: State, requests: seq<Request>, k: nat)
    requires k < |requests|
  {
    requests[k].Read? &&
    var before := SessionAt(highest, s, requests, k);
    NewFailure(before.wire, Perform(highest, before, requests[k].op).0.wire)
  }

  /** No read between the commands `i` and `j`. */
  predicate NoReadBetween(requests: seq<Request>, i: nat, j: nat)
    requires j <= |requests|
  {
    forall k | i < k < j :: !requests[k].Read?
  }

  /** The last read before command `k` had a transport failure. */
  ghost predicate LastFailed(highest: nat, s: State, requests: seq<Request>, k: nat)
    requires k <= |requests|
  {
    exists i | 0 <= i < k :: NoReadBetween(requests, i, k) && FailsAt(highest, s, requests, i)
  }

  /** Two neighbouring reads before command `k` had transport failures. */
  ghost predicate DeadBefore(highest: nat, s: State, requests: seq<Request>, k: nat)
    requires k <= |requests|
  {
    exists j | 0 <= j < k :: FailsAt(highest, s, requests, j) && LastFailed(highest, s, requests, j)
  }

  /** A read that was carried out and was not the fatal one. */
  ghost predicate Completed(highest: nat, s: State, requests: seq<Request>, k: nat)
    requires k < |requests|
  {
    requests[k].Read? && !DeadBefore(highest, s, requests, k + 1)
  }

  function AtLeastOne(elapsed: nat): nat { if elapsed == 0 then 1 else elapsed }

  /** The slowest of the completed reads before command `k`. */
  ghost predicate IsSlowest(highest: nat, s: State, requests: seq<Request>, k: nat, slowest: Option<nat>)
    requires k <= |requests|
  {
    (forall i | 0 <= i < k && Completed(highest, s, requests, i) ::
       slowest.Some? && AtLeastOne(requests[i].elapsed) <= slowest.value)
    && (slowest.Some? ==>
          exists i | 0 <= i < k :: Completed(highest, s, requests, i) && AtLeastOne(requests[i].elapsed) == slowest.value)
  }

  /** Is this the right answer to command `k`? */
  ghost predicate Right(highest: nat, s: State, requests: seq<Request>, k: nat, answer: Answer)
    requires k < |requests|
  {
    match requests[k]
    case Shutdown => answer == Stopped
    case SupportDiscovery =>
      answer == Discovery(if DeadBefore(highest, s, requests, k) then []
                          else SessionAt(highest, s, requests, k).support.discovery)
    case Capability => answer.Measured? && IsSlowest(highest, s, requests, k, answer.slowest)
    case Read(op, _) =>
      answer == if DeadBefore(highest, s, requests, k + 1) then SessionUnhealthy
                else if Perform(highest, SessionAt(highest, s, requests, k), op).1 then ReadSucceeded
                else ReadFailed
  }

  // ---------------------------------------------------------------------
  // One read
  // ---------------------------------------------------------------------

  /** An executed read is answered by its result; a second failure in a row is fatal. */
  lemma ReadIsAnswered(highest: nat, a: Actor, op: Op, elapsed: nat)
    requires ActorInv(a) && !a.unhealthy
    ensures var (s, ok) := Perform(highest, a.session, op);
            var failed, a' := NewFailure(a.session.wire, s.wire), ReadStep(highest, a, op, elapsed);
            (ok ==> !failed) &&
            a'.answers == a.answers + [if ok then ReadSucceeded
                                       else if failed && a.failures == 1 then SessionUnhealthy
                                       else ReadFailed] &&
            (a'.unhealthy <==> failed && a.failures == 1) &&
            (!a'.unhealthy ==> a'.session == Calm(s) && a'.failures == (if failed then 1 else 0)
                               && a'.slowest == Slower(a.slowest, elapsed)) &&
            (a'.unhealthy ==> a'.slowest == a.slowest)
  {
    OperationHeard(highest, a.session, op);
    TrailingIsOne(a);
  }

  lemma TrailingIsOne(a: Actor)
    requires ActorInv(a) && !a.unhealthy
    ensures a.failures <= 1 && !a.session.wire.tap && a.open
  {
  }

  // ---------------------------------------------------------------------
  // The actor before each command
  // ---------------------------------------------------------------------

  predicate Running(requests: seq<Request>, k: nat) {
    k <= |requests| && forall i | 0 <= i < k :: !requests[i].Shutdown?
  }

  /** The actor before command `k`. */
  function Through(highest: nat, a: Actor, requests: seq<Request>, k: nat): Actor
    requires Running(requests, k)
    decreases k, a
  {
    if k == 0 then a else After(highest, Through(highest, a, requests, k - 1), requests[k - 1])
  }

  ghost predicate Told(highest: nat, s: State, requests: seq<Request>, k: nat, answers: seq<Answer>)
    requires k <= |requests|
  {
    |answers| == k && forall i | 0 <= i < k :: Right(highest, s, requests, i, answers[i])
  }

  ghost predicate Before(highest: nat, s: State, requests: seq<Request>, k: nat, a: Actor)
    requires k <= |requests|
  {
    ActorInv(a) && Told(highest, s, requests, k, a.answers)
    && (a.unhealthy <==> DeadBefore(highest, s, requests, k))
    && (!a.unhealthy ==> a.session == SessionAt(highest, s, requests, k)
                         && (a.failures == 1 <==> LastFailed(highest, s, requests, k)))
    && IsSlowest(highest, s, requests, k, a.slowest)
  }

  lemma DeadLater(highest: nat, s: State, requests: seq<Request>, k: nat)
    requires k < |requests|
    ensures DeadBefore(highest, s, requests, k + 1) <==>
            DeadBefore(highest, s, requests, k)
            || (FailsAt(highest, s, requests, k) && LastFailed(highest, s, requests, k))
  {
  }

  lemma LastLater(highest: nat, s: State, requests: seq<Request>, k: nat)
    requires k < |requests|
    ensures LastFailed(highest, s, requests, k + 1) <==>
            if requests[k].Read? then FailsAt(highest, s, requests, k) else LastFailed(highest, s, requests, k)
  {
    if requests[k].Read? {
      assert NoReadBetween(requests, k, k + 1);
    } else if LastFailed(highest, s, requests, k) {
      var i :| 0 <= i < k && NoReadBetween(requests, i, k) && FailsAt(highest, s, requests, i);
      assert NoReadBetween(requests, i, k + 1);
    } else if LastFailed(highest, s, requests, k + 1) {
      var i :| 0 <= i < k + 1 && NoReadBetween(requests, i, k + 1) && FailsAt(highest, s, requests, i);
      assert NoReadBetween(requests, i, k);
    }
  }

  lemma SlowestLater(highest: nat, s: State, requests: seq<Request>, k: nat, slowest: Option<nat>)
    requires k < |requests| && IsSlowest(highest, s, requests, k, slowest)
    ensures IsSlowest(highest, s, requests, k + 1,
                      if Completed(highest, s, requests, k) then Slower(slowest, requests[k].elapsed) else slowest)
  {
    if Completed(highest, s, requests, k) {
      var slowest' := Slower(slowest, requests[k].elapsed);
      if slowest' != slowest {
        assert AtLeastOne(requests[k].elapsed) == slowest'.value;
      }
    }
  }

  lemma ToldMore(highest: nat, s: State, requests: seq<Request>, k: nat, answers: seq<Answer>, answer: Answer)
    requires k < |requests| && Told(highest, s, requests, k, answers) && Right(highest, s, requests, k, answer)
    ensures Told(highest, s, requests, k + 1, answers + [answer])
  {
  }

  /** A read of a live session. */
  lemma LiveRead(highest: nat, s: State, requests: seq<Request>, k: nat, a: Actor)
    requires k < |requests| && Before(highest, s, requests, k, a) && requests[k].Read? && !a.unhealthy
    ensures Before(highest, s, requests, k + 1, ReadStep(highest, a, requests[k].op, requests[k].elapsed))
  {
    var op, elapsed := requests[k].op, requests[k].elapsed;
    ReadKeepsInv(highest, a, op, elapsed);
    ReadIsAnswered(highest, a, op, elapsed);
    DeadLater(highest, s, requests, k);
    LastLater(highest, s, requests, k);
    SlowestLater(highest, s, requests, k, a.slowest);
    TrailingIsOne(a);
    var a' := ReadStep(highest, a, op, elapsed);
    assert FailsAt(highest, s, requests, k) <==> NewFailure(a.session.wire, Perform(highest, a.session, op).0.wire);
    assert a'.answers[..|a.answers|] == a.answers;
    ToldMore(highest, s, requests, k, a.answers, a'.answers[|a.answers|]);
    assert a'.answers == a.answers + [a'.answers[|a.answers|]];
  }

  /** A read of a dead session. */
  lemma DeadRead(highest: nat, s: State, requests: seq<Request>, k: nat, a: Actor)
    requires k < |requests| && Before(highest, s, requests, k, a) && requests[k].Read? && a.unhealthy
    ensures Before(highest, s, requests, k + 1, ReadStep(highest, a, requests[k].op, requests[k].elapsed))
  {
    ReadKeepsInv(highest, a, requests[k].op, requests[k].elapsed);
    DeadLater(highest, s, requests, k);
    SlowestLater(highest, s, requests, k, a.slowest);
    ToldMore(highest, s, requests, k, a.answers, SessionUnhealthy);
  }

  /** Nothing but an answer: no read in between. */
  lemma OnlyAnswered(highest: nat, s: State, requests: seq<Request>, k: nat, a: Actor, answer: Answer)
    requires k < |requests| && Before(highest, s, requests, k, a) && !requests[k].Read?
    requires Right(highest, s, requests, k, answer)
    ensures Before(highest, s, requests, k + 1, Answered(a, answer))
  {
    DeadLater(highest, s, requests, k);
    LastLater(highest, s, requests, k);
    SlowestLater(highest, s, requests, k, a.slowest);
    ToldMore(highest, s, requests, k, a.answers, answer);
    AnsweredKeepsInv(a, answer);
  }

  lemma AnsweredKeepsInv(a: Actor, answer: Answer)
    requires ActorInv(a)
    ensures ActorInv(Answered(a, answer))
  {
  }

  /** A question. */
  lemma Question(highest: nat, s: State, requests: seq<Request>, k: nat, a: Actor)
    requires k < |requests| && Before(highest, s, requests, k, a)
    requires requests[k].SupportDiscovery? || requests[k].Capability?
    ensures Before(highest, s, requests, k + 1, After(highest, a, requests[k]))
  {
    var answer := if requests[k].Capability? then Measured(a.slowest)
                  else Discovery(if a.open then a.session.support.discovery else []);
    assert a.open <==> !a.unhealthy;
    OnlyAnswered(highest, s, requests, k, a, answer);
  }

  lemma NextIsBefore(highest: nat, s: State, requests: seq<Request>, k: nat, a: Actor)
    requires k < |requests| && !requests[k].Shutdown? && Before(highest, s, requests, k, a)
    ensures Before(highest, s, requests, k + 1, After(highest, a, requests[k]))
  {
    if !requests[k].Read? {
      Question(highest, s, requests, k, a);
    } else if a.unhealthy {
      DeadRead(highest, s, requests, k, a);
    } else {
      LiveRead(highest, s, requests, k, a);
    }
  }

  lemma StartedIsBefore(highest: nat, s: State, requests: seq<Request>)
    requires !s.wire.tap
    ensures Before(highest, s, requests, 0, Started(s))
  {
  }

  /** What holds at the start and is kept by every command holds before each. */
  lemma {:induction false} ThroughKeeps(highest: nat, a: Actor, requests: seq<Request>, k: nat, good: (nat, Actor) -> bool)
    requires Running(requests, k) && good(0, a)
    requires forall j: nat, b | j < k && good(j, b) :: requests[j].Shutdown? || good(j + 1, After(highest, b, requests[j]))
    ensures good(k, Through(highest, a, requests, k))
    decreases k
  {
    if k > 0 {
      ThroughKeeps(highest, a, requests, k - 1, good);
      assert !requests[k - 1].Shutdown?;
    }
  }

  lemma ThroughIsBefore(highest: nat, s: State, requests: seq<Request>, k: nat)
    requires !s.wire.tap && Running(requests, k)
    ensures Before(highest, s, requests, k, Through(highest, Started(s), requests, k))
  {
    var good := (j: nat, b: Actor) => j <= |requests| && Before(highest, s, requests, j, b);
    StartedIsBefore(highest, s, requests);
    forall j: nat, b | j < k && good(j, b)
      ensures requests[j].Shutdown? || good(j + 1, After(highest, b, requests[j]))
    {
      if !requests[j].Shutdown? {
        NextIsBefore(highest, s, requests, j, b);
      }
    }
    ThroughKeeps(highest, Started(s), requests, k, good);
  }

  // ---------------------------------------------------------------------
  // Whole runs
  // ---------------------------------------------------------------------

  lemma RunNext(highest: nat, a: Actor, request: Request, rest: seq<Request>)
    requires !request.Shutdown?
    ensures Run(highest, a, [request] + rest) == Run(highest, After(highest, a, request), rest)
  {
    RunHead(highest, a, [request] + rest);
    assert ([request] + rest)[1..] == rest;
  }

  lemma {:induction false} RunThrough(highest: nat, a: Actor, requests: seq<Request>, k: nat)
    requires Running(requests, k)
    ensures Run(highest, a, requests) == Run(highest, Through(highest, a, requests, k), requests[k..])
    decreases k
  {
    if k == 0 {
      assert requests[0..] == requests;
    } else {
      RunThrough(highest, a, requests, k - 1);
      assert !requests[k - 1].Shutdown? && requests[k - 1..] == [requests[k - 1]] + requests[k..];
      RunNext(highest, Through(highest, a, requests, k - 1), requests[k - 1], requests[k..]);
    }
  }

  /** Where the answers stop. */
  lemma {:induction false} CountStops(requests: seq<Request>) returns (k: nat)
    ensures Running(requests, k) && (k < |requests| ==> requests[k].Shutdown?)
    ensures AnswerCount(requests) == if k < |requests| then k + 1 else k
  {
    if requests == [] || requests[0].Shutdown? {
      k := 0;
    } else {
      k := CountStops(requests[1..]);
      forall i | 0 <= i < k + 1 ensures !requests[i].Shutdown? {
        assert i > 0 ==> requests[i] == requests[1..][i - 1];
      }
      assert k < |requests[1..]| ==> requests[k + 1] == requests[1..][k];
      k := k + 1;
    }
  }

  lemma FinishedAnswers(a: Actor)
    ensures Finished(a).answers == a.answers
  {
  }

  lemma RunStops(highest: nat, a: Actor, rest: seq<Request>)
    requires rest == [] || rest[0].Shutdown?
    ensures Run(highest, a, rest).answers == a.answers + if rest == [] then [] else [Stopped]
  {
    FinishedAnswers(a);
    if rest != [] {
      RunHead(highest, a, rest);
    }
  }

  /** Every run from a session without a pending failure answers every command up to
      the shutdown exactly once, in order. A read is answered ReadSucceeded if and
      only if its operation returned true, SessionUnhealthy exactly from the fatal
      read on, and ReadFailed otherwise; the questions are answered with the support
      data of the session and the slowest completed read. */
  lemma EveryCommandAnswered(highest: nat, session: State, requests: seq<Request>)
    requires !session.wire.tap
    ensures Told(highest, session, requests, AnswerCount(requests), Run(highest, Started(session), requests).answers)
  {
    var k := CountStops(requests);
    ThroughIsBefore(highest, session, requests, k);
    RunThrough(highest, Started(session), requests, k);
    LastAnswer(highest, session, requests, k, Through(highest, Started(session), requests, k));
  }

  lemma LastAnswer(highest: nat, s: State, requests: seq<Request>, k: nat, a: Actor)
    requires Running(requests, k) && (k < |requests| ==> requests[k].Shutdown?)
    requires Told(highest, s, requests, k, a.answers)
    ensures Told(highest, s, requests, if k < |requests| then k + 1 else k, Run(highest, a, requests[k..]).answers)
  {
    RunStops(highest, a, requests[k..]);
    if k < |requests| {
      ToldMore(highest, s, requests, k, a.answers, Stopped);
    } else {
      assert a.answers + [] == a.answers;
    }
  }
}
