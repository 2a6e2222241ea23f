/**
 * Whole runs of the session actor, for every command sequence and every fate
 * of every exchange.
 */
module ActorRuns {
  import opened Prelude
  import opened PidSupport
  import opened Adapter
  import opened ElmSession
  import opened TransportFailures
  import opened Addressing
  import opened Discipline
  import opened ReadCosts
  import opened Targeting
  import opened SessionActor

  // ---------------------------------------------------------------------
  // The invariant of the actor
  // ---------------------------------------------------------------------

  /** The last two executed reads both failed at the transport. */
  predicate TwoInARow(attempts: seq<Attempt>) {
    |attempts| >= 2 && attempts[|attempts| - 2].transport && attempts[|attempts| - 1].transport
  }

  /** No two neighbouring attempts failed at the transport. */
  predicate NoneInARow(attempts: seq<Attempt>) {
    forall i | 0 <= i < |attempts| - 1 :: !(attempts[i].transport && attempts[i + 1].transport)
  }

  function TrailingFailure(attempts: seq<Attempt>): nat {
    if attempts != [] && attempts[|attempts| - 1].transport then 1 else 0
  }

  /** The slowest of some attempts, at least one time unit each. */
  function SlowestOf(attempts: seq<Attempt>): Option<nat> {
    if attempts == [] then None
    else Slower(SlowestOf(attempts[..|attempts| - 1]), attempts[|attempts| - 1].elapsed)
  }

  ghost predicate ActorInv(a: Actor) {
    !a.session.wire.tap
    && (a.unhealthy <==> TwoInARow(a.attempts))
    && (if a.unhealthy then NoneInARow(a.attempts[..|a.attempts| - 1]) else NoneInARow(a.attempts))
    && (!a.unhealthy ==> a.failures == TrailingFailure(a.attempts))
    && (a.open <==> !a.unhealthy)
    && a.disconnectDone == a.unhealthy
    && a.disconnects == (if a.unhealthy then 1 else 0)
    && a.slowest == SlowestOf(if a.unhealthy then a.attempts[..|a.attempts| - 1] else a.attempts)
  }

  lemma AttemptAdded(attempts: seq<Attempt>, t: Attempt)
    requires NoneInARow(attempts)
    ensures (attempts + [t])[..|attempts|] == attempts
    ensures TwoInARow(attempts + [t]) <==> TrailingFailure(attempts) == 1 && t.transport
    ensures !TwoInARow(attempts + [t]) ==> NoneInARow(attempts + [t])
    ensures TrailingFailure(attempts + [t]) == if t.transport then 1 else 0
    ensures SlowestOf(attempts + [t]) == Slower(SlowestOf(attempts), t.elapsed)
  {
    var all := attempts + [t];
    assert all[..|all| - 1] == attempts;
    assert attempts != [] ==> all[|all| - 2] == attempts[|attempts| - 1];
  }

  /** An executed read keeps the invariant, and its record says whether one of
      its exchanges failed at the transport. */
  lemma ReadKeepsInv(highest: nat, a: Actor, op: Op, elapsed: nat)
    requires ActorInv(a)
    ensures var a' := ReadStep(highest, a, op, elapsed);
            ActorInv(a') &&
            (if a.unhealthy then a'.attempts == a.attempts && a'.session == a.session
             else a'.attempts == a.attempts + [Attempt(NewFailure(a.session.wire, a'.session.wire), elapsed)])
  {
    if !a.unhealthy {
      OperationHeard(highest, a.session, op);
      var (s, ok) := Perform(highest, a.session, op);
      AttemptAdded(a.attempts, Attempt(s.wire.tap, elapsed));
      assert !ok || !s.wire.tap;
    }
  }

  /** The actor after one command that does not stop it. */
  function After(highest: nat, a: Actor, request: Request): Actor
    requires !request.Shutdown?
  {
    match request
    case Read(op, elapsed) => ReadStep(highest, a, op, elapsed)
    case SupportDiscovery => Answered(a, Discovery(if a.open then a.session.support.discovery else []))
    case Capability => Answered(a, Measured(a.slowest))
  }

  lemma RunHead(highest: nat, a: Actor, requests: seq<Request>)
    requires requests != []
    ensures Run(highest, a, requests) ==
            if requests[0].Shutdown? then Answered(Finished(a), Stopped)
            else Run(highest, After(highest, a, requests[0]), requests[1..])
  {
  }

  lemma AfterKeepsInv(highest: nat, a: Actor, request: Request)
    requires ActorInv(a) && !request.Shutdown?
    ensures ActorInv(After(highest, a, request))
  {
    if request.Read? {
      ReadKeepsInv(highest, a, request.op, request.elapsed);
    }
  }

  /** What holds of the actor when its run is over. */
  ghost predicate Over(z: Actor) {
    !z.open && z.disconnects == 1 && !z.session.wire.tap
    && (z.unhealthy <==> TwoInARow(z.attempts))
    && (if z.unhealthy then NoneInARow(z.attempts[..|z.attempts| - 1]) else NoneInARow(z.attempts))
    && z.slowest == SlowestOf(if z.unhealthy then z.attempts[..|z.attempts| - 1] else z.attempts)
  }

  lemma FinishedIsOver(a: Actor)
    requires ActorInv(a)
    ensures Over(Finished(a)) && Over(Answered(Finished(a), Stopped))
  {
  }

  lemma {:induction false} RunKeepsInv(highest: nat, a: Actor, requests: seq<Request>)
    requires ActorInv(a)
    ensures Over(Run(highest, a, requests))
    decreases |requests|
  {
    FinishedIsOver(a);
    if requests != [] {
      RunHead(highest, a, requests);
      if !requests[0].Shutdown? {
        AfterKeepsInv(highest, a, requests[0]);
        RunKeepsInv(highest, After(highest, a, requests[0]), requests[1..]);
      }
    }
  }

  /** Every finished run, from a session without a pending failure: the link is
      disconnected exactly once; the session is declared dead exactly when the
      last two executed reads both failed at the transport, and never did two
      neighbouring reads do so before; the estimate is the slowest completed read. */
  lemma FinishedRun(highest: nat, session: State, requests: seq<Request>)
    requires !session.wire.tap
    ensures var z := Run(highest, Started(session), requests);
            z.disconnects == 1 && !z.open
            && (z.unhealthy <==> exists i | 0 <= i < |z.attempts| - 1 :: z.attempts[i].transport && z.attempts[i + 1].transport)
            && (forall i | 0 <= i < |z.attempts| - 2 :: !(z.attempts[i].transport && z.attempts[i + 1].transport))
            && z.slowest == SlowestOf(if z.unhealthy then z.attempts[..|z.attempts| - 1] else z.attempts)
  {
    RunKeepsInv(highest, Started(session), requests);
    var z := Run(highest, Started(session), requests);
    if z.unhealthy {
      var n := |z.attempts|;
      assert z.attempts[n - 2].transport && z.attempts[n - 2 + 1].transport;
      var before := z.attempts[..n - 1];
      forall i | 0 <= i < n - 2 ensures !(z.attempts[i].transport && z.attempts[i + 1].transport) {
        assert before[i] == z.attempts[i] && before[i + 1] == z.attempts[i + 1];
      }
    }
  }

  // ---------------------------------------------------------------------
  // After the session died
  // ---------------------------------------------------------------------

  /** Every read request is refused; other requests are still answered. */
  function Refusal(a: Actor, request: Request): Answer {
    match request
    case Read(_, _) => SessionUnhealthy
    case SupportDiscovery => Discovery([])
    case Capability => Measured(a.slowest)
    case Shutdown => Stopped
  }

  /** The answers up to a shutdown. */
  function Refusals(a: Actor, requests: seq<Request>): seq<Answer>
    decreases |requests|, a
  {
    if requests == [] then []
    else if requests[0].Shutdown? then [Stopped]
    else [Refusal(a, requests[0])] + Refusals(a, requests[1..])
  }

  /** A dead actor only answers. */
  lemma DeadAfter(highest: nat, a: Actor, request: Request)
    requires ActorInv(a) && a.unhealthy
    ensures !request.Shutdown? ==> After(highest, a, request) == Answered(a, Refusal(a, request))
    ensures Finished(a) == a
  {
  }

  /** A dead session never touches the adapter again: the adapter, its log and
      the records stay as they are and every read is refused. */
  lemma {:induction false} DeadSessionIsSilent(highest: nat, a: Actor, requests: seq<Request>)
    requires ActorInv(a) && a.unhealthy
    ensures Run(highest, a, requests) == a.(answers := a.answers + Refusals(a, requests))
    decreases |requests|
  {
    if requests != [] {
      RunHead(highest, a, requests);
      DeadAfter(highest, a, requests[0]);
      if !requests[0].Shutdown? {
        var answer := Refusal(a, requests[0]);
        var a1 := Answered(a, answer);
        DeadSessionIsSilent(highest, a1, requests[1..]);
        RefusalsSame(a, a1, requests[1..]);
        assert a1.answers + Refusals(a, requests[1..]) == a.answers + ([answer] + Refusals(a, requests[1..]));
      }
    }
  }

  lemma {:induction false} RefusalsSame(a: Actor, b: Actor, requests: seq<Request>)
    requires a.slowest == b.slowest
    ensures Refusals(a, requests) == Refusals(b, requests)
    decreases |requests|
  {
    if requests != [] {
      RefusalsSame(a, b, requests[1..]);
    }
  }

  // ---------------------------------------------------------------------
  // The actor obeys the addressing discipline
  // ---------------------------------------------------------------------

  /** The actor's reads never re-initialize directly. */
  predicate ActorRequests(requests: seq<Request>) {
    forall i | 0 <= i < |requests| :: requests[i].Read? ==> !requests[i].op.Reinitialize?
  }

  lemma TapDoesNotMatter(highest: nat, s: State)
    ensures var s' := s.(wire := s.wire.(tap := false));
            (Safe(highest, s) <==> Safe(highest, s')) && (Clean(highest, s) <==> Clean(highest, s'))
  {
  }

  lemma AfterIsSafe(highest: nat, a: Actor, request: Request)
    requires Safe(highest, a.session) && Clean(highest, a.session)
    requires !request.Shutdown? && (request.Read? ==> !request.op.Reinitialize?)
    ensures var s := After(highest, a, request).session; Safe(highest, s) && Clean(highest, s)
  {
    if request.Read? {
      StepSafe(highest, a.session, request.op);
      TapDoesNotMatter(highest, Perform(highest, a.session, request.op).0);
      TapDoesNotMatter(highest, a.session);
    }
  }

  /** Whatever clients ask and however exchanges fail, the actor only sends
      functional requests to a completely initialized adapter. */
  lemma {:induction false} ActorIsSafe(highest: nat, a: Actor, requests: seq<Request>)
    requires Safe(highest, a.session) && Clean(highest, a.session) && ActorRequests(requests)
    ensures Safe(highest, Run(highest, a, requests).session)
    decreases |requests|
  {
    if requests != [] {
      RunHead(highest, a, requests);
      if !requests[0].Shutdown? {
        AfterIsSafe(highest, a, requests[0]);
        ActorIsSafe(highest, After(highest, a, requests[0]), requests[1..]);
      }
    }
  }

  // ---------------------------------------------------------------------
  // Exactly when its targeted reads meet their target
  // ---------------------------------------------------------------------

  /** No read the actor executes up to a shutdown is a stale one. */
  predicate NoStaleRequest(highest: nat, a: Actor, stale: bool, requests: seq<Request>)
    decreases |requests|
  {
    requests == [] || requests[0].Shutdown? ||
    (var executed := requests[0].Read? && !a.unhealthy;
     !(executed && StaleRead(a.session, stale, requests[0].op)) &&
     NoStaleRequest(highest, After(highest, a, requests[0]),
                    if executed then StaleAfter(highest, a.session, stale, requests[0].op) else stale, requests[1..]))
  }

  /** The session after an executed read: the tap may have been cleared. */
  lemma SessionAfterRead(highest: nat, a: Actor, op: Op, elapsed: nat)
    requires ActorInv(a) && !a.unhealthy
    ensures var s, s' := Perform(highest, a.session, op).0, ReadStep(highest, a, op, elapsed).session;
            s' == s.(wire := s.wire.(tap := s'.wire.tap))
  {
  }

  lemma {:induction false} ActorGrows(highest: nat, a: Actor, requests: seq<Request>)
    requires ActorInv(a)
    ensures a.session.wire.log <= Run(highest, a, requests).session.wire.log
    decreases |requests|
  {
    if requests != [] {
      RunHead(highest, a, requests);
      if !requests[0].Shutdown? {
        if requests[0].Read? && !a.unhealthy {
          OperationHeard(highest, a.session, requests[0].op);
          SessionAfterRead(highest, a, requests[0].op, requests[0].elapsed);
        }
        AfterKeepsInv(highest, a, requests[0]);
        ActorGrows(highest, After(highest, a, requests[0]), requests[1..]);
      }
    }
  }

  /** Whatever clients ask and however exchanges fail, the actor's targeted reads
      all meet their own target's wiring if and only if it executes no stale read. */
  lemma {:induction false} ActorTunedIff(highest: nat, a: Actor, stale: bool, requests: seq<Request>)
    requires ActorInv(a) && TunedLog(a.session.wire.log) && (a.session.configured.Some? ==> a.session.dirty)
    requires stale <==> !Synced(a.session)
    ensures TunedLog(Run(highest, a, requests).session.wire.log) <==> NoStaleRequest(highest, a, stale, requests)
    decreases |requests|
  {
    if requests != [] && !requests[0].Shutdown? {
      RunHead(highest, a, requests);
      AfterKeepsInv(highest, a, requests[0]);
      var a' := After(highest, a, requests[0]);
      if requests[0].Read? && !a.unhealthy {
        var op := requests[0].op;
        SessionAfterRead(highest, a, op, requests[0].elapsed);
        CachedImpliesDirty(highest, a.session, op);
        if StaleRead(a.session, stale, op) {
          StaleReadShows(highest, a.session, op);
          ActorGrows(highest, a', requests[1..]);
          if TunedLog(Run(highest, a', requests[1..]).session.wire.log) {
            PrefixTuned(a'.session.wire.log, Run(highest, a', requests[1..]).session.wire.log);
          }
        } else {
          StepStale(highest, a.session, stale, op);
          ActorTunedIff(highest, a', StaleAfter(highest, a.session, stale, op), requests[1..]);
        }
      } else {
        ActorTunedIff(highest, a', stale, requests[1..]);
      }
    }
  }

  /** A functional read that half re-initializes keeps the cached target. */
  lemma HalfwayKeepsTarget(highest: nat, a: Actor, elapsed: nat)
    requires ActorInv(a) && !a.unhealthy && TrailingFailure(a.attempts) == 0 && TunedLog(a.session.wire.log)
    requires HalfReinitialized(highest, a.session, EstablishProtocol)
    ensures var a' := ReadStep(highest, a, EstablishProtocol, elapsed);
            !a'.unhealthy && a'.session.configured == a.session.configured
  {
    ReinitializedWiring(highest, a.session);
    assert Perform(highest, a.session, EstablishProtocol) == Reinitialized(highest, a.session);
    SessionAfterRead(highest, a, EstablishProtocol, elapsed);
  }

  lemma SucceededRead(highest: nat, a: Actor, op: Op, elapsed: nat)
    requires ActorInv(a) && !a.unhealthy && Perform(highest, a.session, op).1
    ensures var a' := ReadStep(highest, a, op, elapsed);
            !a'.unhealthy && TrailingFailure(a'.attempts) == 0 && a'.session == Perform(highest, a.session, op).0
  {
  }

  lemma HalfwayThroughActor(highest: nat, key: Key, elapsed: nat)
    ensures var a1 := ReadStep(highest, Started(FifthFails()), ReadTargeted(key), elapsed);
            ActorInv(a1) && !a1.unhealthy && TrailingFailure(a1.attempts) == 0
            && a1.session == Perform(highest, FifthFails(), ReadTargeted(key)).0
  {
    ReadCost(FifthFails(), key);
    SucceededRead(highest, Started(FifthFails()), ReadTargeted(key), elapsed);
    ReadKeepsInv(highest, Started(FifthFails()), ReadTargeted(key), elapsed);
  }

  /** The failing run is one clients of the actor can cause. */
  lemma ActorReadsStale(highest: nat, key: Key, elapsed: nat)
    ensures var read := Read(ReadTargeted(key), elapsed);
            var requests := [read, Read(EstablishProtocol, elapsed), read];
            !TunedLog(Run(highest, Started(FifthFails()), requests).session.wire.log)
  {
    var read := Read(ReadTargeted(key), elapsed);
    var requests := [read, Read(EstablishProtocol, elapsed), read];
    var a := Started(FifthFails());
    HalfwayThroughActor(highest, key, elapsed);
    FifthFailsHalfway(highest, key);
    assert requests[1..][1..] == [read];
    var a1 := After(highest, a, read);
    HalfwayKeepsTarget(highest, a1, elapsed);
    var a2 := After(highest, a1, requests[1]);
    assert !NoStaleRequest(highest, a2, true, [read]);
    assert !NoStaleRequest(highest, a1, false, requests[1..]);
    ActorTunedIff(highest, a, false, requests);
  }
}
