/**
 * Direct re-initialization: exactly which callers keep functional requests away
 * from a half-initialized adapter.
 */
module Discipline {
  import opened Prelude
  import opened PidSupport
  import opened Adapter
  import opened ElmSession
  import opened TransportFailures
  import opened Addressing

  /** A functional operation that gets as far as sending on a session that is not
      marked dirty: a read of a PID that is not advertised does not. */
  predicate Requests(s: State, op: Op) {
    UsesFunctional(op) && (op.ReadPid? ==> Status(s.support, op.pid) == Supported)
  }

  lemma {:induction false} PrefixAllowed(highest: nat, log: seq<Entry>, later: seq<Entry>)
    requires log <= later && AllowedLog(highest, later)
    ensures AllowedLog(highest, log)
    decreases |later|
  {
    if log != later {
      assert log <= later[..|later| - 1];
      PrefixAllowed(highest, log, later[..|later| - 1]);
    } else {
      assert log == later;
    }
  }

  lemma EntryOfPrefix(highest: nat, log: seq<Entry>, later: seq<Entry>)
    requires log <= later && |log| < |later| && AllowedLog(highest, later)
    ensures EntryAllowed(Monitor(highest, log), later[|log|])
  {
    AllowedEverywhere(highest, later);
    assert AllowedAt(highest, later, |log|);
    assert later[..|log|] == log;
  }

  /** The first command of such an operation is a functional request. */
  lemma FirstIsFunctional(highest: nat, s: State, op: Op)
    requires !s.dirty && Requests(s, op)
    ensures var log, later := s.wire.log, Perform(highest, s, op).0.wire.log;
            log <= later && |log| < |later| && later[|log|].command.Functional?
  {
    match op
    case EstablishProtocol => RequestsSend(s.wire, [Probe]);
    case Identify => RequestsSend(s.wire, [Probe, Vin]);
    case ReadPid(pid) => RequestPidSends(s.wire, pid);
    case ReadBroadcast(what) =>
  }

  lemma RequestsSend(w: Wire, requests: seq<Broadcast>)
    requires requests != []
    ensures var log, later := w.log, RequestAll(w, requests).0.log;
            log <= later && |log| < |later| && later[|log|].command.Functional?
  {
    var w1 := Exchanged(w, Functional(requests[0])).0;
    RequestAllHeard(w1, requests[1..]);
    assert w1.log[|w.log|].command.Functional?;
  }

  lemma RequestPidSends(w: Wire, pid: nat)
    ensures var log, later := w.log, RequestPid(w, pid).0.log;
            log <= later && |log| < |later| && later[|log|].command.Functional?
  {
    var w1 := Exchanged(w, Functional(Pid(pid))).0;
    assert w1.log[|w.log|].command.Functional?;
  }

  /** Operations that are neither functional nor a direct re-initialization mark
      the session dirty, whatever state it was in. */
  lemma OthersMarkDirty(highest: nat, s: State, op: Op)
    requires Safe(highest, s) && !UsesFunctional(op) && !op.Reinitialize?
    ensures var s' := Perform(highest, s, op).0; Safe(highest, s') && s'.dirty
  {
    match op
    case RestoreFunctional => QuietSends(highest, s.wire, Key("", ""));
    case ReadTargeted(key) => CachedReadAllowed(highest, s, key, true);
    case ReadCached(key) => CachedReadAllowed(highest, s, key, false);
    case ReadMode09(key) => SelfContainedReadAllowed(highest, s, key, false);
    case ReadIdentification(key) => SelfContainedReadAllowed(highest, s, key, true);
  }

  /** One operation, exactly: its log stays allowed unless it sends a functional
      request while the session is not marked dirty without being initialized. */
  lemma StepExact(highest: nat, s: State, op: Op)
    requires Safe(highest, s)
    ensures AllowedLog(highest, Perform(highest, s, op).0.wire.log) <==> Clean(highest, s) || !Requests(s, op)
    ensures Clean(highest, s) || !Requests(s, op) ==> Safe(highest, Perform(highest, s, op).0)
  {
    if Clean(highest, s) || op.Reinitialize? {
      StepSafe(highest, s, op);
    } else if !UsesFunctional(op) {
      OthersMarkDirty(highest, s, op);
    } else if Requests(s, op) {
      FirstIsFunctional(highest, s, op);
      var log, later := s.wire.log, Perform(highest, s, op).0.wire.log;
      if AllowedLog(highest, later) {
        EntryOfPrefix(highest, log, later);
      }
    } else {
      assert Perform(highest, s, op).0 == s;
    }
  }

  /** Has a direct re-initialization returned false on a session not marked dirty,
      with only functional operations since? */
  predicate SpoiledAfter(highest: nat, s: State, spoiled: bool, op: Op) {
    if op.Reinitialize? then !s.dirty && !Perform(highest, s, op).1
    else spoiled && UsesFunctional(op)
  }

  lemma StepSpoils(highest: nat, s: State, spoiled: bool, op: Op)
    requires Safe(highest, s) && (spoiled <==> !Clean(highest, s)) && !(spoiled && Requests(s, op))
    ensures var s' := Perform(highest, s, op).0;
            Safe(highest, s') && (SpoiledAfter(highest, s, spoiled, op) <==> !Clean(highest, s'))
  {
    if !spoiled || op.Reinitialize? {
      StepSafe(highest, s, op);
    } else if !UsesFunctional(op) {
      OthersMarkDirty(highest, s, op);
    } else {
      assert Perform(highest, s, op).0 == s;
    }
  }

  /** No operation of the run sends a functional request on a spoiled session. */
  predicate Disciplined(highest: nat, s: State, spoiled: bool, ops: seq<Op>)
    decreases |ops|
  {
    ops == [] ||
    (!(spoiled && Requests(s, ops[0])) &&
     Disciplined(highest, Perform(highest, s, ops[0]).0, SpoiledAfter(highest, s, spoiled, ops[0]), ops[1..]))
  }

  lemma {:induction false} RunGrows(highest: nat, s: State, ops: seq<Op>)
    ensures s.wire.log <= RunOps(highest, s, ops).wire.log
    decreases |ops|
  {
    if ops != [] {
      OperationHeard(highest, s, ops[0]);
      RunGrows(highest, Perform(highest, s, ops[0]).0, ops[1..]);
    }
  }

  /** Over any run and any placement of faults: functional requests only meet a
      completely initialized adapter if and only if the caller sends none between
      a failed direct re-initialization of a session not marked dirty and the next
      successful one or targeted operation. */
  lemma {:induction false} AllowedIffDisciplined(highest: nat, s: State, spoiled: bool, ops: seq<Op>)
    requires Safe(highest, s) && (spoiled <==> !Clean(highest, s))
    ensures AllowedLog(highest, RunOps(highest, s, ops).wire.log) <==> Disciplined(highest, s, spoiled, ops)
    decreases |ops|
  {
    if ops != [] {
      var s' := Perform(highest, s, ops[0]).0;
      if spoiled && Requests(s, ops[0]) {
        StepExact(highest, s, ops[0]);
        RunGrows(highest, s', ops[1..]);
        if AllowedLog(highest, RunOps(highest, s', ops[1..]).wire.log) {
          PrefixAllowed(highest, s'.wire.log, RunOps(highest, s', ops[1..]).wire.log);
        }
      } else {
        StepSpoils(highest, s, spoiled, ops[0]);
        AllowedIffDisciplined(highest, s', SpoiledAfter(highest, s, spoiled, ops[0]), ops[1..]);
      }
    }
  }

  /** In particular any request-sending operation right after such a failure meets
      a half-initialized adapter. */
  lemma UnguardedReinitialization(highest: nat, s: State, op: Op)
    requires Safe(highest, s) && Clean(highest, s) && !s.dirty && !Perform(highest, s, Reinitialize).1
    ensures var s1 := Perform(highest, s, Reinitialize).0;
            AllowedLog(highest, Perform(highest, s1, op).0.wire.log) <==> !Requests(s1, op)
  {
    StepSafe(highest, s, Reinitialize);
    StepExact(highest, Perform(highest, s, Reinitialize).0, op);
  }
}
