/**
 * Targeted addressing over whole runs and all fault placements: exactly which runs
 * send every targeted request to the target it was meant for.
 */
module Targeting {
  import opened Prelude
  import opened PidSupport
  import opened Adapter
  import opened ElmSession
  import opened TransportFailures
  import opened Addressing
  import opened Discipline
  import opened ReadCosts

  /** The cache is right: the adapter is set to the configured target. */
  predicate Synced(s: State) {
    s.configured.Some? ==> s.wire.wiring == Tuned(s.configured.value)
  }

  predicate EntryTuned(e: Entry) {
    e.command.Targeted? ==> e.wiring == Tuned(e.command.key)
  }

  /** Every targeted request met an adapter set to its target. */
  ghost predicate TunedLog(log: seq<Entry>) {
    forall i | 0 <= i < |log| :: EntryTuned(log[i])
  }

  predicate Untargeted(c: Command) { !c.Targeted? }

  lemma {:induction false} SentAllTuned(w: Wire, commands: seq<Command>)
    requires TunedLog(w.log) && forall i | 0 <= i < |commands| :: Untargeted(commands[i])
    ensures TunedLog(SentAll(w, commands).0.log)
    decreases |commands|
  {
    if commands != [] {
      SentAllTuned(Exchanged(w, commands[0]).0, commands[1..]);
    }
  }

  lemma ConfigureTunes(w: Wire, key: Key)
    requires TunedLog(w.log)
    ensures var (w', ok) := SentAll(w, ConfigureCommands(key));
            TunedLog(w'.log) && (ok ==> w'.wiring == Tuned(key))
  {
    SentAllTuned(w, ConfigureCommands(key));
    var (w1, o1) := Exchanged(w, SetHeader(key.header));
    var (w2, o2) := Exchanged(w1, SetFilter(key.filter));
    assert ConfigureCommands(key)[1..] == [SetFilter(key.filter)];
    assert [SetFilter(key.filter)][1..] == [];
    if o1 == Text(Accepted) {
      assert SentAll(w1, [SetFilter(key.filter)]) == (w2, o2 == Text(Accepted));
    }
  }

  /** Commands that leave header and filter alone. */
  predicate KeepsWiring(c: Command) {
    c.Setup? || c.SupportPage? || c.Functional? || c.Targeted?
  }

  lemma {:induction false} SentAllKeepsWiring(w: Wire, commands: seq<Command>)
    requires forall i | 0 <= i < |commands| :: KeepsWiring(commands[i])
    ensures SentAll(w, commands).0.wiring == w.wiring
    decreases |commands|
  {
    if commands != [] {
      assert KeepsWiring(commands[0]);
      SentAllKeepsWiring(Exchanged(w, commands[0]).0, commands[1..]);
    }
  }

  lemma {:induction false} DiscoverKeepsWiring(w: Wire, highest: nat, page: nat, s: Support)
    requires page <= 255
    ensures Discover(w, highest, page, s).0.wiring == w.wiring
    ensures TunedLog(w.log) ==> TunedLog(Discover(w, highest, page, s).0.log)
    decreases 256 - page
  {
    var (w', outcome) := Exchanged(w, SupportPage(page));
    if outcome.Text? && outcome.reply.Page? {
      var next := NextPage(highest, page, Merge(outcome.reply.responses));
      if next.Some? {
        DiscoverKeepsWiring(w', highest, next.value, AddPage(s, page, outcome.reply.responses));
      }
    }
  }

  /** Did the reset at the head of a re-initialization reach the adapter? */
  predicate ResetReaches(w: Wire) {
    NextFate(w).applied || NextFate(w).outcome == Text(Accepted)
  }

  lemma InitWiring(w: Wire)
    requires TunedLog(w.log)
    ensures var (w', ok) := SentAll(w, InitCommands);
            TunedLog(w'.log) && w'.wiring == (if ResetReaches(w) then PowerOn else w.wiring) && (ok ==> ResetReaches(w))
  {
    SentAllTuned(w, InitCommands);
    var (w1, outcome) := Exchanged(w, Reset);
    assert InitCommands[0] == Reset;
    if outcome == Text(Accepted) {
      SentAllKeepsWiring(w1, InitCommands[1..]);
    }
  }

  lemma ReinitializedWiring(highest: nat, s: State)
    requires TunedLog(s.wire.log)
    ensures var (s', ok) := Reinitialized(highest, s);
            TunedLog(s'.wire.log)
            && s'.wire.wiring == (if ResetReaches(s.wire) then PowerOn else s.wire.wiring)
            && s'.configured == (if ok then None else s.configured)
  {
    InitWiring(s.wire);
    var (w1, ok) := SentAll(s.wire, InitCommands);
    if ok {
      DiscoverKeepsWiring(w1, highest, 0, NoSupport);
    }
  }

  predicate Reinitializes(s: State, op: Op) {
    op.Reinitialize? || (UsesFunctional(op) && s.dirty)
  }

  /** A re-initialization that resets the adapter, then fails, while a target is
      cached: the cache is kept although the reset cleared header and filter. */
  predicate HalfReinitialized(highest: nat, s: State, op: Op) {
    Reinitializes(s, op) && s.configured.Some? && ResetReaches(s.wire) && !Reinitialized(highest, s).1
  }

  lemma FunctionalTail(highest: nat, s: State, op: Op)
    requires TunedLog(s.wire.log) && UsesFunctional(op)
    ensures var (s1, ok) := EnsuredFunctional(highest, s);
            TunedLog(s1.wire.log) ==>
            var s' := Perform(highest, s, op).0;
            TunedLog(s'.wire.log) && s'.wire.wiring == s1.wire.wiring && s'.configured == s1.configured
  {
    var (s1, ok) := EnsuredFunctional(highest, s);
    if TunedLog(s1.wire.log) {
      match op
      case EstablishProtocol => RequestAllTuned(s1.wire, [Probe]);
      case Identify => RequestAllTuned(s1.wire, [Probe, Vin]);
      case ReadPid(pid) =>
      case ReadBroadcast(what) =>
    }
  }

  lemma {:induction false} RequestAllTuned(w: Wire, requests: seq<Broadcast>)
    requires TunedLog(w.log)
    ensures TunedLog(RequestAll(w, requests).0.log) && RequestAll(w, requests).0.wiring == w.wiring
    decreases |requests|
  {
    if requests != [] {
      RequestAllTuned(Exchanged(w, Functional(requests[0])).0, requests[1..]);
    }
  }

  lemma CachedReadTuned(s: State, key: Key, drop: bool)
    requires Synced(s) && TunedLog(s.wire.log)
    ensures var s' := CachedRead(s, key, drop).0; Synced(s') && TunedLog(s'.wire.log)
  {
    ConfigureTunes(s.wire, key);
  }

  lemma SelfContainedReadTuned(s: State, key: Key, identification: bool)
    requires TunedLog(s.wire.log)
    ensures var s' := SelfContainedRead(s, key, identification).0; s'.configured.None? && TunedLog(s'.wire.log)
  {
    ConfigureTunes(s.wire, key);
    var (w1, ok) := SentAll(s.wire, ConfigureCommands(key));
    SentAllTuned(w1, RestoreCommands);
    var w2 := Exchanged(w1, Targeted(key)).0;
    if ok {
      SentAllTuned(w2, RestoreCommands);
      var w3 := Exchanged(w2, Targeted(key)).0;
      SentAllTuned(w3, RestoreCommands);
    }
  }

  /** One operation from a right cache: its targeted requests meet their target,
      and the cache stays right exactly when it was not half re-initialized. */
  lemma StepTuned(highest: nat, s: State, op: Op)
    requires Synced(s) && TunedLog(s.wire.log) && (s.configured.Some? ==> s.dirty)
    ensures var s' := Perform(highest, s, op).0;
            TunedLog(s'.wire.log) && (Synced(s') <==> !HalfReinitialized(highest, s, op))
  {
    ReinitializedWiring(highest, s);
    match op
    case Reinitialize =>
    case RestoreFunctional => SentAllTuned(s.wire, RestoreCommands);
    case ReadTargeted(key) => CachedReadTuned(s, key, true);
    case ReadCached(key) => CachedReadTuned(s, key, false);
    case ReadMode09(key) => SelfContainedReadTuned(s, key, false);
    case ReadIdentification(key) => SelfContainedReadTuned(s, key, true);
    case _ => FunctionalTail(highest, s, op);
  }

  lemma CachedImpliesDirty(highest: nat, s: State, op: Op)
    requires s.configured.Some? ==> s.dirty
    ensures var s' := Perform(highest, s, op).0; s'.configured.Some? ==> s'.dirty
  {
  }

  // ---------------------------------------------------------------------
  // Exactly which runs send every targeted request to its target
  // ---------------------------------------------------------------------

  /** A read of the cached target while the cache is stale. */
  predicate StaleRead(s: State, stale: bool, op: Op) {
    stale && (op.ReadTargeted? || op.ReadCached?) && s.configured == Some(op.key)
  }

  /** Is the cache stale after an operation that was not a stale read? Only a
      failed re-initialization leaves it so, if it was stale or the reset took
      effect. */
  predicate StaleAfter(highest: nat, s: State, stale: bool, op: Op) {
    Reinitializes(s, op) && !Reinitialized(highest, s).1 && s.configured.Some? && (stale || ResetReaches(s.wire))
  }

  lemma OtherTargetTuned(s: State, key: Key, drop: bool)
    requires TunedLog(s.wire.log) && s.configured != Some(key)
    ensures var s' := CachedRead(s, key, drop).0; Synced(s') && TunedLog(s'.wire.log)
  {
    ConfigureTunes(s.wire, key);
  }

  lemma FailedReinitialization(highest: nat, s: State)
    requires TunedLog(s.wire.log)
    ensures var (s', ok) := Reinitialized(highest, s);
            Synced(s') <==> ok || s.configured.None? || (Synced(s) && !ResetReaches(s.wire))
  {
    ReinitializedWiring(highest, s);
  }

  /** A stale read is recorded with a wiring that is not its target's. */
  lemma StaleReadShows(highest: nat, s: State, op: Op)
    requires StaleRead(s, !Synced(s), op)
    ensures !TunedLog(Perform(highest, s, op).0.wire.log)
  {
    var log := Perform(highest, s, op).0.wire.log;
    assert !EntryTuned(log[|s.wire.log|]);
  }

  /** One operation, exactly: its log stays tuned unless it is a stale read, and
      then the cache is right except after a failed re-initialization. */
  lemma StepStale(highest: nat, s: State, stale: bool, op: Op)
    requires TunedLog(s.wire.log) && (s.configured.Some? ==> s.dirty) && (stale <==> !Synced(s))
    requires !StaleRead(s, stale, op)
    ensures var s' := Perform(highest, s, op).0;
            TunedLog(s'.wire.log) && (StaleAfter(highest, s, stale, op) <==> !Synced(s'))
  {
    if !stale {
      StepTuned(highest, s, op);
    } else {
      FailedReinitialization(highest, s);
      ReinitializedWiring(highest, s);
      match op
      case Reinitialize =>
      case RestoreFunctional => SentAllTuned(s.wire, RestoreCommands);
      case ReadTargeted(key) => OtherTargetTuned(s, key, true);
      case ReadCached(key) => OtherTargetTuned(s, key, false);
      case ReadMode09(key) => SelfContainedReadTuned(s, key, false);
      case ReadIdentification(key) => SelfContainedReadTuned(s, key, true);
      case _ => FunctionalTail(highest, s, op);
    }
  }

  /** No operation of the run reads the cached target while the cache is stale. */
  predicate NoStaleRead(highest: nat, s: State, stale: bool, ops: seq<Op>)
    decreases |ops|
  {
    ops == [] ||
    (!StaleRead(s, stale, ops[0]) &&
     NoStaleRead(highest, Perform(highest, s, ops[0]).0, StaleAfter(highest, s, stale, ops[0]), ops[1..]))
  }

  lemma PrefixTuned(log: seq<Entry>, later: seq<Entry>)
    requires log <= later && TunedLog(later)
    ensures TunedLog(log)
  {
    assert forall i | 0 <= i < |log| :: later[i] == log[i];
  }

  /** Over any run and any placement of faults: every targeted request meets an
      adapter set to its target if and only if no read of the cached target
      follows a failed re-initialization that reset the adapter before the cache
      is dropped or set again. */
  lemma {:induction false} TunedIffNoStaleRead(highest: nat, s: State, stale: bool, ops: seq<Op>)
    requires TunedLog(s.wire.log) && (s.configured.Some? ==> s.dirty) && (stale <==> !Synced(s))
    ensures TunedLog(RunOps(highest, s, ops).wire.log) <==> NoStaleRead(highest, s, stale, ops)
    decreases |ops|
  {
    if ops != [] {
      var s' := Perform(highest, s, ops[0]).0;
      if StaleRead(s, stale, ops[0]) {
        StaleReadShows(highest, s, ops[0]);
        RunGrows(highest, s', ops[1..]);
        if TunedLog(RunOps(highest, s', ops[1..]).wire.log) {
          PrefixTuned(s'.wire.log, RunOps(highest, s', ops[1..]).wire.log);
        }
      } else {
        StepStale(highest, s, stale, ops[0]);
        CachedImpliesDirty(highest, s, ops[0]);
        TunedIffNoStaleRead(highest, s', StaleAfter(highest, s, stale, ops[0]), ops[1..]);
      }
    }
  }

  /** No step of the run half re-initializes. */
  predicate NeverHalf(highest: nat, s: State, ops: seq<Op>)
    decreases |ops|
  {
    ops == [] || (!HalfReinitialized(highest, s, ops[0]) && NeverHalf(highest, Perform(highest, s, ops[0]).0, ops[1..]))
  }

  /** In particular runs that are never half re-initialized send every targeted
      request to its target, and leave the cache right. */
  lemma {:induction false} RunTuned(highest: nat, s: State, ops: seq<Op>)
    requires Synced(s) && TunedLog(s.wire.log) && (s.configured.Some? ==> s.dirty)
    requires NeverHalf(highest, s, ops)
    ensures Synced(RunOps(highest, s, ops)) && TunedLog(RunOps(highest, s, ops).wire.log)
    ensures NoStaleRead(highest, s, false, ops)
    decreases |ops|
  {
    if ops != [] {
      StepTuned(highest, s, ops[0]);
      CachedImpliesDirty(highest, s, ops[0]);
      RunTuned(highest, Perform(highest, s, ops[0]).0, ops[1..]);
    }
  }

  /** After a half re-initialization the next read of the cached target goes out
      without header or filter: it reaches every ECU on the bus. */
  lemma StaleTargetIsBroadcast(highest: nat, s: State, op: Op)
    requires (s.configured.Some? ==> s.dirty) && Synced(s) && TunedLog(s.wire.log) && HalfReinitialized(highest, s, op)
    ensures var s1 := Perform(highest, s, op).0;
            var s2 := Perform(highest, s1, ReadTargeted(s.configured.value)).0;
            |s2.wire.log| == |s1.wire.log| + 1
            && s2.wire.log[|s1.wire.log|].command == Targeted(s.configured.value)
            && s2.wire.log[|s1.wire.log|].wiring == PowerOn
  {
    ReinitializedWiring(highest, s);
    var (s1, ok) := Reinitialized(highest, s);
    assert !ok && s1.configured == s.configured && s1.wire.wiring == PowerOn;
    assert Perform(highest, s, op) == (s1, false) by {
      assert Reinitializes(s, op);
    }
  }

  lemma RunOne(highest: nat, s: State, op: Op)
    ensures RunOps(highest, s, [op]) == Perform(highest, s, op).0
  {
    assert [op][1..] == [];
  }

  lemma RunTwo(highest: nat, s: State, op: Op, op': Op)
    ensures RunOps(highest, s, [op, op']) == Perform(highest, Perform(highest, s, op).0, op').0
  {
    assert [op, op'][1..] == [op'];
    RunOne(highest, Perform(highest, s, op).0, op');
  }

  /** So the run is not tuned: the read reached the bus with the wrong wiring. */
  lemma StaleReadIsUntuned(highest: nat, s: State, op: Op)
    requires (s.configured.Some? ==> s.dirty) && Synced(s) && TunedLog(s.wire.log) && HalfReinitialized(highest, s, op)
    ensures !TunedLog(RunOps(highest, s, [op, ReadTargeted(s.configured.value)]).wire.log)
  {
    var read := ReadTargeted(s.configured.value);
    StaleTargetIsBroadcast(highest, s, op);
    RunTwo(highest, s, op, read);
    var log := RunOps(highest, s, [op, read]).wire.log;
    assert !EntryTuned(log[|log| - 1]);
  }

  /** A session over an adapter that acknowledges four commands and not the fifth. */
  function FifthFails(): State {
    var ack := Fate(Text(Accepted), true);
    State(Wire([ack, ack, ack, ack, Fate(Text(Unparsable), false)], PowerOn, [], false), NoSupport, false, None)
  }

  /** After one targeted read its next functional operation has its reset
      acknowledged and its first setup command not. */
  lemma FifthFailsHalfway(highest: nat, key: Key)
    ensures var s1 := Perform(highest, FifthFails(), ReadTargeted(key)).0;
            s1.configured == Some(key) && s1.dirty && Synced(s1) && TunedLog(s1.wire.log)
            && HalfReinitialized(highest, s1, EstablishProtocol)
  {
    var s := FifthFails();
    ReadCost(s, key);
    StepTuned(highest, s, ReadTargeted(key));
    var s1 := Perform(highest, s, ReadTargeted(key)).0;
    assert s1.wire.fates == [Fate(Text(Accepted), true), Fate(Text(Unparsable), false)];
    var (w1, o1) := Exchanged(s1.wire, Reset);
    assert InitCommands[1..][0] == Setup(0);
    assert Exchanged(w1, Setup(0)).1 == Text(Unparsable);
    assert !SentAll(w1, InitCommands[1..]).1;
    assert !SentAll(s1.wire, InitCommands).1;
  }

  /** Half re-initialization alone does no harm: without the second read the run
      stays tuned. */
  lemma HalfIsNotEnough(highest: nat, key: Key)
    ensures var ops := [ReadTargeted(key), EstablishProtocol];
            !NeverHalf(highest, FifthFails(), ops) && TunedLog(RunOps(highest, FifthFails(), ops).wire.log)
  {
    var ops := [ReadTargeted(key), EstablishProtocol];
    var s1 := Perform(highest, FifthFails(), ReadTargeted(key)).0;
    assert ops[1..] == [EstablishProtocol];
    FifthFailsHalfway(highest, key);
    StepTuned(highest, s1, EstablishProtocol);
    RunTwo(highest, FifthFails(), ReadTargeted(key), EstablishProtocol);
  }

  /** Such runs exist: a targeted read, a functional operation whose
      re-initialization fails half-way, and the read again, which goes out with
      neither header nor filter. */
  lemma HalfReinitializationHappens(highest: nat, key: Key)
    ensures var ops := [ReadTargeted(key), EstablishProtocol, ReadTargeted(key)];
            !NeverHalf(highest, FifthFails(), ops) && !TunedLog(RunOps(highest, FifthFails(), ops).wire.log)
  {
    var ops := [ReadTargeted(key), EstablishProtocol, ReadTargeted(key)];
    var s1 := Perform(highest, FifthFails(), ReadTargeted(key)).0;
    assert ops[1..] == [EstablishProtocol, ReadTargeted(key)];
    FifthFailsHalfway(highest, key);
    StaleReadIsUntuned(highest, s1, EstablishProtocol);
  }
}
