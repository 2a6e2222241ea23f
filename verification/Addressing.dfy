/**
 * Functional addressing over whole runs and all fault placements: functional
 * requests are only ever sent after a complete initialization.
 */
module Addressing {
  import opened Prelude
  import opened PidSupport
  import opened Adapter
  import opened ElmSession

  // ---------------------------------------------------------------------
  // A monitor that sees only the commands and replies
  // ---------------------------------------------------------------------

  /** How far the adapter is from a complete initialization: reset, the five
      setup commands in order, then the whole chain of support pages. */
  datatype Progress = Untrusted | Resetting(next: nat) | Surveying(page: nat) | Trusted

  function Observe(highest: nat, m: Progress, e: Entry): Progress {
    match e.command
    case Reset => if e.outcome == Text(Accepted) then Resetting(0) else Untrusted
    case Setup(k) =>
      if m != Resetting(k) || e.outcome != Text(Accepted) then Untrusted
      else if k == 4 then Surveying(0) else Resetting(k + 1)
    case SupportPage(page) =>
      if m != Surveying(page) || !(e.outcome.Text? && e.outcome.reply.Page?) then Untrusted
      else (match NextPage(highest, page, Merge(e.outcome.reply.responses))
            case None => Trusted
            case Some(next) => Surveying(next))
    case Functional(_) => m
    case _ => Untrusted
  }

  /** A session starts on an initialized adapter. */
  function Monitor(highest: nat, log: seq<Entry>): Progress {
    if log == [] then Trusted
    else Observe(highest, Monitor(highest, log[..|log| - 1]), log[|log| - 1])
  }

  predicate EntryAllowed(m: Progress, e: Entry) {
    (e.command.Functional? ==> m == Trusted) && (e.command.SupportPage? ==> m == Surveying(e.command.page))
  }

  /** Every functional request met a completely initialized adapter, and every
      support page was the next one of the advertised chain. */
  predicate AllowedLog(highest: nat, log: seq<Entry>) {
    log == [] ||
    (AllowedLog(highest, log[..|log| - 1]) && EntryAllowed(Monitor(highest, log[..|log| - 1]), log[|log| - 1]))
  }

  predicate AllowedAt(highest: nat, log: seq<Entry>, i: nat)
    requires i < |log|
  {
    EntryAllowed(Monitor(highest, log[..i]), log[i])
  }

  lemma PrefixAllowedAt(highest: nat, log: seq<Entry>, before: seq<Entry>, i: nat)
    requires log != [] && before == log[..|log| - 1] && i < |before|
    ensures AllowedAt(highest, before, i) <==> AllowedAt(highest, log, i)
  {
    assert before[..i] == log[..i] && before[i] == log[i];
  }

  /** Said of every entry at once. */
  lemma {:induction false} AllowedEverywhere(highest: nat, log: seq<Entry>)
    ensures AllowedLog(highest, log) <==> forall i | 0 <= i < |log| :: AllowedAt(highest, log, i)
  {
    if log != [] {
      var before := log[..|log| - 1];
      AllowedEverywhere(highest, before);
      forall i | 0 <= i < |before| ensures AllowedAt(highest, before, i) <==> AllowedAt(highest, log, i) {
        PrefixAllowedAt(highest, log, before, i);
      }
      assert AllowedAt(highest, log, |before|) <==> EntryAllowed(Monitor(highest, before), log[|before|]);
    }
  }

  ghost predicate Safe(highest: nat, s: State) {
    AllowedLog(highest, s.wire.log) && (s.configured.Some? ==> s.dirty)
  }

  /** The flag tells the truth: a session not marked dirty is initialized. */
  ghost predicate Clean(highest: nat, s: State) {
    !s.dirty ==> Monitor(highest, s.wire.log) == Trusted
  }

  lemma ExchangeObserved(highest: nat, w: Wire, c: Command)
    requires AllowedLog(highest, w.log)
    ensures var (w', outcome) := Exchanged(w, c);
            var e := Entry(c, w.wiring, outcome);
            Monitor(highest, w'.log) == Observe(highest, Monitor(highest, w.log), e)
            && (EntryAllowed(Monitor(highest, w.log), e) ==> AllowedLog(highest, w'.log))
  {
    assert Exchanged(w, c).0.log[..|w.log|] == w.log;
  }

  predicate Quiet(c: Command) { !c.Functional? && !c.SupportPage? }

  lemma {:induction false} SentAllAllowed(highest: nat, w: Wire, commands: seq<Command>)
    requires AllowedLog(highest, w.log) && forall i | 0 <= i < |commands| :: Quiet(commands[i])
    ensures AllowedLog(highest, SentAll(w, commands).0.log)
    decreases |commands|
  {
    if commands != [] {
      ExchangeObserved(highest, w, commands[0]);
      SentAllAllowed(highest, Exchanged(w, commands[0]).0, commands[1..]);
    }
  }

  lemma SetupStep(highest: nat, w: Wire, k: nat)
    requires 1 <= k <= 5 && AllowedLog(highest, w.log) && Monitor(highest, w.log) == Resetting(k - 1)
    ensures var (w', outcome) := Exchanged(w, Setup(k - 1));
            AllowedLog(highest, w'.log)
            && Monitor(highest, w'.log) ==
               if outcome != Text(Accepted) then Untrusted else if k == 5 then Surveying(0) else Resetting(k)
  {
    ExchangeObserved(highest, w, Setup(k - 1));
  }

  lemma SentAllStep(w: Wire, commands: seq<Command>, k: nat)
    requires k < |commands|
    ensures var (w', outcome) := Exchanged(w, commands[k]);
            SentAll(w, commands[k..]) ==
            if outcome == Text(Accepted) then SentAll(w', commands[k + 1..]) else (w', false)
  {
    assert commands[k..][1..] == commands[k + 1..];
  }

  /** The setup commands from the k-th on. */
  lemma {:induction false} SetupProgress(highest: nat, w: Wire, commands: seq<Command>, k: nat)
    requires commands == InitCommands && 1 <= k <= 6 && AllowedLog(highest, w.log)
    requires Monitor(highest, w.log) == if k == 6 then Surveying(0) else Resetting(k - 1)
    ensures var (w', ok) := SentAll(w, commands[k..]);
            AllowedLog(highest, w'.log) &&
            if ok then Monitor(highest, w'.log) == Surveying(0) else Monitor(highest, w'.log) == Untrusted
    decreases 6 - k
  {
    if k < 6 {
      assert commands[k] == Setup(k - 1);
      SentAllStep(w, commands, k);
      SetupStep(highest, w, k);
      var (w', outcome) := Exchanged(w, Setup(k - 1));
      if outcome == Text(Accepted) {
        SetupProgress(highest, w', commands, k + 1);
      }
    }
  }

  lemma InitProgress(highest: nat, w: Wire)
    requires AllowedLog(highest, w.log)
    ensures var (w', ok) := SentAll(w, InitCommands);
            AllowedLog(highest, w'.log) &&
            if ok then Monitor(highest, w'.log) == Surveying(0) else Monitor(highest, w'.log) == Untrusted
  {
    ExchangeObserved(highest, w, Reset);
    var (w', outcome) := Exchanged(w, Reset);
    if outcome == Text(Accepted) {
      SetupProgress(highest, w', InitCommands, 1);
    }
  }

  lemma {:induction false} DiscoverProgress(highest: nat, w: Wire, page: nat, s: Support)
    requires page <= 255 && AllowedLog(highest, w.log) && Monitor(highest, w.log) == Surveying(page)
    ensures var (w', found) := Discover(w, highest, page, s);
            AllowedLog(highest, w'.log) &&
            if found.Some? then Monitor(highest, w'.log) == Trusted else Monitor(highest, w'.log) == Untrusted
    decreases 256 - page
  {
    ExchangeObserved(highest, w, SupportPage(page));
    var (w', outcome) := Exchanged(w, SupportPage(page));
    if outcome.Text? && outcome.reply.Page? {
      var next := NextPage(highest, page, Merge(outcome.reply.responses));
      if next.Some? {
        DiscoverProgress(highest, w', next.value, AddPage(s, page, outcome.reply.responses));
      }
    }
  }

  lemma ReinitializedProgress(highest: nat, s: State)
    requires Safe(highest, s)
    ensures var (s', ok) := Reinitialized(highest, s);
            Safe(highest, s') && (ok ==> !s'.dirty) && (!ok ==> s'.dirty == s.dirty && s'.configured == s.configured)
            && (ok <==> Monitor(highest, s'.wire.log) == Trusted)
  {
    InitProgress(highest, s.wire);
    var w1 := SentAll(s.wire, InitCommands).0;
    if SentAll(s.wire, InitCommands).1 {
      DiscoverProgress(highest, w1, 0, NoSupport);
      var w2 := Discover(w1, highest, 0, NoSupport).0;
      if Discover(w1, highest, 0, NoSupport).1.Some? {
        assert Reinitialized(highest, s).0 == State(w2, Discover(w1, highest, 0, NoSupport).1.value, false, None);
      } else {
        assert Reinitialized(highest, s) == (s.(wire := w2), false);
      }
    } else {
      assert Reinitialized(highest, s) == (s.(wire := w1), false);
    }
  }

  lemma EnsuredProgress(highest: nat, s: State)
    requires Safe(highest, s) && Clean(highest, s)
    ensures var (s', ok) := EnsuredFunctional(highest, s);
            Safe(highest, s') && Clean(highest, s') &&
            (ok ==> !s'.dirty && Monitor(highest, s'.wire.log) == Trusted)
  {
    if s.dirty {
      ReinitializedProgress(highest, s);
    }
  }

  lemma FunctionalAllowed(highest: nat, w: Wire, what: Broadcast)
    requires AllowedLog(highest, w.log) && Monitor(highest, w.log) == Trusted
    ensures var w' := Exchanged(w, Functional(what)).0;
            AllowedLog(highest, w'.log) && Monitor(highest, w'.log) == Trusted
  {
    ExchangeObserved(highest, w, Functional(what));
  }

  lemma {:induction false} RequestAllAllowed(highest: nat, w: Wire, requests: seq<Broadcast>)
    requires AllowedLog(highest, w.log) && Monitor(highest, w.log) == Trusted
    ensures var w' := RequestAll(w, requests).0;
            AllowedLog(highest, w'.log) && Monitor(highest, w'.log) == Trusted
    decreases |requests|
  {
    if requests != [] {
      FunctionalAllowed(highest, w, requests[0]);
      RequestAllAllowed(highest, Exchanged(w, Functional(requests[0])).0, requests[1..]);
    }
  }

  lemma RequestPidAllowed(highest: nat, w: Wire, pid: nat)
    requires AllowedLog(highest, w.log) && Monitor(highest, w.log) == Trusted
    ensures var w' := RequestPid(w, pid).0;
            AllowedLog(highest, w'.log) && Monitor(highest, w'.log) == Trusted
  {
    FunctionalAllowed(highest, w, Pid(pid));
    FunctionalAllowed(highest, Exchanged(w, Functional(Pid(pid))).0, Pid(pid));
  }

  /** A functional operation is the initialization it needs, then requests. */
  lemma FunctionalShape(highest: nat, s: State, op: Op)
    requires UsesFunctional(op)
    ensures var (s1, ok) := EnsuredFunctional(highest, s);
            var s' := Perform(highest, s, op).0;
            s' == s1.(wire := s'.wire) &&
            (s'.wire == s1.wire || (ok && match op
              case EstablishProtocol => s'.wire == RequestAll(s1.wire, [Probe]).0
              case Identify => s'.wire == RequestAll(s1.wire, [Probe, Vin]).0
              case ReadPid(pid) => s'.wire == RequestPid(s1.wire, pid).0
              case ReadBroadcast(what) => s'.wire == Exchanged(s1.wire, Functional(what)).0
              case _ => true))
  {
  }

  lemma FunctionalStep(highest: nat, s: State, op: Op)
    requires Safe(highest, s) && Clean(highest, s) && UsesFunctional(op)
    ensures var s' := Perform(highest, s, op).0; Safe(highest, s') && Clean(highest, s')
  {
    EnsuredProgress(highest, s);
    FunctionalShape(highest, s, op);
    var (s1, ok) := EnsuredFunctional(highest, s);
    if ok {
      match op
      case EstablishProtocol => RequestAllAllowed(highest, s1.wire, [Probe]);
      case Identify => RequestAllAllowed(highest, s1.wire, [Probe, Vin]);
      case ReadPid(pid) => RequestPidAllowed(highest, s1.wire, pid);
      case ReadBroadcast(what) => FunctionalAllowed(highest, s1.wire, what);
    }
  }

  lemma QuietSends(highest: nat, w: Wire, key: Key)
    requires AllowedLog(highest, w.log)
    ensures AllowedLog(highest, SentAll(w, ConfigureCommands(key)).0.log)
    ensures AllowedLog(highest, SentAll(w, RestoreCommands).0.log)
    ensures AllowedLog(highest, Exchanged(w, Targeted(key)).0.log)
  {
    SentAllAllowed(highest, w, ConfigureCommands(key));
    SentAllAllowed(highest, w, RestoreCommands);
    ExchangeObserved(highest, w, Targeted(key));
  }

  lemma CachedReadAllowed(highest: nat, s: State, key: Key, drop: bool)
    requires Safe(highest, s)
    ensures var s' := CachedRead(s, key, drop).0; Safe(highest, s') && s'.dirty
  {
    QuietSends(highest, s.wire, key);
    QuietSends(highest, Configured(s, key).0.wire, key);
  }

  lemma SelfContainedReadAllowed(highest: nat, s: State, key: Key, identification: bool)
    requires Safe(highest, s)
    ensures var s' := SelfContainedRead(s, key, identification).0; Safe(highest, s') && s'.dirty
  {
    QuietSends(highest, s.wire, key);
    var (w1, ok) := SentAll(s.wire, ConfigureCommands(key));
    QuietSends(highest, w1, key);
    var w2 := Exchanged(w1, Targeted(key)).0;
    QuietSends(highest, w2, key);
    QuietSends(highest, Exchanged(w2, Targeted(key)).0, key);
  }

  /** One operation, whatever the adapter does: the log stays allowed, a cached
      target implies the dirty flag, and the flag keeps telling the truth unless
      a direct re-initialization of a clean session fails. */
  lemma StepSafe(highest: nat, s: State, op: Op)
    requires Safe(highest, s) && (Clean(highest, s) || op.Reinitialize?)
    ensures var (s', ok) := Perform(highest, s, op);
            Safe(highest, s') && (Clean(highest, s') <==> !(op.Reinitialize? && !s.dirty && !ok))
  {
    match op
    case Reinitialize => ReinitializedProgress(highest, s);
    case RestoreFunctional => QuietSends(highest, s.wire, Key("", ""));
    case ReadTargeted(key) => CachedReadAllowed(highest, s, key, true);
    case ReadCached(key) => CachedReadAllowed(highest, s, key, false);
    case ReadMode09(key) => SelfContainedReadAllowed(highest, s, key, false);
    case ReadIdentification(key) => SelfContainedReadAllowed(highest, s, key, true);
    case _ => FunctionalStep(highest, s, op);
  }

  // ---------------------------------------------------------------------
  // Functional requests, over whole runs
  // ---------------------------------------------------------------------

  /** Sessions that never re-initialize directly, such as the session actor's. */
  lemma {:induction false} RunSafe(highest: nat, s: State, ops: seq<Op>)
    requires Safe(highest, s) && Clean(highest, s)
    requires forall i | 0 <= i < |ops| :: !ops[i].Reinitialize?
    ensures Safe(highest, RunOps(highest, s, ops)) && Clean(highest, RunOps(highest, s, ops))
    decreases |ops|
  {
    if ops != [] {
      StepSafe(highest, s, ops[0]);
      RunSafe(highest, Perform(highest, s, ops[0]).0, ops[1..]);
    }
  }

  /** The mobile core re-initializes directly but refuses every other operation
      until that succeeded. */
  function RunGuarded(highest: nat, s: State, initialized: bool, ops: seq<Op>): State
    decreases |ops|
  {
    if ops == [] then s
    else if !initialized && !ops[0].Reinitialize? then RunGuarded(highest, s, initialized, ops[1..])
    else
      var (s', ok) := Perform(highest, s, ops[0]);
      RunGuarded(highest, s', if ops[0].Reinitialize? then ok else initialized, ops[1..])
  }

  lemma {:induction false} GuardedRunSafe(highest: nat, s: State, initialized: bool, ops: seq<Op>)
    requires Safe(highest, s) && (initialized ==> Clean(highest, s))
    ensures Safe(highest, RunGuarded(highest, s, initialized, ops))
    decreases |ops|
  {
    if ops != [] {
      if initialized || ops[0].Reinitialize? {
        StepSafe(highest, s, ops[0]);
        var (s', ok) := Perform(highest, s, ops[0]);
        if ops[0].Reinitialize? {
          ReinitializedProgress(highest, s);
        }
        GuardedRunSafe(highest, s', if ops[0].Reinitialize? then ok else initialized, ops[1..]);
      } else {
        GuardedRunSafe(highest, s, initialized, ops[1..]);
      }
    }
  }
}
