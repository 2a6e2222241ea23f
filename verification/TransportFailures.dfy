/**
 * The tap around the adapter records exactly the transport failures of an
 * operation, and none of them can hide: the operation fails.
 */
module TransportFailures {
  import opened Prelude
  import opened PidSupport
  import opened Adapter
  import opened ElmSession

  /** Some exchange between `w` and the later `w'` failed at the transport. */
  predicate NewFailure(w: Wire, w': Wire) {
    exists i | |w.log| <= i < |w'.log| :: w'.log[i].outcome.TransportFailed?
  }

  /** `w'` is later than `w`, and the tap has noted every failure in between. */
  predicate Heard(w: Wire, w': Wire) {
    w.log <= w'.log && (w'.tap <==> w.tap || NewFailure(w, w'))
  }

  lemma HeardTwice(w: Wire, w1: Wire, w2: Wire)
    requires Heard(w, w1) && Heard(w1, w2)
    ensures Heard(w, w2)
  {
    assert forall i | 0 <= i < |w1.log| :: w2.log[i] == w1.log[i];
    if i :| |w.log| <= i < |w1.log| && w1.log[i].outcome.TransportFailed? {
      assert w2.log[i].outcome.TransportFailed?;
    }
  }

  lemma ExchangeHeard(w: Wire, c: Command)
    ensures var (w', outcome) := Exchanged(w, c);
            Heard(w, w') && (!outcome.TransportFailed? ==> w'.tap == w.tap)
  {
    var (w', outcome) := Exchanged(w, c);
    assert w'.log[|w.log|].outcome == outcome;
  }

  lemma {:induction false} SentAllHeard(w: Wire, commands: seq<Command>)
    ensures var (w', ok) := SentAll(w, commands); Heard(w, w') && (ok ==> w'.tap == w.tap)
    decreases |commands|
  {
    if commands != [] {
      ExchangeHeard(w, commands[0]);
      var w1 := Exchanged(w, commands[0]).0;
      SentAllHeard(w1, commands[1..]);
      HeardTwice(w, w1, SentAll(w1, commands[1..]).0);
    }
  }

  lemma {:induction false} RequestAllHeard(w: Wire, requests: seq<Broadcast>)
    ensures var (w', ok) := RequestAll(w, requests); Heard(w, w') && (ok ==> w'.tap == w.tap)
    decreases |requests|
  {
    if requests != [] {
      ExchangeHeard(w, Functional(requests[0]));
      var w1 := Exchanged(w, Functional(requests[0])).0;
      RequestAllHeard(w1, requests[1..]);
      HeardTwice(w, w1, RequestAll(w1, requests[1..]).0);
    }
  }

  lemma {:induction false} DiscoverHeard(w: Wire, highest: nat, page: nat, s: Support)
    requires page <= 255
    ensures var (w', found) := Discover(w, highest, page, s); Heard(w, w') && (found.Some? ==> w'.tap == w.tap)
    decreases 256 - page
  {
    ExchangeHeard(w, SupportPage(page));
    var (w1, outcome) := Exchanged(w, SupportPage(page));
    if outcome.Text? && outcome.reply.Page? {
      var next := NextPage(highest, page, Merge(outcome.reply.responses));
      if next.Some? {
        var s1 := AddPage(s, page, outcome.reply.responses);
        DiscoverHeard(w1, highest, next.value, s1);
        HeardTwice(w, w1, Discover(w1, highest, next.value, s1).0);
      }
    }
  }

  lemma ReinitializedHeard(highest: nat, s: State)
    ensures var (s', ok) := Reinitialized(highest, s);
            Heard(s.wire, s'.wire) && (ok ==> s'.wire.tap == s.wire.tap)
  {
    SentAllHeard(s.wire, InitCommands);
    var (w1, ok) := SentAll(s.wire, InitCommands);
    if ok {
      DiscoverHeard(w1, highest, 0, NoSupport);
      HeardTwice(s.wire, w1, Discover(w1, highest, 0, NoSupport).0);
    }
  }

  lemma RequestPidHeard(w: Wire, pid: nat)
    ensures var (w', ok) := RequestPid(w, pid); Heard(w, w') && (ok ==> w'.tap == w.tap)
  {
    var c := Functional(Pid(pid));
    ExchangeHeard(w, c);
    var w1 := Exchanged(w, c).0;
    ExchangeHeard(w1, c);
    HeardTwice(w, w1, Exchanged(w1, c).0);
  }

  lemma FunctionalHeard(highest: nat, s: State, op: Op)
    requires UsesFunctional(op)
    ensures var (s', ok) := Perform(highest, s, op);
            Heard(s.wire, s'.wire) && (ok ==> s'.wire.tap == s.wire.tap)
  {
    ReinitializedHeard(highest, s);
    var (s1, ok) := EnsuredFunctional(highest, s);
    assert Heard(s.wire, s1.wire);
    if ok {
      match op {
        case EstablishProtocol => RequestAllHeard(s1.wire, [Probe]);
        case Identify => RequestAllHeard(s1.wire, [Probe, Vin]);
        case ReadPid(pid) => RequestPidHeard(s1.wire, pid);
        case ReadBroadcast(what) => ExchangeHeard(s1.wire, Functional(what));
      }
      HeardTwice(s.wire, s1.wire, Perform(highest, s, op).0.wire);
    }
  }

  lemma CachedReadHeard(s: State, key: Key, drop: bool)
    ensures var (s', ok) := CachedRead(s, key, drop);
            Heard(s.wire, s'.wire) && (ok ==> s'.wire.tap == s.wire.tap)
  {
    SentAllHeard(s.wire, ConfigureCommands(key));
    var w1 := Configured(s, key).0.wire;
    assert Heard(s.wire, w1);
    ExchangeHeard(w1, Targeted(key));
    HeardTwice(s.wire, w1, Exchanged(w1, Targeted(key)).0);
  }

  lemma SelfContainedReadHeard(s: State, key: Key, identification: bool)
    ensures var (s', ok) := SelfContainedRead(s, key, identification);
            Heard(s.wire, s'.wire) && (ok ==> s'.wire.tap == s.wire.tap)
  {
    var w, c := s.wire, Targeted(key);
    SentAllHeard(w, ConfigureCommands(key));
    var (w1, ok) := SentAll(w, ConfigureCommands(key));
    SentAllHeard(w1, RestoreCommands);
    HeardTwice(w, w1, SentAll(w1, RestoreCommands).0);
    ExchangeHeard(w1, c);
    var (w2, first) := Exchanged(w1, c);
    HeardTwice(w, w1, w2);
    SentAllHeard(w2, RestoreCommands);
    HeardTwice(w, w2, SentAll(w2, RestoreCommands).0);
    ExchangeHeard(w2, c);
    var w3 := Exchanged(w2, c).0;
    HeardTwice(w, w2, w3);
    SentAllHeard(w3, RestoreCommands);
    HeardTwice(w, w3, SentAll(w3, RestoreCommands).0);
  }

  /** Any transport failure inside an operation makes the operation fail, and
      the tap is set exactly when there was one. */
  lemma OperationHeard(highest: nat, s: State, op: Op)
    ensures var (s', ok) := Perform(highest, s, op);
            Heard(s.wire, s'.wire) && (ok ==> s'.wire.tap == s.wire.tap)
  {
    match op
    case Reinitialize => ReinitializedHeard(highest, s);
    case RestoreFunctional => SentAllHeard(s.wire, RestoreCommands);
    case ReadTargeted(key) => CachedReadHeard(s, key, true);
    case ReadCached(key) => CachedReadHeard(s, key, false);
    case ReadMode09(key) => SelfContainedReadHeard(s, key, false);
    case ReadIdentification(key) => SelfContainedReadHeard(s, key, true);
    case _ => FunctionalHeard(highest, s, op);
  }
}
