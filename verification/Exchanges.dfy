/**
 * What every operation sends and when it succeeds, read off the fates of its
 * exchanges alone.
 */
module Exchanges {
  import opened Prelude
  import opened PidSupport
  import opened Adapter
  import opened ElmSession

  // ---------------------------------------------------------------------
  // Commands one after the other
  // ---------------------------------------------------------------------

  /** The outcome of the `k`-th exchange from now on. */
  function OutcomeAt(w: Wire, k: nat): Outcome {
    if k < |w.fates| then w.fates[k].outcome else TransportFailed
  }

  predicate AcceptedAt(w: Wire, k: nat) { OutcomeAt(w, k) == Text(Accepted) }

  predicate StaleAt(w: Wire, k: nat) { OutcomeAt(w, k) == Text(Stale) }

  /** The adapter after all these commands, whatever came back. */
  function After(w: Wire, commands: seq<Command>): Wire
    decreases |commands|, w
  {
    if commands == [] then w else After(Exchanged(w, commands[0]).0, commands[1..])
  }

  /** The log holds one entry for each command, with its outcome, and the fates are
      used up one by one. */
  lemma {:induction false} AfterRecords(w: Wire, commands: seq<Command>)
    ensures var w' := After(w, commands);
            |w'.log| == |w.log| + |commands| && w.log <= w'.log
            && (forall i | 0 <= i < |commands| ::
                  w'.log[|w.log| + i].command == commands[i] && w'.log[|w.log| + i].outcome == OutcomeAt(w, i))
            && (forall k: nat :: OutcomeAt(w', k) == OutcomeAt(w, |commands| + k))
    decreases |commands|
  {
    if commands != [] {
      var w1 := Exchanged(w, commands[0]).0;
      var w' := After(w1, commands[1..]);
      AfterRecords(w1, commands[1..]);
      forall i | 0 <= i < |commands|
        ensures w'.log[|w.log| + i].command == commands[i] && w'.log[|w.log| + i].outcome == OutcomeAt(w, i)
      {
        if i > 0 {
          assert w'.log[|w1.log| + (i - 1)].command == commands[1..][i - 1];
        } else {
          assert w'.log[|w.log|] == w1.log[|w.log|];
        }
      }
    }
  }

  lemma {:induction false} AfterTogether(w: Wire, a: seq<Command>, b: seq<Command>)
    ensures After(w, a + b) == After(After(w, a), b)
    decreases |a|
  {
    if a == [] {
      assert a + b == b;
    } else {
      assert (a + b)[1..] == a[1..] + b;
      AfterTogether(Exchanged(w, a[0]).0, a[1..], b);
    }
  }

  lemma AfterOne(w: Wire, c: Command)
    ensures After(w, [c]) == Exchanged(w, c).0 && Exchanged(w, c).1 == OutcomeAt(w, 0)
  {
    assert [c][1..] == [];
  }

  lemma NextOutcome(w: Wire, c: Command, k: nat)
    ensures OutcomeAt(Exchanged(w, c).0, k) == OutcomeAt(w, k + 1)
  {
  }

  /** Two commands of which the second needs the first. */
  function Pair(w: Wire, k: nat, a: Command, b: Command): seq<Command> {
    if AcceptedAt(w, k) then [a, b] else [a]
  }

  lemma SentPair(w: Wire, a: Command, b: Command)
    ensures SentAll(w, [a, b]) == (After(w, Pair(w, 0, a, b)), AcceptedAt(w, 0) && AcceptedAt(w, 1))
  {
    var w1 := Exchanged(w, a).0;
    assert [a, b][1..] == [b] && [b][1..] == [];
    AfterOne(w, a);
    AfterOne(w1, b);
    NextOutcome(w, a, 0);
    assert SentAll(w1, [b]) == (After(w1, [b]), AcceptedAt(w1, 0));
    assert After(w, [a, b]) == After(w1, [b]);
  }

  /** The first `k` of some commands were sent: all before the last one were
      acknowledged, and the last one was not unless it is the last of all. */
  predicate Stops(w: Wire, commands: seq<Command>, k: nat) {
    1 <= k <= |commands| && (forall i | 0 <= i < k - 1 :: AcceptedAt(w, i)) && (k < |commands| ==> !AcceptedAt(w, k - 1))
  }

  lemma {:induction false} SentUntil(w: Wire, commands: seq<Command>) returns (k: nat)
    requires commands != []
    ensures Stops(w, commands, k)
    ensures SentAll(w, commands) == (After(w, commands[..k]), k == |commands| && AcceptedAt(w, k - 1))
    decreases |commands|
  {
    var w1 := Exchanged(w, commands[0]).0;
    AfterOne(w, commands[0]);
    if !AcceptedAt(w, 0) || |commands| == 1 {
      k := 1;
      assert commands[..1] == [commands[0]];
      assert AcceptedAt(w, 0) ==> commands[1..] == [];
    } else {
      k := SentUntil(w1, commands[1..]);
      StopsMore(w, commands, k);
      NextOutcome(w, commands[0], k - 1);
      assert commands[..k + 1][1..] == commands[1..][..k] && commands[..k + 1][0] == commands[0];
      k := k + 1;
    }
  }

  lemma StopsMore(w: Wire, commands: seq<Command>, k: nat)
    requires commands != [] && AcceptedAt(w, 0) && Stops(Exchanged(w, commands[0]).0, commands[1..], k)
    ensures Stops(w, commands, k + 1)
  {
    forall i | 0 <= i < k ensures AcceptedAt(w, i) {
      if i > 0 {
        NextOutcome(w, commands[0], i - 1);
        assert AcceptedAt(Exchanged(w, commands[0]).0, i - 1);
      }
    }
    NextOutcome(w, commands[0], k - 1);
  }

  // ---------------------------------------------------------------------
  // Functional operations on a session that is not marked dirty
  // ---------------------------------------------------------------------

  /** The protocol probe succeeds exactly when its request is accepted. */
  lemma EstablishExact(highest: nat, s: State)
    requires !s.dirty
    ensures Perform(highest, s, EstablishProtocol) ==
            (s.(wire := After(s.wire, [Functional(Probe)])), AcceptedAt(s.wire, 0))
  {
    RequestOne(s.wire, Probe);
  }

  lemma RequestOne(w: Wire, what: Broadcast)
    ensures RequestAll(w, [what]) == (After(w, [Functional(what)]), AcceptedAt(w, 0))
  {
    AfterOne(w, Functional(what));
    assert [what][1..] == [] && RequestAll(After(w, [Functional(what)]), []) == (After(w, [Functional(what)]), true);
  }

  /** Identification needs the probe and then the VIN. */
  lemma IdentifyExact(highest: nat, s: State)
    requires !s.dirty
    ensures Perform(highest, s, Identify) ==
            (s.(wire := After(s.wire, Pair(s.wire, 0, Functional(Probe), Functional(Vin)))),
             AcceptedAt(s.wire, 0) && AcceptedAt(s.wire, 1))
  {
    var w1 := Exchanged(s.wire, Functional(Probe)).0;
    assert [Probe, Vin][1..] == [Vin] && [Vin][1..] == [];
    AfterOne(s.wire, Functional(Probe));
    RequestOne(w1, Vin);
    NextOutcome(s.wire, Functional(Probe), 0);
    var pair := [Functional(Probe), Functional(Vin)];
    assert pair[1..] == [Functional(Vin)] && After(s.wire, pair) == After(w1, [Functional(Vin)]);
  }

  /** A PID is asked for only if it is advertised; a stale first answer is asked for
      once more. The read succeeds exactly when the first answer is accepted, or is
      stale and the second one is accepted. */
  lemma ReadPidExact(highest: nat, s: State, pid: nat)
    requires !s.dirty
    ensures var request, w := Functional(Pid(pid)), s.wire;
            Perform(highest, s, ReadPid(pid)) ==
            if Status(s.support, pid) != Supported then (s, false)
            else if StaleAt(w, 0) then (s.(wire := After(w, [request, request])), AcceptedAt(w, 1))
            else (s.(wire := After(w, [request])), AcceptedAt(w, 0))
  {
    var request := Functional(Pid(pid));
    var w1 := Exchanged(s.wire, request).0;
    AfterOne(s.wire, request);
    AfterOne(w1, request);
    NextOutcome(s.wire, request, 0);
    assert [request, request][1..] == [request];
    assert After(s.wire, [request, request]) == After(w1, [request]);
  }

  /** Trouble codes and serials succeed with any parsed answer. */
  lemma ReadBroadcastExact(highest: nat, s: State, what: Broadcast)
    requires !s.dirty
    ensures Perform(highest, s, ReadBroadcast(what)) ==
            (s.(wire := After(s.wire, [Functional(what)])), OutcomeAt(s.wire, 0).Text?)
  {
    AfterOne(s.wire, Functional(what));
  }

  /** On a session marked dirty a functional operation re-initializes first, and is
      carried out only if that succeeds. */
  lemma DirtyReinitializes(highest: nat, s: State, op: Op)
    requires s.dirty && UsesFunctional(op)
    ensures var (s1, ok) := Perform(highest, s, Reinitialize);
            Perform(highest, s, op) == if ok then Perform(highest, s1, op) else (s1, false)
    ensures Perform(highest, s, Reinitialize).1 ==> !Perform(highest, s, Reinitialize).0.dirty
  {
  }

  /** A functional PID read returns true if and only if functional addressing is
      established, the PID is advertised, and the first answer is accepted or is
      stale and the second one is accepted. */
  lemma ReadPidSucceedsIff(highest: nat, s: State, pid: nat)
    ensures var (s1, ready) := if s.dirty then Perform(highest, s, Reinitialize) else (s, true);
            Perform(highest, s, ReadPid(pid)).1 <==>
            ready && Status(s1.support, pid) == Supported
            && (AcceptedAt(s1.wire, 0) || (StaleAt(s1.wire, 0) && AcceptedAt(s1.wire, 1)))
  {
    if s.dirty {
      DirtyReinitializes(highest, s, ReadPid(pid));
    }
    var s1 := if s.dirty then Perform(highest, s, Reinitialize).0 else s;
    if !s1.dirty {
      ReadPidExact(highest, s1, pid);
    }
  }

  // ---------------------------------------------------------------------
  // Re-initialization
  // ---------------------------------------------------------------------

  /** Reset and the five setup commands. */
  const Setups := [Reset, Setup(0), Setup(1), Setup(2), Setup(3), Setup(4)]

  /** The requests for pages `from` to `last`. */
  function PageCommands(from: nat, last: nat): (commands: seq<Command>)
    requires from <= last
    ensures |commands| == last - from + 1
    ensures forall i | 0 <= i < |commands| :: commands[i] == SupportPage(32 * (from + i))
  {
    seq(last - from + 1, i requires 0 <= i < last - from + 1 => SupportPage(32 * (from + i)))
  }

  predicate PageAt(w: Wire, k: nat) { OutcomeAt(w, k).Text? && OutcomeAt(w, k).reply.Page? }

  predicate Advertising(highest: nat, page: nat, outcome: Outcome) {
    outcome.Text? && outcome.reply.Page? && NextPage(highest, 32 * page, Merge(outcome.reply.responses)).Some?
  }

  /** With page `from` asked for first, page `page` is answered and advertises the
      next one. */
  predicate Advances(w: Wire, highest: nat, from: nat, page: nat)
    requires from <= page
  {
    Advertising(highest, page, OutcomeAt(w, page - from))
  }

  /** Every page before the last one advertises the next, the last one does not. */
  predicate EndsAt(w: Wire, highest: nat, from: nat, last: nat) {
    from <= last < 8
    && (forall page | from <= page < last :: Advances(w, highest, from, page))
    && !Advances(w, highest, from, last)
  }

  lemma EndsLater(w: Wire, highest: nat, from: nat, last: nat)
    requires from < 7 && Advances(w, highest, from, from)
    requires EndsAt(Exchanged(w, SupportPage(32 * from)).0, highest, from + 1, last)
    ensures EndsAt(w, highest, from, last)
  {
    var w1 := Exchanged(w, SupportPage(32 * from)).0;
    forall page | from < page <= last
      ensures Advances(w, highest, from, page) <==> Advances(w1, highest, from + 1, page)
    {
      NextOutcome(w, SupportPage(32 * from), page - (from + 1));
    }
  }

  /** One request of a discovery. */
  lemma DiscoverStep(w: Wire, highest: nat, page: nat, s: Support)
    requires page < 8
    ensures var w1 := After(w, [SupportPage(32 * page)]);
            if Advances(w, highest, page, page) then
              page < 7 && PageAt(w, 0) && Discover(w, highest, 32 * page, s) ==
              Discover(w1, highest, 32 * (page + 1), AddPage(s, 32 * page, OutcomeAt(w, 0).reply.responses))
            else
              Discover(w, highest, 32 * page, s).0 == w1
              && (Discover(w, highest, 32 * page, s).1.Some? <==> PageAt(w, 0))
  {
    AfterOne(w, SupportPage(32 * page));
  }

  /** A discovery that asked for the pages `from` to `last`, and found support data
      exactly if the last of them was answered by a page. */
  predicate Asked(w: Wire, from: nat, last: nat, d: (Wire, Option<Support>)) {
    from <= last && d.0 == After(w, PageCommands(from, last)) && (d.1.Some? <==> PageAt(w, last - from))
  }

  lemma AskedMore(w: Wire, from: nat, last: nat, d: (Wire, Option<Support>))
    requires Asked(Exchanged(w, SupportPage(32 * from)).0, from + 1, last, d)
    ensures Asked(w, from, last, d)
  {
    var c := SupportPage(32 * from);
    NextOutcome(w, c, last - (from + 1));
    assert PageCommands(from, last)[1..] == PageCommands(from + 1, last);
  }

  lemma AskedOnce(w: Wire, from: nat, d: (Wire, Option<Support>))
    requires d.0 == After(w, [SupportPage(32 * from)]) && (d.1.Some? <==> PageAt(w, 0))
    ensures Asked(w, from, from, d)
  {
    assert PageCommands(from, from) == [SupportPage(32 * from)];
  }

  /** The requests of a discovery from page `from` on. */
  lemma {:induction false} DiscoverExact(w: Wire, highest: nat, from: nat, s: Support) returns (last: nat)
    requires from < 8
    ensures EndsAt(w, highest, from, last)
    ensures Asked(w, from, last, Discover(w, highest, 32 * from, s))
    decreases 8 - from
  {
    var c := SupportPage(32 * from);
    DiscoverStep(w, highest, from, s);
    AfterOne(w, c);
    if Advances(w, highest, from, from) {
      var w1, s1 := Exchanged(w, c).0, AddPage(s, 32 * from, OutcomeAt(w, 0).reply.responses);
      last := DiscoverExact(w1, highest, from + 1, s1);
      EndsLater(w, highest, from, last);
      AskedMore(w, from, last, Discover(w1, highest, 32 * (from + 1), s1));
    } else {
      last := from;
      AskedOnce(w, from, Discover(w, highest, 32 * from, s));
    }
  }

  /** Without all six acknowledged, re-initialization fails where it stopped and
      changes nothing but the adapter; with them, the support pages decide. */
  lemma ReinitializeExact(highest: nat, s: State) returns (k: nat)
    ensures Stops(s.wire, Setups, k)
    ensures var ready, w1 := k == 6 && AcceptedAt(s.wire, 5), After(s.wire, Setups[..k]);
            var (w2, found) := Discover(w1, highest, 0, NoSupport);
            Perform(highest, s, Reinitialize) ==
            if !ready then (s.(wire := w1), false)
            else if found.None? then (s.(wire := w2), false)
            else (State(w2, found.value, false, None), true)
  {
    assert InitCommands == Setups;
    k := SentUntil(s.wire, InitCommands);
  }

  // ---------------------------------------------------------------------
  // Targeted operations
  // ---------------------------------------------------------------------

  function SetsUp(w: Wire, key: Key): seq<Command> { Pair(w, 0, SetHeader(key.header), SetFilter(key.filter)) }

  predicate SetUp(w: Wire) { AcceptedAt(w, 0) && AcceptedAt(w, 1) }

  lemma ConfigureExact(w: Wire, key: Key)
    ensures SentAll(w, ConfigureCommands(key)) == (After(w, SetsUp(w, key)), SetUp(w))
  {
    SentPair(w, SetHeader(key.header), SetFilter(key.filter));
  }

  /** Leaving targeted addressing: two commands; the cache is empty and the session
      dirty afterwards in any case. */
  lemma RestoreExact(highest: nat, s: State)
    ensures Perform(highest, s, RestoreFunctional) ==
            (State(After(s.wire, Pair(s.wire, 0, SetHeader("7DF"), ClearFilter)), s.support, true, None),
             AcceptedAt(s.wire, 0) && AcceptedAt(s.wire, 1))
  {
    SentPair(s.wire, SetHeader("7DF"), ClearFilter);
  }

  /** After a failed exchange the target is forgotten; a single Mode 01 read forgets
      it after an unparsable answer, too. */
  predicate Forgets(outcome: Outcome, single: bool) {
    !outcome.Text? || (single && outcome == Text(Unparsable))
  }

  /** A read of the cached target is one exchange. */
  lemma CachedExact(highest: nat, s: State, key: Key, single: bool)
    requires s.configured == Some(key)
    ensures var op := if single then ReadTargeted(key) else ReadCached(key);
            Perform(highest, s, op) ==
            (State(After(s.wire, [Targeted(key)]), s.support, true,
                   if Forgets(OutcomeAt(s.wire, 0), single) then None else Some(key)),
             AcceptedAt(s.wire, 0))
  {
    AfterOne(s.wire, Targeted(key));
  }

  /** A read of another target sets the adapter up first. */
  lemma UncachedExact(highest: nat, s: State, key: Key, single: bool)
    requires s.configured != Some(key)
    ensures var op, w := if single then ReadTargeted(key) else ReadCached(key), s.wire;
            Perform(highest, s, op) ==
            if !SetUp(w) then (State(After(w, SetsUp(w, key)), s.support, true, None), false)
            else (State(After(w, SetsUp(w, key) + [Targeted(key)]), s.support, true,
                        if Forgets(OutcomeAt(w, 2), single) then None else Some(key)),
                  AcceptedAt(w, 2))
  {
    var w := s.wire;
    ConfigureExact(w, key);
    var w1 := After(w, SetsUp(w, key));
    AfterRecords(w, SetsUp(w, key));
    AfterOne(w1, Targeted(key));
    AfterTogether(w, SetsUp(w, key), [Targeted(key)]);
    assert OutcomeAt(w1, 0) == OutcomeAt(w, |SetsUp(w, key)| + 0);
  }

  /** The requests of a self-contained read: none if the setup failed, two if an
      identification read gets a stale answer first. */
  function SelfReads(w: Wire, key: Key, identification: bool): seq<Command> {
    if !SetUp(w) then []
    else if identification && StaleAt(w, 2) then [Targeted(key), Targeted(key)]
    else [Targeted(key)]
  }

  function SelfCommands(w: Wire, key: Key, identification: bool): seq<Command> {
    var before := SetsUp(w, key) + SelfReads(w, key, identification);
    before + Pair(w, |before|, SetHeader("7DF"), ClearFilter)
  }

  /** A self-contained read leaves targeted addressing on every path. It succeeds
      exactly when setup and restoring are acknowledged and the last answer is
      accepted; identification takes any parsed answer and asks a stale one once
      more. */
  lemma SelfContainedExact(highest: nat, s: State, key: Key, identification: bool)
    ensures var op, w := if identification then ReadIdentification(key) else ReadMode09(key), s.wire;
            var n := |SetsUp(w, key) + SelfReads(w, key, identification)|;
            Perform(highest, s, op) ==
            (State(After(w, SelfCommands(w, key, identification)), s.support, true, None),
             SetUp(w) && (if identification then OutcomeAt(w, n - 1).Text? else AcceptedAt(w, n - 1))
             && AcceptedAt(w, n) && AcceptedAt(w, n + 1))
  {
    if SetUp(s.wire) {
      SelfAfterSetup(s, key, identification);
    } else {
      SelfWithoutSetup(s, key, identification);
      assert SelfCommands(s.wire, key, identification) ==
             SetsUp(s.wire, key) + Pair(s.wire, |SetsUp(s.wire, key)|, SetHeader("7DF"), ClearFilter);
    }
  }

  lemma SelfWithoutSetup(s: State, key: Key, identification: bool)
    requires !SetUp(s.wire)
    ensures var w, setup := s.wire, SetsUp(s.wire, key);
            SelfContainedRead(s, key, identification) ==
            (State(After(w, setup + Pair(w, |setup|, SetHeader("7DF"), ClearFilter)), s.support, true, None), false)
  {
    ConfigureExact(s.wire, key);
    RestoresAfter(s.wire, SetsUp(s.wire, key));
  }

  lemma SelfAfterSetup(s: State, key: Key, identification: bool)
    requires SetUp(s.wire)
    ensures var w := s.wire;
            var n := |SetsUp(w, key) + SelfReads(w, key, identification)|;
            SelfContainedRead(s, key, identification) ==
            (State(After(w, SelfCommands(w, key, identification)), s.support, true, None),
             (if identification then OutcomeAt(w, n - 1).Text? else AcceptedAt(w, n - 1))
             && AcceptedAt(w, n) && AcceptedAt(w, n + 1))
  {
    ConfigureExact(s.wire, key);
    SelfReadsExact(s.wire, key, identification);
    RestoresAfter(s.wire, SetsUp(s.wire, key) + SelfReads(s.wire, key, identification));
  }

  lemma RestoresAfter(w: Wire, before: seq<Command>)
    ensures SentAll(After(w, before), RestoreCommands) ==
            (After(w, before + Pair(w, |before|, SetHeader("7DF"), ClearFilter)),
             AcceptedAt(w, |before|) && AcceptedAt(w, |before| + 1))
  {
    var w2 := After(w, before);
    AfterRecords(w, before);
    SentPair(w2, SetHeader("7DF"), ClearFilter);
    assert OutcomeAt(w2, 0) == OutcomeAt(w, |before| + 0) && OutcomeAt(w2, 1) == OutcomeAt(w, |before| + 1);
    AfterTogether(w, before, Pair(w, |before|, SetHeader("7DF"), ClearFilter));
  }

  /** The requests themselves. */
  lemma SelfReadsExact(w: Wire, key: Key, identification: bool)
    ensures SetUp(w) ==>
            var w1, asked := After(w, SetsUp(w, key)), SelfReads(w, key, identification);
            var (w2, first) := Exchanged(w1, Targeted(key));
            var (w3, outcome) := if identification && first == Text(Stale) then Exchanged(w2, Targeted(key)) else (w2, first);
            w3 == After(w, SetsUp(w, key) + asked) && outcome == OutcomeAt(w, 2 + |asked| - 1)
  {
    if SetUp(w) {
      var setup, asked := SetsUp(w, key), SelfReads(w, key, identification);
      var w1 := After(w, setup);
      AfterRecords(w, setup);
      assert OutcomeAt(w1, 0) == OutcomeAt(w, 2 + 0) && OutcomeAt(w1, 1) == OutcomeAt(w, 2 + 1);
      AfterOne(w1, Targeted(key));
      var w2 := Exchanged(w1, Targeted(key)).0;
      AfterOne(w2, Targeted(key));
      NextOutcome(w1, Targeted(key), 0);
      AfterTogether(w, setup, asked);
      assert [Targeted(key), Targeted(key)][1..] == [Targeted(key)];
      assert After(w1, [Targeted(key), Targeted(key)]) == After(w2, [Targeted(key)]);
    }
  }

  // ---------------------------------------------------------------------
  // What the adapter is set to afterwards
  // ---------------------------------------------------------------------

  /** Functional header, no filter. */
  const Restored := Wiring(Some("7DF"), None)

  lemma PairWires(w: Wire)
    requires AcceptedAt(w, 0) && AcceptedAt(w, 1)
    ensures After(w, Pair(w, 0, SetHeader("7DF"), ClearFilter)).wiring == Restored
  {
    var w1 := Exchanged(w, SetHeader("7DF")).0;
    NextOutcome(w, SetHeader("7DF"), 0);
    assert [SetHeader("7DF"), ClearFilter][1..] == [ClearFilter] && [ClearFilter][1..] == [];
    assert After(w, [SetHeader("7DF"), ClearFilter]) == After(w1, [ClearFilter]);
    AfterOne(w1, ClearFilter);
  }

  /** Restoring that succeeds leaves the functional header and no filter. */
  lemma RestoreWires(highest: nat, s: State)
    requires Perform(highest, s, RestoreFunctional).1
    ensures Perform(highest, s, RestoreFunctional).0.wire.wiring == Restored
  {
    RestoreExact(highest, s);
    PairWires(s.wire);
  }

  /** So does a self-contained read that succeeds. */
  lemma SelfContainedWires(highest: nat, s: State, key: Key, identification: bool)
    requires var op := if identification then ReadIdentification(key) else ReadMode09(key);
             Perform(highest, s, op).1
    ensures var op := if identification then ReadIdentification(key) else ReadMode09(key);
            Perform(highest, s, op).0.wire.wiring == Restored
  {
    SelfContainedExact(highest, s, key, identification);
    var w := s.wire;
    var before := SetsUp(w, key) + SelfReads(w, key, identification);
    AfterRecords(w, before);
    var w2 := After(w, before);
    assert OutcomeAt(w2, 0) == OutcomeAt(w, |before| + 0) && OutcomeAt(w2, 1) == OutcomeAt(w, |before| + 1);
    PairWires(w2);
    AfterTogether(w, before, Pair(w, |before|, SetHeader("7DF"), ClearFilter));
  }
}
