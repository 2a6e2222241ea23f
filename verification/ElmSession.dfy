/**
 * The session over one adapter: it caches which target the adapter is set to,
 * and that functional addressing must be re-established after targeted use.
 * Every operation is a method proved against a function on session states.
 */
module ElmSession {
  import opened Prelude
  import opened PidSupport
  import opened Adapter

  datatype Op =
    | Reinitialize
    | RestoreFunctional
    | EstablishProtocol               // also the functional support validation
    | Identify
    | ReadPid(pid: nat)
    | ReadBroadcast(what: Broadcast)  // stored trouble codes, functional ECU serials
    | ReadTargeted(key: Key)
    | ReadCached(key: Key)            // multi-PID reads, DID reads, UDS session control
    | ReadMode09(key: Key)
    | ReadIdentification(key: Key)

  datatype State = State(wire: Wire, support: Support, dirty: bool, configured: Option<Key>)

  const NoSupport := Support([], [])

  // ---------------------------------------------------------------------
  // What the operations compute
  // ---------------------------------------------------------------------

  /** Support pages from `page` on, or None after the first unusable reply. */
  function Discover(w: Wire, highest: nat, page: nat, s: Support): (Wire, Option<Support>)
    requires page <= 255
    decreases 256 - page, w
  {
    var (w', outcome) := Exchanged(w, SupportPage(page));
    if !(outcome.Text? && outcome.reply.Page?) then (w', None)
    else
      var s' := AddPage(s, page, outcome.reply.responses);
      match NextPage(highest, page, Merge(outcome.reply.responses))
      case None => (w', Some(s'))
      case Some(next) => Discover(w', highest, next, s')
  }

  function Reinitialized(highest: nat, s: State): (State, bool) {
    var (w1, ok) := SentAll(s.wire, InitCommands);
    if !ok then (s.(wire := w1), false)
    else
      var (w2, support) := Discover(w1, highest, 0, NoSupport);
      match support
      case None => (s.(wire := w2), false)
      case Some(pages) => (State(w2, pages, false, None), true)
  }

  function EnsuredFunctional(highest: nat, s: State): (State, bool) {
    if s.dirty then Reinitialized(highest, s) else (s, true)
  }

  /** Functional requests in order until one is not usable. */
  function RequestAll(w: Wire, requests: seq<Broadcast>): (Wire, bool)
    decreases |requests|, w
  {
    if requests == [] then (w, true)
    else
      var (w', outcome) := Exchanged(w, Functional(requests[0]));
      if outcome == Text(Accepted) then RequestAll(w', requests[1..]) else (w', false)
  }

  /** A functional read; a stale or conflicting answer is asked for once more. */
  function RequestPid(w: Wire, pid: nat): (Wire, bool) {
    var (w1, first) := Exchanged(w, Functional(Pid(pid)));
    if first != Text(Stale) then (w1, first == Text(Accepted))
    else
      var (w2, second) := Exchanged(w1, Functional(Pid(pid)));
      (w2, second == Text(Accepted))
  }

  /** Configure the adapter for `key` unless the cache says it already is. */
  function Configured(s: State, key: Key): (State, bool) {
    var s1 := s.(dirty := true);
    if s1.configured == Some(key) then (s1, true)
    else
      var (w, ok) := SentAll(s1.wire, ConfigureCommands(key));
      (s1.(wire := w, configured := if ok then Some(key) else None), ok)
  }

  /** A read that keeps the target configured. The cache is dropped when the
      exchange fails and, for single Mode 01 reads, when the reply is unparsable. */
  function CachedRead(s: State, key: Key, dropUnparsable: bool): (State, bool) {
    var (s1, ok) := Configured(s, key);
    if !ok then (s1, false)
    else
      var (w, outcome) := Exchanged(s1.wire, Targeted(key));
      var drop := !outcome.Text? || (dropUnparsable && outcome.reply.Unparsable?);
      (s1.(wire := w, configured := if drop then None else s1.configured), outcome == Text(Accepted))
  }

  /** A read that configures its target and restores functional addressing
      itself. Identification reads retry a stale answer once and hand any parsed
      answer to their classifier. */
  function SelfContainedRead(s: State, key: Key, identification: bool): (State, bool) {
    var s1 := s.(dirty := true, configured := None);
    var (w1, ok) := SentAll(s1.wire, ConfigureCommands(key));
    if !ok then
      var (w2, _) := SentAll(w1, RestoreCommands);
      (s1.(wire := w2), false)
    else
      var (w2, first) := Exchanged(w1, Targeted(key));
      var (w3, outcome) := if identification && first == Text(Stale) then Exchanged(w2, Targeted(key)) else (w2, first);
      var read := if identification then outcome.Text? else outcome == Text(Accepted);
      var (w4, restored) := SentAll(w3, RestoreCommands);
      (s1.(wire := w4), read && restored)
  }

  function Perform(highest: nat, s: State, op: Op): (State, bool) {
    match op
    case Reinitialize => Reinitialized(highest, s)
    case RestoreFunctional =>
      var (w, ok) := SentAll(s.wire, RestoreCommands);
      (s.(wire := w, dirty := true, configured := None), ok)
    case EstablishProtocol =>
      var (s1, ok) := EnsuredFunctional(highest, s);
      if !ok then (s1, false) else var (w, done) := RequestAll(s1.wire, [Probe]); (s1.(wire := w), done)
    case Identify =>
      var (s1, ok) := EnsuredFunctional(highest, s);
      if !ok then (s1, false) else var (w, done) := RequestAll(s1.wire, [Probe, Vin]); (s1.(wire := w), done)
    case ReadPid(pid) =>
      var (s1, ok) := EnsuredFunctional(highest, s);
      if !ok || Status(s1.support, pid) != Supported then (s1, false)
      else var (w, done) := RequestPid(s1.wire, pid); (s1.(wire := w), done)
    case ReadBroadcast(what) =>
      var (s1, ok) := EnsuredFunctional(highest, s);
      if !ok then (s1, false)
      else var (w, outcome) := Exchanged(s1.wire, Functional(what)); (s1.(wire := w), outcome.Text?)
    case ReadTargeted(key) => CachedRead(s, key, true)
    case ReadCached(key) => CachedRead(s, key, false)
    case ReadMode09(key) => SelfContainedRead(s, key, false)
    case ReadIdentification(key) => SelfContainedRead(s, key, true)
  }

  /** Operations that broadcast after making sure of functional addressing. */
  predicate UsesFunctional(op: Op) {
    op.EstablishProtocol? || op.Identify? || op.ReadPid? || op.ReadBroadcast?
  }

  function RunOps(highest: nat, s: State, ops: seq<Op>): State
    decreases |ops|
  {
    if ops == [] then s else RunOps(highest, Perform(highest, s, ops[0]).0, ops[1..])
  }

  // ---------------------------------------------------------------------
  // The session object
  // ---------------------------------------------------------------------

  class ElmSession {
    const exchange: HealthTap
    const highest: nat
    var supported: Support
    var functionalDirty: bool
    var configuredTarget: Option<Key>

    constructor (exchange: HealthTap, highest: nat)
      ensures this.exchange == exchange && this.highest == highest
      ensures Current() == State(exchange.State(), NoSupport, false, None)
    {
      this.exchange, this.highest := exchange, highest;
      supported, functionalDirty, configuredTarget := NoSupport, false, None;
    }

    function Current(): State
      reads this, exchange
    {
      State(exchange.State(), supported, functionalDirty, configuredTarget)
    }

    method DiscoverSupport() returns (ok: bool)
      modifies this, exchange
      ensures var (w, s) := Discover(old(exchange.State()), highest, 0, NoSupport);
              exchange.State() == w && ok == s.Some? &&
              supported == (if s.Some? then s.value else old(supported)) &&
              functionalDirty == old(functionalDirty) && configuredTarget == old(configuredTarget)
    {
      var found := NoSupport;
      var page := 0;
      while true
        invariant 0 <= page <= 255
        invariant supported == old(supported) && functionalDirty == old(functionalDirty)
        invariant configuredTarget == old(configuredTarget)
        invariant Discover(exchange.State(), highest, page, found) == Discover(old(exchange.State()), highest, 0, NoSupport)
        decreases 256 - page
      {
        var outcome := exchange.Exchange(SupportPage(page));
        if !(outcome.Text? && outcome.reply.Page?) {
          return false;
        }
        var bitmap := Merge(outcome.reply.responses);
        found := Support(found.pages + [bitmap], found.discovery + Recorded(page, outcome.reply.responses));
        if page >= highest {
          break;
        }
        if page + 32 > 255 {
          break;
        }
        if !HasBit(bitmap, BitmapShift(page + 32)) {
          break;
        }
        page := page + 32;
      }
      supported := found;
      ok := true;
    }

    method ReinitializeSession() returns (ok: bool)
      modifies this, exchange
      ensures (Current(), ok) == Reinitialized(highest, old(Current()))
    {
      ok := exchange.SendAll(InitCommands);
      if !ok {
        return;
      }
      ghost var ready := exchange.State();
      ok := DiscoverSupport();
      if !ok {
        assert Discover(ready, highest, 0, NoSupport) == (exchange.State(), None);
        return;
      }
      functionalDirty := false;
      configuredTarget := None;
    }

    method EnsureFunctional() returns (ok: bool)
      modifies this, exchange
      ensures (Current(), ok) == EnsuredFunctional(highest, old(Current()))
    {
      ok := true;
      if functionalDirty {
        ok := ReinitializeSession();
      }
    }

    method RestoreFunctionalAddressing() returns (ok: bool)
      modifies this, exchange
      ensures (Current(), ok) == Perform(highest, old(Current()), RestoreFunctional)
    {
      configuredTarget := None;
      functionalDirty := true;
      ok := exchange.SendAll(RestoreCommands);
    }

    /** Several functional requests, each needed for the next one. */
    method RequestFunctional(requests: seq<Broadcast>) returns (ok: bool)
      modifies this, exchange
      ensures var (s1, ready) := EnsuredFunctional(highest, old(Current()));
              (Current(), ok) == if !ready then (s1, false)
                                 else (s1.(wire := RequestAll(s1.wire, requests).0), RequestAll(s1.wire, requests).1)
    {
      ok := EnsureFunctional();
      if !ok {
        return;
      }
      ghost var s1 := Current();
      var i := 0;
      assert requests[0..] == requests;
      while i < |requests|
        invariant 0 <= i <= |requests|
        invariant Current() == s1.(wire := exchange.State())
        invariant RequestAll(exchange.State(), requests[i..]) == RequestAll(s1.wire, requests)
      {
        assert requests[i..][1..] == requests[i + 1..];
        var outcome := exchange.Exchange(Functional(requests[i]));
        if outcome != Text(Accepted) {
          return false;
        }
        i := i + 1;
      }
      ok := true;
    }

    method ReadFunctionalPid(pid: nat) returns (ok: bool)
      modifies this, exchange
      ensures (Current(), ok) == Perform(highest, old(Current()), ReadPid(pid))
    {
      ok := EnsureFunctional();
      if !ok {
        return;
      }
      if Status(supported, pid) != Supported {
        return false;
      }
      var outcome := exchange.Exchange(Functional(Pid(pid)));
      if outcome == Text(Stale) {
        outcome := exchange.Exchange(Functional(Pid(pid)));
      }
      ok := outcome == Text(Accepted);
    }

    method ReadFunctionalBroadcast(what: Broadcast) returns (ok: bool)
      modifies this, exchange
      ensures (Current(), ok) == Perform(highest, old(Current()), ReadBroadcast(what))
    {
      ok := EnsureFunctional();
      if !ok {
        return;
      }
      var outcome := exchange.Exchange(Functional(what));
      ok := outcome.Text?;
    }

    method ReadKeepingTarget(key: Key, dropUnparsable: bool) returns (ok: bool)
      modifies this, exchange
      ensures (Current(), ok) == CachedRead(old(Current()), key, dropUnparsable)
    {
      functionalDirty := true;
      if configuredTarget != Some(key) {
        configuredTarget := None;
        ok := exchange.SendAll(ConfigureCommands(key));
        if !ok {
          return;
        }
        configuredTarget := Some(key);
      }
      var outcome := exchange.Exchange(Targeted(key));
      if !outcome.Text? || (dropUnparsable && outcome.reply.Unparsable?) {
        configuredTarget := None;
      }
      ok := outcome == Text(Accepted);
    }

    method ReadRestoringFunctional(key: Key, identification: bool) returns (ok: bool)
      modifies this, exchange
      ensures (Current(), ok) == SelfContainedRead(old(Current()), key, identification)
    {
      functionalDirty := true;
      configuredTarget := None;
      ok := exchange.SendAll(ConfigureCommands(key));
      if !ok {
        var _ := exchange.SendAll(RestoreCommands);
        return;
      }
      var outcome := exchange.Exchange(Targeted(key));
      if identification && outcome == Text(Stale) {
        outcome := exchange.Exchange(Targeted(key));
      }
      var read := if identification then outcome.Text? else outcome == Text(Accepted);
      var restored := exchange.SendAll(RestoreCommands);
      ok := read && restored;
    }

    method Execute(op: Op) returns (ok: bool)
      modifies this, exchange
      ensures (Current(), ok) == Perform(highest, old(Current()), op)
    {
      match op
      case Reinitialize => ok := ReinitializeSession();
      case RestoreFunctional => ok := RestoreFunctionalAddressing();
      case EstablishProtocol => ok := RequestFunctional([Probe]);
      case Identify => ok := RequestFunctional([Probe, Vin]);
      case ReadPid(pid) => ok := ReadFunctionalPid(pid);
      case ReadBroadcast(what) => ok := ReadFunctionalBroadcast(what);
      case ReadTargeted(key) => ok := ReadKeepingTarget(key, true);
      case ReadCached(key) => ok := ReadKeepingTarget(key, false);
      case ReadMode09(key) => ok := ReadRestoringFunctional(key, false);
      case ReadIdentification(key) => ok := ReadRestoringFunctional(key, true);
    }
  }
}
