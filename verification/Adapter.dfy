/**
 * The adapter as an oracle. Every exchange has a fate chosen in advance: the
 * reply or failure, and whether the command took effect although it was not
 * acknowledged. The wiring is what the adapter is physically set to.
 */
module Adapter {
  import opened Prelude
  import opened PidSupport

  /** Request header and response filter of a configured target. */
  datatype Key = Key(header: string, filter: string)

  datatype Broadcast = Probe | Vin | Pid(pid: nat) | StoredDtcs | Serials

  datatype Command =
    | Reset                      // ATZ
    | Setup(k: nat)              // ATE0, ATL0, ATS1, ATH1, ATSP0
    | SupportPage(page: nat)     // 01 00, 01 20, .. during discovery
    | SetHeader(value: string)   // ATSH
    | SetFilter(value: string)   // ATCRA with a value
    | ClearFilter                // ATCRA
    | Functional(what: Broadcast)
    | Targeted(key: Key)

  /** What the dialect layer makes of a reply: acknowledged or parsed and
      selected; a support page; a stale or conflicting answer that is retried;
      parsed without a usable selection; or not parseable or rejected. */
  datatype Reply =
    | Accepted
    | Page(responses: PageAnswers)
    | Stale
    | Unselected
    | Unparsable

  datatype Outcome = Text(reply: Reply) | TransportFailed | BadResponse

  datatype Fate = Fate(outcome: Outcome, applied: bool)

  /** None is the power-on default: functional header, no filter. */
  datatype Wiring = Wiring(header: Option<string>, filter: Option<string>)

  const PowerOn := Wiring(None, None)

  function Tuned(key: Key): Wiring { Wiring(Some(key.header), Some(key.filter)) }

  function Effect(w: Wiring, c: Command): Wiring {
    match c
    case Reset => PowerOn
    case SetHeader(h) => w.(header := Some(h))
    case SetFilter(f) => w.(filter := Some(f))
    case ClearFilter => w.(filter := None)
    case _ => w
  }

  /** A command on the wire: the wiring it met, and what came back. */
  datatype Entry = Entry(command: Command, wiring: Wiring, outcome: Outcome)

  /** The adapter, its remaining fates and its history; `tap` is set while a
      transport failure has been recorded and not yet taken. */
  datatype Wire = Wire(fates: seq<Fate>, wiring: Wiring, log: seq<Entry>, tap: bool)

  function NextFate(w: Wire): Fate {
    if w.fates == [] then Fate(TransportFailed, false) else w.fates[0]
  }

  /** One exchange. An acknowledged command took effect. */
  function Exchanged(w: Wire, c: Command): (Wire, Outcome) {
    var fate := NextFate(w);
    var took := fate.applied || fate.outcome == Text(Accepted);
    (Wire(if w.fates == [] then [] else w.fates[1..],
          if took then Effect(w.wiring, c) else w.wiring,
          w.log + [Entry(c, w.wiring, fate.outcome)],
          w.tap || fate.outcome.TransportFailed?),
     fate.outcome)
  }

  /** Commands in order until one is not acknowledged. */
  function SentAll(w: Wire, commands: seq<Command>): (Wire, bool)
    decreases |commands|, w
  {
    if commands == [] then (w, true)
    else
      var (w', outcome) := Exchanged(w, commands[0]);
      if outcome == Text(Accepted) then SentAll(w', commands[1..]) else (w', false)
  }

  const InitCommands := [Reset, Setup(0), Setup(1), Setup(2), Setup(3), Setup(4)]

  function ConfigureCommands(key: Key): seq<Command> { [SetHeader(key.header), SetFilter(key.filter)] }

  const RestoreCommands := [SetHeader("7DF"), ClearFilter]

  /** The byte transport together with the recorder around it. */
  class HealthTap {
    var fates: seq<Fate>
    var wiring: Wiring
    var log: seq<Entry>
    var lastTransportFailure: bool

    constructor (fates: seq<Fate>)
      ensures State() == Wire(fates, PowerOn, [], false)
    {
      this.fates, wiring, log, lastTransportFailure := fates, PowerOn, [], false;
    }

    function State(): Wire
      reads this
    {
      Wire(fates, wiring, log, lastTransportFailure)
    }

    method Exchange(c: Command) returns (outcome: Outcome)
      modifies this
      ensures (State(), outcome) == Exchanged(old(State()), c)
    {
      var fate := if fates == [] then Fate(TransportFailed, false) else fates[0];
      outcome := fate.outcome;
      log := log + [Entry(c, wiring, outcome)];
      if fate.applied || outcome == Text(Accepted) {
        wiring := Effect(wiring, c);
      }
      if fates != [] {
        fates := fates[1..];
      }
      if outcome.TransportFailed? {
        lastTransportFailure := true;
      }
    }

    method TakeTransportFailure() returns (failure: bool)
      modifies this`lastTransportFailure
      ensures failure == old(lastTransportFailure) && !lastTransportFailure
    {
      failure := lastTransportFailure;
      lastTransportFailure := false;
    }

    method SendAll(commands: seq<Command>) returns (ok: bool)
      modifies this
      ensures (State(), ok) == SentAll(old(State()), commands)
    {
      var i := 0;
      assert commands[0..] == commands;
      while i < |commands|
        invariant 0 <= i <= |commands|
        invariant SentAll(State(), commands[i..]) == SentAll(old(State()), commands)
      {
        assert commands[i..][1..] == commands[i + 1..];
        var outcome := Exchange(commands[i]);
        if outcome != Text(Accepted) {
          return false;
        }
        i := i + 1;
      }
      ok := true;
    }
  }
}
