/**
 * What a trouble-code scan decodes: whole messages, and what is left of lines that
 * were cut off or are no well-formed answers.
 */
module DtcEvidence {
  import opened Prelude
  import opened Ordering
  import opened IsoTp
  import opened ReassemblyTable
  import opened Reassembly
  import opened CompleteMessages
  import opened WholeMessages
  import opened Dtc
  import opened DtcScan

  /** What the scan reports of one ECU. */
  predicate Reports(ms: seq<Match>, header: string, o: DtcObservation) {
    o.source == DtcSource.Responder(header) && o in DecodedScan(ms)
  }

  lemma ScanMembers(ms: seq<Match>, o: DtcObservation)
    ensures o in DecodedScan(ms) <==> o in Observations(ms)
  {
    SortPermutes(Observations(ms), ObservationKey());
    assert o in DecodedScan(ms) <==> o in multiset(DecodedScan(ms));
    assert o in Observations(ms) <==> o in multiset(Observations(ms));
  }

  lemma SourceOfMatch(m: Match, header: string)
    ensures Observation(m).source == DtcSource.Responder(header) <==> m.responder == Some(header)
  {
  }

  /** The observations of an ECU are those of its own matches. */
  lemma {:induction false} ObservationsOfHeader(ms: seq<Match>, header: string, o: DtcObservation)
    requires o.source == DtcSource.Responder(header)
    ensures o in Observations(ms) <==> o in Observations(MatchesOf(ms, Some(header)))
  {
    if ms != [] {
      var rest := MatchesOf(ms[1..], Some(header));
      ObservationsOfHeader(ms[1..], header, o);
      SourceOfMatch(ms[0], header);
      ObservationsCons(ms[0], ms[1..]);
      assert ms == [ms[0]] + ms[1..];
      if ms[0].responder == Some(header) {
        assert MatchesOf(ms, Some(header)) == [ms[0]] + rest;
        ObservationsCons(ms[0], rest);
      }
    }
  }

  lemma {:induction false} ObservationsKeepSource(ms: seq<Match>, header: string, o: DtcObservation)
    ensures o in Observations(MatchesOf(ms, Some(header))) ==> o.source == DtcSource.Responder(header)
  {
    if ms != [] {
      var rest := MatchesOf(ms[1..], Some(header));
      ObservationsKeepSource(ms[1..], header, o);
      if ms[0].responder == Some(header) {
        SourceOfMatch(ms[0], header);
        assert MatchesOf(ms, Some(header)) == [ms[0]] + rest;
        ObservationsCons(ms[0], rest);
      }
    }
  }

  lemma ReportsOfHeader(ms: seq<Match>, header: string, o: DtcObservation)
    ensures Reports(ms, header, o) <==> o in Observations(MatchesOf(ms, Some(header)))
  {
    ScanMembers(ms, o);
    ObservationsKeepSource(ms, header, o);
    if o.source == DtcSource.Responder(header) {
      ObservationsOfHeader(ms, header, o);
    }
  }

  /** About everything an ECU sent: no issue names it exactly when it sent complete
      messages only, and then the scan reports exactly what these messages decode
      to. Whether the reports themselves come from whole messages is below. */
  lemma ReportsAreComplete(events: seq<Event>, header: string)
    ensures IssuesOf(Normalized(Mode03, events).issues, Some(header)) == [] <==>
            exists sents :: Accounts(Mode03, sents, events, Some(header))
    ensures forall sents, o | Accounts(Mode03, sents, events, Some(header)) ::
              Reports(Normalized(Mode03, events).matches, header, o) <==> o in Observations(Completed(sents))
  {
    CleanIffComplete(Mode03, events, Some(header));
    forall sents, o | Accounts(Mode03, sents, events, Some(header))
      ensures Reports(Normalized(Mode03, events).matches, header, o) <==> o in Observations(Completed(sents))
    {
      CompleteMatches(Mode03, events, Some(header), sents);
      ReportsOfHeader(Normalized(Mode03, events).matches, header, o);
    }
  }

  lemma LowNibble(b: byte)
    requires b < 16
    ensures b / 16 == 0 && b % 16 == b
  {
  }

  lemma TruncatedSingleReceived(f: seq<byte>, pci: byte, data: seq<byte>, start: nat)
    requires f != [] && f[0] == pci && f[1..] == data && pci % 16 == pci
    requires |data| < pci && IndexOf(data, 0x43) == Some(start)
    ensures ReceiveSingle(Mode03, None, f) == Reception(None, [data[start..]], [TruncatedSingle(pci, |data|)])
  {
  }

  lemma ReceivedAsSingle(p: Profile, slot: Option<Assembly>, f: seq<byte>)
    requires f != [] && f[0] / 16 == 0
    ensures Receive(p, slot, f) == ReceiveSingle(p, slot, f)
  {
  }

  function TruncatedReception(pci: byte, data: seq<byte>, start: nat): Reception
    requires start <= |data|
  {
    Reception(None, [data[start..]], [TruncatedSingle(pci, |data|)])
  }

  lemma TruncatedEvent(r: IsoTp.Responder, pci: byte, data: seq<byte>, start: nat)
    requires |data| < pci < 16 && IndexOf(data, 0x43) == Some(start)
    ensures ReceiveEvent(Mode03, None, Frame(r, [pci] + data)) == TruncatedReception(pci, data, start)
  {
    LowNibble(pci);
    assert ([pci] + data)[1..] == data;
    TruncatedSingleReceived([pci] + data, pci, data, start);
    ReceivedAsSingle(Mode03, None, [pci] + data);
  }

  lemma LoneTruncatedSingle(r: IsoTp.Responder, pci: byte, data: seq<byte>, start: nat)
    requires |data| < pci < 16 && IndexOf(data, 0x43) == Some(start)
    ensures Normalized(Mode03, [Frame(r, [pci] + data)]) ==
            Responses([Match(r, data[start..])], [Issue(r, TruncatedSingle(pci, |data|))])
  {
    TruncatedEvent(r, pci, data, start);
    LoneLine(Mode03, Frame(r, [pci] + data), TruncatedReception(pci, data, start));
    assert Matches(r, [data[start..]]) == [Match(r, data[start..])];
    assert Issues(r, [TruncatedSingle(pci, |data|)]) == [Issue(r, TruncatedSingle(pci, |data|))];
  }

  /** A single frame that is cut off after its service byte is decoded as if it
      were whole. */
  lemma TruncatedSingleIsDecoded(events: seq<Event>, header: string, pci: byte, data: seq<byte>, start: nat)
    requires |data| < pci < 16 && IndexOf(data, 0x43) == Some(start)
    requires EventsOf(events, Some(header)) == [Frame(Some(header), [pci] + data)]
    ensures forall o :: Reports(Normalized(Mode03, events).matches, header, o) <==>
                        o in Observations([Match(Some(header), data[start..])])
    ensures IssuesOf(Normalized(Mode03, events).issues, Some(header)) ==
            [Issue(Some(header), TruncatedSingle(pci, |data|))]
  {
    var ms, es := [Match(Some(header), data[start..])], [Issue(Some(header), TruncatedSingle(pci, |data|))];
    LoneTruncatedSingle(Some(header), pci, data, start);
    OwnAnswer(Mode03, events, Some(header), ms, es);
    ReportsOfOwn(Normalized(Mode03, events).matches, header, ms);
  }

  lemma ReportsOfOwn(ms: seq<Match>, header: string, own: seq<Match>)
    requires MatchesOf(ms, Some(header)) == own
    ensures forall o :: Reports(ms, header, o) <==> o in Observations(own)
  {
    forall o ensures Reports(ms, header, o) <==> o in Observations(own) {
      ReportsOfHeader(ms, header, o);
    }
  }

  /** A line that is all a responder sent and leaves nothing in flight. */
  lemma LoneLine(p: Profile, e: Event, o: Reception)
    requires !e.Skip? && ReceiveEvent(p, None, e) == o && o.slot.None? && (o.payloads != [] || o.problems != [])
    ensures Normalized(p, [e]) == Responses(Matches(e.responder, o.payloads), Issues(e.responder, o.problems))
  {
    var ms, es := Matches(e.responder, o.payloads), Issues(e.responder, o.problems);
    assert [] + ms == ms && [] + es == es;
    assert [e][1..] == [] && Run(p, IsoTp.Scan([], ms, es), [e][1..]) == IsoTp.Scan([], ms, es);
    assert Run(p, Fresh, [e]) == Run(p, Step(p, Fresh, e), [e][1..]);
  }

  // ---------------------------------------------------------------------
  // Exactly when everything decoded was whole
  // ---------------------------------------------------------------------

  /** From its first 43 on the payload is a well-formed answer. */
  predicate WellFormed(payload: seq<byte>) {
    var start := IndexOf(payload, 0x43);
    start.Some? && GoodMode03(payload[start.value..])
  }

  /** What is kept of a line that was cut off or stops being hexadecimal: a single
      frame shorter than it declares, or bytes that are no first or consecutive
      frame, from the first 43 on. It does not depend on other lines. */
  function Evidence(e: Event): Option<seq<byte>> {
    match e
    case Skip => None
    case Report(_, _) => None
    case Garbled(_, bytes) => GarbledEvidence(bytes)
    case Frame(_, f) => CutEvidence(f)
  }

  function GarbledEvidence(bytes: seq<byte>): Option<seq<byte>> {
    if bytes == [] || bytes[0] / 16 == 1 || bytes[0] / 16 == 2 then None
    else if bytes[0] / 16 == 0 then
      var kept := From43(bytes[1..]);
      if kept.None? then None else Some(UpTo(kept.value, bytes[0] % 16))
    else From43(bytes)
  }

  function CutEvidence(f: seq<byte>): Option<seq<byte>> {
    if f != [] && f[0] / 16 == 0 && 0 < f[0] % 16 && |f| - 1 < f[0] % 16 then From43(f[1..]) else None
  }

  function From43(bytes: seq<byte>): Option<seq<byte>> {
    var start := IndexOf(bytes, 0x43);
    if start.None? then None else Some(bytes[start.value..])
  }

  function UpTo(bytes: seq<byte>, n: nat): seq<byte> { if n < |bytes| then bytes[..n] else bytes }

  /** A line whose bytes all arrived but are no well-formed answer: a full single
      frame with proper padding, or an unframed line while nothing is in flight. */
  predicate IllFormed(slot: Option<Assembly>, e: Event) {
    e.Frame? && e.bytes != [] &&
    var f := e.bytes;
    if f[0] / 16 == 0 then
      var n := f[0] % 16;
      1 <= n <= |f| - 1 && AllPad(Mode03, f[1..][n..]) && !WellFormed(f[1..][..n])
    else f[0] / 16 >= 4 && slot.None? && !WellFormed(f)
  }

  lemma DeliveredIllFormed(slot: Option<Assembly>, payload: seq<byte>)
    requires payload != []
    ensures var o := Deliver(Mode03, slot, payload, false);
            |o.payloads| == 1 && |o.problems| <= 1 && (o.problems != [] <==> !WellFormed(payload))
    ensures var o := Deliver(Mode03, slot, payload, false);
            !WellFormed(payload) ==> !DecodedPayload(o.payloads[0]).Ok?
  {
    var start := IndexOf(payload, 0x43);
    if start.Some? && !GoodMode03(payload[start.value..]) {
      NotGoodNotDecoded(payload[start.value..]);
    }
  }

  lemma NotGoodNotDecoded(q: seq<byte>)
    requires q != [] && !GoodMode03(q)
    ensures !DecodedPayload(q).Ok?
  {
  }

  lemma FullSingleSalvages(slot: Option<Assembly>, f: seq<byte>, r: IsoTp.Responder)
    requires f != [] && f[0] / 16 == 0 && 1 <= f[0] % 16 <= |f| - 1
    ensures SalvagesLike(ReceiveSingle(Mode03, slot, f), slot, Frame(r, f))
  {
    DeliveredIllFormed(slot, f[1..][..f[0] % 16]);
  }

  lemma CutSingleSalvages(slot: Option<Assembly>, f: seq<byte>, r: IsoTp.Responder)
    requires f != [] && f[0] / 16 == 0 && !(1 <= f[0] % 16 <= |f| - 1)
    ensures SalvagesLike(ReceiveSingle(Mode03, slot, f), slot, Frame(r, f))
  {
  }

  /** A line hands something over beside an issue exactly when it leaves evidence or
      is ill-formed; what ill-formed lines leave never decodes. */
  predicate SalvagesLike(o: Reception, slot: Option<Assembly>, e: Event) {
    |o.payloads| <= 1
    && (o.payloads != [] && o.problems != [] <==> Evidence(e).Some? || IllFormed(slot, e))
    && (Evidence(e).Some? ==> o.payloads == [Evidence(e).value] && o.problems != [])
    && (IllFormed(slot, e) ==> Evidence(e).None? && o.payloads != [] && !DecodedPayload(o.payloads[0]).Ok?)
  }

  lemma FrameSalvages(slot: Option<Assembly>, f: seq<byte>, r: IsoTp.Responder)
    ensures SalvagesLike(Receive(Mode03, slot, f), slot, Frame(r, f))
  {
    if f != [] && f[0] / 16 == 0 {
      if 1 <= f[0] % 16 <= |f| - 1 {
        FullSingleSalvages(slot, f, r);
      } else {
        CutSingleSalvages(slot, f, r);
      }
    } else if f != [] && f[0] / 16 >= 4 && slot.None? {
      DeliveredIllFormed(slot, f);
    }
  }

  lemma SliceUpTo(bytes: seq<byte>, start: nat, n: nat)
    requires start <= |bytes|
    ensures bytes[start..if start + n < |bytes| then start + n else |bytes|] == UpTo(bytes[start..], n)
  {
  }

  /** What a garbled line leaves is its evidence. */
  lemma GarbledReceived(slot: Option<Assembly>, bytes: seq<byte>)
    ensures var o, evidence := ReceiveGarbled(Mode03, slot, bytes), GarbledEvidence(bytes);
            o.problems == [BadData] && o.payloads == if evidence.None? then [] else [evidence.value]
  {
    if bytes != [] && bytes[0] / 16 == 0 {
      var start := IndexOf(bytes[1..], 0x43);
      if start.Some? {
        SliceUpTo(bytes[1..], start.value, bytes[0] % 16);
      }
    }
  }

  lemma GarbledSalvages(slot: Option<Assembly>, bytes: seq<byte>, r: IsoTp.Responder)
    ensures SalvagesLike(ReceiveGarbled(Mode03, slot, bytes), slot, Garbled(r, bytes))
  {
    GarbledReceived(slot, bytes);
  }

  lemma LineSalvages(slot: Option<Assembly>, e: Event)
    requires !e.Skip?
    ensures SalvagesLike(ReceiveEvent(Mode03, slot, e), slot, e)
  {
    match e
    case Report(_, _) =>
    case Garbled(r, bytes) => GarbledSalvages(slot, bytes, r);
    case Frame(r, f) => FrameSalvages(slot, f, r);
  }

  /** No line of these leaves anything but whole messages. */
  predicate NoneSalvaged(slot: Option<Assembly>, own: seq<Event>)
    requires NoSkip(own)
    decreases |own|
  {
    own == [] ||
    (Evidence(own[0]).None? && !IllFormed(slot, own[0])
     && NoneSalvaged(ReceiveEvent(Mode03, slot, own[0]).slot, own[1..]))
  }

  lemma {:induction false} CleanIffNoneSalvaged(slot: Option<Assembly>, own: seq<Event>)
    requires NoSkip(own)
    ensures LinePayloads(Mode03, slot, own) == CleanPayloads(Mode03, slot, own) <==> NoneSalvaged(slot, own)
    decreases |own|
  {
    if own != [] {
      var o := ReceiveEvent(Mode03, slot, own[0]);
      LineSalvages(slot, own[0]);
      CleanIffNoneSalvaged(o.slot, own[1..]);
      CleanIsAll(Mode03, o.slot, own[1..]);
    }
  }

  lemma MatchesEqual(r: IsoTp.Responder, a: seq<seq<byte>>, b: seq<seq<byte>>)
    ensures Matches(r, a) == Matches(r, b) <==> a == b
  {
    if Matches(r, a) == Matches(r, b) {
      assert |a| == |b|;
      forall i | 0 <= i < |a| ensures a[i] == b[i] {
        assert Matches(r, a)[i] == Matches(r, b)[i];
      }
    }
  }

  /** What the decoder gets of an ECU is whole messages only if and only if no line
      of it was cut off leaving evidence and none was ill-formed. */
  lemma DecodedIsWholeIff(events: seq<Event>, header: string)
    ensures NoSkip(EventsOf(events, Some(header)))
    ensures var own := EventsOf(events, Some(header));
            (MatchesOf(Normalized(Mode03, events).matches, Some(header)) ==
             Matches(Some(header), CleanPayloads(Mode03, None, own))) <==> NoneSalvaged(None, own)
  {
    var r := Some(header);
    OwnResult(Mode03, events, r);
    var own := EventsOf(events, r);
    assert AllPayloads(Mode03, own) == LinePayloads(Mode03, None, own);
    MatchesEqual(r, AllPayloads(Mode03, own), CleanPayloads(Mode03, None, own));
    CleanIffNoneSalvaged(None, own);
  }

  // ---------------------------------------------------------------------
  // Exactly when every reported list of codes was whole
  // ---------------------------------------------------------------------

  function Decodes(): seq<byte> -> bool { (payload: seq<byte>) => DecodedPayload(payload).Ok? }

  /** The evidence of a cut-off line reads like an answer. */
  predicate Misleads(e: Event) {
    Evidence(e).Some? && DecodedPayload(Evidence(e).value).Ok?
  }

  predicate NoneMisleads(own: seq<Event>) { forall i | 0 <= i < |own| :: !Misleads(own[i]) }

  lemma FilterOne(payload: seq<byte>)
    ensures Filter([payload], Decodes()) == if DecodedPayload(payload).Ok? then [payload] else []
  {
    var one := [payload];
    assert one[1..] == [] && Filter(one[1..], Decodes()) == [];
  }

  function Codes(payloads: seq<seq<byte>>): seq<seq<byte>> { Filter(payloads, Decodes()) }

  lemma LineMisleads(slot: Option<Assembly>, e: Event)
    requires !e.Skip?
    ensures var o := ReceiveEvent(Mode03, slot, e);
            |Codes(o.payloads)| == (if o.problems == [] then |Codes(o.payloads)| else 0) + if Misleads(e) then 1 else 0
  {
    LineSalvages(slot, e);
    var o := ReceiveEvent(Mode03, slot, e);
    if o.payloads != [] {
      FilterOne(o.payloads[0]);
      assert o.payloads == [o.payloads[0]];
    }
  }

  function Misleading(): Event -> bool { (e: Event) => Misleads(e) }

  lemma {:induction false} CodesCount(slot: Option<Assembly>, own: seq<Event>)
    requires NoSkip(own)
    ensures |Codes(LinePayloads(Mode03, slot, own))| ==
            |Codes(CleanPayloads(Mode03, slot, own))| + |Filter(own, Misleading())|
    decreases |own|
  {
    if own != [] {
      var o := ReceiveEvent(Mode03, slot, own[0]);
      LineMisleads(slot, own[0]);
      CodesCount(o.slot, own[1..]);
      FilterAppend(o.payloads, LinePayloads(Mode03, o.slot, own[1..]), Decodes());
      FilterAppend(if o.problems == [] then o.payloads else [], CleanPayloads(Mode03, o.slot, own[1..]), Decodes());
    }
  }

  lemma {:induction false} SomeMisleads(own: seq<Event>)
    ensures Filter(own, Misleading()) == [] <==> NoneMisleads(own)
  {
    if own != [] {
      SomeMisleads(own[1..]);
      assert forall i | 0 < i < |own| :: own[i] == own[1..][i - 1];
      assert NoneMisleads(own) <==> !Misleads(own[0]) && NoneMisleads(own[1..]);
    }
  }

  lemma {:induction false} CodesAreClean(slot: Option<Assembly>, own: seq<Event>)
    requires NoSkip(own) && NoneMisleads(own)
    ensures Codes(LinePayloads(Mode03, slot, own)) == Codes(CleanPayloads(Mode03, slot, own))
    decreases |own|
  {
    if own != [] {
      var o := ReceiveEvent(Mode03, slot, own[0]);
      assert !Misleads(own[0]) && NoneMisleads(own[1..]);
      LineMisleads(slot, own[0]);
      CodesAreClean(o.slot, own[1..]);
      FilterAppend(o.payloads, LinePayloads(Mode03, o.slot, own[1..]), Decodes());
      FilterAppend(if o.problems == [] then o.payloads else [], CleanPayloads(Mode03, o.slot, own[1..]), Decodes());
    }
  }

  /** The codes reported of an ECU come from whole messages only if and only if no
      line of it was cut off so that the rest reads like an answer. This can be seen
      line by line, without the reader's state. */
  lemma CodesAreWholeIff(events: seq<Event>, header: string)
    ensures NoSkip(EventsOf(events, Some(header)))
    ensures var own := EventsOf(events, Some(header));
            Codes(AllPayloads(Mode03, own)) == Codes(CleanPayloads(Mode03, None, own)) <==> NoneMisleads(own)
    ensures MatchesOf(Normalized(Mode03, events).matches, Some(header)) ==
            Matches(Some(header), AllPayloads(Mode03, EventsOf(events, Some(header))))
  {
    OwnResult(Mode03, events, Some(header));
    var own := EventsOf(events, Some(header));
    assert AllPayloads(Mode03, own) == LinePayloads(Mode03, None, own);
    CodesCount(None, own);
    SomeMisleads(own);
    if NoneMisleads(own) {
      CodesAreClean(None, own);
    }
  }

  /** Then every report of an ECU other than a decoding error is what one of its
      whole messages decodes to. */
  lemma ReportedCodesAreWhole(events: seq<Event>, header: string, o: DtcObservation)
    requires NoneMisleads(EventsOf(events, Some(header)))
    requires Reports(Normalized(Mode03, events).matches, header, o) && !o.response.Error?
    ensures exists payload :: SentWhole(Mode03, EventsOf(events, Some(header)), payload)
                              && o == Observation(Match(Some(header), payload))
  {
    var own := EventsOf(events, Some(header));
    CodesAreWholeIff(events, header);
    ReportsOfHeader(Normalized(Mode03, events).matches, header, o);
    var payload := ObservedPayload(Some(header), AllPayloads(Mode03, own), o);
    FilterIn(AllPayloads(Mode03, own), Decodes());
    FilterIn(CleanPayloads(Mode03, None, own), Decodes());
    assert payload in Codes(AllPayloads(Mode03, own));
    CleanIsWhole(Mode03, own, payload);
  }

  lemma ObservedPayload(r: IsoTp.Responder, payloads: seq<seq<byte>>, o: DtcObservation) returns (payload: seq<byte>)
    requires o in Observations(Matches(r, payloads)) && !o.response.Error?
    ensures payload in payloads && o == Observation(Match(r, payload)) && DecodedPayload(payload).Ok?
  {
    var i :| 0 <= i < |payloads| && Observations(Matches(r, payloads))[i] == o;
    payload := payloads[i];
  }
}
