/**
 * A whole trouble-code scan: several ECUs answer Mode 03, the adapter
 * interleaves their frames, and the result is exactly each ECU's set of codes,
 * whatever the interleaving.
 */
module DtcScan {
  import opened Prelude
  import opened Ordering
  import opened IsoTp
  import opened ReassemblyTable
  import opened Reassembly
  import opened ElmText
  import opened Transcripts
  import opened Dtc
  import opened Normalizers

  datatype DtcSource = Unknown | Responder(name: string)

  datatype DtcObservation = DtcObservation(source: DtcSource, response: DtcResponse)

  function SourceOf(r: IsoTp.Responder): DtcSource {
    if r.Some? then DtcSource.Responder(r.value) else Unknown
  }

  /** Decoding errors stay attached to their responder. */
  function Observation(m: Match): DtcObservation {
    var decoded := DecodedPayload(m.payload);
    DtcObservation(SourceOf(m.responder), if decoded.Ok? then decoded.response else Error(decoded.error))
  }

  function Observations(ms: seq<Match>): (os: seq<DtcObservation>)
    ensures |os| == |ms| && forall i | 0 <= i < |ms| :: os[i] == Observation(ms[i])
  {
    seq(|ms|, i requires 0 <= i < |ms| => Observation(ms[i]))
  }

  // ---------------------------------------------------------------------
  // The derived order of observations: source first, then response
  // ---------------------------------------------------------------------

  function CodesKey(codes: seq<DtcCode>): seq<int> {
    if codes == [] then [] else [SystemIndex(codes[0].system), codes[0].number] + CodesKey(codes[1..])
  }

  function ResponseKey(r: DtcResponse): seq<int> {
    match r
    case NoDtcs => [0]
    case Stored(codes) => [1] + CodesKey(codes)
    case Error(MalformedResponse) => [2, 0]
    case Error(UnknownResponse) => [2, 1]
  }

  function SourceKey(s: DtcSource): seq<int> {
    match s case Unknown => [0] case Responder(name) => [1] + NameKey(name)
  }

  function ObservationKey(): DtcObservation -> seq<int> {
    (o: DtcObservation) => SourceKey(o.source) + [0] + ResponseKey(o.response)
  }

  lemma {:induction false} CodesKeyInjective(a: seq<DtcCode>, b: seq<DtcCode>)
    requires CodesKey(a) == CodesKey(b)
    ensures a == b
  {
    if a != [] && b != [] {
      assert CodesKey(a)[0] == CodesKey(b)[0] && CodesKey(a)[1] == CodesKey(b)[1];
      assert a[0] == b[0];
      assert CodesKey(a)[2..] == CodesKey(a[1..]) && CodesKey(b)[2..] == CodesKey(b[1..]);
      CodesKeyInjective(a[1..], b[1..]);
      assert a == [a[0]] + a[1..] && b == [b[0]] + b[1..];
    }
  }

  lemma ResponseKeyInjective(a: DtcResponse, b: DtcResponse)
    requires ResponseKey(a) == ResponseKey(b)
    ensures a == b
  {
    assert ResponseKey(a)[0] == ResponseKey(b)[0];
    if a.Stored? {
      assert ResponseKey(a)[1..] == CodesKey(a.codes) && ResponseKey(b)[1..] == CodesKey(b.codes);
      CodesKeyInjective(a.codes, b.codes);
    } else if a.Error? {
      assert ResponseKey(a)[1] == ResponseKey(b)[1];
    }
  }

  lemma NamedKeyInjective(a: string, b: string, x: seq<int>, y: seq<int>)
    requires [1] + NameKey(a) + [0] + x == [1] + NameKey(b) + [0] + y
    ensures a == b && x == y
  {
    assert ([1] + NameKey(a) + [0] + x)[1..] == NameKey(a) + [0] + x;
    assert ([1] + NameKey(b) + [0] + y)[1..] == NameKey(b) + [0] + y;
    NameKeyInjective(a, b, x, y);
  }

  lemma ObservationKeyInjective(a: DtcObservation, b: DtcObservation)
    requires ObservationKey()(a) == ObservationKey()(b)
    ensures a == b
  {
    var ka, kb := ObservationKey()(a), ObservationKey()(b);
    assert ka[0] == kb[0];
    if a.source.Unknown? {
      assert ka[2..] == ResponseKey(a.response) && kb[2..] == ResponseKey(b.response);
    } else {
      NamedKeyInjective(a.source.name, b.source.name, ResponseKey(a.response), ResponseKey(b.response));
    }
    ResponseKeyInjective(a.response, b.response);
  }

  /** Lists of codes in the order of their codes, a shorter list first. */
  predicate CodesLeq(a: seq<DtcCode>, b: seq<DtcCode>) {
    a == [] || (b != [] && (CodeLess(a[0], b[0]) || (a[0] == b[0] && CodesLeq(a[1..], b[1..]))))
  }

  /** No codes, then stored codes, then errors, malformed ones first. */
  predicate ResponseLeq(a: DtcResponse, b: DtcResponse) {
    match a
    case NoDtcs => true
    case Stored(codes) => if b.Stored? then CodesLeq(codes, b.codes) else b.Error?
    case Error(error) => b.Error? && (error.MalformedResponse? || b.error.UnknownResponse?)
  }

  /** Unknown sources first, then by name; then by response. */
  predicate ObservationLeq(a: DtcObservation, b: DtcObservation) {
    if a.source == b.source then ResponseLeq(a.response, b.response)
    else a.source.Unknown? || (b.source.Responder? && StringLess(a.source.name, b.source.name))
  }

  lemma {:induction false} CodesOrder(a: seq<DtcCode>, b: seq<DtcCode>)
    ensures LexLeq(CodesKey(a), CodesKey(b)) <==> CodesLeq(a, b)
  {
    if a != [] && b != [] {
      var x, y := a[0], b[0];
      var ra, rb := CodesKey(a[1..]), CodesKey(b[1..]);
      CodesOrder(a[1..], b[1..]);
      assert CodesKey(a) == [SystemIndex(x.system)] + ([x.number] + ra);
      assert CodesKey(b) == [SystemIndex(y.system)] + ([y.number] + rb);
      LexCons(SystemIndex(x.system), [x.number] + ra, SystemIndex(y.system), [y.number] + rb);
      LexCons(x.number, ra, y.number, rb);
      assert SystemIndex(x.system) == SystemIndex(y.system) <==> x.system == y.system;
    }
  }

  lemma ResponseOrder(a: DtcResponse, b: DtcResponse)
    ensures LexLeq(ResponseKey(a), ResponseKey(b)) <==> ResponseLeq(a, b)
  {
    var x, y := ResponseKey(a), ResponseKey(b);
    assert x == [x[0]] + x[1..] && y == [y[0]] + y[1..];
    LexCons(x[0], x[1..], y[0], y[1..]);
    if a.Stored? && b.Stored? {
      assert x[1..] == CodesKey(a.codes) && y[1..] == CodesKey(b.codes);
      CodesOrder(a.codes, b.codes);
    } else if a.Error? && b.Error? {
      assert x[1..][1..] == [] && y[1..][1..] == [];
    } else if a.NoDtcs? {
      assert x[1..] == [];
    }
  }

  /** The sort key is the derived order. */
  lemma ObservationOrder(a: DtcObservation, b: DtcObservation)
    ensures LexLeq(ObservationKey()(a), ObservationKey()(b)) <==> ObservationLeq(a, b)
  {
    var x, y := ResponseKey(a.response), ResponseKey(b.response);
    ResponseOrder(a.response, b.response);
    var ra := if a.source.Unknown? then [0] + x else NameKey(a.source.name) + [0] + x;
    var rb := if b.source.Unknown? then [0] + y else NameKey(b.source.name) + [0] + y;
    var ha, hb := if a.source.Unknown? then 0 else 1, if b.source.Unknown? then 0 else 1;
    assert ObservationKey()(a) == [ha] + ra && ObservationKey()(b) == [hb] + rb;
    LexCons(ha, ra, hb, rb);
    if a.source.Unknown? && b.source.Unknown? {
      LexCons(0, x, 0, y);
    } else if a.source.Responder? && b.source.Responder? {
      NameOrder(a.source.name, b.source.name, x, y);
      StringLessIsStrict(a.source.name);
    }
  }

  /** Every answer is one observation of its responder: what it decodes to, or the
      decoding error. */
  lemma ObservationMeans(m: Match)
    ensures m.responder.None? <==> Observation(m).source == Unknown
    ensures m.responder.Some? ==> Observation(m).source == Responder(m.responder.value)
    ensures forall r :: DecodedPayload(m.payload) == Ok(r) ==> Observation(m).response == r
    ensures forall e :: DecodedPayload(m.payload) == Err(e) ==> Observation(m).response == Error(e)
  {
  }

  function DecodedScan(ms: seq<Match>): seq<DtcObservation> {
    Sort(Observations(ms), ObservationKey())
  }

  method DecodeMode03(evidence: seq<Match>) returns (observations: seq<DtcObservation>)
    ensures observations == DecodedScan(evidence)
  {
    observations := [];
    for i := 0 to |evidence|
      invariant observations == Observations(evidence)[..i]
    {
      var decoded := DecodeMode03Payload(evidence[i].payload);
      observations := observations + [DtcObservation(SourceOf(evidence[i].responder),
                                                     if decoded.Ok? then decoded.response else Error(decoded.error))];
    }
    assert observations == Observations(evidence);
    observations := Sort(observations, ObservationKey());
  }

  // ---------------------------------------------------------------------
  // The scan does not depend on the order of its evidence
  // ---------------------------------------------------------------------

  lemma TakeOut<T>(b: seq<T>, k: nat)
    requires k < |b|
    ensures multiset(b) == multiset(b[..k] + b[k + 1..]) + multiset{b[k]}
    ensures multiset(b[..k] + b[k + 1..]) == multiset(b) - multiset{b[k]}
  {
    assert b == b[..k] + ([b[k]] + b[k + 1..]);
  }

  lemma MappedTakeOut<S, T>(f: S -> T, b: seq<S>, k: nat, rest: seq<S>)
    requires k < |b| && rest == b[..k] + b[k + 1..]
    ensures multiset(Mapped(f, b)) == multiset(Mapped(f, rest)) + multiset{f(b[k])}
  {
    TakeOut(Mapped(f, b), k);
    assert Mapped(f, rest) == Mapped(f, b)[..k] + Mapped(f, b)[k + 1..];
  }

  lemma TakeFirst<S>(a: seq<S>)
    requires a != []
    ensures multiset(a[1..]) == multiset(a) - multiset{a[0]}
  {
    assert a == [a[0]] + a[1..];
  }

  lemma Occurs<S>(b: seq<S>, x: S) returns (k: nat)
    requires x in multiset(b)
    ensures k < |b| && b[k] == x
  {
    k :| 0 <= k < |b| && b[k] == x;
  }

  lemma WithoutFirst<S>(a: seq<S>, b: seq<S>) returns (k: nat, rest: seq<S>)
    requires multiset(a) == multiset(b) && a != []
    ensures k < |b| && b[k] == a[0] && rest == b[..k] + b[k + 1..]
    ensures multiset(a[1..]) == multiset(rest)
  {
    assert a[0] in multiset(a);
    k := Occurs(b, a[0]);
    rest := b[..k] + b[k + 1..];
    TakeFirst(a);
    TakeOut(b, k);
  }

  lemma MappedFirst<S, T>(f: S -> T, a: seq<S>)
    requires a != []
    ensures multiset(Mapped(f, a)) == multiset(Mapped(f, a[1..])) + multiset{f(a[0])}
  {
    assert Mapped(f, a) == [f(a[0])] + Mapped(f, a[1..]);
  }

  lemma {:induction false} MappedPermute<S, T>(f: S -> T, a: seq<S>, b: seq<S>)
    requires multiset(a) == multiset(b)
    ensures multiset(Mapped(f, a)) == multiset(Mapped(f, b))
    decreases |a|
  {
    if a == [] {
      assert |multiset(a)| == 0 && |multiset(b)| == |b|;
    } else {
      var k, rest := WithoutFirst(a, b);
      MappedPermute(f, a[1..], rest);
      MappedFirst(f, a);
      MappedTakeOut(f, b, k, rest);
    }
  }

  lemma ObservationsPermute(a: seq<Match>, b: seq<Match>)
    requires multiset(a) == multiset(b)
    ensures multiset(Observations(a)) == multiset(Observations(b))
  {
    MappedPermute(Observation, a, b);
    assert Observations(a) == Mapped(Observation, a);
    assert Observations(b) == Mapped(Observation, b);
  }

  lemma ScanIsOrderFree(a: seq<Match>, b: seq<Match>)
    requires multiset(a) == multiset(b)
    ensures DecodedScan(a) == DecodedScan(b)
  {
    ObservationsPermute(a, b);
    forall x, y | x in Observations(a) && y in Observations(a) && ObservationKey()(x) == ObservationKey()(y)
      ensures x == y
    {
      ObservationKeyInjective(x, y);
    }
    SortIsCanonical(Observations(a), Observations(b), ObservationKey());
  }

  lemma {:induction false} CountByResponder(ms: seq<Match>, m: Match)
    ensures multiset(ms)[m] == multiset(MatchesOf(ms, m.responder))[m]
  {
    if ms != [] {
      CountByResponder(ms[1..], m);
      var rest := MatchesOf(ms[1..], m.responder);
      assert ms == [ms[0]] + ms[1..];
      if ms[0].responder == m.responder {
        assert MatchesOf(ms, m.responder) == [ms[0]] + rest;
      }
    }
  }

  lemma SameByResponder(a: seq<Match>, b: seq<Match>)
    requires forall r :: MatchesOf(a, r) == MatchesOf(b, r)
    ensures multiset(a) == multiset(b)
  {
    forall m: Match ensures multiset(a)[m] == multiset(b)[m] {
      CountByResponder(a, m);
      CountByResponder(b, m);
      assert MatchesOf(a, m.responder) == MatchesOf(b, m.responder);
    }
  }

  // ---------------------------------------------------------------------
  // The end-to-end theorem
  // ---------------------------------------------------------------------

  /** One ECU: its header, its codes in any order and possibly repeated, the
      zero pairs after them and the padding of its last frame. */
  datatype Sender = Sender(header: string, codes: seq<DtcCode>, zeros: nat, pad: seq<byte>)

  predicate ValidSender(s: Sender) {
    |s.header| == 3 && AllUpperHex(s.header)
    && ValidCodes(s.codes) && |s.codes| + s.zeros >= 1
    && |EncodedPayload(s.codes, s.zeros)| <= 4095 && AllPad(Mode03, s.pad)
  }

  predicate ValidSenders(senders: seq<Sender>) {
    (forall i | 0 <= i < |senders| :: ValidSender(senders[i]))
    && (forall i, j | 0 <= i < j < |senders| :: senders[i].header != senders[j].header)
  }

  function MessageOf(s: Sender): Message
    requires ValidSender(s)
  {
    Message(EncodedPayload(s.codes, s.zeros), s.pad)
  }

  function TrafficOf(senders: seq<Sender>): Traffic
    requires forall i | 0 <= i < |senders| :: ValidSender(senders[i])
  {
    if senders == [] then map[]
    else assert ValidSender(senders[0]); TrafficOf(senders[1..])[Some(senders[0].header) := [MessageOf(senders[0])]]
  }

  /** What the scan must report for one ECU. */
  function Expected(s: Sender): DtcObservation {
    DtcObservation(DtcSource.Responder(s.header), Reported(s.codes))
  }

  function ExpectedAll(senders: seq<Sender>): (os: seq<DtcObservation>)
    ensures |os| == |senders| && forall i | 0 <= i < |senders| :: os[i] == Expected(senders[i])
  {
    seq(|senders|, i requires 0 <= i < |senders| => Expected(senders[i]))
  }

  function Answers(senders: seq<Sender>): seq<Match>
    requires forall i | 0 <= i < |senders| :: ValidSender(senders[i])
  {
    if senders == [] then []
    else
      assert ValidSender(senders[0]);
      [Match(Some(senders[0].header), EncodedPayload(senders[0].codes, senders[0].zeros))] + Answers(senders[1..])
  }

  lemma SenderIsSendable(s: Sender)
    requires ValidSender(s)
    ensures Sendable(Mode03, MessageOf(s))
  {
    var payload := EncodedPayload(s.codes, s.zeros);
    assert |payload| == 1 + 2 * |s.codes| + 2 * s.zeros;
    assert GoodMode03(payload);
  }

  lemma {:induction false} TrafficDomain(senders: seq<Sender>, r: IsoTp.Responder)
    requires ValidSenders(senders)
    ensures r in TrafficOf(senders) <==> exists i | 0 <= i < |senders| :: r == Some(senders[i].header)
  {
    if senders != [] {
      assert ValidSender(senders[0]);
      TrafficDomain(senders[1..], r);
      if i :| 0 <= i < |senders[1..]| && r == Some(senders[1..][i].header) {
        assert senders[i + 1] == senders[1..][i];
      }
      if i :| 0 < i < |senders| && r == Some(senders[i].header) {
        assert senders[i] == senders[1..][i - 1];
      }
    }
  }

  lemma {:induction false} TrafficIsLegible(senders: seq<Sender>)
    requires ValidSenders(senders)
    ensures Legible(Mode03, TrafficOf(senders)) && ValidTraffic(Mode03, TrafficOf(senders))
  {
    if senders != [] {
      assert ValidSender(senders[0]);
      SenderIsSendable(senders[0]);
      TrafficIsLegible(senders[1..]);
    }
  }

  lemma MatchesOfCons(m: Match, ms: seq<Match>, r: IsoTp.Responder)
    ensures MatchesOf([m] + ms, r) == (if m.responder == r then [m] else []) + MatchesOf(ms, r)
  {
    assert ([m] + ms)[1..] == ms;
  }

  function HeadMatch(s: Sender): Match
    requires ValidSender(s)
  {
    Match(Some(s.header), EncodedPayload(s.codes, s.zeros))
  }

  /** What one responder's part of the traffic completes. */
  function TrafficMatches(senders: seq<Sender>, r: IsoTp.Responder): seq<Match>
    requires ValidSenders(senders)
  {
    if r in TrafficOf(senders) then Matches(r, Payloads(TrafficOf(senders)[r])) else []
  }

  lemma TrafficMatchesCons(senders: seq<Sender>, r: IsoTp.Responder)
    requires ValidSenders(senders) && senders != []
    ensures ValidSender(senders[0]) && ValidSenders(senders[1..])
    ensures TrafficMatches(senders, r) ==
            if r == Some(senders[0].header) then [HeadMatch(senders[0])] else TrafficMatches(senders[1..], r)
  {
    assert ValidSender(senders[0]);
    if r == Some(senders[0].header) {
      assert TrafficOf(senders)[r] == [MessageOf(senders[0])];
    }
  }

  lemma FirstHeaderIsNew(senders: seq<Sender>)
    requires ValidSenders(senders) && senders != []
    ensures TrafficMatches(senders[1..], Some(senders[0].header)) == []
  {
    TrafficDomain(senders[1..], Some(senders[0].header));
  }

  lemma {:induction false} AnswersByResponder(senders: seq<Sender>, r: IsoTp.Responder)
    requires ValidSenders(senders)
    ensures MatchesOf(Answers(senders), r) == TrafficMatches(senders, r)
  {
    if senders != [] {
      TrafficMatchesCons(senders, r);
      FirstHeaderIsNew(senders);
      AnswersByResponder(senders[1..], r);
      MatchesOfCons(HeadMatch(senders[0]), Answers(senders[1..]), r);
      assert Answers(senders) == [HeadMatch(senders[0])] + Answers(senders[1..]);
    }
  }

  lemma AnswerDecodes(s: Sender)
    requires ValidSender(s)
    ensures Observation(Match(Some(s.header), EncodedPayload(s.codes, s.zeros))) == Expected(s)
  {
    DecodeInvertsEncode(s.codes, s.zeros);
  }

  lemma ObservationsCons(m: Match, ms: seq<Match>)
    ensures Observations([m] + ms) == [Observation(m)] + Observations(ms)
  {
  }

  lemma ExpectedCons(senders: seq<Sender>)
    requires senders != []
    ensures ExpectedAll(senders) == [Expected(senders[0])] + ExpectedAll(senders[1..])
  {
  }

  lemma {:induction false} AnswersDecode(senders: seq<Sender>)
    requires forall i | 0 <= i < |senders| :: ValidSender(senders[i])
    ensures Observations(Answers(senders)) == ExpectedAll(senders)
  {
    if senders != [] {
      var s := senders[0];
      assert ValidSender(s);
      AnswersDecode(senders[1..]);
      AnswerDecodes(s);
      ObservationsCons(Match(Some(s.header), EncodedPayload(s.codes, s.zeros)), Answers(senders[1..]));
      ExpectedCons(senders);
    }
  }

  /** End to end: encode every ECU's codes, segment, print with any interleaving,
      normalize, decode. The result is the sorted list of each ECU's code set.
      The right-hand side does not mention the interleaving. */
  lemma ScanIsExact(senders: seq<Sender>, stream: seq<Sent>, answer: string)
    requires ValidSenders(senders) && Interleaves(Mode03, stream, TrafficOf(senders))
    requires answer == TranscriptOf(stream)
    ensures DecodedScan(NormalizedText(Mode03, "03", answer).matches) == Sort(ExpectedAll(senders), ObservationKey())
    ensures stream != [] ==> NormalizedText(Mode03, "03", answer).issues == []
  {
    var traffic := TrafficOf(senders);
    TrafficIsLegible(senders);
    TextReassembly(Mode03, "03", stream, traffic);
    ReassemblyInvertsSegmentation(Mode03, stream, traffic);
    forall r ensures MatchesOf(Completed(stream), r) == MatchesOf(Answers(senders), r) {
      AnswersByResponder(senders, r);
      if r !in traffic {
        CompletedBy(stream, r);
        assert SentBy(stream, r) == [];
      }
    }
    SameByResponder(Completed(stream), Answers(senders));
    ScanIsOrderFree(Completed(stream), Answers(senders));
    AnswersDecode(senders);
  }

  // ---------------------------------------------------------------------
  // The program
  // ---------------------------------------------------------------------

  /** The same for the program: read the answer, normalize it, decode it. Whatever
      ECUs answer, and however their frames interleave, it reports the sorted list
      of each ECU's code set. */
  method Scan(response: string) returns (observations: seq<DtcObservation>)
    ensures observations == DecodedScan(NormalizedText(Mode03, "03", response).matches)
    ensures forall senders, stream | AnsweredBy(response, senders, stream) ::
              observations == Sort(ExpectedAll(senders), ObservationKey())
  {
    var responses := NormalizeMode03Responses(response);
    observations := DecodeMode03(responses.matches);
    forall senders, stream | AnsweredBy(response, senders, stream)
      ensures observations == Sort(ExpectedAll(senders), ObservationKey())
    {
      ScanIsExact(senders, stream, response);
    }
  }

  /** The response is what the adapter prints when these ECUs answer and `stream`
      is the order of their frames. */
  ghost predicate AnsweredBy(response: string, senders: seq<Sender>, stream: seq<Sent>) {
    ValidSenders(senders) && Interleaves(Mode03, stream, TrafficOf(senders)) && response == TranscriptOf(stream)
  }
}
