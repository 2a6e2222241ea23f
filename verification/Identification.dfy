/**
 * ECU identification: how one normalized answer is classified, and exactly which
 * reply texts make an identifier supported.
 */
module Identification {
  import opened Prelude
  import opened Ordering
  import opened IsoTp
  import opened ReassemblyTable
  import opened Reassembly
  import opened CompleteMessages
  import opened ElmText

  datatype Status =
    | Supported | Unsupported | NegativeResponse | Unavailable
    | Malformed | Timeout | TransportError | NotProbed

  /** A target mapping: its place in the derived order, whether it is known with
      high confidence, its request address and its responder's value. */
  datatype Mapping = Mapping(rank: seq<int>, confident: bool, address: Option<string>,
                             responder: Option<string>, contextsAgree: bool)

  /** A candidate of the identification plan. */
  datatype Candidate = Candidate(did: nat, metadataComplete: bool)

  /** Notes stand for error texts. */
  datatype Note =
    | FromIssue(issue: Issue) | NoPayload | Conflict | BadFraming | Invalid
    | Transport(timeout: bool) | Aborted

  datatype Observation = Observation(
    mapping: Mapping, candidate: Candidate, status: Status, responses: seq<Match>,
    nrc: Option<byte>, value: Option<seq<byte>>, notes: seq<Note>)

  // ---------------------------------------------------------------------
  // Validating one payload
  // ---------------------------------------------------------------------

  datatype Verdict = Value(value: seq<byte>) | Refused(nrc: byte) | Wrong

  /** `62 DID data` with at least one data byte, or `7F 22 NRC`. */
  function ValidateResponse(did: nat, payload: seq<byte>): Verdict {
    if |payload| >= 2 && payload[0] == 0x7F && payload[1] == 0x22 then
      if |payload| != 3 then Wrong else Refused(payload[2])
    else if |payload| < 3 || payload[0] != 0x62 then Wrong
    else
      var high: int := payload[1];
      if high * 256 + payload[2] != did || |payload| == 3 then Wrong else Value(payload[3..])
  }

  function StatusForNrc(nrc: byte): Status {
    if nrc == 0x11 || nrc == 0x31 then Unsupported
    else if nrc == 0x22 || nrc == 0x33 || nrc == 0x7E || nrc == 0x7F then Unavailable
    else NegativeResponse
  }

  // ---------------------------------------------------------------------
  // The consistency that evidence must satisfy
  // ---------------------------------------------------------------------

  predicate StatusConsistent(o: Observation) {
    match o.status
    case Supported => o.value.Some? && o.nrc.None?
    case Unsupported => o.nrc.Some? && o.value.None?
    case NegativeResponse => o.nrc.Some? && o.value.None?
    case Unavailable => o.value.None? && (o.nrc.Some? || o.notes != [])
    case Malformed => o.value.None?
    case Timeout => o.nrc.None? && o.value.None? && o.notes != []
    case TransportError => o.nrc.None? && o.value.None? && o.notes != []
    case NotProbed => o.nrc.None? && o.value.None? && o.responses == []
  }

  /** The whole check: complete metadata, not the VIN, one context, an address. */
  predicate Valid(o: Observation) {
    o.candidate.metadataComplete && o.candidate.did != 0xF190 && o.mapping.contextsAgree
    && o.mapping.address.Some? && StatusConsistent(o)
  }

  // ---------------------------------------------------------------------
  // Classifying a normalized answer
  // ---------------------------------------------------------------------

  predicate SameIgnoringCase(r: Responder, expected: string) {
    r.Some? && Upper(r.value) == Upper(expected)
  }

  function Matching(ms: seq<Match>, expected: string): seq<Match> {
    if ms == [] then []
    else if SameIgnoringCase(ms[0].responder, expected) then [ms[0]] + Matching(ms[1..], expected)
    else Matching(ms[1..], expected)
  }

  predicate HasExpectedError(issues: seq<Issue>, expected: string) {
    exists i | 0 <= i < |issues| :: SameIgnoringCase(issues[i].responder, expected)
  }

  predicate AdapterUnavailable(r: Responses) {
    r.matches == [] && exists i | 0 <= i < |r.issues| :: r.issues[i].responder.None? && r.issues[i].problem.Rejected?
  }

  function Notes(issues: seq<Issue>): seq<Note> {
    seq(|issues|, i requires 0 <= i < |issues| => FromIssue(issues[i]))
  }

  function Classified(c: Candidate, m: Mapping, r: Responses): Observation
    requires m.responder.Some?
  {
    var expected := m.responder.value;
    var matching := Matching(r.matches, expected);
    var broken := HasExpectedError(r.issues, expected);
    var notes := Notes(r.issues);
    if matching == [] then
      var status := if AdapterUnavailable(r) then Unavailable
                    else if broken || r.matches != [] then Malformed
                    else Unavailable;
      Observation(m, c, status, r.matches, None, None, notes + [NoPayload])
    else
      var payload := matching[0].payload;
      if exists i | 0 <= i < |matching| :: matching[i].payload != payload then
        Observation(m, c, Malformed, r.matches, None, None, notes + [Conflict])
      else if broken then
        Observation(m, c, Malformed, r.matches, None, None, notes + [BadFraming])
      else
        match ValidateResponse(c.did, payload)
        case Value(value) => Observation(m, c, Supported, r.matches, None, Some(value), notes)
        case Refused(nrc) => Observation(m, c, StatusForNrc(nrc), r.matches, Some(nrc), None, notes)
        case Wrong => Observation(m, c, Malformed, r.matches, None, None, notes + [Invalid])
  }

  /** The classifier appends to the error list as it decides. */
  method Classify(c: Candidate, m: Mapping, r: Responses) returns (o: Observation)
    requires m.responder.Some?
    ensures o == Classified(c, m, r) && StatusConsistent(o) && o.status != NotProbed
  {
    var expected := m.responder.value;
    var matching := Matching(r.matches, expected);
    var broken := HasExpectedError(r.issues, expected);
    var errors := Notes(r.issues);
    var status := Malformed;
    var nrc, value := None, None;
    if matching == [] {
      errors := errors + [NoPayload];
      if AdapterUnavailable(r) {
        status := Unavailable;
      } else if broken || r.matches != [] {
        status := Malformed;
      } else {
        status := Unavailable;
      }
    } else {
      var payload := matching[0].payload;
      if exists i | 0 <= i < |matching| :: matching[i].payload != payload {
        errors := errors + [Conflict];
      } else if broken {
        errors := errors + [BadFraming];
      } else {
        match ValidateResponse(c.did, payload) {
          case Value(v) => status, value := Supported, Some(v);
          case Refused(n) => status, nrc := StatusForNrc(n), Some(n);
          case Wrong => errors := errors + [Invalid];
        }
      }
    }
    o := Observation(m, c, status, r.matches, nrc, value, errors);
  }

  // ---------------------------------------------------------------------
  // From adapter text: a supported value was received completely
  // ---------------------------------------------------------------------

  predicate IsIgnoredMode01(i: Issue) {
    i.responder.None? && i.problem.IgnoredMode01?
  }

  predicate ShouldRetryStale(r: Responses) {
    r.matches == [] && r.issues != [] && forall i | 0 <= i < |r.issues| :: IsIgnoredMode01(r.issues[i])
  }

  function Merged(first: Responses, retry: Responses): Responses {
    Responses(first.matches + retry.matches, first.issues + retry.issues)
  }

  const Reads := Uds(true)

  /** The answer to an identification read; a reply made only of stale Mode 01
      frames is asked for once more and both replies are merged. */
  function IdentificationAnswer(echo: string, first: string, retry: string): Responses {
    var r := NormalizedText(Reads, echo, first);
    if ShouldRetryStale(r) then Merged(r, NormalizedText(Reads, echo, retry)) else r
  }

  /** The reply that can hold the answer. */
  function DecidingText(echo: string, first: string, retry: string): string {
    if ShouldRetryStale(NormalizedText(Reads, echo, first)) then retry else first
  }

  predicate UpperOnly(r: Responder) { r.Some? ==> Upper(r.value) == r.value }

  predicate UpperScan(s: Scan) {
    (forall i | 0 <= i < |s.table| :: UpperOnly(s.table[i].responder))
    && (forall i | 0 <= i < |s.matches| :: UpperOnly(s.matches[i].responder))
    && (forall i | 0 <= i < |s.issues| :: UpperOnly(s.issues[i].responder))
  }

  lemma UpperIdempotent(s: string)
    ensures Upper(Upper(s)) == Upper(s)
  {
  }

  lemma {:induction false} UpperRun(p: Profile, s: Scan, events: seq<Event>)
    requires UpperScan(s)
    requires forall i | 0 <= i < |events| :: events[i].Skip? || UpperOnly(events[i].responder)
    ensures UpperScan(Run(p, s, events))
    decreases |events|
  {
    if events != [] {
      var e := events[0];
      if !e.Skip? {
        var slot := ReceiveEvent(p, Lookup(s.table, e.responder), e).slot;
        PutEntries(s.table, e.responder, slot);
        assert forall x | x in s.table :: UpperOnly(x.responder);
        assert forall i | 0 <= i < |Put(s.table, e.responder, slot)| ::
            Put(s.table, e.responder, slot)[i] in Put(s.table, e.responder, slot);
      }
      UpperRun(p, Step(p, s, e), events[1..]);
    }
  }

  lemma {:induction false} UpperDrain(p: Profile, s: Scan)
    requires UpperScan(s)
    ensures UpperScan(Drain(p, s))
    decreases |s.table|
  {
    if s.table != [] {
      var e := s.table[0];
      var o := Leftover(p, e);
      UpperDrain(p, Scan(s.table[1..], s.matches + Matches(e.responder, o.payloads),
                         s.issues + Issues(e.responder, o.problems)));
    }
  }

  predicate UpperResponses(r: Responses) {
    (forall i | 0 <= i < |r.matches| :: UpperOnly(r.matches[i].responder))
    && (forall i | 0 <= i < |r.issues| :: UpperOnly(r.issues[i].responder))
  }

  lemma UpperNames(echo: string, text: string)
    ensures UpperResponses(NormalizedText(Reads, echo, text))
  {
    var events := Events(Reads, echo, SplitLines(text));
    forall i | 0 <= i < |events| ensures events[i].Skip? || UpperOnly(events[i].responder) {
      var tokens := Tokens(CleanLine(SplitLines(text)[i]));
      if HeaderOf(tokens).Some? {
        UpperIdempotent(HeaderOf(tokens).value);
      }
    }
    UpperRun(Reads, Fresh, events);
    UpperDrain(Reads, Run(Reads, Fresh, events));
  }

  lemma {:induction false} MatchingIsExact(ms: seq<Match>, expected: string)
    requires forall i | 0 <= i < |ms| :: UpperOnly(ms[i].responder)
    ensures Matching(ms, expected) == MatchesOf(ms, Some(Upper(expected)))
  {
    if ms != [] {
      UpperIdempotent(expected);
      MatchingIsExact(ms[1..], expected);
    }
  }

  lemma {:induction false} ExpectedErrorIsExact(issues: seq<Issue>, expected: string)
    requires forall i | 0 <= i < |issues| :: UpperOnly(issues[i].responder)
    ensures HasExpectedError(issues, expected) <==> IssuesOf(issues, Some(Upper(expected))) != []
  {
    if issues != [] {
      UpperIdempotent(expected);
      var rest := issues[1..];
      ExpectedErrorIsExact(rest, expected);
      if HasExpectedError(rest, expected) {
        var i :| 0 <= i < |rest| && SameIgnoringCase(rest[i].responder, expected);
        assert issues[i + 1] == rest[i];
      }
      if i :| 0 <= i < |issues| && SameIgnoringCase(issues[i].responder, expected) {
        assert i > 0 ==> rest[i - 1] == issues[i];
      }
    }
  }

  /** The messages of the deciding reply that come from the expected responder. */
  ghost predicate CompleteAnswer(echo: string, text: string, expected: string, payload: seq<byte>) {
    exists sents ::
      Accounts(Reads, sents, Events(Reads, echo, SplitLines(text)), Some(Upper(expected)))
      && Completed(sents) != []
      && forall i | 0 <= i < |Completed(sents)| :: Completed(sents)[i].payload == payload
  }

  /** What the classifier looks at in a reply before it looks at the bytes. */
  predicate Agreed(r: Responses, expected: string, payload: seq<byte>) {
    var matching := Matching(r.matches, expected);
    matching != [] && !HasExpectedError(r.issues, expected)
    && forall i | 0 <= i < |matching| :: matching[i].payload == payload
  }

  lemma AgreedIsComplete(echo: string, text: string, expected: string, payload: seq<byte>)
    ensures Agreed(NormalizedText(Reads, echo, text), expected, payload) <==> CompleteAnswer(echo, text, expected, payload)
  {
    var r := NormalizedText(Reads, echo, text);
    var events := Events(Reads, echo, SplitLines(text));
    var name := Some(Upper(expected));
    UpperNames(echo, text);
    MatchingIsExact(r.matches, expected);
    ExpectedErrorIsExact(r.issues, expected);
    CleanIffComplete(Reads, events, name);
    forall sents | Accounts(Reads, sents, events, name)
      ensures Completed(sents) == Matching(r.matches, expected)
    {
      CompleteMatches(Reads, events, name, sents);
    }
  }

  lemma NoneExpected(issues: seq<Issue>, expected: string)
    requires forall i | 0 <= i < |issues| :: IsIgnoredMode01(issues[i])
    ensures !HasExpectedError(issues, expected)
  {
  }

  lemma ErrorInEither(a: seq<Issue>, b: seq<Issue>, expected: string)
    ensures HasExpectedError(a + b, expected) <==> HasExpectedError(a, expected) || HasExpectedError(b, expected)
  {
    if i :| 0 <= i < |a| && SameIgnoringCase(a[i].responder, expected) {
      assert (a + b)[i] == a[i];
    }
    if i :| 0 <= i < |b| && SameIgnoringCase(b[i].responder, expected) {
      assert (a + b)[|a| + i] == b[i];
    }
  }

  lemma MergedDecides(first: Responses, retry: Responses, expected: string)
    requires ShouldRetryStale(first)
    ensures var all := Merged(first, retry);
            all.matches == retry.matches && (HasExpectedError(all.issues, expected) <==> HasExpectedError(retry.issues, expected))
  {
    NoneExpected(first.issues, expected);
    ErrorInEither(first.issues, retry.issues, expected);
  }

  /** The stale reply before a retry decides nothing. */
  lemma DecidingPart(echo: string, first: string, retry: string, expected: string, payload: seq<byte>)
    ensures Agreed(IdentificationAnswer(echo, first, retry), expected, payload) <==>
            Agreed(NormalizedText(Reads, echo, DecidingText(echo, first, retry)), expected, payload)
  {
    var r := NormalizedText(Reads, echo, first);
    if ShouldRetryStale(r) {
      MergedDecides(r, NormalizedText(Reads, echo, retry), expected);
    }
  }

  /** `62`, the identifier, the value. */
  function PositiveAnswer(did: nat, value: seq<byte>): seq<byte>
    requires did <= 0xFFFF
  {
    [0x62, did / 256, did % 256] + value
  }

  lemma ValueIffPositive(did: nat, payload: seq<byte>, value: seq<byte>)
    requires did <= 0xFFFF
    ensures ValidateResponse(did, payload) == Value(value) <==> value != [] && payload == PositiveAnswer(did, value)
  {
    if ValidateResponse(did, payload) == Value(value) {
      var high: int := payload[1];
      assert high == did / 256 && payload[2] == did % 256;
      assert payload == [payload[0], payload[1], payload[2]] + payload[3..];
    } else if payload == PositiveAnswer(did, value) {
      assert payload[3..] == value;
    }
  }

  predicate Reports(o: Observation, value: seq<byte>) { o.status == Supported && o.value == Some(value) }

  lemma ReportsIffAgreed(c: Candidate, m: Mapping, r: Responses, value: seq<byte>)
    requires m.responder.Some? && c.did <= 0xFFFF
    ensures Reports(Classified(c, m, r), value) <==>
            value != [] && Agreed(r, m.responder.value, PositiveAnswer(c.did, value))
  {
    var matching := Matching(r.matches, m.responder.value);
    if matching != [] {
      ValueIffPositive(c.did, matching[0].payload, value);
    }
  }

  /** An observation is `Supported` with a value exactly when the expected
      responder sent complete messages only in the deciding reply, all of them
      agree, and they are the positive answer to this very identifier with exactly
      that value, which is not empty. */
  lemma SupportedIffComplete(c: Candidate, m: Mapping, echo: string, first: string, retry: string, value: seq<byte>)
    requires m.responder.Some? && c.did <= 0xFFFF
    ensures Reports(Classified(c, m, IdentificationAnswer(echo, first, retry)), value) <==>
            value != [] && CompleteAnswer(echo, DecidingText(echo, first, retry), m.responder.value,
                                          PositiveAnswer(c.did, value))
  {
    var payload := PositiveAnswer(c.did, value);
    ReportsIffAgreed(c, m, IdentificationAnswer(echo, first, retry), value);
    DecidingPart(echo, first, retry, m.responder.value, payload);
    AgreedIsComplete(echo, DecidingText(echo, first, retry), m.responder.value, payload);
  }

  // ---------------------------------------------------------------------
  // What every status means
  // ---------------------------------------------------------------------

  /** `7F 22` and the reason. */
  function Refusal(nrc: byte): seq<byte> { [0x7F, 0x22, nrc] }

  /** Neither the positive answer with a value nor a refusal. */
  predicate Nonsense(did: nat, payload: seq<byte>)
    requires did <= 0xFFFF
  {
    !(exists nrc: byte :: payload == Refusal(nrc))
    && !(|payload| > 3 && payload[..3] == [0x62, did / 256, did % 256])
  }

  lemma VerdictMeans(did: nat, payload: seq<byte>)
    requires did <= 0xFFFF
    ensures var v := ValidateResponse(did, payload);
            (v.Value? <==> |payload| > 3 && payload[..3] == [0x62, did / 256, did % 256])
            && (v.Refused? ==> payload == Refusal(v.nrc))
            && (v.Wrong? <==> Nonsense(did, payload))
    ensures forall nrc: byte | payload == Refusal(nrc) :: ValidateResponse(did, payload) == Refused(nrc)
  {
    if |payload| == 3 && payload[0] == 0x7F && payload[1] == 0x22 {
      assert payload == Refusal(payload[2]);
    }
    if |payload| >= 3 && payload[0] == 0x62 {
      var high: int := payload[1];
      assert payload[..3] == [0x62, payload[1], payload[2]];
      assert high * 256 + payload[2] == did <==> payload[1] == did / 256 && payload[2] == did % 256;
    }
    assert |payload| > 3 && payload[..3] == [0x62, did / 256, did % 256] ==>
           payload[0] == 0x62 && payload[1] == did / 256 && payload[2] == did % 256 by {
      if |payload| > 3 && payload[..3] == [0x62, did / 256, did % 256] {
        assert payload[0] == payload[..3][0] && payload[1] == payload[..3][1] && payload[2] == payload[..3][2];
      }
    }
  }

  /** Refusals that mean "not supported", and those that mean "not now". */
  const NotSupported: set<byte> := {0x11, 0x31}
  const NotNow: set<byte> := {0x22, 0x33, 0x7E, 0x7F}

  function StatusOfRefusal(nrc: byte): Status {
    if nrc in NotSupported then Unsupported else if nrc in NotNow then Unavailable else NegativeResponse
  }

  /** No match names the expected responder. */
  predicate Silent(r: Responses, expected: string) {
    forall i | 0 <= i < |r.matches| :: !SameIgnoringCase(r.matches[i].responder, expected)
  }

  lemma {:induction false} SilentMatches(ms: seq<Match>, expected: string)
    ensures Matching(ms, expected) == [] <==> forall i | 0 <= i < |ms| :: !SameIgnoringCase(ms[i].responder, expected)
  {
    if ms != [] {
      SilentMatches(ms[1..], expected);
      assert forall i | 0 < i < |ms| :: ms[i] == ms[1..][i - 1];
    }
  }

  /** Without an answer of the expected responder: unavailable if nothing arrived and
      the adapter reported a rejection or nothing went wrong for this responder. */
  lemma SilentStatus(c: Candidate, m: Mapping, r: Responses)
    requires m.responder.Some? && Silent(r, m.responder.value)
    ensures var o := Classified(c, m, r);
            o.nrc.None? && o.value.None? && o.responses == r.matches
            && o.notes == Notes(r.issues) + [NoPayload]
            && o.status == if r.matches == [] && (HasExpectedError(r.issues, m.responder.value) ==> Issue(None, Rejected) in r.issues)
                           then Unavailable else Malformed
  {
    SilentMatches(r.matches, m.responder.value);
  }

  /** Two matches name the expected responder and differ. */
  predicate Contradicts(r: Responses, expected: string) {
    exists i, j | 0 <= i < |r.matches| && 0 <= j < |r.matches| ::
      SameIgnoringCase(r.matches[i].responder, expected) && SameIgnoringCase(r.matches[j].responder, expected)
      && r.matches[i].payload != r.matches[j].payload
  }

  lemma {:induction false} MatchingIn(ms: seq<Match>, expected: string)
    ensures forall m :: m in Matching(ms, expected) <==> m in ms && SameIgnoringCase(m.responder, expected)
  {
    if ms != [] {
      MatchingIn(ms[1..], expected);
      assert ms == [ms[0]] + ms[1..];
    }
  }

  lemma ContradictionShows(r: Responses, expected: string)
    requires Matching(r.matches, expected) != []
    ensures var matching := Matching(r.matches, expected);
            Contradicts(r, expected) <==> exists i | 0 <= i < |matching| :: matching[i].payload != matching[0].payload
  {
    var matching := Matching(r.matches, expected);
    MatchingIn(r.matches, expected);
    if i :| 0 <= i < |matching| && matching[i].payload != matching[0].payload {
      assert matching[i] in matching && matching[0] in matching;
    }
    if Contradicts(r, expected) {
      var i, j :| 0 <= i < |r.matches| && 0 <= j < |r.matches|
        && SameIgnoringCase(r.matches[i].responder, expected) && SameIgnoringCase(r.matches[j].responder, expected)
        && r.matches[i].payload != r.matches[j].payload;
      assert r.matches[i] in matching && r.matches[j] in matching;
    }
  }

  /** Answers of the expected responder that differ, or come with an issue of it. */
  lemma UnclearStatus(c: Candidate, m: Mapping, r: Responses)
    requires m.responder.Some? && !Silent(r, m.responder.value)
    requires Contradicts(r, m.responder.value) || HasExpectedError(r.issues, m.responder.value)
    ensures var o := Classified(c, m, r);
            o.status == Malformed && o.nrc.None? && o.value.None? && o.responses == r.matches
            && o.notes == Notes(r.issues) + [if Contradicts(r, m.responder.value) then Conflict else BadFraming]
  {
    SilentMatches(r.matches, m.responder.value);
    ContradictionShows(r, m.responder.value);
  }

  /** Otherwise they agree. */
  lemma ClearAgrees(r: Responses, expected: string)
    ensures (exists payload :: Agreed(r, expected, payload)) <==>
            !Silent(r, expected) && !Contradicts(r, expected) && !HasExpectedError(r.issues, expected)
  {
    SilentMatches(r.matches, expected);
    var matching := Matching(r.matches, expected);
    if matching != [] {
      ContradictionShows(r, expected);
      if !Contradicts(r, expected) && !HasExpectedError(r.issues, expected) {
        assert Agreed(r, expected, matching[0].payload);
      }
    }
    if payload :| Agreed(r, expected, payload) {
      ContradictionShows(r, expected);
    }
  }

  /** One agreed answer: supported with its value, refused with its reason, or
      malformed. */
  lemma AgreedStatus(c: Candidate, m: Mapping, r: Responses, payload: seq<byte>)
    requires m.responder.Some? && c.did <= 0xFFFF && Agreed(r, m.responder.value, payload)
    ensures var o := Classified(c, m, r);
            (o.status == Supported <==> |payload| > 3 && payload[..3] == [0x62, c.did / 256, c.did % 256])
            && (o.status == Supported ==> o.value == Some(payload[3..]) && o.nrc.None? && o.notes == Notes(r.issues))
            && (Nonsense(c.did, payload) ==>
                  o.status == Malformed && o.nrc.None? && o.value.None? && o.notes == Notes(r.issues) + [Invalid])
    ensures forall nrc: byte | payload == Refusal(nrc) ::
              var o := Classified(c, m, r);
              o.status == StatusOfRefusal(nrc) && o.nrc == Some(nrc) && o.value.None? && o.notes == Notes(r.issues)
  {
    VerdictMeans(c.did, payload);
    assert Matching(r.matches, m.responder.value)[0].payload == payload;
  }

  /** From text: refused for `nrc`, with the status that belongs to it, exactly when
      the expected responder sent complete messages only, and all of them say so. */
  lemma RefusedIffComplete(c: Candidate, m: Mapping, echo: string, first: string, retry: string, nrc: byte)
    requires m.responder.Some? && c.did <= 0xFFFF
    ensures var o := Classified(c, m, IdentificationAnswer(echo, first, retry));
            (o.nrc == Some(nrc) <==> CompleteAnswer(echo, DecidingText(echo, first, retry), m.responder.value, Refusal(nrc)))
            && (o.nrc == Some(nrc) ==> o.status == StatusOfRefusal(nrc))
  {
    var r := IdentificationAnswer(echo, first, retry);
    DecidingPart(echo, first, retry, m.responder.value, Refusal(nrc));
    AgreedIsComplete(echo, DecidingText(echo, first, retry), m.responder.value, Refusal(nrc));
    RefusedIffAgreed(c, m, r, nrc);
  }

  lemma RefusedIffAgreed(c: Candidate, m: Mapping, r: Responses, nrc: byte)
    requires m.responder.Some? && c.did <= 0xFFFF
    ensures var o := Classified(c, m, r);
            (o.nrc == Some(nrc) <==> Agreed(r, m.responder.value, Refusal(nrc)))
            && (o.nrc == Some(nrc) ==> o.status == StatusOfRefusal(nrc))
  {
    var expected := m.responder.value;
    if Silent(r, expected) {
      SilentStatus(c, m, r);
      SilentMatches(r.matches, expected);
    } else if Contradicts(r, expected) || HasExpectedError(r.issues, expected) {
      UnclearStatus(c, m, r);
      ClearAgrees(r, expected);
    } else {
      ClearAgrees(r, expected);
      var payload :| Agreed(r, expected, payload);
      AgreedStatus(c, m, r, payload);
      VerdictMeans(c.did, payload);
      assert Matching(r.matches, expected)[0].payload == payload;
    }
  }

  /** A reply is asked for once more exactly when it holds nothing but lines that were
      set aside as stale, and at least one of them. */
  lemma RetryMeans(r: Responses)
    ensures ShouldRetryStale(r) <==>
            r.matches == [] && r.issues != [] && forall i <- r.issues :: i.responder.None? && i.problem.IgnoredMode01?
  {
    assert forall i | 0 <= i < |r.issues| :: r.issues[i] in r.issues;
  }

  /** What an entry may hold, field by field. */
  lemma ConsistentMeans(o: Observation)
    ensures StatusConsistent(o) <==>
            (o.value.Some? <==> o.status == Supported)
            && (o.status in {Unsupported, NegativeResponse} ==> o.nrc.Some?)
            && (o.nrc.Some? ==> o.status in {Unsupported, NegativeResponse, Unavailable, Malformed})
            && (o.status in {Timeout, TransportError} ==> o.notes != [])
            && (o.status == Unavailable && o.notes == [] ==> o.nrc.Some?)
            && (o.status == NotProbed ==> o.responses == [])
  {
  }

  /** After a retry the stale lines of the first reply stay in the evidence. */
  lemma RetryKeepsIssues(echo: string, first: string, retry: string)
    ensures var all, one, two := IdentificationAnswer(echo, first, retry),
                                 NormalizedText(Reads, echo, first), NormalizedText(Reads, echo, retry);
            if ShouldRetryStale(one) then all.matches == two.matches && all.issues == one.issues + two.issues
            else all == one
  {
  }
}
