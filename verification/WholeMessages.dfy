/**
 * Where each payload of an answer comes from: handed over whole by some line, or
 * salvaged beside an issue. For UDS the issues alone tell how many were salvaged.
 */
module WholeMessages {
  import opened Prelude
  import opened IsoTp
  import opened ReassemblyTable
  import opened Reassembly
  import opened CompleteMessages
  import opened ElmText

  // ---------------------------------------------------------------------
  // The lines of one responder, one by one
  // ---------------------------------------------------------------------

  function LinePayloads(p: Profile, slot: Option<Assembly>, own: seq<Event>): seq<seq<byte>>
    requires NoSkip(own)
    decreases |own|
  {
    if own == [] then []
    else var o := ReceiveEvent(p, slot, own[0]); o.payloads + LinePayloads(p, o.slot, own[1..])
  }

  function LineProblems(p: Profile, slot: Option<Assembly>, own: seq<Event>): seq<Problem>
    requires NoSkip(own)
    decreases |own|
  {
    if own == [] then []
    else var o := ReceiveEvent(p, slot, own[0]); o.problems + LineProblems(p, o.slot, own[1..])
  }

  /** Only what lines without a problem hand over. */
  function CleanPayloads(p: Profile, slot: Option<Assembly>, own: seq<Event>): seq<seq<byte>>
    requires NoSkip(own)
    decreases |own|
  {
    if own == [] then []
    else
      var o := ReceiveEvent(p, slot, own[0]);
      (if o.problems == [] then o.payloads else []) + CleanPayloads(p, o.slot, own[1..])
  }

  /** What a message still in flight at the end adds. */
  function LeftPayloads(p: Profile, slot: Option<Assembly>): seq<seq<byte>> {
    if slot.Some? && p.Uds? && slot.value.payload != [] then [slot.value.payload] else []
  }

  function LeftProblems(slot: Option<Assembly>): seq<Problem> {
    if slot.Some? then [Truncated(slot.value.declared, |slot.value.payload|)] else []
  }

  predicate AllFrom(own: seq<Event>, r: Responder) {
    forall i | 0 <= i < |own| :: !own[i].Skip? && own[i].responder == r
  }

  lemma MatchesAppend(r: Responder, a: seq<seq<byte>>, b: seq<seq<byte>>)
    ensures Matches(r, a + b) == Matches(r, a) + Matches(r, b)
  {
  }

  lemma IssuesAppend(r: Responder, a: seq<Problem>, b: seq<Problem>)
    ensures Issues(r, a + b) == Issues(r, a) + Issues(r, b)
  {
  }

  lemma {:induction false} OwnRun(p: Profile, r: Responder, slot: Option<Assembly>,
                                  ms: seq<Match>, es: seq<Issue>, own: seq<Event>)
    requires AllFrom(own, r)
    ensures Run(p, Scan(Single(r, slot), ms, es), own) ==
            Scan(Single(r, SlotOf(p, slot, own)), ms + Matches(r, LinePayloads(p, slot, own)),
                 es + Issues(r, LineProblems(p, slot, own)))
    decreases |own|
  {
    if own == [] {
      assert ms + Matches(r, []) == ms && es + Issues(r, []) == es;
    } else {
      var o := ReceiveEvent(p, slot, own[0]);
      var payloads, problems := LinePayloads(p, o.slot, own[1..]), LineProblems(p, o.slot, own[1..]);
      PutSingle(r, slot, o.slot);
      OwnRun(p, r, o.slot, ms + Matches(r, o.payloads), es + Issues(r, o.problems), own[1..]);
      MatchesAppend(r, o.payloads, payloads);
      IssuesAppend(r, o.problems, problems);
      Regroup(ms, Matches(r, o.payloads), Matches(r, payloads));
      Regroup(es, Issues(r, o.problems), Issues(r, problems));
    }
  }

  lemma DrainSingle(p: Profile, r: Responder, slot: Option<Assembly>, ms: seq<Match>, es: seq<Issue>)
    ensures Drain(p, Scan(Single(r, slot), ms, es)) ==
            Scan([], ms + Matches(r, LeftPayloads(p, slot)), es + Issues(r, LeftProblems(slot)))
  {
    if slot.None? {
      assert ms + Matches(r, []) == ms && es + Issues(r, []) == es;
    } else {
      assert Single(r, slot)[1..] == [];
    }
  }

  function AllPayloads(p: Profile, own: seq<Event>): seq<seq<byte>>
    requires NoSkip(own)
  {
    LinePayloads(p, None, own) + LeftPayloads(p, SlotOf(p, None, own))
  }

  function AllProblems(p: Profile, own: seq<Event>): seq<Problem>
    requires NoSkip(own)
  {
    LineProblems(p, None, own) + LeftProblems(SlotOf(p, None, own))
  }

  lemma OwnCollected(p: Profile, r: Responder, own: seq<Event>)
    requires AllFrom(own, r)
    ensures Collected(p, own) == Scan([], Matches(r, AllPayloads(p, own)), Issues(r, AllProblems(p, own)))
  {
    var slot := SlotOf(p, None, own);
    var payloads, problems := LinePayloads(p, None, own), LineProblems(p, None, own);
    OwnRun(p, r, None, [], [], own);
    assert [] + Matches(r, payloads) == Matches(r, payloads) && [] + Issues(r, problems) == Issues(r, problems);
    DrainSingle(p, r, slot, Matches(r, payloads), Issues(r, problems));
    MatchesAppend(r, payloads, LeftPayloads(p, slot));
    IssuesAppend(r, problems, LeftProblems(slot));
  }

  lemma NotFoundNamesNobody(r: Responder)
    requires r.Some?
    ensures IssuesOf([Issue(None, NotFound)], r) == []
  {
    assert [Issue(None, NotFound)][1..] == [];
  }

  /** The part of an answer that belongs to a named responder, line by line. */
  lemma OwnResult(p: Profile, events: seq<Event>, r: Responder)
    requires r.Some?
    ensures AllFrom(EventsOf(events, r), r) && NoSkip(EventsOf(events, r))
    ensures MatchesOf(Normalized(p, events).matches, r) == Matches(r, AllPayloads(p, EventsOf(events, r)))
    ensures IssuesOf(Normalized(p, events).issues, r) == Issues(r, AllProblems(p, EventsOf(events, r)))
  {
    OwnIsNoSkip(events, r);
    CollectedOnly(p, events, r);
    OwnCollected(p, r, EventsOf(events, r));
    NotFoundNamesNobody(r);
  }

  // ---------------------------------------------------------------------
  // Clean lines complete messages
  // ---------------------------------------------------------------------

  /** Line `k` hands over `payload` and raises no issue. */
  predicate CleanAt(p: Profile, slot: Option<Assembly>, own: seq<Event>, k: nat, payload: seq<byte>)
    requires NoSkip(own)
  {
    k < |own| &&
    var o := ReceiveEvent(p, SlotOf(p, slot, own[..k]), own[k]);
    o.problems == [] && o.payloads == [payload]
  }

  lemma OneLinePayload(p: Profile, slot: Option<Assembly>, e: Event)
    requires !e.Skip?
    ensures |ReceiveEvent(p, slot, e).payloads| <= 1
  {
    if e.Frame? {
      OnePayload(p, slot, e.bytes);
    }
  }

  lemma CleanTail(p: Profile, slot: Option<Assembly>, own: seq<Event>, k: nat, payload: seq<byte>)
    requires NoSkip(own) && own != []
    ensures CleanAt(p, slot, own, k + 1, payload) <==>
            CleanAt(p, ReceiveEvent(p, slot, own[0]).slot, own[1..], k, payload)
  {
    if k + 1 < |own| {
      assert own[..k + 1][1..] == own[1..][..k];
    }
  }

  lemma CleanHead(p: Profile, slot: Option<Assembly>, own: seq<Event>, payload: seq<byte>)
    requires NoSkip(own) && own != []
    ensures var o := ReceiveEvent(p, slot, own[0]);
            CleanAt(p, slot, own, 0, payload) <==> payload in (if o.problems == [] then o.payloads else [])
  {
    OneLinePayload(p, slot, own[0]);
    assert own[..0] == [];
  }

  lemma {:induction false} CleanLine(p: Profile, slot: Option<Assembly>, own: seq<Event>, payload: seq<byte>)
    returns (k: nat)
    requires NoSkip(own) && payload in CleanPayloads(p, slot, own)
    ensures CleanAt(p, slot, own, k, payload)
    decreases |own|
  {
    var o := ReceiveEvent(p, slot, own[0]);
    CleanHead(p, slot, own, payload);
    CleanHeadOrTail(p, slot, own, payload);
    if payload in (if o.problems == [] then o.payloads else []) {
      k := 0;
    } else {
      k := CleanLine(p, o.slot, own[1..], payload);
      CleanTail(p, slot, own, k, payload);
      k := k + 1;
    }
  }

  lemma CleanHeadOrTail(p: Profile, slot: Option<Assembly>, own: seq<Event>, payload: seq<byte>)
    requires NoSkip(own) && own != []
    ensures var o := ReceiveEvent(p, slot, own[0]);
            payload in CleanPayloads(p, slot, own) <==>
            payload in (if o.problems == [] then o.payloads else []) || payload in CleanPayloads(p, o.slot, own[1..])
  {
  }

  lemma {:induction false} CleanIn(p: Profile, slot: Option<Assembly>, own: seq<Event>, k: nat, payload: seq<byte>)
    requires NoSkip(own) && CleanAt(p, slot, own, k, payload)
    ensures payload in CleanPayloads(p, slot, own)
    decreases |own|
  {
    CleanHeadOrTail(p, slot, own, payload);
    if k == 0 {
      CleanHead(p, slot, own, payload);
    } else {
      CleanTail(p, slot, own, k - 1, payload);
      CleanIn(p, ReceiveEvent(p, slot, own[0]).slot, own[1..], k - 1, payload);
    }
  }

  /** Line `k` completes a message with this payload: by itself, as a frame that
      stands alone or an unframed line between messages; or as the last frame of the
      message in flight, which is the responder's last first frame with every
      consecutive frame since, this one carrying exactly the missing bytes. */
  ghost predicate WholeAt(p: Profile, own: seq<Event>, k: nat, payload: seq<byte>)
  {
    k < |own| && own[k].Frame? &&
    var s := Sent(own[k].responder, own[k].bytes, Some(payload));
    if !InLane(p, s) then StandsAlone(p, s)
    else if IsUnframed(p, [s]) then SlotOf(p, None, own[..k]).None?
    else SlotOf(p, None, own[..k]).Some? && EndsTrail(p, own[..k], s)
  }

  ghost predicate EndsTrail(p: Profile, before: seq<Event>, s: Sent) {
    exists trail, a :: IsTrail(before, trail) && Gathers(trail, a) && Finishes(p, a, [s])
  }

  lemma TrailIsUnique(own: seq<Event>, t: seq<seq<byte>>, u: seq<seq<byte>>)
    requires IsTrail(own, t) && IsTrail(own, u)
    ensures t == u
  {
    var k: nat :| TrailStartsAt(own, k, t);
    var l: nat :| TrailStartsAt(own, l, u);
    assert !(k < l) && !(l < k);
  }

  lemma {:induction false} SlotIsSound(p: Profile, slot: Option<Assembly>, own: seq<Event>)
    requires NoSkip(own) && (slot.Some? ==> Sound(slot.value))
    ensures SlotOf(p, slot, own).Some? ==> Sound(SlotOf(p, slot, own).value)
    decreases |own|
  {
    if own != [] {
      ReceiveKeepsSound(p, slot, own[0]);
      SlotIsSound(p, ReceiveEvent(p, slot, own[0]).slot, own[1..]);
    }
  }

  /** The message in flight, described without the receiver. */
  lemma InFlight(p: Profile, own: seq<Event>, s: Sent)
    requires NoSkip(own) && SlotOf(p, None, own).Some?
    ensures Sound(SlotOf(p, None, own).value)
    ensures EndsTrail(p, own, s) <==> Finishes(p, SlotOf(p, None, own).value, [s])
  {
    var trail := TrailOf(p, None, [], own);
    SlotIsSound(p, None, own);
    OwnGathers(p, None, [], own);
    OwnIsTrail(p, None, [], [], own);
    assert [] + own == own;
    assert IsTrail(own, trail) && Gathers(trail, SlotOf(p, None, own).value);
    forall t, a | IsTrail(own, t) && Gathers(t, a) ensures a == SlotOf(p, None, own).value {
      TrailIsUnique(own, t, trail);
    }
  }

  lemma ContinuationIsClean(p: Profile, a: Assembly, s: Sent)
    requires Sound(a) && s.completes.Some? && s.frame != [] && s.frame[0] / 16 == 2
    ensures var o := Receive(p, Some(a), s.frame);
            o.problems == [] && o.payloads == Labels(s.completes) <==> Finishes(p, a, [s])
  {
    if |s.frame| >= 2 && s.frame[0] % 16 == a.next && |s.frame| - 1 >= a.declared - |a.payload| {
      LastFinishes(p, a, s);
    } else {
      ConsecutiveIsClean(p, Some(a), s);
    }
  }

  lemma LaneFrameIsClean(p: Profile, own: seq<Event>, s: Sent)
    requires NoSkip(own) && InLane(p, s) && s.completes.Some?
    ensures var o := Receive(p, SlotOf(p, None, own), s.frame);
            o.problems == [] && o.payloads == Labels(s.completes) <==>
            if IsUnframed(p, [s]) then SlotOf(p, None, own).None?
            else SlotOf(p, None, own).Some? && EndsTrail(p, own, s)
  {
    var slot := SlotOf(p, None, own);
    if slot.Some? {
      InFlight(p, own, s);
    }
    if s.frame == [] || s.frame[0] / 16 >= 4 {
      UnframedIsClean(p, slot, s);
    } else if s.frame[0] / 16 == 1 {
      FirstIsClean(p, slot, s);
    } else if slot.Some? {
      ContinuationIsClean(p, slot.value, s);
    }
  }

  /** A line hands over a payload without an issue exactly when it completes a
      message with that payload. */
  lemma CleanIffWhole(p: Profile, own: seq<Event>, k: nat, payload: seq<byte>)
    requires NoSkip(own)
    ensures CleanAt(p, None, own, k, payload) <==> WholeAt(p, own, k, payload)
  {
    if k < |own| && own[k].Frame? {
      var s := Sent(own[k].responder, own[k].bytes, Some(payload));
      assert NoSkip(own[..k]);
      if InLane(p, s) {
        LaneFrameIsClean(p, own[..k], s);
      } else {
        AloneIsClean(p, SlotOf(p, None, own[..k]), s);
      }
    }
  }

  /** Some line completes a message with this payload. */
  ghost predicate SentWhole(p: Profile, own: seq<Event>, payload: seq<byte>) {
    exists k: nat :: WholeAt(p, own, k, payload)
  }

  /** So the clean payloads are exactly the whole ones. */
  lemma CleanIsWhole(p: Profile, own: seq<Event>, payload: seq<byte>)
    requires NoSkip(own)
    ensures payload in CleanPayloads(p, None, own) <==> SentWhole(p, own, payload)
  {
    if payload in CleanPayloads(p, None, own) {
      var k := CleanLine(p, None, own, payload);
      CleanIffWhole(p, own, k, payload);
    }
    if SentWhole(p, own, payload) {
      var k: nat :| WholeAt(p, own, k, payload);
      CleanIffWhole(p, own, k, payload);
      CleanIn(p, None, own, k, payload);
    }
  }

  // ---------------------------------------------------------------------
  // UDS: counting what was salvaged
  // ---------------------------------------------------------------------

  /** Reports raised before a line is decoded. */
  predicate PlainEvent(e: Event) {
    e.Report? ==> e.problem.Rejected? || e.problem.BadHeader? || e.problem.IgnoredMode01?
  }

  predicate PlainEvents(events: seq<Event>) { forall i | 0 <= i < |events| :: PlainEvent(events[i]) }

  /** The problems beside which the UDS reader hands over incomplete bytes. */
  predicate IsSalvage(problem: Problem) {
    problem.TrailingSingle? || problem.Truncated? || (problem.TruncatedSingle? && problem.received > 0)
  }

  function SalvageProblem(): Problem -> bool { (problem: Problem) => IsSalvage(problem) }
  function SalvageIssue(): Issue -> bool { (i: Issue) => IsSalvage(i.problem) }

  function SalvageCount(problems: seq<Problem>): nat { |Filter(problems, SalvageProblem())| }

  lemma CountOne(problem: Problem)
    ensures SalvageCount([problem]) == if IsSalvage(problem) then 1 else 0
  {
    var one := [problem];
    assert one[1..] == [] && Filter(one[1..], SalvageProblem()) == [];
    assert Filter(one, SalvageProblem()) == if IsSalvage(problem) then [problem] else [];
  }

  lemma UdsLine(p: Profile, slot: Option<Assembly>, e: Event)
    requires p.Uds? && !e.Skip? && PlainEvent(e)
    ensures var o := ReceiveEvent(p, slot, e);
            |o.payloads| <= 1 && |o.problems| <= 1
            && (o.problems != [] ==> (|o.payloads| == 1 <==> IsSalvage(o.problems[0])))
  {
  }

  lemma UdsLineCounts(p: Profile, slot: Option<Assembly>, e: Event)
    requires p.Uds? && !e.Skip? && PlainEvent(e)
    ensures var o := ReceiveEvent(p, slot, e);
            |o.payloads| == (if o.problems == [] then |o.payloads| else 0) + SalvageCount(o.problems)
  {
    UdsLine(p, slot, e);
    var problems := ReceiveEvent(p, slot, e).problems;
    if problems != [] {
      CountOne(problems[0]);
      assert problems == [problems[0]];
    }
  }

  lemma {:induction false} UdsCounts(p: Profile, slot: Option<Assembly>, own: seq<Event>)
    requires p.Uds? && NoSkip(own) && PlainEvents(own)
    ensures |LinePayloads(p, slot, own)| == |CleanPayloads(p, slot, own)| + SalvageCount(LineProblems(p, slot, own))
    decreases |own|
  {
    if own != [] {
      var o := ReceiveEvent(p, slot, own[0]);
      UdsLineCounts(p, slot, own[0]);
      UdsCounts(p, o.slot, own[1..]);
      FilterAppend(o.problems, LineProblems(p, o.slot, own[1..]), SalvageProblem());
    }
  }

  lemma SlotHasBytesStep(p: Profile, slot: Option<Assembly>, e: Event)
    requires !e.Skip? && (slot.Some? ==> slot.value.payload != [])
    ensures var slot' := ReceiveEvent(p, slot, e).slot; slot'.Some? ==> slot'.value.payload != []
  {
    AcceptedChange(p, slot, e);
  }

  lemma {:induction false} SlotHasBytes(p: Profile, slot: Option<Assembly>, own: seq<Event>)
    requires NoSkip(own) && (slot.Some? ==> slot.value.payload != [])
    ensures SlotOf(p, slot, own).Some? ==> SlotOf(p, slot, own).value.payload != []
    decreases |own|
  {
    if own != [] {
      SlotHasBytesStep(p, slot, own[0]);
      SlotHasBytes(p, ReceiveEvent(p, slot, own[0]).slot, own[1..]);
    }
  }

  lemma LeftCounts(p: Profile, slot: Option<Assembly>)
    requires p.Uds? && (slot.Some? ==> slot.value.payload != [])
    ensures |LeftPayloads(p, slot)| == SalvageCount(LeftProblems(slot))
  {
    if slot.Some? {
      CountOne(LeftProblems(slot)[0]);
    }
  }

  lemma {:induction false} IssueCounts(r: Responder, problems: seq<Problem>)
    ensures |Filter(Issues(r, problems), SalvageIssue())| == SalvageCount(problems)
  {
    if problems != [] {
      assert Issues(r, problems)[1..] == Issues(r, problems[1..]);
      IssueCounts(r, problems[1..]);
    }
  }

  /** The issues of a named responder that come with incomplete bytes. */
  function Salvaged(issues: seq<Issue>, r: Responder): seq<Issue> {
    Filter(IssuesOf(issues, r), SalvageIssue())
  }

  lemma {:induction false} OwnIsPlain(events: seq<Event>, r: Responder)
    requires PlainEvents(events)
    ensures PlainEvents(EventsOf(events, r))
  {
    if events != [] {
      assert PlainEvents(events[1..]);
      OwnIsPlain(events[1..], r);
      EventsOfTail(events, r);
    }
  }

  /** Every UDS match of a responder is either whole or has its own salvage issue. */
  lemma MatchesAreWholeOrSalvaged(p: Profile, events: seq<Event>, r: Responder)
    requires p.Uds? && PlainEvents(events) && r.Some?
    ensures NoSkip(EventsOf(events, r))
    ensures |MatchesOf(Normalized(p, events).matches, r)| ==
            |CleanPayloads(p, None, EventsOf(events, r))| + |Salvaged(Normalized(p, events).issues, r)|
  {
    var own := EventsOf(events, r);
    var slot := SlotOf(p, None, own);
    OwnResult(p, events, r);
    OwnIsPlain(events, r);
    UdsCounts(p, None, own);
    SlotHasBytes(p, None, own);
    LeftCounts(p, slot);
    FilterAppend(LineProblems(p, None, own), LeftProblems(slot), SalvageProblem());
    IssueCounts(r, AllProblems(p, own));
  }

  lemma InMatches(r: Responder, payloads: seq<seq<byte>>, payload: seq<byte>)
    requires payload in payloads
    ensures Match(r, payload) in Matches(r, payloads)
  {
    var i :| 0 <= i < |payloads| && payloads[i] == payload;
    assert Matches(r, payloads)[i] == Match(r, payload);
  }

  lemma OwnMatches(p: Profile, events: seq<Event>, r: Responder, payload: seq<byte>)
    requires r.Some? && NoSkip(EventsOf(events, r)) && payload in CleanPayloads(p, None, EventsOf(events, r))
    ensures Match(r, payload) in Normalized(p, events).matches
  {
    var own := EventsOf(events, r);
    OwnResult(p, events, r);
    CleanIsAmongAll(p, None, own, payload);
    MatchesOfIn(Normalized(p, events).matches, r);
    InMatches(r, AllPayloads(p, own), payload);
  }

  lemma {:induction false} CleanIsAmongAll(p: Profile, slot: Option<Assembly>, own: seq<Event>, payload: seq<byte>)
    requires NoSkip(own) && payload in CleanPayloads(p, slot, own)
    ensures payload in LinePayloads(p, slot, own)
    decreases |own|
  {
    var o := ReceiveEvent(p, slot, own[0]);
    if payload !in o.payloads {
      CleanIsAmongAll(p, o.slot, own[1..], payload);
    }
  }

  /** When a selected answer was complete, exactly: some line of the expected
      responder completed a message with these bytes if and only if the responder
      has more matches than salvage issues. */
  lemma SelectedIsWholeIff(p: Profile, events: seq<Event>, target: string, payload: seq<byte>)
    requires p.Uds? && PlainEvents(events)
    requires TargetedPayload(Normalized(p, events).matches, target) == Selected(payload)
    ensures var r, all := Some(target), Normalized(p, events);
            SentWhole(p, EventsOf(events, r), payload) <==>
            |MatchesOf(all.matches, r)| > |Salvaged(all.issues, r)|
  {
    var r := Some(target);
    MatchesAreWholeOrSalvaged(p, events, r);
    var clean := CleanPayloads(p, None, EventsOf(events, r));
    CleanIsWhole(p, EventsOf(events, r), payload);
    if clean != [] {
      OwnMatches(p, events, r, clean[0]);
      SelectedMeans(Normalized(p, events).matches, target, payload);
      assert clean[0] == payload;
    }
  }

  /** All that a responder's answer holds was whole exactly when no salvage issue
      names it. */
  lemma AllWholeIffNotSalvaged(p: Profile, events: seq<Event>, r: Responder)
    requires p.Uds? && PlainEvents(events) && r.Some?
    ensures NoSkip(EventsOf(events, r))
    ensures MatchesOf(Normalized(p, events).matches, r) == Matches(r, CleanPayloads(p, None, EventsOf(events, r))) <==>
            Salvaged(Normalized(p, events).issues, r) == []
  {
    var own := EventsOf(events, r);
    MatchesAreWholeOrSalvaged(p, events, r);
    OwnResult(p, events, r);
    if Salvaged(Normalized(p, events).issues, r) == [] {
      CleanIsAll(p, None, own);
      assert LeftPayloads(p, SlotOf(p, None, own)) == [];
      assert AllPayloads(p, own) == LinePayloads(p, None, own);
    }
  }

  /** Clean payloads are all payloads if there are as many. */
  lemma {:induction false} CleanIsAll(p: Profile, slot: Option<Assembly>, own: seq<Event>)
    requires NoSkip(own)
    ensures |CleanPayloads(p, slot, own)| <= |LinePayloads(p, slot, own)|
    ensures |CleanPayloads(p, slot, own)| == |LinePayloads(p, slot, own)| ==>
              CleanPayloads(p, slot, own) == LinePayloads(p, slot, own)
    decreases |own|
  {
    if own != [] {
      CleanIsAll(p, ReceiveEvent(p, slot, own[0]).slot, own[1..]);
    }
  }

  // ---------------------------------------------------------------------
  // A stray line after a whole answer
  // ---------------------------------------------------------------------

  function Answer(r: Responder): Event { Frame(r, [0x02, 0x62, 0x01]) }
  function Stray(r: Responder): Event { Frame(r, [0x30, 0x00, 0x00]) }

  lemma AnswerReceived(p: Profile, r: Responder)
    requires p.Uds?
    ensures ReceiveEvent(p, None, Answer(r)) == Reception(None, [[0x62, 0x01]], [])
    ensures ReceiveEvent(p, None, Stray(r)) == Reception(None, [], [FlowControl])
  {
    assert [0x02, 0x62, 0x01][1..] == [0x62, 0x01];
    assert [0x62, 0x01][..2] == [0x62, 0x01];
  }

  lemma LineCons(p: Profile, slot: Option<Assembly>, e: Event, rest: seq<Event>)
    requires !e.Skip? && NoSkip(rest)
    ensures NoSkip([e] + rest)
    ensures var o := ReceiveEvent(p, slot, e);
            LinePayloads(p, slot, [e] + rest) == o.payloads + LinePayloads(p, o.slot, rest)
            && LineProblems(p, slot, [e] + rest) == o.problems + LineProblems(p, o.slot, rest)
            && CleanPayloads(p, slot, [e] + rest) == (if o.problems == [] then o.payloads else []) + CleanPayloads(p, o.slot, rest)
            && SlotOf(p, slot, [e] + rest) == SlotOf(p, o.slot, rest)
  {
    assert ([e] + rest)[1..] == rest;
  }

  lemma AnswerThenStray(p: Profile, r: Responder)
    requires p.Uds?
    ensures var own := [Answer(r), Stray(r)];
            AllPayloads(p, own) == [[0x62, 0x01]] && AllProblems(p, own) == [FlowControl]
            && CleanPayloads(p, None, own) == [[0x62, 0x01]]
  {
    AnswerReceived(p, r);
    LineCons(p, None, Stray(r), []);
    LineCons(p, None, Answer(r), [Stray(r)]);
    assert [Answer(r), Stray(r)] == [Answer(r)] + ([Stray(r)] + []);
  }

  lemma SelectedAlone(ms: seq<Match>, target: string, payload: seq<byte>)
    requires MatchesOf(ms, Some(target)) == [Match(Some(target), payload)]
    ensures TargetedPayload(ms, target) == Selected(payload)
  {
    MatchesOfIn(ms, Some(target));
    assert Match(Some(target), payload) in MatchesOf(ms, Some(target));
    SelectedMeans(ms, target, payload);
  }

  lemma OneMatch(r: Responder, payload: seq<byte>)
    ensures Matches(r, [payload]) == [Match(r, payload)]
  {
  }

  lemma OneIssue(r: Responder, problem: Problem)
    ensures Issues(r, [problem]) == [Issue(r, problem)]
  {
  }

  /** So an issue that names the responder does not mean that the selected answer
      was cut off: here it was whole, and a flow-control line follows. */
  lemma StrayLineIsBlamed(target: string)
    ensures var r := Some(target);
            var own := [Answer(r), Stray(r)];
            var all := Normalized(Uds(true), own);
            TargetedPayload(all.matches, target) == Selected([0x62, 0x01])
            && IssuesOf(all.issues, r) == [Issue(r, FlowControl)]
            && SentWhole(Uds(true), EventsOf(own, r), [0x62, 0x01])
  {
    var r, payload := Some(target), [0x62, 0x01];
    var own := [Answer(r), Stray(r)];
    var all := Normalized(Uds(true), own);
    FilterAll(own, OfEvent(r));
    AnswerThenStray(Uds(true), r);
    OwnResult(Uds(true), own, r);
    CleanIsWhole(Uds(true), own, payload);
    OneMatch(r, payload);
    OneIssue(r, FlowControl);
    SelectedAlone(all.matches, target, payload);
  }

  // ---------------------------------------------------------------------
  // On text
  // ---------------------------------------------------------------------

  lemma TextIsPlain(p: Profile, echo: string, lines: seq<string>)
    ensures PlainEvents(Events(p, echo, lines))
  {
  }

  /** The same of the text of a reply, with nothing assumed about it. */
  lemma SelectedFromTextIsWholeIff(p: Profile, echo: string, text: string, target: string, payload: seq<byte>)
    requires p.Uds?
    requires TargetedPayload(NormalizedText(p, echo, text).matches, target) == Selected(payload)
    ensures var r, all := Some(target), NormalizedText(p, echo, text);
            SentWhole(p, EventsOf(Events(p, echo, SplitLines(text)), r), payload) <==>
            |MatchesOf(all.matches, r)| > |Salvaged(all.issues, r)|
  {
    TextIsPlain(p, echo, SplitLines(text));
    SelectedIsWholeIff(p, Events(p, echo, SplitLines(text)), target, payload);
  }
}
