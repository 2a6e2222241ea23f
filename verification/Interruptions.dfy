/**
 * A message whose frames do not come alone: which lines of its own sender leave it
 * whole, which ones destroy it, and what the answer then holds.
 */
module Interruptions {
  import opened Prelude
  import opened IsoTp
  import opened ReassemblyTable
  import opened Reassembly
  import opened CompleteMessages
  import opened WholeMessages
  import opened TargetedReads
  import opened StrayLines
  import opened Conversations
  import DtcEvidence
  import DtcScan

  /** A frame of a message, labelled with the payload that it completes. */
  predicate IsSent(t: Told, s: Sent) {
    t == Told(Frame(s.responder, s.frame), Labels(s.completes), [])
  }

  /** `told` is `sents` with lines between them that leave a message in flight alone. */
  ghost predicate Among(p: Profile, told: seq<Told>, sents: seq<Sent>)
    decreases |told|
  {
    if told == [] then sents == []
    else (Passive(p, told[0]) && Among(p, told[1..], sents))
         || (sents != [] && IsSent(told[0], sents[0]) && Among(p, told[1..], sents[1..]))
  }

  /** Frame by frame the receiver does what the labels say, and ends with `end`. */
  predicate Clean(p: Profile, slot: Option<Assembly>, sents: seq<Sent>, end: Option<Assembly>)
    decreases |sents|
  {
    if sents == [] then slot == end
    else
      var o := Receive(p, slot, sents[0].frame);
      o.problems == [] && o.payloads == Labels(sents[0].completes) && Clean(p, o.slot, sents[1..], end)
  }

  lemma {:induction false} FaithfulIsClean(p: Profile, slot: Option<Assembly>, sents: seq<Sent>)
    requires Faithful(p, slot, sents)
    ensures Clean(p, slot, sents, None)
    decreases |sents|
  {
    if sents != [] {
      FaithfulIsClean(p, Receive(p, slot, sents[0].frame).slot, sents[1..]);
    }
  }

  /** What the lines between the frames do not change. */
  lemma {:induction false} AmongIsHeard(p: Profile, slot: Option<Assembly>, told: seq<Told>, sents: seq<Sent>, end: Option<Assembly>)
    requires Among(p, told, sents) && Clean(p, slot, sents, end)
    ensures NoSkip(Lines(told))
    ensures LinePayloads(p, slot, Lines(told)) == AddedPayloads(told)
    ensures LineProblems(p, slot, Lines(told)) == AddedProblems(told)
    ensures SlotOf(p, slot, Lines(told)) == end
    decreases |told|
  {
    if told != [] {
      var slot' := slot;
      if Passive(p, told[0]) && Among(p, told[1..], sents) {
        PassiveHeard(p, slot, told[0]);
        AmongIsHeard(p, slot, told[1..], sents, end);
      } else {
        slot' := Receive(p, slot, sents[0].frame).slot;
        AmongIsHeard(p, slot', told[1..], sents[1..], end);
      }
      LinesMore(told);
      LineCons(p, slot, told[0].line, Lines(told[1..]));
    }
  }

  /** Complete messages with such lines anywhere among their frames: the answer
      holds all of them, and what each of those lines adds. */
  lemma CompleteWithAsides(p: Profile, events: seq<Event>, r: Responder, told: seq<Told>, sents: seq<Sent>)
    requires r.Some? && Lines(told) == EventsOf(events, r)
    requires Among(p, told, sents) && Complete(p, sents)
    ensures MatchesOf(Normalized(p, events).matches, r) == Matches(r, AddedPayloads(told))
    ensures IssuesOf(Normalized(p, events).issues, r) == Issues(r, AddedProblems(told))
  {
    FaithfulIffComplete(p, sents);
    FaithfulIsClean(p, None, sents);
    AmongIsHeard(p, None, told, sents, None);
    OwnResult(p, events, r);
    NothingAdded(AddedPayloads(told));
    NothingAdded(AddedProblems(told));
  }

  lemma NothingAdded<T>(s: seq<T>)
    ensures s + [] == s
  {
  }

  // ---------------------------------------------------------------------
  // UDS: undecodable and flow-control lines anywhere among the frames
  // ---------------------------------------------------------------------

  predicate IsMute(e: Event) {
    e.Garbled? || (e.Frame? && e.bytes != [] && 0x30 <= e.bytes[0] < 0x40)
  }

  function Mute(): Event -> bool { (e: Event) => IsMute(e) }
  function Spoken(): Event -> bool { (e: Event) => !IsMute(e) }

  function Complaints(lines: seq<Event>): (problems: seq<Problem>)
    ensures |problems| == |lines|
    ensures forall i | 0 <= i < |lines| :: problems[i] == if lines[i].Garbled? then BadData else FlowControl
  {
    seq(|lines|, i requires 0 <= i < |lines| => if lines[i].Garbled? then BadData else FlowControl)
  }

  /** Labels for frames with mute lines among them. */
  lemma {:induction false} LabelMute(p: Profile, own: seq<Event>, sents: seq<Sent>) returns (told: seq<Told>)
    requires p.Uds? && NoSkip(own) && Filter(own, Spoken()) == FrameEvents(sents)
    ensures Lines(told) == own && Among(p, told, sents)
    ensures AddedProblems(told) == Complaints(Filter(own, Mute()))
    ensures AddedPayloads(told) == AllLabels(sents)
    decreases |own|
  {
    if own == [] {
      assert sents == [];
      told := [];
    } else if IsMute(own[0]) {
      var t := Told(own[0], [], [if own[0].Garbled? then BadData else FlowControl]);
      var rest := LabelMute(p, own[1..], sents);
      told := [t] + rest;
      assert told[1..] == rest;
      LinesMore(told);
      ComplaintsMore(own[0], Filter(own[1..], Mute()));
    } else {
      assert FrameEvents(sents)[0] == own[0];
      FrameEventsTail(sents);
      var t := Told(own[0], Labels(sents[0].completes), []);
      var rest := LabelMute(p, own[1..], sents[1..]);
      told := [t] + rest;
      assert told[1..] == rest;
      LinesMore(told);
    }
  }

  lemma ComplaintsMore(e: Event, rest: seq<Event>)
    ensures Complaints([e] + rest) == [if e.Garbled? then BadData else FlowControl] + Complaints(rest)
  {
  }

  function AllLabels(sents: seq<Sent>): seq<seq<byte>> {
    if sents == [] then [] else Labels(sents[0].completes) + AllLabels(sents[1..])
  }

  lemma {:induction false} LabelsOfConsecutive(r: Responder, m: Message, from: nat, sn: nat)
    requires from < |m.payload| && sn < 16
    ensures AllLabels(Consecutive(r, m, from, sn)) == [m.payload]
    decreases |m.payload| - from
  {
    if |m.payload| - from > 7 {
      LabelsOfConsecutive(r, m, from + 7, (sn + 1) % 16);
    }
  }

  lemma LabelsOfSegment(r: Responder, m: Message)
    requires 1 <= |m.payload| <= 4095
    ensures AllLabels(Segment(r, m)) == [m.payload]
  {
    if |m.payload| > 7 {
      LabelsOfConsecutive(r, m, 6, 1);
      assert Segment(r, m)[1..] == Consecutive(r, m, 6, 1);
    }
  }

  lemma SegmentFaithful(p: Profile, r: Responder, m: Message)
    requires Sendable(p, m)
    ensures Faithful(p, None, Segment(r, m))
  {
    FaithfulTransmit(p, r, [m]);
    assert Transmit(p, r, [m]) == Segment(r, m) + Transmit(p, r, []);
    NothingAdded(Segment(r, m));
  }

  /** Undecodable lines and flow control of the responder itself, anywhere among
      the frames of its message, change nothing for UDS: the answer holds exactly
      the payload, the read selects it, and there is one issue for each such line. */
  lemma MuteLinesAreHarmless(ignoreMode01: bool, events: seq<Event>, target: string, m: Message)
    requires Sendable(Uds(ignoreMode01), m)
    requires Filter(EventsOf(events, Some(target)), Spoken()) == FrameEvents(Segment(Some(target), m))
    ensures var r, all := Some(target), Normalized(Uds(ignoreMode01), events);
            MatchesOf(all.matches, r) == [Match(r, m.payload)]
            && IssuesOf(all.issues, r) == Issues(r, Complaints(Filter(EventsOf(events, r), Mute())))
            && TargetedPayload(all.matches, target) == Selected(m.payload)
  {
    var p, r := Uds(ignoreMode01), Some(target);
    OwnIsNoSkip(events, r);
    SegmentFaithful(p, r, m);
    FaithfulIffComplete(p, Segment(r, m));
    var told := LabelMute(p, EventsOf(events, r), Segment(r, m));
    CompleteWithAsides(p, events, r, told, Segment(r, m));
    LabelsOfSegment(r, m);
    OneMatch(r, m.payload);
    SelectedAlone(Normalized(p, events).matches, target, m.payload);
  }

  // ---------------------------------------------------------------------
  // Lines that destroy the message in flight
  // ---------------------------------------------------------------------

  lemma CleanStepsBack(p: Profile, r: Responder, end: Option<Assembly>)
    ensures OpenStepsBack(p, r, (slot, sents) => Clean(p, slot, sents, end))
  {
    forall slot, s: Sent, slot': Option<Assembly>, rest |
      s.responder == r && s.completes == None && slot'.Some? && Gives(p, slot, s, slot') && Clean(p, slot', rest, end)
      ensures Clean(p, slot, [s] + rest, end)
    {
      assert ([s] + rest)[1..] == rest;
    }
  }

  /** The first `k` frames of a message leave it in flight. */
  lemma OpenedIsClean(p: Profile, r: Responder, m: Message, k: nat)
    requires 1 <= |m.payload| <= 4095 && 1 <= k < |Segment(r, m)|
    ensures 6 + 7 * (k - 1) < |m.payload|
    ensures Clean(p, None, Segment(r, m)[..k], Some(Partial(m, 6 + 7 * (k - 1), k % 16)))
  {
    SegmentTail(r, m, k);
    var a := Partial(m, 6 + 7 * (k - 1), k % 16);
    var good := (slot, sents) => Clean(p, slot, sents, Some(a));
    CleanStepsBack(p, r, Some(a));
    assert good(Some(a), []);
    SegmentPrefixGood(p, good, r, m, k, a);
    assert good(None, Segment(r, m)[..k]);
  }

  lemma {:induction false} HeardTogether(p: Profile, slot: Option<Assembly>, a: seq<Event>, b: seq<Event>)
    requires NoSkip(a) && NoSkip(b)
    ensures NoSkip(a + b)
    ensures LinePayloads(p, slot, a + b) == LinePayloads(p, slot, a) + LinePayloads(p, SlotOf(p, slot, a), b)
    ensures LineProblems(p, slot, a + b) == LineProblems(p, slot, a) + LineProblems(p, SlotOf(p, slot, a), b)
    ensures SlotOf(p, slot, a + b) == SlotOf(p, SlotOf(p, slot, a), b)
    decreases |a|
  {
    if a == [] {
      assert a + b == b;
    } else {
      var slot' := ReceiveEvent(p, slot, a[0]).slot;
      assert a == [a[0]] + a[1..] && a + b == [a[0]] + (a[1..] + b);
      HeardTogether(p, slot', a[1..], b);
      LineCons(p, slot, a[0], a[1..]);
      LineCons(p, slot, a[0], a[1..] + b);
      var o, end := ReceiveEvent(p, slot, a[0]), SlotOf(p, slot', a[1..]);
      Regroup(o.payloads, LinePayloads(p, slot', a[1..]), LinePayloads(p, end, b));
      Regroup(o.problems, LineProblems(p, slot', a[1..]), LineProblems(p, end, b));
    }
  }

  /** The bytes of a message that are missing after its first `k` frames. */
  function Room(m: Message, k: nat): int { |m.payload| - 6 - 7 * (k - 1) }

  lemma BrokenIsHeard(p: Profile, r: Responder, m: Message, k: nat, before: seq<Told>, t: Told)
    requires 1 <= |m.payload| <= 4095 && 1 <= k < |Segment(r, m)|
    requires Among(p, before, Segment(r, m)[..k])
    requires Room(m, k) > 0 && Breaks(p, t, k % 16, Room(m, k))
    ensures NoSkip(Lines(before)) && !t.line.Skip?
    ensures var own := Lines(before) + [t.line];
            LinePayloads(p, None, own) == AddedPayloads(before)
            && LineProblems(p, None, own) == AddedProblems(before) + t.problems && SlotOf(p, None, own) == None
  {
    var a := Partial(m, 6 + 7 * (k - 1), k % 16);
    OpenedIsClean(p, r, m, k);
    AmongIsHeard(p, None, before, Segment(r, m)[..k], Some(a));
    PartialBreaks(p, a, t, k % 16, Room(m, k));
    ThenHeard(p, Lines(before), Some(a), t);
    NothingAdded(AddedPayloads(before));
  }

  lemma PartialBreaks(p: Profile, a: Assembly, t: Told, next: nat, room: nat)
    requires a.next == next && a.declared - |a.payload| == room > 0 && Breaks(p, t, next, room)
    ensures !t.line.Skip? && t.payloads == [] && Hears(ReceiveEvent(p, Some(a), t.line), t, None)
  {
    BreaksHeard(p, a, t);
    BreaksIsSilent(p, t, next, room);
  }

  lemma ThenHeard(p: Profile, own: seq<Event>, slot: Option<Assembly>, t: Told)
    requires NoSkip(own) && SlotOf(p, None, own) == slot
    requires !t.line.Skip? && Hears(ReceiveEvent(p, slot, t.line), t, None)
    ensures LinePayloads(p, None, own + [t.line]) == LinePayloads(p, None, own) + t.payloads
    ensures LineProblems(p, None, own + [t.line]) == LineProblems(p, None, own) + t.problems
    ensures SlotOf(p, None, own + [t.line]) == None
  {
    OneHeard(p, slot, t, None);
    HeardTogether(p, None, own, [t.line]);
  }

  lemma OneHeard(p: Profile, slot: Option<Assembly>, t: Told, slot': Option<Assembly>)
    requires !t.line.Skip? && Hears(ReceiveEvent(p, slot, t.line), t, slot')
    ensures LinePayloads(p, slot, [t.line]) == t.payloads && LineProblems(p, slot, [t.line]) == t.problems
    ensures SlotOf(p, slot, [t.line]) == slot'
  {
    LineCons(p, slot, t.line, []);
    NothingAdded([t.line]);
    NothingAdded(t.payloads);
    NothingAdded(t.problems);
  }

  lemma BreaksIsSilent(p: Profile, t: Told, next: nat, room: nat)
    requires Breaks(p, t, next, room)
    ensures t.payloads == []
  {
  }

  /** A message that is interrupted after its first `k` frames is lost: the answer
      holds nothing of it, one issue says why, and whatever follows is read as if
      the responder had not said anything before. */
  lemma InterruptedIsLost(p: Profile, events: seq<Event>, r: Responder, m: Message, k: nat,
                          before: seq<Told>, t: Told, after: seq<Told>)
    requires r.Some? && EventsOf(events, r) == Lines(before) + [t.line] + Lines(after)
    requires 1 <= |m.payload| <= 4095 && 1 <= k < |Segment(r, m)|
    requires Among(p, before, Segment(r, m)[..k])
    requires Room(m, k) > 0 && Breaks(p, t, k % 16, Room(m, k))
    requires Script(p, [], after)
    ensures MatchesOf(Normalized(p, events).matches, r) ==
            Matches(r, AddedPayloads(before) + AddedPayloads(after) + EndPayloads(p, AtEnd(p, [], after)))
    ensures IssuesOf(Normalized(p, events).issues, r) ==
            Issues(r, AddedProblems(before) + t.problems + AddedProblems(after) + EndProblems(AtEnd(p, [], after)))
  {
    BrokenIsHeard(p, r, m, k, before, t);
    ScriptIsHeard(p, [], after);
    HeardTogether(p, None, Lines(before) + [t.line], Lines(after));
    OwnResult(p, events, r);
    EndsAgree(p, AtEnd(p, [], after));
  }

  /** Cut off after its first `k` frames, with other lines among them: UDS hands over
      the bytes that arrived, Mode 03 nothing, and both report the truncation. */
  lemma CutOffMessage(p: Profile, events: seq<Event>, r: Responder, m: Message, k: nat, told: seq<Told>)
    requires r.Some? && Lines(told) == EventsOf(events, r)
    requires 1 <= |m.payload| <= 4095 && 1 <= k < |Segment(r, m)|
    requires Among(p, told, Segment(r, m)[..k])
    ensures 6 + 7 * (k - 1) < |m.payload|
    ensures MatchesOf(Normalized(p, events).matches, r) ==
            Matches(r, AddedPayloads(told) + if p.Uds? then [Arrived(m, k)] else [])
    ensures IssuesOf(Normalized(p, events).issues, r) ==
            Issues(r, AddedProblems(told) + [Truncated(|m.payload|, |Arrived(m, k)|)])
  {
    OpenedIsClean(p, r, m, k);
    var a := Partial(m, 6 + 7 * (k - 1), k % 16);
    AmongIsHeard(p, None, told, Segment(r, m)[..k], Some(a));
    OwnResult(p, events, r);
    PartialLeft(p, m, k, a);
  }

  lemma PartialLeft(p: Profile, m: Message, k: nat, a: Assembly)
    requires 1 <= k && 6 + 7 * (k - 1) < |m.payload| && a == Partial(m, 6 + 7 * (k - 1), k % 16)
    ensures LeftPayloads(p, Some(a)) == if p.Uds? then [Arrived(m, k)] else []
    ensures LeftProblems(Some(a)) == [Truncated(|m.payload|, |Arrived(m, k)|)]
  {
  }

  // ---------------------------------------------------------------------
  // Mode 03: one interrupting line between the frames
  // ---------------------------------------------------------------------

  /** Flow control, an unframed or empty line, or a line that starts like a segment
      and stops being hexadecimal. */
  predicate Interrupts(e: Event) {
    match e
    case Skip => false
    case Report(_, _) => false
    case Garbled(_, bytes) => bytes != [] && 0x10 <= bytes[0] < 0x30
    case Frame(_, f) => f == [] || f[0] >= 0x30
  }

  function Reason(e: Event): Problem
    requires Interrupts(e)
  {
    if e.Garbled? then BadData
    else if e.bytes != [] && e.bytes[0] < 0x40 then FlowControl
    else Interleaved
  }

  function Orphan(e: Event): Told { Told(e, [], [OrphanConsecutive]) }

  function Orphans(lines: seq<Event>): (told: seq<Told>)
    ensures |told| == |lines| && forall i | 0 <= i < |lines| :: told[i] == Orphan(lines[i])
  {
    seq(|lines|, i requires 0 <= i < |lines| => Orphan(lines[i]))
  }

  function OrphanProblems(n: nat): (problems: seq<Problem>)
    ensures |problems| == n && forall i | 0 <= i < n :: problems[i] == OrphanConsecutive
  {
    seq(n, _ => OrphanConsecutive)
  }

  predicate AllConsecutive(lines: seq<Event>) {
    forall i | 0 <= i < |lines| :: lines[i].Frame? && lines[i].bytes != [] && 0x20 <= lines[i].bytes[0] < 0x30
  }

  /** Consecutive frames of nothing are orphans. */
  lemma {:induction false} OrphansAreRight(p: Profile, lines: seq<Event>)
    requires AllConsecutive(lines)
    ensures Script(p, [], Orphans(lines)) && AtEnd(p, [], Orphans(lines)) == []
    ensures Lines(Orphans(lines)) == lines
    ensures AddedPayloads(Orphans(lines)) == [] && AddedProblems(Orphans(lines)) == OrphanProblems(|lines|)
    decreases |lines|
  {
    if lines != [] {
      var told := Orphans(lines);
      assert told[1..] == Orphans(lines[1..]) && told[0] == Orphan(lines[0]);
      OrphansAreRight(p, lines[1..]);
      OrphanIsRight(p, lines[0]);
      LinesMore(told);
      assert OrphanProblems(|lines|) == [OrphanConsecutive] + OrphanProblems(|lines| - 1);
    }
  }

  lemma OrphanIsRight(p: Profile, e: Event)
    requires e.Frame? && e.bytes != [] && 0x20 <= e.bytes[0] < 0x30
    ensures Says(p, [], Orphan(e)) && Then(p, [], Orphan(e)) == []
  {
  }

  lemma {:induction false} ConsecutiveBytes(r: Responder, m: Message, from: nat, sn: nat)
    requires from < |m.payload| && sn < 16
    ensures forall i | 0 <= i < |Consecutive(r, m, from, sn)| ::
              var f := Consecutive(r, m, from, sn)[i].frame; f != [] && 0x20 <= f[0] < 0x30
    decreases |m.payload| - from
  {
    if |m.payload| - from > 7 {
      ConsecutiveBytes(r, m, from + 7, (sn + 1) % 16);
    }
  }

  lemma RestIsConsecutive(r: Responder, m: Message, k: nat)
    requires 1 <= |m.payload| <= 4095 && 1 <= k < |Segment(r, m)|
    ensures AllConsecutive(FrameEvents(Segment(r, m)[k..]))
  {
    ConsecutiveBytes(r, m, 6, 1);
    var sents := Segment(r, m);
    assert sents == [sents[0]] + Consecutive(r, m, 6, 1);
    forall i | k <= i < |sents| ensures sents[i].frame != [] && 0x20 <= sents[i].frame[0] < 0x30 {
      assert sents[i] == Consecutive(r, m, 6, 1)[i - 1];
    }
  }

  /** Frames that complete nothing, labelled. */
  function Open(sents: seq<Sent>): (told: seq<Told>)
    ensures |told| == |sents|
    ensures forall i | 0 <= i < |sents| :: told[i] == Told(Frame(sents[i].responder, sents[i].frame), [], [])
  {
    seq(|sents|, i requires 0 <= i < |sents| => Told(Frame(sents[i].responder, sents[i].frame), [], []))
  }

  lemma {:induction false} OpenIsAmong(p: Profile, sents: seq<Sent>)
    requires forall i | 0 <= i < |sents| :: sents[i].completes == None
    ensures Among(p, Open(sents), sents) && Lines(Open(sents)) == FrameEvents(sents)
    ensures AddedPayloads(Open(sents)) == [] && AddedProblems(Open(sents)) == []
  {
    if sents != [] {
      assert Open(sents)[1..] == Open(sents[1..]);
      OpenIsAmong(p, sents[1..]);
    }
  }

  lemma {:induction false} OnlyLastCompletes(r: Responder, m: Message, from: nat, sn: nat)
    requires from < |m.payload| && sn < 16
    ensures forall i | 0 <= i < |Consecutive(r, m, from, sn)| - 1 :: Consecutive(r, m, from, sn)[i].completes == None
    decreases |m.payload| - from
  {
    if |m.payload| - from > 7 {
      OnlyLastCompletes(r, m, from + 7, (sn + 1) % 16);
    }
  }

  lemma OpenedCompletesNothing(r: Responder, m: Message, k: nat)
    requires 1 <= |m.payload| <= 4095 && 1 <= k < |Segment(r, m)|
    ensures forall i | 0 <= i < k :: Segment(r, m)[..k][i].completes == None
  {
    OnlyLastCompletes(r, m, 6, 1);
    var sents := Segment(r, m);
    assert sents == [sents[0]] + Consecutive(r, m, 6, 1);
    forall i | 0 <= i < k ensures sents[i].completes == None {
      assert i > 0 ==> sents[i] == Consecutive(r, m, 6, 1)[i - 1];
    }
  }

  lemma InterruptsBreaks(e: Event, next: nat, room: nat)
    requires Interrupts(e)
    ensures Breaks(Mode03, Told(e, [], [Reason(e)]), next, room)
  {
  }

  /** Mode 03: a flow-control, unframed or undecodable segment line of the ECU
      itself between the frames of its message destroys it. The answer holds nothing
      of the ECU; the issues are the reason and one orphan for each frame to come. */
  lemma InterruptedScanIsEmpty(events: seq<Event>, header: string, m: Message, k: nat, line: Event)
    requires 1 <= |m.payload| <= 4095 && 1 <= k < |Segment(Some(header), m)| && Interrupts(line)
    requires var sents := Segment(Some(header), m);
             EventsOf(events, Some(header)) == FrameEvents(sents[..k]) + [line] + FrameEvents(sents[k..])
    ensures var r, all := Some(header), Normalized(Mode03, events);
            MatchesOf(all.matches, r) == []
            && IssuesOf(all.issues, r) == Issues(r, [Reason(line)] + OrphanProblems(|Segment(r, m)| - k))
  {
    var r := Some(header);
    var sents := Segment(r, m);
    var before, t, after := Open(sents[..k]), Told(line, [], [Reason(line)]), Orphans(FrameEvents(sents[k..]));
    OpenedCompletesNothing(r, m, k);
    OpenIsAmong(Mode03, sents[..k]);
    RestIsConsecutive(r, m, k);
    OrphansAreRight(Mode03, FrameEvents(sents[k..]));
    SegmentTail(r, m, k);
    InterruptsBreaks(line, k % 16, Room(m, k));
    InterruptedIsLost(Mode03, events, r, m, k, before, t, after);
    OnlyReasons([Reason(line)], OrphanProblems(|sents| - k));
  }

  lemma OnlyReasons(a: seq<Problem>, b: seq<Problem>)
    ensures [] + a + b + [] == a + b
  {
  }

  /** So the scan reports nothing of that ECU. */
  lemma InterruptedScanReportsNothing(events: seq<Event>, header: string, m: Message, k: nat, line: Event,
                                      o: DtcScan.DtcObservation)
    requires 1 <= |m.payload| <= 4095 && 1 <= k < |Segment(Some(header), m)| && Interrupts(line)
    requires var sents := Segment(Some(header), m);
             EventsOf(events, Some(header)) == FrameEvents(sents[..k]) + [line] + FrameEvents(sents[k..])
    ensures !DtcEvidence.Reports(Normalized(Mode03, events).matches, header, o)
  {
    InterruptedScanIsEmpty(events, header, m, k, line);
    DtcEvidence.ReportsOfHeader(Normalized(Mode03, events).matches, header, o);
  }
}
