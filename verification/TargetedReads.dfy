/**
 * A targeted read: the adapter passes on whatever else happens on the bus, and
 * the answer of the expected responder comes through.
 */
module TargetedReads {
  import opened Prelude
  import opened IsoTp
  import opened ReassemblyTable
  import opened Reassembly
  import opened CompleteMessages

  lemma {:induction false} ConsecutiveBy(r: Responder, m: Message, from: nat, sn: nat)
    requires from < |m.payload| && sn < 16
    ensures forall i | 0 <= i < |Consecutive(r, m, from, sn)| :: Consecutive(r, m, from, sn)[i].responder == r
    decreases |m.payload| - from
  {
    if |m.payload| - from > 7 {
      ConsecutiveBy(r, m, from + 7, (sn + 1) % 16);
    }
  }

  lemma SegmentBy(r: Responder, m: Message)
    requires 1 <= |m.payload| <= 4095
    ensures forall i | 0 <= i < |Segment(r, m)| :: Segment(r, m)[i].responder == r
  {
    if |m.payload| > 7 {
      ConsecutiveBy(r, m, 6, 1);
    }
  }

  /** One responder alone, sending one message. */
  lemma OneMessage(p: Profile, r: Responder, m: Message)
    requires Sendable(p, m)
    ensures Normalized(p, FrameEvents(Segment(r, m))).matches == [Match(r, m.payload)]
    ensures EventsOf(FrameEvents(Segment(r, m)), r) == FrameEvents(Segment(r, m))
  {
    var sents := Segment(r, m);
    SegmentBy(r, m);
    forall q ensures Faithful(p, None, SentBy(sents, q)) {
      if q == r {
        FilterAll(sents, OfSent(r));
        FaithfulTransmit(p, r, [m]);
        assert Transmit(p, r, [m]) == sents + Transmit(p, r, []);
        assert sents + [] == sents;
      } else {
        FilterNone(sents, OfSent(q));
      }
    }
    FaithfulIsExact(p, sents);
    CompletedSegment(p, r, m);
    FilterAll(FrameEvents(sents), OfEvent(r));
  }

  /** If the expected responder sends one message, a targeted read returns its
      payload, whatever other responders, status lines and garbage come between
      its frames. */
  lemma TargetedReadSurvivesNoise(p: Profile, events: seq<Event>, target: string, m: Message)
    requires Sendable(p, m)
    requires EventsOf(events, Some(target)) == FrameEvents(Segment(Some(target), m))
    ensures TargetedPayload(Normalized(p, events).matches, target) == Selected(m.payload)
  {
    var own := FrameEvents(Segment(Some(target), m));
    OneMessage(p, Some(target), m);
    TargetedPayloadIsLocal(p, events, own, target, m.payload);
    SelectedMeans(Normalized(p, own).matches, target, m.payload);
  }

  // ---------------------------------------------------------------------
  // Answers that were cut off
  // ---------------------------------------------------------------------

  /** The selection does not look at issues: the bytes of a lone first frame, of
      whatever size, are returned like a whole answer. */
  lemma FirstFrameIsSelected(ignoreMode01: bool, events: seq<Event>, target: string,
                                  high: byte, low: byte, data: seq<byte>)
    requires high / 16 == 1 && high % 16 * 256 + low >= 3
    requires 1 <= |data| < high % 16 * 256 + low
    requires EventsOf(events, Some(target)) == [Frame(Some(target), [high, low] + data)]
    ensures TargetedPayload(Normalized(Uds(ignoreMode01), events).matches, target) == Selected(data)
    ensures IssuesOf(Normalized(Uds(ignoreMode01), events).issues, Some(target)) != []
  {
    var p := Uds(ignoreMode01);
    var r := Some(target);
    var own := EventsOf(events, r);
    OnlyFirstFrame(p, r, own, high, low, data);
    NonInterference(p, events, r);
    TargetedPayloadIsLocal(p, events, own, target, data);
    SelectedMeans(Normalized(p, own).matches, target, data);
  }

  /** One entry left over is drained into its bytes and its report. */
  lemma DrainOne(p: Profile, r: Responder, a: Assembly)
    requires p.Uds? && a.payload != []
    ensures Drain(p, Scan([Entry(r, a)], [], [])) ==
            Scan([], [Match(r, a.payload)], [Issue(r, Truncated(a.declared, |a.payload|))])
  {
    var s := Scan([Entry(r, a)], [], []);
    var o := Leftover(p, s.table[0]);
    assert s.table[1..] == [];
    assert [] + Matches(r, o.payloads) == [Match(r, a.payload)];
    assert [] + Issues(r, o.problems) == [Issue(r, Truncated(a.declared, |a.payload|))];
  }

  lemma OnlyFirstFrame(p: Profile, r: Responder, own: seq<Event>, high: byte, low: byte, data: seq<byte>)
    requires p.Uds? && high / 16 == 1 && high % 16 * 256 + low >= 3
    requires 1 <= |data| < high % 16 * 256 + low
    requires own == [Frame(r, [high, low] + data)]
    ensures Normalized(p, own).matches == [Match(r, data)]
    ensures Normalized(p, own).issues == [Issue(r, Truncated(high % 16 * 256 + low, |data|))]
    ensures EventsOf(own, r) == own
  {
    var a := Assembly(high % 16 * 256 + low, data, 1);
    ReceiveOpening(p, high, low, data);
    var s := Scan([Entry(r, a)], [], []);
    assert Step(p, Fresh, own[0]) == s;
    assert own[1..] == [] && Run(p, s, own[1..]) == s;
    assert Run(p, Fresh, own) == Run(p, Step(p, Fresh, own[0]), own[1..]);
    DrainOne(p, r, a);
    FilterAll(own, OfEvent(r));
  }

  /** The table with at most the message of `r` in flight. */
  function Alone(r: Responder, slot: Option<Assembly>): Scan {
    Scan(if slot.Some? then [Entry(r, slot.value)] else [], [], [])
  }

  /** `good` holds before a frame of `r` that keeps its message open whenever it
      holds after it. */
  ghost predicate OpenStepsBack(p: Profile, r: Responder, good: (Option<Assembly>, seq<Sent>) -> bool) {
    forall slot, s: Sent, slot': Option<Assembly>, rest |
      s.responder == r && s.completes == None && slot'.Some? && Gives(p, slot, s, slot') && good(slot', rest) ::
      good(slot, [s] + rest)
  }

  lemma StepAlone(p: Profile, r: Responder, slot: Option<Assembly>, s: Sent, slot': Option<Assembly>)
    requires s.responder == r && s.completes == None && slot'.Some? && Gives(p, slot, s, slot')
    ensures Step(p, Alone(r, slot), Frame(r, s.frame)) == Alone(r, slot')
  {
    var t := Alone(r, slot).table;
    assert slot.Some? ==> t[1..] == [];
    assert Put(t, r, slot') == Alone(r, slot').table;
  }

  /** Running into a given end is such a property. */
  lemma RunStepsBack(p: Profile, r: Responder, end: Scan)
    ensures OpenStepsBack(p, r, (slot, sents) => Run(p, Alone(r, slot), FrameEvents(sents)) == end)
  {
    forall slot, s: Sent, slot': Option<Assembly>, rest |
      s.responder == r && s.completes == None && slot'.Some? && Gives(p, slot, s, slot')
      && Run(p, Alone(r, slot'), FrameEvents(rest)) == end
      ensures Run(p, Alone(r, slot), FrameEvents([s] + rest)) == end
    {
      StepAlone(p, r, slot, s, slot');
      FrameEventsTail([s] + rest);
      assert ([s] + rest)[1..] == rest;
    }
  }

  lemma NextNumbers(sn: nat, j: nat)
    requires j > 0
    ensures ((sn + 1) % 16 + (j - 1)) % 16 == (sn + j) % 16
  {
  }

  lemma ConsecutiveTail(r: Responder, m: Message, from: nat, sn: nat, j: nat)
    requires from < |m.payload| && sn < 16 && 1 <= j < |Consecutive(r, m, from, sn)|
    ensures from + 7 < |m.payload|
    ensures var sents, rest := Consecutive(r, m, from, sn), Consecutive(r, m, from + 7, (sn + 1) % 16);
            j - 1 < |rest| && sents[..j] == [sents[0]] + rest[..j - 1]
            && sents[0].completes == None && sents[0].responder == r
  {
    ConsecutiveMore(r, m, from, sn, []);
  }

  lemma {:induction false} PrefixFits(r: Responder, m: Message, from: nat, sn: nat, j: nat)
    requires from < |m.payload| && sn < 16 && j < |Consecutive(r, m, from, sn)|
    ensures from + 7 * j < |m.payload|
    decreases j
  {
    if j > 0 {
      ConsecutiveTail(r, m, from, sn, j);
      PrefixFits(r, m, from + 7, (sn + 1) % 16, j - 1);
    }
  }

  /** Back over `j` consecutive frames, not the last one among them. */
  lemma {:induction false} ConsecutivePrefix(p: Profile, good: (Option<Assembly>, seq<Sent>) -> bool,
                                             r: Responder, m: Message, from: nat, sn: nat, j: nat, a: Assembly)
    requires OpenStepsBack(p, r, good) && good(Some(a), [])
    requires from < |m.payload| && sn < 16 && j < |Consecutive(r, m, from, sn)|
    requires from + 7 * j < |m.payload| && a == Partial(m, from + 7 * j, (sn + j) % 16)
    ensures good(Some(Partial(m, from, sn)), Consecutive(r, m, from, sn)[..j])
    decreases j
  {
    if j > 0 {
      ConsecutiveTail(r, m, from, sn, j);
      NextNumbers(sn, j);
      ConsecutivePrefix(p, good, r, m, from + 7, (sn + 1) % 16, j - 1, a);
      MiddleGives(p, r, m, from, sn);
    } else {
      assert Consecutive(r, m, from, sn)[..0] == [] && a == Partial(m, from, sn);
    }
  }

  /** What has arrived when a segmented message is cut off after `k` frames. */
  function Arrived(m: Message, k: nat): seq<byte>
    requires 1 <= k && 6 + 7 * (k - 1) < |m.payload|
  {
    m.payload[..6 + 7 * (k - 1)]
  }

  lemma SegmentTail(r: Responder, m: Message, k: nat)
    requires 1 <= |m.payload| <= 4095 && 1 <= k < |Segment(r, m)|
    ensures |m.payload| > 7 && k - 1 < |Consecutive(r, m, 6, 1)| && 6 + 7 * (k - 1) < |m.payload|
    ensures var sents := Segment(r, m);
            sents[..k] == [sents[0]] + Consecutive(r, m, 6, 1)[..k - 1]
            && sents[0].completes == None && sents[0].responder == r
  {
    assert Segment(r, m) == [Segment(r, m)[0]] + Consecutive(r, m, 6, 1);
    PrefixFits(r, m, 6, 1, k - 1);
  }

  lemma SegmentPrefixGood(p: Profile, good: (Option<Assembly>, seq<Sent>) -> bool,
                          r: Responder, m: Message, k: nat, a: Assembly)
    requires OpenStepsBack(p, r, good) && good(Some(a), [])
    requires 1 <= |m.payload| <= 4095 && 1 <= k < |Segment(r, m)| && 6 + 7 * (k - 1) < |m.payload|
    requires a == Partial(m, 6 + 7 * (k - 1), k % 16)
    ensures good(None, Segment(r, m)[..k])
  {
    SegmentTail(r, m, k);
    OpeningGives(p, r, m);
    ConsecutivePrefix(p, good, r, m, 6, 1, k - 1, a);
  }

  lemma SegmentPrefix(p: Profile, r: Responder, m: Message, k: nat)
    requires 1 <= |m.payload| <= 4095 && 1 <= k < |Segment(r, m)|
    ensures 6 + 7 * (k - 1) < |m.payload|
    ensures Run(p, Fresh, FrameEvents(Segment(r, m)[..k])) ==
            Scan([Entry(r, Partial(m, 6 + 7 * (k - 1), k % 16))], [], [])
  {
    SegmentTail(r, m, k);
    var a := Partial(m, 6 + 7 * (k - 1), k % 16);
    var end := Alone(r, Some(a));
    var good := (slot, sents) => Run(p, Alone(r, slot), FrameEvents(sents)) == end;
    RunStepsBack(p, r, end);
    assert good(Some(a), []);
    SegmentPrefixGood(p, good, r, m, k, a);
    assert good(None, Segment(r, m)[..k]);
  }

  lemma PrefixAlone(p: Profile, r: Responder, m: Message, k: nat)
    requires p.Uds? && Sendable(p, m) && 1 <= k < |Segment(r, m)|
    ensures 6 + 7 * (k - 1) < |m.payload|
    ensures var own := FrameEvents(Segment(r, m)[..k]);
            EventsOf(own, r) == own && Normalized(p, own).matches == [Match(r, Arrived(m, k))]
            && Normalized(p, own).issues == [Issue(r, Truncated(|m.payload|, |Arrived(m, k)|))]
  {
    SegmentPrefix(p, r, m, k);
    DrainOne(p, r, Partial(m, 6 + 7 * (k - 1), k % 16));
    SegmentBy(r, m);
    FilterAll(FrameEvents(Segment(r, m)[..k]), OfEvent(r));
  }

  /** Cut off after any number of its frames, an answer is selected like a whole
      one: the targeted read returns the bytes that did arrive, and only an issue
      beside them tells. Other lines do not matter. */
  lemma TruncatedAnswerIsSelected(ignoreMode01: bool, events: seq<Event>, target: string, m: Message, k: nat)
    requires Sendable(Uds(ignoreMode01), m) && 1 <= k < |Segment(Some(target), m)|
    requires EventsOf(events, Some(target)) == FrameEvents(Segment(Some(target), m)[..k])
    ensures 6 + 7 * (k - 1) < |m.payload|
    ensures TargetedPayload(Normalized(Uds(ignoreMode01), events).matches, target) == Selected(Arrived(m, k))
    ensures IssuesOf(Normalized(Uds(ignoreMode01), events).issues, Some(target)) ==
            [Issue(Some(target), Truncated(|m.payload|, |Arrived(m, k)|))]
  {
    var p := Uds(ignoreMode01);
    var r := Some(target);
    PrefixAlone(p, r, m, k);
    OwnAnswer(p, events, r, [Match(r, Arrived(m, k))], [Issue(r, Truncated(|m.payload|, |Arrived(m, k)|))]);
    TargetedPayloadIsLocal(p, events, EventsOf(events, r), target, Arrived(m, k));
    SelectedMeans(Normalized(p, EventsOf(events, r)).matches, target, Arrived(m, k));
  }

  /** About everything the responder sent, and not only the answer selected: no
      issue names the responder exactly when it sent nothing but complete messages,
      and then they all agree with the answer. A stray line after a whole answer
      breaks this; WholeMessages says when the answer itself was whole. */
  lemma SelectedFromCleanResponder(p: Profile, events: seq<Event>, target: string, payload: seq<byte>)
    requires TargetedPayload(Normalized(p, events).matches, target) == Selected(payload)
    ensures IssuesOf(Normalized(p, events).issues, Some(target)) == [] <==>
            exists sents :: Accounts(p, sents, events, Some(target))
    ensures forall sents | Accounts(p, sents, events, Some(target)) ::
              Completed(sents) != [] && forall m <- Completed(sents) :: m == Match(Some(target), payload)
  {
    var r := Some(target);
    CleanIffComplete(p, events, r);
    SelectedMeans(Normalized(p, events).matches, target, payload);
    MatchesOfIn(Normalized(p, events).matches, r);
    forall sents | Accounts(p, sents, events, r)
      ensures Completed(sents) != [] && forall m <- Completed(sents) :: m == Match(r, payload)
    {
      CompleteMatches(p, events, r, sents);
      assert Match(r, payload) in MatchesOf(Normalized(p, events).matches, r);
    }
  }
}
