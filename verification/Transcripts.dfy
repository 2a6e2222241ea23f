/**
 * Reassembly on adapter text: from printed frames of several responders, in
 * any interleaving, back to their payloads.
 */
module Transcripts {
  import opened Prelude
  import opened IsoTp
  import opened ReassemblyTable
  import opened Reassembly
  import opened ElmText

  function Printed(stream: seq<Sent>): (lines: seq<string>)
    ensures |lines| == |stream|
    ensures forall i | 0 <= i < |stream| :: lines[i] == Render(stream[i].responder, stream[i].frame)
  {
    seq(|stream|, i requires 0 <= i < |stream| => Render(stream[i].responder, stream[i].frame))
  }

  function TranscriptOf(stream: seq<Sent>): string {
    Transcript(Printed(stream))
  }

  /** Not set aside as a stale Mode 01 answer. */
  predicate NotStale(p: Profile, bytes: seq<byte>) {
    p.Uds? && p.ignoreMode01 ==> !IsMode01(bytes)
  }

  /** Every line carries a header and none is a stale Mode 01 answer. */
  predicate Headered(p: Profile, stream: seq<Sent>) {
    forall i | 0 <= i < |stream| ::
      stream[i].responder.Some? && ValidResponder(stream[i].responder) && NotStale(p, stream[i].frame)
  }

  lemma RenderedIsOneLine(r: Responder, bytes: seq<byte>)
    requires ValidResponder(r)
    ensures OneLine(Render(r, bytes))
  {
    WordsAreWords(r, bytes);
    JoinChars(Words(r, bytes));
  }

  lemma {:induction false} RunSkips(p: Profile, s: Scan, events: seq<Event>)
    ensures Run(p, s, events + [Skip]) == Run(p, s, events)
    decreases |events|
  {
    if events == [] {
      assert (events + [Skip])[1..] == [];
    } else {
      assert (events + [Skip])[1..] == events[1..] + [Skip];
      RunSkips(p, Step(p, s, events[0]), events[1..]);
    }
  }

  lemma LinesReadBack(p: Profile, echo: string, stream: seq<Sent>)
    requires Headered(p, stream) && |echo| % 2 == 0
    ensures Events(p, echo, Printed(stream) + [">"]) == FrameEvents(stream) + [Skip]
  {
    forall i | 0 <= i < |stream|
      ensures Classify(p, echo, Printed(stream)[i]) == Frame(stream[i].responder, stream[i].frame)
    {
      HeaderedIsNeverEcho(p, echo, stream[i].responder, stream[i].frame);
    }
    PromptIsSkipped(p, echo);
  }

  lemma PrintedLines(p: Profile, stream: seq<Sent>)
    requires Headered(p, stream)
    ensures SplitLines(TranscriptOf(stream)) == Printed(stream) + [">"]
  {
    var lines := Printed(stream);
    forall i | 0 <= i < |lines| ensures OneLine(lines[i]) {
      RenderedIsOneLine(stream[i].responder, stream[i].frame);
    }
    SplitTranscript(lines);
  }

  /** Printing and reading back is the identity on frames. */
  lemma TranscriptReadsBack(p: Profile, echo: string, stream: seq<Sent>)
    requires Headered(p, stream) && |echo| % 2 == 0
    ensures NormalizedText(p, echo, TranscriptOf(stream)) == Normalized(p, FrameEvents(stream))
  {
    PrintedLines(p, stream);
    LinesReadBack(p, echo, stream);
    RunSkips(p, Fresh, FrameEvents(stream));
  }

  // ---------------------------------------------------------------------
  // Which transmissions are read back
  // ---------------------------------------------------------------------

  /** Only a single frame whose payload starts with 41 looks stale. */
  predicate LooksStale(m: Message) {
    1 <= |m.payload| <= 7 && m.payload[0] == 0x41
  }

  lemma {:induction false} ConsecutiveStale(r: Responder, m: Message, from: nat, sn: nat)
    requires from < |m.payload| && sn < 16
    ensures forall i | 0 <= i < |Consecutive(r, m, from, sn)| :: !IsMode01(Consecutive(r, m, from, sn)[i].frame)
    decreases |m.payload| - from
  {
    if |m.payload| - from > 7 {
      ConsecutiveStale(r, m, from + 7, (sn + 1) % 16);
    }
  }

  lemma SegmentStale(r: Responder, m: Message)
    requires 1 <= |m.payload| <= 4095
    ensures forall i | 0 <= i < |Segment(r, m)| :: IsMode01(Segment(r, m)[i].frame) <==> LooksStale(m)
  {
    if |m.payload| > 7 {
      ConsecutiveStale(r, m, 6, 1);
    }
  }

  lemma {:induction false} TransmitStale(p: Profile, r: Responder, ms: seq<Message>)
    requires forall i | 0 <= i < |ms| :: Sendable(p, ms[i]) && !LooksStale(ms[i])
    ensures forall s <- Transmit(p, r, ms) :: !IsMode01(s.frame)
  {
    if ms != [] {
      SegmentStale(r, ms[0]);
      TransmitStale(p, r, ms[1..]);
    }
  }

  lemma {:induction false} InSentBy(stream: seq<Sent>, i: nat)
    requires i < |stream|
    ensures stream[i] in SentBy(stream, stream[i].responder)
  {
    if i > 0 {
      assert stream[1..][i - 1] == stream[i];
      InSentBy(stream[1..], i - 1);
    }
  }

  /** Headers are valid and, where the reader drops stale Mode 01 answers,
      nobody sends one. */
  predicate Legible(p: Profile, traffic: Traffic) {
    forall r | r in traffic ::
      r.Some? && ValidResponder(r)
      && (p.Uds? && p.ignoreMode01 ==> forall i | 0 <= i < |traffic[r]| :: !LooksStale(traffic[r][i]))
  }

  lemma LegibleIsHeadered(p: Profile, stream: seq<Sent>, traffic: Traffic)
    requires Legible(p, traffic) && Interleaves(p, stream, traffic)
    ensures Headered(p, stream)
  {
    forall i | 0 <= i < |stream|
      ensures stream[i].responder.Some? && ValidResponder(stream[i].responder) && NotStale(p, stream[i].frame)
    {
      var r := stream[i].responder;
      InSentBy(stream, i);
      assert SentBy(stream, r) != [];
      assert r in traffic;
      if p.Uds? && p.ignoreMode01 {
        TransmitStale(p, r, traffic[r]);
      }
    }
  }

  /** Reassembly inverts segmentation on text: whatever the responders send, and
      however the adapter interleaves their lines, the answer holds exactly their
      payloads in completion order and no issue. */
  lemma TextReassembly(p: Profile, echo: string, stream: seq<Sent>, traffic: Traffic)
    requires Legible(p, traffic) && Interleaves(p, stream, traffic)
    requires |echo| % 2 == 0
    ensures NormalizedText(p, echo, TranscriptOf(stream)) ==
            Responses(Completed(stream), if stream == [] then [Issue(None, NotFound)] else [])
  {
    LegibleIsHeadered(p, stream, traffic);
    TranscriptReadsBack(p, echo, stream);
    ReassemblyInvertsSegmentation(p, stream, traffic);
    if stream != [] {
      var r := stream[0].responder;
      InSentBy(stream, 0);
      assert SentBy(stream, r) != [];
      assert r in traffic && traffic[r] != [];
      assert Matches(r, Payloads(traffic[r])) != [];
      assert Completed(stream) != [];
    }
  }
}
