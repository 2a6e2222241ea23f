/**
 * Interrupted messages on text: printed frames with broken lines, progress messages
 * and status lines among them.
 */
module TextInterruptions {
  import opened Prelude
  import opened IsoTp
  import opened ElmText
  import opened ReassemblyTable
  import opened Reassembly
  import opened Transcripts
  import opened Mode01
  import opened ReplyLines
  import opened LineLayout
  import opened Interruptions

  /** A line of this responder whose data stop being hexadecimal. */
  ghost predicate Broken(echo: string, target: string, raw: string) {
    Readable(echo, raw) &&
    exists h, parts, bad, more ::
      BrokenWords(Tokens(CleanLine(raw)), h, parts, bad, more) && Upper(h) == target
  }

  predicate BrokenWords(words: seq<string>, h: string, parts: seq<seq<byte>>, bad: string, more: seq<string>) {
    |h| == 3 && AllHex(h) && !IsHexToken(bad) && words == [h] + PackedParts(parts) + [bad] + more
  }

  lemma BrokenIsMute(p: Profile, echo: string, target: string, raw: string)
    requires Broken(echo, target, raw)
    ensures var e := Classify(p, echo, raw); e.Garbled? && e.responder == Some(target)
  {
    var h, parts, bad, more :| BrokenWords(Tokens(CleanLine(raw)), h, parts, bad, more) && Upper(h) == target;
    BrokenDataIsGarbled(p, echo, raw, Some(h), parts, bad, more);
  }

  ghost function Intact(echo: string, target: string): string -> bool {
    (raw: string) => !Broken(echo, target, raw)
  }

  ghost function BrokenOnes(echo: string, target: string): string -> bool {
    (raw: string) => Broken(echo, target, raw)
  }

  /** The events are the frames and, in between, one undecodable line for each
      broken one. */
  predicate FramesAmong(own: seq<Event>, r: Responder, stream: seq<Sent>, broken: nat) {
    EventsOf(own, r) == own && Filter(own, Spoken()) == FrameEvents(stream)
    && Complaints(Filter(own, Mute())) == Same(BadData, broken)
  }

  lemma AmongMore(e: Event, own: seq<Event>, r: Responder, stream: seq<Sent>, broken: nat)
    requires FramesAmong(own, r, stream, broken) && e.Garbled? && e.responder == r
    ensures FramesAmong([e] + own, r, stream, broken + 1)
  {
    assert ([e] + own)[1..] == own;
    ComplaintsMore(e, Filter(own, Mute()));
    assert Same(BadData, broken + 1) == [BadData] + Same(BadData, broken);
  }

  lemma AmongFrame(s: Sent, own: seq<Event>, r: Responder, stream: seq<Sent>, broken: nat)
    requires FramesAmong(own, r, stream, broken) && s.responder == r && !IsMute(Frame(r, s.frame))
    ensures FramesAmong([Frame(r, s.frame)] + own, r, [s] + stream, broken)
  {
    assert ([Frame(r, s.frame)] + own)[1..] == own;
    FrameEventsTail([s] + stream);
    assert ([s] + stream)[1..] == stream;
    assert FrameEvents([s] + stream) == [Frame(r, s.frame)] + FrameEvents(stream);
  }

  predicate SpokenBy(stream: seq<Sent>, r: Responder) {
    forall i | 0 <= i < |stream| :: stream[i].responder == r && !IsMute(Frame(r, stream[i].frame))
  }

  lemma BrokenFirst(p: Profile, echo: string, target: string, raw: string, rest: seq<string>, stream: seq<Sent>, n: nat)
    requires Broken(echo, target, raw) && FramesAmong(Events(p, echo, rest), Some(target), stream, n)
    ensures FramesAmong(Events(p, echo, [raw] + rest), Some(target), stream, n + 1)
  {
    EventsCons(p, echo, raw, rest);
    BrokenIsMute(p, echo, target, raw);
    AmongMore(Classify(p, echo, raw), Events(p, echo, rest), Some(target), stream, n);
  }

  lemma FrameFirst(p: Profile, echo: string, target: string, s: Sent, rest: seq<string>, stream: seq<Sent>, n: nat)
    requires s.responder == Some(target) && ValidResponder(s.responder) && NotStale(p, s.frame) && |echo| % 2 == 0
    requires !IsMute(Frame(s.responder, s.frame)) && FramesAmong(Events(p, echo, rest), Some(target), stream, n)
    ensures FramesAmong(Events(p, echo, [Render(s.responder, s.frame)] + rest), Some(target), [s] + stream, n)
  {
    EventsCons(p, echo, Render(s.responder, s.frame), rest);
    HeaderedIsNeverEcho(p, echo, s.responder, s.frame);
    AmongFrame(s, Events(p, echo, rest), Some(target), stream, n);
  }

  lemma FilterFirst<T>(x: T, rest: seq<T>, keep: T -> bool)
    ensures Filter([x] + rest, keep) == if keep(x) then [x] + Filter(rest, keep) else Filter(rest, keep)
  {
    assert ([x] + rest)[1..] == rest;
  }

  lemma StreamTail(p: Profile, stream: seq<Sent>, r: Responder)
    requires stream != [] && Headered(p, stream) && SpokenBy(stream, r)
    ensures Headered(p, stream[1..]) && SpokenBy(stream[1..], r) && stream == [stream[0]] + stream[1..]
    ensures stream[0].responder == r && ValidResponder(r) && NotStale(p, stream[0].frame)
    ensures !IsMute(Frame(r, stream[0].frame))
  {
  }

  lemma {:induction false} ReadAmongBroken(p: Profile, echo: string, target: string, lines: seq<string>, stream: seq<Sent>)
    requires Headered(p, stream) && |echo| % 2 == 0 && SpokenBy(stream, Some(target))
    requires Filter(lines, Intact(echo, target)) == Printed(stream)
    ensures FramesAmong(Events(p, echo, lines), Some(target), stream, |Filter(lines, BrokenOnes(echo, target))|)
    decreases |lines|
  {
    if lines == [] {
      NothingRead(p, echo, target, stream);
    } else {
      var raw, rest := lines[0], lines[1..];
      var n := |Filter(rest, BrokenOnes(echo, target))|;
      assert lines == [raw] + rest;
      FilterFirst(raw, rest, Intact(echo, target));
      FilterFirst(raw, rest, BrokenOnes(echo, target));
      if Broken(echo, target, raw) {
        ReadAmongBroken(p, echo, target, rest, stream);
        BrokenFirst(p, echo, target, raw, rest, stream, n);
      } else {
        PrintedHead(stream, raw, Filter(rest, Intact(echo, target)));
        StreamTail(p, stream, Some(target));
        ReadAmongBroken(p, echo, target, rest, stream[1..]);
        FrameFirst(p, echo, target, stream[0], rest, stream[1..], n);
      }
    }
  }

  lemma NothingRead(p: Profile, echo: string, target: string, stream: seq<Sent>)
    requires Printed(stream) == []
    ensures FramesAmong(Events(p, echo, []), Some(target), stream, 0)
  {
    assert stream == [] && Events(p, echo, []) == [];
  }

  lemma PrintedHead(stream: seq<Sent>, raw: string, rest: seq<string>)
    requires Printed(stream) == [raw] + rest
    ensures stream != [] && raw == Render(stream[0].responder, stream[0].frame) && Printed(stream[1..]) == rest
  {
    assert Printed(stream)[0] == raw && Printed(stream)[1..] == rest;
  }

  function Same(problem: Problem, n: nat): (problems: seq<Problem>)
    ensures |problems| == n && forall i | 0 <= i < n :: problems[i] == problem
  {
    seq(n, _ => problem)
  }

  lemma EventsThenPrompt(p: Profile, echo: string, lines: seq<string>)
    ensures Events(p, echo, lines + [">"]) == Events(p, echo, lines) + [Skip]
  {
    PromptIsSkipped(p, echo);
    EventsMapped(p, echo, lines + [">"]);
    EventsMapped(p, echo, lines);
    MappedLast(Reads(p, echo), lines, ">");
  }

  /** The reader of a transcript reads its lines. */
  lemma PromptAddsNothing(p: Profile, echo: string, lines: seq<string>)
    requires AllOneLine(lines)
    ensures NormalizedText(p, echo, Transcript(lines)) == Normalized(p, Events(p, echo, lines))
  {
    SplitTranscript(lines);
    EventsThenPrompt(p, echo, lines);
    RunSkips(p, Fresh, Events(p, echo, lines));
  }

  lemma {:induction false} ConsecutiveIsSpoken(r: Responder, m: Message, from: nat, sn: nat)
    requires from < |m.payload| && sn < 16
    ensures SpokenBy(Consecutive(r, m, from, sn), r)
    decreases |m.payload| - from
  {
    if |m.payload| - from > 7 {
      ConsecutiveIsSpoken(r, m, from + 7, (sn + 1) % 16);
    }
  }

  lemma SegmentIsSpoken(r: Responder, m: Message)
    requires 1 <= |m.payload| <= 4095
    ensures SpokenBy(Segment(r, m), r)
  {
    if |m.payload| > 7 {
      ConsecutiveIsSpoken(r, m, 6, 1);
      var sents := Segment(r, m);
      assert sents == [sents[0]] + Consecutive(r, m, 6, 1);
    }
  }

  lemma SegmentIsHeadered(p: Profile, target: string, m: Message)
    requires 1 <= |m.payload| <= 4095 && ValidResponder(Some(target))
    requires p == Uds(true) ==> !LooksStale(m)
    ensures Headered(p, Segment(Some(target), m))
  {
    SegmentStale(Some(target), m);
    SegmentIsSpoken(Some(target), m);
  }

  /** On text: whatever broken lines of the responder itself the adapter prints
      among the frames of its message, a UDS read of the reply holds exactly the
      payload, with one issue for each broken line, and selects it. */
  lemma BrokenLinesAreHarmless(ignoreMode01: bool, echo: string, target: string, m: Message, lines: seq<string>)
    requires Sendable(Uds(ignoreMode01), m) && ValidResponder(Some(target)) && |echo| % 2 == 0
    requires (ignoreMode01 ==> !LooksStale(m)) && AllOneLine(lines)
    requires Filter(lines, Intact(echo, target)) == Printed(Segment(Some(target), m))
    ensures var r, all := Some(target), NormalizedText(Uds(ignoreMode01), echo, Transcript(lines));
            MatchesOf(all.matches, r) == [Match(r, m.payload)]
            && IssuesOf(all.issues, r) == Issues(r, Same(BadData, |Filter(lines, BrokenOnes(echo, target))|))
            && TargetedPayload(all.matches, target) == Selected(m.payload)
  {
    var p, r := Uds(ignoreMode01), Some(target);
    SegmentIsHeadered(p, target, m);
    SegmentIsSpoken(r, m);
    ReadAmongBroken(p, echo, target, lines, Segment(r, m));
    PromptAddsNothing(p, echo, lines);
    MuteLinesAreHarmless(ignoreMode01, Events(p, echo, lines), target, m);
  }

  predicate AllOneLine(lines: seq<string>) { forall i | 0 <= i < |lines| :: OneLine(lines[i]) }

  lemma {:induction false} KeptOneLine(lines: seq<string>)
    requires AllOneLine(lines)
    ensures AllOneLine(WithoutProgress(lines))
  {
    if lines != [] {
      assert AllOneLine(lines[1..]);
      KeptOneLine(lines[1..]);
    }
  }

  /** The whole text of a reply may hold progress messages anywhere, for both
      reassembling readers. */
  lemma ProgressInText(p: Profile, echo: string, lines: seq<string>)
    requires AllOneLine(lines)
    ensures NormalizedText(p, echo, Transcript(lines)) == NormalizedText(p, echo, Transcript(WithoutProgress(lines)))
  {
    KeptOneLine(lines);
    PromptAddsNothing(p, echo, lines);
    PromptAddsNothing(p, echo, WithoutProgress(lines));
    ProgressIsInvisible(p, echo, lines);
  }

  lemma PromptIsNoProgress()
    ensures !Progress(">")
  {
    PromptIsSkipped(Mode03, "");
    assert CleanLine(">") == "" by {
      assert Trim(">") == ">" && ">"[..0] == "" && DropPrompts(">") == "";
    }
    BeginsClean(">", "SEARCHING");
    BeginsClean(">", "BUS INIT");
  }

  lemma KeepsPrompt(lines: seq<string>)
    ensures WithoutProgress(lines + [">"]) == WithoutProgress(lines) + [">"]
  {
    PromptIsNoProgress();
    FilterAppend(lines, [">"], Substance());
    var one := [">"];
    assert one[1..] == [] && Filter(one[1..], Substance()) == [];
  }

  /** And for Mode 01 replies, so for support pages too. */
  lemma ProgressInMode01Text(pid: byte, dataLen: nat, lines: seq<string>)
    requires AllOneLine(lines)
    ensures ReadLines(pid, dataLen, SplitLines(Transcript(lines)), []) ==
            ReadLines(pid, dataLen, SplitLines(Transcript(WithoutProgress(lines))), [])
  {
    KeptOneLine(lines);
    SplitTranscript(lines);
    SplitTranscript(WithoutProgress(lines));
    KeepsPrompt(lines);
    ProgressIsInvisibleToMode01(pid, dataLen, lines + [">"], []);
  }
}
