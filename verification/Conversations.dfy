/**
 * Everything a responder says, from its first line to its last. The receiver keeps
 * a buffer, a length and a number; here the frames of the message in flight are
 * kept as they arrived, and every line is judged by looking at them. Both agree on
 * all inputs.
 */
module Conversations {
  import opened Prelude
  import opened IsoTp
  import opened ReassemblyTable
  import opened Reassembly
  import opened CompleteMessages
  import opened WholeMessages
  import opened TargetedReads
  import opened StrayLines

  // ---------------------------------------------------------------------
  // The frames of the message in flight
  // ---------------------------------------------------------------------

  /** The bytes that they carry. */
  function Got(frames: seq<seq<byte>>): seq<byte>
    requires frames != [] && |frames[0]| >= 2
  {
    frames[0][2..] + Tails(frames[1..])
  }

  /** How many bytes are missing. */
  function Missing(frames: seq<seq<byte>>): int
    requires frames != [] && |frames[0]| >= 2
  {
    Length(frames[0]) - |Got(frames)|
  }

  /** Nothing in flight, or one first frame with its consecutive frames so far. */
  predicate Gathering(frames: seq<seq<byte>>) {
    frames == [] ||
    (Announces(frames[0]) && Missing(frames) > 0 && forall k | 1 <= k < |frames| :: Numbered(frames[k], k))
  }

  /** The label is right for the line, given the frames in flight. */
  ghost predicate Says(p: Profile, frames: seq<seq<byte>>, t: Told)
    requires Gathering(frames)
  {
    if !Moving(p, t.line) then Passive(p, t)
    else if frames == [] then Starts(t) || Lone(p, t)
    else
      var next := |frames| % 16;
      Extends(t, next, Missing(frames)) || Completes(p, t, next, Got(frames), Missing(frames))
      || Breaks(p, t, next, Missing(frames))
  }

  /** The frames in flight after the line. */
  function Then(p: Profile, frames: seq<seq<byte>>, t: Told): seq<seq<byte>>
    requires Gathering(frames)
  {
    if !Moving(p, t.line) then frames
    else if frames == [] then (if Starts(t) then [t.line.bytes] else [])
    else if Extends(t, |frames| % 16, Missing(frames)) then frames + [t.line.bytes]
    else []
  }

  lemma ThenGathers(p: Profile, frames: seq<seq<byte>>, t: Told)
    requires Gathering(frames)
    ensures Gathering(Then(p, frames, t))
  {
    var after := Then(p, frames, t);
    if after != [] && after != frames {
      var f := t.line.bytes;
      if frames == [] {
        assert after[1..] == [];
      } else {
        Extended(frames, f);
        forall k | 1 <= k < |after| ensures Numbered(after[k], k) {
          assert k < |frames| ==> after[k] == frames[k];
        }
      }
    }
  }

  lemma Extended(frames: seq<seq<byte>>, f: seq<byte>)
    requires frames != [] && |frames[0]| >= 2 && f != []
    ensures Got(frames + [f]) == Got(frames) + f[1..]
    ensures Missing(frames + [f]) == Missing(frames) - (|f| - 1)
  {
    assert (frames + [f])[1..] == frames[1..] + [f];
    TailsMore(frames[1..], f);
  }

  /** All labels are right. */
  ghost predicate Script(p: Profile, frames: seq<seq<byte>>, told: seq<Told>)
    requires Gathering(frames)
    decreases |told|
  {
    told == [] ||
    (Says(p, frames, told[0]) && Gathering(Then(p, frames, told[0])) && Script(p, Then(p, frames, told[0]), told[1..]))
  }

  /** What is in flight when the responder falls silent. */
  function AtEnd(p: Profile, frames: seq<seq<byte>>, told: seq<Told>): (end: seq<seq<byte>>)
    requires Gathering(frames)
    ensures Gathering(end)
    decreases |told|
  {
    if told == [] then frames else ThenGathers(p, frames, told[0]); AtEnd(p, Then(p, frames, told[0]), told[1..])
  }

  function Lines(told: seq<Told>): (lines: seq<Event>)
    ensures |lines| == |told| && forall i | 0 <= i < |told| :: lines[i] == told[i].line
  {
    seq(|told|, i requires 0 <= i < |told| => told[i].line)
  }

  function AddedPayloads(told: seq<Told>): seq<seq<byte>> {
    if told == [] then [] else told[0].payloads + AddedPayloads(told[1..])
  }

  function AddedProblems(told: seq<Told>): seq<Problem> {
    if told == [] then [] else told[0].problems + AddedProblems(told[1..])
  }

  /** A message in flight at the end is truncated; UDS hands over what arrived. */
  function EndPayloads(p: Profile, frames: seq<seq<byte>>): seq<seq<byte>>
    requires Gathering(frames)
  {
    if frames != [] && p.Uds? then [Got(frames)] else []
  }

  function EndProblems(frames: seq<seq<byte>>): seq<Problem>
    requires Gathering(frames)
  {
    if frames != [] then [Truncated(Length(frames[0]), |Got(frames)|)] else []
  }

  // ---------------------------------------------------------------------
  // The receiver agrees
  // ---------------------------------------------------------------------

  function SlotFor(frames: seq<seq<byte>>): Option<Assembly>
    requires Gathering(frames)
  {
    if frames == [] then None else Some(Assembly(Length(frames[0]), Got(frames), |frames| % 16))
  }

  lemma FirstSlot(f: seq<byte>)
    requires Announces(f)
    ensures Gathering([f]) && SlotFor([f]) == Some(Assembly(Length(f), f[2..], 1))
  {
    assert [f][1..] == [] && Tails([]) == [];
    assert Got([f]) == f[2..];
  }

  /** One line, heard by the receiver as labelled. */
  lemma SaysIsHeard(p: Profile, frames: seq<seq<byte>>, t: Told)
    requires Gathering(frames) && Says(p, frames, t)
    ensures Gathering(Then(p, frames, t)) && !t.line.Skip?
    ensures ReceiveEvent(p, SlotFor(frames), t.line) == Reception(SlotFor(Then(p, frames, t)), t.payloads, t.problems)
  {
    ThenGathers(p, frames, t);
    var slot := SlotFor(frames);
    if !Moving(p, t.line) {
      PassiveHeard(p, slot, t);
    } else if frames == [] {
      if Starts(t) {
        StartsHeard(p, t);
        FirstSlot(t.line.bytes);
      } else {
        LoneHeard(p, t);
      }
    } else if Extends(t, |frames| % 16, Missing(frames)) {
      ExtendsHeard(p, slot.value, t);
      Extended(frames, t.line.bytes);
      NextNumber(|frames|);
    } else if Completes(p, t, |frames| % 16, Got(frames), Missing(frames)) {
      CompletesHeard(p, slot.value, t);
    } else {
      BreaksHeard(p, slot.value, t);
    }
  }

  /** And every line has its label. */
  lemma EveryLineSays(p: Profile, frames: seq<seq<byte>>, e: Event)
    requires Gathering(frames) && !e.Skip?
    ensures Says(p, frames, Heard(p, SlotFor(frames), e))
  {
    if !Moving(p, e) {
      OthersArePassive(p, SlotFor(frames), e);
    } else if frames == [] {
      MovingAlone(p, e);
    } else {
      MovingInFlight(p, SlotFor(frames).value, e);
    }
  }

  lemma LinesMore(told: seq<Told>)
    requires told != []
    ensures Lines(told) == [told[0].line] + Lines(told[1..]) && Lines(told)[1..] == Lines(told[1..])
  {
  }

  lemma {:induction false} ScriptIsHeard(p: Profile, frames: seq<seq<byte>>, told: seq<Told>)
    requires Gathering(frames) && Script(p, frames, told)
    ensures NoSkip(Lines(told))
    ensures LinePayloads(p, SlotFor(frames), Lines(told)) == AddedPayloads(told)
    ensures LineProblems(p, SlotFor(frames), Lines(told)) == AddedProblems(told)
    ensures SlotOf(p, SlotFor(frames), Lines(told)) == SlotFor(AtEnd(p, frames, told))
    decreases |told|
  {
    if told != [] {
      SaysIsHeard(p, frames, told[0]);
      ScriptIsHeard(p, Then(p, frames, told[0]), told[1..]);
      LinesMore(told);
      LineCons(p, SlotFor(frames), told[0].line, Lines(told[1..]));
    }
  }

  /** Every conversation of a named responder, whatever else is on the bus: the
      answer holds of it what the labels of its lines say, and the message that is
      still in flight at the end. */
  lemma ConversationIsExact(p: Profile, events: seq<Event>, r: Responder, told: seq<Told>)
    requires r.Some? && Lines(told) == EventsOf(events, r) && Script(p, [], told)
    ensures MatchesOf(Normalized(p, events).matches, r) ==
            Matches(r, AddedPayloads(told) + EndPayloads(p, AtEnd(p, [], told)))
    ensures IssuesOf(Normalized(p, events).issues, r) ==
            Issues(r, AddedProblems(told) + EndProblems(AtEnd(p, [], told)))
  {
    ScriptIsHeard(p, [], told);
    OwnResult(p, events, r);
    EndsAgree(p, AtEnd(p, [], told));
  }

  lemma EndsAgree(p: Profile, frames: seq<seq<byte>>)
    requires Gathering(frames)
    ensures LeftPayloads(p, SlotFor(frames)) == EndPayloads(p, frames)
    ensures LeftProblems(SlotFor(frames)) == EndProblems(frames)
  {
  }

  /** And every conversation can be labelled so. */
  lemma {:induction false} EveryConversation(p: Profile, frames: seq<seq<byte>>, own: seq<Event>) returns (told: seq<Told>)
    requires Gathering(frames) && NoSkip(own)
    ensures Lines(told) == own && Script(p, frames, told)
    decreases |own|
  {
    if own == [] {
      told := [];
    } else {
      var t := Heard(p, SlotFor(frames), own[0]);
      EveryLineSays(p, frames, own[0]);
      ThenGathers(p, frames, t);
      var rest := EveryConversation(p, Then(p, frames, t), own[1..]);
      told := [t] + rest;
      assert told[1..] == rest;
      LinesMore(told);
    }
  }
}
