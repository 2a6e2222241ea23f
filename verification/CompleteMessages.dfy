/**
 * No silent truncation: an answer raises no issue for a responder exactly when
 * that responder's lines are complete messages, and then its matches are exactly
 * the payloads of those messages. This holds of both readers; they differ in what
 * counts as a payload and in where an unframed line may stand.
 */
module CompleteMessages {
  import opened Prelude
  import opened IsoTp
  import opened ReassemblyTable
  import opened Reassembly

  // ---------------------------------------------------------------------
  // Complete messages, described without the receiver
  // ---------------------------------------------------------------------

  /** Frames whose order matters: first and consecutive frames and, for the Mode 03
      reader, unframed lines, which end a message. All others stand on their own. */
  predicate InLane(p: Profile, s: Sent) {
    var f := s.frame;
    (f != [] && (f[0] / 16 == 1 || f[0] / 16 == 2)) || (p.Mode03? && (f == [] || f[0] / 16 >= 4))
  }

  function LaneOnly(p: Profile): Sent -> bool { (s: Sent) => InLane(p, s) }

  function Lane(p: Profile, sents: seq<Sent>): seq<Sent> { Filter(sents, LaneOnly(p)) }

  /** What a payload that was not reassembled is handed over as: as it is, or for
      Mode 03 from the first 43 on, which must start a well-formed answer. */
  predicate HandsOver(p: Profile, payload: seq<byte>, completes: Option<seq<byte>>) {
    if p.Uds? then payload != [] && completes == Some(payload)
    else
      var start := IndexOf(payload, 0x43);
      start.Some? && GoodMode03(payload[start.value..]) && completes == Some(payload[start.value..])
  }

  /** A reassembled Mode 03 payload must itself be a well-formed answer. */
  predicate Whole(p: Profile, payload: seq<byte>) {
    p.Mode03? ==> payload != [] && payload[0] == 0x43 && GoodMode03(payload)
  }

  /** An exact single frame or, for UDS, an unframed or empty line. */
  predicate StandsAlone(p: Profile, s: Sent) {
    var f := s.frame;
    if f == [] then p.Uds? && s.completes == None
    else if f[0] / 16 == 0 then
      var n := f[0] % 16;
      1 <= n <= |f| - 1 && AllPad(p, f[1..][n..]) && HandsOver(p, f[1..][..n], s.completes)
    else p.Uds? && f[0] / 16 >= 4 && HandsOver(p, f, s.completes)
  }

  /** Consecutive frames, numbered modulo 16 from `sn`, that carry exactly the
      bytes of `payload` from position `received` on; padding may follow the last. */
  predicate CarriesRest(p: Profile, frames: seq<Sent>, payload: seq<byte>, received: nat, sn: nat)
    decreases |frames|
  {
    received < |payload| && frames != [] &&
    var f := frames[0].frame;
    var room := |payload| - received;
    |f| >= 2 && f[0] / 16 == 2 && f[0] % 16 == sn &&
    if |f| - 1 < room then
      frames[0].completes == None
      && f[1..] == payload[received..received + |f| - 1]
      && CarriesRest(p, frames[1..], payload, received + |f| - 1, (sn + 1) % 16)
    else
      |frames| == 1 && frames[0].completes == Some(payload) && Whole(p, payload)
      && f[1..][..room] == payload[received..] && AllPad(p, f[1..][room..])
  }

  /** The frames that finish the message of which `a` has been received. */
  predicate Finishes(p: Profile, a: Assembly, frames: seq<Sent>) {
    frames != [] && frames[|frames| - 1].completes.Some? &&
    var payload := frames[|frames| - 1].completes.value;
    |payload| == a.declared && a.payload <= payload
    && CarriesRest(p, frames, payload, |a.payload|, a.next)
  }

  /** What a first frame announces. */
  function Announced(f: seq<byte>): Assembly
    requires |f| >= 2
  {
    Assembly(Declared(f), f[2..], 1)
  }

  /** A Mode 03 answer on an unframed line. */
  predicate IsUnframed(p: Profile, frames: seq<Sent>) {
    p.Mode03? && |frames| == 1 && frames[0].frame != [] && frames[0].frame[0] / 16 >= 4
    && HandsOver(p, frames[0].frame, frames[0].completes)
  }

  /** One complete multi-frame message. */
  predicate IsMultiFrame(p: Profile, frames: seq<Sent>) {
    frames != [] && IsFirst(frames[0].frame) && frames[0].completes == None
    && Finishes(p, Announced(frames[0].frame), frames[1..])
  }

  predicate IsMessage(p: Profile, frames: seq<Sent>) {
    IsMultiFrame(p, frames) || IsUnframed(p, frames)
  }

  ghost predicate Parses(p: Profile, slot: Option<Assembly>, lane: seq<Sent>, head: seq<Sent>, groups: seq<seq<Sent>>) {
    lane == head + Flatten(groups)
    && (forall i | 0 <= i < |groups| :: IsMessage(p, groups[i]))
    && (if slot.Some? then Finishes(p, slot.value, head) else head == [])
  }

  predicate AllStandAlone(p: Profile, sents: seq<Sent>) {
    forall i | 0 <= i < |sents| :: InLane(p, sents[i]) || StandsAlone(p, sents[i])
  }

  /** Nothing but complete messages: the lane is whole messages one after the
      other, every other frame is complete by itself. */
  ghost predicate Complete(p: Profile, sents: seq<Sent>) {
    AllStandAlone(p, sents) && exists groups :: Parses(p, None, Lane(p, sents), [], groups)
  }

  // ---------------------------------------------------------------------
  // Faithful reception is the same thing
  // ---------------------------------------------------------------------

  lemma DeliveredIsClean(p: Profile, slot: Option<Assembly>, payload: seq<byte>, completes: Option<seq<byte>>)
    requires payload != []
    ensures var o := Deliver(p, slot, payload, false);
            (o.problems == [] && o.payloads == Labels(completes) <==> HandsOver(p, payload, completes)) && o.slot == slot
  {
  }

  lemma SingleIsClean(p: Profile, slot: Option<Assembly>, s: Sent)
    requires s.frame != [] && s.frame[0] / 16 == 0
    ensures var o := ReceiveSingle(p, slot, s.frame);
            (o.problems == [] && o.payloads == Labels(s.completes) <==> StandsAlone(p, s)) && o.slot == slot
  {
    var n := s.frame[0] % 16;
    if 1 <= n < |s.frame| {
      DeliveredIsClean(p, slot, s.frame[1..][..n], s.completes);
    }
  }

  /** A frame outside the lane is clean exactly when it stands alone, and then it
      leaves the partial message untouched. */
  lemma AloneIsClean(p: Profile, slot: Option<Assembly>, s: Sent)
    requires !InLane(p, s)
    ensures var o := Receive(p, slot, s.frame);
            (o.problems == [] && o.payloads == Labels(s.completes) <==> StandsAlone(p, s)) &&
            (o.problems == [] ==> o.slot == slot)
  {
    if s.frame != [] && s.frame[0] / 16 == 0 {
      SingleIsClean(p, slot, s);
    } else if s.frame != [] && s.frame[0] / 16 >= 4 {
      DeliveredIsClean(p, slot, s.frame, s.completes);
    }
  }

  /** An unframed Mode 03 line is clean exactly when it is a well-formed answer and
      no message is in flight. */
  lemma UnframedIsClean(p: Profile, slot: Option<Assembly>, s: Sent)
    requires p.Mode03? && (s.frame == [] || s.frame[0] / 16 >= 4)
    ensures var o := Receive(p, slot, s.frame);
            (o.problems == [] && o.payloads == Labels(s.completes) <==> slot.None? && IsUnframed(p, [s])) &&
            o.slot == None
  {
    if s.frame != [] {
      DeliveredIsClean(p, slot, s.frame, s.completes);
    }
  }

  lemma FirstIsClean(p: Profile, slot: Option<Assembly>, s: Sent)
    requires s.frame != [] && s.frame[0] / 16 == 1
    ensures var o := Receive(p, slot, s.frame);
            o.problems == [] <==> slot.None? && IsFirst(s.frame)
    ensures var o := Receive(p, slot, s.frame);
            o.problems == [] ==> o.payloads == [] && o.slot == Some(Announced(s.frame)) && Sound(o.slot.value)
  {
  }

  lemma FlattenCons<T>(g: seq<T>, groups: seq<seq<T>>)
    ensures Flatten([g] + groups) == g + Flatten(groups)
  {
    assert ([g] + groups)[1..] == groups;
  }

  lemma ConsFinishes(p: Profile, a: Assembly, s: Sent, rest: seq<Sent>)
    requires |s.frame| >= 2 && s.frame[0] / 16 == 2 && s.frame[0] % 16 == a.next
    requires |s.frame| - 1 < a.declared - |a.payload| && s.completes == None
    ensures var a' := Assembly(a.declared, a.payload + s.frame[1..], (a.next + 1) % 16);
            Finishes(p, a', rest) <==> rest != [] && Finishes(p, a, [s] + rest)
  {
    var all := [s] + rest;
    assert all[1..] == rest;
    if rest != [] {
      assert all[|all| - 1] == rest[|rest| - 1];
      if rest[|rest| - 1].completes.Some? {
        var payload := rest[|rest| - 1].completes.value;
        var n, k := |a.payload|, |s.frame| - 1;
        if |payload| == a.declared {
          assert payload[..n + k] == payload[..n] + payload[n..n + k];
          assert a.payload + s.frame[1..] <= payload <==> a.payload <= payload && s.frame[1..] == payload[n..n + k] by {
            if a.payload + s.frame[1..] <= payload {
              assert (a.payload + s.frame[1..])[..n] == a.payload;
              assert (a.payload + s.frame[1..])[n..] == s.frame[1..];
              assert payload[..n + k][..n] == payload[..n];
            }
          }
        }
      }
    }
  }

  lemma LastFinishes(p: Profile, a: Assembly, s: Sent)
    requires Sound(a)
    requires |s.frame| >= 2 && s.frame[0] / 16 == 2 && s.frame[0] % 16 == a.next
    requires |s.frame| - 1 >= a.declared - |a.payload|
    ensures var o := Receive(p, Some(a), s.frame);
            o.problems == [] && o.payloads == Labels(s.completes) <==> Finishes(p, a, [s])
    ensures Receive(p, Some(a), s.frame).slot == None
  {
    var room := a.declared - |a.payload|;
    var data := s.frame[1..];
    var payload := a.payload + data[..room];
    assert [s][0] == s && [s][1..] == [];
    assert payload[..|a.payload|] == a.payload && payload[|a.payload|..] == data[..room];
    if Finishes(p, a, [s]) {
      var q := s.completes.value;
      assert q == q[..|a.payload|] + q[|a.payload|..];
      assert q == payload;
    }
  }

  /** A clean consecutive frame continues the message in flight. */
  lemma ConsecutiveIsClean(p: Profile, slot: Option<Assembly>, s: Sent)
    requires s.frame != [] && s.frame[0] / 16 == 2
    requires slot.Some? ==> Sound(slot.value)
    ensures var o := Receive(p, slot, s.frame);
            o.problems == [] ==>
              slot.Some? && |s.frame| >= 2 && s.frame[0] % 16 == slot.value.next
    ensures var o := Receive(p, slot, s.frame);
            slot.Some? && |s.frame| >= 2 && s.frame[0] % 16 == slot.value.next
            && |s.frame| - 1 < slot.value.declared - |slot.value.payload| ==>
              o == Reception(Some(Assembly(slot.value.declared, slot.value.payload + s.frame[1..],
                                           (slot.value.next + 1) % 16)), [], [])
  {
  }

  lemma LaneTail(p: Profile, sents: seq<Sent>)
    requires sents != []
    ensures Lane(p, sents) == if InLane(p, sents[0]) then [sents[0]] + Lane(p, sents[1..]) else Lane(p, sents[1..])
  {
  }

  lemma AllStandAloneTail(p: Profile, sents: seq<Sent>)
    requires sents != []
    ensures AllStandAlone(p, sents) <==>
            (InLane(p, sents[0]) || StandsAlone(p, sents[0])) && AllStandAlone(p, sents[1..])
  {
    assert forall i | 0 < i < |sents| :: sents[i] == sents[1..][i - 1];
  }

  /** Moving a first frame between the lane and the first group. */
  lemma FirstParses(p: Profile, s: Sent, lane: seq<Sent>, head: seq<Sent>, groups: seq<seq<Sent>>)
    requires IsFirst(s.frame) && s.completes == None
    requires Parses(p, Some(Announced(s.frame)), lane, head, groups)
    ensures Parses(p, None, [s] + lane, [], [[s] + head] + groups)
  {
    FlattenCons([s] + head, groups);
    assert ([s] + head)[1..] == head;
    assert [s] + (head + Flatten(groups)) == [] + (([s] + head) + Flatten(groups));
  }

  lemma GroupUnparses(p: Profile, s: Sent, lane: seq<Sent>, groups: seq<seq<Sent>>)
    requires Parses(p, None, [s] + lane, [], groups)
    ensures groups != [] && IsMessage(p, groups[0]) && groups[0] == [s] + groups[0][1..]
    ensures lane == groups[0][1..] + Flatten(groups[1..])
  {
    assert groups != [];
    var g := groups[0];
    assert IsMessage(p, g);
    var rest := Flatten(groups[1..]);
    assert [s] + lane == g + rest;
    assert ([s] + lane)[0] == g[0] && ([s] + lane)[1..] == lane && (g + rest)[1..] == g[1..] + rest;
  }

  lemma FirstUnparses(p: Profile, s: Sent, lane: seq<Sent>, groups: seq<seq<Sent>>)
    requires Parses(p, None, [s] + lane, [], groups) && s.frame != [] && s.frame[0] / 16 == 1
    ensures groups != [] && groups[0] != [] && IsFirst(s.frame) && s.completes == None
    ensures Parses(p, Some(Announced(s.frame)), lane, groups[0][1..], groups[1..])
  {
    GroupUnparses(p, s, lane, groups);
  }

  /** An unframed line is a group of its own. */
  lemma UnframedParses(p: Profile, s: Sent, lane: seq<Sent>, groups: seq<seq<Sent>>)
    requires IsUnframed(p, [s]) && Parses(p, None, lane, [], groups)
    ensures Parses(p, None, [s] + lane, [], [[s]] + groups)
  {
    FlattenCons([s], groups);
    assert lane == Flatten(groups);
    assert [s] + Flatten(groups) == [] + Flatten([[s]] + groups);
    assert forall i | 0 < i <= |groups| :: ([[s]] + groups)[i] == groups[i - 1];
  }

  lemma UnframedUnparses(p: Profile, s: Sent, lane: seq<Sent>, groups: seq<seq<Sent>>)
    requires Parses(p, None, [s] + lane, [], groups) && (s.frame == [] || s.frame[0] / 16 != 1)
    ensures groups != [] && IsUnframed(p, [s]) && Parses(p, None, lane, [], groups[1..])
  {
    GroupUnparses(p, s, lane, groups);
    assert groups[0] == [s];
    assert lane == [] + Flatten(groups[1..]);
  }

  /** Moving a consecutive frame between the lane and the message in flight. */
  lemma HeadParses(p: Profile, s: Sent, lane: seq<Sent>, head: seq<Sent>, groups: seq<seq<Sent>>)
    ensures lane == head + Flatten(groups) <==> [s] + lane == ([s] + head) + Flatten(groups)
  {
    var rest := Flatten(groups);
    assert ([s] + head) + rest == [s] + (head + rest);
    assert ([s] + lane)[1..] == lane && ([s] + (head + rest))[1..] == head + rest;
  }

  lemma HeadUnparses(p: Profile, a: Assembly, s: Sent, lane: seq<Sent>, head: seq<Sent>, groups: seq<seq<Sent>>)
    requires Parses(p, Some(a), [s] + lane, head, groups)
    ensures head == [s] + head[1..] && lane == head[1..] + Flatten(groups)
  {
    var rest := Flatten(groups);
    assert ([s] + lane)[0] == (head + rest)[0] == head[0];
    HeadParses(p, s, lane, head[1..], groups);
  }

  lemma {:induction false} FaithfulIsComplete(p: Profile, slot: Option<Assembly>, sents: seq<Sent>)
    returns (head: seq<Sent>, groups: seq<seq<Sent>>)
    requires Faithful(p, slot, sents) && (slot.Some? ==> Sound(slot.value))
    ensures AllStandAlone(p, sents) && Parses(p, slot, Lane(p, sents), head, groups)
    decreases |sents|
  {
    if sents == [] {
      head, groups := [], [];
    } else {
      var s := sents[0];
      var o := Receive(p, slot, s.frame);
      LaneTail(p, sents);
      AllStandAloneTail(p, sents);
      ReceiveKeepsSound(p, slot, Frame(s.responder, s.frame));
      var head', groups' := FaithfulIsComplete(p, o.slot, sents[1..]);
      head, groups := ExtendParse(p, slot, s, Lane(p, sents[1..]), head', groups');
    }
  }

  /** One faithfully received frame in front of parsed frames. */
  lemma ExtendParse(p: Profile, slot: Option<Assembly>, s: Sent, lane: seq<Sent>,
                    head: seq<Sent>, groups: seq<seq<Sent>>) returns (head': seq<Sent>, groups': seq<seq<Sent>>)
    requires slot.Some? ==> Sound(slot.value)
    requires Receive(p, slot, s.frame).problems == []
    requires Receive(p, slot, s.frame).payloads == Labels(s.completes)
    requires Parses(p, Receive(p, slot, s.frame).slot, lane, head, groups)
    ensures InLane(p, s) || StandsAlone(p, s)
    ensures Parses(p, slot, if InLane(p, s) then [s] + lane else lane, head', groups')
  {
    head', groups' := head, groups;
    if !InLane(p, s) {
      AloneIsClean(p, slot, s);
    } else if s.frame == [] || s.frame[0] / 16 >= 4 {
      UnframedIsClean(p, slot, s);
      UnframedParses(p, s, lane, groups);
      groups' := [[s]] + groups;
    } else if s.frame[0] / 16 == 1 {
      FirstIsClean(p, slot, s);
      FirstParses(p, s, lane, head, groups);
      head', groups' := [], [[s] + head] + groups;
    } else {
      ConsecutiveIsClean(p, slot, s);
      HeadParses(p, s, lane, head, groups);
      head' := [s] + head;
      if |s.frame| - 1 < slot.value.declared - |slot.value.payload| {
        ConsFinishes(p, slot.value, s, head);
      } else {
        LastFinishes(p, slot.value, s);
        assert [s] + head == [s];
      }
    }
  }

  lemma {:induction false} CompleteIsFaithful(p: Profile, slot: Option<Assembly>, sents: seq<Sent>,
                                              head: seq<Sent>, groups: seq<seq<Sent>>)
    requires slot.Some? ==> Sound(slot.value)
    requires AllStandAlone(p, sents) && Parses(p, slot, Lane(p, sents), head, groups)
    ensures Faithful(p, slot, sents)
    decreases |sents|
  {
    if sents != [] {
      var s := sents[0];
      LaneTail(p, sents);
      AllStandAloneTail(p, sents);
      ReceiveKeepsSound(p, slot, Frame(s.responder, s.frame));
      var head', groups' := SplitParse(p, slot, s, Lane(p, sents[1..]), head, groups);
      CompleteIsFaithful(p, Receive(p, slot, s.frame).slot, sents[1..], head', groups');
    }
  }

  /** The first frame of parsed frames is received faithfully. */
  lemma SplitParse(p: Profile, slot: Option<Assembly>, s: Sent, lane: seq<Sent>,
                   head: seq<Sent>, groups: seq<seq<Sent>>) returns (head': seq<Sent>, groups': seq<seq<Sent>>)
    requires slot.Some? ==> Sound(slot.value)
    requires InLane(p, s) || StandsAlone(p, s)
    requires Parses(p, slot, if InLane(p, s) then [s] + lane else lane, head, groups)
    ensures Receive(p, slot, s.frame).problems == []
    ensures Receive(p, slot, s.frame).payloads == Labels(s.completes)
    ensures Parses(p, Receive(p, slot, s.frame).slot, lane, head', groups')
  {
    head', groups' := head, groups;
    if !InLane(p, s) {
      AloneIsClean(p, slot, s);
    } else if slot.None? && s.frame != [] && s.frame[0] / 16 == 1 {
      FirstUnparses(p, s, lane, groups);
      FirstIsClean(p, slot, s);
      head', groups' := groups[0][1..], groups[1..];
    } else if slot.None? {
      UnframedUnparses(p, s, lane, groups);
      UnframedIsClean(p, slot, s);
      groups' := groups[1..];
    } else {
      var a := slot.value;
      HeadUnparses(p, a, s, lane, head, groups);
      ConsecutiveIsClean(p, slot, s);
      head' := head[1..];
      if |s.frame| - 1 < a.declared - |a.payload| {
        ConsFinishes(p, a, s, head[1..]);
      } else {
        assert head == [s];
        LastFinishes(p, a, s);
      }
    }
  }

  /** The receiver accepts labelled frames without complaint exactly when they
      are complete messages carrying those labels. */
  lemma FaithfulIffComplete(p: Profile, sents: seq<Sent>)
    ensures Faithful(p, None, sents) <==> Complete(p, sents)
  {
    if Faithful(p, None, sents) {
      var head, groups := FaithfulIsComplete(p, None, sents);
    }
    if Complete(p, sents) {
      var groups :| Parses(p, None, Lane(p, sents), [], groups);
      CompleteIsFaithful(p, None, sents, [], groups);
    }
  }

  // ---------------------------------------------------------------------
  // The normalizer reports no issue exactly for complete messages
  // ---------------------------------------------------------------------

  /** The frames of `r` labelled with what the receiver hands over. */
  function Labelled(p: Profile, r: Responder, slot: Option<Assembly>, own: seq<Event>): seq<Sent>
    decreases |own|
  {
    if own == [] || !own[0].Frame? then []
    else
      var o := Receive(p, slot, own[0].bytes);
      [Sent(r, own[0].bytes, if o.payloads == [] then None else Some(o.payloads[0]))]
      + Labelled(p, r, o.slot, own[1..])
  }

  lemma {:induction false} IssuesGrow(p: Profile, s: Scan, events: seq<Event>)
    ensures s.issues <= Run(p, s, events).issues
    decreases |events|
  {
    if events != [] {
      IssuesGrow(p, Step(p, s, events[0]), events[1..]);
    }
  }

  lemma {:induction false} DrainGrows(p: Profile, s: Scan)
    ensures |Drain(p, s).issues| == |s.issues| + |s.table|
    decreases |s.table|
  {
    if s.table != [] {
      var e := s.table[0];
      var o := Leftover(p, e);
      DrainGrows(p, Scan(s.table[1..], s.matches + Matches(e.responder, o.payloads),
                         s.issues + Issues(e.responder, o.problems)));
    }
  }

  function Single(r: Responder, slot: Option<Assembly>): Table {
    if slot.None? then [] else [Entry(r, slot.value)]
  }

  lemma PutSingle(r: Responder, slot: Option<Assembly>, slot': Option<Assembly>)
    ensures Lookup(Single(r, slot), r) == slot
    ensures Put(Single(r, slot), r, slot') == Single(r, slot')
  {
    var t := Single(r, slot);
    if slot.Some? {
      assert t[0] == Entry(r, slot.value) && t[1..] == [];
      assert Without(t, r) == Without(t[1..], r);
    }
    if slot'.Some? && slot.Some? {
      assert Replace(t, r, slot'.value) == [Entry(r, slot'.value)] + t[1..];
    }
  }

  lemma OnePayload(p: Profile, slot: Option<Assembly>, f: seq<byte>)
    ensures |Receive(p, slot, f).payloads| <= 1
  {
  }

  /** The first of some lines raised no issue if none was raised at all. */
  lemma FirstIsQuiet(p: Profile, r: Responder, slot: Option<Assembly>, s: Scan, own: seq<Event>)
    requires s.table == Single(r, slot) && own != [] && !own[0].Skip? && own[0].responder == r
    requires |Drain(p, Run(p, s, own)).issues| == |s.issues|
    ensures own[0].Frame? && Receive(p, slot, own[0].bytes).problems == []
    ensures var s' := Step(p, s, own[0]);
            s'.table == Single(r, Receive(p, slot, own[0].bytes).slot) && s'.issues == s.issues
  {
    var e := own[0];
    var o := ReceiveEvent(p, slot, e);
    var s' := Step(p, s, e);
    PutSingle(r, slot, o.slot);
    DrainGrows(p, Run(p, s', own[1..]));
    IssuesGrow(p, s', own[1..]);
    assert |s'.issues| == |s.issues| + |o.problems|;
    assert s.issues + Issues(r, []) == s.issues;
  }

  /** Labelling the first line and then the others. */
  lemma LabelledMore(p: Profile, r: Responder, slot: Option<Assembly>, own: seq<Event>)
    requires own != [] && own[0].Frame? && own[0].responder == r
    ensures var o, sents := Receive(p, slot, own[0].bytes), Labelled(p, r, slot, own);
            sents != [] && sents[0].frame == own[0].bytes && o.payloads == Labels(sents[0].completes)
            && sents[1..] == Labelled(p, r, o.slot, own[1..])
            && FrameEvents(sents) == [own[0]] + FrameEvents(sents[1..])
  {
    OnePayload(p, slot, own[0].bytes);
    FrameEventsTail(Labelled(p, r, slot, own));
  }

  lemma FaithfulMore(p: Profile, slot: Option<Assembly>, sents: seq<Sent>)
    requires sents != []
    ensures var o := Receive(p, slot, sents[0].frame);
            Faithful(p, slot, sents) <==>
            o.problems == [] && o.payloads == Labels(sents[0].completes) && Faithful(p, o.slot, sents[1..])
  {
  }

  /** Reading these lines of `r` on their own adds no issue. */
  predicate Unblamed(p: Profile, r: Responder, slot: Option<Assembly>, s: Scan, own: seq<Event>) {
    s.table == Single(r, slot) && (forall i | 0 <= i < |own| :: !own[i].Skip? && own[i].responder == r)
    && |Drain(p, Run(p, s, own)).issues| == |s.issues|
  }

  lemma UnblamedTail(p: Profile, r: Responder, slot: Option<Assembly>, s: Scan, own: seq<Event>)
    requires Unblamed(p, r, slot, s, own) && own != []
    ensures own[0].Frame? && own[0].responder == r && Receive(p, slot, own[0].bytes).problems == []
    ensures Unblamed(p, r, Receive(p, slot, own[0].bytes).slot, Step(p, s, own[0]), own[1..])
  {
    FirstIsQuiet(p, r, slot, s, own);
    RunFirst(p, s, own);
  }

  lemma RunFirst(p: Profile, s: Scan, own: seq<Event>)
    requires own != []
    ensures Run(p, s, own) == Run(p, Step(p, s, own[0]), own[1..])
  {
  }

  lemma {:induction false} LabelledFrames(p: Profile, r: Responder, slot: Option<Assembly>, s: Scan, own: seq<Event>)
    requires Unblamed(p, r, slot, s, own)
    ensures FrameEvents(Labelled(p, r, slot, own)) == own
    decreases |own|
  {
    if own != [] {
      UnblamedTail(p, r, slot, s, own);
      LabelledMore(p, r, slot, own);
      LabelledFrames(p, r, Receive(p, slot, own[0].bytes).slot, Step(p, s, own[0]), own[1..]);
      assert own == [own[0]] + own[1..];
    }
  }

  lemma {:induction false} CleanRunIsFaithful(p: Profile, r: Responder, slot: Option<Assembly>, s: Scan, own: seq<Event>)
    requires Unblamed(p, r, slot, s, own)
    ensures Faithful(p, slot, Labelled(p, r, slot, own))
    decreases |own|
  {
    if own == [] {
      DrainGrows(p, s);
    } else {
      UnblamedTail(p, r, slot, s, own);
      LabelledMore(p, r, slot, own);
      CleanRunIsFaithful(p, r, Receive(p, slot, own[0].bytes).slot, Step(p, s, own[0]), own[1..]);
      FaithfulMore(p, slot, Labelled(p, r, slot, own));
    }
  }

  lemma {:induction false} SentByOther(sents: seq<Sent>, r: Responder, q: Responder)
    requires forall i | 0 <= i < |sents| :: sents[i].responder == r
    ensures SentBy(sents, q) == if q == r then sents else []
  {
    if sents != [] {
      SentByOther(sents[1..], r, q);
    }
  }

  /** `sents` accounts for the lines of `r`: its frames are those lines, each
      payload is complete, and the payloads are the matches. */
  ghost predicate Accounts(p: Profile, sents: seq<Sent>, events: seq<Event>, r: Responder) {
    FrameEvents(sents) == EventsOf(events, r) && Complete(p, sents)
  }

  lemma AccountsIsExact(p: Profile, sents: seq<Sent>, events: seq<Event>, r: Responder)
    requires Accounts(p, sents, events, r)
    ensures Collected(p, EventsOf(events, r)) == Scan([], Completed(sents), [])
  {
    OwnIsNoSkip(events, r);
    forall i | 0 <= i < |sents| ensures sents[i].responder == r {
      assert FrameEvents(sents)[i].responder == r;
    }
    FaithfulIffComplete(p, sents);
    forall q ensures Faithful(p, None, SentBy(sents, q)) {
      SentByOther(sents, r, q);
    }
    FaithfulIsExact(p, sents);
  }

  /** No silent truncation, both ways: no issue names `r` exactly when `r` sent
      nothing but complete messages. */
  lemma CleanIffComplete(p: Profile, events: seq<Event>, r: Responder)
    requires r.Some?
    ensures IssuesOf(Normalized(p, events).issues, r) == [] <==> exists sents :: Accounts(p, sents, events, r)
  {
    NonInterference(p, events, r);
    OwnEventsOnly(p, events, r);
    var own := EventsOf(events, r);
    assert IssuesOf(Normalized(p, events).issues, r) == [] <==> Collected(p, own).issues == [] by {
      assert [Issue(None, NotFound)][1..] == [];
    }
    if Collected(p, own).issues == [] {
      OwnIsNoSkip(events, r);
      CleanRunIsFaithful(p, r, None, Fresh, own);
      LabelledFrames(p, r, None, Fresh, own);
      FaithfulIffComplete(p, Labelled(p, r, None, own));
      assert Accounts(p, Labelled(p, r, None, own), events, r);
    }
    if sents :| Accounts(p, sents, events, r) {
      AccountsIsExact(p, sents, events, r);
    }
  }

  /** And then the matches of `r` are exactly the payloads of those messages,
      in the order in which they were completed. */
  lemma CompleteMatches(p: Profile, events: seq<Event>, r: Responder, sents: seq<Sent>)
    requires Accounts(p, sents, events, r)
    ensures MatchesOf(Normalized(p, events).matches, r) == Completed(sents)
  {
    NonInterference(p, events, r);
    AccountsIsExact(p, sents, events, r);
  }
}
