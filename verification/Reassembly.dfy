/**
 * Reassembly inverts segmentation (ISO 15765-2:2016, section 9.6), whatever the
 * interleaving of the responders.
 */
module Reassembly {
  import opened Prelude
  import opened IsoTp
  import opened ReassemblyTable

  /** One transmitted frame, labelled with the payload that it completes. */
  datatype Sent = Sent(responder: Responder, frame: seq<byte>, completes: Option<seq<byte>>)

  function OfSent(r: Responder): Sent -> bool { (s: Sent) => s.responder == r }

  /** What one responder transmitted, in its own order. */
  function SentBy(stream: seq<Sent>, r: Responder): seq<Sent> { Filter(stream, OfSent(r)) }

  function FrameEvents(stream: seq<Sent>): seq<Event> {
    seq(|stream|, i requires 0 <= i < |stream| => Frame(stream[i].responder, stream[i].frame))
  }

  /** The payloads that a stream completes, in the order of their last frames. */
  function Completed(stream: seq<Sent>): seq<Match> {
    if stream == [] then []
    else if stream[0].completes.Some? then
      [Match(stream[0].responder, stream[0].completes.value)] + Completed(stream[1..])
    else Completed(stream[1..])
  }

  function Labels(completes: Option<seq<byte>>): seq<seq<byte>> {
    match completes case None => [] case Some(payload) => [payload]
  }

  /** Frame by frame the receiver hands over exactly what the labels say, raises
      no issue, and has nothing in flight at the end. */
  predicate Faithful(p: Profile, slot: Option<Assembly>, sents: seq<Sent>)
    decreases |sents|
  {
    if sents == [] then slot.None?
    else
      var o := Receive(p, slot, sents[0].frame);
      o.problems == [] && o.payloads == Labels(sents[0].completes) && Faithful(p, o.slot, sents[1..])
  }

  // ---------------------------------------------------------------------
  // From the receiver of one responder to the shared table
  // ---------------------------------------------------------------------

  lemma SentByTail(stream: seq<Sent>, r: Responder)
    requires stream != []
    ensures SentBy(stream, r) ==
            if stream[0].responder == r then [stream[0]] + SentBy(stream[1..], r) else SentBy(stream[1..], r)
  {
  }

  lemma FrameEventsTail(stream: seq<Sent>)
    requires stream != []
    ensures FrameEvents(stream)[0] == Frame(stream[0].responder, stream[0].frame)
    ensures FrameEvents(stream)[1..] == FrameEvents(stream[1..])
  {
  }

  /** After the first frame only the slot of its sender has changed. */
  lemma Advance(good: (Option<Assembly>, seq<Sent>) -> bool, t: Table, stream: seq<Sent>, slot: Option<Assembly>)
    requires stream != []
    requires forall r :: good(Lookup(t, r), SentBy(stream, r))
    requires good(slot, SentBy(stream[1..], stream[0].responder))
    ensures forall r :: good(Lookup(Put(t, stream[0].responder, slot), r), SentBy(stream[1..], r))
  {
    forall r ensures good(Lookup(Put(t, stream[0].responder, slot), r), SentBy(stream[1..], r)) {
      LookupPut(t, stream[0].responder, slot, r);
      SentByTail(stream, r);
      assert good(Lookup(t, r), SentBy(stream, r));
    }
  }

  lemma EmptyWhenNoEntry(p: Profile, t: Table)
    requires forall r :: Faithful(p, Lookup(t, r), SentBy([], r))
    ensures t == []
  {
    var r := if t == [] then None else t[0].responder;
    assert Faithful(p, Lookup(t, r), SentBy([], r));
  }

  /** The step on the first frame, seen by its sender. */
  lemma FaithfulStep(p: Profile, s: Scan, stream: seq<Sent>) returns (slot: Option<Assembly>)
    requires stream != []
    requires Faithful(p, Lookup(s.table, stream[0].responder), SentBy(stream, stream[0].responder))
    ensures Step(p, s, Frame(stream[0].responder, stream[0].frame)) ==
            Scan(Put(s.table, stream[0].responder, slot),
                 s.matches + Matches(stream[0].responder, Labels(stream[0].completes)), s.issues)
    ensures Faithful(p, slot, SentBy(stream[1..], stream[0].responder))
  {
    var r := stream[0].responder;
    SentByTail(stream, r);
    var o := Receive(p, Lookup(s.table, r), stream[0].frame);
    assert s.issues + Issues(r, o.problems) == s.issues;
    slot := o.slot;
  }

  lemma CompletedHead(stream: seq<Sent>)
    requires stream != []
    ensures Completed(stream) == Matches(stream[0].responder, Labels(stream[0].completes)) + Completed(stream[1..])
  {
    var first := Matches(stream[0].responder, Labels(stream[0].completes));
    if stream[0].completes.Some? {
      assert first == [Match(stream[0].responder, stream[0].completes.value)];
    } else {
      assert first == [];
    }
  }

  /** If every responder on its own is received faithfully, so is the interleaving. */
  lemma {:induction false} FaithfulRun(p: Profile, s: Scan, stream: seq<Sent>)
    requires forall r :: Faithful(p, Lookup(s.table, r), SentBy(stream, r))
    ensures Run(p, s, FrameEvents(stream)) == Scan([], s.matches + Completed(stream), s.issues)
    decreases |stream|
  {
    if stream == [] {
      EmptyWhenNoEntry(p, s.table);
    } else {
      FrameEventsTail(stream);
      var slot := FaithfulStep(p, s, stream);
      Advance((slot, sents) => Faithful(p, slot, sents), s.table, stream, slot);
      var s' := Scan(Put(s.table, stream[0].responder, slot),
                     s.matches + Matches(stream[0].responder, Labels(stream[0].completes)), s.issues);
      FaithfulRun(p, s', stream[1..]);
      CompletedHead(stream);
      Regroup(s.matches, Matches(stream[0].responder, Labels(stream[0].completes)), Completed(stream[1..]));
    }
  }

  /** Exactness: one match per completed payload, in completion order, no issue. */
  lemma FaithfulIsExact(p: Profile, stream: seq<Sent>)
    requires forall r :: Faithful(p, None, SentBy(stream, r))
    ensures Collected(p, FrameEvents(stream)) == Scan([], Completed(stream), [])
  {
    FaithfulRun(p, Fresh, stream);
  }

  // ---------------------------------------------------------------------
  // Segmentation
  // ---------------------------------------------------------------------

  /** A payload to transmit and the padding after its last byte. */
  datatype Message = Message(payload: seq<byte>, pad: seq<byte>)

  /** Consecutive frames of seven bytes each, numbered modulo 16. */
  function Consecutive(r: Responder, m: Message, from: nat, sn: nat): seq<Sent>
    requires from < |m.payload| && sn < 16
    decreases |m.payload| - from
  {
    var pci: byte := 0x20 + sn;
    if |m.payload| - from <= 7 then
      [Sent(r, [pci] + m.payload[from..] + m.pad, Some(m.payload))]
    else
      [Sent(r, [pci] + m.payload[from..from + 7], None)] + Consecutive(r, m, from + 7, (sn + 1) % 16)
  }

  /** A single frame for up to seven bytes; otherwise a first frame that carries
      the length and six bytes, then consecutive frames numbered from 1. */
  function Segment(r: Responder, m: Message): seq<Sent>
    requires 1 <= |m.payload| <= 4095
  {
    var n := |m.payload|;
    if n <= 7 then
      var pci: byte := n;
      [Sent(r, [pci] + m.payload + m.pad, Some(m.payload))]
    else
      var high: byte := 0x10 + n / 256;
      var low: byte := n % 256;
      [Sent(r, [high, low] + m.payload[..6], None)] + Consecutive(r, m, 6, 1)
  }

  /** Payloads that a normalizer passes on unchanged. */
  predicate Accepts(p: Profile, payload: seq<byte>) {
    1 <= |payload| <= 4095 && (p.Mode03? ==> payload[0] == 0x43 && GoodMode03(payload))
  }

  predicate Sendable(p: Profile, m: Message) {
    Accepts(p, m.payload) && AllPad(p, m.pad)
  }

  /** All frames of one responder that sends `ms` one after the other. */
  function Transmit(p: Profile, r: Responder, ms: seq<Message>): seq<Sent>
    requires forall i | 0 <= i < |ms| :: Sendable(p, ms[i])
  {
    if ms == [] then [] else assert Sendable(p, ms[0]); Segment(r, ms[0]) + Transmit(p, r, ms[1..])
  }

  lemma DeliverAccepted(p: Profile, slot: Option<Assembly>, payload: seq<byte>, strict: bool)
    requires Accepts(p, payload)
    ensures Deliver(p, slot, payload, strict) == Reception(slot, [payload], [])
  {
    if p.Mode03? {
      assert IndexOf(payload, 0x43) == Some(0);
      assert payload[0..] == payload;
    }
  }

  lemma ReceiveMiddle(p: Profile, a: Assembly, pci: byte, data: seq<byte>)
    requires pci / 16 == 2 && pci % 16 == a.next && 1 <= |data| < a.declared - |a.payload|
    ensures Receive(p, Some(a), [pci] + data) ==
            Reception(Some(Assembly(a.declared, a.payload + data, (a.next + 1) % 16)), [], [])
  {
    assert ([pci] + data)[1..] == data;
  }

  lemma ReceiveLast(p: Profile, a: Assembly, pci: byte, data: seq<byte>, pad: seq<byte>)
    requires pci / 16 == 2 && pci % 16 == a.next && 1 <= |data| == a.declared - |a.payload|
    requires AllPad(p, pad)
    ensures Receive(p, Some(a), [pci] + data + pad) == Deliver(p, None, a.payload + data, true)
  {
    var f := [pci] + data + pad;
    assert f[1..] == data + pad;
    assert f[1..][..|data|] == data && f[1..][|data|..] == pad;
  }

  lemma ReceiveWhole(p: Profile, slot: Option<Assembly>, pci: byte, data: seq<byte>, pad: seq<byte>)
    requires pci == |data| && 1 <= |data| <= 7 && AllPad(p, pad)
    ensures Receive(p, slot, [pci] + data + pad) == Deliver(p, slot, data, false)
  {
    var f := [pci] + data + pad;
    assert f[1..] == data + pad;
    assert f[1..][..|data|] == data && f[1..][|data|..] == pad;
  }

  lemma ReceiveOpening(p: Profile, high: byte, low: byte, data: seq<byte>)
    requires high / 16 == 1 && 1 <= |data| < high % 16 * 256 + low && high % 16 * 256 + low >= 3
    ensures Receive(p, None, [high, low] + data) ==
            Reception(Some(Assembly(high % 16 * 256 + low, data, 1)), [], [])
  {
    assert ([high, low] + data)[2..] == data;
  }

  /** A frame takes its sender's slot from `slot` to `slot'`, hands over what its
      label says and raises no issue. */
  predicate Gives(p: Profile, slot: Option<Assembly>, s: Sent, slot': Option<Assembly>) {
    Receive(p, slot, s.frame) == Reception(slot', Labels(s.completes), [])
  }

  function Partial(m: Message, from: nat, sn: nat): Assembly
    requires from < |m.payload|
  {
    Assembly(|m.payload|, m.payload[..from], sn)
  }

  lemma LastGives(p: Profile, r: Responder, m: Message, from: nat, sn: nat)
    requires Sendable(p, m) && from < |m.payload| <= from + 7 && sn < 16
    ensures Gives(p, Some(Partial(m, from, sn)), Consecutive(r, m, from, sn)[0], None)
  {
    ReceiveLast(p, Partial(m, from, sn), 0x20 + sn, m.payload[from..], m.pad);
    assert m.payload[..from] + m.payload[from..] == m.payload;
    DeliverAccepted(p, None, m.payload, true);
  }

  lemma MiddleGives(p: Profile, r: Responder, m: Message, from: nat, sn: nat)
    requires from + 7 < |m.payload| && sn < 16
    ensures Gives(p, Some(Partial(m, from, sn)), Consecutive(r, m, from, sn)[0], Some(Partial(m, from + 7, (sn + 1) % 16)))
  {
    ReceiveMiddle(p, Partial(m, from, sn), 0x20 + sn, m.payload[from..from + 7]);
    assert m.payload[..from] + m.payload[from..from + 7] == m.payload[..from + 7];
  }

  lemma WholeGives(p: Profile, r: Responder, m: Message)
    requires Sendable(p, m) && |m.payload| <= 7
    ensures Gives(p, None, Segment(r, m)[0], None)
  {
    ReceiveWhole(p, None, |m.payload|, m.payload, m.pad);
    DeliverAccepted(p, None, m.payload, false);
  }

  lemma OpeningGives(p: Profile, r: Responder, m: Message)
    requires 7 < |m.payload| <= 4095
    ensures Gives(p, None, Segment(r, m)[0], Some(Partial(m, 6, 1)))
  {
    ReceiveOpening(p, 0x10 + |m.payload| / 256, |m.payload| % 256, m.payload[..6]);
  }

  /** `good` holds before a frame whenever it holds after it. */
  ghost predicate StepsBack(p: Profile, good: (Option<Assembly>, seq<Sent>) -> bool) {
    forall slot, s, slot', rest | Gives(p, slot, s, slot') && good(slot', rest) :: good(slot, [s] + rest)
  }

  lemma FaithfulStepsBack(p: Profile)
    ensures StepsBack(p, (slot, sents) => Faithful(p, slot, sents))
  {
    forall slot, s, slot', rest | Gives(p, slot, s, slot') && Faithful(p, slot', rest)
      ensures Faithful(p, slot, [s] + rest)
    {
      assert ([s] + rest)[1..] == rest;
    }
  }

  lemma ConsecutiveMore(r: Responder, m: Message, from: nat, sn: nat, rest: seq<Sent>)
    requires from + 7 < |m.payload| && sn < 16
    ensures Consecutive(r, m, from, sn) + rest ==
            [Consecutive(r, m, from, sn)[0]] + (Consecutive(r, m, from + 7, (sn + 1) % 16) + rest)
  {
  }

  lemma {:induction false} ConsecutiveGood(p: Profile, good: (Option<Assembly>, seq<Sent>) -> bool,
                                           r: Responder, m: Message, from: nat, sn: nat, rest: seq<Sent>)
    requires StepsBack(p, good) && good(None, rest)
    requires Sendable(p, m) && from < |m.payload| && sn < 16
    ensures good(Some(Partial(m, from, sn)), Consecutive(r, m, from, sn) + rest)
    decreases |m.payload| - from
  {
    if |m.payload| - from <= 7 {
      LastGives(p, r, m, from, sn);
      assert Consecutive(r, m, from, sn) == [Consecutive(r, m, from, sn)[0]];
    } else {
      ConsecutiveGood(p, good, r, m, from + 7, (sn + 1) % 16, rest);
      MiddleGives(p, r, m, from, sn);
      ConsecutiveMore(r, m, from, sn, rest);
    }
  }

  lemma SegmentGood(p: Profile, good: (Option<Assembly>, seq<Sent>) -> bool, r: Responder, m: Message, rest: seq<Sent>)
    requires StepsBack(p, good) && good(None, rest) && Sendable(p, m)
    ensures good(None, Segment(r, m) + rest)
  {
    if |m.payload| <= 7 {
      WholeGives(p, r, m);
      assert Segment(r, m) == [Segment(r, m)[0]];
    } else {
      OpeningGives(p, r, m);
      ConsecutiveGood(p, good, r, m, 6, 1, rest);
      assert Segment(r, m) + rest == [Segment(r, m)[0]] + (Consecutive(r, m, 6, 1) + rest);
    }
  }

  lemma {:induction false} TransmitGood(p: Profile, good: (Option<Assembly>, seq<Sent>) -> bool,
                                        r: Responder, ms: seq<Message>)
    requires StepsBack(p, good) && good(None, [])
    requires forall i | 0 <= i < |ms| :: Sendable(p, ms[i])
    ensures good(None, Transmit(p, r, ms))
  {
    if ms != [] {
      TransmitGood(p, good, r, ms[1..]);
      assert Sendable(p, ms[0]);
      SegmentGood(p, good, r, ms[0], Transmit(p, r, ms[1..]));
    }
  }

  lemma FaithfulTransmit(p: Profile, r: Responder, ms: seq<Message>)
    requires forall i | 0 <= i < |ms| :: Sendable(p, ms[i])
    ensures Faithful(p, None, Transmit(p, r, ms))
  {
    var good := (slot, sents) => Faithful(p, slot, sents);
    FaithfulStepsBack(p);
    assert good(None, []);
    TransmitGood(p, good, r, ms);
  }

  /** What every responder sends; a responder outside the map is silent. */
  type Traffic = map<Responder, seq<Message>>

  predicate ValidTraffic(p: Profile, traffic: Traffic) {
    forall r | r in traffic :: forall i | 0 <= i < |traffic[r]| :: Sendable(p, traffic[r][i])
  }

  /** `stream` merges the transmissions of all responders, each in its own order. */
  ghost predicate Interleaves(p: Profile, stream: seq<Sent>, traffic: Traffic) {
    ValidTraffic(p, traffic) && forall r :: SentBy(stream, r) == if r in traffic then Transmit(p, r, traffic[r]) else []
  }

  /** Reassembly inverts segmentation: for any messages of any responders and
      any interleaving of their frames, the result is exactly the payloads, in
      completion order, and no issue. */
  lemma ReassemblyInvertsSegmentation(p: Profile, stream: seq<Sent>, traffic: Traffic)
    requires Interleaves(p, stream, traffic)
    ensures Collected(p, FrameEvents(stream)) == Scan([], Completed(stream), [])
    ensures forall r | r in traffic ::
              MatchesOf(Completed(stream), r) == Matches(r, Payloads(traffic[r]))
  {
    forall r ensures Faithful(p, None, SentBy(stream, r)) {
      if r in traffic {
        FaithfulTransmit(p, r, traffic[r]);
      }
    }
    FaithfulIsExact(p, stream);
    forall r | r in traffic ensures MatchesOf(Completed(stream), r) == Matches(r, Payloads(traffic[r])) {
      CompletedBy(stream, r);
      CompletedTransmit(p, r, traffic[r]);
    }
  }

  function Payloads(ms: seq<Message>): seq<seq<byte>> {
    seq(|ms|, i requires 0 <= i < |ms| => ms[i].payload)
  }

  lemma {:induction false} CompletedBy(stream: seq<Sent>, r: Responder)
    ensures MatchesOf(Completed(stream), r) == Completed(SentBy(stream, r))
  {
    if stream != [] {
      CompletedBy(stream[1..], r);
    }
  }

  lemma {:induction false} CompletedAppend(a: seq<Sent>, b: seq<Sent>)
    ensures Completed(a + b) == Completed(a) + Completed(b)
  {
    if a == [] {
      assert a + b == b;
    } else {
      assert (a + b)[1..] == a[1..] + b;
      CompletedAppend(a[1..], b);
    }
  }

  lemma {:induction false} CompletedConsecutive(r: Responder, m: Message, from: nat, sn: nat)
    requires from < |m.payload| && sn < 16
    ensures Completed(Consecutive(r, m, from, sn)) == [Match(r, m.payload)]
    decreases |m.payload| - from
  {
    if |m.payload| - from > 7 {
      CompletedConsecutive(r, m, from + 7, (sn + 1) % 16);
    }
  }

  lemma CompletedSegment(p: Profile, r: Responder, m: Message)
    requires Sendable(p, m)
    ensures Completed(Segment(r, m)) == [Match(r, m.payload)]
  {
    if |m.payload| > 7 {
      CompletedConsecutive(r, m, 6, 1);
      assert Segment(r, m)[1..] == Consecutive(r, m, 6, 1);
    }
  }

  lemma MatchesCons(r: Responder, ms: seq<Message>)
    requires ms != []
    ensures Matches(r, Payloads(ms)) == [Match(r, ms[0].payload)] + Matches(r, Payloads(ms[1..]))
  {
  }

  lemma {:induction false} CompletedTransmit(p: Profile, r: Responder, ms: seq<Message>)
    requires forall i | 0 <= i < |ms| :: Sendable(p, ms[i])
    ensures Completed(Transmit(p, r, ms)) == Matches(r, Payloads(ms))
  {
    if ms != [] {
      assert Sendable(p, ms[0]);
      CompletedSegment(p, r, ms[0]);
      CompletedAppend(Segment(r, ms[0]), Transmit(p, r, ms[1..]));
      CompletedTransmit(p, r, ms[1..]);
      MatchesCons(r, ms);
    }
  }
}
