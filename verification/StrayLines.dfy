/**
 * Everything a responder can put between, before or after the frames of a message,
 * described by the bytes of the line and not by the receiver: what each line adds
 * to the answer, which lines leave the message in flight alone, and which end it.
 */
module StrayLines {
  import opened Prelude
  import opened IsoTp
  import opened ReassemblyTable
  import opened Reassembly
  import opened CompleteMessages
  import opened WholeMessages
  import opened TargetedReads
  import DtcEvidence

  /** A line of a responder, labelled with what it adds to the answer. */
  datatype Told = Told(line: Event, payloads: seq<seq<byte>>, problems: seq<Problem>)

  predicate Complains(t: Told, problem: Problem) { t.payloads == [] && t.problems == [problem] }

  predicate SaysNothing(t: Told) { t.payloads == [] && t.problems == [] }

  // ---------------------------------------------------------------------
  // Bytes
  // ---------------------------------------------------------------------

  predicate Padding(p: Profile, s: seq<byte>) {
    forall b | b in s :: b in (if p.Uds? then {0x00, 0x55, 0xAA} else {0x00, 0xAA})
  }

  /** `q` is the part of `s` from its first 43 on. */
  predicate From43(s: seq<byte>, q: seq<byte>) {
    q != [] && q[0] == 0x43 && |q| <= |s| && s[|s| - |q|..] == q && 0x43 !in s[..|s| - |q|]
  }

  /** `kept` holds what follows the first 43, if there is one. */
  predicate Kept(s: seq<byte>, kept: seq<seq<byte>>) {
    if 0x43 in s then |kept| == 1 && From43(s, kept[0]) else kept == []
  }

  /** `43 00`, or 43 and pairs of bytes. */
  predicate AnswersMode03(q: seq<byte>) {
    q == [0x43, 0x00] || (|q| >= 3 && |q| % 2 == 1)
  }

  /** A first frame that announces more than it carries. */
  predicate Announces(f: seq<byte>) {
    |f| >= 3 && 0x10 <= f[0] < 0x20 && 3 <= Length(f) && |f| - 2 < Length(f)
  }

  function Length(f: seq<byte>): int
    requires |f| >= 2
  {
    (f[0] as int - 0x10) * 256 + f[1] as int
  }

  /** The bytes of a first or consecutive frame. */
  predicate Segmented(s: seq<byte>) { s != [] && 0x10 <= s[0] < 0x30 }

  // ---------------------------------------------------------------------
  // Lines that leave the message in flight alone
  // ---------------------------------------------------------------------

  /** A payload on a line of its own: Mode 03 looks for its service byte. */
  predicate Answered(p: Profile, t: Told, payload: seq<byte>) {
    if p.Uds? then t.payloads == [payload] && t.problems == []
    else if 0x43 !in payload then
      t.payloads == (if payload == [] then [] else [payload]) && t.problems == [NotPositive]
    else
      |t.payloads| == 1 && From43(payload, t.payloads[0])
      && t.problems == if AnswersMode03(t.payloads[0]) then [] else [BadMode03Payload]
  }

  /** A single frame that announces `n` bytes. */
  predicate AnsweredSingle(p: Profile, t: Told, n: nat, data: seq<byte>) {
    if n == 0 then Complains(t, BadSingle)
    else if |data| < n then
      t.problems == [TruncatedSingle(n, |data|)]
      && if p.Uds? then t.payloads == (if data == [] then [] else [data]) else Kept(data, t.payloads)
    else if !Padding(p, data[n..]) then
      t.problems == [TrailingSingle] && t.payloads == if p.Uds? then [data[..n]] else []
    else Answered(p, t, data[..n])
  }

  /** A line that stops being hexadecimal after `bytes`: UDS keeps nothing of it,
      Mode 03 what follows a 43, within the announced length of a single frame. */
  ghost predicate Undecodable(p: Profile, t: Told, bytes: seq<byte>) {
    t.problems == [BadData] &&
    if p.Uds? then t.payloads == []
    else if bytes != [] && bytes[0] < 0x10 then
      if 0x43 in bytes[1..] then
        exists q | From43(bytes[1..], q) :: t.payloads == [if bytes[0] as int < |q| then q[..bytes[0]] else q]
      else t.payloads == []
    else Kept(bytes, t.payloads)
  }

  /** Lines without effect on a message in flight: reports, undecodable lines
      (for Mode 03 unless they start like a segment), single frames, first frames
      that announce nonsense and, for UDS, flow control and unframed lines. */
  ghost predicate Passive(p: Profile, t: Told) {
    match t.line
    case Skip => false
    case Report(_, problem) => Complains(t, problem)
    case Garbled(_, bytes) => (p.Uds? || !Segmented(bytes)) && Undecodable(p, t, bytes)
    case Frame(_, f) =>
      if f == [] then p.Uds? && SaysNothing(t)
      else if f[0] < 0x10 then AnsweredSingle(p, t, f[0], f[1..])
      else if f[0] < 0x20 then
        !Announces(f) && Complains(t, if |f| < 3 then BadFirst else BadFirstLength(Length(f), |f| - 2))
      else if f[0] < 0x30 then false
      else if f[0] < 0x40 then p.Uds? && Complains(t, FlowControl)
      else p.Uds? && Answered(p, t, f)
  }

  /** Other lines while nothing is in flight. */
  predicate Lone(p: Profile, t: Told) {
    match t.line
    case Skip => false
    case Report(_, _) => false
    case Garbled(_, bytes) => p.Mode03? && Segmented(bytes) && Complains(t, BadData)
    case Frame(_, f) =>
      if f == [] then p.Mode03? && Complains(t, NotPositive)
      else if f[0] < 0x20 then false
      else if f[0] < 0x30 then Complains(t, OrphanConsecutive)
      else if f[0] < 0x40 then p.Mode03? && Complains(t, FlowControl)
      else p.Mode03? && Answered(p, t, f)
  }

  // ---------------------------------------------------------------------
  // Lines that move or end a message in flight
  // ---------------------------------------------------------------------

  predicate Starts(t: Told) { t.line.Frame? && Announces(t.line.bytes) && SaysNothing(t) }

  /** The consecutive frame with number `next`. */
  predicate InSequence(t: Told, next: nat) {
    t.line.Frame? && |t.line.bytes| >= 2 && t.line.bytes[0] == 0x20 + next
  }

  /** ... when it carries fewer than the `room` missing bytes. */
  predicate Extends(t: Told, next: nat, room: nat) {
    InSequence(t, next) && |t.line.bytes| - 1 < room && SaysNothing(t)
  }

  /** ... when it carries all of them, and padding: `got` are the bytes before. */
  predicate Completes(p: Profile, t: Told, next: nat, got: seq<byte>, room: nat) {
    InSequence(t, next) && |t.line.bytes| - 1 >= room && Padding(p, t.line.bytes[1 + room..])
    && Reassembled(p, t, got + t.line.bytes[1..1 + room])
  }

  /** Reassembled data must itself be an answer for Mode 03. */
  predicate Reassembled(p: Profile, t: Told, payload: seq<byte>) {
    if p.Uds? || (payload != [] && payload[0] == 0x43 && AnswersMode03(payload)) then
      t.payloads == [payload] && t.problems == []
    else Complains(t, if payload == [] || payload[0] != 0x43 then NotPositive else BadMode03Payload)
  }

  /** Lines that end a message in flight without completing it: another first
      frame, a consecutive frame that is empty, out of sequence or too long and,
      for Mode 03, flow control, unframed and undecodable segment lines. */
  predicate Breaks(p: Profile, t: Told, next: nat, room: nat) {
    match t.line
    case Skip => false
    case Report(_, _) => false
    case Garbled(_, bytes) => p.Mode03? && Segmented(bytes) && Complains(t, BadData)
    case Frame(_, f) =>
      if f == [] then p.Mode03? && Complains(t, Interleaved)
      else if f[0] < 0x10 then false
      else if f[0] < 0x20 then Announces(f) && Complains(t, DuplicateFirst)
      else if f[0] < 0x30 then
        if |f| < 2 then Complains(t, BadConsecutive)
        else if f[0] as int - 0x20 != next then Complains(t, SequenceMismatch(next, f[0] as int - 0x20))
        else |f| - 1 > room && !Padding(p, f[1 + room..]) && Complains(t, Exceeded)
      else if f[0] < 0x40 then p.Mode03? && Complains(t, FlowControl)
      else p.Mode03? && Complains(t, Interleaved)
  }

  // ---------------------------------------------------------------------
  // The receiver agrees, line by line
  // ---------------------------------------------------------------------

  lemma PaddingIsPad(p: Profile, s: seq<byte>)
    ensures Padding(p, s) <==> AllPad(p, s)
  {
    if Padding(p, s) {
      assert forall i | 0 <= i < |s| :: s[i] in s;
    }
  }

  lemma From43IsIndex(s: seq<byte>, q: seq<byte>)
    ensures From43(s, q) <==> IndexOf(s, 0x43).Some? && q == s[IndexOf(s, 0x43).value..]
  {
    var start := IndexOf(s, 0x43);
    if From43(s, q) {
      var k := |s| - |q|;
      assert s[k] == q[0] && q[0] in s;
      assert forall i | 0 <= i < k :: s[..k][i] == s[i] && s[i] in s[..k];
    }
  }

  predicate Hears(o: Reception, t: Told, slot: Option<Assembly>) {
    o == Reception(slot, t.payloads, t.problems)
  }

  lemma AnsweredHeard(p: Profile, slot: Option<Assembly>, t: Told, payload: seq<byte>)
    requires payload != [] || p.Mode03?
    ensures Answered(p, t, payload) <==> Hears(Deliver(p, slot, payload, false), t, slot)
  {
    if p.Mode03? && 0x43 in payload {
      var q := payload[IndexOf(payload, 0x43).value..];
      From43IsIndex(payload, q);
      if |t.payloads| == 1 {
        From43IsIndex(payload, t.payloads[0]);
      }
      assert AnswersMode03(q) <==> GoodMode03(q);
    }
  }

  lemma KeptIsIndex(s: seq<byte>, kept: seq<seq<byte>>)
    ensures Kept(s, kept) <==>
            kept == if IndexOf(s, 0x43).None? then [] else [s[IndexOf(s, 0x43).value..]]
  {
    if 0x43 in s {
      From43IsIndex(s, s[IndexOf(s, 0x43).value..]);
      if |kept| == 1 {
        From43IsIndex(s, kept[0]);
      }
    }
  }

  lemma SingleHeard(p: Profile, slot: Option<Assembly>, t: Told, f: seq<byte>)
    requires f != [] && f[0] < 0x10
    ensures AnsweredSingle(p, t, f[0], f[1..]) <==> Hears(ReceiveSingle(p, slot, f), t, slot)
  {
    var n: nat, data := f[0], f[1..];
    assert f[0] % 16 == n;
    if n != 0 && n <= |data| {
      PaddingIsPad(p, data[n..]);
      AnsweredHeard(p, slot, t, data[..n]);
    } else if n != 0 && p.Mode03? {
      KeptIsIndex(data, t.payloads);
    }
  }

  /** What a single frame that stops being hexadecimal leaves. */
  lemma CutAtLength(bytes: seq<byte>, payloads: seq<seq<byte>>)
    requires bytes != [] && bytes[0] < 0x10 && 0x43 in bytes[1..]
    ensures (exists q | From43(bytes[1..], q) :: payloads == [if bytes[0] as int < |q| then q[..bytes[0]] else q]) <==>
            DtcEvidence.GarbledEvidence(bytes).Some? && payloads == [DtcEvidence.GarbledEvidence(bytes).value]
  {
    Nibble(bytes[0]);
    assert bytes[0] % 16 == bytes[0];
    var q := bytes[1..][IndexOf(bytes[1..], 0x43).value..];
    From43IsIndex(bytes[1..], q);
    forall q' | From43(bytes[1..], q') ensures q' == q {
      From43IsIndex(bytes[1..], q');
    }
  }

  lemma UndecodableEvidence(t: Told, bytes: seq<byte>)
    requires !Segmented(bytes)
    ensures var evidence := DtcEvidence.GarbledEvidence(bytes);
            Undecodable(Mode03, t, bytes) <==>
            t.problems == [BadData] && t.payloads == if evidence.None? then [] else [evidence.value]
  {
    if bytes != [] {
      Nibble(bytes[0]);
    }
    if bytes != [] && bytes[0] < 0x10 {
      if 0x43 in bytes[1..] {
        CutAtLength(bytes, t.payloads);
      }
    } else {
      KeptIsIndex(bytes, t.payloads);
    }
  }

  lemma UndecodableHeard(p: Profile, slot: Option<Assembly>, t: Told, bytes: seq<byte>)
    requires p.Uds? || !Segmented(bytes)
    ensures Undecodable(p, t, bytes) <==> Hears(ReceiveGarbled(p, slot, bytes), t, slot)
  {
    if p.Mode03? {
      UndecodableEvidence(t, bytes);
      DtcEvidence.GarbledReceived(slot, bytes);
      GarbledKeepsSlot(slot, bytes);
    }
  }

  lemma GarbledKeepsSlot(slot: Option<Assembly>, bytes: seq<byte>)
    requires !Segmented(bytes)
    ensures ReceiveGarbled(Mode03, slot, bytes).slot == slot
  {
    if bytes != [] {
      Nibble(bytes[0]);
    }
  }

  lemma Nibble(b: byte)
    ensures b / 16 == 0 <==> b < 0x10
    ensures b / 16 == 1 <==> 0x10 <= b < 0x20
    ensures b / 16 == 2 <==> 0x20 <= b < 0x30
    ensures b / 16 == 3 <==> 0x30 <= b < 0x40
    ensures 0x10 <= b < 0x20 ==> b % 16 == b - 0x10
    ensures 0x20 <= b < 0x30 ==> b % 16 == b - 0x20
  {
  }

  lemma AnnouncesIsFirst(f: seq<byte>)
    ensures Announces(f) <==> IsFirst(f)
    ensures |f| >= 2 && 0x10 <= f[0] < 0x20 ==> Length(f) == Declared(f)
  {
    if f != [] {
      Nibble(f[0]);
    }
  }

  /** A line without effect adds what its label says, and a line with such an
      effect is labelled that way, whatever is in flight. */
  lemma PassiveHeard(p: Profile, slot: Option<Assembly>, t: Told)
    requires Passive(p, t)
    ensures Hears(ReceiveEvent(p, slot, t.line), t, slot)
  {
    match t.line
    case Report(_, _) =>
    case Garbled(_, bytes) => UndecodableHeard(p, slot, t, bytes);
    case Frame(_, f) =>
      if f != [] {
        Nibble(f[0]);
        AnnouncesIsFirst(f);
        if f[0] < 0x10 {
          SingleHeard(p, slot, t, f);
        } else if f[0] >= 0x40 {
          AnsweredHeard(p, slot, t, f);
        }
      }
  }

  lemma LoneHeard(p: Profile, t: Told)
    requires Lone(p, t)
    ensures Hears(ReceiveEvent(p, None, t.line), t, None)
  {
    match t.line
    case Garbled(_, bytes) => Nibble(bytes[0]);
    case Frame(_, f) =>
      if f != [] {
        Nibble(f[0]);
        if f[0] >= 0x40 {
          AnsweredHeard(p, None, t, f);
        }
      }
  }

  lemma BreaksHeard(p: Profile, a: Assembly, t: Told)
    requires |a.payload| < a.declared && Breaks(p, t, a.next, a.declared - |a.payload|)
    ensures Hears(ReceiveEvent(p, Some(a), t.line), t, None)
  {
    match t.line
    case Garbled(_, bytes) => Nibble(bytes[0]);
    case Frame(_, f) =>
      if f != [] {
        Nibble(f[0]);
        AnnouncesIsFirst(f);
        var room := a.declared - |a.payload|;
        if 0x20 <= f[0] < 0x30 && |f| - 1 > room {
          PaddingIsPad(p, f[1 + room..]);
          assert f[1..][room..] == f[1 + room..];
        }
      }
  }

  lemma StartsHeard(p: Profile, t: Told)
    requires Starts(t)
    ensures ReceiveEvent(p, None, t.line) ==
            Reception(Some(Assembly(Length(t.line.bytes), t.line.bytes[2..], 1)), [], [])
  {
    Nibble(t.line.bytes[0]);
    AnnouncesIsFirst(t.line.bytes);
  }

  lemma ExtendsHeard(p: Profile, a: Assembly, t: Told)
    requires |a.payload| < a.declared && a.next < 16 && Extends(t, a.next, a.declared - |a.payload|)
    ensures ReceiveEvent(p, Some(a), t.line) ==
            Reception(Some(Assembly(a.declared, a.payload + t.line.bytes[1..], (a.next + 1) % 16)), [], [])
  {
    Nibble(t.line.bytes[0]);
  }

  lemma ReassembledHeard(p: Profile, t: Told, payload: seq<byte>)
    requires payload != []
    ensures Reassembled(p, t, payload) <==> Hears(Deliver(p, None, payload, true), t, None)
  {
    assert payload[0..] == payload;
  }

  lemma CompletesHeard(p: Profile, a: Assembly, t: Told)
    requires |a.payload| < a.declared && a.next < 16
    requires Completes(p, t, a.next, a.payload, a.declared - |a.payload|)
    ensures Hears(ReceiveEvent(p, Some(a), t.line), t, None)
  {
    var f, room := t.line.bytes, a.declared - |a.payload|;
    Nibble(f[0]);
    LastFrame(p, a, f);
    ReassembledHeard(p, t, a.payload + f[1..1 + room]);
  }

  lemma LastFrame(p: Profile, a: Assembly, f: seq<byte>)
    requires |a.payload| < a.declared && |f| - 1 >= a.declared - |a.payload|
    requires f[0] / 16 == 2 && f[0] % 16 == a.next && Padding(p, f[1 + (a.declared - |a.payload|)..])
    ensures Receive(p, Some(a), f) == Deliver(p, None, a.payload + f[1..1 + (a.declared - |a.payload|)], true)
  {
    var room := a.declared - |a.payload|;
    assert f[1..][room..] == f[1 + room..] && f[1..][..room] == f[1..1 + room];
    PaddingIsPad(p, f[1 + room..]);
  }

  // ---------------------------------------------------------------------
  // Every line is one of these
  // ---------------------------------------------------------------------

  function Heard(p: Profile, slot: Option<Assembly>, e: Event): Told
    requires !e.Skip?
  {
    var o := ReceiveEvent(p, slot, e);
    Told(e, o.payloads, o.problems)
  }

  /** Lines that may move or end a message in flight. */
  predicate Moving(p: Profile, e: Event) {
    match e
    case Skip => false
    case Report(_, _) => false
    case Garbled(_, bytes) => p.Mode03? && Segmented(bytes)
    case Frame(_, f) =>
      if f == [] then p.Mode03?
      else Announces(f) || 0x20 <= f[0] < 0x30 || (p.Mode03? && f[0] >= 0x30)
  }

  lemma OthersArePassive(p: Profile, slot: Option<Assembly>, e: Event)
    requires !e.Skip? && !Moving(p, e)
    ensures Passive(p, Heard(p, slot, e)) && ReceiveEvent(p, slot, e).slot == slot
  {
    var t := Heard(p, slot, e);
    match e
    case Report(_, _) =>
    case Garbled(_, bytes) =>
      UndecodableHeard(p, slot, t, bytes);
      if p.Mode03? {
        GarbledKeepsSlot(slot, bytes);
      }
    case Frame(_, f) =>
      if f != [] {
        Nibble(f[0]);
        AnnouncesIsFirst(f);
        if f[0] < 0x10 {
          SingleKeepsSlot(p, slot, f);
          SingleHeard(p, slot, t, f);
        } else if f[0] >= 0x40 {
          AnsweredHeard(p, slot, t, f);
        }
      }
  }

  lemma SingleKeepsSlot(p: Profile, slot: Option<Assembly>, f: seq<byte>)
    requires f != []
    ensures ReceiveSingle(p, slot, f).slot == slot
  {
  }

  lemma MovingAlone(p: Profile, e: Event)
    requires Moving(p, e)
    ensures var t := Heard(p, None, e); if e.Frame? && Announces(e.bytes) then Starts(t) else Lone(p, t)
  {
    var t := Heard(p, None, e);
    match e
    case Garbled(_, bytes) => Nibble(bytes[0]);
    case Frame(_, f) =>
      if f != [] {
        Nibble(f[0]);
        AnnouncesIsFirst(f);
        if f[0] >= 0x40 {
          AnsweredHeard(p, None, t, f);
        }
      }
  }

  lemma MovingInFlight(p: Profile, a: Assembly, e: Event)
    requires Moving(p, e) && |a.payload| < a.declared && a.next < 16
    ensures var t, room := Heard(p, Some(a), e), a.declared - |a.payload|;
            Extends(t, a.next, room) || Completes(p, t, a.next, a.payload, room) || Breaks(p, t, a.next, room)
  {
    var t, room := Heard(p, Some(a), e), a.declared - |a.payload|;
    match e
    case Garbled(_, bytes) => Nibble(bytes[0]);
    case Frame(_, f) =>
      if f != [] {
        Nibble(f[0]);
        AnnouncesIsFirst(f);
        if InSequence(t, a.next) && |f| - 1 >= room {
          PaddingIsPad(p, f[1 + room..]);
          assert f[1..][room..] == f[1 + room..];
          if Padding(p, f[1 + room..]) {
            LastFrame(p, a, f);
            ReassembledHeard(p, t, a.payload + f[1..1 + room]);
          }
        }
      }
  }
}
