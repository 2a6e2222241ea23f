/**
 * The ISO-TP receiver behind the ELM response normalizers (ISO 15765-2:2016,
 * section 9.6): what one line of adapter output does to the partial message of
 * one responder, and the table that keeps one partial message per responder.
 */
module IsoTp {
  import opened Prelude

  /** The header printed before a line, or None for a line without one. */
  type Responder = Option<string>

  /** The two normalizers that reassemble: UDS-style reads and Mode 03 scans. */
  datatype Profile = Uds(ignoreMode01: bool) | Mode03

  /** Error kinds; the wording of the messages is not modelled. */
  datatype Problem =
    | Rejected
    | BadHeader
    | BadData
    | IgnoredMode01(observed: Responder)
    | BadSingle
    | TruncatedSingle(declared: nat, received: nat)
    | TrailingSingle
    | BadFirst
    | BadFirstLength(declared: nat, received: nat)
    | DuplicateFirst
    | OrphanConsecutive
    | BadConsecutive
    | SequenceMismatch(expected: nat, got: nat)
    | Exceeded
    | FlowControl
    | Interleaved
    | NotPositive
    | BadMode03Payload
    | Truncated(declared: nat, received: nat)
    | NotFound

  datatype Match = Match(responder: Responder, payload: seq<byte>)
  datatype Issue = Issue(responder: Responder, problem: Problem)

  /** A multi-frame message that is still being received. */
  datatype Assembly = Assembly(declared: nat, payload: seq<byte>, next: nat)

  /** One line after tokenizing: nothing, a line-level issue, undecodable data
      after some good bytes, or the bytes of one frame. */
  datatype Event =
    | Skip
    | Report(responder: Responder, problem: Problem)
    | Garbled(responder: Responder, bytes: seq<byte>)
    | Frame(responder: Responder, bytes: seq<byte>)

  /** A stale functional Mode 01 answer, bare or in a single frame. */
  predicate IsMode01(bytes: seq<byte>) {
    bytes != [] && (bytes[0] == 0x41 || (bytes[0] / 16 == 0 && |bytes| > 1 && bytes[1] == 0x41))
  }

  /** The event of a well-formed line; UDS reads set stale Mode 01 answers aside. */
  function Admit(p: Profile, r: Responder, bytes: seq<byte>): Event {
    if p.Uds? && p.ignoreMode01 && IsMode01(bytes) then Report(None, IgnoredMode01(r))
    else Frame(r, bytes)
  }

  // ---------------------------------------------------------------------
  // One responder: what a frame does to its partial message
  // ---------------------------------------------------------------------

  /** Effect of one line on one responder. */
  datatype Reception = Reception(slot: Option<Assembly>, payloads: seq<seq<byte>>, problems: seq<Problem>)

  predicate IsPad(p: Profile, b: byte) {
    b == 0x00 || b == 0xAA || (p.Uds? && b == 0x55)
  }

  predicate AllPad(p: Profile, s: seq<byte>) {
    forall i | 0 <= i < |s| :: IsPad(p, s[i])
  }

  /** First position of `b` in `s`. */
  function IndexOf(s: seq<byte>, b: byte): (r: Option<nat>)
    ensures r.Some? ==> r.value < |s| && s[r.value] == b
    ensures r.None? <==> b !in s
    ensures r.Some? ==> forall i | 0 <= i < r.value :: s[i] != b
  {
    if s == [] then None
    else if s[0] == b then Some(0)
    else match IndexOf(s[1..], b)
      case None => None
      case Some(i) => Some(i + 1)
  }

  /** A Mode 03 payload is `43 00` or `43` followed by one or more byte pairs. */
  predicate GoodMode03(q: seq<byte>) {
    q == [0x43, 0x00] || (|q| >= 3 && (|q| - 1) % 2 == 0)
  }

  /** Hand a finished payload over; `strict` when it was reassembled. */
  function Deliver(p: Profile, slot: Option<Assembly>, payload: seq<byte>, strict: bool): Reception {
    if p.Uds? then
      Reception(slot, if payload == [] then [] else [payload], [])
    else
      var start := if strict then (if payload != [] && payload[0] == 0x43 then Some(0) else None)
                   else IndexOf(payload, 0x43);
      if start.None? then
        Reception(slot, if !strict && payload != [] then [payload] else [], [NotPositive])
      else
        var q := payload[start.value..];
        if GoodMode03(q) then Reception(slot, [q], [])
        else Reception(slot, if strict then [] else [q], [BadMode03Payload])
  }

  function ReceiveSingle(p: Profile, slot: Option<Assembly>, f: seq<byte>): Reception
    requires f != []
  {
    var declared := f[0] % 16;
    var payload := f[1..];
    if declared == 0 then
      Reception(slot, [], [BadSingle])
    else if |payload| < declared then
      var salvaged := if p.Uds? then (if payload == [] then [] else [payload])
                      else var start := IndexOf(payload, 0x43);
                           if start.None? then [] else [payload[start.value..]];
      Reception(slot, salvaged, [TruncatedSingle(declared, |payload|)])
    else if !AllPad(p, payload[declared..]) then
      Reception(slot, if p.Uds? then [payload[..declared]] else [], [TrailingSingle])
    else
      Deliver(p, slot, payload[..declared], false)
  }

  function Declared(f: seq<byte>): nat
    requires |f| >= 2
  {
    var high: int := f[0] % 16;
    high * 256 + f[1]
  }

  function ReceiveFirst(slot: Option<Assembly>, f: seq<byte>): Reception {
    if |f| < 3 then
      Reception(slot, [], [BadFirst])
    else if Declared(f) < 3 || |f| - 2 >= Declared(f) then
      Reception(slot, [], [BadFirstLength(Declared(f), |f| - 2)])
    else if slot.Some? then
      Reception(None, [], [DuplicateFirst])
    else
      Reception(Some(Assembly(Declared(f), f[2..], 1)), [], [])
  }

  function ReceiveConsecutive(p: Profile, slot: Option<Assembly>, f: seq<byte>): Reception
    requires f != []
  {
    if slot.None? then
      Reception(None, [], [OrphanConsecutive])
    else if |f| < 2 then
      Reception(None, [], [BadConsecutive])
    else
      var a := slot.value;
      var sequence := f[0] % 16;
      var data := f[1..];
      if sequence != a.next then
        Reception(None, [], [SequenceMismatch(a.next, sequence)])
      else if |a.payload| >= a.declared then
        Reception(None, [], [Exceeded])
      else
        var remaining := a.declared - |a.payload|;
        if |data| > remaining && !AllPad(p, data[remaining..]) then
          Reception(None, [], [Exceeded])
        else if |data| < remaining then
          Reception(Some(Assembly(a.declared, a.payload + data, (sequence + 1) % 16)), [], [])
        else
          Deliver(p, None, a.payload + data[..remaining], true)
  }

  /** One frame, told apart by the high nibble of its first byte. */
  function Receive(p: Profile, slot: Option<Assembly>, f: seq<byte>): Reception {
    if f != [] && f[0] / 16 == 0 then ReceiveSingle(p, slot, f)
    else if f != [] && f[0] / 16 == 1 then ReceiveFirst(slot, f)
    else if f != [] && f[0] / 16 == 2 then ReceiveConsecutive(p, slot, f)
    else if f != [] && f[0] / 16 == 3 then
      Reception(if p.Uds? then slot else None, [], [FlowControl])
    else if p.Mode03? && slot.Some? then
      Reception(None, [], [Interleaved])
    else
      Deliver(p, slot, f, false)
  }

  /** A line whose data stops being hexadecimal after `bytes`. */
  function ReceiveGarbled(p: Profile, slot: Option<Assembly>, bytes: seq<byte>): Reception {
    if p.Uds? then
      Reception(slot, [], [BadData])
    else if bytes != [] && (bytes[0] / 16 == 1 || bytes[0] / 16 == 2) then
      Reception(None, [], [BadData])
    else if bytes != [] && bytes[0] / 16 == 0 then
      var payload := bytes[1..];
      var start := IndexOf(payload, 0x43);
      var end := if start.None? then 0
                 else if start.value + bytes[0] % 16 < |payload| then start.value + bytes[0] % 16
                 else |payload|;
      Reception(slot, if start.None? then [] else [payload[start.value..end]], [BadData])
    else
      var start := IndexOf(bytes, 0x43);
      Reception(slot, if start.None? then [] else [bytes[start.value..]], [BadData])
  }

  function ReceiveEvent(p: Profile, slot: Option<Assembly>, e: Event): Reception
    requires !e.Skip?
  {
    match e
    case Report(_, problem) => Reception(slot, [], [problem])
    case Garbled(_, bytes) => ReceiveGarbled(p, slot, bytes)
    case Frame(_, bytes) => Receive(p, slot, bytes)
  }

  // ---------------------------------------------------------------------
  // All responders: the table of partial messages
  // ---------------------------------------------------------------------

  datatype Entry = Entry(responder: Responder, assembly: Assembly)
  type Table = seq<Entry>

  function Lookup(t: Table, r: Responder): Option<Assembly> {
    if t == [] then None
    else if t[0].responder == r then Some(t[0].assembly)
    else Lookup(t[1..], r)
  }

  function Replace(t: Table, r: Responder, a: Assembly): Table {
    if t == [] then []
    else if t[0].responder == r then [Entry(r, a)] + t[1..]
    else [t[0]] + Replace(t[1..], r, a)
  }

  function Without(t: Table, r: Responder): Table {
    Filter(t, (e: Entry) => e.responder != r)
  }

  /** The table after the slot of `r` became `slot`; new entries go to the end. */
  function Put(t: Table, r: Responder, slot: Option<Assembly>): Table {
    if slot.None? then Without(t, r)
    else if Lookup(t, r).Some? then Replace(t, r, slot.value)
    else t + [Entry(r, slot.value)]
  }

  /** Everything a normalizer accumulates while it reads lines. */
  datatype Scan = Scan(table: Table, matches: seq<Match>, issues: seq<Issue>)

  const Fresh := Scan([], [], [])

  function Matches(r: Responder, payloads: seq<seq<byte>>): (ms: seq<Match>)
    ensures |ms| == |payloads|
    ensures forall i | 0 <= i < |ms| :: ms[i] == Match(r, payloads[i])
  {
    seq(|payloads|, i requires 0 <= i < |payloads| => Match(r, payloads[i]))
  }

  function Issues(r: Responder, problems: seq<Problem>): (es: seq<Issue>)
    ensures |es| == |problems|
    ensures forall i | 0 <= i < |es| :: es[i] == Issue(r, problems[i])
  {
    seq(|problems|, i requires 0 <= i < |problems| => Issue(r, problems[i]))
  }

  function Step(p: Profile, s: Scan, e: Event): Scan {
    if e.Skip? then s
    else
      var r := e.responder;
      var o := ReceiveEvent(p, Lookup(s.table, r), e);
      Scan(Put(s.table, r, o.slot), s.matches + Matches(r, o.payloads), s.issues + Issues(r, o.problems))
  }

  function Run(p: Profile, s: Scan, events: seq<Event>): Scan
    decreases |events|
  {
    if events == [] then s else Run(p, Step(p, s, events[0]), events[1..])
  }

  /** What is left in the table when the input ends is reported as truncated;
      UDS reads also hand over the bytes that did arrive. */
  function Leftover(p: Profile, e: Entry): Reception {
    Reception(None,
              if p.Uds? && e.assembly.payload != [] then [e.assembly.payload] else [],
              [Truncated(e.assembly.declared, |e.assembly.payload|)])
  }

  function Drain(p: Profile, s: Scan): Scan
    decreases |s.table|
  {
    if s.table == [] then s
    else
      var e := s.table[0];
      var o := Leftover(p, e);
      Drain(p, Scan(s.table[1..],
                    s.matches + Matches(e.responder, o.payloads),
                    s.issues + Issues(e.responder, o.problems)))
  }

  /** The normalized answer: payloads with their responders, and the issues. */
  datatype Responses = Responses(matches: seq<Match>, issues: seq<Issue>)

  function Finish(s: Scan): Responses {
    Responses(s.matches, if s.matches == [] && s.issues == [] then [Issue(None, NotFound)] else s.issues)
  }

  function Normalized(p: Profile, events: seq<Event>): Responses {
    Finish(Drain(p, Run(p, Fresh, events)))
  }
}
