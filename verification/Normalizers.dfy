/**
 * The two line-reading loops, `normalize_isotp_responses` and
 * `normalize_mode03_responses`, with their vectors updated in place. Each is
 * proved equal to the per-responder specification of module IsoTp.
 */
module Normalizers {
  import opened Prelude
  import opened IsoTp
  import opened ReassemblyTable
  import opened ElmText

  // ---------------------------------------------------------------------
  // Vector operations on the table
  // ---------------------------------------------------------------------

  /** Index of the first entry of `r`. */
  function Position(t: Table, r: Responder): (i: Option<nat>)
    ensures i.Some? ==> i.value < |t| && t[i.value].responder == r
    ensures i.Some? <==> Lookup(t, r).Some?
    ensures i.Some? ==> Lookup(t, r).value == t[i.value].assembly
  {
    if t == [] then None
    else if t[0].responder == r then Some(0)
    else match Position(t[1..], r)
      case None => None
      case Some(i) => Some(i + 1)
  }

  lemma {:induction false} RemoveAt(t: Table, i: nat)
    requires Unique(t) && i < |t|
    ensures t[..i] + t[i + 1..] == Without(t, t[i].responder)
  {
    if i == 0 {
      LookupIsEntry(t[1..], t[0].responder);
      WithoutSame(t[1..], t[0].responder);
    } else {
      RemoveAt(t[1..], i - 1);
      assert t[1..][..i - 1] == t[1..i] && t[1..][i..] == t[i + 1..];
      assert t[..i] == [t[0]] + t[1..i];
    }
  }

  /** A consecutive frame in sequence, of which `taken` bytes are used. */
  lemma AcceptedFrame(p: Profile, a: Assembly, bytes: seq<byte>, taken: nat, a': Assembly)
    requires |bytes| >= 2 && bytes[0] % 16 == a.next && |a.payload| < a.declared
    requires var remaining := a.declared - |a.payload|;
             (|bytes| - 1 > remaining ==> AllPad(p, bytes[1..][remaining..]))
             && taken == if |bytes| - 1 < remaining then |bytes| - 1 else remaining
    requires a' == Assembly(a.declared, a.payload + bytes[1..][..taken], (a.next + 1) % 16)
    ensures ReceiveConsecutive(p, Some(a), bytes) ==
            if |a'.payload| == a'.declared then Deliver(p, None, a'.payload, true) else Reception(Some(a'), [], [])
  {
    assert taken == |bytes| - 1 ==> bytes[1..][..taken] == bytes[1..];
  }

  lemma {:induction false} UpdateAt(t: Table, i: nat, a: Assembly)
    requires Unique(t) && i < |t|
    ensures t[i := Entry(t[i].responder, a)] == Replace(t, t[i].responder, a)
  {
    if i > 0 {
      UpdateAt(t[1..], i - 1, a);
      assert t[i := Entry(t[i].responder, a)] == [t[0]] + t[1..][i - 1 := Entry(t[i].responder, a)];
    }
  }

  /** The scan after the vectors were updated as reception `o` prescribes. */
  lemma Applied(p: Profile, s: Scan, e: Event, o: Reception, s': Scan)
    requires !e.Skip? && o == ReceiveEvent(p, Lookup(s.table, e.responder), e)
    requires s'.table == Put(s.table, e.responder, o.slot)
    requires s'.matches == s.matches + Matches(e.responder, o.payloads)
    requires s'.issues == s.issues + Issues(e.responder, o.problems)
    requires Unique(s.table)
    ensures s' == Step(p, s, e) && Unique(s'.table)
  {
    PutIsUnique(s.table, e.responder, o.slot);
  }

  lemma SingleKeepsSlot(p: Profile, slot: Option<Assembly>, f: seq<byte>)
    requires f != []
    ensures ReceiveSingle(p, slot, f).slot == slot
  {
  }

  // ---------------------------------------------------------------------
  // Decoding the data tokens of a line
  // ---------------------------------------------------------------------

  lemma {:induction false} DecodedFrom(tokens: seq<string>, i: nat)
    requires i < |tokens|
    ensures Decoded(tokens[i..]) ==
            if IsHexToken(tokens[i])
            then (HexBytes(tokens[i]) + Decoded(tokens[i + 1..]).0, Decoded(tokens[i + 1..]).1)
            else ([], false)
  {
    assert tokens[i..][1..] == tokens[i + 1..];
  }

  lemma HexFrom(token: string, k: nat)
    requires IsHexToken(token) && k % 2 == 0 && k < |token|
    ensures k + 1 < |token| && IsHex(token[k]) && IsHex(token[k + 1])
    ensures IsHexToken(token[k..]) && IsHexToken(token[k + 2..])
  {
    forall i | 0 <= i < |token| - k ensures IsHex(token[k..][i]) {
      assert token[k..][i] == token[k + i];
    }
    var rest := token[k + 2..];
    forall i | 0 <= i < |rest| ensures IsHex(rest[i]) {
      assert rest[i] == token[k + 2 + i];
    }
  }

  lemma HexBytesFrom(token: string, k: nat, rest: string)
    requires IsHexToken(token) && k % 2 == 0 && k < |token| && rest == token[k..] && IsHexToken(rest)
    requires k + 1 < |token| && IsHexToken(token[k + 2..]) && IsHex(token[k]) && IsHex(token[k + 1])
    ensures var b: byte := HexValue(token[k]) * 16 + HexValue(token[k + 1]);
            HexBytes(rest) == [b] + HexBytes(token[k + 2..])
  {
    assert rest[0] == token[k] && rest[1] == token[k + 1];
    assert rest[2..] == token[k + 2..];
  }

  lemma PairMoved<T>(bytes: seq<T>, b: T, rest: seq<T>)
    ensures bytes + ([b] + rest) == (bytes + [b]) + rest
  {
  }

  /** Token by token, pair by pair, stopping at the first bad token. */
  method DecodeTokens(tokens: seq<string>) returns (bytes: seq<byte>, malformed: bool)
    ensures (bytes, !malformed) == Decoded(tokens)
  {
    bytes, malformed := [], false;
    var i := 0;
    assert tokens[0..] == tokens;
    assert [] + Decoded(tokens).0 == Decoded(tokens).0;
    while i < |tokens|
      invariant 0 <= i <= |tokens| && !malformed
      invariant Decoded(tokens) == (bytes + Decoded(tokens[i..]).0, Decoded(tokens[i..]).1)
    {
      DecodedFrom(tokens, i);
      if |tokens[i]| % 2 != 0 || !AllHex(tokens[i]) {
        assert bytes + [] == bytes;
        malformed := true;
        break;
      }
      var token := tokens[i];
      var k := 0;
      ghost var before := bytes;
      ghost var rest := Decoded(tokens[i + 1..]).0;
      assert before + (HexBytes(token) + rest) == (before + HexBytes(token)) + rest;
      assert token[0..] == token;
      while k < |token|
        invariant 0 <= k <= |token| && k % 2 == 0 && IsHexToken(token[k..])
        invariant before + HexBytes(token) == bytes + HexBytes(token[k..])
      {
        HexFrom(token, k);
        HexBytesFrom(token, k, token[k..]);
        PairMoved(bytes, HexValue(token[k]) * 16 + HexValue(token[k + 1]), HexBytes(token[k + 2..]));
        bytes := bytes + [HexValue(token[k]) * 16 + HexValue(token[k + 1])];
        k := k + 2;
      }
      assert bytes + HexBytes(token[k..]) == bytes;
      i := i + 1;
    }
    if !malformed {
      assert bytes + Decoded(tokens[i..]).0 == bytes;
    }
  }

  // ---------------------------------------------------------------------
  // The readers
  // ---------------------------------------------------------------------

  /** The local vectors of one normalizer call. */
  class Reader {
    var assemblies: Table
    var matches: seq<Match>
    var errors: seq<Issue>

    constructor ()
      ensures State() == Fresh
    {
      assemblies, matches, errors := [], [], [];
    }

    function State(): Scan
      reads this
    {
      Scan(assemblies, matches, errors)
    }

    method Report(responder: Responder, problem: Problem)
      modifies this`errors
      ensures errors == old(errors) + [Issue(responder, problem)]
    {
      errors := errors + [Issue(responder, problem)];
    }

    method Forget(responder: Responder)
      requires Unique(assemblies)
      modifies this`assemblies
      ensures assemblies == Without(old(assemblies), responder)
    {
      var index := Position(assemblies, responder);
      if index.Some? {
        RemoveAt(assemblies, index.value);
        assemblies := assemblies[..index.value] + assemblies[index.value + 1..];
      } else {
        LookupIsEntry(assemblies, responder);
        WithoutSame(assemblies, responder);
      }
    }

    // --- UDS-style reads -------------------------------------------------

    method PushUdsPayload(responder: Responder, payload: seq<byte>)
      modifies this`matches
      ensures matches == old(matches) + if payload == [] then [] else [Match(responder, payload)]
    {
      if payload != [] {
        matches := matches + [Match(responder, payload)];
      }
    }

    method UdsSingleFrame(p: Profile, responder: Responder, bytes: seq<byte>)
      requires p.Uds? && Unique(assemblies) && bytes != [] && bytes[0] / 16 == 0
      modifies this
      ensures State() == Step(p, old(State()), Frame(responder, bytes)) && Unique(assemblies)
    {
      var declared := bytes[0] % 16;
      var payload := bytes[1..];
      if declared == 0 {
        Report(responder, BadSingle);
      } else if |payload| < declared {
        PushUdsPayload(responder, payload);
        Report(responder, TruncatedSingle(declared, |payload|));
      } else if !AllPad(p, payload[declared..]) {
        PushUdsPayload(responder, payload[..declared]);
        Report(responder, TrailingSingle);
      } else {
        PushUdsPayload(responder, payload[..declared]);
      }
      PutSame(assemblies, responder);
      Applied(p, old(State()), Frame(responder, bytes),
              Receive(p, Lookup(old(assemblies), responder), bytes), State());
    }

    /** First frames are handled alike by both normalizers. */
    method FirstFrame(p: Profile, responder: Responder, bytes: seq<byte>)
      requires Unique(assemblies) && bytes != [] && bytes[0] / 16 == 1
      modifies this
      ensures State() == Step(p, old(State()), Frame(responder, bytes)) && Unique(assemblies)
    {
      PutSame(assemblies, responder);
      if |bytes| < 3 {
        Report(responder, BadFirst);
      } else {
        var declared := Declared(bytes);
        var payload := bytes[2..];
        if declared < 3 || |payload| >= declared {
          Report(responder, BadFirstLength(declared, |payload|));
        } else if Position(assemblies, responder).Some? {
          Forget(responder);
          Report(responder, DuplicateFirst);
        } else {
          assemblies := assemblies + [Entry(responder, Assembly(declared, payload, 1))];
        }
      }
      Applied(p, old(State()), Frame(responder, bytes),
              Receive(p, Lookup(old(assemblies), responder), bytes), State());
    }

    /** The table update for a consecutive frame; `complete` carries a payload
        that has reached its declared length. */
    method ConsecutiveFrame(p: Profile, responder: Responder, bytes: seq<byte>)
      returns (complete: Option<seq<byte>>)
      requires Unique(assemblies) && bytes != [] && bytes[0] / 16 == 2
      modifies this
      ensures matches == old(matches)
      ensures var o := ReceiveConsecutive(p, Lookup(old(assemblies), responder), bytes);
              assemblies == Put(old(assemblies), responder, o.slot) &&
              (complete.None? ==> o.payloads == [] && errors == old(errors) + Issues(responder, o.problems)) &&
              (complete.Some? ==> o == Deliver(p, None, complete.value, true) && errors == old(errors))
    {
      complete := None;
      var index := Position(assemblies, responder);
      PutSame(assemblies, responder);
      if index.None? {
        Report(responder, OrphanConsecutive);
        return;
      }
      var a := assemblies[index.value].assembly;
      var sequence := bytes[0] % 16;
      if |bytes| < 2 {
        Forget(responder);
        Report(responder, BadConsecutive);
      } else if sequence != a.next {
        Forget(responder);
        Report(responder, SequenceMismatch(a.next, sequence));
      } else if |a.payload| >= a.declared {
        Forget(responder);
        Report(responder, Exceeded);
      } else {
        var data := bytes[1..];
        var remaining := a.declared - |a.payload|;
        if |data| > remaining && !AllPad(p, data[remaining..]) {
          Forget(responder);
          Report(responder, Exceeded);
        } else {
          var taken := if |data| < remaining then |data| else remaining;
          var a' := Assembly(a.declared, a.payload + data[..taken], (sequence + 1) % 16);
          AcceptedFrame(p, a, bytes, taken, a');
          UpdateAt(assemblies, index.value, a');
          if |a'.payload| == a'.declared {
            Forget(responder);
            complete := Some(a'.payload);
          } else {
            assemblies := assemblies[index.value := Entry(responder, a')];
          }
        }
      }
    }

    method UdsFrame(p: Profile, responder: Responder, bytes: seq<byte>)
      requires p.Uds? && Unique(assemblies)
      modifies this
      ensures State() == Step(p, old(State()), Frame(responder, bytes)) && Unique(assemblies)
    {
      if bytes != [] && bytes[0] / 16 == 0 {
        UdsSingleFrame(p, responder, bytes);
      } else if bytes != [] && bytes[0] / 16 == 1 {
        FirstFrame(p, responder, bytes);
      } else if bytes != [] && bytes[0] / 16 == 2 {
        var complete := ConsecutiveFrame(p, responder, bytes);
        if complete.Some? {
          PushUdsPayload(responder, complete.value);
        }
        Applied(p, old(State()), Frame(responder, bytes),
                ReceiveConsecutive(p, Lookup(old(assemblies), responder), bytes), State());
      } else {
        PutSame(assemblies, responder);
        if bytes != [] && bytes[0] / 16 == 3 {
          Report(responder, FlowControl);
        } else {
          PushUdsPayload(responder, bytes);
        }
        Applied(p, old(State()), Frame(responder, bytes),
                Receive(p, Lookup(old(assemblies), responder), bytes), State());
      }
    }

    method ReportLine(p: Profile, responder: Responder, problem: Problem)
      requires Unique(assemblies)
      modifies this
      ensures State() == Step(p, old(State()), Event.Report(responder, problem)) && Unique(assemblies)
    {
      PutSame(assemblies, responder);
      Report(responder, problem);
      Applied(p, old(State()), Event.Report(responder, problem),
              Reception(Lookup(old(assemblies), responder), [], [problem]), State());
    }

    method UdsLine(p: Profile, echo: string, raw: string)
      requires p.Uds? && Unique(assemblies)
      modifies this
      ensures State() == Step(p, old(State()), Classify(p, echo, raw)) && Unique(assemblies)
    {
      var line := CleanLine(raw);
      if Ignorable(line, echo) {
        return;
      }
      if IsStatus(Upper(line)) {
        ReportLine(p, None, Rejected);
        return;
      }
      var tokens := Tokens(line);
      var header := HeaderOf(tokens);
      if header.Some? && !AllHex(header.value) {
        ReportLine(p, None, BadHeader);
        return;
      }
      var responder := ResponderOf(header);
      var bytes, malformed := DecodeTokens(if header.Some? then tokens[1..] else tokens);
      if malformed {
        PutSame(assemblies, responder);
        Report(responder, BadData);
        Applied(p, old(State()), Garbled(responder, bytes),
                Reception(Lookup(old(assemblies), responder), [], [BadData]), State());
      } else if p.ignoreMode01 && IsMode01(bytes) {
        ReportLine(p, None, IgnoredMode01(responder));
      } else {
        UdsFrame(p, responder, bytes);
      }
    }

    // --- Mode 03 scans ---------------------------------------------------

    method PushMode03Payload(responder: Responder, payload: seq<byte>, strict: bool)
      modifies this`matches, this`errors
      ensures var o := Deliver(Mode03, None, payload, strict);
              matches == old(matches) + Matches(responder, o.payloads) &&
              errors == old(errors) + Issues(responder, o.problems)
    {
      var start := if strict then (if payload != [] && payload[0] == 0x43 then Some(0) else None)
                   else IndexOf(payload, 0x43);
      if start.None? {
        if !strict && payload != [] {
          matches := matches + [Match(responder, payload)];
        }
        Report(responder, NotPositive);
        return;
      }
      var q := payload[start.value..];
      if q != [0x43, 0x00] && (|q| < 3 || (|q| - 1) % 2 != 0) {
        Report(responder, BadMode03Payload);
        if strict {
          return;
        }
      }
      matches := matches + [Match(responder, q)];
    }

    method Mode03SingleFrame(responder: Responder, bytes: seq<byte>)
      requires Unique(assemblies) && bytes != [] && bytes[0] / 16 == 0
      modifies this`matches, this`errors
      ensures var o := ReceiveSingle(Mode03, Lookup(assemblies, responder), bytes);
              matches == old(matches) + Matches(responder, o.payloads) &&
              errors == old(errors) + Issues(responder, o.problems)
    {
      var declared := bytes[0] % 16;
      var payload := bytes[1..];
      if declared == 0 {
        Report(responder, BadSingle);
      } else if |payload| < declared {
        var start := IndexOf(payload, 0x43);
        if start.Some? {
          matches := matches + [Match(responder, payload[start.value..])];
        }
        Report(responder, TruncatedSingle(declared, |payload|));
      } else if !AllPad(Mode03, payload[declared..]) {
        Report(responder, TrailingSingle);
      } else {
        PushMode03Payload(responder, payload[..declared], false);
      }
    }

    method Mode03Frame(responder: Responder, bytes: seq<byte>)
      requires Unique(assemblies)
      modifies this
      ensures State() == Step(Mode03, old(State()), Frame(responder, bytes)) && Unique(assemblies)
    {
      if bytes != [] && bytes[0] / 16 == 0 {
        PutSame(assemblies, responder);
        Mode03SingleFrame(responder, bytes);
        SingleKeepsSlot(Mode03, Lookup(assemblies, responder), bytes);
        Applied(Mode03, old(State()), Frame(responder, bytes),
                ReceiveSingle(Mode03, Lookup(assemblies, responder), bytes), State());
      } else if bytes != [] && bytes[0] / 16 == 1 {
        FirstFrame(Mode03, responder, bytes);
      } else if bytes != [] && bytes[0] / 16 == 2 {
        var complete := ConsecutiveFrame(Mode03, responder, bytes);
        if complete.Some? {
          PushMode03Payload(responder, complete.value, true);
        }
        Applied(Mode03, old(State()), Frame(responder, bytes),
                ReceiveConsecutive(Mode03, Lookup(old(assemblies), responder), bytes), State());
      } else {
        PutSame(assemblies, responder);
        if bytes != [] && bytes[0] / 16 == 3 {
          Forget(responder);
          Report(responder, FlowControl);
        } else if Position(assemblies, responder).Some? {
          Forget(responder);
          Report(responder, Interleaved);
        } else {
          PushMode03Payload(responder, bytes, false);
        }
        Applied(Mode03, old(State()), Frame(responder, bytes),
                Receive(Mode03, Lookup(old(assemblies), responder), bytes), State());
      }
    }

    /** A line that stops being hexadecimal: a partial message it belonged to is
        dropped, anything that looks like a Mode 03 answer is kept as evidence. */
    method Mode03Garbled(responder: Responder, bytes: seq<byte>)
      requires Unique(assemblies)
      modifies this
      ensures State() == Step(Mode03, old(State()), Garbled(responder, bytes)) && Unique(assemblies)
    {
      PutSame(assemblies, responder);
      if bytes != [] && (bytes[0] / 16 == 1 || bytes[0] / 16 == 2) {
        Forget(responder);
      } else if bytes != [] && bytes[0] / 16 == 0 {
        var declared := bytes[0] % 16;
        var payload := bytes[1..];
        var start := IndexOf(payload, 0x43);
        if start.Some? {
          var end := if start.value + declared < |payload| then start.value + declared else |payload|;
          matches := matches + [Match(responder, payload[start.value..end])];
        }
      } else {
        var start := IndexOf(bytes, 0x43);
        if start.Some? {
          matches := matches + [Match(responder, bytes[start.value..])];
        }
      }
      ghost var o := ReceiveGarbled(Mode03, Lookup(old(assemblies), responder), bytes);
      assert o.problems == [BadData] && matches == old(matches) + Matches(responder, o.payloads);
      Report(responder, BadData);
      Applied(Mode03, old(State()), Garbled(responder, bytes), o, State());
    }

    method Mode03Line(raw: string)
      requires Unique(assemblies)
      modifies this
      ensures State() == Step(Mode03, old(State()), Classify(Mode03, "03", raw)) && Unique(assemblies)
    {
      var line := CleanLine(raw);
      if Ignorable(line, "03") {
        return;
      }
      var tokens := Tokens(line);
      var header := HeaderOf(tokens);
      var responder := ResponderOf(header);
      if IsStatus(Upper(line)) {
        ReportLine(Mode03, responder, Rejected);
        return;
      }
      if header.Some? && !AllHex(header.value) {
        ReportLine(Mode03, responder, BadHeader);
        return;
      }
      var bytes, malformed := DecodeTokens(if header.Some? then tokens[1..] else tokens);
      if malformed {
        Mode03Garbled(responder, bytes);
      } else {
        Mode03Frame(responder, bytes);
      }
    }

    // --- The end of the input --------------------------------------------

    method ReportTruncated(p: Profile)
      modifies this
      ensures State() == Drain(p, old(State()))
    {
      while assemblies != []
        invariant Drain(p, State()) == Drain(p, old(State()))
        decreases |assemblies|
      {
        var e := assemblies[0];
        ghost var o := Leftover(p, e);
        ghost var before := State();
        if p.Uds? && e.assembly.payload != [] {
          matches := matches + [Match(e.responder, e.assembly.payload)];
        }
        Report(e.responder, Truncated(e.assembly.declared, |e.assembly.payload|));
        assemblies := assemblies[1..];
        assert State() == Scan(before.table[1..], before.matches + Matches(e.responder, o.payloads),
                               before.issues + Issues(e.responder, o.problems));
      }
    }
  }

  lemma SplitAt<T>(s: seq<T>, n: nat)
    requires n < |s|
    ensures s[n..] == [s[n]] + s[n + 1..]
  {
  }

  lemma EventsFrom(p: Profile, echo: string, lines: seq<string>, n: nat)
    requires n < |lines|
    ensures Events(p, echo, lines)[n..] == [Classify(p, echo, lines[n])] + Events(p, echo, lines)[n + 1..]
  {
    SplitAt(Events(p, echo, lines), n);
  }

  lemma RunHead(p: Profile, s: Scan, e: Event, rest: seq<Event>)
    ensures Run(p, s, [e] + rest) == Run(p, Step(p, s, e), rest)
  {
    assert ([e] + rest)[1..] == rest;
  }

  method NormalizeIsotpResponses(response: string, requestEcho: string, ignoreMode01: bool)
    returns (responses: Responses)
    ensures responses == NormalizedText(Uds(ignoreMode01), requestEcho, response)
  {
    var p := Uds(ignoreMode01);
    var reader := new Reader();
    var lines := SplitLines(response);
    ghost var events := Events(p, requestEcho, lines);
    for n := 0 to |lines|
      invariant Unique(reader.assemblies)
      invariant Run(p, reader.State(), events[n..]) == Run(p, Fresh, events)
    {
      EventsFrom(p, requestEcho, lines, n);
      RunHead(p, reader.State(), events[n], events[n + 1..]);
      reader.UdsLine(p, requestEcho, lines[n]);
    }
    reader.ReportTruncated(p);
    if reader.matches == [] && reader.errors == [] {
      reader.Report(None, NotFound);
    }
    responses := Responses(reader.matches, reader.errors);
  }

  method NormalizeMode03Responses(response: string) returns (responses: Responses)
    ensures responses == NormalizedText(Mode03, "03", response)
  {
    var reader := new Reader();
    var lines := SplitLines(response);
    ghost var events := Events(Mode03, "03", lines);
    for n := 0 to |lines|
      invariant Unique(reader.assemblies)
      invariant Run(Mode03, reader.State(), events[n..]) == Run(Mode03, Fresh, events)
    {
      EventsFrom(Mode03, "03", lines, n);
      RunHead(Mode03, reader.State(), events[n], events[n + 1..]);
      reader.Mode03Line(lines[n]);
    }
    reader.ReportTruncated(Mode03);
    if reader.matches == [] && reader.errors == [] {
      reader.Report(None, NotFound);
    }
    responses := Responses(reader.matches, reader.errors);
  }
}
