/**
 * Support pages end to end: from the lines that several responders' answers are
 * printed as, through the Mode 01 reader, to the status of a PID.
 */
module SupportPages {
  import opened Prelude
  import opened Ordering
  import opened IsoTp
  import opened ElmText
  import opened Mode01
  import opened PidSupport

  // ---------------------------------------------------------------------
  // One headered line
  // ---------------------------------------------------------------------

  /** A line with a header reads as the search finds it in the bytes after it. */
  lemma HeaderedLine(pid: byte, dataLen: nat, header: string, bytes: seq<byte>)
    requires |header| == 3 && AllUpperHex(header)
    ensures ReadLine(pid, dataLen, Render(Some(header), bytes)) ==
            ReadBytes(pid, dataLen, Some(header), Words(Some(header), bytes), bytes)
  {
    HeaderedWords(header, bytes);
    HeaderedIsOdd(header, bytes);
    OddIsNotEcho(pid, Flatten(Words(Some(header), bytes)));
    assert AllHex(header);
    HeaderedOutcome(pid, dataLen, Render(Some(header), bytes), header, Words(Some(header), bytes));
    HeaderedDecodes(pid, dataLen, header, bytes);
  }

  lemma HeaderedWords(header: string, bytes: seq<byte>)
    requires |header| == 3 && AllUpperHex(header)
    ensures PlainLine(Render(Some(header), bytes), Words(Some(header), bytes))
  {
    WordsAreWords(Some(header), bytes);
    PartsAreTokens(Words(Some(header), bytes));
  }

  lemma HeaderedIsOdd(header: string, bytes: seq<byte>)
    requires |header| == 3 && AllUpperHex(header)
    ensures HeaderOf(Words(Some(header), bytes)) == Some(header) && |Flatten(Words(Some(header), bytes))| % 2 == 1
  {
    RenderedCompact(Some(header), bytes);
  }

  lemma HeaderedDecodes(pid: byte, dataLen: nat, header: string, bytes: seq<byte>)
    ensures ReadTokens(pid, dataLen, Some(header), Words(Some(header), bytes)) ==
            ReadBytes(pid, dataLen, Some(header), Words(Some(header), bytes), bytes)
  {
    assert Words(Some(header), bytes)[1..] == HexPairs(bytes);
    DecodePairs(bytes);
  }

  lemma HeaderedOutcome(pid: byte, dataLen: nat, line: string, header: string, words: seq<string>)
    requires PlainLine(line, words)
    requires HeaderOf(words) == Some(header) && AllHex(header) && Flatten(words) != Echo(pid)
    ensures ReadLine(pid, dataLen, line) == ReadTokens(pid, dataLen, Some(header), words)
  {
  }

  lemma OddIsNotEcho(pid: byte, s: string)
    requires |s| % 2 == 1
    ensures s != Echo(pid)
  {
    assert |Echo(pid)| == 4;
  }

  function FrameBytes(pid: byte, data: seq<byte>, pad: seq<byte>): seq<byte>
    requires |data| + 2 < 256
  {
    var length: byte := |data| + 2;
    [length, 0x41, pid] + data + pad
  }

  lemma FrameData(pid: byte, data: seq<byte>, pad: seq<byte>)
    requires |data| + 2 < 0x41
    ensures var bytes := FrameBytes(pid, data, pad);
            bytes[1..1 + |data| + 2] == [0x41, pid] + data && !IsNegative(bytes)
  {
  }

  lemma FrameBytesRead(pid: byte, header: string, tokens: seq<string>, data: seq<byte>, bytes: seq<byte>)
    requires !IsNegative(bytes) && Search(bytes, pid, |data| + 2, 0) == Hit(1, true) && Upper(header) == header
    requires |data| + 3 <= |bytes| && bytes[1..1 + |data| + 2] == [0x41, pid] + data
    ensures ReadBytes(pid, |data|, Some(header), tokens, bytes) == Answer(Match(Some(header), [0x41, pid] + data))
  {
  }

  /** A length-prefixed frame behind a header is read as that responder's answer. */
  lemma FrameReads(pid: byte, header: string, data: seq<byte>, pad: seq<byte>)
    requires |header| == 3 && AllUpperHex(header) && OnlyPadding(pad, true)
    requires |data| + 2 < 0x41
    ensures ReadLine(pid, |data|, Render(Some(header), FrameBytes(pid, data, pad))) ==
            Answer(Match(Some(header), [0x41, pid] + data))
  {
    var bytes := FrameBytes(pid, data, pad);
    HeaderedLine(pid, |data|, header, bytes);
    PrefixedFrameDecodes(pid, data, pad);
    UpperKeeps(header);
    FrameData(pid, data, pad);
    FrameBytesRead(pid, header, Words(Some(header), bytes), data, bytes);
  }

  // ---------------------------------------------------------------------
  // A whole page
  // ---------------------------------------------------------------------

  /** One responder's answer: its header, the four bitmap bytes and the padding. */
  datatype PageSender = PageSender(header: string, data: seq<byte>, pad: seq<byte>)

  predicate ValidSender(s: PageSender) {
    |s.header| == 3 && AllUpperHex(s.header) && |s.data| == 4 && OnlyPadding(s.pad, true)
  }

  predicate ValidSenders(senders: seq<PageSender>) {
    forall i | 0 <= i < |senders| :: ValidSender(senders[i])
  }

  function PageLine(page: byte, s: PageSender): string
    requires ValidSender(s)
  {
    Render(Some(s.header), FrameBytes(page, s.data, s.pad))
  }

  function PageLines(page: byte, senders: seq<PageSender>): (lines: seq<string>)
    requires ValidSenders(senders)
    ensures |lines| == |senders| && forall i | 0 <= i < |senders| :: lines[i] == PageLine(page, senders[i])
  {
    seq(|senders|, i requires 0 <= i < |senders| => assert ValidSender(senders[i]); PageLine(page, senders[i]))
  }

  function PageMatch(page: byte, s: PageSender): Match { Match(Some(s.header), [0x41, page] + s.data) }

  function PageMatches(page: byte, senders: seq<PageSender>): (ms: seq<Match>)
    ensures |ms| == |senders| && forall i | 0 <= i < |senders| :: ms[i] == PageMatch(page, senders[i])
  {
    seq(|senders|, i requires 0 <= i < |senders| => PageMatch(page, senders[i]))
  }

  lemma LineReads(page: byte, s: PageSender)
    requires ValidSender(s)
    ensures ReadLine(page, 4, PageLine(page, s)) == Answer(PageMatch(page, s))
    ensures OneLine(PageLine(page, s))
  {
    FrameReads(page, s.header, s.data, s.pad);
    var bytes := FrameBytes(page, s.data, s.pad);
    WordsAreWords(Some(s.header), bytes);
    JoinChars(Words(Some(s.header), bytes));
  }

  lemma PromptIsQuiet(pid: byte, dataLen: nat)
    ensures ReadLine(pid, dataLen, ">") == Quiet
  {
    assert ">"[..0] == "";
    assert CleanLine(">") == "";
  }

  lemma AnswerRead(pid: byte, dataLen: nat, line: string, rest: seq<string>, matches: seq<Match>, m: Match)
    requires ReadLine(pid, dataLen, line) == Answer(m)
    ensures ReadLines(pid, dataLen, [line] + rest, matches) == ReadLines(pid, dataLen, rest, matches + [m])
  {
    assert ([line] + rest)[1..] == rest;
  }

  lemma PromptRead(pid: byte, dataLen: nat, matches: seq<Match>)
    requires matches != []
    ensures ReadLines(pid, dataLen, [">"], matches) == Ok(matches)
  {
    PromptIsQuiet(pid, dataLen);
    assert [">"][1..] == [];
  }

  lemma LinesMore(page: byte, senders: seq<PageSender>)
    requires ValidSenders(senders) && senders != []
    ensures ValidSender(senders[0]) && ValidSenders(senders[1..])
    ensures PageLines(page, senders) + [">"] ==
            [PageLine(page, senders[0])] + (PageLines(page, senders[1..]) + [">"])
  {
  }

  lemma MatchesMore(page: byte, senders: seq<PageSender>, matches: seq<Match>)
    requires senders != []
    ensures matches + PageMatches(page, senders) ==
            (matches + [PageMatch(page, senders[0])]) + PageMatches(page, senders[1..])
  {
  }

  lemma {:induction false} LinesRead(page: byte, senders: seq<PageSender>, matches: seq<Match>)
    requires ValidSenders(senders) && (matches != [] || senders != [])
    ensures ReadLines(page, 4, PageLines(page, senders) + [">"], matches) == Ok(matches + PageMatches(page, senders))
    decreases |senders|
  {
    if senders == [] {
      PromptRead(page, 4, matches);
      assert PageLines(page, senders) + [">"] == [">"];
      assert matches + PageMatches(page, senders) == matches;
    } else {
      LinesMore(page, senders);
      MatchesMore(page, senders, matches);
      LineReads(page, senders[0]);
      var m := PageMatch(page, senders[0]);
      AnswerRead(page, 4, PageLine(page, senders[0]), PageLines(page, senders[1..]) + [">"], matches, m);
      LinesRead(page, senders[1..], matches + [m]);
    }
  }

  /** Printing the answers and reading the text gives the answers. */
  lemma PageReadsBack(page: byte, senders: seq<PageSender>)
    requires ValidSenders(senders) && senders != []
    ensures ReadLines(page, 4, SplitLines(Transcript(PageLines(page, senders))), []) == Ok(PageMatches(page, senders))
  {
    forall i | 0 <= i < |senders| ensures OneLine(PageLines(page, senders)[i]) {
      assert ValidSender(senders[i]);
      LineReads(page, senders[i]);
    }
    SplitTranscript(PageLines(page, senders));
    LinesRead(page, senders, []);
    assert [] + PageMatches(page, senders) == PageMatches(page, senders);
  }

  // ---------------------------------------------------------------------
  // The page reader
  // ---------------------------------------------------------------------

  function BitmapOf(data: seq<byte>): bv32
    requires |data| == 4
  {
    FromBytes(data[0] as bv8, data[1] as bv8, data[2] as bv8, data[3] as bv8)
  }

  function PageResponses(ms: seq<Match>): (rs: seq<PageResponse>)
    requires SixBytes(ms)
    ensures |rs| == |ms|
    ensures forall i | 0 <= i < |ms| :: rs[i] == PageResponse(ms[i].responder, BitmapOf(ms[i].payload[2..]))
  {
    seq(|ms|, i requires 0 <= i < |ms| => PageResponse(ms[i].responder, BitmapOf(ms[i].payload[2..])))
  }

  /** The merged bitmap and the answers behind it, or nothing usable. */
  datatype PageReading = PageRead(bitmap: bv32, responses: seq<PageResponse>) | NoPage

  lemma MergeMore(rs: seq<PageResponse>, r: PageResponse)
    ensures Merge(rs + [r]) == Merge(rs) | r.bitmap
  {
    if rs == [] {
      assert rs + [r] == [r] && [r][1..] == [];
    } else {
      assert (rs + [r])[1..] == rs[1..] + [r];
      MergeMore(rs[1..], r);
      OrAssociates(rs[0].bitmap, Merge(rs[1..]), r.bitmap);
    }
  }

  lemma OrAssociates(a: bv32, b: bv32, c: bv32)
    ensures a | (b | c) == (a | b) | c
  {
  }

  predicate SixBytes(ms: seq<Match>) { forall i | 0 <= i < |ms| :: |ms[i].payload| == 6 }

  /** Or-merges the bitmaps of all answers, in place. */
  method MergeAnswers(ms: seq<Match>) returns (bitmap: bv32, responses: seq<PageResponse>)
    requires SixBytes(ms)
    ensures responses == PageResponses(ms) && bitmap == Merge(responses)
  {
    bitmap, responses := 0, [];
    for i := 0 to |ms|
      invariant responses == PageResponses(ms)[..i] && bitmap == Merge(responses)
    {
      var own := PageResponse(ms[i].responder, BitmapOf(ms[i].payload[2..]));
      MergeMore(responses, own);
      bitmap := bitmap | own.bitmap;
      responses := responses + [own];
    }
    assert PageResponses(ms)[..|ms|] == PageResponses(ms);
  }

  // ---------------------------------------------------------------------
  // The order of the records: responder first, then payload
  // ---------------------------------------------------------------------

  function AnswerKey(): Match -> seq<int> {
    (m: Match) => (if m.responder.None? then [0] else [1] + NameKey(m.responder.value)) + [0] + m.payload
  }

  lemma AnswerKeyInjective(a: Match, b: Match)
    requires AnswerKey()(a) == AnswerKey()(b)
    ensures a == b
  {
    var ka, kb := AnswerKey()(a), AnswerKey()(b);
    assert ka[0] == kb[0];
    if a.responder.None? {
      assert ka[2..] == a.payload && kb[2..] == b.payload;
    } else {
      assert ka[1..] == NameKey(a.responder.value) + [0] + a.payload;
      assert kb[1..] == NameKey(b.responder.value) + [0] + b.payload;
      NameKeyInjective(a.responder.value, b.responder.value, a.payload, b.payload);
    }
  }

  /** Answers without a header first, then by header; then by payload. */
  predicate AnswerLeq(a: Match, b: Match) {
    if a.responder == b.responder then LexLeq(a.payload, b.payload)
    else a.responder.None? || (b.responder.Some? && StringLess(a.responder.value, b.responder.value))
  }

  lemma AnswerOrder(a: Match, b: Match)
    ensures LexLeq(AnswerKey()(a), AnswerKey()(b)) <==> AnswerLeq(a, b)
  {
    var ra := if a.responder.None? then [0] + a.payload else NameKey(a.responder.value) + [0] + a.payload;
    var rb := if b.responder.None? then [0] + b.payload else NameKey(b.responder.value) + [0] + b.payload;
    var ha, hb := if a.responder.None? then 0 else 1, if b.responder.None? then 0 else 1;
    assert AnswerKey()(a) == [ha] + ra && AnswerKey()(b) == [hb] + rb;
    LexCons(ha, ra, hb, rb);
    if a.responder.None? && b.responder.None? {
      LexCons(0, a.payload, 0, b.payload);
    } else if a.responder.Some? && b.responder.Some? {
      NameOrder(a.responder.value, b.responder.value, a.payload, b.payload);
      StringLessIsStrict(a.responder.value);
    }
  }

  function Arranged(ms: seq<Match>): (sorted: seq<Match>)
    ensures multiset(sorted) == multiset(ms)
  {
    SortPermutes(ms, AnswerKey());
    Sort(ms, AnswerKey())
  }

  lemma ArrangedSizes(ms: seq<Match>)
    requires SixBytes(ms)
    ensures SixBytes(Arranged(ms)) && |Arranged(ms)| == |ms|
  {
    var sorted := Arranged(ms);
    assert |multiset(sorted)| == |sorted| && |multiset(ms)| == |ms|;
    forall i | 0 <= i < |sorted| ensures |sorted[i].payload| == 6 {
      assert sorted[i] in multiset(ms);
    }
  }

  lemma OrSwaps(a: bv32, b: bv32, c: bv32)
    ensures a | (b | c) == b | (a | c)
  {
  }

  lemma MergeHead(m: Match, ms: seq<Match>)
    requires SixBytes([m] + ms)
    ensures SixBytes(ms) && |m.payload| == 6
    ensures Merge(PageResponses([m] + ms)) == BitmapOf(m.payload[2..]) | Merge(PageResponses(ms))
  {
    assert m == ([m] + ms)[0];
    assert forall i | 0 <= i < |ms| :: ms[i] == ([m] + ms)[i + 1];
    assert PageResponses([m] + ms)[1..] == PageResponses(ms);
  }

  lemma InsertSizes(m: Match, ms: seq<Match>)
    requires SixBytes(ms) && |m.payload| == 6
    ensures SixBytes(Insert(m, ms, AnswerKey())) && SixBytes([m] + ms)
  {
    InsertPermutes(m, ms, AnswerKey());
    forall x | x in Insert(m, ms, AnswerKey()) ensures |x.payload| == 6 {
      assert x in multiset{m} + multiset(ms);
    }
  }

  lemma {:induction false} MergeInsert(m: Match, ms: seq<Match>)
    requires SixBytes(ms) && |m.payload| == 6
    ensures SixBytes(Insert(m, ms, AnswerKey()))
    ensures Merge(PageResponses(Insert(m, ms, AnswerKey()))) == BitmapOf(m.payload[2..]) | Merge(PageResponses(ms))
  {
    InsertSizes(m, ms);
    MergeHead(m, ms);
    if ms != [] && !LexLeq(AnswerKey()(m), AnswerKey()(ms[0])) {
      var rest := Insert(m, ms[1..], AnswerKey());
      assert ms == [ms[0]] + ms[1..];
      MergeHead(ms[0], ms[1..]);
      MergeInsert(m, ms[1..]);
      MergeHead(ms[0], rest);
      OrSwaps(BitmapOf(m.payload[2..]), BitmapOf(ms[0].payload[2..]), Merge(PageResponses(ms[1..])));
    }
  }

  /** The union does not depend on the order of the records. */
  lemma {:induction false} MergeArranged(ms: seq<Match>)
    requires SixBytes(ms)
    ensures SixBytes(Arranged(ms)) && Merge(PageResponses(Arranged(ms))) == Merge(PageResponses(ms))
  {
    ArrangedSizes(ms);
    if ms != [] {
      assert ms == [ms[0]] + ms[1..];
      MergeHead(ms[0], ms[1..]);
      MergeArranged(ms[1..]);
      MergeInsert(ms[0], Arranged(ms[1..]));
    }
  }

  function Records(ms: seq<Match>): (rs: seq<PageResponse>)
    requires SixBytes(ms)
    ensures |rs| == |ms|
  {
    ArrangedSizes(ms);
    PageResponses(Arranged(ms))
  }

  /** What a reading of the lines amounts to. */
  function PageOfReading(reading: Reading): PageReading {
    if reading.Ok? && SixBytes(reading.matches) then
      PageRead(Merge(PageResponses(reading.matches)), Records(reading.matches))
    else NoPage
  }

  /** The page depends on the answers and not on their order in the reply. */
  lemma PageIsOrderFree(a: seq<Match>, b: seq<Match>)
    requires SixBytes(a) && multiset(a) == multiset(b)
    ensures PageOfReading(Ok(a)) == PageOfReading(Ok(b))
  {
    forall x, y | x in a && y in a && AnswerKey()(x) == AnswerKey()(y) ensures x == y {
      AnswerKeyInjective(x, y);
    }
    SortIsCanonical(a, b, AnswerKey());
    forall i | 0 <= i < |b| ensures |b[i].payload| == 6 {
      assert b[i] in multiset(a);
    }
    MergeArranged(a);
    MergeArranged(b);
  }

  lemma ReadingHasSixBytes(page: byte, lines: seq<string>)
    ensures var r := ReadLines(page, 4, lines, []); r.Ok? ==> SixBytes(r.matches) && r.matches != []
  {
    ReadingIsSized(page, 4, lines, []);
    var r := ReadLines(page, 4, lines, []);
    if r.Ok? {
      forall i | 0 <= i < |r.matches| ensures |r.matches[i].payload| == 6 {
        assert Sized(page, 4, r.matches[i]);
      }
    }
  }

  /** Reads one support page: nothing usable, or at least one answer and the union
      of all answers. For the text that the adapter prints when some responders
      answer it returns exactly their bitmaps, sorted by responder. */
  method ReadSupportPage(response: string, page: byte) returns (r: PageReading)
    ensures r == PageOfReading(ReadLines(page, 4, SplitLines(response), []))
    ensures r.PageRead? ==> r.responses != [] && r.bitmap == Merge(r.responses)
    ensures forall senders | PrintedAs(page, senders, response) :: r == PageRead(Merge(Printed(senders)), Listed(page, senders))
  {
    var reading := NormalizeMode01(response, page, 4);
    ReadingHasSixBytes(page, SplitLines(response));
    r := NoPage;
    if reading.Ok? {
      var bitmap, _ := MergeAnswers(reading.matches);
      MergeArranged(reading.matches);
      r := PageRead(bitmap, Records(reading.matches));
    }
    forall senders | PrintedAs(page, senders, response)
      ensures r == PageRead(Merge(Printed(senders)), Listed(page, senders))
    {
      PrintedReads(page, senders, response);
    }
  }

  /** The response is what the adapter prints for these answers. */
  predicate PrintedAs(page: byte, senders: seq<PageSender>, response: string) {
    ValidSenders(senders) && senders != [] && response == Transcript(PageLines(page, senders))
  }

  lemma PrintedReads(page: byte, senders: seq<PageSender>, response: string)
    requires PrintedAs(page, senders, response)
    ensures PageOfReading(ReadLines(page, 4, SplitLines(response), [])) ==
            PageRead(Merge(Printed(senders)), Listed(page, senders))
    ensures Merge(Listed(page, senders)) == Merge(Printed(senders))
  {
    PageReadsBack(page, senders);
    PrintedResponses(page, senders);
    MergeArranged(PageMatches(page, senders));
  }

  /** The answers as they were sent, in the order of the records. */
  function Listed(page: byte, senders: seq<PageSender>): (rs: seq<PageResponse>)
    requires ValidSenders(senders)
    ensures |rs| == |senders|
  {
    PrintedResponses(page, senders);
    Records(PageMatches(page, senders))
  }

  /** The answers as they were sent. */
  function Printed(senders: seq<PageSender>): (rs: seq<PageResponse>)
    requires ValidSenders(senders)
    ensures |rs| == |senders|
    ensures forall i | 0 <= i < |rs| :: rs[i] == PageResponse(Some(senders[i].header), BitmapOf(senders[i].data))
  {
    seq(|senders|, i requires 0 <= i < |senders| =>
      assert ValidSender(senders[i]); PageResponse(Some(senders[i].header), BitmapOf(senders[i].data)))
  }

  lemma PrintedResponses(page: byte, senders: seq<PageSender>)
    requires ValidSenders(senders)
    ensures SixBytes(PageMatches(page, senders))
    ensures PageResponses(PageMatches(page, senders)) == Printed(senders)
  {
    forall i | 0 <= i < |senders|
      ensures |PageMatches(page, senders)[i].payload| == 6
              && PageMatches(page, senders)[i].payload[2..] == senders[i].data
    {
      assert ValidSender(senders[i]);
    }
  }

  // ---------------------------------------------------------------------
  // From the text to the status of a PID
  // ---------------------------------------------------------------------

  /** A responder printed this bit. */
  predicate PrintsBit(s: PageSender, pid: nat)
    requires ValidSender(s) && pid >= 1
  {
    HasBit(BitmapOf(s.data), CapabilityShift(pid))
  }

  /** The bit of a PID in the printed bytes: the first PID of a page is the highest
      bit of the first byte. */
  lemma PrintedInByte(s: PageSender, pid: nat, place: nat)
    requires ValidSender(s) && pid >= 1 && place == (pid - 1) % 32
    ensures PrintsBit(s, pid) <==>
            if place < 8 then ByteHasBit(s.data[0] as bv8, place)
            else if place < 16 then ByteHasBit(s.data[1] as bv8, place - 8)
            else if place < 24 then ByteHasBit(s.data[2] as bv8, place - 16)
            else ByteHasBit(s.data[3] as bv8, place - 24)
  {
    BitAtPlace(s.data[0] as bv8, s.data[1] as bv8, s.data[2] as bv8, s.data[3] as bv8, place);
  }

  /** End to end: after the page with these answers was added, a PID of the page is
      supported in the merged view exactly when some responder printed its bit. */
  lemma PrintedStatus(s: Support, senders: seq<PageSender>, pid: nat)
    requires Built(s) && |s.pages| < 8 && ValidSenders(senders) && senders != []
    requires 1 <= pid <= 255 && PageOf(pid) == 32 * |s.pages|
    ensures var s' := AddPage(s, 32 * |s.pages|, Listed(32 * |s.pages|, senders));
            Built(s') && Status(s', pid) != Unknown &&
            (Status(s', pid) == Supported <==> exists i | 0 <= i < |senders| :: PrintsBit(senders[i], pid))
  {
    var page := 32 * |s.pages|;
    var rs := Listed(page, senders);
    var s' := AddPage(s, page, rs);
    ShiftsAgree(pid);
    AddPageKeepsBuilt(s, rs);
    MergedUnknown(s', pid);
    PrintedReads(page, senders, Transcript(PageLines(page, senders)));
    PrintedBit(senders, pid);
    assert s'.pages[|s.pages|] == Merge(rs);
  }

  /** The union of the printed bitmaps has a bit exactly when some responder
      printed it. */
  lemma PrintedBit(senders: seq<PageSender>, pid: nat)
    requires ValidSenders(senders) && pid >= 1
    ensures HasBit(Merge(Printed(senders)), CapabilityShift(pid)) <==>
            exists i | 0 <= i < |senders| :: PrintsBit(senders[i], pid)
  {
    var rs := Printed(senders);
    MergeHasBit(rs, CapabilityShift(pid));
    assert forall i | 0 <= i < |senders| :: HasBit(rs[i].bitmap, CapabilityShift(pid)) <==> PrintsBit(senders[i], pid);
  }
}
