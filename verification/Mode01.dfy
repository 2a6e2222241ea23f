/**
 * Reading Mode 01 answers: the search for `41 PID` in the bytes of one line,
 * and the normalizer that applies it line by line.
 */
module Mode01 {
  import opened Prelude
  import opened IsoTp
  import opened ElmText

  // ---------------------------------------------------------------------
  // The search loop
  // ---------------------------------------------------------------------

  /** What the search makes of the bytes of one line. */
  datatype Found = Nothing | Trailing | Hit(start: nat, prefixed: bool)

  predicate IsPair(bytes: seq<byte>, pid: byte, at: nat) {
    at + 1 < |bytes| && bytes[at] == 0x41 && bytes[at + 1] == pid
  }

  /** First position of `41 PID` at or after `from`. */
  function FindPair(bytes: seq<byte>, pid: byte, from: nat): (r: Option<nat>)
    ensures r.Some? ==> from <= r.value && IsPair(bytes, pid, r.value)
    ensures r.Some? ==> forall i | from <= i < r.value :: !IsPair(bytes, pid, i)
    ensures r.None? ==> forall i: nat | from <= i :: !IsPair(bytes, pid, i)
    decreases |bytes| - from
  {
    if from + 1 >= |bytes| then None
    else if IsPair(bytes, pid, from) then Some(from)
    else FindPair(bytes, pid, from + 1)
  }

  predicate IsPadding(b: byte, prefixed: bool) {
    b == 0x00 || b == 0xAA || (prefixed && b == 0x55)
  }

  predicate OnlyPadding(s: seq<byte>, prefixed: bool) {
    forall i | 0 <= i < |s| :: IsPadding(s[i], prefixed)
  }

  /** The length byte is compared as an eight-bit value. */
  predicate HasLengthPrefix(bytes: seq<byte>, at: nat, expected: nat)
    requires at <= |bytes|
  {
    at > 0 && bytes[at - 1] == expected % 256
  }

  function Search(bytes: seq<byte>, pid: byte, expected: nat, from: nat): Found
    requires expected >= 2
    decreases |bytes| - from
  {
    match FindPair(bytes, pid, from)
    case None => Nothing
    case Some(at) =>
      if at + expected > |bytes| then Nothing
      else if !HasLengthPrefix(bytes, at, expected) && at != 0 then Search(bytes, pid, expected, at + expected)
      else if !OnlyPadding(bytes[at + expected..], HasLengthPrefix(bytes, at, expected)) then Trailing
      else Hit(at, HasLengthPrefix(bytes, at, expected))
  }

  /** A hit is a complete answer: `41 PID` and its data, at the start of the line
      or after its length byte, followed by nothing but padding. */
  lemma {:induction false} HitIsComplete(bytes: seq<byte>, pid: byte, expected: nat, from: nat)
    requires expected >= 2
    ensures var f := Search(bytes, pid, expected, from);
            f.Hit? ==>
              f.start + expected <= |bytes| && IsPair(bytes, pid, f.start)
              && (f.prefixed || f.start == 0) && f.prefixed == HasLengthPrefix(bytes, f.start, expected)
              && OnlyPadding(bytes[f.start + expected..], f.prefixed)
    decreases |bytes| - from
  {
    var at := FindPair(bytes, pid, from);
    if at.Some? && at.value + expected <= |bytes| && !HasLengthPrefix(bytes, at.value, expected) && at.value != 0 {
      HitIsComplete(bytes, pid, expected, at.value + expected);
    }
  }

  lemma NoPairInPadding(bytes: seq<byte>, pid: byte, from: nat, prefixed: bool)
    requires from <= |bytes| && OnlyPadding(bytes[from..], prefixed)
    ensures FindPair(bytes, pid, from) == None
  {
    assert forall i | from <= i < |bytes| :: bytes[i] == bytes[from..][i - from];
  }

  /** What the search makes of the next pair, which is the whole search. */
  lemma SearchPair(bytes: seq<byte>, pid: byte, expected: nat, from: nat)
    requires expected >= 2
    ensures var next := FindPair(bytes, pid, from);
            Search(bytes, pid, expected, from) ==
            if next.None? || next.value + expected > |bytes| then Nothing
            else
              var at := next.value;
              var prefixed := HasLengthPrefix(bytes, at, expected);
              if !prefixed && at != 0 then Search(bytes, pid, expected, at + expected)
              else if OnlyPadding(bytes[at + expected..], prefixed) then Hit(at, prefixed) else Trailing
  {
  }

  /** What the loop has pushed once the search is over. */
  predicate Pushed(f: Found, hits: seq<(nat, bool)>, trailing: bool) {
    match f
    case Nothing => hits == [] && !trailing
    case Trailing => hits == [] && trailing
    case Hit(start, prefixed) => hits == [(start, prefixed)] && !trailing
  }

  /** The loop of the source: it may push several answers and goes on searching
      after each. It terminates and pushes at most one. */
  method ScanBytes(bytes: seq<byte>, pid: byte, dataLen: nat) returns (hits: seq<(nat, bool)>, trailing: bool)
    ensures |hits| <= 1 && Pushed(Search(bytes, pid, dataLen + 2, 0), hits, trailing)
  {
    var expected := dataLen + 2;
    hits, trailing := [], false;
    var searchFrom := 0;
    var relative := FindPair(bytes, pid, searchFrom);
    ghost var found := Search(bytes, pid, expected, 0);
    while relative.Some?
      invariant relative == FindPair(bytes, pid, searchFrom)
      invariant hits == [] ==> Search(bytes, pid, expected, searchFrom) == found
      invariant hits != [] ==> relative.None? && Pushed(found, hits, false)
      decreases |bytes| - searchFrom, if relative.Some? then 1 else 0
    {
      var payloadStart := relative.value;
      var payloadEnd := payloadStart + expected;
      SearchPair(bytes, pid, expected, searchFrom);
      assert hits == [];
      if payloadEnd > |bytes| {
        break;
      }
      var prefixed := HasLengthPrefix(bytes, payloadStart, expected);
      if prefixed || payloadStart == 0 {
        if !OnlyPadding(bytes[payloadEnd..], prefixed) {
          trailing := true;
          return;
        }
        hits := hits + [(payloadStart, prefixed)];
        NoPairInPadding(bytes, pid, payloadEnd, prefixed);
      }
      searchFrom := payloadEnd;
      relative := FindPair(bytes, pid, searchFrom);
    }
  }

  /** A length-prefixed frame decodes to its own data, whatever the data. The one
      exception is a length of 41 hexadecimal when PID 41 is asked for: then length
      and service byte read as an answer themselves. */
  lemma PrefixedFrameDecodes(pid: byte, data: seq<byte>, pad: seq<byte>)
    requires |data| + 2 < 256 && OnlyPadding(pad, true)
    ensures var length: byte := |data| + 2;
            Search([length, 0x41, pid] + data + pad, pid, |data| + 2, 0) == Hit(1, true) <==>
            !(length == 0x41 && pid == 0x41)
  {
    var length: byte := |data| + 2;
    var bytes := [length, 0x41, pid] + data + pad;
    assert IsPair(bytes, pid, 1);
    if length == 0x41 && pid == 0x41 {
      assert IsPair(bytes, pid, 0);
    } else {
      assert !IsPair(bytes, pid, 0);
      assert FindPair(bytes, pid, 0) == Some(1);
      assert bytes[1 + |data| + 2..] == pad;
    }
  }

  /** The same without length byte and with the stricter padding. */
  lemma BareFrameDecodes(pid: byte, data: seq<byte>, pad: seq<byte>)
    requires OnlyPadding(pad, false)
    ensures Search([0x41, pid] + data + pad, pid, |data| + 2, 0) == Hit(0, false)
  {
    var bytes := [0x41, pid] + data + pad;
    assert IsPair(bytes, pid, 0);
    assert bytes[|data| + 2..] == pad;
  }

  // ---------------------------------------------------------------------
  // The normalizer
  // ---------------------------------------------------------------------

  datatype Failure = RejectedRequest | BadLine | Negative | TrailingBytes | NoResponse

  /** A line is skipped, ends the reading with an error, or yields an answer; it
      is out of range when the label of a headerless frame would need more
      tokens than the line has. */
  datatype LineOutcome = Quiet | Fail(failure: Failure) | Answer(m: Match) | OutOfRange

  function Echo(pid: byte): string { "01" + HexPair(pid) }

  predicate Refused(upper: string) {
    upper == "?" || Contains(upper, "NO DATA") || Contains(upper, "STOPPED")
    || Contains(upper, "UNABLE TO CONNECT") || Contains(upper, "ERROR")
  }

  predicate IsNegative(bytes: seq<byte>) {
    bytes != [] && (bytes[0] == 0x7F || (|bytes| > 1 && bytes[1] == 0x7F && bytes[0] < |bytes|))
  }

  function JoinUpper(tokens: seq<string>): string
  {
    if tokens == [] then ""
    else if |tokens| == 1 then Upper(tokens[0])
    else Upper(tokens[0]) + " " + JoinUpper(tokens[1..])
  }

  /** The bytes of a well-formed line. */
  function ReadBytes(pid: byte, dataLen: nat, header: Option<string>, tokens: seq<string>, bytes: seq<byte>): LineOutcome {
    if IsNegative(bytes) then Fail(Negative)
    else
      match Search(bytes, pid, dataLen + 2, 0)
      case Nothing => Quiet
      case Trailing => Fail(TrailingBytes)
      case Hit(start, prefixed) =>
        HitIsComplete(bytes, pid, dataLen + 2, 0);
        var frameStart := if prefixed then start - 1 else start;
        var payload := bytes[start..start + dataLen + 2];
        if header.Some? then Answer(Match(Some(Upper(header.value)), payload))
        else if |tokens| > 1 && frameStart > 0 then
          if frameStart > |tokens| then OutOfRange
          else Answer(Match(Some(JoinUpper(tokens[..frameStart])), payload))
        else Answer(Match(None, payload))
  }

  function ReadTokens(pid: byte, dataLen: nat, header: Option<string>, tokens: seq<string>): LineOutcome
    requires header.Some? ==> tokens != []
  {
    var decoded := Decoded(if header.Some? then tokens[1..] else tokens);
    if !decoded.1 then Fail(BadLine) else ReadBytes(pid, dataLen, header, tokens, decoded.0)
  }

  function ReadLine(pid: byte, dataLen: nat, raw: string): LineOutcome {
    var line := CleanLine(raw);
    var upper := Upper(line);
    var tokens := Tokens(line);
    var header := HeaderOf(tokens);
    var compact := Flatten(Tokens(upper));
    if Ignorable(line, Echo(pid)) then Quiet
    else if Refused(upper) then Fail(RejectedRequest)
    else if header.None? && !IsHexToken(compact) then Fail(BadLine)
    else if header.Some? && !AllHex(header.value) then Fail(BadLine)
    else ReadTokens(pid, dataLen, header, tokens)
  }

  /** `41 PID` and exactly the requested number of data bytes. */
  predicate Sized(pid: byte, dataLen: nat, m: Match) {
    |m.payload| == dataLen + 2 && m.payload[..2] == [0x41, pid]
  }

  lemma PairFirst(bytes: seq<byte>, pid: byte, start: nat, n: nat)
    requires IsPair(bytes, pid, start) && start + n <= |bytes| && n >= 2
    ensures bytes[start..start + n][..2] == [0x41, pid]
  {
  }

  lemma BytesHaveRequestedSize(pid: byte, dataLen: nat, header: Option<string>, tokens: seq<string>, bytes: seq<byte>)
    ensures var o := ReadBytes(pid, dataLen, header, tokens, bytes); o.Answer? ==> Sized(pid, dataLen, o.m)
  {
    HitIsComplete(bytes, pid, dataLen + 2, 0);
    var f := Search(bytes, pid, dataLen + 2, 0);
    if f.Hit? {
      PairFirst(bytes, pid, f.start, dataLen + 2);
    }
  }

  lemma ManyTokensAreInRange(pid: byte, dataLen: nat, header: Option<string>, tokens: seq<string>, bytes: seq<byte>)
    requires header.None? ==> |tokens| >= |bytes|
    ensures ReadBytes(pid, dataLen, header, tokens, bytes) != OutOfRange
  {
    HitIsComplete(bytes, pid, dataLen + 2, 0);
  }

  /** Every answer is `41 PID` and exactly the requested number of data bytes,
      so the fixed-size conversions downstream cannot fail. */
  lemma AnswersHaveRequestedSize(pid: byte, dataLen: nat, raw: string)
    ensures var o := ReadLine(pid, dataLen, raw); o.Answer? ==> Sized(pid, dataLen, o.m)
  {
    var tokens := Tokens(CleanLine(raw));
    var header := HeaderOf(tokens);
    BytesHaveRequestedSize(pid, dataLen, header, tokens, Decoded(if header.Some? then tokens[1..] else tokens).0);
  }

  predicate OneBytePerToken(tokens: seq<string>) {
    forall i | 0 <= i < |tokens| :: |tokens[i]| == 2
  }

  lemma {:induction false} DecodedLength(tokens: seq<string>)
    requires OneBytePerToken(tokens)
    ensures |Decoded(tokens).0| <= |tokens|
  {
    if tokens != [] && IsHexToken(tokens[0]) {
      DecodedLength(tokens[1..]);
      assert tokens[0][2..] == "";
      assert |HexBytes(tokens[0])| == 1;
    }
  }

  /** With one byte per token, or a header, the label is always in range. */
  lemma LabelInRange(pid: byte, dataLen: nat, raw: string)
    requires OneBytePerToken(Tokens(CleanLine(raw))) || HeaderOf(Tokens(CleanLine(raw))).Some?
    ensures ReadLine(pid, dataLen, raw) != OutOfRange
  {
    var tokens := Tokens(CleanLine(raw));
    var header := HeaderOf(tokens);
    if header.None? {
      DecodedLength(tokens);
      ManyTokensAreInRange(pid, dataLen, None, tokens, Decoded(tokens).0);
    } else {
      ManyTokensAreInRange(pid, dataLen, header, tokens, Decoded(tokens[1..]).0);
    }
  }

  /** Bytes printed without blanks between them. */
  function Packed(bytes: seq<byte>): string { Flatten(HexPairs(bytes)) }

  lemma {:induction false} PackedReadsBack(bytes: seq<byte>)
    ensures |Packed(bytes)| == 2 * |bytes| && AllUpperHex(Packed(bytes))
    ensures IsHexToken(Packed(bytes)) && HexBytes(Packed(bytes)) == bytes
  {
    if bytes != [] {
      HexPairBytes(bytes[0]);
      assert HexPairs(bytes)[1..] == HexPairs(bytes[1..]);
      PackedReadsBack(bytes[1..]);
      assert Packed(bytes) == HexPair(bytes[0]) + Packed(bytes[1..]);
      assert Packed(bytes)[2..] == Packed(bytes[1..]);
    }
  }

  /** A line of words, each printing some of the bytes. */
  function PackedParts(parts: seq<seq<byte>>): (words: seq<string>)
    ensures |words| == |parts| && forall i | 0 <= i < |parts| :: words[i] == Packed(parts[i])
  {
    seq(|parts|, i requires 0 <= i < |parts| => Packed(parts[i]))
  }

  lemma {:induction false} FlattenAppend<T>(a: seq<seq<T>>, b: seq<seq<T>>)
    ensures Flatten(a + b) == Flatten(a) + Flatten(b)
  {
    if a == [] {
      assert a + b == b;
    } else {
      assert (a + b)[1..] == a[1..] + b;
      FlattenAppend(a[1..], b);
    }
  }

  lemma PackedAppend(a: seq<byte>, b: seq<byte>)
    ensures Packed(a + b) == Packed(a) + Packed(b)
  {
    assert HexPairs(a + b) == HexPairs(a) + HexPairs(b);
    FlattenAppend(HexPairs(a), HexPairs(b));
  }

  /** The words together print and decode all the bytes. */
  lemma {:induction false} PartsReadBack(parts: seq<seq<byte>>)
    ensures Flatten(PackedParts(parts)) == Packed(Flatten(parts))
    ensures Decoded(PackedParts(parts)) == (Flatten(parts), true)
  {
    if parts != [] {
      var words := PackedParts(parts);
      assert words[1..] == PackedParts(parts[1..]) && words[0] == Packed(parts[0]);
      PartsReadBack(parts[1..]);
      PackedReadsBack(parts[0]);
      PackedAppend(parts[0], Flatten(parts[1..]));
    }
  }

  lemma PrintedIsNotRefused(s: string)
    requires forall i | 0 <= i < |s| :: Plain(s[i])
    ensures !Refused(s)
  {
    NotContained(s, "?", 0);
    NotContained(s, "NO DATA", 0);
    NotContained(s, "STOPPED", 0);
    NotContained(s, "UNABLE TO CONNECT", 0);
    NotContained(s, "ERROR", 1);
    assert s != "" ==> s[0] != "?"[0];
  }

  predicate NoneEmpty(parts: seq<seq<byte>>) {
    forall i | 0 <= i < |parts| :: parts[i] != []
  }

  lemma PrintedIsNoProgress(s: string)
    requires forall i | 0 <= i < |s| :: Plain(s[i])
    ensures !StartsWith(s, "SEARCHING") && !StartsWith(s, "BUS INIT")
  {
    NotContained(s, "SEARCHING", 0);
    NotContained(s, "BUS INIT", 1);
  }

  /** The line is clean, and the words are its tokens. */
  predicate PlainLine(line: string, words: seq<string>) {
    CleanLine(line) == line && Upper(line) == line && Tokens(line) == words && line != ""
    && !Refused(line) && !StartsWith(line, "SEARCHING") && !StartsWith(line, "BUS INIT")
  }

  /** Such a line is taken apart into its words and is no status line. */
  lemma PartsAreTokens(words: seq<string>)
    requires words != [] && forall i | 0 <= i < |words| :: Word(words[i])
    ensures PlainLine(Join(words), words)
  {
    var line := Join(words);
    TokensOfJoin(words);
    JoinChars(words);
    PrintableIsPlain(line);
    CleanLineKeeps(line);
    UpperKeeps(line);
    PrintedIsNoProgress(line);
    PrintedIsNotRefused(line);
  }

  lemma PartsAreWords(parts: seq<seq<byte>>)
    requires NoneEmpty(parts)
    ensures forall i | 0 <= i < |parts| :: Word(PackedParts(parts)[i]) && |PackedParts(parts)[i]| % 2 == 0
  {
    forall i | 0 <= i < |parts| ensures Word(PackedParts(parts)[i]) && |PackedParts(parts)[i]| % 2 == 0 {
      PackedReadsBack(parts[i]);
    }
  }

  /** The outcome of a clean line without header. */
  lemma CleanLineOutcome(pid: byte, dataLen: nat, line: string, words: seq<string>)
    requires PlainLine(line, words)
    requires HeaderOf(words) == None && IsHexToken(Flatten(words))
    ensures ReadLine(pid, dataLen, line) ==
            if Flatten(words) == Echo(pid) then Quiet else ReadTokens(pid, dataLen, None, words)
  {
  }

  lemma PartsHaveNoHeader(parts: seq<seq<byte>>)
    requires parts != [] && NoneEmpty(parts)
    ensures HeaderOf(PackedParts(parts)) == None
  {
    PartsAreWords(parts);
    assert |PackedParts(parts)[0]| % 2 == 0;
  }

  /** Unless it reads like the echo, the line is searched as the bytes it prints. */
  lemma PartsLine(pid: byte, dataLen: nat, parts: seq<seq<byte>>)
    requires parts != [] && NoneEmpty(parts)
    ensures ReadLine(pid, dataLen, Join(PackedParts(parts))) ==
            if Packed(Flatten(parts)) == Echo(pid) then Quiet
            else ReadBytes(pid, dataLen, None, PackedParts(parts), Flatten(parts))
  {
    PartsAreWords(parts);
    PartsAreTokens(PackedParts(parts));
    PartsHaveNoHeader(parts);
    PartsReadBack(parts);
    PackedReadsBack(Flatten(parts));
    CleanLineOutcome(pid, dataLen, Join(PackedParts(parts)), PackedParts(parts));
  }

  /** A hit whose frame, with its length byte, is preceded by more than `n` bytes. */
  predicate FrameStartsAfter(f: Found, n: nat) {
    f.Hit? && (if f.prefixed then f.start > n + 1 else f.start > n)
  }

  lemma RangeOfLabel(pid: byte, dataLen: nat, tokens: seq<string>, bytes: seq<byte>)
    ensures ReadBytes(pid, dataLen, None, tokens, bytes) == OutOfRange <==>
            |tokens| >= 2 && !IsNegative(bytes)
            && FrameStartsAfter(Search(bytes, pid, dataLen + 2, 0), |tokens|)
  {
    HitIsComplete(bytes, pid, dataLen + 2, 0);
  }

  lemma EchoHasNoFrame(pid: byte, dataLen: nat, bytes: seq<byte>, n: nat)
    requires Packed(bytes) == Echo(pid)
    ensures !FrameStartsAfter(Search(bytes, pid, dataLen + 2, 0), n)
  {
    PackedReadsBack(bytes);
    assert |bytes| == 2;
    HitIsComplete(bytes, pid, dataLen + 2, 0);
  }

  /** When the label is out of range, for a line of any words: exactly when there
      are several of them and a recognized frame is preceded by more bytes than the
      line has words. */
  lemma LabelOutOfRange(pid: byte, dataLen: nat, parts: seq<seq<byte>>)
    requires NoneEmpty(parts)
    ensures ReadLine(pid, dataLen, Join(PackedParts(parts))) == OutOfRange <==>
            |parts| >= 2 && !IsNegative(Flatten(parts))
            && FrameStartsAfter(Search(Flatten(parts), pid, dataLen + 2, 0), |parts|)
  {
    if parts != [] {
      PartsLine(pid, dataLen, parts);
      RangeOfLabel(pid, dataLen, PackedParts(parts), Flatten(parts));
      if Packed(Flatten(parts)) == Echo(pid) {
        EchoHasNoFrame(pid, dataLen, Flatten(parts), |parts|);
      }
    } else {
      EmptyLineIsQuiet(pid, dataLen);
    }
  }

  lemma EmptyLineIsQuiet(pid: byte, dataLen: nat)
    ensures ReadLine(pid, dataLen, "") == Quiet
  {
  }

  lemma FlattenTwo<T>(a: seq<T>, b: seq<T>)
    ensures Flatten([a, b]) == a + b
  {
    assert [a, b][1..] == [b] && [b][1..] == [];
    assert Flatten([b]) == b;
  }

  /** For a header and a frame printed as one word each: exactly when the header
      has more than two bytes. */
  lemma PackedHeaderOutOfRange(pid: byte, dataLen: nat, a: seq<byte>, b: seq<byte>)
    requires a != [] && |b| >= 3 && !IsNegative(a + b)
    requires Search(a + b, pid, dataLen + 2, 0) == Hit(|a| + 1, true)
    ensures ReadLine(pid, dataLen, Packed(a) + " " + Packed(b)) == OutOfRange <==> |a| > 2
  {
    JoinTwo(a, b);
    FlattenTwo(a, b);
    LabelOutOfRange(pid, dataLen, [a, b]);
  }

  lemma JoinTwo(a: seq<byte>, b: seq<byte>)
    ensures Join(PackedParts([a, b])) == Packed(a) + " " + Packed(b)
  {
    assert PackedParts([a, b])[1..] == [Packed(b)];
  }

  /** All answers of a reply, or the first failure. */
  datatype Reading = Ok(matches: seq<Match>) | Err(failure: Failure) | Panic

  function ReadLines(pid: byte, dataLen: nat, lines: seq<string>, matches: seq<Match>): Reading {
    if lines == [] then (if matches == [] then Err(NoResponse) else Ok(matches))
    else match ReadLine(pid, dataLen, lines[0])
      case Quiet => ReadLines(pid, dataLen, lines[1..], matches)
      case Fail(failure) => Err(failure)
      case OutOfRange => Panic
      case Answer(m) => ReadLines(pid, dataLen, lines[1..], matches + [m])
  }

  lemma {:induction false} ReadingIsSized(pid: byte, dataLen: nat, lines: seq<string>, matches: seq<Match>)
    requires forall i | 0 <= i < |matches| :: Sized(pid, dataLen, matches[i])
    ensures var r := ReadLines(pid, dataLen, lines, matches);
            r.Ok? ==> r.matches != [] && |r.matches| <= |matches| + |lines|
                      && forall i | 0 <= i < |r.matches| :: Sized(pid, dataLen, r.matches[i])
  {
    if lines != [] {
      AnswersHaveRequestedSize(pid, dataLen, lines[0]);
      var o := ReadLine(pid, dataLen, lines[0]);
      if o.Quiet? {
        ReadingIsSized(pid, dataLen, lines[1..], matches);
      } else if o.Answer? {
        ReadingIsSized(pid, dataLen, lines[1..], matches + [o.m]);
      }
    }
  }

  lemma ReadLinesFrom(pid: byte, dataLen: nat, lines: seq<string>, i: nat, matches: seq<Match>)
    requires i < |lines|
    ensures var o := ReadLine(pid, dataLen, lines[i]);
            ReadLines(pid, dataLen, lines[i..], matches) ==
            if o.Fail? then Err(o.failure)
            else if o.OutOfRange? then Panic
            else ReadLines(pid, dataLen, lines[i + 1..], if o.Answer? then matches + [o.m] else matches)
  {
    assert lines[i..][0] == lines[i] && lines[i..][1..] == lines[i + 1..];
  }

  /** Reads the lines one by one; an error ends the reading. */
  method NormalizeMode01(response: string, pid: byte, dataLen: nat) returns (r: Reading)
    ensures r == ReadLines(pid, dataLen, SplitLines(response), [])
    ensures r.Ok? ==> forall i | 0 <= i < |r.matches| :: Sized(pid, dataLen, r.matches[i])
  {
    var lines := SplitLines(response);
    var matches: seq<Match> := [];
    ghost var expected := ReadLines(pid, dataLen, lines, []);
    assert lines[0..] == lines;
    for i := 0 to |lines|
      invariant expected == ReadLines(pid, dataLen, lines[i..], matches)
      invariant forall k | 0 <= k < |matches| :: Sized(pid, dataLen, matches[k])
    {
      ReadLinesFrom(pid, dataLen, lines, i, matches);
      AnswersHaveRequestedSize(pid, dataLen, lines[i]);
      var outcome := ReadLine(pid, dataLen, lines[i]);
      match outcome {
        case Quiet =>
        case Fail(failure) => return Err(failure);
        case OutOfRange => return Panic;
        case Answer(m) => matches := matches + [m];
      }
    }
    r := if matches == [] then Err(NoResponse) else Ok(matches);
  }

  // ---------------------------------------------------------------------
  // Negative answers and labels
  // ---------------------------------------------------------------------

  /** A line whose bytes are a negative response, bare or behind its length byte,
      fails as such, and no other line does. */
  lemma NegativeMeans(pid: byte, dataLen: nat, header: Option<string>, tokens: seq<string>, bytes: seq<byte>)
    ensures ReadBytes(pid, dataLen, header, tokens, bytes) == Fail(Negative) <==>
            (|bytes| >= 1 && bytes[0] == 0x7F) || (|bytes| >= 2 && bytes[1] == 0x7F && bytes[0] < |bytes|)
  {
    HitIsComplete(bytes, pid, dataLen + 2, 0);
  }

  lemma {:induction false} JoinUpperPairs(bytes: seq<byte>)
    ensures JoinUpper(HexPairs(bytes)) == Join(HexPairs(bytes))
  {
    if bytes != [] {
      HexPairBytes(bytes[0]);
      UpperKeeps(HexPair(bytes[0]));
      assert HexPairs(bytes)[1..] == HexPairs(bytes[1..]) && HexPairs(bytes)[0] == HexPair(bytes[0]);
      JoinUpperPairs(bytes[1..]);
    }
  }

  /** The label of a recognized frame without header. */
  lemma HitIsLabelled(pid: byte, dataLen: nat, tokens: seq<string>, bytes: seq<byte>, start: nat, prefixed: bool)
    requires !IsNegative(bytes) && Search(bytes, pid, dataLen + 2, 0) == Hit(start, prefixed) && |tokens| == |bytes|
    ensures start + dataLen + 2 <= |bytes| && (prefixed ==> start > 0)
    ensures var frameStart := if prefixed then start - 1 else start;
            ReadBytes(pid, dataLen, None, tokens, bytes) ==
            Answer(Match(if frameStart == 0 then None else Some(JoinUpper(tokens[..frameStart])),
                         bytes[start..start + dataLen + 2]))
  {
    HitIsComplete(bytes, pid, dataLen + 2, 0);
  }

  lemma LabelPrints(before: seq<byte>, rest: seq<byte>)
    ensures JoinUpper(HexPairs(before + rest)[..|before|]) == Join(HexPairs(before))
  {
    assert HexPairs(before + rest)[..|before|] == HexPairs(before);
    JoinUpperPairs(before);
  }

  /** Without a header, and printed byte by byte, a recognized frame is labelled with
      the bytes printed before it, if there are any. */
  lemma LabelIsPrefix(pid: byte, dataLen: nat, before: seq<byte>, rest: seq<byte>, start: nat, prefixed: bool)
    requires !IsNegative(before + rest) && start == |before| + (if prefixed then 1 else 0)
    requires Search(before + rest, pid, dataLen + 2, 0) == Hit(start, prefixed)
    ensures start + dataLen + 2 <= |before + rest|
    ensures ReadBytes(pid, dataLen, None, HexPairs(before + rest), before + rest) ==
            Answer(Match(if before == [] then None else Some(Join(HexPairs(before))),
                         (before + rest)[start..start + dataLen + 2]))
  {
    HitIsLabelled(pid, dataLen, HexPairs(before + rest), before + rest, start, prefixed);
    LabelPrints(before, rest);
  }

  /** Bytes behind an answer that are no padding make the line fail. */
  lemma TrailingMeans(pid: byte, dataLen: nat, header: Option<string>, tokens: seq<string>, bytes: seq<byte>)
    ensures ReadBytes(pid, dataLen, header, tokens, bytes) == Fail(TrailingBytes) <==>
            !IsNegative(bytes) && Search(bytes, pid, dataLen + 2, 0) == Trailing
    ensures ReadBytes(pid, dataLen, header, tokens, bytes) == Quiet <==>
            !IsNegative(bytes) && Search(bytes, pid, dataLen + 2, 0) == Nothing
  {
    HitIsComplete(bytes, pid, dataLen + 2, 0);
  }

  /** What may follow an answer: zeros and AA, and 55 only behind a length byte. */
  lemma PaddingMeans(b: byte)
    ensures IsPadding(b, true) <==> b in {0x00, 0x55, 0xAA}
    ensures IsPadding(b, false) <==> b in {0x00, 0xAA}
  {
  }

  // ---------------------------------------------------------------------
  // The echo
  // ---------------------------------------------------------------------

  /** Bytes print like the echo exactly when they are the request itself. */
  lemma EchoIsRequest(pid: byte, bytes: seq<byte>)
    ensures Packed(bytes) == Echo(pid) <==> bytes == [0x01, pid]
  {
    PackedAppend([0x01], [pid]);
    assert [0x01] + [pid] == [0x01, pid];
    PackedOne(0x01);
    PackedOne(pid);
    assert HexPair(0x01) == "01";
    PackedReadsBack(bytes);
    PackedReadsBack([0x01, pid]);
  }

  lemma PackedOne(b: byte)
    ensures Packed([b]) == HexPair(b)
  {
    var words := HexPairs([b]);
    assert words == [HexPair(b)] && words[1..] == [] && Flatten(words[1..]) == "";
    assert HexPair(b) + "" == HexPair(b);
  }

  /** The request printed back, in words of any length, is skipped. */
  lemma EchoIsSkipped(pid: byte, dataLen: nat, parts: seq<seq<byte>>)
    requires parts != [] && NoneEmpty(parts) && Flatten(parts) == [0x01, pid]
    ensures ReadLine(pid, dataLen, Join(PackedParts(parts))) == Quiet
  {
    EchoIsRequest(pid, Flatten(parts));
    PartsLine(pid, dataLen, parts);
  }
}
