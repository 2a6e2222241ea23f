/**
 * The text layer of the normalizers: how one line of ELM327 output becomes a
 * frame, an issue, or nothing. Text is a sequence of one-byte characters.
 */
module ElmText {
  import opened Prelude
  import opened IsoTp

  // ---------------------------------------------------------------------
  // Characters, lines, words
  // ---------------------------------------------------------------------

  predicate Blank(c: char) {
    c == ' ' || c == '\t' || c == '\n' || c == '\r' || c == '\U{C}'
  }

  /** Trimming also removes the vertical tab, which does not separate words. */
  predicate Trimmable(c: char) {
    Blank(c) || c == '\U{B}'
  }

  function UpperChar(c: char): char {
    if 'a' <= c <= 'z' then (c as int - 32) as char else c
  }

  function Upper(s: string): (u: string)
    ensures |u| == |s| && forall i | 0 <= i < |s| :: u[i] == UpperChar(s[i])
  {
    seq(|s|, i requires 0 <= i < |s| => UpperChar(s[i]))
  }

  function SplitLines(s: string): (lines: seq<string>)
    ensures lines != []
  {
    if s == "" then [""]
    else if s[0] == '\r' || s[0] == '\n' then [""] + SplitLines(s[1..])
    else
      var rest := SplitLines(s[1..]);
      [[s[0]] + rest[0]] + rest[1..]
  }

  function TrimStart(s: string): string {
    if s != "" && Trimmable(s[0]) then TrimStart(s[1..]) else s
  }

  function TrimEnd(s: string): string {
    if s != "" && Trimmable(s[|s| - 1]) then TrimEnd(s[..|s| - 1]) else s
  }

  function Trim(s: string): string { TrimEnd(TrimStart(s)) }

  function DropPrompts(s: string): string {
    if s != "" && s[|s| - 1] == '>' then DropPrompts(s[..|s| - 1]) else s
  }

  function CleanLine(raw: string): string { Trim(DropPrompts(Trim(raw))) }

  function WordLength(s: string): (n: nat)
    ensures n <= |s|
    ensures forall i | 0 <= i < n :: !Blank(s[i])
    ensures n < |s| ==> Blank(s[n])
  {
    if s == "" || Blank(s[0]) then 0 else 1 + WordLength(s[1..])
  }

  function Tokens(s: string): seq<string>
    decreases |s|
  {
    if s == "" then []
    else if Blank(s[0]) then Tokens(s[1..])
    else
      var n := WordLength(s);
      [s[..n]] + Tokens(s[n..])
  }

  predicate StartsWith(s: string, prefix: string) {
    prefix <= s
  }

  predicate Contains(s: string, part: string) {
    exists i | 0 <= i <= |s| - |part| :: s[i..][..|part|] == part
  }

  // ---------------------------------------------------------------------
  // Hexadecimal
  // ---------------------------------------------------------------------

  predicate IsHex(c: char) {
    '0' <= c <= '9' || 'A' <= c <= 'F' || 'a' <= c <= 'f'
  }

  function HexValue(c: char): (n: nat)
    requires IsHex(c)
    ensures n < 16
  {
    if '0' <= c <= '9' then c as int - '0' as int
    else if 'A' <= c <= 'F' then c as int - 'A' as int + 10
    else c as int - 'a' as int + 10
  }

  predicate AllHex(s: string) {
    forall i | 0 <= i < |s| :: IsHex(s[i])
  }

  predicate IsHexToken(token: string) {
    |token| % 2 == 0 && AllHex(token)
  }

  function HexBytes(token: string): seq<byte>
    requires IsHexToken(token)
  {
    if token == "" then []
    else
      var b: byte := HexValue(token[0]) * 16 + HexValue(token[1]);
      [b] + HexBytes(token[2..])
  }

  /** The bytes of the tokens before the first that is not hexadecimal pairs,
      and whether there was none. */
  function Decoded(tokens: seq<string>): (seq<byte>, bool) {
    if tokens == [] then ([], true)
    else if !IsHexToken(tokens[0]) then ([], false)
    else
      var rest := Decoded(tokens[1..]);
      (HexBytes(tokens[0]) + rest.0, rest.1)
  }

  // ---------------------------------------------------------------------
  // Classifying a line
  // ---------------------------------------------------------------------

  /** Blank lines, the request echo, and progress messages. */
  predicate Ignorable(line: string, echo: string) {
    var upper := Upper(line);
    line == "" || Flatten(Tokens(upper)) == echo || StartsWith(upper, "SEARCHING")
    || (StartsWith(upper, "BUS INIT") && !Contains(upper, "ERROR"))
  }

  const Statuses := ["?", "NO DATA", "STOPPED", "UNABLE TO CONNECT", "ERROR"]

  predicate IsStatus(upper: string) {
    exists k | 0 <= k < |Statuses| :: Contains(upper, Statuses[k])
  }

  /** A first token of three characters is the header of the responder. */
  function HeaderOf(tokens: seq<string>): Option<string> {
    if tokens != [] && |tokens[0]| == 3 then Some(tokens[0]) else None
  }

  function ResponderOf(header: Option<string>): Responder {
    if header.Some? then Some(Upper(header.value)) else None
  }

  /** The event of one raw line. The profiles differ in whom they blame for a
      status line or a malformed header. */
  function Classify(p: Profile, echo: string, raw: string): Event {
    var line := CleanLine(raw);
    var tokens := Tokens(line);
    var header := HeaderOf(tokens);
    var responder := ResponderOf(header);
    var blamed := if p.Uds? then None else responder;
    if Ignorable(line, echo) then Skip
    else if IsStatus(Upper(line)) then Report(blamed, Rejected)
    else if header.Some? && !AllHex(header.value) then Report(blamed, BadHeader)
    else
      var decoded := Decoded(if header.Some? then tokens[1..] else tokens);
      if decoded.1 then Admit(p, responder, decoded.0) else Garbled(responder, decoded.0)
  }

  function Events(p: Profile, echo: string, lines: seq<string>): seq<Event> {
    seq(|lines|, i requires 0 <= i < |lines| => Classify(p, echo, lines[i]))
  }

  /** The complete normalizer, from adapter text to payloads and issues. */
  function NormalizedText(p: Profile, echo: string, response: string): Responses {
    Normalized(p, Events(p, echo, SplitLines(response)))
  }

  // ---------------------------------------------------------------------
  // Rendering: what the adapter prints for a frame
  // ---------------------------------------------------------------------

  function HexChar(n: nat): (c: char)
    requires n < 16
    ensures IsHex(c) && HexValue(c) == n && !('a' <= c <= 'f')
  {
    if n < 10 then ('0' as int + n) as char else ('A' as int + n - 10) as char
  }

  function HexPair(b: byte): string {
    [HexChar(b / 16), HexChar(b % 16)]
  }

  function HexPairs(bytes: seq<byte>): (words: seq<string>)
    ensures |words| == |bytes|
    ensures forall i | 0 <= i < |bytes| :: words[i] == HexPair(bytes[i])
  {
    seq(|bytes|, i requires 0 <= i < |bytes| => HexPair(bytes[i]))
  }

  function Words(r: Responder, bytes: seq<byte>): seq<string> {
    (if r.Some? then [r.value] else []) + HexPairs(bytes)
  }

  function Join(words: seq<string>): string {
    if words == [] then ""
    else if |words| == 1 then words[0]
    else words[0] + " " + Join(words[1..])
  }

  function Render(r: Responder, bytes: seq<byte>): string {
    Join(Words(r, bytes))
  }

  predicate UpperHex(c: char) {
    '0' <= c <= '9' || 'A' <= c <= 'F'
  }

  predicate AllUpperHex(s: string) {
    forall i | 0 <= i < |s| :: UpperHex(s[i])
  }

  /** An ELM header: three hexadecimal digits, printed in upper case. */
  predicate ValidResponder(r: Responder) {
    r.Some? ==> |r.value| == 3 && AllUpperHex(r.value)
  }

  predicate Word(w: string) {
    w != "" && AllUpperHex(w)
  }

  // ---------------------------------------------------------------------
  // Reading back what was printed
  // ---------------------------------------------------------------------

  lemma {:induction false} WordLengthOf(w: string, rest: string)
    requires AllUpperHex(w) && (rest == "" || Blank(rest[0]))
    ensures WordLength(w + rest) == |w|
  {
    var s := w + rest;
    assert forall i | 0 <= i < |w| :: s[i] == w[i] && UpperHex(s[i]);
    assert rest != "" ==> s[|w|] == rest[0];
  }

  lemma {:induction false} TokensOfJoin(words: seq<string>)
    requires forall i | 0 <= i < |words| :: Word(words[i])
    ensures Tokens(Join(words)) == words
  {
    if words != [] {
      var w := words[0];
      var s := Join(words);
      var rest := if |words| == 1 then "" else " " + Join(words[1..]);
      assert s == w + rest;
      assert Word(w) && s[0] == w[0] && UpperHex(w[0]);
      WordLengthOf(w, rest);
      assert s[..|w|] == w && s[|w|..] == rest;
      TokensOfJoin(words[1..]);
      assert rest != "" ==> rest[1..] == Join(words[1..]);
      assert Tokens(rest) == words[1..];
    }
  }

  predicate Printable(c: char) { UpperHex(c) || c == ' ' }

  lemma {:induction false} JoinChars(words: seq<string>)
    requires forall i | 0 <= i < |words| :: Word(words[i])
    ensures forall i | 0 <= i < |Join(words)| :: Printable(Join(words)[i])
    ensures words != [] ==> var s := Join(words); s != "" && UpperHex(s[0]) && UpperHex(s[|s| - 1])
  {
    if words != [] {
      JoinChars(words[1..]);
      assert Word(words[0]);
    }
  }

  lemma CleanLineKeeps(s: string)
    requires s != "" ==> UpperHex(s[0]) && UpperHex(s[|s| - 1])
    ensures CleanLine(s) == s
  {
  }

  lemma UpperKeeps(s: string)
    requires forall i | 0 <= i < |s| :: Plain(s[i])
    ensures Upper(s) == s
  {
  }

  predicate Plain(c: char) { UpperHex(c) || Blank(c) }

  lemma PrintableIsPlain(s: string)
    requires forall i | 0 <= i < |s| :: Printable(s[i])
    ensures forall i | 0 <= i < |s| :: Plain(s[i])
  {
  }

  /** Printed frames contain none of the status texts: each has a letter that
      is not hexadecimal. */
  lemma NotContained(s: string, part: string, k: nat)
    requires forall i | 0 <= i < |s| :: Plain(s[i])
    requires k < |part| && !Plain(part[k])
    ensures !Contains(s, part) && !StartsWith(s, part)
  {
    forall i | 0 <= i <= |s| - |part| ensures s[i..][..|part|] != part {
      assert s[i..][..|part|][k] == s[i + k];
    }
    if |part| <= |s| {
      assert s[k] != part[k];
    }
  }

  lemma PrintedIsNoStatus(s: string)
    requires forall i | 0 <= i < |s| :: Plain(s[i])
    ensures !IsStatus(s) && !StartsWith(s, "SEARCHING") && !StartsWith(s, "BUS INIT")
  {
    NotContained(s, "?", 0);
    NotContained(s, "NO DATA", 0);
    NotContained(s, "STOPPED", 0);
    NotContained(s, "UNABLE TO CONNECT", 0);
    NotContained(s, "ERROR", 1);
    NotContained(s, "SEARCHING", 0);
    NotContained(s, "BUS INIT", 1);
  }

  lemma HexPairBytes(b: byte)
    ensures Word(HexPair(b)) && |HexPair(b)| == 2 && IsHexToken(HexPair(b)) && HexBytes(HexPair(b)) == [b]
  {
    var t := HexPair(b);
    assert t[2..] == "";
  }

  lemma {:induction false} DecodePairs(bytes: seq<byte>)
    ensures Decoded(HexPairs(bytes)) == (bytes, true)
  {
    if bytes != [] {
      HexPairBytes(bytes[0]);
      assert HexPairs(bytes)[1..] == HexPairs(bytes[1..]);
      DecodePairs(bytes[1..]);
      assert bytes == [bytes[0]] + bytes[1..];
      assert HexPairs(bytes)[0] == HexPair(bytes[0]);
    }
  }

  lemma {:induction false} PairsLength(bytes: seq<byte>)
    ensures |Flatten(HexPairs(bytes))| == 2 * |bytes|
  {
    if bytes != [] {
      assert HexPairs(bytes)[1..] == HexPairs(bytes[1..]);
      PairsLength(bytes[1..]);
    }
  }

  lemma WordsAreWords(r: Responder, bytes: seq<byte>)
    requires ValidResponder(r)
    ensures forall i | 0 <= i < |Words(r, bytes)| :: Word(Words(r, bytes)[i])
  {
    forall b: byte ensures Word(HexPair(b)) {
      HexPairBytes(b);
    }
  }

  lemma RenderedCompact(r: Responder, bytes: seq<byte>)
    requires ValidResponder(r)
    ensures Flatten(Words(r, bytes)) == (if r.Some? then r.value else "") + Flatten(HexPairs(bytes))
    ensures |Flatten(Words(r, bytes))| == 2 * |bytes| + if r.Some? then 3 else 0
  {
    PairsLength(bytes);
    if r.Some? {
      assert Words(r, bytes)[1..] == HexPairs(bytes);
    } else {
      assert Words(r, bytes) == HexPairs(bytes);
    }
  }

  /** A printed frame is read back as that frame, except when the line is taken
      for the request echo or is empty. */
  lemma ClassifyRendered(p: Profile, echo: string, r: Responder, bytes: seq<byte>)
    requires ValidResponder(r)
    ensures Classify(p, echo, Render(r, bytes)) ==
            if Words(r, bytes) == [] || Flatten(Words(r, bytes)) == echo then Skip
            else Admit(p, r, bytes)
  {
    var words := Words(r, bytes);
    RenderedLine(r, bytes);
    DecodePairs(bytes);
    if r.Some? {
      assert words[0] == r.value && words[1..] == HexPairs(bytes);
      UpperKeeps(r.value);
    } else {
      assert words == HexPairs(bytes);
    }
  }

  /** A printed line is clean and upper case, has its words, and no other text. */
  lemma RenderedLine(r: Responder, bytes: seq<byte>)
    requires ValidResponder(r)
    ensures var line := Render(r, bytes);
            CleanLine(line) == line && Upper(line) == line && Tokens(line) == Words(r, bytes)
            && (line == "" <==> Words(r, bytes) == [])
            && !IsStatus(line) && !StartsWith(line, "SEARCHING") && !StartsWith(line, "BUS INIT")
  {
    var words := Words(r, bytes);
    var line := Render(r, bytes);
    WordsAreWords(r, bytes);
    JoinChars(words);
    PrintableIsPlain(line);
    CleanLineKeeps(line);
    UpperKeeps(line);
    TokensOfJoin(words);
    PrintedIsNoStatus(line);
  }

  /** A headered line has an odd number of characters besides blanks, so it is
      never taken for the echo of a request, which has an even number. */
  lemma HeaderedIsNeverEcho(p: Profile, echo: string, r: Responder, bytes: seq<byte>)
    requires ValidResponder(r) && r.Some? && |echo| % 2 == 0
    ensures Classify(p, echo, Render(r, bytes)) == Admit(p, r, bytes)
  {
    ClassifyRendered(p, echo, r, bytes);
    RenderedCompact(r, bytes);
  }

  lemma FlattenThree<T>(parts: seq<seq<T>>)
    requires |parts| == 3
    ensures Flatten(parts) == parts[0] + parts[1] + parts[2]
  {
    assert parts[1..][1..][1..] == [];
    assert Flatten(parts[1..][1..]) == parts[2];
    assert Flatten(parts[1..]) == parts[1] + parts[2];
  }

  lemma WordsLikeEcho(words: seq<string>)
    requires words == HexPairs([0x22, 0xF1, 0x8C])
    ensures Flatten(words) == "22F18C"
  {
    assert words[0] == "22";
    assert words[1] == "F1";
    assert words[2] == "8C";
    FlattenThree(words);
  }

  /** Without a header the same frame can be lost: the second consecutive frame
      of an answer to 22 F1 8C may read like the echo of that request. */
  lemma HeaderlessFrameTakenForEcho(bytes: seq<byte>)
    requires bytes == [0x22, 0xF1, 0x8C]
    ensures Classify(Uds(true), "22F18C", Render(None, bytes)) == Skip
  {
    WordsLikeEcho(HexPairs(bytes));
    assert Words(None, bytes) == HexPairs(bytes);
    ClassifyRendered(Uds(true), "22F18C", None, bytes);
  }

  // ---------------------------------------------------------------------
  // Whole transcripts
  // ---------------------------------------------------------------------

  predicate OneLine(line: string) {
    forall i | 0 <= i < |line| :: line[i] != '\r' && line[i] != '\n'
  }

  /** What the adapter prints: every line ends in a carriage return and the
      prompt follows the last one. */
  function Transcript(lines: seq<string>): string {
    if lines == [] then ">" else lines[0] + "\r" + Transcript(lines[1..])
  }

  lemma {:induction false} SplitFirst(line: string, rest: string)
    requires OneLine(line)
    ensures SplitLines(line + "\r" + rest) == [line] + SplitLines(rest)
  {
    var s := line + "\r" + rest;
    if line == "" {
      assert s[1..] == rest;
    } else {
      assert s[1..] == line[1..] + "\r" + rest;
      SplitFirst(line[1..], rest);
      assert [line[0]] + line[1..] == line;
    }
  }

  lemma {:induction false} SplitTranscript(lines: seq<string>)
    requires forall i | 0 <= i < |lines| :: OneLine(lines[i])
    ensures SplitLines(Transcript(lines)) == lines + [">"]
  {
    if lines == [] {
      var s := ">";
      assert s[1..] == "" && SplitLines("") == [""] && [""][1..] == [];
      assert [s[0]] + "" == s;
    } else {
      SplitFirst(lines[0], Transcript(lines[1..]));
      SplitTranscript(lines[1..]);
    }
  }

  lemma PromptIsSkipped(p: Profile, echo: string)
    ensures Classify(p, echo, ">") == Skip
  {
    assert Trim(">") == ">";
    assert ">"[..0] == "";
    assert DropPrompts(">") == "";
  }
}
