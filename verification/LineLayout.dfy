/**
 * What a line is read as does not depend on how it is laid out: upper or lower
 * case, blanks around and between its words, prompts behind it. And what words with
 * a broken header or broken data are read as.
 */
module LineLayout {
  import opened Prelude
  import opened IsoTp
  import opened ElmText
  import opened Mode01
  import opened ReplyLines

  // ---------------------------------------------------------------------
  // Upper and lower case
  // ---------------------------------------------------------------------

  lemma UpperChars(c: char)
    ensures UpperChar(UpperChar(c)) == UpperChar(c)
    ensures Blank(UpperChar(c)) <==> Blank(c)
    ensures Trimmable(UpperChar(c)) <==> Trimmable(c)
    ensures UpperChar(c) == '>' <==> c == '>'
    ensures IsHex(UpperChar(c)) <==> IsHex(c)
    ensures IsHex(c) ==> HexValue(UpperChar(c)) == HexValue(c)
  {
  }

  lemma UpperTwice(s: string)
    ensures Upper(Upper(s)) == Upper(s)
  {
  }

  lemma {:induction false} TrimStartUpper(s: string)
    ensures TrimStart(Upper(s)) == Upper(TrimStart(s))
  {
    if s != "" {
      UpperChars(s[0]);
      assert Upper(s)[1..] == Upper(s[1..]);
      TrimStartUpper(s[1..]);
    }
  }

  lemma {:induction false} TrimEndUpper(s: string)
    ensures TrimEnd(Upper(s)) == Upper(TrimEnd(s))
    decreases |s|
  {
    if s != "" {
      UpperChars(s[|s| - 1]);
      assert Upper(s)[..|s| - 1] == Upper(s[..|s| - 1]);
      TrimEndUpper(s[..|s| - 1]);
    }
  }

  lemma {:induction false} DropPromptsUpper(s: string)
    ensures DropPrompts(Upper(s)) == Upper(DropPrompts(s))
    decreases |s|
  {
    if s != "" {
      UpperChars(s[|s| - 1]);
      assert Upper(s)[..|s| - 1] == Upper(s[..|s| - 1]);
      DropPromptsUpper(s[..|s| - 1]);
    }
  }

  lemma CleanUpper(raw: string)
    ensures CleanLine(Upper(raw)) == Upper(CleanLine(raw))
  {
    TrimStartUpper(raw);
    TrimEndUpper(TrimStart(raw));
    DropPromptsUpper(Trim(raw));
    TrimStartUpper(DropPrompts(Trim(raw)));
    TrimEndUpper(TrimStart(DropPrompts(Trim(raw))));
  }

  lemma {:induction false} WordLengthUpper(s: string)
    ensures WordLength(Upper(s)) == WordLength(s)
  {
    if s != "" {
      UpperChars(s[0]);
      assert Upper(s)[1..] == Upper(s[1..]);
      WordLengthUpper(s[1..]);
    }
  }

  function UpperAll(words: seq<string>): seq<string> { Mapped(Upper, words) }

  lemma {:induction false} TokensUpper(s: string)
    ensures Tokens(Upper(s)) == UpperAll(Tokens(s))
    decreases |s|
  {
    if s != "" {
      UpperChars(s[0]);
      if Blank(s[0]) {
        assert Upper(s)[1..] == Upper(s[1..]);
        TokensUpper(s[1..]);
      } else {
        var n := WordLength(s);
        WordLengthUpper(s);
        assert Upper(s)[..n] == Upper(s[..n]) && Upper(s)[n..] == Upper(s[n..]);
        TokensUpper(s[n..]);
        MappedCons(Upper, s[..n], Tokens(s[n..]));
      }
    }
  }

  lemma {:induction false} HexUpper(t: string)
    ensures AllHex(Upper(t)) <==> AllHex(t)
    ensures IsHexToken(t) ==> HexBytes(Upper(t)) == HexBytes(t)
  {
    forall i | 0 <= i < |t| ensures IsHex(Upper(t)[i]) <==> IsHex(t[i]) {
      UpperChars(t[i]);
    }
    if IsHexToken(t) && t != "" {
      UpperChars(t[0]);
      UpperChars(t[1]);
      assert Upper(t)[2..] == Upper(t[2..]);
      HexUpper(t[2..]);
    }
  }

  lemma {:induction false} DecodedUpper(words: seq<string>)
    ensures Decoded(UpperAll(words)) == Decoded(words)
  {
    if words != [] {
      HexUpper(words[0]);
      assert UpperAll(words)[1..] == UpperAll(words[1..]);
      DecodedUpper(words[1..]);
    }
  }

  /** Both reassembling readers read a line in lower case like the line in upper case. */
  lemma CaseDoesNotMatter(p: Profile, echo: string, raw: string)
    ensures Classify(p, echo, Upper(raw)) == Classify(p, echo, raw)
  {
    var line := CleanLine(raw);
    var words := Tokens(line);
    CleanUpper(raw);
    UpperTwice(line);
    TokensUpper(line);
    SameWords(words);
    SameHeader(words);
    if words != [] {
      assert UpperAll(words)[1..] == UpperAll(words[1..]);
    }
  }

  lemma SameWords(words: seq<string>)
    ensures Decoded(UpperAll(words)) == Decoded(words)
    ensures words != [] ==> Decoded(UpperAll(words[1..])) == Decoded(words[1..])
  {
    DecodedUpper(words);
    if words != [] {
      DecodedUpper(words[1..]);
    }
  }

  lemma SameHeader(words: seq<string>)
    ensures ResponderOf(HeaderOf(UpperAll(words))) == ResponderOf(HeaderOf(words))
    ensures HeaderOf(words).Some? <==> HeaderOf(UpperAll(words)).Some?
    ensures HeaderOf(words).Some? ==> (AllHex(HeaderOf(UpperAll(words)).value) <==> AllHex(HeaderOf(words).value))
  {
    if words != [] {
      UpperTwice(words[0]);
      HexUpper(words[0]);
    }
  }

  lemma {:induction false} JoinUpperAll(words: seq<string>)
    ensures JoinUpper(UpperAll(words)) == JoinUpper(words)
  {
    if words != [] {
      UpperTwice(words[0]);
      assert UpperAll(words)[1..] == UpperAll(words[1..]);
      JoinUpperAll(words[1..]);
    }
  }

  lemma LabelUpper(words: seq<string>, n: nat)
    requires n <= |words|
    ensures JoinUpper(UpperAll(words)[..n]) == JoinUpper(words[..n])
  {
    assert UpperAll(words)[..n] == UpperAll(words[..n]);
    JoinUpperAll(words[..n]);
  }

  lemma BytesUpper(pid: byte, dataLen: nat, words: seq<string>, bytes: seq<byte>)
    requires words != []
    ensures ReadBytes(pid, dataLen, HeaderOf(UpperAll(words)), UpperAll(words), bytes) ==
            ReadBytes(pid, dataLen, HeaderOf(words), words, bytes)
  {
    UpperTwice(words[0]);
    HitIsComplete(bytes, pid, dataLen + 2, 0);
    forall n | 0 <= n <= |words| ensures JoinUpper(UpperAll(words)[..n]) == JoinUpper(words[..n]) {
      LabelUpper(words, n);
    }
  }

  /** So does the Mode 01 reader, labels included. */
  lemma CaseDoesNotMatterToMode01(pid: byte, dataLen: nat, raw: string)
    ensures ReadLine(pid, dataLen, Upper(raw)) == ReadLine(pid, dataLen, raw)
  {
    var line := CleanLine(raw);
    var words := Tokens(line);
    CleanUpper(raw);
    UpperTwice(line);
    TokensUpper(line);
    SameWords(words);
    SameHeader(words);
    if words != [] {
      WordsUpper(pid, dataLen, words);
    }
    CompactUpper(line);
  }

  lemma CompactUpper(line: string)
    ensures IsHexToken(Flatten(Tokens(Upper(Upper(line))))) <==> IsHexToken(Flatten(Tokens(Upper(line))))
  {
    UpperTwice(line);
  }

  lemma WordsUpper(pid: byte, dataLen: nat, words: seq<string>)
    requires words != []
    ensures ReadTokens(pid, dataLen, HeaderOf(UpperAll(words)), UpperAll(words)) ==
            ReadTokens(pid, dataLen, HeaderOf(words), words)
  {
    SameWords(words);
    SameHeader(words);
    assert UpperAll(words)[1..] == UpperAll(words[1..]);
    BytesUpper(pid, dataLen, words, Decoded(if HeaderOf(words).Some? then words[1..] else words).0);
  }

  // ---------------------------------------------------------------------
  // Blanks and prompts
  // ---------------------------------------------------------------------

  predicate Blanks(s: string) { forall c | c in s :: Blank(c) }

  predicate Trimmed(s: string) { forall c | c in s :: Trimmable(c) }

  /** The words in order with blanks between them. */
  ghost predicate Spaced(s: string, words: seq<string>)
    decreases |words|
  {
    if words == [] then s == ""
    else if |words| == 1 then s == words[0]
    else exists gap, rest :: Gapped(s, words[0], gap, rest) && Spaced(rest, words[1..])
  }

  predicate Gapped(s: string, w: string, gap: string, rest: string) {
    s == w + gap + rest && gap != "" && Blanks(gap)
  }

  predicate AllWords(words: seq<string>) { forall i | 0 <= i < |words| :: Word(words[i]) }

  lemma {:induction false} TokensSkipBlanks(gap: string, rest: string)
    requires Blanks(gap)
    ensures Tokens(gap + rest) == Tokens(rest)
  {
    if gap == "" {
      assert gap + rest == rest;
    } else {
      assert gap[0] in gap && (gap + rest)[1..] == gap[1..] + rest;
      assert forall c | c in gap[1..] :: c in gap;
      TokensSkipBlanks(gap[1..], rest);
    }
  }

  /** Characters without a blank between them. */
  predicate Unbroken(w: string) { w != "" && forall i | 0 <= i < |w| :: !Blank(w[i]) }

  lemma {:induction false} UnbrokenLength(w: string, rest: string)
    requires (forall i | 0 <= i < |w| :: !Blank(w[i])) && (rest == "" || Blank(rest[0]))
    ensures WordLength(w + rest) == |w|
  {
    var s := w + rest;
    assert forall i | 0 <= i < |w| :: s[i] == w[i];
    assert rest != "" ==> s[|w|] == rest[0];
  }

  /** The first word of a line. */
  lemma TokensFirst(w: string, rest: string)
    requires Unbroken(w) && (rest == "" || Blank(rest[0]))
    ensures Tokens(w + rest) == [w] + Tokens(rest)
  {
    var s := w + rest;
    UnbrokenLength(w, rest);
    assert s[0] == w[0];
    assert s[..|w|] == w && s[|w|..] == rest;
  }

  lemma WordIsUnbroken(w: string)
    requires Word(w)
    ensures Unbroken(w)
  {
    assert forall i | 0 <= i < |w| :: UpperHex(w[i]);
  }

  lemma GappedTokens(s: string, w: string, gap: string, rest: string)
    requires Gapped(s, w, gap, rest) && Word(w)
    ensures Tokens(s) == [w] + Tokens(rest)
  {
    WordIsUnbroken(w);
    assert s == w + (gap + rest) && gap[0] in gap && (gap + rest)[0] == gap[0];
    TokensFirst(w, gap + rest);
    TokensSkipBlanks(gap, rest);
  }

  lemma {:induction false} SpacedTokens(s: string, words: seq<string>)
    requires Spaced(s, words) && AllWords(words)
    ensures Tokens(s) == words
    decreases |words|
  {
    if |words| == 1 {
      WordIsUnbroken(words[0]);
      TokensFirst(words[0], "");
      assert words[0] + "" == words[0];
    } else if words != [] {
      var gap, rest :| Gapped(s, words[0], gap, rest) && Spaced(rest, words[1..]);
      assert Word(words[0]);
      GappedTokens(s, words[0], gap, rest);
      SpacedTokens(rest, words[1..]);
    }
  }

  predicate AllPlain(s: string) { forall i | 0 <= i < |s| :: Plain(s[i]) }

  lemma GappedIsPlain(s: string, w: string, gap: string, rest: string)
    requires Gapped(s, w, gap, rest) && Word(w) && AllPlain(rest) && Firm(rest)
    ensures AllPlain(s) && Firm(s)
  {
    forall i | 0 <= i < |s| ensures Plain(s[i]) {
      if |w| <= i < |w| + |gap| {
        assert s[i] == gap[i - |w|] && s[i] in gap;
      }
    }
    assert s[0] == w[0] && s[|s| - 1] == rest[|rest| - 1];
  }

  lemma {:induction false} SpacedIsPlain(s: string, words: seq<string>)
    requires Spaced(s, words) && AllWords(words)
    ensures AllPlain(s) && (words != [] ==> Firm(s))
    decreases |words|
  {
    if |words| == 1 {
      assert Word(words[0]);
    } else if words != [] {
      var gap, rest :| Gapped(s, words[0], gap, rest) && Spaced(rest, words[1..]);
      SpacedIsPlain(rest, words[1..]);
      assert Word(words[0]);
      GappedIsPlain(s, words[0], gap, rest);
    }
  }

  lemma CleanLayout(lead: string, s: string, blanks: string, prompts: string, trail: string)
    requires Firm(s) && Trimmed(lead) && Trimmed(blanks) && Prompts(prompts) && Trimmed(trail)
    requires prompts == "" ==> trail == ""
    ensures CleanLine(lead + s + blanks + prompts + trail) == s
  {
    var raw := lead + s + blanks + prompts + trail;
    var front := if prompts == "" then s else s + blanks + prompts;
    var back := if prompts == "" then blanks else trail;
    assert raw == lead + (front + back);
    assert front[|front| - 1] == if prompts == "" then s[|s| - 1] else prompts[|prompts| - 1];
    assert (front + back)[0] == s[0];
    var a := TrimStartKeeps(lead, front + back);
    assert "" + (front + back) == front + back;
    var b := TrimEndKeeps(front, back);
    assert front + "" == front;
    var rest := if prompts == "" then s else s + blanks;
    DropBehind(s, blanks, prompts);
    var c := TrimStartKeeps("", rest);
    assert "" + rest == rest && rest[0] == s[0];
    var d := TrimEndKeeps(s, if prompts == "" then "" else blanks);
    assert s + "" == s;
  }

  lemma DropBehind(s: string, blanks: string, prompts: string)
    requires Firm(s) && Trimmed(blanks) && Prompts(prompts)
    ensures DropPrompts(if prompts == "" then s else s + blanks + prompts) == if prompts == "" then s else s + blanks
  {
    if prompts != "" {
      var front := s + blanks;
      assert front[|front| - 1] == if blanks == "" then s[|s| - 1] else blanks[|blanks| - 1];
      assert blanks != "" ==> blanks[|blanks| - 1] in blanks;
      var b := DropPromptsKeeps(front, prompts);
      assert front + "" == front;
    }
  }

  lemma PlainClassified(p: Profile, echo: string, raw: string, s: string)
    requires CleanLine(raw) == s && AllPlain(s)
    ensures var words := Tokens(s);
            Classify(p, echo, raw) ==
            if s == "" || Flatten(words) == echo then Skip
            else if HeaderOf(words).Some? && !AllHex(words[0]) then Report(if p.Uds? then None else Some(Upper(words[0])), BadHeader)
            else
              var decoded := Decoded(if HeaderOf(words).Some? then words[1..] else words);
              var r := ResponderOf(HeaderOf(words));
              if decoded.1 then Admit(p, r, decoded.0) else Garbled(r, decoded.0)
  {
    UpperKeeps(s);
    PrintedIsNoStatus(s);
  }

  /** Hexadecimal words are read as the same event however many blanks stand before,
      between and behind them, and whether or not prompts follow. */
  lemma LayoutDoesNotMatter(p: Profile, echo: string, words: seq<string>, lead: string, s: string,
                            blanks: string, prompts: string, trail: string)
    requires words != [] && AllWords(words) && Spaced(s, words)
    requires Trimmed(lead) && Trimmed(blanks) && Prompts(prompts) && Trimmed(trail) && (prompts == "" ==> trail == "")
    ensures Classify(p, echo, lead + s + blanks + prompts + trail) == Classify(p, echo, Join(words))
  {
    SpacedTokens(s, words);
    SpacedIsPlain(s, words);
    CleanLayout(lead, s, blanks, prompts, trail);
    PlainClassified(p, echo, lead + s + blanks + prompts + trail, s);
    JoinChars(words);
    PrintableIsPlain(Join(words));
    CleanLineKeeps(Join(words));
    TokensOfJoin(words);
    PlainClassified(p, echo, Join(words), Join(words));
  }

  lemma PlainRead(pid: byte, dataLen: nat, raw: string, s: string)
    requires CleanLine(raw) == s && AllPlain(s)
    ensures var words := Tokens(s);
            ReadLine(pid, dataLen, raw) ==
            if s == "" || Flatten(words) == Echo(pid) then Quiet
            else if HeaderOf(words).None? && !IsHexToken(Flatten(words)) then Fail(BadLine)
            else if HeaderOf(words).Some? && !AllHex(words[0]) then Fail(BadLine)
            else ReadTokens(pid, dataLen, HeaderOf(words), words)
  {
    UpperKeeps(s);
    PrintedIsNoProgress(s);
    PrintedIsNotRefused(s);
  }

  /** The same for the Mode 01 reader. */
  lemma LayoutDoesNotMatterToMode01(pid: byte, dataLen: nat, words: seq<string>, lead: string, s: string,
                                    blanks: string, prompts: string, trail: string)
    requires words != [] && AllWords(words) && Spaced(s, words)
    requires Trimmed(lead) && Trimmed(blanks) && Prompts(prompts) && Trimmed(trail) && (prompts == "" ==> trail == "")
    ensures ReadLine(pid, dataLen, lead + s + blanks + prompts + trail) == ReadLine(pid, dataLen, Join(words))
  {
    SpacedTokens(s, words);
    SpacedIsPlain(s, words);
    CleanLayout(lead, s, blanks, prompts, trail);
    PlainRead(pid, dataLen, lead + s + blanks + prompts + trail, s);
    JoinChars(words);
    PrintableIsPlain(Join(words));
    CleanLineKeeps(Join(words));
    TokensOfJoin(words);
    PlainRead(pid, dataLen, Join(words), Join(words));
  }

  // ---------------------------------------------------------------------
  // Broken headers and broken data
  // ---------------------------------------------------------------------

  /** Lines that are neither skipped nor rejected. */
  predicate Readable(echo: string, raw: string) {
    !EmptyOrEcho(echo, raw) && !Progress(raw) && !StatusLine(raw)
  }

  predicate NotHex(w: string) { exists i | 0 <= i < |w| :: !IsHex(w[i]) }

  /** A first word of three characters that is not hexadecimal: UDS blames nobody
      for it, Mode 03 the word. */
  lemma BrokenHeaderIsReported(p: Profile, echo: string, raw: string)
    requires Readable(echo, raw)
    ensures (exists r :: Classify(p, echo, raw) == Report(r, BadHeader)) <==>
            var words := Tokens(CleanLine(raw)); words != [] && |words[0]| == 3 && NotHex(words[0])
    ensures (exists r :: Classify(p, echo, raw) == Report(r, BadHeader)) ==>
              Classify(p, echo, raw) == Report(if p.Uds? then None else NamedBy(raw), BadHeader)
  {
    SkippedIff(p, echo, raw);
    RejectedIff(p, echo, raw);
    StatusClean(raw);
  }

  /** Words after the header, printing `parts`. */
  function HeadedWords(header: Option<string>, parts: seq<seq<byte>>): seq<string> {
    (if header.Some? then [header.value] else []) + PackedParts(parts)
  }

  predicate GoodHeader(header: Option<string>, words: seq<string>) {
    if header.Some? then |header.value| == 3 && AllHex(header.value) else words != [] && |words[0]| != 3
  }

  lemma {:induction false} DecodedPrefix(parts: seq<seq<byte>>, bad: string, more: seq<string>)
    requires !IsHexToken(bad)
    ensures Decoded(PackedParts(parts) + [bad] + more) == (Flatten(parts), false)
  {
    var words := PackedParts(parts) + [bad] + more;
    if parts == [] {
      assert words[0] == bad;
    } else {
      PackedReadsBack(parts[0]);
      assert words[0] == Packed(parts[0]) && words[1..] == PackedParts(parts[1..]) + [bad] + more;
      DecodedPrefix(parts[1..], bad, more);
    }
  }

  lemma ReadableIsData(p: Profile, echo: string, raw: string, header: Option<string>, words: seq<string>)
    requires Readable(echo, raw) && GoodHeader(header, words)
    requires Tokens(CleanLine(raw)) == (if header.Some? then [header.value] else []) + words
    ensures Classify(p, echo, raw) ==
            var r := if header.Some? then Some(Upper(header.value)) else None;
            if Decoded(words).1 then Admit(p, r, Decoded(words).0) else Garbled(r, Decoded(words).0)
  {
    SkippedIff(p, echo, raw);
    StatusClean(raw);
    if header.Some? {
      assert ([header.value] + words)[1..] == words;
    } else {
      assert [] + words == words;
    }
  }

  /** A line whose data stop being hexadecimal holds the bytes before, whatever
      follows the first broken word, and is blamed on the header. */
  lemma BrokenDataIsGarbled(p: Profile, echo: string, raw: string, header: Option<string>,
                            parts: seq<seq<byte>>, bad: string, more: seq<string>)
    requires Readable(echo, raw) && !IsHexToken(bad)
    requires GoodHeader(header, PackedParts(parts) + [bad] + more)
    requires Tokens(CleanLine(raw)) == HeadedWords(header, parts) + [bad] + more
    ensures Classify(p, echo, raw) == Garbled(if header.Some? then Some(Upper(header.value)) else None, Flatten(parts))
  {
    var words := PackedParts(parts) + [bad] + more;
    assert HeadedWords(header, parts) + [bad] + more == (if header.Some? then [header.value] else []) + words;
    ReadableIsData(p, echo, raw, header, words);
    DecodedPrefix(parts, bad, more);
  }

  /** Bytes that make a UDS read set a line aside: a bare Mode 01 answer, or one in
      a single frame. */
  predicate Mode01Answer(bytes: seq<byte>) {
    bytes != [] && (bytes[0] == 0x41 || (|bytes| >= 2 && bytes[0] < 0x10 && bytes[1] == 0x41))
  }

  /** A line of hexadecimal words is a frame of its bytes, in words of any length,
      unless a UDS read takes it for a stale Mode 01 answer, for which it blames
      nobody. */
  lemma DataIsFrame(p: Profile, echo: string, raw: string, header: Option<string>, parts: seq<seq<byte>>)
    requires Readable(echo, raw) && GoodHeader(header, PackedParts(parts))
    requires Tokens(CleanLine(raw)) == HeadedWords(header, parts)
    ensures var r := if header.Some? then Some(Upper(header.value)) else None;
            Classify(p, echo, raw) ==
            if p == Uds(true) && Mode01Answer(Flatten(parts)) then Report(None, IgnoredMode01(r))
            else Frame(r, Flatten(parts))
  {
    ReadableIsData(p, echo, raw, header, PackedParts(parts));
    PartsReadBack(parts);
  }

  // ---------------------------------------------------------------------
  // Lines
  // ---------------------------------------------------------------------

  lemma {:induction false} OneLineAlone(line: string)
    requires OneLine(line)
    ensures SplitLines(line) == [line]
  {
    if line != "" {
      assert OneLine(line[1..]);
      OneLineAlone(line[1..]);
      assert [line[0]] + line[1..] == line;
    }
  }

  lemma SplitChar(c: char, s: string)
    ensures SplitLines([c] + s) ==
            if c == '\r' || c == '\n' then [""] + SplitLines(s)
            else [[c] + SplitLines(s)[0]] + SplitLines(s)[1..]
  {
    assert ([c] + s)[0] == c && ([c] + s)[1..] == s;
  }

  lemma FirstLine(first: string, a: seq<string>, b: seq<string>)
    requires a != []
    ensures [first + a[0]] + a[1..] + b == [first + (a + b)[0]] + (a + b)[1..]
  {
  }

  /** Carriage returns and line feeds both end a line, wherever they stand. */
  lemma {:induction false} LinesEnd(a: string, end: char, b: string)
    requires end == '\r' || end == '\n'
    ensures SplitLines(a + [end] + b) == SplitLines(a) + SplitLines(b)
  {
    if a == "" {
      assert a + [end] + b == [end] + b;
      SplitChar(end, b);
    } else {
      assert a == [a[0]] + a[1..] && a + [end] + b == [a[0]] + (a[1..] + [end] + b);
      LinesEnd(a[1..], end, b);
      SplitChar(a[0], a[1..]);
      SplitChar(a[0], a[1..] + [end] + b);
      if a[0] == '\r' || a[0] == '\n' {
        Regroup([""], SplitLines(a[1..]), SplitLines(b));
      } else {
        FirstLine([a[0]], SplitLines(a[1..]), SplitLines(b));
      }
    }
  }

  /** What separates words, and what is trimmed as well. */
  lemma BlankChars(c: char)
    ensures Blank(c) <==> c in {' ', '\t', '\n', '\r', '\U{C}'}
    ensures Trimmable(c) <==> Blank(c) || c == '\U{B}'
  {
  }

  /** For Mode 01 a broken header or broken data end the reading. */
  lemma BrokenLineFails(pid: byte, dataLen: nat, raw: string, header: Option<string>,
                        parts: seq<seq<byte>>, bad: string, more: seq<string>)
    requires Readable(Echo(pid), raw) && !IsHexToken(bad) && header.Some? && |header.value| == 3
    requires Tokens(CleanLine(raw)) == HeadedWords(header, parts) + [bad] + more
    ensures ReadLine(pid, dataLen, raw) == Fail(BadLine)
  {
    var words := PackedParts(parts) + [bad] + more;
    assert HeadedWords(header, parts) + [bad] + more == [header.value] + words;
    assert ([header.value] + words)[1..] == words;
    DecodedPrefix(parts, bad, more);
    NotRefused(pid, raw);
  }

  lemma NotRefused(pid: byte, raw: string)
    requires Readable(Echo(pid), raw)
    ensures !Ignorable(CleanLine(raw), Echo(pid)) && !Refused(Upper(CleanLine(raw)))
  {
    SkippedIff(Mode03, Echo(pid), raw);
    FailureClean(raw);
    if Upper(CleanLine(raw)) == "?" {
      assert Upper(CleanLine(raw))[0..][..1] == "?";
      MentionsClean(raw, "?");
    }
  }

  /** Without a header all characters but blanks must be hexadecimal pairs. */
  lemma OddLineFails(pid: byte, dataLen: nat, raw: string)
    requires Readable(Echo(pid), raw) && HeaderOf(Tokens(CleanLine(raw))).None?
    requires !IsHexToken(Flatten(Tokens(Upper(CleanLine(raw)))))
    ensures ReadLine(pid, dataLen, raw) == Fail(BadLine)
  {
    NotRefused(pid, raw);
  }

  lemma BrokenHeaderFails(pid: byte, dataLen: nat, raw: string)
    requires Readable(Echo(pid), raw) && Tokens(CleanLine(raw)) != []
    requires |Tokens(CleanLine(raw))[0]| == 3 && NotHex(Tokens(CleanLine(raw))[0])
    ensures ReadLine(pid, dataLen, raw) == Fail(BadLine)
  {
    NotRefused(pid, raw);
  }
}
