/**
 * Lines of a reply that are not printed frames: progress messages, status texts,
 * broken headers and broken data, in any layout and either case, for all readers.
 */
module ReplyLines {
  import opened Prelude
  import opened IsoTp
  import opened ReassemblyTable
  import opened ElmText
  import opened Mode01

  // ---------------------------------------------------------------------
  // Trimming keeps everything between blanks and prompts
  // ---------------------------------------------------------------------

  predicate Solid(c: char) { !Trimmable(c) && c != '>' }

  /** Begins and ends with a character that no trimming removes. */
  predicate Firm(t: string) { t != "" && Solid(t[0]) && Solid(t[|t| - 1]) }

  lemma {:induction false} TrimStartKeeps(a: string, rest: string) returns (a': string)
    requires rest != "" && !Trimmable(rest[0])
    ensures TrimStart(a + rest) == a' + rest && |a'| <= |a| && a[|a| - |a'|..] == a'
    ensures (forall c | c in a :: Trimmable(c)) ==> a' == ""
  {
    var s := a + rest;
    if a == "" {
      a' := "";
      assert s == rest;
    } else if Trimmable(a[0]) {
      assert s[1..] == a[1..] + rest && s[0] == a[0];
      a' := TrimStartKeeps(a[1..], rest);
    } else {
      a' := a;
      assert s[0] == a[0] && a[0] in a;
    }
  }

  lemma {:induction false} TrimEndKeeps(front: string, b: string) returns (b': string)
    requires front != "" && !Trimmable(front[|front| - 1])
    ensures TrimEnd(front + b) == front + b' && b' <= b
    ensures (forall c | c in b :: Trimmable(c)) ==> b' == ""
    decreases |b|
  {
    var s := front + b;
    if b == "" {
      b' := "";
      assert s == front;
    } else if Trimmable(b[|b| - 1]) {
      assert s[..|s| - 1] == front + b[..|b| - 1] && s[|s| - 1] == b[|b| - 1];
      b' := TrimEndKeeps(front, b[..|b| - 1]);
    } else {
      b' := b;
      assert b[|b| - 1] in b;
      assert s[|s| - 1] == b[|b| - 1];
    }
  }

  predicate Prompts(s: string) { forall i | 0 <= i < |s| :: s[i] == '>' }

  lemma {:induction false} DropPromptsKeeps(front: string, b: string) returns (b': string)
    requires front != "" && front[|front| - 1] != '>'
    ensures DropPrompts(front + b) == front + b' && b' <= b
    ensures Prompts(b) ==> b' == ""
    decreases |b|
  {
    var s := front + b;
    if b == "" {
      b' := "";
      assert s == front;
    } else if b[|b| - 1] == '>' {
      assert s[..|s| - 1] == front + b[..|b| - 1] && s[|s| - 1] == '>';
      assert Prompts(b) ==> Prompts(b[..|b| - 1]);
      b' := DropPromptsKeeps(front, b[..|b| - 1]);
    } else {
      b' := b;
      assert b[|b| - 1] in b;
      assert s[|s| - 1] == b[|b| - 1];
    }
  }

  lemma TrimKeeps(a: string, t: string, b: string) returns (a': string, b': string)
    requires Firm(t)
    ensures Trim(a + t + b) == a' + t + b'
    ensures |a'| <= |a| && a[|a| - |a'|..] == a' && b' <= b
    ensures (forall c | c in a :: Trimmable(c)) ==> a' == ""
  {
    assert a + t + b == a + (t + b) && (t + b)[0] == t[0];
    a' := TrimStartKeeps(a, t + b);
    assert a' + (t + b) == (a' + t) + b && (a' + t)[|a' + t| - 1] == t[|t| - 1];
    b' := TrimEndKeeps(a' + t, b);
  }

  /** Cleaning a line removes characters before and after `t` only. */
  lemma CleanKeeps(a: string, t: string, b: string) returns (a': string, b': string)
    requires Firm(t)
    ensures CleanLine(a + t + b) == a' + t + b'
    ensures |a'| <= |a| && a[|a| - |a'|..] == a' && b' <= b
    ensures (forall c | c in a :: Trimmable(c)) ==> a' == ""
  {
    var a1, b1 := TrimKeeps(a, t, b);
    assert (a1 + t)[|a1 + t| - 1] == t[|t| - 1];
    var b2 := DropPromptsKeeps(a1 + t, b1);
    a', b' := TrimKeeps(a1, t, b2);
  }

  // ---------------------------------------------------------------------
  // Texts inside a line, in either case
  // ---------------------------------------------------------------------

  lemma UpperJoins(a: string, b: string)
    ensures Upper(a + b) == Upper(a) + Upper(b)
  {
  }

  /** `text` stands in the line. */
  predicate Mentions(raw: string, text: string) { Contains(Upper(raw), text) }

  /** The line begins with `text`, after blanks. */
  predicate Begins(raw: string, text: string) {
    exists k | 0 <= k <= |raw| :: (forall i | 0 <= i < k :: Trimmable(raw[i])) && text <= Upper(raw[k..])
  }

  lemma UpperIsSolid(c: char)
    ensures Solid(UpperChar(c)) <==> Solid(c)
  {
  }

  lemma UpperIsFirm(t: string)
    ensures Firm(Upper(t)) <==> Firm(t)
  {
    if t != "" {
      UpperIsSolid(t[0]);
      UpperIsSolid(t[|t| - 1]);
    }
  }

  lemma UpperSlice(s: string, i: nat, j: nat)
    requires i <= j <= |s|
    ensures Upper(s[i..j]) == Upper(s)[i..j]
  {
  }

  lemma MentionedBetween(a: string, t: string, b: string, text: string)
    requires Upper(t) == text
    ensures Mentions(a + t + b, text)
  {
    UpperJoins(a + t, b);
    UpperJoins(a, t);
    var u := Upper(a + t + b);
    assert u[|a|..][..|text|] == text;
  }

  /** A text that stands in the line still stands there when it is cleaned. */
  lemma CleanMentions(raw: string, text: string)
    requires Firm(text) && Mentions(raw, text)
    ensures Mentions(CleanLine(raw), text)
  {
    var i := TextAt(raw, text);
    SplitThree(raw, i, |text|);
    MentionedAt(raw[..i], raw[i..i + |text|], raw[i + |text|..], text);
  }

  lemma TextAt(raw: string, text: string) returns (i: nat)
    requires Mentions(raw, text)
    ensures i + |text| <= |raw| && Upper(raw[i..i + |text|]) == text
  {
    var u := Upper(raw);
    var k :| 0 <= k <= |u| - |text| && u[k..][..|text|] == text;
    i := k;
    UpperSlice(raw, i, i + |text|);
    assert u[i..][..|text|] == u[i..i + |text|];
  }

  lemma MentionedAt(a: string, t: string, b: string, text: string)
    requires Firm(text) && Upper(t) == text
    ensures Mentions(CleanLine(a + t + b), text)
  {
    UpperIsFirm(t);
    var a', b' := CleanKeeps(a, t, b);
    MentionedBetween(a', t, b', text);
  }

  lemma {:induction false} TrimStartPart(s: string) returns (i: nat)
    ensures i <= |s| && TrimStart(s) == s[i..] && forall k | 0 <= k < i :: Trimmable(s[k])
  {
    if s != "" && Trimmable(s[0]) {
      i := TrimStartPart(s[1..]);
      i := i + 1;
    } else {
      i := 0;
    }
  }

  lemma {:induction false} TrimEndPart(s: string) returns (j: nat)
    ensures j <= |s| && TrimEnd(s) == s[..j]
    decreases |s|
  {
    j := |s|;
    if s != "" && Trimmable(s[|s| - 1]) {
      j := TrimEndPart(s[..|s| - 1]);
    }
  }

  lemma {:induction false} DropPromptsPart(s: string) returns (j: nat)
    ensures j <= |s| && DropPrompts(s) == s[..j]
    decreases |s|
  {
    j := |s|;
    if s != "" && s[|s| - 1] == '>' {
      j := DropPromptsPart(s[..|s| - 1]);
    }
  }

  /** A cleaned line is a part of the line, after blanks. */
  lemma CleanPart(raw: string) returns (i: nat, j: nat)
    ensures i <= j <= |raw| && CleanLine(raw) == raw[i..j] && forall k | 0 <= k < i :: Trimmable(raw[k])
  {
    var i1 := TrimStartPart(raw);
    var j1 := TrimEndPart(raw[i1..]);
    var s := raw[i1..][..j1];
    var j2 := DropPromptsPart(s);
    var i3 := TrimStartPart(s[..j2]);
    var j3 := TrimEndPart(s[..j2][i3..]);
    i, j := i1 + i3, i1 + i3 + j3;
    Window(raw, i1, |raw|, 0, j1);
    assert raw[i1..|raw|] == raw[i1..] && raw[i1..][0..] == raw[i1..] && s == raw[i1..i1 + j1];
    assert s[..j2] == raw[i1..i1 + j2];
    Window(raw, i1, i1 + j2, i3, j3);
    forall k | 0 <= k < i ensures Trimmable(raw[k]) {
      assert k >= i1 ==> raw[k] == s[..j2][k - i1];
    }
  }

  lemma Window<T>(u: seq<T>, i: nat, j: nat, k: nat, n: nat)
    requires i <= j <= |u| && k + n <= j - i
    ensures u[i..j][k..][..n] == u[i + k..i + k + n] && u[i + k..][..n] == u[i + k..i + k + n]
  {
  }

  lemma MentionsPart(raw: string, i: nat, j: nat, text: string)
    requires i <= j <= |raw| && Mentions(raw[i..j], text)
    ensures Mentions(raw, text)
  {
    var part := raw[i..j];
    var k :| 0 <= k <= |part| - |text| && Upper(part)[k..][..|text|] == text;
    UpperSlice(raw, i, j);
    Window(Upper(raw), i, j, k, |text|);
    assert Upper(raw)[i + k..][..|text|] == text;
  }

  /** And the other way round. */
  lemma MentionsClean(raw: string, text: string)
    requires Firm(text)
    ensures Mentions(CleanLine(raw), text) <==> Mentions(raw, text)
  {
    if Mentions(CleanLine(raw), text) {
      var i, j := CleanPart(raw);
      MentionsPart(raw, i, j, text);
    } else if Mentions(raw, text) {
      CleanMentions(raw, text);
    }
  }

  lemma BeginsBetween(a: string, t: string, b: string, text: string)
    requires (forall c | c in a :: Trimmable(c)) && Upper(t) == text && Firm(text)
    ensures StartsWith(Upper(CleanLine(a + t + b)), text)
  {
    UpperIsFirm(t);
    var a', b' := CleanKeeps(a, t, b);
    assert CleanLine(a + t + b) == t + b';
    UpperJoins(t, b');
  }

  lemma BeginsPart(raw: string, i: nat, j: nat, text: string)
    requires i <= j <= |raw| && (forall k | 0 <= k < i :: Trimmable(raw[k])) && text <= Upper(raw[i..j])
    ensures Begins(raw, text)
  {
    UpperJoins(raw[i..j], raw[j..]);
    assert raw[i..] == raw[i..j] + raw[j..];
  }

  lemma StartAt(raw: string, text: string) returns (k: nat)
    requires Begins(raw, text)
    ensures k + |text| <= |raw| && (forall c | c in raw[..k] :: Trimmable(c)) && Upper(raw[k..k + |text|]) == text
  {
    var n :| 0 <= n <= |raw| && (forall i | 0 <= i < n :: Trimmable(raw[i])) && text <= Upper(raw[n..]);
    k := n;
    UpperSlice(raw[k..], 0, |text|);
    assert raw[k..][0..|text|] == raw[k..k + |text|] && Upper(raw[k..])[0..|text|] == text;
  }

  /** A cleaned line starts with a text exactly when the line begins with it. */
  lemma BeginsClean(raw: string, text: string)
    requires Firm(text)
    ensures StartsWith(Upper(CleanLine(raw)), text) <==> Begins(raw, text)
  {
    if Begins(raw, text) {
      var k := StartAt(raw, text);
      SplitThree(raw, k, |text|);
      BeginsBetween(raw[..k], raw[k..k + |text|], raw[k + |text|..], text);
    } else if StartsWith(Upper(CleanLine(raw)), text) {
      var i, j := CleanPart(raw);
      BeginsPart(raw, i, j, text);
    }
  }

  lemma SplitThree<T>(s: seq<T>, k: nat, n: nat)
    requires k + n <= |s|
    ensures s == s[..k] + s[k..k + n] + s[k + n..] && s[k..][0..n] == s[k..k + n]
  {
  }

  // ---------------------------------------------------------------------
  // Progress messages are skipped by all readers
  // ---------------------------------------------------------------------

  /** `SEARCHING...`, or `BUS INIT...` without an error. */
  predicate Progress(raw: string) {
    Begins(raw, "SEARCHING") || (Begins(raw, "BUS INIT") && !Mentions(raw, "ERROR"))
  }

  lemma ProgressIsSkipped(raw: string)
    requires Progress(raw)
    ensures forall p, echo :: Classify(p, echo, raw) == Skip
    ensures forall pid, dataLen :: ReadLine(pid, dataLen, raw) == Quiet
  {
    BeginsClean(raw, "SEARCHING");
    BeginsClean(raw, "BUS INIT");
    MentionsClean(raw, "ERROR");
  }

  function Substance(): string -> bool { (raw: string) => !Progress(raw) }

  /** The lines of a reply without the progress messages. */
  function WithoutProgress(lines: seq<string>): seq<string> { Filter(lines, Substance()) }

  function Reads(p: Profile, echo: string): string -> Event { (raw: string) => Classify(p, echo, raw) }

  lemma EventsMapped(p: Profile, echo: string, lines: seq<string>)
    ensures Events(p, echo, lines) == Mapped(Reads(p, echo), lines)
  {
  }

  lemma EventsCons(p: Profile, echo: string, line: string, rest: seq<string>)
    ensures Events(p, echo, [line] + rest) == [Classify(p, echo, line)] + Events(p, echo, rest)
  {
    EventsMapped(p, echo, [line] + rest);
    EventsMapped(p, echo, rest);
    MappedCons(Reads(p, echo), line, rest);
  }

  lemma RunCons(p: Profile, s: Scan, e: Event, rest: seq<Event>)
    ensures Run(p, s, [e] + rest) == Run(p, Step(p, s, e), rest)
  {
    assert ([e] + rest)[1..] == rest;
  }

  lemma RunLine(p: Profile, echo: string, s: Scan, line: string, rest: seq<string>)
    ensures Run(p, s, Events(p, echo, [line] + rest)) ==
            Run(p, Step(p, s, Classify(p, echo, line)), Events(p, echo, rest))
  {
    EventsCons(p, echo, line, rest);
    RunCons(p, s, Classify(p, echo, line), Events(p, echo, rest));
  }

  lemma SkipsProgress(p: Profile, echo: string, s: Scan, raw: string)
    requires Progress(raw)
    ensures Step(p, s, Classify(p, echo, raw)) == s
  {
    ProgressIsSkipped(raw);
  }

  lemma {:induction false} ProgressChangesNothing(p: Profile, echo: string, s: Scan, lines: seq<string>)
    ensures Run(p, s, Events(p, echo, lines)) == Run(p, s, Events(p, echo, WithoutProgress(lines)))
    decreases |lines|
  {
    if lines != [] {
      var rest := lines[1..];
      assert lines == [lines[0]] + rest;
      RunLine(p, echo, s, lines[0], rest);
      if Progress(lines[0]) {
        SkipsProgress(p, echo, s, lines[0]);
        ProgressChangesNothing(p, echo, s, rest);
      } else {
        RunLine(p, echo, s, lines[0], WithoutProgress(rest));
        ProgressChangesNothing(p, echo, Step(p, s, Classify(p, echo, lines[0])), rest);
      }
    }
  }

  /** Progress messages anywhere in a reply, in either case and behind blanks, leave
      the answer of both reassembling readers as it is. */
  lemma ProgressIsInvisible(p: Profile, echo: string, lines: seq<string>)
    ensures Normalized(p, Events(p, echo, lines)) == Normalized(p, Events(p, echo, WithoutProgress(lines)))
  {
    ProgressChangesNothing(p, echo, Fresh, lines);
  }

  /** And of the Mode 01 reader, its failures included. */
  lemma {:induction false} ProgressIsInvisibleToMode01(pid: byte, dataLen: nat, lines: seq<string>, matches: seq<Match>)
    ensures ReadLines(pid, dataLen, lines, matches) == ReadLines(pid, dataLen, WithoutProgress(lines), matches)
  {
    if lines != [] {
      var o := ReadLine(pid, dataLen, lines[0]);
      ProgressIsInvisibleToMode01(pid, dataLen, lines[1..], if o.Answer? then matches + [o.m] else matches);
      if Progress(lines[0]) {
        ProgressIsSkipped(lines[0]);
      } else {
        assert ([lines[0]] + WithoutProgress(lines[1..]))[1..] == WithoutProgress(lines[1..]);
      }
    }
  }

  /** Nothing but blanks and prompts, or the request echoed, blanks aside. */
  predicate EmptyOrEcho(echo: string, raw: string) {
    CleanLine(raw) == "" || Flatten(Tokens(Upper(CleanLine(raw)))) == echo
  }

  /** A line is skipped for these reasons only. */
  lemma SkippedIff(p: Profile, echo: string, raw: string)
    ensures Classify(p, echo, raw) == Skip <==> EmptyOrEcho(echo, raw) || Progress(raw)
  {
    BeginsClean(raw, "SEARCHING");
    BeginsClean(raw, "BUS INIT");
    MentionsClean(raw, "ERROR");
  }

  // ---------------------------------------------------------------------
  // Status texts
  // ---------------------------------------------------------------------

  predicate MentionsFailure(raw: string) {
    Mentions(raw, "NO DATA") || Mentions(raw, "STOPPED") || Mentions(raw, "UNABLE TO CONNECT") || Mentions(raw, "ERROR")
  }

  /** The line holds one of the five status texts, in either case. */
  predicate StatusLine(raw: string) { Mentions(raw, "?") || MentionsFailure(raw) }

  lemma FailureClean(raw: string)
    ensures MentionsFailure(CleanLine(raw)) <==> MentionsFailure(raw)
  {
    MentionsClean(raw, "NO DATA");
    MentionsClean(raw, "STOPPED");
    MentionsClean(raw, "UNABLE TO CONNECT");
    MentionsClean(raw, "ERROR");
  }

  lemma StatusClean(raw: string)
    ensures IsStatus(Upper(CleanLine(raw))) <==> StatusLine(raw)
  {
    FailureClean(raw);
    MentionsClean(raw, "?");
    var upper := Upper(CleanLine(raw));
    assert IsStatus(upper) <==>
           Contains(upper, Statuses[0]) || Contains(upper, Statuses[1]) || Contains(upper, Statuses[2])
           || Contains(upper, Statuses[3]) || Contains(upper, Statuses[4]);
  }

  /** Whom the line names: its first word, if that has three characters. */
  function NamedBy(raw: string): Responder {
    var words := Tokens(CleanLine(raw));
    if words != [] && |words[0]| == 3 then Some(Upper(words[0])) else None
  }

  /** A line is reported as a rejection exactly when it holds a status text and is
      not skipped; UDS blames nobody for it, Mode 03 the responder that it names. */
  lemma RejectedIff(p: Profile, echo: string, raw: string)
    ensures (exists r :: Classify(p, echo, raw) == Report(r, Rejected)) <==>
            StatusLine(raw) && !EmptyOrEcho(echo, raw) && !Progress(raw)
    ensures StatusLine(raw) && !EmptyOrEcho(echo, raw) && !Progress(raw) ==>
              Classify(p, echo, raw) == Report(if p.Uds? then None else NamedBy(raw), Rejected)
  {
    SkippedIff(p, echo, raw);
    StatusClean(raw);
  }

  lemma {:induction false} TokensKeep(s: string, i: nat)
    requires i < |s| && !Blank(s[i])
    ensures s[i] in Flatten(Tokens(s))
    decreases |s|
  {
    if Blank(s[0]) {
      TokensKeep(s[1..], i - 1);
    } else {
      var n := WordLength(s);
      var tokens := Tokens(s);
      assert tokens[1..] == Tokens(s[n..]) && tokens[0] == s[..n];
      if i >= n {
        TokensKeep(s[n..], i - n);
      } else {
        assert s[i] == s[..n][i];
      }
    }
  }

  /** Echoes are hexadecimal, so no status line is taken for one. */
  lemma StatusIsNoEcho(echo: string, raw: string)
    requires AllUpperHex(echo) && StatusLine(raw)
    ensures !EmptyOrEcho(echo, raw)
  {
    StatusClean(raw);
    var upper := Upper(CleanLine(raw));
    var k :| 0 <= k < |Statuses| && Contains(upper, Statuses[k]);
    var at := if k == 4 then 1 else 0;
    assert !Blank(Statuses[k][at]) && !UpperHex(Statuses[k][at]);
    var i :| 0 <= i <= |upper| - |Statuses[k]| && upper[i..][..|Statuses[k]|] == Statuses[k];
    assert upper[i + at] == upper[i..][..|Statuses[k]|][at];
    TokensKeep(upper, i + at);
    assert forall c | c in echo :: UpperHex(c);
    assert upper[i + at] in Flatten(Tokens(upper)) && upper[i + at] !in echo;
  }

  /** So, for the echo of a request, exactly the lines with a status text that are
      no progress messages are rejections. */
  lemma StatusIsReported(p: Profile, echo: string, raw: string)
    requires AllUpperHex(echo) && StatusLine(raw) && !Progress(raw)
    ensures Classify(p, echo, raw) == Report(if p.Uds? then None else NamedBy(raw), Rejected)
  {
    StatusIsNoEcho(echo, raw);
    RejectedIff(p, echo, raw);
  }

  // ---------------------------------------------------------------------
  // One more report in an answer
  // ---------------------------------------------------------------------

  /** What a run adds does not depend on what was there before. */
  lemma {:induction false} RunAdds(p: Profile, t: Table, ms: seq<Match>, es: seq<Issue>, events: seq<Event>)
    ensures var added := Run(p, Scan(t, [], []), events);
            Run(p, Scan(t, ms, es), events) == Scan(added.table, ms + added.matches, es + added.issues)
    decreases |events|
  {
    if events == [] {
      assert ms + [] == ms && es + [] == es;
    } else if events[0].Skip? {
      RunAdds(p, t, ms, es, events[1..]);
    } else {
      var r := events[0].responder;
      var o := ReceiveEvent(p, Lookup(t, r), events[0]);
      var t', ms', es' := Put(t, r, o.slot), Matches(r, o.payloads), Issues(r, o.problems);
      RunAdds(p, t', ms + ms', es + es', events[1..]);
      RunAdds(p, t', ms', es', events[1..]);
      assert [] + ms' == ms' && [] + es' == es';
      var rest := Run(p, Scan(t', [], []), events[1..]);
      Regroup(ms, ms', rest.matches);
      Regroup(es, es', rest.issues);
    }
  }

  lemma {:induction false} DrainAdds(p: Profile, t: Table, ms: seq<Match>, es: seq<Issue>)
    ensures var added := Drain(p, Scan(t, [], []));
            Drain(p, Scan(t, ms, es)) == Scan([], ms + added.matches, es + added.issues) && added.table == []
    decreases |t|
  {
    if t == [] {
      assert ms + [] == ms && es + [] == es;
    } else {
      var o := Leftover(p, t[0]);
      var ms', es' := Matches(t[0].responder, o.payloads), Issues(t[0].responder, o.problems);
      DrainAdds(p, t[1..], ms + ms', es + es');
      DrainAdds(p, t[1..], ms', es');
      assert [] + ms' == ms' && [] + es' == es';
      var rest := Drain(p, Scan(t[1..], [], []));
      Regroup(ms, ms', rest.matches);
      Regroup(es, es', rest.issues);
    }
  }

  lemma {:induction false} RunTogether(p: Profile, s: Scan, a: seq<Event>, b: seq<Event>)
    ensures Run(p, s, a + b) == Run(p, Run(p, s, a), b)
    decreases |a|
  {
    if a == [] {
      assert a + b == b;
    } else {
      assert (a + b)[1..] == a[1..] + b;
      RunTogether(p, Step(p, s, a[0]), a[1..], b);
    }
  }

  /** What is collected after the lines `a`, with `t` still in flight. */
  function Later(p: Profile, t: Table, b: seq<Event>): Scan {
    Drain(p, Run(p, Scan(t, [], []), b))
  }

  lemma CollectedLater(p: Profile, s: Scan, b: seq<Event>)
    ensures Drain(p, Run(p, s, b)) ==
            Scan([], s.matches + Later(p, s.table, b).matches, s.issues + Later(p, s.table, b).issues)
  {
    RunAdds(p, s.table, s.matches, s.issues, b);
    var added := Run(p, Scan(s.table, [], []), b);
    DrainAdds(p, added.table, s.matches + added.matches, s.issues + added.issues);
    DrainAdds(p, added.table, added.matches, added.issues);
    var left := Drain(p, Scan(added.table, [], []));
    Regroup(s.matches, added.matches, left.matches);
    Regroup(s.issues, added.issues, left.issues);
  }

  lemma ReportStep(p: Profile, s: Scan, e: Event)
    requires e.Report?
    ensures Step(p, s, e) == Scan(s.table, s.matches, s.issues + [Issue(e.responder, e.problem)])
  {
    assert s.matches + Matches(e.responder, []) == s.matches;
    assert Issues(e.responder, [e.problem]) == [Issue(e.responder, e.problem)];
    PutSame(s.table, e.responder);
  }

  /** `with` is `without` and one element more. */
  ghost predicate OneMore<T>(without: seq<T>, with: seq<T>, x: T) {
    exists k | 0 <= k <= |without| :: with == without[..k] + [x] + without[k..]
  }

  lemma Inserted<T>(a: seq<T>, b: seq<T>, x: T)
    ensures OneMore(a + b, a + [x] + b, x)
  {
    assert (a + b)[..|a|] == a && (a + b)[|a|..] == b;
  }

  /** A reported line anywhere adds its one issue and changes nothing else; the
      answer to no line at all has the issue that nothing was found. */
  lemma ReportAddsOneIssue(p: Profile, a: seq<Event>, e: Event, b: seq<Event>)
    requires e.Report?
    ensures Normalized(p, a + [e] + b).matches == Normalized(p, a + b).matches
    ensures OneMore(Collected(p, a + b).issues, Normalized(p, a + [e] + b).issues, Issue(e.responder, e.problem))
  {
    var s := Run(p, Fresh, a);
    var s' := Scan(s.table, s.matches, s.issues + [Issue(e.responder, e.problem)]);
    RunTogether(p, Fresh, a, b);
    RunTogether(p, Fresh, a + [e], b);
    RunTogether(p, Fresh, a, [e]);
    ReportStep(p, s, e);
    assert [e][1..] == [] && Run(p, s', [e][1..]) == s' && Run(p, s, [e]) == Run(p, Step(p, s, e), [e][1..]);
    CollectedLater(p, s, b);
    CollectedLater(p, s', b);
    Inserted(s.issues, Later(p, s.table, b).issues, Issue(e.responder, e.problem));
  }

  /** A status line anywhere in a reply, for both reassembling readers. */
  lemma StatusAddsOneIssue(p: Profile, echo: string, before: seq<string>, raw: string, after: seq<string>)
    requires AllUpperHex(echo) && StatusLine(raw) && !Progress(raw)
    ensures Normalized(p, Events(p, echo, before + [raw] + after)).matches ==
            Normalized(p, Events(p, echo, before + after)).matches
    ensures OneMore(Collected(p, Events(p, echo, before + after)).issues,
                    Normalized(p, Events(p, echo, before + [raw] + after)).issues,
                    Issue(if p.Uds? then None else NamedBy(raw), Rejected))
  {
    StatusIsReported(p, echo, raw);
    EventsAround(p, echo, before, raw, after);
    ReportAddsOneIssue(p, Events(p, echo, before), Classify(p, echo, raw), Events(p, echo, after));
  }

  lemma EventsAround(p: Profile, echo: string, before: seq<string>, raw: string, after: seq<string>)
    ensures Events(p, echo, before + after) == Events(p, echo, before) + Events(p, echo, after)
    ensures Events(p, echo, before + [raw] + after) ==
            Events(p, echo, before) + [Classify(p, echo, raw)] + Events(p, echo, after)
  {
    EventsMapped(p, echo, before + after);
    EventsMapped(p, echo, before + [raw] + after);
    EventsMapped(p, echo, before);
    EventsMapped(p, echo, after);
    MappedAround(Reads(p, echo), before, raw, after);
  }

  // ---------------------------------------------------------------------
  // Status texts end a Mode 01 reading
  // ---------------------------------------------------------------------

  /** One of the four failure texts, or a line that is just a question mark. */
  predicate RefusesMode01(raw: string) { MentionsFailure(raw) || CleanLine(raw) == "?" }

  lemma PrefixOf(line: string, text: string)
    ensures Upper(line) == "?" <==> line == "?"
  {
    if Upper(line) == "?" {
      assert UpperChar(line[0]) == '?';
    }
  }

  lemma RefusedIsNoEcho(pid: byte, raw: string)
    requires RefusesMode01(raw)
    ensures !EmptyOrEcho(Echo(pid), raw)
  {
    if CleanLine(raw) == "?" {
      assert Mentions("?", "?") by {
        assert Upper("?")[0..][..1] == "?";
      }
      MentionsClean(raw, "?");
    }
    HexPairBytes(pid);
    StatusIsNoEcho(Echo(pid), raw);
  }

  /** Such a line fails as a rejected request. */
  lemma RefusedLine(pid: byte, dataLen: nat, raw: string)
    requires RefusesMode01(raw) && !Progress(raw)
    ensures ReadLine(pid, dataLen, raw) == Fail(RejectedRequest)
  {
    RefusedIsNoEcho(pid, raw);
    SkippedIff(Mode03, Echo(pid), raw);
    FailureClean(raw);
    PrefixOf(CleanLine(raw), "?");
  }

  /** A reading as a function of what its lines are read as. */
  function Outcome(pid: byte, dataLen: nat): string -> LineOutcome { (raw: string) => ReadLine(pid, dataLen, raw) }

  function Outcomes(pid: byte, dataLen: nat, lines: seq<string>): seq<LineOutcome> {
    Mapped(Outcome(pid, dataLen), lines)
  }

  function ReadOutcomes(os: seq<LineOutcome>, matches: seq<Match>): Reading {
    if os == [] then (if matches == [] then Err(NoResponse) else Ok(matches))
    else match os[0]
      case Quiet => ReadOutcomes(os[1..], matches)
      case Fail(failure) => Err(failure)
      case OutOfRange => Panic
      case Answer(m) => ReadOutcomes(os[1..], matches + [m])
  }

  lemma {:induction false} ReadsOutcomes(pid: byte, dataLen: nat, lines: seq<string>, matches: seq<Match>)
    ensures ReadLines(pid, dataLen, lines, matches) == ReadOutcomes(Outcomes(pid, dataLen, lines), matches)
  {
    if lines != [] {
      assert lines == [lines[0]] + lines[1..];
      MappedCons(Outcome(pid, dataLen), lines[0], lines[1..]);
      var o := ReadLine(pid, dataLen, lines[0]);
      ReadsOutcomes(pid, dataLen, lines[1..], if o.Answer? then matches + [o.m] else matches);
    }
  }

  lemma {:induction false} FailureEnds(before: seq<LineOutcome>, failure: Failure, after: seq<LineOutcome>, matches: seq<Match>)
    requires Fail(NoResponse) !in before
    ensures var r := ReadOutcomes(before, matches);
            ReadOutcomes(before + [Fail(failure)] + after, matches) ==
            if r.Ok? || r == Err(NoResponse) then Err(failure) else r
    decreases |before|
  {
    var all := before + [Fail(failure)] + after;
    if before != [] {
      assert all[0] == before[0] && all[1..] == before[1..] + [Fail(failure)] + after;
      var o := before[0];
      FailureEnds(before[1..], failure, after, if o.Answer? then matches + [o.m] else matches);
    }
  }

  lemma LinesAreNoSilence(pid: byte, dataLen: nat, lines: seq<string>)
    ensures Fail(NoResponse) !in Outcomes(pid, dataLen, lines)
  {
    forall i | 0 <= i < |lines| ensures Outcomes(pid, dataLen, lines)[i] != Fail(NoResponse) {
      LineIsNoSilence(pid, dataLen, lines[i]);
    }
  }

  lemma LineIsNoSilence(pid: byte, dataLen: nat, raw: string)
    ensures ReadLine(pid, dataLen, raw) != Fail(NoResponse)
  {
  }

  /** A Mode 01 reading ends at such a line, wherever it stands, unless the lines
      before it have ended it already. */
  lemma RefusalEndsReading(pid: byte, dataLen: nat, before: seq<string>, raw: string, after: seq<string>)
    requires RefusesMode01(raw) && !Progress(raw)
    ensures var r := ReadLines(pid, dataLen, before, []);
            ReadLines(pid, dataLen, before + [raw] + after, []) ==
            if r.Ok? || r == Err(NoResponse) then Err(RejectedRequest) else r
  {
    RefusedLine(pid, dataLen, raw);
    MappedAround(Outcome(pid, dataLen), before, raw, after);
    LinesAreNoSilence(pid, dataLen, before);
    ReadsOutcomes(pid, dataLen, before, []);
    ReadsOutcomes(pid, dataLen, before + [raw] + after, []);
    FailureEnds(Outcomes(pid, dataLen, before), RejectedRequest, Outcomes(pid, dataLen, after), []);
  }
}
