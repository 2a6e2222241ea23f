/**
 * Re-initialization from reply texts: which texts make it succeed, with which
 * pages, and what the printed bitmaps then say about a PID.
 */
module SupportTexts {
  import opened Prelude
  import opened IsoTp
  import opened ElmText
  import opened Mode01
  import opened PidSupport
  import opened SupportPages
  import opened Adapter
  import opened ElmSession
  import opened SupportChain
  import opened ReplyLines
  import TextInterruptions

  /** The answers that the page reader finds in a reply. */
  function AnswersIn(page: byte, text: string): Option<PageAnswers> {
    ReadingHasSixBytes(page, SplitLines(text));
    var r := PageOfReading(ReadLines(page, 4, SplitLines(text), []));
    if r.PageRead? then Some(r.responses) else None
  }

  /** Texts for the requests of pages 00, 20, .. E0. */
  type Texts = ts: seq<string> | |ts| <= 8 witness []

  function PageNumber(k: nat): byte
    requires k < 8
  {
    32 * k
  }

  function RepliesOf(texts: Texts): (replies: Replies)
    ensures |replies| == |texts|
    ensures forall i | 0 <= i < |texts| :: replies[i] == AnswersIn(PageNumber(i), texts[i])
  {
    seq(|texts|, i requires 0 <= i < |texts| => AnswersIn(PageNumber(i), texts[i]))
  }

  /** The adapter acknowledges the setup and then answers with these texts. */
  predicate AnswersWith(w: Wire, texts: Texts) {
    var (w', ok) := SentAll(w, InitCommands);
    ok && Replying(w', RepliesOf(texts), 0)
  }

  /** Whatever the adapter prints: re-initialization succeeds with `n` pages exactly
      when the first `n` texts read as a maximal advertised chain, and then the
      support data are those pages. */
  lemma ReinitializedFromTexts(highest: nat, s: State, texts: Texts, n: nat)
    requires 1 <= n <= |texts| && AnswersWith(s.wire, texts)
    ensures var (s', ok) := Reinitialized(highest, s);
            (ok && |s'.support.pages| == n <==> ReplyChain(highest, RepliesOf(texts), n)) &&
            (ReplyChain(highest, RepliesOf(texts), n) ==> s'.support == SupportOf(RepliesOf(texts), n))
  {
    DiscoveryIsChain(SentAll(s.wire, InitCommands).0, highest, RepliesOf(texts), n);
  }

  // ---------------------------------------------------------------------
  // From printed bitmaps
  // ---------------------------------------------------------------------

  /** The texts are what the adapter prints when these responders answer. */
  predicate AllPrinted(senders: seq<seq<PageSender>>, texts: Texts) {
    |senders| == |texts|
    && forall i | 0 <= i < |texts| :: PrintedAs(PageNumber(i), senders[i], texts[i])
  }

  /** Some responder printed this bit. */
  predicate SomePrints(senders: seq<PageSender>, pid: nat)
    requires ValidSenders(senders) && pid >= 1
  {
    exists i | 0 <= i < |senders| :: PrintsBit(senders[i], pid)
  }

  /** A further page is asked for: some responder advertises it. */
  predicate Continues(highest: nat, senders: seq<PageSender>, k: nat)
    requires ValidSenders(senders)
  {
    32 * k < highest && k < 7 && SomePrints(senders, 32 * (k + 1))
  }

  lemma PrintedAnswers(senders: seq<seq<PageSender>>, texts: Texts, k: nat)
    requires AllPrinted(senders, texts) && k < |texts|
    ensures ValidSenders(senders[k]) && RepliesOf(texts)[k].Some?
    ensures Merge(RepliesOf(texts)[k].value) == Merge(Printed(senders[k]))
  {
    PrintedReads(PageNumber(k), senders[k], texts[k]);
  }

  lemma ContinuationShift(k: nat)
    ensures BitmapShift(32 * (k + 1)) == 0 && CapabilityShift(32 * (k + 1)) == 0
  {
  }

  lemma NextIsAdvertised(highest: nat, k: nat, bitmap: bv32)
    ensures NextPage(highest, 32 * k, bitmap).Some? <==> 32 * k < highest && k < 7 && HasBit(bitmap, 0)
  {
    ContinuationShift(k);
  }

  lemma PrintedAdvertises(highest: nat, senders: seq<seq<PageSender>>, texts: Texts, k: nat)
    requires AllPrinted(senders, texts) && k < |texts|
    ensures ValidSenders(senders[k])
    ensures Advertises(highest, RepliesOf(texts), k) <==> Continues(highest, senders[k], k)
  {
    PrintedAnswers(senders, texts, k);
    ContinuationShift(k);
    PrintedBit(senders[k], 32 * (k + 1));
    NextIsAdvertised(highest, k, Merge(Printed(senders[k])));
  }

  /** Pages 0 to `n` - 1 are asked for, and no more. */
  predicate Asked(highest: nat, senders: seq<seq<PageSender>>, n: nat)
    requires forall i | 0 <= i < |senders| :: ValidSenders(senders[i])
  {
    1 <= n <= |senders|
    && (forall i | 0 <= i < n - 1 :: Continues(highest, senders[i], i))
    && !Continues(highest, senders[n - 1], n - 1)
  }

  lemma PrintedChain(highest: nat, senders: seq<seq<PageSender>>, texts: Texts, n: nat)
    requires AllPrinted(senders, texts)
    ensures forall i | 0 <= i < |senders| :: ValidSenders(senders[i])
    ensures Asked(highest, senders, n) <==> ReplyChain(highest, RepliesOf(texts), n)
  {
    forall i | 0 <= i < |senders|
      ensures ValidSenders(senders[i]) && RepliesOf(texts)[i].Some?
              && (Advertises(highest, RepliesOf(texts), i) <==> Continues(highest, senders[i], i))
    {
      PrintedAnswers(senders, texts, i);
      PrintedAdvertises(highest, senders, texts, i);
    }
  }

  /** The status of a PID in pages merged from printed answers. */
  lemma StatusOfPrinted(s: Support, senders: seq<PageSender>, pid: nat)
    requires 1 <= pid <= 255 && ValidSenders(senders)
    requires (pid - 1) / 32 < |s.pages| && s.pages[(pid - 1) / 32] == Merge(Printed(senders))
    ensures Status(s, pid) == if SomePrints(senders, pid) then Supported else Unsupported
  {
    ShiftsAgree(pid);
    PrintedBit(senders, pid);
  }

  /** End to end: when responders print bitmaps for the pages the adapter is asked
      for, re-initialization finds exactly the pages advertised from one to the
      next, and a PID is then supported exactly when some responder printed its
      bit, unsupported when its page was answered without the bit, and unknown
      beyond the pages. */
  lemma PrintedSupport(highest: nat, s: State, senders: seq<seq<PageSender>>, texts: Texts, n: nat, pid: nat)
    requires AllPrinted(senders, texts) && AnswersWith(s.wire, texts)
    requires 1 <= n <= |texts| && 1 <= pid <= 255
    ensures forall i | 0 <= i < |senders| :: ValidSenders(senders[i])
    ensures var (s', ok) := Reinitialized(highest, s);
            (ok && |s'.support.pages| == n <==> Asked(highest, senders, n)) &&
            (Asked(highest, senders, n) ==>
               Built(s'.support) && MaximalChain(highest, s'.support) &&
               Status(s'.support, pid) == var k := (pid - 1) / 32;
                                          if k >= n then Unknown
                                          else if SomePrints(senders[k], pid) then Supported
                                          else Unsupported)
  {
    var replies, k := RepliesOf(texts), (pid - 1) / 32;
    PrintedChain(highest, senders, texts, n);
    ReinitializedFromTexts(highest, s, texts, n);
    if Asked(highest, senders, n) {
      ChainMeans(highest, replies, n);
      if k < n {
        PagesOfReplies(replies, n, k);
        PrintedAnswers(senders, texts, k);
        StatusOfPrinted(SupportOf(replies, n), senders[k], pid);
      }
    }
  }

  // ---------------------------------------------------------------------
  // With progress messages
  // ---------------------------------------------------------------------

  /** A reply may begin with SEARCHING..., or hold progress messages anywhere: the
      same answers are found in it. */
  lemma ProgressKeepsAnswers(page: byte, lines: seq<string>)
    requires TextInterruptions.AllOneLine(lines)
    ensures AnswersIn(page, Transcript(lines)) == AnswersIn(page, Transcript(WithoutProgress(lines)))
  {
    TextInterruptions.ProgressInMode01Text(page, 4, lines);
  }
}
