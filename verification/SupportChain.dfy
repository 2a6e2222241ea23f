/**
 * What a re-initialization finds out about supported PIDs.
 */
module SupportChain {
  import opened Prelude
  import opened PidSupport
  import opened Adapter
  import opened ElmSession

  /** Every page so far advertises the next one. */
  ghost predicate Chained(highest: nat, s: Support) {
    forall i | 0 <= i < |s.pages| :: NextPage(highest, 32 * i, s.pages[i]) == Some(32 * (i + 1))
  }

  /** One more page: either it advertises the next one, or the chain is maximal. */
  lemma ChainedMore(highest: nat, s: Support, s': Support, bitmap: bv32)
    requires Chained(highest, s) && s'.pages == s.pages + [bitmap] && |s.pages| < 8
    ensures var next := NextPage(highest, 32 * |s.pages|, bitmap);
            if next.None? then MaximalChain(highest, s')
            else next.value == 32 * |s'.pages| && |s'.pages| < 8 && Chained(highest, s')
  {
  }

  lemma ChainGrows(highest: nat, s: Support, responses: PageAnswers)
    requires Built(s) && |s.pages| < 8 && Chained(highest, s)
    ensures var page := 32 * |s.pages|;
            var s', next := AddPage(s, page, responses), NextPage(highest, page, Merge(responses));
            Built(s') && |s'.pages| == |s.pages| + 1 &&
            (next.None? ==> MaximalChain(highest, s')) &&
            (next.Some? ==> next.value == 32 * |s'.pages| && |s'.pages| < 8 && Chained(highest, s'))
  {
    AddPageKeepsBuilt(s, responses);
    ChainedMore(highest, s, AddPage(s, 32 * |s.pages|, responses), Merge(responses));
  }

  lemma {:induction false} DiscoverBuilds(w: Wire, highest: nat, s: Support)
    requires Built(s) && |s.pages| < 8 && Chained(highest, s)
    ensures var found := Discover(w, highest, 32 * |s.pages|, s).1;
            found.Some? ==> Built(found.value) && MaximalChain(highest, found.value)
    decreases 8 - |s.pages|
  {
    var page := 32 * |s.pages|;
    var (w', outcome) := Exchanged(w, SupportPage(page));
    if outcome.Text? && outcome.reply.Page? {
      ChainGrows(highest, s, outcome.reply.responses);
      if NextPage(highest, page, Merge(outcome.reply.responses)).Some? {
        DiscoverBuilds(w', highest, AddPage(s, page, outcome.reply.responses));
      }
    }
  }

  /** The pages queried are exactly the maximal chain of advertised
      continuations, at most eight, and the merged bitmaps are the unions of the
      recorded answers. */
  lemma SupportIsMaximalChain(highest: nat, s: State)
    ensures var (s', ok) := Reinitialized(highest, s);
            ok ==> Built(s'.support) && MaximalChain(highest, s'.support)
  {
    DiscoverBuilds(SentAll(s.wire, InitCommands).0, highest, NoSupport);
  }

  // ---------------------------------------------------------------------
  // Exactly which replies make discovery succeed, and with which pages
  // ---------------------------------------------------------------------

  /** The replies to the requests for pages 00, 20, .. E0; None is a reply that
      holds no page. */
  type Replies = rs: seq<Option<PageAnswers>> | |rs| <= 8 witness []

  function ReplyOf(answers: Option<PageAnswers>): Reply {
    if answers.Some? then Page(answers.value) else Unparsable
  }

  /** The adapter's next replies are these, from number `k` on. */
  predicate Replying(w: Wire, replies: Replies, k: nat) {
    k <= |replies| <= k + |w.fates|
    && forall i | k <= i < |replies| :: w.fates[i - k].outcome == Text(ReplyOf(replies[i]))
  }

  /** Is reply `k` a page that advertises the next one? */
  predicate Advertises(highest: nat, replies: Replies, k: nat)
    requires k < |replies|
  {
    replies[k].Some? && NextPage(highest, 32 * k, Merge(replies[k].value)).Some?
  }

  /** The first `n` replies are the pages of a maximal advertised chain. */
  predicate ReplyChain(highest: nat, replies: Replies, n: nat) {
    1 <= n <= |replies|
    && (forall i | 0 <= i < n - 1 :: Advertises(highest, replies, i))
    && replies[n - 1].Some? && !Advertises(highest, replies, n - 1)
  }

  /** The support data that the first `n` replies amount to. */
  function SupportOf(replies: Replies, n: nat): (s: Support)
    requires n <= |replies|
    ensures |s.pages| == n
  {
    if n == 0 then NoSupport
    else AddPage(SupportOf(replies, n - 1), 32 * (n - 1),
                 if replies[n - 1].Some? then replies[n - 1].value else [])
  }

  lemma {:induction false} DiscoveryGrows(w: Wire, highest: nat, page: nat, s: Support)
    requires page <= 255
    ensures var found := Discover(w, highest, page, s).1; found.Some? ==> |found.value.pages| > |s.pages|
    decreases 256 - page
  {
    var (w', outcome) := Exchanged(w, SupportPage(page));
    if outcome.Text? && outcome.reply.Page? {
      var next := NextPage(highest, page, Merge(outcome.reply.responses));
      if next.Some? {
        DiscoveryGrows(w', highest, next.value, AddPage(s, page, outcome.reply.responses));
      }
    }
  }

  /** One request and its reply. */
  lemma ReplyStep(w: Wire, highest: nat, replies: Replies, k: nat)
    requires k < |replies| && Replying(w, replies, k)
    ensures var w' := Exchanged(w, SupportPage(32 * k)).0;
            Replying(w', replies, k + 1)
            && (Advertises(highest, replies, k) ==> k + 1 < 8)
            && Discover(w, highest, 32 * k, SupportOf(replies, k)).1 ==
               if replies[k].None? then None
               else if !Advertises(highest, replies, k) then Some(SupportOf(replies, k + 1))
               else Discover(w', highest, 32 * (k + 1), SupportOf(replies, k + 1)).1
  {
    assert w.fates[k - k].outcome == Text(ReplyOf(replies[k]));
  }

  /** `n` pages are found exactly when the first `n` replies are a chain, and then
      these pages. */
  predicate Decided(highest: nat, replies: Replies, n: nat, found: Option<Support>) {
    (found.Some? && |found.value.pages| == n <==> ReplyChain(highest, replies, n))
    && (ReplyChain(highest, replies, n) ==> found == Some(SupportOf(replies, n)))
  }

  lemma ChainStops(highest: nat, replies: Replies, k: nat, n: nat)
    requires k < n <= |replies| && !Advertises(highest, replies, k)
    requires forall i | 0 <= i < k :: Advertises(highest, replies, i)
    ensures Decided(highest, replies, n, if replies[k].None? then None else Some(SupportOf(replies, k + 1)))
  {
    ChainEndsAt(highest, replies, k, n);
    if replies[k].Some? {
      StopsWith(highest, replies, k, n, SupportOf(replies, k + 1));
    }
  }

  lemma StopsWith(highest: nat, replies: Replies, k: nat, n: nat, s: Support)
    requires k < n <= |replies| && |s.pages| == k + 1 && (n == k + 1 ==> s == SupportOf(replies, n))
    requires ReplyChain(highest, replies, n) <==> n == k + 1
    ensures Decided(highest, replies, n, Some(s))
  {
  }

  lemma ChainEndsAt(highest: nat, replies: Replies, k: nat, n: nat)
    requires k < n <= |replies| && !Advertises(highest, replies, k)
    requires forall i | 0 <= i < k :: Advertises(highest, replies, i)
    ensures ReplyChain(highest, replies, n) <==> n == k + 1 && replies[k].Some?
  {
  }

  lemma ChainOverruns(highest: nat, replies: Replies, k: nat, found: Option<Support>)
    requires k < |replies| && Advertises(highest, replies, k)
    requires found.Some? ==> |found.value.pages| > k + 1
    ensures Decided(highest, replies, k + 1, found)
  {
  }

  /** What discovery finds from page `k` on, after the replies before it. */
  function FoundFrom(w: Wire, highest: nat, replies: Replies, k: nat): Option<Support>
    requires k <= |replies| && k < 8
  {
    Discover(w, highest, 32 * k, SupportOf(replies, k)).1
  }

  lemma FoundStep(w: Wire, highest: nat, replies: Replies, k: nat, w': Wire)
    requires k < |replies| && Replying(w, replies, k) && w' == Exchanged(w, SupportPage(32 * k)).0
    requires Advertises(highest, replies, k)
    ensures k + 1 < 8 && Replying(w', replies, k + 1)
    ensures FoundFrom(w, highest, replies, k) == FoundFrom(w', highest, replies, k + 1)
  {
    ReplyStep(w, highest, replies, k);
  }

  lemma FoundEnd(w: Wire, highest: nat, replies: Replies, k: nat, n: nat)
    requires k < n <= |replies| && Replying(w, replies, k) && !Advertises(highest, replies, k)
    requires forall i | 0 <= i < k :: Advertises(highest, replies, i)
    ensures Decided(highest, replies, n, FoundFrom(w, highest, replies, k))
  {
    ReplyStep(w, highest, replies, k);
    ChainStops(highest, replies, k, n);
  }

  lemma FoundMore(w: Wire, highest: nat, replies: Replies, k: nat)
    requires 1 <= k <= |replies| && k < 8 && Advertises(highest, replies, k - 1)
    ensures Decided(highest, replies, k, FoundFrom(w, highest, replies, k))
  {
    DiscoveryGrows(w, highest, 32 * k, SupportOf(replies, k));
    ChainOverruns(highest, replies, k - 1, FoundFrom(w, highest, replies, k));
  }

  lemma {:induction false} RepliesDecide(w: Wire, highest: nat, replies: Replies, k: nat, n: nat)
    requires k < n <= |replies| && Replying(w, replies, k)
    requires forall i | 0 <= i < k :: Advertises(highest, replies, i)
    ensures Decided(highest, replies, n, FoundFrom(w, highest, replies, k))
    decreases n - k
  {
    if !Advertises(highest, replies, k) {
      FoundEnd(w, highest, replies, k, n);
    } else {
      var w' := Exchanged(w, SupportPage(32 * k)).0;
      FoundStep(w, highest, replies, k, w');
      if k + 1 < n {
        RepliesDecide(w', highest, replies, k + 1, n);
      } else {
        FoundMore(w', highest, replies, k + 1);
      }
    }
  }

  /** Discovery finds `n` pages exactly when the first `n` replies are a maximal
      advertised chain, and then it finds exactly those pages. */
  lemma DiscoveryIsChain(w: Wire, highest: nat, replies: Replies, n: nat)
    requires 1 <= n <= |replies| && Replying(w, replies, 0)
    ensures var found := Discover(w, highest, 0, NoSupport).1;
            (found.Some? && |found.value.pages| == n <==> ReplyChain(highest, replies, n)) &&
            (ReplyChain(highest, replies, n) ==> found == Some(SupportOf(replies, n)))
  {
    RepliesDecide(w, highest, replies, 0, n);
  }

  lemma {:induction false} PagesOfReplies(replies: Replies, n: nat, i: nat)
    requires i < n <= |replies| && replies[i].Some?
    ensures SupportOf(replies, n).pages[i] == Merge(replies[i].value)
  {
    var before := SupportOf(replies, n - 1).pages;
    assert SupportOf(replies, n).pages[..n - 1] == before;
    if i < n - 1 {
      PagesOfReplies(replies, n - 1, i);
      assert SupportOf(replies, n).pages[i] == before[i];
    }
  }

  lemma NothingBuilt()
    ensures Built(NoSupport)
  {
  }

  lemma {:induction false} RepliesBuild(replies: Replies, n: nat)
    requires n <= |replies| && forall i | 0 <= i < n :: replies[i].Some?
    ensures Built(SupportOf(replies, n))
  {
    if n == 0 {
      NothingBuilt();
    } else {
      RepliesBuild(replies, n - 1);
      AddPageKeepsBuilt(SupportOf(replies, n - 1), replies[n - 1].value);
    }
  }

  lemma ChainIsMaximal(highest: nat, replies: Replies, n: nat)
    requires ReplyChain(highest, replies, n)
    ensures MaximalChain(highest, SupportOf(replies, n))
  {
    var s := SupportOf(replies, n);
    forall i | 0 <= i < n - 1 ensures NextPage(highest, 32 * i, s.pages[i]) == Some(32 * (i + 1)) {
      assert Advertises(highest, replies, i);
      PagesOfReplies(replies, n, i);
    }
    PagesOfReplies(replies, n, n - 1);
  }

  lemma ChainMeans(highest: nat, replies: Replies, n: nat)
    requires ReplyChain(highest, replies, n)
    ensures forall i | 0 <= i < n :: replies[i].Some?
    ensures Built(SupportOf(replies, n)) && MaximalChain(highest, SupportOf(replies, n))
  {
    forall i | 0 <= i < n ensures replies[i].Some? {
      assert i < n - 1 ==> Advertises(highest, replies, i);
    }
    RepliesBuild(replies, n);
    ChainIsMaximal(highest, replies, n);
  }
}
