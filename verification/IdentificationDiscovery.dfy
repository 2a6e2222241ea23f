/**
 * The bounded identification discovery: every candidate of the plan, for every
 * eligible mapping in sorted order, until the session becomes unavailable.
 */
module IdentificationDiscovery {
  import opened Prelude
  import opened Ordering
  import opened IsoTp
  import opened Identification

  /** What the session answers to one read. */
  datatype ReadReply = Answered(responses: Responses) | Failed(fatal: bool, timeout: bool)

  function IsEligible(): Mapping -> bool {
    (m: Mapping) => m.confident && m.address.Some? && m.responder.Some?
  }

  function Rank(): Mapping -> seq<int> { (m: Mapping) => m.rank }

  function EligibleMappings(mappings: seq<Mapping>): seq<Mapping> {
    Sort(Filter(mappings, IsEligible()), Rank())
  }

  /** The result: observations with the number of reads issued, or the error of
      an observation that does not satisfy its own validation. */
  datatype Discovery = Done(observations: seq<Observation>, issued: nat) | InvalidObservation

  type Pair = (Mapping, Candidate)

  function Row(m: Mapping, plan: seq<Candidate>): (row: seq<Pair>)
    ensures |row| == |plan| && forall i | 0 <= i < |plan| :: row[i] == (m, plan[i])
  {
    seq(|plan|, i requires 0 <= i < |plan| => (m, plan[i]))
  }

  /** Eligible mappings times plan candidates, in that order. */
  function Pairs(mappings: seq<Mapping>, plan: seq<Candidate>): seq<Pair> {
    if mappings == [] then []
    else Pairs(mappings[..|mappings| - 1], plan) + Row(mappings[|mappings| - 1], plan)
  }

  /** A session without further replies is closed, which is fatal. */
  function ReplyAt(replies: seq<ReadReply>, i: nat): ReadReply {
    if i < |replies| then replies[i] else Failed(true, false)
  }

  predicate FatalAt(replies: seq<ReadReply>, i: nat) {
    ReplyAt(replies, i).Failed? && ReplyAt(replies, i).fatal
  }

  predicate FatalBefore(replies: seq<ReadReply>, n: nat) {
    exists i | 0 <= i < n :: FatalAt(replies, i)
  }

  function Skipped(m: Mapping, c: Candidate): Observation {
    Observation(m, c, NotProbed, [], None, None, [Aborted])
  }

  function FailedRead(m: Mapping, c: Candidate, timeout: bool): Observation {
    Observation(m, c, if timeout then Timeout else TransportError, [], None, None, [Note.Transport(timeout)])
  }

  /** The observation of the i-th pair. */
  function ExpectedAt(pair: Pair, replies: seq<ReadReply>, i: nat): Observation
    requires pair.0.responder.Some?
  {
    if FatalBefore(replies, i) then Skipped(pair.0, pair.1)
    else match ReplyAt(replies, i)
      case Answered(responses) => Classified(pair.1, pair.0, responses)
      case Failed(_, timeout) => FailedRead(pair.0, pair.1, timeout)
  }

  predicate AllTargeted(pairs: seq<Pair>) {
    forall i | 0 <= i < |pairs| :: pairs[i].0.responder.Some?
  }

  function Expected(pairs: seq<Pair>, replies: seq<ReadReply>): (os: seq<Observation>)
    requires AllTargeted(pairs)
    ensures |os| == |pairs| && forall i | 0 <= i < |os| :: os[i] == ExpectedAt(pairs[i], replies, i)
  {
    seq(|pairs|, i requires 0 <= i < |pairs| => ExpectedAt(pairs[i], replies, i))
  }

  /** Reads issued for the first `n` pairs: up to and including the first fatal
      failure. */
  function ReadsIssued(replies: seq<ReadReply>, n: nat): nat {
    if n == 0 then 0
    else ReadsIssued(replies, n - 1) + if FatalBefore(replies, n - 1) then 0 else 1
  }

  /** Sorted, nothing but the eligible mappings, and each of them as often as given. */
  lemma EligibleMappingsExactly(mappings: seq<Mapping>)
    ensures SortedBy(EligibleMappings(mappings), Rank())
    ensures forall m :: multiset(EligibleMappings(mappings))[m] ==
              if m.confident && m.address.Some? && m.responder.Some? then multiset(mappings)[m] else 0
  {
    SortSorts(Filter(mappings, IsEligible()), Rank());
    SortPermutes(Filter(mappings, IsEligible()), Rank());
    forall m ensures multiset(Filter(mappings, IsEligible()))[m] == if IsEligible()(m) then multiset(mappings)[m] else 0 {
      FilterCounts(mappings, IsEligible(), m);
    }
  }

  lemma EligibleMappingsAreTargeted(mappings: seq<Mapping>)
    ensures forall m <- EligibleMappings(mappings) :: IsEligible()(m)
  {
    EligibleMappingsExactly(mappings);
    forall m <- EligibleMappings(mappings) ensures IsEligible()(m) {
      assert multiset(EligibleMappings(mappings))[m] > 0;
    }
  }

  lemma {:induction false} PairCount(mappings: seq<Mapping>, plan: seq<Candidate>)
    ensures |Pairs(mappings, plan)| == |mappings| * |plan|
  {
    if mappings != [] {
      PairCount(mappings[..|mappings| - 1], plan);
      Distribute(|mappings| - 1, |plan|);
    }
  }

  lemma Distribute(a: nat, b: nat)
    ensures (a + 1) * b == a * b + b
  {
  }

  lemma {:induction false} RowsFit(i: nat, n: nat, p: nat)
    requires i < n
    ensures i * p + p <= n * p
    decreases n
  {
    Distribute(n - 1, p);
    if i < n - 1 {
      RowsFit(i, n - 1, p);
    }
  }

  /** The entries are exactly mappings times candidates, row by row. */
  lemma {:induction false} PairAt(mappings: seq<Mapping>, plan: seq<Candidate>, i: nat, j: nat)
    requires i < |mappings| && j < |plan|
    ensures |Pairs(mappings, plan)| == |mappings| * |plan|
    ensures i * |plan| + j < |mappings| * |plan|
    ensures Pairs(mappings, plan)[i * |plan| + j] == (mappings[i], plan[j])
    decreases |mappings|
  {
    var n := |mappings| - 1;
    PairCount(mappings, plan);
    PairCount(mappings[..n], plan);
    RowsFit(i, |mappings|, |plan|);
    if i < n {
      PairAt(mappings[..n], plan, i, j);
    }
  }

  lemma {:induction false} PairsAreTargeted(mappings: seq<Mapping>, plan: seq<Candidate>)
    requires forall i | 0 <= i < |mappings| :: mappings[i].responder.Some?
    ensures AllTargeted(Pairs(mappings, plan))
  {
    if mappings != [] {
      PairsAreTargeted(mappings[..|mappings| - 1], plan);
    }
  }

  /** One entry: skipped once the session is unavailable, otherwise one read. */
  method Probe(mapping: Mapping, candidate: Candidate, replies: seq<ReadReply>, at: nat, sessionUnavailable: bool)
    returns (observation: Observation, unavailable: bool)
    requires mapping.responder.Some? && sessionUnavailable == FatalBefore(replies, at)
    ensures observation == ExpectedAt((mapping, candidate), replies, at)
    ensures unavailable == FatalBefore(replies, at + 1)
  {
    if sessionUnavailable {
      return Skipped(mapping, candidate), true;
    }
    unavailable := false;
    match ReplyAt(replies, at) {
      case Answered(responses) =>
        observation := Classify(candidate, mapping, responses);
      case Failed(fatal, timeout) =>
        observation := FailedRead(mapping, candidate, timeout);
        unavailable := fatal;
    }
    assert FatalBefore(replies, at + 1) <==> FatalBefore(replies, at) || FatalAt(replies, at);
  }

  lemma ExpectedMore(pairs: seq<Pair>, replies: seq<ReadReply>, n: nat, observations: seq<Observation>, o: Observation)
    requires AllTargeted(pairs) && n < |pairs| && observations == Expected(pairs[..n], replies)
    requires o == ExpectedAt(pairs[n], replies, n)
    ensures observations + [o] == Expected(pairs[..n + 1], replies)
  {
  }

  predicate AllValid(observations: seq<Observation>) {
    forall i | 0 <= i < |observations| :: Valid(observations[i])
  }

  /** The state of the loops after the first pairs. */
  ghost predicate Reached(pairs: seq<Pair>, replies: seq<ReadReply>, observations: seq<Observation>,
                          unavailable: bool, issued: nat)
  {
    AllTargeted(pairs) && |observations| <= |pairs|
    && observations == Expected(pairs[..|observations|], replies) && AllValid(observations)
    && unavailable == FatalBefore(replies, |observations|) && issued == ReadsIssued(replies, |observations|)
  }

  lemma ReachedMore(pairs: seq<Pair>, replies: seq<ReadReply>, observations: seq<Observation>,
                    unavailable: bool, issued: nat, o: Observation, unavailable': bool)
    requires Reached(pairs, replies, observations, unavailable, issued) && |observations| < |pairs|
    requires o == ExpectedAt(pairs[|observations|], replies, |observations|)
    requires unavailable' == FatalBefore(replies, |observations| + 1)
    ensures Valid(o) ==> Reached(pairs, replies, observations + [o], unavailable',
                                 issued + if unavailable then 0 else 1)
    ensures !Valid(o) ==> !AllValid(Expected(pairs, replies))
  {
    ExpectedMore(pairs, replies, |observations|, observations, o);
    assert Expected(pairs, replies)[|observations|] == o;
  }

  /** The pairs of one mapping, from position `at` on. */
  predicate RowAt(pairs: seq<Pair>, at: nat, mapping: Mapping, plan: seq<Candidate>) {
    at + |plan| <= |pairs| && forall k | 0 <= k < |plan| :: pairs[at + k] == (mapping, plan[k])
  }

  /** The inner loop: all candidates for one mapping. */
  method ProbeMapping(mapping: Mapping, plan: seq<Candidate>, replies: seq<ReadReply>, ghost pairs: seq<Pair>,
                      observations0: seq<Observation>, unavailable0: bool, issued0: nat)
    returns (observations: seq<Observation>, unavailable: bool, issued: nat, ok: bool)
    requires mapping.responder.Some? && Reached(pairs, replies, observations0, unavailable0, issued0)
    requires RowAt(pairs, |observations0|, mapping, plan)
    ensures ok ==> Reached(pairs, replies, observations, unavailable, issued)
                   && |observations| == |observations0| + |plan|
    ensures !ok ==> IsDiscovery(InvalidObservation, pairs, replies)
  {
    observations, unavailable, issued, ok := observations0, unavailable0, issued0, true;
    for k := 0 to |plan|
      invariant |observations| == |observations0| + k
      invariant Reached(pairs, replies, observations, unavailable, issued)
    {
      var observation, unavailable' := Probe(mapping, plan[k], replies, |observations|, unavailable);
      ReachedMore(pairs, replies, observations, unavailable, issued, observation, unavailable');
      if !Valid(observation) {
        ok := false;
        return;
      }
      observations := observations + [observation];
      issued := issued + if unavailable then 0 else 1;
      unavailable := unavailable';
    }
  }

  lemma ReachedAtStart(pairs: seq<Pair>, replies: seq<ReadReply>)
    requires AllTargeted(pairs)
    ensures Reached(pairs, replies, [], false, 0)
  {
  }

  /** What a discovery over these pairs returns. */
  ghost predicate IsDiscovery(r: Discovery, pairs: seq<Pair>, replies: seq<ReadReply>) {
    AllTargeted(pairs) &&
    match r
    case Done(observations, issued) =>
      observations == Expected(pairs, replies) && issued == ReadsIssued(replies, |pairs|) && AllValid(observations)
    case InvalidObservation => !AllValid(Expected(pairs, replies))
  }

  lemma ReachedAtEnd(pairs: seq<Pair>, replies: seq<ReadReply>, observations: seq<Observation>,
                     unavailable: bool, issued: nat)
    requires Reached(pairs, replies, observations, unavailable, issued) && |observations| == |pairs|
    ensures IsDiscovery(Done(observations, issued), pairs, replies)
  {
    assert pairs[..|pairs|] == pairs;
  }

  /** The outer loop over the eligible mappings. */
  method ProbeAll(plan: seq<Candidate>, eligible: seq<Mapping>, replies: seq<ReadReply>) returns (r: Discovery)
    requires forall i | 0 <= i < |eligible| :: eligible[i].responder.Some?
    ensures IsDiscovery(r, Pairs(eligible, plan), replies)
  {
    PairsAreTargeted(eligible, plan);
    ghost var pairs := Pairs(eligible, plan);
    var observations, sessionUnavailable, issued := [], false, 0;
    ReachedAtStart(pairs, replies);
    for n := 0 to |eligible|
      invariant |observations| == |Pairs(eligible[..n], plan)|
      invariant Reached(pairs, replies, observations, sessionUnavailable, issued)
    {
      RowOf(eligible, plan, n);
      var ok;
      observations, sessionUnavailable, issued, ok :=
        ProbeMapping(eligible[n], plan, replies, pairs, observations, sessionUnavailable, issued);
      if !ok {
        return InvalidObservation;
      }
    }
    assert eligible[..|eligible|] == eligible;
    ReachedAtEnd(pairs, replies, observations, sessionUnavailable, issued);
    r := Done(observations, issued);
  }

  /** The discovery: exactly the expected observations for all pairs, in order,
      every one of them satisfying its validation, with reading stopped at the
      first fatal failure; or an error when some observation would be invalid. */
  method DiscoverKnownEcus(plan: seq<Candidate>, mappings: seq<Mapping>, replies: seq<ReadReply>)
    returns (r: Discovery)
    ensures IsDiscovery(r, Pairs(EligibleMappings(mappings), plan), replies)
  {
    EligibleMappingsAreTargeted(mappings);
    forall i | 0 <= i < |EligibleMappings(mappings)| ensures EligibleMappings(mappings)[i].responder.Some? {
      assert EligibleMappings(mappings)[i] in EligibleMappings(mappings);
    }
    r := ProbeAll(plan, EligibleMappings(mappings), replies);
  }

  lemma {:induction false} PairsPrefix(mappings: seq<Mapping>, plan: seq<Candidate>, n: nat)
    requires n <= |mappings|
    ensures Pairs(mappings[..n], plan) <= Pairs(mappings, plan)
    decreases |mappings| - n
  {
    if n == |mappings| {
      assert mappings[..n] == mappings;
    } else {
      PairsPrefix(mappings, plan, n + 1);
      assert mappings[..n + 1][..n] == mappings[..n];
    }
  }

  lemma RowOf(mappings: seq<Mapping>, plan: seq<Candidate>, n: nat)
    requires n < |mappings|
    ensures var before, all := |Pairs(mappings[..n], plan)|, Pairs(mappings, plan);
            |Pairs(mappings[..n + 1], plan)| == before + |plan| && RowAt(all, before, mappings[n], plan)
  {
    PairsPrefix(mappings, plan, n + 1);
    var upTo := Pairs(mappings[..n + 1], plan);
    var done := Pairs(mappings[..n], plan);
    assert mappings[..n + 1][..n] == mappings[..n];
    assert upTo == done + Row(mappings[n], plan);
    forall k | 0 <= k < |plan| ensures Pairs(mappings, plan)[|done| + k] == (mappings[n], plan[k]) {
      assert Pairs(mappings, plan)[|done| + k] == upTo[|done| + k];
    }
  }

  /** A pair whose evidence can be recorded at all. */
  predicate Recordable(pair: Pair) {
    pair.1.metadataComplete && pair.1.did != 0xF190 && pair.0.contextsAgree && pair.0.address.Some?
  }

  /** Whatever the session answers, the discovery succeeds exactly when every pair
      is recordable: no classified, failed or skipped entry breaks its own rules. */
  lemma SucceedsIffRecordable(r: Discovery, pairs: seq<Pair>, replies: seq<ReadReply>)
    requires IsDiscovery(r, pairs, replies)
    ensures r.Done? <==> forall i | 0 <= i < |pairs| :: Recordable(pairs[i])
  {
    forall i | 0 <= i < |pairs| ensures Valid(Expected(pairs, replies)[i]) <==> Recordable(pairs[i]) {
      EntryIsConsistent(pairs[i], replies, i);
    }
  }

  lemma EntryIsConsistent(pair: Pair, replies: seq<ReadReply>, i: nat)
    requires pair.0.responder.Some?
    ensures var o := ExpectedAt(pair, replies, i);
            StatusConsistent(o) && o.mapping == pair.0 && o.candidate == pair.1
  {
  }

  /** The shape of a successful discovery: after the first fatal failure every
      entry is `NotProbed` and nothing more is read; before it nothing is. */
  lemma DiscoveryShape(pairs: seq<Pair>, replies: seq<ReadReply>, stop: nat)
    requires AllTargeted(pairs) && stop <= |pairs|
    requires !FatalBefore(replies, stop) && (stop < |pairs| ==> FatalAt(replies, stop))
    ensures forall i | 0 <= i < |pairs| :: Expected(pairs, replies)[i].status == NotProbed <==> i > stop
    ensures ReadsIssued(replies, |pairs|) == if stop < |pairs| then stop + 1 else stop
    ensures forall i | 0 <= i < |pairs| :: StatusConsistent(Expected(pairs, replies)[i])
  {
    CountReads(replies, stop, |pairs|);
    forall i | 0 <= i < |pairs|
      ensures Expected(pairs, replies)[i].status == NotProbed <==> i > stop
    {
      assert FatalBefore(replies, i) <==> i > stop by {
        if i > stop {
          assert FatalAt(replies, stop);
        }
      }
    }
  }

  lemma {:induction false} CountReads(replies: seq<ReadReply>, stop: nat, n: nat)
    requires !FatalBefore(replies, stop) && (stop < n ==> FatalAt(replies, stop))
    ensures ReadsIssued(replies, n) == if stop < n then stop + 1 else n
  {
    if n > 0 {
      CountReads(replies, stop, n - 1);
      if stop < n - 1 {
        assert FatalAt(replies, stop);
      }
    }
  }

  /** The entry of one pair: skipped if an earlier read failed fatally; otherwise the
      classified answer, or a failure that is a timeout or a transport error. */
  lemma EntryMeans(pairs: seq<Pair>, replies: seq<ReadReply>, i: nat)
    requires AllTargeted(pairs) && i < |pairs|
    ensures var o, earlier := Expected(pairs, replies)[i],
                              exists j | 0 <= j < i :: j >= |replies| || (replies[j].Failed? && replies[j].fatal);
            o.mapping == pairs[i].0 && o.candidate == pairs[i].1 &&
            if earlier then o.status == NotProbed && o.responses == [] && o.nrc.None? && o.value.None? && o.notes == [Aborted]
            else if i < |replies| && replies[i].Answered? then o == Classified(pairs[i].1, pairs[i].0, replies[i].responses)
            else
              var timeout := i < |replies| && replies[i].timeout;
              o.status == (if timeout then Timeout else TransportError)
              && o.responses == [] && o.nrc.None? && o.value.None? && o.notes == [Note.Transport(timeout)]
  {
    assert forall j: nat | j < i :: FatalAt(replies, j) <==> j >= |replies| || (replies[j].Failed? && replies[j].fatal);
  }
}
