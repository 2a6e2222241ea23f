/**
 * The capture timeline and the capture replay: two readers of the same event
 * list. The timeline re-times response evidence when the read that caused it
 * completes; both order what they collect and answer questions by binary search.
 */
module Timeline {
  import opened Prelude
  import opened Ordering

  /** What the current catalog makes of a recorded read. */
  datatype Verdict = UnsupportedSemantic | RequestChanged | DecodeFailed | Decoded(changed: bool)

  datatype CaptureEvent =
    | CaptureStarted
    | KnowledgeContext
    | Plain                                  // shown at the current clock
    | ResponsesObserved(offset: Option<nat>)
    | ReadSucceeded(semantic: string, finished: nat, verdict: Verdict)
    | ReadFailed(timing: Option<nat>)
    | SlotsSkipped(lastDue: nat)
    | SessionStopped(stopped: nat)

  /** Something shown or stored at a time, with the event it comes from. */
  datatype Item = Item(at: nat, source: nat)

  function Max(a: nat, b: nat): nat { if a > b then a else b }

  // ---------------------------------------------------------------------
  // When things happen
  // ---------------------------------------------------------------------

  /** The time an event advances the clock to, if any; a stop does not. */
  function Advance(e: CaptureEvent): nat {
    match e
    case ResponsesObserved(Some(offset)) => offset
    case ReadSucceeded(_, finished, _) => finished
    case ReadFailed(Some(finished)) => finished
    case SlotsSkipped(lastDue) => lastDue
    case _ => 0
  }

  function Clock(events: seq<CaptureEvent>, n: nat): nat
    requires n <= |events|
  {
    if n == 0 then 0 else Max(Clock(events, n - 1), Advance(events[n - 1]))
  }

  /** The capture's duration includes the recorded stop. */
  function Duration(events: seq<CaptureEvent>, n: nat): nat
    requires n <= |events|
  {
    if n == 0 then 0
    else Max(Duration(events, n - 1),
             if events[n - 1].SessionStopped? then events[n - 1].stopped else Advance(events[n - 1]))
  }

  predicate IsRead(e: CaptureEvent) { e.ReadSucceeded? || e.ReadFailed? }

  /** When event `k` was observed. */
  function ObservedAt(events: seq<CaptureEvent>, k: nat): nat
    requires k < |events|
  {
    match events[k]
    case CaptureStarted => 0
    case ResponsesObserved(Some(offset)) => offset
    case ReadSucceeded(_, finished, _) => finished
    case ReadFailed(Some(finished)) => finished
    case SlotsSkipped(lastDue) => lastDue
    case SessionStopped(stopped) => stopped
    case _ => Clock(events, k)
  }

  /** The first read after `k` among the first `n` events. */
  function NextRead(events: seq<CaptureEvent>, k: nat, n: nat): Option<nat>
    requires k < n <= |events|
    decreases n
  {
    if n == k + 1 then None
    else match NextRead(events, k, n - 1)
      case Some(m) => Some(m)
      case None => if IsRead(events[n - 1]) then Some(n - 1) else None
  }

  /** Where the timeline shows event `k` once it has seen `n` events: responses
      move to the completion of the next read. */
  function ShownAt(events: seq<CaptureEvent>, k: nat, n: nat): nat
    requires k < n <= |events|
  {
    if events[k].ResponsesObserved? && NextRead(events, k, n).Some?
    then (NextReadInRange(events, k, n); ObservedAt(events, NextRead(events, k, n).value))
    else ObservedAt(events, k)
  }

  lemma {:induction false} NextReadInRange(events: seq<CaptureEvent>, k: nat, n: nat)
    requires k < n <= |events|
    ensures var m := NextRead(events, k, n); m.Some? ==> k < m.value < n && IsRead(events[m.value])
    decreases n
  {
    if n > k + 1 {
      NextReadInRange(events, k, n - 1);
    }
  }

  lemma {:induction false} WithinDuration(events: seq<CaptureEvent>, k: nat, n: nat)
    requires k < n <= |events|
    ensures ObservedAt(events, k) <= Duration(events, n)
    decreases n
  {
    ClockWithinDuration(events, k);
    if n > k + 1 {
      WithinDuration(events, k, n - 1);
    }
  }

  lemma {:induction false} ClockWithinDuration(events: seq<CaptureEvent>, n: nat)
    requires n <= |events|
    ensures Clock(events, n) <= Duration(events, n)
  {
    if n > 0 {
      ClockWithinDuration(events, n - 1);
    }
  }

  /** Everything the timeline shows lies within the capture, re-timed or not. */
  lemma ShownWithinDuration(events: seq<CaptureEvent>, k: nat, n: nat)
    requires k < n <= |events|
    ensures ShownAt(events, k, n) <= Duration(events, n)
  {
    WithinDuration(events, k, n);
    NextReadInRange(events, k, n);
    var m := NextRead(events, k, n);
    if m.Some? {
      WithinDuration(events, m.value, n);
    }
  }

  /** Event `m` is the first read after `k`, successful or not. */
  predicate FirstReadAfter(events: seq<CaptureEvent>, k: nat, m: nat)
    requires m < |events|
  {
    k < m && (events[m].ReadSucceeded? || events[m].ReadFailed?)
    && forall j | k < j < m :: !events[j].ReadSucceeded? && !events[j].ReadFailed?
  }

  lemma {:induction false} NextReadIsFirst(events: seq<CaptureEvent>, k: nat, n: nat)
    requires k < n <= |events|
    ensures var m := NextRead(events, k, n);
            if m.Some? then m.value < n && FirstReadAfter(events, k, m.value)
            else forall j | k < j < n :: !events[j].ReadSucceeded? && !events[j].ReadFailed?
    decreases n
  {
    if n > k + 1 {
      NextReadIsFirst(events, k, n - 1);
    }
  }

  /** A response moves to the time of the first read after it, successful or failed,
      and stays at its own time while there is none. */
  lemma ResponseMoves(events: seq<CaptureEvent>, k: nat, n: nat)
    requires k < n <= |events| && events[k].ResponsesObserved?
    ensures forall m | k < m < n && FirstReadAfter(events, k, m) ::
              ShownAt(events, k, n) ==
              if events[m].ReadSucceeded? then events[m].finished
              else if events[m].timing.Some? then events[m].timing.value else Clock(events, m)
    ensures (forall m | k < m < n :: !FirstReadAfter(events, k, m)) ==>
              ShownAt(events, k, n) == if events[k].offset.Some? then events[k].offset.value else Clock(events, k)
  {
    NextReadIsFirst(events, k, n);
    NextReadInRange(events, k, n);
    var next := NextRead(events, k, n);
    forall m | k < m < n && FirstReadAfter(events, k, m) ensures next == Some(m) {
      assert next.Some? ==> !(m < next.value) && !(next.value < m);
    }
  }

  /** Everything else stays where it was observed: at its recorded time if it has
      one, and at the clock otherwise. */
  lemma OthersStay(events: seq<CaptureEvent>, k: nat, n: nat)
    requires k < n <= |events| && !events[k].ResponsesObserved?
    ensures ShownAt(events, k, n) ==
            match events[k]
            case CaptureStarted => 0
            case ReadSucceeded(_, finished, _) => finished
            case ReadFailed(timing) => if timing.Some? then timing.value else Clock(events, k)
            case SlotsSkipped(lastDue) => lastDue
            case SessionStopped(stopped) => stopped
            case _ => Clock(events, k)
  {
  }

  /** Events with a recorded time: the clock follows all of them but the stop. */
  function RecordedTime(e: CaptureEvent): Option<nat> {
    match e
    case ResponsesObserved(offset) => offset
    case ReadSucceeded(_, finished, _) => Some(finished)
    case ReadFailed(timing) => timing
    case SlotsSkipped(lastDue) => Some(lastDue)
    case SessionStopped(stopped) => Some(stopped)
    case _ => None
  }

  ghost predicate IsLatest(events: seq<CaptureEvent>, n: nat, stops: bool, t: nat)
    requires n <= |events|
  {
    (forall k | 0 <= k < n && RecordedTime(events[k]).Some? && (stops || !events[k].SessionStopped?) ::
       RecordedTime(events[k]).value <= t)
    && (t == 0 || exists k | 0 <= k < n ::
          RecordedTime(events[k]) == Some(t) && (stops || !events[k].SessionStopped?))
  }

  /** The clock is the latest recorded time before a stop, the duration the latest of
      all. */
  lemma {:induction false} TimesAreLatest(events: seq<CaptureEvent>, n: nat)
    requires n <= |events|
    ensures IsLatest(events, n, false, Clock(events, n)) && IsLatest(events, n, true, Duration(events, n))
  {
    if n > 0 {
      TimesAreLatest(events, n - 1);
    }
  }

  // ---------------------------------------------------------------------
  // What the timeline holds
  // ---------------------------------------------------------------------

  /** Evidence after `n` events, in the order of the events. */
  function EvidenceOf(events: seq<CaptureEvent>, shown: nat, n: nat): seq<Item>
    requires shown <= n <= |events|
  {
    if shown == 0 then []
    else
      EvidenceOf(events, shown - 1, n) +
      if events[shown - 1].KnowledgeContext? then []
      else [Item(ShownAt(events, shown - 1, n), shown - 1)]
  }

  /** The successful reads of a semantic, in the order of the events. */
  function SamplesOf(events: seq<CaptureEvent>, semantic: string, n: nat): seq<Item>
    requires n <= |events|
  {
    if n == 0 then []
    else
      SamplesOf(events, semantic, n - 1) +
      if events[n - 1].ReadSucceeded? && events[n - 1].semantic == semantic
      then [Item(events[n - 1].finished, n - 1)] else []
  }

  function ByTime(): Item -> seq<int> { (i: Item) => [i.at] }

  predicate Ordered(items: seq<Item>) {
    forall i, j | 0 <= i < j < |items| :: items[i].at <= items[j].at
  }

  lemma SortOrders(items: seq<Item>)
    ensures Ordered(Sort(items, ByTime())) && multiset(Sort(items, ByTime())) == multiset(items)
  {
    SortSorts(items, ByTime());
    SortPermutes(items, ByTime());
    var sorted := Sort(items, ByTime());
    forall i, j | 0 <= i < j < |sorted| ensures sorted[i].at <= sorted[j].at {
      assert LexLeq(ByTime()(sorted[i]), ByTime()(sorted[j]));
    }
  }

  lemma {:induction false} EvidenceTimes(events: seq<CaptureEvent>, shown: nat, n: nat)
    requires shown <= n <= |events|
    ensures forall e <- EvidenceOf(events, shown, n) ::
              e.source < shown && !events[e.source].KnowledgeContext? && e.at == ShownAt(events, e.source, n)
  {
    if shown > 0 {
      EvidenceTimes(events, shown - 1, n);
    }
  }

  function From(k: nat): Item -> bool { (i: Item) => i.source == k }

  function ItemOf(e: CaptureEvent, at: nat, n: nat): seq<Item> {
    if e.KnowledgeContext? then [] else [Item(at, n)]
  }

  lemma FilterItem(e: CaptureEvent, at: nat, n: nat, k: nat)
    ensures Filter(ItemOf(e, at, n), From(k)) == if n == k then ItemOf(e, at, k) else []
  {
    var items := ItemOf(e, at, n);
    assert items != [] ==> items[1..] == [] && items == [items[0]];
  }

  lemma EvidenceMore(events: seq<CaptureEvent>, shown: nat, n: nat)
    requires shown < n <= |events|
    ensures EvidenceOf(events, shown + 1, n) ==
            EvidenceOf(events, shown, n) + ItemOf(events[shown], ShownAt(events, shown, n), shown)
  {
  }

  lemma OwnEvidenceMore(events: seq<CaptureEvent>, k: nat, shown: nat, n: nat)
    requires shown < n <= |events|
    ensures Filter(EvidenceOf(events, shown + 1, n), From(k)) ==
            Filter(EvidenceOf(events, shown, n), From(k))
            + if shown == k then ItemOf(events[k], ShownAt(events, k, n), k) else []
  {
    var at := ShownAt(events, shown, n);
    EvidenceMore(events, shown, n);
    FilterAppend(EvidenceOf(events, shown, n), ItemOf(events[shown], at, shown), From(k));
    FilterItem(events[shown], at, shown, k);
  }

  /** Every event but a knowledge context is shown, once. */
  lemma {:induction false} EveryEventShown(events: seq<CaptureEvent>, k: nat, shown: nat, n: nat)
    requires shown <= n <= |events|
    ensures Filter(EvidenceOf(events, shown, n), From(k)) ==
            if k < shown && !events[k].KnowledgeContext? then [Item(ShownAt(events, k, n), k)] else []
    decreases shown
  {
    if shown > 0 {
      EveryEventShown(events, k, shown - 1, n);
      OwnEvidenceMore(events, k, shown - 1, n);
    }
  }

  function SampleOf(e: CaptureEvent, semantic: string, n: nat): seq<Item> {
    if e.ReadSucceeded? && e.semantic == semantic then [Item(e.finished, n)] else []
  }

  lemma FilterSample(e: CaptureEvent, semantic: string, n: nat, k: nat)
    ensures Filter(SampleOf(e, semantic, n), From(k)) == if n == k then SampleOf(e, semantic, k) else []
  {
    var samples := SampleOf(e, semantic, n);
    assert samples != [] ==> samples[1..] == [] && samples == [samples[0]];
  }

  lemma SamplesMore(events: seq<CaptureEvent>, semantic: string, n: nat)
    requires n < |events|
    ensures SamplesOf(events, semantic, n + 1) == SamplesOf(events, semantic, n) + SampleOf(events[n], semantic, n)
  {
  }

  lemma OwnSamplesMore(events: seq<CaptureEvent>, semantic: string, k: nat, n: nat)
    requires n < |events|
    ensures Filter(SamplesOf(events, semantic, n + 1), From(k)) ==
            Filter(SamplesOf(events, semantic, n), From(k)) + if n == k then SampleOf(events[k], semantic, k) else []
  {
    SamplesMore(events, semantic, n);
    FilterAppend(SamplesOf(events, semantic, n), SampleOf(events[n], semantic, n), From(k));
    FilterSample(events[n], semantic, n, k);
  }

  /** Every successful read of a semantic is one of its samples, and nothing else. */
  lemma {:induction false} EveryReadSampled(events: seq<CaptureEvent>, semantic: string, k: nat, n: nat)
    requires n <= |events|
    ensures Filter(SamplesOf(events, semantic, n), From(k)) ==
            if k < n && events[k].ReadSucceeded? && events[k].semantic == semantic
            then [Item(events[k].finished, k)] else []
    decreases n
  {
    if n > 0 {
      EveryReadSampled(events, semantic, k, n - 1);
      OwnSamplesMore(events, semantic, k, n - 1);
    }
  }

  // ---------------------------------------------------------------------
  // Building the timeline
  // ---------------------------------------------------------------------

  /** Open responses: shown, but no read has completed since. */
  predicate Open(events: seq<CaptureEvent>, k: nat, n: nat)
    requires k < n <= |events|
  {
    events[k].ResponsesObserved? && NextRead(events, k, n).None?
  }

  ghost predicate PendingExactly(events: seq<CaptureEvent>, n: nat, evidence: seq<Item>, pending: seq<nat>)
    requires n <= |events| && forall e <- evidence :: e.source < n
  {
    (forall i | 0 <= i < |pending| :: pending[i] < |evidence|)
    && forall j | 0 <= j < |evidence| :: j in pending <==> Open(events, evidence[j].source, n)
  }

  /** The evidence after a read completed: open responses move to its time. */
  lemma {:induction false} RetimedEvidence(events: seq<CaptureEvent>, shown: nat, n: nat)
    requires shown <= n < |events|
    ensures |EvidenceOf(events, shown, n + 1)| == |EvidenceOf(events, shown, n)|
    ensures forall j | 0 <= j < |EvidenceOf(events, shown, n)| ::
              var e := EvidenceOf(events, shown, n)[j];
              e.source < shown &&
              EvidenceOf(events, shown, n + 1)[j] ==
                Item(if IsRead(events[n]) && Open(events, e.source, n) then ObservedAt(events, n) else e.at, e.source)
  {
    if shown > 0 {
      RetimedEvidence(events, shown - 1, n);
    }
  }

  lemma OpenNext(events: seq<CaptureEvent>, k: nat, n: nat)
    requires k < n < |events|
    ensures Open(events, k, n + 1) <==> Open(events, k, n) && !IsRead(events[n])
  {
  }

  /** The retained part of the evidence after event `n`. */
  ghost predicate Retimed(events: seq<CaptureEvent>, n: nat, before: seq<Item>, pending: seq<nat>, after: seq<Item>)
    requires n < |events|
  {
    |after| == |before| && forall j | 0 <= j < |before| ::
      after[j] == if IsRead(events[n]) && j in pending then Item(ObservedAt(events, n), before[j].source) else before[j]
  }

  lemma RetimedIsEvidence(events: seq<CaptureEvent>, n: nat, before: seq<Item>, pending: seq<nat>, after: seq<Item>)
    requires n < |events| && before == EvidenceOf(events, n, n)
    requires (forall e <- before :: e.source < n) && PendingExactly(events, n, before, pending)
    requires Retimed(events, n, before, pending, after)
    ensures after == EvidenceOf(events, n, n + 1)
  {
    RetimedEvidence(events, n, n);
    forall j | 0 <= j < |after| ensures after[j] == EvidenceOf(events, n, n + 1)[j] {
      assert before[j] == EvidenceOf(events, n, n)[j];
    }
  }

  /** The open responses after event `n`, which was shown as the last item. */
  lemma PendingNext(events: seq<CaptureEvent>, n: nat, before: seq<Item>, pending: seq<nat>,
                    after: seq<Item>, pending': seq<nat>)
    requires n < |events| && (forall e <- before :: e.source < n) && PendingExactly(events, n, before, pending)
    requires |after| == |before| + 1 && after[|before|].source == n
    requires forall j | 0 <= j < |before| :: after[j].source == before[j].source
    requires pending' == if IsRead(events[n]) then []
                         else if events[n].ResponsesObserved? then pending + [|before|] else pending
    ensures (forall e <- after :: e.source < n + 1) && PendingExactly(events, n + 1, after, pending')
  {
    forall j | 0 <= j < |after| ensures after[j].source < n + 1 {
      if j < |before| {
        assert before[j] in before;
      }
    }
    forall j | 0 <= j < |after| ensures j in pending' <==> Open(events, after[j].source, n + 1) {
      if j < |before| {
        assert before[j] in before;
        OpenNext(events, before[j].source, n);
      }
    }
  }

  /** A knowledge context is not shown. */
  lemma PendingKept(events: seq<CaptureEvent>, n: nat, evidence: seq<Item>, pending: seq<nat>)
    requires n < |events| && events[n].KnowledgeContext?
    requires (forall e <- evidence :: e.source < n) && PendingExactly(events, n, evidence, pending)
    ensures PendingExactly(events, n + 1, evidence, pending)
  {
    forall j | 0 <= j < |evidence| ensures j in pending <==> Open(events, evidence[j].source, n + 1) {
      assert evidence[j] in evidence;
      OpenNext(events, evidence[j].source, n);
    }
  }

  class TimelineBuilder {
    var clock: nat
    var duration: nat
    var samples: map<string, seq<Item>>
    var evidence: seq<Item>
    var pending: seq<nat>

    constructor ()
      ensures clock == 0 && duration == 0 && samples == map[] && evidence == [] && pending == []
    {
      clock, duration, samples, evidence, pending := 0, 0, map[], [], [];
    }

    /** Clock and duration after the first `n` events. */
    ghost predicate Counted(events: seq<CaptureEvent>, n: nat)
      requires n <= |events|
      reads this
    {
      clock == Clock(events, n) && duration == Duration(events, n)
    }

    /** Samples after the first `n` events. */
    ghost predicate Sampled(events: seq<CaptureEvent>, n: nat)
      requires n <= |events|
      reads this
    {
      forall s :: (if s in samples then samples[s] else []) == SamplesOf(events, s, n)
    }

    /** Evidence and open responses after the first `n` events. */
    ghost predicate Shown(events: seq<CaptureEvent>, n: nat)
      requires n <= |events|
      reads this
    {
      evidence == EvidenceOf(events, n, n)
      && (forall e <- evidence :: e.source < n)
      && PendingExactly(events, n, evidence, pending)
    }

    method Push(at: nat, source: nat)
      modifies this`evidence
      ensures evidence == old(evidence) + [Item(at, source)]
    {
      evidence := evidence + [Item(at, source)];
    }

    /** Re-times and forgets the open responses. */
    method DrainPending(at: nat)
      requires forall i | 0 <= i < |pending| :: pending[i] < |evidence|
      modifies this`evidence, this`pending
      ensures pending == [] && |evidence| == |old(evidence)|
      ensures forall j | 0 <= j < |evidence| ::
                evidence[j] == if j in old(pending) then Item(at, old(evidence)[j].source) else old(evidence)[j]
    {
      for i := 0 to |pending|
        invariant pending == old(pending) && |evidence| == |old(evidence)|
        invariant forall j | 0 <= j < |evidence| ::
                    evidence[j] == if j in old(pending)[..i] then Item(at, old(evidence)[j].source) else old(evidence)[j]
      {
        evidence := evidence[pending[i] := Item(at, evidence[pending[i]].source)];
      }
      pending := [];
    }

    /** A successful read is stored under its semantic. */
    method Store(events: seq<CaptureEvent>, n: nat)
      requires n < |events| && Sampled(events, n)
      modifies this`samples
      ensures Sampled(events, n + 1)
    {
      match events[n]
      case ReadSucceeded(semantic, finished, _) =>
        var before := if semantic in samples then samples[semantic] else [];
        samples := samples[semantic := before + [Item(finished, n)]];
      case _ =>
    }

    /** The clock never goes back; a stop only extends the duration. */
    method Count(events: seq<CaptureEvent>, n: nat) returns (at: nat)
      requires n < |events| && Counted(events, n)
      modifies this`clock, this`duration
      ensures Counted(events, n + 1) && at == ObservedAt(events, n)
    {
      ClockWithinDuration(events, n);
      match events[n] {
        case CaptureStarted => at := 0;
        case KnowledgeContext => at := clock;
        case Plain => at := clock;
        case ResponsesObserved(offset) =>
          at := if offset.Some? then offset.value else clock;
          clock := Max(clock, at);
          duration := Max(duration, at);
        case ReadSucceeded(semantic, finished, _) =>
          at := finished;
          clock := Max(clock, finished);
          duration := Max(duration, finished);
        case ReadFailed(timing) =>
          at := if timing.Some? then timing.value else clock;
          clock := Max(clock, at);
          duration := Max(duration, at);
        case SlotsSkipped(lastDue) =>
          at := lastDue;
          clock := Max(clock, lastDue);
          duration := Max(duration, lastDue);
        case SessionStopped(stopped) =>
          at := stopped;
          duration := Max(duration, stopped);
      }
    }

    /** The part of an event that shows it. */
    method Show(events: seq<CaptureEvent>, n: nat, at: nat)
      requires n < |events| && Shown(events, n) && at == ObservedAt(events, n)
      modifies this`evidence, this`pending
      ensures Shown(events, n + 1)
    {
      if events[n].KnowledgeContext? {
        RetimedIsEvidence(events, n, evidence, pending, evidence);
        PendingKept(events, n, evidence, pending);
        return;
      }
      if IsRead(events[n]) {
        DrainPending(at);
      }
      RetimedIsEvidence(events, n, old(evidence), old(pending), evidence);
      Push(at, n);
      if events[n].ResponsesObserved? {
        pending := pending + [|evidence| - 1];
      }
      PendingNext(events, n, old(evidence), old(pending), evidence, pending);
    }
  }

  /** The finished timeline. */
  datatype Timeline = Timeline(duration: nat, samples: map<string, seq<Item>>, evidence: seq<Item>)

  /** Duration, samples and evidence are those of the declarative description,
      ordered by time; re-timing in place is `ShownAt`. */
  method FromCapture(events: seq<CaptureEvent>) returns (t: Timeline)
    ensures t.duration == Duration(events, |events|)
    ensures t.evidence == Sort(EvidenceOf(events, |events|, |events|), ByTime())
    ensures forall s :: (if s in t.samples then t.samples[s] else []) == Sort(SamplesOf(events, s, |events|), ByTime())
  {
    var b := new TimelineBuilder();
    for n := 0 to |events|
      invariant b.Counted(events, n) && b.Sampled(events, n) && b.Shown(events, n)
    {
      var at := b.Count(events, n);
      b.Store(events, n);
      b.Show(events, n, at);
    }
    var samples := map s | s in b.samples :: Sort(b.samples[s], ByTime());
    t := Timeline(b.duration, samples, Sort(b.evidence, ByTime()));
  }

  /** Everything a timeline holds lies within its duration. */
  lemma AllWithinDuration(events: seq<CaptureEvent>, semantic: string)
    ensures forall e <- Sort(EvidenceOf(events, |events|, |events|), ByTime()) :: e.at <= Duration(events, |events|)
    ensures forall e <- Sort(SamplesOf(events, semantic, |events|), ByTime()) :: e.at <= Duration(events, |events|)
  {
    var n := |events|;
    var evidence, samples := EvidenceOf(events, n, n), SamplesOf(events, semantic, n);
    SortOrders(evidence);
    SortOrders(samples);
    EvidenceTimes(events, n, n);
    SampleTimes(events, semantic, n);
    forall e <- Sort(evidence, ByTime()) ensures e.at <= Duration(events, n) {
      assert e in multiset(Sort(evidence, ByTime()));
      assert e in evidence;
      ShownWithinDuration(events, e.source, n);
    }
    forall e <- Sort(samples, ByTime()) ensures e.at <= Duration(events, n) {
      assert e in multiset(Sort(samples, ByTime()));
      assert e in samples;
      WithinDuration(events, e.source, n);
    }
  }

  lemma {:induction false} SampleTimes(events: seq<CaptureEvent>, semantic: string, n: nat)
    requires n <= |events|
    ensures forall e <- SamplesOf(events, semantic, n) :: e.source < n && e.at == ObservedAt(events, e.source)
  {
    if n > 0 {
      SampleTimes(events, semantic, n - 1);
    }
  }
}
