/**
 * The capture replay re-decodes every successful read, and both readers of a
 * capture answer time queries by binary search.
 */
module Replay {
  import opened Prelude
  import opened Ordering
  import opened Timeline

  datatype IssueKind = Unsupported | Changed | Undecodable | DecodeDiffers

  datatype ReplayIssue = ReplayIssue(at: nat, source: nat, kind: IssueKind)

  datatype CaptureReplay = CaptureReplay(
    duration: nat, transactions: seq<Item>, interpretations: seq<Item>, issues: seq<ReplayIssue>)

  // ---------------------------------------------------------------------
  // What a replay holds
  // ---------------------------------------------------------------------

  predicate Rejecting(kind: IssueKind) { kind != DecodeDiffers }

  function Interpretations(events: seq<CaptureEvent>, n: nat): seq<Item>
    requires n <= |events|
  {
    if n == 0 then []
    else Interpretations(events, n - 1) +
         if events[n - 1].ReadSucceeded? then [Item(events[n - 1].finished, n - 1)] else []
  }

  predicate IsDecoded(e: CaptureEvent) { e.ReadSucceeded? && e.verdict.Decoded? }

  function Transactions(events: seq<CaptureEvent>, n: nat): seq<Item>
    requires n <= |events|
  {
    if n == 0 then []
    else Transactions(events, n - 1) +
         if IsDecoded(events[n - 1]) then [Item(events[n - 1].finished, n - 1)] else []
  }

  function IssueOf(v: Verdict): Option<IssueKind> {
    match v
    case UnsupportedSemantic => Some(Unsupported)
    case RequestChanged => Some(Changed)
    case DecodeFailed => Some(Undecodable)
    case Decoded(changed) => if changed then Some(DecodeDiffers) else None
  }

  function IssuesOf(events: seq<CaptureEvent>, n: nat): seq<ReplayIssue>
    requires n <= |events|
  {
    if n == 0 then []
    else IssuesOf(events, n - 1) +
         if events[n - 1].ReadSucceeded? && IssueOf(events[n - 1].verdict).Some?
         then [ReplayIssue(events[n - 1].finished, n - 1, IssueOf(events[n - 1].verdict).value)] else []
  }

  function IssueTime(): ReplayIssue -> seq<int> { (i: ReplayIssue) => [i.at] }

  method FromCapture(events: seq<CaptureEvent>) returns (r: CaptureReplay)
    ensures r.duration == Duration(events, |events|)
    ensures r.interpretations == Interpretations(events, |events|)
    ensures r.transactions == Sort(Transactions(events, |events|), ByTime())
    ensures r.issues == Sort(IssuesOf(events, |events|), IssueTime())
  {
    var duration := 0;
    var decoded, interpretations: seq<Item> := [], [];
    var issues: seq<ReplayIssue> := [];
    for n := 0 to |events|
      invariant duration == Duration(events, n)
      invariant interpretations == Interpretations(events, n)
      invariant decoded == Transactions(events, n)
      invariant issues == IssuesOf(events, n)
    {
      match events[n] {
        case ReadSucceeded(semantic, finished, verdict) =>
          duration := Max(duration, finished);
          interpretations := interpretations + [Item(finished, n)];
          match verdict {
            case UnsupportedSemantic => issues := issues + [ReplayIssue(finished, n, Unsupported)];
            case RequestChanged => issues := issues + [ReplayIssue(finished, n, Changed)];
            case DecodeFailed => issues := issues + [ReplayIssue(finished, n, Undecodable)];
            case Decoded(changed) =>
              if changed {
                issues := issues + [ReplayIssue(finished, n, DecodeDiffers)];
              }
              decoded := decoded + [Item(finished, n)];
          }
        case ReadFailed(Some(finished)) => duration := Max(duration, finished);
        case ReadFailed(None) =>
        case ResponsesObserved(Some(offset)) => duration := Max(duration, offset);
        case SlotsSkipped(lastDue) => duration := Max(duration, lastDue);
        case SessionStopped(stopped) => duration := Max(duration, stopped);
        case _ =>
      }
    }
    r := CaptureReplay(duration, Sort(decoded, ByTime()), interpretations, Sort(issues, IssueTime()));
  }

  function IsRejecting(): ReplayIssue -> bool { (i: ReplayIssue) => Rejecting(i.kind) }

  function Rejections(events: seq<CaptureEvent>, n: nat): seq<ReplayIssue>
    requires n <= |events|
  {
    Filter(IssuesOf(events, n), IsRejecting())
  }

  lemma RejectionsMore(events: seq<CaptureEvent>, n: nat)
    requires n < |events|
    ensures Rejections(events, n + 1) == Rejections(events, n) +
            if events[n].ReadSucceeded? && !events[n].verdict.Decoded?
            then [ReplayIssue(events[n].finished, n, IssueOf(events[n].verdict).value)] else []
  {
    var e := events[n];
    if e.ReadSucceeded? && IssueOf(e.verdict).Some? {
      var x := ReplayIssue(e.finished, n, IssueOf(e.verdict).value);
      FilterAppend(IssuesOf(events, n), [x], IsRejecting());
      assert [x][1..] == [];
    } else {
      assert IssuesOf(events, n + 1) == IssuesOf(events, n);
    }
  }

  /** No read is lost and none is counted twice: there are as many recorded
      interpretations as transactions and rejecting issues together. */
  lemma {:induction false} EveryReadOnce(events: seq<CaptureEvent>, n: nat)
    requires n <= |events|
    ensures |Interpretations(events, n)| == |Transactions(events, n)| + |Rejections(events, n)|
  {
    if n > 0 {
      EveryReadOnce(events, n - 1);
      RejectionsMore(events, n - 1);
    }
  }

  /** The read is recorded, and it is a transaction if it decodes, rejected if not. */
  predicate Accounted(events: seq<CaptureEvent>, k: nat, n: nat)
    requires k < n <= |events| && events[k].ReadSucceeded?
  {
    var e := events[k];
    Item(e.finished, k) in Interpretations(events, n)
    && if e.verdict.Decoded? then Item(e.finished, k) in Transactions(events, n)
       else ReplayIssue(e.finished, k, IssueOf(e.verdict).value) in Rejections(events, n)
  }

  lemma LastRead(events: seq<CaptureEvent>, k: nat)
    requires k < |events| && events[k].ReadSucceeded?
    ensures Accounted(events, k, k + 1)
  {
    RejectionsMore(events, k);
  }

  lemma EarlierRead(events: seq<CaptureEvent>, k: nat, n: nat)
    requires k < n < |events| && events[k].ReadSucceeded? && Accounted(events, k, n)
    ensures Accounted(events, k, n + 1)
  {
    RejectionsMore(events, n);
  }

  /** This holds of each successful read, whatever follows it. */
  lemma {:induction false} EveryReadAccounted(events: seq<CaptureEvent>, k: nat, n: nat)
    requires k < n <= |events| && events[k].ReadSucceeded?
    ensures Accounted(events, k, n)
    decreases n
  {
    if k == n - 1 {
      LastRead(events, k);
    } else {
      EveryReadAccounted(events, k, n - 1);
      EarlierRead(events, k, n - 1);
    }
  }

  function FromEvent(k: nat): ReplayIssue -> bool { (i: ReplayIssue) => i.source == k }

  /** The issue that belongs to each verdict; a decoding that merely changed is
      reported and still counts. */
  function IssuesDue(e: CaptureEvent, k: nat): seq<ReplayIssue> {
    match e
    case ReadSucceeded(_, finished, UnsupportedSemantic) => [ReplayIssue(finished, k, Unsupported)]
    case ReadSucceeded(_, finished, RequestChanged) => [ReplayIssue(finished, k, Changed)]
    case ReadSucceeded(_, finished, DecodeFailed) => [ReplayIssue(finished, k, Undecodable)]
    case ReadSucceeded(_, finished, Decoded(true)) => [ReplayIssue(finished, k, DecodeDiffers)]
    case _ => []
  }

  lemma IssuesMore(events: seq<CaptureEvent>, n: nat)
    requires n < |events|
    ensures IssuesOf(events, n + 1) == IssuesOf(events, n) + IssuesDue(events[n], n)
  {
  }

  lemma FilterDue(e: CaptureEvent, n: nat, k: nat)
    ensures Filter(IssuesDue(e, n), FromEvent(k)) == if n == k then IssuesDue(e, k) else []
  {
    var due := IssuesDue(e, n);
    assert due == [] || (|due| == 1 && due[0].source == n);
    assert due != [] ==> due[1..] == [] && due == [due[0]];
  }

  lemma OwnIssuesMore(events: seq<CaptureEvent>, n: nat, k: nat)
    requires n < |events|
    ensures Filter(IssuesOf(events, n + 1), FromEvent(k)) ==
            Filter(IssuesOf(events, n), FromEvent(k)) + if n == k then IssuesDue(events[k], k) else []
  {
    IssuesMore(events, n);
    FilterAppend(IssuesOf(events, n), IssuesDue(events[n], n), FromEvent(k));
    FilterDue(events[n], n, k);
  }

  /** Each event has exactly the issues that belong to its verdict. */
  lemma {:induction false} EveryIssueIsDue(events: seq<CaptureEvent>, k: nat, n: nat)
    requires n <= |events|
    ensures Filter(IssuesOf(events, n), FromEvent(k)) == if k < n then IssuesDue(events[k], k) else []
    decreases n
  {
    if n > 0 {
      EveryIssueIsDue(events, k, n - 1);
      OwnIssuesMore(events, n - 1, k);
    }
  }

  // ---------------------------------------------------------------------
  // Time queries
  // ---------------------------------------------------------------------

  /** The library's partition point on items ordered by time: how many come
      before `t`, or at `t` too when `inclusive`. */
  function PartitionPoint(items: seq<Item>, t: nat, inclusive: bool): (n: nat)
    requires Ordered(items)
    ensures n <= |items|
    ensures forall i | 0 <= i < |items| :: i < n <==> (items[i].at < t || (inclusive && items[i].at == t))
  {
    if items == [] || items[0].at > t || (items[0].at == t && !inclusive) then 0
    else
      assert forall i | 0 <= i < |items[1..]| :: items[1..][i].at == items[i + 1].at;
      1 + PartitionPoint(items[1..], t, inclusive)
  }

  /** The last item at or before the cursor. */
  function CurrentAt(items: seq<Item>, cursor: nat): Option<Item>
    requires Ordered(items)
  {
    var n := PartitionPoint(items, cursor, true);
    if n == 0 then None else Some(items[n - 1])
  }

  /** Items from `start` to `end`, both included; None is the slice panic. */
  function SliceIn(items: seq<Item>, start: nat, end: nat): Option<seq<Item>>
    requires Ordered(items)
  {
    var from, to := PartitionPoint(items, start, false), PartitionPoint(items, end, true);
    if from > to then None else Some(items[from..to])
  }

  function Between(start: nat, end: nat): Item -> bool { (i: Item) => start <= i.at <= end }

  lemma {:induction false} FilterSlice(items: seq<Item>, keep: Item -> bool, from: nat, to: nat)
    requires from <= to <= |items|
    requires forall i | 0 <= i < |items| :: keep(items[i]) <==> from <= i < to
    ensures Filter(items, keep) == items[from..to]
  {
    assert items == items[..from] + (items[from..to] + items[to..]);
    FilterNone(items[..from], keep);
    FilterAll(items[from..to], keep);
    FilterNone(items[to..], keep);
    FilterAppend(items[from..to], items[to..], keep);
    FilterAppend(items[..from], items[from..to] + items[to..], keep);
  }

  /** The binary searches equal the plain filter whenever the bounds are in
      order, and they never panic then. */
  lemma SliceIsFilter(items: seq<Item>, start: nat, end: nat)
    requires Ordered(items) && start <= end
    ensures SliceIn(items, start, end) == Some(Filter(items, Between(start, end)))
  {
    var from, to := PartitionPoint(items, start, false), PartitionPoint(items, end, true);
    if from > 0 {
      assert items[from - 1].at < start;
      assert from - 1 < to;
    }
    FilterSlice(items, Between(start, end), from, to);
  }

  /** With bounds out of order the slice panics exactly when an item lies
      strictly between them. */
  lemma SlicePanics(items: seq<Item>, start: nat, end: nat)
    requires Ordered(items) && end < start
    ensures SliceIn(items, start, end) == None <==> exists i | 0 <= i < |items| :: end < items[i].at < start
  {
    var from, to := PartitionPoint(items, start, false), PartitionPoint(items, end, true);
    if from > to {
      assert items[to].at < start && end < items[to].at;
    }
  }

  lemma CurrentIsLast(items: seq<Item>, cursor: nat)
    requires Ordered(items)
    ensures match CurrentAt(items, cursor)
            case None => forall i | 0 <= i < |items| :: cursor < items[i].at
            case Some(x) => exists k | 0 <= k < |items| :: items[k] == x && x.at <= cursor
                              && forall i | k < i < |items| :: cursor < items[i].at
  {
    var n := PartitionPoint(items, cursor, true);
    if n > 0 {
      assert items[n - 1] == CurrentAt(items, cursor).value;
    }
  }

  /** The reads that a telemetry state at the cursor ingests, in order. */
  method TelemetryAt(r: CaptureReplay, cursor: nat) returns (ingested: seq<Item>)
    requires Ordered(r.transactions)
    ensures ingested == Filter(r.transactions, Between(0, cursor))
  {
    var end := PartitionPoint(r.transactions, cursor, true);
    ingested := [];
    for i := 0 to end
      invariant ingested == r.transactions[..i]
    {
      ingested := ingested + [r.transactions[i]];
    }
    FilterSlice(r.transactions, Between(0, cursor), 0, end);
    assert r.transactions[0..end] == r.transactions[..end];
  }

  /** At the end of the capture every re-decoded read has been ingested. */
  lemma {:induction false} TransactionsWithin(events: seq<CaptureEvent>, n: nat)
    requires n <= |events|
    ensures forall x <- Transactions(events, n) :: x.at <= Duration(events, n)
  {
    if n > 0 {
      TransactionsWithin(events, n - 1);
    }
  }

  lemma FullTelemetry(events: seq<CaptureEvent>, items: seq<Item>)
    requires items == Sort(Transactions(events, |events|), ByTime())
    ensures Ordered(items) && Filter(items, Between(0, Duration(events, |events|))) == items
  {
    var all := Transactions(events, |events|);
    SortOrders(all);
    TransactionsWithin(events, |events|);
    forall i | 0 <= i < |items| ensures Between(0, Duration(events, |events|))(items[i]) {
      assert items[i] in multiset(items);
      assert items[i] in all;
    }
    FilterAll(items, Between(0, Duration(events, |events|)));
  }
}
