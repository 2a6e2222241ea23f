/**
 * Numbers and curves of a capture: nearest-rank percentiles, and the splitting
 * of a curve wherever samples are too far apart.
 */
module CaptureReport {
  import opened Prelude
  import opened Ordering

  // ---------------------------------------------------------------------
  // Nearest-rank percentile
  // ---------------------------------------------------------------------

  function Ascending(): int -> seq<int> { (v: int) => [v] }

  function CeilDiv(a: nat, b: nat): nat
    requires b > 0
  {
    (a + b - 1) / b
  }

  /** Rank ceil(p * n / q) in the sorted values, counted from one. For any input
      order the result is an element with fewer than the rank strictly below it and
      at least the rank up to it; there is none for no values, and the least value
      for percentile zero. */
  method Percentile(values: seq<int>, p: nat, q: nat) returns (r: Option<int>)
    requires q > 0
    ensures r == PercentileOf(values, p, q)
    ensures values == [] ==> r == None
    ensures values != [] && 0 < p <= q ==> r.Some? && Ranked(values, CeilDiv(|values| * p, q), r.value)
    ensures values != [] && p == 0 ==> r.Some? && Ranked(values, 1, r.value)
    ensures values != [] && p > q ==> (r.Some? <==> CeilDiv(|values| * p, q) <= |values|)
  {
    if values == [] {
      return None;
    }
    var sorted := Sort(values, Ascending());
    SortKeepsLength(values, Ascending());
    var n := |sorted|;
    var rank := CeilDiv(n * p, q);
    var index := if rank == 0 then 0 else rank - 1;
    r := if index < |sorted| then Some(sorted[index]) else None;
    PercentileIsRanked(values, p, q);
  }

  /** `x` has the given rank among the values. */
  predicate Ranked(values: seq<int>, rank: nat, x: int) {
    x in values && Count(values, Below(x)) < rank <= Count(values, UpTo(x))
  }

  lemma PercentileIsRanked(values: seq<int>, p: nat, q: nat)
    requires values != [] && q > 0
    ensures var r := PercentileOf(values, p, q);
            (0 < p <= q ==> r.Some? && Ranked(values, CeilDiv(|values| * p, q), r.value))
            && (p == 0 ==> r.Some? && Ranked(values, 1, r.value))
            && (p > q ==> (r.Some? <==> CeilDiv(|values| * p, q) <= |values|))
  {
    SortKeepsLength(values, Ascending());
    if 0 < p <= q {
      PercentileMeaning(values, p, q);
    } else if p == 0 {
      ZeroRank(|values|, q);
      ElementOfRank(values, 1);
    } else {
      RankMonotone(|values|, q, p, q);
      FullRank(|values|, q);
    }
  }

  lemma ZeroRank(n: nat, q: nat)
    requires q > 0
    ensures CeilDiv(n * 0, q) == 0
  {
    assert n * 0 == 0;
    CeilDivBounds(0, q);
    MulMonotone(1, CeilDiv(0, q), q);
  }

  function PercentileOf(values: seq<int>, p: nat, q: nat): Option<int>
    requires q > 0
  {
    var sorted := Sort(values, Ascending());
    var rank := CeilDiv(|values| * p, q);
    var index := if rank == 0 then 0 else rank - 1;
    if index < |sorted| then Some(sorted[index]) else None
  }

  function Below(x: int): int -> bool { (v: int) => v < x }
  function UpTo(x: int): int -> bool { (v: int) => v <= x }

  function Count(values: seq<int>, keep: int -> bool): nat { |Filter(values, keep)| }

  lemma CountPermutes(a: seq<int>, b: seq<int>, keep: int -> bool)
    requires multiset(a) == multiset(b)
    ensures Count(a, keep) == Count(b, keep)
  {
    forall x ensures multiset(Filter(a, keep))[x] == multiset(Filter(b, keep))[x] {
      FilterCounts(a, keep, x);
      FilterCounts(b, keep, x);
    }
    assert multiset(Filter(a, keep)) == multiset(Filter(b, keep));
    assert |multiset(Filter(a, keep))| == |Filter(a, keep)|;
    assert |multiset(Filter(b, keep))| == |Filter(b, keep)|;
  }

  lemma SortedValues(values: seq<int>)
    ensures var s := Sort(values, Ascending());
            |s| == |values| && multiset(s) == multiset(values)
            && Sorted(s)
  {
    SortPermutes(values, Ascending());
    SortSorts(values, Ascending());
    var s := Sort(values, Ascending());
    assert |multiset(s)| == |multiset(values)|;
    forall i, j | 0 <= i < j < |s| ensures s[i] <= s[j] {
      assert LexLeq(Ascending()(s[i]), Ascending()(s[j]));
    }
  }

  lemma {:induction false} FilterAtMost(s: seq<int>, keep: int -> bool)
    ensures |Filter(s, keep)| <= |s|
  {
    if s != [] {
      FilterAtMost(s[1..], keep);
    }
  }

  lemma MulMonotone(a: nat, b: nat, q: nat)
    ensures a <= b ==> a * q <= b * q
    ensures (a + 1) * q == a * q + q
  {
  }

  /** The ceiling: the least rank with a <= rank * q. */
  lemma CeilDivBounds(a: nat, q: nat)
    requires q > 0
    ensures a <= CeilDiv(a, q) * q < a + q
  {
    var b := a + q - 1;
    assert b == q * (b / q) + b % q;
  }

  lemma RankInRange(n: nat, p: nat, q: nat)
    requires n > 0 && 0 < p <= q
    ensures 1 <= CeilDiv(n * p, q) <= n
  {
    var r := CeilDiv(n * p, q);
    CeilDivBounds(n * p, q);
    MulMonotone(1, n, p);
    MulMonotone(p, q, n);
    MulMonotone(n + 1, r, q);
    MulMonotone(n, n, q);
    MulMonotone(r, 0, q);
  }

  lemma RankMonotone(n: nat, p: nat, p': nat, q: nat)
    requires p <= p' && q > 0
    ensures CeilDiv(n * p, q) <= CeilDiv(n * p', q)
  {
    var r, r' := CeilDiv(n * p, q), CeilDiv(n * p', q);
    CeilDivBounds(n * p, q);
    CeilDivBounds(n * p', q);
    MulMonotone(p, p', n);
    MulMonotone(r' + 1, r, q);
    MulMonotone(r', r', q);
  }

  lemma FullRank(n: nat, q: nat)
    requires q > 0
    ensures CeilDiv(n * q, q) == n
  {
    var r := CeilDiv(n * q, q);
    CeilDivBounds(n * q, q);
    MulMonotone(r + 1, n, q);
    MulMonotone(n + 1, r, q);
    MulMonotone(r, r, q);
    MulMonotone(n, n, q);
  }

  predicate Sorted(s: seq<int>) {
    forall i, j | 0 <= i < j < |s| :: s[i] <= s[j]
  }

  lemma RankedElement(s: seq<int>, rank: nat)
    requires Sorted(s) && 1 <= rank <= |s|
    ensures Count(s, Below(s[rank - 1])) < rank <= Count(s, UpTo(s[rank - 1]))
  {
    var x := s[rank - 1];
    assert s == s[..rank - 1] + s[rank - 1..] && s == s[..rank] + s[rank..];
    FilterAppend(s[..rank - 1], s[rank - 1..], Below(x));
    FilterNone(s[rank - 1..], Below(x));
    FilterAtMost(s[..rank - 1], Below(x));
    FilterAppend(s[..rank], s[rank..], UpTo(x));
    FilterAll(s[..rank], UpTo(x));
  }

  lemma ElementOfRank(values: seq<int>, rank: nat)
    requires 1 <= rank <= |values|
    ensures var s := Sort(values, Ascending());
            |s| == |values| && s[rank - 1] in values
            && Count(values, Below(s[rank - 1])) < rank <= Count(values, UpTo(s[rank - 1]))
  {
    var s := Sort(values, Ascending());
    SortedValues(values);
    RankedElement(s, rank);
    assert s[rank - 1] in multiset(values);
    CountPermutes(values, s, Below(s[rank - 1]));
    CountPermutes(values, s, UpTo(s[rank - 1]));
  }

  lemma PercentileAt(values: seq<int>, p: nat, q: nat, rank: nat)
    requires q > 0 && rank == CeilDiv(|values| * p, q) && 1 <= rank <= |values|
    ensures |Sort(values, Ascending())| == |values|
    ensures PercentileOf(values, p, q) == Some(Sort(values, Ascending())[rank - 1])
  {
    SortedValues(values);
  }

  /** For any input order the percentile is an element with fewer than the rank
      strictly below it and at least the rank up to it. */
  lemma PercentileMeaning(values: seq<int>, p: nat, q: nat)
    requires values != [] && 0 < p <= q
    ensures var r := PercentileOf(values, p, q);
            var rank := CeilDiv(|values| * p, q);
            r.Some? && Ranked(values, rank, r.value)
  {
    var rank := CeilDiv(|values| * p, q);
    RankInRange(|values|, p, q);
    PercentileAt(values, p, q, rank);
    ElementOfRank(values, rank);
  }

  /** A higher percentile is never smaller. */
  lemma PercentileMonotone(values: seq<int>, p: nat, p': nat, q: nat)
    requires values != [] && 0 < p <= p' <= q
    ensures var r, r' := PercentileOf(values, p, q), PercentileOf(values, p', q);
            r.Some? && r'.Some? && r.value <= r'.value
  {
    var rank, rank' := CeilDiv(|values| * p, q), CeilDiv(|values| * p', q);
    RankInRange(|values|, p, q);
    RankInRange(|values|, p', q);
    RankMonotone(|values|, p, p', q);
    PercentileAt(values, p, q, rank);
    PercentileAt(values, p', q, rank');
    SortedValues(values);
  }

  lemma FullPercentileIsMaximum(values: seq<int>, q: nat)
    requires values != [] && q > 0
    ensures var r := PercentileOf(values, q, q);
            r.Some? && r.value in values && forall v | v in values :: v <= r.value
  {
    var s := Sort(values, Ascending());
    SortedValues(values);
    FullRank(|values|, q);
    assert s[|s| - 1] in multiset(values);
    forall v | v in values ensures v <= s[|s| - 1] {
      assert v in multiset(s);
      var i :| 0 <= i < |s| && s[i] == v;
    }
  }

  // ---------------------------------------------------------------------
  // Gap segmentation
  // ---------------------------------------------------------------------

  /** A sample; None is a value that is not numeric. */
  datatype Sample = Sample(at: nat, value: Option<real>)

  datatype Point = Point(at: nat, value: real)

  function Numeric(samples: seq<Sample>): seq<Point> {
    if samples == [] then []
    else
      var s := samples[|samples| - 1];
      Numeric(samples[..|samples| - 1]) + if s.value.Some? then [Point(s.at, s.value.value)] else []
  }

  /** Saturating distance in time. */
  function Gap(a: Point, b: Point): nat { if b.at < a.at then 0 else b.at - a.at }

  predicate Split(limit: Option<nat>, a: Point, b: Point) {
    limit.Some? && Gap(a, b) > limit.value
  }

  /** A curve is split where time goes on by more than the limit; a step back in time
      never splits it. */
  lemma SplitMeans(limit: Option<nat>, a: Point, b: Point)
    ensures Split(limit, a, b) <==> limit.Some? && b.at > a.at + limit.value
  {
  }

  predicate Unsplit(limit: Option<nat>, segment: seq<Point>) {
    forall j | 0 < j < |segment| :: !Split(limit, segment[j - 1], segment[j])
  }

  lemma UnsplitMore(limit: Option<nat>, segment: seq<Point>, point: Point)
    requires Unsplit(limit, segment) && segment != [] && !Split(limit, segment[|segment| - 1], point)
    ensures Unsplit(limit, segment + [point])
  {
  }

  /** All points in order, no empty segment, no split inside a segment, and a
      split at every boundary. */
  ghost predicate IsSegmentation(segments: seq<seq<Point>>, points: seq<Point>, limit: Option<nat>) {
    Flatten(segments) == points
    && (forall i | 0 <= i < |segments| :: segments[i] != [])
    && (forall i | 0 <= i < |segments| :: Unsplit(limit, segments[i]))
    && (forall i | 0 < i < |segments| ::
          Split(limit, segments[i - 1][|segments[i - 1]| - 1], segments[i][0]))
  }

  lemma {:induction false} FlattenMore<T>(parts: seq<seq<T>>, last: seq<T>)
    ensures Flatten(parts + [last]) == Flatten(parts) + last
  {
    if parts == [] {
      assert (parts + [last])[1..] == [];
    } else {
      assert (parts + [last])[1..] == parts[1..] + [last];
      FlattenMore(parts[1..], last);
    }
  }

  function LastOf(segments: seq<seq<Point>>): Option<Point> {
    if segments == [] || segments[|segments| - 1] == [] then None
    else Some(segments[|segments| - 1][|segments[|segments| - 1]| - 1])
  }

  /** Appends a point, opening a new segment first when the gap is too large. */
  method AddPoint(segments: seq<seq<Point>>, limit: Option<nat>, point: Point, previous: Option<nat>,
                  ghost points: seq<Point>) returns (segments': seq<seq<Point>>)
    requires IsSegmentation(segments, points, limit)
    requires previous == if LastOf(segments).Some? then Some(LastOf(segments).value.at) else None
    ensures IsSegmentation(segments', points + [point], limit) && LastOf(segments') == Some(point)
  {
    var split := previous.Some? && limit.Some?
                 && (if point.at < previous.value then 0 else point.at - previous.value) > limit.value;
    segments' := segments;
    if segments' == [] || split {
      segments' := segments' + [[]];
    }
    var last := |segments'| - 1;
    var longer := segments'[last] + [point];
    assert split <==> segments != [] && Split(limit, LastOf(segments).value, point);
    Extended(segments, points, limit, point, segments'[..last], longer);
    segments' := segments'[..last] + [longer];
  }

  lemma NumericMore(samples: seq<Sample>, n: nat)
    requires n < |samples|
    ensures Numeric(samples[..n + 1]) ==
            Numeric(samples[..n]) + if samples[n].value.Some? then [Point(samples[n].at, samples[n].value.value)] else []
  {
    assert samples[..n + 1][..n] == samples[..n];
  }

  method NumericSegments(samples: seq<Sample>, limit: Option<nat>) returns (segments: seq<seq<Point>>)
    ensures IsSegmentation(segments, Numeric(samples), limit)
  {
    segments := [];
    var previous: Option<nat> := None;
    for n := 0 to |samples|
      invariant IsSegmentation(segments, Numeric(samples[..n]), limit)
      invariant previous == if LastOf(segments).Some? then Some(LastOf(segments).value.at) else None
    {
      NumericMore(samples, n);
      if samples[n].value.Some? {
        var point := Point(samples[n].at, samples[n].value.value);
        segments := AddPoint(segments, limit, point, previous, Numeric(samples[..n]));
        previous := Some(samples[n].at);
      }
    }
    assert samples[..|samples|] == samples;
  }

  /** Adding a point to the last segment, or as a new one after a split. */
  lemma ExtendedBySplit(before: seq<seq<Point>>, points: seq<Point>, limit: Option<nat>, point: Point)
    requires IsSegmentation(before, points, limit)
    requires before == [] || Split(limit, before[|before| - 1][|before[|before| - 1]| - 1], point)
    ensures IsSegmentation(before + [[point]], points + [point], limit)
  {
    FlattenMore(before, [point]);
  }

  lemma ExtendedInside(before: seq<seq<Point>>, points: seq<Point>, limit: Option<nat>, point: Point,
                       kept: seq<seq<Point>>, tail: seq<Point>)
    requires IsSegmentation(before, points, limit) && before == kept + [tail] && tail != []
    requires !Split(limit, tail[|tail| - 1], point)
    ensures IsSegmentation(kept + [tail + [point]], points + [point], limit)
  {
    FlattenMore(kept, tail);
    FlattenMore(kept, tail + [point]);
    assert Flatten(kept) + (tail + [point]) == (Flatten(kept) + tail) + [point];
    assert before[|kept|] == tail;
    assert forall i | 0 <= i < |kept| :: before[i] == kept[i];
    UnsplitMore(limit, tail, point);
  }

  lemma Extended(before: seq<seq<Point>>, points: seq<Point>, limit: Option<nat>, point: Point,
                 kept: seq<seq<Point>>, last: seq<Point>)
    requires IsSegmentation(before, points, limit)
    requires if before == [] then kept == [] && last == [point]
             else var tail := before[|before| - 1];
                  if Split(limit, tail[|tail| - 1], point) then kept == before && last == [point]
                  else kept == before[..|before| - 1] && last == tail + [point]
    ensures IsSegmentation(kept + [last], points + [point], limit)
  {
    if before == [] || kept == before {
      ExtendedBySplit(before, points, limit, point);
    } else {
      assert before == kept + [before[|before| - 1]];
      ExtendedInside(before, points, limit, point, kept, before[|before| - 1]);
    }
  }

}
