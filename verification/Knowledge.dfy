/**
 * Knowledge resolution: which definition of a semantic applies to an ECU, given
 * the facts observed about it.
 */
module Knowledge {
  import opened Prelude
  import opened Ordering

  /** A fingerprint field, by its place in the derived order. */
  type Field = nat

  datatype FieldIs = FieldIs(field: Field, equals: string)

  datatype Applicability = Generic | Fingerprint(predicates: seq<FieldIs>)

  datatype Definition = Definition(id: string, semantic: string, applicability: Applicability)

  type Facts = map<Field, string>

  datatype Fit = GenericFit | Exact | Partial | NoFit

  datatype CandidateResolution = CandidateResolution(id: string, fit: Fit, specificity: nat)

  datatype ResolutionState = ResolvedGeneric | ResolvedSpecific | InsufficientIdentity | Ambiguous | NoMatch

  datatype Resolution = Resolution(state: ResolutionState, selected: Option<string>, candidates: seq<CandidateResolution>)

  // ---------------------------------------------------------------------
  // One candidate
  // ---------------------------------------------------------------------

  predicate Agrees(p: FieldIs, facts: Facts) { p.field in facts && facts[p.field] == p.equals }
  predicate Conflicts(p: FieldIs, facts: Facts) { p.field in facts && facts[p.field] != p.equals }

  /** A conflicting fact excludes a definition even if other facts are missing. */
  function FitOf(a: Applicability, facts: Facts): Fit {
    match a
    case Generic => GenericFit
    case Fingerprint(predicates) =>
      if exists i | 0 <= i < |predicates| :: Conflicts(predicates[i], facts) then NoFit
      else if forall i | 0 <= i < |predicates| :: Agrees(predicates[i], facts) then Exact
      else Partial
  }

  function Specificity(a: Applicability): nat {
    match a case Generic => 0 case Fingerprint(predicates) => |predicates|
  }

  function Evaluated(d: Definition, facts: Facts): CandidateResolution {
    CandidateResolution(d.id, FitOf(d.applicability, facts), Specificity(d.applicability))
  }

  method EvaluateCandidate(d: Definition, facts: Facts) returns (c: CandidateResolution)
    ensures c == Evaluated(d, facts)
  {
    match d.applicability
    case Generic => c := CandidateResolution(d.id, GenericFit, 0);
    case Fingerprint(predicates) =>
      var missing, conflict := false, false;
      for k := 0 to |predicates|
        invariant conflict <==> exists i | 0 <= i < k :: Conflicts(predicates[i], facts)
        invariant missing <==> exists i | 0 <= i < k :: predicates[i].field !in facts
      {
        var p := predicates[k];
        if p.field in facts {
          if facts[p.field] != p.equals {
            conflict := true;
          }
        } else {
          missing := true;
        }
      }
      c := CandidateResolution(d.id, if conflict then NoFit else if missing then Partial else Exact, |predicates|);
  }

  /** What a fingerprint is to the facts: excluded by any field that is known to be
      different, whatever else is missing; partial if none is and some field is
      unknown; exact if all its fields are known and equal. */
  lemma FitMeans(predicates: seq<FieldIs>, facts: Facts)
    ensures var c := FitOf(Fingerprint(predicates), facts);
            (c == NoFit <==> exists p | p in predicates :: p.field in facts && facts[p.field] != p.equals)
            && (c == Exact <==> forall p | p in predicates :: p.field in facts && facts[p.field] == p.equals)
            && (c == Partial <==> (exists p | p in predicates :: p.field !in facts)
                                  && forall p | p in predicates && p.field in facts :: facts[p.field] == p.equals)
    ensures FitOf(Generic, facts) == GenericFit
    ensures Specificity(Fingerprint(predicates)) == |predicates| && Specificity(Generic) == 0
  {
    assert forall i | 0 <= i < |predicates| :: predicates[i] in predicates;
  }

  // ---------------------------------------------------------------------
  // Resolution
  // ---------------------------------------------------------------------

  function StringKey(s: string): seq<int> {
    seq(|s|, i requires 0 <= i < |s| => s[i] as int)
  }

  lemma StringKeyInjective(a: string, b: string)
    requires StringKey(a) == StringKey(b)
    ensures a == b
  {
    assert |StringKey(a)| == |a| && |StringKey(b)| == |b|;
    forall i | 0 <= i < |a| ensures a[i] == b[i] {
      assert StringKey(a)[i] == StringKey(b)[i];
    }
  }

  /** Identifiers are compared as strings. */
  lemma {:induction false} StringKeyOrder(a: string, b: string)
    ensures LexLeq(StringKey(a), StringKey(b)) <==> a == b || StringLess(a, b)
  {
    if a != "" && b != "" {
      assert StringKey(a) == [a[0] as int] + StringKey(a[1..]) && StringKey(b) == [b[0] as int] + StringKey(b[1..]);
      LexCons(a[0] as int, StringKey(a[1..]), b[0] as int, StringKey(b[1..]));
      StringKeyOrder(a[1..], b[1..]);
      assert a == [a[0]] + a[1..] && b == [b[0]] + b[1..];
    }
  }

  function IdKey(): Definition -> seq<int> { (d: Definition) => StringKey(d.id) }

  function EvaluatedAll(definitions: seq<Definition>, facts: Facts): (cs: seq<CandidateResolution>)
    ensures |cs| == |definitions|
    ensures forall i | 0 <= i < |cs| :: cs[i] == Evaluated(definitions[i], facts)
  {
    seq(|definitions|, i requires 0 <= i < |definitions| => Evaluated(definitions[i], facts))
  }

  function WithFit(fit: Fit): CandidateResolution -> bool { (c: CandidateResolution) => c.fit == fit }
  function AtSpecificity(n: nat): CandidateResolution -> bool { (c: CandidateResolution) => c.specificity == n }

  function MaxSpecificity(cs: seq<CandidateResolution>): nat {
    if cs == [] then 0
    else
      var rest := MaxSpecificity(cs[1..]);
      if cs[0].specificity > rest then cs[0].specificity else rest
  }

  function Decide(candidates: seq<CandidateResolution>): (ResolutionState, Option<string>) {
    var exact := Filter(candidates, WithFit(Exact));
    if exact != [] then
      var finalists := Filter(exact, AtSpecificity(MaxSpecificity(exact)));
      if |finalists| == 1 then (ResolvedSpecific, Some(finalists[0].id)) else (Ambiguous, None)
    else if Filter(candidates, WithFit(Partial)) != [] then (InsufficientIdentity, None)
    else
      var generic := Filter(candidates, WithFit(GenericFit));
      if |generic| == 1 then (ResolvedGeneric, Some(generic[0].id))
      else if generic == [] then (NoMatch, None)
      else (Ambiguous, None)
  }

  /** Definitions sorted by id, evaluated, and the most specific exact one chosen. */
  function Resolve(definitions: seq<Definition>, facts: Facts): Resolution {
    var candidates := EvaluatedAll(Sort(definitions, IdKey()), facts);
    var (state, selected) := Decide(candidates);
    Resolution(state, selected, candidates)
  }

  // ---------------------------------------------------------------------
  // Order independence, and what resolution means
  // ---------------------------------------------------------------------

  predicate DistinctIds(definitions: seq<Definition>) {
    forall i, j | 0 <= i < j < |definitions| :: definitions[i].id != definitions[j].id
  }

  /** The result does not depend on the order of the definitions. */
  lemma OrderIndependent(a: seq<Definition>, b: seq<Definition>, facts: Facts)
    requires multiset(a) == multiset(b) && DistinctIds(a)
    ensures Resolve(a, facts) == Resolve(b, facts)
  {
    forall x, y | x in a && y in a && IdKey()(x) == IdKey()(y) ensures x == y {
      StringKeyInjective(x.id, y.id);
    }
    SortIsCanonical(a, b, IdKey());
  }

  predicate Fits(d: Definition, facts: Facts) { FitOf(d.applicability, facts) == Exact }

  /** `d` is an exact match and no other exact match is as specific. */
  ghost predicate Winner(definitions: seq<Definition>, facts: Facts, d: Definition) {
    d in definitions && Fits(d, facts)
    && forall e | e in definitions && Fits(e, facts) && e != d ::
         Specificity(e.applicability) < Specificity(d.applicability)
  }

  lemma {:induction false} MaxSpecificityBounds(cs: seq<CandidateResolution>)
    ensures forall c | c in cs :: c.specificity <= MaxSpecificity(cs)
    ensures cs != [] ==> exists c :: c in cs && c.specificity == MaxSpecificity(cs)
  {
    if cs != [] {
      MaxSpecificityBounds(cs[1..]);
      assert cs == [cs[0]] + cs[1..];
      if cs[0].specificity > MaxSpecificity(cs[1..]) || |cs| == 1 {
        assert cs[0] in cs && cs[0].specificity == MaxSpecificity(cs);
      } else {
        var c :| c in cs[1..] && c.specificity == MaxSpecificity(cs[1..]);
        assert c in cs;
      }
    }
  }

  lemma CandidatesOf(definitions: seq<Definition>, facts: Facts, c: CandidateResolution)
    ensures c in Resolve(definitions, facts).candidates <==> exists d | d in definitions :: c == Evaluated(d, facts)
  {
    var sorted := Sort(definitions, IdKey());
    SortPermutes(definitions, IdKey());
    assert forall d :: d in sorted <==> d in definitions by {
      forall d ensures d in sorted <==> d in definitions {
        assert d in sorted <==> d in multiset(sorted);
        assert d in definitions <==> d in multiset(definitions);
      }
    }
    var cs := EvaluatedAll(sorted, facts);
    if d :| d in definitions && c == Evaluated(d, facts) {
      var i :| 0 <= i < |sorted| && sorted[i] == d;
      assert cs[i] == c;
    }
  }

  lemma WithFitCandidates(definitions: seq<Definition>, facts: Facts, fit: Fit)
    ensures Filter(Resolve(definitions, facts).candidates, WithFit(fit)) != [] <==>
            exists d | d in definitions :: FitOf(d.applicability, facts) == fit
  {
    var cs := Resolve(definitions, facts).candidates;
    var kept := Filter(cs, WithFit(fit));
    FilterIn(cs, WithFit(fit));
    if d :| d in definitions && FitOf(d.applicability, facts) == fit {
      CandidatesOf(definitions, facts, Evaluated(d, facts));
      assert Evaluated(d, facts) in kept;
    }
    if kept != [] {
      CandidatesOf(definitions, facts, kept[0]);
      assert kept[0] in kept;
    }
  }

  lemma ExactCandidates(definitions: seq<Definition>, facts: Facts, c: CandidateResolution)
    ensures c in Filter(Resolve(definitions, facts).candidates, WithFit(Exact)) <==>
            exists d | d in definitions :: c == Evaluated(d, facts) && Fits(d, facts)
  {
    FilterIn(Resolve(definitions, facts).candidates, WithFit(Exact));
    CandidatesOf(definitions, facts, c);
  }

  /** Only the definition of the single most specific match has that specificity. */
  lemma OnlyFinalist(definitions: seq<Definition>, facts: Facts, c: CandidateResolution, x: Definition)
    requires x in definitions && Fits(x, facts)
    requires var exact := Filter(Resolve(definitions, facts).candidates, WithFit(Exact));
             Filter(exact, AtSpecificity(MaxSpecificity(exact))) == [c]
    ensures x.id == c.id || Specificity(x.applicability) < c.specificity
  {
    var exact := Filter(Resolve(definitions, facts).candidates, WithFit(Exact));
    var top := MaxSpecificity(exact);
    var e := Evaluated(x, facts);
    ExactCandidates(definitions, facts, e);
    FilterIn(exact, AtSpecificity(top));
    MaxSpecificityBounds(exact);
    assert c in Filter(exact, AtSpecificity(top));
    if e.specificity == top {
      assert e in Filter(exact, AtSpecificity(top));
    }
  }

  lemma SameIdSame(definitions: seq<Definition>, x: Definition, y: Definition)
    requires DistinctIds(definitions) && x in definitions && y in definitions && x.id == y.id
    ensures x == y
  {
    var i :| 0 <= i < |definitions| && definitions[i] == x;
    var j :| 0 <= j < |definitions| && definitions[j] == y;
    assert !(i < j) && !(j < i);
  }

  /** A selected specific definition is the winner. */
  lemma SelectedIsWinner(definitions: seq<Definition>, facts: Facts, d: Definition)
    requires DistinctIds(definitions) && d in definitions
    requires Resolve(definitions, facts).state == ResolvedSpecific
    requires Resolve(definitions, facts).selected == Some(d.id)
    ensures Winner(definitions, facts, d)
  {
    var exact := Filter(Resolve(definitions, facts).candidates, WithFit(Exact));
    var top := MaxSpecificity(exact);
    var c := Filter(exact, AtSpecificity(top))[0];
    FilterIn(exact, AtSpecificity(top));
    assert c in Filter(exact, AtSpecificity(top));
    ExactCandidates(definitions, facts, c);
    var e :| e in definitions && c == Evaluated(e, facts) && Fits(e, facts);
    SameIdSame(definitions, e, d);
    forall x | x in definitions && Fits(x, facts) && x != d
      ensures Specificity(x.applicability) < Specificity(d.applicability)
    {
      OnlyFinalist(definitions, facts, c, x);
      if x.id == d.id {
        SameIdSame(definitions, x, d);
      }
    }
  }

  predicate DistinctCandidates(cs: seq<CandidateResolution>) {
    forall i, j | 0 <= i < j < |cs| :: cs[i].id != cs[j].id
  }

  lemma {:induction false} FilterIds(cs: seq<CandidateResolution>, keep: CandidateResolution -> bool)
    requires DistinctCandidates(cs)
    ensures DistinctCandidates(Filter(cs, keep))
  {
    if cs != [] {
      FilterIds(cs[1..], keep);
      FilterIn(cs[1..], keep);
      var rest := Filter(cs[1..], keep);
      forall j | 0 <= j < |rest| ensures rest[j].id != cs[0].id {
        assert rest[j] in cs[1..];
      }
    }
  }

  lemma UniqueInFilter(cs: seq<CandidateResolution>, keep: CandidateResolution -> bool, c: CandidateResolution)
    requires DistinctCandidates(cs) && c in cs && keep(c)
    requires forall x | x in cs && keep(x) :: x == c
    ensures Filter(cs, keep) == [c]
  {
    var kept := Filter(cs, keep);
    FilterIds(cs, keep);
    FilterIn(cs, keep);
    assert c in kept;
    assert |kept| > 1 ==> kept[0].id != kept[1].id;
    forall k | 0 <= k < |kept| ensures kept[k] == c {
      assert kept[k] in kept;
    }
  }

  /** And a winner is selected. */
  lemma WinnerIsSelected(definitions: seq<Definition>, facts: Facts, d: Definition)
    requires DistinctIds(definitions) && Winner(definitions, facts, d)
    ensures Resolve(definitions, facts).state == ResolvedSpecific
    ensures Resolve(definitions, facts).selected == Some(d.id)
  {
    var cs := Resolve(definitions, facts).candidates;
    var exact := Filter(cs, WithFit(Exact));
    var top := MaxSpecificity(exact);
    var c := Evaluated(d, facts);
    FilterIn(cs, WithFit(Exact));
    MaxSpecificityBounds(exact);
    CandidatesOf(definitions, facts, c);
    assert c in exact;
    forall x | x in exact ensures x == c || x.specificity < c.specificity {
      CandidatesOf(definitions, facts, x);
      var e :| e in definitions && x == Evaluated(e, facts);
    }
    assert top == c.specificity;
    SortedIds(definitions, facts);
    FilterIds(cs, WithFit(Exact));
    UniqueInFilter(exact, AtSpecificity(top), c);
  }

  lemma SortedIds(definitions: seq<Definition>, facts: Facts)
    requires DistinctIds(definitions)
    ensures var cs := Resolve(definitions, facts).candidates;
            DistinctCandidates(cs)
  {
    var sorted := Sort(definitions, IdKey());
    SortPermutes(definitions, IdKey());
    DistinctIdsPermute(definitions, sorted);
  }

  lemma DistinctIdsPermute(a: seq<Definition>, b: seq<Definition>)
    requires DistinctIds(a) && multiset(a) == multiset(b)
    ensures DistinctIds(b)
  {
    forall i, j | 0 <= i < j < |b| ensures b[i].id != b[j].id {
      assert b[i] in multiset(a) && b[j] in multiset(a);
      if b[i].id == b[j].id {
        SameIdSame(a, b[i], b[j]);
        OnceOnly(a, b[i]);
        TwiceAtLeast(b, i, j);
      }
    }
  }

  lemma {:induction false} OnceOnly(a: seq<Definition>, d: Definition)
    requires DistinctIds(a)
    ensures multiset(a)[d] <= 1
  {
    if a != [] {
      OnceOnly(a[1..], d);
      assert a == [a[0]] + a[1..];
      if a[0] == d {
        assert d !in a[1..];
      }
    }
  }

  lemma TwiceAtLeast(b: seq<Definition>, i: nat, j: nat)
    requires i < j < |b| && b[i] == b[j]
    ensures multiset(b)[b[i]] >= 2
  {
    assert b == b[..i] + ([b[i]] + (b[i + 1..j] + ([b[j]] + b[j + 1..])));
  }

  // ---------------------------------------------------------------------
  // The loader's uniqueness checks
  // ---------------------------------------------------------------------

  /** Predicates are present and no field is constrained twice. */
  predicate WellFormed(a: Applicability) {
    a.Fingerprint? ==>
      a.predicates != [] && forall i, j | 0 <= i < j < |a.predicates| :: a.predicates[i].field != a.predicates[j].field
  }

  datatype ApplicabilityKey = GenericKey | FingerprintKey(pairs: seq<FieldIs>)

  function PairKey(): FieldIs -> seq<int> { (p: FieldIs) => [p.field] + StringKey(p.equals) }

  /** The key ignores the order in which the predicates are written. */
  function KeyOf(a: Applicability): ApplicabilityKey {
    match a
    case Generic => GenericKey
    case Fingerprint(predicates) => FingerprintKey(Sort(predicates, PairKey()))
  }

  /** What the loader guarantees about the definitions of a catalog. */
  predicate Accepted(definitions: seq<Definition>) {
    DistinctIds(definitions)
    && forall i, j | 0 <= i < j < |definitions| :: definitions[i].semantic == definitions[j].semantic ==>
         KeyOf(definitions[i].applicability) != KeyOf(definitions[j].applicability)
  }

  datatype LoadResult = Loaded | DuplicateId(id: string) | DuplicateApplicability(semantic: string)

  /** The check of one semantic: the keys of its definitions are inserted one by one. */
  method CheckSemantic(definitions: seq<Definition>, semantic: string) returns (unique: bool)
    ensures unique <==> forall i, j | 0 <= i < j < |definitions| ::
              definitions[i].semantic == semantic && definitions[j].semantic == semantic ==>
                KeyOf(definitions[i].applicability) != KeyOf(definitions[j].applicability)
  {
    var keys: set<ApplicabilityKey> := {};
    for n := 0 to |definitions|
      invariant forall k :: k in keys <==>
                  exists i | 0 <= i < n :: definitions[i].semantic == semantic && k == KeyOf(definitions[i].applicability)
      invariant forall i, j | 0 <= i < j < n ::
                  definitions[i].semantic == semantic && definitions[j].semantic == semantic ==>
                    KeyOf(definitions[i].applicability) != KeyOf(definitions[j].applicability)
    {
      if definitions[n].semantic == semantic {
        var key := KeyOf(definitions[n].applicability);
        if key in keys {
          return false;
        }
        keys := keys + {key};
      }
    }
    unique := true;
  }

  /** Ids first, then the applicability keys semantic by semantic. */
  method CheckDefinitions(definitions: seq<Definition>) returns (r: LoadResult)
    ensures r.Loaded? <==> Accepted(definitions)
    ensures r.DuplicateId? <==> !DistinctIds(definitions)
  {
    var ids: set<string> := {};
    var semantics: set<string> := {};
    for n := 0 to |definitions|
      invariant forall s :: s in ids <==> exists i | 0 <= i < n :: definitions[i].id == s
      invariant forall i | 0 <= i < n :: definitions[i].semantic in semantics
      invariant forall i, j | 0 <= i < j < n :: definitions[i].id != definitions[j].id
    {
      if definitions[n].id in ids {
        return DuplicateId(definitions[n].id);
      }
      ids := ids + {definitions[n].id};
      semantics := semantics + {definitions[n].semantic};
    }
    ghost var all := semantics;
    while semantics != {}
      invariant semantics <= all
      invariant forall i, j | 0 <= i < j < |definitions| ::
                  definitions[i].semantic == definitions[j].semantic && definitions[i].semantic in all - semantics ==>
                    KeyOf(definitions[i].applicability) != KeyOf(definitions[j].applicability)
      decreases |semantics|
    {
      var semantic :| semantic in semantics;
      var unique := CheckSemantic(definitions, semantic);
      if !unique {
        return DuplicateApplicability(semantic);
      }
      semantics := semantics - {semantic};
    }
    r := Loaded;
  }

  function FieldsOf(a: Applicability): set<Field> {
    match a
    case Generic => {}
    case Fingerprint(predicates) => set i | 0 <= i < |predicates| :: predicates[i].field
  }

  lemma {:induction false} OnceEach(s: seq<FieldIs>, p: FieldIs)
    requires forall i, j | 0 <= i < j < |s| :: s[i].field != s[j].field
    ensures multiset(s)[p] == if p in s then 1 else 0
  {
    if s != [] {
      OnceEach(s[1..], p);
      assert s == [s[0]] + s[1..];
      if s[0] == p {
        assert p !in s[1..];
      }
    }
  }

  /** Exact matches with the same fields state the same values, hence have the
      same key. */
  lemma SameFieldsSameKey(a: Applicability, b: Applicability, facts: Facts)
    requires WellFormed(a) && WellFormed(b)
    requires FitOf(a, facts) == Exact && FitOf(b, facts) == Exact && FieldsOf(a) == FieldsOf(b)
    ensures KeyOf(a) == KeyOf(b)
  {
    var p, q := a.predicates, b.predicates;
    forall x: FieldIs ensures multiset(p)[x] == multiset(q)[x] {
      OnceEach(p, x);
      OnceEach(q, x);
      SameMember(a, b, facts, x);
      SameMember(b, a, facts, x);
    }
    assert multiset(p) == multiset(q);
    forall x, y | x in p && y in p && PairKey()(x) == PairKey()(y) ensures x == y {
      assert PairKey()(x)[0] == x.field && PairKey()(y)[0] == y.field;
      assert PairKey()(x)[1..] == StringKey(x.equals) && PairKey()(y)[1..] == StringKey(y.equals);
      StringKeyInjective(x.equals, y.equals);
    }
    SortIsCanonical(p, q, PairKey());
  }

  lemma SameMember(a: Applicability, b: Applicability, facts: Facts, x: FieldIs)
    requires FitOf(a, facts) == Exact && FitOf(b, facts) == Exact && FieldsOf(a) == FieldsOf(b)
    ensures x in a.predicates ==> x in b.predicates
  {
    if x in a.predicates {
      var i :| 0 <= i < |a.predicates| && a.predicates[i] == x;
      assert x.field in FieldsOf(a);
      var j :| 0 <= j < |b.predicates| && b.predicates[j].field == x.field;
      assert Agrees(a.predicates[i], facts) && Agrees(b.predicates[j], facts);
      assert b.predicates[j] == x;
    }
  }

  lemma AcceptedDiffer(definitions: seq<Definition>, x: Definition, y: Definition)
    requires Accepted(definitions)
    requires x in definitions && y in definitions && x != y && x.semantic == y.semantic
    ensures KeyOf(x.applicability) != KeyOf(y.applicability)
  {
    var i :| 0 <= i < |definitions| && definitions[i] == x;
    var j :| 0 <= j < |definitions| && definitions[j] == y;
    assert i < j || j < i;
  }

  /** In an accepted catalog two exact matches never constrain the same fields,
      so what is left ambiguous are exact matches of different fields. */
  lemma TiedMatchesDiffer(definitions: seq<Definition>, facts: Facts, x: Definition, y: Definition)
    requires Accepted(definitions) && forall d | d in definitions :: WellFormed(d.applicability)
    requires x in definitions && y in definitions && x != y && x.semantic == y.semantic
    requires Fits(x, facts) && Fits(y, facts)
    ensures FieldsOf(x.applicability) != FieldsOf(y.applicability)
  {
    AcceptedDiffer(definitions, x, y);
    if FieldsOf(x.applicability) == FieldsOf(y.applicability) {
      SameFieldsSameKey(x.applicability, y.applicability, facts);
    }
  }

  /** One semantic's definitions. */
  predicate OneSemantic(definitions: seq<Definition>) {
    forall i, j | 0 <= i < j < |definitions| :: definitions[i].semantic == definitions[j].semantic
  }

  lemma SameSemantic(definitions: seq<Definition>, x: Definition, y: Definition)
    requires OneSemantic(definitions) && x in definitions && y in definitions
    ensures x.semantic == y.semantic
  {
    var i :| 0 <= i < |definitions| && definitions[i] == x;
    var j :| 0 <= j < |definitions| && definitions[j] == y;
    assert i < j || j < i || i == j;
  }

  lemma NotBothGeneric(definitions: seq<Definition>, facts: Facts, x: Definition, y: Definition)
    requires Accepted(definitions) && OneSemantic(definitions)
    requires x in definitions && y in definitions && x != y
    ensures x.applicability.Fingerprint? || y.applicability.Fingerprint?
  {
    SameSemantic(definitions, x, y);
    AcceptedDiffer(definitions, x, y);
  }

  lemma AtMostOneGeneric(definitions: seq<Definition>, facts: Facts)
    requires Accepted(definitions) && OneSemantic(definitions)
    ensures |Filter(Resolve(definitions, facts).candidates, WithFit(GenericFit))| <= 1
  {
    var cs := Resolve(definitions, facts).candidates;
    var generic := Filter(cs, WithFit(GenericFit));
    FilterIn(cs, WithFit(GenericFit));
    SortedIds(definitions, facts);
    FilterIds(cs, WithFit(GenericFit));
    forall x, y | x in definitions && y in definitions && x != y
      ensures Evaluated(x, facts).fit != GenericFit || Evaluated(y, facts).fit != GenericFit
    {
      NotBothGeneric(definitions, facts, x, y);
    }
    if |generic| >= 2 {
      assert generic[0] in generic && generic[1] in generic;
      TwoDefinitions(definitions, facts, generic[0], generic[1]);
    }
  }

  /** Two exact matches that no exact match exceeds in specificity. */
  ghost predicate TiedAtTop(definitions: seq<Definition>, facts: Facts, x: Definition, y: Definition) {
    x in definitions && y in definitions && x != y && Fits(x, facts) && Fits(y, facts)
    && Specificity(x.applicability) == Specificity(y.applicability)
    && forall e | e in definitions && Fits(e, facts) :: Specificity(e.applicability) <= Specificity(x.applicability)
  }

  /** The finalists are the exact matches of the greatest specificity. */
  lemma Finalists(definitions: seq<Definition>, facts: Facts, d: Definition)
    requires d in definitions && Fits(d, facts)
    ensures var exact := Filter(Resolve(definitions, facts).candidates, WithFit(Exact));
            Evaluated(d, facts) in Filter(exact, AtSpecificity(MaxSpecificity(exact))) <==>
            forall e | e in definitions && Fits(e, facts) :: Specificity(e.applicability) <= Specificity(d.applicability)
  {
    var exact := Filter(Resolve(definitions, facts).candidates, WithFit(Exact));
    var top := MaxSpecificity(exact);
    FilterIn(exact, AtSpecificity(top));
    MaxSpecificityBounds(exact);
    ExactCandidates(definitions, facts, Evaluated(d, facts));
    forall e | e in definitions && Fits(e, facts) ensures Specificity(e.applicability) <= top {
      ExactCandidates(definitions, facts, Evaluated(e, facts));
    }
    var c :| c in exact && c.specificity == top;
    ExactCandidates(definitions, facts, c);
  }

  lemma TiedExactly(definitions: seq<Definition>, facts: Facts) returns (x: Definition, y: Definition)
    requires DistinctIds(definitions) && Resolve(definitions, facts).state == Ambiguous
    requires Filter(Resolve(definitions, facts).candidates, WithFit(Exact)) != []
    ensures TiedAtTop(definitions, facts, x, y)
  {
    var exact := Filter(Resolve(definitions, facts).candidates, WithFit(Exact));
    var top := MaxSpecificity(exact);
    var finalists := Filter(exact, AtSpecificity(top));
    SortedIds(definitions, facts);
    FilterIds(Resolve(definitions, facts).candidates, WithFit(Exact));
    FilterIds(exact, AtSpecificity(top));
    FilterIn(exact, AtSpecificity(top));
    MaxSpecificityBounds(exact);
    var c :| c in exact && c.specificity == top;
    assert c in finalists;
    var first, second := finalists[0], finalists[1];
    assert first in finalists && second in finalists;
    ExactCandidates(definitions, facts, first);
    ExactCandidates(definitions, facts, second);
    x :| x in definitions && first == Evaluated(x, facts) && Fits(x, facts);
    y :| y in definitions && second == Evaluated(y, facts) && Fits(y, facts);
    Finalists(definitions, facts, x);
  }

  lemma TwoMembers<T>(s: seq<T>, a: T, b: T)
    requires a in s && b in s
    ensures a == b || |s| >= 2
  {
    var i :| 0 <= i < |s| && s[i] == a;
    var j :| 0 <= j < |s| && s[j] == b;
  }

  lemma TieIsAmbiguous(definitions: seq<Definition>, facts: Facts, x: Definition, y: Definition)
    requires DistinctIds(definitions) && TiedAtTop(definitions, facts, x, y)
    ensures Resolve(definitions, facts).state == Ambiguous
  {
    var exact := Filter(Resolve(definitions, facts).candidates, WithFit(Exact));
    var finalists := Filter(exact, AtSpecificity(MaxSpecificity(exact)));
    WithFitCandidates(definitions, facts, Exact);
    Finalists(definitions, facts, x);
    Finalists(definitions, facts, y);
    if x.id == y.id {
      SameIdSame(definitions, x, y);
    }
    TwoMembers(finalists, Evaluated(x, facts), Evaluated(y, facts));
  }

  /** Nor does ambiguity ever come from generic definitions: in an accepted
      catalog it means exactly a tie of exact matches at the top, and tied
      matches constrain different fields. */
  lemma AmbiguousIffTied(definitions: seq<Definition>, facts: Facts)
    requires Accepted(definitions) && OneSemantic(definitions)
    requires forall d | d in definitions :: WellFormed(d.applicability)
    ensures Resolve(definitions, facts).state == Ambiguous <==> exists x, y :: TiedAtTop(definitions, facts, x, y)
    ensures forall x, y | TiedAtTop(definitions, facts, x, y) :: FieldsOf(x.applicability) != FieldsOf(y.applicability)
  {
    if Resolve(definitions, facts).state == Ambiguous {
      AtMostOneGeneric(definitions, facts);
      var x, y := TiedExactly(definitions, facts);
    }
    forall x, y | TiedAtTop(definitions, facts, x, y)
      ensures Resolve(definitions, facts).state == Ambiguous
      ensures FieldsOf(x.applicability) != FieldsOf(y.applicability)
    {
      TieIsAmbiguous(definitions, facts, x, y);
      SameSemantic(definitions, x, y);
      TiedMatchesDiffer(definitions, facts, x, y);
    }
  }

  lemma GenericIsSelected(definitions: seq<Definition>, facts: Facts)
    requires Resolve(definitions, facts).state == ResolvedGeneric
    ensures forall d | d in definitions && d.applicability.Generic? :: Resolve(definitions, facts).selected == Some(d.id)
  {
    var cs := Resolve(definitions, facts).candidates;
    var generic := Filter(cs, WithFit(GenericFit));
    FilterIn(cs, WithFit(GenericFit));
    forall d | d in definitions && d.applicability.Generic? ensures Resolve(definitions, facts).selected == Some(d.id) {
      CandidatesOf(definitions, facts, Evaluated(d, facts));
      assert Evaluated(d, facts) in generic;
    }
  }

  /** Without an exact match: a partial one means more identity is needed, and
      only when nothing could become exact does a generic definition apply. */
  lemma WithoutExactMatch(definitions: seq<Definition>, facts: Facts)
    requires Accepted(definitions) && OneSemantic(definitions)
    requires forall d | d in definitions :: !Fits(d, facts)
    ensures var state := Resolve(definitions, facts).state;
            if exists d | d in definitions :: FitOf(d.applicability, facts) == Partial
            then state == InsufficientIdentity
            else if exists d | d in definitions :: d.applicability.Generic? then state == ResolvedGeneric
            else state == NoMatch
    ensures forall d | d in definitions && d.applicability.Generic? && Resolve(definitions, facts).state == ResolvedGeneric ::
              Resolve(definitions, facts).selected == Some(d.id)
    ensures Resolve(definitions, facts).state in {InsufficientIdentity, NoMatch} ==> Resolve(definitions, facts).selected.None?
  {
    if Resolve(definitions, facts).state == ResolvedGeneric {
      GenericIsSelected(definitions, facts);
    }
    WithFitCandidates(definitions, facts, Exact);
    WithFitCandidates(definitions, facts, Partial);
    WithFitCandidates(definitions, facts, GenericFit);
    AtMostOneGeneric(definitions, facts);
  }

  /** A catalog with several generic definitions, which the loader refuses, would be
      ambiguous. */
  lemma SeveralGenerics(definitions: seq<Definition>, facts: Facts, x: Definition, y: Definition)
    requires x in definitions && y in definitions && x.id != y.id && x.applicability.Generic? && y.applicability.Generic?
    requires forall d | d in definitions :: FitOf(d.applicability, facts) != Exact && FitOf(d.applicability, facts) != Partial
    ensures Resolve(definitions, facts).state == Ambiguous && Resolve(definitions, facts).selected.None?
  {
    WithFitCandidates(definitions, facts, Exact);
    WithFitCandidates(definitions, facts, Partial);
    var cs := Resolve(definitions, facts).candidates;
    var generic := Filter(cs, WithFit(GenericFit));
    FilterIn(cs, WithFit(GenericFit));
    CandidatesOf(definitions, facts, Evaluated(x, facts));
    CandidatesOf(definitions, facts, Evaluated(y, facts));
    assert Evaluated(x, facts) in generic && Evaluated(y, facts) in generic;
    TwoElements(generic, Evaluated(x, facts), Evaluated(y, facts));
  }

  lemma TwoElements<T>(s: seq<T>, a: T, b: T)
    requires a in s && b in s && a != b
    ensures |s| > 1
  {
    var i :| 0 <= i < |s| && s[i] == a;
    var j :| 0 <= j < |s| && s[j] == b;
    assert i != j;
  }

  lemma TwoDefinitions(definitions: seq<Definition>, facts: Facts, c: CandidateResolution, e: CandidateResolution)
    requires c in Resolve(definitions, facts).candidates && e in Resolve(definitions, facts).candidates && c.id != e.id
    ensures exists x, y | x in definitions && y in definitions && x != y ::
              c == Evaluated(x, facts) && e == Evaluated(y, facts)
  {
    CandidatesOf(definitions, facts, c);
    CandidatesOf(definitions, facts, e);
    var x :| x in definitions && c == Evaluated(x, facts);
    var y :| y in definitions && e == Evaluated(y, facts);
    assert x != y;
  }

  // ---------------------------------------------------------------------
  // Learning a fact
  // ---------------------------------------------------------------------

  /** A new fact keeps exact matches exact and excluded definitions excluded;
      only partial candidates can change. */
  lemma LearningKeepsFits(a: Applicability, facts: Facts, field: Field, value: string)
    requires field !in facts
    ensures var fit, fit' := FitOf(a, facts), FitOf(a, facts[field := value]);
            (fit != Partial || (a.Fingerprint? && forall i | 0 <= i < |a.predicates| :: a.predicates[i].field != field))
              ==> fit' == fit
    ensures FitOf(a, facts) == Partial ==> FitOf(a, facts[field := value]) != GenericFit
  {
    if a.Fingerprint? {
      var learned := facts[field := value];
      forall i | 0 <= i < |a.predicates|
        ensures Conflicts(a.predicates[i], facts) ==> Conflicts(a.predicates[i], learned)
        ensures Agrees(a.predicates[i], facts) ==> Agrees(a.predicates[i], learned)
        ensures a.predicates[i].field != field ==>
                  (Conflicts(a.predicates[i], facts) <==> Conflicts(a.predicates[i], learned))
                  && (Agrees(a.predicates[i], facts) <==> Agrees(a.predicates[i], learned))
      {
      }
    }
  }

  /** The specificity that wins: the greatest among the exact matches. */
  function TopSpecificity(definitions: seq<Definition>, facts: Facts): nat {
    MaxSpecificity(Filter(Resolve(definitions, facts).candidates, WithFit(Exact)))
  }

  lemma TopSpecificityIsGreatest(definitions: seq<Definition>, facts: Facts)
    requires exists d | d in definitions :: Fits(d, facts)
    ensures forall d | d in definitions && Fits(d, facts) :: Specificity(d.applicability) <= TopSpecificity(definitions, facts)
    ensures exists d | d in definitions :: Fits(d, facts) && Specificity(d.applicability) == TopSpecificity(definitions, facts)
  {
    var exact := Filter(Resolve(definitions, facts).candidates, WithFit(Exact));
    WithFitCandidates(definitions, facts, Exact);
    MaxSpecificityBounds(exact);
    forall d | d in definitions && Fits(d, facts) ensures Specificity(d.applicability) <= MaxSpecificity(exact) {
      ExactCandidates(definitions, facts, Evaluated(d, facts));
    }
    var c :| c in exact && c.specificity == MaxSpecificity(exact);
    ExactCandidates(definitions, facts, c);
  }

  /** Once some definition matches exactly, learning a fact never loses that,
      and the winning specificity never drops. */
  lemma LearningNeverLowers(definitions: seq<Definition>, facts: Facts, field: Field, value: string)
    requires field !in facts
    requires exists d | d in definitions :: Fits(d, facts)
    ensures Resolve(definitions, facts[field := value]).state in {ResolvedSpecific, Ambiguous}
    ensures TopSpecificity(definitions, facts) <= TopSpecificity(definitions, facts[field := value])
  {
    var learned := facts[field := value];
    TopSpecificityIsGreatest(definitions, facts);
    var d :| d in definitions && Fits(d, facts) && Specificity(d.applicability) == TopSpecificity(definitions, facts);
    LearningKeepsFits(d.applicability, facts, field, value);
    assert Fits(d, learned);
    TopSpecificityIsGreatest(definitions, learned);
    WithFitCandidates(definitions, learned, Exact);
  }
}
