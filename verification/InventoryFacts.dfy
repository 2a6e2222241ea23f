/**
 * Projection of facts about ECUs: facts of one responder and field are merged,
 * and contradicting values are refused.
 */
module InventoryFacts {
  import opened Prelude

  type Field = nat
  type Provenance = string

  datatype Fact = Fact(responder: string, field: Field, value: string, provenance: Provenance)

  datatype Accumulator = Accumulator(value: string, provenance: set<Provenance>)

  type Merged = map<string, map<Field, Accumulator>>

  datatype Projection = Projected(facts: Merged) | UnknownResponder | Conflicting

  predicate About(f: Fact, responder: string, field: Field) {
    f.responder == responder && f.field == field
  }

  /** The entry of a responder and field after facts about them. */
  ghost predicate DescribesEntry(entry: map<Field, Accumulator>, facts: seq<Fact>, r: string, field: Field) {
    (field in entry <==> exists i | 0 <= i < |facts| :: About(facts[i], r, field))
    && (field in entry ==>
          (forall i | 0 <= i < |facts| && About(facts[i], r, field) :: facts[i].value == entry[field].value)
          && entry[field].provenance == ProvenanceOf(facts, r, field))
  }

  /** What the merged facts of a responder and field must be. */
  ghost predicate Describes(merged: Merged, responders: set<string>, facts: seq<Fact>) {
    merged.Keys == responders
    && forall r, field | r in responders :: DescribesEntry(merged[r], facts, r, field)
  }

  function ProvenanceOf(facts: seq<Fact>, responder: string, field: Field): set<Provenance> {
    set i | 0 <= i < |facts| && About(facts[i], responder, field) :: facts[i].provenance
  }

  predicate Contradicting(facts: seq<Fact>) {
    exists i, j | 0 <= i < |facts| && 0 <= j < |facts| ::
      About(facts[i], facts[j].responder, facts[j].field) && facts[i].value != facts[j].value
  }

  lemma ProvenanceMore(facts: seq<Fact>, f: Fact, r: string, field: Field)
    ensures ProvenanceOf(facts + [f], r, field) ==
            ProvenanceOf(facts, r, field) + if About(f, r, field) then {f.provenance} else {}
  {
    var all := facts + [f];
    forall p | p in ProvenanceOf(facts, r, field) ensures p in ProvenanceOf(all, r, field) {
      var i :| 0 <= i < |facts| && About(facts[i], r, field) && facts[i].provenance == p;
      assert all[i] == facts[i];
    }
    if About(f, r, field) {
      assert all[|facts|] == f;
    }
  }

  /** Merging one fact into the map of its responder. */
  method MergeFact(facts: map<Field, Accumulator>, f: Fact) returns (ok: bool, facts': map<Field, Accumulator>)
    ensures ok <==> f.field !in facts || facts[f.field].value == f.value
    ensures ok ==> facts' == facts[f.field := Accumulator(f.value,
                     (if f.field in facts then facts[f.field].provenance else {}) + {f.provenance})]
  {
    ok, facts' := true, facts;
    assert {} + {f.provenance} == {f.provenance};
    if f.field in facts {
      var existing := facts[f.field];
      if existing.value == f.value {
        facts' := facts[f.field := Accumulator(existing.value, existing.provenance + {f.provenance})];
      } else {
        ok := false;
      }
    } else {
      facts' := facts[f.field := Accumulator(f.value, {f.provenance})];
    }
  }

  lemma OtherEntry(entry: map<Field, Accumulator>, facts: seq<Fact>, f: Fact, r: string, field: Field)
    requires DescribesEntry(entry, facts, r, field) && !About(f, r, field)
    ensures DescribesEntry(entry, facts + [f], r, field)
  {
    var all := facts + [f];
    ProvenanceMore(facts, f, r, field);
    assert forall i | 0 <= i < |facts| :: all[i] == facts[i];
    assert all[|facts|] == f;
  }

  lemma SameEntry(entry: map<Field, Accumulator>, facts: seq<Fact>, f: Fact, provenance: set<Provenance>)
    requires DescribesEntry(entry, facts, f.responder, f.field)
    requires f.field in entry ==> entry[f.field].value == f.value
    requires provenance == (if f.field in entry then entry[f.field].provenance else {}) + {f.provenance}
    ensures DescribesEntry(entry[f.field := Accumulator(f.value, provenance)], facts + [f], f.responder, f.field)
  {
    var all := facts + [f];
    ProvenanceMore(facts, f, f.responder, f.field);
    assert forall i | 0 <= i < |facts| :: all[i] == facts[i];
    assert all[|facts|] == f && About(f, f.responder, f.field);
    if f.field !in entry {
      assert ProvenanceOf(facts, f.responder, f.field) == {};
    }
  }

  lemma DescribesMore(merged: Merged, responders: set<string>, facts: seq<Fact>, f: Fact, own: map<Field, Accumulator>)
    requires Describes(merged, responders, facts) && f.responder in responders
    requires f.field !in merged[f.responder] || merged[f.responder][f.field].value == f.value
    requires own == merged[f.responder][f.field := Accumulator(f.value,
               (if f.field in merged[f.responder] then merged[f.responder][f.field].provenance else {}) + {f.provenance})]
    ensures Describes(merged[f.responder := own], responders, facts + [f])
  {
    var merged': Merged := merged[f.responder := own];
    forall r, field | r in responders ensures DescribesEntry(merged'[r], facts + [f], r, field) {
      assert DescribesEntry(merged[r], facts, r, field);
      if r == f.responder && field == f.field {
        SameEntry(merged[r], facts, f, own[field].provenance);
      } else {
        OtherEntry(merged[r], facts, f, r, field);
        assert field in merged'[r] <==> field in merged[r];
      }
    }
  }

  /** Facts are merged in order; the first contradiction ends the projection. */
  method Merge(responders: set<string>, facts: seq<Fact>) returns (p: Projection)
    requires forall i | 0 <= i < |facts| :: facts[i].responder in responders
    ensures p.Conflicting? <==> Contradicting(facts)
    ensures !p.UnknownResponder?
    ensures p.Projected? ==> Describes(p.facts, responders, facts)
  {
    var merged: Merged := map r | r in responders :: map[];
    for n := 0 to |facts|
      invariant Describes(merged, responders, facts[..n])
    {
      var f := facts[n];
      var ok, own := MergeFact(merged[f.responder], f);
      if !ok {
        assert DescribesEntry(merged[f.responder], facts[..n], f.responder, f.field);
        var i :| 0 <= i < n && About(facts[..n][i], f.responder, f.field);
        assert facts[i].value == merged[f.responder][f.field].value;
        return Conflicting;
      }
      DescribesMore(merged, responders, facts[..n], f, own);
      assert facts[..n] + [f] == facts[..n + 1];
      merged := merged[f.responder := own];
    }
    assert facts[..|facts|] == facts;
    DescribedNotContradicting(merged, responders, facts);
    p := Projected(merged);
  }

  lemma DescribedNotContradicting(merged: Merged, responders: set<string>, facts: seq<Fact>)
    requires Describes(merged, responders, facts)
    requires forall i | 0 <= i < |facts| :: facts[i].responder in responders
    ensures !Contradicting(facts)
  {
    forall i, j | 0 <= i < |facts| && 0 <= j < |facts| && About(facts[i], facts[j].responder, facts[j].field)
      ensures facts[i].value == facts[j].value
    {
      var r, field := facts[j].responder, facts[j].field;
      assert About(facts[j], r, field);
      assert DescribesEntry(merged[r], facts, r, field);
    }
  }

  /** The projection: role facts of the mappings first, then the explicit facts,
      which must be about known responders. */
  method Project(responders: set<string>, roles: seq<Fact>, explicit: seq<Fact>) returns (p: Projection)
    requires forall i | 0 <= i < |roles| :: roles[i].responder in responders
    ensures p.UnknownResponder? <==> exists i | 0 <= i < |explicit| :: explicit[i].responder !in responders
    ensures !p.UnknownResponder? ==> (p.Conflicting? <==> Contradicting(roles + explicit))
    ensures p.Projected? ==> Describes(p.facts, responders, roles + explicit)
  {
    for n := 0 to |explicit|
      invariant forall i | 0 <= i < n :: explicit[i].responder in responders
    {
      if explicit[n].responder !in responders {
        return UnknownResponder;
      }
    }
    p := Merge(responders, roles + explicit);
  }

  /** The description leaves no choice, so the result does not depend on the
      order of mappings and explicit facts. */
  lemma OrderFree(a: seq<Fact>, b: seq<Fact>, responders: set<string>, m: Merged, m': Merged)
    requires multiset(a) == multiset(b)
    requires Describes(m, responders, a) && Describes(m', responders, b)
    ensures m == m'
  {
    forall f ensures f in a <==> f in b {
      assert f in a <==> f in multiset(a);
      assert f in b <==> f in multiset(b);
    }
    forall r | r in responders ensures m[r] == m'[r] {
      forall field ensures field in m[r] <==> field in m'[r] {
        assert DescribesEntry(m[r], a, r, field) && DescribesEntry(m'[r], b, r, field);
        SameFacts(a, b, r, field);
      }
      forall field | field in m[r] ensures m[r][field] == m'[r][field] {
        assert DescribesEntry(m[r], a, r, field) && DescribesEntry(m'[r], b, r, field);
        SameFacts(a, b, r, field);
        var i :| 0 <= i < |a| && About(a[i], r, field);
        assert a[i] in b;
        var j :| 0 <= j < |b| && b[j] == a[i];
      }
    }
  }

  /** Nor does it depend on the order whether the facts contradict each other. */
  lemma ContradictionOrderFree(a: seq<Fact>, b: seq<Fact>)
    requires multiset(a) == multiset(b)
    ensures Contradicting(a) <==> Contradicting(b)
  {
    ContradictionKept(a, b);
    ContradictionKept(b, a);
  }

  lemma ContradictionKept(a: seq<Fact>, b: seq<Fact>)
    requires multiset(a) == multiset(b)
    ensures Contradicting(a) ==> Contradicting(b)
  {
    if i, j :| 0 <= i < |a| && 0 <= j < |a| && About(a[i], a[j].responder, a[j].field) && a[i].value != a[j].value {
      assert a[i] in multiset(b) && a[j] in multiset(b);
      var k :| 0 <= k < |b| && b[k] == a[i];
      var l :| 0 <= l < |b| && b[l] == a[j];
      assert About(b[k], b[l].responder, b[l].field);
    }
  }

  lemma SameFacts(a: seq<Fact>, b: seq<Fact>, r: string, field: Field)
    requires forall f :: f in a <==> f in b
    ensures (exists i | 0 <= i < |a| :: About(a[i], r, field)) <==> (exists i | 0 <= i < |b| :: About(b[i], r, field))
    ensures ProvenanceOf(a, r, field) == ProvenanceOf(b, r, field)
  {
    SubFacts(a, b, r, field);
    SubFacts(b, a, r, field);
  }

  lemma SubFacts(a: seq<Fact>, b: seq<Fact>, r: string, field: Field)
    requires forall f :: f in a <==> f in b
    ensures (exists i | 0 <= i < |a| :: About(a[i], r, field)) ==> (exists i | 0 <= i < |b| :: About(b[i], r, field))
    ensures ProvenanceOf(a, r, field) <= ProvenanceOf(b, r, field)
  {
    forall i | 0 <= i < |a| && About(a[i], r, field)
      ensures exists j | 0 <= j < |b| :: About(b[j], r, field) && b[j].provenance == a[i].provenance
    {
      assert a[i] in b;
      var j :| 0 <= j < |b| && b[j] == a[i];
    }
  }
}
