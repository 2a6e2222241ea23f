/**
 * In which order unfinished messages are reported: the order in which their first
 * frames came.
 */
module ArrivalOrder {
  import opened Prelude
  import opened IsoTp
  import opened ReassemblyTable

  /** The place of the last first frame of a responder, or -1. */
  function LastFirst(events: seq<Event>, r: Responder): (i: int)
    ensures -1 <= i < |events|
    ensures i >= 0 ==> OfEvent(r)(events[i]) && Opens(events[i])
    ensures forall k | i < k < |events| :: !(OfEvent(r)(events[k]) && Opens(events[k]))
  {
    if events == [] then -1
    else
      var last := |events| - 1;
      if OfEvent(r)(events[last]) && Opens(events[last]) then last else LastFirst(events[..last], r)
  }

  lemma LastFirstMore(events: seq<Event>, e: Event, r: Responder)
    ensures LastFirst(events + [e], r) ==
            if OfEvent(r)(e) && Opens(e) then |events| else LastFirst(events, r)
  {
    assert (events + [e])[..|events|] == events;
  }

  /** The entries stand in the order of those frames. */
  predicate InOrder(events: seq<Event>, t: Table) {
    t == [] ||
    ((forall j | 0 < j < |t| :: LastFirst(events, t[0].responder) < LastFirst(events, t[j].responder))
     && InOrder(events, t[1..]))
  }

  lemma {:induction false} InOrderAt(events: seq<Event>, t: Table, i: nat, j: nat)
    requires InOrder(events, t) && i < j < |t|
    ensures LastFirst(events, t[i].responder) < LastFirst(events, t[j].responder)
  {
    if i > 0 {
      InOrderAt(events, t[1..], i - 1, j - 1);
    }
  }

  /** Only `r` may have sent a first frame just now, and it has no entry. */
  lemma {:induction false} WithoutInOrder(events: seq<Event>, e: Event, t: Table, r: Responder)
    requires InOrder(events, t) && (e.Skip? || e.responder == r)
    ensures InOrder(events + [e], Without(t, r))
  {
    if t != [] {
      WithoutInOrder(events, e, t[1..], r);
      if t[0].responder != r {
        var rest := Without(t[1..], r);
        LastFirstMore(events, e, t[0].responder);
        WithoutEntries(t[1..], r);
        forall j | 0 <= j < |rest|
          ensures LastFirst(events + [e], t[0].responder) < LastFirst(events + [e], rest[j].responder)
        {
          assert rest[j] in rest;
          LastFirstMore(events, e, rest[j].responder);
        }
        assert Without(t, r) == [t[0]] + rest && ([t[0]] + rest)[1..] == rest;
      }
    }
  }

  /** A line that is no first frame keeps the order. */
  lemma {:induction false} SameInOrder(events: seq<Event>, e: Event, t: Table)
    requires InOrder(events, t) && (e.Skip? || !Opens(e))
    ensures InOrder(events + [e], t)
  {
    if t != [] {
      SameInOrder(events, e, t[1..]);
      forall j | 0 <= j < |t| ensures LastFirst(events + [e], t[j].responder) == LastFirst(events, t[j].responder) {
        LastFirstMore(events, e, t[j].responder);
      }
    }
  }

  lemma {:induction false} ReplaceInOrder(events: seq<Event>, t: Table, r: Responder, a: Assembly)
    requires InOrder(events, t)
    ensures InOrder(events, Replace(t, r, a)) && |Replace(t, r, a)| == |t|
    ensures forall i | 0 <= i < |t| :: Replace(t, r, a)[i].responder == t[i].responder
  {
    if t != [] {
      if t[0].responder == r {
        assert ([Entry(r, a)] + t[1..])[1..] == t[1..];
      } else {
        ReplaceInOrder(events, t[1..], r, a);
        assert ([t[0]] + Replace(t[1..], r, a))[1..] == Replace(t[1..], r, a);
      }
    }
  }

  /** A new entry goes to the end. */
  lemma {:induction false} AppendInOrder(events: seq<Event>, e: Event, t: Table, a: Assembly)
    requires InOrder(events, t) && !e.Skip? && Opens(e) && Lookup(t, e.responder).None?
    ensures InOrder(events + [e], t + [Entry(e.responder, a)])
  {
    var entry := Entry(e.responder, a);
    LastFirstMore(events, e, e.responder);
    if t == [] {
      assert (t + [entry])[1..] == [];
    } else {
      AppendInOrder(events, e, t[1..], a);
      assert (t + [entry])[1..] == t[1..] + [entry];
      LookupIsEntry(t, e.responder);
      forall j | 0 <= j < |t| ensures LastFirst(events + [e], t[j].responder) == LastFirst(events, t[j].responder) {
        LastFirstMore(events, e, t[j].responder);
      }
    }
  }

  lemma StepInOrder(p: Profile, s: Scan, events: seq<Event>, e: Event)
    requires InOrder(events, s.table)
    ensures InOrder(events + [e], Step(p, s, e).table)
  {
    if e.Skip? {
      SameInOrder(events, e, s.table);
    } else {
      var slot := Lookup(s.table, e.responder);
      var slot' := ReceiveEvent(p, slot, e).slot;
      KeptOpen(p, slot, e);
      if slot'.None? {
        WithoutInOrder(events, e, s.table, e.responder);
      } else if slot.Some? {
        SameInOrder(events, e, s.table);
        ReplaceInOrder(events + [e], s.table, e.responder, slot'.value);
      } else {
        AppendInOrder(events, e, s.table, slot'.value);
      }
    }
  }

  lemma {:induction false} RunInOrder(p: Profile, s: Scan, done: seq<Event>, events: seq<Event>)
    requires InOrder(done, s.table)
    ensures InOrder(done + events, Run(p, s, events).table)
    decreases |events|
  {
    if events == [] {
      assert done + events == done;
    } else {
      StepInOrder(p, s, done, events[0]);
      RunInOrder(p, Step(p, s, events[0]), done + [events[0]], events[1..]);
      assert done + [events[0]] + events[1..] == done + events;
    }
  }

  // ---------------------------------------------------------------------
  // The reports
  // ---------------------------------------------------------------------

  function Truncations(t: Table): (issues: seq<Issue>)
    ensures |issues| == |t|
    ensures forall i | 0 <= i < |t| ::
              issues[i] == Issue(t[i].responder, Truncated(t[i].assembly.declared, |t[i].assembly.payload|))
  {
    seq(|t|, i requires 0 <= i < |t| => Issue(t[i].responder, Truncated(t[i].assembly.declared, |t[i].assembly.payload|)))
  }

  lemma TruncationsCons(t: Table)
    requires t != []
    ensures Truncations(t) == Issues(t[0].responder, [Truncated(t[0].assembly.declared, |t[0].assembly.payload|)]) + Truncations(t[1..])
  {
  }

  lemma {:induction false} DrainInOrder(p: Profile, s: Scan)
    ensures Drain(p, s).issues == s.issues + Truncations(s.table)
    decreases |s.table|
  {
    if s.table == [] {
      assert s.issues + [] == s.issues;
    } else {
      var e := s.table[0];
      var o := Leftover(p, e);
      var first := Issues(e.responder, o.problems);
      DrainInOrder(p, Scan(s.table[1..], s.matches + Matches(e.responder, o.payloads), s.issues + first));
      TruncationsCons(s.table);
      Regroup(s.issues, first, Truncations(s.table[1..]));
    }
  }

  /** At the end of an answer come the truncated messages, in the order in which
      their responders sent their last first frames. */
  lemma TruncatedInOrder(p: Profile, events: seq<Event>)
    ensures var t := Run(p, Fresh, events).table;
            Collected(p, events).issues == Run(p, Fresh, events).issues + Truncations(t)
            && forall i, j | 0 <= i < j < |t| :: LastFirst(events, t[i].responder) < LastFirst(events, t[j].responder)
  {
    var t := Run(p, Fresh, events).table;
    RunInOrder(p, Fresh, [], events);
    assert [] + events == events;
    DrainInOrder(p, Run(p, Fresh, events));
    forall i, j | 0 <= i < j < |t| ensures LastFirst(events, t[i].responder) < LastFirst(events, t[j].responder) {
      InOrderAt(events, t, i, j);
    }
  }
}
