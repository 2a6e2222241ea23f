/**
 * Nothing a responder sends is lost silently: every line with data leaves a
 * match, an issue or a longer partial message, and partial messages are reported
 * in the end.
 */
module Accounting {
  import opened Prelude
  import opened IsoTp
  import opened ReassemblyTable

  /** A line that carries nothing for the reader: the UDS reader passes over a
      header without data, the Mode 03 reader reports it. */
  predicate Blank(p: Profile, e: Event) {
    e.Skip? || (p.Uds? && e.Frame? && e.bytes == [])
  }

  /** Neither payload nor issue. */
  predicate Unheard(o: Reception) { o.payloads == [] && o.problems == [] }

  /** A partial message begins or grows. */
  predicate Gains(slot: Option<Assembly>, slot': Option<Assembly>) {
    slot'.Some? && (slot.None? || |slot'.value.payload| > |slot.value.payload|)
  }

  lemma DeliveredIsHeard(p: Profile, slot: Option<Assembly>, payload: seq<byte>, strict: bool)
    ensures var o := Deliver(p, slot, payload, strict);
            o.slot == slot && (Unheard(o) <==> p.Uds? && payload == [])
  {
  }

  lemma SingleIsHeard(p: Profile, slot: Option<Assembly>, f: seq<byte>)
    requires f != []
    ensures var o := ReceiveSingle(p, slot, f); o.slot == slot && !Unheard(o)
  {
    var declared := f[0] % 16;
    if 1 <= declared < |f| {
      DeliveredIsHeard(p, slot, f[1..][..declared], false);
    }
  }

  lemma FirstIsHeard(slot: Option<Assembly>, f: seq<byte>)
    ensures var o := ReceiveFirst(slot, f); Unheard(o) <==> Gains(slot, o.slot)
  {
  }

  lemma ConsecutiveIsHeard(p: Profile, slot: Option<Assembly>, f: seq<byte>)
    requires f != [] && (slot.Some? ==> Sound(slot.value))
    ensures var o := ReceiveConsecutive(p, slot, f); Unheard(o) <==> Gains(slot, o.slot)
  {
    if slot.Some? && |f| >= 2 {
      var a := slot.value;
      var remaining := a.declared - |a.payload|;
      if |f| - 1 >= remaining {
        DeliveredIsHeard(p, None, a.payload + f[1..][..remaining], true);
      }
    }
  }

  lemma FrameIsHeard(p: Profile, slot: Option<Assembly>, f: seq<byte>)
    requires slot.Some? ==> Sound(slot.value)
    ensures var o := Receive(p, slot, f);
            Unheard(o) <==> (p.Uds? && f == [] && o.slot == slot) || Gains(slot, o.slot)
  {
    if f != [] && f[0] / 16 == 0 {
      SingleIsHeard(p, slot, f);
    } else if f != [] && f[0] / 16 == 1 {
      FirstIsHeard(slot, f);
    } else if f != [] && f[0] / 16 == 2 {
      ConsecutiveIsHeard(p, slot, f);
    } else {
      DeliveredIsHeard(p, slot, f, false);
    }
  }

  /** A line leaves neither payload nor issue exactly when it is blank or lets a
      partial message begin or grow. */
  lemma NothingLost(p: Profile, slot: Option<Assembly>, e: Event)
    requires !e.Skip? && (slot.Some? ==> Sound(slot.value))
    ensures var o := ReceiveEvent(p, slot, e);
            Unheard(o) <==> (Blank(p, e) && o.slot == slot) || Gains(slot, o.slot)
  {
    if e.Frame? {
      FrameIsHeard(p, slot, e.bytes);
    }
  }

  /** The scan holds something of `r`. */
  predicate Noticed(s: Scan, r: Responder) {
    Lookup(s.table, r).Some? || MatchesOf(s.matches, r) != [] || IssuesOf(s.issues, r) != []
  }

  predicate Speaks(p: Profile, e: Event, r: Responder) { OfEvent(r)(e) && !Blank(p, e) }

  lemma StepNotices(p: Profile, s: Scan, e: Event, r: Responder)
    requires TableInv(s.table)
    ensures Noticed(Step(p, s, e), r) <==> Noticed(s, r) || Speaks(p, e, r)
  {
    if !e.Skip? {
      var slot := Lookup(s.table, e.responder);
      var o := ReceiveEvent(p, slot, e);
      LookupSound(s.table, e.responder);
      NothingLost(p, slot, e);
      LookupPut(s.table, e.responder, o.slot, r);
      OutputsOnly(s.matches, s.issues, e.responder, o, r);
      BlankChangesNothing(p, slot, e);
    }
  }

  lemma BlankChangesNothing(p: Profile, slot: Option<Assembly>, e: Event)
    requires !e.Skip?
    ensures Blank(p, e) ==> ReceiveEvent(p, slot, e) == Reception(slot, [], [])
  {
  }

  lemma {:induction false} RunNotices(p: Profile, s: Scan, events: seq<Event>, r: Responder)
    requires TableInv(s.table)
    ensures Noticed(Run(p, s, events), r) <==>
            Noticed(s, r) || exists i | 0 <= i < |events| :: Speaks(p, events[i], r)
    decreases |events|
  {
    if events != [] {
      StepKeeps(p, s, events[0]);
      StepNotices(p, s, events[0], r);
      RunNotices(p, Step(p, s, events[0]), events[1..], r);
      assert forall i | 0 < i < |events| :: events[i] == events[1..][i - 1];
    }
  }

  /** Draining turns every partial message into an issue. */
  lemma {:induction false} DrainNotices(p: Profile, s: Scan, r: Responder)
    ensures Drain(p, s).table == [] && (Noticed(Drain(p, s), r) <==> Noticed(s, r))
    decreases |s.table|
  {
    if s.table != [] {
      var e := s.table[0];
      var o := Leftover(p, e);
      OutputsOnly(s.matches, s.issues, e.responder, o, r);
      DrainNotices(p, Scan(s.table[1..], s.matches + Matches(e.responder, o.payloads),
                           s.issues + Issues(e.responder, o.problems)), r);
    }
  }

  /** No silent loss, both ways: the answer holds neither a match nor an issue of
      a responder exactly when that responder sent nothing but blank lines. */
  lemma NoSilentLoss(p: Profile, events: seq<Event>, r: Responder)
    ensures MatchesOf(Collected(p, events).matches, r) == [] && IssuesOf(Collected(p, events).issues, r) == [] <==>
            forall i | 0 <= i < |events| :: !Speaks(p, events[i], r)
  {
    RunNotices(p, Fresh, events, r);
    DrainNotices(p, Run(p, Fresh, events), r);
  }
}
