/**
 * What the table of partial messages keeps, step by step and over whole runs:
 * it stays well formed, it refines a map keyed by responder, and no responder
 * can influence what is reported for another one.
 */
module ReassemblyTable {
  import opened Prelude
  import opened IsoTp

  // ---------------------------------------------------------------------
  // The table invariant
  // ---------------------------------------------------------------------

  /** A partial message in flight: a 12-bit length not yet reached. */
  ghost predicate Sound(a: Assembly) {
    3 <= a.declared <= 4095 && |a.payload| < a.declared && a.next < 16
  }

  ghost predicate Unique(t: Table) {
    forall i, j | 0 <= i < j < |t| :: t[i].responder != t[j].responder
  }

  ghost predicate TableInv(t: Table) {
    Unique(t) && forall i | 0 <= i < |t| :: Sound(t[i].assembly)
  }

  lemma {:induction false} LookupIsEntry(t: Table, r: Responder)
    ensures Lookup(t, r).Some? <==> exists i | 0 <= i < |t| :: t[i].responder == r
    ensures Lookup(t, r).Some? ==> exists i | 0 <= i < |t| :: t[i] == Entry(r, Lookup(t, r).value)
  {
    if t != [] {
      LookupIsEntry(t[1..], r);
      if t[0].responder != r && Lookup(t, r).Some? {
        var i :| 0 <= i < |t[1..]| && t[1..][i] == Entry(r, Lookup(t[1..], r).value);
        assert t[i + 1] == Entry(r, Lookup(t, r).value);
      } else if t[0].responder == r {
        assert t[0] == Entry(r, Lookup(t, r).value);
      } else {
        assert forall i | 0 < i < |t| :: t[i] == t[1..][i - 1];
      }
    }
  }

  lemma {:induction false} UniqueLookup(t: Table, i: nat)
    requires Unique(t) && i < |t|
    ensures Lookup(t, t[i].responder) == Some(t[i].assembly)
  {
    if i > 0 {
      assert t[1..][i - 1] == t[i];
      UniqueLookup(t[1..], i - 1);
    }
  }

  lemma {:induction false} WithoutIsUnique(t: Table, r: Responder)
    requires Unique(t)
    ensures Unique(Without(t, r))
  {
    if t != [] {
      WithoutIsUnique(t[1..], r);
      WithoutEntries(t[1..], r);
    }
  }

  lemma WithoutEntries(t: Table, r: Responder)
    ensures forall e <- Without(t, r) :: e in t && e.responder != r
  {
    FilterIn(t, (e: Entry) => e.responder != r);
    assert Without(t, r) == Filter(t, (e: Entry) => e.responder != r);
  }

  lemma {:induction false} ReplaceIsUnique(t: Table, r: Responder, a: Assembly)
    requires Unique(t)
    ensures |Replace(t, r, a)| == |t|
    ensures forall i | 0 <= i < |t| :: Replace(t, r, a)[i].responder == t[i].responder
    ensures Unique(Replace(t, r, a))
  {
    if t != [] && t[0].responder != r {
      ReplaceIsUnique(t[1..], r, a);
    }
  }

  lemma {:induction false} ReplaceEntries(t: Table, r: Responder, a: Assembly)
    ensures forall e <- Replace(t, r, a) :: e in t || e == Entry(r, a)
  {
    if t != [] && t[0].responder != r {
      ReplaceEntries(t[1..], r, a);
    }
  }

  lemma PutIsUnique(t: Table, r: Responder, slot: Option<Assembly>)
    requires Unique(t)
    ensures Unique(Put(t, r, slot))
  {
    if slot.None? {
      WithoutIsUnique(t, r);
    } else if Lookup(t, r).Some? {
      ReplaceIsUnique(t, r, slot.value);
    } else {
      LookupIsEntry(t, r);
    }
  }

  lemma PutEntries(t: Table, r: Responder, slot: Option<Assembly>)
    ensures forall e <- Put(t, r, slot) :: e in t || (slot.Some? && e == Entry(r, slot.value))
  {
    if slot.None? {
      WithoutEntries(t, r);
    } else if Lookup(t, r).Some? {
      ReplaceEntries(t, r, slot.value);
    }
  }

  lemma PutKeeps(t: Table, r: Responder, slot: Option<Assembly>)
    requires TableInv(t) && (slot.Some? ==> Sound(slot.value))
    ensures TableInv(Put(t, r, slot))
  {
    PutIsUnique(t, r, slot);
    PutEntries(t, r, slot);
    forall i | 0 <= i < |Put(t, r, slot)| ensures Sound(Put(t, r, slot)[i].assembly) {
      assert Put(t, r, slot)[i] in Put(t, r, slot);
    }
  }

  lemma LookupSound(t: Table, r: Responder)
    requires TableInv(t)
    ensures Lookup(t, r).Some? ==> Sound(Lookup(t, r).value)
  {
    LookupIsEntry(t, r);
  }

  /** No line makes a partial message unsound. */
  lemma ReceiveKeepsSound(p: Profile, slot: Option<Assembly>, e: Event)
    requires !e.Skip? && (slot.Some? ==> Sound(slot.value))
    ensures var o := ReceiveEvent(p, slot, e); o.slot.Some? ==> Sound(o.slot.value)
  {
  }

  lemma StepKeeps(p: Profile, s: Scan, e: Event)
    requires TableInv(s.table)
    ensures TableInv(Step(p, s, e).table)
  {
    if !e.Skip? {
      LookupSound(s.table, e.responder);
      ReceiveKeepsSound(p, Lookup(s.table, e.responder), e);
      PutKeeps(s.table, e.responder, ReceiveEvent(p, Lookup(s.table, e.responder), e).slot);
    }
  }

  /** Over any input the table has one entry per responder and every entry is
      a message whose declared length has not been reached. */
  lemma {:induction false} RunKeeps(p: Profile, s: Scan, events: seq<Event>)
    requires TableInv(s.table)
    ensures TableInv(Run(p, s, events).table)
    decreases |events|
  {
    if events != [] {
      StepKeeps(p, s, events[0]);
      RunKeeps(p, Step(p, s, events[0]), events[1..]);
    }
  }

  /** Hence a consecutive frame always finds room: the branch for an already
      complete message is dead, and the remaining length is positive. */
  lemma AlwaysRoomForConsecutive(p: Profile, events: seq<Event>, r: Responder)
    ensures var slot := Lookup(Run(p, Fresh, events).table, r);
            slot.Some? ==> |slot.value.payload| < slot.value.declared <= 4095
  {
    RunKeeps(p, Fresh, events);
    LookupSound(Run(p, Fresh, events).table, r);
  }

  lemma {:induction false} LookupWithout(t: Table, r: Responder, q: Responder)
    ensures Lookup(Without(t, r), q) == if q == r then None else Lookup(t, q)
  {
    if t != [] {
      LookupWithout(t[1..], r, q);
    }
  }

  lemma {:induction false} LookupReplace(t: Table, r: Responder, a: Assembly, q: Responder)
    requires Lookup(t, r).Some?
    ensures Lookup(Replace(t, r, a), q) == if q == r then Some(a) else Lookup(t, q)
  {
    if t[0].responder != r {
      LookupReplace(t[1..], r, a, q);
    }
  }

  lemma {:induction false} LookupAppend(t: Table, e: Entry, q: Responder)
    ensures Lookup(t + [e], q) ==
            if Lookup(t, q).Some? then Lookup(t, q)
            else if e.responder == q then Some(e.assembly) else None
  {
    if t != [] {
      assert (t + [e])[1..] == t[1..] + [e];
      LookupAppend(t[1..], e, q);
    }
  }

  lemma LookupPut(t: Table, r: Responder, slot: Option<Assembly>, q: Responder)
    ensures Lookup(Put(t, r, slot), q) == if q == r then slot else Lookup(t, q)
  {
    if slot.None? {
      LookupWithout(t, r, q);
    } else if Lookup(t, r).Some? {
      LookupReplace(t, r, slot.value, q);
    } else {
      LookupAppend(t, Entry(r, slot.value), q);
    }
  }

  /** Writing back what is there changes nothing. */
  lemma {:induction false} ReplaceSame(t: Table, r: Responder, a: Assembly)
    requires Lookup(t, r) == Some(a)
    ensures Replace(t, r, a) == t
  {
    if t[0].responder != r {
      ReplaceSame(t[1..], r, a);
    } else {
      assert t == [Entry(r, a)] + t[1..];
    }
  }

  lemma {:induction false} WithoutSame(t: Table, r: Responder)
    requires Lookup(t, r).None?
    ensures Without(t, r) == t
  {
    if t != [] {
      WithoutSame(t[1..], r);
    }
  }

  lemma PutSame(t: Table, r: Responder)
    ensures Put(t, r, Lookup(t, r)) == t
  {
    if Lookup(t, r).None? {
      WithoutSame(t, r);
    } else {
      ReplaceSame(t, r, Lookup(t, r).value);
    }
  }

  // ---------------------------------------------------------------------
  // What a partial message is made of
  // ---------------------------------------------------------------------

  /** The frames accepted into the message in flight after one more line. */
  function Trail(p: Profile, slot: Option<Assembly>, trail: seq<seq<byte>>, e: Event): seq<seq<byte>>
    requires !e.Skip?
  {
    var o := ReceiveEvent(p, slot, e);
    if o.slot.None? then []
    else if slot.None? && e.Frame? then [e.bytes]
    else if slot == o.slot || !e.Frame? then trail
    else trail + [e.bytes]
  }

  function Tails(frames: seq<seq<byte>>): seq<byte> {
    if frames == [] then []
    else Tails(frames[..|frames| - 1]) + (if frames[|frames| - 1] == [] then [] else frames[|frames| - 1][1..])
  }

  predicate Numbered(f: seq<byte>, k: nat) {
    |f| >= 2 && f[0] == 0x20 + k % 16
  }

  /** One first frame and then consecutive frames numbered 1, 2, .. modulo 16. */
  ghost predicate Gathers(frames: seq<seq<byte>>, a: Assembly) {
    frames != [] && |frames[0]| >= 3 && frames[0][0] / 16 == 1
    && a.declared == Declared(frames[0])
    && (forall k | 1 <= k < |frames| :: Numbered(frames[k], k))
    && a.payload == frames[0][2..] + Tails(frames[1..])
    && a.next == |frames| % 16
  }

  lemma TailsMore(frames: seq<seq<byte>>, f: seq<byte>)
    requires f != []
    ensures Tails(frames + [f]) == Tails(frames) + f[1..]
  {
    assert (frames + [f])[..|frames|] == frames;
  }

  lemma NextNumber(n: nat)
    ensures (n % 16 + 1) % 16 == (n + 1) % 16
  {
  }

  lemma GathersMore(trail: seq<seq<byte>>, a: Assembly, f: seq<byte>)
    requires Gathers(trail, a) && |f| >= 2 && f[0] == 0x20 + a.next
    ensures Gathers(trail + [f], Assembly(a.declared, a.payload + f[1..], (a.next + 1) % 16))
  {
    var frames := trail + [f];
    NextNumber(|trail|);
    TailsMore(trail[1..], f);
    assert frames[1..] == trail[1..] + [f];
    forall k | 1 <= k < |frames| ensures Numbered(frames[k], k) {
      if k < |trail| {
        assert frames[k] == trail[k];
      }
    }
    assert frames[0][2..] + Tails(frames[1..]) == a.payload + f[1..];
  }

  lemma GathersFirst(f: seq<byte>)
    requires |f| >= 3 && f[0] / 16 == 1
    ensures Gathers([f], Assembly(Declared(f), f[2..], 1))
  {
    assert [f][1..] == [];
  }

  /** An accepted line either starts the message, extends it, or leaves it alone. */
  lemma AcceptedChange(p: Profile, slot: Option<Assembly>, e: Event)
    requires !e.Skip?
    ensures var o := ReceiveEvent(p, slot, e);
            o.slot.Some? && slot != o.slot ==>
              e.Frame? &&
              (slot.None? ==> |e.bytes| >= 3 && e.bytes[0] / 16 == 1
                              && o.slot.value == Assembly(Declared(e.bytes), e.bytes[2..], 1)) &&
              (slot.Some? ==> |e.bytes| >= 2 && e.bytes[0] / 16 == 2 && e.bytes[0] % 16 == slot.value.next
                              && o.slot.value == Assembly(slot.value.declared, slot.value.payload + e.bytes[1..],
                                                          (slot.value.next + 1) % 16))
  {
  }

  /** The next sequence number is one plus the number of accepted consecutive
      frames, modulo 16, and the bytes are those of the accepted frames. */
  lemma TrailGathers(p: Profile, slot: Option<Assembly>, trail: seq<seq<byte>>, e: Event)
    requires !e.Skip?
    requires slot.Some? ==> Gathers(trail, slot.value)
    ensures var o := ReceiveEvent(p, slot, e);
            o.slot.Some? ==> Gathers(Trail(p, slot, trail, e), o.slot.value)
  {
    AcceptedChange(p, slot, e);
    var after := ReceiveEvent(p, slot, e).slot;
    if after.Some? && slot != after {
      if slot.None? {
        GathersFirst(e.bytes);
      } else {
        GathersMore(trail, slot.value, e.bytes);
      }
    }
  }

  // ---------------------------------------------------------------------
  // Over whole runs: the frames a partial message is made of
  // ---------------------------------------------------------------------

  /** A responder's slot after its own lines. */
  function SlotOf(p: Profile, slot: Option<Assembly>, own: seq<Event>): Option<Assembly>
    decreases |own|
  {
    if own == [] then slot
    else SlotOf(p, if own[0].Skip? then slot else ReceiveEvent(p, slot, own[0]).slot, own[1..])
  }

  /** The frames accepted into it. */
  function TrailOf(p: Profile, slot: Option<Assembly>, trail: seq<seq<byte>>, own: seq<Event>): seq<seq<byte>>
    decreases |own|
  {
    if own == [] then trail
    else if own[0].Skip? then TrailOf(p, slot, trail, own[1..])
    else TrailOf(p, ReceiveEvent(p, slot, own[0]).slot, Trail(p, slot, trail, own[0]), own[1..])
  }

  /** A first frame that announces more bytes than it carries. */
  predicate IsFirst(f: seq<byte>) {
    |f| >= 3 && f[0] / 16 == 1 && 3 <= Declared(f) && |f| - 2 < Declared(f)
  }

  predicate Opens(e: Event) { e.Frame? && IsFirst(e.bytes) }

  predicate Continues(e: Event) { e.Frame? && e.bytes != [] && e.bytes[0] / 16 == 2 }

  /** All consecutive frames among some lines, in order. */
  function Continuations(lines: seq<Event>): seq<seq<byte>> {
    if lines == [] then []
    else
      var last := lines[|lines| - 1];
      Continuations(lines[..|lines| - 1]) + if Continues(last) then [last.bytes] else []
  }

  /** `k` is the last first frame among the lines, and `trail` is that frame with
      every consecutive frame after it. */
  predicate TrailStartsAt(own: seq<Event>, k: nat, trail: seq<seq<byte>>) {
    k < |own| && Opens(own[k]) && (forall j | k < j < |own| :: !Opens(own[j]))
    && trail == [own[k].bytes] + Continuations(own[k + 1..])
  }

  ghost predicate IsTrail(own: seq<Event>, trail: seq<seq<byte>>) {
    exists k :: TrailStartsAt(own, k, trail)
  }

  /** A line that keeps a message open starts it, continues it, or is neither a
      first nor a consecutive frame. */
  lemma KeptOpen(p: Profile, slot: Option<Assembly>, e: Event)
    requires !e.Skip?
    ensures var o := ReceiveEvent(p, slot, e);
            o.slot.Some? ==>
              if slot.None? then Opens(e)
              else !Opens(e) && (Continues(e) <==> o.slot != slot)
  {
  }

  lemma TrailBegins(own: seq<Event>, e: Event)
    requires Opens(e)
    ensures IsTrail(own + [e], [e.bytes])
  {
    assert (own + [e])[|own| + 1..] == [];
    assert TrailStartsAt(own + [e], |own|, [e.bytes]);
  }

  lemma TrailGrows(own: seq<Event>, e: Event, trail: seq<seq<byte>>)
    requires IsTrail(own, trail) && !Opens(e)
    ensures IsTrail(own + [e], trail + if Continues(e) then [e.bytes] else [])
  {
    var k :| TrailStartsAt(own, k, trail);
    var after := (own + [e])[k + 1..];
    assert after == own[k + 1..] + [e] && after[..|after| - 1] == own[k + 1..];
    assert TrailStartsAt(own + [e], k, trail + if Continues(e) then [e.bytes] else []);
  }

  lemma OwnStep(p: Profile, slot: Option<Assembly>, trail: seq<seq<byte>>, done: seq<Event>, e: Event)
    requires !e.Skip? && Started(slot, done, trail)
    ensures Started(ReceiveEvent(p, slot, e).slot, done + [e], Trail(p, slot, trail, e))
  {
    KeptOpen(p, slot, e);
    if ReceiveEvent(p, slot, e).slot.Some? {
      if slot.None? {
        TrailBegins(done, e);
      } else {
        TrailGrows(done, e, trail);
        assert trail + [] == trail;
      }
    }
  }

  predicate NoSkip(own: seq<Event>) { forall i | 0 <= i < |own| :: !own[i].Skip? }

  /** The trail fits the slot. */
  ghost predicate Fitting(slot: Option<Assembly>, trail: seq<seq<byte>>) {
    slot.Some? ==> Gathers(trail, slot.value)
  }

  lemma {:induction false} OwnGathers(p: Profile, slot: Option<Assembly>, trail: seq<seq<byte>>, own: seq<Event>)
    requires NoSkip(own) && Fitting(slot, trail)
    ensures Fitting(SlotOf(p, slot, own), TrailOf(p, slot, trail, own))
    decreases |own|
  {
    if own != [] {
      TrailGathers(p, slot, trail, own[0]);
      OwnGathers(p, ReceiveEvent(p, slot, own[0]).slot, Trail(p, slot, trail, own[0]), own[1..]);
    }
  }

  /** The trail starts at the last first frame, if a message is open. */
  ghost predicate Started(slot: Option<Assembly>, own: seq<Event>, trail: seq<seq<byte>>) {
    slot.Some? ==> IsTrail(own, trail)
  }

  lemma {:induction false} OwnIsTrail(p: Profile, slot: Option<Assembly>, trail: seq<seq<byte>>,
                                      done: seq<Event>, own: seq<Event>)
    requires NoSkip(own) && Started(slot, done, trail)
    ensures Started(SlotOf(p, slot, own), done + own, TrailOf(p, slot, trail, own))
    decreases |own|
  {
    if own == [] {
      assert done + own == done;
    } else {
      OwnStep(p, slot, trail, done, own[0]);
      OwnIsTrail(p, ReceiveEvent(p, slot, own[0]).slot, Trail(p, slot, trail, own[0]), done + [own[0]], own[1..]);
      assert (done + [own[0]]) + own[1..] == done + own;
    }
  }

  lemma {:induction false} RunSlot(p: Profile, s: Scan, events: seq<Event>, r: Responder)
    ensures Lookup(Run(p, s, events).table, r) == SlotOf(p, Lookup(s.table, r), EventsOf(events, r))
    decreases |events|
  {
    if events != [] {
      var e := events[0];
      EventsOfTail(events, r);
      if !e.Skip? {
        LookupPut(s.table, e.responder, ReceiveEvent(p, Lookup(s.table, e.responder), e).slot, r);
      }
      RunSlot(p, Step(p, s, e), events[1..], r);
    }
  }

  lemma EventsOfTail(events: seq<Event>, r: Responder)
    requires events != []
    ensures EventsOf(events, r) ==
            if OfEvent(r)(events[0]) then [events[0]] + EventsOf(events[1..], r) else EventsOf(events[1..], r)
  {
  }

  lemma {:induction false} OwnIsNoSkip(events: seq<Event>, r: Responder)
    ensures forall i | 0 <= i < |EventsOf(events, r)| ::
              !EventsOf(events, r)[i].Skip? && EventsOf(events, r)[i].responder == r
  {
    if events != [] {
      OwnIsNoSkip(events[1..], r);
      EventsOfTail(events, r);
    }
  }

  /** Over any input: a partial message of `r` is gathered from the last first
      frame that `r` sent and every consecutive frame that `r` sent after it.
      None was passed over, they are numbered 1, 2, .. modulo 16, and the next
      number is one plus their count, modulo 16. */
  lemma RunGathers(p: Profile, events: seq<Event>, r: Responder)
    ensures var slot, own := Lookup(Run(p, Fresh, events).table, r), EventsOf(events, r);
            slot.Some? ==>
              Gathers(TrailOf(p, None, [], own), slot.value) && IsTrail(own, TrailOf(p, None, [], own))
  {
    RunSlot(p, Fresh, events, r);
    OwnIsNoSkip(events, r);
    OwnGathers(p, None, [], EventsOf(events, r));
    OwnIsTrail(p, None, [], [], EventsOf(events, r));
    assert [] + EventsOf(events, r) == EventsOf(events, r);
  }

  // ---------------------------------------------------------------------
  // The table refines a map
  // ---------------------------------------------------------------------

  function AsMap(t: Table): map<Responder, Assembly> {
    if t == [] then map[] else AsMap(t[1..])[t[0].responder := t[0].assembly]
  }

  lemma {:induction false} LookupAsMap(t: Table, r: Responder)
    ensures Lookup(t, r) == if r in AsMap(t) then Some(AsMap(t)[r]) else None
  {
    if t != [] {
      LookupAsMap(t[1..], r);
    }
  }

  lemma {:induction false} AsMapAppend(t: Table, e: Entry)
    requires Lookup(t, e.responder).None?
    ensures AsMap(t + [e]) == AsMap(t)[e.responder := e.assembly]
  {
    if t != [] {
      assert (t + [e])[1..] == t[1..] + [e];
      AsMapAppend(t[1..], e);
    }
  }

  lemma {:induction false} AsMapReplace(t: Table, r: Responder, a: Assembly)
    requires Lookup(t, r).Some?
    ensures AsMap(Replace(t, r, a)) == AsMap(t)[r := a]
  {
    if t[0].responder != r {
      AsMapReplace(t[1..], r, a);
    }
  }

  lemma {:induction false} AsMapWithout(t: Table, r: Responder)
    ensures AsMap(Without(t, r)) == AsMap(t) - {r}
  {
    if t != [] {
      AsMapWithout(t[1..], r);
    }
  }

  /** The same reader with a map in place of the vector. */
  datatype MapScan = MapScan(open: map<Responder, Assembly>, matches: seq<Match>, issues: seq<Issue>)

  function StepMap(p: Profile, s: MapScan, e: Event): MapScan {
    if e.Skip? then s
    else
      var r := e.responder;
      var o := ReceiveEvent(p, if r in s.open then Some(s.open[r]) else None, e);
      MapScan(if o.slot.Some? then s.open[r := o.slot.value] else s.open - {r},
              s.matches + Matches(r, o.payloads), s.issues + Issues(r, o.problems))
  }

  function RunMap(p: Profile, s: MapScan, events: seq<Event>): MapScan
    decreases |events|
  {
    if events == [] then s else RunMap(p, StepMap(p, s, events[0]), events[1..])
  }

  function Abstract(s: Scan): MapScan {
    MapScan(AsMap(s.table), s.matches, s.issues)
  }

  lemma StepRefinesMap(p: Profile, s: Scan, e: Event)
    ensures Abstract(Step(p, s, e)) == StepMap(p, Abstract(s), e)
  {
    if !e.Skip? {
      var r := e.responder;
      LookupAsMap(s.table, r);
      var slot := ReceiveEvent(p, Lookup(s.table, r), e).slot;
      if slot.None? {
        AsMapWithout(s.table, r);
      } else if Lookup(s.table, r).Some? {
        AsMapReplace(s.table, r, slot.value);
      } else {
        AsMapAppend(s.table, Entry(r, slot.value));
      }
    }
  }

  /** The vector with its position/push/remove/retain refines a map. */
  lemma {:induction false} RunRefinesMap(p: Profile, s: Scan, events: seq<Event>)
    ensures Abstract(Run(p, s, events)) == RunMap(p, Abstract(s), events)
    decreases |events|
  {
    if events != [] {
      StepRefinesMap(p, s, events[0]);
      RunRefinesMap(p, Step(p, s, events[0]), events[1..]);
    }
  }

  // ---------------------------------------------------------------------
  // Non-interference
  // ---------------------------------------------------------------------

  function OfEntry(r: Responder): Entry -> bool { (e: Entry) => e.responder == r }
  function OfMatch(r: Responder): Match -> bool { (m: Match) => m.responder == r }
  function OfIssue(r: Responder): Issue -> bool { (i: Issue) => i.responder == r }
  function OfEvent(r: Responder): Event -> bool { (e: Event) => !e.Skip? && e.responder == r }

  function MatchesOf(ms: seq<Match>, r: Responder): seq<Match> { Filter(ms, OfMatch(r)) }
  function IssuesOf(es: seq<Issue>, r: Responder): seq<Issue> { Filter(es, OfIssue(r)) }
  function EventsOf(events: seq<Event>, r: Responder): seq<Event> { Filter(events, OfEvent(r)) }

  /** The part of a scan that belongs to `r`. */
  function Only(s: Scan, r: Responder): Scan {
    Scan(Filter(s.table, OfEntry(r)), MatchesOf(s.matches, r), IssuesOf(s.issues, r))
  }

  lemma {:induction false} LookupOnly(t: Table, r: Responder)
    ensures Lookup(Filter(t, OfEntry(r)), r) == Lookup(t, r)
  {
    if t != [] {
      LookupOnly(t[1..], r);
    }
  }

  lemma {:induction false} WithoutOnly(t: Table, r: Responder, q: Responder)
    ensures Filter(Without(t, q), OfEntry(r)) == if q == r then [] else Filter(t, OfEntry(r))
    ensures Without(Filter(t, OfEntry(r)), r) == []
  {
    if t != [] {
      WithoutOnly(t[1..], r, q);
    }
  }

  lemma {:induction false} ReplaceOnly(t: Table, r: Responder, q: Responder, a: Assembly)
    ensures Filter(Replace(t, q, a), OfEntry(r)) ==
            if q == r then Replace(Filter(t, OfEntry(r)), r, a) else Filter(t, OfEntry(r))
  {
    if t != [] {
      ReplaceOnly(t[1..], r, q, a);
    }
  }

  lemma PutOnly(t: Table, r: Responder, q: Responder, slot: Option<Assembly>)
    ensures Filter(Put(t, q, slot), OfEntry(r)) ==
            if q == r then Put(Filter(t, OfEntry(r)), r, slot) else Filter(t, OfEntry(r))
  {
    LookupOnly(t, r);
    if slot.None? {
      WithoutOnly(t, r, q);
    } else if Lookup(t, q).Some? {
      ReplaceOnly(t, r, q, slot.value);
    } else {
      FilterAppend(t, [Entry(q, slot.value)], OfEntry(r));
    }
  }

  lemma OutputsOnly(ms: seq<Match>, es: seq<Issue>, q: Responder, o: Reception, r: Responder)
    ensures MatchesOf(ms + Matches(q, o.payloads), r) ==
            MatchesOf(ms, r) + if q == r then Matches(q, o.payloads) else []
    ensures IssuesOf(es + Issues(q, o.problems), r) ==
            IssuesOf(es, r) + if q == r then Issues(q, o.problems) else []
  {
    FilterAppend(ms, Matches(q, o.payloads), OfMatch(r));
    FilterAppend(es, Issues(q, o.problems), OfIssue(r));
    if q == r {
      FilterAll(Matches(q, o.payloads), OfMatch(r));
      FilterAll(Issues(q, o.problems), OfIssue(r));
    } else {
      FilterNone(Matches(q, o.payloads), OfMatch(r));
      FilterNone(Issues(q, o.problems), OfIssue(r));
    }
  }

  lemma StepOnly(p: Profile, s: Scan, e: Event, r: Responder)
    ensures Only(Step(p, s, e), r) == if OfEvent(r)(e) then Step(p, Only(s, r), e) else Only(s, r)
  {
    if !e.Skip? {
      var o := ReceiveEvent(p, Lookup(s.table, e.responder), e);
      LookupOnly(s.table, r);
      PutOnly(s.table, r, e.responder, o.slot);
      OutputsOnly(s.matches, s.issues, e.responder, o, r);
    }
  }

  /** Reading everything and then looking at `r` is reading `r`'s lines only. */
  lemma {:induction false} RunOnly(p: Profile, s: Scan, events: seq<Event>, r: Responder)
    ensures Only(Run(p, s, events), r) == Run(p, Only(s, r), EventsOf(events, r))
    decreases |events|
  {
    if events != [] {
      StepOnly(p, s, events[0], r);
      RunOnly(p, Step(p, s, events[0]), events[1..], r);
      assert EventsOf(events, r) ==
             (if OfEvent(r)(events[0]) then [events[0]] else []) + EventsOf(events[1..], r);
      if OfEvent(r)(events[0]) {
        assert EventsOf(events, r)[1..] == EventsOf(events[1..], r);
      } else {
        assert EventsOf(events, r) == EventsOf(events[1..], r);
      }
    }
  }

  lemma {:induction false} DrainOnly(p: Profile, s: Scan, r: Responder)
    ensures Only(Drain(p, s), r) == Drain(p, Only(s, r))
    decreases |s.table|
  {
    if s.table != [] {
      var e := s.table[0];
      var o := Leftover(p, e);
      var s' := Scan(s.table[1..], s.matches + Matches(e.responder, o.payloads),
                     s.issues + Issues(e.responder, o.problems));
      OutputsOnly(s.matches, s.issues, e.responder, o, r);
      DrainOnly(p, s', r);
      if e.responder == r {
        assert Only(s, r).table[1..] == Only(s', r).table;
      } else {
        assert Only(s, r) == Only(s', r);
      }
    }
  }

  function Collected(p: Profile, events: seq<Event>): Scan {
    Drain(p, Run(p, Fresh, events))
  }

  /** Whatever other responders send, in any interleaving, the scan restricted
      to `r` is the scan of `r`'s own lines. */
  lemma CollectedOnly(p: Profile, events: seq<Event>, r: Responder)
    ensures Only(Collected(p, events), r) == Collected(p, EventsOf(events, r))
  {
    RunOnly(p, Fresh, events, r);
    DrainOnly(p, Run(p, Fresh, events), r);
    assert Only(Fresh, r) == Fresh;
  }

  lemma {:induction false} FilterTwice<T>(s: seq<T>, keep: T -> bool)
    ensures Filter(Filter(s, keep), keep) == Filter(s, keep)
  {
    if s != [] {
      FilterTwice(s[1..], keep);
    }
  }

  lemma OwnEventsOnly(p: Profile, events: seq<Event>, r: Responder)
    ensures Only(Collected(p, EventsOf(events, r)), r) == Collected(p, EventsOf(events, r))
  {
    FilterTwice(events, OfEvent(r));
    CollectedOnly(p, EventsOf(events, r), r);
  }

  /** No line produced a match or an issue. */
  predicate Silent(p: Profile, events: seq<Event>) {
    Collected(p, events).matches == [] && Collected(p, events).issues == []
  }

  /** Non-interference of the normalizers. The matches of `r` never depend on
      other lines. Neither do the issues that name `r`, except that the final
      "not found" issue names no responder: for headerless lines they agree
      unless only the other lines produced anything. */
  lemma NonInterference(p: Profile, events: seq<Event>, r: Responder)
    ensures var all, own := Normalized(p, events), Normalized(p, EventsOf(events, r));
            MatchesOf(all.matches, r) == own.matches &&
            (r.Some? ==> IssuesOf(all.issues, r) == IssuesOf(own.issues, r)) &&
            (r.None? ==> (IssuesOf(all.issues, r) == IssuesOf(own.issues, r) <==>
              (Silent(p, EventsOf(events, r)) ==> Silent(p, events))))
  {
    CollectedOnly(p, events, r);
    OwnEventsOnly(p, events, r);
    var notFound := [Issue(None, NotFound)];
    assert IssuesOf(notFound, r) == if r.None? then notFound else [] by {
      assert notFound[1..] == [];
    }
  }

  /** What a named responder's own lines give is its part of the whole answer. */
  lemma OwnAnswer(p: Profile, events: seq<Event>, r: Responder, ms: seq<Match>, es: seq<Issue>)
    requires r.Some? && Normalized(p, EventsOf(events, r)) == Responses(ms, es)
    requires forall i | 0 <= i < |es| :: es[i].responder == r
    ensures MatchesOf(Normalized(p, events).matches, r) == ms
    ensures IssuesOf(Normalized(p, events).issues, r) == es
  {
    NonInterference(p, events, r);
    FilterAll(es, OfIssue(r));
  }

  // ---------------------------------------------------------------------
  // Selecting the answer of the expected responder
  // ---------------------------------------------------------------------

  datatype Selection =
    | Selected(payload: seq<byte>)
    | DidNotAnswer
    | Conflicting
    | Unexpected(observed: Responder)

  /** Only the expected responder is considered, and only if its answers agree. */
  function Select(ms: seq<Match>, target: string): Selection {
    var own := MatchesOf(ms, Some(target));
    if own == [] then DidNotAnswer
    else if exists i | 0 <= i < |own| :: own[i].payload != own[0].payload then Conflicting
    else Selected(own[0].payload)
  }

  function TargetedPayload(ms: seq<Match>, expected: string): Selection {
    if (exists i | 0 <= i < |ms| :: ms[i].responder == Some(expected)) || ms == [] then Select(ms, expected)
    else Unexpected(ms[0].responder)
  }

  lemma {:induction false} MatchesOfIsEmpty(ms: seq<Match>, r: Responder)
    ensures MatchesOf(ms, r) == [] <==> forall i | 0 <= i < |ms| :: ms[i].responder != r
  {
    if ms != [] {
      MatchesOfIsEmpty(ms[1..], r);
      assert forall i | 0 < i < |ms| :: ms[i] == ms[1..][i - 1];
    }
  }

  /** A targeted read succeeds exactly when the expected responder answered and
      all its answers carry the same bytes, which are then the result. */
  lemma SelectedMeans(ms: seq<Match>, target: string, payload: seq<byte>)
    ensures TargetedPayload(ms, target) == Selected(payload) <==>
            Match(Some(target), payload) in ms && forall m <- ms :: m.responder == Some(target) ==> m.payload == payload
  {
    var own := MatchesOf(ms, Some(target));
    MatchesOfIn(ms, Some(target));
    MatchesOfIsEmpty(ms, Some(target));
    assert own != [] ==> own[0] in own;
    assert forall i | 0 <= i < |own| :: own[i] in own;
  }

  lemma MatchesOfIn(ms: seq<Match>, r: Responder)
    ensures forall m :: m in MatchesOf(ms, r) <==> m in ms && m.responder == r
  {
    FilterIn(ms, OfMatch(r));
  }

  /** Whether a targeted read succeeds, and with which bytes, is decided by the
      lines of the expected responder alone. */
  lemma TargetedPayloadIsLocal(p: Profile, events: seq<Event>, other: seq<Event>, target: string, payload: seq<byte>)
    requires EventsOf(events, Some(target)) == EventsOf(other, Some(target))
    ensures TargetedPayload(Normalized(p, events).matches, target) == Selected(payload) <==>
            TargetedPayload(Normalized(p, other).matches, target) == Selected(payload)
  {
    NonInterference(p, events, Some(target));
    NonInterference(p, other, Some(target));
    MatchesOfIsEmpty(Normalized(p, events).matches, Some(target));
    MatchesOfIsEmpty(Normalized(p, other).matches, Some(target));
  }

  /** And how a read fails: nobody answered; others did, of which the first is named;
      or the expected responder contradicts itself. */
  lemma FailureMeans(ms: seq<Match>, target: string)
    ensures TargetedPayload(ms, target) == DidNotAnswer <==> ms == []
    ensures forall r :: TargetedPayload(ms, target) == Unexpected(r) <==>
              ms != [] && r == ms[0].responder && forall m <- ms :: m.responder != Some(target)
    ensures TargetedPayload(ms, target) == Conflicting <==>
              exists a, b | a in ms && b in ms :: a.responder == b.responder == Some(target) && a.payload != b.payload
  {
    var own := MatchesOf(ms, Some(target));
    MatchesOfIn(ms, Some(target));
    MatchesOfIsEmpty(ms, Some(target));
    assert forall i | 0 <= i < |own| :: own[i] in own;
    if a, b :| a in ms && b in ms && a.responder == b.responder == Some(target) && a.payload != b.payload {
      assert a in own && b in own;
    }
  }
}
