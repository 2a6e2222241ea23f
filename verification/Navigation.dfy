/**
 * The cursor and window of the offline viewer.
 */
module Navigation {
  import opened Prelude
  import opened Timeline
  import opened Replay

  const U64_MAX: nat := 0xFFFF_FFFF_FFFF_FFFF
  const DEFAULT_WINDOW: nat := 60_000_000
  const MIN_WINDOW: nat := 1_000_000

  datatype KeyCode = Left | Right | PageUp | PageDown | Home | End | ZoomIn | ZoomOut | Other

  datatype View = View(cursor: nat, window: nat)

  function Min(a: nat, b: nat): nat { if a < b then a else b }
  function SatAdd(a: nat, b: nat): nat { Min(a + b, U64_MAX) }
  function SatSub(a: nat, b: nat): nat { if a < b then 0 else a - b }
  function SatDouble(a: nat): nat { Min(2 * a, U64_MAX) }

  function Initial(duration: nat): View {
    View(duration, Min(DEFAULT_WINDOW, Max(duration, MIN_WINDOW)))
  }

  function Pressed(v: View, key: KeyCode, duration: nat): View {
    var step := Max(v.window / 10, 100_000);
    var widest := Max(duration, MIN_WINDOW);
    match key
    case Left => v.(cursor := SatSub(v.cursor, step))
    case Right => v.(cursor := Min(SatAdd(v.cursor, step), duration))
    case PageUp => v.(cursor := SatSub(v.cursor, v.window))
    case PageDown => v.(cursor := Min(SatAdd(v.cursor, v.window), duration))
    case Home => v.(cursor := 0)
    case End => v.(cursor := duration)
    case ZoomIn => v.(window := Min(Max(v.window / 2, MIN_WINDOW), widest))
    case ZoomOut => v.(window := Min(SatDouble(v.window), widest))
    case Other => v
  }

  function AllPressed(v: View, keys: seq<KeyCode>, duration: nat): View
    decreases |keys|
  {
    if keys == [] then v else AllPressed(Pressed(v, keys[0], duration), keys[1..], duration)
  }

  /** The visible range around the cursor. */
  function Bounds(v: View, duration: nat): (nat, nat) {
    if duration <= v.window then (0, Max(duration, 1))
    else
      var start0 := SatSub(v.cursor, v.window / 2);
      var end0 := SatAdd(start0, v.window);
      var end := if end0 > duration then duration else end0;
      var start := if end0 > duration then SatSub(duration, v.window) else start0;
      (start, Max(end, start + 1))
  }

  class Nav {
    var cursor: nat
    var window: nat

    constructor (duration: nat)
      ensures Current() == Initial(duration)
    {
      cursor := duration;
      window := Min(DEFAULT_WINDOW, Max(duration, MIN_WINDOW));
    }

    function Current(): View
      reads this
    {
      View(cursor, window)
    }

    method Key(key: KeyCode, duration: nat)
      modifies this
      ensures Current() == Pressed(old(Current()), key, duration)
      ensures duration <= U64_MAX && InRange(old(Current()), duration) ==> InRange(Current(), duration)
    {
      var step := Max(window / 10, 100_000);
      match key
      case Left => cursor := SatSub(cursor, step);
      case Right => cursor := Min(SatAdd(cursor, step), duration);
      case PageUp => cursor := SatSub(cursor, window);
      case PageDown => cursor := Min(SatAdd(cursor, window), duration);
      case Home => cursor := 0;
      case End => cursor := duration;
      case ZoomIn => window := Min(Max(window / 2, MIN_WINDOW), Max(duration, MIN_WINDOW));
      case ZoomOut => window := Min(SatDouble(window), Max(duration, MIN_WINDOW));
      case Other =>
    }
  }

  predicate InRange(v: View, duration: nat) {
    v.cursor <= duration && MIN_WINDOW <= v.window <= Max(duration, MIN_WINDOW)
  }

  /** How far Left and Right go: a tenth of the window, at least 100 ms. */
  predicate IsStep(v: View, step: nat) {
    step >= 100_000 && 10 * step <= v.window + 1_000_000 && v.window < 10 * (step + 1)
    && (step > 100_000 ==> 10 * step <= v.window)
  }

  /** What each key does within the capture: the cursor moves by one step or one
      window towards its side and stops at the ends, zooming halves or doubles the
      window between its limits, and nothing else changes. */
  lemma KeyMeans(v: View, duration: nat, step: nat)
    requires duration <= U64_MAX && InRange(v, duration) && IsStep(v, step)
    ensures Pressed(v, Left, duration) == v.(cursor := if v.cursor < step then 0 else v.cursor - step)
    ensures Pressed(v, Right, duration) == v.(cursor := if v.cursor + step > duration then duration else v.cursor + step)
    ensures Pressed(v, PageUp, duration) == v.(cursor := if v.cursor < v.window then 0 else v.cursor - v.window)
    ensures Pressed(v, PageDown, duration) ==
            v.(cursor := if v.cursor + v.window > duration then duration else v.cursor + v.window)
    ensures Pressed(v, Home, duration) == v.(cursor := 0) && Pressed(v, End, duration) == v.(cursor := duration)
    ensures var w := Pressed(v, ZoomIn, duration).window;
            Pressed(v, ZoomIn, duration) == v.(window := w)
            && if v.window < 2 * MIN_WINDOW then w == MIN_WINDOW else 2 * w <= v.window <= 2 * w + 1
    ensures var w := Pressed(v, ZoomOut, duration).window;
            Pressed(v, ZoomOut, duration) == v.(window := w)
            && if 2 * v.window <= duration then w == 2 * v.window
               else w == if duration < MIN_WINDOW then MIN_WINDOW else duration
    ensures Pressed(v, Other, duration) == v
  {
    assert step == Max(v.window / 10, 100_000);
  }

  /** Away from the ends the keys that move the cursor undo each other. */
  lemma MovesUndo(v: View, duration: nat, step: nat)
    requires duration <= U64_MAX && InRange(v, duration) && IsStep(v, step)
    ensures v.cursor + step <= duration ==> Pressed(Pressed(v, Right, duration), Left, duration) == v
    ensures step <= v.cursor ==> Pressed(Pressed(v, Left, duration), Right, duration) == v
    ensures v.cursor + v.window <= duration ==> Pressed(Pressed(v, PageDown, duration), PageUp, duration) == v
    ensures v.window <= v.cursor ==> Pressed(Pressed(v, PageUp, duration), PageDown, duration) == v
  {
    KeyMeans(v, duration, step);
    MoveBack(v, duration, step, Right);
    MoveBack(v, duration, step, Left);
    MoveBack(v, duration, step, PageDown);
    MoveBack(v, duration, step, PageUp);
  }

  lemma MoveBack(v: View, duration: nat, step: nat, key: KeyCode)
    requires duration <= U64_MAX && InRange(v, duration) && IsStep(v, step)
    requires key in {Left, Right, PageUp, PageDown}
    ensures var v' := Pressed(v, key, duration);
            InRange(v', duration) && v'.window == v.window
            && Pressed(v', Left, duration) == v'.(cursor := if v'.cursor < step then 0 else v'.cursor - step)
            && Pressed(v', Right, duration) == v'.(cursor := if v'.cursor + step > duration then duration else v'.cursor + step)
            && Pressed(v', PageUp, duration) == v'.(cursor := if v'.cursor < v.window then 0 else v'.cursor - v.window)
            && Pressed(v', PageDown, duration) ==
               v'.(cursor := if v'.cursor + v.window > duration then duration else v'.cursor + v.window)
  {
    var v' := Pressed(v, key, duration);
    assert InRange(v', duration) && IsStep(v', step);
    KeyMeans(v', duration, step);
  }

  /** Zooming in undoes zooming out, and the other way round for even windows. */
  lemma ZoomsUndo(v: View, duration: nat)
    requires duration <= U64_MAX && InRange(v, duration)
    ensures 2 * v.window <= duration ==> Pressed(Pressed(v, ZoomOut, duration), ZoomIn, duration) == v
    ensures v.window % 2 == 0 && v.window >= 2 * MIN_WINDOW ==>
              Pressed(Pressed(v, ZoomIn, duration), ZoomOut, duration) == v
  {
  }

  /** The viewer starts at the end of the capture with a window of a minute, or the
      whole capture if that is shorter, but at least a second. */
  lemma InitialMeans(duration: nat)
    ensures Initial(duration).cursor == duration
    ensures Initial(duration).window ==
            if duration < 1_000_000 then 1_000_000 else if duration < 60_000_000 then duration else 60_000_000
  {
  }

  /** After any keys the cursor is inside the capture and the window is sane. */
  lemma {:induction false} KeysKeepRange(keys: seq<KeyCode>, v: View, duration: nat)
    requires duration <= U64_MAX && InRange(v, duration)
    ensures InRange(AllPressed(v, keys, duration), duration)
    decreases |keys|
  {
    if keys != [] {
      KeysKeepRange(keys[1..], Pressed(v, keys[0], duration), duration);
    }
  }

  /** The visible range contains the cursor, stays inside the capture, and is
      exactly one window wide when the capture is longer than that. The one
      exception is a capture as long as the clock can count, where the end of
      the window saturates. */
  lemma BoundsContainCursor(v: View, duration: nat)
    requires duration <= U64_MAX && InRange(v, duration)
    ensures var (start, end) := Bounds(v, duration);
            start <= v.cursor <= end <= Max(duration, 1) && start < end
            && (duration > v.window ==>
                 (end - start == v.window <==>
                   duration < U64_MAX || SatSub(v.cursor, v.window / 2) + v.window <= U64_MAX))
  {
  }

  /** Rendering after any keys: the evidence slice up to the cursor never panics
      and is exactly the evidence in range. */
  lemma RenderedEvidence(keys: seq<KeyCode>, duration: nat, evidence: seq<Item>)
    requires duration <= U64_MAX && Ordered(evidence)
    ensures var v := AllPressed(Initial(duration), keys, duration);
            var (start, end) := Bounds(v, duration);
            SliceIn(evidence, start, Min(v.cursor, end)) == Some(Filter(evidence, Between(start, v.cursor)))
  {
    KeysKeepRange(keys, Initial(duration), duration);
    var v := AllPressed(Initial(duration), keys, duration);
    BoundsContainCursor(v, duration);
    SliceIsFilter(evidence, Bounds(v, duration).0, v.cursor);
  }

  /** The viewer's loop over the keys, and the evidence it then renders: no key
      sequence makes the slice panic, and what is shown is exactly the evidence from
      the start of the visible range to the cursor. */
  method Browse(evidence: seq<Item>, keys: seq<KeyCode>, duration: nat) returns (visible: seq<Item>)
    requires duration <= U64_MAX && Ordered(evidence)
    ensures var v := AllPressed(Initial(duration), keys, duration);
            visible == Filter(evidence, Between(Bounds(v, duration).0, v.cursor))
  {
    var nav := new Nav(duration);
    assert keys[0..] == keys;
    for i := 0 to |keys|
      invariant AllPressed(nav.Current(), keys[i..], duration) == AllPressed(Initial(duration), keys, duration)
      invariant InRange(nav.Current(), duration)
    {
      assert keys[i..][0] == keys[i] && keys[i..][1..] == keys[i + 1..];
      nav.Key(keys[i], duration);
    }
    var (start, end) := Bounds(nav.Current(), duration);
    RenderedEvidence(keys, duration, evidence);
    visible := SliceIn(evidence, start, Min(nav.cursor, end)).value;
  }
}
