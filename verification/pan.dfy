/** Panning with the four arrow boxes round the canvas (`translate`,
    `translate_timeout`, `finish_translate`): pressing a box starts a
    20 ms timer that shifts the canvas by a fixed delta until the button
    is released. */
module Pan {

  import opened Wrappers

  /** The shift per timer tick, before division by the zoom factor. */
  datatype Delta = Delta(dx: int, dy: int)

  const Step: int := 5

  predicate IsDirection(direction: string) {
    direction == "Up" || direction == "Down" || direction == "Right" || direction == "Left"
  }

  /** The delta for a box's direction name; an unknown name pans nowhere. */
  function PanDelta(direction: string): (r: Option<Delta>)
    ensures r.Some? <==> IsDirection(direction)
    ensures r.Some? ==> (r.value.dx == 0) != (r.value.dy == 0)
    ensures r.Some? ==> r.value.dx in {0, Step, -Step} && r.value.dy in {0, Step, -Step}
    ensures direction == "Up" ==> r == Some(Delta(0, 5))
    ensures direction == "Down" ==> r == Some(Delta(0, -5))
    ensures direction == "Right" ==> r == Some(Delta(-5, 0))
    ensures direction == "Left" ==> r == Some(Delta(5, 0))
  {
    if direction == "Up" then Some(Delta(0, Step))
    else if direction == "Down" then Some(Delta(0, -Step))
    else if direction == "Right" then Some(Delta(-Step, 0))
    else if direction == "Left" then Some(Delta(Step, 0))
    else None
  }

  function Opposite(direction: string): (o: string)
    requires IsDirection(direction)
    ensures IsDirection(o)
    ensures o != direction
    ensures PanDelta(o).value == Delta(-PanDelta(direction).value.dx, -PanDelta(direction).value.dy)
  {
    match direction
    case "Up" => "Down"
    case "Down" => "Up"
    case "Right" => "Left"
    case _ => "Right"
  }

  /** The window's panning fields: the translation saved for the undo
      record, whether a pan is in progress (`tr_to`), and the deltas of the
      timers started so far. */
  datatype PanState = PanState(origTranslate: (real, real), panning: bool, timers: seq<Delta>)

  /** A press on an arrow box. The canvas's current translation is saved
      first, whatever the direction; an unknown direction then stops
      without starting a timer. */
  function Translate(s: PanState, translation: (real, real), direction: string): (r: PanState)
    ensures r.origTranslate == translation
    ensures !IsDirection(direction) ==> r.panning == s.panning && r.timers == s.timers
    ensures IsDirection(direction) ==>
              r.panning && |r.timers| == |s.timers| + 1 && r.timers[..|s.timers|] == s.timers
              && r.timers[|s.timers|] == PanDelta(direction).value
  {
    var saved := s.(origTranslate := translation);
    match PanDelta(direction)
    case None => saved
    case Some(d) => saved.(panning := true, timers := s.timers + [d])
  }

  /** Button release: stop panning. The undo record it files is not part
      of this model. */
  function FinishTranslate(s: PanState): (r: PanState)
    ensures !r.panning && r.timers == s.timers && r.origTranslate == s.origTranslate
  {
    s.(panning := false)
  }

  /** A tick of running timer `k`. While a pan is in progress the timer
      moves the canvas by its delta and runs again; otherwise it returns
      False, which removes it, and moves nothing. */
  function Tick(s: PanState, k: nat): (r: (PanState, Option<Delta>))
    requires k < |s.timers|
    ensures r.1.Some? <==> s.panning
    ensures r.1.Some? ==> r.1.value == s.timers[k] && r.0 == s
    ensures r.1.None? ==> r.0 == s.(timers := s.timers[..k] + s.timers[k + 1..])
  {
    if !s.panning then (s.(timers := s.timers[..k] + s.timers[k + 1..]), None)
    else (s, Some(s.timers[k]))
  }

  /** Press then release: the timer the press started moves the canvas by
      the press's delta at each tick until the release, and its first tick
      after the release removes it, leaving the earlier timers. */
  lemma ReleaseStopsTimers(s: PanState, translation: (real, real), direction: string)
    requires IsDirection(direction)
    ensures var p, k := Translate(s, translation, direction), |s.timers|;
            Tick(p, k) == (p, Some(PanDelta(direction).value))
    ensures var p, k := Translate(s, translation, direction), |s.timers|;
            Tick(FinishTranslate(p), k).1 == None && Tick(FinishTranslate(p), k).0.timers == s.timers
  {
    var p, k := Translate(s, translation, direction), |s.timers|;
    assert p.timers[..k] + p.timers[k + 1..] == s.timers;
  }

  /** What the arrow boxes and the timers do, in the order the main loop
      delivers it. A tick names a running timer by its position; one that
      names no timer does nothing. */
  datatype PanEvent =
    | Press(translation: (real, real), direction: string)
    | Release
    | TickTimer(k: nat)

  function PanStep(s: PanState, e: PanEvent): (PanState, Option<Delta>)
  {
    match e
    case Press(t, d) => (Translate(s, t, d), None)
    case Release => (FinishTranslate(s), None)
    case TickTimer(k) => if k < |s.timers| then Tick(s, k) else (s, None)
  }

  /** Runs the events from `s`, collecting every shift of the canvas. */
  function RunPan(s: PanState, events: seq<PanEvent>): (PanState, seq<Delta>)
    decreases |events|
  {
    if events == [] then (s, [])
    else
      var (s1, m) := PanStep(s, events[0]);
      var (s2, ms) := RunPan(s1, events[1..]);
      (s2, (if m.Some? then [m.value] else []) + ms)
  }

  predicate NoPress(events: seq<PanEvent>) {
    forall i :: 0 <= i < |events| ==> !events[i].Press?
  }

  /** Once the pan has stopped, nothing moves the canvas until the next
      press (a press with an unknown direction included, which starts
      nothing): every pending tick stops its timer, and the timers only
      ever go away. */
  lemma {:induction false} NoMoveAfterRelease(s: PanState, events: seq<PanEvent>)
    requires !s.panning && NoPress(events)
    ensures RunPan(s, events).1 == []
    ensures !RunPan(s, events).0.panning
    ensures |RunPan(s, events).0.timers| <= |s.timers|
    decreases |events|
  {
    if events != [] {
      var (s1, m) := PanStep(s, events[0]);
      assert m == None && !s1.panning && |s1.timers| <= |s.timers|;
      NoMoveAfterRelease(s1, events[1..]);
    }
  }

  /** A release followed by anything but a press moves nothing. */
  lemma ReleaseThenTicks(s: PanState, events: seq<PanEvent>)
    requires NoPress(events)
    ensures RunPan(s, [Release] + events).1 == []
  {
    assert ([Release] + events)[1..] == events;
    NoMoveAfterRelease(FinishTranslate(s), events);
  }

  /** One tick event per timer position in `ks`. */
  function Ticks(ks: seq<nat>): (events: seq<PanEvent>)
  {
    if ks == [] then [] else [TickTimer(ks[0])] + Ticks(ks[1..])
  }

  /** While a pan is in progress, ticks never stop a timer: the `i`-th tick
      shifts the canvas by the delta of the timer it names. */
  lemma {:induction false} PanningTicksMove(s: PanState, ks: seq<nat>)
    requires s.panning
    requires forall i :: 0 <= i < |ks| ==> ks[i] < |s.timers|
    ensures RunPan(s, Ticks(ks)).0 == s
    ensures |RunPan(s, Ticks(ks)).1| == |ks|
    ensures forall i :: 0 <= i < |ks| ==> RunPan(s, Ticks(ks)).1[i] == s.timers[ks[i]]
    decreases |ks|
  {
    if ks != [] {
      PanningTicksMove(s, ks[1..]);
      assert Ticks(ks)[1..] == Ticks(ks[1..]);
      var ms := RunPan(s, Ticks(ks)).1;
      assert ms == [s.timers[ks[0]]] + RunPan(s, Ticks(ks[1..])).1;
      forall i | 1 <= i < |ks|
        ensures ms[i] == s.timers[ks[i]]
      {
        assert ms[i] == RunPan(s, Ticks(ks[1..])).1[i - 1];
      }
    }
  }

  /** Pressing a second box before the first timer's next tick starts a
      second timer without stopping the first: both shift the canvas. */
  lemma DoublePressBothRun(s: PanState, t1: (real, real), d1: string, t2: (real, real), d2: string)
    requires IsDirection(d1) && IsDirection(d2)
    ensures var p := Translate(Translate(s, t1, d1), t2, d2);
            var k := |s.timers|;
            && RunPan(p, [TickTimer(k), TickTimer(k + 1)]).1
               == [PanDelta(d1).value, PanDelta(d2).value]
  {
    var p := Translate(Translate(s, t1, d1), t2, d2);
    var k := |s.timers|;
    PanningTicksMove(p, [k, k + 1]);
    assert Ticks([k, k + 1]) == [TickTimer(k), TickTimer(k + 1)] by {
      assert [k, k + 1][1..] == [k + 1];
      assert Ticks([k + 1]) == [TickTimer(k + 1)];
    }
  }
}
