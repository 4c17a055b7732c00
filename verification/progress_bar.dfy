/** The zoomable, draggable timeline (components/ProgressBar.tsx): projection of dates
    onto the bar, the wheel zoom step, the per-frame zoom easing, milestone visibility,
    drag-to-scroll with a velocity filter, and the inertia loop after release.
    Animation frames are explicit step functions; the browser's own clamping of
    `scrollLeft` is not modelled, so no scroll bound is claimed. */
module ProgressBar {
  import opened Wrappers
  import opened Types
  import opened JsNum
  import App

  // ---------------------------------------------------------------- projection

  /** `getPosition`: where an instant falls on the bar, in percent, clamped to [0, 100]. */
  function GetPosition(ts: int, start: int, end: int): (pos: real)
    requires start < end
    ensures 0.0 <= pos <= 100.0
    ensures ts <= start ==> pos == 0.0
    ensures ts >= end ==> pos == 100.0
    ensures start <= ts <= end ==> pos * (end - start) as real == (ts - start) as real * 100.0
  {
    var total := end - start;
    var raw := ((ts - start) as real / total as real) * 100.0;
    assert start <= ts <= end ==> 0.0 <= raw <= 100.0 && raw * total as real == (ts - start) as real * 100.0 by {
      if start <= ts <= end {
        PercentOfWhole((ts - start) as real, total as real);
      }
    }
    assert ts <= start ==> raw <= 0.0 by {
      if ts <= start {
        QuotientAtMost((ts - start) as real, total as real, 0.0);
      }
    }
    assert ts >= end ==> raw >= 100.0 by {
      if ts >= end {
        QuotientAtLeast((ts - start) as real, total as real, 1.0);
      }
    }
    Clamp(0.0, 100.0, raw)
  }

  /** The bar projects an instant to the same percentage the page reports as progress at
      that instant. */
  lemma PositionIsProgress(ts: int, start: int, end: int)
    requires start < end
    ensures GetPosition(ts, start, end) == App.Progress(start, end, ts)
  {
  }

  /** Later instants are never drawn to the left of earlier ones. */
  lemma PositionMonotone(ts1: int, ts2: int, start: int, end: int)
    requires start < end && ts1 <= ts2
    ensures GetPosition(ts1, start, end) <= GetPosition(ts2, start, end)
  {
    App.ProgressMonotone(start, end, ts1, ts2);
  }

  // ---------------------------------------------------------------- wheel zoom

  const MinZoom := 1.0
  const MaxZoom := 80.0

  /** Zoom in (x1.25) for a wheel moved up, zoom out (x0.8) otherwise, including a zero delta. */
  function ZoomFactor(deltaY: real): (f: real)
    ensures f == 1.25 <==> deltaY < 0.0
    ensures f == 1.25 || f == 0.8
  {
    var delta := -deltaY;
    if delta > 0.0 then 1.25 else 0.8
  }

  /** The `setTargetZoom` updater: scale, clamp to [1, 80], snap anything below 1.1 to 1. */
  function ZoomStep(prev: real, deltaY: real): (z: real)
    ensures MinZoom <= z <= MaxZoom
    ensures z == 1.0 || z >= 1.1
    ensures 1.1 <= prev * ZoomFactor(deltaY) <= MaxZoom ==> z == prev * ZoomFactor(deltaY)
    ensures prev * ZoomFactor(deltaY) < 1.1 ==> z == 1.0
    ensures prev * ZoomFactor(deltaY) >= MaxZoom ==> z == MaxZoom
  {
    var newZoom := Min(MaxZoom, Max(MinZoom, prev * ZoomFactor(deltaY)));
    if newZoom < 1.1 then 1.0 else newZoom
  }

  /** From any zoom in range, zooming in never lowers it and zooming out never raises it. */
  lemma ZoomStepDirection(prev: real, deltaY: real)
    requires MinZoom <= prev <= MaxZoom
    ensures deltaY < 0.0 ==> ZoomStep(prev, deltaY) >= prev
    ensures deltaY >= 0.0 ==> ZoomStep(prev, deltaY) <= prev
  {
  }

  /** Zooming in and then out returns to the same zoom when neither step is clamped or snapped. */
  lemma ZoomInThenOut(prev: real, upDelta: real, downDelta: real)
    requires 1.1 <= prev <= 64.0 && upDelta < 0.0 && downDelta >= 0.0
    ensures ZoomStep(ZoomStep(prev, upDelta), downDelta) == prev
  {
    assert ZoomStep(prev, upDelta) == prev * 1.25;
  }

  /** Zooming out and then in returns to the same zoom when neither step is clamped or snapped. */
  lemma ZoomOutThenIn(prev: real, upDelta: real, downDelta: real)
    requires 1.375 <= prev <= MaxZoom && upDelta < 0.0 && downDelta >= 0.0
    ensures ZoomStep(ZoomStep(prev, downDelta), upDelta) == prev
  {
    assert ZoomStep(prev, downDelta) == prev * 0.8;
  }

  /** Two notches in and one out from the resting zoom leave a target of 1.25. */
  lemma WheelScenario()
    ensures ZoomStep(ZoomStep(ZoomStep(1.0, -1.0), -1.0), 1.0) == 1.25
  {
  }

  // ---------------------------------------------------------------- viewport state

  /** What the drag handlers remember: the press position and scroll, and the last move. */
  datatype DragAnchor = DragAnchor(startX: real, scrollStart: real, lastX: real, lastTime: real)

  /** The timeline's interaction state. `scroll` is the container's `scrollLeft`;
      `inertia` says whether an inertia frame is scheduled. */
  datatype Viewport = Viewport(
    zoom: real,
    targetZoom: real,
    scroll: real,
    velocity: real,
    dragging: bool,
    inertia: bool,
    anchor: DragAnchor)

  const Initial := Viewport(1.0, 1.0, 0.0, 0.0, false, false, DragAnchor(0.0, 0.0, 0.0, 0.0))

  /** What every event and frame keeps: both zooms within [1, 80], the target never in
      (1, 1.1), and no inertia while a drag is in progress. */
  predicate Valid(v: Viewport) {
    && MinZoom <= v.zoom <= MaxZoom
    && MinZoom <= v.targetZoom <= MaxZoom
    && (v.targetZoom == 1.0 || v.targetZoom >= 1.1)
    && (v.inertia ==> !v.dragging)
  }

  /** `handleWheel`: cancel inertia and zero the velocity, then, unless the gesture is
      mostly horizontal, take one zoom step on the target. */
  function Wheel(v: Viewport, deltaX: real, deltaY: real): (r: Viewport)
    ensures r.velocity == 0.0 && !r.inertia
    ensures Abs(deltaX) > Abs(deltaY) ==> r.targetZoom == v.targetZoom
    ensures Abs(deltaX) <= Abs(deltaY) ==> r.targetZoom == ZoomStep(v.targetZoom, deltaY)
    ensures r == v.(targetZoom := r.targetZoom, velocity := 0.0, inertia := false)
  {
    var stopped := v.(velocity := 0.0, inertia := false);
    if Abs(deltaX) > Abs(deltaY) then stopped
    else stopped.(targetZoom := ZoomStep(v.targetZoom, deltaY))
  }

  // ---------------------------------------------------------------- zoom easing

  /** The `setZoomLevel` updater run each animation frame. */
  function EaseStep(zoom: real, target: real): (r: real)
    ensures Abs(target - zoom) < 0.01 ==> r == target
    ensures Min(zoom, target) <= r <= Max(zoom, target)
    ensures zoom != target ==> Abs(target - r) < Abs(target - zoom)
    ensures Abs(target - zoom) >= 0.01 ==> Abs(target - r) == 0.88 * Abs(target - zoom)
  {
    var diff := target - zoom;
    if Abs(diff) < 0.01 then target else zoom + diff * 0.12
  }

  /** The effect's guard: frames are requested only while the zoom is visibly off target. */
  predicate ZoomAnimating(zoom: real, target: real) {
    Abs(zoom - target) >= 0.001
  }

  /** One frame of the zoom animation. */
  function EaseFrame(v: Viewport): (r: Viewport)
    ensures ZoomAnimating(v.zoom, v.targetZoom) ==> r.zoom == EaseStep(v.zoom, v.targetZoom)
    ensures !ZoomAnimating(v.zoom, v.targetZoom) ==> r == v
    ensures r == v.(zoom := r.zoom)
  {
    if ZoomAnimating(v.zoom, v.targetZoom) then v.(zoom := EaseStep(v.zoom, v.targetZoom)) else v
  }

  /** An upper bound on the frames the easing still needs for a gap `g`. */
  function EaseBudget(g: real): (n: int)
    requires g >= 0.0
    ensures n >= 0
  {
    if g == 0.0 then 0 else (g / 0.0012).Floor + 1
  }

  /** Runs the zoom animation until the guard stops it: it always stops, and when it ran
      at all the zoom has landed exactly on the target. */
  method SettleZoom(v: Viewport) returns (r: Viewport, frames: nat)
    ensures !ZoomAnimating(r.zoom, r.targetZoom)
    ensures frames == 0 <==> !ZoomAnimating(v.zoom, v.targetZoom)
    ensures frames > 0 ==> r.zoom == v.targetZoom
    ensures frames == 0 ==> r == v
    ensures r == v.(zoom := r.zoom)
    ensures frames <= EaseBudget(Abs(v.targetZoom - v.zoom))
  {
    r := v;
    frames := 0;
    while ZoomAnimating(r.zoom, r.targetZoom)
      invariant r == v.(zoom := r.zoom)
      invariant frames == 0 ==> r == v
      invariant frames > 0 ==> ZoomAnimating(v.zoom, v.targetZoom)
      invariant frames > 0 ==> r.zoom == r.targetZoom || ZoomAnimating(r.zoom, r.targetZoom)
      invariant frames + EaseBudget(Abs(r.targetZoom - r.zoom)) <= EaseBudget(Abs(v.targetZoom - v.zoom))
      decreases EaseBudget(Abs(r.targetZoom - r.zoom))
    {
      var g := Abs(r.targetZoom - r.zoom);
      r := EaseFrame(r);
      var g' := Abs(r.targetZoom - r.zoom);
      if g >= 0.01 {
        assert g' == 0.88 * g;
        assert g' / 0.0012 <= g / 0.0012 - 1.0;
      } else {
        assert g' == 0.0;
      }
      frames := frames + 1;
    }
  }

  // ---------------------------------------------------------------- drag

  /** `handleMouseDown`: ignored at (nearly) rest zoom; otherwise stop inertia and start a
      drag anchored at the press position and the current scroll. A press on an interactive
      milestone marker (`onMarker`) never reaches the handler: the marker stops the event's
      propagation, so nothing changes and any inertia keeps running. */
  function MouseDown(v: Viewport, onMarker: bool, pageX: real, offsetLeft: real, now: real): (r: Viewport)
    ensures onMarker || v.zoom <= 1.05 ==> r == v
    ensures !onMarker && v.zoom > 1.05 ==> r.dragging && !r.inertia && r.velocity == 0.0
    ensures !onMarker && v.zoom > 1.05 ==> r.anchor == DragAnchor(pageX - offsetLeft, v.scroll, pageX, now)
    ensures r == v.(dragging := r.dragging, inertia := r.inertia, velocity := r.velocity, anchor := r.anchor)
  {
    if onMarker || v.zoom <= 1.05 then v
    else v.(inertia := false, velocity := 0.0, dragging := true,
            anchor := DragAnchor(pageX - offsetLeft, v.scroll, pageX, now))
  }

  /** The velocity low-pass filter: 60% of the new estimate and 40% of the old one, updated
      only when time has advanced. */
  function FilterVelocity(previous: real, dx: real, dt: real): (r: real)
    ensures dt <= 0.0 ==> r == previous
    ensures dt > 0.0 ==> r == 0.6 * (dx / dt) + 0.4 * previous
    ensures dt > 0.0 ==> Min(dx / dt, previous) <= r <= Max(dx / dt, previous)
    ensures dt > 0.0 ==> Abs(r) <= Max(Abs(dx / dt), Abs(previous))
  {
    if dt > 0.0 then
      var newVel := dx / dt;
      newVel * 0.6 + previous * 0.4
    else
      previous
  }

  /** `handleMouseMove`: while dragging, scroll follows the pointer at 1.5 times its
      travel from the press point, and the velocity estimate is filtered. */
  function MouseMove(v: Viewport, pageX: real, offsetLeft: real, now: real): (r: Viewport)
    ensures !v.dragging ==> r == v
    ensures v.dragging ==> r.scroll == v.anchor.scrollStart - 1.5 * (pageX - offsetLeft - v.anchor.startX)
    ensures v.dragging ==> r.velocity == FilterVelocity(v.velocity, pageX - v.anchor.lastX, now - v.anchor.lastTime)
    ensures v.dragging ==> r.anchor == v.anchor.(lastX := pageX, lastTime := now)
    ensures r == v.(scroll := r.scroll, velocity := r.velocity, anchor := r.anchor)
  {
    if !v.dragging then v
    else
      var x := pageX - offsetLeft;
      var walk := (x - v.anchor.startX) * 1.5;
      var dt := now - v.anchor.lastTime;
      var dx := pageX - v.anchor.lastX;
      v.(scroll := v.anchor.scrollStart - walk,
         velocity := FilterVelocity(v.velocity, dx, dt),
         anchor := v.anchor.(lastX := pageX, lastTime := now))
  }

  /** One pointer sample of a drag: page x and timestamp. */
  datatype Sample = Sample(pageX: real, time: real)

  function MoveAll(v: Viewport, offsetLeft: real, samples: seq<Sample>): Viewport
    decreases |samples|
  {
    if |samples| == 0 then v
    else MoveAll(MouseMove(v, samples[0].pageX, offsetLeft, samples[0].time), offsetLeft, samples[1..])
  }

  /** However the pointer wandered, after a drag the scroll depends only on where the
      pointer is now relative to where it was pressed: scroll moves opposite to the
      pointer, 1.5 pixels per pixel. */
  lemma {:induction false} DragFollowsPointer(v: Viewport, pressX: real, offsetLeft: real, pressTime: real, samples: seq<Sample>)
    requires v.zoom > 1.05 && |samples| > 0
    ensures MoveAll(MouseDown(v, false, pressX, offsetLeft, pressTime), offsetLeft, samples).scroll
            == v.scroll - 1.5 * (samples[|samples| - 1].pageX - pressX)
  {
    var d := MouseDown(v, false, pressX, offsetLeft, pressTime);
    MoveAllKeepsDrag(d, offsetLeft, samples);
  }

  lemma {:induction false} MoveAllKeepsDrag(d: Viewport, offsetLeft: real, samples: seq<Sample>)
    requires d.dragging && |samples| > 0
    ensures MoveAll(d, offsetLeft, samples).scroll
            == d.anchor.scrollStart - 1.5 * (samples[|samples| - 1].pageX - offsetLeft - d.anchor.startX)
    decreases |samples|
  {
    var d1 := MouseMove(d, samples[0].pageX, offsetLeft, samples[0].time);
    if |samples| > 1 {
      MoveAllKeepsDrag(d1, offsetLeft, samples[1..]);
    }
  }

  /** `handleMouseUp`: the drag ends and an inertia loop is (re)started. */
  function MouseUp(v: Viewport): (r: Viewport)
    ensures !r.dragging && r.inertia
    ensures r == v.(dragging := false, inertia := true)
  {
    v.(dragging := false, inertia := true)
  }

  /** `handleMouseLeave`: leaving the bar mid-drag releases it. */
  function MouseLeave(v: Viewport): (r: Viewport)
    ensures v.dragging ==> r == MouseUp(v)
    ensures !v.dragging ==> r == v
  {
    if v.dragging then MouseUp(v) else v
  }

  // ---------------------------------------------------------------- inertia

  const Friction := 0.95
  const InertiaScale := 14.0
  const StopSpeed := 0.05

  /** One frame of `runInertia`: stop and zero a slow velocity, otherwise move the
      scroll against the velocity and decay it. */
  function InertiaFrame(v: Viewport): (r: Viewport)
    ensures !v.inertia ==> r == v
    ensures v.inertia && Abs(v.velocity) < StopSpeed ==> r == v.(velocity := 0.0, inertia := false)
    ensures v.inertia && Abs(v.velocity) >= StopSpeed ==>
      r.inertia && r.scroll == v.scroll - InertiaScale * v.velocity && r.velocity == Friction * v.velocity
    ensures r == v.(scroll := r.scroll, velocity := r.velocity, inertia := r.inertia)
  {
    if !v.inertia then v
    else if Abs(v.velocity) < StopSpeed then v.(velocity := 0.0, inertia := false)
    else v.(scroll := v.scroll - v.velocity * InertiaScale, velocity := v.velocity * Friction)
  }

  function Pow(b: real, n: nat): real {
    if n == 0 then 1.0 else b * Pow(b, n - 1)
  }

  /** The velocity after `n` moving frames. */
  function Decayed(v0: real, n: nat): real {
    if n == 0 then v0 else Friction * Decayed(v0, n - 1)
  }

  /** The decayed velocity is the geometric term `v0 * 0.95^n`; it keeps its sign and
      never grows in size. */
  lemma {:induction false} DecayedGeometric(v0: real, n: nat)
    ensures Decayed(v0, n) == v0 * Pow(Friction, n)
    ensures v0 >= 0.0 ==> 0.0 <= Decayed(v0, n) <= v0
    ensures v0 <= 0.0 ==> v0 <= Decayed(v0, n) <= 0.0
  {
    if n > 0 {
      DecayedGeometric(v0, n - 1);
      assert Friction * (v0 * Pow(Friction, n - 1)) == v0 * (Friction * Pow(Friction, n - 1));
    }
  }

  /** An upper bound on the moving frames left for a velocity. */
  function InertiaBudget(velocity: real): (n: int)
    ensures n >= 0
  {
    (Abs(velocity) / 0.0025).Floor
  }

  /** A moving frame uses up at least one unit of the budget. */
  lemma InertiaBudgetDrops(velocity: real)
    requires Abs(velocity) >= StopSpeed
    ensures InertiaBudget(Friction * velocity) <= InertiaBudget(velocity) - 1
  {
    assert Abs(Friction * velocity) == Friction * Abs(velocity);
    assert Abs(Friction * velocity) / 0.0025 <= Abs(velocity) / 0.0025 - 1.0;
  }

  /** Runs inertia frames until the loop stops itself. It stops at the first frame `n`
      whose velocity `v 0.95^n` is below 0.05 in size, and that is within `|v| / 0.0025`
      moving frames; the velocity ends at zero; after those `n` moving frames
      the scroll has travelled `14 v (1 + 0.95 + ... + 0.95^(n-1)) = 280 (v - v 0.95^n)`
      (see `DecayedGeometric`), so never more than `14 |v| / (1 - 0.95) = 280 |v|`. */
  method RunInertia(v: Viewport) returns (r: Viewport, moves: nat)
    ensures !r.inertia
    ensures v.inertia ==> r.velocity == 0.0
    ensures !v.inertia ==> r == v
    ensures r == v.(scroll := r.scroll, velocity := r.velocity, inertia := false)
    ensures v.inertia ==> Abs(Decayed(v.velocity, moves)) < StopSpeed
    ensures v.inertia ==> forall k :: 0 <= k < moves ==> Abs(Decayed(v.velocity, k)) >= StopSpeed
    ensures moves <= InertiaBudget(v.velocity)
    ensures r.scroll == v.scroll - 280.0 * (v.velocity - Decayed(v.velocity, moves))
    ensures Abs(r.scroll - v.scroll) <= 280.0 * Abs(v.velocity)
  {
    r := v;
    moves := 0;
    while r.inertia
      invariant InertiaSoFar(v, r, moves)
      invariant v.inertia ==> forall k :: 0 <= k < moves ==> Abs(Decayed(v.velocity, k)) >= StopSpeed
      invariant v.inertia && !r.inertia ==> Abs(Decayed(v.velocity, moves)) < StopSpeed
      decreases if r.inertia then InertiaBudget(r.velocity) + 1 else 0
    {
      var before := r;
      r := InertiaFrame(r);
      InertiaFrameAdvances(v, before, moves);
      if r.inertia {
        moves := moves + 1;
      }
    }
    InertiaTravel(v.velocity, moves);
  }

  /** What holds after `moves` moving frames of the loop started from `v`. */
  predicate InertiaSoFar(v: Viewport, r: Viewport, moves: nat) {
    && r == v.(scroll := r.scroll, velocity := r.velocity, inertia := r.inertia)
    && (r.inertia ==> v.inertia && r.velocity == Decayed(v.velocity, moves))
    && (v.inertia && !r.inertia ==> r.velocity == 0.0)
    && (!v.inertia ==> r == v && moves == 0)
    && r.scroll == v.scroll - 280.0 * (v.velocity - Decayed(v.velocity, moves))
    && moves + (if r.inertia then InertiaBudget(r.velocity) else 0) <= InertiaBudget(v.velocity)
  }

  /** A frame of a running loop either stops it or moves once, using up budget. */
  lemma InertiaFrameAdvances(v: Viewport, r: Viewport, moves: nat)
    requires InertiaSoFar(v, r, moves) && r.inertia
    ensures InertiaFrame(r).inertia ==>
      InertiaSoFar(v, InertiaFrame(r), moves + 1) && InertiaBudget(InertiaFrame(r).velocity) < InertiaBudget(r.velocity)
    ensures !InertiaFrame(r).inertia ==> InertiaSoFar(v, InertiaFrame(r), moves)
  {
    var r' := InertiaFrame(r);
    if r'.inertia {
      InertiaBudgetDrops(r.velocity);
      assert Decayed(v.velocity, moves + 1) == Friction * Decayed(v.velocity, moves);
    }
  }

  /** The distance travelled after `n` moving frames, in closed form and bounded by the
      full geometric series. */
  lemma InertiaTravel(v0: real, n: nat)
    ensures Abs(280.0 * (v0 - Decayed(v0, n))) <= 280.0 * Abs(v0)
  {
    DecayedGeometric(v0, n);
  }

  // ---------------------------------------------------------------- milestones

  /** `!!m.major`: an absent flag means minor. */
  function IsMajor(m: Milestone): (r: bool)
    ensures m.major == Some(true) ==> r
    ensures m.major == Some(false) ==> !r
    ensures m.major == None ==> !r
  {
    m.major == Some(true)
  }

  /** How one milestone is drawn at a zoom and progress. */
  datatype MarkerView = MarkerView(
    position: real,
    isPast: bool,
    opacity: real,
    scale: real,
    interactive: bool,
    showLabel: bool,
    labelAbove: bool)

  /** Minor markers fade and grow in with zoom; major markers are always fully drawn. */
  function ViewMilestone(m: Milestone, idx: nat, zoom: real, percentage: real, start: int, end: int): (mv: MarkerView)
    requires start < end
    ensures mv.position == GetPosition(m.date, start, end)
    ensures 0.0 <= mv.opacity <= 1.0 && 0.0 <= mv.scale <= 1.0
    ensures IsMajor(m) ==> mv.opacity == 1.0 && mv.scale == 1.0 && mv.interactive
    ensures !IsMajor(m) ==> mv.opacity == Clamp(0.0, 1.0, (zoom - 1.1) / 1.5)
    ensures !IsMajor(m) ==> mv.scale == Clamp(0.0, 1.0, (zoom - 1.0) / 1.5)
    ensures !mv.interactive <==> !IsMajor(m) && mv.opacity < 0.1
    ensures mv.isPast <==> mv.position <= percentage
    ensures mv.showLabel <==> (IsMajor(m) && zoom > 1.5) || zoom > 6.0
    ensures mv.labelAbove <==> idx % 2 == 0
  {
    var pos := GetPosition(m.date, start, end);
    var isMajor := IsMajor(m);
    var opacity := if isMajor then 1.0 else Clamp(0.0, 1.0, (zoom - 1.1) / 1.5);
    var scale := if isMajor then 1.0 else Clamp(0.0, 1.0, (zoom - 1.0) / 1.5);
    var interactive := isMajor || !(opacity < 0.1);
    MarkerView(pos, pos <= percentage, opacity, scale, interactive,
               (isMajor && zoom > 1.5) || zoom > 6.0, idx % 2 == 0)
  }

  /** At and below zoom 1.1 a minor marker is invisible and ignores the pointer; from zoom
      2.6 it is fully shown; it becomes clickable exactly from zoom 1.25. */
  lemma MinorFadeIn(m: Milestone, idx: nat, zoom: real, percentage: real, start: int, end: int)
    requires start < end && !IsMajor(m)
    ensures zoom <= 1.1 ==> ViewMilestone(m, idx, zoom, percentage, start, end).opacity == 0.0
    ensures zoom <= 1.0 ==> ViewMilestone(m, idx, zoom, percentage, start, end).scale == 0.0
    ensures zoom >= 2.6 ==> ViewMilestone(m, idx, zoom, percentage, start, end).opacity == 1.0
    ensures zoom >= 2.5 ==> ViewMilestone(m, idx, zoom, percentage, start, end).scale == 1.0
    ensures ViewMilestone(m, idx, zoom, percentage, start, end).interactive <==> zoom >= 1.25
  {
  }

  /** Zooming in never makes a marker fainter or smaller. */
  lemma FadeMonotone(m: Milestone, idx: nat, z1: real, z2: real, percentage: real, start: int, end: int)
    requires start < end && z1 <= z2
    ensures ViewMilestone(m, idx, z1, percentage, start, end).opacity <= ViewMilestone(m, idx, z2, percentage, start, end).opacity
    ensures ViewMilestone(m, idx, z1, percentage, start, end).scale <= ViewMilestone(m, idx, z2, percentage, start, end).scale
  {
  }

  /** A milestone whose date has been reached is drawn as past on the page's progress. */
  lemma ReachedMilestoneIsPast(m: Milestone, idx: nat, zoom: real, start: int, end: int, now: int)
    requires start < end && m.date <= now
    ensures ViewMilestone(m, idx, zoom, App.Progress(start, end, now), start, end).isPast
  {
    PositionMonotone(m.date, now, start, end);
  }

  // ---------------------------------------------------------------- the invariant

  /** Every event and frame keeps the viewport valid. */
  lemma EventsPreserveValid(v: Viewport, deltaX: real, deltaY: real, onMarker: bool, pageX: real, offsetLeft: real, now: real)
    requires Valid(v)
    ensures Valid(Initial)
    ensures Valid(Wheel(v, deltaX, deltaY))
    ensures Valid(EaseFrame(v))
    ensures Valid(MouseDown(v, onMarker, pageX, offsetLeft, now))
    ensures Valid(MouseMove(v, pageX, offsetLeft, now))
    ensures Valid(MouseUp(v))
    ensures Valid(MouseLeave(v))
    ensures Valid(InertiaFrame(v))
  {
  }
}
