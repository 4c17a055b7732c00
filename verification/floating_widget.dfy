/** The draggable mini-countdown (components/FloatingWidget.tsx): where it may be dragged,
    how a drag starts, moves and ends, and whether it is shown, as remembered by the one
    stored flag `hytale_widget_closed`. The store is abstract: the flag's value, or None
    when no value is stored. */
module FloatingWidget {
  import opened Wrappers
  import opened Types
  import opened JsNum
  import opened NumberText
  import CountdownTimer

  datatype Point = Point(x: real, y: real)

  /** The widget's state. `position` None means the default bottom-right corner;
      `dragStart` is the grab offset inside the widget while a drag is recorded. */
  datatype Widget = Widget(visible: bool, dragging: bool, position: Option<Point>, dragStart: Option<Point>)

  /** The widget together with the stored flag. */
  datatype Session = Session(widget: Widget, flag: Option<string>)

  /** A drag is in progress exactly when a grab offset is recorded. */
  predicate Valid(w: Widget) {
    w.dragging <==> w.dragStart.Some?
  }

  /** On mount the widget is hidden exactly when the stored flag reads "true". */
  function Mount(flag: Option<string>): (s: Session)
    ensures s.widget.visible <==> flag != Some("true")
    ensures s.flag == flag
    ensures !s.widget.dragging && s.widget.position == None && Valid(s.widget)
  {
    var w := Widget(true, false, None, None);
    Session(if flag == Some("true") then w.(visible := false) else w, flag)
  }

  /** `handleClose`: hide the widget and remember that choice. */
  function Close(s: Session): (r: Session)
    ensures !r.widget.visible && r.flag == Some("true")
    ensures r.widget == s.widget.(visible := false)
  {
    Session(s.widget.(visible := false), Some("true"))
  }

  /** `handleRestore`: show the widget and forget the choice. */
  function Restore(s: Session): (r: Session)
    ensures r.widget.visible && r.flag == None
    ensures r.widget == s.widget.(visible := true)
  {
    Session(s.widget.(visible := true), None)
  }

  /** The choice survives a reload: after closing, the next mount is hidden; after
      restoring, it is shown. */
  lemma ChoiceSurvivesReload(s: Session)
    ensures !Mount(Close(s).flag).widget.visible
    ensures Mount(Restore(s).flag).widget.visible
    ensures Restore(Close(s)).widget == s.widget.(visible := true)
  {
  }

  /** `handlePointerDown`: a press on the widget (it is only on screen while visible),
      but not on its close button, starts a drag and records the grab offset. */
  function PointerDown(w: Widget, onCloseButton: bool, clientX: real, clientY: real,
                       rectLeft: real, rectTop: real): (r: Widget)
    ensures !w.visible || onCloseButton ==> r == w
    ensures w.visible && !onCloseButton ==>
      r == w.(dragging := true, dragStart := Some(Point(clientX - rectLeft, clientY - rectTop)))
  {
    if !w.visible then w
    else if onCloseButton then w
    else w.(dragging := true, dragStart := Some(Point(clientX - rectLeft, clientY - rectTop)))
  }

  /** `offsetWidth || fallback`: a zero (or missing) size falls back to the default. */
  function SizeOr(size: real, fallback: real): (r: real)
    ensures size != 0.0 ==> r == size
    ensures size == 0.0 ==> r == fallback
  {
    if size == 0.0 then fallback else size
  }

  /** `handlePointerMove`: ignored unless a drag is active and a grab offset recorded;
      otherwise the widget's corner follows the pointer, kept inside the window. */
  function PointerMove(w: Widget, clientX: real, clientY: real, innerWidth: real, innerHeight: real,
                       offsetWidth: real, offsetHeight: real): (r: Widget)
    ensures !(w.dragging && w.dragStart.Some?) ==> r == w
    ensures w.dragging && w.dragStart.Some? ==>
      r == w.(position := Some(Point(
        Clamp(0.0, innerWidth - SizeOr(offsetWidth, 200.0), clientX - w.dragStart.value.x),
        Clamp(0.0, innerHeight - SizeOr(offsetHeight, 100.0), clientY - w.dragStart.value.y))))
  {
    if !w.dragging || w.dragStart.None? then w
    else
      var newX := clientX - w.dragStart.value.x;
      var newY := clientY - w.dragStart.value.y;
      var maxX := innerWidth - SizeOr(offsetWidth, 200.0);
      var maxY := innerHeight - SizeOr(offsetHeight, 100.0);
      w.(position := Some(Point(Clamp(0.0, maxX, newX), Clamp(0.0, maxY, newY))))
  }

  /** A position set by a drag is always on screen: never left of or above the window,
      and never past the right or bottom edge when the widget fits in the window. */
  lemma DragStaysOnScreen(w: Widget, clientX: real, clientY: real, innerWidth: real, innerHeight: real,
                          offsetWidth: real, offsetHeight: real)
    requires w.dragging && w.dragStart.Some?
    ensures var p := PointerMove(w, clientX, clientY, innerWidth, innerHeight, offsetWidth, offsetHeight).position.value;
      && p.x >= 0.0 && p.y >= 0.0
      && (innerWidth >= SizeOr(offsetWidth, 200.0) ==> p.x + SizeOr(offsetWidth, 200.0) <= innerWidth)
      && (innerHeight >= SizeOr(offsetHeight, 100.0) ==> p.y + SizeOr(offsetHeight, 100.0) <= innerHeight)
  {
  }

  /** Whatever the widget's rendered size (a zero size falls back to 200 by 100), pressing
      and then moving by some amount that keeps it inside the window moves the widget's
      corner by the same amount from where the press found it. */
  lemma DragMovesWithPointer(w: Widget, pressX: real, pressY: real, rectLeft: real, rectTop: real,
                             dx: real, dy: real, innerWidth: real, innerHeight: real, ow: real, oh: real)
    requires w.visible
    requires 0.0 <= rectLeft + dx <= innerWidth - SizeOr(ow, 200.0)
    requires 0.0 <= rectTop + dy <= innerHeight - SizeOr(oh, 100.0)
    ensures PointerMove(PointerDown(w, false, pressX, pressY, rectLeft, rectTop),
                        pressX + dx, pressY + dy, innerWidth, innerHeight, ow, oh).position
            == Some(Point(rectLeft + dx, rectTop + dy))
  {
  }

  /** `handlePointerUp`: the drag ends and the grab offset is cleared. */
  function PointerUp(w: Widget): (r: Widget)
    ensures !r.dragging && r.dragStart == None
    ensures r == w.(dragging := false, dragStart := None)
  {
    w.(dragging := false, dragStart := None)
  }

  /** Every event keeps the drag flag and the grab offset in step. */
  lemma EventsPreserveValid(s: Session, onCloseButton: bool, clientX: real, clientY: real,
                            rectLeft: real, rectTop: real, innerWidth: real, innerHeight: real,
                            offsetWidth: real, offsetHeight: real)
    requires Valid(s.widget)
    ensures Valid(Close(s).widget) && Valid(Restore(s).widget)
    ensures Valid(PointerDown(s.widget, onCloseButton, clientX, clientY, rectLeft, rectTop))
    ensures Valid(PointerMove(s.widget, clientX, clientY, innerWidth, innerHeight, offsetWidth, offsetHeight))
    ensures Valid(PointerUp(s.widget))
  {
  }

  /** An input event for the drag machine. */
  datatype Event =
    | Down(onCloseButton: bool, clientX: real, clientY: real, rectLeft: real, rectTop: real)
    | Move(clientX: real, clientY: real, innerWidth: real, innerHeight: real, offsetWidth: real, offsetHeight: real)
    | Up

  function Step(w: Widget, e: Event): Widget {
    match e
    case Down(c, x, y, l, t) => PointerDown(w, c, x, y, l, t)
    case Move(x, y, iw, ih, ow, oh) => PointerMove(w, x, y, iw, ih, ow, oh)
    case Up => PointerUp(w)
  }

  function Run(w: Widget, events: seq<Event>): Widget
    decreases |events|
  {
    if |events| == 0 then w else Run(Step(w, events[0]), events[1..])
  }

  /** The widget keeps its default corner until some move is made while a drag is in
      progress, and visibility is never touched by dragging. */
  lemma {:induction false} StaysInCornerUntilDragged(w: Widget, events: seq<Event>)
    requires w.position == None
    requires forall i :: 0 <= i < |events| ==> !(events[i].Move? && Run(w, events[..i]).dragging && Run(w, events[..i]).dragStart.Some?)
    ensures Run(w, events).position == None
    ensures Run(w, events).visible == w.visible
    decreases |events|
  {
    if |events| > 0 {
      var w1 := Step(w, events[0]);
      assert Run(w, events[..0]) == w;
      forall i | 0 <= i < |events[1..]|
        ensures !(events[1..][i].Move? && Run(w1, events[1..][..i]).dragging && Run(w1, events[1..][..i]).dragStart.Some?)
      {
        assert events[..i + 1] == [events[0]] + events[1..][..i];
        assert Run(w, events[..i + 1]) == Run(w1, events[1..][..i]);
      }
      StaysInCornerUntilDragged(w1, events[1..]);
    }
  }

  /** `format`: the same two-digit rendering as the main display, with the same one-letter
      suffixes (`substring(0, 1)` agrees with `charAt(0)`). */
  function Readout(t: CountDownTime, names: TimeNames): (items: seq<CountdownTimer.TimeItem>)
    ensures items == CountdownTimer.Items(t, names)
  {
    seq(4, i requires 0 <= i < 4 =>
      CountdownTimer.TimeItem(TwoDigits(CountdownTimer.FieldAt(t, i)), Substring01(CountdownTimer.NameAt(names, i))))
  }

  /** `s.substring(0, 1)`. */
  function Substring01(s: string): (r: string)
    ensures r == CountdownTimer.Initial(s)
  {
    if |s| >= 1 then s[0..1] else s[0..|s|]
  }
}
