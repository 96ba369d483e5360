/** The widgets of an arrangement, and the check a write of one goes through. */
module Widgets {
  import opened Optional

  const TWO_63 := 0x8000_0000_0000_0000
  const TWO_64 := 0x1_0000_0000_0000_0000

  /** The integers of a decoded widget are 64 bits wide. */
  type Int64 = n: int | -TWO_63 <= n < TWO_63

  datatype Widget = Widget(key: string, width: Int64, height: Int64, hidden: bool, x: Option<Int64>, y: Option<Int64>)

  /** A sum of two of them: it wraps around. */
  function Sum(a: Int64, b: Int64): Int64 {
    (a + b + TWO_63) % TWO_64 - TWO_63
  }

  const COLUMNS: int := 12
  const MAX_HEIGHT: int := 16
  const MAX_ROW: int := 200
  const WIDGET_LIMIT: nat := 40
  const KEY_TAIL: nat := 39

  datatype Fault = Fine | BadCount | BadKey | BadWidth | BadHeight | BadPlace | BadX | BadY

  predicate KeyChar(c: char) {
    'a' <= c <= 'z' || '0' <= c <= '9' || c == '_'
  }

  /** The widget key expression: a lower-case letter and up to 39 letters, digits or underscores. */
  predicate KeyShaped(key: string) {
    && 1 <= |key| <= 1 + KEY_TAIL
    && 'a' <= key[0] <= 'z'
    && forall i | 1 <= i < |key| :: KeyChar(key[i])
  }

  /** What a screen can draw of one widget on its own. */
  predicate Drawable(w: Widget) {
    && KeyShaped(w.key)
    && 1 <= w.width <= COLUMNS
    && 0 <= w.height <= MAX_HEIGHT
    && (w.x.Some? <==> w.y.Some?)
    && (w.x.Some? ==> 0 <= w.x.value && w.x.value + w.width <= COLUMNS)
    && (w.y.Some? ==> 0 <= w.y.value <= MAX_ROW)
  }

  /** A widget placed so far to the right that its last column wraps around to a negative number. */
  predicate Wraps(w: Widget) {
    && KeyShaped(w.key)
    && 1 <= w.width <= COLUMNS
    && 0 <= w.height <= MAX_HEIGHT
    && w.x.Some? && w.y.Some?
    && w.x.value > TWO_63 - 1 - w.width
    && 0 <= w.y.value <= MAX_ROW
  }

  ghost predicate NoKeyTwice(widgets: seq<Widget>) {
    forall i, j | 0 <= i < j < |widgets| :: widgets[i].key != widgets[j].key
  }

  /** A layout a screen can draw: between 1 and 40 drawable widgets, no key twice. */
  ghost predicate DrawableLayout(widgets: seq<Widget>) {
    && 1 <= |widgets| <= WIDGET_LIMIT
    && (forall i | 0 <= i < |widgets| :: Drawable(widgets[i]))
    && NoKeyTwice(widgets)
  }

  /** A layout that is drawable but for widgets that wrap around, of which it has one at least. */
  ghost predicate WrappingLayout(widgets: seq<Widget>) {
    && 1 <= |widgets| <= WIDGET_LIMIT
    && (forall i | 0 <= i < |widgets| :: Drawable(widgets[i]) || Wraps(widgets[i]))
    && (exists i | 0 <= i < |widgets| :: Wraps(widgets[i]))
    && NoKeyTwice(widgets)
  }

  /** A widget that wraps is not one a screen can draw. */
  lemma WrapsIsNotDrawable(w: Widget)
    requires Wraps(w)
    ensures !Drawable(w)
  {
  }

  /** The checks of one widget in the order they are made. */
  function FaultOf(w: Widget, seen: set<string>): (fault: Fault)
    ensures fault.Fine? <==> (Drawable(w) || Wraps(w)) && w.key !in seen
    ensures fault.BadKey? <==> !KeyShaped(w.key) || w.key in seen
    ensures fault.BadWidth? ==> !(1 <= w.width <= COLUMNS)
    ensures fault.BadHeight? ==> !(0 <= w.height <= MAX_HEIGHT) && 1 <= w.width <= COLUMNS
    ensures fault.BadPlace? ==> (w.x.Some? <==> w.y.None?) && 0 <= w.height <= MAX_HEIGHT
    ensures fault.BadX? ==> w.x.Some? && w.y.Some? && (w.x.value < 0 || w.x.value + w.width > COLUMNS)
    ensures fault.BadY? ==> w.x.Some? && w.y.Some? && w.x.value >= 0 && !(0 <= w.y.value <= MAX_ROW)
    ensures !fault.BadCount?
  {
    if !KeyShaped(w.key) then BadKey
    else if w.key in seen then BadKey
    else if w.width < 1 || w.width > COLUMNS then BadWidth
    else if w.height < 0 || w.height > MAX_HEIGHT then BadHeight
    else if w.x.None? != w.y.None? then BadPlace
    else if w.x.None? then Fine
    else if w.x.value < 0 || Sum(w.x.value, w.width) > COLUMNS then BadX
    else if w.y.value < 0 || w.y.value > MAX_ROW then BadY
    else Fine
  }

  ghost function KeysBefore(widgets: seq<Widget>, n: nat): set<string>
    requires n <= |widgets|
  {
    set i | 0 <= i < n :: widgets[i].key
  }

  /**
   The loop over the widgets. It accepts exactly the layouts a screen can draw and
   those that are drawable but for a widget whose last column wraps around; else it
   names the first fault.
   */
  method Validate(widgets: seq<Widget>) returns (fault: Fault, at: nat)
    ensures fault.Fine? <==> DrawableLayout(widgets) || WrappingLayout(widgets)
    ensures fault.BadCount? <==> |widgets| == 0 || |widgets| > WIDGET_LIMIT
    ensures !fault.Fine? && !fault.BadCount? ==>
              && at < |widgets|
              && (at > 0 ==> DrawableLayout(widgets[..at]) || WrappingLayout(widgets[..at]))
              && fault == FaultOf(widgets[at], KeysBefore(widgets, at))
  {
    at := 0;
    if |widgets| == 0 || |widgets| > WIDGET_LIMIT {
      return BadCount, 0;
    }
    hide Drawable, Wraps, FaultOf;
    var seen := {};
    while at < |widgets|
      invariant at <= |widgets|
      invariant seen == KeysBefore(widgets, at)
      invariant forall i | 0 <= i < at :: Drawable(widgets[i]) || Wraps(widgets[i])
      invariant NoKeyTwice(widgets[..at])
    {
      fault := FaultOf(widgets[at], seen);
      if !fault.Fine? {
        EitherWay(widgets[..at]);
        if DrawableLayout(widgets) || WrappingLayout(widgets) {
          FirstFaultShows(widgets, at);
        }
        return fault, at;
      }
      seen := seen + {widgets[at].key};
      assert forall i | 0 <= i < at :: widgets[i].key in KeysBefore(widgets, at);
      at := at + 1;
    }
    assert widgets[..at] == widgets;
    EitherWay(widgets);
    fault := Fine;
  }

  lemma EitherWay(widgets: seq<Widget>)
    requires |widgets| <= WIDGET_LIMIT && NoKeyTwice(widgets)
    requires forall i | 0 <= i < |widgets| :: Drawable(widgets[i]) || Wraps(widgets[i])
    ensures widgets != [] ==> DrawableLayout(widgets) || WrappingLayout(widgets)
  {
    hide Drawable, Wraps;
  }

  /** In a layout that passes, no widget has a fault. */
  lemma FirstFaultShows(widgets: seq<Widget>, at: nat)
    requires at < |widgets| && (DrawableLayout(widgets) || WrappingLayout(widgets))
    ensures FaultOf(widgets[at], KeysBefore(widgets, at)).Fine?
  {
    hide Drawable, Wraps, FaultOf;
    assert widgets[at].key !in KeysBefore(widgets, at);
  }

  /** What passes is drawable exactly when no placed widget ends beyond the largest integer. */
  lemma DrawableUnlessWrapped(widgets: seq<Widget>)
    requires DrawableLayout(widgets) || WrappingLayout(widgets)
    ensures DrawableLayout(widgets) <==>
              forall i | 0 <= i < |widgets| :: widgets[i].x.Some? ==> widgets[i].x.value <= TWO_63 - 1 - widgets[i].width
  {
    if WrappingLayout(widgets) {
      var i :| 0 <= i < |widgets| && Wraps(widgets[i]);
      WrapsIsNotDrawable(widgets[i]);
    }
  }

  /** The widest such place: it passes every check, and no screen has that column. */
  lemma WrappedPlaceIsAccepted(key: string)
    requires KeyShaped(key)
    ensures var w := Widget(key, 1, 0, false, Some(9223372036854775807), Some(0));
            && FaultOf(w, {}).Fine?
            && WrappingLayout([w]) && !DrawableLayout([w])
  {
    var w := Widget(key, 1, 0, false, Some(9223372036854775807), Some(0));
    assert Wraps(w);
    assert [w][0] == w;
  }
}
