/** src/hooks/useResizable.ts: the split between editor and preview. The UI
    store's `isResizing` and `editorWidth` (a percentage) are the fields of
    `Resizer`; the bounding rectangle of the layout container is a parameter
    (None when the selector finds no element). Numbers are exact reals. */
module Resizable {
  import opened Common

  const DefaultMinWidth: real := 20.0
  const DefaultMaxWidth: real := 80.0

  /** The container's left edge and width, in pixels. */
  datatype Rect = Rect(left: real, width: real)

  /** The state the hook reads and sets. */
  datatype Split = Split(isResizing: bool, editorWidth: real)

  /** The window events the hook listens to, and the two handlers it hands out. */
  datatype Event = StartResizing | StopResizing | MouseUp | MouseMove(clientX: real, container: Option<Rect>)

  /** The pointer's position as a percentage of the container. A zero-width
      container gives ±Infinity or NaN, which no bound test accepts: None. */
  function Percent(clientX: real, r: Rect): Option<real> {
    if r.width == 0.0 then None else Some((clientX - r.left) / r.width * 100.0)
  }

  /** The width a mousemove leaves: the pointer's percentage when the split
      is being dragged, a container exists, and the percentage lies strictly
      between the bounds; the current width otherwise. */
  function Moved(s: Split, clientX: real, container: Option<Rect>, minWidth: real, maxWidth: real): (w: real)
    ensures w == s.editorWidth || (minWidth < w < maxWidth && s.isResizing && container.Some?)
    ensures s.isResizing && container.Some? && Percent(clientX, container.value).Some?
      && minWidth < Percent(clientX, container.value).value < maxWidth
      ==> w == Percent(clientX, container.value).value
    ensures !(s.isResizing && container.Some? && Percent(clientX, container.value).Some?
              && minWidth < Percent(clientX, container.value).value < maxWidth)
      ==> w == s.editorWidth
  {
    if s.isResizing && container.Some? then
      match Percent(clientX, container.value)
      case Some(p) => if p > minWidth && p < maxWidth then p else s.editorWidth
      case None => s.editorWidth
    else s.editorWidth
  }

  /** The state after one event. */
  function Step(s: Split, e: Event, minWidth: real, maxWidth: real): (r: Split)
    ensures e.StartResizing? ==> r.isResizing
    ensures e.StopResizing? || e.MouseUp? ==> !r.isResizing
    ensures !e.MouseMove? ==> r.editorWidth == s.editorWidth
    ensures e.MouseMove? ==> r.isResizing == s.isResizing
  {
    match e
    case StartResizing => s.(isResizing := true)
    case StopResizing => s.(isResizing := false)
    case MouseUp => s.(isResizing := false)
    case MouseMove(x, c) => s.(editorWidth := Moved(s, x, c, minWidth, maxWidth))
  }

  /** The state after a run of events. */
  function Run(s: Split, es: seq<Event>, minWidth: real, maxWidth: real): Split
    decreases |es|
  {
    if es == [] then s else Step(Run(s, es[..|es| - 1], minWidth, maxWidth), es[|es| - 1], minWidth, maxWidth)
  }

  /** A width strictly between the bounds stays there, whatever happens. */
  lemma {:induction false} WidthStaysInBounds(s: Split, es: seq<Event>, minWidth: real, maxWidth: real)
    requires minWidth < s.editorWidth < maxWidth
    ensures minWidth < Run(s, es, minWidth, maxWidth).editorWidth < maxWidth
    decreases |es|
  {
    if es != [] {
      WidthStaysInBounds(s, es[..|es| - 1], minWidth, maxWidth);
    }
  }

  /** Moves while not dragging change nothing at all. */
  lemma {:induction false} IdleMovesChangeNothing(s: Split, es: seq<Event>, minWidth: real, maxWidth: real)
    requires !s.isResizing
    requires forall i :: 0 <= i < |es| ==> es[i].MouseMove?
    ensures Run(s, es, minWidth, maxWidth) == s
    decreases |es|
  {
    if es != [] {
      IdleMovesChangeNothing(s, es[..|es| - 1], minWidth, maxWidth);
    }
  }

  /** With the default bounds and a container 1000 pixels wide at the left
      edge, a drag to 600 gives 60; to 100 or 900 it leaves the width at 50. */
  lemma DefaultExamples()
    ensures Moved(Split(true, 50.0), 600.0, Some(Rect(0.0, 1000.0)), DefaultMinWidth, DefaultMaxWidth) == 60.0
    ensures Moved(Split(true, 50.0), 100.0, Some(Rect(0.0, 1000.0)), DefaultMinWidth, DefaultMaxWidth) == 50.0
    ensures Moved(Split(true, 50.0), 900.0, Some(Rect(0.0, 1000.0)), DefaultMinWidth, DefaultMaxWidth) == 50.0
    ensures Moved(Split(true, 50.0), 600.0, None, DefaultMinWidth, DefaultMaxWidth) == 50.0
  {
  }

  /** The hook over the UI store's two fields. */
  class Resizer {
    var isResizing: bool
    var editorWidth: real
    const minWidth: real
    const maxWidth: real

    function State(): Split
      reads this
    {
      Split(isResizing, editorWidth)
    }

    /** The store's initial state (not resizing, width 50) and the bounds. */
    constructor (minWidth: real, maxWidth: real)
      ensures State() == Split(false, 50.0)
      ensures this.minWidth == minWidth && this.maxWidth == maxWidth
    {
      isResizing := false;
      editorWidth := 50.0;
      this.minWidth := minWidth;
      this.maxWidth := maxWidth;
    }

    method StartResizing()
      modifies this
      ensures State() == Step(old(State()), Event.StartResizing, minWidth, maxWidth)
    {
      isResizing := true;
    }

    /** stopResizing, also the window's mouseup listener. */
    method StopResizing()
      modifies this
      ensures State() == Step(old(State()), Event.StopResizing, minWidth, maxWidth)
    {
      isResizing := false;
    }

    method Resize(clientX: real, container: Option<Rect>)
      modifies this
      ensures State() == Step(old(State()), MouseMove(clientX, container), minWidth, maxWidth)
    {
      if isResizing {
        if container.Some? {
          var r := container.value;
          if r.width != 0.0 {
            var newEditorWidth := (clientX - r.left) / r.width * 100.0;
            if newEditorWidth > minWidth && newEditorWidth < maxWidth {
              editorWidth := newEditorWidth;
            }
          }
        }
      }
    }
  }
}
