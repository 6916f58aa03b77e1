/**
 * The drag and resize gestures of a text element. Each element owns one
 * drag session and one resize session; a press on the text starts the
 * first, a press on the corner handle the second, every pointer move on
 * the page is offered to both, and every pointer release ends both.
 * Coordinates and sizes are whole pixels.
 */
module Gesture {

  /** A pointer position in the page. */
  datatype Point = Point(x: int, y: int)

  /** An element's offset position and size. */
  datatype Box = Box(left: int, top: int, width: int, height: int)

  /** The drag session: idle, or dragging with the grab offset (pointer
      minus the element's top-left corner at the press). */
  datatype DragSession = NotDragging | Dragging(offsetX: int, offsetY: int)

  /** The resize session: idle, or resizing with the pointer position and
      the element's size at the press. */
  datatype ResizeSession =
    | NotResizing
    | Resizing(startX: int, startY: int, startWidth: int, startHeight: int)

  /** Press on the text: remember where in the element it was grabbed, so
      that a move to the press point leaves the element where it is. */
  function StartDrag(b: Box, p: Point): (s: DragSession)
    ensures s.Dragging?
    ensures p.x - s.offsetX == b.left && p.y - s.offsetY == b.top
  {
    Dragging(p.x - b.left, p.y - b.top)
  }

  /** A move while dragging puts the top-left corner at the pointer minus the
      grab offset; the size is untouched, and an idle session changes nothing. */
  function DragMove(s: DragSession, b: Box, p: Point): (r: Box)
    ensures r.width == b.width && r.height == b.height
    ensures s.NotDragging? ==> r == b
  {
    match s
    case NotDragging => b
    case Dragging(ox, oy) => b.(left := p.x - ox, top := p.y - oy)
  }

  /** Press on the resize handle: remember the pointer and the size. */
  function StartResize(b: Box, p: Point): (s: ResizeSession)
    ensures s.Resizing?
    ensures s.startWidth == b.width && s.startHeight == b.height
    ensures s.startX == p.x && s.startY == p.y
  {
    Resizing(p.x, p.y, b.width, b.height)
  }

  /** A move while resizing sets the size to the size at the press plus the
      pointer's travel since the press, with no lower bound; the position is
      untouched, and an idle session changes nothing. */
  function ResizeMove(s: ResizeSession, b: Box, p: Point): (r: Box)
    ensures r.left == b.left && r.top == b.top
    ensures s.NotResizing? ==> r == b
  {
    match s
    case NotResizing => b
    case Resizing(sx, sy, sw, sh) => b.(width := sw + p.x - sx, height := sh + p.y - sy)
  }

  /** One pointer move offered to both sessions of an element, drag first;
      the two touch different fields, so the order does not matter. */
  function Move(d: DragSession, s: ResizeSession, b: Box, p: Point): (r: Box)
    ensures r == DragMove(d, ResizeMove(s, b, p), p)
  {
    ResizeMove(s, DragMove(d, b, p), p)
  }

  /** A run of pointer moves during which neither session changes; only the
      last one decides the result. */
  function Moves(d: DragSession, s: ResizeSession, b: Box, ps: seq<Point>): (r: Box)
    decreases ps
    ensures ps != [] ==> r == Move(d, s, b, ps[|ps| - 1])
  {
    if ps == [] then b else Moves(d, s, Move(d, s, b, ps[0]), ps[1..])
  }

  /** Where the element ends up after a run of moves depends only on the
      last pointer position, not on the path: the corner follows the pointer
      rigidly while dragging, the size follows the pointer's travel while
      resizing, and what no session drives stays as it was. */
  lemma {:induction false} MovesFollowLastPointer(d: DragSession, s: ResizeSession, b: Box, ps: seq<Point>)
    requires ps != []
    decreases ps
    ensures var r, p := Moves(d, s, b, ps), ps[|ps| - 1];
      && (d.Dragging? ==> r.left == p.x - d.offsetX && r.top == p.y - d.offsetY)
      && (d.NotDragging? ==> r.left == b.left && r.top == b.top)
      && (s.Resizing? ==> r.width == s.startWidth + p.x - s.startX && r.height == s.startHeight + p.y - s.startY)
      && (s.NotResizing? ==> r.width == b.width && r.height == b.height)
  {
    var next := Move(d, s, b, ps[0]);
    if |ps| > 1 {
      MovesFollowLastPointer(d, s, next, ps[1..]);
      assert ps[1..][|ps| - 2] == ps[|ps| - 1];
    } else {
      assert Moves(d, s, next, ps[1..]) == next;
    }
  }

  /** With both sessions idle, no run of moves changes anything. */
  lemma {:induction false} IdleMovesChangeNothing(b: Box, ps: seq<Point>)
    ensures Moves(NotDragging, NotResizing, b, ps) == b
    decreases ps
  {
    if ps != [] {
      IdleMovesChangeNothing(b, ps[1..]);
    }
  }

  /** A whole drag gesture: press on the text at `press`, then any moves.
      The element is displaced by exactly the pointer's displacement from the
      press point, and keeps its size. */
  lemma DragGesture(b: Box, press: Point, ps: seq<Point>)
    requires ps != []
    ensures var r, p := Moves(StartDrag(b, press), NotResizing, b, ps), ps[|ps| - 1];
      r == Box(b.left + (p.x - press.x), b.top + (p.y - press.y), b.width, b.height)
  {
    MovesFollowLastPointer(StartDrag(b, press), NotResizing, b, ps);
  }

  /** A whole resize gesture: press on the handle at `press`, then any moves.
      The size changes by exactly the pointer's displacement from the press
      point (so it can reach zero or below), and the position is kept. */
  lemma ResizeGesture(b: Box, press: Point, ps: seq<Point>)
    requires ps != []
    ensures var r, p := Moves(NotDragging, StartResize(b, press), b, ps), ps[|ps| - 1];
      r == Box(b.left, b.top, b.width + (p.x - press.x), b.height + (p.y - press.y))
  {
    MovesFollowLastPointer(NotDragging, StartResize(b, press), b, ps);
  }
}
