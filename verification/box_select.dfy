/**
 * The drag-to-select component.  Pressing the mouse on the selectable area
 * anchors a selection rectangle, moving the mouse stretches it between the
 * anchor and the pointer, and releasing it ends the selection.  After every
 * change of the rectangle the candidate elements are filtered down to those
 * whose boxes overlap it, and the result is reported to the owner.
 *
 * The document's candidate elements are given to each event as a sequence
 * (in document order) with their bounding boxes; the two callbacks the owner
 * passes in are recorded, in call order, in a log of notices.
 */
module BoxSelection {
  import opened Optional
  import opened Rects

  /** The press point, in client coordinates. */
  datatype Point = Point(top: real, left: real)

  /** The selection rectangle as the component keeps it. */
  datatype Position = Position(top: real, left: real, width: real, height: real)

  /** A selectable element: the date it carries and its bounding box. */
  datatype Element = Element(dataDate: string, box: Rect)

  /** A call of one of the owner's callbacks. */
  datatype Notice = SelectChange(selected: seq<Element>) | SelectEnd

  /** The rectangle handed to the overlap test: `x` is `left`, `y` is `top`. */
  function AsRect(p: Position): Rect {
    Rect(p.left, p.top, p.width, p.height)
  }

  function Abs(v: real): (a: real)
    ensures a >= 0.0 && (a == v || a == -v)
  {
    if v < 0.0 then -v else v
  }

  /** The candidates whose boxes overlap `area`, in candidate order. */
  function Selected(boxes: seq<Element>, area: Rect): (s: seq<Element>)
    ensures |s| <= |boxes|
    ensures forall e :: e in s ==> e in boxes && IsRectangleIntersect(area, e.box)
  {
    if boxes == [] then []
    else
      var last := boxes[|boxes| - 1];
      Selected(boxes[..|boxes| - 1], area) + (if IsRectangleIntersect(area, last.box) then [last] else [])
  }

  /** Every overlapping candidate is selected, and nothing else is. */
  lemma {:induction false} SelectedMembers(boxes: seq<Element>, area: Rect, e: Element)
    ensures e in Selected(boxes, area) <==> e in boxes && IsRectangleIntersect(area, e.box)
  {
    if boxes != [] {
      var init := boxes[..|boxes| - 1];
      SelectedMembers(init, area, e);
      assert boxes == init + [boxes[|boxes| - 1]];
    }
  }

  /** Selecting from two runs of candidates selects from each in turn: the order is kept. */
  lemma {:induction false} SelectedConcat(a: seq<Element>, b: seq<Element>, area: Rect)
    ensures Selected(a + b, area) == Selected(a, area) + Selected(b, area)
  {
    if b == [] {
      assert a + b == a;
    } else {
      var init, last := b[..|b| - 1], b[|b| - 1];
      var tail := if IsRectangleIntersect(area, last.box) then [last] else [];
      SelectedConcat(a, init, area);
      assert (a + b)[..|a + b| - 1] == a + init;
      assert (a + b)[|a + b| - 1] == last;
      assert Selected(a + b, area) == Selected(a + init, area) + tail;
      assert Selected(b, area) == Selected(init, area) + tail;
    }
  }

  /** The selection pass: every candidate in turn, kept when its box overlaps `area`. */
  method CollectSelected(boxes: seq<Element>, area: Rect) returns (selectDoms: seq<Element>)
    ensures selectDoms == Selected(boxes, area)
  {
    selectDoms := [];
    for i := 0 to |boxes|
      invariant selectDoms == Selected(boxes[..i], area)
    {
      assert boxes[..i + 1][..i] == boxes[..i];
      if IsRectangleIntersect(area, boxes[i].box) {
        selectDoms := selectDoms + [boxes[i]];
      }
    }
    assert boxes[..|boxes|] == boxes;
  }

  class BoxSelect {
    var position: Position
    var isPress: bool
    var startPos: Option<Point>
    /** The owner's callbacks, in the order the component made them. */
    var notices: seq<Notice>

    /** An anchor exists exactly while the button is down, and the rectangle never has a negative size. */
    predicate Valid()
      reads this
    {
      (isPress <==> startPos.Some?) && NonNegative(AsRect(position))
    }

    /** What the component draws over the page: the rectangle while the button is down, nothing otherwise. */
    function Overlay(): (o: Option<Position>)
      reads this
      ensures Valid() ==> (o.Some? <==> startPos.Some?)
      ensures o.Some? ==> o.value == position
      ensures Valid() && o.Some? ==> NonNegative(AsRect(o.value))
    {
      if isPress then Some(position) else None
    }

    /** Mounting: an empty rectangle at the origin, no press, and a first selection pass. */
    constructor(boxes: seq<Element>)
      ensures Valid()
      ensures position == Position(0.0, 0.0, 0.0, 0.0) && !isPress && startPos == None
      ensures notices == [SelectChange(Selected(boxes, AsRect(position)))]
      ensures Overlay() == None
    {
      position := Position(0.0, 0.0, 0.0, 0.0);
      isPress := false;
      startPos := None;
      notices := [];
      new;
      Refilter(boxes);
    }

    /** The pass that follows every change of the rectangle. */
    method Refilter(boxes: seq<Element>)
      modifies this`notices
      ensures notices == old(notices) + [SelectChange(Selected(boxes, AsRect(position)))]
    {
      var selectDoms := CollectSelected(boxes, AsRect(position));
      notices := notices + [SelectChange(selectDoms)];
    }

    /** Pressing anchors a 1 x 1 rectangle at the press point. */
    method MouseDown(clientX: real, clientY: real, boxes: seq<Element>)
      requires Valid()
      modifies this
      ensures Valid()
      ensures isPress && startPos == Some(Point(clientY, clientX))
      ensures position == Position(clientY, clientX, 1.0, 1.0)
      ensures notices == old(notices) + [SelectChange(Selected(boxes, AsRect(position)))]
      ensures Overlay() == Some(position)
    {
      isPress := true;
      startPos := Some(Point(clientY, clientX));
      position := Position(clientY, clientX, 1.0, 1.0);
      Refilter(boxes);
    }

    /**
     * Moving with the button down stretches the rectangle between the anchor
     * and the pointer, whichever side of the anchor the pointer is on.
     */
    method MouseMove(clientX: real, clientY: real, boxes: seq<Element>)
      requires Valid()
      modifies this
      ensures Valid()
      ensures !old(isPress) ==> unchanged(this)
      ensures old(isPress) ==>
                var anchor := old(startPos).value;
                isPress && startPos == old(startPos) &&
                position.left == Min(anchor.left, clientX) &&
                position.left + position.width == Max(anchor.left, clientX) &&
                position.top == Min(anchor.top, clientY) &&
                position.top + position.height == Max(anchor.top, clientY) &&
                notices == old(notices) + [SelectChange(Selected(boxes, AsRect(position)))]
    {
      if !isPress {
        return;
      }
      var anchor := startPos.value;
      var left := anchor.left;
      var top := anchor.top;
      var width := Abs(clientX - anchor.left);
      var height := Abs(clientY - anchor.top);
      if clientX < anchor.left {
        left := clientX;
      }
      if clientY < anchor.top {
        top := clientY;
      }
      position := Position(top, left, width, height);
      Refilter(boxes);
    }

    /** Scrolling with the button down keeps the rectangle and re-runs the pass, since the elements moved. */
    method Scroll(boxes: seq<Element>)
      requires Valid()
      modifies this
      ensures Valid()
      ensures !old(isPress) ==> unchanged(this)
      ensures old(isPress) ==>
                isPress == old(isPress) && startPos == old(startPos) && position == old(position) &&
                notices == old(notices) + [SelectChange(Selected(boxes, AsRect(position)))]
    {
      if !isPress {
        return;
      }
      Refilter(boxes);
    }

    /**
     * Releasing ends the drag: the anchor is dropped, the rectangle stays,
     * the owner hears that the selection ended, and then the pass runs once more.
     */
    method MouseUp(boxes: seq<Element>)
      requires Valid()
      modifies this
      ensures Valid()
      ensures !old(isPress) ==> unchanged(this)
      ensures old(isPress) ==>
                !isPress && startPos == None && position == old(position) &&
                notices == old(notices) + [SelectEnd, SelectChange(Selected(boxes, AsRect(position)))]
      ensures Overlay() == None
    {
      if !isPress {
        return;
      }
      startPos := None;
      isPress := false;
      notices := notices + [SelectEnd];
      Refilter(boxes);
    }
  }

  /** A press at (x0, y0) followed by a move to (x, y) selects by the rectangle spanned by the two points. */
  lemma DragRectangle(x0: real, y0: real, x: real, y: real, p: Position)
    requires p.left == Min(x0, x) && p.left + p.width == Max(x0, x)
    requires p.top == Min(y0, y) && p.top + p.height == Max(y0, y)
    ensures NonNegative(AsRect(p))
    ensures p.width == Abs(x - x0) && p.height == Abs(y - y0)
    ensures Inside(AsRect(p), (x0 + x) / 2.0, (y0 + y) / 2.0) <==> x0 != x && y0 != y
  {
  }
}
