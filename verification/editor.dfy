/**
 * The editor page: a canvas of text elements, one optional active element,
 * and a control panel (font family, font size, colour) shared by all
 * elements. Covers the element factory, the selection manager, the style
 * applicator and the page-wide pointer events that drive the gestures.
 *
 * Elements are never removed, so an element is identified by its index in
 * `elements`, in creation order.
 */
module Editor {
  import opened Wrappers
  import opened Colour
  import opened Gesture

  /** The inline style of an element's text node: the font family, the font
      size in pixels and the colour text, as written. */
  datatype TextStyle = TextStyle(fontFamily: string, fontSize: int, colour: string)

  /** The values shown by the three shared inputs. */
  datatype Controls = Controls(fontFamily: string, fontSize: int, colour: string)

  /** A text element: its geometry, its two gesture sessions, whether it
      carries the selection outline, and its text style. */
  datatype TextElement = TextElement(
    box: Box,
    drag: DragSession,
    resize: ResizeSession,
    highlighted: bool,
    style: TextStyle)

  // ---------------------------------------------------------------------
  // Style applicator and control-panel read-back
  // ---------------------------------------------------------------------

  /** `updateTextStyle`: the three control values overwrite the text style. */
  function StyleFrom(c: Controls): (s: TextStyle)
    ensures Stable(c) ==> ControlValues(c, s) == Readback(c, true)
  {
    TextStyle(c.fontFamily, c.fontSize, c.colour)
  }

  predicate IsQuote(c: char) {
    c == '\'' || c == '"'
  }

  predicate NoQuotes(s: string) {
    forall i :: 0 <= i < |s| ==> !IsQuote(s[i])
  }

  /** `replace(/['"]+/g, '')`: every single and double quote removed. */
  function StripQuotes(s: string): (r: string)
    ensures NoQuotes(r) && |r| <= |s|
    ensures NoQuotes(s) ==> r == s
  {
    if s == [] then []
    else if IsQuote(s[0]) then StripQuotes(s[1..])
    else [s[0]] + StripQuotes(s[1..])
  }

  /** The font-family control after a read-back: the family without quotes,
      or "Arial" when that is empty. */
  function FamilyControl(family: string): (r: string)
    ensures r != [] && NoQuotes(r)
    ensures StripQuotes(family) != [] ==> r == StripQuotes(family)
    ensures StripQuotes(family) == [] ==> r == "Arial"
  {
    var bare := StripQuotes(family);
    if bare == [] then "Arial" else bare
  }

  /** The font-size control after a read-back of `<n>px`: `parseInt` gives
      n, and `|| 16` replaces a zero. */
  function SizeControl(size: int): (r: int)
    ensures r != 0
    ensures size != 0 ==> r == size
    ensures size == 0 ==> r == 16
  {
    if size == 0 then 16 else size
  }

  /** The outcome of `updateControlValues`: the new panel, and whether the
      handler ran to its end (false when `rgb2hex` threw). */
  datatype Readback = Readback(panel: Controls, completed: bool)

  /** `updateControlValues(textNode)`: the family and size controls are
      written first; then the colour control gets `rgb2hex` of the colour,
      or the handler throws and the colour control keeps its old value. The
      `|| '#000000'` fallback never applies: `rgb2hex` never returns an
      empty string. */
  function ControlValues(panel: Controls, s: TextStyle): (r: Readback)
    ensures r.panel.fontFamily == FamilyControl(s.fontFamily)
    ensures r.panel.fontSize == SizeControl(s.fontSize)
    ensures r.panel.fontFamily != [] && NoQuotes(r.panel.fontFamily)
    ensures r.panel.fontSize != 0
    ensures r.completed <==> RgbToHex(s.colour).Some?
    ensures r.completed ==> r.panel.colour == RgbToHex(s.colour).value
    ensures r.completed ==> StartsWithHash(r.panel.colour)
    ensures !r.completed ==> r.panel.colour == panel.colour
  {
    var p := panel.(fontFamily := FamilyControl(s.fontFamily), fontSize := SizeControl(s.fontSize));
    match RgbToHex(s.colour)
    case None => Readback(p, false)
    case Some(h) => Readback(p.(colour := if h != [] then h else "#000000"), true)
  }

  /** A panel that survives being written to a text node and read back: a
      non-empty family without quotes, a non-zero size, a colour starting
      with `#` (every value a colour input produces). */
  predicate Stable(c: Controls) {
    c.fontFamily != [] && NoQuotes(c.fontFamily) && c.fontSize != 0 && StartsWithHash(c.colour)
  }

  /** Writing a stable panel to a text node and reading it back restores
      the panel, whatever the panel showed in between. */
  lemma PanelRoundTrip(shown: Controls, c: Controls)
    requires Stable(c)
    ensures ControlValues(shown, StyleFrom(c)) == Readback(c, true)
  {
  }

  /** The same when the browser reads a `#rrggbb` colour back as
      `rgb(r, g, b)`: the read-back still restores the panel exactly. */
  lemma PanelRoundTripViaBrowser(shown: Controls, c: Controls)
    requires Stable(c) && ParseHexColour(c.colour).Some?
    ensures var (r, g, b) := ParseHexColour(c.colour).value;
      ControlValues(shown, StyleFrom(c).(colour := CssRgb(r, g, b))) == Readback(c, true)
  {
    HexColourRoundTrip(c.colour);
  }

  /** A completed read-back is a stable panel: writing it back to the text
      node (an edit that changes nothing) and reading again shows the same
      panel. */
  lemma ReadbackIsStable(shown: Controls, s: TextStyle)
    requires ControlValues(shown, s).completed
    ensures Stable(ControlValues(shown, s).panel)
    ensures ControlValues(shown, StyleFrom(ControlValues(shown, s).panel)) == ControlValues(shown, s)
  {
    var p := ControlValues(shown, s).panel;
    PanelRoundTrip(shown, p);
  }

  // ---------------------------------------------------------------------
  // The selection invariant
  // ---------------------------------------------------------------------

  /** The indices of the elements that carry the selection outline. */
  function Highlighted(es: seq<TextElement>): set<nat> {
    set i: nat | i < |es| && es[i].highlighted
  }

  /** The outline is on the active element and on no other one. */
  predicate OutlineFollowsActive(es: seq<TextElement>, active: Option<nat>) {
    && (active.Some? ==> active.value < |es|)
    && forall i :: 0 <= i < |es| ==> (es[i].highlighted <==> active == Some(i))
  }

  /** Hence at most one element is highlighted at any time, and it is the
      active one. */
  lemma AtMostOneHighlighted(es: seq<TextElement>, active: Option<nat>)
    requires OutlineFollowsActive(es, active)
    ensures Highlighted(es) == if active.Some? then {active.value} else {}
    ensures |Highlighted(es)| <= 1
  {
    if active.Some? {
      assert active.value in Highlighted(es);
    }
  }

  /** One pointer move applied to an element's geometry through its sessions. */
  function Moved(e: TextElement, p: Point): (r: TextElement)
    ensures r.drag == e.drag && r.resize == e.resize
    ensures r.highlighted == e.highlighted && r.style == e.style
  {
    e.(box := Move(e.drag, e.resize, e.box, p))
  }

  /** A pointer release ends both sessions of an element. */
  function Released(e: TextElement): (r: TextElement)
    ensures r.drag == NotDragging && r.resize == NotResizing
    ensures r.box == e.box && r.highlighted == e.highlighted && r.style == e.style
  {
    e.(drag := NotDragging, resize := NotResizing)
  }

  // ---------------------------------------------------------------------
  // The page
  // ---------------------------------------------------------------------

  class Canvas {
    var elements: seq<TextElement>
    var active: Option<nat>
    var controls: Controls

    ghost predicate Valid()
      reads this
    {
      OutlineFollowsActive(elements, active)
    }

    /** The page as loaded: no element, nothing active, the inputs showing
        their initial values. */
    constructor (initial: Controls)
      ensures Valid()
      ensures elements == [] && active == None && controls == initial
    {
      elements := [];
      active := None;
      controls := initial;
    }

    /** `deselectTextElement`: remove the outline of element `i`. */
    method Deselect(i: nat)
      requires i < |elements|
      modifies this`elements
      ensures elements == old(elements)[i := old(elements)[i].(highlighted := false)]
    {
      elements := elements[i := elements[i].(highlighted := false)];
    }

    /** `updateControlValues`: read the text style back into the panel. */
    method UpdateControlValues(s: TextStyle) returns (ok: bool)
      modifies this`controls
      ensures Readback(controls, ok) == ControlValues(old(controls), s)
    {
      controls := controls.(fontFamily := FamilyControl(s.fontFamily));
      controls := controls.(fontSize := SizeControl(s.fontSize));
      var hex := RgbToHex(s.colour);
      if hex.None? {
        ok := false;
      } else {
        controls := controls.(colour := if hex.value != [] then hex.value else "#000000");
        ok := true;
      }
    }

    /** `selectTextElement(i)`: the previously active element loses its
        outline, element `i` becomes active and gets it, and the panel reads
        back element `i`'s style. `ok` is false when that read-back threw,
        after the selection itself took effect. */
    method Select(i: nat) returns (ok: bool)
      requires Valid() && i < |elements|
      modifies this
      ensures Valid() && active == Some(i) && Highlighted(elements) == {i}
      ensures |elements| == |old(elements)|
      ensures forall j :: 0 <= j < |elements| ==>
        elements[j] == old(elements)[j].(highlighted := j == i)
      ensures Readback(controls, ok) == ControlValues(old(controls), old(elements)[i].style)
    {
      if active.Some? {
        Deselect(active.value);
      }
      active := Some(i);
      elements := elements[i := elements[i].(highlighted := true)];
      ok := UpdateControlValues(elements[i].style);
      AtMostOneHighlighted(elements, active);
    }

    /** `createNewText`: a new element at the given placement and laid-out
        size, idle sessions, its text styled from the panel; then it is
        selected. With a stable panel the read-back completes and leaves
        the panel as it was. */
    method AddText(left: int, top: int, width: int, height: int) returns (ok: bool)
      requires Valid()
      modifies this
      ensures Valid()
      ensures |elements| == |old(elements)| + 1 && active == Some(|old(elements)|)
      ensures forall j :: 0 <= j < |old(elements)| ==>
        elements[j] == old(elements)[j].(highlighted := false)
      ensures elements[|old(elements)|] ==
        TextElement(Box(left, top, width, height), NotDragging, NotResizing, true, StyleFrom(old(controls)))
      ensures Readback(controls, ok) == ControlValues(old(controls), StyleFrom(old(controls)))
      ensures Stable(old(controls)) ==> ok && controls == old(controls)
    {
      var e := TextElement(Box(left, top, width, height), NotDragging, NotResizing, false, StyleFrom(controls));
      elements := elements + [e];
      ok := Select(|elements| - 1);
      if Stable(old(controls)) {
        PanelRoundTrip(old(controls), old(controls));
      }
    }

    /** `startDragging`: a press on element `i`. Only a press whose target is
        the text node starts a drag, grabbing the element at the pointer's
        offset from its corner, and selects it. */
    method PressElement(i: nat, p: Point, onText: bool) returns (ok: bool)
      requires Valid() && i < |elements|
      modifies this
      ensures Valid() && |elements| == |old(elements)|
      ensures !onText ==> ok && elements == old(elements) && active == old(active) && controls == old(controls)
      ensures onText ==> active == Some(i)
      ensures onText ==> forall j :: 0 <= j < |elements| ==>
        elements[j] == old(elements)[j].(highlighted := j == i,
                                         drag := if j == i then StartDrag(old(elements)[i].box, p) else old(elements)[j].drag)
      ensures onText ==> Readback(controls, ok) == ControlValues(old(controls), old(elements)[i].style)
    {
      ok := true;
      if onText {
        elements := elements[i := elements[i].(drag := StartDrag(elements[i].box, p))];
        ok := Select(i);
      }
    }

    /** `startResizing`: a press on element `i`'s resize handle records the
        pointer and the element's laid-out size at that moment (`width` and
        `height`, its `offsetWidth` and `offsetHeight`, which follow the text
        and font until a resize fixes them), and selects the element. The press does not
        reach the element, so it never also starts a drag. */
    method PressResizeHandle(i: nat, p: Point, width: int, height: int) returns (ok: bool)
      requires Valid() && i < |elements|
      modifies this
      ensures Valid() && active == Some(i) && |elements| == |old(elements)|
      ensures elements[i].resize == Resizing(p.x, p.y, width, height)
      ensures forall j :: 0 <= j < |elements| ==>
        elements[j] == old(elements)[j].(highlighted := j == i,
                                         resize := if j == i then StartResize(old(elements)[i].box.(width := width, height := height), p)
                                                   else old(elements)[j].resize)
      ensures Readback(controls, ok) == ControlValues(old(controls), old(elements)[i].style)
    {
      var laidOut := elements[i].box.(width := width, height := height);
      elements := elements[i := elements[i].(resize := StartResize(laidOut, p))];
      ok := Select(i);
    }

    /** A pointer move anywhere on the page: every element's `drag` and
        `resize` listeners see it, and each moves its own element only if its
        session is active. Selection and panel are untouched. */
    method PointerMove(p: Point)
      requires Valid()
      modifies this`elements
      ensures Valid() && |elements| == |old(elements)|
      ensures forall j :: 0 <= j < |elements| ==> elements[j] == Moved(old(elements)[j], p)
    {
      var es := elements;
      elements := seq(|es|, j requires 0 <= j < |es| => Moved(es[j], p));
    }

    /** A pointer release anywhere on the page: every element's
        `stopDragging` and `stopResizing` end its sessions, unconditionally. */
    method PointerUp()
      requires Valid()
      modifies this`elements
      ensures Valid() && |elements| == |old(elements)|
      ensures forall j :: 0 <= j < |elements| ==> elements[j] == Released(old(elements)[j])
    {
      var es := elements;
      elements := seq(|es|, j requires 0 <= j < |es| => Released(es[j]));
    }

    /** The canvas click handler: a click whose target is the canvas itself
        clears the selection; a click on anything inside it changes nothing.
        The panel keeps showing the last values. */
    method ClickCanvas(onCanvas: bool)
      requires Valid()
      modifies this`elements, this`active
      ensures Valid() && |elements| == |old(elements)|
      ensures onCanvas ==> active == None && Highlighted(elements) == {}
      ensures onCanvas ==> forall j :: 0 <= j < |elements| ==>
        elements[j] == old(elements)[j].(highlighted := false)
      ensures !onCanvas ==> elements == old(elements) && active == old(active)
    {
      if onCanvas && active.Some? {
        Deselect(active.value);
        active := None;
      }
      AtMostOneHighlighted(elements, active);
    }

    /** `updateActiveElementStyle`: when an element is active its text style
        is overwritten from the panel; otherwise nothing happens. No other
        element changes. */
    method UpdateActiveElementStyle()
      requires Valid()
      modifies this`elements
      ensures Valid() && |elements| == |old(elements)|
      ensures forall j :: 0 <= j < |elements| ==>
        elements[j] == if active == Some(j) then old(elements)[j].(style := StyleFrom(controls))
                       else old(elements)[j]
    {
      if active.Some? {
        var i := active.value;
        elements := elements[i := elements[i].(style := StyleFrom(controls))];
      }
    }

    /** A change to one of the three inputs leaves the panel at `c` and runs
        `updateActiveElementStyle`. */
    method EditControls(c: Controls)
      requires Valid()
      modifies this`elements, this`controls
      ensures Valid() && controls == c && |elements| == |old(elements)|
      ensures forall j :: 0 <= j < |elements| ==>
        elements[j] == if active == Some(j) then old(elements)[j].(style := StyleFrom(c))
                       else old(elements)[j]
    {
      controls := c;
      UpdateActiveElementStyle();
    }
  }
}
