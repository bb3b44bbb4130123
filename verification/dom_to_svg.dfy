/**
 * `domToSvg` of src/dom-to-svg.ts: a depth-first walk over the input tree
 * that threads a context (the svg root, the defs element, the cursor the
 * next node is appended under, the output built so far and the next fresh
 * id) and appends SVG nodes for every visible element and text node.
 *
 * The cursor is set to each new group and never restored, so a group
 * becomes the parent of everything emitted after it until the next group:
 * later siblings nest inside the subtree of the element before them.
 */
module Converter {
  import opened Options
  import opened JsStrings
  import opened Dom
  import opened BackgroundImage
  import opened TextLines
  import opened SvgTree

  /** The conversion context, threaded through every call. */
  datatype Ctx = Ctx(
    svg: Option<nat>,
    defs: Option<nat>,
    cursor: Option<nat>,
    out: seq<Emitted>,
    nextUid: nat)

  /** The context a conversion starts from: nothing created yet. */
  const Empty: Ctx := Ctx(None, None, None, [], 0)

  /**
   * The context is well formed: the output is (parents first, generated
   * ids below the counter, unique and resolved), the svg and defs handles
   * point at an svg and a defs node, and the cursor at an emitted node.
   */
  predicate Valid(c: Ctx) {
    && WellFormed(c.out, c.nextUid)
    && (c.svg.Some? ==> c.svg.value < |c.out| && c.out[c.svg.value].prim.Svg?)
    && (c.defs.Some? ==> c.defs.value < |c.out| && c.out[c.defs.value].prim.Defs?)
    && (c.cursor.Some? ==> c.cursor.value < |c.out|)
  }

  /** Ready to emit: svg, defs and cursor exist. */
  predicate Prepared(c: Ctx) {
    Valid(c) && c.svg.Some? && c.defs.Some? && c.cursor.Some?
  }

  /**
   * `r` continues `c`: the output only grows, ids stay fresh, and an svg or
   * defs that existed is kept.
   */
  predicate Grows(c: Ctx, r: Ctx) {
    && c.out <= r.out
    && c.nextUid <= r.nextUid
    && (c.svg.Some? ==> r.svg == c.svg)
    && (c.defs.Some? ==> r.defs == c.defs)
  }

  lemma GrowsTransitive(a: Ctx, b: Ctx, c: Ctx)
    requires Grows(a, b) && Grows(b, c)
    ensures Grows(a, c)
  {
  }

  /** Appending a node that keeps the output well formed keeps the context ready and grows it. */
  lemma AppendKeepsPrepared(c: Ctx, item: Emitted)
    requires Prepared(c) && WellFormed(c.out + [item], c.nextUid)
    ensures Prepared(c.(out := c.out + [item])) && Grows(c, c.(out := c.out + [item]))
  {
    var o := c.out + [item];
    assert o[c.svg.value] == c.out[c.svg.value];
    assert o[c.defs.value] == c.out[c.defs.value];
  }

  /** Append `prim`, which neither declares nor uses an id, under the existing node `p`. */
  function Add(c: Ctx, p: nat, prim: Prim): (r: Ctx)
    requires Valid(c) && p < |c.out| && RefsOf(prim) == {}
    ensures Valid(r) && Grows(c, r) && r.out == c.out + [Emitted(Under(p), prim)]
    ensures r.svg == c.svg && r.defs == c.defs && r.cursor == c.cursor && r.nextUid == c.nextUid
  {
    AddAll(c, [Emitted(Under(p), prim)])
  }

  // ---------------------------------------------------------------------
  // Root setup
  // ---------------------------------------------------------------------

  /**
   * The size the svg root takes from the node it is created for: the
   * element's client size; a text node has none (`String(undefined)`).
   */
  function ClientSize(node: Node): (Option<real>, Option<real>) {
    if node.Element? then (Some(node.clientWidth), Some(node.clientHeight)) else (None, None)
  }

  /**
   * The svg root, sized by `node` and hanging at the top, with the white
   * page background of the same size as its first child.
   */
  function CreateSvg(node: Node, c: Ctx): (r: Ctx)
    requires Valid(c) && c.svg.None?
    ensures Valid(r) && Grows(c, r) && r.svg == Some(|c.out|)
    ensures r.defs == c.defs && r.cursor == c.cursor && r.nextUid == c.nextUid
    ensures |r.out| == |c.out| + 2
    ensures r.out[|c.out|] == Emitted(Root, Svg(ClientSize(node).0, ClientSize(node).1))
    ensures r.out[|c.out| + 1] == Emitted(Under(|c.out|), PageBackground(ClientSize(node).0, ClientSize(node).1))
    ensures node.Element? ==> ClientSize(node) == (Some(node.clientWidth), Some(node.clientHeight))
  {
    var s := |c.out|;
    var (w, h) := ClientSize(node);
    var items := [Emitted(Root, Svg(w, h)), Emitted(Under(s), PageBackground(w, h))];
    AppendWellFormed(c.out, c.nextUid, items, c.nextUid);
    c.(svg := Some(s), out := c.out + items)
  }

  /** The defs element, appended under the svg. */
  function CreateDefs(c: Ctx): (r: Ctx)
    requires Valid(c) && c.svg.Some? && c.defs.None?
    ensures Valid(r) && Grows(c, r) && r.defs == Some(|c.out|)
    ensures r.svg == c.svg && r.cursor == c.cursor && r.nextUid == c.nextUid
    ensures r.out == c.out + [Emitted(Under(c.svg.value), Defs)]
  {
    var items := [Emitted(Under(c.svg.value), Defs)];
    AppendWellFormed(c.out, c.nextUid, items, c.nextUid);
    c.(defs := Some(|c.out|), out := c.out + items)
  }

  /**
   * The set-up at the top of every call: an svg root with its white page
   * background when the context has none, then a defs element under the
   * svg when the context has none, and the cursor defaults to the svg.
   */
  function Prepare(node: Node, c: Ctx): (r: Ctx)
    requires Valid(c)
    ensures Prepared(r) && Grows(c, r) && r.nextUid == c.nextUid
    ensures Prepared(c) ==> r == c
  {
    var c1 := if c.svg.Some? then c else CreateSvg(node, c);
    var c2 := if c1.defs.Some? then c1 else CreateDefs(c1);
    c2.(cursor := if c2.cursor.Some? then c2.cursor else c2.svg)
  }

  // ---------------------------------------------------------------------
  // Traversal
  // ---------------------------------------------------------------------

  /** The skip guard: display `none`, opacity `0`, or a visibility declaration of priority `hidden`. */
  predicate Hidden(style: Style) {
    style.display == "none" || style.opacity == "0" || style.visibilityPriority == "hidden"
  }

  /** `domToSvg(node, context)`: the context after converting `node`. */
  function Convert(env: Env, node: Node, c: Ctx): (r: Ctx)
    requires Valid(c)
    ensures Prepared(r) && Grows(c, r)
    decreases node, 2
  {
    var c1 := Prepare(node, c);
    match node
    case Element(_, _, _, _, _, _, _, _) => VisitElement(env, node, c1)
    case Text(_, _) => VisitText(env, node, c1)
    case Comment(_) => c1
  }

  /** The element case, after set-up. */
  function VisitElement(env: Env, node: Node, c: Ctx): (r: Ctx)
    requires node.Element? && Prepared(c)
    ensures Prepared(r) && Grows(c, r)
    decreases node, 1
  {
    if Hidden(node.style) then c
    else
      var name := AsciiLower(node.tagName);
      if name == "img" then Add(c, c.cursor.value, Picture(node.rect, env.rasterize(node)))
      else Walk(env, node, 0, OpenElement(env, node, c))
  }

  /**
   * What a visible element that is not an image emits before its children:
   * a group named by the lower-cased tag under the cursor, which becomes
   * the cursor, then the painted box when the element has a non-empty
   * rect, and nothing else.
   */
  function OpenElement(env: Env, node: Node, c: Ctx): (r: Ctx)
    requires node.Element? && Prepared(c)
    ensures Prepared(r) && Grows(c, r) && r.cursor == Some(|c.out|)
    ensures |r.out| > |c.out| && r.out[|c.out|] == Emitted(Under(c.cursor.value), Group(AsciiLower(node.tagName)))
    ensures |r.out| > |c.out| + 1 <==> node.rect.width > 0.0 && node.rect.height > 0.0
  {
    var name := AsciiLower(node.tagName);
    var g := |c.out|;
    var c1 := Add(c, c.cursor.value, Group(name)).(cursor := Some(g));
    if node.rect.width > 0.0 && node.rect.height > 0.0 then Paint(env, node.style, node.rect, name, g, c1) else c1
  }

  /** `walk`: convert the children from the `i`-th on, in order, with the one shared context. */
  function Walk(env: Env, node: Node, i: nat, c: Ctx): (r: Ctx)
    requires node.Element? && i <= |node.children| && Prepared(c)
    ensures Prepared(r) && Grows(c, r)
    decreases node, 0, |node.children| - i
  {
    if i == |node.children| then c
    else Walk(env, node, i + 1, Convert(env, node.children[i], c))
  }

  // ---------------------------------------------------------------------
  // Painting an element's box
  // ---------------------------------------------------------------------

  /** `styles.backgroundColor || "rgba(0, 0, 0, 0)"`. */
  function BaseColor(backgroundColor: string): string {
    if backgroundColor == "" then TransparentFill else backgroundColor
  }

  /**
   * The fill of the background rect when the next fresh id is `uid`: the
   * pattern when image, size and position all parsed, the gradient (not
   * its pattern) for a linear gradient, the colour otherwise.
   */
  function BackgroundFill(color: string, image: Background, size: BackgroundSize,
                          position: BackgroundPosition, uid: nat): Fill
  {
    if image.LinearGradient? then Url(GradientId(uid))
    else if image.Image? && size.SizeParsed? && position.PositionParsed? then Url(PatternId(uid))
    else Solid(BaseColor(color))
  }

  /**
   * The box of an element with a visible rect, under its group `g`: the
   * defs entries for a background image or gradient, the borders, then the
   * background rect.
   */
  function Paint(env: Env, style: Style, rect: Rect, name: string, g: nat, c: Ctx): (r: Ctx)
    requires Prepared(c) && g < |c.out|
    ensures Prepared(r) && Grows(c, r) && r.cursor == c.cursor && |r.out| > |c.out|
  {
    var image := ParseBackgroundImage(style.backgroundImage);
    var size := ParseBackgroundSize(env.parseFloat, style.backgroundSize);
    var position := ParseBackgroundPosition(env.parseFloat, style.backgroundPosition);
    PaintParsed(style, rect, name, g, image, size, position, c)
  }

  /** `Paint` once the three background properties are parsed. */
  function PaintParsed(style: Style, rect: Rect, name: string, g: nat, image: Background,
                       size: BackgroundSize, position: BackgroundPosition, c: Ctx): (r: Ctx)
    requires Prepared(c) && g < |c.out|
    ensures Prepared(r) && Grows(c, r) && r.cursor == c.cursor && |r.out| > |c.out|
  {
    var fill := BackgroundFill(style.backgroundColor, image, size, position, c.nextUid);
    var c1 := ImagePattern(image, size, position, c);
    var c2 := GradientPattern(image, size, position, c1);
    var c3 := AddAll(c2, Borders(style, rect, g));
    var item := Emitted(Under(g), Background(name, rect, fill));
    assert fill.Url? ==> |c2.out| > |c.out| && DeclaredId(c2.out[|c.out|].prim) == UsedId(item.prim);
    assert fill.Url? ==> c3.out[|c.out|] == c2.out[|c.out|];
    AppendUser(c3.out, c3.nextUid, item, |c.out|);
    AppendKeepsPrepared(c3, item);
    GrowsTransitive(c, c1, c2);
    GrowsTransitive(c, c2, c3);
    GrowsTransitive(c, c3, c3.(out := c3.out + [item]));
    c3.(out := c3.out + [item])
  }

  /** Append nodes that hang under existing nodes and carry no ids. */
  function AddAll(c: Ctx, items: seq<Emitted>): (r: Ctx)
    requires Valid(c)
    requires forall k :: 0 <= k < |items| ==>
               items[k].parent.Under? && items[k].parent.index < |c.out| && RefsOf(items[k].prim) == {}
    ensures Valid(r) && Grows(c, r) && r.out == c.out + items
    ensures r.svg == c.svg && r.defs == c.defs && r.cursor == c.cursor && r.nextUid == c.nextUid
  {
    AppendPlain(c.out, c.nextUid, items);
    c.(out := c.out + items)
  }

  /**
   * An image background is a `userSpaceOnUse` pattern in defs holding the
   * image at the parsed size and position; it needs all three to parse.
   */
  function ImagePattern(image: Background, size: BackgroundSize, position: BackgroundPosition, c: Ctx): (r: Ctx)
    requires Prepared(c)
    ensures Prepared(r) && Grows(c, r) && r.cursor == c.cursor
    ensures r.nextUid == if image.Image? && size.SizeParsed? && position.PositionParsed? then c.nextUid + 1 else c.nextUid
    ensures image.Image? && size.SizeParsed? && position.PositionParsed? ==>
              |r.out| > |c.out| && DeclaredId(r.out[|c.out|].prim) == Some(PatternId(c.nextUid))
    ensures !(image.Image? && size.SizeParsed? && position.PositionParsed?) ==> r == c
  {
    if image.Image? && size.SizeParsed? && position.PositionParsed? then
      var uid := c.nextUid;
      var p := |c.out|;
      var items := [
           Emitted(Under(c.defs.value), Pattern(PatternId(uid), size.width, size.height, UserSpaceOnUse)),
           Emitted(Under(p), PatternImage(size.width, size.height, position.left, position.top, image.value))];
      AppendWellFormed(c.out, c.nextUid, items, uid + 1);
      c.(out := c.out + items, nextUid := uid + 1)
    else c
  }

  /** Offset, in percent, of stop `i` of `n`. */
  function StopOffset(n: nat, i: nat): real
    requires n > 0
  {
    (100.0 / n as real) * i as real
  }

  /**
   * Stop offsets spread evenly from 0 percent: stop `i` of `n` sits at
   * `(100 / n) * i`, so they strictly increase and stay below 100.
   */
  lemma StopOffsetsSpread(n: nat, i: nat, j: nat)
    requires n > 0 && i < j < n
    ensures StopOffset(n, 0) == 0.0
    ensures 0.0 <= StopOffset(n, i) < StopOffset(n, j) < 100.0
    ensures StopOffset(n, i + 1) - StopOffset(n, i) == 100.0 / n as real
  {
    var step := 100.0 / n as real;
    assert step > 0.0;
    assert StopOffset(n, j) - StopOffset(n, i) == step * (j - i) as real;
    assert StopOffset(n, j) <= step * (n - 1) as real;
    assert step * n as real == 100.0;
  }

  /**
   * The stop elements of a gradient, under the gradient node `gi`: one per
   * colour, in order, the first at offset 0 and the offsets strictly
   * increasing and below 100 percent.
   */
  function StopNodes(stops: seq<string>, gi: nat): (r: seq<Emitted>)
    ensures |r| == |stops|
    ensures forall i :: 0 <= i < |r| ==> r[i].parent == Under(gi) && r[i].prim.Stop? && r[i].prim.color == stops[i]
    ensures |r| > 0 ==> r[0].prim.offset == 0.0
    ensures forall i, j :: 0 <= i < j < |r| ==> 0.0 <= r[i].prim.offset < r[j].prim.offset < 100.0
  {
    var r := seq(|stops|, i requires 0 <= i < |stops| => Emitted(Under(gi), Stop(stops[i], StopOffset(|stops|, i))));
    forall i, j | 0 <= i < j < |r|
      ensures 0.0 <= r[i].prim.offset < r[j].prim.offset < 100.0
    {
      StopOffsetsSpread(|stops|, i, j);
    }
    r
  }

  /**
   * A linear gradient background: a gradient in defs with one stop per
   * colour, then a pattern whose single tile is filled with the gradient.
   * Without a parsed size the pattern is the unit `objectBoundingBox`
   * square; without a parsed position the tile sits at the origin.
   */
  function GradientPattern(image: Background, size: BackgroundSize, position: BackgroundPosition, c: Ctx): (r: Ctx)
    requires Prepared(c)
    ensures Prepared(r) && Grows(c, r) && r.cursor == c.cursor
    ensures r.nextUid == if image.LinearGradient? then c.nextUid + 1 else c.nextUid
    ensures image.LinearGradient? ==>
              |r.out| > |c.out| && DeclaredId(r.out[|c.out|].prim) == Some(GradientId(c.nextUid))
    ensures !image.LinearGradient? ==> r == c
  {
    if image.LinearGradient? then
      var uid := c.nextUid;
      var d := c.defs.value;
      var gi := |c.out|;
      var w := if size.SizeParsed? then size.width else 1.0;
      var h := if size.SizeParsed? then size.height else 1.0;
      var units := if size.SizeParsed? then UserSpaceOnUse else ObjectBoundingBox;
      var x := if position.PositionParsed? then position.left else 0.0;
      var y := if position.PositionParsed? then position.top else 0.0;
      var items := GradientItems(gi, d, uid, image.gradient.stops, w, h, units, x, y);
      GradientItemsAppendable(c.out, d, uid, image.gradient.stops, w, h, units, x, y);
      AppendWellFormed(c.out, c.nextUid, items, uid + 1);
      c.(out := c.out + items, nextUid := uid + 1)
    else c
  }

  /**
   * The defs entries of a gradient background: the gradient, its stops
   * under it (the gradient is node `gi`), the pattern, and the tile inside
   * the pattern.
   */
  function GradientItems(gi: nat, d: nat, uid: nat, colors: seq<string>,
                         w: real, h: real, units: Units, x: real, y: real): (items: seq<Emitted>)
    ensures |items| == |colors| + 3
    ensures items[0] == Emitted(Under(d), GradientDef(GradientId(uid)))
    ensures forall k :: 1 <= k <= |colors| ==>
              items[k] == Emitted(Under(gi), Stop(colors[k - 1], StopOffset(|colors|, k - 1)))
    ensures items[|colors| + 1] == Emitted(Under(d), Pattern(PatternId(uid), w, h, units))
    ensures items[|colors| + 2] == Emitted(Under(gi + 1 + |colors|), Tile(w, h, x, y, GradientId(uid)))
  {
    [Emitted(Under(d), GradientDef(GradientId(uid)))] + StopNodes(colors, gi)
    + [Emitted(Under(d), Pattern(PatternId(uid), w, h, units)),
       Emitted(Under(gi + 1 + |colors|), Tile(w, h, x, y, GradientId(uid)))]
  }

  lemma GradientItemsAppendable(out: seq<Emitted>, d: nat, uid: nat, colors: seq<string>,
                                w: real, h: real, units: Units, x: real, y: real)
    requires d < |out|
    requires forall i :: 0 <= i < |out| ==> forall r :: r in RefsOf(out[i].prim) ==> r.uid < uid
    ensures Appendable(out, uid, GradientItems(|out|, d, uid, colors, w, h, units, x, y), uid + 1)
  {
    var items := GradientItems(|out|, d, uid, colors, w, h, units, x, y);
    var n := |colors|;
    assert (out + items)[|out|] == items[0];
    forall k | 0 <= k < |items|
      ensures items[k].parent.Under? && items[k].parent.index < |out| + k
      ensures forall r :: r in RefsOf(items[k].prim) ==> r.uid == uid
    {
    }
    forall k | 0 <= k < |items| && UsedId(items[k].prim).Some?
      ensures exists j :: 0 <= j < |out| + k && DeclaredId((out + items)[j].prim) == UsedId(items[k].prim)
    {
      assert k == n + 2;
    }
    forall k1, k2 | 0 <= k1 < k2 < |items| && DeclaredId(items[k1].prim).Some?
      ensures DeclaredId(items[k1].prim) != DeclaredId(items[k2].prim)
    {
      if 1 <= k2 <= n {
      }
    }
  }

  /** The colour and width a border side reads from the style. */
  function SideColor(style: Style, side: Side): string {
    match side
    case Top => style.borderTopColor
    case Right => style.borderRightColor
    case Bottom => style.borderBottomColor
    case Left => style.borderLeftColor
  }

  function SideWidth(style: Style, side: Side): string {
    match side
    case Top => style.borderTopWidth
    case Right => style.borderRightWidth
    case Bottom => style.borderBottomWidth
    case Left => style.borderLeftWidth
  }

  /** A side is drawn unless its colour is `transparent` or its width is `0px`. */
  predicate Shown(style: Style, side: Side) {
    SideColor(style, side) != "transparent" && SideWidth(style, side) != "0px"
  }

  /** The line drawn for one side, with the endpoints the source gives it. */
  function BorderLine(style: Style, rect: Rect, side: Side): Prim {
    var right := rect.left + rect.width;
    var bottom := rect.top + rect.height;
    var stroke := SideColor(style, side);
    var width := SideWidth(style, side);
    match side
    case Top => Border(Top, stroke, width, rect.left, right, rect.top, rect.top)
    case Right => Border(Right, stroke, width, right, right, rect.top, bottom)
    case Bottom => Border(Bottom, stroke, width, right, rect.left, bottom, bottom)
    case Left => Border(Left, stroke, width, rect.left, rect.left, bottom, rect.top)
  }

  function BorderIf(style: Style, rect: Rect, g: nat, side: Side): seq<Emitted> {
    if Shown(style, side) then [Emitted(Under(g), BorderLine(style, rect, side))] else []
  }

  /** The border lines under group `g`: top, right, bottom, left, each when shown. */
  function Borders(style: Style, rect: Rect, g: nat): (r: seq<Emitted>)
    ensures forall k :: 0 <= k < |r| ==> r[k].parent == Under(g) && r[k].prim.Border?
  {
    BorderIf(style, rect, g, Top) + BorderIf(style, rect, g, Right)
    + BorderIf(style, rect, g, Bottom) + BorderIf(style, rect, g, Left)
  }

  // ---------------------------------------------------------------------
  // Text
  // ---------------------------------------------------------------------

  /** The `y` of a line's span: half the line height below the line's top; NaN stays NaN. */
  function SpanY(top: real, lineHeight: Option<real>): Option<real> {
    match lineHeight
    case Some(h) => Some(top + h / 2.0)
    case None => None
  }

  /**
   * One span per line, in line order, under the text block `b`, with the
   * line's text and left edge. The baseline is NaN exactly when the line
   * height is, and a lower line gets a lower baseline.
   */
  function SpanNodes(lines: seq<Line>, lineHeight: Option<real>, b: nat): (r: seq<Emitted>)
    ensures |r| == |lines|
    ensures forall i :: 0 <= i < |r| ==>
              && r[i].parent == Under(b) && r[i].prim.Span?
              && r[i].prim.text == lines[i].text && r[i].prim.left == lines[i].rect.left
              && (r[i].prim.baseline.Some? <==> lineHeight.Some?)
    ensures forall i, j :: 0 <= i < |r| && 0 <= j < |r| && lines[i].rect.top < lines[j].rect.top && lineHeight.Some? ==>
              r[i].prim.baseline.value < r[j].prim.baseline.value
  {
    seq(|lines|, i requires 0 <= i < |lines| =>
      Emitted(Under(b), Span(lines[i].text, lines[i].rect.left, SpanY(lines[i].rect.top, lineHeight))))
  }

  /** The text block of a text node, drawn at its parent's offset in its parent's font and colour. */
  function TextBlockOf(p: ParentView): Prim {
    TextBlock(p.offsetLeft, p.offsetTop, p.style.color, p.style.fontFamily, p.style.fontSize, p.style.fontWeight)
  }

  /** The text case: a text block under the cursor with one span per visual line; nothing without a parent. */
  function VisitText(env: Env, node: Node, c: Ctx): (r: Ctx)
    requires node.Text? && Prepared(c)
    ensures Prepared(r) && Grows(c, r)
  {
    match node.parent
    case None => c
    case Some(p) =>
      var c1 := Add(c, c.cursor.value, TextBlockOf(p));
      AddAll(c1, SpanNodes(GetLines(env, node), LineHeight(env.parseFloat, p.style), |c.out|))
  }

  /** The public entry point: convert `node` from an empty context; the svg is the first node emitted. */
  function DomToSvg(env: Env, node: Node): (r: Ctx)
    ensures Prepared(r) && r.svg == Some(0)
  {
    Convert(env, node, Empty)
  }
}
