/**
 * What the conversion guarantees about the SVG it builds: the root set-up,
 * the skip guard, image leaves, text layout, background fills and
 * borders, and the nesting the never-restored cursor produces.
 */
module ConverterProperties {
  import opened Options
  import opened JsStrings
  import opened Dom
  import opened BackgroundImage
  import opened TextLines
  import opened SvgTree
  import opened Converter

  // ---------------------------------------------------------------------
  // Root set-up
  // ---------------------------------------------------------------------

  /**
   * A conversion from scratch starts the output with the svg root sized by
   * the node's client size, the white page background as its first child,
   * and the defs element after it.
   */
  lemma RootSetup(env: Env, node: Node)
    ensures var r := DomToSvg(env, node);
            var (w, h) := ClientSize(node);
            && |r.out| >= 3
            && r.out[0] == Emitted(Root, Svg(w, h))
            && r.out[1] == Emitted(Under(0), PageBackground(w, h))
            && r.out[2] == Emitted(Under(0), Defs)
            && r.svg == Some(0) && r.defs == Some(2)
  {
    var p := Prepare(node, Empty);
    var r := DomToSvg(env, node);
    assert Grows(p, r);
    assert p.out[..3] == r.out[..3];
  }

  /** Set-up creates nothing when the context already has an svg and a defs element. */
  lemma SetupOnlyOnce(node: Node, c: Ctx)
    requires Valid(c) && c.svg.Some? && c.defs.Some?
    ensures Prepare(node, c).out == c.out
    ensures Prepare(node, c).svg == c.svg && Prepare(node, c).defs == c.defs
  {
  }

  // ---------------------------------------------------------------------
  // Skipped elements, images, text without parent
  // ---------------------------------------------------------------------

  /**
   * A hidden element emits nothing beyond the set-up and its children are
   * never visited: the result does not depend on them.
   */
  lemma HiddenEmitsNothing(env: Env, node: Node, c: Ctx, kids: seq<Node>)
    requires Valid(c) && node.Element? && Hidden(node.style)
    ensures Convert(env, node, c) == Prepare(node, c)
    ensures Convert(env, node.(children := kids), c) == Prepare(node, c)
  {
  }

  /**
   * A visible `img` element (in any letter case) is a leaf: one picture at
   * its box, under the cursor, and its children are never visited: they
   * matter only through the rasterised image.
   */
  lemma ImageIsLeaf(env: Env, node: Node, c: Ctx, kids: seq<Node>)
    requires Valid(c) && node.Element? && !Hidden(node.style) && AsciiLower(node.tagName) == "img"
    ensures var p := Prepare(node, c);
            var r := Convert(env, node, c);
            && r.out == p.out + [Emitted(Under(p.cursor.value), Picture(node.rect, env.rasterize(node)))]
            && r.cursor == p.cursor
    ensures env.rasterize(node.(children := kids)) == env.rasterize(node) ==>
              Convert(env, node.(children := kids), c) == Convert(env, node, c)
  {
    assert Prepare(node.(children := kids), c) == Prepare(node, c);
  }

  /**
   * The main path for a visible element that is not an image: its group
   * is the first node appended, under the cursor, and becomes the cursor;
   * the painted box follows exactly when the rect has a positive width and
   * height, ending with the background rect under the group; then come
   * the children, walked from that context. A zero-size element is its
   * group alone before its children.
   */
  lemma ElementLayout(env: Env, node: Node, c: Ctx)
    requires Valid(c) && node.Element? && !Hidden(node.style) && AsciiLower(node.tagName) != "img"
    ensures var p := Prepare(node, c);
            var m := OpenElement(env, node, p);
            var r := Convert(env, node, c);
            var name := AsciiLower(node.tagName);
            var g := |p.out|;
            var group := Emitted(Under(p.cursor.value), Group(name));
            var sized := node.rect.width > 0.0 && node.rect.height > 0.0;
            && r == Walk(env, node, 0, m)
            && m.out <= r.out
            && m.out[..g + 1] == p.out + [group]
            && m.cursor == Some(g)
            && (!sized ==> m.out == p.out + [group])
            && (sized ==> m.out[|m.out| - 1] == Emitted(Under(g), Background(name, node.rect, ElementFill(env, node, p.nextUid))))
  {
    var p := Prepare(node, c);
    assert Convert(env, node, c) == VisitElement(env, node, p);
    OpenElementLayout(env, node, p);
  }

  /** The fill an element's background rect gets when the next fresh id is `uid`. */
  function ElementFill(env: Env, node: Node, uid: nat): Fill
    requires node.Element?
  {
    BackgroundFill(node.style.backgroundColor,
                   ParseBackgroundImage(node.style.backgroundImage),
                   ParseBackgroundSize(env.parseFloat, node.style.backgroundSize),
                   ParseBackgroundPosition(env.parseFloat, node.style.backgroundPosition),
                   uid)
  }

  /** The group, then the painted box for a non-empty rect, ending with the background rect. */
  lemma OpenElementLayout(env: Env, node: Node, p: Ctx)
    requires Prepared(p) && node.Element?
    ensures var m := OpenElement(env, node, p);
            var name := AsciiLower(node.tagName);
            var g := |p.out|;
            var group := Emitted(Under(p.cursor.value), Group(name));
            && m.out[..g + 1] == p.out + [group]
            && (!(node.rect.width > 0.0 && node.rect.height > 0.0) ==> m.out == p.out + [group])
            && (node.rect.width > 0.0 && node.rect.height > 0.0 ==>
                  m.out[|m.out| - 1] == Emitted(Under(g), Background(name, node.rect, ElementFill(env, node, p.nextUid))))
  {
    var name := AsciiLower(node.tagName);
    var c1 := Add(p, p.cursor.value, Group(name)).(cursor := Some(|p.out|));
    var m := OpenElement(env, node, p);
    assert m.out[..|p.out| + 1] == c1.out by {
      assert c1.out <= m.out;
    }
    if node.rect.width > 0.0 && node.rect.height > 0.0 {
      PaintEndsWithBackground(env, node, c1, |p.out|);
    }
  }

  /** Painting an element's box under its group `g` ends with the background rect. */
  lemma PaintEndsWithBackground(env: Env, node: Node, c: Ctx, g: nat)
    requires Prepared(c) && g < |c.out| && node.Element?
    ensures var r := Paint(env, node.style, node.rect, AsciiLower(node.tagName), g, c);
            r.out[|r.out| - 1] == Emitted(Under(g), Background(AsciiLower(node.tagName), node.rect, ElementFill(env, node, c.nextUid)))
  {
    PaintLayout(node.style, node.rect, AsciiLower(node.tagName), g,
                ParseBackgroundImage(node.style.backgroundImage),
                ParseBackgroundSize(env.parseFloat, node.style.backgroundSize),
                ParseBackgroundPosition(env.parseFloat, node.style.backgroundPosition), c);
  }

  /** A text node without a parent element, and a comment, emit nothing beyond the set-up. */
  lemma OrphanTextEmitsNothing(env: Env, content: string, c: Ctx)
    requires Valid(c)
    ensures Convert(env, Text(content, None), c) == Prepare(Text(content, None), c)
    ensures Convert(env, Comment(content), c) == Prepare(Comment(content), c)
  {
  }

  // ---------------------------------------------------------------------
  // Text
  // ---------------------------------------------------------------------

  /**
   * A text node with a parent becomes one text block under the cursor and
   * one span per visual line under the block; the spans' texts, joined by
   * single spaces, spell the node's text, and each span sits half a line
   * height below its line's top.
   */
  lemma TextLayout(env: Env, node: Node, c: Ctx)
    requires Valid(c) && node.Text? && node.parent.Some?
    ensures TextLaidOut(env, node, Prepare(node, c), Convert(env, node, c))
  {
    ConvertTextVisits(env, node, c);
    VisitTextLayout(env, node, Prepare(node, c));
  }

  /**
   * `r` continues `p` with the text block of `node` under `p`'s cursor and
   * one span per line under the block, each at its line's left edge and
   * half a line height below its top, the lines spelling the node's text.
   */
  predicate TextLaidOut(env: Env, node: Node, p: Ctx, r: Ctx)
    requires node.Text? && node.parent.Some? && p.cursor.Some?
  {
    var lines := GetLines(env, node);
    var lh := LineHeight(env.parseFloat, node.parent.value.style);
    && |r.out| == |p.out| + 1 + |lines|
    && r.out[..|p.out| + 1] == p.out + [Emitted(Under(p.cursor.value), TextBlockOf(node.parent.value))]
    && (forall k :: 0 <= k < |lines| ==>
          r.out[|p.out| + 1 + k] == Emitted(Under(|p.out|), Span(lines[k].text, lines[k].rect.left, SpanY(lines[k].rect.top, lh))))
    && Join(Texts(lines), ' ') == node.content
    && r.cursor == p.cursor
  }

  lemma ConvertTextVisits(env: Env, node: Node, c: Ctx)
    requires Valid(c) && node.Text?
    ensures Convert(env, node, c) == VisitText(env, node, Prepare(node, c))
  {
  }

  /** `TextLayout` from a context that is already set up. */
  lemma VisitTextLayout(env: Env, node: Node, p: Ctx)
    requires Prepared(p) && node.Text? && node.parent.Some?
    ensures TextLaidOut(env, node, p, VisitText(env, node, p))
  {
    var lines := GetLines(env, node);
    var lh := LineHeight(env.parseFloat, node.parent.value.style);
    VisitTextOut(env, node, p);
    BlockThenSpans(VisitText(env, node, p).out, p.out, Emitted(Under(p.cursor.value), TextBlockOf(node.parent.value)), lines, lh);
    GetLinesKeepsText(env, node);
  }

  /** An output that is `before`, a block, and the block's spans, laid out index by index. */
  lemma BlockThenSpans(out: seq<Emitted>, before: seq<Emitted>, block: Emitted, lines: seq<Line>, lh: Option<real>)
    requires out == before + [block] + SpanNodes(lines, lh, |before|)
    ensures |out| == |before| + 1 + |lines|
    ensures out[..|before| + 1] == before + [block]
    ensures forall k :: 0 <= k < |lines| ==>
              out[|before| + 1 + k] == Emitted(Under(|before|), Span(lines[k].text, lines[k].rect.left, SpanY(lines[k].rect.top, lh)))
  {
    SnocThenTail(before, block, SpanNodes(lines, lh, |before|));
  }

  /** What visiting a text node with a parent appends: the text block, then its spans. */
  lemma VisitTextOut(env: Env, node: Node, p: Ctx)
    requires Prepared(p) && node.Text? && node.parent.Some?
    ensures var r := VisitText(env, node, p);
            var lh := LineHeight(env.parseFloat, node.parent.value.style);
            && r.out == p.out + [Emitted(Under(p.cursor.value), TextBlockOf(node.parent.value))]
                        + SpanNodes(GetLines(env, node), lh, |p.out|)
            && r.cursor == p.cursor
  {
  }

  lemma SnocThenTail<T>(a: seq<T>, b: T, c: seq<T>)
    ensures |a + [b] + c| == |a| + 1 + |c|
    ensures (a + [b] + c)[..|a| + 1] == a + [b]
    ensures forall k :: 0 <= k < |c| ==> (a + [b] + c)[|a| + 1 + k] == c[k]
  {
  }

  /** Spans run downwards: with a known line height, their baselines strictly increase. */
  lemma SpanBaselinesIncrease(env: Env, node: Node, h: real, i: nat, j: nat)
    requires node.Text? && i < j < |GetLines(env, node)|
    ensures var lines := GetLines(env, node);
            SpanY(lines[i].rect.top, Some(h)).value < SpanY(lines[j].rect.top, Some(h)).value
  {
    GetLinesKeepsText(env, node);
  }

  // ---------------------------------------------------------------------
  // Background fill
  // ---------------------------------------------------------------------

  /**
   * The background rect's fill: the pattern exactly when image, size and
   * position all parsed; the gradient exactly when the image is a linear
   * gradient; otherwise the background colour, which is never empty.
   */
  lemma FillChoice(color: string, image: Background, size: BackgroundSize, position: BackgroundPosition, uid: nat)
    ensures var f := BackgroundFill(color, image, size, position, uid);
            && (f == Url(PatternId(uid)) <==> image.Image? && size.SizeParsed? && position.PositionParsed?)
            && (f == Url(GradientId(uid)) <==> image.LinearGradient?)
            && (f.Url? ==> f.target.uid == uid)
            && (f.Solid? ==> f.color != "" && (color != "" ==> f.color == color) && (color == "" ==> f.color == TransparentFill))
  {
  }

  /** The painted output: the defs entries, then the borders, then the background rect. */
  lemma PaintShape(style: Style, rect: Rect, name: string, g: nat, image: Background,
                   size: BackgroundSize, position: BackgroundPosition, c: Ctx)
    requires Prepared(c) && g < |c.out|
    ensures var c2 := GradientPattern(image, size, position, ImagePattern(image, size, position, c));
            var fill := BackgroundFill(style.backgroundColor, image, size, position, c.nextUid);
            PaintParsed(style, rect, name, g, image, size, position, c).out
              == c2.out + Borders(style, rect, g) + [Emitted(Under(g), Background(name, rect, fill))]
  {
  }

  /** The first entry a background image or gradient adds is the declaration its fill names. */
  lemma PatternsDeclareFill(style: Style, image: Background, size: BackgroundSize, position: BackgroundPosition, c: Ctx)
    requires Prepared(c)
    ensures var c2 := GradientPattern(image, size, position, ImagePattern(image, size, position, c));
            var fill := BackgroundFill(style.backgroundColor, image, size, position, c.nextUid);
            fill.Url? ==> && |c2.out| > |c.out|
                          && c2.out[|c.out|].parent == Under(c.defs.value)
                          && DeclaredId(c2.out[|c.out|].prim) == Some(fill.target)
  {
  }

  /**
   * Painting a box appends the defs entries first (a pattern, or a
   * gradient with its pattern), then the borders, then exactly one
   * background rect under the group, last; a `url(#…)` fill names the node
   * just declared in defs.
   */
  lemma PaintLayout(style: Style, rect: Rect, name: string, g: nat, image: Background,
                    size: BackgroundSize, position: BackgroundPosition, c: Ctx)
    requires Prepared(c) && g < |c.out|
    ensures var r := PaintParsed(style, rect, name, g, image, size, position, c);
            var fill := BackgroundFill(style.backgroundColor, image, size, position, c.nextUid);
            var borders := Borders(style, rect, g);
            && |r.out| >= |c.out| + |borders| + 1
            && r.out[|r.out| - 1] == Emitted(Under(g), Background(name, rect, fill))
            && r.out[|r.out| - 1 - |borders|..|r.out| - 1] == borders
            && (fill.Url? ==> r.out[|c.out|].parent == Under(c.defs.value)
                              && DeclaredId(r.out[|c.out|].prim) == Some(fill.target))
  {
    var c2 := GradientPattern(image, size, position, ImagePattern(image, size, position, c));
    var borders := Borders(style, rect, g);
    var fill := BackgroundFill(style.backgroundColor, image, size, position, c.nextUid);
    var r := PaintParsed(style, rect, name, g, image, size, position, c);
    PaintShape(style, rect, name, g, image, size, position, c);
    PatternsDeclareFill(style, image, size, position, c);
    assert r.out[|r.out| - 1 - |borders|..|r.out| - 1] == borders;
    if fill.Url? {
      assert r.out[|c.out|] == c2.out[|c.out|];
    }
  }

  // ---------------------------------------------------------------------
  // Borders
  // ---------------------------------------------------------------------

  /** The sides in the order their lines are emitted. */
  const AllSides: seq<Side> := [Top, Right, Bottom, Left]

  /** Reference for the border filter: the shown sides, in emission order. */
  function ShownSides(style: Style, sides: seq<Side>): seq<Side> {
    if |sides| == 0 then []
    else (if Shown(style, sides[0]) then [sides[0]] else []) + ShownSides(style, sides[1..])
  }

  lemma {:induction false} ShownSidesMembers(style: Style, sides: seq<Side>)
    ensures forall s :: s in ShownSides(style, sides) <==> s in sides && Shown(style, s)
  {
    if |sides| > 0 {
      ShownSidesMembers(style, sides[1..]);
      assert sides == [sides[0]] + sides[1..];
    }
  }

  /** Reference for the border lines: one line per side, in order. */
  function BorderNodes(style: Style, rect: Rect, g: nat, sides: seq<Side>): (r: seq<Emitted>)
    ensures |r| == |sides|
  {
    if |sides| == 0 then []
    else [Emitted(Under(g), BorderLine(style, rect, sides[0]))] + BorderNodes(style, rect, g, sides[1..])
  }

  /** Filtering then drawing one more side in front adds that side's line when it is shown. */
  lemma DrawShownCons(style: Style, rect: Rect, g: nat, side: Side, rest: seq<Side>)
    ensures BorderNodes(style, rect, g, ShownSides(style, [side] + rest))
            == BorderIf(style, rect, g, side) + BorderNodes(style, rect, g, ShownSides(style, rest))
  {
    assert ([side] + rest)[0] == side;
    assert ([side] + rest)[1..] == rest;
    if Shown(style, side) {
      var x := [side] + ShownSides(style, rest);
      assert ShownSides(style, [side] + rest) == x;
      assert x[0] == side && x[1..] == ShownSides(style, rest);
      assert BorderNodes(style, rect, g, x)
          == [Emitted(Under(g), BorderLine(style, rect, side))] + BorderNodes(style, rect, g, x[1..]);
    } else {
      assert ShownSides(style, [side] + rest) == [] + ShownSides(style, rest);
      assert [] + ShownSides(style, rest) == ShownSides(style, rest);
      assert BorderIf(style, rect, g, side) == [];
      assert [] + BorderNodes(style, rect, g, ShownSides(style, rest)) == BorderNodes(style, rect, g, ShownSides(style, rest));
    }
  }

  /**
   * The border lines are exactly one line per shown side, in top, right,
   * bottom, left order; a side is shown exactly when its colour is not
   * `transparent` and its width is not `0px`.
   */
  lemma {:induction false} BordersFollowShownSides(style: Style, rect: Rect, g: nat)
    ensures Borders(style, rect, g) == BorderNodes(style, rect, g, ShownSides(style, AllSides))
  {
    var none: seq<Side> := [];
    assert AllSides == [Top] + ([Right] + ([Bottom] + ([Left] + none)));
    DrawShownCons(style, rect, g, Left, none);
    DrawShownCons(style, rect, g, Bottom, [Left] + none);
    DrawShownCons(style, rect, g, Right, [Bottom] + ([Left] + none));
    DrawShownCons(style, rect, g, Top, [Right] + ([Bottom] + ([Left] + none)));
  }

  /** A side's line is drawn exactly when the side is shown. */
  lemma ShownSidesExactly(style: Style)
    ensures forall s :: s in ShownSides(style, AllSides) <==> Shown(style, s)
  {
    ShownSidesMembers(style, AllSides);
    forall s: Side ensures s in AllSides {
      match s
      case Top => assert AllSides[0] == s;
      case Right => assert AllSides[1] == s;
      case Bottom => assert AllSides[2] == s;
      case Left => assert AllSides[3] == s;
    }
  }

  function StartPoint(p: Prim): (real, real)
    requires p.Border?
  {
    (p.x1, p.y1)
  }

  function EndPoint(p: Prim): (real, real)
    requires p.Border?
  {
    (p.x2, p.y2)
  }

  /**
   * The four border lines trace the box clockwise from its top-left
   * corner: each line ends where the next one starts, and each line is
   * stroked with its own side's colour and width.
   */
  lemma BordersTraceOutline(style: Style, rect: Rect)
    ensures var top := BorderLine(style, rect, Top);
            var right := BorderLine(style, rect, Right);
            var bottom := BorderLine(style, rect, Bottom);
            var left := BorderLine(style, rect, Left);
            && StartPoint(top) == (rect.left, rect.top)
            && EndPoint(top) == StartPoint(right) == (rect.left + rect.width, rect.top)
            && EndPoint(right) == StartPoint(bottom) == (rect.left + rect.width, rect.top + rect.height)
            && EndPoint(bottom) == StartPoint(left) == (rect.left, rect.top + rect.height)
            && EndPoint(left) == StartPoint(top)
    ensures forall s: Side :: BorderLine(style, rect, s).side == s
              && BorderLine(style, rect, s).stroke == SideColor(style, s)
              && BorderLine(style, rect, s).strokeWidth == SideWidth(style, s)
  {
  }

  // ---------------------------------------------------------------------
  // Nesting: the cursor is never restored
  // ---------------------------------------------------------------------

  /** The index of the last group in the list, or `root` when there is none. */
  function LatestGroup(out: seq<Emitted>, root: nat): (r: nat)
    ensures r == root || (r < |out| && out[r].prim.Group?)
    ensures forall i :: r < i < |out| ==> !out[i].prim.Group?
    ensures r != root || r < |out| || forall i :: 0 <= i < |out| ==> !out[i].prim.Group?
  {
    if |out| == 0 then root
    else if out[|out| - 1].prim.Group? then |out| - 1
    else LatestGroup(out[..|out| - 1], root)
  }

  /** The nodes that are attached under the cursor. */
  predicate Anchored(p: Prim) {
    p.Group? || p.Picture? || p.TextBlock?
  }

  /** Every group, picture and text block hangs under the group emitted last before it, or under `root`. */
  predicate Nested(out: seq<Emitted>, root: nat) {
    forall i :: 0 <= i < |out| && Anchored(out[i].prim) ==> out[i].parent == Under(LatestGroup(out[..i], root))
  }

  /**
   * The invariant of a conversion from scratch: the cursor is the latest
   * group (or the svg), everything anchored is nested, and the svg and
   * defs nodes are the only ones of their kind.
   */
  predicate Tidy(c: Ctx) {
    Prepared(c) && Shaped(c.out, c.svg.value, c.defs.value, c.cursor.value)
  }

  predicate Shaped(out: seq<Emitted>, root: nat, defs: nat, cursor: nat) {
    && cursor == LatestGroup(out, root)
    && Nested(out, root)
    && (forall i :: 0 <= i < |out| && out[i].prim.Svg? ==> i == root)
    && (forall i :: 0 <= i < |out| && out[i].prim.Defs? ==> i == defs)
  }

  /** A node that is neither anchored, nor an svg, nor a defs element. */
  predicate Decor(p: Prim) {
    !Anchored(p) && !p.Svg? && !p.Defs?
  }

  /** `r` extends `c` by decoration only. */
  predicate DecorTail(c: Ctx, r: Ctx) {
    && c.out <= r.out
    && r.svg == c.svg && r.defs == c.defs && r.cursor == c.cursor
    && forall i :: |c.out| <= i < |r.out| ==> Decor(r.out[i].prim)
  }

  lemma DecorTailTransitive(a: Ctx, b: Ctx, c: Ctx)
    requires DecorTail(a, b) && DecorTail(b, c)
    ensures DecorTail(a, c)
  {
    forall i | |a.out| <= i < |b.out| ensures Decor(c.out[i].prim) {
      assert c.out[i] == b.out[i];
    }
  }

  lemma {:induction false} LatestGroupDecor(out: seq<Emitted>, root: nat, n: nat)
    requires n <= |out|
    requires forall i :: n <= i < |out| ==> !out[i].prim.Group?
    ensures LatestGroup(out, root) == LatestGroup(out[..n], root)
  {
    if |out| > n {
      assert out[..|out| - 1][..n] == out[..n];
      LatestGroupDecor(out[..|out| - 1], root, n);
    } else {
      assert out[..n] == out;
    }
  }

  lemma {:induction false} DecorShaped(out: seq<Emitted>, root: nat, defs: nat, cursor: nat, items: seq<Emitted>)
    requires Shaped(out, root, defs, cursor)
    requires forall k :: 0 <= k < |items| ==> Decor(items[k].prim)
    ensures Shaped(out + items, root, defs, cursor)
  {
    var o := out + items;
    assert o[..|out|] == out;
    forall i | |out| <= i < |o| ensures Decor(o[i].prim) {
      assert o[i] == items[i - |out|];
    }
    DecorTailShaped(out, o, root, defs, cursor);
  }

  lemma {:induction false} DecorTailShaped(out: seq<Emitted>, o: seq<Emitted>, root: nat, defs: nat, cursor: nat)
    requires Shaped(out, root, defs, cursor) && out <= o
    requires forall i :: |out| <= i < |o| ==> Decor(o[i].prim)
    ensures Shaped(o, root, defs, cursor)
  {
    assert o[..|out|] == out;
    LatestGroupDecor(o, root, |out|);
    forall i | 0 <= i < |o| && Anchored(o[i].prim)
      ensures o[i].parent == Under(LatestGroup(o[..i], root))
    {
      assert o[..i] == out[..i];
    }
  }

  lemma {:induction false} DecorKeepsTidy(c: Ctx, r: Ctx)
    requires Tidy(c) && Prepared(r) && DecorTail(c, r)
    ensures Tidy(r)
  {
    DecorTailShaped(c.out, r.out, c.svg.value, c.defs.value, c.cursor.value);
  }

  lemma {:induction false} AppendNested(out: seq<Emitted>, root: nat, e: Emitted)
    requires Nested(out, root)
    requires Anchored(e.prim) ==> e.parent == Under(LatestGroup(out, root))
    ensures Nested(out + [e], root)
  {
    var o := out + [e];
    forall i | 0 <= i < |o| && Anchored(o[i].prim)
      ensures o[i].parent == Under(LatestGroup(o[..i], root))
    {
      if i < |out| {
        assert o[..i] == out[..i];
      } else {
        assert o[..i] == out;
      }
    }
  }

  lemma {:induction false} AnchorShaped(out: seq<Emitted>, root: nat, defs: nat, cursor: nat, p: Prim)
    requires Shaped(out, root, defs, cursor) && Anchored(p)
    ensures Shaped(out + [Emitted(Under(cursor), p)], root, defs, if p.Group? then |out| else cursor)
  {
    var e := Emitted(Under(cursor), p);
    AppendNested(out, root, e);
    if !p.Group? {
      assert (out + [e])[..|out|] == out;
      LatestGroupDecor(out + [e], root, |out|);
    }
  }

  /** Appending one anchored node under the cursor keeps the invariant; a group becomes the cursor. */
  lemma {:induction false} AnchorKeepsTidy(c: Ctx, r: Ctx, p: Prim)
    requires Tidy(c) && Prepared(r) && Anchored(p)
    requires r.out == c.out + [Emitted(Under(c.cursor.value), p)]
    requires r.svg == c.svg && r.defs == c.defs
    requires r.cursor == if p.Group? then Some(|c.out|) else c.cursor
    ensures Tidy(r)
  {
    AnchorShaped(c.out, c.svg.value, c.defs.value, c.cursor.value, p);
  }

  lemma ImagePatternDecor(image: Background, size: BackgroundSize, position: BackgroundPosition, c: Ctx)
    requires Prepared(c)
    ensures DecorTail(c, ImagePattern(image, size, position, c))
  {
  }

  lemma GradientPatternDecor(image: Background, size: BackgroundSize, position: BackgroundPosition, c: Ctx)
    requires Prepared(c)
    ensures DecorTail(c, GradientPattern(image, size, position, c))
  {
    if image.LinearGradient? {
      var r := GradientPattern(image, size, position, c);
      forall i | |c.out| <= i < |r.out| ensures Decor(r.out[i].prim) {
        var k := i - |c.out|;
        assert r.out[i] == GradientItems(|c.out|, c.defs.value, c.nextUid, image.gradient.stops,
                                         if size.SizeParsed? then size.width else 1.0,
                                         if size.SizeParsed? then size.height else 1.0,
                                         if size.SizeParsed? then UserSpaceOnUse else ObjectBoundingBox,
                                         if position.PositionParsed? then position.left else 0.0,
                                         if position.PositionParsed? then position.top else 0.0)[k];
      }
    }
  }

  lemma PaintDecor(env: Env, style: Style, rect: Rect, name: string, g: nat, c: Ctx)
    requires Prepared(c) && g < |c.out|
    ensures DecorTail(c, Paint(env, style, rect, name, g, c))
  {
    var image := ParseBackgroundImage(style.backgroundImage);
    var size := ParseBackgroundSize(env.parseFloat, style.backgroundSize);
    var position := ParseBackgroundPosition(env.parseFloat, style.backgroundPosition);
    var c1 := ImagePattern(image, size, position, c);
    var c2 := GradientPattern(image, size, position, c1);
    ImagePatternDecor(image, size, position, c);
    GradientPatternDecor(image, size, position, c1);
    DecorTailTransitive(c, c1, c2);
    var r := Paint(env, style, rect, name, g, c);
    var borders := Borders(style, rect, g);
    var fill := BackgroundFill(style.backgroundColor, image, size, position, c.nextUid);
    assert r.out == c2.out + borders + [Emitted(Under(g), Background(name, rect, fill))];
    assert DecorTail(c2, r);
    DecorTailTransitive(c, c2, r);
  }

  lemma {:induction false} ConvertTidy(env: Env, node: Node, c: Ctx)
    requires Tidy(c)
    ensures Tidy(Convert(env, node, c))
    decreases node, 2
  {
    assert Prepare(node, c) == c;
    match node
    case Element(_, _, _, _, _, _, _, _) => VisitElementTidy(env, node, c);
    case Text(_, _) => VisitTextTidy(env, node, c);
    case Comment(_) =>
  }

  lemma {:induction false} VisitElementTidy(env: Env, node: Node, c: Ctx)
    requires node.Element? && Tidy(c)
    ensures Tidy(VisitElement(env, node, c))
    decreases node, 1
  {
    if !Hidden(node.style) {
      var name := AsciiLower(node.tagName);
      if name == "img" {
        AnchorKeepsTidy(c, VisitElement(env, node, c), Picture(node.rect, env.rasterize(node)));
      } else {
        var g := |c.out|;
        var c1 := Add(c, c.cursor.value, Group(name)).(cursor := Some(g));
        AnchorKeepsTidy(c, c1, Group(name));
        if node.rect.width > 0.0 && node.rect.height > 0.0 {
          PaintDecor(env, node.style, node.rect, name, g, c1);
          DecorKeepsTidy(c1, Paint(env, node.style, node.rect, name, g, c1));
        }
        WalkTidy(env, node, 0, OpenElement(env, node, c));
      }
    }
  }

  lemma {:induction false} WalkTidy(env: Env, node: Node, i: nat, c: Ctx)
    requires node.Element? && i <= |node.children| && Tidy(c)
    ensures Tidy(Walk(env, node, i, c))
    decreases node, 0, |node.children| - i
  {
    if i < |node.children| {
      ConvertTidy(env, node.children[i], c);
      WalkTidy(env, node, i + 1, Convert(env, node.children[i], c));
    }
  }

  lemma {:induction false} TextShaped(out: seq<Emitted>, root: nat, defs: nat, cursor: nat, b: Prim, spans: seq<Emitted>)
    requires Shaped(out, root, defs, cursor) && b.TextBlock?
    requires forall k :: 0 <= k < |spans| ==> Decor(spans[k].prim)
    ensures Shaped(out + [Emitted(Under(cursor), b)] + spans, root, defs, cursor)
  {
    AnchorShaped(out, root, defs, cursor, b);
    DecorShaped(out + [Emitted(Under(cursor), b)], root, defs, cursor, spans);
  }

  lemma {:induction false} TextBlockTidy(c: Ctx, p: ParentView, lines: seq<Line>, lh: Option<real>)
    requires Tidy(c)
    ensures Tidy(AddAll(Add(c, c.cursor.value, TextBlockOf(p)), SpanNodes(lines, lh, |c.out|)))
  {
    var spans := SpanNodes(lines, lh, |c.out|);
    var r := AddAll(Add(c, c.cursor.value, TextBlockOf(p)), spans);
    SpansDecor(lines, lh, |c.out|);
    TextShaped(c.out, c.svg.value, c.defs.value, c.cursor.value, TextBlockOf(p), spans);
    assert r.out == c.out + [Emitted(Under(c.cursor.value), TextBlockOf(p))] + spans;
  }

  lemma SpansDecor(lines: seq<Line>, lh: Option<real>, b: nat)
    ensures forall k :: 0 <= k < |lines| ==> Decor(SpanNodes(lines, lh, b)[k].prim)
  {
  }

  lemma {:induction false} VisitTextTidy(env: Env, node: Node, c: Ctx)
    requires node.Text? && Tidy(c)
    ensures Tidy(VisitText(env, node, c))
  {
    if node.parent.Some? {
      TextBlockTidy(c, node.parent.value, GetLines(env, node), LineHeight(env.parseFloat, node.parent.value.style));
    }
  }

  /**
   * The nesting the conversion produces: every group, picture and text
   * block hangs under the group emitted most recently before it (the svg
   * when there is none), because the cursor moves to each new group and is
   * never moved back. The svg and defs nodes are created once.
   */
  lemma CursorNeverRestored(env: Env, node: Node)
    ensures var r := DomToSvg(env, node);
            && Nested(r.out, 0)
            && r.cursor == Some(LatestGroup(r.out, 0))
            && (forall i :: 0 <= i < |r.out| && r.out[i].prim.Svg? ==> i == 0)
            && (forall i :: 0 <= i < |r.out| && r.out[i].prim.Defs? ==> i == 2)
  {
    RootSetup(env, node);
    var p := Prepare(node, Empty);
    assert |p.out| == 3 && p.svg == Some(0) && p.defs == Some(2) && p.cursor == Some(0);
    assert LatestGroup(p.out, 0) == 0;
    assert Tidy(p);
    match node
    case Element(_, _, _, _, _, _, _, _) => VisitElementTidy(env, node, p);
    case Text(_, _) => VisitTextTidy(env, node, p);
    case Comment(_) =>
  }

  /**
   * The smallest instance of the nesting: two visible, childless,
   * zero-size sibling elements. The second one's group hangs under the
   * first one's group, not under their common parent.
   */
  lemma SiblingNestsInPrevious(env: Env, a: Node, b: Node, c: Ctx)
    requires Prepared(c)
    requires a.Element? && !Hidden(a.style) && AsciiLower(a.tagName) != "img" && a.rect.width == 0.0 && a.children == []
    requires b.Element? && !Hidden(b.style) && AsciiLower(b.tagName) != "img" && b.rect.width == 0.0 && b.children == []
    ensures Convert(env, b, Convert(env, a, c)).out ==
              c.out + [Emitted(Under(c.cursor.value), Group(AsciiLower(a.tagName))),
                       Emitted(Under(|c.out|), Group(AsciiLower(b.tagName)))]
  {
    var ga := Add(c, c.cursor.value, Group(AsciiLower(a.tagName))).(cursor := Some(|c.out|));
    assert Prepare(a, c) == c;
    assert Walk(env, a, 0, ga) == ga;
    assert Convert(env, a, c) == ga;
    var gb := Add(ga, |c.out|, Group(AsciiLower(b.tagName))).(cursor := Some(|ga.out|));
    assert Prepare(b, ga) == ga;
    assert Walk(env, b, 0, gb) == gb;
    assert Convert(env, b, ga) == gb;
  }
}
