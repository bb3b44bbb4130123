/**
 * The SVG document the converter builds, as a flat list of emitted nodes.
 * A node is identified by its position in the list and names its parent by
 * position, so appending a child under a node never rewrites the list.
 * Sibling order is list order.
 */
module SvgTree {
  import opened Options
  import opened Dom

  /**
   * The generated ids. `uuidv4` is modelled as a counter, so `uid` stands
   * for the random part; the prefixes are kept as the source writes them.
   */
  datatype Ref =
    | PatternId(uid: nat)     // `background-image-<uuid>`
    | GradientId(uid: nat)    // `linear-graident-<uuid>`

  const PatternIdPrefix: string := "background-image-"
  const GradientIdPrefix: string := "linear-graident-"

  function Prefix(r: Ref): string {
    match r
    case PatternId(_) => PatternIdPrefix
    case GradientId(_) => GradientIdPrefix
  }

  /** The `fill` of an element's background rect: a colour, or `url(#<id>)`. */
  datatype Fill = Solid(color: string) | Url(target: Ref)

  /** The `patternUnits` attribute. */
  datatype Units = UserSpaceOnUse | ObjectBoundingBox

  /** The four borders, in the order they are emitted. */
  datatype Side = Top | Right | Bottom | Left

  /**
   * The emitted SVG elements with the attributes that vary. Constant
   * attributes (`id="img"`, `fill="rgb(255, 255, 255)"`, the namespaces)
   * are stated by the constants below.
   */
  datatype Prim =
    | Svg(svgWidth: Option<real>, svgHeight: Option<real>)
    | PageBackground(pageWidth: Option<real>, pageHeight: Option<real>)
    | Defs
    | Picture(rect: Rect, href: string)
    | Group(name: string)
    | Background(name: string, rect: Rect, fill: Fill)
    | Border(side: Side, stroke: string, strokeWidth: string, x1: real, x2: real, y1: real, y2: real)
    | Pattern(id: Ref, width: real, height: real, units: Units)
    | PatternImage(width: real, height: real, x: real, y: real, href: string)
    | GradientDef(id: Ref)
    | Stop(color: string, offset: real)
    | Tile(width: real, height: real, x: real, y: real, gradient: Ref)
    | TextBlock(x: real, y: real, color: string, fontFamily: string, fontSize: string, fontWeight: string)
    | Span(text: string, left: real, baseline: Option<real>)

  const PageFill: string := "rgb(255, 255, 255)"
  const PageBackgroundId: string := "document-background"
  const PictureId: string := "img"
  const TransparentFill: string := "rgba(0, 0, 0, 0)"

  /** The `id` attribute of a group and of its background rect. */
  function GroupId(name: string): string {
    name
  }

  function BackgroundId(name: string): string {
    name + "-background"
  }

  /** Where a node hangs: at the top of the list, or under the node at `index`. */
  datatype Parent = Root | Under(index: nat)

  datatype Emitted = Emitted(parent: Parent, prim: Prim)

  /** Every node's parent comes before it in the list. */
  predicate ParentsBefore(out: seq<Emitted>) {
    forall i :: 0 <= i < |out| ==> (out[i].parent.Under? ==> out[i].parent.index < i)
  }

  /** The indices of the children of node `p`, in sibling order. */
  function ChildrenOf(out: seq<Emitted>, p: nat): (r: seq<nat>)
    ensures forall k :: 0 <= k < |r| ==> r[k] < |out| && out[r[k]].parent == Under(p)
    ensures forall i :: 0 <= i < |out| && out[i].parent == Under(p) ==> i in r
    ensures forall a, b :: 0 <= a < b < |r| ==> r[a] < r[b]
  {
    if |out| == 0 then []
    else
      var front := ChildrenOf(out[..|out| - 1], p);
      if out[|out| - 1].parent == Under(p) then front + [|out| - 1] else front
  }

  /** The id a node declares, if any: patterns and gradients. */
  function DeclaredId(prim: Prim): Option<Ref> {
    match prim
    case Pattern(r, _, _, _) => Some(r)
    case GradientDef(r) => Some(r)
    case _ => None
  }

  /** The id a node refers to by `url(#…)`, if any. */
  function UsedId(prim: Prim): Option<Ref> {
    match prim
    case Background(_, _, Url(r)) => Some(r)
    case Tile(_, _, _, _, r) => Some(r)
    case _ => None
  }

  /** No id is declared twice. */
  predicate UniqueIds(out: seq<Emitted>) {
    forall i, j :: 0 <= i < j < |out| && DeclaredId(out[i].prim).Some? ==> DeclaredId(out[i].prim) != DeclaredId(out[j].prim)
  }

  /** Every `url(#…)` names a node declared earlier in the list. */
  predicate UrlsResolve(out: seq<Emitted>) {
    forall i :: 0 <= i < |out| && UsedId(out[i].prim).Some? ==>
      exists j :: 0 <= j < i && DeclaredId(out[j].prim) == UsedId(out[i].prim)
  }

  /** The ids a node declares or refers to. */
  function RefsOf(prim: Prim): set<Ref> {
    (if DeclaredId(prim).Some? then {DeclaredId(prim).value} else {})
    + (if UsedId(prim).Some? then {UsedId(prim).value} else {})
  }

  /** Every id mentioned in the list is below `next`, the next fresh one. */
  predicate IdsBelow(out: seq<Emitted>, next: nat) {
    forall i :: 0 <= i < |out| ==> forall r :: r in RefsOf(out[i].prim) ==> r.uid < next
  }

  /**
   * The structural invariant of the output: parents first, ids below the
   * counter, unique, and resolved.
   */
  predicate WellFormed(out: seq<Emitted>, next: nat) {
    ParentsBefore(out) && IdsBelow(out, next) && UniqueIds(out) && UrlsResolve(out)
  }

  /**
   * `items` may be appended to `out` while the counter moves to `next'`:
   * each item's parent is earlier, its ids are below `next'`, the ids it
   * declares are fresh and distinct, and the ids it uses are declared
   * before it.
   */
  predicate Appendable(out: seq<Emitted>, next: nat, items: seq<Emitted>, next': nat) {
    && next <= next'
    && (forall k :: 0 <= k < |items| && items[k].parent.Under? ==> items[k].parent.index < |out| + k)
    && (forall k :: 0 <= k < |items| ==> forall r :: r in RefsOf(items[k].prim) ==> r.uid < next')
    && (forall k :: 0 <= k < |items| && DeclaredId(items[k].prim).Some? ==> DeclaredId(items[k].prim).value.uid >= next)
    && (forall k1, k2 :: 0 <= k1 < k2 < |items| && DeclaredId(items[k1].prim).Some? ==>
          DeclaredId(items[k1].prim) != DeclaredId(items[k2].prim))
    && (forall k :: 0 <= k < |items| && UsedId(items[k].prim).Some? ==>
          exists j :: 0 <= j < |out| + k && DeclaredId((out + items)[j].prim) == UsedId(items[k].prim))
  }

  lemma AppendWellFormed(out: seq<Emitted>, next: nat, items: seq<Emitted>, next': nat)
    requires WellFormed(out, next) && Appendable(out, next, items, next')
    ensures WellFormed(out + items, next')
  {
    var o := out + items;
    assert forall i :: 0 <= i < |out| ==> o[i] == out[i];
    assert forall i :: |out| <= i < |o| ==> o[i] == items[i - |out|];
    forall i, j | 0 <= i < j < |o| && DeclaredId(o[i].prim).Some?
      ensures DeclaredId(o[i].prim) != DeclaredId(o[j].prim)
    {
      if i < |out| && j >= |out| {
        assert DeclaredId(o[i].prim).value in RefsOf(out[i].prim);
      }
    }
    forall i | 0 <= i < |o| && UsedId(o[i].prim).Some?
      ensures exists j :: 0 <= j < i && DeclaredId(o[j].prim) == UsedId(o[i].prim)
    {
      if i < |out| {
        var j :| 0 <= j < i && DeclaredId(out[j].prim) == UsedId(out[i].prim);
        assert o[j] == out[j];
      }
    }
  }

  /**
   * Appending one node that declares no id, under an existing node, whose
   * ids are below the counter and whose `url(#…)`, if any, names node `j`.
   */
  lemma AppendUser(out: seq<Emitted>, next: nat, item: Emitted, j: nat)
    requires WellFormed(out, next)
    requires item.parent.Under? && item.parent.index < |out|
    requires DeclaredId(item.prim).None?
    requires forall r :: r in RefsOf(item.prim) ==> r.uid < next
    requires UsedId(item.prim).Some? ==> j < |out| && DeclaredId(out[j].prim) == UsedId(item.prim)
    ensures WellFormed(out + [item], next)
  {
    if UsedId(item.prim).Some? {
      assert (out + [item])[j] == out[j];
    }
    AppendWellFormed(out, next, [item], next);
  }

  /** Appending one node that neither declares nor uses an id, under an existing node. */
  lemma AppendPlain(out: seq<Emitted>, next: nat, items: seq<Emitted>)
    requires WellFormed(out, next)
    requires forall k :: 0 <= k < |items| ==>
               && items[k].parent.Under? && items[k].parent.index < |out| + k
               && RefsOf(items[k].prim) == {}
    ensures WellFormed(out + items, next)
  {
    AppendWellFormed(out, next, items, next);
  }
}
