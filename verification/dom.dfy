/**
 * The input of the converter: an immutable tree of element and text nodes
 * whose style and layout have already been resolved by the browser, plus the
 * browser services the converter calls and that are not modelled.
 */
module Dom {
  import opened Options

  /** A layout box, as `getBoundingClientRect` returns it. */
  datatype Rect = Rect(left: real, top: real, width: real, height: real)

  /**
   * The computed style properties the converter reads, one field each.
   * `visibilityPriority` is what `getPropertyPriority("visibility")`
   * answers: the priority of the declaration (`""` or `"important"`),
   * not its value.
   */
  datatype Style = Style(
    display: string,
    opacity: string,
    visibilityPriority: string,
    backgroundColor: string,
    backgroundImage: string,
    backgroundSize: string,
    backgroundPosition: string,
    borderTopColor: string,
    borderTopWidth: string,
    borderRightColor: string,
    borderRightWidth: string,
    borderBottomColor: string,
    borderBottomWidth: string,
    borderLeftColor: string,
    borderLeftWidth: string,
    color: string,
    fontFamily: string,
    fontSize: string,
    fontWeight: string,
    lineHeight: string)

  /** What a text node sees of its parent element. */
  datatype ParentView = ParentView(style: Style, offsetLeft: real, offsetTop: real)

  datatype Node =
    | Element(
        tagName: string,
        style: Style,
        rect: Rect,
        clientWidth: real,
        clientHeight: real,
        offsetLeft: real,
        offsetTop: real,
        children: seq<Node>)
    | Text(content: string, parent: Option<ParentView>)
      /** Any other child node (a comment, a processing instruction): its character data only. */
    | Comment(data: string)

  /**
   * The browser services the converter calls: `parseFloat`, the layout box
   * of a character range of a text node, and the rasterisation of an image
   * element into a data url.
   */
  datatype Env = Env(
    parseFloat: string -> Option<real>,
    rangeRect: (Node, nat, nat) -> Rect,
    rasterize: Node -> string)
}
