/**
 * The two leaf matchers: each tests one node and, on a match, appends one
 * element to the svg under construction. The svg is modelled by the list of
 * children appended to it, so "unchanged" is list equality.
 */
module Matchers {
  import opened Options
  import opened JsStrings
  import opened Dom

  /** The element a matcher appends, with the text content it is given. */
  datatype Appended = TextElement(content: string) | RectElement(content: string)

  /**
   * `textContent` of a node: a text node's or a comment's own data; for an
   * element, the data of all its text descendants in document order
   * (comments inside an element contribute nothing).
   */
  function TextContent(node: Node): string
    decreases node, 1
  {
    match node
    case Text(content, _) => content
    case Comment(data) => data
    case Element(_, _, _, _, _, _, _, _) => ChildrenText(node, 0)
  }

  function ChildrenText(node: Node, i: nat): string
    requires node.Element? && i <= |node.children|
    decreases node, 0, |node.children| - i
  {
    if i == |node.children| then ""
    else
      var child := node.children[i];
      (if child.Comment? then "" else TextContent(child)) + ChildrenText(node, i + 1)
  }

  /** `matchText`: a text node with something other than whitespace in it. */
  function MatchText(node: Node, svg: seq<Appended>): (r: (bool, seq<Appended>))
    ensures r.0 <==> node.Text? && !AllWhitespace(node.content)
    ensures r.0 ==> r.1 == svg + [TextElement(node.content)]
    ensures !r.0 ==> r.1 == svg
  {
    TrimEmptyIffBlank(TextContent(node));
    if node.Text? && TextContent(node) != "" && Trim(TextContent(node)) != "" then
      (true, svg + [TextElement(TextContent(node))])
    else (false, svg)
  }

  /** `matchElement`: every element, appended as a rect holding its text content. */
  function MatchElement(node: Node, svg: seq<Appended>): (r: (bool, seq<Appended>))
    ensures r.0 <==> node.Element?
    ensures r.0 ==> r.1 == svg + [RectElement(TextContent(node))]
    ensures !r.0 ==> r.1 == svg
  {
    if node.Element? then (true, svg + [RectElement(TextContent(node))]) else (false, svg)
  }

  /** `node` is `root` or lies below it. */
  predicate Within(node: Node, root: Node)
    decreases root
  {
    node == root
    || (root.Element? && exists i :: 0 <= i < |root.children| && Within(node, root.children[i]))
  }

  lemma {:induction false} WhitespaceConcat(a: string, b: string)
    requires AllWhitespace(a) && AllWhitespace(b)
    ensures AllWhitespace(a + b)
  {
    assert forall i :: 0 <= i < |a + b| ==> (a + b)[i] == if i < |a| then a[i] else b[i - |a|];
  }

  /**
   * An element whose text content is not blank holds a text node the text
   * matcher accepts: visible text always comes from some text descendant.
   */
  lemma {:induction false} VisibleTextHasTextNode(node: Node)
    requires node.Element? && !AllWhitespace(TextContent(node))
    ensures exists t :: Within(t, node) && MatchText(t, []).0
    decreases node, 1
  {
    ChildWithVisibleText(node, 0);
  }

  lemma {:induction false} ChildWithVisibleText(node: Node, i: nat)
    requires node.Element? && i <= |node.children| && !AllWhitespace(ChildrenText(node, i))
    ensures exists t :: Within(t, node) && MatchText(t, []).0
    decreases node, 0, |node.children| - i
  {
    if i < |node.children| {
      var child := node.children[i];
      var head := if child.Comment? then "" else TextContent(child);
      if AllWhitespace(head) {
        if AllWhitespace(ChildrenText(node, i + 1)) {
          WhitespaceConcat(head, ChildrenText(node, i + 1));
        }
        ChildWithVisibleText(node, i + 1);
      } else {
        match child
        case Text(_, _) =>
          assert MatchText(child, []).0;
          assert Within(child, child);
          assert Within(child, node);
        case Element(_, _, _, _, _, _, _, _) =>
          VisibleTextHasTextNode(child);
          var t :| Within(t, child) && MatchText(t, []).0;
          assert Within(t, node);
      }
    }
  }

  /**
   * Trying the text matcher and then the element matcher on one node
   * appends at most one element and leaves what was there before alone;
   * something is appended exactly when one of them accepts, and it holds
   * the node's text content.
   */
  lemma MatchersAppendAtMostOne(node: Node, svg: seq<Appended>)
    ensures var (t, s1) := MatchText(node, svg);
            var (e, s2) := MatchElement(node, s1);
            && |s2| <= |svg| + 1 && s2[..|svg|] == svg
            && (|s2| == |svg| + 1 <==> t || e)
            && (|s2| == |svg| + 1 ==> s2[|svg|].content == TextContent(node))
  {
    var (t, s1) := MatchText(node, svg);
    if t {
      assert s1[..|svg|] == svg;
    }
  }

  /** `matchText` accepts the text node `Hello World`. */
  lemma HelloWorldMatches(parent: Option<ParentView>)
    ensures MatchText(Text("Hello World", parent), []) == (true, [TextElement("Hello World")])
  {
    assert "Hello World"[0] == 'H';
    assert !IsWhitespace('H');
    assert !AllWhitespace("Hello World");
    assert [] + [TextElement("Hello World")] == [TextElement("Hello World")];
  }

  /** Whitespace-only text is refused and leaves the svg as it was. */
  lemma BlankTextRefused(svg: seq<Appended>, parent: Option<ParentView>)
    ensures MatchText(Text(" \n\t", parent), svg) == (false, svg)
    ensures MatchText(Text("", parent), svg) == (false, svg)
  {
    assert forall i :: 0 <= i < |" \n\t"| ==> IsWhitespace(" \n\t"[i]);
  }
}
