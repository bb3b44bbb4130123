/**
 * The text segmenter and line height of src/dom-to-svg.ts (`getLines`,
 * `getLineHeight`, `cssValueToNumber`). A text node's content is split on
 * single spaces; each word asks the layout oracle for the box of a character
 * range, and a greedy pass groups the words into visual lines by the top of
 * those boxes.
 */
module TextLines {
  import opened Options
  import opened JsStrings
  import opened Dom

  /** A visual line: its text and the box it is drawn at. */
  datatype Line = Line(text: string, rect: Rect)

  // ---------------------------------------------------------------------
  // Grouping words into lines
  // ---------------------------------------------------------------------

  /**
   * The `forEach` callback of `getLines`: a word opens a new line when
   * there is none yet or when its top lies strictly below the current
   * line's top; otherwise it is appended to the current line after one
   * space, and that line's box stays as it was.
   */
  function Place(lines: seq<Line>, word: string, rect: Rect): seq<Line> {
    if |lines| == 0 || rect.top > lines[|lines| - 1].rect.top then
      lines + [Line(word, rect)]
    else
      var line := lines[|lines| - 1];
      lines[..|lines| - 1] + [Line(line.text + " " + word, line.rect)]
  }

  /** The lines after the first `m` words have been placed. */
  function GroupWords(words: seq<string>, rects: seq<Rect>, m: nat): seq<Line>
    requires |words| == |rects| && m <= |words|
  {
    if m == 0 then [] else Place(GroupWords(words, rects, m - 1), words[m - 1], rects[m - 1])
  }

  /**
   * Reference for the grouping, from the boxes alone: the word that opened
   * the line word `k` belongs to.
   */
  function Leader(rects: seq<Rect>, k: nat): (l: nat)
    requires k < |rects|
    ensures l <= k
  {
    if k == 0 then 0
    else
      var l := Leader(rects, k - 1);
      if rects[k].top > rects[l].top then k else l
  }

  /** Word `k > 0` opens a line: its top is strictly below the top of the line word `k - 1` is on. */
  predicate OpensLine(rects: seq<Rect>, k: nat)
    requires 0 < k < |rects|
  {
    rects[k].top > rects[Leader(rects, k - 1)].top
  }

  /** The number of the line word `k` is on. */
  function LineNumber(rects: seq<Rect>, k: nat): nat
    requires k < |rects|
  {
    if k == 0 then 0
    else LineNumber(rects, k - 1) + (if OpensLine(rects, k) then 1 else 0)
  }

  /** The line being filled. */
  function Last(lines: seq<Line>): Line
    requires |lines| > 0
  {
    lines[|lines| - 1]
  }

  /** A word that opens a line is appended as a line of its own. */
  lemma PlaceOpens(lines: seq<Line>, word: string, rect: Rect)
    requires |lines| == 0 || rect.top > Last(lines).rect.top
    ensures Place(lines, word, rect) == lines + [Line(word, rect)]
  {
  }

  /** Any other word extends the last line and leaves its box and the earlier lines alone. */
  lemma PlaceExtends(lines: seq<Line>, word: string, rect: Rect)
    requires |lines| > 0 && rect.top <= Last(lines).rect.top
    ensures var r := Place(lines, word, rect);
            && |r| == |lines|
            && r[..|r| - 1] == lines[..|lines| - 1]
            && Last(r) == Line(Last(lines).text + " " + word, Last(lines).rect)
  {
  }

  /**
   * The count and boxes of the grouping after `m >= 1` words: one line per
   * opening word, and the last line keeps the box of the word that opened
   * it, never widened.
   */
  lemma {:induction false} GroupCountAndBox(words: seq<string>, rects: seq<Rect>, m: nat)
    requires |words| == |rects| && 1 <= m <= |words|
    ensures |GroupWords(words, rects, m)| == LineNumber(rects, m - 1) + 1
    ensures Last(GroupWords(words, rects, m)).rect == rects[Leader(rects, m - 1)]
  {
    var prev := GroupWords(words, rects, m - 1);
    if m == 1 {
      PlaceOpens(prev, words[0], rects[0]);
    } else {
      GroupCountAndBox(words, rects, m - 1);
      if OpensLine(rects, m - 1) {
        PlaceOpens(prev, words[m - 1], rects[m - 1]);
      } else {
        PlaceExtends(prev, words[m - 1], rects[m - 1]);
      }
    }
  }

  /**
   * The lines before the last one after `m >= 1` words are exactly the
   * grouping of the words before the last line's leader.
   */
  lemma {:induction false} GroupFront(words: seq<string>, rects: seq<Rect>, m: nat)
    requires |words| == |rects| && 1 <= m <= |words|
    ensures var lines := GroupWords(words, rects, m);
            |lines| >= 1 && lines[..|lines| - 1] == GroupWords(words, rects, Leader(rects, m - 1))
  {
    var prev := GroupWords(words, rects, m - 1);
    var w := words[m - 1];
    if m == 1 {
      PlaceOpens(prev, w, rects[0]);
    } else {
      GroupFront(words, rects, m - 1);
      GroupCountAndBox(words, rects, m - 1);
      if OpensLine(rects, m - 1) {
        PlaceOpens(prev, w, rects[m - 1]);
        assert (prev + [Line(w, rects[m - 1])])[..|prev|] == prev;
      } else {
        PlaceExtends(prev, w, rects[m - 1]);
      }
    }
  }

  lemma SliceSnoc<T>(s: seq<T>, a: nat, b: nat)
    requires a <= b < |s|
    ensures s[a..b + 1] == s[a..b] + [s[b]]
  {
  }

  /** One more word: a new line exactly when it opens one, otherwise the last line grows. */
  lemma GroupStep(words: seq<string>, rects: seq<Rect>, m: nat)
    requires |words| == |rects| && 2 <= m <= |words|
    ensures var prev := GroupWords(words, rects, m - 1);
            var lines := GroupWords(words, rects, m);
            && |prev| >= 1
            && (OpensLine(rects, m - 1) ==> lines == prev + [Line(words[m - 1], rects[m - 1])])
            && (!OpensLine(rects, m - 1) ==>
                  && |lines| == |prev|
                  && lines[..|lines| - 1] == prev[..|prev| - 1]
                  && Last(lines) == Line(Last(prev).text + " " + words[m - 1], Last(prev).rect))
  {
    var prev := GroupWords(words, rects, m - 1);
    GroupCountAndBox(words, rects, m - 1);
    if OpensLine(rects, m - 1) {
      PlaceOpens(prev, words[m - 1], rects[m - 1]);
    } else {
      PlaceExtends(prev, words[m - 1], rects[m - 1]);
    }
  }

  lemma JoinSnoc(ws: seq<string>, w: string)
    requires |ws| >= 1
    ensures Join(ws + [w], ' ') == Join(ws, ' ') + " " + w
  {
    JoinAppend(ws, [w], ' ');
    assert Join([w], ' ') == w;
  }

  /**
   * A word that does not open a line adds itself, after a space, to the
   * text of the last line, which by induction holds the words from its
   * leader on.
   */
  lemma {:induction false} LastTextExtends(words: seq<string>, rects: seq<Rect>, m: nat)
    requires |words| == |rects| && 2 <= m <= |words| && !OpensLine(rects, m - 1)
    ensures |GroupWords(words, rects, m)| >= 1
    ensures Last(GroupWords(words, rects, m)).text == Join(words[Leader(rects, m - 1)..m], ' ')
    decreases m, 0
  {
    var l := Leader(rects, m - 2);
    var w := words[m - 1];
    var prev := GroupWords(words, rects, m - 1);
    GroupLastText(words, rects, m - 1);
    GroupCountAndBox(words, rects, m - 1);
    PlaceExtends(prev, w, rects[m - 1]);
    assert Leader(rects, m - 1) == l;
    SliceSnoc(words, l, m - 1);
    JoinSnoc(words[l..m - 1], w);
  }

  /** A word that opens a line is the whole text of the new last line. */
  lemma LastTextOpens(words: seq<string>, rects: seq<Rect>, m: nat)
    requires |words| == |rects| && 1 <= m <= |words| && (m == 1 || OpensLine(rects, m - 1))
    ensures |GroupWords(words, rects, m)| >= 1
    ensures Last(GroupWords(words, rects, m)).text == Join(words[Leader(rects, m - 1)..m], ' ')
  {
    var w := words[m - 1];
    assert Leader(rects, m - 1) == m - 1;
    assert words[m - 1..m] == [w];
    assert Join([w], ' ') == w;
    if m == 1 {
      PlaceOpens([], w, rects[0]);
    } else {
      GroupStep(words, rects, m);
    }
  }

  /** The last line after `m >= 1` words holds the words from its leader on, joined by single spaces. */
  lemma {:induction false} GroupLastText(words: seq<string>, rects: seq<Rect>, m: nat)
    requires |words| == |rects| && 1 <= m <= |words|
    ensures |GroupWords(words, rects, m)| >= 1
    ensures Last(GroupWords(words, rects, m)).text == Join(words[Leader(rects, m - 1)..m], ' ')
    decreases m, 1
  {
    if m == 1 || OpensLine(rects, m - 1) {
      LastTextOpens(words, rects, m);
    } else {
      LastTextExtends(words, rects, m);
    }
  }

  /** The texts of the lines. */
  function Texts(lines: seq<Line>): (r: seq<string>)
    ensures |r| == |lines|
    ensures forall i :: 0 <= i < |lines| ==> r[i] == lines[i].text
  {
    seq(|lines|, i requires 0 <= i < |lines| => lines[i].text)
  }

  lemma TextsSnoc(lines: seq<Line>, line: Line)
    ensures Texts(lines + [line]) == Texts(lines) + [line.text]
  {
  }

  /** Growing the last part of a join grows the joined text at its end. */
  lemma JoinExtendLast(front: seq<string>, last: string, w: string)
    ensures Join(front + [last + " " + w], ' ') == Join(front + [last], ' ') + " " + w
  {
    if |front| == 0 {
      assert [last + " " + w] == front + [last + " " + w];
    } else {
      JoinAppend(front, [last + " " + w], ' ');
      JoinAppend(front, [last], ' ');
    }
  }

  /** Joining the line texts with single spaces gives the placed words joined the same way. */
  lemma {:induction false} GroupKeepsText(words: seq<string>, rects: seq<Rect>, m: nat)
    requires |words| == |rects| && 1 <= m <= |words|
    ensures Join(Texts(GroupWords(words, rects, m)), ' ') == Join(words[..m], ' ')
  {
    var w := words[m - 1];
    if m == 1 {
      assert GroupWords(words, rects, 0) == [];
      PlaceOpens([], w, rects[0]);
      TextsSnoc([], Line(w, rects[0]));
      assert [] + [Line(w, rects[0])] == [Line(w, rects[0])];
      assert words[..1] == [w];
    } else {
      var prev := GroupWords(words, rects, m - 1);
      GroupKeepsText(words, rects, m - 1);
      GroupCountAndBox(words, rects, m - 1);
      assert words[..m] == words[..m - 1] + [w];
      PlaceExtendsJoin(prev, w, rects[m - 1], words[..m - 1]);
    }
  }

  /** Placing a word after lines that join to `front` gives lines that join to `front` and the word. */
  lemma PlaceExtendsJoin(lines: seq<Line>, word: string, rect: Rect, front: seq<string>)
    requires |lines| >= 1 && |front| >= 1 && Join(Texts(lines), ' ') == Join(front, ' ')
    ensures Join(Texts(Place(lines, word, rect)), ' ') == Join(front + [word], ' ')
  {
    PlaceKeepsText(lines, word, rect);
    JoinSnoc(front, word);
  }

  /** Placing a word adds it, after one space, to the joined text of the lines. */
  lemma PlaceKeepsText(lines: seq<Line>, word: string, rect: Rect)
    requires |lines| >= 1
    ensures Join(Texts(Place(lines, word, rect)), ' ') == Join(Texts(lines), ' ') + " " + word
  {
    assert Join([word], ' ') == word;
    if rect.top > Last(lines).rect.top {
      PlaceOpens(lines, word, rect);
      TextsSnoc(lines, Line(word, rect));
      JoinAppend(Texts(lines), [word], ' ');
    } else {
      PlaceExtends(lines, word, rect);
      var front := lines[..|lines| - 1];
      var last := Last(lines);
      var line := Line(last.text + " " + word, last.rect);
      assert lines == front + [last];
      assert Place(lines, word, rect) == front + [line];
      TextsSnoc(front, last);
      TextsSnoc(front, line);
      JoinExtendLast(Texts(front), last.text, word);
    }
  }

  /** Each line lies strictly below the previous one. */
  predicate TopsIncrease(lines: seq<Line>) {
    forall i, j :: 0 <= i < j < |lines| ==> lines[i].rect.top < lines[j].rect.top
  }

  lemma PlaceKeepsTopsIncreasing(lines: seq<Line>, word: string, rect: Rect)
    requires TopsIncrease(lines)
    ensures TopsIncrease(Place(lines, word, rect))
  {
    if |lines| == 0 || rect.top > Last(lines).rect.top {
      PlaceOpens(lines, word, rect);
    } else {
      PlaceExtends(lines, word, rect);
      var r := Place(lines, word, rect);
      forall i | 0 <= i < |r| ensures r[i].rect == lines[i].rect {
        if i < |r| - 1 {
          assert r[i] == r[..|r| - 1][i];
          assert lines[i] == lines[..|lines| - 1][i];
        }
      }
    }
  }

  /** Line tops strictly increase: each line lies below the previous one. */
  lemma {:induction false} GroupTopsIncrease(words: seq<string>, rects: seq<Rect>, m: nat)
    requires |words| == |rects| && m <= |words|
    ensures TopsIncrease(GroupWords(words, rects, m))
  {
    if m > 0 {
      GroupTopsIncrease(words, rects, m - 1);
      PlaceKeepsTopsIncreasing(GroupWords(words, rects, m - 1), words[m - 1], rects[m - 1]);
    }
  }

  // ---------------------------------------------------------------------
  // getLines
  // ---------------------------------------------------------------------

  /**
   * Where `getLines` starts the range of word `k`: the lengths of the words
   * before it, added up without the separating spaces.
   */
  function WordStart(words: seq<string>, k: nat): nat
    requires k <= |words|
  {
    if k == 0 then 0 else WordStart(words, k - 1) + |words[k - 1]|
  }

  /** The boxes the oracle gives for the words' ranges. */
  function WordRects(env: Env, node: Node, words: seq<string>): (r: seq<Rect>)
    ensures |r| == |words|
    ensures forall k :: 0 <= k < |words| ==>
              r[k] == env.rangeRect(node, WordStart(words, k), WordStart(words, k) + |words[k]|)
  {
    seq(|words|, k requires 0 <= k < |words| =>
      env.rangeRect(node, WordStart(words, k), WordStart(words, k) + |words[k]|))
  }

  /** The words of a text, as `split(" ")` gives them. */
  function Words(text: string): seq<string> {
    Split(text, ' ')
  }

  /** `getLines`: the visual lines of a text node. */
  function GetLines(env: Env, node: Node): seq<Line>
    requires node.Text?
  {
    var words := Words(node.content);
    GroupWords(words, WordRects(env, node, words), |words|)
  }

  /**
   * What `getLines` promises: the lines' texts joined by single spaces are
   * the node's text, the lines run strictly downwards, and there is at
   * least one line (splitting never gives zero words).
   */
  lemma GetLinesKeepsText(env: Env, node: Node)
    requires node.Text?
    ensures |GetLines(env, node)| >= 1
    ensures Join(Texts(GetLines(env, node)), ' ') == node.content
    ensures TopsIncrease(GetLines(env, node))
  {
    var words := Words(node.content);
    var rects := WordRects(env, node, words);
    GroupCountAndBox(words, rects, |words|);
    GroupKeepsText(words, rects, |words|);
    GroupTopsIncrease(words, rects, |words|);
    assert words[..|words|] == words;
  }

  /**
   * Each line is drawn at the box of its first word: line `LineNumber(k)`
   * has the box of the word that opened the line of word `k`.
   */
  lemma GroupLineBox(words: seq<string>, rects: seq<Rect>, k: nat)
    requires |words| == |rects| && k < |words|
    ensures LineNumber(rects, k) < |GroupWords(words, rects, |words|)|
    ensures GroupWords(words, rects, |words|)[LineNumber(rects, k)].rect == rects[Leader(rects, k)]
  {
    LinesFreeze(words, rects, k + 1, |words|);
    GroupCountAndBox(words, rects, k + 1);
    FrozenBox(GroupWords(words, rects, k + 1), GroupWords(words, rects, |words|));
  }

  /** A frozen grouping's last box stays where it was in any later grouping. */
  lemma FrozenBox(a: seq<Line>, b: seq<Line>)
    requires Frozen(a, b)
    ensures |a| - 1 < |b| && b[|a| - 1].rect == Last(a).rect
  {
  }

  /** `getLines` draws every line at the box the oracle gave for the line's first word. */
  lemma GetLinesBoxes(env: Env, node: Node, k: nat)
    requires node.Text? && k < |Words(node.content)|
    ensures var words := Words(node.content);
            var rects := WordRects(env, node, words);
            var lines := GetLines(env, node);
            LineNumber(rects, k) < |lines| && lines[LineNumber(rects, k)].rect == rects[Leader(rects, k)]
  {
    var words := Words(node.content);
    GroupLineBox(words, WordRects(env, node, words), k);
  }

  /**
   * `b` grows from `a` without touching it: every line of `a` but the last is
   * in `b` unchanged, and the last one has kept its box.
   */
  predicate Frozen(a: seq<Line>, b: seq<Line>) {
    1 <= |a| <= |b| && a[..|a| - 1] == b[..|a| - 1] && Last(a).rect == b[|a| - 1].rect
  }

  lemma FrozenTransitive(a: seq<Line>, b: seq<Line>, c: seq<Line>)
    requires Frozen(a, b) && Frozen(b, c)
    ensures Frozen(a, c)
  {
    if |a| < |b| {
      assert a[..|a| - 1] == b[..|b| - 1][..|a| - 1];
      assert c[..|a| - 1] == c[..|b| - 1][..|a| - 1];
      assert b[|a| - 1] == b[..|b| - 1][|a| - 1];
      assert c[|a| - 1] == c[..|b| - 1][|a| - 1];
    }
  }

  lemma PlaceFreezes(lines: seq<Line>, word: string, rect: Rect)
    requires |lines| >= 1
    ensures Frozen(lines, Place(lines, word, rect))
  {
    if rect.top > Last(lines).rect.top {
      PlaceOpens(lines, word, rect);
      assert (lines + [Line(word, rect)])[..|lines| - 1] == lines[..|lines| - 1];
    } else {
      PlaceExtends(lines, word, rect);
    }
  }

  /** Placing more words never changes a line that is already followed by another one, nor any line's box. */
  lemma {:induction false} LinesFreeze(words: seq<string>, rects: seq<Rect>, m: nat, n: nat)
    requires |words| == |rects| && 1 <= m <= n <= |words|
    ensures Frozen(GroupWords(words, rects, m), GroupWords(words, rects, n))
    decreases n - m
  {
    var a := GroupWords(words, rects, m);
    GroupCountAndBox(words, rects, m);
    if m < n {
      assert GroupWords(words, rects, m + 1) == Place(a, words[m], rects[m]);
      LinesFreeze(words, rects, m + 1, n);
      PlaceFreezes(a, words[m], rects[m]);
      FrozenTransitive(a, GroupWords(words, rects, m + 1), GroupWords(words, rects, n));
    }
  }

  /**
   * The index drift of `getLines`: the range it asks for word `k` starts
   * `k` characters before the word, because the running index skips the
   * separating spaces. The true start of word `k` in the text is
   * `WordStart(k) + k`.
   */
  lemma {:induction false} WordStartDrift(words: seq<string>, k: nat)
    requires k < |words|
    ensures var text := Join(words, ' ');
            var s := WordStart(words, k) + k;
            s + |words[k]| <= |text| && text[s..s + |words[k]|] == words[k]
  {
    var text := Join(words, ' ');
    JoinPrefixLength(words, k);
    if k == 0 {
      JoinStartsWithFirst(words);
    } else {
      assert words == words[..k] + words[k..];
      JoinAppend(words[..k], words[k..], ' ');
      JoinStartsWithFirst(words[k..]);
      var pre := Join(words[..k], ' ');
      assert text == pre + [' '] + Join(words[k..], ' ');
      assert text[|pre| + 1..|pre| + 1 + |words[k]|] == Join(words[k..], ' ')[..|words[k]|];
    }
  }

  lemma JoinStartsWithFirst(words: seq<string>)
    requires |words| >= 1
    ensures |words[0]| <= |Join(words, ' ')| && Join(words, ' ')[..|words[0]|] == words[0]
  {
  }

  lemma {:induction false} JoinPrefixLength(words: seq<string>, k: nat)
    requires k <= |words|
    ensures k >= 1 ==> |Join(words[..k], ' ')| == WordStart(words, k) + k - 1
  {
    if k >= 2 {
      JoinPrefixLength(words, k - 1);
      assert words[..k] == words[..k - 1] + [words[k - 1]];
      JoinAppend(words[..k - 1], [words[k - 1]], ' ');
    } else if k == 1 {
      assert words[..1] == [words[0]];
    }
  }

  /**
   * The drift on the smallest example: in `"Hello World"` the range asked
   * for the second word covers `" Worl"`, not `"World"`.
   */
  lemma DriftExample()
    ensures Words("Hello World") == ["Hello", "World"]
    ensures WordStart(Words("Hello World"), 1) == 5
    ensures "Hello World"[5..5 + |"World"|] == " Worl"
  {
    SplitJoin(["Hello", "World"], ' ');
    assert Join(["Hello", "World"], ' ') == "Hello World";
  }

  // ---------------------------------------------------------------------
  // Line height
  // ---------------------------------------------------------------------

  /** The factor applied to the font size when the line height is `normal`. */
  const NormalLineHeightFactor: real := 1.61

  /** `cssValueToNumber`: `parseFloat` after removing a trailing `px`. */
  function CssValueToNumber(parseFloat: string -> Option<real>, raw: string): Option<real> {
    parseFloat(RemoveSuffix(raw, "px"))
  }

  /** `getLineHeight`: 1.61 times the font size for `normal`, the line height's own number otherwise. */
  function LineHeight(parseFloat: string -> Option<real>, style: Style): Option<real> {
    if style.lineHeight == "normal" then
      match CssValueToNumber(parseFloat, style.fontSize)
      case Some(size) => Some(size * NormalLineHeightFactor)
      case None => None
    else CssValueToNumber(parseFloat, style.lineHeight)
  }

  /** A pixel line height `<x>px` is the number `x`; `normal` is 1.61 times a pixel font size. */
  lemma LineHeightOfPixels(parseFloat: string -> Option<real>, style: Style, s: string, x: real)
    requires parseFloat(s) == Some(x)
    ensures style.lineHeight == s + "px" && s + "px" != "normal" ==> LineHeight(parseFloat, style) == Some(x)
    ensures style.lineHeight == "normal" && style.fontSize == s + "px" ==>
              LineHeight(parseFloat, style) == Some(x * NormalLineHeightFactor)
  {
    assert RemoveSuffix(s + "px", "px") == s by {
      assert (s + "px")[|s + "px"| - 2..] == "px";
      assert (s + "px")[..|s|] == s;
    }
  }

  /** Only a trailing `px` is removed: a value without one reaches `parseFloat` whole. */
  lemma CssValueKeepsInnerPx(parseFloat: string -> Option<real>, raw: string)
    requires !EndsWith(raw, "px")
    ensures CssValueToNumber(parseFloat, raw) == parseFloat(raw)
  {
  }
}
