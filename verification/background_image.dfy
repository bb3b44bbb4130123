/**
 * The paint resolver of src/parse-background-image.ts: a computed
 * `background-image` value becomes no paint, an image url or a linear
 * gradient, and `background-size` / `background-position` values become a
 * pair of numbers or nothing.
 *
 * `parseFloat` is not modelled; every function that needs it receives it as
 * `parseFloat: string -> Option<real>`, `None` standing for `NaN`.
 */
module BackgroundImage {
  import opened Options
  import opened JsStrings

  datatype Gradient = Gradient(angle: string, stops: seq<string>)

  datatype Background =
    | NoBackground
    | Image(value: string)
    | LinearGradient(gradient: Gradient)

  datatype BackgroundSize = NoSize | SizeParsed(width: real, height: real)

  datatype BackgroundPosition = NoPosition | PositionParsed(left: real, top: real)

  /** The angle a gradient gets when its argument list has exactly two parts. */
  const DefaultAngle: string := "180deg"

  const UrlOpen: string := "url(\""
  const UrlClose: string := "\")"
  const GradientOpen: string := "linear-gradient("

  // ---------------------------------------------------------------------
  // The two regular expressions
  // ---------------------------------------------------------------------

  /**
   * The capture of `/^url\("(.+)"\)$/i`: the text between a case-insensitive
   * `url("` and a final `")`, at least one character long and free of line
   * terminators (which `.` does not match).
   */
  function UrlArgument(value: string): (r: Option<string>)
    ensures r.Some? ==> && |value| == |UrlOpen| + |r.value| + |UrlClose|
                        && CiEquals(value[..|UrlOpen|], UrlOpen)
                        && value[|UrlOpen|..|UrlOpen| + |r.value|] == r.value
                        && EndsWith(value, UrlClose)
                        && |r.value| > 0 && NoLineTerminator(r.value)
  {
    if |value| >= |UrlOpen| + 1 + |UrlClose|
       && CiEquals(value[..|UrlOpen|], UrlOpen)
       && EndsWith(value, UrlClose)
       && NoLineTerminator(value[|UrlOpen|..|value| - |UrlClose|])
    then Some(value[|UrlOpen|..|value| - |UrlClose|])
    else None
  }

  /** Any string `url("` spelled in any ASCII case, then `x`, then `")` is recognised with capture `x`. */
  lemma UrlArgumentOfUrl(open: string, x: string)
    requires CiEquals(open, UrlOpen)
    requires |x| > 0 && NoLineTerminator(x)
    ensures UrlArgument(open + x + UrlClose) == Some(x)
  {
    var v := open + x + UrlClose;
    assert v[..|UrlOpen|] == open;
    assert v[|v| - |UrlClose|..] == UrlClose;
    assert v[|UrlOpen|..|v| - |UrlClose|] == x;
  }

  /** What the optional `(?:-webkit-|-moz-|-ms-)` group accepts, in any ASCII case. */
  predicate VendorPrefix(p: string) {
    p == "" || CiEquals(p, "-webkit-") || CiEquals(p, "-moz-") || CiEquals(p, "-ms-")
  }

  /**
   * Length of the optional `(?:-webkit-|-moz-|-ms-)` group. The three
   * alternatives differ in their first three characters, so at most one can
   * match, and when one matches the regular expression cannot succeed
   * without it (the rest would have to start with `l`, not `-`).
   */
  function VendorPrefixLength(value: string): (n: nat)
    ensures n <= |value| && VendorPrefix(value[..n])
    ensures n == 0 || value[0] == '-'
  {
    if |value| >= 8 && CiEquals(value[..8], "-webkit-") then 8
    else if |value| >= 5 && CiEquals(value[..5], "-moz-") then 5
    else if |value| >= 4 && CiEquals(value[..4], "-ms-") then 4
    else 0
  }

  /**
   * The capture of `/^(?:-webkit-|-moz-|-ms-)?linear-gradient\((.+)\)$/i`:
   * the text between `linear-gradient(` (after an optional vendor prefix)
   * and a final `)`.
   */
  function GradientArgument(value: string): (r: Option<string>)
    ensures r.Some? ==> && |r.value| > 0 && NoLineTerminator(r.value)
                        && EndsWith(value, r.value + ")")
                        && |value| >= |GradientOpen| + |r.value| + 1
                        && CiEquals(value[|value| - |r.value| - 1 - |GradientOpen|..|value| - |r.value| - 1], GradientOpen)
                        && VendorPrefix(value[..|value| - |r.value| - 1 - |GradientOpen|])
  {
    var body := value[VendorPrefixLength(value)..];
    if |body| >= |GradientOpen| + 2
       && CiEquals(body[..|GradientOpen|], GradientOpen)
       && body[|body| - 1] == ')'
       && NoLineTerminator(body[|GradientOpen|..|body| - 1])
    then
      var arg := body[|GradientOpen|..|body| - 1];
      assert value[|value| - |arg| - 1..] == arg + ")";
      assert value[|value| - |arg| - 1 - |GradientOpen|..|value| - |arg| - 1] == body[..|GradientOpen|];
      assert value[..|value| - |arg| - 1 - |GradientOpen|] == value[..VendorPrefixLength(value)];
      Some(arg)
    else None
  }

  /**
   * Any vendor prefix the group accepts, then `linear-gradient(` spelled in
   * any ASCII case, then `x`, then `)` is recognised with capture `x`.
   */
  lemma GradientArgumentOfSpelling(prefix: string, open: string, x: string)
    requires VendorPrefix(prefix) && CiEquals(open, GradientOpen)
    requires |x| > 0 && NoLineTerminator(x)
    ensures GradientArgument(prefix + open + x + ")") == Some(x)
  {
    var v := prefix + open + x + ")";
    var body := open + x + ")";
    assert v == prefix + body;
    assert AsciiUpper(body[0]) == 'L' by { assert body[0] == open[0]; }
    PrefixLengthBeforeL(prefix, body);
    assert v[|prefix|..] == body;
    assert body[..|GradientOpen|] == open;
    assert body[|GradientOpen|..|body| - 1] == x;
  }

  /** Two strings that disagree at one place, ignoring case, are not case-insensitively equal. */
  lemma NotCiAt(a: string, b: string, i: nat)
    requires i < |a| && i < |b| && AsciiUpper(a[i]) != AsciiUpper(b[i])
    ensures !CiEquals(a, b)
  {
  }

  /**
   * The optional group takes exactly an accepted prefix when an `l` (in
   * either case) follows it: the three alternatives and the `l` all
   * disagree at their first differing character.
   */
  lemma PrefixLengthBeforeL(prefix: string, rest: string)
    requires VendorPrefix(prefix) && |rest| > 0 && AsciiUpper(rest[0]) == 'L'
    ensures VendorPrefixLength(prefix + rest) == |prefix|
  {
    var v := prefix + rest;
    assert v[..|prefix|] == prefix;
    assert v[|prefix|] == rest[0];
    if prefix == "" {
      if |v| >= 8 { NotCiAt(v[..8], "-webkit-", 0); }
      if |v| >= 5 { NotCiAt(v[..5], "-moz-", 0); }
      if |v| >= 4 { NotCiAt(v[..4], "-ms-", 0); }
    } else if CiEquals(prefix, "-webkit-") {
    } else if CiEquals(prefix, "-moz-") {
      if |v| >= 8 { NotCiAt(v[..8], "-webkit-", 1); }
    } else {
      if |v| >= 8 { NotCiAt(v[..8], "-webkit-", 1); }
      NotCiAt(v[..5], "-moz-", 2);
    }
  }

  /** `linear-gradient(x)` is recognised with capture `x`. */
  lemma GradientArgumentOfGradient(x: string)
    requires |x| > 0 && NoLineTerminator(x)
    ensures GradientArgument(GradientOpen + x + ")") == Some(x)
  {
    GradientArgumentOfSpelling("", GradientOpen, x);
    assert "" + GradientOpen == GradientOpen;
  }

  // ---------------------------------------------------------------------
  // The comma splitter of parseLinearGradient
  // ---------------------------------------------------------------------

  /**
   * The `skipComma` flag after scanning `s`: `(` sets it, `)` clears it,
   * anything else leaves it. It is a flag, not a depth counter.
   */
  function SkipComma(s: string): bool {
    if |s| == 0 then false
    else if s[|s| - 1] == '(' then true
    else if s[|s| - 1] == ')' then false
    else SkipComma(s[..|s| - 1])
  }

  /** The comma at `i` ends a part: no `(` has been seen since the last `)`. */
  predicate IsSplitComma(v: string, i: nat)
    requires i < |v|
  {
    v[i] == ',' && !SkipComma(v[..i])
  }

  /** The first splitting comma at or after `from`, or `|v|` when there is none. */
  function NextSplit(v: string, from: nat): (e: nat)
    requires from <= |v|
    ensures from <= e <= |v|
    ensures e < |v| ==> IsSplitComma(v, e)
    ensures forall j :: from <= j < e ==> !IsSplitComma(v, j)
    decreases |v| - from
  {
    if from == |v| then |v|
    else if IsSplitComma(v, from) then from
    else NextSplit(v, from + 1)
  }

  /** Reference meaning of the splitter: `v[from..]` cut at every splitting comma. */
  function Segments(v: string, from: nat): (parts: seq<string>)
    requires from <= |v|
    ensures |parts| >= 1
    decreases |v| - from
  {
    var e := NextSplit(v, from);
    if e == |v| then [v[from..]] else [v[from..e]] + Segments(v, e + 1)
  }

  /**
   * One pass of the source's `while` loop from character `i` on, with the
   * flag, the current part and the parts pushed so far (before trimming).
   * The part in progress is pushed when the last character has been read.
   */
  function SplitLoop(v: string, i: nat, skip: bool, current: string, parts: seq<string>): seq<string>
    requires i < |v|
    decreases |v| - i
  {
    var c := v[i];
    var skip' := if c == '(' then true else if c == ')' then false else skip;
    var split := c == ',' && !skip';
    var parts' := if split then parts + [current] else parts;
    var current' := if split then "" else current + [c];
    if i == |v| - 1 then parts' + [current'] else SplitLoop(v, i + 1, skip', current', parts')
  }

  lemma AppendAssoc<T>(a: seq<T>, b: seq<T>, c: seq<T>)
    ensures a + b + c == a + (b + c)
  {
  }

  /** The flag after one more character, as the loop updates it. */
  lemma SkipCommaStep(v: string, i: nat)
    requires i < |v|
    ensures SkipComma(v[..i + 1])
            == if v[i] == '(' then true else if v[i] == ')' then false else SkipComma(v[..i])
  {
    assert v[..i + 1][..i] == v[..i];
  }

  /** One turn of the loop that is not the last, with the flag it keeps being `SkipComma`. */
  lemma SplitLoopStep(v: string, i: nat, current: string, parts: seq<string>)
    requires i + 1 < |v|
    ensures SplitLoop(v, i, SkipComma(v[..i]), current, parts)
            == if IsSplitComma(v, i)
               then SplitLoop(v, i + 1, SkipComma(v[..i + 1]), "", parts + [current])
               else SplitLoop(v, i + 1, SkipComma(v[..i + 1]), current + [v[i]], parts)
  {
    SkipCommaStep(v, i);
  }

  /** The last turn of the loop pushes what is left. */
  lemma SplitLoopLast(v: string, i: nat, current: string, parts: seq<string>)
    requires i + 1 == |v|
    ensures SplitLoop(v, i, SkipComma(v[..i]), current, parts)
            == if IsSplitComma(v, i) then parts + [current] + [""] else parts + [current + [v[i]]]
  {
    SkipCommaStep(v, i);
  }

  lemma {:induction false} SplitLoopCutsAtSplitCommas(v: string, i: nat, start: nat, skip: bool, parts: seq<string>)
    requires start <= i < |v|
    requires skip == SkipComma(v[..i])
    requires forall j :: start <= j < i ==> !IsSplitComma(v, j)
    ensures SplitLoop(v, i, skip, v[start..i], parts) == parts + Segments(v, start)
    decreases |v| - i
  {
    assert v[start..i] + [v[i]] == v[start..i + 1];
    if IsSplitComma(v, i) {
      SegmentsCut(v, start, i);
      if i == |v| - 1 {
        SplitLoopLast(v, i, v[start..i], parts);
        SegmentsWhole(v, i + 1);
        assert v[i + 1..] == "";
      } else {
        SplitLoopStep(v, i, v[start..i], parts);
        assert v[i + 1..i + 1] == "";
        SplitLoopCutsAtSplitCommas(v, i + 1, i + 1, SkipComma(v[..i + 1]), parts + [v[start..i]]);
        AppendAssoc(parts, [v[start..i]], Segments(v, i + 1));
      }
    } else {
      if i == |v| - 1 {
        SplitLoopLast(v, i, v[start..i], parts);
        SegmentsWhole(v, start);
        assert v[start..i + 1] == v[start..];
      } else {
        SplitLoopStep(v, i, v[start..i], parts);
        SplitLoopCutsAtSplitCommas(v, i + 1, start, SkipComma(v[..i + 1]), parts);
      }
    }
  }

  /**
   * The untrimmed parts `parseLinearGradient` collects. The loop body never
   * runs on an empty value, so no part is pushed at all; otherwise the
   * parts are exactly the runs between splitting commas.
   */
  function RawParts(v: string): (parts: seq<string>)
    ensures |v| == 0 ==> parts == []
    ensures |v| > 0 ==> parts == Segments(v, 0)
  {
    if |v| == 0 then []
    else
      SplitLoopCutsAtSplitCommas(v, 0, 0, false, []);
      SplitLoop(v, 0, false, "", [])
  }

  /** The number of splitting commas in `v[from..]`. */
  function CountSplits(v: string, from: nat): nat
    requires from <= |v|
    decreases |v| - from
  {
    if from == |v| then 0
    else (if IsSplitComma(v, from) then 1 else 0) + CountSplits(v, from + 1)
  }

  lemma {:induction false} CountSplitsNone(v: string, from: nat, to: nat)
    requires from <= to <= |v|
    requires forall j :: from <= j < to ==> !IsSplitComma(v, j)
    ensures CountSplits(v, from) == CountSplits(v, to)
    decreases |v| - from
  {
    if from < to {
      CountSplitsNone(v, from + 1, to);
    }
  }

  /**
   * The segments of `v[from..]` are the splitting commas plus one, and
   * joining them with `,` gives back `v[from..]`: every other character
   * lands, in order, in exactly one part.
   */
  lemma {:induction false} SegmentsCountAndJoin(v: string, from: nat)
    requires from <= |v|
    ensures |Segments(v, from)| == CountSplits(v, from) + 1
    ensures Join(Segments(v, from), ',') == v[from..]
    decreases |v| - from
  {
    var e := NextSplit(v, from);
    CountSplitsNone(v, from, e);
    if e < |v| {
      SegmentsCountAndJoin(v, e + 1);
      var rest := Segments(v, e + 1);
      assert Segments(v, from) == [v[from..e]] + rest;
      JoinAppend([v[from..e]], rest, ',');
      assert v[from..] == v[from..e] + [','] + v[e + 1..];
    }
  }

  /** Part count and order of the splitter as written, for a non-empty argument. */
  lemma RawPartsCountAndJoin(v: string)
    requires |v| > 0
    ensures |RawParts(v)| == CountSplits(v, 0) + 1
    ensures Join(RawParts(v), ',') == v
  {
    SegmentsCountAndJoin(v, 0);
  }

  /**
   * The parts of a gradient argument, each trimmed as it is pushed: none
   * for an empty argument, otherwise one more than there are splitting
   * commas, part `k` being the `k`-th run between them with its white
   * space cut off.
   */
  function ArgumentParts(v: string): (parts: seq<string>)
    ensures |v| == 0 ==> parts == []
    ensures |v| > 0 ==> |parts| == CountSplits(v, 0) + 1 == |Segments(v, 0)|
    ensures |v| > 0 ==> forall k :: 0 <= k < |parts| ==> parts[k] == Trim(Segments(v, 0)[k])
  {
    var raw := RawParts(v);
    if |v| == 0 then []
    else
      RawPartsCountAndJoin(v);
      seq(|raw|, k requires 0 <= k < |raw| => Trim(raw[k]))
  }

  /**
   * The decision at the end of `parseLinearGradient`: two parts are two
   * stops under the default angle, more parts are an angle and the stops,
   * and fewer give no gradient. A gradient always has at least two stops,
   * taken in order from the parts.
   */
  function GradientOfParts(parts: seq<string>): (r: Option<Gradient>)
    ensures r.Some? <==> |parts| >= 2
    ensures r.Some? ==> |r.value.stops| >= 2
    ensures |parts| == 2 ==> r == Some(Gradient(DefaultAngle, parts))
    ensures |parts| > 2 ==> r.Some? && parts == [r.value.angle] + r.value.stops
  {
    if |parts| == 2 then
      assert [parts[0], parts[1]] == parts;
      Some(Gradient(DefaultAngle, [parts[0], parts[1]]))
    else if |parts| > 2 then
      assert [parts[0]] + parts[1..] == parts;
      Some(Gradient(parts[0], parts[1..]))
    else None
  }

  /** `parseLinearGradient`: split the argument, then decide. */
  function ParseLinearGradient(v: string): Option<Gradient> {
    GradientOfParts(ArgumentParts(v))
  }

  // ---------------------------------------------------------------------
  // parseBackgroundImage
  // ---------------------------------------------------------------------

  /**
   * `parseBackgroundImage`: `none`, then the url form, then the gradient
   * form; a gradient that does not parse is no background at all, so a
   * `LinearGradient` result always carries a gradient.
   */
  function ParseBackgroundImage(value: string): (r: Background)
    ensures value == "none" ==> r == NoBackground
    ensures r.Image? <==> value != "none" && UrlArgument(value).Some?
    ensures r.Image? ==> r.value == UrlArgument(value).value
    ensures r.LinearGradient? ==> && UrlArgument(value).None?
                                  && GradientArgument(value).Some?
                                  && ParseLinearGradient(GradientArgument(value).value) == Some(r.gradient)
    ensures && value != "none" && UrlArgument(value).None? && GradientArgument(value).Some?
            && ParseLinearGradient(GradientArgument(value).value).Some?
            ==> r == LinearGradient(ParseLinearGradient(GradientArgument(value).value).value)
  {
    if value == "none" then NoBackground
    else match UrlArgument(value)
      case Some(url) => Image(url)
      case None =>
        match GradientArgument(value)
        case None => NoBackground
        case Some(arg) =>
          match ParseLinearGradient(arg)
          case Some(g) => LinearGradient(g)
          case None => NoBackground
  }

  /** `url("x")` in any letter case is the image `x`. */
  lemma ParseUrl(open: string, x: string)
    requires CiEquals(open, UrlOpen)
    requires |x| > 0 && NoLineTerminator(x)
    ensures ParseBackgroundImage(open + x + UrlClose) == Image(x)
  {
    UrlArgumentOfUrl(open, x);
    assert (open + x + UrlClose) != "none" by {
      assert |open + x + UrlClose| >= 8;
    }
  }

  /**
   * A gradient in any accepted spelling, `-moz-LINEAR-GRADIENT(x)` say, is
   * whatever `parseLinearGradient` makes of `x`, and no background when that
   * is nothing: such a value is never taken for a url.
   */
  lemma ParseSpelledGradient(prefix: string, open: string, x: string)
    requires VendorPrefix(prefix) && CiEquals(open, GradientOpen)
    requires |x| > 0 && NoLineTerminator(x)
    ensures ParseBackgroundImage(prefix + open + x + ")")
            == (match ParseLinearGradient(x) case Some(g) => LinearGradient(g) case None => NoBackground)
  {
    var v := prefix + open + x + ")";
    GradientArgumentOfSpelling(prefix, open, x);
    assert v[0] == '-' || AsciiUpper(v[0]) == 'L' by {
      if prefix == "" { assert v[0] == open[0]; } else { assert v[0] == prefix[0]; }
    }
    assert v != "none" by { assert "none"[0] == 'n'; }
    assert UrlArgument(v).None? by {
      if |v| >= |UrlOpen| + 1 + |UrlClose| { NotCiAt(v[..|UrlOpen|], UrlOpen, 0); }
    }
  }

  /** `linear-gradient(x)` is whatever `parseLinearGradient` makes of `x`, and no background when that is nothing. */
  lemma ParseGradientText(x: string)
    requires |x| > 0 && NoLineTerminator(x)
    ensures ParseBackgroundImage(GradientOpen + x + ")")
            == (match ParseLinearGradient(x) case Some(g) => LinearGradient(g) case None => NoBackground)
  {
    var v := GradientOpen + x + ")";
    GradientArgumentOfGradient(x);
    assert v[0] == 'l';
    assert UrlArgument(v).None? by {
      if |v| >= |UrlOpen| + 1 + |UrlClose| { assert v[..|UrlOpen|][0] == 'l'; }
    }
  }

  /**
   * A gradient argument without a splitting comma is one part, and a
   * gradient of fewer than two parts is no background: never a gradient
   * without a value.
   */
  lemma ShortGradientIsNoBackground(x: string)
    requires |x| > 0 && NoLineTerminator(x)
    requires CountSplits(x, 0) == 0
    ensures ParseBackgroundImage(GradientOpen + x + ")") == NoBackground
  {
    RawPartsCountAndJoin(x);
    ParseGradientText(x);
  }

  // ---------------------------------------------------------------------
  // Rendering a gradient back, and reading it again
  // ---------------------------------------------------------------------

  /**
   * A part the splitter leaves whole and after which the flag is clear:
   * every comma in it is under an open `(`, and it does not end inside one.
   */
  predicate Balanced(p: string) {
    && !SkipComma(p)
    && (forall q :: 0 <= q < |p| ==> CommaGuarded(p, q))
  }

  /** The comma at `q`, if there is one, is under an open `(`. */
  predicate CommaGuarded(p: string, q: nat)
    requires q < |p|
  {
    p[q] == ',' ==> SkipComma(p[..q])
  }

  lemma {:induction false} SkipCommaAfterClear(x: string, y: string)
    requires !SkipComma(x)
    ensures SkipComma(x + y) == SkipComma(y)
    decreases |y|
  {
    if |y| == 0 {
      assert x + y == x;
    } else {
      assert (x + y)[..|x + y| - 1] == x + y[..|y| - 1];
      SkipCommaAfterClear(x, y[..|y| - 1]);
    }
  }

  /** A space in front of a balanced part keeps it balanced. */
  lemma BalancedAfterSpace(p: string)
    requires Balanced(p)
    ensures Balanced(" " + p)
  {
    SkipCommaAfterClear(" ", p);
    forall q | 0 <= q < |" " + p| ensures CommaGuarded(" " + p, q) {
      if q > 0 {
        assert CommaGuarded(p, q - 1);
        assert (" " + p)[q] == p[q - 1];
        assert (" " + p)[..q] == " " + p[..q - 1];
        SkipCommaAfterClear(" ", p[..q - 1]);
      }
    }
  }

  /** A balanced part after a clear flag holds no splitting comma and leaves the flag clear. */
  lemma {:induction false} BalancedPartWhole(pre: string, p: string, tail: string)
    requires !SkipComma(pre) && Balanced(p)
    ensures forall j :: |pre| <= j < |pre| + |p| ==> !IsSplitComma(pre + p + tail, j)
    ensures !SkipComma(pre + p)
  {
    var v := pre + p + tail;
    forall j | |pre| <= j < |pre| + |p| ensures !IsSplitComma(v, j) {
      var q := j - |pre|;
      assert CommaGuarded(p, q);
      assert v[..j] == pre + p[..q];
      assert v[j] == p[q];
      SkipCommaAfterClear(pre, p[..q]);
    }
    SkipCommaAfterClear(pre, p);
  }

  /** The segments when the first splitting comma from `from` is at `e`. */
  lemma SegmentsCut(v: string, from: nat, e: nat)
    requires from <= e < |v| && IsSplitComma(v, e)
    requires forall j :: from <= j < e ==> !IsSplitComma(v, j)
    ensures Segments(v, from) == [v[from..e]] + Segments(v, e + 1)
  {
    assert NextSplit(v, from) == e;
  }

  /** The segments when no splitting comma follows `from`. */
  lemma SegmentsWhole(v: string, from: nat)
    requires from <= |v|
    requires forall j :: from <= j < |v| ==> !IsSplitComma(v, j)
    ensures Segments(v, from) == [v[from..]]
  {
    assert NextSplit(v, from) == |v|;
  }

  /** A balanced first part followed by a comma is cut off whole. */
  lemma FirstPartCut(pre: string, p: string, tail: string)
    requires !SkipComma(pre) && Balanced(p) && |tail| > 0 && tail[0] == ','
    ensures Segments(pre + p + tail, |pre|) == [p] + Segments(pre + p + tail, |pre| + |p| + 1)
  {
    var v := pre + p + tail;
    var e := |pre| + |p|;
    BalancedPartWhole(pre, p, tail);
    assert v[..e] == pre + p;
    assert v[e] == tail[0];
    SegmentsCut(v, |pre|, e);
    assert v[|pre|..e] == p;
  }

  /** A balanced last part is one segment. */
  lemma LastPartWhole(pre: string, p: string)
    requires !SkipComma(pre) && Balanced(p)
    ensures Segments(pre + p, |pre|) == [p]
  {
    assert pre + p == pre + p + "";
    BalancedPartWhole(pre, p, "");
    SegmentsWhole(pre + p, |pre|);
    assert (pre + p)[|pre|..] == p;
  }

  lemma {:induction false} SegmentsOfJoin(pre: string, ps: seq<string>)
    requires |ps| >= 1
    requires !SkipComma(pre)
    requires forall k :: 0 <= k < |ps| ==> Balanced(ps[k])
    ensures Segments(pre + Join(ps, ','), |pre|) == ps
    decreases |ps|
  {
    var p := ps[0];
    assert Balanced(p);
    if |ps| == 1 {
      assert Join(ps, ',') == p;
      LastPartWhole(pre, p);
    } else {
      var rest := ps[1..];
      var tail := [','] + Join(rest, ',');
      assert pre + Join(ps, ',') == pre + p + tail;
      FirstPartCut(pre, p, tail);
      var pre' := pre + p + [','];
      assert pre + p + tail == pre' + Join(rest, ',');
      assert !SkipComma(pre') by {
        SkipCommaAfterClear(pre, p);
        assert pre'[..|pre'| - 1] == pre + p;
      }
      assert forall k :: 0 <= k < |rest| ==> Balanced(rest[k]) by {
        assert forall k :: 0 <= k < |rest| ==> rest[k] == ps[k + 1];
      }
      SegmentsOfJoin(pre', rest);
    }
  }

  /** Balanced parts joined with commas are split back into the same parts, each then trimmed. */
  lemma ArgumentPartsOfJoin(ps: seq<string>)
    requires |ps| >= 1 && |Join(ps, ',')| > 0
    requires forall k :: 0 <= k < |ps| ==> Balanced(ps[k])
    ensures |ArgumentParts(Join(ps, ','))| == |ps|
    ensures forall k :: 0 <= k < |ps| ==> ArgumentParts(Join(ps, ','))[k] == Trim(ps[k])
  {
    SegmentsOfJoin("", ps);
    assert "" + Join(ps, ',') == Join(ps, ',');
  }

  lemma {:induction false} JoinNoLineTerminator(ps: seq<string>)
    requires forall k :: 0 <= k < |ps| ==> NoLineTerminator(ps[k])
    ensures NoLineTerminator(Join(ps, ','))
  {
    if |ps| > 1 {
      JoinNoLineTerminator(ps[1..]);
    }
  }

  /** The text of a gradient: `linear-gradient(angle, stop, ...)`. */
  function RenderGradient(g: Gradient): string {
    GradientOpen + Join([g.angle] + Spaced(g.stops), ',') + ")"
  }

  /** Each stop preceded by the space a browser writes after a comma. */
  function Spaced(stops: seq<string>): (r: seq<string>)
    ensures |r| == |stops|
    ensures forall k :: 0 <= k < |r| ==> r[k] == " " + stops[k]
  {
    seq(|stops|, k requires 0 <= k < |stops| => " " + stops[k])
  }

  /** A part as the splitter should give it back: balanced, trimmed and on one line. */
  predicate CleanPart(p: string) {
    && Balanced(p) && NoLineTerminator(p)
    && (|p| == 0 || (!IsWhitespace(p[0]) && !IsWhitespace(p[|p| - 1])))
  }

  /** A clean part after a space is balanced, on one line, and trims back to itself. */
  lemma SpacedCleanPart(p: string)
    requires CleanPart(p)
    ensures Balanced(" " + p) && NoLineTerminator(" " + p) && Trim(" " + p) == p
  {
    BalancedAfterSpace(p);
    TrimAfterSpace(p);
    NoLineTerminatorAfterSpace(p);
  }

  /** The parts of a rendered gradient's argument are its angle and its stops. */
  lemma RenderedParts(g: Gradient)
    requires |g.angle| > 0
    requires CleanPart(g.angle)
    requires forall k :: 0 <= k < |g.stops| ==> CleanPart(g.stops[k])
    ensures var x := Join([g.angle] + Spaced(g.stops), ',');
            |x| > 0 && NoLineTerminator(x) && ArgumentParts(x) == [g.angle] + g.stops
  {
    var ps := [g.angle] + Spaced(g.stops);
    var want := [g.angle] + g.stops;
    var x := Join(ps, ',');
    assert |x| > 0 by {
      if |ps| > 1 { JoinAppend([g.angle], ps[1..], ','); assert [g.angle] + ps[1..] == ps; }
    }
    assert NoLineTerminator(x) && |ArgumentParts(x)| == |ps|
           && forall k :: 0 <= k < |ps| ==> ArgumentParts(x)[k] == Trim(ps[k]) by {
      SpacedPartsBalanced(g);
      JoinNoLineTerminator(ps);
      ArgumentPartsOfJoin(ps);
    }
    SpacedPartsTrimmed(g);
    TrimmedPartsAre(ArgumentParts(x), ps, want);
  }

  /** Parts that are the trimmed `ps`, when `ps` trim to `want`, are `want`. */
  lemma TrimmedPartsAre(parts: seq<string>, ps: seq<string>, want: seq<string>)
    requires |parts| == |ps| == |want|
    requires forall k :: 0 <= k < |ps| ==> parts[k] == Trim(ps[k])
    requires forall k :: 0 <= k < |ps| ==> Trim(ps[k]) == want[k]
    ensures parts == want
  {
  }

  /** The rendered parts are balanced and on one line. */
  lemma SpacedPartsBalanced(g: Gradient)
    requires CleanPart(g.angle)
    requires forall k :: 0 <= k < |g.stops| ==> CleanPart(g.stops[k])
    ensures var ps := [g.angle] + Spaced(g.stops);
            forall k :: 0 <= k < |ps| ==> Balanced(ps[k]) && NoLineTerminator(ps[k])
  {
    var ps := [g.angle] + Spaced(g.stops);
    forall k | 0 <= k < |ps| ensures Balanced(ps[k]) && NoLineTerminator(ps[k]) {
      if k > 0 {
        assert ps[k] == " " + g.stops[k - 1];
        SpacedCleanPart(g.stops[k - 1]);
      }
    }
  }

  /** The rendered parts trim back to the angle and the stops. */
  lemma SpacedPartsTrimmed(g: Gradient)
    requires CleanPart(g.angle)
    requires forall k :: 0 <= k < |g.stops| ==> CleanPart(g.stops[k])
    ensures var ps := [g.angle] + Spaced(g.stops);
            forall k :: 0 <= k < |ps| ==> Trim(ps[k]) == ([g.angle] + g.stops)[k]
  {
    var ps := [g.angle] + Spaced(g.stops);
    var want := [g.angle] + g.stops;
    forall k | 0 <= k < |ps| ensures Trim(ps[k]) == want[k] {
      if k == 0 {
        TrimAfterSpace(g.angle);
      } else {
        assert ps[k] == " " + g.stops[k - 1] && want[k] == g.stops[k - 1];
        TrimAfterSpace(g.stops[k - 1]);
      }
    }
  }

  /**
   * Round trip: a gradient with an explicit angle and at least two stops,
   * each part clean, is read back as itself. (With one stop the reading is
   * different: two parts mean two stops under the default angle.)
   */
  lemma GradientRoundTrip(g: Gradient)
    requires |g.stops| >= 2 && |g.angle| > 0
    requires CleanPart(g.angle)
    requires forall k :: 0 <= k < |g.stops| ==> CleanPart(g.stops[k])
    ensures ParseBackgroundImage(RenderGradient(g)) == LinearGradient(g)
  {
    var x := Join([g.angle] + Spaced(g.stops), ',');
    RenderedParts(g);
    assert ParseLinearGradient(x) == Some(g);
    ParseGradientText(x);
  }

  /**
   * A gradient of one angle and one stop does not survive the round trip:
   * its two parts are read as two stops under the default angle. This is
   * also how a two-stop gradient without an angle, `linear-gradient(a, b)`,
   * is read.
   */
  lemma TwoPartsReadAsTwoStops(a: string, b: string)
    requires |a| > 0 && CleanPart(a) && CleanPart(b)
    ensures ParseBackgroundImage(RenderGradient(Gradient(a, [b])))
            == LinearGradient(Gradient(DefaultAngle, [a, b]))
  {
    var x := Join([a] + Spaced([b]), ',');
    RenderedParts(Gradient(a, [b]));
    assert ParseLinearGradient(x) == Some(Gradient(DefaultAngle, [a, b]));
    ParseGradientText(x);
  }

  // ---------------------------------------------------------------------
  // parseBackgroundSize / parseBackgroundPosition
  // ---------------------------------------------------------------------

  /**
   * The numbers among the tokens, in token order: each token loses its
   * first `px` and is kept when `parseFloat` gives a number.
   */
  function NumericTokens(parseFloat: string -> Option<real>, tokens: seq<string>): seq<real> {
    if |tokens| == 0 then []
    else
      var rest := NumericTokens(parseFloat, tokens[1..]);
      match parseFloat(RemoveFirst(tokens[0], "px"))
      case Some(x) => [x] + rest
      case None => rest
  }

  /** Keeping numeric tokens distributes over concatenation, so their order is the tokens' order. */
  lemma {:induction false} NumericTokensAppend(parseFloat: string -> Option<real>, a: seq<string>, b: seq<string>)
    ensures NumericTokens(parseFloat, a + b) == NumericTokens(parseFloat, a) + NumericTokens(parseFloat, b)
  {
    if |a| > 0 {
      assert (a + b)[0] == a[0];
      assert (a + b)[1..] == a[1..] + b;
      NumericTokensAppend(parseFloat, a[1..], b);
      match parseFloat(RemoveFirst(a[0], "px"))
      case Some(x) => assert NumericTokens(parseFloat, a + b) == [x] + NumericTokens(parseFloat, a[1..] + b);
      case None =>
    } else {
      assert a + b == b;
    }
  }

  /** The numbers of a value split on single spaces. */
  function Numbers(parseFloat: string -> Option<real>, value: string): seq<real> {
    NumericTokens(parseFloat, Split(value, ' '))
  }

  /** `parseBackgroundSize`: exactly two numbers, width then height. */
  function ParseBackgroundSize(parseFloat: string -> Option<real>, value: string): (r: BackgroundSize)
    ensures r.SizeParsed? <==> |Numbers(parseFloat, value)| == 2
    ensures r.SizeParsed? ==> Numbers(parseFloat, value) == [r.width, r.height]
  {
    var sizes := Numbers(parseFloat, value);
    if |sizes| != 2 then NoSize else SizeParsed(sizes[0], sizes[1])
  }

  /** `parseBackgroundPosition`: exactly two numbers, left then top. */
  function ParseBackgroundPosition(parseFloat: string -> Option<real>, value: string): (r: BackgroundPosition)
    ensures r.PositionParsed? <==> |Numbers(parseFloat, value)| == 2
    ensures r.PositionParsed? ==> Numbers(parseFloat, value) == [r.left, r.top]
  {
    var sizes := Numbers(parseFloat, value);
    if |sizes| != 2 then NoPosition else PositionParsed(sizes[0], sizes[1])
  }

  /** A number written without spaces or `px`, followed by `px`, is read back as that number. */
  predicate WritesNumber(parseFloat: string -> Option<real>, s: string, x: real) {
    ' ' !in s && FirstOccurrence(s, "px").None? && parseFloat(s) == Some(x)
  }

  lemma PxTokenIsNumber(parseFloat: string -> Option<real>, s: string, x: real)
    requires WritesNumber(parseFloat, s, x)
    ensures NumericTokens(parseFloat, [s + "px"]) == [x]
  {
    var t := s + "px";
    assert OccursAt(t, "px", |s|) by {
      assert t[|s|..] == "px";
      assert t[|s|..|s| + 2] == t[|s|..];
    }
    forall j | 0 <= j < |s| ensures !OccursAt(t, "px", j) {
      if j + 1 < |s| {
        assert t[j..j + 2] == s[j..j + 2];
        assert !OccursAt(s, "px", j);
      } else {
        assert t[j..j + 2][1] == 'p';
      }
    }
    assert FirstOccurrence(t, "px") == Some(|s|);
    assert RemoveFirst(t, "px") == s;
    assert [t][1..] == [];
  }

  /** Round trip: `"<w>px <h>px"` is the size `w` by `h`. */
  lemma SizeRoundTrip(parseFloat: string -> Option<real>, ws: string, w: real, hs: string, h: real)
    requires WritesNumber(parseFloat, ws, w) && WritesNumber(parseFloat, hs, h)
    ensures ParseBackgroundSize(parseFloat, ws + "px " + hs + "px") == SizeParsed(w, h)
    ensures ParseBackgroundPosition(parseFloat, ws + "px " + hs + "px") == PositionParsed(w, h)
  {
    var a, b := ws + "px", hs + "px";
    assert ws + "px " + hs + "px" == Join([a, b], ' ');
    SplitJoin([a, b], ' ');
    PxTokenIsNumber(parseFloat, ws, w);
    PxTokenIsNumber(parseFloat, hs, h);
    NumericTokensAppend(parseFloat, [a], [b]);
    assert [a, b] == [a] + [b];
  }

  /** A single keyword such as `cover` that is not a number gives no size and no position. */
  lemma KeywordIsNotParsed(parseFloat: string -> Option<real>, keyword: string)
    requires ' ' !in keyword
    requires parseFloat(RemoveFirst(keyword, "px")).None?
    ensures ParseBackgroundSize(parseFloat, keyword) == NoSize
    ensures ParseBackgroundPosition(parseFloat, keyword) == NoPosition
  {
    assert Split(keyword, ' ') == [keyword];
    assert [keyword][1..] == [];
    assert NumericTokens(parseFloat, [keyword]) == [];
    assert Numbers(parseFloat, keyword) == [];
  }
}
