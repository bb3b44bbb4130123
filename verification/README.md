# dom-to-svg, modelled in Dafny

dom-to-svg turns a rendered DOM tree into an SVG document. This project models its core:

- **The converter** (`domToSvg`). It walks the tree once and threads one context: the svg root, the defs element, and the current parent element (the cursor). Elements become groups, with a painted box for each visible rect. The box has:
  - a background rect;
  - border lines;
  - patterns for background images and linear gradients, which go in defs.
- **Images.** An `img` element becomes an image leaf.
- **Text.** A text node becomes a text block with one span per visual line.
- **The CSS parsers** that the painting relies on: `parseBackgroundImage`, `parseLinearGradient`, `parseBackgroundSize` and `parseBackgroundPosition`.
- **The two leaf matchers**, `matchText` and `matchElement`.

The input is an immutable tree (`Dom.Node`) whose styles and layout boxes the browser has already resolved. The browser services the converter calls become the parameters in `Dom.Env`:

- `parseFloat`;
- the box of a character range of a text node;
- the rasterisation of an image.

The output is a flat list of emitted nodes (`SvgTree.Emitted`). Each entry names its parent by position in the list. A node's children, in order, are the later entries that name it. This matches what the source's `appendChild` calls produce for each parent. The converter's context is `Converter.Ctx`:

- `svg`, `defs` and `cursor`, as positions in the list;
- the list itself;
- a counter that stands for `uuidv4`.

Modules:

- `Options`: the option type.
- `JsStrings`: the JavaScript string operations the code uses:
  - `split(" ")` and `trim`;
  - replacing the first `px`, and stripping a final `px`;
  - ASCII `toLowerCase`.
- `BackgroundImage`: `src/parse-background-image.ts`.
- `Dom`: the input tree and the browser services.
- `TextLines`: `getLines`, `getLineHeight` and `cssValueToNumber`.
- `SvgTree`: the emitted list and its well-formedness: parents first, ids fresh and unique, every `url(#…)` declared earlier.
- `Converter`: `domToSvg` and `walk`.
- `ConverterProperties`: what the conversion guarantees.
- `Matchers`: `src/match-text.ts` and `src/match-element.ts`.

Several behaviours of the code are cruder than one might expect; the model follows the code:

- **Commas in gradient arguments.** The gradient splitter keeps a boolean `skipComma` flag, not a nesting depth. So in `a(b(c),d),e` the comma before `d` splits, because the inner `)` already cleared the flag (`BackgroundImage.SkipComma`).
- **The cursor.** `context.element` is set to each new group and is never restored. Every later sibling, cousin or text block therefore hangs under the group emitted most recently, not under its DOM parent. `ConverterProperties.CursorNeverRestored` states the resulting nesting for any input. `ConverterProperties.SiblingNestsInPrevious` shows it on two siblings.
- **The visibility test.** The skip guard compares `getPropertyPriority("visibility")` with `"hidden"`. That is the priority of the declaration (`""` or `"important"`), so a `visibility: hidden` element is not skipped. `Dom.Style.visibilityPriority` models that priority.
- **The background fill of a gradient.** The background rect of a gradient is filled with the gradient's id (`linear-graident-…`, spelled as in the code), not with the pattern built around it.
- **Word positions in `getLines`.** The start index of word `k` is the sum of the lengths of the earlier words, without the separating spaces. So from the second word on, the requested range starts `k` characters early:
  - `TextLines.WordStartDrift` states this in general;
  - `TextLines.DriftExample` shows it for `"Hello World"`: the range of `World` covers `" Worl"`.

  The model keeps this as written.

## Model

| member | source | states |
|---|---|---|
| JsStrings.Trim | src/parse-background-image.ts:150 | `trim` removes only whitespace and line terminators, and only at the two ends: the result is an infix of the input, and neither end of a non-empty result is whitespace |
| JsStrings.TrimEmptyIffBlank | src/match-text.ts:12 | a string trims to `""` exactly when every character of it is whitespace |
| JsStrings.Split | src/dom-to-svg.ts:347 | `split(" ")` gives at least one part, no part contains a space, and joining the parts with single spaces gives back the string |
| JsStrings.SplitJoin | src/dom-to-svg.ts:345-347 | splitting the space-join of space-free parts gives back exactly those parts |
| JsStrings.RemoveFirst | src/parse-background-image.ts:102 | `replace("px", "")` cuts out the first occurrence of `px`: the result is two characters shorter, and putting `px` back at the cut gives the input; without an occurrence the string is unchanged |
| JsStrings.RemoveFirstAt | src/parse-background-image.ts:102 | stated without the search: when the pattern occurs at `i` and nowhere earlier, the result is the input with the pattern cut out at `i` |
| JsStrings.RemoveSuffix | src/dom-to-svg.ts:368 | `replace(/px$/, "")` removes a final `px` only: the result plus `px` is the input, otherwise the input is unchanged |
| JsStrings.AsciiLower | src/dom-to-svg.ts:71 | lower-casing keeps the string equal to the input ignoring ASCII case, leaves no upper-case ASCII letter, and changes no other character |
| JsStrings.AsciiLowerCanonical | src/dom-to-svg.ts:71 | two strings are equal ignoring ASCII case exactly when their lower-cased forms are equal, both directions |
| BackgroundImage.UrlArgument | src/parse-background-image.ts:69 | the capture of `^url\("(.+)"\)$` with `/i`: a non-empty text without line terminators between a case-insensitive `url("` and a final `")` |
| BackgroundImage.UrlArgumentOfUrl | src/parse-background-image.ts:69-77 | `url("x")`, with `url(` in any ASCII case, is recognised and captures exactly `x` |
| BackgroundImage.GradientArgument | src/parse-background-image.ts:70 | the capture of `^(?:-webkit-\|-moz-\|-ms-)?linear-gradient\((.+)\)$` with `/i`: a non-empty text without line terminators, closed by the final `)`, preceded by a case-insensitive `linear-gradient(`, before which there is nothing or exactly one of the three vendor prefixes |
| BackgroundImage.GradientArgumentOfGradient | src/parse-background-image.ts:70-80 | `linear-gradient(x)` is recognised and captures exactly `x` |
| BackgroundImage.GradientArgumentOfSpelling | src/parse-background-image.ts:70 | conversely, any accepted vendor prefix (or none), then `linear-gradient(` in any ASCII case, then `x` and `)`, is recognised and captures exactly `x` |
| BackgroundImage.SplitLoopCutsAtSplitCommas | src/parse-background-image.ts:140-160 | the `while` loop, run from any position, pushes exactly the runs between commas that come while the flag is clear |
| BackgroundImage.RawParts | src/parse-background-image.ts:133-160 | the splitter pushes nothing for an empty argument; otherwise it pushes the segments between splitting commas |
| BackgroundImage.SegmentsCountAndJoin | src/parse-background-image.ts:140-160 | the number of segments is the number of splitting commas plus one, and joining them with `,` gives back the input, so every other character lands in order in exactly one part |
| BackgroundImage.RawPartsCountAndJoin | src/parse-background-image.ts:140-160 | for a non-empty argument: parts = splitting commas + 1, and the parts joined with `,` are the argument |
| BackgroundImage.ArgumentParts | src/parse-background-image.ts:133-160 | no parts for an empty argument; otherwise one more part than there are splitting commas, part `k` being the `k`-th run between splitting commas with its ends trimmed |
| BackgroundImage.GradientOfParts | src/parse-background-image.ts:162-178 | two parts give two stops under `180deg`; more parts give the first as angle and the rest as stops (count = parts − 1); fewer give no gradient; a gradient always has ≥ 2 stops |
| BackgroundImage.ParseBackgroundImage | src/parse-background-image.ts:62-97 | `none` gives no background. The url form is an image and is tried before the gradient form. The result is a gradient exactly when the value is not `none`, the url form fails, the gradient form matches and its argument parses, and then it is that parsed gradient |
| BackgroundImage.ParseUrl | src/parse-background-image.ts:69-77 | `url("x")`, with `url(` in any ASCII case and `x` non-empty and on one line, is the image `x` |
| BackgroundImage.ParseGradientText | src/parse-background-image.ts:78-92 | `linear-gradient(x)` is the gradient that `parseLinearGradient` makes of `x`, and no background when that is undefined |
| BackgroundImage.ParseSpelledGradient | src/parse-background-image.ts:69-92 | the same for every accepted spelling, such as `-moz-LINEAR-GRADIENT(x)`: it is never taken for a url |
| BackgroundImage.ShortGradientIsNoBackground | src/parse-background-image.ts:82-91 | an argument without a splitting comma gives no background, never a gradient without a value |
| BackgroundImage.ArgumentPartsOfJoin | src/parse-background-image.ts:140-160 | balanced parts joined with commas split back into the same parts, each trimmed |
| BackgroundImage.RenderedParts | src/parse-background-image.ts:140-160 | the argument of a rendered gradient splits into its angle and its stops |
| BackgroundImage.GradientRoundTrip | src/parse-background-image.ts:62-176 | a gradient with an explicit angle and at least two clean stops survives rendering and parsing |
| BackgroundImage.TwoPartsReadAsTwoStops | src/parse-background-image.ts:162-167 | two parts read as two stops under `180deg`, so a one-stop gradient with an angle is not read back as itself |
| BackgroundImage.NumericTokensAppend | src/parse-background-image.ts:100-104 | keeping the tokens that parse distributes over concatenation, so the numbers come in token order |
| BackgroundImage.ParseBackgroundSize | src/parse-background-image.ts:99-114 | the size is parsed exactly when exactly two tokens parse as numbers, and then width and height are those numbers in token order |
| BackgroundImage.ParseBackgroundPosition | src/parse-background-image.ts:116-131 | the position is parsed exactly when exactly two tokens parse as numbers, and then left and top are those numbers in token order |
| BackgroundImage.PxTokenIsNumber | src/parse-background-image.ts:102-103 | a token `<n>px` loses exactly the `px` and reads as `n` |
| BackgroundImage.SizeRoundTrip | src/parse-background-image.ts:99-131 | `"<w>px <h>px"` is the size `w`×`h` and the position (`w`, `h`) |
| BackgroundImage.KeywordIsNotParsed | src/parse-background-image.ts:106-110 | a single non-numeric keyword such as `cover` gives neither size nor position |
| TextLines.Leader | src/dom-to-svg.ts:355-361 | the word that opened the line of word `k` is at or before `k` |
| TextLines.PlaceOpens | src/dom-to-svg.ts:357-358 | with no line yet, or a word strictly lower than the last line, a new line is pushed holding only that word and its box |
| TextLines.PlaceExtends | src/dom-to-svg.ts:359-361 | otherwise the last line gets `" " + word` appended and keeps its box; earlier lines are untouched |
| TextLines.GroupCountAndBox | src/dom-to-svg.ts:345-362 | the number of lines is the number of line breaks plus one, and the last line's box is the box of the word that opened it |
| TextLines.GroupFront | src/dom-to-svg.ts:345-362 | the lines before the last are exactly the grouping of the words before the last line's first word |
| TextLines.GroupStep | src/dom-to-svg.ts:357-361 | each further word either opens a new line (strictly lower) or extends the last one |
| TextLines.GroupLastText | src/dom-to-svg.ts:355-361 | the last line's text is its words joined by single spaces |
| TextLines.GroupKeepsText | src/dom-to-svg.ts:345-362 | the line texts joined with single spaces are the words joined with single spaces |
| TextLines.PlaceKeepsText | src/dom-to-svg.ts:357-361 | placing one word adds exactly `" " + word` to the joined text |
| TextLines.PlaceKeepsTopsIncreasing | src/dom-to-svg.ts:357 | placing a word keeps line tops strictly increasing |
| TextLines.GroupTopsIncrease | src/dom-to-svg.ts:345-362 | the lines' tops strictly increase down the list |
| TextLines.GetLinesKeepsText | src/dom-to-svg.ts:337-365 | `getLines` gives at least one line, the line texts joined by single spaces are the node's text, and the lines run strictly downwards |
| TextLines.GroupLineBox | src/dom-to-svg.ts:353-361 | each line's box is the box of its first word |
| TextLines.GetLinesBoxes | src/dom-to-svg.ts:349-361 | the line of word `k` has as box the range box of the word that opened it, at that word's (drifted) start |
| TextLines.PlaceFreezes | src/dom-to-svg.ts:355-361 | placing a word never changes an earlier line, and never changes the box of the last line |
| TextLines.LinesFreeze | src/dom-to-svg.ts:345-362 | once a line exists, its box never changes and only the last line's text can grow: no line is ever widened |
| TextLines.WordStartDrift | src/dom-to-svg.ts:349-352 | word `k` really starts at `WordStart + k` in the text, so the range `getLines` asks the box of (from `WordStart`, as `WordRects` builds it) starts `k` characters early |
| TextLines.DriftExample | src/dom-to-svg.ts:338-352 | for `"Hello World"` the range asked for `World` is `" Worl"` |
| TextLines.LineHeightOfPixels | src/dom-to-svg.ts:321-330 | a `<x>px` line height is `x`, and `normal` with a `<x>px` font size is `1.61·x` |
| TextLines.CssValueKeepsInnerPx | src/dom-to-svg.ts:367-369 | a value not ending in `px` is passed to `parseFloat` unchanged |
| SvgTree.AppendWellFormed | src/dom-to-svg.ts:139-214 | appending nodes whose parents come first, whose ids are fresh and distinct, and whose `url(#…)` targets are declared earlier keeps the document well-formed |
| Converter.CreateSvg | src/dom-to-svg.ts:29-57 | exactly two nodes are appended: the svg root at the top, sized by the element's client width and height, then the white page background of the same size under it |
| Converter.CreateDefs | src/dom-to-svg.ts:59-62 | exactly one node is appended: the defs element, under the svg |
| Converter.Prepare | src/dom-to-svg.ts:29-64 | after set-up, svg, defs and cursor exist and the output only grew; a context that already has them is returned unchanged |
| Converter.Convert | src/dom-to-svg.ts:26-312 | every conversion keeps the document well-formed, ends with svg, defs and cursor set, and only appends |
| Converter.VisitElement | src/dom-to-svg.ts:67-279 | the element case keeps the document well-formed and only appends |
| Converter.OpenElement | src/dom-to-svg.ts:103-274 | a visible non-image element appends its group under the cursor first and makes it the cursor; more nodes follow exactly when its rect has positive width and height |
| Converter.Walk | src/dom-to-svg.ts:314-319 | converting the remaining children keeps the document well-formed and only appends |
| Converter.Paint | src/dom-to-svg.ts:112-274 | painting a box keeps the document well-formed and leaves the cursor at the group |
| Converter.PaintParsed | src/dom-to-svg.ts:121-273 | as `Paint`, for already parsed background values |
| Converter.ImagePattern | src/dom-to-svg.ts:134-157 | a fresh id is used exactly when image, size and position all parsed; then the first node added is the pattern declaring that id, and otherwise nothing changes |
| Converter.GradientPattern | src/dom-to-svg.ts:159-215 | a fresh id is used exactly when the image is a linear gradient; then the first node added is the gradient declaring that id, and otherwise nothing changes |
| Converter.StopNodes | src/dom-to-svg.ts:182-189 | one stop per colour, in order, under the gradient; the first at offset 0, the offsets strictly increasing and below 100 |
| Converter.StopOffsetsSpread | src/dom-to-svg.ts:182-189 | stop offsets start at 0, strictly increase by `100/n` and stay below 100 |
| Converter.GradientItems | src/dom-to-svg.ts:162-213 | in defs, the gradient comes first, with its stops in order under it; then the pattern, whose one tile is filled with the gradient; both ids share one uid |
| Converter.GradientItemsAppendable | src/dom-to-svg.ts:162-214 | the gradient entries declare fresh distinct ids and only reference the gradient declared before them |
| Converter.Borders | src/dom-to-svg.ts:217-271 | every border line hangs under the element's group |
| Converter.SpanNodes | src/dom-to-svg.ts:299-305 | one span per line, in order, under the text block, with the line's text and left edge; the baseline is NaN exactly when the line height is, and a lower line gets a lower baseline |
| Converter.VisitText | src/dom-to-svg.ts:280-308 | the text case keeps the document well-formed and only appends |
| Converter.DomToSvg | src/dom-to-svg.ts:26-64 | a conversion from scratch ends with svg, defs and cursor set, with the svg first |
| ConverterProperties.RootSetup | src/dom-to-svg.ts:29-62 | from scratch, the svg root comes first, sized by the client size. The white page background is its first child, and defs comes after the background |
| ConverterProperties.SetupOnlyOnce | src/dom-to-svg.ts:29-62 | a context with an svg and a defs gets neither again |
| ConverterProperties.HiddenEmitsNothing | src/dom-to-svg.ts:73-79 | a hidden element adds nothing beyond set-up, whatever its children |
| ConverterProperties.ImageIsLeaf | src/dom-to-svg.ts:81-101 | a visible `img` adds exactly one picture at its rect under the cursor, does not move the cursor, and its children are never visited |
| ConverterProperties.ElementLayout | src/dom-to-svg.ts:103-276 | a visible non-image element appends its group under the cursor and makes it the cursor; then, exactly when its rect has positive width and height, its painted box ending with the background rect under the group (a zero-size element is its group alone); then its children are walked from there |
| ConverterProperties.OrphanTextEmitsNothing | src/dom-to-svg.ts:280-285 | a text node without a parent element, and a comment, add nothing beyond set-up |
| ConverterProperties.TextLayout | src/dom-to-svg.ts:280-308 | a text node adds one text block under the cursor, then one span per line under the block. The spans' texts spell the node's text, and the cursor stays |
| ConverterProperties.SpanBaselinesIncrease | src/dom-to-svg.ts:299-305 | with a known line height, span baselines strictly increase |
| ConverterProperties.FillChoice | src/dom-to-svg.ts:121-214 | the fill is the pattern exactly when image, size and position parsed; it is the gradient exactly when the image is a gradient; otherwise it is the colour, or `rgba(0, 0, 0, 0)` when the colour is empty |
| ConverterProperties.PaintLayout | src/dom-to-svg.ts:112-273 | defs entries come first, then the borders, then exactly one background rect under the group, last. A `url(#…)` fill names the node just declared in defs |
| ConverterProperties.BorderNodes | src/dom-to-svg.ts:217-271 | reference: one line per listed side, in order |
| ConverterProperties.DrawShownCons | src/dom-to-svg.ts:217-271 | a side in front adds its line exactly when it is shown |
| ConverterProperties.BordersFollowShownSides | src/dom-to-svg.ts:217-271 | the border lines are exactly the lines of the shown sides, in top, right, bottom, left order |
| ConverterProperties.ShownSidesExactly | src/dom-to-svg.ts:217-262 | a side's line is drawn exactly when its colour is not `transparent` and its width is not `0px` |
| ConverterProperties.BordersTraceOutline | src/dom-to-svg.ts:221-270 | the four lines chain clockwise around the rect from its top-left corner, with each side's colour and width |
| ConverterProperties.ConvertTidy | src/dom-to-svg.ts:64-110 | conversion keeps the nesting invariant. Every group, picture and text block hangs under the most recent group, the cursor is that group, and there is one svg and one defs |
| ConverterProperties.CursorNeverRestored | src/dom-to-svg.ts:103-110 | in the whole output of a conversion, everything anchored hangs under the group emitted most recently before it |
| ConverterProperties.SiblingNestsInPrevious | src/dom-to-svg.ts:103-110 | the second of two sibling elements becomes a child of the first one's group |
| Matchers.MatchText | src/match-text.ts:9-22 | true exactly for a text node that is not all whitespace; then exactly one text element with the untrimmed content is appended; otherwise the svg is unchanged |
| Matchers.MatchElement | src/match-element.ts:9-22 | true exactly for an element; then exactly one rect holding the element's text content is appended; otherwise the svg is unchanged |
| Matchers.VisibleTextHasTextNode | src/match-element.ts:14 | an element whose text content is not blank has a text node below it that `matchText` accepts |
| Matchers.MatchersAppendAtMostOne | src/match-text.ts:12-19 | trying `matchText` then `matchElement` on a node appends at most one element and leaves the earlier ones alone; one is appended exactly when a matcher accepts, and it holds the node's text content |
| Matchers.HelloWorldMatches | src/match-text.test.ts:4-11 | the text node `Hello World` is accepted and appended as is |
| Matchers.BlankTextRefused | src/match-text.ts:12 | empty and whitespace-only text nodes are refused and the svg is unchanged |

## Left out

- **Attribute strings are not modelled.** These are the constant and formatted attributes:
  - the namespace attributes, and `viewBox` (`0 0 w h`), which is the same `w`, `h` as the size;
  - `data-id` and `data-background`;
  - `String(n)` formatting of numbers;
  - the `%` suffix of stop offsets.

  The emitted records hold the numbers and strings those attributes are built from. The constant ids are the `SvgTree` constants.
- **Floating point.** Sizes, positions, `1.61`, `100 / n` and `lineHeight / 2` are exact reals. `parseFloat` is an oracle that returns a real or `None` for NaN. Infinity and IEEE rounding are not represented.
- **`uuidv4`** is a counter in the context. Only the freshness and distinctness of ids are modelled, not their text.
- **Canvas rasterisation** of images (`drawImage`, `toDataURL`) is the oracle `Env.rasterize`. Its result is an opaque string.
- **Text measurement.** `getBoundingClientRect` of an element is the `rect` field. That of a word range is the oracle `Env.rangeRect`. Computed styles are the `Style` record.
- **Hidden elements.** The skip test also reads the element's box and style before it skips. Those reads have no effect, so the model drops them.
- **Node types.** A node is an element, a text node, or a comment. "Comment" stands for every other child kind; the converter's switch ignores it and the matchers refuse it. Document, doctype and CDATA nodes are not modelled.
- **Range text.** `Range.toString()` is taken to be the text node's content.
- **Lower-casing** uses ASCII rules only. `toLowerCase` on non-ASCII tag names is not modelled.
- **String length.** JavaScript strings are UTF-16 code units; strings here are sequences of characters, and lengths are counted in them.
- **`src/utils.ts` and the test files** are browser and bundling glue. Only the `matchText` test's example is restated, in `Matchers.HelloWorldMatches`.
- **The `./node` module** is not part of this model. Its node-type constants are the constructors of `Dom.Node`.
- **Mutation.** The matchers' `MatcherContext` and the mutation of the context record are replaced by returned values.
