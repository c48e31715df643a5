# Arc Text: a Dafny model of its path and attribute logic

The Arc Text component bends a text along a curve. It is a plug-in component for a website
design canvas. It draws an SVG `<path>` and binds a `<textPath>` to it by a DOM id. The path
has one of two sources:

- a procedural path for a circle or an ellipse (helper `f`);
- path data scraped from a connected vector graphic, with its `viewBox`.

The graphic arrives in one of two forms. On the editing canvas it is a live layer, which is
serialized and whose frame gives the `viewBox`. In preview and on the published site it is
a serialized SVG string.

This project models that decision logic and every helper it uses. Each piece is a pure
function over immutable datatypes:

| file | module | what it holds |
|---|---|---|
| `wrappers.dfy` | `Wrappers` | `Option`, standing for JavaScript's `undefined` |
| `jsstrings.dfy` | `JsStrings` | `indexOf`, `includes`, `split` with a non-empty separator, array indexing past the end, and `replace(/['"]+/g, "")` |
| `arcpath.dfy` | `ArcPath` | helper `f`. It builds SVG path data (section 8.3 of the SVG 1.1 specification) as `M`/`L`/`A` commands with real coordinates. |
| `svgattributes.dfy` | `SvgAttributes` | the global regex `[\w-]+="[^"]*"`, the value extractor `c`, the "last token containing `d=`" scan, and `viewBox` extraction from markup |
| `arctext.dfy` | `ArcText` | helper `m` (first child), the offset, the alignment-to-baseline map, the graphic branch and the full render decision |

Dafny cannot see the host framework, so the model takes these as inputs:

- the render target, as the boolean `canvas`;
- the slot children, as sequences;
- the output of `renderToString` for the connected layer, as the string `Layer.markup`;
- the frame's width and height, as already-formatted text;
- the string hash `@emotion/hash`, as a function parameter `hash`.

The procedural path is a command sequence, not a string. So the value hashed for the id is
the datatype `IdKey`. It holds either the scraped data or the command sequence.

A render has three possible outcomes: `Placeholder`, `Throws(failure)` or `Rendered(...)`.
The source does not handle errors. Where its code would throw a `TypeError`, the model
returns `Throws` with the reason.

The model follows the code in these places:

- **No tokens throws.** `str.match(/…/g)` returns `null` when nothing matches, and the
  `for … of` over that `null` throws. So markup without any `name="value"` token makes the
  component throw (`NoAttributes`). It does not just leave the path data undefined.
  Markup that has tokens, but none containing `d=`, does leave the path data undefined.
- **No `viewBox=` throws.** Published markup without `viewBox=` throws (`NoViewBox`). It
  does not just yield undefined data.
- **Missing first child throws.** On the canvas, a connected slot without a first child
  throws (`NoConnectedLayer`), because `o.props` is read on `undefined`.
- **Where the `viewBox` text ends.** `split("viewBox=")[1]` stops at a second `viewBox=` as
  well as at the first `>` (`SvgAttributes.MarkupViewBoxCut`).
- **When the outer quotes are stripped.** The quote-stripping regex uses `.`, which matches
  no line terminator. So quotes are stripped only when the text between them is non-empty
  and has no `\n`, `\r`, U+2028 or U+2029.
- **Other attributes are kept.** The extracted `viewBox` keeps any attributes written after
  it in the same tag. Only the segment's first and last quotes are removed
  (`SvgAttributes.ViewBoxFollowedByAttribute`).
- **`id` counts as path data.** An `id="…"` token contains `d=`, so it competes for the path
  data like the `d` attribute (`SvgAttributes.IdTokenQualifies`).
- **`c` stops at an inner `=`.** `c` keeps only the text up to a second `=` inside the value
  (`SvgAttributes.AttributeValueTruncates`).
- **Every other type gets offset zero.** Any type other than `"ellipse"` gets offset zero,
  including `"circle"` and `"graphic"`. The property control also gives the boolean `true` as
  the default for `type`; the source gives that offset zero as well, but the model types the
  property as a string and has no value for it.
- **An empty serialized string extracts nothing.** Outside the canvas, an empty serialized
  string is falsy. It extracts nothing: there is no path data and no `viewBox`.

## Model

| member | source | states |
|---|---|---|
| ArcPath.ArcPath | extcompimports/Smooth_Infinite_Scroll_Component_1_5_5.js:56 | `f(flip, t)` starts with `M 0 50`; every command's end point is on x = 0 or 100 and on the level 50−t, 50 or 50+t; every arc has radii 1 1 and rotation 0, with large-arc = flip and sweep = not flip |
| ArcPath.ArcPathShape | extcompimports/Smooth_Infinite_Scroll_Component_1_5_5.js:56 | the exact command letters and vertices: `MLALLAL` through (0,50),(0,50−t),(100,50−t),(100,50),(100,50+t),(0,50+t),(0,50−t) unflipped; `MLALAL` through (0,50),(0,50+t),(100,50+t),(100,50−t),(0,50−t),(0,50) flipped |
| ArcPath.UnflippedEnds | extcompimports/Smooth_Infinite_Scroll_Component_1_5_5.js:56 | the non-flipped path starts at (0,50) and ends at (0,50−t) |
| ArcPath.FlippedEnds | extcompimports/Smooth_Infinite_Scroll_Component_1_5_5.js:56 | the flipped path starts and ends at (0,50) |
| ArcPath.ClosedIff | extcompimports/Smooth_Infinite_Scroll_Component_1_5_5.js:56 | the path ends at its start point exactly when it is flipped or the offset is 0 |
| ArcPath.FlipInvertsArcFlags | extcompimports/Smooth_Infinite_Scroll_Component_1_5_5.js:56 | both paths have exactly two arcs, and for any two offsets the k-th arc of the flipped path has both flags negated relative to the non-flipped one |
| ArcPath.ArcsMembers | extcompimports/Smooth_Infinite_Scroll_Component_1_5_5.js:56 | a command is among the picked arcs exactly when it is an `A` command of the path |
| ArcPath.ArcsAppend | extcompimports/Smooth_Infinite_Scroll_Component_1_5_5.js:56 | collecting arcs distributes over concatenation of paths |
| ArcPath.SwapLevelsNegatesOffset | extcompimports/Smooth_Infinite_Scroll_Component_1_5_5.js:56 | mapping every end point's y to 100 − y in `f(flip, t)`, with the arc flags kept, gives `f(flip, −t)`: the two levels swap |
| ArcPath.LevelsSumTo100 | extcompimports/Smooth_Infinite_Scroll_Component_1_5_5.js:56 | the levels 50−t and 50+t sum to 100 and bracket 50 exactly when t ≥ 0 |
| ArcPath.ZeroOffsetFlat | extcompimports/Smooth_Infinite_Scroll_Component_1_5_5.js:56 | with offset 0 every command's end point lies on y = 50 (the arcs themselves bulge away from it) |
| ArcText.Offset | extcompimports/Smooth_Infinite_Scroll_Component_1_5_5.js:48 | the offset is half the cylinder height for `"ellipse"` and 0 for every other type |
| ArcText.OffsetLevels | extcompimports/Smooth_Infinite_Scroll_Component_1_5_5.js:48 | for any type the two levels sum to 100; both are 50 unless the type is `"ellipse"`, whose levels lie one cylinder height apart |
| ArcText.DominantBaseline | extcompimports/Smooth_Infinite_Scroll_Component_1_5_5.js:53 | `"top"`↔`"Text Top"`, `"center"`↔`"Central"`, `"bottom"`↔`"Hanging"` in both directions; undefined exactly for any other alignment |
| ArcText.FirstChild | extcompimports/Smooth_Infinite_Scroll_Component_1_5_5.js:56 | `m` gives undefined exactly when there are no children, and otherwise the first child |
| ArcText.FirstChildScan | extcompimports/Smooth_Infinite_Scroll_Component_1_5_5.js:56 | the loop of `m` (assign only while nothing is kept) returns the first child, or undefined for no children |
| ArcText.ExtractGraphic | extcompimports/Smooth_Infinite_Scroll_Component_1_5_5.js:49-52 | placeholder exactly on the canvas when the first child has no frame; throws for a missing first child exactly on the canvas; throws for a missing `viewBox=` exactly off the canvas with a non-empty string; scraped data always comes with a `viewBox` |
| ArcText.IdKeyOf | extcompimports/Smooth_Infinite_Scroll_Component_1_5_5.js:53 | `a \|\| V`: the scraped data is the key exactly when it is a defined non-empty string, otherwise the procedural path |
| ArcText.Render | extcompimports/Smooth_Infinite_Scroll_Component_1_5_5.js:47-55 | placeholder only on the canvas in graphic mode; throws only in graphic mode; the id starts with `curve-`; the path is procedural exactly outside graphic mode |
| ArcText.NoGraphicRendersProcedural | extcompimports/Smooth_Infinite_Scroll_Component_1_5_5.js:48-55 | without graphic mode the component always renders `f(flip, t)` in the `0 0 100 100` viewBox, with the id hashing that path |
| ArcText.UnconnectedGraphicIsProcedural | extcompimports/Smooth_Infinite_Scroll_Component_1_5_5.js:48 | graphic mode needs a connected slot as well as the `graphic` type: with no slot the render draws the procedural path in `0 0 100 100` |
| ArcText.PlaceholderIff | extcompimports/Smooth_Infinite_Scroll_Component_1_5_5.js:49-50 | the placeholder shows exactly on the canvas, in graphic mode, when the connected layer's first child has no frame |
| ArcText.ThrowsIff | extcompimports/Smooth_Infinite_Scroll_Component_1_5_5.js:49-52 | the render throws exactly in graphic mode when the canvas layer has no first child, or the markup to scrape lacks `viewBox=` (off the canvas) or has no attribute token |
| ArcText.GraphicRendersScrapedData | extcompimports/Smooth_Infinite_Scroll_Component_1_5_5.js:51-55 | a graphic-mode render draws the last `d=` token's data from the scraped markup, with the frame's `viewBox` on the canvas and the markup's `viewBox` elsewhere |
| ArcText.CanvasViewBoxFields | extcompimports/Smooth_Infinite_Scroll_Component_1_5_5.js:51 | the canvas `viewBox` is `0 0 width height`: for a width and height without spaces, as formatted numbers are, splitting it on spaces gives back `0`, `0` and the frame's width and height |
| ArcText.IdHashesKey | extcompimports/Smooth_Infinite_Scroll_Component_1_5_5.js:53 | the id is `curve-` + hash of the scraped data if non-empty, else of the procedural path |
| ArcText.TextPlacement | extcompimports/Smooth_Infinite_Scroll_Component_1_5_5.js:53-55 | the baseline is one of the three keywords or undefined and depends on the alignment only; rotation exactly for a rotating circle; the offset animation exactly off the canvas when animation is on |
| SvgAttributes.MatchAt | extcompimports/Smooth_Infinite_Scroll_Component_1_5_5.js:51-52 | the regex attempt anchored at a position ends at `e` exactly when the text up to `e` is `name="value"` (a `[\w-]` name, `="`, no `"`, `"`); no other end is possible |
| SvgAttributes.MatchAtSound | extcompimports/Smooth_Infinite_Scroll_Component_1_5_5.js:51-52 | what the anchored regex attempt matches has the form `name="value"`: a `[\w-]` name and a value without `"` |
| SvgAttributes.MatchAtComplete | extcompimports/Smooth_Infinite_Scroll_Component_1_5_5.js:51-52 | any `name="value"` text starting at a position is exactly what the attempt matches there (the match is unique) |
| SvgAttributes.Spans | extcompimports/Smooth_Infinite_Scroll_Component_1_5_5.js:51-52 | the global scan's matches lie inside the string, are each a regex match at their start, and appear in source order without overlap |
| SvgAttributes.SpansEmpty | extcompimports/Smooth_Infinite_Scroll_Component_1_5_5.js:51-52 | the global scan finds nothing exactly when no match starts anywhere |
| SvgAttributes.SpansLeftmost | extcompimports/Smooth_Infinite_Scroll_Component_1_5_5.js:51-52 | no match starts before the scan's first match: it is the leftmost one |
| SvgAttributes.SpansComplete | extcompimports/Smooth_Infinite_Scroll_Component_1_5_5.js:51-52 | no match starts at or after the end of the scan's last match: nothing is missed at the end |
| SvgAttributes.SpansLeaveNoGap | extcompimports/Smooth_Infinite_Scroll_Component_1_5_5.js:51-52 | no match could start between two consecutive matches |
| SvgAttributes.SpansResume | extcompimports/Smooth_Infinite_Scroll_Component_1_5_5.js:51-52 | resuming the global scan at the end of any match it reports gives exactly the matches after that one |
| SvgAttributes.Tokenize | extcompimports/Smooth_Infinite_Scroll_Component_1_5_5.js:51-52 | `match` returns null exactly when no match starts anywhere; otherwise the non-empty list of matched substrings, in order, with no match left after the last one |
| SvgAttributes.TokensWellFormed | extcompimports/Smooth_Infinite_Scroll_Component_1_5_5.js:51-52 | every token is `name="value"` with no `"` inside the value |
| SvgAttributes.PathDataHasEquals | extcompimports/Smooth_Infinite_Scroll_Component_1_5_5.js:51-52 | every token that passes the scan's test `includes("d=")` contains `=`, so every call of `c` is defined |
| SvgAttributes.AttributeValue | extcompimports/Smooth_Infinite_Scroll_Component_1_5_5.js:56 | `c(t)` is the text between the first `=` and the next `=` (or the end) with every `'` and `"` removed; so it holds no quote and no `=` |
| SvgAttributes.AttributeValueRoundTrip | extcompimports/Smooth_Infinite_Scroll_Component_1_5_5.js:56 | `c(name="value")` is `value` whenever the value has no `=` and no quote |
| SvgAttributes.AttributeValueTruncates | extcompimports/Smooth_Infinite_Scroll_Component_1_5_5.js:56 | when the value contains `=`, `c` returns the part before the first one, with its quotes removed |
| SvgAttributes.LastPathIndex | extcompimports/Smooth_Infinite_Scroll_Component_1_5_5.js:51-52 | the position of the last token containing `d=`, undefined exactly when none does |
| SvgAttributes.LastPathData | extcompimports/Smooth_Infinite_Scroll_Component_1_5_5.js:51-52 | the path data is `c` of the last token containing `d=`, and undefined exactly when no token contains `d=` |
| SvgAttributes.ScanPathData | extcompimports/Smooth_Infinite_Scroll_Component_1_5_5.js:51-52 | the source's forward loop, overwriting on every qualifying token, ends with the last token's value |
| SvgAttributes.IdTokenQualifies | extcompimports/Smooth_Infinite_Scroll_Component_1_5_5.js:51-52 | an `id="…"` token contains `d=` and so competes for the path data |
| SvgAttributes.StripOuterQuotes | extcompimports/Smooth_Infinite_Scroll_Component_1_5_5.js:52 | the text changes exactly when it is `"`, one or more characters without line terminators, `"`; it then loses exactly those two quotes |
| SvgAttributes.StripQuotesRoundTrip | extcompimports/Smooth_Infinite_Scroll_Component_1_5_5.js:52 | quoting a non-empty one-line text and stripping gives the text back |
| SvgAttributes.MarkupViewBox | extcompimports/Smooth_Infinite_Scroll_Component_1_5_5.js:52 | extraction fails exactly when the markup has no `viewBox=` |
| SvgAttributes.MarkupViewBoxCut | extcompimports/Smooth_Infinite_Scroll_Component_1_5_5.js:52 | for markup whose first `viewBox=` is at i, the result is the text after it up to the first `>`, or up to the next `viewBox=` (or the end) when that comes first, with outer quotes stripped |
| SvgAttributes.MarkupViewBoxSegment | extcompimports/Smooth_Infinite_Scroll_Component_1_5_5.js:52 | the result is the text between the first `viewBox=` and the next `>` (quotes stripped), when no second `viewBox=` comes first |
| SvgAttributes.MarkupViewBoxOfTag | extcompimports/Smooth_Infinite_Scroll_Component_1_5_5.js:52 | for `<svg viewBox=` + v + `>` + anything, with v free of `>` and not containing `viewBox=`, the result is v with its outer quotes stripped |
| SvgAttributes.ViewBoxLastAttribute | extcompimports/Smooth_Infinite_Scroll_Component_1_5_5.js:52 | for `<svg viewBox="w">` + anything, with w non-empty, one line, free of `>` and `"` and not containing `viewBox=`, the result is w: the value written last in the tag comes out without its quotes |
| SvgAttributes.QuotedViewBox | extcompimports/Smooth_Infinite_Scroll_Component_1_5_5.js:52 | markup `<svg viewBox="v">` + anything, with v non-empty, one line and free of `>`, and with `"v"` not containing `viewBox=`, yields v |
| SvgAttributes.ViewBoxFollowedByAttribute | extcompimports/Smooth_Infinite_Scroll_Component_1_5_5.js:52 | markup `<svg viewBox="w" name="x">`, with w, name and x one line and free of `>`, name made of `[\w-]` characters, and `"w" name="x"` not containing `viewBox=`, comes out as w + `" name="x`: the following attribute is dragged along |
| JsStrings.IndexOfSpec | extcompimports/Smooth_Infinite_Scroll_Component_1_5_5.js:52 | the search finds an occurrence at or after the start, and none exists before it (none at all when it finds nothing) |
| JsStrings.SplitPiecesFree | extcompimports/Smooth_Infinite_Scroll_Component_1_5_5.js:52 | no piece of `split` with a non-empty separator contains the separator |
| JsStrings.SplitJoinRoundTrip | extcompimports/Smooth_Infinite_Scroll_Component_1_5_5.js:52 | joining the pieces with the separator gives back the original string |
| JsStrings.JoinSplitFrom | extcompimports/Smooth_Infinite_Scroll_Component_1_5_5.js:52 | joining the pieces found from any start position gives back the rest of the string from there (by induction on the occurrences) |
| JsStrings.SplitFirstPiece | extcompimports/Smooth_Infinite_Scroll_Component_1_5_5.js:52 | `split(sep)[0]` is the text before the first separator, or the whole string |
| JsStrings.SplitSecondPiece | extcompimports/Smooth_Infinite_Scroll_Component_1_5_5.js:52 | `split(sep)[1]` exists exactly when the separator occurs, and is the text between its first and second occurrences |
| JsStrings.SplitThenFirst | extcompimports/Smooth_Infinite_Scroll_Component_1_5_5.js:52 | `s.split(key)[1].split(stop)[0]` is the text after the first `key` up to the first `stop`, or up to the next `key` (or the end) when that comes first |
| JsStrings.Nth | extcompimports/Smooth_Infinite_Scroll_Component_1_5_5.js:52 | `arr[k]` is defined exactly when k is within the bounds, and is then the k-th element |
| JsStrings.RemoveQuotes | extcompimports/Smooth_Infinite_Scroll_Component_1_5_5.js:56 | the result has no quote character and every other character the same number of times as the input |
| JsStrings.RemoveQuotesNoQuotes | extcompimports/Smooth_Infinite_Scroll_Component_1_5_5.js:56 | quote removal leaves a quote-free text unchanged |
| JsStrings.RemoveQuotesConcat | extcompimports/Smooth_Infinite_Scroll_Component_1_5_5.js:56 | quote removal distributes over concatenation |

## Left out

- The smooth-scroll component (extcompimports/Smooth_Infinite_Scroll_Component_1_5_5.js:1-34) is
  commented out in the source. It is also a wrapper around a third-party scrolling library, an
  animation-frame loop and a style-tag injection.
- React rendering, `cloneElement` and `withCSS` are not modelled. The outcome records only the
  values the component computes for its elements.
- `renderToString` is not modelled. Its output for the connected layer is the input `Layer.markup`.
- `RenderTarget.current()` is not modelled; the render target is the input `canvas`.
- `Children.count` and `Children.map` are modelled on sequences. React's flattening of nested
  arrays and its treatment of `null`/boolean children are not modelled.
- `@emotion/hash` is not modelled. It is the parameter `hash`, and the model states only that
  the id is `curve-` followed by the hash of the key.
- The framer-motion rotation and its transition parameters (`100 / rotateSpeed`, infinite
  repeat) are not modelled. Only the decision whether the SVG rotates is kept.
- The `<animate>` element's attributes are not modelled. Only the decision whether it is
  present is kept.
- Pass-through properties are not modelled: text, start offset, font, colour and word
  spacing. They are copied into the output unchanged.
- Style objects, property-control schemas, default props and the component metadata are not
  modelled. They declare things to the host and have no behaviour.
- The boolean default `true` of the `type` property control is not modelled, because the model's
  `type` is a string. The source treats it like any non-ellipse type: offset zero.
- JavaScript number formatting and IEEE-754 arithmetic are not modelled. Coordinates and the
  offset are reals, and the frame's width and height are taken as already-formatted text.
- ArcPath.ArcPath: its contract does not state how SVG renders a unit-radius arc between
  points 100 apart. SVG 1.1 scales such radii up until the arc spans its end points, which
  gives a half circle. This is geometry of the renderer, not of the component.
