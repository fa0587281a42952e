# Android vector drawable to SVG: a verified model of the conversion engine

This project models the conversion engine of a VS Code extension that previews
Android vector drawables. The engine lives in `src/utils.ts`.

- `convertVectorDrawableToSVG` finds the root `<vector ...>` tag.
- It resolves the root's viewport, size and tint. Defaults apply where a value is missing, and one trailing `dp` is dropped from the size.
- It scans the whole text for `<path ...>` elements. It writes one SVG `<path d="..." .../>` line for each element that has path data.
- It places those lines in a fixed SVG document template.
- Along the way it uses:
  - `extractAttribute`: a case-insensitive `name="value"` search;
  - `convertColor`: Android colour tokens become CSS tokens. `#AARRGGBB` becomes `#RRGGBBAA`, references become a grey placeholder, and the empty token becomes black.
- `isAndroidVectorDrawable` is the cheap gate used before conversion. Its text test is modelled too.

The modules follow the source:

| file | module | models |
|---|---|---|
| `wrappers.dfy` | `Wrappers` | `Option`, standing for JavaScript's `string \| null` |
| `text.dfy` | `Text` | String searches used by the regular expressions: occurrence with and without case, and first index of a character. Also the `\s` class of ECMAScript. |
| `attributes.dfy` | `Attributes` | `extractAttribute` |
| `colors.dfy` | `Colors` | `convertColor` |
| `svg.dfy` | `Svg` | The output text: path lines and the document template. Also a reader for exactly that layout, used to state that the output is unambiguous. |
| `converter.dfy` | `Converter` | `convertVectorDrawableToSVG` |
| `converter_properties.dfy` | `ConverterProperties` | What the converter promises, proved over `Converter` |
| `classifier.dfy` | `Classifier` | The text test of `isAndroidVectorDrawable`, and how it relates to the converter |

## How the regular expressions are modelled

Each regular expression is modelled as a search that tries every start index
in turn. This is how a backtracking matcher finds the leftmost match. Each such
search is then proved equal to a simpler second reading:

- **`name="([^"]*)"` with the `i` flag.** The search equals "the leftmost
  case-insensitive `name="`, then everything up to the next `"`".
  - The two agree because the opening itself ends in a quote. So if the
    leftmost opening has no closing quote, no later opening has one either.
  - Case is folded on ASCII letters only. This is exact: the names searched
    for are ASCII, and ECMAScript's non-unicode case canonicalisation never
    maps a non-ASCII character to an ASCII one.
- **`<vector([^>]*)>`.** The search equals "the leftmost `<vector`, then
  everything up to the next `>`".
- **The global `<path([^>]*)\/?>(?:<\/path>)?` pattern.**
  - It is run by `exec` from `lastIndex`.
  - One match ends just after the `>`. When `</path>` follows immediately,
    the match ends after that as well.
  - The next search starts at the end of the match.
  - `exec` from `lastIndex` equals "the leftmost `<path` at or after
    `lastIndex`, matched there". A `<path` with no `>` after it means no
    later `<path` has one either.

JavaScript's `||` treats `""` like `null`. This is modelled by `Converter.Or`.
As a result:
- an empty viewport gives `24`;
- `width=""` or `width="dp"` gives the viewport;
- an empty fill colour falls back to the tint.

The imperative part keeps its form:
- `Converter.ConvertVectorDrawableToSvg` runs the `exec` loop over `lastIndex`
  and appends to `paths`.
- `Converter.WriteElement` is one pass of that loop.
- `Converter.WritePathElement` builds one `pathElement` with `+=`, in the
  source's order.
- Each method is proved against the functional definition `Converter.Convert`,
  and the properties are proved about that definition.

The classifier and the converter do not accept the same texts:
- The classifier wants `<vector` followed by white space or `>`.
- The converter wants `<vector` with a `>` anywhere after it.
- `Classifier.TestAndConverterDiffer` shows one text on each side.

## Model

| member | source | states |
|---|---|---|
| Text.IndexOfFrom | src/utils.ts:108-109 | The `[^"]*"` scan. It finds the first index at or after `from` holding the character, or reports that none exists. |
| Text.FirstIndexFrom | src/utils.ts:24 | The leftmost index at or after `i` where a string occurs, with case. If it reports none, there is no occurrence. |
| Attributes.ExtractAttribute | src/utils.ts:107-111 | An extracted value never contains a quote. |
| Attributes.ExtractAttributeFound | src/utils.ts:107-111 | A value is found exactly when some case-insensitive `name="` has a closing quote after it. Otherwise the result is null. |
| Attributes.SearchFromIsLeftmost | src/utils.ts:108-110 | From any index, trying each start in turn gives the same result as taking the leftmost opening and reading up to the next quote. |
| Attributes.ExtractAttributeIsLeftmost | src/utils.ts:107-111 | `extractAttribute` returns the value after the leftmost case-insensitive `name="`, up to the next quote. |
| Attributes.ExtractedValueInPlace | src/utils.ts:107-111 | The extracted value stands in the text right after the leftmost opening, followed by a quote. |
| Colors.ConvertColor | src/utils.ts:116-135 | The translated token is never empty. |
| Colors.EmptyIsBlack | src/utils.ts:117-119 | The empty token becomes `#000000`. |
| Colors.ReferencesAreGrey | src/utils.ts:121-124 | Every `@color/...` and every `?...` becomes `#757575`, whatever follows the prefix. |
| Colors.AlphaMovesLast | src/utils.ts:126-131 | `#AARRGGBB` becomes `#RRGGBBAA`, digit by digit. |
| Colors.ReorderIsPermutation | src/utils.ts:126-131 | An 8-digit hex token stays an 8-digit hex token made of the same characters. The alpha pair ends up last, and moving it back to the front restores the input. |
| Colors.Idempotent | src/utils.ts:116-135 | Translating twice equals translating once, for every token that is not 8-digit hex. The placeholders are fixed points. |
| Colors.OthersPassThrough | src/utils.ts:133-134 | A non-empty token that is neither a `@color/` or `?` reference nor 8-digit hex, such as 6-digit hex or a colour name, is returned unchanged. |
| Colors.KeepsQuotesOut | src/utils.ts:116-135 | A token without quotes translates to one without quotes. |
| Colors.NoneOnlyFromNone | src/utils.ts:116-135 | The translation is `none` exactly when the token is `none`. So a written fill is never `none`. |
| Svg.PresentationText | src/utils.ts:64-84 | A path line's attribute text is the path's presentation attributes, each written as ` name="value"`, in list order. |
| Svg.PresentationInOrder | src/utils.ts:66-82 | The attributes come in the order fill, fill-opacity, stroke, stroke-width, stroke-opacity. Each appears at most once. |
| Svg.ReadPathLineWritten | src/utils.ts:64-84 | A written path line reads back as the path's `d` and its presentation attributes in order. Whatever follows the line is left untouched. |
| Svg.ReadPathsWritten | src/utils.ts:85 | The concatenated lines read back as the list of paths, in order. |
| Svg.ReadDocumentWritten | src/utils.ts:90-95 | The document template reads back as its width, height, `0 0 vw vh` viewBox and body, whenever those hold no quote. |
| Converter.StripDp | src/utils.ts:39 | `replace(/dp$/, "")` removes exactly one trailing `dp` and leaves every other text as it is. |
| Converter.TagEnd | src/utils.ts:24 | A tag match at `i` is the tag's text followed by a `>` at or after the tag's end, and that `>` is the first one after the tag. A match exists whenever the tag stands at `i` with some `>` after it. |
| Converter.PathMatchAt | src/utils.ts:49 | A path match at `i` starts at `i` and ends after it, within the text. Its capture and its end are stated by `ConverterProperties.PathMatchAtSpec`. |
| Converter.ExecPath | src/utils.ts:53 | `exec` from `lastIndex` returns a path match that starts at or after `lastIndex`. |
| Converter.ResolvedPathsAppend | src/utils.ts:53-87 | Elements contribute their paths independently, in order. |
| Converter.ConsumeMatch | src/utils.ts:53-87 | One loop pass writes the line of the match `exec` returned. The rest of the output is what the remaining matches write. |
| Converter.WritePathElement | src/utils.ts:64-84 | The `pathElement` built with `+=` is the path line of the resolved path. |
| Converter.WriteElement | src/utils.ts:54-86 | One pass of the loop appends the element's path line when it has path data, and nothing otherwise. |
| Converter.ConvertVectorDrawableToSvg | src/utils.ts:21-102 | The method with the `exec` loop returns exactly what `Converter.Convert` defines. |
| ConverterProperties.VectorAttrsIsLeftmost | src/utils.ts:24 | `match(/<vector([^>]*)>/)` captures from the leftmost `<vector` up to the next `>`. If that `<vector` has no `>` after it, nothing is captured. |
| ConverterProperties.VectorAttrsInPlace | src/utils.ts:24-29 | The root's attribute text holds no `>`. It stands between the leftmost `<vector` and a `>`. |
| ConverterProperties.ConvertNullExactly | src/utils.ts:24-27 | The converter returns null exactly when no `<vector` has a `>` somewhere after it. |
| ConverterProperties.PathMatchAtSpec | src/utils.ts:49 | A path match at `i` exists exactly when `<path` stands at `i` with a `>` somewhere after it. Its capture holds no `>`, and the text at `i` is `<path`, the capture and `>`. It ends after that `>`, or after a `</path>` that follows immediately. |
| ConverterProperties.ExecPathIsLeftmost | src/utils.ts:49-53 | `exec` from `lastIndex` equals the match at the leftmost `<path` at or after `lastIndex`. |
| ConverterProperties.ExecPathLeftmost | src/utils.ts:53 | No path match starts between `lastIndex` and the match `exec` returns. If `exec` returns none, no match starts at or after `lastIndex`. |
| ConverterProperties.MatchesInOrder | src/utils.ts:49-53 | Each match the loop sees is a path match where it starts. The matches come in document order and do not overlap. |
| ConverterProperties.MatchesCover | src/utils.ts:49-53 | Every place where the path pattern matches lies inside one of the loop's matches, so no element is skipped. |
| ConverterProperties.WithPathDataMembers | src/utils.ts:63 | The written elements are exactly the matched elements with non-empty path data. |
| ConverterProperties.ResolvedPathsAreTheElementsWithData | src/utils.ts:53-87 | One SVG path is written per matched element with non-empty path data, in the same order, with `d` copied verbatim. |
| ConverterProperties.StripDpExamples | src/utils.ts:38-43 | `48dp` gives `48`. `48px` and `48` stay as they are. `4dpdp` loses one `dp`, and `dp` gives the empty string. |
| ConverterProperties.StripDpKeepsQuotesOut | src/utils.ts:39 | Dropping `dp` adds no quote. |
| ConverterProperties.RootResolution | src/utils.ts:32-46 | The viewport is the tag's value, or `24` when absent or empty. The size is the tag's value minus one trailing `dp`, or the viewport when that leaves nothing. The tint is taken as found. |
| ConverterProperties.RootWritable | src/utils.ts:32-46 | Every resolved root value is non-empty and quote-free, and so is the tint. |
| ConverterProperties.PathRules | src/utils.ts:55-84 | See the list below the table. |
| ConverterProperties.PathWritable | src/utils.ts:55-84 | A resolved path holds no quote in any value. |
| ConverterProperties.ResolvedPathsWritable | src/utils.ts:53-87 | All resolved paths of a document can be written between quotes. |
| ConverterProperties.ConvertedLayout | src/utils.ts:24-97 | A document is produced exactly when the root tag is found. It reads back as the resolved width, height and `0 0 vw vh` viewBox, all non-empty. Its body reads back as one path line per resolved path, in order. |
| ConverterProperties.EmptyDrawable | src/utils.ts:21-97 | `<vector></vector>` converts to the template with width, height and both viewport sizes `24` and an empty body. |
| ConverterProperties.Examples | src/utils.ts:56-82 | `#FF112233` becomes `#112233FF`. A `none` fill writes no fill. A stroked path without a fill colour takes its fill from the tint and keeps its stroke colour and width. |
| Classifier.IsVectorDrawableText | src/utils.ts:6-16 | A document passes only when its language id is `xml`. |
| Classifier.MarkerFromFound | src/utils.ts:15 | `test` from an index succeeds exactly when `<vector[\s>]` matches at some later index. |
| Classifier.IsVectorDrawableTextFound | src/utils.ts:6-16 | A document passes exactly when it is `xml` and its text holds `<vector` followed by a white-space character or `>`. |
| Classifier.ClosedMarkerConverts | src/utils.ts:15-27 | A text whose marker is closed at once by `>` is always converted. |
| Classifier.TestAndConverterDiffer | src/utils.ts:15-27 | `<vector ` with no `>` passes the test but is not converted. `<vectors>` is converted but fails the test. |
| Classifier.NoVectorAnywhere | src/utils.ts:9-27 | A text without `<vector` fails the test and is not converted. |

`ConverterProperties.PathRules` states these rules for one element:
- A path is written exactly when there is path data, and `d` is that data.
- The fill token falls back from the element's fill colour to the tint, and then to `#000000`.
- `fill` is written, translated, exactly when that token is not `none`.
- `fill-opacity` is written exactly when there is a fill and a non-empty alpha.
- `stroke` is written, translated, exactly when there is a stroke colour.
- `stroke-width` and `stroke-opacity` are written only together with `stroke`.

## Left out

- `getNonce`: it draws from `Math.random`.
- The `try`/`catch` and `console.error`: no step of the modelled engine can throw, so the engine is a total function returning an `Option`.
- The `vscode.TextDocument` argument of `isAndroidVectorDrawable`: only its language id and its text are modelled.
- JavaScript strings are sequences of UTF-16 code units, while here a string is a sequence of Unicode scalar values.
  - Indices such as `lastIndex` count characters rather than code units. This leaves matches and output unchanged.
  - Texts with unpaired surrogates cannot be represented.
- `src/previewPanel.ts`, `src/hoverProvider.ts`, `src/templateEngine.ts`, `src/extension.ts` and `src/templates/scripts/preview.js` are not part of this model. They hold editor, webview and file-system glue.
- Converter.ConvertVectorDrawableToSvg: the loop body and the building of one path element are separate methods (`WriteElement`, `WritePathElement`). The statements and their order are unchanged.
