# svg-foreignobject-screenshot: a Dafny model of `buildSvgDataURI`

`buildSvgDataURI(node, options)` turns a DOM node into an SVG data URI. The
URI can be drawn onto a canvas to take a screenshot. The function goes
through these steps:

1. It concatenates the rule texts of every stylesheet that is inline, has an
   empty `href`, or has an `href` that starts with `location.origin`.
2. If the caller gave an `options.css` hook, the hook may replace that css.
3. The content is `<style>` with the css, followed by the serialized node.
4. If `options.fetcher` is given:
   - it collects the image references in the markup and the `url(...)`
     references in the styles;
   - it drops duplicates, keeping the first occurrence;
   - it applies the optional `options.filterer`;
   - it fetches every reference through the fetcher, keyed by its unescaped,
     unquoted form (`useFetcher`);
   - it substitutes each fetched value for its reference with `replaceAll`.
5. It wraps the content in an `<svg>` holding a `<foreignObject>`, both sized
   `width` × `height`, and prefixes the percent-encoded SVG with
   `data:image/svg+xml;charset=utf-8,`.

The modules follow these steps:

- `Wrappers`: `Option`, and `Promised`, the settled outcome of a promise
  (resolved with a value or rejected with a reason).
- `Text`: prefixes, occurrences, `indexOf`, and how a template literal
  renders an integer in decimal.
- `Sequences`: `Array.from(new Set(xs))` as `Dedup` (insertion order),
  `Array.prototype.filter`, concatenation, and subsequences.
- `JsString`: `String.prototype.replaceAll` with a string pattern, as
  section 22.1.3.18 of ECMA-262 (2021) defines it, with GetSubstitution of
  section 22.1.3.17.1. This includes the replacement patterns `$$`, `$&`,
  `` $` `` and `$'` and the empty pattern, which matches at every index.
  Strings are sequences of Unicode scalar values rather than UTF-16 code
  units, so the model agrees with the standard on text of the Basic
  Multilingual Plane (see "## Left out").
- `Styles`: the stylesheet loop (an imperative method, proved equal to
  `CollectedCss`) and the `options.css` hook.
- `Inliner`: the selection of references, `useFetcher`, and the
  substitution loop. `UseFetcher` and `SubstituteAll` are the imperative
  loops; `FetchInOrder` and `Substituted` specify them.
- `Svg`: the SVG template, a parser that recovers width, height and
  content from it, and the data-URI prefix.
- `Screenshot`: `buildSvgDataURI` step by step, proved equal to
  `BuildSvgDataUriSpec`.

Browser facilities are inputs of the model rather than behaviour inside it:

- `document.styleSheets`, `location.origin` and the `XMLSerializer` output become fields of `Host`.
- `encodeURIComponent` becomes a function parameter.
- The order in which a batch of fetches settles becomes `Host.settleOrder`, a permutation for each batch size.
- The `./lib` helpers (`getImageUrlsFromHtml`, `getUrlsFromCss`, `descape`, `removeQuotes`) become the fields of `Lib`.
- Each helper, the fetcher, the filterer and the css hook is an arbitrary function.

Where the code and its description differ, the model follows the code:

- **Raw duplicates.** Duplicates are removed by comparing the raw reference strings, not the normalised fetch keys. So `a.png` and `'a.png'` are both fetched with the key `a.png` (`Inliner.RawDedupFetchesKeyTwice`).
- **Raw references in substitution.** Substitution searches for the raw reference, as extracted. It does not search for the normalised key.
- **Overlapping substitutions.** A reference the filterer excludes is never fetched or substituted itself. It can still be altered when it overlaps a reference that is substituted.
- **`$` patterns.** `replaceAll` interprets `$` patterns in the fetched value; the model keeps that (`JsString.ReplaceAllExpandsMatch`).
- **Substitution can create a reference.** "No reference remains after substitution" does not follow from "no fetched value contains a reference", because a replacement can complete a new occurrence: `"aabb".replaceAll("ab", "b") == "abb"` (`JsString.ReplaceAllCanCreateOccurrence`). The model therefore proves the removal property under a stronger condition, `Inliner.Insertable`: every fetched value is non-empty and contains no `$`; and it is separated from every selected reference (`Text.Separated`): neither contains the other, and no non-empty proper end of one is a beginning of the other. A base64 data URI such as `data:image/png;base64,iVBORw0KGgo=` is separated from `a.png` (`Inliner.DataUriInsertable`).

## Model

| member | source | states |
|---|---|---|
| Text.StartsWith | src/index.ts:34 | `href.startsWith(location.origin)`; specified by `Text.StartsWithIff` |
| Text.StartsWithIff | src/index.ts:34 | a text starts with a prefix exactly when it is that prefix followed by more text |
| Text.IndexOf | src/index.ts:73 | a match found at or after `from` fits inside the string |
| Text.SeparatedWhen | src/index.ts:72-74 | a reference and a value are separated when the value's first and last characters are not in the reference and some character of the reference is not in the value |
| Text.NoOccurrenceAcross | src/index.ts:73 | gluing a text separated from `u` between two texts that avoid `u` gives a text that avoids `u` |
| Text.IndexOfLeftmost | src/index.ts:73 | `indexOf` returns the leftmost occurrence at or after `from`, and none exactly when there is no occurrence there |
| Text.DecimalString | src/index.ts:77 | the text a template literal renders for an integer width or height: digits, preceded by a minus sign exactly when the integer is negative, with no leading zero and never `-0` |
| Text.DecimalRoundTrip | src/index.ts:77 | reading the rendered decimal back gives the same integer |
| Sequences.Dedup | src/index.ts:64 | `Array.from(new Set(xs))` has no duplicates, holds exactly the elements of `xs`, and is no longer than `xs` |
| Sequences.DedupFirstOccurrenceOrder | src/index.ts:64 | the deduplicated elements appear in the order of their first occurrence in `xs` |
| Sequences.DedupOfDistinct | src/index.ts:64 | a sequence without duplicates is left unchanged |
| Sequences.DedupIdempotent | src/index.ts:64 | deduplicating twice is deduplicating once |
| Sequences.Filter | src/index.ts:67 | `xs.filter(p)` holds exactly the elements of `xs` that satisfy `p`, and is no longer than `xs` |
| Sequences.FilterIsSubsequence | src/index.ts:67 | filtering keeps the relative order of the kept elements |
| Sequences.FilterKeepsDistinct | src/index.ts:67 | filtering a sequence without duplicates gives one without duplicates |
| Sequences.FilterAppend | src/index.ts:67 | filtering distributes over concatenation |
| Sequences.ConcatAppend | src/index.ts:35-37 | concatenating texts distributes over concatenating the lists |
| JsString.Expand | src/index.ts:73 | GetSubstitution for a string pattern; specified by `JsString.ExpandLiteral` and `JsString.ReplaceAllExpandsMatch` |
| JsString.ReplaceAll | src/index.ts:73 | `content.replaceAll(resource, fetched)`; specified by `JsString.ReplaceAllReplacesEveryOccurrence` (non-empty pattern) and `JsString.ReplaceEmptyInterleaves` (empty pattern) |
| JsString.ReplaceFrom | src/index.ts:73 | the scan for a non-empty pattern from a position; specified by `JsString.ReplaceFromIsJoin` |
| JsString.ReplaceEmptyFrom | src/index.ts:73 | the scan for the empty pattern from a position; specified by `JsString.ReplaceEmptyInterleaves` |
| JsString.ExpandLiteral | src/index.ts:73 | a replacement containing no `$` is inserted as it is |
| JsString.ReplaceAllReplacesEveryOccurrence | src/index.ts:73 | with a non-empty pattern and a `$`-free replacement, the text is the leftmost non-overlapping pieces joined by the pattern, and `replaceAll` gives those same pieces joined by the replacement |
| JsString.SplitJoin | src/index.ts:73 | joining the pieces of a text with the pattern gives back the text |
| JsString.SplitLeftmost | src/index.ts:73 | no piece contains the pattern, and no occurrence starts in a piece and runs into the next match |
| JsString.ReplaceFromIsJoin | src/index.ts:73 | from any scan position, `replaceAll`'s output is the remaining pieces joined by the replacement |
| JsString.ReplaceAllRemoves | src/index.ts:73 | when the replacement is non-empty, has no `$` and is separated from the pattern, no occurrence of the pattern is left |
| JsString.ReplaceAllKeepsAbsent | src/index.ts:73 | a non-empty string absent from the text and separated from the replacement is still absent afterwards |
| JsString.JoinAvoids | src/index.ts:73 | pieces that avoid `u`, joined by a non-empty separator separated from `u`, avoid `u` |
| JsString.SplitPiecesAvoid | src/index.ts:73 | every piece of a text that avoids `v` avoids `v` |
| JsString.CharPieces | src/index.ts:73 | the one-character pieces of a text from a position, in order |
| JsString.ReplaceEmptyStep | src/index.ts:73 | with the empty pattern, the scan inserts the replacement, then the next character, then goes on from the next position |
| JsString.InterleaveCons | src/index.ts:73 | joining `""`, a character, more pieces and `""` by a separator puts the separator and the character in front of the join of the rest |
| JsString.ReplaceEmptyInterleaves | src/index.ts:73 | with the empty pattern and a `$`-free replacement, the output is the replacement before every character and after the last: the join of `""`, the single characters and `""` by the replacement |
| JsString.ReplaceEmptySearchLength | src/index.ts:73 | with the empty pattern and a `$`-free replacement, the output from position `from` has the `n` remaining characters plus `n + 1` copies of the replacement |
| JsString.ReplaceAllCanCreateOccurrence | src/index.ts:72-74 | a replacement can complete a new occurrence of a pattern the replacement does not contain |
| JsString.ReplaceAllExpandsMatch | src/index.ts:73 | a fetched value `$&` puts the matched reference back instead of itself |
| Styles.Readable | src/index.ts:34 | a sheet is read when it has no `href`, an empty one, or one starting with `location.origin`; specified by `Styles.SheetContribution` |
| Styles.CollectedCss | src/index.ts:33-39 | the rule texts of the readable sheets, concatenated in order; specified by `Styles.CollectedCssAppend`, `Styles.SheetContribution` and `Styles.CollectCss` |
| Styles.CollectCss | src/index.ts:33-39 | the nested stylesheet loop yields the rule texts of the readable sheets (no `href`, an empty one, or one starting with the origin), in order |
| Styles.CollectedCssAppend | src/index.ts:33-39 | the collected css of two lists of sheets is the css of the first followed by the css of the second |
| Styles.SheetContribution | src/index.ts:34-37 | a sheet contributes its rules exactly when it is readable, and nothing otherwise |
| Styles.RuleTextsAppend | src/index.ts:35-37 | the rule texts of two lists of sheets are those of the first followed by those of the second |
| Styles.Truthy | src/index.ts:44 | `if (result)` on a string: truthy exactly when non-empty; specified by `Styles.ApplyCssHook` |
| Styles.ApplyCssHook | src/index.ts:41-45 | the call rejects exactly when the hook rejects, with the hook's reason; without a hook the css is kept; a truthy result replaces it, and an empty or missing one leaves it |
| Inliner.FetchKey | src/index.ts:19 | the key a reference is fetched with, `removeQuotes(descape(reference))`; specified by `Inliner.FetchResults` and `Inliner.RawDedupFetchesKeyTwice` |
| Inliner.ExtractedResources | src/index.ts:53-59 | the image references of the markup followed by the css references; specified by `Inliner.SelectedResourcesSpec` |
| Inliner.SelectedResources | src/index.ts:64-68 | the deduplicated references, filtered when a filterer is given; specified by `Inliner.SelectedResourcesSpec` |
| Inliner.SelectedResourcesSpec | src/index.ts:53-68 | the selection has no duplicates and keeps the order of first occurrence; a reference is in it exactly when it was extracted and the filterer keeps it |
| Inliner.FilterAllKept | src/index.ts:66-68 | filtering with a predicate that keeps everything leaves the sequence unchanged |
| Inliner.FetchInOrder | src/index.ts:16-25 | the outcome of `Promise.all` over the fetches for a completion order; specified by `Inliner.FetchRejectsIff`, `Inliner.FetchResults` and `Inliner.OneResultPerResource` |
| Inliner.UseFetcher | src/index.ts:12-26 | the results array, built by pushing each result as its fetch settles, equals `FetchInOrder` for the given completion order |
| Inliner.FetchRejectsIff | src/index.ts:18-23 | `Promise.all` rejects exactly when some fetch rejects, and then with the reason of the first rejection to settle |
| Inliner.FetchRejectsIffSomeRejects | src/index.ts:18-23 | when every reference is fetched once, the fetch step rejects exactly when the fetch of some reference rejects |
| Inliner.FetchResults | src/index.ts:18-21 | the `k`-th result pairs the `k`-th reference to settle with the value its fetch, keyed by `removeQuotes(descape(reference))`, resolved with |
| Inliner.OneResultPerResource | src/index.ts:16-25 | there is one result per reference, each result's reference is one of the references, and distinct references give distinct results |
| Inliner.Substituted | src/index.ts:72-74 | `replaceAll` applied for each result in turn; specified by `Inliner.SubstitutedAvoids` and `Inliner.SubstitutedRemovesCovered` |
| Inliner.SubstituteAll | src/index.ts:72-74 | the loop applies `replaceAll` for each result in turn, as `Substituted` does |
| Inliner.References | src/index.ts:72 | the references of the results, in the order of the results |
| Inliner.SubstitutedAvoids | src/index.ts:72-74 | with insertable values, substitution removes every result's reference and brings back none that was absent |
| Inliner.SubstitutedRemovesReferences | src/index.ts:72-74 | with insertable values and non-empty references, no result's reference is left after substitution |
| Inliner.SubstitutedRemovesCovered | src/index.ts:72-74 | every reference that some result carries is gone after substitution |
| Inliner.DataUriInsertable | src/index.ts:72-74 | a base64 data URI is an insertable value for the reference `a.png` |
| Inliner.RawDedupFetchesKeyTwice | src/index.ts:19 | two raw references that normalise to the same key are both selected and both fetched with that key |
| Inliner.InlineResources | src/index.ts:49-75 | the inlining step: no fetcher leaves the content, otherwise select, fetch and substitute; specified by `Inliner.InlineRejectsIff`, `Inliner.ResultsExactlyForSelection` and `Inliner.InlineRemovesReferences` |
| Inliner.InlineRejectsIff | src/index.ts:49-75 | inlining rejects exactly when a fetcher is given and the fetch of some selected reference rejects |
| Inliner.ResultsExactlyForSelection | src/index.ts:53-74 | a reference gets a result exactly when it was extracted and the filterer keeps it |
| Inliner.ResultsInsertable | src/index.ts:18-21 | conditions on the values fetched for the selected references carry over to the results |
| Inliner.InlineRemovesReferences | src/index.ts:49-75 | after a successful inlining no selected reference is left in the content, when the references are non-empty and the fetched values are insertable |
| Svg.SvgDocument | src/index.ts:77 | the SVG template around the content; specified by `Svg.SvgDocumentParses` and `Screenshot.OutputShape` |
| Svg.SvgDataUri | src/index.ts:79 | the data URI is `data:image/svg+xml;charset=utf-8,` followed by the encoding of the SVG |
| Svg.CutAt | src/index.ts:77 | cutting fails exactly when there is no `c`; otherwise it splits the text around the first `c` |
| Svg.SvgDocumentParses | src/index.ts:77 | the template can be read back: the parser recovers the width, the height and the content, for any content |
| Screenshot.StyledContent | src/index.ts:47 | the style element holding the css, followed by the serialized node; specified by `Screenshot.WithoutFetcherContentIsVerbatim` |
| Screenshot.FinalContent | src/index.ts:41-75 | the content that reaches the template, or the rejection of the css hook or of the inlining; specified by `Screenshot.OutputShape`, `Screenshot.WithoutFetcherContentIsVerbatim` and `Screenshot.BuildRejectsIff` |
| Screenshot.BuildSvgDataUriSpec | src/index.ts:28-82 | `buildSvgDataURI` as one expression; specified by `Screenshot.OutputShape`, `Screenshot.BuildRejectsIff` and `Screenshot.BuildSvgDataUri` |
| Screenshot.BuildSvgDataUri | src/index.ts:28-82 | the step-by-step function equals `BuildSvgDataUriSpec`: css collection and hook, content, inlining, template and data URI |
| Screenshot.OutputShape | src/index.ts:77-81 | a successful call returns the prefix followed by the encoding of an SVG whose two elements have the requested size and that holds the final content verbatim |
| Screenshot.WithoutFetcherContentIsVerbatim | src/index.ts:47-49 | without a fetcher the SVG holds exactly the style element with the hooked css, followed by the serialized node |
| Screenshot.BuildRejectsIff | src/index.ts:41-75 | the call rejects exactly when the css hook rejects, or when the hook succeeds and the fetch of some selected reference rejects |

## Left out

- `renderToBase64Png` (src/index.ts:84-108) is left out: it decodes the image, draws it on a canvas and resolves from DOM events.
- `serialize`, `document.styleSheets` and `location.origin` are inputs (`Host`). The model has no DOM or CSSOM.
- `./lib` is not part of this model. `getImageUrlsFromHtml`, `getUrlsFromCss`, `descape` and `removeQuotes` are arbitrary functions in `Lib`, so no property depends on what they extract.
- `encodeURIComponent` is an arbitrary function, and only the prefix and the encoded remainder are stated.
- Asynchrony: the model does not capture the interleaving of fetches, their side effects, or a fetcher that answers differently on different calls. Each fetch is a deterministic function of its key, and `Promise.all`'s behaviour comes from a completion order supplied for each batch size.
- A fetch that never settles (a promise that hangs) is not modelled.
- Text.DecimalString: covers integer widths and heights only; JavaScript's rendering of fractions, exponents, `NaN` and magnitudes of 10^21 or more is not modelled.
- An `options.css` that is present but not a function is modelled as absent, which is what `typeof options.css === 'function'` decides.
- Inliner.InlineRemovesReferences: proved under `Insertable` (fetched values are non-empty, contain no `$` and are separated from every reference). This is stronger than "no value contains a reference", because under that weaker condition the property fails (`JsString.ReplaceAllCanCreateOccurrence`). A value that begins with the end of a reference, or ends with its beginning, is not covered.
- Inliner.SubstitutedRemovesReferences: stated under the same `Insertable` condition, for the same reason.
- Inliner.SubstitutedAvoids: stated under the same `Insertable` condition, for the same reason.
- Inliner.SubstitutedRemovesCovered: stated under the same `Insertable` condition, for the same reason.
- Screenshot.BuildRejectsIff: every readable sheet's `cssRules` is assumed to be accessible, so a `SecurityError` thrown by a cross-origin sheet whose `href` still passes the origin test (src/index.ts:34-35) is not among the rejections.
- Screenshot.BuildRejectsIff: `encodeURIComponent` is assumed never to throw, so the `URIError` it raises on a lone surrogate (src/index.ts:79) is not among the rejections.
- Screenshot.BuildRejectsIff: the serializer, the `./lib` helpers (`getImageUrlsFromHtml`, `getUrlsFromCss`, `descape`, `removeQuotes`) and `options.filterer` are total functions in the model, so a throw from any of them (src/index.ts:19, :47, :53, :59, :67), which makes the call reject, is not among the rejections.
- Inliner.InlineRejectsIff: the `./lib` helpers and `options.filterer` are assumed never to throw, so a throw from `descape` or `removeQuotes` inside a fetch callback (src/index.ts:19, which rejects `Promise.all` at :23), or from the extractors (:53, :59) or the filterer (:67), is not among the rejections.
- Strings are sequences of Unicode scalar values, where JavaScript strings are sequences of UTF-16 code units. Lone surrogates cannot be represented. For a character outside the Basic Multilingual Plane, JavaScript has two positions and the model has one, so `JsString.ReplaceAll` with the empty pattern and `JsString.ReplaceEmptyInterleaves` insert one replacement fewer per such character than JavaScript does (`"\u{1F600}".replaceAll("", "x")` inserts three `x` in JavaScript, one of them between the two surrogate halves, and two in the model).
- `tsup.config.ts` only configures the build and is not modelled.
