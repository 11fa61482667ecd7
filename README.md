# Wikipedia-API: a Dafny model of the search endpoint

This project models the NestJS service behind `GET /wikipedia/search?query=…`.
The endpoint looks up a French Wikipedia article for a search text. It answers with one of five things:
- the guard's error object `{error: 'Le paramètre "query" est requis'}`, when `query` is falsy;
- the article's title, summary fields and first paragraphs;
- the "no result" error object;
- the catch-all error object, when issuing the summary or parse request throws;
- a failed answer (status 500), when issuing the search request throws, or when the catch-all reads `message` of a thrown `null` or `undefined`.

Modelled parts:

- **Controller guard** (`src/app.controller.ts`). A falsy `query` (absent, null or empty) is answered with the guard's error object; any other value is handed to the service. Module `Controller`.
- **`WikipediaService.search` and its three mappers** (`src/app.service.ts`). Module `Service`.
  - `searchTitle`: the first search hit's title, or null.
  - `getSummary`: description, extract, thumbnail and page URL, with `|| null` on the last two, and all null on failure.
  - `getFirstParagraphs`: the extracted paragraphs, cut with `slice(0, count)`, or `[]` on failure.
  - `search`: chains the mappers, merges the summary and the paragraphs into one article, and maps a throw to the error object or to a failed answer.
- **`extractParagraphs`**. Module `Extractor`, with the scanners in module `Markup`. It covers:
  - the global, dot-all, lazy regular expression `/<p>(.*?)<\/p>/gs` driven by `exec` and `lastIndex`;
  - the two `replace` calls that delete tags (`/<[^>]*>/g`) and footnote markers (`/\[\d+\]/g`);
  - `trim()` with JavaScript's white-space set.

  `ExtractParagraphs` is a method with the source's `while` loop. It is proved equal to the function `Paragraphs`, which keeps the cleaned capture of every match, in document order, when its trimmed text is not empty.
- **The end-to-end scenarios** of `test/app.e2e-spec.ts`, with its mocked upstream answers. Modules `ExtractorExamples` and `ServiceExamples`.

How the upstream HTTP is represented: the upstream HTTP calls are inputs. An `Upstream` value gives, for each of the three endpoints, what issuing the request yields:
- `Sent(Ok(payload))`: a payload the mapper can read;
- `Sent(Failed)`: an error the mapper's own `catchError` absorbs, such as a network or HTTP error, or a payload without the object the mapper dereferences;
- `Threw(thrown)`: `httpService.get` throwing. For the search request this escapes `search` and the answer fails. For the summary and parse requests, issued inside `switchMap`, the catch-all of `search` takes it. `thrown` is `Nullish` (`null` or `undefined`) or a value with a `message`.

String values are `JsString`: `Undefined`, `Null` or `Str(text)`. An `Undefined` field is left out of the JSON answer; a `Null` one is written as `null`. A JavaScript object that `?.` reads (a thumbnail, the content URLs) is an `Option`, since `?.` treats null and undefined alike.

Behaviour that is easy to misread in the code:

- **Paragraph count.** `search` asks for 4 paragraphs (`src/app.service.ts:27`). The comment on that line says 3, and the end-to-end test checks for at most 3 (`test/app.e2e-spec.ts:101`). `Service.FourParagraphsReachable` shows an article with 4 paragraphs.
- **Re-extraction.** Extracting again from the output, wrapped back in `<p>…</p>`, gives the same text when no paragraph holds a `<` or a `[` (`Extractor.ExtractAgainWhenPlain`). It can differ otherwise, because marker removal is a single pass: `<p>[[1]2]</p>` yields `[2]`, which then yields nothing (`ExtractorExamples.ExtractAgainCanDiffer`).
- **White-space queries.** The guard tests only `!query`, so `"   "` is passed on to the service (`Controller.WhitespaceQueryDelegated`).
- **No second check in the service.** `search` does not check the query itself: it sends any query to the search request.
- **Empty strings become null.** An empty thumbnail source or page URL becomes `null` through `|| null`, not only a missing one (`Service.ThumbnailSource`, `Service.DesktopPage`).
- **A null thrown value fails the answer.** The catch-all reads `error.message`; for a thrown `null` or `undefined` that read throws, and the request fails instead of getting the error object (`Service.CatchAll`).

## Model

| member | source | states |
|---|---|---|
| Controller.Search | src/app.controller.ts:10-17 | a falsy `query` (absent, null or empty) gives the guard's error object, which has only an `error` field; any other query gives exactly what the service's `search` gives |
| Controller.GuardOrDelegate | src/app.controller.ts:11-16 | the answer is the "query required" object if and only if the query is falsy, since the service never answers with that object |
| Controller.Falsy | src/app.controller.ts:11 | `!query` holds exactly for an absent, null or empty query, the values the service's truthiness test rejects |
| Controller.GuardIgnoresUpstream | src/app.controller.ts:11-15 | for a falsy query the answer does not depend on any upstream response |
| Controller.WhitespaceQueryDelegated | src/app.controller.ts:11-16 | a non-empty query made only of white space passes the guard and reaches the service unchanged |
| JsValues.Truthy | src/app.service.ts:17 | a string value is truthy exactly when it is not undefined, null or the empty string |
| JsValues.OrNull | src/app.service.ts:87-88 | `s \|\| null` keeps a non-empty string and turns undefined, null and the empty string into null |
| Service.SearchTitle | src/app.service.ts:65-75 | the title of the first hit, verbatim (possibly undefined or empty); null when the hit list is missing or empty, and when the request fails |
| Service.ThumbnailSource | src/app.service.ts:87 | `thumbnail?.source \|\| null` is a string exactly when the thumbnail exists and its source is a non-empty string, equal to that source, and null otherwise |
| Service.DesktopPage | src/app.service.ts:88 | `content_urls?.desktop?.page \|\| null` is a string exactly when both objects exist and the page is a non-empty string, equal to that page, and null otherwise |
| Service.GetSummary | src/app.service.ts:84-98 | on failure all four fields are null; otherwise description and extract pass through, undefined ones included, and thumbnail and URL equal the source value when it exists and is not empty, and are null otherwise |
| Service.SliceTo | src/app.service.ts:121 | `slice(0, end)` returns a prefix whose length is `end` clamped to the sequence, with a negative `end` counting back from the length |
| Service.GetFirstParagraphs | src/app.service.ts:116-126 | on failure `[]`; otherwise a prefix of the extracted paragraphs holding `min(count, all)` of them for a non-negative count |
| Service.FirstParagraphsHaveText | src/app.service.ts:116-121 | every paragraph `getFirstParagraphs` returns has non-empty trimmed text and no complete tag |
| Service.CatchAll | src/app.service.ts:39-46 | a thrown `null` or `undefined` fails the answer, since reading its `message` throws; any other thrown value gives the error object with the query and the value's `message` as `details` |
| Service.Search | src/app.service.ts:14-47 | a throw while issuing the search request fails the answer; otherwise the "no result" object, with the query and no `details`, exactly when the title is not truthy; a throw while issuing the summary request, or then the parse request, goes to the catch-all; otherwise the article merges the title, the summary's four fields and the first 4 paragraphs |
| Service.SearchShapes | src/app.service.ts:15-46 | every error object echoes the query and carries one of the two messages; every article carries the first hit's non-empty title and at most 4 paragraphs, each with visible text |
| Service.PartialFailureKeepsArticle | src/app.service.ts:25-37 | a failed summary or paragraph request still gives an article, with all-null summary fields or no paragraphs |
| Service.ErroredOnlyOnThrow | src/app.service.ts:14-47 | the answer fails exactly when issuing the search request throws, or when issuing the summary request, or then the parse request, throws `null` or `undefined` |
| Service.FourParagraphsReachable | src/app.service.ts:27 | with an introduction of five paragraphs the article holds 4, more than the 3 the comment on that line announces |
| Markup.IndexOf | src/app.service.ts:136 | a found index lies at or after the start and the pattern occurs there |
| Markup.IndexOfIsFirst | src/app.service.ts:136 | no occurrence lies between the start and the index found, and none at all when nothing is found |
| Markup.IndexOfFinds | src/app.service.ts:136 | an occurrence with none before it is the one the search returns |
| Markup.IndexOfSkip | src/app.service.ts:136 | a search from a start with no occurrence before a later point finds what a search from that point finds |
| Markup.StripTags | src/app.service.ts:142 | tag removal never lengthens the text |
| Markup.StripTagsOnlyDeletes | src/app.service.ts:142 | every character tag removal returns is a character of its input |
| Markup.StripTagsLeavesNoTag | src/app.service.ts:142 | after tag removal no `<` has a `>` after it |
| Markup.StripTagsKeepsTagFree | src/app.service.ts:142 | text without a complete tag is returned unchanged |
| Markup.StripTagsKeepsPlainPrefix | src/app.service.ts:142 | text without `<` in front of the rest is kept as it is |
| Markup.StripTagsDropsTag | src/app.service.ts:142 | a whole tag `<…>` in front of the rest is deleted and nothing else is |
| Markup.DigitRun | src/app.service.ts:143 | the leading digit run is no longer than the text |
| Markup.DigitRunIsMaximal | src/app.service.ts:143 | `\d+` takes every leading digit and stops at the first non-digit |
| Markup.DigitRunBeforeNonDigit | src/app.service.ts:143 | a digit run stops at the first non-digit, whatever follows |
| Markup.MarkerLength | src/app.service.ts:143 | the marker length never exceeds the text |
| Markup.MarkerLengthIsMarker | src/app.service.ts:143 | a non-zero marker length delimits a whole `[digits]` marker, and it is the only prefix that is one |
| Markup.MarkerLengthOfMarker | src/app.service.ts:143 | text starting with `[digits]` has a marker of exactly that length |
| Markup.MarkerLengthBeforeBracket | src/app.service.ts:143 | the `[` of a following marker stops `\d+`, so a marker starting earlier cannot reach into it |
| Markup.StripFootnotes | src/app.service.ts:143 | marker removal never lengthens the text |
| Markup.StripFootnotesOnlyDeletes | src/app.service.ts:143 | every character marker removal returns is a character of its input |
| Markup.StripFootnotesKeepsMarkerFree | src/app.service.ts:143 | text in which no marker starts is returned unchanged |
| Markup.NoBracketIsMarkerFree | src/app.service.ts:143 | text without `[` holds no marker |
| Markup.StripFootnotesDropsMarker | src/app.service.ts:143 | a marker after text in which no marker starts is deleted, and the text before it is kept |
| Markup.StripFootnotesKeepsBracket | src/app.service.ts:143 | a `[` not followed by a digit is kept |
| Markup.StripFootnotesKeepsNoTag | src/app.service.ts:142-143 | deleting markers cannot create a complete tag |
| Markup.TrimStart | src/app.service.ts:146 | trimming the start never lengthens the text |
| Markup.TrimEnd | src/app.service.ts:146 | trimming the end never lengthens the text |
| Markup.TrimStartDropsWhitespace | src/app.service.ts:146 | the result is a suffix, everything dropped is JavaScript white space, and the result does not start with white space |
| Markup.TrimEndDropsWhitespace | src/app.service.ts:146 | the result is a prefix, everything dropped is JavaScript white space, and the result does not end with white space |
| Markup.Trim | src/app.service.ts:146 | `trim()` never lengthens the text |
| Markup.TrimDropsWhitespace | src/app.service.ts:146 | `trim()` returns a slice of its input that neither starts nor ends with white space, and everything it drops on either side is JavaScript white space |
| Markup.TrimNonEmptyIffText | src/app.service.ts:146 | `trim().length > 0` holds exactly when the text has a character that is not white space |
| Extractor.Exec | src/app.service.ts:136-139 | a match found starts at or after `lastIndex` and is a `<p>` followed by a `</p>` |
| Extractor.ExecIsLeftmostLazy | src/app.service.ts:136 | the match is the leftmost `<p>` and ends at the first `</p>` after it; when none is found, no `<p>` at or after `lastIndex` has a `</p>` after it |
| Extractor.MatchesFrom | src/app.service.ts:139 | every match the loop meets is a `<p>…</p>` match at or after its starting index |
| Extractor.MatchesStep | src/app.service.ts:139 | one `exec` call yields its match, then the matches after its `</p>` |
| Extractor.MatchesInOrder | src/app.service.ts:136-139 | the matches do not overlap and come in document order |
| Extractor.Clean | src/app.service.ts:141-143 | the clean-up never lengthens the capture |
| Extractor.CleanLeavesNoTag | src/app.service.ts:141-143 | no complete tag survives tag removal followed by marker removal |
| Extractor.CleanKeepsPlain | src/app.service.ts:141-143 | text without `<` and `[` passes the clean-up unchanged |
| Extractor.Keep | src/app.service.ts:146-147 | a cleaned capture is kept, untrimmed, exactly when its trimmed text is not empty |
| Extractor.KeepPlain | src/app.service.ts:146-147 | plain text with visible text is kept as it is |
| Extractor.Kept | src/app.service.ts:139-149 | the loop keeps no more paragraphs than it meets matches |
| Extractor.KeptAreParagraphText | src/app.service.ts:145-148 | every kept paragraph has non-empty trimmed text, visible text and no complete tag |
| Extractor.ExtractParagraphs | src/app.service.ts:131-152 | the `exec` loop returns the kept cleaned captures of all matches in order, each with non-empty trimmed text and no complete tag |
| Extractor.LoopStep | src/app.service.ts:139-148 | one turn of the loop keeps what is collected plus what remains to collect unchanged |
| Extractor.ParagraphsHaveText | src/app.service.ts:145-148 | every paragraph returned has non-empty trimmed text and no complete tag |
| Extractor.NoElementNoParagraphs | src/app.service.ts:136-139 | markup in which no literal `<p>` is followed by a `</p>` (an unclosed `<p>` or a `<p class=…>` included) yields no paragraph |
| Extractor.ExecFindsElement | src/app.service.ts:136-139 | `exec` finds `<p>body</p>` at the current index when no `</p>` starts inside the body, and captures the body |
| Extractor.Capture | src/app.service.ts:141 | `match[1]` has the length of the text between the end of `<p>` and the start of `</p>` |
| Extractor.CaptureBetweenDelimiters | src/app.service.ts:136-141 | the matched text is `<p>`, then the capture, then `</p>` |
| Extractor.ExecSkipsGap | src/app.service.ts:136-139 | `exec` from an index finds the same match as from a later index when no `<p>` starts in between |
| Extractor.GapElementStep | src/app.service.ts:136-148 | markup in which no literal `<p>` starts before the element, then an element whose body holds no `</p>`: the loop contributes the kept cleaned body and resumes after the element |
| Extractor.NoCloseTagInBody | src/app.service.ts:136 | a body lacking `<` or lacking `p` holds no `</p>` of its own, even with `</p>` after it |
| Extractor.ElementStep | src/app.service.ts:139-148 | a `<p>body</p>` element in which no `</p>` starts inside the body contributes its kept cleaned body, then the scan resumes after it |
| Extractor.PlainElementStep | src/app.service.ts:139-148 | a plain element with visible text contributes its body unchanged |
| Extractor.WrapRoundTripFrom | src/app.service.ts:131-152 | scanning from an index where plain paragraphs wrapped in `<p>…</p>` start gives those paragraphs back |
| Extractor.WrapRoundTrip | src/app.service.ts:131-152 | wrapping plain paragraphs with visible text in `<p>…</p>` and extracting gives them back |
| Extractor.Paragraphs | src/app.service.ts:131-152 | the loop keeps no more paragraphs than the regular expression has matches |
| Extractor.Layout | src/app.service.ts:136 | a document of stretches of markup and elements is exactly those pieces in order, the markup alone when there is no element |
| Extractor.KeptBodies | src/app.service.ts:141-148 | the cleaned element bodies with visible text are no more than the bodies |
| Extractor.LayoutFrom | src/app.service.ts:136-149 | scanning, from any index, stretches of markup in which no literal `<p>` starts (`<pre>` or `<p class=…>` included) between elements whose bodies hold no `</p>` gives the kept cleaned bodies in order |
| Extractor.NoOpenTagBeforeElement | src/app.service.ts:136 | no `<p>` starts across the end of a stretch without `<p>` when an element follows, since the element's `<` is not `p` or `>` |
| Extractor.LayoutParagraphs | src/app.service.ts:131-152 | such a document yields exactly the kept cleaned bodies of its elements, in order |
| Extractor.SingleElement | src/app.service.ts:139-148 | one element in which no `</p>` starts inside the body yields its cleaned body when that has visible text, and nothing otherwise |
| Extractor.ExtractAgainWhenPlain | src/app.service.ts:131-152 | re-extracting the wrapped output gives the same paragraphs when none holds `<` or `[` |
| ExtractorExamples.CleanDropsElementTags | src/app.service.ts:141-142 | an element's two tags are deleted from plain text and its text is kept |
| ExtractorExamples.CleanDropsBoldTags | test/app.e2e-spec.ts:48 | the first paragraph of the end-to-end fixture comes out as plain text containing `réseau informatique mondial` |
| ExtractorExamples.FirstHasNoCloseTag | test/app.e2e-spec.ts:48 | no `</p>` starts inside the body of the fixture's first paragraph, which holds `<b>` and `</b>` |
| ExtractorExamples.FirstKept | test/app.e2e-spec.ts:48 | the fixture's first paragraph is kept, without its `<b>` tags |
| ExtractorExamples.IntroKept | test/app.e2e-spec.ts:48-50 | the fixture's three paragraph bodies are all kept, the first without its `<b>` tags |
| ExtractorExamples.IntroParagraphs | test/app.e2e-spec.ts:47-51 | the fixture's introduction yields its three paragraphs in order, the first being `Internet est le réseau informatique mondial accessible au public.` |
| ExtractorExamples.CleanDropsTrailingMarker | src/app.service.ts:143 | a marker after plain text is deleted |
| ExtractorExamples.WaterIsWet | src/app.service.ts:141-143 | `Water is wet.[12]` is cleaned to `Water is wet.` |
| ExtractorExamples.WaterParagraph | src/app.service.ts:131-152 | `<p>Water is wet.[12]</p>` yields `["Water is wet."]` |
| ExtractorExamples.BoldClaim | src/app.service.ts:141-143 | `A <b>bold</b> claim.` is cleaned to `A bold claim.` |
| ExtractorExamples.BoldClaimParagraph | src/app.service.ts:131-152 | `<p>A <b>bold</b> claim.</p>` yields `["A bold claim."]` |
| ExtractorExamples.FootnotesOfNestedMarker | src/app.service.ts:143 | the single left-to-right pass turns `[[1]2]` into `[2]` |
| ExtractorExamples.CleanNestedMarker | src/app.service.ts:141-143 | the clean-up turns `[[1]2]` into `[2]` |
| ExtractorExamples.NestedMarkerSurvives | src/app.service.ts:139-148 | `<p>[[1]2]</p>` yields `["[2]"]` |
| ExtractorExamples.MarkerOnlyDropped | src/app.service.ts:143-147 | a paragraph that is only a marker is dropped |
| ExtractorExamples.ExtractAgainCanDiffer | src/app.service.ts:131-152 | re-extracting the wrapped output of `<p>[[1]2]</p>` does not give the same paragraphs |
| ExtractorExamples.BrokenMarkerBeforeMarker | src/app.service.ts:143 | `a[1x[2]` becomes `a[1x`: a `[` that starts no marker does not hide the marker after it |
| ExtractorExamples.UnclosedElementNoParagraphs | src/app.service.ts:136-139 | `<p>x`, an element never closed, yields no paragraph |
| ExtractorExamples.PreTagSkipped | src/app.service.ts:136-147 | `<pre><p>a</p>` yields `["a"]`: a tag starting with `<p` that is not `<p>` is skipped |
| ServiceExamples.InternetSummaryFields | test/app.e2e-spec.ts:27-42 | the mocked summary of `Internet` passes through `getSummary` with its description, extract, thumbnail source and page URL |
| ServiceExamples.InternetParagraphs | test/app.e2e-spec.ts:44-55 | asked for 4 paragraphs, the mocked introduction gives its 3 |
| ServiceExamples.InternetArticle | test/app.e2e-spec.ts:90-104 | with the mocked upstream, `?query=internet` gives the `Internet` article with the mocked summary fields and three paragraphs, the first containing `réseau informatique mondial` |
| ServiceExamples.MissingQueryAnswered | test/app.e2e-spec.ts:107-115 | without `query` the answer is the guard's error object |
| ServiceExamples.NoHitAnswered | test/app.e2e-spec.ts:117-136 | a search without hits gives the "no result" error object |
| ServiceExamples.ThrowingSearchFails | test/app.e2e-spec.ts:138-145 | a search request that throws `Error('API Error')` fails the answer |

## Left out

- HTTP transport, URLs, query parameters and `encodeURIComponent` are not modelled. Each endpoint's answer for a title is an input.
- A lone surrogate cannot be represented, in a title or in the HTML, because a Dafny `char` is a Unicode scalar value. In the source such a title makes `encodeURIComponent` throw while the summary request is built, and the catch-all answers with its error object; the model covers that outcome only as a summary endpoint that throws.
- RxJS scheduling is reduced to its outcome. `forkJoin` waits for both requests, each of which emits once, so the order of their responses does not change the answer. The two requests are issued in the order of the object literal, summary first; a throw while issuing the summary request means the parse request is never issued, and the model follows that order.
- The `console.error` logging in the four `catchError` handlers is not modelled. It does not affect the answer.
- NestJS wiring, the module file, the status codes and the JSON serialisation of the answer are not modelled. An `Errored` answer stands for the framework's status 500 response, and an `Undefined` field for a key left out of the JSON object.
- Payload values of an unexpected JavaScript type are not modelled: a number where a string is expected, or a non-array `search` field. String fields are `JsString`s and objects are `Option`s. A missing object that the mapper dereferences is a `Failed` response.
- A thrown value whose `message` is not a string (a number, an object), or whose `message` getter throws, is not modelled. A thrown value's `message` is a `JsString`.
- A `query` parameter given more than once, which Express turns into an array, is not modelled. The query is a string, or undefined when absent.
- Regular expressions are not modelled in general. Only the three fixed patterns the service uses are written out as scanners.
