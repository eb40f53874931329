# Interview-question scraper: a Dafny model of its core

The browser extension collects a company's interview questions from a paged
listing site and exports them as a spreadsheet. It has two halves:

- A routine injected into each results page.
  - It keeps the anchors whose `href` is exactly `/interview-questions/<slug>` and whose cleaned text has more than 8 UTF-16 code units.
  - For each such anchor, it reads the position, category and date from the anchor's card and builds one row.
  - It removes rows whose case-folded key `question|position|category` was already seen on that page.
- A loop in the popup.
  - It walks the pages from 1 on and stops at the first empty page or after page 200.
  - It aborts on any navigation or injection error.
  - It deduplicates the gathered rows again across pages with the same key, and numbers them `Sl No` 1, 2, ….

The model is seven modules:

- `Options`: `Option` and `Result`.
- `Sequences`: order-preserving selection from a sequence.
- `Text`: the ECMAScript white-space set, `trim`, `replace(/\s+/g, sep)`, and the words of a string together with their join.
- `Rows`: the row, its dedup key, dedup from a `seen` set, and the `Sl No` numbering.
- `Extractor`: `clean`, `isQuestionLink`, the link filter, card rows, and the per-page result.
- `Filename`: `toFilename`.
- `Scraper`: the pagination loop and `scrapeCompany`.

The browser is a parameter:

- A page is a list of anchors. Each anchor has an optional `href`, its text content, and the optional texts its card lookups found.
- The site is the list of outcomes of loading each page in turn.
  - `LoadFailed(message)`: navigation, the load wait or the injection threw.
  - `NoResult`: the injection returned no value.
  - `Loaded(page)`: the routine ran on that page.
- The active tab is an optional tab with an optional id.

## Model

| member | source | states |
|---|---|---|
| Extractor.Clean | popup.js:71 | The cleaned text is normalized: no white space at either end, only single plain spaces inside. It is the text's words joined by one space, and a missing text cleans to "". |
| Extractor.CleanIdempotent | popup.js:71 | Cleaning an already cleaned text changes nothing. |
| Extractor.CleanFixedPoints | popup.js:71 | A text is left unchanged by cleaning exactly when it is already normalized. |
| Extractor.CleanSkipsLeadingSpace | popup.js:71 | Leading white space never affects the cleaned text. |
| Extractor.Segment | popup.js:75 | The `[^/]+` part matches exactly the non-empty strings without a slash. |
| Extractor.IsQuestionLink | popup.js:73-76 | An href is a question link iff it starts with `/interview-questions/` and is followed by a non-empty tail that contains no `/`. An empty href is not one. |
| Extractor.QuestionLinkUnderPrefix | popup.js:73-76 | Under the prefix, a link is a question link exactly when its segment is non-empty and has no slash. |
| Extractor.DeeperPathRejected | popup.js:73-76 | A link with two segments under the prefix is never a question link. |
| Extractor.ListingLinksRejected | popup.js:73-76 | The card's own position and category links are not question links. |
| Extractor.SegmentLinks | popup.js:73-76 | A one-segment question link is accepted, and the bare prefix is rejected. |
| Extractor.OtherLinksRejected | popup.js:73-76 | An absolute URL with the same path is rejected, and so is the empty href. |
| Extractor.Utf16Length | popup.js:89-90 | The UTF-16 length of a text lies between its code-point count and twice that count. |
| Extractor.Utf16LengthBmp | popup.js:89-90 | Text made only of BMP characters has a UTF-16 length equal to its character count. |
| Extractor.Selected | popup.js:86 | The `href^=` selector picks exactly the anchors whose `href` attribute is present and is the question prefix followed by anything. |
| Extractor.IsQuestionAnchor | popup.js:86-91 | An anchor passes the filter iff it has an `href` that is a question link and its cleaned text is longer than 8 code units; the selector and the `""` fallback change nothing. A passing anchor's cleaned text has more than 4 characters. |
| Extractor.QuestionLinks | popup.js:86-91 | The kept anchors are an order-preserving subsequence of the page's anchors. Every kept anchor satisfies the filter, and every anchor of the page that satisfies it is kept. |
| Extractor.QuestionLinksOfOne | popup.js:87-91 | A single anchor is kept exactly when it passes the filter. |
| Extractor.QuestionLinksAppend | popup.js:87-91 | The filter of two stretches of anchors is the filter of the first followed by the filter of the second. Together with the single-anchor case this fixes the order and the number of occurrences of the kept anchors. |
| Extractor.CardRow | popup.js:95-118 | A link yields a row iff it has a card and its cleaned text is non-empty. The row's question is the cleaned link text; position, category and date are the cleaned card texts, with "" when a lookup found nothing. |
| Extractor.CardRows | popup.js:93-119 | Every row comes from some question link's card. Every question link with a card and non-empty text contributes its row. |
| Extractor.CardRowsOfOne | popup.js:95-119 | A single link yields its row when it has one, and nothing otherwise. |
| Extractor.CardRowsAppend | popup.js:93-119 | The rows of two runs of links are the rows of the first followed by those of the second. Together with the single-link case this gives one row per yielding link, in link order. |
| Extractor.ExtractPage | popup.js:121-135 | The page result's count equals the number of its rows, and no two rows share a key. |
| Extractor.ExtractPageProvenance | popup.js:86-129 | Every row of a page result was built from a question link of that page. All four of its fields are normalized, and its question is longer than 8 code units. |
| Extractor.ExtractPageComplete | popup.js:86-129 | Every question link of the page that sits in a card yields a row, and that row's key is among the page result's keys. |
| Extractor.OneQuestionPage | popup.js:86-135 | On a page holding a padded question link and two card links, the result is exactly the one question's row. |
| Rows.DedupFrom | popup.js:196-204 | Starting from a `seen` set, the kept rows are a subsequence of the input with pairwise distinct keys. Their keys are exactly the input's keys minus `seen`. |
| Rows.DedupRows | popup.js:121-129 | The `forEach` loop with its `seen` set computes `Dedup`. The result has unique keys and the same key set as the input. |
| Rows.DedupKeepsFirstOccurrences | popup.js:196-204 | Dedup keeps exactly the first row of each key, in input order; the reference definition is built from the back. |
| Rows.DedupAppend | popup.js:196-204 | Deduplicating `a + b` is deduplicating `a`, then `b` against the keys of `a`. |
| Rows.DedupAbsorbs | popup.js:196-204 | Deduplicating against a smaller `seen` set and then a larger one equals deduplicating against the larger one. |
| Rows.DedupIdempotent | popup.js:196-204 | Deduplicating twice equals deduplicating once. |
| Rows.DedupFixedPoints | popup.js:196-204 | A row list is unchanged by dedup exactly when its keys are already unique. |
| Rows.DedupKeepsUnique | popup.js:196-204 | Dedup leaves a list with unique keys as it is. |
| Rows.PageDedupRedundant | popup.js:121-129 | Deduplicating a page before adding it to the rest does not change the later dedup. |
| Rows.Key | popup.js:124 | The key is the lower-cased question, position and category joined by the vertical-bar separator; the date takes no part. |
| Rows.KeyIgnoresCase | popup.js:124 | Rows whose three key fields agree after lower-casing have the same key; the date plays no part. |
| Rows.CaseInsensitiveMerge | popup.js:199 | Two rows that differ only in letter case and date collapse to the first one. |
| Rows.SeparatorCollision | popup.js:199 | Two different rows whose fields, joined with the vertical-bar separator, coincide are merged, because the key does not escape the separator. |
| Rows.NumberFrom | popup.js:206 | Numbering keeps the length, and the row at index i gets number first + i. |
| Rows.NumberingRoundTrip | popup.js:206 | Dropping the numbers gives back the rows unchanged, in order. |
| Rows.NumbersIncrease | popup.js:206 | The numbers rise strictly, starting at 1 and ending at the row count. |
| Filename.FilenameStem | popup.js:20 | The stem is "Company" for a blank name and otherwise the name's words joined by `_`. It is never empty and never contains white space. |
| Filename.ToFilename | popup.js:19-21 | The file name is the stem followed by `_Interview_Questions.xlsx`. |
| Filename.SameWordsSameFilename | popup.js:19-21 | Names with the same words get the same file name, whatever their padding or spacing. |
| Filename.BlankCompany | popup.js:20 | Every blank name gives `Company_Interview_Questions.xlsx`. |
| Filename.AcmeCorp | popup.js:19-21 | A padded, double-spaced name gives `Acme_Corp_Interview_Questions.xlsx`. |
| Scraper.Paginate | popup.js:160-189 | The loop ends at a page between its start and 200. |
| Scraper.PaginateSpec | popup.js:160-189 | The loop stops at the first page that failed or was empty, or at page 200, and every page before it had rows. It fails exactly when the last page failed, with that page's message. Otherwise its rows are those of the visited pages in page order. |
| Scraper.Visit | popup.js:144-146 | A page load fails in the loop exactly when it threw, with its message. Otherwise the loop sees the page's raw rows deduplicated, and a missing result counts as no rows. |
| Scraper.PaginateLoop | popup.js:160-189 | The `while (true)` loop with `pageNo`, `emptyPages` and `allRows` computes the same page and outcome as the recursive definition. |
| Scraper.StopsAfterFirstEmptyPage | popup.js:177-179 | Three productive pages and an empty fourth end the loop at page 4 with the three pages' rows. |
| Scraper.StopsAtMaxPages | popup.js:186 | When every page has rows, the loop ends at page 200. |
| Scraper.ScrapeCompany | popup.js:151-206 | Without a usable tab the result is the "No active tab available." error. A successful result has unique keys and numbers 1, 2, … in order. |
| Scraper.NoUsableTab | popup.js:153 | A tab is usable exactly when it exists and has an id other than 0. |
| Scraper.NoTabNoScrape | popup.js:152-155 | A missing tab, an id-less tab, and tab id 0 are all refused. |
| Scraper.ScrapeCompanyFails | popup.js:164-189 | With a usable tab, the scrape fails exactly when the page it stopped on failed to load, with that page's message. |
| Scraper.ScrapeCompanyRows | popup.js:121-129 | A successful scrape returns the first row of each key over the raw rows of the visited pages. The per-page dedup makes no difference. |
| Scraper.GatheredDedup | popup.js:121-129 | Across any page range, the cross-page dedup of the per-page-deduplicated rows equals that of the raw rows. |

## Left out

- The `chrome.*` wrappers (`getActiveTab`, `updateTab`, `waitForTabComplete`, `executeScript`): the tab and each page's load outcome are parameters. A page's navigation, load wait or injection that throws becomes `LoadFailed` for that page.
- A failing `getActiveTab`: when the tab query itself reports an error, the scrape fails before any page is loaded. The model takes the tab as given and cannot fail this way.
- `sleep` and `setStatus`: delays and status messages do not affect the result.
- `findCard` and the card lookups (`closest`, `querySelector`, the date pattern fallback): their DOM search is not modelled. An anchor carries the optional card and the texts its lookups found.
- `companySlug` and the page URL (`encodeURIComponent`, `BASE_URL`): navigation is abstracted into the load outcome of page n.
- Restoring `originalUrl` in the `finally` block: the model does not represent it. When that navigation fails, its error replaces both the loop's rows and the loop's own error. The model only covers the case where the restore succeeds or is skipped.
- `exportToExcel` and the start button handler: spreadsheet writing and UI wiring.
- The `title` field of the page result: nothing downstream reads it.
- Rows.Key: folds only ASCII letters, while `toLowerCase` folds all of Unicode. Non-ASCII letters that differ only in case give different keys in the model.
- Text.IsSpace: uses the Unicode 15 space separators; other Unicode versions may differ.
- Scraper.Paginate: its own contract gives only the bounds on the last page. The full behaviour is in `Scraper.PaginateSpec`.
- The load wait's timing is not modelled. `waitForTabComplete` compares the clock only when some later tab update arrives. With no further update the wait never settles, and a `complete` update for the tab resolves it even after 30 seconds. The model gives every page an outcome: a rejected wait is a `LoadFailed` that ends the scrape with an error. A wait that never settles is not represented. A timed-out page is not counted as an empty page that the loop moves past.
- A page is tried once, with no retries, and the empty-page limit is the fixed constant 1, as in the code.
