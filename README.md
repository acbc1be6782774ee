# paper-catcher2 in Dafny

paper-catcher2 collects paper metadata from arXiv, Springer, Semantic
Scholar, PubMed and CrossRef. It normalises and de-duplicates the records,
optionally has Gemini translate titles and abstracts, and renders the result
as HTML pages. The pages are browsed by two front-end scripts. When a
provider gives no abstract, the collector falls back on a web scraper that
reads the publisher's landing page.

This project models the decision logic under that pipeline and proves what
it guarantees:

- the `.env`/environment lookups and the search queries built from the keywords (`EnvConfig`, `Queries`);
- the request pacing and retry policies: the shared `RateLimiter` class, the per-client `fetchWithRetry` loops and Semantic Scholar's pacing (`RateLimiting`, `ClientRetry`);
- how every provider record becomes a `Paper`, and when the scraper is consulted (`Sources`, `PubMed`);
- de-duplication, the collection loop over the clients and the translation pass (`Papers`, `Aggregator`, `Translation`);
- `escapeHtml`, the card excerpt and the grouping by date (`HtmlRender`);
- the scraper's publisher cascade in both copies of `WebScraper` (`Scraper` for webScraper.js, `ScraperVariant` for src/webScraper.js);
- the browser-side preview, filtering and dialog rules (`FrontendScript` for script.js) and the sort/filter view state (`FrontendIndex` for src/index.js).

## Modelling conventions

- JavaScript values are `JsValues.JsValue`: `undefined`, `null`, booleans, integer numbers, strings, arrays, and objects carrying the xml2js text node `_`. Truthiness, `||` and `String(v)` are written out.
- `trim` uses the full JavaScript white-space set. `toLowerCase` folds ASCII letters only. `parseInt(s, 10)` and `Number(s)` give `None` for `NaN`.
- The network, the clock, `Math.random`, the Gemini service, JSDOM and the parsed XML/JSON trees are parameters:
  - `get(k)` or `responses(k)` is the answer to request number `k`;
  - `now`/`clock` is the time;
  - `jitter` is the random part of the back-off;
  - `service` is the translator;
  - `scrape` is what the scraper resolves to;
  - a `Document` maps selectors to element text and meta content.
- Sleeps are not performed. A method returns how long it would pause (`paused`, `wait`, `delays`), so every pause is part of the stated result.
- Code that updates objects in place is a class with `modifies` clauses:
  - `RateLimiting.RateLimiter`;
  - `ClientRetry.SemanticScholarPacer`;
  - `Aggregator.PaperCatcher`;
  - `FrontendIndex.Page`, whose `grid` is the paper grid's children and `headers` the date headers.
- Loops in the source are loops here, each proved against a specification function: collection, translation, the PubMed hit loop, `removeDuplicates`, `loadPapersData` and the two display updates.

## Model

| member | source | states |
|---|---|---|
| EnvConfig.LineValue | app.mjs:27-33 | a value is read from a line only if the trimmed line is exactly `KEY=value` and the value is non-blank |
| EnvConfig.ScanEnvLines | app.mjs:24-35 | the scan yields a value read from some line, and yields nothing only when no line assigns the key |
| EnvConfig.ScanEnvLinesFirst | app.mjs:26-33 | the first assigning line wins over every later one |
| EnvConfig.EnvValue | app.mjs:14-16 | an environment value is used only when it is non-blank |
| EnvConfig.GetEnvWithFallback | app.mjs:13-42 | precedence is environment, then `.env` file, then the fallback |
| EnvConfig.GetKeywordWithEnvPriority | app.mjs:45-76 | precedence is `.env` file, then environment, then the fallback |
| EnvConfig.LookupsAgreeUnlessBothSet | app.mjs:13-76 | the two lookups differ only when both sources define the key, and then each takes its own preferred source |
| EnvConfig.LookupUsableOrFallback | app.mjs:13-76 | both lookups return a non-blank value or exactly the fallback |
| EnvConfig.ReadsAssignment | app.mjs:28-32 | a `KEY=value` line with a non-blank value is read back as that value |
| Queries.DefaultKeywords | app.mjs:82-83 | with neither keyword configured, the keywords are `machinelearning` and `''` |
| Queries.KeywordsQueryParts | app.mjs:81-89 | the query quotes keyword 1, adds ` OR ` and quoted keyword 2 only when keyword 2 is non-empty; splitting at quotes recovers the keywords |
| Queries.ArxivQuery | app.mjs:164 | the arXiv query is `abs:`, the terms, ` OR ti:`, the terms again, in that order and nothing else: the abstract and the title are searched for the same terms |
| Queries.SpringerQueryParts | app.mjs:230-234 | the Springer query is `(keyword:"k1")` or `(keyword:"k1" OR keyword:"k2")`, recovered by splitting at quotes |
| Queries.PubMedQueryParts | app.mjs:417-424 | the PubMed query's quoted parts are the keywords with `[Title/Abstract]` and the 2023-3000 publication-date range, in that order |
| RateLimiting.CalculateBackoff | app.mjs:108-111 | the back-off never exceeds 50000 and, with jitter in [0,1000), lies between min(2^r·2000, 50000) and that bound plus the jitter |
| RateLimiting.BackoffMonotone | app.mjs:108-111 | the back-off does not decrease as the retry count grows |
| RateLimiting.ExecuteWithRetry | app.mjs:140-153 | `fn` runs at most `maxRetries+1` times; a retry happens only after a 429/503/401 error; a success returns its value; any other error, or a retriable one with no retries left, propagates; each sleep is the back-off for its retry count |
| RateLimiting.TotalBackoffBound | app.mjs:140-153 | the sleeps of one call total at most `maxRetries·50000` ms |
| RateLimiting.WaitBefore | app.mjs:118-125 | the limiter waits exactly when less than 60000/rpm ms passed since the key's last request, and then exactly until that gap has passed |
| RateLimiting.RateLimiter.constructor | app.mjs:92-99 | a new limiter has an empty queue, is idle, and has empty request-time and retry maps |
| RateLimiting.RateLimiter.AddToQueue | app.mjs:101-117 | the task joins the back of the queue, and the `processQueue` call made without awaiting runs its synchronous start at once: an idle limiter becomes busy with the queue's head (the new task when the queue was empty) and its `WaitBefore` wait, a busy one keeps the task queued; the maps are untouched |
| RateLimiting.RateLimiter.StartNext | app.mjs:113-125 | a task starts only when the limiter is idle and the queue is non-empty; it is the queue's head (FIFO); the limiter becomes busy; the wait is `WaitBefore` for the task's key; the maps are untouched |
| RateLimiting.RateLimiter.Finish | app.mjs:127-137 | finishing makes the limiter idle, keeps the queue, and records the request time and resets the retry count for the key only on success |
| RateLimiting.RunHead | app.mjs:113-137 | while a task runs, a further `processQueue` starts nothing; on success the task's key gets the finish time and a zero retry count; then the scheduled `processQueue` starts the next queued task after its `WaitBefore` wait from the updated times, or leaves the limiter idle with an empty queue |
| RateLimiting.Enqueue | app.mjs:101-117 | `addToQueue` for several tasks without awaiting: on an idle limiter the first call starts the head of the queue and the rest queue behind it in order; on a busy limiter all of them queue; the maps are untouched |
| RateLimiting.DrainRound | app.mjs:113-137 | round n: task n, started after the wait its key's last recorded request calls for, overlaps nothing, advances the request times and retry counts by its outcome, and task n+1 starts next after its own wait, or the limiter goes idle after the last task |
| RateLimiting.Drain | app.mjs:101-137 | tasks handed to an idle limiter together: the first starts at once, and all start in queue order, each after the wait the last successful request with its key calls for; the start attempt made while a task runs starts nothing, so no two tasks overlap; the limiter ends idle with an empty queue, its request times and retry counts updated by the successful tasks |
| RateLimiting.RecordedBySuccess | app.mjs:128-129 | a request time the limiter records for a new key is the finish time of a successful task with that key |
| ClientRetry.FetchWithRetry | app.mjs:320-349 | at most `maxRetries+1` requests; an OK response ends the loop and is returned; the last error is thrown only when retries are exhausted; each sleep is the 429 delay for a 429 and `baseDelay·2^k` otherwise |
| ClientRetry.SemanticScholarRateLimitDelay | app.mjs:329-334 | a 429 with `Retry-After: n`, n ≥ 1, waits n·1000 ms; a header that parses to no positive number gets the timer's 1 ms minimum; without the header it waits `2000·2^k` |
| ClientRetry.SemanticScholarFetch | app.mjs:320-349 | Semantic Scholar makes at most 3 requests and fails only after all 3 |
| ClientRetry.PubMedRateLimitDelayAsWritten | app.mjs:434-437 | as written, the Retry-After text read as a number n ≥ 1 is the timer delay in milliseconds, and any other text gets the 1 ms minimum; without it the delay is `400·2^k` |
| ClientRetry.PubMedRateLimitDelay | app.mjs:434-437 | the corrected delay reads a Retry-After of n ≥ 1 as n seconds, and any other text gets the 1 ms minimum; without it the delay is `400·2^k` |
| ClientRetry.PubMedRetryAfterSeconds | app.mjs:435-437 | `Retry-After: n` with n ≥ 1 makes the code as written wait n ms, while the corrected delay waits n·1000 ms, the same as Semantic Scholar; `Retry-After: 0` waits 1 ms in all three |
| ClientRetry.PubMedFetch | app.mjs:427-452 | PubMed as written makes at most 4 requests and fails only after all 4; it succeeds exactly when its last request did; sleep k is the as-written Retry-After delay after a 429 and `400·2^k` after any other failure |
| ClientRetry.PubMedFetchCorrected | app.mjs:427-452 | the same loop with the Retry-After read as seconds: the same request bounds, and sleep k is the corrected delay after a 429 |
| ClientRetry.FetchIgnoresDelay | app.mjs:427-452 | the 429 delay never changes how many requests the loop makes or what it settles with |
| ClientRetry.PubMedFetchAsWrittenVsCorrected | app.mjs:427-452 | PubMed as written and corrected make the same requests and settle the same way; their sleeps differ only after a 429 carrying a Retry-After header |
| ClientRetry.PubMedSleepsWithoutHeader | app.mjs:435-447 | without Retry-After headers, every PubMed sleep is `400·2^k`, whatever failed |
| ClientRetry.PacingWait | app.mjs:309-316 | Semantic Scholar sleeps exactly when the last request is less than 1200 ms old, and then until 1200 ms have passed |
| ClientRetry.SemanticScholarPacer.constructor | app.mjs:297 | pacing starts with no previous request (time 0) |
| ClientRetry.SemanticScholarPacer.EnforceRateLimit | app.mjs:309-318 | the sleep is `PacingWait` from the previous request time, and the new request time is the time after waking |
| Papers.NormalizeAbstract | app.mjs:1089-1093 | a kept abstract is truthy and not an object: a truthy non-object is kept, an object gives its text, a falsy one gives the placeholder |
| Papers.Normalize | app.mjs:1073-1093 | a kept paper's title becomes its title text, its abstract is normalised, and no other field changes |
| Papers.NormalizeStable | app.mjs:1073-1093 | normalising keeps the de-duplication key, is idempotent, and yields a string title and truthy abstract |
| Papers.DedupKeepsFirstOccurrences | app.mjs:1071-1097 | the output is, in input order, the normalised first paper of each key, and every first occurrence is kept |
| Papers.DedupKeysDistinct | app.mjs:1082-1096 | the output keys are pairwise distinct and none was already seen |
| Papers.DedupOfDistinct | app.mjs:1071-1097 | a list of normalised papers with distinct keys passes unchanged |
| Papers.DedupByIdempotent | app.mjs:1067-1101 | a second de-duplication pass returns the same list |
| Papers.DedupNormalizes | app.mjs:1086-1095 | every kept paper has a string title, a truthy non-object abstract and is already normalised |
| Papers.DedupIdempotent | app.mjs:1067-1101 | running `removeDuplicates` on its own output changes nothing |
| Papers.KeyIgnoresCaseAndPadding | app.mjs:1082 | for any titles s and t equal up to ASCII case, and any blank u and v, the title u+t+v has the same key as s |
| Papers.CaseAndSpaceInsensitive | app.mjs:1082-1096 | of two papers whose titles are equal up to case and surrounding white space, only the first survives, normalised |
| Papers.RemoveDuplicates | app.mjs:1067-1101 | the loop with its seen-set returns exactly the first-occurrence de-duplication of the input |
| Sources.FirstAlternate | app.mjs:194 | the arXiv link is the href of the first `alternate` link, and is absent only when there is none |
| Sources.ScrapedAbstract | app.mjs:198 | a scraped abstract is never falsy: an empty answer becomes the placeholder |
| Sources.ArxivScrapesOnlyBlankSummaries | app.mjs:186-214 | arXiv consults the scraper only for a blank summary with a link; otherwise the abstract is the trimmed summary |
| Sources.ArxivAbstractEmpty | app.mjs:189-199 | an arXiv abstract is falsy exactly when the summary is blank and there is no alternate link |
| Sources.ArxivLinkCases | app.mjs:194 | no `<link>` gives null, no alternate gives undefined, and a leading alternate gives its href |
| Sources.SpringerNeverScrapes | app.mjs:256-284 | the placeholder is set before the scrape test, so Springer papers never depend on the scraper; link and journal are always truthy |
| Sources.ScholarNeverScrapes | app.mjs:361-389 | Semantic Scholar never scrapes; missing abstract, year or venue give placeholders and a missing DOI gives null |
| Sources.ScholarPapers | app.mjs:359-389 | the client succeeds only if every detail request succeeds, and then maps hit i to paper i; otherwise it fails with one detail error |
| Sources.CrossRefAuthorNames | app.mjs:614 | each CrossRef author becomes `family[, given]`, one per author, in order |
| Sources.CrossRefAlwaysScrapes | app.mjs:609-622 | CrossRef always takes the abstract from scraping the DOI page, and never uses its own placeholder text |
| Sources.ArxivPapers | app.mjs:185-214 | one paper per arXiv entry, in feed order |
| Sources.SpringerPapers | app.mjs:255-284 | one paper per Springer record, in order |
| Sources.CrossRefPapers | app.mjs:608-637 | one paper per CrossRef item, in order |
| PubMed.AbstractSegments | app.mjs:535-543 | one segment per AbstractText entry, in order |
| PubMed.AbstractLines | app.mjs:535-544 | splitting the abstract at newlines gives back the segments when none contains a newline |
| PubMed.LabelledSegment | app.mjs:538-539 | a labelled entry reads `Label: text` |
| PubMed.AuthorNameParts | app.mjs:550-555 | an author is `Last Fore`, or `Last Initials` only when the forename is missing |
| PubMed.AuthorNames | app.mjs:549-555 | one name per author, in order |
| PubMed.PublishedParts | app.mjs:559-565 | the date is the year, then the month and day when present, joined by `-` |
| PubMed.FirstDoi | app.mjs:568 | the DOI comes from the first ArticleId typed `doi`, and is absent only when no id is typed `doi` |
| PubMed.DoiIsFirstTyped | app.mjs:567-568 | the DOI is that first typed id's text, or null when it is empty |
| PubMed.PaperDetails | app.mjs:510-577 | a missing article yields all placeholders; otherwise the title is the article title or the placeholder, the abstract the joined segments or the placeholder, the date `PublishedOf` the `PubDate`, the journal the journal title or the placeholder, and the DOI and authors come from the article; title, abstract and journal are always truthy |
| PubMed.PubMedPaperFields | app.mjs:469-484 | the paper of a present article carries its title or the placeholder, its `Y[-M][-D]` date or the placeholder when that is empty, its journal title or the placeholder, its DOI and its PubMed link |
| PubMed.PubMedPaperDate | app.mjs:559-565 | a dated article's paper carries its year, then the month and day when present, read back at the dashes |
| PubMed.PubMedNeverScrapes | app.mjs:469-484 | PubMed never scrapes: the abstract is the article's or the placeholder, and a missing article gives the all-placeholder paper |
| PubMed.HitPapers | app.mjs:466-491 | each search hit gives its paper, or nothing when its detail fetch threw |
| PubMed.PubMedPapersCount | app.mjs:466-491 | the client returns one paper per successful detail fetch |
| PubMed.PubMedDropsFailed | app.mjs:488-490 | a hit whose detail fetch threw is dropped, not given placeholders |
| PubMed.PubMedPapersAllFetched | app.mjs:466-486 | when every detail fetch succeeds, hit i becomes paper i |
| PubMed.FetchPubMedPapers | app.mjs:454-508 | the hit loop returns exactly the papers of the successful hits, pausing 500 ms after each |
| Translation.TranslationEnabled | app.mjs:670-712 | translation is on exactly when a Gemini key resolves and the client was created |
| Translation.TranslateText | app.mjs:715-738 | blank or falsy text gives `''` even when disabled; disabled returns the text unchanged; enabled returns the trimmed translation, or the text when the service fails; a truthy non-string is a TypeError |
| Translation.Untranslated | app.mjs:744-748 | the passthrough copies title and abstract into the translated fields and changes nothing else |
| Translation.TranslatePaper | app.mjs:740-771 | only the translated fields change; disabled (or a non-string title) gives the passthrough; a failure gives the passthrough |
| Translation.BlankNeverTranslated | app.mjs:716-718 | blank text is never sent to the service |
| Translation.DisabledIsIdentity | app.mjs:720-723 | disabled translation returns non-blank text unchanged |
| Translation.DisabledIgnoresService | app.mjs:742-749 | disabled translation does not depend on the service |
| Translation.TranslateAll | app.mjs:1116-1130 | one translated paper per input, in order |
| Translation.TranslateAllDisabled | app.mjs:1104-1111 | disabled, the list keeps its length, translated title = title, translated abstract = abstract, and nothing else changes |
| Translation.TranslatePapers | app.mjs:1103-1134 | the loop returns `TranslateAll`, pausing 2000 ms per paper only when enabled |
| Aggregator.Roster | app.mjs:998-1024 | the clients are arXiv and Semantic Scholar, then Springer (its variable set and its key resolving non-empty), then PubMed (its variable set), then CrossRef, each at most once |
| Aggregator.BlankSpringerKeyLeftOut | app.mjs:1008-1013 | a blank Springer key passes the constructor's check, but the client's constructor throws and Springer is left out |
| Aggregator.UsableSpringerKeyIn | app.mjs:1008-1010 | a non-blank Springer key registers the client |
| Aggregator.GatheredInClientOrder | app.mjs:1030-1054 | collected papers are the clients' papers concatenated in client order |
| Aggregator.FailedClientAddsNothing | app.mjs:1058-1060 | a client that throws contributes nothing and later clients still run |
| Aggregator.GatheredFrom | app.mjs:1054 | every collected paper came from a client that returned |
| Aggregator.CollectedDistinct | app.mjs:1064 | the collected list has pairwise distinct de-duplication keys |
| Aggregator.CollectedFromGathered | app.mjs:1064 | every collected paper is the normalised form of a gathered one |
| Aggregator.PaperCatcher.constructor | app.mjs:998-1024 | the catcher's clients are the roster, and translation is on as the translator decides |
| Aggregator.PaperCatcher.CollectPapers | app.mjs:1026-1065 | the result is the de-duplicated concatenation of the returning clients' papers, with a 1000 ms pause after each such client |
| Aggregator.PaperCatcher.TranslatePapers | app.mjs:1103-1134 | the catcher translates with its own switch, as `TranslateAll` specifies |
| HtmlRender.EscapeChar | app.mjs:925-929 | each of `& < > " '` becomes an entity starting with `&`; other characters are kept |
| HtmlRender.EscapeText | app.mjs:924-929 | escaped text contains none of `< > " '` and is never shorter than its input |
| HtmlRender.ReplaceMarkupIsEscape | app.mjs:924-929 | the five ordered global replacements, `&` first, equal per-character escaping, so no entity is escaped twice |
| HtmlRender.EscapeHtml | app.mjs:918-930 | falsy input gives `''`; otherwise the string form (arrays joined by `, `) is escaped and contains no markup characters |
| HtmlRender.UnescapeEscape | app.mjs:924-929 | decoding the entities of escaped text gives back the text |
| HtmlRender.EscapeHtmlRoundTrip | app.mjs:918-930 | for any non-empty string, un-escaping `escapeHtml` returns the original |
| HtmlRender.EscapeHtmlArray | app.mjs:922 | an array of two strings is escaped as the strings joined by `, ` |
| HtmlRender.CardAbstract | app.mjs:832-840 | the card shows an excerpt exactly when the translated-or-original abstract is a string; otherwise `substring` throws |
| HtmlRender.CardAbstractText | app.mjs:840 | un-escaped, the excerpt is the first 300 characters plus `...` when longer, and the whole text otherwise |
| HtmlRender.CardPrefersTranslation | app.mjs:832 | a non-empty translated abstract is shown instead of the original |
| HtmlRender.DateKeyPrefix | app.mjs:881 | the date key is the text before the first `T` |
| HtmlRender.PaperDay | app.mjs:880-881 | a paper is filed under its date's key, or today's when the date is falsy; a truthy non-string date throws |
| HtmlRender.GroupingIsFiled | app.mjs:876-890 | a day is a key exactly when some paper is filed under it, and its group is those papers in input order |
| HtmlRender.FiledMember | app.mjs:879-887 | every dated paper lands in the group of its own day |
| HtmlRender.GroupPapersByDate | app.mjs:876-890 | the loop throws exactly when some date is a truthy non-string, and otherwise returns the grouping |
| Scraper.FetchWithRetry | webScraper.js:11-32 | at most 4 requests with 2000 ms between them; earlier requests all failed; a success returns the page with `responseUrl || url` |
| Scraper.FetchBounds | webScraper.js:11-32 | a fetch makes at most 4 calls and sleeps at most 6000 ms, and fails exactly when all 4 requests fail |
| Scraper.FirstNonEmpty | webScraper.js:80-82 | the first selector in list order with non-empty trimmed text wins, and the result is `''` only when all are empty |
| Scraper.CleanStripsLeadingWord | webScraper.js:61 | a leading `Abstract` in any case, with the blanks after it, is removed |
| Scraper.CleanKeepsOtherText | webScraper.js:61 | text not starting with `Abstract` is only trimmed |
| Scraper.FirstCleaned | webScraper.js:56-66 | the selector loop finds nothing exactly when every selector's trimmed text is empty |
| Scraper.FirstCleanedFirst | webScraper.js:127-137 | the first non-empty selector, cleaned, is the rule's result |
| Scraper.MetaFallback | webScraper.js:141-153 | the metadata fallback finds nothing exactly when every meta tag is missing or has empty content |
| Scraper.BlankMetaContentWins | webScraper.js:149-151 | whitespace-only content is truthy, so it wins and yields `''` |
| Scraper.ArxivRule | webScraper.js:70-76 | the arXiv rule removes only the first `Abstract:`, wherever it is, then trims |
| Scraper.Stages | webScraper.js:46-153 | there are eight stages in source order: seven host rules and the metadata fallback |
| Scraper.DispatchStage | webScraper.js:46-153 | the first stage that finds something decides the result |
| Scraper.DispatchNothing | webScraper.js:155-156 | when no stage finds anything, the result is exactly the no-abstract sentinel |
| Scraper.OtherHostUsesMetadata | webScraper.js:140-156 | on any other host, only the metadata fallback or the sentinel can answer |
| Scraper.ScrapeAbstract | webScraper.js:34-165 | a fetch that gives up yields the error sentinel; otherwise the cascade runs on the final URL |
| Scraper.ScrapeOutcome | webScraper.js:34-165 | the scraper never rejects: all failures give the error sentinel, and a first-try success gives the cascade's result |
| ScraperVariant.FirstMeta | src/webScraper.js:148-149 | the first non-empty trimmed meta content wins, and `''` only when all are empty |
| ScraperVariant.LeadingLinesSkipBlank | src/webScraper.js:121-122 | blank lines in front do not change the full-text guess |
| ScraperVariant.LeadingLinesTwo | src/webScraper.js:121-122 | with two non-blank lines in front, the guess is those two joined by a blank and trimmed |
| ScraperVariant.Screened | src/webScraper.js:104-130 | the result is the sentinel or an acceptable candidate: the selector text when acceptable, else the metadata text when acceptable, else the full-text guess when the page has text and the guess is acceptable, else the sentinel |
| ScraperVariant.ObjectTextRejected | src/webScraper.js:105-130 | candidates mentioning "object" in any case are never returned |
| ScraperVariant.PubMedDecides | src/webScraper.js:98-131 | once the earlier rules find nothing on a PubMed URL, the PubMed stage alone decides, ending in the sentinel |
| ScraperVariant.ScopusNeverFallsThrough | src/webScraper.js:134-169 | a Scopus/Elsevier page never reaches the DOI rule or the generic metadata fallback |
| ScraperVariant.ScrapeAbstractAsWritten | src/webScraper.js:211-217 | as written, a fetch that gives up rejects (the catch reads an out-of-scope `targetUrl`) |
| ScraperVariant.ScrapeAbstract | src/webScraper.js:34-218 | corrected, a fetch that gives up yields the error sentinel; otherwise the variant cascade runs on the final URL |
| ScraperVariant.TargetUrlOutOfScope | src/webScraper.js:211-217 | when all requests fail, the code as written rejects where the corrected scraper answers with the sentinel; on every other input they agree |
| FrontendScript.Sentences | script.js:117 | the sentences are pieces of the split at newline and `.`: each is non-blank and free of both, and every non-blank piece of the split is among them |
| FrontendScript.SentencesOfStretch | script.js:117 | text without newline or `.` is one sentence, or none when it is blank |
| FrontendScript.SentencesAt | script.js:117 | cutting the text at a newline or `.` gives the sentences before it followed by those after it, so sentences keep the order of the text |
| FrontendScript.SentencesOfJoin | script.js:117 | for any list of stretches without newline or `.`, blank ones included (such as the empty stretch after a closing `.`), the sentences of the stretches joined by `.` are exactly the non-blank stretches, in order |
| FrontendScript.PreviewOfJoin | script.js:115-118 | for any non-empty abstract made of such stretches, blank ones included, the preview is the first `lines` non-blank stretches joined by `. `, followed by `...` exactly when non-blank stretches were left out |
| FrontendScript.AbstractPreview | script.js:115-118 | a falsy abstract gives `''`; the preview has no newline; it ends in `...` exactly when there are more than `lines` sentences |
| FrontendScript.OneSentencePreview | script.js:117-118 | a single sentence previews as itself |
| FrontendScript.ClosedSentences | script.js:117 | four sentences each closed by `.` are found again in order, the empty stretch after the last `.` dropped |
| FrontendScript.FourSentencePreview | script.js:117-118 | four sentences each closed by `.` preview as the first three joined by `. ` and then `...` |
| FrontendScript.Listed | script.js:96-110 | the listed papers are input papers that are not skipped, and every paper that is not skipped is listed |
| FrontendScript.MarkerNeverListed | script.js:100-103 | no listed paper carries the scraping-failure marker in either abstract |
| FrontendScript.ListedAppend | script.js:96-148 | filtering keeps JSON order, piece by piece |
| FrontendScript.ListedIdempotent | script.js:96-110 | filtering twice is filtering once |
| FrontendScript.LoadPapersData | script.js:96-149 | the `forEach` pushes exactly the listed papers, in JSON order |
| FrontendScript.SortKindOf | script.js:386-416 | only `journal`, `publication` and `archive` re-sort; `archive` is oldest first |
| FrontendScript.SortPapers | script.js:383-418 | `registration` and unknown sort types return the papers in their loaded order |
| FrontendScript.RegistrationKeepsLoadedOrder | script.js:387-389 | the registration view is the loaded order |
| FrontendScript.DisplayTitle | script.js:247-248 | the dialog title starts with the title, and adds ` (translatedTitle)` exactly when the translated title is not blank |
| FrontendScript.LinkShownIff | script.js:260-279 | the paper link is shown exactly when the URL is not `#` and has a non-blank character |
| FrontendScript.TranslationSectionShowsTranslation | script.js:254-299 | a shown translation section shows the non-blank translation, which differs from the abstract; the placeholder text is never shown as a translation |
| FrontendIndex.AcquisitionOrdersByIndex | src/index.js:8-12 | acquisition order is ascending integer `data-index`, antisymmetric |
| FrontendIndex.UnparsedIndexTies | src/index.js:8-12 | an unparsable index compares equal (NaN) to every card |
| FrontendIndex.SorterName | src/index.js:98 | a sort type with no sorter falls back to `registration` |
| FrontendIndex.ArchiveSortsByRegistration | src/index.js:98 | the archive view sorts by registration |
| FrontendIndex.FirstLabel | src/index.js:201-212 | the sort type comes from the first label, in list order, that the text contains; none means no match |
| FrontendIndex.ButtonSortType | src/index.js:199-213 | a button keeps its sort type unless its trimmed text contains a label, which then decides the type |
| FrontendIndex.Accepted | src/index.js:90-92 | the filter keeps only cards of the current category |
| FrontendIndex.Rejected | src/index.js:90-92 | the complement holds only cards outside the category |
| FrontendIndex.FilterSplits | src/index.js:90-92 | filtering splits the cards between kept and rejected without losing or adding any |
| FrontendIndex.ExactlyDisplayedVisible | src/index.js:94-109 | after an update a card is visible exactly when archive mode is on or it is in the category, and the grid keeps the same cards |
| FrontendIndex.ArchiveShowsAll | src/index.js:94-95 | in archive mode every card is visible whatever the category |
| FrontendIndex.Headed | src/index.js:116-141 | updating headers keeps their number |
| FrontendIndex.HeaderRule | src/index.js:135-140 | a header is visible exactly when some visible dated card's date contains its trimmed text |
| FrontendIndex.BlankHeaderShown | src/index.js:135-140 | a blank header is shown as soon as some visible card has a date |
| FrontendIndex.Page.constructor | src/index.js:30-34 | the page starts in registration order, the initial category, not archived, with everything visible |
| FrontendIndex.GatherDates | src/index.js:129-133 | the loop gathers exactly the dates of the visible cards that have a truthy date |
| FrontendIndex.ShowHeaders | src/index.js:135-140 | the loop shows each header exactly by the header rule over the gathered dates, keeping its text |
| FrontendIndex.HideAll | src/index.js:100-103 | the cards the update leaves hidden (none in the archive view, else those outside the category) keep their order at the front |
| FrontendIndex.ShowSorted | src/index.js:105-109 | each sorted card is shown and moved to the end, in sorted order |
| FrontendIndex.ArrangeGrid | src/index.js:100-109 | the grid after the sort is the hidden cards followed by the sorted cards, shown |
| FrontendIndex.Page.UpdateDateHeaders | src/index.js:116-141 | the header loops set each header's visibility by the header rule and change nothing else |
| FrontendIndex.Page.UpdatePapersDisplay | src/index.js:85-113 | when the sort goes through, the grid becomes the hidden cards followed by the sorted displayed cards, and the headers are then updated; when the comparator throws, grid and headers stay as they were |
| FrontendIndex.Page.ClickSort | src/index.js:51-58 | a sort click sets the sort type, sets archive mode exactly for `archive` (even when the redisplay throws), and redisplays |
| FrontendIndex.Page.ClickCategory | src/index.js:75-79 | a filter click sets the category to the trimmed button text (even when the redisplay throws) and redisplays |
| FrontendIndex.RedisplayShowsDisplayed | src/index.js:85-113 | when the sort goes through and only reorders, exactly the displayed cards end up visible and the grid keeps its cards |
| FrontendIndex.RegistrationNeedsDates | src/index.js:3-7 | in the default registration order, the redisplay goes through exactly when at most one card is displayed or every displayed card has a `data-date` |
| FrontendIndex.IndexAndPublicationSortsSucceed | src/index.js:8-18 | acquisition and publication order never throw, whatever attributes the cards lack |
| FrontendIndex.JournalSortNeedsNoMore | src/index.js:13 | the journal sort goes through whenever every card has a `data-journal` |

## Left out

- Network I/O: fetch, axios and the Gemini SDK. Their answers are the parameters described above, and HTTP outcomes are reduced to a status and a Retry-After header.
- xml2js and JSDOM parsing. Parsed trees are datatypes, and a page is a `Scraper.Document`.
- Timers: sleeps are returned as durations. Node's `setTimeout` waits 1 ms for a delay below 1 or `NaN`, and that minimum is modelled where a delay can be that small (the Retry-After delays). Its clamping of delays beyond 2^31-1 ms to 1 ms is not modelled, and neither are fractional delays: a Retry-After such as `1.5` is read as `NaN`.
- JsText.ToNumber: only blank text and trimmed decimal digits are numbers. The other forms `Number` accepts are read as `NaN`: a sign (`+5`), an exponent (`1e3`), a hexadecimal, octal or binary prefix (`0x10`), `Infinity` and fractions. A Retry-After header in such a form therefore gives the 1 ms wait.
- `Promise.all` interleaving: per-record work is a sequential map.
- `Date` parsing and formatting, which is time-zone dependent:
  - the Semantic Scholar year→ISO date is the parameter `yearDate`;
  - `formatDate`, `formatDateHeader` and `formatDisplayDate` are not modelled;
  - the date sorts and the 2025-10-01 cutoff are the parameters `comparatorSort`, `sortWith` and `onOrAfterCutoff`.
- The order the date and `localeCompare` journal sorts produce, which is the same comparator parameter. When the registration sort throws is stated exactly (`FrontendIndex.SortThrows`).
- FrontendIndex.JournalMayThrow: the journal comparator dereferences only its first argument, so whether a card without `data-journal` makes it throw depends on the order in which the engine passes cards. The model states only that the journal sort cannot throw when every card has a `data-journal`.
- Full Unicode `toLowerCase`: only ASCII letters are folded. String lengths count characters, not UTF-16 code units.
- `fs`, `process.env` and `dotenv`. File content and the environment are inputs. A read error of the `.env` file is not modelled.
- `generateHTML`, `generateHTMLFiles`, `run`, `main`, `categorizeKeyword` and the HTML template. These are page output outside the decision logic.
- The card markup other than the abstract excerpt, and all DOM wiring, styling and event handling in script.js and src/index.js.
- `ScopusClient`, which is constructed nowhere.
- Console logging.
- JavaScript numbers are integers here. `NaN` is `None` where it matters: in `parseInt`, `Number` and the timer delay.
- A PubMed `AbstractText` that is not an array (the `toString()` branch at app.mjs:546) is not modelled; entries are always a list.
- Papers.RemoveDuplicates: modelled on values. The source rewrites each kept paper's title and abstract in place, and callers holding the same objects would see that; the model returns the rewritten papers instead. The collector discards its input list, so nothing observes the difference there.
- Aggregator.PaperCatcher.TranslatePapers: a failing `translatePaper` is impossible, because it catches everything. The loop's own `catch` (app.mjs:1126-1129) is therefore not modelled.
- Sources.ScholarPapers: when several detail requests fail, `Promise.all` rejects with the one that fails first in time. The contract only says the error is one of them.
- RateLimiting.RateLimiter.StartNext: running the task and its `executeWithRetry` is separate (`RateLimiting.ExecuteWithRetry`). The 100 ms re-scheduling of `processQueue` is the caller's next `StartNext`, and `RateLimiting.Drain` assumes no other `addToQueue` call arrives in between.
- RateLimiting.WaitBefore: requires a positive rate. The source's limiters use 8 and 20 requests per minute. A rate of 0 would make the minimum gap infinite.
- HtmlRender.GroupPapersByDate: a date key naming an `Object.prototype` member (such as `constructor`) is treated as an ordinary key.
- FrontendIndex.Page.UpdatePapersDisplay: the comparator sorts are the parameter `sortWith`, which gives `None` when the comparator throws; the thrown error itself, which reaches the click handler uncaught, is not modelled. `appendChild` moves are modelled as the final order of the grid. Header visibility follows the grid's cards, not a separate `.paper-card` query.
- FrontendScript.Sentences: its own contract does not state the order of the sentences; `FrontendScript.SentencesAt` and `FrontendScript.SentencesOfJoin` state it for every text.
- FrontendScript.AbstractPreview: its own contract does not fix the shown text; `FrontendScript.PreviewOfJoin` fixes it for every non-empty abstract made of stretches joined by full stops, blank stretches included, and `FrontendScript.SentencesAt` extends the sentences to line breaks.
- FrontendScript.SortPapers: only the order-preserving cases are stated. The comparator sorts are the parameter `comparatorSort`.
- Scraper.ScrapeAbstract: a JSDOM parse failure is not modelled (`parse` is total). `document.body` is assumed present.

## Findings

| source | as written | input that shows it | evidently intended | confidence | as-written member | corrected member |
|---|---|---|---|---|---|---|
| app.mjs:435-437 | On a 429, the `Retry-After` header text is passed to `setTimeout`, which reads it as milliseconds | a 429 answer carrying `Retry-After: 5` makes PubMed wait 5 ms | wait 5 seconds, since HTTP gives Retry-After in seconds and the Semantic Scholar client multiplies by 1000 (app.mjs:331) | medium, not executed | `ClientRetry.PubMedRateLimitDelayAsWritten`, used by `ClientRetry.PubMedFetch`, shown by `ClientRetry.PubMedRetryAfterSeconds` | `ClientRetry.PubMedRateLimitDelay`, used by `ClientRetry.PubMedFetchCorrected` |
| src/webScraper.js:211-217 | `targetUrl` is declared with `const` inside the `try` (line 41), and the `catch` reads it, so the handler itself throws a ReferenceError | a URL whose four requests all fail: the promise rejects | return `'No abstract available from web scraping - Error occurred'`, as webScraper.js:35 and 157-164 do | high, not executed | `ScraperVariant.ScrapeAbstractAsWritten`, shown by `ScraperVariant.TargetUrlOutOfScope` | `ScraperVariant.ScrapeAbstract` |
