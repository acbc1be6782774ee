/**
 * The second `WebScraper` (src/webScraper.js). It fetches exactly as the
 * first one and shares its first four publisher rules, its DOI rule and its
 * metadata fallback; its PubMed and Scopus/Elsevier rules differ: each
 * tries several selectors, then metadata, then the first two non-blank
 * lines of the page text, rejects any candidate that mentions "object",
 * and ends the cascade with the no-abstract sentinel instead of falling
 * through to the later rules.
 */
module ScraperVariant {
  import opened Wrappers
  import opened JsText
  import opened Scraper

  /** `/(object|Object)/i.test(s)`. */
  predicate MentionsObject(s: string) {
    Includes(ToLower(s), "object")
  }

  /** A candidate is taken when it is non-empty and does not mention "object". */
  predicate Acceptable(s: string) {
    s != "" && !MentionsObject(s)
  }

  /** `document.querySelector(sel)?.content?.trim()`, with `""` for a missing element. */
  function MetaTrimmed(doc: Document, sel: string): string {
    match doc.meta(sel)
    case Some(c) => Trim(c)
    case None => ""
  }

  /** `a || b || ...` over trimmed meta contents. */
  function FirstMeta(doc: Document, sels: seq<string>): (r: string)
    ensures r != "" ==> exists k :: 0 <= k < |sels| && MetaTrimmed(doc, sels[k]) == r
    ensures r == "" <==> forall k :: 0 <= k < |sels| ==> MetaTrimmed(doc, sels[k]) == ""
  {
    if sels == [] then ""
    else if MetaTrimmed(doc, sels[0]) != "" then MetaTrimmed(doc, sels[0])
    else
      var r := FirstMeta(doc, sels[1..]);
      assert forall k :: 1 <= k < |sels| ==> sels[k] == sels[1..][k - 1];
      r
  }

  /** The full-text guess: the first two non-blank lines of the page text, joined by a blank, trimmed. */
  function LeadingLines(text: string): string {
    Trim(Join(Take(NonBlank(Split(text, {'\n'})), 2), " "))
  }

  /** Blank lines before the text are skipped. */
  lemma LeadingLinesSkipBlank(b: string, t: string)
    requires '\n' !in b && Trim(b) == ""
    ensures LeadingLines(b + "\n" + t) == LeadingLines(t)
  {
    SplitAt(b, '\n', t, {'\n'});
    assert ([b] + Split(t, {'\n'}))[1..] == Split(t, {'\n'});
  }

  /** Two non-blank lines in front: the guess is those two, joined by a blank and trimmed, whatever follows. */
  lemma LeadingLinesTwo(l1: string, l2: string, t: string)
    requires '\n' !in l1 && '\n' !in l2 && Trim(l1) != "" && Trim(l2) != ""
    ensures LeadingLines(l1 + "\n" + l2 + "\n" + t) == Trim(l1 + " " + l2)
  {
    SplitAt(l2, '\n', t, {'\n'});
    assert l1 + "\n" + l2 + "\n" + t == l1 + ['\n'] + (l2 + ['\n'] + t);
    SplitAt(l1, '\n', l2 + ['\n'] + t, {'\n'});
    KeepsFirstTwo(l1, l2, Split(t, {'\n'}));
    assert Join([l1, l2], " ") == l1 + " " + l2 by {
      assert [l1, l2][1..] == [l2];
    }
  }

  /** The first two lines survive the filter and are the only ones taken. */
  lemma KeepsFirstTwo(l1: string, l2: string, rest: seq<string>)
    requires Trim(l1) != "" && Trim(l2) != ""
    ensures Take(NonBlank([l1] + ([l2] + rest)), 2) == [l1, l2]
  {
    var lines := [l1] + ([l2] + rest);
    assert lines[1..] == [l2] + rest;
    assert ([l2] + rest)[1..] == rest;
    assert NonBlank(lines) == [l1] + ([l2] + NonBlank(rest));
  }

  /**
   * The tail of the PubMed and Scopus/Elsevier rules: the selector
   * candidate, then the metadata candidate, then the full-text guess (only
   * when the page has text), each taken only when acceptable; otherwise
   * the no-abstract sentinel.
   */
  function Screened(fromSelectors: string, fromMeta: string, body: string): (r: string)
    ensures r == NoAbstractSentinel || Acceptable(r)
    ensures Acceptable(fromSelectors) ==> r == fromSelectors
    ensures !Acceptable(fromSelectors) && Acceptable(fromMeta) ==> r == fromMeta
    ensures !Acceptable(fromSelectors) && !Acceptable(fromMeta) && body != "" && Acceptable(LeadingLines(body)) ==>
      r == LeadingLines(body)
    ensures r != NoAbstractSentinel ==> r == fromSelectors || r == fromMeta || (body != "" && r == LeadingLines(body))
  {
    if Acceptable(fromSelectors) then fromSelectors
    else if Acceptable(fromMeta) then fromMeta
    else if body != "" && Acceptable(LeadingLines(body)) then LeadingLines(body)
    else NoAbstractSentinel
  }

  /** A page whose every candidate mentions "object" yields the sentinel, never that text. */
  lemma ObjectTextRejected(fromSelectors: string, fromMeta: string, body: string)
    requires MentionsObject(fromSelectors) && MentionsObject(fromMeta)
    requires body != "" ==> MentionsObject(LeadingLines(body))
    ensures Screened(fromSelectors, fromMeta, body) == NoAbstractSentinel
  {
  }

  const PubMedSelectors: seq<string> := ["#enc-abstract", ".abstract-content", ".abstract"]
  const ScopusSelectors: seq<string> := [".abstractSection", ".abstract", ".Abstract", ".abstract-content"]

  /** The PubMed rule: it always settles the result. */
  function PubMedStage(doc: Document): string {
    Screened(FirstNonEmpty(doc, PubMedSelectors), MetaTrimmed(doc, "meta[name=\"citation_abstract\"]"), doc.body)
  }

  /** The Scopus/Elsevier rule: it always settles the result. */
  function ScopusStage(doc: Document): string {
    Screened(FirstNonEmpty(doc, ScopusSelectors),
             FirstMeta(doc, ["meta[name=\"citation_abstract\"]", "meta[name=\"description\"]"]), doc.body)
  }

  /** Whatever the first four rules (ScienceDirect, arXiv, Springer, Semantic Scholar) find, in order. */
  function EarlyRules(target: string, doc: Document): seq<Option<string>> {
    [ScienceDirectRule(target, doc), ArxivRule(target, doc), SpringerRule(target, doc), ScholarRule(target, doc)]
  }

  /**
   * The cascade on the final URL: the shared first four rules, then the
   * PubMed and Scopus/Elsevier rules, which always return, then the DOI
   * rule and the metadata fallback.
   */
  function Dispatch(target: string, doc: Document): string {
    if Includes(target, "pubmed.ncbi.nlm.nih.gov") then
      FirstPresent(EarlyRules(target, doc), PubMedStage(doc))
    else if Includes(target, "scopus.com") || Includes(target, "elsevier.com") then
      FirstPresent(EarlyRules(target, doc), ScopusStage(doc))
    else
      FirstPresent(EarlyRules(target, doc) + [DoiRule(target, doc), MetaFallback(doc, MetaSelectors)], NoAbstractSentinel)
  }

  /** The first value present in `xs`, and `fallback` when there is none, is one of the two. */
  lemma {:induction false} FirstPresentFrom(xs: seq<Option<string>>, fallback: string)
    ensures FirstPresent(xs, fallback) == fallback || exists k :: 0 <= k < |xs| && xs[k] == Some(FirstPresent(xs, fallback))
  {
    if xs != [] && xs[0].None? {
      FirstPresentFrom(xs[1..], fallback);
      if FirstPresent(xs[1..], fallback) != fallback {
        var k :| 0 <= k < |xs[1..]| && xs[1..][k] == Some(FirstPresent(xs[1..], fallback));
        assert xs[k + 1] == xs[1..][k];
      }
    }
  }

  /** On a PubMed page that none of the first four rules claims, the PubMed rule decides. */
  lemma PubMedDecides(target: string, doc: Document)
    requires Includes(target, "pubmed.ncbi.nlm.nih.gov")
    requires forall j :: 0 <= j < 4 ==> EarlyRules(target, doc)[j].None?
    ensures Dispatch(target, doc) == PubMedStage(doc)
    ensures Dispatch(target, doc) == NoAbstractSentinel || Acceptable(Dispatch(target, doc))
  {
    FirstPresentNone(EarlyRules(target, doc), PubMedStage(doc));
  }

  /**
   * Unlike the first scraper, a PubMed or Scopus/Elsevier page never
   * reaches the DOI rule or the page metadata outside its own rule: the
   * result is an early rule's finding or the stage's own result.
   */
  lemma ScopusNeverFallsThrough(target: string, doc: Document)
    requires !Includes(target, "pubmed.ncbi.nlm.nih.gov")
    requires Includes(target, "scopus.com") || Includes(target, "elsevier.com")
    ensures Dispatch(target, doc) == ScopusStage(doc)
      || exists k :: 0 <= k < 4 && EarlyRules(target, doc)[k] == Some(Dispatch(target, doc))
  {
    FirstPresentFrom(EarlyRules(target, doc), ScopusStage(doc));
  }

  /** Why the as-written scraper rejects: the handler names a variable that is not in scope. */
  datatype ReferenceError = TargetUrlNotDefined

  /**
   * `scrapeAbstractFromUrl` as written: `targetUrl` is declared inside the
   * `try` block, so the `catch` block's reference to it throws, and the
   * returned promise rejects instead of giving the error sentinel.
   */
  function ScrapeAbstractAsWritten(url: string, get: nat -> Option<Response>, parse: string -> Document): (r: Result<string, ReferenceError>)
    ensures FetchWithRetry(url, get, 0).page.None? <==> r.Err?
  {
    match FetchWithRetry(url, get, 0).page
    case None => Err(TargetUrlNotDefined)
    case Some((html, finalUrl)) => Ok(Dispatch(if finalUrl != "" then finalUrl else url, parse(html)))
  }

  /** The evidently intended `scrapeAbstractFromUrl`: a fetch that gives up yields the error sentinel, as in the first scraper. */
  function ScrapeAbstract(url: string, get: nat -> Option<Response>, parse: string -> Document): (r: string)
    ensures FetchWithRetry(url, get, 0).page.None? ==> r == ErrorSentinel
    ensures FetchWithRetry(url, get, 0).page.Some? ==>
      var (html, finalUrl) := FetchWithRetry(url, get, 0).page.value;
      r == Dispatch(if finalUrl != "" then finalUrl else url, parse(html))
  {
    match FetchWithRetry(url, get, 0).page
    case None => ErrorSentinel
    case Some((html, finalUrl)) => Dispatch(if finalUrl != "" then finalUrl else url, parse(html))
  }

  /**
   * The discrepancy: when all four requests fail, the code as written
   * rejects, while the corrected scraper returns the error sentinel; on
   * every other input the two agree.
   */
  lemma TargetUrlOutOfScope(url: string, get: nat -> Option<Response>, parse: string -> Document)
    ensures (forall k :: 0 <= k <= MaxRetries ==> get(k).None?) ==>
      ScrapeAbstractAsWritten(url, get, parse).Err? && ScrapeAbstract(url, get, parse) == ErrorSentinel
    ensures ScrapeAbstractAsWritten(url, get, parse).Ok? ==>
      ScrapeAbstractAsWritten(url, get, parse).value == ScrapeAbstract(url, get, parse)
  {
    FetchBounds(url, get);
  }
}
