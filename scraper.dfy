/**
 * `WebScraper` (webScraper.js): fetching a landing page with a bounded
 * number of attempts, and picking an abstract out of the parsed page by
 * publisher rules tried in a fixed order, then page metadata.
 *
 * A parsed page is a `Document`: `text(sel)` is the text content of the
 * first element `sel` selects (`None` when nothing matches), `meta(sel)` the
 * `content` attribute of the first `meta` element `sel` selects (`""` when
 * the attribute is missing), and `body` the text content of the body.
 * The network is the parameter `get`: `get(k)` is the answer to the
 * request made with `retryCount == k`, `None` when that request throws.
 */
module Scraper {
  import opened Wrappers
  import opened JsText

  datatype Document = Document(text: string -> Option<string>, meta: string -> Option<string>, body: string)

  const NoAbstractSentinel: string := "No abstract available from web scraping"
  const ErrorSentinel: string := "No abstract available from web scraping - Error occurred"

  // ---------------------------------------------------------------------
  // fetchWithRetry
  // ---------------------------------------------------------------------

  const MaxRetries: nat := 3
  const RetryDelay: nat := 2000

  /** A successful answer: the page and the URL after redirects (`""` when the response has none). */
  datatype Response = Response(html: string, responseUrl: string)

  /** What a fetch produced (the page and its final URL), how many requests it made and how long it slept. */
  datatype FetchRun = FetchRun(page: Option<(string, string)>, calls: nat, waited: nat)

  /** `responseUrl || url`. */
  function FinalUrl(r: Response, url: string): string {
    if r.responseUrl != "" then r.responseUrl else url
  }

  /**
   * `fetchWithRetry(url, retryCount)`: one request; on failure, while
   * `retryCount < 3`, sleep 2000 ms and try again with the next count.
   */
  function FetchWithRetry(url: string, get: nat -> Option<Response>, retryCount: nat): (r: FetchRun)
    requires retryCount <= MaxRetries
    decreases MaxRetries - retryCount
    ensures 1 <= r.calls <= MaxRetries + 1 - retryCount
    ensures r.waited == RetryDelay * (r.calls - 1)
    ensures forall k :: retryCount <= k < retryCount + r.calls - 1 ==> get(k).None?
    ensures r.page.Some? ==>
      get(retryCount + r.calls - 1).Some?
      && r.page.value == (get(retryCount + r.calls - 1).value.html, FinalUrl(get(retryCount + r.calls - 1).value, url))
    ensures r.page.None? ==> r.calls == MaxRetries + 1 - retryCount && get(MaxRetries).None?
  {
    match get(retryCount)
    case Some(resp) => FetchRun(Some((resp.html, FinalUrl(resp, url))), 1, 0)
    case None =>
      if retryCount < MaxRetries then
        var rest := FetchWithRetry(url, get, retryCount + 1);
        FetchRun(rest.page, rest.calls + 1, rest.waited + RetryDelay)
      else FetchRun(None, 1, 0)
  }

  /** A fetch makes at most four requests and sleeps at most 6000 ms; it gives up only when all four fail. */
  lemma FetchBounds(url: string, get: nat -> Option<Response>)
    ensures FetchWithRetry(url, get, 0).calls <= 4
    ensures FetchWithRetry(url, get, 0).waited <= 6000
    ensures FetchWithRetry(url, get, 0).page.None? <==> forall k :: 0 <= k <= MaxRetries ==> get(k).None?
  {
    var r := FetchWithRetry(url, get, 0);
    if r.page.Some? {
      assert get(r.calls - 1).Some?;
    }
  }

  // ---------------------------------------------------------------------
  // Selector helpers
  // ---------------------------------------------------------------------

  /** `document.querySelector(sel)?.textContent?.trim()`, with `""` for a missing element. */
  function Trimmed(doc: Document, sel: string): string {
    match doc.text(sel)
    case Some(t) => Trim(t)
    case None => ""
  }

  /** `a || b || ...` over trimmed selector texts: the first non-empty one, or `""`. */
  function FirstNonEmpty(doc: Document, sels: seq<string>): (r: string)
    ensures r != "" ==> exists k :: 0 <= k < |sels| && Trimmed(doc, sels[k]) == r
    ensures r == "" <==> forall k :: 0 <= k < |sels| ==> Trimmed(doc, sels[k]) == ""
  {
    if sels == [] then ""
    else if Trimmed(doc, sels[0]) != "" then Trimmed(doc, sels[0])
    else
      var r := FirstNonEmpty(doc, sels[1..]);
      assert forall k :: 1 <= k < |sels| ==> sels[k] == sels[1..][k - 1];
      r
  }

  /** `.replace(/^Abstract\s*\/i, '').trim()`: a leading word "abstract" in any case and the blanks after it go. */
  function Clean(t: string): string {
    Trim(if StartsWithIgnoringCase(t, "abstract") then TrimStart(t[8..]) else t)
  }

  /** The leading word goes whatever its case, and with it the blanks that follow. */
  lemma CleanStripsLeadingWord(w: string, s: string)
    requires |w| == 8 && ToLower(w) == "abstract"
    ensures Clean(w + s) == Trim(TrimStart(s))
  {
    assert (w + s)[..8] == w && (w + s)[8..] == s;
  }

  /** Text without the leading word is only trimmed. */
  lemma CleanKeepsOtherText(t: string)
    requires !StartsWithIgnoringCase(t, "abstract")
    ensures Clean(t) == Trim(t)
  {
  }

  /**
   * The ScienceDirect and DOI loops: the first selector, in list order, whose
   * trimmed text is non-empty gives the cleaned text (which may itself be
   * empty); `None` when no selector does.
   */
  function FirstCleaned(doc: Document, sels: seq<string>): (r: Option<string>)
    ensures r.None? <==> forall k :: 0 <= k < |sels| ==> Trimmed(doc, sels[k]) == ""
  {
    if sels == [] then None
    else if Trimmed(doc, sels[0]) != "" then Some(Clean(Trimmed(doc, sels[0])))
    else
      var r := FirstCleaned(doc, sels[1..]);
      assert forall k :: 1 <= k < |sels| ==> sels[k] == sels[1..][k - 1];
      r
  }

  /** The first selector with text wins, whatever the selectors after it hold. */
  lemma {:induction false} FirstCleanedFirst(doc: Document, sels: seq<string>, k: nat)
    requires k < |sels| && Trimmed(doc, sels[k]) != ""
    requires forall j :: 0 <= j < k ==> Trimmed(doc, sels[j]) == ""
    ensures FirstCleaned(doc, sels) == Some(Clean(Trimmed(doc, sels[k])))
  {
    if k > 0 {
      assert sels[1..][k - 1] == sels[k];
      forall j | 0 <= j < k - 1 ensures Trimmed(doc, sels[1..][j]) == "" {
        assert sels[1..][j] == sels[j + 1];
      }
      FirstCleanedFirst(doc, sels[1..], k - 1);
    }
  }

  /**
   * The metadata fallback: the first selector whose `content` is non-empty
   * gives that content trimmed, which is `""` for content of blanks only.
   */
  function MetaFallback(doc: Document, sels: seq<string>): (r: Option<string>)
    ensures r.None? <==> forall k :: 0 <= k < |sels| ==> doc.meta(sels[k]).None? || doc.meta(sels[k]) == Some("")
  {
    if sels == [] then None
    else
      match doc.meta(sels[0])
      case Some(c) =>
        if c != "" then Some(Trim(c))
        else
          var r := MetaFallback(doc, sels[1..]);
          assert forall k :: 1 <= k < |sels| ==> sels[k] == sels[1..][k - 1];
          r
      case None =>
        var r := MetaFallback(doc, sels[1..]);
        assert forall k :: 1 <= k < |sels| ==> sels[k] == sels[1..][k - 1];
        r
  }

  /** Content of blanks is truthy, so it is taken, and trims to the empty string. */
  lemma BlankMetaContentWins(doc: Document, sels: seq<string>)
    requires |sels| >= 1 && doc.meta(sels[0]) == Some(" ")
    ensures MetaFallback(doc, sels) == Some("")
  {
    assert IsSpace(' ');
    assert TrimStart(" ") == "";
  }

  // ---------------------------------------------------------------------
  // The publisher rules, in the order they are tried
  // ---------------------------------------------------------------------

  const ScienceDirectSelectors: seq<string> :=
    ["section.abstract", "div.abstract.author", "div[class*=\"abstract\"]", "#abstracts", "#abstract_sec"]
  const DoiSelectors: seq<string> := [".abstract", ".abstract-content", "[class*=\"abstract\"]", "[id*=\"abstract\"]"]
  const MetaSelectors: seq<string> :=
    ["meta[name=\"description\"]", "meta[name=\"citation_abstract\"]", "meta[property=\"og:description\"]"]

  function ScienceDirectRule(target: string, doc: Document): Option<string> {
    if Includes(target, "sciencedirect.com") then FirstCleaned(doc, ScienceDirectSelectors) else None
  }

  /** arXiv: the `.abstract` text without its first `Abstract:`, wherever that is. */
  function ArxivRule(target: string, doc: Document): (r: Option<string>)
    ensures r.Some? ==> r.value == Trim(RemoveFirst(Trimmed(doc, ".abstract"), "Abstract:"))
  {
    if Includes(target, "arxiv.org") && Trimmed(doc, ".abstract") != "" then
      Some(Trim(RemoveFirst(Trimmed(doc, ".abstract"), "Abstract:")))
    else None
  }

  function SpringerRule(target: string, doc: Document): Option<string> {
    var a := FirstNonEmpty(doc, [".Abstract", ".c-article-section__content"]);
    if (Includes(target, "springer.com") || Includes(target, "link.springer.com")) && a != "" then Some(a) else None
  }

  function ScholarRule(target: string, doc: Document): Option<string> {
    if Includes(target, "semanticscholar.org") && Trimmed(doc, ".abstract__text") != "" then
      Some(Trimmed(doc, ".abstract__text"))
    else None
  }

  function PubMedRule(target: string, doc: Document): Option<string> {
    if Includes(target, "pubmed.ncbi.nlm.nih.gov") && Trimmed(doc, "#enc-abstract") != "" then
      Some(Trimmed(doc, "#enc-abstract"))
    else None
  }

  function ScopusRule(target: string, doc: Document): Option<string> {
    var a := FirstNonEmpty(doc, [".abstractSection", ".abstract"]);
    if (Includes(target, "scopus.com") || Includes(target, "elsevier.com")) && a != "" then Some(a) else None
  }

  function DoiRule(target: string, doc: Document): Option<string> {
    if Includes(target, "doi.org") then FirstCleaned(doc, DoiSelectors) else None
  }

  /** What each stage yields on its own, in the order the stages run; the last is the metadata fallback. */
  function Stages(target: string, doc: Document): (r: seq<Option<string>>)
    ensures |r| == 8
  {
    [ScienceDirectRule(target, doc), ArxivRule(target, doc), SpringerRule(target, doc), ScholarRule(target, doc),
     PubMedRule(target, doc), ScopusRule(target, doc), DoiRule(target, doc), MetaFallback(doc, MetaSelectors)]
  }

  /** The first value present, or `fallback`. */
  function FirstPresent(xs: seq<Option<string>>, fallback: string): string {
    if xs == [] then fallback else if xs[0].Some? then xs[0].value else FirstPresent(xs[1..], fallback)
  }

  /**
   * The rule cascade of `scrapeAbstractFromUrl` on the final URL: each rule
   * returns early when it finds something, so the result is the first stage
   * that does, and the no-abstract sentinel when none does.
   */
  function Dispatch(target: string, doc: Document): string {
    FirstPresent(Stages(target, doc), NoAbstractSentinel)
  }

  /** A stage that finds something decides the result when every earlier stage found nothing. */
  lemma {:induction false} FirstPresentAt(xs: seq<Option<string>>, fallback: string, k: nat)
    requires k < |xs| && xs[k].Some? && forall j :: 0 <= j < k ==> xs[j].None?
    ensures FirstPresent(xs, fallback) == xs[k].value
  {
    if k > 0 {
      assert xs[1..][k - 1] == xs[k];
      forall j | 0 <= j < k - 1 ensures xs[1..][j].None? {
        assert xs[1..][j] == xs[j + 1];
      }
      FirstPresentAt(xs[1..], fallback, k - 1);
    }
  }

  /** With no stage finding anything the result is exactly the no-abstract sentinel. */
  lemma {:induction false} FirstPresentNone(xs: seq<Option<string>>, fallback: string)
    requires forall j :: 0 <= j < |xs| ==> xs[j].None?
    ensures FirstPresent(xs, fallback) == fallback
  {
    if xs != [] {
      forall j | 0 <= j < |xs| - 1 ensures xs[1..][j].None? {
        assert xs[1..][j] == xs[j + 1];
      }
      FirstPresentNone(xs[1..], fallback);
    }
  }

  /** Rules in order: the result is stage `k`'s finding when the stages before it found nothing. */
  lemma DispatchStage(target: string, doc: Document, k: nat)
    requires k < 8 && Stages(target, doc)[k].Some?
    requires forall j :: 0 <= j < k ==> Stages(target, doc)[j].None?
    ensures Dispatch(target, doc) == Stages(target, doc)[k].value
  {
    FirstPresentAt(Stages(target, doc), NoAbstractSentinel, k);
  }

  /** When nothing is found, not even in the metadata, the result is the no-abstract sentinel. */
  lemma DispatchNothing(target: string, doc: Document)
    requires forall j :: 0 <= j < 8 ==> Stages(target, doc)[j].None?
    ensures Dispatch(target, doc) == NoAbstractSentinel
  {
    FirstPresentNone(Stages(target, doc), NoAbstractSentinel);
  }

  /** A page from none of the known publishers goes straight to its metadata. */
  lemma OtherHostUsesMetadata(target: string, doc: Document)
    requires !Includes(target, "sciencedirect.com") && !Includes(target, "arxiv.org")
    requires !Includes(target, "springer.com") && !Includes(target, "link.springer.com")
    requires !Includes(target, "semanticscholar.org") && !Includes(target, "pubmed.ncbi.nlm.nih.gov")
    requires !Includes(target, "scopus.com") && !Includes(target, "elsevier.com") && !Includes(target, "doi.org")
    ensures Dispatch(target, doc) == match MetaFallback(doc, MetaSelectors) case Some(c) => c case None => NoAbstractSentinel
  {
    var s := Stages(target, doc);
    assert forall j :: 0 <= j < 7 ==> s[j].None?;
    if s[7].Some? {
      DispatchStage(target, doc, 7);
    } else {
      DispatchNothing(target, doc);
    }
  }

  /**
   * `scrapeAbstractFromUrl`: fetch, parse with `parse` (the HTML parser),
   * run the cascade on the final URL; a fetch that gives up yields the
   * error sentinel instead of rejecting.
   */
  function ScrapeAbstract(url: string, get: nat -> Option<Response>, parse: string -> Document): (r: string)
    ensures FetchWithRetry(url, get, 0).page.None? ==> r == ErrorSentinel
    ensures FetchWithRetry(url, get, 0).page.Some? ==>
      var (html, finalUrl) := FetchWithRetry(url, get, 0).page.value;
      r == Dispatch(if finalUrl != "" then finalUrl else url, parse(html))
  {
    match FetchWithRetry(url, get, 0).page
    case None => ErrorSentinel
    case Some((html, finalUrl)) => Dispatch(if finalUrl != "" then finalUrl else url, parse(html))
  }

  /** Every request failing gives the error sentinel; any success gives the cascade's result on the page. */
  lemma ScrapeOutcome(url: string, get: nat -> Option<Response>, parse: string -> Document)
    ensures (forall k :: 0 <= k <= MaxRetries ==> get(k).None?) ==> ScrapeAbstract(url, get, parse) == ErrorSentinel
    ensures get(0).Some? ==>
      ScrapeAbstract(url, get, parse) == Dispatch(FinalUrl(get(0).value, url), parse(get(0).value.html))
  {
    FetchBounds(url, get);
  }
}
